/**
 One worker of monolake-core/src/orchestrator/service_executor.rs.

 `Deployment` says what a `ServiceCommand` does to the named sites of a worker.  `Executor` is
 the code: containers holding shared slots, stop channels, and the serve loops spawned for them.
 */
module Deployment {
  import opened Wrappers

  // Names and configurations are opaque to the orchestrator: it only copies and compares them.
  datatype Name = Name(text: string)
  datatype ServerConfig = ServerConfig(text: string)
  datatype ListenerConfig = ListenerConfig(text: string)

  /** A service remembers the factory that built it and the service it was handed to take state from. */
  datatype Service = Service(config: ServerConfig, predecessor: Option<Service>)

  /** `listener` is the configuration that the loop serving the committed service listens with. */
  datatype Site = Site(committed: Option<Service>, staged: Option<Service>, listener: Option<ListenerConfig>)

  type Worker = map<Name, Site>

  datatype Command =
    | Precommit(name: Name, config: ServerConfig)
    | Update(name: Name)
    | Commit(name: Name, listener: ListenerConfig)
    | PrepareAndCommit(name: Name, config: ServerConfig, listener: ListenerConfig)
    | Abort(name: Name)
    | Remove(name: Name)

  /** `Unreachable` is what the dispatcher notes for a worker that takes no command or gives no answer. */
  datatype CommandError =
    | BuildService
    | BuildListener
    | SiteNotExist
    | PreparationNotExist
    | PreviousHandlerNotExist
    | Unreachable

  /** Whether the two factories a command may call succeed on this worker. */
  datatype Fate = Fate(serviceBuilt: bool, listenerBuilt: bool)

  datatype Reply = Reply(worker: Worker, result: Result<(), CommandError>)

  function Committed(w: Worker, name: Name): Option<Service> {
    if name in w then w[name].committed else None
  }

  function Staged(w: Worker, name: Name): Option<Service> {
    if name in w then w[name].staged else None
  }

  function Listening(w: Worker, name: Name): Option<ListenerConfig> {
    if name in w then w[name].listener else None
  }

  function At(w: Worker, name: Name): Option<Site> {
    if name in w then Some(w[name]) else None
  }

  function WithSite(w: Worker, name: Name, site: Option<Site>): Worker {
    if site.Some? then w[name := site.value] else w - {name}
  }

  datatype SiteReply = SiteReply(site: Option<Site>, result: Result<(), CommandError>)

  /** What a command does to the one site it names; a failing command leaves it as it was. */
  function ExecSite(site: Option<Site>, cmd: Command, fate: Fate): SiteReply {
    var committed := if site.Some? then site.value.committed else None;
    var listener := if site.Some? then site.value.listener else None;
    match cmd
    case Precommit(_, config) =>
      if !fate.serviceBuilt then SiteReply(site, Err(BuildService))
      else SiteReply(Some(Site(committed, Some(Service(config, committed)), listener)), Ok(()))
    case Update(_) =>
      if site.None? then SiteReply(site, Err(SiteNotExist))
      else if committed.None? then SiteReply(site, Err(PreviousHandlerNotExist))
      else if site.value.staged.None? then SiteReply(site, Err(PreparationNotExist))
      else SiteReply(Some(Site(site.value.staged, None, listener)), Ok(()))
    case Commit(_, opening) =>
      if !fate.listenerBuilt then SiteReply(site, Err(BuildListener))
      else if site.None? then SiteReply(site, Err(SiteNotExist))
      else if site.value.staged.None? then SiteReply(site, Err(PreparationNotExist))
      else SiteReply(Some(Site(site.value.staged, None, Some(opening))), Ok(()))
    case PrepareAndCommit(_, config, opening) =>
      if !fate.serviceBuilt then SiteReply(site, Err(BuildService))
      else if !fate.listenerBuilt then SiteReply(site, Err(BuildListener))
      else SiteReply(Some(Site(Some(Service(config, None)), None, Some(opening))), Ok(()))
    case Abort(_) =>
      if site.None? then SiteReply(site, Err(SiteNotExist))
      else SiteReply(Some(Site(committed, None, listener)), Ok(()))
    case Remove(_) =>
      if site.None? then SiteReply(site, Err(SiteNotExist))
      else SiteReply(None, Ok(()))
  }

  function Exec(w: Worker, cmd: Command, fate: Fate): Reply {
    var r := ExecSite(At(w, cmd.name), cmd, fate);
    Reply(if r.result.Err? then w else WithSite(w, cmd.name, r.site), r.result)
  }

  /**
   Each command in terms of what is committed, staged and listening: when it succeeds, with which
   error it fails, and what it then has changed.
   */
  lemma ExecMeans(w: Worker, cmd: Command, fate: Fate)
    ensures var r, n := Exec(w, cmd, fate), cmd.name;
            var building, opening := cmd.Precommit? || cmd.PrepareAndCommit?, cmd.Commit? || cmd.PrepareAndCommit?;
            && (r.result == Err(BuildService) <==> building && !fate.serviceBuilt)
            && (r.result == Err(BuildListener) <==>
                  opening && !fate.listenerBuilt && (building ==> fate.serviceBuilt))
            && (r.result == Err(SiteNotExist) <==>
                  n !in w && !building && (opening ==> fate.listenerBuilt))
            && (r.result == Err(PreviousHandlerNotExist) <==> cmd.Update? && n in w && Committed(w, n).None?)
            && (r.result == Err(PreparationNotExist) <==>
                  n in w && Staged(w, n).None?
                  && ((cmd.Update? && Committed(w, n).Some?) || (cmd.Commit? && fate.listenerBuilt)))
            && r.result != Err(Unreachable)
    ensures var r, n := Exec(w, cmd, fate), cmd.name;
            && (forall m :: m != n || r.result.Err? ==> At(r.worker, m) == At(w, m))
            && (r.result.Ok? ==>
                  && (n in r.worker <==> !cmd.Remove?)
                  && Staged(r.worker, n) ==
                     (if cmd.Precommit? then Some(Service(cmd.config, Committed(w, n))) else None)
                  && Committed(r.worker, n) ==
                     (match cmd
                      case Precommit(_, _) => Committed(w, n)
                      case Abort(_) => Committed(w, n)
                      case Update(_) => Staged(w, n)
                      case Commit(_, _) => Staged(w, n)
                      case PrepareAndCommit(_, config, _) => Some(Service(config, None))
                      case Remove(_) => None)
                  && Listening(r.worker, n) ==
                     (if cmd.Commit? || cmd.PrepareAndCommit? then Some(cmd.listener)
                      else if cmd.Remove? then None else Listening(w, n)))
  {
  }

  /** The worker after a queue of commands. */
  function ExecAll(w: Worker, cmds: seq<(Command, Fate)>): Worker {
    if cmds == [] then w
    else Exec(ExecAll(w, cmds[..|cmds| - 1]), cmds[|cmds| - 1].0, cmds[|cmds| - 1].1).worker
  }
}

module Executor {
  import opened Wrappers
  import opened Deployment

  /** The cell shared between a container and the serve loop spawned for it. */
  class ServiceSlot {
    ghost const site: Name  // the only site whose container ever holds this slot
    var svc: Service

    constructor (ghost site: Name, svc: Service)
      ensures this.site == site && this.svc == svc
    {
      this.site, this.svc := site, svc;
    }
  }

  /** A one-shot channel whose sender only watches for the receiver to be dropped. */
  class StopChannel {
    ghost const site: Name
    var receiverHeld: bool

    constructor (ghost site: Name)
      ensures this.site == site && receiverHeld
    {
      this.site, receiverHeld := site, true;
    }
  }

  datatype SlotContainer = SlotContainer(slot: ServiceSlot, stop: StopChannel)

  datatype Container = Container(committed: Option<SlotContainer>, precommitted: Option<Service>)

  datatype LoopEvent = StopSeen | Accepted | AcceptFailed | ListenerClosed

  /** `serve`: each accepted connection takes the service that is in the slot at that moment. */
  class ServeLoop {
    ghost const name: Name
    const slot: ServiceSlot
    const stop: StopChannel
    const listener: ListenerConfig  // what the listener it accepts from was built with
    var ended: bool
    var connections: seq<Service>

    constructor (ghost name: Name, slot: ServiceSlot, stop: StopChannel, listener: ListenerConfig)
      ensures this.name == name && this.slot == slot && this.stop == stop && this.listener == listener
      ensures !ended && connections == []
    {
      this.name, this.slot, this.stop, this.listener := name, slot, stop, listener;
      ended, connections := false, [];
    }

    method Turn(event: LoopEvent)
      requires !ended
      requires event.StopSeen? ==> !stop.receiverHeld
      modifies this
      ensures ended == (event.StopSeen? || event.ListenerClosed?)
      ensures connections == old(connections) + if event.Accepted? then [slot.svc] else []
    {
      match event {
        case StopSeen => ended := true;
        case ListenerClosed => ended := true;
        case Accepted => connections := connections + [slot.svc];
        case AcceptFailed =>
      }
    }
  }

  /** What can happen next on a worker: it takes a command, or one of its loops makes a round. */
  datatype Happening = Told(cmd: Command, fate: Fate) | Round(loop: nat, event: LoopEvent)

  predicate Deploys(cmd: Command, r: Result<(), CommandError>) {
    r.Ok? && (cmd.Commit? || cmd.PrepareAndCommit?)
  }

  /** What a loop has to show for itself, the service in the slot it shares, and its listener. */
  datatype Account = Account(connections: seq<Service>, ended: bool, svc: Service, listener: ListenerConfig)

  /** A worker with an account for every loop it ever spawned, and the loop that owns each committed site. */
  datatype Life = Life(sites: Worker, owner: map<Name, nat>, book: seq<Account>)

  /**
   A deployment spawns a loop that owns the site from then on, an update puts the new service into
   the slot of the owner, and a removal leaves the site without one.
   */
  function Obeyed(s: Life, cmd: Command, fate: Fate): Life {
    var r, n := Exec(s.sites, cmd, fate), cmd.name;
    if Deploys(cmd, r.result) then
      Life(r.worker, s.owner[n := |s.book|], s.book + [Account([], false, r.worker[n].committed.value, cmd.listener)])
    else if cmd.Update? && r.result.Ok? && n in s.owner && s.owner[n] < |s.book| then
      Life(r.worker, s.owner, s.book[s.owner[n] := s.book[s.owner[n]].(svc := r.worker[n].committed.value)])
    else
      Life(r.worker, if cmd.Remove? then s.owner - {n} else s.owner, s.book)
  }

  /** A round changes its own loop's account only; a loop that ended, or owns a site, is not stopped. */
  function Turned(s: Life, j: nat, event: LoopEvent): Life {
    if j >= |s.book| || s.book[j].ended || (event.StopSeen? && j in s.owner.Values) then s
    else
      var a := s.book[j];
      s.(book := s.book[j := if event.Accepted? then a.(connections := a.connections + [a.svc])
                             else a.(ended := event.StopSeen? || event.ListenerClosed?)])
  }

  /** A new worker after all that happened. */
  function Lived(h: seq<Happening>): Life {
    if h == [] then Life(map[], map[], [])
    else
      var before := Lived(h[..|h| - 1]);
      match h[|h| - 1]
      case Told(cmd, fate) => Obeyed(before, cmd, fate)
      case Round(j, event) => Turned(before, j, event)
  }

  /** Every committed site has an owner of its own, whose slot holds what the site has committed. */
  ghost predicate Sound(s: Life) {
    && (forall n :: n in s.owner <==> Committed(s.sites, n).Some?)
    && (forall n :: n in s.owner ==>
          && s.owner[n] < |s.book| && Committed(s.sites, n) == Some(s.book[s.owner[n]].svc)
          && Listening(s.sites, n) == Some(s.book[s.owner[n]].listener))
    && (forall m, n :: m in s.owner && n in s.owner && m != n ==> s.owner[m] != s.owner[n])
  }

  lemma ExecCommits(w: Worker, cmd: Command, fate: Fate)
    ensures var r := Exec(w, cmd, fate);
            && (forall n :: n != cmd.name || r.result.Err? ==>
                  Committed(r.worker, n) == Committed(w, n) && Listening(r.worker, n) == Listening(w, n))
            && (Deploys(cmd, r.result) ==>
                  Committed(r.worker, cmd.name).Some? && Listening(r.worker, cmd.name) == Some(cmd.listener))
            && (cmd.Precommit? || cmd.Abort? || cmd.Update? ==> Listening(r.worker, cmd.name) == Listening(w, cmd.name))
            && (cmd.Update? && r.result.Ok? ==> Committed(w, cmd.name).Some? && Committed(r.worker, cmd.name).Some?)
            && (cmd.Remove? ==> Committed(r.worker, cmd.name).None?)
            && (cmd.Precommit? || cmd.Abort? ==> Committed(r.worker, cmd.name) == Committed(w, cmd.name))
  {
  }

  lemma TurnedSound(s: Life, j: nat, event: LoopEvent)
    requires Sound(s)
    ensures Sound(Turned(s, j, event))
  {
  }

  lemma ObeyedSound(s: Life, cmd: Command, fate: Fate)
    requires Sound(s)
    ensures Sound(Obeyed(s, cmd, fate))
  {
    hide Exec;
    ExecCommits(s.sites, cmd, fate);
  }

  lemma {:induction false} AlwaysSound(h: seq<Happening>)
    ensures Sound(Lived(h))
  {
    if h != [] {
      hide Sound, Obeyed;
      AlwaysSound(h[..|h| - 1]);
      var before := Lived(h[..|h| - 1]);
      match h[|h| - 1]
      case Told(cmd, fate) => ObeyedSound(before, cmd, fate);
      case Round(j, event) => TurnedSound(before, j, event);
    }
  }

  /** Accounts are never closed: connections stay with the service they got, and ended loops stay ended. */
  ghost predicate Extends(before: Account, after: Account) {
    before.connections <= after.connections && (before.ended ==> after == before.(svc := after.svc))
  }

  lemma {:induction false} AccountsExtend(h: seq<Happening>, k: nat, j: nat)
    requires k <= |h| && j < |Lived(h[..k]).book|
    ensures j < |Lived(h).book| && Extends(Lived(h[..k]).book[j], Lived(h).book[j])
  {
    if k == |h| {
      assert h[..k] == h;
    } else {
      assert h[..|h| - 1][..k] == h[..k];
      AccountsExtend(h[..|h| - 1], k, j);
    }
  }

  /**
   Main result: an accept is missed only by a loop that had ended before it.  Otherwise the
   connection gets the service in the slot at that moment, which is the one committed then if the
   loop owns a site, and still has it in the end.
   */
  lemma {:induction false} AcceptedGets(h: seq<Happening>, k: nat, j: nat)
    requires k < |h| && h[k] == Round(j, Accepted)
    requires var s := Lived(h[..k]); j < |s.book| && !s.book[j].ended
    ensures var s := Lived(h[..k]);
            var c, end := |s.book[j].connections|, Lived(h).book;
            && j < |end| && c < |end[j].connections| && end[j].connections[c] == s.book[j].svc
            && forall n :: n in s.owner && s.owner[n] == j ==> Committed(s.sites, n) == Some(end[j].connections[c])
  {
    AlwaysSound(h[..k]);
    assert h[..k + 1][..k] == h[..k];
    AccountsExtend(h, k + 1, j);
  }

  /** And there are no other connections. */
  lemma {:induction false} ConnectionsWereAccepted(h: seq<Happening>, j: nat, c: nat) returns (k: nat)
    requires j < |Lived(h).book| && c < |Lived(h).book[j].connections|
    ensures k < |h| && h[k] == Round(j, Accepted)
    ensures var before := Lived(h[..k]).book;
            j < |before| && !before[j].ended && |before[j].connections| == c
  {
    k := |h| - 1;
    var before := Lived(h[..k]).book;
    if j < |before| && c < |before[j].connections| {
      var last := k;
      k := ConnectionsWereAccepted(h[..last], j, c);
      assert h[..last][..k] == h[..k];
    }
  }

  /** A round ends its loop exactly if the listener is closed, or the loop owns no site and sees the stop. */
  lemma RoundsEnd(h: seq<Happening>, j: nat, event: LoopEvent)
    requires j < |Lived(h).book| && !Lived(h).book[j].ended
    ensures var s, after := Lived(h), Lived(h + [Round(j, event)]);
            && |after.book| == |s.book| && after.sites == s.sites && after.owner == s.owner
            && (after.book[j].ended <==> event.ListenerClosed? || (event.StopSeen? && j !in s.owner.Values))
            && forall i :: 0 <= i < |s.book| && i != j ==> after.book[i] == s.book[i]
  {
    assert (h + [Round(j, event)])[..|h|] == h;
  }

  /** The loop that owns a site is notified exactly by the removal of the site, or its next deployment. */
  lemma NotifiedExactly(h: seq<Happening>, n: Name, cmd: Command, fate: Fate)
    requires n in Lived(h).owner
    ensures var s, after := Lived(h), Lived(h + [Told(cmd, fate)]);
            s.owner[n] !in after.owner.Values <==>
            cmd.name == n && (cmd.Remove? || ((cmd.Commit? || cmd.PrepareAndCommit?)
                                              && Exec(s.sites, cmd, fate).result.Ok?))
  {
    hide Exec;
    assert (h + [Told(cmd, fate)])[..|h|] == h;
    AlwaysSound(h);
    var s, after := Lived(h), Lived(h + [Told(cmd, fate)]);
    if n in after.owner && after.owner[n] == s.owner[n] {
      assert s.owner[n] in after.owner.Values;
    }
  }

  /** A loop notified to stop never owns a site again, and goes on handing out the last service of its slot. */
  lemma {:induction false} NotifiedKeepsService(h: seq<Happening>, k: nat, j: nat)
    requires k <= |h|
    requires var s := Lived(h[..k]); j < |s.book| && j !in s.owner.Values
    ensures var s, end := Lived(h[..k]), Lived(h);
            j < |end.book| && j !in end.owner.Values && end.book[j].svc == s.book[j].svc
  {
    if k == |h| {
      assert h[..k] == h;
    } else {
      assert h[..|h| - 1][..k] == h[..k];
      NotifiedKeepsService(h[..|h| - 1], k, j);
    }
  }

  ghost function Accounts(loops: seq<ServeLoop>): (a: seq<Account>)
    reads loops, set l | l in loops :: l.slot
    ensures |a| == |loops|
    ensures forall j :: 0 <= j < |a| ==>
              a[j] == Account(loops[j].connections, loops[j].ended, loops[j].slot.svc, loops[j].listener)
  {
    if loops == [] then []
    else
      var last := loops[|loops| - 1];
      Accounts(loops[..|loops| - 1]) + [Account(last.connections, last.ended, last.slot.svc, last.listener)]
  }

  lemma AccountsAre(loops: seq<ServeLoop>, a: seq<Account>)
    requires |a| == |loops|
    requires forall j :: 0 <= j < |a| ==>
              a[j] == Account(loops[j].connections, loops[j].ended, loops[j].slot.svc, loops[j].listener)
    ensures Accounts(loops) == a
  {
  }

  /** No two loops share a slot, and the loops owning sites stand where the index says. */
  ghost predicate Indexed(loops: seq<ServeLoop>, owner: map<Name, ServeLoop>, index: map<Name, nat>) {
    && (forall i, j :: 0 <= i < j < |loops| ==> loops[i] != loops[j] && loops[i].slot != loops[j].slot)
    && index.Keys == owner.Keys
    && (forall n :: n in index ==> index[n] < |loops| && loops[index[n]] == owner[n])
  }

  lemma IndexedGrows(loops: seq<ServeLoop>, owner: map<Name, ServeLoop>, index: map<Name, nat>, n: Name, l: ServeLoop)
    requires Indexed(loops, owner, index)
    requires forall m :: m in loops ==> m != l && m.slot != l.slot
    ensures Indexed(loops + [l], owner[n := l], index[n := |loops|])
  {
    assert forall i :: 0 <= i < |loops| ==> loops[i] in loops;
    assert index[n := |loops|].Keys == index.Keys + {n};
    assert owner[n := l].Keys == owner.Keys + {n};
  }

  lemma IndexedShrinks(loops: seq<ServeLoop>, owner: map<Name, ServeLoop>, index: map<Name, nat>, n: Name)
    requires Indexed(loops, owner, index)
    ensures Indexed(loops, owner - {n}, index - {n})
  {
    assert (index - {n}).Keys == index.Keys - {n};
    assert (owner - {n}).Keys == owner.Keys - {n};
  }

  lemma SlotAt(loops: seq<ServeLoop>, owner: map<Name, ServeLoop>, index: map<Name, nat>, n: Name)
    requires Indexed(loops, owner, index)
    ensures n in owner <==> n in index
    ensures n in index ==> index[n] < |loops| && loops[index[n]] == owner[n]
    ensures n in index ==> forall j :: 0 <= j < |loops| && j != index[n] ==> loops[j].slot != owner[n].slot
  {
  }

  lemma OwnerAt(loops: seq<ServeLoop>, owner: map<Name, ServeLoop>, index: map<Name, nat>)
    requires Indexed(loops, owner, index)
    ensures forall n :: n in owner <==> n in index
    ensures forall n :: n in index ==> index[n] < |loops| && loops[index[n]] == owner[n]
    ensures forall i, j :: 0 <= i < j < |loops| ==> loops[i] != loops[j]
  {
  }

  class ServiceExecutor {
    var sites: map<Name, Container>
    var loops: seq<ServeLoop>                  // every loop ever spawned
    ghost var owner: map<Name, ServeLoop>    // the loop spawned for each committed container
    ghost var Repr: set<object>

    /**
     Slots and stop channels are never shared between sites.  A committed container shares both
     with the loop that owns the site, and only owners have a stop receiver that is still held.
     */
    ghost predicate Valid()
      reads this, Repr
      ensures Valid() ==> this in Repr
      ensures Valid() ==> forall l {:trigger l in loops} :: l in loops ==> l in Repr && l.slot in Repr && l.stop in Repr
    {
      && this in Repr
      && (forall l {:trigger l in loops} :: l in loops ==> l in Repr && l.slot in Repr && l.stop in Repr)
      && (forall l {:trigger l in loops} :: l in loops ==> l.slot.site == l.name == l.stop.site)
      && (forall n :: n in owner <==> n in sites && sites[n].committed.Some?)
      && (forall n :: n in owner ==>
            && owner[n] in loops && owner[n].name == n && owner[n].stop.receiverHeld
            && sites[n].committed.value == SlotContainer(owner[n].slot, owner[n].stop))
      && (forall l {:trigger l in loops} :: l in loops && l.stop.receiverHeld ==>
            l.name in owner && owner[l.name] == l)
    }

    ghost function View(): Worker
      reads this, Repr
      requires Valid()
    {
      map n | n in sites ::
        Site(if n in owner then Some(owner[n].slot.svc) else None, sites[n].precommitted,
             if n in owner then Some(owner[n].listener) else None)
    }

    /** The loops of a site that have not been notified to stop. */
    ghost function Running(name: Name): set<ServeLoop>
      reads this, Repr
      requires Valid()
    {
      set l | l in loops && l.name == name && l.stop.receiverHeld
    }

    /**
     A site with a committed service has exactly one loop not yet notified to stop, and the next
     connection that loop accepts gets the committed service; any other site has none.
     */
    lemma OneLoopPerSite(name: Name)
      requires Valid()
      ensures Running(name) == if name in owner then {owner[name]} else {}
      ensures name in owner <==> Committed(View(), name).Some?
      ensures name in owner ==> Committed(View(), name) == Some(owner[name].slot.svc)
      ensures name in owner ==> Listening(View(), name) == Some(owner[name].listener)
    {
    }

    constructor ()
      ensures Valid() && fresh(Repr) && View() == map[] && loops == []
    {
      sites, loops, owner, Repr := map[], [], map[], {this};
    }

    lemma ViewIs(w: Worker)
      requires Valid()
      requires forall n :: n in w <==> n in sites
      requires forall n :: n in sites ==>
                 w[n] == Site(if n in owner then Some(owner[n].slot.svc) else None, sites[n].precommitted,
                              if n in owner then Some(owner[n].listener) else None)
      ensures View() == w
    {
    }

    lemma ViewOf(name: Name)
      requires Valid()
      ensures name in sites <==> name in View()
      ensures name in sites ==> View()[name].staged == sites[name].precommitted
      ensures name in owner <==> Committed(View(), name).Some?
      ensures name in owner <==> name in sites && sites[name].committed.Some?
      ensures name in owner ==> owner[name] in loops
    {
    }

    method GetSvc(name: Name) returns (svc: Option<Service>)
      requires Valid()
      ensures svc == Committed(View(), name)
    {
      svc := None;
      if name in sites && sites[name].committed.Some? {
        svc := Some(sites[name].committed.value.slot.svc);
      }
    }

    /** Sets what a site has staged, creating its container if need be; the slot is not touched. */
    method SetStaged(name: Name, staged: Option<Service>)
      requires Valid()
      modifies this`sites
      ensures Valid() && name in sites
      ensures View() == old(View())[name := Site(Committed(old(View()), name), staged, Listening(old(View()), name))]
    {
      var sh := if name in sites then sites[name] else Container(None, None);
      sites := sites[name := sh.(precommitted := staged)];
    }

    /** `ServiceSlot::update_svc` on the slot a site shares with its loop. */
    method SwitchSlot(name: Name, svc: Service)
      requires Valid() && name in owner
      modifies owner[name].slot
      ensures Valid()
      ensures View() == old(View())[name := Site(Some(svc), Staged(old(View()), name), Listening(old(View()), name))]
    {
      sites[name].committed.value.slot.svc := svc;
    }

    method PrecommitSvc(name: Name, svc: Service)
      requires Valid()
      modifies this`sites
      ensures Valid()
      ensures View() == old(View())[name := Site(Committed(old(View()), name), Some(svc), Listening(old(View()), name))]
    {
      hide Valid, View;
      SetStaged(name, Some(svc));
    }

    /** Switches the service inside the shared slot, so the loop that holds the slot goes on. */
    method UpdateWithPrecommittedSvc(name: Name) returns (r: Result<(), CommandError>)
      requires Valid()
      modifies this`sites, set n | n == name && n in owner :: owner[n].slot
      ensures Valid()
      ensures Reply(View(), r) == Exec(old(View()), Update(name), Fate(true, true))
      ensures r.Err? ==> forall l :: l in loops ==> l.slot.svc == old(l.slot.svc)
    {
      hide Valid, View;
      ViewOf(name);
      if name !in sites {
        return Err(SiteNotExist);
      }
      var sh := sites[name];
      if sh.committed.None? {
        return Err(PreviousHandlerNotExist);
      }
      if sh.precommitted.None? {
        return Err(PreparationNotExist);
      }
      SetStaged(name, None);
      SwitchSlot(name, sh.precommitted.value);
      r := Ok(());
    }

    /** Dropping a slot container drops its stop receiver, which notifies the loop that owned the site. */
    method DropCommitted(name: Name)
      requires Valid() && name in sites
      modifies this`sites, this`owner, set l | l in loops :: l.stop
      ensures Valid()
      ensures name in sites && owner == old(owner) - {name}
      ensures View() == old(View())[name := Site(None, old(sites)[name].precommitted, None)]
    {
      if sites[name].committed.Some? {
        sites[name].committed.value.stop.receiverHeld := false;
      }
      sites := sites[name := sites[name].(committed := None)];
      owner := owner - {name};
      ViewIs(old(View())[name := Site(None, old(sites)[name].precommitted, None)]);
    }

    /** Installs a loop and the container that shares its slot and stop channel. */
    method Attach(name: Name, l: ServeLoop)
      requires Valid() && name in sites && name !in owner
      requires l.name == l.slot.site == l.stop.site == name && l.stop.receiverHeld
      requires forall m :: m in loops ==> m.stop != l.stop
      modifies this
      ensures Valid() && Repr == old(Repr) + {l, l.slot, l.stop}
      ensures owner == old(owner)[name := l] && loops == old(loops) + [l]
      ensures View() == old(View())[name := Site(Some(l.slot.svc), None, Some(l.listener))]
    {
      sites := sites[name := Container(Some(SlotContainer(l.slot, l.stop)), None)];
      loops := loops + [l];
      owner := owner[name := l];
      Repr := Repr + {l, l.slot, l.stop};
      ViewIs(old(View())[name := Site(Some(l.slot.svc), None, Some(l.listener))]);
    }

    /** `ServiceSlotContainer::create` for a site without one, and the loop spawned on its slot. */
    method CreateAndServe(name: Name, svc: Service, listener: ListenerConfig)
      requires Valid() && name in sites && name !in owner
      modifies this
      ensures Valid() && fresh(Repr - old(Repr))
      ensures name in owner && fresh(owner[name]) && fresh(owner[name].slot) && owner == old(owner)[name := owner[name]]
      ensures loops == old(loops) + [owner[name]] && !owner[name].ended && owner[name].connections == []
      ensures View() == old(View())[name := Site(Some(svc), None, Some(listener))]
    {
      hide Valid, View;
      var slot := new ServiceSlot(name, svc);
      var stop := new StopChannel(name);
      var l := new ServeLoop(name, slot, stop, listener);
      Attach(name, l);
    }

    /**
     `deploy_staged_service` followed by `spawn(serve(..))`, as both callers do.  Assigning the
     new slot container drops the old one.
     */
    method DeployAndServe(name: Name, listener: ListenerConfig) returns (r: Result<(), CommandError>)
      requires Valid()
      modifies this, set l | l in loops :: l.stop
      ensures Valid() && fresh(Repr - old(Repr))
      ensures Reply(View(), r) == Exec(old(View()), Commit(name, listener), Fate(true, true))
      ensures r.Err? ==> owner == old(owner) && loops == old(loops)
      ensures r.Ok? ==> name in owner && fresh(owner[name]) && fresh(owner[name].slot)
                        && owner == old(owner)[name := owner[name]]
                        && loops == old(loops) + [owner[name]]
                        && !owner[name].ended && owner[name].connections == []
    {
      hide Valid, View;
      ViewOf(name);
      if name !in sites {
        return Err(SiteNotExist);
      }
      var sh := sites[name];
      if sh.precommitted.None? {
        return Err(PreparationNotExist);
      }
      DropCommitted(name);
      CreateAndServe(name, sh.precommitted.value, listener);
      r := Ok(());
    }

    method Detach(name: Name)
      requires Valid() && name !in owner
      modifies this`sites
      ensures Valid() && View() == old(View()) - {name}
    {
      sites := sites - {name};
    }

    method RemoveSite(name: Name) returns (r: Result<(), CommandError>)
      requires Valid()
      modifies this`sites, this`owner, set l | l in loops :: l.stop
      ensures Valid()
      ensures Reply(View(), r) == Exec(old(View()), Remove(name), Fate(true, true))
      ensures owner == old(owner) - {name} && (r.Err? ==> owner == old(owner))
    {
      hide Valid, View;
      ViewOf(name);
      if name !in sites {
        return Err(SiteNotExist);
      }
      DropCommitted(name);
      Detach(name);
      r := Ok(());
    }

    method AbortSite(name: Name) returns (r: Result<(), CommandError>)
      requires Valid()
      modifies this`sites
      ensures Valid()
      ensures Reply(View(), r) == Exec(old(View()), Abort(name), Fate(true, true))
    {
      hide Valid, View;
      ViewOf(name);
      if name !in sites {
        return Err(SiteNotExist);
      }
      SetStaged(name, None);
      r := Ok(());
    }

    /**
     `ServiceCommand::execute`.  The factories are the caller's; `fate` says whether they succeed.
     Updating keeps a site's loop, redeploying replaces it, removing leaves the site without one;
     no command touches a loop itself or the connections it has accepted.
     */
    method Execute(cmd: Command, fate: Fate) returns (r: Result<(), CommandError>)
      requires Valid()
      modifies Repr
      ensures Valid() && fresh(Repr - old(Repr))
      ensures Reply(View(), r) == Exec(old(View()), cmd, fate)
      ensures forall l :: l in old(loops) ==> unchanged(l)
      ensures Deploys(cmd, r) ==> cmd.name in owner && fresh(owner[cmd.name]) && fresh(owner[cmd.name].slot)
                                  && owner == old(owner)[cmd.name := owner[cmd.name]]
                                  && loops == old(loops) + [owner[cmd.name]]
                                  && !owner[cmd.name].ended && owner[cmd.name].connections == []
      ensures !Deploys(cmd, r) ==> loops == old(loops)
                                   && owner == if cmd.Remove? then old(owner) - {cmd.name} else old(owner)
      ensures forall l :: l in old(loops) ==>
                (cmd.Update? && r.Ok? && cmd.name in owner && l.slot == owner[cmd.name].slot)
                || l.slot.svc == old(l.slot.svc)
    {
      hide Valid, View;
      match cmd
      case Precommit(name, config) =>
        var current := GetSvc(name);
        if !fate.serviceBuilt {
          return Err(BuildService);
        }
        PrecommitSvc(name, Service(config, current));
        r := Ok(());
      case Update(name) =>
        ViewOf(name);
        r := UpdateWithPrecommittedSvc(name);
      case Commit(name, listener) =>
        if !fate.listenerBuilt {
          return Err(BuildListener);
        }
        r := DeployAndServe(name, listener);
      case PrepareAndCommit(name, config, listener) =>
        if !fate.serviceBuilt {
          return Err(BuildService);
        }
        if !fate.listenerBuilt {
          return Err(BuildListener);
        }
        PrecommitSvc(name, Service(config, None));
        r := DeployAndServe(name, listener);
      case Abort(name) =>
        r := AbortSite(name);
      case Remove(name) =>
        r := RemoveSite(name);
    }

    /** The worker's control loop: one command at a time, each answered before the next is taken. */
    method Run(tasks: seq<(Command, Fate)>) returns (results: seq<Result<(), CommandError>>)
      requires Valid()
      modifies Repr
      ensures Valid() && fresh(Repr - old(Repr))
      ensures View() == ExecAll(old(View()), tasks)
      ensures |results| == |tasks|
      ensures forall i :: 0 <= i < |tasks| ==>
                results[i] == Exec(ExecAll(old(View()), tasks[..i]), tasks[i].0, tasks[i].1).result
      ensures forall l :: l in old(loops) ==> l in loops && unchanged(l)
    {
      hide View, Exec, Valid;
      results := [];
      for k := 0 to |tasks|
        invariant Valid() && fresh(Repr - old(Repr))
        invariant View() == ExecAll(old(View()), tasks[..k])
        invariant |results| == k
        invariant forall i :: 0 <= i < k ==>
                    results[i] == Exec(ExecAll(old(View()), tasks[..i]), tasks[i].0, tasks[i].1).result
        invariant forall l :: l in old(loops) ==> l in loops && unchanged(l)
      {
        var r := Execute(tasks[k].0, tasks[k].1);
        results := results + [r];
        assert tasks[..k + 1][..k] == tasks[..k];
      }
      assert tasks[..|tasks|] == tasks;
    }

    /**
     One turn of one serve loop; the sites and every other loop stay as they are.  What a
     connection got at accept is never changed afterwards.
     */
    method Serve(l: ServeLoop, event: LoopEvent)
      requires Valid() && l in loops && !l.ended
      requires event.StopSeen? ==> !l.stop.receiverHeld
      modifies l
      ensures Valid() && View() == old(View())
      ensures l.connections == old(l.connections) + if event.Accepted? then [l.slot.svc] else []
      ensures l.stop.receiverHeld ==> Committed(View(), l.name) == Some(l.slot.svc)
      ensures l.ended == (event.StopSeen? || event.ListenerClosed?)
    {
      l.Turn(event);
    }

    /** The objects are those of a worker with this life. */
    ghost predicate Leads(s: Life)
      reads this, Repr
      requires Valid()
    {
      assert forall l :: l in loops ==> l in Repr && l.slot in Repr;
      View() == s.sites && Indexed(loops, owner, s.owner) && Accounts(loops) == s.book
    }

    /** What a command does to the accounts. */
    method Perform(cmd: Command, fate: Fate, ghost index: map<Name, nat>) returns (r: Result<(), CommandError>)
      requires Valid() && Indexed(loops, owner, index)
      modifies Repr
      ensures Valid() && fresh(Repr - old(Repr))
      ensures Reply(View(), r) == Exec(old(View()), cmd, fate)
      ensures cmd.name in owner ==> Committed(View(), cmd.name) == Some(owner[cmd.name].slot.svc)
      ensures cmd.name in owner ==> Listening(View(), cmd.name) == Some(owner[cmd.name].listener)
      ensures if Deploys(cmd, r) then
                && cmd.name in owner && Indexed(loops, owner, index[cmd.name := old(|loops|)])
                && Accounts(loops) ==
                   old(Accounts(loops)) + [Account([], false, owner[cmd.name].slot.svc, owner[cmd.name].listener)]
              else
                && Indexed(loops, owner, if cmd.Remove? then index - {cmd.name} else index)
                && |loops| == old(|loops|)
                && if cmd.Update? && r.Ok? && cmd.name in owner then
                     index[cmd.name] < |loops| &&
                     var a := old(Accounts(loops));
                     Accounts(loops) == a[index[cmd.name] := a[index[cmd.name]].(svc := owner[cmd.name].slot.svc)]
                   else Accounts(loops) == old(Accounts(loops))
    {
      hide View, Valid, Indexed, Exec;
      var name := cmd.name;
      ghost var before := Accounts(loops);
      SlotAt(loops, owner, index, name);
      r := Execute(cmd, fate);
      OneLoopPerSite(name);
      assert forall j :: 0 <= j < |before| ==> loops[j] == old(loops)[j] && loops[j] in old(loops);
      if Deploys(cmd, r) {
        IndexedGrows(old(loops), old(owner), index, name, owner[name]);
        AccountsAre(loops, before + [Account([], false, owner[name].slot.svc, owner[name].listener)]);
      } else if cmd.Update? && r.Ok? && name in owner {
        AccountsAre(loops, before[index[name] := before[index[name]].(svc := owner[name].slot.svc)]);
      } else {
        if cmd.Remove? {
          IndexedShrinks(old(loops), old(owner), index, name);
        }
        AccountsAre(loops, before);
      }
    }

    method Obey(cmd: Command, fate: Fate, ghost s: Life)
      requires Valid() && Leads(s)
      modifies Repr
      ensures Valid() && fresh(Repr - old(Repr)) && Leads(Obeyed(s, cmd, fate))
    {
      hide View, Valid, Indexed, Exec, Accounts;
      SlotAt(loops, owner, s.owner, cmd.name);
      ExecCommits(View(), cmd, fate);
      var _ := Perform(cmd, fate, s.owner);
      SlotAt(loops, owner, Obeyed(s, cmd, fate).owner, cmd.name);
    }

    /** A round of a loop.  A round that cannot take place is skipped. */
    method Spin(j: nat, event: LoopEvent, ghost s: Life)
      requires Valid() && Leads(s)
      modifies Repr
      ensures Valid() && Repr == old(Repr) && Leads(Turned(s, j, event))
    {
      hide View, Indexed;
      OwnerAt(loops, owner, s.owner);
      if j < |loops| {
        assert loops[j] in loops && loops[j].stop.receiverHeld <==> j in s.owner.Values by {
          assert forall n :: n in owner && loops[j] == owner[n] ==> s.owner[n] == j;
        }
        if !loops[j].ended && (event.StopSeen? ==> !loops[j].stop.receiverHeld) {
          Serve(loops[j], event);
        }
      }
      AccountsAre(loops, Turned(s, j, event).book);
    }

    /**
     The life of a new worker: commands, and rounds of its loops, in any order.  What it leaves in
     the objects is what the lemmas about `Lived` speak of.
     */
    method Live(h: seq<Happening>)
      requires Valid() && View() == map[] && loops == []
      modifies Repr
      ensures Valid() && fresh(Repr - old(Repr)) && Leads(Lived(h))
    {
      ViewOf(Name(""));
      assert h[..0] == [] && Leads(Lived([]));
      hide View, Leads, Valid, Obeyed, Turned;
      for k := 0 to |h|
        invariant Valid() && fresh(Repr - old(Repr)) && Leads(Lived(h[..k]))
      {
        match h[k] {
          case Told(cmd, fate) =>
            Obey(cmd, fate, Lived(h[..k]));
          case Round(j, event) =>
            Spin(j, event, Lived(h[..k]));
        }
        assert h[..k + 1][..k] == h[..k];
      }
      assert h[..|h|] == h;
    }
  }
}
