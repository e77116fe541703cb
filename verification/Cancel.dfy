/**
 The cancellation registry of monolake-services/src/common/cancel/mod.rs.

 `CancelSpec` is the registry as a state machine over the events that tasks can cause, with
 the wake-up theorem over every legal history.  `CancelRegistry` is the code: a shared handler
 owning a slab list of wakers, and waiters that remember a handle into that list.
 */
module CancelSpec {
  import opened Sequences

  datatype Registration<W, K> = Registration(waiter: W, waker: K)

  /**
   `strong` counts the cancellers, `members` are the waiters not dropped yet, `waiting` the
   registered ones in registration order, `woken` every wake-up ever issued.
   */
  datatype Registry<W, K> = Registry(
    strong: nat, cancelled: bool, members: set<W>,
    waiting: seq<Registration<W, K>>, woken: seq<Registration<W, K>>)

  datatype Event<W, K> =
    | Create(waiter: W)            // `Canceller::waiter` or `Waiter::clone`
    | Poll(waiter: W, waker: K)
    | Drop(waiter: W)
    | CloneCanceller
    | DropCanceller
    | Cancel

  ghost predicate Registered<W, K>(r: Registry<W, K>, w: W) {
    exists k :: 0 <= k < |r.waiting| && r.waiting[k].waiter == w
  }

  ghost function Slot<W, K>(r: Registry<W, K>, w: W): (k: nat)
    requires Registered(r, w)
    ensures k < |r.waiting| && r.waiting[k].waiter == w
  {
    var k :| 0 <= k < |r.waiting| && r.waiting[k].waiter == w; k
  }

  /** `poll` answers Ready as soon as there is nothing left to wait for. */
  predicate Ready<W, K>(r: Registry<W, K>) {
    r.strong == 0 || r.cancelled
  }

  ghost function Polled<W, K>(r: Registry<W, K>, w: W, k: K): Registry<W, K> {
    if Ready(r) then r
    else if Registered(r, w) then r.(waiting := r.waiting[Slot(r, w) := Registration(w, k)])
    else r.(waiting := r.waiting + [Registration(w, k)])
  }

  lemma PolledWaits<W, K>(r: Registry<W, K>, w: W, k: K)
    requires !Ready(r)
    ensures Registration(w, k) in Polled(r, w, k).waiting
  {
    if Registered(r, w) {
      assert Polled(r, w, k).waiting[Slot(r, w)] == Registration(w, k);
    } else {
      assert Polled(r, w, k).waiting[|r.waiting|] == Registration(w, k);
    }
  }

  ghost function Dropped<W, K>(r: Registry<W, K>, w: W): Registry<W, K> {
    var waiting := if Registered(r, w) then Delete(r.waiting, Slot(r, w)) else r.waiting;
    r.(members := r.members - {w}, waiting := waiting)
  }

  function Cancelled<W, K>(r: Registry<W, K>): Registry<W, K> {
    if r.cancelled then r else r.(cancelled := true, waiting := [], woken := r.woken + r.waiting)
  }

  /** When the last canceller goes, the handler and its list go with it; nobody is woken. */
  function Released<W, K>(r: Registry<W, K>): Registry<W, K>
    requires r.strong > 0
  {
    r.(strong := r.strong - 1, waiting := if r.strong == 1 then [] else r.waiting)
  }

  /** What ownership allows: only existing waiters and cancellers can be used, and either can make a waiter. */
  ghost predicate Enabled<W, K>(r: Registry<W, K>, e: Event<W, K>) {
    match e
    case Create(w) => w !in r.members && (r.strong > 0 || r.members != {})
    case Poll(w, _) => w in r.members
    case Drop(w) => w in r.members
    case CloneCanceller => r.strong > 0
    case DropCanceller => r.strong > 0
    case Cancel => r.strong > 0
  }

  ghost function Step<W, K>(r: Registry<W, K>, e: Event<W, K>): Registry<W, K>
    requires Enabled(r, e)
  {
    match e
    case Create(w) => r.(members := r.members + {w})
    case Poll(w, k) => Polled(r, w, k)
    case Drop(w) => Dropped(r, w)
    case CloneCanceller => r.(strong := r.strong + 1)
    case DropCanceller => Released(r)
    case Cancel => Cancelled(r)
  }

  /** A legal history uses each waiter only while it exists and never reuses an identity. */
  ghost predicate Legal<W, K>(t: seq<Event<W, K>>)
    decreases |t|, 0
  {
    t == [] ||
    var init, last := t[..|t| - 1], t[|t| - 1];
    Legal(init) && Enabled(Run(init), last) && (last.Create? ==> last !in init)
  }

  ghost function Run<W, K>(t: seq<Event<W, K>>): Registry<W, K>
    requires Legal(t)
    decreases |t|, 1
  {
    if t == [] then Registry(1, false, {}, [], []) else Step(Run(t[..|t| - 1]), t[|t| - 1])
  }

  // ----- the history read without the registry -----

  ghost predicate HasPolled<W, K>(t: seq<Event<W, K>>, w: W) {
    exists p :: 0 <= p < |t| && t[p].Poll? && t[p].waiter == w
  }

  ghost predicate HasDropped<W, K>(t: seq<Event<W, K>>, w: W) {
    Event<W, K>.Drop(w) in t
  }

  ghost function FirstPoll<W, K>(t: seq<Event<W, K>>, w: W): (p: nat)
    requires HasPolled(t, w)
    ensures p < |t| && t[p].Poll? && t[p].waiter == w && !HasPolled(t[..p], w)
  {
    var init := t[..|t| - 1];
    if HasPolled(init, w) then
      var p := FirstPoll(init, w);
      assert init[..p] == t[..p];
      p
    else |t| - 1
  }

  ghost function LastWaker<W, K>(t: seq<Event<W, K>>, w: W): K
    requires HasPolled(t, w)
  {
    var last := t[|t| - 1];
    if last.Poll? && last.waiter == w then last.waker
    else
      var p :| 0 <= p < |t| && t[p].Poll? && t[p].waiter == w;
      assert t[..|t| - 1][p] == t[p];
      LastWaker(t[..|t| - 1], w)
  }

  /** `regs` holds exactly the waiters that polled and still exist, by first poll, with their last waker. */
  ghost predicate Describes<W(!new), K>(t: seq<Event<W, K>>, regs: seq<Registration<W, K>>) {
    && (forall i :: 0 <= i < |regs| ==>
          HasPolled(t, regs[i].waiter) && !HasDropped(t, regs[i].waiter)
          && regs[i].waker == LastWaker(t, regs[i].waiter))
    && (forall i, j :: 0 <= i < j < |regs| ==> FirstPoll(t, regs[i].waiter) < FirstPoll(t, regs[j].waiter))
    && (forall w :: HasPolled(t, w) && !HasDropped(t, w) ==> exists i :: 0 <= i < |regs| && regs[i].waiter == w)
  }

  // ----- one more event -----

  lemma PolledExtends<W, K>(t: seq<Event<W, K>>, w: W)
    requires t != []
    ensures var init, last := t[..|t| - 1], t[|t| - 1];
            && (HasPolled(t, w) <==> HasPolled(init, w) || (last.Poll? && last.waiter == w))
            && (HasDropped(t, w) <==> HasDropped(init, w) || last == Event<W, K>.Drop(w))
            && (HasPolled(init, w) ==> FirstPoll(t, w) == FirstPoll(init, w) < |init|)
            && (HasPolled(init, w) && !(last.Poll? && last.waiter == w) ==> LastWaker(t, w) == LastWaker(init, w))
  {
  }

  /** Dropping ends a waiter's life for good, and whoever acted was created. */
  lemma {:induction false} MembersAreAlive<W(!new), K>(t: seq<Event<W, K>>)
    requires Legal(t)
    ensures forall w :: w in Run(t).members ==> Event<W, K>.Create(w) in t && !HasDropped(t, w)
    ensures forall w :: HasPolled(t, w) || HasDropped(t, w) ==> Event<W, K>.Create(w) in t
  {
    if t != [] {
      var init, last := t[..|t| - 1], t[|t| - 1];
      MembersAreAlive(init);
      forall w ensures HasPolled(t, w) <==> HasPolled(init, w) || (last.Poll? && last.waiter == w) {
        PolledExtends(t, w);
      }
      assert t == init + [last];
    }
  }

  lemma {:induction false} WaitingIsDescribed<W(!new), K>(t: seq<Event<W, K>>)
    requires Legal(t) && !Ready(Run(t))
    ensures Describes(t, Run(t).waiting)
    ensures Run(t).woken == []
    ensures forall i :: 0 <= i < |Run(t).waiting| ==> Run(t).waiting[i].waiter in Run(t).members
  {
    if t != [] {
      var init, last := t[..|t| - 1], t[|t| - 1];
      WaitingIsDescribed(init);
      MembersAreAlive(init);
      forall w ensures HasPolled(t, w) <==> HasPolled(init, w) || (last.Poll? && last.waiter == w) {
        PolledExtends(t, w);
      }
      DescribesStep(t);
    }
  }

  /** Where the i-th registration after the last event stood before it. */
  ghost function Was<W, K>(t: seq<Event<W, K>>, i: nat): nat
    requires t != [] && Legal(t)
  {
    var r, last := Run(t[..|t| - 1]), t[|t| - 1];
    if last.Drop? && Registered(r, last.waiter) && i >= Slot(r, last.waiter) then i + 1 else i
  }

  ghost predicate Waits<W(!new), K>(t: seq<Event<W, K>>) {
    && t != [] && Legal(t) && !Ready(Run(t)) && !Ready(Run(t[..|t| - 1]))
    && Describes(t[..|t| - 1], Run(t[..|t| - 1]).waiting)
    && var init := t[..|t| - 1]; forall w :: w in Run(init).members ==> !HasDropped(init, w)
  }

  lemma EntryWas<W, K>(t: seq<Event<W, K>>, i: nat)
    requires t != [] && Legal(t) && !Ready(Run(t)) && !Ready(Run(t[..|t| - 1]))
    requires i < |Run(t).waiting|
    ensures var a, last, w := Run(t[..|t| - 1]).waiting, t[|t| - 1], Run(t).waiting[i].waiter;
            if Was(t, i) < |a| then w == a[Was(t, i)].waiter
            else i == |a| && last.Poll? && w == last.waiter && !Registered(Run(t[..|t| - 1]), w)
  {
  }

  lemma EntryDescribed<W(!new), K>(t: seq<Event<W, K>>, i: nat)
    requires Waits(t) && i < |Run(t).waiting|
    ensures var e := Run(t).waiting[i];
            HasPolled(t, e.waiter) && !HasDropped(t, e.waiter) && e.waker == LastWaker(t, e.waiter)
  {
    PolledExtends(t, Run(t).waiting[i].waiter);
    EntryWas(t, i);
  }

  lemma EntriesOrdered<W(!new), K>(t: seq<Event<W, K>>, i: nat, j: nat)
    requires Waits(t) && i < j < |Run(t).waiting|
    ensures HasPolled(t, Run(t).waiting[i].waiter) && HasPolled(t, Run(t).waiting[j].waiter)
    ensures FirstPoll(t, Run(t).waiting[i].waiter) < FirstPoll(t, Run(t).waiting[j].waiter)
  {
    hide Polled, Dropped;
    var a := Run(t[..|t| - 1]).waiting;
    EntryWas(t, i);
    EntryWas(t, j);
    EntryDescribed(t, i);
    EntryDescribed(t, j);
    PolledExtends(t, Run(t).waiting[i].waiter);
    PolledExtends(t, Run(t).waiting[j].waiter);
  }

  lemma EntryKept<W, K>(t: seq<Event<W, K>>, i: nat)
    requires t != [] && Legal(t) && !Ready(Run(t)) && !Ready(Run(t[..|t| - 1]))
    requires i < |Run(t[..|t| - 1]).waiting|
    requires t[|t| - 1] != Event<W, K>.Drop(Run(t[..|t| - 1]).waiting[i].waiter)
    ensures exists j :: 0 <= j < |Run(t).waiting| && Run(t).waiting[j].waiter == Run(t[..|t| - 1]).waiting[i].waiter
  {
    var r, last := Run(t[..|t| - 1]), t[|t| - 1];
    var b := Run(t).waiting;
    if last.Drop? && Registered(r, last.waiter) {
      assert b[if i < Slot(r, last.waiter) then i else i - 1].waiter == r.waiting[i].waiter;
    } else {
      assert b[i].waiter == r.waiting[i].waiter;
    }
  }

  lemma WaiterKept<W(!new), K>(t: seq<Event<W, K>>, w: W)
    requires Waits(t) && HasPolled(t, w) && !HasDropped(t, w)
    ensures exists i :: 0 <= i < |Run(t).waiting| && Run(t).waiting[i].waiter == w
  {
    var init := t[..|t| - 1];
    PolledExtends(t, w);
    if HasPolled(init, w) {
      var i :| 0 <= i < |Run(init).waiting| && Run(init).waiting[i].waiter == w;
      EntryKept(t, i);
    } else {
      var b := Run(t).waiting;
      assert !Registered(Run(init), w);
      assert b[|b| - 1].waiter == w;
    }
  }

  lemma DescribesStep<W(!new), K>(t: seq<Event<W, K>>)
    requires Waits(t)
    ensures Describes(t, Run(t).waiting)
  {
    hide Run;
    var b := Run(t).waiting;
    forall w | HasPolled(t, w) && !HasDropped(t, w) ensures exists i :: 0 <= i < |b| && b[i].waiter == w {
      WaiterKept(t, w);
    }
    forall i | 0 <= i < |b|
      ensures HasPolled(t, b[i].waiter) && !HasDropped(t, b[i].waiter) && b[i].waker == LastWaker(t, b[i].waiter)
    {
      EntryDescribed(t, i);
    }
    forall i, j | 0 <= i < j < |b| ensures FirstPoll(t, b[i].waiter) < FirstPoll(t, b[j].waiter) {
      EntriesOrdered(t, i, j);
    }
  }

  // ----- cancellation -----

  lemma {:induction false} CancelledStays<W, K>(h: seq<Event<W, K>>, n: nat)
    requires Legal(h) && n <= |h| && Legal(h[..n]) && Run(h[..n]).cancelled
    ensures Run(h).cancelled && Run(h).woken == Run(h[..n]).woken
  {
    if n == |h| {
      assert h[..n] == h;
    } else {
      assert h[..|h| - 1][..n] == h[..n];
      CancelledStays(h[..|h| - 1], n);
    }
  }

  /**
   Main result: in every legal history whose first cancel is at c, the wake-ups issued over the
   whole history are exactly these: every waiter that polled before c and was not dropped before
   c, once, in order of first poll, through its latest waker.  Later cancels wake nobody and the
   registry stays cancelled.
   */
  lemma FirstCancelWakes<W(!new), K>(h: seq<Event<W, K>>, c: nat)
    requires Legal(h) && c < |h| && h[c] == Event<W, K>.Cancel
    requires Event<W, K>.Cancel !in h[..c]
    ensures Describes(h[..c], Run(h).woken)
    ensures Run(h).cancelled
  {
    LegalPrefix(h, c);
    LegalPrefix(h, c + 1);
    assert h[..c + 1][..c] == h[..c];
    NotYetCancelled(h[..c]);
    WaitingIsDescribed(h[..c]);
    CancelledStays(h, c + 1);
    assert Run(h).woken == Run(h[..c]).waiting;
  }

  /** The same, seen from one waiter: it is woken at most once, and exactly if it was waiting at the first cancel. */
  lemma WaiterWoken<W(!new), K>(h: seq<Event<W, K>>, c: nat, w: W)
    requires Legal(h) && c < |h| && h[c] == Event<W, K>.Cancel
    requires Event<W, K>.Cancel !in h[..c]
    ensures (exists i :: 0 <= i < |Run(h).woken| && Run(h).woken[i].waiter == w) <==>
            HasPolled(h[..c], w) && !HasDropped(h[..c], w)
    ensures forall i, j :: 0 <= i < j < |Run(h).woken| ==> Run(h).woken[i].waiter != Run(h).woken[j].waiter
  {
    FirstCancelWakes(h, c);
    hide FirstPoll, LastWaker, Legal, Run;
    var woken := Run(h).woken;
    forall i, j | 0 <= i < j < |woken| ensures woken[i].waiter != woken[j].waiter {
      assert FirstPoll(h[..c], woken[i].waiter) < FirstPoll(h[..c], woken[j].waiter);
    }
  }

  lemma {:induction false} NotYetCancelled<W, K>(t: seq<Event<W, K>>)
    requires Legal(t) && Event<W, K>.Cancel !in t
    ensures !Run(t).cancelled && Run(t).woken == []
  {
    if t != [] {
      NotYetCancelled(t[..|t| - 1]);
    }
  }

  // ----- waiters that nobody wakes -----

  /** How many cancellers are left. */
  function Cancellers<W(==), K(==)>(t: seq<Event<W, K>>): int {
    if t == [] then 1
    else
      var last := t[|t| - 1];
      Cancellers(t[..|t| - 1]) + if last.CloneCanceller? then 1 else if last.DropCanceller? then -1 else 0
  }

  lemma {:induction false} StrongCounts<W, K>(t: seq<Event<W, K>>)
    requires Legal(t)
    ensures Run(t).strong == Cancellers(t)
  {
    if t != [] {
      StrongCounts(t[..|t| - 1]);
    }
  }

  /** The p-th event is a poll of the waiter that was answered Pending. */
  ghost predicate Pends<W, K>(t: seq<Event<W, K>>, p: nat, w: W) {
    p < |t| && t[p].Poll? && t[p].waiter == w && Legal(t[..p]) && !Ready(Run(t[..p]))
  }

  lemma {:induction false} FirstCancel<W, K>(t: seq<Event<W, K>>) returns (c: nat)
    requires Event<W, K>.Cancel in t
    ensures c < |t| && t[c] == Event<W, K>.Cancel && Event<W, K>.Cancel !in t[..c]
  {
    var init := t[..|t| - 1];
    if Event<W, K>.Cancel in init {
      c := FirstCancel(init);
      assert init[..c] == t[..c];
    } else {
      c := |t| - 1;
    }
  }

  /**
   Exactly when a waiter that was told to wait, and still exists, becomes ready without ever being
   woken: nobody has cancelled, and the last canceller is gone.
   */
  lemma UnwokenExactly<W(!new), K>(t: seq<Event<W, K>>, p: nat, w: W)
    requires Legal(t) && Pends(t, p, w) && !HasDropped(t, w)
    ensures Ready(Run(t)) && (forall i :: 0 <= i < |Run(t).woken| ==> Run(t).woken[i].waiter != w)
            <==> Event<W, K>.Cancel !in t && Cancellers(t) == 0
  {
    StrongCounts(t);
    if Event<W, K>.Cancel in t {
      var c := FirstCancel(t);
      FirstCancelWakes(t, c);
      WaiterWoken(t, c, w);
      PendsBefore(t, p, c, w);
    } else {
      NotYetCancelled(t);
    }
  }

  lemma PendsBefore<W, K>(t: seq<Event<W, K>>, p: nat, c: nat, w: W)
    requires Legal(t) && Pends(t, p, w) && !HasDropped(t, w)
    requires c < |t| && t[c] == Event<W, K>.Cancel
    ensures HasPolled(t[..c], w) && !HasDropped(t[..c], w)
  {
    if c < p {
      LegalPrefix(t, c + 1);
      assert t[..p][..c + 1] == t[..c + 1] && t[..c + 1][..c] == t[..c];
      CancelledStays(t[..p], c + 1);
    } else {
      assert t[..c][p] == t[p];
    }
  }

  /** One waiter polls, and the only canceller is dropped: the waiter is ready, and its waker is gone. */
  lemma UnwokenExample<W, K>(w: W, k: K)
    ensures var t := [Event<W, K>.Create(w), Event<W, K>.Poll(w, k), Event<W, K>.DropCanceller];
            && Legal(t) && Pends(t, 1, w) && !HasDropped(t, w)
            && Ready(Run(t)) && Run(t).waiting == [] == Run(t).woken
  {
    var none: seq<Event<W, K>> := [];
    Happens(none, Event<W, K>.Create(w));
    var created := none + [Event<W, K>.Create(w)];
    Happens(created, Event<W, K>.Poll(w, k));
    var polled := created + [Event<W, K>.Poll(w, k)];
    Happens(polled, Event<W, K>.DropCanceller);
    var t := polled + [Event<W, K>.DropCanceller];
    assert t[..1] == created;
    assert t == [Event<W, K>.Create(w), Event<W, K>.Poll(w, k), Event<W, K>.DropCanceller];
  }

  lemma Happens<W, K>(t: seq<Event<W, K>>, e: Event<W, K>)
    requires Legal(t) && Enabled(Run(t), e) && (e.Create? ==> e !in t)
    ensures Legal(t + [e]) && Run(t + [e]) == Step(Run(t), e)
  {
    assert (t + [e])[..|t|] == t;
  }

  lemma {:induction false} LegalPrefix<W, K>(t: seq<Event<W, K>>, n: nat)
    requires Legal(t) && n <= |t|
    ensures Legal(t[..n])
  {
    if n == |t| {
      assert t[..n] == t;
    } else {
      LegalPrefix(t[..|t| - 1], n);
      assert t[..|t| - 1][..n] == t[..n];
    }
  }
}

module CancelRegistry {
  import opened Wrappers
  import opened Sequences
  import opened SlabList
  import S = SlabSpec
  import opened CancelSpec

  /** What every `Canceller` points to; a `Canceller` is a counted pointer to it. */
  class CancelHandler<K> {
    var strong: nat
    var cancelled: bool
    var waiters: LinkedList<K>
    ghost var members: map<nat, Waiter<K>>   // created and not dropped, by identity
    ghost var registered: seq<nat>           // the owner of each live list entry
    ghost var woken: seq<Registration<nat, K>>

    /** While nobody has cancelled, live list entries and indexed waiters are in bijection. */
    ghost predicate Aligned()
      reads this, waiters, members.Values
      requires waiters.Valid()
    {
      var live := waiters.View().live;
      && |registered| == |live|
      && (forall k :: 0 <= k < |registered| ==>
            registered[k] in members && members[registered[k]].index == Some(live[k].handle))
      && (forall i, j :: 0 <= i < j < |registered| ==> registered[i] != registered[j])
      && (forall i :: i in members && members[i].index.Some? ==> i in registered)
    }

    ghost predicate Valid()
      reads this, waiters, members.Values
    {
      && (forall i :: i in members ==> members[i].handler == this && members[i].id == i)
      && (strong > 0 ==> waiters.Valid())
      && (if strong > 0 && !cancelled then Aligned() else registered == [])
    }

    ghost predicate Has(w: Waiter<K>)
      reads this
    {
      w.id in members && members[w.id] == w
    }

    ghost function Waiting(): seq<Registration<nat, K>>
      reads this, waiters, members.Values
      requires Valid()
    {
      if registered == [] then [] else Zip(registered, waiters.View().live)
    }

    ghost function View(): Registry<nat, K>
      reads this, waiters, members.Values
      requires Valid()
    {
      Registry(strong, cancelled, members.Keys, Waiting(), woken)
    }

    /** An indexed waiter owns the list entry its index names. */
    lemma Locate(w: Waiter<K>) returns (k: nat)
      requires Valid() && strong > 0 && !cancelled && Has(w) && w.index.Some?
      ensures k < |registered| && registered[k] == w.id
      ensures S.Live(waiters.View(), w.index.value) && S.Position(waiters.View(), w.index.value) == k
      ensures Registered(View(), w.id) && Slot(View(), w.id) == k
    {
      hide LinkedList.Valid, LinkedList.View;
      waiters.ViewIsPartition();
      k :| 0 <= k < |registered| && registered[k] == w.id;
      assert waiters.View().live[k].handle == w.index.value;
      assert View().waiting[k].waiter == w.id;
    }

    lemma Unindexed(w: Waiter<K>)
      requires Valid() && Has(w) && w.index.None?
      ensures !Registered(View(), w.id)
    {
    }

    lemma WaitingWakers()
      requires Valid() && strong > 0 && !cancelled
      ensures |Waiting()| == |waiters.View().live|
      ensures forall k :: 0 <= k < |Waiting()| ==> Waiting()[k].waker == waiters.View().live[k].value
    {
    }

    constructor ()
      ensures Valid() && fresh(waiters) && waiters.data == [] && members == map[]
      ensures View() == Registry(1, false, {}, [], [])
    {
      hide LinkedList.Valid, LinkedList.View;
      strong, cancelled := 1, false;
      waiters := new LinkedList();
      members, registered, woken := map[], [], [];
    }

    method CloneCanceller()
      requires Valid() && strong > 0
      modifies this`strong
      ensures Valid() && View() == Step(old(View()), Event.CloneCanceller)
    {
      hide LinkedList.Valid, LinkedList.View;
      strong := strong + 1;
    }

    /** Dropping the last canceller destroys the handler, and its list with it. */
    method DropCanceller()
      requires Valid() && strong > 0
      modifies this, waiters
      ensures Valid() && members == old(members) && waiters == old(waiters) && |waiters.data| <= |old(waiters.data)|
      ensures View() == Step(old(View()), Event.DropCanceller)
      ensures strong == old(strong) - 1 && (strong == 0 ==> View().waiting == []) && View().woken == old(View()).woken
    {
      hide LinkedList.Valid, LinkedList.View;
      strong := strong - 1;
      if strong == 0 {
        registered := [];
        var _ := waiters.Drop();
      }
    }

    method NewWaiter(ghost id: nat) returns (w: Waiter<K>)
      requires Valid() && strong > 0 && id !in members
      modifies this`members
      ensures fresh(w) && w.handler == this && w.id == id && w.index == None
      ensures Valid() && members == old(members)[id := w] && View() == Step(old(View()), Create(id))
    {
      hide LinkedList.Valid, LinkedList.View;
      w := new Waiter(this, id);
      members := members[id := w];
    }

    /** `wakes` are the wakers called, in order. */
    method Cancel() returns (wakes: seq<K>)
      requires Valid() && strong > 0
      modifies this, waiters
      ensures Valid() && members == old(members)
      ensures (waiters == old(waiters) || fresh(waiters)) && |waiters.data| <= |old(waiters.data)|
      ensures View() == Step(old(View()), Event.Cancel)
      ensures wakes == if old(cancelled) then [] else Wakers(old(View()).waiting)
      ensures cancelled && View().waiting == []
      ensures old(cancelled) ==> wakes == []
      ensures !old(cancelled) ==>
                && |wakes| == |old(View()).waiting|
                && forall k :: 0 <= k < |wakes| ==> wakes[k] == old(View()).waiting[k].waker
    {
      hide LinkedList.Valid, LinkedList.View, LinkedListIter.Valid, LinkedListIter.Remaining, Zip, Aligned;
      wakes := [];
      if !cancelled {
        ghost var regs := Waiting();
        WaitingWakers();
        cancelled := true;
        var waiting := waiters;
        waiters := new LinkedList();
        registered := [];
        var it := waiting.IntoIter();
        assert it.Remaining() == Wakers(regs);
        wakes := WakeAll(it);
        woken := woken + regs;
      }
    }
  }

  /** `for waker in waiters { waker.wake() }`. */
  method WakeAll<K>(it: LinkedListIter<K>) returns (wakes: seq<K>)
    requires it.Valid()
    modifies it
    ensures wakes == old(it.Remaining())
  {
    hide LinkedListIter.Valid, LinkedListIter.Remaining;
    wakes := [];
    var next := it.Next();
    while next.Some?
      invariant it.Valid()
      invariant wakes + (if next.Some? then [next.value] + it.Remaining() else []) == old(it.Remaining())
      decreases next.Some?, |it.Remaining()|
    {
      wakes := wakes + [next.value];
      next := it.Next();
    }
  }

  /** Dropping a `CancellerDropper` cancels, then drops the canceller inside it. */
  method DropGuard<K>(handler: CancelHandler<K>) returns (wakes: seq<K>)
    requires handler.Valid() && handler.strong > 0
    modifies handler, handler.waiters
    ensures handler.Valid()
    ensures handler.View() == Step(Step(old(handler.View()), Event.Cancel), Event.DropCanceller)
    ensures handler.cancelled && handler.strong == old(handler.strong) - 1
    ensures old(handler.cancelled) ==> wakes == []
    ensures !old(handler.cancelled) ==>
              && |wakes| == |old(handler.View()).waiting|
              && forall k :: 0 <= k < |wakes| ==> wakes[k] == old(handler.View()).waiting[k].waker
  {
    hide LinkedList.Valid, LinkedList.View, CancelHandler.Valid;
    wakes := handler.Cancel();
    handler.DropCanceller();
  }

  function Zip<W, K>(owners: seq<W>, live: seq<S.Entry<K>>): (z: seq<Registration<W, K>>)
    requires |owners| == |live|
    ensures |z| == |live|
  {
    seq(|owners|, k requires 0 <= k < |owners| => Registration(owners[k], live[k].value))
  }

  function Wakers<W, K>(regs: seq<Registration<W, K>>): (w: seq<K>)
    ensures |w| == |regs| && forall k :: 0 <= k < |w| ==> w[k] == regs[k].waker
  {
    seq(|regs|, k requires 0 <= k < |regs| => regs[k].waker)
  }

  lemma DeletedElements<X>(s: seq<X>, k: nat)
    requires k < |s|
    ensures forall i :: 0 <= i < |s| - 1 ==> Delete(s, k)[i] == s[if i < k then i else i + 1]
    ensures forall x :: x in s && x != s[k] ==> x in Delete(s, k)
  {
  }

  lemma ZipUpdate<W, K>(owners: seq<W>, live: seq<S.Entry<K>>, k: nat, value: K)
    requires k < |owners| == |live|
    ensures Zip(owners, live[k := S.Entry(live[k].handle, value)])
            == Zip(owners, live)[k := Registration(owners[k], value)]
  {
  }

  lemma ZipAppend<W, K>(owners: seq<W>, live: seq<S.Entry<K>>, owner: W, e: S.Entry<K>)
    requires |owners| == |live|
    ensures Zip(owners + [owner], live + [e]) == Zip(owners, live) + [Registration(owner, e.value)]
  {
  }

  lemma ZipDelete<W, K>(owners: seq<W>, live: seq<S.Entry<K>>, k: nat)
    requires k < |owners| == |live|
    ensures |Delete(owners, k)| == |Delete(live, k)|
    ensures Delete(Zip(owners, live), k) == Zip(Delete(owners, k), Delete(live, k))
  {
  }

  class Waiter<K> {
    var index: Option<nat>
    const handler: CancelHandler<K>
    ghost const id: nat

    constructor (handler: CancelHandler<K>, ghost id: nat)
      ensures this.handler == handler && this.id == id && index == None
    {
      hide LinkedList.Valid, LinkedList.View;
      this.handler, this.id, index := handler, id, None;
    }

    /** A clone starts unregistered, whatever the original did. */
    method Clone(ghost id: nat) returns (w: Waiter<K>)
      requires handler.Valid() && handler.Has(this) && id !in handler.members
      modifies handler`members
      ensures fresh(w) && w.handler == handler && w.id == id && w.index == None
      ensures handler.Valid() && handler.members == old(handler.members)[id := w]
      ensures handler.View() == Step(old(handler.View()), Create(id))
    {
      hide LinkedList.Valid, LinkedList.View;
      w := new Waiter(handler, id);
      handler.members := handler.members[id := w];
    }

    method Cancelled() returns (c: bool)
      requires handler.Valid()
      ensures c == Ready(handler.View())
      ensures c <==> handler.cancelled || handler.strong == 0
    {
      hide LinkedList.Valid, LinkedList.View;
      c := if handler.strong > 0 then handler.cancelled else true;
    }

    /** The assertion is the `unwrap` of the source: a stored index always names a live entry. */
    method Poll(waker: K) returns (ready: bool)
      requires handler.Valid() && handler.Has(this)
      requires |handler.waiters.data| < NULL
      modifies this, handler, handler.waiters
      ensures handler.waiters == old(handler.waiters) && |handler.waiters.data| <= |old(handler.waiters.data)| + 1
      ensures handler.Valid() && handler.members == old(handler.members)
      ensures ready == Ready(old(handler.View()))
      ensures ready <==> old(handler.cancelled) || old(handler.strong) == 0
      ensures if ready then handler.View() == old(handler.View())
              else Registration(id, waker) in handler.View().waiting
      ensures handler.View() == Step(old(handler.View()), Event.Poll(id, waker))
    {
      hide LinkedList.Valid, LinkedList.View, Zip;
      if handler.strong == 0 {
        return true;
      }
      if handler.cancelled {
        return true;
      }
      ready := false;
      match index {
        case Some(idx) =>
          ghost var k := handler.Locate(this);
          ZipUpdate(handler.registered, handler.waiters.View().live, k, waker);
          var found := handler.waiters.Write(idx, waker);
          assert found;
        case None =>
          handler.Unindexed(this);
          ZipAppend(handler.registered, handler.waiters.View().live, id,
            S.Entry(S.NextHandle(handler.waiters.View()), waker));
          var idx := handler.waiters.PushBack(waker);
          index := Some(idx);
          handler.registered := handler.registered + [id];
      }
      assert handler.View().waiting == old(Polled(handler.View(), id, waker).waiting);
      PolledWaits(old(handler.View()), id, waker);
    }

    method Drop()
      requires handler.Valid() && handler.Has(this)
      modifies handler, handler.waiters
      ensures handler.waiters == old(handler.waiters) && |handler.waiters.data| <= |old(handler.waiters.data)|
      ensures handler.Valid() && handler.members == old(handler.members) - {id}
      ensures handler.View() == Step(old(handler.View()), Event.Drop(id))
    {
      hide LinkedList.Valid, LinkedList.View, Delete, Zip;
      if index.Some? {
        if handler.strong > 0 {
          if !handler.cancelled {
            ghost var k := handler.Locate(this);
            DeletedElements(handler.registered, k);
            DeletedElements(handler.waiters.View().live, k);
            ZipDelete(handler.registered, handler.waiters.View().live, k);
            var _ := handler.waiters.Remove(index.value);
            handler.registered := Delete(handler.registered, k);
          }
        }
      } else {
        handler.Unindexed(this);
      }
      handler.members := handler.members - {id};
    }
  }

  /**
   Plays a legal history on a new registry.  The objects end in the state that the theorems of
   `CancelSpec` speak about, and the wakers called are those of the recorded wake-ups.
   */
  method Replay<K>(h: seq<Event<nat, K>>) returns (handler: CancelHandler<K>, wakes: seq<K>)
    requires Legal(h) && |h| <= NULL
    ensures fresh(handler) && handler.Valid() && handler.View() == Run(h)
    ensures |wakes| == |Run(h).woken| && forall k :: 0 <= k < |wakes| ==> wakes[k] == Run(h).woken[k].waker
  {
    hide LinkedList.Valid, LinkedList.View, CancelHandler.Valid, Step, Wakers;
    handler := new CancelHandler();
    wakes := [];
    var live: map<nat, Waiter<K>> := map[];
    for n := 0 to |h|
      invariant fresh(handler) && fresh(handler.waiters) && handler.Valid()
      invariant handler.members == live
      invariant forall i :: i in live ==> fresh(live[i]) && live[i].handler == handler && live[i].id == i
      invariant |handler.waiters.data| <= n
      invariant Legal(h[..n]) && handler.View() == Run(h[..n])
      invariant wakes == Wakers(Run(h[..n]).woken)
    {
      RunStep(h, n);
      WokenStep(h, n);
      match h[n]
      case Create(id) =>
        var w;
        if handler.strong > 0 {
          w := handler.NewWaiter(id);
        } else {
          var other :| other in live;
          w := live[other].Clone(id);
        }
        live := live[id := w];
      case Poll(id, waker) =>
        var _ := live[id].Poll(waker);
      case Drop(id) =>
        live[id].Drop();
        live := live - {id};
      case CloneCanceller =>
        handler.CloneCanceller();
      case DropCanceller =>
        handler.DropCanceller();
      case Cancel =>
        var more := handler.Cancel();
        wakes := wakes + more;
    }
    assert h[..|h|] == h;
  }

  lemma RunStep<K>(h: seq<Event<nat, K>>, n: nat)
    requires Legal(h) && n < |h|
    ensures Legal(h[..n]) && Legal(h[..n + 1]) && Enabled(Run(h[..n]), h[n])
    ensures Run(h[..n + 1]) == Step(Run(h[..n]), h[n])
  {
    LegalPrefix(h, n);
    LegalPrefix(h, n + 1);
    assert h[..n + 1][..n] == h[..n];
  }

  lemma WokenStep<K>(h: seq<Event<nat, K>>, n: nat)
    requires n < |h| && Legal(h[..n]) && Legal(h[..n + 1]) && Enabled(Run(h[..n]), h[n])
    requires Run(h[..n + 1]) == Step(Run(h[..n]), h[n])
    ensures var before, after := Run(h[..n]), Run(h[..n + 1]);
            Wakers(after.woken) ==
            if h[n] == Event<nat, K>.Cancel && !before.cancelled then Wakers(before.woken) + Wakers(before.waiting)
            else Wakers(before.woken)
  {
    hide Run, Legal, Enabled;
  }
}
