/**
 The two-phase configuration rollout of monolake/src/config/manager.rs over the workers of
 monolake-core/src/orchestrator/worker_manager.rs, as functions on values, and what every run
 of it guarantees.  `ConfigManager.dfy` proves the imperative code equal to these functions.
 */
module Rollout {
  import opened Wrappers
  import opened Deployment

  datatype ServiceConfig = ServiceConfig(listener: ListenerConfig, server: ServerConfig)

  type ConfigMap = map<Name, ServiceConfig>

  /** The sites of every worker, in the order in which commands are dispatched. */
  type Fleet = seq<Worker>

  /**
   What can go wrong during one reload: which factories succeed, by site and worker, which
   commands reach which worker, and which answers come back.  A worker may come and go.
   */
  datatype Env = Env(
    builds: (Name, nat) -> bool,
    listens: (Name, nat) -> bool,
    reaches: (Command, nat) -> bool,
    answers: (Command, nat) -> bool)

  /** `Modify` is the source's `Patch::Update`. */
  datatype Patch =
    | Insert(key: Name, listenerConfig: ListenerConfig, serverConfig: ServerConfig)
    | Modify(key: Name, serverConfig: ServerConfig)
    | Delete(key: Name)

  function FateAt(env: Env, name: Name, i: nat): Fate {
    Fate(env.builds(name, i), env.listens(name, i))
  }

  /** The command reaches the worker and its answer comes back. */
  predicate Heard(env: Env, cmd: Command, i: nat) {
    env.reaches(cmd, i) && env.answers(cmd, i)
  }

  /**
   A worker that cannot be reached stays as it is, and one whose answer is lost has executed the
   command; the dispatcher notes an error for both.
   */
  function Answer(w: Worker, cmd: Command, env: Env, i: nat): Reply {
    var r := if env.reaches(cmd, i) then Exec(w, cmd, FateAt(env, cmd.name, i)) else Reply(w, Ok(()));
    Reply(r.worker, if Heard(env, cmd, i) then r.result else Err(Unreachable))
  }

  function AnswerSite(site: Option<Site>, cmd: Command, env: Env, i: nat): SiteReply {
    var r := if env.reaches(cmd, i) then ExecSite(site, cmd, FateAt(env, cmd.name, i)) else SiteReply(site, Ok(()));
    SiteReply(r.site, if Heard(env, cmd, i) then r.result else Err(Unreachable))
  }

  /** The fleet when the command has been dispatched to the first k workers. */
  function Dispatched(fleet: Fleet, cmd: Command, env: Env, k: nat): (r: Fleet)
    ensures |r| == |fleet|
  {
    seq(|fleet|, i requires 0 <= i < |fleet| =>
      if i < k then Answer(fleet[i], cmd, env, i).worker else fleet[i])
  }

  function Replies(fleet: Fleet, cmd: Command, env: Env): (r: seq<Result<(), CommandError>>)
    ensures |r| == |fleet|
  {
    seq(|fleet|, i requires 0 <= i < |fleet| => Answer(fleet[i], cmd, env, i).result)
  }

  /** `ResultGroup::err`: the first error, if any. */
  function FirstErr<E>(results: seq<Result<(), E>>): Result<(), E> {
    if results == [] then Ok(()) else if results[0].Err? then results[0] else FirstErr(results[1..])
  }

  lemma {:induction false} FirstErrMeans<E>(results: seq<Result<(), E>>)
    ensures FirstErr(results).Ok? <==> forall i :: 0 <= i < |results| ==> results[i].Ok?
    ensures FirstErr(results).Err? ==>
              exists i :: 0 <= i < |results| && results[i] == FirstErr(results)
                          && forall j :: 0 <= j < i ==> results[j].Ok?
  {
    if results != [] && results[0].Ok? {
      var rest := results[1..];
      FirstErrMeans(rest);
      assert forall i :: 0 < i < |results| ==> results[i] == rest[i - 1];
      if FirstErr(rest).Err? {
        var i :| 0 <= i < |rest| && rest[i] == FirstErr(rest) && forall j :: 0 <= j < i ==> rest[j].Ok?;
        assert results[i + 1] == FirstErr(results);
      }
    }
  }

  /** One snapshot of the fleet after each single execution of the command. */
  function Snapshots(fleet: Fleet, cmd: Command, env: Env): seq<Fleet> {
    seq(|fleet|, k requires 0 <= k < |fleet| => Dispatched(fleet, cmd, env, k + 1))
  }

  datatype Stage = Preparing | Committing | Aborting

  function CommandFor(stage: Stage, p: Patch): (c: Option<Command>)
    ensures c.Some? ==> c.value.name == p.key
  {
    match stage
    case Preparing => if p.Delete? then None else Some(Precommit(p.key, p.serverConfig))
    case Committing => (match p
      case Insert(key, listener, _) => Some(Commit(key, listener))
      case Modify(key, _) => Some(Update(key))
      case Delete(key) => Some(Remove(key)))
    case Aborting => if p.Delete? then None else Some(Abort(p.key))
  }

  datatype Progress = Progress(fleet: Fleet, result: Result<(), CommandError>, trace: seq<Fleet>)

  /** A stage issues its commands patch by patch; only aborting goes on after an error. */
  function RunStage(stage: Stage, fleet: Fleet, patches: seq<Patch>, env: Env): (r: Progress)
    ensures |r.fleet| == |fleet|
    ensures stage.Aborting? ==> r.result.Ok?
    decreases |patches|
  {
    if patches == [] then Progress(fleet, Ok(()), [])
    else match CommandFor(stage, patches[0])
      case None => RunStage(stage, fleet, patches[1..], env)
      case Some(cmd) =>
        var after := Dispatched(fleet, cmd, env, |fleet|);
        var result := FirstErr(Replies(fleet, cmd, env));
        if result.Err? && !stage.Aborting? then Progress(after, result, Snapshots(fleet, cmd, env))
        else
          var rest := RunStage(stage, after, patches[1..], env);
          Progress(rest.fleet, rest.result, Snapshots(fleet, cmd, env) + rest.trace)
  }

  function PatchFor(current: ConfigMap, latest: ConfigMap, key: Name): (p: Patch)
    requires key in current || key in latest
    ensures p.key == key
  {
    if key !in latest then Delete(key)
    else if key in current then Modify(key, latest[key].server)
    else Insert(key, latest[key].listener, latest[key].server)
  }

  /** An enumeration of a set of keys: what iterating over a `HashSet` yields. */
  ghost predicate Enumerates(order: seq<Name>, keys: set<Name>) {
    && (forall i, j :: 0 <= i < j < |order| ==> order[i] != order[j])
    && (forall n :: n in order <==> n in keys)
  }

  ghost function Diff(current: ConfigMap, latest: ConfigMap, order: seq<Name>): (d: seq<Patch>)
    requires Enumerates(order, current.Keys + latest.Keys)
    ensures |d| == |order|
  {
    assert forall k {:trigger order[k]} :: 0 <= k < |order| ==> order[k] in order;
    seq(|order|, k requires 0 <= k < |order| => PatchFor(current, latest, order[k]))
  }

  /** One patch per key of either configuration, and no other. */
  lemma DiffCovers(current: ConfigMap, latest: ConfigMap, order: seq<Name>)
    requires Enumerates(order, current.Keys + latest.Keys)
    ensures Distinct(Diff(current, latest, order))
    ensures forall k :: 0 <= k < |order| ==>
              && (order[k] in current || order[k] in latest)
              && Diff(current, latest, order)[k] == PatchFor(current, latest, order[k])
    ensures forall n :: n in current || n in latest ==> exists k :: 0 <= k < |order| && order[k] == n
    ensures forall k :: 0 <= k < |order| ==>
              var n, p := order[k], Diff(current, latest, order)[k];
              && p.key == n
              && (p.Insert? <==> n in latest && n !in current)
              && (p.Modify? <==> n in latest && n in current)
              && (p.Insert? ==> latest[n] == ServiceConfig(p.listenerConfig, p.serverConfig))
              && (p.Modify? ==> latest[n].server == p.serverConfig)
  {
    assert forall k {:trigger order[k]} :: 0 <= k < |order| ==> order[k] in order;
  }

  datatype Outcome = Applied | Aborted(error: CommandError) | Crashed(error: CommandError)

  datatype Finish = Finish(fleet: Fleet, outcome: Outcome, trace: seq<Fleet>)

  /** `reload_services`; an error at the commit stage panics. */
  ghost function Deploy(fleet: Fleet, current: ConfigMap, latest: ConfigMap, order: seq<Name>, env: Env): (f: Finish)
    requires Enumerates(order, current.Keys + latest.Keys)
    ensures |f.fleet| == |fleet|
  {
    var patches := Diff(current, latest, order);
    var prepared := RunStage(Preparing, fleet, patches, env);
    match prepared.result
    case Ok(_) =>
      var committed := RunStage(Committing, prepared.fleet, patches, env);
      Finish(committed.fleet,
             if committed.result.Ok? then Applied else Crashed(committed.result.error),
             prepared.trace + committed.trace)
    case Err(e) =>
      var aborted := RunStage(Aborting, prepared.fleet, patches, env);
      Finish(aborted.fleet, Aborted(e), prepared.trace + aborted.trace)
  }

  // ----- what a stage does to one site of one worker -----

  ghost predicate Distinct(patches: seq<Patch>) {
    forall i, j :: 0 <= i < j < |patches| ==> patches[i].key != patches[j].key
  }

  function Effect(stage: Stage, site: Option<Site>, p: Patch, env: Env, i: nat): SiteReply {
    match CommandFor(stage, p)
    case None => SiteReply(site, Ok(()))
    case Some(cmd) => AnswerSite(site, cmd, env, i)
  }

  lemma AnswerAt(w: Worker, cmd: Command, env: Env, i: nat, n: Name)
    ensures At(Answer(w, cmd, env, i).worker, n) ==
            if n == cmd.name then AnswerSite(At(w, n), cmd, env, i).site else At(w, n)
    ensures Answer(w, cmd, env, i).result == AnswerSite(At(w, cmd.name), cmd, env, i).result
  {
  }

  /** A stage leaves the sites alone that no patch names. */
  lemma {:induction false} StageLeaves(stage: Stage, fleet: Fleet, patches: seq<Patch>, env: Env, i: nat, n: Name)
    requires i < |fleet|
    requires forall k :: 0 <= k < |patches| ==> patches[k].key != n
    ensures At(RunStage(stage, fleet, patches, env).fleet[i], n) == At(fleet[i], n)
    decreases |patches|
  {
    if patches != [] {
      match CommandFor(stage, patches[0])
      case None =>
        StageLeaves(stage, fleet, patches[1..], env, i, n);
      case Some(cmd) =>
        AnswerAt(fleet[i], cmd, env, i, n);
        StageLeaves(stage, Dispatched(fleet, cmd, env, |fleet|), patches[1..], env, i, n);
    }
  }

  /** The stage gets to the k-th patch: every earlier one succeeded on every worker, or the stage never stops. */
  ghost predicate GetsTo(stage: Stage, fleet: Fleet, patches: seq<Patch>, env: Env, k: nat)
    requires k <= |patches|
  {
    stage.Aborting? ||
    forall j, i :: 0 <= j < k && 0 <= i < |fleet| ==>
      Effect(stage, At(fleet[i], patches[j].key), patches[j], env, i).result.Ok?
  }

  /**
   Exactly what a stage does to a site: it has executed the command of the site's patch if it got
   to that patch, and has not touched the site otherwise.
   */
  lemma {:induction false} StageTouches(stage: Stage, fleet: Fleet, patches: seq<Patch>, env: Env, i: nat, k: nat)
    requires Distinct(patches) && i < |fleet| && k < |patches|
    ensures var n, r := patches[k].key, RunStage(stage, fleet, patches, env);
            var before, effect := At(fleet[i], n), Effect(stage, At(fleet[i], n), patches[k], env, i);
            && At(r.fleet[i], n) == (if GetsTo(stage, fleet, patches, env, k) then effect.site else before)
            && (r.result.Ok? ==> GetsTo(stage, fleet, patches, env, k))
            && (r.result.Ok? && !stage.Aborting? ==> effect.result.Ok?)
    decreases |patches|
  {
    hide Answer, AnswerSite, GetsTo;
    var n := patches[k].key;
    match CommandFor(stage, patches[0])
    case None =>
      if k == 0 {
        GetsToFirst(stage, fleet, patches, env);
        StageLeaves(stage, fleet, patches[1..], env, i, n);
      } else {
        GetsToNext(stage, fleet, patches, env, k);
        StageTouches(stage, fleet, patches[1..], env, i, k - 1);
      }
    case Some(cmd) =>
      var after := Dispatched(fleet, cmd, env, |fleet|);
      AnswerAt(fleet[i], cmd, env, i, n);
      FirstErrMeans(Replies(fleet, cmd, env));
      assert Replies(fleet, cmd, env)[i] == Answer(fleet[i], cmd, env, i).result;
      if k == 0 {
        GetsToFirst(stage, fleet, patches, env);
        StageLeaves(stage, after, patches[1..], env, i, n);
      } else {
        GetsToNext(stage, fleet, patches, env, k);
        StageTouches(stage, after, patches[1..], env, i, k - 1);
      }
  }

  /** A failing command keeps a stage from every later patch, but for the abort stage, which runs to its end. */
  lemma StageStops(stage: Stage, fleet: Fleet, patches: seq<Patch>, env: Env, j: nat, w: nat, k: nat, i: nat)
    requires Distinct(patches) && j < k < |patches| && w < |fleet| && i < |fleet|
    requires Effect(stage, At(fleet[w], patches[j].key), patches[j], env, w).result.Err?
    ensures var n := patches[k].key;
            At(RunStage(stage, fleet, patches, env).fleet[i], n) ==
            if stage.Aborting? then Effect(stage, At(fleet[i], n), patches[k], env, i).site else At(fleet[i], n)
  {
    StageTouches(stage, fleet, patches, env, i, k);
    hide Effect, RunStage;
  }

  lemma GetsToFirst(stage: Stage, fleet: Fleet, patches: seq<Patch>, env: Env)
    ensures GetsTo(stage, fleet, patches, env, 0)
  {
  }

  /** Getting past the first patch takes its success everywhere; what comes after does not depend on it otherwise. */
  lemma GetsToNext(stage: Stage, fleet: Fleet, patches: seq<Patch>, env: Env, k: nat)
    requires Distinct(patches) && 0 < k < |patches|
    ensures match CommandFor(stage, patches[0])
            case None => GetsTo(stage, fleet, patches, env, k) <==> GetsTo(stage, fleet, patches[1..], env, k - 1)
            case Some(cmd) =>
              var after := Dispatched(fleet, cmd, env, |fleet|);
              GetsTo(stage, fleet, patches, env, k) <==>
                (stage.Aborting? || FirstErr(Replies(fleet, cmd, env)).Ok?)
                && GetsTo(stage, after, patches[1..], env, k - 1)
  {
    if !stage.Aborting? {
      match CommandFor(stage, patches[0])
      case None =>
        assert forall i :: 0 <= i < |fleet| ==>
            Effect(stage, At(fleet[i], patches[0].key), patches[0], env, i).result.Ok?;
        GetsToTail(stage, fleet, fleet, patches, env, k);
      case Some(cmd) =>
        var after, replies := Dispatched(fleet, cmd, env, |fleet|), Replies(fleet, cmd, env);
        FirstErrMeans(replies);
        forall i, j | 0 <= i < |fleet| && 0 < j < |patches|
          ensures At(after[i], patches[j].key) == At(fleet[i], patches[j].key)
        {
          AnswerAt(fleet[i], cmd, env, i, patches[j].key);
        }
        forall i | 0 <= i < |fleet|
          ensures replies[i] == Effect(stage, At(fleet[i], patches[0].key), patches[0], env, i).result
        {
          AnswerAt(fleet[i], cmd, env, i, cmd.name);
        }
        GetsToTail(stage, fleet, after, patches, env, k);
    }
  }

  lemma GetsToTail(stage: Stage, fleet: Fleet, after: Fleet, patches: seq<Patch>, env: Env, k: nat)
    requires 0 < k < |patches| && |after| == |fleet| && !stage.Aborting?
    requires forall i, j :: 0 <= i < |fleet| && 0 < j < |patches| ==>
               At(after[i], patches[j].key) == At(fleet[i], patches[j].key)
    ensures GetsTo(stage, fleet, patches, env, k) <==>
              && (forall i :: 0 <= i < |fleet| ==>
                    Effect(stage, At(fleet[i], patches[0].key), patches[0], env, i).result.Ok?)
              && GetsTo(stage, after, patches[1..], env, k - 1)
  {
    hide Effect;
    if GetsTo(stage, after, patches[1..], env, k - 1) {
      forall j, i | 0 < j < k && 0 <= i < |fleet|
        ensures Effect(stage, At(fleet[i], patches[j].key), patches[j], env, i).result.Ok?
      {
        assert patches[1..][j - 1] == patches[j];
      }
    }
  }

  /** A stage that fails reports what its command returned for some patch on some worker. */
  lemma {:induction false} StageFails(stage: Stage, fleet: Fleet, patches: seq<Patch>,
      env: Env) returns (i: nat, k: nat)
    requires Distinct(patches) && RunStage(stage, fleet, patches, env).result.Err?
    ensures i < |fleet| && k < |patches|
    ensures Effect(stage, At(fleet[i], patches[k].key), patches[k], env, i).result
            == RunStage(stage, fleet, patches, env).result
    decreases |patches|
  {
    match CommandFor(stage, patches[0])
    case None =>
      i, k := StageFails(stage, fleet, patches[1..], env);
      k := k + 1;
    case Some(cmd) =>
      var replies := Replies(fleet, cmd, env);
      FirstErrMeans(replies);
      if FirstErr(replies).Err? {
        i :| 0 <= i < |replies| && replies[i] == FirstErr(replies) && forall j :: 0 <= j < i ==> replies[j].Ok?;
        k := 0;
        AnswerAt(fleet[i], cmd, env, i, cmd.name);
      } else {
        i, k := StageFails(stage, Dispatched(fleet, cmd, env, |fleet|), patches[1..], env);
        k := k + 1;
        AnswerAt(fleet[i], cmd, env, i, patches[k].key);
      }
  }

  // ----- one reload -----

  /** A fleet between reloads: every worker has committed exactly what is online. */
  ghost predicate InSync(fleet: Fleet, online: ConfigMap) {
    forall i, n :: 0 <= i < |fleet| ==> (Committed(fleet[i], n).Some? <==> n in online)
  }

  /** What an applied reload leaves of a site. */
  function Rebuilt(site: Option<Site>, current: ConfigMap, latest: ConfigMap, n: Name): Option<Site> {
    if n in latest then
      Some(Site(Some(Service(latest[n].server, if site.Some? then site.value.committed else None)), None,
                if n !in current then Some(latest[n].listener)
                else if site.Some? then site.value.listener else None))
    else if n in current then None
    else site
  }

  /** Where a key stands in the patches of a reload. */
  lemma PatchOf(current: ConfigMap, latest: ConfigMap, order: seq<Name>, n: Name) returns (k: nat)
    requires Enumerates(order, current.Keys + latest.Keys)
    ensures Distinct(Diff(current, latest, order))
    ensures n in current || n in latest ==>
              k < |order| && order[k] == n && Diff(current, latest, order)[k] == PatchFor(current, latest, n)
    ensures !(n in current || n in latest) ==>
              forall j :: 0 <= j < |order| ==> Diff(current, latest, order)[j].key != n
  {
    DiffCovers(current, latest, order);
    k := 0;
    if n in current || n in latest {
      k :| 0 <= k < |order| && order[k] == n;
    }
  }

  lemma AppliedSite(fleet: Fleet, current: ConfigMap, latest: ConfigMap, order: seq<Name>, env: Env, i: nat, n: Name)
    requires Enumerates(order, current.Keys + latest.Keys) && i < |fleet|
    requires Deploy(fleet, current, latest, order, env).outcome.Applied?
    ensures At(Deploy(fleet, current, latest, order, env).fleet[i], n) == Rebuilt(At(fleet[i], n), current, latest, n)
    ensures var before, after := fleet[i], Deploy(fleet, current, latest, order, env).fleet[i];
            if n in latest then
              && Committed(after, n) == Some(Service(latest[n].server, Committed(before, n))) && Staged(after, n).None?
              && Listening(after, n) == if n in current then Listening(before, n) else Some(latest[n].listener)
            else if n in current then n !in after
            else At(after, n) == At(before, n)
  {
    hide RunStage, Diff, Enumerates, GetsTo, Precommits, Effect, PatchFor, Rebuilt;
    var patches := Diff(current, latest, order);
    var prepared := RunStage(Preparing, fleet, patches, env).fleet;
    var k := PatchOf(current, latest, order, n);
    PreparedSite(fleet, current, latest, order, env, i, n);
    CommitEffect(current, latest, env, n, At(fleet[i], n), At(prepared[i], n), i);
    RebuiltMeans(fleet[i], Deploy(fleet, current, latest, order, env).fleet[i], current, latest, n);
    if n in current || n in latest {
      StageTouches(Committing, prepared, patches, env, i, k);
    } else {
      StageLeaves(Committing, prepared, patches, env, i, n);
    }
  }

  lemma RebuiltMeans(before: Worker, after: Worker, current: ConfigMap, latest: ConfigMap, n: Name)
    ensures At(after, n) == Rebuilt(At(before, n), current, latest, n) ==>
              if n in latest then
                && Committed(after, n) == Some(Service(latest[n].server, Committed(before, n)))
                && Staged(after, n).None?
                && Listening(after, n) == if n in current then Listening(before, n) else Some(latest[n].listener)
              else if n in current then n !in after
              else At(after, n) == At(before, n)
  {
    assert n in after <==> At(after, n).Some?;
  }

  lemma CommitEffect(current: ConfigMap, latest: ConfigMap, env: Env, n: Name, before: Option<Site>,
      prepared: Option<Site>, i: nat)
    requires var committed := if before.Some? then before.value.committed else None;
             var listener := if before.Some? then before.value.listener else None;
             prepared ==
             if n in latest then Some(Site(committed, Some(Service(latest[n].server, committed)), listener)) else before
    ensures if n in current || n in latest then
              var effect := Effect(Committing, prepared, PatchFor(current, latest, n), env, i);
              effect.result.Ok? ==> effect.site == Rebuilt(before, current, latest, n)
            else Rebuilt(before, current, latest, n) == before
  {
  }

  /** The precommit of a configured site is executed by the worker and its factory succeeds there. */
  predicate Stages(latest: ConfigMap, env: Env, n: Name, i: nat)
    requires n in latest
  {
    env.reaches(Precommit(n, latest[n].server), i) && env.builds(n, i)
  }

  /** And the manager hears of it. */
  predicate Precommits(latest: ConfigMap, env: Env, n: Name, i: nat)
    requires n in latest
  {
    Stages(latest, env, n, i) && env.answers(Precommit(n, latest[n].server), i)
  }

  ghost predicate AllBuilt(workers: nat, latest: ConfigMap, env: Env) {
    forall n, i :: n in latest && 0 <= i < workers ==> Precommits(latest, env, n, i)
  }

  /** The commit of a site's patch is executed and answered, and the listener of an inserted site can be built. */
  predicate Commits(current: ConfigMap, latest: ConfigMap, env: Env, n: Name, i: nat)
    requires n in current || n in latest
  {
    if n !in latest then env.reaches(Remove(n), i) && env.answers(Remove(n), i)
    else if n in current then env.reaches(Update(n), i) && env.answers(Update(n), i)
    else
      var cmd := Commit(n, latest[n].listener);
      env.reaches(cmd, i) && env.answers(cmd, i) && env.listens(n, i)
  }

  ghost predicate AllCommitted(workers: nat, current: ConfigMap, latest: ConfigMap, env: Env) {
    forall n, i :: (n in current || n in latest) && 0 <= i < workers ==> Commits(current, latest, env, n, i)
  }

  /** The error of a failed prepare stage is that of a precommit that fails. */
  ghost predicate PrepareExplained(workers: nat, latest: ConfigMap, env: Env, e: CommandError) {
    exists n, i :: n in latest && 0 <= i < workers && !Precommits(latest, env, n, i) &&
      e == if Heard(env, Precommit(n, latest[n].server), i) then BuildService else Unreachable
  }

  /** The error of a failed commit stage is that of a command which fails for its listener or its channel. */
  ghost predicate CommitExplained(workers: nat, current: ConfigMap, latest: ConfigMap, env: Env, e: CommandError) {
    exists n, i :: (n in current || n in latest) && 0 <= i < workers && !Commits(current, latest, env, n, i) &&
      e == if Heard(env, CommandFor(Committing, PatchFor(current, latest, n)).value, i) then BuildListener
           else Unreachable
  }

  /** Every configured site among the first k is staged on every worker. */
  ghost predicate StagedBefore(workers: nat, latest: ConfigMap, order: seq<Name>, env: Env, k: nat)
    requires k <= |order|
  {
    forall j, i :: 0 <= j < k && order[j] in latest && 0 <= i < workers ==> Precommits(latest, env, order[j], i)
  }

  /** The prepare stage gets to the patch of n. */
  ghost predicate Attempted(workers: nat, latest: ConfigMap, order: seq<Name>, env: Env, n: Name) {
    exists k :: 0 <= k < |order| && order[k] == n && StagedBefore(workers, latest, order, env, k)
  }

  /** What the prepare stage leaves of a site, whether or not it succeeds. */
  ghost function PreparedAs(workers: nat, site: Option<Site>, latest: ConfigMap, order: seq<Name>, env: Env,
      n: Name, i: nat): Option<Site>
  {
    var committed := if site.Some? then site.value.committed else None;
    if n in latest && Attempted(workers, latest, order, env, n) && Stages(latest, env, n, i)
    then Some(Site(committed, Some(Service(latest[n].server, committed)),
                   if site.Some? then site.value.listener else None))
    else site
  }

  /** What the abort stage makes of that. */
  ghost function Unstaged(site: Option<Site>, latest: ConfigMap, env: Env, n: Name, i: nat): Option<Site> {
    if n in latest && env.reaches(Abort(n), i) && site.Some? then Some(site.value.(staged := None)) else site
  }

  /** Exactly what the prepare stage leaves of every site, although it may stop part way. */
  lemma PrepareExactly(fleet: Fleet, current: ConfigMap, latest: ConfigMap, order: seq<Name>, env: Env, i: nat, n: Name)
    requires Enumerates(order, current.Keys + latest.Keys) && i < |fleet|
    ensures At(RunStage(Preparing, fleet, Diff(current, latest, order), env).fleet[i], n)
            == PreparedAs(|fleet|, At(fleet[i], n), latest, order, env, n, i)
  {
    hide RunStage, Diff, Enumerates, Attempted;
    var patches := Diff(current, latest, order);
    var k := PatchOf(current, latest, order, n);
    if n in current || n in latest {
      StageTouches(Preparing, fleet, patches, env, i, k);
      AttemptedMeansGetsTo(fleet, current, latest, order, env, k);
    } else {
      StageLeaves(Preparing, fleet, patches, env, i, n);
    }
  }

  /** The prepare stage stops: a precommit that fails anywhere keeps all later patches from being staged. */
  lemma PrepareStops(fleet: Fleet, current: ConfigMap, latest: ConfigMap, order: seq<Name>, env: Env,
      j: nat, w: nat, k: nat, i: nat)
    requires Enumerates(order, current.Keys + latest.Keys)
    requires j < k < |order| && order[j] in latest && w < |fleet| && i < |fleet|
    requires var cmd := Precommit(order[j], latest[order[j]].server);
             !(env.reaches(cmd, w) && env.answers(cmd, w) && env.builds(order[j], w))
    ensures var prepared := RunStage(Preparing, fleet, Diff(current, latest, order), env).fleet;
            At(prepared[i], order[k]) == At(fleet[i], order[k])
  {
    PrepareExactly(fleet, current, latest, order, env, i, order[k]);
    hide RunStage, Diff;
    assert !Precommits(latest, env, order[j], w);
    assert forall l :: 0 <= l < |order| && order[l] == order[k] ==> l == k;
    assert !StagedBefore(|fleet|, latest, order, env, k);
  }

  lemma AttemptedMeansGetsTo(fleet: Fleet, current: ConfigMap, latest: ConfigMap, order: seq<Name>, env: Env, k: nat)
    requires Enumerates(order, current.Keys + latest.Keys) && k < |order|
    ensures Attempted(|fleet|, latest, order, env, order[k])
            <==> GetsTo(Preparing, fleet, Diff(current, latest, order), env, k)
  {
    DiffCovers(current, latest, order);
    var patches := Diff(current, latest, order);
    hide Diff, At, StagedBefore, GetsTo;
    StagedMeansGetsTo(fleet, current, latest, order, env, patches, k);
    assert forall j :: 0 <= j < |order| && order[j] == order[k] ==> j == k;
  }

  lemma StagedMeansGetsTo(fleet: Fleet, current: ConfigMap, latest: ConfigMap, order: seq<Name>, env: Env,
      patches: seq<Patch>, k: nat)
    requires k < |order| == |patches|
    requires forall j :: 0 <= j < |order| ==>
               (order[j] in current || order[j] in latest) && patches[j] == PatchFor(current, latest, order[j])
    ensures StagedBefore(|fleet|, latest, order, env, k) <==> GetsTo(Preparing, fleet, patches, env, k)
  {
    hide Effect, Precommits, At;
    if StagedBefore(|fleet|, latest, order, env, k) {
      forall j, i | 0 <= j < k && 0 <= i < |fleet|
        ensures Effect(Preparing, At(fleet[i], patches[j].key), patches[j], env, i).result.Ok?
      {
        PrecommitEffect(current, latest, env, order[j], At(fleet[i], order[j]), i);
      }
    }
    if GetsTo(Preparing, fleet, patches, env, k) {
      forall j, i | 0 <= j < k && order[j] in latest && 0 <= i < |fleet|
        ensures Precommits(latest, env, order[j], i)
      {
        PrecommitEffect(current, latest, env, order[j], At(fleet[i], order[j]), i);
        assert Effect(Preparing, At(fleet[i], patches[j].key), patches[j], env, i).result.Ok?;
      }
    }
  }

  lemma PrecommitEffect(current: ConfigMap, latest: ConfigMap, env: Env, n: Name, site: Option<Site>, i: nat)
    requires n in current || n in latest
    ensures Effect(Preparing, site, PatchFor(current, latest, n), env, i).result.Ok?
            <==> (n in latest ==> Precommits(latest, env, n, i))
  {
  }

  /** Exactly what an aborted reload leaves of every site, although the errors of the aborts are discarded. */
  lemma AbortedExactly(fleet: Fleet, current: ConfigMap, latest: ConfigMap, order: seq<Name>, env: Env, i: nat, n: Name)
    requires Enumerates(order, current.Keys + latest.Keys) && i < |fleet|
    requires Deploy(fleet, current, latest, order, env).outcome.Aborted?
    ensures At(Deploy(fleet, current, latest, order, env).fleet[i], n)
            == Unstaged(PreparedAs(|fleet|, At(fleet[i], n), latest, order, env, n, i), latest, env, n, i)
  {
    hide RunStage, Diff, Enumerates, PreparedAs;
    var patches := Diff(current, latest, order);
    var prepared := RunStage(Preparing, fleet, patches, env).fleet;
    var k := PatchOf(current, latest, order, n);
    PrepareExactly(fleet, current, latest, order, env, i, n);
    if n in current || n in latest {
      StageTouches(Stage.Aborting, prepared, patches, env, i, k);
    } else {
      StageLeaves(Stage.Aborting, prepared, patches, env, i, n);
    }
  }

  /** Exactly when an aborted reload leaves a container, or its absence, as it was. */
  lemma AbortKeepsExactly(fleet: Fleet, current: ConfigMap, latest: ConfigMap, order: seq<Name>, env: Env, i: nat,
      n: Name)
    requires Enumerates(order, current.Keys + latest.Keys) && i < |fleet|
    requires Deploy(fleet, current, latest, order, env).outcome.Aborted?
    ensures At(Deploy(fleet, current, latest, order, env).fleet[i], n) == At(fleet[i], n) <==>
            n !in latest ||
            var staged := Attempted(|fleet|, latest, order, env, n) && Stages(latest, env, n, i);
            if env.reaches(Abort(n), i) then (if n in fleet[i] then Staged(fleet[i], n).None? else !staged)
            else staged ==> Staged(fleet[i], n) == Some(Service(latest[n].server, Committed(fleet[i], n)))
  {
    AbortedExactly(fleet, current, latest, order, env, i, n);
    hide Deploy, Enumerates, Attempted;
    assert At(fleet[i], n).Some? <==> n in fleet[i];
  }

  /**
   Rollback: when any precommit fails, every worker ends with the committed services it had
   before, and with nothing staged wherever the abort arrived.
   */
  lemma AbortedSite(fleet: Fleet, current: ConfigMap, latest: ConfigMap, order: seq<Name>, env: Env, i: nat, n: Name)
    requires Enumerates(order, current.Keys + latest.Keys)
    requires i < |fleet|
    requires Deploy(fleet, current, latest, order, env).outcome.Aborted?
    ensures var after := Deploy(fleet, current, latest, order, env).fleet[i];
            && Committed(after, n) == Committed(fleet[i], n)
            && (Staged(fleet[i], n).None? && env.reaches(Abort(n), i) ==> Staged(after, n).None?)
  {
    AbortedExactly(fleet, current, latest, order, env, i, n);
    hide Deploy, Enumerates, Attempted;
    var after := Deploy(fleet, current, latest, order, env).fleet[i];
    assert At(after, n).Some? <==> n in after;
  }

  /**
   Between reloads the outcome depends on factories and channels alone: a reload aborts exactly
   when some precommit fails, and once everything is prepared nothing can fail but the listener of
   a newly inserted site or the channel to a worker, whatever order the patches come in.
   */
  lemma OutcomeDecided(fleet: Fleet, current: ConfigMap, latest: ConfigMap, order: seq<Name>, env: Env)
    requires Enumerates(order, current.Keys + latest.Keys)
    requires InSync(fleet, current)
    ensures var o := Deploy(fleet, current, latest, order, env).outcome;
            if !AllBuilt(|fleet|, latest, env) then o.Aborted? && PrepareExplained(|fleet|, latest, env, o.error)
            else if !AllCommitted(|fleet|, current, latest, env) then
              o.Crashed? && CommitExplained(|fleet|, current, latest, env, o.error)
            else o.Applied?
    ensures Deploy(fleet, current, latest, order, env).outcome.Aborted? <==>
            exists n, i :: n in latest && 0 <= i < |fleet| &&
              var cmd := Precommit(n, latest[n].server);
              !(env.reaches(cmd, i) && env.answers(cmd, i) && env.builds(n, i))
  {
    hide PrepareExplained, CommitExplained, Deploy, Enumerates, InSync;
    OutcomeKinds(fleet, current, latest, order, env);
    forall n, i | n in latest && 0 <= i < |fleet| ensures Precommits(latest, env, n, i) <==>
        var cmd := Precommit(n, latest[n].server);
        env.reaches(cmd, i) && env.answers(cmd, i) && env.builds(n, i)
    {
    }
  }

  lemma OutcomeKinds(fleet: Fleet, current: ConfigMap, latest: ConfigMap, order: seq<Name>, env: Env)
    requires Enumerates(order, current.Keys + latest.Keys)
    requires InSync(fleet, current)
    ensures var o := Deploy(fleet, current, latest, order, env).outcome;
            if !AllBuilt(|fleet|, latest, env) then o.Aborted? && PrepareExplained(|fleet|, latest, env, o.error)
            else if !AllCommitted(|fleet|, current, latest, env) then
              o.Crashed? && CommitExplained(|fleet|, current, latest, env, o.error)
            else o.Applied?
  {
    hide PrepareExplained, CommitExplained, AllBuilt, AllCommitted;
    PrepareDecided(fleet, current, latest, order, env);
    if RunStage(Preparing, fleet, Diff(current, latest, order), env).result.Ok? {
      CommitDecided(fleet, current, latest, order, env);
    }
  }

  lemma PrepareDecided(fleet: Fleet, current: ConfigMap, latest: ConfigMap, order: seq<Name>, env: Env)
    requires Enumerates(order, current.Keys + latest.Keys)
    ensures var r := RunStage(Preparing, fleet, Diff(current, latest, order), env).result;
            if AllBuilt(|fleet|, latest, env) then r.Ok? else r.Err? && PrepareExplained(|fleet|, latest, env, r.error)
  {
    hide RunStage, Diff, Enumerates;
    if RunStage(Preparing, fleet, Diff(current, latest, order), env).result.Err? {
      PrepareError(fleet, current, latest, order, env);
    } else {
      forall n, i | n in latest && 0 <= i < |fleet| ensures Precommits(latest, env, n, i) {
        PreparedSite(fleet, current, latest, order, env, i, n);
      }
    }
  }

  lemma PrepareError(fleet: Fleet, current: ConfigMap, latest: ConfigMap, order: seq<Name>, env: Env)
    requires Enumerates(order, current.Keys + latest.Keys)
    requires RunStage(Preparing, fleet, Diff(current, latest, order), env).result.Err?
    ensures PrepareExplained(|fleet|, latest, env,
                             RunStage(Preparing, fleet, Diff(current, latest, order), env).result.error)
    ensures !AllBuilt(|fleet|, latest, env)
  {
    hide RunStage, Diff, Enumerates;
    DiffCovers(current, latest, order);
    var i, k := StageFails(Preparing, fleet, Diff(current, latest, order), env);
    assert order[k] in latest && !Precommits(latest, env, order[k], i);
  }

  /** After a successful prepare stage the new service is staged beside the untouched committed one. */
  lemma PreparedSite(fleet: Fleet, current: ConfigMap, latest: ConfigMap, order: seq<Name>, env: Env, i: nat, n: Name)
    requires Enumerates(order, current.Keys + latest.Keys)
    requires RunStage(Preparing, fleet, Diff(current, latest, order), env).result.Ok? && i < |fleet|
    ensures var site := At(RunStage(Preparing, fleet, Diff(current, latest, order), env).fleet[i], n);
            var committed := Committed(fleet[i], n);
            if n in latest
            then Precommits(latest, env, n, i)
                 && site == Some(Site(committed, Some(Service(latest[n].server, committed)), Listening(fleet[i], n)))
            else site == At(fleet[i], n)
  {
    hide RunStage, Diff, Enumerates;
    var patches := Diff(current, latest, order);
    var k := PatchOf(current, latest, order, n);
    if n in current || n in latest {
      StageTouches(Preparing, fleet, patches, env, i, k);
    } else {
      StageLeaves(Preparing, fleet, patches, env, i, n);
    }
  }

  lemma CommitDecided(fleet: Fleet, current: ConfigMap, latest: ConfigMap, order: seq<Name>, env: Env)
    requires Enumerates(order, current.Keys + latest.Keys)
    requires InSync(fleet, current)
    requires RunStage(Preparing, fleet, Diff(current, latest, order), env).result.Ok?
    ensures var patches := Diff(current, latest, order);
            var r := RunStage(Committing, RunStage(Preparing, fleet, patches, env).fleet, patches, env).result;
            if AllCommitted(|fleet|, current, latest, env) then r.Ok?
            else r.Err? && CommitExplained(|fleet|, current, latest, env, r.error)
  {
    hide RunStage, Diff, Enumerates;
    var patches := Diff(current, latest, order);
    var prepared := RunStage(Preparing, fleet, patches, env).fleet;
    if RunStage(Committing, prepared, patches, env).result.Err? {
      CommitError(fleet, current, latest, order, env);
    } else {
      forall n, i | (n in current || n in latest) && 0 <= i < |fleet| ensures Commits(current, latest, env, n, i) {
        var k := PatchOf(current, latest, order, n);
        StageTouches(Committing, prepared, patches, env, i, k);
      }
    }
  }

  lemma CommitError(fleet: Fleet, current: ConfigMap, latest: ConfigMap, order: seq<Name>, env: Env)
    requires Enumerates(order, current.Keys + latest.Keys)
    requires InSync(fleet, current)
    requires RunStage(Preparing, fleet, Diff(current, latest, order), env).result.Ok?
    requires var patches := Diff(current, latest, order);
             RunStage(Committing, RunStage(Preparing, fleet, patches, env).fleet, patches, env).result.Err?
    ensures var patches := Diff(current, latest, order);
            var r := RunStage(Committing, RunStage(Preparing, fleet, patches, env).fleet, patches, env).result;
            CommitExplained(|fleet|, current, latest, env, r.error)
    ensures !AllCommitted(|fleet|, current, latest, env)
  {
    hide RunStage, Diff, Enumerates, InSync;
    var patches := Diff(current, latest, order);
    DiffCovers(current, latest, order);
    var i, k := StageFails(Committing, RunStage(Preparing, fleet, patches, env).fleet, patches, env);
    PreparedSite(fleet, current, latest, order, env, i, order[k]);
    SyncAt(fleet, current, i, order[k]);
    assert !Commits(current, latest, env, order[k], i);
  }

  lemma SyncAt(fleet: Fleet, online: ConfigMap, i: nat, n: Name)
    requires InSync(fleet, online) && i < |fleet|
    ensures Committed(fleet[i], n).Some? <==> n in online
  {
  }

  /** The arbitrary iteration order of the key set does not show: two orders end in the same sites. */
  lemma OrderIrrelevant(fleet: Fleet, current: ConfigMap, latest: ConfigMap, a: seq<Name>, b: seq<Name>, env: Env)
    requires Enumerates(a, current.Keys + latest.Keys) && Enumerates(b, current.Keys + latest.Keys)
    requires InSync(fleet, current)
    ensures var o, p := Deploy(fleet, current, latest, a, env).outcome, Deploy(fleet, current, latest, b, env).outcome;
            && o.Applied? == p.Applied? && o.Aborted? == p.Aborted?
            && ((forall cmd, i :: Heard(env, cmd, i)) ==> o == p)
    ensures Deploy(fleet, current, latest, a, env).outcome.Applied? ==>
              Deploy(fleet, current, latest, a, env).fleet == Deploy(fleet, current, latest, b, env).fleet
  {
    hide Deploy, Enumerates, InSync, AllBuilt, AllCommitted, Rebuilt;
    OutcomeDecided(fleet, current, latest, a, env);
    OutcomeDecided(fleet, current, latest, b, env);
    var x, y := Deploy(fleet, current, latest, a, env), Deploy(fleet, current, latest, b, env);
    if x.outcome.Applied? {
      forall i | 0 <= i < |fleet| ensures x.fleet[i] == y.fleet[i] {
        forall n ensures At(x.fleet[i], n) == At(y.fleet[i], n) {
          AppliedSite(fleet, current, latest, a, env, i, n);
          AppliedSite(fleet, current, latest, b, env, i, n);
        }
        SameSites(x.fleet[i], y.fleet[i]);
      }
    }
  }

  lemma SameSites(v: Worker, w: Worker)
    requires forall n :: At(v, n) == At(w, n)
    ensures v == w
  {
    forall n ensures n in v <==> n in w {
      assert At(v, n) == At(w, n);
    }
    forall n | n in v ensures v[n] == w[n] {
      assert At(v, n) == At(w, n);
    }
  }

  // ----- every moment of a reload -----

  lemma DispatchedAt(fleet: Fleet, cmd: Command, env: Env, k: nat, n: Name)
    ensures forall i :: 0 <= i < |fleet| ==>
              At(Dispatched(fleet, cmd, env, k)[i], n) ==
              if i < k && n == cmd.name then AnswerSite(At(fleet[i], n), cmd, env, i).site
              else At(fleet[i], n)
  {
  }

  lemma SnapshotAt(fleet: Fleet, cmd: Command, env: Env, t: nat)
    requires t < |fleet|
    ensures |Snapshots(fleet, cmd, env)| == |fleet|
    ensures Snapshots(fleet, cmd, env)[t] == Dispatched(fleet, cmd, env, t + 1)
  {
  }

  /** The site of patch p has seen that patch's command on the first q workers and nothing on the others. */
  ghost predicate DoneOnPrefix(stage: Stage, fleet: Fleet, now: Fleet, p: Patch, env: Env, q: nat) {
    |now| == |fleet| &&
    forall i :: 0 <= i < |fleet| ==>
      At(now[i], p.key) == if i < q then Effect(stage, At(fleet[i], p.key), p, env, i).site else At(fleet[i], p.key)
  }

  /** A number that never decreases. */
  ghost predicate Grows(q: seq<nat>) {
    forall t, u :: 0 <= t < u < |q| ==> q[t] <= q[u]
  }

  /** While the command of one patch is dispatched, its own site is the only one that changes. */
  lemma SnapshotPrefix(stage: Stage, fleet: Fleet, dispatched: Patch, p: Patch, env: Env) returns (q: seq<nat>)
    requires CommandFor(stage, dispatched).Some? && (dispatched.key == p.key ==> dispatched == p)
    ensures var snapshots := Snapshots(fleet, CommandFor(stage, dispatched).value, env);
            && |q| == |snapshots| == |fleet| && Grows(q)
            && (forall t :: 0 <= t < |q| ==> q[t] <= |fleet| && DoneOnPrefix(stage, fleet, snapshots[t], p, env, q[t]))
            && (dispatched.key != p.key ==> forall t :: 0 <= t < |q| ==> q[t] == 0)
  {
    hide Answer, AnswerSite, Dispatched, Snapshots;
    var cmd := CommandFor(stage, dispatched).value;
    SnapshotLength(fleet, cmd, env);
    q := seq(|fleet|, t requires 0 <= t < |fleet| => if dispatched.key == p.key then t + 1 else 0);
    forall t | 0 <= t < |fleet| ensures DoneOnPrefix(stage, fleet, Snapshots(fleet, cmd, env)[t], p, env, q[t]) {
      SnapshotAt(fleet, cmd, env, t);
      DispatchedAt(fleet, cmd, env, t + 1, p.key);
    }
  }

  /**
   At every moment of a stage the workers that have executed the command of a site's patch are a
   prefix of the worker list, and the prefix only grows.
   */
  lemma {:induction false} StagePrefix(stage: Stage, fleet: Fleet, patches: seq<Patch>, env: Env, k: nat)
    returns (q: seq<nat>)
    requires Distinct(patches) && k < |patches|
    ensures |q| == |RunStage(stage, fleet, patches, env).trace| && Grows(q)
    ensures forall t :: 0 <= t < |q| ==>
              && q[t] <= |fleet|
              && DoneOnPrefix(stage, fleet, RunStage(stage, fleet, patches, env).trace[t], patches[k], env, q[t])
    decreases |patches|
  {
    hide Answer, AnswerSite, Dispatched, Snapshots, FirstErr, Replies;
    var n := patches[k].key;
    var trace := RunStage(stage, fleet, patches, env).trace;
    match CommandFor(stage, patches[0])
    case None =>
      if k == 0 {
        forall t | 0 <= t < |trace| ensures DoneOnPrefix(stage, fleet, trace[t], patches[k], env, 0) {
          StageIdle(stage, fleet, patches[1..], env, t, n);
        }
        q := seq(|trace|, _ => 0);
      } else {
        q := StagePrefix(stage, fleet, patches[1..], env, k - 1);
      }
    case Some(cmd) =>
      var after := Dispatched(fleet, cmd, env, |fleet|);
      var now := SnapshotPrefix(stage, fleet, patches[0], patches[k], env);
      var later: seq<nat> := [];
      if |trace| > |fleet| {
        DispatchedAt(fleet, cmd, env, |fleet|, n);
        var rest := RunStage(stage, after, patches[1..], env).trace;
        assert forall t :: |fleet| <= t < |trace| ==> trace[t] == rest[t - |fleet|];
        if k == 0 {
          later := seq(|rest|, _ => |fleet|);
          forall t | 0 <= t < |rest| ensures DoneOnPrefix(stage, fleet, rest[t], patches[k], env, later[t]) {
            StageIdle(stage, after, patches[1..], env, t, n);
          }
        } else {
          later := StagePrefix(stage, after, patches[1..], env, k - 1);
        }
      }
      q := now + later;
  }

  lemma SnapshotLength(fleet: Fleet, cmd: Command, env: Env)
    ensures |Snapshots(fleet, cmd, env)| == |fleet|
  {
  }

  lemma {:induction false} StageIdle(stage: Stage, fleet: Fleet, patches: seq<Patch>, env: Env, t: nat, n: Name)
    requires forall k :: 0 <= k < |patches| ==> patches[k].key != n
    requires t < |RunStage(stage, fleet, patches, env).trace|
    ensures |RunStage(stage, fleet, patches, env).trace[t]| == |fleet|
    ensures forall i :: 0 <= i < |fleet| ==>
              At(RunStage(stage, fleet, patches, env).trace[t][i], n) == At(fleet[i], n)
    decreases |patches|
  {
    hide Answer, AnswerSite, Dispatched, Snapshots;
    match CommandFor(stage, patches[0])
    case None =>
      StageIdle(stage, fleet, patches[1..], env, t, n);
    case Some(cmd) =>
      DispatchedAt(fleet, cmd, env, |fleet|, n);
      SnapshotLength(fleet, cmd, env);
      if t < |fleet| {
        SnapshotAt(fleet, cmd, env, t);
        DispatchedAt(fleet, cmd, env, t + 1, n);
      } else {
        StageIdle(stage, Dispatched(fleet, cmd, env, |fleet|), patches[1..], env, t - |fleet|, n);
      }
  }

  /** The new version of n is committed on the first p workers, less those the update did not reach. */
  ghost predicate Switched(fleet: Fleet, now: Fleet, latest: ConfigMap, env: Env, n: Name, p: nat)
    requires n in latest
  {
    |now| == |fleet| &&
    forall i :: 0 <= i < |fleet| ==>
      Committed(now[i], n) ==
      if i < p && env.reaches(Update(n), i) then Some(Service(latest[n].server, Committed(fleet[i], n)))
      else Committed(fleet[i], n)
  }

  ghost predicate Unswitched(fleet: Fleet, now: Fleet, n: Name) {
    |now| == |fleet| && forall i :: 0 <= i < |fleet| ==> Committed(now[i], n) == Committed(fleet[i], n)
  }

  lemma PrepareCommitsNothing(fleet: Fleet, current: ConfigMap, latest: ConfigMap, order: seq<Name>, env: Env, n: Name)
    requires Enumerates(order, current.Keys + latest.Keys) && (n in current || n in latest)
    ensures var r := RunStage(Preparing, fleet, Diff(current, latest, order), env);
            Unswitched(fleet, r.fleet, n) && forall t :: 0 <= t < |r.trace| ==> Unswitched(fleet, r.trace[t], n)
  {
    hide RunStage, Diff, Enumerates;
    var k := PatchOf(current, latest, order, n);
    var q := StagePrefix(Preparing, fleet, Diff(current, latest, order), env, k);
    forall i | 0 <= i < |fleet| {
      StageTouches(Preparing, fleet, Diff(current, latest, order), env, i, k);
    }
  }

  /** An aborted reload shows no site in another version at any moment. */
  lemma AbortCommitsNothing(fleet: Fleet, current: ConfigMap, latest: ConfigMap, order: seq<Name>, env: Env, n: Name)
    requires Enumerates(order, current.Keys + latest.Keys) && (n in current || n in latest)
    requires Deploy(fleet, current, latest, order, env).outcome.Aborted?
    ensures var trace := Deploy(fleet, current, latest, order, env).trace;
            forall t :: 0 <= t < |trace| ==> Unswitched(fleet, trace[t], n)
  {
    hide RunStage, Diff, Enumerates;
    var patches := Diff(current, latest, order);
    var prepared := RunStage(Preparing, fleet, patches, env);
    PrepareCommitsNothing(fleet, current, latest, order, env, n);
    var k := PatchOf(current, latest, order, n);
    var q := StagePrefix(Stage.Aborting, prepared.fleet, patches, env, k);
  }

  /** Once everything is prepared, the commit stage switches a lasting site worker by worker. */
  lemma CommitSwitches(fleet: Fleet, current: ConfigMap, latest: ConfigMap, order: seq<Name>, env: Env, n: Name)
    returns (q: seq<nat>)
    requires Enumerates(order, current.Keys + latest.Keys)
    requires InSync(fleet, current) && n in current && n in latest
    requires RunStage(Preparing, fleet, Diff(current, latest, order), env).result.Ok?
    ensures var patches := Diff(current, latest, order);
            var trace := RunStage(Committing, RunStage(Preparing, fleet, patches, env).fleet, patches, env).trace;
            && |q| == |trace| && Grows(q)
            && forall t :: 0 <= t < |trace| ==> Switched(fleet, trace[t], latest, env, n, q[t])
  {
    hide RunStage, Diff, Enumerates, InSync;
    var patches := Diff(current, latest, order);
    var prepared := RunStage(Preparing, fleet, patches, env);
    var k := PatchOf(current, latest, order, n);
    q := StagePrefix(Committing, prepared.fleet, patches, env, k);
    forall i | 0 <= i < |fleet|
      ensures var committed := Committed(fleet[i], n);
              committed.Some? &&
              At(prepared.fleet[i], n) ==
              Some(Site(committed, Some(Service(latest[n].server, committed)), Listening(fleet[i], n)))
    {
      SyncAt(fleet, current, i, n);
      PreparedSite(fleet, current, latest, order, env, i, n);
    }
  }

  /**
   Availability: at every moment of a reload a site that stays online has a committed service on
   every worker.  It is the new version on a prefix of the workers, less those the update did not
   reach, and the old one on the others.  The prefix never shrinks, so no worker returns to the
   old version; as long as the reload has not passed its prepare stage, or when it aborts, it is
   empty.
   */
  lemma AlwaysServed(fleet: Fleet, current: ConfigMap, latest: ConfigMap, order: seq<Name>, env: Env, n: Name)
    returns (p: seq<nat>)
    requires Enumerates(order, current.Keys + latest.Keys)
    requires InSync(fleet, current) && n in current && n in latest
    ensures forall i :: 0 <= i < |fleet| ==> Committed(fleet[i], n).Some?
    ensures var f := Deploy(fleet, current, latest, order, env);
            && |p| == |f.trace| && Grows(p)
            && (forall t :: 0 <= t < |p| ==> Switched(fleet, f.trace[t], latest, env, n, p[t]))
            && (f.outcome.Aborted? ==> forall t :: 0 <= t < |p| ==> p[t] == 0)
            && var prepared := RunStage(Preparing, fleet, Diff(current, latest, order), env).trace;
               |prepared| <= |p| && forall t :: 0 <= t < |prepared| ==> p[t] == 0
  {
    hide RunStage, Diff, Enumerates, InSync, Switched, Unswitched;
    forall i | 0 <= i < |fleet| ensures Committed(fleet[i], n).Some? {
      SyncAt(fleet, current, i, n);
    }
    var trace := Deploy(fleet, current, latest, order, env).trace;
    var prepared := RunStage(Preparing, fleet, Diff(current, latest, order), env);
    PrepareCommitsNothing(fleet, current, latest, order, env, n);
    forall now | Unswitched(fleet, now, n) ensures Switched(fleet, now, latest, env, n, 0) {
      UnswitchedIsSwitched(fleet, now, latest, env, n);
    }
    if prepared.result.Ok? {
      var q := CommitSwitches(fleet, current, latest, order, env, n);
      p := seq(|prepared.trace|, _ => 0) + q;
    } else {
      AbortCommitsNothing(fleet, current, latest, order, env, n);
      p := seq(|trace|, _ => 0);
    }
  }

  lemma UnswitchedIsSwitched(fleet: Fleet, now: Fleet, latest: ConfigMap, env: Env, n: Name)
    requires n in latest && Unswitched(fleet, now, n)
    ensures Switched(fleet, now, latest, env, n, 0)
  {
  }

  // ----- every run of reloads -----

  datatype Content = Content(bytes: seq<bv8>)

  /** The manager's fields and the fleet it drives. */
  datatype System = System(content: Content, online: ConfigMap, fleet: Fleet)

  /**
   One turn of the watch loop: the file as read, if it can be, what parsing makes of it, and the
   environment.
   */
  datatype Reload = Reload(content: Option<Content>, parsed: Option<ConfigMap>, order: seq<Name>, env: Env)

  /** The reload gets as far as `reload_services`. */
  predicate Attempts(content: Content, r: Reload) {
    r.content.Some? && r.content.value != content && r.parsed.Some?
  }

  ghost predicate Possible(s: System, r: Reload) {
    Attempts(s.content, r) ==> Enumerates(r.order, s.online.Keys + r.parsed.value.Keys)
  }

  ghost function Attempt(s: System, r: Reload): Finish
    requires Attempts(s.content, r) && Possible(s, r)
  {
    Deploy(s.fleet, s.online, r.parsed.value, r.order, r.env)
  }

  ghost predicate Crashes(s: System, r: Reload)
    requires Possible(s, r)
  {
    Attempts(s.content, r) && Attempt(s, r).outcome.Crashed?
  }

  /** `reload_file`: only an applied reload is remembered. */
  ghost function Next(s: System, r: Reload): System
    requires Possible(s, r)
  {
    if !Attempts(s.content, r) then s
    else if Attempt(s, r).outcome.Applied? then System(r.content.value, r.parsed.value, Attempt(s, r).fleet)
    else s.(fleet := Attempt(s, r).fleet)
  }

  /**
   A file that cannot be read, has not changed or does not parse changes nothing at all; any other
   is deployed against what is online, and remembered exactly if that is applied.
   */
  lemma NextMeans(s: System, r: Reload)
    requires Possible(s, r)
    ensures r.content.None? || r.content == Some(s.content) || r.parsed.None? ==>
              Next(s, r) == s && StepsOf(s, r) == [] && !Crashes(s, r)
    ensures r.content.Some? && r.content != Some(s.content) && r.parsed.Some? ==>
              && Enumerates(r.order, s.online.Keys + r.parsed.value.Keys)
              && var f := Deploy(s.fleet, s.online, r.parsed.value, r.order, r.env);
                 && (Crashes(s, r) <==> f.outcome.Crashed?)
                 && StepsOf(s, r) == f.trace
                 && Next(s, r) == if f.outcome.Applied? then System(r.content.value, r.parsed.value, f.fleet)
                                  else System(s.content, s.online, f.fleet)
  {
  }

  /** So turns of the watch loop that find the file as it was leave no mark on a run. */
  lemma IdleTurn(workers: nat, h: seq<Reload>, r: Reload)
    requires Runs(workers, h) && r.content == Some(After(workers, h).content)
    ensures Runs(workers, h + [r]) && After(workers, h + [r]) == After(workers, h)
    ensures Moments(workers, h + [r]) == Moments(workers, h)
  {
    hide Deploy, Enumerates;
    assert (h + [r])[..|h|] == h;
  }

  /** A run of reloads on a number of workers, none of which panics at the commit stage. */
  ghost predicate Runs(workers: nat, h: seq<Reload>)
    decreases |h|, 0
  {
    h == [] ||
    var init, last := h[..|h| - 1], h[|h| - 1];
    Runs(workers, init) && Possible(After(workers, init), last) && !Crashes(After(workers, init), last)
  }

  ghost function After(workers: nat, h: seq<Reload>): System
    requires Runs(workers, h)
    decreases |h|, 1
  {
    if h == [] then System(Content([]), map[], seq(workers, _ => map[]))
    else Next(After(workers, h[..|h| - 1]), h[|h| - 1])
  }

  /** The fleet after each single execution of a command, over a whole run. */
  ghost function Moments(workers: nat, h: seq<Reload>): seq<Fleet>
    requires Runs(workers, h)
  {
    if h == [] then []
    else
      var init, last := h[..|h| - 1], h[|h| - 1];
      Moments(workers, init) + StepsOf(After(workers, init), last)
  }

  ghost function StepsOf(s: System, r: Reload): seq<Fleet>
    requires Possible(s, r)
  {
    if Attempts(s.content, r) then Attempt(s, r).trace else []
  }

  // ----- the run read without the fleet -----

  /** The content of the last reload that took effect, and the configurations of all that did. */
  datatype Log = Log(content: Content, configs: seq<ConfigMap>)

  /** A reload takes effect when its content is new, parses, and every precommit succeeds on every worker. */
  ghost predicate TakesEffect(workers: nat, log: Log, r: Reload) {
    Attempts(log.content, r) && AllBuilt(workers, r.parsed.value, r.env)
  }

  ghost function Effective(workers: nat, h: seq<Reload>): Log {
    if h == [] then Log(Content([]), [])
    else
      var log, r := Effective(workers, h[..|h| - 1]), h[|h| - 1];
      if TakesEffect(workers, log, r) then Log(r.content.value, log.configs + [r.parsed.value]) else log
  }

  function Online(configs: seq<ConfigMap>): ConfigMap {
    if configs == [] then map[] else configs[|configs| - 1]
  }

  /** Each configuration since the last insertion contributes one service, built from the one before. */
  function Lineage(configs: seq<ConfigMap>, n: Name): Option<Service> {
    if configs == [] || n !in configs[|configs| - 1] then None
    else Some(Service(configs[|configs| - 1][n].server, Lineage(configs[..|configs| - 1], n)))
  }

  /** The listener of the configuration that last inserted the site; later ones do not move it. */
  function Opened(configs: seq<ConfigMap>, n: Name): Option<ListenerConfig> {
    if configs == [] || n !in configs[|configs| - 1] then None
    else
      var init, last := configs[..|configs| - 1], configs[|configs| - 1];
      if n in Online(init) then Opened(init, n) else Some(last[n].listener)
  }

  /** The reload aborts, and before it does the precommit of n is executed on worker i with success. */
  ghost predicate StagesInVain(workers: nat, log: Log, r: Reload, i: nat, n: Name) {
    && Attempts(log.content, r) && !AllBuilt(workers, r.parsed.value, r.env)
    && n in r.parsed.value
    && Attempted(workers, r.parsed.value, r.order, r.env, n) && Stages(r.parsed.value, r.env, n, i)
  }

  /** The reload aborts, and its abort of n arrives at worker i. */
  ghost predicate Unstages(workers: nat, log: Log, r: Reload, i: nat, n: Name) {
    && Attempts(log.content, r) && !AllBuilt(workers, r.parsed.value, r.env)
    && n in r.parsed.value && r.env.reaches(Abort(n), i)
  }

  /** The reload takes effect and has a patch for n. */
  ghost predicate Settles(workers: nat, log: Log, r: Reload, n: Name) {
    TakesEffect(workers, log, r) && (n in r.parsed.value || n in Online(log.configs))
  }

  /**
   Worker i has a container for n: an effective reload with a patch for n decides it, and otherwise
   a precommit of n made in vain leaves one.
   */
  ghost predicate Contained(workers: nat, h: seq<Reload>, i: nat, n: Name) {
    h != [] &&
    var init, r := h[..|h| - 1], h[|h| - 1];
    var log := Effective(workers, init);
    if Settles(workers, log, r, n) then n in r.parsed.value
    else StagesInVain(workers, log, r, i, n) || Contained(workers, init, i, n)
  }

  /** The staged service of n that is still on worker i, because the abort meant for it never arrived. */
  ghost function Leftover(workers: nat, h: seq<Reload>, i: nat, n: Name): Option<Service> {
    if h == [] then None
    else
      var init, r := h[..|h| - 1], h[|h| - 1];
      var log := Effective(workers, init);
      if Settles(workers, log, r, n) || Unstages(workers, log, r, i, n) then None
      else if StagesInVain(workers, log, r, i, n)
      then Some(Service(r.parsed.value[n].server, Lineage(log.configs, n)))
      else Leftover(workers, init, i, n)
  }

  /**
   Main result: over every run of reloads, whatever fails to be read, to parse, to build or to
   arrive, the container of every name on every worker is known exactly.  All workers agree on the
   committed service: that of the last effective configuration, built from the chain of its
   effective predecessors since the site was last inserted.
   */
  lemma {:induction false} RunsAgree(workers: nat, h: seq<Reload>, i: nat, n: Name)
    requires Runs(workers, h) && i < workers
    ensures |After(workers, h).fleet| == workers
    ensures At(After(workers, h).fleet[i], n) ==
            if Contained(workers, h, i, n)
            then Some(Site(Lineage(Effective(workers, h).configs, n), Leftover(workers, h, i, n),
                           Opened(Effective(workers, h).configs, n)))
            else None
    ensures Committed(After(workers, h).fleet[i], n) == Lineage(Effective(workers, h).configs, n)
    ensures Listening(After(workers, h).fleet[i], n) == Opened(Effective(workers, h).configs, n)
    ensures var online := After(workers, h).online;
            n in online ==>
              && Committed(After(workers, h).fleet[i], n).Some?
              && Committed(After(workers, h).fleet[i], n).value.config == online[n].server
    ensures After(workers, h).online == Online(Effective(workers, h).configs)
    ensures After(workers, h).content == Effective(workers, h).content
  {
    if h != [] {
      RunsInSync(workers, h[..|h| - 1]);
      RunsAgree(workers, h[..|h| - 1], i, n);
      var s, r := After(workers, h[..|h| - 1]), h[|h| - 1];
      hide Deploy, Enumerates, InSync, AllBuilt;
      if Attempts(s.content, r) {
        NextSite(s, r, i, n);
      }
      SiteStep(workers, h, i, n, At(s.fleet[i], n));
    }
  }

  /** What a reload makes of one site, read off the history. */
  ghost function SiteAfter(workers: nat, log: Log, r: Reload, i: nat, n: Name, before: Option<Site>): Option<Site> {
    if !Attempts(log.content, r) then before
    else if AllBuilt(workers, r.parsed.value, r.env) then Rebuilt(before, Online(log.configs), r.parsed.value, n)
    else Unstaged(PreparedAs(workers, before, r.parsed.value, r.order, r.env, n, i), r.parsed.value, r.env, n, i)
  }

  lemma SiteStep(workers: nat, h: seq<Reload>, i: nat, n: Name, before: Option<Site>)
    requires h != []
    requires var init := h[..|h| - 1];
             var configs := Effective(workers, init).configs;
             var lineage, opening := Lineage(configs, n), Opened(configs, n);
             && before == (if Contained(workers, init, i, n)
                           then Some(Site(lineage, Leftover(workers, init, i, n), opening)) else None)
             && (before.None? ==> lineage.None? && opening.None?)
    ensures var lineage, opening := Lineage(Effective(workers, h).configs, n), Opened(Effective(workers, h).configs, n);
            var after := SiteAfter(workers, Effective(workers, h[..|h| - 1]), h[|h| - 1], i, n, before);
            && after == (if Contained(workers, h, i, n)
                         then Some(Site(lineage, Leftover(workers, h, i, n), opening)) else None)
            && (after.None? ==> lineage.None? && opening.None?)
  {
    hide AllBuilt, Attempted, Stages;
    var log, r := Effective(workers, h[..|h| - 1]), h[|h| - 1];
    if TakesEffect(workers, log, r) {
      assert (log.configs + [r.parsed.value])[..|log.configs|] == log.configs;
    }
  }

  /** One attempted reload between settled states, seen at one site of one worker. */
  lemma NextSite(s: System, r: Reload, i: nat, n: Name)
    requires Attempts(s.content, r) && Possible(s, r) && !Crashes(s, r)
    requires InSync(s.fleet, s.online) && i < |s.fleet|
    ensures Attempt(s, r).outcome.Applied? <==> AllBuilt(|s.fleet|, r.parsed.value, r.env)
    ensures var before := At(s.fleet[i], n);
            At(Next(s, r).fleet[i], n) ==
            if AllBuilt(|s.fleet|, r.parsed.value, r.env) then Rebuilt(before, s.online, r.parsed.value, n)
            else Unstaged(PreparedAs(|s.fleet|, before, r.parsed.value, r.order, r.env, n, i), r.parsed.value, r.env, n,
                          i)
  {
    hide Deploy, InSync, Enumerates, AllBuilt, AllCommitted;
    OutcomeDecided(s.fleet, s.online, r.parsed.value, r.order, r.env);
    if Attempt(s, r).outcome.Applied? {
      AppliedSite(s.fleet, s.online, r.parsed.value, r.order, r.env, i, n);
    } else {
      AbortedExactly(s.fleet, s.online, r.parsed.value, r.order, r.env, i, n);
    }
  }

  /** Between reloads every worker has committed exactly the names that are online. */
  lemma {:induction false} RunsInSync(workers: nat, h: seq<Reload>)
    requires Runs(workers, h)
    ensures |After(workers, h).fleet| == workers
    ensures InSync(After(workers, h).fleet, After(workers, h).online)
  {
    if h != [] {
      RunsInSync(workers, h[..|h| - 1]);
      var s, r := After(workers, h[..|h| - 1]), h[|h| - 1];
      if Attempts(s.content, r) {
        var t := Next(s, r);
        forall i, n | 0 <= i < workers ensures Committed(t.fleet[i], n).Some? <==> n in t.online {
          NextSite(s, r, i, n);
          SyncAt(s.fleet, s.online, i, n);
        }
      }
    }
  }

  ghost predicate Serves(workers: nat, now: Fleet, n: Name) {
    |now| == workers && forall i :: 0 <= i < workers ==> Committed(now[i], n).Some?
  }

  /**
   Availability over a whole run: from the k-th reload on, a site that is online before and after
   every reload is served by every worker at every moment, whatever aborts in between.
   */
  lemma {:induction false} SitesStayServed(workers: nat, h: seq<Reload>, k: nat, n: Name)
    requires Runs(workers, h) && k <= |h|
    requires forall l :: k <= l <= |h| ==> Runs(workers, h[..l]) && n in After(workers, h[..l]).online
    ensures Runs(workers, h[..k]) && |Moments(workers, h[..k])| <= |Moments(workers, h)|
    ensures forall t :: |Moments(workers, h[..k])| <= t < |Moments(workers, h)| ==>
              Serves(workers, Moments(workers, h)[t], n)
  {
    if k == |h| {
      assert h[..k] == h;
    } else {
      var init, r := h[..|h| - 1], h[|h| - 1];
      assert h[..|h|] == h;
      assert forall l :: k <= l <= |init| ==> init[..l] == h[..l];
      SitesStayServed(workers, init, k, n);
      assert init == h[..|init|];
      StaysServed(workers, init, r, n);
    }
  }

  lemma StaysServed(workers: nat, init: seq<Reload>, r: Reload, n: Name)
    requires Runs(workers, init) && Possible(After(workers, init), r) && !Crashes(After(workers, init), r)
    requires n in After(workers, init).online && n in Next(After(workers, init), r).online
    ensures forall now :: now in StepsOf(After(workers, init), r) ==> Serves(workers, now, n)
  {
    hide Deploy, Enumerates, InSync, Runs, After;
    var s := After(workers, init);
    RunsInSync(workers, init);
    if Attempts(s.content, r) {
      forall i | 0 <= i < workers ensures Committed(s.fleet[i], n).Some? {
        SyncAt(s.fleet, s.online, i, n);
      }
      if Attempt(s, r).outcome.Aborted? {
        AbortCommitsNothing(s.fleet, s.online, r.parsed.value, r.order, r.env, n);
      } else {
        var _ := AlwaysServed(s.fleet, s.online, r.parsed.value, r.order, r.env, n);
      }
    }
  }

  /** A worker that every abort reaches has nothing staged between reloads. */
  lemma {:induction false} NothingLeftOver(workers: nat, h: seq<Reload>, i: nat, n: Name)
    requires Runs(workers, h) && i < workers
    requires forall k :: 0 <= k < |h| ==> h[k].env.reaches(Abort(n), i)
    ensures |After(workers, h).fleet| == workers && Staged(After(workers, h).fleet[i], n).None?
    ensures At(After(workers, h).fleet[i], n) ==
            if Contained(workers, h, i, n)
            then Some(Site(Lineage(Effective(workers, h).configs, n), None, Opened(Effective(workers, h).configs, n)))
            else None
  {
    RunsAgree(workers, h, i, n);
    NeverLeftOver(workers, h, i, n);
  }

  /**
   A worker that is gone does not come back: the case of the code, where a command fails to arrive
   only once the worker's control loop has ended.
   */
  ghost predicate GoneForGood(h: seq<Reload>, i: nat) {
    forall k, l, missed, arrived :: 0 <= k < l < |h| && h[l].env.reaches(arrived, i) ==> h[k].env.reaches(missed, i)
  }

  /** Then a worker that any command of a reload reaches had nothing staged when that reload began. */
  lemma LivingWorkersAreClean(workers: nat, h: seq<Reload>, l: nat, arrived: Command, i: nat, n: Name)
    requires l < |h| && GoneForGood(h, i) && h[l].env.reaches(arrived, i)
    requires Runs(workers, h[..l]) && i < workers
    ensures |After(workers, h[..l]).fleet| == workers && Staged(After(workers, h[..l]).fleet[i], n).None?
  {
    NothingLeftOver(workers, h[..l], i, n);
  }

  lemma {:induction false} NeverLeftOver(workers: nat, h: seq<Reload>, i: nat, n: Name)
    requires forall k :: 0 <= k < |h| ==> h[k].env.reaches(Abort(n), i)
    ensures Leftover(workers, h, i, n).None?
  {
    if h != [] {
      NeverLeftOver(workers, h[..|h| - 1], i, n);
      assert h[|h| - 1].env.reaches(Abort(n), i);
    }
  }

  /**
   The only permitted residue, and where it comes from: a container for a name that is not online
   was left by an aborted reload that had precommitted the name on this very worker, and since then
   no reload with a patch for the name took effect.
   */
  lemma {:induction false} ResidueCause(workers: nat, h: seq<Reload>, i: nat, n: Name)
    requires Runs(workers, h) && i < workers && n !in After(workers, h).online
    ensures |After(workers, h).fleet| == workers
    ensures At(After(workers, h).fleet[i], n).Some? <==>
              exists k :: Strands(workers, h, k, i, n)
  {
    RunsAgree(workers, h, i, n);
    ContainedBecause(workers, h, i, n);
  }

  /** Reload k staged n on worker i in vain, and no later reload with a patch for n took effect. */
  ghost predicate Strands(workers: nat, h: seq<Reload>, k: int, i: nat, n: Name) {
    && 0 <= k < |h|
    && StagesInVain(workers, Effective(workers, h[..k]), h[k], i, n)
    && forall j :: k < j < |h| ==> !Settles(workers, Effective(workers, h[..j]), h[j], n)
  }

  lemma {:induction false} ContainedBecause(workers: nat, h: seq<Reload>, i: nat, n: Name)
    requires n !in Online(Effective(workers, h).configs)
    ensures Contained(workers, h, i, n) <==> exists k :: Strands(workers, h, k, i, n)
  {
    if h != [] {
      var m := |h| - 1;
      Unsettled(workers, h, n);
      StrandsLast(workers, h, i, n);
      hide StagesInVain, Settles, Strands, Online;
      if !Settles(workers, Effective(workers, h[..m]), h[m], n) {
        ContainedBecause(workers, h[..m], i, n);
        forall k | 0 <= k < m ensures Strands(workers, h, k, i, n) <==> Strands(workers, h[..m], k, i, n) {
          StrandsEarlier(workers, h, k, i, n);
        }
      }
    }
  }

  lemma Unsettled(workers: nat, h: seq<Reload>, n: Name)
    requires h != [] && n !in Online(Effective(workers, h).configs)
    ensures var log, r := Effective(workers, h[..|h| - 1]), h[|h| - 1];
            if Settles(workers, log, r, n) then n !in r.parsed.value else n !in Online(log.configs)
  {
  }

  lemma StrandsLast(workers: nat, h: seq<Reload>, i: nat, n: Name)
    requires h != []
    ensures var m := |h| - 1;
            && (Strands(workers, h, m, i, n) <==> StagesInVain(workers, Effective(workers, h[..m]), h[m], i, n))
            && (Settles(workers, Effective(workers, h[..m]), h[m], n) ==> forall k :: !Strands(workers, h, k, i, n))
            && forall k :: Strands(workers, h, k, i, n) || Strands(workers, h[..m], k, i, n) ==> 0 <= k <= m
  {
    hide Effective;
  }

  lemma StrandsEarlier(workers: nat, h: seq<Reload>, k: nat, i: nat, n: Name)
    requires k < |h| - 1 && !Settles(workers, Effective(workers, h[..|h| - 1]), h[|h| - 1], n)
    ensures Strands(workers, h, k, i, n) <==> Strands(workers, h[..|h| - 1], k, i, n)
  {
    var init := h[..|h| - 1];
    hide Effective, StagesInVain, Settles;
    forall j | 0 <= j < |init| ensures h[..j] == init[..j] && h[j] == init[j] {
    }
  }

  /** A new site whose factory fails on the second of two workers. */
  function HalfBuilt(a: Name, config: ServiceConfig): Reload {
    Reload(Some(Content([1])), Some(map[a := config]), [a], Env((_, i) => i == 0, (_, _) => true, (_, _) => true,
                                                                (_, _) => true))
  }

  /** The reload aborts, and on the worker where the factory succeeded an empty container stays behind. */
  lemma ResidueExample(a: Name, config: ServiceConfig)
    ensures var h := [HalfBuilt(a, config)];
            && Runs(2, h) && |After(2, h).fleet| == 2
            && At(After(2, h).fleet[0], a) == Some(Site(None, None, None))
            && At(After(2, h).fleet[1], a) == None
  {
    var r := HalfBuilt(a, config);
    var h := [r];
    var s := System(Content([]), map[], seq(2, _ => map[]));
    assert h[..0] == [] && After(2, []) == s;
    assert h[..|h| - 1] == [];
    assert Possible(s, r);
    OutcomeDecided(s.fleet, map[], r.parsed.value, r.order, r.env);
    assert !Precommits(r.parsed.value, r.env, a, 1);
    assert Attempt(s, r).outcome.Aborted?;
    var init := h[..|h| - 1];
    assert Runs(2, init) && After(2, init) == s && h[|h| - 1] == r;
    assert Possible(After(2, init), r);
    assert !Crashes(s, r);
    assert !Crashes(After(2, init), r);
    assert Runs(2, h);
    assert Attempted(2, r.parsed.value, r.order, r.env, a) by {
      assert r.order[0] == a && StagedBefore(2, r.parsed.value, r.order, r.env, 0);
    }
    RunsAgree(2, h, 0, a);
    RunsAgree(2, h, 1, a);
  }
}
