/**
 The imperative side of the rollout: the worker manager that broadcasts commands and the
 configuration manager that diffs, prepares, commits and aborts.  Each method is proved equal
 to the function of `Rollout` it implements, including every intermediate state of the fleet.
 */
module Workers {
  import opened Wrappers
  import opened Deployment
  import opened Rollout
  import opened Executor

  /** `ResultGroup::err`. */
  method GroupErr(results: seq<Result<(), CommandError>>) returns (r: Result<(), CommandError>)
    ensures r == FirstErr(results)
    ensures r.Ok? <==> forall i :: 0 <= i < |results| ==> results[i].Ok?
  {
    FirstErrMeans(results);
    for k := 0 to |results|
      invariant FirstErr(results) == FirstErr(results[k..])
      invariant forall i :: 0 <= i < k ==> results[i].Ok?
    {
      if results[k].Err? {
        return results[k];
      }
      assert results[k..][1..] == results[k + 1..];
    }
    r := Ok(());
  }

  lemma DispatchStep(fleet: Fleet, cmd: Command, env: Env, k: nat)
    requires k < |fleet|
    ensures |Snapshots(fleet, cmd, env)| == |fleet|
    ensures var now, reply := Dispatched(fleet, cmd, env, k), Answer(fleet[k], cmd, env, k);
            && now[k] == fleet[k]
            && now[k := reply.worker] == Dispatched(fleet, cmd, env, k + 1)
            && Replies(fleet, cmd, env)[..k] + [reply.result] == Replies(fleet, cmd, env)[..k + 1]
            && Snapshots(fleet, cmd, env)[..k] + [now[k := reply.worker]] == Snapshots(fleet, cmd, env)[..k + 1]
  {
  }

  /** One command on all workers: what each makes of it, what is noted for it, and the steps in between. */
  lemma DispatchMeans(fleet: Fleet, cmd: Command, env: Env)
    ensures forall k :: 0 <= k < |fleet| ==>
              var executed := Exec(fleet[k], cmd, Fate(env.builds(cmd.name, k), env.listens(cmd.name, k)));
              && Dispatched(fleet, cmd, env, |fleet|)[k] == (if env.reaches(cmd, k) then executed.worker else fleet[k])
              && Replies(fleet, cmd, env)[k] ==
                 (if env.reaches(cmd, k) && env.answers(cmd, k) then executed.result else Err(Unreachable))
    ensures var after, steps := Dispatched(fleet, cmd, env, |fleet|), Snapshots(fleet, cmd, env);
            && |steps| == |fleet| && (forall k :: 0 <= k < |steps| ==> |steps[k]| == |fleet|)
            && forall k, i :: 0 <= k < |steps| && 0 <= i < |fleet| ==>
                 steps[k][i] == if i <= k then after[i] else fleet[i]
  {
  }

  lemma DispatchEnds(fleet: Fleet, cmd: Command, env: Env)
    ensures Dispatched(fleet, cmd, env, 0) == fleet
    ensures |Snapshots(fleet, cmd, env)| == |fleet|
    ensures Replies(fleet, cmd, env)[..|fleet|] == Replies(fleet, cmd, env)
    ensures Snapshots(fleet, cmd, env)[..|fleet|] == Snapshots(fleet, cmd, env)
  {
  }

  class WorkerManager {
    var workers: seq<ServiceExecutor>
    ghost var trace: seq<Fleet>  // the fleet after each single execution of a command
    ghost var Repr: set<object>

    ghost predicate Valid()
      reads this, Repr
      ensures Valid() ==> this in Repr
    {
      && this in Repr
      && (forall k :: 0 <= k < |workers| ==>
            workers[k] in Repr && workers[k].Repr <= Repr && this !in workers[k].Repr && workers[k].Valid())
      && (forall j, k :: 0 <= j < k < |workers| ==> workers[j].Repr !! workers[k].Repr)
    }

    ghost function State(): (f: Fleet)
      reads this, Repr
      requires Valid()
      ensures |f| == |workers| && forall k :: 0 <= k < |workers| ==> f[k] == workers[k].View()
    {
      Views(workers)
    }

    static ghost function Views(ws: seq<ServiceExecutor>): (f: Fleet)
      reads set k | 0 <= k < |ws| :: ws[k], set k, o | 0 <= k < |ws| && o in ws[k].Repr :: o
      requires forall k :: 0 <= k < |ws| ==> ws[k].Valid()
      ensures |f| == |ws| && forall k :: 0 <= k < |ws| ==> f[k] == ws[k].View()
    {
      if ws == [] then [] else Views(ws[..|ws| - 1]) + [ws[|ws| - 1].View()]
    }

    /** Spawns the workers, each with an executor of its own. */
    constructor (n: nat)
      ensures Valid() && fresh(Repr)
      ensures State() == seq(n, _ => map[])
      ensures trace == []
    {
      hide ServiceExecutor.Valid, ServiceExecutor.View;
      workers, trace, Repr := [], [], {this};
      new;
      for k := 0 to n
        invariant Valid() && fresh(Repr) && |workers| == k && trace == []
        invariant forall j :: 0 <= j < k ==> workers[j].View() == map[]
      {
        var w := new ServiceExecutor();
        workers := workers + [w];
        Repr := Repr + {w} + w.Repr;
      }
    }

    /**
     One worker takes the command from its channel and answers, or one of the two fails.  The error
     stands for the failed `feed` and for the answer that never comes.
     */
    method Deliver(k: nat, cmd: Command, env: Env) returns (r: Result<(), CommandError>)
      requires Valid() && k < |workers|
      modifies Repr
      ensures Valid() && fresh(Repr - old(Repr)) && workers == old(workers)
      ensures r == Answer(old(State())[k], cmd, env, k).result
      ensures State() == old(State())[k := Answer(old(State())[k], cmd, env, k).worker]
      ensures trace == old(trace) + [State()]
    {
      hide ServiceExecutor.Valid, ServiceExecutor.View, Exec, Views;
      r := Err(Unreachable);
      if env.reaches(cmd, k) {
        var answer := workers[k].Execute(cmd, FateAt(env, cmd.name, k));
        Repr := Repr + workers[k].Repr;
        if env.answers(cmd, k) {
          r := answer;
        }
      }
      trace := trace + [State()];
    }

    /** The command goes to one worker after the other, whatever the others answer. */
    method Dispatch(cmd: Command, env: Env) returns (results: seq<Result<(), CommandError>>)
      requires Valid()
      modifies Repr
      ensures Valid() && fresh(Repr - old(Repr)) && workers == old(workers)
      ensures State() == Dispatched(old(State()), cmd, env, |workers|)
      ensures results == Replies(old(State()), cmd, env)
      ensures trace == old(trace) + Snapshots(old(State()), cmd, env)
      ensures |results| == |workers| && |trace| == |old(trace)| + |workers|
      ensures forall k :: 0 <= k < |workers| ==>
                var fate := Fate(env.builds(cmd.name, k), env.listens(cmd.name, k));
                var executed := Exec(old(State())[k], cmd, fate);
                && State()[k] == (if env.reaches(cmd, k) then executed.worker else old(State())[k])
                && results[k] == (if env.reaches(cmd, k) && env.answers(cmd, k) then executed.result
                                  else Err(Unreachable))
      ensures var steps := trace[|old(trace)|..];
              && (forall k :: 0 <= k < |steps| ==> |steps[k]| == |workers|)
              && forall k, i :: 0 <= k < |steps| && 0 <= i < |workers| ==>
                   steps[k][i] == if i <= k then State()[i] else old(State())[i]
    {
      hide Valid, State, Answer, Dispatched, Replies, Snapshots;
      results := [];
      ghost var before := State();
      DispatchEnds(before, cmd, env);
      for k := 0 to |workers|
        invariant Valid() && fresh(Repr - old(Repr)) && workers == old(workers)
        invariant State() == Dispatched(before, cmd, env, k)
        invariant results == Replies(before, cmd, env)[..k]
        invariant trace == old(trace) + Snapshots(before, cmd, env)[..k]
      {
        var r := Deliver(k, cmd, env);
        results := results + [r];
        DispatchStep(before, cmd, env, k);
      }
      assert trace[|old(trace)|..] == Snapshots(before, cmd, env);
      DispatchMeans(before, cmd, env);
    }
  }
}

module Config {
  import opened Wrappers
  import opened Deployment
  import opened Rollout
  import opened Workers

  /** What one turn of the watch loop reports; an `Ended(Crashed(..))` is a panic in the source. */
  datatype Report = Unreadable | Same | Unparsed | Ended(outcome: Outcome)

  /** The stage that began at `first` has k patches behind it, stands at `fleet`, and took these steps. */
  ghost predicate Continues(stage: Stage, first: Fleet, patches: seq<Patch>, env: Env, k: nat, fleet: Fleet,
      steps: seq<Fleet>) {
    k <= |patches| &&
    var rest := RunStage(stage, fleet, patches[k..], env);
    RunStage(stage, first, patches, env) == Progress(rest.fleet, rest.result, steps + rest.trace)
  }

  lemma StageBegins(stage: Stage, first: Fleet, patches: seq<Patch>, env: Env)
    ensures Continues(stage, first, patches, env, 0, first, [])
  {
  }

  lemma StageSkips(stage: Stage, first: Fleet, patches: seq<Patch>, env: Env, k: nat, fleet: Fleet, steps: seq<Fleet>)
    requires k < |patches| && CommandFor(stage, patches[k]).None?
    requires Continues(stage, first, patches, env, k, fleet, steps)
    ensures Continues(stage, first, patches, env, k + 1, fleet, steps)
  {
  }

  lemma StageSends(stage: Stage, first: Fleet, patches: seq<Patch>, env: Env, k: nat, fleet: Fleet, steps: seq<Fleet>)
    requires k < |patches| && CommandFor(stage, patches[k]).Some?
    requires Continues(stage, first, patches, env, k, fleet, steps)
    ensures var cmd := CommandFor(stage, patches[k]).value;
            var after, r := Dispatched(fleet, cmd, env, |fleet|), FirstErr(Replies(fleet, cmd, env));
            if r.Err? && !stage.Aborting?
            then RunStage(stage, first, patches, env) == Progress(after, r, steps + Snapshots(fleet, cmd, env))
            else Continues(stage, first, patches, env, k + 1, after, steps + Snapshots(fleet, cmd, env))
  {
    hide Dispatched, Replies, Snapshots;
    var cmd := CommandFor(stage, patches[k]).value;
    assert patches[k..][1..] == patches[k + 1..];
    var rest := RunStage(stage, Dispatched(fleet, cmd, env, |fleet|), patches[k + 1..], env);
    assert steps + (Snapshots(fleet, cmd, env) + rest.trace) == (steps + Snapshots(fleet, cmd, env)) + rest.trace;
  }

  lemma StageEnds(stage: Stage, first: Fleet, patches: seq<Patch>, env: Env, fleet: Fleet, steps: seq<Fleet>)
    requires Continues(stage, first, patches, env, |patches|, fleet, steps)
    ensures RunStage(stage, first, patches, env) == Progress(fleet, Ok(()), steps)
  {
  }

  class ConfigManager {
    var content: Content
    var online: ConfigMap
    const manager: WorkerManager

    ghost predicate Valid()
      reads this, manager, manager.Repr
    {
      manager.Valid() && this !in manager.Repr
    }

    ghost function State(): System
      reads this, manager, manager.Repr
      requires Valid()
    {
      System(content, online, manager.State())
    }

    constructor (manager: WorkerManager)
      requires manager.Valid()
      ensures Valid() && this.manager == manager
      ensures State() == System(Content([]), map[], manager.State())
    {
      this.manager, content, online := manager, Content([]), map[];
    }

    /** `order` is what iterating over the union of the two key sets yields. */
    method DiffPatches(latest: ConfigMap, order: seq<Name>) returns (patches: seq<Patch>)
      requires Enumerates(order, online.Keys + latest.Keys)
      ensures patches == Diff(online, latest, order)
      ensures forall p :: p in patches ==>
                match p
                case Insert(n, listener, server) =>
                  n !in online && n in latest && latest[n] == ServiceConfig(listener, server)
                case Modify(n, server) => n in online && n in latest && latest[n].server == server
                case Delete(n) => n in online && n !in latest
      ensures forall n :: n in online || n in latest ==> exists p :: p in patches && p.key == n
      ensures forall i, j :: 0 <= i < j < |patches| ==> patches[i].key != patches[j].key
    {
      DiffCovers(online, latest, order);
      patches := [];
      for k := 0 to |order|
        invariant patches == Diff(online, latest, order)[..k]
      {
        var key := order[k];
        var patch;
        if key in online && key in latest {
          patch := Modify(key, latest[key].server);
        } else if key in online {
          patch := Delete(key);
        } else {
          assert key in latest;
          patch := Insert(key, latest[key].listener, latest[key].server);
        }
        patches := patches + [patch];
      }
    }

    /** Broadcasts the command of the k-th patch, as part of a stage, and folds the answers. */
    method Broadcast(cmd: Command, env: Env, ghost stage: Stage, ghost first: Fleet, ghost patches: seq<Patch>,
                     ghost k: nat, ghost done: seq<Fleet>)
      returns (r: Result<(), CommandError>, ghost more: seq<Fleet>)
      requires Valid() && k < |patches| && CommandFor(stage, patches[k]) == Some(cmd)
      requires Continues(stage, first, patches, env, k, manager.State(), done)
      modifies manager.Repr
      ensures Valid() && fresh(manager.Repr - old(manager.Repr)) && manager.workers == old(manager.workers)
      ensures manager.trace == old(manager.trace) + more
      ensures if r.Err? && !stage.Aborting?
              then RunStage(stage, first, patches, env) == Progress(manager.State(), r, done + more)
              else Continues(stage, first, patches, env, k + 1, manager.State(), done + more)
    {
      hide RunStage, Continues, Dispatched, Replies, Snapshots, FirstErr, WorkerManager.Valid, WorkerManager.State;
      StageSends(stage, first, patches, env, k, manager.State(), done);
      more := Snapshots(manager.State(), cmd, env);
      var results := manager.Dispatch(cmd, env);
      r := GroupErr(results);
    }

    /** Precommits every insert and update; the first patch that fails anywhere ends the stage. */
    method Prepare(patches: seq<Patch>, env: Env) returns (r: Result<(), CommandError>, ghost steps: seq<Fleet>)
      requires Valid()
      modifies manager.Repr
      ensures Valid() && fresh(manager.Repr - old(manager.Repr)) && manager.workers == old(manager.workers)
      ensures manager.trace == old(manager.trace) + steps
      ensures Progress(manager.State(), r, steps) == RunStage(Preparing, old(manager.State()), patches, env)
    {
      hide RunStage, Continues, Dispatched, Replies, Snapshots, FirstErr, WorkerManager.Valid, WorkerManager.State;
      ghost var first := manager.State();
      steps := [];
      StageBegins(Preparing, first, patches, env);
      for k := 0 to |patches|
        invariant Valid() && fresh(manager.Repr - old(manager.Repr)) && manager.workers == old(manager.workers)
        invariant manager.trace == old(manager.trace) + steps
        invariant Continues(Preparing, first, patches, env, k, manager.State(), steps)
      {
        ghost var more;
        match patches[k]
        case Insert(key, _, server) =>
          r, more := Broadcast(Precommit(key, server), env, Preparing, first, patches, k, steps);
          steps := steps + more;
          assert manager.trace == old(manager.trace) + steps;
          if r.Err? {
            return;
          }
        case Modify(key, server) =>
          r, more := Broadcast(Precommit(key, server), env, Preparing, first, patches, k, steps);
          steps := steps + more;
          assert manager.trace == old(manager.trace) + steps;
          if r.Err? {
            return;
          }
        case Delete(_) =>
          StageSkips(Preparing, first, patches, env, k, manager.State(), steps);
      }
      StageEnds(Preparing, first, patches, env, manager.State(), steps);
      r := Ok(());
    }

    /** Makes every patch take effect. */
    method CommitAll(patches: seq<Patch>, env: Env) returns (r: Result<(), CommandError>, ghost steps: seq<Fleet>)
      requires Valid()
      modifies manager.Repr
      ensures Valid() && fresh(manager.Repr - old(manager.Repr)) && manager.workers == old(manager.workers)
      ensures manager.trace == old(manager.trace) + steps
      ensures Progress(manager.State(), r, steps) == RunStage(Committing, old(manager.State()), patches, env)
    {
      hide RunStage, Continues, Dispatched, Replies, Snapshots, FirstErr, WorkerManager.Valid, WorkerManager.State;
      ghost var first := manager.State();
      steps := [];
      StageBegins(Committing, first, patches, env);
      for k := 0 to |patches|
        invariant Valid() && fresh(manager.Repr - old(manager.Repr)) && manager.workers == old(manager.workers)
        invariant manager.trace == old(manager.trace) + steps
        invariant Continues(Committing, first, patches, env, k, manager.State(), steps)
      {
        var cmd := match patches[k]
          case Insert(key, listener, _) => Commit(key, listener)
          case Modify(key, _) => Update(key)
          case Delete(key) => Remove(key);
        ghost var more;
        r, more := Broadcast(cmd, env, Committing, first, patches, k, steps);
        steps := steps + more;
        assert manager.trace == old(manager.trace) + steps;
        if r.Err? {
          return;
        }
      }
      StageEnds(Committing, first, patches, env, manager.State(), steps);
      r := Ok(());
    }

    /** Unstages every insert and update; errors of single workers are discarded. */
    method AbortAll(patches: seq<Patch>, env: Env) returns (r: Result<(), CommandError>, ghost steps: seq<Fleet>)
      requires Valid()
      modifies manager.Repr
      ensures Valid() && fresh(manager.Repr - old(manager.Repr)) && manager.workers == old(manager.workers)
      ensures manager.trace == old(manager.trace) + steps
      ensures Progress(manager.State(), r, steps) == RunStage(Stage.Aborting, old(manager.State()), patches, env)
    {
      hide RunStage, Continues, Dispatched, Replies, Snapshots, FirstErr, WorkerManager.Valid, WorkerManager.State;
      ghost var first := manager.State();
      steps := [];
      StageBegins(Stage.Aborting, first, patches, env);
      for k := 0 to |patches|
        invariant Valid() && fresh(manager.Repr - old(manager.Repr)) && manager.workers == old(manager.workers)
        invariant manager.trace == old(manager.trace) + steps
        invariant Continues(Stage.Aborting, first, patches, env, k, manager.State(), steps)
      {
        ghost var more;
        match patches[k]
        case Insert(key, _, _) =>
          r, more := Broadcast(Abort(key), env, Stage.Aborting, first, patches, k, steps);
          steps := steps + more;
          assert manager.trace == old(manager.trace) + steps;
        case Modify(key, _) =>
          r, more := Broadcast(Abort(key), env, Stage.Aborting, first, patches, k, steps);
          steps := steps + more;
          assert manager.trace == old(manager.trace) + steps;
        case Delete(_) =>
          StageSkips(Stage.Aborting, first, patches, env, k, manager.State(), steps);
      }
      StageEnds(Stage.Aborting, first, patches, env, manager.State(), steps);
      r := Ok(());
    }

    /** Both phases.  `Crashed` stands for the panic on a failed commit. */
    method ReloadServices(latest: ConfigMap, order: seq<Name>, env: Env) returns (outcome: Outcome,
        ghost steps: seq<Fleet>)
      requires Valid() && Enumerates(order, online.Keys + latest.Keys)
      modifies manager.Repr
      ensures Valid() && fresh(manager.Repr - old(manager.Repr)) && manager.workers == old(manager.workers)
      ensures manager.trace == old(manager.trace) + steps
      ensures Finish(manager.State(), outcome, steps) == Deploy(old(manager.State()), online, latest, order, env)
    {
      hide RunStage, Diff, WorkerManager.Valid, WorkerManager.State;
      var patches := DiffPatches(latest, order);
      var r, committed;
      ghost var more;
      r, steps := Prepare(patches, env);
      match r {
        case Ok(_) =>
          committed, more := CommitAll(patches, env);
          outcome := if committed.Ok? then Applied else Crashed(committed.error);
        case Err(e) =>
          committed, more := AbortAll(patches, env);
          outcome := Outcome.Aborted(e);
      }
      steps := steps + more;
    }

    /**
     `reload_file`, with what reading the file and parsing it yield, and the environment, as inputs.
     The new content and configuration are remembered only when the reload was applied.
     */
    method ReloadFile(read: Option<Content>, parsed: Option<ConfigMap>, order: seq<Name>, env: Env)
      returns (report: Report)
      requires Valid() && Possible(State(), Reload(read, parsed, order, env))
      modifies this, manager.Repr
      ensures Valid() && fresh(manager.Repr - old(manager.Repr)) && manager.workers == old(manager.workers)
      ensures report.Ended? <==> read.Some? && read.value != old(content) && parsed.Some?
      ensures !report.Ended? ==> State() == old(State()) && manager.trace == old(manager.trace)
      ensures report.Ended? ==>
                var f := Deploy(old(manager.State()), old(online), parsed.value, order, env);
                && report.outcome == f.outcome && manager.State() == f.fleet
                && manager.trace == old(manager.trace) + f.trace
      ensures if report == Ended(Applied) then content == read.value && online == parsed.value
              else content == old(content) && online == old(online)
      ensures (report == Unreadable) == read.None?
      ensures (report == Same) == (read == Some(old(content)))
      ensures (report == Unparsed) == (read.Some? && read.value != old(content) && parsed.None?)
      ensures report.Ended? ==> report.outcome == Attempt(old(State()), Reload(read, parsed, order, env)).outcome
      ensures State() == Next(old(State()), Reload(read, parsed, order, env))
      ensures manager.trace == old(manager.trace) + StepsOf(old(State()), Reload(read, parsed, order, env))
    {
      hide Deploy, Enumerates, WorkerManager.Valid, WorkerManager.State;
      if read.None? {
        return Unreadable;
      }
      var latest := read.value;
      if content == latest {
        return Same;
      }
      if parsed.None? {
        return Unparsed;
      }
      var outcome, _ := ReloadServices(parsed.value, order, env);
      report := Ended(outcome);
      if outcome.Applied? {
        content := latest;
        online := parsed.value;
      }
    }

    /**
     The watch loop over a finite stretch of reloads, starting from new workers.  What it leaves
     in the objects is the state that `Rollout.RunsAgree` speaks about, and it passes through the
     moments that `Rollout.SitesStayServed` speaks about.
     */
    method Watch(history: seq<Reload>)
      requires Valid() && State() == After(|manager.workers|, [])
      requires Runs(|manager.workers|, history)
      modifies this, manager.Repr
      ensures Valid()
      ensures |manager.workers| == old(|manager.workers|)
      ensures State() == After(|manager.workers|, history)
      ensures manager.trace == old(manager.trace) + Moments(|manager.workers|, history)
    {
      hide After, Next, StepsOf, Deploy, Enumerates, WorkerManager.Valid, WorkerManager.State, ConfigManager.State;
      ghost var n := |manager.workers|;
      assert history[..0] == [];
      for k := 0 to |history|
        invariant Valid() && fresh(manager.Repr - old(manager.Repr)) && manager.workers == old(manager.workers)
        invariant Runs(n, history[..k]) && State() == After(n, history[..k])
        invariant manager.trace == old(manager.trace) + Moments(n, history[..k])
      {
        RunsExtend(n, history, k);
        var r := history[k];
        var _ := ReloadFile(r.content, r.parsed, r.order, r.env);
      }
      assert history[..|history|] == history;
    }
  }

  lemma {:induction false} RunsPrefix(workers: nat, h: seq<Reload>, k: nat)
    requires Runs(workers, h) && k <= |h|
    ensures Runs(workers, h[..k])
  {
    if k == |h| {
      assert h[..k] == h;
    } else {
      RunsPrefix(workers, h[..|h| - 1], k);
      assert h[..|h| - 1][..k] == h[..k];
    }
  }

  lemma RunsExtend(workers: nat, h: seq<Reload>, k: nat)
    requires Runs(workers, h) && k < |h|
    ensures Runs(workers, h[..k]) && Runs(workers, h[..k + 1])
    ensures Possible(After(workers, h[..k]), h[k])
    ensures After(workers, h[..k + 1]) == Next(After(workers, h[..k]), h[k])
    ensures Moments(workers, h[..k + 1]) == Moments(workers, h[..k]) + StepsOf(After(workers, h[..k]), h[k])
  {
    RunsPrefix(workers, h, k);
    RunsPrefix(workers, h, k + 1);
    assert h[..k + 1][..k] == h[..k];
  }
}
