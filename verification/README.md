# Monolake: configuration rollout, cancellation, stream sniffing and HTTP/1 connections

A Dafny 4.11 model of four parts of monolake, with proofs about all inputs and all runs.

* **Rollout** (`ServiceExecutor.dfy`, `Rollout.dfy`, `ConfigManager.dfy`). The configuration manager
  diffs two configurations, precommits every insert and update on every worker, then commits or
  aborts. `Executor.ServiceExecutor` is one worker with its sites, shared slots, stop channels and
  serve loops; `Workers.WorkerManager` broadcasts commands; `Config.ConfigManager` drives the phases.
  `Deployment` and `Rollout` say on values what these classes do, down to every intermediate state of
  the fleet, and carry the theorems over whole runs of reloads.
* **Cancellation** (`LinkedList.dfy`, `Cancel.dfy`). The Vec-backed linked list with its free list, and
  the registry of wakers built on it. `SlabSpec` and `CancelSpec` are the reference machines;
  `SlabList` and `CancelRegistry` are the code, proved against them.
* **Sniffers** (`Sniffers.dfy`, `ProxyProtocol.dfy`). The prefix detector used for the HTTP/2 preface and
  the PROXY header reader, over streams whose reads deliver arbitrary chunks.
* **HTTP/1** (`Accompany.dfy`, `Http.dfy`). The accompanying future pair, the connection-reuse handler,
  and the connection loop that composes them.

## How the model stands to the code

* `usize` is 64 bits wide; `NULL` is its largest value. Handles are unbounded naturals otherwise, because
  the code never computes with them.
* An `Rc<UnsafeCell<..>>` that is shared becomes a heap object: a `ServiceSlot` is shared by a container and
  its serve loop, a `CancelHandler` by cancellers and waiters. A `Weak` that can be upgraded is a handler
  whose `strong` count is positive.
* Factories, the parser of configuration files, the PROXY header parser, the inner HTTP handler, and the
  iteration order of a `HashSet` are parameters. `Rollout.Env` says which factories succeed, per site and worker,
  which commands are executed by which worker, and which answers come back; the dispatcher notes `Unreachable`
  for the others. This allows more than the code does: a worker may miss one command and execute the next, or
  lose the answer to one it executed, while in the code a command fails to arrive only at a worker whose control
  loop has ended. The theorems hold for all such environments; `Rollout.LivingWorkersAreClean` is about those in
  which a worker that is gone stays gone.
* A registry's waiters carry a ghost number, by which the abstract registry speaks of them.
* Each worker executes one `ServiceCommand` as one step, as its control loop does.
* A panic, or a loop that can never end, is an outcome of its own: `Crashed` for the failed commit stage,
  `Panicked` and `Stalled` in the PROXY reader.

Where comments and code disagree the model follows the code. The comment on `deploy_staged_service` asks for
an empty slot, but the code overwrites a committed container and so stops its old loop. The documentation of
`ResponseWithContinue` says that the core service adds `Connection: close`; it is the connection-reuse handler
that does.

## Results that are false of the code

* Reading a PROXY header is not independent of how the stream is chunked. `ProxySpec.CapExample` exhibits a
  version 1 header that is accepted in one chunk and rejected in two; `ProxySpec.ChunksMatterExactly` gives the
  exact condition on the stream, its first 230 bytes, and `ProxySpec.RejectedExactly` the exact condition on the
  chunks.
* A read of a PROXY header does not always end. `ProxySpec.StallsExactly` gives the exact condition: the stream
  ends below 230 bytes, agrees with a magic, and does not parse. `ProxySpec.StallExample` is such a stream, and
  `ProxySpec.EmptyReadsRecur` shows that every further turn of the loop then leads back to the same buffer and
  position. `ProxySpec.PanicsExactly`: the empty stream, and no other, makes the reader index an empty buffer.
* The persistence decision is not always that of section 9.3 of RFC 9112. A connection is kept open that the RFC
  requires to be closed exactly as `ConnectionReuse.KeptOpenExactly` says: a close option is there, but it is not
  the whole first value (HTTP/1.1) or the first value is keep-alive (HTTP/1.0). `ConnectionReuse.CloseInListIgnored`
  and `ConnectionReuse.KeptOpenDespiteClose` are the counterexamples. For HTTP/1.0 the handler also declines some
  requests to persist, as the RFC lets it (`ConnectionReuse.ClosedDespiteKeepAlive`);
  `ConnectionReuse.DiffersFromRfcExactly` covers both.
* An aborted reload is not always without trace: an empty container stays where the precommit of an insert
  succeeded. `Rollout.ResidueExample` is such a run, `Rollout.AbortKeepsExactly` the exact condition under which an
  aborted reload leaves a container as it was, and `Rollout.ResidueCause` the one over whole runs.
* A waiter that was told to wait is not always woken when it becomes ready: `CancelSpec.UnwokenExactly` says that
  this happens exactly when the last canceller has been dropped and nobody has cancelled.
  `CancelSpec.UnwokenExample` is such a history.

## Model

| member | source | states |
|---|---|---|
| Rollout.RunsAgree | monolake/src/config/manager.rs:62-95 | after every run of reloads without a commit panic the container of every name on every worker is known exactly from the history: the committed service is the fold of the effective configurations since its last insertion, the same on all workers and built from the online configuration; it listens where the configuration that inserted it says, whatever later ones say; an empty container or a staged service is there only as `Contained` and `Leftover` say; the online configuration is the last effective one |
| Rollout.NextMeans | monolake/src/config/manager.rs:62-76 | a file that cannot be read, has not changed or does not parse changes nothing and takes no step; any other is deployed against what is online, and remembered exactly if that is applied |
| Rollout.IdleTurn | monolake/src/config/manager.rs:207-217 | a turn that finds the file as it was leaves state and steps of a run as they were |
| Rollout.RunsInSync | monolake/src/config/manager.rs:62-95 | between reloads the committed names of every worker are the online names |
| Rollout.NothingLeftOver | monolake/src/config/manager.rs:191-205 | a worker that every abort reaches has nothing staged between reloads, whatever failed before |
| Rollout.LivingWorkersAreClean | monolake-core/src/orchestrator/worker_manager.rs:225-244 | if a worker once unreachable stays unreachable, one that any command of a reload reaches had nothing staged when that reload began |
| Rollout.ResidueCause | monolake/src/config/manager.rs:133-205 | a name that is not online has a container on a worker exactly when some aborted reload precommitted it on that worker and no reload with a patch for it took effect since |
| Rollout.ResidueExample | monolake/src/config/manager.rs:191-205 | a reload whose factory fails on the second of two workers leaves an empty container on the first |
| Rollout.NextSite | monolake/src/config/manager.rs:78-95 | one reload leaves each container exactly rebuilt, removed, untouched, or staged and unstaged again, decided by whether all precommits succeed |
| Rollout.AppliedSite | monolake/src/config/manager.rs:158-189 | an applied reload leaves each site exactly rebuilt from its old committed service, removed, or untouched; an inserted site listens with the configured listener, an updated one with the listener it had |
| Rollout.AbortedSite | monolake/src/config/manager.rs:191-205 | rollback: after a failed prepare stage and the abort stage every committed service is the old one, and nothing is staged wherever the abort arrived |
| Rollout.AbortedExactly | monolake/src/config/manager.rs:191-205 | the whole container after an aborted reload: staged if the stage got to the site and its precommit succeeded, then unstaged if the abort arrived |
| Rollout.AbortKeepsExactly | monolake/src/config/manager.rs:191-205 | if and only if: an aborted reload leaves a container as it was, decided by what was staged before, whether the precommit was executed, and whether the abort arrived |
| Rollout.PrepareExactly | monolake/src/config/manager.rs:133-156 | the whole container after a prepare stage that may stop part way, read off factories, channels and the patch order |
| Rollout.PrepareStops | monolake/src/config/manager.rs:133-156 | a precommit that is not executed, answered or built on some worker keeps every later patch from being staged anywhere |
| Rollout.OutcomeDecided | monolake/src/config/manager.rs:78-95 | a reload aborts exactly when some precommit is not built or not heard of; once prepared only the listener of an inserted site or a channel can fail the commit; the error is that of a command which fails for this reason |
| Rollout.PrepareDecided | monolake/src/config/manager.rs:133-156 | the prepare stage succeeds exactly when every precommit is built on every worker and answered, and otherwise reports the error of one that is not |
| Rollout.CommitDecided | monolake/src/config/manager.rs:158-189 | after a successful prepare stage no command returns a missing-site, missing-preparation or missing-handler error; the stage succeeds exactly when every command is executed and answered and every inserted listener is built |
| Rollout.PreparedSite | monolake/src/config/manager.rs:133-156 | after prepare the new service is staged, built from the committed one, and the committed one is untouched |
| Rollout.OrderIrrelevant | monolake/src/config/manager.rs:97-131 | any two orders of the patches apply, abort or crash alike, with the same outcome if every command is executed and answered, and when applied leave the same sites on every worker |
| Rollout.DiffCovers | monolake/src/config/manager.rs:97-131 | exactly one patch per key of either configuration, of the kind the two configurations ask for, with the listener and server configuration of the new one |
| Rollout.AlwaysServed | monolake-core/src/orchestrator/worker_manager.rs:225-244 | at every intermediate step a site that stays online is served on every worker: by the new version on a prefix of the workers, less those the update did not reach, and by the old one on the rest; the prefix never shrinks, and is empty before the commit stage and when aborting |
| Rollout.SitesStayServed | monolake/src/config/manager.rs:207-217 | over every run, a site that is online before and after every reload from the k-th on is served by every worker at every step of all of them, whatever aborts in between |
| Rollout.AbortCommitsNothing | monolake/src/config/manager.rs:191-205 | at no step of an aborted reload does any worker serve a site in another version |
| Rollout.StagePrefix | monolake-core/src/orchestrator/worker_manager.rs:225-244 | at every step of a stage the workers that have executed a patch's command are a prefix, and the prefix only grows |
| Rollout.StageTouches | monolake/src/config/manager.rs:133-205 | a stage has executed the command of a site's patch exactly when it got to that patch, which is when all earlier patches succeeded on every worker or the stage is the abort; otherwise the site is untouched |
| Rollout.StageStops | monolake/src/config/manager.rs:133-205 | a failing command keeps a stage from every later patch, but the abort stage runs to its end |
| Rollout.StageLeaves | monolake/src/config/manager.rs:133-205 | a stage leaves every site alone that no patch names |
| Rollout.StageFails | monolake/src/config/manager.rs:133-189 | the error of a failed stage is what some patch's command returned on some worker |
| Rollout.FirstErrMeans | monolake-core/src/orchestrator/mod.rs:74-81 | a result group is Ok exactly when all results are, and otherwise its first error |
| Workers.GroupErr | monolake-core/src/orchestrator/mod.rs:74-81 | the loop with early return computes the first error |
| Workers.WorkerManager.constructor | monolake-core/src/orchestrator/worker_manager.rs:155-204 | spawned workers start without sites |
| Workers.WorkerManager.Dispatch | monolake-core/src/orchestrator/worker_manager.rs:225-244 | the command goes to every worker in turn whatever the others answer; a failed feed, or an answer lost before or after the command was executed, becomes an error in its place; results, final sites and every snapshot in between |
| Config.ConfigManager.DiffPatches | monolake/src/config/manager.rs:97-131 | the loop over the key union yields the patches of `Rollout.Diff`: distinct, for every key, inserting and updating with what the new configuration holds |
| Config.ConfigManager.Prepare | monolake/src/config/manager.rs:133-156 | the loop stops at the first patch that fails anywhere; its state, result and every step are those of the prepare stage |
| Config.ConfigManager.CommitAll | monolake/src/config/manager.rs:158-189 | likewise for the commit stage |
| Config.ConfigManager.AbortAll | monolake/src/config/manager.rs:191-205 | likewise for the abort stage, which never stops on an error |
| Config.ConfigManager.ReloadServices | monolake/src/config/manager.rs:78-95 | prepare, then commit or abort, with all intermediate states |
| Config.ConfigManager.ReloadFile | monolake/src/config/manager.rs:62-76 | unreadable, unchanged and unparsable files change nothing and take no step, each reported as such; any other runs the deployment, and content and configuration are replaced only if that is applied |
| Config.ConfigManager.Watch | monolake/src/config/manager.rs:207-217 | a stretch of the watch loop leaves in the objects the state that the run theorems speak about, and passes through the steps they speak about |
| Executor.ServiceExecutor.OneLoopPerSite | monolake-core/src/orchestrator/service_executor.rs:205-241 | a committed site has exactly one serve loop not notified to stop, and that loop's slot holds the committed service; other sites have none |
| Executor.ServiceExecutor.Execute | monolake-core/src/orchestrator/service_executor.rs:444-488 | each command's effect and error; updating keeps the site's loop, redeploying replaces it, removing leaves none; accepted connections never change |
| Deployment.ExecMeans | monolake-core/src/orchestrator/service_executor.rs:122-188 | for every command, when it succeeds, which error it returns otherwise, and what is then committed, staged and listening; a failing command changes nothing, and none touches another site |
| Executor.ServiceExecutor.Run | monolake-core/src/orchestrator/service_executor.rs:508-520 | a queue of commands is executed in order, each answered with its own result |
| Executor.ServiceExecutor.Live | monolake-core/src/orchestrator/mod.rs:95-137 | every history of commands and loop rounds played on a new worker leaves in the objects the life that the lemmas on histories speak of: sites, owners, and each loop's connections, end and slot |
| Executor.AcceptedGets | monolake-core/src/orchestrator/mod.rs:95-137 | over every history, an accept of a loop that had not ended before it yields a connection with the service then in the slot, which is the committed one if the loop owns a site, and the connection has it in the end |
| Executor.ConnectionsWereAccepted | monolake-core/src/orchestrator/mod.rs:95-137 | every connection stems from exactly such an accept |
| Executor.NotifiedKeepsService | monolake-core/src/orchestrator/service_executor.rs:131-178 | a loop that was notified never owns a site again, and its slot keeps the last service put into it |
| Executor.NotifiedExactly | monolake-core/src/orchestrator/service_executor.rs:151-178 | the loop that owns a site is notified exactly by the removal of the site or its next deployment |
| Executor.RoundsEnd | monolake-core/src/orchestrator/mod.rs:104-134 | a round ends its loop exactly if the listener is closed or a notified loop sees the stop, and touches no other loop |
| Executor.AlwaysSound | monolake-core/src/orchestrator/service_executor.rs:205-241 | over every history each committed site has an owner of its own whose slot holds the committed service and whose listener is the one the site was deployed with |
| Executor.ServiceExecutor.GetSvc | monolake-core/src/orchestrator/service_executor.rs:116-119 | the committed service of a site, if any |
| Executor.ServiceExecutor.PrecommitSvc | monolake-core/src/orchestrator/service_executor.rs:122-129 | stages a service, creating the container if needed, and keeps what is committed |
| Executor.ServiceExecutor.UpdateWithPrecommittedSvc | monolake-core/src/orchestrator/service_executor.rs:131-148 | moves the staged service into the shared slot, or reports which part is missing and changes nothing |
| Executor.ServiceExecutor.DeployAndServe | monolake-core/src/orchestrator/service_executor.rs:151-168 | a new slot, stop channel and loop for the staged service; the previous loop is notified |
| Executor.ServiceExecutor.RemoveSite | monolake-core/src/orchestrator/service_executor.rs:171-178 | removes committed and staged service and notifies the loop |
| Executor.ServiceExecutor.AbortSite | monolake-core/src/orchestrator/service_executor.rs:180-188 | clears the staged service and nothing else |
| Executor.ServiceExecutor.Serve | monolake-core/src/orchestrator/mod.rs:95-137 | an accepted connection gets the service in the slot at that moment, which is the committed one unless the loop was notified; earlier connections keep theirs |
| Executor.ServeLoop.Turn | monolake-core/src/orchestrator/mod.rs:104-134 | one round of the accept loop, ending on the stop signal or a closed listener |
| SlabSpec.TraversalIsInsertionOrder | monolake-services/src/common/cancel/linked_list.rs:41-97 | over every history the list holds exactly the pushes whose handle was not removed later, in push order, each with its handle and the value written last |
| SlabSpec.SizeIsPeak | monolake-services/src/common/cancel/linked_list.rs:41-97 | over every history the vector is as long as the largest number of values ever live at once |
| SlabSpec.RunPartition | monolake-services/src/common/cancel/linked_list.rs:41-97 | live and vacant handles partition the allocated range without repetition |
| SlabList.LinkedList.PushBack | monolake-services/src/common/cancel/linked_list.rs:41-70 | appends under the last vacated handle, or a new one if none is vacant; needs the invariant that an empty list's first vacancy has no stale `prev` |
| SlabList.LinkedList.Remove | monolake-services/src/common/cancel/linked_list.rs:72-97 | takes out exactly the named entry and returns its value; vacant and out-of-range handles change nothing |
| SlabList.LinkedList.Get | monolake-services/src/common/cancel/linked_list.rs:33-35 | the value under a live handle, nothing under any other |
| SlabList.LinkedList.Write | monolake-services/src/common/cancel/linked_list.rs:37-39 | replaces the value under a live handle and nothing else |
| SlabList.LinkedList.ViewIsPartition | monolake-services/src/common/cancel/linked_list.rs:9-13 | in every reachable node vector occupied and vacant nodes form two disjoint acyclic chains that cover it |
| SlabList.LinkedList.IntoIter | monolake-services/src/common/cancel/linked_list.rs:117-121 | the iterator will yield all live values in order |
| SlabList.LinkedListIter.Next | monolake-services/src/common/cancel/linked_list.rs:131-140 | yields the next live value, and None only when none remains |
| SlabList.LinkedListIter.Drop | monolake-services/src/common/cancel/linked_list.rs:143-154 | destroys exactly the values not yielded |
| SlabList.LinkedList.Drop | monolake-services/src/common/cancel/linked_list.rs:100-111 | destroys every live value once |
| SlabList.Replay | monolake-services/src/common/cancel/linked_list.rs:33-97 | every history played on the code ends in the state, and gives the answers, that the theorems about histories speak of |
| SlabList.TakeAll | monolake-services/src/common/cancel/linked_list.rs:103-109 | the destructor loop terminates, takes the chain's values in order, and leaves no value behind |
| CancelSpec.FirstCancelWakes | monolake-services/src/common/cancel/mod.rs:46-56 | in every legal history the wake-ups are exactly: each waiter polled and not dropped before the first cancel, once, in order of first poll, with its latest waker; later cancels wake nobody and cancellation is final |
| CancelSpec.WaiterWoken | monolake-services/src/common/cancel/mod.rs:46-56 | over every legal history with a cancel a waiter is woken at most once, and exactly if it had polled and still existed at the first cancel |
| CancelSpec.WaitingIsDescribed | monolake-services/src/common/cancel/mod.rs:93-132 | before a cancel the registrations are the waiters that polled and still exist, by first poll, with their latest wakers |
| CancelSpec.NotYetCancelled | monolake-services/src/common/cancel/mod.rs:46-56 | nobody is woken in a history without a cancel |
| CancelSpec.MembersAreAlive | monolake-services/src/common/cancel/mod.rs:71-83 | waiters that exist were created and never dropped |
| CancelSpec.UnwokenExactly | monolake-services/src/common/cancel/mod.rs:93-120 | a waiter that was told to wait becomes ready without ever being woken if and only if nobody has cancelled and the last canceller is gone |
| CancelSpec.UnwokenExample | monolake-services/src/common/cancel/mod.rs:93-120 | one waiter polls and the only canceller is dropped: it is ready and its waker is lost |
| CancelRegistry.Replay | monolake-services/src/common/cancel/mod.rs:46-132 | every legal history played on the code ends in the registry that the theorems about histories speak of, and calls exactly the waker of each recorded wake-up, in order |
| CancelRegistry.CancelHandler.constructor | monolake-services/src/common/cancel/mod.rs:30-37 | a new registry has one canceller, no waiters, and is not cancelled |
| CancelRegistry.CancelHandler.Cancel | monolake-services/src/common/cancel/mod.rs:46-56 | the first cancel calls the waker of every registration, one by one and in order, and empties the list; later ones call none |
| CancelRegistry.WakeAll | monolake-services/src/common/cancel/mod.rs:51-54 | the loop wakes every waker of the list once, in list order |
| CancelRegistry.CancelHandler.NewWaiter | monolake-services/src/common/cancel/mod.rs:39-44 | a new unregistered waiter |
| CancelRegistry.CancelHandler.DropCanceller | monolake-services/src/common/cancel/mod.rs:12-20 | the last canceller takes the list with it and wakes nobody |
| CancelRegistry.CancelHandler.Locate | monolake-services/src/common/cancel/mod.rs:108-117 | the index of a registered waiter names its own live list entry |
| CancelRegistry.DropGuard | monolake-services/src/common/cancel/mod.rs:63-69 | dropping the guard cancels, calling the waker of every registration in order, and releases its canceller |
| CancelRegistry.Waiter.Clone | monolake-services/src/common/cancel/mod.rs:76-83 | the clone is unregistered |
| CancelRegistry.Waiter.Cancelled | monolake-services/src/common/cancel/mod.rs:86-90 | true when cancelled or when no canceller is left |
| CancelRegistry.Waiter.Poll | monolake-services/src/common/cancel/mod.rs:96-119 | registers once, afterwards replaces the waker in place; the unwrap cannot fail |
| CancelRegistry.Waiter.Drop | monolake-services/src/common/cancel/mod.rs:122-133 | removes only the waiter's own registration |
| PrefixDetection.Detect | monolake-services/src/common/detect.rs:90-117 | for every chunking: true exactly when the stream begins with the prefix, the bytes handed on replay the stream, no more than the prefix is taken, and the loop ends |
| PrefixDetection.DetectHttp2 | monolake-services/src/http/detect.rs:50-82 | the same for the 24-byte preface of section 3.4 of RFC 9113, stated as text |
| ProxySpec.VerdictOfStream | monolake-services/src/proxy_protocol/mod.rs:78-182 | for every chunking the verdict is the one the stream deserves, except for rejections at the cap of streams of at least 230 bytes |
| ProxySpec.EveryStream | monolake-services/src/proxy_protocol/mod.rs:78-182 | unless rejected at the cap, a stream with a header is handed on with its source from the end of the header on, and one that departs from both signatures or is malformed is handed on unchanged |
| ProxySpec.Signatures | monolake-services/src/proxy_protocol/mod.rs:48-54 | the two signatures are those of the published protocol, as text |
| ProxySpec.AgreesMeans | monolake-services/src/proxy_protocol/mod.rs:88-110 | a buffer passes the comparison with the magic exactly if it is a prefix of a signature or extends one |
| ProxySpec.ChunksMatterExactly | monolake-services/src/proxy_protocol/mod.rs:112-145 | two chunkings of a stream can end differently exactly when it reaches the cap, agrees with a magic, is undecided at its first byte and decided at 230 bytes |
| ProxySpec.RejectedExactly | monolake-services/src/proxy_protocol/mod.rs:112-145 | the cuts that are rejected: a read ends at 230 bytes with everything agreeing, and the parser had not decided before it |
| ProxySpec.StallsExactly | monolake-services/src/proxy_protocol/mod.rs:112-145 | the reader stays in its loop for ever exactly on streams that end below 230 bytes, agree with a magic and do not parse |
| ProxySpec.PanicsExactly | monolake-services/src/proxy_protocol/mod.rs:78-93 | exactly the empty stream makes the reader index an empty buffer |
| ProxySpec.StallExample | monolake-services/src/proxy_protocol/mod.rs:112-145 | the first nine bytes of a header stall the reader, however they arrive |
| ProxySpec.EmptyReadsRecur | monolake-services/src/proxy_protocol/mod.rs:112-145 | with an undecided buffer below the cap, any number of empty reads leads back to the same buffer and position |
| ProxySpec.LoopTakesTurns | monolake-services/src/proxy_protocol/mod.rs:112-145 | the replay of a connection takes exactly the turns of the loop |
| ProxySpec.CapExample | monolake-services/src/proxy_protocol/mod.rs:141-144 | a PROXY UNKNOWN header that is accepted when it comes in one chunk and rejected when it comes in two |
| ProxySpec.LoopVerdict | monolake-services/src/proxy_protocol/mod.rs:112-145 | the same from any turn of the loop on |
| ProxyReader.Call | monolake-services/src/proxy_protocol/mod.rs:78-182 | the code follows the replay of its reads, loses and duplicates no byte, stays within 230 bytes and 230 reads that deliver anything, and reads on only while the bytes agree with the magic and do not parse; it is reported as stalled only after as many idle turns as the caller asks for |
| ProxyReader.CompareMagic | monolake-services/src/proxy_protocol/mod.rs:90-110 | comparing only the new bytes decides whether everything read agrees with the magic |
| Accompanying.AccompanyPair.Poll | monolake-services/src/http/util.rs:40-48 | polls both futures, the accompanying one exactly until it has completed; the pair is ready exactly when its main future is |
| Accompanying.AccompanyPair.Replace | monolake-services/src/http/util.rs:75-81 | the accompanying future and its result carry over to the new main future |
| Accompanying.AccompanyPair.IntoAccompany | monolake-services/src/http/util.rs:83-88 | what remains delivers the accompanying result |
| Accompanying.AccompanyPair.Await | monolake-services/src/http/core.rs:178-214 | awaiting delivers the main result, or times out when the deadline comes first; the accompanying future advances by as many polls, or completes |
| Accompanying.Accompany.Poll | monolake-services/src/http/util.rs:57-63 | the accompanying result is handed out exactly once, and its future is not polled after completion |
| Accompanying.Accompany.Await | monolake-services/src/http/core.rs:219-222 | awaiting the rest ends with the accompanying result |
| ConnectionReuse.Call | monolake-services/src/http/handlers/connection_persistence.rs:103-164 | the inner handler is given the request as HTTP/1.1 without its Connection header and otherwise unchanged; the connection goes on exactly when handler and client want it, and exactly then a client that follows the RFC reads off the response that it does; nothing else of the response is touched |
| ConnectionReuse.SingleTokenFollowsRfc | monolake-services/src/http/handlers/connection_persistence.rs:199-214 | on single-token Connection values the decision is that of section 9.3 of RFC 9112 |
| ConnectionReuse.InAnyCase | monolake-services/src/http/handlers/connection_persistence.rs:199-214 | close and keep-alive are recognised letter by letter in either case, and nothing else is |
| ConnectionReuse.DiffersFromRfcExactly | monolake-services/src/http/handlers/connection_persistence.rs:199-214 | for HTTP/1.1 it differs exactly when a close option is present but is not the whole first value; for HTTP/1.0 exactly when the first value is keep-alive and a close option is present, or it is not and there is a keep-alive option but no close option |
| ConnectionReuse.KeptOpenExactly | monolake-services/src/http/handlers/connection_persistence.rs:199-214 | the exact headers with which a connection is kept open that the RFC requires to be closed, for HTTP/1.1 and 1.0; the opposite never happens for HTTP/1.1 |
| ConnectionReuse.CloseInListIgnored | monolake-services/src/http/handlers/connection_persistence.rs:199-214 | a concrete header list whose close option is ignored |
| ConnectionReuse.KeptOpenDespiteClose | monolake-services/src/http/handlers/connection_persistence.rs:199-214 | an HTTP/1.0 connection kept open against a close option |
| ConnectionReuse.ClosedDespiteKeepAlive | monolake-services/src/http/handlers/connection_persistence.rs:199-214 | an HTTP/1.0 request to persist that is declined, as the RFC allows |
| HttpCore.Serve | monolake-services/src/http/core.rs:137-239 | for a handler that may answer the same request differently each time: responses answer requests one for one in order; another request is decoded only after a written response that announced persistence and a drained body; a response carrying close is the last, and so is the error page of status 500, which carries it |
| HttpCore.Exchange | monolake-services/src/http/core.rs:176-238 | what one turn answers, writes and drains, that a failed handler is answered with status 500 and close, and that the turn goes on exactly when it may |

## Left out

- SlabList.LinkedList.PushBack: requires room below `usize::MAX` nodes when no vacancy is left, which `Vec` guarantees by failing earlier.
- CancelRegistry.Waiter.Poll: makes the same assumption about the length of the list.
- ProxyReader.Call: takes the header parser as a parameter that accepts only buffers beginning with a magic and never changes a decision when more bytes follow; the `proxy_protocol` crate is not part of this model.
- Accompanying.AccompanyPair.Await: futures complete after some finite number of polls; a future that never completes and has no deadline is not modelled.
- Config.ConfigManager.ReloadServices: ends with `Crashed` where the source panics; nothing is claimed about the state of the workers after that.
- What happens to the connections of a worker whose thread has ended; its sites are kept in the model as they last were.
- Executor.ServiceExecutor.DeployAndServe: combines deploying with spawning the serve loop, as both callers in the source do.
- `HttpCore.Serve` has one reuse handler directly under the core service; other handlers in between are part of the inner handler only.
- Waking a task is recorded, not run; a waker that re-enters the registry is not modelled.
- The first reload of `load_and_watch`, whose failure ends the process, is treated like every other reload.
- `FixedLengthDetector`, HTTP/2 connections, TLS, routing, content encoding, OpenID, upstream connectors, timeouts other than the body deadline, and configuration parsing.
- Real I/O, threads, CPU binding, logging and the memory safety of `UnsafeCell`.
