# A verified model of the cleaner controller

This Dafny project models the parts of k8s-cleaner where state, time and data
transformation meet, and proves what they guarantee:

* the executor's request queue (`Executor*.dfy`), as a step relation over the four
  collections of `Manager` and the workers that hold a key between take and store. Each
  critical section is one atomic event, the number of workers is arbitrary, and a run is
  any sequence of events, `RemoveEntries` among them unless a row below says otherwise.
  Everything is stated for the code as written; where it departs from its design comment,
  the exact condition under which it keeps the comment's promise is proved, for it and for
  the variant `KeepDirty`, in which `storeResult` leaves a re-queued key in `dirty`;
* the same `Manager` with its Go slices over backing arrays and the workers' pointers into
  them (`Manager.dfy`). Every method refines one event of the step relation exactly;
* cron scheduling (`Cron.dfy`, `Scheduler.dfy`, `SchedulerCoverage.dfy`): the loop of
  `getNextScheduleTime`, and unbounded runs of reconciles with three clock readings each.
  `Reconciler.dfy` is the reconciler's object, writing its status fields and calling the
  manager; `Service.dfy` composes scheduling with the queue, from an activation of the
  schedule to a run of the cleaner, and from the end of a run to the failure message;
* the Go/Lua value conversions (`LuaValues.dfy`, `LuaTables.dfy`), the label selector printer
  (`LabelFilters.dfy`), namespace-restricted fetching (`Fetch.dfy`) and the delete action
  (`Deletion.dfy`).

`Slices.dfy` holds the list operations on values, and `Prelude.dfy` and `Resources.dfy` the
types that several modules share. `dafny verify dfyconfig.toml` checks everything.

## What the code does not keep

* **Exclusion.** The comment at `internal/controller/executor/worker.go:61-63` says a request
  is never processed more than once in parallel. `storeResult` removes a re-queued key from
  `dirty` (line 735), so the next `Process` queues a second copy. `ExclusionFails`: any pool
  of n workers can end up with all of them running one key, after 5n - 3 events.
  `ExclusiveIffGuarded`: a run keeps a key exclusive under every schedule of its workers
  exactly when no event of it duplicates the key, that is, a `Process` of the key while a copy
  is queued or running but the key is neither in `dirty` nor in `inProgress`, or a
  `RemoveEntries` of another queued key while the key is last in the queue.
  `FreshIffGuarded`: the same condition decides whether a result can be handed out while a
  request is still outstanding. Not removing the key in `storeResult` repairs every run
  without `RemoveEntries` (`KeepDirtyIsGuarded`). It does not repair the others: deleting a
  cleaner while it runs and creating it again makes two workers run it
  (`RemovalBreaksExclusion`). `KeepDirtyExclusiveIff` says exactly which removals still do.
* **RemoveEntries** discards the slices that `removeFromSlice` returns
  (`internal/controller/executor/client.go:216-235`), so lists keep their length. Besides
  breaking the exclusion it can lose requests in two ways, and in no other
  (`OnlyTwoLosses`):
  * another key starves. It stays listed in `inProgress` with nobody running it, is not run
    again and is always answered `InProgress` (`RemovalStarvesAnother`). `RemovalStarvesIff`:
    exactly when the removed key is in `inProgress` and the other one is last there.
  * the removed key is forgotten. It stays in `dirty` and is nowhere else, so every later
    request for it is dropped and the answer is `Unavailable` (`RemovalForgetsItsKey`).
    `RemovalForgetsIff`: exactly when it is last in `dirty`, not in progress, and queued once
    but not last in the queue.

  Both last until another `RemoveEntries`. Assigning the slices back would remove exactly the
  key, but is safe only while no worker runs it (`IntendedKeepsInvIff`).
* **Schedules.** Without `startingDeadlineSeconds`, "too many missed start times" is a state no
  reconcile leaves (`MissedFailureIsAbsorbing`); with one it is left exactly when the window
  comes to hold a hundred activations or fewer (`RecoversIff`, `FailsForEverIff`). A jitter
  window of fifteen seconds, the default of `cmd/main.go:167`, is the shortest with which two
  reconciles can queue a job for the same activation without either being late; a late second
  one can be queued with any positive window (`OneJobIff`).
* **Namespaces.** A `NamespaceSelector` that matches no live namespace, without a `Namespace`,
  fetches from the whole cluster (`FetchIsExactIff`).
* **Scripts.** Integers directly inside lists, lists inside lists, and empty lists do not
  survive the way to Lua and back (`RoundTripWidensIff`).

## Model

| member | source | states |
|---|---|---|
| ExecutorInvariants.ReachableInvariant | internal/controller/executor/worker.go:125-145 | in every run without RemoveEntries: inProgress is the multiset of keys the workers hold, never longer than the pool, and holds the key of every storeResult; dirty has no duplicates and only keys that are queued or in progress; no dirty key has a result |
| ExecutorInvariants.InvStep | internal/controller/executor/worker.go:704-740 | every event except RemoveEntries keeps that invariant, in both variants |
| ExecutorInvariants.StepCounts | internal/controller/executor/worker.go:704-740 | without RemoveEntries and from a consistent state, how each event moves the copies of a key between dirty, queue and inProgress |
| ExecutorInvariants.StepOutstanding | internal/controller/executor/worker.go:118-145 | in any state, consistent or not, and for every event including RemoveEntries: by how much the copies of a key that are queued or held by workers change |
| ExecutorInvariants.UnavailableMeansUnknown | internal/controller/executor/worker.go:746-786 | in every run without RemoveEntries, GetResult answers Unavailable exactly when the key is in no list, no worker holds it and it has no result |
| ExecutorExclusion.CopiesBound | internal/controller/executor/worker.go:728-739 | as written and without RemoveEntries, a key is queued and in progress at most once more than storeResult re-queued it; before the first re-queue no two workers hold it |
| ExecutorExclusion.CopiesBoundReached | internal/controller/executor/worker.go:728-739 | the bound is met, for every number of re-queues, by some legal run |
| ExecutorExclusion.ExclusionFails | internal/controller/executor/worker.go:61-66 | for every pool size some legal run of 5n - 3 events ends with every worker running the same key; seven events for two workers |
| ExecutorExclusion.OneCopyIffGuarded | internal/controller/executor/client.go:155-179 | over all runs: a key never has two copies, queued or held, exactly when no event duplicates it: a Process while a copy is outstanding and the key is neither dirty nor in progress, or a RemoveEntries of another queued key while it is last in the queue |
| ExecutorExclusion.ParallelIffTwoCopies | internal/controller/executor/worker.go:118-145 | from any state of two workers or more, takes and stores alone can make two workers run the key exactly when two copies of it are outstanding |
| ExecutorExclusion.ExclusiveIffGuarded | internal/controller/executor/worker.go:61-66 | over all runs, RemoveEntries included, and for both variants: the documented exclusion holds under every schedule exactly when no event of the run duplicates the key |
| ExecutorExclusion.DuplicatesIfConsistent | internal/controller/executor/client.go:155-179 | without RemoveEntries the duplicating event is a Process of a key that is queued but neither dirty nor in progress |
| ExecutorRepair.KeepDirtySettles | internal/controller/executor/worker.go:728-739 | if storeResult keeps the key in dirty, then without RemoveEntries a key is queued, once, exactly when it is dirty and not in progress, and no two workers ever run it |
| ExecutorRepair.KeepDirtyIsGuarded | internal/controller/executor/worker.go:735 | so every such run meets the condition of ExclusiveIffGuarded |
| ExecutorRepair.KeepDirtyExclusiveIff | internal/controller/executor/worker.go:61-66 | with that variant, over all runs: the key stays exclusive at every point, whatever is requested next, exactly when no RemoveEntries uncovers it: of another queued key while it is last in the queue, or of itself if a copy remains and it leaves dirty and inProgress |
| ExecutorHistory.NoRequestLost | internal/controller/executor/client.go:155-179 | in every run: after Process, accepted or dropped, the key stays dirty or queued until a worker starts a run of it or RemoveEntries withdraws it |
| ExecutorHistory.QueueIsHistory | internal/controller/executor/worker.go:126-129 | without RemoveEntries, the queue is what was pushed minus what was taken, in order |
| ExecutorHistory.ServedInOrder | internal/controller/executor/worker.go:126-129 | the key at position p is the one taken after exactly p other takes, whatever else happens, unless that key is removed |
| ExecutorHistory.ResultHasWriter | internal/controller/executor/worker.go:720-738 | in every run: a result in place was written, with this error, by a storeResult of a worker holding the key, and no Process, GetResult, RemoveEntries or storeResult of the key followed |
| ExecutorHistory.DeliveredOnce | internal/controller/executor/worker.go:754-766 | in every run: between two GetResult calls that both find a result lies a storeResult of the key |
| ExecutorHistory.AnswerIs | internal/controller/executor/client.go:182-208 | over all runs: GetResult answers Failed(e) exactly when the last storeResult of the key to write a result, with nothing clearing or replacing it since, had the error e, and Processed exactly when it had none; without one it answers InProgress exactly when the key is listed in progress or queued, and otherwise Unavailable |
| ExecutorHistory.FreshIffGuarded | internal/controller/executor/worker.go:720-738 | over all runs, RemoveEntries included: no schedule leaves a result in place with a copy of the key outstanding exactly when no event of the run duplicates the key |
| ExecutorHistory.ResultIsFresh | internal/controller/executor/worker.go:720-738 | in such a run a result in place comes from a run that was taken after the latest Process of the key not withdrawn by RemoveEntries |
| ExecutorProgress.SchedulesEnd | internal/controller/executor/worker.go:107-151 | without RemoveEntries, every take and store uses up work: no schedule is longer than 2·queued + in progress + 2·dirty (in progress + 2·dirty for KeepDirty) |
| ExecutorProgress.AllSchedulesEnd | internal/controller/executor/worker.go:107-151 | from any state whatever, removals or not, every schedule of takes and stores ends within a bound read off the state |
| ExecutorProgress.WorkLeftIffNotQuiescent | internal/controller/executor/worker.go:107-151 | with a worker in the pool, a take or store is possible exactly when some list is not empty |
| ExecutorProgress.RequestIsServed | internal/controller/executor/worker.go:49-66 | without RemoveEntries, a schedule that cannot go on ends with all lists empty, within the bound, and has started a run of every key requested before, after the request |
| ExecutorProgress.CanDrain | internal/controller/executor/worker.go:107-151 | after every run a schedule exists that goes on until nothing is left to take or store |
| Slices.OverwriteEffect | internal/controller/executor/client.go:216-235 | a list that contains the key keeps its length and trades one occurrence for a copy of its last element; the discarded slice is the list without that occurrence |
| Slices.OverwriteKeepsIff | internal/controller/executor/client.go:216-235 | the key stays in the list exactly when it is last or occurs twice; every other count stays, except that the last element's grows |
| ExecutorRemoval.IntendedRemovesExactly | internal/controller/executor/client.go:210-238 | with the slices assigned back, a key with at most one copy is gone from everywhere and no other key is touched |
| ExecutorRemoval.IntendedKeepsInvIff | internal/controller/executor/client.go:210-238 | with the slices assigned back the queue stays consistent exactly when the key is not in progress; otherwise the next Process of it makes a second copy |
| ExecutorRemoval.RemoveEntriesKeepsInvIff | internal/controller/executor/client.go:210-238 | exactly when RemoveEntries as written keeps the queue's invariant |
| ExecutorRemoval.StarvedForever | internal/controller/executor/client.go:170-176 | a key left in inProgress without a worker is never taken again and always answered InProgress, whatever is requested, short of another RemoveEntries |
| ExecutorRemoval.RemovalStarvesIff | internal/controller/executor/client.go:216-221 | from a consistent state, removing a makes some continuation starve b exactly when a is another key in progress and b is last in inProgress |
| ExecutorRemoval.CanStarveIff | internal/controller/executor/client.go:210-238 | over all runs: a key can come to starve at some point exactly when some RemoveEntries strands it, with the condition on the state of that call |
| ExecutorRemoval.RemovalStarvesAnother | internal/controller/executor/client.go:216-221 | for every two keys, a legal run of eight events whose only removal is of the first starves the second, in both variants |
| ExecutorRemoval.ForgottenForever | internal/controller/executor/client.go:155-163 | a key that is only in dirty is never taken again, every request for it changes nothing, and it is answered Unavailable, short of another RemoveEntries |
| ExecutorRemoval.RemovalForgetsIff | internal/controller/executor/client.go:223-235 | from a consistent state, a removal brings a key there exactly when it is of that key, last in dirty, not in progress, and queued once but not last in the queue |
| ExecutorRemoval.NeverForgottenIff | internal/controller/executor/client.go:210-238 | over all runs: a key is forgotten at some point exactly when a removal of it leaves it in dirty but in no other list and no worker |
| ExecutorRemoval.RemovalForgetsItsKey | internal/controller/executor/client.go:223-235 | a legal run of five events with one worker that does so |
| ExecutorRemoval.OnlyTwoLosses | internal/controller/executor/client.go:148-180 | over all runs: once the workers have gone on until nothing is left, a request that was not withdrawn has had its run, or its key is forgotten or starved |
| ExecutorRemoval.ServedDespiteRemovals | internal/controller/executor/worker.go:49-66 | in every run whose removals neither strand nor forget the key, each request for it that is not withdrawn is served |
| ExecutorRemoval.RemovalBreaksExclusion | internal/controller/cleaner_controller.go:317-320 | a legal run of eight events with one removal, of a, after which two workers run a, in both variants |
| ManagerImpl.Append | internal/controller/executor/client.go:168 | Go's append: the contents grow by one, no cell in use or in front of the window is written |
| ManagerImpl.RemoveFromSlice | internal/controller/executor/worker.go:788-791 | the returned slice is the swap-removal; the caller's own slice keeps its length and sees the overwritten cell |
| ManagerImpl.Manager.constructor | internal/controller/executor/client.go:126-139 | the initial state: empty lists, no results, n idle workers |
| ManagerImpl.Manager.Process | internal/controller/executor/client.go:148-180 | refines the Process event on the lists as sequences, exactly |
| ManagerImpl.Manager.Take | internal/controller/executor/worker.go:124-145 | refines the Take event, or changes nothing on an empty queue; the worker keeps the address of the cell and reads the key it took through it in every later state |
| ManagerImpl.Manager.Store | internal/controller/executor/worker.go:704-740 | refines the Store event, with the key read through the worker's pointer |
| ManagerImpl.Manager.GetResult | internal/controller/executor/client.go:182-208 | answers Failed with the stored error and Processed for a stored nil, and otherwise as StatusOf does, which AnswerIs ties to the events of the run; refines the GetResult event |
| ManagerImpl.Manager.RemoveEntries | internal/controller/executor/client.go:210-238 | refines the RemoveEntries event: discarded slices and all, without disturbing what any worker's pointer reads |
| Cron.GetNextScheduleTime | internal/controller/cleaner_controller.go:255-290 | the counting loop fails with "too many" exactly from the hundred and first missed activation on, is "unparseable" exactly when the schedule does not parse, and otherwise returns the next activation |
| Cron.OutcomeIs | internal/controller/cleaner_controller.go:279-288 | the same of the specification, for every schedule, spec, last run and clock, counting the missed activations after the last run (or creation) and within the deadline; the time returned is the least activation after now |
| Cron.HundredPass | internal/controller/cleaner_controller.go:279-281 | a schedule and clocks that meet a hundred missed activations with success and a hundred and one with the failure |
| Cron.NextIsLeastActivation | internal/controller/cleaner_controller.go:288 | the time returned is an activation and no activation comes before it |
| Cron.CountsTheMissed | internal/controller/cleaner_controller.go:261-275 | the start of the count leaves out exactly the activations up to the last run (or creation) and those older than the deadline |
| Cron.DeadlineIsExact | internal/controller/cleaner_controller.go:268-286 | the failure is impossible for all schedules with gaps of at least g, all last runs and all clocks exactly when the deadline is at most 100·g plus one nanosecond |
| Scheduler.LastRunIsLastQueued | internal/controller/cleaner_controller.go:237-248 | LastRunTime is the schedule reading of the latest reconcile that queued a job |
| Scheduler.NextIsAfterLastSuccess | internal/controller/cleaner_controller.go:233-249 | NextScheduleTime is the activation after the latest reconcile without error |
| Scheduler.JobsAreSpaced | internal/controller/cleaner_controller.go:292-314 | two jobs are at least 30 s minus the window apart, and none is queued more than the window before NextScheduleTime |
| Scheduler.RequeueHitsNextSchedule | internal/controller/cleaner_controller.go:154-165 | the requeue delay is positive and ends at the NextScheduleTime stored, the next activation; NextScheduleTime never goes back and a reconcile before it leaves it unchanged |
| Scheduler.FailsIffMissed | internal/controller/cleaner_controller.go:255-290 | in a run, a reconcile fails exactly when the schedule does not parse or over a hundred activations were missed since the latest job, within the deadline |
| Scheduler.MissedFailureIsAbsorbing | internal/controller/cleaner_controller.go:226-251 | without a deadline, after one such failure every later reconcile fails and the status never changes |
| Scheduler.RecoversIff | internal/controller/cleaner_controller.go:226-251 | after a failure, a later reconcile is the first to succeed exactly when by its reading at most a hundred activations are missed since the same last run |
| Scheduler.FailsForEverIff | internal/controller/cleaner_controller.go:261-286 | with or without a deadline: every reconcile of every run from now on fails exactly when at every time from now on more than a hundred activations are missed |
| SchedulerCoverage.NoSilentActivationIff | internal/controller/cleaner_controller.go:237-246 | at every activation the first successful reconcile queues a job or the last run is within the thirty-second rule: true of all schedules and runs exactly when the window is not negative |
| SchedulerCoverage.ActivationHasJob | internal/controller/cleaner_controller.go:302-311 | so each activation has a job, queued by that reconcile or one within the thirty-second rule before it |
| SchedulerCoverage.OneJobIff | internal/controller/cleaner_controller.go:292-314 | with one clock reading per reconcile, two reconciles no later than a given lateness after an activation never both queue a job for it exactly when there is no window or twice the window plus the lateness is under 30 s |
| Reconciler.Cleaner.Schedule | internal/controller/cleaner_controller.go:221-252 | writes exactly the status of the scheduling step, queues the job in the manager exactly when the step does, and on an error touches nothing |
| Reconciler.Cleaner.ReconcileNormal | internal/controller/cleaner_controller.go:143-165 | fetches the result, schedules, and returns the delay or the error; without a scheduling error the message left is the error of a failed run, the old message if nothing could be fetched, or none, and with one it is the text of that error |
| Reconciler.MessageIs | internal/controller/cleaner_controller.go:145-161 | the same of the specification of the message |
| Reconciler.Texts | internal/controller/cleaner_controller.go:255-286 | the two scheduling errors have different texts, with the beginnings of the program's |
| Service.MessageIsLatest | internal/controller/cleaner_controller.go:143-165 | over any interleaving of the two steps of reconciles with the executor: the message in place comes from the latest schedule step that failed, with the text of its error, or fetch that found the key known, and then it is e exactly when the last run of the cleaner ended with the error e |
| Service.MessageOfReconcile | internal/controller/cleaner_controller.go:143-165 | one reconcile whose steps are not interleaved leaves the message of ReconcileNormal |
| Service.ActivationIsServed | internal/controller/cleaner_controller.go:237-243 | composes the two halves: once the workers have exhausted the queue, the job of each activation has had a run that started after it was queued, if the cleaner is not removed and no removal of another strands it |
| LuaValues.ObjectRoundTrip | internal/controller/executor/worker.go:795-911 | Go to Lua to Go is the normal form, for every map and every widening of integers |
| LuaValues.TableToGo | internal/controller/executor/worker.go:882-911 | what any table of a script becomes: the map of its fields if its array part holds only nil, otherwise the list up to the last item that is not nil, with nil for each gap, whatever its fields |
| LuaValues.UnchangedIffNormal | internal/controller/executor/worker.go:795-911 | a map comes back unchanged exactly when it is normal: floats, strings, booleans, maps, and non-empty lists of these without lists directly inside |
| LuaValues.RoundTripIsIdempotent | internal/controller/executor/worker.go:795-911 | what came back from one round trip comes back unchanged from the next |
| LuaValues.RoundTripWidensIff | internal/controller/executor/worker.go:795-911 | only widening happens exactly on maps without nils, unknown types and empty lists whose list elements are maps, floats, strings or booleans |
| LuaTables.TableSurvivesIff | internal/controller/executor/worker.go:882-911 | toGoValue followed directly by mapToTable, without the JSON in between, gives the same table exactly when it has no nil, no array in an array and no array with fields |
| LabelFilters.AddLabelFilters | internal/controller/executor/worker.go:392-416 | the loop prints the requirements in order, separated by commas |
| LabelFilters.SelectorRoundTrip | internal/controller/executor/worker.go:392-416 | reading the printed selector gives back the filters, up to the values that Has and DoesNotHave ignore |
| Fetch.GetNamespaces | internal/controller/executor/worker.go:455-503 | the selected namespaces in order, or the error of parsing or listing |
| Fetch.SelectedAreNamed | internal/controller/executor/worker.go:452-503 | they are, without duplicates, exactly the Namespace and the live namespaces the selector matches |
| Fetch.SelectedInOrder | internal/controller/executor/worker.go:452-503 | they keep the order of the cluster's list, with the Namespace last unless the NamespaceSelector matches it too |
| Fetch.CollectFromNamespaces | internal/controller/executor/worker.go:418-434 | the lists of the namespaces in order, up to the first failing call |
| Fetch.CollectCounts | internal/controller/executor/worker.go:418-434 | over distinct namespaces every matching resource of theirs is collected once per occurrence, and nothing else |
| Fetch.CollectedPerNamespace | internal/controller/executor/worker.go:418-434 | over distinct namespaces, what is collected of each is what matches there, in the order of the cluster |
| Fetch.CollectedInOrder | internal/controller/executor/worker.go:418-434 | over distinct namespaces, they follow one another in the order given |
| Fetch.CollectErrorIs | internal/controller/executor/worker.go:422-428 | a failing collection returns the error of its first failing list call |
| Fetch.FetchResources | internal/controller/executor/worker.go:356-390 | returns nothing for a kind without a match; whatever it returns is in the cluster, matches the label filters and is of a mapped kind; its branches are those of the specification the rows below are about |
| Fetch.FetchIsSound | internal/controller/executor/worker.go:356-390 | the same of the specification, for every cluster and selector |
| Fetch.FetchedInOrder | internal/controller/executor/worker.go:376-390 | of each namespace a fetch returns exactly what matches there, in the order of the cluster, if the selector names the namespace or names none at all, and nothing otherwise |
| Fetch.FetchFailsIff | internal/controller/executor/worker.go:356-390 | exactly which failures make a fetch fail |
| Fetch.FetchErrorIs | internal/controller/executor/worker.go:356-390 | and with which error: the mapping's, else the parser's, else that of listing namespaces, else that of a list call it makes |
| Fetch.FetchIsExactIff | internal/controller/executor/worker.go:376-390 | as a multiset the result is the wanted part of the cluster exactly when the selector does not fall back to the whole cluster, or its label filters match nothing |
| Deletion.DeleteMatchingResources | internal/controller/executor/worker.go:254-297 | the cluster and the processed list after the loop are those of the sweep; the error returned is nil or holds the reason of each failing call at the place of that call among the failing ones, and no other; reasons, processed resources and calls that found the resource gone add up to the length of the list |
| Deletion.SweepIsExact | internal/controller/executor/worker.go:260-289 | the cluster loses exactly the listed resources for which some call works; the processed list holds those that existed at their first working call, in order; failures are the failing calls; the three counts add up |
| Deletion.ProcessedOnce | internal/controller/executor/worker.go:284-288 | nothing is processed twice, and what is processed is what the cluster lost |
| Deletion.ErrorIffFailure | internal/controller/executor/worker.go:291-296 | the error is nil exactly when no call fails, and then all listed resources are gone |
| Deletion.AccountIsExact | internal/controller/executor/worker.go:291-296 | the same account of the error and of the three counts, of the specification |

## Left out

- The body of a run (`processCleanerInstance`): discovery and status patches, transform and scan actions, notifications, storing resources; it touches none of the modelled state.
- Lua scripts and JSON marshalling: `isMatch`, `transform` and `aggregatedSelection` bodies would be arbitrary functions between the two conversions, and what a script returns goes through JSON before it reaches another.
- Lua tables with keys other than strings and array positions, and functions or userdata returned by a script.
- Kubernetes itself: list calls are filters over a list of resources, delete calls remove at once or fail for a given reason, so an object that lingers on its finalizers after an accepted delete is not modelled; neither are finalizers and reports of the reconciler.
- Parsing of cron expressions, including schedules that never fire: a parsed schedule is its `Next` function. Parsing of label selectors by Kubernetes is a parameter of `Fetch`; `LabelFilters` reads selectors with a reader of its own.
- Truncation of stored times to seconds, overflow of int64 durations, and the wording of errors beyond their beginnings (the two scheduling errors, and how errors.Join separates reasons).
- Failures to add type information to a namespace in `getNamespaces`.
- A label filter with an operation outside the four of its enumeration.
- The mutex: critical sections are atomic. Cancellation of the context, which ends a worker, and logging.
- ManagerImpl.Append: the runtime's growth policy is any capacity larger than the length.
- Reconciler.Cleaner.ReconcileNormal: describes the two executor calls one after the other; `Service` allows other events between them.
- ExecutorExclusion.CopiesBound: concerns runs without RemoveEntries, which can copy a key any number of times; OneCopyIffGuarded is about all runs.
- ExecutorRepair.KeepDirtySettles: concerns runs without RemoveEntries; KeepDirtyExclusiveIff is about all runs.
- ExecutorHistory.QueueIsHistory: concerns runs without RemoveEntries, which overwrites keys in the middle of the queue; ServedInOrder allows the removal of other keys.
- ExecutorProgress.SchedulesEnd: gives its bound for runs without RemoveEntries; AllSchedulesEnd has one for every state.
- ExecutorProgress.RequestIsServed: concerns runs without RemoveEntries; ServedDespiteRemovals is about all runs.
