# Bots job queue, modelled in Dafny

The bots job queue server makes sure that only one bots engine runs at a
time and that no run request is lost. Requests arrive over XML-RPC and go
into an in-memory queue (the `Jobqueue` class). A launcher thread polls
the queue and runs the jobs one after another.

This project models:

- the queue: its entries `[priority, jobnumber, task]`, its job counter, and
  the operations `addjob`, `getjob` and `clearjobq`, plus the re-sort after
  every change (`jobs.dfy`, `job_queue.dfy`);
- the XML-RPC surface: each remote call as a value, the reply it produces,
  and a server that handles one call at a time (`queue_service.dfy`);
- the launcher's consecutive-failure counter, which makes the launcher
  thread call `sys.exit(1)` after ten consecutive exceptions (`launcher.dfy`).

That `sys.exit(1)` (bots/jobqueueserver.py:116) runs in the launcher's daemon
thread (started at bots/jobqueueserver.py:158-161). It raises `SystemExit` in
that thread, which ends the thread only. The main thread stays in
`server.serve_forever()` (bots/jobqueueserver.py:174), so the XML-RPC server
keeps running and keeps accepting `addjob` calls that nothing will run. In
the model, `Launcher.Stopped(exitCode)` means that the launcher thread has
ended, and `exitCode` is the argument given to `sys.exit`. It is not a status
of the process.

The queue keeps its entries in descending (priority, job number) order and
`getjob` pops the last one. So the lowest priority number runs first, and
equal priorities run in the order the jobs were added. Adding a task that is
already queued never creates a second entry. At a new priority it moves the
entry and keeps its job number; at the same priority it is ignored with
result 4. The job counter only grows, also across `clearjobq`.

Modelling choices:

- `list.sort(reverse=True)` on the three-element lists is an insertion sort on
  the (priority, job number) key. Python would compare the tasks only when two
  entries tie on both, and that cannot happen because job numbers are
  distinct. `Jobs.SortedPermutationUnique` shows that on such lists every
  sorting algorithm gives the same result.
- Operations are pure functions from the old queue to the new queue plus the
  result. The in-place list mutations of the source become sequence updates.
- `getjob`'s sentinel `0` is the `Empty` alternative. `addjob`'s results 0 and
  4 come from `StatusCode`, which maps the three outcomes `Added`,
  `PriorityChanged` and `DuplicateIgnored` to 0, 0 and 4.
- One pass of the launcher loop is an `Event`:
  - `JobCompleted`: getjob returned a job and its process ended. The process's
    exit status is ignored, as in the source.
  - `EmptyPoll`: getjob returned 0.
  - `Failure`: any exception during the pass. This includes one raised after a
    job was handed out, for example when starting its process fails.
- Only a finished job resets the failure counter (bots/jobqueueserver.py:93-106);
  an empty poll leaves it as it is (`Launcher.EmptyPollDoesNotReset`).
- The launcher's log message speaks of "more than 10" consecutive errors, but
  the test is `nr_runs_NOK >= 10` (bots/jobqueueserver.py:112). The model
  stops at the tenth consecutive failure, as the code does
  (`Launcher.FailuresInARow`).

## Model

| member | source | states |
|---|---|---|
| Jobs.Insert | bots/jobqueueserver.py:71-72 | one step of the re-sort: the result has exactly one entry more (order and contents in InsertOrders) |
| Jobs.Sort | bots/jobqueueserver.py:71-72 | the re-sort keeps the number of entries (order and contents in SortOrders) |
| Jobs.InsertOrders | bots/jobqueueserver.py:71-72 | inserting an entry into a descending list keeps it descending and adds exactly that entry |
| Jobs.SortOrders | bots/jobqueueserver.py:71-72 | the re-sort yields a rearrangement of the entries in descending (priority, job number) order |
| Jobs.SortedPermutationUnique | bots/jobqueueserver.py:71-72 | two descending arrangements of the same entries with distinct job numbers are equal, so the result does not depend on how the list is sorted |
| Jobs.PermutationKeepsDistinct | bots/jobqueueserver.py:71-72 | re-sorting keeps tasks and job numbers distinct |
| JobQueue.Init | bots/jobqueueserver.py:39-41 | a new queue is empty, its counter is 0, and it satisfies the queue invariant |
| JobQueue.FindTask | bots/jobqueueserver.py:45-46 | the scan finds the first entry with the task, and finds none exactly when no entry carries it |
| JobQueue.AddJob | bots/jobqueueserver.py:44-59 | the result is Added exactly when the task is not queued (counter + 1, entries plus the new one); PriorityChanged replaces one entry with that task by the same entry at the new priority and keeps the counter; DuplicateIgnored leaves the queue unchanged and only happens when an entry already has that task and priority |
| JobQueue.StatusCode | bots/jobqueueserver.py:51-59 | addjob returns 4 exactly for an ignored duplicate and 0 otherwise |
| JobQueue.AddNewTask | bots/jobqueueserver.py:55-59 | for a new task: result 0, counter + 1, one more entry `[priority, counter + 1, task]` with a number above all others, old entries kept, invariant kept |
| JobQueue.AddSamePriority | bots/jobqueueserver.py:45-54 | for a queued task at its current priority: result 4 and the queue is unchanged |
| JobQueue.AddNewPriority | bots/jobqueueserver.py:45-51 | for a queued task at another priority: result 0, counter and length kept, only that entry changes (new priority, same job number), invariant kept |
| JobQueue.AddTwiceKeepsLatestPriority | bots/jobqueueserver.py:44-59 | on a valid queue, whether or not the task was already queued, the second of two addjob calls for the same task replies 0 if p1 != p2 and 4 otherwise; it keeps the length, and one entry with that task and priority p2 remains |
| JobQueue.GetJob | bots/jobqueueserver.py:66-69 | getjob reports Empty exactly on an empty queue and then changes nothing; otherwise it removes exactly the entry it returns, and on a descending list that entry has the smallest key |
| JobQueue.GetTakesMinimum | bots/jobqueueserver.py:66-72 | on a valid queue, getjob returns an entry with a key strictly below every remaining one, and the rest stays valid |
| JobQueue.GetFromEmpty | bots/jobqueueserver.py:67-69 | getjob on an empty queue returns the sentinel and leaves the queue as it was |
| JobQueue.ClearJobQ | bots/jobqueueserver.py:61-64 | clearjobq empties the queue, keeps the job counter and returns 0 |
| JobQueue.ClearThenGetIsEmpty | bots/jobqueueserver.py:61-69 | getjob right after clearjobq returns the sentinel, and the counter is still the old one |
| JobQueue.Drain | bots/jobqueueserver.py:66-69 | getjob called until it returns the sentinel hands out as many jobs as were queued |
| JobQueue.DrainInKeyOrder | bots/jobqueueserver.py:66-72 | calling getjob until the queue is empty hands out every entry exactly once, in strictly increasing (priority, job number) order |
| JobQueue.TakenBefore | bots/jobqueueserver.py:66-72 | of two queued entries, the one with the smaller key is handed out first |
| JobQueue.MovedRunsBeforeLaterArrivals | bots/jobqueueserver.py:45-51 | a task moved to a new priority keeps its job number, so it runs before every entry at that priority that was added after it |
| JobQueue.SamePriorityIsFifo | bots/jobqueueserver.py:55-58 | two new tasks added at the same priority are handed out in the order they were added |
| QueueService.Dispatch | bots/jobqueueserver.py:171-172 | a remote call never lowers the counter; a job record comes back only for getjob on a non-empty queue and is one of the queued entries; clearjobq gives an empty queue and 0; every other reply is 0 or 4 |
| QueueService.Serve | bots/jobqueueserver.py:171-174 | the server answers each call with exactly one reply, one call after another, and the job counter never decreases |
| QueueService.DispatchKeepsValid | bots/jobqueueserver.py:44-72 | every remote call keeps tasks deduplicated, job numbers distinct and at most the counter, and the list sorted |
| QueueService.ServeKeepsValid | bots/jobqueueserver.py:171-174 | any sequence of remote calls, served one at a time, keeps the queue invariant |
| QueueService.ClearThenGetRepliesZero | bots/jobqueueserver.py:61-69 | clearjobq and then getjob reply 0 and 0 and leave an empty queue with the old counter |
| QueueService.AddToEmpty | bots/jobqueueserver.py:55-59 | addjob on an empty queue leaves the single entry `[priority, counter + 1, task]` and replies 0 |
| QueueService.AddBehindSingle | bots/jobqueueserver.py:55-58 | a new task with a smaller key than the only queued entry is placed behind it |
| QueueService.SortPair | bots/jobqueueserver.py:71-72 | sorting two entries puts the one with the larger key first |
| QueueService.RepeatFirst | bots/jobqueueserver.py:52-54 | re-adding a queued task at its own priority replies 4 and changes nothing |
| QueueService.GetLast | bots/jobqueueserver.py:66-68 | getjob on a non-empty queue replies with its last entry and keeps the others |
| QueueService.ScenarioLowerPriorityFirst | bots/jobqueueserver.py:44-72 | on an empty queue, adding a at priority 5, b at 1 and a at 5 again, then three getjob calls, replies 0, 0, 4, b's entry, a's entry, 0 |
| Launcher.Step | bots/jobqueueserver.py:93-116 | a finished job resets the count to 0; an empty poll changes nothing; a failure adds one, and the launcher keeps running exactly when the new count is below 10, otherwise it ends with `sys.exit(1)`; an ended launcher stays ended |
| Launcher.Run | bots/jobqueueserver.py:88-116 | the loop starts with the count at 0; a running launcher's count is always below 10, and an ended launcher has always passed 1 to `sys.exit` |
| Launcher.FailureStreak | bots/jobqueueserver.py:106-108 | reference count of failures since the last finished job, never more than the number of passes |
| Launcher.RunMatchesStreak | bots/jobqueueserver.py:88-116 | the launcher is stopped with exit code 1 exactly when the number of failures since the last finished job reached 10 at some point; otherwise it runs and its counter equals that number |
| Launcher.RunningBelowLimit | bots/jobqueueserver.py:110-116 | a running launcher has fewer than 10 failures counted |
| Launcher.StoppedStaysStopped | bots/jobqueueserver.py:110-116 | once stopped, nothing further changes the launcher |
| Launcher.CompletionResets | bots/jobqueueserver.py:94-106 | a finished job resets a running launcher's count to 0 |
| Launcher.EmptyPollChangesNothing | bots/jobqueueserver.py:93-95 | an empty poll leaves the launcher state as it was |
| Launcher.FailuresInARow | bots/jobqueueserver.py:107-116 | from a fresh start, n < 10 consecutive failures leave the count at n; 10 or more stop the launcher with exit code 1 |
| Launcher.NineFailuresThenCompletion | bots/jobqueueserver.py:94-110 | nine failures and then a finished job leave the launcher running with count 0 |
| Launcher.EmptyPollDoesNotReset | bots/jobqueueserver.py:93-116 | nine failures, an empty poll and one more failure stop the launcher with exit code 1 |

## Left out

- The HTTP health endpoint (`HealthCheckHandler`) and the XML-RPC `health` function: they report uptime from a clock and do not touch the queue.
- The process-level effect of the launcher's `sys.exit(1)`: it ends only the launcher thread, and the server goes on accepting jobs. The model records that the launcher has ended, and nothing about the server process.
- `start()`: command-line parsing, configuration, logging set-up and thread start-up. This includes the second `register_instance` and `serve_forever`, which are never reached because the first `serve_forever` does not return.
- Logging, `sendbotserrorreport`, and the debug dump in `_sort`: none of them changes the queue's state.
- The launcher's sleeps, the XML-RPC client, process start, and the watchdog timer (`action_when_time_out`). These are I/O and clock effects, so each pass of the loop is reduced to the `Event` it ended with.
- An exception raised inside the launcher's own exception handler would end the launcher thread. This is not modelled.
- XML-RPC marshalling limits: an integer priority or job number outside the 32-bit range cannot be sent. Priorities are modelled as unbounded integers and job numbers as unbounded naturals.
- Non-integer priorities: a `str` priority next to an `int` one makes the sort at bots/jobqueueserver.py:72 raise `TypeError`. By then, the counter increment and the append at bots/jobqueueserver.py:55-56 have already happened, so the entry stays in an unsorted list. The model has integer priorities only.
- Task comparison in the sort: Python compares the tasks only when priority and job number both tie, and `Jobs.SortedPermutationUnique` shows this never happens in a valid queue.
- The character-set module (`uniterrorcharsets.py`) and the URL configuration (`bots/urls.py`) are not part of this model.
