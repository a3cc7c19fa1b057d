/**
 The in-memory job queue of the bots job queue server (class `Jobqueue`).

 The queue deduplicates by task, keeps its entries sorted in descending
 (priority, job number) order after every change, and hands out the last
 entry, so lower priority numbers run first and equal priorities run in the
 order they were added. The job counter only ever grows, also across a clear.
 */
module JobQueue {
  import opened Jobs

  datatype Option<T> = None | Some(value: T)

  /** The state of a `Jobqueue` object: its entry list and its job counter. */
  datatype Queue = Queue(jobs: seq<Job>, counter: nat)

  /** What addjob did; the source reports the first two as 0 and the last as 4. */
  datatype AddStatus = Added | PriorityChanged | DuplicateIgnored

  datatype AddResult = AddResult(queue: Queue, status: AddStatus)

  /** What getjob handed out; the source reports `Empty` as the sentinel 0. */
  datatype Taken = Empty | Taken(job: Job)

  datatype GetResult = GetResult(queue: Queue, taken: Taken)

  /** The emptied queue and the result clearjobq returns. */
  datatype ClearResult = ClearResult(queue: Queue, code: int)

  /** The numeric result addjob returns to its remote caller. */
  function StatusCode(s: AddStatus): (code: int)
    ensures code == 0 || code == 4
    ensures code == 4 <==> s == DuplicateIgnored
  {
    if s == DuplicateIgnored then 4 else 0
  }

  /**
   The queue invariant: tasks are deduplicated, job numbers are distinct and
   were all handed out by the counter, and the list is in descending key order.
   */
  ghost predicate Valid(q: Queue) {
    && DistinctTasks(q.jobs)
    && DistinctNumbers(q.jobs)
    && (forall j | j in q.jobs :: 1 <= j.jobNumber <= q.counter)
    && SortedDesc(q.jobs)
  }

  /** A fresh queue: no entries and a job counter at zero. */
  function Init(): (q: Queue)
    ensures Valid(q)
    ensures q.jobs == [] && q.counter == 0
  {
    Queue([], 0)
  }

  /** The position of the first entry carrying `task`, as the loop of addjob finds it. */
  function FindTask(jobs: seq<Job>, task: Task): (r: Option<nat>)
    ensures r.None? <==> forall j | j in jobs :: j.task != task
    ensures r.Some? ==>
              && r.value < |jobs|
              && jobs[r.value].task == task
              && forall k | 0 <= k < r.value :: jobs[k].task != task
  {
    if |jobs| == 0 then
      None
    else if jobs[0].task == task then
      Some(0)
    else
      assert jobs == [jobs[0]] + jobs[1..];
      match FindTask(jobs[1..], task)
      case None => None
      case Some(i) => Some(i + 1)
  }

  /**
   addjob: a task already queued has its priority changed in place (result 0)
   or is ignored when the priority is the same (result 4); a new task gets the
   next job number and is added (result 0). The list is re-sorted after a change.
   */
  function AddJob(q: Queue, task: Task, priority: int): (r: AddResult)
    ensures r.status == Added <==> forall j | j in q.jobs :: j.task != task
    ensures r.status == Added ==>
              && r.queue.counter == q.counter + 1
              && multiset(r.queue.jobs) == multiset(q.jobs) + multiset{Job(priority, q.counter + 1, task)}
    ensures r.status == PriorityChanged ==>
              && r.queue.counter == q.counter
              && exists i | 0 <= i < |q.jobs| ::
                   && q.jobs[i].task == task
                   && q.jobs[i].priority != priority
                   && multiset(r.queue.jobs) == multiset(q.jobs[i := q.jobs[i].(priority := priority)])
    ensures r.status == DuplicateIgnored ==>
              && r.queue == q
              && exists j | j in q.jobs :: j.task == task && j.priority == priority
    ensures r.status != DuplicateIgnored ==> SortedDesc(r.queue.jobs)
  {
    match FindTask(q.jobs, task)
    case None =>
      var n := q.counter + 1;
      var s := q.jobs + [Job(priority, n, task)];
      SortOrders(s);
      AddResult(Queue(Sort(s), n), Added)
    case Some(i) =>
      if q.jobs[i].priority != priority then
        var s := q.jobs[i := q.jobs[i].(priority := priority)];
        SortOrders(s);
        AddResult(Queue(Sort(s), q.counter), PriorityChanged)
      else
        AddResult(q, DuplicateIgnored)
  }

  /** getjob: removes and returns the last entry, or reports `Empty` and changes nothing. */
  function GetJob(q: Queue): (r: GetResult)
    ensures r.taken.Empty? <==> q.jobs == []
    ensures r.taken.Empty? ==> r.queue == q
    ensures r.queue.counter == q.counter
    ensures r.taken.Taken? ==>
              && |r.queue.jobs| == |q.jobs| - 1
              && multiset(r.queue.jobs) + multiset{r.taken.job} == multiset(q.jobs)
    ensures r.taken.Taken? && SortedDesc(q.jobs) ==> forall j | j in q.jobs :: KeyLe(r.taken.job, j)
  {
    if |q.jobs| > 0 then
      var n := |q.jobs| - 1;
      assert q.jobs == q.jobs[..n] + [q.jobs[n]];
      GetResult(Queue(q.jobs[..n], q.counter), Taken(q.jobs[n]))
    else
      GetResult(q, Empty)
  }

  /** clearjobq: drops every entry, keeps the job counter, and returns 0. */
  function ClearJobQ(q: Queue): (r: ClearResult)
    ensures Valid(r.queue)
    ensures r.queue.jobs == [] && r.queue.counter == q.counter
    ensures r.code == 0
  {
    ClearResult(Queue([], q.counter), 0)
  }

  /** Adding a task that is not queued yet adds exactly one entry, with a job number above all others. */
  lemma AddNewTask(q: Queue, task: Task, priority: int)
    requires Valid(q)
    requires forall j | j in q.jobs :: j.task != task
    ensures var r := AddJob(q, task, priority);
            && r.status == Added
            && StatusCode(r.status) == 0
            && r.queue.counter == q.counter + 1
            && |r.queue.jobs| == |q.jobs| + 1
            && Job(priority, q.counter + 1, task) in r.queue.jobs
            && (forall j | j in q.jobs :: j in r.queue.jobs && j.jobNumber < q.counter + 1)
            && Valid(r.queue)
  {
    var r := AddJob(q, task, priority);
    FreshEntryKeepsValid(q, Job(priority, q.counter + 1, task), r.queue.jobs);
  }

  /** A descending arrangement of the queue plus one entry with a new task and the next job number is a valid queue. */
  lemma FreshEntryKeepsValid(q: Queue, e: Job, jobs: seq<Job>)
    requires Valid(q)
    requires forall j | j in q.jobs :: j.task != e.task
    requires e.jobNumber == q.counter + 1
    requires multiset(jobs) == multiset(q.jobs + [e])
    requires SortedDesc(jobs)
    ensures |jobs| == |q.jobs| + 1
    ensures e in jobs
    ensures forall j | j in q.jobs :: j in jobs && j.jobNumber < e.jobNumber
    ensures Valid(Queue(jobs, q.counter + 1))
  {
    var s := q.jobs + [e];
    assert |jobs| == |multiset(s)| == |s|;
    AppendFreshKeepsDistinct(q, e);
    PermutationKeepsDistinct(s, jobs);
    SameMembers(s, jobs);
    assert e in s;
  }

  /** Two arrangements of the same entries have the same members. */
  lemma SameMembers(a: seq<Job>, b: seq<Job>)
    requires multiset(a) == multiset(b)
    ensures forall x :: x in a <==> x in b
  {
    forall x ensures x in a <==> x in b {
      assert x in a <==> x in multiset(a);
    }
  }

  /** Appending an entry whose task is new and whose job number is above the counter keeps entries distinct. */
  lemma AppendFreshKeepsDistinct(q: Queue, e: Job)
    requires Valid(q)
    requires forall j | j in q.jobs :: j.task != e.task
    requires e.jobNumber > q.counter
    ensures DistinctTasks(q.jobs + [e]) && DistinctNumbers(q.jobs + [e])
  {
    var s := q.jobs + [e];
    forall i, k | 0 <= i < k < |s| ensures s[i].task != s[k].task && s[i].jobNumber != s[k].jobNumber {
      if k == |q.jobs| {
        assert s[i] in q.jobs;
      } else {
        assert s[i] == q.jobs[i] && s[k] == q.jobs[k];
      }
    }
  }

  /** Adding a queued task again at the same priority changes nothing and reports 4. */
  lemma AddSamePriority(q: Queue, task: Task, priority: int)
    requires Valid(q)
    requires exists j | j in q.jobs :: j.task == task && j.priority == priority
    ensures var r := AddJob(q, task, priority);
            && r.status == DuplicateIgnored
            && StatusCode(r.status) == 4
            && r.queue == q
  {
    var j :| j in q.jobs && j.task == task && j.priority == priority;
    var k :| 0 <= k < |q.jobs| && q.jobs[k] == j;
    assert FindTask(q.jobs, task) == Some(k);
  }

  /**
   Adding a queued task at another priority changes only that entry's priority,
   keeps its job number and the length of the queue, and reports 0.
   */
  lemma AddNewPriority(q: Queue, task: Task, priority: int, i: nat)
    requires Valid(q)
    requires i < |q.jobs| && q.jobs[i].task == task && q.jobs[i].priority != priority
    ensures var r := AddJob(q, task, priority);
            var updated := Job(priority, q.jobs[i].jobNumber, task);
            && r.status == PriorityChanged
            && StatusCode(r.status) == 0
            && r.queue.counter == q.counter
            && |r.queue.jobs| == |q.jobs|
            && updated in r.queue.jobs
            && q.jobs[i] !in r.queue.jobs
            && multiset(r.queue.jobs) - multiset{updated} == multiset(q.jobs) - multiset{q.jobs[i]}
            && Valid(r.queue)
  {
    assert FindTask(q.jobs, task) == Some(i);
    var updated := Job(priority, q.jobs[i].jobNumber, task);
    var s := q.jobs[i := updated];
    var r := AddJob(q, task, priority);
    assert multiset(r.queue.jobs) == multiset(s);
    assert |r.queue.jobs| == |multiset(s)| == |s|;
    UpdateKeepsEntriesDistinct(q, i, updated);
    PermutationKeepsDistinct(s, r.queue.jobs);
    forall j | j in r.queue.jobs ensures 1 <= j.jobNumber <= r.queue.counter {
      assert j in multiset(s);
    }
    assert updated in multiset(r.queue.jobs);
    assert q.jobs[i] !in multiset(r.queue.jobs);
  }

  /** Replacing one entry by one with the same task and job number keeps the entries distinct and counted. */
  lemma UpdateKeepsEntriesDistinct(q: Queue, i: nat, updated: Job)
    requires Valid(q)
    requires i < |q.jobs|
    requires updated.task == q.jobs[i].task && updated.jobNumber == q.jobs[i].jobNumber
    requires updated != q.jobs[i]
    ensures var s := q.jobs[i := updated];
            && DistinctTasks(s)
            && DistinctNumbers(s)
            && (forall j | j in s :: 1 <= j.jobNumber <= q.counter)
            && updated in multiset(s)
            && q.jobs[i] !in multiset(s)
            && multiset(s) - multiset{updated} == multiset(q.jobs) - multiset{q.jobs[i]}
  {
    var s := q.jobs[i := updated];
    forall a, b | 0 <= a < b < |s| ensures s[a].task != s[b].task && s[a].jobNumber != s[b].jobNumber {
      assert s[a].task == q.jobs[a].task && s[b].task == q.jobs[b].task;
      assert s[a].jobNumber == q.jobs[a].jobNumber && s[b].jobNumber == q.jobs[b].jobNumber;
    }
    forall j | j in s ensures 1 <= j.jobNumber <= q.counter {
      var m :| 0 <= m < |s| && s[m] == j;
      assert j.jobNumber == q.jobs[m].jobNumber;
    }
    forall m | 0 <= m < |s| ensures s[m] != q.jobs[i] {
      if m != i {
        assert s[m] == q.jobs[m];
      }
    }
    assert q.jobs[i] !in s;
  }

  /** Adding the same task twice leaves exactly one entry for it, with the latest priority. */
  lemma AddTwiceKeepsLatestPriority(q: Queue, task: Task, p1: int, p2: int)
    requires Valid(q)
    ensures var q1 := AddJob(q, task, p1).queue;
            var r := AddJob(q1, task, p2);
            && (r.status == PriorityChanged <==> p1 != p2)
            && (r.status == DuplicateIgnored <==> p1 == p2)
            && |r.queue.jobs| == |q1.jobs|
            && Valid(r.queue)
            && exists j | j in r.queue.jobs :: j.task == task && j.priority == p2
  {
    var r1 := AddJob(q, task, p1);
    var q1 := r1.queue;
    var j1: Job;
    if r1.status == Added {
      AddNewTask(q, task, p1);
      j1 := Job(p1, q.counter + 1, task);
    } else {
      var i := FindTask(q.jobs, task).value;
      if q.jobs[i].priority != p1 {
        AddNewPriority(q, task, p1, i);
        j1 := Job(p1, q.jobs[i].jobNumber, task);
      } else {
        j1 := q.jobs[i];
      }
    }
    assert Valid(q1) && j1 in q1.jobs && j1.task == task && j1.priority == p1;
    if p1 == p2 {
      AddSamePriority(q1, task, p2);
    } else {
      var k :| 0 <= k < |q1.jobs| && q1.jobs[k] == j1;
      AddNewPriority(q1, task, p2, k);
    }
  }

  /** getjob on a valid queue hands out the entry with the strictly smallest key and keeps the rest valid. */
  lemma GetTakesMinimum(q: Queue)
    requires Valid(q)
    requires q.jobs != []
    ensures var r := GetJob(q);
            && r.taken.Taken?
            && r.taken.job in q.jobs
            && r.taken.job !in r.queue.jobs
            && (forall j | j in r.queue.jobs :: KeyLt(r.taken.job, j))
            && Valid(r.queue)
  {
    var r := GetJob(q);
    var n := |q.jobs| - 1;
    assert r.queue.jobs == q.jobs[..n];
    SortedDistinctIsStrict(q.jobs);
    forall j | j in r.queue.jobs ensures KeyLt(r.taken.job, j) {
      var m :| 0 <= m < n && q.jobs[..n][m] == j;
      assert q.jobs[m] == j;
    }
  }

  /** getjob on an empty queue returns the sentinel and changes nothing. */
  lemma GetFromEmpty(q: Queue)
    requires q.jobs == []
    ensures GetJob(q).taken == Empty && GetJob(q).queue == q
  {
  }

  /** After clearjobq, getjob returns the sentinel, whatever was queued before, and the counter is kept. */
  lemma ClearThenGetIsEmpty(q: Queue)
    ensures var c := ClearJobQ(q).queue;
            && GetJob(c).taken == Empty
            && GetJob(c).queue.counter == q.counter
  {
  }

  /** The jobs getjob hands out, one call after another, until the queue is empty. */
  function Drain(q: Queue): (d: seq<Job>)
    ensures |d| == |q.jobs|
    decreases |q.jobs|
  {
    var g := GetJob(q);
    match g.taken
    case Empty => []
    case Taken(j) => [j] + Drain(g.queue)
  }

  /** Every entry of `d` has a strictly smaller key than the entries after it. */
  ghost predicate StrictlyAscending(d: seq<Job>) {
    forall i, k | 0 <= i < k < |d| :: KeyLt(d[i], d[k])
  }

  /**
   Draining a valid queue hands out every entry exactly once, in strictly
   increasing (priority, job number) order.
   */
  lemma {:induction false} DrainInKeyOrder(q: Queue)
    requires Valid(q)
    ensures multiset(Drain(q)) == multiset(q.jobs)
    ensures StrictlyAscending(Drain(q))
    decreases |q.jobs|
  {
    if q.jobs != [] {
      var g := GetJob(q);
      GetTakesMinimum(q);
      DrainInKeyOrder(g.queue);
      PrependSmallest(g.taken.job, Drain(g.queue), g.queue.jobs);
    }
  }

  /** Putting an entry whose key is below all of `jobs` in front of an ascending arrangement of `jobs` keeps it ascending. */
  lemma PrependSmallest(j: Job, rest: seq<Job>, jobs: seq<Job>)
    requires multiset(rest) == multiset(jobs)
    requires forall x | x in jobs :: KeyLt(j, x)
    requires StrictlyAscending(rest)
    ensures StrictlyAscending([j] + rest)
  {
    forall k | 0 <= k < |rest| ensures KeyLt(j, rest[k]) {
      assert rest[k] in multiset(jobs);
    }
  }

  /** Of two queued entries, the one with the smaller key is handed out first. */
  lemma TakenBefore(q: Queue, a: Job, b: Job)
    requires Valid(q)
    requires a in q.jobs && b in q.jobs
    requires KeyLt(a, b)
    ensures exists i, k | 0 <= i < k < |Drain(q)| :: Drain(q)[i] == a && Drain(q)[k] == b
  {
    DrainInKeyOrder(q);
    var d := Drain(q);
    assert a in multiset(d) && b in multiset(d);
    var i :| 0 <= i < |d| && d[i] == a;
    var k :| 0 <= k < |d| && d[k] == b;
    AscendingPositions(d, i, k);
  }

  /** In a strictly ascending list, an entry with a smaller key sits at an earlier position. */
  lemma AscendingPositions(d: seq<Job>, i: nat, k: nat)
    requires StrictlyAscending(d)
    requires i < |d| && k < |d|
    requires KeyLt(d[i], d[k])
    ensures i < k
  {
  }

  /**
   Moving a queued task to another priority keeps its job number, so it runs
   before every entry of that priority that was added after it.
   */
  lemma MovedRunsBeforeLaterArrivals(q: Queue, task: Task, priority: int, i: nat, other: Job)
    requires Valid(q)
    requires i < |q.jobs| && q.jobs[i].task == task && q.jobs[i].priority != priority
    requires other in q.jobs && other.priority == priority && q.jobs[i].jobNumber < other.jobNumber
    ensures var d := Drain(AddJob(q, task, priority).queue);
            exists a, b | 0 <= a < b < |d| :: d[a] == Job(priority, q.jobs[i].jobNumber, task) && d[b] == other
  {
    var updated := Job(priority, q.jobs[i].jobNumber, task);
    var q' := AddJob(q, task, priority).queue;
    AddNewPriority(q, task, priority, i);
    assert other != q.jobs[i];
    assert other in multiset(q.jobs) - multiset{q.jobs[i]};
    assert other in multiset(q'.jobs);
    TakenBefore(q', updated, other);
  }

  /**
   Two new tasks added one after the other at the same priority are handed out
   in the order they were added.
   */
  lemma SamePriorityIsFifo(q: Queue, t1: Task, t2: Task, priority: int)
    requires Valid(q)
    requires t1 != t2
    requires forall j | j in q.jobs :: j.task != t1 && j.task != t2
    ensures var q2 := AddJob(AddJob(q, t1, priority).queue, t2, priority).queue;
            exists i, k | 0 <= i < k < |Drain(q2)| :: Drain(q2)[i].task == t1 && Drain(q2)[k].task == t2
  {
    var q1 := AddJob(q, t1, priority).queue;
    AddNewTask(q, t1, priority);
    var e1 := Job(priority, q.counter + 1, t1);
    assert forall j | j in q1.jobs :: j.task != t2 by {
      forall j | j in q1.jobs ensures j.task != t2 {
        assert j in multiset(q1.jobs);
      }
    }
    AddNewTask(q1, t2, priority);
    var q2 := AddJob(q1, t2, priority).queue;
    var e2 := Job(priority, q1.counter + 1, t2);
    TakenBefore(q2, e1, e2);
  }
}
