/**
 The remote-call surface of the job queue server: the three queue operations
 as calls, the replies the XML-RPC server sends back, and the dispatch that
 finishes one call before it starts the next.
 */
module QueueService {
  import opened Jobs
  import opened JobQueue

  datatype Call = AddJobCall(task: Task, priority: int) | GetJobCall | ClearJobQCall

  /** A reply on the wire: a number (a status code, or getjob's sentinel 0) or a job record. */
  datatype Reply = Code(code: int) | JobRecord(job: Job)

  /** Runs one call against the queue and produces the reply its caller receives. */
  function Dispatch(q: Queue, c: Call): (r: (Queue, Reply))
    ensures r.0.counter >= q.counter
    ensures r.1.JobRecord? <==> c.GetJobCall? && q.jobs != []
    ensures r.1.JobRecord? ==> r.1.job in q.jobs
    ensures c.ClearJobQCall? ==> r == (Queue([], q.counter), Code(0))
    ensures r.1.Code? ==> r.1.code == 0 || r.1.code == 4
  {
    match c
    case AddJobCall(t, p) =>
      var a := AddJob(q, t, p);
      (a.queue, Code(StatusCode(a.status)))
    case GetJobCall =>
      var g := GetJob(q);
      (match g.taken
       case Empty => (g.queue, Code(0))
       case Taken(j) =>
         assert j in multiset(q.jobs);
         (g.queue, JobRecord(j)))
    case ClearJobQCall =>
      var cl := ClearJobQ(q);
      (cl.queue, Code(cl.code))
  }

  /** Serves a sequence of calls one after another, collecting one reply per call. */
  function Serve(q: Queue, calls: seq<Call>): (r: (Queue, seq<Reply>))
    ensures |r.1| == |calls|
    ensures r.0.counter >= q.counter
    decreases |calls|
  {
    if |calls| == 0 then
      (q, [])
    else
      var d := Dispatch(q, calls[0]);
      var rest := Serve(d.0, calls[1..]);
      (rest.0, [d.1] + rest.1)
  }

  /** Every call keeps the queue invariant. */
  lemma DispatchKeepsValid(q: Queue, c: Call)
    requires Valid(q)
    ensures Valid(Dispatch(q, c).0)
  {
    match c
    case AddJobCall(t, p) =>
      var i := FindTask(q.jobs, t);
      if i.None? {
        AddNewTask(q, t, p);
      } else if q.jobs[i.value].priority != p {
        AddNewPriority(q, t, p, i.value);
      }
    case GetJobCall =>
      if q.jobs != [] {
        GetTakesMinimum(q);
      }
    case ClearJobQCall =>
  }

  /** Any sequence of calls, served one at a time, keeps the queue invariant. */
  lemma {:induction false} ServeKeepsValid(q: Queue, calls: seq<Call>)
    requires Valid(q)
    ensures Valid(Serve(q, calls).0)
    decreases |calls|
  {
    if |calls| > 0 {
      DispatchKeepsValid(q, calls[0]);
      ServeKeepsValid(Dispatch(q, calls[0]).0, calls[1..]);
    }
  }

  /** Serving a call whose dispatch is known, and then the rest, is serving the whole sequence. */
  lemma ServeStep(q: Queue, c: Call, rest: seq<Call>, q': Queue, reply: Reply)
    requires Dispatch(q, c) == (q', reply)
    ensures Serve(q, [c] + rest) == (Serve(q', rest).0, [reply] + Serve(q', rest).1)
  {
    assert ([c] + rest)[0] == c;
    assert ([c] + rest)[1..] == rest;
  }

  /** Whatever was queued, clearjobq followed by getjob replies 0 twice and leaves an empty queue. */
  lemma ClearThenGetRepliesZero(q: Queue)
    ensures Serve(q, [ClearJobQCall, GetJobCall]) == (Queue([], q.counter), [Code(0), Code(0)])
  {
    var c := Queue([], q.counter);
    assert Serve(c, []) == (c, []);
    ServeStep(c, GetJobCall, [], c, Code(0));
    assert [GetJobCall] + [] == [GetJobCall];
    assert [Code(0)] + [] == [Code(0)];
    ServeStep(q, ClearJobQCall, [GetJobCall], c, Code(0));
    assert [ClearJobQCall] + [GetJobCall] == [ClearJobQCall, GetJobCall];
    assert [Code(0)] + [Code(0)] == [Code(0), Code(0)];
  }

  /** A task added to an empty queue becomes its only entry, under the next job number, and the reply is 0. */
  lemma AddToEmpty(n: nat, task: Task, priority: int)
    ensures Dispatch(Queue([], n), AddJobCall(task, priority)) == (Queue([Job(priority, n + 1, task)], n + 1), Code(0))
  {
    assert [] + [Job(priority, n + 1, task)] == [Job(priority, n + 1, task)];
    assert Sort([Job(priority, n + 1, task)]) == [Job(priority, n + 1, task)];
  }

  /** A new task with a smaller key than the single queued entry goes behind it, at the end; the reply is 0. */
  lemma AddBehindSingle(j: Job, n: nat, task: Task, priority: int)
    requires j.task != task
    requires KeyLt(Job(priority, n + 1, task), j)
    ensures Dispatch(Queue([j], n), AddJobCall(task, priority)) == (Queue([j, Job(priority, n + 1, task)], n + 1), Code(0))
  {
    var e := Job(priority, n + 1, task);
    assert FindTask([j], task) == None;
    assert [j] + [e] == [j, e];
    SortPair(j, e);
  }

  /** Sorting two entries puts the one with the larger key first. */
  lemma SortPair(a: Job, b: Job)
    ensures KeyLe(b, a) ==> Sort([a, b]) == [a, b]
    ensures !KeyLe(b, a) ==> Sort([a, b]) == [b, a]
  {
    assert [a, b][1..] == [b];
    assert [b][1..] == [];
    assert Sort([b]) == Insert(b, []) == [b];
    assert Insert(a, []) == [a];
    assert Insert(a, [b]) == if KeyLe(b, a) then [a] + [b] else [b] + [a];
    assert [a] + [b] == [a, b];
    assert [b] + [a] == [b, a];
  }

  /** Re-adding the task of the first of two entries at its own priority changes nothing and replies 4. */
  lemma RepeatFirst(j1: Job, j2: Job, n: nat)
    ensures Dispatch(Queue([j1, j2], n), AddJobCall(j1.task, j1.priority)) == (Queue([j1, j2], n), Code(4))
  {
    assert FindTask([j1, j2], j1.task) == Some(0);
  }

  /** getjob on a non-empty queue replies with its last entry and leaves the others. */
  lemma GetLast(jobs: seq<Job>, n: nat)
    requires jobs != []
    ensures Dispatch(Queue(jobs, n), GetJobCall) == (Queue(jobs[..|jobs| - 1], n), JobRecord(jobs[|jobs| - 1]))
  {
  }

  /**
   On an empty queue, two different tasks at priorities 5 and 1 and a repeated first task: the repeat is
   ignored with 4, priority 1 runs first, then priority 5, then getjob replies 0.
   */
  lemma ScenarioLowerPriorityFirst(n: nat, a: Task, b: Task)
    requires a != b
    ensures Serve(Queue([], n), [AddJobCall(a, 5), AddJobCall(b, 1), AddJobCall(a, 5), GetJobCall, GetJobCall, GetJobCall]).1
            == [Code(0), Code(0), Code(4), JobRecord(Job(1, n + 2, b)), JobRecord(Job(5, n + 1, a)), Code(0)]
  {
    var ja, jb := Job(5, n + 1, a), Job(1, n + 2, b);
    var q0, q1, q2, q3 := Queue([], n), Queue([ja], n + 1), Queue([ja, jb], n + 2), Queue([ja], n + 2);
    var q4 := Queue([], n + 2);
    AddToEmpty(n, a, 5);
    AddBehindSingle(ja, n + 1, b, 1);
    RepeatFirst(ja, jb, n + 2);
    GetLast([ja, jb], n + 2);
    assert [ja, jb][..1] == [ja];
    GetLast([ja], n + 2);
    var t5: seq<Call> := [];
    var t4 := [GetJobCall] + t5;
    var t3 := [GetJobCall] + t4;
    var t2 := [GetJobCall] + t3;
    var t1 := [AddJobCall(a, 5)] + t2;
    var t0 := [AddJobCall(b, 1)] + t1;
    assert Serve(q4, t5) == (q4, []);
    ServeStep(q4, GetJobCall, t5, q4, Code(0));
    ServeStep(q3, GetJobCall, t4, q4, JobRecord(ja));
    ServeStep(q2, GetJobCall, t3, q3, JobRecord(jb));
    ServeStep(q2, AddJobCall(a, 5), t2, q2, Code(4));
    ServeStep(q1, AddJobCall(b, 1), t1, q2, Code(0));
    ServeStep(q0, AddJobCall(a, 5), t0, q1, Code(0));
    assert [AddJobCall(a, 5)] + t0 == [AddJobCall(a, 5), AddJobCall(b, 1), AddJobCall(a, 5), GetJobCall, GetJobCall, GetJobCall];
  }
}
