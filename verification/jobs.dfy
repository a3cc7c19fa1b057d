/**
 Entries of the bots job queue and the order in which the queue hands them out.

 An entry is the three-element list `[priority, jobnumber, task]` of the job
 queue server. The queue keeps its entries sorted in DESCENDING order and takes
 jobs from the end, so the entry with the smallest (priority, job number) pair
 is the next one to run.
 */
module Jobs {

  /** A command line: the program followed by its arguments. It is only ever compared for equality. */
  type Task = seq<string>

  /** One queue entry. `jobNumber` is handed out by the queue's job counter. */
  datatype Job = Job(priority: int, jobNumber: nat, task: Task)

  /** `a` comes no later than `b` in (priority, job number) order. */
  predicate KeyLe(a: Job, b: Job) {
    a.priority < b.priority || (a.priority == b.priority && a.jobNumber <= b.jobNumber)
  }

  /** `a` comes strictly before `b` in (priority, job number) order. */
  predicate KeyLt(a: Job, b: Job) {
    a.priority < b.priority || (a.priority == b.priority && a.jobNumber < b.jobNumber)
  }

  /** The order `list.sort(reverse=True)` leaves behind: larger keys first, the smallest key last. */
  ghost predicate SortedDesc(s: seq<Job>) {
    forall i, k | 0 <= i < k < |s| :: KeyLe(s[k], s[i])
  }

  /** No two entries carry the same task. */
  ghost predicate DistinctTasks(s: seq<Job>) {
    forall i, k | 0 <= i < k < |s| :: s[i].task != s[k].task
  }

  /** No two entries carry the same job number. */
  ghost predicate DistinctNumbers(s: seq<Job>) {
    forall i, k | 0 <= i < k < |s| :: s[i].jobNumber != s[k].jobNumber
  }

  /** Puts `j` into the descending list `s` in front of the first entry whose key is not larger. */
  function Insert(j: Job, s: seq<Job>): (r: seq<Job>)
    ensures |r| == |s| + 1
  {
    if |s| == 0 || KeyLe(s[0], j) then [j] + s else [s[0]] + Insert(j, s[1..])
  }

  /**
   The re-sort performed after every change of the queue, as an insertion sort.
   Any sort yields the same list on a queue whose keys are distinct
   (see SortedPermutationUnique).
   */
  function Sort(s: seq<Job>): (r: seq<Job>)
    ensures |r| == |s|
  {
    if |s| == 0 then [] else Insert(s[0], Sort(s[1..]))
  }

  /** Inserting into a descending list keeps it descending and adds exactly the one entry. */
  lemma {:induction false} InsertOrders(j: Job, s: seq<Job>)
    requires SortedDesc(s)
    ensures SortedDesc(Insert(j, s))
    ensures multiset(Insert(j, s)) == multiset(s) + multiset{j}
  {
    if |s| > 0 && !KeyLe(s[0], j) {
      var t := Insert(j, s[1..]);
      assert SortedDesc(s[1..]) by {
        forall i, k | 0 <= i < k < |s[1..]| ensures KeyLe(s[1..][k], s[1..][i]) {
          assert s[1..][i] == s[i + 1] && s[1..][k] == s[k + 1];
        }
      }
      InsertOrders(j, s[1..]);
      assert s == [s[0]] + s[1..];
      forall k | 0 <= k < |t| ensures KeyLe(t[k], s[0]) {
        assert t[k] in multiset(s[1..]) + multiset{j};
        if t[k] != j {
          var m :| 0 <= m < |s[1..]| && s[1..][m] == t[k];
          assert s[1..][m] == s[m + 1];
        }
      }
      assert Insert(j, s) == [s[0]] + t;
    }
  }

  /** Sorting yields a descending rearrangement of its input. */
  lemma {:induction false} SortOrders(s: seq<Job>)
    ensures SortedDesc(Sort(s))
    ensures multiset(Sort(s)) == multiset(s)
  {
    if |s| > 0 {
      SortOrders(s[1..]);
      InsertOrders(s[0], Sort(s[1..]));
      assert s == [s[0]] + s[1..];
    }
  }

  /** An entry of a list with distinct tasks occurs in it at most once. */
  lemma {:induction false} OccursAtMostOnce(s: seq<Job>, x: Job)
    requires DistinctTasks(s)
    ensures multiset(s)[x] <= 1
  {
    if |s| > 0 {
      assert s == [s[0]] + s[1..];
      OccursAtMostOnce(s[1..], x);
      if s[0] == x {
        assert x !in s[1..] by {
          forall k | 0 <= k < |s[1..]| ensures s[1..][k] != x {
            assert s[1..][k] == s[k + 1];
          }
        }
      }
    }
  }

  /** Rearranging a list keeps its tasks and its job numbers distinct. */
  lemma PermutationKeepsDistinct(a: seq<Job>, b: seq<Job>)
    requires multiset(a) == multiset(b)
    requires DistinctTasks(a) && DistinctNumbers(a)
    ensures DistinctTasks(b) && DistinctNumbers(b)
  {
    forall i, k | 0 <= i < k < |b|
      ensures b[i].task != b[k].task && b[i].jobNumber != b[k].jobNumber
    {
      var x, y := b[i], b[k];
      if x == y {
        assert b == b[..k] + b[k..];
        assert x in b[..k];
        assert y in b[k..];
        assert multiset(b)[x] == multiset(b[..k])[x] + multiset(b[k..])[x];
        OccursAtMostOnce(a, x);
        assert false;
      } else {
        assert x in multiset(a) && y in multiset(a);
        var i' :| 0 <= i' < |a| && a[i'] == x;
        var k' :| 0 <= k' < |a| && a[k'] == y;
        assert i' != k';
        if i' < k' {
          assert a[i'].task != a[k'].task && a[i'].jobNumber != a[k'].jobNumber;
        } else {
          assert a[k'].task != a[i'].task && a[k'].jobNumber != a[i'].jobNumber;
        }
      }
    }
  }

  /** In a descending list with distinct job numbers every key is strictly smaller than the ones before it. */
  lemma SortedDistinctIsStrict(s: seq<Job>)
    requires SortedDesc(s) && DistinctNumbers(s)
    ensures forall i, k | 0 <= i < k < |s| :: KeyLt(s[k], s[i])
  {
  }

  /** Two descending arrangements of the same entries, one with distinct job numbers, start with the same entry. */
  lemma SameFirst(a: seq<Job>, b: seq<Job>)
    requires multiset(a) == multiset(b)
    requires SortedDesc(a) && SortedDesc(b)
    requires DistinctNumbers(a)
    requires |a| > 0 && |b| > 0
    ensures a[0] == b[0]
  {
    assert b[0] in multiset(a);
    var i :| 0 <= i < |a| && a[i] == b[0];
    assert a[0] in multiset(b);
    var k :| 0 <= k < |b| && b[k] == a[0];
    assert KeyLe(b[k], b[0]);
  }

  /** Dropping the first entry keeps a list descending with distinct job numbers. */
  lemma TailKeepsOrder(a: seq<Job>)
    requires |a| > 0
    requires SortedDesc(a) && DistinctNumbers(a)
    ensures SortedDesc(a[1..]) && DistinctNumbers(a[1..])
  {
    forall i, k | 0 <= i < k < |a[1..]|
      ensures KeyLe(a[1..][k], a[1..][i]) && a[1..][i].jobNumber != a[1..][k].jobNumber
    {
      assert a[1..][i] == a[i + 1] && a[1..][k] == a[k + 1];
    }
  }

  /**
   A list with distinct job numbers has only one descending arrangement, so
   the result of re-sorting does not depend on the sorting algorithm used.
   */
  lemma {:induction false} SortedPermutationUnique(a: seq<Job>, b: seq<Job>)
    requires multiset(a) == multiset(b)
    requires SortedDesc(a) && SortedDesc(b)
    requires DistinctNumbers(a)
    ensures a == b
  {
    assert |a| == |multiset(a)| == |multiset(b)| == |b|;
    if |a| > 0 {
      SameFirst(a, b);
      assert a == [a[0]] + a[1..];
      assert b == [b[0]] + b[1..];
      assert multiset(a[1..]) == multiset(a) - multiset{a[0]};
      assert multiset(b[1..]) == multiset(b) - multiset{b[0]};
      TailKeepsOrder(a);
      assert SortedDesc(b[1..]) by {
        forall i, k | 0 <= i < k < |b[1..]| ensures KeyLe(b[1..][k], b[1..][i]) {
          assert b[1..][i] == b[i + 1] && b[1..][k] == b[k + 1];
        }
      }
      SortedPermutationUnique(a[1..], b[1..]);
    }
  }
}
