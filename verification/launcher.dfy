/**
 The launcher loop of the bots job queue server, reduced to its failure
 counting. Every pass of the loop polls the queue once and ends in one of
 three ways: a job was started and ran to its end, the queue was empty, or an
 exception was raised. Consecutive exceptions are counted; a finished job
 resets the count, an empty poll leaves it alone, and at the tenth consecutive
 exception the launcher calls `sys.exit(1)`. That call runs in the launcher's
 own daemon thread, so it ends only that thread: the XML-RPC server goes on
 serving (and queueing) requests that no launcher will run any more.
 */
module Launcher {

  /** How one pass of the launcher loop ended. */
  datatype Event =
    | JobCompleted  // getjob handed out a job and the job's process ended (its exit status is not looked at)
    | EmptyPoll     // getjob replied with the sentinel 0
    | Failure       // an exception was raised somewhere in the pass

  /**
   The launcher between two passes: still polling with a count of consecutive
   failures, or stopped. `exitCode` is the argument the launcher thread passed
   to `sys.exit`; it ends that thread and is not a status of the process.
   */
  datatype State = Running(failures: nat) | Stopped(exitCode: int)

  /** The number of consecutive failures at which the launcher gives up. */
  const MaxConsecutiveFailures: nat := 10

  /** The argument of the launcher's `sys.exit` call. */
  const FailureExitCode: int := 1

  /** One pass of the loop. */
  function Step(s: State, e: Event): (r: State)
    ensures s.Stopped? ==> r == s
    ensures r.Running? ==> r.failures < MaxConsecutiveFailures || (s.Running? && r == s)
    ensures s.Running? && e == JobCompleted ==> r == Running(0)
    ensures s.Running? && e == EmptyPoll ==> r == s
    ensures s.Running? && e == Failure && r.Running? ==> r.failures == s.failures + 1
    ensures s.Running? && e == Failure ==> (r.Running? <==> s.failures + 1 < MaxConsecutiveFailures)
    ensures r.Stopped? && s.Running? ==> e == Failure && r.exitCode == FailureExitCode
  {
    match s
    case Stopped(_) => s
    case Running(n) =>
      match e
      case JobCompleted => Running(0)
      case EmptyPoll => s
      case Failure =>
        if n + 1 >= MaxConsecutiveFailures then Stopped(FailureExitCode) else Running(n + 1)
  }

  /** The launcher after the given passes, starting with no failures counted. */
  function Run(events: seq<Event>): (r: State)
    ensures r.Running? ==> r.failures < MaxConsecutiveFailures
    ensures r.Stopped? ==> r.exitCode == FailureExitCode
  {
    if |events| == 0 then Running(0) else Step(Run(events[..|events| - 1]), events[|events| - 1])
  }

  /** Reference count: the failures since the last completed job, ignoring empty polls. */
  function FailureStreak(events: seq<Event>): (r: nat)
    ensures r <= |events|
  {
    if |events| == 0 then
      0
    else
      match events[|events| - 1]
      case JobCompleted => 0
      case EmptyPoll => FailureStreak(events[..|events| - 1])
      case Failure => FailureStreak(events[..|events| - 1]) + 1
  }

  /** At some point during the passes, the streak of failures reached the limit. */
  ghost predicate LimitReached(events: seq<Event>) {
    exists k | 0 <= k <= |events| :: FailureStreak(events[..k]) >= MaxConsecutiveFailures
  }

  /**
   The launcher is stopped with exit code 1 exactly when the failure streak
   reached the limit at some point; otherwise it is running and its counter is
   the current failure streak.
   */
  lemma {:induction false} RunMatchesStreak(events: seq<Event>)
    ensures Run(events) == if LimitReached(events) then Stopped(FailureExitCode) else Running(FailureStreak(events))
    decreases |events|
  {
    if |events| == 0 {
      assert !LimitReached(events) by {
        forall k | 0 <= k <= |events| ensures FailureStreak(events[..k]) < MaxConsecutiveFailures {
          assert events[..k] == [];
        }
      }
    } else {
      var p := events[..|events| - 1];
      RunMatchesStreak(p);
      PrefixOfPrefix(events, p);
      if LimitReached(p) {
        var k :| 0 <= k <= |p| && FailureStreak(p[..k]) >= MaxConsecutiveFailures;
        assert events[..k] == p[..k];
      } else {
        assert p[..|p|] == p;
        assert events[..|events|] == events;
        assert LimitReached(events) <==> FailureStreak(events) >= MaxConsecutiveFailures by {
          forall k | 0 <= k <= |p| ensures FailureStreak(events[..k]) < MaxConsecutiveFailures {
            assert events[..k] == p[..k];
          }
        }
      }
    }
  }

  /** A prefix of the passes but the last is a prefix of all of them. */
  lemma PrefixOfPrefix(events: seq<Event>, p: seq<Event>)
    requires |events| > 0 && p == events[..|events| - 1]
    ensures forall k | 0 <= k <= |p| :: events[..k] == p[..k]
  {
  }

  /** A running launcher never has as many failures counted as the limit. */
  lemma RunningBelowLimit(events: seq<Event>)
    ensures Run(events).Running? ==> Run(events).failures < MaxConsecutiveFailures
  {
    RunMatchesStreak(events);
    if !LimitReached(events) {
      assert events[..|events|] == events;
    }
  }

  /** Once stopped, the launcher stays stopped whatever comes after. */
  lemma {:induction false} StoppedStaysStopped(events: seq<Event>, more: seq<Event>)
    requires Run(events).Stopped?
    ensures Run(events + more) == Run(events)
    decreases |more|
  {
    if |more| > 0 {
      var m := more[..|more| - 1];
      StoppedStaysStopped(events, m);
      assert (events + more)[..|events + more| - 1] == events + m;
    } else {
      assert events + more == events;
    }
  }

  /** A completed job resets a running launcher's counter, whatever came before. */
  lemma CompletionResets(events: seq<Event>)
    requires Run(events).Running?
    ensures Run(events + [JobCompleted]) == Running(0)
  {
    assert (events + [JobCompleted])[..|events|] == events;
  }

  /** An empty poll leaves the launcher exactly as it was. */
  lemma EmptyPollChangesNothing(events: seq<Event>)
    ensures Run(events + [EmptyPoll]) == Run(events)
  {
    assert (events + [EmptyPoll])[..|events|] == events;
  }

  /** `n` failures in a row. */
  function Failures(n: nat): (r: seq<Event>)
    ensures |r| == n
    ensures forall i | 0 <= i < n :: r[i] == Failure
  {
    if n == 0 then [] else Failures(n - 1) + [Failure]
  }

  /** From a fresh start, fewer than ten failures in a row are counted one by one; the tenth stops the launcher. */
  lemma {:induction false} FailuresInARow(n: nat)
    ensures n < MaxConsecutiveFailures ==> Run(Failures(n)) == Running(n)
    ensures n >= MaxConsecutiveFailures ==> Run(Failures(n)) == Stopped(FailureExitCode)
  {
    if n > 0 {
      FailuresInARow(n - 1);
      assert Failures(n)[..n - 1] == Failures(n - 1);
      if n - 1 >= MaxConsecutiveFailures {
        StoppedStaysStopped(Failures(n - 1), [Failure]);
      }
    }
  }

  /** Nine failures and then a completed job: the launcher keeps running with its counter back at zero. */
  lemma NineFailuresThenCompletion()
    ensures Run(Failures(9) + [JobCompleted]) == Running(0)
  {
    FailuresInARow(9);
    CompletionResets(Failures(9));
  }

  /** Nine failures, an empty poll and one more failure: the empty poll does not reset, so the launcher stops. */
  lemma EmptyPollDoesNotReset()
    ensures Run(Failures(9) + [EmptyPoll, Failure]) == Stopped(FailureExitCode)
  {
    FailuresInARow(9);
    var s := Failures(9) + [EmptyPoll];
    EmptyPollChangesNothing(Failures(9));
    assert Failures(9) + [EmptyPoll, Failure] == s + [Failure];
    assert (s + [Failure])[..|s|] == s;
  }
}
