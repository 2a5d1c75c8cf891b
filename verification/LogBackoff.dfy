/** The back-off of the log broadcaster (backend/gaf_core/handlers.py, _broadcast_to_logs_group):
    two class-level variables decide when a failed broadcast may be tried again. */
module LogBackoff {

  const FIRST_WAIT: real := 60.0
  const LONGEST_WAIT: real := 300.0

  datatype Attempt = Skipped | NoLayer | Sent | Failed

  function Min(a: real, b: real): real { if a <= b then a else b }

  /** The two variables after an attempt. */
  function After(st: (real, real), now: real, outcome: Attempt): (real, real) {
    match outcome
    case Skipped => st
    case NoLayer => st
    case Sent => (0.0, FIRST_WAIT)
    case Failed => (now + st.1, Min(st.1 * 2.0, LONGEST_WAIT))
  }

  class FileLogHandler {
    var disabledUntil: real
    var retryInterval: real

    function State(): (real, real)
      reads this
    {
      (disabledUntil, retryInterval)
    }

    constructor ()
      ensures State() == (0.0, FIRST_WAIT)
    {
      disabledUntil, retryInterval := 0.0, FIRST_WAIT;
    }

    /** `result` is what the channel layer does when it is asked. */
    method Broadcast(now: real, result: Attempt) returns (outcome: Attempt)
      requires result != Skipped
      modifies this
      ensures outcome == Skipped <==> now < old(disabledUntil)
      ensures outcome != Skipped ==> outcome == result
      ensures State() == After(old(State()), now, outcome)
    {
      if now < disabledUntil {
        return Skipped;
      }
      match result {
        case NoLayer =>
        case Sent =>
          disabledUntil, retryInterval := 0.0, FIRST_WAIT;
        case Failed =>
          disabledUntil := now + retryInterval;
          retryInterval := Min(retryInterval * 2.0, LONGEST_WAIT);
      }
      outcome := result;
    }
  }

  // ----- runs -----

  datatype Event = Event(now: real, outcome: Attempt)

  /** A run of calls in time order; a call is skipped exactly while the broadcast is disabled. */
  ghost predicate IsRun(st: (real, real), clock: real, run: seq<Event>)
    decreases |run|
  {
    run == [] ||
    (clock <= run[0].now && (run[0].outcome == Skipped <==> run[0].now < st.0)
     && IsRun(After(st, run[0].now, run[0].outcome), run[0].now, run[1..]))
  }

  function Final(st: (real, real), run: seq<Event>): (real, real)
    decreases |run|
  {
    if run == [] then st else Final(After(st, run[0].now, run[0].outcome), run[1..])
  }

  /** The failures since the last success: skipped calls and calls without a layer do not count. */
  function Failures(k: nat, run: seq<Event>): nat
    decreases |run|
  {
    if run == [] then k
    else Failures(match run[0].outcome case Failed => k + 1 case Sent => 0 case _ => k, run[1..])
  }

  function Pow2(k: nat): real {
    if k == 0 then 1.0 else 2.0 * Pow2(k - 1)
  }

  /** min(60 * 2^k, 300). */
  function Wait(k: nat): real {
    Min(FIRST_WAIT * Pow2(k), LONGEST_WAIT)
  }

  lemma {:induction false} Pow2Grows(k: nat)
    ensures Pow2(k) >= 1.0 && (k >= 3 ==> Pow2(k) >= 8.0)
    decreases k
  {
    if k > 0 { Pow2Grows(k - 1); }
    if k == 3 { assert Pow2(1) == 2.0 && Pow2(2) == 4.0; }
  }

  /** Doubling and capping gives the closed form. */
  lemma WaitStep(k: nat)
    ensures Min(Wait(k) * 2.0, LONGEST_WAIT) == Wait(k + 1)
  {
  }

  /** Over every run the retry interval is min(60 * 2^k, 300) after k consecutive failures. */
  lemma {:induction false} IntervalIsWait(st: (real, real), k: nat, run: seq<Event>)
    requires st.1 == Wait(k)
    ensures Final(st, run).1 == Wait(Failures(k, run))
    decreases |run|
  {
    if run != [] {
      WaitStep(k);
      Pow2Grows(0);
      var next := match run[0].outcome case Failed => k + 1 case Sent => 0 case _ => k;
      IntervalIsWait(After(st, run[0].now, run[0].outcome), next, run[1..]);
    }
  }

  /** Time of the last failing attempt in a run, or `t` if there is none. */
  function LastFailure(t: real, run: seq<Event>): real
    decreases |run|
  {
    if run == [] then t
    else LastFailure(if run[0].outcome == Failed then run[0].now else t, run[1..])
  }

  /** Over every run: after a success, and before any failure, no call at any time is skipped; otherwise
      calls are skipped for exactly min(60 * 2^k, 300) seconds after the last failing attempt, the
      (k + 1)-st in a row. */
  lemma {:induction false} DisabledExactly(st: (real, real), k: nat, t: real, clock: real, run: seq<Event>)
    requires IsRun(st, clock, run) && 0.0 <= clock
    requires st == if k == 0 then (0.0, FIRST_WAIT) else (t + Wait(k - 1), Wait(k))
    ensures var n, until := Failures(k, run), Final(st, run).0;
            if n == 0 then until == 0.0 else until == LastFailure(t, run) + Wait(n - 1)
    decreases |run|
  {
    Pow2Grows(0);
    if run != [] {
      var e := run[0];
      var next := After(st, e.now, e.outcome);
      assert Wait(0) == FIRST_WAIT;
      match e.outcome {
        case Failed =>
          WaitStep(k);
          DisabledExactly(next, k + 1, e.now, e.now, run[1..]);
        case Sent => DisabledExactly(next, 0, t, e.now, run[1..]);
        case _ => DisabledExactly(next, k, t, e.now, run[1..]);
      }
    }
  }

  /** The waits before each of `n` further failures, after `k` earlier ones. */
  function TotalWait(k: nat, n: nat): real
    decreases n
  {
    if n == 0 then 0.0 else Wait(k) + TotalWait(k + 1, n - 1)
  }

  ghost predicate NeverSent(run: seq<Event>) {
    forall i :: 0 <= i < |run| ==> run[i].outcome != Sent
  }

  lemma {:induction false} FailuresShift(k: nat, run: seq<Event>)
    requires NeverSent(run)
    ensures Failures(k, run) == k + Failures(0, run)
    decreases |run|
  {
    if run != [] {
      assert run[0].outcome != Sent;
      assert NeverSent(run[1..]) by {
        forall i | 0 <= i < |run[1..]| ensures run[1..][i].outcome != Sent { assert run[1..][i] == run[i + 1]; }
      }
      FailuresShift(if run[0].outcome == Failed then k + 1 else k, run[1..]);
      FailuresShift(if run[0].outcome == Failed then 1 else 0, run[1..]);
    }
  }

  /** From a failure at time `t` on, each later failure waits out the interval then in force. */
  lemma {:induction false} FailuresSpread(t: real, k: nat, clock: real, run: seq<Event>)
    requires IsRun((t + Wait(k), Wait(k + 1)), clock, run) && NeverSent(run)
    ensures LastFailure(t, run) >= t + TotalWait(k, Failures(0, run))
    decreases |run|
  {
    if run != [] {
      assert NeverSent(run[1..]) by {
        forall i | 0 <= i < |run[1..]| ensures run[1..][i].outcome != Sent { assert run[1..][i] == run[i + 1]; }
      }
      assert run[0].outcome != Sent;
      if run[0].outcome == Failed {
        WaitStep(k + 1);
        FailuresSpread(run[0].now, k + 1, run[0].now, run[1..]);
        FailuresShift(1, run[1..]);
      } else {
        FailuresSpread(t, k, run[0].now, run[1..]);
      }
    }
  }

  lemma {:induction false} LongWaits(k: nat, n: nat)
    requires k >= 3
    ensures TotalWait(k, n) == LONGEST_WAIT * n as real
    decreases n
  {
    Pow2Grows(k);
    if n > 0 { LongWaits(k + 1, n - 1); }
  }

  /** 60 + 120 + 240 + 300 * (n - 4) seconds before the n-th failure in a row, n >= 4. */
  lemma TotalWaitClosed(n: nat)
    requires n >= 4
    ensures TotalWait(0, n - 1) == 420.0 + LONGEST_WAIT * (n - 4) as real
  {
    LongWaits(3, n - 4);
    assert Pow2(1) == 2.0 && Pow2(2) == 4.0;
    assert Wait(0) == 60.0 && Wait(1) == 120.0 && Wait(2) == 240.0;
    assert TotalWait(2, n - 3) == 240.0 + TotalWait(3, n - 4);
    assert TotalWait(1, n - 2) == 120.0 + TotalWait(2, n - 3);
  }

  /** Starting fresh, n >= 4 failing attempts without a success in between span at least
      420 + 300 * (n - 4) seconds, however often the handler is called. */
  lemma OutageIsQuiet(first: real, run: seq<Event>)
    requires IsRun(After((0.0, FIRST_WAIT), first, Failed), first, run) && NeverSent(run)
    requires 1 + Failures(0, run) >= 4
    ensures LastFailure(first, run) - first >= 420.0 + LONGEST_WAIT * (1 + Failures(0, run) - 4) as real
  {
    Pow2Grows(0);
    WaitStep(0);
    assert Wait(0) == FIRST_WAIT;
    FailuresSpread(first, 0, first, run);
    TotalWaitClosed(1 + Failures(0, run));
  }
}
