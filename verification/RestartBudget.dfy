/** The sliding-window restart budget of the service daemon (scripts/gaf_daemon.py): a per-service
    list of restart timestamps, guarded on the crash path only, appended to without a guard by
    health-triggered and manual restarts, and wiped by a port reconcile. */
module RestartBudget {
  import opened Prelude

  const MAX_RESTART_COUNT: nat := 3
  const RESTART_WINDOW: real := 1800.0

  /** The timestamps still inside the window at time `now`, in order. */
  function Recent(times: seq<real>, now: real): seq<real> {
    if times == [] then []
    else (if now - times[0] < RESTART_WINDOW then [times[0]] else []) + Recent(times[1..], now)
  }

  /** Every entry is judged on its own, by its age alone, and the order stays. */
  lemma {:induction false} RecentMeaning(before: seq<real>, t: real, after: seq<real>, now: real)
    ensures Recent([], now) == []
    ensures Recent(before + [t] + after, now)
         == Recent(before, now) + (if now - t < 1800.0 then [t] else []) + Recent(after, now)
    decreases |before|
  {
    var times := before + [t] + after;
    if before == [] {
      assert times[1..] == after;
    } else {
      assert times[1..] == before[1..] + [t] + after;
      RecentMeaning(before[1..], t, after, now);
    }
  }

  // ----- one service -----

  datatype Process = NoProcess | Running(pid: nat) | Exited(pid: nat)
  datatype Verdict = Alive | Reconciled | Restarted | Refused

  /** What can happen to the history of a service, with the clock reads it involves. */
  datatype Event =
    | Idle
    | Crash(asked: real, cleaned: real, stamped: real)
    | Turned(asked: real)
    | Manual(cleaned: real, stamped: real)
    | Reconcile

  function EventOf(v: Verdict, asked: real, cleaned: real, stamped: real): Event {
    match v
    case Alive => Idle
    case Reconciled => Reconcile
    case Restarted => Crash(asked, cleaned, stamped)
    case Refused => Turned(asked)
  }

  /** The history, its entries and count, after an event. */
  function Apply(h: (seq<real>, nat), e: Event): (seq<real>, nat) {
    match e
    case Idle => h
    case Crash(asked, cleaned, stamped) =>
      var times := Recent(Recent(h.0, asked), cleaned) + [stamped]; (times, |times|)
    case Turned(asked) => (Recent(h.0, asked), |Recent(h.0, asked)|)
    case Manual(cleaned, stamped) => var times := Recent(h.0, cleaned) + [stamped]; (times, |times|)
    case Reconcile => ([], 0)
  }

  class ServiceInfo {
    var process: Process
    var restartTimes: seq<real>
    var restartCount: nat

    constructor ()
      ensures process == NoProcess && restartTimes == [] && restartCount == 0
    {
      process, restartTimes, restartCount := NoProcess, [], 0;
    }

    method CleanRestartHistory(now: real)
      modifies this`restartTimes, this`restartCount
      ensures restartTimes == Recent(old(restartTimes), now) && restartCount == |restartTimes|
    {
      restartTimes := Recent(restartTimes, now);
      restartCount := |restartTimes|;
    }

    method CanRestart(now: real) returns (ok: bool)
      modifies this`restartTimes, this`restartCount
      ensures restartTimes == Recent(old(restartTimes), now) && restartCount == |restartTimes|
      ensures ok <==> |Recent(old(restartTimes), now)| < 3
    {
      CleanRestartHistory(now);
      ok := restartCount < MAX_RESTART_COUNT;
    }

    /** The clock is read twice: once to clean, once for the new entry. */
    method RecordRestart(cleaned: real, stamped: real)
      modifies this`restartTimes, this`restartCount
      ensures restartTimes == Recent(old(restartTimes), cleaned) + [stamped]
      ensures restartCount == |restartTimes|
    {
      CleanRestartHistory(cleaned);
      restartTimes := restartTimes + [stamped];
      restartCount := |restartTimes|;
    }

    /** `spawned` is what became of the launch: NoProcess when Popen raised. */
    method Start(spawned: Process) returns (ok: bool)
      modifies this`process
      ensures old(process).Running? ==> ok && process == old(process)
      ensures !old(process).Running? ==> process == spawned && ok == !spawned.NoProcess?
    {
      if process.Running? {
        return true;
      }
      process := spawned;
      ok := !spawned.NoProcess?;
    }

    function History(): (seq<real>, nat)
      reads this
    {
      (restartTimes, restartCount)
    }

    /** The watchdog's look at one service (lines 833-871). */
    method Watch(portListening: bool, asked: real, spawned: Process, cleaned: real, stamped: real)
        returns (verdict: Verdict)
      requires asked <= cleaned <= stamped
      modifies this
      ensures verdict == Alive <==> old(process).Running?
      ensures verdict == Reconciled <==> !old(process).Running? && portListening
      ensures verdict == Restarted <==>
                !old(process).Running? && !portListening && |Recent(old(restartTimes), asked)| < MAX_RESTART_COUNT
      ensures History() == Apply(old(History()), EventOf(verdict, asked, cleaned, stamped))
      ensures verdict == Restarted ==> process == spawned
      ensures verdict == Reconciled ==> process == NoProcess
      ensures verdict in {Alive, Refused} ==> process == old(process)
    {
      if process.Running? {
        return Alive;
      }
      if portListening {
        process, restartTimes, restartCount := NoProcess, [], 0;
        return Reconciled;
      }
      var ok := CanRestart(asked);
      if !ok {
        return Refused;
      }
      var _ := Start(spawned);
      RecordRestart(cleaned, stamped);
      return Restarted;
    }

    /** `restart_service`: the health and manual path, counted but never refused. */
    method Restart(spawned: Process, cleaned: real, stamped: real) returns (ok: bool)
      requires cleaned <= stamped
      modifies this
      ensures ok == !spawned.NoProcess? && process == spawned
      ensures History() == Apply(old(History()), if spawned.Running? then Manual(cleaned, stamped) else Idle)
    {
      process := NoProcess;
      ok := Start(spawned);
      if ok && process.Running? {
        RecordRestart(cleaned, stamped);
      }
    }
  }

  /** Two looks in a row: after a restart whose launch is running the next look finds the service alive and
      changes nothing; after one whose launch failed it does not. */
  method LookTwice(info: ServiceInfo, portListening: bool, asked: real, spawned: Process, cleaned: real, stamped: real,
                   later: real)
      returns (first: Verdict, second: Verdict)
    requires asked <= cleaned <= stamped <= later
    modifies info
    ensures first == Restarted ==> (second == Alive <==> spawned.Running?)
    ensures first == Restarted && spawned.Running? ==>
              info.process == spawned && info.History() == Apply(old(info.History()), Crash(asked, cleaned, stamped))
    ensures first == Alive ==> second == Alive && info.History() == old(info.History())
  {
    first := info.Watch(portListening, asked, spawned, cleaned, stamped);
    second := info.Watch(portListening, later, spawned, later, later);
  }

  // ----- the history over a run -----

  /** What really happened: every restart ever recorded, where the last reconcile fell, and when the history
      was last cleaned. */
  datatype Run = Run(history: (seq<real>, nat), log: seq<real>, since: nat, clock: real, cleaned: real)

  const START: Run := Run(([], 0), [], 0, 0.0, 0.0)

  /** The clock does not run backwards, and a crash restart passed its guard. */
  predicate CanHappen(r: Run, e: Event) {
    match e
    case Idle => true
    case Reconcile => true
    case Crash(asked, cleaned, stamped) =>
      r.clock <= asked <= cleaned <= stamped && |Recent(r.history.0, asked)| < MAX_RESTART_COUNT
    case Turned(asked) => r.clock <= asked && |Recent(r.history.0, asked)| >= MAX_RESTART_COUNT
    case Manual(cleaned, stamped) => r.clock <= cleaned <= stamped
  }

  function Happen(r: Run, e: Event): Run {
    var h := Apply(r.history, e);
    match e
    case Idle => r
    case Crash(_, cleaned, stamped) => Run(h, r.log + [stamped], r.since, stamped, cleaned)
    case Turned(asked) => Run(h, r.log, r.since, asked, asked)
    case Manual(cleaned, stamped) => Run(h, r.log + [stamped], r.since, stamped, cleaned)
    case Reconcile => Run(h, r.log, |r.log|, r.clock, r.cleaned)
  }

  ghost predicate Leads(r: Run, events: seq<Event>, t: Run)
    decreases |events|
  {
    if events == [] then r == t
    else CanHappen(r, events[0]) && Leads(Happen(r, events[0]), events[1..], t)
  }

  ghost predicate IsTail(r: Run, k: nat) {
    && r.since <= k <= |r.log| && r.history.0 == r.log[k..] && r.cleaned <= r.clock
    && (forall i :: r.since <= i < k ==> r.cleaned - r.log[i] >= RESTART_WINDOW)
    && (forall i :: k <= i < |r.log| ==> r.cleaned - r.log[i] < RESTART_WINDOW)
  }

  /** The stored list is exactly the part of the log since the last reconcile that had not expired when the
      history was last cleaned. */
  ghost predicate Faithful(r: Run) {
    && Increasing(r.log) && (forall t :: t in r.log ==> t <= r.clock)
    && r.history.1 == |r.history.0|
    && exists k :: IsTail(r, k)
  }

  lemma HeadFirst(s: seq<real>, j: nat, now: real)
    requires Increasing(s) && s != [] && now - s[0] < RESTART_WINDOW
    requires j <= |s[1..]| && forall i :: 0 <= i < j ==> now - s[1..][i] >= RESTART_WINDOW
    ensures j == 0
  {
    if 2 <= |s| { assert s[1..][0] == s[1] && s[0] <= s[1]; }
  }

  /** `k` splits `s` into the expired entries and the others. */
  ghost predicate SplitsAt(s: seq<real>, k: nat, now: real) {
    && k <= |s| && (forall i :: 0 <= i < k ==> now - s[i] >= RESTART_WINDOW)
    && (forall i :: k <= i < |s| ==> now - s[i] < RESTART_WINDOW)
  }

  lemma SplitShift(head: real, rest: seq<real>, j: nat, now: real)
    requires now - head >= RESTART_WINDOW && SplitsAt(rest, j, now)
    ensures SplitsAt([head] + rest, j + 1, now)
  {
  }

  /** On a sorted list, cleaning drops a prefix: exactly the expired entries. */
  lemma {:induction false} RecentIsSuffix(s: seq<real>, now: real) returns (k: nat)
    requires Increasing(s)
    ensures SplitsAt(s, k, now) && Recent(s, now) == s[k..]
    decreases |s|
  {
    if s == [] { return 0; }
    var rest := s[1..];
    assert Increasing(rest) && s == [s[0]] + rest;
    var j := RecentIsSuffix(rest, now);
    if now - s[0] < RESTART_WINDOW {
      HeadFirst(s, j, now);
      k := 0;
    } else {
      SplitShift(s[0], rest, j, now);
      k := j + 1;
    }
  }

  lemma CleanKeepsTail(r: Run, k: nat, now: real) returns (k': nat)
    requires Increasing(r.log) && IsTail(r, k) && now >= r.clock
    ensures r.since <= k' <= |r.log| && Recent(r.history.0, now) == r.log[k'..]
    ensures forall i :: r.since <= i < k' ==> now - r.log[i] >= RESTART_WINDOW
    ensures forall i :: k' <= i < |r.log| ==> now - r.log[i] < RESTART_WINDOW
  {
    var j := RecentIsSuffix(r.log[k..], now);
    k' := k + j;
    assert r.log[k..][j..] == r.log[k'..];
    forall i | r.since <= i < k' ensures now - r.log[i] >= RESTART_WINDOW {
      if i >= k { assert r.log[k..][i - k] == r.log[i]; }
    }
    forall i | k' <= i < |r.log| ensures now - r.log[i] < RESTART_WINDOW {
      assert r.log[k..][i - k] == r.log[i];
    }
  }

  /** Cleaning at `cleaned` and appending `stamped` keeps the stored list a tail of the log. */
  lemma RecordKeepsTail(r: Run, k: nat, cleaned: real, stamped: real) returns (k': nat)
    requires Increasing(r.log) && IsTail(r, k) && r.clock <= cleaned <= stamped
    ensures IsTail(Run((Recent(r.history.0, cleaned) + [stamped], 0), r.log + [stamped], r.since, stamped, cleaned), k')
  {
    k' := CleanKeepsTail(r, k, cleaned);
    var longer := r.log + [stamped];
    assert longer[k'..] == r.log[k'..] + [stamped];
    assert longer[|r.log|] == stamped && forall i :: 0 <= i < |r.log| ==> longer[i] == r.log[i];
  }

  lemma HappenKeepsTail(r: Run, e: Event, k: nat) returns (k': nat)
    requires Increasing(r.log) && IsTail(r, k) && CanHappen(r, e)
    ensures IsTail(Happen(r, e), k')
  {
    match e {
      case Idle => k' := k;
      case Reconcile => k' := |r.log|;
      case Turned(asked) => k' := CleanKeepsTail(r, k, asked);
      case Manual(cleaned, stamped) => k' := RecordKeepsTail(r, k, cleaned, stamped);
      case Crash(asked, cleaned, stamped) =>
        var k1 := CleanKeepsTail(r, k, asked);
        var r1 := r.(history := (r.log[k1..], 0), clock := asked, cleaned := asked);
        assert IsTail(r1, k1);
        k' := RecordKeepsTail(r1, k1, cleaned, stamped);
    }
  }

  lemma IncreasingAppend(log: seq<real>, last: real)
    requires Increasing(log) && forall t :: t in log ==> t <= last
    ensures Increasing(log + [last])
  {
    assert forall i :: 0 <= i < |log| ==> log[i] in log;
  }

  lemma HappenKeepsFaithful(r: Run, e: Event)
    requires Faithful(r) && CanHappen(r, e)
    ensures Faithful(Happen(r, e))
  {
    var k :| IsTail(r, k);
    var k' := HappenKeepsTail(r, e, k);
    if e.Crash? || e.Manual? { IncreasingAppend(r.log, e.stamped); }
  }

  /** In every run `restart_count` is the length of the sorted stored list, and that list is exactly
      the unexpired part of the log since the last reconcile. */
  lemma {:induction false} RunIsFaithful(r: Run, events: seq<Event>, t: Run)
    requires Faithful(r) && Leads(r, events, t)
    ensures Faithful(t)
    decreases |events|
  {
    if events != [] {
      HappenKeepsFaithful(r, events[0]);
      RunIsFaithful(Happen(r, events[0]), events[1..], t);
    }
  }

  // ----- the budget -----

  ghost function InWindow(log: seq<real>, x: real): set<nat> {
    set i: nat | i < |log| && x <= log[i] < x + RESTART_WINDOW
  }

  /** No half-open window of 1800 s holds more than three recorded restarts. */
  ghost predicate WithinBudget(log: seq<real>) {
    forall x :: |InWindow(log, x)| <= MAX_RESTART_COUNT
  }

  /** Fewer than three restarts were recorded in the 1800 s before `now`. */
  predicate HasRoom(log: seq<real>, now: real) {
    |log| < MAX_RESTART_COUNT || now - log[|log| - MAX_RESTART_COUNT] >= RESTART_WINDOW
  }

  ghost predicate Spaced(log: seq<real>) {
    forall i :: MAX_RESTART_COUNT <= i < |log| ==> log[i] - log[i - MAX_RESTART_COUNT] >= RESTART_WINDOW
  }

  lemma SubsetSize(a: set<nat>, b: set<nat>)
    requires a <= b
    ensures |a| <= |b|
    decreases a
  {
    if a != {} {
      var x :| x in a;
      SubsetSize(a - {x}, b - {x});
    }
  }

  lemma WindowIsShort(log: seq<real>, x: real, m: nat, j: nat)
    requires Increasing(log) && Spaced(log) && m <= j && m in InWindow(log, x) && j in InWindow(log, x)
    ensures j < m + MAX_RESTART_COUNT
  {
    var n := m + MAX_RESTART_COUNT;
    if n < |log| {
      assert log[n] - log[n - MAX_RESTART_COUNT] >= RESTART_WINDOW;
      assert forall k :: n <= k < |log| ==> log[n] <= log[k];
    }
  }

  lemma {:induction false} Least(w: set<nat>) returns (m: int)
    requires w != {}
    ensures m in w && forall j :: j in w ==> m <= j
    decreases w
  {
    m :| m in w;
    if w != {m} {
      var n := Least(w - {m});
      assert forall j :: j in w ==> j == m || j in w - {m};
      if n < m { m := n; }
    }
  }

  /** Four restarts share a window exactly when some restart comes too soon after the third last. */
  lemma BudgetIsSpacing(log: seq<real>)
    requires Increasing(log)
    ensures WithinBudget(log) <==> Spaced(log)
  {
    if WithinBudget(log) {
      forall i | 3 <= i < |log| ensures log[i] - log[i - 3] >= RESTART_WINDOW {
        if log[i] - log[i - 3] < RESTART_WINDOW {
          SubsetSize({i - 3, i - 2, i - 1, i}, InWindow(log, log[i - 3]));
        }
      }
    }
    if Spaced(log) {
      forall x ensures |InWindow(log, x)| <= 3 {
        var w := InWindow(log, x);
        if w != {} {
          var m := Least(w);
          forall j | j in w ensures j in {m, m + 1, m + 2} {
            WindowIsShort(log, x, m, j);
          }
          SubsetSize(w, {m, m + 1, m + 2});
        }
      }
    }
  }

  /** Recording a restart of any kind keeps the budget exactly when there was room. */
  lemma RecordKeepsBudgetIff(log: seq<real>, now: real)
    requires Increasing(log + [now])
    ensures WithinBudget(log + [now]) <==> WithinBudget(log) && HasRoom(log, now)
  {
    var longer := log + [now];
    assert Increasing(log) by {
      forall i, j | 0 <= i < j < |log| ensures log[i] <= log[j] { assert longer[i] <= longer[j]; }
    }
    BudgetIsSpacing(log);
    BudgetIsSpacing(longer);
    if Spaced(longer) {
      forall i | 3 <= i < |log| ensures log[i] - log[i - 3] >= RESTART_WINDOW {
        assert longer[i] - longer[i - MAX_RESTART_COUNT] >= RESTART_WINDOW;
      }
      if |log| >= 3 { assert longer[|log|] - longer[|log| - MAX_RESTART_COUNT] >= RESTART_WINDOW; }
    }
  }

  /** The guard of the crash path tells the truth about the log since the last reconcile. */
  lemma GuardMeansRoom(r: Run, asked: real)
    requires Faithful(r) && r.clock <= asked
    ensures |Recent(r.history.0, asked)| < MAX_RESTART_COUNT <==> HasRoom(r.log[r.since..], asked)
  {
    var k :| IsTail(r, k);
    var k1 := CleanKeepsTail(r, k, asked);
    var live, n := r.log[r.since..], |r.log|;
    assert |Recent(r.history.0, asked)| == n - k1;
    if |live| >= MAX_RESTART_COUNT {
      assert live[|live| - MAX_RESTART_COUNT] == r.log[n - MAX_RESTART_COUNT];
    }
  }

  ghost predicate NoManual(events: seq<Event>) {
    forall i :: 0 <= i < |events| ==> !events[i].Manual?
  }

  ghost predicate NoReconcile(events: seq<Event>) {
    forall i :: 0 <= i < |events| ==> !events[i].Reconcile?
  }

  /** The restarts since the last reconcile respect the budget. */
  ghost predicate LiveWithinBudget(r: Run) {
    r.since <= |r.log| && WithinBudget(r.log[r.since..])
  }

  lemma HappenKeepsBudget(r: Run, e: Event)
    requires Faithful(r) && LiveWithinBudget(r) && CanHappen(r, e) && !e.Manual?
    ensures LiveWithinBudget(Happen(r, e)) && (!e.Reconcile? ==> Happen(r, e).since == r.since)
  {
    var t := Happen(r, e);
    if e.Crash? {
      var live := r.log[r.since..];
      GuardMeansRoom(r, e.asked);
      HappenKeepsFaithful(r, e);
      assert t.log[r.since..] == live + [e.stamped];
      assert Increasing(live + [e.stamped]) by {
        forall i, j | 0 <= i <= j < |live| + 1 ensures (live + [e.stamped])[i] <= (live + [e.stamped])[j] {
          assert t.log[r.since + i] <= t.log[r.since + j];
        }
      }
      RecordKeepsBudgetIff(live, e.stamped);
    } else if e.Reconcile? {
      assert t.log[t.since..] == [];
      BudgetIsSpacing([]);
    }
  }

  /** In any run without manual restarts, reconciles included, every window of 1800 s holds at most three
      of the restarts recorded since the last reconcile, however often the service dies. */
  lemma {:induction false} CrashRunWithinBudget(r: Run, events: seq<Event>, t: Run)
    requires Faithful(r) && LiveWithinBudget(r)
    requires NoManual(events) && Leads(r, events, t)
    ensures LiveWithinBudget(t) && (NoReconcile(events) ==> t.since == r.since)
    decreases |events|
  {
    if events != [] {
      HappenKeepsFaithful(r, events[0]);
      HappenKeepsBudget(r, events[0]);
      var rest := events[1..];
      assert forall i :: 0 <= i < |rest| ==> rest[i] == events[i + 1];
      CrashRunWithinBudget(Happen(r, events[0]), rest, t);
    }
  }

  /** For every run of the daemon from its start. */
  lemma EveryRun(events: seq<Event>, t: Run)
    requires Leads(START, events, t)
    ensures Increasing(t.log) && Increasing(t.history.0) && t.history.1 == |t.history.0|
    ensures NoManual(events) ==> LiveWithinBudget(t)
    ensures NoManual(events) && NoReconcile(events) ==> WithinBudget(t.log)
  {
    assert IsTail(START, 0) && Faithful(START);
    RunIsFaithful(START, events, t);
    var k: nat :| IsTail(t, k);
    forall i, j | 0 <= i < j < |t.history.0| ensures t.history.0[i] <= t.history.0[j] {
      assert t.history.0[i] == t.log[k + i] && t.history.0[j] == t.log[k + j];
    }
    if NoManual(events) {
      BudgetIsSpacing([]);
      CrashRunWithinBudget(START, events, t);
      assert t.log[0..] == t.log;
    }
  }

  /** Over any run at all, the restarts recorded so far respect the budget exactly when each of them,
      guarded or not, happened to find room. */
  lemma {:induction false} BudgetExactly(log: seq<real>)
    requires Increasing(log)
    ensures WithinBudget(log) <==> forall i :: 0 <= i < |log| ==> HasRoom(log[..i], log[i])
  {
    if log == [] {
      BudgetIsSpacing(log);
    } else {
      var n := |log| - 1;
      var front := log[..n];
      BudgetExactly(front);
      assert log == front + [log[n]];
      RecordKeepsBudgetIff(front, log[n]);
      forall i | 0 <= i < n ensures front[..i] == log[..i] && front[i] == log[i] { }
    }
  }

  /** The health and manual path is not bounded: four such restarts within four seconds. */
  lemma ManualExceedsBudget() returns (t: Run)
    ensures Leads(START, [Manual(0.0, 0.0), Manual(1.0, 1.0), Manual(2.0, 2.0), Manual(3.0, 3.0)], t)
    ensures !WithinBudget(t.log)
  {
    var e := [Manual(0.0, 0.0), Manual(1.0, 1.0), Manual(2.0, 2.0), Manual(3.0, 3.0)];
    var r1 := Happen(START, e[0]);
    var r2 := Happen(r1, e[1]);
    var r3 := Happen(r2, e[2]);
    t := Happen(r3, e[3]);
    assert e[1..][1..] == e[2..] && e[2..][1..] == e[3..] && e[3..][1..] == [];
    assert Leads(t, [], t) && Leads(r3, e[3..], t) && Leads(r2, e[2..], t) && Leads(r1, e[1..], t);
    assert t.log == [0.0, 1.0, 2.0, 3.0];
    BudgetIsSpacing(t.log);
    assert t.log[3] - t.log[3 - MAX_RESTART_COUNT] < RESTART_WINDOW;
  }
}
