/** Reconciling the scheduler's job table with the ScheduledTask records (backend/config/scheduler.py,
    _register_db_scheduled_tasks and sync_db_scheduled_tasks). Queries and job operations succeed;
    building a cron trigger may raise, which `cronOk` decides. */
module JobReconcile {
  import opened Prelude
  import opened PyStrings

  datatype ScheduleType = OneTime | Periodic
  datatype Task = Task(id: nat, enabled: bool, kind: ScheduleType, time: Option<int>, cron: string)
  datatype Trigger = Date(time: int) | Cron(minute: string, hour: string, day: string, month: string, dow: string)
  datatype Job = Job(trigger: Trigger, taskId: nat) | StaticJob(name: string)
  type Jobs = map<string, Job>

  const PREFIX := "scheduled_task_"

  function JobId(id: nat): string {
    PREFIX + Dec(id)
  }

  lemma JobIdInjective(a: nat, b: nat)
    requires JobId(a) == JobId(b)
    ensures a == b
  {
    assert JobId(a)[|PREFIX|..] == Dec(a) && JobId(b)[|PREFIX|..] == Dec(b);
    DecInjective(a, b);
  }

  lemma OtherJobId(a: nat, b: nat)
    requires a != b
    ensures JobId(a) != JobId(b)
  {
    if JobId(a) == JobId(b) { JobIdInjective(a, b); }
  }

  predicate IsWordChar(c: char) { !IsSpace(c) }

  function DayName(d: string): string {
    if d == "0" then "sun" else if d == "1" then "mon" else if d == "2" then "tue" else if d == "3" then "wed"
    else if d == "4" then "thu" else if d == "5" then "fri" else if d == "6" then "sat" else d
  }

  function DayNames(parts: seq<string>): seq<string> {
    seq(|parts|, i requires 0 <= i < |parts| => DayName(parts[i]))
  }

  /** The day-of-week field, with day numbers as names. */
  function DayOfWeek(field: string): string {
    if field == "*" then "*" else Join(DayNames(SplitOn(field, ',')), ",")
  }

  /** The trigger a task asks for, or None when it is malformed. The words of the cron text are
      `cron.strip().split()`. */
  function TriggerOf(st: Task, cronOk: Trigger -> bool): Option<Trigger> {
    if st.kind == OneTime && st.time.Some? then Some(Date(st.time.value))
    else if st.kind == Periodic && st.cron != "" then
      var parts := Runs(Strip(st.cron), IsWordChar, "");
      if |parts| != 5 then None
      else
        var t := Cron(parts[0], parts[1], parts[2], parts[3], DayOfWeek(parts[4]));
        if cronOk(t) then Some(t) else None
    else None
  }

  predicate IsWord(s: string) { s != "" && forall c | c in s :: !IsSpace(c) }

  lemma RunsOfStripped(s: string)
    ensures Runs(Strip(s), IsWordChar, "") == Runs(s, IsWordChar, "")
  {
    var l, r := TrimParts(s, IsSpace);
    assert s == l + (Strip(s) + r);
    RunsSkip(l, Strip(s) + r, IsWordChar);
    RunsBehind(Strip(s), r, IsWordChar);
  }

  lemma LastRun(word: string)
    requires IsWord(word)
    ensures Runs(word, IsWordChar, "") == [word]
  {
    RunsWhole(word, IsWordChar, "");
    assert "" + word == word;
  }

  /** Words, each followed by white space. */
  function Spread(words: seq<string>, gaps: seq<string>): string
    requires |words| == |gaps|
  {
    if words == [] then "" else words[0] + gaps[0] + Spread(words[1..], gaps[1..])
  }

  /** White space stands behind every word, but need not behind the last. */
  ghost predicate Separated(words: seq<string>, gaps: seq<string>) {
    && |words| == |gaps| && (forall i :: 0 <= i < |words| ==> IsWord(words[i]) && All(gaps[i], IsSpace))
    && (forall i :: 0 <= i < |words| - 1 ==> gaps[i] != "")
  }

  lemma {:induction false} SpreadRuns(words: seq<string>, gaps: seq<string>)
    requires Separated(words, gaps)
    ensures Runs(Spread(words, gaps), IsWordChar, "") == words
    decreases |words|
  {
    if |words| == 1 {
      assert Spread(words, gaps) == words[0] + gaps[0];
      RunsBehind(words[0], gaps[0], IsWordChar);
      LastRun(words[0]);
    } else if words != [] {
      SpreadRuns(words[1..], gaps[1..]);
      RunsStep(words[0], gaps[0], Spread(words[1..], gaps[1..]), IsWordChar);
      assert words == [words[0]] + words[1..];
    }
  }

  /** A cron text with five fields gives minute, hour, day, month and day of the week, in this order, whatever
      white space stands between and around them. */
  lemma CronMeaning(st: Task, cronOk: Trigger -> bool, lead: string, fields: seq<string>, gaps: seq<string>)
    requires All(lead, IsSpace) && |fields| == 5 && Separated(fields, gaps)
    requires st.kind == Periodic && st.cron == lead + Spread(fields, gaps)
    ensures var t := TriggerOf(st, cronOk);
            && (t.Some? ==> t.value.Cron? && cronOk(t.value) && t.value.minute == fields[0]
                            && t.value.hour == fields[1] && t.value.day == fields[2] && t.value.month == fields[3]
                            && t.value.dow == DayOfWeek(fields[4]))
            && (t.None? ==> !cronOk(Cron(fields[0], fields[1], fields[2], fields[3], DayOfWeek(fields[4]))))
  {
    RunsOfStripped(st.cron);
    RunsSkip(lead, Spread(fields, gaps), IsWordChar);
    SpreadRuns(fields, gaps);
  }

  /** Any other task is malformed, unless it is a one-time task with a time. */
  lemma OtherTriggers(st: Task, cronOk: Trigger -> bool)
    ensures st.kind == OneTime ==> TriggerOf(st, cronOk).Some? == st.time.Some?
    ensures st.kind == OneTime && st.time.Some? ==> TriggerOf(st, cronOk) == Some(Date(st.time.value))
    ensures st.kind == Periodic && |Runs(st.cron, IsWordChar, "")| != 5 ==> TriggerOf(st, cronOk) == None
  {
    RunsOfStripped(st.cron);
  }

  lemma DayDigits()
    ensures Dec(0) == "0" && Dec(1) == "1" && Dec(2) == "2" && Dec(3) == "3" && Dec(4) == "4" && Dec(5) == "5"
    ensures Dec(6) == "6"
  {
  }

  /** `d` is one of "0" to "6". */
  ghost predicate IsDayNumber(d: string) {
    exists k: nat :: k < 7 && d == Dec(k)
  }

  lemma DayNameMeaning(d: string)
    ensures forall k: nat :: k < 7 && d == Dec(k) ==>
              DayName(d) == ["sun", "mon", "tue", "wed", "thu", "fri", "sat"][k]
    ensures !IsDayNumber(d) ==> DayName(d) == d
  {
    DayDigits();
  }

  /** In the last field "*" stays; a comma list keeps its order and its length, 0 to 6 become sun to sat and
      anything else stays. */
  lemma DayOfWeekMeaning(parts: seq<string>) returns (names: seq<string>)
    requires parts != [] && parts != ["*"] && forall p :: p in parts ==> ',' !in p
    ensures DayOfWeek("*") == "*" && DayOfWeek(Join(parts, ",")) == Join(names, ",") && |names| == |parts|
    ensures forall i, k: nat :: 0 <= i < |parts| && k < 7 && parts[i] == Dec(k) ==>
              names[i] == ["sun", "mon", "tue", "wed", "thu", "fri", "sat"][k]
    ensures forall i :: 0 <= i < |parts| && !IsDayNumber(parts[i]) ==> names[i] == parts[i]
  {
    names := DayNames(parts);
    SplitJoin(parts, ',');
    if Join(parts, ",") == "*" { SplitHead("*", ',', ""); }
    forall i | 0 <= i < |parts|
      ensures forall k: nat :: k < 7 && parts[i] == Dec(k) ==>
                names[i] == ["sun", "mon", "tue", "wed", "thu", "fri", "sat"][k]
      ensures !IsDayNumber(parts[i]) ==> names[i] == parts[i]
    {
      DayNameMeaning(parts[i]);
    }
  }

  // ----- what the table should be -----

  ghost predicate DistinctIds(tasks: seq<Task>) {
    forall i, j :: 0 <= i < j < |tasks| ==> tasks[i].id != tasks[j].id
  }

  /** `jid` belongs to the enabled task `st`. */
  predicate Owns(st: Task, jid: string) {
    st.enabled && JobId(st.id) == jid
  }

  ghost predicate IsEnabledId(tasks: seq<Task>, jid: string) {
    exists st :: st in tasks && Owns(st, jid)
  }

  predicate IsDbJob(jid: string) {
    PREFIX <= jid
  }

  ghost predicate SameAt(a: Jobs, b: Jobs, jid: string) {
    (jid in a <==> jid in b) && (jid in a ==> a[jid] == b[jid])
  }

  /** The job table that the records call for: foreign jobs as they were; for each enabled task its
      refreshed job, or the old one when its schedule is malformed now; nothing else. */
  ghost predicate IsReconciled(before: Jobs, tasks: seq<Task>, cronOk: Trigger -> bool, after: Jobs) {
    && (forall jid :: !IsDbJob(jid) ==> SameAt(before, after, jid))
    && (forall jid :: IsDbJob(jid) && !IsEnabledId(tasks, jid) ==> jid !in after)
    && (forall st :: st in tasks && st.enabled ==>
          match TriggerOf(st, cronOk)
          case Some(t) => JobId(st.id) in after && after[JobId(st.id)] == Job(t, st.id)
          case None => SameAt(before, after, JobId(st.id)))
  }

  /** The requirement determines the table. */
  lemma ReconciledUnique(before: Jobs, tasks: seq<Task>, cronOk: Trigger -> bool, x: Jobs, y: Jobs)
    requires IsReconciled(before, tasks, cronOk, x) && IsReconciled(before, tasks, cronOk, y)
    ensures x == y
  {
  }

  /** The jobs with the prefix are exactly those of the enabled tasks that have a usable trigger
      or were registered before. */
  lemma DbJobsExactly(before: Jobs, tasks: seq<Task>, cronOk: Trigger -> bool, after: Jobs, jid: string)
    requires IsReconciled(before, tasks, cronOk, after) && DistinctIds(tasks) && IsDbJob(jid)
    ensures jid in after <==>
            exists st :: st in tasks && Owns(st, jid) && (TriggerOf(st, cronOk).Some? || jid in before)
  {
  }

  /** A second reconcile with the same records changes nothing. */
  lemma SyncIdempotent(before: Jobs, tasks: seq<Task>, cronOk: Trigger -> bool, once: Jobs, twice: Jobs)
    requires IsReconciled(before, tasks, cronOk, once) && IsReconciled(once, tasks, cronOk, twice)
    ensures twice == once
  {
  }

  // ----- registering and pruning -----

  function UsableCount(tasks: seq<Task>, cronOk: Trigger -> bool): nat {
    if tasks == [] then 0
    else
      var last := tasks[|tasks| - 1];
      UsableCount(tasks[..|tasks| - 1], cronOk)
      + if last.enabled && TriggerOf(last, cronOk).Some? then 1 else 0
  }

  ghost predicate IsUsable(tasks: seq<Task>, cronOk: Trigger -> bool, i: nat) {
    i < |tasks| && tasks[i].enabled && TriggerOf(tasks[i], cronOk).Some?
  }

  ghost function UsableIndices(tasks: seq<Task>, cronOk: Trigger -> bool): set<nat> {
    set i: nat | i < |tasks| && IsUsable(tasks, cronOk, i)
  }

  /** The count is the number of enabled tasks with a usable trigger. */
  lemma {:induction false} UsableCountMeaning(tasks: seq<Task>, cronOk: Trigger -> bool)
    ensures UsableCount(tasks, cronOk) == |UsableIndices(tasks, cronOk)|
    decreases |tasks|
  {
    if tasks == [] {
      assert UsableIndices(tasks, cronOk) == {};
    } else {
      var n: nat := |tasks| - 1;
      UsableCountMeaning(tasks[..n], cronOk);
      forall i: nat | i < n ensures IsUsable(tasks, cronOk, i) <==> IsUsable(tasks[..n], cronOk, i) {
        assert tasks[..n][i] == tasks[i];
      }
      assert UsableIndices(tasks, cronOk)
          == UsableIndices(tasks[..n], cronOk) + if IsUsable(tasks, cronOk, n) then {n} else {};
    }
  }

  ghost predicate IsUsableId(tasks: seq<Task>, cronOk: Trigger -> bool, jid: string) {
    exists st :: st in tasks && Owns(st, jid) && TriggerOf(st, cronOk).Some?
  }

  /** What registering alone does: only ids of enabled tasks with a usable trigger change. */
  ghost predicate Registered(before: Jobs, tasks: seq<Task>, cronOk: Trigger -> bool, after: Jobs) {
    && (forall st :: st in tasks && st.enabled && TriggerOf(st, cronOk).Some? ==>
          JobId(st.id) in after && after[JobId(st.id)] == Job(TriggerOf(st, cronOk).value, st.id))
    && (forall jid :: !IsUsableId(tasks, cronOk, jid) ==> SameAt(before, after, jid))
  }

  lemma RegisterStep(before: Jobs, tasks: seq<Task>, i: nat, cronOk: Trigger -> bool, prev: Jobs, next: Jobs)
    requires i < |tasks| && DistinctIds(tasks) && Registered(before, tasks[..i], cronOk, prev)
    requires var st := tasks[i];
             next == if st.enabled && TriggerOf(st, cronOk).Some?
                     then prev[JobId(st.id) := Job(TriggerOf(st, cronOk).value, st.id)] else prev
    ensures Registered(before, tasks[..i + 1], cronOk, next)
  {
    var front, longer, last := tasks[..i], tasks[..i + 1], tasks[i];
    assert longer == front + [last];
    forall st | st in front && st.enabled && TriggerOf(st, cronOk).Some?
      ensures JobId(st.id) in next && next[JobId(st.id)] == Job(TriggerOf(st, cronOk).value, st.id)
    {
      var k :| 0 <= k < i && tasks[k] == st;
      assert st.id != last.id;
      OtherJobId(st.id, last.id);
    }
    forall jid | !IsUsableId(longer, cronOk, jid) ensures SameAt(before, next, jid) {
      assert forall st :: st in front ==> st in longer;
      assert !IsUsableId(front, cronOk, jid) && last in longer;
    }
  }

  lemma SameTask(tasks: seq<Task>, a: Task, b: Task)
    requires DistinctIds(tasks) && a in tasks && b in tasks && a.id == b.id
    ensures a == b
  {
  }

  lemma NotUsable(tasks: seq<Task>, cronOk: Trigger -> bool, st: Task)
    requires DistinctIds(tasks) && st in tasks && TriggerOf(st, cronOk).None?
    ensures !IsUsableId(tasks, cronOk, JobId(st.id))
  {
    forall other | other in tasks && Owns(other, JobId(st.id)) ensures TriggerOf(other, cronOk).None? {
      JobIdInjective(other.id, st.id);
      SameTask(tasks, other, st);
    }
  }

  lemma PruneThenRegister(before: Jobs, tasks: seq<Task>, cronOk: Trigger -> bool, pruned: Jobs, after: Jobs)
    requires DistinctIds(tasks) && Registered(pruned, tasks, cronOk, after)
    requires forall jid :: !IsDbJob(jid) || IsEnabledId(tasks, jid) ==> SameAt(before, pruned, jid)
    requires forall jid :: IsDbJob(jid) && !IsEnabledId(tasks, jid) ==> jid !in pruned
    ensures IsReconciled(before, tasks, cronOk, after)
  {
    forall jid | !IsDbJob(jid) ensures SameAt(before, after, jid) {
      assert SameAt(before, pruned, jid) && SameAt(pruned, after, jid);
    }
    forall jid | IsDbJob(jid) && !IsEnabledId(tasks, jid) ensures jid !in after {
      assert SameAt(pruned, after, jid);
    }
    forall st | st in tasks && st.enabled && TriggerOf(st, cronOk).None?
      ensures SameAt(before, after, JobId(st.id))
    {
      var jid := JobId(st.id);
      assert Owns(st, jid) && IsEnabledId(tasks, jid) && SameAt(before, pruned, jid);
      NotUsable(tasks, cronOk, st);
      assert SameAt(pruned, after, jid);
    }
  }

  // ----- the scheduler -----

  class Scheduler {
    const cronOk: Trigger -> bool
    var jobs: Jobs

    constructor (cronOk: Trigger -> bool, jobs: Jobs)
      ensures this.cronOk == cronOk && this.jobs == jobs
    {
      this.cronOk, this.jobs := cronOk, jobs;
    }

    /** `_register_db_scheduled_tasks`: enabled tasks only; a malformed one is skipped. */
    method RegisterDbScheduledTasks(tasks: seq<Task>) returns (registered: nat)
      requires DistinctIds(tasks)
      modifies this
      ensures Registered(old(jobs), tasks, cronOk, jobs) && registered == UsableCount(tasks, cronOk)
    {
      registered := 0;
      ghost var before := jobs;
      for i := 0 to |tasks|
        invariant Registered(before, tasks[..i], cronOk, jobs) && registered == UsableCount(tasks[..i], cronOk)
      {
        assert tasks[..i + 1][..i] == tasks[..i];
        var st := tasks[i];
        ghost var prev := jobs;
        var trigger := TriggerOf(st, cronOk);
        if st.enabled && trigger.Some? {
          jobs := jobs[JobId(st.id) := Job(trigger.value, st.id)];
          registered := registered + 1;
        }
        RegisterStep(before, tasks, i, cronOk, prev, jobs);
      }
      assert tasks[..|tasks|] == tasks;
    }

    /** `sync_db_scheduled_tasks`. */
    method SyncDbScheduledTasks(tasks: seq<Task>)
      requires DistinctIds(tasks)
      modifies this
      ensures IsReconciled(old(jobs), tasks, cronOk, jobs)
    {
      var enabledIds := set k | 0 <= k < |tasks| && tasks[k].enabled :: JobId(tasks[k].id);
      forall jid ensures jid in enabledIds <==> IsEnabledId(tasks, jid) {
        if jid in enabledIds {
          var k :| 0 <= k < |tasks| && tasks[k].enabled && JobId(tasks[k].id) == jid;
          assert Owns(tasks[k], jid);
        }
      }
      var existing := jobs.Keys;
      ghost var before := jobs;
      while existing != {}
        invariant existing <= before.Keys
        invariant forall jid :: jid in existing || !IsDbJob(jid) || jid in enabledIds ==> SameAt(before, jobs, jid)
        invariant forall jid :: jid !in existing && IsDbJob(jid) && jid !in enabledIds ==> jid !in jobs
        decreases existing
      {
        var jid :| jid in existing;
        if IsDbJob(jid) && jid !in enabledIds {
          jobs := jobs - {jid};
        }
        existing := existing - {jid};
      }
      ghost var pruned := jobs;
      var _ := RegisterDbScheduledTasks(tasks);
      PruneThenRegister(before, tasks, cronOk, pruned, jobs);
    }
  }
}
