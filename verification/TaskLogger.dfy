/** The per-hour log file of backend/gaf_core/task_logger.py. The path is cached and recomputed only
    when the hour of day changes, although it also depends on the date. Times are whole seconds. */
module TaskLogger {
  import opened Prelude

  const HOUR: nat := 3600
  const DAY: nat := 86400

  /** The variable parts of the path: `<date>/backend/tasks/<pipeline>/<hour>/execution.jsonl`. */
  datatype LogPath = LogPath(date: nat, hour: nat)

  function HourOf(now: nat): nat { now % DAY / HOUR }

  function FreshPath(now: nat): LogPath { LogPath(now / DAY, HourOf(now)) }

  /** `_current_log_path` with `_current_hour`, which is the hour the path was computed in. */
  type Cache = Option<LogPath>

  function Next(cache: Cache, now: nat): LogPath {
    if cache.None? || cache.value.hour != HourOf(now) then FreshPath(now) else cache.value
  }

  class BackendTaskLogger {
    var currentHour: Option<nat>
    var currentPath: Option<LogPath>

    function Cached(): Cache
      reads this
    {
      currentPath
    }

    constructor ()
      ensures Valid() && Cached() == None
    {
      currentHour, currentPath := None, None;
    }

    ghost predicate Valid()
      reads this
    {
      if currentPath.None? then currentHour == None else currentHour == Some(currentPath.value.hour)
    }

    /** The path that one event is written to. */
    method Log(now: nat) returns (path: LogPath)
      requires Valid()
      modifies this
      ensures Valid() && path == Next(old(Cached()), now) && Cached() == Some(path)
    {
      if currentHour != Some(HourOf(now)) || currentPath.None? {
        currentPath := Some(FreshPath(now));
        currentHour := Some(HourOf(now));
      }
      path := currentPath.value;
    }

    method Close()
      modifies this
      ensures Valid() && Cached() == None
    {
      currentHour, currentPath := None, None;
    }
  }

  /** The paths of a run of events, from an empty cache. */
  function Paths(cache: Cache, times: seq<nat>): seq<LogPath>
    decreases |times|
  {
    if times == [] then []
    else [Next(cache, times[0])] + Paths(Some(Next(cache, times[0])), times[1..])
  }

  /** The event goes to the file of its own date and hour exactly when the hour changed or the cached
      date is today's. */
  lemma FreshIff(cache: Cache, now: nat)
    ensures Next(cache, now) == FreshPath(now)
            <==> cache.None? || cache.value.hour != HourOf(now) || cache.value.date == now / DAY
  {
  }

  /** Two times in the same hour of day and at most 23 hours apart are on the same date. */
  lemma SameHourSameDate(a: nat, b: nat)
    requires a <= b <= a + 23 * HOUR && HourOf(a) == HourOf(b)
    ensures a / DAY == b / DAY
  {
  }

  /** The event at `now` finds the hour of day of `last` again, but on another date. */
  predicate SameHourOtherDay(last: nat, now: nat) {
    HourOf(last) == HourOf(now) && last / DAY != now / DAY
  }

  /** The time of the event before event `i`. */
  function Previous(last: nat, times: seq<nat>, i: nat): nat
    requires i < |times|
  {
    if i == 0 then last else times[i - 1]
  }

  ghost predicate AllFresh(paths: seq<LogPath>, times: seq<nat>) {
    |paths| == |times| && forall i :: 0 <= i < |times| ==> paths[i] == FreshPath(times[i])
  }

  lemma AllFreshCons(p: LogPath, paths: seq<LogPath>, t: nat, times: seq<nat>)
    ensures AllFresh([p] + paths, [t] + times) <==> p == FreshPath(t) && AllFresh(paths, times)
  {
    var ps, ts := [p] + paths, [t] + times;
    if AllFresh(ps, ts) {
      assert ps[0] == FreshPath(ts[0]);
      forall i | 0 <= i < |times| ensures paths[i] == FreshPath(times[i]) { assert ps[i + 1] == FreshPath(ts[i + 1]); }
    }
  }

  /** Over a whole run after an event at `last`, every event is written to the file of its own date and
      hour if and only if no event has the hour of day of the one before it on another date. */
  lemma {:induction false} RunFreshIff(last: nat, times: seq<nat>)
    ensures AllFresh(Paths(Some(FreshPath(last)), times), times)
            <==> forall i :: 0 <= i < |times| ==> !SameHourOtherDay(Previous(last, times, i), times[i])
    decreases |times|
  {
    if times != [] {
      var now, rest := times[0], times[1..];
      var first := Next(Some(FreshPath(last)), now);
      assert times == [now] + rest;
      AllFreshCons(first, Paths(Some(first), rest), now, rest);
      FreshIff(Some(FreshPath(last)), now);
      RunFreshIff(now, rest);
      assert Previous(last, times, 0) == last;
      assert forall i :: 0 <= i < |rest| ==> rest[i] == times[i + 1];
      assert forall i :: 0 <= i < |rest| ==> Previous(now, rest, i) == Previous(last, times, i + 1);
      if forall i :: 0 <= i < |rest| ==> !SameHourOtherDay(Previous(now, rest, i), rest[i]) {
        forall i | 1 <= i < |times| ensures !SameHourOtherDay(Previous(last, times, i), times[i]) {
          assert Previous(now, rest, i - 1) == Previous(last, times, i);
        }
      }
    }
  }

  /** Event `i` comes at most 23 hours after the one before it. */
  ghost predicate Near(last: nat, times: seq<nat>, i: nat)
    requires i < |times|
  {
    Previous(last, times, i) <= times[i] <= Previous(last, times, i) + 23 * HOUR
  }

  /** While no two consecutive events are more than 23 hours apart, every event is written to the file
      of its own date and hour. */
  lemma GapsKeepFresh(last: nat, times: seq<nat>)
    requires forall i :: 0 <= i < |times| ==> Near(last, times, i)
    ensures AllFresh(Paths(Some(FreshPath(last)), times), times)
  {
    forall i | 0 <= i < |times| ensures !SameHourOtherDay(Previous(last, times, i), times[i]) {
      assert Near(last, times, i);
      if HourOf(Previous(last, times, i)) == HourOf(times[i]) { SameHourSameDate(Previous(last, times, i), times[i]); }
    }
    RunFreshIff(last, times);
  }

  /** The bound is sharp: one second more, and an event lands in yesterday's file. */
  lemma OneSecondMoreIsStale() returns (a: nat, b: nat)
    ensures b == a + 23 * HOUR + 1 && Next(Some(FreshPath(a)), b) != FreshPath(b)
  {
    a, b := HOUR - 1, DAY;
    assert HourOf(a) == 0 && HourOf(b) == 0 && a / DAY == 0 && b / DAY == 1;
  }
}
