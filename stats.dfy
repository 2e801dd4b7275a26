/**
 * The statistics effect of the application: the current streak (a walk backward
 * from today), the longest streak (the longest run of clean logs in descending-date
 * order) and the relapse total, and how they are folded into the stored statistics.
 */
module Stats {
  import opened Wrappers
  import opened Types

  function Max(a: int, b: int): int {
    if a >= b then a else b
  }

  // ---------------------------------------------------------------------------
  // Looking logs up by day
  // ---------------------------------------------------------------------------

  /** The index of the first log for day d, or |logs| when there is none. */
  function FirstIndexOn(logs: seq<DailyLog>, d: Day): (k: nat)
    ensures k <= |logs|
    ensures forall j | 0 <= j < k :: logs[j].date != d
    ensures k < |logs| ==> logs[k].date == d
  {
    if logs == [] then 0
    else if logs[0].date == d then 0
    else 1 + FirstIndexOn(logs[1..], d)
  }

  /** `logs.find(l => l.date === d)`: the first log recorded for day d. */
  function FindLog(logs: seq<DailyLog>, d: Day): (r: Option<DailyLog>)
    ensures r.None? <==> forall i | 0 <= i < |logs| :: logs[i].date != d
    ensures r.Some? ==> r.value in logs && r.value.date == d
    ensures r.Some? ==> FirstIndexOn(logs, d) < |logs| && r.value == logs[FirstIndexOn(logs, d)]
  {
    var k := FirstIndexOn(logs, d);
    if k < |logs| then Some(logs[k]) else None
  }

  /** `logs.some(l => l.date === d)`. */
  predicate HasLogOn(logs: seq<DailyLog>, d: Day) {
    exists i | 0 <= i < |logs| :: logs[i].date == d
  }

  /** No two logs share a date: the invariant the upsert keeps. */
  ghost predicate DistinctDates(logs: seq<DailyLog>) {
    forall i, j | 0 <= i < j < |logs| :: logs[i].date != logs[j].date
  }

  /** With distinct dates, the log that the lookup finds is the only one for its day. */
  lemma FindLogUnique(logs: seq<DailyLog>, d: Day, l: DailyLog)
    requires DistinctDates(logs)
    requires l in logs && l.date == d
    ensures FindLog(logs, d) == Some(l)
  {
    var k := FirstIndexOn(logs, d);
    var j :| 0 <= j < |logs| && logs[j] == l;
    assert k <= j;
    assert !(k < j);
  }

  // ---------------------------------------------------------------------------
  // The current streak
  // ---------------------------------------------------------------------------

  /** A day counts toward the streak when its first log exists and is not a relapse. */
  predicate IsCleanDay(logs: seq<DailyLog>, d: Day) {
    FindLog(logs, d).Some? && !FindLog(logs, d).value.relapsed
  }

  /** The number of logs dated on or before day d. */
  function CountUpTo(logs: seq<DailyLog>, d: Day): (n: nat)
    ensures n <= |logs|
  {
    if logs == [] then 0 else (if logs[0].date <= d then 1 else 0) + CountUpTo(logs[1..], d)
  }

  lemma {:induction false} CountUpToMonotone(logs: seq<DailyLog>, d: Day, e: Day)
    requires d <= e
    ensures CountUpTo(logs, d) <= CountUpTo(logs, e)
  {
    if logs != [] {
      CountUpToMonotone(logs[1..], d, e);
    }
  }

  /** Stepping back past a day that has a log leaves fewer logs behind. */
  lemma {:induction false} CountUpToDrops(logs: seq<DailyLog>, d: Day)
    requires HasLogOn(logs, d)
    ensures CountUpTo(logs, d - 1) < CountUpTo(logs, d)
  {
    if logs[0].date == d {
      CountUpToMonotone(logs[1..], d - 1, d);
    } else {
      var i :| 0 <= i < |logs| && logs[i].date == d;
      assert logs[1..][i - 1].date == d;
      CountUpToDrops(logs[1..], d);
    }
  }

  /**
   * The number of consecutive clean days ending at day d: a clean day counts and
   * the walk goes on to the day before; a relapse or a day without a log ends it.
   * Each counted day uses up a log, so the run never outgrows the logs behind it.
   */
  function CleanRun(logs: seq<DailyLog>, d: Day): (n: nat)
    ensures n <= CountUpTo(logs, d)
    decreases CountUpTo(logs, d)
  {
    if IsCleanDay(logs, d) then
      CountUpToDrops(logs, d);
      1 + CleanRun(logs, d - 1)
    else 0
  }

  /** Every day of the run is clean, and the day just before the run is not. */
  lemma {:induction false} CleanRunDays(logs: seq<DailyLog>, d: Day)
    ensures forall e | d - CleanRun(logs, d) < e <= d :: IsCleanDay(logs, e)
    ensures !IsCleanDay(logs, d - CleanRun(logs, d))
    decreases CountUpTo(logs, d)
  {
    if IsCleanDay(logs, d) {
      CountUpToDrops(logs, d);
      CleanRunDays(logs, d - 1);
    }
  }

  /** The clean run ending at d is n exactly when days d, d-1, ..., d-n+1 are clean and day d-n is not. */
  lemma CleanRunCharacterization(logs: seq<DailyLog>, d: Day, n: nat)
    ensures CleanRun(logs, d) == n <==>
            (forall e | d - n < e <= d :: IsCleanDay(logs, e)) && !IsCleanDay(logs, d - n)
  {
    CleanRunDays(logs, d);
  }

  /**
   * The current streak as the walk defines it: a missing log for today is skipped
   * without counting (today is not over yet), so the run is taken from yesterday;
   * otherwise it is the clean run ending today, 0 when today is a relapse.
   */
  function CurrentStreak(logs: seq<DailyLog>, today: Day): (n: nat)
    ensures n <= |logs|
  {
    if FindLog(logs, today).None? then CleanRun(logs, today - 1) else CleanRun(logs, today)
  }

  /**
   * The walk of the statistics effect. It stops at the first relapse and at the first
   * day without a log other than today; the guard on logs.length + 30 is never what
   * stops it, because the count never exceeds the number of logs.
   */
  method ComputeCurrentStreak(logs: seq<DailyLog>, today: Day) returns (currentStreak: nat)
    ensures currentStreak == CurrentStreak(logs, today)
    ensures currentStreak <= |logs|
  {
    currentStreak := 0;
    var checkDate := today;
    while true
      invariant checkDate <= today
      invariant checkDate == today ==> currentStreak == 0
      invariant checkDate < today ==> currentStreak + CleanRun(logs, checkDate) == CurrentStreak(logs, today)
      decreases CountUpTo(logs, checkDate) + (if checkDate == today then 1 else 0)
    {
      var log := FindLog(logs, checkDate);
      if log.None? {
        if checkDate != today {
          break;
        }
      } else if log.value.relapsed {
        break;
      } else {
        currentStreak := currentStreak + 1;
        CountUpToDrops(logs, checkDate);
      }
      CountUpToMonotone(logs, checkDate - 1, checkDate);
      checkDate := checkDate - 1;
      if currentStreak > |logs| + 30 {
        break;
      }
    }
  }

  // ---------------------------------------------------------------------------
  // The longest streak
  // ---------------------------------------------------------------------------

  ghost predicate SortedByDateDesc(s: seq<DailyLog>) {
    forall i, j | 0 <= i < j < |s| :: s[i].date >= s[j].date
  }

  /** Puts x before the first log not later than it, so equal dates keep their input order. */
  function InsertByDate(x: DailyLog, s: seq<DailyLog>): (r: seq<DailyLog>)
    requires SortedByDateDesc(s)
    ensures |r| == |s| + 1 && multiset(r) == multiset(s) + multiset{x}
    ensures SortedByDateDesc(r)
  {
    if s == [] || x.date >= s[0].date then [x] + s
    else
      var t := InsertByDate(x, s[1..]);
      assert s == [s[0]] + s[1..];
      HeadBoundsInsert(x, s, t);
      [s[0]] + t
  }

  lemma HeadBoundsInsert(x: DailyLog, s: seq<DailyLog>, t: seq<DailyLog>)
    requires s != [] && SortedByDateDesc(s) && x.date < s[0].date
    requires multiset(t) == multiset(s[1..]) + multiset{x}
    requires SortedByDateDesc(t)
    ensures SortedByDateDesc([s[0]] + t)
  {
    forall k | 0 <= k < |t| ensures t[k].date <= s[0].date {
      var y := t[k];
      assert y in multiset(t);
      if y != x {
        assert y in multiset(s[1..]);
        var m :| 0 <= m < |s[1..]| && s[1..][m] == y;
        assert s[m + 1] == y;
      }
    }
  }

  /** The stable sort by descending date of `[...logs].sort((a, b) => b.date - a.date)`. */
  function SortByDateDesc(logs: seq<DailyLog>): (r: seq<DailyLog>)
    ensures |r| == |logs| && multiset(r) == multiset(logs)
    ensures SortedByDateDesc(r)
  {
    if logs == [] then []
    else
      assert logs == [logs[0]] + logs[1..];
      InsertByDate(logs[0], SortByDateDesc(logs[1..]))
  }

  /** A log whose date no log of t has can be put in front of t. */
  lemma DistinctCons(h: DailyLog, t: seq<DailyLog>)
    requires DistinctDates(t)
    requires forall k | 0 <= k < |t| :: t[k].date != h.date
    ensures DistinctDates([h] + t)
  {
    var r := [h] + t;
    forall i, j | 0 <= i < j < |r| ensures r[i].date != r[j].date {
      assert r[j] == t[j - 1];
      if i > 0 {
        assert r[i] == t[i - 1];
      }
    }
  }

  lemma {:induction false} InsertKeepsDistinct(x: DailyLog, s: seq<DailyLog>)
    requires SortedByDateDesc(s) && DistinctDates(s)
    requires forall y | y in s :: y.date != x.date
    ensures DistinctDates(InsertByDate(x, s))
  {
    if s != [] && x.date < s[0].date {
      var rest := s[1..];
      assert DistinctDates(rest) by {
        forall i, j | 0 <= i < j < |rest| ensures rest[i].date != rest[j].date {
          assert rest[i] == s[i + 1] && rest[j] == s[j + 1];
        }
      }
      forall y | y in rest ensures y.date != x.date {
        assert y in s;
      }
      InsertKeepsDistinct(x, rest);
      var t := InsertByDate(x, rest);
      forall k | 0 <= k < |t| ensures t[k].date != s[0].date {
        var y := t[k];
        assert y in multiset(t);
        if y != x {
          var m :| 0 <= m < |rest| && rest[m] == y;
          assert s[m + 1] == y;
        }
      }
      assert InsertByDate(x, s) == [s[0]] + t;
      DistinctCons(s[0], t);
    } else {
      forall k | 0 <= k < |s| ensures s[k].date != x.date {
        assert s[k] in s;
      }
      assert InsertByDate(x, s) == [x] + s;
      DistinctCons(x, s);
    }
  }

  lemma {:induction false} SortKeepsDistinct(logs: seq<DailyLog>)
    requires DistinctDates(logs)
    ensures DistinctDates(SortByDateDesc(logs))
  {
    if logs != [] {
      SortKeepsDistinct(logs[1..]);
      var t := SortByDateDesc(logs[1..]);
      forall y | y in t ensures y.date != logs[0].date {
        assert y in multiset(logs[1..]);
        var m :| 0 <= m < |logs[1..]| && logs[1..][m] == y;
        assert logs[m + 1] == y;
      }
      InsertKeepsDistinct(logs[0], t);
    }
  }

  /** The logs of day d, in their order: what a stable sort must not reorder. */
  function OnDate(logs: seq<DailyLog>, d: Day): (r: seq<DailyLog>)
    ensures |r| <= |logs|
    ensures forall k | 0 <= k < |r| :: r[k].date == d
  {
    if logs == [] then [] else (if logs[0].date == d then [logs[0]] else []) + OnDate(logs[1..], d)
  }

  lemma OnDateCons(h: DailyLog, t: seq<DailyLog>, d: Day)
    ensures OnDate([h] + t, d) == (if h.date == d then [h] else []) + OnDate(t, d)
  {
    assert ([h] + t)[1..] == t;
  }

  /** Inserting a log puts it in front of the other logs of its own day. */
  lemma {:induction false} InsertOnDate(x: DailyLog, s: seq<DailyLog>, d: Day)
    requires SortedByDateDesc(s)
    ensures OnDate(InsertByDate(x, s), d) == (if x.date == d then [x] else []) + OnDate(s, d)
  {
    if s == [] || x.date >= s[0].date {
      assert InsertByDate(x, s) == [x] + s;
      OnDateCons(x, s, d);
    } else {
      var rest := s[1..];
      assert s == [s[0]] + rest;
      InsertOnDate(x, rest, d);
      var t := InsertByDate(x, rest);
      assert InsertByDate(x, s) == [s[0]] + t;
      OnDateCons(s[0], t, d);
      OnDateCons(s[0], rest, d);
      if x.date == d {
        assert s[0].date != d;
        assert OnDate(s, d) == OnDate(rest, d);
        assert OnDate(InsertByDate(x, s), d) == OnDate(t, d);
      } else {
        assert OnDate(t, d) == OnDate(rest, d);
      }
    }
  }

  /** The sort is stable: the logs of any one day keep their input order. */
  lemma {:induction false} SortKeepsSameDayOrder(logs: seq<DailyLog>, d: Day)
    ensures OnDate(SortByDateDesc(logs), d) == OnDate(logs, d)
  {
    if logs != [] {
      SortKeepsSameDayOrder(logs[1..], d);
      InsertOnDate(logs[0], SortByDateDesc(logs[1..]), d);
    }
  }

  /** Every log in t is clean. */
  predicate AllClean(t: seq<DailyLog>) {
    forall k | 0 <= k < |t| :: !t[k].relapsed
  }

  /** The number of clean logs at the end of s: the running counter of the loop. */
  function TrailingCleanRun(s: seq<DailyLog>): (n: nat)
    ensures n <= |s|
  {
    if s == [] || s[|s| - 1].relapsed then 0 else 1 + TrailingCleanRun(s[..|s| - 1])
  }

  /** The longest run of consecutive clean logs in s: the running maximum of the loop. */
  function LongestCleanRun(s: seq<DailyLog>): (n: nat)
    ensures TrailingCleanRun(s) <= n <= |s|
  {
    if s == [] then 0 else Max(LongestCleanRun(s[..|s| - 1]), TrailingCleanRun(s))
  }

  lemma {:induction false} TrailingIsClean(s: seq<DailyLog>)
    ensures AllClean(s[|s| - TrailingCleanRun(s)..])
  {
    if s != [] && !s[|s| - 1].relapsed {
      var p := s[..|s| - 1];
      TrailingIsClean(p);
      assert s[|s| - TrailingCleanRun(s)..] == p[|p| - TrailingCleanRun(p)..] + [s[|s| - 1]];
    }
  }

  lemma {:induction false} TrailingAtLeast(s: seq<DailyLog>, lo: nat)
    requires lo <= |s| && AllClean(s[lo..])
    ensures |s| - lo <= TrailingCleanRun(s)
  {
    if lo < |s| {
      var p := s[..|s| - 1];
      assert p[lo..] == s[lo..|s| - 1];
      assert s[lo..][|s| - 1 - lo] == s[|s| - 1];
      TrailingAtLeast(p, lo);
    }
  }

  /** No run of clean logs is longer than LongestCleanRun. */
  lemma {:induction false} CleanSegmentBounded(s: seq<DailyLog>, lo: nat, hi: nat)
    requires lo <= hi <= |s| && AllClean(s[lo..hi])
    ensures hi - lo <= LongestCleanRun(s)
  {
    if hi == |s| {
      TrailingAtLeast(s, lo);
    } else {
      var p := s[..|s| - 1];
      assert p[lo..hi] == s[lo..hi];
      CleanSegmentBounded(p, lo, hi);
    }
  }

  /** Some run of clean logs is exactly LongestCleanRun long. */
  lemma {:induction false} LongestCleanRunAttained(s: seq<DailyLog>)
    ensures exists lo, hi | 0 <= lo <= hi <= |s| && hi - lo == LongestCleanRun(s) :: AllClean(s[lo..hi])
  {
    var n := LongestCleanRun(s);
    if s == [] {
      assert AllClean(s[0..0]);
    } else if n == TrailingCleanRun(s) {
      TrailingIsClean(s);
      assert s[|s| - n..|s|] == s[|s| - n..];
    } else {
      var p := s[..|s| - 1];
      LongestCleanRunAttained(p);
      var lo, hi :| 0 <= lo <= hi <= |p| && hi - lo == n && AllClean(p[lo..hi]);
      assert s[lo..hi] == p[lo..hi];
    }
  }

  /** LongestCleanRun is the length of the longest run of consecutive clean logs. */
  lemma LongestCleanRunIsMaximum(s: seq<DailyLog>)
    ensures forall lo, hi | 0 <= lo <= hi <= |s| && AllClean(s[lo..hi]) :: hi - lo <= LongestCleanRun(s)
    ensures exists lo, hi | 0 <= lo <= hi <= |s| && hi - lo == LongestCleanRun(s) :: AllClean(s[lo..hi])
  {
    forall lo, hi | 0 <= lo <= hi <= |s| && AllClean(s[lo..hi]) ensures hi - lo <= LongestCleanRun(s) {
      CleanSegmentBounded(s, lo, hi);
    }
    LongestCleanRunAttained(s);
  }

  /** Only the relapse flags matter, in order: gaps between the dates do not break a run. */
  lemma {:induction false} LongestCleanRunIgnoresDates(s: seq<DailyLog>, t: seq<DailyLog>)
    requires |s| == |t| && forall i | 0 <= i < |s| :: s[i].relapsed == t[i].relapsed
    ensures TrailingCleanRun(s) == TrailingCleanRun(t)
    ensures LongestCleanRun(s) == LongestCleanRun(t)
  {
    if s != [] {
      LongestCleanRunIgnoresDates(s[..|s| - 1], t[..|t| - 1]);
    }
  }

  /** The loop of the statistics effect over the logs sorted newest first. */
  method ComputeLongestStreak(logs: seq<DailyLog>) returns (longestStreak: nat)
    ensures longestStreak == LongestCleanRun(SortByDateDesc(logs))
  {
    var sortedLogs := SortByDateDesc(logs);
    longestStreak := 0;
    var tempStreak := 0;
    for i := 0 to |sortedLogs|
      invariant tempStreak == TrailingCleanRun(sortedLogs[..i])
      invariant longestStreak == LongestCleanRun(sortedLogs[..i])
    {
      assert sortedLogs[..i + 1][..i] == sortedLogs[..i];
      if !sortedLogs[i].relapsed {
        tempStreak := tempStreak + 1;
        longestStreak := Max(longestStreak, tempStreak);
      } else {
        tempStreak := 0;
      }
    }
    assert sortedLogs[..|sortedLogs|] == sortedLogs;
  }

  // ---------------------------------------------------------------------------
  // The current streak never exceeds the longest one
  // ---------------------------------------------------------------------------

  /** What the longest-run proof needs of the sorted copy of the logs. */
  ghost predicate SortedCopy(logs: seq<DailyLog>, sorted: seq<DailyLog>) {
    && multiset(sorted) == multiset(logs)
    && SortedByDateDesc(sorted)
    && DistinctDates(sorted)
  }

  /**
   * When dates are distinct and none lies after day d, the k clean days d, d-1, ...
   * that the walk counts are the k newest logs, so they lead the sorted order.
   */
  lemma {:induction false} CleanDaysLeadSorted(logs: seq<DailyLog>, sorted: seq<DailyLog>, d: Day, k: nat)
    requires SortedCopy(logs, sorted)
    requires forall i | 0 <= i < |logs| :: logs[i].date <= d
    requires forall e | d - k < e <= d :: IsCleanDay(logs, e)
    ensures k <= |sorted|
    ensures forall i | 0 <= i < k :: sorted[i].date == d - i && !sorted[i].relapsed
  {
    if k > 0 {
      CleanDaysLeadSorted(logs, sorted, d, k - 1);
      NextSortedIsNextDay(logs, sorted, d, k - 1);
    }
  }

  /** The inductive step: the log of day d-i comes right after those of days d, ..., d-i+1. */
  lemma NextSortedIsNextDay(logs: seq<DailyLog>, sorted: seq<DailyLog>, d: Day, i: nat)
    requires SortedCopy(logs, sorted)
    requires forall j | 0 <= j < |logs| :: logs[j].date <= d
    requires IsCleanDay(logs, d - i)
    requires i <= |sorted| && forall m | 0 <= m < i :: sorted[m].date == d - m
    ensures i < |sorted| && sorted[i].date == d - i && !sorted[i].relapsed
  {
    var l := FindLog(logs, d - i).value;
    assert l in multiset(sorted);
    var j :| 0 <= j < |sorted| && sorted[j] == l;
    forall m | 0 <= m < i ensures sorted[m].date != l.date {
      assert sorted[m].date == d - m;
    }
    assert sorted[i] in multiset(logs);
    assert sorted[i].date <= d;
    assert sorted[i].date >= l.date;
    if i > 0 {
      assert sorted[i - 1].date == d - (i - 1);
      assert sorted[i].date < sorted[i - 1].date;
    }
    assert sorted[i].date == l.date;
    assert j == i;
  }

  /** A clean run ending at or after every log date fits inside the longest sorted run. */
  lemma CleanRunAtMostLongest(logs: seq<DailyLog>, d: Day)
    requires DistinctDates(logs)
    requires forall i | 0 <= i < |logs| :: logs[i].date <= d
    ensures CleanRun(logs, d) <= LongestCleanRun(SortByDateDesc(logs))
  {
    var k := CleanRun(logs, d);
    CleanRunDays(logs, d);
    var sorted := SortByDateDesc(logs);
    SortKeepsDistinct(logs);
    CleanDaysLeadSorted(logs, sorted, d, k);
    assert k <= |sorted|;
    assert forall i | 0 <= i < k :: !sorted[i].relapsed;
    assert AllClean(sorted[0..k]) by {
      forall m | 0 <= m < k ensures !sorted[0..k][m].relapsed {
        assert sorted[0..k][m] == sorted[m];
      }
    }
    CleanSegmentBounded(sorted, 0, k);
  }

  /**
   * With distinct dates, none of them after today, the current streak is never
   * longer than the longest run in the sorted logs.
   */
  lemma CurrentAtMostLongest(logs: seq<DailyLog>, today: Day)
    requires DistinctDates(logs)
    requires forall i | 0 <= i < |logs| :: logs[i].date <= today
    ensures CurrentStreak(logs, today) <= LongestCleanRun(SortByDateDesc(logs))
  {
    if FindLog(logs, today).None? {
      assert forall i | 0 <= i < |logs| :: logs[i].date <= today - 1;
      CleanRunAtMostLongest(logs, today - 1);
    } else {
      CleanRunAtMostLongest(logs, today);
    }
  }

  // ---------------------------------------------------------------------------
  // The relapse total and the stored statistics
  // ---------------------------------------------------------------------------

  /**
   * `logs.reduce((sum, log) => sum + (log.relapseCount || 0), 0)`; the `|| 0` only
   * replaces NaN and undefined, which an integer count never is.
   */
  function SumRelapseCounts(logs: seq<DailyLog>): (total: int)
    ensures (forall i | 0 <= i < |logs| :: logs[i].relapseCount >= 0) ==> total >= 0
  {
    if logs == [] then 0 else SumRelapseCounts(logs[..|logs| - 1]) + logs[|logs| - 1].relapseCount
  }

  lemma {:induction false} SumRelapseCountsAppend(a: seq<DailyLog>, b: seq<DailyLog>)
    ensures SumRelapseCounts(a + b) == SumRelapseCounts(a) + SumRelapseCounts(b)
  {
    if b == [] {
      assert a + b == a;
    } else {
      assert (a + b)[..|a + b| - 1] == a + b[..|b| - 1];
      SumRelapseCountsAppend(a, b[..|b| - 1]);
    }
  }

  /** Well-formed logs that record no relapse add up to 0. */
  lemma {:induction false} SumRelapseCountsClean(logs: seq<DailyLog>)
    requires forall i | 0 <= i < |logs| :: WellFormedLog(logs[i]) && !logs[i].relapsed
    ensures SumRelapseCounts(logs) == 0
  {
    if logs != [] {
      SumRelapseCountsClean(logs[..|logs| - 1]);
    }
  }

  /**
   * The statistics after the effect runs: the current streak and relapse total are
   * recomputed, the longest streak only ratchets upward, the dates are kept.
   */
  function RecomputedStats(prev: UserStats, logs: seq<DailyLog>, today: Day): (r: UserStats)
    ensures r.longestStreak >= prev.longestStreak
    ensures r.longestStreak >= LongestCleanRun(SortByDateDesc(logs))
    ensures r.longestStreak == prev.longestStreak || r.longestStreak == LongestCleanRun(SortByDateDesc(logs))
    ensures r.startDate == prev.startDate && r.lastLogDate == prev.lastLogDate
  {
    prev.(currentStreak := CurrentStreak(logs, today),
          longestStreak := Max(LongestCleanRun(SortByDateDesc(logs)), prev.longestStreak),
          totalRelapses := SumRelapseCounts(logs))
  }

  /** With no logs the streak and total are 0 and the longest streak is what was stored. */
  lemma RecomputedStatsEmpty(prev: UserStats, today: Day)
    ensures RecomputedStats(prev, [], today)
            == prev.(currentStreak := 0, longestStreak := Max(0, prev.longestStreak), totalRelapses := 0)
  {
  }

  /** Running the effect twice on the same logs gives what running it once gave. */
  lemma RecomputedStatsIdempotent(prev: UserStats, logs: seq<DailyLog>, today: Day)
    ensures RecomputedStats(RecomputedStats(prev, logs, today), logs, today) == RecomputedStats(prev, logs, today)
  {
  }

  /** The stored current streak is at most the stored longest streak after a recomputation. */
  lemma RecomputedStreaksOrdered(prev: UserStats, logs: seq<DailyLog>, today: Day)
    requires DistinctDates(logs)
    requires forall i | 0 <= i < |logs| :: logs[i].date <= today
    ensures RecomputedStats(prev, logs, today).currentStreak <= RecomputedStats(prev, logs, today).longestStreak
  {
    CurrentAtMostLongest(logs, today);
  }

  // ---------------------------------------------------------------------------
  // Worked scenarios
  // ---------------------------------------------------------------------------

  function CleanLog(id: string, d: Day): DailyLog {
    DailyLog(id, d, false, 0, 1, 5, None)
  }

  /** Two clean days before an unlogged today make a streak of 2. */
  lemma ScenarioTodayNotYetLogged(d: Day)
    ensures CurrentStreak([CleanLog("a", d - 2), CleanLog("b", d - 1)], d) == 2
  {
    var logs := [CleanLog("a", d - 2), CleanLog("b", d - 1)];
    assert FindLog(logs, d) == None;
    assert FindLog(logs, d - 1) == Some(logs[1]);
    assert FindLog(logs, d - 2) == Some(logs[0]);
    assert FindLog(logs, d - 3) == None;
    assert CleanRun(logs, d - 3) == 0;
    assert CleanRun(logs, d - 2) == 1 + CleanRun(logs, d - 3);
    assert CleanRun(logs, d - 1) == 1 + CleanRun(logs, d - 2);
  }

  /** A relapse yesterday ends the streak at 0 and its three events enter the total. */
  lemma ScenarioRelapseYesterday(d: Day, prev: UserStats)
    ensures var logs := [DailyLog("a", d - 1, true, 3, 8, 2, None)];
            RecomputedStats(prev, logs, d).currentStreak == 0
            && RecomputedStats(prev, logs, d).totalRelapses == 3
  {
    var logs := [DailyLog("a", d - 1, true, 3, 8, 2, None)];
    assert FindLog(logs, d) == None;
    assert FindLog(logs, d - 1) == Some(logs[0]);
    assert !IsCleanDay(logs, d - 1);
    assert CurrentStreak(logs, d) == CleanRun(logs, d - 1) == 0;
    assert logs[..0] == [];
    assert SumRelapseCounts(logs) == SumRelapseCounts([]) + 3;
  }

  /** Today's clean log, a relapse also dated today, and a clean log for yesterday. */
  function DuplicateDayLogs(d: Day): seq<DailyLog> {
    [CleanLog("a", d), DailyLog("b", d, true, 1, 9, 2, None), CleanLog("c", d - 1)]
  }

  lemma DuplicateDayWalk(d: Day)
    ensures CurrentStreak(DuplicateDayLogs(d), d) == 2
  {
    var logs := DuplicateDayLogs(d);
    assert FindLog(logs, d) == Some(logs[0]);
    assert FindLog(logs, d - 1) == Some(logs[2]);
    assert FindLog(logs, d - 2) == None;
    assert CleanRun(logs, d - 2) == 0;
    assert CleanRun(logs, d - 1) == 1 + CleanRun(logs, d - 2);
    assert CleanRun(logs, d) == 1 + CleanRun(logs, d - 1);
  }

  lemma DuplicateDaySorted(d: Day)
    ensures SortByDateDesc(DuplicateDayLogs(d)) == DuplicateDayLogs(d)
  {
    var logs := DuplicateDayLogs(d);
    assert logs[1..][1..] == [logs[2]];
    assert SortByDateDesc([logs[2]]) == [logs[2]];
    assert logs[1..] == [logs[1], logs[2]];
    assert SortByDateDesc(logs[1..]) == [logs[1], logs[2]];
  }

  lemma DuplicateDayLongest(d: Day)
    ensures LongestCleanRun(DuplicateDayLogs(d)) == 1
  {
    var s := DuplicateDayLogs(d);
    assert s[..2] == [s[0], s[1]];
    assert s[..2][..1] == [s[0]];
    assert [s[0]][..0] == [];
    assert TrailingCleanRun(s[..2][..1]) == 1;
    assert TrailingCleanRun(s[..2]) == 0;
    assert TrailingCleanRun(s) == 1 + TrailingCleanRun(s[..2]);
    assert LongestCleanRun(s[..2][..1]) == 1;
    assert LongestCleanRun(s[..2]) == 1;
  }

  /**
   * Two logs on one day break the ordering of the streaks: the walk sees only the first
   * (clean) log of today, while the sorted order puts the relapse between the clean logs.
   */
  lemma ScenarioDuplicateDate(d: Day)
    ensures !DistinctDates(DuplicateDayLogs(d))
    ensures CurrentStreak(DuplicateDayLogs(d), d) == 2
    ensures LongestCleanRun(SortByDateDesc(DuplicateDayLogs(d))) == 1
  {
    assert DuplicateDayLogs(d)[0].date == DuplicateDayLogs(d)[1].date;
    DuplicateDayWalk(d);
    DuplicateDaySorted(d);
    DuplicateDayLongest(d);
  }
}
