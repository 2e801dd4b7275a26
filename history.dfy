/**
 * The history screen: the gap-filled thirty-day chart series, the weekly summary,
 * the success rate, the mood emoji lookup and the recent-entries list, all computed
 * from the logs as they are stored.
 */
module History {
  import opened Wrappers
  import opened Types
  import opened Stats
  import App

  /** `x || d` on a number: 0 is falsy, so it gives way to the default. */
  function OrDefault(x: int, d: int): int {
    if x == 0 then d else x
  }

  // ---------------------------------------------------------------------------
  // The thirty-day chart
  // ---------------------------------------------------------------------------

  datatype ChartDay = ChartDay(date: Day, relapsed: bool, relapseCount: int, urgeLevel: int, mood: int)

  const ChartLength: nat := 30

  /** The chart entry of one day: the first log of that day, or the placeholder without one. */
  function Slot(logs: seq<DailyLog>, date: Day): (r: ChartDay)
    ensures r.date == date
  {
    match FindLog(logs, date)
    case None => ChartDay(date, false, 0, 0, 5)
    case Some(l) => ChartDay(date, l.relapsed, OrDefault(l.relapseCount, 0), OrDefault(l.urgeLevel, 0), OrDefault(l.mood, 5))
  }

  /** chartData: one slot per day of the thirty days ending today. */
  function ChartData(logs: seq<DailyLog>, today: Day): (r: seq<ChartDay>)
    ensures |r| == ChartLength
  {
    seq(ChartLength, i requires 0 <= i < ChartLength => Slot(logs, today - 29 + i))
  }

  /** The slots are thirty consecutive ascending days, the last of them today. */
  lemma ChartDays(logs: seq<DailyLog>, today: Day)
    ensures var r := ChartData(logs, today);
            && r[ChartLength - 1].date == today
            && forall i | 0 < i < ChartLength :: r[i].date == r[i - 1].date + 1
  {
    var r := ChartData(logs, today);
    assert forall i | 0 <= i < ChartLength :: r[i] == Slot(logs, today - 29 + i);
  }

  /**
   * A day with logs shows the first of them, with a mood of 0 read as 5; a day without
   * a log shows no relapse, no urge and the neutral mood 5.
   */
  lemma SlotContents(logs: seq<DailyLog>, date: Day)
    ensures forall i | 0 <= i < |logs| && logs[i].date == date && (forall j | 0 <= j < i :: logs[j].date != date) ::
              Slot(logs, date) == ChartDay(date, logs[i].relapsed, logs[i].relapseCount, logs[i].urgeLevel,
                                           if logs[i].mood == 0 then 5 else logs[i].mood)
    ensures (forall i | 0 <= i < |logs| :: logs[i].date != date) ==> Slot(logs, date) == ChartDay(date, false, 0, 0, 5)
  {
    forall i | 0 <= i < |logs| && logs[i].date == date && (forall j | 0 <= j < i :: logs[j].date != date)
      ensures FirstIndexOn(logs, date) == i
    {
      var k := FirstIndexOn(logs, date);
      assert k <= i;
      assert logs[k].date == date;
    }
  }

  /** Right after today's check-in the last chart slot shows it. */
  lemma ChartShowsCheckIn(logs: seq<DailyLog>, l: DailyLog)
    requires WellFormedLog(l)
    ensures ChartData(App.Upserted(logs, l), l.date)[ChartLength - 1]
            == ChartDay(l.date, l.relapsed, l.relapseCount, l.urgeLevel, l.mood)
  {
    var u := App.Upserted(logs, l);
    App.UpsertLaw(logs, l);
    assert FindLog(u, l.date) == Some(l);
    assert ChartData(u, l.date)[ChartLength - 1] == Slot(u, l.date);
  }

  /** The well-formed moods 1..10 are shown as they are. */
  lemma ChartMoodsInRange(logs: seq<DailyLog>, today: Day)
    requires forall i | 0 <= i < |logs| :: WellFormedLog(logs[i])
    ensures forall i | 0 <= i < ChartLength :: 1 <= ChartData(logs, today)[i].mood <= 10
  {
    forall i | 0 <= i < ChartLength ensures 1 <= ChartData(logs, today)[i].mood <= 10 {
      var date := today - 29 + i;
      assert ChartData(logs, today)[i] == Slot(logs, date);
      var r := FindLog(logs, date);
      if r.Some? {
        var k :| 0 <= k < |logs| && logs[k] == r.value;
        assert WellFormedLog(logs[k]);
      }
    }
  }

  // ---------------------------------------------------------------------------
  // Slices of the chart and of the logs
  // ---------------------------------------------------------------------------

  /** `s.slice(-k)` for k >= 1: the last k elements, or all of them when there are fewer. */
  function Last<T>(s: seq<T>, k: nat): (r: seq<T>)
    requires k >= 1
    ensures |r| == if k < |s| then k else |s|
    ensures r == s[|s| - |r|..]
  {
    if k < |s| then s[|s| - k..] else s
  }

  function Reverse<T>(s: seq<T>): (r: seq<T>)
    ensures |r| == |s|
    ensures forall i | 0 <= i < |s| :: r[i] == s[|s| - 1 - i]
  {
    if s == [] then [] else Reverse(s[1..]) + [s[0]]
  }

  /** The weekly bars: the final seven slots, the days from six days ago to today. */
  function WeekBars(chart: seq<ChartDay>): (r: seq<ChartDay>)
    ensures |r| <= 7 && |r| <= |chart| && r == chart[|chart| - |r|..]
    ensures |chart| >= 7 ==> |r| == 7
  {
    Last(chart, 7)
  }

  lemma WeekBarsDays(logs: seq<DailyLog>, today: Day)
    ensures var bars := WeekBars(ChartData(logs, today));
            && |bars| == 7
            && forall k | 0 <= k < 7 :: bars[k] == Slot(logs, today - 6 + k)
  {
  }

  /** `logs.slice(-5).reverse()`. */
  function RecentEntries(logs: seq<DailyLog>): (r: seq<DailyLog>)
    ensures |r| <= 5 && |r| <= |logs|
    ensures forall i | 0 <= i < |r| :: r[i] == logs[|logs| - 1 - i]
  {
    Reverse(Last(logs, 5))
  }

  /** At most five entries, the most recently appended first. */
  lemma RecentEntriesNewestFirst(logs: seq<DailyLog>)
    ensures var r := RecentEntries(logs);
            && |r| == (if |logs| < 5 then |logs| else 5)
            && forall i | 0 <= i < |r| :: r[i] == logs[|logs| - 1 - i]
  {
  }

  /** The entry just checked in heads the recent list. */
  lemma RecentEntriesAfterCheckIn(logs: seq<DailyLog>, l: DailyLog)
    ensures RecentEntries(App.Upserted(logs, l))[0] == l
  {
    App.UpsertLaw(logs, l);
    RecentEntriesNewestFirst(App.Upserted(logs, l));
  }

  // ---------------------------------------------------------------------------
  // The weekly summary
  // ---------------------------------------------------------------------------

  /** `logs.filter(log => log.date >= cutoff)`: the window has a lower bound only. */
  function InWindow(logs: seq<DailyLog>, cutoff: Day): (w: seq<DailyLog>)
    ensures |w| <= |logs|
    ensures forall x :: x in w <==> x in logs && x.date >= cutoff
  {
    if logs == [] then []
    else
      assert logs == [logs[0]] + logs[1..];
      (if logs[0].date >= cutoff then [logs[0]] else []) + InWindow(logs[1..], cutoff)
  }

  /** The window keeps the order of the logs it takes. */
  lemma {:induction false} InWindowSubsequence(logs: seq<DailyLog>, cutoff: Day)
    ensures App.Subsequence(InWindow(logs, cutoff), logs)
  {
    if logs != [] {
      InWindowSubsequence(logs[1..], cutoff);
      var rest := InWindow(logs[1..], cutoff);
      if logs[0].date >= cutoff {
        assert InWindow(logs, cutoff) == [logs[0]] + rest;
        assert ([logs[0]] + rest)[1..] == rest;
      } else {
        assert InWindow(logs, cutoff) == rest;
        assert rest == [] || App.Subsequence(rest, logs[1..]);
      }
    }
  }

  /** The window keeps every log on or after the cutoff as often as it occurs. */
  lemma {:induction false} InWindowCounts(logs: seq<DailyLog>, cutoff: Day)
    ensures forall x: DailyLog | x.date >= cutoff :: multiset(InWindow(logs, cutoff))[x] == multiset(logs)[x]
  {
    if logs != [] {
      InWindowCounts(logs[1..], cutoff);
      assert logs == [logs[0]] + logs[1..];
    }
  }

  function Sum(xs: seq<int>): int {
    if xs == [] then 0 else Sum(xs[..|xs| - 1]) + xs[|xs| - 1]
  }

  function Moods(logs: seq<DailyLog>): (r: seq<int>)
    ensures |r| == |logs|
  {
    seq(|logs|, i requires 0 <= i < |logs| => logs[i].mood)
  }

  function Urges(logs: seq<DailyLog>): (r: seq<int>)
    ensures |r| == |logs|
  {
    seq(|logs|, i requires 0 <= i < |logs| => logs[i].urgeLevel)
  }

  /** The arithmetic mean, or the given default for no values. */
  function Mean(xs: seq<int>, default: real): real {
    if |xs| > 0 then Sum(xs) as real / |xs| as real else default
  }

  function SeqMin(xs: seq<int>): (m: int)
    requires |xs| > 0
    ensures m in xs && forall i | 0 <= i < |xs| :: m <= xs[i]
  {
    if |xs| == 1 then xs[0]
    else
      var m := SeqMin(xs[..|xs| - 1]);
      assert forall i | 0 <= i < |xs| - 1 :: xs[i] == xs[..|xs| - 1][i];
      if xs[|xs| - 1] < m then xs[|xs| - 1] else m
  }

  function SeqMax(xs: seq<int>): (m: int)
    requires |xs| > 0
    ensures m in xs && forall i | 0 <= i < |xs| :: xs[i] <= m
  {
    if |xs| == 1 then xs[0]
    else
      var m := SeqMax(xs[..|xs| - 1]);
      assert forall i | 0 <= i < |xs| - 1 :: xs[i] == xs[..|xs| - 1][i];
      if xs[|xs| - 1] > m then xs[|xs| - 1] else m
  }

  lemma {:induction false} SumBounds(xs: seq<int>, lo: int, hi: int)
    requires forall i | 0 <= i < |xs| :: lo <= xs[i] <= hi
    ensures lo as real * |xs| as real <= Sum(xs) as real <= hi as real * |xs| as real
  {
    if xs != [] {
      var init := xs[..|xs| - 1];
      assert forall i | 0 <= i < |init| :: init[i] == xs[i];
      SumBounds(init, lo, hi);
      var m := |init| as real;
      assert |xs| as real == m + 1.0;
      assert lo as real * (m + 1.0) == lo as real * m + lo as real;
      assert hi as real * (m + 1.0) == hi as real * m + hi as real;
    }
  }

  /** A quotient s / n lies between lo and hi when s lies between lo * n and hi * n. */
  lemma DivBetween(s: real, n: real, lo: real, hi: real)
    requires n > 0.0 && lo * n <= s <= hi * n
    ensures lo <= s / n <= hi
  {
    var q := s / n;
    assert q * n == s;
  }

  /** The mean of some values lies between their least and their greatest. */
  lemma MeanWithinRange(xs: seq<int>, default: real)
    requires |xs| > 0
    ensures SeqMin(xs) as real <= Mean(xs, default) <= SeqMax(xs) as real
  {
    MeanBetween(xs, default, SeqMin(xs), SeqMax(xs));
  }

  lemma MeanBetween(xs: seq<int>, default: real, lo: int, hi: int)
    requires |xs| > 0
    requires forall i | 0 <= i < |xs| :: lo <= xs[i] <= hi
    ensures lo as real <= Mean(xs, default) <= hi as real
  {
    SumBounds(xs, lo, hi);
    DivBetween(Sum(xs) as real, |xs| as real, lo as real, hi as real);
  }

  datatype WeekSummary = WeekSummary(totalRelapses: int, avgMood: real, avgUrge: real)

  /** weeklyStats over the logs dated on or after the cutoff. */
  function WeeklyStats(logs: seq<DailyLog>, cutoff: Day): WeekSummary {
    var w := InWindow(logs, cutoff);
    WeekSummary(SumRelapseCounts(w), Mean(Moods(w), 5.0), Mean(Urges(w), 0.0))
  }

  /** Non-negative counts give a non-negative weekly relapse total. */
  lemma WeeklyRelapsesNonNegative(logs: seq<DailyLog>, cutoff: Day)
    requires forall i | 0 <= i < |logs| :: logs[i].relapseCount >= 0
    ensures WeeklyStats(logs, cutoff).totalRelapses >= 0
  {
    var w := InWindow(logs, cutoff);
    forall i | 0 <= i < |w| ensures w[i].relapseCount >= 0 {
      assert w[i] in logs;
    }
  }

  /** Logs all dated before the cutoff leave the window empty. */
  lemma {:induction false} InWindowEmpty(logs: seq<DailyLog>, cutoff: Day)
    requires forall i | 0 <= i < |logs| :: logs[i].date < cutoff
    ensures InWindow(logs, cutoff) == []
  {
    if logs != [] {
      InWindowEmpty(logs[1..], cutoff);
    }
  }

  /** No logs in the window: no relapses, mood 5 and urge 0. */
  lemma WeeklyStatsEmpty(logs: seq<DailyLog>, cutoff: Day)
    requires forall i | 0 <= i < |logs| :: logs[i].date < cutoff
    ensures WeeklyStats(logs, cutoff) == WeekSummary(0, 5.0, 0.0)
  {
    InWindowEmpty(logs, cutoff);
  }

  /** With logs in the window each average lies between the window's extremes. */
  lemma WeeklyAveragesInRange(logs: seq<DailyLog>, cutoff: Day)
    requires InWindow(logs, cutoff) != []
    ensures var w := InWindow(logs, cutoff); var r := WeeklyStats(logs, cutoff);
            && SeqMin(Moods(w)) as real <= r.avgMood <= SeqMax(Moods(w)) as real
            && SeqMin(Urges(w)) as real <= r.avgUrge <= SeqMax(Urges(w)) as real
  {
    var w := InWindow(logs, cutoff);
    MeanWithinRange(Moods(w), 5.0);
    MeanWithinRange(Urges(w), 0.0);
  }

  /** Well-formed logs give weekly averages on the slider scale. */
  lemma WeeklyAveragesOnScale(logs: seq<DailyLog>, cutoff: Day)
    requires InWindow(logs, cutoff) != []
    requires forall i | 0 <= i < |logs| :: WellFormedLog(logs[i])
    ensures var r := WeeklyStats(logs, cutoff);
            1.0 <= r.avgMood <= 10.0 && 1.0 <= r.avgUrge <= 10.0
  {
    var w := InWindow(logs, cutoff);
    WeeklyAveragesInRange(logs, cutoff);
    forall x | x in w ensures WellFormedLog(x) {
      var k :| 0 <= k < |logs| && logs[k] == x;
    }
    var m, u := SeqMin(Moods(w)), SeqMax(Moods(w));
    assert m in Moods(w) && u in Moods(w);
    var um, uu := SeqMin(Urges(w)), SeqMax(Urges(w));
    assert um in Urges(w) && uu in Urges(w);
  }

  // ---------------------------------------------------------------------------
  // The success rate
  // ---------------------------------------------------------------------------

  /** `logs.filter(l => l.relapsed).length`. */
  function CountRelapsed(logs: seq<DailyLog>): (n: nat)
    ensures n <= |logs|
    ensures n == 0 <==> forall i | 0 <= i < |logs| :: !logs[i].relapsed
    ensures n == |logs| <==> forall i | 0 <= i < |logs| :: logs[i].relapsed
  {
    if logs == [] then 0
    else
      var rest := CountRelapsed(logs[1..]);
      assert forall i | 1 <= i < |logs| :: logs[i] == logs[1..][i - 1];
      (if logs[0].relapsed then 1 else 0) + rest
  }

  /** The count of a concatenation is the sum of the counts. */
  lemma {:induction false} CountRelapsedAppend(a: seq<DailyLog>, b: seq<DailyLog>)
    ensures CountRelapsed(a + b) == CountRelapsed(a) + CountRelapsed(b)
  {
    if a != [] {
      CountRelapsedAppend(a[1..], b);
      assert (a + b)[0] == a[0];
      assert (a + b)[1..] == a[1..] + b;
    } else {
      assert a + b == b;
    }
  }

  /** The share of logged days without a relapse, as a percentage; 100 with no logs. */
  function SuccessRate(logs: seq<DailyLog>): real {
    if |logs| > 0 then (|logs| - CountRelapsed(logs)) as real / |logs| as real * 100.0 else 100.0
  }

  /** A share c of n as a percentage. */
  lemma Percent(c: real, n: real)
    requires n > 0.0 && 0.0 <= c <= n
    ensures 0.0 <= c / n * 100.0 <= 100.0
    ensures c / n * 100.0 == 100.0 <==> c == n
    ensures c / n * 100.0 == 0.0 <==> c == 0.0
  {
    var q := c / n;
    assert q * n == c;
  }

  /** The rate is 100 exactly when no log records a relapse, 0 exactly when there are logs and all do, and never outside [0, 100]. */
  lemma SuccessRateCharacterization(logs: seq<DailyLog>)
    ensures 0.0 <= SuccessRate(logs) <= 100.0
    ensures SuccessRate(logs) == 100.0 <==> forall i | 0 <= i < |logs| :: !logs[i].relapsed
    ensures SuccessRate(logs) == 0.0 <==> |logs| > 0 && forall i | 0 <= i < |logs| :: logs[i].relapsed
  {
    if |logs| > 0 {
      Percent((|logs| - CountRelapsed(logs)) as real, |logs| as real);
    }
  }

  // ---------------------------------------------------------------------------
  // Mood emojis
  // ---------------------------------------------------------------------------

  /** The emojis for moods 1 to 10. */
  const MoodEmojis: seq<string> := [
    "\U{1F622}", "\U{1F61F}", "\U{1F610}", "\U{1F642}", "\U{1F60A}",
    "\U{1F604}", "\U{1F929}", "\U{1F973}", "\U{1F31F}", "\U{2728}"]

  const NeutralEmoji: string := "\U{1F610}"

  /** Shown for a chart day whose mood is not positive. */
  const NoMoodMark: string := "\U{26AB}"

  /** getMoodEmoji: `emojis[mood - 1] || neutral`; an index outside the table is undefined and falsy. */
  function MoodEmoji(mood: int): (r: string)
    ensures r in MoodEmojis
  {
    var e := if 1 <= mood <= |MoodEmojis| then MoodEmojis[mood - 1] else "";
    if e == "" then NeutralEmoji else e
  }

  /** Moods 1..10 pick their own emoji, every other mood the neutral one, which is the table's third. */
  lemma MoodEmojiLookup(mood: int)
    ensures 1 <= mood <= 10 ==> MoodEmoji(mood) == MoodEmojis[mood - 1]
    ensures !(1 <= mood <= 10) ==> MoodEmoji(mood) == NeutralEmoji
    ensures MoodEmoji(mood) in MoodEmojis
  {
  }

  /** The emoji under a chart bar. */
  function DayEmoji(day: ChartDay): (r: string)
    ensures day.mood > 0 ==> r in MoodEmojis
    ensures day.mood <= 0 ==> r == NoMoodMark
  {
    if day.mood > 0 then MoodEmoji(day.mood) else NoMoodMark
  }

  /** With well-formed logs every weekly bar shows the emoji of its mood. */
  lemma WeekBarEmojis(logs: seq<DailyLog>, today: Day)
    requires forall i | 0 <= i < |logs| :: WellFormedLog(logs[i])
    ensures var bars := WeekBars(ChartData(logs, today));
            forall k | 0 <= k < |bars| :: 1 <= bars[k].mood <= 10 && DayEmoji(bars[k]) == MoodEmojis[bars[k].mood - 1]
  {
    ChartMoodsInRange(logs, today);
    var chart := ChartData(logs, today);
    var bars := WeekBars(chart);
    forall k | 0 <= k < |bars| ensures 1 <= bars[k].mood <= 10 && DayEmoji(bars[k]) == MoodEmojis[bars[k].mood - 1] {
      assert bars[k] == chart[ChartLength - 7 + k];
      MoodEmojiLookup(bars[k].mood);
    }
  }
}
