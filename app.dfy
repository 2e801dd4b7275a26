/**
 * The application state: the check-in logs, the goals and the stored statistics,
 * and the handlers that change them. Each handler builds the new collection from the
 * old one with filter, map and spread, as the state setters are given; the class
 * holds the three values that the local store keeps.
 */
module App {
  import opened Wrappers
  import opened Types
  import opened Stats

  /** a is b with some elements deleted: a keeps the relative order of b. */
  ghost predicate Subsequence<T>(a: seq<T>, b: seq<T>)
    decreases |b|
  {
    if a == [] then true
    else if b == [] then false
    else (a[0] == b[0] && Subsequence(a[1..], b[1..])) || Subsequence(a, b[1..])
  }

  // ---------------------------------------------------------------------------
  // The log upsert of the check-in handler
  // ---------------------------------------------------------------------------

  /** `prev.filter(log => log.date !== d)`. */
  function WithoutDate(logs: seq<DailyLog>, d: Day): (r: seq<DailyLog>)
    ensures |r| <= |logs|
    ensures forall x | x in r :: x in logs && x.date != d
  {
    if logs == [] then []
    else
      assert logs == [logs[0]] + logs[1..];
      (if logs[0].date != d then [logs[0]] else []) + WithoutDate(logs[1..], d)
  }

  lemma {:induction false} WithoutDateSubsequence(logs: seq<DailyLog>, d: Day)
    ensures Subsequence(WithoutDate(logs, d), logs)
  {
    if logs != [] {
      WithoutDateSubsequence(logs[1..], d);
      var rest := WithoutDate(logs[1..], d);
      if logs[0].date != d {
        assert WithoutDate(logs, d) == [logs[0]] + rest;
        assert ([logs[0]] + rest)[1..] == rest;
      } else {
        assert WithoutDate(logs, d) == rest;
        assert rest == [] || Subsequence(rest, logs[1..]);
      }
    }
  }

  /** The filter keeps every log of another date as often as it occurred. */
  lemma {:induction false} WithoutDateCounts(logs: seq<DailyLog>, d: Day)
    ensures forall x: DailyLog | x.date != d :: multiset(WithoutDate(logs, d))[x] == multiset(logs)[x]
  {
    if logs != [] {
      WithoutDateCounts(logs[1..], d);
      assert logs == [logs[0]] + logs[1..];
    }
  }

  lemma {:induction false} WithoutDateAppend(a: seq<DailyLog>, b: seq<DailyLog>, d: Day)
    ensures WithoutDate(a + b, d) == WithoutDate(a, d) + WithoutDate(b, d)
  {
    if a == [] {
      assert a + b == b;
    } else {
      var h := if a[0].date != d then [a[0]] else [];
      assert (a + b)[0] == a[0];
      assert (a + b)[1..] == a[1..] + b;
      WithoutDateAppend(a[1..], b, d);
      calc {
        WithoutDate(a + b, d);
        h + WithoutDate(a[1..] + b, d);
        h + (WithoutDate(a[1..], d) + WithoutDate(b, d));
        (h + WithoutDate(a[1..], d)) + WithoutDate(b, d);
        WithoutDate(a, d) + WithoutDate(b, d);
      }
    }
  }

  lemma {:induction false} WithoutDateIdempotent(logs: seq<DailyLog>, d: Day)
    ensures WithoutDate(WithoutDate(logs, d), d) == WithoutDate(logs, d)
  {
    if logs != [] {
      WithoutDateIdempotent(logs[1..], d);
      var head := if logs[0].date != d then [logs[0]] else [];
      WithoutDateAppend(head, WithoutDate(logs[1..], d), d);
    }
  }

  lemma WithoutDateKeepsDistinct(logs: seq<DailyLog>, d: Day)
    requires DistinctDates(logs)
    ensures DistinctDates(WithoutDate(logs, d))
  {
    var r := WithoutDate(logs, d);
    forall i, j | 0 <= i < j < |r| ensures r[i].date != r[j].date {
      WithoutDateSubsequence(logs, d);
      SubsequenceKeepsDistinct(r, logs);
    }
  }

  lemma {:induction false} SubsequenceKeepsDistinct(a: seq<DailyLog>, b: seq<DailyLog>)
    requires Subsequence(a, b) && DistinctDates(b)
    ensures DistinctDates(a)
    decreases |b|
  {
    if a != [] {
      if a[0] == b[0] && Subsequence(a[1..], b[1..]) {
        SubsequenceKeepsDistinct(a[1..], b[1..]);
        SubsequenceIn(a[1..], b[1..]);
        forall j | 1 <= j < |a| ensures a[0].date != a[j].date {
          assert a[1..][j - 1] in b[1..];
        }
      } else {
        SubsequenceKeepsDistinct(a, b[1..]);
      }
    }
  }

  lemma {:induction false} SubsequenceIn<T>(a: seq<T>, b: seq<T>)
    requires Subsequence(a, b)
    ensures forall x | x in a :: x in b
    decreases |b|
  {
    if a != [] {
      if a[0] == b[0] && Subsequence(a[1..], b[1..]) {
        SubsequenceIn(a[1..], b[1..]);
        assert forall x | x in a :: x == a[0] || x in a[1..];
      } else {
        SubsequenceIn(a, b[1..]);
      }
    }
  }

  /** The log that a check-in for today becomes. */
  function NewLog(data: CheckIn, id: string, today: Day): DailyLog {
    DailyLog(id, today, data.relapsed, data.relapseCount, data.urgeLevel, data.mood, data.notes)
  }

  /** `[...prev.filter(log => log.date !== l.date), l]`. */
  function Upserted(logs: seq<DailyLog>, l: DailyLog): seq<DailyLog> {
    WithoutDate(logs, l.date) + [l]
  }

  /**
   * After the upsert exactly one log carries the new log's date: the new log, which is
   * last; the others are the old logs of other dates, in their old order and number.
   */
  lemma UpsertLaw(logs: seq<DailyLog>, l: DailyLog)
    ensures var r := Upserted(logs, l);
            && |r| >= 1 && r[|r| - 1] == l
            && (forall i | 0 <= i < |r| :: r[i].date == l.date <==> i == |r| - 1)
            && Subsequence(r[..|r| - 1], logs)
            && (forall x: DailyLog | x.date != l.date :: multiset(r)[x] == multiset(logs)[x])
            && FindLog(r, l.date) == Some(l)
  {
    var r := Upserted(logs, l);
    var kept := WithoutDate(logs, l.date);
    assert r[..|r| - 1] == kept;
    WithoutDateSubsequence(logs, l.date);
    WithoutDateCounts(logs, l.date);
    forall i | 0 <= i < |r| - 1 ensures r[i].date != l.date {
      assert r[i] in kept;
    }
  }

  /** The upsert keeps at most one log per date. */
  lemma UpsertKeepsDistinct(logs: seq<DailyLog>, l: DailyLog)
    requires DistinctDates(logs)
    ensures DistinctDates(Upserted(logs, l))
  {
    WithoutDateKeepsDistinct(logs, l.date);
    UpsertLaw(logs, l);
  }

  /** Two check-ins for the same day leave only the second. */
  lemma UpsertTwice(logs: seq<DailyLog>, a: DailyLog, b: DailyLog)
    requires a.date == b.date
    ensures Upserted(Upserted(logs, a), b) == Upserted(logs, b)
  {
    WithoutDateAppend(WithoutDate(logs, a.date), [a], a.date);
    WithoutDateIdempotent(logs, a.date);
  }

  /** After today's check-in the current streak is 0 for a relapse and at least 1 otherwise. */
  lemma StreakAfterCheckIn(logs: seq<DailyLog>, l: DailyLog)
    ensures !l.relapsed ==> CurrentStreak(Upserted(logs, l), l.date) >= 1
    ensures l.relapsed ==> CurrentStreak(Upserted(logs, l), l.date) == 0
  {
    UpsertLaw(logs, l);
  }

  // ---------------------------------------------------------------------------
  // The goal handlers
  // ---------------------------------------------------------------------------

  /** `{ ...goalData, id, createdAt }`. */
  function GoalFromDraft(draft: GoalDraft, id: string, createdAt: string): Goal {
    Goal(id, draft.title, draft.description, draft.targetDays, createdAt, draft.isCompleted, draft.goalType)
  }

  /** `prev.filter(goal => goal.id !== id)`. */
  function WithoutGoal(goals: seq<Goal>, id: string): (r: seq<Goal>)
    ensures |r| <= |goals|
    ensures forall g | g in r :: g in goals && g.id != id
  {
    if goals == [] then []
    else
      assert goals == [goals[0]] + goals[1..];
      (if goals[0].id != id then [goals[0]] else []) + WithoutGoal(goals[1..], id)
  }

  lemma {:induction false} WithoutGoalSubsequence(goals: seq<Goal>, id: string)
    ensures Subsequence(WithoutGoal(goals, id), goals)
  {
    if goals != [] {
      WithoutGoalSubsequence(goals[1..], id);
      var rest := WithoutGoal(goals[1..], id);
      if goals[0].id != id {
        assert WithoutGoal(goals, id) == [goals[0]] + rest;
        assert ([goals[0]] + rest)[1..] == rest;
      } else {
        assert WithoutGoal(goals, id) == rest;
        assert rest == [] || Subsequence(rest, goals[1..]);
      }
    }
  }

  /** The filter keeps every goal with another id as often as it occurred. */
  lemma {:induction false} WithoutGoalCounts(goals: seq<Goal>, id: string)
    ensures forall g: Goal | g.id != id :: multiset(WithoutGoal(goals, id))[g] == multiset(goals)[g]
  {
    if goals != [] {
      WithoutGoalCounts(goals[1..], id);
      assert goals == [goals[0]] + goals[1..];
    }
  }

  /** Deleting a goal twice is deleting it once. */
  lemma {:induction false} WithoutGoalIdempotent(goals: seq<Goal>, id: string)
    ensures WithoutGoal(WithoutGoal(goals, id), id) == WithoutGoal(goals, id)
  {
    if goals != [] {
      WithoutGoalIdempotent(goals[1..], id);
      var rest := WithoutGoal(goals[1..], id);
      if goals[0].id != id {
        var once := [goals[0]] + rest;
        assert WithoutGoal(goals, id) == once;
        assert once[0] == goals[0] && once[1..] == rest;
        assert WithoutGoal(once, id) == [goals[0]] + WithoutGoal(rest, id);
      } else {
        assert WithoutGoal(goals, id) == rest;
      }
    }
  }

  /** Deleting an id that no goal has changes nothing. */
  lemma {:induction false} WithoutAbsentGoal(goals: seq<Goal>, id: string)
    requires forall i | 0 <= i < |goals| :: goals[i].id != id
    ensures WithoutGoal(goals, id) == goals
  {
    if goals != [] {
      WithoutAbsentGoal(goals[1..], id);
      assert goals == [goals[0]] + goals[1..];
    }
  }

  /** `goal.id === id ? { ...goal, isCompleted: !goal.isCompleted } : goal`. */
  function FlipIfMatching(g: Goal, id: string): Goal {
    if g.id == id then g.(isCompleted := !g.isCompleted) else g
  }

  /** `prev.map(goal => ...)` of the toggle handler. */
  function WithGoalToggled(goals: seq<Goal>, id: string): (r: seq<Goal>)
    ensures |r| == |goals|
  {
    seq(|goals|, i requires 0 <= i < |goals| => FlipIfMatching(goals[i], id))
  }

  /** Toggling flips the completion flag of exactly the goals with the id and changes nothing else. */
  lemma ToggleFlipsOnlyMatching(goals: seq<Goal>, id: string)
    ensures var r := WithGoalToggled(goals, id);
            forall i | 0 <= i < |goals| ::
              && r[i].isCompleted == (if goals[i].id == id then !goals[i].isCompleted else goals[i].isCompleted)
              && r[i].(isCompleted := goals[i].isCompleted) == goals[i]
  {
  }

  /** Toggling the same id twice restores the goals. */
  lemma ToggleTwice(goals: seq<Goal>, id: string)
    ensures WithGoalToggled(WithGoalToggled(goals, id), id) == goals
  {
    var r := WithGoalToggled(WithGoalToggled(goals, id), id);
    assert forall i | 0 <= i < |goals| :: r[i] == goals[i];
  }

  // ---------------------------------------------------------------------------
  // The application state
  // ---------------------------------------------------------------------------

  class Tracker {
    var logs: seq<DailyLog>
    var goals: seq<Goal>
    var stats: UserStats

    /** At most one log per date, as the upsert guarantees. */
    ghost predicate Valid()
      reads this
    {
      DistinctDates(logs)
    }

    /** The defaults used when the store holds nothing yet. */
    constructor (startDate: string)
      ensures Valid()
      ensures logs == [] && goals == []
      ensures stats == UserStats(0, 0, 0, startDate, None)
    {
      logs := [];
      goals := [];
      stats := UserStats(0, 0, 0, startDate, None);
    }

    /** hasLoggedToday. */
    function HasLoggedToday(today: Day): bool
      reads this
    {
      HasLogOn(logs, today)
    }

    /** The statistics effect, run whenever the logs change. */
    method RecomputeStats(today: Day)
      modifies this`stats
      ensures stats == RecomputedStats(old(stats), logs, today)
      ensures stats.longestStreak >= old(stats.longestStreak)
      ensures Valid() && (forall i | 0 <= i < |logs| :: logs[i].date <= today) ==>
              stats.currentStreak <= stats.longestStreak
    {
      var currentStreak := ComputeCurrentStreak(logs, today);
      var longestStreak := ComputeLongestStreak(logs);
      var totalRelapses := SumRelapseCounts(logs);
      stats := stats.(currentStreak := currentStreak,
                      longestStreak := Max(longestStreak, stats.longestStreak),
                      totalRelapses := totalRelapses);
      assert Valid() && (forall i | 0 <= i < |logs| :: logs[i].date <= today) ==>
             stats.currentStreak <= stats.longestStreak by {
        if Valid() && (forall i | 0 <= i < |logs| :: logs[i].date <= today) {
          CurrentAtMostLongest(logs, today);
        }
      }
    }

    /** handleLogSubmit: replace today's log, if any, by the new one and record the date. */
    method LogSubmit(data: CheckIn, id: string, today: Day)
      requires Valid()
      modifies this`logs, this`stats
      ensures Valid()
      ensures logs == Upserted(old(logs), NewLog(data, id, today))
      ensures stats == old(stats).(lastLogDate := Some(today))
      ensures HasLoggedToday(today)
    {
      var newLog := NewLog(data, id, today);
      logs := WithoutDate(logs, today) + [newLog];
      stats := stats.(lastLogDate := Some(today));
      UpsertKeepsDistinct(old(logs), newLog);
      assert logs[|logs| - 1].date == today;
    }

    /** A check-in followed by the effect it triggers. */
    method SubmitCheckIn(data: CheckIn, id: string, today: Day)
      requires Valid()
      modifies this`logs, this`stats
      ensures Valid()
      ensures logs == Upserted(old(logs), NewLog(data, id, today))
      ensures stats == RecomputedStats(old(stats).(lastLogDate := Some(today)), logs, today)
      ensures data.relapsed ==> stats.currentStreak == 0
      ensures !data.relapsed ==> stats.currentStreak >= 1
    {
      LogSubmit(data, id, today);
      RecomputeStats(today);
      StreakAfterCheckIn(old(logs), NewLog(data, id, today));
    }

    /** handleAddGoal. */
    method AddGoal(draft: GoalDraft, id: string, createdAt: string)
      requires Valid()
      modifies this`goals
      ensures Valid()
      ensures goals == old(goals) + [GoalFromDraft(draft, id, createdAt)]
    {
      goals := goals + [GoalFromDraft(draft, id, createdAt)];
    }

    /** handleDeleteGoal. */
    method DeleteGoal(id: string)
      requires Valid()
      modifies this`goals
      ensures Valid()
      ensures goals == WithoutGoal(old(goals), id)
    {
      goals := WithoutGoal(goals, id);
    }

    /** handleToggleGoal. */
    method ToggleGoal(id: string)
      requires Valid()
      modifies this`goals
      ensures Valid()
      ensures goals == WithGoalToggled(old(goals), id)
    {
      goals := WithGoalToggled(goals, id);
    }
  }
}
