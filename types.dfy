/**
 * The record shapes of the habit tracker. Calendar dates are day numbers; the
 * numeric fields are unbounded integers, since the input parsers can produce any
 * integer and only the browser's form constraints keep them in range.
 */
module Types {
  import opened Wrappers

  /** A calendar date, as a day number. */
  type Day = int

  /** One daily check-in. */
  datatype DailyLog = DailyLog(
    id: string,
    date: Day,
    relapsed: bool,
    relapseCount: int,
    urgeLevel: int,
    mood: int,
    notes: Option<string>)

  datatype GoalType = ShortTerm | LongTerm

  datatype Goal = Goal(
    id: string,
    title: string,
    description: string,
    targetDays: int,
    createdAt: string,
    isCompleted: bool,
    goalType: GoalType)

  /** The cached statistics; startDate is an opaque timestamp that nothing here computes with. */
  datatype UserStats = UserStats(
    currentStreak: int,
    longestStreak: int,
    totalRelapses: int,
    startDate: string,
    lastLogDate: Option<Day>)

  /** What the check-in form hands to the application: a DailyLog without its id and date. */
  datatype CheckIn = CheckIn(
    relapsed: bool,
    relapseCount: int,
    urgeLevel: int,
    mood: int,
    notes: Option<string>)

  /** What the goal form hands to the application: a Goal without its id and createdAt. */
  datatype GoalDraft = GoalDraft(
    title: string,
    description: string,
    targetDays: int,
    goalType: GoalType,
    isCompleted: bool)

  /** A quote with its author and an optional tip. */
  datatype MotivationalContent = MotivationalContent(quote: string, author: string, tip: Option<string>)

  /** The range of the urge and mood sliders. */
  predicate InSliderRange(x: int) {
    1 <= x <= 10
  }

  /** A log as the check-in form can produce it when its count input holds a non-negative number. */
  predicate WellFormedLog(l: DailyLog) {
    && l.relapseCount >= 0
    && (!l.relapsed ==> l.relapseCount == 0)
    && InSliderRange(l.urgeLevel)
    && InSliderRange(l.mood)
  }
}
