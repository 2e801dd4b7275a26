/**
 * The goals screen: the progress percentage and achievement test shown for each goal,
 * and the add-goal form with its validation, its target-days parse and its reset.
 */
module GoalSetting {
  import opened Wrappers
  import opened JsRuntime
  import opened Types
  import App

  // ---------------------------------------------------------------------------
  // Progress and achievement
  // ---------------------------------------------------------------------------

  /** `Math.min(a, b)` on finite numbers. */
  function Min(a: real, b: real): real {
    if a < b then a else b
  }

  /**
   * getProgress: 100 for a completed goal, otherwise the streak as a percentage of the
   * target, clamped at 100. The result is a JavaScript number: None stands for NaN, which
   * only the quotient 0 / 0 produces; a positive streak over a target of 0 is +Infinity,
   * which the clamp turns into 100.
   */
  function Progress(goal: Goal, streak: nat): (r: Option<real>)
    ensures r.None? <==> !goal.isCompleted && goal.targetDays == 0 && streak == 0
    ensures r.Some? ==> r.value <= 100.0
    ensures goal.targetDays >= 0 && r.Some? ==> r.value >= 0.0
  {
    if goal.isCompleted then Some(100.0)
    else if goal.targetDays == 0 then (if streak == 0 then None else Some(100.0))
    else Some(Min(streak as real / goal.targetDays as real * 100.0, 100.0))
  }

  /** The isAchieved expression of a goal card. */
  predicate IsAchieved(goal: Goal, streak: nat) {
    streak >= goal.targetDays || goal.isCompleted
  }

  /** The mark-complete button is rendered for an achieved goal that is not yet completed. */
  predicate ShowsMarkComplete(goal: Goal, streak: nat) {
    IsAchieved(goal, streak) && !goal.isCompleted
  }

  /** A completed goal is at 100 whatever the streak. */
  lemma ProgressOfCompleted(goal: Goal, streak: nat)
    requires goal.isCompleted
    ensures Progress(goal, streak) == Some(100.0)
  {
  }

  /** With a positive target the progress is a number between 0 and 100. */
  lemma ProgressBounds(goal: Goal, streak: nat)
    requires goal.targetDays >= 1
    ensures Progress(goal, streak).Some?
    ensures 0.0 <= Progress(goal, streak).value <= 100.0
  {
    if !goal.isCompleted {
      var q := streak as real / goal.targetDays as real;
      assert q >= 0.0;
    }
  }

  /** Below the target the progress is the exact share of the target reached. */
  lemma ProgressBelowTarget(goal: Goal, streak: nat)
    requires !goal.isCompleted && streak < goal.targetDays
    ensures Progress(goal, streak) == Some(100.0 * streak as real / goal.targetDays as real)
  {
    var t := goal.targetDays as real;
    assert streak as real / t < 1.0;
    assert streak as real / t * 100.0 == 100.0 * streak as real / t;
  }

  /** A longer streak never shows less progress. */
  lemma ProgressMonotone(goal: Goal, s1: nat, s2: nat)
    requires goal.targetDays >= 1 && s1 <= s2
    ensures Progress(goal, s1).Some? && Progress(goal, s2).Some?
    ensures Progress(goal, s1).value <= Progress(goal, s2).value
  {
    if !goal.isCompleted {
      var t := goal.targetDays as real;
      assert s1 as real / t <= s2 as real / t;
    }
  }

  /** With a positive target a goal is achieved exactly when its progress is full. */
  lemma AchievedIffFull(goal: Goal, streak: nat)
    requires goal.targetDays >= 1
    ensures IsAchieved(goal, streak) <==> Progress(goal, streak) == Some(100.0)
  {
    if !goal.isCompleted {
      var t := goal.targetDays as real;
      if streak >= goal.targetDays {
        assert streak as real / t >= 1.0;
      } else {
        assert streak as real / t < 1.0;
      }
    }
  }

  /** Pressing mark-complete toggles the goal to completed; afterwards it stays achieved and the button is gone. */
  lemma MarkCompleteHides(goals: seq<Goal>, i: nat, streak: nat)
    requires i < |goals| && ShowsMarkComplete(goals[i], streak)
    ensures var g := App.WithGoalToggled(goals, goals[i].id)[i];
            && g.isCompleted
            && IsAchieved(g, streak)
            && !ShowsMarkComplete(g, streak)
            && Progress(g, streak) == Some(100.0)
  {
  }

  // ---------------------------------------------------------------------------
  // The add-goal form
  // ---------------------------------------------------------------------------

  /** `parseInt(value) || 1`: NaN and 0 become 1, any other integer is kept. */
  function ParseTargetDays(text: string): (n: int)
    ensures n != 0
    ensures ParseInt(text).None? ==> n == 1
    ensures ParseInt(text) == Some(0) ==> n == 1
    ensures ParseInt(text).Some? && ParseInt(text).value != 0 ==> n == ParseInt(text).value
  {
    match ParseInt(text)
    case None => 1
    case Some(v) => if v == 0 then 1 else v
  }

  /** The number field shows the target as a decimal string; reading it back gives the same target. */
  lemma ParseTargetDaysRoundTrip(n: int)
    requires n != 0
    ensures ParseTargetDays(DecimalString(n)) == n
  {
    ParseIntDecimal(n);
  }

  /** handleSubmit's output: nothing for a blank title, otherwise the form's fields as a not-yet-completed goal. */
  function DraftOf(title: string, description: string, targetDays: int, goalType: GoalType): (r: Option<GoalDraft>)
    ensures r.None? <==> IsBlank(title)
    ensures r.Some? ==> r.value == GoalDraft(title, description, targetDays, goalType, false)
  {
    TrimEmptyIffBlank(title);
    if Trim(title) == [] then None
    else Some(GoalDraft(title, description, targetDays, goalType, false))
  }

  class GoalForm {
    var showAddForm: bool
    var title: string
    var description: string
    var targetDays: int
    var goalType: GoalType

    /** The target typed into the form is never 0: it starts at 7 and the parse maps 0 to 1. */
    ghost predicate Valid()
      reads this
    {
      targetDays != 0
    }

    /** The form as the screen first shows it: closed and at its defaults. */
    predicate IsReset()
      reads this
    {
      title == [] && description == [] && targetDays == 7 && goalType == ShortTerm
    }

    constructor ()
      ensures Valid() && IsReset() && !showAddForm
    {
      showAddForm := false;
      title := [];
      description := [];
      targetDays := 7;
      goalType := ShortTerm;
    }

    /** The Add New Goal button. */
    method Open()
      modifies this`showAddForm
      ensures showAddForm
    {
      showAddForm := true;
    }

    /** The Cancel button and a click on the backdrop. */
    method Close()
      modifies this`showAddForm
      ensures !showAddForm
    {
      showAddForm := false;
    }

    method SetTitle(text: string)
      modifies this`title
      ensures title == text
    {
      title := text;
    }

    method SetDescription(text: string)
      modifies this`description
      ensures description == text
    {
      description := text;
    }

    /** The change handler of the target-days field. */
    method SetTargetDays(text: string)
      modifies this`targetDays
      ensures targetDays == ParseTargetDays(text)
      ensures Valid()
    {
      targetDays := ParseTargetDays(text);
    }

    /** The Short-term and Long-term buttons. */
    method SetGoalType(t: GoalType)
      modifies this`goalType
      ensures goalType == t
    {
      goalType := t;
    }

    /**
     * handleSubmit: a blank title submits nothing and leaves the form as it is;
     * otherwise the draft goes out and the form resets and closes.
     */
    method Submit() returns (draft: Option<GoalDraft>)
      requires Valid()
      modifies this
      ensures Valid()
      ensures draft == DraftOf(old(title), old(description), old(targetDays), old(goalType))
      ensures draft.None? ==> unchanged(this)
      ensures draft.Some? ==> IsReset() && !showAddForm
      ensures draft.Some? ==> draft.value.targetDays != 0
    {
      if Trim(title) == [] {
        return None;
      }
      draft := Some(GoalDraft(title, description, targetDays, goalType, false));
      title := [];
      description := [];
      targetDays := 7;
      goalType := ShortTerm;
      showAddForm := false;
    }
  }
}
