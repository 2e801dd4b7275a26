/**
 * The check-in form: its fields, the record it hands to the application and the
 * reset that follows a submission.
 */
module DailyLogModal {
  import opened Wrappers
  import opened JsRuntime
  import opened Types
  import App

  /** `parseInt(value) || 0` of the count field: NaN and 0 become 0, any other integer is kept. */
  function ParseRelapseCount(text: string): (n: int)
    ensures ParseInt(text).None? ==> n == 0
    ensures ParseInt(text).Some? ==> n == ParseInt(text).value
  {
    match ParseInt(text)
    case None => 0
    case Some(v) => if v == 0 then 0 else v
  }

  /** The field shows the count as a decimal string; reading it back gives the same count. */
  lemma ParseRelapseCountRoundTrip(n: int)
    ensures ParseRelapseCount(DecimalString(n)) == n
  {
    ParseIntDecimal(n);
  }

  /** `notes.trim() || undefined`. */
  function NotesOf(notes: string): (r: Option<string>)
    ensures r.None? <==> IsBlank(notes)
    ensures r.Some? ==> r.value == Trim(notes) && r.value != []
  {
    TrimEmptyIffBlank(notes);
    var t := Trim(notes);
    if t == [] then None else Some(t)
  }

  /** Submitted notes have no surrounding whitespace left to trim. */
  lemma NotesAreTrimmed(notes: string)
    requires NotesOf(notes).Some?
    ensures Trim(NotesOf(notes).value) == NotesOf(notes).value
  {
    TrimIdempotent(notes);
  }

  /** The record handleSubmit passes on: the count only counts with a relapse. */
  function Submission(relapsed: bool, relapseCount: int, urgeLevel: int, mood: int, notes: string): (c: CheckIn)
    ensures c.relapsed == relapsed
    ensures !relapsed ==> c.relapseCount == 0
    ensures relapsed ==> c.relapseCount == relapseCount
    ensures c.urgeLevel == urgeLevel && c.mood == mood
    ensures c.notes == NotesOf(notes)
  {
    CheckIn(relapsed, if relapsed then relapseCount else 0, urgeLevel, mood, NotesOf(notes))
  }

  /** With slider values on the scale and a non-negative count, the stored log is well formed. */
  lemma SubmissionWellFormed(relapsed: bool, relapseCount: int, urgeLevel: int, mood: int, notes: string,
                             id: string, today: Day)
    requires InSliderRange(urgeLevel) && InSliderRange(mood) && relapseCount >= 0
    ensures WellFormedLog(App.NewLog(Submission(relapsed, relapseCount, urgeLevel, mood, notes), id, today))
  {
  }

  class CheckInForm {
    var relapsed: bool
    var relapseCount: int
    var urgeLevel: int
    var mood: int
    var notes: string
    var isSubmitting: bool
    var submitted: bool

    /** The range inputs hold integers from 1 to 10: every method keeps this. */
    ghost predicate Valid()
      reads this
    {
      InSliderRange(urgeLevel) && InSliderRange(mood)
    }

    /** The values the form starts from and returns to. */
    predicate IsDefault()
      reads this
    {
      !relapsed && relapseCount == 0 && urgeLevel == 1 && mood == 5 && notes == []
    }

    constructor ()
      ensures Valid() && IsDefault() && !isSubmitting && !submitted
    {
      relapsed := false;
      relapseCount := 0;
      urgeLevel := 1;
      mood := 5;
      notes := [];
      isSubmitting := false;
      submitted := false;
    }

    /** The No and Yes buttons. */
    method SetRelapsed(b: bool)
      requires Valid()
      modifies this`relapsed
      ensures Valid()
      ensures relapsed == b
    {
      relapsed := b;
    }

    /** The change handler of the count field. */
    method SetRelapseCount(text: string)
      requires Valid()
      modifies this`relapseCount
      ensures Valid()
      ensures relapseCount == ParseRelapseCount(text)
    {
      relapseCount := ParseRelapseCount(text);
    }

    /** The urge slider, whose range input delivers a position from 1 to 10. */
    method SetUrgeLevel(v: int)
      requires Valid() && InSliderRange(v)
      modifies this`urgeLevel
      ensures Valid()
      ensures urgeLevel == v
    {
      urgeLevel := v;
    }

    /** The mood slider, whose range input delivers a position from 1 to 10. */
    method SetMood(v: int)
      requires Valid() && InSliderRange(v)
      modifies this`mood
      ensures Valid()
      ensures mood == v
    {
      mood := v;
    }

    method SetNotes(text: string)
      requires Valid()
      modifies this`notes
      ensures Valid()
      ensures notes == text
    {
      notes := text;
    }

    /**
     * handleSubmit up to the confirmation: the record of the current fields goes out and
     * the form shows its confirmation; the fields themselves are kept until the reset.
     */
    method Submit() returns (data: CheckIn)
      requires Valid()
      modifies this`isSubmitting, this`submitted
      ensures data == Submission(relapsed, relapseCount, urgeLevel, mood, notes)
      ensures submitted && !isSubmitting
      ensures Valid()
      ensures InSliderRange(data.urgeLevel) && InSliderRange(data.mood)
      ensures relapseCount >= 0 ==> data.relapseCount >= 0
    {
      data := Submission(relapsed, relapseCount, urgeLevel, mood, notes);
      isSubmitting := true;
      submitted := true;
      isSubmitting := false;
    }

    /** The timer callback after a submission: the confirmation closes and the fields reset. */
    method FinishSubmit()
      modifies this`submitted, this`relapsed, this`relapseCount, this`urgeLevel, this`mood, this`notes
      ensures Valid() && IsDefault() && !submitted
    {
      submitted := false;
      relapsed := false;
      relapseCount := 0;
      urgeLevel := 1;
      mood := 5;
      notes := [];
    }
  }
}
