/**
 * The quote of the day: a fixed table of eight quotes and a choice among them by a
 * 32-bit string hash of the day's date string, the recurrence h := 31 * h + c that
 * Java's String.hashCode also uses, computed with JavaScript's `<<` and `&`.
 */
module MotivationalQuotes {
  import opened Wrappers
  import opened JsRuntime
  import opened Types

  const Quotes: seq<MotivationalContent> := [
    MotivationalContent(
      "The strongest people are not those who show strength in front of us, but those who win battles we know nothing about.",
      "Anonymous",
      Some("Remember that every day you resist is a victory worth celebrating.")),
    MotivationalContent(
      "Discipline is choosing between what you want now and what you want most.",
      "Abraham Lincoln",
      Some("Focus on your long-term goals when urges arise.")),
    MotivationalContent(
      "You have power over your mind - not outside events. Realize this, and you will find strength.",
      "Marcus Aurelius",
      Some("Practice mindfulness when facing difficult moments.")),
    MotivationalContent(
      "The pain of discipline weighs ounces while the pain of regret weighs tons.",
      "Jim Rohn",
      Some("Channel your energy into productive activities like exercise or hobbies.")),
    MotivationalContent(
      "Success is the sum of small efforts repeated day in and day out.",
      "Robert Collier",
      Some("Take it one day at a time. Every day counts.")),
    MotivationalContent(
      "Your future self is counting on your present self to make the right choice.",
      "Anonymous",
      Some("Visualize the person you want to become.")),
    MotivationalContent(
      "The only impossible journey is the one you never begin.",
      "Tony Robbins",
      Some("Progress, not perfection, is the goal.")),
    MotivationalContent(
      "Champions keep playing until they get it right.",
      "Billie Jean King",
      Some("If you slip up, get back on track immediately."))
  ]

  /** Eight entries, each with a quote, an author and a tip. */
  lemma QuoteTable()
    ensures |Quotes| == 8
    ensures forall i | 0 <= i < |Quotes| :: Quotes[i].quote != [] && Quotes[i].author != [] && Quotes[i].tip.Some?
  {
  }

  /** A UTF-16 code unit, what `charCodeAt` returns. */
  type CodeUnit = c: int | 0 <= c < 0x1_0000

  /** `split('')` followed by `charCodeAt(0)`: the UTF-16 code units of s, astral characters as surrogate pairs. */
  function CodeUnits(s: string): (r: seq<CodeUnit>)
    ensures |r| >= |s|
    ensures (forall i | 0 <= i < |s| :: s[i] as int < 0x1_0000) ==>
              |r| == |s| && forall i | 0 <= i < |s| :: r[i] == s[i] as int
  {
    if s == [] then []
    else
      var c := s[0] as int;
      var head: seq<CodeUnit> := if c < 0x1_0000 then [c]
                                 else [0xD800 + (c - 0x1_0000) / 0x400, 0xDC00 + (c - 0x1_0000) % 0x400];
      var rest := CodeUnits(s[1..]);
      assert forall i | 1 <= i < |s| :: s[i] == s[1..][i - 1];
      head + rest
  }

  /** One step of the reducer: `a = ((a << 5) - a) + code; return a & a`. */
  function HashStep(a: int, code: CodeUnit): (r: int)
    ensures IsInt32(r)
  {
    var t := ShiftLeft(a, 5) - a + code;
    BitAnd(t, t)
  }

  /** The reduce over the code units, starting from 0. */
  function Hash(units: seq<CodeUnit>): (h: int)
    ensures IsInt32(h)
  {
    if units == [] then 0 else HashStep(Hash(units[..|units| - 1]), units[|units| - 1])
  }

  /** The same recurrence on unbounded integers. */
  function PolyHash(units: seq<CodeUnit>): int {
    if units == [] then 0 else 31 * PolyHash(units[..|units| - 1]) + units[|units| - 1]
  }

  /** `a << 5` on a signed 32-bit a is 32 * a reduced to signed 32 bits. */
  lemma ShiftLeftFive(a: int)
    requires IsInt32(a)
    ensures ShiftLeft(a, 5) == ToInt32(32 * a)
  {
    Pow2Values();
    ToInt32Identity(a);
    assert ToUint32(5) % 32 == 5;
  }

  /** The `& t` of a step only truncates t to signed 32 bits. */
  lemma HashStepTruncates(a: int, code: CodeUnit)
    ensures HashStep(a, code) == ToInt32(ShiftLeft(a, 5) - a + code)
  {
    BitAndSelf(ShiftLeft(a, 5) - a + code);
  }

  /** Truncating the shifted accumulator first does not change the truncated step. */
  lemma ShiftedStepValue(a: int, code: CodeUnit)
    requires IsInt32(a)
    ensures ToInt32(ShiftLeft(a, 5) - a + code) == ToInt32(31 * a + code)
  {
    var s := ShiftLeft(a, 5);
    ShiftLeftFive(a);
    ToInt32Affine(32 * a, 1, code - a);
    assert 1 * ToInt32(32 * a) + (code - a) == s - a + code;
    assert 1 * (32 * a) + (code - a) == 31 * a + code;
  }

  /** From a signed 32-bit accumulator a step is 31 * a + code reduced to signed 32 bits. */
  lemma HashStepValue(a: int, code: CodeUnit)
    requires IsInt32(a)
    ensures HashStep(a, code) == ToInt32(31 * a + code)
  {
    HashStepTruncates(a, code);
    ShiftedStepValue(a, code);
  }

  /** One step commutes with the reduction to signed 32 bits. */
  lemma HashStepReduced(p: int, code: CodeUnit)
    ensures HashStep(ToInt32(p), code) == ToInt32(31 * p + code)
  {
    assert HashStep(ToInt32(p), code) == ToInt32(31 * ToInt32(p) + code) by {
      HashStepValue(ToInt32(p), code);
    }
    assert ToInt32(31 * ToInt32(p) + code) == ToInt32(31 * p + code) by {
      ToInt32Affine(p, 31, code);
    }
  }

  /** The hash is the unbounded polynomial hash reduced to signed 32 bits. */
  lemma {:induction false} HashIsReducedPolyHash(units: seq<CodeUnit>)
    ensures Hash(units) == ToInt32(PolyHash(units))
  {
    if units != [] {
      var init := units[..|units| - 1];
      var c := units[|units| - 1];
      HashIsReducedPolyHash(init);
      HashStepReduced(PolyHash(init), c);
    }
  }

  /** The empty string hashes to 0 and a single code unit to itself. */
  lemma HashShortInputs(c: CodeUnit)
    ensures Hash([]) == 0
    ensures Hash([c]) == c
  {
    assert [c][..0] == [];
    HashStepValue(0, c);
    ToInt32Identity(c);
  }

  /** `Math.abs(hash) % motivationalQuotes.length`. */
  function QuoteIndex(units: seq<CodeUnit>): (i: nat)
    ensures i < |Quotes|
  {
    var h := Hash(units);
    (if h < 0 then -h else h) % |Quotes|
  }

  /** getTodaysQuote for the day's date string. */
  function TodaysQuote(dateString: string): (q: MotivationalContent)
    ensures q in Quotes
  {
    Quotes[QuoteIndex(CodeUnits(dateString))]
  }
}
