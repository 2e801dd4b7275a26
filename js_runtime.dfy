/**
 * The pieces of the JavaScript runtime that the habit tracker's logic relies on,
 * written out as ECMA-262 defines them for integral Number values: ToInt32 and
 * ToUint32 (section 7.1), the `<<` and `&` operators (section 13.9 and 13.12),
 * String.prototype.trim (section 22.1.3) and the global parseInt (section 19.2.5).
 * Numbers are modelled as unbounded integers; IEEE rounding is not modelled.
 */
module JsRuntime {
  import opened Wrappers

  const TwoTo31: int := 0x8000_0000
  const TwoTo32: int := 0x1_0000_0000

  predicate IsInt32(x: int) {
    -TwoTo31 <= x < TwoTo31
  }

  /** ToInt32: the signed 32-bit value congruent to x modulo 2^32. */
  function ToInt32(x: int): (r: int)
    ensures IsInt32(r)
  {
    var m := x % TwoTo32;
    if m < TwoTo31 then m else m - TwoTo32
  }

  /** ToUint32: the unsigned 32-bit value congruent to x modulo 2^32. */
  function ToUint32(x: int): (r: nat)
    ensures r < TwoTo32
  {
    x % TwoTo32
  }

  /** ToInt32 and ToUint32 both keep their input's residue modulo 2^32. */
  lemma ToInt32Congruence(x: int)
    ensures (x - ToInt32(x)) % TwoTo32 == 0
    ensures (x - ToUint32(x)) % TwoTo32 == 0
  {
    var q := x / TwoTo32;
    assert x - ToUint32(x) == q * TwoTo32;
    ModAddMultiple(0, q);
    ToInt32Wraps(x);
    assert x - ToInt32(x) == WrapCount(x) * TwoTo32;
    ModAddMultiple(0, WrapCount(x));
  }

  /** Two integers congruent modulo 2^32 have the same ToInt32. */
  lemma ToInt32Congruent(x: int, y: int)
    requires (x - y) % TwoTo32 == 0
    ensures ToInt32(x) == ToInt32(y)
  {
    var k := (x - y) / TwoTo32;
    assert x == y + k * TwoTo32;
    ModAddMultiple(y, k);
  }

  /** Adding multiples of 2^32 does not change ToInt32. */
  lemma ToInt32Shift(x: int, k: int)
    ensures ToInt32(x + k * TwoTo32) == ToInt32(x)
  {
    ModAddMultiple(x, k);
  }

  /** ToInt32 commutes with an affine map k * x + c. */
  lemma ToInt32Affine(x: int, k: int, c: int)
    ensures ToInt32(k * ToInt32(x) + c) == ToInt32(k * x + c)
  {
    var w := WrapCount(x);
    ToInt32Wraps(x);
    var wm := w * TwoTo32;
    assert k * ToInt32(x) + c == (k * x + c) - k * wm;
    assert k * wm == (k * w) * TwoTo32;
    ToInt32Shift(k * x + c, -(k * w));
  }

  /** How many times ToInt32 wraps x around: ToInt32(x) is x less that many 2^32. */
  function WrapCount(x: int): int {
    x / TwoTo32 + (if x % TwoTo32 < TwoTo31 then 0 else 1)
  }

  lemma ToInt32Wraps(x: int)
    ensures ToInt32(x) == x - WrapCount(x) * TwoTo32
  {
  }

  lemma ModAddMultiple(y: int, k: int)
    ensures (y + k * TwoTo32) % TwoTo32 == y % TwoTo32
  {
  }

  /** ToInt32 is the identity exactly on the signed 32-bit range. */
  lemma ToInt32Identity(x: int)
    ensures ToInt32(x) == x <==> IsInt32(x)
  {
  }

  function Pow2(n: nat): (r: nat)
    ensures r >= 1
  {
    if n == 0 then 1 else 2 * Pow2(n - 1)
  }

  lemma {:induction false} Pow2Add(a: nat, b: nat)
    ensures Pow2(a + b) == Pow2(a) * Pow2(b)
  {
    if a > 0 {
      Pow2Add(a - 1, b);
    }
  }

  lemma Pow2Values()
    ensures Pow2(5) == 32
    ensures Pow2(32) == TwoTo32
  {
    assert Pow2(8) == 256;
    Pow2Add(8, 8);
    Pow2Add(16, 16);
  }

  /** `x << y` for integral operands: x through ToInt32, shifted by y mod 32 bits, the overflow cut off. */
  function ShiftLeft(x: int, y: int): (r: int)
    ensures IsInt32(r)
  {
    ToInt32(ToInt32(x) * Pow2(ToUint32(y) % 32))
  }

  /** The low n bits of a and b ANDed together. */
  function AndBits(a: nat, b: nat, n: nat): (r: nat)
    ensures r < Pow2(n)
  {
    if n == 0 then 0
    else (if a % 2 == 1 && b % 2 == 1 then 1 else 0) + 2 * AndBits(a / 2, b / 2, n - 1)
  }

  /** `x & y` for integral operands: the 32-bit patterns of both ANDed and read back as signed. */
  function BitAnd(x: int, y: int): (r: int)
    ensures IsInt32(r)
  {
    ToInt32(AndBits(ToUint32(x), ToUint32(y), 32))
  }

  lemma {:induction false} AndBitsSelf(a: nat, n: nat)
    requires a < Pow2(n)
    ensures AndBits(a, a, n) == a
  {
    if n > 0 {
      AndBitsSelf(a / 2, n - 1);
    }
  }

  /** `x & x` is ToInt32(x): the idiom only truncates to 32 bits. */
  lemma BitAndSelf(x: int)
    ensures BitAnd(x, x) == ToInt32(x)
  {
    var u := ToUint32(x);
    Pow2Values();
    AndBitsSelf(u, 32);
    assert BitAnd(x, x) == ToInt32(u);
    var q := x / TwoTo32;
    assert u == x + (-q) * TwoTo32;
    ToInt32Shift(x, -q);
  }

  /** The WhiteSpace and LineTerminator code points (section 12.2 and 12.3 of ECMA-262), which trim removes. */
  predicate IsWhitespace(c: char) {
    || c == '\t' || c == '\U{000B}' || c == '\U{000C}' || c == ' ' || c == '\U{00A0}' || c == '\U{FEFF}'
    || c == '\U{1680}' || ('\U{2000}' <= c <= '\U{200A}') || c == '\U{202F}' || c == '\U{205F}' || c == '\U{3000}'
    || c == '\n' || c == '\r' || c == '\U{2028}' || c == '\U{2029}'
  }

  /** Every character of s is white space (the empty string included). */
  predicate IsBlank(s: string) {
    forall i | 0 <= i < |s| :: IsWhitespace(s[i])
  }

  /** s with its leading white space removed. */
  function TrimStart(s: string): (r: string)
    ensures |r| <= |s| && r == s[|s| - |r|..]
    ensures r == [] || !IsWhitespace(r[0])
    ensures IsBlank(s[..|s| - |r|])
  {
    if s != [] && IsWhitespace(s[0]) then TrimStart(s[1..]) else s
  }

  /** s with its trailing white space removed. */
  function TrimEnd(s: string): (r: string)
    ensures |r| <= |s| && r == s[..|r|]
    ensures r == [] || !IsWhitespace(r[|r| - 1])
    ensures IsBlank(s[|r|..])
  {
    if s != [] && IsWhitespace(s[|s| - 1]) then TrimEnd(s[..|s| - 1]) else s
  }

  /** String.prototype.trim. */
  function Trim(s: string): (r: string)
    ensures r == [] || (!IsWhitespace(r[0]) && !IsWhitespace(r[|r| - 1]))
  {
    TrimEnd(TrimStart(s))
  }

  /** Trim removes a blank prefix and a blank suffix and keeps the infix between them. */
  lemma TrimIsInfix(s: string)
    ensures exists lo, hi :: 0 <= lo <= hi <= |s| && Trim(s) == s[lo..hi]
                             && IsBlank(s[..lo]) && IsBlank(s[hi..])
  {
    var t := TrimStart(s);
    var r := TrimEnd(t);
    var lo := |s| - |t|;
    var hi := lo + |r|;
    assert t == s[lo..];
    assert r == t[..|r|];
    assert Trim(s) == r;
    assert r == s[lo..hi];
    assert IsBlank(s[..lo]);
    assert s[hi..] == t[|r|..];
    assert IsBlank(s[hi..]);
  }

  /** A string trims to the empty string exactly when it is blank. */
  lemma TrimEmptyIffBlank(s: string)
    ensures Trim(s) == [] <==> IsBlank(s)
  {
    var t := TrimStart(s);
    assert s == s[..|s| - |t|] + t;
    if IsBlank(s) {
      assert IsBlank(t);
    }
    if Trim(s) == [] {
      assert IsBlank(t[0..]);
    }
  }

  /** Trimming twice is trimming once. */
  lemma TrimIdempotent(s: string)
    ensures Trim(Trim(s)) == Trim(s)
  {
    var r := Trim(s);
    assert TrimStart(r) == r;
    assert TrimEnd(r) == r;
  }

  /** The value of c as a digit in bases up to 36, or 36 when c is no digit. */
  function DigitValue(c: char): (v: nat)
    ensures v <= 36
  {
    if '0' <= c <= '9' then c as int - '0' as int
    else if 'a' <= c <= 'z' then c as int - 'a' as int + 10
    else if 'A' <= c <= 'Z' then c as int - 'A' as int + 10
    else 36
  }

  /** The length of the longest prefix of s made of digits of the given radix. */
  function DigitRunLength(s: string, radix: nat): (n: nat)
    ensures n <= |s|
    ensures forall i | 0 <= i < n :: DigitValue(s[i]) < radix
    ensures n < |s| ==> DigitValue(s[n]) >= radix
  {
    if s != [] && DigitValue(s[0]) < radix then 1 + DigitRunLength(s[1..], radix) else 0
  }

  /** The number that a string of digits denotes in the given radix, most significant digit first. */
  function DigitsValue(z: string, radix: nat): nat
  {
    if z == [] then 0 else DigitsValue(z[..|z| - 1], radix) * radix + DigitValue(z[|z| - 1])
  }

  /**
   * parseInt(s) without a radix: leading white space is skipped, one sign is read,
   * a "0x" or "0X" prefix selects base 16, and the longest run of digits that follows
   * is converted. None stands for NaN (no digit at all); -0 is read as 0.
   */
  function ParseInt(s: string): Option<int> {
    ParseSigned(TrimStart(s))
  }

  /** parseInt after the white space: an optional sign, then the magnitude. */
  function ParseSigned(t: string): Option<int> {
    if t != [] && t[0] == '-' then Negate(ParseMagnitude(t[1..]))
    else if t != [] && t[0] == '+' then ParseMagnitude(t[1..])
    else ParseMagnitude(t)
  }

  function Negate(v: Option<int>): Option<int> {
    match v
    case Some(x) => Some(-x)
    case None => None
  }

  /** The unsigned part of parseInt: the radix prefix, then the digits. */
  function ParseMagnitude(u: string): Option<int>
  {
    if |u| >= 2 && u[0] == '0' && (u[1] == 'x' || u[1] == 'X') then ParseDigits(u[2..], 16)
    else ParseDigits(u, 10)
  }

  /** The value of the longest run of radix digits that starts s, or None when s starts with none. */
  function ParseDigits(s: string, radix: nat): Option<int>
  {
    var n := DigitRunLength(s, radix);
    if n == 0 then None else Some(DigitsValue(s[..n], radix))
  }

  /** A string with no character that could start a number parses to NaN. */
  lemma ParseIntNaN(s: string)
    requires var t := TrimStart(s); t == [] || (t[0] != '-' && t[0] != '+' && DigitValue(t[0]) >= 10)
    ensures ParseInt(s) == None
  {
    var t := TrimStart(s);
    assert ParseInt(s) == ParseSigned(t);
    assert ParseSigned(t) == ParseMagnitude(t);
    if t != [] {
      assert DigitValue('0') == 0;
      assert t[0] != '0';
      assert DigitRunLength(t, 10) == 0;
    }
  }

  function DigitChar(d: nat): (c: char)
    requires d < 10
    ensures DigitValue(c) == d
  {
    ('0' as int + d) as char
  }

  /** The decimal digits of n, most significant first, without leading zeros. */
  function NatDigits(n: nat): (s: string)
    ensures |s| >= 1 && DigitValue(s[0]) < 10
    ensures forall i | 0 <= i < |s| :: DigitValue(s[i]) < 10 && s[i] != 'x' && s[i] != 'X'
    decreases n
  {
    if n < 10 then [DigitChar(n)] else NatDigits(n / 10) + [DigitChar(n % 10)]
  }

  /** The text a number input holds for the integer n. */
  function DecimalString(n: int): string
  {
    if n < 0 then "-" + NatDigits(-n) else NatDigits(n)
  }

  lemma {:induction false} NatDigitsValue(n: nat)
    ensures DigitsValue(NatDigits(n), 10) == n
    decreases n
  {
    if n >= 10 {
      NatDigitsValue(n / 10);
      var s := NatDigits(n);
      assert s[..|s| - 1] == NatDigits(n / 10);
    }
  }

  lemma {:induction false} DigitRunOfDigits(s: string)
    requires forall i | 0 <= i < |s| :: DigitValue(s[i]) < 10
    ensures DigitRunLength(s, 10) == |s|
  {
    if s != [] {
      DigitRunOfDigits(s[1..]);
    }
  }

  lemma ParseDigitsOfNat(m: nat)
    ensures ParseMagnitude(NatDigits(m)) == Some(m)
  {
    var u := NatDigits(m);
    DigitRunOfDigits(u);
    NatDigitsValue(m);
    assert u[..|u|] == u;
  }

  /** A string that starts with no white space is its own TrimStart. */
  lemma TrimStartNoSpace(s: string)
    requires s != [] && !IsWhitespace(s[0])
    ensures TrimStart(s) == s
  {
  }

  /** A decimal digit is no white space and no sign. */
  lemma DigitNotSpace(c: char)
    requires DigitValue(c) < 10
    ensures '0' <= c <= '9' && !IsWhitespace(c)
  {
  }

  /** Without white space or sign in front, parseInt reads the magnitude. */
  lemma ParseIntUnsigned(u: string)
    requires u != [] && '0' <= u[0] <= '9' && !IsWhitespace(u[0])
    ensures ParseInt(u) == ParseMagnitude(u)
  {
    TrimStartNoSpace(u);
  }

  /** With a minus sign in front of a digit, parseInt negates the magnitude. */
  lemma ParseIntMinus(u: string)
    requires u != [] && '0' <= u[0] <= '9'
    ensures ParseInt("-" + u) == Negate(ParseMagnitude(u))
  {
    var s := "-" + u;
    assert s[0] == '-' && s[1..] == u;
    TrimStartNoSpace(s);
  }

  /** parseInt reads back the decimal text of every integer. */
  lemma ParseIntDecimal(n: int)
    ensures ParseInt(DecimalString(n)) == Some(n)
  {
    var m: nat := if n < 0 then -n else n;
    var u := NatDigits(m);
    DigitNotSpace(u[0]);
    ParseDigitsOfNat(m);
    if n < 0 {
      assert DecimalString(n) == "-" + u;
      ParseIntMinus(u);
    } else {
      assert DecimalString(n) == u;
      ParseIntUnsigned(u);
    }
  }
}
