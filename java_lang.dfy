// Java language semantics that the modelled classes depend on: fixed-width
// integer ranges, truncating division and remainder, the saturating
// double-to-int cast, and the java.lang.String operations they call.
module JavaLang {
  import opened Wrappers

  const INT_MIN: int := -0x8000_0000
  const INT_MAX: int := 0x7fff_ffff
  const LONG_MIN: int := -0x8000_0000_0000_0000
  const LONG_MAX: int := 0x7fff_ffff_ffff_ffff

  /** `Double.MAX_VALUE`, (2 - 2^-52) * 2^1023 = (2^53 - 1) * 2^971. */
  const DOUBLE_MAX_VALUE: real := 179769313486231570814527423731704356798070567525844996598917476803157260780028538760589558632766878171540458953514382464234321326889464182768467546703537516986049910576551282076245490090389328944075868508455133942304583236903222948165808559332123348274797826204144723168738177180919299881250404026184124858368.0
  /** `Double.MIN_VALUE`, the smallest POSITIVE double, 2^-1074. */
  const DOUBLE_MIN_VALUE: real := 1.0 / 202402253307310618352495346718917307049556649764142118356901358027430339567995346891960383701437124495187077864316811911389808737385793476867013399940738509921517424276566361364466907742093216341239767678472745068562007483424692698618103355649159556340810056512358769552333414615230502532186327508646006263307707741093494784.0

  predicate IsInt(x: int) { INT_MIN <= x <= INT_MAX }
  predicate IsLong(x: int) { LONG_MIN <= x <= LONG_MAX }

  function Abs(x: int): nat { if x < 0 then -x else x }

  /** Java's 32-bit int arithmetic: the exact value wrapped into the int
      range. */
  function IntWrap(x: int): (r: int)
    ensures IsInt(r)
    ensures IsInt(x) ==> r == x
    ensures INT_MAX < x <= 2 * INT_MAX + 1 ==> r == x - 0x1_0000_0000
  {
    (x - INT_MIN) % 0x1_0000_0000 + INT_MIN
  }

  /** Java's `%` on integers: the remainder takes the sign of the dividend. */
  function JavaRem(a: int, b: int): (r: int)
    requires b != 0
    ensures Abs(r) < Abs(b)
    ensures a >= 0 ==> r >= 0
    ensures a <= 0 ==> r <= 0
  {
    if a >= 0 then a % Abs(b) else -((-a) % Abs(b))
  }

  /** Java's `/` on integers: the quotient is truncated toward zero, so that
      it and `%` put the dividend back together. */
  function JavaDiv(a: int, b: int): (q: int)
    requires b != 0
    ensures q * b + JavaRem(a, b) == a
  {
    if a >= 0 then (if b > 0 then a / b else -(a / Abs(b)))
    else (if b > 0 then -((-a) / b) else (-a) / Abs(b))
  }

  /** Java's `(int)` cast of a double: truncation toward zero, saturating at the int range. */
  function DoubleToInt(x: real): (n: int)
    ensures IsInt(n)
    ensures INT_MIN as real <= x <= INT_MAX as real ==> (n as real <= x < n as real + 1.0 || n as real - 1.0 < x <= n as real)
    ensures 0.0 <= x <= INT_MAX as real ==> n == x.Floor
  {
    if x >= INT_MAX as real then INT_MAX
    else if x <= INT_MIN as real then INT_MIN
    else if x >= 0.0 then x.Floor
    else -((-x).Floor)
  }

  // ---------------------------------------------------------------- strings

  predicate StartsWith(s: string, p: string) { |p| <= |s| && s[..|p|] == p }
  predicate EndsWith(s: string, p: string) { |p| <= |s| && s[|s| - |p|..] == p }
  predicate OccursAt(s: string, p: string, i: int) { 0 <= i && i + |p| <= |s| && s[i..i + |p|] == p }
  predicate Contains(s: string, p: string) { exists i :: 0 <= i <= |s| && OccursAt(s, p, i) }

  /** `s.indexOf(p, from)`: the first occurrence at or after `from`, or -1. */
  function IndexOfFrom(s: string, p: string, from: nat): (r: int)
    decreases |s| - from
    ensures r == -1 || (from <= r && OccursAt(s, p, r))
    ensures r == -1 ==> forall i :: from <= i ==> !OccursAt(s, p, i)
    ensures r != -1 ==> forall i :: from <= i < r ==> !OccursAt(s, p, i)
  {
    if from + |p| > |s| then -1
    else if s[from..from + |p|] == p then from
    else IndexOfFrom(s, p, from + 1)
  }

  /** `s.indexOf(p)`. */
  function IndexOf(s: string, p: string): int { IndexOfFrom(s, p, 0) }

  /** `s.lastIndexOf(c)`: the last position holding `c`, or -1. */
  function LastIndexOfChar(s: string, c: char): (r: int)
    ensures -1 <= r < |s|
    ensures r >= 0 ==> s[r] == c
    ensures forall i :: r < i < |s| ==> s[i] != c
  {
    if |s| == 0 then -1
    else if s[|s| - 1] == c then |s| - 1
    else LastIndexOfChar(s[..|s| - 1], c)
  }

  /** `s.replace(a, b)` for single characters. */
  function ReplaceChar(s: string, a: char, b: char): (r: string)
    ensures |r| == |s|
    ensures forall i :: 0 <= i < |s| ==> r[i] == (if s[i] == a then b else s[i])
  {
    seq(|s|, i requires 0 <= i < |s| => if s[i] == a then b else s[i])
  }

  /** `s.replace(target, rep)`: every occurrence of a non-empty target, scanned
      left to right without overlaps, is replaced. */
  function ReplaceAll(s: string, target: string, rep: string): (r: string)
    requires |target| > 0
    decreases |s|
  {
    if |s| < |target| then s
    else if s[..|target|] == target then rep + ReplaceAll(s[|target|..], target, rep)
    else [s[0]] + ReplaceAll(s[1..], target, rep)
  }

  /** A string that holds no occurrence of the target is returned unchanged. */
  lemma {:induction false} ReplaceAllAbsent(s: string, target: string, rep: string)
    requires |target| > 0 && !Contains(s, target)
    ensures ReplaceAll(s, target, rep) == s
    decreases |s|
  {
    if |s| >= |target| {
      assert !OccursAt(s, target, 0);
      assert !Contains(s[1..], target) by {
        forall i | OccursAt(s[1..], target, i) ensures OccursAt(s, target, i + 1) {
          assert s[i + 1..i + 1 + |target|] == s[1..][i..i + |target|];
        }
      }
      ReplaceAllAbsent(s[1..], target, rep);
    }
  }

  /** Removing every occurrence of a target never lengthens the string. */
  lemma {:induction false} RemoveAllShortens(s: string, target: string)
    requires |target| > 0
    ensures |ReplaceAll(s, target, "")| <= |s|
    decreases |s|
  {
    if |s| >= |target| {
      if s[..|target|] == target { RemoveAllShortens(s[|target|..], target); }
      else { RemoveAllShortens(s[1..], target); }
    }
  }

  function UpperChar(c: char): (u: char)
    ensures ('a' <= c <= 'z') ==> u as int == c as int - 32
    ensures !('a' <= c <= 'z') ==> u == c
  {
    if 'a' <= c <= 'z' then (c as int - 32) as char else c
  }

  function LowerChar(c: char): (l: char)
    ensures ('A' <= c <= 'Z') ==> l as int == c as int + 32
    ensures !('A' <= c <= 'Z') ==> l == c
  {
    if 'A' <= c <= 'Z' then (c as int + 32) as char else c
  }

  /** `s.toUpperCase()` restricted to ASCII letters. */
  function ToUpper(s: string): (r: string)
    ensures |r| == |s|
    ensures forall i :: 0 <= i < |s| ==> r[i] == UpperChar(s[i])
  {
    seq(|s|, i requires 0 <= i < |s| => UpperChar(s[i]))
  }

  /** `a.equalsIgnoreCase(b)`: equal lengths and every pair of characters equal
      after upper-casing or after lower-casing (ASCII letters). */
  predicate EqualsIgnoreCase(a: string, b: string)
  {
    |a| == |b| &&
    forall i :: 0 <= i < |a| ==>
      a[i] == b[i] || UpperChar(a[i]) == UpperChar(b[i]) || LowerChar(a[i]) == LowerChar(b[i])
  }

  // ------------------------------------------------------ decimal integers

  function DigitChar(d: int): char
    requires 0 <= d < 10
  {
    ('0' as int + d) as char
  }

  predicate IsDigit(c: char) { '0' <= c <= '9' }

  function DigitValue(c: char): nat
    requires IsDigit(c)
  {
    c as int - '0' as int
  }

  function DigitsOf(n: nat): (s: string)
    ensures |s| > 0 && forall i :: 0 <= i < |s| ==> IsDigit(s[i])
  {
    if n < 10 then [DigitChar(n)] else DigitsOf(n / 10) + [DigitChar(n % 10)]
  }

  /** `Long.toString(n)` and `String.format("%d", n)`. */
  function Decimal(n: int): (s: string)
    ensures |s| > 0
  {
    if n < 0 then "-" + DigitsOf(-n) else DigitsOf(n)
  }

  function ValueOfDigits(s: string): nat
    requires forall i :: 0 <= i < |s| ==> IsDigit(s[i])
  {
    if |s| == 0 then 0
    else 10 * ValueOfDigits(s[..|s| - 1]) + DigitValue(s[|s| - 1])
  }

  predicate AllDigits(s: string) { |s| > 0 && forall i :: 0 <= i < |s| ==> IsDigit(s[i]) }

  /** `Long.parseLong(s)`: an optional sign and decimal digits denoting a value in
      the long range; anything else is a NumberFormatException (None). */
  function ParseLong(s: string): (r: Option<int>)
    ensures r.Some? ==> IsLong(r.value)
  {
    if |s| > 0 && (s[0] == '-' || s[0] == '+') then
      if AllDigits(s[1..]) then
        var v: int := if s[0] == '-' then -(ValueOfDigits(s[1..]) as int) else ValueOfDigits(s[1..]);
        if IsLong(v) then Some(v) else None
      else None
    else if AllDigits(s) && IsLong(ValueOfDigits(s)) then Some(ValueOfDigits(s))
    else None
  }

  lemma {:induction false} DigitsRoundTrip(n: nat)
    ensures ValueOfDigits(DigitsOf(n)) == n
  {
    if n >= 10 {
      var s := DigitsOf(n);
      assert s[..|s| - 1] == DigitsOf(n / 10);
      DigitsRoundTrip(n / 10);
    }
  }

  /** Printing a long in decimal and parsing it back gives the same value. */
  lemma DecimalRoundTrip(n: int)
    requires IsLong(n)
    ensures ParseLong(Decimal(n)) == Some(n)
  {
    if n < 0 {
      var s := Decimal(n);
      assert s[1..] == DigitsOf(-n);
      DigitsRoundTrip(-n);
    } else {
      DigitsRoundTrip(n);
    }
  }
}
