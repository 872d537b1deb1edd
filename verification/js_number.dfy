/** JavaScript numbers as the services use them: `parseInt(s, 10)`,
    `Number(s)` on a version segment, the relational `<`, the `++` operator
    and `Number.prototype.toString()`.

    Finite numbers are exact decimals `mantissa * 10^exponent`; the rounding,
    overflow and underflow of IEEE-754 binary64 are not modelled. */
module JsNumber {
  import opened Wrappers
  import opened Decimal
  import opened JsText

  /** `toString` prints integers below this magnitude (10^21) digit by digit,
      larger ones in exponent notation. */
  const PlainLimit: int := 1_000_000_000_000_000_000_000

  lemma PlainLimitIsPow10()
    ensures PlainLimit == Pow10(21)
  {
    assert Pow10(3) == 1000;
    Pow10Add(3, 3);
    Pow10Add(6, 6);
    Pow10Add(12, 6);
    Pow10Add(18, 3);
  }

  datatype Num = NaN | PosInfinity | NegInfinity | Finite(mantissa: int, exponent: int)

  /** The integer `i` as a number. */
  function FromInt(i: int): Num {
    Finite(i, 0)
  }

  /** The exact value of a finite number. */
  function Value(n: Num): real
    requires n.Finite?
  {
    if n.exponent >= 0 then (n.mantissa * Pow10(n.exponent)) as real
    else n.mantissa as real / Pow10(-n.exponent) as real
  }

  /** Position on the extended number line: -Infinity, finite, +Infinity. */
  function Rank(n: Num): int
    requires !n.NaN?
  {
    match n
    case NegInfinity => 0
    case Finite(_, _) => 1
    case PosInfinity => 2
  }

  /** JavaScript `a < b` on numbers: false whenever either side is NaN. */
  predicate Less(a: Num, b: Num) {
    && !a.NaN? && !b.NaN?
    && if a.Finite? && b.Finite? then Value(a) < Value(b) else Rank(a) < Rank(b)
  }

  /** Neither `a < b` nor `b < a`: equal values, or NaN on either side. */
  predicate Incomparable(a: Num, b: Num) {
    !Less(a, b) && !Less(b, a)
  }

  lemma LessIrreflexive(a: Num)
    ensures !Less(a, a)
  {
  }

  lemma LessAsymmetric(a: Num, b: Num)
    ensures Less(a, b) ==> !Less(b, a)
  {
  }

  lemma LessTransitive(a: Num, b: Num, c: Num)
    requires Less(a, b) && Less(b, c)
    ensures Less(a, c)
  {
  }

  /** Away from NaN, two numbers neither of which is below the other have the
      same value: `<` is a strict total order on the non-NaN numbers. */
  lemma IncomparableMeansEqualValue(a: Num, b: Num)
    requires !a.NaN? && !b.NaN? && Incomparable(a, b)
    ensures a.Finite? <==> b.Finite?
    ensures a.Finite? ==> Value(a) == Value(b)
    ensures !a.Finite? ==> a == b
  {
  }

  // ---------------------------------------------------------------------------
  // parseInt(s, 10)
  // ---------------------------------------------------------------------------

  /** The longest prefix of `s` made of ASCII digits. */
  function LeadingDigits(s: string): (r: string)
    ensures |r| <= |s|
    ensures AllDigits(r)
  {
    if s != [] && IsDigit(s[0]) then [s[0]] + LeadingDigits(s[1..]) else ""
  }

  /** `parseInt(s, 10)`: skip leading white space, take one optional sign,
      then the longest run of decimal digits; no digits gives NaN (`None`).
      Anything after the digits is ignored. */
  function ParseInt(s: string): (r: Option<int>)
    ensures r.None? <==> LeadingDigits(UnsignedPart(TrimStart(s))) == ""
  {
    ParseTrimmed(TrimStart(s))
  }

  /** `parseInt` after the white space is gone: the sign decides the sign of
      the value of the leading digits. */
  function ParseTrimmed(t: string): (r: Option<int>)
    ensures r.None? <==> LeadingDigits(UnsignedPart(t)) == ""
  {
    var digits := LeadingDigits(UnsignedPart(t));
    if digits == "" then None
    else Some(Signed(t[0] == '-', DigitsValue(digits)))
  }

  /** `s` without one leading `+` or `-`. */
  function UnsignedPart(s: string): (r: string)
    ensures r == s || (|s| > 0 && (s[0] == '+' || s[0] == '-') && r == s[1..])
  {
    if s != [] && (s[0] == '-' || s[0] == '+') then s[1..] else s
  }

  // ---------------------------------------------------------------------------
  // Number(s) on a version segment
  // ---------------------------------------------------------------------------

  /** The radix a `0x`/`0o`/`0b` prefix letter selects, or 0 for any other letter. */
  function RadixOfPrefix(c: char): nat {
    if c == 'x' || c == 'X' then 16
    else if c == 'o' || c == 'O' then 8
    else if c == 'b' || c == 'B' then 2
    else 0
  }

  /** The value of `c` as a digit in base `radix`, if it is one. */
  function RadixDigit(c: char, radix: nat): (r: Option<nat>)
    ensures r.Some? ==> r.value < radix
  {
    var v :=
      if '0' <= c <= '9' then c as int - '0' as int
      else if 'a' <= c <= 'f' then c as int - 'a' as int + 10
      else if 'A' <= c <= 'F' then c as int - 'A' as int + 10
      else 99;
    if v < radix then Some(v) else None
  }

  predicate AllRadixDigits(s: string, radix: nat) {
    forall i :: 0 <= i < |s| ==> RadixDigit(s[i], radix).Some?
  }

  function RadixValue(s: string, radix: nat): nat
    requires AllRadixDigits(s, radix)
    decreases |s|
  {
    if s == [] then 0
    else radix * RadixValue(s[..|s| - 1], radix) + RadixDigit(s[|s| - 1], radix).value
  }

  /** `Number(s)` for a string without `.`, which is every string
      `split('.')` can produce. After trimming white space at both ends:
      the empty string is 0; `Infinity` with an optional sign is infinite;
      `0x`, `0o`, `0b` introduce an unsigned integer in base 16, 8, 2;
      otherwise an optional sign, decimal digits and an optional exponent
      `e`/`E` with optional sign and digits. Anything else is NaN. */
  function SegmentToNumber(s: string): (n: Num)
    requires '.' !in s
  {
    var t := Trim(s);
    if t == "" then Finite(0, 0)
    else if t == "Infinity" || t == "+Infinity" then PosInfinity
    else if t == "-Infinity" then NegInfinity
    else if |t| >= 2 && t[0] == '0' && RadixOfPrefix(t[1]) != 0 then
      var body := t[2..];
      if body != "" && AllRadixDigits(body, RadixOfPrefix(t[1]))
      then Finite(RadixValue(body, RadixOfPrefix(t[1])), 0)
      else NaN
    else DecimalLiteral(t)
  }

  /** A magnitude with a sign. */
  function Signed(negative: bool, magnitude: nat): int {
    if negative then -(magnitude as int) else magnitude
  }

  /** A signed decimal integer with an optional exponent part, as the whole of `t`. */
  function DecimalLiteral(t: string): Num {
    var body := UnsignedPart(t);
    var mant := LeadingDigits(body);
    var negative := t != [] && t[0] == '-';
    var rest := body[|mant|..];
    if mant == "" then NaN
    else if rest == "" then Finite(Signed(negative, DigitsValue(mant)), 0)
    else if rest[0] == 'e' || rest[0] == 'E' then
      var ebody := UnsignedPart(rest[1..]);
      var eNegative := |rest| > 1 && rest[1] == '-';
      if ebody != "" && AllDigits(ebody)
      then Finite(Signed(negative, DigitsValue(mant)), Signed(eNegative, DigitsValue(ebody)))
      else NaN
    else NaN
  }

  // ---------------------------------------------------------------------------
  // x++ and Number.prototype.toString()
  // ---------------------------------------------------------------------------

  /** `x++`: NaN and the infinities are unchanged; a finite value grows by exactly 1. */
  function Increment(n: Num): (r: Num)
    ensures n.Finite? <==> r.Finite?
    ensures n.Finite? ==> Value(r) == Value(n) + 1.0
    ensures !n.Finite? ==> r == n
  {
    match n
    case Finite(m, e) =>
      if e >= 0 then Finite(m * Pow10(e) + 1, 0)
      else
        var p := Pow10(-e);
        var r := Finite(m + p, e);
        assert Value(r) == (m + p) as real / p as real;
        DivAddOne(m as real, p as real);
        r
    case _ => n
  }

  lemma DivAddOne(a: real, b: real)
    requires b > 0.0
    ensures (a + b) / b == a / b + 1.0
  {
    calc {
      (a + b) / b;
      a / b + b / b;
      a / b + 1.0;
    }
  }

  /** Strips trailing zero digits from a positive mantissa, moving them into
      the exponent: `m * 10^e == s * 10^x` with `s` not a multiple of 10. */
  function StripZeros(m: nat, e: int): (r: (nat, int))
    requires m > 0
    ensures r.0 > 0 && r.0 % 10 != 0 && r.1 >= e
    ensures m == r.0 * Pow10(r.1 - e)
    decreases m
  {
    if m % 10 == 0 then
      var r := StripZeros(m / 10, e + 1);
      assert Pow10(r.1 - e) == 10 * Pow10(r.1 - (e + 1));
      r
    else (m, e)
  }

  /** `Number::toString` for a positive value `m * 10^e` (section 6.1.6.1.20
      of ECMA-262): with `k` significant digits `s` and the decimal point `n`
      places from their left, plain notation for `-6 < n <= 21`, exponent
      notation otherwise. */
  function PositiveToString(m: nat, e: int): string
    requires m > 0
  {
    var (s, x) := StripZeros(m, e);
    var digits := NatToDecimal(s);
    var k := |digits|;
    var n := k + x;
    if k <= n <= 21 then digits + Zeros(n - k)
    else if 0 < n <= 21 then digits[..n] + "." + digits[n..]
    else if -6 < n <= 0 then "0." + Zeros(-n) + digits
    else
      var exp := n - 1;
      var expText := (if exp >= 0 then "+" else "-") + NatToDecimal(if exp >= 0 then exp else -exp);
      if k == 1 then digits + "e" + expText
      else digits[..1] + "." + digits[1..] + "e" + expText
  }

  /** `String(n)`, which `join` and `toString()` apply to each number. */
  function NumberToString(n: Num): string {
    match n
    case NaN => "NaN"
    case PosInfinity => "Infinity"
    case NegInfinity => "-Infinity"
    case Finite(m, e) =>
      if m == 0 then "0"
      else if m < 0 then "-" + PositiveToString(-m, e)
      else PositiveToString(m, e)
  }

  // ---------------------------------------------------------------------------
  // Round trips between digit strings and numbers
  // ---------------------------------------------------------------------------

  lemma {:induction false} LeadingDigitsOfDigits(s: string, rest: string)
    requires AllDigits(s)
    requires rest == [] || !IsDigit(rest[0])
    ensures LeadingDigits(s + rest) == s
    decreases |s|
  {
    if s != [] {
      assert (s + rest)[1..] == s[1..] + rest;
      LeadingDigitsOfDigits(s[1..], rest);
      assert [s[0]] + s[1..] == s;
    }
  }

  /** `Number` reads the decimal rendering of a natural back as that natural. */
  lemma SegmentOfNat(n: nat)
    ensures '.' !in NatToDecimal(n)
    ensures SegmentToNumber(NatToDecimal(n)) == FromInt(n)
  {
    var t := NatToDecimal(n);
    assert forall i | 0 <= i < |t| :: t[i] != '.';
    assert IsDigit(t[0]) && IsDigit(t[|t| - 1]);
    assert t[|t| - 1] != 'y' && !IsWhiteSpace(t[|t| - 1]);
    SegmentIsDecimalLiteral(t);
    DecimalLiteralOfDigits(t);
  }

  lemma DecimalLiteralOfDigits(t: string)
    requires |t| >= 1 && AllDigits(t)
    ensures DecimalLiteral(t) == Finite(DigitsValue(t), 0)
  {
    assert IsDigit(t[0]);
    assert LeadingDigits(t) == t by {
      LeadingDigitsOfDigits(t, "");
      assert t + "" == t;
    }
    DecimalLiteralOfMantissa(t, t, false);
  }

  /** A literal whose unsigned part is all digits is a plain signed integer. */
  lemma DecimalLiteralOfMantissa(t: string, mant: string, negative: bool)
    requires t != [] && (t[0] == '-' <==> negative)
    requires mant != "" && UnsignedPart(t) == mant && LeadingDigits(mant) == mant
    ensures DecimalLiteral(t) == Finite(Signed(negative, DigitsValue(mant)), 0)
  {
    assert mant[|mant|..] == "";
  }

  /** `parseInt` reads the decimal rendering of a natural, followed by any
      text that does not start with a digit, as that natural. */
  lemma ParseIntOfNat(n: nat, rest: string)
    requires rest == [] || !IsDigit(rest[0])
    ensures ParseInt(NatToDecimal(n) + rest) == Some(n)
  {
    ParseIntOfDigits(NatToDecimal(n), rest);
  }

  /** `parseInt` on digits followed by text that does not continue them:
      the value of the digits. */
  lemma ParseIntOfDigits(digits: string, rest: string)
    requires |digits| >= 1 && AllDigits(digits)
    requires rest == [] || !IsDigit(rest[0])
    ensures ParseInt(digits + rest) == Some(DigitsValue(digits))
  {
    var u := digits + rest;
    assert ParseInt(u) == ParseTrimmed(u) by {
      assert u[0] == digits[0];
      TrimStartOfNonSpace(u);
    }
    assert LeadingDigits(UnsignedPart(u)) == digits by {
      assert u[0] == digits[0];
      LeadingDigitsOfDigits(digits, rest);
    }
    ParseTrimmedOfDigits(u, digits, false);
  }

  /** `parseInt` on a minus sign, digits, and text that does not continue
      them: the negated value of the digits. */
  lemma ParseIntOfMinusDigits(digits: string, rest: string)
    requires |digits| >= 1 && AllDigits(digits)
    requires rest == [] || !IsDigit(rest[0])
    ensures ParseInt(['-'] + (digits + rest)) == Some(-(DigitsValue(digits) as int))
  {
    var u := ['-'] + (digits + rest);
    assert u[1..] == digits + rest;
    LeadingDigitsOfDigits(digits, rest);
    ParseIntAfterMinus(u, digits);
  }

  /** Text that starts with a minus sign parses to the negated value of the
      digits right after it. */
  lemma ParseIntAfterMinus(u: string, digits: string)
    requires u != [] && u[0] == '-'
    requires digits != "" && LeadingDigits(u[1..]) == digits
    ensures ParseInt(u) == Some(-(DigitsValue(digits) as int))
  {
    assert ParseInt(u) == ParseTrimmed(u) by {
      TrimStartOfNonSpace(u);
    }
    ParseTrimmedOfDigits(u, digits, true);
  }

  /** Once the leading digits are known, the sign alone decides the result. */
  lemma ParseTrimmedOfDigits(t: string, digits: string, negative: bool)
    requires digits != "" && LeadingDigits(UnsignedPart(t)) == digits
    requires t != [] && (t[0] == '-' <==> negative)
    ensures ParseTrimmed(t) == Some(Signed(negative, DigitsValue(digits)))
  {
  }

  /** Text that does not start with white space is its own `trimStart`. */
  lemma TrimStartOfNonSpace(s: string)
    requires s == [] || !IsWhiteSpace(s[0])
    ensures TrimStart(s) == s
  {
  }

  /** A natural below `10^21` is printed by `toString` as its plain decimal
      digits; larger ones switch to exponent notation. */
  lemma {:induction false} NumberToStringOfNat(n: nat)
    requires n < PlainLimit
    ensures NumberToString(FromInt(n)) == NatToDecimal(n)
  {
    if n > 0 {
      var (s, x) := StripZeros(n, 0);
      NatToDecimalShift(s, x);
      PlainLimitIsPow10();
      DecimalLength(n, 21);
      assert |NatToDecimal(n)| == |NatToDecimal(s)| + x;
    }
  }

  /** The install counter round trip: an integer below `10^21` in magnitude
      is printed by `toString` and read back by `parseInt` unchanged. */
  lemma IntegerRoundTrip(i: int)
    requires -PlainLimit < i < PlainLimit
    ensures ParseInt(NumberToString(FromInt(i))) == Some(i)
  {
    if i >= 0 {
      NonNegativeRoundTrip(i);
    } else {
      NegativeRoundTrip(i);
    }
  }

  lemma NonNegativeRoundTrip(i: int)
    requires 0 <= i < PlainLimit
    ensures ParseInt(NumberToString(FromInt(i))) == Some(i)
  {
    NumberToStringOfNat(i);
    ParseIntOfNat(i, "");
    assert NatToDecimal(i) + "" == NatToDecimal(i);
  }

  lemma NegativeRoundTrip(i: int)
    requires -PlainLimit < i < 0
    ensures ParseInt(NumberToString(FromInt(i))) == Some(i)
  {
    var m: nat := -i;
    NumberToStringOfNat(m);
    NegativeToString(m);
    ParseIntOfNegative(m);
  }

  /** `toString` of a negative number is a minus sign before the magnitude's. */
  lemma NegativeToString(m: nat)
    requires m > 0
    ensures NumberToString(FromInt(-(m as int))) == "-" + NumberToString(FromInt(m))
  {
  }

  lemma ParseIntOfNegative(m: nat)
    requires m > 0
    ensures ParseInt("-" + NatToDecimal(m)) == Some(-(m as int))
  {
    var t := NatToDecimal(m);
    var u := "-" + t;
    assert u[1..] == t;
    assert LeadingDigits(t) == t by {
      LeadingDigitsOfDigits(t, "");
      assert t + "" == t;
    }
    ParseIntAfterMinus(u, t);
  }

  /** A text that starts with something other than white space, a sign or
      a digit has no integer prefix: `parseInt` gives NaN. */
  lemma ParseIntOfNonNumeric(s: string)
    requires s != [] && !IsWhiteSpace(s[0]) && s[0] != '+' && s[0] != '-' && !IsDigit(s[0])
    ensures ParseInt(s) == None
  {
    assert TrimStart(s) == s;
    assert UnsignedPart(s) == s;
  }

  // ---------------------------------------------------------------------------
  // Versions as arrays of numbers
  // ---------------------------------------------------------------------------

  /** `version.split('.').map(Number)`. */
  function VersionNumbers(version: string): (ns: seq<Num>)
    ensures |ns| == |Split(version, '.')| && |ns| >= 1
    ensures forall i :: 0 <= i < |ns| ==> ns[i] == SegmentToNumber(Split(version, '.')[i])
  {
    var parts := Split(version, '.');
    seq(|parts|, i requires 0 <= i < |parts| => SegmentToNumber(parts[i]))
  }

  /** `ns.join('.')` on an array of numbers: each rendered by `String`. */
  function JoinNumbers(ns: seq<Num>): string {
    Join(seq(|ns|, i requires 0 <= i < |ns| => NumberToString(ns[i])), '.')
  }

  /** A number `toString` prints without a `.` or an exponent: NaN, an
      infinity, or an integer of magnitude below `10^21`. */
  predicate PlainNumber(n: Num) {
    match n
    case Finite(m, e) => e == 0 && -PlainLimit < m < PlainLimit
    case _ => true
  }

  lemma TrimNoEdgeSpace(t: string)
    requires t != "" && !IsWhiteSpace(t[0]) && !IsWhiteSpace(t[|t| - 1])
    ensures Trim(t) == t
  {
    assert TrimStart(t) == t;
  }

  /** A trimmed segment that is not an `Infinity` and has no radix prefix is
      read as a decimal literal. */
  lemma SegmentIsDecimalLiteral(t: string)
    requires '.' !in t && t != ""
    requires !IsWhiteSpace(t[0]) && !IsWhiteSpace(t[|t| - 1]) && t[|t| - 1] != 'y'
    requires !(|t| >= 2 && t[0] == '0' && RadixOfPrefix(t[1]) != 0)
    ensures SegmentToNumber(t) == DecimalLiteral(t)
  {
    TrimNoEdgeSpace(t);
    assert t != "Infinity" && t != "+Infinity" && t != "-Infinity" by {
      assert t[|t| - 1] != 'y';
    }
  }

  lemma NegativeDecimalLiteral(d: string)
    requires |d| >= 1 && AllDigits(d)
    ensures DecimalLiteral("-" + d) == Finite(-(DigitsValue(d) as int), 0)
  {
    MinusPrefix(d);
    AllDigitsLead(d);
    DecimalLiteralOfMantissa("-" + d, d, true);
  }

  /** A minus sign put in front of `d` is the first character, and `d` the
      unsigned rest. */
  lemma MinusPrefix(d: string)
    ensures ("-" + d)[0] == '-' && UnsignedPart("-" + d) == d
  {
    assert ("-" + d)[1..] == d;
  }

  /** A string of digits is its own longest digit prefix. */
  lemma AllDigitsLead(d: string)
    requires AllDigits(d)
    ensures LeadingDigits(d) == d
  {
    LeadingDigitsOfDigits(d, "");
    assert d + "" == d;
  }

  lemma NegativeSegment(m: nat)
    requires 0 < m < PlainLimit
    ensures '.' !in NumberToString(FromInt(-(m as int)))
    ensures SegmentToNumber(NumberToString(FromInt(-(m as int)))) == FromInt(-(m as int))
  {
    NumberToStringOfNat(m);
    NegativeToString(m);
    var d := NatToDecimal(m);
    var t := "-" + d;
    assert NumberToString(FromInt(-(m as int))) == t;
    NegativeText(d);
    SegmentIsDecimalLiteral(t);
    NegativeDecimalLiteral(d);
  }

  lemma NegativeText(d: string)
    requires |d| >= 1 && AllDigits(d)
    ensures '.' !in "-" + d
    ensures !IsWhiteSpace(("-" + d)[|d|]) && ("-" + d)[|d|] != 'y'
  {
    var t := "-" + d;
    assert forall i | 1 <= i < |t| :: t[i] == d[i - 1];
    assert forall i | 0 <= i < |t| :: t[i] != '.';
    assert t[|d|] == d[|d| - 1];
  }

  /** Printing a plain number and reading it back with `Number` gives the
      same number, and the printed form has no `.` to split on. */
  lemma PlainRoundTrip(n: Num)
    requires PlainNumber(n)
    ensures '.' !in NumberToString(n)
    ensures SegmentToNumber(NumberToString(n)) == n
  {
    match n
    case NaN => NaNSegment();
    case PosInfinity => InfinitySegment(n);
    case NegInfinity => InfinitySegment(n);
    case Finite(m, _) =>
      if m >= 0 {
        NonNegativeSegment(m);
      } else {
        NegativeSegment(-m);
      }
  }

  lemma NonNegativeSegment(m: nat)
    requires m < PlainLimit
    ensures '.' !in NumberToString(FromInt(m))
    ensures SegmentToNumber(NumberToString(FromInt(m))) == FromInt(m)
  {
    NumberToStringOfNat(m);
    SegmentOfNat(m);
  }

  lemma InfinitySegment(n: Num)
    requires n.PosInfinity? || n.NegInfinity?
    ensures '.' !in NumberToString(n)
    ensures SegmentToNumber(NumberToString(n)) == n
  {
    var t := NumberToString(n);
    assert t == "Infinity" || t == "-Infinity";
    assert t[|t| - 1] == 'y';
    assert !IsWhiteSpace(t[0]);
    TrimNoEdgeSpace(t);
  }

  lemma NaNSegment()
    ensures '.' !in NumberToString(NaN)
    ensures SegmentToNumber(NumberToString(NaN)) == NaN
  {
    var t := NumberToString(NaN);
    assert t == "NaN";
    assert t[0] == 'N' && t[|t| - 1] == 'N' && |t| == 3;
    assert '.' !in t;
    SegmentIsDecimalLiteral(t);
    NoDigitsIsNaN(t);
  }

  /** A literal whose unsigned part does not start with a digit is NaN. */
  lemma NoDigitsIsNaN(t: string)
    requires UnsignedPart(t) == [] || !IsDigit(UnsignedPart(t)[0])
    ensures DecimalLiteral(t) == NaN
  {
  }

  /** Joining plain numbers and splitting the result again gives back the
      same numbers: `join('.')` and `split('.').map(Number)` are inverse. */
  lemma {:induction false} JoinNumbersRoundTrip(ns: seq<Num>)
    requires |ns| >= 1
    requires forall i :: 0 <= i < |ns| ==> PlainNumber(ns[i])
    ensures VersionNumbers(JoinNumbers(ns)) == ns
  {
    var texts := seq(|ns|, i requires 0 <= i < |ns| => NumberToString(ns[i]));
    forall i | 0 <= i < |ns|
      ensures '.' !in texts[i] && SegmentToNumber(texts[i]) == ns[i]
    {
      PlainRoundTrip(ns[i]);
    }
    SplitJoin(texts, '.');
  }
}
