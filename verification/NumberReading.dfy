/** The number a decimal text denotes, part by part, and that strtod as modelled reads it; the saturation to an
    int; and that printed numbers have no superfluous digit (cJSON.c:302-376,542-611). */
module NumberReading {
  import opened Bytes
  import opened Json
  import opened Sequences
  import opened NumberSpec
  import opened ChildList

  predicate AllDigits(d: seq<byte>) {
    forall i :: 0 <= i < |d| ==> IsDigit(d[i])
  }

  // ---------------------------------------------------------------- digits by position

  /** The weight of a digit is ten to the number of digits behind it. */
  lemma {:induction false} DigitsByPosition(a: seq<byte>, b: seq<byte>)
    requires AllDigits(a) && AllDigits(b)
    ensures AllDigits(a + b) && DigitsValue(a + b) == DigitsValue(a) * Pow10(|b|) + DigitsValue(b)
    decreases |b|
  {
    if b == [] {
      assert a + b == a;
    } else {
      var n := |b| - 1;
      DigitsByPosition(a, b[..n]);
      assert (a + b)[..|a + b| - 1] == a + b[..n];
      Distribute(DigitsValue(a), Pow10(n), DigitsValue(b[..n]));
    }
  }

  lemma Distribute(x: nat, p: nat, y: nat)
    ensures 10 * (x * p + y) == x * (10 * p) + 10 * y
  {
  }

  lemma OneDigit(b: byte)
    requires IsDigit(b)
    ensures DigitsValue([b]) == b - 48
  {
    assert [b][..0] == [];
  }

  /** Powers of ten. */
  lemma {:induction false} Pow10Adds(j: nat, k: nat)
    ensures Pow10(j + k) == Pow10(j) * Pow10(k) && Pow10(1) == 10 && Pow10(0) == 1
  {
    assert Pow10(1) == 10;
    if j > 0 {
      Pow10Adds(j - 1, k);
      Distribute(Pow10(j - 1), Pow10(k), 0);
    }
  }

  // ---------------------------------------------------------------- the parts of a number

  datatype Sign = NoSign | Plus | Minus

  function SignText(s: Sign): seq<byte> {
    match s
    case NoSign => []
    case Plus => [43]
    case Minus => [45]
  }

  /** An exponent: its letter, its sign, and its digits. */
  datatype Power = NoPower | Power(letter: byte, sign: Sign, digits: seq<byte>)

  /** A number as it is written; a fraction that is there may be empty. */
  datatype Numeral = Numeral(sign: Sign, whole: seq<byte>, fraction: Option<seq<byte>>, power: Power)

  predicate WellSpelled(n: Numeral) {
    && AllDigits(n.whole) && (n.fraction.Some? ==> AllDigits(n.fraction.value))
    && (n.whole != [] || (n.fraction.Some? && n.fraction.value != []))
    && (n.power.Power? ==>
          (n.power.letter == 101 || n.power.letter == 69) && n.power.digits != [] && AllDigits(n.power.digits))
  }

  function PowerValue(p: Power): int
    requires p.Power? ==> AllDigits(p.digits)
  {
    if p.NoPower? then 0
    else
      var magnitude: int := DigitsValue(p.digits);
      if p.sign == Minus then -magnitude else magnitude
  }

  function PowerText(p: Power): seq<byte> {
    if p.NoPower? then [] else [p.letter] + (SignText(p.sign) + p.digits)
  }

  function PointText(f: Option<seq<byte>>): seq<byte> {
    if f == None then [] else [46] + f.value
  }

  function NumeralText(n: Numeral): seq<byte> {
    SignText(n.sign) + (n.whole + (PointText(n.fraction) + PowerText(n.power)))
  }

  function Fraction(n: Numeral): seq<byte> { if n.fraction.Some? then n.fraction.value else [] }

  /** What follows is no part of the number. */
  predicate Stops(n: Numeral, rest: seq<byte>) {
    rest == [] ||
    (!IsDigit(rest[0]) &&
     (n.power.NoPower? ==> rest[0] != 101 && rest[0] != 69 && (n.fraction == None ==> rest[0] != 46)))
  }

  /** The value times ten to the number of decimals, times ten to a negative exponent, is the digits without the
      point, times ten to a positive exponent; with the sign. */
  ghost predicate Denotes(v: real, n: Numeral)
    requires WellSpelled(n)
  {
    var digits: int := Mantissa(n);
    Scaled(v, if n.sign == Minus then -digits else digits, PowerValue(n.power), |Fraction(n)|)
  }

  function Mantissa(n: Numeral): nat
    requires WellSpelled(n)
  {
    DigitsByPosition(n.whole, Fraction(n));
    DigitsValue(n.whole + Fraction(n))
  }

  /** v is x times ten to e, divided by ten to f. */
  ghost predicate Scaled(v: real, x: int, e: int, f: nat) {
    v * (Pow10(f) as real) * ((if e < 0 then Pow10(-e) else 1) as real) == (x * (if e < 0 then 1 else Pow10(e))) as real
  }

  // ---------------------------------------------------------------- strtod

  lemma {:induction false} DigitsTaken(d: seq<byte>, rest: seq<byte>)
    requires AllDigits(d) && (rest == [] || !IsDigit(rest[0]))
    ensures Digits(d + rest) == d
  {
    if d == [] {
      assert d + rest == rest;
    } else {
      DigitsTaken(d[1..], rest);
      assert (d + rest)[1..] == d[1..] + rest;
    }
  }

  lemma PowerRead(p: Power, rest: seq<byte>)
    requires p.Power? ==> (p.letter == 101 || p.letter == 69) && p.digits != [] && AllDigits(p.digits)
    requires rest == [] || (!IsDigit(rest[0]) && (p.NoPower? ==> rest[0] != 101 && rest[0] != 69))
    ensures var e := ReadExponent(PowerText(p) + rest);
      && e.used == |PowerText(p)|
      && e.value == PowerValue(p)
  {
    hide Digits, DigitsValue, ReadExponent, PowerText, SignText;
    var s := PowerText(p) + rest;
    PowerLength(p);
    if p.NoPower? {
      assert s == rest;
      NoExponent(rest);
    } else {
      PowerPieces(p, rest);
      DigitsTaken(p.digits, rest);
      ExponentOf(s, p.sign, p.digits);
    }
  }

  lemma PowerLength(p: Power)
    ensures |PowerText(p)| == if p.NoPower? then 0 else 1 + |SignText(p.sign)| + |p.digits|
  {
  }

  lemma PowerPieces(p: Power, rest: seq<byte>)
    requires p.Power? && p.digits != []
    ensures var s, start := PowerText(p) + rest, 1 + |SignText(p.sign)|;
      && |s| > start && s[start..] == p.digits + rest && s[0] == p.letter
      && s[1] == if p.sign == NoSign then p.digits[0] else SignText(p.sign)[0]
  {
    var head := [p.letter] + SignText(p.sign);
    assert PowerText(p) + rest == head + (p.digits + rest);
    DropAppend(head, p.digits + rest);
  }

  lemma NoExponent(s: seq<byte>)
    requires s == [] || (s[0] != 101 && s[0] != 69)
    ensures ReadExponent(s) == Exponent(0, 0)
  {
  }

  lemma ExponentOf(s: seq<byte>, sign: Sign, d: seq<byte>)
    requires |s| > 1 + |SignText(sign)| && (s[0] == 101 || s[0] == 69) && d != [] && AllDigits(d)
    requires s[1 + |SignText(sign)|..] != [] && Digits(s[1 + |SignText(sign)|..]) == d
    requires if sign == NoSign then s[1] != 43 && s[1] != 45 else s[1] == SignText(sign)[0]
    ensures var magnitude: int := DigitsValue(d);
      ReadExponent(s) == Exponent(if sign == Minus then -magnitude else magnitude, 1 + |SignText(sign)| + |d|)
  {
    hide Digits, DigitsValue;
  }

  lemma PowerStart(p: Power, rest: seq<byte>)
    requires p.Power? ==> (p.letter == 101 || p.letter == 69)
    requires p.NoPower? ==> rest == [] || !IsDigit(rest[0])
    ensures var s := PowerText(p) + rest;
      s == [] || (!IsDigit(s[0]) && (p.Power? ==> s[0] != 46) && (p.NoPower? ==> s == rest))
  {
  }

  lemma MagnitudeRead(n: Numeral, rest: seq<byte>)
    requires WellSpelled(n) && Stops(n, rest)
    ensures var body := n.whole + (PointText(n.fraction) + PowerText(n.power)); var r := ReadMagnitude(body + rest);
      r.used == |body| && r.value == Scale(Mantissa(n), PowerValue(n.power) - |Fraction(n)|)
  {
    hide Digits, DigitsValue, Scale, ReadExponent, PowerText, PowerValue, ReadMagnitude, Decimals, PointLength, IsDigit,
      PointText;
    var tail := PowerText(n.power) + rest;
    var behind := PointText(n.fraction) + tail;
    var s := n.whole + (PointText(n.fraction) + PowerText(n.power)) + rest;
    Pieces(n.whole, PointText(n.fraction), PowerText(n.power), rest);
    PowerStart(n.power, rest);
    PowerRead(n.power, rest);
    FractionRead(n.fraction, tail);
    DigitsTaken(n.whole, behind);
    MagnitudeIs(s, n.whole, behind, Fraction(n), |n.whole| + |PointText(n.fraction)|, tail);
  }

  lemma Pieces(a: seq<byte>, b: seq<byte>, c: seq<byte>, d: seq<byte>)
    ensures var s := a + (b + c) + d; s == a + (b + (c + d)) && s[|a|..] == b + (c + d) && s[|a| + |b|..] == c + d
  {
  }

  /** The parts put together. */
  function Magnitude(whole: seq<byte>, fraction: seq<byte>, used: nat, tail: seq<byte>): Read
    requires AllDigits(whole + fraction)
  {
    var e := ReadExponent(tail);
    Read(Scale(DigitsValue(whole + fraction), e.value - |fraction|), used + e.used)
  }

  lemma MagnitudeIs(s: seq<byte>, whole: seq<byte>, behind: seq<byte>, fraction: seq<byte>, used: nat, tail: seq<byte>)
    requires whole == Digits(s) && behind == s[|whole|..] && fraction == Decimals(behind)
    requires (whole != [] || fraction != []) && AllDigits(whole + fraction)
    requires used == |whole| + PointLength(behind) && tail == s[used..]
    ensures ReadMagnitude(s) == Magnitude(whole, fraction, used, tail)
  {
    hide Digits, DigitsValue, Scale, ReadExponent, Decimals, PointLength, IsDigit, AllDigits, ReadMagnitude, Magnitude;
    MagnitudeUnfold(s);
  }

  lemma MagnitudeUnfold(s: seq<byte>)
    ensures var whole, fraction := Digits(s), Decimals(s[|Digits(s)|..]);
      !(whole == [] && fraction == []) ==>
        var used := |whole| + PointLength(s[|whole|..]);
        AllDigits(whole + fraction) && ReadMagnitude(s) == Magnitude(whole, fraction, used, s[used..])
  {
    hide Digits, DigitsValue, Scale, ReadExponent, Decimals, PointLength, IsDigit;
  }

  /** The decimals and the length of the point and them. */
  lemma FractionRead(f: Option<seq<byte>>, tail: seq<byte>)
    requires f.Some? ==> AllDigits(f.value)
    requires tail == [] || !IsDigit(tail[0])
    requires f == None ==> tail == [] || tail[0] != 46
    ensures var behind := PointText(f) + tail;
      && Decimals(behind) == (if f.Some? then f.value else []) && PointLength(behind) == |PointText(f)|
      && (behind == [] || !IsDigit(behind[0]))
  {
    hide Digits;
    var behind := PointText(f) + tail;
    if f.Some? {
      assert behind[0] == 46 && behind[1..] == f.value + tail;
      DigitsTaken(f.value, tail);
    } else {
      assert behind == tail;
    }
  }

  /** The scaling in whole powers of ten. */
  lemma ScaleIs(x: nat, e: int, f: nat)
    ensures Scaled(Scale(x, e - f), x, e, f)
  {
    hide Pow10;
    var d := e - f;
    if e < 0 {
      Pow10Adds(f, -e);
      Cancel(x as real, Pow10(f), Pow10(-e), Pow10(-d));
      assert x * 1 == x;
    } else if d >= 0 {
      Pow10Adds(d, f);
      Regroup(x, Pow10(d), Pow10(f));
    } else {
      Pow10Adds(-d, e);
      CancelSome(x, Pow10(-d), Pow10(e), Pow10(f));
    }
  }

  lemma Cancel(x: real, p: nat, q: nat, r: nat)
    requires r == p * q && r > 0
    ensures x / (r as real) * (p as real) * (q as real) == x
  {
    assert (p as real) * (q as real) == r as real;
    Associate(x / (r as real), p as real, q as real);
  }

  lemma Associate(a: real, b: real, c: real)
    ensures a * b * c == a * (b * c)
  {
  }

  lemma Regroup(x: nat, p: nat, q: nat)
    ensures ((x * p) as real) * (q as real) * 1.0 == (x * (p * q)) as real
  {
    assert (x * p) * q == x * (p * q);
    assert ((x * p) as real) * (q as real) == ((x * p) * q) as real;
  }

  lemma CancelSome(x: nat, p: nat, q: nat, r: nat)
    requires r == p * q && p > 0
    ensures (x as real) / (p as real) * (r as real) * 1.0 == (x * q) as real
  {
    assert (p as real) * (q as real) == r as real;
    Associate((x as real) / (p as real), p as real, q as real);
    assert (x as real) * (q as real) == (x * q) as real;
  }

  /** A numeral that nothing behind it continues is used whole, and the value is the one it denotes. */
  lemma StrtodReads(n: Numeral, rest: seq<byte>)
    requires WellSpelled(n) && Stops(n, rest)
    ensures var r := Strtod(NumeralText(n) + rest); r.used == |NumeralText(n)| && Denotes(r.value, n)
  {
    hide ReadMagnitude, Scale, Mantissa, PowerValue, PowerText, PointText, Scaled, Stops;
    var body := n.whole + (PointText(n.fraction) + PowerText(n.power));
    var s := NumeralText(n) + rest;
    MagnitudeRead(n, rest);
    assert s == SignText(n.sign) + (body + rest);
    BodyStarts(n, rest);
    ScaleIs(Mantissa(n), PowerValue(n.power), |Fraction(n)|);
    if n.sign == NoSign {
      assert s == body + rest;
    } else {
      assert s[1..] == body + rest;
      Negate(Scale(Mantissa(n), PowerValue(n.power) - |Fraction(n)|), Mantissa(n), PowerValue(n.power), |Fraction(n)|);
    }
  }

  lemma BodyStarts(n: Numeral, rest: seq<byte>)
    requires WellSpelled(n)
    ensures var body := n.whole + (PointText(n.fraction) + PowerText(n.power));
      body != [] && (IsDigit(body[0]) || body[0] == 46)
  {
  }

  lemma Negate(v: real, x: int, e: int, f: nat)
    requires Scaled(v, x, e, f)
    ensures Scaled(-v, -x, e, f)
  {
    hide Pow10;
    var p, q := Pow10(f), if e < 0 then Pow10(-e) else 1;
    var k: nat := if e < 0 then 1 else Pow10(e);
    NegateProduct(v, p as real, q as real);
    NegateTimes(x, k);
  }

  lemma NegateProduct(v: real, p: real, q: real)
    ensures -v * p * q == -(v * p * q)
  {
  }

  lemma NegateTimes(x: int, k: int)
    ensures -x * k == -(x * k)
  {
  }

  /** parse_number on a numeral of at most 63 characters: the number it denotes, with its int. */
  lemma NumeralParses(n: Numeral, rest: seq<byte>)
    requires WellSpelled(n) && |NumeralText(n)| <= 63 && (rest == [] || !IsNumberChar(rest[0]))
    ensures var r := ParseNumber(NumeralText(n) + rest);
      r.Ok? && r.rest == rest && r.value.Number? && Denotes(r.value.valuedouble, n) &&
      r.value.valueint == Saturate(r.value.valuedouble)
  {
    hide Strtod, NumberChars, Saturate, Denotes, NumeralText;
    var t := NumeralText(n);
    NumeralChars(n);
    NumberCharsAll(t, rest, NUMBER_ROOM);
    StrtodReads(n, []);
    assert t + [] == t;
    DropAppend(t, rest);
  }

  lemma NumeralChars(n: Numeral)
    requires WellSpelled(n)
    ensures NumeralText(n) != [] && forall i :: 0 <= i < |NumeralText(n)| ==> IsNumberChar(NumeralText(n)[i])
  {
    hide IsDigit;
    Chars(n.whole);
    Chars(Fraction(n));
    if n.power.Power? { Chars(n.power.digits); }
    AllChars(SignText(n.sign), n.whole + (PointText(n.fraction) + PowerText(n.power)));
    AllChars(n.whole, PointText(n.fraction) + PowerText(n.power));
    AllChars(PointText(n.fraction), PowerText(n.power));
    if n.power.Power? {
      AllChars([n.power.letter], SignText(n.power.sign) + n.power.digits);
      AllChars(SignText(n.power.sign), n.power.digits);
    }
  }

  predicate NumberText(t: seq<byte>) {
    forall i :: 0 <= i < |t| ==> IsNumberChar(t[i])
  }

  lemma Chars(d: seq<byte>)
    requires AllDigits(d)
    ensures NumberText(d)
  {
  }

  lemma AllChars(a: seq<byte>, b: seq<byte>)
    requires NumberText(a) && NumberText(b)
    ensures NumberText(a + b)
  {
  }

  // ---------------------------------------------------------------- the int beside the double

  /** Inside the int range the fraction is cut off; outside it is the nearer limit. */
  lemma SaturateIs(d: real)
    ensures d >= 2147483647.0 ==> Saturate(d) == 2147483647
    ensures d <= -2147483648.0 ==> Saturate(d) == -2147483648
    ensures 0.0 <= d <= 2147483647.0 ==> Saturate(d) as real <= d < Saturate(d) as real + 1.0
    ensures -2147483648.0 <= d <= 0.0 ==> Saturate(d) as real - 1.0 < d <= Saturate(d) as real
  {
  }

  // ---------------------------------------------------------------- printed numbers

  /** No leading zero, no plus sign, a minus sign exactly for a negative number. */
  lemma {:induction false} DecimalShort(n: nat)
    ensures Decimal(n)[0] == 48 <==> n == 0
    ensures n == 0 ==> |Decimal(n)| == 1
  {
    if n >= 10 { DecimalShort(n / 10); }
  }

  lemma IntTextShort(n: int)
    ensures AllDigits(Decimal(if n < 0 then -n else n))
    ensures IntText(n) == SignText(if n < 0 then Minus else NoSign) + Decimal(if n < 0 then -n else n)
  {
    hide Decimal;
  }
}
