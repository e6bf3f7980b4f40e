/** Numbers as text: the characters parse_number hands to strtod, what strtod makes of them, and
    what print_number writes for an int (cJSON.c:307-377,539-611). */
module NumberSpec {
  import opened Bytes
  import opened Json
  import opened Sequences

  predicate IsDigit(b: byte) { DIGIT_ZERO <= b <= DIGIT_NINE }

  /** The characters parse_number copies. */
  predicate IsNumberChar(b: byte) {
    IsDigit(b) || b == PLUS || b == MINUS || b == LOWER_E || b == UPPER_E || b == DOT
  }

  /** At most `room` of them, from the front of `s`. */
  function NumberChars(s: seq<byte>, room: nat): (c: seq<byte>)
    ensures c <= s && |c| <= room
    ensures |c| < |s| && |c| < room ==> !IsNumberChar(s[|c|])
    ensures forall i :: 0 <= i < |c| ==> IsNumberChar(c[i])
  {
    if s == [] || room == 0 || !IsNumberChar(s[0]) then [] else [s[0]] + NumberChars(s[1..], room - 1)
  }

  /** sizeof(number_c_string) - 1 */
  const NUMBER_ROOM: nat := 63

  // ---------------------------------------------------------------- strtod on these characters

  function Digits(s: seq<byte>): (d: seq<byte>)
    ensures d <= s
    ensures forall i :: 0 <= i < |d| ==> IsDigit(d[i])
    ensures |d| < |s| ==> !IsDigit(s[|d|])
  {
    if s == [] || !IsDigit(s[0]) then [] else [s[0]] + Digits(s[1..])
  }

  /** The number a run of digits stands for. */
  function DigitsValue(d: seq<byte>): nat
    requires forall i :: 0 <= i < |d| ==> IsDigit(d[i])
  {
    if d == [] then 0 else
    assert IsDigit(d[|d| - 1]);
    10 * DigitsValue(d[..|d| - 1]) + (d[|d| - 1] - DIGIT_ZERO)
  }

  function Pow10(k: nat): (p: nat)
    ensures p >= 1
  {
    if k == 0 then 1 else 10 * Pow10(k - 1)
  }

  /** x * 10^e, exactly. */
  function Scale(x: nat, e: int): real {
    if e >= 0 then (x * Pow10(e)) as real else x as real / Pow10(-e) as real
  }

  datatype Exponent = Exponent(value: int, used: nat)

  /** The optional exponent; without digits it is not part of the number. */
  function ReadExponent(s: seq<byte>): (e: Exponent)
    ensures e.used <= |s|
  {
    if s == [] || (s[0] != LOWER_E && s[0] != UPPER_E) then Exponent(0, 0) else
    var signed := |s| > 1 && (s[1] == PLUS || s[1] == MINUS);
    var start := if signed then 2 else 1;
    var d := Digits(s[start..]);
    if d == [] then Exponent(0, 0) else
    var magnitude: int := DigitsValue(d);
    Exponent(if signed && s[1] == MINUS then -magnitude else magnitude, start + |d|)
  }

  datatype Read = Read(value: real, used: nat)

  /** The digits behind a point. */
  function Decimals(t: seq<byte>): (d: seq<byte>)
    ensures |d| <= |t| && forall i :: 0 <= i < |d| ==> IsDigit(d[i])
  {
    if t != [] && t[0] == DOT then Digits(t[1..]) else []
  }

  /** The length of the point and those digits. */
  function PointLength(t: seq<byte>): (n: nat)
    ensures n <= |t|
  {
    if t != [] && t[0] == DOT then 1 + |Digits(t[1..])| else 0
  }

  /** The unsigned part: digits with at most one point among or beside them, then the exponent. */
  function ReadMagnitude(s: seq<byte>): (r: Read)
    ensures r.used <= |s|
  {
    hide Digits, Decimals, PointLength;
    var whole := Digits(s);
    var fraction := Decimals(s[|whole|..]);
    if whole == [] && fraction == [] then Read(0.0, 0) else
    var used := |whole| + PointLength(s[|whole|..]);
    var exponent := ReadExponent(s[used..]);
    Read(Scale(DigitsValue(whole + fraction), exponent.value - |fraction|), used + exponent.used)
  }

  /** strtod: the longest prefix that is a decimal number, with its exact value; nothing is used
      when there is no digit. */
  function Strtod(s: seq<byte>): (r: Read)
    ensures r.used <= |s|
  {
    var signed := s != [] && (s[0] == PLUS || s[0] == MINUS);
    var m := ReadMagnitude(if signed then s[1..] else s);
    if m.used == 0 then Read(0.0, 0) else
    Read(if signed && s[0] == MINUS then -m.value else m.value, m.used + (if signed then 1 else 0))
  }

  /** `(int)d` inside the int range, saturating outside. */
  function Saturate(d: real): (n: int)
    ensures INT_MIN <= n <= INT_MAX
  {
    if d >= INT_MAX as real then INT_MAX
    else if d <= INT_MIN as real then INT_MIN
    else if d >= 0.0 then d.Floor
    else -((-d).Floor)
  }

  /** A number ends in front of the buffer's NUL. */
  lemma NumberEnds(s: seq<byte>)
    ensures var u := Strtod(NumberChars(s, NUMBER_ROOM)).used; u <= |s| && (Terminated(s) ==> Terminated(s[u..]))
  {
    hide Strtod, NumberChars;
    var c := NumberChars(s, NUMBER_ROOM);
    if Terminated(s) {
      NotNumberChar(c, s);
      TailTerminated(s, Strtod(c).used);
    }
  }

  lemma NotNumberChar(c: seq<byte>, s: seq<byte>)
    requires c <= s && Terminated(s) && forall i :: 0 <= i < |c| ==> IsNumberChar(c[i])
    ensures |c| < |s|
  {
    assert |c| > 0 ==> IsNumberChar(c[|c| - 1]) && s[|c| - 1] == c[|c| - 1];
  }

  function ParseNumber(s: seq<byte>): (r: Parse<Json>)
    ensures r.Ok? ==> |r.rest| < |s| && r.value.Number?
    ensures r.Ok? && Terminated(s) ==> Terminated(r.rest)
  {
    hide Strtod, NumberChars, Saturate, Terminated, IsNumberChar;
    NumberEnds(s);
    var r := Strtod(NumberChars(s, NUMBER_ROOM));
    if r.used == 0 then Fail(s) else Ok(Number(r.value, Saturate(r.value)), s[r.used..])
  }

  // ---------------------------------------------------------------- printing

  function Decimal(n: nat): (d: seq<byte>)
    ensures |d| >= 1
    ensures forall i :: 0 <= i < |d| ==> IsDigit(d[i])
  {
    if n < 10 then [DIGIT_ZERO + n] else Decimal(n / 10) + [DIGIT_ZERO + n % 10]
  }

  /** sprintf("%d") */
  function IntText(n: int): (t: seq<byte>)
    ensures |t| >= 1 && (t[0] == MINUS || IsDigit(t[0]))
    ensures forall i :: 0 <= i < |t| ==> IsNumberChar(t[i])
  {
    if n < 0 then [MINUS] + Decimal(-n) else Decimal(n)
  }

  // ---------------------------------------------------------------- round trip

  lemma {:induction false} DecimalValue(n: nat)
    ensures DigitsValue(Decimal(n)) == n
  {
    if n >= 10 {
      DecimalValue(n / 10);
      DropAppend(Decimal(n / 10), [DIGIT_ZERO + n % 10]);
    }
  }

  /** An int32 has at most ten digits. */
  lemma {:induction false} DecimalLength(n: nat, k: nat)
    requires 1 <= k && n < Pow10(k)
    ensures |Decimal(n)| <= k
  {
    if n >= 10 {
      assert k > 1;
      DecimalLength(n / 10, k - 1);
    }
  }

  lemma {:induction false} DigitsAll(d: seq<byte>)
    requires forall i :: 0 <= i < |d| ==> IsDigit(d[i])
    ensures Digits(d) == d
  {
    if d != [] { DigitsAll(d[1..]); }
  }

  /** All number characters in front of something else are taken, if there is room. */
  lemma NumberCharsStep(b: byte, t: seq<byte>, room: nat)
    requires IsNumberChar(b) && room > 0
    ensures NumberChars([b] + t, room) == [b] + NumberChars(t, room - 1)
  {
    assert ([b] + t)[1..] == t;
  }

  lemma NoNumberChars(t: seq<byte>, room: nat)
    requires t == [] || !IsNumberChar(t[0])
    ensures NumberChars(t, room) == []
  {
  }

  lemma {:induction false} NumberCharsAll(c: seq<byte>, rest: seq<byte>, room: nat)
    requires forall i :: 0 <= i < |c| ==> IsNumberChar(c[i])
    requires |c| <= room && (rest == [] || !IsNumberChar(rest[0]))
    ensures NumberChars(c + rest, room) == c
  {
    hide NumberChars, IsNumberChar;
    if c == [] {
      assert c + rest == rest;
      NoNumberChars(rest, room);
    } else {
      NumberCharsAll(c[1..], rest, room - 1);
      assert c + rest == [c[0]] + (c[1..] + rest);
      NumberCharsStep(c[0], c[1..] + rest, room);
    }
  }

  lemma ScaleZero(x: nat)
    ensures Scale(x, 0) == x as real
  {
  }

  lemma MagnitudeOfDigits(d: seq<byte>)
    requires |d| > 0 && forall i :: 0 <= i < |d| ==> IsDigit(d[i])
    ensures ReadMagnitude(d) == Read(DigitsValue(d) as real, |d|)
  {
    hide Digits, DigitsValue, Scale;
    DigitsAll(d);
    assert d[|d|..] == [] && d + [] == d;
    ScaleZero(DigitsValue(d));
  }

  lemma StrtodInt(n: int)
    ensures Strtod(IntText(n)) == Read(n as real, |IntText(n)|)
  {
    hide ReadMagnitude, Decimal, DigitsValue;
    var d := Decimal(if n < 0 then -n else n);
    DecimalValue(if n < 0 then -n else n);
    MagnitudeOfDigits(d);
    if n < 0 {
      assert IntText(n)[1..] == d;
    }
  }

  /** A printed int32 is read back by parse_number, whatever follows it that is not part of a number. */
  lemma IntParses(n: int, rest: seq<byte>)
    requires INT_MIN <= n <= INT_MAX
    requires rest == [] || !IsNumberChar(rest[0])
    ensures ParseNumber(IntText(n) + rest) == Ok(Int(n), rest)
  {
    Pow10Ten();
    DecimalLength(if n < 0 then -n else n, 10);
    NumberCharsAll(IntText(n), rest, NUMBER_ROOM);
    StrtodInt(n);
    DropAppend(IntText(n), rest);
    SaturateInt(n);
  }

  lemma Pow10Ten()
    ensures Pow10(10) == 10_000_000_000
  {
  }

  lemma SaturateInt(n: int)
    requires INT_MIN <= n <= INT_MAX
    ensures Saturate(n as real) == n
  {
  }

  // ---------------------------------------------------------------- the loop

  /** parse_number: copies the characters, runs strtod on the copy and advances by what it used. */
  method CopyNumber(s: seq<byte>) returns (copy: array<byte>, i: nat)
    ensures fresh(copy) && copy.Length == NUMBER_ROOM + 1 && i <= NUMBER_ROOM
    ensures copy[..i] == NumberChars(s, NUMBER_ROOM) && copy[i] == NUL
  {
    copy := new byte[NUMBER_ROOM + 1];
    i := 0;
    while i < NUMBER_ROOM && i < |s| && IsNumberChar(s[i])
      invariant i <= NUMBER_ROOM && i <= |s|
      invariant copy[..i] == s[..i]
      invariant forall k :: 0 <= k < i ==> IsNumberChar(s[k])
    {
      copy[i] := s[i];
      i := i + 1;
    }
    copy[i] := NUL;
    LongestRun(s, NUMBER_ROOM, i);
  }

  lemma {:induction false} LongestRun(s: seq<byte>, room: nat, i: nat)
    requires i <= |s| && i <= room
    requires forall k :: 0 <= k < i ==> IsNumberChar(s[k])
    requires i == room || i == |s| || !IsNumberChar(s[i])
    ensures NumberChars(s, room) == s[..i]
  {
    if i > 0 {
      LongestRun(s[1..], room - 1, i - 1);
      assert IsNumberChar(s[0]);
      assert s[..i] == [s[0]] + s[1..][..i - 1];
    }
  }
}
