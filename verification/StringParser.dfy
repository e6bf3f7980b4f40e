/** parse_string in place (cJSON.c:769-891): two passes over the literal, an output buffer sized by
    the first pass, and the proof that the second pass never writes past it, in step or not. */
module StringParser {
  import opened Bytes
  import opened Sequences
  import opened Unicode
  import opened StringSpec

  // ---------------------------------------------------------------- the first pass as an automaton

  /** Reading `t` left to right: whether the next byte is hidden by a backslash, and how many
      backslashes have hidden one so far. */
  datatype Scan = Scan(escaped: bool, skips: nat)

  function ScanTo(t: seq<byte>, k: nat): Scan
    requires k <= |t|
  {
    if k == 0 then Scan(false, 0) else
    var before := ScanTo(t, k - 1);
    if before.escaped then Scan(false, before.skips)
    else if t[k - 1] == BACKSLASH then Scan(true, before.skips + 1)
    else Scan(false, before.skips)
  }

  /** Over k bytes at most every other byte is a hiding backslash. */
  lemma {:induction false} SkipsGrow(t: seq<byte>, i: nat, k: nat)
    requires i + k <= |t|
    ensures ScanTo(t, i).skips <= ScanTo(t, i + k).skips
    ensures 2 * (ScanTo(t, i + k).skips - ScanTo(t, i).skips) <= k + (if ScanTo(t, i + k).escaped then 1 else 0)
  {
    if k > 0 { SkipsGrow(t, i, k - 1); }
  }

  /** What the output may hold when the second pass stands at i. */
  predicate WithinBudget(t: seq<byte>, i: nat, written: nat) {
    i <= |t| && written + ScanTo(t, i).skips <= i
  }

  /** The budget never shrinks, so it can be compared with its value behind the closing quote. */
  lemma BudgetAtEnd(t: seq<byte>, n: nat, i: nat, written: nat)
    requires n < |t| && i <= n + 1 && WithinBudget(t, i, written)
    requires t[n] == QUOTE && !ScanTo(t, n).escaped
    ensures written <= n + 1 - ScanTo(t, n).skips
  {
    SkipsGrow(t, i, n + 1 - i);
    if i < n + 1 {
      SkipsBound(t, i, n + 1 - i);
    }
    assert ScanTo(t, n + 1).skips == ScanTo(t, n).skips;
  }

  lemma {:induction false} SkipsBound(t: seq<byte>, i: nat, k: nat)
    requires i + k <= |t|
    ensures ScanTo(t, i + k).skips <= ScanTo(t, i).skips + k
  {
    if k > 0 { SkipsBound(t, i, k - 1); }
  }

  lemma PlainBudget(t: seq<byte>, i: nat, written: nat)
    requires i < |t| && t[i] != BACKSLASH && WithinBudget(t, i, written)
    ensures WithinBudget(t, i + 1, written + 1)
  {
  }

  /** Two bytes of input pay for one of output, six for three and twelve for four, wherever the
      first pass saw backslashes among them. */
  lemma EscapeBudget(t: seq<byte>, i: nat, k: nat, written: nat, bytes: nat)
    requires i + k <= |t| && WithinBudget(t, i, written)
    requires (k == 2 && bytes == 1) || (k == 6 && bytes <= 3) || (k == 12 && bytes <= 4)
    ensures WithinBudget(t, i + k, written + bytes)
  {
    SkipsGrow(t, i, k);
  }

  // ---------------------------------------------------------------- one step of the second pass

  lemma PrependTwice(p: seq<byte>, q: seq<byte>, r: Unescaped)
    ensures Prepend(p, Prepend(q, r)) == Prepend(p + q, r)
  {
    if r.Good? { Assoc3(p, q, r.text); }
  }

  /** The output so far is `done` and the rest of the pass will produce the rest of the text. */
  ghost predicate OnTrack(t: seq<byte>, n: nat, i: nat, done: seq<byte>) {
    n < |t| && i <= n + 1 && Unescape(t, n) == Prepend(done, Unescape(t[i..], n - i))
  }

  lemma AdvancePlain(t: seq<byte>, n: nat, i: nat, done: seq<byte>)
    requires OnTrack(t, n, i, done) && i < n && t[i] != BACKSLASH
    ensures OnTrack(t, n, i + 1, done + [t[i]])
  {
    assert t[i..][1..] == t[i + 1..];
    PrependTwice(done, [t[i]], Unescape(t[i + 1..], n - i - 1));
  }

  lemma AdvanceSimple(t: seq<byte>, n: nat, i: nat, done: seq<byte>)
    requires OnTrack(t, n, i, done) && i < n && t[i] == BACKSLASH && SimpleEscape(t[i + 1]) >= 0
    ensures OnTrack(t, n, i + 2, done + [SimpleEscape(t[i + 1])])
  {
    assert t[i..][2..] == t[i + 2..];
    PrependTwice(done, [SimpleEscape(t[i + 1])], Unescape(t[i + 2..], n - i - 2));
  }

  lemma AdvanceLiteral(t: seq<byte>, n: nat, i: nat, done: seq<byte>)
    requires OnTrack(t, n, i, done) && i < n && t[i] == BACKSLASH && t[i + 1] == LOWER_U
    requires ReadLiteral(t[i..n]).Literal?
    ensures var literal := ReadLiteral(t[i..n]);
      literal.codepoint <= 0x10FFFF && OnTrack(t, n, i + literal.length, done + Utf8(literal.codepoint))
  {
    hide ReadLiteral, Utf8, ScanLength, ScanTo;
    var literal := ReadLiteral(t[i..n]);
    LiteralIsScalar(t[i..n]);
    assert t[i..][..n - i] == t[i..n];
    assert t[i..][literal.length..] == t[i + literal.length..];
    PrependTwice(done, Utf8(literal.codepoint), Unescape(t[i + literal.length..], n - i - literal.length));
  }

  lemma StopRefused(t: seq<byte>, n: nat, i: nat, done: seq<byte>)
    requires OnTrack(t, n, i, done) && i < n && t[i] == BACKSLASH
    requires if t[i + 1] == LOWER_U then ReadLiteral(t[i..n]).Refused? else SimpleEscape(t[i + 1]) < 0
    ensures Unescape(t, n) == Bad(t[i..])
  {
    assert t[i..][..n - i] == t[i..n];
  }

  /** The text of the literal when the pass has reached (or stepped over) the closing quote. */
  lemma Finish(t: seq<byte>, n: nat, i: nat, done: seq<byte>)
    requires OnTrack(t, n, i, done) && i >= n
    ensures Unescape(t, n) == Good(done)
  {
    assert done + [] == done;
  }

  // ---------------------------------------------------------------- the two passes

  /** First pass. `t` is the text after the opening quote; `end` is where the scan stopped. */
  method FindEnd(t: seq<byte>) returns (ok: bool, end: nat, skipped: nat)
    ensures ok <==> ScanLength(t) >= 0
    ensures ok ==> end == ScanLength(t) && skipped == ScanTo(t, end).skips && !ScanTo(t, end).escaped
  {
    end, skipped := 0, 0;
    while end < |t| && t[end] != QUOTE
      invariant end <= |t|
      invariant !ScanTo(t, end).escaped && skipped == ScanTo(t, end).skips
      invariant ScanLength(t) == if ScanLength(t[end..]) < 0 then -1 else end + ScanLength(t[end..])
      decreases |t| - end
    {
      if t[end] == BACKSLASH {
        if end + 1 >= |t| {
          return false, end, skipped;
        }
        skipped := skipped + 1;
        assert t[end..][2..] == t[end + 2..];
        assert ScanTo(t, end + 1).escaped;
        end := end + 1;
      } else {
        assert t[end..][1..] == t[end + 1..];
      }
      end := end + 1;
    }
    ok := end < |t|;
  }

  /** Second pass, into a buffer of exactly the size the code reserves: one byte more than
      `allocation_length`, which counts the opening quote and leaves out the skipped backslashes. */
  method UnescapeInto(t: seq<byte>, n: nat, output: array<byte>) returns (ok: bool, input: nat, written: nat)
    requires Measured(t, n) && output.Length == Reserved(t, n)
    modifies output
    ensures input <= n + 1
    ensures ok ==> written < output.Length && Unescape(t, n) == Good(output[..written]) && output[written] == NUL
    ensures !ok ==> Unescape(t, n) == Bad(t[input..])
  {
    ok, input, written := true, 0, 0;
    Start(t, n);
    assert output[..0] == [];
    while ok && input < n
      invariant input <= n + 1
      invariant ok ==> written < output.Length && State(t, n, input, output[..written])
      invariant !ok ==> Unescape(t, n) == Bad(t[input..])
      decreases n + 1 - input, ok
    {
      ok, input, written := UnescapeOne(t, n, output, input, written);
    }
    if ok {
      Finish(t, n, input, output[..written]);
      ghost var text := output[..written];
      output[written] := NUL;
      assert output[..written] == text;
    }
  }

  /** What holds between two steps of the second pass: the output so far is right and within budget. */
  ghost predicate State(t: seq<byte>, n: nat, i: nat, done: seq<byte>) {
    i <= n + 1 && WithinBudget(t, i, |done|) && OnTrack(t, n, i, done)
  }

  lemma Start(t: seq<byte>, n: nat)
    requires Measured(t, n)
    ensures State(t, n, 0, []) && 0 < Reserved(t, n)
  {
    assert t[0..] == t;
    BudgetAtEnd(t, n, 0, 0);
  }

  /** The literal at hand has been measured by the first pass. */
  ghost predicate Measured(t: seq<byte>, n: nat) {
    ScanLength(t) == n && !ScanTo(t, n).escaped
  }

  /** Bytes reserved: `allocation_length + sizeof("")`. */
  function Reserved(t: seq<byte>, n: nat): int
    requires n <= |t|
  {
    (n + 1 - ScanTo(t, n).skips) + 1
  }

  lemma PlainStep(t: seq<byte>, n: nat, i: nat, done: seq<byte>)
    requires Measured(t, n) && State(t, n, i, done) && i < n && t[i] != BACKSLASH
    ensures State(t, n, i + 1, done + [t[i]]) && |done + [t[i]]| < Reserved(t, n)
  {
    AdvancePlain(t, n, i, done);
    PlainBudget(t, i, |done|);
    BudgetAtEnd(t, n, i + 1, |done| + 1);
  }

  lemma SimpleStep(t: seq<byte>, n: nat, i: nat, done: seq<byte>)
    requires Measured(t, n) && State(t, n, i, done) && i < n && t[i] == BACKSLASH && SimpleEscape(t[i + 1]) >= 0
    ensures var next := done + [SimpleEscape(t[i + 1])];
      State(t, n, i + 2, next) && |next| < Reserved(t, n)
  {
    AdvanceSimple(t, n, i, done);
    EscapeBudget(t, i, 2, |done|, 1);
    BudgetAtEnd(t, n, i + 2, |done| + 1);
  }

  lemma LiteralStep(t: seq<byte>, n: nat, i: nat, done: seq<byte>)
    requires Measured(t, n) && State(t, n, i, done) && i < n && t[i] == BACKSLASH && t[i + 1] == LOWER_U
    requires ReadLiteral(t[i..n]).Literal?
    ensures var literal := ReadLiteral(t[i..n]);
      && literal.codepoint <= 0x10FFFF
      && var next := done + Utf8(literal.codepoint);
      && State(t, n, i + literal.length, next) && |next| < Reserved(t, n)
  {
    AdvanceLiteral(t, n, i, done);
    var literal := ReadLiteral(t[i..n]);
    LiteralIsScalar(t[i..n]);
    EscapeBudget(t, i, literal.length, |done|, |Utf8(literal.codepoint)|);
    BudgetAtEnd(t, n, i + literal.length, |done| + |Utf8(literal.codepoint)|);
  }

  lemma StateBounds(t: seq<byte>, n: nat, i: nat, done: seq<byte>)
    requires State(t, n, i, done)
    ensures n < |t| && i <= n + 1 && OnTrack(t, n, i, done)
  {
  }

  /** One round of the loop at `input_pointer`. */
  method UnescapeOne(t: seq<byte>, n: nat, output: array<byte>, at: nat, out: nat)
    returns (ok: bool, input: nat, written: nat)
    requires Measured(t, n) && output.Length == Reserved(t, n)
    requires at < n && out < output.Length && State(t, n, at, output[..out])
    modifies output
    ensures ok ==> at < input <= n + 1 && written < output.Length && State(t, n, input, output[..written])
    ensures !ok ==> input == at && Unescape(t, n) == Bad(t[input..])
  {
    hide State, Measured, Unescape, ScanTo, Utf8, SimpleEscape;
    ghost var done := output[..out];
    StateBounds(t, n, at, done);
    ok, input, written := true, at, out;
    if t[at] != BACKSLASH {
      PlainStep(t, n, at, done);
      Put(output, out, t[at]);
      written, input := out + 1, at + 1;
    } else if t[at + 1] == LOWER_U {
      if ReadLiteral(t[at..n]).Literal? {
        LiteralStep(t, n, at, done);
      }
      var sequenceLength, end := Utf16LiteralToUtf8(t[at..n], output, out);
      if sequenceLength == 0 {
        StopRefused(t, n, at, done);
        ok := false;
      } else {
        written, input := end, at + sequenceLength;
      }
    } else if SimpleEscape(t[at + 1]) >= 0 {
      SimpleStep(t, n, at, done);
      Put(output, out, SimpleEscape(t[at + 1]));
      written, input := out + 1, at + 2;
    } else {
      StopRefused(t, n, at, done);
      ok := false;
    }
  }

  /** `*output_pointer++ = b` */
  method Put(output: array<byte>, at: nat, b: byte)
    requires at < output.Length
    modifies output
    ensures output[..at + 1] == old(output[..at]) + [b]
  {
    output[at] := b;
  }
}
