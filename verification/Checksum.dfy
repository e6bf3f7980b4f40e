/** The one's complement header checksum of flowgen.c (RFC 1071, RFC 791). */
module Checksum {
  import opened Bits
  import opened Sequences

  type word = w: int | 0 <= w < 0x1_0000

  const ONES: nat := 0xFFFF

  /** The 16-bit one's complement representative of a sum; 0 only for 0. */
  function Canon(x: nat): (c: nat)
    ensures c <= ONES && (c == 0 <==> x == 0) && c % ONES == x % ONES
  {
    if x == 0 then 0 else (x - 1) % ONES + 1
  }

  /** It is the only one. */
  lemma CanonUnique(x: nat, c: nat)
    requires c <= ONES && (c == 0 <==> x == 0) && c % ONES == x % ONES
    ensures c == Canon(x)
  {
  }

  /** One fold of the carries. */
  function Fold(x: nat): (y: nat)
    ensures y % ONES == x % ONES && (y == 0 <==> x == 0) && Canon(y) == Canon(x)
    ensures x >= 0x1_0000 ==> y < x
  {
    x % 0x1_0000 + x / 0x1_0000
  }

  lemma FoldBits(x: nat)
    ensures And(x, 0xFFFF) + Shr(x, 16) == Fold(x)
    ensures Shr(x, 16) == x / 0x1_0000
  {
    hide And, Shr, Low, Pow2;
    HighPowers();
    AndMask(x, 16);
    ShrLow(x, 16);
  }

  lemma HighPowers()
    ensures Pow2(16) == 0x1_0000 && Pow2(31) == 0x8000_0000
  {
    Pow2Values();
    assert Pow2(13) == 0x2000 && Pow2(16) == 0x1_0000;
    assert Pow2(19) == 0x8_0000 && Pow2(22) == 0x40_0000;
    assert Pow2(25) == 0x200_0000 && Pow2(28) == 0x1000_0000;
  }

  /** The top bit of a 32-bit sum. */
  lemma TopBit(x: nat)
    requires x < 0x1_0000_0000
    ensures And(x, 0x8000_0000) != 0 <==> x >= 0x8000_0000
  {
    hide And, Shr, Low, Pow2;
    HighPowers();
    AndSplit(x, 0x8000_0000, 31);
    ShrLow(x, 31);
    ShrLow(0x8000_0000, 31);
    AndZero(Low(x, 31));
    AndBit(Shr(x, 31));
  }

  lemma AndZero(x: nat)
    ensures And(x, 0) == 0
  {
  }

  lemma AndBit(x: nat)
    requires x < 2
    ensures And(x, 1) == x
  {
  }

  lemma SumNext(s: seq<word>, i: nat)
    requires i < |s|
    ensures Sum(s[..i + 1]) == Sum(s[..i]) + s[i]
  {
    assert s[..i + 1][..i] == s[..i];
  }

  lemma ModAdd(a: nat, b: nat, x: nat)
    requires a % ONES == b % ONES
    ensures (a + x) % ONES == (b + x) % ONES
  {
    var p, q, r := a / ONES, b / ONES, a % ONES;
    assert a + x == ONES * p + (r + x) && b + x == ONES * q + (r + x);
    ModPlus(p, r + x);
    ModPlus(q, r + x);
  }

  lemma ModPlus(q: nat, r: nat)
    ensures (ONES * q + r) % ONES == r % ONES
  {
    DivModUnique(ONES * q + r, ONES, q + r / ONES, r % ONES);
  }

  lemma CanonAdd(a: nat, b: nat, x: nat)
    requires Canon(a) == Canon(b)
    ensures Canon(a + x) == Canon(b + x)
  {
    hide Canon;
    ModAdd(a, b, x);
    CanonUnique(b + x, Canon(a + x));
  }

  /** The checksum: congruent to minus the sum of the words, modulo 65535. */
  function Check(hdr: seq<word>): (r: word)
    ensures (r + Sum(hdr)) % ONES == 0
  {
    hide Sum;
    MinusCanon(Sum(hdr));
    ONES - Canon(Sum(hdr))
  }

  /** Of the two words that are 0 modulo 65535 it is 0xFFFF only for words that are all zero. */
  lemma CheckEnds(hdr: seq<word>)
    ensures Check(hdr) == 0 <==> Sum(hdr) > 0 && Sum(hdr) % ONES == 0
    ensures Check(hdr) == ONES <==> forall k :: 0 <= k < |hdr| ==> hdr[k] == 0
  {
    hide Sum;
    SumZero(hdr);
  }

  lemma {:induction false} SumZero(s: seq<word>)
    ensures Sum(s) == 0 <==> forall k :: 0 <= k < |s| ==> s[k] == 0
  {
    if s != [] {
      SumZero(s[..|s| - 1]);
      assert forall k :: 0 <= k < |s| - 1 ==> s[..|s| - 1][k] == s[k];
    }
  }

  lemma MinusCanon(x: nat)
    ensures (ONES - Canon(x) + x) % ONES == 0
  {
    var c := Canon(x);
    assert x == ONES * (x / ONES) + x % ONES;
    if x > 0 { assert x == ONES * ((x - 1) / ONES) + c; ModPlus((x - 1) / ONES, ONES); }
  }

  lemma {:induction false} SumUpdate(s: seq<word>, k: nat, w: word)
    requires k < |s|
    ensures Sum(s[k := w]) == Sum(s) - s[k] + w
  {
    var n := |s| - 1;
    if k < n {
      SumUpdate(s[..n], k, w);
      assert s[k := w][..n] == s[..n][k := w];
    } else {
      assert s[k := w][..n] == s[..n];
    }
  }

  /** The last loop: carries are folded in until none is left. */
  method FoldAll(sum0: nat) returns (sum: nat)
    ensures sum == Canon(sum0)
  {
    hide And, Shr, Fold, Canon;
    sum := sum0;
    FoldBits(sum);
    while Shr(sum, 16) != 0
      invariant Canon(sum) == Canon(sum0) && Shr(sum, 16) == sum / 0x1_0000
      decreases sum
    {
      FoldBits(sum);
      sum := And(sum, 0xFFFF) + Shr(sum, 16);
      FoldBits(sum);
    }
    CanonUnique(sum, sum);
  }

  /** The body of ip_sum's loop: one more word, and a fold when the top bit is set. */
  method Accumulate(sum0: nat, w: word) returns (sum: nat)
    requires sum0 < 0x8000_0000
    ensures sum < 0x8000_0000 && Canon(sum) == Canon(sum0 + w)
  {
    hide And, Shr, Fold, Canon;
    assert sum0 + w < 0x1_0000_0000;
    sum := (sum0 + w) % 0x1_0000_0000;
    TopBit(sum);
    if And(sum, 0x8000_0000) != 0 {
      FoldBits(sum);
      FoldSmall(sum);
      sum := And(sum, 0xFFFF) + Shr(sum, 16);
    }
  }

  /** ip_sum: the complement of the one's complement sum. The 32-bit accumulator never overflows. */
  method IpSum(hdr: seq<word>, hdrLen0: int) returns (r: word)
    requires hdrLen0 <= 2 * |hdr|
    ensures r == Check(hdr[..if hdrLen0 > 1 then hdrLen0 / 2 else 0])
  {
    hide And, Shr, Fold, Canon, Sum;
    var sum: nat, i: nat, hdrLen := 0, 0, hdrLen0;
    NoSum(hdr);
    while hdrLen > 1
      invariant hdrLen + 2 * i == hdrLen0 && (i > 0 ==> hdrLen >= 0) && i <= |hdr|
      invariant sum < 0x8000_0000 && Canon(sum) == Canon(Sum(hdr[..i]))
    {
      SumNext(hdr, i);
      CanonAdd(sum, Sum(hdr[..i]), hdr[i]);
      sum := Accumulate(sum, hdr[i]);
      i := i + 1;
      hdrLen := hdrLen - 2;
    }
    sum := FoldAll(sum);
    return ONES - sum;
  }

  lemma NoSum(s: seq<word>)
    ensures Sum(s[..0]) == 0
  {
  }

  lemma FoldSmall(x: nat)
    requires x < 0x1_0000_0000
    ensures Fold(x) < 0x2_0000
  {
  }

  // ---------------------------------------------------------------- what the checksum is for

  /** A header whose checksum word, computed with zero in its place, is stored checks to 0. */
  lemma StoredChecks(hdr: seq<word>, k: nat)
    requires k < |hdr| && hdr[k] == 0
    ensures Check(hdr[k := Check(hdr)]) == 0
  {
    hide Sum;
    var r, s := Check(hdr), Sum(hdr);
    SumUpdate(hdr, k, r);
    CanonUnique(s + r, ONES);
  }

  function Swap(w: word): word { w % 256 * 256 + w / 256 }

  function SwapAll(s: seq<word>): (t: seq<word>)
    ensures |t| == |s|
  {
    if s == [] then [] else SwapAll(s[..|s| - 1]) + [Swap(s[|s| - 1])]
  }

  lemma SwapMod(w: word)
    ensures Swap(w) % ONES == 256 * w % ONES && (Swap(w) == 0 <==> w == 0)
    ensures Swap(ONES - w) == ONES - Swap(w)
  {
    var hi, lo := w / 256, w % 256;
    assert 256 * w == ONES * hi + (lo * 256 + hi);
    ModPlus(hi, Swap(w));
    DivModUnique(ONES - w, 256, 255 - hi, 255 - lo);
  }

  lemma {:induction false} SumSwap(s: seq<word>)
    ensures Sum(SwapAll(s)) % ONES == 256 * Sum(s) % ONES && (Sum(SwapAll(s)) == 0 <==> Sum(s) == 0)
  {
    if s != [] {
      var n := |s| - 1;
      hide Swap;
      SumSwap(s[..n]);
      SwapMod(s[n]);
      SumLast(SwapAll(s[..n]), Swap(s[n]));
      AddSwapped(Sum(SwapAll(s[..n])), Sum(s[..n]), Swap(s[n]), s[n]);
    }
  }

  lemma SumLast(s: seq<word>, w: word)
    ensures Sum(s + [w]) == Sum(s) + w
  {
    assert (s + [w])[..|s|] == s;
  }

  lemma AddSwapped(a: nat, b: nat, x: nat, y: nat)
    requires a % ONES == 256 * b % ONES && x % ONES == 256 * y % ONES
    ensures (a + x) % ONES == 256 * (b + y) % ONES
  {
    ModAdd(a, 256 * b, x);
    ModAdd(x, 256 * y, 256 * b);
  }

  /** Swapping the bytes of all words swaps the bytes of the checksum (section 2(B) of RFC 1071). */
  lemma SwapCommutes(s: seq<word>)
    ensures Check(SwapAll(s)) == Swap(Check(s))
  {
    hide Sum, SwapAll, Swap, Canon;
    var x, y := Sum(s), Sum(SwapAll(s));
    SumSwap(s);
    SwapMod(Canon(x));
    TimesCanon(x);
    CanonUnique(y, Swap(Canon(x)));
  }

  lemma TimesCanon(x: nat)
    ensures 256 * Canon(x) % ONES == 256 * x % ONES
  {
    if x > 0 {
      var q := (x - 1) / ONES;
      assert x == ONES * q + Canon(x);
      assert 256 * x == ONES * (256 * q) + 256 * Canon(x);
      ModPlus(256 * q, 256 * Canon(x));
    }
  }
}
