/** cJSON_Minify: whitespace and comments are removed in the caller's own buffer (cJSON.c:2781-2876). */
module Minify {
  import opened Bytes
  import opened Sequences

  predicate IsBlank(b: byte) { b == SPACE || b == TAB || b == CARRIAGE_RETURN || b == NEWLINE }

  /** What is left behind a `//` comment that starts before `t`. */
  function AfterLine(t: seq<byte>): (r: seq<byte>)
    ensures |r| <= |t|
  {
    if t == [] then [] else if t[0] == NEWLINE then t[1..] else AfterLine(t[1..])
  }

  /** What is left behind the end of a block comment. */
  function AfterBlock(t: seq<byte>): (r: seq<byte>)
    ensures |r| <= |t|
  {
    if t == [] then []
    else if t[0] == ASTERISK && |t| > 1 && t[1] == SLASH then t[2..]
    else AfterBlock(t[1..])
  }

  /** minify_string: how many bytes it copies behind the opening quote. A quote ends the string unless
      the byte before it is a backslash. */
  function CopyLength(t: seq<byte>): (n: nat)
    ensures n <= |t|
  {
    if t == [] then 0
    else if t[0] == QUOTE then 1
    else if t[0] == BACKSLASH && |t| > 1 && t[1] == QUOTE then 2 + CopyLength(t[2..])
    else 1 + CopyLength(t[1..])
  }

  /** The minified text of a C string. */
  function Minified(s: seq<byte>): (m: seq<byte>)
    ensures |m| <= |s|
    decreases |s|
  {
    if s == [] then []
    else if IsBlank(s[0]) then Minified(s[1..])
    else if s[0] == SLASH then
      if |s| > 1 && s[1] == SLASH then Minified(AfterLine(s[2..]))
      else if |s| > 1 && s[1] == ASTERISK then Minified(AfterBlock(s[2..]))
      else Minified(s[1..])
    else
      var n := if s[0] == QUOTE then 1 + CopyLength(s[1..]) else 1;
      s[..n] + Minified(s[n..])
  }

  // ---------------------------------------------------------------- in place

  /** Minifies the C string of `length` bytes at the front of `json`. The write cursor never passes
      the read cursor, so nothing is overwritten before it has been read. */
  method Minify(json: array<byte>, ghost length: nat)
    requires length < json.Length && json[length] == NUL && NulFree(json[..length])
    modifies json
    ensures var m := Minified(old(json[..length]));
      |m| <= length < json.Length && json[..|m|] == m && json[|m|] == NUL
    ensures json[length..] == old(json[length..])
    ensures CString(json[..]) == Minified(old(CString(json[..])))
  {
    hide Minified, CString, CopyLength, AfterLine, AfterBlock, NulFree, Pending;
    ghost var s := json[..length];
    PendingAll(json[..], length);
    var read: nat, into: nat := 0, 0;
    assert s[0..] == s && json[..0] == [];
    assert [] + Minified(s) == Minified(s);
    while json[read] != NUL
      invariant into <= read <= length < json.Length && |s| == length
      invariant Pending(json[..], s, read)
      invariant json[length..] == old(json[length..])
      invariant json[..into] + Minified(s[read..]) == Minified(s)
      decreases length - read
    {
      PendingByte(json[..], s, read);
      PendingNext(json[..], s, read);
      StepMinified(s, read);
      if IsBlank(json[read]) {
        read := read + 1;
      } else if json[read] == SLASH {
        read := SkipSlash(json, s, read);
      } else if json[read] == QUOTE {
        ghost var done := json[..into];
        ghost var n := 1 + CopyLength(s[read + 1..]);
        read, into := MinifyString(json, s, read, into);
        Assoc3(done, s[read - n..read], Minified(s[read..]));
      } else {
        Assoc3(json[..into], [s[read]], Minified(s[read + 1..]));
        CopyByte(json, s, read, into);
        read, into := read + 1, into + 1;
      }
    }
    PendingByte(json[..], s, read);
    MinifiedEmpty();
    assert json[..into] == Minified(s);
    json[into] := NUL;
    assert json[..into] == Minified(s);
    MinifiedStrings(json[..], old(json[..]), length);
  }

  /** The C strings before and afterwards. */
  lemma MinifiedStrings(now: seq<byte>, was: seq<byte>, length: nat)
    requires length < |was| && was[length] == NUL && NulFree(was[..length])
    requires var m := Minified(was[..length]); |m| < |now| && now[..|m|] == m && now[|m|] == NUL
    ensures CString(now) == Minified(CString(was))
  {
    hide Minified, CString, NulFree;
    MinifiedNulFree(was[..length]);
    FrontString(now, |Minified(was[..length])|);
    FrontString(was, length);
  }

  /** The bytes from `read` to the terminating NUL have not been touched yet. */
  ghost predicate Pending(now: seq<byte>, s: seq<byte>, read: nat) {
    |s| < |now| && read <= |s| && NulFree(s) && now[|s|] == NUL && now[read..|s|] == s[read..]
  }

  lemma PendingAll(now: seq<byte>, length: nat)
    requires length < |now| && now[length] == NUL && NulFree(now[..length])
    ensures Pending(now, now[..length], 0)
  {
  }

  lemma PendingByte(now: seq<byte>, s: seq<byte>, read: nat)
    requires Pending(now, s, read)
    ensures now[read] != NUL ==> read < |s| && now[read] == s[read]
    ensures now[read] == NUL ==> read == |s| && s[read..] == []
  {
    if read < |s| { assert now[read..|s|][0] == s[read..][0]; }
  }

  lemma PendingNext(now: seq<byte>, s: seq<byte>, read: nat)
    requires Pending(now, s, read) && read < |s|
    ensures Pending(now, s, read + 1)
    ensures now[read] == s[read] && now[read + 1] == if read + 1 < |s| then s[read + 1] else NUL
  {
    assert now[read..|s|][0] == s[read..][0];
    assert now[read..|s|][1..] == s[read..][1..];
    if read + 1 < |s| { assert now[read + 1..|s|][0] == s[read + 1..][0]; }
  }

  /** A byte stored in front of what is pending leaves it pending. */
  lemma PendingStore(now: seq<byte>, s: seq<byte>, read: nat, at: nat, b: byte)
    requires Pending(now, s, read) && at < read
    ensures Pending(now[at := b], s, read)
  {
    assert now[at := b][read..|s|] == now[read..|s|];
  }

  lemma StepMinified(s: seq<byte>, i: nat)
    requires i < |s|
    ensures IsBlank(s[i]) ==> Minified(s[i..]) == Minified(s[i + 1..])
    ensures s[i] == SLASH ==>
      (Minified(s[i..]) ==
       if i + 1 < |s| && s[i + 1] == SLASH then Minified(AfterLine(s[i + 2..]))
       else if i + 1 < |s| && s[i + 1] == ASTERISK then Minified(AfterBlock(s[i + 2..]))
       else Minified(s[i + 1..]))
    ensures s[i] == QUOTE ==> var n := 1 + CopyLength(s[i + 1..]);
      i + n <= |s| && Minified(s[i..]) == s[i..i + n] + Minified(s[i + n..])
    ensures !IsBlank(s[i]) && s[i] != SLASH && s[i] != QUOTE ==> Minified(s[i..]) == [s[i]] + Minified(s[i + 1..])
  {
    hide AfterLine, AfterBlock, CopyLength;
    var u := s[i..];
    assert u[1..] == s[i + 1..];
    if i + 1 < |s| { assert u[2..] == s[i + 2..]; }
    if s[i] == QUOTE {
      var n := 1 + CopyLength(s[i + 1..]);
      assert u[..n] == s[i..i + n] && u[n..] == s[i + n..];
    }
    assert u[..1] == [s[i]];
  }

  lemma AfterLineSuffix(t: seq<byte>)
    ensures AfterLine(t) == t[|t| - |AfterLine(t)|..]
  {
  }

  lemma AfterBlockSuffix(t: seq<byte>)
    ensures AfterBlock(t) == t[|t| - |AfterBlock(t)|..]
  {
  }

  lemma {:induction false} MinifiedNulFree(s: seq<byte>)
    requires NulFree(s)
    ensures NulFree(Minified(s))
    decreases |s|
  {
    hide CopyLength, AfterLine, AfterBlock;
    if s == [] {
    } else if s[0] == SLASH {
      if |s| > 1 && s[1] == SLASH {
        AfterLineSuffix(s[2..]);
        MinifiedNulFree(AfterLine(s[2..]));
      } else if |s| > 1 && s[1] == ASTERISK {
        AfterBlockSuffix(s[2..]);
        MinifiedNulFree(AfterBlock(s[2..]));
      } else {
        MinifiedNulFree(s[1..]);
      }
    } else {
      var n := if s[0] == QUOTE then 1 + CopyLength(s[1..]) else 1;
      MinifiedNulFree(s[n..]);
    }
  }

  lemma MinifiedEmpty()
    ensures Minified([]) == []
  {
  }

  lemma {:induction false} FrontString(s: seq<byte>, n: nat)
    requires n < |s| && s[n] == NUL && NulFree(s[..n])
    ensures CString(s) == s[..n]
  {
    if n == 0 {
    } else {
      assert s[..n][0] == s[0];
      assert NulFree(s[1..][..n - 1]) by {
        assert s[1..][..n - 1] == s[..n][1..];
      }
      FrontString(s[1..], n - 1);
      assert s[..n] == [s[0]] + s[1..][..n - 1];
    }
  }

  method SkipLine(json: array<byte>, ghost s: seq<byte>, from: nat) returns (read: nat)
    requires Pending(json[..], s, from) && from + 1 < |s|
    ensures from + 2 <= read <= |s| && Pending(json[..], s, read) && s[read..] == AfterLine(s[from + 2..])
  {
    PendingNext(json[..], s, from);
    PendingNext(json[..], s, from + 1);
    read := from + 2;
    while json[read] != NUL
      invariant from + 2 <= read <= |s| && Pending(json[..], s, read)
      invariant AfterLine(s[read..]) == AfterLine(s[from + 2..])
      decreases |s| - read
    {
      PendingByte(json[..], s, read);
      PendingNext(json[..], s, read);
      assert s[read..][1..] == s[read + 1..];
      if json[read] == NEWLINE {
        read := read + 1;
        return;
      }
      read := read + 1;
    }
    PendingByte(json[..], s, read);
  }

  method SkipBlock(json: array<byte>, ghost s: seq<byte>, from: nat) returns (read: nat)
    requires Pending(json[..], s, from) && from + 1 < |s|
    ensures from + 2 <= read <= |s| && Pending(json[..], s, read) && s[read..] == AfterBlock(s[from + 2..])
  {
    PendingNext(json[..], s, from);
    PendingNext(json[..], s, from + 1);
    read := from + 2;
    while json[read] != NUL
      invariant from + 2 <= read <= |s| && Pending(json[..], s, read)
      invariant AfterBlock(s[read..]) == AfterBlock(s[from + 2..])
      decreases |s| - read
    {
      PendingByte(json[..], s, read);
      PendingNext(json[..], s, read);
      assert s[read..][1..] == s[read + 1..];
      if json[read] == ASTERISK && json[read + 1] == SLASH {
        PendingNext(json[..], s, read + 1);
        assert s[read..][2..] == s[read + 2..];
        read := read + 2;
        return;
      }
      read := read + 1;
    }
    PendingByte(json[..], s, read);
  }

  /** A slash: a comment is skipped, or the slash alone. */
  method SkipSlash(json: array<byte>, ghost s: seq<byte>, from: nat) returns (read: nat)
    requires Pending(json[..], s, from) && from < |s| && s[from] == SLASH
    ensures from < read <= |s| && Pending(json[..], s, read) && Minified(s[read..]) == Minified(s[from..])
  {
    hide Minified, AfterLine, AfterBlock, Pending;
    PendingNext(json[..], s, from);
    PendingBound(json[..], s, from);
    StepMinified(s, from);
    if json[from + 1] == SLASH {
      read := SkipLine(json, s, from);
    } else if json[from + 1] == ASTERISK {
      read := SkipBlock(json, s, from);
    } else {
      read := from + 1;
    }
  }

  /** Copies a string literal to the write cursor, quotes included. */
  method MinifyString(json: array<byte>, ghost s: seq<byte>, from: nat, to: nat) returns (read: nat, into: nat)
    requires Pending(json[..], s, from) && from < |s| && s[from] == QUOTE && to <= from
    modifies json
    ensures read == from + 1 + CopyLength(s[from + 1..]) <= |s| && into <= read
    ensures Pending(json[..], s, read) && json[|s|..] == old(json[|s|..])
    ensures into < json.Length && json[..into] == old(json[..to]) + s[from..read]
  {
    hide NulFree, CopyLength, Pending;
    PendingBound(json[..], s, from);
    ghost var before, behind := json[..to], json[|s|..];
    PendingNext(json[..], s, from);
    CopyByte(json, s, from, to);
    read, into := from + 1, to + 1;
    assert s[from..read] == [s[from]];
    while json[read] != NUL
      invariant from < read <= |s| < json.Length && into == to + (read - from) && Pending(json[..], s, read)
      invariant json[|s|..] == behind
      invariant read + CopyLength(s[read..]) == from + 1 + CopyLength(s[from + 1..])
      invariant json[..into] == before + s[from..read]
      decreases |s| - read
    {
      PendingByte(json[..], s, read);
      PendingNext(json[..], s, read);
      CopySteps(s, read);
      var quoted := json[read] == BACKSLASH && json[read + 1] == QUOTE;
      var closing := json[read] == QUOTE;
      read, into := CopyNext(json, s, from, to, read, into, before);
      if closing {
        return;
      }
      if quoted {
        read, into := CopyNext(json, s, from, to, read, into, before);
      }
    }
    PendingByte(json[..], s, read);
    CopyNothing();
  }

  lemma CopyNothing()
    ensures CopyLength([]) == 0
  {
  }

  /** What one round of the loop consumes. */
  lemma CopySteps(s: seq<byte>, read: nat)
    requires read < |s|
    ensures s[read] == QUOTE ==> CopyLength(s[read..]) == 1
    ensures s[read] == BACKSLASH && read + 1 < |s| && s[read + 1] == QUOTE ==>
      CopyLength(s[read..]) == 2 + CopyLength(s[read + 2..])
    ensures s[read] != QUOTE && !(s[read] == BACKSLASH && read + 1 < |s| && s[read + 1] == QUOTE) ==>
      CopyLength(s[read..]) == 1 + CopyLength(s[read + 1..])
  {
    assert s[read..][1..] == s[read + 1..];
    if read + 1 < |s| { assert s[read..][2..] == s[read + 2..]; }
  }

  /** Copies one byte of a literal and advances both cursors. */
  method CopyNext(json: array<byte>, ghost s: seq<byte>, ghost from: nat, ghost to: nat, read: nat, into: nat,
                  ghost before: seq<byte>)
    returns (read': nat, into': nat)
    requires Pending(json[..], s, read) && read < |s| && from <= read && into == to + (read - from) <= read
    requires json[..into] == before + s[from..read]
    modifies json
    ensures read' == read + 1 && into' == into + 1
    ensures Pending(json[..], s, read') && json[..into'] == before + s[from..read']
    ensures json[|s|..] == old(json[|s|..])
  {
    hide Pending;
    assert s[from..read + 1] == s[from..read] + [s[read]];
    Assoc3(before, s[from..read], [s[read]]);
    PendingBound(json[..], s, read);
    CopyByte(json, s, read, into);
    read', into' := read + 1, into + 1;
  }

  lemma PendingBound(now: seq<byte>, s: seq<byte>, read: nat)
    requires Pending(now, s, read)
    ensures |s| < |now|
  {
  }

  /** `(*output)[0] = (*input)[0]` with the output at or behind the input. */
  method CopyByte(json: array<byte>, ghost s: seq<byte>, read: nat, into: nat)
    requires Pending(json[..], s, read) && read < |s| && into <= read
    modifies json
    ensures Pending(json[..], s, read + 1)
    ensures json[..into + 1] == old(json[..into]) + [s[read]]
    ensures json[|s|..] == old(json[|s|..])
  {
    PendingNext(json[..], s, read);
    PendingStore(json[..], s, read + 1, into, json[read]);
    json[into] := json[read];
    assert json[..] == old(json[..])[into := s[read]];
  }

  // ---------------------------------------------------------------- minifying twice

  /** A copied literal is either closed, and then its length does not depend on what follows, or it
      runs to the end of the text. */
  lemma {:induction false} CopyIsLocal(t: seq<byte>, r: seq<byte>)
    requires CopyLength(t) < |t|
    ensures CopyLength(t[..CopyLength(t)] + r) == CopyLength(t)
  {
    if t[0] == QUOTE {
      assert (t[..1] + r)[0] == QUOTE;
    } else {
      var k := if t[0] == BACKSLASH && |t| > 1 && t[1] == QUOTE then 2 else 1;
      var n := CopyLength(t[k..]);
      CopyIsLocal(t[k..], r);
      assert t[..k + n] + r == t[..k] + (t[k..][..n] + r);
      var u := t[..k + n] + r;
      assert u[k..] == t[k..][..n] + r;
      assert n > 0 by { CopyPositive(t[k..]); }
      assert u[0] == t[0] && u[1] == t[1];
    }
  }

  lemma CopyPositive(t: seq<byte>)
    requires t != []
    ensures CopyLength(t) > 0
  {
  }

  /** Minifying a minified text changes nothing, for every C string. */
  lemma {:induction false} MinifyIdempotent(s: seq<byte>)
    ensures Minified(Minified(s)) == Minified(s)
    decreases |s|
  {
    hide CopyLength, AfterLine, AfterBlock;
    if s == [] {
    } else if IsBlank(s[0]) {
      MinifyIdempotent(s[1..]);
    } else if s[0] == SLASH {
      if |s| > 1 && s[1] == SLASH {
        MinifyIdempotent(AfterLine(s[2..]));
      } else if |s| > 1 && s[1] == ASTERISK {
        MinifyIdempotent(AfterBlock(s[2..]));
      } else {
        MinifyIdempotent(s[1..]);
      }
    } else if s[0] == QUOTE {
      LiteralKept(s);
    } else {
      MinifyIdempotent(s[1..]);
      PlainKept(s[0], Minified(s[1..]));
      assert s[..1] == [s[0]];
    }
  }

  lemma PlainKept(b: byte, m: seq<byte>)
    requires !IsBlank(b) && b != SLASH && b != QUOTE
    ensures Minified([b] + m) == [b] + Minified(m)
  {
    assert ([b] + m)[1..] == m && ([b] + m)[..1] == [b];
  }

  lemma MinifiedLiteral(t: seq<byte>, n: nat)
    requires t != [] && t[0] == QUOTE && n == 1 + CopyLength(t[1..])
    ensures n <= |t| && Minified(t) == t[..n] + Minified(t[n..])
  {
    hide CopyLength, AfterLine, AfterBlock;
  }

  /** A copied literal in front of anything it does not run into is copied again. */
  lemma CopiedAgain(s: seq<byte>, n: nat, rest: seq<byte>)
    requires s != [] && s[0] == QUOTE && n == 1 + CopyLength(s[1..]) && (n == |s| ==> rest == [])
    ensures n <= |s| && 1 + CopyLength((s[..n] + rest)[1..]) == n
  {
    hide CopyLength;
    var m := s[..n] + rest;
    if n < |s| {
      CopyIsLocal(s[1..], rest);
      assert m[1..] == s[1..][..n - 1] + rest;
    } else {
      assert m[1..] == s[1..];
    }
  }

  lemma {:induction false} LiteralKept(s: seq<byte>)
    requires s != [] && s[0] == QUOTE
    ensures Minified(Minified(s)) == Minified(s)
    decreases |s|, 0
  {
    hide CopyLength, Minified;
    var n := 1 + CopyLength(s[1..]);
    MinifiedLiteral(s, n);
    var rest := Minified(s[n..]);
    var m := s[..n] + rest;
    MinifyIdempotent(s[n..]);
    if n == |s| { MinifiedEmpty(); }
    CopiedAgain(s, n, rest);
    MinifiedLiteral(m, n);
    assert m[..n] == s[..n] && m[n..] == rest;
  }
}
