/** What minifying does to the tree a text stands for. A text parses to the same tree afterwards whenever no
    blank and no slash of a string literal is read by cJSON_Minify outside literals; and if blanks and slashes
    are spelled in one way only in its literals, exactly then. */
module MinifyParse {
  import opened Bytes
  import opened Json
  import opened Sequences
  import opened Unicode
  import opened NumberSpec
  import opened StringSpec
  import opened ParserSpec
  import opened Minify
  import opened MinifyModes
  import opened MinifyLiterals
  import opened PrinterSpec
  import opened RoundTrip

  // ---------------------------------------------------------------- from one place to the next

  /** The conditions on the text are the same at both places. */
  ghost predicate Passes(s: seq<byte>, m: Mode, r: seq<byte>, m': Mode) {
    CText(r) && (Harmless(s, m) <==> Harmless(r, m')) && (OneSpelling(s) ==> OneSpelling(r))
  }

  lemma PassByte(s: seq<byte>, m: Mode)
    requires CText(s) && s[0] != NUL && s[0] != QUOTE && s[0] != BACKSLASH
    ensures |s| > 1 && Passes(s, m, s[1..], Next(m, s[0]))
  {
    hide MinText, ScanLength, FirstPiece;
    CTextFirst(s);
    CTextTail(s, 1);
    PlainPiece(s);
  }

  lemma PassKept(s: seq<byte>, m: Mode)
    requires CText(s) && s[0] != NUL && s[0] != QUOTE && s[0] != BACKSLASH && !Dropped(m, s[0])
    ensures |s| > 1 && Passes(s, m, s[1..], Next(m, s[0]))
    ensures MinText(s, m) == [s[0]] + MinText(s[1..], Next(m, s[0]))
  {
    hide MinText, Passes;
    PassByte(s, m);
    KeptByte(s, m);
  }

  /** Behind a literal no escape is open. */
  lemma {:induction false} SpelledBehind(t: seq<byte>)
    requires Spelled(t) && ScanLength(t) >= 0
    ensures Spelled(t[ScanLength(t) + 1..])
    decreases |t|
  {
    hide FirstPiece, ScanLength;
    if t[0] == QUOTE {
      AtQuote(t);
      PlainPiece(t);
    } else {
      ScanPiece(t);
      var j := FirstPiece(t).length;
      SpelledBehind(t[j..]);
      assert t[j..][ScanLength(t[j..]) + 1..] == t[ScanLength(t) + 1..];
    }
  }

  lemma PassLiteral(s: seq<byte>, m: Mode)
    requires CText(s) && s[0] == QUOTE && ScanLength(s[1..]) >= 0 && AllKept(m, s[..ScanLength(s[1..]) + 2])
    ensures var n := ScanLength(s[1..]);
      && n + 2 < |s| && Passes(s, m, s[n + 2..], Advance(m, s[..n + 2]))
  {
    hide ScanLength, AllKept, Advance, MinText, OneSpelling, Harmless;
    var n := ScanLength(s[1..]);
    CTextTail(s, n + 1);
    CTextFirst(s[n + 1..]);
    CTextTail(s, n + 2);
    HarmlessLiteral(s, m);
    if OneSpelling(s) { SpellingBehind(s); }
  }

  lemma SpellingBehind(s: seq<byte>)
    requires OneSpelling(s) && s != [] && s[0] == QUOTE && ScanLength(s[1..]) >= 0
    ensures OneSpelling(s[ScanLength(s[1..]) + 2..])
  {
    hide ScanLength, FirstPiece;
    PlainPiece(s);
    SpelledBehind(s[1..]);
    assert s[1..][ScanLength(s[1..]) + 1..] == s[ScanLength(s[1..]) + 2..];
  }

  // ---------------------------------------------------------------- whitespace

  /** Skipping whitespace and minifying can be exchanged, unless a comment starts there. */
  lemma {:induction false} SkipMin(s: seq<byte>, m: Mode) returns (m': Mode)
    requires CText(s) && SkipSpaces(s)[0] != SLASH
    ensures Passes(s, m, SkipSpaces(s), m')
    ensures SkipSpaces(MinText(s, m)) == MinText(SkipSpaces(s), m')
    ensures SkipSpaces(s)[0] == MinText(SkipSpaces(s), m')[0]
    decreases |s|
  {
    hide MinText, Harmless, OneSpelling;
    CTextFirst(s);
    if s[0] > SPACE {
      m' := m;
      MinFirst(s, m);
    } else if |s| == 1 {
      m' := m;
      assert s == [NUL];
      MinEnd(m);
    } else {
      SkipOne(s);
      PassByte(s, m);
      m' := SkipMin(s[1..], Next(m, s[0]));
      if m == Out && IsBlank(s[0]) {
        BlankByte(s);
      } else {
        KeptByte(s, m);
        var r := [s[0]] + MinText(s[1..], Next(m, s[0]));
        SkipOne(r);
        assert r[1..] == MinText(s[1..], Next(m, s[0]));
      }
    }
  }

  lemma SkipOne(s: seq<byte>)
    requires Terminated(s) && s[0] <= SPACE && |s| > 1
    ensures SkipSpaces(s) == SkipSpaces(s[1..])
  {
  }

  /** A token keeps its first byte. */
  lemma MinFirst(s: seq<byte>, m: Mode)
    requires CText(s) && s[0] > SPACE && s[0] != SLASH
    ensures MinText(s, m)[0] == s[0] && SkipSpaces(MinText(s, m)) == MinText(s, m) && SkipSpaces(s) == s
  {
    hide MinText;
    KeptByte(s, m);
    SkipSpacesStays(s);
    SkipSpacesStays(MinText(s, m));
  }

  // ---------------------------------------------------------------- tokens

  /** Where a construct leaves cJSON_Minify, or that a literal in it lost a byte. */
  datatype Outcome = Kept(mode: Mode) | Lost

  /** `r` is what parsing s gave, `p` what parsing the minified text gives. */
  ghost predicate Tracks<T>(s: seq<byte>, m: Mode, r: Parse<T>, p: Parse<T>, o: Outcome)
    requires r.Ok?
  {
    match o
    case Kept(m') => Passes(s, m, r.rest, m') && p == Ok(r.value, MinText(r.rest, m'))
    case Lost => !Harmless(s, m) && (OneSpelling(s) && p.Ok? ==> p.value != r.value)
  }

  /** What may follow a value in an accepted text. */
  predicate Follows(r: seq<byte>) {
    r != [] && (r[0] == COMMA || r[0] == CLOSE_BRACKET || r[0] == CLOSE_BRACE || r[0] == NUL)
  }

  lemma {:induction false} PlainRun(s: seq<byte>, m: Mode, k: nat) returns (m': Mode)
    requires CText(s) && k < |s|
    requires forall i :: 0 <= i < k ==> s[i] > SPACE && s[i] != SLASH && s[i] != QUOTE && s[i] != BACKSLASH
    ensures Passes(s, m, s[k..], m') && MinText(s, m) == s[..k] + MinText(s[k..], m')
    ensures m == Out ==> m' == Out
    decreases k
  {
    hide Harmless, OneSpelling, MinText;
    if k == 0 {
      m' := m;
      assert s[0..] == s && s[..0] == [];
    } else {
      PassKept(s, m);
      m' := PlainRun(s[1..], Next(m, s[0]), k - 1);
      assert s[1..][k - 1..] == s[k..];
      assert s[..k] == [s[0]] + s[1..][..k - 1];
      Assoc3([s[0]], s[1..][..k - 1], MinText(s[k..], m'));
    }
  }

  /** Both passes over a literal look at nothing behind its closing quote. */
  lemma {:induction false} ScanIsLocal(t: seq<byte>, u: seq<byte>)
    requires ScanLength(t) >= 0 && ScanLength(t) < |u| && u[..ScanLength(t) + 1] == t[..ScanLength(t) + 1]
    ensures ScanLength(u) == ScanLength(t)
    decreases |t|
  {
    var n := ScanLength(t);
    assert u[..n + 1][0] == t[..n + 1][0];
    if t[0] != QUOTE {
      var k := if t[0] == BACKSLASH then 2 else 1;
      DropTake(u, k, n + 1);
      DropTake(t, k, n + 1);
      ScanIsLocal(t[k..], u[k..]);
    }
  }

  lemma {:induction false} UnescapeIsLocal(t: seq<byte>, u: seq<byte>, n: int)
    requires -1 <= n < |t| && n < |u| && (n >= 0 ==> u[..n + 1] == t[..n + 1])
    requires Unescape(t, n).Good?
    ensures Unescape(u, n) == Unescape(t, n)
    decreases n
  {
    hide ReadLiteral, Utf8, SimpleEscape;
    if n > 0 {
      assert u[..n + 1][0] == t[..n + 1][0] && u[..n + 1][1] == t[..n + 1][1];
      TakeTake(u, n + 1, n);
      TakeTake(t, n + 1, n);
      var k := if t[0] != BACKSLASH then 1 else if t[1] == LOWER_U then ReadLiteral(t[..n]).length else 2;
      if k <= n {
        DropTake(u, k, n + 1);
        DropTake(t, k, n + 1);
      }
      UnescapeIsLocal(t[k..], u[k..], n - k);
    }
  }

  /** A literal that is kept is read as before; one that is not loses a byte. */
  lemma StringMin(s: seq<byte>, m: Mode) returns (o: Outcome)
    requires CText(s) && ParseString(s).Ok?
    ensures s[0] == QUOTE && MinText(s, m)[0] == QUOTE
    ensures Tracks(s, m, ParseString(s), ParseString(MinText(s, m)), o)
  {
    hide ScanLength, Unescape, CString, MinText, OneSpelling, AllKept, Advance;
    var n := ScanLength(s[1..]);
    KeptByte(s, m);
    if AllKept(m, s[..n + 2]) {
      o := Kept(Advance(m, s[..n + 2]));
      PassLiteral(s, m);
      LiteralRead(s, m);
    } else {
      o := Lost;
      var k := FirstDropped(m, s[..n + 2]);
      TakeTake(s, n + 2, k);
      assert s[..n + 2][k] == s[k];
      if OneSpelling(s) && ParseString(MinText(s, m)).Ok? { LiteralDiffers(s, m, k); }
    }
  }

  lemma LiteralRead(s: seq<byte>, m: Mode)
    requires CText(s) && ParseString(s).Ok? && AllKept(m, s[..ScanLength(s[1..]) + 2])
    requires ScanLength(s[1..]) + 2 < |s|
    ensures var r, k := ParseString(s), ScanLength(s[1..]) + 2;
      && CText(s[k..]) && ParseString(MinText(s, m)) == Ok(r.value, MinText(s[k..], Advance(m, s[..k])))
  {
    hide ScanLength, Unescape, CString, MinText, AllKept, Advance;
    var n := ScanLength(s[1..]);
    KeptRun(s, m, n + 2);
    var rest := MinText(s[n + 2..], Advance(m, s[..n + 2]));
    var r := s[..n + 2] + rest;
    assert r[1..][..n + 1] == s[1..][..n + 1];
    ScanIsLocal(s[1..], r[1..]);
    UnescapeIsLocal(s[1..], r[1..], n);
    assert r[n + 2..] == rest;
  }

  // ---------------------------------------------------------------- numbers

  lemma NumberMin(s: seq<byte>, m: Mode) returns (o: Outcome)
    requires CText(s) && ParseNumber(s).Ok? && Follows(SkipSpaces(ParseNumber(s).rest))
    ensures Tracks(s, m, ParseNumber(s), ParseNumber(MinText(s, m)), o)
  {
    hide NumberChars, MinText, Harmless, OneSpelling, ParseNumber, Passes, CText, SkipSpaces;
    CTextTerminated(s);
    var c := NumberChars(s, NUMBER_ROOM);
    NumberRead(s);
    var m' := PlainRun(s, m, |c|);
    o := Kept(m');
    PassedText(s, m, s[|c|..], m');
    var end := SkipMin(s[|c|..], m');
    CTextTerminated(s[|c|..]);
    FollowFirst(MinText(s[|c|..], m'));
    NumberAgain(s, MinText(s[|c|..], m'));
  }

  /** A number in an accepted text is all of its characters. */
  lemma NumberRead(s: seq<byte>)
    requires Terminated(s) && ParseNumber(s).Ok? && Follows(SkipSpaces(ParseNumber(s).rest))
    ensures var c := NumberChars(s, NUMBER_ROOM);
      && |c| < |s| && s[..|c|] == c && ParseNumber(s).rest == s[|c|..]
      && forall i :: 0 <= i < |c| ==> s[i] > SPACE && s[i] != SLASH && s[i] != QUOTE && s[i] != BACKSLASH
  {
    hide Strtod, Saturate, NumberChars, SkipSpaces;
    var c := NumberChars(s, NUMBER_ROOM);
    WholeNumber(s);
    assert forall i :: 0 <= i < |c| ==> s[i] == c[i] && IsNumberChar(c[i]);
    assert s[..|c|] == c;
  }

  /** It is read again in front of anything that does not go on with it. */
  lemma NumberAgain(s: seq<byte>, rest: seq<byte>)
    requires ParseNumber(s).Ok? && ParseNumber(s).rest == s[|NumberChars(s, NUMBER_ROOM)|..]
    requires rest != [] && !IsNumberChar(rest[0])
    ensures ParseNumber(NumberChars(s, NUMBER_ROOM) + rest) == Ok(ParseNumber(s).value, rest)
  {
    hide Strtod, Saturate, NumberChars;
    var c := NumberChars(s, NUMBER_ROOM);
    NumberCharsAll(c, rest, NUMBER_ROOM);
    assert (c + rest)[|c|..] == rest;
    assert |s[Strtod(c).used..]| == |s[|c|..]|;
  }

  /** Cut inside its characters, a number is not followed by anything an accepted text allows. */
  lemma CutNumber(s: seq<byte>, u: nat)
    requires u < |NumberChars(s, NUMBER_ROOM)|
    ensures !Follows(SkipSpaces(s[u..]))
  {
    hide NumberChars;
    var c := NumberChars(s, NUMBER_ROOM);
    assert s[u..][0] == s[u] == c[u] && IsNumberChar(c[u]);
    SkipSpacesStays(s[u..]);
  }

  /** A number in an accepted text ends where its characters end. */
  lemma WholeNumber(s: seq<byte>)
    requires Terminated(s) && ParseNumber(s).Ok? && Follows(SkipSpaces(ParseNumber(s).rest))
    ensures Strtod(NumberChars(s, NUMBER_ROOM)).used == |NumberChars(s, NUMBER_ROOM)|
  {
    hide Strtod, Saturate, NumberChars, SkipSpaces;
    var u := Strtod(NumberChars(s, NUMBER_ROOM)).used;
    if u < |NumberChars(s, NUMBER_ROOM)| {
      CutNumber(s, u);
    }
  }

  lemma FollowFirst(m: seq<byte>)
    requires Terminated(m) && Follows(SkipSpaces(m))
    ensures !IsNumberChar(m[0])
  {
    if m[0] > SPACE { SkipSpacesStays(m); }
  }

  // ---------------------------------------------------------------- values

  /** A word is kept. */
  lemma WordMin(s: seq<byte>, m: Mode, word: seq<byte>, j: Json) returns (o: Outcome)
    requires CText(s) && word <= s && (word == NULL_TEXT || word == FALSE_TEXT || word == TRUE_TEXT)
    ensures word <= MinText(s, m) && Tracks(s, m, Ok(j, s[|word|..]), Ok(j, MinText(s, m)[|word|..]), o)
  {
    hide MinText, Harmless, OneSpelling;
    assert s[..|word|] == word;
    assert forall i :: 0 <= i < |word| ==> s[i] == word[i];
    var m' := PlainRun(s, m, |word|);
    o := Kept(m');
    Front(word, MinText(s[|word|..], m'));
  }

  lemma Front(p: seq<byte>, t: seq<byte>)
    ensures p <= p + t && (p + t)[|p|..] == t
  {
  }

  /** An accepted value is accepted again after minifying, with the same result, or a literal in it has lost a byte. */
  lemma {:induction false} ValueMin(s: seq<byte>, m: Mode, depth: nat) returns (o: Outcome)
    requires CText(s) && ParseValue(s, depth).Ok? && Follows(SkipSpaces(ParseValue(s, depth).rest))
    ensures Tracks(s, m, ParseValue(s, depth), ParseValue(MinText(s, m), depth), o)
    decreases |s|, 1
  {
    hide MinText, Harmless, OneSpelling, Passes, ParseArray, ParseObject, ParseNumber, ParseString, SkipSpaces;
    if NULL_TEXT <= s {
      o := WordMin(s, m, NULL_TEXT, Null);
    } else if FALSE_TEXT <= s {
      o := WordMin(s, m, FALSE_TEXT, False);
    } else if TRUE_TEXT <= s {
      o := WordMin(s, m, TRUE_TEXT, True);
    } else if s[0] == QUOTE {
      o := StringMin(s, m);
      NotLiteral(MinText(s, m));
    } else {
      MinFirst(s, m);
      NotLiteral(MinText(s, m));
      if s[0] == MINUS || IsDigit(s[0]) {
        o := NumberMin(s, m);
      } else if s[0] == OPEN_BRACKET {
        o := ArrayMin(s, m, depth);
      } else {
        o := ObjectMin(s, m, depth);
      }
    }
  }

  /** A structural character keeps its place in front of the minified rest. */
  lemma MarkMin(s: seq<byte>, m: Mode)
    requires CText(s) && (Follows(s) || s[0] == COLON || s[0] == OPEN_BRACKET || s[0] == OPEN_BRACE) && s[0] != NUL
    ensures |s| > 1 && Passes(s, m, s[1..], Next(m, s[0]))
    ensures MinText(s, m)[0] == s[0] && MinText(s, m)[1..] == MinText(s[1..], Next(m, s[0]))
  {
    hide MinText, Passes;
    PassKept(s, m);
  }

  /** Behind a token: skip to the next structural character, keep it, and go on behind it. */
  lemma NextMin(rest: seq<byte>, m: Mode) returns (m': Mode)
    requires CText(rest) && Follows(SkipSpaces(rest)) && SkipSpaces(rest)[0] != NUL
    ensures var next, r := SkipSpaces(rest), SkipSpaces(MinText(rest, m));
      && Terminated(next) && |next| > 1 && Passes(rest, m, next[1..], m')
      && r != [] && r[0] == next[0] && r[1..] == MinText(next[1..], m')
  {
    hide MinText, Harmless, OneSpelling, SkipSpaces;
    var n := SkipMin(rest, m);
    MarkMin(SkipSpaces(rest), n);
    m' := Next(n, SkipSpaces(rest)[0]);
  }

  lemma PassThrough(s: seq<byte>, m: Mode, t: seq<byte>, n: Mode, r: seq<byte>, m': Mode)
    requires Passes(s, m, t, n) && Passes(t, n, r, m')
    ensures Passes(s, m, r, m')
  {
  }

  lemma TrackFrom<T>(s: seq<byte>, m: Mode, t: seq<byte>, n: Mode, r: Parse<T>, p: Parse<T>, o: Outcome)
    requires r.Ok? && Passes(s, m, t, n) && Tracks(t, n, r, p, o)
    ensures Tracks(s, m, r, p, o)
  {
    hide Harmless, OneSpelling;
  }

  lemma CTextTerminated(s: seq<byte>)
    requires CText(s)
    ensures Terminated(s) && s != [] && SkipSpaces(s) != []
  {
  }

  lemma {:induction false} ArrayMin(s: seq<byte>, m: Mode, depth: nat) returns (o: Outcome)
    requires CText(s) && s[0] == OPEN_BRACKET && ParseArray(s, depth).Ok?
    ensures MinText(s, m)[0] == OPEN_BRACKET
    ensures Tracks(s, m, ParseArray(s, depth), ParseArray(MinText(s, m), depth), o)
    decreases |s|, 0
  {
    hide MinText, ParseElements, SkipSpaces, Passes, CText, Harmless, OneSpelling;
    CTextTerminated(s);
    MarkMin(s, m);
    var n := Next(m, s[0]);
    PassedText(s, m, s[1..], n);
    CTextTerminated(s[1..]);
    var first := SkipSpaces(s[1..]);
    if first[0] == CLOSE_BRACKET {
      var m' := NextMin(s[1..], n);
      PassThrough(s, m, s[1..], n, first[1..], m');
      o := Kept(m');
    } else {
      SkipSpacesTwice(s[1..]);
      ElementsStart(first, depth + 1);
      var m' := SkipMin(s[1..], n);
      PassThrough(s, m, s[1..], n, first, m');
      PassedText(s, m, first, m');
      o := ElementsMin(first, m', depth + 1, []);
      TrackFrom(s, m, first, m', ParseElements(first, depth + 1, []),
                ParseElements(MinText(first, m'), depth + 1, []), o);
    }
  }

  lemma PassedText(s: seq<byte>, m: Mode, r: seq<byte>, m': Mode)
    requires Passes(s, m, r, m')
    ensures CText(r)
  {
  }

  lemma ElementsStart(s: seq<byte>, depth: nat)
    requires Terminated(s) && SkipSpaces(s) == s && ParseElements(s, depth, []).Ok?
    ensures s[0] != SLASH
  {
    hide SkipSpaces, ParseValue;
    ElementsStep(s, depth, []);
    ValueStart(s, depth);
  }

  lemma {:induction false} ElementsMin(s: seq<byte>, m: Mode, depth: nat, items: seq<Json>) returns (o: Outcome)
    requires CText(s) && ParseElements(s, depth, items).Ok?
    ensures Tracks(s, m, ParseElements(s, depth, items), ParseElements(MinText(s, m), depth, items), o)
    decreases |s|, 2
  {
    hide MinText, ParseElements, ParseValue, SkipSpaces, Passes, CText, Tracks;
    CTextTerminated(s);
    ElementsStep(s, depth, items);
    ElementsStep(MinText(s, m), depth, items);
    var start := SkipSpaces(s);
    var value := ParseValue(start, depth);
    ValueStart(start, depth);
    var n := SkipMin(s, m);
    PassedText(s, m, start, n);
    o := ValueMin(start, n, depth);
    TrackFrom(s, m, start, n, value, ParseValue(MinText(start, n), depth), o);
    if o.Lost? {
      ElementLost(s, m, depth, items);
    } else {
      o := MoreElementsMin(s, m, depth, items, o.mode);
    }
  }

  /** Behind an element that was kept. */
  lemma {:induction false} MoreElementsMin(s: seq<byte>, m: Mode, depth: nat, items: seq<Json>, n: Mode)
    returns (o: Outcome)
    requires CText(s) && ParseElements(s, depth, items).Ok? && ParseValue(SkipSpaces(s), depth).Ok?
    requires Tracks(s, m, ParseValue(SkipSpaces(s), depth), ParseValue(SkipSpaces(MinText(s, m)), depth), Kept(n))
    ensures Tracks(s, m, ParseElements(s, depth, items), ParseElements(MinText(s, m), depth, items), o)
    decreases |s|, 1
  {
    hide MinText, ParseElements, ParseValue, SkipSpaces, Passes, CText;
    CTextTerminated(s);
    ElementsStep(s, depth, items);
    ElementsStep(MinText(s, m), depth, items);
    var value := ParseValue(SkipSpaces(s), depth);
    PassedText(s, m, value.rest, n);
    var next := SkipSpaces(value.rest);
    var m' := NextMin(value.rest, n);
    PassThrough(s, m, value.rest, n, next[1..], m');
    if next[0] == COMMA {
      PassedText(s, m, next[1..], m');
      var all := items + [value.value];
      o := ElementsMin(next[1..], m', depth, all);
      TrackFrom(s, m, next[1..], m', ParseElements(next[1..], depth, all),
                ParseElements(MinText(next[1..], m'), depth, all), o);
    } else {
      o := Kept(m');
    }
  }

  /** The items parsed so far stay, and the next one is the one that stands there. */
  lemma {:induction false} ElementsGrow(s: seq<byte>, depth: nat, items: seq<Json>)
    requires Terminated(s) && ParseElements(s, depth, items).Ok?
    ensures var value := ParseValue(SkipSpaces(s), depth);
      value.Ok? && items + [value.value] <= ParseElements(s, depth, items).value
    decreases |s|
  {
    hide ParseElements, ParseValue, SkipSpaces;
    ElementsStep(s, depth, items);
    var value := ParseValue(SkipSpaces(s), depth);
    var next := SkipSpaces(value.rest);
    if next[0] == COMMA { ElementsGrow(next[1..], depth, items + [value.value]); }
  }

  lemma ElementLost(s: seq<byte>, m: Mode, depth: nat, items: seq<Json>)
    requires CText(s) && ParseElements(s, depth, items).Ok? && ParseValue(SkipSpaces(s), depth).Ok?
    requires Tracks(s, m, ParseValue(SkipSpaces(s), depth), ParseValue(SkipSpaces(MinText(s, m)), depth), Lost)
    ensures Tracks(s, m, ParseElements(s, depth, items), ParseElements(MinText(s, m), depth, items), Lost)
  {
    hide MinText, ParseElements, ParseValue, SkipSpaces, Harmless, OneSpelling;
    CTextTerminated(s);
    ElementsGrow(s, depth, items);
    if ParseElements(MinText(s, m), depth, items).Ok? {
      ElementsGrow(MinText(s, m), depth, items);
      var value, value' := ParseValue(SkipSpaces(s), depth).value, ParseValue(SkipSpaces(MinText(s, m)), depth).value;
      assert (items + [value])[|items|] == value && (items + [value'])[|items|] == value';
    }
  }

  lemma {:induction false} ObjectMin(s: seq<byte>, m: Mode, depth: nat) returns (o: Outcome)
    requires CText(s) && s[0] == OPEN_BRACE && ParseObject(s, depth).Ok?
    ensures MinText(s, m)[0] == OPEN_BRACE
    ensures Tracks(s, m, ParseObject(s, depth), ParseObject(MinText(s, m), depth), o)
    decreases |s|, 0
  {
    hide MinText, ParseMembers, SkipSpaces, Passes, CText, Harmless, OneSpelling;
    CTextTerminated(s);
    MarkMin(s, m);
    var n := Next(m, s[0]);
    PassedText(s, m, s[1..], n);
    CTextTerminated(s[1..]);
    var first := SkipSpaces(s[1..]);
    if first[0] == CLOSE_BRACE {
      var m' := NextMin(s[1..], n);
      PassThrough(s, m, s[1..], n, first[1..], m');
      o := Kept(m');
    } else {
      SkipSpacesTwice(s[1..]);
      MembersStart(first, depth + 1);
      var m' := SkipMin(s[1..], n);
      PassThrough(s, m, s[1..], n, first, m');
      PassedText(s, m, first, m');
      o := MembersMin(first, m', depth + 1, []);
      TrackFrom(s, m, first, m', ParseMembers(first, depth + 1, []),
                ParseMembers(MinText(first, m'), depth + 1, []), o);
    }
  }

  lemma MembersStart(s: seq<byte>, depth: nat)
    requires Terminated(s) && SkipSpaces(s) == s && ParseMembers(s, depth, []).Ok?
    ensures s[0] != SLASH
  {
    hide SkipSpaces, ParseValue;
    MembersStep(s, depth, []);
  }

  lemma {:induction false} MembersMin(s: seq<byte>, m: Mode, depth: nat, members: seq<Member>) returns (o: Outcome)
    requires CText(s) && ParseMembers(s, depth, members).Ok?
    ensures Tracks(s, m, ParseMembers(s, depth, members), ParseMembers(MinText(s, m), depth, members), o)
    decreases |s|, 3
  {
    hide MinText, ParseMembers, ParseMember, SkipSpaces, Passes, CText, Tracks;
    CTextTerminated(s);
    MembersStep(s, depth, members);
    o := MemberMin(s, m, depth);
    if o.Lost? {
      MemberLost(s, m, depth, members);
    } else {
      o := MoreMembersMin(s, m, depth, members, o.mode);
    }
  }

  /** Behind a member that was kept. */
  lemma {:induction false} MoreMembersMin(s: seq<byte>, m: Mode, depth: nat, members: seq<Member>, n: Mode)
    returns (o: Outcome)
    requires CText(s) && ParseMembers(s, depth, members).Ok? && ParseMember(s, depth).Ok?
    requires Tracks(s, m, ParseMember(s, depth), ParseMember(MinText(s, m), depth), Kept(n))
    ensures Tracks(s, m, ParseMembers(s, depth, members), ParseMembers(MinText(s, m), depth, members), o)
    decreases |s|, 2
  {
    hide MinText, ParseMembers, ParseMember, SkipSpaces, Passes, CText;
    CTextTerminated(s);
    MembersStep(s, depth, members);
    MembersStep(MinText(s, m), depth, members);
    var member := ParseMember(s, depth);
    PassedText(s, m, member.rest, n);
    var next := SkipSpaces(member.rest);
    var m' := NextMin(member.rest, n);
    PassThrough(s, m, member.rest, n, next[1..], m');
    if next[0] == COMMA {
      PassedText(s, m, next[1..], m');
      var all := members + [member.value];
      o := MembersMin(next[1..], m', depth, all);
      TrackFrom(s, m, next[1..], m', ParseMembers(next[1..], depth, all),
                ParseMembers(MinText(next[1..], m'), depth, all), o);
    } else {
      o := Kept(m');
    }
  }

  lemma {:induction false} MembersGrow(s: seq<byte>, depth: nat, members: seq<Member>)
    requires Terminated(s) && ParseMembers(s, depth, members).Ok?
    ensures var member := ParseMember(s, depth);
      member.Ok? && members + [member.value] <= ParseMembers(s, depth, members).value
    decreases |s|
  {
    hide ParseMembers, ParseMember, SkipSpaces;
    MembersStep(s, depth, members);
    var member := ParseMember(s, depth);
    var next := SkipSpaces(member.rest);
    if next[0] == COMMA { MembersGrow(next[1..], depth, members + [member.value]); }
  }

  lemma MemberLost(s: seq<byte>, m: Mode, depth: nat, members: seq<Member>)
    requires CText(s) && ParseMembers(s, depth, members).Ok? && ParseMember(s, depth).Ok?
    requires Tracks(s, m, ParseMember(s, depth), ParseMember(MinText(s, m), depth), Lost)
    ensures Tracks(s, m, ParseMembers(s, depth, members), ParseMembers(MinText(s, m), depth, members), Lost)
  {
    hide MinText, ParseMembers, ParseMember, Harmless, OneSpelling;
    CTextTerminated(s);
    MembersGrow(s, depth, members);
    if ParseMembers(MinText(s, m), depth, members).Ok? {
      MembersGrow(MinText(s, m), depth, members);
      var member, member' := ParseMember(s, depth).value, ParseMember(MinText(s, m), depth).value;
      assert (members + [member])[|members|] == member && (members + [member'])[|members|] == member';
    }
  }

  lemma {:induction false} MemberMin(s: seq<byte>, m: Mode, depth: nat) returns (o: Outcome)
    requires CText(s) && ParseMember(s, depth).Ok? && Follows(SkipSpaces(ParseMember(s, depth).rest))
    ensures Tracks(s, m, ParseMember(s, depth), ParseMember(MinText(s, m), depth), o)
    decreases |s|, 2
  {
    hide MinText, ParseString, ParseValue, SkipSpaces, Passes, CText, Harmless, OneSpelling;
    CTextTerminated(s);
    var start := SkipSpaces(s);
    var key := ParseString(start);
    StringStart(start);
    var n := SkipMin(s, m);
    PassedText(s, m, start, n);
    o := StringMin(start, n);
    TrackFrom(s, m, start, n, key, ParseString(MinText(start, n)), o);
    if o.Kept? {
      o := NamedValueMin(s, m, depth, o.mode);
    }
  }

  /** Behind a name that was kept. */
  lemma {:induction false} NamedValueMin(s: seq<byte>, m: Mode, depth: nat, n: Mode) returns (o: Outcome)
    requires CText(s) && ParseMember(s, depth).Ok? && Follows(SkipSpaces(ParseMember(s, depth).rest))
    requires ParseString(SkipSpaces(s)).Ok?
    requires Tracks(s, m, ParseString(SkipSpaces(s)), ParseString(SkipSpaces(MinText(s, m))), Kept(n))
    ensures Tracks(s, m, ParseMember(s, depth), ParseMember(MinText(s, m), depth), o)
    decreases |s|, 1
  {
    hide MinText, ParseString, ParseValue, SkipSpaces, Passes, CText, Harmless, OneSpelling;
    CTextTerminated(s);
    var key := ParseString(SkipSpaces(s));
    PassedText(s, m, key.rest, n);
    CTextTerminated(key.rest);
    var colon := SkipSpaces(key.rest);
    var c := SkipMin(key.rest, n);
    PassThrough(s, m, key.rest, n, colon, c);
    PassedText(s, m, colon, c);
    MarkMin(colon, c);
    var d := Next(c, colon[0]);
    PassThrough(s, m, colon, c, colon[1..], d);
    PassedText(s, m, colon[1..], d);
    CTextTerminated(colon[1..]);
    var value := SkipSpaces(colon[1..]);
    ValueStart(value, depth);
    var v := SkipMin(colon[1..], d);
    PassThrough(s, m, colon[1..], d, value, v);
    PassedText(s, m, value, v);
    o := ValueMin(value, v, depth);
    TrackFrom(s, m, value, v, ParseValue(value, depth), ParseValue(MinText(value, v), depth), o);
  }

  lemma StringStart(s: seq<byte>)
    requires Terminated(s) && ParseString(s).Ok?
    ensures s[0] == QUOTE
  {
  }

  // ---------------------------------------------------------------- whole texts

  /** The parsed tree survives minification when every literal does. */
  lemma MinifyKeepsTree(text: seq<byte>)
    requires NulFree(text) && ParseText(text, true).Ok?
    requires Harmless(text + [NUL], Out)
    ensures ParseText(Minified(text), true) == ParseText(text, true)
  {
    hide Harmless, ParseText;
    var kept := TextMin(text);
  }

  /** When no character has two spellings it survives only then. */
  lemma MinifyKeepsExactly(text: seq<byte>)
    requires NulFree(text) && ParseText(text, true).Ok?
    requires OneSpelling(text + [NUL])
    ensures ParseText(Minified(text), true) == ParseText(text, true) <==> Harmless(text + [NUL], Out)
  {
    hide Harmless, ParseText, OneSpelling;
    var kept := TextMin(text);
  }

  lemma TextMin(text: seq<byte>) returns (kept: bool)
    requires NulFree(text) && ParseText(text, true).Ok?
    ensures kept <==> Harmless(text + [NUL], Out)
    ensures kept ==> ParseText(Minified(text), true) == ParseText(text, true)
    ensures !kept && OneSpelling(text + [NUL]) ==> ParseText(Minified(text), true) != ParseText(text, true)
  {
    hide Minified, Harmless, OneSpelling, ParseValue, SkipSpaces;
    var s := text + [NUL];
    assert s[..|s| - 1] == text;
    assert MinText(s, Out) == Minified(text) + [NUL];
    if SkipBom(s) != s {
      BomMin(s);
      kept := BodyMin(s[3..]);
      Front(BOM, MinText(s[3..], Out));
    } else {
      kept := BodyMin(s);
      NoNewBom(s);
    }
  }

  /** ParseBufferText behind the byte order mark. */
  function ParseBody(s: seq<byte>): Parse<Json>
    requires Terminated(s)
  {
    var r := ParseValue(SkipSpaces(s), 0);
    if r.Fail? then r else
    var end := SkipSpaces(r.rest);
    if end[0] == NUL then Ok(r.value, end) else Fail(end)
  }

  lemma BodyMin(s: seq<byte>) returns (kept: bool)
    requires CText(s) && ParseBody(s).Ok?
    ensures kept <==> Harmless(s, Out)
    ensures kept ==> ParseBody(MinText(s, Out)) == ParseBody(s)
    ensures !kept && OneSpelling(s) && ParseBody(MinText(s, Out)).Ok? ==>
      ParseBody(MinText(s, Out)).value != ParseBody(s).value
    ensures |MinText(s, Out)| > 1 && SkipSpaces(MinText(s, Out))[0] != 0xEF
  {
    hide MinText, ParseValue, SkipSpaces, Passes, CText, Harmless, OneSpelling;
    CTextTerminated(s);
    var start := SkipSpaces(s);
    var value := ParseValue(start, 0);
    ValueStart(start, 0);
    ValueNotBom(start);
    var n := SkipMin(s, Out);
    PassedText(s, Out, start, n);
    TwoBytes(MinText(s, Out));
    var o := ValueMin(start, n, 0);
    TrackFrom(s, Out, start, n, value, ParseValue(MinText(start, n), 0), o);
    kept := o.Kept?;
    if kept { EndMin(s, value.rest, o.mode); }
  }

  /** At the end nothing is left that could do harm. */
  lemma EndMin(s: seq<byte>, rest: seq<byte>, m: Mode)
    requires Passes(s, Out, rest, m) && SkipSpaces(rest)[0] == NUL
    ensures Harmless(s, Out) && SkipSpaces(rest) == [NUL] == SkipSpaces(MinText(rest, m))
  {
    hide MinText, SkipSpaces;
    var end := SkipSpaces(rest);
    var n := SkipMin(rest, m);
    CTextFirst(end);
    assert end == [NUL];
    MinEnd(n);
    NothingLeft(n);
  }

  lemma NothingLeft(m: Mode)
    ensures Harmless([NUL], m)
  {
    assert [NUL][1..] == [];
  }

  lemma ValueNotBom(s: seq<byte>)
    requires Terminated(s) && ParseValue(s, 0).Ok?
    ensures s[0] != 0xEF
  {
    hide ParseArray, ParseObject, ParseString, ParseNumber;
  }

  lemma TwoBytes(r: seq<byte>)
    requires Terminated(r)
    ensures |r| == 1 ==> SkipSpaces(r)[0] == NUL
  {
  }

  lemma BomMin(s: seq<byte>)
    requires CText(s) && |s| > 4 && BOM <= s
    ensures Passes(s, Out, s[3..], Out) && MinText(s, Out) == BOM + MinText(s[3..], Out)
  {
    hide MinText, Harmless, OneSpelling;
    assert s[..3] == BOM;
    assert forall i :: 0 <= i < 3 ==> s[i] == BOM[i];
    var m := PlainRun(s, Out, 3);
  }

  lemma NoNewBom(s: seq<byte>)
    requires Terminated(s) && SkipSpaces(MinText(s, Out))[0] != 0xEF
    ensures SkipBom(MinText(s, Out)) == MinText(s, Out)
  {
    hide MinText;
    if MinText(s, Out)[0] == 0xEF {
      SkipSpacesStays(MinText(s, Out));
    }
  }

  /** The proviso is needed. In ["\\\\","a b"] minify_string takes the first closing quote for an escaped
      one, ends the literal at the next quote instead, and the blank of the second string is lost. */
  function Sample(second: seq<byte>): Json { Array([String([BACKSLASH]), String(second)]) }

  lemma TrailingBackslashBreaks()
    ensures var text := Text(Sample([97, SPACE, 98]), false, 0);
      && NulFree(text) && !Harmless(text + [NUL], Out)
      && ParseText(text, true) == Ok(Sample([97, SPACE, 98]), [NUL])
      && ParseText(Minified(text), true) == Ok(Sample([97, 98]), [NUL])
  {
    hide Text, WellFormed, Nesting, ParseText, Harmless, Minified;
    SampleText([97, SPACE, 98]);
    SampleText([97, 98]);
    SampleMinified();
    assert Text(Sample([97, SPACE, 98]), false, 0) == SAMPLE;
    assert Text(Sample([97, 98]), false, 0) == [91, 34, 92, 92, 34, 44, 34, 97, 98, 34, 93];
    PrintThenParse(Sample([97, SPACE, 98]), false, true);
    PrintThenParse(Sample([97, 98]), false, true);
  }

  lemma SampleText(second: seq<byte>)
    requires second == [97, SPACE, 98] || second == [97, 98]
    ensures Text(Sample(second), false, 0) == [91, 34, 92, 92, 34, 44, 34] + second + [34, 93]
    ensures WellFormed(Sample(second)) && Nesting(Sample(second)) == 1
  {
    hide EscapeByte;
    var items := [String([BACKSLASH]), String(second)];
    var tail := [String(second)];
    assert items[1..] == tail && tail[1..] == [];
    SampleEscapes(second);
    assert ItemsText(tail, false, 1) == Quoted(second);
    assert ItemsText(items, false, 1) == Quoted([BACKSLASH]) + [COMMA] + Quoted(second);
    SampleSimple(items, tail);
  }

  lemma SampleSimple(items: seq<Json>, tail: seq<Json>)
    requires |items| == 2 && tail == items[1..] && items[0].String? && items[1].String?
    requires NulFree(items[0].text) && NulFree(items[1].text)
    ensures AllWellFormed(items) && MaxNesting(items) == 0
  {
    assert tail[1..] == [];
    assert AllWellFormed([]) && MaxNesting([]) == 0;
    assert WellFormed(tail[0]) && AllWellFormed(tail);
    assert Nesting(tail[0]) == 0 && MaxNesting(tail) == 0;
    assert WellFormed(items[0]) && Nesting(items[0]) == 0;
  }

  lemma SampleEscapes(second: seq<byte>)
    requires second == [97, SPACE, 98] || second == [97, 98]
    ensures Escape([BACKSLASH]) == [92, 92] && Escape(second) == second
  {
    hide Escape;
    EscapeGrows([BACKSLASH], 0);
    assert [BACKSLASH][..0] == [] && [BACKSLASH][..1] == [BACKSLASH];
    EscapeEmpty();
    EscapeGrows(second, 0);
    EscapeGrows(second, 1);
    assert second[..0] == [] && second[..1] == [97] && second[..|second|] == second;
    if |second| == 3 {
      EscapeGrows(second, 2);
      assert second[..2] == [97, 32];
    }
  }

  const SAMPLE: seq<byte> := [91, 34, 92, 92, 34, 44, 34, 97, 32, 98, 34, 93]

  lemma SampleMinified()
    ensures Minified(SAMPLE) == [91, 34, 92, 92, 34, 44, 34, 97, 98, 34, 93]
    ensures !Harmless(SAMPLE + [NUL], Out)
  {
    hide Minified, CopyLength, AfterLine, AfterBlock, Harmless;
    var s := SAMPLE;
    assert s[0] == 91 && s[1] == QUOTE;
    StepMinified(s, 0);
    SampleCopies();
    StepMinified(s, 1);
    SampleTail(s);
    assert s[0..] == s && s[1..7] == [34, 92, 92, 34, 44, 34];
    SampleScan(s + [NUL]);
  }

  lemma SampleTail(s: seq<byte>)
    requires |s| == 12 && s[7..] == [97, SPACE, 98, QUOTE, CLOSE_BRACKET] && CopyLength(s[11..]) == 1
    ensures Minified(s[7..]) == [97, 98, QUOTE, CLOSE_BRACKET]
  {
    hide Minified, CopyLength, AfterLine, AfterBlock;
    var t := s[7..];
    assert s[7] == t[0] && s[8] == t[1] && s[9] == t[2] && s[10] == t[3] && s[11] == t[4];
    StepMinified(s, 7);
    StepMinified(s, 8);
    StepMinified(s, 9);
    StepMinified(s, 10);
    MinifiedEmpty();
    assert s[12..] == [] && s[10..12] == [QUOTE, CLOSE_BRACKET];
  }

  lemma SampleCopies()
    ensures CopyLength(SAMPLE[2..]) == 5 && CopyLength(SAMPLE[11..]) == 1
  {
    hide CopyLength;
    var s := SAMPLE;
    assert |s| == 12 && s[2] == s[3] == BACKSLASH && s[4] == s[6] == s[10] == QUOTE && s[5] == COMMA &&
      s[11] == CLOSE_BRACKET;
    CopySteps(s, 2);
    CopySteps(s, 3);
    CopySteps(s, 5);
    CopySteps(s, 6);
    CopySteps(s, 11);
    assert s[12..] == [];
    CopyNothing();
  }

  lemma SampleScan(s: seq<byte>)
    requires s == SAMPLE + [NUL]
    ensures !Harmless(s, Out)
  {
    hide ScanLength, Harmless, AllKept, Advance;
    assert ScanLength(s[2..]) == 2 && ScanLength(s[7..]) == 3 by { SampleEnds(s); }
    var a, b := s[1..], s[6..];
    assert a[1..] == s[2..] && b[1..] == s[7..] && a[4..] == s[5..] && s[5..][1..] == b;
    assert a[..4] == [QUOTE, BACKSLASH, BACKSLASH, QUOTE] && b[..5] == [QUOTE, 97, SPACE, 98, QUOTE];
    FirstSample(a[..4]);
    SecondSample(b[..5]);
    HarmlessByte(s, Out);
    HarmlessLiteral(a, Out);
    HarmlessByte(s[5..], In);
    HarmlessLiteral(b, In);
  }

  lemma SampleEnds(s: seq<byte>)
    requires s == SAMPLE + [NUL]
    ensures ScanLength(s[2..]) == 2 && ScanLength(s[7..]) == 3
  {
    hide ScanLength;
    AtQuote(s[4..]);
    AtQuote(s[10..]);
    assert s[2..] == [BACKSLASH, BACKSLASH] + s[4..] && s[7..] == [97, SPACE, 98] + s[10..];
    ScanEscape(BACKSLASH, s[4..]);
    ScanPlain([97, SPACE, 98], s[10..]);
  }

  /** The first literal leaves cJSON_Minify inside it, ... */
  lemma FirstSample(u: seq<byte>)
    requires u == [QUOTE, BACKSLASH, BACKSLASH, QUOTE]
    ensures Advance(Out, u) == In
  {
    hide AllKept, Advance;
    assert u[1..] == [BACKSLASH, BACKSLASH, QUOTE] && u[1..][1..] == [BACKSLASH, QUOTE] && u[1..][1..][1..] == [QUOTE];
    OneByte(Out, u);
    OneByte(In, u[1..]);
    OneByte(Esc, u[1..][1..]);
    OneByte(Esc, [QUOTE]);
    assert [QUOTE][1..] == [];
    NoBytes(In);
  }

  /** ... so that the second is outside for it. */
  lemma SecondSample(u: seq<byte>)
    requires u == [QUOTE, 97, SPACE, 98, QUOTE]
    ensures !AllKept(In, u)
  {
    hide AllKept, Advance;
    assert u[1..] == [97, SPACE, 98, QUOTE] && u[1..][1..] == [SPACE, 98, QUOTE];
    OneByte(In, u);
    OneByte(Out, u[1..]);
    OneByte(Out, u[1..][1..]);
  }
}
