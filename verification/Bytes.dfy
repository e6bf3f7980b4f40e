/** Bytes, the ASCII codes cJSON switches on, and C strings. */
module Bytes {

  type byte = b: int | 0 <= b < 256

  const NUL: byte := 0
  const BACKSPACE: byte := 8
  const TAB: byte := 9
  const NEWLINE: byte := 10
  const FORM_FEED: byte := 12
  const CARRIAGE_RETURN: byte := 13
  const SPACE: byte := 32
  const QUOTE: byte := 34
  const ASTERISK: byte := 42
  const PLUS: byte := 43
  const COMMA: byte := 44
  const MINUS: byte := 45
  const DOT: byte := 46
  const SLASH: byte := 47
  const DIGIT_ZERO: byte := 48
  const DIGIT_NINE: byte := 57
  const COLON: byte := 58
  const UPPER_E: byte := 69
  const OPEN_BRACKET: byte := 91
  const BACKSLASH: byte := 92
  const CLOSE_BRACKET: byte := 93
  const LOWER_B: byte := 98
  const LOWER_E: byte := 101
  const LOWER_F: byte := 102
  const LOWER_N: byte := 110
  const LOWER_R: byte := 114
  const LOWER_T: byte := 116
  const LOWER_U: byte := 117
  const OPEN_BRACE: byte := 123
  const CLOSE_BRACE: byte := 125

  const NULL_TEXT: seq<byte> := [110, 117, 108, 108]        // null
  const TRUE_TEXT: seq<byte> := [116, 114, 117, 101]        // true
  const FALSE_TEXT: seq<byte> := [102, 97, 108, 115, 101]   // false

  ghost predicate NulFree(s: seq<byte>) {
    forall i :: 0 <= i < |s| ==> s[i] != NUL
  }

  /** The characters a C string holds when its memory holds `s`: everything before the first NUL. */
  function CString(s: seq<byte>): (c: seq<byte>)
    ensures NulFree(c) && c <= s
    ensures |c| < |s| ==> s[|c|] == NUL
  {
    if s == [] || s[0] == NUL then [] else [s[0]] + CString(s[1..])
  }

  lemma CStringOfNulFree(s: seq<byte>)
    requires NulFree(s)
    ensures CString(s) == s
  {
    assert |CString(s)| == |s|;
  }

  /** A byte buffer whose last byte is NUL: what cJSON_ParseWithOpts hands to the parser. */
  predicate Terminated(s: seq<byte>) {
    |s| > 0 && s[|s| - 1] == NUL
  }

  /** `t` is what is left of `s` after some prefix has been read. */
  predicate SuffixOf(t: seq<byte>, s: seq<byte>) {
    |t| <= |s| && t == s[|s| - |t|..]
  }

  lemma TailTerminated(s: seq<byte>, k: nat)
    requires Terminated(s) && k < |s|
    ensures Terminated(s[k..])
  {
  }
}
