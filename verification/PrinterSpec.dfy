/** The text of a tree, formatted or not (cJSON.c:539-611,893-1018,1364-1435,1536-1595,1711-1822). */
module PrinterSpec {
  import opened Bytes
  import opened Json
  import NumberSpec
  import StringSpec

  function Tabs(n: nat): (t: seq<byte>)
    ensures |t| == n && forall i :: 0 <= i < n ==> t[i] == TAB
  {
    if n == 0 then [] else [TAB] + Tabs(n - 1)
  }

  /** Text of a value standing inside `depth` open containers. */
  function Text(j: Json, format: bool, depth: nat): (t: seq<byte>)
    decreases j, 0
  {
    match j
    case Null => NULL_TEXT
    case False => FALSE_TEXT
    case True => TRUE_TEXT
    case Number(_, n) => NumberSpec.IntText(n)
    case String(text) => StringSpec.Quoted(text)
    case Array(items) => [OPEN_BRACKET] + ItemsText(items, format, depth + 1) + [CLOSE_BRACKET]
    case Object(members) => OpenObject(format) + MembersText(members, format, depth + 1) + CloseObject(format, depth)
  }

  function OpenObject(format: bool): seq<byte> { if format then [OPEN_BRACE, NEWLINE] else [OPEN_BRACE] }

  function CloseObject(format: bool, depth: nat): seq<byte> {
    (if format then Tabs(depth) else []) + [CLOSE_BRACE]
  }

  function Separator(format: bool): seq<byte> { if format then [COMMA, SPACE] else [COMMA] }

  function ItemsText(items: seq<Json>, format: bool, depth: nat): seq<byte>
    decreases items, 1
  {
    if items == [] then []
    else if |items| == 1 then Text(items[0], format, depth)
    else Text(items[0], format, depth) + Separator(format) + ItemsText(items[1..], format, depth)
  }

  /** One member's line: indentation, name, colon and value. */
  function MemberText(m: Member, format: bool, depth: nat): seq<byte>
    decreases m, 1
  {
    NameText(m.key, format, depth) + Text(m.value, format, depth)
  }

  function NameText(key: seq<byte>, format: bool, depth: nat): seq<byte> {
    (if format then Tabs(depth) else []) + StringSpec.Quoted(key) + Colon(format)
  }

  function Colon(format: bool): seq<byte> { if format then [COLON, TAB] else [COLON] }

  /** What follows a member: a comma unless it is the last, and the end of its line. */
  function LineEnd(format: bool, last: bool): seq<byte> {
    (if last then [] else [COMMA]) + (if format then [NEWLINE] else [])
  }

  function MembersText(members: seq<Member>, format: bool, depth: nat): seq<byte>
    decreases members, 2
  {
    if members == [] then []
    else
      MemberText(members[0], format, depth) + LineEnd(format, |members| == 1) + MembersText(members[1..], format, depth)
  }
}
