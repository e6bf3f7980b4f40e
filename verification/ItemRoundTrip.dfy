/** Printing, parsing and comparing items, put together: an item printed and parsed again is a new tree
    that shows the same value, and compares equal exactly if the item compares equal to its own duplicate. */
module ItemRoundTrip {
  import opened Bytes
  import opened Json
  import opened ChildList
  import opened CompareSpec
  import opened Items
  import opened JsonTree
  import opened PrinterSpec
  import Parser
  import ParserSpec
  import Printer
  import RoundTrip

  lemma {:induction false} ItemWellFormed(items: seq<Json>, i: nat)
    requires AllWellFormed(items) && i < |items|
    ensures WellFormed(items[i])
  {
    hide WellFormed;
    if i > 0 { ItemWellFormed(items[1..], i - 1); }
  }

  lemma {:induction false} MemberWellFormed(members: seq<Member>, i: nat)
    requires AllMembersWellFormed(members) && i < |members|
    ensures WellFormed(members[i].value)
  {
    hide WellFormed;
    if i > 0 { MemberWellFormed(members[1..], i - 1); }
  }

  /** Well-formed values without repeated names are proper trees. */
  lemma {:induction false} WellFormedProper(j: Json, name: Option<seq<byte>>, caseSensitive: bool)
    requires WellFormed(j) && KeysDiffer(j, caseSensitive)
    ensures Proper(TreeOf(j, name), caseSensitive)
    decreases j
  {
    hide TreesOf, MemberTrees, SameName;
    match j
    case Array(items) =>
      forall i | 0 <= i < |items| ensures Proper(TreesOf(items)[i], caseSensitive) {
        ItemWellFormed(items, i);
        WellFormedProper(items[i], None, caseSensitive);
      }
    case Object(members) =>
      forall i | 0 <= i < |members| ensures Proper(MemberTrees(members)[i], caseSensitive) {
        MemberWellFormed(members, i);
        WellFormedProper(members[i].value, Some(members[i].key), caseSensitive);
      }
    case _ =>
  }

  /** Without gaps and without repeated names the tree shown compares equal to what is read back. */
  lemma ReadBackEqual(t: Tree, j: Json, caseSensitive: bool)
    requires WellFormed(j) && Shows(t, j) && NoGaps(t) && KeysDiffer(j, caseSensitive)
    ensures Steady(t, caseSensitive)
  {
    hide WellFormed, Shows, NoGaps, KeysDiffer, Alike, TreeOf, Compare, Steady, Proper;
    WellFormedProper(j, None, caseSensitive);
    ProperCompares(TreeOf(j, None), caseSensitive);
    CopyCompares(TreeOf(j, None), caseSensitive);
    ShowsAlike(t, j, None);
    AlikeCompare(t, TreeOf(j, None), TreeOf(j, None), caseSensitive);
    ReadBackSteady(t, j, caseSensitive);
  }

  /** Print and parse. */
  method PrintAndParse(item: Node, format: bool, ghost t: Tree, ghost j: Json) returns (parsed: Node?)
    requires WellFormed(j) && Stands(item, t) && Shows(t, j) && |Text(j, format, 0)| + 2 <= INT_MAX
    ensures parsed != null <==> Nesting(j) <= NESTING_LIMIT
    ensures parsed != null ==> Stands(parsed, TreeOf(j, None)) && fresh(Nodes(parsed))
  {
    hide Text, WellFormed, Stands, Shows, TreeOf, Nesting, ParserSpec.ParseText, NulFree;
    var ok, printed := Printer.Print(item, format, true, t, j);
    var text := printed[..printed.Length - 1];
    assert text == Text(j, format, 0);
    Printer.TextNulFree(j, format, 0);
    RoundTrip.PrintThenParse(j, format, true);
    var position;
    ghost var value;
    parsed, position, value := Parser.ParseWithOpts(text, true);
  }

  /** Print, parse, compare. */
  method PrintParseCompare(item: Node, format: bool, caseSensitive: bool, ghost t: Tree, ghost j: Json)
    returns (parsed: Node?, same: bool)
    requires WellFormed(j) && Stands(item, t) && Shows(t, j) && |Text(j, format, 0)| + 2 <= INT_MAX
    ensures parsed != null <==> Nesting(j) <= NESTING_LIMIT
    ensures parsed != null ==> Stands(parsed, TreeOf(j, None)) && fresh(Nodes(parsed))
    ensures parsed != null ==> (same <==> Steady(t, caseSensitive))
    ensures parsed != null && NoGaps(t) && KeysDiffer(j, caseSensitive) ==> same
  {
    hide Text, WellFormed, Stands, Shows, NoGaps, TreeOf, Nesting, Compare, Steady, KeysDiffer, Known;
    parsed := PrintAndParse(item, format, t, j);
    ReadBackSteady(t, j, caseSensitive);
    if NoGaps(t) && KeysDiffer(j, caseSensitive) { ReadBackEqual(t, j, caseSensitive); }
    same := false;
    if parsed != null {
      same := CompareItems(item, parsed, caseSensitive, t, TreeOf(j, None));
    }
  }
}
