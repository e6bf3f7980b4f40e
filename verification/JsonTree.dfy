/** The item trees that JSON values are kept in: what parsing builds and printing walks over. */
module JsonTree {
  import opened Bytes
  import opened Json
  import opened ChildList
  import opened CompareSpec

  /** The tree of a value, under a name if it is a member. True keeps a 1 in its valueint. */
  function TreeOf(j: Json, name: Option<seq<byte>>): (t: Tree)
    ensures t.name == name
    decreases j, 1
  {
    match j
    case Null => Tree(KIND_NULL, None, 0, 0.0, name, [])
    case False => Tree(KIND_FALSE, None, 0, 0.0, name, [])
    case True => Tree(KIND_TRUE, None, 1, 0.0, name, [])
    case Number(d, i) => Tree(KIND_NUMBER, None, i, d, name, [])
    case String(text) => Tree(KIND_STRING, Some(text), 0, 0.0, name, [])
    case Array(items) => Tree(KIND_ARRAY, None, 0, 0.0, name, TreesOf(items))
    case Object(members) => Tree(KIND_OBJECT, None, 0, 0.0, name, MemberTrees(members))
  }

  function TreesOf(items: seq<Json>): (ts: seq<Tree>)
    ensures |ts| == |items|
    ensures forall i :: 0 <= i < |items| ==> ts[i] == TreeOf(items[i], None)
    decreases items, 0
  {
    seq(|items|, i requires 0 <= i < |items| => TreeOf(items[i], None))
  }

  function MemberTrees(members: seq<Member>): (ts: seq<Tree>)
    ensures |ts| == |members|
    ensures forall i :: 0 <= i < |members| ==> ts[i] == TreeOf(members[i].value, Some(members[i].key))
    decreases members, 0
  {
    seq(|members|, i requires 0 <= i < |members| => TreeOf(members[i].value, Some(members[i].key)))
  }

  lemma TreesAppend(items: seq<Json>, j: Json)
    ensures TreesOf(items + [j]) == TreesOf(items) + [TreeOf(j, None)]
  {
  }

  lemma MemberTreesAppend(members: seq<Member>, m: Member)
    ensures MemberTrees(members + [m]) == MemberTrees(members) + [TreeOf(m.value, Some(m.key))]
  {
  }

  lemma ArrayTree(items: seq<Json>, name: Option<seq<byte>>)
    ensures TreeOf(Array(items), name).kind == KIND_ARRAY && TreeOf(Array(items), name).children == TreesOf(items)
  {
  }

  lemma ObjectTree(members: seq<Member>, name: Option<seq<byte>>)
    ensures TreeOf(Object(members), name).kind == KIND_OBJECT &&
      TreeOf(Object(members), name).children == MemberTrees(members)
  {
  }

  /** The type of the item for each value, as cJSON.h numbers them. */
  lemma KindNumbers(j: Json, name: Option<seq<byte>>)
    ensures TreeOf(j, name).kind ==
      (match j
       case False => 1
       case True => 2
       case Null => 4
       case Number(_, _) => 8
       case String(_) => 16
       case Array(_) => 32
       case Object(_) => 64)
    ensures TreeOf(j, name).valueint == (if j.Number? then j.valueint else if j.True? then 1 else 0)
    ensures j.Number? ==> TreeOf(j, name).valuedouble == j.valuedouble
    ensures TreeOf(j, name).valuestring == if j.String? then Some(j.text) else None
  {
  }

  /** What print_string_ptr makes of a string that may be missing. */
  function Shown(s: Option<seq<byte>>): seq<byte> { if s.Some? then s.value else [] }

  /** The tree shows the value: they agree in everything the printer reads. */
  ghost predicate Shows(t: Tree, j: Json)
    decreases j
  {
    match j
    case Null => t.kind == KIND_NULL
    case False => t.kind == KIND_FALSE
    case True => t.kind == KIND_TRUE
    case Number(d, i) => t.kind == KIND_NUMBER && t.valuedouble == d && t.valueint == i
    case String(text) => t.kind == KIND_STRING && Shown(t.valuestring) == text
    case Array(items) =>
      t.kind == KIND_ARRAY && |t.children| == |items| && forall i :: 0 <= i < |items| ==> Shows(t.children[i], items[i])
    case Object(members) =>
      t.kind == KIND_OBJECT && |t.children| == |members| &&
      forall i :: 0 <= i < |members| ==> ShowsMember(t.children[i], members[i])
  }

  ghost predicate ShowsMember(t: Tree, m: Member)
    decreases m
  {
    Shown(t.name) == m.key && Shows(t, m.value)
  }

  /** What the parser builds shows the value. */
  lemma {:induction false} TreeOfShows(j: Json, name: Option<seq<byte>>)
    ensures Shows(TreeOf(j, name), j)
    decreases j
  {
    hide TreesOf, MemberTrees;
    match j
    case Array(items) =>
      forall i | 0 <= i < |items| ensures Shows(TreesOf(items)[i], items[i]) { TreeOfShows(items[i], None); }
    case Object(members) =>
      forall i | 0 <= i < |members| ensures ShowsMember(MemberTrees(members)[i], members[i]) {
        TreeOfShows(members[i].value, Some(members[i].key));
      }
    case _ =>
  }

  /** Without gaps, a tree that shows a value differs from the parsed one in nothing compared. */
  lemma {:induction false} ShowsAlike(t: Tree, j: Json, name: Option<seq<byte>>)
    requires Shows(t, j) && NoGaps(t)
    ensures Alike(t, TreeOf(j, name))
    decreases j
  {
    hide TreesOf, MemberTrees;
    match j
    case Array(items) =>
      forall i | 0 <= i < |items| ensures Alike(t.children[i], TreesOf(items)[i]) {
        ShowsAlike(t.children[i], items[i], None);
      }
    case Object(members) =>
      forall i | 0 <= i < |members|
        ensures Alike(t.children[i], MemberTrees(members)[i]) && t.children[i].name == MemberTrees(members)[i].name
      {
        assert ShowsMember(t.children[i], members[i]);
        ShowsAlike(t.children[i], members[i].value, Some(members[i].key));
      }
    case _ =>
  }

  /** A tree compares equal to what is parsed from its text exactly when it compares equal to its own copy. */
  lemma ReadBackSteady(t: Tree, j: Json, caseSensitive: bool)
    requires Shows(t, j)
    ensures Compare(t, TreeOf(j, None), caseSensitive) <==> Steady(t, caseSensitive)
  {
    hide Shows, NoGaps, Alike, Compare, Steady, TreeOf;
    var u := TreeOf(j, None);
    CopyCompares(t, caseSensitive);
    if NoGaps(t) {
      ShowsAlike(t, j, None);
      AlikeCompare(t, u, u, caseSensitive);
      AlikeCompare(t, u, t, caseSensitive);
      CompareSymmetric(t, u, caseSensitive);
    } else {
      if Compare(t, u, caseSensitive) { EqualNoGaps(t, u, caseSensitive); }
      if Compare(t, t, caseSensitive) { EqualNoGaps(t, t, caseSensitive); }
    }
  }

  /** No object has two members of one name. */
  ghost predicate KeysDiffer(j: Json, caseSensitive: bool)
    decreases j
  {
    match j
    case Array(items) => forall i :: 0 <= i < |items| ==> KeysDiffer(items[i], caseSensitive)
    case Object(members) =>
      && (forall i :: 0 <= i < |members| ==> KeysDiffer(members[i].value, caseSensitive))
      && (forall i, k :: 0 <= i < k < |members| ==> !SameName(members[i].key, members[k].key, caseSensitive))
    case _ => true
  }
}
