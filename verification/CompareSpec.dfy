/** cJSON_Compare on the trees that items stand for, and when it decides equality of what they denote. */
module CompareSpec {
  import opened Bytes
  import opened ChildList
  import opened Json

  /** The tree below an item. `name` is its key when it is an object member. */
  datatype Tree = Tree(kind: nat, valuestring: Option<seq<byte>>, valueint: int, valuedouble: real,
                       name: Option<seq<byte>>, children: seq<Tree>)

  function Size(t: Tree): (n: nat)
    ensures n > 0
    decreases t
  {
    1 + SizeAll(t.children)
  }

  function SizeAll(ts: seq<Tree>): nat
    decreases ts
  {
    if ts == [] then 0 else Size(ts[0]) + SizeAll(ts[1..])
  }

  lemma {:induction false} ChildSmaller(ts: seq<Tree>, i: nat)
    requires i < |ts|
    ensures Size(ts[i]) <= SizeAll(ts)
  {
    if i > 0 { ChildSmaller(ts[1..], i - 1); }
  }

  // ---------------------------------------------------------------- names

  /** tolower in the "C" locale */
  function ToLower(b: byte): byte { if 65 <= b <= 90 then b + 32 else b }

  function Fold(s: seq<byte>): seq<byte> { seq(|s|, i requires 0 <= i < |s| => ToLower(s[i])) }

  /** Two names mean the same member. */
  function NameKey(s: seq<byte>, caseSensitive: bool): seq<byte> { if caseSensitive then s else Fold(s) }

  predicate SameName(a: seq<byte>, b: seq<byte>, caseSensitive: bool) {
    NameKey(a, caseSensitive) == NameKey(b, caseSensitive)
  }

  /** get_object_item: the index of the first member with this name. Looking case-sensitively, a member
      without a name ends the search. */
  function Lookup(ts: seq<Tree>, name: Option<seq<byte>>, caseSensitive: bool): (r: Option<nat>)
    ensures r.Some? ==> r.value < |ts| && name.Some? && ts[r.value].name.Some?
    ensures r.Some? ==> SameName(name.value, ts[r.value].name.value, caseSensitive)
  {
    if name == None || ts == [] || (caseSensitive && ts[0].name == None) then None
    else if ts[0].name.Some? && SameName(name.value, ts[0].name.value, caseSensitive) then Some(0)
    else match Lookup(ts[1..], name, caseSensitive)
      case Some(i) => Some(i + 1)
      case None => None
  }

  /** The bytes are the same letter, or the same byte. */
  predicate Near(a: byte, b: byte) {
    a == b || (65 <= a <= 90 && b == a + 32) || (65 <= b <= 90 && a == b + 32)
  }

  /** Ignoring case makes no difference but between the capital and the small letters of ASCII. */
  lemma SameNameIs(a: seq<byte>, b: seq<byte>)
    ensures SameName(a, b, true) <==> a == b
    ensures SameName(a, b, false) <==> |a| == |b| && forall i :: 0 <= i < |a| ==> Near(a[i], b[i])
  {
    var x, y := Fold(a), Fold(b);
    if x == y {
      forall i | 0 <= i < |a| ensures Near(a[i], b[i]) { assert x[i] == y[i]; }
    }
  }

  /** The names are both there, and the same byte by byte or letter by letter. */
  ghost predicate NameMatches(a: Option<seq<byte>>, b: Option<seq<byte>>, caseSensitive: bool) {
    a.Some? && b.Some? &&
    if caseSensitive then a == b
    else |a.value| == |b.value| && forall i :: 0 <= i < |a.value| ==> Near(a.value[i], b.value[i])
  }

  /** The i-th is the first with the name, and the search gets that far. */
  ghost predicate FirstNamed(ts: seq<Tree>, name: Option<seq<byte>>, caseSensitive: bool, i: nat) {
    && i < |ts| && NameMatches(name, ts[i].name, caseSensitive)
    && forall j :: 0 <= j < i ==> !NameMatches(name, ts[j].name, caseSensitive) && (caseSensitive ==> ts[j].name.Some?)
  }

  lemma {:induction false} LookupFirst(ts: seq<Tree>, name: Option<seq<byte>>, caseSensitive: bool, i: nat)
    ensures Lookup(ts, name, caseSensitive) == Some(i) <==> FirstNamed(ts, name, caseSensitive, i)
    decreases ts
  {
    hide SameName, NameMatches;
    if ts != [] {
      SameIsMatch(name, ts[0].name, caseSensitive);
      if i > 0 {
        LookupFirst(ts[1..], name, caseSensitive, i - 1);
        FirstNamedTail(ts, name, caseSensitive, i);
      }
    }
  }

  lemma SameIsMatch(a: Option<seq<byte>>, b: Option<seq<byte>>, caseSensitive: bool)
    ensures NameMatches(a, b, caseSensitive) <==> a.Some? && b.Some? && SameName(a.value, b.value, caseSensitive)
  {
    hide SameName;
    if a.Some? && b.Some? { SameNameIs(a.value, b.value); }
  }

  lemma FirstNamedTail(ts: seq<Tree>, name: Option<seq<byte>>, caseSensitive: bool, i: nat)
    requires ts != [] && i > 0
    ensures FirstNamed(ts, name, caseSensitive, i) <==>
      !NameMatches(name, ts[0].name, caseSensitive) && (caseSensitive ==> ts[0].name.Some?) &&
      FirstNamed(ts[1..], name, caseSensitive, i - 1)
  {
    hide NameMatches;
    assert forall j :: 0 < j < |ts| ==> ts[j] == ts[1..][j - 1];
    assert forall j :: 0 <= j < |ts| - 1 ==> ts[j + 1] == ts[1..][j];
  }

  // ---------------------------------------------------------------- the comparison

  predicate Known(kind: nat) {
    kind in {KIND_FALSE, KIND_TRUE, KIND_NULL, KIND_NUMBER, KIND_STRING, KIND_ARRAY, KIND_OBJECT, KIND_RAW}
  }

  function Abs(x: real): real { if x < 0.0 then -x else x }

  /** compare_double: apart by at most DBL_EPSILON = 2^-52 of the greater magnitude */
  predicate CompareDouble(a: real, b: real) {
    var m := if Abs(a) > Abs(b) then Abs(a) else Abs(b);
    Abs(a - b) * 4503599627370496.0 <= m
  }

  predicate Compare(a: Tree, b: Tree, caseSensitive: bool)
    decreases Size(a) + Size(b), 0
  {
    if a.kind != b.kind || !Known(a.kind) then false
    else if a.kind == KIND_NUMBER then CompareDouble(a.valuedouble, b.valuedouble)
    else if a.kind == KIND_STRING || a.kind == KIND_RAW then
      a.valuestring.Some? && b.valuestring.Some? && a.valuestring.value == b.valuestring.value
    else if a.kind == KIND_ARRAY then CompareElements(a.children, b.children, caseSensitive)
    else if a.kind == KIND_OBJECT then
      CompareMembers(a.children, b.children, caseSensitive) && CompareMembers(b.children, a.children, caseSensitive)
    else true
  }

  predicate CompareElements(xs: seq<Tree>, ys: seq<Tree>, caseSensitive: bool)
    decreases SizeAll(xs) + SizeAll(ys), 1
  {
    if xs == [] || ys == [] then xs == ys
    else Compare(xs[0], ys[0], caseSensitive) && CompareElements(xs[1..], ys[1..], caseSensitive)
  }

  /** Every member of xs is in ys, with an equal value. */
  predicate CompareMembers(xs: seq<Tree>, ys: seq<Tree>, caseSensitive: bool)
    decreases SizeAll(xs) + SizeAll(ys), 1
  {
    xs == [] ||
    match Lookup(ys, xs[0].name, caseSensitive)
    case None => false
    case Some(i) =>
      ChildSmaller(ys, i);
      Compare(xs[0], ys[i], caseSensitive) && CompareMembers(xs[1..], ys, caseSensitive)
  }

  /** The eight types of cJSON.h are compared; a tree of any other type equals nothing, itself included. */
  lemma KindsCompared(kind: nat, text: seq<byte>, n: int, d: real, name: Option<seq<byte>>, caseSensitive: bool)
    ensures var t := Tree(kind, Some(text), n, d, name, []);
      Compare(t, t, caseSensitive) <==> kind in {1, 2, 4, 8, 16, 32, 64, 128}
  {
    var t := Tree(kind, Some(text), n, d, name, []);
    assert CompareElements([], [], caseSensitive) && CompareMembers([], [], caseSensitive);
  }

  // ---------------------------------------------------------------- symmetry

  /** On all trees, well-formed or not. */
  lemma {:induction false} CompareSymmetric(a: Tree, b: Tree, caseSensitive: bool)
    ensures Compare(a, b, caseSensitive) == Compare(b, a, caseSensitive)
    decreases Size(a) + Size(b), 0
  {
    hide CompareMembers, CompareElements;
    ElementsSymmetric(a.children, b.children, caseSensitive);
  }

  lemma {:induction false} ElementsSymmetric(xs: seq<Tree>, ys: seq<Tree>, caseSensitive: bool)
    ensures CompareElements(xs, ys, caseSensitive) == CompareElements(ys, xs, caseSensitive)
    decreases SizeAll(xs) + SizeAll(ys), 1
  {
    hide Compare;
    if xs != [] && ys != [] {
      CompareSymmetric(xs[0], ys[0], caseSensitive);
      ElementsSymmetric(xs[1..], ys[1..], caseSensitive);
    }
  }

  // ---------------------------------------------------------------- meaning

  /** What a tree denotes: members by name, without order. */
  datatype Meaning =
    | Constant(kind: nat)
    | Numeral(value: int)
    | Characters(kind: nat, text: seq<byte>)
    | List(elements: seq<Meaning>)
    | Record(members: map<seq<byte>, Meaning>)

  /** Known kinds, int32 numbers, strings that are there, members with pairwise different names. */
  ghost predicate Proper(t: Tree, caseSensitive: bool)
    decreases t
  {
    && Known(t.kind)
    && (t.kind == KIND_NUMBER ==> INT_MIN <= t.valueint <= INT_MAX && t.valuedouble == t.valueint as real)
    && (t.kind == KIND_STRING || t.kind == KIND_RAW ==> t.valuestring.Some?)
    && (t.kind == KIND_ARRAY || t.kind == KIND_OBJECT ==>
          forall i :: 0 <= i < |t.children| ==> Proper(t.children[i], caseSensitive))
    && (t.kind == KIND_OBJECT ==> Named(t.children) && NamesDiffer(t.children, caseSensitive))
  }

  ghost predicate Named(ts: seq<Tree>) {
    forall i :: 0 <= i < |ts| ==> ts[i].name.Some?
  }

  ghost predicate NamesDiffer(ts: seq<Tree>, caseSensitive: bool)
    requires Named(ts)
  {
    forall i, j :: 0 <= i < j < |ts| ==> !SameName(ts[i].name.value, ts[j].name.value, caseSensitive)
  }

  ghost function MeaningOf(t: Tree, caseSensitive: bool): Meaning
    decreases t
  {
    if t.kind == KIND_NUMBER then Numeral(t.valueint)
    else if t.kind == KIND_STRING || t.kind == KIND_RAW then
      Characters(t.kind, if t.valuestring.Some? then t.valuestring.value else [])
    else if t.kind == KIND_ARRAY then List(ListOf(t.children, caseSensitive))
    else if t.kind == KIND_OBJECT then Record(RecordOf(t.children, caseSensitive))
    else Constant(t.kind)
  }

  ghost function ListOf(ts: seq<Tree>, caseSensitive: bool): (r: seq<Meaning>)
    ensures |r| == |ts|
    decreases ts
  {
    if ts == [] then [] else [MeaningOf(ts[0], caseSensitive)] + ListOf(ts[1..], caseSensitive)
  }

  ghost function RecordOf(ts: seq<Tree>, caseSensitive: bool): map<seq<byte>, Meaning>
    decreases ts
  {
    if ts == [] then map[] else
    var m := RecordOf(ts[1..], caseSensitive);
    if ts[0].name.Some? then m[NameKey(ts[0].name.value, caseSensitive) := MeaningOf(ts[0], caseSensitive)] else m
  }

  lemma {:induction false} RecordAt(ts: seq<Tree>, caseSensitive: bool, i: nat)
    requires i < |ts| && Named(ts) && NamesDiffer(ts, caseSensitive)
    ensures var k := NameKey(ts[i].name.value, caseSensitive);
      var m := RecordOf(ts, caseSensitive);
      k in m && m[k] == MeaningOf(ts[i], caseSensitive)
  {
    hide MeaningOf, NameKey;
    if i > 0 {
      assert !SameName(ts[0].name.value, ts[i].name.value, caseSensitive);
      assert ts[1..][i - 1] == ts[i];
      RecordAt(ts[1..], caseSensitive, i - 1);
    }
  }

  lemma {:induction false} RecordKey(ts: seq<Tree>, caseSensitive: bool, k: seq<byte>) returns (i: nat)
    requires Named(ts) && k in RecordOf(ts, caseSensitive)
    ensures i < |ts| && NameKey(ts[i].name.value, caseSensitive) == k
  {
    hide MeaningOf, NameKey;
    if NameKey(ts[0].name.value, caseSensitive) == k {
      i := 0;
    } else {
      i := RecordKey(ts[1..], caseSensitive, k);
      i := i + 1;
    }
  }

  /** Among named members the search only fails when the name is not there. */
  lemma {:induction false} LookupFinds(ts: seq<Tree>, name: seq<byte>, caseSensitive: bool, i: nat)
    requires Named(ts) && i < |ts| && SameName(name, ts[i].name.value, caseSensitive)
    ensures Lookup(ts, Some(name), caseSensitive).Some?
  {
    if i > 0 {
      assert ts[1..][i - 1] == ts[i];
      LookupFinds(ts[1..], name, caseSensitive, i - 1);
    }
  }

  ghost predicate MemberMatches(x: Tree, ys: seq<Tree>, caseSensitive: bool) {
    var r := Lookup(ys, x.name, caseSensitive);
    r.Some? && Compare(x, ys[r.value], caseSensitive)
  }

  lemma {:induction false} MembersIff(xs: seq<Tree>, ys: seq<Tree>, caseSensitive: bool)
    ensures CompareMembers(xs, ys, caseSensitive) <==>
      forall i :: 0 <= i < |xs| ==> MemberMatches(xs[i], ys, caseSensitive)
  {
    hide Compare, Lookup;
    if xs != [] {
      MembersIff(xs[1..], ys, caseSensitive);
      assert forall i :: 0 < i < |xs| ==> xs[i] == xs[1..][i - 1];
    }
  }

  // ---------------------------------------------------------------- what the comparison decides

  /** Int32 numbers compare equal exactly when they are. */
  lemma Int32Compare(a: int, b: int)
    requires INT_MIN <= a <= INT_MAX && INT_MIN <= b <= INT_MAX
    ensures CompareDouble(a as real, b as real) <==> a == b
  {
  }

  const EPSILON_INVERSE: real := 4503599627370496.0

  /** Numbers compare equal when they have one sign and the smaller in magnitude is at least 1 - 2^-52 of the
      other; 0 only to itself. */
  lemma DoublesNear(a: real, b: real)
    ensures 0.0 <= a <= b ==> (CompareDouble(a, b) <==> b * (EPSILON_INVERSE - 1.0) <= a * EPSILON_INVERSE)
    ensures a < 0.0 < b ==> !CompareDouble(a, b)
    ensures CompareDouble(-a, -b) <==> CompareDouble(a, b)
    ensures CompareDouble(b, a) <==> CompareDouble(a, b)
  {
  }

  /** On proper trees comparing decides equality of what they denote. */
  lemma {:induction false} CompareDecides(a: Tree, b: Tree, caseSensitive: bool)
    requires Proper(a, caseSensitive) && Proper(b, caseSensitive)
    ensures Compare(a, b, caseSensitive) <==> MeaningOf(a, caseSensitive) == MeaningOf(b, caseSensitive)
    decreases Size(a) + Size(b), 0
  {
    hide CompareElements, CompareMembers, RecordOf, ListOf, CompareDouble, NamesDiffer;
    if a.kind == b.kind == KIND_ARRAY {
      ElementsDecide(a.children, b.children, caseSensitive);
    } else if a.kind == b.kind == KIND_OBJECT {
      MembersDecide(a.children, b.children, caseSensitive);
    } else if a.kind == b.kind == KIND_NUMBER {
      Int32Compare(a.valueint, b.valueint);
    }
  }

  lemma {:induction false} ElementsDecide(xs: seq<Tree>, ys: seq<Tree>, caseSensitive: bool)
    requires forall i :: 0 <= i < |xs| ==> Proper(xs[i], caseSensitive)
    requires forall i :: 0 <= i < |ys| ==> Proper(ys[i], caseSensitive)
    ensures CompareElements(xs, ys, caseSensitive) <==> ListOf(xs, caseSensitive) == ListOf(ys, caseSensitive)
    decreases SizeAll(xs) + SizeAll(ys), 1
  {
    hide Compare, Proper, MeaningOf;
    if xs != [] && ys != [] {
      CompareDecides(xs[0], ys[0], caseSensitive);
      ElementsDecide(xs[1..], ys[1..], caseSensitive);
      assert ListOf(xs, caseSensitive)[0] == MeaningOf(xs[0], caseSensitive);
      assert ListOf(xs, caseSensitive)[1..] == ListOf(xs[1..], caseSensitive);
      assert ListOf(ys, caseSensitive)[0] == MeaningOf(ys[0], caseSensitive);
      assert ListOf(ys, caseSensitive)[1..] == ListOf(ys[1..], caseSensitive);
    }
  }

  /** One member is matched exactly when the other record agrees under its name. */
  lemma {:induction false} MemberDecides(x: Tree, ys: seq<Tree>, caseSensitive: bool)
    requires x.name.Some? && Proper(x, caseSensitive)
    requires Named(ys) && NamesDiffer(ys, caseSensitive) && forall i :: 0 <= i < |ys| ==> Proper(ys[i], caseSensitive)
    ensures var k := NameKey(x.name.value, caseSensitive);
      var m := RecordOf(ys, caseSensitive);
      MemberMatches(x, ys, caseSensitive) <==> k in m && m[k] == MeaningOf(x, caseSensitive)
    decreases Size(x) + SizeAll(ys), 1
  {
    hide Compare, Proper, MeaningOf, RecordOf, Lookup, NamesDiffer, NameKey;
    var k := NameKey(x.name.value, caseSensitive);
    var r := Lookup(ys, x.name, caseSensitive);
    if r.Some? {
      ChildSmaller(ys, r.value);
      RecordAt(ys, caseSensitive, r.value);
      CompareDecides(x, ys[r.value], caseSensitive);
    } else if k in RecordOf(ys, caseSensitive) {
      var i := RecordKey(ys, caseSensitive, k);
      LookupFinds(ys, x.name.value, caseSensitive, i);
    }
  }

  lemma {:induction false} MembersDecide(xs: seq<Tree>, ys: seq<Tree>, caseSensitive: bool)
    requires Named(xs) && NamesDiffer(xs, caseSensitive) && forall i :: 0 <= i < |xs| ==> Proper(xs[i], caseSensitive)
    requires Named(ys) && NamesDiffer(ys, caseSensitive) && forall i :: 0 <= i < |ys| ==> Proper(ys[i], caseSensitive)
    ensures CompareMembers(xs, ys, caseSensitive) && CompareMembers(ys, xs, caseSensitive)
       <==> RecordOf(xs, caseSensitive) == RecordOf(ys, caseSensitive)
    decreases SizeAll(xs) + SizeAll(ys), 3
  {
    hide Proper, MeaningOf, RecordOf, NamesDiffer, NameKey, MemberMatches, CompareMembers;
    HalfDecides(xs, ys, caseSensitive);
    HalfDecides(ys, xs, caseSensitive);
    var m, n := RecordOf(xs, caseSensitive), RecordOf(ys, caseSensitive);
    if CompareMembers(xs, ys, caseSensitive) && CompareMembers(ys, xs, caseSensitive) {
      assert m == n;
    }
  }

  ghost predicate Within(m: map<seq<byte>, Meaning>, n: map<seq<byte>, Meaning>) {
    forall k :: k in m ==> k in n && n[k] == m[k]
  }

  /** One loop of the comparison: this record is a part of the other. */
  lemma {:induction false} HalfDecides(xs: seq<Tree>, ys: seq<Tree>, caseSensitive: bool)
    requires Named(xs) && NamesDiffer(xs, caseSensitive) && forall i :: 0 <= i < |xs| ==> Proper(xs[i], caseSensitive)
    requires Named(ys) && NamesDiffer(ys, caseSensitive) && forall i :: 0 <= i < |ys| ==> Proper(ys[i], caseSensitive)
    ensures CompareMembers(xs, ys, caseSensitive) <==> Within(RecordOf(xs, caseSensitive), RecordOf(ys, caseSensitive))
    decreases SizeAll(xs) + SizeAll(ys), 2
  {
    hide Proper, MeaningOf, RecordOf, NamesDiffer, NameKey, MemberMatches, CompareMembers;
    var m, n := RecordOf(xs, caseSensitive), RecordOf(ys, caseSensitive);
    MembersIff(xs, ys, caseSensitive);
    forall i | 0 <= i < |xs|
      ensures var k := NameKey(xs[i].name.value, caseSensitive);
        k in m && m[k] == MeaningOf(xs[i], caseSensitive) &&
          (MemberMatches(xs[i], ys, caseSensitive) <==> k in n && n[k] == m[k])
    {
      ChildSmaller(xs, i);
      RecordAt(xs, caseSensitive, i);
      MemberDecides(xs[i], ys, caseSensitive);
    }
    if CompareMembers(xs, ys, caseSensitive) {
      forall k | k in m ensures k in n && n[k] == m[k] {
        var i := RecordKey(xs, caseSensitive, k);
        assert MemberMatches(xs[i], ys, caseSensitive);
      }
    }
  }

  // ---------------------------------------------------------------- comparing with a copy

  /** No unknown kind, no missing string, no member out of reach of its own name, and no member that
      differs from the first one of its name. */
  ghost predicate Steady(t: Tree, caseSensitive: bool)
    decreases t
  {
    && Known(t.kind)
    && (t.kind == KIND_STRING || t.kind == KIND_RAW ==> t.valuestring.Some?)
    && (t.kind == KIND_ARRAY ==> forall i :: 0 <= i < |t.children| ==> Steady(t.children[i], caseSensitive))
    && (t.kind == KIND_OBJECT ==> forall i :: 0 <= i < |t.children| ==>
          var r := Lookup(t.children, t.children[i].name, caseSensitive);
          && r.Some?
          && if r.value == i then Steady(t.children[i], caseSensitive)
             else Compare(t.children[i], t.children[r.value], caseSensitive))
  }

  /** A tree compares equal to its copy exactly when it is steady. */
  lemma {:induction false} CopyCompares(t: Tree, caseSensitive: bool)
    ensures Compare(t, t, caseSensitive) <==> Steady(t, caseSensitive)
    decreases Size(t), 0
  {
    hide CompareMembers, CompareElements, Lookup;
    if t.kind == KIND_ARRAY {
      CopyElements(t.children, caseSensitive);
    } else if t.kind == KIND_OBJECT {
      MembersIff(t.children, t.children, caseSensitive);
      forall i | 0 <= i < |t.children|
        ensures Compare(t.children[i], t.children[i], caseSensitive) <==> Steady(t.children[i], caseSensitive)
      {
        ChildSmaller(t.children, i);
        CopyCompares(t.children[i], caseSensitive);
      }
    }
  }

  lemma {:induction false} CopyElements(ts: seq<Tree>, caseSensitive: bool)
    ensures CompareElements(ts, ts, caseSensitive) <==> forall i :: 0 <= i < |ts| ==> Steady(ts[i], caseSensitive)
    decreases SizeAll(ts), 1
  {
    hide Compare, Steady;
    if ts != [] {
      CopyCompares(ts[0], caseSensitive);
      CopyElements(ts[1..], caseSensitive);
      assert forall i :: 0 < i < |ts| ==> ts[i] == ts[1..][i - 1];
    }
  }

  /** Proper trees are. */
  lemma ProperCompares(t: Tree, caseSensitive: bool)
    requires Proper(t, caseSensitive)
    ensures Steady(t, caseSensitive)
  {
    CompareDecides(t, t, caseSensitive);
    CopyCompares(t, caseSensitive);
  }

  /** The object {"a":1,"a":2}: two members of one name. It differs from its own copy. */
  lemma RepeatedNameDiffers(caseSensitive: bool)
    ensures var one := Tree(KIND_NUMBER, None, 1, 1.0, Some([97]), []);
      var two := Tree(KIND_NUMBER, None, 2, 2.0, Some([97]), []);
      var both := Tree(KIND_OBJECT, None, 0, 0.0, None, [one, two]);
      !Compare(both, both, caseSensitive)
  {
    var one := Tree(KIND_NUMBER, None, 1, 1.0, Some([97]), []);
    var two := Tree(KIND_NUMBER, None, 2, 2.0, Some([97]), []);
    MembersIff([one, two], [one, two], caseSensitive);
    assert [one, two][1] == two && Lookup([one, two], two.name, caseSensitive) == Some(0);
    assert !MemberMatches(two, [one, two], caseSensitive);
  }

  // ---------------------------------------------------------------- trees that differ in nothing compared

  /** The same in everything a comparison reads. */
  ghost predicate Alike(a: Tree, b: Tree)
    decreases a
  {
    && a.kind == b.kind
    && (a.kind == KIND_NUMBER ==> a.valuedouble == b.valuedouble)
    && (a.kind == KIND_STRING || a.kind == KIND_RAW ==> a.valuestring == b.valuestring)
    && (a.kind == KIND_ARRAY || a.kind == KIND_OBJECT ==>
          |a.children| == |b.children| && forall i :: 0 <= i < |a.children| ==> Alike(a.children[i], b.children[i]))
    && (a.kind == KIND_OBJECT ==> forall i :: 0 <= i < |a.children| ==> a.children[i].name == b.children[i].name)
  }

  lemma {:induction false} SameLookup(xs: seq<Tree>, ys: seq<Tree>, name: Option<seq<byte>>, caseSensitive: bool)
    requires |xs| == |ys| && forall i :: 0 <= i < |xs| ==> xs[i].name == ys[i].name
    ensures Lookup(xs, name, caseSensitive) == Lookup(ys, name, caseSensitive)
  {
    if xs != [] {
      assert xs[0].name == ys[0].name;
      SameLookup(xs[1..], ys[1..], name, caseSensitive);
    }
  }

  /** Nothing compares with one and not with the other. */
  lemma {:induction false} AlikeCompare(a: Tree, b: Tree, x: Tree, caseSensitive: bool)
    requires Alike(a, b)
    ensures Compare(a, x, caseSensitive) == Compare(b, x, caseSensitive)
    decreases Size(a) + Size(x), 0
  {
    hide CompareElements, CompareMembers;
    if a.kind == KIND_ARRAY {
      AlikeElements(a.children, b.children, x.children, caseSensitive);
    } else if a.kind == KIND_OBJECT {
      AlikeMembers(a.children, b.children, x.children, caseSensitive);
    }
  }

  lemma {:induction false} AlikeElements(us: seq<Tree>, vs: seq<Tree>, xs: seq<Tree>, caseSensitive: bool)
    requires |us| == |vs| && forall i :: 0 <= i < |us| ==> Alike(us[i], vs[i])
    ensures CompareElements(us, xs, caseSensitive) == CompareElements(vs, xs, caseSensitive)
    decreases SizeAll(us) + SizeAll(xs), 1
  {
    hide Compare, Alike;
    if us != [] && xs != [] {
      AlikeCompare(us[0], vs[0], xs[0], caseSensitive);
      AlikeElements(us[1..], vs[1..], xs[1..], caseSensitive);
    }
  }

  lemma {:induction false} AlikeMembers(us: seq<Tree>, vs: seq<Tree>, xs: seq<Tree>, caseSensitive: bool)
    requires |us| == |vs| && forall i :: 0 <= i < |us| ==> Alike(us[i], vs[i])
    requires forall i :: 0 <= i < |us| ==> us[i].name == vs[i].name
    ensures CompareMembers(us, xs, caseSensitive) == CompareMembers(vs, xs, caseSensitive)
    ensures CompareMembers(xs, us, caseSensitive) == CompareMembers(xs, vs, caseSensitive)
    decreases SizeAll(us) + SizeAll(xs), 2
  {
    hide Compare, Alike, Lookup, CompareMembers;
    MembersIff(us, xs, caseSensitive);
    MembersIff(vs, xs, caseSensitive);
    MembersIff(xs, us, caseSensitive);
    MembersIff(xs, vs, caseSensitive);
    forall i | 0 <= i < |us|
      ensures MemberMatches(us[i], xs, caseSensitive) == MemberMatches(vs[i], xs, caseSensitive)
    {
      AlikeMember(us, vs, xs, caseSensitive, i);
    }
    forall i | 0 <= i < |xs|
      ensures MemberMatches(xs[i], us, caseSensitive) == MemberMatches(xs[i], vs, caseSensitive)
    {
      SameLookup(us, vs, xs[i].name, caseSensitive);
      var r := Lookup(us, xs[i].name, caseSensitive);
      if r.Some? {
        ChildSmaller(us, r.value);
        ChildSmaller(xs, i);
        AlikeCompare(us[r.value], vs[r.value], xs[i], caseSensitive);
        CompareSymmetric(us[r.value], xs[i], caseSensitive);
        CompareSymmetric(vs[r.value], xs[i], caseSensitive);
      }
    }
  }

  lemma {:induction false} AlikeMember(us: seq<Tree>, vs: seq<Tree>, xs: seq<Tree>, caseSensitive: bool, i: nat)
    requires i < |us| == |vs| && Alike(us[i], vs[i]) && us[i].name == vs[i].name
    ensures MemberMatches(us[i], xs, caseSensitive) == MemberMatches(vs[i], xs, caseSensitive)
    decreases SizeAll(us) + SizeAll(xs), 1
  {
    hide Compare, Alike, Lookup;
    var r := Lookup(xs, us[i].name, caseSensitive);
    if r.Some? {
      ChildSmaller(us, i);
      ChildSmaller(xs, r.value);
      AlikeCompare(us[i], vs[i], xs[r.value], caseSensitive);
    }
  }

  /** No string and no member's name is missing. */
  ghost predicate NoGaps(t: Tree)
    decreases t
  {
    && (t.kind == KIND_STRING || t.kind == KIND_RAW ==> t.valuestring.Some?)
    && (t.kind == KIND_ARRAY || t.kind == KIND_OBJECT ==> forall i :: 0 <= i < |t.children| ==> NoGaps(t.children[i]))
    && (t.kind == KIND_OBJECT ==> Named(t.children))
  }

  /** A tree with a gap equals nothing. */
  lemma {:induction false} EqualNoGaps(a: Tree, b: Tree, caseSensitive: bool)
    requires Compare(a, b, caseSensitive)
    ensures NoGaps(a)
    decreases Size(a) + Size(b), 0
  {
    hide CompareElements, CompareMembers;
    if a.kind == KIND_ARRAY {
      ElementsNoGaps(a.children, b.children, caseSensitive);
    } else if a.kind == KIND_OBJECT {
      MembersIff(a.children, b.children, caseSensitive);
      forall i | 0 <= i < |a.children| ensures NoGaps(a.children[i]) && a.children[i].name.Some? {
        assert MemberMatches(a.children[i], b.children, caseSensitive);
        var r := Lookup(b.children, a.children[i].name, caseSensitive);
        ChildSmaller(a.children, i);
        ChildSmaller(b.children, r.value);
        EqualNoGaps(a.children[i], b.children[r.value], caseSensitive);
      }
    }
  }

  lemma {:induction false} ElementsNoGaps(xs: seq<Tree>, ys: seq<Tree>, caseSensitive: bool)
    requires CompareElements(xs, ys, caseSensitive)
    ensures forall i :: 0 <= i < |xs| ==> NoGaps(xs[i])
    decreases SizeAll(xs) + SizeAll(ys), 1
  {
    hide Compare, NoGaps;
    if xs != [] {
      EqualNoGaps(xs[0], ys[0], caseSensitive);
      ElementsNoGaps(xs[1..], ys[1..], caseSensitive);
      assert forall i :: 0 < i < |xs| ==> xs[i] == xs[1..][i - 1];
    }
  }
}
