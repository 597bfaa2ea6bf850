/** The two tree passes of scripts/dt_fixup.py: numbering the DARTs and muting unsupported drivers. */
module DeviceTreePasses {
  import opened Wrappers
  import opened Words
  import opened Sequences
  import opened DeviceTree
  import opened DeviceTreeRoundTrip
  import Reencode = DeviceTreeReencode
  import Utf8
  import PyInt

  const DART: seq<byte> := [0x64, 0x61, 0x72, 0x74, 0x2C] // "dart,"

  function Get(ps: Props, k: string): Option<Value> {
    if ps == [] then None else if ps[0].0 == k then Some(ps[0].1) else Get(ps[1..], k)
  }

  /** del props[k] */
  function Remove(ps: Props, k: string): Props {
    if ps == [] then [] else if ps[0].0 == k then Remove(ps[1..], k) else [ps[0]] + Remove(ps[1..], k)
  }

  function ValueBytes(v: Value): seq<byte> {
    match v
    case Str(s) => Utf8.Encode(s)
    case Bytes(b) => b
  }

  // ---- numbering ----

  predicate IsDart(ps: Props) {
    var c := Get(ps, "compatible");
    c.Some? && Contains(ValueBytes(c.value), DART)
  }

  /** A number as the pass writes it and as the decoder spells it. */
  datatype Spelling = Written | ReadBack

  function DartId(n: nat, sp: Spelling): Value { Str("u32:" + if sp == Written then PyInt.Dec(n) else PyInt.Hex(n)) }

  /** The numbering pass, which uses the spelling Written. */
  function AssignDartIds(t: Tree, id: nat, sp: Spelling): (Tree, nat)
    decreases t, 0
  {
    var (ps, id') := if IsDart(t.props) then (Put(t.props, "dart-id", DartId(id, sp)), id + 1) else (t.props, id);
    var (cs, id'') := AssignChildren(t.children, id', sp);
    (Tree(ps, cs), id'')
  }

  function AssignChildren(cs: seq<Tree>, id: nat, sp: Spelling): (seq<Tree>, nat)
    decreases cs, 0
  {
    if cs == [] then ([], id)
    else
      var (c, id') := AssignDartIds(cs[0], id, sp);
      var (r, id'') := AssignChildren(cs[1..], id', sp);
      ([c] + r, id'')
  }

  /** The property lists of a tree, parents before children. */
  function Preorder(t: Tree): seq<Props>
    decreases t, 0
  {
    [t.props] + PreorderAll(t.children)
  }

  function PreorderAll(cs: seq<Tree>): seq<Props>
    decreases cs, 0
  {
    if cs == [] then [] else Preorder(cs[0]) + PreorderAll(cs[1..])
  }

  /** The tree without its properties. */
  function Shape(t: Tree): Tree
    decreases t, 0
  {
    Tree([], Shapes(t.children))
  }

  function Shapes(cs: seq<Tree>): seq<Tree>
    decreases cs, 0
  {
    if cs == [] then [] else [Shape(cs[0])] + Shapes(cs[1..])
  }

  function Darts(nodes: seq<Props>): nat {
    if nodes == [] then 0 else Darts(nodes[..|nodes| - 1]) + if IsDart(nodes[|nodes| - 1]) then 1 else 0
  }

  /** after is before with its DARTs numbered from id in list order, and nothing else changed. */
  ghost predicate Numbered(before: seq<Props>, after: seq<Props>, id: nat, sp: Spelling) {
    && |after| == |before|
    && forall i :: 0 <= i < |before| ==>
         after[i] ==
         if IsDart(before[i]) then Put(before[i], "dart-id", DartId(id + Darts(before[..i]), sp)) else before[i]
  }

  lemma {:induction false} DartsAppend(a: seq<Props>, b: seq<Props>)
    ensures Darts(a + b) == Darts(a) + Darts(b)
    decreases |b|
  {
    hide IsDart;
    if b == [] {
      assert a + b == a;
    } else {
      var i := b[..|b| - 1];
      assert (a + b)[..|a + b| - 1] == a + i;
      DartsAppend(a, i);
    }
  }

  lemma NumberedAppend(a: seq<Props>, a': seq<Props>, b: seq<Props>, b': seq<Props>, id: nat, sp: Spelling)
    requires Numbered(a, a', id, sp) && Numbered(b, b', id + Darts(a), sp)
    ensures Numbered(a + b, a' + b', id, sp)
  {
    hide IsDart, Put, DartId, Darts;
    forall i | 0 <= i < |a + b|
      ensures id + Darts((a + b)[..i]) == if i < |a| then id + Darts(a[..i]) else id + Darts(a) + Darts(b[..i - |a|])
    {
      if i < |a| {
        assert (a + b)[..i] == a[..i];
      } else {
        assert (a + b)[..i] == a + b[..i - |a|];
        DartsAppend(a, b[..i - |a|]);
      }
    }
  }

  lemma NumberedOne(ps: Props, id: nat, sp: Spelling)
    ensures Numbered([ps], [if IsDart(ps) then Put(ps, "dart-id", DartId(id, sp)) else ps], id, sp)
    ensures Darts([ps]) == if IsDart(ps) then 1 else 0
  {
    hide IsDart, Put, DartId;
    assert [ps][..0] == [];
  }

  /** The pass numbers the DARTs in preorder, changes no other property and keeps the shape. */
  lemma {:induction false} AssignNumbers(t: Tree, id: nat, sp: Spelling)
    ensures var (t', id') := AssignDartIds(t, id, sp);
      && Numbered(Preorder(t), Preorder(t'), id, sp) && id' == id + Darts(Preorder(t)) && Shape(t') == Shape(t)
    decreases t, 0
  {
    hide IsDart, Put, DartId, Numbered, Darts;
    NumberedOne(t.props, id, sp);
    var ps' := if IsDart(t.props) then Put(t.props, "dart-id", DartId(id, sp)) else t.props;
    var id' := if IsDart(t.props) then id + 1 else id;
    AssignChildrenNumbers(t.children, id', sp);
    var cs := AssignChildren(t.children, id', sp).0;
    assert AssignDartIds(t, id, sp).0 == Tree(ps', cs);
    NumberedAppend([t.props], [ps'], PreorderAll(t.children), PreorderAll(cs), id, sp);
    DartsAppend([t.props], PreorderAll(t.children));
  }

  lemma {:induction false} AssignChildrenNumbers(cs: seq<Tree>, id: nat, sp: Spelling)
    ensures var (cs', id') := AssignChildren(cs, id, sp);
      && Numbered(PreorderAll(cs), PreorderAll(cs'), id, sp) && id' == id + Darts(PreorderAll(cs))
      && Shapes(cs') == Shapes(cs)
    decreases cs, 0
  {
    hide AssignDartIds, Preorder, Shape, IsDart;
    if cs != [] {
      AssignNumbers(cs[0], id, sp);
      var (c, id') := AssignDartIds(cs[0], id, sp);
      AssignChildrenNumbers(cs[1..], id', sp);
      var r := AssignChildren(cs[1..], id', sp).0;
      assert ([c] + r)[1..] == r;
      NumberedAppend(Preorder(cs[0]), Preorder(c), PreorderAll(cs[1..]), PreorderAll(r), id, sp);
      DartsAppend(Preorder(cs[0]), PreorderAll(cs[1..]));
    }
  }

  lemma {:induction false} DartsMonotonic(nodes: seq<Props>, i: nat, j: nat)
    requires i < j <= |nodes| && IsDart(nodes[i])
    ensures Darts(nodes[..i]) < Darts(nodes[..j])
    decreases j
  {
    hide IsDart;
    assert nodes[..j][..j - 1] == nodes[..j - 1];
    if i + 1 < j {
      DartsMonotonic(nodes, i, j - 1);
    }
  }

  /** No two DARTs get the same number, and the numbers stay below the count. */
  lemma DartIdsDistinct(nodes: seq<Props>, i: nat, j: nat)
    requires i < j < |nodes| && IsDart(nodes[i]) && IsDart(nodes[j])
    ensures Darts(nodes[..i]) != Darts(nodes[..j]) && Darts(nodes[..j]) < Darts(nodes)
  {
    hide Darts, IsDart;
    DartsMonotonic(nodes, i, j);
    DartsMonotonic(nodes, j, |nodes|);
    assert nodes[..|nodes|] == nodes;
  }

  // ---- the numbers through the codec ----

  /** Written and read back, the number of a DART is still that number. */
  predicate DartIdSurvives(n: nat) {
    var e := EncodeValue(DartId(n, Written));
    && e.Ok?
    && var d := DecodeProp("dart-id", e.value.1);
    && d.Ok? && d.value.Str? && "u32:" <= d.value.s
    && PyInt.ParseInt(d.value.s[4..]) == Some(n)
  }

  lemma DartIdBytes(n: nat)
    ensures EncodeValue(DartId(n, Written)) == if n < TWO32 then Ok((4, Le(n, 4))) else Err(StructError)
  {
    hide PyInt.Dec, PyInt.ParseInt, Le;
    PyInt.ParseDec(n);
    var s := "u32:" + PyInt.Dec(n);
    assert s[4..] == PyInt.Dec(n);
    assert Pow256(4) == TWO32;
  }

  lemma DartIdReadBack(n: nat)
    requires n < TWO32
    ensures DartIdSurvives(n) <==> !IsProbablyString(Le(n, 4))
  {
    hide PyInt.Hex, PyInt.ParseInt, Le, IsProbablyString, DecodeCString, EncodeValue, DartId;
    DartIdBytes(n);
    assert Pow256(4) == TWO32;
    LeRoundTrip(n, 4);
    PyInt.ParseHex(n);
    var p := Le(n, 4);
    if IsProbablyString(p) {
      TextTooShort(p);
      var r := DecodeCString(p);
      assert r.Ok? && |r.value| == 4 ==> r.value[4..] == "";
    } else {
      assert ("u32:" + PyInt.Hex(n))[4..] == PyInt.Hex(n);
    }
  }

  lemma TextTooShort(p: seq<byte>)
    requires |p| == 4
    ensures var r := DecodeCString(p); r.Ok? ==> |r.value| <= 4
    ensures PyInt.ParseInt("").None?
  {
  }

  /** Numbers below 0x202020 have a byte that cannot be text; 0x202020 itself spells three blanks. */
  lemma SmallIdsAreNotText(n: nat)
    requires n <= 0x202020
    ensures IsProbablyString(Le(n, 4)) <==> n == 0x202020
  {
    LeBytes(n);
    var p := Le(n, 4);
    assert p[3] == 0 && p[2] <= 0x20 && p == [p[0], p[1], p[2], 0];
    var b0: int, b1: int, b2: int := p[0], p[1], p[2];
    assert n == b0 + 256 * b1 + 65536 * b2;
    ThreeBytesOfText(p);
  }

  lemma ThreeBytesOfText(p: seq<byte>)
    requires |p| == 4 && p[3] == 0
    ensures IsProbablyString(p) <==> Printable(p[0]) && Printable(p[1]) && Printable(p[2])
  {
    var d := Until(p, 0);
    assert forall i :: 0 <= i < |d| ==> d[i] == p[i];
    if Printable(p[0]) && Printable(p[1]) && Printable(p[2]) {
      UntilUnique(p, 0, p[..3]);
    }
  }

  /** The first k numbers all survive exactly when k is at most 0x202020. */
  lemma DartIdsSurvive(k: nat)
    ensures (forall n :: 0 <= n < k ==> DartIdSurvives(n)) <==> k <= 0x202020
  {
    hide DartIdSurvives, IsProbablyString;
    forall n | 0 <= n <= 0x202020
      ensures DartIdSurvives(n) <==> n != 0x202020
    {
      DartIdReadBack(n);
      SmallIdsAreNotText(n);
    }
    assert !DartIdSurvives(0x202020);
  }

  // ---- the numbered tree through the codec ----

  /** The encoder does not tell the two spellings apart. */
  lemma SameBytes(n: nat)
    ensures EncodeProp("dart-id", DartId(n, Written)) == EncodeProp("dart-id", DartId(n, ReadBack))
  {
    hide PyInt.Dec, PyInt.Hex, PyInt.ParseInt;
    PyInt.ParseDec(n);
    PyInt.ParseHex(n);
    assert ("u32:" + PyInt.Dec(n))[4..] == PyInt.Dec(n) && ("u32:" + PyInt.Hex(n))[4..] == PyInt.Hex(n);
  }

  lemma {:induction false} PutSameBytes(ps: Props, k: string, v: Value, v': Value)
    requires EncodeProp(k, v) == EncodeProp(k, v')
    ensures EncodeProps(Put(ps, k, v)) == EncodeProps(Put(ps, k, v')) && |Put(ps, k, v)| == |Put(ps, k, v')|
  {
    hide EncodeProp;
    if ps != [] && ps[0].0 != k {
      PutSameBytes(ps[1..], k, v, v');
      assert Put(ps, k, v)[1..] == Put(ps[1..], k, v) && Put(ps, k, v')[1..] == Put(ps[1..], k, v');
    } else if ps != [] {
      assert Put(ps, k, v)[1..] == ps[1..] && Put(ps, k, v')[1..] == ps[1..];
    }
  }

  lemma {:induction false} SameEncoding(t: Tree, id: nat)
    ensures var (u, n) := AssignDartIds(t, id, Written); var (w, m) := AssignDartIds(t, id, ReadBack);
      EncodeNode(u) == EncodeNode(w) && n == m
    decreases t, 0
  {
    hide IsDart, DartId, Put, EncodeProps, Le;
    SameBytes(id);
    PutSameBytes(t.props, "dart-id", DartId(id, Written), DartId(id, ReadBack));
    SameEncodingAll(t.children, if IsDart(t.props) then id + 1 else id);
  }

  lemma {:induction false} SameEncodingAll(cs: seq<Tree>, id: nat)
    ensures var (us, n) := AssignChildren(cs, id, Written); var (ws, m) := AssignChildren(cs, id, ReadBack);
      EncodeChildren(us) == EncodeChildren(ws) && n == m && |us| == |ws| == |cs|
    decreases cs, 0
  {
    hide AssignDartIds, EncodeNode;
    if cs != [] {
      SameEncoding(cs[0], id);
      var (u, id') := AssignDartIds(cs[0], id, Written);
      var w := AssignDartIds(cs[0], id, ReadBack).0;
      SameEncodingAll(cs[1..], id');
      var us, ws := AssignChildren(cs[1..], id', Written).0, AssignChildren(cs[1..], id', ReadBack).0;
      assert ([u] + us)[1..] == us && ([w] + ws)[1..] == ws;
    }
  }

  /** A node that gets a new property can still be counted in 32 bits. */
  predicate HasRoom(ps: Props) { IsDart(ps) && Get(ps, "dart-id").None? ==> |ps| + 1 < TWO32 }

  predicate IdFits(ps: Props, n: nat) {
    IsDart(ps) ==> HasRoom(ps) && CanonicalValue("dart-id", DartId(n, ReadBack))
  }

  predicate FitsAt(nodes: seq<Props>, id: nat, i: nat)
    requires i < |nodes|
  {
    IdFits(nodes[i], id + Darts(nodes[..i]))
  }

  ghost predicate IdsFit(nodes: seq<Props>, id: nat) {
    forall i: nat :: i < |nodes| ==> FitsAt(nodes, id, i)
  }

  lemma PartsOfSum<T>(a: seq<T>, b: seq<T>, i: nat)
    requires i < |a + b|
    ensures i < |a| ==> (a + b)[..i] == a[..i] && (a + b)[i] == a[i]
    ensures i >= |a| ==> (a + b)[..i] == a + b[..i - |a|] && (a + b)[i] == b[i - |a|]
  {
  }

  lemma FitsAtAppend(a: seq<Props>, b: seq<Props>, id: nat, i: nat)
    requires i < |a + b|
    ensures FitsAt(a + b, id, i) == if i < |a| then FitsAt(a, id, i) else FitsAt(b, id + Darts(a), i - |a|)
  {
    hide *;
    PartsOfSum(a, b, i);
    FitsAtIs(a + b, id, i);
    if i < |a| {
      FitsAtIs(a, id, i);
    } else {
      DartsAppend(a, b[..i - |a|]);
      FitsAtIs(b, id + Darts(a), i - |a|);
    }
  }

  lemma FitsAtIs(nodes: seq<Props>, id: nat, i: nat)
    requires i < |nodes|
    ensures FitsAt(nodes, id, i) == IdFits(nodes[i], id + Darts(nodes[..i]))
  {
    hide IdFits, Darts;
  }

  lemma IdsFitAppend(a: seq<Props>, b: seq<Props>, id: nat)
    ensures IdsFit(a + b, id) <==> IdsFit(a, id) && IdsFit(b, id + Darts(a))
  {
    hide FitsAt, Darts;
    var m := id + Darts(a);
    forall i: nat | i < |a + b| { FitsAtAppend(a, b, id, i); }
    forall j: nat | j < |b|
      ensures FitsAt(b, m, j) == FitsAt(a + b, id, |a| + j)
    {
      FitsAtAppend(a, b, id, |a| + j);
    }
    if IdsFit(a, id) && IdsFit(b, m) {
      forall i: nat | i < |a + b|
        ensures FitsAt(a + b, id, i)
      {
        assert i >= |a| ==> FitsAt(b, m, i - |a|);
      }
    }
    if IdsFit(a + b, id) {
      forall j: nat | j < |b|
        ensures FitsAt(b, m, j)
      {
        assert FitsAt(a + b, id, |a| + j);
      }
    }
  }

  lemma IdsFitOne(ps: Props, id: nat)
    ensures IdsFit([ps], id) <==> IdFits(ps, id)
    ensures Darts([ps]) == if IsDart(ps) then 1 else 0
  {
    hide IdFits, IsDart;
    assert [ps][..0] == [];
    assert FitsAt([ps], id, 0) <==> IdFits(ps, id);
  }

  lemma {:induction false} PutGet(ps: Props, k: string, v: Value, other: string)
    ensures Get(Put(ps, k, v), other) == if other == k then Some(v) else Get(ps, other)
    ensures |Put(ps, k, v)| == if Get(ps, k).None? then |ps| + 1 else |ps|
    ensures (k, v) in Put(ps, k, v)
  {
    if ps != [] && ps[0].0 != k {
      PutGet(ps[1..], k, v, other);
      assert Put(ps, k, v)[1..] == Put(ps[1..], k, v);
    } else if ps != [] {
      assert Put(ps, k, v)[1..] == ps[1..];
    }
  }

  /** A canonical list with one more canonical property. */
  lemma PutCanonical(ps: Props, k: string, v: Value)
    requires CanonicalProps(ps) && DistinctKeys(ps) && CanonicalKey(k)
    ensures DistinctKeys(Put(ps, k, v)) && (CanonicalProps(Put(ps, k, v)) <==> CanonicalValue(k, v))
  {
    hide CanonicalKey, CanonicalValue, Put;
    Reencode.PutMembers(ps, k, v);
    PutGet(ps, k, v, k);
    var r := Put(ps, k, v);
    if CanonicalValue(k, v) {
      forall i | 0 <= i < |r|
        ensures CanonicalKey(r[i].0) && CanonicalValue(r[i].0, r[i].1)
      {
        assert r[i] in r;
      }
    } else {
      var i :| 0 <= i < |r| && r[i] == (k, v);
    }
  }

  lemma DartKeyCanonical()
    ensures CanonicalKey("dart-id")
  {
    Utf8.AsciiEncode("dart-id");
  }

  lemma {:induction false} NumberedCanonical(t: Tree, id: nat)
    requires Canonical(t) && IsDictTree(t)
    ensures var w := AssignDartIds(t, id, ReadBack).0; IsDictTree(w) && (Canonical(w) <==> IdsFit(Preorder(t), id))
    decreases t, 0
  {
    hide IsDart, DartId, Put, CanonicalProps, CanonicalKey, CanonicalValue, DistinctKeys, Darts, IdsFit;
    DartKeyCanonical();
    var v := DartId(id, ReadBack);
    PutCanonical(t.props, "dart-id", v);
    PutGet(t.props, "dart-id", v, "dart-id");
    var id' := if IsDart(t.props) then id + 1 else id;
    NumberedAllCanonical(t.children, id');
    IdsFitOne(t.props, id);
    IdsFitAppend([t.props], PreorderAll(t.children), id);
  }

  lemma {:induction false} NumberedAllCanonical(cs: seq<Tree>, id: nat)
    requires forall c :: c in cs ==> Canonical(c) && IsDictTree(c)
    ensures var ws := AssignChildren(cs, id, ReadBack).0;
      && |ws| == |cs| && (forall w :: w in ws ==> IsDictTree(w))
      && ((forall w :: w in ws ==> Canonical(w)) <==> IdsFit(PreorderAll(cs), id))
    decreases cs, 0
  {
    hide AssignDartIds, Preorder, IsDart, Darts, IdFits, Canonical, IsDictTree;
    if cs != [] {
      NumberedCanonical(cs[0], id);
      AssignNumbers(cs[0], id, ReadBack);
      var (w, id') := AssignDartIds(cs[0], id, ReadBack);
      NumberedAllCanonical(cs[1..], id');
      var ws := AssignChildren(cs[1..], id', ReadBack).0;
      IdsFitAppend(Preorder(cs[0]), PreorderAll(cs[1..]), id);
      MembersOf(w, ws);
    }
  }

  lemma MembersOf<T>(w: T, ws: seq<T>)
    ensures forall x :: x in [w] + ws <==> x == w || x in ws
  {
  }

  lemma IdCanonical(n: nat)
    requires n <= 0x202020
    ensures CanonicalValue("dart-id", DartId(n, ReadBack)) <==> n != 0x202020
  {
    hide PyInt.Hex, PyInt.ParseInt, Le, IsProbablyString;
    SmallIdsAreNotText(n);
    PyInt.ParseHex(n);
    assert ("u32:" + PyInt.Hex(n))[4..] == PyInt.Hex(n);
    assert Pow256(4) == TWO32;
  }

  lemma {:induction false} NthDart(nodes: seq<Props>, n: nat) returns (i: nat)
    requires n < Darts(nodes)
    ensures i < |nodes| && IsDart(nodes[i]) && Darts(nodes[..i]) == n
    decreases |nodes|
  {
    hide IsDart;
    var l := |nodes| - 1;
    if n < Darts(nodes[..l]) {
      i := NthDart(nodes[..l], n);
      assert nodes[..l][..i] == nodes[..i];
    } else {
      i := l;
    }
  }

  lemma AllIdsFit(nodes: seq<Props>)
    ensures IdsFit(nodes, 0) <==> Darts(nodes) <= 0x202020 && forall i :: 0 <= i < |nodes| ==> HasRoom(nodes[i])
  {
    hide Darts, IsDart, CanonicalValue, DartId;
    IdCanonical(0x202020);
    if Darts(nodes) > 0x202020 {
      var i := NthDart(nodes, 0x202020);
      assert !FitsAt(nodes, 0, i);
    } else {
      assert nodes[..|nodes|] == nodes;
      forall i: nat | i < |nodes|
        ensures FitsAt(nodes, 0, i) <==> HasRoom(nodes[i])
      {
        if IsDart(nodes[i]) {
          DartsMonotonic(nodes, i, |nodes|);
          IdCanonical(Darts(nodes[..i]));
        }
      }
    }
  }

  /** Encoded and decoded, with any trailing bytes, a numbered canonical tree comes back
      numbered, each id in the decoder's spelling, exactly when it has at most 0x202020 DARTs
      and no DART without an id already has 2^32 - 1 properties. */
  lemma NumberedTreeReturns(t: Tree, rest: seq<byte>)
    requires Canonical(t) && IsDictTree(t)
    ensures var r := EncodeNode(AssignDartIds(t, 0, Written).0); var nodes := Preorder(t);
      (r.Ok? && DecodeNode(r.value + rest) == Ok((AssignDartIds(t, 0, ReadBack).0, |r.value|)))
      <==> Darts(nodes) <= 0x202020 && forall i :: 0 <= i < |nodes| ==> HasRoom(nodes[i])
  {
    hide *;
    SameEncoding(t, 0);
    NumberedCanonical(t, 0);
    AllIdsFit(Preorder(t));
    RoundTrip(AssignDartIds(t, 0, ReadBack).0, rest);
  }

  /** The number a property list carries. */
  function IdOf(ps: Props): Option<int> {
    match Get(ps, "dart-id")
    case Some(Str(s)) => if "u32:" <= s then PyInt.ParseInt(s[4..]) else None
    case _ => None
  }

  /** after carries the ids 0, 1, .. on the DARTs of before, in order, and is otherwise before. */
  ghost predicate CarriesIds(before: seq<Props>, after: seq<Props>) {
    && |after| == |before|
    && forall i :: 0 <= i < |before| ==>
         if IsDart(before[i]) then IsDart(after[i]) && IdOf(after[i]) == Some(Darts(before[..i]))
         else after[i] == before[i]
  }

  lemma NumberedCarries(before: seq<Props>, after: seq<Props>, sp: Spelling)
    requires Numbered(before, after, 0, sp)
    ensures CarriesIds(before, after)
  {
    hide Darts, Put, Get, PyInt.Dec, PyInt.Hex, PyInt.ParseInt;
    forall i | 0 <= i < |before| && IsDart(before[i])
      ensures IsDart(after[i]) && IdOf(after[i]) == Some(Darts(before[..i]))
    {
      var n := Darts(before[..i]);
      PutGet(before[i], "dart-id", DartId(n, sp), "dart-id");
      PutGet(before[i], "dart-id", DartId(n, sp), "compatible");
      PyInt.ParseDec(n);
      PyInt.ParseHex(n);
      assert ("u32:" + PyInt.Dec(n))[4..] == PyInt.Dec(n) && ("u32:" + PyInt.Hex(n))[4..] == PyInt.Hex(n);
    }
  }

  /** So after the trip every DART of the tree carries its number, and no two carry the same one. */
  lemma IdsReturn(t: Tree, rest: seq<byte>)
    requires Canonical(t) && IsDictTree(t)
    requires Darts(Preorder(t)) <= 0x202020 && forall i :: 0 <= i < |Preorder(t)| ==> HasRoom(Preorder(t)[i])
    ensures var r := EncodeNode(AssignDartIds(t, 0, Written).0);
      && r.Ok? && DecodeNode(r.value + rest).Ok?
      && var d := DecodeNode(r.value + rest).value.0; var nodes, back := Preorder(t), Preorder(d);
      && Shape(d) == Shape(t) && CarriesIds(nodes, back)
      && forall i, j :: 0 <= i < j < |nodes| && IsDart(nodes[i]) && IsDart(nodes[j]) ==> IdOf(back[i]) != IdOf(back[j])
  {
    hide *;
    NumberedTreeReturns(t, rest);
    AssignNumbers(t, 0, ReadBack);
    var nodes, back := Preorder(t), Preorder(AssignDartIds(t, 0, ReadBack).0);
    NumberedCarries(nodes, back, ReadBack);
    CarriedApart(nodes, back);
  }

  lemma CarriedApart(nodes: seq<Props>, back: seq<Props>)
    requires CarriesIds(nodes, back)
    ensures |back| == |nodes|
    ensures forall i, j :: 0 <= i < j < |nodes| && IsDart(nodes[i]) && IsDart(nodes[j]) ==>
      IdOf(back[i]) != IdOf(back[j])
  {
    hide Darts, IsDart, IdOf;
    forall i, j | 0 <= i < j < |nodes| && IsDart(nodes[i]) && IsDart(nodes[j])
      ensures IdOf(back[i]) != IdOf(back[j])
    {
      DartIdsDistinct(nodes, i, j);
    }
  }

  // ---- muting ----

  /** _node_name; lossy stands for b.decode(errors='replace').strip of a name held as bytes. */
  function NodeName(ps: Props, lossy: seq<byte> -> string): string {
    match Get(ps, "name")
    case None => "None"
    case Some(Str(s)) => s
    case Some(Bytes(b)) => lossy(b)
  }

  predicate EndsWith(s: string, t: string) { |t| <= |s| && s[|s| - |t|..] == t }

  predicate Kept(path: string, keep: set<string>) {
    exists k :: k in keep && (path == k || EndsWith(path, "/" + k))
  }

  predicate Supported(compat: Value, drivers: seq<seq<byte>>) {
    exists i :: 0 <= i < |drivers| && Contains(ValueBytes(compat), drivers[i])
  }

  function ChildPath(path: string, name: string): string {
    if path != "" then path + "/" + name else name
  }

  function Mute(ps: Props, path: string, keep: set<string>, drivers: seq<seq<byte>>): Props {
    var c := Get(ps, "compatible");
    if c.Some? && !Kept(path, keep) && !Supported(c.value, drivers) then Remove(ps, "compatible") else ps
  }

  function DelCompat(t: Tree, path: string, keep: set<string>, drivers: seq<seq<byte>>,
                     lossy: seq<byte> -> string): Tree
    decreases t, 0
  {
    var cs := DelCompatAll(t.children, path, keep, drivers, lossy);
    Tree(Mute(t.props, path, keep, drivers), cs)
  }

  function DelCompatAll(cs: seq<Tree>, path: string, keep: set<string>, drivers: seq<seq<byte>>,
                        lossy: seq<byte> -> string): seq<Tree>
    decreases cs, 0
  {
    if cs == [] then []
    else
      [DelCompat(cs[0], ChildPath(path, NodeName(cs[0].props, lossy)), keep, drivers, lossy)]
      + DelCompatAll(cs[1..], path, keep, drivers, lossy)
  }

  lemma {:induction false} RemoveOther(ps: Props, k: string, other: string)
    ensures Get(Remove(ps, k), other) == if other == k then None else Get(ps, other)
  {
    if ps != [] {
      RemoveOther(ps[1..], k, other);
      assert Remove(ps, k) != [] && ps[0].0 != k ==> Remove(ps, k)[1..] == Remove(ps[1..], k);
    }
  }

  /** A second pass finds nothing more to mute: no muted node moved to another path. */
  lemma {:induction false} DelCompatIdempotent(t: Tree, path: string, keep: set<string>, drivers: seq<seq<byte>>,
                                               lossy: seq<byte> -> string)
    ensures var once := DelCompat(t, path, keep, drivers, lossy);
      DelCompat(once, path, keep, drivers, lossy) == once && NodeName(once.props, lossy) == NodeName(t.props, lossy)
    decreases t, 0
  {
    hide Kept, Supported;
    RemoveOther(t.props, "compatible", "compatible");
    RemoveOther(t.props, "compatible", "name");
    DelCompatAllIdempotent(t.children, path, keep, drivers, lossy);
  }

  lemma {:induction false} DelCompatAllIdempotent(cs: seq<Tree>, path: string, keep: set<string>,
                                                  drivers: seq<seq<byte>>, lossy: seq<byte> -> string)
    ensures var once := DelCompatAll(cs, path, keep, drivers, lossy);
      DelCompatAll(once, path, keep, drivers, lossy) == once
    decreases cs, 0
  {
    hide Kept, Supported, DelCompat, NodeName;
    if cs != [] {
      var p := ChildPath(path, NodeName(cs[0].props, lossy));
      DelCompatIdempotent(cs[0], p, keep, drivers, lossy);
      DelCompatAllIdempotent(cs[1..], path, keep, drivers, lossy);
      var c, r := DelCompat(cs[0], p, keep, drivers, lossy), DelCompatAll(cs[1..], path, keep, drivers, lossy);
      assert ([c] + r)[1..] == r;
    }
  }

  /** The nodes of a tree with their paths, parents first. */
  function Paths(t: Tree, path: string, lossy: seq<byte> -> string): seq<(string, Props)>
    decreases t, 0
  {
    [(path, t.props)] + PathsAll(t.children, path, lossy)
  }

  function PathsAll(cs: seq<Tree>, path: string, lossy: seq<byte> -> string): seq<(string, Props)>
    decreases cs, 0
  {
    if cs == [] then []
    else Paths(cs[0], ChildPath(path, NodeName(cs[0].props, lossy)), lossy) + PathsAll(cs[1..], path, lossy)
  }

  /** Every node keeps its path and its list, in order, except that it loses `compatible` when neither its path nor a
      driver protects it. */
  ghost predicate Muted(before: seq<(string, Props)>, after: seq<(string, Props)>, keep: set<string>,
                        drivers: seq<seq<byte>>) {
    && |after| == |before|
    && forall i :: 0 <= i < |before| ==>
         && after[i].0 == before[i].0
         && (after[i].1 == before[i].1 || after[i].1 == Remove(before[i].1, "compatible"))
         && (forall k :: k != "compatible" ==> Get(after[i].1, k) == Get(before[i].1, k))
         && Get(after[i].1, "compatible") ==
            (var c := Get(before[i].1, "compatible");
             if c.Some? && !Kept(before[i].0, keep) && !Supported(c.value, drivers) then None else c)
  }

  lemma MutedAppend(a: seq<(string, Props)>, a': seq<(string, Props)>,
                    b: seq<(string, Props)>, b': seq<(string, Props)>,
                    keep: set<string>, drivers: seq<seq<byte>>)
    requires Muted(a, a', keep, drivers) && Muted(b, b', keep, drivers)
    ensures Muted(a + b, a' + b', keep, drivers)
  {
    hide Kept, Supported, Get, Remove;
  }

  lemma {:induction false} DelCompatMutes(t: Tree, path: string, keep: set<string>, drivers: seq<seq<byte>>,
                                          lossy: seq<byte> -> string)
    ensures Muted(Paths(t, path, lossy), Paths(DelCompat(t, path, keep, drivers, lossy), path, lossy), keep, drivers)
    ensures Shape(DelCompat(t, path, keep, drivers, lossy)) == Shape(t)
    decreases t, 0
  {
    DelCompatAllMutes(t.children, path, keep, drivers, lossy);
    MuteOne(t.props, path, keep, drivers);
    MutedAppend([(path, t.props)], [(path, Mute(t.props, path, keep, drivers))], PathsAll(t.children, path, lossy),
                PathsAll(DelCompatAll(t.children, path, keep, drivers, lossy), path, lossy), keep, drivers);
  }

  lemma MuteOne(ps: Props, path: string, keep: set<string>, drivers: seq<seq<byte>>)
    ensures Muted([(path, ps)], [(path, Mute(ps, path, keep, drivers))], keep, drivers)
  {
    hide Kept, Supported;
    forall k { RemoveOther(ps, "compatible", k); }
  }

  lemma {:induction false} DelCompatAllMutes(cs: seq<Tree>, path: string, keep: set<string>, drivers: seq<seq<byte>>,
                                             lossy: seq<byte> -> string)
    ensures Muted(PathsAll(cs, path, lossy), PathsAll(DelCompatAll(cs, path, keep, drivers, lossy), path, lossy),
                  keep, drivers)
    ensures Shapes(DelCompatAll(cs, path, keep, drivers, lossy)) == Shapes(cs)
    decreases cs, 0
  {
    hide Muted, DelCompat, Paths, NodeName, Shape;
    if cs == [] {
      NothingMuted(keep, drivers);
    } else {
      var p := ChildPath(path, NodeName(cs[0].props, lossy));
      DelCompatMutes(cs[0], p, keep, drivers, lossy);
      DelCompatIdempotent(cs[0], p, keep, drivers, lossy);
      DelCompatAllMutes(cs[1..], path, keep, drivers, lossy);
      var c, r := DelCompat(cs[0], p, keep, drivers, lossy), DelCompatAll(cs[1..], path, keep, drivers, lossy);
      assert ([c] + r)[1..] == r;
      MutedAppend(Paths(cs[0], p, lossy), Paths(c, p, lossy), PathsAll(cs[1..], path, lossy),
                  PathsAll(r, path, lossy), keep, drivers);
    }
  }

  lemma NothingMuted(keep: set<string>, drivers: seq<seq<byte>>)
    ensures Muted([], [], keep, drivers)
  {
  }

  // ---- in plain terms ----

  /** The value holds the ASCII text t. */
  ghost predicate Mentions(v: Value, t: string) {
    match v
    case Str(s) => exists i: nat :: OccursAt(s, t, i)
    case Bytes(b) => exists i: nat :: OccursAt(b, Utf8.Encode(t), i)
  }

  lemma MentionsExactly(v: Value, t: string)
    requires Utf8.Ascii(t) && t != ""
    ensures Contains(ValueBytes(v), Utf8.Encode(t)) <==> Mentions(v, t)
  {
    match v
    case Str(s) =>
      Utf8.ContainsAscii(s, t);
      ContainsExactly(s, t);
    case Bytes(b) =>
      ContainsExactly(b, Utf8.Encode(t));
  }

  /** A DART is a node whose `compatible`, text or list of texts, has `dart,` in it. */
  lemma DartExactly(ps: Props)
    ensures IsDart(ps) <==> Get(ps, "compatible").Some? && Mentions(Get(ps, "compatible").value, "dart,")
  {
    hide Get, Contains, OccursAt;
    DartBytes();
    if Get(ps, "compatible").Some? {
      MentionsExactly(Get(ps, "compatible").value, "dart,");
    }
  }

  lemma DartBytes()
    ensures DART == Utf8.Encode("dart,") && Utf8.Ascii("dart,")
  {
    Utf8.AsciiEncode("dart,");
  }

  /** Get finds the entry with the key. */
  lemma {:induction false} GetExactly(ps: Props, k: string)
    ensures Get(ps, k) == None <==> forall i :: 0 <= i < |ps| ==> ps[i].0 != k
    ensures Get(ps, k).Some? ==> (k, Get(ps, k).value) in ps
  {
    if ps != [] && ps[0].0 != k {
      GetExactly(ps[1..], k);
      assert forall i :: 1 <= i < |ps| ==> ps[i] == ps[1..][i - 1];
    }
  }

  /** A driver is supported when one of the known names occurs in its bytes. */
  lemma SupportedExactly(v: Value, drivers: seq<seq<byte>>)
    ensures Supported(v, drivers) <==>
      exists k: nat, i: nat :: k < |drivers| && OccursAt(ValueBytes(v), drivers[k], i)
  {
    hide OccursAt, Contains;
    forall k | 0 <= k < |drivers|
      ensures Contains(ValueBytes(v), drivers[k]) <==> exists i: nat :: OccursAt(ValueBytes(v), drivers[k], i)
    {
      ContainsExactly(ValueBytes(v), drivers[k]);
    }
  }

  // ---- where a node is ----

  /** A node is called what its `name` says; without one it is called None. */
  lemma NodeNamed(ps: Props, lossy: seq<byte> -> string, s: string, b: seq<byte>)
    ensures Get(ps, "name") == Some(Str(s)) ==> NodeName(ps, lossy) == s
    ensures Get(ps, "name") == Some(Bytes(b)) ==> NodeName(ps, lossy) == lossy(b)
    ensures Get(ps, "name") == None ==> NodeName(ps, lossy) == "None"
  {
  }

  /** The names from the first that is not empty on. */
  function FromFirst(names: seq<string>): (r: seq<string>)
    ensures r != [] ==> r[0] != ""
  {
    if names == [] then [] else if names[0] == "" then FromFirst(names[1..]) else names
  }

  /** The names with a slash between each two. */
  function Slashed(names: seq<string>): string {
    if names == [] then ""
    else if |names| == 1 then names[0]
    else Slashed(names[..|names| - 1]) + "/" + names[|names| - 1]
  }

  /** Every node with the names on the way down to it, its own last; the root has none. */
  function Lineages(t: Tree, names: seq<string>, lossy: seq<byte> -> string): seq<(seq<string>, Props)>
    decreases t, 0
  {
    [(names, t.props)] + LineagesAll(t.children, names, lossy)
  }

  function LineagesAll(cs: seq<Tree>, names: seq<string>, lossy: seq<byte> -> string): seq<(seq<string>, Props)>
    decreases cs, 0
  {
    if cs == [] then []
    else Lineages(cs[0], names + [NodeName(cs[0].props, lossy)], lossy) + LineagesAll(cs[1..], names, lossy)
  }

  function PathOf(names: seq<string>): string { Slashed(FromFirst(names)) }

  lemma {:induction false} FromFirstMore(names: seq<string>, name: string)
    ensures FromFirst(names + [name]) ==
      if FromFirst(names) == [] then (if name == "" then [] else [name]) else FromFirst(names) + [name]
  {
    if names == [] {
      assert names + [name] == [name] && [name][1..] == [];
    } else {
      assert (names + [name])[1..] == names[1..] + [name];
      FromFirstMore(names[1..], name);
    }
  }

  lemma {:induction false} SlashedNotEmpty(names: seq<string>)
    requires names != [] && names[0] != ""
    ensures Slashed(names) != ""
  {
  }

  /** One level further down. */
  lemma PathOfChild(names: seq<string>, name: string)
    ensures ChildPath(PathOf(names), name) == PathOf(names + [name])
  {
    FromFirstMore(names, name);
    var f := FromFirst(names);
    if f != [] {
      SlashedNotEmpty(f);
      assert (f + [name])[..|f|] == f;
    }
  }

  /** The path of a node is the names of its ancestors below the root, and its own, joined by slashes. */
  lemma {:induction false} PathsAreNames(t: Tree, names: seq<string>, lossy: seq<byte> -> string)
    ensures var ps, ls := Paths(t, PathOf(names), lossy), Lineages(t, names, lossy);
      |ps| == |ls| && forall i :: 0 <= i < |ps| ==> ps[i] == (PathOf(ls[i].0), ls[i].1)
    decreases t, 0
  {
    PathsAllAreNames(t.children, names, lossy);
  }

  lemma {:induction false} PathsAllAreNames(cs: seq<Tree>, names: seq<string>, lossy: seq<byte> -> string)
    ensures var ps, ls := PathsAll(cs, PathOf(names), lossy), LineagesAll(cs, names, lossy);
      |ps| == |ls| && forall i :: 0 <= i < |ps| ==> ps[i] == (PathOf(ls[i].0), ls[i].1)
    decreases cs, 0
  {
    hide Paths, Lineages, NodeName, PathOf;
    if cs != [] {
      var name := NodeName(cs[0].props, lossy);
      PathOfChild(names, name);
      PathsAreNames(cs[0], names + [name], lossy);
      PathsAllAreNames(cs[1..], names, lossy);
    }
  }

  lemma {:induction false} RemoveAbsent(ps: Props, k: string)
    requires Get(ps, k) == None
    ensures Remove(ps, k) == ps
  {
    if ps != [] {
      RemoveAbsent(ps[1..], k);
    }
  }

  /** The path is one that is to be kept, or ends in a slash and one. */
  ghost predicate Listed(path: string, keep: set<string>) {
    path in keep || exists above: string, k :: k in keep && path == above + "/" + k
  }

  lemma KeptExactly(path: string, keep: set<string>)
    ensures Kept(path, keep) <==> Listed(path, keep)
  {
    hide EndsWith;
    if Kept(path, keep) {
      var k :| k in keep && (path == k || EndsWith(path, "/" + k));
      if path != k {
        var above := Above(path, k);
      }
    }
    if Listed(path, keep) && path !in keep {
      var above: string, k :| k in keep && path == above + "/" + k;
      EndsBelow(above, k);
    }
  }

  lemma Above(path: string, k: string) returns (above: string)
    requires EndsWith(path, "/" + k)
    ensures path == above + "/" + k
  {
    above := path[..|path| - |k| - 1];
    assert path == above + ("/" + k);
  }

  lemma EndsBelow(above: string, k: string)
    ensures EndsWith(above + "/" + k, "/" + k)
  {
    assert above + "/" + k == above + ("/" + k);
  }

  /** The muting pass over the whole tree: node by node, a listed path keeps the whole list, as does a supported driver;
      any other node loses `compatible`. */
  lemma MutingByPath(t: Tree, keep: set<string>, drivers: seq<seq<byte>>, lossy: seq<byte> -> string)
    ensures var before := Lineages(t, [], lossy);
      var after := Lineages(DelCompat(t, "", keep, drivers, lossy), [], lossy);
      && |after| == |before|
      && forall i :: 0 <= i < |before| ==>
           var c := Get(before[i].1, "compatible");
           && PathOf(after[i].0) == PathOf(before[i].0)
           && after[i].1 ==
              if c.None? || Listed(PathOf(before[i].0), keep) || Supported(c.value, drivers) then before[i].1
              else Remove(before[i].1, "compatible")
  {
    hide Kept, Supported, Listed, Get, Remove, PathOf, DelCompat, Paths, Lineages;
    var d := DelCompat(t, "", keep, drivers, lossy);
    DelCompatMutes(t, "", keep, drivers, lossy);
    EmptyPath();
    PathsAreNames(t, [], lossy);
    PathsAreNames(d, [], lossy);
    var before, after := Lineages(t, [], lossy), Lineages(d, [], lossy);
    forall i | 0 <= i < |before|
      ensures var c := Get(before[i].1, "compatible");
           && PathOf(after[i].0) == PathOf(before[i].0)
           && after[i].1 ==
              if c.None? || Listed(PathOf(before[i].0), keep) || Supported(c.value, drivers) then before[i].1
              else Remove(before[i].1, "compatible")
    {
      KeptExactly(PathOf(before[i].0), keep);
      RemoveOther(before[i].1, "compatible", "compatible");
      if Get(before[i].1, "compatible").None? {
        RemoveAbsent(before[i].1, "compatible");
      }
    }
  }

  lemma EmptyPath()
    ensures PathOf([]) == ""
  {
  }
}
