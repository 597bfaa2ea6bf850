/** The per-thread registry laid out by experiments/cl4-perthread-registry/scripts/gen_perthread_seed.py. */
module RegistrySeed {
  import opened Wrappers
  import opened Words
  import opened A64

  const RX_PHYS := 0x100_0688_4000
  const BASE := 0xc000_0000
  const CTX_OFF := 0x200
  const REGOBJ_OFF := 0x400
  const NODES_OFF := 0x420
  const NODE_SZ := 0x20

  function Phys(vm: int): int { RX_PHYS + (vm - BASE) }

  /** (key1, key2, value's virtual address or None) */
  datatype Node = Node(key1: int, key2: int, value: Option<int>)

  /** A store the loader must do: offset in the page, width in bytes, value as converted to that width. */
  datatype Store = Store(off: nat, size: nat, value: nat)

  function Mod(v: int, m: nat): (r: nat)
    requires m > 0
    ensures r < m
  {
    v % m
  }

  function Value(n: Node): nat { if n.value.Some? then Mod(Phys(n.value.value), TWO64) else 0 }

  function NodeAddr(page: nat, i: nat): nat { page + NODES_OFF + i * NODE_SZ }

  /** The link of node i out of n. */
  function NextAddr(page: nat, i: nat, n: nat): nat { if i + 1 < n then NodeAddr(page, i + 1) else 0 }

  function HeadStores(page: nat): (r: seq<Store>)
    ensures |r| == 2
  {
    [Store(CTX_OFF + 0x10, 8, Mod(page + REGOBJ_OFF, TWO64)), Store(REGOBJ_OFF, 8, Mod(page + NODES_OFF, TWO64))]
  }

  function NodeStores(page: nat, nodes: seq<Node>, i: nat): (r: seq<Store>)
    requires i < |nodes|
    ensures |r| == 4
  {
    var o := NODES_OFF + i * NODE_SZ;
    [Store(o, 8, Mod(NextAddr(page, i, |nodes|), TWO64)), Store(o + 8, 4, Mod(nodes[i].key1, TWO32)),
     Store(o + 0x10, 4, Mod(nodes[i].key2, TWO32)), Store(o + 0x18, 8, Value(nodes[i]))]
  }

  function StoresUpTo(page: nat, nodes: seq<Node>, n: nat): (r: seq<Store>)
    requires n <= |nodes|
    ensures |r| == 2 + 4 * n
  {
    if n == 0 then HeadStores(page) else StoresUpTo(page, nodes, n - 1) + NodeStores(page, nodes, n - 1)
  }

  datatype Laid = Laid(node: nat, next: nat, key1: int, key2: int, value: nat)

  function LaidNode(page: nat, nodes: seq<Node>, k: nat): Laid
    requires k < |nodes|
  {
    Laid(NodeAddr(page, k), NextAddr(page, k, |nodes|), nodes[k].key1, nodes[k].key2, Value(nodes[k]))
  }

  /** The script: lay out the nodes, then emit the stores. */
  method Build(page: nat, nodes: seq<Node>) returns (out: seq<Store>)
    ensures out == StoresUpTo(page, nodes, |nodes|)
  {
    var laid: seq<Laid> := [];
    for i := 0 to |nodes|
      invariant |laid| == i
      invariant forall k :: 0 <= k < i ==> laid[k] == LaidNode(page, nodes, k)
    {
      var node := page + NODES_OFF + i * NODE_SZ;
      var nxt := if i + 1 < |nodes| then page + NODES_OFF + (i + 1) * NODE_SZ else 0;
      laid := laid + [Laid(node, nxt, nodes[i].key1, nodes[i].key2, Value(nodes[i]))];
    }
    out := HeadStores(page);
    for i := 0 to |laid|
      invariant out == StoresUpTo(page, nodes, i)
    {
      var o := NODES_OFF + i * NODE_SZ;
      var l := laid[i];
      out := out + [Store(o, 8, Mod(l.next, TWO64)), Store(o + 8, 4, Mod(l.key1, TWO32)),
                    Store(o + 0x10, 4, Mod(l.key2, TWO32)), Store(o + 0x18, 8, l.value)];
    }
  }

  // ---- the stores do not overlap ----

  ghost predicate Apart(a: Store, b: Store) { a.off + a.size <= b.off || b.off + b.size <= a.off }

  lemma StoreSpans(page: nat, nodes: seq<Node>, i: nat)
    requires i < |nodes|
    ensures forall k :: 0 <= k < 4 ==>
      var s := NodeStores(page, nodes, i)[k];
      NODES_OFF + i * NODE_SZ + 8 * k == s.off && 0 < s.size <= 8
  {
  }

  lemma {:induction false} StoresBelow(page: nat, nodes: seq<Node>, n: nat)
    requires n <= |nodes|
    ensures forall k :: 0 <= k < 2 + 4 * n ==>
      StoresUpTo(page, nodes, n)[k].off + StoresUpTo(page, nodes, n)[k].size <= NODES_OFF + n * NODE_SZ
  {
    hide NodeStores;
    if n > 0 {
      StoresBelow(page, nodes, n - 1);
      StoreSpans(page, nodes, n - 1);
    }
  }

  /** No two of the emitted stores touch the same byte. */
  lemma {:induction false} StoresApart(page: nat, nodes: seq<Node>, n: nat)
    requires n <= |nodes|
    ensures forall j, k :: 0 <= j < k < 2 + 4 * n ==>
      Apart(StoresUpTo(page, nodes, n)[j], StoresUpTo(page, nodes, n)[k])
  {
    hide NodeStores;
    if n > 0 {
      StoresApart(page, nodes, n - 1);
      StoresBelow(page, nodes, n - 1);
      StoreSpans(page, nodes, n - 1);
    }
  }

  // ---- memory after the stores ----

  function Perform(mem: int -> byte, page: nat, s: Store): int -> byte {
    a => if page + s.off <= a < page + s.off + s.size then Le(s.value, s.size)[a - (page + s.off)] else mem(a)
  }

  function PerformAll(mem: int -> byte, page: nat, ss: seq<Store>): int -> byte {
    if ss == [] then mem else Perform(PerformAll(mem, page, ss[..|ss| - 1]), page, ss[|ss| - 1])
  }

  ghost predicate Holds(mem: int -> byte, page: nat, s: Store) {
    ReadBytes(mem, page + s.off, s.size) == Le(s.value, s.size)
  }

  lemma PerformHolds(mem: int -> byte, page: nat, s: Store)
    ensures Holds(Perform(mem, page, s), page, s)
  {
  }

  lemma PerformApart(mem: int -> byte, page: nat, s: Store, t: Store)
    requires Holds(mem, page, t) && Apart(s, t)
    ensures Holds(Perform(mem, page, s), page, t)
  {
    assert ReadBytes(Perform(mem, page, s), page + t.off, t.size) == ReadBytes(mem, page + t.off, t.size);
  }

  /** After stores that do not overlap, each of them can be read back. */
  lemma {:induction false} AllHold(mem: int -> byte, page: nat, ss: seq<Store>)
    requires forall j, k :: 0 <= j < k < |ss| ==> Apart(ss[j], ss[k])
    ensures forall k :: 0 <= k < |ss| ==> Holds(PerformAll(mem, page, ss), page, ss[k])
    decreases |ss|
  {
    hide Holds, Apart, Perform;
    if ss != [] {
      var init, s := ss[..|ss| - 1], ss[|ss| - 1];
      AllHold(mem, page, init);
      var m := PerformAll(mem, page, init);
      PerformHolds(m, page, s);
      forall k | 0 <= k < |ss| - 1
        ensures Holds(Perform(m, page, s), page, ss[k])
      {
        assert init[k] == ss[k];
        assert Apart(s, ss[k]) by { ApartSymmetric(ss[k], s); }
        PerformApart(m, page, s, ss[k]);
      }
    }
  }

  lemma ApartSymmetric(a: Store, b: Store)
    requires Apart(a, b)
    ensures Apart(b, a)
  {
  }

  /** The page after the loader's stores. */
  function Seeded(mem: int -> byte, page: nat, nodes: seq<Node>): int -> byte {
    PerformAll(mem, page, StoresUpTo(page, nodes, |nodes|))
  }

  lemma Read64(mem: int -> byte, page: nat, s: Store)
    requires Holds(mem, page, s) && s.size == 8 && s.value < TWO64
    ensures Word64(mem, page + s.off) == s.value
  {
    hide Word32;
    var lo, hi := s.value % TWO32, s.value / TWO32;
    LeSplit(s.value);
    HalvesOf(mem, page + s.off);
    WordOfBytes(mem, page + s.off, lo);
    WordOfBytes(mem, page + s.off + 4, hi);
  }

  lemma HalvesOf(mem: int -> byte, a: int)
    ensures ReadBytes(mem, a, 8)[..4] == ReadBytes(mem, a, 4) && ReadBytes(mem, a, 8)[4..] == ReadBytes(mem, a + 4, 4)
  {
    var b, r, t := ReadBytes(mem, a, 8), ReadBytes(mem, a + 4, 4), ReadBytes(mem, a, 8)[4..];
    forall i | 0 <= i < 4
      ensures r[i] == t[i]
    {
      assert b[4 + i] == mem(a + (4 + i));
    }
  }

  lemma LeSplit(v: nat)
    requires v < TWO64
    ensures Le(v, 8) == Le(v % TWO32, 4) + Le(v / TWO32, 4)
  {
    var lo, hi := v % TWO32, v / TWO32;
    LeBytes(lo);
    var v1 := v / 256;
    var v2 := v1 / 256;
    var v3 := v2 / 256;
    assert v1 == lo / 256 + 0x100_0000 * hi;
    assert v2 == lo / 256 / 256 + 0x1_0000 * hi;
    assert v3 == lo / 256 / 256 / 256 + 0x100 * hi;
    assert v3 / 256 == hi;
    assert Le(v, 8) == [v % 256] + Le(v1, 7) && Le(v1, 7) == [v1 % 256] + Le(v2, 6);
    assert Le(v2, 6) == [v2 % 256] + Le(v3, 5) && Le(v3, 5) == [v3 % 256] + Le(hi, 4);
  }

  lemma Read32(mem: int -> byte, page: nat, s: Store)
    requires Holds(mem, page, s) && s.size == 4 && s.value < TWO32
    ensures Word32(mem, page + s.off) == s.value
  {
    WordOfBytes(mem, page + s.off, s.value);
  }

  /** What can be read in a seeded page. */
  lemma SeededReads(mem: int -> byte, page: nat, nodes: seq<Node>)
    requires page + NODES_OFF + |nodes| * NODE_SZ <= TWO64 && page + 0x1000 <= TWO64
    ensures var m := Seeded(mem, page, nodes);
      && Word64(m, page + CTX_OFF + 0x10) == page + REGOBJ_OFF && Word64(m, page + REGOBJ_OFF) == page + NODES_OFF
      && forall i :: 0 <= i < |nodes| ==>
           var a := NodeAddr(page, i);
           && Word64(m, a) == NextAddr(page, i, |nodes|)
           && Word32(m, a + 8) == Mod(nodes[i].key1, TWO32) && Word32(m, a + 0x10) == Mod(nodes[i].key2, TWO32)
           && Word64(m, a + 0x18) == Value(nodes[i])
  {
    hide Word64, Word32, Holds, NodeStores, Value, Mod, Seeded;
    var m := Seeded(mem, page, nodes);
    SeededHolds(mem, page, nodes);
    HeadReads(m, page);
    forall i | 0 <= i < |nodes|
      ensures var a := NodeAddr(page, i);
           && Word64(m, a) == NextAddr(page, i, |nodes|)
           && Word32(m, a + 8) == Mod(nodes[i].key1, TWO32) && Word32(m, a + 0x10) == Mod(nodes[i].key2, TWO32)
           && Word64(m, a + 0x18) == Value(nodes[i])
    {
      NodeReads(m, page, nodes, i);
    }
  }

  lemma {:induction false} StoresInclude(page: nat, nodes: seq<Node>, n: nat)
    requires n <= |nodes|
    ensures HeadStores(page) <= StoresUpTo(page, nodes, n)
    ensures forall i, k :: 0 <= i < n && 0 <= k < 4 ==>
      StoresUpTo(page, nodes, n)[2 + 4 * i + k] == NodeStores(page, nodes, i)[k]
  {
    hide NodeStores, HeadStores;
    if n > 0 {
      StoresInclude(page, nodes, n - 1);
    }
  }

  lemma SeededHolds(mem: int -> byte, page: nat, nodes: seq<Node>)
    ensures var m := Seeded(mem, page, nodes);
      && Holds(m, page, HeadStores(page)[0]) && Holds(m, page, HeadStores(page)[1])
      && forall i, k :: 0 <= i < |nodes| && 0 <= k < 4 ==> Holds(m, page, NodeStores(page, nodes, i)[k])
  {
    hide Holds, NodeStores, HeadStores, PerformAll, StoresUpTo, Apart;
    var ss := StoresUpTo(page, nodes, |nodes|);
    StoresApart(page, nodes, |nodes|);
    AllHold(mem, page, ss);
    StoresInclude(page, nodes, |nodes|);
    assert HeadStores(page)[0] == ss[0] && HeadStores(page)[1] == ss[1];
    forall i, k | 0 <= i < |nodes| && 0 <= k < 4
      ensures Holds(Seeded(mem, page, nodes), page, NodeStores(page, nodes, i)[k])
    {
      assert ss[2 + 4 * i + k] == NodeStores(page, nodes, i)[k];
    }
  }

  lemma ModSmall(v: nat, m: nat)
    requires v < m
    ensures Mod(v, m) == v
  {
  }

  lemma HeadReads(m: int -> byte, page: nat)
    requires Holds(m, page, HeadStores(page)[0]) && Holds(m, page, HeadStores(page)[1]) && page + 0x1000 <= TWO64
    ensures Word64(m, page + CTX_OFF + 0x10) == page + REGOBJ_OFF && Word64(m, page + REGOBJ_OFF) == page + NODES_OFF
  {
    hide Word64, Holds, Mod;
    ModSmall(page + REGOBJ_OFF, TWO64);
    ModSmall(page + NODES_OFF, TWO64);
    Read64(m, page, HeadStores(page)[0]);
    Read64(m, page, HeadStores(page)[1]);
    assert page + (CTX_OFF + 0x10) == page + CTX_OFF + 0x10;
  }

  lemma NodeReads(m: int -> byte, page: nat, nodes: seq<Node>, i: nat)
    requires i < |nodes| && page + NODES_OFF + |nodes| * NODE_SZ <= TWO64
    requires forall k :: 0 <= k < 4 ==> Holds(m, page, NodeStores(page, nodes, i)[k])
    ensures var a := NodeAddr(page, i);
      && Word64(m, a) == NextAddr(page, i, |nodes|)
      && Word32(m, a + 8) == Mod(nodes[i].key1, TWO32) && Word32(m, a + 0x10) == Mod(nodes[i].key2, TWO32)
      && Word64(m, a + 0x18) == Value(nodes[i])
  {
    hide Word64, Word32, Holds, Mod, Value;
    var ss := NodeStores(page, nodes, i);
    ModSmall(NextAddr(page, i, |nodes|), TWO64);
    ValueSmall(nodes[i]);
    Read64(m, page, ss[0]);
    Read32(m, page, ss[1]);
    Read32(m, page, ss[2]);
    Read64(m, page, ss[3]);
  }

  lemma ValueSmall(n: Node)
    ensures Value(n) < TWO64
  {
  }

  // ---- the lookup ----

  datatype Answer = Found(value: nat) | Missing | Unfinished

  /** The factory's walk through `next`, at most `steps` nodes. */
  function Lookup(mem: int -> byte, node: nat, key1: u32, key2: u32, steps: nat): Answer
    decreases steps
  {
    if node == 0 then Missing
    else if steps == 0 then Unfinished
    else if Word32(mem, node + 8) == key1 && Word32(mem, node + 0x10) == key2 then Found(Word64(mem, node + 0x18))
    else Lookup(mem, Word64(mem, node), key1, key2, steps - 1)
  }

  /** The lookup of a thread whose context is at page + 0x200. */
  function Query(mem: int -> byte, page: nat, key1: u32, key2: u32, steps: nat): Answer {
    Lookup(mem, Word64(mem, Word64(mem, page + CTX_OFF + 0x10)), key1, key2, steps)
  }

  /** The first list entry with the two keys, from position i on. */
  function FirstMatch(nodes: seq<Node>, key1: u32, key2: u32, i: nat): Answer
    requires i <= |nodes|
    decreases |nodes| - i
  {
    if i == |nodes| then Missing
    else if Mod(nodes[i].key1, TWO32) == key1 && Mod(nodes[i].key2, TWO32) == key2 then Found(Value(nodes[i]))
    else FirstMatch(nodes, key1, key2, i + 1)
  }

  lemma {:induction false} LookupFrom(m: int -> byte, page: nat, nodes: seq<Node>, key1: u32, key2: u32, i: nat,
                                      steps: nat)
    requires i < |nodes| && steps >= |nodes| - i
    requires forall k :: 0 <= k < |nodes| ==>
           var a := NodeAddr(page, k);
           && Word64(m, a) == NextAddr(page, k, |nodes|)
           && Word32(m, a + 8) == Mod(nodes[k].key1, TWO32) && Word32(m, a + 0x10) == Mod(nodes[k].key2, TWO32)
           && Word64(m, a + 0x18) == Value(nodes[k])
    ensures Lookup(m, NodeAddr(page, i), key1, key2, steps) == FirstMatch(nodes, key1, key2, i)
    decreases |nodes| - i
  {
    hide Word64, Word32, Mod, Value;
    if i + 1 < |nodes| {
      LookupFrom(m, page, nodes, key1, key2, i + 1, steps - 1);
    }
  }

  /** In a seeded page the lookup ends within |nodes| steps and answers like the list, for every pair of keys. */
  lemma QueryAnswers(mem: int -> byte, page: nat, nodes: seq<Node>, key1: u32, key2: u32, steps: nat)
    requires nodes != [] && page + NODES_OFF + |nodes| * NODE_SZ <= TWO64 && page + 0x1000 <= TWO64 && steps >= |nodes|
    ensures Query(Seeded(mem, page, nodes), page, key1, key2, steps) == FirstMatch(nodes, key1, key2, 0)
  {
    hide Word64, Word32, Mod, Value, Seeded, Lookup;
    SeededReads(mem, page, nodes);
    assert NodeAddr(page, 0) == page + NODES_OFF;
    LookupFrom(Seeded(mem, page, nodes), page, nodes, key1, key2, 0, steps);
  }

  function Zeroed(): int -> byte { a => 0 }

  /** With no nodes the list head still points at the first node cell, so in a zeroed page keys (0, 0) are "found". */
  lemma EmptySeedIsNotEmpty(page: nat, steps: nat)
    requires page + 0x1000 <= TWO64 && steps > 0
    ensures Query(Seeded(Zeroed(), page, []), page, 0, 0, steps) == Found(0) && FirstMatch([], 0, 0, 0) == Missing
  {
    hide Seeded;
    var m := Seeded(Zeroed(), page, []);
    SeededReads(Zeroed(), page, []);
    EmptyUntouched(page);
    ZeroWords(m, page + NODES_OFF);
    hide Word64, Word32;
    assert Lookup(m, page + NODES_OFF, 0, 0, steps) == Found(0);
  }

  lemma ZeroWords(m: int -> byte, a: nat)
    requires ReadBytes(m, a, NODE_SZ) == Zeros(NODE_SZ)
    ensures Word32(m, a + 8) == 0 && Word32(m, a + 0x10) == 0 && Word64(m, a + 0x18) == 0
  {
    var b := ReadBytes(m, a, NODE_SZ);
    assert b[8] == 0 && b[9] == 0 && b[10] == 0 && b[11] == 0;
    assert b[16] == 0 && b[17] == 0 && b[18] == 0 && b[19] == 0;
    assert b[24] == 0 && b[25] == 0 && b[26] == 0 && b[27] == 0;
    assert b[28] == 0 && b[29] == 0 && b[30] == 0 && b[31] == 0;
  }

  function Zeros(n: nat): seq<byte> { seq(n, _ => 0) }

  lemma EmptyUntouched(page: nat)
    ensures ReadBytes(Seeded(Zeroed(), page, []), page + NODES_OFF, NODE_SZ) == Zeros(NODE_SZ)
  {
    var s0, s1 := HeadStores(page)[0], HeadStores(page)[1];
    assert StoresUpTo(page, [], 0) == [s0, s1] && [s0, s1][..1] == [s0] && [s0][..0] == [];
    var z := Zeroed();
    assert PerformAll(z, page, []) == z;
    assert PerformAll(z, page, [s0]) == Perform(z, page, s0);
    assert PerformAll(z, page, [s0, s1]) == Perform(Perform(z, page, s0), page, s1);
  }

  /** Over a zeroed page the seed answers like its list for all keys exactly when the list is not empty. */
  lemma AnswersIffNonEmpty(page: nat, nodes: seq<Node>)
    requires page + NODES_OFF + |nodes| * NODE_SZ <= TWO64 && page + 0x1000 <= TWO64
    ensures (forall key1: u32, key2: u32, steps: nat :: steps > |nodes| ==>
              Query(Seeded(Zeroed(), page, nodes), page, key1, key2, steps) == FirstMatch(nodes, key1, key2, 0))
      <==> nodes != []
  {
    hide Query, Seeded, FirstMatch;
    if nodes == [] {
      EmptySeedIsNotEmpty(page, 1);
    } else {
      forall key1: u32, key2: u32, steps: nat | steps > |nodes|
        ensures Query(Seeded(Zeroed(), page, nodes), page, key1, key2, steps) == FirstMatch(nodes, key1, key2, 0)
      {
        QueryAnswers(Zeroed(), page, nodes, key1, key2, steps);
      }
    }
  }

  // ---- the page, offset by offset ----

  /** Where the accessors look: the list head behind the context at 0x200, nodes of 32 bytes from 0x420 on with link,
      keys and value at 0, 8, 0x10 and 0x18, and values as physical addresses. */
  lemma SeededPage(mem: int -> byte, page: nat, nodes: seq<Node>, i: nat)
    requires i < |nodes| && page + 0x420 + |nodes| * 0x20 <= TWO64 && page + 0x1000 <= TWO64
    ensures var m := Seeded(mem, page, nodes); var a := page + 0x420 + 0x20 * i; var n := nodes[i];
      && Word64(m, page + 0x210) == page + 0x400 && Word64(m, page + 0x400) == page + 0x420
      && Word64(m, a) == (if i + 1 < |nodes| then a + 0x20 else 0)
      && Word32(m, a + 8) == n.key1 % 0x1_0000_0000 && Word32(m, a + 0x10) == n.key2 % 0x1_0000_0000
      && Word64(m, a + 0x18) == (if n.value.None? then 0
                                 else (0x100_0688_4000 + n.value.value - 0xC000_0000) % 0x1_0000_0000_0000_0000)
  {
    hide Word64, Word32, Seeded;
    SeededReads(mem, page, nodes);
    assert page + CTX_OFF + 0x10 == page + 0x210;
    assert NodeAddr(page, i) == page + 0x420 + 0x20 * i;
  }

  /** Nothing else of the page, or of memory, is touched. */
  lemma {:induction false} OthersUntouched(mem: int -> byte, page: nat, ss: seq<Store>, a: int)
    requires forall k :: 0 <= k < |ss| ==> !(page + ss[k].off <= a < page + ss[k].off + ss[k].size)
    ensures PerformAll(mem, page, ss)(a) == mem(a)
    decreases |ss|
  {
    if ss != [] {
      OthersUntouched(mem, page, ss[..|ss| - 1], a);
    }
  }

  predicate HasKeys(n: Node, key1: u32, key2: u32) {
    n.key1 % 0x1_0000_0000 == key1 && n.key2 % 0x1_0000_0000 == key2
  }

  /** The list's answer is that of its first entry with the two keys. */
  lemma {:induction false} FirstMatchMeans(nodes: seq<Node>, key1: u32, key2: u32, i: nat, k: nat)
    requires i <= k <= |nodes| && forall j :: i <= j < k ==> !HasKeys(nodes[j], key1, key2)
    ensures k == |nodes| ==> FirstMatch(nodes, key1, key2, i) == Missing
    ensures k < |nodes| && HasKeys(nodes[k], key1, key2) ==> FirstMatch(nodes, key1, key2, i) == Found(Value(nodes[k]))
    decreases k - i
  {
    hide Value;
    if i < k {
      assert !HasKeys(nodes[i], key1, key2);
      FirstMatchMeans(nodes, key1, key2, i + 1, k);
    }
  }
}
