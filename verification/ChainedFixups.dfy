/** The chained-fixup walk of experiments/appledcp-crashA/scripts/chained.py. */
module ChainedFixups {
  import opened Wrappers
  import opened Words
  import opened Sequences

  const P30: nat := 0x4000_0000
  const P51: nat := 0x8_0000_0000_0000
  const P63: nat := 0x8000_0000_0000_0000

  function TargetBits(raw: nat): nat { raw % P30 }
  function NextBits(raw: nat): nat { raw / P51 % 0x1000 }
  function AuthBit(raw: nat): nat { raw / P63 % 2 }

  // ---- what the walk visits ----

  /** One visited slot: its file offset and its raw word. */
  datatype Visit = Visit(at: nat, raw: nat)

  function U64At(d: seq<byte>, at: nat): nat
    requires at + 8 <= |d|
  {
    FromLe(d[at..at + 8])
  }

  /** The slots of the chain that starts at cur; running off the file is an error. */
  function Chain(d: seq<byte>, cur: nat): Result<seq<Visit>>
    decreases |d| - cur
  {
    if cur + 8 > |d| then Err(StructError)
    else
      var raw := U64At(d, cur);
      if NextBits(raw) == 0 then Ok([Visit(cur, raw)])
      else
        var rest :- Chain(d, cur + 4 * NextBits(raw));
        Ok([Visit(cur, raw)] + rest)
  }

  /** All chains, one after another. */
  function Chains(d: seq<byte>, starts: seq<nat>): Result<seq<Visit>> {
    if starts == [] then Ok([])
    else
      var init :- Chains(d, starts[..|starts| - 1]);
      var last :- Chain(d, starts[|starts| - 1]);
      Ok(init + last)
  }

  datatype Segment = Segment(vm: nat, fo: nat, size: nat)

  function F2v(segs: seq<Segment>, f: nat): Option<nat> {
    if segs == [] then None
    else if segs[0].fo <= f < segs[0].fo + segs[0].size then Some(segs[0].vm + (f - segs[0].fo))
    else F2v(segs[1..], f)
  }

  datatype Found = Found(vm: Option<nat>, at: nat, raw: nat, auth: nat)
  datatype Entry = Entry(target: nat, auth: nat, raw: nat)

  /** The visited slots whose target is the requested address, in order. */
  function Hits(vs: seq<Visit>, segs: seq<Segment>, imgBase: nat, target: nat): seq<Found> {
    if vs == [] then []
    else
      var v := vs[|vs| - 1];
      Hits(vs[..|vs| - 1], segs, imgBase, target)
      + if imgBase + TargetBits(v.raw) == target then [Found(F2v(segs, v.at), v.at, v.raw, AuthBit(v.raw))] else []
  }

  /** The resolved pointers by address; of two slots at one address the later one stays. */
  function Index(vs: seq<Visit>, segs: seq<Segment>, imgBase: nat): map<Option<nat>, Entry> {
    if vs == [] then map[]
    else
      var v := vs[|vs| - 1];
      Index(vs[..|vs| - 1], segs, imgBase)[F2v(segs, v.at) := Entry(imgBase + TargetBits(v.raw), AuthBit(v.raw), v.raw)]
  }

  /** The pages of one segment: where its first page lies and where its chains start. */
  datatype PageTable = PageTable(segoff: nat, pageSize: nat, starts: seq<nat>)

  const NO_FIXUPS := 0xFFFF

  /** File offsets of the chain starts in the first n pages. */
  function StartsOf(t: PageTable, n: nat): seq<nat>
    requires n <= |t.starts|
  {
    if n == 0 then []
    else
      var s := t.starts[n - 1];
      StartsOf(t, n - 1) + if s == NO_FIXUPS then [] else [t.segoff + (n - 1) * t.pageSize + s]
  }

  function AllStarts(ts: seq<PageTable>): seq<nat> {
    if ts == [] then [] else AllStarts(ts[..|ts| - 1]) + StartsOf(ts[|ts| - 1], |ts[|ts| - 1].starts|)
  }

  // ---- the walk ----

  class FixupWalk {
    const d: seq<byte>
    const segs: seq<Segment>
    const imgBase: nat
    const target: nat
    var found: seq<Found>
    var total: nat
    var index: map<Option<nat>, Entry>
    ghost var visits: seq<Visit>

    /** The three accumulators describe the visited slots. */
    ghost predicate Valid()
      reads this
    {
      found == Hits(visits, segs, imgBase, target) && total == |visits| && index == Index(visits, segs, imgBase)
    }

    constructor (d: seq<byte>, segs: seq<Segment>, imgBase: nat, target: nat)
      ensures Valid() && visits == [] && this.d == d && this.segs == segs && this.imgBase == imgBase
      ensures this.target == target
    {
      this.d, this.segs, this.imgBase, this.target := d, segs, imgBase, target;
      found, total, index, visits := [], 0, map[], [];
    }

    method Record(cur: nat, raw: nat)
      requires Valid()
      modifies this
      ensures Valid() && visits == old(visits) + [Visit(cur, raw)]
    {
      hide TargetBits, AuthBit, F2v, Hits, Index;
      total := total + 1;
      var auth := raw / P63 % 2;
      var tgt := imgBase + raw % P30;
      assert auth == AuthBit(raw) && tgt == imgBase + TargetBits(raw) by { Fields(raw); }
      index := index[F2v(segs, cur) := Entry(tgt, auth, raw)];
      if tgt == target {
        found := found + [Found(F2v(segs, cur), cur, raw, auth)];
      }
      OneMoreVisit(visits, Visit(cur, raw), segs, imgBase, target);
      visits := visits + [Visit(cur, raw)];
    }

    method WalkChain(start: nat) returns (ok: bool)
      requires Valid()
      modifies this
      ensures Valid()
      ensures ok <==> Chain(d, start).Ok?
      ensures ok ==> visits == old(visits) + Chain(d, start).value
    {
      hide NextBits, U64At, Chain, Hits, Index;
      var cur := start;
      ghost var here: seq<Visit> := [];
      while true
        invariant Valid() && visits == old(visits) + here
        invariant Chain(d, start).Ok? <==> Chain(d, cur).Ok?
        invariant Chain(d, cur).Ok? ==> Chain(d, start).value == here + Chain(d, cur).value
        decreases |d| + 8 - cur
      {
        if cur + 8 > |d| {
          ChainOffFile(d, cur);
          return false;
        }
        ChainStep(d, cur);
        var raw := U64At(d, cur);
        Record(cur, raw);
        here := here + [Visit(cur, raw)];
        var nxt := NextBits(raw);
        if nxt == 0 {
          return true;
        }
        cur := cur + nxt * 4;
      }
    }

    method WalkPages(t: PageTable) returns (ok: bool)
      requires Valid()
      modifies this
      ensures Valid()
      ensures ok <==> Chains(d, StartsOf(t, |t.starts|)).Ok?
      ensures ok ==> visits == old(visits) + Chains(d, StartsOf(t, |t.starts|)).value
    {
      hide Chain, StartsOf, Chains, Hits, Index;
      ghost var all := StartsOf(t, |t.starts|);
      NoStarts(t, d);
      for n := 0 to |t.starts|
        invariant Valid()
        invariant var r := Chains(d, StartsOf(t, n)); r.Ok? && visits == old(visits) + r.value
      {
        StartsStep(t, n);
        if t.starts[n] != NO_FIXUPS {
          var start := t.segoff + n * t.pageSize + t.starts[n];
          ok := WalkChain(start);
          ChainsOneMore(d, StartsOf(t, n), start);
          if !ok {
            StartsPrefix(t, n + 1, |t.starts|);
            ChainsPrefix(d, StartsOf(t, n + 1), all);
            return false;
          }
        }
      }
      return true;
    }

    /** The whole walk over the segments' page tables. */
    method WalkAll(ts: seq<PageTable>) returns (ok: bool)
      requires Valid()
      modifies this
      ensures Valid()
      ensures ok <==> Chains(d, AllStarts(ts)).Ok?
      ensures ok ==> visits == old(visits) + Chains(d, AllStarts(ts)).value
    {
      hide Chain, StartsOf, Chains, AllStarts, Hits, Index;
      NoTables(ts, d);
      for n := 0 to |ts|
        invariant Valid()
        invariant var r := Chains(d, AllStarts(ts[..n])); r.Ok? && visits == old(visits) + r.value
      {
        ok := WalkPages(ts[n]);
        AllStartsStep(ts, n);
        ChainsAppend(d, AllStarts(ts[..n]), StartsOf(ts[n], |ts[n].starts|));
        if !ok {
          AllStartsPrefix(ts, n + 1);
          ChainsPrefix(d, AllStarts(ts[..n + 1]), AllStarts(ts));
          return false;
        }
      }
      assert ts[..|ts|] == ts;
      return true;
    }
  }

  lemma OneMoreVisit(vs: seq<Visit>, v: Visit, segs: seq<Segment>, imgBase: nat, target: nat)
    ensures Hits(vs + [v], segs, imgBase, target) == Hits(vs, segs, imgBase, target)
      + if imgBase + TargetBits(v.raw) == target then [Found(F2v(segs, v.at), v.at, v.raw, AuthBit(v.raw))] else []
    ensures Index(vs + [v], segs, imgBase)
      == Index(vs, segs, imgBase)[F2v(segs, v.at) := Entry(imgBase + TargetBits(v.raw), AuthBit(v.raw), v.raw)]
  {
    hide TargetBits, AuthBit, F2v;
    assert (vs + [v])[..|vs|] == vs;
  }

  lemma NoTables(ts: seq<PageTable>, d: seq<byte>)
    ensures Chains(d, AllStarts(ts[..0])) == Ok([])
  {
  }

  lemma AllStartsStep(ts: seq<PageTable>, n: nat)
    requires n < |ts|
    ensures AllStarts(ts[..n + 1]) == AllStarts(ts[..n]) + StartsOf(ts[n], |ts[n].starts|)
  {
    hide StartsOf;
    assert ts[..n + 1][..n] == ts[..n];
  }

  lemma Fields(raw: nat)
    ensures AuthBit(raw) == raw / P63 % 2 && TargetBits(raw) == raw % P30
  {
  }

  lemma ChainsOneMore(d: seq<byte>, starts: seq<nat>, s: nat)
    ensures Chains(d, starts + [s]).Ok? <==> Chains(d, starts).Ok? && Chain(d, s).Ok?
    ensures Chains(d, starts + [s]).Ok? ==> Chains(d, starts + [s]).value == Chains(d, starts).value + Chain(d, s).value
  {
    hide Chain;
    assert (starts + [s])[..|starts|] == starts;
  }

  lemma {:induction false} ChainsAppend(d: seq<byte>, a: seq<nat>, b: seq<nat>)
    ensures Chains(d, a + b).Ok? <==> Chains(d, a).Ok? && Chains(d, b).Ok?
    ensures Chains(d, a + b).Ok? ==> Chains(d, a + b).value == Chains(d, a).value + Chains(d, b).value
    decreases |b|
  {
    hide Chain;
    if b == [] {
      assert a + b == a;
    } else {
      var i, s := b[..|b| - 1], b[|b| - 1];
      assert a + b == (a + i) + [s] && b == i + [s];
      ChainsAppend(d, a, i);
      ChainsOneMore(d, a + i, s);
      ChainsOneMore(d, i, s);
    }
  }

  lemma ChainsPrefix(d: seq<byte>, a: seq<nat>, all: seq<nat>)
    requires a <= all && Chains(d, a).Err?
    ensures Chains(d, all).Err?
  {
    hide Chains;
    assert all == a + all[|a|..];
    ChainsAppend(d, a, all[|a|..]);
  }

  lemma NoStarts(t: PageTable, d: seq<byte>)
    ensures Chains(d, StartsOf(t, 0)) == Ok([])
  {
  }

  lemma StartsStep(t: PageTable, n: nat)
    requires n < |t.starts|
    ensures StartsOf(t, n + 1)
      == if t.starts[n] == NO_FIXUPS then StartsOf(t, n) else StartsOf(t, n) + [t.segoff + n * t.pageSize + t.starts[n]]
  {
  }

  lemma {:induction false} StartsPrefix(t: PageTable, m: nat, n: nat)
    requires m <= n <= |t.starts|
    ensures StartsOf(t, m) <= StartsOf(t, n)
    decreases n
  {
    if m < n {
      StartsPrefix(t, m, n - 1);
    }
  }

  lemma {:induction false} AllStartsPrefix(ts: seq<PageTable>, m: nat)
    requires m <= |ts|
    ensures AllStarts(ts[..m]) <= AllStarts(ts)
    decreases |ts|
  {
    hide StartsOf;
    if m < |ts| {
      assert ts[..|ts| - 1][..m] == ts[..m];
      AllStartsPrefix(ts[..|ts| - 1], m);
    } else {
      assert ts[..m] == ts;
    }
  }

  /** The walk moves forward by the stored distance, at least four bytes, from the start to the first zero distance. */
  lemma {:induction false} ChainMovesForward(d: seq<byte>, cur: nat)
    requires Chain(d, cur).Ok?
    ensures var vs := Chain(d, cur).value;
      && vs != [] && vs[0].at == cur && NextBits(vs[|vs| - 1].raw) == 0
      && (forall i :: 0 <= i < |vs| ==> vs[i].at + 8 <= |d| && vs[i].raw == U64At(d, vs[i].at))
      && (forall i :: 0 <= i < |vs| - 1 ==>
            NextBits(vs[i].raw) > 0 && vs[i + 1].at == vs[i].at + 4 * NextBits(vs[i].raw))
    decreases |d| - cur
  {
    hide NextBits, U64At;
    var raw := U64At(d, cur);
    if NextBits(raw) != 0 {
      ChainMovesForward(d, cur + 4 * NextBits(raw));
    }
  }

  // ---- laying out a chain ----

  /** A pointer slot; `other` holds the key and diversity bits between target and distance. */
  datatype Slot = Slot(at: nat, target: nat, other: nat, auth: bool)

  function Encode(s: Slot, next: nat): nat {
    s.target + s.other * P30 + next * P51 + (if s.auth then P63 else 0)
  }

  /** Slots in file order that do not overlap and lie close enough for the 12-bit distance. */
  predicate Linkable(slots: seq<Slot>, size: nat) {
    && slots != []
    && (forall i :: 0 <= i < |slots| ==> slots[i].target < P30 && slots[i].other < 0x20_0000 && slots[i].at + 8 <= size)
    && (forall i :: 0 <= i < |slots| - 1 ==>
          slots[i].at + 8 <= slots[i + 1].at <= slots[i].at + 4 * 0xFFF && (slots[i + 1].at - slots[i].at) % 4 == 0)
  }

  function Distance(slots: seq<Slot>): nat
    requires slots != []
  {
    if |slots| == 1 || slots[1].at < slots[0].at then 0 else (slots[1].at - slots[0].at) / 4
  }

  /** The linker's output: every slot with the distance to the following one, zero at the end. */
  function WriteChain(d: seq<byte>, slots: seq<Slot>): (r: seq<byte>)
    requires slots != [] ==> Linkable(slots, |d|)
    ensures |r| == |d|
  {
    if slots == [] then d
    else
      assert slots[1..] != [] ==> Linkable(slots[1..], |d|);
      Splice(WriteChain(d, slots[1..]), slots[0].at, Le(Encode(slots[0], Distance(slots)), 8))
  }

  lemma LowField(low: nat, rest: nat)
    requires low < P30
    ensures (low + P30 * rest) % P30 == low
  {
  }

  lemma HighFields(low: nat, next: nat, a: nat)
    requires low < P51 && next < 0x1000 && a < 2
    ensures var raw := low + next * P51 + a * P63;
      raw < TWO64 && raw / P51 == next + 0x1000 * a && NextBits(raw) == next && AuthBit(raw) == a
  {
    var raw := low + next * P51 + a * P63;
    assert raw == low + P51 * (next + 0x1000 * a);
    assert raw / P51 == next + 0x1000 * a;
    assert raw / P63 == raw / P51 / 0x1000;
  }

  lemma EncodeFields(s: Slot, next: nat)
    requires s.target < P30 && s.other < 0x20_0000 && next < 0x1000
    ensures var raw := Encode(s, next);
      raw < TWO64 && TargetBits(raw) == s.target && NextBits(raw) == next && AuthBit(raw) == if s.auth then 1 else 0
  {
    var a: nat := if s.auth then 1 else 0;
    LowField(s.target, s.other + 0x20_0000 * next + 0x2_0000_0000 * a);
    HighFields(s.target + s.other * P30, next, a);
  }

  /** A chain only depends on the bytes from its start on. */
  lemma {:induction false} ChainAbove(d: seq<byte>, e: seq<byte>, cur: nat)
    requires |d| == |e| && cur <= |d| && d[cur..] == e[cur..]
    ensures Chain(d, cur) == Chain(e, cur)
    decreases |d| - cur
  {
    hide NextBits;
    if cur + 8 <= |d| {
      assert d[cur..][..8] == d[cur..cur + 8] && e[cur..][..8] == e[cur..cur + 8];
      var next := cur + 4 * NextBits(U64At(d, cur));
      if next > cur && next <= |d| {
        assert d[cur..][next - cur..] == d[next..] && e[cur..][next - cur..] == e[next..];
        ChainAbove(d, e, next);
      }
    }
  }

  lemma WordThere(d: seq<byte>, at: nat, raw: nat)
    requires at + 8 <= |d| && raw < TWO64
    ensures U64At(Splice(d, at, Le(raw, 8)), at) == raw
  {
    assert Splice(d, at, Le(raw, 8))[at..at + 8] == Le(raw, 8);
    assert Pow256(8) == TWO64 by { assert Pow256(4) == TWO32; }
    LeRoundTrip(raw, 8);
  }

  /** v is the visit of slot s. */
  predicate Shows(v: Visit, s: Slot) {
    v.at == s.at && TargetBits(v.raw) == s.target && AuthBit(v.raw) == if s.auth then 1 else 0
  }

  /** One visit for each slot, in order. */
  ghost predicate AllShow(vs: seq<Visit>, slots: seq<Slot>) {
    |vs| == |slots| && forall i :: 0 <= i < |slots| ==> Shows(vs[i], slots[i])
  }

  lemma TailLinkable(slots: seq<Slot>, size: nat)
    requires Linkable(slots, size) && |slots| > 1
    ensures Linkable(slots[1..], size)
    ensures slots[0].at + 8 <= slots[1].at <= size && slots[0].at + 4 * Distance(slots) == slots[1].at
    ensures 0 < Distance(slots) < 0x1000
  {
  }

  /** The word written for the first slot, as the walk reads it. */
  lemma FirstWord(e: seq<byte>, slots: seq<Slot>)
    requires Linkable(slots, |e|)
    ensures var raw := Encode(slots[0], Distance(slots)); var f := Splice(e, slots[0].at, Le(raw, 8));
      && U64At(f, slots[0].at) == raw && Shows(Visit(slots[0].at, raw), slots[0]) && NextBits(raw) == Distance(slots)
  {
    assert slots != [];
    hide TargetBits, NextBits, AuthBit, Encode, U64At, Splice, Linkable, Le, Distance;
    FirstSlot(slots, |e|);
    EncodeFields(slots[0], Distance(slots));
    WordThere(e, slots[0].at, Encode(slots[0], Distance(slots)));
  }

  lemma ChainOffFile(f: seq<byte>, at: nat)
    requires at + 8 > |f|
    ensures Chain(f, at).Err?
  {
  }

  lemma ChainStep(f: seq<byte>, at: nat)
    requires at + 8 <= |f|
    ensures NextBits(U64At(f, at)) == 0 ==> Chain(f, at) == Ok([Visit(at, U64At(f, at))])
    ensures NextBits(U64At(f, at)) > 0 ==> Chain(f, at).Ok? == Chain(f, at + 4 * NextBits(U64At(f, at))).Ok?
    ensures NextBits(U64At(f, at)) > 0 && Chain(f, at + 4 * NextBits(U64At(f, at))).Ok? ==>
      Chain(f, at) == Ok([Visit(at, U64At(f, at))] + Chain(f, at + 4 * NextBits(U64At(f, at))).value)
  {
    hide NextBits, U64At;
  }

  /** A slot whose distance leads to a chain that is unchanged. */
  lemma LinkTail(e: seq<byte>, f: seq<byte>, at: nat, next: nat)
    requires |e| == |f| && at + 8 <= |f| && next <= |f| && e[next..] == f[next..]
    requires 0 < NextBits(U64At(f, at)) && next == at + 4 * NextBits(U64At(f, at)) && Chain(e, next).Ok?
    ensures Chain(f, at) == Ok([Visit(at, U64At(f, at))] + Chain(e, next).value)
  {
    hide NextBits, U64At, Chain;
    ChainStep(f, at);
    ChainAbove(e, f, next);
  }

  /** Writing the only slot. */
  lemma LinkLast(e: seq<byte>, slots: seq<Slot>)
    requires Linkable(slots, |e|) && |slots| == 1
    ensures var raw := Encode(slots[0], 0); var f := Splice(e, slots[0].at, Le(raw, 8));
      Shows(Visit(slots[0].at, raw), slots[0]) && Chain(f, slots[0].at) == Ok([Visit(slots[0].at, raw)])
  {
    hide NextBits, Encode, U64At, Splice, Le, Shows, Chain;
    FirstWord(e, slots);
    ChainStep(Splice(e, slots[0].at, Le(Encode(slots[0], 0), 8)), slots[0].at);
  }

  /** Writing the first slot in front of a chain that is already there. */
  lemma LinkFirst(e: seq<byte>, slots: seq<Slot>)
    requires Linkable(slots, |e|) && |slots| > 1 && Chain(e, slots[1].at).Ok?
    ensures var raw := Encode(slots[0], Distance(slots)); var f := Splice(e, slots[0].at, Le(raw, 8));
      && Shows(Visit(slots[0].at, raw), slots[0])
      && Chain(f, slots[0].at) == Ok([Visit(slots[0].at, raw)] + Chain(e, slots[1].at).value)
  {
    FirstSlot(slots, |e|);
    hide NextBits, Encode, U64At, Splice, Linkable, Le, Distance, Shows, Chain;
    FirstWord(e, slots);
    TailLinkable(slots, |e|);
    var s, raw := slots[0], Encode(slots[0], Distance(slots));
    SpliceAbove(e, s.at, Le(raw, 8), slots[1].at);
    LinkTail(e, Splice(e, s.at, Le(raw, 8)), s.at, slots[1].at);
  }

  lemma FirstSlot(slots: seq<Slot>, size: nat)
    requires Linkable(slots, size)
    ensures slots[0].target < P30 && slots[0].other < 0x20_0000 && slots[0].at + 8 <= size && Distance(slots) < 0x1000
    ensures |slots| == 1 ==> Distance(slots) == 0
  {
  }

  /** The walk of a laid-out chain visits exactly its slots, in order, with their targets and auth bits. */
  lemma {:induction false} WalkVisitsSlots(d: seq<byte>, slots: seq<Slot>)
    requires Linkable(slots, |d|)
    ensures var r := Chain(WriteChain(d, slots), slots[0].at);
      r.Ok? && AllShow(r.value, slots)
    decreases |slots|
  {
    assert slots != [];
    FirstSlot(slots, |d|);
    hide Shows, Encode, Chain, Linkable, Distance, Le;
    var rest := slots[1..];
    if |slots| > 1 {
      TailLinkable(slots, |d|);
      WalkVisitsSlots(d, rest);
      LinkFirst(WriteChain(d, rest), slots);
    } else {
      LinkLast(WriteChain(d, rest), slots);
    }
    assert slots == [slots[0]] + rest;
  }

  /** The slots that point at the given address, in order. */
  function Matching(slots: seq<Slot>, imgBase: nat, target: nat): seq<Slot> {
    if slots == [] then []
    else
      var s := slots[|slots| - 1];
      Matching(slots[..|slots| - 1], imgBase, target) + if imgBase + s.target == target then [s] else []
  }

  /** f reports slot s with its offset, its address, its auth bit and a word that holds its target. */
  predicate Reports(f: Found, s: Slot, segs: seq<Segment>) {
    f.at == s.at && f.vm == F2v(segs, s.at) && f.auth == (if s.auth then 1 else 0) && TargetBits(f.raw) == s.target
  }

  /** One report for each slot, in order. */
  ghost predicate AllReport(fs: seq<Found>, slots: seq<Slot>, segs: seq<Segment>) {
    |fs| == |slots| && forall i :: 0 <= i < |slots| ==> Reports(fs[i], slots[i], segs)
  }

  /** What is reported for visits of these slots is exactly the matching ones, in order. */
  lemma {:induction false} HitsAreMatching(vs: seq<Visit>, slots: seq<Slot>, segs: seq<Segment>, imgBase: nat,
                                           target: nat)
    requires AllShow(vs, slots)
    ensures AllReport(Hits(vs, segs, imgBase, target), Matching(slots, imgBase, target), segs)
    decreases |vs|
  {
    hide TargetBits, AuthBit, F2v;
    if vs != [] {
      HitsAreMatching(vs[..|vs| - 1], slots[..|slots| - 1], segs, imgBase, target);
      assert Shows(vs[|vs| - 1], slots[|slots| - 1]);
    }
  }

  /** The entry holds the pointer of slot s. */
  predicate Holds(e: Entry, s: Slot, imgBase: nat) {
    && e.target == imgBase + s.target && e.auth == (if s.auth then 1 else 0)
    && TargetBits(e.raw) == s.target && AuthBit(e.raw) == e.auth
  }

  /** The last of the slots that lie at its address. */
  predicate LastAt(slots: seq<Slot>, segs: seq<Segment>, i: nat)
    requires i < |slots|
  {
    forall j :: i < j < |slots| ==> F2v(segs, slots[j].at) != F2v(segs, slots[i].at)
  }

  /** Some slot lies at address a. */
  ghost predicate SlotAt(slots: seq<Slot>, segs: seq<Segment>, a: Option<nat>) {
    exists i :: 0 <= i < |slots| && F2v(segs, slots[i].at) == a
  }

  /** The index has the addresses of the slots and no others, and at each the pointer of the last slot that lies there;
      where all addresses differ these are all pointers. */
  ghost predicate Indexed(index: map<Option<nat>, Entry>, slots: seq<Slot>, segs: seq<Segment>, imgBase: nat) {
    && (forall a :: a in index <==> SlotAt(slots, segs, a))
    && forall i :: 0 <= i < |slots| && LastAt(slots, segs, i) ==>
         F2v(segs, slots[i].at) in index && Holds(index[F2v(segs, slots[i].at)], slots[i], imgBase)
  }

  lemma OneMoreSlot(slots: seq<Slot>, segs: seq<Segment>, a: Option<nat>)
    requires slots != []
    ensures var n := |slots| - 1; SlotAt(slots, segs, a) <==> SlotAt(slots[..n], segs, a) || F2v(segs, slots[n].at) == a
  {
    hide F2v;
    assert forall i :: 0 <= i < |slots| - 1 ==> slots[..|slots| - 1][i] == slots[i];
  }

  lemma {:induction false} IndexKeys(vs: seq<Visit>, slots: seq<Slot>, segs: seq<Segment>, imgBase: nat, a: Option<nat>)
    requires AllShow(vs, slots)
    ensures a in Index(vs, segs, imgBase) <==> SlotAt(slots, segs, a)
    decreases |vs|
  {
    hide TargetBits, AuthBit, F2v, SlotAt;
    if vs == [] {
      NoSlotAt(slots, segs, a);
    } else {
      var n := |vs| - 1;
      IndexKeys(vs[..n], slots[..n], segs, imgBase, a);
      assert Shows(vs[n], slots[n]);
      OneMoreSlot(slots, segs, a);
    }
  }

  lemma NoSlotAt(slots: seq<Slot>, segs: seq<Segment>, a: Option<nat>)
    requires slots == []
    ensures !SlotAt(slots, segs, a)
  {
  }

  lemma {:induction false} IndexEntry(vs: seq<Visit>, slots: seq<Slot>, segs: seq<Segment>, imgBase: nat, i: nat)
    requires AllShow(vs, slots) && i < |slots| && LastAt(slots, segs, i)
    ensures var index := Index(vs, segs, imgBase); var a := F2v(segs, slots[i].at);
      a in index && Holds(index[a], slots[i], imgBase)
    decreases |vs|
  {
    hide TargetBits, AuthBit, F2v;
    var n := |vs| - 1;
    assert Shows(vs[n], slots[n]);
    if i < n {
      assert F2v(segs, slots[n].at) != F2v(segs, slots[i].at);
      IndexEntry(vs[..n], slots[..n], segs, imgBase, i);
    }
  }

  lemma IndexHolds(vs: seq<Visit>, slots: seq<Slot>, segs: seq<Segment>, imgBase: nat)
    requires AllShow(vs, slots)
    ensures Indexed(Index(vs, segs, imgBase), slots, segs, imgBase)
  {
    hide AllShow, Index, LastAt, SlotAt, Holds, F2v;
    forall a
      ensures a in Index(vs, segs, imgBase) <==> SlotAt(slots, segs, a)
    {
      IndexKeys(vs, slots, segs, imgBase, a);
    }
    forall i | 0 <= i < |slots| && LastAt(slots, segs, i)
      ensures var a := F2v(segs, slots[i].at);
        a in Index(vs, segs, imgBase) && Holds(Index(vs, segs, imgBase)[a], slots[i], imgBase)
    {
      IndexEntry(vs, slots, segs, imgBase, i);
    }
  }

  lemma SpliceAbove(d: seq<byte>, at: nat, b: seq<byte>, from: nat)
    requires at + |b| <= from <= |d|
    ensures Splice(d, at, b)[from..] == d[from..]
  {
  }

  // ---- laying out many chains ----

  predicate WordsApart(a: nat, b: nat) { a + 8 <= b || b + 8 <= a }

  /** Every chain can be linked, and no slot of one overlaps a slot of another. */
  ghost predicate LaidOut(chains: seq<seq<Slot>>, size: nat) {
    && (forall c :: 0 <= c < |chains| ==> Linkable(chains[c], size))
    && (forall b, c, i, j :: 0 <= b < c < |chains| && 0 <= i < |chains[b]| && 0 <= j < |chains[c]| ==>
          WordsApart(chains[b][i].at, chains[c][j].at))
  }

  function WriteAll(d: seq<byte>, chains: seq<seq<Slot>>): (r: seq<byte>)
    requires forall c :: 0 <= c < |chains| ==> Linkable(chains[c], |d|)
    ensures |r| == |d|
  {
    if chains == [] then d else WriteChain(WriteAll(d, chains[..|chains| - 1]), chains[|chains| - 1])
  }

  function Starts(chains: seq<seq<Slot>>): (r: seq<nat>)
    requires forall c :: 0 <= c < |chains| ==> chains[c] != []
    ensures |r| == |chains|
  {
    seq(|chains|, c requires 0 <= c < |chains| => chains[c][0].at)
  }

  function Flat(chains: seq<seq<Slot>>): seq<Slot> {
    if chains == [] then [] else Flat(chains[..|chains| - 1]) + chains[|chains| - 1]
  }

  lemma SpliceElsewhere(d: seq<byte>, off: nat, b: seq<byte>, at: nat)
    requires off + |b| <= |d| && |b| == 8 && at + 8 <= |d| && WordsApart(off, at)
    ensures U64At(Splice(d, off, b), at) == U64At(d, at)
  {
    assert Splice(d, off, b)[at..at + 8] == d[at..at + 8];
  }

  /** Writing a chain leaves every other word alone. */
  lemma {:induction false} WriteChainElsewhere(d: seq<byte>, slots: seq<Slot>, at: nat)
    requires slots != [] ==> Linkable(slots, |d|)
    requires at + 8 <= |d| && forall i :: 0 <= i < |slots| ==> WordsApart(slots[i].at, at)
    ensures U64At(WriteChain(d, slots), at) == U64At(d, at)
    decreases |slots|
  {
    if slots != [] {
      FirstSlot(slots, |d|);
      if |slots| > 1 {
        TailLinkable(slots, |d|);
      }
      hide U64At, Linkable, Encode, Distance, Le, Splice;
      WriteChainElsewhere(d, slots[1..], at);
      SpliceElsewhere(WriteChain(d, slots[1..]), slots[0].at, Le(Encode(slots[0], Distance(slots)), 8), at);
    }
  }

  /** The word at every visited slot is the same in both files. */
  ghost predicate SameWords(d: seq<byte>, e: seq<byte>, vs: seq<Visit>) {
    |d| == |e| && forall i :: 0 <= i < |vs| ==> vs[i].at + 8 <= |d| && U64At(e, vs[i].at) == U64At(d, vs[i].at)
  }

  /** A chain depends only on the words it visits. */
  lemma {:induction false} ChainSame(d: seq<byte>, e: seq<byte>, cur: nat)
    requires Chain(d, cur).Ok? && SameWords(d, e, Chain(d, cur).value)
    ensures Chain(e, cur) == Chain(d, cur)
    decreases |d| - cur
  {
    hide NextBits, U64At;
    var vs := Chain(d, cur).value;
    assert vs[0].at == cur;
    var raw := U64At(d, cur);
    if NextBits(raw) != 0 {
      assert vs[1..] == Chain(d, cur + 4 * NextBits(raw)).value;
      ChainSame(d, e, cur + 4 * NextBits(raw));
    }
  }

  lemma {:induction false} ChainsSame(d: seq<byte>, e: seq<byte>, starts: seq<nat>)
    requires Chains(d, starts).Ok? && SameWords(d, e, Chains(d, starts).value)
    ensures Chains(e, starts) == Chains(d, starts)
    decreases |starts|
  {
    hide Chain, U64At;
    if starts != [] {
      var n := |starts| - 1;
      var init, last := Chains(d, starts[..n]).value, Chain(d, starts[n]).value;
      assert Chains(d, starts).value == init + last;
      SameParts(d, e, init, last);
      ChainsSame(d, e, starts[..n]);
      ChainSame(d, e, starts[n]);
    }
  }

  lemma SameParts(d: seq<byte>, e: seq<byte>, a: seq<Visit>, b: seq<Visit>)
    requires SameWords(d, e, a + b)
    ensures SameWords(d, e, a) && SameWords(d, e, b)
  {
    hide U64At;
    assert forall i :: 0 <= i < |a| ==> (a + b)[i] == a[i];
    assert forall i :: 0 <= i < |b| ==> (a + b)[|a| + i] == b[i];
  }

  /** The slots of all but the last chain keep their words when the last one is written. */
  lemma LastChainElsewhere(d: seq<byte>, chains: seq<seq<Slot>>, vs: seq<Visit>)
    requires chains != [] && LaidOut(chains, |d|) && AllShow(vs, Flat(chains[..|chains| - 1]))
    ensures SameWords(d, WriteChain(d, chains[|chains| - 1]), vs)
  {
    hide U64At, Linkable, Flat, WriteChain;
    var n := |chains| - 1;
    var slots := Flat(chains[..n]);
    forall i | 0 <= i < |vs|
      ensures vs[i].at + 8 <= |d| && U64At(WriteChain(d, chains[n]), vs[i].at) == U64At(d, vs[i].at)
    {
      assert Shows(vs[i], slots[i]) && slots[i] in slots;
      var c, j := OfChain(chains[..n], slots[i]);
      assert chains[c][j] == slots[i];
      SlotInside(chains[c], |d|, j);
      WriteChainElsewhere(d, chains[n], vs[i].at);
    }
  }

  lemma SlotInside(slots: seq<Slot>, size: nat, j: nat)
    requires Linkable(slots, size) && j < |slots|
    ensures slots[j].at + 8 <= size
  {
  }

  lemma {:induction false} OfChain(chains: seq<seq<Slot>>, s: Slot) returns (c: nat, j: nat)
    requires s in Flat(chains)
    ensures c < |chains| && j < |chains[c]| && chains[c][j] == s
    decreases |chains|
  {
    var n := |chains| - 1;
    if s in chains[n] {
      c := n;
      j :| j < |chains[n]| && chains[n][j] == s;
    } else {
      c, j := OfChain(chains[..n], s);
    }
  }

  /** The walk over many laid-out chains visits exactly all their slots,
      chain by chain, with their targets and auth bits. */
  lemma {:induction false} ChainsVisitSlots(d: seq<byte>, chains: seq<seq<Slot>>)
    requires LaidOut(chains, |d|)
    ensures forall c :: 0 <= c < |chains| ==> Linkable(chains[c], |d|) && chains[c] != []
    ensures var r := Chains(WriteAll(d, chains), Starts(chains)); r.Ok? && AllShow(r.value, Flat(chains))
    decreases |chains|
  {
    hide Linkable, Chain, Chains, WriteChain, Shows;
    ChainsNotEmpty(chains, |d|);
    if chains == [] {
      NoChains(d);
    } else {
      var n := |chains| - 1;
      var init := chains[..n];
      InitLaidOut(chains, |d|);
      ChainsVisitSlots(d, init);
      var e := WriteAll(d, init);
      var vs := Chains(e, Starts(init)).value;
      LastChainElsewhere(e, chains, vs);
      ChainsSame(e, WriteChain(e, chains[n]), Starts(init));
      WalkVisitsSlots(e, chains[n]);
      ChainsOneMore(WriteAll(d, chains), Starts(init), chains[n][0].at);
      assert Starts(chains) == Starts(init) + [chains[n][0].at];
    }
  }

  lemma InitLaidOut(chains: seq<seq<Slot>>, size: nat)
    requires chains != [] && LaidOut(chains, size)
    ensures LaidOut(chains[..|chains| - 1], size)
  {
    hide Linkable;
  }

  lemma ChainsNotEmpty(chains: seq<seq<Slot>>, size: nat)
    requires LaidOut(chains, size)
    ensures forall c :: 0 <= c < |chains| ==> Linkable(chains[c], size) && chains[c] != []
  {
  }

  lemma NoChains(d: seq<byte>)
    ensures Chains(d, []) == Ok([])
  {
  }

  /** What the whole script finds in a file whose page tables name the starts of laid-out
      chains: every slot is counted, exactly those that point at the requested address are
      reported, in order, and the index holds all pointers by address. */
  method WalkLaidOut(e: seq<byte>, ts: seq<PageTable>, segs: seq<Segment>, imgBase: nat, target: nat,
                     ghost d: seq<byte>, ghost chains: seq<seq<Slot>>)
    returns (w: FixupWalk, ok: bool)
    requires LaidOut(chains, |d|)
    requires e == WriteAll(d, chains) && AllStarts(ts) == Starts(chains)
    ensures fresh(w) && ok && w.total == |Flat(chains)|
    ensures AllReport(w.found, Matching(Flat(chains), imgBase, target), segs)
    ensures Indexed(w.index, Flat(chains), segs, imgBase)
  {
    hide Linkable, LaidOut, Chain, Chains, WriteAll, Shows, Hits, Index, Indexed, AllReport;
    ChainsVisitSlots(d, chains);
    w := new FixupWalk(e, segs, imgBase, target);
    ok := w.WalkAll(ts);
    assert w.visits == Chains(e, Starts(chains)).value;
    HitsAreMatching(w.visits, Flat(chains), segs, imgBase, target);
    IndexHolds(w.visits, Flat(chains), segs, imgBase);
  }

  // ---- the tables, in plain terms ----

  /** The fields of a stored pointer: 30 bits of target, 12 bits of distance from bit 51 on, the auth bit on top. */
  lemma StoredPointer(target: nat, other: nat, next: nat, auth: bool)
    requires target < 0x4000_0000 && other < 0x20_0000 && next < 0x1000
    ensures var raw := target + 0x4000_0000 * other + 0x8_0000_0000_0000 * next
                       + (if auth then 0x8000_0000_0000_0000 else 0);
      TargetBits(raw) == target && NextBits(raw) == next && AuthBit(raw) == (if auth then 1 else 0)
  {
    EncodeFields(Slot(0, target, other, auth), next);
  }

  ghost predicate Inside(s: Segment, f: nat) { s.fo <= f < s.fo + s.size }

  /** An address is that of the first segment the offset lies in. */
  lemma {:induction false} F2vExactly(segs: seq<Segment>, f: nat, k: nat)
    requires k <= |segs| && forall i :: 0 <= i < k ==> !Inside(segs[i], f)
    ensures k == |segs| ==> F2v(segs, f) == None
    ensures k < |segs| && Inside(segs[k], f) ==> F2v(segs, f) == Some(segs[k].vm + (f - segs[k].fo))
  {
    if k > 0 {
      assert !Inside(segs[0], f);
      assert forall i :: 0 <= i < k - 1 ==> segs[1..][i] == segs[i + 1];
      F2vExactly(segs[1..], f, k - 1);
    }
  }

  /** A page of a segment. */
  datatype PageAt = PageAt(segment: nat, page: nat)

  predicate HasChain(ts: seq<PageTable>, p: PageAt) {
    p.segment < |ts| && p.page < |ts[p.segment].starts| && ts[p.segment].starts[p.page] != 0xFFFF
  }

  function StartIn(ts: seq<PageTable>, p: PageAt): nat
    requires HasChain(ts, p)
  {
    var t := ts[p.segment];
    t.segoff + p.page * t.pageSize + t.starts[p.page]
  }

  predicate Before(p: PageAt, q: PageAt) { p.segment < q.segment || (p.segment == q.segment && p.page < q.page) }

  /** at lists the pages that have a chain, all of them and in order, and starts says where their chains start. */
  ghost predicate ListsPages(ts: seq<PageTable>, at: seq<PageAt>, starts: seq<nat>) {
    && |at| == |starts|
    && (forall c :: 0 <= c < |at| ==> HasChain(ts, at[c]) && starts[c] == StartIn(ts, at[c]))
    && (forall b, c :: 0 <= b < c < |at| ==> Before(at[b], at[c]))
    && forall p :: HasChain(ts, p) ==> p in at
  }

  lemma {:induction false} PagesOfTable(t: PageTable, n: nat) returns (at: seq<PageAt>)
    requires n <= |t.starts|
    ensures ListsPages([PageTable(t.segoff, t.pageSize, t.starts[..n])], at, StartsOf(t, n))
  {
    hide ListsPages, StartsOf;
    at := [];
    if n == 0 {
      NoPages(t);
    } else {
      var init := PagesOfTable(t, n - 1);
      at := if t.starts[n - 1] == NO_FIXUPS then init else init + [PageAt(0, n - 1)];
      StartsStep(t, n - 1);
      OneMorePage(t, n, init, StartsOf(t, n - 1));
    }
  }

  lemma NoPages(t: PageTable)
    ensures ListsPages([PageTable(t.segoff, t.pageSize, t.starts[..0])], [], StartsOf(t, 0))
  {
  }

  lemma OneMorePage(t: PageTable, n: nat, init: seq<PageAt>, starts: seq<nat>)
    requires 0 < n <= |t.starts| && ListsPages([PageTable(t.segoff, t.pageSize, t.starts[..n - 1])], init, starts)
    ensures var cut := [PageTable(t.segoff, t.pageSize, t.starts[..n])];
      if t.starts[n - 1] == 0xFFFF then ListsPages(cut, init, starts)
      else ListsPages(cut, init + [PageAt(0, n - 1)], starts + [t.segoff + (n - 1) * t.pageSize + t.starts[n - 1]])
  {
    var less := [PageTable(t.segoff, t.pageSize, t.starts[..n - 1])];
    var cut := [PageTable(t.segoff, t.pageSize, t.starts[..n])];
    forall p: PageAt
      ensures HasChain(cut, p) <==> HasChain(less, p) || (p == PageAt(0, n - 1) && t.starts[n - 1] != 0xFFFF)
      ensures HasChain(less, p) ==> StartIn(cut, p) == StartIn(less, p) && p.segment == 0 && p.page < n - 1
    {
    }
    assert forall c :: 0 <= c < |init| ==> HasChain(less, init[c]);
    if t.starts[n - 1] != 0xFFFF {
      assert StartIn(cut, PageAt(0, n - 1)) == t.segoff + (n - 1) * t.pageSize + t.starts[n - 1];
    }
  }

  function Shift(at: seq<PageAt>, n: nat): (r: seq<PageAt>)
    ensures |r| == |at| && forall c :: 0 <= c < |at| ==> r[c] == PageAt(n + at[c].segment, at[c].page)
  {
    seq(|at|, c requires 0 <= c < |at| => PageAt(n + at[c].segment, at[c].page))
  }

  lemma EntriesAppend(ts: seq<PageTable>, t: PageTable, at: seq<PageAt>, starts: seq<nat>, bt: seq<PageAt>,
                      more: seq<nat>, c: nat)
    requires ListsPages(ts, at, starts) && ListsPages([t], bt, more) && c < |at| + |bt|
    ensures var all, p := ts + [t], (at + Shift(bt, |ts|))[c];
      && HasChain(all, p) && (starts + more)[c] == StartIn(all, p)
      && (c < |at| ==> p.segment < |ts|) && (c >= |at| ==> p.segment == |ts|)
  {
    var all := ts + [t];
    if c < |at| {
      assert HasChain(ts, at[c]) && all[at[c].segment] == ts[at[c].segment];
    } else {
      assert HasChain([t], bt[c - |at|]) && bt[c - |at|].segment == 0 && all[|ts|] == t;
    }
  }

  lemma AllAppend(ts: seq<PageTable>, t: PageTable, at: seq<PageAt>, starts: seq<nat>, bt: seq<PageAt>, more: seq<nat>,
                  p: PageAt)
    requires ListsPages(ts, at, starts) && ListsPages([t], bt, more) && HasChain(ts + [t], p)
    ensures p in at + Shift(bt, |ts|)
  {
    var r := at + Shift(bt, |ts|);
    if p.segment < |ts| {
      assert (ts + [t])[p.segment] == ts[p.segment];
      assert HasChain(ts, p);
    } else {
      assert HasChain([t], PageAt(0, p.page));
      var c :| 0 <= c < |bt| && bt[c] == PageAt(0, p.page);
      assert r[|at| + c] == p;
    }
  }

  lemma OrderAppend(ts: seq<PageTable>, t: PageTable, at: seq<PageAt>, starts: seq<nat>, bt: seq<PageAt>,
                    more: seq<nat>, b: nat, c: nat)
    requires ListsPages(ts, at, starts) && ListsPages([t], bt, more) && b < c < |at| + |bt|
    ensures var r := at + Shift(bt, |ts|); Before(r[b], r[c])
  {
    if b >= |at| {
      assert Before(bt[b - |at|], bt[c - |at|]);
    } else if c < |at| {
      assert Before(at[b], at[c]);
    } else {
      assert HasChain(ts, at[b]);
    }
  }

  lemma PagesAppend(ts: seq<PageTable>, t: PageTable, at: seq<PageAt>, starts: seq<nat>, bt: seq<PageAt>,
                    more: seq<nat>)
    requires ListsPages(ts, at, starts) && ListsPages([t], bt, more)
    ensures ListsPages(ts + [t], at + Shift(bt, |ts|), starts + more)
  {
    hide HasChain, StartIn, Before;
    var all, r := ts + [t], at + Shift(bt, |ts|);
    forall c | 0 <= c < |r|
      ensures HasChain(all, r[c]) && (starts + more)[c] == StartIn(all, r[c])
    {
      EntriesAppend(ts, t, at, starts, bt, more, c);
    }
    forall b, c | 0 <= b < c < |r|
      ensures Before(r[b], r[c])
    {
      OrderAppend(ts, t, at, starts, bt, more, b, c);
    }
    forall p: PageAt | HasChain(all, p)
      ensures p in r
    {
      AllAppend(ts, t, at, starts, bt, more, p);
    }
  }

  /** The walk starts a chain in every page of every segment that has one, in order, and nowhere else: where the page
      begins in the file plus the offset stored for it. */
  lemma {:induction false} StartsByPages(ts: seq<PageTable>) returns (at: seq<PageAt>)
    ensures ListsPages(ts, at, AllStarts(ts))
    decreases |ts|
  {
    at := [];
    if ts != [] {
      hide ListsPages, StartsOf;
      var n := |ts| - 1;
      var t := ts[n];
      var init := StartsByPages(ts[..n]);
      var pages := PagesOfTable(t, |t.starts|);
      assert t.starts[..|t.starts|] == t.starts;
      PagesAppend(ts[..n], t, init, AllStarts(ts[..n]), pages, StartsOf(t, |t.starts|));
      at := init + Shift(pages, n);
      assert ts[..n] + [t] == ts;
    }
  }
}
