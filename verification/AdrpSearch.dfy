/** The address searches: ADRP+ADD pairs and direct calls, in the three scripts that decode them by hand. */
module AdrpSearch {
  import opened Wrappers
  import opened Words
  import A64

  predicate IsAdrp(w: u32) { w / 0x8000_0000 == 1 && w / 0x100_0000 % 32 == 16 }
  predicate IsAdr(w: u32) { w / 0x8000_0000 == 0 && w / 0x100_0000 % 32 == 16 }
  /** ADD (immediate), 64-bit */
  predicate IsAdd(w: u32) { w / 0x80_0000 == 0x122 }
  predicate IsAddUnshifted(w: u32) { w / 0x40_0000 == 0x244 }
  /** LDR/STR (unsigned offset) */
  predicate IsLoadStore(w: u32) { w / 0x800_0000 % 8 == 7 && w / 0x100_0000 % 4 == 1 }

  function Rd(w: u32): (r: nat)
    ensures r < 32
  {
    w % 32
  }

  function Rn(w: u32): (r: nat)
    ensures r < 32
  {
    w / 32 % 32
  }

  function ImmHi(w: u32): nat { w / 32 % 0x8_0000 }
  function ImmLo(w: u32): nat { w / 0x2000_0000 % 4 }
  function Imm12(w: u32): nat { w / 0x400 % 0x1000 }

  /** v & ~0xFFF */
  function PageOf(v: int): int { v - v % 0x1000 }

  // ---- the three displacement decoders ----

  /** darwinvm_patch_img4_magazine: the byte displacement, sign in bit 32. */
  function DisplacementA(w: u32): int {
    var imm: int := Or(ImmHi(w) * 0x4000, ImmLo(w) * 0x1000);
    if imm / 0x1_0000_0000 % 2 == 1 then imm - 0x2_0000_0000 else imm
  }

  /** xref_fast: sxt(v, bits) */
  function Sxt(v: nat, bits: nat): int
    requires bits > 0
  {
    if v / Pow2(bits - 1) % 2 == 1 then v - Pow2(bits) else v
  }

  function DisplacementB(w: u32): int { Sxt(Or(ImmHi(w) * 4, ImmLo(w)), 21) * 0x1000 }

  /** cl4dis */
  function DisplacementC(w: u32): int {
    var imm: int := Or(ImmHi(w) * 4, ImmLo(w));
    (if imm / 0x10_0000 % 2 == 1 then imm - 0x20_0000 else imm) * 0x1000
  }

  /** The architecture's reading: a signed 21-bit page count (DDI 0487, section C6.2, ADRP). */
  function Displacement(w: u32): int { A64.Signed(ImmHi(w) * 4 + ImmLo(w), 0x10_0000) * 0x1000 }

  lemma Pow2Small()
    ensures Pow2(2) == 4 && Pow2(12) == 0x1000 && Pow2(14) == 0x4000 && Pow2(20) == 0x10_0000 && Pow2(21) == 0x20_0000
  {
    assert Pow2(2) == 4 && Pow2(6) == 64 && Pow2(8) == 256;
    Pow2Add(6, 6);
    Pow2Add(12, 2);
    Pow2Add(12, 8);
    assert Pow2(21) == 2 * Pow2(20);
  }

  /** On every word the three decoders agree with each other and with the architecture. */
  lemma DecodersAgree(w: u32)
    ensures DisplacementA(w) == DisplacementB(w) == DisplacementC(w) == Displacement(w)
  {
    hide Or, Pow2;
    Pow2Small();
    OrDisjoint(ImmHi(w), ImmLo(w) * 0x1000, 14);
    OrDisjoint(ImmHi(w), ImmLo(w), 2);
  }

  function AdrpPage(w: u32, pc: int): int { PageOf(pc) + Displacement(w) }

  // ---- _find_adrp_add_xref ----

  /** The pair at word i forms the address target; register agreement is not looked at. */
  predicate PairForms(words: seq<u32>, vm: int, i: nat, target: nat)
    requires i + 1 < |words|
  {
    && IsAdrp(words[i]) && IsAddUnshifted(words[i + 1])
    && AdrpPage(words[i], vm + 4 * i) + Imm12(words[i + 1]) == target
  }

  lemma PageAndOffset(page: int, imm: nat, target: nat)
    requires page % 0x1000 == 0 && imm < 0x1000
    ensures page == PageOf(target) && imm == target % 0x1000 <==> page + imm == target
  {
  }

  lemma PageAligned(w: u32, pc: int)
    ensures AdrpPage(w, pc) % 0x1000 == 0
  {
    hide A64.Signed, ImmHi, ImmLo;
    var k := A64.Signed(ImmHi(w) * 4 + ImmLo(w), 0x10_0000);
    assert PageOf(pc) == pc / 0x1000 * 0x1000;
    assert AdrpPage(w, pc) == (pc / 0x1000 + k) * 0x1000;
  }

  // ---- what an accepted pair does ----

  /** The machine is at pair i of the segment, which is in memory. */
  ghost predicate AtPair(s: A64.State, words: seq<u32>, vm: int, i: nat)
    requires i + 1 < |words|
  {
    && s.pc == vm + 4 * i && s.pc + 8 < TWO64
    && A64.Word32(s.mem, s.pc) == words[i] && A64.Word32(s.mem, s.pc + 4) == words[i + 1]
  }

  /** The ADD works on what the ADRP produced. */
  predicate RegistersAgree(a: u32, b: u32) { Rd(a) == Rn(b) && Rd(a) != 31 }

  lemma PairDecodes(a: u32, b: u32)
    requires IsAdrp(a) && IsAddUnshifted(b)
    ensures A64.Decode(a) == Some(A64.Adrp(Rd(a), Displacement(a)))
    ensures A64.Decode(b) == Some(A64.AddImm(Rd(b), Rn(b), Imm12(b)))
  {
    DecodesAdrp(a);
    DecodesAdd(b);
  }

  lemma DecodesAdd(b: u32)
    requires IsAddUnshifted(b)
    ensures A64.Decode(b) == Some(A64.AddImm(Rd(b), Rn(b), Imm12(b)))
  {
    hide A64.Signed;
  }

  lemma DecodesAdrp(a: u32)
    requires IsAdrp(a)
    ensures A64.Decode(a) == Some(A64.Adrp(Rd(a), Displacement(a)))
  {
    hide A64.Signed;
    var top8 := a / 0x100_0000;
    assert top8 % 32 == 16 && 128 <= top8 < 256;
    assert a / 0x20_0000 / 8 == top8 && a / 0x40_0000 / 4 == top8 && a / 0x400_0000 == top8 / 4;
    assert a / 0x400 / 0x4000 == top8;
  }

  /** Executing an accepted pair leaves in the ADD's destination the address when the registers agree, and otherwise the
      ADD's base register as it was plus the offset. */
  lemma PairExecutes(words: seq<u32>, vm: int, i: nat, target: u64, s: A64.State, pac: A64.Pac)
    requires i + 1 < |words| && PairForms(words, vm, i, target) && AtPair(s, words, vm, i)
    ensures var t := A64.Steps(s, 2, pac); var b := words[i + 1];
      && t.Some? && A64.XSp(t.value, Rd(b))
        == if RegistersAgree(words[i], b) then target else A64.Wrap(A64.XSp(s, Rn(b)) + Imm12(b))
  {
    hide A64.Decode, A64.Word32, Displacement, IsAdrp, IsAddUnshifted, Imm12;
    var a, b := words[i], words[i + 1];
    PairDecodes(a, b);
    Imm12Bound(b);
    A64.WrapSmall(s.pc + 4);
    A64.WrapSmall(s.pc + 8);
    A64.WrapSmall(target);
    var s1 := A64.Exec(A64.Adrp(Rd(a), Displacement(a)), s, pac);
    assert A64.Step(s, pac) == Some(s1);
    assert s1.pc == s.pc + 4 && s1.mem == s.mem;
    var s2 := A64.Exec(A64.AddImm(Rd(b), Rn(b), Imm12(b)), s1, pac);
    assert A64.Step(s1, pac) == Some(s2);
    A64.TwoSteps(s, s1, s2, pac);
    WrapSum(AdrpPage(a, s.pc), Imm12(b));
  }

  lemma WrapSum(page: int, imm: nat)
    ensures A64.Wrap(A64.Wrap(page) + imm) == A64.Wrap(page + imm)
  {
    var q := page / TWO64;
    assert page == q * TWO64 + A64.Wrap(page);
    WrapShift(A64.Wrap(page) + imm, q);
  }

  lemma WrapShift(v: int, q: int)
    ensures A64.Wrap(v + q * TWO64) == A64.Wrap(v)
  {
  }

  /** An accepted pair computes the address, whatever the registers hold, exactly when its registers agree. */
  lemma PairComputes(words: seq<u32>, vm: int, i: nat, target: u64, s: A64.State, pac: A64.Pac)
    requires i + 1 < |words| && PairForms(words, vm, i, target) && AtPair(s, words, vm, i)
    ensures (forall x: A64.Regs, sp: u64 ::
        var t := A64.Steps(s.(x := x, sp := sp), 2, pac); t.Some? && A64.XSp(t.value, Rd(words[i + 1])) == target)
      <==> RegistersAgree(words[i], words[i + 1])
  {
    hide A64.Steps, A64.Word32, PairForms, Rd, Rn, Imm12;
    var b := words[i + 1];
    forall x: A64.Regs, sp: u64
      ensures var t := A64.Steps(s.(x := x, sp := sp), 2, pac);
        && t.Some? && A64.XSp(t.value, Rd(b))
          == if RegistersAgree(words[i], b) then target else A64.Wrap(A64.XSp(s.(x := x, sp := sp), Rn(b)) + Imm12(b))
    {
      PairExecutes(words, vm, i, target, s.(x := x, sp := sp), pac);
    }
    if !RegistersAgree(words[i], b) {
      var v: u64 := if A64.Wrap(0 + Imm12(b)) == target then 1 else 0;
      assert A64.Wrap(v + Imm12(b)) != target by { WrapNext(Imm12(b)); }
      var x: A64.Regs := seq(31, _ => v);
      assert A64.XSp(s.(x := x, sp := v), Rn(b)) == v;
    }
  }

  lemma WrapNext(n: int)
    ensures A64.Wrap(0 + n) != A64.Wrap(1 + n)
  {
  }

  /** A pair the patcher accepts although its ADD uses another register: adrp x0, . ; add x1, x2, #0. */
  lemma MismatchedPair()
    ensures PairForms([0x9000_0000, 0x9100_0041], 0x1000, 0, 0x1000) && !RegistersAgree(0x9000_0000, 0x9100_0041)
  {
    var a: u32, b: u32 := 0x9000_0000, 0x9100_0041;
    assert IsAdrp(a) && IsAddUnshifted(b) && Imm12(b) == 0 && Rd(a) == 0 && Rn(b) == 2;
    assert ImmHi(a) == 0 && ImmLo(a) == 0;
    hide IsAdrp, IsAddUnshifted, Imm12, Rd, Rn, ImmHi, ImmLo;
    assert Displacement(a) == 0;
    assert [a, b][0] == a && [a, b][0 + 1] == b;
  }

  // ---- the search for a pair ----

  /** The first pair that forms the address, or -1; the last eight bytes of the segment are not scanned. */
  method FindAdrpAddXref(words: seq<u32>, size: nat, vm: int, target: nat) returns (r: int)
    requires |words| == size / 4
    ensures r == -1 || 0 <= r
    ensures r >= 0 ==> 4 * r + 8 < size && PairForms(words, vm, r, target)
    ensures forall i :: 0 <= i && 4 * i + 8 < size && (r >= 0 ==> i < r) ==> !PairForms(words, vm, i, target)
  {
    hide Displacement, DisplacementA, IsAdrp, IsAddUnshifted, Imm12, PageOf;
    var targetPage, targetOff := target - target % 0x1000, target % 0x1000;
    var i := 0;
    while 4 * i + 8 < size
      invariant 0 <= i
      invariant forall k :: 0 <= k < i && 4 * k + 8 < size ==> !PairForms(words, vm, k, target)
    {
      var a, b := words[i], words[i + 1];
      if IsAdrp(a) && IsAddUnshifted(b) {
        DecodersAgree(a);
        PageAligned(a, vm + 4 * i);
        Imm12Bound(b);
        PageAndOffset(AdrpPage(a, vm + 4 * i), Imm12(b), target);
        var page := PageOf(vm + 4 * i) + DisplacementA(a);
        if page == PageOf(target) && Imm12(b) == targetOff {
          return i;
        }
      }
      i := i + 1;
    }
    return -1;
  }

  lemma Imm12Bound(w: u32)
    ensures Imm12(w) < 0x1000
  {
  }

  // ---- find_xrefs ----

  datatype Kind = AdrpAdd | AdrKind | AdrpMem
  datatype Xref = Xref(site: int, kind: Kind, target: int)

  /** The page each register was last given by an ADRP. */
  type Pages = p: seq<Option<int>> | |p| == 32 witness seq(32, i => None)

  function NoPages(): Pages { seq(32, i => None) }

  function AddImm(w: u32): nat { if w / 0x40_0000 % 2 == 1 then Imm12(w) * 0x1000 else Imm12(w) }

  function Scale(w: u32): nat {
    var size := w / 0x4000_0000;
    if size == 0 then 1 else if size == 1 then 2 else if size == 2 then 4 else 8
  }

  /** The page table after one word. */
  function Track(w: u32, pc: int, pages: Pages): Pages {
    if IsAdrp(w) then pages[Rd(w) := Some(AdrpPage(w, pc))]
    else if !IsAdd(w) && IsAdr(w) then pages[Rd(w) := None]
    else pages
  }

  /** What one word reports. */
  function Report(w: u32, pc: int, pages: Pages, targets: set<int>): seq<Xref> {
    if IsAdrp(w) then []
    else if IsAdd(w) then
      if pages[Rn(w)].Some? && pages[Rn(w)].value + AddImm(w) in targets
      then [Xref(pc, AdrpAdd, pages[Rn(w)].value + AddImm(w))] else []
    else if IsAdr(w) then
      var t := pc + Displacement(w) / 0x1000;
      if t in targets then [Xref(pc, AdrKind, t)] else []
    else if IsLoadStore(w) then
      if pages[Rn(w)].Some? && pages[Rn(w)].value + Imm12(w) * Scale(w) in targets
      then [Xref(pc, AdrpMem, pages[Rn(w)].value + Imm12(w) * Scale(w))] else []
    else []
  }

  function PagesAfter(words: seq<u32>, vm: int, n: nat): Pages
    requires n <= |words|
  {
    if n == 0 then NoPages() else Track(words[n - 1], vm + 4 * (n - 1), PagesAfter(words, vm, n - 1))
  }

  function Xrefs(words: seq<u32>, vm: int, targets: set<int>, n: nat): seq<Xref>
    requires n <= |words|
  {
    if n == 0 then []
    else Xrefs(words, vm, targets, n - 1)
         + Report(words[n - 1], vm + 4 * (n - 1), PagesAfter(words, vm, n - 1), targets)
  }

  /** One word of the scan. */
  method ScanWord(w: u32, pc: int, pages: Pages, targets: set<int>) returns (pages': Pages, found: seq<Xref>)
    ensures pages' == Track(w, pc, pages) && found == Report(w, pc, pages, targets)
  {
    hide Displacement, DisplacementA, DisplacementB, DisplacementC, IsAdrp, IsAdd, IsAdr, IsLoadStore, Imm12, AddImm,
         Scale, Rd, Rn, PageOf;
    DecodersAgree(w);
    pages', found := pages, [];
    if IsAdrp(w) {
      pages' := pages[Rd(w) := Some(PageOf(pc) + DisplacementB(w))];
    } else if IsAdd(w) {
      if pages[Rn(w)].Some? {
        var tv := pages[Rn(w)].value + AddImm(w);
        if tv in targets {
          found := [Xref(pc, AdrpAdd, tv)];
        }
      }
    } else if IsAdr(w) {
      var tv := pc + DisplacementB(w) / 0x1000;
      if tv in targets {
        found := [Xref(pc, AdrKind, tv)];
      }
      pages' := pages[Rd(w) := None];
    } else if IsLoadStore(w) {
      if pages[Rn(w)].Some? {
        var tv := pages[Rn(w)].value + Imm12(w) * Scale(w);
        if tv in targets {
          found := [Xref(pc, AdrpMem, tv)];
        }
      }
    }
  }

  method FindXrefs(words: seq<u32>, vm: int, targets: set<int>) returns (res: seq<Xref>)
    ensures res == Xrefs(words, vm, targets, |words|)
  {
    hide Track, Report;
    res := [];
    var pages := NoPages();
    for i := 0 to |words|
      invariant pages == PagesAfter(words, vm, i)
      invariant res == Xrefs(words, vm, targets, i)
    {
      var found;
      pages, found := ScanWord(words[i], vm + 4 * i, pages, targets);
      res := res + found;
    }
  }

  /** Word i gave register r that page and no later ADRP or ADR before word n changed it. */
  ghost predicate SetsPage(words: seq<u32>, vm: int, n: nat, i: nat, r: nat, page: int) {
    && i < n <= |words| && IsAdrp(words[i]) && Rd(words[i]) == r && AdrpPage(words[i], vm + 4 * i) == page
    && forall k :: i < k < n ==> !(Rd(words[k]) == r && (IsAdrp(words[k]) || (!IsAdd(words[k]) && IsAdr(words[k]))))
  }

  /** The last word before n to give register r an address or page gave it that page. */
  ghost predicate HoldsPage(words: seq<u32>, vm: int, n: nat, r: nat, page: int) {
    exists i: nat :: SetsPage(words, vm, n, i, r, page)
  }

  /** The page table remembers the last ADRP of each register. */
  lemma {:induction false} PagesExactly(words: seq<u32>, vm: int, n: nat, r: nat, page: int)
    requires n <= |words| && r < 32
    ensures PagesAfter(words, vm, n)[r] == Some(page) <==> HoldsPage(words, vm, n, r, page)
    decreases n
  {
    hide IsAdrp, IsAdr, IsAdd, AdrpPage, Rd;
    if n > 0 {
      PagesExactly(words, vm, n - 1, r, page);
      var w := words[n - 1];
      forall i: nat | SetsPage(words, vm, n, i, r, page) && i < n - 1
        ensures SetsPage(words, vm, n - 1, i, r, page)
      {
      }
      if PagesAfter(words, vm, n)[r] == Some(page) {
        if IsAdrp(w) && Rd(w) == r {
          assert SetsPage(words, vm, n, n - 1, r, page);
        } else {
          var i: nat :| SetsPage(words, vm, n - 1, i, r, page);
          assert SetsPage(words, vm, n, i, r, page);
        }
      }
    }
  }

  /** The word at j refers to an address as x says: an ADD or a load or store completes a page that an earlier ADRP put
      into its base register, or an ADR names the address itself. */
  ghost predicate Refers(words: seq<u32>, vm: int, j: nat, x: Xref) {
    && j < |words| && x.site == vm + 4 * j
    && var w := words[j];
    match x.kind
    case AdrpAdd => IsAdd(w) && HoldsPage(words, vm, j, Rn(w), x.target - AddImm(w))
    case AdrKind => IsAdr(w) && x.target == x.site + Displacement(w) / 0x1000
    case AdrpMem => IsLoadStore(w) && HoldsPage(words, vm, j, Rn(w), x.target - Imm12(w) * Scale(w))
  }

  lemma KindsApart(w: u32)
    ensures !(IsAdrp(w) && IsAdr(w)) && !(IsAdrp(w) && IsAdd(w)) && !(IsAdr(w) && IsAdd(w))
    ensures IsLoadStore(w) ==> !IsAdrp(w) && !IsAdr(w) && !IsAdd(w)
  {
    assert w / 0x80_0000 / 2 == w / 0x100_0000;
    assert w / 0x800_0000 == w / 0x100_0000 / 8;
  }

  lemma ReportExactly(words: seq<u32>, vm: int, targets: set<int>, j: nat, x: Xref)
    requires j < |words|
    ensures x in Report(words[j], vm + 4 * j, PagesAfter(words, vm, j), targets)
      <==> x.target in targets && Refers(words, vm, j, x)
  {
    hide IsAdrp, IsAdr, IsAdd, IsLoadStore, AdrpPage, Rd, Rn, AddImm, HoldsPage, Imm12, Scale, Displacement, PagesAfter;
    var w := words[j];
    KindsApart(w);
    if x.kind == AdrpAdd {
      PagesExactly(words, vm, j, Rn(w), x.target - AddImm(w));
    } else if x.kind == AdrpMem {
      PagesExactly(words, vm, j, Rn(w), x.target - Imm12(w) * Scale(w));
    }
  }

  /** The scan reports exactly the requested addresses that some scanned word refers to, of all three kinds. */
  lemma {:induction false} XrefsExactly(words: seq<u32>, vm: int, targets: set<int>, n: nat, x: Xref)
    requires n <= |words|
    ensures x in Xrefs(words, vm, targets, n)
      <==> x.target in targets && exists j: nat :: j < n && Refers(words, vm, j, x)
    decreases n
  {
    hide Report, Refers, PagesAfter;
    if n > 0 {
      XrefsExactly(words, vm, targets, n - 1, x);
      ReportExactly(words, vm, targets, n - 1, x);
    }
  }

  lemma {:induction false} XrefsGrow(words: seq<u32>, vm: int, targets: set<int>, m: nat, n: nat)
    requires m <= n <= |words|
    ensures Xrefs(words, vm, targets, m) <= Xrefs(words, vm, targets, n)
    decreases n
  {
    hide Report, PagesAfter;
    if m < n {
      XrefsGrow(words, vm, targets, m, n - 1);
    }
  }

  /** A pair the string patcher accepts is reported by the cross-reference scanner when its registers match. */
  lemma PairIsReported(words: seq<u32>, vm: int, targets: set<int>, i: nat, target: nat)
    requires i + 1 < |words| && PairForms(words, vm, i, target) && target in targets
    requires Rd(words[i]) == Rn(words[i + 1])
    ensures Xref(vm + 4 * (i + 1), AdrpAdd, target) in Xrefs(words, vm, targets, |words|)
  {
    hide AdrpPage, Imm12, Rd, Rn, IsAdrp, IsAdd, IsAddUnshifted, IsAdr, IsLoadStore, AddImm, Xrefs;
    XrefsGrow(words, vm, targets, i + 2, |words|);
    var a, b := words[i], words[i + 1];
    UnshiftedAdd(b);
    assert PagesAfter(words, vm, i + 1)[Rd(a)] == Some(AdrpPage(a, vm + 4 * i));
    LastReport(words, vm, targets, i + 1, Xref(vm + 4 * (i + 1), AdrpAdd, target));
    var x := Xrefs(words, vm, targets, i + 2);
    assert x[|x| - 1] == Xrefs(words, vm, targets, |words|)[|x| - 1];
  }

  lemma LastReport(words: seq<u32>, vm: int, targets: set<int>, n: nat, x: Xref)
    requires n < |words| && Report(words[n], vm + 4 * n, PagesAfter(words, vm, n), targets) == [x]
    ensures var r := Xrefs(words, vm, targets, n + 1); r != [] && r[|r| - 1] == x
  {
    hide Report, PagesAfter;
  }

  lemma UnshiftedAdd(w: u32)
    requires IsAddUnshifted(w)
    ensures IsAdd(w) && !IsAdrp(w) && AddImm(w) == Imm12(w)
  {
  }

  // ---- cl4dis ----

  /** All ADRP sites whose page is that of the given address, with their registers. */
  function AdrpSites(words: seq<u32>, vm: int, page: int, n: nat): seq<(int, nat)>
    requires n <= |words|
  {
    if n == 0 then []
    else
      var w := words[n - 1];
      AdrpSites(words, vm, page, n - 1)
      + if IsAdrp(w) && AdrpPage(w, vm + 4 * (n - 1)) == PageOf(page) then [(vm + 4 * (n - 1), Rd(w))] else []
  }

  lemma SitesStep(words: seq<u32>, vm: int, page: int, n: nat)
    requires n < |words|
    ensures AdrpSites(words, vm, page, n + 1) == AdrpSites(words, vm, page, n)
      + if IsAdrp(words[n]) && AdrpPage(words[n], vm + 4 * n) == PageOf(page) then [(vm + 4 * n, Rd(words[n]))] else []
  {
    hide AdrpPage, IsAdrp, PageOf, Rd;
  }

  lemma PageByC(w: u32, pc: int)
    ensures PageOf(pc) + DisplacementC(w) == AdrpPage(w, pc)
  {
    hide PageOf, Displacement, DisplacementC;
    DecodersAgree(w);
  }

  method FindAdrpTo(words: seq<u32>, vm: int, page: int) returns (out: seq<(int, nat)>)
    ensures out == AdrpSites(words, vm, page, |words|)
  {
    hide DisplacementC, IsAdrp, PageOf, AdrpPage, Rd, AdrpSites;
    out := [];
    NoSites(words, vm, page);
    for i := 0 to |words|
      invariant out == AdrpSites(words, vm, page, i)
    {
      var w := words[i];
      SitesStep(words, vm, page, i);
      PageByC(w, vm + 4 * i);
      if IsAdrp(w) {
        var base := PageOf(vm + 4 * i) + DisplacementC(w);
        if base == PageOf(page) {
          out := out + [(vm + 4 * i, Rd(w))];
        }
      }
    }
  }

  lemma NoSites(words: seq<u32>, vm: int, page: int)
    ensures AdrpSites(words, vm, page, 0) == []
  {
  }

  /** Every pair forming an address starts at a site that the page scan lists. */
  lemma {:induction false} PairStartsAtSite(words: seq<u32>, vm: int, i: nat, target: nat, n: nat)
    requires i < n <= |words| && i + 1 < |words| && PairForms(words, vm, i, target)
    ensures (vm + 4 * i, Rd(words[i])) in AdrpSites(words, vm, target, n)
    decreases n
  {
    hide AdrpPage, IsAdrp, IsAddUnshifted, Rd;
    if i < n - 1 {
      PairStartsAtSite(words, vm, i, target, n - 1);
    } else {
      PageAligned(words[i], vm + 4 * i);
      Imm12Bound(words[i + 1]);
      PageAndOffset(AdrpPage(words[i], vm + 4 * i), Imm12(words[i + 1]), target);
    }
  }

  function CallSites(words: seq<u32>, vm: int, target: int, n: nat): seq<int>
    requires n <= |words|
  {
    if n == 0 then []
    else
      CallSites(words, vm, target, n - 1)
      + match A64.Decode(words[n - 1])
        case Some(Bl(off)) => if vm + 4 * (n - 1) + off == target then [vm + 4 * (n - 1)] else []
        case _ => []
  }

  /** find_bl: the sites where the machine would execute a BL to the target. */
  method FindBl(words: seq<u32>, vm: int, target: int) returns (out: seq<int>)
    ensures out == CallSites(words, vm, target, |words|)
  {
    hide A64.Decode;
    out := [];
    for i := 0 to |words|
      invariant out == CallSites(words, vm, target, i)
    {
      var w := words[i];
      BlWord(w);
      if w / 0x400_0000 == 0x25 {
        var imm: int := w % 0x400_0000;
        if imm / 0x200_0000 % 2 == 1 {
          imm := imm - 0x400_0000;
        }
        if vm + 4 * i + imm * 4 == target {
          out := out + [vm + 4 * i];
        }
      }
    }
  }

  lemma BlWord(w: u32)
    ensures var imm: int := w % 0x400_0000;
      var off := 4 * (if imm / 0x200_0000 % 2 == 1 then imm - 0x400_0000 else imm);
      A64.Decode(w) == Some(A64.Bl(off)) <==> w / 0x400_0000 == 0x25
    ensures A64.Decode(w).Some? && A64.Decode(w).value.Bl? ==> w / 0x400_0000 == 0x25
  {
    var imm: int := w % 0x400_0000;
    assert A64.Signed(imm, 0x200_0000) == if imm / 0x200_0000 % 2 == 1 then imm - 0x400_0000 else imm;
    hide A64.Signed;
    if w / 0x400_0000 == 0x25 {
      assert w / 0x100_0000 / 4 == 0x25 && w / 0x20_0000 / 32 == 0x25 && w / 0x40_0000 / 16 == 0x25;
    }
  }

  // ---- the instruction words, field by field (DDI 0487, section C6.2) ----

  /** ADRP, or ADR when page is false, with its 21-bit immediate split into two low and nineteen high bits. */
  function AdrWord(page: bool, imm21: nat, rd: nat): int {
    (if page then 0x9000_0000 else 0x1000_0000) + 0x2000_0000 * (imm21 % 4) + 0x20 * (imm21 / 4) + rd
  }

  /** ADD Xd, Xn, #imm12, shifted left by twelve when sh is 1. */
  function AddWord(sh: nat, imm12: nat, rn: nat, rd: nat): int {
    0x9100_0000 + 0x40_0000 * sh + 0x400 * imm12 + 0x20 * rn + rd
  }

  /** A load or store of a general or vector register with an unsigned scaled offset. */
  function MemWord(size: nat, vector: nat, opc: nat, imm12: nat, rn: nat, rt: nat): int {
    0x3900_0000 + 0x4000_0000 * size + 0x400_0000 * vector + 0x40_0000 * opc + 0x400 * imm12 + 0x20 * rn + rt
  }

  lemma AdrWordRead(page: bool, imm21: nat, rd: nat)
    requires imm21 < 0x20_0000 && rd < 32
    ensures var w := AdrWord(page, imm21, rd);
      && 0 <= w < 0x1_0000_0000 && IsAdrp(w) == page && IsAdr(w) == !page && Rd(w) == rd
      && Displacement(w) == 0x1000 * (if imm21 < 0x10_0000 then imm21 else imm21 - 0x20_0000)
  {
    var w := AdrWord(page, imm21, rd);
    var top: nat, lo: nat, hi: nat := if page then 1 else 0, imm21 % 4, imm21 / 4;
    AdrFields(top, lo, hi, rd);
    assert w == 0x8000_0000 * top + 0x2000_0000 * lo + 0x1000_0000 + 0x20 * hi + rd;
    assert ImmHi(w) * 4 + ImmLo(w) == imm21;
  }

  lemma AdrFields(top: nat, lo: nat, hi: nat, rd: nat)
    requires top < 2 && lo < 4 && hi < 0x8_0000 && rd < 32
    ensures var w := 0x8000_0000 * top + 0x2000_0000 * lo + 0x1000_0000 + 0x20 * hi + rd;
      && 0 <= w < 0x1_0000_0000 && w / 0x8000_0000 == top && w / 0x100_0000 % 32 == 16
      && w % 32 == rd && w / 32 % 0x8_0000 == hi && w / 0x2000_0000 % 4 == lo
  {
    var w := 0x8000_0000 * top + 0x2000_0000 * lo + 0x1000_0000 + 0x20 * hi + rd;
    assert w / 0x2000_0000 == 4 * top + lo;
    assert w / 0x100_0000 == 128 * top + 32 * lo + 16;
    assert w / 32 == 0x400_0000 * top + 0x100_0000 * lo + 0x80_0000 + hi;
    assert w / 32 == 0x8_0000 * (128 * top + 32 * lo + 16) + hi;
  }

  lemma AddWordRead(sh: nat, imm12: nat, rn: nat, rd: nat)
    requires sh < 2 && imm12 < 4096 && rn < 32 && rd < 32
    ensures var w := AddWord(sh, imm12, rn, rd);
      && 0 <= w < 0x1_0000_0000 && IsAdd(w) && Rd(w) == rd && Rn(w) == rn
      && AddImm(w) == (if sh == 1 then 4096 * imm12 else imm12) && (IsAddUnshifted(w) <==> sh == 0)
  {
    var w := AddWord(sh, imm12, rn, rd);
    assert w / 0x40_0000 == 0x244 + sh;
    assert w / 0x400 == 0x1000 * (0x244 + sh) + imm12;
    assert w / 32 == 32 * (0x1000 * (0x244 + sh) + imm12) + rn;
    assert w / 0x80_0000 == w / 0x40_0000 / 2;
  }

  lemma MemWordRead(size: nat, vector: nat, opc: nat, imm12: nat, rn: nat, rt: nat)
    requires size < 4 && vector < 2 && opc < 4 && imm12 < 4096 && rn < 32 && rt < 32
    ensures var w := MemWord(size, vector, opc, imm12, rn, rt);
      && 0 <= w < 0x1_0000_0000 && IsLoadStore(w) && Rn(w) == rn && Imm12(w) == imm12
      && Scale(w) == (if size == 0 then 1 else if size == 1 then 2 else if size == 2 then 4 else 8)
  {
    var w := MemWord(size, vector, opc, imm12, rn, rt);
    var top := 0xE4 + 0x100 * size + 0x10 * vector + opc;
    assert w / 0x40_0000 == top;
    assert w / 0x400 == 0x1000 * top + imm12;
    assert w / 32 == 32 * (0x1000 * top + imm12) + rn;
    assert w / 0x100_0000 == w / 0x40_0000 / 4 && w / 0x800_0000 == w / 0x100_0000 / 8;
    assert w / 0x100_0000 == 0x39 + 0x40 * size + 4 * vector;
    assert w / 0x800_0000 == 7 + 8 * size;
    assert w / 0x4000_0000 == size;
  }

  /** Nothing else is taken for one of these. */
  lemma WordsExactly(w: u32)
    ensures IsAdrp(w) || IsAdr(w) ==> w == AdrWord(IsAdrp(w), 4 * ImmHi(w) + ImmLo(w), Rd(w))
    ensures IsAdd(w) ==> w == AddWord(w / 0x40_0000 % 2, Imm12(w), Rn(w), Rd(w))
    ensures IsLoadStore(w) ==>
      w == MemWord(w / 0x4000_0000, w / 0x400_0000 % 2, w / 0x40_0000 % 4, Imm12(w), Rn(w), Rd(w))
  {
    LowFields(w);
    if IsAdrp(w) || IsAdr(w) {
      AdrSum(w);
    }
    if IsAdd(w) {
      AddSum(w);
    }
    if IsLoadStore(w) {
      MemSum(w);
    }
  }

  lemma LowFields(w: u32)
    ensures w == 0x40_0000 * (w / 0x40_0000) + 0x400 * Imm12(w) + 0x20 * Rn(w) + Rd(w)
    ensures w == 0x100_0000 * (w / 0x100_0000) + 0x20 * ImmHi(w) + Rd(w)
  {
    assert w / 32 / 32 == w / 0x400 && w / 0x400 / 4096 == w / 0x40_0000;
    assert w / 32 / 0x8_0000 == w / 0x100_0000;
  }

  lemma AdrSum(w: u32)
    requires IsAdrp(w) || IsAdr(w)
    ensures w == AdrWord(IsAdrp(w), 4 * ImmHi(w) + ImmLo(w), Rd(w))
  {
    hide IsAdrp, IsAdr, ImmLo, ImmHi, Imm12, Rn, Rd;
    LowFields(w);
    AdrTop(w);
    Joined(ImmHi(w), ImmLo(w));
  }

  lemma Joined(hi: nat, lo: nat)
    requires lo < 4
    ensures (4 * hi + lo) % 4 == lo && (4 * hi + lo) / 4 == hi
  {
  }

  lemma AdrTop(w: u32)
    requires IsAdrp(w) || IsAdr(w)
    ensures w / 0x100_0000 == 128 * (w / 0x8000_0000) + 32 * ImmLo(w) + 16
    ensures w / 0x8000_0000 == if IsAdrp(w) then 1 else 0
    ensures ImmLo(w) < 4
  {
    var t := w / 0x100_0000;
    assert t / 32 == w / 0x2000_0000 && t / 32 / 4 == w / 0x8000_0000;
  }

  lemma AddSum(w: u32)
    requires IsAdd(w)
    ensures w == AddWord(w / 0x40_0000 % 2, Imm12(w), Rn(w), Rd(w))
  {
    LowFields(w);
    assert w / 0x40_0000 / 2 == w / 0x80_0000;
  }

  lemma MemSum(w: u32)
    requires IsLoadStore(w)
    ensures w == MemWord(w / 0x4000_0000, w / 0x400_0000 % 2, w / 0x40_0000 % 4, Imm12(w), Rn(w), Rd(w))
  {
    LowFields(w);
    var t := w / 0x100_0000;
    assert w / 0x40_0000 / 4 == t && t / 4 == w / 0x400_0000 && t / 8 == w / 0x800_0000 && t / 64 == w / 0x4000_0000;
    assert t / 8 % 8 == 7 && t % 4 == 1 && t / 4 / 2 == t / 8 && t / 8 / 8 == t / 64;
  }

  /** A pair is accepted exactly when the machine would execute an ADRP and then an ADD (immediate, unshifted), of
      whatever registers, and the page of the one and the offset of the other sum up to the address. */
  lemma PairExactly(words: seq<u32>, vm: int, i: nat, target: nat)
    requires i + 1 < |words|
    ensures PairForms(words, vm, i, target) <==>
      match (A64.Decode(words[i]), A64.Decode(words[i + 1]))
      case (Some(Adrp(_, distance)), Some(AddImm(_, _, offset))) =>
        vm + 4 * i - (vm + 4 * i) % 0x1000 + distance + offset == target
      case _ => false
  {
    hide Displacement, Imm12;
    var a, b := words[i], words[i + 1];
    if IsAdrp(a) {
      DecodesAdrp(a);
    }
    if IsAddUnshifted(b) {
      DecodesAdd(b);
    }
    OnlyAdrp(a);
    OnlyAdd(b);
    hide A64.Decode, IsAdrp, IsAddUnshifted;
  }

  lemma OnlyAdrp(a: u32)
    ensures A64.Decode(a).Some? && A64.Decode(a).value.Adrp? ==> IsAdrp(a)
  {
    hide A64.Signed;
  }

  lemma OnlyAdd(b: u32)
    ensures A64.Decode(b).Some? && A64.Decode(b).value.AddImm? ==> IsAddUnshifted(b)
  {
    hide A64.Signed;
  }

  // ---- what the site lists hold ----

  /** The machine would execute a BL to the target at word i. */
  ghost predicate Calls(words: seq<u32>, vm: int, target: int, i: nat) {
    i < |words| && A64.Decode(words[i]) == Some(A64.Bl(target - (vm + 4 * i)))
  }

  /** The listed call sites are exactly the addresses of such words. */
  lemma {:induction false} CallSitesExactly(words: seq<u32>, vm: int, target: int, n: nat, x: int)
    requires n <= |words|
    ensures x in CallSites(words, vm, target, n)
      <==> exists i: nat :: i < n && Calls(words, vm, target, i) && x == vm + 4 * i
    decreases n
  {
    hide A64.Decode;
    if n > 0 {
      CallSitesExactly(words, vm, target, n - 1, x);
      if Calls(words, vm, target, n - 1) {
        assert CallSites(words, vm, target, n) == CallSites(words, vm, target, n - 1) + [vm + 4 * (n - 1)];
      } else {
        assert CallSites(words, vm, target, n) == CallSites(words, vm, target, n - 1);
      }
    }
  }

  /** Word i is an ADRP of the page that the address lies in. */
  ghost predicate PageSite(words: seq<u32>, vm: int, address: int, i: nat) {
    i < |words| && IsAdrp(words[i]) && AdrpPage(words[i], vm + 4 * i) == address - address % 0x1000
  }

  /** So are the listed page sites those of such words, with their registers. */
  lemma {:induction false} PageSitesExactly(words: seq<u32>, vm: int, address: int, n: nat, x: (int, nat))
    requires n <= |words|
    ensures x in AdrpSites(words, vm, address, n)
      <==> exists i: nat :: i < n && PageSite(words, vm, address, i) && x == (vm + 4 * i, Rd(words[i]))
    decreases n
  {
    hide IsAdrp, AdrpPage, Rd;
    if n > 0 {
      PageSitesExactly(words, vm, address, n - 1, x);
      SitesStep(words, vm, address, n - 1);
    }
  }
}
