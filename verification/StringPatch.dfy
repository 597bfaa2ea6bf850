/** String-anchored patching of scripts/darwinvm/darwinvm_patch_img4_magazine.py:
    find a string, the code that refers to it, the enclosing function, and make that function return 0. */
module StringPatch {
  import opened Wrappers
  import opened Words
  import opened A64
  import AdrpSearch

  const PACIBSP_WORD: u32 := 0xD503237F
  const RETAB_WORD: u32 := 0xD65F0FFF
  const MOV_X0_0: u32 := 0xD2800000

  /** struct.unpack_from("<I", d, off) */
  function W(d: seq<byte>, off: nat): u32
    requires off + 4 <= |d|
  {
    d[off] as int + 0x100 * (d[off + 1] as int) + 0x1_0000 * (d[off + 2] as int) + 0x100_0000 * (d[off + 3] as int)
  }

  // ---- the string ----

  predicate MatchesAt(region: seq<byte>, needle: seq<byte>, i: nat) {
    i + |needle| <= |region| && region[i..i + |needle|] == needle
  }

  /** r is the start of the NUL-delimited string around the first occurrence of the needle. */
  ghost predicate EnclosingStart(region: seq<byte>, needle: seq<byte>, r: nat) {
    exists i: nat :: MatchesAt(region, needle, i) && (forall j: nat :: j < i ==> !MatchesAt(region, needle, j))
      && r <= i && r <= |region| && (forall k :: r <= k < i && k < |region| ==> region[k] != 0)
      && (r == 0 || region[r - 1] == 0)
  }

  method FindStringInSection(region: seq<byte>, needle: seq<byte>) returns (r: int)
    ensures r == -1 <==> forall i: nat :: !MatchesAt(region, needle, i)
    ensures r != -1 ==> r >= 0 && EnclosingStart(region, needle, r)
  {
    var i := 0;
    while i <= |region| && !MatchesAt(region, needle, i)
      invariant 0 <= i <= |region| + 1
      invariant forall j: nat :: j < i ==> !MatchesAt(region, needle, j)
    {
      i := i + 1;
    }
    if i > |region| {
      return -1;
    }
    var start := i;
    while start > 0 && region[start - 1] != 0
      invariant 0 <= start <= i
      invariant forall k :: start <= k < i ==> region[k] != 0
    {
      start := start - 1;
    }
    return start;
  }

  // ---- the function entry ----

  predicate IsPrologueStart(w: u32) {
    || w == PACIBSP_WORD
    || (w / 0x40_0000 % 512 in {0xA4, 0xA6, 0xA2} && w / 32 % 32 == 31)
    || (w / 0x100_0000 == 0xD1 && w % 0x400 == 0x3FF)
  }

  /** The three addressing modes of a store of two registers. */
  datatype PairMode = Offset | PreIndex | PostIndex

  /** `stp rt, rt2` on the stack pointer, in 32 or 64 bits, with the signed seven-bit offset field imm7. */
  function StpOnSp(wide: bool, mode: PairMode, imm7: nat, rt2: nat, rt: nat): int {
    (if wide then 0x8000_0000 else 0)
    + (match mode case Offset => 0x2900_0000 case PreIndex => 0x2980_0000 case PostIndex => 0x2880_0000)
    + 0x8000 * imm7 + 0x400 * rt2 + 0x20 * 31 + rt
  }

  /** `sub sp, sp, #imm12`, with the two-bit field that tells its shift. */
  function SubSp(shift: nat, imm12: nat): int { 0xD100_0000 + 0x40_0000 * shift + 0x400 * imm12 + 0x20 * 31 + 31 }

  /** PACIBSP, a store of two registers on SP in any mode and width, or a
      subtraction from SP (DDI 0487, section C6.2). */
  ghost predicate StartsFunction(w: u32) {
    || w == 0xD503_237F
    || (exists wide, mode, imm7: nat, rt2: nat, rt: nat ::
          imm7 < 128 && rt2 < 32 && rt < 32 && w == StpOnSp(wide, mode, imm7, rt2, rt))
    || exists shift: nat, imm12: nat :: shift < 4 && imm12 < 4096 && w == SubSp(shift, imm12)
  }

  lemma StpAccepted(wide: bool, mode: PairMode, imm7: nat, rt2: nat, rt: nat)
    requires imm7 < 128 && rt2 < 32 && rt < 32
    ensures var w := StpOnSp(wide, mode, imm7, rt2, rt); 0 <= w < 0x1_0000_0000 && IsPrologueStart(w)
  {
    var w := StpOnSp(wide, mode, imm7, rt2, rt);
    var low := 0x8000 * imm7 + 0x400 * rt2 + 0x20 * 31 + rt;
    var opc: nat := match mode case Offset => 0xA4 case PreIndex => 0xA6 case PostIndex => 0xA2;
    var top: nat := opc + (if wide then 0x200 else 0);
    assert 0 <= low < 0x40_0000 && w == 0x40_0000 * top + low;
    assert w / 0x40_0000 == top && top % 512 == opc;
    assert w == 32 * (0x2_0000 * top + 0x400 * imm7 + 0x20 * rt2 + 31) + rt;
    assert w / 32 == 32 * (0x1000 * top + 0x20 * imm7 + rt2) + 31;
  }

  lemma SubSpAccepted(shift: nat, imm12: nat)
    requires shift < 4 && imm12 < 4096
    ensures var w := SubSp(shift, imm12); 0 <= w < 0x1_0000_0000 && IsPrologueStart(w)
  {
    var w := SubSp(shift, imm12);
    assert w == 0x100_0000 * 0xD1 + (0x40_0000 * shift + 0x400 * imm12 + 0x3FF);
    assert w == 0x400 * (0x4000 * 0xD1 + 0x1000 * shift + imm12) + 0x3FF;
  }

  lemma AcceptedStp(w: u32)
    requires w / 0x40_0000 % 512 in {0xA4, 0xA6, 0xA2} && w / 32 % 32 == 31
    ensures StartsFunction(w)
  {
    var opc := w / 0x40_0000 % 512;
    var wide := w / 0x8000_0000 == 1;
    var mode := if opc == 0xA4 then Offset else if opc == 0xA6 then PreIndex else PostIndex;
    var imm7: nat, rt2: nat, rt: nat := w / 0x8000 % 128, w / 0x400 % 32, w % 32;
    StpFields(w);
    assert w == StpOnSp(wide, mode, imm7, rt2, rt);
  }

  lemma StpFields(w: u32)
    ensures w == 0x8000_0000 * (w / 0x8000_0000) + 0x40_0000 * (w / 0x40_0000 % 512) + 0x8000 * (w / 0x8000 % 128)
              + 0x400 * (w / 0x400 % 32) + 0x20 * (w / 0x20 % 32) + w % 32
  {
    assert w / 32 / 32 == w / 0x400 && w / 0x400 / 32 == w / 0x8000;
    assert w / 0x8000 / 128 == w / 0x40_0000 && w / 0x40_0000 / 512 == w / 0x8000_0000;
  }

  lemma AcceptedSub(w: u32)
    requires w / 0x100_0000 == 0xD1 && w % 0x400 == 0x3FF
    ensures StartsFunction(w)
  {
    var shift: nat, imm12: nat := w / 0x40_0000 % 4, w / 0x400 % 4096;
    assert w / 0x400 / 4096 == w / 0x40_0000 && w / 0x40_0000 / 4 == w / 0x100_0000;
    assert w == SubSp(shift, imm12);
  }

  /** What is accepted as the first word of a function, field by field. */
  lemma PrologueExactly(w: u32)
    ensures IsPrologueStart(w) <==> StartsFunction(w)
  {
    hide StpOnSp, SubSp;
    if StartsFunction(w) {
      if wide, mode, imm7: nat, rt2: nat, rt: nat :|
        imm7 < 128 && rt2 < 32 && rt < 32 && w == StpOnSp(wide, mode, imm7, rt2, rt) {
        StpAccepted(wide, mode, imm7, rt2, rt);
      } else if shift: nat, imm12: nat :| shift < 4 && imm12 < 4096 && w == SubSp(shift, imm12) {
        SubSpAccepted(shift, imm12);
      }
    }
    if IsPrologueStart(w) {
      if w / 0x40_0000 % 512 in {0xA4, 0xA6, 0xA2} && w / 32 % 32 == 31 {
        AcceptedStp(w);
      } else if w / 0x100_0000 == 0xD1 && w % 0x400 == 0x3FF {
        AcceptedSub(w);
      }
    }
  }

  /** What the walk finds at one offset, if anything. */
  function Hit(d: seq<byte>, off: nat): Option<nat>
    requires off + 8 <= |d|
  {
    var w := W(d, off);
    if w == PACIBSP_WORD then Some(off)
    else if (w == RET_WORD || w == RETAB_WORD) && IsPrologueStart(W(d, off + 4)) then Some(off + 4)
    else None
  }

  const MAX_BACK := 4096

  /** Offset zero is never looked at. */
  function Stop(xref: nat): nat { if xref > MAX_BACK then xref - MAX_BACK else 0 }

  /** The nearest hit at or below xref, on its word grid. */
  ghost predicate NearestHit(d: seq<byte>, xref: nat, k: nat, r: nat)
    requires xref + 8 <= |d|
  {
    && 4 * k < 4096 && 4 * k < xref && Hit(d, xref - 4 * k) == Some(r)
    && forall j :: 0 <= j < k ==> Hit(d, xref - 4 * j) == None
  }

  method WalkBackToPrologue(d: seq<byte>, xref: nat) returns (r: int, ghost k: nat)
    requires xref + 8 <= |d|
    ensures r == -1 || 0 <= r
    ensures r == -1 ==> forall j: nat :: 4 * j < 4096 && 4 * j < xref ==> Hit(d, xref - 4 * j) == None
    ensures r >= 0 ==> NearestHit(d, xref, k, r)
  {
    hide W, IsPrologueStart;
    var off: int := xref;
    k := 0;
    while off > Stop(xref)
      invariant off == xref - 4 * k
      invariant forall j: nat :: j < k ==> 4 * j < xref && Hit(d, xref - 4 * j) == None
    {
      var w := W(d, off);
      if w == PACIBSP_WORD {
        return off, k;
      }
      if w == RET_WORD || w == RETAB_WORD {
        if IsPrologueStart(W(d, off + 4)) {
          return off + 4, k;
        }
      }
      off := off - 4;
      k := k + 1;
    }
    return -1, k;
  }

  /** The word at off tells that a function starts at r: it is PACIBSP itself, or a return with a prologue behind it. */
  ghost predicate TellsStart(d: seq<byte>, off: nat, r: nat)
    requires off + 8 <= |d|
  {
    || (W(d, off) == 0xD503_237F && r == off)
    || (W(d, off) in {0xD65F_03C0, 0xD65F_0FFF} && StartsFunction(W(d, off + 4)) && r == off + 4)
  }

  lemma HitExactly(d: seq<byte>, off: nat, r: nat)
    requires off + 8 <= |d|
    ensures Hit(d, off) == Some(r) <==> TellsStart(d, off, r)
  {
    hide W, IsPrologueStart, StartsFunction;
    PrologueExactly(W(d, off + 4));
  }

  ghost predicate TellsNothing(d: seq<byte>, off: nat)
    requires off + 8 <= |d|
  {
    forall r: nat :: !TellsStart(d, off, r)
  }

  lemma NoHitExactly(d: seq<byte>, off: nat)
    requires off + 8 <= |d|
    ensures Hit(d, off) == None <==> TellsNothing(d, off)
  {
    hide Hit, TellsStart;
    forall r: nat ensures Hit(d, off) == Some(r) <==> TellsStart(d, off, r) { HitExactly(d, off, r); }
    assert Hit(d, off).Some? ==> TellsStart(d, off, Hit(d, off).value);
  }

  /** The walk stops at the nearest word that tells a start, within 4096 bytes and above offset zero. */
  lemma NearestExactly(d: seq<byte>, xref: nat, k: nat, r: nat)
    requires xref + 8 <= |d|
    ensures NearestHit(d, xref, k, r) <==> (
      && 4 * k < 4096 && 4 * k < xref && TellsStart(d, xref - 4 * k, r)
      && forall j :: 0 <= j < k ==> TellsNothing(d, xref - 4 * j))
  {
    hide Hit, TellsStart, TellsNothing;
    if 4 * k < xref {
      HitExactly(d, xref - 4 * k, r);
      forall j | 0 <= j < k
        ensures Hit(d, xref - 4 * j) == None <==> TellsNothing(d, xref - 4 * j)
      {
        NoHitExactly(d, xref - 4 * j);
      }
    }
  }

  lemma AdrpIsNoEntry(w: u32)
    requires AdrpSearch.IsAdrp(w)
    ensures !IsPrologueStart(w) && w != RET_WORD && w != RETAB_WORD
  {
    assert w / 0x40_0000 % 512 == w / 0x40_0000 - 0x200 by { assert w / 0x8000_0000 == 1; }
    assert w / 0x40_0000 / 4 == w / 0x100_0000;
    assert PACIBSP_WORD / 0x100_0000 % 32 == 0x15 && RET_WORD / 0x100_0000 % 32 == 0x16;
    assert RETAB_WORD / 0x100_0000 % 32 == 0x16;
  }

  /** From an ADRP the walk returns an accepted entry strictly below it, on
      its word grid, with no PACIBSP in between. */
  lemma EntryBelowXref(d: seq<byte>, xref: nat, k: nat, r: nat)
    requires xref + 8 <= |d| && NearestHit(d, xref, k, r) && AdrpSearch.IsAdrp(W(d, xref))
    ensures r < xref && (xref - r) % 4 == 0 && IsPrologueStart(W(d, r))
    ensures forall j: nat :: r + 4 * j < xref && 0 < j ==> W(d, r + 4 * j) != PACIBSP_WORD
  {
    hide W, IsPrologueStart;
    AdrpIsNoEntry(W(d, xref));
    assert IsPrologueStart(PACIBSP_WORD) by { PacibspIsEntry(); }
    assert Hit(d, xref - 4 * 0) == None ==> k > 0;
    var off := xref - 4 * k;
    assert r == off || r == off + 4;
    forall j: nat | 0 < j && r + 4 * j < xref
      ensures W(d, r + 4 * j) != PACIBSP_WORD
    {
      var i := (xref - (r + 4 * j)) / 4;
      assert xref - 4 * i == r + 4 * j && 0 <= i < k;
      assert Hit(d, xref - 4 * i) == None;
    }
    if r == off + 4 {
      assert k == 1 ==> off + 4 == xref;
    }
  }

  lemma PacibspIsEntry()
    ensures IsPrologueStart(PACIBSP_WORD)
  {
  }

  // ---- the stub ----

  /** The words written over a function entry. */
  function StubWords(entry: u32): seq<u32> {
    if entry == PACIBSP_WORD then [PACIBSP_WORD, MOV_X0_0, RETAB_WORD] else [MOV_X0_0, RET_WORD]
  }

  /** e is d with the words written at off and nothing else changed. */
  ghost predicate Overwritten(d: seq<byte>, e: seq<byte>, off: nat, words: seq<u32>)
    requires off + 4 * |words| <= |d|
  {
    && |e| == |d|
    && (forall i :: 0 <= i < |words| ==> W(e, off + 4 * i) == words[i])
    && (forall k :: 0 <= k < |d| && !(off <= k < off + 4 * |words|) ==> e[k] == d[k])
  }

  method PackWord(data: array<byte>, off: nat, w: u32)
    requires off + 4 <= data.Length
    modifies data
    ensures W(data[..], off) == w
    ensures forall k :: 0 <= k < data.Length && !(off <= k < off + 4) ==> data[k] == old(data[k])
  {
    data[off], data[off + 1] := w % 256, w / 256 % 256;
    data[off + 2], data[off + 3] := w / 256 / 256 % 256, w / 256 / 256 / 256;
    SplitTop(w);
  }

  lemma SplitTop(w: u32)
    ensures w == w % 256 + 0x100 * (w / 256 % 256) + 0x1_0000 * (w / 256 / 256 % 256)
        + 0x100_0000 * (w / 256 / 256 / 256)
    ensures w / 256 / 256 / 256 < 256
  {
  }

  /** A word keeps its value when its bytes do. */
  lemma SameWord(d: seq<byte>, e: seq<byte>, off: nat)
    requires off + 4 <= |d| == |e| && forall k :: off <= k < off + 4 ==> d[k] == e[k]
    ensures W(d, off) == W(e, off)
  {
  }

  method StubFunction(data: array<byte>, f: nat) returns (ok: bool)
    requires f + 4 <= data.Length
    requires IsPrologueStart(W(data[..], f)) ==> f + 4 * |StubWords(W(data[..], f))| <= data.Length
    modifies data
    ensures ok <==> IsPrologueStart(old(W(data[..], f)))
    ensures ok ==> Overwritten(old(data[..]), data[..], f, StubWords(old(W(data[..], f))))
    ensures !ok ==> data[..] == old(data[..])
  {
    hide W, IsPrologueStart;
    var before := W(data[..], f);
    if !IsPrologueStart(before) {
      return false;
    }
    if before == PACIBSP_WORD {
      PackWord(data, f, PACIBSP_WORD);
      ghost var d1 := data[..];
      PackWord(data, f + 4, MOV_X0_0);
      ghost var d2 := data[..];
      PackWord(data, f + 8, RETAB_WORD);
      SameWord(d1, data[..], f);
      SameWord(d2, data[..], f + 4);
    } else {
      PackWord(data, f, MOV_X0_0);
      ghost var d1 := data[..];
      PackWord(data, f + 4, RET_WORD);
      SameWord(d1, data[..], f);
    }
    return true;
  }

  // ---- the whole patch ----

  datatype Segment = Segment(vm: nat, fo: nat, size: nat)

  /** The instruction words of a segment of the file. */
  function CodeWords(d: seq<byte>, fo: nat, n: nat): (r: seq<u32>)
    requires fo + 4 * n <= |d|
    ensures |r| == n && forall i :: 0 <= i < n ==> r[i] == W(d, fo + 4 * i)
  {
    seq(n, i requires 0 <= i < n => W(d, fo + 4 * i))
  }

  /** data[fo : fo + size] as Python cuts it. */
  function Cut(d: seq<byte>, s: Segment): (r: seq<byte>)
  {
    var lo := if s.fo < |d| then s.fo else |d|;
    var hi := if s.fo + s.size < |d| then s.fo + s.size else |d|;
    d[lo..hi]
  }

  /** Pair x is the first scanned one that forms the address. */
  ghost predicate FirstPair(words: seq<u32>, size: nat, vm: int, x: nat, target: nat)
    requires |words| == size / 4
  {
    && 4 * x + 8 < size && AdrpSearch.PairForms(words, vm, x, target)
    && forall i: nat :: i < x ==> !AdrpSearch.PairForms(words, vm, i, target)
  }

  /** What the three searches look for: the string around the first occurrence starts at s, pair x is the first to
      form its address, and f is the nearest hit walking back k words from that pair. */
  ghost predicate Located(d: seq<byte>, text: Segment, exec: Segment, needle: seq<byte>, s: nat, x: nat, k: nat,
                          f: nat) {
    var code := Cut(d, exec);
    && exec.fo + 4 * (|code| / 4) <= |d|
    && EnclosingStart(Cut(d, text), needle, s)
    && FirstPair(CodeWords(d, exec.fo, |code| / 4), |code|, exec.vm, x, text.vm + s)
    && exec.fo + 4 * x + 8 <= |d|
    && NearestHit(d, exec.fo + 4 * x, k, f)
  }

  /** At most one place is looked for. */
  lemma LocatedOnce(d: seq<byte>, text: Segment, exec: Segment, needle: seq<byte>,
                    s: nat, x: nat, k: nat, f: nat, s': nat, x': nat, k': nat, f': nat)
    requires Located(d, text, exec, needle, s, x, k, f) && Located(d, text, exec, needle, s', x', k', f')
    ensures s == s' && x == x' && k == k' && f == f'
  {
    hide W, Hit, AdrpSearch.PairForms, EnclosingStart, MatchesAt, Cut, CodeWords;
    StartOnce(Cut(d, text), needle, s, s');
    PairOnce(CodeWords(d, exec.fo, |Cut(d, exec)| / 4), |Cut(d, exec)|, exec.vm, x, x', text.vm + s);
    HitOnce(d, exec.fo + 4 * x, k, f, k', f');
  }

  lemma StartOnce(region: seq<byte>, needle: seq<byte>, s: nat, s': nat)
    requires EnclosingStart(region, needle, s) && EnclosingStart(region, needle, s')
    ensures s == s'
  {
    hide MatchesAt;
  }

  lemma PairOnce(words: seq<u32>, size: nat, vm: int, x: nat, x': nat, target: nat)
    requires |words| == size / 4 && FirstPair(words, size, vm, x, target) && FirstPair(words, size, vm, x', target)
    ensures x == x'
  {
    hide AdrpSearch.PairForms;
  }

  lemma HitOnce(d: seq<byte>, xref: nat, k: nat, f: nat, k': nat, f': nat)
    requires xref + 8 <= |d| && NearestHit(d, xref, k, f) && NearestHit(d, xref, k', f')
    ensures k == k' && f == f'
  {
    hide W, Hit;
  }

  /** The entry so located is a prologue strictly below the pair with no PACIBSP between, and the
      stub has room below the end of the pair: it is never refused. */
  lemma LocatedEntry(d: seq<byte>, text: Segment, exec: Segment, needle: seq<byte>, s: nat, x: nat, k: nat, f: nat)
    requires Located(d, text, exec, needle, s, x, k, f)
    ensures f < exec.fo + 4 * x && f + 12 <= exec.fo + 4 * x + 8 <= |d|
    ensures IsPrologueStart(W(d, f))
    ensures forall j: nat :: 0 < j && f + 4 * j < exec.fo + 4 * x ==> W(d, f + 4 * j) != PACIBSP_WORD
  {
    hide W, IsPrologueStart, EnclosingStart, Hit, AdrpSearch.PairForms, NearestHit, Cut;
    var n := |Cut(d, exec)| / 4;
    PairIsAdrp(CodeWords(d, exec.fo, n), exec.vm, x, text.vm + s);
    EntryBelowXref(d, exec.fo + 4 * x, k, f);
  }

  /** The patch succeeds exactly when there is something to locate, and then overwrites just the located entry. */
  method PatchByString(data: array<byte>, text: Option<Segment>, exec: Option<Segment>, needle: seq<byte>)
    returns (ok: bool, ghost s: nat, ghost x: nat, ghost k: nat, ghost f: nat)
    modifies data
    ensures ok <==> (text.Some? && exec.Some?
      && exists s, x, k, f :: Located(old(data[..]), text.value, exec.value, needle, s, x, k, f))
    ensures !ok ==> data[..] == old(data[..])
    ensures ok ==> (Located(old(data[..]), text.value, exec.value, needle, s, x, k, f)
      && f + 12 <= data.Length && Overwritten(old(data[..]), data[..], f, StubWords(W(old(data[..]), f))))
  {
    hide W, IsPrologueStart, EnclosingStart, AdrpSearch.PairForms, Hit, Located, MatchesAt, Cut;
    ok, s, x, k, f := false, 0, 0, 0, 0;
    if text.None? || exec.None? {
      return;
    }
    var d := data[..];
    var region, code := Cut(d, text.value), Cut(d, exec.value);
    var str := FindStringInSection(region, needle);
    if str < 0 {
      NoString(d, text.value, exec.value, needle);
      return;
    }
    s := str;
    CutBounds(d, exec.value);
    if |code| < 4 {
      NoPair(d, text.value, exec.value, needle, s);
      return;
    }
    var words := CodeWords(d, exec.value.fo, |code| / 4);
    var xr := AdrpSearch.FindAdrpAddXref(words, |code|, exec.value.vm, text.value.vm + str);
    if xr < 0 {
      NoPair(d, text.value, exec.value, needle, s);
      return;
    }
    x := xr;
    var xref := exec.value.fo + 4 * xr;
    var func, steps := WalkBackToPrologue(d, xref);
    if func < 0 {
      NoHit(d, text.value, exec.value, needle, s, x);
      return;
    }
    k, f := steps, func;
    Found(d, text.value, exec.value, needle, s, x, k, f);
    LocatedEntry(d, text.value, exec.value, needle, s, x, k, f);
    ok := StubFunction(data, func);
  }

  lemma CutBounds(d: seq<byte>, s: Segment)
    ensures |Cut(d, s)| > 0 ==> s.fo + |Cut(d, s)| <= |d|
  {
  }

  lemma Found(d: seq<byte>, text: Segment, exec: Segment, needle: seq<byte>, s: nat, x: nat, k: nat, f: nat)
    requires exec.fo + 4 * (|Cut(d, exec)| / 4) <= |d|
    requires EnclosingStart(Cut(d, text), needle, s)
    requires FirstPair(CodeWords(d, exec.fo, |Cut(d, exec)| / 4), |Cut(d, exec)|, exec.vm, x, text.vm + s)
    requires exec.fo + 4 * x + 8 <= |d| && NearestHit(d, exec.fo + 4 * x, k, f)
    ensures Located(d, text, exec, needle, s, x, k, f)
  {
  }

  lemma NoString(d: seq<byte>, text: Segment, exec: Segment, needle: seq<byte>)
    requires forall i: nat :: !MatchesAt(Cut(d, text), needle, i)
    ensures forall s, x, k, f :: !Located(d, text, exec, needle, s, x, k, f)
  {
    hide MatchesAt, Cut, FirstPair, NearestHit, CodeWords;
  }

  lemma NoPair(d: seq<byte>, text: Segment, exec: Segment, needle: seq<byte>, s: nat)
    requires EnclosingStart(Cut(d, text), needle, s)
    requires var code := Cut(d, exec);
      exec.fo + 4 * (|code| / 4) <= |d| ==>
        forall i: nat :: 4 * i + 8 < |code| ==>
          !AdrpSearch.PairForms(CodeWords(d, exec.fo, |code| / 4), exec.vm, i, text.vm + s)
    ensures forall s, x, k, f :: !Located(d, text, exec, needle, s, x, k, f)
  {
    hide EnclosingStart, Cut, AdrpSearch.PairForms, NearestHit, CodeWords;
    forall s', x, k, f | Located(d, text, exec, needle, s', x, k, f)
      ensures false
    {
      StartOnce(Cut(d, text), needle, s, s');
    }
  }

  lemma NoHit(d: seq<byte>, text: Segment, exec: Segment, needle: seq<byte>, s: nat, x: nat)
    requires EnclosingStart(Cut(d, text), needle, s)
    requires exec.fo + 4 * (|Cut(d, exec)| / 4) <= |d| && exec.fo + 4 * x + 8 <= |d|
    requires FirstPair(CodeWords(d, exec.fo, |Cut(d, exec)| / 4), |Cut(d, exec)|, exec.vm, x, text.vm + s)
    requires forall j: nat :: 4 * j < 4096 && 4 * j < exec.fo + 4 * x ==>
      Hit(d, exec.fo + 4 * x - 4 * j) == None
    ensures forall s, x, k, f :: !Located(d, text, exec, needle, s, x, k, f)
  {
    hide EnclosingStart, Cut, AdrpSearch.PairForms, FirstPair, CodeWords, Hit;
    forall s', x', k, f | Located(d, text, exec, needle, s', x', k, f)
      ensures false
    {
      StartOnce(Cut(d, text), needle, s, s');
      PairOnce(CodeWords(d, exec.fo, |Cut(d, exec)| / 4), |Cut(d, exec)|, exec.vm, x, x', text.vm + s);
    }
  }

  lemma PairIsAdrp(words: seq<u32>, vm: int, i: nat, target: nat)
    requires i + 1 < |words| && AdrpSearch.PairForms(words, vm, i, target)
    ensures AdrpSearch.IsAdrp(words[i])
  {
  }

  /** At most 12 bytes change, all at or below the pair. */
  lemma ChangesAreLocal(d: seq<byte>, e: seq<byte>, text: Segment, exec: Segment, needle: seq<byte>, s: nat, x: nat,
                        k: nat, f: nat)
    requires Located(d, text, exec, needle, s, x, k, f)
    requires f + 12 <= |d| && Overwritten(d, e, f, StubWords(W(d, f)))
    ensures |e| == |d| && forall i :: 0 <= i < |d| && !(f <= i < f + 12) ==> e[i] == d[i]
    ensures f + 12 <= exec.fo + 4 * x + 8
  {
    hide W, IsPrologueStart, Located;
    LocatedEntry(d, text, exec, needle, s, x, k, f);
  }

  // ---- running the stub ----

  lemma StubWordsDecode()
    ensures Decode(PACIBSP_WORD) == Some(Pacibsp) && Decode(RETAB_WORD) == Some(Retab)
    ensures Decode(MOV_X0_0) == Some(Movz(0, 0)) && Decode(RET_WORD) == Some(Ret(30))
  {
  }

  /** Calling the stubbed entry returns to the caller with x0 = 0. Without pointer authentication nothing else changes;
      with it x30 is left holding the signed return address. */
  lemma StubReturnsZero(s: State, entry: u32, pac: Pac)
    requires var ws := StubWords(entry);
      s.pc + 12 < TWO64 && forall i :: 0 <= i < |ws| ==> Word32(s.mem, s.pc + 4 * i) == ws[i]
    requires pac.auth(pac.sign(s.x[30], s.sp), s.sp) == s.x[30]
    ensures Steps(s, |StubWords(entry)|, pac) == Some(
      if entry == PACIBSP_WORD then s.(x := s.x[30 := pac.sign(s.x[30], s.sp)][0 := 0], pc := s.x[30])
      else s.(x := s.x[0 := 0], pc := s.x[30]))
  {
    hide Decode, Word32, Steps;
    StubWordsDecode();
    var ws := StubWords(entry);
    assert Word32(s.mem, s.pc + 4 * 0) == ws[0] && Word32(s.mem, s.pc + 4 * 1) == ws[1];
    if entry == PACIBSP_WORD {
      assert Word32(s.mem, s.pc + 4 * 2) == ws[2];
      StubPac(s, pac);
    } else {
      StubPlain(s, pac);
    }
  }

  /** Where the script's address arithmetic puts the byte at file offset k. */
  function VaOf(exec: Segment, k: int): int { exec.vm + (k - exec.fo) }

  /** The first bytes of the entry are in memory as the file has them. */
  ghost predicate EntryMapped(mem: int -> byte, e: seq<byte>, exec: Segment, f: nat) {
    forall k :: f <= k < f + 12 && k < |e| ==> mem(VaOf(exec, k)) == e[k]
  }

  lemma MappedWord(mem: int -> byte, e: seq<byte>, exec: Segment, f: nat, off: nat)
    requires EntryMapped(mem, e, exec, f) && off + 4 <= 12 && f + off + 4 <= |e|
    ensures Word32(mem, VaOf(exec, f) + off) == W(e, f + off)
  {
  }

  /** After a successful patch, calling the located entry returns to the caller with x0 = 0 and, but
      for the signed x30 of the PAC form, nothing else changed. */
  lemma PatchedEntryReturnsZero(st: State, d: seq<byte>, e: seq<byte>, text: Segment, exec: Segment, needle: seq<byte>,
                                s: nat, x: nat, k: nat, f: nat, pac: Pac)
    requires Located(d, text, exec, needle, s, x, k, f)
    requires f + 12 <= |d| && Overwritten(d, e, f, StubWords(W(d, f)))
    requires EntryMapped(st.mem, e, exec, f) && st.pc == VaOf(exec, f) && st.pc + 12 < TWO64
    requires pac.auth(pac.sign(st.x[30], st.sp), st.sp) == st.x[30]
    ensures var t := Steps(st, |StubWords(W(d, f))|, pac);
      t == Some(
        if W(d, f) == PACIBSP_WORD then st.(x := st.x[30 := pac.sign(st.x[30], st.sp)][0 := 0], pc := st.x[30])
        else st.(x := st.x[0 := 0], pc := st.x[30]))
  {
    hide W, Word32, Located, EntryMapped, Steps;
    var ws := StubWords(W(d, f));
    forall i | 0 <= i < |ws|
      ensures Word32(st.mem, st.pc + 4 * i) == ws[i]
    {
      MappedWord(st.mem, e, exec, f, 4 * i);
    }
    StubReturnsZero(st, W(d, f), pac);
  }

  lemma StubPac(s: State, pac: Pac)
    requires s.pc + 12 < TWO64 && Decode(Word32(s.mem, s.pc)) == Some(Pacibsp)
    requires Decode(Word32(s.mem, s.pc + 4)) == Some(Movz(0, 0)) && Decode(Word32(s.mem, s.pc + 8)) == Some(Retab)
    requires pac.auth(pac.sign(s.x[30], s.sp), s.sp) == s.x[30]
    ensures Steps(s, 3, pac) == Some(s.(x := s.x[30 := pac.sign(s.x[30], s.sp)][0 := 0], pc := s.x[30]))
  {
    hide Decode, Word32;
    WrapSmall(s.pc + 4);
    WrapSmall(s.pc + 8);
    WrapSmall(0);
    WrapSmall(s.x[30]);
    var s1 := s.(x := s.x[30 := pac.sign(s.x[30], s.sp)], pc := s.pc + 4);
    assert Step(s, pac) == Some(s1);
    var s2 := s1.(x := s1.x[0 := 0], pc := s.pc + 8);
    assert Step(s1, pac) == Some(s2);
    var s3 := s2.(pc := s.x[30]);
    assert Step(s2, pac) == Some(s3);
    ThreeSteps(s, s1, s2, s3, pac);
  }

  lemma StubPlain(s: State, pac: Pac)
    requires s.pc + 8 < TWO64
    requires Decode(Word32(s.mem, s.pc)) == Some(Movz(0, 0)) && Decode(Word32(s.mem, s.pc + 4)) == Some(Ret(30))
    ensures Steps(s, 2, pac) == Some(s.(x := s.x[0 := 0], pc := s.x[30]))
  {
    hide Decode, Word32;
    WrapSmall(s.pc + 4);
    WrapSmall(0);
    WrapSmall(s.x[30]);
    var s1 := s.(x := s.x[0 := 0], pc := s.pc + 4);
    assert Step(s, pac) == Some(s1);
    var s2 := s1.(pc := s.x[30]);
    assert Step(s1, pac) == Some(s2);
    TwoSteps(s, s1, s2, pac);
  }

  /** A match at i leaves i bytes before it and the rest behind. */
  lemma MatchExactly(region: seq<byte>, needle: seq<byte>, i: nat)
    ensures MatchesAt(region, needle, i) <==> exists a: seq<byte>, b: seq<byte> :: |a| == i && region == a + needle + b
  {
    if MatchesAt(region, needle, i) {
      assert region == region[..i] + needle + region[i + |needle|..];
    }
  }
}
