/** The null-guard trampoline of scripts/patch_rtbuddy_secureproxy_v2.py:
    the byte edits and what the patched call does. */
module CallGuard {
  import opened Wrappers
  import opened Words
  import opened Sequences
  import opened A64

  /** Where the call site and the filler lie: virtual addresses and file offsets. */
  datatype Site = Site(ldrFo: nat, patchVa: u64, patchFo: nat, trampVa: u64, trampFo: nat, realFn: u64)

  const LDR_BYTES: seq<byte> := [0x60, 0xd6, 0x50, 0xf9]
  /** udf filler */
  function Filler(): (r: seq<byte>)
    ensures |r| == 16 && forall i :: 0 <= i < 16 ==> r[i] == 0
  {
    seq(16, i => 0)
  }

  predicate InFile(size: nat, p: Site) {
    p.ldrFo + 4 <= size && p.patchFo + 4 <= size && p.trampFo + 16 <= size
  }

  /** The three checks made before anything is written. */
  predicate Anchored(d: seq<byte>, p: Site)
    requires InFile(|d|, p)
  {
    && d[p.ldrFo..p.ldrFo + 4] == LDR_BYTES
    && d[p.patchFo + 3] / 4 * 4 == 0x94
    && d[p.trampFo..p.trampFo + 16] == Filler()
  }

  /** The assembler accepts the two direct branches. */
  predicate Reachable(p: Site) {
    BranchReach(p.realFn - (p.trampVa + 4)) && BranchReach(p.trampVa - p.patchVa)
  }

  function Trampoline(p: Site): (b: seq<byte>)
    ensures |b| == 12
  {
    Le(EncodeCbz(0, 8), 4) + Le(EncodeB(p.realFn - (p.trampVa + 4)), 4) + Le(RET_WORD, 4)
  }

  function CallSite(p: Site): (b: seq<byte>)
    ensures |b| == 4
  {
    Le(EncodeBl(p.trampVa - p.patchVa), 4)
  }

  function Patched(d: seq<byte>, p: Site): seq<byte>
    requires InFile(|d|, p)
  {
    Splice(Splice(d, p.trampFo, Trampoline(p)), p.patchFo, CallSite(p))
  }

  method WriteBytes(d: array<byte>, off: nat, b: seq<byte>)
    requires off + |b| <= d.Length
    modifies d
    ensures d[..] == Splice(old(d[..]), off, b)
  {
    for i := 0 to |b|
      invariant forall k :: 0 <= k < d.Length ==> d[k] == if off <= k < off + i then b[k - off] else old(d[k])
    {
      d[off + i] := b[i];
    }
  }

  /** Every failed check leaves the file alone; a passed one writes the trampoline, then the call. */
  method PatchGuard(d: array<byte>, p: Site, dryRun: bool) returns (ok: bool)
    modifies d
    ensures ok <==> InFile(d.Length, p) && Anchored(old(d[..]), p) && Reachable(p)
    ensures d[..] == if ok && !dryRun then Patched(old(d[..]), p) else old(d[..])
  {
    hide Trampoline, CallSite, Splice, BranchReach;
    if p.ldrFo + 4 > d.Length || d[p.ldrFo..p.ldrFo + 4] != LDR_BYTES {
      return false;
    }
    if p.patchFo + 4 > d.Length || d[p.patchFo + 3] / 4 * 4 != 0x94 {
      return false;
    }
    if p.trampFo + 16 > d.Length || d[p.trampFo..p.trampFo + 16] != Filler() {
      return false;
    }
    if !Reachable(p) {
      return false;
    }
    if !dryRun {
      WriteBytes(d, p.trampFo, Trampoline(p));
      WriteBytes(d, p.patchFo, CallSite(p));
    }
    return true;
  }

  /** The checks imply that the two edits do not overlap, so exactly the 12 and the 4 bytes are replaced. */
  lemma EditsAreDisjoint(d: seq<byte>, p: Site)
    requires InFile(|d|, p) && Anchored(d, p)
    ensures p.patchFo + 4 <= p.trampFo || p.trampFo + 12 <= p.patchFo
    ensures Patched(d, p)[p.trampFo..p.trampFo + 12] == Trampoline(p)
    ensures Patched(d, p)[p.patchFo..p.patchFo + 4] == CallSite(p)
    ensures forall i :: 0 <= i < |d| && !(p.trampFo <= i < p.trampFo + 12) && !(p.patchFo <= i < p.patchFo + 4) ==>
      Patched(d, p)[i] == d[i]
  {
    hide Trampoline, CallSite;
    forall j | p.trampFo <= j < p.trampFo + 16
      ensures d[j] == 0
    {
      assert d[j] == d[p.trampFo..p.trampFo + 16][j - p.trampFo] == Filler()[j - p.trampFo];
    }
  }

  // ---- running the patched call ----

  /** The memory holds the file's bytes at the call site and at the trampoline. */
  ghost predicate Mapped(mem: int -> byte, d: seq<byte>, p: Site)
    requires InFile(|d|, p)
  {
    && ReadBytes(mem, p.patchVa, 4) == d[p.patchFo..p.patchFo + 4]
    && ReadBytes(mem, p.trampVa, 12) == d[p.trampFo..p.trampFo + 12]
  }

  /** The patched words, as the machine decodes them. */
  lemma PatchedWords(mem: int -> byte, d: seq<byte>, p: Site)
    requires InFile(|d|, p) && Anchored(d, p) && Reachable(p) && Mapped(mem, Patched(d, p), p)
    ensures Decode(Word32(mem, p.patchVa)) == Some(Bl(p.trampVa - p.patchVa))
    ensures Decode(Word32(mem, p.trampVa)) == Some(Cbz(0, 8))
    ensures Decode(Word32(mem, p.trampVa + 4)) == Some(B(p.realFn - (p.trampVa + 4)))
    ensures Decode(Word32(mem, p.trampVa + 8)) == Some(Ret(30))
  {
    hide Decode, Word32, EncodeCbz, EncodeB, EncodeBl, Le, Anchored, BranchReach, Splice, Patched;
    EditsAreDisjoint(d, p);
    WordOfBytes(mem, p.patchVa, EncodeBl(p.trampVa - p.patchVa));
    DecodeBranch(p.trampVa - p.patchVa);
    TrampolineWords(mem, p);
    DecodeCbz8(0);
    DecodeBranch(p.realFn - (p.trampVa + 4));
    DecodeRet();
  }

  lemma PartOf(mem: int -> byte, a: int, t: seq<byte>, off: nat)
    requires off + 4 <= |t| && ReadBytes(mem, a, |t|) == t
    ensures ReadBytes(mem, a + off, 4) == t[off..off + 4]
  {
    var l, r := ReadBytes(mem, a + off, 4), t[off..off + 4];
    forall i | 0 <= i < 4
      ensures l[i] == r[i]
    {
      assert ReadBytes(mem, a, |t|)[off + i] == mem(a + (off + i));
    }
  }

  lemma TrampolineWords(mem: int -> byte, p: Site)
    requires ReadBytes(mem, p.trampVa, 12) == Trampoline(p)
    ensures Word32(mem, p.trampVa) == EncodeCbz(0, 8)
    ensures Word32(mem, p.trampVa + 4) == EncodeB(p.realFn - (p.trampVa + 4))
    ensures Word32(mem, p.trampVa + 8) == RET_WORD
  {
    hide Word32, EncodeCbz, EncodeB, Le;
    var t := Trampoline(p);
    var b := EncodeB(p.realFn - (p.trampVa + 4));
    assert t[0..4] == Le(EncodeCbz(0, 8), 4) && t[4..8] == Le(b, 4) && t[8..12] == Le(RET_WORD, 4);
    PartOf(mem, p.trampVa, t, 0);
    PartOf(mem, p.trampVa, t, 4);
    PartOf(mem, p.trampVa, t, 8);
    WordOfBytes(mem, p.trampVa, EncodeCbz(0, 8));
    WordOfBytes(mem, p.trampVa + 4, b);
    WordOfBytes(mem, p.trampVa + 8, RET_WORD);
  }

  /** What the call does after patching: with x0 non-zero it is a direct call of the real function, with x0 zero
      it returns at once and only x30 and the PC have changed. */
  lemma GuardedCall(s: State, d: seq<byte>, p: Site, pac: Pac)
    requires InFile(|d|, p) && Anchored(d, p) && Reachable(p) && Mapped(s.mem, Patched(d, p), p)
    requires s.pc == p.patchVa && p.patchVa + 4 < TWO64 && p.trampVa + 12 < TWO64
    ensures Steps(s, 3, pac) == Some(
      if s.x[0] != 0 then Exec(Bl(p.realFn - p.patchVa), s, pac)
      else s.(x := s.x[30 := p.patchVa + 4], pc := p.patchVa + 4))
  {
    hide Decode, Word32, Steps, Anchored, Reachable, Mapped, Patched;
    PatchedWords(s.mem, d, p);
    var r := s.x[30 := p.patchVa + 4];
    var s1 := s.(x := r, pc := p.trampVa);
    assert Step(s, pac) == Some(s1) by { WrapSmall(p.patchVa + 4); WrapSmall(p.trampVa); }
    if s.x[0] != 0 {
      var s2 := s1.(pc := p.trampVa + 4);
      assert Step(s1, pac) == Some(s2) by { WrapSmall(p.trampVa + 4); }
      var s3 := s1.(pc := p.realFn);
      assert Step(s2, pac) == Some(s3) by { WrapSmall(p.realFn); }
      assert Exec(Bl(p.realFn - p.patchVa), s, pac) == s3 by { WrapSmall(p.patchVa + 4); WrapSmall(p.realFn); }
      ThreeSteps(s, s1, s2, s3, pac);
    } else {
      var s2 := s1.(pc := p.trampVa + 8);
      assert Step(s1, pac) == Some(s2) by { WrapSmall(p.trampVa + 8); }
      var s3 := s1.(pc := p.patchVa + 4);
      assert Step(s2, pac) == Some(s3) by { WrapSmall(p.patchVa + 4); }
      ThreeSteps(s, s1, s2, s3, pac);
    }
  }

  /** The script does not look at the target of the call it replaces: with x0 non-zero the patched call enters the
      same function as the original one exactly when that call went to the assumed address. */
  lemma KeepsOriginalCall(s: State, d: seq<byte>, p: Site, pac: Pac, off: int)
    requires InFile(|d|, p) && Anchored(d, p) && Reachable(p) && Mapped(s.mem, Patched(d, p), p)
    requires s.pc == p.patchVa && p.patchVa + 4 < TWO64 && p.trampVa + 12 < TWO64
    requires s.x[0] != 0 && 0 <= p.patchVa + off < TWO64
    ensures Steps(s, 3, pac) == Some(Exec(Bl(off), s, pac)) <==> p.patchVa + off == p.realFn
  {
    hide Steps, Anchored, Reachable, Mapped, Patched;
    GuardedCall(s, d, p, pac);
    WrapSmall(p.patchVa + off);
    WrapSmall(p.realFn);
  }

  /** What must be found before anything is written: `ldr x0, [x19, #0x21a8]` in front of the call, a direct call with
      link at the site, and sixteen zero bytes for the trampoline. */
  lemma AnchoredExactly(d: seq<byte>, p: Site)
    requires InFile(|d|, p)
    ensures Anchored(d, p) <==> (
      && d[p.ldrFo..p.ldrFo + 4] == [0x60, 0xD6, 0x50, 0xF9]
      && 0x94 <= d[p.patchFo + 3] <= 0x97
      && forall i :: p.trampFo <= i < p.trampFo + 16 ==> d[i] == 0)
  {
    var t := d[p.trampFo..p.trampFo + 16];
    assert forall i :: 0 <= i < 16 ==> t[i] == d[p.trampFo + i];
    if forall i :: p.trampFo <= i < p.trampFo + 16 ==> d[i] == 0 {
      assert t == Filler();
    } else {
      var i :| p.trampFo <= i < p.trampFo + 16 && d[i] != 0;
      assert t[i - p.trampFo] != Filler()[i - p.trampFo];
    }
  }

  /** The bytes that are written. */
  lemma PatchBytes(p: Site)
    requires Reachable(p)
    ensures var b, c: int := p.realFn - (p.trampVa + 4), p.trampVa - p.patchVa;
      && Trampoline(p) == Le(0xB400_0040, 4) + Le(0x1400_0000 + (if b >= 0 then b / 4 else b / 4 + 0x400_0000), 4)
                          + Le(0xD65F_03C0, 4)
      && CallSite(p) == Le(0x9400_0000 + (if c >= 0 then c / 4 else c / 4 + 0x400_0000), 4)
  {
    hide Le, EncodeB, EncodeBl, EncodeCbz;
    BranchWords(p.realFn - (p.trampVa + 4), 0);
    BranchWords(p.trampVa - p.patchVa, 0);
  }
}
