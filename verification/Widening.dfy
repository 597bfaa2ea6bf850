/** The 32-to-64-bit widening of experiments/md0-size: which instructions are edited and what the edits mean. */
module Widening {
  import opened Wrappers
  import opened Words
  import opened A64

  datatype Shift = ShiftLeft | ShiftRight | ShiftSigned
  datatype Extend = Uxtb | Uxth | Uxtw | Uxtx | Sxtb | Sxth | Sxtw | Sxtx

  /** The disassembled forms the script distinguishes; register 31 is the stack pointer in SubImm and, but for
      the second operand, in SubExt, and the zero register elsewhere. */
  datatype Op =
    | Lsl(rd: nat, rn: nat, sh: nat)
    | AddLsl(rd: nat, rn: nat, rm: nat, sh: nat)
    | SubImm(rd: nat, rn: nat, imm: nat)
    | SubReg(rd: nat, rn: nat, rm: nat, kind: Shift, sh: nat)
    | SubExt(rd: nat, rn: nat, rm: nat, ext: Extend, sh: nat)
    | Udiv(rd: nat, rn: nat, rm: nat)
    | Ldr(rt: nat, base: nat, off: nat)

  /** A w-form (wide false) or x-form of an operation; Other stands for every other instruction. */
  datatype Insn = Insn(wide: bool, op: Op) | Other(id: nat)

  /** One slot per word; None where nothing decodes. */
  type Code = seq<Option<Insn>>

  /** The text with every w turned into an x. */
  function Wide(i: Insn): Insn { if i.Insn? then Insn(true, WideOp(i.op)) else i }

  function WideOp(op: Op): Op {
    if op.SubExt? && op.ext == Uxtw then op.(ext := Uxtx)
    else if op.SubExt? && op.ext == Sxtw then op.(ext := Sxtx)
    else op
  }

  /** The text has a w in it: a 32-bit form, or an extended register that is written as one. */
  predicate HasW(i: Insn) { i.Insn? && (!i.wide || (i.op.SubExt? && i.op.ext != Uxtx && i.op.ext != Sxtx)) }

  // ---- the plan ----

  /** The size register of a 32-bit page-to-byte conversion: `lsl ws, ws, #12` or `add ws, wx, ws, lsl #12`. */
  function SizeRegister(i: Insn): Option<nat> {
    if !i.Insn? || i.wide then None
    else match i.op
      case Lsl(rd, rn, sh) => if rd == rn && sh == 12 && rd < 31 then Some(rd) else None
      case AddLsl(rd, rn, rm, sh) => if rd == rm && sh == 12 && rd < 31 && rn < 31 then Some(rm) else None
      case _ => None
  }

  /** `ldr ws, [x?, #8]` */
  predicate LoadsSize(i: Option<Insn>, reg: nat) {
    i.Some? && i.value.Insn? && !i.value.wide && i.value.op.Ldr?
    && i.value.op.rt == reg && i.value.op.base < 31 && i.value.op.off == 8
  }

  /** The conversion at i works on a register loaded from the size field at most four instructions before. */
  predicate IsSite(code: Code, i: nat) {
    && i < |code| && code[i].Some?
    && var r := SizeRegister(code[i].value);
    && r.Some? && exists j :: 0 <= j < i && i - 4 <= j && LoadsSize(code[j], r.value)
  }

  method FindSites(code: Code) returns (sites: seq<nat>)
    ensures forall i: nat :: i in sites <==> IsSite(code, i)
    ensures forall j, k :: 0 <= j < k < |sites| ==> sites[j] < sites[k]
  {
    hide SizeRegister, LoadsSize;
    sites := [];
    for i := 0 to |code|
      invariant forall k: nat :: k in sites <==> k < i && IsSite(code, k)
      invariant forall j, k :: 0 <= j < k < |sites| ==> sites[j] < sites[k]
      invariant forall k :: 0 <= k < |sites| ==> sites[k] < i
    {
      if code[i].Some? && SizeRegister(code[i].value).Some? {
        var reg := SizeRegister(code[i].value).value;
        var lo := if i >= 4 then i - 4 else 0;
        var ok := false;
        for j := lo to i
          invariant ok <==> exists k :: lo <= k < j && LoadsSize(code[k], reg)
        {
          if LoadsSize(code[j], reg) {
            ok := true;
          }
        }
        if ok {
          sites := sites + [i];
        }
      }
    }
  }

  /** The dependent operations of the block-count form, by mnemonic:
      subtracting from the zero register is called neg. */
  predicate IsDependent(i: Insn) {
    HasW(i) && (i.op.SubImm? || (i.op.SubReg? && i.op.rn != 31) || i.op.SubExt? || i.op.Udiv?)
  }

  predicate IsAdd(code: Code, i: nat) { i < |code| && code[i].Some? && code[i].value.Insn? && code[i].value.op.AddLsl? }

  /** The instruction at k is to be widened. */
  predicate Planned(code: Code, k: nat) {
    || IsSite(code, k)
    || (k >= 1 && IsSite(code, k - 1) && IsAdd(code, k - 1) && k < |code| && code[k].Some?
        && IsDependent(code[k].value))
    || (k >= 2 && IsSite(code, k - 2) && IsAdd(code, k - 2) && k < |code| && code[k].Some?
        && IsDependent(code[k].value))
  }

  /** Planning reads the two words behind an add site; they must decode. */
  predicate SitePlannable(code: Code, i: nat) {
    IsAdd(code, i) ==> i + 2 < |code| && code[i + 1].Some? && code[i + 2].Some?
  }

  ghost predicate Plannable(code: Code) {
    forall i: nat :: IsSite(code, i) ==> SitePlannable(code, i)
  }

  datatype Edit = Edit(at: nat, insn: Insn)

  /** The edits of one site. */
  method PlanSite(code: Code, i: nat) returns (r: Result<seq<Edit>>)
    requires i < |code| && code[i].Some?
    ensures r.Ok? <==> SitePlannable(code, i)
    ensures r.Ok? ==> Covered(code, r.value, i) && forall e :: e in r.value ==> EditAt(code, i, e)
  {
    hide IsDependent, IsAdd;
    var plan := [Edit(i, Wide(code[i].value))];
    assert plan[0] in plan;
    if IsAdd(code, i) {
      if i + 2 >= |code| || code[i + 1].None? || code[i + 2].None? {
        return Err(ValueError);
      }
      var e1, e2 := Edit(i + 1, Wide(code[i + 1].value)), Edit(i + 2, Wide(code[i + 2].value));
      if IsDependent(code[i + 1].value) {
        plan := plan + [e1];
      }
      if IsDependent(code[i + 2].value) {
        plan := plan + [e2];
      }
      assert IsDependent(code[i + 1].value) ==> e1 in plan;
      assert IsDependent(code[i + 2].value) ==> e2 in plan;
      assert Edit(i, Wide(code[i].value)) in plan;
    }
    return Ok(plan);
  }

  method BuildPlan(code: Code) returns (r: Result<seq<Edit>>)
    ensures r.Ok? <==> Plannable(code)
    ensures r.Ok? ==> forall k: nat :: (exists e :: e in r.value && e.at == k) <==> Planned(code, k)
    ensures r.Ok? ==> forall e :: e in r.value ==> e.at < |code| && code[e.at].Some? && e.insn == Wide(code[e.at].value)
  {
    hide IsSite, IsDependent, IsAdd, Covered, Planned;
    var sites := FindSites(code);
    SitesDecode(code);
    var plan: seq<Edit> := [];
    for n := 0 to |sites|
      invariant forall i :: 0 <= i < n ==> SitePlannable(code, sites[i])
      invariant forall e :: e in plan ==> EditOf(code, sites, e)
      invariant forall i :: 0 <= i < n ==> Covered(code, plan, sites[i])
    {
      var i := sites[n];
      assert i in sites;
      var edits := PlanSite(code, i);
      if edits.Err? {
        return edits;
      }
      CoveredStays(code, plan, plan + edits.value, sites, n);
      CoveredMore(code, edits.value, plan + edits.value, i);
      plan := plan + edits.value;
    }
    assert forall i :: i in sites ==> SitePlannable(code, i);
    PlanIsExact(code, sites, plan);
    return Ok(plan);
  }

  lemma CoveredMore(code: Code, before: seq<Edit>, plan: seq<Edit>, i: nat)
    requires Covered(code, before, i) && forall e :: e in before ==> e in plan
    ensures Covered(code, plan, i)
  {
    hide IsDependent, IsAdd;
  }

  lemma SitesDecode(code: Code)
    ensures forall i: nat :: IsSite(code, i) ==> i < |code| && code[i].Some?
  {
  }

  /** The edit is one the site at i calls for. */
  ghost predicate EditAt(code: Code, i: nat, e: Edit) {
    && e.at < |code| && code[e.at].Some? && e.insn == Wide(code[e.at].value)
    && (e.at == i || (IsAdd(code, i) && (e.at == i + 1 || e.at == i + 2) && IsDependent(code[e.at].value)))
  }

  ghost predicate EditOf(code: Code, sites: seq<nat>, e: Edit) {
    exists i :: i in sites && EditAt(code, i, e)
  }

  /** Every edit the site calls for is in the plan. */
  ghost predicate Covered(code: Code, plan: seq<Edit>, i: nat) {
    && (exists e :: e in plan && e.at == i)
    && (IsAdd(code, i) ==> forall k :: i < k <= i + 2 && k < |code| && code[k].Some? && IsDependent(code[k].value) ==>
          exists e :: e in plan && e.at == k)
  }

  lemma CoveredStays(code: Code, before: seq<Edit>, plan: seq<Edit>, sites: seq<nat>, n: nat)
    requires n <= |sites| && (forall e :: e in before ==> e in plan)
    requires forall i :: 0 <= i < n ==> Covered(code, before, sites[i])
    ensures forall i :: 0 <= i < n ==> Covered(code, plan, sites[i])
  {
    hide IsDependent, IsAdd;
  }

  lemma PlanIsExact(code: Code, sites: seq<nat>, plan: seq<Edit>)
    requires forall i: nat :: i in sites <==> IsSite(code, i)
    requires forall e :: e in plan ==> EditOf(code, sites, e)
    requires forall i :: 0 <= i < |sites| ==> Covered(code, plan, sites[i])
    ensures forall k: nat :: (exists e :: e in plan && e.at == k) <==> Planned(code, k)
  {
    hide IsSite, IsDependent, IsAdd, Covered, EditAt, Planned;
    forall e | e in plan
      ensures Planned(code, e.at)
    {
      var i :| i in sites && EditAt(code, i, e);
      EditPlanned(code, i, e);
    }
    forall k: nat | Planned(code, k)
      ensures exists e :: e in plan && e.at == k
    {
      PlannedCovered(code, sites, plan, k);
    }
  }

  lemma EditPlanned(code: Code, i: nat, e: Edit)
    requires IsSite(code, i) && EditAt(code, i, e)
    ensures Planned(code, e.at)
  {
    hide IsSite, IsDependent, IsAdd;
  }

  lemma PlannedCovered(code: Code, sites: seq<nat>, plan: seq<Edit>, k: nat)
    requires forall i: nat :: i in sites <==> IsSite(code, i)
    requires forall i :: 0 <= i < |sites| ==> Covered(code, plan, sites[i])
    requires Planned(code, k)
    ensures exists e :: e in plan && e.at == k
  {
    hide IsSite, IsDependent, IsAdd;
    assert forall i :: i in sites ==> Covered(code, plan, i);
    if IsSite(code, k) {
      assert Covered(code, plan, k);
    } else if k >= 1 && IsSite(code, k - 1) && IsAdd(code, k - 1) {
      assert Covered(code, plan, k - 1);
    } else {
      assert Covered(code, plan, k - 2);
    }
  }

  /** The code with the planned instructions in their x-form. */
  ghost function Widened(code: Code): (r: Code)
    ensures |r| == |code|
  {
    seq(|code|, k requires 0 <= k < |code| =>
      if Planned(code, k) && code[k].Some? then Some(Wide(code[k].value)) else code[k])
  }

  /** The in-place edit loop; assembles says which texts the assembler accepts, and it gives up at one it does not. */
  method ApplyPlan(buf: array<Option<Insn>>, plan: seq<Edit>, assembles: Insn -> bool) returns (ok: bool)
    requires forall e :: e in plan ==> e.at < buf.Length && buf[e.at].Some? && e.insn == Wide(buf[e.at].value)
    requires forall k: nat :: (exists e :: e in plan && e.at == k) <==> Planned(buf[..], k)
    modifies buf
    ensures ok <==>
      forall k: nat :: Planned(old(buf[..]), k) && k < buf.Length && old(buf[k]).Some? ==>
        assembles(Wide(old(buf[k]).value))
    ensures ok ==> buf[..] == Widened(old(buf[..]))
  {
    hide Planned, Wide;
    ghost var code := buf[..];
    for n := 0 to |plan|
      invariant forall k :: 0 <= k < buf.Length ==>
        buf[k] == if exists i :: 0 <= i < n && plan[i].at == k then Some(Wide(code[k].value)) else code[k]
      invariant forall i :: 0 <= i < n ==> assembles(plan[i].insn)
    {
      assert plan[n] in plan;
      if !assembles(plan[n].insn) {
        assert Planned(code, plan[n].at);
        return false;
      }
      buf[plan[n].at] := Some(plan[n].insn);
    }
    forall k | 0 <= k < buf.Length
      ensures buf[k] == Widened(code)[k]
    {
      assert (exists i :: 0 <= i < |plan| && plan[i].at == k) <==> exists e :: e in plan && e.at == k;
    }
    return true;
  }

  // ---- what the instructions do ----

  /** What a block works on. */
  datatype Machine = Machine(x: Regs, sp: u64, mem: int -> byte)

  predicate UsesSp(op: Op) { op.SubImm? || op.SubExt? }

  function R(m: Machine, r: nat, sp: bool): u64 { if r < 31 then m.x[r] else if sp then m.sp else 0 }

  function SetR(m: Machine, r: nat, sp: bool, v: u64): Machine {
    if r < 31 then m.(x := m.x[r := v]) else if sp then m.(sp := v) else m
  }

  /** The operand registers; 31 where there is none. */
  function First(op: Op): nat {
    match op
    case Lsl(_, rn, _) => rn
    case AddLsl(_, rn, _, _) => rn
    case SubImm(_, rn, _) => rn
    case SubReg(_, rn, _, _, _) => rn
    case SubExt(_, rn, _, _, _) => rn
    case Udiv(_, rn, _) => rn
    case Ldr(_, base, _) => base
  }

  function Second(op: Op): nat {
    match op
    case AddLsl(_, _, rm, _) => rm
    case SubReg(_, _, rm, _, _) => rm
    case SubExt(_, _, rm, _, _) => rm
    case Udiv(_, _, rm) => rm
    case _ => 31
  }

  function Dest(op: Op): nat {
    match op
    case Lsl(rd, _, _) => rd
    case AddLsl(rd, _, _, _) => rd
    case SubImm(rd, _, _) => rd
    case SubReg(rd, _, _, _, _) => rd
    case SubExt(rd, _, _, _, _) => rd
    case Udiv(rd, _, _) => rd
    case Ldr(rt, _, _) => rt
  }

  function FirstValue(op: Op, m: Machine): u64 { R(m, First(op), UsesSp(op)) }
  function SecondValue(op: Op, m: Machine): u64 { R(m, Second(op), false) }

  function Shifted(wide: bool, kind: Shift, b: nat, sh: nat): int {
    match kind
    case ShiftLeft => b * Pow2(sh)
    case ShiftRight => b / Pow2(sh)
    case ShiftSigned => Signed(b, if wide then 0x8000_0000_0000_0000 else 0x8000_0000) / Pow2(sh)
  }

  function Extended(ext: Extend, b: nat): int {
    match ext
    case Uxtb => b % 0x100
    case Uxth => b % 0x1_0000
    case Uxtw => b % TWO32
    case Uxtx => b
    case Sxtb => Signed(b % 0x100, 0x80)
    case Sxth => Signed(b % 0x1_0000, 0x8000)
    case Sxtw => Signed(b % TWO32, 0x8000_0000)
    case Sxtx => b
  }

  /** The result over the integers, before it is cut to the register width. */
  function Exact(wide: bool, op: Op, a: nat, b: nat): int {
    match op
    case Lsl(_, _, sh) => a * Pow2(sh)
    case AddLsl(_, _, _, sh) => a + b * Pow2(sh)
    case SubImm(_, _, imm) => a - imm
    case SubReg(_, _, _, kind, sh) => a - Shifted(wide, kind, b, sh)
    case SubExt(_, _, _, ext, sh) => a - Extended(ext, b) * Pow2(sh)
    case Udiv(_, _, _) => if b == 0 then 0 else a / b
    case Ldr(_, _, _) => 0
  }

  /** The w-form works on the low halves and clears the upper half of its result. */
  function ExecOp(wide: bool, op: Op, m: Machine): Machine {
    var a, b := FirstValue(op, m), SecondValue(op, m);
    if op.Ldr? then
      var at := R(m, op.base, true) + op.off;
      SetR(m, op.rt, false, if wide then Word64(m.mem, at) else Word32(m.mem, at))
    else if wide then SetR(m, Dest(op), UsesSp(op), Exact(true, op, a, b) % TWO64)
    else SetR(m, Dest(op), UsesSp(op), Exact(false, op, a % TWO32, b % TWO32) % TWO32)
  }

  /** other gives the effect of the instructions that are not modelled, on registers and memory. */
  function ExecInsn(i: Insn, m: Machine, other: (nat, Machine) -> Machine): Machine {
    match i
    case Other(id) => other(id, m)
    case Insn(wide, op) => ExecOp(wide, op, m)
  }

  function RunBlock(block: seq<Insn>, m: Machine, other: (nat, Machine) -> Machine): Machine {
    if block == [] then m else ExecInsn(block[|block| - 1], RunBlock(block[..|block| - 1], m, other), other)
  }

  /** The second operand is read with its sign, so its top bit matters. */
  predicate ReadsSign(op: Op) { (op.SubReg? && op.kind == ShiftSigned) || (op.SubExt? && op.ext == Sxtw) }

  /** The operands that are read by halves have zero upper halves, and the exact result fits the lower half. */
  predicate Fits(i: Insn, m: Machine) {
    && i.Insn? && !i.op.Ldr?
    && var a, b := FirstValue(i.op, m), SecondValue(i.op, m);
    && b < TWO32 && (ReadsSign(i.op) ==> b < TWO31)
    && (!i.wide ==> a < TWO32 && 0 <= Exact(true, WideOp(i.op), a, b) < TWO32)
  }

  lemma ExactSame(wide: bool, op: Op, a: nat, b: nat)
    requires b < TWO32 && (ReadsSign(op) ==> b < TWO31)
    ensures Exact(true, WideOp(op), a, b) == Exact(wide, op, a, b)
  {
    hide Pow2;
  }

  lemma WideSame(i: Insn, m: Machine)
    requires Fits(i, m)
    ensures Wide(i).Insn? && ExecOp(true, Wide(i).op, m) == ExecOp(i.wide, i.op, m)
  {
    hide Exact;
    var a, b := FirstValue(i.op, m), SecondValue(i.op, m);
    ExactSame(i.wide, i.op, a, b);
    if !i.wide {
      assert a % TWO32 == a && b % TWO32 == b;
      var e := Exact(true, WideOp(i.op), a, b);
      assert e % TWO32 == e && e % TWO64 == e;
    }
  }

  /** Edits that each fit where they execute do not change what a straight-line block does to registers and memory. */
  lemma {:induction false} WideningPreserves(block: seq<Insn>, edited: seq<Insn>, m: Machine,
                                             other: (nat, Machine) -> Machine)
    requires |edited| == |block|
    requires forall k :: 0 <= k < |block| ==>
      edited[k] == block[k] || (edited[k] == Wide(block[k]) && Fits(block[k], RunBlock(block[..k], m, other)))
    ensures RunBlock(edited, m, other) == RunBlock(block, m, other)
    decreases |block|
  {
    hide Fits, ExecOp, Wide;
    if block != [] {
      var n := |block| - 1;
      forall k | 0 <= k < n
        ensures block[..n][..k] == block[..k]
      {
      }
      WideningPreserves(block[..n], edited[..n], m, other);
      if edited[n] != block[n] {
        FitsIsInsn(block[n], RunBlock(block[..n], m, other));
        WideSame(block[n], RunBlock(block[..n], m, other));
      }
    }
  }

  lemma FitsIsInsn(i: Insn, m: Machine)
    requires Fits(i, m)
    ensures i.Insn? && Wide(i).Insn? && Wide(i).wide
  {
  }

  /** The instructions at lo..hi, all of which decode. */
  function Block(code: Code, lo: nat, hi: nat): (r: seq<Insn>)
    requires lo <= hi <= |code| && forall k :: lo <= k < hi ==> code[k].Some?
    ensures |r| == hi - lo && forall i :: 0 <= i < |r| ==> r[i] == code[lo + i].value
  {
    seq(hi - lo, i requires 0 <= i < hi - lo => code[lo + i].value)
  }

  lemma WidenedDecodes(code: Code, lo: nat, hi: nat)
    requires lo <= hi <= |code| && forall k :: lo <= k < hi ==> code[k].Some?
    ensures forall k :: lo <= k < hi ==>
      && Widened(code)[k].Some?
      && Widened(code)[k].value == if Planned(code, k) then Wide(code[k].value) else code[k].value
  {
    hide Planned, Wide;
  }

  /** The script's own plan: any straight-line stretch of the widened code does what it did before, when every planned
      instruction in it fits where it executes. */
  lemma PlanPreserves(code: Code, lo: nat, hi: nat, m: Machine, other: (nat, Machine) -> Machine)
    requires lo <= hi <= |code| && forall k :: lo <= k < hi ==> code[k].Some?
    requires forall k: nat :: lo <= k < hi && Planned(code, k) ==>
      Fits(code[k].value, RunBlock(Block(code, lo, hi)[..k - lo], m, other))
    ensures forall k :: lo <= k < hi ==> Widened(code)[k].Some?
    ensures RunBlock(Block(Widened(code), lo, hi), m, other) == RunBlock(Block(code, lo, hi), m, other)
  {
    hide Planned, Wide, Fits, RunBlock, Widened;
    WidenedDecodes(code, lo, hi);
    var block, edited := Block(code, lo, hi), Block(Widened(code), lo, hi);
    forall i | 0 <= i < |block|
      ensures edited[i] == block[i] || (edited[i] == Wide(block[i]) && Fits(block[i], RunBlock(block[..i], m, other)))
    {
      if Planned(code, lo + i) {
        assert Fits(code[lo + i].value, RunBlock(block[..lo + i - lo], m, other));
      }
    }
    WideningPreserves(block, edited, m, other);
  }

  // ---- the page count ----

  /** For every 32-bit page count the widened conversion gives the exact
      byte size and the w-form gives it modulo 2^32. */
  lemma PagesToBytes(reg: nat, m: Machine)
    requires reg < 31 && m.x[reg] < TWO32
    ensures ExecOp(true, Lsl(reg, reg, 12), m) == m.(x := m.x[reg := m.x[reg] * 4096])
    ensures ExecOp(false, Lsl(reg, reg, 12), m) == m.(x := m.x[reg := m.x[reg] * 4096 % TWO32])
  {
    PageFactor();
    hide Pow2;
  }

  lemma PageFactor()
    ensures Pow2(12) == 4096
  {
    assert Pow2(6) == 64;
    Pow2Add(6, 6);
  }

  /** The two forms agree exactly below 2^20 pages. */
  lemma TruncationPoint(reg: nat, m: Machine)
    requires reg < 31 && m.x[reg] < TWO32
    ensures ExecOp(true, Lsl(reg, reg, 12), m) == ExecOp(false, Lsl(reg, reg, 12), m) <==> m.x[reg] < 0x10_0000
  {
    hide ExecOp;
    PagesToBytes(reg, m);
    var v: int := m.x[reg];
    assert m.x[reg := m.x[reg] * 4096][reg] == v * 4096;
    assert m.x[reg := m.x[reg] * 4096 % TWO32][reg] == v * 4096 % TWO32;
  }

  /** The block-count form adds the exact byte size. */
  lemma PagesAdded(reg: nat, rn: nat, m: Machine)
    requires reg < 31 && rn < 31 && m.x[reg] < TWO32 && m.x[rn] + m.x[reg] * 4096 < TWO64
    ensures ExecOp(true, AddLsl(reg, rn, reg, 12), m) == m.(x := m.x[reg := m.x[rn] + m.x[reg] * 4096])
  {
    PageFactor();
    hide Pow2;
    assert Exact(true, AddLsl(reg, rn, reg, 12), m.x[rn], m.x[reg]) == m.x[rn] + m.x[reg] * 4096;
  }

  // ---- the plan by its purpose ----

  /** A 32-bit load of register s from the size field at j, at most four instructions before i. */
  ghost predicate SizeLoaded(code: Code, i: nat, s: nat) {
    exists j: nat, b: nat :: j < i <= j + 4 && i <= |code| && b < 31 && code[j] == Some(Insn(false, Ldr(s, b, 8)))
  }

  /** `lsl ws, ws, #12` or `add ws, wn, ws, lsl #12` */
  ghost predicate ConvertsPages(c: Option<Insn>, s: nat) {
    || c == Some(Insn(false, Lsl(s, s, 12)))
    || exists n: nat :: n < 31 && c == Some(Insn(false, AddLsl(s, n, s, 12)))
  }

  /** Sites by their text: such a conversion behind such a load. */
  lemma SitesByText(code: Code, i: nat)
    ensures IsSite(code, i)
      <==> i < |code| && exists s: nat :: s < 31 && SizeLoaded(code, i, s) && ConvertsPages(code[i], s)
  {
    if i < |code| && code[i].Some? && SizeRegister(code[i].value).Some? {
      var s := SizeRegister(code[i].value).value;
      LoadedBefore(code, i, s);
      var op := code[i].value.op;
      if op.AddLsl? {
        assert code[i] == Some(Insn(false, AddLsl(s, op.rn, s, 12)));
      }
    }
  }

  lemma LoadedBefore(code: Code, i: nat, s: nat)
    requires i < |code|
    ensures SizeLoaded(code, i, s) <==> exists j :: 0 <= j < i && i - 4 <= j && LoadsSize(code[j], s)
  {
    forall j | 0 <= j < i && i - 4 <= j && LoadsSize(code[j], s)
      ensures SizeLoaded(code, i, s)
    {
      assert code[j] == Some(Insn(false, Ldr(s, code[j].value.op.base, 8)));
    }
  }

  lemma RunOne(a: Insn, m: Machine, other: (nat, Machine) -> Machine)
    ensures RunBlock([a], m, other) == ExecInsn(a, m, other)
  {
    assert [a][..0] == [];
  }

  lemma RunMore(block: seq<Insn>, a: Insn, m: Machine, other: (nat, Machine) -> Machine)
    ensures RunBlock(block + [a], m, other) == ExecInsn(a, RunBlock(block, m, other), other)
  {
    assert (block + [a])[..|block|] == block;
  }

  /** Behind an add site every 32-bit sub and udiv is widened, in all its forms; neg is not, nor is what has no w. */
  lemma DependentsWidened(code: Code, i: nat, k: nat, s: nat, n: nat, rd: nat, rn: nat, rm: nat, imm: nat, sh: nat,
                          kind: Shift, ext: Extend)
    requires s < 31 && n < 31 && SizeLoaded(code, i, s) && i < |code|
    requires code[i] == Some(Insn(false, AddLsl(s, n, s, 12)))
    requires i < k <= i + 2 && k < |code|
    ensures Widened(code)[i] == Some(Insn(true, AddLsl(s, n, s, 12)))
    ensures code[k] == Some(Insn(false, SubImm(rd, rn, imm))) ==>
      Widened(code)[k] == Some(Insn(true, SubImm(rd, rn, imm)))
    ensures code[k] == Some(Insn(false, Udiv(rd, rn, rm))) ==> Widened(code)[k] == Some(Insn(true, Udiv(rd, rn, rm)))
    ensures code[k] == Some(Insn(false, SubReg(rd, rn, rm, kind, sh))) ==>
      Widened(code)[k] == Some(Insn(rn != 31, SubReg(rd, rn, rm, kind, sh)))
    ensures var ext' := if ext == Uxtw then Uxtx else if ext == Sxtw then Sxtx else ext;
      && (code[k] == Some(Insn(false, SubExt(rd, rn, rm, ext, sh))) ==>
            Widened(code)[k] == Some(Insn(true, SubExt(rd, rn, rm, ext', sh))))
      && (code[k] == Some(Insn(true, SubExt(rd, rn, rm, ext, sh))) ==>
            Widened(code)[k] == Some(Insn(true, SubExt(rd, rn, rm, ext', sh))))
    ensures code[k].None? || code[k].value.Other? || (code[k].value.wide && !code[k].value.op.SubExt?) ==>
      Widened(code)[k] == code[k]
  {
    SitesByText(code, i);
    NotItselfSite(code, k);
    hide IsSite, SizeLoaded;
  }

  lemma NotItselfSite(code: Code, k: nat)
    requires k < |code|
    ensures IsSite(code, k) ==>
      code[k].Some? && code[k].value.Insn? && !code[k].value.wide && (code[k].value.op.Lsl? || code[k].value.op.AddLsl?)
  {
    hide LoadsSize;
  }

  /** The widened byte size: from any 32-bit page count the 64-bit register holds pages * 4096. */
  lemma ByteCount(code: Code, i: nat, s: nat, m: Machine, other: (nat, Machine) -> Machine)
    requires s < 31 && SizeLoaded(code, i, s) && i < |code| && code[i] == Some(Insn(false, Lsl(s, s, 12)))
    requires m.x[s] < 0x1_0000_0000
    ensures Widened(code)[i].Some? && RunBlock([Widened(code)[i].value], m, other).x[s] == m.x[s] * 4096
  {
    SitesByText(code, i);
    assert Widened(code)[i] == Some(Insn(true, Lsl(s, s, 12)));
    hide Widened, IsSite, SizeLoaded;
    RunOne(Insn(true, Lsl(s, s, 12)), m, other);
    PagesToBytes(s, m);
  }

  /** What the block count is meant to be; udiv gives 0 for a zero divisor. */
  function LastBlock(n: nat, pages: nat, v: nat): int {
    if v == 0 then 0 else (n + pages * 4096 - 1) / v
  }

  /** The widened block count: `add ws, wn, ws, lsl #12; sub wa, ws, #1; udiv wq, wa, wv` leaves, from any 32-bit page
      count, exactly (n + pages * 4096 - 1) / v in the 64-bit register. */
  lemma BlockCount(code: Code, i: nat, s: nat, n: nat, a: nat, q: nat, v: nat, m: Machine,
                   other: (nat, Machine) -> Machine)
    requires s < 31 && n < 31 && a < 31 && q < 31 && v < 31 && v != s && v != a
    requires SizeLoaded(code, i, s) && i + 3 <= |code|
    requires code[i] == Some(Insn(false, AddLsl(s, n, s, 12)))
    requires code[i + 1] == Some(Insn(false, SubImm(a, s, 1)))
    requires code[i + 2] == Some(Insn(false, Udiv(q, a, v)))
    requires m.x[s] < 0x1_0000_0000 && 1 <= m.x[n] + m.x[s] * 4096 < 0x1_0000_0000_0000_0000
    ensures forall k :: i <= k < i + 3 ==> Widened(code)[k].Some?
    ensures RunBlock(Block(Widened(code), i, i + 3), m, other).x[q]
      == LastBlock(m.x[n], m.x[s], m.x[v])
  {
    hide Widened, SizeLoaded, RunBlock, ExecInsn;
    DependentsWidened(code, i, i + 1, s, n, a, s, 0, 1, 0, ShiftLeft, Uxtx);
    DependentsWidened(code, i, i + 2, s, n, q, a, v, 0, 0, ShiftLeft, Uxtx);
    var i1, i2, i3 := Insn(true, AddLsl(s, n, s, 12)), Insn(true, SubImm(a, s, 1)), Insn(true, Udiv(q, a, v));
    assert Block(Widened(code), i, i + 3) == [i1, i2, i3];
    BlockCountRuns(s, n, a, q, v, m, other);
  }

  lemma BlockCountRuns(s: nat, n: nat, a: nat, q: nat, v: nat, m: Machine, other: (nat, Machine) -> Machine)
    requires s < 31 && n < 31 && a < 31 && q < 31 && v < 31 && v != s && v != a
    requires m.x[s] < 0x1_0000_0000 && 1 <= m.x[n] + m.x[s] * 4096 < 0x1_0000_0000_0000_0000
    ensures var i1, i2, i3 := Insn(true, AddLsl(s, n, s, 12)), Insn(true, SubImm(a, s, 1)), Insn(true, Udiv(q, a, v));
      RunBlock([i1, i2, i3], m, other).x[q] == LastBlock(m.x[n], m.x[s], m.x[v])
  {
    var i1, i2, i3 := Insn(true, AddLsl(s, n, s, 12)), Insn(true, SubImm(a, s, 1)), Insn(true, Udiv(q, a, v));
    hide RunBlock, Exact, ExecOp, LastBlock;
    RunThree(i1, i2, i3, m, other);
    PagesAdded(s, n, m);
    var sum := m.x[n] + m.x[s] * 4096;
    var m1 := m.(x := m.x[s := sum]);
    var m2 := m1.(x := m1.x[a := sum - 1]);
    assert ExecOp(true, AddLsl(s, n, s, 12), m) == m1;
    assert ExecOp(true, SubImm(a, s, 1), m1) == m2 by { OneLess(s, a, m1); }
    Divided(q, a, v, m2, m.x[n], m.x[s]);
  }

  lemma RunThree(a: Insn, b: Insn, c: Insn, m: Machine, other: (nat, Machine) -> Machine)
    ensures RunBlock([a, b, c], m, other) == ExecInsn(c, ExecInsn(b, ExecInsn(a, m, other), other), other)
  {
    hide ExecInsn;
    RunOne(a, m, other);
    RunMore([a], b, m, other);
    RunMore([a, b], c, m, other);
    assert [a, b, c] == [a, b] + [c] && [a, b] == [a] + [b];
  }

  lemma OneLess(s: nat, a: nat, m: Machine)
    requires s < 31 && a < 31 && m.x[s] >= 1
    ensures ExecOp(true, SubImm(a, s, 1), m) == m.(x := m.x[a := m.x[s] - 1])
  {
    SmallWrap(m.x[s] - 1);
  }

  lemma Divided(q: nat, a: nat, v: nat, m: Machine, n: nat, pages: nat)
    requires q < 31 && a < 31 && v < 31 && m.x[a] as int == n + pages * 4096 - 1
    ensures ExecOp(true, Udiv(q, a, v), m).x[q] == LastBlock(n, pages, m.x[v])
  {
    DivideSmall(m.x[a], m.x[v]);
  }

  lemma SmallWrap(v: int)
    requires 0 <= v < TWO64
    ensures v % TWO64 == v
  {
  }

  lemma {:induction false} ProductAtLeast(r: nat, b: nat)
    requires b > 0
    ensures r * b >= r
  {
    if b > 1 {
      ProductAtLeast(r, b - 1);
      assert r * b == r * (b - 1) + r;
    }
  }

  lemma QuotientAtMost(a: nat, b: nat)
    requires b > 0
    ensures 0 <= a / b <= a
  {
    var r := a / b;
    assert r >= 0;
    ProductAtLeast(r, b);
    assert r * b <= a;
  }

  lemma DivideSmall(a: nat, b: nat)
    requires a < TWO64
    ensures b != 0 ==> 0 <= a / b < TWO64 && (a / b) % TWO64 == a / b
  {
    if b != 0 {
      QuotientAtMost(a, b);
      SmallWrap(a / b);
    }
  }

  /** From the load on: the page count is the 32-bit word in memory. */
  lemma BlockCountFromMemory(code: Code, j: nat, b: nat, s: nat, n: nat, a: nat, q: nat, v: nat, m: Machine,
                             other: (nat, Machine) -> Machine)
    requires b < 31 && s < 31 && n < 31 && a < 31 && q < 31 && v < 31 && n != s && v != s && v != a && j + 4 <= |code|
    requires code[j] == Some(Insn(false, Ldr(s, b, 8)))
    requires code[j + 1] == Some(Insn(false, AddLsl(s, n, s, 12)))
    requires code[j + 2] == Some(Insn(false, SubImm(a, s, 1)))
    requires code[j + 3] == Some(Insn(false, Udiv(q, a, v)))
    requires 1 <= m.x[n] as int + Word32(m.mem, m.x[b] as int + 8) as int * 4096 < 0x1_0000_0000_0000_0000
    ensures forall k :: j <= k < j + 4 ==> Widened(code)[k].Some?
    ensures RunBlock(Block(Widened(code), j, j + 4), m, other).x[q]
      == LastBlock(m.x[n], Word32(m.mem, m.x[b] as int + 8), m.x[v])
  {
    hide Word32, Widened;
    var m1 := ExecInsn(Insn(false, Ldr(s, b, 8)), m, other);
    LoadKept(code, j, b, s, n);
    BlockCount(code, j + 1, s, n, a, q, v, m1, other);
    var rest := Block(Widened(code), j + 1, j + 4);
    assert Block(Widened(code), j, j + 4) == [Insn(false, Ldr(s, b, 8))] + rest;
    RunFirst(Insn(false, Ldr(s, b, 8)), rest, m, other);
  }

  lemma LoadKept(code: Code, j: nat, b: nat, s: nat, n: nat)
    requires b < 31 && s < 31 && n < 31 && j + 1 < |code| && code[j] == Some(Insn(false, Ldr(s, b, 8)))
    ensures SizeLoaded(code, j + 1, s) && Widened(code)[j] == code[j]
  {
    NotItselfSite(code, j);
    hide IsSite;
  }

  lemma {:induction false} RunFirst(a: Insn, block: seq<Insn>, m: Machine, other: (nat, Machine) -> Machine)
    ensures RunBlock([a] + block, m, other) == RunBlock(block, ExecInsn(a, m, other), other)
    decreases |block|
  {
    hide ExecInsn;
    if block == [] {
      assert [a] + block == [a];
      RunOne(a, m, other);
    } else {
      var n := |block| - 1;
      RunFirst(a, block[..n], m, other);
      assert ([a] + block)[..n + 1] == [a] + block[..n];
    }
  }

  /** Extension takes the low bits, as an unsigned or as a signed number. */
  lemma ZeroExtensionMeans(b: u64)
    ensures 0 <= Extended(Uxtb, b) < 0x100 && (b - Extended(Uxtb, b)) % 0x100 == 0
    ensures 0 <= Extended(Uxth, b) < 0x1_0000 && (b - Extended(Uxth, b)) % 0x1_0000 == 0
    ensures 0 <= Extended(Uxtw, b) < 0x1_0000_0000 && (b - Extended(Uxtw, b)) % 0x1_0000_0000 == 0
    ensures Extended(Uxtx, b) == Extended(Sxtx, b) == b
  {
    LowBits(b, 0x100);
    LowBits(b, 0x1_0000);
    LowBits(b, 0x1_0000_0000);
  }

  lemma SignExtensionMeans(b: u64)
    ensures -0x80 <= Extended(Sxtb, b) < 0x80 && (b - Extended(Sxtb, b)) % 0x100 == 0
    ensures -0x8000 <= Extended(Sxth, b) < 0x8000 && (b - Extended(Sxth, b)) % 0x1_0000 == 0
    ensures -0x8000_0000 <= Extended(Sxtw, b) < 0x8000_0000 && (b - Extended(Sxtw, b)) % 0x1_0000_0000 == 0
  {
    SignedByte(b);
    SignedHalf(b);
    SignedWord(b);
    hide Signed;
  }

  lemma SignedByte(b: u64)
    ensures var v := Signed(b % 0x100, 0x80); -0x80 <= v < 0x80 && (b - v) % 0x100 == 0
  {
    var v, q := Signed(b % 0x100, 0x80), b / 0x100;
    assert b - v == 0x100 * q || b - v == 0x100 * (q + 1);
  }

  lemma SignedHalf(b: u64)
    ensures var v := Signed(b % 0x1_0000, 0x8000); -0x8000 <= v < 0x8000 && (b - v) % 0x1_0000 == 0
  {
    var v, q := Signed(b % 0x1_0000, 0x8000), b / 0x1_0000;
    assert b - v == 0x1_0000 * q || b - v == 0x1_0000 * (q + 1);
  }

  lemma SignedWord(b: u64)
    ensures var v := Signed(b % TWO32, 0x8000_0000); -0x8000_0000 <= v < 0x8000_0000 && (b - v) % 0x1_0000_0000 == 0
  {
    var v, q := Signed(b % TWO32, 0x8000_0000), b / TWO32;
    assert b - v == TWO32 * q || b - v == TWO32 * (q + 1);
  }

  lemma LowBits(b: nat, m: nat)
    requires m in {0x100, 0x1_0000, 0x1_0000_0000}
    ensures 0 <= b % m < m && (b - b % m) % m == 0
  {
  }

  /** A plan can be made exactly when the two words behind every add site are there and decode. */
  lemma PlannableByText(code: Code)
    ensures Plannable(code) <==>
      forall i: nat :: IsSite(code, i) && code[i].value.op.AddLsl? ==>
        i + 2 < |code| && code[i + 1].Some? && code[i + 2].Some?
  {
    hide IsSite, SizeRegister, LoadsSize;
    SitesAreInsns(code);
    forall i: nat | IsSite(code, i)
      ensures SitePlannable(code, i) <==>
        (code[i].value.op.AddLsl? ==> i + 2 < |code| && code[i + 1].Some? && code[i + 2].Some?)
    {
    }
  }

  lemma SitesAreInsns(code: Code)
    ensures forall i: nat :: IsSite(code, i) ==> i < |code| && code[i].Some? && code[i].value.Insn?
  {
  }

  /** A subtraction reads and writes SP as register 31 in its immediate and extended forms, and the zero register in its
      shifted form. */
  lemma RegisterThirtyOne(m: Machine, imm: nat, rm: nat, rd: nat)
    requires imm <= m.sp && rm < 31 && rd < 31 && m.x[rm] <= m.sp
    ensures ExecOp(true, SubImm(31, 31, imm), m) == m.(sp := m.sp - imm)
    ensures ExecOp(true, SubExt(31, 31, rm, Uxtx, 0), m) == m.(sp := m.sp - m.x[rm])
    ensures ExecOp(true, SubReg(rd, rm, 31, ShiftLeft, 0), m) == m.(x := m.x[rd := m.x[rm]])
    ensures ExecOp(true, SubReg(31, rm, rm, ShiftLeft, 0), m) == m
    ensures ExecOp(true, SubReg(rd, 31, rm, ShiftLeft, 0), m)
      == m.(x := m.x[rd := if m.x[rm] == 0 then 0 else 0x1_0000_0000_0000_0000 - m.x[rm]])
  {
    SmallWrap(m.sp - imm);
    SmallWrap(m.sp - m.x[rm]);
    SmallWrap(m.x[rm]);
    SmallWrap(0);
    var v: int := m.x[rm];
    if v > 0 {
      A64.WrapAround(-v);
    }
  }

  /** The shifted operand; a signed shift takes the sign from the register's own width. */
  lemma ShiftsMean(b: u64)
    ensures Shifted(true, ShiftLeft, b, 3) == 8 * b && Shifted(true, ShiftRight, b, 3) == b / 8
    ensures Shifted(true, ShiftSigned, b, 0) == A64.AsSigned(b)
    ensures b < 0x1_0000_0000 ==>
      Shifted(false, ShiftSigned, b, 0) == if b < 0x8000_0000 then b else b - 0x1_0000_0000
    ensures Shifted(true, ShiftSigned, b, 1) == A64.AsSigned(b) / 2
  {
    assert Pow2(0) == 1 && Pow2(1) == 2 && Pow2(3) == 8;
  }
}
