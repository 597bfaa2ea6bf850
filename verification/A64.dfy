/** A small A64 machine: the instructions the repository's code blobs use,
    decoded as in section C6.2 of the Arm Architecture Reference Manual (DDI 0487). */
module A64 {
  import opened Wrappers
  import opened Words

  datatype Instr =
    | MovReg(rd: nat, rm: nat)              // ORR Xd, XZR, Xm
    | Movz(rd: nat, imm: nat)               // MOVZ Xd, #imm
    | LdrLiteral(rt: nat, off: int)         // LDR Xt, label
    | LdrPost(rt: nat, rn: nat, off: int)   // LDR Xt, [Xn|SP], #off
    | AddImm(rd: nat, rn: nat, imm: nat)    // ADD Xd|SP, Xn|SP, #imm
    | Adrp(rd: nat, off: int)               // ADRP Xd, label: byte distance between pages
    | Cmp(rn: nat, rm: nat)                 // SUBS XZR, Xn, Xm
    | BCond(cond: nat, off: int)
    | Cbz(rt: nat, off: int)
    | B(off: int)
    | Bl(off: int)
    | Br(rn: nat)
    | Blr(rn: nat)
    | Ret(rn: nat)
    | Pacibsp
    | Retab
    | Nop

  datatype Flags = Flags(n: bool, z: bool, c: bool, v: bool)

  type Regs = r: seq<u64> | |r| == 31 witness seq(31, i => 0)

  datatype State = State(x: Regs, sp: u64, pc: u64, flags: Flags, mem: int -> byte)

  /** The key-dependent pointer authentication functions. */
  datatype Pac = Pac(sign: (u64, u64) -> u64, auth: (u64, u64) -> u64)

  // ---- decoding ----

  /** v as a two's complement number of which `half` is the sign bit. */
  function Signed(v: nat, half: nat): int {
    if v >= half then v - 2 * half else v
  }

  function Decode(w: u32): Option<Instr> {
    var top11, top8 := w / 0x20_0000, w / 0x100_0000;
    if w == 0xD503201F then Some(Nop)
    else if w == 0xD503237F then Some(Pacibsp)
    else if w == 0xD65F0FFF then Some(Retab)
    else if top11 == 0x550 && w / 32 % 0x800 == 31 then Some(MovReg(w % 32, w / 0x1_0000 % 32))
    else if top11 == 0x694 then Some(Movz(w % 32, w / 32 % 0x1_0000))
    else if top8 == 0x58 then Some(LdrLiteral(w % 32, 4 * Signed(w / 32 % 0x8_0000, 0x4_0000)))
    else if top11 == 0x7C2 && w / 0x400 % 4 == 1 && w % 32 != w / 32 % 32 then
      Some(LdrPost(w % 32, w / 32 % 32, Signed(w / 0x1000 % 0x200, 0x100)))
    else if w / 0x40_0000 == 0x244 then Some(AddImm(w % 32, w / 32 % 32, w / 0x400 % 0x1000))
    else if top11 == 0x758 && w / 0x400 % 64 == 0 && w % 32 == 31 then Some(Cmp(w / 32 % 32, w / 0x1_0000 % 32))
    else if top8 == 0x54 && w / 16 % 2 == 0 then Some(BCond(w % 16, 4 * Signed(w / 32 % 0x8_0000, 0x4_0000)))
    else if top8 == 0xB4 then Some(Cbz(w % 32, 4 * Signed(w / 32 % 0x8_0000, 0x4_0000)))
    else if w / 0x400_0000 == 0x05 then Some(B(4 * Signed(w % 0x400_0000, 0x200_0000)))
    else if w / 0x400_0000 == 0x25 then Some(Bl(4 * Signed(w % 0x400_0000, 0x200_0000)))
    else if w / 0x400 == 0x3587C0 && w % 32 == 0 then Some(Br(w / 32 % 32))
    else if w / 0x400 == 0x358FC0 && w % 32 == 0 then Some(Blr(w / 32 % 32))
    else if w / 0x400 == 0x3597C0 && w % 32 == 0 then Some(Ret(w / 32 % 32))
    else if w / 0x8000_0000 == 1 && w / 0x100_0000 % 32 == 16 then
      Some(Adrp(w % 32, 0x1000 * Signed(w / 32 % 0x8_0000 * 4 + w / 0x2000_0000 % 4, 0x10_0000)))
    else None
  }

  // ---- encoding the three branches the patcher assembles ----

  function Field(off: int, bits: nat): nat
    requires bits > 0
  {
    var q: int := off / 4;
    q % bits
  }

  function EncodeB(off: int): u32 { 0x1400_0000 + Field(off, 0x400_0000) }
  function EncodeBl(off: int): u32 { 0x9400_0000 + Field(off, 0x400_0000) }
  function EncodeCbz(rt: nat, off: int): u32
    requires rt < 32
  {
    0xB400_0000 + Field(off, 0x8_0000) * 32 + rt
  }

  const RET_WORD: u32 := 0xD65F03C0

  predicate BranchReach(off: int) { off % 4 == 0 && -0x800_0000 <= off < 0x800_0000 }

  lemma SignedField(off: int, half: nat)
    requires half > 0 && off % 4 == 0 && -4 * half <= off < 4 * half
    ensures 0 <= Field(off, 2 * half) < 2 * half && 4 * Signed(Field(off, 2 * half), half) == off
  {
    var q := off / 4;
    assert q == off / 4 && 4 * q == off;
    if q >= 0 {
      ModSmall(q, 2 * half);
    } else {
      ModNegative(q, 2 * half);
    }
  }

  lemma ModSmall(q: int, m: nat)
    requires 0 <= q < m
    ensures q % m == q
  {
  }

  lemma ModNegative(q: int, m: nat)
    requires 0 < m && 0 <= q + m && q < 0
    ensures q % m == q + m
  {
    assert q == (-1) * m + (q + m);
  }

  lemma DecodeBranch(off: int)
    requires BranchReach(off)
    ensures Decode(EncodeB(off)) == Some(B(off)) && Decode(EncodeBl(off)) == Some(Bl(off))
  {
    hide Field, Signed;
    SignedField(off, 0x200_0000);
    var f := Field(off, 0x400_0000);
    assert (0x1400_0000 + f) / 0x400_0000 == 5 && (0x1400_0000 + f) % 0x400_0000 == f;
    assert (0x9400_0000 + f) / 0x400_0000 == 0x25 && (0x9400_0000 + f) % 0x400_0000 == f;
  }

  lemma DecodeCbz8(rt: nat)
    requires rt < 31
    ensures Decode(EncodeCbz(rt, 8)) == Some(Cbz(rt, 8))
  {
    assert Field(8, 0x8_0000) == 2;
  }

  lemma DecodeRet()
    ensures Decode(RET_WORD) == Some(Ret(30))
  {
  }

  // ---- execution ----

  function Wrap(v: int): u64 { v % TWO64 }

  function Word32(mem: int -> byte, a: int): u32 {
    mem(a) as int + 0x100 * (mem(a + 1) as int) + 0x1_0000 * (mem(a + 2) as int) + 0x100_0000 * (mem(a + 3) as int)
  }

  function Word64(mem: int -> byte, a: int): u64 { Word32(mem, a) + TWO32 * Word32(mem, a + 4) }

  function ReadBytes(mem: int -> byte, a: int, n: nat): (b: seq<byte>)
    ensures |b| == n && forall i :: 0 <= i < n ==> b[i] == mem(a + i)
  {
    seq(n, i requires i >= 0 => mem(a + i))
  }

  /** A word whose bytes lie in memory, least significant first, is the word read there. */
  lemma WordOfBytes(mem: int -> byte, a: int, w: u32)
    requires ReadBytes(mem, a, 4) == Le(w, 4)
    ensures Word32(mem, a) == w
  {
    var b := Le(w, 4);
    LeBytes(w);
    assert b[0] == mem(a + 0) && b[1] == mem(a + 1) && b[2] == mem(a + 2) && b[3] == mem(a + 3);
    SplitWord(w);
  }

  lemma SplitWord(w: u32)
    ensures w == w % 256 + 0x100 * (w / 256 % 256) + 0x1_0000 * (w / 256 / 256 % 256)
        + 0x100_0000 * (w / 256 / 256 / 256 % 256)
  {
  }

  /** Register 31 reads as zero and ignores writes. */
  function X(s: State, r: nat): u64 { if r < 31 then s.x[r] else 0 }
  function SetX(s: State, r: nat, v: u64): State { if r < 31 then s.(x := s.x[r := v]) else s }

  /** Register 31 is the stack pointer. */
  function XSp(s: State, r: nat): u64 { if r < 31 then s.x[r] else s.sp }
  function SetXSp(s: State, r: nat, v: u64): State { if r < 31 then s.(x := s.x[r := v]) else s.(sp := v) }

  function Negative(v: u64): bool { v >= 0x8000_0000_0000_0000 }

  function SubFlags(a: u64, b: u64): Flags {
    var r := Wrap(a - b);
    Flags(Negative(r), r == 0, a >= b, Negative(a) != Negative(b) && Negative(r) != Negative(a))
  }

  predicate Holds(cond: nat, f: Flags) {
    var base :=
      if cond / 2 == 0 then f.z
      else if cond / 2 == 1 then f.c
      else if cond / 2 == 2 then f.n
      else if cond / 2 == 3 then f.v
      else if cond / 2 == 4 then f.c && !f.z
      else if cond / 2 == 5 then f.n == f.v
      else if cond / 2 == 6 then f.n == f.v && !f.z
      else true;
    if cond % 2 == 1 && cond != 15 then !base else base
  }

  function Goto(s: State, target: int): State { s.(pc := Wrap(target)) }

  function Exec(i: Instr, s: State, pac: Pac): State {
    var next := s.pc + 4;
    match i
    case MovReg(rd, rm) => Goto(SetX(s, rd, X(s, rm)), next)
    case Movz(rd, imm) => Goto(SetX(s, rd, Wrap(imm)), next)
    case LdrLiteral(rt, off) => Goto(SetX(s, rt, Word64(s.mem, s.pc + off)), next)
    case LdrPost(rt, rn, off) => Goto(SetX(SetXSp(s, rn, Wrap(XSp(s, rn) + off)), rt, Word64(s.mem, XSp(s, rn))), next)
    case AddImm(rd, rn, imm) => Goto(SetXSp(s, rd, Wrap(XSp(s, rn) + imm)), next)
    case Adrp(rd, off) => Goto(SetX(s, rd, Wrap(s.pc - s.pc % 0x1000 + off)), next)
    case Cmp(rn, rm) => Goto(s.(flags := SubFlags(X(s, rn), X(s, rm))), next)
    case BCond(cond, off) => Goto(s, if Holds(cond, s.flags) then s.pc + off else next)
    case Cbz(rt, off) => Goto(s, if X(s, rt) == 0 then s.pc + off else next)
    case B(off) => Goto(s, s.pc + off)
    case Bl(off) => Goto(SetX(s, 30, Wrap(next)), s.pc + off)
    case Br(rn) => Goto(s, X(s, rn))
    case Blr(rn) => Goto(SetX(s, 30, Wrap(next)), X(s, rn))
    case Ret(rn) => Goto(s, X(s, rn))
    case Pacibsp => Goto(SetX(s, 30, pac.sign(s.x[30], s.sp)), next)
    case Retab => Goto(s, pac.auth(s.x[30], s.sp))
    case Nop => Goto(s, next)
  }

  function Step(s: State, pac: Pac): Option<State> {
    var i :- Decode(Word32(s.mem, s.pc));
    Some(Exec(i, s, pac))
  }

  /** n instructions, none of them outside the modelled set. */
  function Steps(s: State, n: nat, pac: Pac): Option<State>
    decreases n
  {
    if n == 0 then Some(s)
    else
      var t :- Step(s, pac);
      Steps(t, n - 1, pac)
  }

  lemma WrapSmall(v: int)
    requires 0 <= v < TWO64
    ensures Wrap(v) == v
  {
  }

  lemma TwoSteps(s: State, s1: State, s2: State, pac: Pac)
    requires Step(s, pac) == Some(s1) && Step(s1, pac) == Some(s2)
    ensures Steps(s, 2, pac) == Some(s2)
  {
    hide Step;
    assert Steps(s2, 0, pac) == Some(s2);
    assert Steps(s1, 1, pac) == Some(s2);
  }

  lemma ThreeSteps(s: State, s1: State, s2: State, s3: State, pac: Pac)
    requires Step(s, pac) == Some(s1) && Step(s1, pac) == Some(s2) && Step(s2, pac) == Some(s3)
    ensures Steps(s, 3, pac) == Some(s3)
  {
    hide Step;
    TwoSteps(s1, s2, s3, pac);
  }

  // ---- words and conditions, written out ----

  /** The three branches as words: the word distance in two's complement below the opcode; +-128 MB can be reached. */
  lemma BranchWords(off: int, rt: nat)
    requires off % 4 == 0 && -0x800_0000 <= off < 0x800_0000 && rt < 31
    ensures BranchReach(off)
    ensures EncodeB(off) == 0x1400_0000 + (if off >= 0 then off / 4 else off / 4 + 0x400_0000)
    ensures EncodeBl(off) == 0x9400_0000 + (if off >= 0 then off / 4 else off / 4 + 0x400_0000)
    ensures EncodeCbz(rt, 8) == 0xB400_0040 + rt && RET_WORD == 0xD65F_03C0
  {
    var q := off / 4;
    if q >= 0 {
      ModSmall(q, 0x400_0000);
    } else {
      ModNegative(q, 0x400_0000);
    }
    assert Field(8, 0x8_0000) == 2;
  }

  function AsSigned(v: u64): int { if v < 0x8000_0000_0000_0000 then v else v - 0x1_0000_0000_0000_0000 }

  /** After comparing a with b the conditions say what they are named for. */
  lemma ConditionsMean(a: u64, b: u64)
    ensures var f := SubFlags(a, b);
      && (Holds(0, f) <==> a == b) && (Holds(1, f) <==> a != b)        // EQ, NE
      && (Holds(2, f) <==> a >= b) && (Holds(3, f) <==> a < b)         // HS, LO
      && (Holds(8, f) <==> a > b) && (Holds(9, f) <==> a <= b)         // HI, LS
      && (Holds(10, f) <==> AsSigned(a) >= AsSigned(b)) && (Holds(11, f) <==> AsSigned(a) < AsSigned(b))  // GE, LT
      && (Holds(12, f) <==> AsSigned(a) > AsSigned(b)) && (Holds(13, f) <==> AsSigned(a) <= AsSigned(b))  // GT, LE
      && Holds(14, f)                                                  // AL
  {
    var d: int := a - b;
    if d >= 0 {
      assert Wrap(d) == d;
    } else {
      WrapAround(d);
    }
  }

  lemma WrapAround(d: int)
    requires -0x1_0000_0000_0000_0000 < d < 0
    ensures Wrap(d) == d + 0x1_0000_0000_0000_0000
  {
  }

  // ---- decoding, field by field ----

  lemma LowDigit(q: nat, r: nat)
    requires r < 32
    ensures (32 * q + r) / 32 == q && (32 * q + r) % 32 == r
  {
  }

  lemma MidDigit(q: nat, r: nat)
    requires r < 64
    ensures (64 * q + r) / 64 == q && (64 * q + r) % 64 == r
  {
  }

  lemma Halves(w: nat)
    ensures w / 32 / 32 == w / 0x400 && w / 0x400 / 64 == w / 0x1_0000 && w / 0x1_0000 / 32 == w / 0x20_0000
    ensures w / 0x20_0000 / 8 == w / 0x100_0000 && w / 0x20_0000 / 2 == w / 0x40_0000
    ensures w / 0x20_0000 / 32 == w / 0x400_0000
  {
  }

  /** A word of an opcode in bits 31..21 and fields of 5, 6, 5 and 5 bits below it. */
  lemma Fields11(top: nat, rm: nat, mid: nat, rn: nat, rd: nat)
    requires top < 0x800 && rm < 32 && mid < 64 && rn < 32 && rd < 32
    ensures var w := 0x20_0000 * top + 0x1_0000 * rm + 0x400 * mid + 0x20 * rn + rd;
      && 0 <= w < TWO32 && w / 0x20_0000 == top && w / 0x1_0000 % 32 == rm && w / 0x400 % 64 == mid
      && w / 32 % 32 == rn && w % 32 == rd && w / 0x100_0000 == top / 8 && w / 32 % 0x800 == 32 * mid + rn
      && w / 0x40_0000 == top / 2 && w / 0x400_0000 == top / 32 && w / 0x400 == 0x800 * top + 64 * rm + mid
  {
    var v3 := 32 * top + rm;
    var v2 := 64 * v3 + mid;
    var v1 := 32 * v2 + rn;
    var w := 32 * v1 + rd;
    LowDigit(v1, rd);
    LowDigit(v2, rn);
    MidDigit(v3, mid);
    LowDigit(top, rm);
    Halves(w);
    assert w == 0x20_0000 * top + 0x1_0000 * rm + 0x400 * mid + 0x20 * rn + rd;
    assert v1 == 0x800 * v3 + (32 * mid + rn);
  }

  /** A word of an opcode in bits 31..24 and fields of 19 and 5 bits below it. */
  lemma Fields8(top: nat, imm19: nat, rt: nat)
    requires top < 0x100 && imm19 < 0x8_0000 && rt < 32
    ensures var w := 0x100_0000 * top + 0x20 * imm19 + rt;
      && 0 <= w < TWO32 && w / 0x100_0000 == top && w / 32 % 0x8_0000 == imm19 && w % 32 == rt
      && top == w / 0x20_0000 / 8 && top / 4 == w / 0x400_0000 && top == w / 0x40_0000 / 4
  {
    var w := 0x100_0000 * top + 0x20 * imm19 + rt;
    assert w / 32 == 0x8_0000 * top + imm19;
  }

  /** MOV Xd, Xm and CMP Xn, Xm. */
  lemma RegisterWords(rm: nat, rn: nat, rd: nat)
    requires rm < 32 && rn < 32 && rd < 32
    ensures Decode(0xAA00_03E0 + 0x1_0000 * rm + rd) == Some(MovReg(rd, rm))
    ensures Decode(0xEB00_001F + 0x1_0000 * rm + 0x20 * rn) == Some(Cmp(rn, rm))
  {
    Fields11(0x550, rm, 0, 31, rd);
    Fields11(0x758, rm, 0, rn, 31);
    hide Signed;
  }

  /** MOVZ Xd, #imm */
  lemma MovzWord(imm: nat, rd: nat)
    requires imm < 0x1_0000 && rd < 32
    ensures Decode(0xD280_0000 + 0x20 * imm + rd) == Some(Movz(rd, imm))
  {
    MovzFields(imm, rd);
    hide Signed;
  }

  lemma MovzFields(imm: nat, rd: nat)
    requires imm < 0x1_0000 && rd < 32
    ensures var w := 0xD280_0000 + 0x20 * imm + rd;
      && 0 <= w < TWO32 && w / 0x20_0000 == 0x694 && w / 32 % 0x1_0000 == imm && w % 32 == rd
      && w != 0xD503_201F && w != 0xD503_237F && w != 0xD65F_0FFF
  {
    LowDigit(0x694_0000 + imm, rd);
  }

  /** LDR Xt, label; B.cond label; CBZ Xt, label: the word distance is signed. */
  lemma LiteralWord(imm19: nat, rt: nat)
    requires imm19 < 0x8_0000 && rt < 32
    ensures Decode(0x5800_0000 + 0x20 * imm19 + rt)
      == Some(LdrLiteral(rt, 4 * (if imm19 < 0x4_0000 then imm19 else imm19 - 0x8_0000)))
  {
    Fields8(0x58, imm19, rt);
    SignOf(imm19, 0x4_0000);
    hide Signed;
  }

  lemma ConditionWord(imm19: nat, cond: nat)
    requires imm19 < 0x8_0000 && cond < 16
    ensures Decode(0x5400_0000 + 0x20 * imm19 + cond)
      == Some(BCond(cond, 4 * (if imm19 < 0x4_0000 then imm19 else imm19 - 0x8_0000)))
  {
    Fields8(0x54, imm19, cond);
    LowCondition(0x2A0_0000 + imm19, cond);
    SignOf(imm19, 0x4_0000);
    hide Signed;
  }

  lemma LowCondition(q: nat, cond: nat)
    requires cond < 16
    ensures (32 * q + cond) % 16 == cond && (32 * q + cond) / 16 % 2 == 0
  {
    assert (32 * q + cond) / 16 == 2 * q;
  }

  lemma ZeroTestWord(imm19: nat, rt: nat)
    requires imm19 < 0x8_0000 && rt < 32
    ensures Decode(0xB400_0000 + 0x20 * imm19 + rt)
      == Some(Cbz(rt, 4 * (if imm19 < 0x4_0000 then imm19 else imm19 - 0x8_0000)))
  {
    Fields8(0xB4, imm19, rt);
    SignOf(imm19, 0x4_0000);
    hide Signed;
  }

  lemma SignOf(v: nat, half: nat)
    ensures Signed(v, half) == if v < half then v else v - 2 * half
  {
  }

  /** LDR Xt, [Xn|SP], #imm with a signed nine-bit step; the two registers differ. */
  lemma PostIndexWord(imm9: nat, rn: nat, rt: nat)
    requires imm9 < 0x200 && rn < 32 && rt < 32 && rn != rt
    ensures Decode(0xF840_0400 + 0x1000 * imm9 + 0x20 * rn + rt)
      == Some(LdrPost(rt, rn, if imm9 < 0x100 then imm9 else imm9 - 0x200))
  {
    PostIndexFields(imm9, rn, rt);
    SignOf(imm9, 0x100);
    hide Signed;
  }

  lemma PostIndexFields(imm9: nat, rn: nat, rt: nat)
    requires imm9 < 0x200 && rn < 32 && rt < 32
    ensures var w := 0xF840_0400 + 0x1000 * imm9 + 0x20 * rn + rt;
      && 0 <= w < TWO32 && w / 0x20_0000 == 0x7C2 && w / 0x100_0000 == 0xF8 && w / 0x400 % 4 == 1
      && w / 0x1000 % 0x200 == imm9 && w / 32 % 32 == rn && w % 32 == rt
      && w != 0xD503_201F && w != 0xD503_237F && w != 0xD65F_0FFF
  {
    var w := 0xF840_0400 + 0x1000 * imm9 + 0x20 * rn + rt;
    var v := 0x200 * 0x7C2 + imm9;
    LowDigit(32 * (4 * v + 1) + rn, rt);
    LowDigit(4 * v + 1, rn);
    Halves(w);
    assert w == 32 * (32 * (4 * v + 1) + rn) + rt;
    assert w / 0x1000 == w / 0x400 / 4 == v;
    assert w / 0x20_0000 == w / 0x1000 / 0x200;
  }

  /** ADD Xd|SP, Xn|SP, #imm12 */
  lemma AddWord(imm12: nat, rn: nat, rd: nat)
    requires imm12 < 0x1000 && rn < 32 && rd < 32
    ensures Decode(0x9100_0000 + 0x400 * imm12 + 0x20 * rn + rd) == Some(AddImm(rd, rn, imm12))
  {
    Fields11(0x488 + imm12 / 0x800, imm12 / 64 % 32, imm12 % 64, rn, rd);
    hide Signed;
    assert imm12 / 64 / 32 == imm12 / 0x800;
    var w := 0x9100_0000 + 0x400 * imm12 + 0x20 * rn + rd;
    assert w / 0x400 == 0x1000 * 0x244 + imm12;
  }

  /** BR, BLR and RET */
  lemma JumpWords(rn: nat)
    requires rn < 32
    ensures Decode(0xD61F_0000 + 0x20 * rn) == Some(Br(rn))
    ensures Decode(0xD63F_0000 + 0x20 * rn) == Some(Blr(rn))
    ensures Decode(0xD65F_0000 + 0x20 * rn) == Some(Ret(rn))
  {
    Fields11(0x6B0, 31, 0, rn, 0);
    Fields11(0x6B1, 31, 0, rn, 0);
    Fields11(0x6B2, 31, 0, rn, 0);
    hide Signed;
  }
}
