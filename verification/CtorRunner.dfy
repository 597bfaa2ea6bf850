/** The constructor runner of experiments/cl4-ctor-runner: the assembled program and what running it does. */
module CtorRunner {
  import opened Wrappers
  import opened Words
  import opened A64

  /** The 18 instruction words of the blob; a pool of four 64-bit words follows them. */
  const CODE: seq<u32> := [
    0xAA0003F3, 0xAA0103F4, 0x58000215, 0x58000236, 0x58000249, 0x9100013F,
    0xEB1602BF, 0x54000082, 0xF84086B7, 0xD63F02E0, 0x17FFFFFC, 0xAA1303E0,
    0xAA1403E1, 0xAA1F03E9, 0x9100013F, 0x58000130, 0xD61F0200, 0xD503201F
  ]

  const POOL := 72
  const BLOB := 104

  lemma DecodedPrologueWords()
    ensures Decode(0xAA0003F3) == Some(MovReg(19, 0))
    ensures Decode(0xAA0103F4) == Some(MovReg(20, 1))
    ensures Decode(0x58000215) == Some(LdrLiteral(21, 64))
    ensures Decode(0x58000236) == Some(LdrLiteral(22, 68))
    ensures Decode(0x58000249) == Some(LdrLiteral(9, 72))
    ensures Decode(0x9100013F) == Some(AddImm(31, 9, 0))
  {
  }

  lemma DecodedTestWords()
    ensures Decode(0xEB1602BF) == Some(Cmp(21, 22))
    ensures Decode(0x54000082) == Some(BCond(2, 16))
  {
  }

  lemma DecodedLoadWord()
    ensures Decode(0xF84086B7) == Some(LdrPost(23, 21, 8))
  {
    var w: u32 := 0xF84086B7;
    assert w / 0x20_0000 == 0x7C2 && w / 0x100_0000 == 0xF8;
    assert w / 32 == 0x7C20435 && w / 0x400 == 0x3E1021 && w / 0x1000 == 0xF8408;
  }

  lemma DecodedCallWord()
    ensures Decode(0xD63F02E0) == Some(Blr(23))
  {
    var w: u32 := 0xD63F02E0;
    assert w / 0x20_0000 == 0x6B1 && w / 0x100_0000 == 0xD6 && w / 0x40_0000 == 0x358 && w / 0x400_0000 == 0x35;
    assert w / 0x400 == 0x358FC0 && w / 32 % 32 == 23 && w % 32 == 0;
  }

  lemma DecodedBackWord()
    ensures Decode(0x17FFFFFC) == Some(B(-16))
  {
  }

  lemma DecodedEpilogueWords()
    ensures Decode(0xAA1303E0) == Some(MovReg(0, 19))
    ensures Decode(0xAA1403E1) == Some(MovReg(1, 20))
    ensures Decode(0xAA1F03E9) == Some(MovReg(9, 31))
    ensures Decode(0x9100013F) == Some(AddImm(31, 9, 0))
    ensures Decode(0x58000130) == Some(LdrLiteral(16, 36))
    ensures Decode(0xD61F0200) == Some(Br(16))
    ensures Decode(0xD503201F) == Some(Nop)
  {
  }

  /** The assembly listing, read back from the words. */
  lemma DecodedCode()
    ensures Decode(CODE[0]) == Some(MovReg(19, 0))
    ensures Decode(CODE[1]) == Some(MovReg(20, 1))
    ensures Decode(CODE[2]) == Some(LdrLiteral(21, 64))
    ensures Decode(CODE[3]) == Some(LdrLiteral(22, 68))
    ensures Decode(CODE[4]) == Some(LdrLiteral(9, 72))
    ensures Decode(CODE[5]) == Some(AddImm(31, 9, 0))
    ensures Decode(CODE[6]) == Some(Cmp(21, 22))
    ensures Decode(CODE[7]) == Some(BCond(2, 16))
    ensures Decode(CODE[8]) == Some(LdrPost(23, 21, 8))
    ensures Decode(CODE[9]) == Some(Blr(23))
    ensures Decode(CODE[10]) == Some(B(-16))
    ensures Decode(CODE[11]) == Some(MovReg(0, 19))
    ensures Decode(CODE[12]) == Some(MovReg(1, 20))
    ensures Decode(CODE[13]) == Some(MovReg(9, 31))
    ensures Decode(CODE[14]) == Some(AddImm(31, 9, 0))
    ensures Decode(CODE[15]) == Some(LdrLiteral(16, 36))
    ensures Decode(CODE[16]) == Some(Br(16))
    ensures Decode(CODE[17]) == Some(Nop)
  {
    hide Decode;
    DecodedPrologueWords();
    DecodedTestWords();
    DecodedLoadWord();
    DecodedCallWord();
    DecodedBackWord();
    DecodedEpilogueWords();
  }

  // ---- the setting ----

  /** What the loader fills in. */
  datatype Setup = Setup(base: nat, table: u64, tableEnd: u64, stackTop: u64, entry: u64)

  /** Pointers in [table, tableEnd), the last one possibly cut short. */
  function Count(p: Setup): nat { if p.tableEnd <= p.table then 0 else (p.tableEnd - p.table + 7) / 8 }

  ghost predicate Loaded(mem: int -> byte, p: Setup) {
    && (forall i :: 0 <= i < |CODE| ==> Word32(mem, p.base + 4 * i) == CODE[i])
    && Word64(mem, p.base + POOL) == p.table && Word64(mem, p.base + POOL + 8) == p.tableEnd
    && Word64(mem, p.base + POOL + 16) == p.stackTop && Word64(mem, p.base + POOL + 24) == p.entry
    && p.base + BLOB < TWO64 && p.table + 8 * Count(p) < TWO64
  }

  /** The pointer at position i of the array. */
  function Pointer(mem: int -> byte, p: Setup, i: nat): u64 { Word64(mem, p.table + 8 * i) }

  /** Blob and array are as in mem0. */
  ghost predicate Intact(mem: int -> byte, mem0: int -> byte, p: Setup) {
    && (forall a :: p.base <= a < p.base + BLOB ==> mem(a) == mem0(a))
    && (forall a :: p.table <= a < p.table + 8 * Count(p) ==> mem(a) == mem0(a))
  }

  /** How the blob enters a constructor: at a pointer of the array, on the scratch stack, to return behind the BLR. */
  ghost predicate Entered(s: State, mem0: int -> byte, p: Setup) {
    && s.sp == p.stackTop && s.x[30] == p.base + 40 && Intact(s.mem, mem0, p)
    && exists i :: 0 <= i < Count(p) && s.pc == Pointer(mem0, p, i)
  }

  /** A constructor so entered keeps the procedure call standard (AAPCS64, section 6.1.1): it returns to x30 with x19 to
      x28 and SP as it found them, and it leaves the blob and the array alone. */
  ghost predicate Behaves(callee: State -> State, mem0: int -> byte, p: Setup) {
    forall s: State | Entered(s, mem0, p) :: var t := callee(s);
      t.pc == s.x[30] && t.sp == s.sp && t.x[19..29] == s.x[19..29] && Intact(t.mem, s.mem, p)
  }

  /** A constructor with a stack frame: it keeps the call standard and writes only the `frame` bytes below
      SP, where it may save what it likes, and the addresses in `heap`. */
  ghost predicate UsesStack(callee: State -> State, frame: nat, heap: iset<int>) {
    forall s: State :: var t := callee(s);
      && t.pc == s.x[30] && t.sp == s.sp && t.x[19..29] == s.x[19..29]
      && forall a :: !(s.sp - frame <= a < s.sp) && a !in heap ==> t.mem(a) == s.mem(a)
  }

  /** The bytes the blob relies on. */
  ghost predicate Relied(a: int, p: Setup) {
    p.base <= a < p.base + BLOB || p.table <= a < p.table + 8 * Count(p)
  }

  /** Constructors that push to their stack behave when the scratch stack and what
      else they write lie apart from blob and array. */
  lemma StackUsersBehave(callee: State -> State, mem0: int -> byte, p: Setup, frame: nat, heap: iset<int>)
    requires UsesStack(callee, frame, heap)
    requires forall a :: Relied(a, p) ==> !(p.stackTop - frame <= a < p.stackTop) && a !in heap
    ensures Behaves(callee, mem0, p)
  {
    hide Count, Pointer;
    forall s: State | Entered(s, mem0, p)
      ensures Intact(callee(s).mem, s.mem, p)
    {
      forall a | Relied(a, p)
        ensures callee(s).mem(a) == s.mem(a)
      {
      }
    }
  }

  /** One instruction; a BLR runs its callee to its return and is recorded with the stack pointer it gets. */
  datatype Config = Config(s: State, calls: seq<(u64, u64)>)

  function Next(c: Config, callee: State -> State, pac: Pac): Option<Config> {
    var i :- Decode(Word32(c.s.mem, c.s.pc));
    var t := Exec(i, c.s, pac);
    Some(if i.Blr? then Config(callee(t), c.calls + [(t.pc, t.sp)]) else Config(t, c.calls))
  }

  function Run(c: Config, n: nat, callee: State -> State, pac: Pac): Option<Config>
    decreases n
  {
    if n == 0 then Some(c)
    else
      var d :- Next(c, callee, pac);
      Run(d, n - 1, callee, pac)
  }

  // ---- running it ----

  lemma {:induction false} RunAdd(c: Config, a: nat, b: nat, callee: State -> State, pac: Pac)
    requires Run(c, a, callee, pac).Some?
    ensures Run(c, a + b, callee, pac) == Run(Run(c, a, callee, pac).value, b, callee, pac)
    decreases a
  {
    hide Next;
    if a > 0 {
      RunAdd(Next(c, callee, pac).value, a - 1, b, callee, pac);
    }
  }

  /** The instruction at position i of the blob is the one that runs. */
  lemma NextAt(c: Config, p: Setup, i: nat, callee: State -> State, pac: Pac)
    requires Loaded(c.s.mem, p) && i < |CODE| && c.s.pc == p.base + 4 * i && Decode(CODE[i]).Some?
    ensures var instr := Decode(CODE[i]).value; var t := Exec(instr, c.s, pac);
      Next(c, callee, pac) == Some(
        if instr.Blr? then Config(callee(t), c.calls + [(t.pc, t.sp)]) else Config(t, c.calls))
  {
    hide Decode, Exec, Word32, Word64;
  }

  lemma InSpan(p: Setup, off: nat)
    requires p.base + BLOB < TWO64 && off <= BLOB
    ensures Wrap(p.base + off) == p.base + off
  {
  }

  /** The prologue loads the loop registers and switches to the scratch stack. */
  lemma Prologue(s: State, p: Setup, callee: State -> State, pac: Pac)
    requires Loaded(s.mem, p) && s.pc == p.base
    ensures var r := Run(Config(s, []), 6, callee, pac);
      && r.Some? && r.value.calls == []
      && var t := r.value.s;
      && t.mem == s.mem && t.pc == p.base + 24 && t.sp == p.stackTop
      && t.x[19] == s.x[0] && t.x[20] == s.x[1] && t.x[21] == p.table && t.x[22] == p.tableEnd
  {
    hide Decode, Word32, Word64, Count, Next, Run;
    DecodedCode();
    var c0 := Config(s, []);
    var b := p.base;
    var c1 := Config(s.(x := s.x[19 := s.x[0]], pc := b + 4), []);
    assert Next(c0, callee, pac) == Some(c1) by { NextAt(c0, p, 0, callee, pac); InSpan(p, 4); }
    var c2 := Config(c1.s.(x := c1.s.x[20 := s.x[1]], pc := b + 8), []);
    assert Next(c1, callee, pac) == Some(c2) by { NextAt(c1, p, 1, callee, pac); InSpan(p, 8); }
    var c3 := Config(c2.s.(x := c2.s.x[21 := p.table], pc := b + 12), []);
    assert Next(c2, callee, pac) == Some(c3) by { NextAt(c2, p, 2, callee, pac); InSpan(p, 12); }
    var c4 := Config(c3.s.(x := c3.s.x[22 := p.tableEnd], pc := b + 16), []);
    assert Next(c3, callee, pac) == Some(c4) by { NextAt(c3, p, 3, callee, pac); InSpan(p, 16); }
    var c5 := Config(c4.s.(x := c4.s.x[9 := p.stackTop], pc := b + 20), []);
    assert Next(c4, callee, pac) == Some(c5) by { NextAt(c4, p, 4, callee, pac); InSpan(p, 20); }
    var c6 := Config(c5.s.(sp := p.stackTop, pc := b + 24), []);
    assert Next(c5, callee, pac) == Some(c6) by { NextAt(c5, p, 5, callee, pac); InSpan(p, 24); WrapSmall(p.stackTop); }
    RunSix(c0, c1, c2, c3, c4, c5, c6, callee, pac);
  }

  lemma RunSix(c0: Config, c1: Config, c2: Config, c3: Config, c4: Config, c5: Config, c6: Config,
                 callee: State -> State, pac: Pac)
    requires Next(c0, callee, pac) == Some(c1) && Next(c1, callee, pac) == Some(c2) && Next(c2, callee, pac) == Some(c3)
    requires Next(c3, callee, pac) == Some(c4) && Next(c4, callee, pac) == Some(c5) && Next(c5, callee, pac) == Some(c6)
    ensures Run(c0, 6, callee, pac) == Some(c6)
  {
    hide Next;
    assert Run(c5, 1, callee, pac) == Some(c6) by { assert Run(c6, 0, callee, pac) == Some(c6); }
    assert Run(c4, 2, callee, pac) == Some(c6);
    assert Run(c3, 3, callee, pac) == Some(c6);
    assert Run(c2, 4, callee, pac) == Some(c6);
    assert Run(c1, 5, callee, pac) == Some(c6);
  }

  /** The head of the loop: i constructors have been called, in order, each on the scratch stack. */
  ghost predicate AtLoop(c: Config, p: Setup, s0: State, i: nat) {
    && i <= Count(p) && c.s.pc == p.base + 24 && c.s.sp == p.stackTop
    && Intact(c.s.mem, s0.mem, p)
    && c.s.x[19] == s0.x[0] && c.s.x[20] == s0.x[1] && c.s.x[21] == p.table + 8 * i && c.s.x[22] == p.tableEnd
    && c.calls == CallsUpTo(s0.mem, p, i)
  }

  function CallsUpTo(mem: int -> byte, p: Setup, n: nat): (r: seq<(u64, u64)>)
    ensures |r| == n
  {
    seq(n, i requires i >= 0 => (Pointer(mem, p, i), p.stackTop))
  }

  lemma SameWord32(mem: int -> byte, mem0: int -> byte, a: int)
    requires forall k :: a <= k < a + 4 ==> mem(k) == mem0(k)
    ensures Word32(mem, a) == Word32(mem0, a)
  {
  }

  lemma SameWord64(mem: int -> byte, mem0: int -> byte, a: int)
    requires forall k :: a <= k < a + 8 ==> mem(k) == mem0(k)
    ensures Word64(mem, a) == Word64(mem0, a)
  {
    hide Word32;
    SameWord32(mem, mem0, a);
    SameWord32(mem, mem0, a + 4);
  }

  lemma IntactLoaded(mem: int -> byte, mem0: int -> byte, p: Setup)
    requires Loaded(mem0, p) && Intact(mem, mem0, p)
    ensures Loaded(mem, p) && forall i :: 0 <= i < Count(p) ==> Pointer(mem, p, i) == Pointer(mem0, p, i)
  {
    hide Word32, Word64, Count;
    forall i | 0 <= i < |CODE|
      ensures Word32(mem, p.base + 4 * i) == Word32(mem0, p.base + 4 * i)
    {
      SameWord32(mem, mem0, p.base + 4 * i);
    }
    SameWord64(mem, mem0, p.base + POOL);
    SameWord64(mem, mem0, p.base + POOL + 8);
    SameWord64(mem, mem0, p.base + POOL + 16);
    SameWord64(mem, mem0, p.base + POOL + 24);
    forall i | 0 <= i < Count(p)
      ensures Pointer(mem, p, i) == Pointer(mem0, p, i)
    {
      SameWord64(mem, mem0, p.table + 8 * i);
    }
  }

  lemma LoadedBounds(mem: int -> byte, p: Setup)
    requires Loaded(mem, p)
    ensures p.base + BLOB < TWO64 && p.table + 8 * Count(p) < TWO64
  {
  }

  /** CMP and B.HS leave the loop exactly when all pointers have been used. */
  lemma LoopTest(c: Config, p: Setup, i: nat, callee: State -> State, pac: Pac)
    requires Loaded(c.s.mem, p) && c.s.pc == p.base + 24 && i <= Count(p)
    requires c.s.x[21] == p.table + 8 * i && c.s.x[22] == p.tableEnd
    ensures var f := SubFlags(c.s.x[21], c.s.x[22]);
      Run(c, 2, callee, pac)
        == Some(Config(c.s.(flags := f, pc := if i == Count(p) then p.base + 44 else p.base + 32), c.calls))
  {
    hide Decode, Word32, Word64, SubFlags, Loaded, Next, Run, Count;
    LoadedBounds(c.s.mem, p);
    DecodedCode();
    var f := SubFlags(c.s.x[21], c.s.x[22]);
    assert f.c == (i == Count(p)) by { CarryAtEnd(p, i); }
    var c1 := Config(c.s.(flags := f, pc := p.base + 28), c.calls);
    assert Next(c, callee, pac) == Some(c1) by { NextAt(c, p, 6, callee, pac); InSpan(p, 28); }
    var c2 := Config(c.s.(flags := f, pc := if i == Count(p) then p.base + 44 else p.base + 32), c.calls);
    assert Next(c1, callee, pac) == Some(c2) by { NextAt(c1, p, 7, callee, pac); InSpan(p, 32); InSpan(p, 44); }
    RunTwo(c, c1, c2, callee, pac);
  }

  lemma CarryAtEnd(p: Setup, i: nat)
    requires i <= Count(p) && p.table + 8 * Count(p) < TWO64
    ensures SubFlags(p.table + 8 * i, p.tableEnd).c <==> i == Count(p)
  {
  }

  lemma RunTwo(c: Config, c1: Config, c2: Config, callee: State -> State, pac: Pac)
    requires Next(c, callee, pac) == Some(c1) && Next(c1, callee, pac) == Some(c2)
    ensures Run(c, 2, callee, pac) == Some(c2)
  {
    hide Next;
    assert Run(c1, 1, callee, pac) == Some(c2) by { assert Run(c2, 0, callee, pac) == Some(c2); }
  }

  lemma RunThree(c: Config, c1: Config, c2: Config, c3: Config, callee: State -> State, pac: Pac)
    requires Next(c, callee, pac) == Some(c1) && Next(c1, callee, pac) == Some(c2) && Next(c2, callee, pac) == Some(c3)
    ensures Run(c, 3, callee, pac) == Some(c3)
  {
    hide Next;
    RunTwo(c1, c2, c3, callee, pac);
  }

  /** The state in which constructor v is entered, with i calls done before. */
  function Called(s: State, p: Setup, i: nat, v: u64): State {
    s.(x := s.x[21 := Wrap(p.table + 8 * i + 8)][23 := v][30 := Wrap(p.base + 40)], pc := v)
  }

  /** LDR, BLR and B call pointer i and come back to the loop head. */
  lemma LoopBody(c0: Config, mem0: int -> byte, p: Setup, i: nat, callee: State -> State, pac: Pac) returns (e: State)
    requires Loaded(mem0, p) && Intact(c0.s.mem, mem0, p) && c0.s.sp == p.stackTop
    requires c0.s.pc == p.base + 32 && i < Count(p) && c0.s.x[21] == p.table + 8 * i
    requires Behaves(callee, mem0, p)
    ensures Entered(e, mem0, p) && Wrap(p.table + 8 * i + 8) == p.table + 8 * i + 8
    ensures var v := Pointer(mem0, p, i);
      && e == Called(c0.s, p, i, v)
      && Run(c0, 3, callee, pac) == Some(Config(Goto(callee(e), p.base + 24), c0.calls + [(v, c0.s.sp)]))
  {
    hide Decode, Word32, Word64, Loaded, Intact, Count, Next, Run, Behaves;
    IntactLoaded(c0.s.mem, mem0, p);
    LoadedBounds(mem0, p);
    DecodedCode();
    var v := Pointer(c0.s.mem, p, i);
    assert v == Pointer(mem0, p, i);
    var c1 := Config(c0.s.(x := c0.s.x[21 := p.table + 8 * i + 8][23 := v], pc := p.base + 36), c0.calls);
    assert Next(c0, callee, pac) == Some(c1) by {
      NextAt(c0, p, 8, callee, pac);
      InSpan(p, 36);
      WrapSmall(p.table + 8 * i + 8);
    }
    e := c1.s.(x := c1.s.x[30 := p.base + 40], pc := v);
    var c2 := Config(callee(e), c0.calls + [(v, c0.s.sp)]);
    assert Next(c1, callee, pac) == Some(c2) by { NextAt(c1, p, 9, callee, pac); InSpan(p, 40); WrapSmall(v); }
    var d := Config(callee(e).(pc := p.base + 24), c2.calls);
    assert Next(c2, callee, pac) == Some(d) by {
      Returned(callee, p, e, mem0);
      NextAt(c2, p, 10, callee, pac);
      InSpan(p, 24);
    }
    RunThree(c0, c1, c2, d, callee, pac);
  }

  /** One round of the loop. */
  lemma LoopRound(c: Config, p: Setup, s0: State, i: nat, callee: State -> State, pac: Pac) returns (d: Config)
    requires Loaded(s0.mem, p) && Behaves(callee, s0.mem, p) && AtLoop(c, p, s0, i) && i < Count(p)
    ensures Run(c, 5, callee, pac) == Some(d) && AtLoop(d, p, s0, i + 1)
  {
    hide Next, Behaves, Loaded, Intact, Count, CallsUpTo, Run, SubFlags, Pointer;
    IntactLoaded(c.s.mem, s0.mem, p);
    LoopTest(c, p, i, callee, pac);
    var c0 := Run(c, 2, callee, pac).value;
    var e := LoopBody(c0, s0.mem, p, i, callee, pac);
    RunAdd(c, 2, 3, callee, pac);
    d := Run(c, 5, callee, pac).value;
    Returned(callee, p, e, s0.mem);
    CallsOneMore(s0.mem, p, i);
  }

  lemma CallsOneMore(mem: int -> byte, p: Setup, i: nat)
    ensures CallsUpTo(mem, p, i + 1) == CallsUpTo(mem, p, i) + [(Pointer(mem, p, i), p.stackTop)]
  {
    hide Pointer;
  }

  lemma Returned(callee: State -> State, p: Setup, e: State, mem0: int -> byte)
    requires Behaves(callee, mem0, p) && Entered(e, mem0, p) && Loaded(mem0, p)
    ensures var t := callee(e);
      && t.pc == e.x[30] && t.sp == e.sp && t.x[19] == e.x[19] && t.x[20] == e.x[20] && t.x[21] == e.x[21]
      && t.x[22] == e.x[22]
      && Intact(t.mem, mem0, p) && Loaded(t.mem, p)
  {
    hide Loaded, Count, Pointer;
    var t := callee(e);
    assert t.x[19..29][0] == t.x[19] && t.x[19..29][1] == t.x[20] && t.x[19..29][2] == t.x[21];
    assert t.x[19..29][3] == t.x[22];
    assert e.x[19..29][0] == e.x[19] && e.x[19..29][1] == e.x[20] && e.x[19..29][2] == e.x[21];
    assert e.x[19..29][3] == e.x[22];
    IntactLoaded(t.mem, mem0, p);
  }

  /** The epilogue restores x0 and x1, clears SP and branches to the entry point. */
  lemma Epilogue(c: Config, p: Setup, callee: State -> State, pac: Pac)
    requires Loaded(c.s.mem, p) && c.s.pc == p.base + 44
    ensures var r := Run(c, 6, callee, pac);
      && r.Some? && r.value.calls == c.calls
      && r.value.s.x[0] == c.s.x[19] && r.value.s.x[1] == c.s.x[20] && r.value.s.sp == 0 && r.value.s.pc == p.entry
      && r.value.s.mem == c.s.mem
  {
    hide Decode, Word32, Word64, Count, Next, Run;
    DecodedCode();
    var s, k, b := c.s, c.calls, p.base;
    var c1 := Config(s.(x := s.x[0 := s.x[19]], pc := b + 48), k);
    assert Next(c, callee, pac) == Some(c1) by { NextAt(c, p, 11, callee, pac); InSpan(p, 48); }
    var c2 := Config(c1.s.(x := c1.s.x[1 := s.x[20]], pc := b + 52), k);
    assert Next(c1, callee, pac) == Some(c2) by { NextAt(c1, p, 12, callee, pac); InSpan(p, 52); }
    var c3 := Config(c2.s.(x := c2.s.x[9 := 0], pc := b + 56), k);
    assert Next(c2, callee, pac) == Some(c3) by { NextAt(c2, p, 13, callee, pac); InSpan(p, 56); }
    var c4 := Config(c3.s.(sp := 0, pc := b + 60), k);
    assert Next(c3, callee, pac) == Some(c4) by { NextAt(c3, p, 14, callee, pac); InSpan(p, 60); WrapSmall(0); }
    var c5 := Config(c4.s.(x := c4.s.x[16 := p.entry], pc := b + 64), k);
    assert Next(c4, callee, pac) == Some(c5) by { NextAt(c4, p, 15, callee, pac); InSpan(p, 64); }
    var c6 := Config(c5.s.(pc := p.entry), k);
    assert Next(c5, callee, pac) == Some(c6) by { NextAt(c5, p, 16, callee, pac); WrapSmall(p.entry); }
    RunSix(c, c1, c2, c3, c4, c5, c6, callee, pac);
  }

  /** From the loop head with i calls done to the entry point. */
  lemma {:induction false} LoopRuns(c: Config, p: Setup, s0: State, i: nat, callee: State -> State, pac: Pac)
    requires Loaded(s0.mem, p) && Behaves(callee, s0.mem, p) && AtLoop(c, p, s0, i)
    ensures var r := Run(c, 5 * (Count(p) - i) + 8, callee, pac);
      && r.Some? && r.value.calls == CallsUpTo(s0.mem, p, Count(p))
      && r.value.s.x[0] == s0.x[0] && r.value.s.x[1] == s0.x[1] && r.value.s.sp == 0 && r.value.s.pc == p.entry
      && Intact(r.value.s.mem, s0.mem, p)
    decreases Count(p) - i
  {
    hide Next, Behaves, Loaded, Intact, Count, CallsUpTo, Run, SubFlags;
    if i == Count(p) {
      IntactLoaded(c.s.mem, s0.mem, p);
      LoopTest(c, p, i, callee, pac);
      RunAdd(c, 2, 6, callee, pac);
      Epilogue(Run(c, 2, callee, pac).value, p, callee, pac);
    } else {
      var d := LoopRound(c, p, s0, i, callee, pac);
      LoopRuns(d, p, s0, i + 1, callee, pac);
      RunAdd(c, 5, 5 * (Count(p) - (i + 1)) + 8, callee, pac);
    }
  }

  /** The whole blob: every pointer of the array is called once, in order, with SP at the scratch stack; then the
      entry point gets the original x0 and x1 and SP = 0. The number of instructions executed is exact. */
  lemma RunsConstructors(s: State, p: Setup, callee: State -> State, pac: Pac)
    requires Loaded(s.mem, p) && Behaves(callee, s.mem, p) && s.pc == p.base
    ensures var r := Run(Config(s, []), 5 * Count(p) + 14, callee, pac);
      && r.Some?
      && |r.value.calls| == Count(p)
      && (forall i :: 0 <= i < Count(p) ==> r.value.calls[i] == (Pointer(s.mem, p, i), p.stackTop))
      && r.value.s.x[0] == s.x[0] && r.value.s.x[1] == s.x[1] && r.value.s.sp == 0 && r.value.s.pc == p.entry
      && Intact(r.value.s.mem, s.mem, p)
  {
    hide Next, Behaves, Loaded, Intact, Count, Run, Pointer;
    Prologue(s, p, callee, pac);
    var c := Run(Config(s, []), 6, callee, pac).value;
    assert Intact(s.mem, s.mem, p) by { IntactSelf(s.mem, p); }
    LoopRuns(c, p, s, 0, callee, pac);
    RunAdd(Config(s, []), 6, 5 * Count(p) + 8, callee, pac);
  }

  lemma IntactSelf(mem: int -> byte, p: Setup)
    ensures Intact(mem, mem, p)
  {
  }

  /** For an array of whole pointers the count is the number of pointers. */
  lemma CountWhole(p: Setup, n: nat)
    requires p.tableEnd == p.table + 8 * n
    ensures Count(p) == n
  {
  }
}
