/** The coprocessor in the guest's numbers: register offsets, message words and answers written out. */
module RtkitWire {
  import opened Words
  import opened RtkitProtocol
  import opened RtkitDevice
  import opened RtkitRuns

  /** The guest stages a message at 0x800 and sends it to an endpoint at 0x808. */
  function Sent(s: State, msg: nat, ep: nat): State { Write(Write(s, 0x800, msg), 0x808, ep) }

  lemma SentIs(s: State, msg: nat, ep: nat)
    requires ep < 256
    ensures var r := Receive(s.(a2iMsg := msg), msg, ep); Sent(s, msg, ep) == Push(r.state, r.out)
  {
    hide Receive, Push;
    PushNothing(s.(a2iMsg := msg));
  }

  /** Up to 64 messages wait; what does not fit is lost. */
  lemma PushedInto(s: State, out: seq<Message>)
    ensures |s.pending| + |out| <= 64 ==> Push(s, out).pending == s.pending + out
    ensures |s.pending| >= 64 ==> Push(s, out).pending == s.pending
    ensures var t := Push(s, out);
      t == s.(pending := t.pending, irq := t.irq) && (t.irq <==> s.irq || |t.pending| > |s.pending|)
  {
    assert out[..|out|] == out;
    assert s.pending + [] == s.pending;
  }

  // ---- registers ----

  /** What each register reads as. */
  lemma Registers(s: State, off: nat)
    ensures ReadValue(s, 0x044) == s.cpuControl && ReadValue(s, 0x110) == 0x2_0000
    ensures ReadValue(s, 0x114) == if s.pending == [] then 0x2_0000 else 0
    ensures s.pending != [] ==> ReadValue(s, 0x830) == s.pending[0].msg && ReadValue(s, 0x838) == s.pending[0].ep
    ensures s.pending == [] ==> ReadValue(s, 0x830) == 0 && ReadValue(s, 0x838) == 0
    ensures off !in {0x044, 0x110, 0x114, 0x830, 0x838} ==> ReadValue(s, off) == 0
    ensures off != 0x838 ==> Read(s, off) == s
    ensures s.pending != [] ==> Read(s, 0x838) == s.(pending := s.pending[1..], irq := |s.pending| > 1)
  {
  }

  /** Writes elsewhere do nothing; CPU_CONTROL keeps its low 32 bits and reads back. */
  lemma PlainWrites(s: State, off: nat, val: nat)
    ensures off !in {0x044, 0x800, 0x808} ==> Write(s, off, val) == s
    ensures Write(s, 0x800, val) == s.(a2iMsg := val)
    ensures ReadValue(Write(s, 0x044, val), 0x044) == val % 0x1_0000_0000
    ensures s.running || !Bit(val, 4) ==> Write(s, 0x044, val) == s.(cpuControl := val % 0x1_0000_0000)
  {
    hide HelloWord, Bit;
    PushNothing(s);
    PushNothing(s.(a2iMsg := val));
    PushNothing(s.(cpuControl := val % TWO32));
    RunBit(val);
  }

  // ---- words ----

  lemma MessageWords()
    ensures HelloWord() == 0x0010_0000_000C_000B
    ensures Rbep(RBEP_INIT_ACK) == 0x00A0_0000_0000_0000 && Rbep(RBEP_START) == 0x00A3_0000_0000_0000
    ensures GetbufWord() == 0x0089_0000_0040_0001
    ensures InitTxWord() == 0x008A_0000_0020_0001 && InitRxWord() == 0x008B_0020_0020_0002
  {
    hide Or, Pow2, GetbufWord, InitTxWord, InitRxWord;
    PowerConstants();
    OrDisjoint(RTKIT_VER_MAX, RTKIT_VER_MIN, 16);
    MgmtFields(MGMT_HELLO, RTKIT_VER_MAX * P16 + RTKIT_VER_MIN);
    AfkHandshakeWords();
  }

  lemma AfkHandshakeWords()
    ensures GetbufWord() == 0x0089_0000_0040_0001
    ensures InitTxWord() == 0x008A_0000_0020_0001 && InitRxWord() == 0x008B_0020_0020_0002
  {
    hide Or, Pow2;
    PowerConstants();
    OrDisjoint(RBEP_GETBUF, 64 * P16, 48);
    OrDisjoint(RBEP_GETBUF * TWO32 + 64, 1, 16);
    OrDisjoint(RBEP_INIT_TX, 0, 48);
    OrDisjoint(RBEP_INIT_TX, 32 * P16, 48);
    OrDisjoint(RBEP_INIT_TX * TWO32 + 32, 1, 16);
    OrDisjoint(RBEP_INIT_RX, 32 * TWO32, 48);
    OrDisjoint(RBEP_INIT_RX * P16 + 32, 32 * P16, 32);
    OrDisjoint(RBEP_INIT_RX * TWO32 + 32 * P16 + 32, 2, 16);
  }

  // ---- management messages ----

  /** A HELLO_REPLY to a device with the display endpoints is answered by its two endpoint maps. */
  lemma HelloReplyAnswered(s: State, version: nat)
    requires s.eps == Created().eps && version < 0x1_0000 && |s.pending| <= 62
    ensures var t := Sent(s, 0x0020_0000_0000_0000 + version, 0);
      && t.version == version
      && t.pending == s.pending + [Message(0, 0x0080_0000_0000_011E), Message(0, 0x0088_0001_0000_0038)]
  {
    hide EpmapWords, Push, Created;
    var msg := 0x0020_0000_0000_0000 + version;
    assert MgmtType(msg) == 2 && msg % P16 == version;
    SentIs(s, msg, 0);
    CreatedMaps();
    var r := Receive(s.(a2iMsg := msg), msg, 0);
    assert r.out == [Message(0, 0x0080_0000_0000_011E), Message(0, 0x0088_0001_0000_0038)];
    PushedInto(r.state, r.out);
  }

  lemma CreatedMaps()
    ensures EpmapWords(Present(Created().eps)) == [0x0080_0000_0000_011E, 0x0088_0001_0000_0038]
  {
    hide Created, EpmapWord;
    CreatedFresh();
    var p := Present(Created().eps);
    CreatedLast(p);
    LowMap(p);
    HighMap(p);
  }

  ghost predicate CreatedPresent(p: seq<bool>) {
    |p| == 64 && forall ep :: 0 <= ep < 64 ==> (p[ep] <==> ep in {1, 2, 3, 4, 8, 0x23, 0x24, 0x25})
  }

  lemma {:induction false} LastIsOne(p: seq<bool>)
    requires 0x26 <= |p| <= 64 && p[0x25] && forall ep :: 0x26 <= ep < |p| ==> !p[ep]
    ensures LastBase(p) == 1
    decreases |p|
  {
    if |p| > 0x26 {
      LastIsOne(p[..|p| - 1]);
    }
  }

  lemma CreatedLast(p: seq<bool>)
    requires CreatedPresent(p)
    ensures LastBase(p) == 1
  {
    LastIsOne(p);
  }

  /** Bits of a map that add nothing. */
  lemma {:induction false} NoMoreBits(p: seq<bool>, base: nat, lo: nat, hi: nat)
    requires lo <= hi <= 32 && forall ep :: base * 32 + lo <= ep < base * 32 + hi && ep < |p| ==> !p[ep]
    ensures BitmapUpTo(p, base, hi) == BitmapUpTo(p, base, lo)
    decreases hi
  {
    if lo < hi {
      NoMoreBits(p, base, lo, hi - 1);
    }
  }

  lemma OneMoreBit(p: seq<bool>, base: nat, k: nat)
    requires k < 32 && base * 32 + k < |p| && p[base * 32 + k]
    ensures BitmapUpTo(p, base, k + 1) == BitmapUpTo(p, base, k) + Pow2(k)
  {
    hide Or, Pow2;
    BitmapBits(p, base, k);
    OrDisjoint(1, BitmapUpTo(p, base, k), k);
  }

  lemma LowMap(p: seq<bool>)
    requires CreatedPresent(p) && LastBase(p) == 1
    ensures EpmapWord(p, 0) == 0x0080_0000_0000_011E
  {
    hide BitmapUpTo, Or;
    assert BitmapUpTo(p, 0, 0) == 0 by { NoBitsYet(p, 0); }
    NoMoreBits(p, 0, 0, 1);
    OneMoreBit(p, 0, 1);
    OneMoreBit(p, 0, 2);
    OneMoreBit(p, 0, 3);
    OneMoreBit(p, 0, 4);
    NoMoreBits(p, 0, 5, 8);
    OneMoreBit(p, 0, 8);
    NoMoreBits(p, 0, 9, 32);
    assert Pow2(1) == 2 && Pow2(2) == 4 && Pow2(3) == 8 && Pow2(4) == 16;
    Pow2Add(4, 4);
    hide Pow2;
    WordSum(p, 0, 0x11E);
  }

  lemma HighMap(p: seq<bool>)
    requires CreatedPresent(p) && LastBase(p) == 1
    ensures EpmapWord(p, 1) == 0x0088_0001_0000_0038
  {
    hide BitmapUpTo, Or;
    assert BitmapUpTo(p, 1, 0) == 0 by { NoBitsYet(p, 1); }
    NoMoreBits(p, 1, 0, 3);
    OneMoreBit(p, 1, 3);
    OneMoreBit(p, 1, 4);
    OneMoreBit(p, 1, 5);
    NoMoreBits(p, 1, 6, 32);
    assert Pow2(3) == 8 && Pow2(4) == 16 && Pow2(5) == 32;
    hide Pow2;
    WordSum(p, 1, 0x38);
  }

  lemma NoBitsYet(p: seq<bool>, base: nat)
    ensures BitmapUpTo(p, base, 0) == 0
  {
  }

  lemma WordSum(p: seq<bool>, base: nat, bitmap: nat)
    requires base < 8 && bitmap < TWO32 && Bitmap(p, base) == bitmap
    ensures EpmapWord(p, base)
      == 0x0080_0000_0000_0000 + base * 0x1_0000_0000 + bitmap
         + (if base == LastBase(p) then 0x0008_0000_0000_0000 else 0)
  {
    hide EpmapPayload, MgmtWord, BitmapUpTo, LastBase, Pow2;
    EpmapSum(base, bitmap, base == LastBase(p));
    MgmtFields(MGMT_EPMAP, EpmapPayload(base, bitmap, base == LastBase(p)));
  }

  /** Power states are acknowledged, endpoints are started, and every other management message is ignored. */
  lemma MgmtAnswered(s: State, msg: nat)
    ensures var t := msg / 0x0010_0000_0000_0000 % 0x100; var r := Mgmt(s, msg);
      && (t == 6 ==> r == Reaction(s, [Message(0, 0x0070_0000_0000_0000 + msg % 0x1_0000)]))
      && (t == 0xB ==> r == Reaction(s, [Message(0, 0x00B0_0000_0000_0000 + msg % 0x1_0000)]))
      && (t == 5 ==>
            var ep := msg / 0x1_0000_0000 % 0x100;
            r.out == [] && r.state == s.(eps := r.state.eps) && |r.state.eps| == |s.eps|
            && forall i :: 0 <= i < |s.eps| ==>
                 r.state.eps[i] == if i == ep && s.eps[i].present then s.eps[i].(started := true) else s.eps[i])
      && (t !in {2, 5, 6, 0xB} ==> r == Reaction(s, []))
  {
    hide MgmtWord, EpmapWords;
    MgmtFields(MGMT_IOP_PWR_ACK, msg % P16);
    MgmtFields(MGMT_AP_PWR, msg % P16);
  }

  // ---- the other endpoints ----

  /** A buffer request on a log endpoint is recorded, up to eight of them; all else there is ignored. */
  lemma LogAnswered(s: State, ep: nat, msg: nat)
    requires 0 < ep < 256 && ep < |s.eps| && s.eps[ep].handler == LogHandler
    ensures var t := Sent(s, msg, ep); var kind := msg / 0x0010_0000_0000_0000 % 0x100;
      t == s.(a2iMsg := msg,
              bufs := if kind == 1 && |s.bufs| < 8
                      then s.bufs + [Buffer(msg % 0x1000_0000_0000, msg / 0x1000_0000_0000 % 0x100)] else s.bufs)
  {
    SentIs(s, msg, ep);
    var u := s.(a2iMsg := msg);
    assert u.bufs + [] == u.bufs;
    PushNothing(Log(u, msg).state);
    hide Push;
  }

  /** The four AFK messages a guest sends, and that no other one, 0x86 included, has an effect. */
  lemma AfkAnswered(s: State, ep: nat, msg: nat)
    requires 0 < ep < 256 && ep < |s.eps| && s.eps[ep].handler == AfkHandler && |s.pending| <= 61
    ensures var t := Sent(s, msg, ep); var kind := msg / 0x1_0000_0000_0000 % 0x1_0000;
      && t == s.(a2iMsg := msg, pending := t.pending, irq := t.irq, dcp := t.dcp)
      && (kind == 0x80 ==>
            && t.pending == s.pending + [Message(ep, 0x00A0_0000_0000_0000), Message(ep, 0x0089_0000_0040_0001)]
            && t.dcp == s.dcp.(msgs := t.dcp.msgs))
      && (kind == 0xA1 ==>
            && t.pending == s.pending + [Message(ep, 0x008A_0000_0020_0001), Message(ep, 0x008B_0020_0020_0002),
                                         Message(ep, 0x00A3_0000_0000_0000)]
            && t.dcp == s.dcp.(msgs := t.dcp.msgs, inited := true, dva := msg % 0x1_0000_0000_0000))
      && (kind == 0xA4 ==> t.pending == s.pending && t.dcp == s.dcp.(msgs := t.dcp.msgs, started := true))
      && (kind !in {0x80, 0xA1, 0xA4} ==> t.pending == s.pending && t.dcp == s.dcp.(msgs := t.dcp.msgs))
  {
    hide Push, GetbufWord, InitTxWord, InitRxWord;
    SentIs(s, msg, ep);
    MessageWords();
    var r := Afk(s.(a2iMsg := msg), ep, msg);
    PushedInto(r.state, r.out);
    assert r.out == [] ==> s.pending + r.out == s.pending;
  }

  /** Messages to endpoints without a handler, and to numbers there are none of, are dropped. */
  lemma NobodyAnswers(s: State, ep: nat, msg: nat)
    requires 0 < ep < 256 && (ep >= |s.eps| || s.eps[ep].handler == NoHandler)
    ensures Sent(s, msg, ep) == s.(a2iMsg := msg)
  {
    SentIs(s, msg, ep);
    PushNothing(s.(a2iMsg := msg));
  }

  /** Only the low byte of the endpoint word counts. */
  lemma EndpointByte(s: State, msg: nat, word: nat)
    requires word < 0x1_0000_0000
    ensures Write(s, 0x808, word) == Write(s, 0x808, word % 0x100)
  {
    hide Receive, Push;
    ByteOf(s, word);
  }

  lemma ByteOf(s: State, word: nat)
    requires word < 0x1_0000_0000
    ensures Receive(s, s.a2iMsg, word) == Receive(s, s.a2iMsg, word % 0x100)
  {
    hide Mgmt, Log, Afk;
  }
}
