/** The AFK handshake of scripts/apple_dcp.c composed with a guest that answers in turn on one endpoint. */
module AfkHandshake {
  import opened Words
  import opened RtkitProtocol
  import opened RtkitDevice

  // ---- the guest ----

  /** The guest holds the replies it has not sent yet and remembers what it received. */
  datatype System = System(dev: State, outbox: seq<nat>, seen: seq<Message>)

  datatype Action = Send | Pop

  function GetbufAck(dva: nat): nat { Or(Rbep(RBEP_GETBUF_ACK), dva) }

  function Reply(ep: nat, dva: nat, m: Message): seq<nat> {
    if m.ep != ep then []
    else if RbepType(m.msg) == RBEP_GETBUF then [GetbufAck(dva)]
    else if RbepType(m.msg) == RBEP_START then [Rbep(RBEP_START_ACK)]
    else []
  }

  predicate Enabled(sys: System, a: Action) {
    match a
    case Send => sys.outbox != []
    case Pop => sys.dev.pending != []
  }

  /** Sending writes SEND0 and SEND1; popping reads RECV0 and RECV1 and prepares the reply. */
  function Do(sys: System, a: Action, ep: nat, dva: nat): System
    requires Enabled(sys, a)
  {
    match a
    case Send =>
      System(Write(Write(sys.dev, ASC_A2I_SEND0, sys.outbox[0]), ASC_A2I_SEND1, ep), sys.outbox[1..], sys.seen)
    case Pop =>
      var d := Read(sys.dev, ASC_I2A_RECV0);
      var m := Message(ReadValue(d, ASC_I2A_RECV1), ReadValue(sys.dev, ASC_I2A_RECV0));
      System(Read(d, ASC_I2A_RECV1), sys.outbox + Reply(ep, dva, m), sys.seen + [m])
  }

  /** The system after a schedule, when each of its actions is enabled in turn. */
  ghost predicate Reaches(sys: System, acts: seq<Action>, ep: nat, dva: nat, end: System)
    decreases |acts|
  {
    if acts == [] then end == sys
    else Enabled(sys, acts[0]) && Reaches(Do(sys, acts[0], ep, dva), acts[1..], ep, dva, end)
  }

  /** The guest is about to open an endpoint that nobody has used. */
  predicate Opening(sys: System, ep: nat, dva: nat) {
    && 0 < ep < 256 && ep < |sys.dev.eps| && sys.dev.eps[ep].handler == AfkHandler && dva < P48
    && !sys.dev.dcp.started && sys.outbox == [Rbep(RBEP_INIT)] && sys.seen == []
    && |sys.dev.pending| <= QUEUE && forall i :: 0 <= i < |sys.dev.pending| ==> sys.dev.pending[i].ep != ep
  }

  predicate Idle(sys: System) { sys.outbox == [] && sys.dev.pending == [] }

  // ---- the words ----

  lemma WordValues(dva: nat)
    requires dva < P48
    ensures GetbufWord() == RBEP_GETBUF * P48 + 64 * P16 + 1
    ensures InitTxWord() == RBEP_INIT_TX * P48 + 32 * P16 + 1
    ensures InitRxWord() == RBEP_INIT_RX * P48 + 32 * TWO32 + 32 * P16 + 2
    ensures GetbufAck(dva) == RBEP_GETBUF_ACK * P48 + dva
  {
    hide Or, Pow2;
    PowerConstants();
    OrDisjoint(RBEP_GETBUF, 64 * P16, 48);
    OrDisjoint(RBEP_GETBUF * TWO32 + 64, 1, 16);
    OrDisjoint(RBEP_INIT_TX, 0, 48);
    OrDisjoint(RBEP_INIT_TX, 32 * P16, 48);
    OrDisjoint(RBEP_INIT_TX * TWO32 + 32, 1, 16);
    OrDisjoint(RBEP_INIT_RX, 32 * TWO32, 48);
    OrDisjoint(RBEP_INIT_RX * P16 + 32, 32 * P16, 32);
    OrDisjoint(RBEP_INIT_RX * TWO32 + 32 * P16 + 32, 2, 16);
    OrDisjoint(RBEP_GETBUF_ACK, dva, 48);
  }

  lemma WordTypes(dva: nat)
    requires dva < P48
    ensures RbepType(GetbufWord()) == RBEP_GETBUF && RbepType(InitTxWord()) == RBEP_INIT_TX
    ensures RbepType(InitRxWord()) == RBEP_INIT_RX && RbepType(GetbufAck(dva)) == RBEP_GETBUF_ACK
    ensures GetbufAck(dva) % P48 == dva
    ensures forall t :: 0 <= t < P16 ==> RbepType(Rbep(t)) == t
  {
    hide GetbufWord, InitTxWord, InitRxWord, GetbufAck;
    WordValues(dva);
  }

  /** A ring as the guest decodes it: offset and size in bytes. */
  function RingOffset(word: nat): nat { word / TWO32 % P16 * 64 }
  function RingSize(word: nat): nat { word / P16 % P16 * 64 }
  function BufferSize(word: nat): nat { word / P16 % P16 * 64 }

  /** The two rings are block aligned, do not overlap and fill the requested buffer. */
  lemma Rings()
    ensures RingOffset(InitTxWord()) == 0
    ensures RingOffset(InitTxWord()) + RingSize(InitTxWord()) == RingOffset(InitRxWord())
    ensures RingOffset(InitRxWord()) + RingSize(InitRxWord()) == BufferSize(GetbufWord())
    ensures RingSize(InitTxWord()) > 0 && RingSize(InitRxWord()) > 0
  {
    hide GetbufWord, InitTxWord, InitRxWord, GetbufAck;
    WordValues(0);
    RingFields(RBEP_INIT_TX, 0, 32, 1);
    RingFields(RBEP_INIT_RX, 32, 32, 2);
    RingFields(RBEP_GETBUF, 0, 64, 1);
  }

  /** Offset and size of a ring word, in blocks. */
  lemma RingFields(kind: nat, offset: nat, size: nat, tag: nat)
    requires offset < P16 && size < P16 && tag < P16
    ensures var w := kind * P48 + offset * TWO32 + size * P16 + tag; w / TWO32 % P16 == offset && w / P16 % P16 == size
  {
    var w := kind * P48 + offset * TWO32 + size * P16 + tag;
    assert w == ((kind * P16 + offset) * P16 + size) * P16 + tag;
    assert w / P16 == (kind * P16 + offset) * P16 + size;
    assert w / TWO32 == w / P16 / P16;
  }

  // ---- the phases ----

  function On(ms: seq<Message>, ep: nat): seq<nat> {
    if ms == [] then []
    else On(ms[..|ms| - 1], ep) + if ms[|ms| - 1].ep == ep then [ms[|ms| - 1].msg] else []
  }

  function Script(): (r: seq<nat>)
    ensures |r| == 5
  {
    [Rbep(RBEP_INIT_ACK), GetbufWord(), InitTxWord(), InitRxWord(), Rbep(RBEP_START)]
  }

  predicate Wired(s: State, ep: nat, dva: nat) {
    0 < ep < 256 && ep < |s.eps| && s.eps[ep].handler == AfkHandler && dva < P48
  }

  predicate Others(ms: seq<Message>, ep: nat) { forall i :: 0 <= i < |ms| ==> ms[i].ep != ep }

  /** Messages of the handshake on its endpoint. */
  function AtEp(words: seq<nat>, ep: nat): (ms: seq<Message>)
    ensures |ms| == |words| && forall i :: 0 <= i < |words| ==> ms[i] == Message(ep, words[i])
  {
    seq(|words|, i requires 0 <= i < |words| => Message(ep, words[i]))
  }

  /** r actions remain. The queue holds q messages of others and then the
      script from position n on, up to position m. */
  predicate Phase(sys: System, ep: nat, dva: nat, r: nat, q: seq<Message>, n: nat, m: nat)
  {
    && Wired(sys.dev, ep, dva) && Others(q, ep) && n <= m <= 5
    && sys.dev.pending == q + AtEp(Script()[n..m], ep) && |sys.dev.pending| <= QUEUE
    && On(sys.seen, ep) == Script()[..n]
    && (n > 0 ==> q == [])
    && (sys.dev.dcp.started <==> r == 0)
    && ( || (n == m == 0 && sys.outbox == [Rbep(RBEP_INIT)] && |q| <= 62 && r == |q| + 8)
         || (n < m == 2 && sys.outbox == [] && r == |q| + 7 - n)
         || (n == m == 2 && sys.outbox == [GetbufAck(dva)] && r == 5)
         || (n < m == 5 && n >= 2 && sys.outbox == [] && sys.dev.dcp.dva == dva && r == 6 - n)
         || (n == m == 5 && sys.outbox == [Rbep(RBEP_START_ACK)] && sys.dev.dcp.dva == dva && r == 1)
         || (n == m == 5 && sys.outbox == [] && sys.dev.dcp.dva == dva && r == 0))
  }

  /** What one write of SEND0 and SEND1 does on an AFK endpoint. */
  lemma SendEffect(s: State, ep: nat, dva: nat, word: nat)
    requires Wired(s, ep, dva)
    ensures var r := Afk(s.(a2iMsg := word), ep, word);
      Write(Write(s, ASC_A2I_SEND0, word), ASC_A2I_SEND1, ep) == Push(r.state, r.out)
  {
    hide Afk, Push;
    PushNothing(s.(a2iMsg := word));
  }

  lemma PopEffect(sys: System, ep: nat, dva: nat)
    requires sys.dev.pending != []
    ensures var m := sys.dev.pending[0]; var t := Do(sys, Pop, ep, dva);
      && t.dev.pending == sys.dev.pending[1..] && t.dev.eps == sys.dev.eps && t.dev.dcp == sys.dev.dcp
      && t.outbox == sys.outbox + Reply(ep, dva, m) && t.seen == sys.seen + [m]
  {
    hide Reply;
  }

  lemma OnOne(ms: seq<Message>, m: Message, ep: nat)
    ensures On(ms + [m], ep) == On(ms, ep) + if m.ep == ep then [m.msg] else []
  {
    assert (ms + [m])[..|ms|] == ms;
  }

  lemma SendInit(sys: System, ep: nat, dva: nat, r: nat, q: seq<Message>)
    requires Phase(sys, ep, dva, r, q, 0, 0) && sys.outbox != []
    ensures r > 0 && Phase(Do(sys, Send, ep, dva), ep, dva, r - 1, q, 0, 2)
  {
    hide GetbufWord, InitTxWord, InitRxWord, GetbufAck, On, Write, RbepType, Rbep;
    WordTypes(dva);
    SendEffect(sys.dev, ep, dva, Rbep(RBEP_INIT));
    assert AtEp(Script()[0..2], ep) == [Message(ep, Rbep(RBEP_INIT_ACK)), Message(ep, GetbufWord())];
    assert q + AtEp(Script()[0..0], ep) == q;
    assert sys.outbox[1..] == [];
  }

  lemma SendGetbufAck(sys: System, ep: nat, dva: nat, r: nat)
    requires Phase(sys, ep, dva, r, [], 2, 2)
    ensures r > 0 && sys.outbox != [] && Phase(Do(sys, Send, ep, dva), ep, dva, r - 1, [], 2, 5)
  {
    hide GetbufWord, InitTxWord, InitRxWord, GetbufAck, On, Write, RbepType, Rbep;
    WordTypes(dva);
    SendEffect(sys.dev, ep, dva, GetbufAck(dva));
    assert AtEp(Script()[2..5], ep)
      == [Message(ep, InitTxWord()), Message(ep, InitRxWord()), Message(ep, Rbep(RBEP_START))];
    assert sys.dev.pending == [];
  }

  lemma SendStartAck(sys: System, ep: nat, dva: nat, r: nat)
    requires Phase(sys, ep, dva, r, [], 5, 5) && sys.outbox != []
    ensures r > 0 && Phase(Do(sys, Send, ep, dva), ep, dva, r - 1, [], 5, 5)
  {
    hide GetbufWord, InitTxWord, InitRxWord, GetbufAck, On, Write, RbepType, Rbep;
    WordTypes(dva);
    SendEffect(sys.dev, ep, dva, Rbep(RBEP_START_ACK));
    assert sys.dev.pending + [] == sys.dev.pending;
  }

  lemma PopOther(sys: System, ep: nat, dva: nat, r: nat, q: seq<Message>, n: nat, m: nat)
    requires Phase(sys, ep, dva, r, q, n, m) && q != []
    ensures r > 0 && Phase(Do(sys, Pop, ep, dva), ep, dva, r - 1, q[1..], n, m)
  {
    hide GetbufWord, InitTxWord, InitRxWord, GetbufAck, On, RbepType, Rbep, Read, ReadValue, Do;
    PopEffect(sys, ep, dva);
    assert sys.dev.pending[0] == q[0];
    OnOne(sys.seen, q[0], ep);
    assert (q + AtEp(Script()[n..m], ep))[1..] == q[1..] + AtEp(Script()[n..m], ep);
  }

  lemma PopScript(sys: System, ep: nat, dva: nat, r: nat, n: nat, m: nat)
    requires Phase(sys, ep, dva, r, [], n, m) && n < m
    ensures r > 0 && Phase(Do(sys, Pop, ep, dva), ep, dva, r - 1, [], n + 1, m)
  {
    hide GetbufWord, InitTxWord, InitRxWord, GetbufAck, On, RbepType, Rbep, Read, ReadValue, Do;
    PopEffect(sys, ep, dva);
    WordTypes(dva);
    var s := Script();
    assert sys.dev.pending[0] == Message(ep, s[n]);
    OnOne(sys.seen, Message(ep, s[n]), ep);
    assert s[..n] + [s[n]] == s[..n + 1];
    AtEpTail(s[n..m], ep);
    assert s[n..m][1..] == s[n + 1..m];
  }

  lemma AtEpTail(words: seq<nat>, ep: nat)
    requires words != []
    ensures AtEp(words, ep)[1..] == AtEp(words[1..], ep) && AtEp(words, ep)[0] == Message(ep, words[0])
  {
  }

  /** Every enabled action brings the handshake exactly one step nearer to its end. */
  lemma Progress(sys: System, ep: nat, dva: nat, r: nat, q: seq<Message>, n: nat, m: nat, a: Action)
    returns (q': seq<Message>, n': nat, m': nat)
    requires Phase(sys, ep, dva, r, q, n, m) && Enabled(sys, a)
    ensures r > 0 && Phase(Do(sys, a, ep, dva), ep, dva, r - 1, q', n', m')
  {
    hide Do, Script, GetbufAck, Rbep;
    if a == Pop {
      if q != [] {
        PopOther(sys, ep, dva, r, q, n, m);
        q', n', m' := q[1..], n, m;
      } else {
        assert n < m;
        PopScript(sys, ep, dva, r, n, m);
        q', n', m' := q, n + 1, m;
      }
    } else if n == 0 {
      SendInit(sys, ep, dva, r, q);
      q', n', m' := q, 0, 2;
    } else if n == 2 {
      SendGetbufAck(sys, ep, dva, r);
      q', n', m' := q, 2, 5;
    } else {
      SendStartAck(sys, ep, dva, r);
      q', n', m' := q, 5, 5;
    }
  }

  lemma {:induction false} ScheduleProgress(sys: System, acts: seq<Action>, ep: nat, dva: nat, end: System,
                                            r: nat, q: seq<Message>, n: nat, m: nat)
    returns (q': seq<Message>, n': nat, m': nat)
    requires Phase(sys, ep, dva, r, q, n, m) && Reaches(sys, acts, ep, dva, end)
    ensures |acts| <= r && Phase(end, ep, dva, r - |acts|, q', n', m')
    decreases |acts|
  {
    hide Phase, Do;
    if acts == [] {
      q', n', m' := q, n, m;
    } else {
      q', n', m' := Progress(sys, ep, dva, r, q, n, m, acts[0]);
      q', n', m' := ScheduleProgress(Do(sys, acts[0], ep, dva), acts[1..], ep, dva, end, r - 1, q', n', m');
    }
  }

  /** With at most 62 messages pending, every interleaving of sends and pops completes the
      handshake: it has exactly |pending| + 8 actions, is never stuck before that, and ends with the
      granted address and the five AFK messages received in order. */
  lemma HandshakeCompletes(sys: System, acts: seq<Action>, ep: nat, dva: nat, end: System)
    requires Opening(sys, ep, dva) && |sys.dev.pending| <= 62 && Reaches(sys, acts, ep, dva, end)
    ensures |acts| <= |sys.dev.pending| + 8
    ensures end.dev.dcp.started <==> |acts| == |sys.dev.pending| + 8
    ensures Idle(end) <==> |acts| == |sys.dev.pending| + 8
    ensures Idle(end) ==> end.dev.dcp.dva == dva && On(end.seen, ep) == Script()
  {
    hide Do, GetbufWord, InitTxWord, InitRxWord, GetbufAck, Rbep;
    var q := sys.dev.pending;
    assert q + AtEp(Script()[0..0], ep) == q;
    var q', n', m' := ScheduleProgress(sys, acts, ep, dva, end, |q| + 8, q, 0, 0);
    assert Script()[..5] == Script();
  }

  // ---- a fuller queue ----

  /** Nothing the guest will still receive makes it answer. */
  predicate Dead(sys: System, ep: nat) {
    && sys.outbox == [] && !sys.dev.dcp.started
    && forall i :: 0 <= i < |sys.dev.pending| ==>
         sys.dev.pending[i].ep == ep ==> sys.dev.pending[i].msg == Rbep(RBEP_INIT_ACK)
  }

  lemma {:induction false} DeadEnds(sys: System, ep: nat, dva: nat) returns (acts: seq<Action>, end: System)
    requires Dead(sys, ep)
    ensures Reaches(sys, acts, ep, dva, end) && Idle(end) && !end.dev.dcp.started
    decreases |sys.dev.pending|
  {
    hide Do, Read, ReadValue, Rbep, RbepType;
    if sys.dev.pending == [] {
      acts, end := [], sys;
    } else {
      PopEffect(sys, ep, dva);
      assert RbepType(Rbep(RBEP_INIT_ACK)) == RBEP_INIT_ACK by { InitAckType(); }
      acts, end := DeadEnds(Do(sys, Pop, ep, dva), ep, dva);
      acts := [Pop] + acts;
    }
  }

  lemma InitAckType()
    ensures RbepType(Rbep(RBEP_INIT_ACK)) == RBEP_INIT_ACK && RbepType(Rbep(RBEP_INIT)) == RBEP_INIT
  {
  }

  /** With 63 or 64 messages pending GETBUF is lost when INIT is sent first, and the handshake ends unfinished. */
  lemma Stalls(sys: System, ep: nat, dva: nat) returns (acts: seq<Action>, end: System)
    requires Opening(sys, ep, dva) && |sys.dev.pending| > 62
    ensures Reaches(sys, acts, ep, dva, end) && Idle(end) && !end.dev.dcp.started
  {
    hide GetbufWord, InitTxWord, InitRxWord, Write, Rbep, RbepType;
    InitAckType();
    SendEffect(sys.dev, ep, dva, Rbep(RBEP_INIT));
    var t := Do(sys, Send, ep, dva);
    acts, end := DeadEnds(t, ep, dva);
    acts := [Send] + acts;
    assert acts[1..] == acts[1..];
  }

  /** The handshake is certain to finish exactly when two queue slots are free at the start. */
  lemma HandshakeCertain(sys: System, ep: nat, dva: nat)
    requires Opening(sys, ep, dva)
    ensures (forall acts, end :: Reaches(sys, acts, ep, dva, end) && Idle(end) ==> end.dev.dcp.started)
      <==> |sys.dev.pending| <= 62
  {
    hide Reaches, Opening, Idle;
    if |sys.dev.pending| <= 62 {
      forall acts, end | Reaches(sys, acts, ep, dva, end) && Idle(end)
        ensures end.dev.dcp.started
      {
        HandshakeCompletes(sys, acts, ep, dva, end);
      }
    } else {
      var acts, end := Stalls(sys, ep, dva);
    }
  }
}
