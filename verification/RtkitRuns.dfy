/** What every run of register accesses and timer announcements keeps. */
module RtkitRuns {
  import opened Words
  import opened RtkitProtocol
  import opened RtkitDevice

  datatype Step = ReadReg(off: nat) | WriteReg(off: nat, val: nat) | Announce

  function Exec(s: State, step: Step): State {
    match step
    case ReadReg(off) => Read(s, off)
    case WriteReg(off, val) => Write(s, off, val)
    case Announce => var r := Boot(s); Push(r.state, r.out)
  }

  /** The messages a step tries to send. */
  function Attempted(s: State, step: Step): seq<Message> {
    match step
    case ReadReg(_) => []
    case WriteReg(off, val) => OnWrite(s, off, val).out
    case Announce => Boot(s).out
  }

  /** The message a step hands to the guest. */
  function Popped(s: State, step: Step): seq<Message> {
    if step.ReadReg? && step.off == ASC_I2A_RECV1 && s.pending != [] then [s.pending[0]] else []
  }

  /** The buffer a step asks for on a log endpoint. */
  function Asked(s: State, step: Step): seq<Buffer> {
    if step.WriteReg? && step.off == ASC_A2I_SEND1 then
      var ep := step.val % TWO32 % 256;
      if 0 < ep < |s.eps| && s.eps[ep].handler == LogHandler then Requested(s.a2iMsg) else []
    else []
  }

  /** The endpoint a step asks to start. */
  function StartAsked(s: State, step: Step): seq<nat> {
    if step.WriteReg? && step.off == ASC_A2I_SEND1 && step.val % TWO32 % 256 == 0 && MgmtType(s.a2iMsg) == MGMT_STARTEP
    then [s.a2iMsg / TWO32 % 256] else []
  }

  /** The message a step hands to the AFK handler. */
  function AfkReceived(s: State, step: Step): seq<nat> {
    if step.WriteReg? && step.off == ASC_A2I_SEND1 then
      var ep := step.val % TWO32 % 256;
      if 0 < ep < |s.eps| && s.eps[ep].handler == AfkHandler then [s.a2iMsg] else []
    else []
  }

  /** Everything that happened so far. */
  datatype History = History(
    attempted: seq<Message>, accepted: seq<Message>, delivered: seq<Message>,
    asked: seq<Buffer>, starts: seq<nat>, afk: seq<nat>)

  function Extend(h: History, s: State, step: Step): History {
    var out := Attempted(s, step);
    History(h.attempted + out, h.accepted + out[..Room(s.pending, |out|)], h.delivered + Popped(s, step),
            h.asked + Asked(s, step), h.starts + StartAsked(s, step), h.afk + AfkReceived(s, step))
  }

  function Run(s: State, steps: seq<Step>): (State, History)
    decreases |steps|
  {
    if steps == [] then (s, History([], [], [], [], [], []))
    else
      var (t, h) := Run(s, steps[..|steps| - 1]);
      var step := steps[|steps| - 1];
      (Exec(t, step), Extend(h, t, step))
  }

  predicate Fresh(s: State) {
    && s.pending == [] && !s.irq && !s.running && !s.helloSent && s.bufs == []
    && s.dcp == Dcp(false, 0, false, 0)
    && |s.eps| <= 256 && forall i :: 0 <= i < |s.eps| ==> !s.eps[i].started
  }

  function Hellos(ms: seq<Message>): nat {
    if ms == [] then 0
    else Hellos(ms[..|ms| - 1]) + if ms[|ms| - 1] == Message(0, HelloWord()) then 1 else 0
  }

  /** The interrupt line follows the queue, and the queue is what was accepted and not yet delivered. */
  predicate QueueInv(s: State, h: History) {
    && |s.pending| <= QUEUE
    && h.accepted == h.delivered + s.pending
    && (s.irq <==> s.pending != [])
  }

  /** HELLO is sent exactly when the device starts running, once, and so accepted at most once. */
  predicate HelloInv(s: State, h: History) {
    && s.running == s.helloSent
    && Hellos(h.attempted) == (if s.helloSent then 1 else 0)
    && Hellos(h.accepted) <= Hellos(h.attempted)
  }

  /** An endpoint is started exactly when it is advertised and the guest asked for it. */
  predicate EndpointInv(s: State, h: History, s0: State) {
    && |s.eps| == |s0.eps|
    && forall i :: 0 <= i < |s.eps| ==>
         && s.eps[i].present == s0.eps[i].present && s.eps[i].handler == s0.eps[i].handler
         && (s.eps[i].started <==> s.eps[i].present && i in h.starts)
  }

  function FirstBuffers(asked: seq<Buffer>): seq<Buffer> {
    if |asked| <= BUFFERS then asked else asked[..BUFFERS]
  }

  /** The recorded buffers are the first eight requests, in order. */
  predicate BufferInv(s: State, h: History) { s.bufs == FirstBuffers(h.asked) }

  predicate Received(afk: seq<nat>, t: nat) { exists i :: 0 <= i < |afk| && RbepType(afk[i]) == t }

  /** The address in the last GETBUF_ACK, 0 before the first one. */
  function LastGrant(afk: seq<nat>): nat {
    if afk == [] then 0
    else if RbepType(afk[|afk| - 1]) == RBEP_GETBUF_ACK then afk[|afk| - 1] % P48
    else LastGrant(afk[..|afk| - 1])
  }

  /** The AFK state, whichever of its endpoints was used: started on any START_ACK, set up by any GETBUF_ACK, with the
      address of the last one, and counting the messages. */
  predicate DcpInv(s: State, h: History) {
    && (s.dcp.started <==> Received(h.afk, RBEP_START_ACK))
    && (s.dcp.inited <==> Received(h.afk, RBEP_GETBUF_ACK))
    && s.dcp.dva == LastGrant(h.afk) && s.dcp.msgs == |h.afk| % TWO64
  }

  // ---- one step ----

  lemma QueueStep(s: State, h: History, step: Step)
    requires QueueInv(s, h)
    ensures QueueInv(Exec(s, step), Extend(h, s, step))
    ensures Room(s.pending, |Attempted(s, step)|) < |Attempted(s, step)| ==> |Exec(s, step).pending| == QUEUE
  {
    hide OnWrite, Boot, Popped, Room;
    var out := Attempted(s, step);
    QueueUnchanged(s, step);
    match step
    case ReadReg(off) =>
      hide Push;
      ReadStep(s, h, off);
    case WriteReg(off, val) =>
      PushStep(s, h, OnWrite(s, off, val).state, out);
      assert Popped(s, step) == [] by { PopsNothing(s, step); }
    case Announce =>
      PushStep(s, h, Boot(s).state, out);
      assert Popped(s, step) == [] by { PopsNothing(s, step); }
  }

  lemma PopsNothing(s: State, step: Step)
    requires !step.ReadReg?
    ensures Popped(s, step) == []
  {
  }

  lemma ReadStep(s: State, h: History, off: nat)
    requires QueueInv(s, h)
    ensures QueueInv(Exec(s, ReadReg(off)), Extend(h, s, ReadReg(off)))
  {
    var none: seq<Message> := [];
    assert none[..Room(s.pending, 0)] == [] && h.accepted + [] == h.accepted;
  }

  lemma PushStep(s: State, h: History, r: State, out: seq<Message>)
    requires QueueInv(s, h) && r.pending == s.pending && r.irq == s.irq
    ensures var k := Room(s.pending, |out|); var t := Push(r, out);
      && |t.pending| <= QUEUE && h.accepted + out[..k] == (h.delivered + []) + t.pending && (t.irq <==> t.pending != [])
      && (k < |out| ==> |t.pending| == QUEUE)
  {
  }

  /** Handlers touch the queue only by sending. */
  lemma QueueUnchanged(s: State, step: Step)
    ensures step.WriteReg? ==>
      var r := OnWrite(s, step.off, step.val).state; r.pending == s.pending && r.irq == s.irq
    ensures Boot(s).state.pending == s.pending && Boot(s).state.irq == s.irq
  {
    hide GetbufWord, InitTxWord, InitRxWord, MgmtWord, EpmapWords, HelloWord;
  }

  lemma {:induction false} HellosAppend(a: seq<Message>, b: seq<Message>)
    ensures Hellos(a + b) == Hellos(a) + Hellos(b)
    decreases |b|
  {
    hide HelloWord;
    if b == [] {
      assert a + b == a;
    } else {
      assert (a + b)[..|a + b| - 1] == a + b[..|b| - 1];
      HellosAppend(a, b[..|b| - 1]);
    }
  }

  lemma {:induction false} NoHellos(ms: seq<Message>)
    requires forall i :: 0 <= i < |ms| ==> ms[i].ep != 0 || MgmtType(ms[i].msg) != MGMT_HELLO
    ensures Hellos(ms) == 0
    decreases |ms|
  {
    hide MgmtType, HelloWord;
    if ms != [] {
      HelloIsHello();
      NoHellos(ms[..|ms| - 1]);
    }
  }

  lemma HelloIsHello()
    ensures MgmtType(HelloWord()) == MGMT_HELLO
  {
    hide Or, Pow2, MgmtWord, MgmtType;
    PowerConstants();
    OrDisjoint(RTKIT_VER_MAX, RTKIT_VER_MIN, 16);
    MgmtFields(MGMT_HELLO, RTKIT_VER_MAX * P16 + RTKIT_VER_MIN);
  }

  lemma MgmtSendsNoHello(s: State, msg: nat)
    requires |s.eps| <= 256
    ensures Hellos(Mgmt(s, msg).out) == 0
  {
    hide MgmtWord, MgmtType, EpmapWords;
    EpmapRoundTrip(Present(s.eps));
    MgmtFields(MGMT_IOP_PWR_ACK, msg % P16);
    MgmtFields(MGMT_AP_PWR, msg % P16);
    NoHellos(Mgmt(s, msg).out);
  }

  lemma BootSaysHello(s: State)
    ensures Hellos(Boot(s).out) == if s.helloSent then 0 else 1
  {
    hide HelloWord;
    assert Boot(s).out != [] ==> Boot(s).out[..0] == [];
  }

  lemma HelloStep(s: State, h: History, step: Step)
    requires HelloInv(s, h) && |s.eps| <= 256
    ensures HelloInv(Exec(s, step), Extend(h, s, step))
  {
    hide Mgmt, Afk, HelloWord, Hellos;
    var out := Attempted(s, step);
    HellosAppend(h.attempted, out);
    AcceptedHellos(h.accepted, out, Room(s.pending, |out|));
    BootSaysHello(s);
    NoHellos([]);
    HelloFlags(s, step);
    if step.WriteReg? && step.off == ASC_A2I_SEND1 {
      var epWord := step.val % TWO32;
      if epWord % 256 == 0 {
        MgmtSendsNoHello(s, s.a2iMsg);
      } else {
        AfkSendsNoHello(s, epWord % 256, s.a2iMsg);
      }
    } else if step.WriteReg? {
      BootSaysHello(s.(cpuControl := step.val % TWO32));
    }
  }

  lemma AfkSendsNoHello(s: State, ep: nat, msg: nat)
    requires ep != 0
    ensures Hellos(Afk(s, ep, msg).out) == 0
  {
    hide GetbufWord, InitTxWord, InitRxWord, MgmtType, RbepType;
    NoHellos(Afk(s, ep, msg).out);
  }

  lemma AcceptedHellos(a: seq<Message>, out: seq<Message>, k: nat)
    requires k <= |out|
    ensures Hellos(a) <= Hellos(a + out[..k]) <= Hellos(a) + Hellos(out)
  {
    hide Hellos;
    HellosAppend(a, out[..k]);
    HellosAppend(out[..k], out[k..]);
    assert out == out[..k] + out[k..];
  }

  /** Only booting changes the two flags. */
  lemma HelloFlags(s: State, step: Step)
    ensures step.WriteReg? && step.off == ASC_A2I_SEND1 ==>
      var r := Receive(s, s.a2iMsg, step.val % TWO32).state; r.running == s.running && r.helloSent == s.helloSent
  {
    hide GetbufWord, InitTxWord, InitRxWord, MgmtWord, EpmapWords, HelloWord;
  }

  lemma EndpointStep(s: State, h: History, s0: State, step: Step)
    requires EndpointInv(s, h, s0)
    ensures EndpointInv(Exec(s, step), Extend(h, s, step), s0)
  {
    hide GetbufWord, InitTxWord, InitRxWord, MgmtWord, EpmapWords, HelloWord, Log, Afk, MgmtType, Attempted, Popped,
         Asked, Mgmt;
    LogAndAfkKeepEndpoints(s);
    MgmtEndpoints(s, s.a2iMsg);
    assert h.starts + [] == h.starts;
  }

  /** Only STARTEP touches an endpoint, and only an advertised one. */
  lemma MgmtEndpoints(s: State, msg: nat)
    ensures var ep := msg / TWO32 % 256;
      Mgmt(s, msg).state.eps ==
        if MgmtType(msg) == MGMT_STARTEP && ep < |s.eps| && s.eps[ep].present
        then s.eps[ep := s.eps[ep].(started := true)]
        else s.eps
  {
    hide MgmtWord, EpmapWords, MgmtType;
  }

  lemma LogAndAfkKeepEndpoints(s: State)
    ensures forall msg :: Log(s, msg).state.eps == s.eps
    ensures forall ep, msg :: Afk(s, ep, msg).state.eps == s.eps
  {
    hide GetbufWord, InitTxWord, InitRxWord;
  }

  lemma BufferStep(s: State, h: History, step: Step)
    requires BufferInv(s, h)
    ensures BufferInv(Exec(s, step), Extend(h, s, step))
  {
    hide Mgmt, Afk, HelloWord, MgmtType;
    OthersKeepBuffers(s);
    assert h.asked + [] == h.asked;
  }

  lemma OthersKeepBuffers(s: State)
    ensures forall msg :: Mgmt(s, msg).state.bufs == s.bufs
    ensures forall ep, msg :: Afk(s, ep, msg).state.bufs == s.bufs
  {
    hide GetbufWord, InitTxWord, InitRxWord, MgmtWord, EpmapWords;
  }

  /** Only AFK messages change the AFK state. */
  lemma DcpAfter(s: State, step: Step)
    ensures var d := Exec(s, step).dcp;
      if AfkReceived(s, step) == [] then d == s.dcp
      else
        var t := RbepType(s.a2iMsg);
        && d.msgs == (s.dcp.msgs + 1) % TWO64
        && (d.started <==> s.dcp.started || t == RBEP_START_ACK) && (d.inited <==> s.dcp.inited || t == RBEP_GETBUF_ACK)
        && d.dva == if t == RBEP_GETBUF_ACK then s.a2iMsg % P48 else s.dcp.dva
  {
    hide GetbufWord, InitTxWord, InitRxWord, MgmtWord, EpmapWords, HelloWord, MgmtType, RbepType, Rbep, Requested;
  }

  lemma ReceivedOneMore(afk: seq<nat>, msg: nat, t: nat)
    ensures Received(afk + [msg], t) <==> Received(afk, t) || RbepType(msg) == t
  {
    hide RbepType;
    assert (afk + [msg])[|afk|] == msg;
    assert forall i :: 0 <= i < |afk| ==> (afk + [msg])[i] == afk[i];
  }

  lemma CountOneMore(n: nat, m: nat)
    requires m == n % TWO64
    ensures (m + 1) % TWO64 == (n + 1) % TWO64
  {
  }

  lemma AfkAtMostOne(s: State, step: Step)
    ensures AfkReceived(s, step) == [] || AfkReceived(s, step) == [s.a2iMsg]
  {
    hide RbepType;
  }

  lemma GrantOneMore(afk: seq<nat>, msg: nat)
    ensures LastGrant(afk + [msg]) == if RbepType(msg) == RBEP_GETBUF_ACK then msg % P48 else LastGrant(afk)
  {
    hide RbepType;
    assert (afk + [msg])[..|afk|] == afk;
  }

  lemma DcpStep(s: State, h: History, step: Step)
    requires DcpInv(s, h)
    ensures DcpInv(Exec(s, step), Extend(h, s, step))
  {
    hide Exec, Received, RbepType, Attempted, Popped, Asked, StartAsked, AfkReceived, LastGrant, Room;
    DcpAfter(s, step);
    AfkAtMostOne(s, step);
    var more := AfkReceived(s, step);
    if more == [] {
      assert h.afk + more == h.afk;
    } else {
      ReceivedOneMore(h.afk, s.a2iMsg, RBEP_START_ACK);
      ReceivedOneMore(h.afk, s.a2iMsg, RBEP_GETBUF_ACK);
      CountOneMore(|h.afk|, s.dcp.msgs);
      GrantOneMore(h.afk, s.a2iMsg);
    }
  }

  // ---- every run ----

  lemma {:induction false} RunKeeps(s: State, steps: seq<Step>)
    requires Fresh(s)
    ensures var (t, h) := Run(s, steps);
      QueueInv(t, h) && HelloInv(t, h) && EndpointInv(t, h, s) && BufferInv(t, h) && DcpInv(t, h)
    decreases |steps|
  {
    hide Exec, Extend, QueueInv, HelloInv, EndpointInv, BufferInv, DcpInv;
    if steps == [] {
      FreshKeeps(s);
    } else {
      var step := steps[|steps| - 1];
      RunKeeps(s, steps[..|steps| - 1]);
      var (t, h) := Run(s, steps[..|steps| - 1]);
      QueueStep(t, h, step);
      assert |t.eps| <= 256 by { SameCount(t, h, s); }
      HelloStep(t, h, step);
      EndpointStep(t, h, s, step);
      BufferStep(t, h, step);
      DcpStep(t, h, step);
    }
  }

  lemma SameCount(t: State, h: History, s: State)
    requires EndpointInv(t, h, s)
    ensures |t.eps| == |s.eps|
  {
  }

  lemma FreshKeeps(s: State)
    requires Fresh(s)
    ensures var h := History([], [], [], [], [], []);
      QueueInv(s, h) && HelloInv(s, h) && EndpointInv(s, h, s) && BufferInv(s, h) && DcpInv(s, h)
  {
  }

  // ---- what boots the device ----

  /** A timer announcement, or a write to CPU_CONTROL with the RUN bit. */
  predicate Boots(step: Step) {
    step == Announce || (step.WriteReg? && step.off == 0x44 && Bit(step.val, 4))
  }

  lemma RunBit(val: nat)
    ensures Bit(val, 4) <==> val / 16 % 2 == 1
  {
    assert val / 2 / 2 / 2 / 2 == val / 16;
    assert Bit(val, 4) == Bit(val / 2, 3) == Bit(val / 2 / 2, 2);
    assert Bit(val / 2 / 2, 2) == Bit(val / 2 / 2 / 2, 1) == Bit(val / 2 / 2 / 2 / 2, 0);
  }

  lemma BootsNow(s: State, step: Step)
    requires s.running == s.helloSent
    ensures Exec(s, step).helloSent <==> s.helloSent || Boots(step)
  {
    hide Receive, HelloWord, Bit;
    HelloFlags(s, step);
    if step.WriteReg? {
      RunBit(step.val);
    }
  }

  /** In every run from a fresh device HELLO is sent, once, exactly when some step of the run boots the device. */
  lemma {:induction false} HelloIffBooted(s: State, steps: seq<Step>)
    requires Fresh(s)
    ensures var (t, h) := Run(s, steps); var booted := exists k :: 0 <= k < |steps| && Boots(steps[k]);
      && (Hellos(h.attempted) == 1 <==> booted)
      && t.helloSent == t.running == booted
    decreases |steps|
  {
    hide Exec, Extend, Hellos, Boots;
    RunKeeps(s, steps);
    if steps != [] {
      var n := |steps| - 1;
      HelloIffBooted(s, steps[..n]);
      BootsNow(Run(s, steps[..n]).0, steps[n]);
      assert forall k :: 0 <= k < n ==> steps[..n][k] == steps[k];
    }
  }

  // ---- what a misbehaving guest can bring about ----

  predicate IsEpmap(m: Message) { m.ep == 0 && MgmtType(m.msg) == MGMT_EPMAP }

  /** Every endpoint map is sent after a HELLO. */
  predicate HelloFirst(ms: seq<Message>) {
    forall i :: 0 <= i < |ms| && IsEpmap(ms[i]) ==> Hellos(ms[..i]) > 0
  }

  /** The guest is about to hand over a HELLO_REPLY. */
  predicate Replies(s: State, step: Step) {
    && step.WriteReg? && step.off == ASC_A2I_SEND1 && step.val % TWO32 % 256 == 0
    && MgmtType(s.a2iMsg) == MGMT_HELLO_REPLY
  }

  /** It does so before the device said HELLO. */
  predicate RepliesEarly(s: State, step: Step) { Replies(s, step) && !s.helloSent }

  lemma MgmtMaps(s: State, msg: nat)
    requires |s.eps| <= 256
    ensures var out := Mgmt(s, msg).out;
      if MgmtType(msg) == MGMT_HELLO_REPLY
      then out != [] && Hellos(out) == 0 && forall i :: 0 <= i < |out| ==> IsEpmap(out[i])
      else forall i :: 0 <= i < |out| ==> !IsEpmap(out[i])
  {
    hide MgmtWord, MgmtType, EpmapWords, Hellos;
    MgmtSendsNoHello(s, msg);
    EpmapRoundTrip(Present(s.eps));
    MgmtFields(MGMT_IOP_PWR_ACK, msg % P16);
    MgmtFields(MGMT_AP_PWR, msg % P16);
  }

  lemma BootSendsNoMap(s: State)
    ensures forall i :: 0 <= i < |Boot(s).out| ==> !IsEpmap(Boot(s).out[i])
  {
    hide MgmtType, HelloWord;
    HelloIsHello();
  }

  lemma AfkSendsNoMap(s: State, ep: nat, msg: nat)
    requires ep != 0
    ensures forall i :: 0 <= i < |Afk(s, ep, msg).out| ==> !IsEpmap(Afk(s, ep, msg).out[i])
  {
    hide GetbufWord, InitTxWord, InitRxWord, MgmtType, RbepType;
  }

  /** Endpoint maps are the answer to HELLO_REPLY and to nothing else. */
  lemma MapsAnswerReplies(s: State, step: Step)
    requires |s.eps| <= 256
    ensures var out := Attempted(s, step);
      if Replies(s, step) then out != [] && Hellos(out) == 0 && forall i :: 0 <= i < |out| ==> IsEpmap(out[i])
      else forall i :: 0 <= i < |out| ==> !IsEpmap(out[i])
  {
    hide Mgmt, Afk, Log, Boot, IsEpmap, Hellos, MgmtType;
    BootSendsNoMap(s);
    if step.WriteReg? {
      BootSendsNoMap(s.(cpuControl := step.val % TWO32));
      var ep := step.val % TWO32 % 256;
      MgmtMaps(s, s.a2iMsg);
      if ep != 0 {
        AfkSendsNoMap(s, ep, s.a2iMsg);
      }
      LogSendsNothing(s, s.a2iMsg);
    }
  }

  lemma LogSendsNothing(s: State, msg: nat)
    ensures Log(s, msg).out == []
  {
  }

  lemma HelloFirstAppend(a: seq<Message>, b: seq<Message>, maps: bool)
    requires maps ==> b != [] && Hellos(b) == 0
    requires forall i :: 0 <= i < |b| ==> (IsEpmap(b[i]) <==> maps)
    ensures HelloFirst(a + b) <==> HelloFirst(a) && (maps ==> Hellos(a) > 0)
  {
    hide IsEpmap, Hellos;
    forall i | 0 <= i < |a|
      ensures (a + b)[..i] == a[..i] && (a + b)[i] == a[i]
    {
    }
    forall i | 0 <= i < |b|
      ensures Hellos((a + b)[..|a| + i]) == Hellos(a) + Hellos(b[..i]) && (a + b)[|a| + i] == b[i]
    {
      assert (a + b)[..|a| + i] == a + b[..i];
      HellosAppend(a, b[..i]);
    }
    if maps {
      NoHellosIn(b);
      assert b[..0] == [] && IsEpmap((a + b)[|a| + 0]) && (a + b)[..|a| + 0] == a;
    }
  }

  lemma NoHellosIn(b: seq<Message>)
    requires Hellos(b) == 0
    ensures forall i :: 0 <= i <= |b| ==> Hellos(b[..i]) == 0
  {
    hide Hellos;
    forall i | 0 <= i <= |b|
      ensures Hellos(b[..i]) == 0
    {
      assert b == b[..i] + b[i..];
      HellosAppend(b[..i], b[i..]);
    }
  }

  lemma HelloFirstStep(s: State, h: History, step: Step)
    requires HelloInv(s, h) && |s.eps| <= 256
    ensures HelloFirst(Extend(h, s, step).attempted) <==> HelloFirst(h.attempted) && !RepliesEarly(s, step)
  {
    hide HelloFirst, IsEpmap, Attempted, Replies, Popped, Asked, StartAsked, AfkReceived, Room, Hellos;
    MapsAnswerReplies(s, step);
    HelloFirstAppend(h.attempted, Attempted(s, step), Replies(s, step));
  }

  /** No HELLO_REPLY of the run came before HELLO. */
  predicate NeverRepliesEarly(s: State, steps: seq<Step>) {
    forall k :: 0 <= k < |steps| ==> !RepliesEarly(Run(s, steps[..k]).0, steps[k])
  }

  lemma OneMoreReply(s: State, steps: seq<Step>)
    requires steps != []
    ensures var n := |steps| - 1;
      NeverRepliesEarly(s, steps) <==> NeverRepliesEarly(s, steps[..n]) && !RepliesEarly(Run(s, steps[..n]).0, steps[n])
  {
    hide Run, RepliesEarly;
    Prefixes(steps);
  }

  lemma Prefixes(steps: seq<Step>)
    requires steps != []
    ensures forall k :: 0 <= k < |steps| ==> steps[..|steps| - 1][..k] == steps[..k]
  {
  }

  lemma RunOneMore(s: State, steps: seq<Step>, n: nat)
    requires n < |steps|
    ensures var (t, h) := Run(s, steps[..n]); Run(s, steps[..n + 1]) == (Exec(t, steps[n]), Extend(h, t, steps[n]))
  {
    hide Exec, Extend;
    assert steps[..n + 1][..n] == steps[..n];
  }

  /** In every run from a fresh device, all endpoint maps follow a HELLO exactly when the guest never replied early. */
  lemma {:induction false} EpmapsFollowHello(s: State, steps: seq<Step>)
    requires Fresh(s)
    ensures HelloFirst(Run(s, steps).1.attempted) <==> NeverRepliesEarly(s, steps)
    decreases |steps|
  {
    hide *;
    if steps == [] {
      NothingSent(s, steps);
    } else {
      var n := |steps| - 1;
      var (t, h) := Run(s, steps[..n]);
      EpmapsFollowHello(s, steps[..n]);
      RunBasics(s, steps[..n]);
      HelloFirstStep(t, h, steps[n]);
      OneMoreReply(s, steps);
      RunOneMore(s, steps, n);
      assert steps[..n + 1] == steps;
    }
  }

  lemma NothingSent(s: State, steps: seq<Step>)
    requires steps == []
    ensures HelloFirst(Run(s, steps).1.attempted) && NeverRepliesEarly(s, steps)
  {
  }

  lemma RunBasics(s: State, steps: seq<Step>)
    requires Fresh(s)
    ensures var (t, h) := Run(s, steps); HelloInv(t, h) && |t.eps| <= 256
  {
    hide Run, HelloInv;
    RunKeeps(s, steps);
  }

  /** A HELLO_REPLY for which there is room although no HELLO made it into the queue. */
  predicate RepliesUnheard(s: State, h: History, step: Step) {
    Replies(s, step) && |s.pending| < QUEUE && Hellos(h.accepted) == 0
  }

  predicate NeverRepliesUnheard(s: State, steps: seq<Step>) {
    forall k :: 0 <= k < |steps| ==> !RepliesUnheard(Run(s, steps[..k]).0, Run(s, steps[..k]).1, steps[k])
  }

  lemma AcceptedMaps(s: State, h: History, step: Step)
    requires |s.eps| <= 256
    ensures HelloFirst(Extend(h, s, step).accepted) <==> HelloFirst(h.accepted) && !RepliesUnheard(s, h, step)
  {
    hide HelloFirst, IsEpmap, Attempted, Replies, Popped, Asked, StartAsked, AfkReceived, Hellos;
    MapsAnswerReplies(s, step);
    var out := Attempted(s, step);
    var b := out[..Room(s.pending, |out|)];
    var maps := Replies(s, step) && |s.pending| < QUEUE;
    if maps {
      NoHellosIn(out);
    }
    HelloFirstAppend(h.accepted, b, maps);
  }

  lemma OneMoreUnheard(s: State, steps: seq<Step>)
    requires steps != []
    ensures var n := |steps| - 1; var (t, h) := Run(s, steps[..n]);
      NeverRepliesUnheard(s, steps) <==> NeverRepliesUnheard(s, steps[..n]) && !RepliesUnheard(t, h, steps[n])
  {
    hide Run, RepliesUnheard;
    Prefixes(steps);
  }

  /** What reaches the guest: in every run from a fresh device, each endpoint map that
      enters the queue has a HELLO before it there exactly when the guest never sent a
      HELLO_REPLY, with room for its answer, while no HELLO had got in. */
  lemma {:induction false} EpmapsArriveAfterHello(s: State, steps: seq<Step>)
    requires Fresh(s)
    ensures HelloFirst(Run(s, steps).1.accepted) <==> NeverRepliesUnheard(s, steps)
    decreases |steps|
  {
    hide *;
    if steps == [] {
      NothingAccepted(s, steps);
    } else {
      var n := |steps| - 1;
      var (t, h) := Run(s, steps[..n]);
      EpmapsArriveAfterHello(s, steps[..n]);
      RunBasics(s, steps[..n]);
      AcceptedMaps(t, h, steps[n]);
      OneMoreUnheard(s, steps);
      RunOneMore(s, steps, n);
      assert steps[..n + 1] == steps;
    }
  }

  lemma NothingAccepted(s: State, steps: seq<Step>)
    requires steps == []
    ensures HelloFirst(Run(s, steps).1.accepted) && NeverRepliesUnheard(s, steps)
  {
  }

  // ---- a HELLO that is lost ----

  /** One more step of a run, and whether it replies early. */
  lemma StepOn(s: State, steps: seq<Step>, step: Step)
    ensures var (t, h) := Run(s, steps);
      && Run(s, steps + [step]) == (Exec(t, step), Extend(h, t, step))
      && (NeverRepliesEarly(s, steps + [step]) <==> NeverRepliesEarly(s, steps) && !RepliesEarly(t, step))
  {
    hide *;
    var all := steps + [step];
    assert all[..|steps|] == steps && all[|steps|] == step && all[..|steps| + 1] == all;
    RunOneMore(s, all, |steps|);
    OneMoreReply(s, all);
  }

  function PowerWord(): nat { MgmtWord(MGMT_IOP_PWR, 0) }

  /** n power requests, none of which is read out. */
  function Flood(n: nat): seq<Step> {
    if n == 0 then [WriteReg(ASC_A2I_SEND0, PowerWord())] else Flood(n - 1) + [WriteReg(ASC_A2I_SEND1, 0)]
  }

  /** The queue holds n messages and no HELLO has been sent. */
  predicate Flooded(s: State, h: History, n: nat) {
    && s.a2iMsg == PowerWord() && |s.pending| == n && !s.helloSent
    && Hellos(h.accepted) == 0 && |s.eps| <= 256
  }

  lemma PowerRequest(s: State, h: History, n: nat)
    requires Flooded(s, h, n) && n < QUEUE
    ensures var step := WriteReg(ASC_A2I_SEND1, 0);
      Flooded(Exec(s, step), Extend(h, s, step), n + 1) && !RepliesEarly(s, step)
  {
    hide PowerWord, MgmtWord, MgmtType, EpmapWords, Hellos, Popped, Asked, StartAsked, AfkReceived;
    PowerWordType();
    MgmtSendsNoHello(s, s.a2iMsg);
    var out := Mgmt(s, s.a2iMsg).out;
    assert |out| == 1 && out[..1] == out;
    HellosAppend(h.accepted, out);
  }

  lemma PowerWordType()
    ensures MgmtType(PowerWord()) == MGMT_IOP_PWR
  {
    hide MgmtWord, MgmtType;
    MgmtFields(MGMT_IOP_PWR, 0);
  }

  lemma {:induction false} FloodRuns(s: State, n: nat)
    requires Fresh(s) && n <= QUEUE
    ensures var (t, h) := Run(s, Flood(n)); Flooded(t, h, n) && NeverRepliesEarly(s, Flood(n))
    decreases n
  {
    hide Flood, Run, Flooded, Exec, Extend, NeverRepliesEarly, RepliesEarly, Fresh;
    if n == 0 {
      FloodStarts(s);
    } else {
      FloodRuns(s, n - 1);
      FloodOneMore(n);
      var (t, h) := Run(s, Flood(n - 1));
      PowerRequest(t, h, n - 1);
      StepOn(s, Flood(n - 1), WriteReg(ASC_A2I_SEND1, 0));
    }
  }

  lemma FloodOneMore(n: nat)
    requires n > 0
    ensures Flood(n) == Flood(n - 1) + [WriteReg(ASC_A2I_SEND1, 0)]
  {
  }

  lemma FloodStarts(s: State)
    requires Fresh(s)
    ensures var (t, h) := Run(s, Flood(0)); Flooded(t, h, 0) && NeverRepliesEarly(s, Flood(0))
  {
    hide PowerWord, Extend, Exec, NeverRepliesEarly;
    var step := WriteReg(ASC_A2I_SEND0, PowerWord());
    StepOn(s, [], step);
    assert [] + [step] == [step];
    StageOnly(s, PowerWord());
    StageSendsNothing(s, History([], [], [], [], [], []), PowerWord());
    assert NeverRepliesEarly(s, []) by { NothingSent(s, []); }
  }

  lemma StageSendsNothing(s: State, h: History, w: nat)
    ensures Extend(h, s, WriteReg(ASC_A2I_SEND0, w)).accepted == h.accepted
  {
    assert h.accepted + [] == h.accepted;
  }

  /** With the queue full the device boots and its HELLO is lost. */
  lemma BootIsLost(s: State, h: History)
    requires Flooded(s, h, QUEUE)
    ensures var t := Exec(s, Announce);
      t == s.(helloSent := true, running := true) && Extend(h, s, Announce).accepted == h.accepted
  {
    hide HelloWord, Hellos, PowerWord;
    assert s.pending + [] == s.pending && h.accepted + [] == h.accepted;
  }

  lemma ReadSendsNothing(s: State, h: History)
    requires |s.pending| > 0
    ensures var step := ReadReg(ASC_I2A_RECV1);
      && Exec(s, step) == s.(pending := s.pending[1..], irq := |s.pending| > 1)
      && Extend(h, s, step).accepted == h.accepted
  {
    assert h.accepted + [] == h.accepted;
  }

  function ReplyWord(): nat { MgmtWord(MGMT_HELLO_REPLY, RTKIT_VER_MAX) }

  /** Power requests that nobody reads out, the boot, one read and a HELLO_REPLY: each endpoint map is sent after HELLO,
      and yet the guest reads endpoint maps without having read a HELLO. */
  lemma HelloLost(s: State) returns (steps: seq<Step>)
    requires Fresh(s)
    ensures HelloFirst(Run(s, steps).1.attempted) && !HelloFirst(Run(s, steps).1.accepted)
  {
    FloodRuns(s, QUEUE);
    FloodedParts(s);
    hide *;
    var s0 := Flood(QUEUE);
    var (t0, h0) := Run(s, s0);
    BootIsLost(t0, h0);
    var s1 := s0 + [Announce];
    StepOn(s, s0, Announce);
    var s2 := s1 + [ReadReg(ASC_I2A_RECV1)];
    StepOn(s, s1, ReadReg(ASC_I2A_RECV1));
    var (t1, h1) := Run(s, s1);
    ReadSendsNothing(t1, h1);
    var (t2, h2) := Run(s, s2);
    var s3 := s2 + [WriteReg(ASC_A2I_SEND0, ReplyWord())];
    StepOn(s, s2, WriteReg(ASC_A2I_SEND0, ReplyWord()));
    StageOnly(t2, ReplyWord());
    StageSendsNothing(t2, h2, ReplyWord());
    var (t3, h3) := Run(s, s3);
    steps := s3 + [WriteReg(ASC_A2I_SEND1, 0)];
    StepOn(s, s3, WriteReg(ASC_A2I_SEND1, 0));
    NotEarly(t0, Announce);
    NotEarly(t1, ReadReg(ASC_I2A_RECV1));
    NotEarly(t2, WriteReg(ASC_A2I_SEND0, ReplyWord()));
    NotEarly(t3, WriteReg(ASC_A2I_SEND1, 0));
    UnheardNow(t3, h3);
    EpmapsFollowHello(s, steps);
    AcceptedMaps(t3, h3, WriteReg(ASC_A2I_SEND1, 0));
  }

  lemma FloodedParts(s: State)
    requires Flooded(Run(s, Flood(QUEUE)).0, Run(s, Flood(QUEUE)).1, QUEUE)
    ensures var (t, h) := Run(s, Flood(QUEUE)); |t.pending| == QUEUE && Hellos(h.accepted) == 0 && |t.eps| <= 256
  {
    hide Run, Flood, Hellos;
  }

  lemma NotEarly(s: State, step: Step)
    requires s.helloSent || step == Announce
    ensures !RepliesEarly(s, step)
  {
  }

  lemma UnheardNow(s: State, h: History)
    requires s.a2iMsg == ReplyWord() && |s.pending| < QUEUE && Hellos(h.accepted) == 0
    ensures RepliesUnheard(s, h, WriteReg(ASC_A2I_SEND1, 0))
  {
    hide MgmtWord, MgmtType, Hellos;
    MgmtFields(MGMT_HELLO_REPLY, RTKIT_VER_MAX);
  }

  // ---- a start without a buffer ----

  /** The guest is about to hand over a START_ACK on an AFK endpoint without having granted a buffer. */
  predicate StartsEarly(s: State, step: Step) {
    AfkReceived(s, step) != [] && RbepType(s.a2iMsg) == RBEP_START_ACK && !s.dcp.inited
  }

  predicate SetUp(s: State) { s.dcp.started ==> s.dcp.inited }

  lemma SetUpStep(s: State, step: Step)
    requires SetUp(s)
    ensures SetUp(Exec(s, step)) <==> !StartsEarly(s, step)
  {
    hide Exec, AfkReceived, RbepType;
    DcpAfter(s, step);
  }

  /** No START_ACK of the run came before a GETBUF_ACK. */
  predicate NeverStartsEarly(s: State, steps: seq<Step>) {
    forall k :: 0 <= k < |steps| ==> !StartsEarly(Run(s, steps[..k]).0, steps[k])
  }

  predicate AlwaysSetUp(s: State, steps: seq<Step>) {
    forall k :: 0 <= k <= |steps| ==> SetUp(Run(s, steps[..k]).0)
  }

  lemma OneMoreStart(s: State, steps: seq<Step>)
    requires steps != []
    ensures var n := |steps| - 1;
      && (NeverStartsEarly(s, steps)
          <==> NeverStartsEarly(s, steps[..n]) && !StartsEarly(Run(s, steps[..n]).0, steps[n]))
      && (AlwaysSetUp(s, steps) <==> AlwaysSetUp(s, steps[..n]) && SetUp(Run(s, steps).0))
  {
    hide Run, StartsEarly, SetUp;
    Prefixes(steps);
    assert steps[..|steps|] == steps;
  }

  /** In every run from a fresh device, the transport is at every moment set up when it is started
      exactly when the guest never acknowledged a start early. */
  lemma {:induction false} StartedAfterSetUp(s: State, steps: seq<Step>)
    requires Fresh(s)
    ensures AlwaysSetUp(s, steps) <==> NeverStartsEarly(s, steps)
    decreases |steps|
  {
    hide *;
    if steps == [] {
      FreshIsSetUp(s, steps);
    } else {
      var n := |steps| - 1;
      StartedAfterSetUp(s, steps[..n]);
      OneMoreStart(s, steps);
      RunOneMore(s, steps, n);
      assert steps[..n + 1] == steps;
      if AlwaysSetUp(s, steps[..n]) {
        SetUpAtEnd(s, steps[..n]);
        SetUpStep(Run(s, steps[..n]).0, steps[n]);
      }
    }
  }

  lemma SetUpAtEnd(s: State, steps: seq<Step>)
    requires AlwaysSetUp(s, steps)
    ensures SetUp(Run(s, steps).0)
  {
    hide Run, SetUp;
    assert steps[..|steps|] == steps;
  }

  lemma FreshIsSetUp(s: State, steps: seq<Step>)
    requires Fresh(s) && steps == []
    ensures AlwaysSetUp(s, steps) && NeverStartsEarly(s, steps)
  {
  }

  /** A fresh device with the display endpoints, sent nothing but a START_ACK, calls itself started without a buffer. */
  lemma StartWithoutBuffer(s: State)
    requires Fresh(s) && |s.eps| > 0x23 && s.eps[0x23].handler == AfkHandler
    ensures var t := Run(s, [WriteReg(ASC_A2I_SEND0, Rbep(RBEP_START_ACK)), WriteReg(ASC_A2I_SEND1, 0x23)]).0;
      t.dcp.started && !t.dcp.inited && t.dcp.dva == 0
  {
    hide Extend, Exec, RbepType;
    var w := Rbep(RBEP_START_ACK);
    var steps := [WriteReg(ASC_A2I_SEND0, w), WriteReg(ASC_A2I_SEND1, 0x23)];
    assert steps[..1] == [WriteReg(ASC_A2I_SEND0, w)] && steps[..1][..0] == [];
    assert Run(s, []).0 == s;
    var u := s.(a2iMsg := w);
    assert Exec(s, steps[0]) == u by { StageOnly(s, w); }
    assert Run(s, steps[..1]).0 == u;
    DcpAfter(u, steps[1]);
    assert RbepType(w) == RBEP_START_ACK by { StartAckType(); }
  }

  lemma StageOnly(s: State, w: nat)
    ensures Exec(s, WriteReg(ASC_A2I_SEND0, w)) == s.(a2iMsg := w)
  {
    PushNothing(s.(a2iMsg := w));
  }

  lemma StartAckType()
    ensures RbepType(Rbep(RBEP_START_ACK)) == RBEP_START_ACK
  {
  }

  // ---- what the guest reads ----

  /** The guest reads the accepted messages in order: RECV0 shows the next one, RECV1 takes it. */
  lemma GuestReadsInOrder(s: State, steps: seq<Step>)
    requires Fresh(s)
    ensures var (t, h) := Run(s, steps);
      && h.delivered <= h.accepted
      && (t.pending != [] ==>
            |h.delivered| < |h.accepted| &&
            var next := h.accepted[|h.delivered|];
            && ReadValue(t, ASC_I2A_RECV0) == next.msg && Read(t, ASC_I2A_RECV0) == t
            && ReadValue(t, ASC_I2A_RECV1) == next.ep && Read(t, ASC_I2A_RECV1).pending == t.pending[1..])
      && (t.pending == [] <==> h.delivered == h.accepted)
  {
    hide Run;
    RunKeeps(s, steps);
  }

  // ---- single exchanges ----

  /** A HELLO_REPLY with room in the queue is answered by a burst from which the
      guest reads exactly the advertised endpoints. */
  lemma HelloReplyAdvertises(s: State, version: nat)
    requires version < P16 && |s.eps| <= 256 && |s.pending| + |EpmapWords(Present(s.eps))| <= QUEUE
    ensures var t := Write(s.(a2iMsg := MgmtWord(MGMT_HELLO_REPLY, version)), ASC_A2I_SEND1, 0);
      var words := EpmapWords(Present(s.eps));
      && t.pending == s.pending + OnMgmtEndpoint(words) && t.version == version
      && forall ep: nat :: Advertises(words, ep) <==> ep < |s.eps| && s.eps[ep].present
  {
    hide MgmtWord, MgmtType, EpmapWords, Advertises;
    MgmtFields(MGMT_HELLO_REPLY, version);
    EpmapRoundTrip(Present(s.eps));
    var words := EpmapWords(Present(s.eps));
    assert OnMgmtEndpoint(words)[..|words|] == OnMgmtEndpoint(words);
    var w := MgmtWord(MGMT_HELLO_REPLY, version);
    assert w % P16 == version by { assert w == 2 * P52 + version; }
  }

  /** Power requests are acknowledged with the requested state; the two requests have different acknowledgements. */
  lemma PowerAcknowledged(s: State, msg: nat)
    requires MgmtType(msg) == MGMT_IOP_PWR || MgmtType(msg) == MGMT_AP_PWR
    ensures var out := Mgmt(s, msg).out;
      && |out| == 1 && out[0].ep == 0 && out[0].msg % P52 == msg % P16
      && MgmtType(out[0].msg) == if MgmtType(msg) == MGMT_IOP_PWR then MGMT_IOP_PWR_ACK else MGMT_AP_PWR
  {
    hide MgmtWord, MgmtType, EpmapWords;
    MgmtFields(MGMT_IOP_PWR_ACK, msg % P16);
    MgmtFields(MGMT_AP_PWR, msg % P16);
  }

  /** The guest sees an empty flag exactly when there is nothing to read. */
  lemma EmptyFlag(s: State)
    ensures ReadValue(s, ASC_I2A_CONTROL) / ASC_CTRL_EMPTY % 2 == 1 <==> s.pending == []
  {
  }

  /** Nothing makes the guest wait for HELLO: an early HELLO_REPLY gets its
      endpoint map from a device that never booted. */
  lemma EpmapBeforeHello(s: State)
    requires Fresh(s)
    ensures var w := MgmtWord(MGMT_HELLO_REPLY, RTKIT_VER_MAX);
      var t := Run(s, [WriteReg(ASC_A2I_SEND0, w), WriteReg(ASC_A2I_SEND1, 0)]).0;
      !t.helloSent && t.pending != [] && MgmtType(t.pending[0].msg) == MGMT_EPMAP
  {
    hide MgmtWord, MgmtType, EpmapWords, Extend, Advertises;
    var w := MgmtWord(MGMT_HELLO_REPLY, RTKIT_VER_MAX);
    MgmtFields(MGMT_HELLO_REPLY, RTKIT_VER_MAX);
    EpmapRoundTrip(Present(s.eps));
    var steps := [WriteReg(ASC_A2I_SEND0, w), WriteReg(ASC_A2I_SEND1, 0)];
    assert steps[..1] == [WriteReg(ASC_A2I_SEND0, w)] && steps[..1][..0] == [];
    PushNothing(s.(a2iMsg := w));
    assert Run(s, []).0 == s;
    assert Run(s, steps[..1]).0 == s.(a2iMsg := w);
    assert Run(s, steps).0 == Write(s.(a2iMsg := w), ASC_A2I_SEND1, 0);
  }

  /** A buffer request packed by the guest is recorded with its address and page count. */
  lemma BufferRequestFields(iova: nat, size: nat)
    requires iova < P44 && size < 256
    ensures Requested(MgmtWord(1, Or(size * P44, iova))) == [Buffer(iova, size)]
  {
    hide Or, Pow2, MgmtWord, MgmtType;
    PowerConstants();
    OrDisjoint(size, iova, 44);
    var p := size * P44 + iova;
    MgmtFields(1, p);
    var w := MgmtWord(1, p);
    assert w == P52 + p && w % P44 == iova && w / P44 % 256 == size;
  }

  /** A start request for an endpoint, as the guest packs it, starts exactly that endpoint when it is advertised. */
  lemma StartRequest(s: State, ep: nat)
    requires ep < 256
    ensures var t := Write(s.(a2iMsg := MgmtWord(MGMT_STARTEP, ep * TWO32)), ASC_A2I_SEND1, 0);
      && |t.eps| == |s.eps|
      && forall i :: 0 <= i < |s.eps| ==>
           t.eps[i] == if i == ep && s.eps[i].present then s.eps[i].(started := true) else s.eps[i]
  {
    hide MgmtWord, MgmtType, EpmapWords, Mgmt;
    MgmtFields(MGMT_STARTEP, ep * TWO32);
    var w := MgmtWord(MGMT_STARTEP, ep * TWO32);
    assert w == (MGMT_STARTEP * 0x10_0000 + ep) * TWO32;
    assert w / TWO32 == MGMT_STARTEP * 0x10_0000 + ep;
    assert w / TWO32 % 256 == ep;
    MgmtEndpoints(s.(a2iMsg := w), w);
  }

  /** Every register read gave the value the run predicts. */
  ghost predicate ReadsPredicted(s: State, steps: seq<Step>, values: seq<nat>) {
    && |values| <= |steps|
    && forall i :: 0 <= i < |values| && steps[i].ReadReg? ==> values[i] == ReadValue(Run(s, steps[..i]).0, steps[i].off)
  }

  lemma OneMoreRead(s: State, steps: seq<Step>, values: seq<nat>, v: nat)
    requires ReadsPredicted(s, steps, values) && |values| < |steps|
    requires var step := steps[|values|]; step.ReadReg? ==> v == ReadValue(Run(s, steps[..|values|]).0, step.off)
    ensures ReadsPredicted(s, steps, values + [v])
  {
    hide Run, ReadValue;
  }

  /** The device object goes through the states of the run, every register read gives the value the run predicts,
      and the messages the guest takes out with EMPTY, RECV0 and RECV1 are the delivered ones in order. */
  method Drive(rtk: AppleRTKit, steps: seq<Step>) returns (values: seq<nat>, received: seq<Message>)
    requires rtk.Valid()
    modifies rtk, rtk.q, rtk.eps, rtk.bufs, rtk.dcp
    ensures rtk.Valid() && rtk.Abs() == Run(old(rtk.Abs()), steps).0
    ensures |values| == |steps| && ReadsPredicted(old(rtk.Abs()), steps, values)
    ensures received == Run(old(rtk.Abs()), steps).1.delivered
  {
    hide Exec, Extend, Run, Popped, ReadValue, ReadsPredicted;
    ghost var s := rtk.Abs();
    values, received := [], [];
    assert steps[..0] == [];
    NoSteps(s);
    NoReads(s, steps);
    for i := 0 to |steps|
      invariant rtk.Valid() && rtk.Abs() == Run(s, steps[..i]).0
      invariant |values| == i && ReadsPredicted(s, steps, values)
      invariant received == Run(s, steps[..i]).1.delivered
    {
      RunOneMore(s, steps, i);
      DeliveredOneMore(Run(s, steps[..i]).1, Run(s, steps[..i]).0, steps[i]);
      var v, taken := Take(rtk, steps[i]);
      OneMoreRead(s, steps, values, v);
      values, received := values + [v], received + taken;
    }
    assert steps[..|steps|] == steps;
  }

  lemma NoReads(s: State, steps: seq<Step>)
    ensures ReadsPredicted(s, steps, [])
  {
  }

  /** A device with the display endpoints, as the machine creates it. */
  function Created(): State { PowerOn().(eps := WithDisplay(PowerOn().eps)) }

  /** It advertises the five log endpoints and the three of the display, and nothing is started. */
  lemma CreatedFresh()
    ensures Fresh(Created()) && |Created().eps| == 64
    ensures Created().a2iMsg == 0 && Created().cpuControl == 0 && Created().version == 0
    ensures forall ep :: 0 <= ep < 64 ==>
      Created().eps[ep] == (
        if ep in {1, 2, 3, 4, 8} then Endpoint(true, false, LogHandler)
        else if ep in {0x23, 0x24, 0x25} then Endpoint(true, false, AfkHandler)
        else NO_ENDPOINT)
  {
  }

  /** Create the device, attach the display and drive it: everything that holds of runs holds of the object. */
  method Session(steps: seq<Step>) returns (rtk: AppleRTKit, values: seq<nat>, received: seq<Message>, ghost h: History)
    ensures fresh(rtk) && rtk.Valid() && (rtk.Abs(), h) == Run(Created(), steps)
    ensures |values| == |steps| && ReadsPredicted(Created(), steps, values)
    ensures received == h.delivered && h.accepted == received + rtk.Abs().pending
    ensures var t := rtk.Abs();
      QueueInv(t, h) && HelloInv(t, h) && EndpointInv(t, h, Created()) && BufferInv(t, h) && DcpInv(t, h)
  {
    hide Run, ReadsPredicted, HelloInv, EndpointInv, BufferInv, DcpInv, PowerOn, WithDisplay, Fresh;
    CreatedFresh();
    rtk := new AppleRTKit();
    rtk.DcpAttach();
    values, received := Drive(rtk, steps);
    h := Run(Created(), steps).1;
    RunKeeps(Created(), steps);
  }

  lemma NoSteps(s: State)
    ensures Run(s, []) == (s, History([], [], [], [], [], []))
  {
  }

  lemma DeliveredOneMore(h: History, s: State, step: Step)
    ensures Extend(h, s, step).delivered == h.delivered + Popped(s, step)
  {
  }

  /** One step on the device object; around RECV1 the guest looks at EMPTY and takes the word from RECV0 first. */
  method Take(rtk: AppleRTKit, step: Step) returns (v: nat, taken: seq<Message>)
    requires rtk.Valid()
    modifies rtk, rtk.q, rtk.eps, rtk.bufs, rtk.dcp
    ensures rtk.Valid() && rtk.Abs() == Exec(old(rtk.Abs()), step)
    ensures step.ReadReg? ==> v == ReadValue(old(rtk.Abs()), step.off)
    ensures taken == Popped(old(rtk.Abs()), step)
  {
    hide Write, Boot, Push;
    v, taken := 0, [];
    match step
    case ReadReg(off) =>
      if off == ASC_I2A_RECV1 {
        var control := rtk.ReadRegister(ASC_I2A_CONTROL);
        var word := rtk.ReadRegister(ASC_I2A_RECV0);
        v := rtk.ReadRegister(off);
        if control != ASC_CTRL_EMPTY {
          taken := [Message(v, word)];
        }
      } else {
        v := rtk.ReadRegister(off);
      }
    case WriteReg(off, val) =>
      rtk.WriteRegister(off, val);
    case Announce =>
      rtk.BootDevice();
  }
}
