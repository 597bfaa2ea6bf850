/** The RTKit coprocessor as a state machine, and the device of scripts/apple_rtkit.c that refines it. */
module RtkitDevice {
  import opened Words
  import opened RtkitProtocol

  const QUEUE := 64
  const MAX_ENDPOINTS := 64
  const BUFFERS := 8

  const ASC_CPU_CONTROL := 0x044
  const ASC_A2I_CONTROL := 0x110
  const ASC_I2A_CONTROL := 0x114
  const ASC_A2I_SEND0 := 0x800
  const ASC_A2I_SEND1 := 0x808
  const ASC_I2A_RECV0 := 0x830
  const ASC_I2A_RECV1 := 0x838
  const ASC_CTRL_EMPTY: nat := 0x20000

  // the AFK messages of scripts/apple_dcp.c
  const RBEP_INIT := 0x80
  const RBEP_INIT_ACK := 0xa0
  const RBEP_GETBUF := 0x89
  const RBEP_GETBUF_ACK := 0xa1
  const RBEP_INIT_TX := 0x8a
  const RBEP_INIT_RX := 0x8b
  const RBEP_START := 0xa3
  const RBEP_START_ACK := 0xa4

  datatype Message = Message(ep: nat, msg: nat)
  datatype Handler = NoHandler | LogHandler | AfkHandler
  datatype Endpoint = Endpoint(present: bool, started: bool, handler: Handler)
  datatype Buffer = Buffer(iova: nat, size: nat)
  datatype Dcp = Dcp(inited: bool, dva: nat, started: bool, msgs: nat)

  // ---- the state machine ----

  datatype State = State(
    pending: seq<Message>, a2iMsg: nat, cpuControl: nat, running: bool, helloSent: bool, version: nat,
    eps: seq<Endpoint>, bufs: seq<Buffer>, dcp: Dcp, irq: bool)

  /** What a handler does: the new state apart from the queue, and the messages it sends in order. */
  datatype Reaction = Reaction(state: State, out: seq<Message>)

  function Room(p: seq<Message>, n: nat): (k: nat)
    ensures k <= n
  {
    if |p| >= QUEUE then 0 else if n <= QUEUE - |p| then n else QUEUE - |p|
  }

  /** Messages sent with the queue full are dropped. */
  function Push(s: State, out: seq<Message>): State {
    var k := Room(s.pending, |out|);
    s.(pending := s.pending + out[..k], irq := s.irq || k > 0)
  }

  function Present(eps: seq<Endpoint>): (p: seq<bool>)
    ensures |p| == |eps| && forall i :: 0 <= i < |eps| ==> p[i] == eps[i].present
  {
    seq(|eps|, i requires 0 <= i < |eps| => eps[i].present)
  }

  function OnMgmtEndpoint(words: seq<nat>): (ms: seq<Message>)
    ensures |ms| == |words| && forall i :: 0 <= i < |words| ==> ms[i] == Message(0, words[i])
  {
    seq(|words|, i requires 0 <= i < |words| => Message(0, words[i]))
  }

  function Boot(s: State): Reaction {
    if s.helloSent then Reaction(s, [])
    else Reaction(s.(helloSent := true, running := true), [Message(0, HelloWord())])
  }

  function Mgmt(s: State, msg: nat): Reaction {
    var t := MgmtType(msg);
    if t == MGMT_HELLO_REPLY then
      Reaction(s.(version := msg % P16), OnMgmtEndpoint(EpmapWords(Present(s.eps))))
    else if t == MGMT_STARTEP then
      var ep := msg / TWO32 % 256;
      if ep < |s.eps| && s.eps[ep].present then Reaction(s.(eps := s.eps[ep := s.eps[ep].(started := true)]), [])
      else Reaction(s, [])
    else if t == MGMT_IOP_PWR then Reaction(s, [Message(0, MgmtWord(MGMT_IOP_PWR_ACK, msg % P16))])
    else if t == MGMT_AP_PWR then Reaction(s, [Message(0, MgmtWord(MGMT_AP_PWR, msg % P16))])
    else Reaction(s, [])
  }

  /** The buffers a log endpoint message asks for. */
  function Requested(msg: nat): seq<Buffer> {
    if MgmtType(msg) == 1 then [Buffer(msg % P44, msg / P44 % 256)] else []
  }

  function Log(s: State, msg: nat): Reaction {
    if |s.bufs| < BUFFERS then Reaction(s.(bufs := s.bufs + Requested(msg)), []) else Reaction(s, [])
  }

  function RbepType(msg: nat): nat { msg / P48 % P16 }

  function Rbep(t: nat): nat { t * P48 }

  function GetbufWord(): nat { Or(Or(Rbep(RBEP_GETBUF), (0x1000 / 64) * P16), 1) }
  function InitTxWord(): nat { Or(Or(Or(Rbep(RBEP_INIT_TX), 0 * TWO32), (0x800 / 64) * P16), 1) }
  function InitRxWord(): nat { Or(Or(Or(Rbep(RBEP_INIT_RX), (0x800 / 64) * TWO32), (0x800 / 64) * P16), 2) }

  function Afk(s: State, ep: nat, msg: nat): Reaction {
    var t := RbepType(msg);
    var d := s.dcp.(msgs := (s.dcp.msgs + 1) % TWO64);
    if t == RBEP_INIT then
      Reaction(s.(dcp := d), [Message(ep, Rbep(RBEP_INIT_ACK)), Message(ep, GetbufWord())])
    else if t == RBEP_GETBUF_ACK then
      Reaction(s.(dcp := d.(dva := msg % P48, inited := true)),
               [Message(ep, InitTxWord()), Message(ep, InitRxWord()), Message(ep, Rbep(RBEP_START))])
    else if t == RBEP_START_ACK then Reaction(s.(dcp := d.(started := true)), [])
    else Reaction(s.(dcp := d), [])
  }

  function Receive(s: State, msg: nat, epWord: nat): Reaction {
    var ep := epWord % 256;
    if ep == 0 then Mgmt(s, msg)
    else if ep < |s.eps| && s.eps[ep].handler == LogHandler then Log(s, msg)
    else if ep < |s.eps| && s.eps[ep].handler == AfkHandler then Afk(s, ep, msg)
    else Reaction(s, [])
  }

  function OnWrite(s: State, off: nat, val: nat): Reaction {
    if off == ASC_CPU_CONTROL then
      var s' := s.(cpuControl := val % TWO32);
      if val / 16 % 2 == 1 && !s.running then Boot(s') else Reaction(s', [])
    else if off == ASC_A2I_SEND0 then Reaction(s.(a2iMsg := val), [])
    else if off == ASC_A2I_SEND1 then Receive(s, s.a2iMsg, val % TWO32)
    else Reaction(s, [])
  }

  function Write(s: State, off: nat, val: nat): State {
    var r := OnWrite(s, off, val);
    Push(r.state, r.out)
  }

  function ReadValue(s: State, off: nat): nat {
    if off == ASC_CPU_CONTROL then s.cpuControl
    else if off == ASC_I2A_CONTROL then if s.pending == [] then ASC_CTRL_EMPTY else 0
    else if off == ASC_A2I_CONTROL then ASC_CTRL_EMPTY
    else if off == ASC_I2A_RECV0 && s.pending != [] then s.pending[0].msg
    else if off == ASC_I2A_RECV1 && s.pending != [] then s.pending[0].ep
    else 0
  }

  /** Reading RECV1 pops; every other read leaves the state alone. */
  function Read(s: State, off: nat): State {
    if off == ASC_I2A_RECV1 && s.pending != [] then s.(pending := s.pending[1..], irq := |s.pending| > 1) else s
  }

  // ---- the ring ----

  /** The count entries of the ring q from head on. */
  function Window(q: seq<Message>, head: nat, count: nat): (w: seq<Message>)
    requires |q| == QUEUE
    ensures |w| == count && forall i :: 0 <= i < count ==> w[i] == q[(head + i) % QUEUE]
  {
    seq(count, i requires 0 <= i < count => q[(head + i) % QUEUE])
  }

  lemma WindowPush(q: seq<Message>, head: nat, count: nat, m: Message)
    requires |q| == QUEUE && head < QUEUE && count < QUEUE
    ensures Window(q[(head + count) % QUEUE := m], head, count + 1) == Window(q, head, count) + [m]
  {
    var w := Window(q[(head + count) % QUEUE := m], head, count + 1);
    forall i | 0 <= i < count
      ensures w[i] == Window(q, head, count)[i]
    {
      assert (head + i) % QUEUE != (head + count) % QUEUE;
    }
  }

  lemma WindowPop(q: seq<Message>, head: nat, count: nat)
    requires |q| == QUEUE && head < QUEUE && 0 < count <= QUEUE
    ensures Window(q, (head + 1) % QUEUE, count - 1) == Window(q, head, count)[1..]
  {
    var w := Window(q, (head + 1) % QUEUE, count - 1);
    forall i | 0 <= i < count - 1
      ensures w[i] == Window(q, head, count)[i + 1]
    {
      assert ((head + 1) % QUEUE + i) % QUEUE == (head + (i + 1)) % QUEUE;
    }
  }

  /** Sending one after another is sending all. */
  lemma PushPush(s: State, a: seq<Message>, b: seq<Message>)
    requires |s.pending| <= QUEUE
    ensures Push(Push(s, a), b) == Push(s, a + b)
  {
    PendingAppend(s.pending, a, b);
  }

  lemma PendingAppend(p: seq<Message>, a: seq<Message>, b: seq<Message>)
    requires |p| <= QUEUE
    ensures var p' := p + a[..Room(p, |a|)];
      && p' + b[..Room(p', |b|)] == p + (a + b)[..Room(p, |a + b|)]
      && (Room(p, |a|) > 0 || Room(p', |b|) > 0 <==> Room(p, |a + b|) > 0)
  {
    var k := Room(p, |a|);
    var p' := p + a[..k];
    var l := Room(p', |b|);
    assert Room(p, |a + b|) == k + l;
    assert (a + b)[..k + l] == a[..k] + b[..l];
  }

  lemma PushDcp(s: State, out: seq<Message>, dcp: Dcp)
    ensures Push(s.(dcp := dcp), out) == Push(s, out).(dcp := dcp)
  {
  }

  lemma PushNothing(s: State)
    ensures Push(s, []) == s
  {
    assert s.pending + [] == s.pending;
  }

  datatype Slot = Slot(valid: bool, iova: nat, size: nat)

  /** The recorded buffers: the slots before the first free one. */
  function Recorded(slots: seq<Slot>): (r: seq<Buffer>)
    ensures |r| <= |slots|
    ensures forall i :: 0 <= i < |r| ==> slots[i].valid && r[i] == Buffer(slots[i].iova, slots[i].size)
    ensures |r| < |slots| ==> !slots[|r|].valid
  {
    if slots == [] || !slots[0].valid then []
    else [Buffer(slots[0].iova, slots[0].size)] + Recorded(slots[1..])
  }

  /** Filling the first free slot appends, when the slots after it are free too. */
  lemma {:induction false} RecordedAppend(slots: seq<Slot>, b: Buffer)
    requires var n := |Recorded(slots)|; n < |slots| && forall i :: n <= i < |slots| ==> !slots[i].valid
    ensures Recorded(slots[|Recorded(slots)| := Slot(true, b.iova, b.size)]) == Recorded(slots) + [b]
  {
    var n := |Recorded(slots)|;
    var slots' := slots[n := Slot(true, b.iova, b.size)];
    if slots[0].valid {
      RecordedAppend(slots[1..], b);
      assert slots'[1..] == slots[1..][n - 1 := Slot(true, b.iova, b.size)];
    } else if |slots| > 1 {
      assert Recorded(slots'[1..]) == [];
    }
  }

  // ---- the device ----

  const NO_ENDPOINT := Endpoint(false, false, NoHandler)

  /** Registering keeps `started`; a number out of range is ignored. */
  function Added(eps: seq<Endpoint>, ep: nat, handler: Handler): (r: seq<Endpoint>)
    ensures |r| == |eps|
    ensures forall i :: 0 <= i < |eps| ==>
      r[i] == if i == ep then Endpoint(true, eps[ep].started, handler) else eps[i]
  {
    if ep < |eps| then eps[ep := Endpoint(true, eps[ep].started, handler)] else eps
  }

  function WithLogEndpoints(eps: seq<Endpoint>): seq<Endpoint> {
    Added(Added(Added(Added(Added(eps, 1, LogHandler), 2, LogHandler), 3, LogHandler), 4, LogHandler), 8, LogHandler)
  }

  /** A device as it leaves its constructor: idle, advertising the five log endpoints. */
  function PowerOn(): State {
    State([], 0, 0, false, false, 0, WithLogEndpoints(seq(MAX_ENDPOINTS, i => NO_ENDPOINT)), [],
          Dcp(false, 0, false, 0), false)
  }

  function WithDisplay(eps: seq<Endpoint>): seq<Endpoint> {
    Added(Added(Added(eps, 0x23, AfkHandler), 0x24, AfkHandler), 0x25, AfkHandler)
  }

  class AppleDCPState {
    var inited: bool
    var dva: nat
    var started: bool
    var msgs: nat

    constructor ()
      ensures !inited && dva == 0 && !started && msgs == 0
    {
      inited, dva, started, msgs := false, 0, false, 0;
    }
  }

  class AppleRTKit {
    const q: array<Message>
    var head: nat
    var count: nat
    var a2iMsg: nat
    var cpuControl: nat
    var running: bool
    var helloSent: bool
    var version: nat
    const eps: array<Endpoint>
    const bufs: array<Slot>
    var irq: bool
    const dcp: AppleDCPState

    ghost predicate Valid()
      reads this, q, eps, bufs, dcp
    {
      && q.Length == QUEUE && eps.Length == MAX_ENDPOINTS && bufs.Length == BUFFERS
      && head < QUEUE && count <= QUEUE
      && forall i :: |Recorded(bufs[..])| <= i < BUFFERS ==> !bufs[i].valid
    }

    ghost function Abs(): State
      requires q.Length == QUEUE
      reads this, q, eps, bufs, dcp
    {
      State(Window(q[..], head, count), a2iMsg, cpuControl, running, helloSent, version, eps[..], Recorded(bufs[..]),
            Dcp(dcp.inited, dcp.dva, dcp.started, dcp.msgs), irq)
    }

    constructor ()
      ensures Valid() && fresh(q) && fresh(eps) && fresh(bufs) && fresh(dcp)
      ensures Abs() == PowerOn()
    {
      q := new Message[QUEUE](i => Message(0, 0));
      eps := new Endpoint[MAX_ENDPOINTS](i => NO_ENDPOINT);
      bufs := new Slot[BUFFERS](i => Slot(false, 0, 0));
      dcp := new AppleDCPState();
      head, count, a2iMsg, cpuControl, version := 0, 0, 0, 0, 0;
      running, helloSent, irq := false, false, false;
      new;
      assert eps[..] == seq(MAX_ENDPOINTS, i => NO_ENDPOINT);
      assert Window(q[..], head, count) == [] && Recorded(bufs[..]) == [];
      AddLogEndpoints();
    }

    method AddLogEndpoints()
      requires Valid()
      modifies eps
      ensures Valid() && Abs() == old(Abs()).(eps := WithLogEndpoints(old(eps[..])))
    {
      hide Window, Recorded, Added;
      AddEndpoint(1, LogHandler);
      AddEndpoint(2, LogHandler);
      AddEndpoint(3, LogHandler);
      AddEndpoint(4, LogHandler);
      AddEndpoint(8, LogHandler);
    }

    method AddEndpoint(ep: nat, handler: Handler)
      requires Valid()
      modifies eps
      ensures Valid() && Abs() == old(Abs()).(eps := Added(old(eps[..]), ep, handler))
    {
      if ep >= MAX_ENDPOINTS {
        return;
      }
      eps[ep] := eps[ep].(present := true, handler := handler);
    }

    /** The display coprocessor puts AFK on three endpoints. */
    method DcpAttach()
      requires Valid()
      modifies eps
      ensures Valid()
      ensures Abs() == old(Abs()).(eps := WithDisplay(old(eps[..])))
    {
      AddEndpoint(0x23, AfkHandler);
      AddEndpoint(0x24, AfkHandler);
      AddEndpoint(0x25, AfkHandler);
    }

    method Send(ep: nat, msg: nat)
      requires Valid()
      modifies this`count, this`irq, q
      ensures Valid() && Abs() == Push(old(Abs()), [Message(ep, msg)])
    {
      hide Recorded, Window;
      if count == QUEUE {
        return;
      }
      WindowPush(q[..], head, count, Message(ep, msg));
      q[(head + count) % QUEUE] := Message(ep, msg);
      count := count + 1;
      irq := count > 0;
    }

    method MgmtSend(mtype: nat, payload: nat)
      requires Valid()
      modifies this`count, this`irq, q
      ensures Valid() && Abs() == Push(old(Abs()), [Message(0, MgmtWord(mtype, payload))])
    {
      Send(0, MgmtWord(mtype, payload));
    }

    method BootDevice()
      requires Valid()
      modifies this, q
      ensures Valid() && Abs() == (var r := Boot(old(Abs())); Push(r.state, r.out))
    {
      if helloSent {
        PushNothing(Abs());
        return;
      }
      helloSent := true;
      running := true;
      MgmtSend(MGMT_HELLO, Or(RTKIT_VER_MAX * P16, RTKIT_VER_MIN));
    }

    method LastChunk() returns (lastBase: nat)
      requires Valid()
      ensures lastBase == LastBase(Present(eps[..]))
    {
      ghost var present := Present(eps[..]);
      lastBase := 0;
      for ep := 0 to MAX_ENDPOINTS
        invariant lastBase == LastBase(present[..ep])
      {
        assert present[..ep + 1][..ep] == present[..ep];
        if eps[ep].present {
          lastBase := ep / 32;
        }
      }
      assert present[..MAX_ENDPOINTS] == present;
    }

    method ChunkBitmap(base: nat) returns (bitmap: nat)
      requires Valid()
      ensures bitmap == Bitmap(Present(eps[..]), base)
    {
      hide Or, Pow2, Recorded, Window;
      bitmap := 0;
      for bit := 0 to 32
        invariant bitmap == BitmapUpTo(Present(eps[..]), base, bit)
      {
        var ep := base * 32 + bit;
        if ep < MAX_ENDPOINTS && eps[ep].present {
          bitmap := Or(bitmap, Pow2(bit));
        }
      }
    }

    /** Advertise every endpoint in 32-bit chunks. */
    method SendEpmap()
      requires Valid()
      modifies this`count, this`irq, q
      ensures Valid() && Abs() == Push(old(Abs()), OnMgmtEndpoint(EpmapWords(Present(eps[..]))))
    {
      hide Window, Recorded, Push, Or, LastBase, Bitmap, MgmtWord;
      ghost var words := EpmapWords(Present(eps[..]));
      ghost var s := Abs();
      var lastBase := LastChunk();
      PushNothing(s);
      var base := 0;
      while base <= lastBase
        invariant 0 <= base <= lastBase + 1
        invariant Valid() && Abs() == Push(s, OnMgmtEndpoint(words[..base]))
      {
        var bitmap := ChunkBitmap(base);
        var payload := Or(base * TWO32, bitmap % TWO32);
        if base == lastBase {
          payload := Or(payload, P51);
        }
        MgmtSend(MGMT_EPMAP, payload);
        PushPush(s, OnMgmtEndpoint(words[..base]), [Message(0, words[base])]);
        assert OnMgmtEndpoint(words[..base + 1]) == OnMgmtEndpoint(words[..base]) + [Message(0, words[base])];
        base := base + 1;
      }
      assert words[..base] == words;
    }

    method HandleMgmt(msg: nat)
      requires Valid()
      modifies this, q, eps
      ensures Valid() && Abs() == (var r := Mgmt(old(Abs()), msg); Push(r.state, r.out))
    {
      var mtype := msg / P52 % 256;
      if mtype == MGMT_HELLO_REPLY {
        version := msg % P16;
        SendEpmap();
      } else if mtype == MGMT_STARTEP {
        var ep := msg / TWO32 % 256;
        if ep < MAX_ENDPOINTS && eps[ep].present {
          eps[ep] := eps[ep].(started := true);
        }
        PushNothing(Abs());
      } else if mtype == MGMT_IOP_PWR {
        MgmtSend(MGMT_IOP_PWR_ACK, msg % P16);
      } else if mtype == MGMT_AP_PWR {
        MgmtSend(MGMT_AP_PWR, msg % P16);
      } else {
        PushNothing(Abs());
      }
    }

    /** A buffer request takes the first free slot; further requests are not recorded. */
    method HandleLogEp(msg: nat)
      requires Valid()
      modifies bufs
      ensures Valid() && Abs() == Log(old(Abs()), msg).state
    {
      var mtype := msg / P52 % 256;
      if mtype == 1 {
        var iova := msg % P44;
        var size := msg / P44 % 256;
        ghost var n := |Recorded(bufs[..])|;
        var i := 0;
        while i < BUFFERS && bufs[i].valid
          invariant 0 <= i <= n
        {
          i := i + 1;
        }
        if i < BUFFERS {
          assert i == n;
          RecordedAppend(bufs[..], Buffer(iova, size));
          bufs[i] := Slot(true, iova, size);
        }
      }
    }

    /** The coprocessor side of the AFK handshake. */
    method DcpEpHandler(ep: nat, msg: nat)
      requires Valid()
      modifies this`count, this`irq, q, dcp
      ensures Valid() && Abs() == (var r := Afk(old(Abs()), ep, msg); Push(r.state, r.out))
    {
      hide Push, Window, Or, GetbufWord, InitTxWord, InitRxWord, Recorded;
      var t := msg / P48 % P16;
      dcp.msgs := (dcp.msgs + 1) % TWO64;
      if t == RBEP_INIT {
        ghost var s := Abs();
        var a, b := Message(ep, Rbep(RBEP_INIT_ACK)), Message(ep, GetbufWord());
        Send(ep, a.msg);
        Send(ep, b.msg);
        PushPush(s, [a], [b]);
        assert [a] + [b] == [a, b];
      } else if t == RBEP_GETBUF_ACK {
        dcp.dva := msg % P48;
        ghost var s := Abs();
        var a, b, c := Message(ep, InitTxWord()), Message(ep, InitRxWord()), Message(ep, Rbep(RBEP_START));
        Send(ep, a.msg);
        Send(ep, b.msg);
        Send(ep, c.msg);
        PushPush(s, [a], [b]);
        PushPush(s, [a] + [b], [c]);
        assert [a] + [b] + [c] == [a, b, c];
        PushDcp(s, [a, b, c], s.dcp.(inited := true));
        dcp.inited := true;
      } else if t == RBEP_START_ACK {
        dcp.started := true;
        PushNothing(Abs());
      } else {
        PushNothing(Abs());
      }
    }

    method HandleA2I(msg: nat, epWord: nat)
      requires Valid()
      modifies this, q, eps, bufs, dcp
      ensures Valid() && Abs() == (var r := Receive(old(Abs()), msg, epWord); Push(r.state, r.out))
    {
      var ep := epWord % 256;
      if ep == 0 {
        HandleMgmt(msg);
      } else if ep < MAX_ENDPOINTS && eps[ep].handler == LogHandler {
        HandleLogEp(msg);
        PushNothing(Abs());
      } else if ep < MAX_ENDPOINTS && eps[ep].handler == AfkHandler {
        DcpEpHandler(ep, msg);
      } else {
        PushNothing(Abs());
      }
    }

    method ReadRegister(off: nat) returns (v: nat)
      requires Valid()
      modifies this
      ensures Valid() && v == ReadValue(old(Abs()), off) && Abs() == Read(old(Abs()), off)
    {
      hide Recorded, Window;
      v := 0;
      if off == ASC_CPU_CONTROL {
        v := cpuControl;
      } else if off == ASC_I2A_CONTROL {
        v := if count != 0 then 0 else ASC_CTRL_EMPTY;
      } else if off == ASC_A2I_CONTROL {
        v := ASC_CTRL_EMPTY;
      } else if off == ASC_I2A_RECV0 {
        v := if count != 0 then q[head].msg else 0;
      } else if off == ASC_I2A_RECV1 {
        if count != 0 {
          v := q[head].ep;
          WindowPop(q[..], head, count);
          head := (head + 1) % QUEUE;
          count := count - 1;
          irq := count > 0;
        }
      }
    }

    method WriteRegister(off: nat, val: nat)
      requires Valid()
      modifies this, q, eps, bufs, dcp
      ensures Valid() && Abs() == Write(old(Abs()), off, val)
    {
      if off == ASC_CPU_CONTROL {
        cpuControl := val % TWO32;
        if val / 16 % 2 == 1 && !running {
          BootDevice();
        } else {
          PushNothing(Abs());
        }
      } else if off == ASC_A2I_SEND0 {
        a2iMsg := val;
        PushNothing(Abs());
      } else if off == ASC_A2I_SEND1 {
        HandleA2I(a2iMsg, val % TWO32);
      } else {
        PushNothing(Abs());
      }
    }
  }
}
