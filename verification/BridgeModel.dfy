// The ASH bridge as a state machine over values: the deframer has no bound on its buffer,
// and the retransmission ring is the whole history of DATA frames.

module BridgeModel {
  import opened Bytes
  import opened Ash
  import opened Whitening
  import opened Coprocessor
  import opened Spi
  import opened Ezsp

  const CTRL_RST: byte := 0xC0
  const CTRL_RSTACK: byte := 0xC1
  const RESET_SOFTWARE: byte := 0x0B
  const WINDOW: nat := 8
  const DRAIN_LIMIT: nat := 32

  type num3 = n: nat | n < 8

  // An ASH frame has at least its control byte.
  type Body = b: seq<byte> | 1 <= |b| witness [0]

  const RSTACK: Body := [CTRL_RSTACK, 0x02, RESET_SOFTWARE]

  // ----- Control bytes -----

  function DataCtrl(frm: num3, ack: num3): byte { ((frm as byte) << 4) | (ack as byte) }

  function AckCtrl(ack: num3): byte { 0x80 | (ack as byte) }

  function FrmOf(ctrl: byte): num3 { ((ctrl >> 4) & 0x07) as int }

  function AckOf(ctrl: byte): num3 { (ctrl & 0x07) as int }

  function Retry(ctrl: byte): byte { ctrl | 0x08 }

  datatype Kind = Rst | Ack | Nak | Other | Data | DataAgain

  // The order of the tests in the frame handler; DataAgain is DATA with the retransmit bit.
  function KindOf(ctrl: byte): Kind {
    if ctrl == CTRL_RST then Rst
    else if ctrl & 0xE0 == 0x80 then Ack
    else if ctrl & 0xE0 == 0xA0 then Nak
    else if ctrl & 0x80 != 0 then Other
    else if ctrl & 0x08 != 0 then DataAgain
    else Data
  }

  predicate IsData(ctrl: byte) { KindOf(ctrl).Data? || KindOf(ctrl).DataAgain? }

  lemma CtrlFields(frm: num3, ack: num3)
    ensures KindOf(DataCtrl(frm, ack)) == Data
    ensures FrmOf(DataCtrl(frm, ack)) == frm && AckOf(DataCtrl(frm, ack)) == ack
    ensures KindOf(AckCtrl(ack)) == Ack && AckOf(AckCtrl(ack)) == ack
  {
    var f, a := frm as byte, ack as byte;
    assert f < 8 && a < 8;
    assert ((f << 4) | a) & 0x88 == 0 && (((f << 4) | a) >> 4) & 0x07 == f && ((f << 4) | a) & 0x07 == a;
  }

  lemma RetryFields(ctrl: byte)
    requires KindOf(ctrl) == Data
    ensures KindOf(Retry(ctrl)) == DataAgain
    ensures FrmOf(Retry(ctrl)) == FrmOf(ctrl) && AckOf(Retry(ctrl)) == AckOf(ctrl)
  {
    assert ctrl & 0x80 == 0 && ctrl & 0x08 == 0;
    assert (ctrl | 0x08) & 0x80 == 0 && (ctrl | 0x08) & 0x08 != 0;
  }

  // The same in numbers: a DATA frame's control byte is 16 times its number plus the number
  // expected, an ACK's 128 plus that, and a retransmission's 8 more.
  lemma CtrlNumbers(frm: num3, ack: num3)
    ensures DataCtrl(frm, ack) as int == 16 * frm + ack && Retry(DataCtrl(frm, ack)) as int == 16 * frm + 8 + ack
    ensures AckCtrl(ack) as int == 128 + ack
  {
    assert frm == 0 || frm == 1 || frm == 2 || frm == 3 || frm == 4 || frm == 5 || frm == 6 || frm == 7;
    assert ack == 0 || ack == 1 || ack == 2 || ack == 3 || ack == 4 || ack == 5 || ack == 6 || ack == 7;
  }

  // What a control byte is for.
  lemma KindRanges(c: byte)
    ensures KindOf(c) == Rst <==> c == 0xC0
    ensures KindOf(c) == Ack <==> 0x80 <= c <= 0x9F
    ensures KindOf(c) == Nak <==> 0xA0 <= c <= 0xBF
    ensures KindOf(c) == Other <==> c >= 0xC1
    ensures IsData(c) <==> c <= 0x7F
  {
  }

  // ----- State -----

  datatype Event =
    | Connected
    | Dropped
    | NcpReset
    | Sent(frame: Body)            // an ASH frame written to the client, before stuffing
    | Accepted(frame: Body)        // a DATA frame taken from the client
    | Relayed(poll: bool, ver: int, ezsp: seq<byte>, reply: Option<seq<byte>>)

  datatype State = State(
    connected: bool,
    ready: bool,
    negotiated: bool,
    hist: seq<Body>,               // DATA bodies since the last reset or connection
    ack: num3,
    cbseq: byte,
    ver: int,
    line: Line,
    ncp: Ncp,
    hintPos: nat,                  // how often nHOST_INT has been read
    log: seq<Event>)

  // What the bridge cannot choose: the co-processor, and the level of nHOST_INT at each reading.
  datatype Env = Env(fw: Firmware, wait: nat, hasHint: bool, asserted: nat -> bool)

  function Start(n: Ncp): State {
    State(false, false, false, [], 0, 0, 4, IDLE, n, 0, [])
  }

  // The bytes written to the client now connected.
  function Tcp(log: seq<Event>): seq<byte> {
    if log == [] then [] else Write(Tcp(log[..|log| - 1]), log[|log| - 1])
  }

  function Write(t: seq<byte>, e: Event): seq<byte> {
    match e
    case Connected => []
    case Dropped => []
    case Sent(f) => t + Encode(f)
    case _ => t
  }

  // ----- Sending -----

  function Log(st: State, e: Event): State {
    st.(log := st.log + [e])
  }

  function Send(st: State, frame: Body): State {
    if !st.connected || |frame| > MAX_FRAME then st else Log(st, Sent(frame))
  }

  function SendAck(st: State): State {
    Send(st, [AckCtrl(st.ack)])
  }

  function DataBody(frm: num3, ack: num3, payload: seq<byte>): Body {
    [DataCtrl(frm, ack)] + Mask(payload)
  }

  function SendData(st: State, payload: seq<byte>): State {
    if |payload| + 1 > MAX_FRAME then st
    else
      var body := DataBody(|st.hist| % WINDOW, st.ack, payload);
      Send(st.(hist := st.hist + [body]), body)
  }

  function Again(body: Body): Body {
    [Retry(body[0])] + body[1..]
  }

  function Resend(st: State, bodies: seq<Body>): State {
    if bodies == [] then st
    else Send(Resend(st, bodies[..|bodies| - 1]), Again(bodies[|bodies| - 1]))
  }

  // How far number from lies behind the n-th frame's number, modulo 8.
  function Behind(n: nat, from: num3): num3 {
    var frm := n % WINDOW;
    if from <= frm then frm - from else frm + WINDOW - from
  }

  function Back(n: nat, from: num3): nat {
    Min(Behind(n, from), n)
  }

  function Retransmit(st: State, from: num3): State {
    Resend(st, st.hist[|st.hist| - Back(|st.hist|, from)..])
  }

  // ----- Relaying -----

  // The reply in full is logged; the caller gets at most 140 bytes of it.
  function Relay(env: Env, st: State, poll: bool, frame: seq<byte>): (State, Option<seq<byte>>)
    requires 1 <= |frame| <= 145
  {
    var (r, m) := Ezsp.Ask(env.fw, env.wait, st.ncp, frame);
    (Log(st.(ncp := m), Relayed(poll, st.ver, frame, r)),
     if r.None? then None else Some(Take(r.value, MAX_FRAME)))
  }

  function PollFrame(ver: int, cbseq: byte): (r: seq<byte>)
    ensures 3 <= |r| <= 5
  {
    HostFrame(ver, cbseq, EZSP_CALLBACK, [])
  }

  function RelayCallback(env: Env, st: State): (State, Option<seq<byte>>) {
    var (st1, r) := Relay(env, st.(cbseq := Next(st.cbseq)), true, PollFrame(st.ver, st.cbseq));
    (st1, if r.None? || |r.value| <= IdOff(st.ver) || r.value[IdOff(st.ver)] == EZSP_NO_CALLBACKS then None else r)
  }

  // One look at nHOST_INT and, while it is asserted, one poll; whether to go on.
  function DrainStep(env: Env, st: State): (State, bool) {
    var st0 := st.(hintPos := st.hintPos + 1);
    if !env.asserted(st.hintPos) then (st0, false)
    else
      var (st1, r) := RelayCallback(env, st0);
      if r.None? then (st1, false) else (SendData(st1, r.value), true)
  }

  function DrainLoop(env: Env, st: State, guard: nat): State
    decreases guard
  {
    if guard == 0 then st
    else
      var (st1, more) := DrainStep(env, st);
      if more then DrainLoop(env, st1, guard - 1) else st1
  }

  lemma DrainUnfold(env: Env, st: State, n: nat)
    ensures n == 0 ==> DrainLoop(env, st, n) == st
    ensures n > 0 ==> var (st1, more) := DrainStep(env, st);
                      DrainLoop(env, st, n) == if more then DrainLoop(env, st1, n - 1) else st1
  {
  }

  function Drain(env: Env, st: State): State {
    if !st.connected || !st.ready || !st.negotiated || !env.hasHint then st else DrainLoop(env, st, DRAIN_LIMIT)
  }

  // ----- Receiving -----

  function Reset(st: State): State {
    var st1 := Log(st.(ncp := AfterReset(st.ncp), hist := [], ack := 0, ver := 4), NcpReset);
    Send(st1, RSTACK).(ready := true, negotiated := false)
  }

  // The version the bridge takes from a host frame and its reply. Of the frame's id it looks at
  // one byte, and at none of the reply's.
  function Agreed(ver: int, frame: seq<byte>, reply: seq<byte>): Option<int> {
    if |frame| > IdOff(ver) && frame[IdOff(ver)] == EZSP_VERSION && |reply| > Hdr(ver) &&
       4 <= reply[Hdr(ver)] as int <= 13
    then Some(reply[Hdr(ver)] as int)
    else None
  }

  function Adopt(st: State, agreed: Option<int>): State {
    if agreed.None? then st else st.(ver := agreed.value, negotiated := true)
  }

  function HandleData(env: Env, st: State, f: Body): State
    requires 2 <= |f| <= MAX_FRAME + 1
  {
    var ezsp := Mask(f[1..]);
    var st1 := SendAck(Log(st.(ack := (FrmOf(f[0]) + 1) % WINDOW), Accepted(f)));
    var (st2, r) := Relay(env, st1, false, ezsp);
    if r.None? || r.value == [] then st2
    else Drain(env, SendData(Adopt(st2, Agreed(st2.ver, ezsp, r.value)), r.value))
  }

  // A frame with the check bytes removed.
  function Handle(env: Env, st: State, f: Body): State {
    match KindOf(f[0])
    case Rst => Reset(st)
    case Ack => st
    case Nak => Retransmit(st, AckOf(f[0]))
    case Other => st
    case _ => if !st.ready || |f| < 2 || |f| > MAX_FRAME + 1 then st else HandleData(env, st, f)
  }

  function FeedByte(env: Env, st: State, c: byte): State {
    var out := Emitted(st.line, c);
    (if out == [] then st else Handle(env, st, out[0])).(line := Step(st.line, c))
  }

  function Feed(env: Env, st: State, bytes: seq<byte>): State {
    if bytes == [] then st else FeedByte(env, Feed(env, st, bytes[..|bytes| - 1]), bytes[|bytes| - 1])
  }

  // ----- The event loop -----

  function Drop(st: State): State {
    if !st.connected then st else Log(st.(connected := false, line := IDLE), Dropped)
  }

  function Accept(st: State): State {
    var st1 := Drop(st).(connected := true, ready := false, negotiated := false, line := IDLE,
                         hist := [], ack := 0, ver := 4);
    Log(st1, Connected)
  }

  datatype Activity = Silent | Hangup | Readable(bytes: seq<byte>) | EndOfStream

  // One turn of the loop. The client polled is the one connected when the turn began, even
  // when a new one replaces it in the same turn.
  function Turn(env: Env, st: State, arrival: bool, act: Activity): State {
    var st1 := if arrival then Accept(st) else st;
    if st.connected && act.Hangup? then Drop(st1)
    else
      var st2 := if !st.connected then st1
                 else match act
                      case Readable(bytes) => Feed(env, st1, bytes)
                      case EndOfStream => Drop(st1)
                      case _ => st1;
      Drain(env, st2)
  }
}
