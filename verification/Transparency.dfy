// End to end: what the client sends reaches the co-processor, and what the co-processor
// answers reaches the client, in order and unchanged.

module Transparency {
  import opened Bytes
  import opened Ash
  import opened Whitening
  import opened Coprocessor
  import opened Spi
  import opened Ezsp
  import opened BridgeModel
  import opened BridgeRuns
  import opened Provenance

  // ----- The two directions, read off the log since the client connected -----

  // EZSP frames relayed for the client.
  function Relays(log: seq<Event>): seq<seq<byte>> {
    if log == [] then [] else RelaysStep(Relays(log[..|log| - 1]), log[|log| - 1])
  }

  function RelaysStep(s: seq<seq<byte>>, e: Event): seq<seq<byte>> {
    match e
    case Connected => []
    case Relayed(poll, _, ezsp, _) => if poll then s else s + [ezsp]
    case _ => s
  }

  // Whether a reply goes on to the client: it fits in a frame, and a poll found a callback as
  // far as one byte of the frame id tells.
  predicate Forwards(poll: bool, ver: int, p: seq<byte>) {
    1 <= |p| <= 139 && (poll ==> |p| > IdOff(ver) && p[IdOff(ver)] != EZSP_NO_CALLBACKS)
  }

  // The co-processor's replies that go on to the client.
  function Replies(log: seq<Event>): seq<seq<byte>> {
    if log == [] then [] else RepliesStep(Replies(log[..|log| - 1]), log[|log| - 1])
  }

  function RepliesStep(s: seq<seq<byte>>, e: Event): seq<seq<byte>> {
    match e
    case Connected => []
    case Relayed(poll, ver, _, reply) =>
      if reply.Some? && Forwards(poll, ver, reply.value) then s + [reply.value] else s
    case _ => s
  }

  // ASH frames written to the client.
  function Written(log: seq<Event>): seq<Body> {
    if log == [] then [] else WrittenStep(Written(log[..|log| - 1]), log[|log| - 1])
  }

  function WrittenStep(s: seq<Body>, e: Event): seq<Body> {
    match e
    case Connected => []
    case Dropped => []
    case Sent(f) => s + [f]
    case _ => s
  }

  // The payloads of the frames that are DATA sent for the first time.
  function Payloads(frames: seq<Body>): seq<seq<byte>> {
    if frames == [] then []
    else
      var f := frames[|frames| - 1];
      Payloads(frames[..|frames| - 1]) + if KindOf(f[0]) == Data then [Mask(f[1..])] else []
  }

  lemma Grow(log: seq<Event>, e: Event)
    ensures Relays(log + [e]) == RelaysStep(Relays(log), e)
    ensures Replies(log + [e]) == RepliesStep(Replies(log), e)
    ensures Written(log + [e]) == WrittenStep(Written(log), e)
    ensures Tcp(log + [e]) == Write(Tcp(log), e)
  {
    assert (log + [e])[..|log + [e]| - 1] == log;
  }

  lemma PayloadsGrow(frames: seq<Body>, f: Body)
    ensures Payloads(frames + [f]) == Payloads(frames) + if KindOf(f[0]) == Data then [Mask(f[1..])] else []
  {
    assert (frames + [f])[..|frames + [f]| - 1] == frames;
  }

  // ----- Downstream: the bytes written decode to the replies -----

  // The peer's reader turns the bytes written so far into exactly the frames sent.
  lemma {:induction false} PeerSeesFrames(log: seq<Event>)
    ensures Tcp(log) == EncodeAll(Written(log))
    ensures PeerRun(IDLE, Tcp(log)) == IDLE && PeerFrames(IDLE, Tcp(log)) == Written(log)
    decreases |log|
  {
    TcpIsEncoded(log);
    PeerReads(Written(log));
  }

  lemma {:induction false} TcpIsEncoded(log: seq<Event>)
    ensures Tcp(log) == EncodeAll(Written(log))
    decreases |log|
  {
    if log != [] {
      var init, e := log[..|log| - 1], log[|log| - 1];
      TcpIsEncoded(init);
      if e.Sent? {
        var fs := Written(init) + [e.frame];
        assert fs[..|fs| - 1] == Written(init);
      }
    }
  }

  // What each frame of the client adds upstream: DATA of a right size, once the handshake is done.
  function Upstream(ready: bool, frames: seq<seq<byte>>): seq<seq<byte>>
    requires forall f :: f in frames ==> 1 <= |f|
  {
    if frames == [] then []
    else
      var init, f := frames[..|frames| - 1], frames[|frames| - 1];
      Upstream(ready, init) + One(ReadyAfter(ready, init), f)
  }

  function One(ready: bool, f: Body): seq<seq<byte>> {
    if ready && IsData(f[0]) && 2 <= |f| <= 141 then [Mask(f[1..])] else []
  }

  function ReadyAfter(ready: bool, frames: seq<seq<byte>>): bool
    requires forall f :: f in frames ==> 1 <= |f|
  {
    if frames == [] then ready
    else ReadyAfter(ready, frames[..|frames| - 1]) || KindOf(frames[|frames| - 1][0]) == Rst
  }

  // Every reply to be forwarded has been sent as one DATA frame, in order.
  predicate Settled(st: State) {
    Payloads(Written(st.log)) == if st.connected then Replies(st.log) else []
  }

  // A step that adds nothing to either direction.
  predicate Same(st: State, st1: State) {
    Relays(st1.log) == Relays(st.log) && Replies(st1.log) == Replies(st.log) &&
    Payloads(Written(st1.log)) == Payloads(Written(st.log)) && st1.connected == st.connected
  }

  lemma LogSame(st: State, e: Event)
    requires e.NcpReset? || e.Accepted? || (e.Sent? && KindOf(e.frame[0]) != Data)
    ensures Same(st, Log(st, e))
  {
    hide KindOf, Mask;
    Grow(st.log, e);
    if e.Sent? {
      PayloadsGrow(Written(st.log), e.frame);
    }
  }

  lemma SendSame(st: State, f: Body)
    requires KindOf(f[0]) != Data
    ensures Same(st, Send(st, f))
  {
    hide KindOf;
    LogSame(st, Sent(f));
  }

  lemma SendDataAdds(st: State, payload: seq<byte>)
    requires st.connected
    ensures var st1 := SendData(st, payload);
            && st1.connected && Relays(st1.log) == Relays(st.log) && Replies(st1.log) == Replies(st.log)
            && Payloads(Written(st1.log)) ==
               Payloads(Written(st.log)) + if |payload| <= 139 then [payload] else []
  {
    hide KindOf, DataCtrl, Mask;
    if |payload| + 1 <= 140 {
      var frm: num3 := |st.hist| % WINDOW;
      var body := DataBody(frm, st.ack, payload);
      CtrlFields(frm, st.ack);
      MaskInvolution(payload);
      assert body[1..] == Mask(payload);
      Grow(st.log, Sent(body));
      PayloadsGrow(Written(st.log), body);
    }
  }

  lemma RelayAdds(st: State, poll: bool, ver: int, ezsp: seq<byte>, reply: Option<seq<byte>>)
    ensures var st1 := Log(st, Relayed(poll, ver, ezsp, reply));
            && Written(st1.log) == Written(st.log)
            && Relays(st1.log) == (if poll then Relays(st.log) else Relays(st.log) + [ezsp])
            && Replies(st1.log) ==
               (if reply.Some? && Forwards(poll, ver, reply.value) then Replies(st.log) + [reply.value]
                else Replies(st.log))
  {
    Grow(st.log, Relayed(poll, ver, ezsp, reply));
  }

  lemma DrainStepSettles(env: Env, st: State)
    requires Settled(st) && st.connected
    ensures var st1 := DrainStep(env, st).0;
            Settled(st1) && st1.connected && Relays(st1.log) == Relays(st.log)
  {
    hide Ezsp.Ask, PollFrame, SendData, Written, Payloads, Replies, Relays;
    var st0 := st.(hintPos := st.hintPos + 1);
    if env.asserted(st.hintPos) {
      var frame := PollFrame(st.ver, st.cbseq);
      var (r, m) := Ezsp.Ask(env.fw, env.wait, st.ncp, frame);
      var (st1, got) := RelayCallback(env, st0);
      RelayAdds(st0.(cbseq := Next(st.cbseq), ncp := m), true, st.ver, frame, r);
      if got.Some? {
        SendDataAdds(st1, got.value);
      }
    }
  }

  lemma {:induction false} DrainLoopSettles(env: Env, st: State, guard: nat)
    requires Settled(st) && st.connected
    ensures var st1 := DrainLoop(env, st, guard);
            Settled(st1) && st1.connected && Relays(st1.log) == Relays(st.log)
    decreases guard
  {
    hide DrainStep, Settled, Relays, DrainLoop;
    DrainUnfold(env, st, guard);
    if guard > 0 {
      DrainStepSettles(env, st);
      var (st1, more) := DrainStep(env, st);
      if more {
        DrainLoopSettles(env, st1, guard - 1);
      }
    }
  }

  lemma DrainSettles(env: Env, st: State)
    requires Settled(st)
    ensures Settled(Drain(env, st)) && Relays(Drain(env, st).log) == Relays(st.log)
  {
    hide DrainLoop, Settled, Relays;
    if st.connected {
      DrainLoopSettles(env, st, DRAIN_LIMIT);
    }
  }

  // A host frame acknowledged: nothing is added to either direction.
  lemma AckSame(st: State, f: Body)
    ensures var st0 := Log(st.(ack := (FrmOf(f[0]) + 1) % WINDOW), Accepted(f));
            Same(st, st0) && Same(st0, SendAck(st0))
  {
    hide FrmOf, AckCtrl, Same;
    var st0 := st.(ack := (FrmOf(f[0]) + 1) % WINDOW);
    LogSame(st0, Accepted(f));
    CtrlFields(0, st0.ack);
    SendSame(Log(st0, Accepted(f)), [AckCtrl(st0.ack)]);
    SameStart(st, st0, Log(st0, Accepted(f)));
  }

  lemma SameStart(st: State, st0: State, st1: State)
    requires Same(st0, st1) && st.log == st0.log && st.connected == st0.connected
    ensures Same(st, st1)
  {
  }

  lemma SameSettled(st: State, st1: State)
    requires Same(st, st1)
    ensures Settled(st) == Settled(st1) && st1.connected == st.connected && Relays(st1.log) == Relays(st.log)
  {
  }

  // The relay of a host frame, and its answer sent if there is one.
  lemma RelaySettles(env: Env, st: State, ezsp: seq<byte>)
    requires Settled(st) && st.connected && 1 <= |ezsp| <= 145
    ensures var (st1, r) := Relay(env, st, false, ezsp);
            Relays(st1.log) == Relays(st.log) + [ezsp] &&
            if r.None? || r.value == [] then Settled(st1)
            else
              var st2 := SendData(Adopt(st1, Agreed(st1.ver, ezsp, r.value)), r.value);
              Settled(st2) && Relays(st2.log) == Relays(st1.log)
  {
    hide Ezsp.Ask, Agreed, SendData, Written, Payloads, Replies, Relays;
    var (r, m) := Ezsp.Ask(env.fw, env.wait, st.ncp, ezsp);
    RelayAdds(st.(ncp := m), false, st.ver, ezsp, r);
    var (st1, got) := Relay(env, st, false, ezsp);
    if got.Some? && got.value != [] {
      SendDataAdds(Adopt(st1, Agreed(st1.ver, ezsp, got.value)), got.value);
    }
  }

  lemma HandleDataSettles(env: Env, st: State, f: Body)
    requires Settled(st) && st.connected && 2 <= |f| <= 141
    ensures Settled(HandleData(env, st, f))
    ensures Relays(HandleData(env, st, f).log) == Relays(st.log) + [Mask(f[1..])]
  {
    hide Mask, Relay, Drain, FrmOf, Agreed, Adopt, SendData, SendAck, Log, Same, Settled, Relays;
    var ezsp := Mask(f[1..]);
    var st0 := Log(st.(ack := (FrmOf(f[0]) + 1) % WINDOW), Accepted(f));
    AckSame(st, f);
    SameSettled(st, st0);
    SameSettled(st0, SendAck(st0));
    RelaySettles(env, SendAck(st0), ezsp);
    var (st1, r) := Relay(env, SendAck(st0), false, ezsp);
    if r.Some? && r.value != [] {
      DrainSettles(env, SendData(Adopt(st1, Agreed(st1.ver, ezsp, r.value)), r.value));
    }
  }

  lemma {:induction false} ResendSame(st: State, bodies: seq<Body>)
    requires forall b :: b in bodies ==> GoodBody(b)
    ensures Same(st, Resend(st, bodies))
    decreases |bodies|
  {
    if bodies != [] {
      hide KindOf, Retry, Relays, Replies, Payloads, Written;
      var b := bodies[|bodies| - 1];
      ResendSame(st, bodies[..|bodies| - 1]);
      assert GoodBody(b);
      RetryFields(b[0]);
      SendSame(Resend(st, bodies[..|bodies| - 1]), Again(b));
    }
  }

  lemma RetransmitSame(st: State, from: num3)
    requires Calm(st)
    ensures Same(st, Retransmit(st, from))
  {
    hide Same, Resend, KindOf;
    ResendSame(st, st.hist[|st.hist| - Back(|st.hist|, from)..]);
  }

  lemma ResetSame(st: State)
    ensures Same(st, Reset(st))
  {
    hide KindOf, Relays, Replies, Payloads, Written, AfterReset;
    var st1 := st.(ncp := AfterReset(st.ncp), hist := [], ack := 0, ver := 4);
    LogSame(st1, NcpReset);
    RstackKind();
    SendSame(Log(st1, NcpReset), RSTACK);
  }

  lemma HandleSettles(env: Env, st: State, f: Body)
    requires Settled(st) && Calm(st) && st.connected
    ensures Settled(Handle(env, st, f))
    ensures Relays(Handle(env, st, f).log) == Relays(st.log) + One(st.ready, f)
  {
    hide KindOf, HandleData, Retransmit, Reset, AckOf, Relays, Replies, Payloads, Written, Mask, Calm;
    RetransmitSame(st, AckOf(f[0]));
    ResetSame(st);
    assert Relays(st.log) + [] == Relays(st.log);
    if 2 <= |f| <= 141 {
      HandleDataSettles(env, st, f);
    }
  }

  lemma {:induction false} UpstreamAppend(ready: bool, a: seq<seq<byte>>, b: seq<seq<byte>>)
    requires forall f :: f in a ==> 1 <= |f|
    requires forall f :: f in b ==> 1 <= |f|
    ensures forall f :: f in a + b ==> 1 <= |f|
    ensures ReadyAfter(ready, a + b) == ReadyAfter(ReadyAfter(ready, a), b)
    ensures Upstream(ready, a + b) == Upstream(ready, a) + Upstream(ReadyAfter(ready, a), b)
    decreases |b|
  {
    hide One, KindOf;
    if b == [] {
      assert a + b == a;
      assert Upstream(ready, a) + [] == Upstream(ready, a);
    } else {
      var init := b[..|b| - 1];
      assert (a + b)[..|a + b| - 1] == a + init;
      UpstreamAppend(ready, a, init);
    }
  }

  lemma UpstreamOne(ready: bool, f: Body)
    ensures Upstream(ready, [f]) == One(ready, f)
    ensures ReadyAfter(ready, [f]) == (ready || KindOf(f[0]) == Rst)
  {
    hide One, KindOf;
    assert [f][..0] == [];
    assert Upstream(ready, [f]) == Upstream(ready, []) + One(ready, f);
    assert [] + One(ready, f) == One(ready, f);
  }

  lemma FeedByteSettles(env: Env, st: State, c: byte)
    requires Settled(st) && Calm(st) && st.connected
    ensures var st1 := FeedByte(env, st, c);
            var out := Emitted(st.line, c);
            && Settled(st1)
            && st1.ready == ReadyAfter(st.ready, out)
            && Relays(st1.log) == Relays(st.log) + Upstream(st.ready, out)
  {
    hide KindOf, Handle, Emitted, Calm, Settled, Relays, Step, One;
    var out := Emitted(st.line, c);
    EmittedOne(st.line, c);
    var st0 := if out == [] then st else Handle(env, st, out[0]);
    SettledLine(st0, Step(st.line, c));
    if out == [] {
      assert Relays(st.log) + [] == Relays(st.log);
    } else {
      var f: Body := out[0];
      assert out == [f];
      HandleSettles(env, st, f);
      HandleKeeps(env, st, f);
      UpstreamOne(st.ready, f);
    }
  }

  // Over any bytes, however cut: exactly the frames the deframer delivers are acted on.
  lemma {:induction false} FeedSettles(env: Env, st: State, bytes: seq<byte>)
    requires Settled(st) && Calm(st) && st.connected
    ensures var st1 := Feed(env, st, bytes);
            var fs := Frames(st.line, bytes);
            && Settled(st1)
            && st1.ready == ReadyAfter(st.ready, fs)
            && Relays(st1.log) == Relays(st.log) + Upstream(st.ready, fs)
    decreases |bytes|
  {
    hide FeedByte, Emitted, Calm, Settled, Relays, Run, Upstream, ReadyAfter;
    if bytes == [] {
      UpstreamNothing(st.ready);
      assert Relays(st.log) + [] == Relays(st.log);
    } else {
      var n := |bytes| - 1;
      FeedSettles(env, st, bytes[..n]);
      FeedCalm(env, st, bytes[..n]);
      var st0, fs0 := Feed(env, st, bytes[..n]), Frames(st.line, bytes[..n]);
      var out := Emitted(st0.line, bytes[n]);
      FeedByteSettles(env, st0, bytes[n]);
      UpstreamAppend(st.ready, fs0, out);
      Associate(Relays(st.log), Upstream(st.ready, fs0), Upstream(st0.ready, out));
    }
  }

  lemma UpstreamNothing(ready: bool)
    ensures Upstream(ready, []) == [] && ReadyAfter(ready, []) == ready
  {
  }

  lemma Associate<T>(a: seq<T>, b: seq<T>, c: seq<T>)
    ensures (a + b) + c == a + (b + c)
  {
  }

  lemma EmittedOne(l: Line, c: byte)
    ensures |Emitted(l, c)| <= 1
  {
  }

  lemma SettledLine(st: State, l: Line)
    ensures Settled(st.(line := l)) == Settled(st)
  {
  }

  // ----- A reply goes on in full or not at all -----

  // The event is a first-time DATA frame with exactly this payload.
  predicate Carries(e: Event, payload: seq<byte>) {
    e.Sent? && KindOf(e.frame[0]) == Data && Mask(e.frame[1..]) == payload
  }

  lemma SendDataCarries(st: State, payload: seq<byte>)
    requires st.connected
    ensures var st1 := SendData(st, payload);
            if |payload| > 139 then st1 == st
            else |st1.log| == |st.log| + 1 && st.log <= st1.log && Carries(st1.log[|st.log|], payload) &&
                 st1.hist == st.hist + [st1.log[|st.log|].frame]
  {
    hide DataCtrl, Mask, KindOf;
    CtrlFields(|st.hist| % WINDOW, st.ack);
    MaskInvolution(payload);
    if |payload| <= 139 {
      assert DataBody(|st.hist| % WINDOW, st.ack, payload)[1..] == Mask(payload);
    }
  }

  // One look for a callback: what it finds is sent whole, as the very next event, or not at all.
  lemma PollVerbatimOrNothing(env: Env, st: State)
    requires st.connected && env.asserted(st.hintPos)
    ensures var st1, k := DrainStep(env, st).0, |st.log|;
            && k < |st1.log| && st.log <= st1.log && st1.log[k].Relayed? && st1.log[k].poll && st1.log[k].ver == st.ver
            && if st1.log[k].reply.Some? && Forwards(true, st.ver, st1.log[k].reply.value)
               then |st1.log| == k + 2 && Carries(st1.log[k + 1], st1.log[k].reply.value)
               else |st1.log| == k + 1 && st1.hist == st.hist
  {
    hide Ezsp.Ask, PollFrame, SendData, Carries;
    var st0 := st.(hintPos := st.hintPos + 1);
    var (st1, got) := RelayCallback(env, st0);
    if got.Some? {
      SendDataCarries(st1, got.value);
    }
  }

  // Looking for callbacks adds to the log, and begins with a poll.
  predicate Polled(st: State, st1: State) {
    st.log <= st1.log && (|st1.log| > |st.log| ==> st1.log[|st.log|].Relayed? && st1.log[|st.log|].poll)
  }

  lemma DrainStepPolls(env: Env, st: State)
    requires st.connected
    ensures Polled(st, DrainStep(env, st).0)
  {
    if env.asserted(st.hintPos) {
      hide DrainStep, Carries, Forwards;
      PollVerbatimOrNothing(env, st);
    }
  }

  lemma {:induction false} DrainLoopPolls(env: Env, st: State, guard: nat)
    requires st.connected
    ensures Polled(st, DrainLoop(env, st, guard))
    decreases guard
  {
    hide DrainStep, DrainLoop;
    DrainUnfold(env, st, guard);
    if guard > 0 {
      DrainStepPolls(env, st);
      DrainStepKeeps(env, st);
      var (st1, more) := DrainStep(env, st);
      if more {
        DrainLoopPolls(env, st1, guard - 1);
      }
    }
  }

  lemma DrainPolls(env: Env, st: State)
    ensures Polled(st, Drain(env, st))
  {
    hide DrainLoop;
    if st.connected {
      DrainLoopPolls(env, st, DRAIN_LIMIT);
    }
  }

  // The answer to a host frame: of 1 to 139 bytes one DATA frame carries every byte, right after
  // the relay; of a longer one nothing is sent before the next poll, and of an empty or missing
  // one nothing is sent at all.
  lemma VerbatimOrNothing(env: Env, st: State, f: Body)
    requires st.connected && 2 <= |f| <= 141
    ensures var st1, k := HandleData(env, st, f), |st.log| + 2;
            && k < |st1.log| && st.log <= st1.log && st1.log[k].Relayed? && !st1.log[k].poll
            && var reply := st1.log[k].reply;
               if reply.Some? && 1 <= |reply.value| <= 139
               then k + 1 < |st1.log| && Carries(st1.log[k + 1], reply.value)
               else if reply.Some? && |reply.value| >= 140
               then (|st1.log| > k + 1 ==> st1.log[k + 1].Relayed? && st1.log[k + 1].poll)
               else |st1.log| == k + 1
  {
    hide Ezsp.Ask, Mask, Drain, FrmOf, Agreed, SendData, AckCtrl, Carries;
    var ezsp := Mask(f[1..]);
    var st1 := SendAck(Log(st.(ack := (FrmOf(f[0]) + 1) % WINDOW), Accepted(f)));
    var (st2, got) := Relay(env, st1, false, ezsp);
    if got.Some? && got.value != [] {
      var st3 := Adopt(st2, Agreed(st2.ver, ezsp, got.value));
      SendDataCarries(st3, got.value);
      DrainPolls(env, SendData(st3, got.value));
    }
  }

  // ----- Runs -----

  lemma DropSettles(st: State)
    ensures Settled(Drop(st)) || !Settled(st)
  {
    Grow(st.log, Dropped);
  }

  lemma AcceptSettles(st: State)
    ensures Settled(Accept(st)) && Relays(Accept(st).log) == [] && Tcp(Accept(st).log) == []
  {
    Grow(Drop(st).log, Connected);
  }

  lemma TurnSettles(env: Env, st: State, arrival: bool, act: Activity)
    requires Settled(st) && Calm(st)
    ensures Settled(Turn(env, st, arrival, act))
  {
    hide Settled, Calm, Feed, Drain, Accept, Drop;
    AcceptSettles(st);
    AcceptCalm(st);
    AcceptConnects(st);
    var st1 := if arrival then Accept(st) else st;
    DropSettles(st1);
    DrainSettles(env, st1);
    DrainSettles(env, Drop(st1));
    if st.connected && act.Readable? {
      FeedSettles(env, st1, act.bytes);
      DrainSettles(env, Feed(env, st1, act.bytes));
    }
  }

  lemma AcceptConnects(st: State)
    ensures var st1 := Accept(st);
            st1.connected && !st1.ready && !st1.negotiated && st1.line == IDLE
  {
  }

  lemma {:induction false} RunSettled(env: Env, n: Ncp, steps: seq<Iteration>)
    ensures Settled(RunLoop(env, n, steps))
    decreases |steps|
  {
    if steps != [] {
      hide Settled, Calm, Turn;
      var init, last := steps[..|steps| - 1], steps[|steps| - 1];
      RunSettled(env, n, init);
      RunCalm(env, n, init);
      TurnSettles(env, RunLoop(env, n, init), last.arrival, last.act);
    }
  }

  // ----- What the client is owed, by the whole frame id -----

  // A reply that fits in a frame and, if it answers a poll, has a header and is not noCallbacks.
  predicate Due(poll: bool, ver: int, p: seq<byte>) {
    1 <= |p| <= 139 && (poll ==> |p| >= Hdr(ver) && !Named(ver, p, EZSP_NO_CALLBACKS))
  }

  // Answers to a poll that one byte of the id misjudges: a callback whose id byte is 7 and what
  // goes with it is not noCallbacks', and from version 8 on a runt of four bytes.
  predicate Misjudged(poll: bool, ver: int, p: seq<byte>) {
    poll && |p| <= 139 &&
    if ver >= 8 then (|p| == 4 && p[3] != 0x07) || (|p| >= 5 && p[3] == 0x07 && p[4] != 0x00)
    else ver >= 5 && |p| >= 5 && p[4] == 0x07 && (p[2] != 0xFF || p[3] != 0x00)
  }

  lemma ForwardsIffDue(poll: bool, ver: int, p: seq<byte>)
    ensures Forwards(poll, ver, p) != Due(poll, ver, p) <==> Misjudged(poll, ver, p)
    ensures Misjudged(poll, ver, p) ==> (Due(poll, ver, p) <==> |p| != 4)
  {
  }

  // The relays of a log that were answered: whether each was a poll, and the version in force.
  datatype Query = Query(poll: bool, ver: int)

  function Queries(log: seq<Event>): seq<Query> {
    if log == [] then []
    else
      var e := log[|log| - 1];
      Queries(log[..|log| - 1]) + if e.Relayed? && e.reply.Some? then [Query(e.poll, e.ver)] else []
  }

  // Of the frames said in answer to those relays: what is forwarded, and what the client is owed.
  function Picked(qs: seq<Query>, said: seq<seq<byte>>): seq<seq<byte>>
    requires |qs| == |said|
  {
    if qs == [] then []
    else
      var k := |qs| - 1;
      Picked(qs[..k], said[..k]) + if Forwards(qs[k].poll, qs[k].ver, said[k]) then [said[k]] else []
  }

  function Owing(qs: seq<Query>, said: seq<seq<byte>>): seq<seq<byte>>
    requires |qs| == |said|
  {
    if qs == [] then []
    else
      var k := |qs| - 1;
      Owing(qs[..k], said[..k]) + if Due(qs[k].poll, qs[k].ver, said[k]) then [said[k]] else []
  }

  predicate NoneMisjudged(qs: seq<Query>, said: seq<seq<byte>>)
    requires |qs| == |said|
  {
    forall k :: 0 <= k < |said| ==> !Misjudged(qs[k].poll, qs[k].ver, said[k])
  }

  // How many of the frames are four bytes long.
  function Fours(s: seq<seq<byte>>): nat {
    if s == [] then 0 else Fours(s[..|s| - 1]) + if |s[|s| - 1]| == 4 then 1 else 0
  }

  lemma FoursMore(s: seq<seq<byte>>, p: seq<byte>)
    ensures Fours(s + [p]) == Fours(s) + if |p| == 4 then 1 else 0
  {
    assert (s + [p])[..|s + [p]| - 1] == s;
  }

  // A frame misjudged is either lost, and then it is no runt, or a runt too many.
  lemma {:induction false} PickedApart(qs: seq<Query>, said: seq<seq<byte>>)
    requires |qs| == |said|
    ensures var p, o := Picked(qs, said), Owing(qs, said);
            && Fours(p) >= Fours(o) && |p| - Fours(p) <= |o| - Fours(o)
            && (NoneMisjudged(qs, said) ==> p == o)
            && (!NoneMisjudged(qs, said) ==> Fours(p) > Fours(o) || |p| - Fours(p) < |o| - Fours(o))
    decreases |qs|
  {
    hide Forwards, Due, Misjudged, Fours;
    if qs == [] {
    } else {
      var k := |qs| - 1;
      PickedApart(qs[..k], said[..k]);
      ForwardsIffDue(qs[k].poll, qs[k].ver, said[k]);
      FoursMore(Picked(qs[..k], said[..k]), said[k]);
      FoursMore(Owing(qs[..k], said[..k]), said[k]);
      var p, o := Picked(qs[..k], said[..k]), Owing(qs[..k], said[..k]);
      assert p + [] == p && o + [] == o;
      assert NoneMisjudged(qs, said) <==>
             NoneMisjudged(qs[..k], said[..k]) && !Misjudged(qs[k].poll, qs[k].ver, said[k]);
    }
  }

  // The client gets exactly what it is owed if and only if no answer to a poll is misjudged.
  lemma PickedIffNoneMisjudged(qs: seq<Query>, said: seq<seq<byte>>)
    requires |qs| == |said|
    ensures Picked(qs, said) == Owing(qs, said) <==> NoneMisjudged(qs, said)
  {
    hide NoneMisjudged, Picked, Owing, Fours;
    PickedApart(qs, said);
  }

  lemma {:induction false} LastConnected(log: seq<Event>) returns (i: nat)
    requires ViewOf(log).conn
    ensures i < |log| && log[i].Connected? && SameClient(log, i + 1)
    decreases |log|
  {
    var k := |log| - 1;
    if log[k].Connected? {
      i := k;
    } else {
      i := LastConnected(log[..k]);
    }
  }

  lemma NothingMore<T>(s: seq<T>)
    ensures s + [] == s
  {
  }

  lemma QueriesMore(s: seq<Event>, e: Event)
    ensures Queries(s + [e]) == Queries(s) + if e.Relayed? && e.reply.Some? then [Query(e.poll, e.ver)] else []
    ensures Taken(s + [e]) == Taken(s) + if e.Relayed? && e.reply.Some? then [e.reply.value] else []
  {
    assert (s + [e])[..|s + [e]| - 1] == s;
  }

  lemma PickedMore(qs: seq<Query>, said: seq<seq<byte>>, q: Query, p: seq<byte>)
    requires |qs| == |said|
    ensures Picked(qs + [q], said + [p]) == Picked(qs, said) + if Forwards(q.poll, q.ver, p) then [p] else []
  {
    hide Forwards;
    assert (qs + [q])[..|qs|] == qs && (said + [p])[..|said|] == said;
  }

  lemma RepliesMore(s: seq<seq<byte>>, e: Event)
    requires !e.Connected?
    ensures RepliesStep(s, e) ==
            s + if e.Relayed? && e.reply.Some? && Forwards(e.poll, e.ver, e.reply.value) then [e.reply.value] else []
  {
  }

  lemma OneSplit<T>(s: seq<T>, i: nat)
    requires i < |s|
    ensures var k := |s| - 1;
            s == s[..k] + [s[k]] && s[i..] == s[i..k] + [s[k]] && s[..k][i..] == s[i..k] && (i == k ==> s[i..k] == [])
  {
  }

  lemma {:induction false} RepliesPicked(log: seq<Event>, i: nat)
    requires i < |log| && log[i].Connected? && SameClient(log, i + 1)
    ensures |Queries(log[i..])| == |Taken(log[i..])|
    ensures Replies(log) == Picked(Queries(log[i..]), Taken(log[i..]))
    decreases |log|
  {
    var k := |log| - 1;
    var init, e := log[..k], log[k];
    OneSplit(log, i);
    Grow(init, e);
    QueriesMore(log[i..k], e);
    if i < k {
      assert SameClient(init, i + 1) && !e.Connected?;
      hide *;
      RepliesPicked(init, i);
      RepliesMore(Replies(init), e);
      if e.Relayed? && e.reply.Some? {
        PickedMore(Queries(init[i..]), Taken(init[i..]), Query(e.poll, e.ver), e.reply.value);
      } else {
        NothingMore(Queries(init[i..]));
        NothingMore(Taken(init[i..]));
        NothingMore(Replies(init));
      }
    }
  }

  // Downstream, in every reachable state with a client. Reading what was written to it, taking
  // the DATA frames sent for the first time and unmasking them gives a selection of the EZSP
  // frames the co-processor got across since the client connected, read off what it heard since
  // then: those of 1 to 139 bytes, less polls with the id byte 7 or without one. That is what
  // the client is owed, empty polls told by their whole id, if and only if none is misjudged.
  lemma DownstreamTransparent(env: Env, n: Ncp, steps: seq<Iteration>) returns (i: nat)
    requires RunLoop(env, n, steps).connected
    ensures var st := RunLoop(env, n, steps);
            && i < |st.log| && st.log[i].Connected? && SameClient(st.log, i + 1)
            && var c := Course(env.fw, env.wait, n, st.log[..i]);
            && var said := Spoken(env.fw, env.wait, |c.heard|, c.aborted, st.ncp.heard);
            && var qs := Queries(st.log[i..]);
            && |qs| == |said|
            && PeerFrames(IDLE, Tcp(st.log)) == Written(st.log)
            && Payloads(Written(st.log)) == Picked(qs, said)
            && (Payloads(Written(st.log)) == Owing(qs, said) <==> NoneMisjudged(qs, said))
  {
    hide RunLoop, Truthful, Lawful, Course, Spoken, Picked, Owing, NoneMisjudged, Queries, Taken, Written, Payloads,
         Tcp;
    var st := RunLoop(env, n, steps);
    RunSettled(env, n, steps);
    RunCalm(env, n, steps);
    RunAccounted(env, n, steps);
    i := LastConnected(st.log);
    PeerSeesFrames(st.log);
    SpokenTaken(env, n, st.log, i);
    RepliesPicked(st.log, i);
    PickedIffNoneMisjudged(Queries(st.log[i..]), Taken(st.log[i..]));
  }

  // Turns of the loop that neither end nor replace the client.
  function Session(env: Env, st: State, acts: seq<Activity>): State {
    if acts == [] then st else Turn(env, Session(env, st, acts[..|acts| - 1]), false, acts[|acts| - 1])
  }

  predicate Talks(acts: seq<Activity>) {
    forall a :: a in acts ==> a.Readable? || a.Silent?
  }

  function Received(acts: seq<Activity>): seq<byte> {
    if acts == [] then []
    else
      var a := acts[|acts| - 1];
      Received(acts[..|acts| - 1]) + if a.Readable? then a.bytes else []
  }

  lemma TurnUpstream(env: Env, st: State, act: Activity)
    requires Settled(st) && Calm(st) && st.connected && (act.Readable? || act.Silent?)
    ensures var st1 := Turn(env, st, false, act);
            var bytes := if act.Readable? then act.bytes else [];
            var fs := Frames(st.line, bytes);
            && st1.connected && st1.line == Run(st.line, bytes)
            && st1.ready == ReadyAfter(st.ready, fs)
            && Relays(st1.log) == Relays(st.log) + Upstream(st.ready, fs)
  {
    hide Settled, Calm, Feed, Drain, Relays, Upstream, ReadyAfter;
    if act.Readable? {
      FeedSettles(env, st, act.bytes);
      FeedCalm(env, st, act.bytes);
      var st0 := Feed(env, st, act.bytes);
      DrainSettles(env, st0);
      DrainKeeps(env, st0);
    } else {
      DrainSettles(env, st);
      DrainKeeps(env, st);
      UpstreamNothing(st.ready);
      assert Relays(st.log) + [] == Relays(st.log);
    }
  }

  lemma {:induction false} SessionUpstream(env: Env, st: State, acts: seq<Activity>)
    requires Settled(st) && Calm(st) && st.connected && Talks(acts)
    ensures var st1 := Session(env, st, acts);
            var fs := Frames(st.line, Received(acts));
            && Settled(st1) && Calm(st1) && st1.connected && st1.line == Run(st.line, Received(acts))
            && st1.ready == ReadyAfter(st.ready, fs)
            && Relays(st1.log) == Relays(st.log) + Upstream(st.ready, fs)
    decreases |acts|
  {
    hide Settled, Calm, Turn, Relays, Upstream, ReadyAfter;
    if acts == [] {
      UpstreamNothing(st.ready);
      assert Relays(st.log) + [] == Relays(st.log);
    } else {
      hide Run, Frames;
      var init, act := acts[..|acts| - 1], acts[|acts| - 1];
      SessionUpstream(env, st, init);
      var st0 := Session(env, st, init);
      TurnSettles(env, st0, false, act);
      TurnCalm(env, st0, false, act);
      TurnUpstream(env, st0, act);
      var bytes := if act.Readable? then act.bytes else [];
      RunAppend(st.line, Received(init), bytes);
      var fs0, fs1 := Frames(st.line, Received(init)), Frames(st0.line, bytes);
      UpstreamAppend(st.ready, fs0, fs1);
      Associate(Relays(st.log), Upstream(st.ready, fs0), Upstream(st0.ready, fs1));
    }
  }

  // The state after a turn in which a client connected, whatever went before and whatever else
  // the turn brought.
  function JustConnected(env: Env, n: Ncp, steps: seq<Iteration>, act: Activity): State {
    Turn(env, RunLoop(env, n, steps), true, act)
  }

  // What was polled for the client before is done to the newcomer: it is read from, or dropped.
  predicate Survives(st: State, act: Activity) {
    st.connected ==> act.Silent? || act.Readable?
  }

  function FirstBytes(st: State, act: Activity): seq<byte> {
    if st.connected && act.Readable? then act.bytes else []
  }

  // A client that connects is still connected after that turn if and only if there was no client
  // before it, or that one did not hang up and the newcomer did not close in the same turn.
  lemma NewcomerSurvivesIff(env: Env, st: State, act: Activity)
    requires Calm(st)
    ensures Turn(env, st, true, act).connected <==> Survives(st, act)
    ensures !Survives(st, act) ==>
              Turn(env, st, true, act).log == st.log + [Dropped, Connected, Dropped]
  {
    hide Calm, Feed, Drain;
    AcceptCalm(st);
    var st1 := Accept(st);
    DrainKeeps(env, st1);
    DrainNeedsClient(env, Drop(st1));
    if st.connected && act.Readable? {
      FeedCalm(env, st1, act.bytes);
      DrainKeeps(env, Feed(env, st1, act.bytes));
    }
  }

  lemma DrainNeedsClient(env: Env, st: State)
    ensures !st.connected ==> Drain(env, st) == st
  {
    hide DrainLoop;
  }

  lemma JustConnectedState(env: Env, n: Ncp, steps: seq<Iteration>, act: Activity)
    requires Survives(RunLoop(env, n, steps), act)
    ensures var st := JustConnected(env, n, steps, act);
            var first := FirstBytes(RunLoop(env, n, steps), act);
            var fs := Frames(IDLE, first);
            && Settled(st) && Calm(st) && st.connected && st.line == Run(IDLE, first)
            && st.ready == ReadyAfter(false, fs) && Relays(st.log) == Upstream(false, fs)
  {
    hide RunLoop, Calm, Settled, Accept, Feed, Drain, Relays, Upstream, ReadyAfter;
    var st := RunLoop(env, n, steps);
    RunCalm(env, n, steps);
    AcceptSettles(st);
    AcceptCalm(st);
    AcceptConnects(st);
    var st1 := Accept(st);
    var bytes := FirstBytes(st, act);
    FeedSettles(env, st1, bytes);
    FeedCalm(env, st1, bytes);
    FeedNothing(env, st1);
    var st2 := Feed(env, st1, bytes);
    DrainSettles(env, st2);
    DrainCalm(env, st2);
    DrainKeeps(env, st2);
    assert [] + Upstream(false, Frames(IDLE, bytes)) == Upstream(false, Frames(IDLE, bytes));
  }

  lemma FeedNothing(env: Env, st: State)
    ensures Feed(env, st, []) == st
  {
  }

  lemma CancelIdle()
    ensures Run(IDLE, [CANCEL]) == IDLE && Frames(IDLE, [CANCEL]) == []
  {
    RunOne(IDLE, CANCEL);
  }

  // Upstream: a client that survives the turn it connects in and frames properly, with flow
  // control bytes anywhere, a CANCEL first or not, and its stream cut into reads in any way, the
  // first of them in that turn or not, gets exactly its DATA payloads relayed, in order, from
  // its first RST on.
  lemma UpstreamTransparent(env: Env, n: Ncp, steps: seq<Iteration>, act: Activity, acts: seq<Activity>,
                            frames: seq<seq<byte>>)
    requires Survives(RunLoop(env, n, steps), act)
    requires Talks(acts) && forall f :: f in frames ==> 1 <= |f| <= 278
    requires var stream := Strip(FirstBytes(RunLoop(env, n, steps), act) + Received(acts));
             stream == EncodeAll(frames) || stream == [CANCEL] + EncodeAll(frames)
    ensures Relays(Session(env, JustConnected(env, n, steps, act), acts).log) == Upstream(false, frames)
  {
    CancelIdle();
    hide *;
    var first := FirstBytes(RunLoop(env, n, steps), act);
    var st := JustConnected(env, n, steps, act);
    JustConnectedState(env, n, steps, act);
    SessionUpstream(env, st, acts);
    RunAppend(IDLE, first, Received(acts));
    UpstreamAppend(false, Frames(IDLE, first), Frames(st.line, Received(acts)));
    FlowControlIgnored(IDLE, first + Received(acts));
    EncodeAllDelivers(frames);
    RunAppend(IDLE, [CANCEL], EncodeAll(frames));
    NothingMore(frames);
    assert [] + frames == frames;
  }

  // The frames of a host: RST, then one DATA frame for each payload, under any control bytes.
  function HostFrames(ctrls: seq<byte>, payloads: seq<seq<byte>>): seq<seq<byte>>
    requires |ctrls| == |payloads|
  {
    if payloads == [] then [[CTRL_RST]]
    else
      var k := |payloads| - 1;
      HostFrames(ctrls[..k], payloads[..k]) + [DataFrame(ctrls[k], payloads[k])]
  }

  function DataFrame(ctrl: byte, payload: seq<byte>): Body {
    [ctrl] + Mask(payload)
  }

  lemma DataFrameCarries(ctrl: byte, payload: seq<byte>)
    requires IsData(ctrl) && 1 <= |payload| <= 140
    ensures One(true, DataFrame(ctrl, payload)) == [payload] && |DataFrame(ctrl, payload)| <= 141
  {
    hide KindOf, Mask;
    MaskInvolution(payload);
    assert DataFrame(ctrl, payload)[1..] == Mask(payload);
  }

  lemma {:induction false} HostFramesShort(ctrls: seq<byte>, payloads: seq<seq<byte>>)
    requires |ctrls| == |payloads|
    requires forall p :: p in payloads ==> 1 <= |p| <= 140
    ensures forall f :: f in HostFrames(ctrls, payloads) ==> 1 <= |f| <= 278
    decreases |payloads|
  {
    hide Mask;
    if payloads != [] {
      var k := |payloads| - 1;
      HostFramesShort(ctrls[..k], payloads[..k]);
      assert payloads[k] in payloads;
    }
  }

  // One more payload: one more frame that carries it.
  lemma CarryOneMore(fs: seq<seq<byte>>, ctrl: byte, payload: seq<byte>)
    requires forall f :: f in fs ==> 1 <= |f|
    requires ReadyAfter(false, fs) && IsData(ctrl) && 1 <= |payload| <= 140
    ensures var all := fs + [DataFrame(ctrl, payload)];
            && (forall f :: f in all ==> 1 <= |f|)
            && ReadyAfter(false, all) && Upstream(false, all) == Upstream(false, fs) + [payload]
  {
    hide *;
    var f := DataFrame(ctrl, payload);
    DataFrameCarries(ctrl, payload);
    UpstreamAppend(false, fs, [f]);
    UpstreamOne(true, f);
  }

  lemma HostFramesLast(ctrls: seq<byte>, payloads: seq<seq<byte>>)
    requires |ctrls| == |payloads|
    ensures payloads == [] ==> HostFrames(ctrls, payloads) == [[CTRL_RST]]
    ensures payloads != [] ==>
              var k := |payloads| - 1;
              HostFrames(ctrls, payloads) == HostFrames(ctrls[..k], payloads[..k]) + [DataFrame(ctrls[k], payloads[k])]
  {
    hide DataFrame;
  }

  lemma LastOf<T>(s: seq<T>)
    requires s != []
    ensures s == s[..|s| - 1] + [s[|s| - 1]] && s[|s| - 1] in s && forall x :: x in s[..|s| - 1] ==> x in s
  {
  }

  lemma {:induction false} HostFramesCarry(ctrls: seq<byte>, payloads: seq<seq<byte>>)
    requires |ctrls| == |payloads| && forall c :: c in ctrls ==> IsData(c)
    requires forall p :: p in payloads ==> 1 <= |p| <= 140
    ensures var fs := HostFrames(ctrls, payloads);
            && (forall f :: f in fs ==> 1 <= |f| <= 278)
            && ReadyAfter(false, fs) && Upstream(false, fs) == payloads
    decreases |payloads|
  {
    hide *;
    HostFramesShort(ctrls, payloads);
    HostFramesLast(ctrls, payloads);
    if payloads == [] {
      RstCarriesNothing();
    } else {
      var k := |payloads| - 1;
      LastOf(ctrls);
      LastOf(payloads);
      HostFramesCarry(ctrls[..k], payloads[..k]);
      CarryOneMore(HostFrames(ctrls[..k], payloads[..k]), ctrls[k], payloads[k]);
    }
  }

  lemma RstCarriesNothing()
    ensures Upstream(false, [[CTRL_RST]]) == [] && ReadyAfter(false, [[CTRL_RST]])
  {
    var rst: Body := [CTRL_RST];
    RstKind();
    UpstreamOne(false, rst);
    hide KindOf;
  }

  lemma RstKind()
    ensures KindOf(CTRL_RST) == Rst
  {
  }

  // A session is part of a run.
  function Turns(acts: seq<Activity>): (r: seq<Iteration>)
    ensures |r| == |acts|
  {
    if acts == [] then [] else Turns(acts[..|acts| - 1]) + [Iteration(false, acts[|acts| - 1])]
  }

  lemma {:induction false} SessionIsRun(env: Env, n: Ncp, steps: seq<Iteration>, act: Activity, acts: seq<Activity>)
    ensures Session(env, JustConnected(env, n, steps, act), acts) ==
            RunLoop(env, n, steps + [Iteration(true, act)] + Turns(acts))
    decreases |acts|
  {
    hide Turn;
    var start := steps + [Iteration(true, act)];
    var all := start + Turns(acts);
    if acts == [] {
      assert all == start && start[..|start| - 1] == steps;
    } else {
      SessionIsRun(env, n, steps, act, acts[..|acts| - 1]);
      assert all[..|all| - 1] == start + Turns(acts[..|acts| - 1]);
    }
  }

  // Both directions of one session of a client that survives the turn it connects in: the relays
  // made are the host's payloads of 1 to 140 bytes, and what the host reads back are the EZSP
  // frames the co-processor said since it connected, selected as they should be if and only if
  // no answer to a poll is misjudged.
  lemma BridgeTransparent(env: Env, n: Ncp, steps: seq<Iteration>, act: Activity, acts: seq<Activity>,
                          ctrls: seq<byte>, payloads: seq<seq<byte>>) returns (i: nat)
    requires Survives(RunLoop(env, n, steps), act)
    requires |ctrls| == |payloads| && forall c :: c in ctrls ==> IsData(c)
    requires forall p :: p in payloads ==> 1 <= |p| <= 140
    requires Talks(acts) && Strip(FirstBytes(RunLoop(env, n, steps), act) + Received(acts)) ==
                            [CANCEL] + EncodeAll(HostFrames(ctrls, payloads))
    ensures var st := Session(env, JustConnected(env, n, steps, act), acts);
            && Relays(st.log) == payloads
            && i < |st.log| && st.log[i].Connected? && SameClient(st.log, i + 1)
            && var c := Course(env.fw, env.wait, n, st.log[..i]);
            && var said := Spoken(env.fw, env.wait, |c.heard|, c.aborted, st.ncp.heard);
            && var qs := Queries(st.log[i..]);
            && |qs| == |said|
            && PeerFrames(IDLE, Tcp(st.log)) == Written(st.log)
            && Payloads(Written(st.log)) == Picked(qs, said)
            && (Payloads(Written(st.log)) == Owing(qs, said) <==> NoneMisjudged(qs, said))
  {
    hide *;
    HostFramesCarry(ctrls, payloads);
    UpstreamTransparent(env, n, steps, act, acts, HostFrames(ctrls, payloads));
    JustConnectedState(env, n, steps, act);
    SessionUpstream(env, JustConnected(env, n, steps, act), acts);
    SessionIsRun(env, n, steps, act, acts);
    i := DownstreamTransparent(env, n, steps + [Iteration(true, act)] + Turns(acts));
  }
}
