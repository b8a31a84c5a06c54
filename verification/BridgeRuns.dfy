// What holds on every run of the event loop, read off the log of what happened.

module BridgeRuns {
  import opened Bytes
  import opened Ash
  import opened Whitening
  import opened Coprocessor
  import opened Spi
  import opened Ezsp
  import opened BridgeModel

  // ----- What the log says -----

  datatype Owed = Nothing | AckOwed(f: Body) | RelayOwed(f: Body)

  datatype View = View(
    conn: bool,               // a client is connected
    shaken: bool,             // it has been sent RSTACK
    data: seq<Body>,          // DATA frames sent for the first time since the last reset or connection
    next: num3,               // number after the last host frame accepted since then, or 0
    version: Option<int>,     // the EZSP version taken since then
    owed: Owed)               // what an accepted host frame is still waiting for

  function Observe(v: View, e: Event): View {
    match e
    case Connected => View(true, false, [], 0, None, Nothing)
    case Dropped => v.(conn := false, shaken := false)
    case NcpReset => v.(data := [], next := 0, version := None)
    case Sent(f) =>
      v.(shaken := v.shaken || f == RSTACK,
         data := if KindOf(f[0]) == Data then v.data + [f] else v.data,
         owed := if v.owed.AckOwed? then RelayOwed(v.owed.f) else v.owed)
    case Accepted(f) => v.(next := (FrmOf(f[0]) + 1) % WINDOW, owed := AckOwed(f))
    case Relayed(poll, ver, frame, reply) =>
      v.(version := if poll || reply.None? then v.version
                    else Newer(v.version, Agreed(ver, frame, Take(reply.value, MAX_FRAME))),
         owed := Nothing)
  }

  function Newer(before: Option<int>, after: Option<int>): Option<int> {
    if after.None? then before else after
  }

  function ViewOf(log: seq<Event>): View {
    if log == [] then View(false, false, [], 0, None, Nothing) else Observe(ViewOf(log[..|log| - 1]), log[|log| - 1])
  }

  function InForce(v: View): int {
    if v.version.None? then 4 else v.version.value
  }

  // ----- The rules, one event at a time -----

  ghost predicate SentObeys(v: View, f: Body) {
    v.conn && |f| <= 140 && (f == RSTACK || v.shaken) && !v.owed.RelayOwed? &&
    match KindOf(f[0])
    case Data => v.owed == Nothing && 2 <= |f| && FrmOf(f[0]) == |v.data| % WINDOW && AckOf(f[0]) == v.next
    case DataAgain => v.owed == Nothing && exists i :: 0 <= i < |v.data| && f == Again(v.data[i])
    case Ack => v.owed.AckOwed? && f == [AckCtrl(v.next)]
    case _ => v.owed == Nothing && f == RSTACK
  }

  ghost predicate RelayedObeys(v: View, poll: bool, ver: int, frame: seq<byte>) {
    v.conn && v.shaken && ver == InForce(v) &&
    if poll then v.owed == Nothing && v.version.Some? && exists sn: byte :: frame == PollFrame(ver, sn)
    else v.owed.RelayOwed? && frame == Mask(v.owed.f[1..])
  }

  ghost predicate Obeys(v: View, e: Event) {
    match e
    case Connected => !v.conn && v.owed == Nothing
    case Dropped => v.conn && v.owed == Nothing
    case NcpReset => v.conn && v.owed == Nothing
    case Sent(f) => SentObeys(v, f)
    case Accepted(f) => v.conn && v.shaken && v.owed == Nothing && IsData(f[0]) && 2 <= |f| <= 141
    case Relayed(poll, ver, frame, _) => RelayedObeys(v, poll, ver, frame)
  }

  ghost predicate Lawful(log: seq<Event>) {
    log == [] || (Lawful(log[..|log| - 1]) && Obeys(ViewOf(log[..|log| - 1]), log[|log| - 1]))
  }

  lemma Append(log: seq<Event>, e: Event)
    ensures ViewOf(log + [e]) == Observe(ViewOf(log), e)
    ensures Lawful(log + [e]) <==> Lawful(log) && Obeys(ViewOf(log), e)
  {
    assert (log + [e])[..|log + [e]| - 1] == log;
  }

  // ----- The invariant -----

  ghost predicate GoodBody(b: Body) { KindOf(b[0]) == Data && 2 <= |b| <= 140 }

  // The state is what the log says it is, and the log is lawful.
  ghost predicate Inv(st: State) {
    var v := ViewOf(st.log);
    && Lawful(st.log)
    && st.connected == v.conn && st.hist == v.data && st.ack == v.next
    && st.negotiated == v.version.Some? && st.ver == InForce(v)
    && (v.version.Some? ==> 4 <= v.version.value <= 13)
    && (st.connected ==> st.ready == v.shaken)
    && (!v.shaken ==> (v.conn ==> v.data == [] && v.version.None?))
    && forall b :: b in st.hist ==> GoodBody(b)
  }

  // Inv, and nothing is owed: so it is between the steps of handling a frame.
  ghost predicate Calm(st: State) {
    Inv(st) && ViewOf(st.log).owed == Nothing
  }

  lemma StartCalm(n: Ncp)
    ensures Calm(Start(n))
  {
  }

  // ----- Each step keeps it -----

  lemma RstackKind()
    ensures KindOf(RSTACK[0]) == Other
  {
  }

  // An ACK or a retransmission: only the log moves.
  lemma SendControl(st: State, f: Body)
    requires Inv(st) && st.connected && SentObeys(ViewOf(st.log), f)
    requires KindOf(f[0]) == Ack || KindOf(f[0]) == DataAgain
    ensures Send(st, f) == Log(st, Sent(f)) && Inv(Send(st, f))
    ensures var v := ViewOf(st.log);
            ViewOf(Send(st, f).log) == v.(owed := if v.owed.AckOwed? then RelayOwed(v.owed.f) else v.owed)
  {
    hide KindOf, SentObeys;
    RstackKind();
    Append(st.log, Sent(f));
    assert |f| <= 140 && (f == RSTACK || ViewOf(st.log).shaken) by { SentLength(ViewOf(st.log), f); }
  }

  lemma SentLength(v: View, f: Body)
    requires SentObeys(v, f)
    ensures |f| <= 140 && v.conn && (f == RSTACK || v.shaken)
  {
  }

  lemma SendDataCalm(st: State, payload: seq<byte>)
    requires Calm(st) && st.connected && st.ready && payload != []
    ensures Calm(SendData(st, payload))
  {
    hide KindOf, FrmOf, AckOf, DataCtrl, Mask;
    if |payload| + 1 <= MAX_FRAME {
      var frm: num3 := |st.hist| % WINDOW;
      var body := DataBody(frm, st.ack, payload);
      CtrlFields(frm, st.ack);
      RstackKind();
      Append(st.log, Sent(body));
    }
  }

  lemma ResetCalm(st: State)
    requires Calm(st) && st.connected
    ensures Calm(Reset(st))
  {
    hide KindOf;
    RstackKind();
    Append(st.log, NcpReset);
    Append(st.log + [NcpReset], Sent(RSTACK));
  }

  lemma {:induction false} ResendCalm(st: State, bodies: seq<Body>)
    requires Calm(st) && st.connected && st.ready
    requires forall b :: b in bodies ==> b in st.hist
    ensures Calm(Resend(st, bodies)) && Resend(st, bodies) == st.(log := Resend(st, bodies).log)
    decreases |bodies|
  {
    if bodies != [] {
      hide KindOf, Retry;
      var b := bodies[|bodies| - 1];
      ResendCalm(st, bodies[..|bodies| - 1]);
      var st1 := Resend(st, bodies[..|bodies| - 1]);
      assert b in st1.hist && GoodBody(b);
      RetryFields(b[0]);
      SendControl(st1, Again(b));
    }
  }

  lemma RetransmitCalm(st: State, from: num3)
    requires Calm(st) && st.connected
    ensures Calm(Retransmit(st, from))
  {
    var again := st.hist[|st.hist| - Back(|st.hist|, from)..];
    if st.ready {
      ResendCalm(st, again);
    } else {
      assert again == [];
    }
  }

  lemma RelayCallbackCalm(env: Env, st: State)
    requires Calm(st) && st.connected && st.ready && st.negotiated
    ensures var (st1, r) := RelayCallback(env, st);
            Calm(st1) && st1.connected && st1.ready && st1.negotiated && (r.Some? ==> r.value != [])
  {
    hide KindOf, Ezsp.Ask, PollFrame;
    var frame := PollFrame(st.ver, st.cbseq);
    var (r, m) := Ezsp.Ask(env.fw, env.wait, st.ncp, frame);
    Append(st.log, Relayed(true, st.ver, frame, r));
  }

  lemma DrainStepCalm(env: Env, st: State)
    requires Calm(st) && st.connected && st.ready && st.negotiated
    ensures var st1 := DrainStep(env, st).0;
            Calm(st1) && st1.connected && st1.ready && st1.negotiated
  {
    hide RelayCallback, Calm, SendData;
    var st0 := st.(hintPos := st.hintPos + 1);
    HintCalm(st, st.hintPos + 1);
    RelayCallbackCalm(env, st0);
    var (st1, r) := RelayCallback(env, st0);
    if r.Some? {
      SendDataCalm(st1, r.value);
      SendDataFlags(st1, r.value);
    }
  }

  lemma HintCalm(st: State, p: nat)
    requires Calm(st)
    ensures Calm(st.(hintPos := p))
  {
  }

  lemma SendDataFlags(st: State, payload: seq<byte>)
    ensures var st1 := SendData(st, payload);
            st1.connected == st.connected && st1.ready == st.ready && st1.negotiated == st.negotiated
  {
    hide DataBody;
  }

  lemma {:induction false} DrainLoopCalm(env: Env, st: State, guard: nat)
    requires Calm(st) && st.connected && st.ready && st.negotiated
    ensures Calm(DrainLoop(env, st, guard))
    decreases guard
  {
    hide DrainStep, Calm, DrainLoop;
    DrainUnfold(env, st, guard);
    if guard > 0 {
      DrainStepCalm(env, st);
      var (st1, more) := DrainStep(env, st);
      if more {
        DrainLoopCalm(env, st1, guard - 1);
      }
    }
  }

  lemma DrainCalm(env: Env, st: State)
    requires Calm(st)
    ensures Calm(Drain(env, st))
  {
    hide DrainLoop, Calm;
    if st.connected && st.ready && st.negotiated {
      DrainLoopCalm(env, st, DRAIN_LIMIT);
    }
  }

  // Accepting a host frame: it is acknowledged before anything else.
  lemma AcceptedThenAck(st: State, f: Body)
    requires Calm(st) && st.connected && st.ready && IsData(f[0]) && 2 <= |f| <= 141
    ensures var st1 := SendAck(Log(st.(ack := (FrmOf(f[0]) + 1) % WINDOW), Accepted(f)));
            Inv(st1) && st1.connected && st1.ready && ViewOf(st1.log).owed == RelayOwed(f)
    ensures SendAck(Log(st.(ack := (FrmOf(f[0]) + 1) % WINDOW), Accepted(f))).log ==
            st.log + [Accepted(f)] + [Sent([AckCtrl((FrmOf(f[0]) + 1) % WINDOW)])]
  {
    hide KindOf, FrmOf, AckOf, AckCtrl;
    var next: num3 := (FrmOf(f[0]) + 1) % WINDOW;
    var st0 := Log(st.(ack := next), Accepted(f));
    Append(st.log, Accepted(f));
    CtrlFields(0, next);
    SendControl(st0, [AckCtrl(next)]);
  }

  // The relay of an accepted frame, and the version it may settle.
  lemma RelayThenAdopt(env: Env, st: State, f: Body)
    requires Inv(st) && st.connected && st.ready && ViewOf(st.log).owed == RelayOwed(f)
    requires 2 <= |f| <= 141
    ensures var ezsp := Mask(f[1..]);
            var (st1, r) := Relay(env, st, false, ezsp);
            if r.None? || r.value == [] then Calm(st1)
            else
              var st2 := Adopt(st1, Agreed(st1.ver, ezsp, r.value));
              Calm(st2) && st2.connected && st2.ready
  {
    hide KindOf, Ezsp.Ask, Mask;
    var ezsp := Mask(f[1..]);
    var (r, m) := Ezsp.Ask(env.fw, env.wait, st.ncp, ezsp);
    Append(st.log, Relayed(false, st.ver, ezsp, r));
  }

  lemma HandleDataCalm(env: Env, st: State, f: Body)
    requires Calm(st) && st.connected && st.ready && IsData(f[0]) && 2 <= |f| <= 141
    ensures Calm(HandleData(env, st, f))
  {
    hide KindOf, FrmOf, Mask, Relay, Drain, SendData, SendAck, Calm, Inv, Agreed, Adopt, Log;
    AcceptedThenAck(st, f);
    var st1 := SendAck(Log(st.(ack := (FrmOf(f[0]) + 1) % WINDOW), Accepted(f)));
    RelayThenAdopt(env, st1, f);
    var ezsp := Mask(f[1..]);
    var (st2, r) := Relay(env, st1, false, ezsp);
    if r.Some? && r.value != [] {
      var st3 := Adopt(st2, Agreed(st2.ver, ezsp, r.value));
      SendDataCalm(st3, r.value);
      DrainCalm(env, SendData(st3, r.value));
    }
  }

  lemma HandleCalm(env: Env, st: State, f: Body)
    requires Calm(st) && st.connected
    ensures Calm(Handle(env, st, f))
  {
    hide KindOf, Calm, HandleData, Retransmit, Reset;
    match KindOf(f[0]) {
      case Rst => ResetCalm(st);
      case Nak => RetransmitCalm(st, AckOf(f[0]));
      case Data => if st.ready && 2 <= |f| <= 141 { HandleDataCalm(env, st, f); }
      case DataAgain => if st.ready && 2 <= |f| <= 141 { HandleDataCalm(env, st, f); }
      case _ =>
    }
  }

  // ----- Handling frames leaves the connection and the line alone -----

  lemma DrainStepKeeps(env: Env, st: State)
    ensures DrainStep(env, st).0.connected == st.connected && DrainStep(env, st).0.line == st.line
    ensures DrainStep(env, st).0.ready == st.ready && DrainStep(env, st).0.hintPos == st.hintPos + 1
    ensures DrainStep(env, st).0.negotiated == st.negotiated && DrainStep(env, st).0.ver == st.ver
  {
    hide Ezsp.Ask, PollFrame, Mask, DataCtrl;
  }

  lemma {:induction false} DrainLoopKeeps(env: Env, st: State, guard: nat)
    ensures DrainLoop(env, st, guard).connected == st.connected && DrainLoop(env, st, guard).line == st.line
    ensures DrainLoop(env, st, guard).ready == st.ready && DrainLoop(env, st, guard).hintPos >= st.hintPos
    ensures DrainLoop(env, st, guard).negotiated == st.negotiated && DrainLoop(env, st, guard).ver == st.ver
    decreases guard
  {
    hide DrainStep, DrainLoop;
    DrainUnfold(env, st, guard);
    if guard > 0 {
      DrainStepKeeps(env, st);
      var (st1, more) := DrainStep(env, st);
      if more {
        DrainLoopKeeps(env, st1, guard - 1);
      }
    }
  }

  lemma DrainKeeps(env: Env, st: State)
    ensures Drain(env, st).connected == st.connected && Drain(env, st).line == st.line
    ensures Drain(env, st).ready == st.ready && Drain(env, st).hintPos >= st.hintPos
    ensures Drain(env, st).negotiated == st.negotiated && Drain(env, st).ver == st.ver
  {
    hide DrainLoop;
    DrainLoopKeeps(env, st, DRAIN_LIMIT);
  }

  lemma {:induction false} ResendKeeps(st: State, bodies: seq<Body>)
    ensures Resend(st, bodies).connected == st.connected && Resend(st, bodies).ready == st.ready
    ensures Resend(st, bodies).hintPos == st.hintPos
    decreases |bodies|
  {
    if bodies != [] {
      ResendKeeps(st, bodies[..|bodies| - 1]);
    }
  }

  lemma HandleDataKeeps(env: Env, st: State, f: Body)
    requires 2 <= |f| <= 141
    ensures HandleData(env, st, f).connected == st.connected && HandleData(env, st, f).ready == st.ready
    ensures HandleData(env, st, f).hintPos >= st.hintPos
  {
    hide Ezsp.Ask, Mask, Drain, FrmOf, Agreed, DataBody;
    var ezsp := Mask(f[1..]);
    var st1 := SendAck(Log(st.(ack := (FrmOf(f[0]) + 1) % WINDOW), Accepted(f)));
    var (st2, r) := Relay(env, st1, false, ezsp);
    if r.Some? {
      DrainKeeps(env, SendData(Adopt(st2, Agreed(st2.ver, ezsp, r.value)), r.value));
    }
  }

  lemma OthersKeep(st: State, from: num3)
    ensures Retransmit(st, from).connected == st.connected && Retransmit(st, from).ready == st.ready
    ensures Reset(st).connected == st.connected && Reset(st).ready
    ensures Retransmit(st, from).hintPos == st.hintPos && Reset(st).hintPos == st.hintPos
  {
    hide Resend;
    ResendKeeps(st, st.hist[|st.hist| - Back(|st.hist|, from)..]);
  }

  lemma HandleKeeps(env: Env, st: State, f: Body)
    ensures Handle(env, st, f).connected == st.connected
    ensures Handle(env, st, f).ready == (st.ready || KindOf(f[0]) == Rst)
    ensures Handle(env, st, f).hintPos >= st.hintPos
  {
    hide KindOf, HandleData, Retransmit, Reset, AckOf;
    OthersKeep(st, AckOf(f[0]));
    if 2 <= |f| <= 141 {
      HandleDataKeeps(env, st, f);
    }
  }

  lemma {:induction false} FeedKeeps(env: Env, st: State, bytes: seq<byte>)
    ensures Feed(env, st, bytes).hintPos >= st.hintPos
    decreases |bytes|
  {
    if bytes != [] {
      hide Handle, Emitted, Step;
      var n := |bytes| - 1;
      FeedKeeps(env, st, bytes[..n]);
      var st1 := Feed(env, st, bytes[..n]);
      var out := Emitted(st1.line, bytes[n]);
      if out != [] {
        HandleKeeps(env, st1, out[0]);
      }
    }
  }

  // ----- Whole runs -----

  lemma {:induction false} FeedCalm(env: Env, st: State, bytes: seq<byte>)
    requires Calm(st) && st.connected
    ensures Calm(Feed(env, st, bytes)) && Feed(env, st, bytes).connected
    ensures Feed(env, st, bytes).line == Run(st.line, bytes)
    decreases |bytes|
  {
    if bytes != [] {
      var n := |bytes| - 1;
      FeedCalm(env, st, bytes[..n]);
      var st1 := Feed(env, st, bytes[..n]);
      var out := Emitted(st1.line, bytes[n]);
      hide KindOf, Handle, Emitted, Step;
      if out != [] {
        HandleCalm(env, st1, out[0]);
        HandleKeeps(env, st1, out[0]);
      }
    }
  }

  lemma DropCalm(st: State)
    requires Calm(st)
    ensures Calm(Drop(st))
  {
    Append(st.log, Dropped);
  }

  lemma AcceptCalm(st: State)
    requires Calm(st)
    ensures Calm(Accept(st))
  {
    DropCalm(st);
    Append(Drop(st).log, Connected);
  }

  lemma TurnCalm(env: Env, st: State, arrival: bool, act: Activity)
    requires Calm(st)
    ensures Calm(Turn(env, st, arrival, act))
  {
    hide Calm, Feed, Drain;
    AcceptCalm(st);
    var st1 := if arrival then Accept(st) else st;
    DropCalm(st1);
    DrainCalm(env, st1);
    DrainCalm(env, Drop(st1));
    if st.connected && act.Readable? {
      FeedCalm(env, st1, act.bytes);
      DrainCalm(env, Feed(env, st1, act.bytes));
    }
  }

  datatype Iteration = Iteration(arrival: bool, act: Activity)

  // Any run of the loop from its start.
  function RunLoop(env: Env, n: Ncp, steps: seq<Iteration>): State {
    if steps == [] then Start(n)
    else Turn(env, RunLoop(env, n, steps[..|steps| - 1]), steps[|steps| - 1].arrival, steps[|steps| - 1].act)
  }

  // Every reachable state is what its log says, and every event in the log obeys the rules.
  lemma {:induction false} RunCalm(env: Env, n: Ncp, steps: seq<Iteration>)
    ensures Calm(RunLoop(env, n, steps))
    decreases |steps|
  {
    if steps == [] {
      StartCalm(n);
    } else {
      hide Calm, Turn;
      var init := steps[..|steps| - 1];
      RunCalm(env, n, init);
      TurnCalm(env, RunLoop(env, n, init), steps[|steps| - 1].arrival, steps[|steps| - 1].act);
    }
  }

  lemma RunLawful(env: Env, n: Ncp, steps: seq<Iteration>)
    ensures Lawful(RunLoop(env, n, steps).log) && ViewOf(RunLoop(env, n, steps).log).owed == Nothing
  {
    hide RunLoop;
    RunCalm(env, n, steps);
  }

  lemma {:induction false} LawfulAt(log: seq<Event>, i: nat)
    requires Lawful(log) && i < |log|
    ensures Lawful(log[..i]) && Obeys(ViewOf(log[..i]), log[i])
    decreases |log|
  {
    var init := log[..|log| - 1];
    if i < |log| - 1 {
      LawfulAt(init, i);
      assert init[..i] == log[..i];
    }
  }

  // The event at i of a lawful log, and the view after it.
  lemma ObeysAt(log: seq<Event>, i: nat)
    requires Lawful(log) && i < |log|
    ensures Obeys(ViewOf(log[..i]), log[i]) && ViewOf(log[..i + 1]) == Observe(ViewOf(log[..i]), log[i])
    ensures log[..|log|] == log
  {
    hide Obeys, Observe;
    LawfulAt(log, i);
    Append(log[..i], log[i]);
    assert log[..i] + [log[i]] == log[..i + 1];
  }

  // ----- Ordering: nothing before RSTACK -----

  // Since position j no client came, went, or was replaced.
  predicate SameClient(log: seq<Event>, j: nat) {
    forall k :: j <= k < |log| ==> !log[k].Connected? && !log[k].Dropped?
  }

  lemma {:induction false} ShakenSince(log: seq<Event>) returns (j: nat)
    requires ViewOf(log).shaken
    ensures j < |log| && log[j] == Sent(RSTACK) && SameClient(log, j)
    decreases |log|
  {
    var n := |log| - 1;
    if log[n] == Sent(RSTACK) {
      j := n;
    } else {
      j := ShakenSince(log[..n]);
    }
  }

  // Rule 1: whatever is sent to a client is RSTACK, or comes after an RSTACK to that client.
  lemma NothingBeforeRstack(env: Env, n: Ncp, steps: seq<Iteration>, i: nat) returns (j: nat)
    requires i < |RunLoop(env, n, steps).log| && RunLoop(env, n, steps).log[i].Sent?
    ensures var log := RunLoop(env, n, steps).log;
            j <= i && log[j] == Sent(RSTACK) && SameClient(log[..i], j)
  {
    var log := RunLoop(env, n, steps).log;
    RunCalm(env, n, steps);
    LawfulAt(log, i);
    SentLength(ViewOf(log[..i]), log[i].frame);
    if log[i].frame == RSTACK {
      j := i;
    } else {
      j := ShakenSince(log[..i]);
    }
  }

  // Since position j neither the client nor the co-processor started over.
  predicate SameSession(log: seq<Event>, j: nat) {
    forall k :: j <= k < |log| ==> !log[k].Connected? && !log[k].NcpReset?
  }

  // The bridge takes v from this relay for the version agreed.
  predicate Adopts(e: Event, v: int) {
    e.Relayed? && !e.poll && e.reply.Some? && Agreed(e.ver, e.ezsp, Take(e.reply.value, MAX_FRAME)) == Some(v)
  }

  // A version command of the client, by its whole frame id, and an answer to one, by its whole
  // frame id, that says v.
  predicate Exchanged(e: Event, v: int) {
    && e.Relayed? && !e.poll && e.reply.Some?
    && Named(e.ver, e.ezsp, EZSP_VERSION) && Named(e.ver, e.reply.value, EZSP_VERSION)
    && |e.reply.value| > Hdr(e.ver) && e.reply.value[Hdr(e.ver)] as int == v && 4 <= v <= 13
  }

  // A frame with id byte 0 that is no version command: what the id byte goes with is wrong.
  predicate OddCommand(ver: int, f: seq<byte>) {
    |f| > IdOff(ver) && f[IdOff(ver)] == 0x00 &&
    if ver >= 8 then |f| == 4 || f[4] != 0x00
    else ver >= 5 && (f[2] != 0xFF || f[3] != 0x00)
  }

  // A frame with something after its header that is no version answer.
  predicate OddAnswer(ver: int, p: seq<byte>) {
    |p| > Hdr(ver) &&
    if ver >= 8 then p[3] != 0x00 || p[4] != 0x00
    else if ver >= 5 then p[2] != 0xFF || p[3] != 0x00 || p[4] != 0x00
    else p[2] != 0x00
  }

  // A client's frame with id byte 0 and the value v at the place of a version, one of them odd.
  predicate Mistaken(e: Event, v: int) {
    && e.Relayed? && !e.poll && e.reply.Some?
    && |e.ezsp| > IdOff(e.ver) && e.ezsp[IdOff(e.ver)] == 0x00
    && |e.reply.value| > Hdr(e.ver) && e.reply.value[Hdr(e.ver)] as int == v && 4 <= v <= 13
    && (OddCommand(e.ver, e.ezsp) || OddAnswer(e.ver, e.reply.value))
  }

  // What is adopted was exchanged, except from exactly the mistaken relays.
  lemma AdoptedWithoutExchange(e: Event, v: int)
    ensures Exchanged(e, v) ==> Adopts(e, v)
    ensures Adopts(e, v) && !Exchanged(e, v) <==> Mistaken(e, v)
  {
    if e.Relayed? && e.reply.Some? {
      var p := e.reply.value;
      assert forall i :: 0 <= i < |p| && i < MAX_FRAME ==> Take(p, MAX_FRAME)[i] == p[i];
    }
  }

  // In a whole log: every version taken was exchanged iff no relay in it is mistaken.
  lemma AllExchangedIff(log: seq<Event>)
    ensures (forall i, v :: 0 <= i < |log| && Adopts(log[i], v) ==> Exchanged(log[i], v)) <==>
            (forall i, v :: 0 <= i < |log| ==> !Mistaken(log[i], v))
  {
    forall i, v | 0 <= i < |log|
      ensures Adopts(log[i], v) && !Exchanged(log[i], v) <==> Mistaken(log[i], v)
    {
      AdoptedWithoutExchange(log[i], v);
    }
    hide Adopts, Exchanged, Mistaken;
  }

  // log[j] is the last relay a version was taken from, in this session, and that version is v.
  ghost predicate LastAdopted(log: seq<Event>, j: nat, v: int) {
    j < |log| && Adopts(log[j], v) && SameSession(log, j) && forall k, w :: j < k < |log| ==> !Adopts(log[k], w)
  }

  lemma {:induction false} AdoptedSince(log: seq<Event>) returns (j: nat)
    requires ViewOf(log).version.Some?
    ensures LastAdopted(log, j, ViewOf(log).version.value)
    decreases |log|
  {
    hide Agreed;
    var n := |log| - 1;
    if Adopts(log[n], ViewOf(log).version.value) {
      j := n;
    } else {
      j := AdoptedSince(log[..n]);
      assert forall w :: !Adopts(log[n], w);
      hide Adopts;
    }
  }

  // The client sent no odd command, and no odd answer came back to one with id byte 0.
  predicate Straight(e: Event) {
    e.Relayed? && !e.poll && |e.ezsp| > IdOff(e.ver) && e.ezsp[IdOff(e.ver)] == 0x00 ==>
      !OddCommand(e.ver, e.ezsp) && (e.reply.Some? ==> !OddAnswer(e.ver, e.reply.value))
  }

  lemma StraightAdopts(e: Event, v: int)
    requires Adopts(e, v) && Straight(e)
    ensures Exchanged(e, v)
  {
    AdoptedWithoutExchange(e, v);
  }

  // Rule 2: a callback is polled only after a version was taken in this session, and in the
  // layout of the last one taken. It was exchanged unless that relay is mistaken; so always,
  // if relays are straight.
  lemma NoPollBeforeVersion(env: Env, n: Ncp, steps: seq<Iteration>, i: nat) returns (j: nat)
    requires i < |RunLoop(env, n, steps).log|
    requires RunLoop(env, n, steps).log[i].Relayed? && RunLoop(env, n, steps).log[i].poll
    ensures var log := RunLoop(env, n, steps).log;
            && LastAdopted(log[..i], j, log[i].ver)
            && (exists sn: byte :: log[i].ezsp == PollFrame(log[i].ver, sn))
            && (Exchanged(log[j], log[i].ver) <==> !Mistaken(log[j], log[i].ver))
            && (Straight(log[j]) ==> Exchanged(log[j], log[i].ver))
  {
    hide Exchanged, Mistaken, Straight, Agreed;
    var log := RunLoop(env, n, steps).log;
    RunCalm(env, n, steps);
    LawfulAt(log, i);
    j := AdoptedSince(log[..i]);
    AdoptedWithoutExchange(log[j], log[i].ver);
    if Straight(log[j]) {
      StraightAdopts(log[j], log[i].ver);
    }
  }

  // In every state the version in force is 4 until one is taken, then the last one taken, in
  // 4..13; and it was exchanged unless that relay is mistaken.
  lemma NegotiationState(env: Env, n: Ncp, steps: seq<Iteration>) returns (j: nat)
    ensures var st := RunLoop(env, n, steps);
            && (!st.negotiated ==> st.ver == 4)
            && (st.negotiated ==>
                  && 4 <= st.ver <= 13 && LastAdopted(st.log, j, st.ver)
                  && (Exchanged(st.log[j], st.ver) <==> !Mistaken(st.log[j], st.ver))
                  && (Straight(st.log[j]) ==> Exchanged(st.log[j], st.ver)))
  {
    hide Exchanged, Mistaken, Straight, Agreed;
    var st := RunLoop(env, n, steps);
    RunCalm(env, n, steps);
    j := 0;
    if st.negotiated {
      j := AdoptedSince(st.log);
      AdoptedWithoutExchange(st.log[j], st.ver);
      if Straight(st.log[j]) {
        StraightAdopts(st.log[j], st.ver);
      }
    }
  }

  // A frame of the client with id byte 0 in the layout of version v.
  predicate LooksLikeVersion(e: Event, v: int) {
    e.Relayed? && !e.poll && |e.ezsp| > IdOff(v) && e.ezsp[IdOff(v)] == 0x00
  }

  lemma AdoptedNow(v: View, e: Event, w: int)
    requires Adopts(e, w)
    ensures Observe(v, e).version == Some(w)
  {
    hide Agreed;
  }

  lemma VersionStays(v: View, e: Event, w: int)
    requires Obeys(v, e) && v.version == Some(w) && !e.Connected? && !e.NcpReset? && !LooksLikeVersion(e, w)
    ensures Observe(v, e).version == Some(w) && (e.Relayed? ==> e.ver == w)
  {
    hide KindOf, SentObeys, Mask, PollFrame, Take;
  }

  lemma SameSessionStep(log: seq<Event>, j: nat)
    requires j < |log| - 1 && SameSession(log, j)
    ensures SameSession(log[..|log| - 1], j)
    ensures !log[|log| - 1].Connected? && !log[|log| - 1].NcpReset?
  {
  }

  // Once a version is taken, it stays in force and every relay uses its layout, for as long as
  // the session lasts and the client sends no other frame with id byte 0 in that layout.
  lemma {:induction false} VersionKept(log: seq<Event>, j: nat, v: int)
    requires Lawful(log) && j < |log| && Adopts(log[j], v) && SameSession(log, j)
    requires forall k :: j < k < |log| ==> !LooksLikeVersion(log[k], v)
    ensures ViewOf(log).version == Some(v)
    ensures forall k :: j < k < |log| && log[k].Relayed? ==> log[k].ver == v
    decreases |log|
  {
    hide *;
    var n := |log| - 1;
    ObeysAt(log, n);
    if j == n {
      AdoptedNow(ViewOf(log[..n]), log[n], v);
    } else {
      LawfulAt(log, n);
      SameSessionStep(log, j);
      VersionKept(log[..n], j, v);
      VersionStays(ViewOf(log[..n]), log[n], v);
    }
  }

  // ----- Numbers -----

  // The i-th DATA frame of a session carries number i modulo 8, and with every ACK the number
  // after the last host frame accepted.
  lemma FramesNumbered(env: Env, n: Ncp, steps: seq<Iteration>, i: nat)
    requires i < |RunLoop(env, n, steps).log| && RunLoop(env, n, steps).log[i].Sent?
    ensures var log := RunLoop(env, n, steps).log;
            var f, v := log[i].frame, ViewOf(log[..i]);
            && (KindOf(f[0]) == Data ==>
                  FrmOf(f[0]) == |v.data| % WINDOW && AckOf(f[0]) == v.next && 2 <= |f| <= 140)
            && (KindOf(f[0]) == DataAgain ==> exists k :: 0 <= k < |v.data| && f == Again(v.data[k]))
            && (KindOf(f[0]) == Ack ==> f == [AckCtrl(v.next)])
            && (KindOf(f[0]) !in {Data, DataAgain, Ack} ==> f == RSTACK)
  {
    hide RunLoop, Lawful, ViewOf, FrmOf, AckCtrl, KindOf, AckOf;
    RunLawful(env, n, steps);
    LawfulAt(RunLoop(env, n, steps).log, i);
  }

  // An event that settles which number is expected next.
  predicate Renumbers(e: Event) { e.Accepted? || e.Connected? || e.NcpReset? }

  // The number expected next: one after the last host frame accepted, or 0 when the session
  // began after that, and 0 when there was neither.
  lemma {:induction false} NextIs(log: seq<Event>, j: nat)
    requires j <= |log| && forall k :: j <= k < |log| ==> !Renumbers(log[k])
    requires j > 0 ==> Renumbers(log[j - 1])
    ensures ViewOf(log).next ==
            if j > 0 && log[j - 1].Accepted? then (FrmOf(log[j - 1].frame[0]) + 1) % WINDOW else 0
    decreases |log|
  {
    hide FrmOf, KindOf;
    if j < |log| {
      NextIs(log[..|log| - 1], j);
    }
  }

  // While an acknowledgement is owed nothing else obeys, and then nothing but the relay.
  lemma OnlyTheOwed(v: View, f: Body, e: Event)
    requires Obeys(v, e)
    ensures v.owed == AckOwed(f) ==> e == Sent([AckCtrl(v.next)]) && Observe(v, e).owed == RelayOwed(f)
    ensures v.owed == RelayOwed(f) ==> e.Relayed? && !e.poll && e.ezsp == Mask(f[1..])
  {
    hide FrmOf, AckOf, Mask, AckCtrl, KindOf, PollFrame;
    RstackKind();
  }

  lemma StillOwed(v: View, f: Body)
    ensures Observe(v, Accepted(f)).owed == AckOwed(f)
    ensures Observe(v, Accepted(f)).next == (FrmOf(f[0]) + 1) % WINDOW
  {
  }

  lemma OwedMeans(log: seq<Event>, i: nat)
    requires Lawful(log) && i < |log| && log[i].Accepted?
    requires ViewOf(log).owed == Nothing
    ensures i + 2 < |log| && log[i + 1] == Sent([AckCtrl((FrmOf(log[i].frame[0]) + 1) % WINDOW)])
    ensures log[i + 2].Relayed? && !log[i + 2].poll && log[i + 2].ezsp == Mask(log[i].frame[1..])
  {
    hide *;
    var f := log[i].frame;
    ObeysAt(log, i);
    StillOwed(ViewOf(log[..i]), f);
    assert ViewOf(log[..i + 1]).owed == AckOwed(f);
    ObeysAt(log, i + 1);
    OnlyTheOwed(ViewOf(log[..i + 1]), f, log[i + 1]);
    assert ViewOf(log[..i + 2]).owed == RelayOwed(f);
    ObeysAt(log, i + 2);
    OnlyTheOwed(ViewOf(log[..i + 2]), f, log[i + 2]);
  }

  // Every frame accepted is acknowledged at once, with the number after its own, and then
  // relayed, unmasked and whole, before anything else happens.
  lemma AckThenRelay(env: Env, n: Ncp, steps: seq<Iteration>, i: nat)
    requires i < |RunLoop(env, n, steps).log| && RunLoop(env, n, steps).log[i].Accepted?
    ensures var log := RunLoop(env, n, steps).log;
            i + 2 < |log| && log[i + 1] == Sent([AckCtrl((FrmOf(log[i].frame[0]) + 1) % WINDOW)]) &&
            log[i + 2].Relayed? && !log[i + 2].poll && log[i + 2].ezsp == Mask(log[i].frame[1..])
  {
    hide RunLoop, Lawful, ViewOf, FrmOf, AckCtrl, Mask;
    RunLawful(env, n, steps);
    OwedMeans(RunLoop(env, n, steps).log, i);
  }

  function DataFrames(log: seq<Event>): nat {
    if log == [] then 0
    else
      var e := log[|log| - 1];
      DataFrames(log[..|log| - 1]) + if e.Sent? && IsData(e.frame[0]) then 1 else 0
  }

  lemma DataFramesGrow(log: seq<Event>, e: Event)
    ensures DataFrames(log + [e]) == DataFrames(log) + if e.Sent? && IsData(e.frame[0]) then 1 else 0
  {
    assert (log + [e])[..|log + [e]| - 1] == log;
  }

  lemma SendDataCounts(st: State, payload: seq<byte>)
    ensures DataFrames(SendData(st, payload).log) <= DataFrames(st.log) + 1
  {
    hide DataBody, KindOf;
    if |payload| + 1 <= MAX_FRAME {
      DataFramesGrow(st.log, Sent(DataBody(|st.hist| % WINDOW, st.ack, payload)));
    }
  }

  lemma DrainStepCounts(env: Env, st: State)
    ensures DataFrames(DrainStep(env, st).0.log) <= DataFrames(st.log) + 1
  {
    hide Ezsp.Ask, PollFrame, SendData, KindOf, DataFrames;
    var st0 := st.(hintPos := st.hintPos + 1);
    var (r, m) := Ezsp.Ask(env.fw, env.wait, st.ncp, PollFrame(st.ver, st.cbseq));
    DataFramesGrow(st.log, Relayed(true, st.ver, PollFrame(st.ver, st.cbseq), r));
    var (st1, got) := RelayCallback(env, st0);
    if got.Some? {
      SendDataCounts(st1, got.value);
    }
  }

  lemma {:induction false} DrainLoopCounts(env: Env, st: State, guard: nat)
    ensures DataFrames(DrainLoop(env, st, guard).log) <= DataFrames(st.log) + guard
    decreases guard
  {
    hide DrainStep, DataFrames, DrainLoop;
    DrainUnfold(env, st, guard);
    if guard > 0 {
      DrainStepCounts(env, st);
      var (st1, more) := DrainStep(env, st);
      if more {
        DrainLoopCounts(env, st1, guard - 1);
      }
    }
  }

  // One accepted frame brings at most 33 DATA frames: its reply and 32 callbacks.
  lemma AcceptedBringsAtMost33(env: Env, st: State, f: Body)
    requires 2 <= |f| <= 141
    ensures DataFrames(HandleData(env, st, f).log) <= DataFrames(st.log) + 33
  {
    hide Ezsp.Ask, Mask, SendData, KindOf, FrmOf, AckCtrl, DrainLoop, Agreed, IsData, DataFrames;
    var ezsp := Mask(f[1..]);
    var st0 := Log(st.(ack := (FrmOf(f[0]) + 1) % WINDOW), Accepted(f));
    DataFramesGrow(st.log, Accepted(f));
    AckIsNotData(st0.ack);
    DataFramesGrow(st0.log, Sent([AckCtrl(st0.ack)]));
    var st1 := SendAck(st0);
    var (r, m) := Ezsp.Ask(env.fw, env.wait, st1.ncp, ezsp);
    DataFramesGrow(st1.log, Relayed(false, st1.ver, ezsp, r));
    var (st2, got) := Relay(env, st1, false, ezsp);
    if got.Some? && got.value != [] {
      var st3 := Adopt(st2, Agreed(st2.ver, ezsp, got.value));
      SendDataCounts(st3, got.value);
      DrainLoopCounts(env, SendData(st3, got.value), DRAIN_LIMIT);
    }
  }

  lemma AckIsNotData(ack: num3)
    ensures !IsData(AckCtrl(ack))
  {
    CtrlFields(0, ack);
  }

  // ----- The SPI side of a run -----

  lemma {:induction false} DrainLoopSafe(env: Env, st: State, guard: nat)
    requires Prompt(env.fw, env.wait) && !st.ncp.aborted
    ensures !DrainLoop(env, st, guard).ncp.aborted
    decreases guard
  {
    hide Ezsp.Ask, PollFrame, Mask, DataCtrl, DrainLoop;
    DrainUnfold(env, st, guard);
    if guard > 0 {
      AskVerbatim(env.fw, env.wait, st.ncp, PollFrame(st.ver, st.cbseq));
      var (st1, more) := DrainStep(env, st);
      if more {
        DrainLoopSafe(env, st1, guard - 1);
      }
    }
  }

  lemma DrainSafe(env: Env, st: State)
    requires Prompt(env.fw, env.wait) && !st.ncp.aborted
    ensures !Drain(env, st).ncp.aborted
  {
    hide DrainLoop;
    DrainLoopSafe(env, st, DRAIN_LIMIT);
  }

  lemma {:induction false} ResendSafe(st: State, bodies: seq<Body>)
    ensures Resend(st, bodies).ncp == st.ncp
    decreases |bodies|
  {
    if bodies != [] {
      ResendSafe(st, bodies[..|bodies| - 1]);
    }
  }

  lemma AnswerSafe(st: State, agreed: Option<int>, payload: seq<byte>)
    ensures SendData(Adopt(st, agreed), payload).ncp == st.ncp
  {
    hide DataBody;
  }

  lemma HandleDataSafe(env: Env, st: State, f: Body)
    requires 2 <= |f| <= 141
    requires Prompt(env.fw, env.wait) && !st.ncp.aborted
    ensures !HandleData(env, st, f).ncp.aborted
  {
    hide Ezsp.Ask, Mask, Drain, FrmOf, Agreed, Adopt, SendData;
    var ezsp := Mask(f[1..]);
    var st1 := SendAck(Log(st.(ack := (FrmOf(f[0]) + 1) % WINDOW), Accepted(f)));
    AskVerbatim(env.fw, env.wait, st1.ncp, ezsp);
    var (st2, r) := Relay(env, st1, false, ezsp);
    if r.Some? {
      AnswerSafe(st2, Agreed(st2.ver, ezsp, r.value), r.value);
      DrainSafe(env, SendData(Adopt(st2, Agreed(st2.ver, ezsp, r.value)), r.value));
    }
  }

  lemma RetransmitSafe(st: State, from: num3)
    ensures Retransmit(st, from).ncp == st.ncp
  {
    hide Resend;
    ResendSafe(st, st.hist[|st.hist| - Back(|st.hist|, from)..]);
  }

  lemma HandleSafe(env: Env, st: State, f: Body)
    requires Prompt(env.fw, env.wait) && !st.ncp.aborted
    ensures !Handle(env, st, f).ncp.aborted
  {
    hide KindOf, HandleData, Retransmit, AckOf;
    RetransmitSafe(st, AckOf(f[0]));
    if 2 <= |f| <= 141 {
      HandleDataSafe(env, st, f);
    }
  }

  lemma {:induction false} FeedSafe(env: Env, st: State, bytes: seq<byte>)
    requires Prompt(env.fw, env.wait) && !st.ncp.aborted
    ensures !Feed(env, st, bytes).ncp.aborted
    decreases |bytes|
  {
    if bytes != [] {
      hide Emitted, Handle;
      var n := |bytes| - 1;
      FeedSafe(env, st, bytes[..n]);
      var st1 := Feed(env, st, bytes[..n]);
      var out := Emitted(st1.line, bytes[n]);
      if out != [] {
        HandleSafe(env, st1, out[0]);
      }
    }
  }

  // Against a co-processor that answers in time, no run of the bridge, whatever clients do,
  // ever leaves a transaction aborted.
  lemma {:induction false} RunNeverAborts(env: Env, n: Ncp, steps: seq<Iteration>)
    requires Prompt(env.fw, env.wait) && !n.aborted
    ensures !RunLoop(env, n, steps).ncp.aborted
    decreases |steps|
  {
    if steps != [] {
      hide Feed, Drain;
      var init, last := steps[..|steps| - 1], steps[|steps| - 1];
      RunNeverAborts(env, n, init);
      var st := RunLoop(env, n, init);
      var st1 := if last.arrival then Accept(st) else st;
      DrainSafe(env, st1);
      DrainSafe(env, Drop(st1));
      if last.act.Readable? {
        FeedSafe(env, st1, last.act.bytes);
        DrainSafe(env, Feed(env, st1, last.act.bytes));
      }
    }
  }
}
