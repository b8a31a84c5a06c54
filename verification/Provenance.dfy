// What the co-processor heard on a run, and what it said, accounted for by the log: every
// command it heard was relayed, and every EZSP frame it said was taken up, in order.

module Provenance {
  import opened Bytes
  import opened Ash
  import opened Whitening
  import opened Coprocessor
  import opened Spi
  import opened Ezsp
  import opened BridgeModel
  import opened BridgeRuns

  // ----- One relay, in terms of what the co-processor answers -----

  predicate InTime(fw: Firmware, wait: nat, heard: seq<Heard>) {
    fw(heard).idles < wait
  }

  predicate NotifiesReset(fw: Firmware, wait: nat, heard: seq<Heard>) {
    InTime(fw, wait, heard) && fw(heard).reply.Error? && fw(heard).reply.code == ERR_RESET
  }

  // A frame is heard once, or twice when the first answer is the reset notification. An answer
  // that is late leaves the transaction aborted.
  function Hears(fw: Firmware, wait: nat, n: Ncp, frame: seq<byte>): Ncp
    requires |frame| <= 255
  {
    var cmd := Command(Wrap(frame));
    var once := n.heard + [cmd];
    var h := if !n.aborted && NotifiesReset(fw, wait, once) then once + [cmd] else once;
    Ncp(h, !InTime(fw, wait, h))
  }

  // An EZSP frame comes back when the answer to the last sending is one, in time, and is not
  // displaced by the report of an earlier abort.
  function Says(fw: Firmware, wait: nat, n: Ncp, frame: seq<byte>): Option<seq<byte>>
    requires |frame| <= 255
  {
    var h := Hears(fw, wait, n, frame).heard;
    if !n.aborted && InTime(fw, wait, h) && fw(h).reply.Ezsp? then Some(fw(h).reply.payload) else None
  }

  lemma AskExplained(fw: Firmware, wait: nat, n: Ncp, frame: seq<byte>)
    requires |frame| <= 255
    ensures Ezsp.Ask(fw, wait, n, frame) == (Says(fw, wait, n, frame), Hears(fw, wait, n, frame))
  {
    var cmd := Wrap(frame);
    OneSending(fw, wait, n, cmd);
    OneSending(fw, wait, Ncp(HeardCommand(n, cmd), false), cmd);
    hide Wrap, Classify, Transact, NextAnswer;
  }

  // One transaction: what is made of it, and when it is the reset notification.
  lemma OneSending(fw: Firmware, wait: nat, n: Ncp, cmd: seq<byte>)
    ensures var (rx, m) := Transact(fw, wait, ROOM, n, cmd);
            var h := n.heard + [Command(cmd)];
            && m == Ncp(h, !InTime(fw, wait, h))
            && (Classify(rx) == RspReset <==> !n.aborted && NotifiesReset(fw, wait, h))
            && EzspPart(rx) ==
               if !n.aborted && InTime(fw, wait, h) && fw(h).reply.Ezsp? then Some(fw(h).reply.payload) else None
  {
    var a := NextAnswer(fw, n, cmd);
    if a.idles < wait {
      TransactExact(fw, wait, ROOM, n, cmd);
      ClassOfReply(a.reply);
      var rx := ReplyBytes(a.reply);
      if a.reply.Ezsp? {
        assert rx[2..|rx| - 1] == a.reply.payload;
      }
    }
  }

  // ----- A whole log -----

  function Onward(fw: Firmware, wait: nat, n: Ncp, e: Event): Ncp {
    match e
    case NcpReset => AfterReset(n)
    case Relayed(_, _, frame, _) => if |frame| <= 255 then Hears(fw, wait, n, frame) else n
    case _ => n
  }

  // The co-processor after the events of a log: one HardReset for each reset, one command or
  // two for each relay.
  function Course(fw: Firmware, wait: nat, n: Ncp, log: seq<Event>): Ncp {
    if log == [] then n else Onward(fw, wait, Course(fw, wait, n, log[..|log| - 1]), log[|log| - 1])
  }

  predicate True(env: Env, n: Ncp, e: Event) {
    e.Relayed? ==> |e.ezsp| <= 255 && e.reply == Says(env.fw, env.wait, n, e.ezsp) && (e.poll ==> env.hasHint)
  }

  ghost predicate Truthful(env: Env, n: Ncp, log: seq<Event>) {
    log == [] || (Truthful(env, n, log[..|log| - 1]) &&
                  True(env, Course(env.fw, env.wait, n, log[..|log| - 1]), log[|log| - 1]))
  }

  // How often callbacks were polled, and the sequence number that follows n of them.
  function Polls(log: seq<Event>): nat {
    if log == [] then 0
    else
      var e := log[|log| - 1];
      Polls(log[..|log| - 1]) + if e.Relayed? && e.poll then 1 else 0
  }

  function SeqOf(n: nat): byte {
    if n == 0 then 0 else Next(SeqOf(n - 1))
  }

  predicate InSequence(n: nat, e: Event) {
    e.Relayed? && e.poll ==> e.ezsp == PollFrame(e.ver, SeqOf(n))
  }

  ghost predicate Sequenced(log: seq<Event>) {
    log == [] || (Sequenced(log[..|log| - 1]) && InSequence(Polls(log[..|log| - 1]), log[|log| - 1]))
  }

  // The co-processor is where the log leaves it, each reply in the log is what it said, and the
  // polls are numbered.
  ghost predicate Accounted(env: Env, n: Ncp, st: State) {
    && st.ncp == Course(env.fw, env.wait, n, st.log) && Truthful(env, n, st.log)
    && st.cbseq == SeqOf(Polls(st.log)) && Sequenced(st.log)
  }

  lemma OneMore(env: Env, n: Ncp, log: seq<Event>, e: Event)
    ensures Course(env.fw, env.wait, n, log + [e]) == Onward(env.fw, env.wait, Course(env.fw, env.wait, n, log), e)
    ensures Truthful(env, n, log + [e]) <==>
            Truthful(env, n, log) && True(env, Course(env.fw, env.wait, n, log), e)
    ensures Polls(log + [e]) == Polls(log) + if e.Relayed? && e.poll then 1 else 0
    ensures Sequenced(log + [e]) <==> Sequenced(log) && InSequence(Polls(log), e)
  {
    assert (log + [e])[..|log + [e]| - 1] == log;
  }

  // ----- Each step keeps the account -----

  // At most one event, and none that concerns the co-processor.
  predicate Quiet(st: State, st1: State) {
    st1.ncp == st.ncp && st1.cbseq == st.cbseq &&
    (st1.log == st.log ||
     (|st1.log| == |st.log| + 1 && st1.log == st.log + [st1.log[|st.log|]] &&
      !st1.log[|st.log|].Relayed? && !st1.log[|st.log|].NcpReset?))
  }

  lemma QuietKeeps(env: Env, n: Ncp, st: State, st1: State)
    requires Accounted(env, n, st) && Quiet(st, st1)
    ensures Accounted(env, n, st1)
  {
    hide Course, Truthful, Sequenced, Polls, SeqOf, PollFrame;
    if st1.log != st.log {
      OneMore(env, n, st.log, st1.log[|st.log|]);
    }
  }

  lemma RelayKeeps(env: Env, n: Ncp, st: State, frame: seq<byte>)
    requires Accounted(env, n, st) && 1 <= |frame| <= 145
    ensures Accounted(env, n, Relay(env, st, false, frame).0)
  {
    hide Ezsp.Ask, Says, Hears, Course, Truthful, Sequenced, Polls, SeqOf, PollFrame;
    AskExplained(env.fw, env.wait, st.ncp, frame);
    OneMore(env, n, st.log, Relayed(false, st.ver, frame, Says(env.fw, env.wait, st.ncp, frame)));
  }

  lemma PollKeeps(env: Env, n: Ncp, st: State)
    requires Accounted(env, n, st) && env.hasHint
    ensures Accounted(env, n, Relay(env, st.(cbseq := Next(st.cbseq)), true, PollFrame(st.ver, st.cbseq)).0)
  {
    var frame := PollFrame(st.ver, st.cbseq);
    SeqOn(Polls(st.log));
    hide Ezsp.Ask, Says, Hears, Course, Truthful, Sequenced, Polls, SeqOf, PollFrame, Next;
    AskExplained(env.fw, env.wait, st.ncp, frame);
    OneMore(env, n, st.log, Relayed(true, st.ver, frame, Says(env.fw, env.wait, st.ncp, frame)));
  }

  lemma SeqOn(n: nat)
    ensures SeqOf(n + 1) == Next(SeqOf(n))
  {
  }

  lemma SendDataKeeps(env: Env, n: Ncp, st: State, payload: seq<byte>)
    requires Accounted(env, n, st)
    ensures Accounted(env, n, SendData(st, payload))
  {
    hide DataBody, Accounted;
    QuietKeeps(env, n, st, SendData(st, payload));
  }

  lemma DrainStepAccounted(env: Env, n: Ncp, st: State)
    requires Accounted(env, n, st) && env.hasHint
    ensures Accounted(env, n, DrainStep(env, st).0)
  {
    hide Accounted, PollFrame, SendData, Relay;
    var st0 := st.(hintPos := st.hintPos + 1);
    QuietKeeps(env, n, st, st0);
    if env.asserted(st.hintPos) {
      var st1 := st0.(cbseq := Next(st0.cbseq));
      var frame := PollFrame(st0.ver, st0.cbseq);
      PollKeeps(env, n, st0);
      var got := RelayCallback(env, st0).1;
      if got.Some? {
        SendDataKeeps(env, n, Relay(env, st1, true, frame).0, got.value);
      }
    }
  }

  lemma {:induction false} DrainLoopAccounted(env: Env, n: Ncp, st: State, guard: nat)
    requires Accounted(env, n, st) && env.hasHint
    ensures Accounted(env, n, DrainLoop(env, st, guard))
    decreases guard
  {
    hide Accounted, DrainStep, DrainLoop;
    DrainUnfold(env, st, guard);
    if guard > 0 {
      DrainStepAccounted(env, n, st);
      var (st1, more) := DrainStep(env, st);
      if more {
        DrainLoopAccounted(env, n, st1, guard - 1);
      }
    }
  }

  lemma DrainAccounted(env: Env, n: Ncp, st: State)
    requires Accounted(env, n, st)
    ensures Accounted(env, n, Drain(env, st))
  {
    hide Accounted, DrainLoop;
    if env.hasHint {
      DrainLoopAccounted(env, n, st, DRAIN_LIMIT);
    }
  }

  lemma HandleDataAccounted(env: Env, n: Ncp, st: State, f: Body)
    requires Accounted(env, n, st) && 2 <= |f| <= 141
    ensures Accounted(env, n, HandleData(env, st, f))
  {
    hide Accounted, Mask, Relay, SendData, Drain, FrmOf, Agreed, AckCtrl;
    var ezsp := Mask(f[1..]);
    var a := Log(st.(ack := (FrmOf(f[0]) + 1) % WINDOW), Accepted(f));
    QuietKeeps(env, n, st, a);
    var b := SendAck(a);
    QuietKeeps(env, n, a, b);
    RelayKeeps(env, n, b, ezsp);
    var (c, r) := Relay(env, b, false, ezsp);
    if r.Some? && r.value != [] {
      var d := Adopt(c, Agreed(c.ver, ezsp, r.value));
      QuietKeeps(env, n, c, d);
      SendDataKeeps(env, n, d, r.value);
      DrainAccounted(env, n, SendData(d, r.value));
    }
  }

  lemma {:induction false} ResendAccounted(env: Env, n: Ncp, st: State, bodies: seq<Body>)
    requires Accounted(env, n, st)
    ensures Accounted(env, n, Resend(st, bodies))
    decreases |bodies|
  {
    if bodies != [] {
      hide Accounted, Again;
      var init := Resend(st, bodies[..|bodies| - 1]);
      ResendAccounted(env, n, st, bodies[..|bodies| - 1]);
      QuietKeeps(env, n, init, Send(init, Again(bodies[|bodies| - 1])));
    }
  }

  lemma RetransmitAccounted(env: Env, n: Ncp, st: State, from: num3)
    requires Accounted(env, n, st)
    ensures Accounted(env, n, Retransmit(st, from))
  {
    hide Accounted, Resend;
    ResendAccounted(env, n, st, st.hist[|st.hist| - Back(|st.hist|, from)..]);
  }

  lemma ResetAccounted(env: Env, n: Ncp, st: State)
    requires Accounted(env, n, st)
    ensures Accounted(env, n, Reset(st))
  {
    var a := Log(st.(ncp := AfterReset(st.ncp), hist := [], ack := 0, ver := 4), NcpReset);
    OneMore(env, n, st.log, NcpReset);
    QuietKeeps(env, n, a, Reset(st));
  }

  lemma HandleAccounted(env: Env, n: Ncp, st: State, f: Body)
    requires Accounted(env, n, st)
    ensures Accounted(env, n, Handle(env, st, f))
  {
    hide Accounted, KindOf, HandleData, Retransmit, Reset, AckOf;
    ResetAccounted(env, n, st);
    RetransmitAccounted(env, n, st, AckOf(f[0]));
    if 2 <= |f| <= 141 {
      HandleDataAccounted(env, n, st, f);
    }
  }

  lemma {:induction false} FeedAccounted(env: Env, n: Ncp, st: State, bytes: seq<byte>)
    requires Accounted(env, n, st)
    ensures Accounted(env, n, Feed(env, st, bytes))
    decreases |bytes|
  {
    if bytes != [] {
      hide Accounted, Emitted, Handle, Step;
      var k := |bytes| - 1;
      var a, c := Feed(env, st, bytes[..k]), bytes[k];
      FeedAccounted(env, n, st, bytes[..k]);
      var out := Emitted(a.line, c);
      var b := if out == [] then a else Handle(env, a, out[0]);
      if out != [] {
        HandleAccounted(env, n, a, out[0]);
      }
      QuietKeeps(env, n, b, b.(line := Step(a.line, c)));
    }
  }

  lemma DropAccounted(env: Env, n: Ncp, st: State)
    requires Accounted(env, n, st)
    ensures Accounted(env, n, Drop(st))
  {
    QuietKeeps(env, n, st, Drop(st));
  }

  lemma AcceptAccounted(env: Env, n: Ncp, st: State)
    requires Accounted(env, n, st)
    ensures Accounted(env, n, Accept(st))
  {
    hide Accounted;
    DropAccounted(env, n, st);
    QuietKeeps(env, n, Drop(st), Accept(st));
  }

  lemma TurnAccounted(env: Env, n: Ncp, st: State, arrival: bool, act: Activity)
    requires Accounted(env, n, st)
    ensures Accounted(env, n, Turn(env, st, arrival, act))
  {
    hide Accounted, Feed, Drain, Drop, Accept;
    AcceptAccounted(env, n, st);
    var st1 := if arrival then Accept(st) else st;
    DropAccounted(env, n, st1);
    DrainAccounted(env, n, st1);
    DrainAccounted(env, n, Drop(st1));
    if act.Readable? {
      FeedAccounted(env, n, st1, act.bytes);
      DrainAccounted(env, n, Feed(env, st1, act.bytes));
    }
  }

  // On every run: the co-processor heard exactly what the log accounts for, in that order, and
  // each reply in the log is what it said at that point.
  lemma {:induction false} RunAccounted(env: Env, n: Ncp, steps: seq<Iteration>)
    ensures Accounted(env, n, RunLoop(env, n, steps))
    decreases |steps|
  {
    if steps != [] {
      hide Accounted, Turn, Start;
      var init, last := steps[..|steps| - 1], steps[|steps| - 1];
      RunAccounted(env, n, init);
      TurnAccounted(env, n, RunLoop(env, n, init), last.arrival, last.act);
    }
  }

  // ----- Position by position -----

  lemma {:induction false} TruthfulAt(env: Env, n: Ncp, log: seq<Event>, i: nat)
    requires Truthful(env, n, log) && i < |log|
    ensures True(env, Course(env.fw, env.wait, n, log[..i]), log[i])
    decreases |log|
  {
    hide True, Course;
    if i < |log| - 1 {
      TruthfulAt(env, n, log[..|log| - 1], i);
      assert log[..|log| - 1][..i] == log[..i];
    }
  }

  lemma {:induction false} CourseGrows(fw: Firmware, wait: nat, n: Ncp, log: seq<Event>, i: nat)
    requires i <= |log|
    ensures Course(fw, wait, n, log[..i]).heard <= Course(fw, wait, n, log).heard
    decreases |log|
  {
    hide Wrap, InTime, NotifiesReset;
    if i < |log| {
      CourseGrows(fw, wait, n, log[..|log| - 1], i);
      assert log[..|log| - 1][..i] == log[..i];
    } else {
      assert log[..i] == log;
    }
  }

  // Every relay of a run: what the co-processor heard for it stands where the relays and resets
  // before it end, once, or twice after a reset notification; and a reply is in the log if and
  // only if the answer at that position was an EZSP frame that came in time and undisturbed.
  lemma RepliesSaid(env: Env, n: Ncp, steps: seq<Iteration>, i: nat)
    requires i < |RunLoop(env, n, steps).log| && RunLoop(env, n, steps).log[i].Relayed?
    ensures var st := RunLoop(env, n, steps);
            var fw, e := env.fw, st.log[i];
            var before, after := Course(fw, env.wait, n, st.log[..i]), Course(fw, env.wait, n, st.log[..i + 1]);
            && |e.ezsp| <= 255
            && var once := before.heard + [Command(Wrap(e.ezsp))];
            && after.heard <= st.ncp.heard
            && (if !before.aborted && NotifiesReset(fw, env.wait, once)
                then after.heard == once + [Command(Wrap(e.ezsp))]
                else after.heard == once)
            && (forall p :: e.reply == Some(p) <==>
                  !before.aborted && InTime(fw, env.wait, after.heard) && fw(after.heard).reply == Ezsp(p))
  {
    hide RunLoop, Truthful, Sequenced, Polls, SeqOf, Wrap;
    RunAccounted(env, n, steps);
    var log := RunLoop(env, n, steps).log;
    TruthfulAt(env, n, log, i);
    CourseGrows(env.fw, env.wait, n, log, i + 1);
    assert log[..i + 1][..|log[..i + 1]| - 1] == log[..i];
  }

  // Without nHOST_INT no callback is ever polled.
  lemma NoHintNoPoll(env: Env, n: Ncp, steps: seq<Iteration>, i: nat)
    requires !env.hasHint && i < |RunLoop(env, n, steps).log|
    ensures RunLoop(env, n, steps).log[i].Relayed? ==> !RunLoop(env, n, steps).log[i].poll
  {
    hide RunLoop, Truthful, Course, Says, Sequenced, Polls, SeqOf;
    RunAccounted(env, n, steps);
    TruthfulAt(env, n, RunLoop(env, n, steps).log, i);
  }

  // The co-processor reads a poll as the callback command, id 6, without parameters.
  lemma PollAsks(ver: int, sn: byte)
    ensures NcpParse(ver, Wrap(PollFrame(ver, sn))) == Some(Parsed(sn, 0x06, []))
  {
    HostFrameParses(ver, sn, EZSP_CALLBACK, []);
    hide NcpParse, Wrap, HostFrame;
  }

  lemma {:induction false} SeqCounts(n: nat)
    ensures SeqOf(n) as int == n % 256
  {
    if n > 0 {
      SeqOn(n - 1);
      hide *;
      SeqCounts(n - 1);
      SeqCountsOn(SeqOf(n - 1), n - 1);
    }
  }

  lemma SeqCountsOn(b: byte, n: nat)
    requires b as int == n % 256
    ensures Next(b) as int == (n + 1) % 256
  {
    NextCounts(b);
    NextModulo(n);
    hide Next;
  }

  lemma NextModulo(n: nat)
    ensures (n % 256 + 1) % 256 == (n + 1) % 256
  {
  }

  lemma {:induction false} SequencedAt(log: seq<Event>, i: nat)
    requires Sequenced(log) && i < |log|
    ensures InSequence(Polls(log[..i]), log[i])
    decreases |log|
  {
    hide InSequence, Polls;
    if i < |log| - 1 {
      SequencedAt(log[..|log| - 1], i);
      assert log[..|log| - 1][..i] == log[..i];
    }
  }

  // Every poll of every run is that command in the layout in force, and the polls of a run are
  // numbered 0, 1, 2, .. modulo 256.
  lemma PollsNumbered(env: Env, n: Ncp, steps: seq<Iteration>, i: nat)
    requires i < |RunLoop(env, n, steps).log|
    requires RunLoop(env, n, steps).log[i].Relayed? && RunLoop(env, n, steps).log[i].poll
    ensures var log := RunLoop(env, n, steps).log;
            && |log[i].ezsp| <= 255
            && var asked := NcpParse(log[i].ver, Wrap(log[i].ezsp));
            && asked.Some? && asked.value.id == 0x06 && asked.value.params == []
            && asked.value.sn as int == Polls(log[..i]) % 256
  {
    hide RunLoop, Truthful, Course, Sequenced, Polls, SeqOf, NcpParse, Wrap;
    RunAccounted(env, n, steps);
    var log := RunLoop(env, n, steps).log;
    SequencedAt(log, i);
    SeqCounts(Polls(log[..i]));
    PollAsks(log[i].ver, SeqOf(Polls(log[..i])));
  }

  // ----- From what was heard alone -----

  // Whether the transaction that ends h leaves the next one to report an abort. The first
  // start things were heard before, and aborted says how they ended.
  predicate Spoiled(fw: Firmware, wait: nat, start: nat, aborted: bool, h: seq<Heard>) {
    if |h| <= start then aborted else h[|h| - 1].Command? && !InTime(fw, wait, h)
  }

  // The EZSP frames the co-processor got across, read off what it heard after the first start.
  function Spoken(fw: Firmware, wait: nat, start: nat, aborted: bool, h: seq<Heard>): seq<seq<byte>> {
    if |h| <= start then []
    else
      var init := h[..|h| - 1];
      Spoken(fw, wait, start, aborted, init) +
      if h[|h| - 1].Command? && !Spoiled(fw, wait, start, aborted, init) && InTime(fw, wait, h) && fw(h).reply.Ezsp?
      then [fw(h).reply.payload] else []
  }

  // All replies in a log, in order.
  function Taken(log: seq<Event>): seq<seq<byte>> {
    if log == [] then []
    else
      var e := log[|log| - 1];
      Taken(log[..|log| - 1]) + if e.Relayed? && e.reply.Some? then [e.reply.value] else []
  }

  lemma SpokenOneMore(fw: Firmware, wait: nat, start: nat, aborted: bool, h: seq<Heard>, e: Heard)
    requires |h| >= start
    ensures Spoken(fw, wait, start, aborted, h + [e]) ==
            Spoken(fw, wait, start, aborted, h) +
            if e.Command? && !Spoiled(fw, wait, start, aborted, h) && InTime(fw, wait, h + [e]) &&
               fw(h + [e]).reply.Ezsp?
            then [fw(h + [e]).reply.payload] else []
  {
    assert (h + [e])[..|h + [e]| - 1] == h;
  }

  // One event: nothing is heard that the account does not have, and nothing said is lost.
  lemma EventSpoken(env: Env, n: Ncp, start: nat, aborted: bool, e: Event)
    requires |n.heard| >= start && n.aborted == Spoiled(env.fw, env.wait, start, aborted, n.heard)
    requires True(env, n, e)
    ensures var m := Onward(env.fw, env.wait, n, e);
            && |m.heard| >= start && m.aborted == Spoiled(env.fw, env.wait, start, aborted, m.heard)
            && Spoken(env.fw, env.wait, start, aborted, m.heard) ==
               Spoken(env.fw, env.wait, start, aborted, n.heard) +
               if e.Relayed? && e.reply.Some? then [e.reply.value] else []
  {
    hide Wrap, Spoken;
    var fw, wait, s := env.fw, env.wait, Spoken(env.fw, env.wait, start, aborted, n.heard);
    assert s + [] == s;
    if e.NcpReset? {
      SpokenOneMore(fw, wait, start, aborted, n.heard, HardReset);
    } else if e.Relayed? {
      var cmd := Command(Wrap(e.ezsp));
      var once := n.heard + [cmd];
      SpokenOneMore(fw, wait, start, aborted, n.heard, cmd);
      if !n.aborted && NotifiesReset(fw, wait, once) {
        SpokenOneMore(fw, wait, start, aborted, once, cmd);
      }
    }
  }

  // From any position of the log on: what was said since then is what was taken since then.
  lemma {:induction false} SpokenTaken(env: Env, n: Ncp, log: seq<Event>, i: nat)
    requires Truthful(env, n, log) && i <= |log|
    ensures var c, m := Course(env.fw, env.wait, n, log[..i]), Course(env.fw, env.wait, n, log);
            && |m.heard| >= |c.heard|
            && m.aborted == Spoiled(env.fw, env.wait, |c.heard|, c.aborted, m.heard)
            && Spoken(env.fw, env.wait, |c.heard|, c.aborted, m.heard) == Taken(log[i..])
    decreases |log|
  {
    hide Onward, True, Spoiled, Spoken;
    var c := Course(env.fw, env.wait, n, log[..i]);
    if i == |log| {
      assert log[..i] == log;
      NothingYet(env.fw, env.wait, c);
    } else {
      var init := log[..|log| - 1];
      assert init[..i] == log[..i];
      SpokenTaken(env, n, init, i);
      EventSpoken(env, Course(env.fw, env.wait, n, init), |c.heard|, c.aborted, log[|log| - 1]);
      assert log[i..][..|log[i..]| - 1] == init[i..];
    }
  }

  lemma NothingYet(fw: Firmware, wait: nat, n: Ncp)
    ensures Spoiled(fw, wait, |n.heard|, n.aborted, n.heard) == n.aborted
    ensures Spoken(fw, wait, |n.heard|, n.aborted, n.heard) == []
  {
  }

  // On every run the replies taken up are exactly the EZSP frames the co-processor got across,
  // in order: none is invented, lost, repeated or out of place.
  lemma AllSaidIsTaken(env: Env, n: Ncp, steps: seq<Iteration>)
    ensures var st := RunLoop(env, n, steps);
            Taken(st.log) == Spoken(env.fw, env.wait, |n.heard|, n.aborted, st.ncp.heard)
  {
    hide RunLoop, Truthful, Course, Spoken, Taken;
    RunAccounted(env, n, steps);
    var log := RunLoop(env, n, steps).log;
    SpokenTaken(env, n, log, 0);
    assert log[..0] == [] && log[0..] == log;
    AtStart(env, n);
  }

  lemma AtStart(env: Env, n: Ncp)
    ensures Course(env.fw, env.wait, n, []) == n
  {
  }
}
