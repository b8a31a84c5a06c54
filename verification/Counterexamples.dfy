// Two runs on which the one byte test of the frame id goes wrong, from the very start of the
// loop: a version is taken that nobody agreed on, and a callback is lost.

module Counterexamples {
  import opened Bytes
  import Crc
  import opened Ash
  import opened Whitening
  import opened Coprocessor
  import opened Spi
  import opened Ezsp
  import opened BridgeModel
  import opened BridgeRuns
  import opened Provenance
  import opened Transparency
  import opened Recovery
  import opened Handshake

  // A client that has just connected, and sends RST.
  function Greeting(): seq<Iteration> {
    [Iteration(true, Silent), Iteration(false, Readable(Encode([CTRL_RST])))]
  }

  lemma Greeted(env: Env, n: Ncp)
    ensures var st := RunLoop(env, n, Greeting());
            && st.connected && st.ready && !st.negotiated && st.ver == 4 && st.line == IDLE && st.hist == []
            && st.ncp == AfterReset(n) && st.hintPos == 0 && st.cbseq == 0
            && (forall i :: 0 <= i < |st.log| ==> !st.log[i].Relayed?)
  {
    hide Encode, KindOf, Feed, DrainLoop;
    var steps := Greeting();
    assert steps[..1][..0] == [] && steps[..1] == [steps[0]];
    var st := RunLoop(env, n, []);
    var st1 := RunLoop(env, n, steps[..1]);
    assert st1 == Accept(Start(n));
    RstKind();
    FeedEncoded(env, st1, [CTRL_RST]);
    assert RunLoop(env, n, steps) == Turn(env, st1, false, steps[1].act);
  }

  // The turn in which a client sends one DATA frame.
  function Sends(payload: seq<byte>): Iteration {
    Iteration(false, Readable(Encode(DataFrame(0x00, payload))))
  }

  // The state when the frame has been acknowledged, relayed and its answer sent.
  function Answered(env: Env, st: State, payload: seq<byte>): State
    requires 1 <= |payload| <= MAX_FRAME
  {
    var st1 := SendAck(Log(st.(ack := 1), Accepted(DataFrame(0x00, payload))));
    var (st2, r) := Relay(env, st1, false, payload);
    if r.None? || r.value == [] then st2
    else SendData(Adopt(st2, Agreed(st2.ver, payload, r.value)), r.value)
  }

  lemma PlainData()
    ensures KindOf(0x00) == Data && FrmOf(0x00) == 0
  {
  }

  lemma TurnAnswers(env: Env, st: State, payload: seq<byte>)
    requires st.connected && st.ready && st.line == IDLE && 1 <= |payload| <= MAX_FRAME
    requires Says(env.fw, env.wait, st.ncp, payload).Some? && Says(env.fw, env.wait, st.ncp, payload).value != []
    ensures var l := Line(Crc.Seal(DataFrame(0x00, payload)), false);
            Turn(env, st, false, Sends(payload).act) ==
            Drain(env, Drain(env, Answered(env, st.(line := l), payload)).(line := IDLE))
  {
    hide Encode, KindOf, FrmOf, Feed, Drain, Mask, SendAck, SendData, Agreed, Ezsp.Ask, Crc.Seal, Says, Hears;
    var f := DataFrame(0x00, payload);
    AskExplained(env.fw, env.wait, st.ncp, payload);
    FeedEncoded(env, st, f);
    PlainData();
    MaskInvolution(payload);
    assert f[1..] == Mask(payload);
    AckLeavesNcp(Log(st.(line := Line(Crc.Seal(f), false), ack := 1), Accepted(f)));
  }

  lemma AckLeavesNcp(st: State)
    ensures SendAck(st).ncp == st.ncp
  {
  }

  lemma AnsweredState(env: Env, st: State, payload: seq<byte>)
    requires st.connected && st.ready && 1 <= |payload| <= MAX_FRAME
    requires Says(env.fw, env.wait, st.ncp, payload).Some?
    ensures var r, m := Says(env.fw, env.wait, st.ncp, payload), Hears(env.fw, env.wait, st.ncp, payload);
            var st1 := Answered(env, st, payload);
            var agreed := Agreed(st.ver, payload, Take(r.value, MAX_FRAME));
            r.value != [] ==>
              && st1.connected && st1.ready && st1.ncp == m && st1.hintPos == st.hintPos && st1.cbseq == st.cbseq
              && st1.ver == (if agreed.Some? then agreed.value else st.ver)
              && st1.negotiated == (st.negotiated || agreed.Some?)
              && |st1.hist| == |st.hist| + (if |r.value| < MAX_FRAME then 1 else 0)
              && |st1.log| > |st.log| + 2 && st.log <= st1.log
              && st1.log[|st.log| + 2] == Relayed(false, st.ver, payload, r)
              && forall i :: |st.log| <= i < |st1.log| && st1.log[i].Relayed? ==> i == |st.log| + 2
  {
    hide Ezsp.Ask, Mask, DataBody, AckCtrl, Says, Hears, Agreed;
    AskExplained(env.fw, env.wait, st.ncp, payload);
  }

  // ----- A version nobody agreed on -----

  const HELLO: seq<byte> := [0, 0x00, EZSP_VERSION, 9]
  const AGREE9: seq<byte> := [0, 0x80, EZSP_VERSION, 9]

  // Command 0x0100 in the layout of version 9, and the answer to it.
  const ODD: seq<byte> := [1, 0x00, 0x01, 0x00, 0x01]
  const ODD_ANSWER: seq<byte> := [1, 0x80, 0x01, 0x00, 0x01, 5]

  // Answers the command cmd with p, and every other with version 9.
  function TwoAnswers(cmd: seq<byte>, p: seq<byte>): Firmware
    requires |p| <= 255
  {
    h => Answer(0, if h != [] && h[|h| - 1] == Command(cmd) then Ezsp(p) else Ezsp(AGREE9))
  }

  lemma SaysWhat(cmd: seq<byte>, p: seq<byte>, n: Ncp, frame: seq<byte>)
    requires |p| <= 255 && |frame| <= 255 && !n.aborted
    ensures var fw := TwoAnswers(cmd, p);
            && Says(fw, 1, n, frame) == Some(if Wrap(frame) == cmd then p else AGREE9)
            && !Hears(fw, 1, n, frame).aborted
  {
    hide Wrap;
  }

  lemma WrapApart(a: seq<byte>, b: seq<byte>)
    requires |a| <= 255 && |b| <= 255 && |a| != |b|
    ensures Wrap(a) != Wrap(b)
  {
    assert |Wrap(a)| == |a| + 3 && |Wrap(b)| == |b| + 3;
  }

  lemma HelloAgrees()
    ensures Agreed(4, HELLO, Take(AGREE9, MAX_FRAME)) == Some(9)
    ensures Agreed(9, ODD, Take(ODD_ANSWER, MAX_FRAME)) == Some(5)
  {
  }

  // Without nHOST_INT such a turn leaves the answered state, and the deframer idle.
  lemma OneAnswered(env: Env, st: State, payload: seq<byte>) returns (st1: State)
    requires !env.hasHint && st.connected && st.ready && st.line == IDLE && 1 <= |payload| <= MAX_FRAME
    requires Says(env.fw, env.wait, st.ncp, payload).Some? && Says(env.fw, env.wait, st.ncp, payload).value != []
    ensures st1 == Turn(env, st, false, Sends(payload).act)
    ensures var r, m := Says(env.fw, env.wait, st.ncp, payload), Hears(env.fw, env.wait, st.ncp, payload);
            var agreed := Agreed(st.ver, payload, Take(r.value, MAX_FRAME));
            && st1.connected && st1.ready && st1.ncp == m && st1.line == IDLE
            && st1.ver == (if agreed.Some? then agreed.value else st.ver)
            && st1.negotiated == (st.negotiated || agreed.Some?)
            && |st1.hist| == |st.hist| + (if |r.value| < MAX_FRAME then 1 else 0)
            && |st1.log| > |st.log| + 2 && st.log <= st1.log
            && st1.log[|st.log| + 2] == Relayed(false, st.ver, payload, r)
            && forall i :: |st.log| <= i < |st1.log| && st1.log[i].Relayed? ==> i == |st.log| + 2
  {
    hide Says, Hears, Agreed, Answered, DrainLoop, Turn, Encode;
    st1 := Turn(env, st, false, Sends(payload).act);
    TurnAnswers(env, st, payload);
    AnsweredState(env, st.(line := Line(Crc.Seal(DataFrame(0x00, payload)), false)), payload);
  }

  // The same from the end of a run.
  lemma OneMoreTurn(env: Env, n: Ncp, steps: seq<Iteration>, payload: seq<byte>) returns (st1: State)
    requires var st := RunLoop(env, n, steps);
             && !env.hasHint && st.connected && st.ready && st.line == IDLE && 1 <= |payload| <= MAX_FRAME
             && Says(env.fw, env.wait, st.ncp, payload).Some? && Says(env.fw, env.wait, st.ncp, payload).value != []
    ensures st1 == RunLoop(env, n, steps + [Sends(payload)])
    ensures var st := RunLoop(env, n, steps);
            var r, m := Says(env.fw, env.wait, st.ncp, payload), Hears(env.fw, env.wait, st.ncp, payload);
            var agreed := Agreed(st.ver, payload, Take(r.value, MAX_FRAME));
            && st1.connected && st1.ready && st1.ncp == m && st1.line == IDLE
            && st1.ver == (if agreed.Some? then agreed.value else st.ver)
            && st1.negotiated == (st.negotiated || agreed.Some?)
            && |st1.hist| == |st.hist| + (if |r.value| < MAX_FRAME then 1 else 0)
            && |st1.log| > |st.log| + 2 && st.log <= st1.log
            && st1.log[|st.log| + 2] == Relayed(false, st.ver, payload, r)
            && forall i :: |st.log| <= i < |st1.log| && st1.log[i].Relayed? ==> i == |st.log| + 2
  {
    hide Says, Hears, Agreed, Turn, Take;
    st1 := OneAnswered(env, RunLoop(env, n, steps), payload);
    RunMore(env, n, steps, Sends(payload));
  }

  lemma RunMore(env: Env, n: Ncp, steps: seq<Iteration>, last: Iteration)
    ensures RunLoop(env, n, steps + [last]) == Turn(env, RunLoop(env, n, steps), last.arrival, last.act)
  {
    assert (steps + [last])[..|steps + [last]| - 1] == steps;
  }

  // A version a is taken in the first turn after the greeting, and b in the next.
  lemma TwoTurns(env: Env, n: Ncp, p: seq<byte>, q: seq<byte>, a: int, b: int) returns (i: nat, j: nat)
    requires !env.hasHint && !n.aborted && 1 <= |p| <= MAX_FRAME && 1 <= |q| <= MAX_FRAME
    requires var fw, wait, m := env.fw, env.wait, AfterReset(n);
             && var r := Says(fw, wait, m, p);
             && r.Some? && r.value != [] && Agreed(4, p, Take(r.value, MAX_FRAME)) == Some(a)
             && var r2 := Says(fw, wait, Hears(fw, wait, m, p), q);
             && r2.Some? && r2.value != [] && Agreed(a, q, Take(r2.value, MAX_FRAME)) == Some(b)
    ensures var st := RunLoop(env, n, Greeting() + [Sends(p)] + [Sends(q)]);
            var m := Hears(env.fw, env.wait, AfterReset(n), p);
            && st.connected && st.negotiated && st.ver == b && i < |st.log| && j < |st.log|
            && st.log[i] == Relayed(false, 4, p, Says(env.fw, env.wait, AfterReset(n), p))
            && st.log[j] == Relayed(false, a, q, Says(env.fw, env.wait, m, q))
            && forall k :: 0 <= k < |st.log| && st.log[k].Relayed? ==> k == i || k == j
  {
    hide Says, Hears, RunLoop, Agreed, Take, Greeting;
    Greeted(env, n);
    var st1 := RunLoop(env, n, Greeting());
    var st2 := OneMoreTurn(env, n, Greeting(), p);
    var st3 := OneMoreTurn(env, n, Greeting() + [Sends(p)], q);
    i, j := |st1.log| + 2, |st2.log| + 2;
  }

  // No nHOST_INT, and a co-processor that answers ODD with ODD_ANSWER.
  function OddEnv(): Env {
    Env(TwoAnswers(Wrap(ODD), ODD_ANSWER), 1, false, (i: nat) => false)
  }

  const AFRESH := Ncp([], false)

  lemma OddSays()
    ensures !OddEnv().hasHint && !AFRESH.aborted
    ensures var m := AfterReset(AFRESH);
            && Says(OddEnv().fw, OddEnv().wait, m, HELLO) == Some(AGREE9)
            && Says(OddEnv().fw, OddEnv().wait, Hears(OddEnv().fw, OddEnv().wait, m, HELLO), ODD) == Some(ODD_ANSWER)
  {
    hide Wrap, Says, Hears, TwoAnswers;
    var m := AfterReset(AFRESH);
    WrapApart(HELLO, ODD);
    SaysWhat(Wrap(ODD), ODD_ANSWER, m, HELLO);
    SaysWhat(Wrap(ODD), ODD_ANSWER, Hears(OddEnv().fw, 1, m, HELLO), ODD);
  }

  lemma OddExchange()
    ensures !Named(9, ODD, EZSP_VERSION) && NcpParse(9, Wrap(ODD)) == None
    ensures !Exchanged(Relayed(false, 4, HELLO, Some(AGREE9)), 5)
    ensures !Exchanged(Relayed(false, 9, ODD, Some(ODD_ANSWER)), 5)
  {
    NamedFrames(9, 0, 0, [], ODD);
    hide Wrap;
  }

  // On this run version 5 is in force though no version command was ever answered with 5: the
  // one frame after the negotiation is command 0x0100, which is no version command to the
  // co-processor either.
  lemma UnagreedVersion()
    ensures var st := RunLoop(OddEnv(), AFRESH, Greeting() + [Sends(HELLO)] + [Sends(ODD)]);
            && st.connected && st.negotiated && st.ver == 5
            && forall i :: 0 <= i < |st.log| ==> !Exchanged(st.log[i], 5)
    ensures !Named(9, ODD, EZSP_VERSION) && NcpParse(9, Wrap(ODD)) == None
  {
    OddExchange();
    OddSays();
    HelloAgrees();
    hide Wrap, Says, Hears, RunLoop, Agreed, NcpParse, Take, Greeting, Sends, AfterReset, OddEnv, Named;
    var i, j := TwoTurns(OddEnv(), AFRESH, HELLO, ODD, 9, 5);
    hide Exchanged;
    forall k | 0 <= k < |RunLoop(OddEnv(), AFRESH, Greeting() + [Sends(HELLO)] + [Sends(ODD)]).log|
      ensures !Exchanged(RunLoop(OddEnv(), AFRESH, Greeting() + [Sends(HELLO)] + [Sends(ODD)]).log[k], 5)
    {
      NotRelayed(RunLoop(OddEnv(), AFRESH, Greeting() + [Sends(HELLO)] + [Sends(ODD)]).log[k], 5);
    }
  }

  lemma NotRelayed(e: Event, v: int)
    ensures !e.Relayed? ==> !Exchanged(e, v)
  {
  }

  // ----- An answer to something else -----

  // Frame id 0x58, with 7 where an answer to version() has the version.
  const ALIEN: seq<byte> := [0, 0x80, 0x58, 7]

  function AlienEnv(): Env {
    Env(TwoAnswers(Wrap(HELLO), ALIEN), 1, false, (i: nat) => false)
  }

  lemma AlienSays()
    ensures !AlienEnv().hasHint && !AFRESH.aborted
    ensures Says(AlienEnv().fw, AlienEnv().wait, AfterReset(AFRESH), HELLO) == Some(ALIEN)
    ensures Agreed(4, HELLO, Take(ALIEN, MAX_FRAME)) == Some(7)
    ensures !Exchanged(Relayed(false, 4, HELLO, Some(ALIEN)), 7)
  {
    hide Wrap, Says, Hears, TwoAnswers;
    SaysWhat(Wrap(HELLO), ALIEN, AfterReset(AFRESH), HELLO);
  }

  // On this run version 7 is in force, taken from a frame with another id.
  lemma AlienVersion()
    ensures var st := RunLoop(AlienEnv(), AFRESH, Greeting() + [Sends(HELLO)]);
            && st.connected && st.negotiated && st.ver == 7
            && forall i :: 0 <= i < |st.log| ==> !Exchanged(st.log[i], 7)
  {
    AlienSays();
    hide Says, Hears, RunLoop, Agreed, Take, Greeting, Sends, AlienEnv, Exchanged;
    Greeted(AlienEnv(), AFRESH);
    var st := OneMoreTurn(AlienEnv(), AFRESH, Greeting(), HELLO);
    forall k | 0 <= k < |st.log|
      ensures !Exchanged(st.log[k], 7)
    {
      NotRelayed(st.log[k], 7);
    }
  }

  // ----- A lost callback -----

  // The one callback found is not forwarded, and then nothing is.
  lemma DrainLoses(env: Env, st: State, p: seq<byte>)
    requires st.connected && st.ready && st.negotiated && env.hasHint
    requires env.asserted(st.hintPos) && !env.asserted(st.hintPos + 1)
    requires Says(env.fw, env.wait, st.ncp, PollFrame(st.ver, st.cbseq)) == Some(p)
    requires 1 <= |p| < MAX_FRAME && !Forwards(true, st.ver, p)
    ensures var st1 := Drain(env, Drain(env, st).(line := IDLE));
            st1.connected && st1.log == st.log + [Relayed(true, st.ver, PollFrame(st.ver, st.cbseq), Some(p))]
  {
    hide Ezsp.Ask, Says, Hears, PollFrame, DrainLoop, SendData;
    AskExplained(env.fw, env.wait, st.ncp, PollFrame(st.ver, st.cbseq));
    DrainUnfold(env, st, DRAIN_LIMIT);
    var st1 := Drain(env, st).(line := IDLE);
    DrainUnfold(env, st1, DRAIN_LIMIT);
  }

  // Version 9 is agreed, and the callback queued behind it is polled at once.
  lemma TurnLoses(env: Env, n: Ncp, hello: seq<byte>, p: seq<byte>, v: int)
    requires env.hasHint && env.asserted(0) && !env.asserted(1) && 1 <= |hello| <= MAX_FRAME
    requires var m := AfterReset(n);
             && var r := Says(env.fw, env.wait, m, hello);
             && r.Some? && r.value != [] && Agreed(4, hello, Take(r.value, MAX_FRAME)) == Some(v)
             && Says(env.fw, env.wait, Hears(env.fw, env.wait, m, hello), PollFrame(v, 0)) == Some(p)
    requires 1 <= |p| < MAX_FRAME && !Forwards(true, v, p)
    ensures var st := RunLoop(env, n, Greeting() + [Sends(hello)]);
            && st.connected && |st.log| > 0
            && st.log[|st.log| - 1] == Relayed(true, v, PollFrame(v, 0), Some(p))
            && forall i :: 0 <= i < |st.log| - 1 && st.log[i].Relayed? ==>
                 st.log[i] == Relayed(false, 4, hello, Says(env.fw, env.wait, AfterReset(n), hello))
  {
    hide Says, Hears, RunLoop, Agreed, Take, Greeting, Turn, Drain, Answered, PollFrame, Forwards, Encode;
    Greeted(env, n);
    var st := RunLoop(env, n, Greeting());
    TurnAnswers(env, st, hello);
    var st0 := st.(line := Line(Crc.Seal(DataFrame(0x00, hello)), false));
    AnsweredState(env, st0, hello);
    DrainLoses(env, Answered(env, st0, hello), p);
    RunMore(env, n, Greeting(), Sends(hello));
  }

  // Callback 0x0107 in the layout of version 9.
  const LOST: seq<byte> := [0, 0x90, 0x01, 0x07, 0x01, 42]

  function LosingEnv(): Env {
    Env(TwoAnswers(Wrap(PollFrame(9, 0)), LOST), 1, true, (i: nat) => i == 0)
  }

  lemma LosingSays()
    ensures LosingEnv().hasHint && LosingEnv().asserted(0) && !LosingEnv().asserted(1)
    ensures var fw, wait, m := LosingEnv().fw, LosingEnv().wait, AfterReset(AFRESH);
            && Says(fw, wait, m, HELLO) == Some(AGREE9)
            && Says(fw, wait, Hears(fw, wait, m, HELLO), PollFrame(9, 0)) == Some(LOST)
  {
    assert |PollFrame(9, 0)| == 5;
    WrapApart(HELLO, PollFrame(9, 0));
    hide Wrap, Says, Hears, TwoAnswers, PollFrame;
    var m := AfterReset(AFRESH);
    SaysWhat(Wrap(PollFrame(9, 0)), LOST, m, HELLO);
    SaysWhat(Wrap(PollFrame(9, 0)), LOST, Hears(LosingEnv().fw, 1, m, HELLO), PollFrame(9, 0));
  }

  lemma LostIsDue()
    ensures Due(true, 9, LOST) && !Forwards(true, 9, LOST) && Misjudged(true, 9, LOST) && LOST != AGREE9
  {
  }

  lemma {:induction false} RepliesForwarded(log: seq<Event>, p: seq<byte>) returns (i: nat)
    requires p in Replies(log)
    ensures i < |log| && log[i].Relayed? && log[i].reply == Some(p) && Forwards(log[i].poll, log[i].ver, p)
    decreases |log|
  {
    hide Forwards;
    var k := |log| - 1;
    if p in Replies(log[..k]) {
      i := RepliesForwarded(log[..k], p);
    } else {
      i := k;
    }
  }

  // On this run the co-processor hands over a callback that is owed to the client, and nothing
  // the client ever reads carries it.
  lemma CallbackLost()
    ensures var st := RunLoop(LosingEnv(), AFRESH, Greeting() + [Sends(HELLO)]);
            && st.connected && |st.log| > 0
            && st.log[|st.log| - 1] == Relayed(true, 9, PollFrame(9, 0), Some(LOST))
            && Due(true, 9, LOST) && LOST !in Payloads(Written(st.log))
  {
    LosingSays();
    HelloAgrees();
    LostIsDue();
    hide Wrap, Says, Hears, RunLoop, Agreed, Take, Greeting, Sends, LosingEnv, PollFrame, Forwards, Due, Replies,
         Written, Payloads;
    TurnLoses(LosingEnv(), AFRESH, HELLO, LOST, 9);
    RunSettled(LosingEnv(), AFRESH, Greeting() + [Sends(HELLO)]);
    var st := RunLoop(LosingEnv(), AFRESH, Greeting() + [Sends(HELLO)]);
    if LOST in Replies(st.log) {
      var i := RepliesForwarded(st.log, LOST);
    }
  }

  // ----- A client dropped for another -----

  lemma {:induction false} NobodyListens(env: Env, st: State, acts: seq<Activity>)
    requires !st.connected
    ensures Session(env, st, acts) == st
    decreases |acts|
  {
    if acts != [] {
      hide Feed, DrainLoop;
      NobodyListens(env, st, acts[..|acts| - 1]);
    }
  }

  // On this run a second client connects in the turn in which the first hangs up. The newcomer
  // is the one dropped, and nothing it sends from then on has any effect.
  lemma NewcomerDropped(env: Env, n: Ncp, acts: seq<Activity>)
    ensures var st := RunLoop(env, n, [Iteration(true, Silent), Iteration(true, Hangup)]);
            && !st.connected && st.log == [Connected, Dropped, Connected, Dropped]
            && Session(env, st, acts) == st
  {
    hide DrainLoop, Session;
    var steps := [Iteration(true, Silent), Iteration(true, Hangup)];
    assert steps[..1][..0] == [] && steps[..1] == [steps[0]];
    assert RunLoop(env, n, []) == Start(n);
    var st1 := RunLoop(env, n, steps[..1]);
    assert st1 == Accept(Start(n)) && st1.log == [Connected];
    NobodyListens(env, RunLoop(env, n, steps), acts);
  }

  // ----- A NAK that brings nothing -----

  function ChatEnv(): Env {
    Env(TwoAnswers(Wrap(HELLO), AGREE9), 1, false, (i: nat) => false)
  }

  // A client that sends k frames, each answered with one.
  function Chat(k: nat): seq<Iteration> {
    if k == 0 then Greeting() else Chat(k - 1) + [Sends(HELLO)]
  }

  lemma ChatSays(n: Ncp)
    requires !n.aborted
    ensures !ChatEnv().hasHint && Says(ChatEnv().fw, ChatEnv().wait, n, HELLO) == Some(AGREE9)
    ensures !Hears(ChatEnv().fw, ChatEnv().wait, n, HELLO).aborted
    ensures 1 <= |HELLO| <= MAX_FRAME && AGREE9 != [] && |AGREE9| < MAX_FRAME
  {
    hide Wrap, Says, Hears, TwoAnswers;
    SaysWhat(Wrap(HELLO), AGREE9, n, HELLO);
  }

  lemma {:induction false} ChatState(k: nat)
    ensures var st := RunLoop(ChatEnv(), AFRESH, Chat(k));
            st.connected && st.ready && st.line == IDLE && !st.ncp.aborted && |st.hist| == k
    decreases k
  {
    hide Says, Hears, RunLoop, Agreed, Take, Greeting, Sends, ChatEnv;
    if k == 0 {
      Greeted(ChatEnv(), AFRESH);
    } else {
      ChatState(k - 1);
      ChatSays(RunLoop(ChatEnv(), AFRESH, Chat(k - 1)).ncp);
      var st := OneMoreTurn(ChatEnv(), AFRESH, Chat(k - 1), HELLO);
    }
  }

  // On these runs a client that has missed all of 8, 16, .. replies gets none of them back.
  lemma NakUnanswered(j: nat)
    ensures var st := RunLoop(ChatEnv(), AFRESH, Chat(8 * j));
            && st.connected && |Payloads(st.hist)| == 8 * j
            && Written(Handle(ChatEnv(), st, [NakCtrl(0)]).log) == Written(st.log)
  {
    hide *;
    ChatState(8 * j);
    NakRecovers(ChatEnv(), AFRESH, Chat(8 * j), 0);
  }
}
