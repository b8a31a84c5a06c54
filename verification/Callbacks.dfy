// That callbacks are pushed: after every turn that leaves its client able to take one.

module Callbacks {
  import opened Bytes
  import opened Ash
  import opened Whitening
  import opened Coprocessor
  import opened Ezsp
  import opened BridgeModel
  import opened BridgeRuns
  import opened Provenance
  import opened Transparency

  predicate Poll(e: Event) { e.Relayed? && e.poll }

  // The answer to a poll that ends the looking: none, one too short for an id, or noCallbacks as
  // far as one byte tells.
  predicate Nothing(e: Event) {
    Poll(e) && (e.reply.None? || |e.reply.value| <= IdOff(e.ver) || e.reply.value[IdOff(e.ver)] == 0x07)
  }

  // From position k on there are only polls, in the layout of version ver, and first-time DATA.
  ghost predicate OnlyPushes(log: seq<Event>, k: nat, ver: int) {
    forall i :: k <= i < |log| ==>
      (Poll(log[i]) && log[i].ver == ver) || (log[i].Sent? && KindOf(log[i].frame[0]) == Data)
  }

  // What looking at most limit times does: the line was asserted at every reading but perhaps the
  // last; each reading that found it so polled once, at once; and the looking ended because the
  // line was released, because a poll brought nothing, or because it looked limit times.
  ghost predicate Looked(env: Env, st: State, st1: State, limit: nat) {
    && st.log <= st1.log && st.hintPos <= st1.hintPos <= st.hintPos + limit
    && OnlyPushes(st1.log, |st.log|, st.ver)
    && (forall i :: st.hintPos <= i < st1.hintPos - 1 ==> env.asserted(i))
    && (|st1.log| > |st.log| ==> Poll(st1.log[|st.log|]))
    && (st1.hintPos > st.hintPos && env.asserted(st.hintPos) ==> |st1.log| > |st.log|)
    && (limit > 0 ==> st1.hintPos > st.hintPos)
    && (|| (st1.hintPos > st.hintPos && !env.asserted(st1.hintPos - 1))
        || (|st1.log| > |st.log| && Nothing(st1.log[|st1.log| - 1]))
        || (st1.hintPos == st.hintPos + limit && Polls(st1.log) == Polls(st.log) + limit &&
            forall i :: st.hintPos <= i < st1.hintPos ==> env.asserted(i)))
  }

  lemma PollsMore(log: seq<Event>, e: Event)
    ensures Polls(log + [e]) == Polls(log) + if Poll(e) then 1 else 0
  {
    assert (log + [e])[..|log + [e]| - 1] == log;
  }

  // One reading that finds the line asserted: a poll, and what it found at once as DATA, or not.
  lemma OnePoll(env: Env, st: State)
    requires st.connected && env.asserted(st.hintPos)
    ensures var (st1, more) := DrainStep(env, st);
            var k := |st.log|;
            && k < |st1.log| <= k + 2 && st.log <= st1.log && Poll(st1.log[k]) && st1.log[k].ver == st.ver
            && (more <==> !Nothing(st1.log[k])) && (!more ==> |st1.log| == k + 1)
            && (|st1.log| == k + 2 ==> st1.log[k + 1].Sent? && KindOf(st1.log[k + 1].frame[0]) == Data)
  {
    PollVerbatimOrNothing(env, st);
    MoreIff(env, st);
    var st1, k := DrainStep(env, st).0, |st.log|;
    hide DrainStep, KindOf;
  }

  lemma MoreIff(env: Env, st: State)
    requires st.connected && env.asserted(st.hintPos)
    ensures var (st1, more) := DrainStep(env, st);
            |st1.log| > |st.log| && (more <==> !Nothing(st1.log[|st.log|]))
  {
    hide Ezsp.Ask, PollFrame, DataBody;
  }

  lemma NoPoll(env: Env, st: State)
    requires !env.asserted(st.hintPos)
    ensures DrainStep(env, st) == (st.(hintPos := st.hintPos + 1), false)
  {
  }

  lemma LookedOnce(env: Env, a: State, b: State)
    requires env.asserted(a.hintPos) && b.hintPos == a.hintPos + 1 && a.log <= b.log
    requires var k := |a.log|;
             && k < |b.log| <= k + 2 && Poll(b.log[k]) && b.log[k].ver == a.ver
             && (|b.log| == k + 2 ==> b.log[k + 1].Sent? && KindOf(b.log[k + 1].frame[0]) == Data)
    ensures Looked(env, a, b, 1) && Polls(b.log) == Polls(a.log) + 1
  {
    hide Polls, KindOf, Nothing;
    var k := |a.log|;
    PollsMore(a.log, b.log[k]);
    if |b.log| == k + 2 {
      PollsMore(a.log + [b.log[k]], b.log[k + 1]);
      assert b.log == a.log + [b.log[k]] + [b.log[k + 1]];
    } else {
      assert b.log == a.log + [b.log[k]];
    }
  }

  lemma LookedIdle(env: Env, a: State, b: State)
    requires !env.asserted(a.hintPos) && b.hintPos == a.hintPos + 1 && a.log == b.log
    ensures Looked(env, a, b, 1)
  {
    hide Polls, KindOf, Nothing;
  }

  // One look at the line.
  lemma OneLook(env: Env, st: State)
    requires st.connected
    ensures var (st1, more) := DrainStep(env, st);
            && Looked(env, st, st1, 1) && st1.hintPos == st.hintPos + 1
            && (more ==> env.asserted(st.hintPos) && Polls(st1.log) == Polls(st.log) + 1)
            && (!more ==> !env.asserted(st.hintPos) || Nothing(st1.log[|st1.log| - 1]))
  {
    DrainStepKeeps(env, st);
    if env.asserted(st.hintPos) {
      OnePoll(env, st);
      hide DrainStep, Polls, KindOf, Nothing, Looked;
      LookedOnce(env, st, DrainStep(env, st).0);
    } else {
      NoPoll(env, st);
      hide DrainStep, Polls, KindOf, Nothing, Looked;
      LookedIdle(env, st, DrainStep(env, st).0);
    }
  }

  lemma {:induction false} LoopLooks(env: Env, st: State, limit: nat)
    requires st.connected
    ensures Looked(env, st, DrainLoop(env, st, limit), limit)
    decreases limit
  {
    hide DrainStep, DrainLoop, Nothing, Polls, KindOf;
    DrainUnfold(env, st, limit);
    if limit > 0 {
      OneLook(env, st);
      DrainStepKeeps(env, st);
      var (st1, more) := DrainStep(env, st);
      if more {
        LoopLooks(env, st1, limit - 1);
        LooksOn(env, st, st1, DrainLoop(env, st1, limit - 1), limit);
      } else {
        assert Looked(env, st, st1, limit);
      }
    }
  }

  lemma LooksOn(env: Env, a: State, b: State, c: State, limit: nat)
    requires limit > 0 && Looked(env, a, b, 1) && b.hintPos == a.hintPos + 1 && env.asserted(a.hintPos)
    requires Polls(b.log) == Polls(a.log) + 1 && a.ver == b.ver && Looked(env, b, c, limit - 1)
    ensures Looked(env, a, c, limit)
  {
    hide Nothing, Polls, KindOf;
    assert |b.log| > |a.log| && c.log[|a.log|] == b.log[|a.log|];
    forall i | |a.log| <= i < |c.log|
      ensures (Poll(c.log[i]) && c.log[i].ver == a.ver) || (c.log[i].Sent? && KindOf(c.log[i].frame[0]) == Data)
    {
      if i < |b.log| {
        assert c.log[i] == b.log[i];
      }
    }
  }

  lemma DrainLooks(env: Env, st: State)
    requires st.connected && st.ready && st.negotiated && env.hasHint
    ensures Looked(env, st, Drain(env, st), 32)
  {
    hide DrainLoop, Looked;
    LoopLooks(env, st, DRAIN_LIMIT);
  }

  // Where the looking of a turn begins: position k of the log, and reading h of the line.
  ghost predicate Pushed(env: Env, st1: State, k: nat, h: nat) {
    && k <= |st1.log| && h < st1.hintPos <= h + 32 && OnlyPushes(st1.log, k, st1.ver)
    && (forall i :: h <= i < st1.hintPos - 1 ==> env.asserted(i))
    && (env.asserted(h) ==> k < |st1.log| && Poll(st1.log[k]))
    && (|| !env.asserted(st1.hintPos - 1)
        || (k < |st1.log| && Nothing(st1.log[|st1.log| - 1]))
        || (Polls(st1.log) == Polls(st1.log[..k]) + 32 && env.asserted(st1.hintPos - 1)))
  }

  lemma LookedPushed(env: Env, st: State, st1: State)
    requires Looked(env, st, st1, 32) && st1.ver == st.ver
    ensures Pushed(env, st1, |st.log|, st.hintPos)
  {
    hide Nothing, Polls, KindOf;
    assert st1.log[..|st.log|] == st.log;
  }

  // After every turn, whatever it brought, silence included, that leaves a client connected,
  // ready and with a version, and with an interrupt line: the line was read, a callback polled at
  // once if it was asserted, and so on until the line was released, there was nothing more, or 32
  // callbacks were polled. In a silent turn this is all that happens.
  lemma TurnPushes(env: Env, st: State, arrival: bool, act: Activity) returns (k: nat, h: nat)
    requires Calm(st)
    requires var st1 := Turn(env, st, arrival, act);
             st1.connected && st1.ready && st1.negotiated && env.hasHint
    ensures var st1 := Turn(env, st, arrival, act);
            Pushed(env, st1, k, h) && h >= st.hintPos
    ensures !arrival && act.Silent? ==> k == |st.log| && h == st.hintPos &&
                                        st.log <= Turn(env, st, arrival, act).log
  {
    var st1 := if arrival then Accept(st) else st;
    var bytes := if act.Readable? then act.bytes else [];
    TurnEndsDrained(env, st, arrival, act);
    AcceptHint(st);
    FeedKeeps(env, st1, bytes);
    var st2 := Before(env, st, arrival, act);
    DrainKeeps(env, st2);
    hide Calm, Drain, Feed, Accept, Drop, Pushed, Looked;
    k, h := |st2.log|, st2.hintPos;
    DrainLooks(env, st2);
    LookedPushed(env, st2, Drain(env, st2));
    LookedPrefix(env, st2, Drain(env, st2));
  }

  lemma LookedPrefix(env: Env, st: State, st1: State)
    requires Looked(env, st, st1, 32)
    ensures st.log <= st1.log
  {
    hide OnlyPushes, Nothing, Polls;
  }

  lemma AcceptHint(st: State)
    ensures Accept(st).hintPos == st.hintPos && Drop(st).hintPos == st.hintPos
  {
  }

  // The state of a turn when the looking begins.
  function Before(env: Env, st: State, arrival: bool, act: Activity): State {
    var st1 := if arrival then Accept(st) else st;
    if st.connected && act.Readable? then Feed(env, st1, act.bytes)
    else if st.connected && act.EndOfStream? then Drop(st1)
    else st1
  }

  lemma TurnEndsDrained(env: Env, st: State, arrival: bool, act: Activity)
    ensures !(st.connected && act.Hangup?) ==> Turn(env, st, arrival, act) == Drain(env, Before(env, st, arrival, act))
    ensures st.connected && act.Hangup? ==> !Turn(env, st, arrival, act).connected
  {
    hide Feed, Drain, Accept;
  }

  // A host frame that brought an answer, up to the looking.
  lemma DataAnswered(env: Env, st: State, f: Body) returns (st4: State)
    requires st.connected && st.ready && 2 <= |f| <= 141
    requires var r := Says(env.fw, env.wait, st.ncp, Mask(f[1..])); r.Some? && r.value != []
    ensures HandleData(env, st, f) == Drain(env, st4)
    ensures st4.connected && st4.ready && st4.hintPos == st.hintPos && |st.log| + 3 <= |st4.log| <= |st.log| + 4
  {
    hide Ezsp.Ask, Says, Hears, Mask, Drain, FrmOf, Agreed, SendData, AckCtrl, Carries;
    var ezsp := Mask(f[1..]);
    AskExplained(env.fw, env.wait, st.ncp, ezsp);
    var st1 := SendAck(Log(st.(ack := (FrmOf(f[0]) + 1) % WINDOW), Accepted(f)));
    var (st2, got) := Relay(env, st1, false, ezsp);
    var st3 := Adopt(st2, Agreed(st2.ver, ezsp, got.value));
    st4 := SendData(st3, got.value);
    SendDataCarries(st3, got.value);
    SendDataKeeps(st3, got.value);
  }

  // A host frame that brought an answer is followed by a look too, before the next frame is read.
  lemma FramePushes(env: Env, st: State, f: Body) returns (k: nat, h: nat)
    requires st.connected && st.ready && 2 <= |f| <= 141 && env.hasHint && HandleData(env, st, f).negotiated
    requires var r := Says(env.fw, env.wait, st.ncp, Mask(f[1..])); r.Some? && r.value != []
    ensures Pushed(env, HandleData(env, st, f), k, h) && h == st.hintPos && |st.log| + 3 <= k <= |st.log| + 4
  {
    hide *;
    var st4 := DataAnswered(env, st, f);
    DrainKeeps(env, st4);
    DrainLooks(env, st4);
    LookedPushed(env, st4, Drain(env, st4));
    k, h := |st4.log|, st4.hintPos;
  }

  lemma SendDataKeeps(st: State, payload: seq<byte>)
    ensures var st1 := SendData(st, payload);
            st1.connected == st.connected && st1.ready == st.ready && st1.negotiated == st.negotiated &&
            st1.hintPos == st.hintPos
  {
    hide DataBody;
  }

  // ----- Turns in which no client arrives -----

  // A hang-up or the end of its stream drops the client, and only that does; a turn without one
  // does nothing.
  lemma TurnDrops(env: Env, st: State, act: Activity)
    requires Calm(st)
    ensures Turn(env, st, false, act).connected <==> st.connected && (act.Silent? || act.Readable?)
    ensures st.connected && (act.Hangup? || act.EndOfStream?) ==>
              Turn(env, st, false, act) == st.(connected := false, line := IDLE, log := st.log + [Dropped])
    ensures !st.connected ==> Turn(env, st, false, act) == st
  {
    hide Calm, Feed, Drain;
    DrainKeeps(env, st);
    DrainNeedsClient(env, st);
    DrainNeedsClient(env, Drop(st));
    if st.connected && act.Readable? {
      FeedCalm(env, st, act.bytes);
      DrainKeeps(env, Feed(env, st, act.bytes));
    }
  }
}
