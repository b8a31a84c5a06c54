// What one frame of a client does, from its bytes on the wire, and the handshake.

module Handshake {
  import opened Bytes
  import Crc
  import opened Ash
  import opened Whitening
  import opened Coprocessor
  import opened Spi
  import opened BridgeModel
  import opened BridgeRuns
  import opened Provenance
  import opened Transparency

  // ----- A turn that reads one whole frame -----

  lemma {:induction false} FeedQuiet(env: Env, st: State, bytes: seq<byte>)
    requires Frames(st.line, bytes) == []
    ensures Feed(env, st, bytes) == st.(line := Run(st.line, bytes))
    decreases |bytes|
  {
    hide Handle, Step, Emitted;
    if bytes != [] {
      FeedQuiet(env, st, bytes[..|bytes| - 1]);
    }
  }

  lemma EncodeShape(f: Body)
    requires |f| <= 278
    ensures var s := Crc.Seal(f);
            Encode(f) == Stuff(s) + [FLAG] && Held(s) == s && |s| >= 2 && Unseal(s) == f && Crc.Intact(s)
  {
    Crc.SealIntact(f);
    hide Stuff, Crc.Intact, Crc.Seal;
  }

  lemma FeedFlag(env: Env, st: State, bytes: seq<byte>)
    ensures var st1 := Feed(env, st, bytes);
            var held := Held(st1.line.raw);
            Feed(env, st, bytes + [FLAG]) ==
            (if Crc.Intact(held) then Handle(env, st1, Unseal(held)) else st1).(line := IDLE)
  {
    hide Handle, Held, Crc.Intact, Unseal;
    var b := bytes + [FLAG];
    assert b[..|b| - 1] == bytes;
  }

  // Its bytes from an idle deframer: the frame is handled, once, and the deframer is idle again.
  lemma FeedEncoded(env: Env, st: State, f: Body)
    requires st.line == IDLE && |f| <= 278
    ensures Feed(env, st, Encode(f)) == Handle(env, st.(line := Line(Crc.Seal(f), false)), f).(line := IDLE)
  {
    assert IDLE == Line([], false);
    hide *;
    var s := Crc.Seal(f);
    EncodeShape(f);
    RunStuffed(IDLE, s);
    assert [] + s == s;
    FeedQuiet(env, st, Stuff(s));
    FeedFlag(env, st, Stuff(s));
  }

  // From any deframer state, after a CANCEL.
  lemma FeedCancelled(env: Env, st: State, f: Body)
    requires |f| <= 278
    ensures Feed(env, st, [CANCEL] + Encode(f)) ==
            Handle(env, st.(line := Line(Crc.Seal(f), false)), f).(line := IDLE)
  {
    var st1 := st.(line := IDLE);
    FeedOne(env, st, CANCEL);
    CancelStep(env, st);
    hide *;
    FeedAppend(env, st, [CANCEL], Encode(f));
    FeedEncoded(env, st1, f);
  }

  lemma CancelStep(env: Env, st: State)
    ensures FeedByte(env, st, CANCEL) == st.(line := IDLE) && st.(line := IDLE).line == IDLE
  {
  }

  lemma FeedOne(env: Env, st: State, c: byte)
    ensures Feed(env, st, [c]) == FeedByte(env, st, c)
  {
    hide FeedByte;
    assert [c][..0] == [];
    assert Feed(env, st, []) == st;
  }

  // Cutting what is read changes nothing.
  lemma {:induction false} FeedAppend(env: Env, st: State, a: seq<byte>, b: seq<byte>)
    ensures Feed(env, st, a + b) == Feed(env, Feed(env, st, a), b)
    decreases |b|
  {
    hide FeedByte;
    if b == [] {
      assert a + b == a;
    } else {
      var n := |b| - 1;
      assert (a + b)[..|a + b| - 1] == a + b[..n];
      FeedAppend(env, st, a, b[..n]);
    }
  }

  // ----- The handshake on the wire -----

  lemma RstOnWire()
    ensures [CANCEL] + Encode([0xC0]) == [0x1A, 0xC0, 0x38, 0xBC, 0x7E]
  {
    Crc.CrcOfRst();
    CrcHalves();
    assert Crc.Seal([0xC0]) == [0xC0, 0x38, 0xBC];
    hide Crc.Crc, Crc.Seal, Crc.High, Crc.Low;
    StuffClean([0xC0, 0x38, 0xBC]);
    hide Stuff;
  }

  lemma RstackOnWire()
    ensures RSTACK == [0xC1, 0x02, 0x0B]
    ensures Encode(RSTACK) == [0xC1, 0x02, 0x0B, 0x0A, 0x52, 0x7E]
  {
    Crc.CrcOfRstack();
    CrcHalves();
    assert RSTACK == [0xC1, 0x02, 0x0B];
    assert Crc.Seal(RSTACK) == [0xC1, 0x02, 0x0B, 0x0A, 0x52];
    hide Crc.Crc, Crc.Seal, Crc.High, Crc.Low;
    StuffClean([0xC1, 0x02, 0x0B, 0x0A, 0x52]);
    hide Stuff;
  }

  lemma CrcHalves()
    ensures Crc.High(0x38BC) == 0x38 && Crc.Low(0x38BC) == 0xBC
    ensures Crc.High(0x0A52) == 0x0A && Crc.Low(0x0A52) == 0x52
  {
  }

  lemma {:induction false} StuffClean(s: seq<byte>)
    requires forall c :: c in s ==> !Reserved(c)
    ensures Stuff(s) == s
    decreases |s|
  {
    hide Reserved;
    if s != [] {
      StuffClean(s[..|s| - 1]);
      assert s[|s| - 1] in s;
      assert StuffByte(s[|s| - 1]) == [s[|s| - 1]];
      assert s[..|s| - 1] + [s[|s| - 1]] == s;
    }
  }

  lemma TcpMore(log: seq<Event>, e: Event)
    ensures Tcp(log + [e]) == Write(Tcp(log), e)
  {
    Grow(log, e);
  }

  // A host's RST, in the bytes of the smoke test, resets the co-processor and is answered with
  // these bytes and nothing else; then the bridge is ready, and nothing is left of the session.
  lemma RstAnswered(env: Env, st: State)
    requires st.connected
    ensures var st1 := Feed(env, st, [0x1A, 0xC0, 0x38, 0xBC, 0x7E]);
            && st1 == st.(ready := true, negotiated := false, hist := [], ack := 0, ver := 4, line := IDLE,
                          ncp := Ncp(st.ncp.heard + [HardReset], false), log := st.log + [NcpReset, Sent(RSTACK)])
            && Tcp(st1.log) == Tcp(st.log) + [0xC1, 0x02, 0x0B, 0x0A, 0x52, 0x7E]
  {
    RstOnWire();
    RstackOnWire();
    FeedCancelled(env, st, [CTRL_RST]);
    assert CTRL_RST == 0xC0 && IDLE == Line([], false);
    hide *;
    ResetIs(env, st.(line := Line(Crc.Seal([0xC0]), false)));
    RstackWritten(st.log);
  }

  lemma ResetIs(env: Env, st: State)
    requires st.connected
    ensures Handle(env, st, [0xC0]) ==
            st.(ready := true, negotiated := false, hist := [], ack := 0, ver := 4,
                ncp := Ncp(st.ncp.heard + [HardReset], false), log := st.log + [NcpReset, Sent(RSTACK)])
  {
    RstKind();
    hide KindOf;
    assert st.log + [NcpReset] + [Sent(RSTACK)] == st.log + [NcpReset, Sent(RSTACK)];
  }

  lemma RstackWritten(log: seq<Event>)
    ensures Tcp(log + [NcpReset, Sent(RSTACK)]) == Tcp(log) + Encode(RSTACK)
  {
    TcpMore(log, NcpReset);
    TcpMore(log + [NcpReset], Sent(RSTACK));
    hide Encode, Tcp;
    assert log + [NcpReset] + [Sent(RSTACK)] == log + [NcpReset, Sent(RSTACK)];
  }

  // ----- What each kind of frame does -----

  predicate Ignored(st: State, f: Body) {
    (0x80 <= f[0] <= 0x9F) || f[0] >= 0xC1 || (f[0] <= 0x7F && (!st.ready || |f| < 2 || |f| > 141))
  }

  // An ACK, any other control frame but RST and NAK, DATA before the handshake and DATA of a wrong
  // size do nothing at all.
  lemma NothingFor(env: Env, st: State, f: Body)
    requires Ignored(st, f)
    ensures Handle(env, st, f) == st
  {
    KindRanges(f[0]);
    hide KindOf, HandleData, Retransmit, Reset;
  }

  // A NAK only sends again.
  lemma OnlyAgainFor(env: Env, st: State, f: Body)
    requires Calm(st) && st.connected && 0xA0 <= f[0] <= 0xBF
    ensures var st1 := Handle(env, st, f);
            && st1 == st.(log := st1.log) && st.log <= st1.log
            && forall i :: |st.log| <= i < |st1.log| ==>
                 st1.log[i].Sent? && exists b :: b in st.hist && st1.log[i].frame == Again(b)
  {
    KindRanges(f[0]);
    NakHandledBy(env, st, f);
    hide KindOf, Handle, Calm;
    ResendOnly(st, st.hist[|st.hist| - Back(|st.hist|, AckOf(f[0]))..]);
  }

  lemma NakHandledBy(env: Env, st: State, f: Body)
    requires KindOf(f[0]) == Nak
    ensures Handle(env, st, f) == Resend(st, st.hist[|st.hist| - Back(|st.hist|, AckOf(f[0]))..])
  {
    hide KindOf, Resend, HandleData, Reset, Back, AckOf;
  }

  lemma {:induction false} ResendOnly(st: State, bodies: seq<Body>)
    ensures var st1 := Resend(st, bodies);
            && st1 == st.(log := st1.log) && st.log <= st1.log
            && forall i :: |st.log| <= i < |st1.log| ==>
                 st1.log[i].Sent? && exists b :: b in bodies && st1.log[i].frame == Again(b)
    decreases |bodies|
  {
    hide Again;
    if bodies != [] {
      ResendOnly(st, bodies[..|bodies| - 1]);
      assert bodies[|bodies| - 1] in bodies;
    }
  }

  // The first three events after log, where log1 goes on: f is accepted, the number after its
  // own, its control byte divided by 16, is acknowledged, and its payload relayed unmasked.
  predicate TakesData(log: seq<Event>, log1: seq<Event>, f: Body) {
    var k := |log|;
    && log <= log1 && |log1| >= k + 3
    && log1[k] == Accepted(f)
    && log1[k + 1].Sent? && Acknowledges(log1[k + 1].frame, (f[0] as int / 16 + 1) % 8)
    && log1[k + 2].Relayed? && !log1[k + 2].poll && log1[k + 2].ezsp == Mask(f[1..])
  }

  predicate Acknowledges(frame: Body, next: int) {
    |frame| == 1 && frame[0] as int == 128 + next
  }

  // DATA of a fitting size is taken so.
  lemma DataTaken(env: Env, st: State, f: Body)
    requires st.connected && st.ready && f[0] <= 0x7F && 2 <= |f| <= 141
    ensures TakesData(st.log, Handle(env, st, f).log, f)
  {
    KindRanges(f[0]);
    DataHandled(env, st, f);
    DataFirst(env, st, f);
    hide *;
    TakesDataSo(st.log, Handle(env, st, f).log, f);
  }

  lemma TakesDataSo(log: seq<Event>, log1: seq<Event>, f: Body)
    requires f[0] <= 0x7F && log <= log1 && |log1| >= |log| + 3 && log1[|log|] == Accepted(f)
    requires log1[|log| + 1] == Sent([AckCtrl((FrmOf(f[0]) + 1) % 8)])
    requires var e := log1[|log| + 2]; e.Relayed? && !e.poll && e.ezsp == Mask(f[1..])
    ensures TakesData(log, log1, f)
  {
    AckNumber(f[0]);
    hide AckCtrl, FrmOf, Acknowledges, Mask;
  }

  lemma AckNumber(c: byte)
    requires c <= 0x7F
    ensures Acknowledges([AckCtrl((FrmOf(c) + 1) % 8)], (c as int / 16 + 1) % 8)
  {
    CtrlNumbers(0, (FrmOf(c) + 1) % 8);
    FrmNumber(c);
    hide AckCtrl, FrmOf;
  }

  lemma DataHandled(env: Env, st: State, f: Body)
    requires st.ready && IsData(f[0]) && 2 <= |f| <= 141
    ensures Handle(env, st, f) == HandleData(env, st, f)
  {
    hide KindOf, HandleData;
  }

  lemma FrmNumber(c: byte)
    requires c <= 0x7F
    ensures FrmOf(c) == c as int / 16
  {
  }

  lemma DataFirst(env: Env, st: State, f: Body)
    requires st.connected && 2 <= |f| <= 141
    ensures var st1, k := HandleData(env, st, f), |st.log|;
            && st.log <= st1.log && |st1.log| >= k + 3 && st1.log[k] == Accepted(f)
            && st1.log[k + 1] == Sent([AckCtrl((FrmOf(f[0]) + 1) % 8)])
            && st1.log[k + 2].Relayed? && !st1.log[k + 2].poll && st1.log[k + 2].ezsp == Mask(f[1..])
  {
    hide Ezsp.Ask, Mask, Drain, FrmOf, Agreed, SendData, AckCtrl, Carries;
    var ezsp := Mask(f[1..]);
    var st1 := SendAck(Log(st.(ack := (FrmOf(f[0]) + 1) % WINDOW), Accepted(f)));
    var (st2, got) := Relay(env, st1, false, ezsp);
    if got.Some? && got.value != [] {
      var st3 := Adopt(st2, Agreed(st2.ver, ezsp, got.value));
      SendDataCarries(st3, got.value);
      DrainPolls(env, SendData(st3, got.value));
    }
  }
}
