// The bridge as it is built: a fixed receive buffer, a ring of eight slots, small counters.
// Every method is proved against the state machine in BridgeModel.

module Bridge {
  import opened Bytes
  import opened Crc
  import opened Ash
  import opened Whitening
  import opened Coprocessor
  import opened Spi
  import opened Ezsp
  import opened BridgeModel
  import opened Ring

  lemma TcpGrows(log: seq<Event>, e: Event)
    ensures Tcp(log + [e]) == Write(Tcp(log), e)
  {
    assert (log + [e])[..|log + [e]| - 1] == log;
  }

  // The SPI command for an EZSP frame, in a buffer of 148 bytes.
  method WrapFrame(frame: seq<byte>) returns (tx: array<byte>, txlen: nat)
    requires 1 <= |frame| <= 145
    ensures fresh(tx) && txlen <= tx.Length && tx[..txlen] == Wrap(frame)
  {
    hide Complete;
    tx := new byte[MAX_FRAME + 8];
    tx[0], tx[1] := CMD_EZSP_FRAME, |frame| as byte;
    ghost var lead := tx[..2];
    Copy(tx, 2, frame);
    txlen := 2 + |frame|;
    assert tx[..txlen] == lead + frame;
    tx[txlen] := TERMINATOR;
    txlen := txlen + 1;
    assert tx[..txlen] == lead + frame + [TERMINATOR];
  }

  // At most 140 bytes of the frame that a response holds from index 2 on.
  method CopyOut(rsp: array<byte>, ghost frame: seq<byte>) returns (out: seq<byte>)
    requires |frame| + 2 <= rsp.Length && rsp[1] as int == |frame|
    requires forall i :: 0 <= i < |frame| ==> rsp[2 + i] == frame[i]
    ensures out == Take(frame, MAX_FRAME)
  {
    var len := rsp[1] as nat;
    if len > MAX_FRAME {
      len := MAX_FRAME;
    }
    out := rsp[2..2 + len];
    forall i | 0 <= i < len ensures out[i] == frame[i] {
      assert rsp[2 + i] == frame[i];
    }
    assert out == frame[..len];
  }

  // One EZSP frame to the co-processor, and at most 140 bytes of the frame that comes back.
  method Query(port: SpiPort, frame: seq<byte>) returns (r: Option<seq<byte>>)
    requires port.Quiet() && 1 <= |frame| <= 145
    modifies port
    ensures port.Quiet()
    ensures var (full, m) := Ezsp.Ask(port.fw, port.waitBytes, old(port.slave.ncp), frame);
            port.slave.ncp == m && r == if full.None? then None else Some(Take(full.value, MAX_FRAME))
  {
    hide *;
    var tx, txlen := WrapFrame(frame);
    ghost var full;
    var rsp, cls;
    rsp, cls, full := Converse(port, tx[..txlen], frame);
    if cls != RspEzsp {
      return None;
    }
    var out := CopyOut(rsp, full.value);
    return Some(out);
  }

  class AshBridge {
    const port: SpiPort
    const hasHint: bool
    const asserted: nat -> bool
    var hintPos: nat

    var cli: int              // the connected client, negative if none
    var tcp: seq<byte>        // what was written to it
    var ready: bool
    var negotiated: bool
    var frm: num3
    var ack: num3
    var cbseq: byte
    var ver: int
    const rx: array<byte>
    var rxlen: nat
    var esc: bool
    const sentBody: array2<byte>
    const sentLen: array<nat>
    const rand: array<byte>

    ghost var abs: State

    function TheEnv(): Env {
      Env(port.fw, port.waitBytes, hasHint, asserted)
    }

    ghost predicate Shape()
      reads this, port, rand
    {
      && rx.Length == RX_SIZE && rand.Length == 256 && rx != rand
      && sentBody.Length0 == WINDOW && sentBody.Length1 == MAX_FRAME && sentLen.Length == WINDOW
      && port.Quiet()
      && forall i :: 0 <= i < 256 ==> rand[i] == Rand(i)
    }

    ghost predicate Counters()
      reads this, port
    {
      && (cli >= 0) == abs.connected && ready == abs.ready && negotiated == abs.negotiated
      && frm == |abs.hist| % WINDOW && ack == abs.ack && cbseq == abs.cbseq && ver == abs.ver
      && hintPos == abs.hintPos && port.slave.ncp == abs.ncp
      && tcp == Tcp(abs.log)
    }

    ghost predicate LineHeld()
      reads this, rx
      requires rx.Length == RX_SIZE
    {
      esc == abs.line.esc && rxlen == |Held(abs.line.raw)| && rx[..rxlen] == Held(abs.line.raw)
    }

    ghost predicate SlotHolds(k: num3, body: seq<byte>)
      reads sentBody, sentLen
      requires sentBody.Length0 == WINDOW && sentBody.Length1 == MAX_FRAME && sentLen.Length == WINDOW
    {
      sentLen[k] == |body| <= MAX_FRAME && forall i :: 0 <= i < |body| ==> sentBody[k, i] == body[i]
    }

    ghost predicate RingHeld()
      reads this, sentBody, sentLen
      requires sentBody.Length0 == WINDOW && sentBody.Length1 == MAX_FRAME && sentLen.Length == WINDOW
    {
      forall k: num3 :: SlotHolds(k, SlotOf(abs.hist, k))
    }

    ghost predicate Valid()
      reads this, port, rx, rand, sentBody, sentLen
    {
      Shape() && Counters() && LineHeld() && RingHeld()
    }

    constructor (port: SpiPort, hasHint: bool, asserted: nat -> bool)
      requires port.Quiet()
      ensures Valid() && this.port == port && this.hasHint == hasHint && this.asserted == asserted
      ensures abs == Start(port.slave.ncp)
      ensures fresh(rx) && fresh(rand) && fresh(sentBody) && fresh(sentLen)
    {
      this.port, this.hasHint, this.asserted, this.hintPos := port, hasHint, asserted, 0;
      cli, tcp, ready, negotiated, frm, ack, cbseq, ver, rxlen, esc := -1, [], false, false, 0, 0, 0, 4, 0, false;
      rx := new byte[RX_SIZE];
      sentBody := new byte[WINDOW, MAX_FRAME];
      sentLen := new nat[WINDOW];
      var table := RandInit();
      rand := table;
      abs := Start(port.slave.ncp);
      new;
      ForgetSlots();
    }

    // Clears the ring: no slot holds a frame.
    method ForgetSlots()
      requires sentBody.Length0 == WINDOW && sentBody.Length1 == MAX_FRAME && sentLen.Length == WINDOW
      modifies sentLen
      ensures abs.hist == [] ==> RingHeld()
    {
      forall k | 0 <= k < WINDOW {
        sentLen[k] := 0;
      }
      if abs.hist == [] {
        forall k: num3
          ensures SlotHolds(k, SlotOf(abs.hist, k))
        {
          SlotEmpty([], k);
        }
      }
    }

    // ----- Sending -----

    method AshSend(frame: Body)
      requires Valid()
      modifies this`tcp, this`abs
      ensures Valid() && abs == Send(old(abs), frame)
    {
      if cli < 0 || |frame| + 2 > MAX_FRAME + 2 {
        return;
      }
      assert abs.connected;
      hide Valid, Encode;
      var buf, pos := StuffFrame(frame);
      WriteOut(buf[..pos], frame);
    }

    // Bytes to the client's socket.
    method WriteOut(bytes: seq<byte>, ghost frame: Body)
      requires Valid() && cli >= 0 && bytes == Encode(frame)
      modifies this`tcp, this`abs
      ensures Valid() && abs == Log(old(abs), Sent(frame))
    {
      hide Rand, Encode, SlotOf, Held, Tcp;
      TcpGrows(abs.log, Sent(frame));
      tcp := tcp + bytes;
      abs := Log(abs, Sent(frame));
    }

    method AshSendAck()
      requires Valid()
      modifies this`tcp, this`abs
      ensures Valid() && abs == SendAck(old(abs))
    {
      AshSend([AckCtrl(ack)]);
    }

    // A body goes into the slot of its frame number, over whatever was there.
    method Store(body: Body)
      requires Valid() && |body| <= MAX_FRAME
      modifies this`frm, this`abs, sentBody, sentLen
      ensures Valid() && abs == old(abs).(hist := old(abs).hist + [body])
    {
      hide SlotOf, Tcp, Rand, Held;
      var slot := frm;
      Fill(slot, body);
      frm := (frm + 1) % WINDOW;
      abs := abs.(hist := abs.hist + [body]);
      forall k: num3
        ensures SlotHolds(k, SlotOf(abs.hist, k))
      {
        SlotStored(old(abs).hist, body, k);
        assert k != slot ==> old(SlotHolds(k, SlotOf(abs.hist, k)));
      }
    }

    method Fill(slot: num3, body: Body)
      requires sentBody.Length0 == WINDOW && sentBody.Length1 == MAX_FRAME && sentLen.Length == WINDOW
      requires |body| <= MAX_FRAME
      modifies sentBody, sentLen
      ensures SlotHolds(slot, body)
      ensures forall k: num3, b: seq<byte> :: k != slot && old(SlotHolds(k, b)) ==> SlotHolds(k, b)
    {
      forall i | 0 <= i < |body| {
        sentBody[slot, i] := body[i];
      }
      sentLen[slot] := |body|;
    }

    // Hand one EZSP frame to the client as a DATA frame, if it fits in one.
    method AshSendData(ezsp: seq<byte>)
      requires Valid()
      modifies this`frm, this`tcp, this`abs, sentBody, sentLen
      ensures Valid() && abs == SendData(old(abs), ezsp)
    {
      if |ezsp| + 1 > MAX_FRAME {
        return;
      }
      var body := MaskInto(rand, DataCtrl(frm, ack), ezsp);
      Store(body[..|ezsp| + 1]);
      AshSend(body[..|ezsp| + 1]);
    }

    // The copy of a stored body that goes out again, with the retransmit bit set.
    method Reload(k: num3) returns (body: array<byte>)
      requires Valid() && sentLen[k] > 0
      ensures fresh(body) && sentLen[k] <= body.Length && SlotOf(abs.hist, k) != []
      ensures body[..sentLen[k]] == Again(SlotOf(abs.hist, k))
    {
      hide SlotOf, Tcp, Rand, Held, Retry;
      body := new byte[MAX_FRAME];
      assert SlotHolds(k, SlotOf(abs.hist, k));
      forall i | 0 <= i < sentLen[k] {
        body[i] := sentBody[k, i];
      }
      body[0] := Retry(body[0]);
    }

    // One slot again, unless it is empty.
    method ResendSlot(k: num3)
      requires Valid()
      modifies this`tcp, this`abs
      ensures Valid() && abs.hist == old(abs).hist
      ensures abs == if SlotOf(old(abs).hist, k) == [] then old(abs)
                     else Send(old(abs), Again(SlotOf(old(abs).hist, k)))
    {
      hide SlotOf, Again;
      assert SlotHolds(k, SlotOf(abs.hist, k));
      if sentLen[k] > 0 {
        var body := Reload(k);
        hide Shape, Counters, LineHeld, RingHeld;
        SendKeepsHistory(abs, body[..sentLen[k]]);
        AshSend(body[..sentLen[k]]);
      }
    }

    // Resend everything from the requested number up to what was sent last.
    method AshRetransmit(from: num3)
      requires Valid()
      modifies this`tcp, this`abs
      ensures Valid() && abs == Retransmit(old(abs), from)
    {
      ghost var hist, start := abs.hist, abs;
      ghost var done: seq<Body> := [];
      assert frm == |hist| % WINDOW;
      hide Valid, SlotOf, Behind, Again, Send, Walk, Resend, Visit;
      ResendNothing(start);
      assert done + Walk(hist, from) == Walk(hist, from);
      var n: num3 := from;
      while n != frm
        invariant Valid() && abs.hist == hist && abs == Resend(start, done)
        invariant done + Walk(hist, n) == Walk(hist, from)
        decreases Behind(|hist|, n)
      {
        BehindStep(|hist|, n);
        WalkOn(hist, n, done);
        ResendOne(start, hist, n, done);
        ResendSlot(n);
        done := Visit(hist, n, done);
        n := (n + 1) % WINDOW;
      }
      WalkDone(hist, n, from, done);
    }

    // ----- Relaying -----

    // Send an encoded EZSP frame to the co-processor; its reply verbatim, if one came.
    method EzspRelay(frame: seq<byte>, ghost poll: bool) returns (r: Option<seq<byte>>)
      requires Valid()
      modifies this`abs, port
      ensures Valid()
      ensures 1 <= |frame| <= 145 ==> (abs, r) == Relay(TheEnv(), old(abs), poll, frame)
      ensures |frame| < 1 || |frame| > 145 ==> abs == old(abs) && r == None
    {
      if frame == [] || |frame| > 255 || |frame| + 3 > MAX_FRAME + 8 {
        return None;
      }
      hide Rand, SlotOf, Ezsp.Ask, Tcp, Held;
      ghost var n := port.slave.ncp;
      r := Query(port, frame);
      abs := abs.(ncp := port.slave.ncp);
      Record(Relayed(poll, ver, frame, Ezsp.Ask(port.fw, port.waitBytes, n, frame).0));
    }

    // The empty callback command, in the layout of the version agreed.
    method BuildPoll() returns (f: array<byte>, n: nat)
      ensures fresh(f) && n <= f.Length && f[..n] == PollFrame(ver, cbseq)
    {
      f := new byte[8];
      f[0] := cbseq;
      if ver >= 8 {
        f[1], f[2], f[3], f[4], n := 0x00, 0x01, EZSP_CALLBACK, 0x00, 5;
      } else if ver >= 5 {
        f[1], f[2], f[3], f[4], n := 0x00, 0xFF, 0x00, EZSP_CALLBACK, 5;
      } else {
        f[1], f[2], n := 0x00, EZSP_CALLBACK, 3;
      }
    }

    // One queued callback, ready to forward as it is; None when there is nothing to forward.
    method EzspRelayCallback() returns (r: Option<seq<byte>>)
      requires Valid()
      modifies this`abs, this`cbseq, port
      ensures Valid() && (abs, r) == RelayCallback(TheEnv(), old(abs))
    {
      hide Next, PollFrame, Relay;
      var f, n := BuildPoll();
      var idOff := IdOff(ver);
      cbseq := Next(cbseq);
      abs := abs.(cbseq := Next(abs.cbseq));
      r := EzspRelay(f[..n], true);
      if r.None? || |r.value| <= idOff || r.value[idOff] == EZSP_NO_CALLBACKS {
        return None;
      }
    }

    method DrainOne() returns (more: bool)
      requires Valid()
      modifies this`abs, this`cbseq, this`hintPos, this`frm, this`tcp, port, sentBody, sentLen
      ensures Valid() && (abs, more) == DrainStep(TheEnv(), old(abs))
    {
      hide RelayCallback, SendData;
      var low := asserted(hintPos);
      hintPos := hintPos + 1;
      abs := abs.(hintPos := abs.hintPos + 1);
      if !low {
        return false;
      }
      var r := EzspRelayCallback();
      if r.None? {
        return false;
      }
      AshSendData(r.value);
      return true;
    }

    // Forward queued callbacks while nHOST_INT is asserted, bounded against a stuck line.
    method DrainUpTo(limit: nat)
      requires Valid()
      modifies this`abs, this`cbseq, this`hintPos, this`frm, this`tcp, port, sentBody, sentLen
      ensures Valid() && abs == DrainLoop(TheEnv(), old(abs), limit)
    {
      hide Valid, DrainStep, DrainLoop;
      var guard := 0;
      while guard < limit
        invariant 0 <= guard <= limit && Valid()
        invariant DrainLoop(TheEnv(), abs, limit - guard) == DrainLoop(TheEnv(), old(abs), limit)
      {
        DrainUnfold(TheEnv(), abs, limit - guard);
        var more := DrainOne();
        if !more {
          return;
        }
        guard := guard + 1;
      }
      DrainUnfold(TheEnv(), abs, 0);
    }

    method DrainCallbacks()
      requires Valid()
      modifies this`abs, this`cbseq, this`hintPos, this`frm, this`tcp, port, sentBody, sentLen
      ensures Valid() && abs == Drain(TheEnv(), old(abs))
    {
      hide DrainLoop;
      if cli < 0 || !ready || !negotiated || !hasHint {
        return;
      }
      DrainUpTo(DRAIN_LIMIT);
    }

    // ----- Receiving -----

    method BridgeReset()
      requires Valid()
      modifies this`abs, this`frm, this`ack, this`ver, this`ready, this`negotiated, this`tcp, port, sentLen
      ensures Valid() && abs == Reset(old(abs))
    {
      hide Valid, Send;
      ClearCounters();
      Record(NcpReset);
      AshSend(RSTACK);
      SetFlags(true);
    }

    // Whether the handshake is done; the version is then still to be agreed.
    method SetFlags(shaken: bool)
      requires Valid()
      modifies this`abs, this`ready, this`negotiated
      ensures Valid() && abs == old(abs).(ready := shaken, negotiated := false)
    {
      hide Rand, Held, Tcp, SlotOf;
      ready, negotiated := shaken, false;
      abs := abs.(ready := shaken, negotiated := false);
    }

    method ClearCounters()
      requires Valid()
      modifies this`abs, this`frm, this`ack, this`ver, port, sentLen
      ensures Valid() && abs == old(abs).(ncp := AfterReset(old(abs).ncp), hist := [], ack := 0, ver := 4)
    {
      hide Rand, Held, Tcp, AfterReset, SlotOf;
      port.NcpReset();
      abs := abs.(ncp := AfterReset(abs.ncp));
      Forget();
    }

    // A host frame with id byte 0: adopt what stands where its answer would have a version.
    method Sniff(ezsp: seq<byte>, resp: seq<byte>)
      requires Valid()
      modifies this`abs, this`ver, this`negotiated
      ensures Valid() && abs == Adopt(old(abs), Agreed(old(abs).ver, ezsp, resp))
    {
      hide Rand, Held, Tcp, SlotOf;
      var hdr, idOff := Hdr(ver), IdOff(ver);
      if |ezsp| > idOff && ezsp[idOff] == EZSP_VERSION && |resp| > hdr {
        var neg := resp[hdr] as int;
        if 4 <= neg <= 13 {
          ver, negotiated := neg, true;
          abs := abs.(ver := neg, negotiated := true);
        }
      }
    }

    // A DATA frame from a client that has done the handshake.
    method TakeData(f: Body)
      requires Valid() && 2 <= |f| <= MAX_FRAME + 1
      modifies this, port, sentBody, sentLen
      ensures Valid() && abs == HandleData(TheEnv(), old(abs), f)
    {
      hide Mask, Relay, Drain, SendData, Agreed, Adopt, SendAck;
      var plain := Unmask(rand, f[1..]);
      var ezsp := plain[..|f| - 1];
      // acknowledge before touching SPI
      Note(f);
      AshSendAck();
      var resp := EzspRelay(ezsp, false);
      if resp.None? || resp.value == [] {
        return;
      }
      Sniff(ezsp, resp.value);
      AshSendData(resp.value);
      DrainCallbacks();
    }

    // The next frame number expected follows the one just accepted.
    method Note(f: Body)
      requires Valid()
      modifies this`abs, this`ack
      ensures Valid() && abs == Log(old(abs).(ack := (FrmOf(f[0]) + 1) % WINDOW), Accepted(f))
    {
      hide Rand, Held, SlotOf, FrmOf, Tcp;
      var next: num3 := (FrmOf(f[0]) + 1) % WINDOW;
      ack := next;
      abs := abs.(ack := next);
      Record(Accepted(f));
    }

    // Something that happened without writing to the client.
    ghost method Record(e: Event)
      requires Valid() && (e.NcpReset? || e.Accepted? || e.Relayed?)
      modifies this`abs
      ensures Valid() && abs == Log(old(abs), e)
    {
      hide Rand, Held, SlotOf, Tcp;
      TcpGrows(abs.log, e);
      abs := Log(abs, e);
    }

    // One complete, unescaped, checked frame from the client.
    method HandleFrame(f: Body)
      requires Valid()
      modifies this, port, sentBody, sentLen
      ensures Valid() && abs == Handle(TheEnv(), old(abs), f)
    {
      hide Reset, Retransmit, HandleData;
      var ctrl := f[0];
      if ctrl == CTRL_RST {
        BridgeReset();
        return;
      }
      if ctrl & 0xE0 == 0x80 {
        return;
      }
      if ctrl & 0xE0 == 0xA0 {
        AshRetransmit(AckOf(ctrl));
        return;
      }
      if ctrl & 0x80 != 0 {
        return;
      }
      if !ready {
        return;
      }
      if |f| - 1 == 0 || |f| - 1 > MAX_FRAME {
        return;
      }
      TakeData(f);
    }

    // Whether the buffer holds a frame with the right check bytes.
    method Checked() returns (ok: bool)
      requires Valid()
      ensures ok == Intact(Held(abs.line.raw))
      ensures ok ==> 3 <= rxlen <= rx.Length && rx[..rxlen - 2] == Unseal(Held(abs.line.raw))
    {
      hide Rand, Tcp, SlotOf;
      ghost var held := Held(abs.line.raw);
      assert rxlen == |held| && rx[..rxlen] == held;
      ok := false;
      if rxlen >= 3 {
        var want := Word(rx[rxlen - 2], rx[rxlen - 1]);
        var crc := AshCrc(rx[..rxlen - 2]);
        assert rx[..rxlen - 2] == held[..rxlen - 2] && want == Word(held[rxlen - 2], held[rxlen - 1]);
        ok := crc == want;
      }
    }

    // A FLAG: deliver what the buffer holds if it checks out, then start over.
    method EndFrame()
      requires Valid()
      modifies this, port, sentBody, sentLen
      ensures Valid() && abs == FeedByte(TheEnv(), old(abs), FLAG)
    {
      FlagEnds(TheEnv(), abs);
      hide Handle, FeedByte, Valid, Intact, Held;
      var ok := Checked();
      if ok {
        HandleFrame(rx[..rxlen - 2]);
      }
      Restart(false);
    }

    // The buffer is emptied; escaping says how the next data byte is read.
    method Restart(escaping: bool)
      requires Valid()
      modifies this`rxlen, this`esc, this`abs
      ensures Valid() && abs == old(abs).(line := Line([], escaping))
    {
      hide Rand, Tcp, SlotOf, Held;
      HeldNothing();
      rxlen, esc := 0, escaping;
      abs := abs.(line := Line([], escaping));
    }

    // A data byte, after the escape is undone; a full buffer is emptied instead.
    method Push(c: byte)
      requires Valid()
      modifies this`rxlen, this`esc, this`abs, rx
      ensures Valid() && abs == old(abs).(line := Line(old(abs).line.raw + [c], false))
    {
      hide Rand, Tcp, SlotOf;
      HeldGrows(abs.line.raw, c);
      esc := false;
      if rxlen < RX_SIZE {
        rx[rxlen] := c;
        rxlen := rxlen + 1;
      } else {
        rxlen := 0;
      }
      abs := abs.(line := Line(abs.line.raw + [c], false));
    }

    method BridgeFeed(buf: seq<byte>)
      requires Valid()
      modifies this, port, sentBody, sentLen, rx
      ensures Valid() && abs == Feed(TheEnv(), old(abs), buf)
    {
      hide Valid, FeedByte;
      var i := 0;
      while i < |buf|
        invariant 0 <= i <= |buf| && Valid()
        invariant abs == Feed(TheEnv(), old(abs), buf[..i])
      {
        assert buf[..i + 1][..i] == buf[..i];
        FeedOne(buf[i]);
        i := i + 1;
      }
      assert buf[..i] == buf;
    }

    method FeedOne(c: byte)
      requires Valid()
      modifies this, port, sentBody, sentLen, rx
      ensures Valid() && abs == FeedByte(TheEnv(), old(abs), c)
    {
      hide Handle, Rand, Tcp, SlotOf, Held, Intact;
      if c == XON || c == XOFF {
      } else if c == CANCEL {
        Restart(false);
      } else if c == SUB {
        Restart(true);
      } else if c == ESC {
        esc := true;
        abs := abs.(line := Line(abs.line.raw, true));
      } else if c == FLAG {
        EndFrame();
      } else {
        Push(if esc then c ^ 0x20 else c);
      }
    }

    // ----- The event loop -----

    method DropClient()
      requires Valid()
      modifies this`cli, this`tcp, this`abs, this`rxlen, this`esc
      ensures Valid() && abs == Drop(old(abs))
    {
      if cli < 0 {
        return;
      }
      Restart(false);
      SetClient(-1, Dropped);
    }

    // The socket changes hands; nothing has been written to the new one.
    method SetClient(fd: int, ghost e: Event)
      requires Valid() && (if fd < 0 then e.Dropped? else e.Connected?)
      modifies this`cli, this`tcp, this`abs
      ensures Valid() && abs == Log(old(abs).(connected := fd >= 0), e)
    {
      hide Rand, SlotOf, Held, Tcp;
      TcpGrows(abs.log, e);
      cli, tcp := fd, [];
      abs := Log(abs.(connected := fd >= 0), e);
    }

    // One client owns the radio: a new one replaces the old.
    method AcceptClient(fd: nat)
      requires Valid()
      modifies this`cli, this`tcp, this`abs, this`rxlen, this`esc, this`ready, this`negotiated,
               this`frm, this`ack, this`ver, sentLen
      ensures Valid() && abs == Accept(old(abs))
    {
      assert abs.connected == (cli >= 0);
      hide Valid;
      if cli >= 0 {
        DropClient();
      }
      SetFlags(false);
      Restart(false);
      Forget();
      SetClient(fd, Connected);
    }

    method Forget()
      requires Valid()
      modifies this`abs, this`frm, this`ack, this`ver, sentLen
      ensures Valid() && abs == old(abs).(hist := [], ack := 0, ver := 4)
    {
      hide Rand, Held, Tcp;
      frm, ack, ver := 0, 0, 4;
      abs := abs.(hist := [], ack := 0, ver := 4);
      ForgetSlots();
    }

    // One turn of the loop, after the wait: a new connection, the client's activity, a drain.
    method LoopTurn(arrival: bool, fd: nat, act: Activity)
      requires Valid()
      modifies this, port, sentBody, sentLen, rx
      ensures Valid() && abs == Turn(TheEnv(), old(abs), arrival, act)
    {
      hide Feed, Drain, Drop, Accept;
      var polled := cli >= 0;
      assert polled == abs.connected;
      if arrival {
        AcceptClient(fd);
      }
      if polled && act.Hangup? {
        DropClient();
        return;
      }
      if polled {
        match act {
          case Readable(bytes) => BridgeFeed(bytes);
          case EndOfStream => DropClient();
          case _ =>
        }
      }
      DrainCallbacks();
    }
  }

  lemma HeldNothing()
    ensures Held([]) == []
  {
  }

  lemma FlagEnds(env: Env, st: State)
    ensures var held := Held(st.line.raw);
            FeedByte(env, st, FLAG) ==
            (if Intact(held) then Handle(env, st, Unseal(held)) else st).(line := Line([], false))
  {
    hide Handle, Held;
  }

  lemma HeldGrows(raw: seq<byte>, c: byte)
    ensures Held(raw + [c]) == if |Held(raw)| < RX_SIZE then Held(raw) + [c] else []
  {
    var n, m := |raw|, RX_SIZE + 1;
    assert (n + 1) % m == if n % m < RX_SIZE then n % m + 1 else 0;
  }

  lemma WalkDone(hist: seq<Body>, n: num3, from: num3, done: seq<Body>)
    requires n == |hist| % WINDOW && done + Walk(hist, n) == Walk(hist, from)
    ensures done == hist[|hist| - Back(|hist|, from)..]
  {
    RingAgrees(hist, from);
    assert Walk(hist, n) == [];
    assert done + [] == done;
  }

  lemma ResendNothing(st: State)
    ensures Resend(st, []) == st
  {
  }

  lemma SendKeepsHistory(st: State, frame: Body)
    ensures Send(st, frame).hist == st.hist
  {
  }
}
