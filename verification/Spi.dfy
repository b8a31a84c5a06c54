// The SPI master: one framed transaction, its classification, and a command with its retry.

module Spi {
  import opened Bytes
  import opened Coprocessor

  datatype Class = RspIdle | RspReset | RspError | RspVersion | RspStatus | RspEzsp | RspOther

  // ----- What a transaction does, for any co-processor -----

  function Min(a: nat, b: nat): nat { if a < b then a else b }

  // The bytes received, and the co-processor afterwards. room is the size of the receive
  // buffer; nothing comes back when the co-processor stays idle for wait bytes.
  function Transact(fw: Firmware, wait: nat, room: nat, n: Ncp, cmd: seq<byte>): (seq<byte>, Ncp) {
    var a := NextAnswer(fw, n, cmd);
    var r := ReplyBytes(a.reply);
    if a.idles < wait then
      (r[..Min(|r|, room)], Ncp(HeardCommand(n, cmd), |r| > room))
    else
      ([], Ncp(HeardCommand(n, cmd), true))
  }

  // Index of the first byte that is not idle; 0x00 is not idle.
  function FirstResponse(rx: seq<byte>): (i: int)
    ensures -1 <= i < |rx|
    ensures i < 0 ==> forall k :: 0 <= k < |rx| ==> rx[k] == SPI_IDLE
    ensures i >= 0 ==> rx[i] != SPI_IDLE && forall k :: 0 <= k < i ==> rx[k] == SPI_IDLE
  {
    if rx == [] then -1
    else
      var i := FirstResponse(rx[..|rx| - 1]);
      if i >= 0 then i else if rx[|rx| - 1] != SPI_IDLE then |rx| - 1 else -1
  }

  method SpiFirstResponse(rx: seq<byte>) returns (r: int)
    ensures r == FirstResponse(rx)
  {
    var i := 0;
    while i < |rx|
      invariant 0 <= i <= |rx|
      invariant forall k :: 0 <= k < i ==> rx[k] == SPI_IDLE
    {
      if rx[i] != SPI_IDLE {
        return i;
      }
      i := i + 1;
    }
    return -1;
  }

  function ClassOf(b: byte): Class {
    if b == 0xFE then RspEzsp
    else if b & 0xC0 == 0x80 then RspVersion
    else if b & 0xFE == 0xC0 then RspStatus
    else if b == 0x00 then RspReset
    else if b <= 0x04 then RspError
    else RspOther
  }

  function Classify(rx: seq<byte>): Class {
    var i := FirstResponse(rx);
    if i < 0 then RspIdle else ClassOf(rx[i])
  }

  // A command, re-sent once when the answer is the reset notification.
  function Exchange(fw: Firmware, wait: nat, room: nat, n: Ncp, cmd: seq<byte>, retry: bool): (seq<byte>, Ncp) {
    var (rx, n1) := Transact(fw, wait, room, n, cmd);
    if Classify(rx) == RspReset && retry then Transact(fw, wait, room, n1, cmd) else (rx, n1)
  }

  // ----- The bus -----

  datatype Bus = Cs(high: bool) | IntCs(high: bool) | Transfer(len: nat, keep: bool)

  function Clocked(ts: seq<Bus>): nat {
    if ts == [] then 0
    else
      var last := ts[|ts| - 1];
      Clocked(ts[..|ts| - 1]) + if last.Transfer? then last.len else 0
  }

  class SpiPort {
    const fw: Firmware
    const hostCs: bool      // the host drives nSSEL; otherwise the kernel does
    const intFollows: bool  // nSSEL_INT is wired and moves with nSSEL
    const waitBytes: nat
    var slave: Slave
    var nssel: bool         // line levels; high is released
    var nsselInt: bool
    ghost var log: seq<Bus>

    ghost predicate Quiet()
      reads this
    {
      nssel && !slave.selected
    }

    constructor (fw: Firmware, hostCs: bool, intFollows: bool, waitBytes: nat)
      ensures Quiet() && nsselInt && log == [] && slave.ncp == Ncp([], false)
      ensures this.fw == fw && this.hostCs == hostCs && this.intFollows == intFollows
      ensures this.waitBytes == waitBytes
    {
      this.fw, this.hostCs, this.intFollows, this.waitBytes := fw, hostCs, intFollows, waitBytes;
      slave := Slave(Ncp([], false), false, Listening([]));
      nssel, nsselInt, log := true, true, [];
    }

    ghost function Edges(high: bool): seq<Bus> {
      (if hostCs then [Cs(high)] else []) + (if intFollows then [IntCs(high)] else [])
    }

    method CsAssert()
      modifies this
      ensures slave == if hostCs then Select(old(slave)) else old(slave)
      ensures nssel == (old(nssel) && !hostCs) && nsselInt == (old(nsselInt) && !intFollows)
      ensures log == old(log) + Edges(false)
      ensures Edges(false) == (if hostCs then [Cs(false)] else []) + (if intFollows then [IntCs(false)] else [])
    {
      log := log + Edges(false);
      if hostCs {
        nssel, slave := false, Select(slave);
      }
      if intFollows {
        nsselInt := false;
      }
    }

    method CsRelease()
      modifies this
      ensures slave == if hostCs then Release(old(slave)) else old(slave)
      ensures hostCs ==> !slave.selected
      ensures nssel == (old(nssel) || hostCs) && nsselInt == (old(nsselInt) || intFollows)
      ensures log == old(log) + Edges(true)
      ensures Edges(true) == (if hostCs then [Cs(true)] else []) + (if intFollows then [IntCs(true)] else [])
    {
      log := log + Edges(true);
      if hostCs {
        nssel, slave := true, Release(slave);
      }
      if intFollows {
        nsselInt := true;
      }
    }

    // One transfer. A kernel-driven chip select is asserted for it if need be, and released
    // after it unless keep is set.
    method Raw(tx: seq<byte>, keep: bool) returns (rx: seq<byte>)
      requires hostCs ==> slave.selected
      requires slave.selected == !nssel
      modifies this
      ensures var start := if old(slave).selected then old(slave) else Select(old(slave));
              var (s, miso) := ClockAll(fw, start, tx);
              rx == miso && slave == if keep || hostCs then s else Release(s)
      ensures slave.selected == !nssel && nssel == !(keep || hostCs) && nsselInt == old(nsselInt)
      ensures log == old(log) + [Transfer(|tx|, keep)]
    {
      log := log + [Transfer(|tx|, keep)];
      if !hostCs && nssel {
        nssel, slave := false, Select(slave);
      }
      ghost var start := slave;
      rx := [];
      var i := 0;
      while i < |tx|
        invariant 0 <= i <= |tx|
        invariant (slave, rx) == ClockAll(fw, start, tx[..i])
        invariant slave.selected && !nssel && nsselInt == old(nsselInt)
        invariant log == old(log) + [Transfer(|tx|, keep)]
      {
        assert tx[..i + 1][..i] == tx[..i];
        var (s, b) := Clock(fw, slave, tx[i]);
        slave, rx := s, rx + [b];
        i := i + 1;
      }
      assert tx[..|tx|] == tx;
      if !hostCs && !keep {
        nssel, slave := true, Release(slave);
      }
    }

    ghost predicate Held(ts: seq<Bus>) {
      forall i :: 0 <= i < |ts| ==> ts[i].Transfer? && ts[i].keep
    }

    // Chip select is kept to the last transfer, which drops it when the kernel drives it.
    ghost predicate Closed(ts: seq<Bus>) {
      ts != [] && Held(ts[..|ts| - 1]) && ts[|ts| - 1].Transfer? && ts[|ts| - 1].keep == hostCs
    }

    // The transfer that carries the command.
    method Send(tx: seq<byte>)
      requires Complete(tx) && slave.selected == !nssel
      requires hostCs ==> slave.selected
      requires slave.selected ==> slave.phase == Listening([])
      modifies this
      ensures slave == Slave(Ncp(HeardCommand(old(slave.ncp), tx), false), true,
                             Answering(Wire(NextAnswer(fw, old(slave.ncp), tx)), 0))
      ensures !nssel && nsselInt == old(nsselInt) && log == old(log) + [Transfer(|tx|, true)]
    {
      hide Wire, NextAnswer;
      ListensToCommand(fw, if slave.selected then slave else Select(slave), tx);
      var got := Raw(tx, true);
    }

    // A transfer of idle bytes while the co-processor is answering.
    method Fetch(count: nat, keep: bool, ghost after: Ncp, ghost w: seq<byte>, ghost k: nat)
      returns (got: seq<byte>)
      requires slave == Slave(after, true, Answering(w, k)) && !nssel && k + count <= |w|
      modifies this
      ensures got == w[k..k + count]
      ensures var s := Slave(after, true, Answering(w, k + count));
              slave == if keep || hostCs then s else Release(s)
      ensures nssel == !(keep || hostCs) == !slave.selected && nsselInt == old(nsselInt)
      ensures log == old(log) + [Transfer(count, keep)]
    {
      var pad := seq(count, i => SPI_IDLE);
      AnswersInOrder(fw, slave, pad);
      got := Raw(pad, keep);
    }

    method Clear(rx: array<byte>)
      modifies rx
      ensures forall i :: 0 <= i < rx.Length ==> rx[i] == 0
    {
      forall i | 0 <= i < rx.Length {
        rx[i] := 0;
      }
    }

    // Chip select and the command.
    method Begin(tx: seq<byte>)
      requires Quiet() && Complete(tx)
      modifies this
      ensures slave == Slave(Ncp(HeardCommand(old(slave.ncp), tx), false), true,
                             Answering(Wire(NextAnswer(fw, old(slave.ncp), tx)), 0))
      ensures !nssel && nsselInt == (old(nsselInt) && !intFollows)
      ensures log == old(log) + Edges(false) + [Transfer(|tx|, true)]
    {
      CsAssert();
      Send(tx);
    }

    // Clocks idle bytes until the co-processor starts answering, or gives up.
    method WaitStates(ghost a: Answer, ghost after: Ncp) returns (b: byte, ghost ts: seq<Bus>)
      requires slave == Slave(after, true, Answering(Wire(a), 0)) && !nssel
      modifies this
      ensures !nssel && nsselInt == old(nsselInt) && log == old(log) + ts
      ensures Held(ts) && Clocked(ts) == |ts|
      ensures a.idles < waitBytes ==> b == ReplyBytes(a.reply)[0] && |ts| == a.idles + 1
      ensures a.idles >= waitBytes ==> b == SPI_IDLE && |ts| == waitBytes
      ensures slave == Slave(after, true, Answering(Wire(a), |ts|))
    {
      b, ts := SPI_IDLE, [];
      var i := 0;
      while i < waitBytes
        invariant 0 <= i <= waitBytes && i <= a.idles && b == SPI_IDLE
        invariant slave == Slave(after, true, Answering(Wire(a), i)) && !nssel
        invariant |ts| == i && Held(ts) && Clocked(ts) == i
        invariant log == old(log) + ts && nsselInt == old(nsselInt)
      {
        var got := Fetch(1, true, after, Wire(a), i);
        b := got[0];
        assert (ts + [Transfer(1, true)])[..|ts|] == ts;
        ts := ts + [Transfer(1, true)];
        i := i + 1;
        if b != SPI_IDLE {
          assert Wire(a)[a.idles..][0] == Wire(a)[a.idles];
          break;
        }
      }
    }

    // Works out from the response type how many bytes are left; a frame says so itself.
    method FetchHead(b: byte, rx: array<byte>, ghost r: seq<byte>, ghost after: Ncp, ghost w: seq<byte>, ghost k: nat)
      returns (n: nat, remain: nat, ghost ts: seq<Bus>)
      requires slave == Slave(after, true, Answering(w, k + 1)) && !nssel
      requires k < |w| && w[k..] == r && SelfDescribing(r)
      requires b == r[0] && rx.Length >= 3
      modifies this, rx
      ensures 1 <= n <= 2 && remain >= 1 && n + remain == |r|
      ensures forall i :: 0 <= i < n ==> rx[i] == r[i]
      ensures forall i :: n <= i < rx.Length ==> rx[i] == old(rx[i])
      ensures nsselInt == old(nsselInt) && log == old(log) + ts && !nssel
      ensures Held(ts) && Clocked(ts) == n - 1
      ensures slave == Slave(after, true, Answering(w, k + n))
    {
      hide Release;
      rx[0] := b;
      n, ts := 1, [];
      if b == CMD_EZSP_FRAME {
        var got := Fetch(1, true, after, w, k + 1);
        assert got[0] == w[k..][1];
        ts := [Transfer(1, true)];
        assert ts[..0] == [];
        rx[1] := got[0];
        n := 2;
        remain := got[0] as nat + 1;
      } else if b <= ERR_UNSUPPORTED {
        remain := 2;
      } else {
        remain := 1;
      }
    }

    // Fetches exactly the bytes that are left.
    method FetchReply(b: byte, rx: array<byte>, ghost r: seq<byte>, ghost after: Ncp, ghost w: seq<byte>, ghost k: nat)
      returns (n: nat, ghost ts: seq<Bus>)
      requires slave == Slave(after, true, Answering(w, k + 1)) && !nssel
      requires k < |w| && w[k..] == r && SelfDescribing(r)
      requires b == r[0] && rx.Length >= 3
      modifies this, rx
      ensures n == Min(|r|, rx.Length)
      ensures forall i :: 0 <= i < n ==> rx[i] == r[i]
      ensures forall i :: n <= i < rx.Length ==> rx[i] == old(rx[i])
      ensures nsselInt == old(nsselInt) && log == old(log) + ts && nssel == !hostCs == !slave.selected
      ensures Closed(ts) && Clocked(ts) == n - 1
      ensures var s := Slave(after, true, Answering(w, k + n));
              slave == if hostCs then s else Release(s)
    {
      hide Release, Held, Closed, Clocked;
      var remain;
      n, remain, ts := FetchHead(b, rx, r, after, w, k);
      if remain > rx.Length - n {
        remain := rx.Length - n;
      }
      if remain > 260 {
        remain := 260;
      }
      // the buffer always has room for one more byte here
      n, ts := FetchLast(rx, n, remain, ts, r, after, w, k);
    }

    method FetchLast(rx: array<byte>, at: nat, remain: nat, ghost sofar: seq<Bus>,
                     ghost r: seq<byte>, ghost after: Ncp, ghost w: seq<byte>, ghost k: nat)
      returns (n: nat, ghost ts: seq<Bus>)
      requires slave == Slave(after, true, Answering(w, k + at)) && !nssel
      requires k < |w| && w[k..] == r && at + remain <= |r| && at + remain <= rx.Length
      requires Held(sofar)
      modifies this, rx
      ensures n == at + remain && ts == sofar + [Transfer(remain, hostCs)]
      ensures Closed(ts) && Clocked(ts) == Clocked(sofar) + remain
      ensures forall i :: at <= i < n ==> rx[i] == r[i]
      ensures forall i :: 0 <= i < at || n <= i < rx.Length ==> rx[i] == old(rx[i])
      ensures nsselInt == old(nsselInt) && log == old(log) + [Transfer(remain, hostCs)]
      ensures nssel == !hostCs == !slave.selected
      ensures var s := Slave(after, true, Answering(w, k + n));
              slave == if hostCs then s else Release(s)
    {
      hide Release;
      var got := Fetch(remain, hostCs, after, w, k + at);
      forall i | 0 <= i < remain {
        rx[at + i] := got[i];
      }
      assert forall i :: 0 <= i < remain ==> got[i] == w[k..][at + i];
      assert forall i :: at <= i < at + remain ==> rx[i] == got[i - at];
      ts := sofar + [Transfer(remain, hostCs)];
      assert ts[..|ts| - 1] == sofar;
      n := at + remain;
    }

    // No answer: let go of the bus. A kernel-driven chip select needs one more transfer for it,
    // and nSSEL_INT is then left where it was.
    method GiveUp(ghost a: Answer, ghost after: Ncp) returns (ghost ts: seq<Bus>)
      requires slave == Slave(after, true, Answering(Wire(a), waitBytes)) && !nssel && waitBytes <= a.idles
      modifies this
      ensures Quiet() && slave.ncp == after.(aborted := true)
      ensures nsselInt == (old(nsselInt) || (hostCs && intFollows))
      ensures ts == if hostCs then [] else [Transfer(1, false)]
      ensures log == old(log) + ts + if hostCs then Edges(true) else []
    {
      if hostCs {
        CsRelease();
        ts := [];
      } else {
        var got := Fetch(1, false, after, Wire(a), waitBytes);
        ts := [Transfer(1, false)];
      }
    }

    // The answer has started: fetch the rest of it and let go of the bus.
    method Finish(b: byte, rx: array<byte>, ghost ncp: Ncp, ghost tx: seq<byte>)
      returns (n: nat, ghost ts: seq<Bus>)
      requires rx.Length >= 3 && !nssel
      requires var a := NextAnswer(fw, ncp, tx);
               a.idles < waitBytes && b == ReplyBytes(a.reply)[0] &&
               slave == Slave(Ncp(HeardCommand(ncp, tx), false), true, Answering(Wire(a), a.idles + 1))
      modifies this, rx
      ensures Quiet() && 0 < n <= rx.Length
      ensures forall i :: n <= i < rx.Length ==> rx[i] == old(rx[i])
      ensures (rx[..n], slave.ncp) == Transact(fw, waitBytes, rx.Length, ncp, tx)
      ensures nsselInt == (old(nsselInt) || intFollows)
      ensures Closed(ts) && Clocked(ts) == n - 1 && log == old(log) + ts + Edges(true)
    {
      hide Wire, NextAnswer, ReplyBytes, Transact, Release;
      ghost var a := NextAnswer(fw, ncp, tx);
      DescribesItself(a.reply);
      n, ts := FetchReply(b, rx, ReplyBytes(a.reply), slave.ncp, Wire(a), a.idles);
      TransactAnswered(fw, waitBytes, rx.Length, ncp, tx, n);
      assert rx[..n] == ReplyBytes(a.reply)[..n];
      CsRelease();
    }

    // A whole transaction, ending exactly on the terminator whenever the buffer has room.
    // ts are its transfers; nothing else happens between the chip select edges.
    method TxnFramed(tx: seq<byte>, rx: array<byte>) returns (n: nat, ghost ts: seq<Bus>)
      requires Quiet() && Complete(tx) && rx.Length >= 3
      modifies this, rx
      ensures Quiet()
      ensures n <= rx.Length && forall i :: n <= i < rx.Length ==> rx[i] == 0
      ensures (rx[..n], slave.ncp) == Transact(fw, waitBytes, rx.Length, old(slave.ncp), tx)
      // it ends badly exactly when the answer comes too late or does not fit
      ensures var a := NextAnswer(fw, old(slave.ncp), tx);
              slave.ncp.aborted <==> a.idles >= waitBytes || |ReplyBytes(a.reply)| > rx.Length
      // the bus: one edge down, every byte inside, and one edge up
      ensures log == old(log) + Edges(false) + ts + if hostCs || n > 0 then Edges(true) else []
      ensures Closed(ts)
      ensures intFollows ==> nsselInt == (hostCs || n > 0)
      ensures !intFollows ==> nsselInt == old(nsselInt)
      // exactly the idle bytes and the reply are clocked after the command
      ensures n > 0 ==> Clocked(ts) == |tx| + NextAnswer(fw, old(slave.ncp), tx).idles + n
    {
      hide *;
      ghost var ncp := slave.ncp;
      ghost var a := NextAnswer(fw, ncp, tx);
      ghost var after := Ncp(HeardCommand(ncp, tx), false);
      Clear(rx);
      Begin(tx);
      ghost var first, ws := [Transfer(|tx|, true)], [];
      var b;
      b, ws := WaitStates(a, after);
      HeldFirst(|tx|, ws);
      ClockedAppend(first, ws);
      ts := first + ws;
      ghost var rest;
      if b == SPI_IDLE {
        n := 0;
        rest := GiveUp(a, after);
        ClosedAlone();
        TransactSilent(fw, waitBytes, rx.Length, ncp, tx);
      } else {
        n, rest := Finish(b, rx, ncp, tx);
      }
      ClosedAppend(ts, rest);
      ClockedAppend(ts, rest);
      ts := ts + rest;
      AbortedIff(fw, waitBytes, rx.Length, ncp, tx);
    }

    lemma ClosedAlone()
      ensures !hostCs ==> Closed([Transfer(1, false)])
    {
      assert [Transfer(1, false)][..0] == [];
    }

    lemma HeldFirst(n: nat, ws: seq<Bus>)
      requires Held(ws)
      ensures Held([Transfer(n, true)] + ws) && Clocked([Transfer(n, true)]) == n
    {
      var one := [Transfer(n, true)];
      assert one[..0] == [];
    }

    lemma ClosedAppend(s: seq<Bus>, t: seq<Bus>)
      requires Held(s) && s != []
      requires Closed(t) || (t == [] && hostCs)
      ensures Closed(s + t)
    {
      assert t != [] ==> (s + t)[..|s + t| - 1] == s + t[..|t| - 1];
      assert t == [] ==> s + t == s;
    }

    // One command; on the reset notification it is sent once more.
    method DoCmd(tx: seq<byte>, rx: array<byte>, retry: bool) returns (n: nat, cls: Class)
      requires Quiet() && Complete(tx) && rx.Length >= 3
      modifies this, rx
      ensures Quiet()
      ensures n <= rx.Length && forall i :: n <= i < rx.Length ==> rx[i] == 0
      ensures (rx[..n], slave.ncp) == Exchange(fw, waitBytes, rx.Length, old(slave.ncp), tx, retry)
      ensures cls == Classify(rx[..n])
    {
      hide Transact;
      ghost var ts;
      n, ts := TxnFramed(tx, rx);
      cls := Classify(rx[..n]);
      if cls == RspReset && retry {
        n, ts := TxnFramed(tx, rx);
        cls := Classify(rx[..n]);
      }
    }

    // nRESET pulsed with nWAKE high: the application boots and whatever was pending is gone.
    method NcpReset()
      requires Quiet()
      modifies this`slave
      ensures Quiet() && slave.ncp == AfterReset(old(slave.ncp))
    {
      slave := Slave(AfterReset(slave.ncp), false, Listening([]));
    }
  }

  // The first byte, or the first two, say how long the reply is.
  predicate SelfDescribing(r: seq<byte>) {
    2 <= |r| <= 258 &&
    |r| == if r[0] == CMD_EZSP_FRAME then r[1] as int + 3
           else if r[0] <= ERR_UNSUPPORTED then 3
           else 2
  }

  lemma DescribesItself(r: Reply)
    ensures SelfDescribing(ReplyBytes(r))
  {
    var s := ReplyBytes(r);
    match r {
      case Ezsp(p) =>
        NumberRoundTrip(|p|);
        assert s == [CMD_EZSP_FRAME, |p| as byte] + p + [TERMINATOR];
        assert s[1] == |p| as byte && |s| == |p| + 3;
      case Error(code, data) =>
        assert s == [code, data, TERMINATOR];
      case Single(b) =>
        assert s == [b, TERMINATOR];
    }
  }

  // Releasing chip select after n reply bytes is clean iff they are the whole reply.
  lemma TransactAnswered(fw: Firmware, wait: nat, room: nat, ncp: Ncp, cmd: seq<byte>, n: nat)
    requires NextAnswer(fw, ncp, cmd).idles < wait
    requires n == Min(|ReplyBytes(NextAnswer(fw, ncp, cmd).reply)|, room)
    ensures var a := NextAnswer(fw, ncp, cmd);
            var s := Slave(Ncp(HeardCommand(ncp, cmd), false), true, Answering(Wire(a), a.idles + n));
            Transact(fw, wait, room, ncp, cmd) == (ReplyBytes(a.reply)[..n], Release(s).ncp)
  {
    hide Wire, ReplyBytes, NextAnswer;
  }

  lemma TransactSilent(fw: Firmware, wait: nat, room: nat, ncp: Ncp, cmd: seq<byte>)
    requires NextAnswer(fw, ncp, cmd).idles >= wait
    ensures Transact(fw, wait, room, ncp, cmd) == ([], Ncp(HeardCommand(ncp, cmd), true))
  {
  }

  lemma {:induction false} ClockedAppend(s: seq<Bus>, t: seq<Bus>)
    ensures Clocked(s + t) == Clocked(s) + Clocked(t)
    decreases |t|
  {
    if t == [] {
      assert s + t == s;
    } else {
      assert (s + t)[..|s + t| - 1] == s + t[..|t| - 1];
      ClockedAppend(s, t[..|t| - 1]);
    }
  }

  // ----- What the transactions guarantee -----

  function AfterReset(n: Ncp): Ncp {
    Ncp(n.heard + [HardReset], false)
  }

  // A transaction ends badly exactly when the answer comes too late or does not fit.
  lemma AbortedIff(fw: Firmware, wait: nat, room: nat, n: Ncp, cmd: seq<byte>)
    ensures var a := NextAnswer(fw, n, cmd);
            Transact(fw, wait, room, n, cmd).1.aborted <==> a.idles >= wait || |ReplyBytes(a.reply)| > room
  {
  }

  // In time and with room, the reply arrives verbatim, from index 0 to its terminator.
  lemma TransactExact(fw: Firmware, wait: nat, room: nat, n: Ncp, cmd: seq<byte>)
    requires NextAnswer(fw, n, cmd).idles < wait && room >= 258
    ensures Transact(fw, wait, room, n, cmd) ==
            (ReplyBytes(NextAnswer(fw, n, cmd).reply), Ncp(HeardCommand(n, cmd), false))
  {
    var r := ReplyBytes(NextAnswer(fw, n, cmd).reply);
    assert r[..|r|] == r;
  }

  // The class of a reply names its kind, because its first byte is never idle.
  lemma ClassOfReply(r: Reply)
    ensures FirstResponse(ReplyBytes(r)) == 0
    ensures Classify(ReplyBytes(r)) == RspEzsp <==> r.Ezsp?
    ensures Classify(ReplyBytes(r)) == RspReset <==> r.Error? && r.code == 0
    ensures Classify(ReplyBytes(r)) == RspError <==> r.Error? && r.code != 0
    ensures Classify(ReplyBytes(r)) != RspIdle
  {
    FirstByteKinds(ReplyBytes(r)[0]);
  }

  lemma FirstByteKinds(b: byte)
    ensures ClassOf(b) == RspEzsp <==> b == 0xFE
    ensures ClassOf(b) == RspReset <==> b == 0
    ensures ClassOf(b) == RspError <==> 1 <= b <= 4
    ensures ClassOf(b) == RspVersion <==> 0x80 <= b <= 0xBF
    ensures ClassOf(b) == RspStatus <==> b == 0xC0 || b == 0xC1
    ensures ClassOf(b) != RspIdle
  {
  }

  // Every answer starts within the wait limit.
  ghost predicate Prompt(fw: Firmware, wait: nat) {
    forall h :: fw(h).idles < wait
  }

  datatype Use = Issue(cmd: seq<byte>, retry: bool) | Restart

  function UseNcp(fw: Firmware, wait: nat, room: nat, n: Ncp, u: Use): Ncp {
    match u
    case Issue(cmd, retry) => Exchange(fw, wait, room, n, cmd, retry).1
    case Restart => AfterReset(n)
  }

  function UseAll(fw: Firmware, wait: nat, room: nat, n: Ncp, us: seq<Use>): Ncp {
    if us == [] then n else UseNcp(fw, wait, room, UseAll(fw, wait, room, n, us[..|us| - 1]), us[|us| - 1])
  }

  // What a command gets back when nothing is wrong: the co-processor's own answer, or its
  // own answer to the second sending after a reset notification.
  function OwnReply(fw: Firmware, n: Ncp, cmd: seq<byte>, retry: bool): Reply {
    var first := fw(HeardCommand(n, cmd)).reply;
    if retry && first.Error? && first.code == ERR_RESET
    then fw(HeardCommand(n, cmd) + [Command(cmd)]).reply
    else first
  }

  lemma ExchangeSafe(fw: Firmware, wait: nat, room: nat, n: Ncp, cmd: seq<byte>, retry: bool)
    requires Prompt(fw, wait) && room >= 258 && !n.aborted
    ensures !Exchange(fw, wait, room, n, cmd, retry).1.aborted
    ensures Exchange(fw, wait, room, n, cmd, retry).0 == ReplyBytes(OwnReply(fw, n, cmd, retry))
  {
    TransactExact(fw, wait, room, n, cmd);
    ClassOfReply(fw(HeardCommand(n, cmd)).reply);
    var n1 := Ncp(HeardCommand(n, cmd), false);
    TransactExact(fw, wait, room, n1, cmd);
  }

  // No run of commands and resets, re-sends included, ever leaves a transaction aborted, and
  // the next command of any run gets the co-processor's own answer, complete.
  lemma {:induction false} NeverAborted(fw: Firmware, wait: nat, room: nat, n: Ncp, us: seq<Use>)
    requires Prompt(fw, wait) && room >= 258 && !n.aborted
    ensures var m := UseAll(fw, wait, room, n, us);
            !m.aborted &&
            forall cmd, retry :: Exchange(fw, wait, room, m, cmd, retry).0 == ReplyBytes(OwnReply(fw, m, cmd, retry))
    decreases |us|
  {
    var m := UseAll(fw, wait, room, n, us);
    if us != [] {
      var m0 := UseAll(fw, wait, room, n, us[..|us| - 1]);
      NeverAborted(fw, wait, room, n, us[..|us| - 1]);
      match us[|us| - 1] {
        case Issue(cmd, retry) => ExchangeSafe(fw, wait, room, m0, cmd, retry);
        case Restart =>
      }
    }
    forall cmd, retry
      ensures Exchange(fw, wait, room, m, cmd, retry).0 == ReplyBytes(OwnReply(fw, m, cmd, retry))
    {
      ExchangeSafe(fw, wait, room, m, cmd, retry);
    }
  }

  // One late or oversized answer poisons the next command, whatever it is, and only that one.
  lemma AbortIsReportedNext(fw: Firmware, wait: nat, room: nat, n: Ncp, cmd: seq<byte>)
    requires n.aborted && fw(HeardCommand(n, cmd)).idles < wait && room >= 258
    ensures Transact(fw, wait, room, n, cmd) == ([ERR_ABORTED, 0, TERMINATOR], Ncp(HeardCommand(n, cmd), false))
  {
    TransactExact(fw, wait, room, n, cmd);
  }
}
