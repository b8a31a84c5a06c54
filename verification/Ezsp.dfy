// EZSP frames over SPI: the three header layouts, one command with its reply, and the
// version negotiation.

module Ezsp {
  import opened Bytes
  import opened Coprocessor
  import opened Spi

  const EZSP_VERSION: byte := 0x00
  const EZSP_CALLBACK: byte := 0x06
  const EZSP_NO_CALLBACKS: byte := 0x07
  const ROOM: nat := 260

  // ----- Layouts -----

  // Header length and the place of the frame id, for a protocol version.
  function Hdr(ver: int): nat { if ver >= 5 then 5 else 3 }

  function IdOff(ver: int): nat { if ver >= 8 then 3 else if ver >= 5 then 4 else 2 }

  function Header(ver: int, sn: byte, id: byte): (r: seq<byte>)
    ensures |r| == Hdr(ver)
  {
    if ver >= 8 then [sn, 0x00, 0x01, id, 0x00]
    else if ver >= 5 then [sn, 0x00, 0xFF, 0x00, id]
    else [sn, 0x00, id]
  }

  function HostFrame(ver: int, sn: byte, id: byte, params: seq<byte>): (r: seq<byte>)
    ensures |r| == Hdr(ver) + |params|
  {
    Header(ver, sn, id) + params
  }

  // An EZSP frame inside an SPI command.
  function Wrap(frame: seq<byte>): (r: seq<byte>)
    requires |frame| <= 255
    ensures Complete(r)
  {
    NumberRoundTrip(|frame|);
    [CMD_EZSP_FRAME, |frame| as byte] + frame + [TERMINATOR]
  }

  lemma WrapFormat(frame: seq<byte>)
    requires |frame| <= 255
    ensures Wrap(frame) == [0xFE, |frame| as byte] + frame + [0xA7]
  {
  }

  // The three frames with which the smoke test asks for the EUI64, sequence number 1.
  lemma SmokeTestFrames()
    ensures HostFrame(8, 1, 0x26, []) == [0x01, 0x00, 0x01, 0x26, 0x00]
    ensures HostFrame(5, 1, 0x26, []) == HostFrame(7, 1, 0x26, []) == [0x01, 0x00, 0xFF, 0x00, 0x26]
    ensures HostFrame(4, 1, 0x26, []) == [0x01, 0x00, 0x26]
    ensures HostFrame(4, 0, 0x00, [8]) == [0x00, 0x00, 0x00, 0x08]
  {
  }

  datatype Parsed = Parsed(sn: byte, id: byte, params: seq<byte>)

  // The co-processor's side: it knows its version and takes the frame apart by that.
  function NcpParse(ver: int, cmd: seq<byte>): Option<Parsed> {
    if |cmd| < 3 || cmd[0] != CMD_EZSP_FRAME || cmd[|cmd| - 1] != TERMINATOR || cmd[1] as int != |cmd| - 3 then None
    else
      var f := cmd[2..|cmd| - 1];
      if ver >= 8 then
        if |f| >= 5 && f[1] == 0x00 && f[2] == 0x01 && f[4] == 0x00 then Some(Parsed(f[0], f[3], f[5..])) else None
      else if ver >= 5 then
        if |f| >= 5 && f[1] == 0x00 && f[2] == 0xFF && f[3] == 0x00 then Some(Parsed(f[0], f[4], f[5..])) else None
      else
        if |f| >= 3 && f[1] == 0x00 then Some(Parsed(f[0], f[2], f[3..])) else None
  }

  lemma HostFrameParses(ver: int, sn: byte, id: byte, params: seq<byte>)
    requires |params| <= 250
    ensures NcpParse(ver, Wrap(HostFrame(ver, sn, id, params))) == Some(Parsed(sn, id, params))
  {
    var f := HostFrame(ver, sn, id, params);
    var cmd := Wrap(f);
    NumberRoundTrip(|f|);
    assert cmd[2..|cmd| - 1] == f;
    assert f[Hdr(ver)..] == params;
  }

  // The reply frame: the same shape with bit 7 of the frame control set.
  function ReplyFrame(ver: int, sn: byte, id: byte, payload: seq<byte>): (r: seq<byte>)
    ensures |r| == Hdr(ver) + |payload|
  {
    (if ver >= 8 then [sn, 0x80, 0x01, id, 0x00]
     else if ver >= 5 then [sn, 0x80, 0xFF, 0x00, id]
     else [sn, 0x80, id]) + payload
  }

  // The whole frame id, with the marker that goes before it, in the layout of a version: two
  // bytes from 8 on, low byte first.
  predicate Named(ver: int, f: seq<byte>, id: byte) {
    if ver >= 8 then |f| >= 5 && f[3] == id && f[4] == 0x00
    else if ver >= 5 then |f| >= 5 && f[2] == 0xFF && f[3] == 0x00 && f[4] == id
    else |f| >= 3 && f[2] == id
  }

  // Frames of the host and replies carry the id they were made with, and the co-processor
  // takes no frame for a command that is not named so.
  lemma NamedFrames(ver: int, sn: byte, id: byte, rest: seq<byte>, f: seq<byte>)
    requires |f| <= 255
    ensures Named(ver, HostFrame(ver, sn, id, rest), id) && Named(ver, ReplyFrame(ver, sn, id, rest), id)
    ensures var p := NcpParse(ver, Wrap(f));
            p.Some? ==> Named(ver, f, p.value.id)
  {
    var cmd := Wrap(f);
    NumberRoundTrip(|f|);
    assert cmd[2..|cmd| - 1] == f;
  }

  // ----- One EZSP frame to the co-processor and the frame that comes back -----

  // What came back, if it was an EZSP frame.
  function Ask(fw: Firmware, wait: nat, n: Ncp, frame: seq<byte>): (Option<seq<byte>>, Ncp)
    requires |frame| <= 255
  {
    var (rx, m) := Exchange(fw, wait, ROOM, n, Wrap(frame), true);
    (EzspPart(rx), m)
  }

  function EzspPart(rx: seq<byte>): Option<seq<byte>> {
    if Classify(rx) == RspEzsp && |rx| >= 3 then Some(rx[2..|rx| - 1]) else None
  }

  // A transaction with room brings back nothing, or one whole reply.
  lemma ExchangeShape(fw: Firmware, wait: nat, n: Ncp, cmd: seq<byte>, retry: bool)
    returns (r: Option<Reply>)
    ensures Exchange(fw, wait, ROOM, n, cmd, retry).0 == if r.Some? then ReplyBytes(r.value) else []
  {
    var (rx1, n1) := Transact(fw, wait, ROOM, n, cmd);
    var last := if Classify(rx1) == RspReset && retry then n1 else n;
    var a := NextAnswer(fw, last, cmd);
    if a.idles < wait {
      TransactExact(fw, wait, ROOM, last, cmd);
      r := Some(a.reply);
    } else {
      r := None;
    }
  }

  // The fixed offsets are right: the class byte is at 0, the length at 1, the frame from 2 on.
  lemma FixedOffsets(fw: Firmware, wait: nat, n: Ncp, cmd: seq<byte>, retry: bool)
    ensures var rx := Exchange(fw, wait, ROOM, n, cmd, retry).0;
            && (rx != [] ==> rx[0] != SPI_IDLE && rx[|rx| - 1] == TERMINATOR && |rx| <= 258)
            && (Classify(rx) == RspEzsp <==> rx != [] && rx[0] == CMD_EZSP_FRAME)
            && (Classify(rx) == RspEzsp ==> |rx| >= 3 && |rx| == rx[1] as int + 3)
  {
    var r := ExchangeShape(fw, wait, n, cmd, retry);
    if r.Some? {
      DescribesItself(r.value);
      ClassOfReply(r.value);
      FirstByteKinds(ReplyBytes(r.value)[0]);
    }
  }

  // With a prompt co-processor the frame that comes back is exactly the one it sent.
  lemma AskVerbatim(fw: Firmware, wait: nat, n: Ncp, frame: seq<byte>)
    requires Prompt(fw, wait) && !n.aborted && |frame| <= 255
    ensures var own := OwnReply(fw, n, Wrap(frame), true);
            Ask(fw, wait, n, frame).0 == if own.Ezsp? then Some(own.payload) else None
    ensures !Ask(fw, wait, n, frame).1.aborted
  {
    var own := OwnReply(fw, n, Wrap(frame), true);
    ExchangeSafe(fw, wait, ROOM, n, Wrap(frame), true);
    ClassOfReply(own);
    if own.Ezsp? {
      var rx := ReplyBytes(own);
      assert rx[2..|rx| - 1] == own.payload;
    }
  }

  datatype Got = Got(id: byte, payload: seq<byte>)

  function Take(s: seq<byte>, max: nat): seq<byte> {
    if |s| <= max then s else s[..max]
  }

  // How a reply frame is read: too short for a header is no reply.
  function Open(ver: int, frame: Option<seq<byte>>, max: nat): Option<Got> {
    if frame.None? || |frame.value| < Hdr(ver) then None
    else Some(Got(frame.value[IdOff(ver)], Take(frame.value[Hdr(ver)..], max)))
  }

  lemma OpenInverts(ver: int, sn: byte, id: byte, payload: seq<byte>, max: nat)
    ensures Open(ver, Some(ReplyFrame(ver, sn, id, payload)), max) == Some(Got(id, Take(payload, max)))
  {
    assert ReplyFrame(ver, sn, id, payload)[Hdr(ver)..] == payload;
  }

  // ----- The negotiation, as the sequence of commands it makes -----

  // Four outcomes of the two requests; -1 is failure. The last component is the version in force.
  datatype Outcome = Outcome(result: int, version: int, ncp: Ncp, sn: byte)

  // Sequence numbers are one byte and wrap.
  function Next(sn: byte): byte { sn + 1 }

  lemma NextCounts(sn: byte)
    ensures Next(sn) as int == (sn as int + 1) % 256
  {
    if sn < 255 {
      Increment(sn);
    }
  }

  function VersionRequest(sn: byte, want: byte): (r: seq<byte>)
    ensures |r| == 4
  {
    HostFrame(4, sn, EZSP_VERSION, [want])
  }

  function AskVersion(fw: Firmware, wait: nat, n: Ncp, sn: byte, want: byte): (Option<Got>, Ncp) {
    var (r, m) := Ask(fw, wait, n, VersionRequest(sn, want));
    (Open(4, r, 8), m)
  }

  function Settle(v: byte, n: Ncp, sn: byte): Outcome {
    Outcome(if v > 8 then -1 else v as int, v as int, n, sn)
  }

  function Negotiate(fw: Firmware, wait: nat, n: Ncp, sn: byte, want: byte): Outcome {
    var (g, n1) := AskVersion(fw, wait, n, sn, want);
    if g.None? || |g.value.payload| < 3 then Outcome(-1, 4, n1, Next(sn))
    else
      var spoken := g.value.payload[0];
      if spoken == want then Settle(spoken, n1, Next(sn))
      else
        var (g2, n2) := AskVersion(fw, wait, AfterReset(n1), Next(sn), spoken);
        if g2.None? || |g2.value.payload| < 3 || g2.value.payload[0] != spoken
        then Outcome(-1, 4, n2, Next(Next(sn)))
        else Settle(spoken, n2, Next(Next(sn)))
  }

  lemma AskedIs(fw: Firmware, wait: nat, n: Ncp, frame: seq<byte>, rx: seq<byte>)
    requires |frame| <= 255 && rx == Exchange(fw, wait, ROOM, n, Wrap(frame), true).0
    ensures Ask(fw, wait, n, frame).0 == if Classify(rx) == RspEzsp then Some(rx[2..|rx| - 1]) else None
    ensures Classify(rx) == RspEzsp ==> |rx| >= 3 && |rx| == rx[1] as int + 3
    ensures Ask(fw, wait, n, frame).1 == Exchange(fw, wait, ROOM, n, Wrap(frame), true).1
  {
    FixedOffsets(fw, wait, n, Wrap(frame), true);
  }

  method Copy(dst: array<byte>, at: nat, src: seq<byte>)
    requires at + |src| <= dst.Length
    modifies dst
    ensures dst[..at] == old(dst[..at]) && dst[at..at + |src|] == src
    ensures dst[at + |src|..] == old(dst[at + |src|..])
  {
    forall i | 0 <= i < |src| {
      dst[at + i] := src[i];
    }
  }

  lemma WrapPieces(version: int, sn: byte, id: byte, params: seq<byte>)
    requires |params| + Hdr(version) <= 255
    ensures Wrap(HostFrame(version, sn, id, params)) ==
            [CMD_EZSP_FRAME, (|params| + Hdr(version)) as byte] + Header(version, sn, id) + params + [TERMINATOR]
  {
    var h := Header(version, sn, id);
    assert h + params + [TERMINATOR] == HostFrame(version, sn, id, params) + [TERMINATOR];
  }

  // Builds the SPI command for one EZSP frame, in a buffer of 160 bytes.
  method Build(version: int, sn: byte, id: byte, params: seq<byte>) returns (tx: array<byte>, txlen: nat)
    requires |params| + 8 <= 160
    ensures fresh(tx) && tx.Length == 160 && txlen <= 160
    ensures tx[..txlen] == Wrap(HostFrame(version, sn, id, params))
  {
    hide Header, HostFrame, Wrap;
    tx := new byte[160];
    txlen := BuildHeader(tx, version, sn, id, (|params| + Hdr(version)) as byte);
    ghost var lead := [CMD_EZSP_FRAME, (|params| + Hdr(version)) as byte] + Header(version, sn, id);
    assert tx[..txlen] == lead;
    Copy(tx, txlen, params);
    txlen := txlen + |params|;
    assert tx[..txlen] == lead + params;
    tx[txlen] := TERMINATOR;
    txlen := txlen + 1;
    assert tx[..txlen] == lead + params + [TERMINATOR];
    WrapPieces(version, sn, id, params);
  }

  method BuildHeader(tx: array<byte>, version: int, sn: byte, id: byte, length: byte) returns (txlen: nat)
    requires tx.Length == 160
    modifies tx
    ensures txlen == 2 + Hdr(version)
    ensures tx[0] == CMD_EZSP_FRAME && tx[1] == length
    ensures forall i :: 0 <= i < Hdr(version) ==> tx[2 + i] == Header(version, sn, id)[i]
  {
    tx[0], tx[1], tx[2] := CMD_EZSP_FRAME, length, sn;
    if version >= 8 {
      tx[3], tx[4], tx[5], tx[6], txlen := 0x00, 0x01, id, 0x00, 7;
    } else if version >= 5 {
      tx[3], tx[4], tx[5], tx[6], txlen := 0x00, 0xFF, 0x00, id, 7;
    } else {
      tx[3], tx[4], txlen := 0x00, id, 5;
    }
  }

  lemma TakeSlice(f: seq<byte>, h: nat, plen: nat, max: nat)
    requires h <= |f| && plen == Min(|f| - h, max)
    ensures Take(f[h..], max) == f[h..h + plen]
  {
    assert f[h..][..plen] == f[h..h + plen];
    assert plen == |f| - h ==> f[h..] == f[h..h + plen];
  }

  // rx: FE, length, header, payload, A7.
  method ReadReply(version: int, rx: array<byte>, ghost frame: seq<byte>, payloadMax: nat) returns (got: Option<Got>)
    requires |frame| + 3 <= rx.Length && rx[1] as int == |frame|
    requires forall i :: 0 <= i < |frame| ==> rx[2 + i] == frame[i]
    ensures got == Open(version, Some(frame), payloadMax)
  {
    var hdr, idOff := Hdr(version), IdOff(version);
    var plen := rx[1] as int - hdr;
    if plen < 0 {
      return None;
    }
    var outId := rx[2 + idOff];
    if plen > payloadMax {
      plen := payloadMax;
    }
    TakeSlice(frame, hdr, plen, payloadMax);
    var payload := rx[2 + hdr..2 + hdr + plen];
    forall i | 0 <= i < plen
      ensures payload[i] == frame[hdr + i]
    {
      assert rx[2 + (hdr + i)] == frame[hdr + i];
    }
    assert payload == frame[hdr..hdr + plen];
    return Some(Got(outId, payload));
  }

  lemma OpenNone(ver: int, max: nat)
    ensures Open(ver, None, max) == None
  {
  }

  // One frame to the co-processor, and the buffer with what came back: r from index 2 on.
  method Converse(port: SpiPort, tx: seq<byte>, ghost frame: seq<byte>)
    returns (rx: array<byte>, cls: Class, ghost r: Option<seq<byte>>)
    requires port.Quiet() && |frame| <= 255 && tx == Wrap(frame)
    modifies port
    ensures port.Quiet() && fresh(rx) && rx.Length == ROOM && (cls == RspEzsp <==> r.Some?)
    ensures (r, port.slave.ncp) == Ask(port.fw, port.waitBytes, old(port.slave.ncp), frame)
    ensures r.Some? ==> |r.value| + 3 <= ROOM && rx[1] as int == |r.value|
    ensures r.Some? ==> forall i :: 0 <= i < |r.value| ==> rx[2 + i] == r.value[i]
  {
    assert ROOM == 260;
    hide *;
    rx := new byte[ROOM];
    ghost var n := port.slave.ncp;
    var len;
    len, cls := port.DoCmd(tx, rx, true);
    AskedIs(port.fw, port.waitBytes, n, frame, rx[..len]);
    r := Ask(port.fw, port.waitBytes, n, frame).0;
  }

  class EzspHost {
    const port: SpiPort
    const want: byte        // the version to ask for first
    var sn: byte            // sequence number of the next frame
    var version: int        // picks the frame layout

    constructor (port: SpiPort, want: byte)
      ensures this.port == port && this.want == want && sn == 0 && version == 4
    {
      this.port, this.want, sn, version := port, want, 0, 4;
    }

    // One command and its reply; None is the failure return.
    method Xfer(id: byte, params: seq<byte>, payloadMax: nat) returns (got: Option<Got>)
      requires port.Quiet() && |params| + 8 <= 160
      modifies this`sn, port
      ensures port.Quiet() && sn == Next(old(sn))
      ensures var (r, m) := Ask(port.fw, port.waitBytes, old(port.slave.ncp), HostFrame(version, old(sn), id, params));
              got == Open(version, r, payloadMax) && port.slave.ncp == m
    {
      assert Hdr(version) <= 5;
      hide *;
      ghost var frame := HostFrame(version, sn, id, params);
      var tx, txlen := Build(version, sn, id, params);
      sn := Next(sn);
      ghost var r;
      var rx, cls;
      rx, cls, r := Converse(port, tx[..txlen], frame);
      if cls != RspEzsp {
        OpenNone(version, payloadMax);
        return None;
      }
      got := ReadReply(version, rx, r.value, payloadMax);
    }

    method PollCallback(max: nat) returns (id: byte, payload: seq<byte>)
      requires port.Quiet()
      modifies this`sn, port
      ensures port.Quiet() && sn == Next(old(sn))
      ensures var frame := HostFrame(version, old(sn), EZSP_CALLBACK, []);
              var (r, m) := Ask(port.fw, port.waitBytes, old(port.slave.ncp), frame);
              var g := Open(version, r, max);
              port.slave.ncp == m &&
              (if g.None? || g.value.id == EZSP_NO_CALLBACKS then id == 0
               else id == g.value.id && payload == g.value.payload) &&
              (id == 0 <==> g.None? || g.value.id == EZSP_NO_CALLBACKS || g.value.id == 0x00)
    {
      var got := Xfer(EZSP_CALLBACK, [], max);
      if got.None? || got.value.id == EZSP_NO_CALLBACKS {
        return 0, [];
      }
      return got.value.id, got.value.payload;
    }

    method RequestVersion(wanted: byte) returns (got: Option<Got>)
      requires port.Quiet() && version == 4
      modifies this`sn, port
      ensures port.Quiet() && sn == Next(old(sn))
      ensures (got, port.slave.ncp) == AskVersion(port.fw, port.waitBytes, old(port.slave.ncp), old(sn), wanted)
    {
      hide Ask, Open, HostFrame;
      got := Xfer(EZSP_VERSION, [wanted], 8);
    }

    // The result is the agreed version, or -1.
    method Init() returns (result: int)
      requires port.Quiet()
      modifies this, port
      ensures port.Quiet()
      ensures Outcome(result, version, port.slave.ncp, sn) ==
              Negotiate(port.fw, port.waitBytes, old(port.slave.ncp), old(sn), want)
    {
      hide AskVersion, AfterReset, Next, Complete, Wire;
      version := 4;
      var got := RequestVersion(want);
      if got.None? || |got.value.payload| < 3 {
        return -1;
      }
      var first := got.value.payload[0];
      if first != want {
        port.NcpReset();
        version := 4;
        got := RequestVersion(first);
        if got.None? || |got.value.payload| < 3 || got.value.payload[0] != first {
          return -1;
        }
      }
      version := got.value.payload[0] as int;
      if got.value.payload[0] > 8 {
        return -1;
      }
      return got.value.payload[0] as int;
    }
  }

  // ----- What the co-processor hears and has said -----

  // cmd was sent once, or twice after a reset notification.
  predicate Sends(before: seq<Heard>, after: seq<Heard>, cmd: seq<byte>) {
    after == before + [Command(cmd)] || after == before + [Command(cmd)] + [Command(cmd)]
  }

  // A frame handed up is the co-processor's answer to the last thing it heard.
  lemma AskHonest(fw: Firmware, wait: nat, n: Ncp, frame: seq<byte>)
    requires |frame| <= 255
    ensures var (r, m) := Ask(fw, wait, n, frame);
            Sends(n.heard, m.heard, Wrap(frame)) &&
            (r.Some? ==> fw(m.heard).reply == Ezsp(r.value) && fw(m.heard).idles < wait && !m.aborted)
  {
    var cmd := Wrap(frame);
    var (rx1, n1) := Transact(fw, wait, ROOM, n, cmd);
    var last := if Classify(rx1) == RspReset then n1 else n;
    var a := NextAnswer(fw, last, cmd);
    if a.idles < wait {
      TransactExact(fw, wait, ROOM, last, cmd);
      ClassOfReply(a.reply);
      var rx := ReplyBytes(a.reply);
      if a.reply.Ezsp? {
        assert rx[2..|rx| - 1] == a.reply.payload;
      }
    }
  }

  // The command asks for version want, in the layout every co-processor understands: frame id 0,
  // and nothing but the version for a parameter.
  predicate AsksFor(cmd: seq<byte>, sn: byte, want: byte) {
    NcpParse(4, cmd) == Some(Parsed(sn, 0x00, [want]))
  }

  lemma VersionRequestParses(sn: byte, want: byte)
    ensures VersionRequest(sn, want) == [sn, 0x00, 0x00, want]
    ensures AsksFor(Wrap(VersionRequest(sn, want)), sn, want)
  {
    HostFrameParses(4, sn, EZSP_VERSION, [want]);
    assert VersionRequest(sn, want) == [sn, 0x00, 0x00, want];
    hide Wrap, NcpParse;
  }

  // At most two commands are heard, once or twice each: they ask for versions, the second only
  // after a reset, and for the version just reported.
  lemma NegotiationRequests(fw: Firmware, wait: nat, n: Ncp, sn: byte, want: byte)
    returns (again: Option<byte>, h: seq<Heard>, cmd: seq<byte>, cmd2: seq<byte>)
    ensures var o := Negotiate(fw, wait, n, sn, want);
            Sends(n.heard, h, cmd) && AsksFor(cmd, sn, want) &&
            if again.None? then o.ncp.heard == h
            else again.value != want && fw(h).reply.Ezsp? && |fw(h).reply.payload| >= 6 &&
                 again.value == fw(h).reply.payload[3] &&
                 Sends(h + [HardReset], o.ncp.heard, cmd2) && AsksFor(cmd2, Next(sn), again.value)
  {
    VersionRequestParses(sn, want);
    VersionAnswered(fw, wait, n, sn, want);
    hide Ask, Open, VersionRequest, Next, AsksFor;
    AskHonest(fw, wait, n, VersionRequest(sn, want));
    var (g, n1) := AskVersion(fw, wait, n, sn, want);
    h, cmd, cmd2 := n1.heard, Wrap(VersionRequest(sn, want)), [];
    if g.None? || |g.value.payload| < 3 || g.value.payload[0] == want {
      again := None;
    } else {
      again := Some(g.value.payload[0]);
      VersionRequestParses(Next(sn), g.value.payload[0]);
      cmd2 := Wrap(VersionRequest(Next(sn), g.value.payload[0]));
      AskHonest(fw, wait, AfterReset(n1), VersionRequest(Next(sn), g.value.payload[0]));
    }
  }

  lemma VersionAnswered(fw: Firmware, wait: nat, n: Ncp, sn: byte, want: byte)
    ensures var (g, m) := AskVersion(fw, wait, n, sn, want);
            g.Some? && |g.value.payload| >= 3 ==>
              fw(m.heard).reply.Ezsp? && |fw(m.heard).reply.payload| >= 6 && m.heard != [] &&
              g.value.payload[0] == fw(m.heard).reply.payload[3] &&
              m.heard[|m.heard| - 1] == Command(Wrap(VersionRequest(sn, want)))
  {
    AskHonest(fw, wait, n, VersionRequest(sn, want));
  }

  ghost predicate AsksVersion(last: Heard, v: byte) {
    last.Command? && exists s: byte :: AsksFor(last.bytes, s, v)
  }

  lemma RequestAsks(sn: byte, want: byte)
    ensures AsksVersion(Command(Wrap(VersionRequest(sn, want))), want)
  {
    VersionRequestParses(sn, want);
    hide AsksFor, VersionRequest;
  }

  // A version returned is at most 8, is in force, is the one last asked for, and stands where an
  // answer to version() has it in the frame that came back last. That frame is such an answer if
  // and only if its id byte is 0; the host does not look.
  lemma NegotiationAgrees(fw: Firmware, wait: nat, n: Ncp, sn: byte, want: byte)
    ensures var o := Negotiate(fw, wait, n, sn, want);
            o.result >= 0 ==>
              o.result == o.version <= 8 && o.ncp.heard != [] &&
              var said := fw(o.ncp.heard).reply;
              said.Ezsp? && |said.payload| >= 6 && said.payload[3] as int == o.result &&
              (Named(4, said.payload, EZSP_VERSION) <==> said.payload[2] == 0x00) &&
              AsksVersion(o.ncp.heard[|o.ncp.heard| - 1], said.payload[3])
  {
    hide Ask, Open, VersionRequest, Next, AsksVersion;
    VersionAnswered(fw, wait, n, sn, want);
    RequestAsks(sn, want);
    var (g, n1) := AskVersion(fw, wait, n, sn, want);
    if g.Some? && |g.value.payload| >= 3 {
      var v := g.value.payload[0];
      RequestAsks(Next(sn), v);
      VersionAnswered(fw, wait, AfterReset(n1), Next(sn), v);
    }
  }

  // A frame with id 0x58, and 4 where an answer to version() has the version.
  const MISLEADING: seq<byte> := [0, 0x80, 0x58, 4, 0, 0]

  // It is taken for the agreement, though it answers something else.
  lemma NegotiationMisled(n: Ncp, sn: byte)
    requires !n.aborted
    ensures Negotiate(h => Answer(0, Ezsp(MISLEADING)), 1, n, sn, 4).result == 4
    ensures !Named(4, MISLEADING, EZSP_VERSION)
  {
    var fw: Firmware := h => Answer(0, Ezsp(MISLEADING));
    AskVerbatim(fw, 1, n, VersionRequest(sn, 4));
    hide Ask, VersionRequest;
    var (g, m) := AskVersion(fw, 1, n, sn, 4);
    assert MISLEADING[3..] == [4, 0, 0];
  }

  // Against a co-processor that says one frame to everything: a frame with less than three bytes
  // after the header ends it, and any other settles it on byte 3, in one request or in two.
  lemma NegotiationEcho(n: Ncp, sn: byte, want: byte, said: seq<byte>)
    requires !n.aborted && |said| <= 255
    ensures var o := Negotiate(h => Answer(0, Ezsp(said)), 1, n, sn, want);
            if |said| < 6 then o.result == -1 && o.version == 4 && |o.ncp.heard| == |n.heard| + 1
            else o.version == said[3] as int && o.result == (if said[3] > 8 then -1 else said[3] as int) &&
                 |o.ncp.heard| == |n.heard| + if said[3] == want then 1 else 3
  {
    var fw: Firmware := h => Answer(0, Ezsp(said));
    EchoAsk(n, sn, want, said);
    var (g, n1) := AskVersion(fw, 1, n, sn, want);
    if |said| >= 6 {
      EchoAsk(AfterReset(n1), Next(sn), said[3], said);
    }
    hide AskVersion, Next;
  }

  lemma EchoAsk(n: Ncp, sn: byte, want: byte, said: seq<byte>)
    requires !n.aborted && |said| <= 255
    ensures var (g, m) := AskVersion(h => Answer(0, Ezsp(said)), 1, n, sn, want);
            && !m.aborted && |m.heard| == |n.heard| + 1
            && (g.Some? && |g.value.payload| >= 3 <==> |said| >= 6)
            && (g.Some? && |g.value.payload| >= 1 ==> g.value.payload[0] == said[3])
  {
    var fw: Firmware := h => Answer(0, Ezsp(said));
    var frame := VersionRequest(sn, want);
    AskVerbatim(fw, 1, n, frame);
    AskHonest(fw, 1, n, frame);
    OneHearing(n, frame, said);
    hide Ask, VersionRequest, Wrap;
  }

  lemma OneHearing(n: Ncp, frame: seq<byte>, said: seq<byte>)
    requires !n.aborted && |said| <= 255 && |frame| <= 255
    ensures |Ask(h => Answer(0, Ezsp(said)), 1, n, frame).1.heard| == |n.heard| + 1
  {
    var fw: Firmware := h => Answer(0, Ezsp(said));
    TransactExact(fw, 1, ROOM, n, Wrap(frame));
    ClassOfReply(Ezsp(said));
    hide Wrap, Classify, ReplyBytes;
  }

  // ----- Convergence, against a co-processor that takes version() only first after a reset -----

  predicate Fresh(h: seq<Heard>) { h == [] || h[|h| - 1] == HardReset }

  // After a reset the first command gets the reset notification; the command that follows it,
  // if it is version(), is told the version spoken, whatever was asked for.
  ghost predicate Speaks(fw: Firmware, v: byte) {
    forall h: seq<Heard>, cmd: seq<byte>, sn: byte, want: byte | Fresh(h) && AsksFor(cmd, sn, want) ::
      fw(h + [Command(cmd)]).reply.Error? && fw(h + [Command(cmd)]).reply.code == 0x00 &&
      exists rest: seq<byte> :: |rest| == 3 &&
        fw(h + [Command(cmd)] + [Command(cmd)]).reply == Ezsp([sn, 0x80, 0x00, v] + rest)
  }

  // There is such a co-processor, for every version.
  function Speaker(v: byte): Firmware {
    (h: seq<Heard>) =>
      if |h| >= 2 && h[|h| - 1].Command? && h[|h| - 2].Command? && |h[|h| - 1].bytes| > 2 then
        Answer(0, Ezsp([h[|h| - 1].bytes[2], 0x80, 0x00, v, 2, 0, 0]))
      else
        Answer(0, Error(ERR_RESET, 2))
  }

  lemma RequestCarries(cmd: seq<byte>, sn: byte, want: byte)
    requires AsksFor(cmd, sn, want)
    ensures |cmd| > 2 && cmd[2] == sn
  {
    var f := cmd[2..|cmd| - 1];
    assert |f| >= 3 && f[0] == cmd[2];
  }

  lemma SpeakerAnswers(v: byte, h: seq<Heard>, cmd: seq<byte>)
    requires Fresh(h) && |cmd| > 2
    ensures Speaker(v)(h + [Command(cmd)]).reply == Error(ERR_RESET, 2)
    ensures Speaker(v)(h + [Command(cmd)] + [Command(cmd)]).reply == Ezsp([cmd[2], 0x80, 0x00, v] + [2, 0, 0])
  {
    var h2 := h + [Command(cmd)] + [Command(cmd)];
    assert h2[|h2| - 1] == Command(cmd) && h2[|h2| - 2] == Command(cmd);
    assert [cmd[2], 0x80, 0x00, v] + [2, 0, 0] == [cmd[2], 0x80, 0x00, v, 2, 0, 0];
  }

  lemma SpeakerSpeaks(v: byte)
    ensures Prompt(Speaker(v), 1) && Speaks(Speaker(v), v)
  {
    forall h: seq<Heard>, cmd: seq<byte>, sn: byte, want: byte | Fresh(h) && AsksFor(cmd, sn, want)
      ensures Speaker(v)(h + [Command(cmd)]).reply.Error? && Speaker(v)(h + [Command(cmd)]).reply.code == 0x00
      ensures exists rest: seq<byte> :: |rest| == 3 &&
                Speaker(v)(h + [Command(cmd)] + [Command(cmd)]).reply == Ezsp([sn, 0x80, 0x00, v] + rest)
    {
      SpeakerAt(v, h, cmd, sn, want);
      hide *;
    }
    SpeakerPrompt(v);
    hide Speaker, AsksFor, Fresh, Prompt;
  }

  lemma SpeakerPrompt(v: byte)
    ensures Prompt(Speaker(v), 1)
  {
  }

  lemma SpeakerAt(v: byte, h: seq<Heard>, cmd: seq<byte>, sn: byte, want: byte)
    requires Fresh(h) && AsksFor(cmd, sn, want)
    ensures Speaker(v)(h + [Command(cmd)]).reply.Error? && Speaker(v)(h + [Command(cmd)]).reply.code == 0x00
    ensures exists rest: seq<byte> :: |rest| == 3 &&
              Speaker(v)(h + [Command(cmd)] + [Command(cmd)]).reply == Ezsp([sn, 0x80, 0x00, v] + rest)
  {
    assert ERR_RESET == 0x00;
    RequestCarries(cmd, sn, want);
    SpeakerAnswers(v, h, cmd);
    hide *;
    var rest: seq<byte> := [2, 0, 0];
    assert |rest| == 3;
  }

  // Its own reply to a request made twice.
  lemma SpeakerSays(fw: Firmware, n: Ncp, sn: byte, want: byte, v: byte, cmd: seq<byte>) returns (rest: seq<byte>)
    requires Speaks(fw, v) && Fresh(n.heard) && AsksFor(cmd, sn, want)
    ensures |rest| == 3 && OwnReply(fw, n, cmd, true) == Ezsp([sn, 0x80, 0x00, v] + rest)
  {
    hide AsksFor, Fresh;
    rest :| |rest| == 3 &&
      fw(n.heard + [Command(cmd)] + [Command(cmd)]).reply == Ezsp([sn, 0x80, 0x00, v] + rest);
  }

  lemma SpeakerOpens(sn: byte, v: byte, rest: seq<byte>)
    requires |rest| == 3
    ensures Open(4, Some([sn, 0x80, 0x00, v] + rest), 8) == Some(Got(0x00, [v] + rest))
  {
    OpenInverts(4, sn, 0x00, [v] + rest, 8);
    assert ReplyFrame(4, sn, 0x00, [v] + rest) == [sn, 0x80, 0x00, v] + rest;
  }

  lemma AskSpeaker(fw: Firmware, wait: nat, n: Ncp, sn: byte, want: byte, v: byte)
    requires Prompt(fw, wait) && Speaks(fw, v) && Fresh(n.heard) && !n.aborted
    ensures var (g, m) := AskVersion(fw, wait, n, sn, want);
            g.Some? && |g.value.payload| == 4 && g.value.payload[0] == v && !m.aborted
  {
    var request := VersionRequest(sn, want);
    VersionRequestParses(sn, want);
    AskVerbatim(fw, wait, n, request);
    var rest := SpeakerSays(fw, n, sn, want, v, Wrap(request));
    hide Ask, VersionRequest, Wrap, OwnReply;
    SpeakerOpens(sn, v, rest);
  }

  // It converges on whatever version is spoken, and fails exactly when that is newer than 8.
  lemma NegotiationConverges(fw: Firmware, wait: nat, n: Ncp, sn: byte, want: byte, v: byte)
    requires Prompt(fw, wait) && Speaks(fw, v) && Fresh(n.heard) && !n.aborted
    ensures var o := Negotiate(fw, wait, n, sn, want);
            o.version == v as int && o.result == if v > 8 then -1 else v as int
  {
    hide Ask, Open, VersionRequest, Next, Speaks, AskVersion;
    AskSpeaker(fw, wait, n, sn, want, v);
    var (g, n1) := AskVersion(fw, wait, n, sn, want);
    AskSpeaker(fw, wait, AfterReset(n1), Next(sn), v, v);
  }
}
