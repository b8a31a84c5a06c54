// The network co-processor as the SPI bus sees it: a slave that reads a command while it
// is selected, answers after some idle bytes, and notices when a transaction ends badly.

module Coprocessor {
  import opened Bytes

  const CMD_EZSP_FRAME: byte := 0xFE
  const CMD_BTL_FRAME: byte := 0xFD
  const TERMINATOR: byte := 0xA7
  const SPI_IDLE: byte := 0xFF
  const ERR_RESET: byte := 0x00
  const ERR_ABORTED: byte := 0x02
  const ERR_UNSUPPORTED: byte := 0x04

  datatype ReplyShape =
    | Ezsp(payload: seq<byte>)
    | Error(code: byte, data: byte)
    | Single(b: byte)

  predicate Proper(r: ReplyShape) {
    match r
    case Ezsp(p) => |p| <= 255
    case Error(code, _) => code <= ERR_UNSUPPORTED
    case Single(b) => b > ERR_UNSUPPORTED && b != CMD_EZSP_FRAME && b != SPI_IDLE
  }

  type Reply = r: ReplyShape | Proper(r) witness Single(0xC1)

  function ReplyBytes(r: Reply): (s: seq<byte>)
    ensures 2 <= |s| <= 258 && s[0] != SPI_IDLE && s[|s| - 1] == TERMINATOR
  {
    match r
    case Ezsp(p) => [CMD_EZSP_FRAME, |p| as byte] + p + [TERMINATOR]
    case Error(code, data) => [code, data, TERMINATOR]
    case Single(b) => [b, TERMINATOR]
  }

  // Everything that has happened to the co-processor, oldest first.
  datatype Heard = Command(bytes: seq<byte>) | HardReset

  // How long it stays idle, then what it says.
  datatype Answer = Answer(idles: nat, reply: Reply)

  // Any deterministic co-processor: its answer may depend on all it has heard.
  type Firmware = seq<Heard> -> Answer

  // Between transactions: what was heard, and whether the last transaction ended badly.
  datatype Ncp = Ncp(heard: seq<Heard>, aborted: bool)

  function HeardCommand(n: Ncp, cmd: seq<byte>): seq<Heard> {
    n.heard + [Command(cmd)]
  }

  // A badly ended transaction is reported in place of the next answer.
  function NextAnswer(fw: Firmware, n: Ncp, cmd: seq<byte>): Answer {
    var a := fw(HeardCommand(n, cmd));
    if n.aborted then Answer(a.idles, Error(ERR_ABORTED, 0)) else a
  }

  function Wire(a: Answer): (s: seq<byte>)
    ensures |s| == a.idles + |ReplyBytes(a.reply)|
    ensures forall i :: 0 <= i < a.idles ==> s[i] == SPI_IDLE
    ensures s[a.idles..] == ReplyBytes(a.reply)
  {
    seq(a.idles, i => SPI_IDLE) + ReplyBytes(a.reply)
  }

  // ----- Byte by byte -----

  datatype Phase = Listening(got: seq<byte>) | Answering(wire: seq<byte>, sent: nat)

  datatype Slave = Slave(ncp: Ncp, selected: bool, phase: Phase)

  // A frame command carries its own length; every other command is one byte.
  predicate Complete(cmd: seq<byte>) {
    |cmd| >= 2 &&
    if cmd[0] == CMD_EZSP_FRAME || cmd[0] == CMD_BTL_FRAME then |cmd| == cmd[1] as int + 3 else |cmd| == 2
  }

  function Clock(fw: Firmware, s: Slave, mosi: byte): (Slave, byte) {
    if !s.selected then (s, SPI_IDLE)
    else
      match s.phase
      case Listening(got) =>
        var cmd := got + [mosi];
        if Complete(cmd) then
          (s.(ncp := Ncp(HeardCommand(s.ncp, cmd), false),
              phase := Answering(Wire(NextAnswer(fw, s.ncp, cmd)), 0)), SPI_IDLE)
        else
          (s.(phase := Listening(cmd)), SPI_IDLE)
      case Answering(wire, sent) =>
        if sent < |wire| then
          (s.(phase := Answering(wire, sent + 1)), wire[sent])
        else
          // clocked past the terminator: the host seems to open a command
          (s.(ncp := s.ncp.(aborted := true)), SPI_IDLE)
  }

  function Select(s: Slave): Slave {
    s.(selected := true, phase := Listening([]))
  }

  function Release(s: Slave): Slave {
    var clean := match s.phase
                 case Listening(got) => got == []
                 case Answering(wire, sent) => sent >= |wire|;
    s.(selected := false, ncp := if clean then s.ncp else s.ncp.(aborted := true))
  }

  function ClockAll(fw: Firmware, s: Slave, mosi: seq<byte>): (r: (Slave, seq<byte>))
    ensures |r.1| == |mosi|
    ensures r.0.selected == s.selected
  {
    if mosi == [] then (s, [])
    else
      var (s1, miso) := ClockAll(fw, s, mosi[..|mosi| - 1]);
      var (s2, b) := Clock(fw, s1, mosi[|mosi| - 1]);
      (s2, miso + [b])
  }

  // The bytes of each kind of reply.
  lemma WireFormat(r: Reply)
    ensures r.Ezsp? ==> ReplyBytes(r) == [0xFE, |r.payload| as byte] + r.payload + [0xA7]
    ensures r.Error? ==> ReplyBytes(r) == [r.code, r.data, 0xA7] && r.code <= 0x04
    ensures r.Single? ==> ReplyBytes(r) == [r.b, 0xA7] && r.b > 0x04 && r.b != 0xFE && r.b != 0xFF
  {
  }

  // While it is idle it sends 0xFF.
  lemma IdleFirst(a: Answer, i: nat)
    requires i < a.idles
    ensures Wire(a)[i] == 0xFF
  {
  }

  // Clocking one byte past the terminator while it is selected spoils the transaction, as does
  // letting go before the terminator, or in the middle of a command; ending on it does not.
  lemma OverrunSpoils(fw: Firmware, s: Slave, mosi: byte)
    requires s.selected && s.phase.Answering? && s.phase.sent == |s.phase.wire|
    ensures Clock(fw, s, mosi).0.ncp == s.ncp.(aborted := true) && Release(s).ncp == s.ncp
  {
  }

  lemma EarlyReleaseSpoils(s: Slave)
    requires match s.phase
             case Listening(got) => got != []
             case Answering(wire, sent) => sent < |wire|
    ensures Release(s).ncp == s.ncp.(aborted := true)
  {
  }

  // The next command, whatever it is, is then answered with 0x02.
  lemma SpoiledIsReported(fw: Firmware, n: Ncp, cmd: seq<byte>)
    requires n.aborted
    ensures ReplyBytes(NextAnswer(fw, n, cmd).reply) == [0x02, 0x00, 0xA7]
  {
  }

  lemma PrefixIncomplete(cmd: seq<byte>, k: nat)
    requires Complete(cmd) && k < |cmd|
    ensures !Complete(cmd[..k])
  {
  }

  lemma {:induction false} ListensToPrefix(fw: Firmware, s: Slave, cmd: seq<byte>, k: nat)
    requires s.selected && s.phase == Listening([])
    requires Complete(cmd) && k < |cmd|
    ensures ClockAll(fw, s, cmd[..k]).0 == s.(phase := Listening(cmd[..k]))
    decreases k
  {
    hide Complete, Wire, NextAnswer, HeardCommand;
    if k > 0 {
      assert cmd[..k][..k - 1] == cmd[..k - 1];
      ListensToPrefix(fw, s, cmd, k - 1);
      PrefixIncomplete(cmd, k);
      assert cmd[..k - 1] + [cmd[k - 1]] == cmd[..k];
    }
  }

  lemma ListensToCommand(fw: Firmware, s: Slave, cmd: seq<byte>)
    requires s.selected && s.phase == Listening([])
    requires Complete(cmd)
    ensures ClockAll(fw, s, cmd).0 ==
            Slave(Ncp(HeardCommand(s.ncp, cmd), false), true, Answering(Wire(NextAnswer(fw, s.ncp, cmd)), 0))
  {
    var k := |cmd| - 1;
    ListensToPrefix(fw, s, cmd, k);
    assert cmd[..k] + [cmd[k]] == cmd;
  }

  lemma {:induction false} AnswersInOrder(fw: Firmware, s: Slave, mosi: seq<byte>)
    requires s.selected && s.phase.Answering? && s.phase.sent + |mosi| <= |s.phase.wire|
    ensures var (w, k) := (s.phase.wire, s.phase.sent);
            ClockAll(fw, s, mosi) == (s.(phase := Answering(w, k + |mosi|)), w[k..k + |mosi|])
    decreases |mosi|
  {
    hide Complete, Wire, NextAnswer, HeardCommand;
    var w, k, n := s.phase.wire, s.phase.sent, |mosi|;
    assert s.phase == Answering(w, k);
    if mosi != [] {
      AnswersInOrder(fw, s, mosi[..n - 1]);
      assert w[k..k + n - 1] + [w[k + n - 1]] == w[k..k + n];
    }
  }
}
