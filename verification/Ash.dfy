// The byte layer of ASH: stuffing, deframing, whitening, and the peer's reader.

module Ash {
  import opened Bytes
  import opened Crc

  const FLAG: byte := 0x7E
  const ESC: byte := 0x7D
  const XON: byte := 0x11
  const XOFF: byte := 0x13
  const SUB: byte := 0x18
  const CANCEL: byte := 0x1A
  const MAX_FRAME: nat := 140
  const RX_SIZE: nat := 280

  predicate Reserved(c: byte) {
    c == FLAG || c == ESC || c == XON || c == XOFF || c == SUB || c == CANCEL
  }

  // ----- Sending -----

  function StuffByte(c: byte): seq<byte> {
    if Reserved(c) then [ESC, c ^ 0x20] else [c]
  }

  function Stuff(s: seq<byte>): seq<byte> {
    if s == [] then [] else Stuff(s[..|s| - 1]) + StuffByte(s[|s| - 1])
  }

  function Encode(frame: seq<byte>): seq<byte> {
    Stuff(Seal(frame)) + [FLAG]
  }

  method PutStuffed(buf: array<byte>, at: nat, c: byte) returns (pos: nat)
    requires at + 2 <= buf.Length
    modifies buf
    ensures pos <= at + 2 && buf[..pos] == old(buf[..at]) + StuffByte(c)
  {
    if Reserved(c) {
      buf[at], buf[at + 1] := ESC, c ^ 0x20;
      pos := at + 2;
    } else {
      buf[at] := c;
      pos := at + 1;
    }
  }

  // The transmit buffer for one frame: its bytes and their CRC, stuffed, and the closing FLAG.
  method StuffFrame(frame: seq<byte>) returns (buf: array<byte>, pos: nat)
    requires |frame| <= MAX_FRAME
    ensures fresh(buf) && pos <= buf.Length && buf[..pos] == Encode(frame)
  {
    buf := new byte[MAX_FRAME * 2 + 8];
    pos := 0;
    var crc := AshCrc(frame);
    var tail := [High(crc), Low(crc)];
    ghost var sealed := Seal(frame);
    var i := 0;
    hide Seal, StuffByte, Reserved;
    while i < |frame| + 2
      invariant 0 <= i <= |frame| + 2 && pos <= 2 * i
      invariant buf[..pos] == Stuff(sealed[..i])
    {
      var c := if i < |frame| then frame[i] else tail[i - |frame|];
      assert sealed[..i + 1][..i] == sealed[..i] && c == sealed[..i + 1][i];
      pos := PutStuffed(buf, pos, c);
      i := i + 1;
    }
    assert sealed[..i] == sealed;
    ghost var done := buf[..pos];
    buf[pos] := FLAG;
    pos := pos + 1;
    assert buf[..pos] == done + [FLAG];
  }

  function EncodeAll(frames: seq<seq<byte>>): seq<byte> {
    if frames == [] then [] else EncodeAll(frames[..|frames| - 1]) + Encode(frames[|frames| - 1])
  }

  // ----- Receiving: every data byte since the last FLAG, CANCEL or SUB, without a bound -----

  datatype Line = Line(raw: seq<byte>, esc: bool)

  const IDLE := Line([], false)

  // What a 280 byte buffer still holds: a byte that finds it full empties it and is lost.
  function Held(raw: seq<byte>): (r: seq<byte>)
    ensures |r| == |raw| % (RX_SIZE + 1) <= RX_SIZE
  {
    raw[|raw| - |raw| % (RX_SIZE + 1)..]
  }

  function Step(l: Line, c: byte): Line {
    if c == XON || c == XOFF then l
    else if c == CANCEL || c == FLAG then Line([], false)
    else if c == SUB then Line([], true)
    else if c == ESC then Line(l.raw, true)
    else Line(l.raw + [if l.esc then c ^ 0x20 else c], false)
  }

  function Unseal(s: seq<byte>): seq<byte>
    requires |s| >= 2
  {
    s[..|s| - 2]
  }

  function Emitted(l: Line, c: byte): (r: seq<seq<byte>>)
    ensures forall f :: f in r ==> 1 <= |f| <= 278
  {
    if c == FLAG && Intact(Held(l.raw)) then [Unseal(Held(l.raw))] else []
  }

  function Run(l: Line, s: seq<byte>): Line {
    if s == [] then l else Step(Run(l, s[..|s| - 1]), s[|s| - 1])
  }

  // The frames delivered while s is read.
  function Frames(l: Line, s: seq<byte>): (r: seq<seq<byte>>)
    ensures forall f :: f in r ==> 1 <= |f| <= 278
  {
    if s == [] then []
    else Frames(l, s[..|s| - 1]) + Emitted(Run(l, s[..|s| - 1]), s[|s| - 1])
  }

  // Cutting the stream into reads changes nothing.
  lemma {:induction false} RunAppend(l: Line, s: seq<byte>, t: seq<byte>)
    ensures Run(l, s + t) == Run(Run(l, s), t)
    ensures Frames(l, s + t) == Frames(l, s) + Frames(Run(l, s), t)
    decreases |t|
  {
    if t == [] {
      assert s + t == s;
    } else {
      var n := |t| - 1;
      assert (s + t)[..|s + t| - 1] == s + t[..n];
      RunAppend(l, s, t[..n]);
    }
  }

  lemma RunNothing(l: Line)
    ensures Run(l, []) == l && Frames(l, []) == []
  {
  }

  lemma RunOne(l: Line, c: byte)
    ensures Run(l, [c]) == Step(l, c) && Frames(l, [c]) == Emitted(l, c)
  {
    assert [c][..0] == [];
    assert Run(l, []) == l && Frames(l, []) == [];
  }

  // Flow control bytes may turn up anywhere, even inside an escape pair.
  function Strip(s: seq<byte>): seq<byte> {
    if s == [] then []
    else
      var c := s[|s| - 1];
      Strip(s[..|s| - 1]) + if c == XON || c == XOFF then [] else [c]
  }

  lemma {:induction false} FlowControlIgnored(l: Line, s: seq<byte>)
    ensures Run(l, s) == Run(l, Strip(s)) && Frames(l, s) == Frames(l, Strip(s))
    decreases |s|
  {
    if s != [] {
      var n := |s| - 1;
      FlowControlIgnored(l, s[..n]);
      var t := Strip(s[..n]);
      if s[n] == XON || s[n] == XOFF {
        assert t + [] == t;
      } else {
        assert (t + [s[n]])[..|t + [s[n]]| - 1] == t;
      }
    }
  }

  // ----- Where the deframer stands, read off the stream itself -----

  predicate Boundary(c: byte) { c == FLAG || c == CANCEL || c == SUB }

  predicate Data(c: byte) { !Boundary(c) && c != XON && c != XOFF && c != ESC }

  // Index just past the last FLAG, CANCEL or SUB.
  function OpenFrom(s: seq<byte>): (k: nat)
    ensures k <= |s|
    ensures forall i :: k <= i < |s| ==> !Boundary(s[i])
    ensures k > 0 ==> Boundary(s[k - 1])
  {
    if s == [] then 0
    else if Boundary(s[|s| - 1]) then |s|
    else OpenFrom(s[..|s| - 1])
  }

  // Whether the byte after s will be read as escaped.
  predicate Escaping(s: seq<byte>) {
    s != [] &&
    var c := s[|s| - 1];
    c == ESC || c == SUB || ((c == XON || c == XOFF) && Escaping(s[..|s| - 1]))
  }

  // The data bytes of s from position k on, unescaped.
  function DataBytes(s: seq<byte>, k: nat): (r: seq<byte>)
    requires k <= |s|
    decreases |s|
  {
    if |s| == k then []
    else
      var init, c := s[..|s| - 1], s[|s| - 1];
      DataBytes(init, k) + if Data(c) then [if Escaping(init) then c ^ 0x20 else c] else []
  }

  lemma {:induction false} LineReadOff(s: seq<byte>)
    ensures Run(IDLE, s) == Line(DataBytes(s, OpenFrom(s)), Escaping(s))
    decreases |s|
  {
    if s != [] {
      var init, c := s[..|s| - 1], s[|s| - 1];
      LineReadOff(init);
      if !Boundary(c) {
        assert OpenFrom(s) == OpenFrom(init);
      } else {
        assert OpenFrom(s) == |s|;
      }
    }
  }

  function Count(s: seq<byte>): nat {
    if s == [] then 0 else Count(s[..|s| - 1]) + if Data(s[|s| - 1]) then 1 else 0
  }

  lemma {:induction false} DataBytesCount(s: seq<byte>, k: nat)
    requires k <= |s|
    ensures |DataBytes(s, k)| == Count(s[k..])
    decreases |s|
  {
    if |s| > k {
      DataBytesCount(s[..|s| - 1], k);
      assert s[k..][..|s[k..]| - 1] == s[..|s| - 1][k..];
    }
  }

  // n data bytes since the last boundary: the buffer holds the last n mod 281 of them.
  lemma HeldReadOff(s: seq<byte>)
    ensures var n := Count(s[OpenFrom(s)..]);
            var data := DataBytes(s, OpenFrom(s));
            |data| == n && Held(Run(IDLE, s).raw) == data[n - n % 281..]
  {
    LineReadOff(s);
    DataBytesCount(s, OpenFrom(s));
  }

  lemma RunThenOne(l: Line, s: seq<byte>, c: byte)
    ensures Run(l, s + [c]) == Step(Run(l, s), c)
    ensures Frames(l, s + [c]) == Frames(l, s) + Emitted(Run(l, s), c)
  {
    hide Step, Emitted;
    assert (s + [c])[..|s + [c]| - 1] == s;
  }

  // One more byte delivers a frame exactly when it is a FLAG and those bytes check out.
  lemma DeliveryReadOff(s: seq<byte>, c: byte)
    ensures var data := DataBytes(s, OpenFrom(s));
            var held := data[|data| - |data| % 281..];
            Frames(IDLE, s + [c]) ==
            Frames(IDLE, s) + if c == FLAG && Intact(held) then [held[..|held| - 2]] else []
  {
    hide Intact, Run, Frames, DataBytes, OpenFrom, Escaping;
    LineReadOff(s);
    RunThenOne(IDLE, s, c);
  }

  // ----- The round trip -----

  lemma Unescape(c: byte)
    ensures (c ^ 0x20) ^ 0x20 == c
    ensures Reserved(c) ==> !Reserved(c ^ 0x20)
  {
  }

  lemma RunStuffedByte(l: Line, c: byte)
    requires !l.esc
    ensures Run(l, StuffByte(c)) == Line(l.raw + [c], false) && Frames(l, StuffByte(c)) == []
  {
    if Reserved(c) {
      Unescape(c);
      RunOne(l, ESC);
      RunOne(Step(l, ESC), c ^ 0x20);
      RunAppend(l, [ESC], [c ^ 0x20]);
      assert [ESC] + [c ^ 0x20] == StuffByte(c);
    } else {
      RunOne(l, c);
    }
  }

  lemma StuffLast(s: seq<byte>)
    ensures Stuff(s) == if s == [] then [] else Stuff(s[..|s| - 1]) + StuffByte(s[|s| - 1])
  {
  }

  lemma {:induction false} RunStuffed(l: Line, s: seq<byte>)
    requires !l.esc
    ensures Run(l, Stuff(s)) == Line(l.raw + s, false) && Frames(l, Stuff(s)) == []
    decreases |s|
  {
    hide Run, Frames, StuffByte, Stuff;
    StuffLast(s);
    if s == [] {
      RunNothing(l);
      assert l.raw + [] == l.raw;
    } else {
      var n := |s| - 1;
      var m := Line(l.raw + s[..n], false);
      RunStuffed(l, s[..n]);
      RunStuffedByte(m, s[n]);
      RunAppend(l, Stuff(s[..n]), StuffByte(s[n]));
      assert l.raw + s == m.raw + [s[n]];
    }
  }

  // One encoded frame is delivered exactly once, and the deframer is idle again.
  lemma EncodeDelivers(frame: seq<byte>)
    requires 1 <= |frame| <= 278
    ensures Run(IDLE, Encode(frame)) == IDLE && Frames(IDLE, Encode(frame)) == [frame]
  {
    hide Run, Frames, Intact, Stuff, Seal;
    var s := Seal(frame);
    RunStuffed(IDLE, s);
    assert [] + s == s && Held(s) == s;
    SealIntact(frame);
    RunOne(Line(s, false), FLAG);
    RunAppend(IDLE, Stuff(s), [FLAG]);
  }

  // After a CANCEL the same holds from any state, whatever was buffered before.
  lemma CancelResynchronises(l: Line, frame: seq<byte>)
    requires 1 <= |frame| <= 278
    ensures Run(l, [CANCEL] + Encode(frame)) == IDLE
    ensures Frames(l, [CANCEL] + Encode(frame)) == [frame]
  {
    var c := [CANCEL];
    assert c[..0] == [];
    assert Run(l, c) == IDLE && Frames(l, c) == [];
    RunAppend(l, c, Encode(frame));
    EncodeDelivers(frame);
  }

  lemma {:induction false} EncodeAllDelivers(frames: seq<seq<byte>>)
    requires forall f :: f in frames ==> 1 <= |f| <= 278
    ensures Run(IDLE, EncodeAll(frames)) == IDLE && Frames(IDLE, EncodeAll(frames)) == frames
    decreases |frames|
  {
    hide Encode, Intact, Step, Emitted;
    if frames != [] {
      var n := |frames| - 1;
      var init := frames[..n];
      assert frames == init + [frames[n]];
      EncodeAllDelivers(init);
      EncodeDelivers(frames[n]);
      RunAppend(IDLE, EncodeAll(init), Encode(frames[n]));
    }
  }

  // What the peer sends arrives, with flow control bytes inserted anywhere.
  lemma NoisyDelivers(frames: seq<seq<byte>>, wire: seq<byte>)
    requires forall f :: f in frames ==> 1 <= |f| <= 278
    requires Strip(wire) == EncodeAll(frames)
    ensures Run(IDLE, wire) == IDLE && Frames(IDLE, wire) == frames
  {
    FlowControlIgnored(IDLE, wire);
    EncodeAllDelivers(frames);
  }

  // Reserved values appear on the wire only as escape markers and the closing FLAG.
  lemma {:induction false} StuffedIsClean(s: seq<byte>)
    ensures |Stuff(s)| <= 2 * |s|
    ensures forall i :: 0 <= i < |Stuff(s)| && Reserved(Stuff(s)[i]) ==>
              Stuff(s)[i] == ESC && i + 1 < |Stuff(s)| && !Reserved(Stuff(s)[i + 1])
    decreases |s|
  {
    if s != [] {
      StuffedIsClean(s[..|s| - 1]);
      Unescape(s[|s| - 1]);
    }
  }

  // On the wire the six values are 0x7E, 0x7D, 0x11, 0x13, 0x18 and 0x1A, and each is sent as
  // 0x7D and itself with bit 0x20 flipped.
  lemma StuffedByte(c: byte)
    ensures StuffByte(c) ==
            if c == 0x7E then [0x7D, 0x5E] else if c == 0x7D then [0x7D, 0x5D] else if c == 0x11 then [0x7D, 0x31]
            else if c == 0x13 then [0x7D, 0x33] else if c == 0x18 then [0x7D, 0x38] else if c == 0x1A then [0x7D, 0x3A]
            else [c]
  {
  }

  lemma {:induction false} StuffedValues(s: seq<byte>)
    ensures forall i :: 0 <= i < |Stuff(s)| ==> Stuff(s)[i] !in {0x7E, 0x11, 0x13, 0x18, 0x1A}
    ensures forall i :: 0 <= i < |Stuff(s)| && Stuff(s)[i] == 0x7D ==>
              i + 1 < |Stuff(s)| && Stuff(s)[i + 1] in {0x5E, 0x5D, 0x31, 0x33, 0x38, 0x3A}
    decreases |s|
  {
    if s != [] {
      StuffedValues(s[..|s| - 1]);
      StuffedByte(s[|s| - 1]);
      hide StuffByte;
    }
  }

  lemma EncodedIsClean(frame: seq<byte>)
    requires |frame| <= 140
    ensures var e := Encode(frame);
            && |e| <= 285 && e[|e| - 1] == 0x7E
            && (forall i :: 0 <= i < |e| - 1 ==> e[i] !in {0x7E, 0x11, 0x13, 0x18, 0x1A})
            && (forall i :: 0 <= i < |e| - 1 && e[i] == 0x7D ==>
                  i + 1 < |e| - 1 && e[i + 1] in {0x5E, 0x5D, 0x31, 0x33, 0x38, 0x3A})
  {
    StuffedIsClean(Seal(frame));
    StuffedValues(Seal(frame));
    hide Stuff, Seal;
  }

  // What each value does to the deframer, which holds at most 280 bytes.
  lemma StepValues(l: Line, c: byte)
    ensures Step(l, c) ==
            if c == 0x11 || c == 0x13 then l
            else if c == 0x1A || c == 0x7E then Line([], false)
            else if c == 0x18 then Line([], true)
            else if c == 0x7D then Line(l.raw, true)
            else Line(l.raw + [if l.esc then c ^ 0x20 else c], false)
    ensures Emitted(l, c) != [] ==> c == 0x7E
    ensures PeerStep(l, c) == if c == 0x18 then Line(l.raw + [if l.esc then 0x38 else 0x18], false) else Step(l, c)
  {
  }

  // ----- The reader in the smoke test: no bound on the buffer, SUB is data -----

  function PeerStep(l: Line, c: byte): Line {
    if c == XON || c == XOFF then l
    else if c == CANCEL || c == FLAG then Line([], false)
    else if c == ESC then Line(l.raw, true)
    else Line(l.raw + [if l.esc then c ^ 0x20 else c], false)
  }

  function PeerRun(l: Line, s: seq<byte>): Line {
    if s == [] then l else PeerStep(PeerRun(l, s[..|s| - 1]), s[|s| - 1])
  }

  function PeerFrames(l: Line, s: seq<byte>): seq<seq<byte>> {
    if s == [] then []
    else
      var init, c := s[..|s| - 1], s[|s| - 1];
      var raw := PeerRun(l, init).raw;
      PeerFrames(l, init) + if c == FLAG && Intact(raw) then [Unseal(raw)] else []
  }

  lemma {:induction false} PeerAppend(l: Line, s: seq<byte>, t: seq<byte>)
    ensures PeerRun(l, s + t) == PeerRun(PeerRun(l, s), t)
    ensures PeerFrames(l, s + t) == PeerFrames(l, s) + PeerFrames(PeerRun(l, s), t)
    decreases |t|
  {
    if t == [] {
      assert s + t == s;
    } else {
      assert (s + t)[..|s + t| - 1] == s + t[..|t| - 1];
      PeerAppend(l, s, t[..|t| - 1]);
    }
  }

  // Without SUB and FLAG the two readers move together.
  lemma {:induction false} PeerAgrees(l: Line, s: seq<byte>)
    requires SUB !in s && FLAG !in s
    ensures PeerRun(l, s) == Run(l, s) && PeerFrames(l, s) == []
    decreases |s|
  {
    if s != [] {
      PeerAgrees(l, s[..|s| - 1]);
    }
  }

  lemma PeerClears(l: Line)
    ensures PeerStep(l, FLAG) == IDLE
  {
  }

  lemma NoMarksInside(s: seq<byte>)
    ensures SUB !in Stuff(s) && FLAG !in Stuff(s)
  {
    StuffedIsClean(s);
  }

  lemma PeerReadsOne(frame: seq<byte>)
    requires frame != []
    ensures PeerRun(IDLE, Encode(frame)) == IDLE && PeerFrames(IDLE, Encode(frame)) == [frame]
  {
    hide Intact, Stuff, Seal, Run, Frames, PeerStep;
    var s := Seal(frame);
    NoMarksInside(s);
    PeerAgrees(IDLE, Stuff(s));
    RunStuffed(IDLE, s);
    assert [] + s == s;
    SealIntact(frame);
    var e := Encode(frame);
    assert e[..|e| - 1] == Stuff(s);
    assert PeerStep(Line(s, false), FLAG) == IDLE by { PeerClears(Line(s, false)); }
  }

  lemma {:induction false} PeerReads(frames: seq<seq<byte>>)
    requires forall f :: f in frames ==> 1 <= |f|
    ensures PeerRun(IDLE, EncodeAll(frames)) == IDLE && PeerFrames(IDLE, EncodeAll(frames)) == frames
    decreases |frames|
  {
    hide Encode, Intact, PeerStep;
    if frames != [] {
      var n := |frames| - 1;
      var init := frames[..n];
      assert frames == init + [frames[n]];
      PeerReads(init);
      PeerReadsOne(frames[n]);
      PeerAppend(IDLE, EncodeAll(init), Encode(frames[n]));
    }
  }
}
