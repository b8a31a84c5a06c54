// The Basic cluster's answer to Read Attributes: records appended under a 96 byte limit, the
// whole refused above 64 bytes (Zigbee Cluster Library 07-5123, sections 2.5.1 and 2.5.2).

module Zcl {
  import opened Bytes
  import opened Crc
  import opened Coprocessor
  import opened Spi
  import opened Ezsp

  const RESP_SIZE: nat := 96
  const SEND_MAX: nat := 64
  const PROFILE_ZDO: bv16 := 0x0000
  const CLUSTER_BASIC: bv16 := 0x0000
  const MGMT_PERMIT_JOINING_REQ: bv16 := 0x0036
  const SEND_UNICAST: byte := 0x34
  const UNSUPPORTED: byte := 0x86

  // A host name, cut to 31 bytes.
  type Location = s: seq<byte> | |s| <= 31 witness []

  const MANUFACTURER: seq<byte> := [0x4C, 0x69, 0x6E, 0x6B, 0x73, 0x79, 0x73]
  const MODEL: seq<byte> := [0x57, 0x48, 0x57, 0x30, 0x33, 0x56, 0x32]
  const SW_BUILD: seq<byte> := [0x65, 0x7A, 0x73, 0x70, 0x2D, 0x73, 0x70, 0x69, 0x20, 0x30, 0x2E, 0x31]

  datatype Attribute = Missing | Number(ty: byte, val: byte) | Text(text: seq<byte>)

  function AttributeOf(id: bv16, loc: Location): (a: Attribute)
    ensures a.Text? ==> |a.text| <= 31
  {
    if id == 0x0000 then Number(0x20, 3)
    else if id == 0x0001 then Number(0x20, 1)
    else if id == 0x0002 then Number(0x20, 0x58)
    else if id == 0x0003 then Number(0x20, 2)
    else if id == 0x0004 then Text(MANUFACTURER)
    else if id == 0x0005 then Text(MODEL)
    else if id == 0x0007 then Number(0x30, 0x01)
    else if id == 0x0010 then Text(loc)
    else if id == 0x4000 then Text(SW_BUILD)
    else Missing
  }

  function RecordOf(id: bv16, loc: Location): (r: seq<byte>)
    ensures 3 <= |r| <= 36
  {
    match AttributeOf(id, loc)
    case Missing => [Low(id), High(id), UNSUPPORTED]
    case Number(ty, val) => [Low(id), High(id), 0x00, ty, val]
    case Text(s) => [Low(id), High(id), 0x00, 0x42, |s| as byte] + s
  }

  function Put(b: seq<byte>, id: bv16, loc: Location, max: nat): seq<byte> {
    if |b| + |RecordOf(id, loc)| > max then b else b + RecordOf(id, loc)
  }

  method Append(b: array<byte>, at: nat, src: seq<byte>) returns (n: nat)
    requires at + |src| <= b.Length
    modifies b
    ensures n == at + |src| && b[..n] == old(b[..at]) + src
  {
    Copy(b, at, src);
    n := at + |src|;
    assert b[..n] == b[..at] + b[at..n];
  }

  lemma RecordIs(id: bv16, loc: Location)
    ensures RecordOf(id, loc) ==
            match AttributeOf(id, loc)
            case Missing => [Low(id), High(id), UNSUPPORTED]
            case Number(ty, val) => [Low(id), High(id), 0x00, ty, val]
            case Text(s) => [Low(id), High(id), 0x00, 0x42, |s| as byte] + s
  {
  }

  lemma PutIs(b: seq<byte>, id: bv16, loc: Location, max: nat)
    ensures Put(b, id, loc, max) == if |b| + |RecordOf(id, loc)| > max then b else b + RecordOf(id, loc)
  {
    hide RecordOf;
  }

  // Appends one record if it fits in max bytes.
  method AppendAttr(b: array<byte>, at: nat, max: nat, id: bv16, loc: Location) returns (n: nat)
    requires at <= max <= b.Length
    modifies b
    ensures n <= max && b[..n] == Put(old(b[..at]), id, loc, max)
  {
    RecordIs(id, loc);
    var a := AttributeOf(id, loc);
    hide *;
    ghost var before := b[..at];
    PutIs(before, id, loc, max);
    n := at;
    match a {
      case Missing =>
        if at + 3 > max {
          return;
        }
        n := Append(b, n, [Low(id), High(id), UNSUPPORTED]);
      case Text(s) =>
        if at + 5 + |s| > max {
          return;
        }
        n := Append(b, n, [Low(id), High(id), 0x00, 0x42, |s| as byte]);
        n := Append(b, n, s);
        assert b[..n] == before + ([Low(id), High(id), 0x00, 0x42, |s| as byte] + s);
      case Number(ty, val) =>
        if at + 5 > max {
          return;
        }
        n := Append(b, n, [Low(id), High(id), 0x00, ty, val]);
    }
  }

  // ----- The answer -----

  // The attribute ids in the rest of a request, low byte first; an odd byte at the end is ignored.
  function IdsOf(s: seq<byte>): seq<bv16> {
    if |s| < 2 then [] else [Word(s[1], s[0])] + IdsOf(s[2..])
  }

  function PutAll(b: seq<byte>, ids: seq<bv16>, loc: Location): seq<byte>
    decreases |ids|
  {
    if ids == [] then b else PutAll(Put(b, ids[0], loc, RESP_SIZE), ids[1..], loc)
  }

  function Response(sn: byte, ids: seq<bv16>, loc: Location): seq<byte> {
    PutAll([0x18, sn, 0x01], ids, loc)
  }

  predicate ManufacturerSpecific(fc: byte) { fc & 0x04 != 0 }

  predicate ProfileWide(fc: byte) { fc & 0x03 == 0x00 }

  datatype Request = Request(sender: bv16, sn: byte, list: seq<byte>)

  // A Read Attributes for the Basic cluster inside an incoming message callback.
  function RequestIn(m: seq<byte>): Option<Request> {
    if |m| < 20 then None
    else
      var zlen := m[18] as int;
      if zlen < 3 || |m| < 19 + zlen then None
      else if Word(m[2], m[1]) == PROFILE_ZDO && Word(m[4], m[3]) == MGMT_PERMIT_JOINING_REQ then None
      else ReadIn(Word(m[15], m[14]), Word(m[4], m[3]), m[19..19 + zlen])
  }

  function ReadIn(sender: bv16, cluster: bv16, zcl: seq<byte>): Option<Request>
    requires |zcl| >= 3
  {
    var i := if ManufacturerSpecific(zcl[0]) then 3 else 1;
    if i + 1 >= |zcl| then None
    else if cluster != CLUSTER_BASIC || !ProfileWide(zcl[0]) || zcl[i + 1] != 0x00 then None
    else Some(Request(sender, zcl[i], zcl[i + 2..]))
  }

  // Reads a request and builds its answer; None when there is nothing to answer.
  method HandleIncoming(m: seq<byte>, loc: Location) returns (r: Option<(bv16, seq<byte>)>)
    ensures var q := RequestIn(m);
            r == if q.None? then None else Some((q.value.sender, Response(q.value.sn, IdsOf(q.value.list), loc)))
    ensures r.Some? ==> |r.value.1| <= RESP_SIZE
  {
    hide Word, Response, IdsOf, ReadIn;
    if |m| < 20 {
      return None;
    }
    var profile, cluster, sender := Word(m[2], m[1]), Word(m[4], m[3]), Word(m[15], m[14]);
    var zlen := m[18] as nat;
    if zlen < 3 || |m| < 19 + zlen {
      return None;
    }
    if profile == PROFILE_ZDO && cluster == MGMT_PERMIT_JOINING_REQ {
      return None;
    }
    r := HandleRead(sender, cluster, m[19..19 + zlen], loc);
  }

  method HandleRead(sender: bv16, cluster: bv16, zcl: seq<byte>, loc: Location) returns (r: Option<(bv16, seq<byte>)>)
    requires |zcl| >= 3
    ensures var q := ReadIn(sender, cluster, zcl);
            r == if q.None? then None else Some((q.value.sender, Response(q.value.sn, IdsOf(q.value.list), loc)))
    ensures r.Some? ==> |r.value.1| <= RESP_SIZE
  {
    hide Response, IdsOf, ManufacturerSpecific, ProfileWide;
    var fc := zcl[0];
    var i := 1;
    if ManufacturerSpecific(fc) {
      i := i + 2;
    }
    if i + 1 >= |zcl| {
      return None;
    }
    var sn, cmd := zcl[i], zcl[i + 1];
    i := i + 2;
    if cluster != CLUSTER_BASIC {
      return None;
    }
    if !ProfileWide(fc) || cmd != 0x00 {
      return None;
    }
    var resp := BuildAnswer(sn, zcl[i..], loc);
    return Some((sender, resp));
  }

  method BuildAnswer(sn: byte, list: seq<byte>, loc: Location) returns (r: seq<byte>)
    ensures r == Response(sn, IdsOf(list), loc) && |r| <= RESP_SIZE
  {
    hide Word, Put, Low, High;
    var resp := new byte[RESP_SIZE];
    resp[0], resp[1], resp[2] := 0x18, sn, 0x01;
    var at: nat := 3;
    var i := 0;
    assert resp[..at] == [0x18, sn, 0x01];
    while i + 1 < |list|
      invariant 0 <= i <= |list| && at <= RESP_SIZE
      invariant PutAll(resp[..at], IdsOf(list[i..]), loc) == Response(sn, IdsOf(list), loc)
    {
      assert list[i..][2..] == list[i + 2..];
      at := AppendAttr(resp, at, RESP_SIZE, Word(list[i + 1], list[i]), loc);
      i := i + 2;
    }
    r := resp[..at];
  }

  // ----- Sending -----

  // sendUnicast: direct, the APS frame, the message tag, and the payload with its length.
  function UnicastParams(dest: bv16, cluster: bv16, tag: byte, payload: seq<byte>): (r: seq<byte>)
    requires |payload| <= SEND_MAX
    ensures |r| == 16 + |payload|
  {
    [0x00, Low(dest), High(dest), 0x04, 0x01, Low(cluster), High(cluster), 0x01, 0x01,
     0x40, 0x01, 0x00, 0x00, 0x00, tag, |payload| as byte] + payload
  }

  // A reader of them, words low byte first: the APS frame is profile, cluster, both endpoints,
  // options, group and sequence.
  datatype Unicast = Unicast(kind: byte, dest: bv16, profile: bv16, cluster: bv16, from: byte, to: byte,
                             options: bv16, group: bv16, apsSequence: byte, tag: byte, payload: seq<byte>)

  function ReadUnicast(p: seq<byte>): Option<Unicast> {
    if |p| < 16 || |p| != 16 + p[15] as int then None
    else Some(Unicast(p[0], Word(p[2], p[1]), Word(p[4], p[3]), Word(p[6], p[5]), p[7], p[8],
                      Word(p[10], p[9]), Word(p[12], p[11]), p[13], p[14], p[16..]))
  }

  // It reads back the destination, cluster, tag and payload given, direct, under the home
  // automation profile, between endpoints 1, with retry and route discovery.
  lemma UnicastReadsBack(dest: bv16, cluster: bv16, tag: byte, payload: seq<byte>)
    requires |payload| <= SEND_MAX
    ensures ReadUnicast(UnicastParams(dest, cluster, tag, payload)) ==
            Some(Unicast(0x00, dest, 0x0104, cluster, 0x01, 0x01, 0x0140, 0x0000, 0x00, tag, payload))
  {
    var p := UnicastParams(dest, cluster, tag, payload);
    NumberRoundTrip(|payload|);
    WordParts(dest, 0, 0);
    WordParts(cluster, 0, 0);
    Words();
    assert p[16..] == payload;
    hide Word, Low, High;
  }

  lemma Words()
    ensures Word(0x01, 0x04) == 0x0104 && Word(0x01, 0x40) == 0x0140 && Word(0x00, 0x00) == 0x0000
  {
  }

  // The SPI command asks the co-processor, in the layout of version ver, to send this payload to
  // this node.
  predicate AsksToSend(ver: int, cmd: seq<byte>, sn: byte, dest: bv16, cluster: bv16, tag: byte, payload: seq<byte>) {
    var asked := NcpParse(ver, cmd);
    asked.Some? && asked.value.sn == sn && asked.value.id == 0x34 &&
    ReadUnicast(asked.value.params) ==
    Some(Unicast(0x00, dest, 0x0104, cluster, 0x01, 0x01, 0x0140, 0x0000, 0x00, tag, payload))
  }

  lemma SendUnicastAsks(ver: int, sn: byte, dest: bv16, cluster: bv16, tag: byte, payload: seq<byte>)
    requires |payload| <= SEND_MAX
    ensures var frame := HostFrame(ver, sn, SEND_UNICAST, UnicastParams(dest, cluster, tag, payload));
            |frame| <= 255 && AsksToSend(ver, Wrap(frame), sn, dest, cluster, tag, payload)
  {
    UnicastReadsBack(dest, cluster, tag, payload);
    HostFrameParses(ver, sn, SEND_UNICAST, UnicastParams(dest, cluster, tag, payload));
    hide UnicastParams, ReadUnicast, HostFrame, Wrap, NcpParse;
  }

  class Endpoint {
    const host: EzspHost
    var tag: byte           // numbers the messages handed to the stack

    constructor (host: EzspHost)
      ensures this.host == host && tag == 0
    {
      this.host, tag := host, 0;
    }

    // Hands a message to the stack, unless it is longer than 64 bytes.
    method Send(dest: bv16, cluster: bv16, payload: seq<byte>) returns (ok: bool, ghost frame: seq<byte>)
      requires host.port.Quiet()
      modifies this, host`sn, host.port
      ensures host.port.Quiet()
      ensures |payload| > SEND_MAX ==>
                !ok && tag == old(tag) && host.sn == old(host.sn) && host.port.slave == old(host.port.slave)
      ensures |payload| <= SEND_MAX ==>
                |frame| <= 255 &&
                AsksToSend(host.version, Wrap(frame), old(host.sn), dest, cluster, old(tag), payload) &&
                var (r, m) := Ezsp.Ask(host.port.fw, host.port.waitBytes, old(host.port.slave.ncp), frame);
                var g := Open(host.version, r, 8);
                host.port.slave.ncp == m && tag == Next(old(tag)) && host.sn == Next(old(host.sn)) &&
                ok == (g.Some? && g.value.payload != [] && g.value.payload[0] == 0x00)
    {
      hide Ezsp.Ask, Open, HostFrame, UnicastParams, Next, AsksToSend, Wrap;
      frame := [];
      if |payload| > SEND_MAX {
        return false, [];
      }
      var params := UnicastParams(dest, cluster, tag, payload);
      frame := HostFrame(host.version, host.sn, SEND_UNICAST, params);
      SendUnicastAsks(host.version, host.sn, dest, cluster, tag, payload);
      tag := Next(tag);
      var got := host.Xfer(SEND_UNICAST, params, 8);
      if got.None? || |got.value.payload| < 1 {
        return false, frame;
      }
      return got.value.payload[0] == 0x00, frame;
    }

    // An incoming message: a Read Attributes for the Basic cluster is answered to its sender,
    // with one sendUnicast, unless the answer is over 64 bytes; anything else leaves the stack
    // and the counters alone. sent is the answer handed over, and frame what carries it.
    method Incoming(m: seq<byte>, loc: Location) returns (sent: Option<seq<byte>>, ghost frame: seq<byte>)
      requires host.port.Quiet()
      modifies this, host`sn, host.port
      ensures host.port.Quiet()
      ensures var q := RequestIn(m);
              sent == if q.Some? && |Response(q.value.sn, IdsOf(q.value.list), loc)| <= SEND_MAX
                      then Some(Response(q.value.sn, IdsOf(q.value.list), loc)) else None
      ensures sent.Some? ==>
                |frame| <= 255 &&
                AsksToSend(host.version, Wrap(frame), old(host.sn), RequestIn(m).value.sender, 0x0000, old(tag),
                           sent.value) &&
                var (r, ncp) := Ezsp.Ask(host.port.fw, host.port.waitBytes, old(host.port.slave.ncp), frame);
                host.port.slave.ncp == ncp && tag == Next(old(tag)) && host.sn == Next(old(host.sn))
      ensures sent.None? ==> host.port.slave == old(host.port.slave) && tag == old(tag) && host.sn == old(host.sn)
    {
      hide RequestIn, Response, IdsOf, AsksToSend, Wrap, Ezsp.Ask, Open, Next;
      frame := [];
      var r := HandleIncoming(m, loc);
      if r.None? {
        return None, [];
      }
      sent := if |r.value.1| <= SEND_MAX then Some(r.value.1) else None;
      var ok;
      ok, frame := Send(r.value.0, CLUSTER_BASIC, r.value.1);
    }
  }

  // ----- Asking -----

  function IdBytes(ids: seq<bv16>): seq<byte> {
    if ids == [] then [] else [Low(ids[0]), High(ids[0])] + IdBytes(ids[1..])
  }

  lemma {:induction false} IdsReadBack(ids: seq<bv16>)
    ensures IdsOf(IdBytes(ids)) == ids
  {
    hide Word, Low, High;
    if ids != [] {
      IdsReadBack(ids[1..]);
      WordParts(ids[0], 0, 0);
      var s := IdBytes(ids);
      assert s[2..] == IdBytes(ids[1..]);
      assert ids == [ids[0]] + ids[1..];
    }
  }

  // A ZCL frame that asks for the attributes: frame control, a manufacturer code if bit 0x04 of
  // it says so, sequence number, command 0x00 and the ids.
  function ReadFrame(fc: byte, maker: seq<byte>, sn: byte, ids: seq<bv16>): seq<byte>
    requires |maker| == if ManufacturerSpecific(fc) then 2 else 0
  {
    [fc] + maker + [sn, 0x00] + IdBytes(ids)
  }

  // The callback that carries a ZCL frame: message type, APS frame, link quality, sender,
  // indices, and the frame with its length. aps holds the nine bytes after the cluster.
  function Carrying(profile: bv16, aps: seq<byte>, sender: bv16, zcl: seq<byte>): seq<byte>
    requires |aps| == 9 && |zcl| <= 255
  {
    [0x00, Low(profile), High(profile), Low(CLUSTER_BASIC), High(CLUSTER_BASIC)] + aps +
    [Low(sender), High(sender), 0x00, 0x00, |zcl| as byte] + zcl
  }

  lemma CarryingFields(profile: bv16, aps: seq<byte>, sender: bv16, zcl: seq<byte>)
    requires |aps| == 9 && |zcl| <= 255
    ensures var m := Carrying(profile, aps, sender, zcl);
            && |m| == 19 + |zcl| && m[18] == |zcl| as byte
            && m[1] == Low(profile) && m[2] == High(profile)
            && m[3] == Low(CLUSTER_BASIC) && m[4] == High(CLUSTER_BASIC)
            && m[14] == Low(sender) && m[15] == High(sender)
            && m[19..] == zcl && m[19..19 + |zcl|] == zcl
  {
    hide Low, High;
    var m := Carrying(profile, aps, sender, zcl);
    assert m[19..19 + |zcl|] == m[19..];
  }

  // A profile-wide Read Attributes for the Basic cluster is recognised, whatever its other
  // fields, with a manufacturer code or without, and every id in it is found.
  lemma AskingFound(profile: bv16, aps: seq<byte>, sender: bv16, fc: byte, maker: seq<byte>, sn: byte, ids: seq<bv16>)
    requires |aps| == 9 && ProfileWide(fc) && |maker| == if ManufacturerSpecific(fc) then 2 else 0
    requires |ReadFrame(fc, maker, sn, ids)| <= 255
    ensures RequestIn(Carrying(profile, aps, sender, ReadFrame(fc, maker, sn, ids))) ==
            Some(Request(sender, sn, IdBytes(ids)))
    ensures IdsOf(IdBytes(ids)) == ids
  {
    IdsReadBack(ids);
    ReadFound(sender, fc, maker, sn, ids);
    hide Word, Low, High, IdBytes, IdsOf, Carrying, ReadFrame, ReadIn, ManufacturerSpecific, ProfileWide;
    var zcl := ReadFrame(fc, maker, sn, ids);
    CarryingFields(profile, aps, sender, zcl);
    NumberRoundTrip(|zcl|);
    WordParts(profile, 0, 0);
    WordParts(sender, 0, 0);
    WordParts(CLUSTER_BASIC, 0, 0);
    var m := Carrying(profile, aps, sender, zcl);
    assert Word(m[4], m[3]) == CLUSTER_BASIC && Word(m[15], m[14]) == sender;
  }

  // And nothing else is: what is recognised is such a frame, in a callback from that sender for
  // cluster 0x0000, with command 0x00.
  lemma OnlyAskingFound(m: seq<byte>)
    requires RequestIn(m).Some?
    ensures |m| >= 20 && 3 <= m[18] as int <= |m| - 19
    ensures var q, zcl := RequestIn(m).value, m[19..19 + m[18] as int];
            && m[3] == 0x00 && m[4] == 0x00 && q.sender == Word(m[15], m[14])
            && zcl[0] & 0x03 == 0x00
            && exists maker: seq<byte> :: |maker| == (if zcl[0] & 0x04 != 0 then 2 else 0) &&
                 zcl == [zcl[0]] + maker + [q.sn, 0x00] + q.list
  {
    var zcl := m[19..19 + m[18] as int];
    WordZero(m[4], m[3]);
    hide Word;
    OnlyReadFound(RequestIn(m).value.sender, Word(m[4], m[3]), zcl);
  }

  lemma WordZero(h: byte, l: byte)
    ensures Word(h, l) == 0 <==> h == 0 && l == 0
  {
  }

  lemma OnlyReadFound(sender: bv16, cluster: bv16, zcl: seq<byte>)
    requires |zcl| >= 3 && ReadIn(sender, cluster, zcl).Some?
    ensures var q := ReadIn(sender, cluster, zcl).value;
            && q.sender == sender && cluster == 0x0000 && zcl[0] & 0x03 == 0x00
            && exists maker: seq<byte> :: |maker| == (if zcl[0] & 0x04 != 0 then 2 else 0) &&
                 zcl == [zcl[0]] + maker + [q.sn, 0x00] + q.list
  {
    var q := ReadIn(sender, cluster, zcl).value;
    var i := if zcl[0] & 0x04 != 0 then 3 else 1;
    assert ManufacturerSpecific(zcl[0]) == (zcl[0] & 0x04 != 0);
    hide ManufacturerSpecific;
    var maker := zcl[1..i];
    assert zcl == [zcl[0]] + maker + [q.sn, 0x00] + q.list;
  }

  lemma ReadFound(sender: bv16, fc: byte, maker: seq<byte>, sn: byte, ids: seq<bv16>)
    requires ProfileWide(fc) && |maker| == if ManufacturerSpecific(fc) then 2 else 0
    ensures var zcl := ReadFrame(fc, maker, sn, ids);
            |zcl| >= 3 && ReadIn(sender, CLUSTER_BASIC, zcl) == Some(Request(sender, sn, IdBytes(ids)))
  {
    hide ManufacturerSpecific, ProfileWide, IdBytes;
    var zcl := ReadFrame(fc, maker, sn, ids);
    var i := 1 + |maker|;
    assert zcl == ([fc] + maker) + ([sn, 0x00] + IdBytes(ids));
    assert zcl[i] == sn && zcl[i + 1] == 0x00 && zcl[i + 2..] == IdBytes(ids);
  }

  // ----- Which records make it -----

  // The requested ids whose records fit, starting with at bytes used.
  function Kept(at: nat, ids: seq<bv16>, loc: Location): seq<bv16>
    decreases |ids|
  {
    if ids == [] then []
    else
      var n := at + |RecordOf(ids[0], loc)|;
      if n > RESP_SIZE then Kept(at, ids[1..], loc) else [ids[0]] + Kept(n, ids[1..], loc)
  }

  function Records(ids: seq<bv16>, loc: Location): seq<byte> {
    if ids == [] then [] else RecordOf(ids[0], loc) + Records(ids[1..], loc)
  }

  lemma {:induction false} PutAllRecords(b: seq<byte>, ids: seq<bv16>, loc: Location)
    ensures PutAll(b, ids, loc) == b + Records(Kept(|b|, ids, loc), loc)
    decreases |ids|
  {
    hide RecordOf;
    if ids == [] {
      assert b + [] == b;
    } else {
      var r := RecordOf(ids[0], loc);
      if |b| + |r| > RESP_SIZE {
        PutAllRecords(b, ids[1..], loc);
      } else {
        PutAllRecords(b + r, ids[1..], loc);
        var rest := Kept(|b + r|, ids[1..], loc);
        assert ([ids[0]] + rest)[1..] == rest;
        assert b + r + Records(rest, loc) == b + (r + Records(rest, loc));
      }
    }
  }

  // a can be had from b by leaving elements out.
  predicate Subsequence(a: seq<bv16>, b: seq<bv16>) {
    if a == [] then true
    else b != [] && (if a[0] == b[0] && Subsequence(a[1..], b[1..]) then true else Subsequence(a, b[1..]))
  }

  lemma {:induction false} KeptSubsequence(at: nat, ids: seq<bv16>, loc: Location)
    ensures Subsequence(Kept(at, ids, loc), ids)
    decreases |ids|
  {
    hide RecordOf;
    if ids != [] {
      KeptSubsequence(at, ids[1..], loc);
      var n := at + |RecordOf(ids[0], loc)|;
      KeptSubsequence(n, ids[1..], loc);
      var rest := Kept(n, ids[1..], loc);
      assert ([ids[0]] + rest)[1..] == rest;
    }
  }

  // ----- What the coordinator learns -----

  function Ascii(s: string): seq<byte>
    requires forall i :: 0 <= i < |s| ==> s[i] as int < 128
  {
    seq(|s|, i requires 0 <= i < |s| => (s[i] as int) as byte)
  }

  lemma AsciiAt(s: string, i: nat, b: byte)
    requires forall j :: 0 <= j < |s| ==> s[j] as int < 128
    requires i < |s| && s[i] as int == b as int
    ensures Ascii(s)[i] == b
  {
    NumberRoundTrip(s[i] as int);
    ByteOf(b);
  }

  lemma ByteOf(b: byte)
    ensures (b as int) as byte == b
  {
  }

  lemma MakerName()
    ensures Ascii("Linksys") == MANUFACTURER
  {
    var s := "Linksys";
    assert |s| == 7;
    AsciiAt(s, 0, 0x4C);
    AsciiAt(s, 1, 0x69);
    AsciiAt(s, 2, 0x6E);
    AsciiAt(s, 3, 0x6B);
    AsciiAt(s, 4, 0x73);
    AsciiAt(s, 5, 0x79);
    AsciiAt(s, 6, 0x73);
    hide Ascii;
  }

  lemma ModelName()
    ensures Ascii("WHW03V2") == MODEL
  {
    var s := "WHW03V2";
    assert |s| == 7;
    AsciiAt(s, 0, 0x57);
    AsciiAt(s, 1, 0x48);
    AsciiAt(s, 2, 0x57);
    AsciiAt(s, 3, 0x30);
    AsciiAt(s, 4, 0x33);
    AsciiAt(s, 5, 0x56);
    AsciiAt(s, 6, 0x32);
    hide Ascii;
  }

  lemma BuildName()
    ensures Ascii("ezsp-spi 0.1") == SW_BUILD
  {
    var s := "ezsp-spi 0.1";
    assert |s| == 12;
    AsciiAt(s, 0, 0x65);
    AsciiAt(s, 1, 0x7A);
    AsciiAt(s, 2, 0x73);
    AsciiAt(s, 3, 0x70);
    AsciiAt(s, 4, 0x2D);
    AsciiAt(s, 5, 0x73);
    AsciiAt(s, 6, 0x70);
    AsciiAt(s, 7, 0x69);
    AsciiAt(s, 8, 0x20);
    AsciiAt(s, 9, 0x30);
    AsciiAt(s, 10, 0x2E);
    AsciiAt(s, 11, 0x31);
    hide Ascii;
  }

  lemma Halves()
    ensures Low(0x0000) == 0x00 && High(0x0000) == 0x00 && Low(0x0001) == 0x01 && High(0x0001) == 0x00
    ensures Low(0x0002) == 0x02 && High(0x0002) == 0x00 && Low(0x0003) == 0x03 && High(0x0003) == 0x00
    ensures Low(0x0004) == 0x04 && High(0x0004) == 0x00 && Low(0x0005) == 0x05 && High(0x0005) == 0x00
    ensures Low(0x0007) == 0x07 && High(0x0007) == 0x00 && Low(0x0010) == 0x10 && High(0x0010) == 0x00
    ensures Low(0x4000) == 0x00 && High(0x4000) == 0x40
  {
  }

  // The interview of a Zigbee coordinator: the names by which it recognises the device, and
  // what it is told of its kind, in the records of the answer.
  lemma Interview(loc: Location)
    ensures RecordOf(0x0004, loc) == [0x04, 0x00, 0x00, 0x42, 7] + Ascii("Linksys")
    ensures RecordOf(0x0005, loc) == [0x05, 0x00, 0x00, 0x42, 7] + Ascii("WHW03V2")
    ensures RecordOf(0x4000, loc) == [0x00, 0x40, 0x00, 0x42, 12] + Ascii("ezsp-spi 0.1")
    ensures RecordOf(0x0010, loc) == [0x10, 0x00, 0x00, 0x42, |loc| as byte] + loc
    ensures RecordOf(0x0000, loc) == [0x00, 0x00, 0x00, 0x20, 3]
    ensures RecordOf(0x0001, loc) == [0x01, 0x00, 0x00, 0x20, 1]
    ensures RecordOf(0x0002, loc) == [0x02, 0x00, 0x00, 0x20, 0x58]
    ensures RecordOf(0x0003, loc) == [0x03, 0x00, 0x00, 0x20, 2]
    ensures RecordOf(0x0007, loc) == [0x07, 0x00, 0x00, 0x30, 1]
  {
    MakerName();
    ModelName();
    BuildName();
    Halves();
    hide Low, High, Ascii;
  }

  // Of any other attribute it is told that it is not supported.
  lemma InterviewRest(id: bv16, loc: Location)
    requires id !in {0x0000, 0x0001, 0x0002, 0x0003, 0x0004, 0x0005, 0x0007, 0x0010, 0x4000}
    ensures RecordOf(id, loc) == [Low(id), High(id), 0x86]
  {
    hide Low, High;
  }

  // ----- Reading the answer back -----

  datatype Rec = Rec(id: bv16, status: byte, ty: byte, value: seq<byte>)

  function Expected(id: bv16, loc: Location): Rec {
    match AttributeOf(id, loc)
    case Missing => Rec(id, UNSUPPORTED, 0, [])
    case Number(ty, val) => Rec(id, 0x00, ty, [val])
    case Text(s) => Rec(id, 0x00, 0x42, s)
  }

  function ExpectedAll(ids: seq<bv16>, loc: Location): seq<Rec> {
    if ids == [] then [] else [Expected(ids[0], loc)] + ExpectedAll(ids[1..], loc)
  }

  // The coordinator's reader: a record with a non-zero status ends there; a character string
  // carries its length, every other type here is one byte.
  function Parse(s: seq<byte>): Option<seq<Rec>>
    decreases |s|
  {
    if s == [] then Some([])
    else if |s| < 3 then None
    else if s[2] != 0x00 then With(Rec(Word(s[1], s[0]), s[2], 0, []), Parse(s[3..]))
    else if |s| < 5 then None
    else if s[3] != 0x42 then With(Rec(Word(s[1], s[0]), 0x00, s[3], [s[4]]), Parse(s[5..]))
    else
      var n := 5 + s[4] as int;
      if |s| < n then None else With(Rec(Word(s[1], s[0]), 0x00, 0x42, s[5..n]), Parse(s[n..]))
  }

  function With(r: Rec, rest: Option<seq<Rec>>): Option<seq<Rec>> {
    if rest.None? then None else Some([r] + rest.value)
  }

  lemma ParseRecord(id: bv16, loc: Location, rest: seq<byte>)
    ensures Parse(RecordOf(id, loc) + rest) == With(Expected(id, loc), Parse(rest))
  {
    var r := RecordOf(id, loc);
    var s := r + rest;
    WordParts(id, 0, 0);
    assert s[|r|..] == rest;
    hide Word, Low, High;
    match AttributeOf(id, loc) {
      case Missing =>
      case Number(ty, val) =>
        assert ty != 0x42;
      case Text(t) =>
        NumberRoundTrip(|t|);
        assert s[5..5 + |t|] == t;
    }
  }

  lemma {:induction false} ParseRecords(ids: seq<bv16>, loc: Location)
    ensures Parse(Records(ids, loc)) == Some(ExpectedAll(ids, loc))
    decreases |ids|
  {
    hide RecordOf, Parse, Expected;
    if ids == [] {
      ParseNothing();
    } else {
      ParseRecords(ids[1..], loc);
      ParseRecord(ids[0], loc, Records(ids[1..], loc));
    }
  }

  lemma ParseNothing()
    ensures Parse([]) == Some([])
  {
  }

  // The answer reads back as one correct record for each kept id, in the order requested.
  lemma AnswerReadsBack(sn: byte, ids: seq<bv16>, loc: Location)
    ensures var a := Response(sn, ids, loc);
            && 3 <= |a| <= RESP_SIZE && a[..3] == [0x18, sn, 0x01]
            && Parse(a[3..]) == Some(ExpectedAll(Kept(3, ids, loc), loc))
            && Subsequence(Kept(3, ids, loc), ids)
  {
    hide Parse, RecordOf;
    PutAllRecords([0x18, sn, 0x01], ids, loc);
    ParseRecords(Kept(3, ids, loc), loc);
    KeptSubsequence(3, ids, loc);
    KeptFits(3, ids, loc);
    assert Response(sn, ids, loc)[3..] == Records(Kept(3, ids, loc), loc);
  }

  lemma {:induction false} KeptFits(at: nat, ids: seq<bv16>, loc: Location)
    requires at <= RESP_SIZE
    ensures at + |Records(Kept(at, ids, loc), loc)| <= RESP_SIZE
    decreases |ids|
  {
    hide RecordOf;
    if ids != [] {
      var n := at + |RecordOf(ids[0], loc)|;
      if n > RESP_SIZE {
        KeptFits(at, ids[1..], loc);
      } else {
        KeptFits(n, ids[1..], loc);
        var rest := Kept(n, ids[1..], loc);
        assert ([ids[0]] + rest)[1..] == rest;
      }
    }
  }

  // ----- Completeness -----

  lemma RecordSize(id: bv16, loc: Location)
    requires |loc| <= 27
    ensures |RecordOf(id, loc)| <= 32
  {
  }

  // While the answer stays within 64 bytes, 32 more always fit in 96.
  lemma {:induction false} NothingDropped(at: nat, ids: seq<bv16>, loc: Location)
    requires |loc| <= 27
    requires at + |Records(Kept(at, ids, loc), loc)| <= SEND_MAX
    ensures Kept(at, ids, loc) == ids
    decreases |ids|
  {
    hide RecordOf;
    if ids != [] {
      RecordSize(ids[0], loc);
      var n := at + |RecordOf(ids[0], loc)|;
      var rest := Kept(n, ids[1..], loc);
      assert ([ids[0]] + rest)[1..] == rest;
      NothingDropped(n, ids[1..], loc);
    }
  }

  // An answer that is sent is complete, whatever was asked.
  ghost predicate SentMeansComplete(loc: Location) {
    forall sn: byte, ids: seq<bv16> :: |Response(sn, ids, loc)| <= SEND_MAX ==> Kept(3, ids, loc) == ids
  }

  // A request that fills 64 bytes exactly and then asks for the location.
  const BUSY: seq<bv16> := [0x0000, 0x0001, 0x4000, 0x4000, 0x4000, 0x0010]

  lemma LongLocationDropped(loc: Location)
    requires |loc| >= 28
    ensures Kept(3, BUSY, loc) == BUSY[..5] && |Response(0, BUSY, loc)| == SEND_MAX
  {
    PutAllRecords([0x18, 0, 0x01], BUSY, loc);
  }

  // Whoever is answered is answered in full if and only if the host name is at most 27 bytes.
  lemma CompleteIffShortName(loc: Location)
    ensures SentMeansComplete(loc) <==> |loc| <= 27
  {
    if |loc| <= 27 {
      forall sn: byte, ids: seq<bv16> | |Response(sn, ids, loc)| <= SEND_MAX
        ensures Kept(3, ids, loc) == ids
      {
        PutAllRecords([0x18, sn, 0x01], ids, loc);
        NothingDropped(3, ids, loc);
      }
    } else {
      LongLocationDropped(loc);
    }
  }
}
