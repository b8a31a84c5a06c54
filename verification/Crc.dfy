// CRC-16/CCITT-FALSE as ash_crc computes it, and what it detects.

module Crc {
  import opened Bytes

  // One bit of the shift register: polynomial 0x1021, most significant bit first.
  function ShiftBit(c: bv16): bv16 {
    if c & 0x8000 != 0 then (c << 1) ^ 0x1021 else c << 1
  }

  function ShiftBits(c: bv16, n: nat): bv16 {
    if n == 0 then c else ShiftBit(ShiftBits(c, n - 1))
  }

  // Addition of two registers over GF(2).
  function Plus(a: bv16, b: bv16): bv16 {
    a ^ b
  }

  // The register with byte d added to its high half.
  function Mix(c: bv16, d: byte): bv16 {
    Plus(c, (d as bv16) << 8)
  }

  function CrcFrom(c: bv16, s: seq<byte>): bv16
    decreases |s|
  {
    if s == [] then c else CrcFrom(ShiftBits(Mix(c, s[0]), 8), s[1..])
  }

  function Crc(s: seq<byte>): bv16 {
    CrcFrom(0xFFFF, s)
  }

  function High(c: bv16): byte { (c >> 8) as byte }

  function Low(c: bv16): byte { (c & 0xFF) as byte }

  function Word(h: byte, l: byte): bv16 { ((h as bv16) << 8) | (l as bv16) }

  // A frame body with its CRC, high byte first.
  function Seal(body: seq<byte>): (r: seq<byte>)
    ensures |r| == |body| + 2
  {
    body + [High(Crc(body)), Low(Crc(body))]
  }

  // The check made at a FLAG: at least three bytes, and the last two are the CRC of the rest.
  predicate Intact(s: seq<byte>) {
    |s| >= 3 && Crc(s[..|s| - 2]) == Word(s[|s| - 2], s[|s| - 1])
  }

  method AshCrc(d: seq<byte>) returns (crc: bv16)
    ensures crc == Crc(d)
  {
    crc := 0xFFFF;
    var i := 0;
    while i < |d|
      invariant 0 <= i <= |d|
      invariant CrcFrom(crc, d[i..]) == Crc(d)
    {
      ghost var mixed := Mix(crc, d[i]);
      crc := crc ^ ((d[i] as bv16) << 8);
      var b := 0;
      while b < 8
        invariant 0 <= b <= 8
        invariant crc == ShiftBits(mixed, b)
      {
        crc := ShiftBit(crc);
        b := b + 1;
      }
      assert d[i..][1..] == d[i + 1..];
      i := i + 1;
    }
  }

  // ----- The bit step, the byte step and the fold are linear and injective -----

  lemma TopBit(a: bv16)
    ensures a & 0x8000 == 0 || a & 0x8000 == 0x8000
  {
  }

  lemma XorShifted(a: bv16, b: bv16)
    ensures (a ^ b) << 1 == (a << 1) ^ (b << 1)
    ensures (a ^ b) & 0x8000 == (a & 0x8000) ^ (b & 0x8000)
  {
  }

  lemma XorRegroups(a: bv16, b: bv16, k: bv16)
    ensures (a ^ k) ^ b == (a ^ b) ^ k
    ensures a ^ (b ^ k) == (a ^ b) ^ k
    ensures (a ^ k) ^ (b ^ k) == a ^ b
  {
  }

  lemma ShiftedOut(a: bv16, b: bv16)
    requires a << 1 == b << 1 && a & 0x8000 == b & 0x8000
    ensures a == b
  {
  }

  lemma ShiftBitLinear(a: bv16, b: bv16)
    ensures ShiftBit(Plus(a, b)) == Plus(ShiftBit(a), ShiftBit(b))
  {
    XorShifted(a, b);
    TopBit(a);
    TopBit(b);
    XorRegroups(a << 1, b << 1, 0x1021);
  }

  // The polynomial is odd, so the bit shifted out can be read back at the bottom.
  lemma OddAfterTop(a: bv16)
    ensures (a << 1) & 1 == 0 && ((a << 1) ^ 0x1021) & 1 == 1
    ensures ((a << 1) ^ 0x1021) ^ 0x1021 == a << 1
  {
  }

  lemma ShiftBitInjective(a: bv16, b: bv16)
    requires ShiftBit(a) == ShiftBit(b)
    ensures a == b
  {
    TopBit(a);
    TopBit(b);
    OddAfterTop(a);
    OddAfterTop(b);
    ShiftedOut(a, b);
  }

  lemma {:induction false} ShiftBitsLinear(a: bv16, b: bv16, n: nat)
    ensures ShiftBits(Plus(a, b), n) == Plus(ShiftBits(a, n), ShiftBits(b, n))
  {
    hide ShiftBit, Plus;
    if n > 0 {
      ShiftBitsLinear(a, b, n - 1);
      ShiftBitLinear(ShiftBits(a, n - 1), ShiftBits(b, n - 1));
    }
  }

  lemma {:induction false} ShiftBitsInjective(a: bv16, b: bv16, n: nat)
    requires ShiftBits(a, n) == ShiftBits(b, n)
    ensures a == b
  {
    if n > 0 {
      ShiftBitInjective(ShiftBits(a, n - 1), ShiftBits(b, n - 1));
      ShiftBitsInjective(a, b, n - 1);
    }
  }

  // While the top bit stays clear the register only shifts left.
  lemma LowByteShifts(x: byte)
    ensures ShiftBits(x as bv16, 8) == (x as bv16) << 8
  {
    var w := x as bv16;
    assert w & 0xFF00 == 0;
    assert ShiftBits(w, 1) == w << 1;
    assert ShiftBits(w, 2) == w << 2;
    assert ShiftBits(w, 3) == w << 3;
    assert ShiftBits(w, 4) == w << 4;
    assert ShiftBits(w, 5) == w << 5;
    assert ShiftBits(w, 6) == w << 6;
    assert ShiftBits(w, 7) == w << 7;
  }

  lemma {:induction false} CrcFromAppend(c: bv16, s: seq<byte>, t: seq<byte>)
    ensures CrcFrom(c, s + t) == CrcFrom(CrcFrom(c, s), t)
    decreases |s|
  {
    if s == [] {
      assert s + t == t;
    } else {
      assert (s + t)[1..] == s[1..] + t;
      CrcFromAppend(ShiftBits(Mix(c, s[0]), 8), s[1..], t);
    }
  }

  lemma PlusCancels(a: bv16, b: bv16, k: bv16)
    requires Plus(a, k) == Plus(b, k)
    ensures a == b
  {
    Cancels(a, k);
    Cancels(b, k);
    hide Plus;
  }

  lemma Cancels(a: bv16, k: bv16)
    ensures Plus(Plus(a, k), k) == a
  {
  }

  lemma MixInjective(c: bv16, c': bv16, d: byte)
    requires Mix(c, d) == Mix(c', d)
    ensures c == c'
  {
    hide Plus;
    PlusCancels(c, c', (d as bv16) << 8);
  }

  lemma {:induction false} CrcFromInjective(c: bv16, c': bv16, s: seq<byte>)
    requires CrcFrom(c, s) == CrcFrom(c', s)
    ensures c == c'
    decreases |s|
  {
    if s != [] {
      CrcFromInjective(ShiftBits(Mix(c, s[0]), 8), ShiftBits(Mix(c', s[0]), 8), s[1..]);
      ShiftBitsInjective(Mix(c, s[0]), Mix(c', s[0]), 8);
      MixInjective(c, c', s[0]);
    }
  }

  lemma CrcFromPair(c: bv16, h: byte, l: byte)
    ensures CrcFrom(c, [h, l]) == ShiftBits(Mix(ShiftBits(Mix(c, h), 8), l), 8)
  {
    var s := [h, l];
    assert s[1..] == [l] && [l][1..] == [];
    assert CrcFrom(c, s) == CrcFrom(ShiftBits(Mix(c, h), 8), [l]);
  }

  lemma MixDifference(c: bv16, c': bv16, d: byte, d': byte)
    ensures Mix(c, d) == Mix(c', d') ==> Plus(c, c') == ((d ^ d') as bv16) << 8
    ensures Plus(Mix(c, d), Mix(c, d')) == ((d ^ d') as bv16) << 8
  {
  }

  lemma DisjointHalves(d: byte, e: byte)
    requires (d as bv16) << 8 == e as bv16
    ensures d == 0 && e == 0
  {
  }

  lemma XorZero(d: byte, e: byte)
    requires d ^ e == 0
    ensures d == e
  {
  }

  // Two bytes feed sixteen bits into a sixteen bit register: no pair is lost.
  lemma PairInjective(c: bv16, h: byte, l: byte, h': byte, l': byte)
    requires CrcFrom(c, [h, l]) == CrcFrom(c, [h', l'])
    ensures h == h' && l == l'
  {
    hide *;
    CrcFromPair(c, h, l);
    CrcFromPair(c, h', l');
    var p, p' := ShiftBits(Mix(c, h), 8), ShiftBits(Mix(c, h'), 8);
    ShiftBitsInjective(Mix(p, l), Mix(p', l'), 8);
    MixDifference(p, p', l, l');
    MixDifference(c, c, h, h');
    ShiftBitsLinear(Mix(c, h), Mix(c, h'), 8);
    LowByteShifts(l ^ l');
    ShiftBitsInjective(Plus(Mix(c, h), Mix(c, h')), (l ^ l') as bv16, 8);
    DisjointHalves(h ^ h', l ^ l');
    XorZero(h, h');
    XorZero(l, l');
  }

  lemma {:induction false} ShiftZero(n: nat)
    ensures ShiftBits(0, n) == 0
  {
    if n > 0 {
      ShiftZero(n - 1);
    }
  }

  lemma WordParts(c: bv16, h: byte, l: byte)
    ensures Word(High(c), Low(c)) == c
    ensures High(Word(h, l)) == h && Low(Word(h, l)) == l
    ensures Mix(Word(h, l), h) == l as bv16
    ensures Mix((l as bv16) << 8, l) == 0
  {
  }

  lemma PairClears(h: byte, l: byte)
    ensures CrcFrom(Word(h, l), [h, l]) == 0
  {
    CrcFromPair(Word(h, l), h, l);
    WordParts(0, h, l);
    LowByteShifts(l);
    ShiftZero(8);
  }

  // The register is cleared by exactly one pair: its own two halves, high first.
  lemma ResidueOfPair(c: bv16, h: byte, l: byte)
    ensures CrcFrom(c, [h, l]) == 0 <==> c == Word(h, l)
  {
    PairClears(h, l);
    PairClears(High(c), Low(c));
    WordParts(c, h, l);
    if CrcFrom(c, [h, l]) == 0 {
      PairInjective(c, h, l, High(c), Low(c));
    }
  }

  // The FLAG check in one number: a buffer is intact iff its own CRC is zero.
  lemma IntactIffZero(s: seq<byte>)
    ensures Intact(s) <==> |s| >= 3 && Crc(s) == 0
  {
    if |s| >= 3 {
      var n := |s| - 2;
      assert s == s[..n] + [s[n], s[n + 1]];
      CrcFromAppend(0xFFFF, s[..n], [s[n], s[n + 1]]);
      ResidueOfPair(Crc(s[..n]), s[n], s[n + 1]);
    }
  }

  lemma IntactFold(s: seq<byte>)
    ensures Intact(s) <==> |s| >= 3 && CrcFrom(0xFFFF, s) == 0
  {
    IntactIffZero(s);
    hide Intact, CrcFrom;
  }

  lemma SealIntact(body: seq<byte>)
    requires body != []
    ensures Intact(Seal(body)) && Seal(body)[..|body|] == body
  {
    WordParts(Crc(body), 0, 0);
    assert Seal(body)[..|body|] == body;
  }

  lemma PairThenRest(c: bv16, h: byte, l: byte, h': byte, l': byte, z: seq<byte>)
    requires CrcFrom(c, [h, l] + z) == CrcFrom(c, [h', l'] + z)
    ensures h == h' && l == l'
  {
    CrcFromAppend(c, [h, l], z);
    CrcFromAppend(c, [h', l'], z);
    CrcFromInjective(CrcFrom(c, [h, l]), CrcFrom(c, [h', l']), z);
    PairInjective(c, h, l, h', l');
  }

  // Any change confined to one byte, or to two adjacent bytes, of the body and its CRC is
  // rejected; the pair may straddle the boundary between the two.
  lemma AdjacentChangeRejected(s: seq<byte>, t: seq<byte>, k: nat)
    requires Intact(s) && |t| == |s| && k + 2 <= |s|
    requires forall i :: 0 <= i < |s| && i != k && i != k + 1 ==> t[i] == s[i]
    ensures Intact(t) ==> t == s
  {
    hide *;
    if Intact(t) {
      IntactFold(s);
      IntactFold(t);
      var a, z := s[..k], s[k + 2..];
      var p, q := [s[k], s[k + 1]] + z, [t[k], t[k + 1]] + z;
      assert s == a + p;
      assert t == a + q;
      CrcFromAppend(0xFFFF, a, p);
      CrcFromAppend(0xFFFF, a, q);
      PairThenRest(CrcFrom(0xFFFF, a), s[k], s[k + 1], t[k], t[k + 1], z);
    }
  }

  // ----- Bursts: any change within 16 consecutive bits -----

  // The bits of a byte, and of a byte string, most significant first.
  function BitMask(r: nat): byte
    requires r < 8
  {
    if r == 0 then 0x80 else if r == 1 then 0x40 else if r == 2 then 0x20 else if r == 3 then 0x10
    else if r == 4 then 0x08 else if r == 5 then 0x04 else if r == 6 then 0x02 else 0x01
  }

  predicate BitOf(d: byte, r: nat)
    requires r < 8
  {
    d & BitMask(r) != 0
  }

  predicate Bit(s: seq<byte>, i: nat)
    requires i < 8 * |s|
  {
    BitOf(s[i / 8], i % 8)
  }

  // The first r bits of a byte, and the others.
  function Lead(r: nat): byte
    requires r < 8
  {
    if r == 0 then 0x00 else if r == 1 then 0x80 else if r == 2 then 0xC0 else if r == 3 then 0xE0
    else if r == 4 then 0xF0 else if r == 5 then 0xF8 else if r == 6 then 0xFC else 0xFE
  }

  lemma {:induction false} LeadAgrees(x: byte, y: byte, r: nat)
    requires r < 8 && forall j :: 0 <= j < r ==> BitOf(x, j) == BitOf(y, j)
    ensures (x ^ y) & Lead(r) == 0
  {
    if r > 0 {
      LeadAgrees(x, y, r - 1);
      assert BitOf(x, r - 1) == BitOf(y, r - 1);
    }
  }

  lemma {:induction false} RestAgrees(x: byte, y: byte, r: nat)
    requires r < 8 && forall j :: r <= j < 8 ==> BitOf(x, j) == BitOf(y, j)
    ensures (x ^ y) & !Lead(r) == 0
    decreases 8 - r
  {
    assert BitOf(x, r) == BitOf(y, r);
    if r < 7 {
      RestAgrees(x, y, r + 1);
    }
  }

  function Shl(c: bv16, n: nat): bv16 {
    if n == 0 then c else Shl(c, n - 1) << 1
  }

  // The first n bits of the register are clear.
  predicate Clear(c: bv16, n: nat) {
    n == 0 || (Clear(c, n - 1) && Shl(c, n - 1) & 0x8000 == 0)
  }

  // While the bits that leave it are clear the register only shifts left.
  lemma {:induction false} ClearShifts(c: bv16, n: nat)
    requires Clear(c, n)
    ensures ShiftBits(c, n) == Shl(c, n)
  {
    if n > 0 {
      ClearShifts(c, n - 1);
    }
  }

  lemma {:induction false} ShiftBitsAdd(c: bv16, m: nat, n: nat)
    ensures ShiftBits(ShiftBits(c, m), n) == ShiftBits(c, m + n)
    decreases n
  {
    hide ShiftBit;
    if n > 0 {
      ShiftBitsAdd(c, m, n - 1);
    }
  }

  // Eight steps of w make the byte d only if r steps make what d is left-shifted from.
  lemma WindowMeets(w: bv16, d: byte, v: bv16, r: nat)
    requires r <= 8 && Clear(w, r) && Clear(v, 8 - r)
    requires Shl(v, 8 - r) == d as bv16 && ShiftBits(w, 8) == d as bv16
    ensures Shl(w, r) == v
  {
    hide ShiftBits, Shl, Clear;
    ClearShifts(w, r);
    ClearShifts(v, 8 - r);
    ShiftBitsAdd(w, r, 8 - r);
    ShiftBitsInjective(ShiftBits(w, r), v, 8 - r);
  }

  // What a byte with its last 8 - r bits clear is left-shifted from.
  function Head(d: byte, r: nat): bv16
    requires 1 <= r < 8
  {
    if r == 1 then (d as bv16) >> 7 else if r == 2 then (d as bv16) >> 6 else if r == 3 then (d as bv16) >> 5
    else if r == 4 then (d as bv16) >> 4 else if r == 5 then (d as bv16) >> 3 else if r == 6 then (d as bv16) >> 2
    else (d as bv16) >> 1
  }

  // One place further to the left.
  function Left(c: bv16): bv16 { c << 1 }

  lemma ShlTable(c: bv16)
    ensures Shl(c, 1) == c << 1 && Shl(c, 2) == c << 2 && Shl(c, 3) == c << 3 && Shl(c, 4) == c << 4
    ensures Shl(c, 5) == c << 5 && Shl(c, 6) == c << 6 && Shl(c, 7) == c << 7
  {
    LeftTable(c);
    ShlIsLeft(c);
    hide Shl, Left;
  }

  lemma LeftTable(c: bv16)
    ensures Left(c) == c << 1 && Left(c << 1) == c << 2 && Left(c << 2) == c << 3 && Left(c << 3) == c << 4
    ensures Left(c << 4) == c << 5 && Left(c << 5) == c << 6 && Left(c << 6) == c << 7
  {
  }

  lemma ShlIsLeft(c: bv16)
    ensures Shl(c, 1) == Left(c) && Shl(c, 2) == Left(Shl(c, 1)) && Shl(c, 3) == Left(Shl(c, 2))
    ensures Shl(c, 4) == Left(Shl(c, 3)) && Shl(c, 5) == Left(Shl(c, 4)) && Shl(c, 6) == Left(Shl(c, 5))
    ensures Shl(c, 7) == Left(Shl(c, 6))
  {
    hide Shl, Left;
    ShlOn(c, 0);
    ShlOn(c, 1);
    ShlOn(c, 2);
    ShlOn(c, 3);
    ShlOn(c, 4);
    ShlOn(c, 5);
    ShlOn(c, 6);
  }

  lemma ShlOn(c: bv16, n: nat)
    ensures Shl(c, 0) == c && Shl(c, n + 1) == Left(Shl(c, n))
  {
  }

  // The first bits of the register, and of those that are left after n steps.
  lemma ClearTable(c: bv16)
    ensures c & 0x8000 == 0 ==> Clear(c, 1)
    ensures c & 0xC000 == 0 ==> Clear(c, 2)
    ensures c & 0xE000 == 0 ==> Clear(c, 3)
    ensures c & 0xF000 == 0 ==> Clear(c, 4)
    ensures c & 0xF800 == 0 ==> Clear(c, 5)
    ensures c & 0xFC00 == 0 ==> Clear(c, 6)
    ensures c & 0xFE00 == 0 ==> Clear(c, 7)
  {
    ShlTable(c);
    MasksNest(c);
    hide Shl;
    assert Clear(c, 0);
    assert c & 0x8000 == 0 ==> Clear(c, 1) by { ShlNone(c); }
    assert c & 0xC000 == 0 ==> Clear(c, 2);
    assert c & 0xE000 == 0 ==> Clear(c, 3);
    assert c & 0xF000 == 0 ==> Clear(c, 4);
    assert c & 0xF800 == 0 ==> Clear(c, 5);
    assert c & 0xFC00 == 0 ==> Clear(c, 6);
    assert c & 0xFE00 == 0 ==> Clear(c, 7);
  }

  lemma ShlNone(c: bv16)
    ensures Shl(c, 0) == c
  {
  }

  lemma MasksNest(c: bv16)
    ensures c & 0xC000 == 0 ==> c & 0x8000 == 0 && (c << 1) & 0x8000 == 0
    ensures c & 0xE000 == 0 ==> c & 0xC000 == 0 && (c << 2) & 0x8000 == 0
    ensures c & 0xF000 == 0 ==> c & 0xE000 == 0 && (c << 3) & 0x8000 == 0
    ensures c & 0xF800 == 0 ==> c & 0xF000 == 0 && (c << 4) & 0x8000 == 0
    ensures c & 0xFC00 == 0 ==> c & 0xF800 == 0 && (c << 5) & 0x8000 == 0
    ensures c & 0xFE00 == 0 ==> c & 0xFC00 == 0 && (c << 6) & 0x8000 == 0
  {
  }

  // What w and v look like for each place a window can start at.
  lemma WindowBits(w: bv16, d: byte, r: nat)
    requires 1 <= r < 8 && (w >> 8) & (Lead(r) as bv16) == 0 && d & !Lead(r) == 0
    ensures var v := Head(d, r);
            && (r == 1 ==> w & 0x8000 == 0 && v & 0xFE00 == 0 && v << 7 == d as bv16)
            && (r == 2 ==> w & 0xC000 == 0 && v & 0xFC00 == 0 && v << 6 == d as bv16)
            && (r == 3 ==> w & 0xE000 == 0 && v & 0xF800 == 0 && v << 5 == d as bv16)
            && (r == 4 ==> w & 0xF000 == 0 && v & 0xF000 == 0 && v << 4 == d as bv16)
            && (r == 5 ==> w & 0xF800 == 0 && v & 0xE000 == 0 && v << 3 == d as bv16)
            && (r == 6 ==> w & 0xFC00 == 0 && v & 0xC000 == 0 && v << 2 == d as bv16)
            && (r == 7 ==> w & 0xFE00 == 0 && v & 0x8000 == 0 && v << 1 == d as bv16)
    ensures var v := Head(d, r);
            && (r == 1 && w << 1 == v ==> w == 0 && d == 0)
            && (r == 2 && w << 2 == v ==> w == 0 && d == 0)
            && (r == 3 && w << 3 == v ==> w == 0 && d == 0)
            && (r == 4 && w << 4 == v ==> w == 0 && d == 0)
            && (r == 5 && w << 5 == v ==> w == 0 && d == 0)
            && (r == 6 && w << 6 == v ==> w == 0 && d == 0)
            && (r == 7 && w << 7 == v ==> w == 0 && d == 0)
  {
  }

  // Where a window of 16 bits starts r bits into the first of three bytes.
  lemma WindowShape(w: bv16, d: byte, r: nat)
    requires 1 <= r < 8 && (w >> 8) & (Lead(r) as bv16) == 0 && d & !Lead(r) == 0
    ensures Clear(w, r) && Clear(Head(d, r), 8 - r) && Shl(Head(d, r), 8 - r) == d as bv16
    ensures Shl(w, r) == Head(d, r) ==> w == 0 && d == 0
  {
    hide Clear, Shl, Head, Lead;
    WindowBits(w, d, r);
    ClearTable(w);
    ClearTable(Head(d, r));
    ShlTable(w);
    ShlTable(Head(d, r));
  }

  lemma ByteSums(d: byte, d': byte)
    ensures ((d ^ d') as bv16) << 8 == Plus((d as bv16) << 8, (d' as bv16) << 8)
  {
  }

  lemma PlusRegroups(a: bv16, b: bv16, k: bv16, l: bv16)
    ensures Plus(Plus(a, k), Plus(b, l)) == Plus(Plus(a, b), Plus(k, l))
  {
    hide Plus;
    PlusSwaps(a, k, Plus(b, l));
    PlusSwaps(a, b, l);
    PlusSwaps(Plus(a, b), l, k);
    PlusSwaps(l, k, a);
  }

  lemma PlusSwaps(a: bv16, k: bv16, b: bv16)
    ensures Plus(Plus(a, k), b) == Plus(Plus(a, b), k) == Plus(Plus(b, a), k)
    ensures Plus(a, Plus(k, b)) == Plus(Plus(a, k), b) && Plus(a, k) == Plus(k, a)
  {
    XorRegroups(a, b, k);
    XorRegroups(a, k, b);
  }

  lemma MixBoth(c: bv16, c': bv16, d: byte, d': byte)
    ensures Plus(Mix(c, d), Mix(c', d')) == Plus(Plus(c, c'), ((d ^ d') as bv16) << 8)
  {
    hide Plus;
    ByteSums(d, d');
    PlusRegroups(c, c', (d as bv16) << 8, (d' as bv16) << 8);
  }

  lemma WordIsPlus(h: byte, l: byte)
    ensures Word(h, l) == Plus((h as bv16) << 8, l as bv16)
  {
  }

  // How far apart the register is after two bytes.
  lemma PairDifference(c: bv16, h: byte, l: byte, h': byte, l': byte)
    ensures Plus(CrcFrom(c, [h, l]), CrcFrom(c, [h', l'])) == ShiftBits(ShiftBits(Word(h ^ h', l ^ l'), 8), 8)
  {
    hide *;
    CrcFromPair(c, h, l);
    CrcFromPair(c, h', l');
    var p, p' := ShiftBits(Mix(c, h), 8), ShiftBits(Mix(c, h'), 8);
    ShiftBitsLinear(Mix(p, l), Mix(p', l'), 8);
    MixBoth(p, p', l, l');
    ShiftBitsLinear(Mix(c, h), Mix(c, h'), 8);
    MixDifference(c, c, h, h');
    var d, e := h ^ h', l ^ l';
    LowByteShifts(e);
    ShiftBitsLinear((d as bv16) << 8, e as bv16, 8);
    WordIsPlus(d, e);
  }

  // If three bytes lead to one register, the differences of the first two make that of the third.
  lemma TripleDifference(c: bv16, h: byte, m: byte, l: byte, h': byte, m': byte, l': byte)
    requires CrcFrom(c, [h, m, l]) == CrcFrom(c, [h', m', l'])
    ensures ShiftBits(Word(h ^ h', m ^ m'), 8) == (l ^ l') as bv16
  {
    hide *;
    CrcFromTriple(c, h, m, l);
    CrcFromTriple(c, h', m', l');
    var q, q' := CrcFrom(c, [h, m]), CrcFrom(c, [h', m']);
    ShiftBitsInjective(Mix(q, l), Mix(q', l'), 8);
    MixDifference(q, q', l, l');
    PairDifference(c, h, m, h', m');
    LowByteShifts(l ^ l');
    ShiftBitsInjective(ShiftBits(Word(h ^ h', m ^ m'), 8), (l ^ l') as bv16, 8);
  }

  lemma CrcFromTriple(c: bv16, h: byte, m: byte, l: byte)
    ensures CrcFrom(c, [h, m, l]) == ShiftBits(Mix(CrcFrom(c, [h, m]), l), 8)
  {
    hide Mix, ShiftBits;
    assert [h, m, l] == [h, m] + [l];
    CrcFromAppend(c, [h, m], [l]);
    assert [l][1..] == [];
  }

  lemma WordApart(d: byte, e: byte)
    ensures Word(d, e) == 0 ==> d == 0 && e == 0
    ensures Word(d, e) >> 8 == d as bv16
  {
  }

  lemma LeadWide(d: byte, r: nat)
    requires r < 8 && d & Lead(r) == 0
    ensures (d as bv16) & (Lead(r) as bv16) == 0
  {
  }

  lemma WindowZero(d: byte, e: byte, f: byte, r: nat)
    requires 1 <= r < 8 && d & Lead(r) == 0 && f & !Lead(r) == 0
    requires ShiftBits(Word(d, e), 8) == f as bv16
    ensures d == 0 && e == 0 && f == 0
  {
    hide ShiftBits, Word, Lead, Clear, Shl, Head;
    WordApart(d, e);
    LeadWide(d, r);
    WindowShape(Word(d, e), f, r);
    WindowMeets(Word(d, e), f, Head(f, r), r);
  }

  // Three bytes that differ only in a window of 16 bits leave different registers.
  lemma WindowInjective(c: bv16, h: byte, m: byte, l: byte, h': byte, m': byte, l': byte, r: nat)
    requires CrcFrom(c, [h, m, l]) == CrcFrom(c, [h', m', l'])
    requires 1 <= r < 8 && (h ^ h') & Lead(r) == 0 && (l ^ l') & !Lead(r) == 0
    ensures h == h' && m == m' && l == l'
  {
    hide *;
    TripleDifference(c, h, m, l, h', m', l');
    WindowZero(h ^ h', m ^ m', l ^ l', r);
    XorZero(h, h');
    XorZero(m, m');
    XorZero(l, l');
  }

  lemma BitAt(s: seq<byte>, k: nat, j: nat)
    requires k < |s| && j < 8
    ensures 8 * k + j < 8 * |s| && Bit(s, 8 * k + j) == BitOf(s[k], j)
  {
    assert (8 * k + j) / 8 == k && (8 * k + j) % 8 == j;
  }

  // Two strings that differ at most in the 16 bits from bit b on.
  ghost predicate DifferWithin(s: seq<byte>, t: seq<byte>, b: nat)
    requires |s| == |t|
  {
    forall i :: 0 <= i < 8 * |s| && !(b <= i < b + 16) ==> Bit(t, i) == Bit(s, i)
  }

  lemma ByteAgrees(s: seq<byte>, t: seq<byte>, b: nat, k: nat)
    requires |s| == |t| && k < |s| && DifferWithin(s, t, b)
    requires 8 * k + 8 <= b || b + 16 <= 8 * k
    ensures s[k] == t[k]
  {
    hide BitOf, Bit;
    forall j | 0 <= j < 8
      ensures BitOf(s[k], j) == BitOf(t[k], j)
    {
      BitAt(s, k, j);
      BitAt(t, k, j);
    }
    RestAgrees(s[k], t[k], 0);
    assert Lead(0) == 0;
    XorZero(s[k], t[k]);
  }

  // The two bytes that a window covers in part.
  lemma EdgesAgree(s: seq<byte>, t: seq<byte>, k: nat, r: nat)
    requires |s| == |t| && k + 2 < |s| && 1 <= r < 8 && DifferWithin(s, t, 8 * k + r)
    ensures (s[k] ^ t[k]) & Lead(r) == 0 && (s[k + 2] ^ t[k + 2]) & !Lead(r) == 0
  {
    hide BitOf, Bit, Lead;
    forall j | 0 <= j < 8
      ensures j < r ==> BitOf(s[k], j) == BitOf(t[k], j)
      ensures r <= j ==> BitOf(s[k + 2], j) == BitOf(t[k + 2], j)
    {
      BitAt(s, k, j);
      BitAt(t, k, j);
      BitAt(s, k + 2, j);
      BitAt(t, k + 2, j);
    }
    LeadAgrees(s[k], t[k], r);
    RestAgrees(s[k + 2], t[k + 2], r);
  }

  // Any change confined to 16 consecutive bits of the body and its CRC, wherever they start, is
  // rejected, for every length.
  lemma BurstRejected(s: seq<byte>, t: seq<byte>, b: nat)
    requires Intact(s) && |t| == |s| && b + 16 <= 8 * |s|
    requires DifferWithin(s, t, b)
    ensures Intact(t) ==> t == s
  {
    if Intact(t) {
      hide Intact, CrcFrom, DifferWithin, Lead;
      var k, r := b / 8, b % 8;
      forall i | 0 <= i < |s| && (i < k || i >= k + 3 || (r == 0 && i == k + 2))
        ensures t[i] == s[i]
      {
        ByteAgrees(s, t, b, i);
      }
      if r == 0 {
        AdjacentChangeRejected(s, t, k);
      } else {
        EdgesAgree(s, t, k, r);
        TripleRejected(s, t, k, r);
      }
    }
  }

  lemma TripleThenRest(c: bv16, h: byte, m: byte, l: byte, h': byte, m': byte, l': byte, z: seq<byte>, r: nat)
    requires CrcFrom(c, [h, m, l] + z) == CrcFrom(c, [h', m', l'] + z)
    requires 1 <= r < 8 && (h ^ h') & Lead(r) == 0 && (l ^ l') & !Lead(r) == 0
    ensures h == h' && m == m' && l == l'
  {
    hide *;
    CrcFromAppend(c, [h, m, l], z);
    CrcFromAppend(c, [h', m', l'], z);
    CrcFromInjective(CrcFrom(c, [h, m, l]), CrcFrom(c, [h', m', l']), z);
    WindowInjective(c, h, m, l, h', m', l', r);
  }

  lemma SplitThree<T>(s: seq<T>, k: nat)
    requires k + 2 < |s|
    ensures s == s[..k] + ([s[k], s[k + 1], s[k + 2]] + s[k + 3..])
  {
  }

  lemma SameAround<T>(s: seq<T>, t: seq<T>, k: nat)
    requires |t| == |s| && k + 2 < |s|
    requires forall i :: 0 <= i < |s| && (i < k || i >= k + 3) ==> t[i] == s[i]
    ensures t[..k] == s[..k] && t[k + 3..] == s[k + 3..]
  {
  }

  lemma TripleRejected(s: seq<byte>, t: seq<byte>, k: nat, r: nat)
    requires Intact(s) && Intact(t) && |t| == |s| && k + 2 < |s| && 1 <= r < 8
    requires forall i :: 0 <= i < |s| && (i < k || i >= k + 3) ==> t[i] == s[i]
    requires (s[k] ^ t[k]) & Lead(r) == 0 && (s[k + 2] ^ t[k + 2]) & !Lead(r) == 0
    ensures t == s
  {
    hide *;
    IntactFold(s);
    IntactFold(t);
    var a, z := s[..k], s[k + 3..];
    SplitThree(s, k);
    SplitThree(t, k);
    SameAround(s, t, k);
    CrcFromAppend(0xFFFF, a, [s[k], s[k + 1], s[k + 2]] + z);
    CrcFromAppend(0xFFFF, a, [t[k], t[k + 1], t[k + 2]] + z);
    TripleThenRest(CrcFrom(0xFFFF, a), s[k], s[k + 1], s[k + 2], t[k], t[k + 1], t[k + 2], z, r);
  }

  // ----- Odd errors: the polynomial has an even number of terms -----

  function Has(c: bv16, m: bv16): nat { if c & m != 0 then 1 else 0 }

  function OnesLow(c: bv16): nat {
    Has(c, 0x1) + Has(c, 0x2) + Has(c, 0x4) + Has(c, 0x8) + Has(c, 0x10) + Has(c, 0x20) + Has(c, 0x40) + Has(c, 0x80)
  }

  function OnesHigh(c: bv16): nat {
    Has(c, 0x100) + Has(c, 0x200) + Has(c, 0x400) + Has(c, 0x800) +
    Has(c, 0x1000) + Has(c, 0x2000) + Has(c, 0x4000) + Has(c, 0x8000)
  }

  function Ones(c: bv16): nat {
    OnesLow(c) + OnesHigh(c)
  }

  // How many bits differ between two byte strings of one length.
  function Flipped(s: seq<byte>, t: seq<byte>): nat
    requires |s| == |t|
  {
    if s == [] then 0 else Ones((s[0] ^ t[0]) as bv16) + Flipped(s[1..], t[1..])
  }

  function Both(a: bv16, b: bv16, m: bv16): nat { if a & m != 0 && b & m != 0 then 1 else 0 }

  lemma HasPlus(a: bv16, b: bv16, m: bv16)
    requires m in {1, 2, 4, 8, 0x10, 0x20, 0x40, 0x80, 0x100, 0x200, 0x400, 0x800, 0x1000, 0x2000, 0x4000, 0x8000}
    ensures Has(a, m) + Has(b, m) == Has(Plus(a, b), m) + 2 * Both(a, b, m)
  {
  }

  function SharedLow(a: bv16, b: bv16): nat {
    Both(a, b, 0x1) + Both(a, b, 0x2) + Both(a, b, 0x4) + Both(a, b, 0x8) +
    Both(a, b, 0x10) + Both(a, b, 0x20) + Both(a, b, 0x40) + Both(a, b, 0x80)
  }

  function SharedHigh(a: bv16, b: bv16): nat {
    Both(a, b, 0x100) + Both(a, b, 0x200) + Both(a, b, 0x400) + Both(a, b, 0x800) +
    Both(a, b, 0x1000) + Both(a, b, 0x2000) + Both(a, b, 0x4000) + Both(a, b, 0x8000)
  }

  lemma OnesLowPlus(a: bv16, b: bv16)
    ensures OnesLow(a) + OnesLow(b) == OnesLow(Plus(a, b)) + 2 * SharedLow(a, b)
  {
    hide Has, Both, Plus;
    HasPlus(a, b, 0x1);
    HasPlus(a, b, 0x2);
    HasPlus(a, b, 0x4);
    HasPlus(a, b, 0x8);
    HasPlus(a, b, 0x10);
    HasPlus(a, b, 0x20);
    HasPlus(a, b, 0x40);
    HasPlus(a, b, 0x80);
  }

  lemma OnesHighPlus(a: bv16, b: bv16)
    ensures OnesHigh(a) + OnesHigh(b) == OnesHigh(Plus(a, b)) + 2 * SharedHigh(a, b)
  {
    hide Has, Both, Plus;
    HasPlus(a, b, 0x100);
    HasPlus(a, b, 0x200);
    HasPlus(a, b, 0x400);
    HasPlus(a, b, 0x800);
    HasPlus(a, b, 0x1000);
    HasPlus(a, b, 0x2000);
    HasPlus(a, b, 0x4000);
    HasPlus(a, b, 0x8000);
  }

  lemma EvenApart(x: int, y: int, k: int)
    requires x == y + 2 * k
    ensures x % 2 == y % 2
  {
  }

  lemma OnesPlus(a: bv16, b: bv16)
    ensures Ones(Plus(a, b)) % 2 == (Ones(a) + Ones(b)) % 2
  {
    hide OnesLow, OnesHigh, Plus, SharedLow, SharedHigh;
    OnesLowPlus(a, b);
    OnesHighPlus(a, b);
    EvenApart(Ones(a) + Ones(b), Ones(Plus(a, b)), SharedLow(a, b) + SharedHigh(a, b));
  }

  lemma HasShifted(a: bv16, m: bv16)
    requires m & 0x8000 == 0
    ensures Has(a << 1, m << 1) == Has(a, m)
  {
    assert (a << 1) & (m << 1) == (a & m) << 1;
    assert (a & m) & 0x8000 == 0;
  }

  lemma OnesShifted(a: bv16)
    ensures Ones(a << 1) + Has(a, 0x8000) == Ones(a)
  {
    assert Has(a << 1, 1) == 0;
    hide Has;
    HasShifted(a, 0x1);
    HasShifted(a, 0x2);
    HasShifted(a, 0x4);
    HasShifted(a, 0x8);
    HasShifted(a, 0x10);
    HasShifted(a, 0x20);
    HasShifted(a, 0x40);
    HasShifted(a, 0x80);
    HasShifted(a, 0x100);
    HasShifted(a, 0x200);
    HasShifted(a, 0x400);
    HasShifted(a, 0x800);
    HasShifted(a, 0x1000);
    HasShifted(a, 0x2000);
    HasShifted(a, 0x4000);
  }

  // Dropping the top bit costs one bit and adding the polynomial three: never an odd change.
  lemma OnesOfShiftBit(a: bv16)
    ensures Ones(ShiftBit(a)) % 2 == Ones(a) % 2
  {
    hide Ones, Plus;
    OnesShifted(a);
    if a & 0x8000 != 0 {
      OnesOfPolynomial();
      OnesPlus(a << 1, 0x1021);
      PlusIsXor(a << 1);
      EvenApart(Ones(a << 1) + 3, Ones(a), 1);
    }
  }

  lemma OnesOfPolynomial()
    ensures Ones(0x1021) == 3
  {
  }

  lemma PlusIsXor(a: bv16)
    ensures Plus(a, 0x1021) == a ^ 0x1021
  {
  }

  lemma {:induction false} OnesOfShiftBits(a: bv16, n: nat)
    ensures Ones(ShiftBits(a, n)) % 2 == Ones(a) % 2
  {
    hide Ones, ShiftBit;
    if n > 0 {
      OnesOfShiftBits(a, n - 1);
      OnesOfShiftBit(ShiftBits(a, n - 1));
    }
  }

  lemma OnesOfHighByte(d: byte)
    ensures Ones((d as bv16) << 8) == Ones(d as bv16)
  {
  }

  lemma ByteSum(d: byte, e: byte)
    ensures Plus(d as bv16, e as bv16) == (d ^ e) as bv16
  {
  }

  lemma OnesOfMix(c: bv16, d: byte)
    ensures Ones(Mix(c, d)) % 2 == (Ones(c) + Ones(d as bv16)) % 2
  {
    hide Ones, Plus;
    OnesPlus(c, (d as bv16) << 8);
    OnesOfHighByte(d);
  }

  lemma OnesOfDifference(d: byte, e: byte)
    ensures Ones((d ^ e) as bv16) % 2 == (Ones(d as bv16) + Ones(e as bv16)) % 2
  {
    hide Ones, Plus;
    ByteSum(d, e);
    OnesPlus(d as bv16, e as bv16);
  }

  lemma SumsAgree(r: int, o: int, o': int, f: int, c: int, c': int, d: int, e: int, x: int)
    requires r % 2 == (o + o' + f) % 2
    requires o % 2 == (c + d) % 2 && o' % 2 == (c' + e) % 2 && x % 2 == (d + e) % 2
    ensures r % 2 == (c + c' + (x + f)) % 2
  {
  }

  lemma CrcFromOne(c: bv16, s: seq<byte>)
    ensures CrcFrom(c, s) == if s == [] then c else CrcFrom(ShiftBits(Mix(c, s[0]), 8), s[1..])
  {
  }

  lemma FlippedOne(s: seq<byte>, t: seq<byte>)
    requires |s| == |t|
    ensures Flipped(s, t) == if s == [] then 0 else Ones((s[0] ^ t[0]) as bv16) + Flipped(s[1..], t[1..])
  {
  }

  lemma {:induction false} OnesOfCrc(c: bv16, c': bv16, s: seq<byte>, t: seq<byte>)
    requires |s| == |t|
    ensures (Ones(CrcFrom(c, s)) + Ones(CrcFrom(c', t))) % 2 == (Ones(c) + Ones(c') + Flipped(s, t)) % 2
    decreases |s|
  {
    hide *;
    CrcFromOne(c, s);
    CrcFromOne(c', t);
    FlippedOne(s, t);
    if s != [] {
      var d, e := s[0], t[0];
      OnesOfMix(c, d);
      OnesOfMix(c', e);
      OnesOfShiftBits(Mix(c, d), 8);
      OnesOfShiftBits(Mix(c', e), 8);
      OnesOfDifference(d, e);
      var r, r' := ShiftBits(Mix(c, d), 8), ShiftBits(Mix(c', e), 8);
      OnesOfCrc(r, r', s[1..], t[1..]);
      SumsAgree(Ones(CrcFrom(c, s)) + Ones(CrcFrom(c', t)), Ones(r), Ones(r'), Flipped(s[1..], t[1..]),
                Ones(c), Ones(c'), Ones(d as bv16), Ones(e as bv16), Ones((d ^ e) as bv16));
    }
  }

  // Any odd number of flipped bits, anywhere in a frame of any length, is rejected.
  lemma OddChangeRejected(s: seq<byte>, t: seq<byte>)
    requires Intact(s) && |t| == |s|
    requires Flipped(s, t) % 2 == 1
    ensures !Intact(t)
  {
    hide Ones, Intact;
    IntactFold(s);
    IntactFold(t);
    hide CrcFrom;
    OnesOfCrc(0xFFFF, 0xFFFF, s, t);
  }

  // ----- Known values -----

  lemma EightSteps(c: bv16, c1: bv16, c2: bv16, c3: bv16, c4: bv16, c5: bv16, c6: bv16, c7: bv16, c8: bv16)
    requires ShiftBit(c) == c1 && ShiftBit(c1) == c2 && ShiftBit(c2) == c3 && ShiftBit(c3) == c4
    requires ShiftBit(c4) == c5 && ShiftBit(c5) == c6 && ShiftBit(c6) == c7 && ShiftBit(c7) == c8
    ensures ShiftBits(c, 8) == c8
  {
    hide ShiftBit;
    assert ShiftBits(c, 0) == c;
    assert ShiftBits(c, 1) == c1;
    assert ShiftBits(c, 2) == c2;
    assert ShiftBits(c, 3) == c3;
    assert ShiftBits(c, 4) == c4;
    assert ShiftBits(c, 5) == c5;
    assert ShiftBits(c, 6) == c6;
    assert ShiftBits(c, 7) == c7;
  }

  lemma CrcByte(c: bv16, m: bv16, r: bv16, s: seq<byte>)
    requires s != [] && Mix(c, s[0]) == m && ShiftBits(m, 8) == r
    ensures CrcFrom(c, s) == CrcFrom(r, s[1..])
  {
    hide ShiftBits, Mix;
  }

  lemma CrcNothing(c: bv16)
    ensures CrcFrom(c, []) == c
  {
  }

  lemma RestOf(s: seq<byte>, k: nat)
    requires k <= |s|
    ensures s[0..] == s && (k < |s| ==> s[k..][1..] == s[k + 1..]) && (k == |s| ==> s[k..] == [])
  {
  }

  lemma CheckValueSteps()
    ensures Mix(0xFFFF, 0x31) == 0xCEFF && ShiftBits(0xCEFF, 8) == 0xC782
    ensures Mix(0xC782, 0x32) == 0xF582 && ShiftBits(0xF582, 8) == 0x3DBA
    ensures Mix(0x3DBA, 0x33) == 0x0EBA && ShiftBits(0x0EBA, 8) == 0x5BCE
    ensures Mix(0x5BCE, 0x34) == 0x6FCE && ShiftBits(0x6FCE, 8) == 0x5349
    ensures Mix(0x5349, 0x35) == 0x6649 && ShiftBits(0x6649, 8) == 0x4560
    ensures Mix(0x4560, 0x36) == 0x7360 && ShiftBits(0x7360, 8) == 0x2EF4
    ensures Mix(0x2EF4, 0x37) == 0x19F4 && ShiftBits(0x19F4, 8) == 0x7718
    ensures Mix(0x7718, 0x38) == 0x4F18 && ShiftBits(0x4F18, 8) == 0xA12B
    ensures Mix(0xA12B, 0x39) == 0x982B && ShiftBits(0x982B, 8) == 0x29B1
  {
    hide ShiftBits;
    EightSteps(0xCEFF, 0x8DDF, 0x0B9F, 0x173E, 0x2E7C, 0x5CF8, 0xB9F0, 0x63C1, 0xC782);
    EightSteps(0xF582, 0xFB25, 0xE66B, 0xDCF7, 0xA9CF, 0x43BF, 0x877E, 0x1EDD, 0x3DBA);
    EightSteps(0x0EBA, 0x1D74, 0x3AE8, 0x75D0, 0xEBA0, 0xC761, 0x9EE3, 0x2DE7, 0x5BCE);
    EightSteps(0x6FCE, 0xDF9C, 0xAF19, 0x4E13, 0x9C26, 0x286D, 0x50DA, 0xA1B4, 0x5349);
    EightSteps(0x6649, 0xCC92, 0x8905, 0x022B, 0x0456, 0x08AC, 0x1158, 0x22B0, 0x4560);
    EightSteps(0x7360, 0xE6C0, 0xDDA1, 0xAB63, 0x46E7, 0x8DCE, 0x0BBD, 0x177A, 0x2EF4);
    EightSteps(0x19F4, 0x33E8, 0x67D0, 0xCFA0, 0x8F61, 0x0EE3, 0x1DC6, 0x3B8C, 0x7718);
    EightSteps(0x4F18, 0x9E30, 0x2C41, 0x5882, 0xB104, 0x7229, 0xE452, 0xD885, 0xA12B);
    EightSteps(0x982B, 0x2077, 0x40EE, 0x81DC, 0x1399, 0x2732, 0x4E64, 0x9CC8, 0x29B1);
  }

  // The check value of CRC-16/CCITT-FALSE: over the digits 1 to 9.
  lemma CheckValue()
    ensures Crc([0x31, 0x32, 0x33, 0x34, 0x35, 0x36, 0x37, 0x38, 0x39]) == 0x29B1
  {
    var s: seq<byte> := [0x31, 0x32, 0x33, 0x34, 0x35, 0x36, 0x37, 0x38, 0x39];
    assert Crc(s) == CrcFrom(0xFFFF, s);
    hide *;
    CheckValueSteps();
    CrcByte(0xFFFF, 0xCEFF, 0xC782, s[0..]);
    RestOf(s, 0);
    CrcByte(0xC782, 0xF582, 0x3DBA, s[1..]);
    RestOf(s, 1);
    CrcByte(0x3DBA, 0x0EBA, 0x5BCE, s[2..]);
    RestOf(s, 2);
    CrcByte(0x5BCE, 0x6FCE, 0x5349, s[3..]);
    RestOf(s, 3);
    CrcByte(0x5349, 0x6649, 0x4560, s[4..]);
    RestOf(s, 4);
    CrcByte(0x4560, 0x7360, 0x2EF4, s[5..]);
    RestOf(s, 5);
    CrcByte(0x2EF4, 0x19F4, 0x7718, s[6..]);
    RestOf(s, 6);
    CrcByte(0x7718, 0x4F18, 0xA12B, s[7..]);
    RestOf(s, 7);
    CrcByte(0xA12B, 0x982B, 0x29B1, s[8..]);
    RestOf(s, 8);
    RestOf(s, 9);
    CrcNothing(0x29B1);
  }

  lemma CrcOfRstSteps()
    ensures Mix(0xFFFF, 0xC0) == 0x3FFF && ShiftBits(0x3FFF, 8) == 0x38BC
  {
    hide ShiftBits;
    EightSteps(0x3FFF, 0x7FFE, 0xFFFC, 0xEFD9, 0xCF93, 0x8F07, 0x0E2F, 0x1C5E, 0x38BC);
  }

  lemma CrcOfRst()
    ensures Crc([0xC0]) == 0x38BC
  {
    var s: seq<byte> := [0xC0];
    assert Crc(s) == CrcFrom(0xFFFF, s);
    hide *;
    CrcOfRstSteps();
    CrcByte(0xFFFF, 0x3FFF, 0x38BC, s[0..]);
    RestOf(s, 0);
    RestOf(s, 1);
    CrcNothing(0x38BC);
  }

  lemma CrcOfRstackSteps()
    ensures Mix(0xFFFF, 0xC1) == 0x3EFF && ShiftBits(0x3EFF, 8) == 0x289D
    ensures Mix(0x289D, 0x02) == 0x2A9D && ShiftBits(0x2A9D, 8) == 0x1828
    ensures Mix(0x1828, 0x0B) == 0x1328 && ShiftBits(0x1328, 8) == 0x0A52
  {
    hide ShiftBits;
    EightSteps(0x3EFF, 0x7DFE, 0xFBFC, 0xE7D9, 0xDF93, 0xAF07, 0x4E2F, 0x9C5E, 0x289D);
    EightSteps(0x2A9D, 0x553A, 0xAA74, 0x44C9, 0x8992, 0x0305, 0x060A, 0x0C14, 0x1828);
    EightSteps(0x1328, 0x2650, 0x4CA0, 0x9940, 0x22A1, 0x4542, 0x8A84, 0x0529, 0x0A52);
  }

  lemma CrcOfRstack()
    ensures Crc([0xC1, 0x02, 0x0B]) == 0x0A52
  {
    var s: seq<byte> := [0xC1, 0x02, 0x0B];
    assert Crc(s) == CrcFrom(0xFFFF, s);
    hide *;
    CrcOfRstackSteps();
    CrcByte(0xFFFF, 0x3EFF, 0x289D, s[0..]);
    RestOf(s, 0);
    CrcByte(0x289D, 0x2A9D, 0x1828, s[1..]);
    RestOf(s, 1);
    CrcByte(0x1828, 0x1328, 0x0A52, s[2..]);
    RestOf(s, 2);
    RestOf(s, 3);
    CrcNothing(0x0A52);
  }
}
