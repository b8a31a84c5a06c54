// The register is back at 1 after 32767 steps and never before; so the CRC rejects any two
// flipped bits that are less than that apart, and with them every error of at most three bits.

module CrcOrder {
  import opened Bytes
  import opened Crc
  import opened CrcPowers
  import opened Divisors

  // ----- The order of the register -----

  lemma BackAtOne()
    ensures X(32767) == 1
  {
    X32768();
    XNext(32767);
    hide X;
    ShiftBitInjective(X(32767), 1);
  }

  lemma {:induction false} Multiple(g: nat, k: nat)
    requires X(g) == 1
    ensures X(g * k) == 1
    decreases k
  {
    if k == 0 {
      assert g * k == 0;
    } else {
      Multiple(g, k - 1);
      assert g * k == g * (k - 1) + g;
      XAdd(g * (k - 1), g);
    }
  }

  ghost predicate Back(d: nat) { X(d) == 1 }

  lemma Difference(a: nat, b: nat)
    requires a >= b && X(a) == 1 && X(b) == 1
    ensures X(a - b) == 1
  {
    XAdd(b, a - b);
  }

  lemma BackCloses()
    ensures Closed(Back)
  {
    forall a: nat, b: nat | a >= b && Back(a) && Back(b)
      ensures Back(a - b)
    {
      Difference(a, b);
    }
  }

  lemma AllThree(g: nat, u: nat, x: int, y: int, z: int)
    requires g < 32767 && g == 7 * x && g == 31 * y && g == 151 * z
    ensures g * u == 0
  {
    assert g % 32767 == 0;
  }

  // A divisor of 32767 but itself divides one of the three largest.
  lemma Largest(g: nat, u: nat) returns (k: nat)
    requires g * u == 32767 && g < 32767
    ensures g * k == 4681 || g * k == 1057 || g * k == 217
  {
    ThePrimes();
    hide Prime;
    var by7, x := Divides(7, g, u, 4681);
    if !by7 {
      TakeOut(g, 7, x, 4681);
      return x;
    }
    var by31, y := Divides(31, g, u, 1057);
    if !by31 {
      TakeOut(g, 31, y, 1057);
      return y;
    }
    var by151, z := Divides(151, g, u, 217);
    if !by151 {
      TakeOut(g, 151, z, 217);
      return z;
    }
    AllThree(g, u, x, y, z);
    assert false;
  }

  lemma NotBackSooner()
    ensures X(4681) != 1 && X(1057) != 1 && X(217) != 1
  {
    X4681();
    X1057();
    X217();
    hide X;
  }

  // It takes all of 32767 steps to come back.
  lemma Order(d: nat)
    requires 1 <= d < 32767
    ensures X(d) != 1
  {
    hide X;
    if X(d) == 1 {
      BackAtOne();
      BackCloses();
      var g, u, w := Common(Back, 32767, d);
      assert w > 0 && g <= g * w;
      var k := Largest(g, u);
      Multiple(g, k);
      NotBackSooner();
    }
  }

  // ----- Where the flipped bits take the register -----

  // The difference of two registers that read s and t, from the difference d.
  function Apart(d: bv16, s: seq<byte>, t: seq<byte>): bv16
    requires |s| == |t|
    decreases |s|
  {
    if s == [] then d else Apart(ShiftBits(Mix(d, s[0] ^ t[0]), 8), s[1..], t[1..])
  }

  lemma ApartOne(d: bv16, s: seq<byte>, t: seq<byte>)
    requires |s| == |t| && s != []
    ensures Apart(d, s, t) == Apart(ShiftBits(Mix(d, s[0] ^ t[0]), 8), s[1..], t[1..])
  {
  }

  lemma {:induction false} ApartIs(c: bv16, c': bv16, s: seq<byte>, t: seq<byte>)
    requires |s| == |t|
    ensures Plus(CrcFrom(c, s), CrcFrom(c', t)) == Apart(Plus(c, c'), s, t)
    decreases |s|
  {
    CrcFromOne(c, s);
    CrcFromOne(c', t);
    if s == [] {
      hide CrcFrom, Plus;
    } else {
      ApartOne(Plus(c, c'), s, t);
      MixOfBoth(c, c', s[0], t[0]);
      hide *;
      var r, r' := ShiftBits(Mix(c, s[0]), 8), ShiftBits(Mix(c', t[0]), 8);
      ShiftBitsLinear(Mix(c, s[0]), Mix(c', t[0]), 8);
      ApartIs(r, r', s[1..], t[1..]);
    }
  }

  lemma MixOfBoth(c: bv16, c': bv16, d: byte, d': byte)
    ensures Plus(Mix(c, d), Mix(c', d')) == Mix(Plus(c, c'), d ^ d')
  {
    MixBoth(c, c', d, d');
    hide Plus;
  }

  // A difference to begin with is only carried along.
  lemma {:induction false} ApartFrom(d: bv16, s: seq<byte>, t: seq<byte>)
    requires |s| == |t|
    ensures Apart(d, s, t) == Plus(ShiftBits(d, 8 * |s|), Apart(0, s, t))
    decreases |s|
  {
    if s == [] {
      PlusZero(d, 0, 0);
    } else {
      var e, n := s[0] ^ t[0], 8 * (|s| - 1);
      ApartOne(d, s, t);
      ApartOne(0, s, t);
      MixFromZero(d, e);
      hide *;
      var a, b := ShiftBits(d, 8), ShiftBits(Mix(0, e), 8);
      ShiftBitsLinear(d, Mix(0, e), 8);
      ApartFrom(Plus(a, b), s[1..], t[1..]);
      ApartFrom(b, s[1..], t[1..]);
      ShiftBitsLinear(a, b, n);
      ShiftBitsAdd(d, 8, n);
      PlusZero(ShiftBits(a, n), Apart(0, s[1..], t[1..]), ShiftBits(b, n));
    }
  }

  lemma MixFromZero(d: bv16, e: byte)
    ensures Mix(d, e) == Plus(d, Mix(0, e))
  {
    PlusZero((e as bv16) << 8, 0, 0);
    hide Plus;
  }

  // ----- One byte of difference -----

  lemma ByteNone(d: byte)
    ensures Ones(d as bv16) == 0 ==> Mix(0, d) == 0
  {
  }

  lemma UnitBytes()
    ensures X(8) == 0x0100 && X(9) == 0x0200 && X(10) == 0x0400 && X(11) == 0x0800
    ensures X(12) == 0x1000 && X(13) == 0x2000 && X(14) == 0x4000 && X(15) == 0x8000
  {
    X8();
    XNext(8);
    XNext(9);
    XNext(10);
    XNext(11);
    XNext(12);
    XNext(13);
    XNext(14);
    hide X;
  }

  lemma OneBit(d: byte)
    requires Ones(d as bv16) == 1
    ensures d == 0x01 || d == 0x02 || d == 0x04 || d == 0x08 || d == 0x10 || d == 0x20 || d == 0x40 || d == 0x80
  {
  }

  lemma ByteOne(d: byte) returns (m: nat)
    requires Ones(d as bv16) == 1
    ensures 8 <= m < 16 && Mix(0, d) == X(m)
  {
    OneBit(d);
    UnitBytes();
    hide Ones, X;
    m := if d == 0x01 then 8 else if d == 0x02 then 9 else if d == 0x04 then 10 else if d == 0x08 then 11
         else if d == 0x10 then 12 else if d == 0x20 then 13 else if d == 0x40 then 14 else 15;
  }

  // A byte with two bits is the sum of two with one.
  lemma TwoBits(d: byte) returns (e: byte)
    requires Ones(d as bv16) == 2
    ensures Ones(e as bv16) == 1 && Ones((d ^ e) as bv16) == 1 && d != 0
  {
    e := if d & 0x80 != 0 then 0x80 else if d & 0x40 != 0 then 0x40 else if d & 0x20 != 0 then 0x20
         else if d & 0x10 != 0 then 0x10 else if d & 0x08 != 0 then 0x08 else if d & 0x04 != 0 then 0x04
         else if d & 0x02 != 0 then 0x02 else 0x01;
  }

  lemma MixSplits(d: byte, e: byte)
    ensures Mix(0, d) == Plus(Mix(0, e), Mix(0, d ^ e))
    ensures Mix(0, e) == Mix(0, d ^ e) ==> d == 0
  {
  }

  lemma ByteTwo(d: byte) returns (m: nat, n: nat)
    requires Ones(d as bv16) == 2
    ensures 8 <= m < 16 && 8 <= n < 16 && m != n && Mix(0, d) == Plus(X(m), X(n))
  {
    hide *;
    var e := TwoBits(d);
    m := ByteOne(e);
    n := ByteOne(d ^ e);
    MixSplits(d, e);
  }

  // ----- Strings that differ in none, one or two bits -----

  lemma FlippedSplits(s: seq<byte>, t: seq<byte>)
    requires |s| == |t| && s != []
    ensures Flipped(s, t) == Ones((s[0] ^ t[0]) as bv16) + Flipped(s[1..], t[1..])
  {
    FlippedOne(s, t);
    hide Ones;
  }

  // What the first byte adds.
  lemma FirstByte(s: seq<byte>, t: seq<byte>) returns (d: byte)
    requires |s| == |t| && Flipped(s, t) > 0
    ensures s != [] && Flipped(s, t) == Ones(d as bv16) + Flipped(s[1..], t[1..])
    ensures Apart(0, s, t) == Apart(ShiftBits(Mix(0, d), 8), s[1..], t[1..])
    ensures Ones(d as bv16) == 0 ==> Apart(0, s, t) == Apart(0, s[1..], t[1..])
  {
    assert s != [];
    hide *;
    d := s[0] ^ t[0];
    FlippedSplits(s, t);
    ApartOne(0, s, t);
    ByteNone(d);
    ShiftZero(8);
  }

  lemma {:induction false} NoneApart(s: seq<byte>, t: seq<byte>)
    requires |s| == |t| && Flipped(s, t) == 0
    ensures Apart(0, s, t) == 0
    decreases |s|
  {
    if s != [] {
      FlippedSplits(s, t);
      ApartOne(0, s, t);
      ByteNone(s[0] ^ t[0]);
      ShiftZero(8);
      hide *;
      NoneApart(s[1..], t[1..]);
    }
  }

  // A difference a, eight steps, and none in what follows.
  lemma OnlyFirst(a: bv16, s: seq<byte>, t: seq<byte>)
    requires |s| == |t| && Flipped(s, t) == 0
    ensures Apart(ShiftBits(a, 8), s, t) == ShiftBits(a, 8 + 8 * |s|)
  {
    hide *;
    ApartFrom(ShiftBits(a, 8), s, t);
    NoneApart(s, t);
    ShiftBitsAdd(a, 8, 8 * |s|);
    PlusZero(ShiftBits(a, 8 + 8 * |s|), 0, 0);
  }

  lemma {:induction false} OneApart(s: seq<byte>, t: seq<byte>) returns (m: nat)
    requires |s| == |t| && Flipped(s, t) == 1
    ensures 16 <= m < 16 + 8 * |s| && Apart(0, s, t) == X(m)
    decreases |s|
  {
    hide *;
    var d := FirstByte(s, t);
    if Ones(d as bv16) == 0 {
      m := OneApart(s[1..], t[1..]);
    } else {
      m := ByteOne(d);
      OnlyFirst(X(m), s[1..], t[1..]);
      XAdd(m, 8 * |s|);
      m := m + 8 * |s|;
    }
  }

  lemma OneThenOne(d: byte, s: seq<byte>, t: seq<byte>) returns (m: nat, n: nat)
    requires |s| == |t| && Ones(d as bv16) == 1 && Flipped(s, t) == 1
    ensures 16 <= n < m < 24 + 8 * |s| && Apart(ShiftBits(Mix(0, d), 8), s, t) == Plus(X(m), X(n))
  {
    hide *;
    var k := ByteOne(d);
    n := OneApart(s, t);
    XAdd(k, 8);
    ApartFrom(X(k + 8), s, t);
    m := k + 8 + 8 * |s|;
    XAdd(k + 8, 8 * |s|);
  }

  lemma {:induction false} TwoApart(s: seq<byte>, t: seq<byte>) returns (m: nat, n: nat)
    requires |s| == |t| && Flipped(s, t) == 2
    ensures 16 <= m < 16 + 8 * |s| && 16 <= n < 16 + 8 * |s| && m != n && Apart(0, s, t) == Plus(X(m), X(n))
    decreases |s|
  {
    hide *;
    var d := FirstByte(s, t);
    var k := 8 * |s|;
    if Ones(d as bv16) == 0 {
      m, n := TwoApart(s[1..], t[1..]);
    } else if Ones(d as bv16) == 1 {
      m, n := OneThenOne(d, s[1..], t[1..]);
    } else {
      m, n := ByteTwo(d);
      OnlyFirst(Plus(X(m), X(n)), s[1..], t[1..]);
      ShiftBitsLinear(X(m), X(n), k);
      XAdd(m, k);
      XAdd(n, k);
      m, n := m + k, n + k;
    }
  }

  lemma WithItself(a: bv16)
    ensures Plus(a, a) == 0
  {
  }

  lemma SumZero(a: bv16, b: bv16)
    ensures Plus(a, b) == 0 <==> a == b
  {
    WithItself(b);
    hide Plus;
    if Plus(a, b) == 0 {
      PlusCancels(a, b, b);
    }
  }

  lemma StepsApart(m: nat, n: nat)
    requires n < m < n + 32767
    ensures X(m) != X(n)
  {
    hide *;
    if X(m) == X(n) {
      XZero();
      XAdd(m - n, n);
      XAdd(0, n);
      ShiftBitsInjective(X(m - n), X(0), n);
      Order(m - n);
    }
  }

  lemma XZero()
    ensures X(0) == 1
  {
  }

  // Any two flipped bits, anywhere in a body and its CRC of up to 4095 bytes, are rejected.
  lemma TwoFlipsRejected(s: seq<byte>, t: seq<byte>)
    requires Intact(s) && |t| == |s| <= 4095 && Flipped(s, t) == 2
    ensures !Intact(t)
  {
    hide *;
    if Intact(t) {
      IntactFold(s);
      IntactFold(t);
      ApartIs(0xFFFF, 0xFFFF, s, t);
      SumZero(0xFFFF, 0xFFFF);
      SumZero(0, 0);
      var m, n := TwoApart(s, t);
      SumZero(X(m), X(n));
      if m > n {
        StepsApart(m, n);
      } else {
        StepsApart(n, m);
      }
    }
  }

  // So is every error of one, two or three bits; the receive buffer holds 280 bytes.
  lemma FewFlipsRejected(s: seq<byte>, t: seq<byte>)
    requires Intact(s) && |t| == |s| <= 4095 && 1 <= Flipped(s, t) <= 3
    ensures !Intact(t)
  {
    hide *;
    if Flipped(s, t) == 2 {
      TwoFlipsRejected(s, t);
    } else {
      OddChangeRejected(s, t);
    }
  }
}
