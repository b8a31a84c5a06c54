// Whitening of DATA payloads: the shift register, its table, and the mask.

module Whitening {
  import opened Bytes
  import opened Divisors
  import opened Ash

  function RandStep(r: byte): byte {
    if r & 1 != 0 then (r >> 1) ^ 0xB8 else r >> 1
  }

  // The shift register that whitens DATA payloads, from 0x42.
  function Rand(i: nat): byte {
    if i == 0 then 0x42 else RandStep(Rand(i - 1))
  }

  // ----- What the register is, bit by bit -----

  // Bit 7 of the next value is bit 0 of this one; bits 6, 2, 1 and 0 move down; bits 5, 4 and 3
  // move down and are flipped by it.
  ghost predicate Shifts(r: byte, next: byte) {
    var low := r & 0x01 != 0;
    && (next & 0x80 != 0) == low && (next & 0x40 != 0) == (r & 0x80 != 0)
    && (next & 0x20 != 0) == ((r & 0x40 != 0) != low) && (next & 0x10 != 0) == ((r & 0x20 != 0) != low)
    && (next & 0x08 != 0) == ((r & 0x10 != 0) != low) && (next & 0x04 != 0) == (r & 0x08 != 0)
    && (next & 0x02 != 0) == (r & 0x04 != 0) && (next & 0x01 != 0) == (r & 0x02 != 0)
  }

  lemma StepShifts(r: byte)
    ensures Shifts(r, RandStep(r))
  {
  }

  lemma ShiftsBack(r: byte, s: byte, next: byte)
    requires Shifts(r, next) && Shifts(s, next)
    ensures r == s
  {
  }

  lemma StepInjective(r: byte, s: byte)
    requires RandStep(r) == RandStep(s)
    ensures r == s
  {
    StepShifts(r);
    StepShifts(s);
    hide RandStep, Shifts;
    ShiftsBack(r, s, RandStep(r));
  }

  // ----- Its period -----

  lemma {:induction false} RandBack(i: nat, n: nat)
    requires Rand(i + n) == Rand(n)
    ensures Rand(i) == Rand(0)
    decreases n
  {
    if n > 0 {
      StepInjective(Rand(i + n - 1), Rand(n - 1));
      RandBack(i, n - 1);
    }
  }

  lemma {:induction false} RandOn(i: nat, n: nat)
    requires Rand(i) == Rand(0)
    ensures Rand(i + n) == Rand(n)
    decreases n
  {
    hide RandStep;
    if n > 0 {
      RandOn(i, n - 1);
    }
  }

  ghost predicate Returns(d: nat) { Rand(d) == Rand(0) }

  lemma ReturnsCloses()
    ensures Closed(Returns)
  {
    forall a: nat, b: nat | a >= b && Returns(a) && Returns(b)
      ensures Returns(a - b)
    {
      RandBack(a - b, b);
    }
  }

  lemma {:induction false} Multiple(g: nat, k: nat)
    requires Rand(g) == Rand(0)
    ensures Rand(g * k) == Rand(0)
    decreases k
  {
    if k == 0 {
      assert g * k == 0;
    } else {
      Multiple(g, k - 1);
      assert g * k == g + g * (k - 1);
      RandOn(g, g * (k - 1));
    }
  }

  lemma Five(i: nat, r: byte)
    requires Rand(i) == r
    ensures var a := if r & 1 != 0 then (r >> 1) ^ 0xB8 else r >> 1;
            var b := if a & 1 != 0 then (a >> 1) ^ 0xB8 else a >> 1;
            var c := if b & 1 != 0 then (b >> 1) ^ 0xB8 else b >> 1;
            var d := if c & 1 != 0 then (c >> 1) ^ 0xB8 else c >> 1;
            Rand(i + 1) == a && Rand(i + 2) == b && Rand(i + 3) == c && Rand(i + 4) == d &&
            Rand(i + 5) == if d & 1 != 0 then (d >> 1) ^ 0xB8 else d >> 1
  {
    assert Rand(i + 1) == RandStep(r);
    assert Rand(i + 2) == RandStep(Rand(i + 1));
    assert Rand(i + 3) == RandStep(Rand(i + 2));
    assert Rand(i + 4) == RandStep(Rand(i + 3));
    assert Rand(i + 5) == RandStep(Rand(i + 4));
    hide Rand;
  }

  // The start every peer has.
  lemma RandStart()
    ensures Rand(0) == 0x42 && Rand(1) == 0x21 && Rand(2) == 0xA8 && Rand(3) == 0x54 && Rand(4) == 0x2A
    ensures Rand(5) == 0x15
  {
    assert Rand(0) == 0x42;
    hide Rand;
    Five(0, 0x42);
  }

  lemma Rand15()
    ensures Rand(15) == 0x9C
  {
    RandStart();
    hide Rand;
    Five(5, 0x15); Five(10, 0x25);
  }

  lemma Rand55()
    ensures Rand(55) == 0x4C && Rand(51) == 0x75
  {
    Rand15();
    hide Rand;
    Five(15, 0x9C); Five(20, 0xCE); Five(25, 0x63); Five(30, 0xA7); Five(35, 0x8F); Five(40, 0xD2);
    Five(45, 0xA9); Five(50, 0xEA);
  }

  lemma Rand85()
    ensures Rand(85) == 0x48
  {
    Rand55();
    hide Rand;
    Five(55, 0x4C); Five(60, 0x70); Five(65, 0xBB); Five(70, 0x45); Five(75, 0x9F); Five(80, 0x6A);
  }

  lemma Rand170()
    ensures Rand(170) == 0x0A
  {
    Rand85();
    hide Rand;
    Five(85, 0x48); Five(90, 0x5E); Five(95, 0xDF); Five(100, 0x68); Five(105, 0x5F); Five(110, 0x6C);
    Five(115, 0x71); Five(120, 0x08); Five(125, 0x5C); Five(130, 0xC8); Five(135, 0x5A); Five(140, 0xF1);
    Five(145, 0x0C); Five(150, 0x72); Five(155, 0xAC); Five(160, 0x77); Five(165, 0x31);
  }

  lemma Rand255()
    ensures Rand(255) == 0x42
  {
    Rand170();
    hide Rand;
    Five(170, 0x0A); Five(175, 0x4B); Five(180, 0xFA); Five(185, 0xF4); Five(190, 0x91); Five(195, 0x0F);
    Five(200, 0xD6); Five(205, 0x87); Five(210, 0x8E); Five(215, 0x61); Five(220, 0xB0); Five(225, 0xBD);
    Five(230, 0x7C); Five(235, 0xC9); Five(240, 0xE9); Five(245, 0xE8); Five(250, 0x5B);
  }

  lemma NoSharedFactor(g: nat, u: nat, x: int, y: int, z: int)
    requires g < 255 && g == 3 * x && g == 5 * y && g == 17 * z
    ensures g * u == 0
  {
    assert g % 255 == 0;
  }

  // A divisor of 255 but itself divides one of the three largest.
  lemma Largest(g: nat, u: nat) returns (k: nat)
    requires g * u == 255 && g < 255
    ensures g * k == 85 || g * k == 51 || g * k == 15
  {
    ThePrimes();
    hide Prime;
    var by3, x := Divides(3, g, u, 85);
    if !by3 {
      TakeOut(g, 3, x, 85);
      return x;
    }
    var by5, y := Divides(5, g, u, 51);
    if !by5 {
      TakeOut(g, 5, y, 51);
      return y;
    }
    var by17, z := Divides(17, g, u, 15);
    if !by17 {
      TakeOut(g, 17, z, 15);
      return z;
    }
    NoSharedFactor(g, u, x, y, z);
    assert false;
  }

  lemma Values()
    ensures Rand(255) == Rand(0) && Rand(85) != Rand(0) && Rand(51) != Rand(0) && Rand(15) != Rand(0)
  {
    RandStart();
    Rand15();
    Rand55();
    Rand85();
    Rand255();
    hide Rand;
  }

  // The register is back after 255 steps and not before.
  lemma Period(d: nat)
    requires 1 <= d < 255
    ensures Rand(d) != Rand(0)
  {
    hide *;
    if Rand(d) == Rand(0) {
      Values();
      ReturnsCloses();
      ReturnsMeans(255);
      ReturnsMeans(d);
      var g, u, w := Common(Returns, 255, d);
      AtMost(g, w);
      var k := Largest(g, u);
      ReturnsMeans(g);
      Multiple(g, k);
    }
  }

  lemma ReturnsMeans(d: nat)
    ensures Returns(d) <==> Rand(d) == Rand(0)
  {
    hide Rand;
  }

  lemma AtMost(g: nat, w: nat)
    requires g * w > 0
    ensures g <= g * w
  {
  }

  lemma Distinct(i: nat, j: nat)
    requires i < j < 255
    ensures Rand(i) != Rand(j)
  {
    hide *;
    if Rand(i) == Rand(j) {
      assert j - i + i == j;
      RandBack(j - i, i);
      Period(j - i);
    }
  }

  // ----- The table and the mask -----

  // The whole table: its start, each entry from the one before, and its period.
  method RandInit() returns (table: array<byte>)
    ensures fresh(table) && table.Length == 256
    ensures forall i :: 0 <= i < 256 ==> table[i] == Rand(i)
    ensures table[..5] == [0x42, 0x21, 0xA8, 0x54, 0x2A]
    ensures forall i :: 0 <= i < 255 ==> Shifts(table[i], table[i + 1])
    ensures forall i, j :: 0 <= i < j < 255 ==> table[i] != table[j]
    ensures table[255] == table[0]
  {
    table := new byte[256];
    var r: byte := 0x42;
    var i := 0;
    while i < 256
      invariant 0 <= i <= 256 && r == Rand(i)
      invariant forall k :: 0 <= k < i ==> table[k] == Rand(k)
    {
      table[i] := r;
      r := if r & 1 != 0 then (r >> 1) ^ 0xB8 else r >> 1;
      i := i + 1;
    }
    TableIs(table[..]);
  }

  lemma TableIs(t: seq<byte>)
    requires |t| == 256 && forall i :: 0 <= i < 256 ==> t[i] == Rand(i)
    ensures t[..5] == [0x42, 0x21, 0xA8, 0x54, 0x2A]
    ensures forall i :: 0 <= i < 255 ==> Shifts(t[i], t[i + 1])
    ensures forall i, j :: 0 <= i < j < 255 ==> t[i] != t[j]
    ensures t[255] == t[0]
  {
    hide *;
    RandStart();
    Values();
    FirstFive(t);
    forall i | 0 <= i < 255
      ensures Shifts(t[i], t[i + 1])
    {
      NextShifts(i);
    }
    forall i, j | 0 <= i < j < 255
      ensures t[i] != t[j]
    {
      Distinct(i, j);
    }
  }

  lemma FirstFive(t: seq<byte>)
    requires |t| == 256
    ensures t[..5] == [t[0], t[1], t[2], t[3], t[4]]
  {
  }

  lemma NextShifts(i: nat)
    ensures Shifts(Rand(i), Rand(i + 1))
  {
    assert Rand(i + 1) == RandStep(Rand(i));
    hide Rand, RandStep, Shifts;
    StepShifts(Rand(i));
  }

  function Mask(p: seq<byte>): (r: seq<byte>)
    ensures |r| == |p|
  {
    seq(|p|, i requires 0 <= i < |p| => p[i] ^ Rand(i))
  }

  // A DATA body: the control byte, then the payload masked with the table.
  method MaskInto(rand: array<byte>, ctrl: byte, payload: seq<byte>) returns (body: array<byte>)
    requires |payload| + 1 <= MAX_FRAME
    requires rand.Length == 256 && forall k :: 0 <= k < 256 ==> rand[k] == Rand(k)
    ensures fresh(body) && body.Length == MAX_FRAME && body[..|payload| + 1] == [ctrl] + Mask(payload)
    ensures forall k :: 0 <= k < |payload| ==> body[1 + k] == payload[k] ^ rand[k]
  {
    hide Rand;
    body := new byte[MAX_FRAME];
    body[0] := ctrl;
    var i := 0;
    while i < |payload|
      invariant 0 <= i <= |payload| && body[0] == ctrl
      invariant forall k :: 0 <= k < i ==> body[1 + k] == Mask(payload)[k]
    {
      body[1 + i] := payload[i] ^ rand[i];
      i := i + 1;
    }
    forall k | 0 <= k < |payload| + 1
      ensures body[k] == ([ctrl] + Mask(payload))[k]
    {
      assert k > 0 ==> body[1 + (k - 1)] == Mask(payload)[k - 1];
    }
  }

  // Masking zeros shows the table.
  lemma MaskOfZeros()
    ensures Mask([0, 0, 0, 0, 0]) == [0x42, 0x21, 0xA8, 0x54, 0x2A]
  {
    RandStart();
    hide Rand;
  }

  // The same table undoes it.
  method Unmask(rand: array<byte>, masked: seq<byte>) returns (payload: array<byte>)
    requires |masked| <= MAX_FRAME
    requires rand.Length == 256 && forall k :: 0 <= k < 256 ==> rand[k] == Rand(k)
    ensures fresh(payload) && payload.Length == MAX_FRAME && payload[..|masked|] == Mask(masked)
    ensures forall k :: 0 <= k < |masked| ==> payload[k] == masked[k] ^ rand[k]
  {
    hide Rand;
    payload := new byte[MAX_FRAME];
    var i := 0;
    while i < |masked|
      invariant 0 <= i <= |masked|
      invariant forall k :: 0 <= k < i ==> payload[k] == Mask(masked)[k]
    {
      payload[i] := masked[i] ^ rand[i];
      i := i + 1;
    }
  }

  lemma XorTwice(a: byte, b: byte)
    ensures (a ^ b) ^ b == a
  {
  }

  lemma MaskInvolution(p: seq<byte>)
    ensures Mask(Mask(p)) == p
  {
    forall i | 0 <= i < |p|
      ensures Mask(Mask(p))[i] == p[i]
    {
      XorTwice(p[i], Rand(i));
    }
  }

  lemma RandStepNonzero(r: byte)
    requires r != 0
    ensures RandStep(r) != 0
  {
  }

  // The register never reaches its one fixed point, so no payload byte goes out unmasked.
  lemma {:induction false} RandNonzero(i: nat)
    ensures Rand(i) != 0
  {
    hide RandStep;
    if i > 0 {
      RandNonzero(i - 1);
      RandStepNonzero(Rand(i - 1));
    }
  }
}
