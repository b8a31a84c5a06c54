// Divisors of a product, and of the number of steps after which a register is back.

module Divisors {

  // With two numbers of steps that lead back, their difference does.
  ghost predicate Closed(back: nat -> bool) {
    forall a: nat, b: nat :: a >= b && back(a) && back(b) ==> back(a - b)
  }

  lemma Difference(back: nat -> bool, a: nat, b: nat)
    requires Closed(back) && a >= b && back(a) && back(b)
    ensures back(a - b)
  {
  }

  // So a common divisor of both does.
  lemma {:induction false} Common(back: nat -> bool, a: nat, b: nat) returns (g: nat, u: nat, w: nat)
    requires Closed(back) && a > 0 && b > 0 && back(a) && back(b)
    ensures a == g * u && b == g * w && back(g) && g > 0
    decreases a + b
  {
    hide Closed;
    if a == b {
      g, u, w := a, 1, 1;
    } else if a > b {
      Difference(back, a, b);
      g, u, w := Common(back, a - b, b);
      assert g * (u + w) == g * u + g * w;
      u := u + w;
    } else {
      Difference(back, b, a);
      g, u, w := Common(back, a, b - a);
      assert g * (u + w) == g * u + g * w;
      w := u + w;
    }
  }

  ghost predicate Prime(p: nat) {
    p >= 2 && forall a: nat, b: nat :: a >= 2 && b >= 2 ==> a * b != p
  }

  lemma ThePrimes()
    ensures Prime(3) && Prime(5) && Prime(7) && Prime(17) && Prime(31) && Prime(151)
  {
    forall a: nat, b: nat | a >= 2 && b >= 2
      ensures a * b !in {3, 5, 7, 17, 31, 151}
    {
      if a <= b {
        NoFactor(a, b);
      } else {
        NoFactor(b, a);
      }
    }
  }

  lemma NoFactor(a: nat, b: nat)
    requires 2 <= a <= b
    ensures a * b !in {3, 5, 7, 17, 31, 151}
  {
    if a >= 13 {
      assert a * b >= 13 * b;
    } else {
      assert a == 2 || a == 3 || a == 4 || a == 5 || a == 6 || a == 7 || a == 8 || a == 9 || a == 10 ||
             a == 11 || a == 12;
    }
  }

  lemma AtLeastTwo(p: nat, r: nat)
    requires 1 < r < p
    ensures p == r * (p / r) + p % r && (p % r == 0 ==> p / r >= 2)
  {
    var t := p / r;
    assert t == 0 ==> r * t == 0;
    assert t == 1 ==> r * t == r;
  }

  lemma NoRemainder(p: nat, r: nat)
    requires Prime(p) && 1 < r < p
    ensures p % r != 0
  {
    AtLeastTwo(p, r);
    var t := p / r;
    assert t >= 2 ==> r * t != p;
  }

  lemma Remainder(p: int, r: int, s: int, m: int, t: int, rest: int)
    requires p == r * t + rest && r * s == p * m
    ensures rest * s == p * (s - t * m)
  {
    assert p * s == (r * t) * s + rest * s;
    assert (r * t) * s == t * (r * s) == t * (p * m) == p * (t * m);
    assert p * (s - t * m) == p * s - p * (t * m);
  }

  // A prime that divides r * s, with 0 < r < p, divides s.
  lemma {:induction false} Euclid(p: nat, r: nat, s: nat, m: int) returns (x: int)
    requires Prime(p) && 0 < r < p && r * s == p * m
    ensures s == p * x
    decreases r
  {
    if r == 1 {
      x := m;
    } else {
      NoRemainder(p, r);
      hide Prime;
      var t, rest := p / r, p % r;
      Remainder(p, r, s, m, t, rest);
      x := Euclid(p, rest, s, s - t * m);
    }
  }

  // One of the two factors is a multiple of p.
  lemma Divides(p: nat, g: nat, q: nat, n: nat) returns (first: bool, x: int)
    requires Prime(p) && g * q == p * n
    ensures if first then g == p * x else q == p * x
  {
    assert p > 0;
    hide Prime;
    var r, t := g % p, g / p;
    first, x := true, t;
    if r != 0 {
      first := false;
      Leftover(p, g, q, n, t, r);
      x := Euclid(p, r, q, n - t * q);
    }
  }

  lemma Leftover(p: int, g: int, q: int, n: int, t: int, r: int)
    requires g == p * t + r && g * q == p * n
    ensures r * q == p * (n - t * q)
  {
    assert g * q == (p * t) * q + r * q;
    assert (p * t) * q == p * (t * q);
    assert p * (n - t * q) == p * n - p * (t * q);
  }

  lemma TakeOut(g: int, p: int, x: int, n: int)
    requires p > 0 && g * (p * x) == p * n
    ensures g * x == n
  {
    assert g * (p * x) == p * (g * x);
    assert p * (g * x - n) == 0;
    assert g * x - n >= 1 ==> p * (g * x - n) >= p;
    assert g * x - n <= -1 ==> p * (g * x - n) <= -p;
  }
}
