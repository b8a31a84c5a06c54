// The eight slot retransmission ring against the history it forgets.

module Ring {
  import opened Bytes
  import opened BridgeModel

  // What slot k holds after every body of hist was stored under its number modulo 8.
  function SlotOf(hist: seq<Body>, k: num3): seq<byte> {
    if hist == [] then []
    else if (|hist| - 1) % WINDOW == k then hist[|hist| - 1]
    else SlotOf(hist[..|hist| - 1], k)
  }

  lemma SlotStored(hist: seq<Body>, body: Body, k: num3)
    ensures SlotOf(hist + [body], k) == if |hist| % WINDOW == k then body else SlotOf(hist, k)
  {
    assert (hist + [body])[..|hist + [body]| - 1] == hist;
  }

  lemma {:induction false} SlotRecent(hist: seq<Body>, j: nat)
    requires 1 <= j <= WINDOW && j <= |hist|
    ensures SlotOf(hist, (|hist| - j) % WINDOW) == hist[|hist| - j]
    decreases j
  {
    if j > 1 {
      SlotRecent(hist[..|hist| - 1], j - 1);
    }
  }

  lemma {:induction false} SlotEmpty(hist: seq<Body>, k: num3)
    requires |hist| <= k
    ensures SlotOf(hist, k) == []
    decreases |hist|
  {
    if hist != [] {
      SlotEmpty(hist[..|hist| - 1], k);
    }
  }

  // Slots from number n up to the next number to send, empty ones skipped.
  function Walk(hist: seq<Body>, n: num3): seq<Body>
    decreases Behind(|hist|, n)
  {
    if n == |hist| % WINDOW then []
    else
      var slot := SlotOf(hist, n);
      (if slot == [] then [] else [slot]) + Walk(hist, (n + 1) % WINDOW)
  }

  // The bodies resent so far, after slot n was visited.
  function Visit(hist: seq<Body>, n: num3, done: seq<Body>): seq<Body> {
    var slot := SlotOf(hist, n);
    if slot == [] then done else done + [slot]
  }

  lemma WalkOn(hist: seq<Body>, n: num3, done: seq<Body>)
    requires n != |hist| % WINDOW
    ensures done + Walk(hist, n) == Visit(hist, n, done) + Walk(hist, (n + 1) % WINDOW)
  {
    var slot := SlotOf(hist, n);
    if slot == [] {
      assert [] + Walk(hist, (n + 1) % WINDOW) == Walk(hist, (n + 1) % WINDOW);
    }
  }

  lemma WalkEnds(hist: seq<Body>, n: num3)
    ensures n == |hist| % WINDOW ==> Walk(hist, n) == []
  {
  }

  lemma ResendOne(st: State, hist: seq<Body>, n: num3, done: seq<Body>)
    ensures Resend(st, Visit(hist, n, done)) ==
            if SlotOf(hist, n) == [] then Resend(st, done) else Send(Resend(st, done), Again(SlotOf(hist, n)))
  {
    var slot := SlotOf(hist, n);
    if slot != [] {
      assert (done + [slot])[..|done + [slot]| - 1] == done;
    }
  }

  lemma BehindStep(n: nat, from: num3)
    ensures Behind(n, from) == 0 <==> from == n % WINDOW
    ensures Behind(n, from) > 0 ==> Behind(n, (from + 1) % WINDOW) == Behind(n, from) - 1
  {
  }

  lemma BehindPlace(n: nat, from: num3)
    ensures Behind(n, from) <= n ==> (n - Behind(n, from)) % WINDOW == from
    ensures Behind(n, from) > n ==> n <= from
  {
    var q, frm := n / WINDOW, n % WINDOW;
    assert n == WINDOW * q + frm;
    if Behind(n, from) <= n {
      assert n - Behind(n, from) == WINDOW * (if from <= frm then q else q - 1) + from;
    }
  }

  // The ring answers a NAK for number n with exactly the last min(d, |H|) bodies of the history
  // H, in order, where d is how far n lies behind the next number, modulo 8.
  lemma {:induction false} RingAgrees(hist: seq<Body>, n: num3)
    ensures Walk(hist, n) == hist[|hist| - Back(|hist|, n)..]
    decreases Behind(|hist|, n)
  {
    hide Behind, SlotOf;
    var d := Behind(|hist|, n);
    BehindStep(|hist|, n);
    BehindPlace(|hist|, n);
    WalkEnds(hist, n);
    if d > 0 {
      RingAgrees(hist, (n + 1) % WINDOW);
      if d <= |hist| {
        SlotRecent(hist, d);
        assert hist[|hist| - d..] == [hist[|hist| - d]] + hist[|hist| - (d - 1)..];
      } else {
        SlotEmpty(hist, n);
      }
    }
  }
}
