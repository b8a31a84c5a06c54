// When a NAK recovers what a client has lost.

module Recovery {
  import opened Bytes
  import opened Ash
  import opened Whitening
  import opened Coprocessor
  import opened BridgeModel
  import opened BridgeRuns
  import opened Transparency

  // The client's NAK for the frame it expects next.
  function NakCtrl(next: num3): byte { 0xA0 | (next as byte) }

  lemma NakFields(next: num3)
    ensures KindOf(NakCtrl(next)) == Nak && AckOf(NakCtrl(next)) == next
  {
    var n := next as byte;
    assert n < 8;
    assert (0xA0 | n) & 0xE0 == 0xA0 && (0xA0 | n) & 0x07 == n && 0xA0 | n != 0xC0;
  }

  // The payloads of the frames that are DATA sent again.
  function Repeats(frames: seq<Body>): seq<seq<byte>> {
    if frames == [] then []
    else
      var f := frames[|frames| - 1];
      Repeats(frames[..|frames| - 1]) + if KindOf(f[0]) == DataAgain then [Mask(f[1..])] else []
  }

  function AllAgain(bodies: seq<Body>): seq<Body> {
    if bodies == [] then [] else AllAgain(bodies[..|bodies| - 1]) + [Again(bodies[|bodies| - 1])]
  }

  ghost predicate AllGood(bodies: seq<Body>) { forall b :: b in bodies ==> GoodBody(b) }

  lemma RepeatsMore(frames: seq<Body>, f: Body)
    ensures Repeats(frames + [f]) == Repeats(frames) + if KindOf(f[0]) == DataAgain then [Mask(f[1..])] else []
  {
    hide KindOf, Mask;
    assert (frames + [f])[..|frames + [f]| - 1] == frames;
  }

  lemma AgainCarries(b: Body)
    requires GoodBody(b)
    ensures KindOf(Again(b)[0]) == DataAgain && Again(b)[1..] == b[1..] && |Again(b)| <= 140
  {
    RetryFields(b[0]);
    hide KindOf, Retry;
  }

  // Resending writes exactly those bodies, with the retransmit bit.
  lemma {:induction false} ResendWrites(st: State, bodies: seq<Body>)
    requires st.connected && AllGood(bodies)
    ensures Written(Resend(st, bodies).log) == Written(st.log) + AllAgain(bodies)
    ensures Repeats(AllAgain(bodies)) == Payloads(bodies) && |Payloads(bodies)| == |bodies|
    decreases |bodies|
  {
    hide KindOf, Mask, Again, Written, GoodBody;
    if bodies == [] {
      NothingMore(Written(st.log));
    } else {
      var init, b := bodies[..|bodies| - 1], bodies[|bodies| - 1];
      ResendWrites(st, init);
      ResendKeeps(st, init);
      AgainCarries(b);
      assert GoodBody(b);
      GoodKind(b);
      Grow(Resend(st, init).log, Sent(Again(b)));
      RepeatsMore(AllAgain(init), Again(b));
      assert Written(st.log) + AllAgain(init) + [Again(b)] == Written(st.log) + AllAgain(bodies);
    }
  }

  lemma GoodKind(b: Body)
    requires GoodBody(b)
    ensures KindOf(b[0]) == Data
  {
  }

  lemma {:induction false} PayloadsFrom(bodies: seq<Body>, m: nat)
    requires AllGood(bodies) && m <= |bodies|
    ensures |Payloads(bodies)| == |bodies| && Payloads(bodies)[m..] == Payloads(bodies[m..])
    decreases |bodies|
  {
    hide KindOf, Mask;
    if bodies != [] {
      var init, b := bodies[..|bodies| - 1], bodies[|bodies| - 1];
      assert GoodBody(b);
      if m < |bodies| {
        PayloadsFrom(init, m);
        assert bodies[m..] == init[m..] + [b];
        PayloadsGrow(init[m..], b);
      } else {
        PayloadsFrom(init, 0);
        assert bodies[m..] == [];
      }
    }
  }

  // A client that is k behind is taken to be k modulo 8 behind.
  lemma BackModulo(n: nat, m: nat)
    requires m <= n
    ensures Back(n, m % WINDOW) == (n - m) % WINDOW
  {
    var q, r, p, s := n / WINDOW, n % WINDOW, m / WINDOW, m % WINDOW;
    assert n == WINDOW * q + r && m == WINDOW * p + s;
    if s <= r {
      assert n - m == WINDOW * (q - p) + (r - s);
    } else {
      assert n - m == WINDOW * (q - p - 1) + (r + WINDOW - s);
    }
  }

  lemma CalmGood(st: State)
    requires Calm(st)
    ensures AllGood(st.hist)
  {
    hide Lawful, ViewOf, GoodBody;
  }

  lemma TailGood(bodies: seq<Body>, k: nat)
    requires AllGood(bodies) && k <= |bodies|
    ensures AllGood(bodies[k..])
  {
  }

  lemma NoneAgain()
    ensures AllAgain([]) == []
  {
  }

  lemma NakHandled(env: Env, st: State, next: num3)
    ensures Handle(env, st, [NakCtrl(next)]) == Resend(st, st.hist[|st.hist| - Back(|st.hist|, next)..])
  {
    NakFields(next);
    hide KindOf, AckOf, NakCtrl, Resend, Back, HandleData, Reset;
  }

  // The last k payloads, k being how many are missing modulo 8, are the missing ones exactly
  // if at most 7 are.
  lemma LastAreMissing(bodies: seq<Body>, m: nat, k: nat)
    requires AllGood(bodies) && m <= |bodies| && k == (|bodies| - m) % 8
    ensures |Payloads(bodies)| == |bodies|
    ensures Payloads(bodies[|bodies| - k..]) == Payloads(bodies)[m..] <==> |bodies| - m <= 7
  {
    PayloadsFrom(bodies, m);
    PayloadsFrom(bodies, |bodies| - k);
    hide *;
  }

  lemma NakWrites(env: Env, st: State, m: nat)
    requires st.connected && AllGood(st.hist) && m <= |st.hist|
    ensures var st1 := Handle(env, st, [NakCtrl(m % 8)]);
            var before, after := Written(st.log), Written(st1.log);
            && before <= after
            && after[|before|..] == AllAgain(st.hist[|st.hist| - (|st.hist| - m) % 8..])
            && Repeats(after[|before|..]) == Payloads(st.hist[|st.hist| - (|st.hist| - m) % 8..])
  {
    hide *;
    var k := (|st.hist| - m) % 8;
    BackEight(|st.hist|, m);
    NakHandled(env, st, m % 8);
    TailGood(st.hist, |st.hist| - k);
    ResendWrites(st, st.hist[|st.hist| - k..]);
    TailOfSum(Written(st.log), AllAgain(st.hist[|st.hist| - k..]));
  }

  lemma BackEight(n: nat, m: nat)
    requires m <= n
    ensures Back(n, m % 8) == (n - m) % 8
  {
    BackModulo(n, m);
  }

  lemma TailOfSum<T>(a: seq<T>, b: seq<T>)
    ensures a <= a + b && (a + b)[|a|..] == b && (b == [] ==> a + b == a)
  {
  }

  // The client holds the first m payloads of the session and NAKs the next number: what it then
  // reads back are exactly the payloads it misses, if and only if it is at most 7 behind. A
  // multiple of 8 behind it gets nothing.
  lemma NakRecovers(env: Env, n: Ncp, steps: seq<Iteration>, m: nat)
    requires RunLoop(env, n, steps).connected && m <= |RunLoop(env, n, steps).hist|
    ensures var st := RunLoop(env, n, steps);
            var st1 := Handle(env, st, [NakCtrl(m % 8)]);
            var before, after := Written(st.log), Written(st1.log);
            && PeerFrames(IDLE, Tcp(st1.log)) == after
            && before <= after
            && |Payloads(st.hist)| == |st.hist|
            && (Repeats(after[|before|..]) == Payloads(st.hist)[m..] <==> |st.hist| - m <= 7)
            && ((|st.hist| - m) % 8 == 0 ==> after == before)
  {
    hide *;
    var st := RunLoop(env, n, steps);
    RunCalm(env, n, steps);
    CalmGood(st);
    NakWrites(env, st, m);
    LastAreMissing(st.hist, m, (|st.hist| - m) % 8);
    var st1 := Handle(env, st, [NakCtrl(m % 8)]);
    PeerSeesFrames(st1.log);
    if (|st.hist| - m) % 8 == 0 {
      NoneAgain();
      assert st.hist[|st.hist|..] == [];
      WholePrefix(Written(st.log), Written(st1.log));
    }
  }

  lemma WholePrefix<T>(a: seq<T>, b: seq<T>)
    requires a <= b && b[|a|..] == []
    ensures b == a
  {
  }
}
