// Joining a network: joinNetwork is issued again after a transient failure, and the wait for
// each attempt is bounded.

module Join {
  import opened Bytes

  const STACK_STATUS_HANDLER: byte := 0x19
  const NETWORK_UP: byte := 0x90

  // What the co-processor does: whether it takes the k-th joinNetwork, and what the p-th poll
  // brings (id 0 when there is no callback).
  datatype Callback = Callback(id: byte, status: byte)
  datatype Radio = Radio(takes: nat -> bool, polls: nat -> Callback)

  datatype Event = JoinSent(taken: bool) | Polled(c: Callback)

  predicate Up(c: Callback) { c.id == STACK_STATUS_HANDLER && c.status == NETWORK_UP }

  // Waiting longer will not help.
  predicate Terminal(status: byte) {
    status == 0x94 || status == 0xAB || status == 0x98 || status == 0xAD || status == 0xAF
  }

  // A lost frame rather than a misconfiguration.
  predicate Transient(status: byte) { status == 0xAD || status == 0x94 }

  predicate Again(c: Callback) { c.id == STACK_STATUS_HANDLER && Transient(c.status) }

  // The return code and everything that happened, from the k-th joinNetwork and p-th poll on.
  function Attempt(r: Radio, timeout: nat, left: nat, k: nat, p: nat): (int, seq<Event>)
    decreases left, 4 * timeout + 1
  {
    if !r.takes(k) then (1, [JoinSent(false)])
    else
      var (rc, t) := Wait(r, timeout, left, k, p, 0);
      (rc, [JoinSent(true)] + t)
  }

  function Wait(r: Radio, timeout: nat, left: nat, k: nat, p: nat, i: nat): (int, seq<Event>)
    requires i <= 4 * timeout
    decreases left, 4 * timeout - i
  {
    if i == 4 * timeout then (1, [])
    else
      var c := r.polls(p);
      var (rc, t) :=
        if Up(c) then (0, [])
        else if c.id == STACK_STATUS_HANDLER && Terminal(c.status) then
          if Transient(c.status) && left > 0 then Attempt(r, timeout, left - 1, k + 1, p + 1) else (1, [])
        else Wait(r, timeout, left, k, p + 1, i + 1);
      (rc, [Polled(c)] + t)
  }

  // What has happened so far, then the rest.
  function After(t: seq<Event>, rest: (int, seq<Event>)): (int, seq<Event>) {
    (rest.0, t + rest.1)
  }

  lemma AfterOne(t: seq<Event>, e: Event, rest: (int, seq<Event>))
    ensures After(t, (rest.0, [e] + rest.1)) == After(t + [e], rest)
  {
    assert t + ([e] + rest.1) == t + [e] + rest.1;
  }

  lemma AfterNothing(t: seq<Event>, rest: (int, seq<Event>))
    ensures After([], rest) == rest
    ensures After(t, (rest.0, [])) == (rest.0, t)
  {
    assert [] + rest.1 == rest.1 && t + [] == t;
  }

  method JoinNetwork(r: Radio, joinTimeout: nat, joinRetries: nat) returns (rc: int, trace: seq<Event>)
    ensures (rc, trace) == Attempt(r, joinTimeout, joinRetries, 0, 0)
  {
    hide After;
    ghost var whole := Attempt(r, joinTimeout, joinRetries, 0, 0);
    var attemptsLeft: int := joinRetries;
    var k, p := 0, 0;
    trace := [];
    rc := 1;
    var attempt := true;
    AfterNothing(trace, whole);
    while attempt
      invariant attempt ==> attemptsLeft >= 0 && rc == 1
      invariant attempt ==> whole == After(trace, Attempt(r, joinTimeout, attemptsLeft, k, p))
      invariant !attempt ==> (rc, trace) == whole
      decreases if attempt then attemptsLeft + 1 else 0
    {
      attempt := false;
      var taken := r.takes(k);
      ghost var left := attemptsLeft;
      if taken {
        AfterOne(trace, JoinSent(taken), Wait(r, joinTimeout, left, k, p, 0));
      } else {
        AfterOne(trace, JoinSent(taken), (1, []));
        AfterNothing(trace + [JoinSent(taken)], (1, []));
        assert [JoinSent(taken)] + [] == [JoinSent(taken)];
      }
      trace := trace + [JoinSent(taken)];
      if !taken {
        return;
      }
      var i := 0;
      while i < joinTimeout * 4
        invariant 0 <= i <= joinTimeout * 4 && attemptsLeft == left && !attempt && rc == 1
        invariant whole == After(trace, Wait(r, joinTimeout, left, k, p, i))
      {
        var c := r.polls(p);
        ghost var rest := Wait(r, joinTimeout, left, k, p, i);
        AfterOne(trace, Polled(c), (rest.0, rest.1[1..]));
        AfterNothing(trace + [Polled(c)], rest);
        assert rest.1 == [Polled(c)] + rest.1[1..];
        p := p + 1;
        trace := trace + [Polled(c)];
        i := i + 1;
        if c.id == 0 {
          continue;
        }
        if c.id == STACK_STATUS_HANDLER {
          if c.status == NETWORK_UP {
            return 0, trace;
          }
          if Terminal(c.status) {
            if Transient(c.status) {
              attemptsLeft := attemptsLeft - 1;
              if attemptsLeft + 1 > 0 {
                k := k + 1;
                attempt := true;
              }
            }
            break;
          }
        }
      }
      AfterNothing(trace, (1, []));
    }
  }

  // ----- What every run satisfies -----

  function Joins(t: seq<Event>): nat {
    if t == [] then 0 else (if t[0].JoinSent? then 1 else 0) + Joins(t[1..])
  }

  // A later joinNetwork directly follows a transient failure.
  predicate Reissued(t: seq<Event>) {
    forall i :: 1 <= i < |t| && t[i].JoinSent? ==> t[i - 1].Polled? && Again(t[i - 1].c)
  }

  // Success is reported exactly when the last thing seen is NETWORK_UP, and never missed.
  predicate Honest(rc: int, t: seq<Event>) {
    && (rc == 0 || rc == 1)
    && (rc == 0 <==> t != [] && t[|t| - 1].Polled? && Up(t[|t| - 1].c))
    && forall i :: 0 <= i < |t| - 1 && t[i].Polled? ==> !Up(t[i].c)
  }

  // One more poll in front.
  lemma PollFirst(c: Callback, rc: int, t: seq<Event>)
    requires Reissued(t) && (if t == [] then Up(c) == (rc == 0) && (rc == 0 || rc == 1) else !Up(c) && Honest(rc, t))
    requires t != [] && t[0].JoinSent? ==> Again(c)
    ensures Reissued([Polled(c)] + t) && Honest(rc, [Polled(c)] + t)
    ensures Joins([Polled(c)] + t) == Joins(t)
  {
    var all := [Polled(c)] + t;
    assert all[1..] == t;
    assert forall i :: 1 <= i < |all| ==> all[i] == t[i - 1];
  }

  lemma {:induction false} AttemptRules(r: Radio, timeout: nat, left: nat, k: nat, p: nat)
    ensures var (rc, t) := Attempt(r, timeout, left, k, p);
            && 1 <= Joins(t) <= 1 + left && t != [] && t[0].JoinSent?
            && Reissued(t) && Honest(rc, t)
    decreases left, 4 * timeout + 1
  {
    if r.takes(k) {
      WaitRules(r, timeout, left, k, p, 0);
      var (rc, t) := Wait(r, timeout, left, k, p, 0);
      assert ([JoinSent(true)] + t)[1..] == t;
    }
  }

  lemma {:induction false} WaitRules(r: Radio, timeout: nat, left: nat, k: nat, p: nat, i: nat)
    requires i <= 4 * timeout
    ensures var (rc, t) := Wait(r, timeout, left, k, p, i);
            && Joins(t) <= left && (t != [] ==> t[0].Polled?)
            && Reissued(t) && Honest(rc, t)
    decreases left, 4 * timeout - i
  {
    if i < 4 * timeout {
      var c := r.polls(p);
      var (rc, all) := Wait(r, timeout, left, k, p, i);
      var t := all[1..];
      assert all == [Polled(c)] + t;
      if Up(c) {
      } else if c.id == STACK_STATUS_HANDLER && Terminal(c.status) {
        if Transient(c.status) && left > 0 {
          AttemptRules(r, timeout, left - 1, k + 1, p + 1);
        }
      } else {
        WaitRules(r, timeout, left, k, p + 1, i + 1);
      }
      hide Wait, Attempt, Reissued, Honest, Joins;
      PollFirst(c, rc, t);
    }
  }

  // One joinNetwork and four polls a second for each attempt.
  function Longest(timeout: nat, left: nat): nat {
    4 * timeout + 1 + if left == 0 then 0 else Longest(timeout, left - 1)
  }

  lemma {:induction false} AttemptEnds(r: Radio, timeout: nat, left: nat, k: nat, p: nat)
    ensures |Attempt(r, timeout, left, k, p).1| <= Longest(timeout, left)
    decreases left, 4 * timeout + 1
  {
    if r.takes(k) {
      WaitEnds(r, timeout, left, k, p, 0);
    }
  }

  lemma {:induction false} WaitEnds(r: Radio, timeout: nat, left: nat, k: nat, p: nat, i: nat)
    requires i <= 4 * timeout
    ensures |Wait(r, timeout, left, k, p, i).1| <= Longest(timeout, left) - 1 - i
    decreases left, 4 * timeout - i
  {
    if i < 4 * timeout {
      var c := r.polls(p);
      if !Up(c) {
        if c.id == STACK_STATUS_HANDLER && Terminal(c.status) {
          if Transient(c.status) && left > 0 {
            AttemptEnds(r, timeout, left - 1, k + 1, p + 1);
          }
        } else {
          WaitEnds(r, timeout, left, k, p + 1, i + 1);
        }
      }
    }
  }

  // ----- When it tries again, and when it gives up, by the status bytes themselves -----

  predicate Status(e: Event, status: byte) { e.Polled? && e.c == Callback(0x19, status) }

  predicate LostFrame(e: Event) { Status(e, 0xAD) || Status(e, 0x94) }

  predicate Hopeless(e: Event) { Status(e, 0xAB) || Status(e, 0x98) || Status(e, 0xAF) }

  predicate Settles(e: Event) { Status(e, 0x90) || LostFrame(e) || Hopeless(e) }

  // After a lost frame the next event is another joinNetwork exactly while fewer than n were
  // sent before it; and nothing follows a lost frame otherwise, a hopeless status or a refusal.
  ghost predicate RetriedAt(t: seq<Event>, n: int, i: nat)
    requires i < |t|
  {
    && (LostFrame(t[i]) ==> ((i + 1 < |t| && t[i + 1].JoinSent?) <==> Joins(t[..i]) < n))
    && (LostFrame(t[i]) && i + 1 < |t| ==> t[i + 1].JoinSent?)
    && (Hopeless(t[i]) || t[i] == JoinSent(false) ==> i + 1 == |t|)
  }

  ghost predicate Retried(t: seq<Event>, n: int) {
    forall i :: 0 <= i < |t| ==> RetriedAt(t, n, i)
  }

  lemma JoinsFirst(e: Event, t: seq<Event>, i: nat)
    requires i <= |t|
    ensures Joins(([e] + t)[..i + 1]) == (if e.JoinSent? then 1 else 0) + Joins(t[..i])
    ensures Joins(([e] + t)[..0]) == 0
  {
    assert ([e] + t)[..i + 1][1..] == t[..i];
  }

  lemma RetriedLater(e: Event, t: seq<Event>, n: int, i: nat)
    requires i < |t| && RetriedAt(t, n - (if e.JoinSent? then 1 else 0), i)
    ensures RetriedAt([e] + t, n, i + 1)
  {
    JoinsFirst(e, t, i);
    hide Joins, LostFrame, Hopeless;
    var all := [e] + t;
    assert all[i + 1] == t[i] && (i + 1 < |t| ==> all[i + 2] == t[i + 1]);
  }

  lemma RetriedFirst(e: Event, t: seq<Event>, n: int)
    requires Retried(t, n - (if e.JoinSent? then 1 else 0))
    requires LostFrame(e) ==> ((t != [] && t[0].JoinSent?) <==> 0 < n) && (t != [] ==> t[0].JoinSent?)
    requires Hopeless(e) || e == JoinSent(false) ==> t == []
    ensures Retried([e] + t, n)
  {
    var all := [e] + t;
    JoinsFirst(e, t, 0);
    assert all[0] == e && (|all| > 1 ==> all[1] == t[0]);
    assert RetriedAt(all, n, 0);
    hide RetriedAt;
    forall i | 0 <= i < |all|
      ensures RetriedAt(all, n, i)
    {
      if i > 0 {
        RetriedLater(e, t, n, i - 1);
      }
    }
  }

  // How the k-th wait and what follows it ends without success, i polls into it.
  ghost predicate GaveUp(t: seq<Event>, timeout: nat, left: int, i: nat) {
    || (t != [] && (t[|t| - 1] == JoinSent(false) || Hopeless(t[|t| - 1])))
    || (t != [] && LostFrame(t[|t| - 1]) && Joins(t) == left)
    || (|t| + i == 4 * timeout && Silent(t))
    || Exhausted(t, 4 * timeout)
  }

  // Polls that settled nothing.
  predicate Silent(t: seq<Event>) {
    forall j :: 0 <= j < |t| ==> t[j].Polled? && !Settles(t[j])
  }

  // It ends with a joinNetwork that was taken and n polls that settled nothing.
  predicate Exhausted(t: seq<Event>, n: nat) {
    |t| > n && t[|t| - n - 1] == JoinSent(true) && Silent(t[|t| - n..])
  }

  lemma ExhaustedFirst(e: Event, t: seq<Event>, n: nat)
    requires Exhausted(t, n)
    ensures Exhausted([e] + t, n)
  {
    var all := [e] + t;
    assert all[|all| - n..] == t[|t| - n..];
  }

  lemma SilentFirst(e: Event, t: seq<Event>)
    requires Silent(t) && e.Polled? && !Settles(e)
    ensures Silent([e] + t)
  {
  }

  lemma JoinsOne(e: Event, t: seq<Event>)
    ensures Joins([e] + t) == (if e.JoinSent? then 1 else 0) + Joins(t)
  {
    assert ([e] + t)[1..] == t;
  }

  // One more poll in front of a wait that gave up, or of another attempt.
  lemma GaveUpFirst(c: Callback, t: seq<Event>, timeout: nat, left: int, i: nat)
    requires i < 4 * timeout && GaveUp(t, timeout, left, i + 1) && !Settles(Polled(c))
    ensures GaveUp([Polled(c)] + t, timeout, left, i)
  {
    JoinsOne(Polled(c), t);
    hide Settles, Joins;
    if |t| + i + 1 == 4 * timeout && Silent(t) {
      SilentFirst(Polled(c), t);
    } else if Exhausted(t, 4 * timeout) {
      ExhaustedFirst(Polled(c), t, 4 * timeout);
    }
  }

  // How a whole attempt ends without success.
  ghost predicate Failed(t: seq<Event>, timeout: nat, left: int) {
    || (t != [] && (t[|t| - 1] == JoinSent(false) || Hopeless(t[|t| - 1])))
    || (t != [] && LostFrame(t[|t| - 1]) && Joins(t) == left + 1)
    || Exhausted(t, 4 * timeout)
  }

  lemma FailedAfterPoll(c: Callback, t: seq<Event>, timeout: nat, left: int, i: nat)
    requires Failed(t, timeout, left - 1)
    ensures GaveUp([Polled(c)] + t, timeout, left, i)
  {
    JoinsOne(Polled(c), t);
    hide Joins;
    if Exhausted(t, 4 * timeout) {
      ExhaustedFirst(Polled(c), t, 4 * timeout);
    }
  }

  lemma FailedAfterJoin(t: seq<Event>, timeout: nat, left: int)
    requires GaveUp(t, timeout, left, 0)
    ensures Failed([JoinSent(true)] + t, timeout, left)
  {
    var all := [JoinSent(true)] + t;
    JoinsOne(JoinSent(true), t);
    hide Joins;
    if |t| == 4 * timeout && Silent(t) {
      assert all[|all| - |t|..] == t;
      assert Exhausted(all, 4 * timeout);
    } else if Exhausted(t, 4 * timeout) {
      ExhaustedFirst(JoinSent(true), t, 4 * timeout);
    }
  }

  lemma RefusedOnly(left: int, timeout: nat)
    ensures Retried([JoinSent(false)], left) && Failed([JoinSent(false)], timeout, left)
  {
    var t := [JoinSent(false)];
    assert !LostFrame(t[0]);
    hide LostFrame, Hopeless, Joins;
  }

  lemma NothingLeft(left: int, timeout: nat)
    ensures Retried([], left) && GaveUp([], timeout, left, 4 * timeout)
  {
  }

  // What the tests of the loop are about.
  lemma StatusBytes(c: Callback)
    ensures Up(c) <==> Status(Polled(c), 0x90)
    ensures c.id == STACK_STATUS_HANDLER && Transient(c.status) <==> LostFrame(Polled(c))
    ensures c.id == STACK_STATUS_HANDLER && Terminal(c.status) <==> LostFrame(Polled(c)) || Hopeless(Polled(c))
    ensures !(LostFrame(Polled(c)) && Hopeless(Polled(c))) && !(Up(c) && (LostFrame(Polled(c)) || Hopeless(Polled(c))))
  {
  }

  // Every run, at every point: joinNetwork is issued again after status 0xAD or 0x94 if and only
  // if at most retries were issued again before; and failure is reported for a refused
  // joinNetwork, for 0xAB, 0x98 or 0xAF, for a lost frame with no retry left, or after all polls
  // of the last attempt brought nothing that settles it.
  lemma {:induction false} AttemptRetries(r: Radio, timeout: nat, left: nat, k: nat, p: nat)
    ensures var (rc, t) := Attempt(r, timeout, left, k, p);
            && t != [] && t[0].JoinSent? && Retried(t, left + 1)
            && (rc == 1 ==> Failed(t, timeout, left))
    decreases left, 4 * timeout + 1
  {
    var (rc, t) := Attempt(r, timeout, left, k, p);
    if r.takes(k) {
      WaitRetries(r, timeout, left, k, p, 0);
      var (rc0, t0) := Wait(r, timeout, left, k, p, 0);
      assert t == [JoinSent(true)] + t0 && rc == rc0;
      hide *;
      RetriedFirst(JoinSent(true), t0, left + 1);
      if rc == 1 {
        FailedAfterJoin(t0, timeout, left);
      }
    } else {
      assert t == [JoinSent(false)];
      hide *;
      RefusedOnly(left + 1, timeout);
      RefusedOnly(left, timeout);
    }
  }

  lemma {:induction false} WaitRetries(r: Radio, timeout: nat, left: nat, k: nat, p: nat, i: nat)
    requires i <= 4 * timeout
    ensures var (rc, t) := Wait(r, timeout, left, k, p, i);
            && (t != [] ==> t[0].Polled?) && Retried(t, left)
            && (rc == 1 ==> GaveUp(t, timeout, left, i))
    decreases left, 4 * timeout - i
  {
    NothingLeft(left, timeout);
    if i < 4 * timeout {
      var c := r.polls(p);
      var (rc, all) := Wait(r, timeout, left, k, p, i);
      var t := all[1..];
      assert all == [Polled(c)] + t;
      StatusBytes(c);
      hide Retried, GaveUp, Failed, Joins, Up, Terminal, Transient, Exhausted, Silent;
      if c.id == STACK_STATUS_HANDLER && Transient(c.status) && left > 0 {
        AttemptRetries(r, timeout, left - 1, k + 1, p + 1);
        assert (rc, t) == Attempt(r, timeout, left - 1, k + 1, p + 1);
        if rc == 1 {
          FailedAfterPoll(c, t, timeout, left, i);
        }
      } else if Up(c) || (c.id == STACK_STATUS_HANDLER && Terminal(c.status)) {
        assert t == [] && all == [Polled(c)];
        LastWord(c, timeout, left, i);
      } else {
        WaitRetries(r, timeout, left, k, p + 1, i + 1);
        assert (rc, t) == Wait(r, timeout, left, k, p + 1, i + 1);
        if rc == 1 {
          GaveUpFirst(c, t, timeout, left, i);
        }
      }
      RetriedFirst(Polled(c), t, left);
    }
  }

  lemma LastWord(c: Callback, timeout: nat, left: nat, i: nat)
    ensures Hopeless(Polled(c)) || (LostFrame(Polled(c)) && left == 0) ==> GaveUp([Polled(c)], timeout, left, i)
  {
    JoinsOne(Polled(c), []);
    assert [Polled(c)] + [] == [Polled(c)];
  }

  // ----- What happened is what the co-processor did -----

  // Each joinNetwork and poll of the trace is the radio's own, from the k-th and p-th on.
  ghost predicate GenuineAt(r: Radio, t: seq<Event>, k: nat, p: nat, i: nat)
    requires i < |t|
  {
    t[i] == if t[i].JoinSent? then JoinSent(r.takes(k + Joins(t[..i]))) else Polled(r.polls(p + Polls(t[..i])))
  }

  ghost predicate Genuine(r: Radio, t: seq<Event>, k: nat, p: nat) {
    forall i :: 0 <= i < |t| ==> GenuineAt(r, t, k, p, i)
  }

  function Polls(t: seq<Event>): nat {
    if t == [] then 0 else (if t[0].Polled? then 1 else 0) + Polls(t[1..])
  }

  lemma PollsFirst(e: Event, t: seq<Event>, i: nat)
    requires i <= |t|
    ensures Polls(([e] + t)[..i + 1]) == (if e.Polled? then 1 else 0) + Polls(t[..i])
    ensures Polls(([e] + t)[..0]) == 0
  {
    assert ([e] + t)[..i + 1][1..] == t[..i];
  }

  lemma GenuineLater(r: Radio, e: Event, t: seq<Event>, k: nat, p: nat, i: nat)
    requires i < |t|
    requires if e.JoinSent? then GenuineAt(r, t, k + 1, p, i) else GenuineAt(r, t, k, p + 1, i)
    ensures GenuineAt(r, [e] + t, k, p, i + 1)
  {
    JoinsFirst(e, t, i);
    PollsFirst(e, t, i);
    hide Joins, Polls;
    assert ([e] + t)[i + 1] == t[i];
  }

  lemma GenuineFirst(r: Radio, e: Event, t: seq<Event>, k: nat, p: nat)
    requires e == if e.JoinSent? then JoinSent(r.takes(k)) else Polled(r.polls(p))
    requires if e.JoinSent? then Genuine(r, t, k + 1, p) else Genuine(r, t, k, p + 1)
    ensures Genuine(r, [e] + t, k, p)
  {
    var all := [e] + t;
    JoinsFirst(e, t, 0);
    PollsFirst(e, t, 0);
    assert GenuineAt(r, all, k, p, 0);
    hide GenuineAt;
    forall i | 0 <= i < |all|
      ensures GenuineAt(r, all, k, p, i)
    {
      if i > 0 {
        GenuineLater(r, e, t, k, p, i - 1);
      }
    }
  }

  lemma {:induction false} AttemptGenuine(r: Radio, timeout: nat, left: nat, k: nat, p: nat)
    ensures Genuine(r, Attempt(r, timeout, left, k, p).1, k, p)
    decreases left, 4 * timeout + 1
  {
    var t := Attempt(r, timeout, left, k, p).1;
    if r.takes(k) {
      var t0 := Wait(r, timeout, left, k, p, 0).1;
      WaitGenuine(r, timeout, left, k, p, 0);
      assert t == [JoinSent(true)] + t0;
      hide *;
      GenuineFirst(r, JoinSent(true), t0, k, p);
    } else {
      assert t == [JoinSent(false)] + [];
      assert Genuine(r, [], k + 1, p);
      hide *;
      GenuineFirst(r, JoinSent(false), [], k, p);
    }
  }

  lemma {:induction false} WaitGenuine(r: Radio, timeout: nat, left: nat, k: nat, p: nat, i: nat)
    requires i <= 4 * timeout
    ensures Genuine(r, Wait(r, timeout, left, k, p, i).1, k + 1, p)
    decreases left, 4 * timeout - i
  {
    if i < 4 * timeout {
      var c := r.polls(p);
      var all := Wait(r, timeout, left, k, p, i).1;
      var t := all[1..];
      assert all == [Polled(c)] + t;
      assert Genuine(r, [], k + 1, p + 1);
      hide Genuine, GenuineAt;
      if Up(c) {
      } else if c.id == STACK_STATUS_HANDLER && Terminal(c.status) {
        if Transient(c.status) && left > 0 {
          AttemptGenuine(r, timeout, left - 1, k + 1, p + 1);
        }
      } else {
        WaitGenuine(r, timeout, left, k, p + 1, i + 1);
      }
      hide *;
      GenuineFirst(r, Polled(c), t, k + 1, p);
    }
  }
}
