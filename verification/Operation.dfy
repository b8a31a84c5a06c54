// The daemon in operation: the bridge taken through any list of turns, and the port through any
// list of commands and resets. What is proved of all runs of the models holds of them.

module Operation {
  import opened Bytes
  import opened Ash
  import opened Whitening
  import opened Coprocessor
  import opened Spi
  import opened BridgeModel
  import opened BridgeRuns
  import opened Transparency
  import opened Ring
  import opened Bridge

  lemma ValidMeans(b: AshBridge)
    requires b.Valid()
    ensures b.tcp == Tcp(b.abs.log) && (b.cli >= 0) == b.abs.connected
    ensures b.port.slave.ncp == b.abs.ncp && b.port.Quiet()
  {
    hide Tcp, Rand, SlotOf, Held;
  }

  lemma RunMeans(env: Env, n: Ncp, steps: seq<Iteration>)
    ensures var st := RunLoop(env, n, steps);
            && PeerFrames(IDLE, Tcp(st.log)) == Written(st.log)
            && Payloads(Written(st.log)) == (if st.connected then Replies(st.log) else [])
            && (Prompt(env.fw, env.wait) && !n.aborted ==> !st.ncp.aborted)
  {
    hide RunLoop, Written, Payloads, Replies, Tcp, Prompt;
    RunSettled(env, n, steps);
    PeerSeesFrames(RunLoop(env, n, steps).log);
    if Prompt(env.fw, env.wait) && !n.aborted {
      RunNeverAborts(env, n, steps);
    }
  }

  lemma RunOneMore(env: Env, n: Ncp, steps: seq<Iteration>, i: nat)
    requires i < |steps|
    ensures RunLoop(env, n, steps[..i + 1]) == Turn(env, RunLoop(env, n, steps[..i]), steps[i].arrival, steps[i].act)
    ensures RunLoop(env, n, steps[..0]) == Start(n)
  {
    hide Turn;
    assert steps[..i + 1][..i] == steps[..i];
  }

  // The event loop from its start. Each client accepted gets a file descriptor.
  method RunBridge(b: AshBridge, steps: seq<Iteration>, fds: seq<nat>)
    requires b.Valid() && b.abs == Start(b.port.slave.ncp) && |fds| == |steps|
    modifies b, b.port, b.sentBody, b.sentLen, b.rx
    ensures b.Valid() && b.abs == RunLoop(b.TheEnv(), old(b.port.slave.ncp), steps)
    ensures b.port.slave.ncp == b.abs.ncp && b.port.Quiet()
    ensures PeerFrames(IDLE, b.tcp) == Written(b.abs.log)
    ensures Payloads(Written(b.abs.log)) == if b.cli >= 0 then Replies(b.abs.log) else []
    ensures Prompt(b.port.fw, b.port.waitBytes) && !old(b.port.slave.ncp).aborted ==> !b.port.slave.ncp.aborted
  {
    hide *;
    ghost var env, n := b.TheEnv(), b.port.slave.ncp;
    assert steps[..0] == [];
    NoTurns(env, n);
    var i := 0;
    while i < |steps|
      invariant 0 <= i <= |steps| && b.Valid() && b.TheEnv() == env
      invariant b.abs == RunLoop(env, n, steps[..i])
    {
      RunOneMore(env, n, steps, i);
      b.LoopTurn(steps[i].arrival, fds[i], steps[i].act);
      i := i + 1;
    }
    assert steps[..i] == steps;
    RunMeans(env, n, steps);
    ValidMeans(b);
    EnvIs(b);
  }

  lemma NoTurns(env: Env, n: Ncp)
    ensures RunLoop(env, n, []) == Start(n)
  {
  }

  lemma EnvIs(b: AshBridge)
    ensures b.TheEnv().fw == b.port.fw && b.TheEnv().wait == b.port.waitBytes
  {
  }

  lemma UseOneMore(fw: Firmware, wait: nat, room: nat, n: Ncp, uses: seq<Use>, i: nat)
    requires i < |uses|
    ensures UseAll(fw, wait, room, n, uses[..i + 1]) ==
            match uses[i]
            case Issue(cmd, retry) => Exchange(fw, wait, room, UseAll(fw, wait, room, n, uses[..i]), cmd, retry).1
            case Restart => AfterReset(UseAll(fw, wait, room, n, uses[..i]))
  {
    hide Exchange, AfterReset;
    assert uses[..i + 1][..i] == uses[..i];
  }

  lemma NoUses(fw: Firmware, wait: nat, room: nat, n: Ncp)
    ensures UseAll(fw, wait, room, n, []) == n
  {
  }

  // Any list of commands, with a re-send or without, and resets.
  method UsePort(port: SpiPort, uses: seq<Use>)
    requires port.Quiet() && forall u :: u in uses && u.Issue? ==> Complete(u.cmd)
    modifies port
    ensures port.Quiet() && port.slave.ncp == UseAll(port.fw, port.waitBytes, 260, old(port.slave.ncp), uses)
    ensures Prompt(port.fw, port.waitBytes) && !old(port.slave.ncp).aborted ==> !port.slave.ncp.aborted
  {
    hide *;
    ghost var n := port.slave.ncp;
    assert uses[..0] == [];
    NoUses(port.fw, port.waitBytes, 260, n);
    var i := 0;
    while i < |uses|
      invariant 0 <= i <= |uses| && port.Quiet()
      invariant port.slave.ncp == UseAll(port.fw, port.waitBytes, 260, n, uses[..i])
    {
      UseOneMore(port.fw, port.waitBytes, 260, n, uses, i);
      match uses[i] {
        case Issue(cmd, retry) =>
          assert uses[i] in uses;
          var rx := new byte[260];
          var len, cls := port.DoCmd(cmd, rx, retry);
        case Restart =>
          port.NcpReset();
      }
      i := i + 1;
    }
    assert uses[..i] == uses;
    if Prompt(port.fw, port.waitBytes) && !n.aborted {
      NeverAborted(port.fw, port.waitBytes, 260, n, uses);
    }
  }
}
