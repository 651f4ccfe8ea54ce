/** The machine with fields driven through whole runs. */
module LcpMachineRuns {
  import opened Octets
  import opened LcpCodec
  import opened LcpPolicy
  import opened Rfc1661
  import opened LcpSpec
  import opened LcpRuns
  import opened LcpMachine

  method Dispatch(machine: Machine, call: Call) returns (r: Reply)
    requires machine.Valid()
    modifies machine
    ensures machine.Valid()
    ensures var s := Apply(old(machine.View()), call); machine.View() == s.machine && r == ReplyOf(s.outcome)
  {
    match call {
      case OpenCall(now) => r := machine.Open(now);
      case CloseCall(now) => r := machine.Close(now);
      case LowerDownCall =>
        var quiet := machine.LowerDown();
        r := Ok(quiet);
      case RejectProtocolCall(protocol, information) => r := machine.RejectProtocol(protocol, information);
      case PollCall(now) => r := machine.PollTimeout(now);
      case ReceiveCall(input, now, policy) => r := machine.Receive(input, now, policy);
    }
  }

  lemma AllOnWireAppend(a: seq<Action>, b: seq<Action>)
    ensures AllOnWire(a + b) == AllOnWire(a) + AllOnWire(b)
  {
  }

  /** Whether the layer above is up after what has been told to it; None if it is told to go where it is. */
  function LayerTold(up: bool, actions: seq<WireAction>): Option<bool> {
    if actions == [] then Some(up)
    else
      match LayerTold(up, actions[..|actions| - 1])
      case None => None
      case Some(now) =>
        match actions[|actions| - 1]
        case LayerUp(_) => if now then None else Some(true)
        case LayerDown => if now then Some(false) else None
        case _ => Some(now)
  }

  lemma {:induction false} SameLayer(up: bool, actions: seq<Action>)
    ensures LayerTold(up, AllOnWire(actions)) == Layer(up, actions)
  {
    if actions != [] {
      SameLayer(up, actions[..|actions| - 1]);
      assert AllOnWire(actions)[..|actions| - 1] == AllOnWire(actions[..|actions| - 1]);
    }
  }

  lemma {:induction false} FailureStays(m: Lcp, calls: seq<Call>, n: nat)
    requires n <= |calls| && RunCalls(m, calls[..n]).None?
    ensures RunCalls(m, calls).None?
    decreases |calls| - n
  {
    if n < |calls| {
      assert calls[..n + 1][..n] == calls[..n];
      FailureStays(m, calls, n + 1);
    } else {
      assert calls[..n] == calls;
    }
  }

  lemma NextCall(m: Lcp, calls: seq<Call>, n: nat)
    requires n < |calls| && RunCalls(m, calls[..n]).Some?
    ensures var before := RunCalls(m, calls[..n]).value;
            var s := Apply(before.0, calls[n]);
            RunCalls(m, calls[..n + 1])
            == if s.outcome.Failed? then None else Some((s.machine, before.1 + s.outcome.actions))
  {
    assert calls[..n + 1][..n] == calls[..n];
  }

  /** The calls one after the other, up to the first that fails; `sent` is all they returned. */
  method Drive(machine: Machine, calls: seq<Call>) returns (failed: bool, sent: seq<WireAction>)
    requires machine.Valid()
    modifies machine
    ensures machine.Valid()
    ensures var run := RunCalls(old(machine.View()), calls);
            && (failed <==> run.None?)
            && (!failed ==> machine.View() == run.value.0 && sent == AllOnWire(run.value.1))
  {
    ghost var m := machine.View();
    sent, failed := [], false;
    for n := 0 to |calls|
      invariant machine.Valid()
      invariant RunCalls(m, calls[..n]).Some? && machine.View() == RunCalls(m, calls[..n]).value.0
      invariant sent == AllOnWire(RunCalls(m, calls[..n]).value.1)
    {
      NextCall(m, calls, n);
      ghost var before := RunCalls(m, calls[..n]).value.1;
      ghost var s := Apply(machine.View(), calls[n]);
      var r := Dispatch(machine, calls[n]);
      if r.Err? {
        FailureStays(m, calls, n + 1);
        failed := true;
        return;
      }
      AllOnWireAppend(before, s.outcome.actions);
      sent := sent + r.value.actions;
    }
    assert calls[..|calls|] == calls;
  }

  /** A new machine driven through a run. At most 256 well-formed local options and no call ever fails; the
      timer runs exactly while the machine waits, what it knows of its peer and what its peer acknowledged go
      with the state, and the layer above is told up and down by turns, up last exactly if it is Opened. */
  method RunMachine(localOptions: Bytes, settings: Settings, calls: seq<Call>)
    returns (r: Result<Machine, OptionParseError>, failed: bool, sent: seq<WireAction>)
    ensures match ParseOptions(localOptions)
            case Err(e) => r == Err(e)
            case Ok(options) =>
              && r.Ok? && fresh(r.value) && r.value.Valid()
              && var run := RunCalls(New(options, settings), calls);
                 && (failed <==> run.None?)
                 && (!failed ==> r.value.View() == run.value.0 && sent == AllOnWire(run.value.1))
    ensures r.Ok? && |ParseOptions(localOptions).value| <= 256 ==>
              var m := r.value;
              && !failed
              && (m.restartDeadlineMs.Some? <==> TimerRuns(m.state))
              && (m.state == AckSent || m.state == Opened ==> m.peerConfiguration.Some?)
              && (m.state == AckReceived || m.state == Opened ==>
                    m.acknowledgedLocalMagic == FirstMagic(ParseOptions(m.localOptions).value))
              && LayerTold(false, sent) == Some(m.state == Opened)
  {
    r := NewMachine(localOptions, settings);
    failed, sent := false, [];
    if r.Ok? {
      failed, sent := Drive(r.value, calls);
      ghost var options := ParseOptions(localOptions).value;
      if |options| <= 256 {
        EveryRunKeeps(options, settings, calls);
        SameLayer(false, RunCalls(New(options, settings), calls).value.1);
      }
    }
  }
}
