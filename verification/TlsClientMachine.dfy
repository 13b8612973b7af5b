/**
 The client's handshake as it runs: the loop over the states, and the driver that resolves what the machine waits for
 with what the transport has to offer.
 */
module TlsClientMachine {
  import opened TlsHandshake
  import M = TlsClient
  import Checks = TlsClientChecks

  class Handshake {
    var machine: M.Client
    /** Records that have arrived, and what has been handed to the transport. */
    var incoming: seq<Item>
    var sent: seq<Item>

    constructor (cfg: M.Config, incoming: seq<Item>)
      ensures machine == M.Start(cfg) && this.incoming == incoming && sent == []
    {
      machine := M.Start(cfg);
      this.incoming, sent := incoming, [];
    }

    /** All the machine has emitted, on its way or still to go. */
    function Emitted(): seq<Item>
      reads this
    {
      sent + machine.port.flight
    }

    /** Rounds of the machine until one returns something other than success; they add to what is to be sent. */
    method Loop(world: nat -> Verdict, first: nat) returns (next: nat)
      requires machine.port.wait.Ready?
      modifies `machine
      ensures machine == M.Loop(old(machine), world, first) && old(Emitted()) <= Emitted()
    {
      hide M.Step, M.Rank;
      M.LoopIsOrderly(machine, world, first);
      ghost var before := machine.port.flight;
      next := first;
      while machine.port.wait.Ready? && !machine.state.Done?
        invariant M.Loop(machine, world, next) == M.Loop(old(machine), world, first)
        decreases machine.port.wait.Ready?, M.LAST_RANK - M.Rank(machine.state, machine.facts.resumed)
      {
        M.StepClimbs(machine, world(next));
        machine := M.Step(machine, world(next));
        next := next + 1;
      }
      assert machine.port.flight == before + machine.port.flight[|before|..];
    }

    /** Hands over as much of the flight as the transport has room for. */
    method FlushFlight(room: nat) returns (taken: nat)
      requires machine.port.wait.Flush?
      modifies `machine, `sent
      ensures taken <= |old(machine).port.flight| && taken <= room && Emitted() == old(Emitted())
      ensures if machine.port.wait.Flush? then taken == room && machine.port.flight != [] else machine.port.wait.Ready?
      ensures machine == M.After(old(machine), Flushed(taken)) && old(sent) <= sent && |sent| == |old(sent)| + taken
    {
      var flight := machine.port.flight;
      taken := if room < |flight| then room else |flight|;
      sent := sent + flight[..taken];
      machine := machine.(port := FlushSome(machine.port, taken));
      assert flight == flight[..taken] + flight[taken..];
    }

    /** Takes in one record. */
    method OpenRecord()
      requires (machine.port.wait.ReadMessage? || machine.port.wait.ReadCcs?) && incoming != []
      modifies `machine, `incoming
      ensures machine == M.After(old(machine), Arrives(old(incoming)[0])) && incoming == old(incoming)[1..]
      ensures (machine.port.wait.Ready? || machine.port.wait.Failed?) && Emitted() == old(Emitted())
    {
      machine := machine.(port := Receive(machine.port, incoming[0]));
      incoming := incoming[1..];
    }

    /** What a call that stops leaves behind. */
    ghost predicate Stopped(outcome: Outcome)
      reads this
    {
      var p := machine.port;
      && (outcome.Error? <==> p.wait.Failed?)
      && (outcome.Completed? ==> machine.state.Done? && p.wait.Ready?)
      && (outcome.Blocked? ==>
            || p.wait.Ready? || (p.wait.Flush? && p.flight != [])
            || ((p.wait.ReadMessage? || p.wait.ReadCcs?) && incoming == []))
    }

    /** Resolves the operation that the machine waits for, if the world has already done its part. */
    method Resolve(room: nat) returns (ready: bool, outcome: Outcome, taken: nat, ghost moves: seq<Move>)
      modifies `machine, `incoming, `sent
      ensures M.RunEnabled(old(machine), moves) && machine == M.RunOf(old(machine), moves)
      ensures old(sent) <= sent && Taken(moves) + incoming == old(incoming) && taken <= room
      ensures Emitted() == old(Emitted())
      ensures if ready then machine.port.wait.Ready? else !outcome.Completed? && Stopped(outcome)
      ensures |sent| == |old(sent)| + taken && (!ready && machine.port.wait.Flush? ==> taken == room)
      ensures !ready && machine.port.wait.Ready? ==> moves == [Called]
      ensures ready ==>
        old(machine.port.wait.Ready? || machine.port.wait.Flush?) || |incoming| < |old(incoming)|
      ensures ready ==> machine.state == old(machine).state && machine.facts == old(machine).facts
    {
      hide M.LogMatches, M.RunOf, M.RunEnabled, Taken;
      M.EmptyRun(machine);
      RoundsTakeNothing([]);
      assert [] + incoming == incoming;
      ghost var before := machine;
      ready, outcome, taken, moves := true, Error, 0, [];
      if machine.port.wait.Failed? {
        ready := false;
      } else if machine.port.wait.Flush? {
        taken := FlushFlight(room);
        moves := M.Extend(before, [], Flushed(taken));
        OneTakes(moves, Flushed(taken));
        ready, outcome := machine.port.wait.Ready?, Blocked;
      } else if machine.port.wait.ReadMessage? || machine.port.wait.ReadCcs? {
        if incoming == [] {
          ready, outcome := false, Blocked;
        } else {
          moves := M.Extend(before, [], Arrives(incoming[0]));
          OneTakes(moves, Arrives(incoming[0]));
          OpenRecord();
          assert old(incoming) == [old(incoming)[0]] + incoming;
          ready := machine.port.wait.Ready?;
        }
      } else if machine.port.wait.Pending? || machine.port.wait.EarlyReturn? {
        ready, outcome := false, if machine.port.wait.EarlyReturn? then EarlyReturned else Blocked;
        moves := M.Extend(before, [], Called);
        OneTakes(moves, Called);
        machine := machine.(port := Resume(machine.port));
      }
    }

    /**
     Resolves what the machine waits for and runs it again, until it is done or the world has to do something first.
     The call is a run of the machine. It hands over what is emitted in order, and nothing else; when it blocks, the
     transport is full, or nothing has arrived, or a callback asked for time; when it does not fail, no round of it was
     to fail; and when it completes, one Finished has been sent and one verified.
     */
    method Run(world: nat -> Verdict, room: nat) returns (outcome: Outcome, ghost moves: seq<Move>)
      requires M.LogMatches(machine)
      modifies this
      ensures M.RunEnabled(old(machine), moves) && machine == M.RunOf(old(machine), moves) && M.LogMatches(machine)
      ensures Stopped(outcome) && |sent| <= |old(sent)| + room
      ensures machine.port.wait.Flush? ==> |sent| == |old(sent)| + room
      ensures machine.port.wait.Ready? && !outcome.Completed? ==> moves != [] && moves[|moves| - 1].Called?
      ensures !outcome.Error? ==> Checks.AllPass(old(machine), moves)
      ensures outcome.Completed? ==> machine.port.log == M.LogIn(M.Done, machine.facts.resumed)
      ensures old(sent) <= sent && old(Emitted()) <= Emitted() && Taken(moves) + incoming == old(incoming)
    {
      hide M.Step, M.Rank, M.Loop, M.LogMatches, M.RunOf, M.RunEnabled, Taken, Checks.AllPass;
      M.EmptyRun(machine);
      RoundsTakeNothing([]);
      moves := [];
      var left, n := room, 0;
      while true
        invariant M.RunEnabled(old(machine), moves) && machine == M.RunOf(old(machine), moves)
        invariant old(sent) <= sent && old(Emitted()) <= Emitted() && Taken(moves) + incoming == old(incoming)
        invariant |sent| + left == |old(sent)| + room
        decreases |incoming|, M.LAST_RANK - M.Rank(machine.state, machine.facts.resumed),
          if machine.port.wait.Ready? || machine.port.wait.Flush? then 1 else 0
      {
        var ready, taken;
        ghost var more;
        ready, outcome, taken, more := Resolve(left);
        M.RunsCompose(old(machine), moves, more);
        TakenJoins(moves, more);
        moves, left := moves + more, left - taken;
        if !ready {
          break;
        }
        M.LoopClimbs(machine, world, n);
        more := M.LoopIsRun(machine, world, n);
        M.RunsCompose(old(machine), moves, more);
        TakenJoins(moves, more);
        RoundsTakeNothing(more);
        moves := moves + more;
        n := Loop(world, n);
        if machine.port.wait.Ready? || machine.port.wait.Failed? {
          outcome := if machine.port.wait.Ready? then Completed else Error;
          break;
        }
      }
      M.RunKeepsLog(old(machine), moves);
      if !outcome.Error? {
        Checks.UnfailedPasses(old(machine), moves);
      }
      if outcome.Completed? {
        M.DoneLog(machine);
      }
    }
  }
}
