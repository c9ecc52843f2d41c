/** Runs of the pool in which what it does not promise goes wrong: a caller waits beside an idle
    connection, in both of the ways PoolRuns.StarvesIff names, and a client is left without a cleaner. */
module PoolWitnesses {
  import opened Words
  import opened Pool
  import opened PoolRuns

  lemma Extend(max: nat, waits: bool, states: seq<State>, steps: seq<Step>, step: Step, after: State)
    requires IsRun(max, waits, states, steps)
    requires TargetsExist(states[|steps|]) && Enabled(states[|steps|], step) && after == Apply(states[|steps|], step)
    ensures IsRun(max, waits, states + [after], steps + [step])
  {
    hide TargetsExist, Enabled, Apply;
  }

  const CLEANER := Thread(Cleaning([]), UNUSED, false)
  const QUEUED := Thread(Waiting, UNUSED, true)

  function At(pc: Pc): Thread {
    Thread(pc, UNUSED, false)
  }

  /** One connection, dialled by the first goroutine; the second is the cleaner, the others callers. */
  function Busy(first: Pc, others: seq<Thread>, conns: seq<nat>, queue: seq<nat>): State {
    State(1, true, conns, 1, queue, true, None, [At(first), CLEANER] + others, {0}, 1)
  }

  /** The beginning of a run with a limit of one: the first caller dials, the cleaner is started. */
  lemma CreatedRun(waits: bool) returns (states: seq<State>, steps: seq<Step>)
    ensures IsRun(1, waits, states, steps) && |steps| == 2
    ensures states[2] == State(1, waits, [], 1, [], true, None, [At(DialOwn), CLEANER], {}, 0)
  {
    var s1 := Initial(1, waits).(threads := [At(Start)]);
    var s2 := s1.(threads := [At(DialOwn), CLEANER], count := 1, cleanerRunning := true);
    states := [Initial(1, waits), s1, s2];
    steps := [Arrive, TakeOrCreate(0)];
  }

  /** One caller has dialled the one connection, another arrives. */
  lemma DialledRun() returns (states: seq<State>, steps: seq<Step>)
    ensures IsRun(1, true, states, steps) && |steps| == 4
    ensures states[4] == Busy(Holding(0), [At(Start)], [], [])
  {
    hide IsRun;
    states, steps := CreatedRun(true);
    var s3 := Busy(Holding(0), [], [], []);
    Extend(1, true, states, steps, OwnDial(0, true), s3);
    states, steps := states + [s3], steps + [OwnDial(0, true)];
    var s4 := Busy(Holding(0), [At(Start)], [], []);
    Extend(1, true, states, steps, Arrive, s4);
    states, steps := states + [s4], steps + [Arrive];
  }

  /** The second caller is turned away while the first still holds the connection. */
  lemma TurnedAwayRun() returns (states: seq<State>, steps: seq<Step>)
    ensures IsRun(1, true, states, steps) && |steps| == 5
    ensures states[5] == Busy(Holding(0), [At(MustWait)], [], [])
  {
    hide IsRun;
    states, steps := DialledRun();
    var s5 := Busy(Holding(0), [At(MustWait)], [], []);
    Extend(1, true, states, steps, TakeOrCreate(2), s5);
    states, steps := states + [s5], steps + [TakeOrCreate(2)];
  }

  lemma FinishedRun() returns (states: seq<State>, steps: seq<Step>)
    ensures IsRun(1, true, states, steps) && |steps| == 7
    ensures states[7] == Busy(Done, [At(MustWait)], [0], [])
  {
    hide IsRun;
    states, steps := TurnedAwayRun();
    var s6 := Busy(Recycling(0), [At(MustWait)], [], []);
    Extend(1, true, states, steps, Finish(0, true), s6);
    states, steps := states + [s6], steps + [Finish(0, true)];
    var s7 := Busy(Done, [At(MustWait)], [0], []);
    Extend(1, true, states, steps, Recycle(0), s7);
    states, steps := states + [s7], steps + [Recycle(0)];
  }

  /** A caller that is turned away and queues itself after the connection has come back waits beside
      an idle connection. */
  lemma StarvedRun() returns (states: seq<State>, steps: seq<Step>)
    ensures IsRun(1, true, states, steps) && Starved(states[|steps|])
  {
    hide IsRun, Inv, Starved;
    states, steps := FinishedRun();
    var s7 := states[7];
    RunKeeps(1, true, states, steps, 7);
    EnqueueStarves(s7, 2);
    Extend(1, true, states, steps, Enqueue(2), Apply(s7, Enqueue(2)));
    states, steps := states + [Apply(s7, Enqueue(2))], steps + [Enqueue(2)];
  }

  // ---------------------------------------------------------------- a recycle that loses its caller

  lemma OneQueuedRun() returns (states: seq<State>, steps: seq<Step>)
    ensures IsRun(1, true, states, steps) && |steps| == 6
    ensures states[6] == Busy(Holding(0), [QUEUED], [], [2])
  {
    hide IsRun;
    states, steps := TurnedAwayRun();
    var s6 := Busy(Holding(0), [QUEUED], [], [2]);
    Extend(1, true, states, steps, Enqueue(2), s6);
    states, steps := states + [s6], steps + [Enqueue(2)];
  }

  lemma TwoQueuedRun() returns (states: seq<State>, steps: seq<Step>)
    ensures IsRun(1, true, states, steps) && |steps| == 9
    ensures states[9] == Busy(Holding(0), [QUEUED, QUEUED], [], [2, 3])
  {
    hide IsRun;
    states, steps := OneQueuedRun();
    var s7 := Busy(Holding(0), [QUEUED, At(Start)], [], [2]);
    Extend(1, true, states, steps, Arrive, s7);
    states, steps := states + [s7], steps + [Arrive];
    var s8 := Busy(Holding(0), [QUEUED, At(MustWait)], [], [2]);
    Extend(1, true, states, steps, TakeOrCreate(3), s8);
    states, steps := states + [s8], steps + [TakeOrCreate(3)];
    var s9 := Busy(Holding(0), [QUEUED, QUEUED], [], [2, 3]);
    assert 2 in Open(s8);
    Extend(1, true, states, steps, Enqueue(3), s9);
    states, steps := states + [s9], steps + [Enqueue(3)];
  }

  lemma OfferingRun() returns (states: seq<State>, steps: seq<Step>)
    ensures IsRun(1, true, states, steps) && |steps| == 11
    ensures states[11] == Busy(Offering(0, 2), [QUEUED, QUEUED], [], [3]).(lock := Some(0))
  {
    hide IsRun;
    states, steps := TwoQueuedRun();
    var s10 := Busy(Recycling(0), [QUEUED, QUEUED], [], [2, 3]);
    Extend(1, true, states, steps, Finish(0, true), s10);
    states, steps := states + [s10], steps + [Finish(0, true)];
    var s11 := Busy(Offering(0, 2), [QUEUED, QUEUED], [], [3]).(lock := Some(0));
    assert 2 in Open(s10);
    Extend(1, true, states, steps, Recycle(0), s11);
    states, steps := states + [s11], steps + [Recycle(0)];
  }

  lemma GoneRun() returns (states: seq<State>, steps: seq<Step>)
    ensures IsRun(1, true, states, steps) && |steps| == 13
    ensures states[13] ==
      Busy(Offering(0, 2), [Thread(Done, Waiter(None, true, 1), true), QUEUED], [], [3]).(lock := Some(0))
  {
    hide IsRun;
    states, steps := OfferingRun();
    var s12 := Busy(Offering(0, 2), [Thread(Cancelling, UNUSED, true), QUEUED], [], [3]).(lock := Some(0));
    Extend(1, true, states, steps, Timeout(2), s12);
    states, steps := states + [s12], steps + [Timeout(2)];
    var s13 := Busy(Offering(0, 2), [Thread(Done, Waiter(None, true, 1), true), QUEUED], [], [3]).(lock := Some(0));
    Extend(1, true, states, steps, Cancel(2), s13);
    states, steps := states + [s13], steps + [Cancel(2)];
  }

  /** The caller found waiting times out and cancels before tryDeliver, a second one still waits: the
      connection becomes idle beside it. */
  lemma LostOfferRun() returns (states: seq<State>, steps: seq<Step>)
    ensures IsRun(1, true, states, steps) && |steps| > 0
    ensures !Starved(states[|steps| - 1]) && LostOffer(states[|steps| - 1], steps[|steps| - 1])
    ensures Starved(states[|steps|])
  {
    hide IsRun, Inv, Apply;
    states, steps := GoneRun();
    var s := states[13];
    RunKeeps(1, true, states, steps, 13);
    assert 3 in s.queue && 3 in Open(s);
    StarvesIff(s, Offer(0));
    Extend(1, true, states, steps, Offer(0), Apply(s, Offer(0)));
    states, steps := states + [Apply(s, Offer(0))], steps + [Offer(0)];
  }

  // ---------------------------------------------------------------- a client without a cleaner

  function Failed(first: Pc, cleaner: Pc, others: seq<Thread>, count: nat): State {
    State(1, false, [], count, [], true, None, [At(first), At(cleaner)] + others, {}, 0)
  }

  lemma FailedDialRun() returns (states: seq<State>, steps: seq<Step>)
    ensures IsRun(1, false, states, steps) && |steps| == 4
    ensures states[4] == Failed(Done, Cleaning([]), [], 0)
  {
    hide IsRun;
    states, steps := CreatedRun(false);
    var s3 := Failed(Discounting(None, None), Cleaning([]), [], 1);
    Extend(1, false, states, steps, OwnDial(0, false), s3);
    states, steps := states + [s3], steps + [OwnDial(0, false)];
    var s4 := Failed(Done, Cleaning([]), [], 0);
    Extend(1, false, states, steps, Discount(0), s4);
    states, steps := states + [s4], steps + [Discount(0)];
  }

  lemma StoppingRun() returns (states: seq<State>, steps: seq<Step>)
    ensures IsRun(1, false, states, steps) && |steps| == 6
    ensures states[6] == Failed(Done, Stopping, [At(Start)], 0)
  {
    hide IsRun;
    states, steps := FailedDialRun();
    var s5 := Failed(Done, Stopping, [], 0);
    Extend(1, false, states, steps, Stop(1), s5);
    states, steps := states + [s5], steps + [Stop(1)];
    var s6 := Failed(Done, Stopping, [At(Start)], 0);
    Extend(1, false, states, steps, Arrive, s6);
    states, steps := states + [s6], steps + [Arrive];
  }

  /** The cleaner sees count zero; before it resets the flag a new caller raises count, and starts no
      cleaner because the flag is still set: count is 1 and there is no cleaner. */
  lemma UncleanedRun() returns (states: seq<State>, steps: seq<Step>)
    ensures IsRun(1, false, states, steps)
    ensures var s := states[|steps|];
      s.count == 1 && !s.cleanerRunning && Sum(s.threads, Cleaner) == 0
  {
    hide IsRun, Cleaner;
    states, steps := StoppingRun();
    var s7 := Failed(Done, Stopping, [At(DialOwn)], 1);
    Extend(1, false, states, steps, TakeOrCreate(2), s7);
    states, steps := states + [s7], steps + [TakeOrCreate(2)];
    var s8 := Failed(Done, Done, [At(DialOwn)], 1).(cleanerRunning := false);
    Extend(1, false, states, steps, ResetFlag(1), s8);
    states, steps := states + [s8], steps + [ResetFlag(1)];
    OneCleaner(1, false, states, steps, 8);
  }
}
