/** What holds in every state of every run of the connection pool. */
module PoolRuns {
  import opened Words
  import opened Pool

  /** A run from the empty pool: states[i + 1] is what steps[i] makes of states[i]. */
  ghost predicate IsRun(max: nat, waits: bool, states: seq<State>, steps: seq<Step>)
    ensures IsRun(max, waits, states, steps) ==> |states| == |steps| + 1
  {
    && |states| == |steps| + 1 && states[0] == Initial(max, waits)
    && forall i :: 0 <= i < |steps| ==> Next(states[i], steps[i], states[i + 1])
  }

  lemma {:induction false} InitialInv(max: nat, waits: bool)
    ensures Inv(Initial(max, waits))
  {
    assert forall c: nat :: Held([], c) == 0 && Owed([], c) == 0;
  }

  /** The invariant holds throughout, so the callers a step names always exist, and the
      configuration never changes. */
  lemma {:induction false} RunKeeps(max: nat, waits: bool, states: seq<State>, steps: seq<Step>, i: nat)
    requires IsRun(max, waits, states, steps) && i < |states|
    ensures Inv(states[i]) && TargetsExist(states[i]) && states[i].max == max && states[i].waits == waits
  {
    hide Inv, Apply, Enabled;
    if i == 0 {
      InitialInv(max, waits);
    } else {
      RunKeeps(max, waits, states, steps, i - 1);
      NextKeeps(states[i - 1], steps[i - 1], states[i]);
      StepConfig(states[i - 1], steps[i - 1]);
    }
    InvParts(states[i]);
    RefsQueued(states[i]);
  }

  lemma StepConfig(s: State, step: Step)
    requires TargetsExist(s) && Enabled(s, step)
    ensures Apply(s, step).max == s.max && Apply(s, step).waits == s.waits
  {
    hide TargetsExist, DropClosed, Open, AfterDiscount;
  }

  // ---------------------------------------------------------------- where count comes from

  /** Connections a goroutine has in its hands, to use, recycle, offer or hand over. */
  function InHands(th: Thread): nat {
    Once(th.pc.Holding? || th.pc.Recycling? || th.pc.Offering? || th.pc.Handing?)
  }

  /** Connections delivered to a waiter that has neither taken them nor cancelled. */
  function Delivered(th: Thread): nat {
    Once((th.pc.Waiting? || th.pc.Cancelling?) && th.waiter.conn.Some?)
  }

  /** Dials in flight, or failed and not yet discounted. */
  function Dialling(th: Thread): nat {
    Once(th.pc.DialOwn? || th.pc.DialFor? || th.pc.Failing? || (th.pc.Discounting? && th.pc.closing.None?))
  }

  /** Connections picked for destruction and not yet discounted. */
  function Doomed(th: Thread): nat {
    match th.pc
    case Discounting(closing, left) => Once(closing.Some?) + |Left(left)|
    case Closing(_, left) => |Left(left)|
    case Cleaning(scratch) => |scratch|
    case _ => 0
  }

  lemma {:induction false} ChargesSplit(threads: seq<Thread>)
    ensures Charges(threads) ==
      Sum(threads, InHands) + Sum(threads, Delivered) + Sum(threads, Dialling) + Sum(threads, Doomed)
  {
    if threads != [] {
      ChargesSplit(threads[..|threads| - 1]);
    }
  }

  /** In every interleaving count is the idle connections, the connections in hands, those delivered
      to a waiter, the dials in flight and the connections picked for destruction but not discounted,
      and it never exceeds the limit. */
  lemma {:induction false} PoolConservation(max: nat, waits: bool, states: seq<State>, steps: seq<Step>, i: nat)
    requires IsRun(max, waits, states, steps) && i < |states|
    ensures var s := states[i];
      && s.count == |s.conns| + Sum(s.threads, InHands) + Sum(s.threads, Delivered)
        + Sum(s.threads, Dialling) + Sum(s.threads, Doomed)
      && s.count <= max
  {
    hide Sum, Next, InHands, Delivered, Dialling, Doomed;
    RunKeeps(max, waits, states, steps, i);
    ChargesSplit(states[i].threads);
  }

  // ---------------------------------------------------------------- one place for each connection

  lemma {:induction false} SomeoneAdds(threads: seq<Thread>, f: Thread -> nat) returns (t: nat)
    requires Sum(threads, f) > 0
    ensures t < |threads| && f(threads[t]) > 0
  {
    t := |threads| - 1;
    if f(threads[t]) == 0 {
      t := SomeoneAdds(threads[..t], f);
    }
  }

  lemma {:induction false} TwoAdd(threads: seq<Thread>, f: Thread -> nat, t: nat, u: nat)
    requires t < u < |threads|
    ensures f(threads[t]) + f(threads[u]) <= Sum(threads, f)
  {
    if u == |threads| - 1 {
      SumAtLeast(threads[..u], f, t);
    } else {
      TwoAdd(threads[..|threads| - 1], f, t, u);
    }
  }

  ghost predicate OnlyIdle(s: State, c: nat) {
    multiset(s.conns)[c] == 1 && forall t :: 0 <= t < |s.threads| ==> Holds(s.threads[t], c) == 0
  }

  ghost predicate OnlyHeldBy(s: State, c: nat, t: nat) {
    && t < |s.threads| && Holds(s.threads[t], c) == 1 && c !in s.conns
    && forall u :: 0 <= u < |s.threads| && u != t ==> Holds(s.threads[u], c) == 0
  }

  /** Every live connection is in exactly one place, and a connection found anywhere is live: none
      leaks and none is used by two goroutines or used after Close. */
  lemma {:induction false} ConnectionsInOnePlace(
    max: nat, waits: bool, states: seq<State>, steps: seq<Step>, i: nat, c: nat)
    requires IsRun(max, waits, states, steps) && i < |states|
    ensures c in states[i].live ==> OnlyIdle(states[i], c) || exists t :: OnlyHeldBy(states[i], c, t)
    ensures c !in states[i].live ==>
      c !in states[i].conns && forall t :: 0 <= t < |states[i].threads| ==> Holds(states[i].threads[t], c) == 0
  {
    hide Next, Holds, Inv, Sum;
    var s := states[i];
    RunKeeps(max, waits, states, steps, i);
    InvParts(s);
    forall t | 0 <= t < |s.threads| ensures Holds(s.threads[t], c) <= Held(s.threads, c) {
      SumAtLeast(s.threads, HoldsOf(c), t);
    }
    if c in s.live && c !in s.conns {
      var t := SomeoneAdds(s.threads, HoldsOf(c));
      forall u | 0 <= u < |s.threads| && u != t ensures Holds(s.threads[u], c) == 0 {
        TwoAdd(s.threads, HoldsOf(c), if t < u then t else u, if t < u then u else t);
      }
      assert OnlyHeldBy(s, c, t);
    }
  }

  // ---------------------------------------------------------------- waiting callers

  /** x is in the queue exactly once and no goroutine owes it a delivery. */
  ghost predicate OnlyQueued(s: State, x: nat) {
    multiset(s.queue)[x] == 1 && forall t :: 0 <= t < |s.threads| ==> TargetOf(s.threads[t].pc) != Some(x)
  }

  /** x has left the queue and only goroutine t owes it a delivery. */
  ghost predicate OnlyOwedBy(s: State, x: nat, t: nat) {
    && t < |s.threads| && TargetOf(s.threads[t].pc) == Some(x) && x !in s.queue
    && forall u :: 0 <= u < |s.threads| && u != t ==> TargetOf(s.threads[u].pc) != Some(x)
  }

  /** From queueWaitingCaller on, a caller whose ready is open is in the queue exactly once or has
      exactly one delivery coming (a dial in flight for it, or a recycle in the middle of its offer),
      never both; and ready is closed at most once, exactly when there is a result or the caller has
      given up. */
  lemma {:induction false} NoLostWaiter(max: nat, waits: bool, states: seq<State>, steps: seq<Step>, i: nat, x: nat)
    requires IsRun(max, waits, states, steps) && i < |states| && x < |states[i].threads|
    ensures var th := states[i].threads[x];
      && th.waiter.closes <= 1 && (th.waiter.closes == 1 <==> Taken(th.waiter))
      && (th.queued && th.waiter.closes == 0 ==>
            (OnlyQueued(states[i], x) || exists t :: OnlyOwedBy(states[i], x, t))
            && (th.pc.Waiting? || th.pc.Cancelling?))
  {
    hide Next, Inv, Sum, TargetOf;
    var s := states[i];
    RunKeeps(max, waits, states, steps, i);
    InvParts(s);
    assert WaiterOk(s.threads[x]);
    if s.threads[x].queued && s.threads[x].waiter.closes == 0 {
      assert Refs(s, x) == 1;
      WaiterPlace(s, x);
    }
  }

  lemma {:induction false} WaiterPlace(s: State, x: nat)
    requires Refs(s, x) == 1
    ensures OnlyQueued(s, x) || exists t :: OnlyOwedBy(s, x, t)
  {
    hide Sum, TargetOf;
    forall t | 0 <= t < |s.threads| ensures Owes(s.threads[t], x) <= Owed(s.threads, x) {
      SumAtLeast(s.threads, OwesOf(x), t);
    }
    if x !in s.queue {
      var t := SomeoneAdds(s.threads, OwesOf(x));
      forall u | 0 <= u < |s.threads| && u != t ensures TargetOf(s.threads[u].pc) != Some(x) {
        TwoAdd(s.threads, OwesOf(x), if t < u then t else u, if t < u then u else t);
      }
      assert OnlyOwedBy(s, x, t);
    }
  }

  /** Outside the second half of a recycle, that one delivery is a dial made for the caller. */
  lemma OwedIsDial(s: State, t: nat, x: nat)
    requires Locked(s) && s.lock.None? && t < |s.threads| && TargetOf(s.threads[t].pc) == Some(x)
    ensures s.threads[t].pc.DialFor? || s.threads[t].pc.Handing? || s.threads[t].pc.Failing?
  {
  }

  // ---------------------------------------------------------------- recycling

  /** Goroutines other than t are as they were. */
  ghost predicate OthersSame(s: State, r: State, t: nat) {
    && t < |s.threads| <= |r.threads|
    && forall u :: 0 <= u < |s.threads| && u != t ==> r.threads[u] == s.threads[u]
  }

  /** Queue position k is the first whose caller still waits. */
  ghost predicate FirstWaiting(s: State, k: nat) {
    k < |s.queue| && s.queue[k] in Open(s) && forall j :: 0 <= j < k ==> s.queue[j] !in Open(s)
  }

  ghost predicate NoneWaits(s: State) {
    forall j :: 0 <= j < |s.queue| ==> s.queue[j] !in Open(s)
  }

  ghost predicate OffersFirst(s: State, s': State, t: nat, c: nat, k: nat) {
    && FirstWaiting(s, k) && t < |s'.threads| && s'.threads[t].pc == Offering(c, s.queue[k]) && s'.lock == Some(t)
    && s'.queue == s.queue[k + 1..] && s'.conns == s.conns
  }

  /** A recycled connection is offered to the first caller in queue order found waiting, the mutex being kept;
      those ahead of it had stopped waiting; only when none waits does the connection become idle, the last
      one used. */
  lemma {:induction false} RecycleServesFirst(s: State, t: nat)
    requires TargetsExist(s) && Enabled(s, Recycle(t))
    ensures var c, s' := s.threads[t].pc.conn, Apply(s, Recycle(t));
      && OthersSame(s, s', t) && |s'.threads| == |s.threads| && s'.threads[t].waiter == s.threads[t].waiter
      && s'.count == s.count && s'.live == s.live && s'.cleanerRunning == s.cleanerRunning
      && (|| (s.waits && exists k :: OffersFirst(s, s', t, c, k))
          || ((s.waits ==> NoneWaits(s)) && s'.threads[t].pc == Done && s'.lock == s.lock
                && s'.conns == s.conns + [c] && s'.queue == if s.waits then [] else s.queue))
  {
    hide Open, TargetsExist;
    var k := DropClosedIs(s.queue, Open(s));
    if s.waits && k < |s.queue| {
      assert OffersFirst(s, Apply(s, Recycle(t)), t, s.threads[t].pc.conn, k);
    }
  }

  // ---------------------------------------------------------------- quiescence

  lemma {:induction false} IdleAdds(threads: seq<Thread>, f: Thread -> nat)
    requires forall t :: 0 <= t < |threads| ==> f(threads[t]) == 0
    ensures Sum(threads, f) == 0
  {
    if threads != [] {
      IdleAdds(threads[..|threads| - 1], f);
    }
  }

  /** Ended, or the cleaner with nothing in its hands. */
  predicate AtRest(pc: Pc) {
    pc.Done? || pc == Cleaning([]) || pc.Stopping?
  }

  /** When every goroutine has ended, but for a cleaner asleep or about to end, all connections still
      open are idle, each once, and count is their number: no unit of the limit is ever lost. */
  lemma {:induction false} NothingLeaks(max: nat, waits: bool, states: seq<State>, steps: seq<Step>, i: nat)
    requires IsRun(max, waits, states, steps) && i < |states|
    requires forall t :: 0 <= t < |states[i].threads| ==> AtRest(states[i].threads[t].pc)
    ensures states[i].count == |states[i].conns| == |states[i].live|
    ensures multiset(states[i].conns) == multiset(states[i].live)
  {
    hide Next, Inv, Sum;
    var s := states[i];
    RunKeeps(max, waits, states, steps, i);
    InvParts(s);
    IdleAdds(s.threads, Charge);
    forall c: nat ensures multiset(s.conns)[c] == Once(c in s.live) {
      IdleAdds(s.threads, HoldsOf(c));
    }
    assert multiset(s.conns) == multiset(s.live);
    assert |multiset(s.conns)| == |s.conns|;
  }

  // ---------------------------------------------------------------- idle connections and waiters

  /** An idle connection beside a queued caller that is still waiting. */
  ghost predicate Starved(s: State) {
    s.conns != [] && exists x :: x in s.queue && x in Open(s)
  }

  /** tryDeliver closes ready or changes nothing; no goroutine moves. */
  lemma DeliverOnlyCloses(s: State, target: nat, conn: Option<nat>)
    requires target < |s.threads|
    ensures var s' := TryDeliver(s, target, conn);
      && |s'.threads| == |s.threads|
      && forall u :: 0 <= u < |s.threads| ==>
           s'.threads[u].waiter.closes >= s.threads[u].waiter.closes && s'.threads[u].pc == s.threads[u].pc
  {
  }

  predicate Delivers(step: Step)
    ensures Delivers(step) ==> !step.Arrive?
  {
    step.Offer? || step.Hand? || step.Fail?
  }

  lemma {:induction false} DeliveryCloses(s: State, step: Step, u: nat)
    requires TargetsExist(s) && Enabled(s, step) && Delivers(step) && u < |s.threads|
    ensures u < |Apply(s, step).threads| && Apply(s, step).threads[u].waiter.closes >= s.threads[u].waiter.closes
  {
    hide TryDeliver;
    var pc := s.threads[step.t].pc;
    DeliverOnlyCloses(s, pc.target, if step.Fail? then None else Some(pc.conn));
  }

  lemma {:induction false} OthersClose(s: State, step: Step, u: nat)
    requires TargetsExist(s) && Enabled(s, step) && !Delivers(step) && u < |s.threads|
    ensures u < |Apply(s, step).threads| && Apply(s, step).threads[u].waiter.closes >= s.threads[u].waiter.closes
  {
    hide TargetsExist, DropClosed, Open, AfterDiscount;
  }

  /** A closed ready is never opened again, and goroutines are only added. */
  lemma {:induction false} ReadyStaysClosed(s: State, step: Step, u: nat)
    requires TargetsExist(s) && Enabled(s, step) && u < |s.threads|
    ensures u < |Apply(s, step).threads| && Apply(s, step).threads[u].waiter.closes >= s.threads[u].waiter.closes
  {
    hide TargetsExist, Enabled, Apply;
    if Delivers(step) {
      DeliveryCloses(s, step, u);
    } else {
      OthersClose(s, step, u);
    }
  }

  lemma {:induction false} OpenShrinks(s: State, step: Step, x: nat)
    requires TargetsExist(s) && Enabled(s, step) && x < |s.threads| && x in Open(Apply(s, step))
    ensures x in Open(s)
  {
    hide TargetsExist, Enabled, Apply;
    ReadyStaysClosed(s, step, x);
  }

  lemma {:induction false} QueueShrinks(s: State, step: Step, x: nat)
    requires TargetsExist(s) && Enabled(s, step) && !step.Enqueue? && x in Apply(s, step).queue
    ensures x in s.queue
  {
    hide TargetsExist, DropClosed, Open, AfterDiscount;
    var k := DropClosedIs(s.queue, Open(s));
  }

  lemma IdleShrinks(s: State, step: Step)
    requires TargetsExist(s) && Enabled(s, step) && !step.Recycle? && !step.Offer?
    ensures Apply(s, step).conns != [] ==> s.conns != []
  {
    hide TargetsExist, DropClosed, Open, AfterDiscount;
  }

  lemma {:induction false} StillFed(s: State, step: Step)
    requires Inv(s) && TargetsExist(s) && Enabled(s, step) && !Starved(s)
    requires !step.Enqueue? && !step.Recycle? && !step.Offer?
    ensures !Starved(Apply(s, step))
  {
    hide Inv, Apply, Enabled, Open;
    IdleShrinks(s, step);
    forall x | x in Apply(s, step).queue && x in Open(Apply(s, step)) ensures x in s.queue && x in Open(s) {
      QueueShrinks(s, step, x);
      OpenShrinks(s, step, x);
    }
  }

  lemma {:induction false} EnqueueStarves(s: State, t: nat)
    requires Inv(s) && TargetsExist(s) && Enabled(s, Enqueue(t))
    ensures Starved(Apply(s, Enqueue(t))) <==> s.conns != []
  {
    hide Inv, TargetsExist, DropClosed;
    InvParts(s);
    assert WaiterOk(s.threads[t]);
    var s' := Apply(s, Enqueue(t));
    assert s'.queue[|s'.queue| - 1] == t && t in Open(s');
  }

  lemma {:induction false} RecycleFeeds(s: State, t: nat)
    requires Inv(s) && TargetsExist(s) && Enabled(s, Recycle(t)) && !Starved(s) && (s.waits || s.queue == [])
    ensures !Starved(Apply(s, Recycle(t)))
  {
    hide Inv, Open;
    RecycleServesFirst(s, t);
    if s.waits {
      forall x | x in Apply(s, Recycle(t)).queue && x in Open(Apply(s, Recycle(t)))
        ensures x in s.queue && x in Open(s)
      {
        QueueShrinks(s, Recycle(t), x);
        OpenShrinks(s, Recycle(t), x);
      }
    }
  }

  /** Whether a recycle that lost the race for its caller leaves another one waiting. */
  ghost predicate LostOffer(s: State, step: Step) {
    && step.Offer? && step.t < |s.threads| && s.threads[step.t].pc.Offering? &&
      s.threads[step.t].pc.target < |s.threads|
    && Taken(s.threads[s.threads[step.t].pc.target].waiter) && exists x :: x in s.queue && x in Open(s)
  }

  lemma {:induction false} OfferStarves(s: State, step: Step)
    requires Inv(s) && TargetsExist(s) && Enabled(s, step) && step.Offer? && !Starved(s)
    ensures Starved(Apply(s, step)) <==> LostOffer(s, step)
  {
    hide Inv;
    var target := s.threads[step.t].pc.target;
    if Taken(s.threads[target].waiter) {
      assert Apply(s, step).queue == s.queue && Open(Apply(s, step)) == Open(s);
    } else {
      assert Apply(s, step).queue == s.queue && Apply(s, step).conns == s.conns;
      forall x | x in s.queue && x in Open(Apply(s, step)) ensures x in Open(s) {
        OpenShrinks(s, step, x);
      }
    }
  }

  /** "No caller waits while a connection is idle" is kept by every step but two, and broken by
      those exactly when: a caller that saw no idle connection queues itself after one was returned;
      or a recycle finds its caller gone between waiting() and tryDeliver and others still wait. */
  lemma {:induction false} StarvesIff(s: State, step: Step)
    requires Inv(s) && Enabled(s, step) && !Starved(s) && (s.waits || s.queue == [])
    ensures TargetsExist(s)
    ensures Starved(Apply(s, step)) <==> (step.Enqueue? && s.conns != []) || LostOffer(s, step)
  {
    hide Inv, Apply, Enabled, Open, Starved, TargetsExist;
    InvParts(s);
    RefsQueued(s);
    match step
    case Enqueue(t) => EnqueueStarves(s, t);
    case Recycle(t) => RecycleFeeds(s, t);
    case Offer(_) => OfferStarves(s, step);
    case _ => StillFed(s, step);
  }

  lemma {:induction false} NoQueueWithoutWait(max: nat, waits: bool, states: seq<State>, steps: seq<Step>, i: nat)
    requires IsRun(max, waits, states, steps) && i < |states| && !waits
    ensures states[i].queue == []
  {
    hide Apply, Inv;
    if i > 0 {
      NoQueueWithoutWait(max, waits, states, steps, i - 1);
      RunKeeps(max, waits, states, steps, i - 1);
      if states[i].queue != [] {
        QueueShrinks(states[i - 1], steps[i - 1], states[i].queue[0]);
      }
    }
  }

  /** So in every run a caller starts to wait beside an idle connection at exactly those steps. */
  lemma {:induction false} StarvationInRuns(max: nat, waits: bool, states: seq<State>, steps: seq<Step>, i: nat)
    requires IsRun(max, waits, states, steps) && i < |steps| && !Starved(states[i])
    ensures Starved(states[i + 1]) <==> (steps[i].Enqueue? && states[i].conns != []) || LostOffer(states[i], steps[i])
  {
    hide Apply, Inv, Enabled, Starved, LostOffer;
    RunKeeps(max, waits, states, steps, i);
    assert Next(states[i], steps[i], states[i + 1]);
    if !waits {
      NoQueueWithoutWait(max, waits, states, steps, i);
    }
    StarvesIff(states[i], steps[i]);
  }

  // ---------------------------------------------------------------- where a delivery finds its caller

  lemma {:induction false} DeliveredToTarget(s: State, step: Step, u: nat)
    requires TargetsExist(s) && Enabled(s, step) && Delivers(step) && u < |s.threads|
    requires TargetOf(s.threads[step.t].pc) != Some(u)
    ensures u < |Apply(s, step).threads| && Apply(s, step).threads[u].waiter == s.threads[u].waiter
  {
  }

  lemma {:induction false} OthersDeliverNothing(s: State, step: Step, u: nat)
    requires TargetsExist(s) && Enabled(s, step) && !Delivers(step) && u < |s.threads|
    ensures u < |Apply(s, step).threads|
    ensures Apply(s, step).threads[u].waiter.conn.Some? ==> s.threads[u].waiter.conn.Some?
  {
    hide TargetsExist, DropClosed, Open, AfterDiscount;
  }

  lemma {:induction false} QueuedStayEmpty(s: State, step: Step, x: nat)
    requires Inv(s) && TargetsExist(s) && Enabled(s, step) && x in s.queue && s.threads[x].waiter.conn.None?
    ensures x < |Apply(s, step).threads| && Apply(s, step).threads[x].waiter.conn.None?
  {
    hide Inv, Apply, Enabled, TargetOf, TargetsExist;
    InvParts(s);
    RefsQueued(s);
    if Delivers(step) {
      StepThread(s, step);
      if TargetOf(s.threads[step.t].pc) == Some(x) {
        OwedQueued(s, step.t, x);
      }
      DeliveredToTarget(s, step, x);
    } else {
      OthersDeliverNothing(s, step, x);
    }
  }

  /** A caller gets a connection only after it has left the queue, in every state of every run. */
  lemma {:induction false} QueuedHaveNoConnection(
    max: nat, waits: bool, states: seq<State>, steps: seq<Step>, i: nat, x: nat)
    requires IsRun(max, waits, states, steps) && i < |states| && x in states[i].queue
    ensures x < |states[i].threads| && states[i].threads[x].waiter.conn.None?
  {
    hide Apply, Inv;
    RunKeeps(max, waits, states, steps, i);
    if i > 0 {
      var s, step := states[i - 1], steps[i - 1];
      RunKeeps(max, waits, states, steps, i - 1);
      if step.Enqueue? && x == step.t {
        NewlyQueued(s, x);
      } else {
        QueueSource(s, step, x);
        QueuedHaveNoConnection(max, waits, states, steps, i - 1, x);
        QueuedStayEmpty(s, step, x);
      }
    }
  }

  lemma NewlyQueued(s: State, t: nat)
    requires Inv(s) && TargetsExist(s) && Enabled(s, Enqueue(t))
    ensures Apply(s, Enqueue(t)).threads[t].waiter.conn.None?
  {
    hide Counted, Placed, Tracked, Locked, TargetsExist, DropClosed, Open;
    InvParts(s);
    assert WaiterOk(s.threads[t]);
  }

  /** Whoever is in the queue was there before, or has just queued itself. */
  lemma {:induction false} QueueSource(s: State, step: Step, x: nat)
    requires TargetsExist(s) && Enabled(s, step) && x in Apply(s, step).queue && !(step.Enqueue? && x == step.t)
    ensures x in s.queue
  {
    if step.Enqueue? {
      hide TargetsExist, DropClosed, Open;
      var k := DropClosedIs(s.queue, Open(s));
    } else {
      hide Apply, Enabled, TargetsExist;
      QueueShrinks(s, step, x);
    }
  }

  // ---------------------------------------------------------------- the cleaner

  function Cleaner(th: Thread): nat {
    match th.pc
    case Discounting(_, left) => Once(left.Some?)
    case Closing(_, left) => Once(left.Some?)
    case Cleaning(_) => 1
    case Stopping => 1
    case _ => 0
  }

  lemma {:induction false} SumSame(threads: seq<Thread>, after: seq<Thread>, f: Thread -> nat)
    requires |threads| <= |after|
    requires forall u :: 0 <= u < |threads| ==> f(after[u]) == f(threads[u])
    requires forall u :: |threads| <= u < |after| ==> f(after[u]) == 0
    ensures Sum(after, f) == Sum(threads, f)
  {
    if |after| > |threads| {
      SumSame(threads, after[..|after| - 1], f);
    } else if after != [] {
      SumSame(threads[..|threads| - 1], after[..|after| - 1], f);
    }
  }

  lemma {:induction false} DeliverCleaner(s: State, step: Step, u: nat)
    requires TargetsExist(s) && Enabled(s, step) && Delivers(step) && u < |Apply(s, step).threads|
    ensures u < |s.threads| && Cleaner(Apply(s, step).threads[u]) == Cleaner(s.threads[u])
  {
    hide TryDeliver;
    var pc := s.threads[step.t].pc;
    DeliverOnlyCloses(s, pc.target, if step.Fail? then None else Some(pc.conn));
  }

  lemma {:induction false} OtherCleaner(s: State, step: Step, u: nat)
    requires TargetsExist(s) && Enabled(s, step) && !Delivers(step) && !step.TakeOrCreate? && !step.ResetFlag?
    requires u < |Apply(s, step).threads| && (step.Arrive? || u != step.t)
    ensures Cleaner(Apply(s, step).threads[u]) == if u < |s.threads| then Cleaner(s.threads[u]) else 0
  {
    hide TargetsExist, DropClosed, Open, AfterDiscount;
  }

  /** The steps of a cleaner's own loop; other goroutines discount and close too. */
  predicate OfCleaner(step: Step) {
    step.Discount? || step.Close? || step.Pick? || step.Destroy? || step.Stop?
  }

  lemma {:induction false} CleanerStays(s: State, step: Step)
    requires TargetsExist(s) && Enabled(s, step) && OfCleaner(step)
    ensures step.t < |Apply(s, step).threads|
    ensures Cleaner(Apply(s, step).threads[step.t]) == Cleaner(s.threads[step.t])
  {
    hide TargetsExist, DropClosed, Open;
  }

  lemma {:induction false} OthersAreNone(s: State, step: Step)
    requires TargetsExist(s) && Enabled(s, step) && !Delivers(step) && !OfCleaner(step)
    requires !step.TakeOrCreate? && !step.ResetFlag? && !step.Arrive?
    ensures step.t < |Apply(s, step).threads|
    ensures Cleaner(Apply(s, step).threads[step.t]) == Cleaner(s.threads[step.t])
  {
    hide TargetsExist, DropClosed, Open;
  }

  lemma {:induction false} StepCleaner(s: State, step: Step, u: nat)
    requires TargetsExist(s) && Enabled(s, step) && !step.TakeOrCreate? && !step.ResetFlag? &&
      u < |Apply(s, step).threads|
    ensures Cleaner(Apply(s, step).threads[u]) == if u < |s.threads| then Cleaner(s.threads[u]) else 0
  {
    hide TargetsExist, Apply, Cleaner;
    if Delivers(step) {
      DeliverCleaner(s, step, u);
    } else if step.Arrive? || u != step.t {
      OtherCleaner(s, step, u);
    } else if OfCleaner(step) {
      CleanerStays(s, step);
    } else {
      OthersAreNone(s, step);
    }
  }

  lemma FlagKept(s: State, step: Step)
    requires TargetsExist(s) && Enabled(s, step) && !step.TakeOrCreate? && !step.ResetFlag?
    ensures Apply(s, step).cleanerRunning == s.cleanerRunning
  {
    hide TargetsExist, DropClosed, Open, AfterDiscount;
  }

  lemma {:induction false} CleanersKept(s: State, step: Step)
    requires TargetsExist(s) && Enabled(s, step) && Sum(s.threads, Cleaner) == Once(s.cleanerRunning)
    ensures Sum(Apply(s, step).threads, Cleaner) == Once(Apply(s, step).cleanerRunning)
  {
    if step.TakeOrCreate? || step.ResetFlag? {
      FlagSteps(s, step);
    } else {
      hide Apply, Enabled, Sum, Cleaner;
      FlagKept(s, step);
      if s.threads != [] {
        ReadyStaysClosed(s, step, |s.threads| - 1);
      }
      forall u: nat | u < |Apply(s, step).threads|
        ensures Cleaner(Apply(s, step).threads[u]) == if u < |s.threads| then Cleaner(s.threads[u]) else 0
      {
        StepCleaner(s, step, u);
      }
      SumSame(s.threads, Apply(s, step).threads, Cleaner);
    }
  }

  lemma {:induction false} FlagSteps(s: State, step: Step)
    requires TargetsExist(s) && Enabled(s, step) && (step.TakeOrCreate? || step.ResetFlag?)
    requires Sum(s.threads, Cleaner) == Once(s.cleanerRunning)
    ensures Sum(Apply(s, step).threads, Cleaner) == Once(Apply(s, step).cleanerRunning)
  {
    hide Sum, TargetsExist;
    var s' := Apply(s, step);
    SumUpdate(s.threads, Cleaner, step.t, s'.threads[step.t]);
    var moved := s.threads[step.t := s'.threads[step.t]];
    SumAppend(moved, Cleaner, Thread(Cleaning([]), UNUSED, false));
  }

  /** The flag is set exactly while one cleaner exists, and there are never two. */
  lemma {:induction false} OneCleaner(max: nat, waits: bool, states: seq<State>, steps: seq<Step>, i: nat)
    requires IsRun(max, waits, states, steps) && i < |states|
    ensures Sum(states[i].threads, Cleaner) == Once(states[i].cleanerRunning)
  {
    hide Apply, Enabled, Inv, Cleaner;
    if i > 0 {
      OneCleaner(max, waits, states, steps, i - 1);
      RunKeeps(max, waits, states, steps, i - 1);
      CleanersKept(states[i - 1], steps[i - 1]);
    }
  }

  /** "A cleaner runs whenever count > 0" is kept by every step but the cleaner's own reset of the
      flag outside the mutex, and broken by that exactly when count has grown since it saw zero. */
  lemma {:induction false} UncleanedIff(s: State, step: Step)
    requires TargetsExist(s) && Enabled(s, step) && (s.count > 0 ==> s.cleanerRunning)
    ensures var s' := Apply(s, step); s'.count > 0 && !s'.cleanerRunning <==> step.ResetFlag? && s.count > 0
  {
    hide TargetsExist, DropClosed, Open, AfterDiscount;
  }
}
