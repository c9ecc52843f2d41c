/** What each step of the pool does, told by what a caller sees of it: who is served, in which order, what
    becomes of connections and of units of count; and that no goroutine is ever stuck. */
module PoolSteps {
  import opened Words
  import opened Pool
  import opened PoolRuns

  // ---------------------------------------------------------------- frames

  /** Nothing but where goroutine t stands has changed. */
  ghost predicate OnlyMoves(s: State, r: State, t: nat, pc: Pc) {
    && OthersSame(s, r, t) && |r.threads| == |s.threads|
    && r.threads[t].pc == pc && r.threads[t].waiter == s.threads[t].waiter && r.threads[t].queued == s.threads[t].queued
    && r.conns == s.conns && r.count == s.count && r.queue == s.queue && r.cleanerRunning == s.cleanerRunning
    && r.lock == s.lock && r.live == s.live && r.next == s.next
  }

  // ---------------------------------------------------------------- serving callers in order

  lemma {:induction false} PopIs(s: State, k: nat)
    ensures FirstWaiting(s, k) ==> PopWaiting(s.queue, Open(s)) == (Some(s.queue[k]), s.queue[k + 1..])
    ensures NoneWaits(s) ==> PopWaiting(s.queue, Open(s)) == (None, [])
  {
    hide Open;
    var d := DropClosedIs(s.queue, Open(s));
  }

  /** Where a goroutine goes on after giving up a unit of count: it closes the connection it had, or it is
      the cleaner with the rest of its work, or it ends. */
  function AfterGiving(pc: Pc): Pc
    requires pc.Discounting?
  {
    if pc.closing.Some? then Closing(pc.closing.value, pc.left)
    else if pc.left.Some? then Cleaning(pc.left.value)
    else Done
  }

  /** A unit of count given up goes to a dial for the first caller still waiting, if there is one; those
      ahead of it had stopped waiting and leave the queue with it. Else count drops by one. */
  lemma {:induction false} DiscountServesFirst(s: State, t: nat, k: nat)
    requires TargetsExist(s) && Enabled(s, Discount(t))
    ensures var r := Apply(s, Discount(t));
      && OthersSame(s, r, t) && r.threads[t] == s.threads[t].(pc := AfterGiving(s.threads[t].pc))
      && r.conns == s.conns && r.live == s.live && r.cleanerRunning == s.cleanerRunning && r.lock == s.lock
      && (s.waits && FirstWaiting(s, k) ==>
            && r.count == s.count && r.queue == s.queue[k + 1..]
            && r.threads[|s.threads|..] == [Thread(DialFor(s.queue[k]), Waiter(None, false, 0), false)])
      && (!s.waits || NoneWaits(s) ==>
            && r.count == s.count - 1 && r.queue == (if s.waits then [] else s.queue)
            && |r.threads| == |s.threads|)
  {
    hide Open, TargetsExist, PopWaiting, FirstWaiting, NoneWaits;
    PopIs(s, k);
  }

  /** A caller queues behind all others, and those in front that wait no longer leave. */
  lemma {:induction false} EnqueueJoins(s: State, t: nat, k: nat)
    requires TargetsExist(s) && Enabled(s, Enqueue(t)) && k <= |s.queue|
    requires (forall j :: 0 <= j < k ==> s.queue[j] !in Open(s)) && (k < |s.queue| ==> s.queue[k] in Open(s))
    ensures var r := Apply(s, Enqueue(t));
      && OthersSame(s, r, t) && |r.threads| == |s.threads|
      && r.queue == s.queue[k..] + [t]
      && r.threads[t] == s.threads[t].(pc := Waiting, queued := true)
      && r.conns == s.conns && r.count == s.count && r.live == s.live && r.lock == s.lock
  {
    hide Open, TargetsExist;
    var d := DropClosedIs(s.queue, Open(s));
  }

  /** Who joins the queue in this step. */
  function Joining(step: Step): seq<nat> {
    if step.Enqueue? then [step.t] else []
  }

  /** Who queues itself in these steps, in order. */
  function Arrivals(steps: seq<Step>): seq<nat> {
    if steps == [] then []
    else
      var last := steps[|steps| - 1];
      Arrivals(steps[..|steps| - 1]) + Joining(last)
  }

  /** Some goroutine owes caller x a delivery. */
  ghost predicate IsOwed(s: State, x: nat) {
    exists u :: 0 <= u < |s.threads| && TargetOf(s.threads[u].pc) == Some(x)
  }

  /** The first k callers have left the queue in one step: only the last of them was still waiting, if any,
      and that one is owed an answer now. */
  ghost predicate Leave(s: State, r: State, k: nat, joined: seq<nat>) {
    && k <= |s.queue| && r.queue == s.queue[k..] + joined
    && forall i :: 0 <= i < k && s.queue[i] in Open(s) ==> i == k - 1 && IsOwed(r, s.queue[i])
  }

  /** Callers leave the queue in order, and nobody who still waits is passed over. */
  lemma {:induction false} LeaveInOrder(s: State, step: Step) returns (k: nat)
    requires TargetsExist(s) && Enabled(s, step)
    ensures Leave(s, Apply(s, step), k, Joining(step))
  {
    hide Open, TargetsExist, AfterDiscount;
    var d := DropClosedIs(s.queue, Open(s));
    k := 0;
    match step
    case Enqueue(t) => k := d;
    case Recycle(t) => k := RecycleLeaves(s, t, d);
    case Discount(t) => k := DiscountLeaves(s, t, d);
    case _ => StayQueued(s, step);
  }

  lemma {:induction false} RecycleLeaves(s: State, t: nat, d: nat) returns (k: nat)
    requires TargetsExist(s) && Enabled(s, Recycle(t))
    requires d <= |s.queue| && DropClosed(s.queue, Open(s)) == s.queue[d..]
    requires (forall i :: 0 <= i < d ==> s.queue[i] !in Open(s)) && (d < |s.queue| ==> s.queue[d] in Open(s))
    ensures Leave(s, Apply(s, Recycle(t)), k, [])
  {
    hide Open, TargetsExist;
    k := if !s.waits then 0 else if d < |s.queue| then d + 1 else d;
    if s.waits && d < |s.queue| {
      assert TargetOf(Apply(s, Recycle(t)).threads[t].pc) == Some(s.queue[d]);
    }
  }

  lemma {:induction false} DiscountLeaves(s: State, t: nat, d: nat) returns (k: nat)
    requires TargetsExist(s) && Enabled(s, Discount(t))
    requires d <= |s.queue| && DropClosed(s.queue, Open(s)) == s.queue[d..]
    requires (forall i :: 0 <= i < d ==> s.queue[i] !in Open(s)) && (d < |s.queue| ==> s.queue[d] in Open(s))
    ensures Leave(s, Apply(s, Discount(t)), k, [])
  {
    hide Open, TargetsExist, AfterDiscount;
    k := if !s.waits then 0 else if d < |s.queue| then d + 1 else d;
    if s.waits && d < |s.queue| {
      assert TargetOf(Apply(s, Discount(t)).threads[|s.threads|].pc) == Some(s.queue[d]);
    }
  }

  lemma StayQueued(s: State, step: Step)
    requires TargetsExist(s) && Enabled(s, step) && !step.Enqueue? && !step.Recycle? && !step.Discount?
    ensures Apply(s, step).queue == s.queue
  {
    hide Open, TargetsExist;
  }

  ghost predicate LeavesInOrder(s: State, r: State, joined: seq<nat>) {
    exists k :: Leave(s, r, k, joined)
  }

  ghost predicate LeftOf(queue: seq<nat>, all: seq<nat>) {
    exists k :: 0 <= k <= |all| && queue == all[k..]
  }

  /** First come, first served. In every state of every run the queue is what is left of all who ever queued
      themselves, in that order; and in every step those who leave it stand at its front and wait no longer,
      but for the last of them, who is owed an answer from then on. */
  lemma {:induction false} FirstComeFirstServed(
    max: nat, waits: bool, states: seq<State>, steps: seq<Step>, i: nat)
    requires IsRun(max, waits, states, steps) && i < |states|
    ensures LeftOf(states[i].queue, Arrivals(steps[..i]))
    ensures i < |steps| ==> LeavesInOrder(states[i], states[i + 1], Joining(steps[i]))
  {
    hide Apply, Inv, Enabled, Leave;
    RunKeeps(max, waits, states, steps, i);
    if i < |steps| {
      assert Next(states[i], steps[i], states[i + 1]);
      var k := LeaveInOrder(states[i], steps[i]);
    }
    if i == 0 {
      assert states[0].queue == Arrivals(steps[..0])[0..];
    } else {
      FirstComeFirstServed(max, waits, states, steps, i - 1);
      assert steps[..i][..i - 1] == steps[..i - 1];
      StillLeftOf(states[i - 1], states[i], Arrivals(steps[..i - 1]), Joining(steps[i - 1]));
    }
  }

  lemma StillLeftOf(s: State, r: State, before: seq<nat>, joined: seq<nat>)
    requires LeftOf(s.queue, before) && LeavesInOrder(s, r, joined)
    ensures LeftOf(r.queue, before + joined)
  {
    hide Leave;
    var k :| 0 <= k <= |before| && s.queue == before[k..];
    var l :| Leave(s, r, l, joined);
    LeftOver(before, joined, k, s, r, l);
  }

  lemma LeftOver(before: seq<nat>, joined: seq<nat>, k: nat, s: State, r: State, l: nat)
    requires k <= |before| && s.queue == before[k..] && Leave(s, r, l, joined)
    ensures k + l <= |before + joined| && r.queue == (before + joined)[k + l..]
  {
    hide Open;
  }

  // ---------------------------------------------------------------- getting and giving back

  /** A caller takes the connection that became idle last; with none idle it dials, if the limit allows, and
      starts a cleaner if there is none; else it will have to wait. */
  lemma {:induction false} AcquireIs(s: State, t: nat)
    requires TargetsExist(s) && Enabled(s, TakeOrCreate(t))
    ensures var r := Apply(s, TakeOrCreate(t));
      if s.conns != [] then
        var last := |s.conns| - 1;
        OnlyMoves(s.(conns := s.conns[..last]), r, t, Holding(s.conns[last]))
      else if s.count >= s.max then OnlyMoves(s, r, t, MustWait)
      else
        && OthersSame(s, r, t) && r.threads[t] == s.threads[t].(pc := DialOwn)
        && r.threads[|s.threads|..] ==
             (if s.cleanerRunning then [] else [Thread(Cleaning([]), Waiter(None, false, 0), false)])
        && r.count == s.count + 1 && r.cleanerRunning && r.conns == [] && r.queue == s.queue && r.live == s.live
  {
    hide TargetsExist;
  }

  /** A request that succeeded gives its connection back; one that failed destroys it. */
  lemma FinishIs(s: State, t: nat, ok: bool)
    requires TargetsExist(s) && Enabled(s, Finish(t, ok))
    ensures var c := s.threads[t].pc.conn;
      OnlyMoves(s, Apply(s, Finish(t, ok)), t, if ok then Recycling(c) else Discounting(Some(c), None))
  {
    hide TargetsExist;
  }

  /** A dial that succeeds makes one connection that was not there before, for whom it was made; one that
      fails gives its unit of count up, after telling the caller it was made for. */
  lemma {:induction false} DialIs(s: State, t: nat, ok: bool, own: bool)
    requires Inv(s) && TargetsExist(s) && Enabled(s, if own then OwnDial(t, ok) else DialReturns(t, ok))
    ensures var r, c := Apply(s, if own then OwnDial(t, ok) else DialReturns(t, ok)), s.next;
      if ok then
        && c !in s.live
        && OnlyMoves(s.(live := s.live + {c}, next := r.next), r, t,
             if own then Holding(c) else Handing(c, s.threads[t].pc.target))
      else OnlyMoves(s, r, t, if own then Discounting(None, None) else Failing(s.threads[t].pc.target))
  {
    hide TargetsExist, Counted, Tracked, Locked, WaiterOk;
  }

  // ---------------------------------------------------------------- the end of a wait

  /** A caller whose ready is closed takes the connection there is, or gives up with the error; the timer and
      the missing wait timeout make it give up without one. */
  lemma {:induction false} WaitEnds(s: State, t: nat)
    requires TargetsExist(s)
    ensures Enabled(s, Ready(t)) ==>
      OnlyMoves(s, Apply(s, Ready(t)), t,
        match s.threads[t].waiter.conn case Some(c) => Holding(c) case None => Cancelling)
    ensures Enabled(s, Timeout(t)) ==> OnlyMoves(s, Apply(s, Timeout(t)), t, Cancelling)
    ensures Enabled(s, GiveUp(t)) ==> OnlyMoves(s, Apply(s, GiveUp(t)), t, Done)
  {
    hide TargetsExist;
  }

  /** cancel leaves an error, and ready closed once; a connection that had come is given back. */
  lemma CancelIs(s: State, t: nat)
    requires TargetsExist(s) && Enabled(s, Cancel(t))
    ensures var r, w := Apply(s, Cancel(t)), s.threads[t].waiter;
      && OnlyMoves(s.(threads := s.threads[t := s.threads[t].(waiter := r.threads[t].waiter)]), r, t,
           match w.conn case Some(c) => Recycling(c) case None => Done)
      && r.threads[t].waiter.conn == None && r.threads[t].waiter.err
      && r.threads[t].waiter.closes == w.closes + if w.conn == None && !w.err then 1 else 0
  {
    hide TargetsExist;
  }

  predicate HasAnswer(w: Waiter<nat>) {
    w.conn.Some? || w.err
  }

  /** What a caller has after an answer has come for it: the first answer stays. */
  function Answered(w: Waiter<nat>, conn: Option<nat>): Waiter<nat> {
    if HasAnswer(w) then w else Waiter(conn, conn == None, w.closes + 1)
  }

  /** Goroutine t has answered caller x. */
  ghost predicate Answers(s: State, r: State, t: nat, x: nat, conn: Option<nat>, pc: Pc) {
    && t < |s.threads| && x < |s.threads| && |r.threads| == |s.threads|
    && (forall u :: 0 <= u < |s.threads| ==>
          && r.threads[u].pc == (if u == t then pc else s.threads[u].pc) && r.threads[u].queued == s.threads[u].queued
          && r.threads[u].waiter == if u == x then Answered(s.threads[x].waiter, conn) else s.threads[u].waiter)
    && r.count == s.count && r.queue == s.queue && r.live == s.live && r.cleanerRunning == s.cleanerRunning
  }

  /** A recycle answers the caller found waiting; if that has cancelled meanwhile, the connection becomes the
      last of the idle ones. Either way the mutex is free again. */
  lemma OfferIs(s: State, t: nat)
    requires TargetsExist(s) && Enabled(s, Offer(t))
    ensures var r, x, c := Apply(s, Offer(t)), s.threads[t].pc.target, s.threads[t].pc.conn;
      && Answers(s, r, t, x, Some(c), Done) && r.lock == None
      && r.conns == s.conns + if HasAnswer(s.threads[x].waiter) then [c] else []
  {
    hide Open;
  }

  /** A dial answers its caller; if that has an answer already, the connection is given back. */
  lemma HandIs(s: State, t: nat)
    requires TargetsExist(s) && Enabled(s, Hand(t))
    ensures var r, x, c := Apply(s, Hand(t)), s.threads[t].pc.target, s.threads[t].pc.conn;
      && Answers(s, r, t, x, Some(c), if HasAnswer(s.threads[x].waiter) then Recycling(c) else Done)
      && r.lock == s.lock && r.conns == s.conns
  {
    hide Open;
  }

  /** A failed dial answers its caller with the error, and gives its unit of count up whether that was news
      or not. */
  lemma FailIs(s: State, t: nat)
    requires TargetsExist(s) && Enabled(s, Fail(t))
    ensures var r := Apply(s, Fail(t));
      && Answers(s, r, t, s.threads[t].pc.target, None, Discounting(None, None))
      && r.lock == s.lock && r.conns == s.conns
  {
    hide Open;
  }

  // ---------------------------------------------------------------- the cleaner

  /** The cleaner takes the connections idle longest, and destroys them one after the other in that order. */
  lemma CleanerPicks(s: State, t: nat, k: nat)
    requires TargetsExist(s)
    ensures Enabled(s, Pick(t, k)) ==>
      OnlyMoves(s.(conns := s.conns[k..]), Apply(s, Pick(t, k)), t, Cleaning(s.conns[..k]))
    ensures Enabled(s, Destroy(t)) ==>
      var scratch := s.threads[t].pc.scratch;
      OnlyMoves(s, Apply(s, Destroy(t)), t, Discounting(Some(scratch[0]), Some(scratch[1..])))
  {
    hide TargetsExist;
  }

  /** A connection is closed after its unit of count was given up; the cleaner goes on with the rest. */
  lemma CloseIs(s: State, t: nat)
    requires TargetsExist(s) && Enabled(s, Close(t))
    ensures var pc := s.threads[t].pc;
      OnlyMoves(s.(live := s.live - {pc.conn}), Apply(s, Close(t)), t,
        match pc.left case Some(left) => Cleaning(left) case None => Done)
  {
    hide TargetsExist;
  }

  /** The cleaner ends only having seen count zero, and resets the flag after that. */
  lemma CleanerEnds(s: State, t: nat)
    requires TargetsExist(s)
    ensures Enabled(s, Stop(t)) ==> s.count == 0 && OnlyMoves(s, Apply(s, Stop(t)), t, Stopping)
    ensures Enabled(s, ResetFlag(t)) ==> OnlyMoves(s.(cleanerRunning := false), Apply(s, ResetFlag(t)), t, Done)
  {
    hide TargetsExist;
  }

  // ---------------------------------------------------------------- no goroutine is stuck

  /** Steps of goroutine t that may come next, whatever the others do, provided the mutex is free for those
      that need it. Both outcomes of a dial or of a request are among them, and every time at which the
      timer may fire. */
  ghost predicate MayGoOn(s: State, t: nat)
    requires t < |s.threads|
  {
    match s.threads[t].pc
    case Start => Enabled(s, TakeOrCreate(t))
    case DialOwn => Enabled(s, OwnDial(t, true)) && Enabled(s, OwnDial(t, false))
    case MustWait => if s.waits then Enabled(s, Enqueue(t)) else Enabled(s, GiveUp(t))
    case Waiting => Enabled(s, Timeout(t)) && (s.threads[t].waiter.closes > 0 ==> Enabled(s, Ready(t)))
    case Cancelling => Enabled(s, Cancel(t))
    case Holding(_) => Enabled(s, Finish(t, true)) && Enabled(s, Finish(t, false))
    case Recycling(_) => Enabled(s, Recycle(t))
    case Offering(_, _) => Enabled(s, Offer(t))
    case Discounting(_, _) => Enabled(s, Discount(t))
    case Closing(_, _) => Enabled(s, Close(t))
    case DialFor(_) => Enabled(s, DialReturns(t, true)) && Enabled(s, DialReturns(t, false))
    case Handing(_, _) => Enabled(s, Hand(t))
    case Failing(_) => Enabled(s, Fail(t))
    case Cleaning(scratch) =>
      if scratch != [] then Enabled(s, Destroy(t))
      else (forall k :: 0 <= k <= |s.conns| ==> Enabled(s, Pick(t, k))) && (s.count == 0 ==> Enabled(s, Stop(t)))
    case Stopping => Enabled(s, ResetFlag(t))
    case Done => true
  }

  /** In every state of every run every goroutine may go on, or waits for the mutex alone; whoever has that
      may go on and gives it back at once. So there is no deadlock. */
  lemma {:induction false} NeverStuck(max: nat, waits: bool, states: seq<State>, steps: seq<Step>, i: nat, t: nat)
    requires IsRun(max, waits, states, steps) && i < |states| && t < |states[i].threads|
    ensures MayGoOn(states[i], t) || exists u :: GivesBack(states[i], u)
  {
    hide Apply, Inv, Enabled, MayGoOn, Counted, Placed, Tracked, WaiterOk, GivesBack;
    RunKeeps(max, waits, states, steps, i);
    InvParts(states[i]);
    if states[i].lock.None? {
      FreeGoesOn(states[i], t);
    } else {
      HolderGivesBack(states[i], states[i].lock.value);
    }
  }

  /** Goroutine u has the mutex, and its next step gives it back. */
  ghost predicate GivesBack(s: State, u: nat) {
    s.lock == Some(u) && TargetsExist(s) && Enabled(s, Offer(u)) && Apply(s, Offer(u)).lock == None
  }

  lemma FreeGoesOn(s: State, t: nat)
    requires t < |s.threads| && s.lock.None?
    ensures MayGoOn(s, t)
  {
    if s.threads[t].pc.Cleaning? {
      CleanerGoesOn(s, t);
    }
  }

  lemma CleanerGoesOn(s: State, t: nat)
    requires t < |s.threads| && s.lock.None? && s.threads[t].pc.Cleaning?
    ensures MayGoOn(s, t)
  {
  }

  lemma HolderGivesBack(s: State, u: nat)
    requires Locked(s) && TargetsExist(s) && s.lock == Some(u)
    ensures GivesBack(s, u)
  {
    OfferIs(s, u);
  }
}
