/** The connection pool of HostClient under every interleaving of its goroutines. A step is one
    mutex section, one operation under a waiter's own lock, one channel receive, or one outcome of
    a dial. Where tryRecycleClientConn finds a waiter it keeps the pool's mutex between waiting()
    and tryDeliver, and other goroutines' steps on that waiter may fall in between.

    Because ready goes from open to closed and never back, and the queue changes only under the
    mutex, popping callers until one is found waiting has one atomic effect, at the last check. */
module Pool {
  import opened Words

  // ---------------------------------------------------------------- what a section computes

  /** The first callers of the queue that wait no longer are dropped. */
  function DropClosed<W(==)>(queue: seq<W>, open: set<W>): seq<W> {
    if queue != [] && queue[0] !in open then DropClosed(queue[1..], open) else queue
  }

  /** The first caller found waiting, and what is left of the queue. */
  function PopWaiting<W(==)>(queue: seq<W>, open: set<W>): (Option<W>, seq<W>) {
    var rest := DropClosed(queue, open);
    if rest == [] then (None, []) else (Some(rest[0]), rest[1..])
  }

  datatype Acquired<+C> = Provisioned(conn: C) | Create | Exhausted

  /** The first section of tryAcquireClientConn: the idle connection used last, else a new one if
      the limit allows. */
  function Acquire<C>(conns: seq<C>, count: int, max: int): Acquired<C> {
    if |conns| > 0 then Provisioned(conns[|conns| - 1])
    else if count < max then Create
    else Exhausted
  }

  /** DropClosed drops exactly the longest prefix of callers that wait no longer. */
  lemma {:induction false} DropClosedIs<W>(queue: seq<W>, open: set<W>) returns (k: nat)
    ensures k <= |queue| && DropClosed(queue, open) == queue[k..]
    ensures (forall i :: 0 <= i < k ==> queue[i] !in open) && (k < |queue| ==> queue[k] in open)
  {
    if queue != [] && queue[0] !in open {
      k := DropClosedIs(queue[1..], open);
      k := k + 1;
    } else {
      k := 0;
    }
  }

  // ---------------------------------------------------------------- state

  /** waitingCaller: closes counts how often ready has been closed; closing it twice panics. */
  datatype Waiter<+C> = Waiter(conn: Option<C>, err: bool, closes: nat)

  const UNUSED: Waiter<nat> := Waiter(None, false, 0)

  predicate Taken<C>(w: Waiter<C>) {
    w.conn.Some? || w.err
  }

  /** tryDeliver stores nothing when a connection or an error is there already. */
  function Deliver<C>(w: Waiter<C>, conn: Option<C>): Waiter<C> {
    if Taken(w) then w else Waiter(conn, conn.None?, w.closes + 1)
  }

  /** cancel closes ready unless a result is there, takes a delivered connection back, and records
      an error. */
  function Withdraw<C>(w: Waiter<C>): Waiter<C> {
    Waiter(None, true, if Taken(w) then w.closes else w.closes + 1)
  }

  /** Where a goroutine stands. left is, for the cleaner, what it has yet to destroy. */
  datatype Pc =
    | Start                              // about to ask for a connection
    | DialOwn                            // dialling for itself
    | MustWait                           // no connection to be had, not queued yet
    | Waiting                            // queued, in the select
    | Cancelling                         // its deferred cancel is due
    | Holding(conn: nat)                 // using a connection
    | Recycling(conn: nat)               // in tryRecycleClientConn, before the mutex
    | Offering(conn: nat, target: nat)   // there, with the mutex: target was seen waiting
    | Discounting(closing: Option<nat>, left: Option<seq<nat>>)  // in decrementCount..., before the mutex
    | Closing(conn: nat, left: Option<seq<nat>>)                 // discounted, Close is due
    | DialFor(target: nat)               // in tryDialForWaitingCaller, dialling
    | Handing(conn: nat, target: nat)    // dialled, tryDeliver is due
    | Failing(target: nat)               // dial failed, tryDeliver(nil, err) is due
    | Cleaning(scratch: seq<nat>)        // the cleaner, with the idle connections it picked
    | Stopping                           // the cleaner, about to reset the flag, without the mutex
    | Done

  /** queued: the caller has entered the queue at some time. */
  datatype Thread = Thread(pc: Pc, waiter: Waiter<nat>, queued: bool)

  /** max is the effective limit; waits is MaxConnWaitTimeout > 0; lock is who is between the two
      halves of a recycle; live are the connections dialled and not closed. */
  datatype State = State(
    max: nat, waits: bool, conns: seq<nat>, count: int, queue: seq<nat>, cleanerRunning: bool,
    lock: Option<nat>, threads: seq<Thread>, live: set<nat>, next: nat)

  function Initial(max: nat, waits: bool): State {
    State(max, waits, [], 0, [], false, None, [], {}, 0)
  }

  // ---------------------------------------------------------------- steps

  datatype Step =
    | Arrive                                     // a new goroutine calls do
    | TakeOrCreate(t: nat)                       // first section of tryAcquireClientConn
    | GiveUp(t: nat)                             // no wait timeout configured: ErrNoFreeConns
    | Enqueue(t: nat)                            // queueWaitingCaller
    | Ready(t: nat)                              // ready is closed: take the result
    | Timeout(t: nat)                            // the timer fires
    | Cancel(t: nat)                             // cancel, under the waiter's lock
    | OwnDial(t: nat, ok: bool)                  // dialAddr in tryAcquireClientConn returns
    | Finish(t: nat, ok: bool)                   // the request is over: recycle, or destroy on error
    | Recycle(t: nat)                            // tryRecycleClientConn up to tryDeliver
    | Offer(t: nat)                              // its tryDeliver and the rest
    | Discount(t: nat)                           // decrementCountOrTryDialForWaitingCaller
    | Close(t: nat)                              // closing a destroyed connection
    | DialReturns(t: nat, ok: bool)              // dialAddr in tryDialForWaitingCaller returns
    | Hand(t: nat)                               // its tryDeliver of the connection
    | Fail(t: nat)                               // its tryDeliver of the error
    | Pick(t: nat, k: nat)                       // the cleaner takes the k longest idle connections
    | Destroy(t: nat)                            // the cleaner destroys the next of them
    | Stop(t: nat)                               // the cleaner finds count zero
    | ResetFlag(t: nat)                          // and ends

  function Open(s: State): set<nat> {
    set t: nat | t < |s.threads| && s.threads[t].waiter.closes == 0
  }

  ghost predicate Enabled(s: State, step: Step) {
    if step.Arrive? then true
    else
      step.t < |s.threads| &&
      var pc := s.threads[step.t].pc;
      match step
      case TakeOrCreate(_) => pc.Start? && s.lock.None?
      case GiveUp(_) => pc.MustWait? && !s.waits
      case Enqueue(_) => pc.MustWait? && s.waits && s.lock.None?
      case Ready(t) => pc.Waiting? && s.threads[t].waiter.closes > 0
      case Timeout(_) => pc.Waiting?
      case Cancel(_) => pc.Cancelling?
      case OwnDial(_, _) => pc.DialOwn?
      case Finish(_, _) => pc.Holding?
      case Recycle(_) => pc.Recycling? && s.lock.None?
      case Offer(_) => pc.Offering?
      case Discount(_) => pc.Discounting? && s.lock.None?
      case Close(_) => pc.Closing?
      case DialReturns(_, _) => pc.DialFor?
      case Hand(_) => pc.Handing?
      case Fail(_) => pc.Failing?
      case Pick(_, k) => pc.Cleaning? && pc.scratch == [] && k <= |s.conns| && s.lock.None?
      case Destroy(_) => pc.Cleaning? && pc.scratch != []
      case Stop(_) => pc.Cleaning? && pc.scratch == [] && s.count == 0 && s.lock.None?
      case ResetFlag(_) => pc.Stopping?
  }

  function Move(s: State, t: nat, pc: Pc): State
    requires t < |s.threads|
  {
    s.(threads := s.threads[t := s.threads[t].(pc := pc)])
  }

  function Spawn(s: State, pc: Pc): State {
    s.(threads := s.threads + [Thread(pc, UNUSED, false)])
  }

  function WithWaiter(s: State, t: nat, w: Waiter<nat>): State
    requires t < |s.threads|
  {
    s.(threads := s.threads[t := s.threads[t].(waiter := w)])
  }

  function Resume(left: Option<seq<nat>>): Pc {
    if left.Some? then Cleaning(left.value) else Done
  }

  function AfterDiscount(pc: Pc): Pc
    requires pc.Discounting?
  {
    if pc.closing.Some? then Closing(pc.closing.value, pc.left) else Resume(pc.left)
  }

  function Left(left: Option<seq<nat>>): seq<nat> {
    if left.Some? then left.value else []
  }

  function TryDeliver(s: State, target: nat, conn: Option<nat>): State
    requires target < |s.threads|
  {
    var w := s.threads[target].waiter;
    if Taken(w) then s else WithWaiter(s, target, Deliver(w, conn))
  }

  /** The caller that a goroutine has taken out of the queue and owes a delivery. */
  function TargetOf(pc: Pc): Option<nat> {
    match pc
    case Offering(_, x) => Some(x)
    case DialFor(x) => Some(x)
    case Handing(_, x) => Some(x)
    case Failing(x) => Some(x)
    case _ => None
  }

  ghost predicate TargetsExist(s: State) {
    && (forall x :: x in s.queue ==> x < |s.threads|)
    && forall t :: 0 <= t < |s.threads| && TargetOf(s.threads[t].pc).Some? ==>
      TargetOf(s.threads[t].pc).value < |s.threads|
  }

  function Apply(s: State, step: Step): State
    requires TargetsExist(s) && Enabled(s, step)
  {
    match step
    case Arrive => Spawn(s, Start)
    case TakeOrCreate(t) => ApplyTakeOrCreate(s, t)
    case GiveUp(t) => Move(s, t, Done)
    case Enqueue(t) =>
      s.(queue := DropClosed(s.queue, Open(s)) + [t],
         threads := s.threads[t := s.threads[t].(pc := Waiting, queued := true)])
    case Ready(t) =>
      var w := s.threads[t].waiter;
      Move(s, t, if w.conn.Some? then Holding(w.conn.value) else Cancelling)
    case Timeout(t) => Move(s, t, Cancelling)
    case Cancel(t) => ApplyCancel(s, t)
    case OwnDial(t, ok) =>
      if ok then Move(s, t, Holding(s.next)).(live := s.live + {s.next}, next := s.next + 1)
      else Move(s, t, Discounting(None, None))
    case Finish(t, ok) =>
      var c := s.threads[t].pc.conn;
      Move(s, t, if ok then Recycling(c) else Discounting(Some(c), None))
    case Recycle(t) => ApplyRecycle(s, t)
    case Offer(t) => ApplyOffer(s, t)
    case Discount(t) => ApplyDiscount(s, t)
    case Close(t) =>
      var pc := s.threads[t].pc;
      Move(s, t, Resume(pc.left)).(live := s.live - {pc.conn})
    case DialReturns(t, ok) =>
      var x := s.threads[t].pc.target;
      if ok then Move(s, t, Handing(s.next, x)).(live := s.live + {s.next}, next := s.next + 1)
      else Move(s, t, Failing(x))
    case Hand(t) =>
      var pc := s.threads[t].pc;
      Move(TryDeliver(s, pc.target, Some(pc.conn)), t,
        if Taken(s.threads[pc.target].waiter) then Recycling(pc.conn) else Done)
    case Fail(t) => Move(TryDeliver(s, s.threads[t].pc.target, None), t, Discounting(None, None))
    case Pick(t, k) => Move(s, t, Cleaning(s.conns[..k])).(conns := s.conns[k..])
    case Destroy(t) =>
      var scratch := s.threads[t].pc.scratch;
      Move(s, t, Discounting(Some(scratch[0]), Some(scratch[1..])))
    case Stop(t) => Move(s, t, Stopping)
    case ResetFlag(t) => Move(s, t, Done).(cleanerRunning := false)
  }

  function ApplyTakeOrCreate(s: State, t: nat): State
    requires t < |s.threads|
  {
    match Acquire(s.conns, s.count, s.max)
    case Provisioned(c) => Move(s, t, Holding(c)).(conns := s.conns[..|s.conns| - 1])
    case Exhausted => Move(s, t, MustWait)
    case Create =>
      var s' := Move(s, t, DialOwn).(count := s.count + 1, cleanerRunning := true);
      if s.cleanerRunning then s' else Spawn(s', Cleaning([]))
  }

  function ApplyCancel(s: State, t: nat): State
    requires t < |s.threads|
  {
    var w := s.threads[t].waiter;
    var s' := WithWaiter(s, t, Withdraw(w));
    Move(s', t, if w.conn.Some? then Recycling(w.conn.value) else Done)
  }

  function ApplyRecycle(s: State, t: nat): State
    requires t < |s.threads| && s.threads[t].pc.Recycling?
  {
    var c := s.threads[t].pc.conn;
    if !s.waits then Move(s, t, Done).(conns := s.conns + [c])
    else
      match PopWaiting(s.queue, Open(s))
      case (None, _) => Move(s, t, Done).(conns := s.conns + [c], queue := [])
      case (Some(x), rest) => Move(s, t, Offering(c, x)).(queue := rest, lock := Some(t))
  }

  function ApplyOffer(s: State, t: nat): State
    requires t < |s.threads| && s.threads[t].pc.Offering? && s.threads[t].pc.target < |s.threads|
  {
    var pc := s.threads[t].pc;
    var s' := Move(TryDeliver(s, pc.target, Some(pc.conn)), t, Done).(lock := None);
    if Taken(s.threads[pc.target].waiter) then s'.(conns := s.conns + [pc.conn]) else s'
  }

  function ApplyDiscount(s: State, t: nat): State
    requires t < |s.threads| && s.threads[t].pc.Discounting?
  {
    var pc := s.threads[t].pc;
    var after := AfterDiscount(pc);
    if !s.waits then Move(s, t, after).(count := s.count - 1)
    else
      match PopWaiting(s.queue, Open(s))
      case (None, _) => Move(s, t, after).(count := s.count - 1, queue := [])
      case (Some(x), rest) => Spawn(Move(s, t, after).(queue := rest), DialFor(x))
  }

  // ---------------------------------------------------------------- sums over goroutines

  function Sum(threads: seq<Thread>, f: Thread -> nat): nat {
    if threads == [] then 0 else Sum(threads[..|threads| - 1], f) + f(threads[|threads| - 1])
  }

  lemma {:induction false} SumUpdate(threads: seq<Thread>, f: Thread -> nat, t: nat, th: Thread)
    requires t < |threads|
    ensures Sum(threads[t := th], f) + f(threads[t]) == Sum(threads, f) + f(th)
  {
    var last := |threads| - 1;
    if t == last {
      assert threads[t := th][..last] == threads[..last];
    } else {
      SumUpdate(threads[..last], f, t, th);
      assert threads[t := th][..last] == threads[..last][t := th];
    }
  }

  lemma SumAppend(threads: seq<Thread>, f: Thread -> nat, th: Thread)
    ensures Sum(threads + [th], f) == Sum(threads, f) + f(th)
  {
    assert (threads + [th])[..|threads|] == threads;
  }

  function Once(b: bool): nat {
    if b then 1 else 0
  }

  /** How many units of count a goroutine answers for: a connection it holds, one delivered to it
      and not yet taken, a dial in flight, connections picked and not yet discounted. */
  function Charge(th: Thread): nat {
    match th.pc
    case Start => 0
    case DialOwn => 1
    case MustWait => 0
    case Waiting => Once(th.waiter.conn.Some?)
    case Cancelling => Once(th.waiter.conn.Some?)
    case Holding(_) => 1
    case Recycling(_) => 1
    case Offering(_, _) => 1
    case Discounting(_, left) => 1 + |Left(left)|
    case Closing(_, left) => |Left(left)|
    case DialFor(_) => 1
    case Handing(_, _) => 1
    case Failing(_) => 1
    case Cleaning(scratch) => |scratch|
    case Stopping => 0
    case Done => 0
  }

  /** How often connection c is in the hands of a goroutine. */
  function Holds(th: Thread, c: nat): nat {
    match th.pc
    case Waiting => Once(th.waiter.conn == Some(c))
    case Cancelling => Once(th.waiter.conn == Some(c))
    case Holding(d) => Once(d == c)
    case Recycling(d) => Once(d == c)
    case Offering(d, _) => Once(d == c)
    case Discounting(closing, left) => Once(closing == Some(c)) + multiset(Left(left))[c]
    case Closing(d, left) => Once(d == c) + multiset(Left(left))[c]
    case Handing(d, _) => Once(d == c)
    case Cleaning(scratch) => multiset(scratch)[c]
    case _ => 0
  }

  function Owes(th: Thread, x: nat): nat {
    Once(TargetOf(th.pc) == Some(x))
  }

  function Charges(threads: seq<Thread>): nat {
    Sum(threads, Charge)
  }

  function HoldsOf(c: nat): Thread -> nat {
    th => Holds(th, c)
  }

  function OwesOf(x: nat): Thread -> nat {
    th => Owes(th, x)
  }

  function Held(threads: seq<Thread>, c: nat): nat {
    Sum(threads, HoldsOf(c))
  }

  function Owed(threads: seq<Thread>, x: nat): nat {
    Sum(threads, OwesOf(x))
  }

  lemma {:induction false} Updated(threads: seq<Thread>, t: nat, th: Thread)
    requires t < |threads|
    ensures Charges(threads[t := th]) + Charge(threads[t]) == Charges(threads) + Charge(th)
    ensures forall c :: Held(threads[t := th], c) + Holds(threads[t], c) == Held(threads, c) + Holds(th, c)
    ensures forall x :: Owed(threads[t := th], x) + Owes(threads[t], x) == Owed(threads, x) + Owes(th, x)
  {
    hide Charge, Holds, Owes, Sum;
    SumUpdate(threads, Charge, t, th);
    forall c ensures Held(threads[t := th], c) + Holds(threads[t], c) == Held(threads, c) + Holds(th, c) {
      SumUpdate(threads, HoldsOf(c), t, th);
    }
    forall x ensures Owed(threads[t := th], x) + Owes(threads[t], x) == Owed(threads, x) + Owes(th, x) {
      SumUpdate(threads, OwesOf(x), t, th);
    }
  }

  lemma {:induction false} Appended(threads: seq<Thread>, th: Thread)
    ensures Charges(threads + [th]) == Charges(threads) + Charge(th)
    ensures forall c :: Held(threads + [th], c) == Held(threads, c) + Holds(th, c)
    ensures forall x :: Owed(threads + [th], x) == Owed(threads, x) + Owes(th, x)
  {
    hide Charge, Holds, Owes, Sum;
    SumAppend(threads, Charge, th);
    forall c ensures Held(threads + [th], c) == Held(threads, c) + Holds(th, c) {
      SumAppend(threads, HoldsOf(c), th);
    }
    forall x ensures Owed(threads + [th], x) == Owed(threads, x) + Owes(th, x) {
      SumAppend(threads, OwesOf(x), th);
    }
  }

  // ---------------------------------------------------------------- invariant

  /** count is idle connections plus what goroutines answer for, and never exceeds the limit. */
  ghost predicate Counted(s: State) {
    s.count == |s.conns| + Charges(s.threads) && s.count <= s.max
  }

  /** Every live connection is in exactly one place, and nothing else is anywhere. */
  ghost predicate Placed(s: State) {
    && (forall c: nat :: multiset(s.conns)[c] + Held(s.threads, c) == Once(c in s.live))
    && forall c :: c in s.live ==> c < s.next
  }

  ghost predicate WaiterOk(th: Thread) {
    && th.waiter.closes == Once(Taken(th.waiter)) && !(th.waiter.conn.Some? && th.waiter.err)
    && (!th.queued ==> th.waiter == UNUSED)
    && (th.pc.Waiting? || th.pc.Cancelling? ==> th.queued)
    && (th.pc.Start? || th.pc.DialOwn? || th.pc.MustWait? ==> !th.queued)
    && (th.queued && !Taken(th.waiter) ==> th.pc.Waiting? || th.pc.Cancelling?)
  }

  /** How often caller x is in the queue or owed a delivery. */
  function Refs(s: State, x: nat): nat {
    multiset(s.queue)[x] + Owed(s.threads, x)
  }

  ghost predicate Tracked(s: State) {
    && (forall x: nat :: Refs(s, x) <= 1)
    && (forall x: nat :: x >= |s.threads| || !s.threads[x].queued ==> Refs(s, x) == 0)
    && forall x: nat :: x < |s.threads| && s.threads[x].queued && !Taken(s.threads[x].waiter) ==> Refs(s, x) == 1
  }

  ghost predicate Locked(s: State) {
    && (s.lock.Some? ==> s.lock.value < |s.threads|)
    && forall t :: 0 <= t < |s.threads| ==> (s.threads[t].pc.Offering? <==> s.lock == Some(t))
  }

  ghost predicate Inv(s: State) {
    && Counted(s) && Placed(s) && Tracked(s) && Locked(s)
    && forall t :: 0 <= t < |s.threads| ==> WaiterOk(s.threads[t])
  }

  // ---------------------------------------------------------------- sequences as multisets

  lemma Plus(q: seq<nat>, x: nat)
    ensures forall c :: multiset(q + [x])[c] == multiset(q)[c] + Once(c == x)
  {
  }

  lemma Split(q: seq<nat>, k: nat)
    requires k <= |q|
    ensures forall c :: multiset(q)[c] == multiset(q[..k])[c] + multiset(q[k..])[c]
  {
    assert q == q[..k] + q[k..];
  }

  lemma {:induction false} DropRefs(q: seq<nat>, open: set<nat>)
    ensures forall x :: multiset(DropClosed(q, open))[x] <= multiset(q)[x]
    ensures forall x :: x in open ==> multiset(DropClosed(q, open))[x] == multiset(q)[x]
  {
    var k := DropClosedIs(q, open);
    Split(q, k);
    assert forall i :: 0 <= i < k ==> q[..k][i] == q[i];
  }

  /** Anyone in the queue or owed a delivery exists and has been queued. */
  lemma {:induction false} RefsQueued(s: State)
    requires Tracked(s)
    ensures TargetsExist(s)
    ensures forall x :: x in s.queue ==> s.threads[x].queued
  {
    forall x | x in s.queue ensures x < |s.threads| && s.threads[x].queued {
      assert Refs(s, x) > 0;
    }
    forall t | 0 <= t < |s.threads| && TargetOf(s.threads[t].pc).Some?
      ensures TargetOf(s.threads[t].pc).value < |s.threads|
    {
      OwedQueued(s, t, TargetOf(s.threads[t].pc).value);
    }
  }

  lemma {:induction false} OwedQueued(s: State, t: nat, x: nat)
    requires Tracked(s) && t < |s.threads| && TargetOf(s.threads[t].pc) == Some(x)
    ensures x < |s.threads| && s.threads[x].queued && Owed(s.threads, x) == 1 && multiset(s.queue)[x] == 0
  {
    SumAtLeast(s.threads, OwesOf(x), t);
    assert Refs(s, x) > 0;
  }

  lemma {:induction false} SumAtLeast(threads: seq<Thread>, f: Thread -> nat, t: nat)
    requires t < |threads|
    ensures f(threads[t]) <= Sum(threads, f)
  {
    if t < |threads| - 1 {
      SumAtLeast(threads[..|threads| - 1], f, t);
    }
  }

  // ---------------------------------------------------------------- every step keeps it

  /** A goroutine moves on without touching the queue: what it holds and answers for may change
      hands with the idle connections and count. */
  lemma {:induction false} MoveKeeps(s: State, t: nat, th: Thread, s': State)
    requires Inv(s) && t < |s.threads| && s'.threads == s.threads[t := th]
    requires s'.queue == s.queue && s'.max == s.max && s'.lock == s.lock
    requires s'.count - |s'.conns| - Charge(th) == s.count - |s.conns| - Charge(s.threads[t]) && s'.count <= s'.max
    requires forall c: nat :: multiset(s'.conns)[c] + Holds(th, c) + Once(c in s.live)
                              == multiset(s.conns)[c] + Holds(s.threads[t], c) + Once(c in s'.live)
    requires forall c :: c in s'.live ==> c < s'.next
    requires WaiterOk(th) && th.queued == s.threads[t].queued && (Taken(s.threads[t].waiter) ==> Taken(th.waiter))
    requires TargetOf(th.pc) == TargetOf(s.threads[t].pc) && th.pc.Offering? == s.threads[t].pc.Offering?
    ensures Inv(s')
  {
    hide Charge, Holds, Taken;
    Updated(s.threads, t, th);
    assert forall x: nat :: Refs(s', x) == Refs(s, x);
  }

  /** A new goroutine that holds nothing. */
  lemma {:induction false} SpawnKeeps(s: State, pc: Pc)
    requires Inv(s) && (pc.Start? || pc == Cleaning([]))
    ensures Inv(Spawn(s, pc))
  {
    hide Held, Owed, Charges;
    var s' := Spawn(s, pc);
    Appended(s.threads, Thread(pc, UNUSED, false));
    assert forall x: nat :: Refs(s', x) == Refs(s, x);
  }

  /** Callers that wait no longer may leave the queue. */
  lemma {:induction false} DropKeeps(s: State)
    requires Inv(s)
    ensures Inv(s.(queue := DropClosed(s.queue, Open(s))))
  {
    hide Held, Owed, Charges, DropClosed;
    var s' := s.(queue := DropClosed(s.queue, Open(s)));
    DropRefs(s.queue, Open(s));
    forall x: nat ensures Refs(s', x) <= Refs(s, x) && (x in Open(s) ==> Refs(s', x) == Refs(s, x)) {
    }
    assert forall x: nat :: x < |s.threads| && !Taken(s.threads[x].waiter) ==> WaiterOk(s.threads[x]) && x in Open(s);
  }

  /** A caller enters the queue for the first and only time. */
  lemma {:induction false} EnqueueKeeps(s: State, t: nat)
    requires Inv(s) && t < |s.threads| && s.threads[t].pc.MustWait?
    ensures Inv(s.(queue := s.queue + [t], threads := s.threads[t := s.threads[t].(pc := Waiting, queued := true)]))
  {
    hide Held, Owed, Charges;
    var th := s.threads[t].(pc := Waiting, queued := true);
    var s' := s.(queue := s.queue + [t], threads := s.threads[t := th]);
    Updated(s.threads, t, th);
    Plus(s.queue, t);
    assert WaiterOk(s.threads[t]);
    assert forall x: nat :: Refs(s', x) == Refs(s, x) + Once(x == t);
    assert Refs(s, t) == 0;
  }

  /** The first caller of the queue is owed a delivery from now on. */
  lemma {:induction false} PopTracked(s: State, s': State)
    requires Tracked(s) && s.queue != [] && s'.queue == s.queue[1..] && |s.threads| <= |s'.threads|
    requires forall u :: 0 <= u < |s.threads| ==>
      s'.threads[u].queued == s.threads[u].queued && s'.threads[u].waiter == s.threads[u].waiter
    requires forall u :: |s.threads| <= u < |s'.threads| ==> !s'.threads[u].queued
    requires forall y: nat :: Owed(s'.threads, y) == Owed(s.threads, y) + Once(y == s.queue[0])
    ensures Tracked(s')
  {
    hide Owed, Taken;
    Split(s.queue, 1);
    assert s.queue[..1] == [s.queue[0]];
    assert forall y: nat :: Refs(s', y) == Refs(s, y);
  }

  /** The first caller of the queue is taken out by goroutine t, which keeps the mutex. */
  lemma {:induction false} TakeKeeps(s: State, t: nat, c: nat)
    requires Inv(s) && t < |s.threads| && s.threads[t].pc == Recycling(c) && s.lock.None? && s.queue != []
    ensures Inv(Move(s, t, Offering(c, s.queue[0])).(queue := s.queue[1..], lock := Some(t)))
  {
    hide Held, Owed, Charges, Taken, Inv, Tracked;
    var th := s.threads[t].(pc := Offering(c, s.queue[0]));
    var s' := s.(queue := s.queue[1..], lock := Some(t), threads := s.threads[t := th]);
    InvParts(s);
    Updated(s.threads, t, th);
    PopTracked(s, s');
    assert WaiterOk(s.threads[t]);
    PartsInv(s');
  }

  /** The first caller of the queue is taken out and a dial is started for it; the unit of count
      that t answered for goes to that dial. */
  lemma {:induction false} DialKeeps(s: State, t: nat, pc: Pc)
    requires Inv(s) && t < |s.threads| && s.threads[t].pc.Discounting? && s.queue != [] && Settled(pc)
    requires Charge(s.threads[t].(pc := pc)) + 1 == Charge(s.threads[t])
    requires forall c: nat :: Holds(s.threads[t].(pc := pc), c) == Holds(s.threads[t], c)
    ensures Inv(Spawn(Move(s, t, pc).(queue := s.queue[1..]), DialFor(s.queue[0])))
  {
    hide Held, Owed, Charges, Charge, Holds, WaiterOk, Inv, Tracked, Taken;
    var s' := Spawn(Move(s, t, pc).(queue := s.queue[1..]), DialFor(s.queue[0]));
    InvParts(s);
    DialSums(s, t, pc, s.queue[0]);
    assert Counted(s') && Placed(s');
    PopTracked(s, s');
    StillOk(s, t, pc);
    PartsInv(s');
  }

  lemma {:induction false} DialSums(s: State, t: nat, pc: Pc, x: nat)
    requires t < |s.threads| && s.threads[t].pc.Discounting? && Settled(pc)
    requires Charge(s.threads[t].(pc := pc)) + 1 == Charge(s.threads[t])
    requires forall c: nat :: Holds(s.threads[t].(pc := pc), c) == Holds(s.threads[t], c)
    ensures var dial, after := Thread(DialFor(x), UNUSED, false), Spawn(Move(s, t, pc), DialFor(x)).threads;
      && Charges(after) == Charges(s.threads) && WaiterOk(dial)
      && (forall c: nat :: Held(after, c) == Held(s.threads, c))
      && forall y: nat :: Owed(after, y) == Owed(s.threads, y) + Once(y == x)
  {
    hide Held, Owed, Charges;
    var dial := Thread(DialFor(x), UNUSED, false);
    Updated(s.threads, t, s.threads[t].(pc := pc));
    Appended(Move(s, t, pc).threads, dial);
  }

  lemma InvParts(s: State)
    requires Inv(s)
    ensures Counted(s) && Placed(s) && Tracked(s) && Locked(s)
    ensures forall t :: 0 <= t < |s.threads| ==> WaiterOk(s.threads[t])
  {
  }

  lemma PartsInv(s: State)
    requires Counted(s) && Placed(s) && Tracked(s) && Locked(s)
    requires forall t :: 0 <= t < |s.threads| ==> WaiterOk(s.threads[t])
    ensures Inv(s)
  {
  }

  /** Places in which a goroutine owes nothing and is not before or in its own wait. */
  predicate Settled(pc: Pc) {
    TargetOf(pc) == None && !pc.Waiting? && !pc.Cancelling? && !pc.Start? && !pc.DialOwn? && !pc.MustWait?
  }

  /** Moving from one such place, or from owing, to another leaves the waiter in order. */
  lemma StillOk(s: State, t: nat, pc: Pc)
    requires t < |s.threads| && WaiterOk(s.threads[t]) && Settled(pc)
    requires !s.threads[t].pc.Waiting? && !s.threads[t].pc.Cancelling?
    ensures WaiterOk(s.threads[t].(pc := pc))
  {
  }

  /** Goroutine t delivers to the caller it owes a delivery, or finds a result there already; in
      that case it keeps what it wanted to deliver. */
  lemma {:induction false} DeliverKeeps(s: State, t: nat, x: nat, conn: Option<nat>, th: Thread, s': State)
    requires Inv(s) && t < |s.threads| && x < |s.threads| && TargetOf(s.threads[t].pc) == Some(x)
    requires th == s.threads[t].(pc := th.pc) && Settled(th.pc)
    requires s'.threads == TryDeliver(s, x, conn).threads[t := th]
    requires s' == s.(threads := s'.threads, conns := s'.conns, lock := s'.lock)
    requires s'.lock == if s.threads[t].pc.Offering? then None else s.lock
    requires |s'.conns| + Charge(th) + Once(!Taken(s.threads[x].waiter) && conn.Some?) ==
      |s.conns| + Charge(s.threads[t])
    requires forall c: nat ::
      multiset(s'.conns)[c] + Holds(th, c) + Once(!Taken(s.threads[x].waiter) && conn == Some(c))
      == multiset(s.conns)[c] + Holds(s.threads[t], c)
    ensures Inv(s')
  {
    hide Held, Owed, Charges, Charge, Holds, WaiterOk, Inv;
    InvParts(s);
    OwedQueued(s, t, x);
    DeliverSums(s, t, x, conn, th);
    assert Counted(s') && Placed(s') by { hide Refs, Tracked, Locked; }
    DeliverWaiters(s, t, x, conn, th);
    DeliverTracked(s, t, x, conn, th, s');
    PartsInv(s');
  }

  lemma {:induction false} DeliverSums(s: State, t: nat, x: nat, conn: Option<nat>, th: Thread)
    requires t < |s.threads| && x < |s.threads| && TargetOf(s.threads[t].pc) == Some(x)
    requires WaiterOk(s.threads[x]) && s.threads[x].queued
    requires th == s.threads[t].(pc := th.pc) && Settled(th.pc)
    ensures var given, after := Once(!Taken(s.threads[x].waiter) && conn.Some?),
      TryDeliver(s, x, conn).threads[t := th];
      && Charges(after) + Charge(s.threads[t]) == Charges(s.threads) + Charge(th) + given
      && (forall c: nat :: Held(after, c) + Holds(s.threads[t], c)
            == Held(s.threads, c) + Holds(th, c) + Once(!Taken(s.threads[x].waiter) && conn == Some(c)))
      && (forall y: nat :: Owed(after, y) + Once(y == x) == Owed(s.threads, y))
  {
    hide Held, Owed, Charges, Charge, Holds, WaiterOk;
    var given := Given(s.threads[x], conn);
    var m := s.threads[x := given];
    GivenSums(s.threads[x], conn);
    OwerElsewhere(s.threads[t], x);
    assert t == x ==> Taken(s.threads[x].waiter) by { WaiterSettled(s.threads[x]); }
    assert TryDeliver(s, x, conn).threads == m && m[t] == s.threads[t];
    Updated(s.threads, x, given);
    Updated(m, t, th);
  }

  lemma DeliverTracked(s: State, t: nat, x: nat, conn: Option<nat>, th: Thread, s': State)
    requires Tracked(s) && t < |s.threads| && x < |s.threads| && s.threads[x].queued
    requires th == s.threads[t].(pc := th.pc)
    requires s'.threads == TryDeliver(s, x, conn).threads[t := th] && s'.queue == s.queue
    requires forall y: nat :: Owed(s'.threads, y) + Once(y == x) == Owed(s.threads, y)
    requires t == x ==> Taken(s.threads[x].waiter)
    ensures Tracked(s')
  {
    hide Owed;
    assert forall y: nat :: Refs(s', y) + Once(y == x) == Refs(s, y);
  }

  lemma DeliverWaiters(s: State, t: nat, x: nat, conn: Option<nat>, th: Thread)
    requires t < |s.threads| && x < |s.threads| && s.threads[x].queued && TargetOf(s.threads[t].pc) == Some(x)
    requires forall u :: 0 <= u < |s.threads| ==> WaiterOk(s.threads[u])
    requires th == s.threads[t].(pc := th.pc) && Settled(th.pc)
    ensures var after := TryDeliver(s, x, conn).threads[t := th];
      forall u :: 0 <= u < |after| ==> WaiterOk(after[u])
    ensures t == x ==> Taken(s.threads[x].waiter)
  {
    hide WaiterOk, Charge, Holds;
    GivenSums(s.threads[x], conn);
    OwerElsewhere(s.threads[t], x);
    WaiterSettled(s.threads[x]);
    StillOk(s, t, th.pc);
    assert TryDeliver(s, x, conn).threads == s.threads[x := Given(s.threads[x], conn)];
  }

  /** What tryDeliver makes of the caller. */
  function Given(th: Thread, conn: Option<nat>): Thread {
    th.(waiter := Deliver(th.waiter, conn))
  }

  lemma GivenSums(th: Thread, conn: Option<nat>)
    requires WaiterOk(th) && th.queued
    ensures var g := Given(th, conn);
      && WaiterOk(g) && Taken(g.waiter)
      && Charge(g) == Charge(th) + Once(!Taken(th.waiter) && conn.Some?)
      && forall c: nat :: Holds(g, c) == Holds(th, c) + Once(!Taken(th.waiter) && conn == Some(c))
  {
  }

  lemma OwerElsewhere(th: Thread, x: nat)
    requires TargetOf(th.pc) == Some(x)
    ensures !th.pc.Waiting? && !th.pc.Cancelling?
  {
  }

  lemma WaiterSettled(th: Thread)
    requires WaiterOk(th)
    ensures th.queued && !Taken(th.waiter) ==> th.pc.Waiting? || th.pc.Cancelling?
  {
  }

  // ---------------------------------------------------------------- all steps

  ghost predicate Next(s: State, step: Step, s': State) {
    TargetsExist(s) && Enabled(s, step) && s' == Apply(s, step)
  }

  lemma {:induction false} HeldLive(s: State, t: nat, c: nat)
    requires Placed(s) && t < |s.threads| && Holds(s.threads[t], c) > 0
    ensures c in s.live && Holds(s.threads[t], c) == 1
  {
    SumAtLeast(s.threads, HoldsOf(c), t);
  }

  lemma {:induction false} TakeOrCreateKeeps(s: State, t: nat)
    requires Inv(s) && t < |s.threads| && s.threads[t].pc.Start?
    ensures Inv(ApplyTakeOrCreate(s, t))
  {
    hide Inv;
    match Acquire(s.conns, s.count, s.max)
    case Provisioned(c) => ProvisionKeeps(s, t);
    case Exhausted => QuietKeeps(s, t, MustWait);
    case Create =>
      CreateKeeps(s, t);
      SpawnKeeps(Move(s, t, DialOwn).(count := s.count + 1, cleanerRunning := true), Cleaning([]));
  }

  lemma {:induction false} ProvisionKeeps(s: State, t: nat)
    requires Inv(s) && t < |s.threads| && s.threads[t].pc.Start? && s.conns != []
    ensures Inv(Move(s, t, Holding(s.conns[|s.conns| - 1])).(conns := s.conns[..|s.conns| - 1]))
  {
    hide Inv, Counted, Placed, Tracked, Locked;
    var n := |s.conns| - 1;
    InvParts(s);
    BoundsOf(s);
    Split(s.conns, n);
    assert s.conns[n..] == [s.conns[n]];
    MoveKeeps(s, t, s.threads[t].(pc := Holding(s.conns[n])), Move(s, t, Holding(s.conns[n])).(conns := s.conns[..n]));
  }

  lemma {:induction false} CreateKeeps(s: State, t: nat)
    requires Inv(s) && t < |s.threads| && s.threads[t].pc.Start? && s.count < s.max
    ensures Inv(Move(s, t, DialOwn).(count := s.count + 1, cleanerRunning := true))
  {
    hide Inv, Counted, Placed, Tracked, Locked;
    InvParts(s);
    BoundsOf(s);
    MoveKeeps(s, t, s.threads[t].(pc := DialOwn), Move(s, t, DialOwn).(count := s.count + 1, cleanerRunning := true));
  }

  /** One goroutine moves; the pool itself does not change. */
  lemma {:induction false} QuietKeeps(s: State, t: nat, pc: Pc)
    requires Inv(s) && t < |s.threads|
    requires var th := s.threads[t].(pc := pc);
      && Charge(th) == Charge(s.threads[t]) && (forall c: nat :: Holds(th, c) == Holds(s.threads[t], c))
      && (WaiterOk(s.threads[t]) ==> WaiterOk(th))
      && TargetOf(pc) == TargetOf(s.threads[t].pc) && !pc.Offering? && !s.threads[t].pc.Offering?
    ensures Inv(Move(s, t, pc))
  {
    hide Inv, Counted, Placed, Tracked, Locked, Charge, Holds, WaiterOk;
    InvParts(s);
    BoundsOf(s);
    MoveKeeps(s, t, s.threads[t].(pc := pc), Move(s, t, pc));
  }

  lemma BoundsOf(s: State)
    requires Inv(s)
    ensures s.count <= s.max && forall c :: c in s.live ==> c < s.next
  {
  }

  lemma {:induction false} RecycleKeeps(s: State, t: nat)
    requires Inv(s) && t < |s.threads| && s.threads[t].pc.Recycling? && s.lock.None?
    ensures Inv(ApplyRecycle(s, t))
  {
    hide Inv, Counted, Placed, Tracked, Locked, DropClosed, Open;
    var c, th := s.threads[t].pc.conn, s.threads[t];
    InvParts(s);
    BoundsOf(s);
    Plus(s.conns, c);
    if !s.waits {
      MoveKeeps(s, t, th.(pc := Done), ApplyRecycle(s, t));
    } else {
      var d := s.(queue := DropClosed(s.queue, Open(s)));
      DropKeeps(s);
      if d.queue == [] {
        MoveKeeps(d, t, th.(pc := Done), ApplyRecycle(s, t));
      } else {
        TakeKeeps(d, t, c);
      }
    }
  }

  lemma {:induction false} DiscountKeeps(s: State, t: nat)
    requires Inv(s) && t < |s.threads| && s.threads[t].pc.Discounting?
    ensures Inv(ApplyDiscount(s, t))
  {
    hide Inv, DropClosed, Open, WaiterOk;
    var after := AfterDiscount(s.threads[t].pc);
    DiscountSums(s.threads[t]);
    if !s.waits {
      CountDown(s, t, after);
    } else {
      var d := s.(queue := DropClosed(s.queue, Open(s)));
      DropKeeps(s);
      if d.queue == [] {
        CountDown(d, t, after);
      } else {
        DialKeeps(d, t, after);
      }
    }
  }

  lemma DiscountSums(th: Thread)
    requires th.pc.Discounting?
    ensures var after := th.(pc := AfterDiscount(th.pc));
      && Settled(after.pc) && Charge(after) + 1 == Charge(th) && forall c: nat :: Holds(after, c) == Holds(th, c)
  {
  }

  lemma {:induction false} CountDown(s: State, t: nat, pc: Pc)
    requires Inv(s) && t < |s.threads| && s.threads[t].pc.Discounting? && Settled(pc)
    requires Charge(s.threads[t].(pc := pc)) + 1 == Charge(s.threads[t])
    requires forall c: nat :: Holds(s.threads[t].(pc := pc), c) == Holds(s.threads[t], c)
    ensures Inv(Move(s, t, pc).(count := s.count - 1))
  {
    hide Inv, Counted, Placed, Tracked, Locked, Charge, Holds, WaiterOk;
    InvParts(s);
    BoundsOf(s);
    StillOk(s, t, pc);
    MoveKeeps(s, t, s.threads[t].(pc := pc), Move(s, t, pc).(count := s.count - 1));
  }

  lemma {:induction false} CloseKeeps(s: State, t: nat)
    requires Inv(s) && t < |s.threads| && s.threads[t].pc.Closing?
    ensures Inv(Move(s, t, Resume(s.threads[t].pc.left)).(live := s.live - {s.threads[t].pc.conn}))
  {
    hide Inv, Counted, Tracked, Locked;
    var pc, th := s.threads[t].pc, s.threads[t];
    InvParts(s);
    BoundsOf(s);
    HeldLive(s, t, pc.conn);
    MoveKeeps(s, t, th.(pc := Resume(pc.left)), Move(s, t, Resume(pc.left)).(live := s.live - {pc.conn}));
  }

  /** Dials that succeed bring a connection no one has seen. */
  lemma {:induction false} DialOkKeeps(s: State, t: nat, pc: Pc)
    requires Inv(s) && t < |s.threads|
    requires pc in {Holding(s.next), Handing(s.next, if s.threads[t].pc.DialFor? then s.threads[t].pc.target else 0)}
    requires (s.threads[t].pc.DialOwn? && pc.Holding?) || (s.threads[t].pc.DialFor? && pc.Handing?)
    ensures Inv(Move(s, t, pc).(live := s.live + {s.next}, next := s.next + 1))
  {
    hide Inv, Counted, Placed, Tracked, Locked;
    InvParts(s);
    BoundsOf(s);
    assert s.next !in s.live;
    MoveKeeps(s, t, s.threads[t].(pc := pc), Move(s, t, pc).(live := s.live + {s.next}, next := s.next + 1));
  }

  lemma {:induction false} CancelKeeps(s: State, t: nat)
    requires Inv(s) && t < |s.threads| && s.threads[t].pc.Cancelling?
    ensures Inv(ApplyCancel(s, t))
  {
    hide Inv, Counted, Placed, Tracked, Locked;
    InvParts(s);
    BoundsOf(s);
    MoveKeeps(s, t, ApplyCancel(s, t).threads[t], ApplyCancel(s, t));
  }

  lemma {:induction false} OfferKeeps(s: State, t: nat)
    requires Inv(s) && TargetsExist(s) && t < |s.threads| && s.threads[t].pc.Offering?
    ensures Inv(ApplyOffer(s, t))
  {
    hide Inv, Counted, Placed, Tracked, Locked;
    var pc, th := s.threads[t].pc, s.threads[t];
    Plus(s.conns, pc.conn);
    WaiterUntouched(s, pc.target, Some(pc.conn), t);
    DeliverKeeps(s, t, pc.target, Some(pc.conn), th.(pc := Done), ApplyOffer(s, t));
  }

  lemma WaiterUntouched(s: State, x: nat, conn: Option<nat>, t: nat)
    requires Inv(s) && x < |s.threads| && t < |s.threads| && TargetOf(s.threads[t].pc) == Some(x)
    ensures TryDeliver(s, x, conn).threads[t] == s.threads[t]
  {
    hide Charge, Holds, Counted, Placed, Tracked, Locked;
    InvParts(s);
    WaiterSettled(s.threads[x]);
    OwedQueued(s, t, x);
    OwerElsewhere(s.threads[t], x);
  }

  lemma {:induction false} HandKeeps(s: State, t: nat)
    requires Inv(s) && TargetsExist(s) && t < |s.threads| && s.threads[t].pc.Handing?
    ensures Inv(Apply(s, Hand(t)))
  {
    hide Inv, Counted, Placed, Tracked, Locked;
    var pc, th := s.threads[t].pc, s.threads[t];
    WaiterUntouched(s, pc.target, Some(pc.conn), t);
    InvParts(s);
    DeliverKeeps(s, t, pc.target, Some(pc.conn),
                 th.(pc := if Taken(s.threads[pc.target].waiter) then Recycling(pc.conn) else Done), Apply(s, Hand(t)));
  }

  lemma {:induction false} FailKeeps(s: State, t: nat)
    requires Inv(s) && TargetsExist(s) && t < |s.threads| && s.threads[t].pc.Failing?
    ensures Inv(Apply(s, Fail(t)))
  {
    hide Inv, Counted, Placed, Tracked, Locked;
    var pc, th := s.threads[t].pc, s.threads[t];
    WaiterUntouched(s, pc.target, None, t);
    InvParts(s);
    DeliverKeeps(s, t, pc.target, None, th.(pc := Discounting(None, None)), Apply(s, Fail(t)));
  }

  /** Where the remaining steps take a goroutine; nothing changes hands. */
  function PlainPc(th: Thread, step: Step): Pc {
    match step
    case GiveUp(_) => Done
    case Ready(_) => if th.waiter.conn.Some? then Holding(th.waiter.conn.value) else Cancelling
    case Finish(_, ok) =>
      if !th.pc.Holding? then th.pc else if ok then Recycling(th.pc.conn) else Discounting(Some(th.pc.conn), None)
    case OwnDial(_, _) => Discounting(None, None)
    case DialReturns(_, _) => if th.pc.DialFor? then Failing(th.pc.target) else th.pc
    case Destroy(_) =>
      if th.pc.Cleaning? && th.pc.scratch != [] then
        Discounting(Some(th.pc.scratch[0]), Some(th.pc.scratch[1..]))
      else th.pc
    case Stop(_) => Stopping
    case _ => Cancelling
  }

  predicate Plain(step: Step)
    ensures Plain(step) ==> !step.Arrive?
  {
    step.GiveUp? || step.Ready? || step.Timeout? || step.Finish? || step.Destroy? || step.Stop?
    || (step.OwnDial? && !step.ok) || (step.DialReturns? && !step.ok)
  }

  lemma {:induction false} PlainThread(s: State, step: Step)
    requires Plain(step) && TargetsExist(s) && Enabled(s, step) && WaiterOk(s.threads[step.t])
    ensures var th := s.threads[step.t];
      var th' := th.(pc := PlainPc(th, step));
      && Charge(th') == Charge(th) && (forall c: nat :: Holds(th', c) == Holds(th, c))
      && WaiterOk(th') && TargetOf(th'.pc) == TargetOf(th.pc) && !th.pc.Offering? && !th'.pc.Offering?
  {
    hide TargetsExist;
    if step.Destroy? {
      var scratch := s.threads[step.t].pc.scratch;
      Split(scratch, 1);
      assert scratch[..1] == [scratch[0]];
    }
  }

  lemma PlainMoves(s: State, step: Step)
    requires Plain(step) && TargetsExist(s) && Enabled(s, step)
    ensures Apply(s, step) == Move(s, step.t, PlainPc(s.threads[step.t], step))
  {
    hide TargetsExist, ApplyTakeOrCreate, ApplyCancel, ApplyRecycle, ApplyOffer, ApplyDiscount;
  }

  lemma {:induction false} PlainKeeps(s: State, step: Step)
    requires Inv(s) && TargetsExist(s) && Enabled(s, step) && Plain(step)
    ensures Inv(Apply(s, step))
  {
    hide Inv, Apply, Enabled, TargetsExist, Plain, PlainPc, Charge, Holds, WaiterOk, TargetOf;
    InvParts(s);
    StepThread(s, step);
    PlainThread(s, step);
    PlainMoves(s, step);
    QuietKeeps(s, step.t, PlainPc(s.threads[step.t], step));
  }

  lemma StepThread(s: State, step: Step)
    requires Enabled(s, step)
    ensures step.Arrive? || step.t < |s.threads|
  {
  }

  lemma {:induction false} PickKeeps(s: State, t: nat, k: nat)
    requires Inv(s) && t < |s.threads| && s.threads[t].pc == Cleaning([]) && k <= |s.conns|
    ensures Inv(Move(s, t, Cleaning(s.conns[..k])).(conns := s.conns[k..]))
  {
    hide Inv, Counted, Placed, Tracked, Locked;
    InvParts(s);
    BoundsOf(s);
    Split(s.conns, k);
    MoveKeeps(s, t, s.threads[t].(pc := Cleaning(s.conns[..k])),
      Move(s, t, Cleaning(s.conns[..k])).(conns := s.conns[k..]));
  }

  lemma {:induction false} ResetKeeps(s: State, t: nat)
    requires Inv(s) && t < |s.threads| && s.threads[t].pc.Stopping?
    ensures Inv(Move(s, t, Done).(cleanerRunning := false))
  {
    hide Inv, Counted, Placed, Tracked, Locked;
    InvParts(s);
    BoundsOf(s);
    MoveKeeps(s, t, s.threads[t].(pc := Done), Move(s, t, Done).(cleanerRunning := false));
  }

  lemma {:induction false} NextKeeps(s: State, step: Step, s': State)
    requires Inv(s) && Next(s, step, s')
    ensures Inv(s')
  {
    hide Inv, ApplyTakeOrCreate, ApplyCancel, ApplyRecycle, ApplyOffer, ApplyDiscount, TargetsExist, DropClosed, Open;
    match step
    case Arrive => SpawnKeeps(s, Start);
    case TakeOrCreate(t) => TakeOrCreateKeeps(s, t);
    case Enqueue(t) =>
      DropKeeps(s);
      EnqueueKeeps(s.(queue := DropClosed(s.queue, Open(s))), t);
    case Cancel(t) => CancelKeeps(s, t);
    case OwnDial(t, ok) =>
      if ok { DialOkKeeps(s, t, Holding(s.next)); } else { PlainKeeps(s, step); }
    case DialReturns(t, ok) =>
      if ok { DialOkKeeps(s, t, Handing(s.next, s.threads[t].pc.target)); } else { PlainKeeps(s, step); }
    case Recycle(t) => RecycleKeeps(s, t);
    case Offer(t) => OfferKeeps(s, t);
    case Discount(t) => DiscountKeeps(s, t);
    case Close(t) => CloseKeeps(s, t);
    case Hand(t) => HandKeeps(s, t);
    case Fail(t) => FailKeeps(s, t);
    case Pick(t, k) => PickKeeps(s, t, k);
    case ResetFlag(t) => ResetKeeps(s, t);
    case _ => PlainKeeps(s, step);
  }
}
