/** HostClient: what each section under its mutex does to the idle connections, the count and the
    queue of waiting callers. */
module HostClients {
  import opened Words
  import opened Pool
  import opened WaitingCallers

  const DEFAULT_MAX_CONNS_PER_HOST := 512
  const DEFAULT_MAX_IDLE_CONN_DURATION := 10_000_000_000  // nanoseconds

  class HostClient {
    const maxConns: int
    const maxConnWaitTimeout: int
    const maxIdleConnDuration: int
    var conns: array<ClientConn?>
    var connsLen: nat
    var count: int
    var queue: WaitingCallerQueue?
    var cleanerRunning: bool
    ghost var idle: seq<ClientConn>

    constructor (maxConns: int, maxConnWaitTimeout: int, maxIdleConnDuration: int)
      ensures Valid() && fresh(Frame()) && idle == [] && count == 0 && Queued() == [] && !cleanerRunning
      ensures this.maxConns == maxConns && this.maxConnWaitTimeout == maxConnWaitTimeout
      ensures this.maxIdleConnDuration == maxIdleConnDuration
    {
      this.maxConns, this.maxConnWaitTimeout := maxConns, maxConnWaitTimeout;
      this.maxIdleConnDuration := maxIdleConnDuration;
      var a := new ClientConn?[0];
      conns, connsLen, count, queue, cleanerRunning := a, 0, 0, null, false;
      idle := [];
    }

    ghost function QueueArrays(): set<object>
      reads this, queue
    {
      if queue == null then {} else {queue.head, queue.tail}
    }

    /** All that a section may write, apart from waiting callers. */
    ghost function Frame(): set<object>
      reads this, queue
    {
      {this, conns} + QueueArrays() + if queue == null then {} else var q: object := queue; {q}
    }

    ghost predicate Valid()
      reads this, conns, queue, QueueArrays()
    {
      && (queue != null ==> queue.Valid())
      && |idle| == connsLen <= conns.Length
      && (forall i :: 0 <= i < connsLen ==> conns[i] == idle[i])
      && (forall i :: connsLen <= i < conns.Length ==> conns[i] == null)
    }

    static ghost predicate Ordered(cs: seq<ClientConn>)
      reads cs
    {
      forall i, j :: 0 <= i < j < |cs| ==> cs[i].lastUseTime <= cs[j].lastUseTime
    }

    /** Idle connections lie in the order of their last use. */
    ghost predicate InOrder()
      reads this, idle
    {
      Ordered(idle)
    }

    /** No idle connection was used after now, and cc is not idle. */
    ghost predicate Newest(cc: ClientConn, now: int)
      reads this, idle
    {
      cc !in idle && forall c :: c in idle ==> c.lastUseTime <= now
    }

    /** The waiting callers, front first. */
    ghost function Queued(): seq<WaitingCaller>
      reads this, queue
    {
      if queue == null then [] else queue.contents
    }

    ghost predicate CallersValid()
      reads this, queue, Queued()
    {
      forall w :: w in Queued() ==> w.Valid()
    }

    function Limit(): (r: int)
      ensures r == if maxConns > 0 then maxConns else 512
    {
      if maxConns <= 0 then DEFAULT_MAX_CONNS_PER_HOST else maxConns
    }

    /** The first section of tryAcquireClientConn. */
    method Acquire() returns (cc: ClientConn?, createConn: bool, startCleaner: bool)
      requires Valid()
      modifies this, conns
      ensures Valid() && conns == old(conns) && queue == old(queue) && Queued() == old(Queued())
      ensures old(InOrder()) ==> InOrder()
      ensures match Pool.Acquire(old(idle), old(count), Limit())
        case Provisioned(c) =>
          cc == c && !createConn && !startCleaner
          && old(idle) == idle + [c] && count == old(count) && cleanerRunning == old(cleanerRunning)
        case Create =>
          cc == null && createConn && startCleaner == !old(cleanerRunning)
          && idle == old(idle) && count == old(count) + 1 && cleanerRunning
        case Exhausted =>
          cc == null && !createConn && !startCleaner
          && idle == old(idle) && count == old(count) && cleanerRunning == old(cleanerRunning)
    {
      cc, createConn, startCleaner := null, false, false;
      var n := connsLen;
      if n == 0 {
        if count < Limit() {
          createConn := true;
          count := count + 1;
          if !cleanerRunning {
            cleanerRunning, startCleaner := true, true;
          }
        }
      } else {
        n := n - 1;
        cc := conns[n];
        conns[n] := null;
        connsLen := n;
        idle := idle[..n];
      }
    }

    /** queueWaitingCaller. */
    method QueueWaitingCaller(caller: WaitingCaller)
      requires Valid()
      modifies this, queue, QueueArrays()
      ensures Valid() && fresh(Frame() - old(Frame()))
      ensures Queued() == DropClosed(old(Queued()), old(OpenIn(Queued()))) + [caller]
      ensures idle == old(idle) && count == old(count) && cleanerRunning == old(cleanerRunning)
    {
      if queue == null {
        queue := new WaitingCallerQueue();
      }
      var _ := queue.ClearFront();
      queue.PushBack(caller);
    }

    /** c.conns = append(c.conns, cc). */
    method AppendIdle(cc: ClientConn)
      requires Valid()
      modifies this, conns
      ensures Valid() && (conns == old(conns) || fresh(conns)) && idle == old(idle) + [cc]
      ensures queue == old(queue) && count == old(count) && cleanerRunning == old(cleanerRunning)
    {
      conns := Append(conns, connsLen, cc, null);
      connsLen := connsLen + 1;
      idle := idle + [cc];
    }

    /** What a recycle of cc leaves, where was is the queue before: gone is the error of a caller that
        cancels after it was found waiting and before tryDeliver. */
    twostate predicate Recycled(was: seq<WaitingCaller>, cc: ClientConn, gone: Option<Error>)
      reads this, queue, was
    {
      && count == old(count) && cleanerRunning == old(cleanerRunning)
      && if maxConnWaitTimeout <= 0 then
           idle == old(idle) + [cc] && Queued() == was && unchanged(was)
         else
           var (target, rest) := PopWaiting(was, old(OpenIn(was)));
           && Queued() == rest
           && (forall w :: w in was && target != Some(w) ==> unchanged(w))
           && match target
              case None => idle == old(idle) + [cc]
              case Some(x) =>
                if gone.Some? then idle == old(idle) + [cc] && x in was && x.Value() == Withdraw(old(x.Value()))
                else idle == old(idle) && x in was && x.Value() == Deliver(old(x.Value()), Some(cc))
    }

    /** The queue's part of a recycle or a discount: pops until a caller is found waiting. */
    method PopCaller() returns (caller: WaitingCaller?)
      requires Valid()
      modifies queue, QueueArrays()
      ensures Valid() && Frame() == old(Frame())
      ensures PopWaiting(old(Queued()), old(OpenIn(Queued()))) ==
        (if caller == null then None else Some(caller), Queued())
      ensures caller != null ==> caller in old(Queued()) && caller.Waiting()
    {
      caller := null;
      if queue != null && queue.Len() > 0 {
        caller := queue.PopUntilWaiting();
      }
    }

    /** tryDeliver to a caller just found waiting, which may cancel before. */
    static method Offer(caller: WaitingCaller, cc: ClientConn, gone: Option<Error>) returns (delivered: bool)
      requires caller.Valid() && caller.Waiting()
      modifies caller
      ensures caller.Valid() && delivered == gone.None?
      ensures caller.Value() == if gone.Some? then Withdraw(old(caller.Value()))
        else Deliver(old(caller.Value()), Some(cc))
    {
      if gone.Some? {
        var _ := caller.Cancel(gone.value);
      }
      delivered := caller.TryDeliver(cc, None);
    }

    /** The first caller found waiting gets the connection unless it cancels meanwhile; else the
        connection becomes idle. */
    method OfferOrKeep(cc: ClientConn, gone: Option<Error>)
      requires Valid() && CallersValid()
      modifies Frame(), Queued()
      ensures Valid() && fresh(Frame() - old(Frame()))
      ensures forall w :: w in old(Queued()) ==> w.Valid()
      ensures Recycled(old(Queued()), cc, gone)
    {
      hide PopWaiting, OpenIn, Deliver, Withdraw, WaitingCallerQueue.Valid;
      if maxConnWaitTimeout <= 0 {
        AppendIdle(cc);
        return;
      }
      var delivered := false;
      var caller := PopCaller();
      if caller != null {
        delivered := Offer(caller, cc, gone);
      }
      if !delivered {
        AppendIdle(cc);
      }
    }

    /** tryRecycleClientConn: stamps the connection and offers or keeps it. Idle connections stay in
        the order of their last use. */
    method TryRecycle(cc: ClientConn, now: int, gone: Option<Error>)
      requires Valid() && CallersValid()
      modifies Frame(), cc`lastUseTime, Queued()
      ensures Valid() && fresh(Frame() - old(Frame())) && cc.lastUseTime == now
      ensures forall w :: w in old(Queued()) ==> w.Valid()
      ensures Recycled(old(Queued()), cc, gone)
      ensures old(InOrder()) && old(Newest(cc, now)) ==> InOrder()
    {
      hide PopWaiting, OpenIn, Deliver, Withdraw, Ordered, Valid, WaitingCaller.Value, WaitingCaller.Valid;
      cc.lastUseTime := now;
      OfferOrKeep(cc, gone);
      if old(InOrder()) && old(Newest(cc, now)) {
        NewestLast(old(idle), cc);
      }
    }

    static lemma NewestLast(cs: seq<ClientConn>, cc: ClientConn)
      requires Ordered(cs) && forall c :: c in cs ==> c.lastUseTime <= cc.lastUseTime
      ensures Ordered(cs + [cc])
    {
    }

    /** What giving up one unit of count leaves, where was is the queue before: it goes to a dial for
        the first caller found waiting, if there is one. */
    twostate predicate Discounted(was: seq<WaitingCaller>, open: set<WaitingCaller>, new dialFor: WaitingCaller?)
      reads this, queue
    {
      && idle == old(idle) && cleanerRunning == old(cleanerRunning)
      && count == (if dialFor == null then old(count) - 1 else old(count))
      && if maxConnWaitTimeout <= 0 then dialFor == null && Queued() == was
         else PopWaiting(was, open) == (if dialFor == null then None else Some(dialFor), Queued())
    }

    /** decrementCountOrTryDialForWaitingCaller; a dial is to be started for the caller returned. */
    method DecrementCountOrTryDial() returns (dialFor: WaitingCaller?)
      requires Valid()
      modifies this, queue, QueueArrays()
      ensures Valid() && Frame() == old(Frame())
      ensures Discounted(old(Queued()), old(OpenIn(Queued())), dialFor)
    {
      dialFor := null;
      if maxConnWaitTimeout <= 0 {
        count := count - 1;
        return;
      }
      dialFor := PopCaller();
      if dialFor == null {
        count := count - 1;
      }
    }

    /** cancel of a caller, still queued or not: what had been delivered to it is recycled. That it has
        left the queue then is PoolRuns.QueuedHaveNoConnection. */
    method CancelCaller(caller: WaitingCaller, e: Error, now: int, gone: Option<Error>)
      requires Valid() && CallersValid() && caller.Valid() && (caller.conn != null ==> caller !in Queued())
      modifies Frame(), caller, caller.conn, Queued()
      ensures Valid() && caller.Valid() && fresh(Frame() - old(Frame()))
      ensures caller.Value() == Withdraw(old(caller.Value()))
      ensures if old(caller.conn) == null
              then idle == old(idle) && count == old(count) && Queued() == old(Queued())
                && forall w :: w in Queued() && w != caller ==> unchanged(w)
              else Recycled(old(Queued()), old(caller.conn), gone)
    {
      hide PopWaiting, OpenIn, Deliver, Withdraw, Valid, InOrder, Newest;
      var cc := caller.Cancel(e);
      if cc != null {
        TryRecycle(cc, now, gone);
      }
    }

    /** tryDialForWaitingCaller once the dial has returned dialled, nil for a failure. The caller has left
        the queue (PoolRuns.NoLostWaiter). */
    method DialledFor(
      caller: WaitingCaller, dialled: ClientConn?, now: int, gone: Option<Error>) returns (dialFor: WaitingCaller?)
      requires Valid() && CallersValid() && caller.Valid() && caller !in Queued()
      modifies Frame(), caller, dialled, Queued()
      ensures Valid() && caller.Valid() && fresh(Frame() - old(Frame()))
      ensures caller.Value() == Deliver(old(caller.Value()), if dialled == null then None else Some(dialled))
      ensures if dialled == null then Discounted(old(Queued()), old(OpenIn(Queued())), dialFor)
              else if Taken(old(caller.Value())) then dialFor == null && Recycled(old(Queued()), dialled, gone)
              else dialFor == null && idle == old(idle) && count == old(count) && Queued() == old(Queued())
    {
      hide PopWaiting, Deliver, WaitingCallerQueue.Valid, InOrder, Newest, Valid;
      dialFor := null;
      if dialled == null {
        var _ := caller.TryDeliver(null, Some(DialFailed));
        dialFor := DecrementCountOrTryDial();
      } else {
        var delivered := caller.TryDeliver(dialled, None);
        if !delivered {
          TryRecycle(dialled, now, gone);
        }
      }
    }

    /** destroyClientConn. */
    method Destroy(cc: ClientConn) returns (dialFor: WaitingCaller?)
      requires Valid()
      modifies this, queue, QueueArrays(), cc`closed
      ensures Valid() && Frame() == old(Frame()) && cc.closed
      ensures Discounted(old(Queued()), old(OpenIn(Queued())), dialFor)
    {
      dialFor := DecrementCountOrTryDial();
      cc.closed := true;
    }

    /** In nanoseconds. */
    function MaxIdle(): (r: int)
      ensures r == if maxIdleConnDuration > 0 then maxIdleConnDuration else 10_000_000_000
    {
      if maxIdleConnDuration <= 0 then DEFAULT_MAX_IDLE_CONN_DURATION else maxIdleConnDuration
    }

    /** Idle for longer than the limit. */
    predicate Stale(c: ClientConn, now: int)
      reads c
    {
      now - c.lastUseTime > MaxIdle()
    }

    ghost predicate AllStale(cs: seq<ClientConn>, now: int)
      reads cs
    {
      forall c :: c in cs ==> Stale(c, now)
    }

    ghost predicate NoneStale(cs: seq<ClientConn>, now: int)
      reads cs
    {
      forall c :: c in cs ==> !Stale(c, now)
    }

    /** The cleaner's section: takes the longest prefix of connections idle for too long out of conns,
        in place, and says how long to sleep. As long as idle connections are in the order of their
        last use, that prefix is all of those idle for too long. */
    method PickIdle(now: int) returns (scratch: seq<ClientConn>, duration: int)
      requires Valid()
      modifies this, conns
      ensures Valid() && conns == old(conns) && queue == old(queue) && Queued() == old(Queued())
      ensures scratch + idle == old(idle) && count == old(count) && cleanerRunning == old(cleanerRunning)
      ensures forall c :: c in scratch ==> now - c.lastUseTime > MaxIdle()
      ensures idle != [] ==> now - idle[0].lastUseTime <= MaxIdle()
      ensures old(InOrder()) ==> InOrder() && NoneStale(idle, now)
      ensures if idle == [] then duration == MaxIdle()
              else duration == MaxIdle() - (now - idle[0].lastUseTime) + 1 && duration > 0
    {
      hide Ordered, NoneStale;
      var i := FirstFresh(now);
      duration := SleepTime(now, i);
      RestInOrder(now, i);
      scratch := TakeFront(i);
    }

    method TakeFront(i: nat) returns (scratch: seq<ClientConn>)
      requires Valid() && i <= |idle|
      modifies this`connsLen, this`idle, conns
      ensures Valid() && Queued() == old(Queued())
      ensures scratch == old(idle)[..i] && idle == old(idle)[i..]
    {
      scratch := Picked(i);
      if i > 0 {
        Compact(i);
      }
    }

    /** How long until connection i could be idle for too long. */
    method SleepTime(now: int, i: nat) returns (duration: int)
      requires Valid() && i <= |idle| && (i < |idle| ==> !Stale(idle[i], now))
      ensures if i == |idle| then duration == MaxIdle()
              else duration == MaxIdle() - (now - idle[i].lastUseTime) + 1 && duration > 0
    {
      duration := MaxIdle();
      if i < connsLen {
        duration := MaxIdle() - (now - conns[i].lastUseTime) + 1;
      }
    }

    /** The length of the longest prefix of conns idle for too long. */
    method FirstFresh(now: int) returns (i: nat)
      requires Valid()
      ensures i <= |idle| && AllStale(idle[..i], now) && (i < |idle| ==> !Stale(idle[i], now))
    {
      i := 0;
      while i < connsLen && Stale(conns[i], now)
        invariant i <= connsLen
        invariant AllStale(idle[..i], now)
      {
        i := i + 1;
      }
    }

    lemma RestInOrder(now: int, i: nat)
      requires i <= |idle| && (i < |idle| ==> !Stale(idle[i], now))
      ensures InOrder() ==> Ordered(idle[i..]) && NoneStale(idle[i..], now)
    {
    }

    /** append(scratch[:0], conns[:i]...). */
    method Picked(i: nat) returns (scratch: seq<ClientConn>)
      requires Valid() && i <= connsLen
      ensures scratch == idle[..i]
    {
      scratch := [];
      for j := 0 to i
        invariant scratch == idle[..j]
      {
        scratch := scratch + [conns[j]];
      }
    }

    /** copy(conns, conns[i:]), then nil behind. */
    method Compact(i: nat)
      requires Valid() && i <= connsLen
      modifies this`connsLen, this`idle, conns
      ensures Valid() && idle == old(idle)[i..]
    {
      var m := connsLen - i;
      for j := 0 to m
        modifies conns
        invariant forall k :: 0 <= k < j ==> conns[k] == idle[i + k]
        invariant forall k :: j <= k < connsLen ==> conns[k] == idle[k]
        invariant forall k :: connsLen <= k < conns.Length ==> conns[k] == null
      {
        conns[j] := conns[j + i];
      }
      for j := m to connsLen
        modifies conns
        invariant forall k :: 0 <= k < m ==> conns[k] == idle[i + k]
        invariant forall k :: m <= k < j ==> conns[k] == null
        invariant forall k :: connsLen <= k < conns.Length ==> conns[k] == null
      {
        conns[j] := null;
      }
      connsLen := m;
      idle := idle[i..];
    }
  }
}
