/** Callers waiting for a connection, and the queue they stand in: two stages, each a slice with
    spare capacity, the second of which becomes the first when that runs out. */
module WaitingCallers {
  import opened Words
  import opened Pool

  datatype Error = NoFreeConns | TimedOut | DialFailed

  class ClientConn {
    var lastUseTime: int
    var closed: bool

    constructor ()
      ensures !closed
    {
      closed := false;
    }
  }

  /** closed says whether the ready channel has been closed; closing it twice panics. */
  class WaitingCaller {
    var closed: bool
    var conn: ClientConn?
    var err: Option<Error>

    constructor ()
      ensures Valid() && Value() == Waiter(None, false, 0)
    {
      closed, conn, err := false, null, None;
    }

    /** ready is closed exactly when there is an answer, and there is never both a connection and
        an error. */
    ghost predicate Valid()
      reads this
    {
      (closed <==> conn != null || err.Some?) && !(conn != null && err.Some?)
    }

    function Value(): Waiter<ClientConn>
      reads this
    {
      Waiter(if conn == null then None else Some(conn), err.Some?, Once(closed))
    }

    predicate Waiting()
      reads this
    {
      !closed
    }

    /** close(ready); a second close would panic. */
    method CloseReady()
      requires !closed
      modifies this`closed
      ensures closed
    {
      closed := true;
    }

    method TryDeliver(cc: ClientConn?, e: Option<Error>) returns (ok: bool)
      requires Valid() && (cc == null <==> e.Some?)
      modifies this
      ensures Valid() && ok == !Taken(old(Value()))
      ensures Value() == Deliver(old(Value()), if cc == null then None else Some(cc))
      ensures ok ==> err == e
      ensures !ok ==> conn == old(conn) && err == old(err)
    {
      if conn != null || err.Some? {
        return false;
      }
      conn := cc;
      err := e;
      CloseReady();
      return true;
    }

    /** The part of cancel under the lock; what it returns is to be recycled. */
    method Cancel(e: Error) returns (cc: ClientConn?)
      requires Valid()
      modifies this
      ensures Valid() && cc == old(conn) && err == Some(e)
      ensures Value() == Withdraw(old(Value()))
    {
      if conn == null && err.None? {
        CloseReady();
      }
      cc := conn;
      conn := null;
      err := Some(e);
    }
  }

  /** The callers of a sequence that still wait. */
  ghost function OpenIn(callers: seq<WaitingCaller>): set<WaitingCaller>
    reads callers
  {
    set w | w in callers && w.Waiting()
  }

  /** append: writes behind the first n elements if there is room, else into a larger copy. Elements
      behind those in use are spare. */
  method Append<T>(a: array<T>, n: nat, x: T, spare: T) returns (b: array<T>)
    requires n <= a.Length && forall i :: n <= i < a.Length ==> a[i] == spare
    modifies a
    ensures b == a || (fresh(b) && a[..] == old(a[..]))
    ensures n < b.Length && b[n] == x
    ensures forall i :: 0 <= i < n ==> b[i] == old(a[i])
    ensures forall i :: n < i < b.Length ==> b[i] == spare
  {
    b := a;
    if n == a.Length {
      b := new T[2 * n + 1](_ => spare);
      for i := 0 to n
        modifies b
        invariant forall j :: 0 <= j < i ==> b[j] == a[j]
        invariant forall j :: i <= j < b.Length ==> b[j] == spare
      {
        b[i] := a[i];
      }
    }
    b[n] := x;
  }

  class WaitingCallerQueue {
    var head: array<WaitingCaller?>
    var headLen: nat
    var headPos: nat
    var tail: array<WaitingCaller?>
    var tailLen: nat
    ghost var contents: seq<WaitingCaller>

    constructor ()
      ensures Valid() && contents == [] && fresh(head) && fresh(tail)
    {
      head, headLen, headPos := new WaitingCaller?[0], 0, 0;
      tail, tailLen := new WaitingCaller?[0], 0;
      contents := [];
    }

    /** contents lies in the first stage from headPos and then in the second; every other slot of
        either array, so every slot of a caller already popped, is nil. */
    ghost predicate Valid()
      reads this, head, tail
    {
      && head != tail && headPos <= headLen <= head.Length && tailLen <= tail.Length
      && |contents| == headLen - headPos + tailLen
      && (forall i :: headPos <= i < headLen ==> head[i] == contents[i - headPos])
      && (forall i :: 0 <= i < tailLen ==> tail[i] == contents[headLen - headPos + i])
      && (forall i :: 0 <= i < head.Length && !(headPos <= i < headLen) ==> head[i] == null)
      && (forall i :: tailLen <= i < tail.Length ==> tail[i] == null)
    }

    function Len(): (n: int)
      requires Valid()
      reads this, head, tail
      ensures n == |contents|
    {
      headLen - headPos + tailLen
    }

    function PeekFront(): (w: WaitingCaller?)
      requires Valid()
      reads this, head, tail
      ensures if contents == [] then w == null else w == contents[0]
    {
      if headPos < headLen then head[headPos]
      else if tailLen > 0 then tail[0]
      else null
    }

    method PushBack(w: WaitingCaller)
      requires Valid()
      modifies this, tail
      ensures Valid() && contents == old(contents) + [w]
      ensures head == old(head) && (tail == old(tail) || fresh(tail))
    {
      tail := Append(tail, tailLen, w, null);
      tailLen := tailLen + 1;
      contents := contents + [w];
    }

    method PopFront() returns (w: WaitingCaller?)
      requires Valid()
      modifies this, head, tail
      ensures Valid() && {head, tail} == {old(head), old(tail)}
      ensures if old(contents) == [] then w == null && contents == []
              else w == old(contents)[0] && contents == old(contents)[1..]
    {
      if headPos >= headLen {
        if tailLen == 0 {
          return null;
        }
        // The second stage becomes the first; the array of the first serves as the new second stage.
        head, headLen, headPos, tail, tailLen := tail, tailLen, 0, head, 0;
      }
      w := head[headPos];
      head[headPos] := null;
      headPos := headPos + 1;
      contents := contents[1..];
    }

    /** Drops the longest prefix of callers that no longer wait. */
    method ClearFront() returns (cleaned: bool)
      requires Valid()
      modifies this, head, tail
      ensures Valid() && {head, tail} == {old(head), old(tail)}
      ensures contents == DropClosed(old(contents), old(OpenIn(contents)))
      ensures cleaned <==> contents != old(contents)
    {
      ghost var open := OpenIn(contents);
      ghost var all := contents;
      cleaned := false;
      while true
        invariant Valid() && {head, tail} == {old(head), old(tail)}
        invariant if cleaned then |contents| < |all| else contents == all
        invariant forall w :: w in contents ==> w in all
        invariant DropClosed(contents, open) == DropClosed(all, open)
        decreases |contents|
      {
        var w := PeekFront();
        if w == null || w.Waiting() {
          if contents != [] {
            assert w == contents[0] && w in all;
            assert contents[0] in open;
          }
          return;
        }
        var _ := PopFront();
        cleaned := true;
      }
    }

    /** The loop of tryRecycleClientConn and decrementCountOrTryDialForWaitingCaller: pops callers
        until one is found waiting. */
    method PopUntilWaiting() returns (w: WaitingCaller?)
      requires Valid()
      modifies this, head, tail
      ensures Valid() && {head, tail} == {old(head), old(tail)}
      ensures PopWaiting(old(contents), old(OpenIn(contents))) == (if w == null then None else Some(w), contents)
      ensures w != null ==> w in old(contents) && w.Waiting()
    {
      ghost var open := OpenIn(contents);
      ghost var all := contents;
      while Len() > 0
        invariant Valid() && {head, tail} == {old(head), old(tail)}
        invariant forall w :: w in contents ==> w in all
        invariant PopWaiting(contents, open) == PopWaiting(all, open)
        decreases |contents|
      {
        ghost var left := contents;
        w := PopFront();
        if w.Waiting() {
          assert left[0] in open && DropClosed(left, open) == left;
          return;
        }
      }
      w := null;
    }
  }
}
