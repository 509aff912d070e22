/**
 The `Connection` object of src/transport/Connection.js: the fields its methods update between two
 `await`s, tied step by step to the transition system of module `Channel`.
 */
module Connection {
  import opened Bytes
  import opened DataStream
  import opened Outcome
  import opened Channel

  /** The stream ended inside the header, or inside the body behind it. */
  function Ended(acc: seq<Byte>): (e: Error) {
    StreamEnded(if |acc| < HEADER_LENGTH then |acc| else |acc| - HEADER_LENGTH)
  }

  class Connection {
    var lock: Option<nat>            // the gate of the latest `withLock` call
    var connected: bool              // there is a socket, and it is connected
    var callers: seq<Caller>         // the `withLock` calls, finished or suspended at an `await`
    var wire: seq<Byte>
    var arrived: seq<Byte>
    ghost var sends: seq<Delivery>
    ghost var replies: seq<seq<Byte>>
    ghost var receipts: seq<Delivery>
    ghost var acquired: seq<nat>

    ghost function Snapshot(): State
      reads this
    {
      State(lock, callers, connected, sends, replies, wire, arrived, receipts, acquired)
    }

    ghost predicate Valid()
      reads this
    {
      Inv(Snapshot())
    }

    constructor ()
      ensures Valid() && Snapshot() == INITIAL
    {
      lock, connected, callers, wire, arrived := None, true, [], [], [];
      sends, replies, receipts, acquired := [], [], [], [];
      new;
      hide Inv;
      InitialInv();
    }

    /** `withLock` up to `await prev`: takes the current gate as its own to wait for and installs a new one. */
    method WithLock(body: seq<Op>) returns (i: nat)
      requires Valid()
      modifies this
      ensures Valid() && i == |old(callers)| && Snapshot() == Apply(old(Snapshot()), Enter(body))
    {
      InvKept(Snapshot(), Enter(body));
      i := |callers|;
      var prev := lock;
      lock := Some(i);
      callers := callers + [Caller(prev, Waiting(body))];
    }

    /** `await prev` resolves: the body starts. */
    method Acquire(i: nat)
      requires Valid() && Enabled(Snapshot(), Action.Acquire(i))
      modifies this
      ensures Valid() && Snapshot() == Apply(old(Snapshot()), Action.Acquire(i))
    {
      InvKept(Snapshot(), Action.Acquire(i));
      callers := callers[i := callers[i].(phase := Running(callers[i].phase.body, [], None))];
      acquired := acquired + [i];
    }

    /** `send`: throws when there is no connected socket; otherwise the request is on its way. */
    method Send(i: nat) returns (r: Result<()>)
      requires Valid() && AtOp(Snapshot(), i) && callers[i].phase.rest[0].Send?
      modifies this
      ensures Valid() && (r.Ok? <==> old(connected))
      ensures Snapshot() == if old(connected) then Apply(old(Snapshot()), Transmit(i)) else old(Snapshot())
    {
      if !connected {
        return Err(NotConnected);
      }
      InvKept(Snapshot(), Transmit(i));
      var p := callers[i].phase;
      sends := sends + [Delivery(i, p.rest[0].request)];
      callers := callers[i := callers[i].(phase := p.(rest := p.rest[1..]))];
      r := Ok(());
    }

    /**
     One `read` on behalf of `receive`: the frame when these bytes complete it. Without a connected
     socket a receive that has not begun throws, and one that has begun finds the stream ended.
     */
    method Receive(i: nat, k: nat) returns (r: Result<Option<seq<Byte>>>)
      requires Valid() && AtOp(Snapshot(), i) && callers[i].phase.rest[0].Receive?
      requires connected ==> Enabled(Snapshot(), Read(i, k))
      modifies this
      ensures Valid()
      ensures !old(connected) ==>
                Snapshot() == old(Snapshot()) && r == Err(if callers[i].phase.acc == [] then NotConnected else Ended(callers[i].phase.acc))
      ensures old(connected) ==> r.Ok? && Snapshot() == Apply(old(Snapshot()), Read(i, k))
      ensures r.Ok? ==> (r.value.Some? <==> |receipts| > |old(receipts)|)
      ensures r.Ok? && r.value.Some? ==> |old(receipts)| < |replies| && r.value.value == replies[|old(receipts)|]
    {
      var p := callers[i].phase;
      if !connected {
        return Err(if p.acc == [] then NotConnected else Ended(p.acc));
      }
      InvKept(Snapshot(), Read(i, k));
      ReadAdvances(Snapshot(), i, k);
      var acc := p.acc + arrived[..k];
      arrived := arrived[k..];
      if Need(acc) == 0 {
        receipts := receipts + [Delivery(i, acc)];
        callers := callers[i := callers[i].(phase := p.(rest := p.rest[1..], acc := []))];
        r := Ok(Some(acc));
      } else {
        callers := callers[i := callers[i].(phase := p.(acc := acc))];
        r := Ok(None);
      }
    }

    /** `finally { release(); }`, whether the body returned or threw. */
    method Release(i: nat, threw: bool)
      requires Valid() && Enabled(Snapshot(), if threw then Throw(i) else Return(i))
      modifies this
      ensures Valid() && Snapshot() == Apply(old(Snapshot()), if threw then Throw(i) else Return(i))
    {
      InvKept(Snapshot(), if threw then Throw(i) else Return(i));
      callers := callers[i := callers[i].(phase := Done)];
    }

    /** `close`, and the socket's 'error' and 'close' events. */
    method Close()
      requires Valid()
      modifies this
      ensures Valid() && !connected
      ensures Snapshot() == old(Snapshot()).(connected := false)
    {
      if connected {
        InvKept(Snapshot(), Drop);
      }
      connected := false;
    }
  }
}
