/**
 The request/reply channel of src/transport/Connection.js as a transition system: callers that
 queue on the promise-chain lock, a server that answers in request order, and reply bytes that
 arrive in arbitrary pieces. One step is what runs between two `await`s.
 */
module Channel {
  import opened Bytes
  import opened DataStream
  import opened Outcome

  /** What a body passed to `withLock` does next. `sendAndReceive(req)` is the body `[Send(req), Receive]`. */
  datatype Op = Send(request: seq<Byte>) | Receive | Call(body: seq<Op>)

  datatype Phase =
    | Waiting(body: seq<Op>)                                       // at `await prev`
    | Running(rest: seq<Op>, acc: seq<Byte>, child: Option<nat>)   // inside `fn`; `acc`: the bytes of a frame read so far
    | Done                                                         // `release` has run

  /** One call of `withLock`. Its gate is its own index; `prev` is the gate it waits for (`None`: resolved from the start). */
  datatype Caller = Caller(prev: Option<nat>, phase: Phase)

  datatype Delivery = Delivery(caller: nat, bytes: seq<Byte>)

  datatype State = State(
    lock: Option<nat>,
    callers: seq<Caller>,
    connected: bool,
    sends: seq<Delivery>,        // every request sent so far, with its sender
    replies: seq<seq<Byte>>,     // every reply the server has sent
    wire: seq<Byte>,             // reply bytes under way
    arrived: seq<Byte>,          // reply bytes in the socket's buffer
    receipts: seq<Delivery>,     // every frame a `receive` has returned, with its receiver
    acquired: seq<nat>)          // callers in the order they got past `await prev`

  const INITIAL := State(None, [], true, [], [], [], [], [], [])

  datatype Action =
    | Enter(body: seq<Op>)       // a new call of `withLock`
    | Acquire(i: nat)            // `await prev` resolves
    | Transmit(i: nat)           // `await this.send(...)`
    | Read(i: nat, k: nat)       // `read` hands out k bytes to the frame being received
    | Nest(i: nat)               // the body itself calls `withLock`
    | Resume(i: nat)             // the nested call has settled
    | Return(i: nat)             // the body ends; `finally` releases
    | Throw(i: nat)              // the body throws; `finally` releases
    | Answer(frame: seq<Byte>)   // the server answers the oldest unanswered request
    | Arrive(k: nat)             // k bytes reach the socket
    | Drop                       // the socket closes

  /** How many more bytes the frame being received needs; 0 when it is complete. */
  function Need(acc: seq<Byte>): (n: nat) {
    if |acc| < HEADER_LENGTH then HEADER_LENGTH - |acc|
    else if GetU32(acc, 0) > |acc| then GetU32(acc, 0) - |acc|
    else 0
  }

  predicate Resolved(s: State, gate: Option<nat>) {
    gate.Some? ==> gate.value < |s.callers| && s.callers[gate.value].phase.Done?
  }

  /** Caller `i` is inside its body and not waiting for a call it made itself. */
  predicate Active(s: State, i: nat) {
    i < |s.callers| && s.callers[i].phase.Running? && s.callers[i].phase.child.None?
  }

  /** Caller `i` is active and the next thing its body does is of the given kind. */
  predicate AtOp(s: State, i: nat) {
    Active(s, i) && s.callers[i].phase.rest != []
  }

  predicate Enabled(s: State, a: Action) {
    match a
    case Enter(_) => true
    case Acquire(i) => i < |s.callers| && s.callers[i].phase.Waiting? && Resolved(s, s.callers[i].prev)
    case Transmit(i) => AtOp(s, i) && s.connected && s.callers[i].phase.rest[0].Send?
    case Read(i, k) =>
      && AtOp(s, i) && s.connected && s.callers[i].phase.rest[0].Receive?
      && 0 < k <= |s.arrived| && k <= Need(s.callers[i].phase.acc)
    case Nest(i) => AtOp(s, i) && s.callers[i].phase.rest[0].Call?
    case Resume(i) =>
      && i < |s.callers| && s.callers[i].phase.Running? && s.callers[i].phase.child.Some?
      && s.callers[i].phase.rest != [] && Resolved(s, s.callers[i].phase.child)
    case Return(i) => Active(s, i) && s.callers[i].phase.rest == []
    case Throw(i) => Active(s, i) && (s.callers[i].phase.acc == [] || !s.connected)
    case Answer(frame) => |s.replies| < |s.sends| && IsFrame(frame)
    case Arrive(k) => 0 < k <= |s.wire|
    case Drop => s.connected
  }

  /** `withLock` up to its first `await`: remember the current gate, install the own one. */
  function Queue(s: State, body: seq<Op>): (s': State) {
    s.(callers := s.callers + [Caller(s.lock, Waiting(body))], lock := Some(|s.callers|))
  }

  function SetPhase(s: State, i: nat, p: Phase): (s': State)
    requires i < |s.callers|
  {
    s.(callers := s.callers[i := s.callers[i].(phase := p)])
  }

  function Apply(s: State, a: Action): (s': State)
    requires Enabled(s, a)
  {
    match a
    case Enter(body) => Queue(s, body)
    case Acquire(i) => SetPhase(s, i, Running(s.callers[i].phase.body, [], None)).(acquired := s.acquired + [i])
    case Transmit(i) =>
      var p := s.callers[i].phase;
      SetPhase(s, i, p.(rest := p.rest[1..])).(sends := s.sends + [Delivery(i, p.rest[0].request)])
    case Read(i, k) =>
      var p := s.callers[i].phase;
      var acc := p.acc + s.arrived[..k];
      if Need(acc) == 0 then
        SetPhase(s, i, p.(rest := p.rest[1..], acc := [])).(arrived := s.arrived[k..], receipts := s.receipts + [Delivery(i, acc)])
      else
        SetPhase(s, i, p.(acc := acc)).(arrived := s.arrived[k..])
    case Nest(i) =>
      var p := s.callers[i].phase;
      Queue(SetPhase(s, i, p.(child := Some(|s.callers|))), p.rest[0].body)
    case Resume(i) =>
      var p := s.callers[i].phase;
      SetPhase(s, i, p.(rest := p.rest[1..], child := None))
    case Return(i) => SetPhase(s, i, Done)
    case Throw(i) => SetPhase(s, i, Done)
    case Answer(frame) => s.(replies := s.replies + [frame], wire := s.wire + frame)
    case Arrive(k) => s.(arrived := s.arrived + s.wire[..k], wire := s.wire[k..])
    case Drop => s.(connected := false)
  }

  // ---- Runs ----

  predicate IsRun(s: State, actions: seq<Action>)
    decreases |actions|
  {
    actions == [] || (Enabled(s, actions[0]) && IsRun(Apply(s, actions[0]), actions[1..]))
  }

  function Final(s: State, actions: seq<Action>): (s': State)
    requires IsRun(s, actions)
    decreases |actions|
  {
    if actions == [] then s else Final(Apply(s, actions[0]), actions[1..])
  }

  // ---- What every run keeps ----

  /** The order of the queue: gates form one chain, and exactly the first `|acquired|` callers got past it, all but the last of them done. */
  ghost predicate Ordered(s: State) {
    var n := |s.acquired|;
    && n <= |s.callers|
    && s.lock == (if s.callers == [] then None else Some(|s.callers| - 1))
    && (forall j | 0 <= j < n :: s.acquired[j] == j)
    && (forall i | 0 <= i < |s.callers| :: s.callers[i].prev == if i == 0 then None else Some(i - 1))
    && (forall i | 0 <= i < n - 1 :: s.callers[i].phase.Done?)
    && (forall i | n <= i < |s.callers| :: s.callers[i].phase.Waiting?)
    && (n > 0 ==> !s.callers[n - 1].phase.Waiting?)
  }

  /** The caller that holds the lock, if its body is under way. */
  ghost predicate Held(s: State) {
    0 < |s.acquired| <= |s.callers| && s.callers[|s.acquired| - 1].phase.Running?
  }

  /** The bytes of a frame that the holder has read so far. */
  ghost function Partial(s: State): (acc: seq<Byte>) {
    if Held(s) then s.callers[|s.acquired| - 1].phase.acc else []
  }

  /** Reply bytes are neither lost nor reordered: what is read so far, arrived and under way are the unread replies. */
  ghost predicate Framed(s: State) {
    && |s.receipts| <= |s.replies| <= |s.sends|
    && (forall j | 0 <= j < |s.replies| :: IsFrame(s.replies[j]))
    && (forall j | 0 <= j < |s.receipts| :: s.receipts[j].bytes == s.replies[j])
    && Need(Partial(s)) > 0
    && (s.connected ==> Partial(s) + s.arrived + s.wire == Concat(s.replies[|s.receipts|..]))
  }

  /** Only holders send, one after another. */
  ghost predicate SendsOrdered(s: State) {
    && (forall j | 0 <= j < |s.sends| :: s.sends[j].caller < |s.acquired|)
    && (forall j, k | 0 <= j < k < |s.sends| :: s.sends[j].caller <= s.sends[k].caller)
  }

  /** A frame is read only by a `receive`, and a caller waits only for a call its body made. */
  ghost predicate Positioned(s: State) {
    Held(s) ==>
      var p := s.callers[|s.acquired| - 1].phase;
      && (p.acc != [] ==> p.rest != [] && p.rest[0].Receive?)
      && (p.child.Some? ==> p.rest != [] && p.rest[0].Call? && |s.acquired| <= p.child.value < |s.callers|)
  }

  ghost predicate Inv(s: State) {
    Ordered(s) && Positioned(s) && Framed(s) && SendsOrdered(s)
  }

  lemma InitialInv()
    ensures Inv(INITIAL)
  {
    assert INITIAL.replies[0..] == [];
  }

  /** Whoever is running holds the lock. */
  lemma RunningIsHolder(s: State, i: nat)
    requires Ordered(s) && i < |s.callers| && s.callers[i].phase.Running?
    ensures i == |s.acquired| - 1 && Held(s)
  {}

  lemma OrderKept(s: State, a: Action)
    requires Ordered(s) && Enabled(s, a)
    ensures Ordered(Apply(s, a))
  {
    hide IsFrame, Need;
    match a
    case Acquire(i) => assert i == |s.acquired|;
    case Enter(_) =>
    case Nest(i) => OrderAfterNest(s, i);
    case Read(i, k) => OrderAfterRead(s, i, k);
    case _ =>
  }

  lemma OrderAfterNest(s: State, i: nat)
    requires Ordered(s) && Enabled(s, Nest(i))
    ensures Ordered(Apply(s, Nest(i)))
  {
    hide IsFrame, Need;
  }

  lemma OrderAfterRead(s: State, i: nat, k: nat)
    requires Ordered(s) && Enabled(s, Read(i, k))
    ensures Ordered(Apply(s, Read(i, k)))
  {
    hide IsFrame, Need;
  }

  lemma PositionKept(s: State, a: Action)
    requires Ordered(s) && Positioned(s) && Enabled(s, a)
    ensures Positioned(Apply(s, a))
  {
    hide IsFrame, Need;
    OrderKept(s, a);
  }

  lemma SendsKept(s: State, a: Action)
    requires Ordered(s) && SendsOrdered(s) && Enabled(s, a)
    ensures SendsOrdered(Apply(s, a))
  {}

  /** Bytes read from the front of unread replies never cross the end of the first, and complete it exactly. */
  lemma PrefixOfFrame(acc: seq<Byte>, k: nat, f: seq<Byte>, rest: seq<Byte>, bytes: seq<Byte>)
    requires IsFrame(f) && bytes == f + rest && |acc| + k <= |bytes| && acc == bytes[..|acc|]
    requires |acc| <= |f| && 0 < k <= Need(acc)
    ensures var acc' := bytes[..|acc| + k];
            |acc'| <= |f| && (Need(acc') == 0 <==> acc' == f)
  {
    var acc' := bytes[..|acc| + k];
    if |acc| >= HEADER_LENGTH {
      assert acc[0..4] == f[0..4];
      assert GetU32(acc, 0) == GetU32(f, 0) == |f|;
    }
    if |acc'| >= HEADER_LENGTH {
      assert GetU32(acc', 0) == GetU32(f, 0) == |f|;
    }
  }

  /** Reading: the bytes handed out extend the frame at the front of the unread replies, and the receipt is that frame. */
  lemma ReadAdvances(s: State, i: nat, k: nat)
    requires Inv(s) && Enabled(s, Read(i, k))
    ensures var r, acc := |s.receipts|, s.callers[i].phase.acc + s.arrived[..k];
            && r < |s.replies|
            && |acc| <= |s.replies[r]|
            && (Need(acc) == 0 <==> acc == s.replies[r])
            && acc + s.arrived[k..] + s.wire == s.replies[r] + Concat(s.replies[r + 1..])
  {
    RunningIsHolder(s, i);
    var pending := s.replies[|s.receipts|..];
    var bytes := Concat(pending);
    var acc := Partial(s);
    assert bytes == acc + s.arrived + s.wire;
    assert pending != [];
    var f, rest := pending[0], Concat(pending[1..]);
    assert pending[1..] == s.replies[|s.receipts| + 1..];
    assert acc == bytes[..|acc|];
    assert bytes[..|acc| + k] == acc + s.arrived[..k];
    AccWithinFrame(acc, f, rest, bytes);
    PrefixOfFrame(acc, k, f, rest, bytes);
    assert acc + s.arrived[..k] + s.arrived[k..] + s.wire == bytes;
  }

  lemma AccWithinFrame(acc: seq<Byte>, f: seq<Byte>, rest: seq<Byte>, bytes: seq<Byte>)
    requires IsFrame(f) && bytes == f + rest && |acc| <= |bytes| && acc == bytes[..|acc|] && Need(acc) > 0
    ensures |acc| <= |f|
  {
    if |acc| >= HEADER_LENGTH {
      assert acc[0..4] == f[0..4];
      assert GetU32(acc, 0) == GetU32(f, 0) == |f|;
    }
  }

  lemma FramedAfterRead(s: State, i: nat, k: nat)
    requires Inv(s) && Enabled(s, Read(i, k))
    ensures Framed(Apply(s, Read(i, k)))
  {
    hide Positioned, SendsOrdered, IsFrame, Concat;
    RunningIsHolder(s, i);
    ReadAdvances(s, i, k);
    var s' := Apply(s, Read(i, k));
    var acc, tail := s.callers[i].phase.acc + s.arrived[..k], Concat(s.replies[|s.receipts| + 1..]);
    if Need(acc) == 0 {
      assert Partial(s') == [];
      NeedOfNothing(s);
      BehindFrame(acc, s'.arrived, s'.wire, tail);
    } else {
      assert Partial(s') == acc;
      FirstReply(s.replies, |s.receipts|);
    }
  }

  lemma BehindFrame(acc: seq<Byte>, arrived: seq<Byte>, wire: seq<Byte>, tail: seq<Byte>)
    requires acc + arrived + wire == acc + tail
    ensures [] + arrived + wire == tail
  {
    assert (acc + arrived + wire)[|acc|..] == arrived + wire;
    assert (acc + tail)[|acc|..] == tail;
  }

  lemma FirstReply(replies: seq<seq<Byte>>, r: nat)
    requires r < |replies|
    ensures Concat(replies[r..]) == replies[r] + Concat(replies[r + 1..])
  {
    assert replies[r..][1..] == replies[r + 1..];
  }

  lemma FramedAfterAnswer(s: State, frame: seq<Byte>)
    requires Inv(s) && Enabled(s, Answer(frame))
    ensures Framed(Apply(s, Answer(frame)))
  {
    var s', r := Apply(s, Answer(frame)), |s.receipts|;
    assert Partial(s') == Partial(s);
    assert s'.replies[r..] == s.replies[r..] + [frame];
    ConcatAppend(s.replies[r..], frame);
    assert Partial(s) + s.arrived + (s.wire + frame) == (Partial(s) + s.arrived + s.wire) + frame;
  }

  lemma FramedAfterArrive(s: State, k: nat)
    requires Inv(s) && Enabled(s, Arrive(k))
    ensures Framed(Apply(s, Arrive(k)))
  {
    var s' := Apply(s, Arrive(k));
    assert Partial(s') == Partial(s);
    assert Partial(s) + (s.arrived + s.wire[..k]) + s.wire[k..] == Partial(s) + s.arrived + s.wire;
  }

  /** Every other step leaves the bytes alone. */
  lemma FramedKept(s: State, a: Action)
    requires Inv(s) && Enabled(s, a)
    ensures Framed(Apply(s, a))
  {
    OrderKept(s, a);
    match a
    case Read(i, k) => FramedAfterRead(s, i, k);
    case Answer(frame) => FramedAfterAnswer(s, frame);
    case Arrive(k) => FramedAfterArrive(s, k);
    case _ =>
      PartialKept(s, a);
      BytesKept(s, a);
  }

  /** Only reading changes the bytes of the frame being received. */
  lemma PartialKept(s: State, a: Action)
    requires Inv(s) && Enabled(s, a) && !a.Read?
    ensures s.connected && Apply(s, a).connected ==> Partial(Apply(s, a)) == Partial(s)
    ensures Need(Partial(Apply(s, a))) > 0
  {
    hide Framed, SendsOrdered, IsFrame, Concat, Need;
    NeedOfNothing(s);
    match a
    case Enter(_) =>
    case Acquire(i) =>
    case Transmit(i) => RunningIsHolder(s, i);
    case Nest(i) => RunningIsHolder(s, i);
    case Resume(i) => RunningIsHolder(s, i);
    case Return(i) => RunningIsHolder(s, i);
    case Throw(i) => RunningIsHolder(s, i);
    case _ =>
  }

  lemma NeedOfNothing(s: State)
    requires Framed(s)
    ensures Need([]) > 0 && Need(Partial(s)) > 0
  {}

  lemma BytesKept(s: State, a: Action)
    requires Inv(s) && Enabled(s, a) && !a.Read? && !a.Answer? && !a.Arrive?
    requires s.connected && Apply(s, a).connected ==> Partial(Apply(s, a)) == Partial(s)
    requires Need(Partial(Apply(s, a))) > 0
    ensures Framed(Apply(s, a))
  {
    hide Partial, Need, IsFrame, Concat, Ordered, Positioned, SendsOrdered;
  }

  lemma InvKept(s: State, a: Action)
    requires Inv(s) && Enabled(s, a)
    ensures Inv(Apply(s, a))
  {
    OrderKept(s, a);
    PositionKept(s, a);
    FramedKept(s, a);
    SendsKept(s, a);
  }

  /** The invariant holds after every run, whatever the bodies do and whatever the interleaving. */
  lemma {:induction false} RunKeepsInv(s: State, actions: seq<Action>)
    requires Inv(s) && IsRun(s, actions)
    ensures Inv(Final(s, actions))
    decreases |actions|
  {
    if actions != [] {
      InvKept(s, actions[0]);
      RunKeepsInv(Apply(s, actions[0]), actions[1..]);
    }
  }

  /** At most one caller is inside its body, in every reachable state. */
  lemma MutualExclusion(actions: seq<Action>, i: nat, j: nat)
    requires IsRun(INITIAL, actions)
    requires var s := Final(INITIAL, actions);
             i < |s.callers| && j < |s.callers| && s.callers[i].phase.Running? && s.callers[j].phase.Running?
    ensures i == j
  {
    InitialInv();
    RunKeepsInv(INITIAL, actions);
  }

  /** Callers get the lock in the order in which they called. */
  lemma ArrivalOrder(actions: seq<Action>, k: nat)
    requires IsRun(INITIAL, actions) && k < |Final(INITIAL, actions).acquired|
    ensures Final(INITIAL, actions).acquired[k] == k
  {
    InitialInv();
    RunKeepsInv(INITIAL, actions);
  }

  /** A body that returns or throws has released: the next caller in the queue can go on. */
  lemma ReleaseHandsOver(s: State, a: Action, i: nat)
    requires Inv(s) && Enabled(s, a) && (a == Return(i) || a == Throw(i)) && i + 1 < |s.callers|
    ensures Enabled(Apply(s, a), Acquire(i + 1))
  {
    RunningIsHolder(s, i);
    InvKept(s, a);
  }
}
