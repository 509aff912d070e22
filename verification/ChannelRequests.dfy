/** What each caller sends and receives: exactly what its body says, in order, as far as the body has come. */
module ChannelRequests {
  import opened Bytes
  import opened DataStream
  import opened Outcome
  import opened Channel

  /** The requests of the `Send` operations of a body, in order. */
  function Requests(body: seq<Op>): (r: seq<seq<Byte>>) {
    if body == [] then [] else (if body[0].Send? then [body[0].request] else []) + Requests(body[1..])
  }

  /** How many replies a body receives. */
  function Receives(body: seq<Op>): (n: nat) {
    if body == [] then 0 else (if body[0].Receive? then 1 else 0) + Receives(body[1..])
  }

  /** What one caller sent, or was given, in order. */
  function Of(ds: seq<Delivery>, i: nat): (r: seq<seq<Byte>>) {
    if ds == [] then [] else Of(ds[..|ds| - 1], i) + if ds[|ds| - 1].caller == i then [ds[|ds| - 1].bytes] else []
  }

  /** The body a step passes to `withLock`, if it is a call: a new one, or one of a body that calls it again. */
  function Entered(s: State, a: Action): (r: seq<seq<Op>>)
    requires Enabled(s, a)
  {
    if a.Enter? then [a.body] else if a.Nest? then [s.callers[a.i].phase.rest[0].body] else []
  }

  /** The bodies passed to `withLock` during a run, in order. */
  function Bodies(s: State, actions: seq<Action>): (r: seq<seq<Op>>)
    requires IsRun(s, actions)
    decreases |actions|
  {
    if actions == [] then [] else Entered(s, actions[0]) + Bodies(Apply(s, actions[0]), actions[1..])
  }

  /** Caller `i` has done its body up to where its phase says. */
  ghost predicate Accounted(s: State, body: seq<Op>, i: nat, returned: bool)
    requires i < |s.callers|
  {
    match s.callers[i].phase
    case Waiting(b) => b == body && Of(s.sends, i) == [] && Of(s.receipts, i) == []
    case Running(rest, _, _) =>
      Of(s.sends, i) + Requests(rest) == Requests(body) && |Of(s.receipts, i)| + Receives(rest) == Receives(body)
    case Done =>
      && Of(s.sends, i) <= Requests(body) && |Of(s.receipts, i)| <= Receives(body)
      && (returned ==> Of(s.sends, i) == Requests(body) && |Of(s.receipts, i)| == Receives(body))
  }

  /** Every caller has, and callers that do not exist have sent and received nothing. */
  ghost predicate AllAccounted(s: State, bodies: seq<seq<Op>>, returned: set<nat>) {
    && |bodies| == |s.callers|
    && (forall i | 0 <= i < |bodies| :: Accounted(s, bodies[i], i, i in returned))
    && (forall i: nat | |bodies| <= i :: Of(s.sends, i) == [] && Of(s.receipts, i) == [] && i !in returned)
    && (forall i: nat | i in returned :: i < |s.callers| && s.callers[i].phase.Done?)
  }

  function Returned(returned: set<nat>, a: Action): (r: set<nat>) {
    if a.Return? then returned + {a.i} else returned
  }

  lemma OfMore(ds: seq<Delivery>, d: Delivery, i: nat)
    ensures Of(ds + [d], i) == Of(ds, i) + if d.caller == i then [d.bytes] else []
  {
    assert (ds + [d])[..|ds|] == ds;
  }

  lemma RequestsFirst(body: seq<Op>)
    requires body != []
    ensures Requests(body) == (if body[0].Send? then [body[0].request] else []) + Requests(body[1..])
    ensures Receives(body) == (if body[0].Receive? then 1 else 0) + Receives(body[1..])
  {}

  /** Only the caller that takes a step is affected by it. */
  lemma OthersAccounted(s: State, a: Action, body: seq<Op>, j: nat, returned: bool)
    requires Enabled(s, a) && j < |s.callers| && Accounted(s, body, j, returned)
    requires a.Acquire? || a.Transmit? || a.Read? || a.Nest? || a.Resume? || a.Return? || a.Throw? ==> a.i != j
    ensures Accounted(Apply(s, a), body, j, returned)
  {
    hide Of, Requests, Receives, Need, IsFrame;
    if a.Transmit? {
      OfMore(s.sends, Delivery(a.i, s.callers[a.i].phase.rest[0].request), j);
    }
    if a.Read? {
      OfMore(s.receipts, Delivery(a.i, s.callers[a.i].phase.acc + s.arrived[..a.k]), j);
    }
  }

  lemma ActorAccounted(s: State, a: Action, body: seq<Op>)
    requires Enabled(s, a) && (a.Acquire? || a.Transmit? || a.Read? || a.Nest? || a.Resume? || a.Return? || a.Throw?)
    requires a.i < |s.callers| && Accounted(s, body, a.i, false)
    requires a.Resume? ==> s.callers[a.i].phase.rest[0].Call?
    ensures Accounted(Apply(s, a), body, a.i, a.Return?)
  {
    hide Of, Requests, Receives, Need, IsFrame;
    var p := s.callers[a.i].phase;
    match a
    case Acquire(i) =>
      NothingYet(p.body);
    case Transmit(i) =>
      var request := p.rest[0].request;
      OfMore(s.sends, Delivery(i, request), i);
      RequestsFirst(p.rest);
      assert (Of(s.sends, i) + [request]) + Requests(p.rest[1..]) == Of(s.sends, i) + ([request] + Requests(p.rest[1..]));
    case Read(i, k) =>
      OfMore(s.receipts, Delivery(i, p.acc + s.arrived[..k]), i);
      RequestsFirst(p.rest);
      assert [] + Requests(p.rest[1..]) == Requests(p.rest[1..]);
    case Nest(i) =>
    case Resume(i) =>
      RequestsFirst(p.rest);
      assert [] + Requests(p.rest[1..]) == Requests(p.rest[1..]);
    case Return(i) =>
      NothingLeft();
      assert Of(s.sends, i) + [] == Of(s.sends, i);
    case Throw(i) =>
  }

  lemma NothingYet(body: seq<Op>)
    ensures [] + Requests(body) == Requests(body)
  {}

  lemma NothingLeft()
    ensures Requests([]) == [] && Receives([]) == 0
  {}

  /** A new caller waits with its body and has sent and received nothing. */
  lemma NewcomerAccounted(s: State, a: Action, body: seq<Op>)
    requires Enabled(s, a) && Entered(s, a) == [body]
    requires Of(s.sends, |s.callers|) == [] && Of(s.receipts, |s.callers|) == []
    ensures |Apply(s, a).callers| == |s.callers| + 1 && Accounted(Apply(s, a), body, |s.callers|, false)
  {
    hide Of, Requests, Receives;
  }

  lemma NobodyElseSends(s: State, a: Action, j: nat)
    requires Enabled(s, a) && |s.callers| <= j
    ensures Of(Apply(s, a).sends, j) == Of(s.sends, j) && Of(Apply(s, a).receipts, j) == Of(s.receipts, j)
  {
    hide Of, Need, IsFrame;
    if a.Transmit? {
      OfMore(s.sends, Delivery(a.i, s.callers[a.i].phase.rest[0].request), j);
    }
    if a.Read? {
      OfMore(s.receipts, Delivery(a.i, s.callers[a.i].phase.acc + s.arrived[..a.k]), j);
    }
  }

  lemma StepAccounted(s: State, a: Action, bodies: seq<seq<Op>>, returned: set<nat>)
    requires Inv(s) && Enabled(s, a) && AllAccounted(s, bodies, returned)
    ensures AllAccounted(Apply(s, a), bodies + Entered(s, a), Returned(returned, a))
  {
    hide Accounted, Of;
    var s', more := Apply(s, a), Entered(s, a);
    NewCallers(s, a);
    forall j | 0 <= j < |bodies + more| ensures Accounted(s', (bodies + more)[j], j, j in Returned(returned, a)) {
      if j == |bodies| {
        NewcomerAccounted(s, a, more[0]);
      } else if (a.Acquire? || a.Transmit? || a.Read? || a.Nest? || a.Resume? || a.Return? || a.Throw?) && a.i == j {
        NotYetDone(s, a);
        ActorAccounted(s, a, bodies[j]);
      } else {
        OthersAccounted(s, a, bodies[j], j, j in returned);
      }
    }
    forall j: nat | |bodies + more| <= j ensures Of(s'.sends, j) == [] && Of(s'.receipts, j) == [] && j !in Returned(returned, a) {
      NobodyElseSends(s, a, j);
    }
    StaysDone(s, a, returned);
  }

  /** Whoever takes a step has not released, and a nested call is what it resumes behind. */
  lemma NotYetDone(s: State, a: Action)
    requires Inv(s) && Enabled(s, a) && (a.Acquire? || a.Transmit? || a.Read? || a.Nest? || a.Resume? || a.Return? || a.Throw?)
    ensures a.i < |s.callers| && !s.callers[a.i].phase.Done?
    ensures a.Resume? ==> s.callers[a.i].phase.rest[0].Call?
  {
    hide Framed, SendsOrdered;
    if a.Resume? {
      RunningIsHolder(s, a.i);
    }
  }

  lemma StaysDone(s: State, a: Action, returned: set<nat>)
    requires Enabled(s, a) && forall i: nat | i in returned :: i < |s.callers| && s.callers[i].phase.Done?
    ensures forall i: nat | i in Returned(returned, a) :: i < |Apply(s, a).callers| && Apply(s, a).callers[i].phase.Done?
  {
    hide Need, IsFrame;
  }

  lemma NewCallers(s: State, a: Action)
    requires Enabled(s, a)
    ensures |Apply(s, a).callers| == |s.callers| + |Entered(s, a)|
  {
    hide Need, IsFrame;
  }

  function ReturnedIn(actions: seq<Action>): (r: set<nat>) {
    set a | a in actions && a.Return? :: a.i
  }

  lemma {:induction false} RunAccounted(s: State, actions: seq<Action>, bodies: seq<seq<Op>>, returned: set<nat>)
    requires Inv(s) && IsRun(s, actions) && AllAccounted(s, bodies, returned)
    ensures AllAccounted(Final(s, actions), bodies + Bodies(s, actions), returned + ReturnedIn(actions))
    decreases |actions|
  {
    hide AllAccounted, Inv, Enabled, Apply;
    if actions == [] {
      assert bodies + [] == bodies && returned + ReturnedIn([]) == returned;
    } else {
      var a, rest := actions[0], actions[1..];
      InvKept(s, a);
      StepAccounted(s, a, bodies, returned);
      RunAccounted(Apply(s, a), rest, bodies + Entered(s, a), Returned(returned, a));
      assert (bodies + Entered(s, a)) + Bodies(Apply(s, a), rest) == bodies + (Entered(s, a) + Bodies(Apply(s, a), rest));
      assert actions == [a] + rest;
      assert Returned(returned, a) + ReturnedIn(rest) == returned + ReturnedIn(actions);
    }
  }

  /**
   In every run, with any bodies and any interleaving: what a caller has sent, followed by the requests
   its body has still to send, are the requests of the body it entered with, in order, and likewise the
   number of replies it has received. A caller that returned has sent and received all of them, one that
   threw a first part.
   */
  lemma BodiesAreCarriedOut(actions: seq<Action>, i: nat)
    requires IsRun(INITIAL, actions) && i < |Final(INITIAL, actions).callers|
    ensures |Bodies(INITIAL, actions)| == |Final(INITIAL, actions).callers|
    ensures var s, body := Final(INITIAL, actions), Bodies(INITIAL, actions)[i];
            match s.callers[i].phase
            case Waiting(b) => b == body && Of(s.sends, i) == [] && Of(s.receipts, i) == []
            case Running(rest, _, _) =>
              Of(s.sends, i) + Requests(rest) == Requests(body) && |Of(s.receipts, i)| + Receives(rest) == Receives(body)
            case Done =>
              && Of(s.sends, i) <= Requests(body) && |Of(s.receipts, i)| <= Receives(body)
              && (Return(i) in actions ==> Of(s.sends, i) == Requests(body) && |Of(s.receipts, i)| == Receives(body))
  {
    InitialInv();
    hide Inv;
    RunAccounted(INITIAL, actions, [], {});
    assert [] + Bodies(INITIAL, actions) == Bodies(INITIAL, actions);
    assert Return(i) in actions ==> i in {} + ReturnedIn(actions);
  }

  /** A caller of `sendAndReceive` whose call has returned sent exactly its request and received one reply. */
  lemma SendAndReceiveSends(actions: seq<Action>, i: nat, request: seq<Byte>)
    requires IsRun(INITIAL, actions) && i < |Final(INITIAL, actions).callers| == |Bodies(INITIAL, actions)|
    requires Bodies(INITIAL, actions)[i] == [Send(request), Receive]
    requires Final(INITIAL, actions).callers[i].phase.Done? && Return(i) in actions
    ensures Of(Final(INITIAL, actions).sends, i) == [request] && |Of(Final(INITIAL, actions).receipts, i)| == 1
  {
    BodiesAreCarriedOut(actions, i);
    var body := [Send(request), Receive];
    assert body[1..] == [Receive] && [Receive][1..] == [];
    RequestsFirst(body);
    RequestsFirst([Receive]);
    NothingLeft();
  }
}
