/** Who receives which reply: each caller its own, or, when a body is unbalanced, exactly how replies go astray. */
module ChannelReplies {
  import opened Bytes
  import opened DataStream
  import opened Outcome
  import opened Channel

  // ---- Each caller gets the replies to its own requests ----

  /** A body that, from `owed` unread replies on, receives only what it is owed and ends owed nothing. */
  predicate Balanced(body: seq<Op>, owed: nat)
    decreases |body|
  {
    if body == [] then owed == 0 else
      match body[0]
      case Send(_) => Balanced(body[1..], owed + 1)
      case Receive => owed > 0 && Balanced(body[1..], owed - 1)
      case Call(_) => false
  }

  predicate CallFree(body: seq<Op>) {
    forall k | 0 <= k < |body| :: !body[k].Call?
  }

  lemma {:induction false} BalancedIsCallFree(body: seq<Op>, owed: nat)
    requires Balanced(body, owed)
    ensures CallFree(body)
    decreases |body|
  {
    if body != [] {
      BalancedIsCallFree(body[1..], if body[0].Send? then owed + 1 else owed - 1);
      forall k | 0 < k < |body| ensures !body[k].Call? {
        assert body[k] == body[1..][k - 1];
      }
    }
  }

  /** The steps of callers with balanced bodies that throw only when no reply to them is outstanding. */
  predicate CleanStep(s: State, a: Action) {
    match a
    case Enter(body) => Balanced(body, 0)
    case Throw(_) => s.connected ==> |s.sends| == |s.receipts|
    case _ => true
  }

  predicate IsCleanRun(s: State, actions: seq<Action>)
    decreases |actions|
  {
    actions == [] || (Enabled(s, actions[0]) && CleanStep(s, actions[0]) && IsCleanRun(Apply(s, actions[0]), actions[1..]))
  }

  ghost predicate CleanInv(s: State) {
    && Inv(s)
    && (forall i | |s.acquired| <= i < |s.callers| :: Balanced(s.callers[i].phase.body, 0))
    && (forall j | 0 <= j < |s.receipts| :: s.receipts[j].caller == s.sends[j].caller)
    && (s.connected ==> forall j | |s.receipts| <= j < |s.sends| :: s.sends[j].caller == |s.acquired| - 1)
    && (Held(s) ==> CallFree(s.callers[|s.acquired| - 1].phase.rest))
    && (s.connected && !Held(s) ==> |s.sends| == |s.receipts|)
    && (s.connected && Held(s) ==> Balanced(s.callers[|s.acquired| - 1].phase.rest, |s.sends| - |s.receipts|))
  }

  lemma CleanInitial()
    ensures CleanInv(INITIAL)
  {
    InitialInv();
  }

  lemma CleanAfterRead(s: State, i: nat, k: nat)
    requires CleanInv(s) && Enabled(s, Read(i, k))
    ensures CleanInv(Apply(s, Read(i, k)))
  {
    hide IsFrame, Concat, SendsOrdered, Framed;
    InvKept(s, Read(i, k));
    RunningIsHolder(s, i);
    ReadAdvances(s, i, k);
  }

  lemma CleanAfterTransmit(s: State, i: nat)
    requires CleanInv(s) && Enabled(s, Transmit(i))
    ensures CleanInv(Apply(s, Transmit(i)))
  {
    InvKept(s, Transmit(i));
    RunningIsHolder(s, i);
  }

  lemma CleanAfterAcquire(s: State, i: nat)
    requires CleanInv(s) && Enabled(s, Acquire(i))
    ensures CleanInv(Apply(s, Acquire(i)))
  {
    InvKept(s, Acquire(i));
    assert i == |s.acquired| && !Held(s);
    BalancedIsCallFree(s.callers[i].phase.body, 0);
  }

  lemma CleanAfterRelease(s: State, a: Action, i: nat)
    requires CleanInv(s) && Enabled(s, a) && CleanStep(s, a) && (a == Return(i) || a == Throw(i))
    ensures CleanInv(Apply(s, a))
  {
    InvKept(s, a);
    RunningIsHolder(s, i);
  }

  lemma CleanKept(s: State, a: Action)
    requires CleanInv(s) && Enabled(s, a) && CleanStep(s, a)
    ensures CleanInv(Apply(s, a))
  {
    hide CleanInv;
    match a
    case Acquire(i) => CleanAfterAcquire(s, i);
    case Transmit(i) => CleanAfterTransmit(s, i);
    case Read(i, k) => CleanAfterRead(s, i, k);
    case Return(i) => CleanAfterRelease(s, a, i);
    case Throw(i) => CleanAfterRelease(s, a, i);
    case _ => CleanAfterOther(s, a);
  }

  /** Nothing else touches requests, receipts or the holder's body. */
  lemma CleanAfterOther(s: State, a: Action)
    requires CleanInv(s) && Enabled(s, a) && CleanStep(s, a)
    requires a.Enter? || a.Nest? || a.Resume? || a.Answer? || a.Arrive? || a.Drop?
    ensures CleanInv(Apply(s, a))
  {
    hide IsFrame, Concat, SendsOrdered, Framed, Need;
    InvKept(s, a);
    if a.Nest? || a.Resume? {
      RunningIsHolder(s, a.i);
    }
  }

  lemma {:induction false} CleanRunKeepsInv(s: State, actions: seq<Action>)
    requires CleanInv(s) && IsCleanRun(s, actions) && IsRun(s, actions)
    ensures CleanInv(Final(s, actions))
    decreases |actions|
  {
    if actions != [] {
      CleanKept(s, actions[0]);
      CleanRunKeepsInv(Apply(s, actions[0]), actions[1..]);
    }
  }

  /**
   In every interleaving of any number of balanced callers, with reply bytes arriving in any pieces:
   the j-th frame any caller receives is the server's j-th reply, and it goes to the sender of the j-th request.
   */
  lemma OwnReplies(actions: seq<Action>, j: nat)
    requires IsCleanRun(INITIAL, actions) && IsRun(INITIAL, actions) && j < |Final(INITIAL, actions).receipts|
    ensures var s := Final(INITIAL, actions);
            j < |s.sends| && j < |s.replies| && s.receipts[j] == Delivery(s.sends[j].caller, s.replies[j])
  {
    CleanInitial();
    CleanRunKeepsInv(INITIAL, actions);
  }

  /** `sendAndReceive` is a balanced body. */
  lemma SendAndReceiveIsBalanced(request: seq<Byte>)
    ensures Balanced([Send(request), Receive], 0)
  {
    assert [Send(request), Receive][1..] == [Receive];
    assert [Receive][1..] == [];
  }

  // ---- When a reply goes astray ----

  /**
   Without any assumption on the bodies: the frame a `receive` completes is the reply to a request of
   the receiver itself if and only if no reply to a request of another caller is still unread.
   */
  lemma OwnReplyIff(s: State, i: nat, k: nat)
    requires Inv(s) && Enabled(s, Read(i, k)) && |Apply(s, Read(i, k)).receipts| > |s.receipts|
    ensures var r := |s.receipts|;
            && r < |s.sends|
            && Apply(s, Read(i, k)).receipts[r] == Delivery(i, s.replies[r])
            && (s.sends[r].caller == i <==> forall j | r <= j < |s.sends| :: s.sends[j].caller == i)
  {
    RunningIsHolder(s, i);
    ReadAdvances(s, i, k);
    var r := |s.receipts|;
    if s.sends[r].caller == i {
      forall j | r < j < |s.sends| ensures s.sends[j].caller == i {
        assert s.sends[r].caller <= s.sends[j].caller < |s.acquired|;
      }
    }
  }

  /** Every frame received so far is the reply to a request of its receiver. */
  ghost predicate AllOwn(s: State) {
    forall j | 0 <= j < |s.receipts| :: j < |s.sends| && s.receipts[j].caller == s.sends[j].caller
  }

  /** Caller `i` releases the lock here, and a reply to it is unread. */
  ghost predicate ReleasesOwing(s: State, a: Action) {
    (a.Return? || a.Throw?) && exists j | |s.receipts| <= j < |s.sends| :: s.sends[j].caller == a.i
  }

  /** In this run some body releases with a reply of its own unread, and a receive is completed after that. */
  ghost predicate Strands(s: State, actions: seq<Action>)
    requires IsRun(s, actions)
    decreases |actions|
  {
    actions != [] &&
    ( || (ReleasesOwing(s, actions[0]) && |s.receipts| < |Final(s, actions).receipts|)
      || Strands(Apply(s, actions[0]), actions[1..]))
  }

  /** A reply to a caller that has released is unread. */
  ghost predicate Debt(s: State) {
    exists j | |s.receipts| <= j < |s.sends| ::
      s.sends[j].caller < |s.callers| && s.callers[s.sends[j].caller].phase.Done?
  }

  lemma {:induction false} ReceiptsGrow(s: State, actions: seq<Action>)
    requires IsRun(s, actions)
    ensures s.receipts <= Final(s, actions).receipts && s.sends <= Final(s, actions).sends
    decreases |actions|
  {
    if actions != [] {
      ReceiptsGrow(Apply(s, actions[0]), actions[1..]);
    }
  }

  /** While a reply to a departed caller is unread, the next receive gets a reply that is not its own. */
  lemma DebtStep(s: State, a: Action)
    requires Inv(s) && Debt(s) && Enabled(s, a)
    ensures var s' := Apply(s, a);
            if |s'.receipts| == |s.receipts| then Debt(s') && (AllOwn(s) ==> AllOwn(s')) else !AllOwn(s')
  {
    hide Framed, Concat, IsFrame, Need;
    var j :| |s.receipts| <= j < |s.sends| && s.sends[j].caller < |s.callers| && s.callers[s.sends[j].caller].phase.Done?;
    if a.Read? {
      RunningIsHolder(s, a.i);
      assert s.sends[|s.receipts|].caller <= s.sends[j].caller;
    }
    var s' := Apply(s, a);
    if |s'.receipts| == |s.receipts| {
      assert s'.sends[j] == s.sends[j];
      assert s'.callers[s.sends[j].caller].phase.Done?;
    }
  }

  lemma {:induction false} DebtRun(s: State, actions: seq<Action>)
    requires Inv(s) && Debt(s) && AllOwn(s) && IsRun(s, actions)
    ensures AllOwn(Final(s, actions)) <==> |Final(s, actions).receipts| == |s.receipts|
    ensures Strands(s, actions) ==> |Final(s, actions).receipts| > |s.receipts|
    decreases |actions|
  {
    hide Inv, Debt;
    if actions != [] {
      var s' := Apply(s, actions[0]);
      DebtStep(s, actions[0]);
      InvKept(s, actions[0]);
      ReceiptsGrow(s', actions[1..]);
      if |s'.receipts| == |s.receipts| {
        DebtRun(s', actions[1..]);
      } else {
        ReceiptsSent(s');
        StrayStays(s', Final(s', actions[1..]));
      }
    }
  }

  /** As long as nobody releases with a reply of its own unread, every receive gets a reply of its own. */
  lemma OwnStep(s: State, a: Action)
    requires Inv(s) && AllOwn(s) && !Debt(s) && Enabled(s, a)
    ensures AllOwn(Apply(s, a)) && (Debt(Apply(s, a)) <==> ReleasesOwing(s, a))
  {
    hide Concat, IsFrame, Need;
    match a
    case Read(i, k) =>
      RunningIsHolder(s, i);
      ReadAdvances(s, i, k);
    case Return(i) => ReleaseMakesDebt(s, a);
    case Throw(i) => ReleaseMakesDebt(s, a);
    case Acquire(i) => SameDebt(s, a);
    case Transmit(i) =>
      RunningIsHolder(s, i);
    case Nest(i) => SameDebt(s, a);
    case Resume(i) => SameDebt(s, a);
    case _ => SameDebt(s, a);
  }

  lemma ReleaseMakesDebt(s: State, a: Action)
    requires Inv(s) && !Debt(s) && Enabled(s, a) && (a.Return? || a.Throw?)
    ensures Debt(Apply(s, a)) <==> ReleasesOwing(s, a)
  {
    hide Concat, IsFrame, Need, Framed;
    var s' := Apply(s, a);
    if ReleasesOwing(s, a) {
      var j :| |s.receipts| <= j < |s.sends| && s.sends[j].caller == a.i;
      assert s'.callers[s'.sends[j].caller].phase.Done?;
    }
  }

  lemma SameDebt(s: State, a: Action)
    requires Inv(s) && !Debt(s) && Enabled(s, a) && !a.Read? && !a.Transmit? && !a.Return? && !a.Throw?
    ensures !Debt(Apply(s, a)) && !ReleasesOwing(s, a)
  {
    hide Concat, IsFrame, Need, Framed;
  }

  /**
   Over whole runs, whatever the bodies do: every received frame is the reply to a request of its
   receiver if and only if no body releases with a reply of its own unread before a further receive.
   */
  lemma AllOwnIff(actions: seq<Action>)
    requires IsRun(INITIAL, actions)
    ensures AllOwn(Final(INITIAL, actions)) <==> !Strands(INITIAL, actions)
  {
    InitialInv();
    AllOwnFrom(INITIAL, actions);
  }

  lemma {:induction false} AllOwnFrom(s: State, actions: seq<Action>)
    requires Inv(s) && AllOwn(s) && !Debt(s) && IsRun(s, actions)
    ensures AllOwn(Final(s, actions)) <==> !Strands(s, actions)
    decreases |actions|
  {
    hide Inv, Debt, AllOwn;
    if actions != [] {
      var s' := Apply(s, actions[0]);
      InvKept(s, actions[0]);
      OwnStep(s, actions[0]);
      if Debt(s') {
        DebtRun(s', actions[1..]);
        ReceiptsGrow(s', actions[1..]);
      } else {
        AllOwnFrom(s', actions[1..]);
      }
    }
  }

  lemma ReceiptsSent(s: State)
    requires Inv(s)
    ensures |s.receipts| <= |s.sends|
  {}

  lemma StrayStays(s: State, s': State)
    requires !AllOwn(s) && s.receipts <= s'.receipts && s.sends <= s'.sends && |s.receipts| <= |s.sends|
    ensures !AllOwn(s')
  {
    var j :| 0 <= j < |s.receipts| && s.receipts[j].caller != s.sends[j].caller;
    assert s'.receipts[j].caller != s'.sends[j].caller;
  }

  /** Caller `c` has released while the reply to its request `r` was unread. */
  ghost predicate LeftBehind(s: State, r: nat, c: nat) {
    && Inv(s) && r < |s.sends| && s.sends[r].caller == c && c < |s.callers| && s.callers[c].phase.Done?
    && (r < |s.receipts| ==> s.receipts[r].caller != c)
  }

  /** A reply left behind goes, if to anyone, to another caller: in every continuation, whatever the others do. */
  lemma {:induction false} LeftBehindGoesAstray(s: State, r: nat, c: nat, actions: seq<Action>)
    requires LeftBehind(s, r, c) && IsRun(s, actions)
    ensures LeftBehind(Final(s, actions), r, c)
    decreases |actions|
  {
    hide Inv;
    if actions != [] {
      StaysBehind(s, r, c, actions[0]);
      LeftBehindGoesAstray(Apply(s, actions[0]), r, c, actions[1..]);
    }
  }

  lemma StaysBehind(s: State, r: nat, c: nat, a: Action)
    requires LeftBehind(s, r, c) && Enabled(s, a)
    ensures LeftBehind(Apply(s, a), r, c)
  {
    InvKept(s, a);
    hide Framed, SendsOrdered, Concat, IsFrame, Need, Positioned;
    match a {
      case Read(i, k) => RunningIsHolder(s, i);
      case _ =>
    }
  }

  /** This is where a body that throws between its send and its receive leads. */
  lemma ThrowLeavesReplyBehind(s: State, i: nat)
    requires Inv(s) && Enabled(s, Throw(i)) && |s.receipts| < |s.sends| && s.sends[|s.receipts|].caller == i
    ensures LeftBehind(Apply(s, Throw(i)), |s.receipts|, i)
  {
    RunningIsHolder(s, i);
    InvKept(s, Throw(i));
  }

  const EMPTY_FRAME: seq<Byte> := [0, 0, 0, 20, 0, 0, 0, 0, 0, 0, 0, 0, 0, 0, 0, 0, 0, 0, 0, 0]

  lemma RunCons(s: State, a: Action, rest: seq<Action>)
    requires Enabled(s, a) && IsRun(Apply(s, a), rest)
    ensures IsRun(s, [a] + rest) && Final(s, [a] + rest) == Final(Apply(s, a), rest)
  {
    assert ([a] + rest)[1..] == rest;
  }

  /** It does happen: caller 1 ends up with the reply to the request caller 0 sent. */
  lemma ReplyCanGoAstray() returns (actions: seq<Action>)
    ensures IsRun(INITIAL, actions)
    ensures var s := Final(INITIAL, actions);
            s.sends == [Delivery(0, [])] && s.receipts == [Delivery(1, EMPTY_FRAME)]
  {
    var s5 := State(Some(1), [Caller(None, Done), Caller(Some(0), Waiting([Receive]))], true, [Delivery(0, [])], [], [], [], [], [0]);
    var rest := Delivered(s5);
    actions := LeadIn(s5, rest);
  }

  /** Caller 1 receives the one reply there is. */
  lemma Delivered(s5: State) returns (actions: seq<Action>)
    requires s5 == State(Some(1), [Caller(None, Done), Caller(Some(0), Waiting([Receive]))], true, [Delivery(0, [])], [], [], [], [], [0])
    ensures IsRun(s5, actions)
    ensures Final(s5, actions).sends == s5.sends && Final(s5, actions).receipts == [Delivery(1, EMPTY_FRAME)]
  {
    hide IsRun, Final;
    var s6 := Apply(s5, Acquire(1));
    actions := AnswerArrives(s6);
    RunCons(s5, Acquire(1), actions);
    actions := [Acquire(1)] + actions;
  }

  lemma AnswerArrives(s6: State) returns (actions: seq<Action>)
    requires |s6.callers| == 2 && s6.callers[1].phase == Running([Receive], [], None) && s6.connected
    requires s6.sends == [Delivery(0, [])] && s6.replies == [] && s6.wire == s6.arrived == [] && s6.receipts == []
    ensures IsRun(s6, actions)
    ensures Final(s6, actions).sends == s6.sends && Final(s6, actions).receipts == [Delivery(1, EMPTY_FRAME)]
  {
    hide IsRun, Final, Need;
    var s7 := Apply(s6, Answer(EMPTY_FRAME));
    assert s7.wire == EMPTY_FRAME;
    var s8 := Apply(s7, Arrive(20));
    assert s8.arrived == EMPTY_FRAME;
    var last := ReadLast(s8);
    RunCons(s7, Arrive(20), last);
    actions := [Arrive(20)] + last;
    RunCons(s6, Answer(EMPTY_FRAME), actions);
    actions := [Answer(EMPTY_FRAME)] + actions;
  }

  lemma ReadLast(s: State) returns (actions: seq<Action>)
    requires |s.callers| == 2 && s.callers[1].phase == Running([Receive], [], None) && s.connected
    requires s.arrived == EMPTY_FRAME && s.receipts == []
    ensures IsRun(s, actions) && Final(s, actions).receipts == [Delivery(1, EMPTY_FRAME)] && Final(s, actions).sends == s.sends
  {
    assert [] + s.arrived[..20] == EMPTY_FRAME && Need(EMPTY_FRAME) == 0;
    actions := [Read(1, 20)];
    RunCons(s, Read(1, 20), []);
    assert [Read(1, 20)] + [] == [Read(1, 20)];
  }

  /** Caller 0 sends and throws; caller 1 queues. */
  lemma LeadIn(s5: State, rest: seq<Action>) returns (actions: seq<Action>)
    requires s5 == State(Some(1), [Caller(None, Done), Caller(Some(0), Waiting([Receive]))], true, [Delivery(0, [])], [], [], [], [], [0])
    requires IsRun(s5, rest)
    ensures IsRun(INITIAL, actions) && Final(INITIAL, actions) == Final(s5, rest)
  {
    var body := [Send([]), Receive];
    var s1 := Apply(INITIAL, Enter(body));
    var s2 := Apply(s1, Acquire(0));
    var s3 := Apply(s2, Transmit(0));
    var s4 := Apply(s3, Throw(0));
    assert s4.callers == [Caller(None, Done)];
    assert Apply(s4, Enter([Receive])) == s5;
    RunCons(s4, Enter([Receive]), rest);
    actions := [Enter([Receive])] + rest;
    RunCons(s3, Throw(0), actions);
    actions := [Throw(0)] + actions;
    RunCons(s2, Transmit(0), actions);
    actions := [Transmit(0)] + actions;
    RunCons(s1, Acquire(0), actions);
    actions := [Acquire(0)] + actions;
    RunCons(INITIAL, Enter(body), actions);
    actions := [Enter(body)] + actions;
  }
}
