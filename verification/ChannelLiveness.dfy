/** Every call finishes unless a body re-enters the lock, and then it never does. */
module ChannelLiveness {
  import opened Bytes
  import opened DataStream
  import opened Outcome
  import opened Channel
  import opened ChannelReplies

  // ---- Progress ----

  ghost predicate AllDone(s: State) {
    forall i | 0 <= i < |s.callers| :: s.callers[i].phase.Done?
  }

  /** A step that is neither a new call nor the connection's loss. */
  predicate Internal(a: Action) {
    !a.Enter? && !a.Drop?
  }

  /** As long as a reply is unread, some of its bytes have arrived or are under way. */
  lemma BytesUnderWay(s: State)
    requires Inv(s) && s.connected
    ensures |s.receipts| < |s.replies| ==> |s.arrived| + |s.wire| > 0
  {
    var r := |s.receipts|;
    if r < |s.replies| {
      var f, rest := s.replies[r], Concat(s.replies[r..][1..]);
      var bytes := f + rest;
      assert Partial(s) + s.arrived + s.wire == bytes;
      assert Partial(s) == bytes[..|Partial(s)|];
      AccWithinFrame(Partial(s), f, rest, bytes);
      ProperPrefix(Partial(s), f);
    }
  }

  lemma ProperPrefix(acc: seq<Byte>, f: seq<Byte>)
    requires IsFrame(f) && |acc| <= |f| && acc == f[..|acc|] && Need(acc) > 0
    ensures |acc| < |f|
  {
    if |acc| >= HEADER_LENGTH {
      assert acc[0..4] == f[0..4];
      assert GetU32(acc, 0) == GetU32(f, 0) == |f|;
    }
  }

  /** A holder that waits for a reply waits for bytes that are there, under way, or still to be sent. */
  lemma ReceiveProgress(s: State, i: nat) returns (a: Action)
    requires CleanInv(s) && s.connected && AtOp(s, i) && s.callers[i].phase.rest[0].Receive?
    ensures Internal(a) && Enabled(s, a) && CleanStep(s, a)
  {
    RunningIsHolder(s, i);
    var r := |s.receipts|;
    if s.arrived != [] {
      a := Read(i, 1);
    } else if s.wire != [] {
      a := Arrive(1);
    } else {
      a := Answer(EMPTY_FRAME);
      BytesUnderWay(s);
    }
  }

  /** In every reachable state without re-entry in which some call has not finished, some step can be taken. */
  lemma Progress(s: State) returns (a: Action)
    requires CleanInv(s) && !AllDone(s)
    ensures Internal(a) && Enabled(s, a) && CleanStep(s, a)
  {
    if !Held(s) {
      a := Acquire(|s.acquired|);
    } else {
      var i := |s.acquired| - 1;
      var p := s.callers[i].phase;
      if !s.connected {
        a := Throw(i);
      } else if p.rest == [] {
        a := Return(i);
      } else if p.rest[0].Send? {
        a := Transmit(i);
      } else {
        a := ReceiveProgress(s, i);
      }
    }
  }

  /** What a caller still has to do. */
  function Work(p: Phase): (w: nat) {
    match p
    case Waiting(body) => |body| + 2
    case Running(rest, _, _) => |rest| + 1
    case Done => 0
  }

  function TotalWork(callers: seq<Caller>): (w: nat) {
    if callers == [] then 0 else Work(callers[0].phase) + TotalWork(callers[1..])
  }

  lemma {:induction false} WorkOfUpdate(callers: seq<Caller>, i: nat, c: Caller)
    requires i < |callers|
    ensures TotalWork(callers[i := c]) == TotalWork(callers) - Work(callers[i].phase) + Work(c.phase)
    decreases |callers|
  {
    if i == 0 {
      assert callers[0 := c][1..] == callers[1..];
    } else {
      assert callers[i := c][1..] == callers[1..][i - 1 := c];
      WorkOfUpdate(callers[1..], i - 1, c);
    }
  }

  /** What the system still has to do, from the most to the least significant: calls, answers, bytes. */
  function Rank(s: State): (r: (nat, nat, nat, nat)) {
    (TotalWork(s.callers), if |s.replies| < |s.sends| then |s.sends| - |s.replies| else 0, |s.wire|, |s.arrived|)
  }

  predicate Below(a: (nat, nat, nat, nat), b: (nat, nat, nat, nat)) {
    a.0 < b.0 || (a.0 == b.0 && (a.1 < b.1 || (a.1 == b.1 && (a.2 < b.2 || (a.2 == b.2 && a.3 < b.3)))))
  }

  /** Every internal step without re-entry brings the system closer to being done. */
  lemma StepLowersRank(s: State, a: Action)
    requires Enabled(s, a) && Internal(a) && !a.Nest?
    ensures Below(Rank(Apply(s, a)), Rank(s))
  {
    match a
    case Acquire(i) => WorkOfUpdate(s.callers, i, Apply(s, a).callers[i]);
    case Transmit(i) => WorkOfUpdate(s.callers, i, Apply(s, a).callers[i]);
    case Read(i, k) => WorkOfUpdate(s.callers, i, Apply(s, a).callers[i]);
    case Resume(i) => WorkOfUpdate(s.callers, i, Apply(s, a).callers[i]);
    case Return(i) => WorkOfUpdate(s.callers, i, Apply(s, a).callers[i]);
    case Throw(i) => WorkOfUpdate(s.callers, i, Apply(s, a).callers[i]);
    case Answer(_) =>
    case Arrive(_) =>
  }

  /** A run of internal steps without re-entry in which callers throw only when no reply to them is outstanding. */
  ghost predicate InternalRun(s: State, actions: seq<Action>) {
    IsRun(s, actions) && IsCleanRun(s, actions) && forall k | 0 <= k < |actions| :: Internal(actions[k])
  }

  lemma NoNesting(s: State, i: nat)
    requires CleanInv(s)
    ensures !Enabled(s, Nest(i))
  {
    if Active(s, i) {
      RunningIsHolder(s, i);
    }
  }

  lemma CleanStepLowersRank(s: State, a: Action)
    requires CleanInv(s) && Enabled(s, a) && CleanStep(s, a) && Internal(a)
    ensures Below(Rank(Apply(s, a)), Rank(s)) && CleanInv(Apply(s, a))
  {
    hide Rank, CleanInv;
    if a.Nest? {
      NoNesting(s, a.i);
    }
    StepLowersRank(s, a);
    CleanKept(s, a);
  }

  /**
   Every run of internal steps other than re-entry, whatever the bodies and whoever picks the steps, comes
   closer to being done: none can go on forever.
   */
  lemma {:induction false} RunLowersRank(s: State, actions: seq<Action>)
    requires IsRun(s, actions) && actions != []
    requires forall k | 0 <= k < |actions| :: Internal(actions[k]) && !actions[k].Nest?
    ensures Below(Rank(Final(s, actions)), Rank(s))
    decreases |actions|
  {
    hide Rank, Enabled, Apply;
    StepLowersRank(s, actions[0]);
    var rest := actions[1..];
    if rest != [] {
      assert forall k | 0 <= k < |rest| :: rest[k] == actions[k + 1];
      RunLowersRank(Apply(s, actions[0]), rest);
    }
  }

  lemma TailIsInternal(s: State, actions: seq<Action>)
    requires InternalRun(s, actions) && actions != []
    ensures Enabled(s, actions[0]) && CleanStep(s, actions[0]) && Internal(actions[0])
    ensures InternalRun(Apply(s, actions[0]), actions[1..])
  {
    hide Enabled, Apply, CleanStep;
  }

  lemma {:induction false} RunAppend(s: State, actions: seq<Action>, a: Action)
    requires InternalRun(s, actions) && Enabled(Final(s, actions), a) && CleanStep(Final(s, actions), a) && Internal(a)
    ensures InternalRun(s, actions + [a]) && Final(s, actions + [a]) == Apply(Final(s, actions), a)
    decreases |actions|
  {
    if actions == [] {
      assert [] + [a] == [a] && [a][1..] == [];
      OneStepRun(s, a);
    } else {
      hide InternalRun, Enabled, Apply, CleanStep, Internal;
      var longer := actions + [a];
      assert longer[1..] == actions[1..] + [a] && longer[0] == actions[0];
      TailIsInternal(s, actions);
      FinalOfTail(s, actions);
      RunAppend(Apply(s, actions[0]), actions[1..], a);
      RunPrepend(s, longer);
      FinalOfTail(s, longer);
    }
  }

  lemma OneStepRun(s: State, a: Action)
    requires Enabled(s, a) && CleanStep(s, a) && Internal(a)
    ensures InternalRun(s, [a]) && Final(s, [a]) == Apply(s, a)
  {
    hide Enabled, Apply, CleanStep;
    assert IsRun(Apply(s, a), []) && IsCleanRun(Apply(s, a), []) && [a][1..] == [];
  }

  lemma FinalOfTail(s: State, actions: seq<Action>)
    requires IsRun(s, actions) && actions != []
    ensures Final(s, actions) == Final(Apply(s, actions[0]), actions[1..])
  {
    hide Enabled, Apply;
  }

  lemma RunPrepend(s: State, actions: seq<Action>)
    requires actions != [] && Enabled(s, actions[0]) && CleanStep(s, actions[0]) && Internal(actions[0])
    requires InternalRun(Apply(s, actions[0]), actions[1..])
    ensures InternalRun(s, actions)
  {
    hide Enabled, Apply, CleanStep, Internal;
    forall k | 0 <= k < |actions| ensures Internal(actions[k]) {
      if k > 0 {
        assert actions[k] == actions[1..][k - 1];
      }
    }
  }

  /**
   A scheduler: knowing all steps taken since `s`, it picks the next one, and as long as a call has
   not finished it picks one that is possible.
   */
  ghost predicate Schedules(next: seq<Action> -> Action, s: State) {
    forall h | InternalRun(s, h) && !AllDone(Final(s, h)) ::
      Internal(next(h)) && Enabled(Final(s, h), next(h)) && CleanStep(Final(s, h), next(h))
  }

  /** Every step is the one the scheduler picks after the steps before it. */
  ghost predicate Follows(next: seq<Action> -> Action, actions: seq<Action>) {
    forall k | 0 <= k < |actions| :: actions[k] == next(actions[..k])
  }

  /** Whatever the scheduler, fair or not, the run it makes finishes all calls: the queue neither deadlocks nor starves anyone. */
  lemma EveryScheduleFinishes(next: seq<Action> -> Action, s: State) returns (actions: seq<Action>)
    requires CleanInv(s) && Schedules(next, s)
    ensures InternalRun(s, actions) && Follows(next, actions) && AllDone(Final(s, actions))
  {
    actions := ScheduleFrom(next, s, []);
  }

  lemma ScheduleFrom(next: seq<Action> -> Action, s: State, h: seq<Action>) returns (actions: seq<Action>)
    requires CleanInv(s) && Schedules(next, s)
    requires InternalRun(s, h) && Follows(next, h) && CleanInv(Final(s, h))
    ensures InternalRun(s, actions) && Follows(next, actions) && AllDone(Final(s, actions))
    decreases Rank(Final(s, h)).0, Rank(Final(s, h)).1, Rank(Final(s, h)).2, Rank(Final(s, h)).3
  {
    hide CleanInv, Rank, Enabled, CleanStep, AllDone, Apply;
    actions := h;
    if !AllDone(Final(s, h)) {
      var a := next(h);
      RunAppend(s, h, a);
      CleanStepLowersRank(Final(s, h), a);
      FollowsOn(next, h);
      actions := ScheduleFrom(next, s, h + [a]);
    }
  }

  lemma FollowsOn(next: seq<Action> -> Action, h: seq<Action>)
    requires Follows(next, h)
    ensures Follows(next, h + [next(h)])
  {
    var longer := h + [next(h)];
    forall k | 0 <= k < |longer| ensures longer[k] == next(longer[..k]) {
      assert longer[..k] == h[..k];
      assert h[..|h|] == h;
    }
  }

  // ---- Re-entry ----

  /** Caller `i` waits inside its own body for a call `j` it made itself. */
  ghost predicate SelfWaiting(s: State, i: nat, j: nat) {
    Inv(s) && i < |s.callers| && s.callers[i].phase.Running? && s.callers[i].phase.child == Some(j)
  }

  lemma {:induction false} SelfWaitingForever(s: State, i: nat, j: nat, actions: seq<Action>)
    requires SelfWaiting(s, i, j) && IsRun(s, actions)
    ensures SelfWaiting(Final(s, actions), i, j) && Final(s, actions).callers[j].phase.Waiting?
    decreases |actions|
  {
    RunningIsHolder(s, i);
    if actions != [] {
      InvKept(s, actions[0]);
      StillWaiting(s, i, j, actions[0]);
      SelfWaitingForever(Apply(s, actions[0]), i, j, actions[1..]);
    }
  }

  lemma StillWaiting(s: State, i: nat, j: nat, a: Action)
    requires SelfWaiting(s, i, j) && Enabled(s, a)
    ensures var s' := Apply(s, a); i < |s'.callers| && s'.callers[i].phase == s.callers[i].phase
  {
    RunningIsHolder(s, i);
  }

  /**
   A body that calls `withLock` again and awaits it deadlocks: in no continuation does the inner call
   get the lock or the outer one go on or release it.
   */
  lemma ReentryDeadlocks(s: State, i: nat, actions: seq<Action>)
    requires Inv(s) && Enabled(s, Nest(i)) && IsRun(Apply(s, Nest(i)), actions)
    ensures var s', j := Final(Apply(s, Nest(i)), actions), |s.callers|;
            && i < j < |s'.callers| && s'.callers[j].phase.Waiting?
            && s'.callers[i].phase.Running? && s'.callers[i].phase.child == Some(j)
  {
    InvKept(s, Nest(i));
    SelfWaitingForever(Apply(s, Nest(i)), i, |s.callers|, actions);
    RunningIsHolder(Final(Apply(s, Nest(i)), actions), i);
  }
}
