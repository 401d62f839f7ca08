/** How often the outbound consumer sends a message: with deliveries one after the other,
    with a moderator's releases, and with overlapping deliveries. */
module OutboundOnce {
  import opened Outbound

  // ---------- at most once ----------

  /** Statuses from which a new delivery could go on to send. */
  predicate Fresh(status: Status) {
    status.Received? || status.Queued? || status.Held?
  }

  /** Phases that may still lead to a send or to a fresh status. */
  predicate Pending(p: Phase) {
    p.Checking? || p.Entering? || p == Settling(Held)
  }

  predicate StatusOk(s: State) {
    && |s.sends| <= 1 && (Fresh(s.status) ==> s.sends == [])
    && (s.status.Received? <==> !s.marked && !s.status.Missing?)
    && (s.moderation.holds > 0 || s.moderation.handlers > 0 ==> !s.status.Received?)
  }

  /** A delivery that may still send finds nothing sent, and the one that is about to has
      the row marked. */
  predicate DeliveryOk(s: State, p: Phase) {
    && (Pending(p) ==> s.status.Missing? || s.sends == [])
    && (p.Calling? ==> s.sends == [] && !Fresh(s.status))
    && (s.status.Received? ==> p.Reading? || p.Recovering? || p.Over?)
    && (p.Settling? ==> p.status.Failed? || p.status.Sent? || p.status.Bounced? || p.status.Held?)
  }

  predicate OneAtATime(s: State) {
    forall i, j :: 0 <= i < j < |s.deliveries| ==> s.deliveries[i].phase.Over? || s.deliveries[j].phase.Over?
  }

  predicate Sequential(s: State) {
    StatusOk(s) && OneAtATime(s) && forall i :: 0 <= i < |s.deliveries| ==> DeliveryOk(s, s.deliveries[i].phase)
  }

  lemma SequentialOwn(c: Config, s: State, step: Step, d: nat)
    requires d < |s.deliveries| && StatusOk(s)
    requires DeliveryOk(s, s.deliveries[d].phase) && !s.deliveries[d].phase.Over?
    ensures
      var t := ApplyTo(c, s, step, d);
      StatusOk(t) && DeliveryOk(t, t.deliveries[d].phase) && t.deliveries == s.deliveries[d := t.deliveries[d]]
  {
  }

  /** A requeue finds the row held, or gone, or is one that nobody makes. */
  predicate RequeuesHeld(s: State, step: Step) {
    step.Requeue? && s.moderation.handlers > 0 ==> s.status.Held? || s.status.Missing?
  }

  lemma SequentialGlobal(c: Config, s: State, step: Step)
    requires !c.overlap && Sequential(s) && IsGlobal(step) && RequeuesHeld(s, step)
    ensures Sequential(Apply(c, s, step))
  {
    var t := Apply(c, s, step);
    assert StatusOk(t);
    forall i | 0 <= i < |t.deliveries| ensures DeliveryOk(t, t.deliveries[i].phase) {
      assert i < |s.deliveries| ==> DeliveryOk(s, s.deliveries[i].phase);
    }
  }

  lemma OthersAreOver(s: State, t: State, d: nat)
    requires Sequential(s) && d < |s.deliveries| == |t.deliveries| && !s.deliveries[d].phase.Over?
    requires t.deliveries == s.deliveries[d := t.deliveries[d]] && StatusOk(t) && DeliveryOk(t, t.deliveries[d].phase)
    ensures Sequential(t)
  {
    forall i | 0 <= i < |t.deliveries| && i != d ensures t.deliveries[i].phase.Over? {
    }
  }

  lemma SequentialStep(c: Config, s: State, step: Step)
    requires !c.overlap && Sequential(s) && RequeuesHeld(s, step)
    ensures Sequential(Apply(c, s, step))
  {
    if IsGlobal(step) {
      SequentialGlobal(c, s, step);
    } else if step.d < |s.deliveries| {
      if s.deliveries[step.d].phase.Over? {
        OverStays(c, s, step, step.d);
      } else {
        SequentialOwn(c, s, step, step.d);
        OthersAreOver(s, ApplyTo(c, s, step, step.d), step.d);
      }
    }
  }

  lemma OverStays(c: Config, s: State, step: Step, d: nat)
    requires d < |s.deliveries| && s.deliveries[d].phase.Over?
    ensures ApplyTo(c, s, step, d) == s
  {
    assert s.deliveries[d := s.deliveries[d].(phase := Over)] == s.deliveries;
  }

  predicate AllRequeuesHeld(c: Config, steps: seq<Step>) {
    steps == [] ||
    (AllRequeuesHeld(c, steps[..|steps| - 1]) && RequeuesHeld(Run(c, steps[..|steps| - 1]), steps[|steps| - 1]))
  }

  /** With deliveries that do not overlap, over any redeliveries, thrown sends, lost results,
      crashes and moderation, a message is sent at most once, as long as every release finds
      the row `held`. */
  lemma {:induction false} AtMostOnce(c: Config, steps: seq<Step>)
    requires !c.overlap && AllRequeuesHeld(c, steps)
    ensures Sequential(Run(c, steps))
  {
    if steps != [] {
      AtMostOnce(c, steps[..|steps| - 1]);
      SequentialStep(c, Run(c, steps[..|steps| - 1]), steps[|steps| - 1]);
    }
  }

  // ---------- releases ----------

  predicate NoRequeue(steps: seq<Step>) {
    forall i :: 0 <= i < |steps| ==> !steps[i].Requeue?
  }

  lemma RunThen(c: Config, first: seq<Step>, last: Step)
    ensures Run(c, first + [last]) == Apply(c, Run(c, first), last)
  {
    assert (first + [last])[..|first|] == first;
  }

  lemma {:induction false} SequentialFrom(c: Config, steps: seq<Step>, more: seq<Step>)
    requires !c.overlap && Sequential(Run(c, steps)) && NoRequeue(more)
    ensures Sequential(Run(c, steps + more))
  {
    if more == [] {
      assert steps + more == steps;
    } else {
      var front, last := more[..|more| - 1], more[|more| - 1];
      SequentialFrom(c, steps, front);
      assert steps + more == (steps + front) + [last];
      RunThen(c, steps + front, last);
      SequentialStep(c, Run(c, steps + front), last);
    }
  }

  lemma {:induction false} KeepAll(to: seq<string>)
    ensures Keep(to, {}, false) == to
  {
    if to != [] {
      KeepAll(to[..|to| - 1]);
    }
  }

  const Nothing := Checked(false, {}, Allow)

  /** The state `s` with one more delivery, in phase `p`. */
  function With(s: State, p: Phase): State {
    s.(deliveries := s.deliveries + [Delivery(1, p)])
  }

  lemma MoveLast(s: State, p: Phase, q: Phase)
    ensures Go(With(s, p), |s.deliveries|, q) == With(s, q)
  {
    assert (s.deliveries + [Delivery(1, p)])[|s.deliveries| := Delivery(1, q)] == s.deliveries + [Delivery(1, q)];
  }

  lemma ReadStep(c: Config, s: State)
    requires s.status.Queued?
    ensures Apply(c, With(s, Reading), Read(|s.deliveries|)) == With(s, Checking)
  {
    MoveLast(s, Reading, Checking);
  }

  lemma CheckStep(c: Config, s: State, seen: Findings, q: Phase)
    requires AfterChecks(c.message, seen) == q
    ensures Apply(c, With(s, Checking), Check(|s.deliveries|, seen)) ==
            With(if q == Settling(Held) then AddHold(s) else s, q)
  {
    MoveLast(if q == Settling(Held) then AddHold(s) else s, Checking, q);
  }

  lemma SettleStep(c: Config, s: State)
    requires !s.status.Missing?
    ensures Apply(c, With(s, Settling(Held)), Settle(|s.deliveries|)) == With(s.(status := Held), Over)
  {
    MoveLast(s.(status := Held), Settling(Held), Over);
  }

  lemma ClaimStep(c: Config, s: State, seen: Findings)
    requires s.status.Queued?
    ensures Apply(c, With(s, Entering(seen)), Enter(|s.deliveries|, false)) ==
            With(s.(status := Sending), Calling(seen))
  {
    MoveLast(s.(status := Sending), Entering(seen), Calling(seen));
  }

  lemma SendStep(c: Config, s: State, seen: Findings)
    ensures Apply(c, With(s, Calling(seen)), CallSend(|s.deliveries|, Delivered)) ==
            With(s.(sends := s.sends + [SendOf(c.message, seen, Delivered)]), Finishing(false))
  {
    MoveLast(s.(sends := s.sends + [SendOf(c.message, seen, Delivered)]), Calling(seen), Finishing(false));
  }

  lemma DieStep(c: Config, s: State, p: Phase)
    ensures Apply(c, With(s, p), Crash(|s.deliveries|)) == With(s, Over)
  {
    MoveLast(s, p, Over);
  }

  lemma NothingLeadsToClaim(m: Message)
    ensures AfterChecks(m, Nothing) == Entering(Nothing)
  {
    KeepAll(Recipients(m));
  }

  /** A delivery of a queued message, up to where its checks lead. */
  lemma DeliverTo(c: Config, steps: seq<Step>, seen: Findings, q: Phase) returns (more: seq<Step>)
    requires Idle(Run(c, steps)) && Run(c, steps).status.Queued? && AfterChecks(c.message, seen) == q
    ensures NoRequeue(more)
    ensures
      var s := Run(c, steps);
      Run(c, steps + more) == With(if q == Settling(Held) then AddHold(s) else s, q)
  {
    var s := Run(c, steps);
    var d := |s.deliveries|;
    RunThen(c, steps, Begin(1));
    var r1 := steps + [Begin(1)];
    RunThen(c, r1, Read(d));
    ReadStep(c, s);
    var r2 := r1 + [Read(d)];
    RunThen(c, r2, Check(d, seen));
    CheckStep(c, s, seen, q);
    more := [Begin(1), Read(d), Check(d, seen)];
    assert steps + more == r2 + [Check(d, seen)];
  }

  /** A delivery that claims, sends and then dies. */
  lemma ClaimSendDie(c: Config, s: State, r1: seq<Step>) returns (all: seq<Step>)
    requires Run(c, r1) == With(s, Entering(Nothing)) && s.status.Queued?
    ensures all == r1 + [Enter(|s.deliveries|, false), CallSend(|s.deliveries|, Delivered), Crash(|s.deliveries|)]
    ensures Run(c, all) == With(s.(status := Sending, sends := s.sends + [SendOf(c.message, Nothing, Delivered)]), Over)
  {
    var d := |s.deliveries|;
    var s1 := s.(status := Sending);
    RunThen(c, r1, Enter(d, false));
    ClaimStep(c, s, Nothing);
    var r2 := r1 + [Enter(d, false)];
    RunThen(c, r2, CallSend(d, Delivered));
    SendStep(c, s1, Nothing);
    var r3 := r2 + [CallSend(d, Delivered)];
    RunThen(c, r3, Crash(d));
    DieStep(c, s1.(sends := s1.sends + [SendOf(c.message, Nothing, Delivered)]), Finishing(false));
    all := r3 + [Crash(d)];
  }

  lemma DeliverAndSend(c: Config, steps: seq<Step>) returns (more: seq<Step>)
    requires Idle(Run(c, steps)) && Run(c, steps).status.Queued?
    ensures NoRequeue(more)
    ensures
      var s := Run(c, steps);
      Run(c, steps + more) ==
          With(s.(status := Sending, sends := s.sends + [SendOf(c.message, Nothing, Delivered)]), Over)
  {
    NothingLeadsToClaim(c.message);
    var claim := DeliverTo(c, steps, Nothing, Entering(Nothing));
    var all := ClaimSendDie(c, Run(c, steps), steps + claim);
    var d := |Run(c, steps).deliveries|;
    more := claim + [Enter(d, false), CallSend(d, Delivered), Crash(d)];
    assert steps + more == all;
  }

  /** Whatever follows, short of another release, the message is sent at most once. */
  ghost predicate SafeAfter(c: Config, steps: seq<Step>) {
    forall more :: NoRequeue(more) ==> |Run(c, steps + more).sends| <= 1
  }

  /** Some delivery has claimed the row and is about to send. */
  predicate SomeCalling(s: State) {
    exists i :: 0 <= i < |s.deliveries| && s.deliveries[i].phase.Calling?
  }

  lemma RequeueKeepsUnsent(c: Config, s: State)
    requires !c.overlap && Sequential(s) && s.moderation.handlers > 0
    requires s.status.Missing? || (s.sends == [] && !SomeCalling(s))
    ensures Sequential(Apply(c, s, Requeue))
  {
    var t := Apply(c, s, Requeue);
    forall i | 0 <= i < |t.deliveries| ensures DeliveryOk(t, t.deliveries[i].phase) {
      assert DeliveryOk(s, s.deliveries[i].phase);
    }
  }

  lemma CrashLeavesIdle(c: Config, s: State, d: nat)
    requires OneAtATime(s) && d < |s.deliveries| && !s.deliveries[d].phase.Over?
    ensures
      var t := Apply(c, s, Crash(d));
      Idle(t) && t.status == s.status && t.sends == s.sends && t.moderation == s.moderation
  {
    forall i | 0 <= i < |s.deliveries| && i != d ensures s.deliveries[i].phase.Over? {
    }
  }

  /** Whatever delivery is in flight can die. */
  lemma ComeToRest(c: Config, steps: seq<Step>) returns (more: seq<Step>)
    requires OneAtATime(Run(c, steps))
    ensures NoRequeue(more)
    ensures
      var s, t := Run(c, steps), Run(c, steps + more);
      Idle(t) && t.status == s.status && t.sends == s.sends
  {
    var s := Run(c, steps);
    if Idle(s) {
      more := [];
      assert steps + more == steps;
    } else {
      var d :| 0 <= d < |s.deliveries| && !s.deliveries[d].phase.Over?;
      RunThen(c, steps, Crash(d));
      CrashLeavesIdle(c, s, d);
      more := [Crash(d)];
    }
  }

  lemma Chain(steps: seq<Step>, a: seq<Step>, b: seq<Step>)
    requires NoRequeue(a) && NoRequeue(b)
    ensures NoRequeue(a + b) && steps + (a + b) == (steps + a) + b
  {
  }

  lemma OneMoreSend(s: State, x: Send)
    requires s.sends != []
    ensures |With(s.(status := Sending, sends := s.sends + [x]), Over).sends| >= 2
  {
  }

  /** A queued message that has been sent, or is about to be, can be sent again. */
  lemma SentAgain(c: Config, steps: seq<Step>) returns (more: seq<Step>)
    requires OneAtATime(Run(c, steps)) && Run(c, steps).status.Queued? && Run(c, steps).sends != []
    ensures NoRequeue(more) && |Run(c, steps + more).sends| >= 2
  {
    var rest := ComeToRest(c, steps);
    var again := DeliverAndSend(c, steps + rest);
    Chain(steps, rest, again);
    more := rest + again;
    OneMoreSend(Run(c, steps + rest), SendOf(c.message, Nothing, Delivered));
  }

  lemma CallingSends(c: Config, s: State, d: nat)
    requires OneAtATime(s) && d < |s.deliveries| && s.deliveries[d].phase.Calling?
    ensures
      var t := Apply(c, s, CallSend(d, Delivered));
      OneAtATime(t) && t.status == s.status && |t.sends| == |s.sends| + 1
  {
    forall i | 0 <= i < |s.deliveries| && i != d ensures s.deliveries[i].phase.Over? {
    }
  }

  lemma SentLater(c: Config, steps: seq<Step>) returns (more: seq<Step>)
    requires OneAtATime(Run(c, steps)) && Run(c, steps).status.Queued? && SomeCalling(Run(c, steps))
    ensures NoRequeue(more) && |Run(c, steps + more).sends| >= 2
  {
    var s := Run(c, steps);
    var d :| 0 <= d < |s.deliveries| && s.deliveries[d].phase.Calling?;
    RunThen(c, steps, CallSend(d, Delivered));
    CallingSends(c, s, d);
    var now := [CallSend(d, Delivered)];
    assert Run(c, steps + now) == Apply(c, s, CallSend(d, Delivered));
    var again := SentAgain(c, steps + now);
    Chain(steps, now, again);
    more := now + again;
  }

  /** Releasing a message is safe exactly if its row is gone, or it has not been sent and no
      delivery has claimed it; the release handler checks none of this. */
  lemma ReleaseIsSafeIffUnsent(c: Config, steps: seq<Step>)
    requires !c.overlap && AllRequeuesHeld(c, steps) && Run(c, steps).moderation.handlers > 0
    ensures
      var s := Run(c, steps);
      SafeAfter(c, steps + [Requeue]) <==> s.status.Missing? || (s.sends == [] && !SomeCalling(s))
  {
    var s, all := Run(c, steps), steps + [Requeue];
    AtMostOnce(c, steps);
    RunThen(c, steps, Requeue);
    if s.status.Missing? || (s.sends == [] && !SomeCalling(s)) {
      RequeueKeepsUnsent(c, s);
      forall more | NoRequeue(more) ensures |Run(c, all + more).sends| <= 1 {
        SequentialFrom(c, all, more);
      }
    } else {
      var t := Run(c, all);
      assert t.deliveries == s.deliveries && OneAtATime(t) && t.status.Queued?;
      var more: seq<Step>;
      if s.sends != [] {
        more := SentAgain(c, all);
      } else {
        more := SentLater(c, all);
      }
      assert NoRequeue(more) && |Run(c, all + more).sends| >= 2;
    }
  }

  /** A delivery that inserts its hold row and dies before it writes `held`. */
  lemma HoldWithoutStatus(c: Config) returns (steps: seq<Step>)
    ensures AllRequeuesHeld(c, steps)
    ensures
      var s := Run(c, steps);
      Idle(s) && s.status == Queued && s.sends == [] && s.moderation == Moderation(1, 0)
  {
    SuspectIsHeld(c.message);
    RunThen(c, [], MarkQueued);
    var r1 := [] + [MarkQueued];
    var s := State(Queued, true, [], [], Moderation(0, 0));
    assert Run(c, r1) == s;
    var more := DeliverTo(c, r1, Suspect, Settling(Held));
    var r2 := r1 + more;
    RunThen(c, r2, Crash(0));
    DieStep(c, AddHold(s), Settling(Held));
    steps := r2 + [Crash(0)];
    NoRequeueIsHeld(c, steps);
  }

  lemma {:induction false} NoRequeueIsHeld(c: Config, steps: seq<Step>)
    requires NoRequeue(steps)
    ensures AllRequeuesHeld(c, steps)
  {
    if steps != [] {
      NoRequeueIsHeld(c, steps[..|steps| - 1]);
    }
  }

  /** Nothing has been sent, and still the release is not safe: the redelivery has claimed
      the row, its send is under way, and the release's own entry sends once more. */
  lemma ReleaseDuringSend(c: Config) returns (steps: seq<Step>)
    requires !c.overlap
    ensures
      var s := Run(c, steps);
      && AllRequeuesHeld(c, steps) && s.moderation.handlers > 0 && s.sends == [] && !s.status.Missing?
      && !SafeAfter(c, steps + [Requeue])
  {
    var held := HoldWithoutStatus(c);
    NothingLeadsToClaim(c.message);
    var s := Run(c, held);
    var claim := DeliverTo(c, held, Nothing, Entering(Nothing));
    var r1 := held + claim;
    var d := |s.deliveries|;
    RunThen(c, r1, Enter(d, false));
    ClaimStep(c, s, Nothing);
    var r2 := r1 + [Enter(d, false)];
    RunThen(c, r2, OpenRelease);
    steps := r2 + [OpenRelease];
    assert Run(c, steps).deliveries[d].phase.Calling?;
    HeldThen(c, held, claim);
    HeldThen(c, r1, [Enter(d, false)]);
    HeldThen(c, r2, [OpenRelease]);
    ReleaseIsSafeIffUnsent(c, steps);
  }

  lemma {:induction false} HeldThen(c: Config, steps: seq<Step>, more: seq<Step>)
    requires AllRequeuesHeld(c, steps) && NoRequeue(more)
    ensures AllRequeuesHeld(c, steps + more)
  {
    if more == [] {
      assert steps + more == steps;
    } else {
      HeldThen(c, steps, more[..|more| - 1]);
      assert (steps + more)[..|steps + more| - 1] == steps + more[..|more| - 1];
    }
  }

  /** In particular a row that is `held` has not been sent. */
  lemma HeldIsUnsent(c: Config, steps: seq<Step>)
    requires !c.overlap && AllRequeuesHeld(c, steps) && Run(c, steps).status.Held?
    ensures Run(c, steps).sends == []
  {
    AtMostOnce(c, steps);
  }

  const Suspect := Checked(false, {}, Hold)

  lemma SuspectIsHeld(m: Message)
    ensures AfterChecks(m, Suspect) == Settling(Held)
  {
    KeepAll(Recipients(m));
  }

  /** A message that was put on hold. */
  lemma HoldOnce(c: Config) returns (steps: seq<Step>)
    ensures
      var s := Run(c, steps);
      Idle(s) && s.status == Held && s.sends == [] && s.moderation == Moderation(1, 0)
  {
    SuspectIsHeld(c.message);
    RunThen(c, [], MarkQueued);
    var r1 := [] + [MarkQueued];
    var s := State(Queued, true, [], [], Moderation(0, 0));
    assert Run(c, r1) == s;
    var more := DeliverTo(c, r1, Suspect, Settling(Held));
    var r2 := r1 + more;
    RunThen(c, r2, Settle(0));
    SettleStep(c, AddHold(s));
    steps := r2 + [Settle(0)];
  }

  /** One release that dies before it closes the hold, and the delivery it causes. */
  lemma ReleaseAndSend(c: Config, steps: seq<Step>) returns (all: seq<Step>)
    requires
      var s := Run(c, steps);
      Idle(s) && !s.status.Missing? && s.moderation == Moderation(1, 0)
    ensures
      var s, t := Run(c, steps), Run(c, all);
      Idle(t) && t.status == Sending && |t.sends| == |s.sends| + 1 && t.moderation == Moderation(1, 0)
  {
    RunThen(c, steps, OpenRelease);
    var r1 := steps + [OpenRelease];
    RunThen(c, r1, Requeue);
    var r2 := r1 + [Requeue];
    assert Run(c, r2) == Run(c, steps).(status := Queued);
    var more := DeliverAndSend(c, r2);
    all := r2 + more;
  }

  /** A release that dies between requeueing and closing the hold, and is retried after the
      first send, sends the message twice, without any overlap. */
  lemma RetriedReleaseSendsTwice(c: Config) returns (steps: seq<Step>)
    ensures |Run(c, steps).sends| == 2
  {
    var held := HoldOnce(c);
    var once := ReleaseAndSend(c, held);
    steps := ReleaseAndSend(c, once);
  }

  // ---------- overlapping deliveries ----------

  predicate Early(status: Status) {
    status.Received? || status.Queued?
  }

  predicate RowOk(s: State) {
    && |s.sends| <= 1 && (Early(s.status) ==> s.sends == [])
    && (s.status.Received? <==> !s.marked && !s.status.Missing?)
  }

  predicate CallOk(s: State, p: Phase) {
    && (p.Calling? ==> s.sends == [] && !Early(s.status))
    && (s.status.Received? ==> p.Reading? || p.Recovering? || p.Over?)
    && (p.Settling? ==> p.status.Failed? || p.status.Sent? || p.status.Bounced? || p.status.Held?)
  }

  predicate OneCaller(s: State) {
    forall i, j :: 0 <= i < j < |s.deliveries| ==> !s.deliveries[i].phase.Calling? || !s.deliveries[j].phase.Calling?
  }

  predicate Exclusive(s: State) {
    RowOk(s) && OneCaller(s) && forall i :: 0 <= i < |s.deliveries| ==> CallOk(s, s.deliveries[i].phase)
  }

  /** What one delivery's step does to the row, as the others see it. */
  lemma ExclusiveOwn(c: Config, s: State, step: Step, d: nat)
    requires !c.admitsSending && d < |s.deliveries| && RowOk(s) && CallOk(s, s.deliveries[d].phase)
    ensures
      var t := ApplyTo(c, s, step, d);
      && RowOk(t) && CallOk(t, t.deliveries[d].phase) && t.deliveries == s.deliveries[d := t.deliveries[d]]
      && (t.deliveries[d].phase.Calling? && !s.deliveries[d].phase.Calling? ==> s.status.Queued?)
      && (t.sends != s.sends ==> s.deliveries[d].phase.Calling?)
      && (Early(t.status) ==> t.status == s.status)
  {
  }

  lemma ExclusiveOthers(s: State, t: State, d: nat)
    requires Exclusive(s) && d < |s.deliveries| == |t.deliveries| && t.deliveries == s.deliveries[d := t.deliveries[d]]
    requires RowOk(t) && CallOk(t, t.deliveries[d].phase)
    requires t.deliveries[d].phase.Calling? && !s.deliveries[d].phase.Calling? ==> s.status.Queued?
    requires t.sends != s.sends ==> s.deliveries[d].phase.Calling?
    requires Early(t.status) ==> t.status == s.status
    ensures Exclusive(t)
  {
    forall i | 0 <= i < |t.deliveries| ensures CallOk(t, t.deliveries[i].phase) {
      if i != d {
        assert CallOk(s, s.deliveries[i].phase);
      }
    }
    forall i | 0 <= i < |t.deliveries| && i != d && t.deliveries[d].phase.Calling?
      ensures !t.deliveries[i].phase.Calling? {
      assert CallOk(s, s.deliveries[i].phase) && CallOk(s, s.deliveries[d].phase);
    }
  }

  lemma ExclusiveGlobal(c: Config, s: State, step: Step)
    requires Exclusive(s) && IsGlobal(step) && !step.Requeue?
    ensures Exclusive(Apply(c, s, step))
  {
    var t := Apply(c, s, step);
    assert RowOk(t);
    forall i | 0 <= i < |t.deliveries| ensures CallOk(t, t.deliveries[i].phase) {
      assert i < |s.deliveries| ==> CallOk(s, s.deliveries[i].phase);
    }
  }

  lemma {:induction false} ExclusiveRun(c: Config, steps: seq<Step>)
    requires !c.admitsSending && NoRequeue(steps)
    ensures Exclusive(Run(c, steps))
  {
    if steps != [] {
      var front, last := steps[..|steps| - 1], steps[|steps| - 1];
      var s := Run(c, front);
      ExclusiveRun(c, front);
      if IsGlobal(last) {
        ExclusiveGlobal(c, s, last);
      } else if last.d < |s.deliveries| {
        ExclusiveOwn(c, s, last, last.d);
        ExclusiveOthers(s, ApplyTo(c, s, last, last.d), last.d);
      }
    }
  }

  /** Two deliveries that both read `queued` and get as far as the claim. */
  lemma BothClaim(c: Config) returns (steps: seq<Step>)
    requires c.overlap
    ensures NoRequeue(steps)
    ensures Run(c, steps) == TwoIn(Queued, Entering(Nothing), Entering(Nothing), [])
  {
    var r1 := BothRead(c);
    NothingLeadsToClaim(c.message);
    RunThen(c, r1, Check(0, Nothing));
    var r2 := r1 + [Check(0, Nothing)];
    assert Run(c, r2) == TwoIn(Queued, Entering(Nothing), Checking, []);
    RunThen(c, r2, Check(1, Nothing));
    steps := r2 + [Check(1, Nothing)];
  }

  function TwoIn(status: Status, p: Phase, q: Phase, sends: seq<Send>): State {
    State(status, true, [Delivery(1, p), Delivery(1, q)], sends, Moderation(0, 0))
  }

  lemma BothBegin(c: Config) returns (steps: seq<Step>)
    requires c.overlap
    ensures NoRequeue(steps) && Run(c, steps) == TwoIn(Queued, Reading, Reading, [])
  {
    RunThen(c, [], MarkQueued);
    var r1 := [] + [MarkQueued];
    assert Run(c, r1) == State(Queued, true, [], [], Moderation(0, 0));
    RunThen(c, r1, Begin(1));
    var r2 := r1 + [Begin(1)];
    RunThen(c, r2, Begin(1));
    steps := r2 + [Begin(1)];
  }

  lemma BothRead(c: Config) returns (steps: seq<Step>)
    requires c.overlap
    ensures NoRequeue(steps) && Run(c, steps) == TwoIn(Queued, Checking, Checking, [])
  {
    var r1 := BothBegin(c);
    RunThen(c, r1, Read(0));
    var r2 := r1 + [Read(0)];
    assert Run(c, r2) == TwoIn(Queued, Checking, Reading, []);
    RunThen(c, r2, Read(1));
    steps := r2 + [Read(1)];
  }

  /** Both claims succeed, because the second finds `sending`. */
  lemma BothEnter(c: Config) returns (steps: seq<Step>)
    requires c.overlap && c.admitsSending
    ensures NoRequeue(steps) && Run(c, steps) == TwoIn(Sending, Calling(Nothing), Calling(Nothing), [])
  {
    var r1 := BothClaim(c);
    RunThen(c, r1, Enter(0, false));
    var r2 := r1 + [Enter(0, false)];
    assert Run(c, r2) == TwoIn(Sending, Calling(Nothing), Entering(Nothing), []);
    RunThen(c, r2, Enter(1, false));
    steps := r2 + [Enter(1, false)];
  }

  lemma BothSend(c: Config) returns (steps: seq<Step>)
    requires c.overlap && c.admitsSending
    ensures NoRequeue(steps) && |Run(c, steps).sends| == 2
  {
    var r1 := BothEnter(c);
    var x := SendOf(c.message, Nothing, Delivered);
    RunThen(c, r1, CallSend(0, Delivered));
    var r2 := r1 + [CallSend(0, Delivered)];
    assert Run(c, r2) == TwoIn(Sending, Finishing(false), Calling(Nothing), [x]);
    RunThen(c, r2, CallSend(1, Delivered));
    steps := r2 + [CallSend(1, Delivered)];
  }

  ghost predicate NeverTwice(c: Config) {
    forall steps :: NoRequeue(steps) ==> |Run(c, steps).sends| <= 1
  }

  /** When deliveries of a message may overlap, it is sent at most once in every run without
      a release if and only if the claim refuses a row already `sending`.
      The code's guard admits it. */
  lemma GuardDecides(c: Config)
    requires c.overlap
    ensures NeverTwice(c) <==> !c.admitsSending
  {
    if c.admitsSending {
      var steps := BothSend(c);
    } else {
      forall steps | NoRequeue(steps) ensures |Run(c, steps).sends| <= 1 {
        ExclusiveRun(c, steps);
      }
    }
  }
}
