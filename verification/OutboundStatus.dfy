/** What the status of an outbound message says about its history, and which status each
    outcome writes. */
module OutboundStatus {
  import opened Outbound

  // ---------- what the checks call for ----------

  predicate AllSuppressed(m: Message, hits: set<string>) {
    if m.envelopeTo == [] then m.from in hits
    else forall i :: 0 <= i < |m.envelopeTo| ==> m.envelopeTo[i] in hits
  }

  /** The final status that the findings of a delivery's checks call for. */
  predicate CallsFor(m: Message, seen: Findings, status: Status) {
    match status
    case Sent => seen.TestMode?
    case Bounced => seen.Checked? && !seen.senderHit && AllSuppressed(m, seen.hits)
    case Held => seen.Checked? && !seen.senderHit && !AllSuppressed(m, seen.hits) && seen.policy.Hold?
    case Failed =>
      || seen.Unusable?
      || (seen.Checked? && (seen.senderHit || (!AllSuppressed(m, seen.hits) && seen.policy.Block?)))
    case _ => false
  }

  lemma {:induction false} KeptIff(to: seq<string>, hits: set<string>, r: string)
    ensures r in Keep(to, hits, false) <==> r in to && r !in hits
  {
    if to != [] {
      KeptIff(to[..|to| - 1], hits, r);
      assert to == to[..|to| - 1] + [to[|to| - 1]];
    }
  }

  lemma NoneKeptIff(to: seq<string>, hits: set<string>)
    ensures Keep(to, hits, false) == [] <==> forall i :: 0 <= i < |to| ==> to[i] in hits
  {
    var kept := Keep(to, hits, false);
    if kept == [] {
      forall i | 0 <= i < |to| ensures to[i] in hits {
        KeptIff(to, hits, to[i]);
      }
    } else {
      KeptIff(to, hits, kept[0]);
    }
  }

  lemma NobodyLeftIff(m: Message, hits: set<string>)
    ensures Keep(Recipients(m), hits, false) == [] <==> AllSuppressed(m, hits)
  {
    NoneKeptIff(Recipients(m), hits);
    assert m.envelopeTo == [] ==> Recipients(m)[0] == m.from;
  }

  /** The checks end a delivery with a status exactly if their findings call for it, and let
      it go on exactly if nothing stands against the message. */
  lemma ChecksDecide(m: Message, seen: Findings, status: Status)
    ensures AfterChecks(m, seen) == Settling(status) <==> CallsFor(m, seen, status)
    ensures AfterChecks(m, seen).Settling? || AfterChecks(m, seen) == Entering(seen)
    ensures AfterChecks(m, seen).Entering? <==>
            seen.Checked? && !seen.senderHit && !AllSuppressed(m, seen.hits) && seen.policy.Allow?
  {
    if seen.Checked? {
      NobodyLeftIff(m, seen.hits);
    }
  }

  // ---------- what happened in a run ----------

  datatype Fact =
    | Found(status: Status)
    | GaveUp
    | Escaped
    | Claimed
    | Marked
    | Opened
    | Requeued
    | Closed
    | Purged

  function PhaseOf(s: State, d: nat): Phase {
    if d < |s.deliveries| then s.deliveries[d].phase else Over
  }

  /** The step raises an error that leaves `handleOne`. */
  predicate Escapes(s: State, step: Step) {
    !IsGlobal(step) && step.d < |s.deliveries| &&
    var p := s.deliveries[step.d].phase;
    match step
    case Throw(_) => p.Reading? || p.Checking? || p.Settling? || p.Entering?
    case Enter(_, lost) => lost && p.Entering?
    case Announce(_, throws) => throws && p.Announcing? && !p.sent
    case Catch(_) => p.Caught? && s.deliveries[step.d].attempts < 5
    case _ => false
  }

  predicate Happens(c: Config, s: State, step: Step, f: Fact) {
    match f
    case Found(status) => step.Check? && PhaseOf(s, step.d).Checking? && CallsFor(c.message, step.seen, status)
    case GaveUp => step.Catch? && PhaseOf(s, step.d).Caught? && s.deliveries[step.d].attempts >= 5
    case Escaped => Escapes(s, step)
    case Claimed => step.Enter? && PhaseOf(s, step.d).Entering? && Admits(c, s.status)
    case Marked => step.MarkQueued? && !s.marked
    case Opened => step.OpenRelease? && s.moderation.holds > 0
    case Requeued => step.Requeue? && s.moderation.handlers > 0
    case Closed => step.CloseHold? && s.moderation.holds > 0
    case Purged => step.Purge?
  }

  ghost predicate Happened(c: Config, steps: seq<Step>, f: Fact) {
    steps != [] &&
    (Happened(c, steps[..|steps| - 1], f) || Happens(c, Run(c, steps[..|steps| - 1]), steps[|steps| - 1], f))
  }

  /** Some step of the run made it happen. */
  lemma {:induction false} HappenedWhen(c: Config, steps: seq<Step>, f: Fact) returns (i: nat)
    requires Happened(c, steps, f)
    ensures i < |steps| && Happens(c, Run(c, steps[..i]), steps[i], f)
  {
    var front := steps[..|steps| - 1];
    if Happened(c, front, f) {
      i := HappenedWhen(c, front, f);
      assert front[..i] == steps[..i];
    } else {
      i := |front|;
    }
  }

  predicate SomeSend(s: State, result: Result) {
    exists i :: 0 <= i < |s.sends| && s.sends[i].result == result
  }

  function ResultOf(bounced: bool): Result {
    if bounced then PermanentBounce else Delivered
  }

  // ---------- what each status says ----------

  /** Why a message may have this status. */
  ghost predicate Reason(c: Config, steps: seq<Step>, status: Status) {
    match status
    case Missing => Happened(c, steps, Purged)
    case Received => !Happened(c, steps, Marked)
    case Queued => Happened(c, steps, Marked) || Happened(c, steps, Requeued)
    case Sending => Happened(c, steps, Claimed)
    case Sent => SomeSend(Run(c, steps), Delivered) || Happened(c, steps, Found(Sent))
    case Bounced => SomeSend(Run(c, steps), PermanentBounce) || Happened(c, steps, Found(Bounced))
    case Held => Happened(c, steps, Found(Held))
    case Failed => Happened(c, steps, Found(Failed)) || Happened(c, steps, GaveUp) || Happened(c, steps, Escaped)
  }

  /** And why a delivery may be in this phase. */
  ghost predicate PhaseReason(c: Config, steps: seq<Step>, p: Phase) {
    match p
    case Settling(status) => Happened(c, steps, Found(status)) || (status.Failed? && Happened(c, steps, GaveUp))
    case Finishing(bounced) => SomeSend(Run(c, steps), ResultOf(bounced))
    case Recovering => Happened(c, steps, Escaped)
    case Reclaiming => Happened(c, steps, Escaped)
    case _ => true
  }

  ghost predicate Explained(c: Config, steps: seq<Step>) {
    && Reason(c, steps, Run(c, steps).status)
    && (Run(c, steps).marked <==> Happened(c, steps, Marked))
    && forall i :: 0 <= i < |Run(c, steps).deliveries| ==> PhaseReason(c, steps, Run(c, steps).deliveries[i].phase)
  }

  /** Where one step of a delivery takes its phase, and what it writes. */
  lemma OwnSettling(c: Config, s: State, step: Step, d: nat)
    requires !IsGlobal(step) && step.d == d < |s.deliveries|
    ensures
      var p, q := s.deliveries[d].phase, PhaseOf(ApplyTo(c, s, step, d), d);
      q.Settling? ==>
        q == p || Happens(c, s, step, Found(q.status)) || (q.status.Failed? && Happens(c, s, step, GaveUp))
  {
    if step.Check? && AfterChecks(c.message, step.seen).Settling? {
      ChecksDecide(c.message, step.seen, AfterChecks(c.message, step.seen).status);
    }
  }

  lemma OwnPhase(c: Config, s: State, step: Step, d: nat)
    requires !IsGlobal(step) && step.d == d < |s.deliveries|
    ensures
      var t := ApplyTo(c, s, step, d);
      var p, q := s.deliveries[d].phase, PhaseOf(t, d);
      && t.deliveries == s.deliveries[d := Delivery(s.deliveries[d].attempts, q)]
      && (q.Finishing? ==> q == p || (step.CallSend? && p.Calling? && step.result == ResultOf(q.bounced)))
      && (q.Recovering? || q.Reclaiming? ==> p.Recovering? || p.Reclaiming? || Escapes(s, step))
  {
    if step.Check? {
      ChecksDecide(c.message, step.seen, Failed);
    }
  }

  lemma OwnWrite(c: Config, s: State, step: Step, d: nat)
    requires !IsGlobal(step) && step.d == d < |s.deliveries|
    ensures
      var t := ApplyTo(c, s, step, d);
      var p := s.deliveries[d].phase;
      && t.marked == s.marked
      && (t.status == s.status
          || (p.Settling? && t.status == p.status)
          || (p.Finishing? && t.status == if p.bounced then Bounced else Sent)
          || (p.Reclaiming? && t.status == Failed)
          || (t.status == Sending && Happens(c, s, step, Claimed)))
  {
  }

  lemma OwnSend(c: Config, s: State, step: Step, d: nat)
    requires !IsGlobal(step) && step.d == d < |s.deliveries|
    ensures
      var t := ApplyTo(c, s, step, d);
      && s.sends <= t.sends
      && (step.CallSend? && s.deliveries[d].phase.Calling? ==>
            |t.sends| == |s.sends| + 1 && t.sends[|s.sends|].result == step.result)
  {
  }

  lemma SendsStay(s: State, t: State, result: Result)
    requires s.sends <= t.sends && SomeSend(s, result)
    ensures SomeSend(t, result)
  {
    var i :| 0 <= i < |s.sends| && s.sends[i].result == result;
    assert t.sends[i] == s.sends[i];
  }

  /** Reasons stay good as the run goes on. */
  lemma ReasonsStay(c: Config, steps: seq<Step>)
    requires steps != [] && Run(c, steps[..|steps| - 1]).sends <= Run(c, steps).sends
    ensures forall st :: Reason(c, steps[..|steps| - 1], st) && !st.Received? ==> Reason(c, steps, st)
    ensures forall p :: PhaseReason(c, steps[..|steps| - 1], p) ==> PhaseReason(c, steps, p)
  {
    var front := steps[..|steps| - 1];
    FactsStay(c, steps);
    forall r | SomeSend(Run(c, front), r) ensures SomeSend(Run(c, steps), r) {
      SendsStay(Run(c, front), Run(c, steps), r);
    }
  }

  lemma FactsStay(c: Config, steps: seq<Step>)
    requires steps != []
    ensures forall f :: Happened(c, steps[..|steps| - 1], f) ==> Happened(c, steps, f)
  {
  }

  lemma GlobalIsExplained(c: Config, steps: seq<Step>)
    requires steps != [] && Explained(c, steps[..|steps| - 1]) && IsGlobal(steps[|steps| - 1])
    ensures Explained(c, steps)
  {
    var front, last := steps[..|steps| - 1], steps[|steps| - 1];
    var s, t := Run(c, front), Run(c, steps);
    assert t.sends == s.sends;
    ReasonsStay(c, steps);
    forall i | 0 <= i < |t.deliveries| ensures PhaseReason(c, steps, t.deliveries[i].phase) {
      assert i < |s.deliveries| ==> PhaseReason(c, front, s.deliveries[i].phase);
    }
  }

  /** The new phase of the delivery that made the step. */
  lemma OwnPhaseExplained(c: Config, steps: seq<Step>)
    requires steps != [] && Explained(c, steps[..|steps| - 1])
    requires
      var s, last := Run(c, steps[..|steps| - 1]), steps[|steps| - 1];
      !IsGlobal(last) && last.d < |s.deliveries|
    ensures Run(c, steps[..|steps| - 1]).sends <= Run(c, steps).sends
    ensures PhaseReason(c, steps, PhaseOf(Run(c, steps), steps[|steps| - 1].d))
  {
    var front, last := steps[..|steps| - 1], steps[|steps| - 1];
    var s, t := Run(c, front), Run(c, steps);
    OwnPhase(c, s, last, last.d);
    OwnSettling(c, s, last, last.d);
    OwnSend(c, s, last, last.d);
    ReasonsStay(c, steps);
    assert PhaseReason(c, front, s.deliveries[last.d].phase);
  }

  lemma OwnStatusExplained(c: Config, steps: seq<Step>)
    requires steps != [] && Explained(c, steps[..|steps| - 1])
    requires
      var s, last := Run(c, steps[..|steps| - 1]), steps[|steps| - 1];
      !IsGlobal(last) && last.d < |s.deliveries|
    ensures Reason(c, steps, Run(c, steps).status)
    ensures Run(c, steps).marked <==> Happened(c, steps, Marked)
  {
    var front, last := steps[..|steps| - 1], steps[|steps| - 1];
    var s := Run(c, front);
    OwnWrite(c, s, last, last.d);
    OwnSend(c, s, last, last.d);
    ReasonsStay(c, steps);
    assert PhaseReason(c, steps, s.deliveries[last.d].phase) by {
      assert PhaseReason(c, front, s.deliveries[last.d].phase);
    }
    SettlingStatuses(c, steps, s.deliveries[last.d].phase);
  }

  predicate Final(status: Status) {
    status.Sent? || status.Bounced? || status.Held? || status.Failed?
  }

  lemma {:induction false} FoundIsFinal(c: Config, steps: seq<Step>, status: Status)
    requires Happened(c, steps, Found(status))
    ensures Final(status)
  {
    if Happened(c, steps[..|steps| - 1], Found(status)) {
      FoundIsFinal(c, steps[..|steps| - 1], status);
    }
  }

  lemma SettlingStatuses(c: Config, steps: seq<Step>, p: Phase)
    requires PhaseReason(c, steps, p)
    ensures p.Settling? ==> Reason(c, steps, p.status)
  {
    if p.Settling? && Happened(c, steps, Found(p.status)) {
      FoundIsFinal(c, steps, p.status);
    }
  }

  lemma OwnIsExplained(c: Config, steps: seq<Step>)
    requires steps != [] && Explained(c, steps[..|steps| - 1])
    requires
      var s, last := Run(c, steps[..|steps| - 1]), steps[|steps| - 1];
      !IsGlobal(last) && last.d < |s.deliveries|
    ensures Explained(c, steps)
  {
    var front, last := steps[..|steps| - 1], steps[|steps| - 1];
    var s, t := Run(c, front), Run(c, steps);
    OwnPhaseExplained(c, steps);
    OwnStatusExplained(c, steps);
    OwnPhase(c, s, last, last.d);
    ReasonsStay(c, steps);
    forall i | 0 <= i < |t.deliveries| ensures PhaseReason(c, steps, t.deliveries[i].phase) {
      if i != last.d {
        assert PhaseReason(c, front, s.deliveries[i].phase);
      }
    }
  }

  lemma NothingIsExplained(c: Config, steps: seq<Step>)
    requires steps != [] && Explained(c, steps[..|steps| - 1])
    requires
      var s, last := Run(c, steps[..|steps| - 1]), steps[|steps| - 1];
      !IsGlobal(last) && last.d >= |s.deliveries|
    ensures Explained(c, steps)
  {
    ReasonsStay(c, steps);
  }

  /** In every run, overlapping or not, the status has its reason: `sent` only if a send was
      delivered or a check found a test; `bounced` only if a send bounced or a check found
      every recipient suppressed; `held` only if a check's policy said so; `failed` only if a
      check found the message unusable, its sender suppressed or blocked, if a delivery threw
      at its fifth attempt, or if an error left a delivery. */
  lemma {:induction false} StatusHasReason(c: Config, steps: seq<Step>)
    ensures Explained(c, steps)
  {
    if steps == [] {
      assert forall f :: !Happened(c, steps, f);
    } else {
      var front, last := steps[..|steps| - 1], steps[|steps| - 1];
      StatusHasReason(c, front);
      if IsGlobal(last) {
        GlobalIsExplained(c, steps);
      } else if last.d < |Run(c, front).deliveries| {
        OwnIsExplained(c, steps);
      } else {
        NothingIsExplained(c, steps);
      }
    }
  }

  // ---------- what each outcome writes ----------

  lemma RunThen(c: Config, steps: seq<Step>, last: Step)
    ensures Run(c, steps + [last]) == Apply(c, Run(c, steps), last)
  {
    assert (steps + [last])[..|steps|] == steps;
  }

  /** Delivery `d` has been in phase `p` ever since its step at `n`. */
  ghost predicate Since(c: Config, steps: seq<Step>, n: nat, d: nat, p: Phase) {
    && n < |steps| && !IsGlobal(steps[n]) && steps[n].d == d && PhaseOf(Run(c, steps[..n]), d) != p
    && forall i :: n < i <= |steps| ==> PhaseOf(Run(c, steps[..i]), d) == p
  }

  lemma OnlyOwnSteps(c: Config, s: State, step: Step, d: nat)
    ensures
      var t := Apply(c, s, step);
      PhaseOf(t, d) != PhaseOf(s, d) ==>
        if step.Begin? then PhaseOf(t, d) == Reading else !IsGlobal(step) && step.d == d < |s.deliveries|
  {
  }

  /** Every phase but the first and the last was entered by a step of that delivery. */
  lemma {:induction false} PhaseHasStep(c: Config, steps: seq<Step>, d: nat) returns (n: nat)
    requires !PhaseOf(Run(c, steps), d).Over? && !PhaseOf(Run(c, steps), d).Reading?
    ensures Since(c, steps, n, d, PhaseOf(Run(c, steps), d))
  {
    var p := PhaseOf(Run(c, steps), d);
    var front := steps[..|steps| - 1];
    if PhaseOf(Run(c, front), d) == p {
      n := PhaseHasStep(c, front, d);
      SinceGrows(c, steps, n, d, p);
    } else {
      n := |front|;
      SinceNow(c, steps, d);
    }
  }

  lemma SinceNow(c: Config, steps: seq<Step>, d: nat)
    requires steps != [] && PhaseOf(Run(c, steps[..|steps| - 1]), d) != PhaseOf(Run(c, steps), d)
    requires !PhaseOf(Run(c, steps), d).Over? && !PhaseOf(Run(c, steps), d).Reading?
    ensures Since(c, steps, |steps| - 1, d, PhaseOf(Run(c, steps), d))
  {
    OnlyOwnSteps(c, Run(c, steps[..|steps| - 1]), steps[|steps| - 1], d);
    assert steps[..|steps|] == steps;
  }

  lemma SinceGrows(c: Config, steps: seq<Step>, n: nat, d: nat, p: Phase)
    requires steps != [] && Since(c, steps[..|steps| - 1], n, d, p) && PhaseOf(Run(c, steps), d) == p
    ensures Since(c, steps, n, d, p)
  {
    var front := steps[..|steps| - 1];
    assert front[..n] == steps[..n] && front[n] == steps[n];
    forall i | n < i <= |steps| ensures PhaseOf(Run(c, steps[..i]), d) == p {
      assert i < |steps| ==> steps[..i] == front[..i];
      assert i == |steps| ==> steps[..i] == steps;
    }
  }

  lemma StepAt(c: Config, steps: seq<Step>, n: nat, d: nat, p: Phase)
    requires Since(c, steps, n, d, p) && !p.Over?
    ensures
      var s := Run(c, steps[..n]);
      && d < |s.deliveries| && PhaseOf(ApplyTo(c, s, steps[n], d), d) == p
  {
    assert steps[..n + 1] == steps[..n] + [steps[n]];
    RunThen(c, steps[..n], steps[n]);
  }

  /** A delivery whose send returned writes `sent` if it delivered and `bounced` if it bounced
      permanently, when the row is still `sending`, and nothing otherwise. */
  lemma FinishWrites(c: Config, steps: seq<Step>, d: nat) returns (n: nat)
    requires PhaseOf(Run(c, steps), d).Finishing?
    ensures Since(c, steps, n, d, PhaseOf(Run(c, steps), d))
    ensures PhaseOf(Run(c, steps[..n]), d).Calling? && steps[n].CallSend? && !steps[n].result.Threw?
    ensures
      var s, t := Run(c, steps), Run(c, steps + [Finish(d)]);
      t.status == if !s.status.Sending? then s.status else if steps[n].result.Delivered? then Sent else Bounced
  {
    n := PhaseHasStep(c, steps, d);
    StepAt(c, steps, n, d, PhaseOf(Run(c, steps), d));
    OwnPhase(c, Run(c, steps[..n]), steps[n], d);
    RunThen(c, steps, Finish(d));
  }

  lemma SettlesFrom(c: Config, s: State, step: Step, d: nat)
    requires !IsGlobal(step) && step.d == d < |s.deliveries|
    requires var q := PhaseOf(ApplyTo(c, s, step, d), d); q.Settling? && q != s.deliveries[d].phase
    ensures
      var q := PhaseOf(ApplyTo(c, s, step, d), d);
      || (step.Check? && s.deliveries[d].phase.Checking? && CallsFor(c.message, step.seen, q.status))
      || (step.Catch? && s.deliveries[d].phase.Caught? && s.deliveries[d].attempts >= 5 && q.status.Failed?)
  {
    OwnSettling(c, s, step, d);
  }

  /** A delivery that ends without a send writes the status its checks call for, and one that
      threw at its fifth attempt writes `failed`; neither looks at the status it replaces. */
  lemma SettleWrites(c: Config, steps: seq<Step>, d: nat) returns (n: nat)
    requires PhaseOf(Run(c, steps), d).Settling?
    ensures Since(c, steps, n, d, PhaseOf(Run(c, steps), d))
    ensures
      var before, s, t := Run(c, steps[..n]), Run(c, steps), Run(c, steps + [Settle(d)]);
      if s.status.Missing? then t.status.Missing?
      else
        || (steps[n].Check? && PhaseOf(before, d).Checking? && CallsFor(c.message, steps[n].seen, t.status))
        || (steps[n].Catch? && PhaseOf(before, d).Caught? && before.deliveries[d].attempts >= 5 && t.status.Failed?)
  {
    n := PhaseHasStep(c, steps, d);
    StepAt(c, steps, n, d, PhaseOf(Run(c, steps), d));
    SettlesFrom(c, Run(c, steps[..n]), steps[n], d);
    RunThen(c, steps, Settle(d));
  }

  lemma EscapeLeadsToRecovery(c: Config, s: State, step: Step)
    requires Escapes(s, step)
    ensures PhaseOf(Apply(c, s, step), step.d).Recovering?
  {
  }

  lemma RecoveryEnds(c: Config, s: State, d: nat)
    requires PhaseOf(s, d).Recovering?
    ensures
      var t := Apply(c, Apply(c, s, Recover(d)), Reclaim(d));
      t.status == if s.status.Queued? || s.status.Sending? then Failed else s.status
  {
  }

  /** An error that leaves a delivery never leaves the row in `queued` or `sending`, once the
      queue handler's recovery has run: it writes `failed` on those two and nothing else. */
  lemma EscapeWrites(c: Config, steps: seq<Step>, step: Step)
    requires Escapes(Run(c, steps), step)
    ensures
      var s, t := Run(c, steps + [step]), Run(c, steps + [step] + [Recover(step.d)] + [Reclaim(step.d)]);
      t.status == if s.status.Queued? || s.status.Sending? then Failed else s.status
  {
    RunThen(c, steps, step);
    EscapeLeadsToRecovery(c, Run(c, steps), step);
    RecoveryEnds(c, Run(c, steps + [step]), step.d);
    RunThen(c, steps + [step], Recover(step.d));
    RunThen(c, steps + [step] + [Recover(step.d)], Reclaim(step.d));
  }

  /** The step raises an error inside the part of `handleOne` that catches: the send, the
      status write after it, or the announcement of a sent message. */
  predicate Throws(s: State, step: Step) {
    !IsGlobal(step) && step.d < |s.deliveries| &&
    var p := s.deliveries[step.d].phase;
    match step
    case CallSend(_, result) => p.Calling? && result.Threw?
    case Throw(_) => p.Finishing?
    case Announce(_, throws) => p.Announcing? && throws && p.sent
    case _ => false
  }

  /** What the delivery does about it: `failed` from the fifth attempt on, else the error
      leaves it and the queue handler's recovery runs. */
  function Aftermath(s: State, d: nat): seq<Step>
    requires d < |s.deliveries|
  {
    if s.deliveries[d].attempts >= 5 then [Catch(d), Settle(d)] else [Catch(d), Recover(d), Reclaim(d)]
  }

  lemma ThrownIsCaught(c: Config, s: State, step: Step)
    requires Throws(s, step)
    ensures
      var t := Apply(c, s, step);
      && PhaseOf(t, step.d).Caught? && t.status == s.status && step.d < |t.deliveries|
      && t.deliveries[step.d].attempts == s.deliveries[step.d].attempts
  {
  }

  lemma CaughtEnds(c: Config, s: State, d: nat)
    requires PhaseOf(s, d).Caught?
    ensures
      var last := s.deliveries[d].attempts >= 5;
      var t := if last then Apply(c, Apply(c, s, Catch(d)), Settle(d))
               else Apply(c, Apply(c, Apply(c, s, Catch(d)), Recover(d)), Reclaim(d));
      t.status == if s.status.Missing? then Missing
                  else if last || s.status.Queued? || s.status.Sending? then Failed else s.status
  {
  }

  lemma LastAttemptRuns(c: Config, r: seq<Step>, d: nat)
    ensures Run(c, r + [Catch(d), Settle(d)]) == Apply(c, Apply(c, Run(c, r), Catch(d)), Settle(d))
  {
    RunThen(c, r, Catch(d));
    RunThen(c, r + [Catch(d)], Settle(d));
    assert r + [Catch(d)] + [Settle(d)] == r + [Catch(d), Settle(d)];
  }

  lemma EarlyAttemptRuns(c: Config, r: seq<Step>, d: nat)
    ensures Run(c, r + [Catch(d), Recover(d), Reclaim(d)]) ==
            Apply(c, Apply(c, Apply(c, Run(c, r), Catch(d)), Recover(d)), Reclaim(d))
  {
    RunThen(c, r, Catch(d));
    RunThen(c, r + [Catch(d)], Recover(d));
    RunThen(c, r + [Catch(d)] + [Recover(d)], Reclaim(d));
    assert r + [Catch(d)] + [Recover(d)] + [Reclaim(d)] == r + [Catch(d), Recover(d), Reclaim(d)];
  }

  /** A thrown send is not tried again: whatever the attempt, the row ends `failed` when it
      was `sending`, and from the fifth attempt on whatever it was, so that a message that
      was sent, and whose announcement then fails, ends `failed` too. */
  lemma ThrownSendFails(c: Config, steps: seq<Step>, step: Step)
    requires Throws(Run(c, steps), step)
    ensures
      var s := Run(c, steps);
      Run(c, steps + [step] + Aftermath(s, step.d)).status ==
        if s.status.Missing? then Missing
        else if s.deliveries[step.d].attempts >= 5 || s.status.Queued? || s.status.Sending? then Failed
        else s.status
  {
    var r := steps + [step];
    RunThen(c, steps, step);
    ThrownIsCaught(c, Run(c, steps), step);
    CaughtEnds(c, Run(c, r), step.d);
    LastAttemptRuns(c, r, step.d);
    EarlyAttemptRuns(c, r, step.d);
  }

  /** A delivery goes past its first look exactly if the row is queued, or gone: a message
      whose row was purged is checked and refused at the claim. */
  lemma FirstLook(c: Config, s: State, d: nat)
    requires PhaseOf(s, d).Reading?
    ensures
      var t := Apply(c, s, Read(d));
      && t == s.(deliveries := t.deliveries)
      && if s.status.Queued? || s.status.Missing? then PhaseOf(t, d).Checking? else PhaseOf(t, d).Over?
    ensures PhaseOf(Apply(c, s, Throw(d)), d).Recovering?
  {
  }

  /** A delivery announces what it wrote, and only that: every final status of its checks but
      `held`, and the outcome of its send only if its own write found the row `sending`. */
  lemma AnnouncesWhatItWrote(c: Config, s: State, d: nat)
    ensures PhaseOf(s, d).Settling? ==>
              var t := Apply(c, s, Settle(d));
              if PhaseOf(s, d).status.Held? then PhaseOf(t, d).Over? else PhaseOf(t, d) == Announcing(false)
    ensures PhaseOf(s, d).Finishing? ==>
              var t := Apply(c, s, Finish(d));
              if s.status.Sending? then PhaseOf(t, d) == Announcing(true)
              else PhaseOf(t, d).Over? && t.status == s.status
  {
  }

  /** An error during the recovery ends it, and a crash ends anything, with nothing written. */
  lemma NothingWrittenAfterwards(c: Config, s: State, d: nat, step: Step)
    requires d < |s.deliveries|
    requires step == Crash(d) || (step == Throw(d) && (PhaseOf(s, d).Recovering? || PhaseOf(s, d).Reclaiming?))
    ensures
      var t := Apply(c, s, step);
      PhaseOf(t, d).Over? && t == s.(deliveries := t.deliveries)
  {
  }

  // ---------- holds ----------

  /** How often something happened. */
  ghost function Count(c: Config, steps: seq<Step>, f: Fact): nat {
    if steps == [] then 0
    else
      var front := steps[..|steps| - 1];
      Count(c, front, f) + if Happens(c, Run(c, front), steps[|steps| - 1], f) then 1 else 0
  }

  lemma HoldStep(c: Config, s: State, step: Step)
    ensures
      var t := Apply(c, s, step);
      && t.moderation.holds == s.moderation.holds + (if Happens(c, s, step, Found(Held)) then 1 else 0)
                               - (if Happens(c, s, step, Closed) then 1 else 0)
      && t.moderation.handlers == s.moderation.handlers + (if Happens(c, s, step, Opened) then 1 else 0)
                                  - (if Happens(c, s, step, Requeued) then 1 else 0)
  {
    if step.Check? {
      ChecksDecide(c.message, step.seen, Held);
    }
  }

  /** Every hold that a check opened is open until one request closes it, and every release
      request requeues the message once. */
  lemma {:induction false} HoldsAreConserved(c: Config, steps: seq<Step>)
    ensures Run(c, steps).moderation.holds + Count(c, steps, Closed) == Count(c, steps, Found(Held))
    ensures Run(c, steps).moderation.handlers + Count(c, steps, Requeued) == Count(c, steps, Opened)
  {
    if steps != [] {
      var front := steps[..|steps| - 1];
      HoldsAreConserved(c, front);
      HoldStep(c, Run(c, front), steps[|steps| - 1]);
    }
  }

  // ---------- whom a send goes to ----------

  /** Every send of every run goes to exactly the envelope's recipients, or to the sender of
      an entry that names none, without those found suppressed. */
  lemma SentToWhom(c: Config, steps: seq<Step>, i: nat, r: string)
    requires i < |Run(c, steps).sends|
    ensures
      var x := Run(c, steps).sends[i];
      && x.seen.Checked?
      && (r in x.to <==> r !in x.seen.hits && if c.message.envelopeTo == [] then r == c.message.from
                                             else r in c.message.envelopeTo)
  {
    SendsAreClean(c, steps);
    var x := Run(c, steps).sends[i];
    assert SendOk(c.message, x);
    KeptIff(Recipients(c.message), x.seen.hits, r);
  }
}
