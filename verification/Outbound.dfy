/** The outbound queue consumer: one message row, delivered at least once, with crashes,
    thrown sends and database errors between any two statements. */
module Outbound {
  const MAX_DELIVERY_ATTEMPTS := 5

  /** `Missing` is a message without a row. */
  datatype Status = Missing | Received | Queued | Sending | Sent | Bounced | Failed | Held

  // ---------- recipients ----------

  datatype Message = Message(from: string, envelopeTo: seq<string>)

  /** The explicit list, or the sender's own address for old queue entries without one. */
  function Recipients(m: Message): seq<string> {
    if m.envelopeTo != [] then m.envelopeTo else [m.from]
  }

  /** The members of `to` that are, or are not, in `hits`, in order. */
  function Keep(to: seq<string>, hits: set<string>, hit: bool): seq<string> {
    if to == [] then []
    else
      var r := to[|to| - 1];
      Keep(to[..|to| - 1], hits, hit) + if (r in hits) == hit then [r] else []
  }

  lemma {:induction false} KeepIsSound(to: seq<string>, hits: set<string>, hit: bool)
    ensures forall i :: 0 <= i < |Keep(to, hits, hit)| ==> (Keep(to, hits, hit)[i] in hits) == hit
  {
    if to != [] {
      KeepIsSound(to[..|to| - 1], hits, hit);
    }
  }

  lemma SplitLast(to: seq<string>)
    requires to != []
    ensures multiset(to) == multiset(to[..|to| - 1]) + multiset{to[|to| - 1]}
  {
    assert to == to[..|to| - 1] + [to[|to| - 1]];
  }

  lemma {:induction false} KeepPartitions(to: seq<string>, hits: set<string>)
    ensures multiset(Keep(to, hits, true)) + multiset(Keep(to, hits, false)) == multiset(to)
  {
    if to != [] {
      var front, r := to[..|to| - 1], to[|to| - 1];
      KeepPartitions(front, hits);
      SplitLast(to);
      var a, b := Keep(front, hits, true), Keep(front, hits, false);
      if r in hits {
        assert Keep(to, hits, true) == a + [r] && Keep(to, hits, false) == b;
      } else {
        assert Keep(to, hits, true) == a && Keep(to, hits, false) == b + [r];
      }
    }
  }

  /** The suppression loop: dropped and surviving recipients partition the envelope, and
      both keep its order. */
  method SplitRecipients(to: seq<string>, hits: set<string>) returns (dropped: seq<string>, surviving: seq<string>)
    ensures dropped == Keep(to, hits, true) && surviving == Keep(to, hits, false)
    ensures multiset(dropped) + multiset(surviving) == multiset(to)
    ensures forall i :: 0 <= i < |dropped| ==> dropped[i] in hits
    ensures forall i :: 0 <= i < |surviving| ==> surviving[i] !in hits
  {
    dropped, surviving := [], [];
    for i := 0 to |to|
      invariant dropped == Keep(to[..i], hits, true) && surviving == Keep(to[..i], hits, false)
    {
      assert to[..i + 1][..i] == to[..i];
      if to[i] in hits {
        dropped := dropped + [to[i]];
      } else {
        surviving := surviving + [to[i]];
      }
    }
    assert to[..|to|] == to;
    KeepPartitions(to, hits);
    KeepIsSound(to, hits, true);
    KeepIsSound(to, hits, false);
  }

  // ---------- one delivery, statement by statement ----------

  /** What a delivery finds out before it claims the row: the body, domain or binding is
      unusable, it is a test, or the suppression and policy checks decide. */
  datatype Findings =
    | Unusable
    | TestMode
    | Checked(senderHit: bool, hits: set<string>, policy: Policy)

  datatype Policy = Allow | Block | Hold

  datatype Phase =
    | Reading
    | Checking
    | Settling(status: Status)
    | Entering(seen: Findings)
    | Calling(seen: Findings)
    | Finishing(bounced: bool)
    | Announcing(sent: bool)
    | Caught
    | Recovering
    | Reclaiming
    | Over

  datatype Delivery = Delivery(attempts: nat, phase: Phase)

  datatype Result = Delivered | PermanentBounce | Threw

  /** One call of `binding.send`, with what the delivery had found out before. */
  datatype Send = Send(to: seq<string>, seen: Findings, result: Result)

  /** Open rows of `held_messages` for this message, and release requests that have found
      one open and not yet requeued the message. */
  datatype Moderation = Moderation(holds: nat, handlers: nat)

  datatype State = State(
    status: Status, marked: bool, deliveries: seq<Delivery>, sends: seq<Send>, moderation: Moderation)

  datatype Step =
    | MarkQueued
    | Purge
    | OpenRelease
    | Requeue
    | CloseHold
    | Begin(attempts: nat)
    | Read(d: nat)
    | Check(d: nat, seen: Findings)
    | Settle(d: nat)
    | Enter(d: nat, lost: bool)
    | CallSend(d: nat, result: Result)
    | Finish(d: nat)
    | Announce(d: nat, throws: bool)
    | Catch(d: nat)
    | Recover(d: nat)
    | Reclaim(d: nat)
    | Throw(d: nat)
    | Crash(d: nat)

  /** `admitsSending`: whether the claim's guard also lets a row that is already `sending`
      through, as the code does. `overlap`: whether two deliveries may be in flight. */
  datatype Config = Config(message: Message, admitsSending: bool, overlap: bool)

  const Start := State(Received, false, [], [], Moderation(0, 0))

  function Go(s: State, d: nat, p: Phase): State
    requires d < |s.deliveries|
  {
    s.(deliveries := s.deliveries[d := s.deliveries[d].(phase := p)])
  }

  /** An update of the row; no row, no effect. */
  function Write(s: State, status: Status): State {
    if s.status.Missing? then s else s.(status := status)
  }

  predicate Idle(s: State) {
    forall i :: 0 <= i < |s.deliveries| ==> s.deliveries[i].phase.Over?
  }

  predicate Admits(c: Config, status: Status) {
    status.Queued? || (status.Sending? && c.admitsSending)
  }

  /** Where the checks lead: to a final status, or on to the claim. */
  function AfterChecks(m: Message, seen: Findings): Phase {
    match seen
    case Unusable => Settling(Failed)
    case TestMode => Settling(Sent)
    case Checked(senderHit, hits, policy) =>
      if senderHit then Settling(Failed)
      else if Keep(Recipients(m), hits, false) == [] then Settling(Bounced)
      else if policy.Block? then Settling(Failed)
      else if policy.Hold? then Settling(Held)
      else Entering(seen)
  }

  /** The policy engine's own insert, before the status is written. */
  function AddHold(s: State): State {
    s.(moderation := s.moderation.(holds := s.moderation.holds + 1))
  }

  function SendOf(m: Message, seen: Findings, result: Result): Send {
    Send(if seen.Checked? then Keep(Recipients(m), seen.hits, false) else [], seen, result)
  }

  function ApplyTo(c: Config, s: State, step: Step, d: nat): State
    requires d < |s.deliveries|
  {
    var p := s.deliveries[d].phase;
    match step
    case Read(_) =>
      if p.Reading? then Go(s, d, if s.status.Queued? || s.status.Missing? then Checking else Over) else s
    case Check(_, seen) =>
      if p.Checking? then
        var next := AfterChecks(c.message, seen);
        Go(if next == Settling(Held) then AddHold(s) else s, d, next)
      else s
    case Settle(_) =>
      if p.Settling? then Go(Write(s, p.status), d, if p.status.Held? then Over else Announcing(false)) else s
    case Enter(_, lost) =>
      if p.Entering? then
        if Admits(c, s.status) then Go(Write(s, Sending), d, if lost then Recovering else Calling(p.seen))
        else Go(s, d, if lost then Recovering else Over)
      else s
    case CallSend(_, result) =>
      if p.Calling? then
        Go(s.(sends := s.sends + [SendOf(c.message, p.seen, result)]), d,
           if result.Threw? then Caught else Finishing(result.PermanentBounce?))
      else s
    case Finish(_) =>
      if p.Finishing? then
        if s.status.Sending? then Go(Write(s, if p.bounced then Bounced else Sent), d, Announcing(true))
        else Go(s, d, Over)
      else s
    case Announce(_, throws) =>
      if p.Announcing? then Go(s, d, if !throws then Over else if p.sent then Caught else Recovering) else s
    case Catch(_) =>
      if p.Caught? then
        Go(s, d, if s.deliveries[d].attempts >= MAX_DELIVERY_ATTEMPTS then Settling(Failed) else Recovering)
      else s
    case Recover(_) =>
      if p.Recovering? then Go(s, d, if s.status.Sending? || s.status.Queued? then Reclaiming else Over) else s
    case Reclaim(_) => if p.Reclaiming? then Go(Write(s, Failed), d, Over) else s
    case Throw(_) =>
      if p.Reading? || p.Checking? || p.Settling? || p.Entering? then Go(s, d, Recovering)
      else if p.Finishing? then Go(s, d, Caught)
      else if p.Recovering? || p.Reclaiming? then Go(s, d, Over)
      else s
    case Crash(_) => Go(s, d, Over)
    case _ => s
  }

  /** One step of the system; a step that is not enabled changes nothing. */
  function Apply(c: Config, s: State, step: Step): State {
    match step
    case MarkQueued => if s.marked then s else Write(s, Queued).(marked := true)
    case Purge => s.(status := Missing)
    case OpenRelease =>
      if s.moderation.holds > 0 then s.(moderation := s.moderation.(handlers := s.moderation.handlers + 1)) else s
    case Requeue =>
      if s.moderation.handlers > 0 then
        Write(s, Queued).(moderation := s.moderation.(handlers := s.moderation.handlers - 1))
      else s
    case CloseHold =>
      if s.moderation.holds > 0 then s.(moderation := s.moderation.(holds := s.moderation.holds - 1)) else s
    case Begin(attempts) =>
      if c.overlap || Idle(s) then s.(deliveries := s.deliveries + [Delivery(attempts, Reading)]) else s
    case _ => if step.d < |s.deliveries| then ApplyTo(c, s, step, step.d) else s
  }

  function Run(c: Config, steps: seq<Step>): State {
    if steps == [] then Start else Apply(c, Run(c, steps[..|steps| - 1]), steps[|steps| - 1])
  }

  // ---------- what every run sends ----------

  predicate ClaimOk(m: Message, p: Phase) {
    p.Entering? || p.Calling? ==> p.seen.Checked? && !p.seen.senderHit && AfterChecks(m, p.seen) == Entering(p.seen)
  }

  /** A send that names exactly the unsuppressed recipients, of an unsuppressed sender. */
  predicate SendOk(m: Message, x: Send) {
    && x.seen.Checked? && !x.seen.senderHit && x.seen.policy.Allow?
    && x.to == Keep(Recipients(m), x.seen.hits, false) && x.to != []
  }

  predicate Clean(m: Message, s: State) {
    && (forall i :: 0 <= i < |s.deliveries| ==> ClaimOk(m, s.deliveries[i].phase))
    && (forall i :: 0 <= i < |s.sends| ==> SendOk(m, s.sends[i]))
  }

  /** A delivery's step touches its own phase and at most adds one send. */
  lemma OwnStep(c: Config, s: State, step: Step, d: nat)
    requires d < |s.deliveries| && ClaimOk(c.message, s.deliveries[d].phase)
    ensures
      var t := ApplyTo(c, s, step, d);
      && t.deliveries == s.deliveries[d := t.deliveries[d]] && ClaimOk(c.message, t.deliveries[d].phase)
      && t.marked == s.marked
      && (t.sends == s.sends ||
          (s.deliveries[d].phase.Calling? && step.CallSend? &&
           t.sends == s.sends + [SendOf(c.message, s.deliveries[d].phase.seen, step.result)]))
  {
  }

  lemma CleanStep(c: Config, s: State, step: Step)
    requires Clean(c.message, s)
    ensures Clean(c.message, Apply(c, s, step))
  {
    if IsGlobal(step) || step.d >= |s.deliveries| {
      assert Apply(c, s, step).sends == s.sends;
    } else {
      assert ClaimOk(c.message, s.deliveries[step.d].phase);
      OwnStep(c, s, step, step.d);
    }
  }

  predicate IsGlobal(step: Step) {
    || step.MarkQueued? || step.Purge? || step.Begin?
    || step.OpenRelease? || step.Requeue? || step.CloseHold?
  }

  /** In every run, overlapping or not, each send goes to exactly the recipients that were
      not suppressed when it was checked, in order, and never for a suppressed sender. */
  lemma {:induction false} SendsAreClean(c: Config, steps: seq<Step>)
    ensures Clean(c.message, Run(c, steps))
  {
    if steps != [] {
      SendsAreClean(c, steps[..|steps| - 1]);
      CleanStep(c, Run(c, steps[..|steps| - 1]), steps[|steps| - 1]);
    }
  }

  predicate SenderSuppressed(steps: seq<Step>) {
    forall i :: 0 <= i < |steps| && steps[i].Check? && steps[i].seen.Checked? ==> steps[i].seen.senderHit
  }

  predicate Claims(p: Phase) {
    p.Entering? || p.Calling?
  }

  predicate NobodyClaims(s: State) {
    s.sends == [] && forall i :: 0 <= i < |s.deliveries| ==> !Claims(s.deliveries[i].phase)
  }

  lemma NobodyClaimsOwn(c: Config, s: State, step: Step, d: nat)
    requires d < |s.deliveries| && s.sends == [] && !Claims(s.deliveries[d].phase)
    requires step.Check? && step.seen.Checked? ==> step.seen.senderHit
    ensures
      var t := ApplyTo(c, s, step, d);
      t.sends == [] && !Claims(t.deliveries[d].phase) && t.deliveries == s.deliveries[d := t.deliveries[d]]
  {
  }

  /** While the sender is suppressed nothing is ever sent. */
  lemma {:induction false} SuppressedSenderNeverSends(c: Config, steps: seq<Step>)
    requires SenderSuppressed(steps)
    ensures NobodyClaims(Run(c, steps))
  {
    if steps != [] {
      var front, last := steps[..|steps| - 1], steps[|steps| - 1];
      var s := Run(c, front);
      SuppressedSenderNeverSends(c, front);
      if !IsGlobal(last) && last.d < |s.deliveries| {
        NobodyClaimsOwn(c, s, last, last.d);
      }
    }
  }
}
