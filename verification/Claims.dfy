/** Outbound submission under an idempotency key: concurrent submitters, each a sequence of
    single statements that can be interrupted anywhere, racing for one claim row. */
module Claims {
  import opened Text

  const POLLS := 5

  /** The claim table's primary key; an empty `key` means that none was supplied. */
  datatype Slot = Slot(principal: string, key: string)

  /** One call of `processMessage`. */
  datatype Caller = Caller(slot: Slot, n: nat)

  datatype Phase =
    | Entering
    | Polling(attempt: nat)
    | Won
    | Inserted(id: string)
    | Recorded(id: string)
    | Returned(id: string, winner: bool)
    | InProgress
    | BadRequest
    | Failed

  /** `owner` is the caller whose statement inserted the row. */
  datatype Claim = Claim(messageId: Option<string>, locked: bool, owner: Caller)

  /** The `messages` table maps an id to the caller that inserted it. */
  datatype State = State(claims: map<Slot, Claim>, messages: map<string, Caller>, callers: map<Caller, Phase>)

  /** `lost` acts commit their statement but the caller never learns the result. */
  datatype Act =
    | Start
    | Enter(lost: bool)
    | Poll
    | Insert(id: string, lost: bool)
    | Record(lost: bool)
    | Finish
    | Fail

  datatype Step = Step(who: Caller, act: Act)

  const Empty := State(map[], map[], map[])

  function Go(s: State, c: Caller, p: Phase): State {
    s.(callers := s.callers[c := p])
  }

  function Unless(lost: bool, p: Phase): Phase {
    if lost then Failed else p
  }

  /** The claim insert: `INSERT OR IGNORE ... RETURNING key`. */
  function EnterStep(s: State, c: Caller, lost: bool): State {
    if c.slot.key == "" then Go(s, c, Won)
    else if c.slot.principal == "" then Go(s, c, BadRequest)
    else if c.slot in s.claims then Go(s, c, Unless(lost, Polling(0)))
    else Go(s.(claims := s.claims[c.slot := Claim(None, true, c)]), c, Unless(lost, Won))
  }

  /** Where one of the loser's five looks at the claim row leads. */
  function PollPhase(claim: Option<Claim>, attempt: nat): Phase {
    if claim.Some? && claim.value.messageId.Some? then Returned(claim.value.messageId.value, false)
    else if claim.Some? && !claim.value.locked then InProgress
    else if attempt + 1 < POLLS then Polling(attempt + 1)
    else InProgress
  }

  function ClaimRow(s: State, k: Slot): Option<Claim> {
    if k in s.claims then Some(s.claims[k]) else None
  }

  function PollStep(s: State, c: Caller, attempt: nat): State {
    Go(s, c, PollPhase(ClaimRow(s, c.slot), attempt))
  }

  /** The message row's insert; its id is a primary key. */
  function InsertStep(s: State, c: Caller, id: string, lost: bool): State {
    if id in s.messages then Go(s, c, Failed)
    else Go(s.(messages := s.messages[id := c]), c, Unless(lost, Inserted(id)))
  }

  /** `recordClaim`, which only fills an empty message id. */
  function RecordStep(s: State, c: Caller, id: string, lost: bool): State {
    if c.slot.key != "" && c.slot in s.claims && s.claims[c.slot].messageId.None? then
      Go(s.(claims := s.claims[c.slot := s.claims[c.slot].(messageId := Some(id), locked := false)]), c,
          Unless(lost, Recorded(id)))
    else Go(s, c, Unless(lost, Recorded(id)))
  }

  /** The act fits the phase its caller is in. */
  predicate Moves(s: State, step: Step) {
    && step.who in s.callers
    && var p := s.callers[step.who];
       match step.act
       case Start => false
       case Enter(_) => p.Entering?
       case Poll => p.Polling?
       case Insert(_, _) => p.Won?
       case Record(_) => p.Inserted?
       case Finish => p.Recorded?
       case Fail => p.Entering? || p.Polling? || p.Won? || p.Inserted? || p.Recorded?
  }

  /** One step of one caller; a step that is not enabled changes nothing. */
  function Apply(s: State, step: Step): State {
    var c := step.who;
    if step.act.Start? then (if c in s.callers then s else Go(s, c, Entering))
    else if !Moves(s, step) then s
    else
      var p := s.callers[c];
      match step.act
      case Enter(lost) => EnterStep(s, c, lost)
      case Poll => PollStep(s, c, p.attempt)
      case Insert(id, lost) => InsertStep(s, c, id, lost)
      case Record(lost) => RecordStep(s, c, p.id, lost)
      case Finish => Go(s, c, Returned(p.id, true))
      case Fail => Go(s, c, Failed)
  }

  function Run(steps: seq<Step>): State {
    if steps == [] then Empty else Apply(Run(steps[..|steps| - 1]), steps[|steps| - 1])
  }

  // ---------- what every step keeps ----------

  predicate Unused(s: State, k: Slot) {
    forall id :: id in s.messages ==> s.messages[id].slot != k
  }

  predicate Holds(s: State, c: Caller, messageId: Option<string>) {
    c.slot in s.claims && s.claims[c.slot] == Claim(messageId, messageId.None?, c)
  }

  /** What a caller under a key may rely on in each phase. */
  predicate CallerOk(s: State, c: Caller, p: Phase) {
    match p
    case Won => Holds(s, c, None) && Unused(s, c.slot)
    case Inserted(id) => Holds(s, c, None) && id in s.messages && s.messages[id] == c
    case Recorded(id) => Holds(s, c, Some(id))
    case Returned(id, winner) =>
      c.slot in s.claims && s.claims[c.slot].messageId == Some(id) && (winner <==> s.claims[c.slot].owner == c)
    case Polling(attempt) => attempt < POLLS && c.slot in s.claims && s.claims[c.slot].owner != c
    case _ => true
  }

  /** Unlocked exactly when the id is set, and the id names the winner's message row. */
  predicate ClaimOk(s: State, k: Slot, c: Claim) {
    && k.key != "" && c.owner.slot == k
    && c.owner in s.callers && !s.callers[c.owner].Entering?
    && (c.messageId.Some? <==> !c.locked)
    && (c.messageId.Some? ==> c.messageId.value in s.messages && s.messages[c.messageId.value] == c.owner)
  }

  /** A message row under a key belongs to the claim's winner. */
  predicate MessageOk(s: State, c: Caller) {
    c.slot.key != "" ==> c.slot in s.claims && s.claims[c.slot].owner == c
  }

  predicate AllClaims(s: State) {
    forall k :: k in s.claims ==> ClaimOk(s, k, s.claims[k])
  }

  predicate AllMessages(s: State) {
    forall id :: id in s.messages ==> MessageOk(s, s.messages[id])
  }

  predicate AllCallers(s: State) {
    forall c :: c in s.callers && c.slot.key != "" ==> CallerOk(s, c, s.callers[c])
  }

  /** At most one message row under each key. */
  predicate AtMostOne(s: State) {
    forall a, b | a in s.messages && b in s.messages && s.messages[a].slot == s.messages[b].slot ::
      s.messages[a].slot.key != "" ==> a == b
  }

  predicate Inv(s: State) {
    AllClaims(s) && AllMessages(s) && AllCallers(s) && AtMostOne(s)
  }

  /** A caller moving on by itself. */
  lemma GoKeeps(s: State, c: Caller, p: Phase)
    requires Inv(s) && (c.slot.key != "" ==> CallerOk(s, c, p))
    requires if p.Entering? then c !in s.callers else c in s.callers
    ensures Inv(Go(s, c, p))
  {
    var t := Go(s, c, p);
    forall k | k in t.claims ensures ClaimOk(t, k, t.claims[k]) {
      assert ClaimOk(s, k, s.claims[k]);
    }
    forall id | id in t.messages ensures MessageOk(t, t.messages[id]) {
      assert MessageOk(s, s.messages[id]);
    }
    forall d | d in t.callers && d.slot.key != "" ensures CallerOk(t, d, t.callers[d]) {
      assert d != c ==> CallerOk(s, d, s.callers[d]);
    }
  }

  /** The winning insert of a claim row, the caller still to be told. */
  lemma ClaimKeeps(s: State, c: Caller)
    requires Inv(s) && c in s.callers && s.callers[c].Entering? && c.slot !in s.claims && c.slot.key != ""
    ensures
      var t := s.(claims := s.claims[c.slot := Claim(None, true, c)], callers := s.callers[c := Failed]);
      Inv(t) && Unused(t, c.slot)
  {
    var t := s.(claims := s.claims[c.slot := Claim(None, true, c)], callers := s.callers[c := Failed]);
    forall k | k in t.claims ensures ClaimOk(t, k, t.claims[k]) {
      assert k != c.slot ==> ClaimOk(s, k, s.claims[k]);
    }
    forall id | id in t.messages ensures MessageOk(t, t.messages[id]) && t.messages[id].slot != c.slot {
      assert MessageOk(s, s.messages[id]);
    }
    forall d | d in t.callers && d.slot.key != "" ensures CallerOk(t, d, t.callers[d]) {
      assert CallerOk(s, d, s.callers[d]);
    }
  }

  lemma EnterKeeps(s: State, c: Caller, lost: bool)
    requires Inv(s) && c in s.callers && s.callers[c].Entering?
    ensures Inv(EnterStep(s, c, lost))
  {
    if c.slot.key != "" && c.slot.principal != "" && c.slot !in s.claims {
      ClaimKeeps(s, c);
      var t := s.(claims := s.claims[c.slot := Claim(None, true, c)], callers := s.callers[c := Failed]);
      GoKeeps(t, c, Unless(lost, Won));
      assert Go(t, c, Unless(lost, Won)) == EnterStep(s, c, lost);
    } else {
      assert c.slot in s.claims ==> ClaimOk(s, c.slot, s.claims[c.slot]);
      GoKeeps(s, c, EnterStep(s, c, lost).callers[c]);
    }
  }

  lemma PollKeeps(s: State, c: Caller)
    requires Inv(s) && c in s.callers && s.callers[c].Polling?
    ensures Inv(PollStep(s, c, s.callers[c].attempt))
  {
    assert c.slot.key != "" ==> CallerOk(s, c, s.callers[c]);
    assert c.slot in s.claims ==> ClaimOk(s, c.slot, s.claims[c.slot]);
    GoKeeps(s, c, PollPhase(ClaimRow(s, c.slot), s.callers[c].attempt));
  }

  /** The message row appears, its inserter still to be told. */
  lemma MessageKeeps(s: State, c: Caller, id: string)
    requires Inv(s) && c in s.callers && s.callers[c].Won? && id !in s.messages
    ensures Inv(s.(messages := s.messages[id := c], callers := s.callers[c := Failed]))
  {
    var t := s.(messages := s.messages[id := c], callers := s.callers[c := Failed]);
    assert c.slot.key != "" ==> CallerOk(s, c, Won);
    forall k | k in t.claims ensures ClaimOk(t, k, t.claims[k]) {
      assert ClaimOk(s, k, s.claims[k]);
    }
    forall m | m in t.messages ensures MessageOk(t, t.messages[m]) {
      assert m != id ==> MessageOk(s, s.messages[m]);
    }
    forall d | d in t.callers && d.slot.key != "" ensures CallerOk(t, d, t.callers[d]) {
      assert CallerOk(s, d, s.callers[d]);
    }
  }

  lemma InsertKeeps(s: State, c: Caller, id: string, lost: bool)
    requires Inv(s) && c in s.callers && s.callers[c].Won?
    ensures Inv(InsertStep(s, c, id, lost))
  {
    if id in s.messages {
      GoKeeps(s, c, Failed);
    } else {
      MessageKeeps(s, c, id);
      assert c.slot.key != "" ==> CallerOk(s, c, Won);
      var t := s.(messages := s.messages[id := c], callers := s.callers[c := Failed]);
      GoKeeps(t, c, Unless(lost, Inserted(id)));
      assert Go(t, c, Unless(lost, Inserted(id))) == InsertStep(s, c, id, lost);
    }
  }

  /** The id is recorded, the caller still to be told. */
  lemma FillKeeps(s: State, c: Caller, id: string)
    requires Inv(s) && c in s.callers && s.callers[c] == Inserted(id) && c.slot.key != ""
    ensures Inv(s.(claims := s.claims[c.slot := Claim(Some(id), false, c)], callers := s.callers[c := Failed]))
  {
    var t := s.(claims := s.claims[c.slot := Claim(Some(id), false, c)], callers := s.callers[c := Failed]);
    assert CallerOk(s, c, Inserted(id));
    forall k | k in t.claims ensures ClaimOk(t, k, t.claims[k]) {
      assert ClaimOk(s, k, s.claims[k]);
    }
    forall m | m in t.messages ensures MessageOk(t, t.messages[m]) {
      assert MessageOk(s, s.messages[m]);
    }
    forall d | d in t.callers && d.slot.key != "" ensures CallerOk(t, d, t.callers[d]) {
      assert CallerOk(s, d, s.callers[d]);
    }
  }

  lemma RecordKeeps(s: State, c: Caller, lost: bool)
    requires Inv(s) && c in s.callers && s.callers[c].Inserted?
    ensures Inv(RecordStep(s, c, s.callers[c].id, lost))
  {
    var id := s.callers[c].id;
    if c.slot.key != "" {
      assert CallerOk(s, c, Inserted(id));
      FillKeeps(s, c, id);
      var t := s.(claims := s.claims[c.slot := Claim(Some(id), false, c)], callers := s.callers[c := Failed]);
      GoKeeps(t, c, Unless(lost, Recorded(id)));
      assert Go(t, c, Unless(lost, Recorded(id))) == RecordStep(s, c, id, lost);
    } else {
      GoKeeps(s, c, Unless(lost, Recorded(id)));
    }
  }

  lemma StepKeeps(s: State, step: Step)
    requires Inv(s)
    ensures Inv(Apply(s, step))
  {
    var c := step.who;
    if Moves(s, step) {
      assert c.slot.key != "" ==> CallerOk(s, c, s.callers[c]);
      match step.act
      case Enter(lost) => EnterKeeps(s, c, lost);
      case Poll => PollKeeps(s, c);
      case Insert(id, lost) => InsertKeeps(s, c, id, lost);
      case Record(lost) => RecordKeeps(s, c, lost);
      case Finish => GoKeeps(s, c, Returned(s.callers[c].id, true));
      case Fail => GoKeeps(s, c, Failed);
    } else if step.act.Start? && c !in s.callers {
      GoKeeps(s, c, Entering);
    }
  }

  lemma {:induction false} RunKeeps(steps: seq<Step>)
    ensures Inv(Run(steps))
  {
    if steps != [] {
      RunKeeps(steps[..|steps| - 1]);
      StepKeeps(Run(steps[..|steps| - 1]), steps[|steps| - 1]);
    }
  }

  // ---------- what holds of every run ----------

  predicate PastClaim(p: Phase) {
    p.Won? || p.Inserted? || p.Recorded? || (p.Returned? && p.winner)
  }

  lemma OwnerStaysStep(s: State, step: Step, k: Slot)
    requires k in s.claims
    ensures k in Apply(s, step).claims && Apply(s, step).claims[k].owner == s.claims[k].owner
  {
  }

  /** A claim is never taken away from the caller that inserted it. */
  lemma {:induction false} OwnerStays(steps: seq<Step>, m: nat, k: Slot)
    requires m <= |steps| && k in Run(steps[..m]).claims
    ensures k in Run(steps).claims && Run(steps).claims[k].owner == Run(steps[..m]).claims[k].owner
  {
    if m == |steps| {
      assert steps[..m] == steps;
    } else {
      var front := steps[..|steps| - 1];
      assert front[..m] == steps[..m];
      OwnerStays(front, m, k);
      OwnerStaysStep(Run(front), steps[|steps| - 1], k);
    }
  }

  lemma PastClaimOwns(steps: seq<Step>, a: Caller)
    requires a.slot.key != "" && a in Run(steps).callers && PastClaim(Run(steps).callers[a])
    ensures a.slot in Run(steps).claims && Run(steps).claims[a.slot].owner == a
  {
    RunKeeps(steps);
    assert CallerOk(Run(steps), a, Run(steps).callers[a]);
  }

  /** At most one caller ever gets past the claim under a key, at whatever time and whatever
      becomes of it afterwards, and at most one message row is ever created under the key,
      by that caller. */
  lemma OneWinner(steps: seq<Step>, m: nat, a: Caller, b: Caller)
    requires m <= |steps| && a.slot == b.slot && a.slot.key != ""
    requires a in Run(steps[..m]).callers && b in Run(steps).callers
    ensures PastClaim(Run(steps[..m]).callers[a]) && PastClaim(Run(steps).callers[b]) ==> a == b
    ensures
      var s := Run(steps);
      forall x, y :: x in s.messages && y in s.messages && s.messages[x] == a && s.messages[y] == b ==> x == y && a == b
    ensures
      PastClaim(Run(steps[..m]).callers[a]) ==>
        forall x :: x in Run(steps).messages && Run(steps).messages[x] == b ==> a == b
  {
    RunKeeps(steps);
    var s := Run(steps);
    if PastClaim(Run(steps[..m]).callers[a]) {
      PastClaimOwns(steps[..m], a);
      OwnerStays(steps, m, a.slot);
    }
    if PastClaim(s.callers[b]) {
      PastClaimOwns(steps, b);
    }
    forall x | x in s.messages ensures MessageOk(s, s.messages[x]) {
    }
  }

  /** Whatever id any caller is given under a key is the id of the one row under that key. */
  lemma ReturnedIdsAreTheRow(steps: seq<Step>, a: Caller)
    requires a in Run(steps).callers && a.slot.key != "" && Run(steps).callers[a].Returned?
    ensures
      var s := Run(steps);
      var id := s.callers[a].id;
      && id in s.messages && s.messages[id].slot == a.slot
      && (s.callers[a].winner <==> s.messages[id] == a)
      && forall x :: x in s.messages && s.messages[x].slot == a.slot ==> x == id
  {
    RunKeeps(steps);
    var s := Run(steps);
    assert CallerOk(s, a, s.callers[a]);
    assert ClaimOk(s, a.slot, s.claims[a.slot]);
  }

  /** A claim is unlocked exactly when its message id is set. */
  lemma UnlockedIffRecorded(steps: seq<Step>, k: Slot)
    requires k in Run(steps).claims
    ensures !Run(steps).claims[k].locked <==> Run(steps).claims[k].messageId.Some?
  {
    RunKeeps(steps);
    assert ClaimOk(Run(steps), k, Run(steps).claims[k]);
  }

  // ---------- what each caller is told ----------

  lemma RunThen(steps: seq<Step>, last: Step)
    ensures Run(steps + [last]) == Apply(Run(steps), last)
  {
    assert (steps + [last])[..|steps|] == steps;
  }

  predicate IsPolling(s: State, c: Caller) {
    c in s.callers && s.callers[c].Polling?
  }

  /** A call that fails, by an error or in the end by a lost result, stays failed: it never
      returns an id, although its rows may be there. */
  lemma {:induction false} FailedStaysFailed(steps: seq<Step>, c: Caller, more: seq<Step>)
    requires c in Run(steps).callers && Moves(Run(steps), Step(c, Fail))
    ensures
      var t := Run(steps + [Step(c, Fail)] + more);
      c in t.callers && t.callers[c].Failed?
  {
    var failed := steps + [Step(c, Fail)];
    if more == [] {
      RunThen(steps, Step(c, Fail));
      assert failed + more == failed;
    } else {
      var front, last := more[..|more| - 1], more[|more| - 1];
      FailedStaysFailed(steps, c, front);
      assert failed + more == (failed + front) + [last];
      RunThen(failed + front, last);
      if last.who != c {
        OthersLeaveMe(Run(failed + front), last, c);
      }
    }
  }

  /** How often a caller has looked at the claim row. */
  ghost function Looks(steps: seq<Step>, c: Caller): nat {
    if steps == [] then 0
    else
      var front := steps[..|steps| - 1];
      Looks(front, c) + if steps[|steps| - 1] == Step(c, Poll) && IsPolling(Run(front), c) then 1 else 0
  }

  /** Looks taken by a caller in this phase, where the phase tells. */
  predicate LooksOk(p: Phase, looks: nat) {
    && (p.Entering? ==> looks == 0)
    && (p.Polling? ==> looks == p.attempt < POLLS)
    && (p.InProgress? ==> looks <= POLLS)
  }

  lemma OthersLeaveMe(s: State, step: Step, c: Caller)
    requires step.who != c
    ensures c in Apply(s, step).callers <==> c in s.callers
    ensures c in s.callers ==> Apply(s, step).callers[c] == s.callers[c]
  {
    OneCallerMoves(s, step);
  }

  predicate OnlyMoves(s: State, t: State, c: Caller) {
    c in t.callers && t.callers == s.callers[c := t.callers[c]]
  }

  lemma EnterMoves(s: State, c: Caller, lost: bool)
    ensures OnlyMoves(s, EnterStep(s, c, lost), c)
  {
  }

  lemma RecordMoves(s: State, c: Caller, id: string, lost: bool)
    ensures OnlyMoves(s, RecordStep(s, c, id, lost), c)
  {
  }

  lemma InsertMoves(s: State, c: Caller, id: string, lost: bool)
    ensures OnlyMoves(s, InsertStep(s, c, id, lost), c)
  {
  }

  lemma OneCallerMoves(s: State, step: Step)
    ensures Apply(s, step).callers == s.callers || OnlyMoves(s, Apply(s, step), step.who)
  {
    if Moves(s, step) {
      var c := step.who;
      match step.act
      case Enter(lost) => EnterMoves(s, c, lost);
      case Insert(id, lost) => InsertMoves(s, c, id, lost);
      case Record(lost) => RecordMoves(s, c, s.callers[c].id, lost);
      case _ =>
    }
  }

  lemma OwnLook(s: State, step: Step, looks: nat)
    requires step.who in s.callers && LooksOk(s.callers[step.who], looks)
    requires IsPolling(s, step.who) ==> step.who.slot.key != ""
    ensures var t := Apply(s, step);
            && step.who in t.callers && (IsPolling(t, step.who) ==> step.who.slot.key != "")
            && LooksOk(t.callers[step.who], looks + if step.act.Poll? && IsPolling(s, step.who) then 1 else 0)
  {
  }

  lemma {:induction false} LooksAreCounted(steps: seq<Step>, c: Caller)
    ensures c !in Run(steps).callers ==> Looks(steps, c) == 0
    ensures c in Run(steps).callers ==> LooksOk(Run(steps).callers[c], Looks(steps, c))
    ensures IsPolling(Run(steps), c) ==> c.slot.key != ""
  {
    if steps != [] {
      var front, last := steps[..|steps| - 1], steps[|steps| - 1];
      LooksAreCounted(front, c);
      if last.who != c {
        OthersLeaveMe(Run(front), last, c);
      } else if c in Run(front).callers {
        OwnLook(Run(front), last, Looks(front, c));
      }
    }
  }

  /** The row a key stands for: the only one under it, inserted by the claim's owner. */
  ghost predicate TheRow(s: State, k: Slot, id: string) {
    && id in s.messages && s.messages[id].slot == k
    && forall x :: x in s.messages && s.messages[x].slot == k ==> x == id
  }

  /** A look at the claim, after any run: with an id recorded the caller is given the id of
      the one row under its key, and is told that it is not fresh; with none recorded the
      caller looks again, and gives up with `in progress` exactly at its fifth look. */
  lemma PollIsAnswered(steps: seq<Step>, c: Caller)
    requires IsPolling(Run(steps), c)
    ensures
      var s, t := Run(steps), Run(steps + [Step(c, Poll)]);
      && c.slot in s.claims && c in t.callers && t.claims == s.claims && t.messages == s.messages
      && (match s.claims[c.slot].messageId
          case Some(id) => t.callers[c] == Returned(id, false) && TheRow(s, c.slot, id)
          case None =>
            if Looks(steps, c) == 4 then t.callers[c].InProgress?
            else Looks(steps, c) < 4 && t.callers[c] == Polling(Looks(steps, c) + 1))
  {
    RunKeeps(steps);
    LooksAreCounted(steps, c);
    RunThen(steps, Step(c, Poll));
    var s := Run(steps);
    assert CallerOk(s, c, s.callers[c]);
    assert ClaimOk(s, c.slot, s.claims[c.slot]);
  }

  predicate Refused(s: State, c: Caller) {
    c in s.callers && s.callers[c].InProgress?
  }

  lemma OnlyALookRefuses(s: State, step: Step, c: Caller)
    ensures Refused(Apply(s, step), c) && !Refused(s, c) ==> step == Step(c, Poll) && IsPolling(s, c)
  {
    if step.who != c {
      OthersLeaveMe(s, step, c);
    }
  }

  /** A caller is told `in progress` only by a look that found no id, and that look was its
      fifth. */
  lemma {:induction false} InProgressAfterFiveLooks(steps: seq<Step>, c: Caller) returns (n: nat)
    requires Refused(Run(steps), c)
    ensures n < |steps| && steps[n] == Step(c, Poll) && IsPolling(Run(steps[..n]), c) && Looks(steps[..n], c) == 4
    ensures c.slot in Run(steps[..n]).claims && Run(steps[..n]).claims[c.slot].messageId.None?
  {
    var front, last := steps[..|steps| - 1], steps[|steps| - 1];
    var s := Run(front);
    if Refused(s, c) {
      n := InProgressAfterFiveLooks(front, c);
      assert front[..n] == steps[..n] && front[n] == steps[n];
    } else {
      n := |front|;
      OnlyALookRefuses(s, last, c);
      assert steps == front + [last];
      PollIsAnswered(front, c);
    }
  }

  /** A caller that finds its key free and is not interrupted creates the row and is told
      that it is fresh. */
  lemma FirstCallerSucceeds(steps: seq<Step>, c: Caller, id: string)
    requires c !in Run(steps).callers && c.slot.key != "" && c.slot.principal != ""
    requires c.slot !in Run(steps).claims && id !in Run(steps).messages
    ensures
      var s := Run(steps);
      Run(steps + [Step(c, Start), Step(c, Enter(false)), Step(c, Insert(id, false)), Step(c, Record(false)),
                   Step(c, Finish)]) ==
      State(s.claims[c.slot := Claim(Some(id), false, c)], s.messages[id := c], s.callers[c := Returned(id, true)])
  {
    var s := Run(steps);
    var claimed := s.(claims := s.claims[c.slot := Claim(None, true, c)]);
    var r2 := steps + [Step(c, Start)] + [Step(c, Enter(false))];
    ClaimFirst(steps, c);
    RowAndRecord(claimed, r2, c, id);
    assert claimed.claims[c.slot := Claim(Some(id), false, c)] == s.claims[c.slot := Claim(Some(id), false, c)];
    assert r2 + [Step(c, Insert(id, false)), Step(c, Record(false)), Step(c, Finish)] ==
           steps + [Step(c, Start), Step(c, Enter(false)), Step(c, Insert(id, false)), Step(c, Record(false)),
                    Step(c, Finish)];
  }

  lemma ClaimFirst(steps: seq<Step>, c: Caller)
    requires c !in Run(steps).callers && c.slot.key != "" && c.slot.principal != "" && c.slot !in Run(steps).claims
    ensures
      var s := Run(steps);
      Run(steps + [Step(c, Start)] + [Step(c, Enter(false))]) ==
      Go(s.(claims := s.claims[c.slot := Claim(None, true, c)]), c, Won)
  {
    var s := Run(steps);
    RunThen(steps, Step(c, Start));
    RunThen(steps + [Step(c, Start)], Step(c, Enter(false)));
    GoTwice(s.(claims := s.claims[c.slot := Claim(None, true, c)]), c, Entering, Won);
  }

  lemma GoTwice(s: State, c: Caller, p: Phase, q: Phase)
    ensures Go(Go(s, c, p), c, q) == Go(s, c, q)
  {
    assert s.callers[c := p][c := q] == s.callers[c := q];
  }

  lemma InsertFrom(s: State, c: Caller, id: string)
    requires id !in s.messages
    ensures Apply(Go(s, c, Won), Step(c, Insert(id, false))) == Go(s.(messages := s.messages[id := c]), c, Inserted(id))
  {
    GoTwice(s.(messages := s.messages[id := c]), c, Won, Inserted(id));
  }

  lemma RecordFrom(s: State, c: Caller, id: string)
    requires c.slot.key != "" && c.slot in s.claims && s.claims[c.slot] == Claim(None, true, c)
    ensures Apply(Go(s, c, Inserted(id)), Step(c, Record(false))) ==
            Go(s.(claims := s.claims[c.slot := Claim(Some(id), false, c)]), c, Recorded(id))
  {
    GoTwice(s.(claims := s.claims[c.slot := Claim(Some(id), false, c)]), c, Inserted(id), Recorded(id));
  }

  lemma RowAndRecord(s: State, r: seq<Step>, c: Caller, id: string)
    requires Run(r) == Go(s, c, Won) && id !in s.messages
    requires c.slot.key != "" && c.slot in s.claims && s.claims[c.slot] == Claim(None, true, c)
    ensures Run(r + [Step(c, Insert(id, false)), Step(c, Record(false)), Step(c, Finish)]) ==
            State(s.claims[c.slot := Claim(Some(id), false, c)], s.messages[id := c],
                  s.callers[c := Returned(id, true)])
  {
    var stored := s.(messages := s.messages[id := c]);
    var filled := stored.(claims := s.claims[c.slot := Claim(Some(id), false, c)]);
    RunThen(r, Step(c, Insert(id, false)));
    InsertFrom(s, c, id);
    var r1 := r + [Step(c, Insert(id, false))];
    RunThen(r1, Step(c, Record(false)));
    RecordFrom(stored, c, id);
    var r2 := r1 + [Step(c, Record(false))];
    RunThen(r2, Step(c, Finish));
    GoTwice(filled, c, Recorded(id), Returned(id, true));
    assert r2 + [Step(c, Finish)] == r + [Step(c, Insert(id, false)), Step(c, Record(false)), Step(c, Finish)];
  }

  /** Without a key every uninterrupted call creates a row of its own, and no claim. */
  lemma KeylessCallSucceeds(steps: seq<Step>, c: Caller, id: string)
    requires c !in Run(steps).callers && c.slot.key == "" && id !in Run(steps).messages
    ensures
      var s := Run(steps);
      Run(steps + [Step(c, Start), Step(c, Enter(false)), Step(c, Insert(id, false)), Step(c, Record(false)),
                   Step(c, Finish)]) ==
      State(s.claims, s.messages[id := c], s.callers[c := Returned(id, true)])
  {
    var s := Run(steps);
    RunThen(steps, Step(c, Start));
    var r1 := steps + [Step(c, Start)];
    RunThen(r1, Step(c, Enter(false)));
    GoTwice(s, c, Entering, Won);
    var r2 := r1 + [Step(c, Enter(false))];
    assert Run(r2) == Go(s, c, Won);
    KeylessRow(s, r2, c, id);
    assert r2 + [Step(c, Insert(id, false)), Step(c, Record(false)), Step(c, Finish)] ==
           steps + [Step(c, Start), Step(c, Enter(false)), Step(c, Insert(id, false)), Step(c, Record(false)),
                    Step(c, Finish)];
  }

  lemma KeylessRow(s: State, r: seq<Step>, c: Caller, id: string)
    requires Run(r) == Go(s, c, Won) && id !in s.messages && c.slot.key == ""
    ensures Run(r + [Step(c, Insert(id, false)), Step(c, Record(false)), Step(c, Finish)]) ==
            State(s.claims, s.messages[id := c], s.callers[c := Returned(id, true)])
  {
    var stored := s.(messages := s.messages[id := c]);
    RunThen(r, Step(c, Insert(id, false)));
    InsertFrom(s, c, id);
    var r1 := r + [Step(c, Insert(id, false))];
    RunThen(r1, Step(c, Record(false)));
    GoTwice(stored, c, Inserted(id), Recorded(id));
    var r2 := r1 + [Step(c, Record(false))];
    RunThen(r2, Step(c, Finish));
    GoTwice(stored, c, Recorded(id), Returned(id, true));
    assert r2 + [Step(c, Finish)] == r + [Step(c, Insert(id, false)), Step(c, Record(false)), Step(c, Finish)];
  }

  /** A call repeated under a key whose message is recorded is given that message's id at its
      first look. */
  lemma RetryIsGivenTheRow(steps: seq<Step>, c: Caller)
    requires c !in Run(steps).callers && c.slot.principal != ""
    requires c.slot in Run(steps).claims && Run(steps).claims[c.slot].messageId.Some?
    ensures
      var s, t := Run(steps), Run(steps + [Step(c, Start), Step(c, Enter(false)), Step(c, Poll)]);
      var id := s.claims[c.slot].messageId.value;
      && TheRow(s, c.slot, id) && t == s.(callers := s.callers[c := Returned(id, false)])
  {
    var s := Run(steps);
    RunKeeps(steps);
    assert ClaimOk(s, c.slot, s.claims[c.slot]);
    var r1 := steps + [Step(c, Start)];
    RunThen(steps, Step(c, Start));
    var r2 := r1 + [Step(c, Enter(false))];
    RunThen(r1, Step(c, Enter(false)));
    RunThen(r2, Step(c, Poll));
    assert r2 + [Step(c, Poll)] == steps + [Step(c, Start), Step(c, Enter(false)), Step(c, Poll)];
  }

  // ---------- slots do not interfere ----------

  /** The steps of the callers of one slot, the others left out. */
  function Only(steps: seq<Step>, k: Slot): seq<Step> {
    if steps == [] then []
    else
      var rest := Only(steps[..|steps| - 1], k);
      if steps[|steps| - 1].who.slot == k then rest + [steps[|steps| - 1]] else rest
  }

  /** Generated ids do not collide between slots. */
  predicate IdsApart(steps: seq<Step>) {
    forall i, j | 0 <= i < |steps| && 0 <= j < |steps| && steps[i].act.Insert? && steps[j].act.Insert? ::
      steps[i].act.id == steps[j].act.id ==> steps[i].who.slot == steps[j].who.slot
  }

  predicate CameFrom(steps: seq<Step>, id: string, k: Slot) {
    exists i :: 0 <= i < |steps| && steps[i].act.Insert? && steps[i].act.id == id && steps[i].who.slot == k
  }

  /** The two states look the same to the callers of `k`. */
  predicate SameFor(s: State, t: State, k: Slot) {
    && (k in s.claims <==> k in t.claims)
    && (k in s.claims ==> s.claims[k] == t.claims[k])
    && (forall c :: c in s.callers && c.slot == k ==> c in t.callers)
    && (forall c :: c in t.callers && c.slot == k ==> c in s.callers)
    && (forall c :: c in s.callers && c.slot == k ==> s.callers[c] == t.callers[c])
    && (forall id :: id in s.messages && s.messages[id].slot == k ==>
        id in t.messages && t.messages[id] == s.messages[id])
    && (forall id :: id in t.messages && t.messages[id].slot == k ==>
        id in s.messages && t.messages[id] == s.messages[id])
  }

  lemma {:induction false} IdsComeFromSteps(steps: seq<Step>, id: string)
    requires id in Run(steps).messages
    ensures CameFrom(steps, id, Run(steps).messages[id].slot)
  {
    var front := steps[..|steps| - 1];
    var last := steps[|steps| - 1];
    var s := Run(front);
    if id in s.messages {
      IdsComeFromSteps(front, id);
      var i :| 0 <= i < |front| && front[i].act.Insert? && front[i].act.id == id &&
          front[i].who.slot == s.messages[id].slot;
      assert steps[i] == front[i];
    } else {
      assert last.act.Insert? && last.act.id == id;
    }
  }

  lemma GoAgrees(s: State, t: State, c: Caller, p: Phase, k: Slot)
    requires SameFor(s, t, k)
    ensures SameFor(Go(s, c, p), Go(t, c, p), k)
    ensures c.slot != k ==> SameFor(Go(s, c, p), t, k)
  {
  }

  lemma ClaimAgrees(s: State, t: State, k: Slot, own: Slot, claim: Claim)
    requires SameFor(s, t, k)
    ensures SameFor(s.(claims := s.claims[own := claim]), t.(claims := t.claims[own := claim]), k)
    ensures own != k ==> SameFor(s.(claims := s.claims[own := claim]), t, k)
  {
  }

  lemma RowAgrees(s: State, t: State, k: Slot, c: Caller, id: string)
    requires SameFor(s, t, k) && id !in s.messages && id !in t.messages
    ensures SameFor(s.(messages := s.messages[id := c]), t.(messages := t.messages[id := c]), k)
    ensures c.slot != k ==> SameFor(s.(messages := s.messages[id := c]), t, k)
  {
  }

  /** The two statements that write a table, as another slot sees them. */
  lemma ClaimStepHidden(s: State, c: Caller, claim: Claim, p: Phase, k: Slot)
    requires c.slot != k
    ensures SameFor(Go(s.(claims := s.claims[c.slot := claim]), c, p), s, k)
  {
    ClaimAgrees(s, s, k, c.slot, claim);
    GoAgrees(s.(claims := s.claims[c.slot := claim]), s, c, p, k);
  }

  lemma RowStepHidden(s: State, c: Caller, id: string, p: Phase, k: Slot)
    requires c.slot != k && id !in s.messages
    ensures SameFor(Go(s.(messages := s.messages[id := c]), c, p), s, k)
  {
    RowAgrees(s, s, k, c, id);
    GoAgrees(s.(messages := s.messages[id := c]), s, c, p, k);
  }

  lemma EnterHidden(s: State, c: Caller, lost: bool, k: Slot)
    requires c.slot != k
    ensures SameFor(EnterStep(s, c, lost), s, k)
  {
    if c.slot.key == "" || c.slot.principal == "" || c.slot in s.claims {
      GoAgrees(s, s, c, EnterStep(s, c, lost).callers[c], k);
    } else {
      ClaimStepHidden(s, c, Claim(None, true, c), Unless(lost, Won), k);
    }
  }

  lemma RecordHidden(s: State, c: Caller, id: string, lost: bool, k: Slot)
    requires c.slot != k
    ensures SameFor(RecordStep(s, c, id, lost), s, k)
  {
    GoAgrees(s, s, c, Unless(lost, Recorded(id)), k);
    if c.slot in s.claims {
      ClaimStepHidden(s, c, s.claims[c.slot].(messageId := Some(id), locked := false), Unless(lost, Recorded(id)), k);
    }
  }

  lemma InsertHidden(s: State, c: Caller, id: string, lost: bool, k: Slot)
    requires c.slot != k
    ensures SameFor(InsertStep(s, c, id, lost), s, k)
  {
    if id in s.messages {
      GoAgrees(s, s, c, Failed, k);
    } else {
      RowStepHidden(s, c, id, Unless(lost, Inserted(id)), k);
    }
  }

  lemma PollHidden(s: State, c: Caller, attempt: nat, k: Slot)
    requires c.slot != k
    ensures SameFor(PollStep(s, c, attempt), s, k)
  {
    GoAgrees(s, s, c, PollPhase(ClaimRow(s, c.slot), attempt), k);
  }

  lemma SameForItself(s: State, k: Slot)
    ensures SameFor(s, s, k)
  {
  }

  /** A step of another slot changes nothing that `k` can see. */
  lemma OtherSlotIsInvisible(s: State, step: Step, k: Slot)
    requires step.who.slot != k
    ensures SameFor(Apply(s, step), s, k)
  {
    var c := step.who;
    SameForItself(s, k);
    if Moves(s, step) {
      var p := s.callers[c];
      match step.act
      case Enter(lost) => EnterHidden(s, c, lost, k);
      case Poll => PollHidden(s, c, p.attempt, k);
      case Insert(id, lost) => InsertHidden(s, c, id, lost, k);
      case Record(lost) => RecordHidden(s, c, p.id, lost, k);
      case Finish => GoAgrees(s, s, c, Returned(p.id, true), k);
      case Fail => GoAgrees(s, s, c, Failed, k);
    } else if step.act.Start? {
      GoAgrees(s, s, c, Entering, k);
    }
  }

  lemma EnterAgrees(s: State, t: State, c: Caller, lost: bool)
    requires SameFor(s, t, c.slot)
    ensures SameFor(EnterStep(s, c, lost), EnterStep(t, c, lost), c.slot)
  {
    if c.slot.key == "" || c.slot.principal == "" || c.slot in s.claims {
      GoAgrees(s, t, c, EnterStep(s, c, lost).callers[c], c.slot);
    } else {
      var claim := Claim(None, true, c);
      ClaimAgrees(s, t, c.slot, c.slot, claim);
      GoAgrees(s.(claims := s.claims[c.slot := claim]), t.(claims := t.claims[c.slot := claim]), c,
          Unless(lost, Won), c.slot);
    }
  }

  lemma InsertAgrees(s: State, t: State, c: Caller, id: string, lost: bool)
    requires SameFor(s, t, c.slot) && (id in s.messages <==> id in t.messages)
    ensures SameFor(InsertStep(s, c, id, lost), InsertStep(t, c, id, lost), c.slot)
  {
    if id in s.messages {
      GoAgrees(s, t, c, Failed, c.slot);
    } else {
      RowAgrees(s, t, c.slot, c, id);
      GoAgrees(s.(messages := s.messages[id := c]), t.(messages := t.messages[id := c]), c,
          Unless(lost, Inserted(id)), c.slot);
    }
  }

  lemma RecordAgrees(s: State, t: State, c: Caller, id: string, lost: bool)
    requires SameFor(s, t, c.slot)
    ensures SameFor(RecordStep(s, c, id, lost), RecordStep(t, c, id, lost), c.slot)
  {
    if c.slot in s.claims {
      var claim := s.claims[c.slot].(messageId := Some(id), locked := false);
      ClaimAgrees(s, t, c.slot, c.slot, claim);
      GoAgrees(s.(claims := s.claims[c.slot := claim]), t.(claims := t.claims[c.slot := claim]), c,
          Unless(lost, Recorded(id)), c.slot);
    }
    GoAgrees(s, t, c, Unless(lost, Recorded(id)), c.slot);
  }

  lemma PollAgrees(s: State, t: State, c: Caller, attempt: nat)
    requires SameFor(s, t, c.slot)
    ensures SameFor(PollStep(s, c, attempt), PollStep(t, c, attempt), c.slot)
  {
    GoAgrees(s, t, c, PollPhase(ClaimRow(s, c.slot), attempt), c.slot);
  }

  /** A step of `k` depends only on what `k` can see. */
  lemma OwnStepAgrees(s: State, t: State, step: Step)
    requires SameFor(s, t, step.who.slot)
    requires step.act.Insert? ==> (step.act.id in s.messages <==> step.act.id in t.messages)
    ensures SameFor(Apply(s, step), Apply(t, step), step.who.slot)
  {
    var c := step.who;
    assert Moves(s, step) == Moves(t, step);
    if Moves(s, step) {
      var p := s.callers[c];
      match step.act
      case Enter(lost) => EnterAgrees(s, t, c, lost);
      case Poll => PollAgrees(s, t, c, p.attempt);
      case Insert(id, lost) => InsertAgrees(s, t, c, id, lost);
      case Record(lost) => RecordAgrees(s, t, c, p.id, lost);
      case Finish => GoAgrees(s, t, c, Returned(p.id, true), c.slot);
      case Fail => GoAgrees(s, t, c, Failed, c.slot);
    } else if step.act.Start? {
      GoAgrees(s, t, c, Entering, c.slot);
    }
  }

  lemma SameForTrans(s: State, t: State, u: State, k: Slot)
    requires SameFor(s, t, k) && SameFor(t, u, k)
    ensures SameFor(s, u, k)
  {
  }

  lemma {:induction false} OnlyKeepsInserts(steps: seq<Step>, id: string, k: Slot, kept: Slot)
    requires CameFrom(Only(steps, k), id, kept)
    ensures CameFrom(steps, id, kept)
  {
    var front := steps[..|steps| - 1];
    var last := steps[|steps| - 1];
    var some := Only(steps, k);
    var i :| 0 <= i < |some| && some[i].act.Insert? && some[i].act.id == id && some[i].who.slot == kept;
    if i < |Only(front, k)| {
      assert Only(front, k)[i] == some[i];
      OnlyKeepsInserts(front, id, k, kept);
      var j :| 0 <= j < |front| && front[j].act.Insert? && front[j].act.id == id && front[j].who.slot == kept;
      assert steps[j] == front[j];
    } else {
      assert some[i] == last;
    }
  }

  /** A clash of ids is a clash within the slot, so both runs see it. */
  lemma SameClash(steps: seq<Step>, some: seq<Step>, last: Step)
    requires last.act.Insert? && IdsApart(steps + [last]) && some == Only(steps, last.who.slot)
    requires SameFor(Run(steps), Run(some), last.who.slot)
    ensures last.act.id in Run(steps).messages <==> last.act.id in Run(some).messages
  {
    var id := last.act.id;
    var all := steps + [last];
    if id in Run(steps).messages {
      IdsComeFromSteps(steps, id);
      var i :| 0 <= i < |steps| && steps[i].act.Insert? && steps[i].act.id == id &&
          steps[i].who.slot == Run(steps).messages[id].slot;
      assert all[i] == steps[i] && all[|steps|] == last;
    }
    if id in Run(some).messages {
      IdsComeFromSteps(some, id);
      OnlyKeepsInserts(steps, id, last.who.slot, Run(some).messages[id].slot);
      var i :| 0 <= i < |steps| && steps[i].act.Insert? && steps[i].act.id == id &&
          steps[i].who.slot == Run(some).messages[id].slot;
      assert all[i] == steps[i] && all[|steps|] == last;
    }
  }

  /** Different principals, and different keys of one principal, never interfere: leaving
      out everybody else's steps gives the same claim, rows and outcomes. */
  lemma {:induction false} NoInterference(steps: seq<Step>, k: Slot)
    requires IdsApart(steps)
    ensures SameFor(Run(steps), Run(Only(steps, k)), k)
  {
    if steps != [] {
      var front := steps[..|steps| - 1];
      var last := steps[|steps| - 1];
      var some := Only(front, k);
      assert steps == front + [last];
      NoInterference(front, k);
      if last.who.slot == k {
        if last.act.Insert? { SameClash(front, some, last); }
        OwnStepAgrees(Run(front), Run(some), last);
        assert (some + [last])[..|some|] == some;
      } else {
        OtherSlotIsInvisible(Run(front), last, k);
        SameForTrans(Run(steps), Run(front), Run(some), k);
      }
    }
  }
}
