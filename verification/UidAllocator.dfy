/** The per-mailbox counters: update, else insert-or-ignore, else update again, each one
    atomic statement whose result the caller may never see. The change-id allocator is the
    same protocol over a row without a validity. */
module UidAllocator {
  datatype Counter = Counter(next: nat, validity: nat)

  /** What the caller learns of a statement: its result, an error although it committed, or
      an error because it did not run. */
  datatype Outcome = Told | Lost | NotRun

  /** `insertFailed` records whether this call's own insert ended in an error. */
  datatype Phase =
    | Updating
    | Inserting
    | Retrying(insertFailed: bool)
    | Got(uid: nat, validity: nat)
    | LostBothRaces(insertFailed: bool)
    | Failed

  datatype Call = Call(mailbox: string, phase: Phase)

  /** One committed increment, in commit order; `told` if its caller received the number. */
  datatype Grant = Grant(mailbox: string, uid: nat, validity: nat, call: nat, told: bool)

  datatype State = State(counters: map<string, Counter>, calls: seq<Call>, grants: seq<Grant>)

  datatype Step =
    | Start(mailbox: string)
    | Update(i: nat, outcome: Outcome)
    | Insert(i: nat, outcome: Outcome, seconds: nat)
    | Retry(i: nat, outcome: Outcome)
    | Crash(i: nat)

  const Empty := State(map[], [], [])

  function Go(s: State, i: nat, p: Phase): State
    requires i < |s.calls|
  {
    s.(calls := s.calls[i := s.calls[i].(phase := p)])
  }

  /** `UPDATE ... SET next = next + 1 ... RETURNING`, on a row that exists. */
  function Bump(s: State, i: nat, told: bool): State
    requires i < |s.calls| && s.calls[i].mailbox in s.counters
  {
    var m := s.calls[i].mailbox;
    var c := s.counters[m];
    s.(counters := s.counters[m := c.(next := c.next + 1)],
       grants := s.grants + [Grant(m, c.next, c.validity, i, told)])
  }

  /** `INSERT OR IGNORE ... VALUES (m, 2, validity)`, on a row that does not exist. */
  function Create(s: State, i: nat, seconds: nat, told: bool): State
    requires i < |s.calls|
  {
    var m := s.calls[i].mailbox;
    s.(counters := s.counters[m := Counter(2, seconds)], grants := s.grants + [Grant(m, 1, seconds, i, told)])
  }

  /** The number an update of this call would return. */
  function Offer(s: State, i: nat): Phase
    requires i < |s.calls| && s.calls[i].mailbox in s.counters
  {
    Got(s.counters[s.calls[i].mailbox].next, s.counters[s.calls[i].mailbox].validity)
  }

  predicate Exists(s: State, i: nat)
    requires i < |s.calls|
  {
    s.calls[i].mailbox in s.counters
  }

  /** One atomic statement of one call; a step that is not enabled changes nothing. */
  function Apply(s: State, step: Step): State {
    match step
    case Start(mailbox) => s.(calls := s.calls + [Call(mailbox, Updating)])
    case Update(i, outcome) =>
      if i < |s.calls| && s.calls[i].phase.Updating? then
        if outcome.NotRun? || !Exists(s, i) then Go(s, i, Inserting)
        else Go(Bump(s, i, outcome.Told?), i, if outcome.Told? then Offer(s, i) else Inserting)
      else s
    case Insert(i, outcome, seconds) =>
      if i < |s.calls| && s.calls[i].phase.Inserting? then
        if outcome.NotRun? || Exists(s, i) then Go(s, i, Retrying(!outcome.Told?))
        else Go(Create(s, i, seconds, outcome.Told?), i, if outcome.Told? then Got(1, seconds) else Retrying(true))
      else s
    case Retry(i, outcome) =>
      if i < |s.calls| && s.calls[i].phase.Retrying? then
        if outcome.NotRun? then Go(s, i, Failed)
        else if Exists(s, i) then Go(Bump(s, i, outcome.Told?), i, if outcome.Told? then Offer(s, i) else Failed)
        else Go(s, i, if outcome.Told? then LostBothRaces(s.calls[i].phase.insertFailed) else Failed)
      else s
    case Crash(i) =>
      if i < |s.calls| && (s.calls[i].phase.Updating? || s.calls[i].phase.Inserting? || s.calls[i].phase.Retrying?)
      then Go(s, i, Failed) else s
  }

  function Run(steps: seq<Step>): State {
    if steps == [] then Empty else Apply(Run(steps[..|steps| - 1]), steps[|steps| - 1])
  }

  // ---------- what every step keeps ----------

  /** How many of the first `n` increments were this mailbox's. */
  function Count(grants: seq<Grant>, m: string, n: nat): nat
    requires n <= |grants|
  {
    if n == 0 then 0 else Count(grants, m, n - 1) + if grants[n - 1].mailbox == m then 1 else 0
  }

  lemma {:induction false} CountOfPrefix(grants: seq<Grant>, g: Grant, m: string, n: nat)
    requires n <= |grants|
    ensures Count(grants + [g], m, n) == Count(grants, m, n)
  {
    if n > 0 { CountOfPrefix(grants, g, m, n - 1); }
  }

  /** The `j`-th increment handed out the next number of its mailbox. */
  predicate GrantOk(s: State, j: nat)
    requires j < |s.grants|
  {
    var g := s.grants[j];
    && g.mailbox in s.counters && g.validity == s.counters[g.mailbox].validity
    && g.uid == 1 + Count(s.grants, g.mailbox, j)
    && g.call < |s.calls| && s.calls[g.call].mailbox == g.mailbox
    && (g.told ==> s.calls[g.call].phase == Got(g.uid, g.validity))
  }

  ghost predicate CallOk(s: State, i: nat)
    requires i < |s.calls|
  {
    match s.calls[i].phase
    case Got(uid, validity) =>
      exists j :: 0 <= j < |s.grants| && s.grants[j] == Grant(s.calls[i].mailbox, uid, validity, i, true)
    case Retrying(insertFailed) => insertFailed || s.calls[i].mailbox in s.counters
    case LostBothRaces(insertFailed) => insertFailed
    case _ => true
  }

  predicate CounterOk(s: State, m: string) {
    if m in s.counters then s.counters[m].next == 1 + Count(s.grants, m, |s.grants|)
    else Count(s.grants, m, |s.grants|) == 0
  }

  ghost predicate Inv(s: State) {
    && (forall j :: 0 <= j < |s.grants| ==> GrantOk(s, j))
    && (forall i :: 0 <= i < |s.calls| ==> CallOk(s, i))
    && (forall m :: CounterOk(s, m))
  }

  lemma GoKeeps(s: State, i: nat, p: Phase)
    requires Inv(s) && i < |s.calls| && !s.calls[i].phase.Got? && !p.Got?
    requires p.Retrying? ==> p.insertFailed || s.calls[i].mailbox in s.counters
    requires p.LostBothRaces? ==> p.insertFailed
    ensures Inv(Go(s, i, p))
  {
    var t := Go(s, i, p);
    forall j | 0 <= j < |t.grants| ensures GrantOk(t, j) {
      assert GrantOk(s, j);
    }
    forall k | 0 <= k < |t.calls| ensures CallOk(t, k) {
      assert CallOk(s, k);
    }
    forall m ensures CounterOk(t, m) {
      assert CounterOk(s, m);
    }
  }

  /** A committed increment, whether or not its caller is told: `row` is the new row. */
  lemma CommitKeeps(s: State, i: nat, row: Counter, told: bool, p: Phase)
    requires Inv(s) && i < |s.calls| && !s.calls[i].phase.Got?
    requires
      var m := s.calls[i].mailbox;
      if m in s.counters then row == Counter(s.counters[m].next + 1, s.counters[m].validity) else row.next == 2
    requires if told then p == Got(row.next - 1, row.validity) else p.Inserting? || p.Failed? || p == Retrying(true)
    ensures
      var m := s.calls[i].mailbox;
      var g := Grant(m, row.next - 1, row.validity, i, told);
      Inv(Go(s.(counters := s.counters[m := row], grants := s.grants + [g]), i, p))
  {
    var m := s.calls[i].mailbox;
    var g := Grant(m, row.next - 1, row.validity, i, told);
    var t := Go(s.(counters := s.counters[m := row], grants := s.grants + [g]), i, p);
    assert CounterOk(s, m);
    forall j | 0 <= j < |t.grants| ensures GrantOk(t, j) {
      CountOfPrefix(s.grants, g, t.grants[j].mailbox, j);
      if j < |s.grants| { assert GrantOk(s, j); }
    }
    forall k | 0 <= k < |t.calls| ensures CallOk(t, k) {
      assert CallOk(s, k);
      CallStaysOk(s, t, i, k, g);
    }
    forall n ensures CounterOk(t, n) {
      assert CounterOk(s, n);
      CountOfPrefix(s.grants, g, n, |s.grants|);
    }
  }

  lemma CallStaysOk(s: State, t: State, i: nat, k: nat, g: Grant)
    requires i < |s.calls| == |t.calls| && k < |s.calls| && CallOk(s, k) && t.grants == s.grants + [g]
    requires t.calls == s.calls[i := t.calls[i]] && t.calls[i].mailbox == s.calls[i].mailbox
    requires forall m :: m in s.counters ==> m in t.counters
    requires t.calls[i].phase.Got? ==>
             g == Grant(s.calls[i].mailbox, t.calls[i].phase.uid, t.calls[i].phase.validity, i, true)
    requires t.calls[i].phase.Retrying? ==> t.calls[i].phase.insertFailed
    requires t.calls[i].phase.LostBothRaces? ==> t.calls[i].phase.insertFailed
    ensures CallOk(t, k)
  {
    if k == i {
      assert t.grants[|s.grants|] == g;
    } else if s.calls[k].phase.Got? {
      var p := s.calls[k].phase;
      var j :| 0 <= j < |s.grants| && s.grants[j] == Grant(s.calls[k].mailbox, p.uid, p.validity, k, true);
      assert t.grants[j] == s.grants[j];
    }
  }

  lemma StepKeeps(s: State, step: Step)
    requires Inv(s)
    ensures Inv(Apply(s, step))
  {
    match step
    case Start(mailbox) => StartKeeps(s, mailbox);
    case Update(i, outcome) => UpdateKeeps(s, i, outcome);
    case Insert(i, outcome, seconds) => InsertKeeps(s, i, outcome, seconds);
    case Retry(i, outcome) => RetryKeeps(s, i, outcome);
    case Crash(i) =>
      if i < |s.calls| && (s.calls[i].phase.Updating? || s.calls[i].phase.Inserting? || s.calls[i].phase.Retrying?) {
        GoKeeps(s, i, Failed);
      }
  }

  lemma StartKeeps(s: State, mailbox: string)
    requires Inv(s)
    ensures Inv(Apply(s, Start(mailbox)))
  {
    var t := Apply(s, Start(mailbox));
    forall j | 0 <= j < |t.grants| ensures GrantOk(t, j) {
      assert GrantOk(s, j);
    }
    forall k | 0 <= k < |t.calls| ensures CallOk(t, k) {
      assert k < |s.calls| ==> CallOk(s, k);
    }
    forall m ensures CounterOk(t, m) {
      assert CounterOk(s, m);
    }
  }

  lemma UpdateKeeps(s: State, i: nat, outcome: Outcome)
    requires Inv(s)
    ensures Inv(Apply(s, Update(i, outcome)))
  {
    if i < |s.calls| && s.calls[i].phase.Updating? {
      if outcome.NotRun? || !Exists(s, i) {
        GoKeeps(s, i, Inserting);
      } else {
        var c := s.counters[s.calls[i].mailbox];
        var next := if outcome.Told? then Offer(s, i) else Inserting;
        CommitKeeps(s, i, Counter(c.next + 1, c.validity), outcome.Told?, next);
      }
    }
  }

  lemma InsertKeeps(s: State, i: nat, outcome: Outcome, seconds: nat)
    requires Inv(s)
    ensures Inv(Apply(s, Insert(i, outcome, seconds)))
  {
    if i < |s.calls| && s.calls[i].phase.Inserting? {
      if outcome.NotRun? || Exists(s, i) {
        GoKeeps(s, i, Retrying(!outcome.Told?));
      } else {
        var next := if outcome.Told? then Got(1, seconds) else Retrying(true);
        CommitKeeps(s, i, Counter(2, seconds), outcome.Told?, next);
      }
    }
  }

  lemma RetryKeeps(s: State, i: nat, outcome: Outcome)
    requires Inv(s)
    ensures Inv(Apply(s, Retry(i, outcome)))
  {
    if i < |s.calls| && s.calls[i].phase.Retrying? {
      assert CallOk(s, i);
      if outcome.NotRun? {
        GoKeeps(s, i, Failed);
      } else if Exists(s, i) {
        var c := s.counters[s.calls[i].mailbox];
        var next := if outcome.Told? then Offer(s, i) else Failed;
        CommitKeeps(s, i, Counter(c.next + 1, c.validity), outcome.Told?, next);
      } else {
        GoKeeps(s, i, if outcome.Told? then LostBothRaces(s.calls[i].phase.insertFailed) else Failed);
      }
    }
  }

  lemma {:induction false} RunKeeps(steps: seq<Step>)
    ensures Inv(Run(steps))
  {
    if steps != [] {
      RunKeeps(steps[..|steps| - 1]);
      StepKeeps(Run(steps[..|steps| - 1]), steps[|steps| - 1]);
    } else {
      forall m ensures CounterOk(Empty, m) {
      }
    }
  }

  // ---------- what holds of every run ----------

  lemma {:induction false} CountGrows(grants: seq<Grant>, m: string, a: nat, b: nat)
    requires a <= b <= |grants|
    ensures Count(grants, m, a) <= Count(grants, m, b)
  {
    if a < b { CountGrows(grants, m, a, b - 1); }
  }

  /** Numbers handed out for a mailbox strictly increase in commit order, so no two are
      equal, and they all carry the mailbox's one validity. */
  lemma Increasing(steps: seq<Step>, a: nat, b: nat)
    requires a < b < |Run(steps).grants| && Run(steps).grants[a].mailbox == Run(steps).grants[b].mailbox
    ensures
      var g := Run(steps).grants;
      1 <= g[a].uid < g[b].uid && g[a].validity == g[b].validity
  {
    RunKeeps(steps);
    var s := Run(steps);
    assert GrantOk(s, a) && GrantOk(s, b);
    CountGrows(s.grants, s.grants[a].mailbox, a + 1, b);
  }

  /** The statement that is due in this call's phase, with this outcome. */
  predicate IsDue(s: State, step: Step, i: nat, outcome: Outcome) {
    i < |s.calls| &&
    match step
    case Update(k, o) => k == i && o == outcome && s.calls[i].phase.Updating?
    case Insert(k, o, _) => k == i && o == outcome && s.calls[i].phase.Inserting?
    case Retry(k, o) => k == i && o == outcome && s.calls[i].phase.Retrying?
    case _ => false
  }

  /** The row is there for an update, or not there for the insert that creates it. */
  predicate Increments(s: State, step: Step, i: nat)
    requires i < |s.calls|
  {
    if step.Insert? then s.calls[i].mailbox !in s.counters else s.calls[i].mailbox in s.counters
  }

  /** What a statement does that gives out `uid` for this call. */
  predicate GivesOut(s: State, t: State, i: nat, uid: nat, outcome: Outcome)
    requires i < |s.calls|
  {
    var m := s.calls[i].mailbox;
    && i < |t.calls| && m in t.counters && t.calls[i].mailbox == m
    && (m in s.counters ==> t.counters[m].validity == s.counters[m].validity)
    && t.counters == s.counters[m := Counter(uid + 1, t.counters[m].validity)]
    && t.grants == s.grants + [Grant(m, uid, t.counters[m].validity, i, outcome.Told?)]
    && (t.calls[i].phase.Got? <==> outcome.Told?)
    && (outcome.Told? ==> t.calls[i].phase == Got(uid, t.counters[m].validity))
  }

  lemma DueGivesOut(s: State, step: Step, i: nat, outcome: Outcome)
    requires IsDue(s, step, i, outcome) && !outcome.NotRun? && Increments(s, step, i)
    ensures
      var m := s.calls[i].mailbox;
      GivesOut(s, Apply(s, step), i, if m in s.counters then s.counters[m].next else 1, outcome)
  {
  }

  /** A due statement that runs and finds its row, or is the insert that creates it, gives out
      the next number: one more than all increments of that mailbox before it. The call
      returns that number exactly if it is told. */
  lemma TakesNextNumber(steps: seq<Step>, step: Step, i: nat, outcome: Outcome)
    requires IsDue(Run(steps), step, i, outcome) && !outcome.NotRun? && Increments(Run(steps), step, i)
    ensures
      var s := Run(steps);
      GivesOut(s, Apply(s, step), i, Count(s.grants, s.calls[i].mailbox, |s.grants|) + 1, outcome)
  {
    NextIsCount(steps, Run(steps).calls[i].mailbox);
    DueGivesOut(Run(steps), step, i, outcome);
  }

  lemma NextIsCount(steps: seq<Step>, m: string)
    ensures
      var s := Run(steps);
      (if m in s.counters then s.counters[m].next else 1) == Count(s.grants, m, |s.grants|) + 1
  {
    RunKeeps(steps);
    assert CounterOk(Run(steps), m);
  }

  /** Any other due statement takes no number, and the call goes on to the next statement, or
      gives up after the last. */
  lemma TakesNone(s: State, step: Step, i: nat, outcome: Outcome)
    requires IsDue(s, step, i, outcome) && (outcome.NotRun? || !Increments(s, step, i))
    ensures
      var t := Apply(s, step);
      && t.counters == s.counters && t.grants == s.grants && i < |t.calls|
      && match step
         case Update(_, _) => t.calls[i].phase.Inserting?
         case Insert(_, _, _) => t.calls[i].phase.Retrying?
         case _ => t.calls[i].phase.Failed? || t.calls[i].phase.LostBothRaces?
  {
  }

  predicate AtWork(s: State, i: nat) {
    i < |s.calls| && (s.calls[i].phase.Updating? || s.calls[i].phase.Inserting? || s.calls[i].phase.Retrying?)
  }

  /** A call that is interrupted takes no number then or later, and never returns. */
  lemma {:induction false} CrashedStaysOut(steps: seq<Step>, i: nat, more: seq<Step>)
    requires AtWork(Run(steps), i)
    ensures
      var s, t := Run(steps), Run(steps + [Crash(i)] + more);
      && i < |t.calls| && t.calls[i] == s.calls[i].(phase := Failed)
      && |s.grants| <= |t.grants| && t.grants[..|s.grants|] == s.grants
      && forall j :: |s.grants| <= j < |t.grants| ==> t.grants[j].call != i
  {
    var crashed := steps + [Crash(i)];
    if more == [] {
      assert crashed + more == crashed && crashed[..|steps|] == steps;
    } else {
      var front, last := more[..|more| - 1], more[|more| - 1];
      CrashedStaysOut(steps, i, front);
      assert (crashed + more)[..|crashed + more| - 1] == crashed + front;
      StepOfOthers(Run(crashed + front), last, i);
    }
  }

  /** A failed call makes no step. */
  lemma StepOfOthers(s: State, step: Step, i: nat)
    requires i < |s.calls| && s.calls[i].phase.Failed?
    ensures
      var t := Apply(s, step);
      && i < |t.calls| && t.calls[i] == s.calls[i]
      && (t.grants == s.grants || exists g :: t.grants == s.grants + [g] && g.call != i)
  {
    var t := Apply(s, step);
    if t.grants != s.grants {
      var g := t.grants[|t.grants| - 1];
      assert t.grants == s.grants + [g];
    }
  }

  /** Two calls never return the same number for one mailbox. */
  lemma CallersGetDistinctUids(steps: seq<Step>, i: nat, k: nat)
    requires i < |Run(steps).calls| && k < |Run(steps).calls| && i != k
    requires Run(steps).calls[i].mailbox == Run(steps).calls[k].mailbox
    requires Run(steps).calls[i].phase.Got? && Run(steps).calls[k].phase.Got?
    ensures Run(steps).calls[i].phase.uid != Run(steps).calls[k].phase.uid
    ensures Run(steps).calls[i].phase.validity == Run(steps).calls[k].phase.validity
  {
    RunKeeps(steps);
    var s := Run(steps);
    assert CallOk(s, i) && CallOk(s, k);
    var m := s.calls[i].mailbox;
    var a :| 0 <= a < |s.grants| && s.grants[a] == Grant(m, s.calls[i].phase.uid, s.calls[i].phase.validity, i, true);
    var b :| 0 <= b < |s.grants| && s.grants[b] == Grant(m, s.calls[k].phase.uid, s.calls[k].phase.validity, k, true);
    if a < b { Increasing(steps, a, b); } else { Increasing(steps, b, a); }
  }

  /** The throw at the end is reached only by a call whose own insert raised an error. */
  lemma LosingBothNeedsAnError(steps: seq<Step>, i: nat)
    requires i < |Run(steps).calls| && Run(steps).calls[i].phase.LostBothRaces?
    ensures Run(steps).calls[i].phase.insertFailed
  {
    RunKeeps(steps);
    assert CallOk(Run(steps), i);
  }

  predicate ErrorFree(steps: seq<Step>) {
    forall j :: 0 <= j < |steps| ==>
      match steps[j]
      case Update(_, o) => o.Told?
      case Insert(_, o, _) => o.Told?
      case Retry(_, o) => o.Told?
      case _ => true
  }

  predicate NothingLost(steps: seq<Step>) {
    forall j :: 0 <= j < |steps| ==>
      match steps[j]
      case Update(_, o) => !o.Lost?
      case Insert(_, o, _) => !o.Lost?
      case Retry(_, o) => !o.Lost?
      case _ => true
  }

  predicate NoInsertErrors(s: State) {
    forall i :: 0 <= i < |s.calls| ==>
      (s.calls[i].phase.Retrying? || s.calls[i].phase.LostBothRaces? ==> !s.calls[i].phase.insertFailed)
  }

  lemma {:induction false} ErrorFreeRun(steps: seq<Step>)
    requires ErrorFree(steps)
    ensures NoInsertErrors(Run(steps))
  {
    if steps != [] {
      ErrorFreeRun(steps[..|steps| - 1]);
    }
  }

  /** Without database errors the final throw is unreachable, in every interleaving. */
  lemma ThrowIsUnreachable(steps: seq<Step>, i: nat)
    requires ErrorFree(steps) && i < |Run(steps).calls|
    ensures !Run(steps).calls[i].phase.LostBothRaces?
  {
    ErrorFreeRun(steps);
    RunKeeps(steps);
    assert CallOk(Run(steps), i);
  }

  predicate AllTold(s: State) {
    forall j :: 0 <= j < |s.grants| ==> s.grants[j].told
  }

  lemma {:induction false} AllToldRun(steps: seq<Step>)
    requires NothingLost(steps)
    ensures AllTold(Run(steps))
  {
    if steps != [] {
      AllToldRun(steps[..|steps| - 1]);
    }
  }

  /** Every number below the counter was handed out by exactly one increment. */
  lemma {:induction false} EveryUidWasGranted(steps: seq<Step>, m: string, uid: nat, n: nat)
    requires n <= |Run(steps).grants| && 1 <= uid <= Count(Run(steps).grants, m, n)
    ensures exists j :: 0 <= j < n && Run(steps).grants[j].mailbox == m && Run(steps).grants[j].uid == uid
    decreases n
  {
    RunKeeps(steps);
    var s := Run(steps);
    if uid <= Count(s.grants, m, n - 1) {
      EveryUidWasGranted(steps, m, uid, n - 1);
    } else {
      assert GrantOk(s, n - 1);
    }
  }

  predicate Received(s: State, m: string, uid: nat) {
    exists i :: 0 <= i < |s.calls| && s.calls[i].mailbox == m && s.calls[i].phase.Got? && s.calls[i].phase.uid == uid
  }

  /** When no committed statement's result is lost, the numbers received for a mailbox are
      exactly 1, 2, ... up to the counter, although statements may fail to run. */
  lemma Gapless(steps: seq<Step>, m: string, uid: nat)
    requires NothingLost(steps)
    ensures
      var s := Run(steps);
      Received(s, m, uid) <==> m in s.counters && 1 <= uid < s.counters[m].next
  {
    RunKeeps(steps);
    AllToldRun(steps);
    var s := Run(steps);
    assert CounterOk(s, m);
    if Received(s, m, uid) {
      var i :| 0 <= i < |s.calls| && s.calls[i].mailbox == m && s.calls[i].phase.Got? && s.calls[i].phase.uid == uid;
      assert CallOk(s, i);
      var j :| 0 <= j < |s.grants| && s.grants[j] == Grant(m, uid, s.calls[i].phase.validity, i, true);
      assert GrantOk(s, j);
      CountGrows(s.grants, m, j + 1, |s.grants|);
    }
    if m in s.counters && 1 <= uid < s.counters[m].next {
      EveryUidWasGranted(steps, m, uid, |s.grants|);
      var j :| 0 <= j < |s.grants| && s.grants[j].mailbox == m && s.grants[j].uid == uid;
      assert GrantOk(s, j);
    }
  }

  /** A lost result does leave a gap: the row is created, its number never received. */
  lemma LostResultLeavesGap(m: string)
    ensures
      var steps := [Start(m), Update(0, Told), Insert(0, Lost, 7), Retry(0, Told)];
      Run(steps).calls == [Call(m, Got(2, 7))]
  {
    var a := [Start(m)];
    var b := [Start(m), Update(0, Told)];
    var c := [Start(m), Update(0, Told), Insert(0, Lost, 7)];
    var d := [Start(m), Update(0, Told), Insert(0, Lost, 7), Retry(0, Told)];
    assert a[..0] == [] && b[..1] == a && c[..2] == b && d[..3] == c;
    assert Run(a).calls == [Call(m, Updating)];
    assert Run(b).calls == [Call(m, Inserting)];
    assert Run(c).calls == [Call(m, Retrying(true))] && Run(c).counters == map[m := Counter(2, 7)];
  }
}
