/** Any number of audit writers over one table: each reads the tip, hashes, and inserts
    on condition that `MAX(id)` has not moved, at most eight times. */
module AuditWriters {
  import opened Text
  import opened AuditLog

  datatype Call = Call(args: Args, at: Option<nat>)

  /** Where one `audit()` call stands. A call that throws on a database error, or whose
      process dies, is Crashed: its last insert may or may not have been committed. */
  datatype Phase =
    | Reading(attempt: nat)
    | Inserting(attempt: nat, prevId: int, prevHash: string, at: nat)
    | Done
    | Exhausted
    | Crashed

  /** `started` is the number of rows the log held when the call began. */
  datatype Writer = Writer(call: Call, started: nat, phase: Phase)

  /** `owners[i]` is the writer whose statement inserted row `i`. */
  datatype State = State(log: seq<Row>, owners: seq<nat>, writers: seq<Writer>)

  datatype Step =
    | Start(call: Call)
    | Read(w: nat, clock: nat)
    | Insert(w: nat, newId: int)
    | InsertLost(w: nat, newId: int)
    | Crash(w: nat)

  const Empty := State([], [], [])

  /** `IFNULL(MAX(id), -1)` over the first `n` rows. */
  function TipId(log: seq<Row>, n: nat): int
    requires n <= |log|
  {
    if n == 0 then -1 else log[n - 1].id
  }

  function SetPhase(s: State, w: nat, p: Phase): State
    requires w < |s.writers|
  {
    s.(writers := s.writers[w := s.writers[w].(phase := p)])
  }

  function NewRow(h: Hash, a: Args, p: Phase, newId: int): Row
    requires p.Inserting?
  {
    Row(newId, a, p.prevHash, h(CanonicalRow(a, p.prevHash, p.at)), p.at)
  }

  /** The conditional insert, one atomic statement; `newId` is the database's choice. */
  function InsertIfTip(h: Hash, s: State, w: nat, newId: int): State
    requires w < |s.writers| && s.writers[w].phase.Inserting?
  {
    var p := s.writers[w].phase;
    if TipId(s.log, |s.log|) == p.prevId then
      s.(log := s.log + [NewRow(h, s.writers[w].call.args, p, newId)], owners := s.owners + [w])
    else s
  }

  predicate FreshId(s: State, newId: int) {
    newId >= 1 && newId > TipId(s.log, |s.log|)
  }

  function AfterLoss(attempt: nat): Phase {
    if attempt + 1 < MAX_AUDIT_RETRIES then Reading(attempt + 1) else Exhausted
  }

  /** One step of the system; a step that is not enabled changes nothing. */
  function Apply(h: Hash, s: State, step: Step): State {
    match step
    case Start(call) => s.(writers := s.writers + [Writer(call, |s.log|, Reading(0))])
    case Read(w, clock) =>
      if w < |s.writers| && s.writers[w].phase.Reading? then
        var at := if s.writers[w].call.at.Some? then s.writers[w].call.at.value else clock;
        SetPhase(s, w, Inserting(s.writers[w].phase.attempt, TipId(s.log, |s.log|), HashBefore(s.log, |s.log|), at))
      else s
    case Insert(w, newId) =>
      if w < |s.writers| && s.writers[w].phase.Inserting? && FreshId(s, newId) then
        var t := InsertIfTip(h, s, w, newId);
        var attempt := s.writers[w].phase.attempt;
        if |t.log| > |s.log| then SetPhase(t, w, Done)
        else SetPhase(t, w, AfterLoss(attempt))
      else s
    case InsertLost(w, newId) =>
      if w < |s.writers| && s.writers[w].phase.Inserting? && FreshId(s, newId) then
        SetPhase(InsertIfTip(h, s, w, newId), w, Crashed)
      else s
    case Crash(w) =>
      if w < |s.writers| && (s.writers[w].phase.Reading? || s.writers[w].phase.Inserting?) then
        SetPhase(s, w, Crashed)
      else s
  }

  /** The state after a whole run, any interleaving of steps. */
  function Run(h: Hash, steps: seq<Step>): State {
    if steps == [] then Empty else Apply(h, Run(h, steps[..|steps| - 1]), steps[|steps| - 1])
  }

  // ---------- what every step keeps ----------

  predicate Increasing(log: seq<Row>) {
    && (forall i :: 0 <= i < |log| ==> log[i].id >= 1)
    && (forall i, j :: 0 <= i < j < |log| ==> log[i].id < log[j].id)
  }

  predicate Saw(log: seq<Row>, n: nat, prevId: int, prevHash: string) {
    n <= |log| && TipId(log, n) == prevId && HashBefore(log, n) == prevHash
  }

  /** How many rows a call in this phase has inserted, at least and at most. */
  function AtLeast(p: Phase): nat { if p.Done? then 1 else 0 }

  function AtMost(p: Phase): nat { if p.Done? || p.Crashed? then 1 else 0 }

  /** Progress of one call: every lost attempt was lost to a row of some other call. */
  ghost predicate WriterOk(log: seq<Row>, w: Writer) {
    match w.phase
    case Reading(attempt) => attempt < MAX_AUDIT_RETRIES && w.started + attempt <= |log|
    case Inserting(attempt, prevId, prevHash, at) =>
      attempt < MAX_AUDIT_RETRIES && exists n: nat :: w.started + attempt <= n && Saw(log, n, prevId, prevHash)
    case Exhausted => w.started + MAX_AUDIT_RETRIES <= |log|
    case _ => true
  }

  ghost predicate RowsOwned(s: State) {
    && |s.owners| == |s.log|
    && (forall i :: 0 <= i < |s.log| ==>
          s.owners[i] < |s.writers| && s.log[i].args == s.writers[s.owners[i]].call.args)
    && (forall w :: 0 <= w < |s.writers| ==>
          AtLeast(s.writers[w].phase) <= multiset(s.owners)[w] <= AtMost(s.writers[w].phase))
    && (forall w :: w >= |s.writers| ==> multiset(s.owners)[w] == 0)
  }

  ghost predicate Inv(h: Hash, s: State) {
    && Increasing(s.log) && Chained(h, s.log) && RowsOwned(s)
    && forall w :: 0 <= w < |s.writers| ==> WriterOk(s.log, s.writers[w])
  }

  /** The compare-and-swap on the id alone identifies the whole observed log. */
  lemma TipIdentifiesLog(log: seq<Row>, n: nat, prevId: int, prevHash: string)
    requires Increasing(log) && Saw(log, n, prevId, prevHash)
    ensures TipId(log, |log|) == prevId <==> n == |log|
  {
  }

  lemma WriterStaysOk(log: seq<Row>, r: Row, w: Writer)
    requires WriterOk(log, w)
    ensures WriterOk(log + [r], w)
  {
    if w.phase.Inserting? {
      var n: nat :| w.started + w.phase.attempt <= n && Saw(log, n, w.phase.prevId, w.phase.prevHash);
      assert Saw(log + [r], n, w.phase.prevId, w.phase.prevHash);
    }
  }

  lemma AppendKeepsChain(h: Hash, log: seq<Row>, r: Row)
    requires Increasing(log) && Chained(h, log) && r.id >= 1 && r.id > TipId(log, |log|)
    requires r.prevHash == HashBefore(log, |log|) && r.rowHash == RowHash(h, r)
    ensures Increasing(log + [r]) && Chained(h, log + [r])
  {
    var t := log + [r];
    forall i | 0 <= i < |t| ensures LinkOk(h, t, i) {
      assert i < |log| ==> LinkOk(h, log, i);
    }
  }

  lemma AppendKeepsOwners(s: State, w: nat, r: Row, p: Phase)
    requires RowsOwned(s) && w < |s.writers| && s.writers[w].phase.Inserting?
    requires r.args == s.writers[w].call.args && (p.Done? || p.Crashed?)
    ensures RowsOwned(SetPhase(s.(log := s.log + [r], owners := s.owners + [w]), w, p))
  {
  }

  /** A matching tip id means the observed hash is the current tip's hash too. */
  lemma InsertKeeps(h: Hash, s: State, w: nat, newId: int, p: Phase)
    requires Inv(h, s) && w < |s.writers| && s.writers[w].phase.Inserting? && FreshId(s, newId)
    requires TipId(s.log, |s.log|) == s.writers[w].phase.prevId && (p.Done? || p.Crashed?)
    ensures Inv(h, SetPhase(InsertIfTip(h, s, w, newId), w, p))
  {
    var t := SetPhase(InsertIfTip(h, s, w, newId), w, p);
    var q := s.writers[w].phase;
    var r := NewRow(h, s.writers[w].call.args, q, newId);
    assert Increasing(t.log) && Chained(h, t.log) by {
      assert WriterOk(s.log, s.writers[w]);
      var n: nat :| s.writers[w].started + q.attempt <= n && Saw(s.log, n, q.prevId, q.prevHash);
      TipIdentifiesLog(s.log, n, q.prevId, q.prevHash);
      AppendKeepsChain(h, s.log, r);
    }
    AppendKeepsOwners(s, w, r, p);
    forall v | 0 <= v < |t.writers| ensures WriterOk(t.log, t.writers[v]) {
      WriterStaysOk(s.log, r, s.writers[v]);
    }
  }

  /** Moving one call on without touching the log. */
  lemma PhaseKeeps(h: Hash, s: State, w: nat, p: Phase)
    requires Inv(h, s) && w < |s.writers| && WriterOk(s.log, s.writers[w].(phase := p))
    requires !p.Done? && !s.writers[w].phase.Done? && !s.writers[w].phase.Crashed?
    ensures Inv(h, SetPhase(s, w, p))
  {
    var t := SetPhase(s, w, p);
    assert t.log == s.log && t.owners == s.owners;
    assert RowsOwned(t) by {
      assert multiset(s.owners)[w] == 0;
      forall i | 0 <= i < |t.log|
        ensures t.owners[i] < |t.writers| && t.log[i].args == t.writers[t.owners[i]].call.args
      {
      }
    }
  }

  lemma LostRaceKeeps(h: Hash, s: State, w: nat)
    requires Inv(h, s) && w < |s.writers| && s.writers[w].phase.Inserting?
    requires TipId(s.log, |s.log|) != s.writers[w].phase.prevId
    ensures Inv(h, SetPhase(s, w, AfterLoss(s.writers[w].phase.attempt)))
  {
    var q := s.writers[w].phase;
    assert WriterOk(s.log, s.writers[w]);
    var n: nat :| s.writers[w].started + q.attempt <= n && Saw(s.log, n, q.prevId, q.prevHash);
    TipIdentifiesLog(s.log, n, q.prevId, q.prevHash);
    PhaseKeeps(h, s, w, AfterLoss(q.attempt));
  }

  lemma StartKeeps(h: Hash, s: State, call: Call)
    requires Inv(h, s)
    ensures Inv(h, Apply(h, s, Start(call)))
  {
  }

  lemma ReadKeeps(h: Hash, s: State, w: nat, clock: nat)
    requires Inv(h, s)
    ensures Inv(h, Apply(h, s, Read(w, clock)))
  {
    if w < |s.writers| && s.writers[w].phase.Reading? {
      var t := Apply(h, s, Read(w, clock));
      assert WriterOk(s.log, s.writers[w]);
      assert Saw(s.log, |s.log|, TipId(s.log, |s.log|), HashBefore(s.log, |s.log|));
      PhaseKeeps(h, s, w, t.writers[w].phase);
    }
  }

  lemma InsertStepKeeps(h: Hash, s: State, w: nat, newId: int)
    requires Inv(h, s)
    ensures Inv(h, Apply(h, s, Insert(w, newId)))
  {
    if w < |s.writers| && s.writers[w].phase.Inserting? && FreshId(s, newId) {
      if TipId(s.log, |s.log|) == s.writers[w].phase.prevId {
        InsertKeeps(h, s, w, newId, Done);
      } else {
        LostRaceKeeps(h, s, w);
      }
    }
  }

  lemma InsertLostKeeps(h: Hash, s: State, w: nat, newId: int)
    requires Inv(h, s)
    ensures Inv(h, Apply(h, s, InsertLost(w, newId)))
  {
    if w < |s.writers| && s.writers[w].phase.Inserting? && FreshId(s, newId) {
      if TipId(s.log, |s.log|) == s.writers[w].phase.prevId {
        InsertKeeps(h, s, w, newId, Crashed);
      } else {
        PhaseKeeps(h, s, w, Crashed);
      }
    }
  }

  lemma CrashKeeps(h: Hash, s: State, w: nat)
    requires Inv(h, s)
    ensures Inv(h, Apply(h, s, Crash(w)))
  {
    if w < |s.writers| && (s.writers[w].phase.Reading? || s.writers[w].phase.Inserting?) {
      PhaseKeeps(h, s, w, Crashed);
    }
  }

  lemma StepKeeps(h: Hash, s: State, step: Step)
    requires Inv(h, s)
    ensures Inv(h, Apply(h, s, step))
  {
    match step
    case Start(call) => StartKeeps(h, s, call);
    case Read(w, clock) => ReadKeeps(h, s, w, clock);
    case Insert(w, newId) => InsertStepKeeps(h, s, w, newId);
    case InsertLost(w, newId) => InsertLostKeeps(h, s, w, newId);
    case Crash(w) => CrashKeeps(h, s, w);
  }

  lemma {:induction false} RunKeeps(h: Hash, steps: seq<Step>)
    ensures Inv(h, Run(h, steps))
  {
    if steps != [] {
      RunKeeps(h, steps[..|steps| - 1]);
      StepKeeps(h, Run(h, steps[..|steps| - 1]), steps[|steps| - 1]);
    }
  }

  // ---------- what holds of every run ----------

  /** The log never forks: the verifier accepts it after every run. */
  lemma NeverForks(h: Hash, steps: seq<Step>)
    ensures Verify(h, ZERO_HASH, Run(h, steps).log) == Intact
    ensures Chained(h, Run(h, steps).log) && Increasing(Run(h, steps).log)
  {
    RunKeeps(h, steps);
    ChainedIsIntact(h, Run(h, steps).log);
  }

  /** A call that returned has exactly one row and it holds its arguments; a call still
      at work or out of attempts has none, and an interrupted one at most one. */
  lemma OneRowPerCall(h: Hash, steps: seq<Step>, w: nat)
    requires w < |Run(h, steps).writers|
    ensures
      var s := Run(h, steps);
      var rows := multiset(s.owners)[w];
      && |s.owners| == |s.log|
      && (s.writers[w].phase.Done? ==> rows == 1)
      && (s.writers[w].phase.Crashed? ==> rows <= 1)
      && (!s.writers[w].phase.Done? && !s.writers[w].phase.Crashed? ==> rows == 0)
      && forall i :: 0 <= i < |s.log| && s.owners[i] == w ==> s.log[i].args == s.writers[w].call.args
  {
    RunKeeps(h, steps);
  }

  // ---------- what each attempt does ----------

  predicate InPhase(s: State, w: nat, inserting: bool) {
    w < |s.writers| && if inserting then s.writers[w].phase.Inserting? else s.writers[w].phase.Reading?
  }

  /** The step at `n` is the read of the attempt that call `w` is in now. */
  ghost predicate ReadAt(h: Hash, steps: seq<Step>, n: nat, w: nat) {
    && n < |steps| && steps[n].Read? && steps[n].w == w && InPhase(Run(h, steps[..n]), w, false)
    && forall i :: n < i <= |steps| ==> InPhase(Run(h, steps[..i]), w, true)
  }

  /** The caller's own time, or the clock at the read. */
  function Stamp(call: Call, clock: nat): nat {
    match call.at
    case Some(at) => at
    case None => clock
  }

  /** What the call holds when its read found the table `seen`. */
  ghost predicate Holds(writer: Writer, call: Call, attempt: nat, seen: seq<Row>, clock: nat) {
    && writer.call == call
    && writer.phase == Inserting(attempt, TipId(seen, |seen|), HashBefore(seen, |seen|), Stamp(call, clock))
  }

  /** A step either leaves an inserting call alone or ends its attempt. */
  lemma AttemptStays(h: Hash, s: State, step: Step, w: nat)
    requires w < |s.writers|
    ensures w < |Apply(h, s, step).writers| && Apply(h, s, step).writers[w].call == s.writers[w].call
    ensures s.writers[w].phase.Inserting? && Apply(h, s, step).writers[w].phase.Inserting? ==>
              Apply(h, s, step).writers[w] == s.writers[w]
    ensures !s.writers[w].phase.Inserting? && Apply(h, s, step).writers[w].phase.Inserting? ==>
              step.Read? && step.w == w && s.writers[w].phase.Reading?
  {
  }

  lemma ReadHolds(h: Hash, s: State, w: nat, clock: nat)
    requires InPhase(s, w, false)
    ensures var t := Apply(h, s, Read(w, clock));
            w < |t.writers| && t.log == s.log &&
            Holds(t.writers[w], s.writers[w].call, s.writers[w].phase.attempt, s.log, clock)
  {
  }

  /** Every attempt under way began with a read, and holds what that read found. */
  lemma {:induction false} AttemptHasRead(h: Hash, steps: seq<Step>, w: nat) returns (n: nat)
    requires InPhase(Run(h, steps), w, true)
    ensures ReadAt(h, steps, n, w)
    ensures var before, s := Run(h, steps[..n]), Run(h, steps);
            Holds(s.writers[w], before.writers[w].call, before.writers[w].phase.attempt, before.log, steps[n].clock)
  {
    var front, last := steps[..|steps| - 1], steps[|steps| - 1];
    var s := Run(h, front);
    assert w < |s.writers|;
    AttemptStays(h, s, last, w);
    if s.writers[w].phase.Inserting? {
      n := AttemptHasRead(h, front, w);
      assert front[..n] == steps[..n] && front[n] == steps[n];
      forall i | n < i <= |steps| ensures InPhase(Run(h, steps[..i]), w, true) {
        assert i < |steps| ==> steps[..i] == front[..i];
        assert i == |steps| ==> steps[..i] == steps;
      }
    } else {
      n := |front|;
      ReadHolds(h, s, w, last.clock);
      assert steps[..|steps|] == steps;
    }
  }

  /** The row of a call whose read found the table `seen`. */
  function RowAfter(h: Hash, seen: seq<Row>, call: Call, clock: nat, newId: int): Row {
    var prev := HashBefore(seen, |seen|);
    Row(newId, call.args, prev, h(CanonicalRow(call.args, prev, Stamp(call, clock))), Stamp(call, clock))
  }

  lemma InsertOn(h: Hash, s: State, w: nat, newId: int, call: Call, attempt: nat, n: nat, clock: nat)
    requires Increasing(s.log) && w < |s.writers| && n <= |s.log| && FreshId(s, newId)
    requires Holds(s.writers[w], call, attempt, s.log[..n], clock)
    ensures
      var t, lost := Apply(h, s, Insert(w, newId)), Apply(h, s, InsertLost(w, newId));
      && w < |t.writers| && w < |lost.writers| && lost.writers[w].phase.Crashed?
      && lost.log == t.log && lost.owners == t.owners
      && (n == |s.log| ==>
            && t.log == s.log + [RowAfter(h, s.log, call, clock, newId)] && t.owners == s.owners + [w]
            && t.writers[w].phase.Done?)
      && (n < |s.log| ==>
            && t.log == s.log && t.owners == s.owners
            && t.writers[w].phase == if attempt < 7 then Reading(attempt + 1) else Exhausted)
  {
    assert Saw(s.log, n, TipId(s.log[..n], n), HashBefore(s.log[..n], n));
    TipIdentifiesLog(s.log, n, TipId(s.log[..n], n), HashBefore(s.log[..n], n));
    assert n == |s.log| ==> s.log[..n] == s.log;
  }

  /** The log only grows: a later state has the earlier log as a prefix. */
  lemma {:induction false} AppendOnly(h: Hash, steps: seq<Step>, n: nat)
    requires n <= |steps|
    ensures Run(h, steps[..n]).log <= Run(h, steps).log
  {
    if n < |steps| {
      var front := steps[..|steps| - 1];
      AppendOnly(h, front, n);
      assert front[..n] == steps[..n];
    } else {
      assert steps[..n] == steps;
    }
  }

  /** An insert after any run: if the table has not grown since the read of this attempt, one
      row is appended, with the call's arguments, the observed hash and the call's own time or
      the clock at that read, and the call returns; otherwise nothing is written and the call
      reads again, or gives up after its eighth attempt. An insert whose result is lost writes
      the same and throws. */
  lemma InsertDecides(h: Hash, steps: seq<Step>, w: nat, newId: int) returns (n: nat)
    requires InPhase(Run(h, steps), w, true) && FreshId(Run(h, steps), newId)
    ensures ReadAt(h, steps, n, w)
    ensures
      var seen, s, t := Run(h, steps[..n]), Run(h, steps), Run(h, steps + [Insert(w, newId)]);
      && w < |t.writers| && seen.log <= s.log
      && (s.log == seen.log ==>
            && t.log == s.log + [RowAfter(h, seen.log, s.writers[w].call, steps[n].clock, newId)]
            && t.owners == s.owners + [w] && t.writers[w].phase.Done?)
      && (s.log != seen.log ==>
            && t.log == s.log && t.owners == s.owners
            && t.writers[w].phase ==
               if seen.writers[w].phase.attempt < 7 then Reading(seen.writers[w].phase.attempt + 1) else Exhausted)
    ensures
      var t, lost := Run(h, steps + [Insert(w, newId)]), Run(h, steps + [InsertLost(w, newId)]);
      && w < |lost.writers| && lost.writers[w].phase.Crashed?
      && lost.log == t.log && lost.owners == t.owners
  {
    var s := Run(h, steps);
    n := AttemptHasRead(h, steps, w);
    AppendOnly(h, steps, n);
    RunKeeps(h, steps);
    var seen := Run(h, steps[..n]);
    assert seen.log == s.log[..|seen.log|];
    InsertOn(h, s, w, newId, s.writers[w].call, seen.writers[w].phase.attempt, |seen.log|, steps[n].clock);
    RunThen(h, steps, Insert(w, newId));
    RunThen(h, steps, InsertLost(w, newId));
  }

  lemma RunThen(h: Hash, steps: seq<Step>, last: Step)
    ensures Run(h, steps + [last]) == Apply(h, Run(h, steps), last)
  {
    assert (steps + [last])[..|steps|] == steps;
  }

  predicate Undisturbed(steps: seq<Step>) {
    forall i :: 0 <= i < |steps| ==> !steps[i].Crash? && !steps[i].InsertLost?
  }

  /** Only an interruption makes a call throw for another reason than running out of
      attempts. */
  lemma {:induction false} NoCrashUndisturbed(h: Hash, steps: seq<Step>)
    requires Undisturbed(steps)
    ensures forall w :: 0 <= w < |Run(h, steps).writers| ==> !Run(h, steps).writers[w].phase.Crashed?
  {
    if steps != [] {
      NoCrashUndisturbed(h, steps[..|steps| - 1]);
    }
  }

  /** The step at `n` is the one that started call `w`. */
  ghost predicate StartedAt(h: Hash, steps: seq<Step>, n: nat, w: nat, call: Call) {
    n < |steps| && steps[n] == Start(call) && |Run(h, steps[..n]).writers| == w
  }

  lemma StartedStays(h: Hash, s: State, step: Step)
    ensures var t := Apply(h, s, step);
            if step.Start? then t.writers == s.writers + [Writer(step.call, |s.log|, Reading(0))] && t.log == s.log
            else |t.writers| == |s.writers| &&
                 forall w :: 0 <= w < |s.writers| ==>
                   t.writers[w].call == s.writers[w].call && t.writers[w].started == s.writers[w].started
  {
  }

  /** Every call was started, with its own arguments, when the log had the length it notes. */
  lemma {:induction false} CallHasStart(h: Hash, steps: seq<Step>, w: nat) returns (n: nat)
    requires w < |Run(h, steps).writers|
    ensures StartedAt(h, steps, n, w, Run(h, steps).writers[w].call)
    ensures Run(h, steps).writers[w].started == |Run(h, steps[..n]).log|
  {
    var front, last := steps[..|steps| - 1], steps[|steps| - 1];
    StartedStays(h, Run(h, front), last);
    if w < |Run(h, front).writers| {
      n := CallHasStart(h, front, w);
      assert front[..n] == steps[..n] && front[n] == steps[n];
    } else {
      n := |front|;
    }
  }

  /** A call gives up only after eight rows of other calls were committed during it. */
  lemma ExhaustedOnlyByContention(h: Hash, steps: seq<Step>, w: nat) returns (n: nat)
    requires w < |Run(h, steps).writers| && Run(h, steps).writers[w].phase.Exhausted?
    ensures StartedAt(h, steps, n, w, Run(h, steps).writers[w].call)
    ensures
      var s := Run(h, steps);
      && |Run(h, steps[..n]).log| + MAX_AUDIT_RETRIES <= |s.log| == |s.owners|
      && forall i :: 0 <= i < |s.owners| ==> s.owners[i] != w
  {
    RunKeeps(h, steps);
    n := CallHasStart(h, steps, w);
    var s := Run(h, steps);
    assert WriterOk(s.log, s.writers[w]);
    forall i | 0 <= i < |s.owners| ensures s.owners[i] != w {
      assert s.owners[i] in multiset(s.owners);
    }
  }
}
