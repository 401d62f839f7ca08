/** Credential revocation: a key-value store with a sixty-second cache per isolate, and an
    `await` between reading the clock and writing the cache entry. */
module Revocation {
  const CACHE_TTL_MS := 60_000

  /** One principal as one isolate sees it. */
  datatype Place = Place(isolate: nat, principal: string)

  datatype Entry = Entry(value: bool, expiresAt: int)

  /** A check is suspended at its store read, then resumes with the answer. */
  datatype CheckPhase =
    | Waiting(localNow: int)
    | Answered(localNow: int, revoked: bool)
    | Returned(result: bool)
    | Failed

  datatype Check = Check(place: Place, start: nat, phase: CheckPhase)

  datatype RevokePhase = Putting | Revoked | PutFailed

  datatype Revoke = Revoke(place: Place, ts: int, phase: RevokePhase)

  /** `now` is true time. `visible[p]` is the true time from which the isolate `p.isolate`
      reads a revocation of `p.principal` in the store; it may differ between isolates. */
  datatype State = State(
    now: nat,
    visible: map<Place, nat>,
    cache: map<Place, Entry>,
    checks: seq<Check>,
    revokes: seq<Revoke>)

  datatype Step =
    | Tick(ms: nat)
    | StartCheck(place: Place)
    | Answer(c: nat)
    | Resume(c: nat)
    | AbortCheck(c: nat)
    | StartRevoke(place: Place)
    | Land(r: nat, isolate: nat)
    | Prime(r: nat)
    | AbortRevoke(r: nat)
    | Evict(place: Place)

  /** How far each isolate's clock is off true time. */
  type Skew = nat -> int

  const Initial := State(0, map[], map[], [], [])

  /** The synchronous part of `revocationCheck`, up to its first `await`. */
  function BeginCheck(skew: Skew, s: State, p: Place): Check {
    var localNow := s.now + skew(p.isolate);
    if p in s.cache && s.cache[p].expiresAt > localNow then Check(p, s.now, Returned(s.cache[p].value))
    else Check(p, s.now, Waiting(localNow))
  }

  function SetCheck(s: State, c: nat, p: CheckPhase): State
    requires c < |s.checks|
  {
    s.(checks := s.checks[c := s.checks[c].(phase := p)])
  }

  function SetRevoke(s: State, r: nat, p: RevokePhase): State
    requires r < |s.revokes|
  {
    s.(revokes := s.revokes[r := s.revokes[r].(phase := p)])
  }

  /** One step of the system; a step that is not enabled changes nothing. */
  function Apply(skew: Skew, s: State, step: Step): State {
    match step
    case Tick(ms) => s.(now := s.now + ms)
    case StartCheck(place) => s.(checks := s.checks + [BeginCheck(skew, s, place)])
    case Answer(c) =>
      if c < |s.checks| && s.checks[c].phase.Waiting? then
        SetCheck(s, c, Answered(s.checks[c].phase.localNow, s.checks[c].place in s.visible))
      else s
    case Resume(c) =>
      if c < |s.checks| && s.checks[c].phase.Answered? then
        var a := s.checks[c].phase;
        SetCheck(s, c, Returned(a.revoked))
          .(cache := s.cache[s.checks[c].place := Entry(a.revoked, a.localNow + CACHE_TTL_MS)])
      else s
    case AbortCheck(c) =>
      if c < |s.checks| && !s.checks[c].phase.Returned? then SetCheck(s, c, Failed) else s
    case StartRevoke(place) => s.(revokes := s.revokes + [Revoke(place, s.now + skew(place.isolate), Putting)])
    case Land(r, isolate) =>
      if r < |s.revokes| then
        var p := Place(isolate, s.revokes[r].place.principal);
        if p in s.visible then s else s.(visible := s.visible[p := s.now])
      else s
    case Prime(r) =>
      if r < |s.revokes| && s.revokes[r].phase.Putting? then
        SetRevoke(s, r, Revoked).(cache := s.cache[s.revokes[r].place := Entry(true, s.revokes[r].ts + CACHE_TTL_MS)])
      else s
    case AbortRevoke(r) =>
      if r < |s.revokes| && s.revokes[r].phase.Putting? then SetRevoke(s, r, PutFailed) else s
    case Evict(place) => s.(cache := s.cache - {place})
  }

  function RunFrom(skew: Skew, s: State, steps: seq<Step>): State {
    if steps == [] then s else Apply(skew, RunFrom(skew, s, steps[..|steps| - 1]), steps[|steps| - 1])
  }

  // ---------- bounded staleness ----------

  /** The latest true time at which the isolate could still read "not revoked". */
  function LastClear(s: State, p: Place): nat {
    if p in s.visible then s.visible[p] else s.now
  }

  /** A "not revoked" answer was read, and its clock taken, no later than that time. */
  predicate CheckOk(skew: Skew, s: State, c: Check) {
    var clear := LastClear(s, c.place);
    && c.start <= s.now
    && (c.phase.Waiting? ==> c.phase.localNow == c.start + skew(c.place.isolate))
    && (c.phase.Answered? ==> c.phase.localNow == c.start + skew(c.place.isolate))
    && (c.phase.Answered? && !c.phase.revoked ==> c.start <= clear)
    && (c.phase.Returned? && !c.phase.result ==> c.start < clear + CACHE_TTL_MS)
  }

  predicate EntryOk(skew: Skew, s: State, p: Place, e: Entry) {
    !e.value ==> e.expiresAt <= LastClear(s, p) + skew(p.isolate) + CACHE_TTL_MS
  }

  predicate Inv(skew: Skew, s: State) {
    && (forall p :: p in s.visible ==> s.visible[p] <= s.now)
    && (forall p :: p in s.cache ==> EntryOk(skew, s, p, s.cache[p]))
    && (forall i :: 0 <= i < |s.checks| ==> CheckOk(skew, s, s.checks[i]))
  }

  /** Steps that touch neither the cache nor a check only move `LastClear` forward. */
  lemma ClearMovesForward(skew: Skew, s: State, t: State)
    requires Inv(skew, s) && t.cache == s.cache && t.checks == s.checks && s.now <= t.now
    requires forall p :: p in t.visible ==> t.visible[p] <= t.now
    requires forall p :: LastClear(s, p) <= LastClear(t, p)
    ensures Inv(skew, t)
  {
    forall p | p in t.cache ensures EntryOk(skew, t, p, t.cache[p]) {
      assert EntryOk(skew, s, p, s.cache[p]);
    }
    forall i | 0 <= i < |t.checks| ensures CheckOk(skew, t, t.checks[i]) {
      assert CheckOk(skew, s, s.checks[i]);
    }
  }

  lemma CheckStepKeeps(skew: Skew, s: State, t: State, p: Place, c: Check)
    requires Inv(skew, s) && t.now == s.now && t.visible == s.visible && CheckOk(skew, s, c)
    requires forall i :: 0 <= i < |t.checks| ==> t.checks[i] == c || (i < |s.checks| && t.checks[i] == s.checks[i])
    requires t.cache == s.cache || exists e :: EntryOk(skew, s, p, e) && t.cache == s.cache[p := e]
    ensures Inv(skew, t)
  {
    forall q | q in t.cache ensures EntryOk(skew, t, q, t.cache[q]) {
      assert q in s.cache ==> EntryOk(skew, s, q, s.cache[q]);
    }
  }

  lemma ResumeKeeps(skew: Skew, s: State, c: nat)
    requires Inv(skew, s)
    ensures Inv(skew, Apply(skew, s, Resume(c)))
  {
    if c < |s.checks| && s.checks[c].phase.Answered? {
      var a := s.checks[c].phase;
      assert CheckOk(skew, s, s.checks[c]);
      var t := Apply(skew, s, Resume(c));
      var e := Entry(a.revoked, a.localNow + CACHE_TTL_MS);
      assert EntryOk(skew, s, s.checks[c].place, e);
      CheckStepKeeps(skew, s, t, s.checks[c].place, t.checks[c]);
    }
  }

  lemma StartCheckKeeps(skew: Skew, s: State, p: Place)
    requires Inv(skew, s)
    ensures Inv(skew, Apply(skew, s, StartCheck(p)))
  {
    assert p in s.cache ==> EntryOk(skew, s, p, s.cache[p]);
    CheckStepKeeps(skew, s, Apply(skew, s, StartCheck(p)), p, BeginCheck(skew, s, p));
  }

  lemma AnswerKeeps(skew: Skew, s: State, c: nat)
    requires Inv(skew, s)
    ensures Inv(skew, Apply(skew, s, Answer(c)))
  {
    if c < |s.checks| && s.checks[c].phase.Waiting? {
      assert CheckOk(skew, s, s.checks[c]);
      var t := Apply(skew, s, Answer(c));
      CheckStepKeeps(skew, s, t, s.checks[c].place, t.checks[c]);
    }
  }

  lemma AbortCheckKeeps(skew: Skew, s: State, c: nat)
    requires Inv(skew, s)
    ensures Inv(skew, Apply(skew, s, AbortCheck(c)))
  {
    if c < |s.checks| && !s.checks[c].phase.Returned? {
      assert CheckOk(skew, s, s.checks[c]);
      var t := Apply(skew, s, AbortCheck(c));
      CheckStepKeeps(skew, s, t, s.checks[c].place, t.checks[c]);
    }
  }

  lemma StepKeeps(skew: Skew, s: State, step: Step)
    requires Inv(skew, s)
    ensures Inv(skew, Apply(skew, s, step))
  {
    var t := Apply(skew, s, step);
    match step
    case Tick(ms) => ClearMovesForward(skew, s, t);
    case StartCheck(place) => StartCheckKeeps(skew, s, place);
    case Answer(c) => AnswerKeeps(skew, s, c);
    case Resume(c) => ResumeKeeps(skew, s, c);
    case AbortCheck(c) => AbortCheckKeeps(skew, s, c);
    case StartRevoke(place) => ClearMovesForward(skew, s, t);
    case Land(r, isolate) => ClearMovesForward(skew, s, t);
    case Prime(r) =>
    case AbortRevoke(r) => ClearMovesForward(skew, s, t);
    case Evict(place) =>
  }

  lemma {:induction false} RunKeeps(skew: Skew, s: State, steps: seq<Step>)
    requires Inv(skew, s)
    ensures Inv(skew, RunFrom(skew, s, steps))
  {
    if steps != [] {
      RunKeeps(skew, s, steps[..|steps| - 1]);
      StepKeeps(skew, RunFrom(skew, s, steps[..|steps| - 1]), steps[|steps| - 1]);
    }
  }

  /** Bounded staleness, in every run, for any number of isolates with any clock skews: a
      check that starts sixty seconds or more after the revocation became visible to its
      isolate never returns "not revoked". */
  lemma BoundedStaleness(skew: Skew, steps: seq<Step>, c: nat)
    requires c < |RunFrom(skew, Initial, steps).checks|
    ensures
      var s := RunFrom(skew, Initial, steps);
      var check := s.checks[c];
      check.phase.Returned? && check.place in s.visible && check.start >= s.visible[check.place] + CACHE_TTL_MS ==>
        check.phase.result
  {
    RunKeeps(skew, Initial, steps);
    assert CheckOk(skew, RunFrom(skew, Initial, steps), RunFrom(skew, Initial, steps).checks[c]);
  }

  lemma EndedStep(skew: Skew, s: State, step: Step, c: nat)
    requires c < |s.checks| && (s.checks[c].phase.Failed? || s.checks[c].phase.Returned?)
    ensures c < |Apply(skew, s, step).checks|
    ensures Apply(skew, s, step).checks[c] == s.checks[c]
  {
  }

  predicate IsPutting(s: State, r: nat) {
    r < |s.revokes| && s.revokes[r].phase.Putting?
  }

  /** A revocation that an isolate has seen stays seen, from the same time on. */
  lemma {:induction false} VisibleStays(skew: Skew, s: State, p: Place, steps: seq<Step>)
    requires p in s.visible
    ensures p in RunFrom(skew, s, steps).visible && RunFrom(skew, s, steps).visible[p] == s.visible[p]
  {
    if steps != [] {
      VisibleStays(skew, s, p, steps[..|steps| - 1]);
    }
  }

  /** A revocation whose write fails primes nothing, then or later; and without an entry the
      next check asks the store. */
  lemma NothingPrimed(skew: Skew, s: State, r: nat, p: Place)
    requires IsPutting(s, r)
    ensures
      var failed := Apply(skew, s, AbortRevoke(r));
      && failed == s.(revokes := failed.revokes) && |failed.revokes| == |s.revokes|
      && failed.revokes[r].phase.PutFailed? && Apply(skew, failed, Prime(r)) == failed
    ensures
      var evicted := Apply(skew, s, Evict(p));
      && p !in evicted.cache && evicted.visible == s.visible && evicted.checks == s.checks
      && Apply(skew, evicted, StartCheck(p)).checks ==
         s.checks + [Check(p, s.now, Waiting(s.now + skew(p.isolate)))]
  {
  }

  /** A check that is interrupted before it returns has no answer, then or later, and leaves
      the cache alone; one that has returned keeps its answer. */
  lemma {:induction false} EndedStaysEnded(skew: Skew, s: State, c: nat, steps: seq<Step>)
    requires c < |s.checks|
    ensures
      var t := RunFrom(skew, Apply(skew, s, AbortCheck(c)), steps);
      && c < |t.checks| && Apply(skew, s, AbortCheck(c)).cache == s.cache
      && t.checks[c] == s.checks[c].(phase := if s.checks[c].phase.Returned? then s.checks[c].phase else Failed)
  {
    var u := Apply(skew, s, AbortCheck(c));
    if steps != [] {
      EndedStaysEnded(skew, s, c, steps[..|steps| - 1]);
      EndedStep(skew, RunFrom(skew, u, steps[..|steps| - 1]), steps[|steps| - 1], c);
    }
  }

  // ---------- priming the revoking isolate's cache ----------

  /** A suspended check holding a "not revoked" answer that would still be fresh. */
  predicate HoldsStale(skew: Skew, s: State, p: Place, c: Check) {
    c.place == p && c.phase.Answered? && !c.phase.revoked && c.phase.localNow + CACHE_TTL_MS > s.now + skew(p.isolate)
  }

  predicate NoStaleHolder(skew: Skew, s: State, p: Place) {
    forall i :: 0 <= i < |s.checks| ==> !HoldsStale(skew, s, p, s.checks[i])
  }

  /** The store says revoked, and the cache does not say otherwise. */
  predicate Settled(skew: Skew, s: State, p: Place) {
    && p in s.visible
    && (p in s.cache && !s.cache[p].value ==> s.cache[p].expiresAt <= s.now + skew(p.isolate))
    && NoStaleHolder(skew, s, p)
  }

  /** The checks of `p` from number `from` on are not, and will not be, wrong. */
  predicate LaterChecksOk(s: State, p: Place, from: nat) {
    forall i :: from <= i < |s.checks| && s.checks[i].place == p ==>
      && (s.checks[i].phase.Answered? ==> s.checks[i].phase.revoked)
      && (s.checks[i].phase.Returned? ==> s.checks[i].phase.result)
  }

  lemma SettledStays(skew: Skew, s: State, p: Place, from: nat, step: Step)
    requires Settled(skew, s, p) && LaterChecksOk(s, p, from) && from <= |s.checks|
    ensures var t := Apply(skew, s, step); Settled(skew, t, p) && LaterChecksOk(t, p, from) && from <= |t.checks|
  {
    var t := Apply(skew, s, step);
    forall i | 0 <= i < |t.checks| ensures !HoldsStale(skew, t, p, t.checks[i]) {
      assert i < |s.checks| ==> !HoldsStale(skew, s, p, s.checks[i]);
    }
    assert step.Resume? && step.c < |s.checks| ==> !HoldsStale(skew, s, p, s.checks[step.c]);
  }

  lemma {:induction false} SettledRun(skew: Skew, s: State, p: Place, from: nat, steps: seq<Step>)
    requires Settled(skew, s, p) && LaterChecksOk(s, p, from) && from <= |s.checks|
    ensures
      var t := RunFrom(skew, s, steps);
      Settled(skew, t, p) && LaterChecksOk(t, p, from) && from <= |t.checks|
  {
    if steps != [] {
      SettledRun(skew, s, p, from, steps[..|steps| - 1]);
      SettledStays(skew, RunFrom(skew, s, steps[..|steps| - 1]), p, from, steps[|steps| - 1]);
    }
  }

  ghost predicate SeenAtOnce(skew: Skew, s: State, p: Place) {
    forall steps :: LaterChecksOk(RunFrom(skew, s, steps), p, |s.checks|)
  }

  /** From a state whose cache says "revoked" for `p`, as it does right after `revoke`
      primed it, every later check of `p` in that isolate is told so, in every run, if and
      only if the isolate already reads the revocation in the store and no suspended check
      still holds a fresh "not revoked" answer. */
  lemma PrimingIsImmediate(skew: Skew, s: State, p: Place)
    requires p in s.cache && s.cache[p].value
    ensures SeenAtOnce(skew, s, p) <==> p in s.visible && NoStaleHolder(skew, s, p)
  {
    if p !in s.visible {
      ExpiresUnseen(skew, s, p);
    } else if NoStaleHolder(skew, s, p) {
      forall steps ensures LaterChecksOk(RunFrom(skew, s, steps), p, |s.checks|) {
        SettledRun(skew, s, p, |s.checks|, steps);
      }
    } else {
      var c :| 0 <= c < |s.checks| && HoldsStale(skew, s, p, s.checks[c]);
      OverwritesPrimedEntry(skew, s, p, c);
    }
  }

  /** Until the primed entry has expired. */
  function Remaining(skew: Skew, s: State, p: Place): nat
    requires p in s.cache
  {
    var left := s.cache[p].expiresAt - (s.now + skew(p.isolate));
    if left > 0 then left else 0
  }

  /** The entry expires before the store shows the revocation, and the next check asks the
      store. */
  lemma ExpiresUnseen(skew: Skew, s: State, p: Place)
    requires p in s.cache && p !in s.visible
    ensures !LaterChecksOk(RunFrom(skew, s, [Tick(Remaining(skew, s, p)), StartCheck(p), Answer(|s.checks|)]), p,
            |s.checks|)
  {
    var r1 := [Tick(Remaining(skew, s, p))];
    var r2 := [Tick(Remaining(skew, s, p)), StartCheck(p)];
    var r3 := [Tick(Remaining(skew, s, p)), StartCheck(p), Answer(|s.checks|)];
    RunThen(skew, s, [], r1[0], r1);
    RunThen(skew, s, r1, StartCheck(p), r2);
    RunThen(skew, s, r2, Answer(|s.checks|), r3);
    var s1 := Apply(skew, s, r1[0]);
    var s2 := Apply(skew, s1, StartCheck(p));
    assert s2.checks[|s.checks|].phase.Waiting?;
    assert Apply(skew, s2, Answer(|s.checks|)).checks[|s.checks|].phase == Answered(s1.now + skew(p.isolate), false);
  }

  /** The suspended check overwrites the primed entry and the next check believes it. */
  lemma OverwritesPrimedEntry(skew: Skew, s: State, p: Place, c: nat)
    requires c < |s.checks| && HoldsStale(skew, s, p, s.checks[c])
    ensures !LaterChecksOk(RunFrom(skew, s, [Resume(c), StartCheck(p)]), p, |s.checks|)
  {
    var t := Apply(skew, s, Resume(c));
    assert t.cache[p] == Entry(false, s.checks[c].phase.localNow + CACHE_TTL_MS);
    assert Apply(skew, t, StartCheck(p)).checks[|s.checks|] == Check(p, s.now, Returned(false));
    RunThen(skew, s, [], Resume(c), [Resume(c)]);
    RunThen(skew, s, [Resume(c)], StartCheck(p), [Resume(c), StartCheck(p)]);
  }

  lemma RunThen(skew: Skew, s: State, first: seq<Step>, last: Step, all: seq<Step>)
    requires all == first + [last]
    ensures RunFrom(skew, s, all) == Apply(skew, RunFrom(skew, s, first), last)
  {
    assert all[..|all| - 1] == first;
  }

  /** Each revocation notes its isolate's clock at the time it started. */
  lemma {:induction false} RevokeHasStart(skew: Skew, steps: seq<Step>, r: nat) returns (n: nat)
    requires r < |RunFrom(skew, Initial, steps).revokes|
    ensures
      var v := RunFrom(skew, Initial, steps).revokes[r];
      && n < |steps| && steps[n] == StartRevoke(v.place)
      && v.ts == RunFrom(skew, Initial, steps[..n]).now + skew(v.place.isolate)
  {
    var front, last := steps[..|steps| - 1], steps[|steps| - 1];
    RevokesStay(skew, RunFrom(skew, Initial, front), last);
    if r < |RunFrom(skew, Initial, front).revokes| {
      n := RevokeHasStart(skew, front, r);
      assert front[..n] == steps[..n] && front[n] == steps[n];
    } else {
      n := |front|;
    }
  }

  lemma RevokesStay(skew: Skew, s: State, step: Step)
    ensures
      var t := Apply(skew, s, step);
      if step.StartRevoke? then t.revokes == s.revokes + [Revoke(step.place, s.now + skew(step.place.isolate), Putting)]
      else |t.revokes| == |s.revokes| && forall i :: 0 <= i < |s.revokes| ==>
             t.revokes[i].place == s.revokes[i].place && t.revokes[i].ts == s.revokes[i].ts
  {
  }

  /** A check in the revoking isolate after the write returned is answered from the primed
      entry, with "revoked", until sixty seconds after the revocation started on that
      isolate's clock; from then on it asks the store. */
  lemma PrimedIsRevoked(skew: Skew, s: State, r: nat, ms: nat)
    requires IsPutting(s, r)
    ensures
      var p := s.revokes[r].place;
      var primed := Apply(skew, s, Prime(r));
      var t := RunFrom(skew, primed, [Tick(ms), StartCheck(p)]);
      var local := s.now + ms + skew(p.isolate);
      && r < |primed.revokes| && primed.revokes[r].phase.Revoked? && primed.visible == s.visible
      && (SeenAtOnce(skew, primed, p) <==> p in s.visible && NoStaleHolder(skew, primed, p))
      && |t.checks| == |s.checks| + 1
      && t.checks[|s.checks|] ==
         Check(p, s.now + ms, if local < s.revokes[r].ts + 60_000 then Returned(true) else Waiting(local))
  {
    var p := s.revokes[r].place;
    var primed := Apply(skew, s, Prime(r));
    PrimingIsImmediate(skew, primed, p);
    RunThen(skew, primed, [], Tick(ms), [Tick(ms)]);
    RunThen(skew, primed, [Tick(ms)], StartCheck(p), [Tick(ms), StartCheck(p)]);
  }

  // ---------- the bound is tight ----------

  /** The check at `p` answers just before the store write lands and resumes after it. */
  function TightPrefix(p: Place): seq<Step> {
    [StartCheck(p), Answer(0), StartRevoke(p), Land(0, p.isolate)]
  }

  function TightRun(p: Place): seq<Step> {
    TightPrefix(p) + [Resume(0), Tick(CACHE_TTL_MS - 1), StartCheck(p)]
  }

  lemma AfterTightPrefix(skew: Skew, p: Place)
    ensures
      RunFrom(skew, Initial, TightPrefix(p)) == Suspended(p, skew(p.isolate))
  {
    RunThen(skew, Initial, [], StartCheck(p), [StartCheck(p)]);
    RunThen(skew, Initial, [StartCheck(p)], Answer(0), [StartCheck(p), Answer(0)]);
    RunThen(skew, Initial, [StartCheck(p), Answer(0)], StartRevoke(p), [StartCheck(p), Answer(0), StartRevoke(p)]);
    RunThen(skew, Initial, [StartCheck(p), Answer(0), StartRevoke(p)], Land(0, p.isolate), TightPrefix(p));
  }

  /** One check is suspended with its answer, one revocation has landed. */
  function Suspended(p: Place, local: int): State {
    State(0, map[p := 0], map[], [Check(p, 0, Answered(local, false))], [Revoke(p, local, Putting)])
  }

  lemma PrimeSuspended(skew: Skew, p: Place, local: int)
    ensures
      var t := Apply(skew, Suspended(p, local), Prime(0));
      && t.now == 0 && t.visible == map[p := 0] && t.checks == Suspended(p, local).checks
      && p in t.cache && t.cache[p].value
  {
  }

  /** A reachable state in which the cache has just been primed and a suspended check is
      about to undo it: the next check in that isolate is told "not revoked". */
  lemma PrimingCanBeUndone(skew: Skew, p: Place)
    ensures
      var s := RunFrom(skew, Initial, TightPrefix(p) + [Prime(0)]);
      && p in s.visible && p in s.cache && s.cache[p].value
      && !NoStaleHolder(skew, s, p) && !SeenAtOnce(skew, s, p)
  {
    var local := skew(p.isolate);
    AfterTightPrefix(skew, p);
    RunThen(skew, Initial, TightPrefix(p), Prime(0), TightPrefix(p) + [Prime(0)]);
    PrimeSuspended(skew, p, local);
    var s := Apply(skew, Suspended(p, local), Prime(0));
    assert HoldsStale(skew, s, p, s.checks[0]);
    PrimingIsImmediate(skew, s, p);
  }

  /** One millisecond earlier the answer can still be wrong, in any isolate. */
  lemma BoundIsTight(skew: Skew, p: Place)
    ensures
      var s := RunFrom(skew, Initial, TightRun(p));
      && |s.checks| == 2 && p in s.visible
      && s.checks[1] == Check(p, s.visible[p] + CACHE_TTL_MS - 1, Returned(false))
  {
    AfterTightPrefix(skew, p);
    var r0 := TightPrefix(p);
    var r1 := r0 + [Resume(0)];
    var r2 := r1 + [Tick(CACHE_TTL_MS - 1)];
    RunThen(skew, Initial, r0, Resume(0), r1);
    RunThen(skew, Initial, r1, Tick(CACHE_TTL_MS - 1), r2);
    RunThen(skew, Initial, r2, StartCheck(p), TightRun(p));
  }
}
