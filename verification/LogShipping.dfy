/** Shipping the log ring by heartbeat: the bridge sends what is above its mark and adopts
    the mark the server answers with; lines are logged, and answers lost, at any moment. */
module LogShipping {
  import opened LogRing

  /** A request is unserved, or the server has answered it, having stored its lines or not. */
  datatype Fate = Unserved | Served(stored: bool)

  /** One heartbeat request: the bridge's mark, and how many lines had been written, when it
      was built. */
  datatype Request = Request(mark: int, written: nat, fate: Fate)

  /** One process lifetime. `waiting`: the bridge awaits the answer to its last request. */
  datatype State = State(written: seq<Line>, mark: int, store: seq<Line>, requests: seq<Request>, waiting: bool)

  datatype Step =
    | Log(msg: string, at: int)
    | Send
    | Serve(i: nat, stored: bool)
    | Receive
    | GiveUp

  const Fresh := State([], 0, [], [], false)

  /** The lines a request carries: what was in the ring and above the mark. */
  function Carried(capacity: nat, written: seq<Line>, r: Request): seq<Line> {
    if r.written <= |written| then Unshipped(written[..r.written], capacity, r.mark) else []
  }

  /** The server keeps the lines above the request's mark. */
  function Above(lines: seq<Line>, mark: int): seq<Line> {
    if lines == [] then []
    else Above(lines[..|lines| - 1], mark) + if lines[|lines| - 1].seqNo > mark then [lines[|lines| - 1]] else []
  }

  /** The high-water mark it answers with: the newest line's number, stored or not. */
  function Answer(lines: seq<Line>, mark: int): int {
    var kept := Above(lines, mark);
    if kept == [] then mark else kept[|kept| - 1].seqNo
  }

  /** One step; a step that is not enabled changes nothing. A request the bridge has given
      up on may still be served. */
  function Apply(capacity: nat, s: State, step: Step): State {
    match step
    case Log(msg, at) => s.(written := s.written + [Line(|s.written| + 1, at, msg)])
    case Send =>
      if s.waiting then s
      else s.(requests := s.requests + [Request(s.mark, |s.written|, Unserved)], waiting := true)
    case Serve(i, stored) =>
      if i < |s.requests| && s.requests[i].fate.Unserved? then
        var r := s.requests[i];
        var lines := Carried(capacity, s.written, r);
        s.(requests := s.requests[i := r.(fate := Served(stored))],
           store := if stored then s.store + Above(lines, r.mark) else s.store)
      else s
    case Receive =>
      if s.waiting && s.requests != [] && s.requests[|s.requests| - 1].fate.Served? then
        var r := s.requests[|s.requests| - 1];
        s.(mark := Answer(Carried(capacity, s.written, r), r.mark), waiting := false)
      else s
    case GiveUp => s.(waiting := false)
  }

  function RunFrom(capacity: nat, s: State, steps: seq<Step>): State {
    if steps == [] then s
    else Apply(capacity, RunFrom(capacity, s, steps[..|steps| - 1]), steps[|steps| - 1])
  }

  function Run(capacity: nat, steps: seq<Step>): State {
    RunFrom(capacity, Fresh, steps)
  }

  // ---------- what a request carries ----------

  predicate AllAbove(lines: seq<Line>, mark: int) {
    forall i :: 0 <= i < |lines| ==> lines[i].seqNo > mark
  }

  lemma {:induction false} AboveAll(lines: seq<Line>, mark: int)
    requires AllAbove(lines, mark)
    ensures Above(lines, mark) == lines
  {
    if lines != [] {
      AboveAll(lines[..|lines| - 1], mark);
    }
  }

  predicate RequestOk(written: nat, r: Request) {
    0 <= r.mark <= r.written <= written
  }

  lemma NewestOf(past: seq<Line>, capacity: nat, mark: int)
    requires Consecutive(past) && 0 <= mark <= |past| && capacity > 0
    ensures
      var lines := Unshipped(past, capacity, mark);
      Above(lines, mark) == lines && Answer(lines, mark) == |past|
  {
    AboveAll(Unshipped(past, capacity, mark), mark);
  }

  lemma PastIsConsecutive(written: seq<Line>, n: nat)
    requires Consecutive(written) && n <= |written|
    ensures Consecutive(written[..n])
  {
  }

  /** The server's filter drops nothing, and its answer is the newest line at the time. */
  lemma AnswerIsNewest(capacity: nat, written: seq<Line>, r: Request)
    requires Consecutive(written) && RequestOk(|written|, r) && capacity > 0
    ensures
      var lines := Carried(capacity, written, r);
      Above(lines, r.mark) == lines && Answer(lines, r.mark) == r.written
  {
    PastIsConsecutive(written, r.written);
    NewestOf(written[..r.written], capacity, r.mark);
  }

  /** Line `q` was above the mark, and still in the ring, when the request was built. */
  predicate Covers(capacity: nat, r: Request, q: int) {
    r.mark < q <= r.written && q > r.written - capacity
  }

  lemma CarriedIs(capacity: nat, written: seq<Line>, r: Request, q: int)
    requires Consecutive(written) && RequestOk(|written|, r) && 1 <= q <= |written|
    ensures written[q - 1] in Carried(capacity, written, r) <==> Covers(capacity, r, q)
  {
    var past := written[..r.written];
    PastIsConsecutive(written, r.written);
    if q <= r.written {
      UnshippedIs(past, capacity, r.mark, q - 1);
      assert past[q - 1] == written[q - 1];
    } else {
      NewerIsAbsent(past, capacity, r.mark, written[q - 1]);
    }
  }

  lemma NewerIsAbsent(past: seq<Line>, capacity: nat, mark: int, l: Line)
    requires Consecutive(past) && l.seqNo > |past|
    ensures l !in Unshipped(past, capacity, mark)
  {
  }

  // ---------- what every step keeps ----------

  /** The answer the bridge waits for will not take its mark back. */
  predicate WaitOk(s: State) {
    s.waiting ==> s.requests != [] && s.requests[|s.requests| - 1].mark == s.mark
  }

  predicate Sound(s: State) {
    && Consecutive(s.written) && 0 <= s.mark <= |s.written| && WaitOk(s)
    && (forall i :: 0 <= i < |s.requests| ==> RequestOk(|s.written|, s.requests[i]))
    && (forall i :: 0 <= i < |s.store| ==> 1 <= s.store[i].seqNo <= |s.written|)
  }

  lemma ServeIs(capacity: nat, s: State, i: nat, stored: bool)
    requires capacity > 0 && Sound(s) && i < |s.requests| && s.requests[i].fate.Unserved?
    ensures Apply(capacity, s, Serve(i, stored)) ==
            s.(requests := s.requests[i := s.requests[i].(fate := Served(stored))],
               store := if stored then s.store + Carried(capacity, s.written, s.requests[i]) else s.store)
  {
    AnswerIsNewest(capacity, s.written, s.requests[i]);
  }

  lemma ReceiveIs(capacity: nat, s: State)
    requires capacity > 0 && Sound(s) && s.waiting && s.requests[|s.requests| - 1].fate.Served?
    ensures Apply(capacity, s, Receive) == s.(mark := s.requests[|s.requests| - 1].written, waiting := false)
  {
    AnswerIsNewest(capacity, s.written, s.requests[|s.requests| - 1]);
  }

  lemma CarriedNumbers(capacity: nat, written: seq<Line>, r: Request)
    requires Consecutive(written) && RequestOk(|written|, r)
    ensures forall i :: 0 <= i < |Carried(capacity, written, r)| ==>
              1 <= Carried(capacity, written, r)[i].seqNo <= |written|
  {
  }

  lemma ServeSound(capacity: nat, s: State, i: nat, stored: bool)
    requires capacity > 0 && Sound(s)
    ensures Sound(Apply(capacity, s, Serve(i, stored)))
  {
    if i < |s.requests| && s.requests[i].fate.Unserved? {
      ServeIs(capacity, s, i, stored);
      CarriedNumbers(capacity, s.written, s.requests[i]);
    }
  }

  lemma SoundStep(capacity: nat, s: State, step: Step)
    requires capacity > 0 && Sound(s)
    ensures Sound(Apply(capacity, s, step))
  {
    match step
    case Serve(i, stored) => ServeSound(capacity, s, i, stored);
    case Receive =>
      if s.waiting && s.requests[|s.requests| - 1].fate.Served? {
        ReceiveIs(capacity, s);
      }
    case _ =>
  }

  lemma {:induction false} SoundFrom(capacity: nat, s: State, steps: seq<Step>)
    requires capacity > 0 && Sound(s)
    ensures Sound(RunFrom(capacity, s, steps))
  {
    if steps != [] {
      SoundFrom(capacity, s, steps[..|steps| - 1]);
      SoundStep(capacity, RunFrom(capacity, s, steps[..|steps| - 1]), steps[|steps| - 1]);
    }
  }

  // ---------- exactly which lines are stored ----------

  predicate Stored(s: State, q: int)
    requires 1 <= q <= |s.written|
  {
    s.written[q - 1] in s.store
  }

  /** Some request with this outcome carried line `q`. */
  predicate CarriedBy(capacity: nat, requests: seq<Request>, fate: Fate, q: int) {
    exists i :: 0 <= i < |requests| && requests[i].fate == fate && Covers(capacity, requests[i], q)
  }

  predicate Exact(capacity: nat, s: State) {
    Sound(s) && forall q :: 1 <= q <= |s.written| ==>
        (Stored(s, q) <==> CarriedBy(capacity, s.requests, Served(true), q))
  }

  lemma LogExact(capacity: nat, s: State, msg: string, at: int)
    requires capacity > 0 && Exact(capacity, s)
    ensures Exact(capacity, Apply(capacity, s, Log(msg, at)))
  {
    var t := Apply(capacity, s, Log(msg, at));
    SoundStep(capacity, s, Log(msg, at));
    forall q | 1 <= q <= |t.written| ensures Stored(t, q) <==> CarriedBy(capacity, t.requests, Served(true), q) {
      if q <= |s.written| {
        assert t.written[q - 1] == s.written[q - 1];
        assert Stored(s, q) <==> CarriedBy(capacity, s.requests, Served(true), q);
      }
    }
  }

  lemma SendExact(capacity: nat, s: State)
    requires capacity > 0 && Exact(capacity, s)
    ensures Exact(capacity, Apply(capacity, s, Send))
  {
    var t := Apply(capacity, s, Send);
    SoundStep(capacity, s, Send);
    forall q | 1 <= q <= |t.written| ensures Stored(t, q) <==> CarriedBy(capacity, t.requests, Served(true), q) {
      assert Stored(s, q) <==> CarriedBy(capacity, s.requests, Served(true), q);
      if i :| 0 <= i < |s.requests| && s.requests[i].fate == Served(true) && Covers(capacity, s.requests[i], q) {
        assert t.requests[i] == s.requests[i];
      }
    }
  }

  /** Serving request `i` makes it count, and changes no other request. */
  lemma ServeCarries(capacity: nat, requests: seq<Request>, i: nat, stored: bool, q: int)
    requires i < |requests| && requests[i].fate.Unserved?
    ensures
      var next := requests[i := requests[i].(fate := Served(stored))];
      CarriedBy(capacity, next, Served(true), q) <==>
        CarriedBy(capacity, requests, Served(true), q) || (stored && Covers(capacity, requests[i], q))
  {
    var next := requests[i := requests[i].(fate := Served(stored))];
    if k :| 0 <= k < |requests| && requests[k].fate == Served(true) && Covers(capacity, requests[k], q) {
      assert next[k] == requests[k];
    }
    if stored && Covers(capacity, requests[i], q) {
      assert next[i].fate == Served(true) && Covers(capacity, next[i], q);
    }
  }

  lemma ServeExact(capacity: nat, s: State, i: nat, stored: bool)
    requires capacity > 0 && Exact(capacity, s)
    ensures Exact(capacity, Apply(capacity, s, Serve(i, stored)))
  {
    var t := Apply(capacity, s, Serve(i, stored));
    SoundStep(capacity, s, Serve(i, stored));
    if i < |s.requests| && s.requests[i].fate.Unserved? {
      ServeIs(capacity, s, i, stored);
      forall q | 1 <= q <= |t.written| ensures Stored(t, q) <==> CarriedBy(capacity, t.requests, Served(true), q) {
        assert Stored(s, q) <==> CarriedBy(capacity, s.requests, Served(true), q);
        CarriedIs(capacity, s.written, s.requests[i], q);
        ServeCarries(capacity, s.requests, i, stored, q);
      }
    }
  }

  lemma {:induction false} ExactRun(capacity: nat, steps: seq<Step>)
    requires capacity > 0
    ensures Exact(capacity, Run(capacity, steps))
  {
    if steps != [] {
      var s, last := Run(capacity, steps[..|steps| - 1]), steps[|steps| - 1];
      ExactRun(capacity, steps[..|steps| - 1]);
      match last
      case Log(msg, at) => LogExact(capacity, s, msg, at);
      case Send => SendExact(capacity, s);
      case Serve(i, stored) => ServeExact(capacity, s, i, stored);
      case _ => SoundStep(capacity, s, last);
    }
  }

  /** Over every run, a line is in the server's store if and only if some request that the
      server stored was built while the line was above the mark and still in the ring. */
  lemma StoredIff(capacity: nat, steps: seq<Step>, q: int)
    requires capacity > 0 && 1 <= q <= |Run(capacity, steps).written|
    ensures Stored(Run(capacity, steps), q) <==> CarriedBy(capacity, Run(capacity, steps).requests, Served(true), q)
  {
    ExactRun(capacity, steps);
  }

  // ---------- exactly which lines are lost ----------

  /** Line `q` was due in this answered request, but had been overwritten in the ring. */
  predicate Evicted(capacity: nat, r: Request, q: int) {
    r.fate.Served? && r.mark < q <= r.written - capacity
  }

  /** Line `q` was in this answered request, but the server's write failed. */
  predicate Dropped(capacity: nat, r: Request, q: int) {
    r.fate == Served(false) && Covers(capacity, r, q)
  }

  predicate Missed(capacity: nat, requests: seq<Request>, q: int) {
    exists i :: 0 <= i < |requests| && (Evicted(capacity, requests[i], q) || Dropped(capacity, requests[i], q))
  }

  /** The mark moved past line `q` with the answer to some request. */
  predicate Passed(requests: seq<Request>, q: int) {
    exists i :: 0 <= i < |requests| && requests[i].fate.Served? && requests[i].mark < q <= requests[i].written
  }

  predicate AllPassed(s: State) {
    Sound(s) && forall q :: 1 <= q <= s.mark ==> Passed(s.requests, q)
  }

  lemma PassedStays(requests: seq<Request>, next: seq<Request>, q: int)
    requires Passed(requests, q) && |requests| <= |next|
    requires forall i :: 0 <= i < |requests| && requests[i].fate.Served? ==> next[i] == requests[i]
    ensures Passed(next, q)
  {
    var i :| 0 <= i < |requests| && requests[i].fate.Served? && requests[i].mark < q <= requests[i].written;
    assert next[i] == requests[i];
  }

  lemma RequestsStay(capacity: nat, s: State, step: Step)
    ensures
      var next := Apply(capacity, s, step).requests;
      && |s.requests| <= |next|
      && forall i :: 0 <= i < |s.requests| && s.requests[i].fate.Served? ==> next[i] == s.requests[i]
  {
  }

  lemma MarkMoves(capacity: nat, s: State, step: Step)
    requires capacity > 0 && Sound(s)
    ensures
      var t := Apply(capacity, s, step);
      t.mark != s.mark ==>
        && t.requests == s.requests != [] && t.requests[|t.requests| - 1].fate.Served?
        && t.requests[|t.requests| - 1].mark == s.mark && t.requests[|t.requests| - 1].written == t.mark
  {
    if step.Receive? && s.waiting && s.requests[|s.requests| - 1].fate.Served? {
      ReceiveIs(capacity, s);
    }
  }

  lemma AllPassedStep(capacity: nat, s: State, step: Step)
    requires capacity > 0 && AllPassed(s)
    ensures AllPassed(Apply(capacity, s, step))
  {
    var t := Apply(capacity, s, step);
    SoundStep(capacity, s, step);
    MarkMoves(capacity, s, step);
    RequestsStay(capacity, s, step);
    forall q | 1 <= q <= t.mark ensures Passed(t.requests, q) {
      if q <= s.mark {
        PassedStays(s.requests, t.requests, q);
      } else {
        var r := t.requests[|t.requests| - 1];
        assert r.fate.Served? && r.mark < q <= r.written;
      }
    }
  }

  lemma {:induction false} AllPassedRun(capacity: nat, steps: seq<Step>)
    requires capacity > 0
    ensures AllPassed(Run(capacity, steps))
  {
    if steps != [] {
      AllPassedRun(capacity, steps[..|steps| - 1]);
      AllPassedStep(capacity, Run(capacity, steps[..|steps| - 1]), steps[|steps| - 1]);
    }
  }

  /** Over every run, each line up to the mark is in the server's store, or was evicted from
      the ring before an answered heartbeat, or was lost by the server after it had been
      acknowledged. */
  lemma EveryLineIsAccountedFor(capacity: nat, steps: seq<Step>, q: int)
    requires capacity > 0 && 1 <= q <= Run(capacity, steps).mark
    ensures
      var s := Run(capacity, steps);
      q <= |s.written| && (Missed(capacity, s.requests, q) || Stored(s, q))
  {
    var s := Run(capacity, steps);
    AllPassedRun(capacity, steps);
    ExactRun(capacity, steps);
    assert Passed(s.requests, q);
    var i :| 0 <= i < |s.requests| && s.requests[i].fate.Served? && s.requests[i].mark < q <= s.requests[i].written;
    if q <= s.requests[i].written - capacity {
      assert Evicted(capacity, s.requests[i], q);
    } else if s.requests[i].fate.stored {
      assert Covers(capacity, s.requests[i], q);
    } else {
      assert Dropped(capacity, s.requests[i], q);
    }
  }

  /** No later run can bring line `q` into the store. */
  ghost predicate LostForever(capacity: nat, s: State, q: int)
    requires 1 <= q <= |s.written|
  {
    forall more :: WrittenGrows(capacity, s, more, q) ==> !Stored(RunFrom(capacity, s, more), q)
  }

  predicate WrittenGrows(capacity: nat, s: State, more: seq<Step>, q: int) {
    1 <= q <= |RunFrom(capacity, s, more).written|
  }

  /** Not stored, not on its way, and never to be sent again. */
  predicate Gone(capacity: nat, s: State, q: int)
    requires 1 <= q <= |s.written|
  {
    && !Stored(s, q) && !CarriedBy(capacity, s.requests, Unserved, q)
    && (q <= s.mark || q <= |s.written| - capacity)
  }

  lemma {:induction false} WrittenOnlyGrows(capacity: nat, s: State, more: seq<Step>)
    ensures s.written <= RunFrom(capacity, s, more).written
  {
    if more != [] {
      WrittenOnlyGrows(capacity, s, more[..|more| - 1]);
    }
  }

  lemma NotOnItsWay(capacity: nat, requests: seq<Request>, next: seq<Request>, q: int)
    requires !CarriedBy(capacity, requests, Unserved, q) && |requests| <= |next| <= |requests| + 1
    requires forall k :: 0 <= k < |requests| ==> next[k] == requests[k] || next[k].fate.Served?
    requires |next| > |requests| ==> !Covers(capacity, next[|requests|], q)
    ensures !CarriedBy(capacity, next, Unserved, q)
  {
    forall k | 0 <= k < |next| ensures !(next[k].fate == Unserved && Covers(capacity, next[k], q)) {
      assert k < |requests| ==> !(requests[k].fate == Unserved && Covers(capacity, requests[k], q));
    }
  }

  lemma NotStoredByServe(capacity: nat, s: State, q: int, i: nat, stored: bool)
    requires capacity > 0 && Sound(s) && 1 <= q <= |s.written| && !Stored(s, q)
    requires !CarriedBy(capacity, s.requests, Unserved, q)
    ensures !Stored(Apply(capacity, s, Serve(i, stored)), q)
  {
    if i < |s.requests| && s.requests[i].fate.Unserved? {
      ServeIs(capacity, s, i, stored);
      CarriedIs(capacity, s.written, s.requests[i], q);
      assert !Covers(capacity, s.requests[i], q);
    }
  }

  lemma GoneStep(capacity: nat, s: State, q: int, step: Step)
    requires capacity > 0 && Sound(s) && 1 <= q <= |s.written| && Gone(capacity, s, q)
    ensures q <= |Apply(capacity, s, step).written| && Gone(capacity, Apply(capacity, s, step), q)
  {
    var t := Apply(capacity, s, step);
    MarkMoves(capacity, s, step);
    assert s.mark <= t.mark;
    if step.Serve? {
      NotStoredByServe(capacity, s, q, step.i, step.stored);
    }
    NotOnItsWay(capacity, s.requests, t.requests, q);
    assert t.written[q - 1] == s.written[q - 1];
  }

  lemma {:induction false} GoneStays(capacity: nat, s: State, q: int, more: seq<Step>)
    requires capacity > 0 && Sound(s) && 1 <= q <= |s.written| && Gone(capacity, s, q)
    ensures q <= |RunFrom(capacity, s, more).written| && Gone(capacity, RunFrom(capacity, s, more), q)
  {
    if more != [] {
      var front := more[..|more| - 1];
      GoneStays(capacity, s, q, front);
      SoundFrom(capacity, s, front);
      GoneStep(capacity, RunFrom(capacity, s, front), q, more[|more| - 1]);
    }
  }

  lemma ServeStores(capacity: nat, s: State, q: int, i: nat)
    requires capacity > 0 && Sound(s) && 1 <= q <= |s.written| && i < |s.requests|
    requires s.requests[i].fate.Unserved? && Covers(capacity, s.requests[i], q)
    ensures Stored(Apply(capacity, s, Serve(i, true)), q)
  {
    ServeIs(capacity, s, i, true);
    CarriedIs(capacity, s.written, s.requests[i], q);
  }

  lemma OneStep(capacity: nat, s: State, step: Step)
    ensures RunFrom(capacity, s, [step]) == Apply(capacity, s, step)
  {
    assert [step][..0] == [];
    assert RunFrom(capacity, s, []) == s;
  }

  lemma OneMore(capacity: nat, s: State, more: seq<Step>, step: Step)
    ensures RunFrom(capacity, s, more + [step]) == Apply(capacity, RunFrom(capacity, s, more), step)
  {
    assert (more + [step])[..|more|] == more;
  }

  /** A line that is in the ring and above the mark can still be sent and stored. */
  lemma StillSendable(capacity: nat, s: State, q: int) returns (more: seq<Step>)
    requires capacity > 0 && Sound(s) && 1 <= q <= |s.written| && q > s.mark && q > |s.written| - capacity
    ensures q <= |RunFrom(capacity, s, more).written| && Stored(RunFrom(capacity, s, more), q)
  {
    var i := |s.requests|;
    OneStep(capacity, s, GiveUp);
    var s1 := Apply(capacity, s, GiveUp);
    var r1 := [GiveUp];
    OneMore(capacity, s, r1, Send);
    var s2 := Apply(capacity, s1, Send);
    var r2 := r1 + [Send];
    OneMore(capacity, s, r2, Serve(i, true));
    SoundFrom(capacity, s, r2);
    ServeStores(capacity, s2, q, i);
    more := r2 + [Serve(i, true)];
  }

  lemma StillOnItsWay(capacity: nat, s: State, q: int) returns (more: seq<Step>)
    requires capacity > 0 && Sound(s) && 1 <= q <= |s.written| && CarriedBy(capacity, s.requests, Unserved, q)
    ensures q <= |RunFrom(capacity, s, more).written| && Stored(RunFrom(capacity, s, more), q)
  {
    var i :| 0 <= i < |s.requests| && s.requests[i].fate == Unserved && Covers(capacity, s.requests[i], q);
    OneStep(capacity, s, Serve(i, true));
    ServeStores(capacity, s, q, i);
    more := [Serve(i, true)];
  }

  /** A line is lost for good if and only if it is not stored, no unserved request carries
      it, and it is at or below the mark or overwritten in the ring. */
  lemma LostIff(capacity: nat, steps: seq<Step>, q: int)
    requires capacity > 0 && 1 <= q <= |Run(capacity, steps).written|
    ensures LostForever(capacity, Run(capacity, steps), q) <==> Gone(capacity, Run(capacity, steps), q)
  {
    var s := Run(capacity, steps);
    SoundFrom(capacity, Fresh, steps);
    if Gone(capacity, s, q) {
      forall more | WrittenGrows(capacity, s, more, q) ensures !Stored(RunFrom(capacity, s, more), q) {
        GoneStays(capacity, s, q, more);
      }
    } else {
      var more: seq<Step> := [];
      if CarriedBy(capacity, s.requests, Unserved, q) {
        more := StillOnItsWay(capacity, s, q);
      } else if !Stored(s, q) {
        more := StillSendable(capacity, s, q);
      }
      assert WrittenGrows(capacity, s, more, q) && Stored(RunFrom(capacity, s, more), q);
    }
  }

  /** The server acknowledges a line although storing it failed: it is lost for good. */
  lemma AcknowledgedLineIsLost(capacity: nat, msg: string, at: int)
    requires capacity > 0
    ensures
      var s := Run(capacity, [Log(msg, at), Send, Serve(0, false), Receive]);
      s.mark == 1 == |s.written| && LostForever(capacity, s, 1)
  {
    var r1 := [Log(msg, at)];
    var r2 := [Log(msg, at), Send];
    var r3 := [Log(msg, at), Send, Serve(0, false)];
    var r4 := [Log(msg, at), Send, Serve(0, false), Receive];
    assert r2 == r1 + [Send] && r3 == r2 + [Serve(0, false)] && r4 == r3 + [Receive];
    OneStep(capacity, Fresh, Log(msg, at));
    OneMore(capacity, Fresh, r1, Send);
    OneMore(capacity, Fresh, r2, Serve(0, false));
    OneMore(capacity, Fresh, r3, Receive);
    AcknowledgedState(capacity, Line(1, at, msg));
    LostIff(capacity, r4, 1);
  }

  lemma AcknowledgedState(capacity: nat, l: Line)
    requires capacity > 0 && l.seqNo == 1
    ensures
      var s2 := State([l], 0, [], [Request(0, 1, Unserved)], true);
      var s3 := State([l], 0, [], [Request(0, 1, Served(false))], true);
      var s4 := State([l], 1, [], [Request(0, 1, Served(false))], false);
      && Apply(capacity, s2, Serve(0, false)) == s3 && Apply(capacity, s3, Receive) == s4
      && Gone(capacity, s4, 1)
  {
    AnswerIsNewest(capacity, [l], Request(0, 1, Served(false)));
  }

  // ---------- when the store is the log ----------

  /** No answer is lost, the server stores what it acknowledges, and every heartbeat finds
      all unshipped lines still in the ring. */
  predicate CalmStep(capacity: nat, s: State, step: Step) {
    && !step.GiveUp? && (step.Serve? ==> step.stored)
    && (step.Send? && !s.waiting ==> |s.written| - capacity <= s.mark)
  }

  predicate Calm(capacity: nat, steps: seq<Step>) {
    steps == [] ||
    (Calm(capacity, steps[..|steps| - 1]) &&
        CalmStep(capacity, Run(capacity, steps[..|steps| - 1]), steps[|steps| - 1]))
  }

  /** How far the store reaches: to the mark, or as far as the answer on its way will say. */
  function Reach(s: State): int {
    if s.waiting && s.requests != [] && s.requests[|s.requests| - 1].fate.Served?
    then s.requests[|s.requests| - 1].written else s.mark
  }

  predicate OnlyLastUnserved(s: State) {
    && (forall i :: 0 <= i < |s.requests| - 1 ==> s.requests[i].fate.Served?)
    && (!s.waiting && s.requests != [] ==> s.requests[|s.requests| - 1].fate.Served?)
  }

  predicate IsTheLog(capacity: nat, s: State) {
    && Sound(s) && OnlyLastUnserved(s)
    && (s.waiting ==> s.requests[|s.requests| - 1].written - capacity <= s.mark)
    && 0 <= Reach(s) <= |s.written| && s.store == s.written[..Reach(s)]
  }

  lemma CarriedWhenKeptUp(capacity: nat, written: seq<Line>, r: Request)
    requires RequestOk(|written|, r) && r.written - capacity <= r.mark
    ensures written[..r.mark] + Carried(capacity, written, r) == written[..r.written]
  {
    var past := written[..r.written];
    assert Carried(capacity, written, r) == past[r.mark..];
    assert past == past[..r.mark] + past[r.mark..] && past[..r.mark] == written[..r.mark];
  }

  lemma ServeLast(capacity: nat, s: State, i: nat)
    requires capacity > 0 && IsTheLog(capacity, s) && i < |s.requests| && s.requests[i].fate.Unserved?
    ensures IsTheLog(capacity, Apply(capacity, s, Serve(i, true)))
  {
    SoundStep(capacity, s, Serve(i, true));
    ServeIs(capacity, s, i, true);
    CarriedWhenKeptUp(capacity, s.written, s.requests[i]);
  }

  lemma CalmKeeps(capacity: nat, s: State, step: Step)
    requires capacity > 0 && IsTheLog(capacity, s) && CalmStep(capacity, s, step)
    ensures IsTheLog(capacity, Apply(capacity, s, step))
  {
    SoundStep(capacity, s, step);
    match step
    case Serve(i, stored) =>
      if i < |s.requests| && s.requests[i].fate.Unserved? {
        ServeLast(capacity, s, i);
      }
    case Receive =>
      if s.waiting && s.requests[|s.requests| - 1].fate.Served? {
        ReceiveIs(capacity, s);
      }
    case Log(msg, at) =>
      assert (s.written + [Line(|s.written| + 1, at, msg)])[..Reach(s)] == s.written[..Reach(s)];
    case Send =>
  }

  /** Then the store is exactly the log up to the mark: complete, in order, no line twice,
      whatever is logged between sending and receiving. */
  lemma {:induction false} StoreIsTheLog(capacity: nat, steps: seq<Step>)
    requires capacity > 0 && Calm(capacity, steps)
    ensures IsTheLog(capacity, Run(capacity, steps))
  {
    if steps != [] {
      StoreIsTheLog(capacity, steps[..|steps| - 1]);
      CalmKeeps(capacity, Run(capacity, steps[..|steps| - 1]), steps[|steps| - 1]);
    }
  }
}
