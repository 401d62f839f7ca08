/** The rolling 24-hour counter: 1440 one-minute buckets, shifted in place. */
module Window24h {
  import opened Text

  const MINUTES := 1440

  /** The buckets are 32-bit signed counters. */
  function Wrap32(x: int): int {
    (x + 0x8000_0000) % 0x1_0000_0000 - 0x8000_0000
  }

  predicate Fits32(x: int) {
    -0x8000_0000 <= x < 0x8000_0000
  }

  /** `n` events recorded in one minute. */
  datatype Event = Event(minute: int, n: int)

  /** Events of the whole history in one minute. */
  function CountAt(events: seq<Event>, minute: int): int {
    if events == [] then 0
    else
      var e := events[|events| - 1];
      CountAt(events[..|events| - 1], minute) + if e.minute == minute then e.n else 0
  }

  /** No single minute of the window that ends at `now` has more events than its bucket can
      count; minutes before the window do not matter. */
  predicate NoOverflow(events: seq<Event>, now: int) {
    forall m :: now - MINUTES < m <= now ==> Fits32(CountAt(events, m))
  }

  /** Events of the whole history after a minute. */
  function CountAfter(events: seq<Event>, minute: int): int {
    if events == [] then 0
    else
      var e := events[|events| - 1];
      CountAfter(events[..|events| - 1], minute) + if e.minute > minute then e.n else 0
  }

  /** The minutes `from`, `from + 1`, ... counted one by one and added up. */
  function SumOfMinutes(events: seq<Event>, from: int, k: nat): int {
    if k == 0 then 0 else SumOfMinutes(events, from, k - 1) + CountAt(events, from + k - 1)
  }

  /** The same with each minute as its bucket shows it. */
  function SumOfBuckets(events: seq<Event>, from: int, k: nat): int {
    if k == 0 then 0 else SumOfBuckets(events, from, k - 1) + Wrap32(CountAt(events, from + k - 1))
  }

  lemma {:induction false} BucketsShowMinutes(events: seq<Event>, from: int, k: nat)
    requires forall m :: from <= m < from + k ==> Fits32(CountAt(events, m))
    ensures SumOfBuckets(events, from, k) == SumOfMinutes(events, from, k)
  {
    if k > 0 {
      BucketsShowMinutes(events, from, k - 1);
      assert Fits32(CountAt(events, from + k - 1));
    }
  }

  predicate NoneAfter(events: seq<Event>, minute: int) {
    forall i :: 0 <= i < |events| ==> events[i].minute <= minute
  }

  lemma {:induction false} SumOfMinutesStep(events: seq<Event>, from: int, k: nat)
    requires events != []
    ensures
      var e := events[|events| - 1];
      SumOfMinutes(events, from, k) ==
        SumOfMinutes(events[..|events| - 1], from, k) + if from <= e.minute < from + k then e.n else 0
  {
    if k > 0 {
      SumOfMinutesStep(events, from, k - 1);
    }
  }

  lemma {:induction false} SumOfMinutesOfNone(from: int, k: nat)
    ensures SumOfMinutes([], from, k) == 0
  {
    if k > 0 {
      SumOfMinutesOfNone(from, k - 1);
    }
  }

  /** The buckets of the last `k` minutes together hold every event after the minute before
      them, because none lies in the future. */
  lemma {:induction false} MinutesCoverWindow(events: seq<Event>, now: int, k: nat)
    requires NoneAfter(events, now)
    ensures SumOfMinutes(events, now - k + 1, k) == CountAfter(events, now - k)
  {
    if events == [] {
      SumOfMinutesOfNone(now - k + 1, k);
    } else {
      MinutesCoverWindow(events[..|events| - 1], now, k);
      SumOfMinutesStep(events, now - k + 1, k);
    }
  }

  lemma {:induction false} NothingLater(events: seq<Event>, now: int, minute: int)
    requires NoneAfter(events, now) && minute > now
    ensures CountAt(events, minute) == 0
  {
    if events != [] {
      NothingLater(events[..|events| - 1], now, minute);
    }
  }

  lemma WrapAdds(a: int, n: int)
    ensures Wrap32(Wrap32(a) + n) == Wrap32(a + n)
  {
    var m := 0x1_0000_0000;
    var q := (a + 0x8000_0000) / m;
    assert Wrap32(a) + n + 0x8000_0000 == (a + n + 0x8000_0000) - q * m;
    ModMinus(a + n + 0x8000_0000, q);
  }

  lemma ModMinus(x: int, q: int)
    ensures (x - q * 0x1_0000_0000) % 0x1_0000_0000 == x % 0x1_0000_0000
  {
  }

  /** The whole minute of a time in seconds. */
  function Minute(t: int): (m: int)
    ensures 60 * m <= t < 60 * (m + 1)
  {
    t / 60
  }

  class Window {
    const buckets: array<int>
    /** The minute of the last bucket, once the first event or query has set it. */
    var start: Option<int>
    /** Everything ever recorded. */
    ghost var events: seq<Event>

    ghost predicate Valid()
      reads this, buckets
    {
      && buckets.Length == MINUTES
      && (start.None? ==> events == [] && forall i :: 0 <= i < MINUTES ==> buckets[i] == 0)
      && (start.Some? ==> NoneAfter(events, start.value) && Holds(start.value))
    }

    /** Bucket `i` counts the minute `MINUTES - 1 - i` minutes before `last`. */
    ghost predicate Holds(last: int)
      requires buckets.Length == MINUTES
      reads this, buckets
    {
      forall i :: 0 <= i < MINUTES ==> buckets[i] == Wrap32(CountAt(events, last - (MINUTES - 1) + i))
    }

    constructor ()
      ensures Valid() && fresh(buckets) && start.None? && events == []
    {
      buckets := new int[MINUTES](_ => 0);
      start := None;
      events := [];
    }

    /** Rolls the buckets forward to the minute of `t`; an earlier time changes nothing. */
    method Advance(t: int)
      requires Valid()
      modifies this`start, buckets
      ensures Valid() && start.Some?
      ensures start.value == if old(start).Some? && old(start).value > Minute(t) then old(start).value else Minute(t)
    {
      if start.None? {
        start := Some(Minute(t));
        return;
      }
      var elapsed := Minute(t) - start.value;
      if elapsed <= 0 {
        return;
      }
      ghost var last := start.value;
      if elapsed >= buckets.Length {
        for i := 0 to buckets.Length
          invariant forall j :: 0 <= j < i ==> buckets[j] == 0
        {
          buckets[i] := 0;
        }
        start := Some(Minute(t));
      } else {
        Shift(elapsed);
        start := Some(start.value + elapsed);
      }
      forall i | 0 <= i < MINUTES ensures buckets[i] == Wrap32(CountAt(events, start.value - (MINUTES - 1) + i)) {
        var m := start.value - (MINUTES - 1) + i;
        if m > last {
          NothingLater(events, last, m);
        } else {
          assert i + elapsed < MINUTES;
        }
      }
    }

    /** Moves every bucket `elapsed` places to the left and clears the rest. */
    method Shift(elapsed: int)
      requires buckets.Length == MINUTES && 0 < elapsed < MINUTES
      modifies buckets
      ensures forall i :: 0 <= i < MINUTES - elapsed ==> buckets[i] == old(buckets[i + elapsed])
      ensures forall i :: MINUTES - elapsed <= i < MINUTES ==> buckets[i] == 0
    {
      for i := 0 to MINUTES - elapsed
        invariant forall j :: 0 <= j < i ==> buckets[j] == old(buckets[j + elapsed])
        invariant forall j :: i <= j < MINUTES ==> buckets[j] == old(buckets[j])
      {
        buckets[i] := buckets[i + elapsed];
      }
      for i := MINUTES - elapsed to MINUTES
        invariant forall j :: 0 <= j < MINUTES - elapsed ==> buckets[j] == old(buckets[j + elapsed])
        invariant forall j :: MINUTES - elapsed <= j < i ==> buckets[j] == 0
      {
        buckets[i] := 0;
      }
    }

    /** Records `n` events at `t`. */
    method Add(t: int, n: int)
      requires Valid() && Fits32(n)
      modifies this, buckets
      ensures Valid() && start.Some?
      ensures start.value == if old(start).Some? && old(start).value > Minute(t) then old(start).value else Minute(t)
      ensures events == old(events) + [Event(start.value, n)]
    {
      Advance(t);
      ghost var before := events;
      events := events + [Event(start.value, n)];
      assert events[..|before|] == before;
      WrapAdds(CountAt(before, start.value), n);
      buckets[MINUTES - 1] := Wrap32(buckets[MINUTES - 1] + n);
    }

    /** The events of the last 1440 minutes, exactly so as long as no minute of the window
        overflows its bucket, and otherwise with each minute wrapped. */
    method Sum(t: int) returns (s: int)
      requires Valid()
      modifies this`start, buckets
      ensures Valid() && start.Some? && events == old(events)
      ensures start.value == if old(start).Some? && old(start).value > Minute(t) then old(start).value else Minute(t)
      ensures s == SumOfBuckets(events, start.value - MINUTES + 1, MINUTES)
      ensures NoOverflow(events, start.value) ==> s == CountAfter(events, start.value - MINUTES)
    {
      Advance(t);
      ghost var from := start.value - MINUTES + 1;
      s := 0;
      for i := 0 to MINUTES
        invariant s == SumOfBuckets(events, from, i)
      {
        assert buckets[i] == Wrap32(CountAt(events, from + i));
        s := s + buckets[i];
      }
      if NoOverflow(events, start.value) {
        SumIsCount(events, start.value);
      }
    }
  }

  lemma SumIsCount(events: seq<Event>, now: int)
    requires NoneAfter(events, now) && NoOverflow(events, now)
    ensures SumOfBuckets(events, now - MINUTES + 1, MINUTES) == CountAfter(events, now - MINUTES)
  {
    MinutesCoverWindow(events, now, MINUTES);
    BucketsShowMinutes(events, now - MINUTES + 1, MINUTES);
  }

  // ---------- whole sessions ----------

  datatype Call = Added(t: int, n: int) | Queried(t: int)

  /** A clock that does not go back. */
  predicate Steady(calls: seq<Call>, now: int) {
    calls == [] || (calls[|calls| - 1].t <= now && Steady(calls[..|calls| - 1], calls[|calls| - 1].t))
  }

  /** What was recorded, each event in the minute of its own call. */
  function Recorded(calls: seq<Call>): seq<Event> {
    if calls == [] then []
    else
      var c := calls[|calls| - 1];
      Recorded(calls[..|calls| - 1]) + if c.Added? then [Event(Minute(c.t), c.n)] else []
  }

  predicate Fit(calls: seq<Call>) {
    calls == [] || (Fit(calls[..|calls| - 1]) && (calls[|calls| - 1].Added? ==> Fits32(calls[|calls| - 1].n)))
  }

  /** One call of a session whose history so far is `h`. */
  method OneCall(w: Window, call: Call, ghost h: seq<Event>)
    requires w.Valid() && w.events == h && (call.Added? ==> Fits32(call.n))
    requires w.start.Some? ==> w.start.value <= Minute(call.t)
    modifies w, w.buckets
    ensures w.Valid() && w.start == Some(Minute(call.t))
    ensures w.events == h + if call.Added? then [Event(Minute(call.t), call.n)] else []
  {
    if call.Added? {
      w.Add(call.t, call.n);
    } else {
      var _ := w.Sum(call.t);
    }
  }

  /** A whole session on a new counter, call by call. */
  method Replay(calls: seq<Call>, now: int) returns (w: Window)
    requires Steady(calls, now) && Fit(calls)
    ensures fresh(w) && fresh(w.buckets) && w.Valid() && w.events == Recorded(calls)
    ensures w.start.Some? ==> w.start.value <= Minute(now)
    decreases |calls|
  {
    if calls == [] {
      w := new Window();
    } else {
      var front, last := calls[..|calls| - 1], calls[|calls| - 1];
      w := Replay(front, last.t);
      OneCall(w, last, Recorded(front));
    }
  }

  /** Over any session of additions and queries on a clock that does not go back, a query
      answers with the number of events of the whole session whose minute is less than
      1440 minutes before the current one. */
  method AnySession(calls: seq<Call>, now: int) returns (s: int)
    requires Steady(calls, now) && Fit(calls)
    ensures NoOverflow(Recorded(calls), Minute(now)) ==> s == CountAfter(Recorded(calls), Minute(now) - MINUTES)
  {
    var w := Replay(calls, now);
    s := w.Sum(now);
  }
}
