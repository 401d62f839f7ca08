/** The sliding-window lockout for failed authentications. */
module Lockout {
  import opened Text

  /** Window and cooldown are durations; `NewLockoutWith` makes all three positive. */
  datatype Config = Config(window: int, limit: int, cooldown: int)

  predicate Proper(c: Config) {
    c.window > 0 && c.limit > 0 && c.cooldown > 0
  }

  const DefaultWindow := 60
  const DefaultLimit := 5
  const DefaultCooldown := 300

  datatype User = User(failures: seq<int>, lockedUntil: Option<int>)

  const Unknown := User([], None)

  predicate Locked(u: User, now: int) {
    u.lockedUntil.Some? && now < u.lockedUntil.value
  }

  /** The times after `cutoff`, in order. */
  function Prune(times: seq<int>, cutoff: int): seq<int> {
    if times == [] then []
    else
      var t := times[|times| - 1];
      Prune(times[..|times| - 1], cutoff) + if t > cutoff then [t] else []
  }

  /** One failure of one user. */
  function Fail(c: Config, u: User, now: int): User {
    if Locked(u, now) then u.(lockedUntil := Some(now + c.cooldown))
    else
      var failures := Prune(u.failures, now - c.window) + [now];
      if |failures| >= c.limit then User([], Some(now + c.cooldown)) else u.(failures := failures)
  }

  /** Whether that failure leaves the user locked. */
  predicate Trips(c: Config, u: User, now: int) {
    Locked(u, now) || |Prune(u.failures, now - c.window)| + 1 >= c.limit
  }

  class Guard {
    const config: Config
    var state: map<string, User>

    constructor (window: int, limit: int, cooldown: int)
      ensures Proper(config) && state == map[]
      ensures window > 0 ==> config.window == window
      ensures limit > 0 ==> config.limit == limit
      ensures cooldown > 0 ==> config.cooldown == cooldown
      ensures window <= 0 ==> config.window == 60
      ensures limit <= 0 ==> config.limit == 5
      ensures cooldown <= 0 ==> config.cooldown == 300
    {
      config := Config(
        if window <= 0 then DefaultWindow else window,
        if limit <= 0 then DefaultLimit else limit,
        if cooldown <= 0 then DefaultCooldown else cooldown);
      state := map[];
    }

    method CheckLocked(username: string, now: int) returns (locked: bool)
      ensures locked == Locked(Get(state, username), now)
    {
      if username !in state {
        return false;
      }
      return state[username].lockedUntil.Some? && now < state[username].lockedUntil.value;
    }

    method RecordFailure(username: string, now: int) returns (tripped: bool)
      requires Proper(config)
      modifies this
      ensures state == Record(config, old(state), Failure(username, now))
      ensures tripped == Trips(config, Get(old(state), username), now)
      ensures tripped <==> Locked(Get(state, username), now)
    {
      var st := if username in state then state[username] else Unknown;
      if st.lockedUntil.Some? && now < st.lockedUntil.value {
        state := state[username := st.(lockedUntil := Some(now + config.cooldown))];
        return true;
      }
      var cutoff := now - config.window;
      var pruned := [];
      for i := 0 to |st.failures|
        invariant pruned == Prune(st.failures[..i], cutoff)
      {
        assert st.failures[..i + 1][..i] == st.failures[..i];
        if st.failures[i] > cutoff {
          pruned := pruned + [st.failures[i]];
        }
      }
      assert st.failures[..|st.failures|] == st.failures;
      var failures := pruned + [now];
      if |failures| >= config.limit {
        state := state[username := User([], Some(now + config.cooldown))];
        return true;
      }
      state := state[username := st.(failures := failures)];
      return false;
    }

    method RecordSuccess(username: string)
      modifies this
      ensures state == Record(config, old(state), Success(username))
    {
      state := state - {username};
    }
  }

  // ---------- whole histories ----------

  datatype Event = Failure(user: string, now: int) | Success(user: string)

  function Get(m: map<string, User>, name: string): User {
    if name in m then m[name] else Unknown
  }

  function Record(c: Config, m: map<string, User>, e: Event): map<string, User> {
    match e
    case Failure(user, now) => m[user := Fail(c, Get(m, user), now)]
    case Success(user) => m - {user}
  }

  function History(c: Config, events: seq<Event>): map<string, User> {
    if events == [] then map[] else Record(c, History(c, events[..|events| - 1]), events[|events| - 1])
  }

  /** The times of one user's failures since that user's last success. */
  function Since(events: seq<Event>, name: string): seq<int> {
    if events == [] then []
    else
      var before := Since(events[..|events| - 1], name);
      var e := events[|events| - 1];
      if e.user != name then before else if e.Success? then [] else before + [e.now]
  }

  /** One user after failures at these times. */
  function After(c: Config, times: seq<int>): User {
    if times == [] then Unknown else Fail(c, After(c, times[..|times| - 1]), times[|times| - 1])
  }

  /** Users do not affect each other, and a success forgets everything. */
  lemma {:induction false} OnlyOwnFailuresCount(c: Config, events: seq<Event>, name: string)
    ensures Get(History(c, events), name) == After(c, Since(events, name))
  {
    if events != [] {
      var front, e := events[..|events| - 1], events[|events| - 1];
      OnlyOwnFailuresCount(c, front, name);
      if e.user == name && e.Failure? {
        var before := Since(front, name);
        assert (before + [e.now])[..|before|] == before;
      }
    }
  }

  /** A clock that does not go back. */
  predicate SortedUpTo(times: seq<int>, now: int) {
    times == [] || (times[|times| - 1] <= now && SortedUpTo(times[..|times| - 1], times[|times| - 1]))
  }

  // ---------- the pruned list agrees with the whole history ----------

  /** The simple form: remember every failure since the last lock, and count those inside
      the window each time. */
  function FailSimply(c: Config, u: User, now: int): User {
    if Locked(u, now) then u.(lockedUntil := Some(now + c.cooldown))
    else
      var all := u.failures + [now];
      if |Prune(all, now - c.window)| >= c.limit then User([], Some(now + c.cooldown)) else u.(failures := all)
  }

  function AfterSimply(c: Config, times: seq<int>): User {
    if times == [] then Unknown else FailSimply(c, AfterSimply(c, times[..|times| - 1]), times[|times| - 1])
  }

  lemma {:induction false} PruneTwice(times: seq<int>, a: int, b: int)
    requires a <= b
    ensures Prune(Prune(times, a), b) == Prune(times, b)
  {
    if times != [] {
      var front, t := times[..|times| - 1], times[|times| - 1];
      PruneTwice(front, a, b);
      if t > a {
        PruneMore(Prune(front, a), t, b);
      } else {
        assert Prune(front, a) + [] == Prune(front, a);
      }
    }
  }

  lemma PruneMore(times: seq<int>, t: int, cutoff: int)
    ensures Prune(times + [t], cutoff) == Prune(times, cutoff) + if t > cutoff then [t] else []
  {
    assert (times + [t])[..|times|] == times;
  }

  /** The last cutoff that was applied, or one before everything. */
  ghost predicate Agrees(c: Config, u: User, v: User, last: int) {
    && u.lockedUntil == v.lockedUntil
    && exists cutoff :: cutoff <= last - c.window && u.failures == Prune(v.failures, cutoff)
  }

  /** Both forms count the same failures inside the window. */
  lemma SameCount(c: Config, kept: seq<int>, all: seq<int>, cutoff: int, now: int)
    requires Proper(c) && kept == Prune(all, cutoff) && cutoff <= now - c.window
    ensures Prune(kept, now - c.window) + [now] == Prune(all + [now], now - c.window)
  {
    PruneTwice(all, cutoff, now - c.window);
    PruneMore(all, now, now - c.window);
  }

  lemma AgreesStep(c: Config, u: User, v: User, last: int, now: int)
    requires Proper(c) && Agrees(c, u, v, last) && last <= now
    ensures Agrees(c, Fail(c, u, now), FailSimply(c, v, now), now)
    ensures Trips(c, u, now) <==> Locked(FailSimply(c, v, now), now)
  {
    var cutoff :| cutoff <= last - c.window && u.failures == Prune(v.failures, cutoff);
    var w, x := Fail(c, u, now), FailSimply(c, v, now);
    SameCount(c, u.failures, v.failures, cutoff, now);
    if Locked(u, now) {
      assert w.failures == Prune(x.failures, cutoff);
    } else {
      assert w.failures == Prune(x.failures, now - c.window);
    }
  }

  /** On a clock that does not go back, pruning in place never changes an answer: the kept
      list and the full history lock and unlock alike. */
  lemma {:induction false} PruningIsInvisible(c: Config, times: seq<int>, now: int)
    requires Proper(c) && SortedUpTo(times, now)
    ensures Locked(After(c, times), now) <==> Locked(AfterSimply(c, times), now)
    ensures Trips(c, After(c, times), now) <==> Locked(FailSimply(c, AfterSimply(c, times), now), now)
  {
    AgreesAlways(c, times, now);
    AgreesStep(c, After(c, times), AfterSimply(c, times), now, now);
  }

  lemma {:induction false} AgreesAlways(c: Config, times: seq<int>, now: int)
    requires Proper(c) && SortedUpTo(times, now)
    ensures Agrees(c, After(c, times), AfterSimply(c, times), now)
  {
    if times == [] {
      assert After(c, times).failures == Prune(AfterSimply(c, times).failures, now - c.window);
    } else {
      var front, last := times[..|times| - 1], times[|times| - 1];
      AgreesAlways(c, front, last);
      AgreesStep(c, After(c, front), AfterSimply(c, front), last, last);
    }
  }

  // ---------- how often a password can be tried ----------

  /** The failures that found the user unlocked, in order. */
  function Tried(c: Config, times: seq<int>): seq<int> {
    if times == [] then []
    else
      var front, now := times[..|times| - 1], times[|times| - 1];
      Tried(c, front) + if Locked(After(c, front), now) then [] else [now]
  }

  /** Try `j` and the earlier ones within the window before it are at most `limit`. */
  predicate WindowOk(c: Config, tried: seq<int>, j: nat)
    requires j < |tried|
  {
    |Prune(tried[..j], tried[j] - c.window)| + 1 <= c.limit
  }

  predicate Spread(c: Config, tried: seq<int>) {
    forall j :: 0 <= j < |tried| ==> WindowOk(c, tried, j)
  }

  predicate NoneAfter(times: seq<int>, t: int) {
    forall i :: 0 <= i < |times| ==> times[i] <= t
  }

  /** The cut has left the window, or the lock outlasts it by the cooldown. */
  predicate CutOk(c: Config, u: User, cut: int, last: int) {
    cut <= last - c.window || (u.lockedUntil.Some? && cut + c.cooldown <= u.lockedUntil.value)
  }

  /** The kept failures are the tries after some cut. */
  ghost predicate Kept(c: Config, u: User, tried: seq<int>, last: int) {
    && |u.failures| < c.limit && NoneAfter(tried, last)
    && (u.lockedUntil.Some? ==> u.lockedUntil.value <= last + c.cooldown)
    && exists cut :: CutOk(c, u, cut, last) && u.failures == Prune(tried, cut)
  }

  lemma {:induction false} PruneOld(times: seq<int>, cutoff: int)
    requires NoneAfter(times, cutoff)
    ensures Prune(times, cutoff) == []
  {
    if times != [] {
      PruneOld(times[..|times| - 1], cutoff);
    }
  }

  lemma {:induction false} PruneShrinks(times: seq<int>, cutoff: int)
    ensures |Prune(times, cutoff)| <= |times|
  {
    if times != [] {
      PruneShrinks(times[..|times| - 1], cutoff);
    }
  }

  /** A locked failure only pushes the lock out. */
  lemma KeptLocked(c: Config, u: User, tried: seq<int>, last: int, now: int)
    requires Proper(c) && Kept(c, u, tried, last) && last <= now && Locked(u, now)
    ensures Kept(c, Fail(c, u, now), tried, now)
  {
    var cut :| CutOk(c, u, cut, last) && u.failures == Prune(tried, cut);
    assert CutOk(c, Fail(c, u, now), cut, now);
  }

  /** A failure that finds the user unlocked sees every try of the last window. */
  lemma SeesTheWindow(c: Config, u: User, tried: seq<int>, last: int, now: int)
    requires Proper(c) && c.cooldown >= c.window && Kept(c, u, tried, last) && last <= now && !Locked(u, now)
    ensures Prune(u.failures, now - c.window) == Prune(tried, now - c.window)
    ensures |Prune(tried, now - c.window)| < c.limit
  {
    var cut :| CutOk(c, u, cut, last) && u.failures == Prune(tried, cut);
    PruneTwice(tried, cut, now - c.window);
    PruneShrinks(u.failures, now - c.window);
  }

  /** A lock clears the list: the tries after now are none. */
  lemma KeptWhenTripped(c: Config, u: User, tried: seq<int>, now: int)
    requires Proper(c) && NoneAfter(tried, now) && !Locked(u, now) && Trips(c, u, now)
    ensures Kept(c, Fail(c, u, now), tried + [now], now)
  {
    var v := Fail(c, u, now);
    assert v == User([], Some(now + c.cooldown));
    PruneOld(tried + [now], now);
    assert CutOk(c, v, now, now) && v.failures == Prune(tried + [now], now);
  }

  /** Otherwise the list is now the tries of the last window. */
  lemma KeptWhenCounted(c: Config, u: User, tried: seq<int>, now: int)
    requires Proper(c) && NoneAfter(tried, now) && !Locked(u, now) && !Trips(c, u, now)
    requires Prune(u.failures, now - c.window) == Prune(tried, now - c.window)
    requires u.lockedUntil.Some? ==> u.lockedUntil.value <= now + c.cooldown
    ensures Kept(c, Fail(c, u, now), tried + [now], now)
  {
    var v := Fail(c, u, now);
    PruneMore(tried, now, now - c.window);
    assert v == u.(failures := Prune(tried, now - c.window) + [now]);
    assert CutOk(c, v, now - c.window, now) && v.failures == Prune(tried + [now], now - c.window);
  }

  lemma KeptUnlocked(c: Config, u: User, tried: seq<int>, last: int, now: int)
    requires Proper(c) && c.cooldown >= c.window && Kept(c, u, tried, last) && last <= now && !Locked(u, now)
    ensures Kept(c, Fail(c, u, now), tried + [now], now)
  {
    SeesTheWindow(c, u, tried, last, now);
    if Trips(c, u, now) {
      KeptWhenTripped(c, u, tried, now);
    } else {
      KeptWhenCounted(c, u, tried, now);
    }
  }

  lemma {:induction false} SpreadAlways(c: Config, times: seq<int>, now: int)
    requires Proper(c) && c.cooldown >= c.window && SortedUpTo(times, now)
    ensures Kept(c, After(c, times), Tried(c, times), now) && Spread(c, Tried(c, times))
  {
    if times == [] {
      assert CutOk(c, Unknown, now - c.window, now);
    } else {
      var front, last := times[..|times| - 1], times[|times| - 1];
      SpreadAlways(c, front, last);
      SpreadStep(c, After(c, front), Tried(c, front), last);
      KeptLater(c, After(c, times), Tried(c, times), last, now);
    }
  }

  lemma SpreadMore(c: Config, tried: seq<int>, now: int)
    requires Spread(c, tried) && |Prune(tried, now - c.window)| + 1 <= c.limit
    ensures Spread(c, tried + [now])
  {
    var all := tried + [now];
    assert all[..|tried|] == tried;
    forall j | 0 <= j < |all| ensures WindowOk(c, all, j) {
      if j < |tried| {
        assert WindowOk(c, tried, j);
        assert all[..j] == tried[..j];
      }
    }
  }

  lemma SpreadStep(c: Config, u: User, tried: seq<int>, now: int)
    requires Proper(c) && c.cooldown >= c.window && Kept(c, u, tried, now) && Spread(c, tried)
    ensures
      var more := tried + if Locked(u, now) then [] else [now];
      Kept(c, Fail(c, u, now), more, now) && Spread(c, more)
  {
    if Locked(u, now) {
      KeptLocked(c, u, tried, now, now);
      assert tried + [] == tried;
    } else {
      KeptUnlocked(c, u, tried, now, now);
      SeesTheWindow(c, u, tried, now, now);
      SpreadMore(c, tried, now);
    }
  }

  lemma KeptLater(c: Config, u: User, tried: seq<int>, last: int, now: int)
    requires Proper(c) && Kept(c, u, tried, last) && last <= now
    ensures Kept(c, u, tried, now)
  {
    var cut :| CutOk(c, u, cut, last) && u.failures == Prune(tried, cut);
    assert CutOk(c, u, cut, now);
  }

  // ---------- the exact condition ----------

  ghost predicate AlwaysSpread(c: Config) {
    forall times, now :: SortedUpTo(times, now) ==> Spread(c, Tried(c, times))
  }

  lemma OneMoreTry(c: Config, times: seq<int>, now: int)
    ensures After(c, times + [now]) == Fail(c, After(c, times), now)
    ensures Tried(c, times + [now]) == Tried(c, times) + if Locked(After(c, times), now) then [] else [now]
    ensures SortedUpTo(times, now) ==> SortedUpTo(times + [now], now)
  {
    assert (times + [now])[..|times|] == times;
  }

  predicate AllAtZero(times: seq<int>) {
    times == [] || (times[|times| - 1] == 0 && AllAtZero(times[..|times| - 1]))
  }

  lemma ZeroMore(times: seq<int>)
    requires AllAtZero(times)
    ensures AllAtZero(times + [0])
  {
    assert (times + [0])[..|times|] == times;
  }

  lemma {:induction false} PruneNone(times: seq<int>, cutoff: int)
    requires AllAtZero(times) && cutoff < 0
    ensures |Prune(times, cutoff)| == |times| && AllAtZero(Prune(times, cutoff))
  {
    if times != [] {
      PruneNone(times[..|times| - 1], cutoff);
      ZeroMore(Prune(times[..|times| - 1], cutoff));
    }
  }

  /** `n` tries at time 0, none of them refused so far. */
  predicate Burst(c: Config, times: seq<int>, n: nat) {
    && SortedUpTo(times, 0) && |Tried(c, times)| == n && AllAtZero(Tried(c, times))
    && After(c, times).lockedUntil.None? && |After(c, times).failures| == n && AllAtZero(After(c, times).failures)
  }

  lemma FailInBurst(c: Config, u: User)
    requires Proper(c) && u.lockedUntil.None? && AllAtZero(u.failures)
    ensures
      var v := Fail(c, u, 0);
      if |u.failures| + 1 >= c.limit then v == User([], Some(c.cooldown))
      else v.lockedUntil.None? && |v.failures| == |u.failures| + 1 && AllAtZero(v.failures)
  {
    PruneNone(u.failures, 0 - c.window);
    ZeroMore(Prune(u.failures, 0 - c.window));
  }

  lemma LongerBurst(c: Config, times: seq<int>, n: nat)
    requires Proper(c) && Burst(c, times, n)
    ensures n + 1 < c.limit ==> Burst(c, times + [0], n + 1)
    ensures n + 1 == c.limit ==> After(c, times + [0]) == User([], Some(c.cooldown))
    ensures SortedUpTo(times + [0], 0) && |Tried(c, times + [0])| == n + 1 && AllAtZero(Tried(c, times + [0]))
  {
    FailInBurst(c, After(c, times));
    OneMoreTry(c, times, 0);
    ZeroMore(Tried(c, times));
  }

  lemma {:induction false} BurstOf(c: Config, n: nat) returns (times: seq<int>)
    requires Proper(c) && n < c.limit
    ensures Burst(c, times, n)
  {
    if n == 0 {
      times := [];
    } else {
      times := BurstOf(c, n - 1);
      LongerBurst(c, times, n - 1);
      times := times + [0];
    }
  }

  lemma TooClose(c: Config, tried: seq<int>, now: int)
    requires |tried| == c.limit && AllAtZero(tried) && now < c.window
    ensures !WindowOk(c, tried + [now], |tried|)
  {
    PruneNone(tried, now - c.window);
    assert (tried + [now])[..|tried|] == tried;
  }

  /** A cooldown shorter than the window lets one more try in: `limit` at once, and another
      as soon as the lock ends. */
  lemma ShortCooldownLeaks(c: Config) returns (times: seq<int>)
    requires Proper(c) && c.cooldown < c.window
    ensures SortedUpTo(times, c.cooldown) && !Spread(c, Tried(c, times))
  {
    var burst := BurstOf(c, c.limit - 1);
    LongerBurst(c, burst, c.limit - 1);
    burst := burst + [0];
    SortedLater(burst, 0, c.cooldown);
    OneMoreTry(c, burst, c.cooldown);
    TooClose(c, Tried(c, burst), c.cooldown);
    times := burst + [c.cooldown];
  }

  lemma SortedLater(times: seq<int>, a: int, b: int)
    requires SortedUpTo(times, a) && a <= b
    ensures SortedUpTo(times, b)
  {
  }

  /** Within any span shorter than the window, and without a success, no more than `limit`
      passwords can be tried, on any clock that does not go back, if and only if the
      cooldown is at least the window. */
  lemma SpreadIffLongCooldown(c: Config)
    requires Proper(c)
    ensures AlwaysSpread(c) <==> c.cooldown >= c.window
  {
    if c.cooldown >= c.window {
      forall times, now | SortedUpTo(times, now) ensures Spread(c, Tried(c, times)) {
        SpreadAlways(c, times, now);
      }
    } else {
      var times := ShortCooldownLeaks(c);
    }
  }
}
