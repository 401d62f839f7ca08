/** The bridge's listener supervisor: settings applied hot where possible, by a restart
    where not, and persisted so that the restart converges. */
module Supervisor {
  import opened Text

  datatype Listener = Smtps | Smtp | Imaps | Imap | Webhook

  /** What a listener bakes in when it is built; changing any of it needs a restart. */
  datatype Baked = Baked(
    smtpsPort: int, smtpPort: int, imapsPort: int, imapPort: int, tlsSource: string,
    maxMessageSize: int, maxImapSessions: int, webhookUrl: string)

  datatype Settings = Settings(version: int, enabled: set<Listener>, baked: Baked, logLevel: string)

  /** The listeners in the order in which they are reconciled. */
  function Nth(i: nat): Listener
    requires i < 5
  {
    if i == 0 then Smtps else if i == 1 then Smtp else if i == 2 then Imaps else if i == 3 then Imap else Webhook
  }

  function Index(l: Listener): (i: nat)
    ensures i < 5 && Nth(i) == l
  {
    match l
    case Smtps => 0
    case Smtp => 1
    case Imaps => 2
    case Imap => 3
    case Webhook => 4
  }

  /** The IMAP listeners bind before they return; the others bind in the background. */
  predicate CanFail(l: Listener) {
    l.Imaps? || l.Imap?
  }

  type Running = map<Listener, Baked>

  // ---------- reconciling ----------

  function Toggle(r: Running, l: Listener, s: Settings, avail: set<Listener>): Running {
    if l !in s.enabled then r - {l}
    else if l in r || l !in avail then r
    else r[l := s.baked]
  }

  predicate FailsToBind(r: Running, l: Listener, s: Settings, avail: set<Listener>, fails: set<Listener>) {
    l in s.enabled && l !in r && l in avail && CanFail(l) && l in fails
  }

  function Reconciled(r: Running, s: Settings, avail: set<Listener>, n: nat): Running
    requires n <= 5
  {
    if n == 0 then r else Toggle(Reconciled(r, s, avail, n - 1), Nth(n - 1), s, avail)
  }

  /** How many listeners are dealt with before the first one that fails to bind. */
  function Reached(r: Running, s: Settings, avail: set<Listener>, fails: set<Listener>, n: nat): (k: nat)
    requires n <= 5
    ensures n <= k <= 5
    decreases 5 - n
  {
    if n == 5 || FailsToBind(r, Nth(n), s, avail, fails) then n else Reached(r, s, avail, fails, n + 1)
  }

  /** What should be running: every enabled listener that this process is able to build. */
  function Wanted(s: Settings, avail: set<Listener>): Running {
    map l | l in s.enabled && l in avail :: s.baked
  }

  predicate Buildable(r: Running, s: Settings, avail: set<Listener>) {
    forall l :: l in r ==> l in avail && r[l] == s.baked
  }

  lemma {:induction false} ReconciledAt(r: Running, s: Settings, avail: set<Listener>, n: nat, l: Listener)
    requires n <= 5
    ensures
      var t := Reconciled(r, s, avail, n);
      && (l in t <==> if Index(l) < n then l in s.enabled && (l in r || l in avail) else l in r)
      && (l in t ==> t[l] == if l in r then r[l] else s.baked)
  {
    if n > 0 {
      ReconciledAt(r, s, avail, n - 1, l);
    }
  }

  /** Reconciling all five brings up exactly what is wanted. */
  lemma ReconciledAll(r: Running, s: Settings, avail: set<Listener>)
    requires Buildable(r, s, avail)
    ensures Reconciled(r, s, avail, 5) == Wanted(s, avail)
  {
    forall l: Listener
      ensures l in Reconciled(r, s, avail, 5) <==> l in Wanted(s, avail)
      ensures l in Wanted(s, avail) ==> Reconciled(r, s, avail, 5)[l] == s.baked
    {
      ReconciledAt(r, s, avail, 5, l);
    }
  }

  lemma ReachedShort(r: Running, s: Settings, avail: set<Listener>, fails: set<Listener>, n: nat)
    requires n <= 5
    ensures var k := Reached(r, s, avail, fails, n); k < 5 ==> FailsToBind(r, Nth(k), s, avail, fails)
    decreases 5 - n
  {
    if n < 5 && !FailsToBind(r, Nth(n), s, avail, fails) {
      ReachedShort(r, s, avail, fails, n + 1);
    }
  }

  /** A failed bind leaves a wanted listener out, so the running set is right exactly when
      nothing failed. */
  lemma RightIffNothingFailed(r: Running, s: Settings, avail: set<Listener>, fails: set<Listener>)
    requires Buildable(r, s, avail)
    ensures
      var k := Reached(r, s, avail, fails, 0);
      Reconciled(r, s, avail, k) == Wanted(s, avail) <==> k == 5
  {
    var k := Reached(r, s, avail, fails, 0);
    ReconciledAll(r, s, avail);
    ReachedShort(r, s, avail, fails, 0);
    if k < 5 {
      ReconciledAt(r, s, avail, k, Nth(k));
      assert Index(Nth(k)) == k;
      assert Nth(k) in Wanted(s, avail);
    }
  }

  // ---------- the operations ----------

  datatype Sup = Sup(current: Settings, started: bool, suspended: bool, running: Running)

  datatype Outcome = NotStarted | Unchanged | RestartRequired | Applied | BindError

  function BringUp(v: Sup, avail: set<Listener>, fails: set<Listener>): Sup {
    v.(running := Reconciled(v.running, v.current, avail, Reached(v.running, v.current, avail, fails, 0)))
  }

  predicate BringsUp(v: Sup, avail: set<Listener>, fails: set<Listener>) {
    Reached(v.running, v.current, avail, fails, 0) == 5
  }

  function DoStart(v: Sup, initial: Settings, avail: set<Listener>, fails: set<Listener>): Sup {
    if v.started then v
    else
      var w := v.(current := initial);
      if BringsUp(w, avail, fails) then BringUp(w, avail, fails).(started := true) else w.(running := map[])
  }

  function DoSuspend(v: Sup): Sup {
    if !v.started || v.suspended then v else v.(running := map[], suspended := true)
  }

  function DoResume(v: Sup, avail: set<Listener>, fails: set<Listener>): Sup {
    if !v.started || !v.suspended then v
    else
      var w := BringUp(v, avail, fails);
      if BringsUp(v, avail, fails) then w.(suspended := false) else w
  }

  function ApplyOutcome(v: Sup, next: Settings, avail: set<Listener>, fails: set<Listener>): Outcome {
    if !v.started then NotStarted
    else if next.version <= v.current.version then Unchanged
    else if next.baked != v.current.baked then RestartRequired
    else if v.suspended || BringsUp(v.(current := next), avail, fails) then Applied
    else BindError
  }

  function DoApply(v: Sup, next: Settings, avail: set<Listener>, fails: set<Listener>): Sup {
    var o := ApplyOutcome(v, next, avail, fails);
    if !o.Applied? && !o.BindError? then v
    else if v.suspended then v.(current := next)
    else BringUp(v.(current := next), avail, fails)
  }

  class ListenerSupervisor {
    const available: set<Listener>
    var current: Settings
    var started: bool
    var suspended: bool
    var running: Running

    ghost function View(): Sup
      reads this
    {
      Sup(current, started, suspended, running)
    }

    constructor (available: set<Listener>, blank: Settings)
      ensures this.available == available && View() == Sup(blank, false, false, map[])
    {
      this.available := available;
      current, started, suspended, running := blank, false, false, map[];
    }

    /** Starts or stops each listener in turn, up to the first that fails to bind. */
    method Reconcile(fails: set<Listener>) returns (ok: bool)
      modifies this`running
      ensures ok == BringsUp(old(View()), available, fails)
      ensures View() == BringUp(old(View()), available, fails)
    {
      var on := running;
      for i := 0 to 5
        invariant running == Reconciled(on, current, available, i)
        invariant Reached(on, current, available, fails, 0) == Reached(on, current, available, fails, i)
      {
        var l := Nth(i);
        assert l in running <==> l in on by {
          ReconciledAt(on, current, available, i, l);
          assert Index(l) == i;
        }
        if l in current.enabled && l !in on {
          if l in available {
            if CanFail(l) && l in fails {
              return false;
            }
            running := running[l := current.baked];
          }
        } else if l !in current.enabled && l in on {
          running := running - {l};
        } else if l !in current.enabled {
          assert running - {l} == running;
        }
      }
      return true;
    }

    method Start(initial: Settings, fails: set<Listener>) returns (ok: bool)
      modifies this
      ensures View() == DoStart(old(View()), initial, available, fails)
      ensures ok <==> !old(started) && started
    {
      if started {
        return false;
      }
      current := initial;
      ok := Reconcile(fails);
      if !ok {
        running := map[];
        return;
      }
      started := true;
    }

    method Suspend()
      modifies this
      ensures View() == DoSuspend(old(View()))
    {
      if !started || suspended {
        return;
      }
      running := map[];
      suspended := true;
    }

    method Resume(fails: set<Listener>) returns (ok: bool)
      modifies this
      ensures View() == DoResume(old(View()), available, fails)
    {
      if !started || !suspended {
        return true;
      }
      ok := Reconcile(fails);
      if ok {
        suspended := false;
      }
    }

    /** `save` is the snapshot handed to the settings file, if any. */
    method Apply(next: Settings, fails: set<Listener>) returns (outcome: Outcome, save: Option<Settings>)
      modifies this
      ensures outcome == ApplyOutcome(old(View()), next, available, fails)
      ensures View() == DoApply(old(View()), next, available, fails)
      ensures save == if outcome.RestartRequired? || outcome.Applied? then Some(next) else None
    {
      if !started {
        return NotStarted, None;
      }
      if next.version <= current.version {
        return Unchanged, None;
      }
      if next.baked != current.baked {
        return RestartRequired, Some(next);
      }
      if !suspended {
        current := next;
        var ok := Reconcile(fails);
        if !ok {
          return BindError, None;
        }
        return Applied, Some(next);
      }
      current := next;
      return Applied, Some(next);
    }

    method Shutdown()
      modifies this
      ensures View() == Sup(old(current), false, false, map[])
    {
      running, started, suspended := map[], false, false;
    }
  }

  // ---------- processes, restarts and the settings file ----------

  /** `restarts` lists the settings versions that made the process exit. */
  datatype Bridge = Bridge(up: bool, sup: Sup, saved: Option<Settings>, restarts: seq<int>)

  datatype Op =
    | Boot(base: Settings, fails: set<Listener>)
    | Tick(settings: Option<Settings>, enabled: bool, fails: set<Listener>, saves: bool)
    | Kill

  /** The boot settings: the persisted snapshot wins over the environment's. */
  function Seed(saved: Option<Settings>, base: Settings): Settings {
    if saved.Some? then saved.value else base
  }

  /** A heartbeat's settings, then its enabled flag. A settings change that needs a restart
      ends the process there and then. */
  function DoTick(
    b: Bridge, avail: set<Listener>, settings: Option<Settings>, enabled: bool, fails: set<Listener>,
    saves: bool): Bridge {
    var o := if settings.Some? then ApplyOutcome(b.sup, settings.value, avail, fails) else Unchanged;
    var sup := if settings.Some? then DoApply(b.sup, settings.value, avail, fails) else b.sup;
    var saved := if (o.RestartRequired? || o.Applied?) && saves then settings else b.saved;
    if o.RestartRequired? then Bridge(false, sup, saved, b.restarts + [settings.value.version])
    else b.(sup := if enabled then DoResume(sup, avail, fails) else DoSuspend(sup), saved := saved)
  }

  function DoBoot(b: Bridge, avail: set<Listener>, base: Settings, fails: set<Listener>): Bridge {
    var sup := DoStart(Sup(base, false, false, map[]), Seed(b.saved, base), avail, fails);
    b.(up := sup.started, sup := sup)
  }

  function Do(b: Bridge, avail: set<Listener>, op: Op): Bridge {
    match op
    case Boot(base, fails) => if b.up then b else DoBoot(b, avail, base, fails)
    case Tick(settings, enabled, fails, saves) => if b.up then DoTick(b, avail, settings, enabled, fails, saves) else b
    case Kill => b.(up := false)
  }

  function Run(b: Bridge, avail: set<Listener>, ops: seq<Op>): Bridge {
    if ops == [] then b else Do(Run(b, avail, ops[..|ops| - 1]), avail, ops[|ops| - 1])
  }

  /** Nothing running, nothing saved. */
  predicate Pristine(b: Bridge) {
    !b.up && b.saved.None? && b.restarts == []
  }

  // ---------- the running set ----------

  predicate BindsAlways(ops: seq<Op>) {
    forall i :: 0 <= i < |ops| && !ops[i].Kill? ==> ops[i].fails == {}
  }

  predicate Matches(v: Sup, avail: set<Listener>) {
    v.started && v.running == if v.suspended then map[] else Wanted(v.current, avail)
  }

  lemma NoFailures(r: Running, s: Settings, avail: set<Listener>, n: nat)
    requires n <= 5
    ensures Reached(r, s, avail, {}, n) == 5
    decreases 5 - n
  {
    if n < 5 {
      NoFailures(r, s, avail, n + 1);
    }
  }

  lemma MatchesKept(b: Bridge, avail: set<Listener>, op: Op)
    requires b.up ==> Matches(b.sup, avail)
    requires !op.Kill? ==> op.fails == {}
    ensures var c := Do(b, avail, op); c.up ==> Matches(c.sup, avail)
  {
    match op
    case Boot(base, fails) =>
      NoFailures(map[], Seed(b.saved, base), avail, 0);
      ReconciledAll(map[], Seed(b.saved, base), avail);
    case Tick(settings, enabled, fails, saves) =>
      if b.up {
        ApplyMatches(b.sup, settings, avail);
        ResumeMatches(if settings.Some? then DoApply(b.sup, settings.value, avail, {}) else b.sup, avail);
      }
    case Kill =>
  }

  lemma ApplyMatches(v: Sup, settings: Option<Settings>, avail: set<Listener>)
    requires Matches(v, avail)
    ensures settings.Some? ==> Matches(DoApply(v, settings.value, avail, {}), avail)
  {
    if settings.Some? && v.current.baked == settings.value.baked {
      NoFailures(v.running, settings.value, avail, 0);
      ReconciledAll(v.running, settings.value, avail);
    }
  }

  lemma ResumeMatches(v: Sup, avail: set<Listener>)
    requires Matches(v, avail)
    ensures Matches(DoResume(v, avail, {}), avail) && !DoResume(v, avail, {}).suspended
  {
    if v.suspended {
      NoFailures(v.running, v.current, avail, 0);
      ReconciledAll(v.running, v.current, avail);
    }
  }

  /** Without bind errors, over every run of boots, heartbeats and kills: the running
      listeners are exactly the enabled ones this process can build, all built from the
      current settings, and none while suspended. */
  lemma {:induction false} RunningMatches(b: Bridge, avail: set<Listener>, ops: seq<Op>)
    requires Pristine(b) && BindsAlways(ops)
    ensures Run(b, avail, ops).up ==> Matches(Run(b, avail, ops).sup, avail)
  {
    if ops != [] {
      RunningMatches(b, avail, ops[..|ops| - 1]);
      MatchesKept(Run(b, avail, ops[..|ops| - 1]), avail, ops[|ops| - 1]);
    }
  }

  // ---------- what one heartbeat does ----------

  predicate IsNewer(b: Bridge, settings: Option<Settings>) {
    settings.Some? && settings.value.version > b.sup.current.version
  }

  predicate NeedsRestart(b: Bridge, settings: Option<Settings>) {
    IsNewer(b, settings) && settings.value.baked != b.sup.current.baked
  }

  /** A heartbeat ends the process exactly if it brings newer settings that change what a
      listener bakes in; newer settings that do not are current from then on, older ones are
      ignored, and both kinds of newer settings go to the file if it can be written and no
      bind fails. */
  lemma TickTakesSettings(b: Bridge, avail: set<Listener>, settings: Option<Settings>, enabled: bool,
                          fails: set<Listener>, saves: bool)
    requires b.up && b.sup.started
    ensures
      var c := Do(b, avail, Tick(settings, enabled, fails, saves));
      && (!c.up <==> NeedsRestart(b, settings))
      && (NeedsRestart(b, settings) ==> c.restarts == b.restarts + [settings.value.version] && c.sup == b.sup)
      && (!NeedsRestart(b, settings) ==> c.restarts == b.restarts)
      && (IsNewer(b, settings) && c.up ==> c.sup.current == settings.value)
      && (!IsNewer(b, settings) ==> c.sup.current == b.sup.current && c.saved == b.saved)
      && (IsNewer(b, settings) && saves && fails == {} ==> c.saved == settings)
      && (!saves ==> c.saved == b.saved)
  {
    if IsNewer(b, settings) && fails == {} {
      NoFailures(b.sup.running, settings.value, avail, 0);
    }
  }

  /** And the flag it carries: disabled suspends, which stops every listener unless the
      process was suspended before; enabled resumes, unless a bind fails. */
  lemma TickFollowsFlag(b: Bridge, avail: set<Listener>, settings: Option<Settings>, enabled: bool,
                        fails: set<Listener>, saves: bool)
    requires b.up && b.sup.started && !NeedsRestart(b, settings)
    ensures
      var c := Do(b, avail, Tick(settings, enabled, fails, saves));
      && c.sup.started
      && (!enabled ==> c.sup.suspended && c.sup.running == if b.sup.suspended then b.sup.running else map[])
      && (enabled && fails == {} ==> !c.sup.suspended)
      && (enabled && !b.sup.suspended ==> !c.sup.suspended)
  {
    if fails == {} {
      NoFailures(b.sup.running, if IsNewer(b, settings) then settings.value else b.sup.current, avail, 0);
    }
  }

  /** Without bind errors, over every run: a process is suspended exactly if its last
      heartbeat said so. */
  lemma SuspendedIffDisabled(b: Bridge, avail: set<Listener>, ops: seq<Op>, last: Op)
    requires Pristine(b) && BindsAlways(ops + [last]) && last.Tick?
    requires Run(b, avail, ops).up && Run(b, avail, ops + [last]).up
    ensures
      var v := Run(b, avail, ops + [last]).sup;
      && (v.suspended <==> !last.enabled)
      && v.running == if last.enabled then Wanted(v.current, avail) else map[]
  {
    assert (ops + [last])[..|ops|] == ops;
    assert BindsAlways(ops) && last.fails == {} by {
      assert (ops + [last])[|ops|] == last;
      assert forall i :: 0 <= i < |ops| ==> ops[i] == (ops + [last])[i];
    }
    var s := Run(b, avail, ops);
    RunningMatches(b, avail, ops);
    RunningMatches(b, avail, ops + [last]);
    TickTakesSettings(s, avail, last.settings, last.enabled, {}, last.saves);
    TickFollowsFlag(s, avail, last.settings, last.enabled, {}, last.saves);
  }

  /** A boot whose listeners cannot all bind leaves none running and the process down. */
  lemma FailedBootRunsNothing(b: Bridge, avail: set<Listener>, base: Settings, fails: set<Listener>)
    requires !b.up
    ensures
      var c := Do(b, avail, Boot(base, fails));
      && (c.up <==> Reached(map[], Seed(b.saved, base), avail, fails, 0) == 5)
      && c.sup.current == Seed(b.saved, base) && c.saved == b.saved && c.restarts == b.restarts
      && (!c.up ==> c.sup.running == map[])
  {
  }

  /** Only the IMAP listeners can hold up the others, and they do when they are due. */
  lemma OnlyImapCanFail(r: Running, s: Settings, avail: set<Listener>, fails: set<Listener>)
    ensures
      Reached(r, s, avail, fails, 0) == 5 <==>
        forall l: Listener :: (l == Imaps || l == Imap) && l in s.enabled && l in avail && l in fails ==> l in r
  {
    assert Nth(0) == Smtps && Nth(1) == Smtp && Nth(2) == Imaps && Nth(3) == Imap && Nth(4) == Webhook;
    assert Reached(r, s, avail, fails, 4) == 5;
    assert Reached(r, s, avail, fails, 3) == if FailsToBind(r, Imap, s, avail, fails) then 3 else 5;
    assert Reached(r, s, avail, fails, 0) == Reached(r, s, avail, fails, 1) == Reached(r, s, avail, fails, 2);
  }

  // ---------- each version restarts at most once ----------

  predicate Increasing(s: seq<int>) {
    forall i, j :: 0 <= i < j < |s| ==> s[i] < s[j]
  }

  predicate SavesAlways(ops: seq<Op>) {
    forall i :: 0 <= i < |ops| && ops[i].Tick? ==> ops[i].saves
  }

  /** Every restart's settings are on disk by the time of the next boot. */
  predicate Converging(b: Bridge) {
    && Increasing(b.restarts)
    && (b.restarts != [] ==> b.saved.Some? && b.restarts[|b.restarts| - 1] <= b.saved.value.version)
    && (b.up && b.saved.Some? ==> b.saved.value.version <= b.sup.current.version)
  }

  lemma ConvergingKept(b: Bridge, avail: set<Listener>, op: Op)
    requires Converging(b) && (op.Tick? ==> op.saves)
    ensures Converging(Do(b, avail, op))
  {
  }

  lemma {:induction false} RestartsIncrease(b: Bridge, avail: set<Listener>, ops: seq<Op>)
    requires Pristine(b) && SavesAlways(ops)
    ensures Converging(Run(b, avail, ops))
  {
    if ops != [] {
      RestartsIncrease(b, avail, ops[..|ops| - 1]);
      ConvergingKept(Run(b, avail, ops[..|ops| - 1]), avail, ops[|ops| - 1]);
    }
  }

  /** With a settings file that can be written, no settings version ever causes a second
      restart, even with bind errors, kills and any number of reboots. */
  lemma OneRestartPerVersion(b: Bridge, avail: set<Listener>, ops: seq<Op>, i: nat, j: nat)
    requires Pristine(b) && SavesAlways(ops) && i < j < |Run(b, avail, ops).restarts|
    ensures Run(b, avail, ops).restarts[i] != Run(b, avail, ops).restarts[j]
  {
    RestartsIncrease(b, avail, ops);
  }

  /** A restart and a reboot from the snapshot: the settings are now current, and receiving
      them again changes nothing. */
  lemma RebootConverges(
    b: Bridge, avail: set<Listener>, next: Settings, enabled: bool, base: Settings, fails: set<Listener>)
    requires b.up && ApplyOutcome(b.sup, next, avail, fails).RestartRequired?
    ensures
      var rebooted := Do(Do(b, avail, Tick(Some(next), enabled, fails, true)), avail, Boot(base, {}));
      && rebooted.up && rebooted.sup.current == next && Matches(rebooted.sup, avail)
      && Do(rebooted, avail, Tick(Some(next), true, {}, true)) == rebooted
  {
    NoFailures(map[], next, avail, 0);
    ReconciledAll(map[], next, avail);
  }

  /** With a file that cannot be written the same version restarts the process again. */
  lemma UnsavedRestartRepeats(b: Bridge, avail: set<Listener>, next: Settings, base: Settings)
    requires b.up && b.saved.None? && ApplyOutcome(b.sup, next, avail, {}).RestartRequired?
    requires base.version < next.version && base.baked != next.baked
    ensures
      var tick := Tick(Some(next), true, {}, false);
      Run(b, avail, [tick, Boot(base, {}), tick]).restarts == b.restarts + [next.version, next.version]
  {
    var tick := Tick(Some(next), true, {}, false);
    NoFailures(map[], base, avail, 0);
    var ops := [tick, Boot(base, {}), tick];
    assert ops[..2][..1] == [tick] && [tick][..0] == [] && ops[..2] == [tick, Boot(base, {})];
    assert Run(b, avail, [tick]) == Do(b, avail, tick);
    assert Run(b, avail, ops[..2]) == Do(Do(b, avail, tick), avail, Boot(base, {}));
  }

  // ---------- where bind errors are not recovered from ----------

  /** After a bind error the new settings count as current, so sending them again is
      refused as old and the missing listener stays down. */
  lemma BindErrorSticks(v: Sup, next: Settings, avail: set<Listener>, fails: set<Listener>)
    requires Matches(v, avail) && ApplyOutcome(v, next, avail, fails).BindError?
    ensures
      var w := DoApply(v, next, avail, fails);
      && !Matches(w, avail) && ApplyOutcome(w, next, avail, {}).Unchanged? && DoApply(w, next, avail, {}) == w
      && DoResume(w, avail, {}) == w
  {
    RightIffNothingFailed(v.running, next, avail, fails);
  }

  /** A listener that should run and comes before the first one that fails to bind. */
  predicate BoundFirst(v: Sup, avail: set<Listener>, fails: set<Listener>, l: Listener) {
    l in Wanted(v.current, avail) && Index(l) < Reached(v.running, v.current, avail, fails, 0)
  }

  /** A resume that fails half way leaves the supervisor suspended with exactly the wanted
      listeners before the failed one running, and suspending it again does not stop them.
      So nothing runs afterwards if and only if no wanted listener comes first. */
  lemma FailedResumeLeaks(v: Sup, avail: set<Listener>, fails: set<Listener>)
    requires Matches(v, avail) && v.suspended && !BringsUp(v, avail, fails)
    ensures
      var w := DoResume(v, avail, fails);
      && w.suspended && DoSuspend(w) == w
      && (forall l :: l in w.running <==> BoundFirst(v, avail, fails, l))
      && (w.running == map[] <==> forall l :: !BoundFirst(v, avail, fails, l))
  {
    var w := DoResume(v, avail, fails);
    var k := Reached(v.running, v.current, avail, fails, 0);
    forall l: Listener ensures l in w.running <==> BoundFirst(v, avail, fails, l) {
      ReconciledAt(v.running, v.current, avail, k, l);
    }
    if forall l :: !BoundFirst(v, avail, fails, l) {
      assert forall l :: l !in w.running;
    }
  }

  /** It does happen: plain SMTP comes up, then IMAPS cannot bind. */
  lemma ResumeCanLeak(current: Settings, avail: set<Listener>)
    requires Smtp in current.enabled && Imaps in current.enabled && Smtp in avail && Imaps in avail
    ensures
      var v := Sup(current, true, true, map[]);
      && Matches(v, avail) && !BringsUp(v, avail, {Imaps})
      && Smtp in DoResume(v, avail, {Imaps}).running &&
          DoSuspend(DoResume(v, avail, {Imaps})) == DoResume(v, avail, {Imaps})
  {
    var v := Sup(current, true, true, map[]);
    assert Nth(2) == Imaps && FailsToBind(map[], Imaps, current, avail, {Imaps});
    assert Reached(map[], current, avail, {Imaps}, 2) == 2;
    assert Reached(map[], current, avail, {Imaps}, 1) == 2;
    assert Reached(map[], current, avail, {Imaps}, 0) == 2;
    FailedResumeLeaks(v, avail, {Imaps});
    assert BoundFirst(v, avail, {Imaps}, Smtp);
  }
}
