/** The hash-chained audit log: many writers appending by compare-and-swap, and the
    verifier that walks the chain. */
module AuditLog {
  import opened Text

  const MAX_AUDIT_RETRIES := 8

  /** Sixty-four zeros: the predecessor hash of the first row. */
  const ZERO_HASH: string := Zeros(64)

  function Zeros(n: nat): (s: string)
    ensures |s| == n && forall i :: 0 <= i < n ==> s[i] == '0'
  {
    if n == 0 then "" else "0" + Zeros(n - 1)
  }

  /** SHA-256 in lower-case hex, kept abstract. */
  type Hash = string -> string

  datatype Args = Args(actor: string, action: string, target: Option<string>, meta: string)

  datatype Row = Row(id: int, args: Args, prevHash: string, rowHash: string, at: nat)

  function Digit(n: nat): char
    requires n < 10
  {
    (n + '0' as int) as char
  }

  /** `String(at)`. */
  function Decimal(n: nat): (s: string)
    ensures s != "" && forall i :: 0 <= i < |s| ==> '0' <= s[i] <= '9'
  {
    if n < 10 then [Digit(n)] else Decimal(n / 10) + [Digit(n % 10)]
  }

  function TargetText(target: Option<string>): string {
    if target.Some? then target.value else ""
  }

  /** The six hashed fields, one per line. */
  function CanonicalRow(a: Args, prevHash: string, at: nat): string {
    a.actor + "\n" + (a.action + "\n" + (TargetText(a.target) + "\n" + a.meta + "\n" + prevHash + "\n" + Decimal(at)))
  }

  // ---------- the verifier ----------

  datatype Reason = PrevHashMismatch | RowHashMismatch

  datatype Verdict = Intact | Broken(brokenAt: int, reason: Reason)

  function RowHash(h: Hash, r: Row): string {
    h(CanonicalRow(r.args, r.prevHash, r.at))
  }

  /** The verifier's answer when the last trusted hash is `prev`; row 0 is trusted. */
  function Verify(h: Hash, prev: string, rows: seq<Row>): Verdict
    decreases |rows|
  {
    if rows == [] then Intact
    else
      var r := rows[0];
      if r.id == 0 then Verify(h, r.rowHash, rows[1..])
      else if r.prevHash != prev then Broken(r.id, PrevHashMismatch)
      else if RowHash(h, r) != r.rowHash then Broken(r.id, RowHashMismatch)
      else Verify(h, r.rowHash, rows[1..])
  }

  /** Hash carried past the first `n` rows. */
  function HashBefore(rows: seq<Row>, n: nat): string
    requires n <= |rows|
  {
    if n == 0 then ZERO_HASH else rows[n - 1].rowHash
  }

  predicate LinkOk(h: Hash, rows: seq<Row>, i: nat)
    requires i < |rows|
  {
    rows[i].prevHash == HashBefore(rows, i) && rows[i].rowHash == RowHash(h, rows[i])
  }

  /** Every row names its predecessor's hash and carries the hash of its own fields. */
  predicate Chained(h: Hash, rows: seq<Row>) {
    forall i :: 0 <= i < |rows| ==> LinkOk(h, rows, i)
  }

  predicate NoRowZero(rows: seq<Row>) {
    forall i :: 0 <= i < |rows| ==> rows[i].id != 0
  }

  /** A row that the verifier passes: its link is right, or it is row 0. */
  predicate RowOk(h: Hash, rows: seq<Row>, i: nat)
    requires i < |rows|
  {
    rows[i].id == 0 || LinkOk(h, rows, i)
  }

  /** `verifyChain(env, 0)`: it accepts exactly the logs in which every row but row 0 is
      linked, and otherwise names the first row that is not. */
  method VerifyChain(h: Hash, rows: seq<Row>) returns (v: Verdict)
    ensures v == Verify(h, ZERO_HASH, rows)
    ensures v.Intact? <==> forall i :: 0 <= i < |rows| ==> RowOk(h, rows, i)
    ensures v.Broken? ==>
              exists i :: 0 <= i < |rows| && v.brokenAt == rows[i].id && !RowOk(h, rows, i)
                          && (v.reason.PrevHashMismatch? <==> rows[i].prevHash != HashBefore(rows, i))
                          && forall j :: 0 <= j < i ==> RowOk(h, rows, j)
  {
    var prev := ZERO_HASH;
    for i := 0 to |rows|
      invariant Verify(h, ZERO_HASH, rows) == Verify(h, prev, rows[i..])
      invariant prev == HashBefore(rows, i) && forall j :: 0 <= j < i ==> RowOk(h, rows, j)
    {
      var r := rows[i];
      assert rows[i..][1..] == rows[i + 1..];
      if r.id == 0 {
        prev := r.rowHash;
        continue;
      }
      if r.prevHash != prev {
        assert !RowOk(h, rows, i);
        return Broken(r.id, PrevHashMismatch);
      }
      var expected := h(CanonicalRow(r.args, r.prevHash, r.at));
      if expected != r.rowHash {
        assert !RowOk(h, rows, i);
        return Broken(r.id, RowHashMismatch);
      }
      prev := r.rowHash;
    }
    return Intact;
  }

  lemma {:induction false} IntactFromIff(h: Hash, rows: seq<Row>, n: nat)
    requires n <= |rows|
    ensures Verify(h, HashBefore(rows, n), rows[n..]) == Intact <==> forall i :: n <= i < |rows| ==> RowOk(h, rows, i)
    decreases |rows| - n
  {
    if n < |rows| {
      IntactFromIff(h, rows, n + 1);
      assert rows[n..][0] == rows[n] && rows[n..][1..] == rows[n + 1..];
      assert RowOk(h, rows, n) ==> HashBefore(rows, n + 1) == rows[n].rowHash;
    }
  }

  /** The same of the recursive form, for every log. */
  lemma IntactIff(h: Hash, rows: seq<Row>)
    ensures Verify(h, ZERO_HASH, rows) == Intact <==> forall i :: 0 <= i < |rows| ==> RowOk(h, rows, i)
  {
    assert rows[0..] == rows;
    IntactFromIff(h, rows, 0);
  }

  lemma ChainedIsIntact(h: Hash, rows: seq<Row>)
    requires Chained(h, rows)
    ensures Verify(h, ZERO_HASH, rows) == Intact
  {
    IntactIff(h, rows);
    forall i | 0 <= i < |rows| ensures RowOk(h, rows, i) {
      assert LinkOk(h, rows, i);
    }
  }

  lemma IntactIsChained(h: Hash, rows: seq<Row>)
    requires NoRowZero(rows) && Verify(h, ZERO_HASH, rows) == Intact
    ensures Chained(h, rows)
  {
    IntactIff(h, rows);
    forall i | 0 <= i < |rows| ensures LinkOk(h, rows, i) {
      assert RowOk(h, rows, i);
    }
  }

  // ---------- tamper evidence ----------

  ghost predicate Injective(h: Hash) {
    forall x, y :: h(x) == h(y) ==> x == y
  }

  /** A hash is one line and never the sixty-four zeros. */
  ghost predicate HexOutput(h: Hash) {
    forall x :: '\n' !in h(x) && h(x) != ZERO_HASH
  }

  /** The action comes from a fixed list and the metadata is JSON on one line; the target
      may be any text. */
  predicate OneLineArgs(a: Args) {
    '\n' !in a.actor && '\n' !in a.action && '\n' !in a.meta
  }

  predicate OneLineRows(rows: seq<Row>) {
    forall i :: 0 <= i < |rows| ==> OneLineArgs(rows[i].args)
  }

  predicate SameContent(r: Row, s: Row) {
    && r.args.actor == s.args.actor && r.args.action == s.args.action
    && TargetText(r.args.target) == TargetText(s.args.target)
    && r.args.meta == s.args.meta && r.at == s.at && r.prevHash == s.prevHash && r.rowHash == s.rowHash
  }

  function DecimalValue(s: string): int {
    if s == "" then 0 else DecimalValue(s[..|s| - 1]) * 10 + (s[|s| - 1] as int - '0' as int)
  }

  lemma {:induction false} DecimalIsExact(n: nat)
    ensures DecimalValue(Decimal(n)) == n
  {
    var s := Decimal(n);
    if n < 10 {
      assert s[..0] == "";
    } else {
      DecimalIsExact(n / 10);
      assert s[..|s| - 1] == Decimal(n / 10);
    }
  }

  /** The newline-joined form determines its fields, whatever the target contains. */
  lemma CanonicalRowIsInjective(a: Args, p: string, at: nat, b: Args, q: string, bt: nat)
    requires OneLineArgs(a) && OneLineArgs(b) && '\n' !in p && '\n' !in q
    requires CanonicalRow(a, p, at) == CanonicalRow(b, q, bt)
    ensures a.actor == b.actor && a.action == b.action && TargetText(a.target) == TargetText(b.target)
    ensures a.meta == b.meta && p == q && at == bt
  {
    var a2 := TargetText(a.target) + "\n" + a.meta + "\n" + p + "\n" + Decimal(at);
    var b2 := TargetText(b.target) + "\n" + b.meta + "\n" + q + "\n" + Decimal(bt);
    FirstSeparator(a.actor, a.action + "\n" + a2, b.actor, b.action + "\n" + b2, '\n');
    FirstSeparator(a.action, a2, b.action, b2, '\n');
    LastThreeLines(TargetText(a.target), a.meta, p, Decimal(at), TargetText(b.target), b.meta, q, Decimal(bt));
    DecimalIsExact(at);
    DecimalIsExact(bt);
  }

  lemma ChainedHashesAreOneLine(h: Hash, rows: seq<Row>, n: nat)
    requires HexOutput(h) && Chained(h, rows) && n <= |rows|
    ensures '\n' !in HashBefore(rows, n)
    ensures n > 0 ==> HashBefore(rows, n) != ZERO_HASH
  {
    if n > 0 {
      assert LinkOk(h, rows, n - 1);
    }
  }

  /** Two rows with one hash hold the same fields. */
  lemma SameHashSameRow(h: Hash, r: Row, s: Row)
    requires Injective(h) && OneLineArgs(r.args) && OneLineArgs(s.args) && '\n' !in r.prevHash && '\n' !in s.prevHash
    requires r.rowHash == s.rowHash && r.rowHash == RowHash(h, r) && s.rowHash == RowHash(h, s)
    ensures SameContent(r, s)
  {
    assert CanonicalRow(r.args, r.prevHash, r.at) == CanonicalRow(s.args, s.prevHash, s.at);
    CanonicalRowIsInjective(r.args, r.prevHash, r.at, s.args, s.prevHash, s.at);
  }

  lemma SameLastRow(h: Hash, a: seq<Row>, b: seq<Row>, n: nat, m: nat)
    requires Injective(h) && HexOutput(h) && OneLineRows(a) && OneLineRows(b)
    requires Chained(h, a) && Chained(h, b) && 0 < n <= |a| && 0 < m <= |b|
    requires HashBefore(a, n) == HashBefore(b, m)
    ensures SameContent(a[n - 1], b[m - 1]) && HashBefore(a, n - 1) == HashBefore(b, m - 1)
  {
    assert LinkOk(h, a, n - 1) && LinkOk(h, b, m - 1);
    ChainedHashesAreOneLine(h, a, n - 1);
    ChainedHashesAreOneLine(h, b, m - 1);
    SameHashSameRow(h, a[n - 1], b[m - 1]);
  }

  predicate SamePrefix(a: seq<Row>, b: seq<Row>, n: nat)
    requires n <= |a| && n <= |b|
  {
    n == 0 || (SamePrefix(a, b, n - 1) && SameContent(a[n - 1], b[n - 1]))
  }

  lemma {:induction false} SamePrefixAt(a: seq<Row>, b: seq<Row>, n: nat, i: nat)
    requires i < n <= |a| && n <= |b| && SamePrefix(a, b, n)
    ensures SameContent(a[i], b[i])
  {
    if i < n - 1 { SamePrefixAt(a, b, n - 1, i); }
  }

  lemma SamePrefixAll(a: seq<Row>, b: seq<Row>)
    requires |a| == |b| && SamePrefix(a, b, |a|)
    ensures SameRows(a, b)
  {
    forall i | 0 <= i < |a| ensures SameContent(a[i], b[i]) {
      SamePrefixAt(a, b, |a|, i);
    }
  }

  predicate SameRows(a: seq<Row>, b: seq<Row>) {
    |a| == |b| && forall i :: 0 <= i < |a| ==> SameContent(a[i], b[i])
  }

  /** Backward induction: equal hashes after `n` and `m` rows make the two prefixes equal. */
  lemma {:induction false} SameHashSamePrefix(h: Hash, a: seq<Row>, b: seq<Row>, n: nat, m: nat)
    requires Injective(h) && HexOutput(h) && OneLineRows(a) && OneLineRows(b)
    requires Chained(h, a) && Chained(h, b) && n <= |a| && m <= |b|
    requires HashBefore(a, n) == HashBefore(b, m)
    ensures n == m && SamePrefix(a, b, n)
    decreases n
  {
    if n > 0 && m > 0 {
      SameLastRow(h, a, b, n, m);
      SameHashSamePrefix(h, a, b, n - 1, m - 1);
    } else {
      ChainedHashesAreOneLine(h, a, n);
      ChainedHashesAreOneLine(h, b, m);
    }
  }

  /** Tamper evidence: two logs that the verifier accepts and that end in the same hash
      agree row by row on every hashed field. */
  lemma TamperEvident(h: Hash, a: seq<Row>, b: seq<Row>)
    requires Injective(h) && HexOutput(h) && OneLineRows(a) && OneLineRows(b) && NoRowZero(a) && NoRowZero(b)
    requires Verify(h, ZERO_HASH, a).Intact? && Verify(h, ZERO_HASH, b).Intact?
    requires HashBefore(a, |a|) == HashBefore(b, |b|)
    ensures SameRows(a, b)
  {
    IntactIsChained(h, a);
    IntactIsChained(h, b);
    SameHashSamePrefix(h, a, b, |a|, |b|);
    SamePrefixAll(a, b);
  }

  // ---------- where the rows are ambiguous ----------

  predicate SameFields(a: Args, b: Args) {
    a.actor == b.actor && a.action == b.action && TargetText(a.target) == TargetText(b.target) && a.meta == b.meta
  }

  predicate OneLineRest(a: Args) {
    '\n' !in a.action && '\n' !in a.meta
  }

  /** Two different rows with one canonical form. */
  predicate Collide(a: Args, b: Args, prevHash: string, at: nat) {
    && OneLineRest(a) && OneLineRest(b) && '\n' !in prevHash && !SameFields(a, b)
    && CanonicalRow(a, prevHash, at) == CanonicalRow(b, prevHash, at)
  }

  /** A row of this actor collides with a different row whose actor is no longer than it. */
  ghost predicate Ambiguous(actor: string) {
    exists a: Args, b: Args, prevHash: string, at: nat :: a.actor == actor && |b.actor| <= |actor| &&
        Collide(a, b, prevHash, at)
  }

  /** The actor's last line may as well be the action, and the action the target's first. */
  lemma NewlineInActorCollides(
    x: string, y: string, action: string, target: string, meta: string, prevHash: string, at: nat)
    requires '\n' !in y && '\n' !in action && '\n' !in meta && '\n' !in prevHash
    ensures Collide(Args(x + "\n" + y, action, Some(target), meta), Args(x, y, Some(action + "\n" + target), meta),
            prevHash, at)
  {
    var rest := "\n" + meta + "\n" + prevHash + "\n" + Decimal(at);
    var l := CanonicalRow(Args(x + "\n" + y, action, Some(target), meta), prevHash, at);
    var r := CanonicalRow(Args(x, y, Some(action + "\n" + target), meta), prevHash, at);
    assert l == x + "\n" + y + "\n" + action + "\n" + target + rest;
    assert r == x + "\n" + y + "\n" + action + "\n" + target + rest;
  }

  /** A row whose actor is one line collides with no row of a shorter or equally long actor:
      the other actor is the same text's beginning, so it is one line too. */
  lemma OneLineActorDoesNotCollide(a: Args, b: Args, prevHash: string, at: nat)
    requires '\n' !in a.actor && |b.actor| <= |a.actor|
    ensures !Collide(a, b, prevHash, at)
  {
    if OneLineRest(a) && OneLineRest(b) && '\n' !in prevHash &&
        CanonicalRow(a, prevHash, at) == CanonicalRow(b, prevHash, at) {
      var text := CanonicalRow(a, prevHash, at);
      assert forall i :: 0 <= i < |b.actor| ==> b.actor[i] == text[i] == a.actor[i];
      CanonicalRowIsInjective(a, prevHash, at, b, prevHash, at);
    }
  }

  lemma {:induction false} LastLine(s: string) returns (x: string, y: string)
    requires '\n' in s
    ensures s == x + "\n" + y && '\n' !in y
  {
    var front, c := s[..|s| - 1], s[|s| - 1];
    assert s == front + [c];
    if c == '\n' {
      x, y := front, "";
    } else {
      x, y := LastLine(front);
      assert x + "\n" + y + [c] == x + "\n" + (y + [c]);
      y := y + [c];
    }
  }

  /** An actor's rows can be mistaken for others exactly if it contains a newline. */
  lemma AmbiguousIffNewline(actor: string)
    ensures Ambiguous(actor) <==> '\n' in actor
  {
    if '\n' in actor {
      var x, y := LastLine(actor);
      NewlineInActorCollides(x, y, "", "", "", "", 0);
      assert Collide(Args(actor, "", Some(""), ""), Args(x, y, Some("" + "\n" + ""), ""), "", 0);
    } else {
      forall a: Args, b: Args, prevHash, at: nat | a.actor == actor && |b.actor| <= |actor|
        ensures !Collide(a, b, prevHash, at)
      {
        OneLineActorDoesNotCollide(a, b, prevHash, at);
      }
    }
  }

  /** In any log, everything in a row with id 0 but its hash can be replaced without the
      verifier noticing. */
  lemma RowZeroIsTrusted(h: Hash, rows: seq<Row>, k: nat, r: Row)
    requires k < |rows| && rows[k].id == 0 && r.id == 0 && r.rowHash == rows[k].rowHash
    ensures Verify(h, ZERO_HASH, rows[k := r]) == Intact <==> Verify(h, ZERO_HASH, rows) == Intact
  {
    var other := rows[k := r];
    IntactIff(h, rows);
    IntactIff(h, other);
    forall i | 0 <= i < |rows| ensures RowOk(h, rows, i) <==> RowOk(h, other, i) {
      assert HashBefore(other, i) == HashBefore(rows, i);
    }
  }
}
