/** What every run of mirror operations keeps: UIDs, UIDNEXT, the live list, and the effect
    of receiving a change set twice. */
module MirrorHistory {
  import opened Text
  import opened Mirror

  datatype Op =
    | Apply(mb: string, ch: Changes, now: nat)
    | MarkRow(mb: string, id: string, now: nat)
    | SetFlags(mb: string, id: string, flags: seq<string>)

  function Do(t: Tables, op: Op): Tables {
    match op
    case Apply(mb, ch, now) => ApplyTables(t, mb, ch, now)
    case MarkRow(mb, id, now) => t.(rows := EditRows(t.rows, mb, id, Mark(now)))
    case SetFlags(mb, id, flags) => t.(rows := EditRows(t.rows, mb, id, Flags(flags)))
  }

  function Run(t: Tables, ops: seq<Op>): Tables {
    if ops == [] then t else Do(Run(t, ops[..|ops| - 1]), ops[|ops| - 1])
  }

  // ---------- UIDs are for ever ----------

  /** In each mailbox the UIDs rise in insertion order and no message has two rows. */
  predicate TableOk(rows: seq<Row>) {
    && (forall i :: 0 <= i < |rows| ==> rows[i].uid >= 1)
    && (forall i, j :: 0 <= i < j < |rows| && rows[i].mailbox == rows[j].mailbox ==>
          rows[i].uid < rows[j].uid && rows[i].id != rows[j].id)
  }

  predicate SameMessage(r: Row, q: Row) {
    && r.mailbox == q.mailbox && r.id == q.id && r.uid == q.uid && r.validity == q.validity
    && (r.expungedAt.Some? ==> q.expungedAt.Some?)
  }

  /** Every row of `a` is still there, under its UID and never revived, and later rows have
      UIDs from `a`'s UIDNEXT on. */
  predicate Extends(a: seq<Row>, b: seq<Row>) {
    && |a| <= |b|
    && (forall i :: 0 <= i < |a| ==> SameMessage(a[i], b[i]))
    && (forall i :: |a| <= i < |b| ==> b[i].uid >= UidNext(a, b[i].mailbox))
  }

  lemma {:induction false} UidNextExceeds(rows: seq<Row>, i: nat)
    requires i < |rows|
    ensures rows[i].uid < UidNext(rows, rows[i].mailbox)
  {
    var front := rows[..|rows| - 1];
    if i < |front| {
      assert front[i] == rows[i];
      UidNextExceeds(front, i);
    }
  }

  /** UIDNEXT never decreases. */
  lemma {:induction false} UidNextGrows(a: seq<Row>, b: seq<Row>, mb: string)
    requires Extends(a, b)
    ensures UidNext(a, mb) <= UidNext(b, mb)
  {
    if |b| > |a| {
      UidNextGrows(a, b[..|b| - 1], mb);
    } else {
      MaxUidOfSame(a, b, mb);
    }
  }

  lemma ExtendsTrans(a: seq<Row>, b: seq<Row>, c: seq<Row>)
    requires Extends(a, b) && Extends(b, c)
    ensures Extends(a, c)
  {
    forall i | 0 <= i < |a| ensures SameMessage(a[i], c[i]) {
      assert SameMessage(a[i], b[i]) && SameMessage(b[i], c[i]);
    }
    forall i | |a| <= i < |c| ensures c[i].uid >= UidNext(a, c[i].mailbox) {
      UidNextGrows(a, b, c[i].mailbox);
      assert i < |b| ==> SameMessage(b[i], c[i]);
    }
  }

  lemma {:induction false} NewIdsAreNew(rows: seq<Row>, mb: string, seen: seq<string>)
    ensures var ids := NewIds(rows, mb, seen);
      && (forall i :: 0 <= i < |ids| ==> !Has(rows, mb, ids[i]) && ids[i] in seen)
      && (forall i, j :: 0 <= i < j < |ids| ==> ids[i] != ids[j])
      && (forall k :: 0 <= k < |seen| ==> Has(rows, mb, seen[k]) || seen[k] in ids)
  {
    if seen != [] {
      NewIdsAreNew(rows, mb, seen[..|seen| - 1]);
    }
  }

  lemma EditKeeps(rows: seq<Row>, mb: string, id: string, e: Edit)
    requires TableOk(rows)
    ensures TableOk(EditRows(rows, mb, id, e)) && Extends(rows, EditRows(rows, mb, id, e))
  {
  }

  lemma BatchKeeps(
    rows: seq<Row>, mb: string, deleted: seq<string>, seen: seq<string>, updated: seq<string>, validity: nat,
    now: nat, state: int)
    requires TableOk(rows)
    ensures
      var b := Batch(rows, mb, deleted, seen, updated, validity, now, state);
      TableOk(b) && Extends(rows, b)
  {
    var b := Batch(rows, mb, deleted, seen, updated, validity, now, state);
    var n := |rows|;
    NewIdsAreNew(rows, mb, seen);
    forall i, j | 0 <= i < j < |b| && b[i].mailbox == b[j].mailbox ensures b[i].uid < b[j].uid && b[i].id != b[j].id {
      if i < n <= j {
        UidNextExceeds(rows, i);
        assert !Has(rows, mb, b[j].id);
        assert !Is(rows[i], mb, b[j].id);
      }
    }
  }

  lemma DoKeeps(t: Tables, op: Op)
    requires TableOk(t.rows)
    ensures TableOk(Do(t, op).rows) && Extends(t.rows, Do(t, op).rows)
  {
    match op
    case Apply(mb, ch, now) => BatchKeeps(t.rows, mb, ch.deleted, ch.added + ch.updated, ch.updated,
        Stamp(t, mb, ch), now, ch.state);
    case MarkRow(mb, id, now) => EditKeeps(t.rows, mb, id, Mark(now));
    case SetFlags(mb, id, flags) => EditKeeps(t.rows, mb, id, Flags(flags));
  }

  /** Over every run: UIDs stay distinct, no row's UID ever changes, and an expunged row
      stays expunged. */
  lemma {:induction false} RunKeeps(t: Tables, ops: seq<Op>)
    requires TableOk(t.rows)
    ensures TableOk(Run(t, ops).rows) && Extends(t.rows, Run(t, ops).rows)
  {
    if ops != [] {
      var u := Run(t, ops[..|ops| - 1]);
      RunKeeps(t, ops[..|ops| - 1]);
      DoKeeps(u, ops[|ops| - 1]);
      ExtendsTrans(t.rows, u.rows, Run(t, ops).rows);
    }
  }

  lemma OneUidPerMessage(rows: seq<Row>, i: nat, j: nat)
    requires TableOk(rows) && i < |rows| && j < |rows| && rows[i].mailbox == rows[j].mailbox
    ensures rows[i].uid == rows[j].uid <==> rows[i].id == rows[j].id
  {
  }

  /** A UID seen once names the same message in every later state: it is never reassigned,
      and UIDNEXT is above it and never goes down. */
  lemma UidNeverReused(t: Tables, ops: seq<Op>, i: nat, j: nat)
    requires TableOk(t.rows) && i < |t.rows| && j < |Run(t, ops).rows|
    requires Run(t, ops).rows[j].mailbox == t.rows[i].mailbox
    ensures Run(t, ops).rows[j].uid == t.rows[i].uid <==> Run(t, ops).rows[j].id == t.rows[i].id
    ensures t.rows[i].uid < UidNext(t.rows, t.rows[i].mailbox) <= UidNext(Run(t, ops).rows, t.rows[i].mailbox)
  {
    RunKeeps(t, ops);
    var rows := Run(t, ops).rows;
    assert SameMessage(t.rows[i], rows[i]);
    OneUidPerMessage(rows, i, j);
    UidNextExceeds(t.rows, i);
    UidNextGrows(t.rows, rows, t.rows[i].mailbox);
  }

  /** How many of the rows are this mailbox's. */
  function RowCount(rows: seq<Row>, mb: string): nat {
    if rows == [] then 0
    else RowCount(rows[..|rows| - 1], mb) + if rows[|rows| - 1].mailbox == mb then 1 else 0
  }

  /** The rows of each mailbox are numbered 1, 2, 3, ... in insertion order. */
  predicate Numbered(rows: seq<Row>) {
    rows == [] ||
    var front, r := rows[..|rows| - 1], rows[|rows| - 1];
    Numbered(front) && r.uid == RowCount(front, r.mailbox) + 1
  }

  lemma {:induction false} MaxIsCount(rows: seq<Row>, mb: string)
    requires Numbered(rows)
    ensures MaxUid(rows, mb) == RowCount(rows, mb)
  {
    if rows != [] {
      MaxIsCount(rows[..|rows| - 1], mb);
    }
  }

  lemma {:induction false} NumberedSame(a: seq<Row>, b: seq<Row>)
    requires |a| == |b| && forall i :: 0 <= i < |a| ==> a[i].mailbox == b[i].mailbox && a[i].uid == b[i].uid
    requires Numbered(a)
    ensures Numbered(b) && forall mb :: RowCount(b, mb) == RowCount(a, mb)
  {
    if a != [] {
      NumberedSame(a[..|a| - 1], b[..|b| - 1]);
    }
  }

  lemma {:induction false} NumberedAppend(a: seq<Row>, b: seq<Row>, mb: string)
    requires Numbered(a)
    requires forall i :: 0 <= i < |b| ==> b[i].mailbox == mb && b[i].uid == RowCount(a, mb) + 1 + i
    ensures Numbered(a + b) && RowCount(a + b, mb) == RowCount(a, mb) + |b|
  {
    if b == [] {
      assert a + b == a;
    } else {
      NumberedAppend(a, b[..|b| - 1], mb);
      assert (a + b)[..|a + b| - 1] == a + b[..|b| - 1];
    }
  }

  lemma NumberedStep(t: Tables, op: Op)
    requires Numbered(t.rows)
    ensures Numbered(Do(t, op).rows)
  {
    match op
    case Apply(mb, ch, now) =>
      var m := Merged(t.rows, mb, ch.deleted, ch.updated, now, ch.state);
      var ids := NewIds(t.rows, mb, ch.added + ch.updated);
      NumberedSame(t.rows, m);
      MaxIsCount(t.rows, mb);
      NumberedAppend(m, Fresh(mb, ids, UidNext(t.rows, mb), Stamp(t, mb, ch), ch.state), mb);
    case MarkRow(mb, id, now) => NumberedSame(t.rows, EditRows(t.rows, mb, id, Mark(now)));
    case SetFlags(mb, id, flags) => NumberedSame(t.rows, EditRows(t.rows, mb, id, Flags(flags)));
  }

  /** Over every run from an empty mirror the UIDs of each mailbox are exactly 1, 2, 3, ...
      in insertion order, whatever happens in other mailboxes, and UIDNEXT is the next. */
  lemma {:induction false} UidsAreConsecutive(ops: seq<Op>, mb: string)
    ensures Numbered(Run(Tables([], map[]), ops).rows)
    ensures UidNext(Run(Tables([], map[]), ops).rows, mb) == RowCount(Run(Tables([], map[]), ops).rows, mb) + 1
  {
    if ops != [] {
      UidsAreConsecutive(ops[..|ops| - 1], mb);
      NumberedStep(Run(Tables([], map[]), ops[..|ops| - 1]), ops[|ops| - 1]);
    }
    MaxIsCount(Run(Tables([], map[]), ops).rows, mb);
  }

  // ---------- the live list ----------

  lemma {:induction false} LiveKeysComeFromRows(rows: seq<Row>, mb: string, k: nat)
    requires k < |LiveKeys(rows, mb)|
    ensures exists i :: 0 <= i < |rows| && Live(rows[i], mb) && LiveKeys(rows, mb)[k] == Key(rows[i].id, rows[i].uid)
  {
    var front := rows[..|rows| - 1];
    if k < |LiveKeys(front, mb)| {
      LiveKeysComeFromRows(front, mb, k);
      var i :| 0 <= i < |front| && Live(front[i], mb) && LiveKeys(front, mb)[k] == Key(front[i].id, front[i].uid);
      assert rows[i] == front[i];
    }
  }

  /** The live list is in UID order. */
  lemma {:induction false} LiveInUidOrder(rows: seq<Row>, mb: string, a: nat, b: nat)
    requires TableOk(rows) && a < b < |LiveKeys(rows, mb)|
    ensures LiveKeys(rows, mb)[a].uid < LiveKeys(rows, mb)[b].uid &&
            LiveKeys(rows, mb)[a].id != LiveKeys(rows, mb)[b].id
  {
    var front := rows[..|rows| - 1];
    if b < |LiveKeys(front, mb)| {
      LiveInUidOrder(front, mb, a, b);
    } else {
      LiveKeysComeFromRows(front, mb, a);
    }
  }

  function FreshKeys(ids: seq<string>, uid: nat): (out: seq<Key>)
    ensures |out| == |ids|
  {
    seq(|ids|, i requires 0 <= i < |ids| => Key(ids[i], uid + i))
  }

  lemma {:induction false} LiveOfConcat(a: seq<Row>, b: seq<Row>, mb: string)
    ensures LiveKeys(a + b, mb) == LiveKeys(a, mb) + LiveKeys(b, mb)
  {
    if b == [] {
      assert a + b == a;
    } else {
      LiveOfConcat(a, b[..|b| - 1], mb);
      assert (a + b)[..|a + b| - 1] == a + b[..|b| - 1];
    }
  }

  lemma {:induction false} FreshIsLive(mb: string, ids: seq<string>, uid: nat, validity: nat, state: int)
    ensures LiveKeys(Fresh(mb, ids, uid, validity, state), mb) == FreshKeys(ids, uid)
  {
    if ids != [] {
      var added := Fresh(mb, ids, uid, validity, state);
      var front := ids[..|ids| - 1];
      FreshIsLive(mb, front, uid, validity, state);
      assert added[..|ids| - 1] == Fresh(mb, front, uid, validity, state);
    }
  }

  /** A change set removes the deleted messages from the live list and appends the messages
      it had not seen, with consecutive UIDs from UIDNEXT. */
  lemma LiveAfterApply(t: Tables, mb: string, ch: Changes, now: nat)
    ensures LiveKeys(ApplyTables(t, mb, ch, now).rows, mb)
            == Without(LiveKeys(t.rows, mb), ch.deleted) +
                FreshKeys(NewIds(t.rows, mb, ch.added + ch.updated), UidNext(t.rows, mb))
  {
    var m := Merged(t.rows, mb, ch.deleted, ch.updated, now, ch.state);
    LiveAfterEdits(t.rows, m, mb, ch.deleted);
    var ids := NewIds(t.rows, mb, ch.added + ch.updated);
    FreshIsLive(mb, ids, UidNext(t.rows, mb), Stamp(t, mb, ch), ch.state);
    LiveOfConcat(m, Fresh(mb, ids, UidNext(t.rows, mb), Stamp(t, mb, ch), ch.state), mb);
  }

  lemma {:induction false} LiveOfOthers(rows: seq<Row>, mb: string)
    requires forall i :: 0 <= i < |rows| ==> rows[i].mailbox != mb
    ensures LiveKeys(rows, mb) == []
  {
    if rows != [] {
      LiveOfOthers(rows[..|rows| - 1], mb);
    }
  }

  /** Setting flags moves nothing, and no operation touches another mailbox's list. */
  lemma LiveUnchanged(t: Tables, op: Op, mb: string)
    requires op.SetFlags? || op.mb != mb
    ensures LiveKeys(Do(t, op).rows, mb) == LiveKeys(t.rows, mb)
  {
    if op.Apply? {
      var m := Merged(t.rows, op.mb, op.ch.deleted, op.ch.updated, op.now, op.ch.state);
      LiveSame(t.rows, m, mb);
      var ids := NewIds(t.rows, op.mb, op.ch.added + op.ch.updated);
      var added := Fresh(op.mb, ids, UidNext(t.rows, op.mb), Stamp(t, op.mb, op.ch), op.ch.state);
      LiveOfOthers(added, mb);
      LiveOfConcat(m, added, mb);
    } else {
      LiveSame(t.rows, Do(t, op).rows, mb);
    }
  }

  // ---------- what a change set leaves behind ----------

  /** The last change set that a mailbox was sent. */
  function LastApply(ops: seq<Op>, mb: string): (r: Option<Op>)
    ensures r.Some? ==> r.value.Apply?
  {
    if ops == [] then None
    else
      var last := ops[|ops| - 1];
      if last.Apply? && last.mb == mb then Some(last) else LastApply(ops[..|ops| - 1], mb)
  }

  lemma MetaAfter(t: Tables, op: Op, mb: string)
    ensures
      var u := Do(t, op);
      if op.Apply? && op.mb == mb then
        && mb in u.meta && u.meta[mb].lastState == op.ch.state && u.meta[mb].refreshedAt == op.now
        && (op.ch.validity > 0 ==> u.meta[mb].validity == op.ch.validity)
      else (mb in u.meta <==> mb in t.meta) && (mb in t.meta ==> u.meta[mb] == t.meta[mb])
  {
  }

  /** The cursor of a mailbox after a run is the state of the last change set it was sent,
      with the time of its arrival; every other operation leaves it alone. */
  lemma {:induction false} CursorIsLastState(t: Tables, ops: seq<Op>, mb: string)
    ensures
      var last, u := LastApply(ops, mb), Run(t, ops);
      if last.None? then (mb in u.meta <==> mb in t.meta) && (mb in t.meta ==> u.meta[mb] == t.meta[mb])
      else
        && mb in u.meta && u.meta[mb].lastState == last.value.ch.state && u.meta[mb].refreshedAt == last.value.now
        && (last.value.ch.validity > 0 ==> u.meta[mb].validity == last.value.ch.validity)
  {
    if ops != [] {
      CursorIsLastState(t, ops[..|ops| - 1], mb);
      MetaAfter(Run(t, ops[..|ops| - 1]), ops[|ops| - 1], mb);
    }
  }

  /** A change set without a validity keeps the mailbox's, and no change set loses one. */
  lemma ValidityStays(t: Tables, mb: string, ch: Changes, now: nat, other: string)
    ensures
      var u := ApplyTables(t, mb, ch, now);
      && (ch.validity == 0 && mb in t.meta ==> u.meta[mb].validity == t.meta[mb].validity)
      && (other != mb ==> (other in u.meta <==> other in t.meta))
      && (other != mb && other in t.meta ==> u.meta[other] == t.meta[other])
  {
  }

  lemma {:induction false} MaxValidityIs(rows: seq<Row>, mb: string)
    ensures forall i :: 0 <= i < |rows| && rows[i].mailbox == mb ==> rows[i].validity <= MaxValidity(rows, mb)
    ensures MaxValidity(rows, mb) > 0 ==>
              exists i :: 0 <= i < |rows| && rows[i].mailbox == mb && rows[i].validity == MaxValidity(rows, mb)
  {
    if rows != [] {
      var front := rows[..|rows| - 1];
      MaxValidityIs(front, mb);
      if MaxValidity(rows, mb) == MaxValidity(front, mb) > 0 {
        var i :| 0 <= i < |front| && front[i].mailbox == mb && front[i].validity == MaxValidity(front, mb);
        assert rows[i] == front[i];
      }
    }
  }

  predicate HasValidity(rows: seq<Row>, mb: string, v: nat) {
    exists i :: 0 <= i < |rows| && rows[i].mailbox == mb && rows[i].validity == v
  }

  /** A new message's row has a positive validity: the change set's, else the mailbox's, else
      the largest of its rows, else 1; and it is unread, unflagged and live. */
  lemma NewRowsAre(t: Tables, mb: string, ch: Changes, now: nat, i: nat)
    requires |t.rows| <= i < |ApplyTables(t, mb, ch, now).rows|
    ensures
      var r := ApplyTables(t, mb, ch, now).rows[i];
      && r.mailbox == mb && r.flags == [] && r.readAt == None && r.expungedAt == None && r.changeId == ch.state
      && r.validity > 0 && r.id in ch.added + ch.updated
      && (if ch.validity > 0 then r.validity == ch.validity
          else if mb in t.meta && t.meta[mb].validity > 0 then r.validity == t.meta[mb].validity
          else
            && (HasValidity(t.rows, mb, r.validity) || r.validity == 1)
            && forall k :: 0 <= k < |t.rows| && t.rows[k].mailbox == mb ==> t.rows[k].validity <= r.validity)
  {
    NewIdsAreNew(t.rows, mb, ch.added + ch.updated);
    MaxValidityIs(t.rows, mb);
  }

  /** A message already there gets the new change id exactly if the change set deletes or
      updates it; announcing it again changes nothing. */
  lemma OldRowsAre(t: Tables, mb: string, ch: Changes, now: nat, i: nat)
    requires i < |t.rows|
    ensures
      var r, q := t.rows[i], ApplyTables(t, mb, ch, now).rows[i];
      if r.mailbox != mb || (r.id !in ch.deleted && r.id !in ch.updated) then q == r
      else
        && q == r.(changeId := ch.state, expungedAt := q.expungedAt)
        && q.expungedAt == if r.id in ch.deleted then Some(now) else r.expungedAt
  {
  }

  // ---------- receiving a change set twice ----------

  predicate SameButTime(r: Row, q: Row) {
    q == r.(expungedAt := q.expungedAt) && (r.expungedAt.Some? <==> q.expungedAt.Some?)
  }

  predicate SameButTimes(t: Tables, u: Tables) {
    && |t.rows| == |u.rows| && (forall i :: 0 <= i < |t.rows| ==> SameButTime(t.rows[i], u.rows[i]))
    && t.meta.Keys == u.meta.Keys
    && forall mb :: mb in t.meta ==> u.meta[mb] == t.meta[mb].(refreshedAt := u.meta[mb].refreshedAt)
  }

  /** Every id that is both deleted and announced already has its row. */
  predicate NoNewcomerDeleted(rows: seq<Row>, mb: string, ch: Changes) {
    forall k :: 0 <= k < |ch.deleted| && ch.deleted[k] in ch.added + ch.updated ==> Has(rows, mb, ch.deleted[k])
  }

  lemma NothingNewTwice(t: Tables, mb: string, ch: Changes, now: nat, n: nat)
    requires n <= |ch.added + ch.updated|
    ensures NewIds(ApplyTables(t, mb, ch, now).rows, mb, (ch.added + ch.updated)[..n]) == []
    decreases n
  {
    var seen := ch.added + ch.updated;
    if n > 0 {
      NothingNewTwice(t, mb, ch, now, n - 1);
      assert seen[..n][..n - 1] == seen[..n - 1];
      NewIdsAreNew(t.rows, mb, seen);
      BatchHas(t.rows, mb, ch.deleted, seen, ch.updated, Stamp(t, mb, ch), now, ch.state, seen[n - 1]);
    }
  }

  lemma SecondApply(t: Tables, mb: string, ch: Changes, now: nat, later: nat)
    ensures
      var u := ApplyTables(t, mb, ch, now);
      ApplyTables(u, mb, ch, later).rows == Merged(u.rows, mb, ch.deleted, ch.updated, later, ch.state)
  {
    var seen := ch.added + ch.updated;
    NothingNewTwice(t, mb, ch, now, |seen|);
    assert seen[..|seen|] == seen;
  }

  lemma NewcomerNotDeleted(rows: seq<Row>, mb: string, ch: Changes, id: string)
    requires NoNewcomerDeleted(rows, mb, ch) && id in NewIds(rows, mb, ch.added + ch.updated)
    ensures id !in ch.deleted
  {
    NewIdsAreNew(rows, mb, ch.added + ch.updated);
  }

  lemma ReapplyIsQuiet(t: Tables, mb: string, ch: Changes, now: nat, later: nat)
    requires NoNewcomerDeleted(t.rows, mb, ch)
    ensures var u := ApplyTables(t, mb, ch, now); SameButTimes(u, ApplyTables(u, mb, ch, later))
  {
    var u := ApplyTables(t, mb, ch, now);
    var v := ApplyTables(u, mb, ch, later);
    SecondApply(t, mb, ch, now, later);
    forall i | 0 <= i < |u.rows| ensures SameButTime(u.rows[i], v.rows[i]) {
      if i >= |t.rows| {
        NewcomerNotDeleted(t.rows, mb, ch, u.rows[i].id);
      }
    }
  }

  lemma DeletedNewcomerShows(t: Tables, mb: string, ch: Changes, now: nat, later: nat, k: nat)
    requires k < |ch.deleted| && ch.deleted[k] in ch.added + ch.updated && !Has(t.rows, mb, ch.deleted[k])
    ensures var u := ApplyTables(t, mb, ch, now); !SameButTimes(u, ApplyTables(u, mb, ch, later))
  {
    var u := ApplyTables(t, mb, ch, now);
    var seen := ch.added + ch.updated;
    var ids := NewIds(t.rows, mb, seen);
    SecondApply(t, mb, ch, now, later);
    NewIdsAreNew(t.rows, mb, seen);
    var i :| 0 <= i < |ids| && ids[i] == ch.deleted[k];
    assert !SameButTime(u.rows[|t.rows| + i], ApplyTables(u, mb, ch, later).rows[|t.rows| + i]);
  }

  /** Receiving the same change set again changes timestamps only, if and only if it does
      not delete a message that it is also the first to announce. In particular it holds
      when Deleted is disjoint from Added and Updated. */
  lemma ReapplyChangesOnlyTimes(t: Tables, mb: string, ch: Changes, now: nat, later: nat)
    ensures
      var u := ApplyTables(t, mb, ch, now);
      SameButTimes(u, ApplyTables(u, mb, ch, later)) <==> NoNewcomerDeleted(t.rows, mb, ch)
  {
    if NoNewcomerDeleted(t.rows, mb, ch) {
      ReapplyIsQuiet(t, mb, ch, now, later);
    } else {
      var k :| 0 <= k < |ch.deleted| && ch.deleted[k] in ch.added + ch.updated && !Has(t.rows, mb, ch.deleted[k]);
      DeletedNewcomerShows(t, mb, ch, now, later, k);
    }
  }
}
