/** The bridge's local mirror of mailboxes: rows with locally assigned UIDs, merged from
    change sets, and soft deletes. */
module Mirror {
  import opened Text

  datatype Row = Row(
    mailbox: string, id: string, uid: nat, validity: nat, changeId: int,
    flags: seq<string>, readAt: Option<nat>, expungedAt: Option<nat>)

  datatype Meta = Meta(lastState: int, refreshedAt: nat, validity: nat)

  /** `validity` 0 means that the change set does not carry one. */
  datatype Changes = Changes(added: seq<string>, updated: seq<string>, deleted: seq<string>, state: int, validity: nat)

  /** The two tables; rows stand in the order in which they were inserted. */
  datatype Tables = Tables(rows: seq<Row>, meta: map<string, Meta>)

  // ---------- what the statements do ----------

  predicate Is(r: Row, mb: string, id: string) {
    r.mailbox == mb && r.id == id
  }

  predicate Has(rows: seq<Row>, mb: string, id: string) {
    exists i :: 0 <= i < |rows| && Is(rows[i], mb, id)
  }

  /** `COALESCE(MAX(uid), 0)` of one mailbox. */
  function MaxUid(rows: seq<Row>, mb: string): nat {
    if rows == [] then 0
    else
      var m := MaxUid(rows[..|rows| - 1], mb);
      var r := rows[|rows| - 1];
      if r.mailbox == mb && r.uid > m then r.uid else m
  }

  function UidNext(rows: seq<Row>, mb: string): nat {
    MaxUid(rows, mb) + 1
  }

  function MaxValidity(rows: seq<Row>, mb: string): nat {
    if rows == [] then 0
    else
      var m := MaxValidity(rows[..|rows| - 1], mb);
      var r := rows[|rows| - 1];
      if r.mailbox == mb && r.validity > m then r.validity else m
  }

  /** The validity stamped on placeholder rows: the change set's, else the mailbox's, else
      the largest on any row, else 1. */
  function Stamp(t: Tables, mb: string, ch: Changes): nat {
    if ch.validity > 0 then ch.validity
    else if mb in t.meta && t.meta[mb].validity > 0 then t.meta[mb].validity
    else if MaxValidity(t.rows, mb) > 0 then MaxValidity(t.rows, mb)
    else 1
  }

  datatype Edit =
    | Delete(now: nat, state: int)
    | Touch(state: int)
    | Mark(now: nat)
    | Flags(flags: seq<string>)

  function Edited(r: Row, e: Edit): Row {
    match e
    case Delete(now, state) => r.(expungedAt := Some(now), changeId := state)
    case Touch(state) => r.(changeId := state)
    case Mark(now) => r.(expungedAt := Some(now))
    case Flags(flags) => r.(flags := flags)
  }

  /** `UPDATE mailbox_state SET ... WHERE mailbox_id = ? AND message_id = ?` */
  function EditRows(rows: seq<Row>, mb: string, id: string, e: Edit): (out: seq<Row>)
    ensures |out| == |rows|
    ensures forall i :: 0 <= i < |rows| ==> out[i] == if Is(rows[i], mb, id) then Edited(rows[i], e) else rows[i]
  {
    seq(|rows|, i requires 0 <= i < |rows| => if Is(rows[i], mb, id) then Edited(rows[i], e) else rows[i])
  }

  function Placeholder(mb: string, id: string, uid: nat, validity: nat, state: int): Row {
    Row(mb, id, uid, validity, state, [], None, None)
  }

  /** `INSERT OR IGNORE` of a placeholder row with the next UID. */
  function InsertRow(rows: seq<Row>, mb: string, id: string, validity: nat, state: int): seq<Row> {
    if Has(rows, mb, id) then rows else rows + [Placeholder(mb, id, UidNext(rows, mb), validity, state)]
  }

  // ---------- what a whole change set does ----------

  /** An existing row after the change set. */
  function MergedRow(r: Row, mb: string, deleted: seq<string>, updated: seq<string>, now: nat, state: int): Row {
    if r.mailbox != mb then r
    else
      r.(expungedAt := if r.id in deleted then Some(now) else r.expungedAt,
         changeId := if r.id in deleted || r.id in updated then state else r.changeId)
  }

  function Merged(
    rows: seq<Row>, mb: string, deleted: seq<string>, updated: seq<string>, now: nat, state: int): (out: seq<Row>)
    ensures |out| == |rows|
    ensures forall i :: 0 <= i < |rows| ==> out[i] == MergedRow(rows[i], mb, deleted, updated, now, state)
  {
    seq(|rows|, i requires 0 <= i < |rows| => MergedRow(rows[i], mb, deleted, updated, now, state))
  }

  /** The ids that are not in the table yet, each once, in order of first appearance. */
  function NewIds(rows: seq<Row>, mb: string, ids: seq<string>): seq<string> {
    if ids == [] then []
    else
      var before := NewIds(rows, mb, ids[..|ids| - 1]);
      var id := ids[|ids| - 1];
      if Has(rows, mb, id) || id in before then before else before + [id]
  }

  /** Their rows, with consecutive UIDs. */
  function Fresh(mb: string, ids: seq<string>, uid: nat, validity: nat, state: int): (out: seq<Row>)
    ensures |out| == |ids|
    ensures forall i :: 0 <= i < |ids| ==> out[i] == Placeholder(mb, ids[i], uid + i, validity, state)
  {
    seq(|ids|, i requires 0 <= i < |ids| => Placeholder(mb, ids[i], uid + i, validity, state))
  }

  /** All rows after a change set: the old ones in place, then the new ones. */
  function Batch(
    rows: seq<Row>, mb: string, deleted: seq<string>, seen: seq<string>, updated: seq<string>, validity: nat,
    now: nat, state: int): seq<Row> {
    Merged(rows, mb, deleted, updated, now, state) +
        Fresh(mb, NewIds(rows, mb, seen), UidNext(rows, mb), validity, state)
  }

  function NewMeta(meta: map<string, Meta>, mb: string, ch: Changes, now: nat): map<string, Meta> {
    var validity := if ch.validity > 0 then ch.validity else if mb in meta then meta[mb].validity else 0;
    meta[mb := Meta(ch.state, now, validity)]
  }

  function ApplyTables(t: Tables, mb: string, ch: Changes, now: nat): Tables {
    Tables(Batch(t.rows, mb, ch.deleted, ch.added + ch.updated, ch.updated, Stamp(t, mb, ch), now, ch.state),
           NewMeta(t.meta, mb, ch, now))
  }

  // ---------- one statement at a time agrees with the whole ----------

  lemma DeleteNext(rows: seq<Row>, mb: string, deleted: seq<string>, id: string, now: nat, state: int)
    ensures EditRows(Merged(rows, mb, deleted, [], now, state), mb, id, Delete(now, state))
            == Merged(rows, mb, deleted + [id], [], now, state)
  {
  }

  lemma TouchNext(
    rows: seq<Row>, mb: string, deleted: seq<string>, seen: seq<string>, updated: seq<string>, id: string,
    validity: nat, now: nat, state: int)
    ensures EditRows(Batch(rows, mb, deleted, seen, updated, validity, now, state), mb, id, Touch(state))
            == Batch(rows, mb, deleted, seen, updated + [id], validity, now, state)
  {
    var a := EditRows(Batch(rows, mb, deleted, seen, updated, validity, now, state), mb, id, Touch(state));
    var b := Batch(rows, mb, deleted, seen, updated + [id], validity, now, state);
    assert |a| == |b|;
    forall i | 0 <= i < |a| ensures a[i] == b[i] {
    }
  }

  lemma {:induction false} MaxUidOfAppend(a: seq<Row>, b: seq<Row>, mb: string, uid: nat)
    requires MaxUid(a, mb) == uid
    requires forall i :: 0 <= i < |b| ==> b[i].mailbox == mb && b[i].uid == uid + 1 + i
    ensures MaxUid(a + b, mb) == uid + |b|
  {
    if b == [] {
      assert a + b == a;
    } else {
      MaxUidOfAppend(a, b[..|b| - 1], mb, uid);
      assert (a + b)[..|a + b| - 1] == a + b[..|b| - 1];
    }
  }

  lemma {:induction false} MaxUidOfSame(a: seq<Row>, b: seq<Row>, mb: string)
    requires |a| == |b| && forall i :: 0 <= i < |a| ==> a[i].mailbox == b[i].mailbox && a[i].uid == b[i].uid
    ensures MaxUid(a, mb) == MaxUid(b, mb)
  {
    if a != [] {
      MaxUidOfSame(a[..|a| - 1], b[..|b| - 1], mb);
    }
  }

  lemma BatchUidNext(
    rows: seq<Row>, mb: string, deleted: seq<string>, seen: seq<string>, updated: seq<string>, validity: nat,
    now: nat, state: int)
    ensures UidNext(Batch(rows, mb, deleted, seen, updated, validity, now, state), mb) ==
            UidNext(rows, mb) + |NewIds(rows, mb, seen)|
  {
    var m := Merged(rows, mb, deleted, updated, now, state);
    MaxUidOfSame(rows, m, mb);
    MaxUidOfAppend(m, Fresh(mb, NewIds(rows, mb, seen), UidNext(rows, mb), validity, state), mb, MaxUid(rows, mb));
  }

  lemma BatchHas(
    rows: seq<Row>, mb: string, deleted: seq<string>, seen: seq<string>, updated: seq<string>, validity: nat,
    now: nat, state: int, id: string)
    ensures Has(Batch(rows, mb, deleted, seen, updated, validity, now, state), mb, id) <==>
            Has(rows, mb, id) || id in NewIds(rows, mb, seen)
  {
    var ids := NewIds(rows, mb, seen);
    var b := Batch(rows, mb, deleted, seen, updated, validity, now, state);
    assert Has(rows, mb, id) ==> Has(b, mb, id) by {
      if i :| 0 <= i < |rows| && Is(rows[i], mb, id) { assert Is(b[i], mb, id); }
    }
    assert id in ids ==> Has(b, mb, id) by {
      if i :| 0 <= i < |ids| && ids[i] == id { assert Is(b[|rows| + i], mb, id); }
    }
    if i :| 0 <= i < |b| && Is(b[i], mb, id) {
      if i < |rows| { assert Is(rows[i], mb, id); } else { assert ids[i - |rows|] == id; }
    }
  }

  lemma InsertNext(
    rows: seq<Row>, mb: string, deleted: seq<string>, seen: seq<string>, updated: seq<string>, id: string,
    validity: nat, now: nat, state: int)
    ensures InsertRow(Batch(rows, mb, deleted, seen, updated, validity, now, state), mb, id, validity, state)
            == Batch(rows, mb, deleted, seen + [id], updated, validity, now, state)
  {
    BatchHas(rows, mb, deleted, seen, updated, validity, now, state, id);
    BatchUidNext(rows, mb, deleted, seen, updated, validity, now, state);
    assert (seen + [id])[..|seen|] == seen;
  }

  /** One turn of the loop over the updated ids. */
  lemma UpdateNext(rows: seq<Row>, mb: string, ch: Changes, k: nat, validity: nat, now: nat, tx: seq<Row>)
    requires k < |ch.updated|
    requires tx == Batch(rows, mb, ch.deleted, ch.added + ch.updated[..k], ch.updated[..k], validity, now, ch.state)
    ensures EditRows(InsertRow(tx, mb, ch.updated[k], validity, ch.state), mb, ch.updated[k], Touch(ch.state))
            == Batch(rows, mb, ch.deleted, ch.added + ch.updated[..k + 1], ch.updated[..k + 1], validity, now, ch.state)
  {
    var seen, done, id := ch.added + ch.updated[..k], ch.updated[..k], ch.updated[k];
    InsertNext(rows, mb, ch.deleted, seen, done, id, validity, now, ch.state);
    TouchNext(rows, mb, ch.deleted, seen + [id], done, id, validity, now, ch.state);
    assert ch.updated[..k + 1] == done + [id];
    assert ch.added + ch.updated[..k + 1] == seen + [id];
  }

  // ---------- the live list ----------

  datatype Key = Key(id: string, uid: nat)

  predicate Live(r: Row, mb: string) {
    r.mailbox == mb && r.expungedAt.None?
  }

  /** `ListLiveMessageIDs`: the rows without `expunged_at`, which table order keeps in UID
      order. */
  function LiveKeys(rows: seq<Row>, mb: string): seq<Key> {
    if rows == [] then []
    else
      var r := rows[|rows| - 1];
      LiveKeys(rows[..|rows| - 1], mb) + if Live(r, mb) then [Key(r.id, r.uid)] else []
  }

  function Without(keys: seq<Key>, ids: seq<string>): seq<Key> {
    if keys == [] then []
    else
      var k := keys[|keys| - 1];
      Without(keys[..|keys| - 1], ids) + if k.id in ids then [] else [k]
  }

  lemma WithoutAppend(keys: seq<Key>, k: Key, ids: seq<string>)
    ensures Without(keys + [k], ids) == Without(keys, ids) + if k.id in ids then [] else [k]
  {
    assert (keys + [k])[..|keys|] == keys;
  }

  /** Rows edited in place: those named in `gone` leave the list, the rest stay in order. */
  lemma {:induction false} LiveAfterEdits(a: seq<Row>, b: seq<Row>, mb: string, gone: seq<string>)
    requires |a| == |b|
    requires forall i :: 0 <= i < |a| ==> b[i].mailbox == a[i].mailbox && b[i].id == a[i].id && b[i].uid == a[i].uid
    requires forall i :: 0 <= i < |a| && a[i].mailbox == mb ==>
               (b[i].expungedAt.None? <==> a[i].expungedAt.None? && a[i].id !in gone)
    ensures LiveKeys(b, mb) == Without(LiveKeys(a, mb), gone)
  {
    if a != [] {
      var r := a[|a| - 1];
      var before := LiveKeys(a[..|a| - 1], mb);
      LiveAfterEdits(a[..|a| - 1], b[..|b| - 1], mb, gone);
      if Live(r, mb) {
        WithoutAppend(before, Key(r.id, r.uid), gone);
      } else {
        assert before + [] == before;
      }
    }
  }

  lemma {:induction false} LiveSame(a: seq<Row>, b: seq<Row>, mb: string)
    requires |a| == |b|
    requires forall i :: 0 <= i < |a| ==> Live(b[i], mb) == Live(a[i], mb) && b[i].id == a[i].id && b[i].uid == a[i].uid
    ensures LiveKeys(b, mb) == LiveKeys(a, mb)
  {
    if a != [] {
      LiveSame(a[..|a| - 1], b[..|b| - 1], mb);
    }
  }

  lemma LiveAfterMark(rows: seq<Row>, mb: string, id: string, now: nat)
    ensures LiveKeys(EditRows(rows, mb, id, Mark(now)), mb) == Without(LiveKeys(rows, mb), [id])
  {
    LiveAfterEdits(rows, EditRows(rows, mb, id, Mark(now)), mb, [id]);
  }

  /** Only that row changes, and it stays the same message. */
  predicate OnlyThatRow(a: seq<Row>, b: seq<Row>, mb: string, id: string) {
    && |b| == |a|
    && forall i :: 0 <= i < |a| ==>
         && (!Is(a[i], mb, id) ==> b[i] == a[i])
         && b[i].mailbox == a[i].mailbox && b[i].id == a[i].id && b[i].uid == a[i].uid && b[i].validity == a[i].validity
  }

  lemma EditTouchesOneRow(rows: seq<Row>, mb: string, id: string, e: Edit)
    ensures OnlyThatRow(rows, EditRows(rows, mb, id, e), mb, id)
  {
  }

  // ---------- the mirror ----------

  class MirrorStore {
    var rows: seq<Row>
    var meta: map<string, Meta>

    ghost function Contents(): Tables
      reads this
    {
      Tables(rows, meta)
    }

    constructor ()
      ensures Contents() == Tables([], map[])
    {
      rows, meta := [], map[];
    }

    /** Merges a change set in one transaction; `commits` says whether it succeeds. */
    method ApplyChanges(mb: string, ch: Changes, now: nat, commits: bool)
      modifies this
      ensures Contents() == if commits then ApplyTables(old(Contents()), mb, ch, now) else old(Contents())
    {
      var tx := rows;
      var validity := Stamp(Tables(rows, meta), mb, ch);
      assert tx == Merged(rows, mb, ch.deleted[..0], [], now, ch.state);
      for k := 0 to |ch.deleted|
        invariant rows == old(rows) && meta == old(meta)
        invariant tx == Merged(rows, mb, ch.deleted[..k], [], now, ch.state)
      {
        DeleteNext(rows, mb, ch.deleted[..k], ch.deleted[k], now, ch.state);
        assert ch.deleted[..k + 1] == ch.deleted[..k] + [ch.deleted[k]];
        tx := EditRows(tx, mb, ch.deleted[k], Delete(now, ch.state));
      }
      assert ch.deleted[..|ch.deleted|] == ch.deleted;
      assert tx == Batch(rows, mb, ch.deleted, ch.added[..0], [], validity, now, ch.state);
      for k := 0 to |ch.added|
        invariant rows == old(rows) && meta == old(meta)
        invariant tx == Batch(rows, mb, ch.deleted, ch.added[..k], [], validity, now, ch.state)
      {
        InsertNext(rows, mb, ch.deleted, ch.added[..k], [], ch.added[k], validity, now, ch.state);
        assert ch.added[..k + 1] == ch.added[..k] + [ch.added[k]];
        tx := InsertRow(tx, mb, ch.added[k], validity, ch.state);
      }
      assert ch.added[..|ch.added|] == ch.added + ch.updated[..0];
      for k := 0 to |ch.updated|
        invariant rows == old(rows) && meta == old(meta)
        invariant tx == Batch(rows, mb, ch.deleted, ch.added + ch.updated[..k], ch.updated[..k], validity, now,
                 ch.state)
      {
        UpdateNext(rows, mb, ch, k, validity, now, tx);
        tx := InsertRow(tx, mb, ch.updated[k], validity, ch.state);
        tx := EditRows(tx, mb, ch.updated[k], Touch(ch.state));
      }
      assert ch.updated[..|ch.updated|] == ch.updated;
      if commits {
        rows := tx;
        meta := NewMeta(meta, mb, ch, now);
      }
    }

    /** The message leaves its mailbox's live list, the others keep their order, and no
        other row, mailbox or UID changes. */
    method MarkExpunged(mb: string, id: string, now: nat)
      modifies this`rows
      ensures OnlyThatRow(old(rows), rows, mb, id)
      ensures LiveKeys(rows, mb) == Without(LiveKeys(old(rows), mb), [id])
      ensures forall other :: other != mb ==> LiveKeys(rows, other) == LiveKeys(old(rows), other)
      ensures forall i :: 0 <= i < |rows| && Is(rows[i], mb, id) ==> rows[i] == old(rows)[i].(expungedAt := Some(now))
    {
      LiveAfterMark(rows, mb, id, now);
      EditTouchesOneRow(rows, mb, id, Mark(now));
      forall other | other != mb ensures LiveKeys(EditRows(rows, mb, id, Mark(now)), other) == LiveKeys(rows, other) {
        LiveSame(rows, EditRows(rows, mb, id, Mark(now)), other);
      }
      rows := EditRows(rows, mb, id, Mark(now));
    }

    /** The message has these flags afterwards, every live list is as before, and no other
        row or UID changes. */
    method UpdateFlags(mb: string, id: string, flags: seq<string>)
      modifies this`rows
      ensures OnlyThatRow(old(rows), rows, mb, id)
      ensures forall other :: LiveKeys(rows, other) == LiveKeys(old(rows), other)
      ensures forall i :: 0 <= i < |rows| && Is(rows[i], mb, id) ==> rows[i] == old(rows)[i].(flags := flags)
    {
      EditTouchesOneRow(rows, mb, id, Flags(flags));
      forall other ensures LiveKeys(EditRows(rows, mb, id, Flags(flags)), other) == LiveKeys(rows, other) {
        LiveSame(rows, EditRows(rows, mb, id, Flags(flags)), other);
      }
      rows := EditRows(rows, mb, id, Flags(flags));
    }
  }
}
