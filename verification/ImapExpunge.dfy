/** IMAP EXPUNGE: sequence numbers sent while the list they refer to is shrinking
    (section 7.5.1 of RFC 9051). */
module ImapExpunge {
  import opened Text
  import opened Mirror
  import opened MirrorHistory

  /** What happens to one message on its way out: the control plane refuses the delete, the
      mirror write fails, the response cannot be written, or all goes well. */
  datatype Fate = Removed | DeleteFails | MarkFails | WriteFails

  datatype Status = Completed | NotSelected | Aborted

  const UID_RANGE := 0x1_0000_0000

  function LiveRows(rows: seq<Row>, mb: string): seq<Row> {
    if rows == [] then []
    else
      var r := rows[|rows| - 1];
      LiveRows(rows[..|rows| - 1], mb) + if Live(r, mb) then [r] else []
  }

  predicate HasFlag(flags: seq<string>, want: string) {
    flags != [] && (Lower(flags[0]) == Lower(want) || HasFlag(flags[1..], want))
  }

  /** The message is marked \Deleted and inside the UID set, if one was given. */
  predicate Chosen(r: Row, uids: Option<set<int>>) {
    (uids.Some? ==> r.uid % UID_RANGE in uids.value) && HasFlag(r.flags, "\\Deleted")
  }

  /** What the walk does with one message of the live list. */
  datatype Turn = Pass | Take | MarkFault | WriteFault

  function TurnOf(r: Row, uids: Option<set<int>>, fate: string -> Fate): Turn {
    if !Chosen(r, uids) then Pass
    else match fate(r.id)
      case DeleteFails => Pass
      case MarkFails => MarkFault
      case WriteFails => WriteFault
      case Removed => Take
  }

  function Turns(states: seq<Row>, uids: Option<set<int>>, fate: string -> Fate): (turns: seq<Turn>)
    ensures |turns| == |states|
    ensures forall i :: 0 <= i < |states| ==> turns[i] == TurnOf(states[i], uids, fate)
  {
    seq(|states|, i requires 0 <= i < |states| => TurnOf(states[i], uids, fate))
  }

  predicate Leaves(t: Turn) {
    t.Take? || t.WriteFault?
  }

  /** The messages among the first `n` that leave the mailbox. */
  function Victims(list: seq<Key>, turns: seq<Turn>, n: nat): seq<string>
    requires n <= |list| == |turns|
  {
    if n == 0 then []
    else Victims(list, turns, n - 1) + if Leaves(turns[n - 1]) then [list[n - 1].id] else []
  }

  /** The mirror after these messages were marked, in order. */
  function MarkAll(rows: seq<Row>, mb: string, ids: seq<string>, now: nat): seq<Row> {
    if ids == [] then rows
    else EditRows(MarkAll(rows, mb, ids[..|ids| - 1], now), mb, ids[|ids| - 1], Mark(now))
  }

  // ---------- the client ----------

  /** `* n EXPUNGE`: message `n` is gone and every later one moves down by one. */
  function RemoveAt(list: seq<Key>, n: nat): seq<Key> {
    if 1 <= n <= |list| then list[..n - 1] + list[n..] else list
  }

  function Replay(list: seq<Key>, numbers: seq<nat>): seq<Key> {
    if numbers == [] then list
    else RemoveAt(Replay(list, numbers[..|numbers| - 1]), numbers[|numbers| - 1])
  }

  predicate DistinctIds(keys: seq<Key>) {
    forall i, j :: 0 <= i < j < |keys| ==> keys[i].id != keys[j].id
  }

  /** The last response names the message it is about, and after it the client's list is
      the mirror's live list without the messages marked so far. */
  predicate RightNumber(list: seq<Key>, numbers: seq<nat>, gone: seq<string>)
    requires |numbers| == |gone| > 0
  {
    var n := numbers[|numbers| - 1];
    var view := Replay(list, numbers[..|numbers| - 1]);
    1 <= n <= |view| && view[n - 1].id == gone[|gone| - 1] && RemoveAt(view, n) == Without(list, gone)
  }

  /** So it is for every response, in the order in which they were sent. */
  predicate Faithful(list: seq<Key>, numbers: seq<nat>, gone: seq<string>) {
    && |numbers| == |gone|
    && (numbers != [] ==>
          Faithful(list, numbers[..|numbers| - 1], gone[..|gone| - 1]) && RightNumber(list, numbers, gone))
  }

  // ---------- where a message stands ----------

  lemma {:induction false} WithoutNone(keys: seq<Key>, ids: seq<string>)
    requires forall i :: 0 <= i < |keys| ==> keys[i].id !in ids
    ensures Without(keys, ids) == keys
  {
    if keys != [] {
      WithoutNone(keys[..|keys| - 1], ids);
    }
  }

  lemma {:induction false} WithoutConcat(a: seq<Key>, b: seq<Key>, ids: seq<string>)
    ensures Without(a + b, ids) == Without(a, ids) + Without(b, ids)
  {
    if b == [] {
      assert a + b == a;
    } else {
      WithoutConcat(a, b[..|b| - 1], ids);
      assert (a + b)[..|a + b| - 1] == a + b[..|b| - 1];
    }
  }

  lemma {:induction false} WithoutTwice(keys: seq<Key>, ids: seq<string>, id: string)
    ensures Without(Without(keys, ids), [id]) == Without(keys, ids + [id])
  {
    if keys != [] {
      var front := keys[..|keys| - 1];
      var k := keys[|keys| - 1];
      WithoutTwice(front, ids, id);
      WithoutConcat(Without(front, ids), if k.id in ids then [] else [k], [id]);
    }
  }

  /** Those of the first `i` messages that stay. */
  function Stay(list: seq<Key>, turns: seq<Turn>, i: nat): seq<Key>
    requires i <= |list| == |turns|
  {
    if i == 0 then [] else Stay(list, turns, i - 1) + if Leaves(turns[i - 1]) then [] else [list[i - 1]]
  }

  lemma {:induction false} VictimsAre(list: seq<Key>, turns: seq<Turn>, i: nat, k: nat)
    requires i <= |list| == |turns| && k < |list| && DistinctIds(list)
    ensures list[k].id in Victims(list, turns, i) <==> k < i && Leaves(turns[k])
  {
    if i > 0 {
      VictimsAre(list, turns, i - 1, k);
    }
  }

  lemma {:induction false} StayIsWithout(list: seq<Key>, turns: seq<Turn>, i: nat, k: nat)
    requires k <= i <= |list| == |turns| && DistinctIds(list)
    ensures Without(list[..k], Victims(list, turns, i)) == Stay(list, turns, k)
  {
    if k > 0 {
      StayIsWithout(list, turns, i, k - 1);
      VictimsAre(list, turns, i, k - 1);
      assert list[..k][..k - 1] == list[..k - 1];
    }
  }

  lemma RestStays(list: seq<Key>, turns: seq<Turn>, i: nat)
    requires i <= |list| == |turns| && DistinctIds(list)
    ensures Without(list[i..], Victims(list, turns, i)) == list[i..]
  {
    var rest, gone := list[i..], Victims(list, turns, i);
    forall k | 0 <= k < |rest| ensures rest[k].id !in gone {
      VictimsAre(list, turns, i, i + k);
    }
    WithoutNone(rest, gone);
  }

  lemma SplitList(list: seq<Key>, i: nat)
    requires i <= |list|
    ensures list == list[..i] + list[i..]
    ensures i > 0 ==> list[i - 1..] == [list[i - 1]] + list[i..]
  {
  }

  /** After `i` messages, the mirror's live list is those that stay and the rest. */
  lemma ViewIsWithout(list: seq<Key>, turns: seq<Turn>, i: nat)
    requires i <= |list| == |turns| && DistinctIds(list)
    ensures Without(list, Victims(list, turns, i)) == Stay(list, turns, i) + list[i..]
  {
    var gone := Victims(list, turns, i);
    SplitList(list, i);
    RestStays(list, turns, i);
    StayIsWithout(list, turns, i, i);
    WithoutConcat(list[..i], list[i..], gone);
  }

  lemma RemoveMiddle(head: seq<Key>, k: Key, tail: seq<Key>)
    ensures (head + ([k] + tail))[|head|] == k
    ensures RemoveAt(head + ([k] + tail), |head| + 1) == head + tail
  {
  }

  lemma InStep(list: seq<Key>, numbers: seq<nat>, gone: seq<string>)
    requires Faithful(list, numbers, gone)
    ensures Replay(list, numbers) == Without(list, gone)
  {
    if numbers == [] {
      WithoutNone(list, []);
    }
  }

  // ---------- the list read from the mirror ----------

  lemma {:induction false} LiveRowsMatchKeys(rows: seq<Row>, mb: string)
    ensures |LiveRows(rows, mb)| == |LiveKeys(rows, mb)|
    ensures forall i :: 0 <= i < |LiveRows(rows, mb)| ==>
            LiveKeys(rows, mb)[i] == Key(LiveRows(rows, mb)[i].id, LiveRows(rows, mb)[i].uid)
  {
    if rows != [] {
      LiveRowsMatchKeys(rows[..|rows| - 1], mb);
    }
  }

  lemma LiveIdsAreDistinct(rows: seq<Row>, mb: string)
    requires TableOk(rows)
    ensures DistinctIds(LiveKeys(rows, mb))
  {
    forall i, j | 0 <= i < j < |LiveKeys(rows, mb)| ensures LiveKeys(rows, mb)[i].id != LiveKeys(rows, mb)[j].id {
      LiveInUidOrder(rows, mb, i, j);
    }
  }

  lemma {:induction false} LiveAfterMarks(rows: seq<Row>, mb: string, ids: seq<string>, now: nat)
    ensures LiveKeys(MarkAll(rows, mb, ids, now), mb) == Without(LiveKeys(rows, mb), ids)
  {
    if ids == [] {
      WithoutNone(LiveKeys(rows, mb), []);
    } else {
      var front := ids[..|ids| - 1];
      LiveAfterMarks(rows, mb, front, now);
      LiveAfterMark(MarkAll(rows, mb, front, now), mb, ids[|ids| - 1], now);
      WithoutTwice(LiveKeys(rows, mb), front, ids[|ids| - 1]);
      assert front + [ids[|ids| - 1]] == ids;
    }
  }

  // ---------- the command ----------

  /** The walk over the live list has passed `i` messages without a fault. */
  predicate Walked(list: seq<Key>, turns: seq<Turn>, numbers: seq<nat>, gone: seq<string>, i: nat) {
    && i <= |list| == |turns| && |numbers| == |gone|
    && if i == 0 then gone == []
       else if turns[i - 1].Pass? then Walked(list, turns, numbers, gone, i - 1)
       else
         && turns[i - 1].Take? && gone != []
         && gone[|gone| - 1] == list[i - 1].id && numbers[|gone| - 1] == i + 1 - |gone|
         && Walked(list, turns, numbers[..|gone| - 1], gone[..|gone| - 1], i - 1)
  }

  lemma {:induction false} WalkedCounts(list: seq<Key>, turns: seq<Turn>, numbers: seq<nat>, gone: seq<string>, i: nat)
    requires Walked(list, turns, numbers, gone, i)
    ensures gone == Victims(list, turns, i) && |Stay(list, turns, i)| + |gone| == i
    decreases i
  {
    if i > 0 {
      if turns[i - 1].Pass? {
        WalkedCounts(list, turns, numbers, gone, i - 1);
      } else {
        var n := |gone| - 1;
        WalkedCounts(list, turns, numbers[..n], gone[..n], i - 1);
        assert gone == gone[..n] + [gone[n]];
      }
    }
  }

  /** The client's view after the responses to the first `i` messages. */
  lemma {:induction false} WalkedView(list: seq<Key>, turns: seq<Turn>, numbers: seq<nat>, gone: seq<string>, i: nat)
    requires Walked(list, turns, numbers, gone, i)
    ensures Replay(list, numbers) == Stay(list, turns, i) + list[i..]
    decreases i
  {
    if i > 0 {
      SplitList(list, i);
      if turns[i - 1].Pass? {
        WalkedView(list, turns, numbers, gone, i - 1);
        Associative(Stay(list, turns, i - 1), [list[i - 1]], list[i..]);
      } else {
        WalkedView(list, turns, numbers[..|gone| - 1], gone[..|gone| - 1], i - 1);
        ViewAfterTake(list, turns, numbers, gone, i);
      }
    }
  }

  lemma ViewAfterTake(list: seq<Key>, turns: seq<Turn>, numbers: seq<nat>, gone: seq<string>, i: nat)
    requires Walked(list, turns, numbers, gone, i) && i > 0 && turns[i - 1].Take?
    requires Replay(list, numbers[..|gone| - 1]) == Stay(list, turns, i - 1) + ([list[i - 1]] + list[i..])
    ensures Replay(list, numbers) == Stay(list, turns, i) + list[i..]
  {
    WalkedCounts(list, turns, numbers[..|gone| - 1], gone[..|gone| - 1], i - 1);
    RemoveMiddle(Stay(list, turns, i - 1), list[i - 1], list[i..]);
    StayWhenTaken(list, turns, i);
  }

  lemma {:induction false} WalkedIsFaithful(
    list: seq<Key>, turns: seq<Turn>, numbers: seq<nat>, gone: seq<string>, i: nat)
    requires Walked(list, turns, numbers, gone, i) && DistinctIds(list)
    ensures Faithful(list, numbers, gone)
    decreases i
  {
    if i > 0 {
      if turns[i - 1].Pass? {
        WalkedIsFaithful(list, turns, numbers, gone, i - 1);
      } else {
        var n := |gone| - 1;
        WalkedIsFaithful(list, turns, numbers[..n], gone[..n], i - 1);
        LastIsRight(list, turns, numbers, gone, i);
      }
    }
  }

  lemma LastIsRight(list: seq<Key>, turns: seq<Turn>, numbers: seq<nat>, gone: seq<string>, i: nat)
    requires Walked(list, turns, numbers, gone, i) && DistinctIds(list) && i > 0 && turns[i - 1].Take?
    ensures RightNumber(list, numbers, gone)
  {
    var n := |gone| - 1;
    var head := Stay(list, turns, i - 1);
    SplitList(list, i);
    RemoveMiddle(head, list[i - 1], list[i..]);
    assert Replay(list, numbers[..n]) == head + ([list[i - 1]] + list[i..]) by {
      WalkedView(list, turns, numbers[..n], gone[..n], i - 1);
    }
    assert |head| + 1 == numbers[n] by {
      WalkedCounts(list, turns, numbers[..n], gone[..n], i - 1);
    }
    assert Without(list, gone) == head + list[i..] by {
      WalkedCounts(list, turns, numbers, gone, i);
      ViewIsWithout(list, turns, i);
      StayWhenTaken(list, turns, i);
    }
  }

  lemma StayWhenTaken(list: seq<Key>, turns: seq<Turn>, i: nat)
    requires 0 < i <= |list| == |turns| && Leaves(turns[i - 1])
    ensures Stay(list, turns, i) == Stay(list, turns, i - 1)
  {
  }

  lemma WalkTakes(list: seq<Key>, turns: seq<Turn>, numbers: seq<nat>, gone: seq<string>, i: nat, n: nat)
    requires Walked(list, turns, numbers, gone, i) && i < |list| && n + |gone| == i + 1 && turns[i].Take?
    ensures Walked(list, turns, numbers + [n], gone + [list[i].id], i + 1)
  {
    assert (numbers + [n])[..|gone|] == numbers && (gone + [list[i].id])[..|gone|] == gone;
  }

  lemma MarkOneMore(rows: seq<Row>, mb: string, gone: seq<string>, id: string, now: nat)
    ensures MarkAll(rows, mb, gone + [id], now) == EditRows(MarkAll(rows, mb, gone, now), mb, id, Mark(now))
  {
    assert (gone + [id])[..|gone|] == gone;
  }

  /** What the three ways to end mean. `gone` are the messages marked in the mirror: all
      those due up to `stopped`, where a failed mirror write sends nothing and a failed
      response leaves the client one message behind. */
  predicate EndsAs(list: seq<Key>, turns: seq<Turn>, status: Status, numbers: seq<nat>, gone: seq<string>, stopped: nat)
    requires |list| == |turns|
  {
    match status
    case NotSelected => numbers == [] && gone == []
    case Completed => gone == Victims(list, turns, |list|) && |numbers| == |gone|
    case Aborted =>
      && stopped < |list| && gone == Victims(list, turns, stopped + 1)
      && (turns[stopped].MarkFault? || turns[stopped].WriteFault?)
      && |gone| == |numbers| + if turns[stopped].WriteFault? then 1 else 0
  }

  /** How the walk can end at `i`: at the end of the list, at a failed mirror write, or at a
      failed response, whose message is `unsent`. */
  predicate StopsAt(list: seq<Key>, turns: seq<Turn>, status: Status, unsent: seq<string>, i: nat) {
    && i <= |list| == |turns|
    && if i == |list| then status.Completed? && unsent == []
       else if turns[i].WriteFault? then status.Aborted? && unsent == [list[i].id]
       else status.Aborted? && turns[i].MarkFault? && unsent == []
  }

  lemma WalkEnds(
    list: seq<Key>, turns: seq<Turn>, status: Status, numbers: seq<nat>, told: seq<string>, unsent: seq<string>,
    i: nat)
    requires Walked(list, turns, numbers, told, i) && DistinctIds(list) && StopsAt(list, turns, status, unsent, i)
    ensures |numbers| == |told| && (told + unsent)[..|numbers|] == told && (unsent == [] ==> told + unsent == told)
    ensures Faithful(list, numbers, told) && EndsAs(list, turns, status, numbers, told + unsent, i)
  {
    WalkedCounts(list, turns, numbers, told, i);
    WalkedIsFaithful(list, turns, numbers, told, i);
  }

  /** The number to send for message `i` is a natural number. */
  lemma WalkedAtMost(list: seq<Key>, turns: seq<Turn>, numbers: seq<nat>, gone: seq<string>, i: nat)
    requires Walked(list, turns, numbers, gone, i)
    ensures |gone| <= i
  {
    WalkedCounts(list, turns, numbers, gone, i);
  }

  /** The mirror write for one more message. */
  method MarkNext(m: MirrorStore, mb: string, id: string, now: nat, ghost before: seq<Row>, ghost told: seq<string>)
    requires m.rows == MarkAll(before, mb, told, now)
    modifies m`rows
    ensures m.rows == MarkAll(before, mb, told + [id], now)
  {
    ghost var marked := EditRows(m.rows, mb, id, Mark(now));
    m.MarkExpunged(mb, id, now);
    assert m.rows == marked;
    MarkOneMore(before, mb, told, id, now);
  }

  /** EXPUNGE of the selected mailbox. The client's list, replayed response by response, is
      the mirror's live list each time, also when the walk is aborted. */
  method Expunge(m: MirrorStore, mb: string, selected: bool, uids: Option<set<int>>, fate: string -> Fate, now: nat)
    returns (status: Status, numbers: seq<nat>, gone: seq<string>, stopped: nat)
    requires TableOk(m.rows)
    modifies m`rows
    ensures status.NotSelected? <==> !selected
    ensures
      var list := LiveKeys(old(m.rows), mb);
      var turns := Turns(LiveRows(old(m.rows), mb), uids, fate);
      && |list| == |turns| && EndsAs(list, turns, status, numbers, gone, stopped)
      && |numbers| <= |gone| && Faithful(list, numbers, gone[..|numbers|])
    ensures m.rows == MarkAll(old(m.rows), mb, gone, now)
  {
    ghost var before, list := m.rows, LiveKeys(m.rows, mb);
    LiveRowsMatchKeys(m.rows, mb);
    var states := LiveRows(m.rows, mb);
    if !selected {
      return NotSelected, [], [], 0;
    }
    ghost var turns := Turns(states, uids, fate);
    var told, unsent := [], [];
    var expungedSoFar := 0;
    status, stopped, numbers := Completed, |states|, [];
    for i := 0 to |states|
      invariant expungedSoFar == |told| == |numbers| && unsent == [] && status.Completed? && stopped == |states|
      invariant Walked(list, turns, numbers, told, i)
      invariant m.rows == MarkAll(before, mb, told, now)
    {
      var st := states[i];
      var turn := TurnOf(st, uids, fate);
      if turn.Pass? {
        continue;
      }
      if turn.MarkFault? {
        status, stopped := Aborted, i;
        break;
      }
      MarkNext(m, mb, st.id, now, before, told);
      WalkedAtMost(list, turns, numbers, told, i);
      var seqNum: nat := i + 1 - expungedSoFar;
      expungedSoFar := expungedSoFar + 1;
      if turn.WriteFault? {
        unsent, status, stopped := [st.id], Aborted, i;
        break;
      }
      WalkTakes(list, turns, numbers, told, i, seqNum);
      told, numbers := told + [st.id], numbers + [seqNum];
    }
    LiveIdsAreDistinct(before, mb);
    gone := told + unsent;
    WalkEnds(list, turns, status, numbers, told, unsent, stopped);
  }

  // ---------- which messages go ----------

  lemma {:induction false} HasFlagIff(flags: seq<string>, want: string)
    ensures HasFlag(flags, want) <==> exists i :: 0 <= i < |flags| && Lower(flags[i]) == Lower(want)
  {
    if flags != [] {
      HasFlagIff(flags[1..], want);
      if HasFlag(flags[1..], want) {
        var i :| 0 <= i < |flags[1..]| && Lower(flags[1..][i]) == Lower(want);
        assert flags[i + 1] == flags[1..][i];
      }
      if i :| 0 <= i < |flags| && Lower(flags[i]) == Lower(want) {
        assert i > 0 ==> flags[1..][i - 1] == flags[i];
      }
    }
  }

  /** Some flag of the message is \Deleted, in any case. */
  predicate IsDeleted(r: Row) {
    exists i :: 0 <= i < |r.flags| && Lower(r.flags[i]) == Lower("\\Deleted")
  }

  predicate InSet(r: Row, uids: Option<set<int>>) {
    match uids
    case None => true
    case Some(set_) => r.uid % 0x1_0000_0000 in set_
  }

  lemma TurnIs(r: Row, uids: Option<set<int>>, fate: string -> Fate)
    ensures Leaves(TurnOf(r, uids, fate)) <==>
            IsDeleted(r) && InSet(r, uids) && (fate(r.id).Removed? || fate(r.id).WriteFails?)
    ensures TurnOf(r, uids, fate).MarkFault? <==> IsDeleted(r) && InSet(r, uids) && fate(r.id).MarkFails?
    ensures TurnOf(r, uids, fate).WriteFault? <==> IsDeleted(r) && InSet(r, uids) && fate(r.id).WriteFails?
  {
    HasFlagIff(r.flags, "\\Deleted");
  }

  /** Which messages leave, in terms of the mailbox: of the live messages up to where the
      command stopped, exactly those that are marked \Deleted, are in the UID set and were
      deleted upstream. A completed command got to the end; an aborted one stopped at a
      message due to leave whose mirror write or response failed. */
  lemma GoneAre(
    rows: seq<Row>, mb: string, uids: Option<set<int>>, fate: string -> Fate, status: Status, numbers: seq<nat>,
    gone: seq<string>, stopped: nat, k: nat)
    requires TableOk(rows) && k < |LiveRows(rows, mb)| && !status.NotSelected?
    requires
      var list, turns := LiveKeys(rows, mb), Turns(LiveRows(rows, mb), uids, fate);
      |list| == |turns| && EndsAs(list, turns, status, numbers, gone, stopped)
    ensures
      var live := LiveRows(rows, mb);
      && (live[k].id in gone <==>
            && IsDeleted(live[k]) && InSet(live[k], uids) && (status.Aborted? ==> k <= stopped)
            && (fate(live[k].id).Removed? || fate(live[k].id).WriteFails?))
      && (status.Aborted? ==>
            && stopped < |live| && IsDeleted(live[stopped]) && InSet(live[stopped], uids)
            && (fate(live[stopped].id).MarkFails? || fate(live[stopped].id).WriteFails?))
  {
    var live := LiveRows(rows, mb);
    var list, turns := LiveKeys(rows, mb), Turns(live, uids, fate);
    LiveRowsMatchKeys(rows, mb);
    LiveIdsAreDistinct(rows, mb);
    VictimsAre(list, turns, if status.Aborted? then stopped + 1 else |list|, k);
    TurnIs(live[k], uids, fate);
    if status.Aborted? {
      TurnIs(live[stopped], uids, fate);
    }
  }

  /** With every response written, the client ends with the mirror's live list. */
  lemma ClientEndsInStep(rows: seq<Row>, mb: string, numbers: seq<nat>, gone: seq<string>, now: nat)
    requires Faithful(LiveKeys(rows, mb), numbers, gone)
    ensures Replay(LiveKeys(rows, mb), numbers) == LiveKeys(MarkAll(rows, mb, gone, now), mb)
  {
    InStep(LiveKeys(rows, mb), numbers, gone);
    LiveAfterMarks(rows, mb, gone, now);
  }
}
