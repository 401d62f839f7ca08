/** The bridge's log ring buffer and the heartbeat that ships it. */
module LogRing {
  import opened Text

  datatype Line = Line(seqNo: int, at: int, msg: string)

  // ---------- what a write captures ----------

  function TrimNewlines(p: string): string {
    if p != "" && p[|p| - 1] == '\n' then TrimNewlines(p[..|p| - 1]) else p
  }

  function NonEmpty(parts: seq<string>): seq<string> {
    if parts == [] then []
    else NonEmpty(parts[..|parts| - 1]) + if parts[|parts| - 1] == "" then [] else [parts[|parts| - 1]]
  }

  /** The non-empty lines of one write. */
  function LinesOf(p: string): seq<string> {
    NonEmpty(SplitChar(TrimNewlines(p), '\n'))
  }

  lemma {:induction false} SplitAppends(p: string, c: char)
    ensures SplitChar(p + [c], c) == SplitChar(p, c) + [""]
  {
    var s := p + [c];
    if p == "" {
      assert s[1..] == "";
    } else {
      SplitAppends(p[1..], c);
      assert s[1..] == p[1..] + [c];
    }
  }

  lemma NonEmptyAppend(parts: seq<string>, part: string)
    ensures NonEmpty(parts + [part]) == NonEmpty(parts) + if part == "" then [] else [part]
  {
    assert (parts + [part])[..|parts|] == parts;
  }

  /** Cutting the newlines off the end first makes no difference. */
  lemma {:induction false} TrimIsInvisible(p: string)
    ensures LinesOf(p) == NonEmpty(SplitChar(p, '\n'))
  {
    if p != "" && p[|p| - 1] == '\n' {
      var q := p[..|p| - 1];
      assert p == q + ['\n'];
      TrimIsInvisible(q);
      SplitAppends(q, '\n');
      NonEmptyAppend(SplitChar(q, '\n'), "");
    }
  }

  lemma {:induction false} SplitOfJoin(parts: seq<string>, c: char)
    requires parts != [] && forall i :: 0 <= i < |parts| ==> c !in parts[i]
    ensures SplitChar(Join(parts, [c]), c) == parts
  {
    if |parts| == 1 {
      SplitCharOfFree(parts[0], c);
    } else {
      SplitOfJoin(parts[1..], c);
      SplitCharAfter(parts[0], c, Join(parts[1..], [c]));
      assert parts == [parts[0]] + parts[1..];
    }
  }

  lemma {:induction false} NonEmptyOfFull(parts: seq<string>)
    requires forall i :: 0 <= i < |parts| ==> parts[i] != ""
    ensures NonEmpty(parts) == parts
  {
    if parts != [] {
      NonEmptyOfFull(parts[..|parts| - 1]);
    }
  }

  /** Lines written in one go, with any number of empty ones among them or at either end, are
      captured in order without the empty ones; and lines that are not empty come back as
      they were. */
  lemma JoinedLinesAreCaptured(parts: seq<string>)
    requires parts != [] && forall i :: 0 <= i < |parts| ==> '\n' !in parts[i]
    ensures LinesOf(Join(parts, "\n")) == NonEmpty(parts)
    ensures (forall i :: 0 <= i < |parts| ==> parts[i] != "") ==> LinesOf(Join(parts, "\n")) == parts
  {
    TrimIsInvisible(Join(parts, "\n"));
    SplitOfJoin(parts, '\n');
    if forall i :: 0 <= i < |parts| ==> parts[i] != "" {
      NonEmptyOfFull(parts);
    }
  }

  /** The lines numbered on from `from`. */
  function Numbered(msgs: seq<string>, from: int, at: int): (out: seq<Line>)
    ensures |out| == |msgs|
    ensures forall i :: 0 <= i < |msgs| ==> out[i] == Line(from + i, at, msgs[i])
  {
    seq(|msgs|, i requires 0 <= i < |msgs| => Line(from + i, at, msgs[i]))
  }

  // ---------- what a drain returns ----------

  /** How many of `n` lines a ring of this capacity holds. */
  function Fill(n: nat, capacity: nat): (k: nat)
    ensures k <= n && k <= capacity
  {
    if n < capacity then n else capacity
  }

  /** Index of the first line that is both still in a ring of this capacity and newer than
      `since`. */
  function FirstUnshipped(written: nat, capacity: nat, since: int): (lo: nat)
    ensures lo <= written
  {
    var oldest := written - Fill(written, capacity);
    if since <= oldest then oldest else if since < written then since else written
  }

  function Unshipped(written: seq<Line>, capacity: nat, since: int): seq<Line> {
    written[FirstUnshipped(|written|, capacity, since)..]
  }

  predicate Consecutive(written: seq<Line>) {
    forall i :: 0 <= i < |written| ==> written[i].seqNo == i + 1
  }

  /** A drain holds exactly those of the last `capacity` lines whose number is above
      `since`, each once and in order. */
  lemma UnshippedIs(written: seq<Line>, capacity: nat, since: int, i: nat)
    requires Consecutive(written) && i < |written|
    ensures
      var out := Unshipped(written, capacity, since);
      var isNew := written[i].seqNo > since && i >= |written| - capacity;
      && (written[i] in out <==> isNew)
      && (isNew ==> out[i - (|written| - |out|)] == written[i])
      && forall k :: 0 < k < |out| ==> out[k].seqNo == out[k - 1].seqNo + 1
  {
  }

  // ---------- arithmetic of a circular index ----------

  /** The slot of line `i` in a ring of `n` slots. */
  function Slot(i: nat, n: nat): (k: nat)
    requires n > 0
    ensures k < n
  {
    if i < n then i else Slot(i - n, n)
  }

  function Wrapped(x: nat, n: nat): nat
    requires x < 2 * n
  {
    if x < n then x else x - n
  }

  /** Every index in the ring is reduced this way. */
  method Reduce(x: nat, n: nat) returns (k: nat)
    requires x < 2 * n
    ensures k == Wrapped(x, n)
  {
    if x >= n {
      assert x == 1 * n + (x - n);
      assert x / n == 1;
    }
    return x % n;
  }

  /** Moving on by less than a whole turn wraps at most once. */
  lemma {:induction false} SlotPlus(i: nat, d: nat, n: nat)
    requires d <= n && n > 0
    ensures Slot(i + d, n) == Wrapped(Slot(i, n) + d, n)
  {
    if i >= n {
      SlotPlus(i - n, d, n);
    }
  }

  /** Two lines less than a capacity apart have different slots. */
  lemma SlotsDiffer(i: nat, j: nat, n: nat)
    requires 0 < n && i < j < i + n
    ensures Slot(i, n) != Slot(j, n)
  {
    SlotPlus(i, j - i, n);
  }

  /** The last `count` lines are in their slots. */
  predicate Mirrors(buf: seq<Line>, written: seq<Line>, count: nat)
    requires 0 < |buf| && count <= |written|
  {
    var i := |written| - count;
    count == 0 || (buf[Slot(i, |buf|)] == written[i] && Mirrors(buf, written, count - 1))
  }

  lemma {:induction false} MirrorsAt(buf: seq<Line>, written: seq<Line>, count: nat, i: nat)
    requires 0 < |buf| && count <= |written| && Mirrors(buf, written, count) && |written| - count <= i < |written|
    ensures buf[Slot(i, |buf|)] == written[i]
  {
    if i > |written| - count {
      MirrorsAt(buf, written, count - 1, i);
    }
  }

  /** One more line overwrites only the line a whole turn older. */
  lemma {:induction false} MirrorsMore(buf: seq<Line>, written: seq<Line>, count: nat, l: Line)
    requires 0 < |buf| && count <= |written| && Mirrors(buf, written, count) && count < |buf|
    ensures Mirrors(buf[Slot(|written|, |buf|) := l], written + [l], count + 1)
  {
    if count > 0 {
      SlotsDiffer(|written| - count, |written|, |buf|);
      MirrorsMore(buf, written, count - 1, l);
    }
  }

  lemma AppendMirrors(buf: seq<Line>, written: seq<Line>, l: Line)
    requires 0 < |buf| && Mirrors(buf, written, Fill(|written|, |buf|))
    ensures Mirrors(buf[Slot(|written|, |buf|) := l], written + [l], Fill(|written| + 1, |buf|))
  {
    if |written| < |buf| {
      MirrorsMore(buf, written, |written|, l);
    } else {
      MirrorsFewer(buf, written, |buf|);
      MirrorsMore(buf, written, |buf| - 1, l);
    }
  }

  lemma MirrorsFewer(buf: seq<Line>, written: seq<Line>, count: nat)
    requires 0 < |buf| && 0 < count <= |written| && Mirrors(buf, written, count)
    ensures Mirrors(buf, written, count - 1)
  {
  }

  lemma OldestSlot(written: nat, count: nat, n: nat)
    requires 0 < n && count <= n && count <= written
    ensures Slot(written - count, n) == Wrapped(Slot(written, n) - count + n, n)
  {
    SlotPlus(written - count, count, n);
  }

  /** The lines numbered above `since` among those from index `from` up to `to`. */
  function Newer(written: seq<Line>, since: int, from: nat, to: nat): seq<Line>
    requires from <= to <= |written|
  {
    if from == to then []
    else Newer(written, since, from, to - 1) + if written[to - 1].seqNo > since then [written[to - 1]] else []
  }

  lemma NewerMore(written: seq<Line>, since: int, from: nat, to: nat)
    requires from <= to < |written|
    ensures Newer(written, since, from, to + 1) ==
            Newer(written, since, from, to) + (if written[to].seqNo > since then [written[to]] else [])
    ensures Newer(written, since, from, to) + [] == Newer(written, since, from, to)
  {
  }

  lemma {:induction false} NewerIsSlice(written: seq<Line>, since: int, from: nat, to: nat, lo: nat)
    requires Consecutive(written) && from <= lo <= to <= |written|
    requires lo == if since <= from then from else if since < to then since else to
    ensures Newer(written, since, from, to) == written[lo..to]
  {
    if from < to {
      if since < to {
        NewerIsSlice(written, since, from, to - 1, lo);
        assert written[lo..to] == written[lo..to - 1] + [written[to - 1]];
      } else {
        NewerIsSlice(written, since, from, to - 1, to - 1);
      }
    }
  }

  /** Picking the newer lines one by one gives the drain. */
  lemma NewerIsUnshipped(written: seq<Line>, capacity: nat, since: int)
    requires Consecutive(written)
    ensures Newer(written, since, |written| - Fill(|written|, capacity), |written|) ==
            Unshipped(written, capacity, since)
    ensures Unshipped(written, capacity, since) == [] <==> Fill(|written|, capacity) == 0 || since >= |written|
  {
    var oldest := |written| - Fill(|written|, capacity);
    NewerIsSlice(written, since, oldest, |written|, FirstUnshipped(|written|, capacity, since));
  }

  /** One more part of a write, numbered if it is not empty. */
  lemma NumberedMore(parts: seq<string>, i: nat, from: int, at: int)
    requires i < |parts|
    ensures
      var msgs := NonEmpty(parts[..i]);
      Numbered(NonEmpty(parts[..i + 1]), from, at) ==
        Numbered(msgs, from, at) + if parts[i] == "" then [] else [Line(from + |msgs|, at, parts[i])]
  {
    assert parts[..i + 1][..i] == parts[..i];
  }

  class Ring {
    const capacity: nat
    const buf: array<Line>
    var head: nat
    var count: nat
    var nextSeq: int
    /** Every line ever written. */
    ghost var written: seq<Line>

    ghost predicate Valid()
      reads this, buf
    {
      && 0 < capacity == buf.Length
      && Consecutive(written) && nextSeq == |written| + 1
      && head == Slot(|written|, capacity)
      && count == Fill(|written|, capacity)
      && Mirrors(buf[..], written, count)
    }

    constructor (size: int)
      ensures Valid() && fresh(buf) && written == [] && capacity == if size <= 0 then 10000 else size
    {
      capacity := if size <= 0 then 10000 else size;
      buf := new Line[if size <= 0 then 10000 else size](_ => Line(0, 0, ""));
      head, count, nextSeq := 0, 0, 1;
      written := [];
    }

    /** Stores one line, over the oldest if the ring is full. */
    method Append(l: Line)
      requires Valid() && l.seqNo == nextSeq
      modifies this, buf
      ensures Valid() && written == old(written) + [l]
    {
      AppendMirrors(buf[..], written, l);
      SlotPlus(|written|, 1, capacity);
      ghost var was := buf[..];
      buf[head] := l;
      assert buf[..] == was[head := l];
      head := Reduce(head + 1, capacity);
      if count < capacity {
        count := count + 1;
      }
      nextSeq := nextSeq + 1;
      written := written + [l];
    }

    /** Captures the lines of one write. */
    method Write(p: string, now: int)
      requires Valid()
      modifies this, buf
      ensures Valid() && written == old(written) + Numbered(LinesOf(p), old(nextSeq), now)
    {
      var parts := SplitChar(TrimNewlines(p), '\n');
      ghost var before, first := written, nextSeq;
      for i := 0 to |parts|
        invariant Valid() && written == before + Numbered(NonEmpty(parts[..i]), first, now)
      {
        NumberedMore(parts, i, first, now);
        if parts[i] == "" {
          continue;
        }
        Associative(before, Numbered(NonEmpty(parts[..i]), first, now), [Line(nextSeq, now, parts[i])]);
        Append(Line(nextSeq, now, parts[i]));
      }
      assert parts[..|parts|] == parts;
    }

    /** The `i`-th oldest line in the ring. */
    method Nth(i: nat) returns (l: Line)
      requires Valid() && i < count
      ensures l == written[|written| - count + i]
    {
      var start := Reduce(head - count + capacity, capacity);
      OldestSlot(|written|, count, capacity);
      SlotPlus(|written| - count, i, capacity);
      var idx := Reduce(start + i, capacity);
      l := buf[idx];
      MirrorsAt(buf[..], written, count, |written| - count + i);
    }

    /** Every line newer than `since` that has not been overwritten. */
    method Drain(since: int) returns (lines: seq<Line>, highWater: int)
      requires Valid()
      ensures lines == Unshipped(written, capacity, since)
      ensures highWater == if lines == [] then since else |written|
    {
      highWater := since;
      lines := [];
      ghost var oldest := |written| - count;
      for i := 0 to count
        invariant lines == Newer(written, since, oldest, oldest + i)
        invariant highWater == if i > 0 && oldest + i > since then oldest + i else since
      {
        var l := Nth(i);
        NewerMore(written, since, oldest, oldest + i);
        assert l.seqNo == oldest + i + 1;
        if l.seqNo > since {
          lines := lines + [l];
          if l.seqNo > highWater {
            highWater := l.seqNo;
          }
        }
      }
      NewerIsUnshipped(written, capacity, since);
    }

    method HighWater() returns (hw: int)
      requires Valid()
      ensures hw == |written|
    {
      if nextSeq <= 1 {
        return 0;
      }
      return nextSeq - 1;
    }
  }
}
