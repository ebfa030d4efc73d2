// The reassembler's bookkeeping as pure functions: the pending ranges kept
// in an ordered map from start index to bytes (here a sequence ordered by
// start), and what one `insert` does to them: clip to the acceptance
// window, merge with overlapping neighbours, drain the contiguous front.
module PendingRanges {
  import opened Common

  /** A pending byte range: `data` belongs at stream index `start`. */
  datatype Segment = Segment(start: nat, data: seq<byte>) {
    /** One past the last index the range covers. */
    function End(): nat { start + |data| }
  }

  /** Ranges in increasing order that do not overlap (they may touch). */
  ghost predicate Ordered(segs: seq<Segment>)
  {
    forall i, j :: 0 <= i < j < |segs| ==> segs[i].End() <= segs[j].start
  }

  /** The shape of the stored ranges: ordered, non-empty, inside [lo, hi). */
  ghost predicate Stored(segs: seq<Segment>, lo: nat, hi: nat)
  {
    && Ordered(segs)
    && forall i :: 0 <= i < |segs| ==> segs[i].data != [] && lo <= segs[i].start && segs[i].End() <= hi
  }

  /** A range carries the bytes `whole` has at its indices. */
  ghost predicate Agrees(s: Segment, whole: seq<byte>)
  {
    s.End() <= |whole| && s.data == whole[s.start..s.End()]
  }

  ghost predicate AllAgree(segs: seq<Segment>, whole: seq<byte>)
  {
    forall i :: 0 <= i < |segs| ==> Agrees(segs[i], whole)
  }

  /** Some range of `segs` contains all of `s`. */
  ghost predicate Inside(s: Segment, segs: seq<Segment>)
    decreases |segs|
  {
    segs != [] && ((segs[0].start <= s.start && s.End() <= segs[0].End()) || Inside(s, segs[1..]))
  }

  /** Some range of `segs` holds stream index `k`. */
  ghost predicate Pending(segs: seq<Segment>, k: nat)
    decreases |segs|
  {
    segs != [] && (segs[0].start <= k < segs[0].End() || Pending(segs[1..], k))
  }

  /**
   * Stream index `k` is accounted for: already pushed into the output
   * (below the front index `left`) or held in one of the pending ranges.
   */
  ghost predicate Retained(segs: seq<Segment>, left: nat, k: nat)
  {
    k < left || Pending(segs, k)
  }

  /** Every index from `lo` up to `hi` is retained. */
  ghost predicate RangeRetained(segs: seq<Segment>, left: nat, lo: nat, hi: nat)
  {
    forall k: nat :: lo <= k < hi ==> Retained(segs, left, k)
  }

  /** Every index retained by the first ranges and front index is retained by the second. */
  ghost predicate KeepsRetained(segs: seq<Segment>, left: nat, segs': seq<Segment>, left': nat)
  {
    forall k: nat :: Retained(segs, left, k) ==> Retained(segs', left', k)
  }

  /** The number of bytes held by the ranges. */
  function TotalLength(segs: seq<Segment>): nat
  {
    if segs == [] then 0 else |segs[0].data| + TotalLength(segs[1..])
  }

  // -----------------------------------------------------------------------
  // Clipping to the acceptance window

  /**
   * The part of `data` (placed at `first`) inside the acceptance window
   * [left, left + room), tested in the order the source tests it: starts at
   * or beyond the window end; lies wholly before `left`; trim the front;
   * trim the back; nothing left.
   */
  function Clip(left: nat, room: nat, first: nat, data: seq<byte>): (r: Option<Segment>)
    ensures r.Some? <==> Max(first, left) < Min(first + |data|, left + room)
    ensures r.Some? ==>
      && r.value.start == Max(first, left)
      && r.value.End() == Min(first + |data|, left + room)
      && r.value.data == data[r.value.start - first..r.value.End() - first]
  {
    var windowEnd := left + room;
    if first >= windowEnd then None
    else if first < left && first + |data| <= left then None
    else
      var start := if first < left then left else first;
      var front := if first < left then data[left - first..] else data;
      var kept := if start + |front| > windowEnd then front[..windowEnd - start] else front;
      if kept == [] then None else Some(Segment(start, kept))
  }

  // -----------------------------------------------------------------------
  // Merging

  /** `std::map::lower_bound`: the position of the first range starting at or after `key`. */
  function LowerBound(segs: seq<Segment>, key: nat): (i: nat)
    ensures i <= |segs|
    ensures forall j :: 0 <= j < i ==> segs[j].start < key
    ensures Ordered(segs) ==> forall j :: i <= j < |segs| ==> segs[j].start >= key
  {
    if segs == [] || segs[0].start >= key then 0
    else 1 + LowerBound(segs[1..], key)
  }

  /**
   * One swallowed successor `s`, which starts before the end of `m`: `m`
   * extended by whatever of `s` lies past its end.
   */
  function Grow(m: Segment, s: Segment): (r: Segment)
    requires s.start < m.End()
    ensures r.start == m.start && r.End() == Max(m.End(), s.End())
    ensures m.data <= r.data
  {
    if s.End() > m.End() then Segment(m.start, m.data + s.data[m.End() - s.start..]) else m
  }

  /** What the successor loop leaves: the grown range and the position of the first range it kept. */
  datatype Absorbed = Absorbed(grown: Segment, next: nat)

  /**
   * The successor loop, from position `i`: while the next range starts
   * before the end of `m`, remove it, appending to `m` whatever of it
   * extends past `m`'s end. Returns the grown range and the position of
   * the first range left in place.
   */
  function Absorb(m: Segment, segs: seq<Segment>, i: nat): (r: Absorbed)
    requires i <= |segs|
    ensures i <= r.next <= |segs|
    ensures r.grown.start == m.start && m.End() <= r.grown.End() && m.data <= r.grown.data
    ensures r.next < |segs| ==> r.grown.End() <= segs[r.next].start
    decreases |segs| - i
  {
    if i == |segs| || segs[i].start >= m.End() then Absorbed(m, i)
    else Absorb(Grow(m, segs[i]), segs, i + 1)
  }

  /** `segs` with the ranges at positions [first, next) replaced by the single range `m`. */
  function Splice(segs: seq<Segment>, first: nat, m: Segment, next: nat): (r: seq<Segment>)
    requires first <= next <= |segs|
    ensures |r| == |segs| - (next - first) + 1 && r[first] == m
  {
    segs[..first] + [m] + segs[next..]
  }

  /** Where merging starts: nothing to merge, or the position and range to start from. */
  datatype MergeStart = Covered | StartAt(first: nat, m: Segment)

  /**
   * Where merging starts: the predecessor range when it overlaps the new
   * one (None when it already covers it), otherwise the new range itself.
   * Returns the position of the first range to be replaced and the range
   * that goes on to absorb the successors.
   */
  function MergeBase(segs: seq<Segment>, c: Segment): (r: MergeStart)
    ensures r.Covered? ==> Inside(c, segs)
    ensures r.StartAt? ==>
      var i := LowerBound(segs, c.start);
      && r.m.start <= c.start && r.m.End() == c.End()
      && (r.first == i ==> r.m == c)
      && (r.first != i ==> r.first == i - 1 && r.m.start == segs[r.first].start && segs[r.first].End() < c.End())
  {
    var i := LowerBound(segs, c.start);
    if i > 0 && segs[i - 1].End() > c.start then
      var prev := segs[i - 1];
      if prev.End() >= c.End() then InsideAt(c, segs, i - 1); Covered
      else StartAt(i - 1, Segment(prev.start, prev.data + c.data[prev.End() - c.start..]))
    else StartAt(i, c)
  }

  /** The stored ranges after merging `c` in; None when an existing range already covers `c`. */
  function Merge(segs: seq<Segment>, c: Segment): (r: Option<seq<Segment>>)
    ensures r.None? ==> Inside(c, segs)
    ensures r.Some? ==> Inside(c, r.value)
  {
    var base := MergeBase(segs, c);
    if base.Covered? then None
    else
      var i := LowerBound(segs, c.start);
      var r := Absorb(base.m, segs, i);
      var merged := Splice(segs, base.first, r.grown, r.next);
      InsideAt(c, merged, base.first);
      Some(merged)
  }

  // -----------------------------------------------------------------------
  // Draining

  datatype Drained = Drained(pushed: seq<byte>, rest: seq<Segment>)

  /**
   * The drain loop: while the first range starts at `left`, push it whole
   * when it fits in `room`, otherwise push the part that fits, keep the
   * remainder at the new front index and stop.
   */
  function Drain(segs: seq<Segment>, left: nat, room: nat): (d: Drained)
    ensures |d.pushed| <= room
    decreases |segs|
  {
    if segs == [] || segs[0].start != left then Drained([], segs)
    else if |segs[0].data| <= room then
      var d := Drain(segs[1..], left + |segs[0].data|, room - |segs[0].data|);
      Drained(segs[0].data + d.pushed, d.rest)
    else
      Drained(segs[0].data[..room], [Segment(left + room, segs[0].data[room..])] + segs[1..])
  }

  // -----------------------------------------------------------------------
  // One insert

  /** The reassembler's state apart from the output's buffer. */
  datatype ReassemblyState = ReassemblyState(
    segments: seq<Segment>,  // pending ranges, by start index
    left: nat,               // next index the output expects
    last: Option<nat>,       // one past the final index, once known
    closed: bool)            // whether the output is closed

  datatype Step = Step(after: ReassemblyState, pushed: seq<byte>)

  /** One past the final index recorded by a last substring: uint64 addition. */
  function FinalIndex(first: u64, data: seq<byte>): u64
  {
    (first + |data|) % TWO_64
  }

  /**
   * `insert(first, data, isLast)` with `room` free bytes in the output:
   * the new state and the bytes pushed into the output. A closed output
   * ignores the insert; a last substring records the final index; reaching
   * it closes the output; otherwise the data is accepted.
   */
  function InsertStep(st: ReassemblyState, room: nat, first: u64, data: seq<byte>, isLast: bool): (r: Step)
    ensures |r.pushed| <= room && r.after.left == st.left + |r.pushed|
    ensures st.closed ==> r == Step(st, [])
    ensures !st.closed ==> r.after.last == if isLast then Some(FinalIndex(first, data)) else st.last
  {
    if st.closed then Step(st, [])
    else
      var last := if isLast then Some(FinalIndex(first, data)) else st.last;
      if last.Some? && st.left >= last.value then
        Step(ReassemblyState(st.segments, st.left, last, true), [])
      else
        AcceptStep(ReassemblyState(st.segments, st.left, last, false), room, first, data)
  }

  /**
   * The rest of `insert` once the final index is recorded and not reached:
   * clip, merge, drain, and close the output if the final index is reached.
   */
  function AcceptStep(st: ReassemblyState, room: nat, first: nat, data: seq<byte>): (s: Step)
    ensures |s.pushed| <= room && s.after.left == st.left + |s.pushed| && s.after.last == st.last
  {
    match Clip(st.left, room, first, data)
    case None => Step(st, [])
    case Some(c) =>
      match Merge(st.segments, c)
      case None => Step(st, [])
      case Some(merged) =>
        var d := Drain(merged, st.left, room);
        var left := st.left + |d.pushed|;
        Step(ReassemblyState(d.rest, left, st.last, st.last.Some? && left >= st.last.value), d.pushed)
  }

  /** `AcceptStep` changes nothing when the data clips to nothing or a stored range covers it. */
  lemma AcceptUnchanged(st: ReassemblyState, room: nat, first: nat, data: seq<byte>)
    requires var r := Clip(st.left, room, first, data);
      r.None? || Merge(st.segments, r.value).None?
    ensures var s := AcceptStep(st, room, first, data);
      s.after.segments == st.segments && s.after.left == st.left && s.after.closed == st.closed && s.pushed == []
  {
  }

  /**
   * Otherwise Drain decides the ranges and the bytes pushed, and the output
   * closes once the final index is reached.
   */
  lemma AcceptDrained(st: ReassemblyState, room: nat, first: nat, data: seq<byte>, c: Segment)
    requires Clip(st.left, room, first, data) == Some(c) && Merge(st.segments, c).Some?
    ensures var d := Drain(Merge(st.segments, c).value, st.left, room);
      var left := st.left + |d.pushed|;
      AcceptStep(st, room, first, data)
        == Step(ReassemblyState(d.rest, left, st.last, st.last.Some? && left >= st.last.value), d.pushed)
  {
  }

  /** Whether an insert gets past the early returns to the drain loop. */
  ghost predicate ReachesDrain(st: ReassemblyState, room: nat, first: u64, data: seq<byte>, isLast: bool)
  {
    var last := if isLast then Some(FinalIndex(first, data)) else st.last;
    && !st.closed
    && !(last.Some? && st.left >= last.value)
    && Clip(st.left, room, first, data).Some?
    && Merge(st.segments, Clip(st.left, room, first, data).value).Some?
  }

  /**
   * What holds between inserts when `room` bytes are free in the output:
   * the ranges are stored inside the acceptance window, and the output is
   * closed exactly when the final index is known and reached.
   */
  ghost predicate Invariant(st: ReassemblyState, room: nat)
  {
    && Stored(st.segments, st.left, st.left + room)
    && (st.closed <==> st.last.Some? && st.left >= st.last.value)
  }

  // -----------------------------------------------------------------------
  // Lemmas about the pieces

  lemma {:induction false} TotalLengthAppend(a: seq<Segment>, b: seq<Segment>)
    ensures TotalLength(a + b) == TotalLength(a) + TotalLength(b)
  {
    if a == [] {
      assert a + b == b;
    } else {
      assert (a + b)[0] == a[0];
      assert (a + b)[1..] == a[1..] + b;
      TotalLengthAppend(a[1..], b);
    }
  }

  lemma {:induction false} InsideAt(s: Segment, segs: seq<Segment>, t: nat)
    requires t < |segs| && segs[t].start <= s.start && s.End() <= segs[t].End()
    ensures Inside(s, segs)
    decreases |segs|
  {
    if t > 0 {
      InsideAt(s, segs[1..], t - 1);
    }
  }

  lemma {:induction false} InsideIndex(s: Segment, segs: seq<Segment>) returns (t: nat)
    requires Inside(s, segs)
    ensures t < |segs| && segs[t].start <= s.start && s.End() <= segs[t].End()
    decreases |segs|
  {
    if segs[0].start <= s.start && s.End() <= segs[0].End() {
      t := 0;
    } else {
      t := InsideIndex(s, segs[1..]);
      t := t + 1;
    }
  }

  lemma {:induction false} PendingAt(segs: seq<Segment>, j: nat, k: nat)
    requires j < |segs| && segs[j].start <= k < segs[j].End()
    ensures Pending(segs, k)
    decreases |segs|
  {
    if j > 0 {
      PendingAt(segs[1..], j - 1, k);
    }
  }

  lemma {:induction false} PendingIndex(segs: seq<Segment>, k: nat) returns (j: nat)
    requires Pending(segs, k)
    ensures j < |segs| && segs[j].start <= k < segs[j].End()
    decreases |segs|
  {
    if segs[0].start <= k < segs[0].End() {
      j := 0;
    } else {
      j := PendingIndex(segs[1..], k);
      j := j + 1;
    }
  }

  /** Replacing segs[lo..hi) by one range that fits between its neighbours keeps the order. */
  lemma OrderedSplice(segs: seq<Segment>, lo: nat, m: Segment, hi: nat)
    requires Ordered(segs) && lo <= hi <= |segs|
    requires forall j :: 0 <= j < lo ==> segs[j].End() <= m.start
    requires hi < |segs| ==> m.End() <= segs[hi].start
    ensures Ordered(Splice(segs, lo, m, hi))
  {
    var r := Splice(segs, lo, m, hi);
    forall a, b | 0 <= a < b < |r| ensures r[a].End() <= r[b].start {
      if b < lo {
        assert r[a] == segs[a] && r[b] == segs[b];
      } else if b == lo {
        assert r[a] == segs[a] && r[b] == m;
      } else if a < lo {
        assert r[a] == segs[a] && r[b] == segs[hi + b - lo - 1];
      } else if a == lo {
        assert r[a] == m && r[b] == segs[hi + b - lo - 1];
        assert m.End() <= segs[hi].start <= segs[hi].End();
      } else {
        assert r[a] == segs[hi + a - lo - 1] && r[b] == segs[hi + b - lo - 1];
      }
    }
  }

  /** The same splice keeps the ranges stored inside [lo, hi). */
  lemma StoredSplice(segs: seq<Segment>, first: nat, m: Segment, next: nat, lo: nat, hi: nat)
    requires Stored(segs, lo, hi) && first <= next <= |segs|
    requires m.data != [] && lo <= m.start && m.End() <= hi
    requires forall j :: 0 <= j < first ==> segs[j].End() <= m.start
    requires next < |segs| ==> m.End() <= segs[next].start
    ensures Stored(Splice(segs, first, m, next), lo, hi)
  {
    OrderedSplice(segs, first, m, next);
    var r := Splice(segs, first, m, next);
    forall j | first < j < |r| ensures r[j] == segs[next + j - first - 1] {
    }
  }

  /** Every range of the splice carries the bytes of `whole` when its pieces do. */
  lemma AgreesSplice(segs: seq<Segment>, first: nat, m: Segment, next: nat, whole: seq<byte>)
    requires AllAgree(segs, whole) && Agrees(m, whole) && first <= next <= |segs|
    ensures AllAgree(Splice(segs, first, m, next), whole)
  {
    var r := Splice(segs, first, m, next);
    forall j | first < j < |r| ensures r[j] == segs[next + j - first - 1] {
    }
  }

  /** The range Absorb grows never passes a bound that `m` and the swallowed ranges respect. */
  lemma {:induction false} AbsorbWithin(m: Segment, segs: seq<Segment>, i: nat, hi: nat)
    requires i <= |segs| && m.End() <= hi
    requires forall j :: i <= j < |segs| ==> segs[j].End() <= hi
    ensures Absorb(m, segs, i).grown.End() <= hi
    decreases |segs| - i
  {
    if i < |segs| && segs[i].start < m.End() {
      AbsorbWithin(Grow(m, segs[i]), segs, i + 1, hi);
    }
  }

  /** Absorbing ranges that carry the bytes of `whole` yields a range that does too. */
  lemma {:induction false} AbsorbAgrees(m: Segment, segs: seq<Segment>, i: nat, whole: seq<byte>)
    requires i <= |segs| && Agrees(m, whole) && AllAgree(segs, whole)
    ensures Agrees(Absorb(m, segs, i).grown, whole)
    decreases |segs| - i
  {
    if i < |segs| && segs[i].start < m.End() {
      var s := segs[i];
      var grown := Grow(m, s);
      assert Agrees(s, whole);
      if s.End() > m.End() {
        assert s.data[m.End() - s.start..] == whole[m.End()..s.End()];
        assert grown.data == whole[m.start..s.End()];
      }
      AbsorbAgrees(grown, segs, i + 1, whole);
    }
  }

  /**
   * The range merging starts from: it ends where `c` ends, and every range
   * before its position ends at or before its start.
   */
  lemma MergeBaseShape(segs: seq<Segment>, c: Segment)
    requires Ordered(segs) && c.data != [] && MergeBase(segs, c).StartAt?
    ensures var base := MergeBase(segs, c);
      && base.first <= LowerBound(segs, c.start)
      && base.m.start <= c.start && base.m.End() == c.End() && base.m.data != []
      && (base.first < LowerBound(segs, c.start) ==> base.m.start == segs[base.first].start)
      && (base.first == LowerBound(segs, c.start) ==> base.m == c)
      && (forall j :: 0 <= j < base.first ==> segs[j].End() <= base.m.start)
  {
    var i := LowerBound(segs, c.start);
    var first := MergeBase(segs, c).first;
    var m := MergeBase(segs, c).m;
    if first == i {
      forall j | 0 <= j < first ensures segs[j].End() <= m.start {
        assert segs[j].End() <= segs[i - 1].End();
      }
    }
  }

  /** ... and it carries the bytes of `whole` when the ranges it is made of do. */
  lemma MergeBaseAgrees(segs: seq<Segment>, c: Segment, whole: seq<byte>)
    requires AllAgree(segs, whole) && Agrees(c, whole) && MergeBase(segs, c).StartAt?
    ensures Agrees(MergeBase(segs, c).m, whole)
  {
    var i := LowerBound(segs, c.start);
    var first := MergeBase(segs, c).first;
    var m := MergeBase(segs, c).m;
    if first < i {
      var prev := segs[i - 1];
      assert Agrees(prev, whole);
      assert m == Segment(prev.start, prev.data + c.data[prev.End() - c.start..]);
      assert c.data[prev.End() - c.start..] == whole[prev.End()..c.End()];
      assert whole[prev.start..prev.End()] + whole[prev.End()..c.End()] == whole[prev.start..c.End()];
    }
  }

  /** Merging a range that lies inside [lo, hi) keeps the stored ranges' shape. */
  lemma MergeKeepsStored(segs: seq<Segment>, c: Segment, lo: nat, hi: nat)
    requires Stored(segs, lo, hi)
    requires c.data != [] && lo <= c.start && c.End() <= hi
    ensures Merge(segs, c).Some? ==> Stored(Merge(segs, c).value, lo, hi)
  {
    var r := Merge(segs, c);
    if r.Some? {
      var base := MergeBase(segs, c);
      var i := LowerBound(segs, c.start);
      MergeBaseShape(segs, c);
      if base.first < i {
        assert lo <= segs[base.first].start;
      }
      var a := Absorb(base.m, segs, i);
      AbsorbWithin(base.m, segs, i, hi);
      StoredSplice(segs, base.first, a.grown, a.next, lo, hi);
    }
  }

  /** Merging a range that carries the bytes of `whole` keeps every range agreeing with it. */
  lemma MergeAgrees(segs: seq<Segment>, c: Segment, whole: seq<byte>)
    requires Ordered(segs) && c.data != [] && AllAgree(segs, whole) && Agrees(c, whole)
    ensures Merge(segs, c).Some? ==> AllAgree(Merge(segs, c).value, whole)
  {
    var r := Merge(segs, c);
    if r.Some? {
      var i := LowerBound(segs, c.start);
      var base := MergeBase(segs, c);
      MergeBaseAgrees(segs, c, whole);
      MergeBaseShape(segs, c);
      AbsorbAgrees(base.m, segs, i, whole);
      var a := Absorb(base.m, segs, i);
      AgreesSplice(segs, base.first, a.grown, a.next, whole);
    }
  }

  /**
   * The drain loop stops only when no range remains, the first one does
   * not start at the new front index, or the output has no room left; it
   * never pushes more than the room.
   */
  lemma {:induction false} DrainStops(segs: seq<Segment>, left: nat, room: nat)
    ensures var d := Drain(segs, left, room);
      && |d.pushed| <= room
      && (d.rest == [] || d.rest[0].start != left + |d.pushed| || |d.pushed| == room)
    decreases |segs|
  {
    if segs != [] && segs[0].start == left && |segs[0].data| <= room {
      DrainStops(segs[1..], left + |segs[0].data|, room - |segs[0].data|);
    }
  }

  /**
   * Draining ranges stored inside the window [left, left + room): every
   * pushed byte leaves the pending ranges, what remains is stored inside
   * the window that starts at the new front index, and no remaining range
   * starts at that index.
   */
  lemma {:induction false} DrainKeepsStored(segs: seq<Segment>, left: nat, room: nat)
    requires Stored(segs, left, left + room)
    ensures var d := Drain(segs, left, room);
      && |d.pushed| <= room
      && Stored(d.rest, left + |d.pushed|, left + room)
      && (d.rest == [] || d.rest[0].start > left + |d.pushed|)
      && TotalLength(d.rest) + |d.pushed| == TotalLength(segs)
    decreases |segs|
  {
    if segs != [] && segs[0].start == left {
      var n := |segs[0].data|;
      assert segs[0].End() <= left + room;
      var tail := segs[1..];
      assert Stored(tail, left + n, left + room) by {
        forall j | 0 <= j < |tail| ensures left + n <= tail[j].start {
          assert tail[j] == segs[j + 1];
        }
      }
      DrainKeepsStored(tail, left + n, room - n);
    } else if segs != [] {
      assert segs[0].start > left;
    }
  }

  /** The drain loop loses no byte: what it pushes and what it leaves add up to what was pending. */
  lemma {:induction false} DrainConserves(segs: seq<Segment>, left: nat, room: nat)
    ensures var d := Drain(segs, left, room);
      TotalLength(d.rest) + |d.pushed| == TotalLength(segs)
    decreases |segs|
  {
    if segs != [] && segs[0].start == left {
      if |segs[0].data| <= room {
        DrainConserves(segs[1..], left + |segs[0].data|, room - |segs[0].data|);
      } else {
        var rest := [Segment(left + room, segs[0].data[room..])] + segs[1..];
        assert rest[1..] == segs[1..];
      }
    }
  }

  /** `p` is the slice of `whole` that starts at index `left`. */
  ghost predicate SliceAt(p: seq<byte>, whole: seq<byte>, left: nat)
  {
    left + |p| <= |whole| && p == whole[left..left + |p|]
  }

  /** Draining ranges that carry the bytes of `whole` pushes exactly those bytes. */
  lemma {:induction false} DrainAgrees(segs: seq<Segment>, left: nat, room: nat, whole: seq<byte>)
    requires AllAgree(segs, whole) && left <= |whole|
    ensures var d := Drain(segs, left, room);
      AllAgree(d.rest, whole) && SliceAt(d.pushed, whole, left)
    decreases |segs|
  {
    if segs != [] && segs[0].start == left {
      assert Agrees(segs[0], whole);
      if |segs[0].data| <= room {
        var d := Drain(segs[1..], left + |segs[0].data|, room - |segs[0].data|);
        assert Drain(segs, left, room).rest == d.rest;
        DrainAgrees(segs[1..], left + |segs[0].data|, room - |segs[0].data|, whole);
        DrainWholeFront(segs, left, room, whole);
      } else {
        DrainPartialFront(segs, left, room, whole);
      }
    }
  }

  lemma DrainWholeFront(segs: seq<Segment>, left: nat, room: nat, whole: seq<byte>)
    requires segs != [] && segs[0].start == left && |segs[0].data| <= room
    requires Agrees(segs[0], whole)
    requires SliceAt(Drain(segs[1..], left + |segs[0].data|, room - |segs[0].data|).pushed, whole, left + |segs[0].data|)
    ensures SliceAt(Drain(segs, left, room).pushed, whole, left)
  {
    var s := segs[0];
    var d := Drain(segs[1..], left + |s.data|, room - |s.data|);
    DrainFront(segs, left, room);
    AdjacentSlices(whole, left, s.data, d.pushed);
  }

  /** One round of the drain when the first range fits whole. */
  lemma DrainFront(segs: seq<Segment>, left: nat, room: nat)
    requires segs != [] && segs[0].start == left && |segs[0].data| <= room
    ensures var d := Drain(segs[1..], left + |segs[0].data|, room - |segs[0].data|);
      Drain(segs, left, room) == Drained(segs[0].data + d.pushed, d.rest)
  {
  }

  /** Two adjacent slices of `whole` concatenate to one slice. */
  lemma AdjacentSlices(whole: seq<byte>, a: nat, p: seq<byte>, q: seq<byte>)
    requires a + |p| + |q| <= |whole|
    requires p == whole[a..a + |p|] && q == whole[a + |p|..a + |p| + |q|]
    ensures p + q == whole[a..a + |p| + |q|]
  {
    SliceSplit(whole, a, a + |p|, a + |p| + |q|);
  }

  lemma DrainPartialFront(segs: seq<Segment>, left: nat, room: nat, whole: seq<byte>)
    requires segs != [] && segs[0].start == left && |segs[0].data| > room
    requires AllAgree(segs, whole)
    ensures var d := Drain(segs, left, room);
      AllAgree(d.rest, whole) && SliceAt(d.pushed, whole, left)
  {
    var s := segs[0];
    assert Agrees(s, whole);
    var rest := [Segment(left + room, s.data[room..])] + segs[1..];
    assert s.data[room..] == whole[left + room..s.End()];
    assert s.data[..room] == whole[left..left + room];
    forall j | 0 <= j < |rest| ensures Agrees(rest[j], whole) {
      if j > 0 {
        assert rest[j] == segs[j];
      }
    }
  }

  /** Stored ranges hold no byte exactly when there is no range. */
  lemma {:induction false} TotalLengthZero(segs: seq<Segment>, lo: nat, hi: nat)
    requires Stored(segs, lo, hi)
    ensures TotalLength(segs) == 0 <==> segs == []
  {
    if segs != [] {
      assert segs[0].data != [];
    }
  }

  /** A larger window still holds the stored ranges. */
  lemma StoredWiden(segs: seq<Segment>, lo: nat, hi: nat, hi': nat)
    requires Stored(segs, lo, hi) && hi <= hi'
    ensures Stored(segs, lo, hi')
  {
  }

  /** The clipped part of bytes taken from `whole` is itself taken from `whole`. */
  lemma ClipAgrees(left: nat, room: nat, first: nat, data: seq<byte>, whole: seq<byte>)
    requires first + |data| <= |whole| && data == whole[first..first + |data|]
    ensures Clip(left, room, first, data).Some? ==> Agrees(Clip(left, room, first, data).value, whole)
  {
    var r := Clip(left, room, first, data);
    if r.Some? {
      var c := r.value;
      SliceOfSlice(whole, first, first + |data|, c.start - first, c.End() - first);
    }
  }

  // -----------------------------------------------------------------------
  // What one insert guarantees

  /** The final index an insert leaves recorded. */
  function LastAfter(st: ReassemblyState, first: u64, data: seq<byte>, isLast: bool): Option<nat>
  {
    if isLast then Some(FinalIndex(first, data)) else st.last
  }

  /** An insert that returns before the drain loop pushes nothing and keeps the ranges. */
  lemma InsertStepEarly(st: ReassemblyState, room: nat, first: u64, data: seq<byte>, isLast: bool)
    requires !ReachesDrain(st, room, first, data, isLast)
    ensures var s := InsertStep(st, room, first, data, isLast);
      var last := LastAfter(st, first, data, isLast);
      && s.pushed == []
      && s.after.segments == st.segments && s.after.left == st.left
      && s.after.last == (if st.closed then st.last else last)
      && s.after.closed == (st.closed || (last.Some? && st.left >= last.value))
  {
  }

  /** InsertKeepsInvariant, stated for a state and room already known to be the step's result. */
  lemma InsertInvariant(st: ReassemblyState, room: nat, first: u64, data: seq<byte>, isLast: bool,
                        after: ReassemblyState, room': nat)
    requires Invariant(st, room)
    requires var s := InsertStep(st, room, first, data, isLast);
      && after.segments == s.after.segments && after.left == s.after.left
      && after.last == s.after.last && after.closed == s.after.closed
      && room' + |s.pushed| == room
    ensures Invariant(after, room')
  {
    InsertKeepsInvariant(st, room, first, data, isLast);
    assert after == InsertStep(st, room, first, data, isLast).after;
  }

  /** An insert on an open reassembler whose final index is not reached is an AcceptStep. */
  lemma InsertAccepts(st: ReassemblyState, room: nat, first: u64, data: seq<byte>, isLast: bool)
    requires !st.closed
    requires var last := LastAfter(st, first, data, isLast); !(last.Some? && st.left >= last.value)
    ensures InsertStep(st, room, first, data, isLast)
      == AcceptStep(ReassemblyState(st.segments, st.left, LastAfter(st, first, data, isLast), false), room, first, data)
  {
  }

  /** An insert that reaches the drain loop: what Drain makes of the merged ranges. */
  lemma InsertStepDrained(st: ReassemblyState, room: nat, first: u64, data: seq<byte>, isLast: bool)
    requires ReachesDrain(st, room, first, data, isLast)
    ensures var d := Drain(Merge(st.segments, Clip(st.left, room, first, data).value).value, st.left, room);
      var last := LastAfter(st, first, data, isLast);
      var left := st.left + |d.pushed|;
      InsertStep(st, room, first, data, isLast) == Step(ReassemblyState(d.rest, left, last, last.Some? && left >= last.value), d.pushed)
  {
    var open := ReassemblyState(st.segments, st.left, LastAfter(st, first, data, isLast), false);
    assert InsertStep(st, room, first, data, isLast) == AcceptStep(open, room, first, data);
  }


  /**
   * Accepting data keeps the invariant: with `room` free bytes before, it
   * pushes at most `room` bytes, and afterwards the ranges are stored inside
   * the window that starts at the new front index and ends where the old
   * one ended.
   */
  lemma AcceptKeepsInvariant(st: ReassemblyState, room: nat, first: nat, data: seq<byte>)
    requires Invariant(st, room) && !st.closed
    ensures var s := AcceptStep(st, room, first, data);
      && |s.pushed| <= room
      && s.after.left == st.left + |s.pushed|
      && Invariant(s.after, room - |s.pushed|)
  {
    var r := Clip(st.left, room, first, data);
    if r.Some? && Merge(st.segments, r.value).Some? {
      MergeKeepsStored(st.segments, r.value, st.left, st.left + room);
      DrainKeepsStored(Merge(st.segments, r.value).value, st.left, room);
    }
  }

  /**
   * An insert keeps the invariant: with `room` free bytes before, it pushes
   * at most `room` bytes, and afterwards the ranges are stored inside the
   * window that starts at the new front index and ends where the old one
   * ended. When it reaches the drain loop, no range is left at the new
   * front index.
   */
  lemma InsertKeepsInvariant(st: ReassemblyState, room: nat, first: u64, data: seq<byte>, isLast: bool)
    requires Invariant(st, room)
    ensures var s := InsertStep(st, room, first, data, isLast);
      && |s.pushed| <= room
      && s.after.left == st.left + |s.pushed|
      && Invariant(s.after, room - |s.pushed|)
    ensures ReachesDrain(st, room, first, data, isLast) ==>
      var s := InsertStep(st, room, first, data, isLast);
      s.after.segments == [] || s.after.segments[0].start > s.after.left
  {
    if ReachesDrain(st, room, first, data, isLast) {
      var c := Clip(st.left, room, first, data).value;
      MergeKeepsStored(st.segments, c, st.left, st.left + room);
      var merged := Merge(st.segments, c).value;
      DrainKeepsStored(merged, st.left, room);
      InsertStepDrained(st, room, first, data, isLast);
    } else {
      InsertStepEarly(st, room, first, data, isLast);
    }
  }


  /**
   * If an insert reaches the drain loop, the loop stops only when no range
   * is left at the new front index or the output has no room left.
   */
  lemma InsertDrainStops(st: ReassemblyState, room: nat, first: u64, data: seq<byte>, isLast: bool)
    requires ReachesDrain(st, room, first, data, isLast)
    ensures var s := InsertStep(st, room, first, data, isLast);
      || s.after.segments == []
      || s.after.segments[0].start != s.after.left
      || |s.pushed| == room
  {
    var c := Clip(st.left, room, first, data).value;
    DrainStops(Merge(st.segments, c).value, st.left, room);
    InsertStepDrained(st, room, first, data, isLast);
  }

  /**
   * Round trip: when every byte the reassembler holds or receives is taken
   * from one stream `whole`, an insert pushes exactly the bytes of `whole`
   * from the old front index to the new one, and what it keeps is still
   * taken from `whole`.
   */
  lemma InsertAgrees(st: ReassemblyState, room: nat, first: u64, data: seq<byte>, isLast: bool, whole: seq<byte>)
    requires Ordered(st.segments) && AllAgree(st.segments, whole) && st.left <= |whole|
    requires first + |data| <= |whole| && data == whole[first..first + |data|]
    ensures var s := InsertStep(st, room, first, data, isLast);
      && AllAgree(s.after.segments, whole)
      && s.after.left <= |whole|
      && s.pushed == whole[st.left..s.after.left]
  {
    if ReachesDrain(st, room, first, data, isLast) {
      var d := Drain(Merge(st.segments, Clip(st.left, room, first, data).value).value, st.left, room);
      var last := LastAfter(st, first, data, isLast);
      var left := st.left + |d.pushed|;
      DrainedAgrees(st, room, first, data, isLast, whole);
      InsertStepDrained(st, room, first, data, isLast);
      StepAgrees(InsertStep(st, room, first, data, isLast), st.left, d, last, last.Some? && left >= last.value, whole);
    } else {
      InsertStepEarly(st, room, first, data, isLast);
    }
  }

  /** What an insert that reaches the drain loop drains agrees with `whole`. */
  lemma DrainedAgrees(st: ReassemblyState, room: nat, first: u64, data: seq<byte>, isLast: bool, whole: seq<byte>)
    requires ReachesDrain(st, room, first, data, isLast)
    requires Ordered(st.segments) && AllAgree(st.segments, whole) && st.left <= |whole|
    requires first + |data| <= |whole| && data == whole[first..first + |data|]
    ensures var d := Drain(Merge(st.segments, Clip(st.left, room, first, data).value).value, st.left, room);
      AllAgree(d.rest, whole) && SliceAt(d.pushed, whole, st.left)
  {
    var merged := Merge(st.segments, Clip(st.left, room, first, data).value).value;
    MergedAgrees(st, room, first, data, isLast, whole);
    DrainAgrees(merged, st.left, room, whole);
  }

  /** The merged ranges of an insert that reaches the drain loop agree with `whole`. */
  lemma MergedAgrees(st: ReassemblyState, room: nat, first: u64, data: seq<byte>, isLast: bool, whole: seq<byte>)
    requires ReachesDrain(st, room, first, data, isLast)
    requires Ordered(st.segments) && AllAgree(st.segments, whole)
    requires first + |data| <= |whole| && data == whole[first..first + |data|]
    ensures AllAgree(Merge(st.segments, Clip(st.left, room, first, data).value).value, whole)
  {
    ClipAgrees(st.left, room, first, data, whole);
    MergeAgrees(st.segments, Clip(st.left, room, first, data).value, whole);
  }

  /** A step that stores `d.rest` and pushes `d.pushed` from `left` agrees with `whole` when `d` does. */
  lemma StepAgrees(s: Step, left: nat, d: Drained, last: Option<nat>, closed: bool, whole: seq<byte>)
    requires s == Step(ReassemblyState(d.rest, left + |d.pushed|, last, closed), d.pushed)
    requires AllAgree(d.rest, whole) && SliceAt(d.pushed, whole, left)
    ensures AllAgree(s.after.segments, whole) && s.after.left <= |whole| && s.pushed == whole[left..s.after.left]
  {
  }

  // -----------------------------------------------------------------------
  // No accepted byte is lost

  /** Every range the successor loop swallows ends within the grown range. */
  lemma {:induction false} AbsorbCovers(m: Segment, segs: seq<Segment>, i: nat)
    requires i <= |segs|
    ensures var r := Absorb(m, segs, i);
      forall j :: i <= j < r.next ==> segs[j].End() <= r.grown.End()
    decreases |segs| - i
  {
    if i < |segs| && segs[i].start < m.End() {
      AbsorbCovers(Grow(m, segs[i]), segs, i + 1);
    }
  }

  /**
   * Merging loses nothing: when an old range already holds `c` nothing
   * changes; otherwise `c` and every old range lie inside a range of the
   * result.
   */
  lemma MergeCovers(segs: seq<Segment>, c: Segment)
    requires Ordered(segs)
    ensures Merge(segs, c).None? ==> Inside(c, segs)
    ensures Merge(segs, c).Some? ==>
      && Inside(c, Merge(segs, c).value)
      && forall j :: 0 <= j < |segs| ==> Inside(segs[j], Merge(segs, c).value)
  {
    if Merge(segs, c).Some? {
      var r := Merge(segs, c).value;
      var base := MergeBase(segs, c);
      var i := LowerBound(segs, c.start);
      var a := Absorb(base.m, segs, i);
      AbsorbCovers(base.m, segs, i);
      assert r == Splice(segs, base.first, a.grown, a.next);
      forall j | 0 <= j < |segs| ensures Inside(segs[j], r) {
        if j < base.first {
          assert r[j] == segs[j];
          InsideAt(segs[j], r, j);
        } else if j < a.next {
          assert r[base.first] == a.grown;
          if j >= i {
            assert segs[j].start >= c.start;
          }
          InsideAt(segs[j], r, base.first);
        } else {
          assert r[j - a.next + base.first + 1] == segs[j];
          InsideAt(segs[j], r, j - a.next + base.first + 1);
        }
      }
    }
  }

  /** A range inside the stored ranges has every one of its indices retained. */
  lemma InsideRetained(s: Segment, segs: seq<Segment>, left: nat)
    requires Inside(s, segs)
    ensures RangeRetained(segs, left, s.start, s.End())
  {
    var t := InsideIndex(s, segs);
    forall k: nat | s.start <= k < s.End() ensures Retained(segs, left, k) {
      PendingAt(segs, t, k);
    }
  }

  /**
   * Draining loses nothing: every index retained before is retained after,
   * either pushed (below the new front index) or still pending.
   */
  lemma {:induction false} DrainRetains(segs: seq<Segment>, left: nat, room: nat)
    ensures var d := Drain(segs, left, room);
      KeepsRetained(segs, left, d.rest, left + |d.pushed|)
    decreases |segs|
  {
    if segs != [] && segs[0].start == left {
      var n := |segs[0].data|;
      var d := Drain(segs, left, room);
      if n <= room {
        var tail := segs[1..];
        forall k: nat | Retained(segs, left, k) ensures Retained(tail, left + n, k) {
          if k >= left + n {
            var j := PendingIndex(segs, k);
            assert j > 0 && tail[j - 1] == segs[j];
            PendingAt(tail, j - 1, k);
          }
        }
        DrainRetains(tail, left + n, room - n);
      } else {
        forall k: nat | Retained(segs, left, k) ensures Retained(d.rest, left + room, k) {
          if k >= left + room {
            var j := PendingIndex(segs, k);
            if j > 0 {
              assert d.rest[j] == segs[j];
            }
            PendingAt(d.rest, j, k);
          }
        }
      }
    }
  }

  /** Retention carries over from one state to a state that keeps it. */
  lemma KeepsRange(a: seq<Segment>, la: nat, b: seq<Segment>, lb: nat, lo: nat, hi: nat)
    requires KeepsRetained(a, la, b, lb) && RangeRetained(a, la, lo, hi)
    ensures RangeRetained(b, lb, lo, hi)
  {
    forall k: nat | lo <= k < hi ensures Retained(b, lb, k) {
      assert Retained(a, la, k);
    }
  }

  lemma KeepsTransitive(a: seq<Segment>, la: nat, b: seq<Segment>, lb: nat, c: seq<Segment>, lc: nat)
    requires KeepsRetained(a, la, b, lb) && KeepsRetained(b, lb, c, lc)
    ensures KeepsRetained(a, la, c, lc)
  {
    forall k: nat | Retained(a, la, k) ensures Retained(c, lc, k) {
      assert Retained(b, lb, k);
    }
  }

  /** Merging `c` in loses nothing: every index retained before, and every index of `c`, is retained. */
  lemma MergeRetains(segs: seq<Segment>, c: Segment, left: nat)
    requires Ordered(segs) && Merge(segs, c).Some?
    ensures KeepsRetained(segs, left, Merge(segs, c).value, left)
    ensures RangeRetained(Merge(segs, c).value, left, c.start, c.End())
  {
    MergeCovers(segs, c);
    var merged := Merge(segs, c).value;
    forall k: nat | Retained(segs, left, k) ensures Retained(merged, left, k) {
      if k >= left {
        var j := PendingIndex(segs, k);
        InsideRetained(segs[j], merged, left);
      }
    }
    InsideRetained(c, merged, left);
  }

  /** Draining merged ranges that retain `c` and the old ranges keeps retaining both. */
  lemma DrainRetainsMerged(segs: seq<Segment>, c: Segment, merged: seq<Segment>, left: nat, room: nat)
    requires KeepsRetained(segs, left, merged, left) && RangeRetained(merged, left, c.start, c.End())
    ensures var d := Drain(merged, left, room);
      && KeepsRetained(segs, left, d.rest, left + |d.pushed|)
      && RangeRetained(d.rest, left + |d.pushed|, c.start, c.End())
  {
    var d := Drain(merged, left, room);
    DrainRetains(merged, left, room);
    KeepsTransitive(segs, left, merged, left, d.rest, left + |d.pushed|);
    KeepsRange(merged, left, d.rest, left + |d.pushed|, c.start, c.End());
  }

  /**
   * Data that ends inside the window is retained once its clipped part is:
   * the rest of it lies below the front index.
   */
  lemma ClipRetained(left: nat, room: nat, first: nat, data: seq<byte>, segs: seq<Segment>, left': nat)
    requires first + |data| <= left + room && left <= left'
    requires Clip(left, room, first, data).Some? ==> RangeRetained(segs, left', Clip(left, room, first, data).value.start, Clip(left, room, first, data).value.End())
    ensures RangeRetained(segs, left', first, first + |data|)
  {
    var r := Clip(left, room, first, data);
    forall k: nat | first <= k < first + |data| ensures Retained(segs, left', k) {
      if k >= left {
        assert r.Some? && r.value.start <= k < r.value.End();
      }
    }
  }

  /** Clipping, merging and draining data that ends inside the window loses nothing. */
  lemma AcceptRetains(segs: seq<Segment>, left: nat, room: nat, first: nat, data: seq<byte>,
                      c: Segment, merged: seq<Segment>, after: ReassemblyState)
    requires first + |data| <= left + room && Clip(left, room, first, data) == Some(c)
    requires KeepsRetained(segs, left, merged, left) && RangeRetained(merged, left, c.start, c.End())
    requires var d := Drain(merged, left, room);
      after.segments == d.rest && after.left == left + |d.pushed|
    ensures KeepsRetained(segs, left, after.segments, after.left)
    ensures RangeRetained(after.segments, after.left, first, first + |data|)
  {
    var d := Drain(merged, left, room);
    DrainRetainsMerged(segs, c, merged, left, room);
    ClipRetained(left, room, first, data, d.rest, left + |d.pushed|);
  }

  /**
   * An insert loses nothing: every index retained before is retained after,
   * and unless the output ends up closed, so is every index of the data,
   * provided the data ends inside the acceptance window.
   */
  lemma InsertRetains(st: ReassemblyState, room: nat, first: u64, data: seq<byte>, isLast: bool)
    requires Invariant(st, room)
    requires first + |data| <= st.left + room
    ensures var s := InsertStep(st, room, first, data, isLast);
      KeepsRetained(st.segments, st.left, s.after.segments, s.after.left)
    ensures var s := InsertStep(st, room, first, data, isLast);
      !s.after.closed ==> RangeRetained(s.after.segments, s.after.left, first, first + |data|)
  {
    if ReachesDrain(st, room, first, data, isLast) {
      DrainedRetains(st, room, first, data, isLast);
    } else {
      InsertStepEarly(st, room, first, data, isLast);
      var last := LastAfter(st, first, data, isLast);
      if !st.closed && !(last.Some? && st.left >= last.value) {
        EarlyRetains(st, room, first, data, isLast);
      }
    }
  }

  /** An insert that reaches the drain loop keeps every retained index and retains its data. */
  lemma DrainedRetains(st: ReassemblyState, room: nat, first: u64, data: seq<byte>, isLast: bool)
    requires Ordered(st.segments) && first + |data| <= st.left + room
    requires ReachesDrain(st, room, first, data, isLast)
    ensures var s := InsertStep(st, room, first, data, isLast);
      && KeepsRetained(st.segments, st.left, s.after.segments, s.after.left)
      && RangeRetained(s.after.segments, s.after.left, first, first + |data|)
  {
    var c := Clip(st.left, room, first, data).value;
    var merged := Merge(st.segments, c).value;
    var after := InsertStep(st, room, first, data, isLast).after;
    assert after.segments == Drain(merged, st.left, room).rest
        && after.left == st.left + |Drain(merged, st.left, room).pushed| by {
      InsertStepDrained(st, room, first, data, isLast);
    }
    MergeRetains(st.segments, c, st.left);
    AcceptRetains(st.segments, st.left, room, first, data, c, merged, after);
  }

  /** An insert that returns early keeps the ranges, which already hold its data unless it closes. */
  lemma EarlyRetains(st: ReassemblyState, room: nat, first: u64, data: seq<byte>, isLast: bool)
    requires Ordered(st.segments) && first + |data| <= st.left + room
    requires !ReachesDrain(st, room, first, data, isLast)
    requires !st.closed && !(LastAfter(st, first, data, isLast).Some? && st.left >= LastAfter(st, first, data, isLast).value)
    ensures RangeRetained(st.segments, st.left, first, first + |data|)
  {
    var r := Clip(st.left, room, first, data);
    if r.Some? {
      InsideRetained(r.value, st.segments, st.left);
    }
    ClipRetained(st.left, room, first, data, st.segments, st.left);
  }

  // -----------------------------------------------------------------------
  // Round trip across inserts

  /**
   * Round trip as an invariant: when the output holds exactly `whole` up to
   * the front index and every insert is taken from `whole`, the same holds
   * after the insert, so inserts in any order, split and overlapping in any
   * way, only ever write a prefix of `whole` into the output.
   */
  lemma InsertKeepsPrefix(st: ReassemblyState, room: nat, first: u64, data: seq<byte>, isLast: bool,
                          whole: seq<byte>, written: seq<byte>)
    requires Invariant(st, room) && AllAgree(st.segments, whole)
    requires st.left <= |whole| && written == whole[..st.left]
    requires first + |data| <= |whole| && data == whole[first..first + |data|]
    ensures var s := InsertStep(st, room, first, data, isLast);
      && s.after.left <= |whole|
      && written + s.pushed == whole[..s.after.left]
      && AllAgree(s.after.segments, whole)
      && |s.pushed| <= room
      && Invariant(s.after, room - |s.pushed|)
  {
    InsertKeepsInvariant(st, room, first, data, isLast);
    InsertAgrees(st, room, first, data, isLast, whole);
    var s := InsertStep(st, room, first, data, isLast);
    SliceSplit(whole, 0, st.left, s.after.left);
  }

  // -----------------------------------------------------------------------
  // Completion: once every piece has arrived, the output is the whole stream

  /** One call `insert(first, data, isLast)`. */
  datatype Piece = Piece(first: u64, data: seq<byte>, isLast: bool)

  /** The piece carries stream index `k`. */
  ghost predicate InPiece(p: Piece, k: nat)
  {
    p.first <= k < p.first + |p.data|
  }

  /** Some piece carries stream index `k`. */
  ghost predicate PiecesCover(pieces: seq<Piece>, k: nat)
  {
    exists i :: 0 <= i < |pieces| && InPiece(pieces[i], k)
  }

  /** The piece is cut from `whole`, and a last piece ends where `whole` ends. */
  ghost predicate FromStream(p: Piece, whole: seq<byte>)
  {
    && p.first + |p.data| <= |whole| && p.data == whole[p.first..p.first + |p.data|]
    && (p.isLast ==> p.first + |p.data| == |whole|)
  }

  /**
   * One insert of `p` with `room` free bytes in the output, after which the
   * application may read from the output and so free more room. `out` is
   * everything pushed into the output so far.
   */
  ghost predicate Follows(st: ReassemblyState, room: nat, out: seq<byte>, p: Piece,
                          st': ReassemblyState, room': nat, out': seq<byte>)
  {
    var s := InsertStep(st, room, p.first, p.data, p.isLast);
    && st' == s.after && out' == out + s.pushed && room' + |s.pushed| >= room
  }

  /**
   * What holds of the state between inserts of pieces of `whole` with
   * room for the rest of the stream: the ranges keep their shape, every
   * pending range carries the bytes of `whole`, the output holds `whole`
   * up to the front index, and no range waits at the front index.
   */
  ghost predicate PrefixHeld(st: ReassemblyState, room: nat, out: seq<byte>, whole: seq<byte>)
  {
    && Invariant(st, room)
    && AllAgree(st.segments, whole)
    && st.left <= |whole| && out == whole[..st.left]
    && (st.segments == [] || st.segments[0].start > st.left)
    && st.left + room >= |whole|
  }

  /**
   * What holds after the pieces `done` of `whole` have been inserted:
   * PrefixHeld, a known final index is the stream's end and is known once a
   * last piece arrived, and every index of every piece inserted is retained.
   */
  ghost predicate RunInvariant(st: ReassemblyState, room: nat, out: seq<byte>, whole: seq<byte>, done: seq<Piece>)
  {
    && PrefixHeld(st, room, out, whole)
    && (st.last.Some? ==> st.last.value == |whole|)
    && LastKnown(done, st.last.Some?)
    && AllRetained(done, st.segments, st.left)
  }

  /** `known` holds if any of the pieces `done` is a last piece. */
  ghost predicate LastKnown(done: seq<Piece>, known: bool)
  {
    forall i :: 0 <= i < |done| && done[i].isLast ==> known
  }

  /** Every index of every piece in `done` is pushed or pending. */
  ghost predicate AllRetained(done: seq<Piece>, segs: seq<Segment>, left: nat)
  {
    forall i, k: nat :: 0 <= i < |done| && InPiece(done[i], k) ==> Retained(segs, left, k)
  }

  /** No range waits at the front index after an insert if none did before. */
  lemma InsertFront(st: ReassemblyState, room: nat, first: u64, data: seq<byte>, isLast: bool)
    requires Invariant(st, room) && (st.segments == [] || st.segments[0].start > st.left)
    ensures var after := InsertStep(st, room, first, data, isLast).after;
      after.segments == [] || after.segments[0].start > after.left
  {
    if ReachesDrain(st, room, first, data, isLast) {
      InsertKeepsInvariant(st, room, first, data, isLast);
    } else {
      InsertStepEarly(st, room, first, data, isLast);
    }
  }

  /** What one insert of `p` guarantees about its result `after` and the bytes `pushed`. */
  ghost predicate StepFacts(st: ReassemblyState, room: nat, out: seq<byte>, whole: seq<byte>, p: Piece,
                            after: ReassemblyState, pushed: seq<byte>)
  {
    && |pushed| <= room && after.left == st.left + |pushed|
    && PrefixHeld(after, room - |pushed|, out + pushed, whole)
    && after.last == (if st.closed then st.last else LastAfter(st, p.first, p.data, p.isLast))
    && KeepsRetained(st.segments, st.left, after.segments, after.left)
    && (!after.closed ==> RangeRetained(after.segments, after.left, p.first, p.first + |p.data|))
  }

  /** An insert of a piece of `whole` has the StepFacts. */
  lemma InsertStepFacts(st: ReassemblyState, room: nat, out: seq<byte>, whole: seq<byte>, p: Piece)
    requires PrefixHeld(st, room, out, whole) && FromStream(p, whole)
    ensures var s := InsertStep(st, room, p.first, p.data, p.isLast);
      StepFacts(st, room, out, whole, p, s.after, s.pushed)
  {
    InsertKeepsPrefix(st, room, p.first, p.data, p.isLast, whole, out);
    InsertFront(st, room, p.first, p.data, p.isLast);
    InsertRetains(st, room, p.first, p.data, p.isLast);
  }

  /** More room keeps PrefixHeld. */
  lemma PrefixWiden(st: ReassemblyState, room: nat, out: seq<byte>, whole: seq<byte>, room': nat)
    requires PrefixHeld(st, room, out, whole) && room <= room'
    ensures PrefixHeld(st, room', out, whole)
  {
    StoredWiden(st.segments, st.left, st.left + room, st.left + room');
  }

  /** Once a last piece is among those inserted, the final index stays known. */
  lemma LastKnownAfter(done: seq<Piece>, p: Piece, known: bool, known': bool)
    requires LastKnown(done, known)
    requires (known || p.isLast) ==> known'
    ensures LastKnown(done + [p], known')
  {
    forall i | 0 <= i < |done + [p]| && (done + [p])[i].isLast ensures known' {
      if i < |done| {
        assert (done + [p])[i] == done[i];
      }
    }
  }

  /** The indices of the inserted pieces stay retained across one more insert. */
  lemma RetainedAfter(done: seq<Piece>, p: Piece, segs: seq<Segment>, left: nat,
                      segs': seq<Segment>, left': nat, closed': bool)
    requires AllRetained(done, segs, left)
    requires KeepsRetained(segs, left, segs', left')
    requires !closed' ==> RangeRetained(segs', left', p.first, p.first + |p.data|)
    requires closed' ==> p.first + |p.data| <= left'
    ensures AllRetained(done + [p], segs', left')
  {
    forall i, k: nat | 0 <= i < |done + [p]| && InPiece((done + [p])[i], k) ensures Retained(segs', left', k) {
      if i < |done| {
        assert (done + [p])[i] == done[i];
        assert Retained(segs, left, k);
      } else {
        assert (done + [p])[i] == p;
      }
    }
  }

  /** The output and ranges after one insert, with the room the next insert finds. */
  lemma StepWiden(st: ReassemblyState, room: nat, out: seq<byte>, whole: seq<byte>, p: Piece,
                  after: ReassemblyState, pushed: seq<byte>, room': nat, out': seq<byte>)
    requires StepFacts(st, room, out, whole, p, after, pushed)
    requires out' == out + pushed && room' + |pushed| >= room
    ensures PrefixHeld(after, room', out', whole)
  {
    PrefixWiden(after, room - |pushed|, out + pushed, whole, room');
  }

  /** The run invariant after one insert, from what the insert guarantees. */
  lemma RunInvariantAfter(st: ReassemblyState, whole: seq<byte>, done: seq<Piece>, p: Piece,
                          after: ReassemblyState, room': nat, out': seq<byte>)
    requires LastKnown(done, st.last.Some?) && AllRetained(done, st.segments, st.left)
    requires (st.closed ==> st.last.Some?) && (st.last.Some? ==> st.last.value == |whole|)
    requires FromStream(p, whole) && |whole| < TWO_64
    requires PrefixHeld(after, room', out', whole)
    requires after.last == if st.closed then st.last else LastAfter(st, p.first, p.data, p.isLast)
    requires KeepsRetained(st.segments, st.left, after.segments, after.left)
    requires !after.closed ==> RangeRetained(after.segments, after.left, p.first, p.first + |p.data|)
    ensures RunInvariant(after, room', out', whole, done + [p])
  {
    LastKnownAfter(done, p, st.last.Some?, after.last.Some?);
    RetainedAfter(done, p, st.segments, st.left, after.segments, after.left, after.closed);
  }

  /** One insert of a piece of `whole` keeps the run invariant. */
  lemma RunStep(st: ReassemblyState, room: nat, out: seq<byte>, whole: seq<byte>, done: seq<Piece>,
                p: Piece, st': ReassemblyState, room': nat, out': seq<byte>)
    requires RunInvariant(st, room, out, whole, done) && FromStream(p, whole) && |whole| < TWO_64
    requires Follows(st, room, out, p, st', room', out')
    ensures RunInvariant(st', room', out', whole, done + [p])
  {
    var s := InsertStep(st, room, p.first, p.data, p.isLast);
    InsertStepFacts(st, room, out, whole, p);
    StepWiden(st, room, out, whole, p, s.after, s.pushed, room', out');
    RunInvariantAfter(st, whole, done, p, s.after, room', out');
  }

  /**
   * A run of inserts: `states[i]`, `rooms[i]` and `outs[i]` are the state,
   * the free room and the output before the insert of `pieces[i]`.
   */
  ghost predicate IsRun(pieces: seq<Piece>, states: seq<ReassemblyState>, rooms: seq<nat>, outs: seq<seq<byte>>)
  {
    && |states| == |rooms| == |outs| == |pieces| + 1
    && forall i :: 0 <= i < |pieces| ==>
         Follows(states[i], rooms[i], outs[i], pieces[i], states[i + 1], rooms[i + 1], outs[i + 1])
  }

  /** A run from a fresh reassembler with room for the whole stream keeps the run invariant. */
  lemma {:induction false} RunKeepsInvariant(pieces: seq<Piece>, states: seq<ReassemblyState>, rooms: seq<nat>,
                                             outs: seq<seq<byte>>, whole: seq<byte>, n: nat)
    requires IsRun(pieces, states, rooms, outs) && n <= |pieces| && |whole| < TWO_64
    requires states[0] == ReassemblyState([], 0, None, false) && outs[0] == [] && rooms[0] >= |whole|
    requires forall i :: 0 <= i < |pieces| ==> FromStream(pieces[i], whole)
    ensures RunInvariant(states[n], rooms[n], outs[n], whole, pieces[..n])
    decreases n
  {
    if n == 0 {
      assert pieces[..0] == [];
    } else {
      RunKeepsInvariant(pieces, states, rooms, outs, whole, n - 1);
      assert pieces[..n] == pieces[..n - 1] + [pieces[n - 1]];
      assert Follows(states[n - 1], rooms[n - 1], outs[n - 1], pieces[n - 1], states[n], rooms[n], outs[n]);
      RunStep(states[n - 1], rooms[n - 1], outs[n - 1], whole, pieces[..n - 1], pieces[n - 1],
              states[n], rooms[n], outs[n]);
    }
  }

  /** An index pending in ordered ranges is at or after the first range's start. */
  lemma PendingFrom(segs: seq<Segment>, k: nat)
    requires Ordered(segs) && Pending(segs, k)
    ensures segs[0].start <= k
  {
    var j := PendingIndex(segs, k);
    if j > 0 {
      assert segs[0].End() <= segs[j].start;
    }
  }

  /** The first stored range of bytes of `whole` starts before its end. */
  lemma FirstInside(segs: seq<Segment>, lo: nat, hi: nat, whole: seq<byte>)
    requires Stored(segs, lo, hi) && AllAgree(segs, whole)
    ensures segs != [] ==> segs[0].start < |whole|
  {
    if segs != [] {
      assert Agrees(segs[0], whole);
    }
  }

  /**
   * Completion: pieces of `whole`, inserted in any order into a fresh
   * reassembler with room for the whole stream, that between them cover
   * every index of `whole` and include the last piece, leave the output
   * holding exactly `whole`, closed, and nothing pending.
   */
  lemma ReassemblyCompletes(pieces: seq<Piece>, states: seq<ReassemblyState>, rooms: seq<nat>,
                            outs: seq<seq<byte>>, whole: seq<byte>)
    requires IsRun(pieces, states, rooms, outs) && |whole| < TWO_64
    requires states[0] == ReassemblyState([], 0, None, false) && outs[0] == [] && rooms[0] >= |whole|
    requires forall i :: 0 <= i < |pieces| ==> FromStream(pieces[i], whole)
    requires forall k: nat :: k < |whole| ==> PiecesCover(pieces, k)
    requires exists i :: 0 <= i < |pieces| && pieces[i].isLast
    ensures var st := states[|pieces|];
      && outs[|pieces|] == whole && st.left == |whole| && st.closed && st.segments == []
  {
    var n := |pieces|;
    RunKeepsInvariant(pieces, states, rooms, outs, whole, n);
    assert pieces[..n] == pieces;
    var st := states[n];
    if st.left < |whole| {
      assert PiecesCover(pieces, st.left);
      var i :| 0 <= i < n && InPiece(pieces[i], st.left);
      assert Retained(st.segments, st.left, st.left);
      PendingFrom(st.segments, st.left);
      assert false;
    }
    FirstInside(st.segments, st.left, st.left + rooms[n], whole);
  }

  /** The first half of an example: "llo" as the last substring at index 2 is stored, not pushed. */
  lemma HelloFirstPiece()
    ensures InsertStep(ReassemblyState([], 0, None, false), 8, 2, [108, 108, 111], true)
      == Step(ReassemblyState([Segment(2, [108, 108, 111])], 0, Some(5), false), [])
  {
    var llo := Segment(2, [108, 108, 111]);
    assert Clip(0, 8, 2, llo.data) == Some(llo);
    assert Absorb(llo, [], 0) == Absorbed(llo, 0);
    assert Splice([], 0, llo, 0) == [llo];
    assert Merge([], llo) == Some([llo]);
    assert Drain([llo], 0, 8) == Drained([], [llo]);
  }

  /** The second half: "he" at index 0 then pushes "hello" and reaches the final index. */
  lemma HelloSecondPiece()
    ensures InsertStep(ReassemblyState([Segment(2, [108, 108, 111])], 0, Some(5), false), 8, 0, [104, 101], false)
      == Step(ReassemblyState([], 5, Some(5), true), [104, 101, 108, 108, 111])
  {
    var llo := Segment(2, [108, 108, 111]);
    var he := Segment(0, [104, 101]);
    assert Clip(0, 8, 0, he.data) == Some(he);
    assert Absorb(he, [llo], 0) == Absorbed(he, 0);
    assert Splice([llo], 0, he, 0) == [he, llo];
    assert Merge([llo], he) == Some([he, llo]);
    assert Drain([], 5, 3) == Drained([], []);
    assert Drain([llo], 2, 6) == Drained(llo.data, []);
    assert Drain([he, llo], 0, 8) == Drained(he.data + llo.data, []);
  }
}
