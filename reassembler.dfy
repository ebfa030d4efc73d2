// The reassembler: it owns the output stream, keeps the out-of-order
// ranges that fit in the acceptance window, and pushes into the output
// every byte that becomes contiguous with what was already pushed.
module Reassembly {
  import opened Common
  import opened ByteStreams
  import opened PendingRanges

  /** The bytes held by a sequence of ranges, split at position `a`. */
  lemma TotalLengthSplit(segs: seq<Segment>, a: nat)
    requires a <= |segs|
    ensures TotalLength(segs) == TotalLength(segs[..a]) + TotalLength(segs[a..])
  {
    assert segs == segs[..a] + segs[a..];
    TotalLengthAppend(segs[..a], segs[a..]);
  }

  /**
   * The successor loop (lines 75-87 of `insert`): while the range at
   * position `j` starts before the end of the growing range, swallow it,
   * appending whatever of it extends past that end. Returns the grown
   * range, the position after the last swallowed range and the number of
   * bytes the swallowed ranges held.
   */
  method AbsorbSuccessors(segs: seq<Segment>, it: nat, m: Segment)
    returns (grown: Segment, j: nat, swallowed: nat)
    requires it <= |segs|
    ensures it <= j <= |segs|
    ensures Absorb(m, segs, it) == Absorbed(grown, j)
    ensures TotalLength(segs[it..]) == swallowed + TotalLength(segs[j..])
  {
    var first := m.start;
    var data := m.data;
    j := it;
    swallowed := 0;
    ghost var target := Absorb(m, segs, it);
    while j < |segs| && segs[j].start < first + |data|
      invariant it <= j <= |segs|
      invariant Absorb(Segment(first, data), segs, j) == target
      invariant TotalLength(segs[it..]) == swallowed + TotalLength(segs[j..])
      decreases |segs| - j
    {
      var s := segs[j];
      assert segs[j..][0] == s && segs[j..][1..] == segs[j + 1..];
      assert TotalLength(segs[j..]) == |s.data| + TotalLength(segs[j + 1..]);
      if s.End() > first + |data| {
        data := data + s.data[first + |data| - s.start..];
      }
      swallowed := swallowed + |s.data|;
      j := j + 1;
    }
    grown := Segment(first, data);
  }

  /**
   * Lines 50-91 of `insert`: merge the clipped range `c` with the
   * predecessor it overlaps and with every successor that starts before its
   * end, keeping the running count of pending bytes. Returns None when an
   * existing range already covers `c`.
   */
  method MergeSegments(segs: seq<Segment>, c: Segment, pending: nat)
    returns (merged: Option<seq<Segment>>, newPending: nat)
    requires pending == TotalLength(segs)
    ensures merged == Merge(segs, c)
    ensures merged.Some? ==> newPending == TotalLength(merged.value)
    ensures merged.None? ==> newPending == pending
  {
    var it := LowerBound(segs, c.start);
    var m := c;
    var lo := it;
    var p: nat := pending;
    TotalLengthSplit(segs, it);
    if it > 0 {
      var prev := segs[it - 1];
      if prev.End() > c.start {
        if prev.End() >= c.End() {
          assert MergeBase(segs, c).Covered?;
          return None, pending;
        }
        m := Segment(prev.start, prev.data + c.data[prev.End() - c.start..]);
        lo := it - 1;
        assert segs[..it] == segs[..it - 1] + [prev];
        TotalLengthAppend(segs[..it - 1], [prev]);
        p := p - |prev.data|;
      }
    }
    assert MergeBase(segs, c) == StartAt(lo, m);
    // p == TotalLength(segs[..lo]) + TotalLength(segs[it..])
    var grown, j, swallowed := AbsorbSuccessors(segs, it, m);
    p := p - swallowed;
    var result := segs[..lo] + [grown] + segs[j..];
    assert Merge(segs, c) == Some(result);
    TotalLengthAppend(segs[..lo] + [grown], segs[j..]);
    TotalLengthAppend(segs[..lo], [grown]);
    return Some(result), p + |grown.data|;
  }

  class Reassembler {
    /** The stream the reassembled bytes go to. */
    const output: ByteStream
    /** Pending ranges by start index (`segments_`). */
    var segments: seq<Segment>
    /** The next index the output expects (`left_most_index`). */
    var leftMostIndex: nat
    /** One past the final index, once a last substring was seen (`last_index_`). */
    var lastIndex: Option<nat>
    /** The number of bytes held in `segments` (`bytes_pending`). */
    var bytesPending: nat

    /** The reassembler's state as the specification of `insert` sees it. */
    ghost function State(): ReassemblyState
      reads this, output
    {
      ReassemblyState(segments, leftMostIndex, lastIndex, output.closed)
    }

    ghost predicate Valid()
      reads this, output
    {
      && output.Valid()
      && leftMostIndex == output.totalPushed
      && Invariant(State(), output.AvailableCapacity())
      && bytesPending == TotalLength(segments)
    }

    /** A reassembler writing into a fresh stream of the given capacity. */
    constructor (capacity: nat)
      ensures Valid() && fresh(output)
      ensures output.capacity == capacity && output.written == [] && !output.closed
      ensures segments == [] && leftMostIndex == 0 && lastIndex.None?
      ensures CountBytesPending() == 0
    {
      output := new ByteStream(capacity);
      segments := [];
      leftMostIndex := 0;
      lastIndex := None;
      bytesPending := 0;
    }

    /** The number of bytes stored but not yet pushed. */
    function CountBytesPending(): (n: nat)
      reads this, output
      requires Valid()
      ensures n == TotalLength(segments)
      ensures n == 0 <==> segments == []
    {
      TotalLengthZero(segments, leftMostIndex, leftMostIndex + output.AvailableCapacity());
      bytesPending
    }

    /**
     * `insert(first_index, data, is_last_substring)`: the new state and
     * the bytes pushed into the output are those of `InsertStep`, taken
     * with the output's free room before the call.
     */
    method Insert(firstIndex: u64, data: seq<byte>, isLastSubstring: bool)
      requires Valid()
      modifies this, output
      ensures Valid()
      ensures var step := InsertStep(old(State()), old(output.AvailableCapacity()), firstIndex, data, isLastSubstring);
        && segments == step.after.segments
        && leftMostIndex == step.after.left
        && lastIndex == step.after.last
        && output.closed == step.after.closed
        && output.Buffered() == old(output.Buffered()) + step.pushed
        && output.written == old(output.written) + step.pushed
      ensures output.totalPopped == old(output.totalPopped) && output.error == old(output.error)
      ensures old(output.closed) ==> unchanged(this) && unchanged(output)
      ensures isLastSubstring && !old(output.closed) ==> lastIndex == Some(FinalIndex(firstIndex, data))
    {
      ghost var st := State();
      ghost var room := output.AvailableCapacity();
      ghost var step := InsertStep(st, room, firstIndex, data, isLastSubstring);
      if output.closed {
        assert step == Step(st, []);
      } else {
        if isLastSubstring {
          lastIndex := Some(FinalIndex(firstIndex, data));
        }
        if lastIndex.Some? && leftMostIndex >= lastIndex.value {
          assert step == Step(ReassemblyState(segments, leftMostIndex, lastIndex, true), []);
          output.Close();
        } else {
          InsertAccepts(st, room, firstIndex, data, isLastSubstring);
          Accept(firstIndex, data);
        }
      }
      InsertInvariant(st, room, firstIndex, data, isLastSubstring, State(), output.AvailableCapacity());
    }

    /**
     * Lines 18-121 of `insert`, once the final index is recorded and not
     * reached: the state and pushed bytes of `AcceptStep`.
     */
    method Accept(firstIndex: nat, data: seq<byte>)
      requires output.Valid() && !output.closed
      requires leftMostIndex == output.totalPushed && bytesPending == TotalLength(segments)
      requires !(lastIndex.Some? && leftMostIndex >= lastIndex.value)
      modifies this`segments, this`leftMostIndex, this`bytesPending, output
      ensures output.Valid()
      ensures leftMostIndex == output.totalPushed && bytesPending == TotalLength(segments)
      ensures var step := AcceptStep(old(State()), old(output.AvailableCapacity()), firstIndex, data);
        && State() == step.after
        && output.Buffered() == old(output.Buffered()) + step.pushed
        && output.written == old(output.written) + step.pushed
      ensures output.totalPopped == old(output.totalPopped) && output.error == old(output.error)
    {
      ghost var st := State();
      ghost var room0 := output.AvailableCapacity();
      var availableCapacity := output.AvailableCapacity();
      var clipped := Clip(leftMostIndex, availableCapacity, firstIndex, data);
      if clipped.None? {
        AcceptUnchanged(st, room0, firstIndex, data);
        return;
      }
      var accepted := MergeAndDrain(clipped.value);
      if !accepted {
        AcceptUnchanged(st, room0, firstIndex, data);
        return;
      }
      ghost var d := Drain(Merge(st.segments, clipped.value).value, st.left, room0);
      assert leftMostIndex == st.left + |d.pushed| && lastIndex == st.last;
      AcceptDrained(st, room0, firstIndex, data, clipped.value);
      ghost var left := st.left + |d.pushed|;
      assert State() == ReassemblyState(d.rest, left, st.last, st.last.Some? && left >= st.last.value);
    }

    /** Lines 119-121 of `insert`: close the output once the final index is reached. */
    method CloseIfDone()
      requires output.Valid()
      modifies output`closed
      ensures output.Valid()
      ensures output.closed == (old(output.closed) || (lastIndex.Some? && leftMostIndex >= lastIndex.value))
      ensures output.Buffered() == old(output.Buffered())
      ensures output.AvailableCapacity() == old(output.AvailableCapacity())
    {
      if lastIndex.Some? && leftMostIndex >= lastIndex.value {
        output.Close();
      }
    }

    /**
     * Lines 50-117 of `insert`, for a clipped non-empty range `c`: merge it
     * with the pending ranges (nothing changes when an existing range
     * covers it), then drain the contiguous front into the output.
     */
    method MergeAndDrain(c: Segment) returns (accepted: bool)
      requires output.Valid()
      requires leftMostIndex == output.totalPushed
      requires bytesPending == TotalLength(segments)
      modifies this`segments, this`leftMostIndex, this`bytesPending, output
      ensures output.Valid()
      ensures leftMostIndex == output.totalPushed
      ensures bytesPending == TotalLength(segments)
      ensures accepted == Merge(old(segments), c).Some?
      ensures Merge(old(segments), c).None? ==> unchanged(this) && unchanged(output)
      ensures Merge(old(segments), c).Some? ==>
        var d := Drain(Merge(old(segments), c).value, old(leftMostIndex), old(output.AvailableCapacity()));
        && segments == d.rest
        && leftMostIndex == old(leftMostIndex) + |d.pushed|
        && output.Buffered() == old(output.Buffered()) + d.pushed
        && output.written == old(output.written) + d.pushed
        && output.closed == (old(output.closed) || (lastIndex.Some? && leftMostIndex >= lastIndex.value))
      ensures output.totalPopped == old(output.totalPopped) && output.error == old(output.error)
    {
      var merged, pending := MergeSegments(segments, c, bytesPending);
      if merged.None? {
        return false;
      }
      accepted := true;
      segments, bytesPending := merged.value, pending;
      DrainInto();
      CloseIfDone();
    }

    /**
     * The drain loop (lines 93-117 of `insert`): while the first range
     * starts at the next expected index, push it whole if it fits,
     * otherwise push the part that fits, keep the rest and stop.
     */
    method DrainInto()
      requires output.Valid()
      requires leftMostIndex == output.totalPushed
      requires bytesPending == TotalLength(segments)
      modifies this`segments, this`leftMostIndex, this`bytesPending, output
      ensures output.Valid()
      ensures leftMostIndex == output.totalPushed
      ensures bytesPending == TotalLength(segments)
      ensures var d := Drain(old(segments), old(leftMostIndex), old(output.AvailableCapacity()));
        && segments == d.rest
        && leftMostIndex == old(leftMostIndex) + |d.pushed|
        && output.Buffered() == old(output.Buffered()) + d.pushed
        && output.written == old(output.written) + d.pushed
      ensures output.totalPopped == old(output.totalPopped)
      ensures output.closed == old(output.closed) && output.error == old(output.error)
    {
      ghost var d := Drain(segments, leftMostIndex, output.AvailableCapacity());
      ghost var left0 := leftMostIndex;
      ghost var buffered0 := output.Buffered();
      ghost var written0 := output.written;
      ghost var done: seq<byte> := [];
      while segments != [] && segments[0].start == leftMostIndex
        invariant output.Valid()
        invariant leftMostIndex == output.totalPushed
        invariant bytesPending == TotalLength(segments)
        invariant output.totalPopped == old(output.totalPopped)
        invariant output.closed == old(output.closed) && output.error == old(output.error)
        invariant output.written == written0 + done
        invariant output.Buffered() == buffered0 + done
        invariant leftMostIndex == left0 + |done|
        invariant d.pushed == done + Drain(segments, leftMostIndex, output.AvailableCapacity()).pushed
        invariant d.rest == Drain(segments, leftMostIndex, output.AvailableCapacity()).rest
        decreases |segments|
      {
        ghost var before := done;
        var whole, piece := PushFront();
        done := done + piece;
        AppendAssoc(written0, before, piece);
        AppendAssoc(buffered0, before, piece);
        AppendAssoc(before, piece, Drain(segments, leftMostIndex, output.AvailableCapacity()).pushed);
        if !whole {
          break;
        }
      }
      assert Drain(segments, leftMostIndex, output.AvailableCapacity()) == Drained([], segments);
    }

    /**
     * One round of the drain loop: push the first range whole when it fits
     * in the output (`whole`), otherwise push the part that fits and keep
     * the rest as a range at the new next expected index.
     */
    method PushFront() returns (whole: bool, ghost piece: seq<byte>)
      requires output.Valid()
      requires leftMostIndex == output.totalPushed
      requires bytesPending == TotalLength(segments)
      requires segments != [] && segments[0].start == leftMostIndex
      modifies this`segments, this`leftMostIndex, this`bytesPending, output
      ensures output.Valid()
      ensures leftMostIndex == output.totalPushed
      ensures bytesPending == TotalLength(segments)
      ensures output.totalPopped == old(output.totalPopped)
      ensures output.closed == old(output.closed) && output.error == old(output.error)
      ensures output.written == old(output.written) + piece
      ensures output.Buffered() == old(output.Buffered()) + piece
      ensures leftMostIndex == old(leftMostIndex) + |piece|
      ensures var before := Drain(old(segments), old(leftMostIndex), old(output.AvailableCapacity()));
        var after := Drain(segments, leftMostIndex, output.AvailableCapacity());
        before == Drained(piece + after.pushed, after.rest)
      ensures whole ==> |segments| < old(|segments|)
      ensures !whole ==> Drain(segments, leftMostIndex, output.AvailableCapacity()) == Drained([], segments)
    {
      var segment := segments[0];
      var currAvailableCapacity := output.AvailableCapacity();
      if |segment.data| <= currAvailableCapacity {
        output.Push(segment.data);
        leftMostIndex := leftMostIndex + |segment.data|;
        bytesPending := bytesPending - |segment.data|;
        segments := segments[1..];
        whole, piece := true, segment.data;
      } else {
        var toWrite := segment.data[..currAvailableCapacity];
        output.Push(toWrite);
        leftMostIndex := leftMostIndex + currAvailableCapacity;
        bytesPending := bytesPending - currAvailableCapacity;
        var remaining := segment.data[currAvailableCapacity..];
        var tail := segments[1..];
        segments := [Segment(leftMostIndex, remaining)] + tail;
        assert segments[1..] == tail;
        assert Drain(segments, leftMostIndex, output.AvailableCapacity()) == Drained([], segments);
        whole, piece := false, toWrite;
      }
    }

    /** Bytes the outside reader takes out of the output (`reader().pop`). */
    method PopOutput(len: nat)
      requires Valid()
      requires len <= output.BytesBuffered()
      modifies output
      ensures Valid()
      ensures output.Buffered() == old(output.Buffered())[len..]
      ensures output.written == old(output.written) && output.closed == old(output.closed)
    {
      ghost var room := output.AvailableCapacity();
      output.Pop(len);
      StoredWiden(segments, leftMostIndex, leftMostIndex + room, leftMostIndex + output.AvailableCapacity());
    }
  }
}
