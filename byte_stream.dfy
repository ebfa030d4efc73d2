// The bounded byte stream shared by a writer and a reader. The buffer is a
// queue of the accepted pushes ("fragments"); `frontLeft` counts the bytes
// of the front fragment that have not been popped yet.
module ByteStreams {
  import opened Common

  /** All fragments, concatenated in queue order. */
  function Concat(fragments: seq<seq<byte>>): (s: seq<byte>)
    ensures fragments == [] ==> s == []
  {
    if fragments == [] then [] else fragments[0] + Concat(fragments[1..])
  }

  /** The shape the queue keeps: no empty fragment, a front count that fits its fragment. */
  ghost predicate WellFormed(fragments: seq<seq<byte>>, frontLeft: nat)
  {
    && (forall i :: 0 <= i < |fragments| ==> fragments[i] != [])
    && (fragments == [] ==> frontLeft == 0)
    && (fragments != [] ==> 0 < frontLeft <= |fragments[0]|)
  }

  /** The bytes still to be read: the unread tail of the front fragment, then the others. */
  ghost function Unread(fragments: seq<seq<byte>>, frontLeft: nat): (s: seq<byte>)
    requires WellFormed(fragments, frontLeft)
    ensures s == [] <==> fragments == []
  {
    if fragments == [] then []
    else fragments[0][|fragments[0]| - frontLeft..] + Concat(fragments[1..])
  }

  lemma {:induction false} ConcatAppend(fragments: seq<seq<byte>>, d: seq<byte>)
    ensures Concat(fragments + [d]) == Concat(fragments) + d
  {
    if fragments != [] {
      assert (fragments + [d])[1..] == fragments[1..] + [d];
      ConcatAppend(fragments[1..], d);
    }
  }

  /** Appending a fragment to the queue appends its bytes to the unread bytes. */
  lemma UnreadAppend(fragments: seq<seq<byte>>, frontLeft: nat, d: seq<byte>)
    requires WellFormed(fragments, frontLeft) && fragments != [] && d != []
    ensures WellFormed(fragments + [d], frontLeft)
    ensures Unread(fragments + [d], frontLeft) == Unread(fragments, frontLeft) + d
  {
    var f := fragments[0];
    var front := f[|f| - frontLeft..];
    assert (fragments + [d])[0] == f;
    assert (fragments + [d])[1..] == fragments[1..] + [d];
    ConcatAppend(fragments[1..], d);
    assert Unread(fragments + [d], frontLeft) == front + (Concat(fragments[1..]) + d);
  }

  /**
   * Queueing a new fragment behind the others: it becomes the front one
   * (wholly unread) when the queue was empty, and its bytes follow the
   * unread ones, which stay the suffix of everything written.
   */
  lemma Enqueue(fragments: seq<seq<byte>>, frontLeft: nat, written: seq<byte>, popped: nat, d: seq<byte>)
    requires WellFormed(fragments, frontLeft) && d != []
    requires popped <= |written| && written[popped..] == Unread(fragments, frontLeft)
    ensures var left := if fragments == [] then |d| else frontLeft;
      && WellFormed(fragments + [d], left)
      && Unread(fragments + [d], left) == Unread(fragments, frontLeft) + d
      && (written + d)[popped..] == Unread(fragments + [d], left)
  {
    if fragments == [] {
      assert Unread([d], |d|) == d[0..] + Concat([]);
    } else {
      UnreadAppend(fragments, frontLeft, d);
    }
    assert (written + d)[popped..] == written[popped..] + d;
  }

  /** Dropping the front fragment consumes exactly its unread bytes. */
  lemma UnreadDropFront(fragments: seq<seq<byte>>, frontLeft: nat)
    requires WellFormed(fragments, frontLeft) && fragments != []
    ensures var rest := fragments[1..];
      var left := if rest == [] then 0 else |rest[0]|;
      WellFormed(rest, left) && Unread(rest, left) == Unread(fragments, frontLeft)[frontLeft..]
  {
    var rest := fragments[1..];
    if rest != [] {
      assert rest[0][|rest[0]| - |rest[0]|..] == rest[0];
    }
  }

  /** Consuming part of the front fragment. */
  lemma UnreadShrinkFront(fragments: seq<seq<byte>>, frontLeft: nat, n: nat)
    requires WellFormed(fragments, frontLeft) && n < frontLeft
    ensures WellFormed(fragments, frontLeft - n)
    ensures Unread(fragments, frontLeft - n) == Unread(fragments, frontLeft)[n..]
  {
    var f := fragments[0];
    var front := f[|f| - frontLeft..];
    var others := Concat(fragments[1..]);
    assert f[|f| - (frontLeft - n)..] == front[n..];
    assert Unread(fragments, frontLeft - n) == front[n..] + others;
    assert Unread(fragments, frontLeft) == front + others;
    DropAppend(front, others, n);
  }

  /**
   * The loop of `pop`: consume `n` bytes fragment by fragment, dropping each
   * fragment that is used up and shortening the front one otherwise.
   */
  method ConsumeFront(fragments: seq<seq<byte>>, frontLeft: nat, n: nat)
    returns (queue: seq<seq<byte>>, left: nat)
    requires WellFormed(fragments, frontLeft)
    requires n <= |Unread(fragments, frontLeft)|
    ensures WellFormed(queue, left)
    ensures Unread(queue, left) == Unread(fragments, frontLeft)[n..]
    ensures n == 0 ==> queue == fragments && left == frontLeft
  {
    queue, left := fragments, frontLeft;
    var todo: nat := n;
    ghost var all := Unread(fragments, frontLeft);
    while todo > 0
      invariant todo <= n
      invariant WellFormed(queue, left)
      invariant Unread(queue, left) == all[n - todo..]
      invariant todo == n ==> queue == fragments && left == frontLeft
    {
      ghost var now := Unread(queue, left);
      if todo >= left {
        UnreadDropFront(queue, left);
        assert now[left..] == all[n - (todo - left)..];
        todo := todo - left;
        queue := queue[1..];
        // the source reads the next fragment's size even when the queue
        // has just become empty; here the count is then 0
        left := if queue == [] then 0 else |queue[0]|;
      } else {
        UnreadShrinkFront(queue, left, todo);
        assert now[todo..] == all[n..];
        left := left - todo;
        todo := 0;
      }
    }
  }

  class ByteStream {
    const capacity: nat
    var fragments: seq<seq<byte>>
    var frontLeft: nat
    var amount: nat
    var totalPushed: nat
    var totalPopped: nat
    var closed: bool
    var error: bool
    /** Every byte the stream ever accepted, in order. */
    ghost var written: seq<byte>

    /** The bytes buffered in the stream, oldest first. */
    ghost function Buffered(): seq<byte>
      reads this
      requires WellFormed(fragments, frontLeft)
    {
      Unread(fragments, frontLeft)
    }

    ghost predicate Valid()
      reads this
    {
      && WellFormed(fragments, frontLeft)
      && amount == |Buffered()|
      && amount <= capacity
      && totalPushed == |written|
      && totalPopped + amount == totalPushed
      && written[totalPopped..] == Buffered()
    }

    constructor (capacity: nat)
      ensures Valid()
      ensures this.capacity == capacity
      ensures Buffered() == [] && written == []
      ensures totalPushed == 0 && totalPopped == 0
      ensures !closed && !error
    {
      this.capacity := capacity;
      fragments := [];
      frontLeft := 0;
      amount := 0;
      totalPushed := 0;
      totalPopped := 0;
      closed := false;
      error := false;
      written := [];
    }

    /** Free room in the buffer. */
    function AvailableCapacity(): (n: nat)
      reads this
      requires Valid()
      ensures n + |Buffered()| == capacity
    {
      capacity - amount
    }

    /** The number of bytes accepted so far. */
    function BytesPushed(): (n: nat)
      reads this
      requires Valid()
      ensures n == |written|
    {
      totalPushed
    }

    /** The number of bytes consumed so far: everything written before the buffered bytes. */
    function BytesPopped(): (n: nat)
      reads this
      requires Valid()
      ensures n + |Buffered()| == |written|
      ensures written == written[..n] + Buffered()
    {
      totalPopped
    }

    function BytesBuffered(): (n: nat)
      reads this
      requires Valid()
      ensures n == |Buffered()|
      ensures n == BytesPushed() - BytesPopped()
    {
      amount
    }

    /** Closed and drained. */
    function IsFinished(): (b: bool)
      reads this
      requires Valid()
      ensures b <==> closed && Buffered() == []
    {
      amount == 0 && closed
    }

    /**
     * The unread part of the front fragment: a prefix of the buffered
     * bytes, empty exactly when nothing is buffered.
     */
    function Peek(): (view: seq<byte>)
      reads this
      requires Valid()
      ensures view <= Buffered()
      ensures view == [] <==> Buffered() == []
    {
      if amount == 0 || fragments == [] then []
      else fragments[0][|fragments[0]| - frontLeft..]
    }

    /**
     * Accepts the first min(available capacity, |data|) bytes of `data`;
     * does not look at the closed flag.
     */
    method Push(data: seq<byte>)
      requires Valid()
      modifies this
      ensures Valid()
      ensures var n := Min(old(AvailableCapacity()), |data|);
        && Buffered() == old(Buffered()) + data[..n]
        && written == old(written) + data[..n]
        && (n == 0 ==> unchanged(this))
      ensures totalPopped == old(totalPopped)
      ensures closed == old(closed) && error == old(error)
    {
      var free := capacity - amount;
      var n := Min(free, |data|);
      if n == 0 {
        return;
      }
      Append(data[..n]);
    }

    /** Queues `piece`, which fits in the free capacity, as one more fragment. */
    method Append(piece: seq<byte>)
      requires Valid() && piece != [] && |piece| <= capacity - amount
      modifies this`fragments, this`frontLeft, this`totalPushed, this`amount, this`written
      ensures Valid()
      ensures Buffered() == old(Buffered()) + piece && written == old(written) + piece
    {
      var left := if fragments == [] then |piece| else frontLeft;
      Enqueue(fragments, frontLeft, written, totalPopped, piece);
      fragments, frontLeft := fragments + [piece], left;
      totalPushed, amount, written := totalPushed + |piece|, amount + |piece|, written + piece;
    }

    /** Marks the stream closed; buffered bytes stay. */
    method Close()
      requires Valid()
      modifies this`closed
      ensures Valid() && closed
      ensures Buffered() == old(Buffered()) && AvailableCapacity() == old(AvailableCapacity())
    {
      closed := true;
    }

    /** Raises the sticky error flag. */
    method SetError()
      requires Valid()
      modifies this`error
      ensures Valid() && error
    {
      error := true;
    }

    /** Consumes `len` buffered bytes from the front, walking the fragment queue. */
    method Pop(len: nat)
      requires Valid()
      requires len <= BytesBuffered()
      modifies this
      ensures Valid()
      ensures Buffered() == old(Buffered())[len..]
      ensures totalPopped == old(totalPopped) + len
      ensures written == old(written) && totalPushed == old(totalPushed)
      ensures closed == old(closed) && error == old(error)
      ensures len == 0 ==> unchanged(this)
    {
      var queue, left := ConsumeFront(fragments, frontLeft, len);
      totalPopped := totalPopped + len;
      amount := amount - len;
      fragments, frontLeft := queue, left;
    }

    /**
     * One round of `read`: peek at the front fragment, keep as much of it as
     * is still `wanted`, and pop that much.
     */
    method TakeFront(wanted: nat) returns (piece: seq<byte>)
      requires Valid() && amount > 0 && wanted > 0
      modifies this
      ensures Valid()
      ensures 0 < |piece| <= wanted
      ensures old(Buffered()) == piece + Buffered()
      ensures written == old(written) && totalPushed == old(totalPushed)
      ensures closed == old(closed) && error == old(error)
    {
      var view := Peek();
      var take := Min(|view|, wanted);
      ghost var rest := Buffered();
      assert view[..take] == rest[..take];
      assert rest == rest[..take] + rest[take..];
      piece := view[..take];
      Pop(take);
    }

    /**
     * Takes up to `len` bytes from the front (the stream's `read` helper):
     * peek at the front fragment, keep as much of it as still wanted, pop
     * that much, repeat.
     */
    method Read(len: nat) returns (out: seq<byte>)
      requires Valid()
      modifies this
      ensures Valid()
      ensures var n := Min(len, |old(Buffered())|);
        out == old(Buffered())[..n] && Buffered() == old(Buffered())[n..]
      ensures totalPopped == old(totalPopped) + |out|
      ensures written == old(written) && totalPushed == old(totalPushed)
      ensures closed == old(closed) && error == old(error)
    {
      ghost var before := Buffered();
      out := [];
      while amount > 0 && |out| < len
        invariant Valid()
        invariant |out| <= len
        invariant before == out + Buffered()
        invariant written == old(written) && totalPushed == old(totalPushed)
        invariant closed == old(closed) && error == old(error)
        decreases amount
      {
        var piece := TakeFront(len - |out|);
        assert before == (out + piece) + Buffered();
        out := out + piece;
      }
      if |out| == len {
        assert out == before[..len];
      } else {
        assert Buffered() == [] && out == before;
      }
    }
  }

  /**
   * An example: a stream of capacity 2 takes "ab" of "ab" then "cd"; after
   * one byte is popped, "b" is what a peek shows and one byte is free.
   */
  method TwoByteScenario() returns (view: seq<byte>, free: nat, pushed: nat)
    ensures view == [98] && free == 1 && pushed == 2
  {
    var stream := new ByteStream(2);
    stream.Push([97, 98]);
    stream.Push([99, 100]);
    assert stream.Buffered() == [97, 98];
    stream.Pop(1);
    view := stream.Peek();
    free := stream.AvailableCapacity();
    pushed := stream.BytesPushed();
  }
}
