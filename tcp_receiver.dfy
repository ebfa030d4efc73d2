// The receiving side of the TCP connection: it learns the initial sequence
// number from the SYN, turns sequence numbers into stream indices, feeds
// payloads to the reassembler, and reports the acknowledgment number and
// the window it can accept.
module Receiver {
  import opened Common
  import opened WrappingIntegers
  import opened Messages
  import opened ByteStreams
  import opened PendingRanges
  import opened Reassembly

  /** `UINT16_MAX`, the largest window a receiver message can carry. */
  const WINDOW_MAX: nat := TWO_16 - 1

  /** The unwrap checkpoint: the absolute sequence number after the pushed bytes, as a uint64. */
  function Checkpoint(pushed: nat): (c: u64)
    ensures pushed + 1 < TWO_64 ==> c == pushed + 1
  {
    (pushed + 1) % TWO_64
  }

  /**
   * The stream index of a segment's first payload byte (line 18 of
   * tcp_receiver.cc): the seqno, moved past the SYN when there is one,
   * unwrapped near the checkpoint, minus one for the SYN's own sequence
   * number, in uint64 arithmetic. One more than it wraps back to that
   * sequence number.
   */
  function StreamIndex(seqno: Wrap32, syn: bool, zeroPoint: Wrap32, checkpoint: u64): (i: u64)
    ensures Wrap(i + 1, zeroPoint) == (if syn then Plus(seqno, 1) else seqno)
  {
    var absolute := Unwrap(if syn then Plus(seqno, 1) else seqno, zeroPoint, checkpoint);
    if absolute == 0 then
      WrapPeriodic(0, TWO_32, zeroPoint);
      TWO_64 - 1
    else
      absolute - 1
  }

  /** The acknowledgment number: the next byte expected, after the SYN and, once closed, the FIN. */
  function Ackno(pushed: nat, closed: bool, zeroPoint: Wrap32): (r: Wrap32)
    ensures Offset(r, zeroPoint) == (pushed + 1 + (if closed then 1 else 0)) % TWO_32
  {
    var next := pushed + 1 + (if closed then 1 else 0);
    WrapResidue(next, zeroPoint, Wrap(next, zeroPoint));
    Wrap(next, zeroPoint)
  }

  /** The ackno unwraps, at the checkpoint it names, to the absolute sequence number of the next expected byte. */
  lemma AcknoUnwraps(pushed: nat, closed: bool, zeroPoint: Wrap32)
    requires pushed + 2 < TWO_64
    ensures var next := pushed + 1 + (if closed then 1 else 0);
      Unwrap(Ackno(pushed, closed, zeroPoint), zeroPoint, next) == next
  {
    UnwrapWrap(pushed + 1 + (if closed then 1 else 0), zeroPoint);
  }

  /** The segment that carries the next expected byte maps to the index of that byte. */
  lemma InOrderIndex(pushed: nat, zeroPoint: Wrap32)
    requires pushed + 1 < TWO_64
    ensures StreamIndex(Wrap(pushed + 1, zeroPoint), false, zeroPoint, Checkpoint(pushed)) == pushed
  {
    UnwrapWrap(pushed + 1, zeroPoint);
  }

  /** A SYN carrying the initial sequence number puts its payload at index 0. */
  lemma SynIndex(isn: Wrap32)
    ensures StreamIndex(isn, true, isn, Checkpoint(0)) == 0
  {
    assert Plus(isn, 1) == Wrap(1, isn);
    UnwrapWrap(1, isn);
  }

  class TCPReceiver {
    /** The reassembler, which owns the inbound stream. */
    const reassembler: Reassembler
    /** The initial sequence number, once a SYN was seen (`zero_point_`). */
    var zeroPoint: Wrap32
    /** The acknowledgment number; none before the first SYN (`ack_`). */
    var ack: Option<Wrap32>

    ghost predicate Valid()
      reads this, reassembler, reassembler.output
    {
      && reassembler.Valid()
      && (ack.Some? ==> ack.value == Ackno(reassembler.output.totalPushed, reassembler.output.closed, zeroPoint))
      && (ack.None? ==> reassembler.State() == ReassemblyState([], 0, None, false))
    }

    /** A receiver whose stream has the given capacity. */
    constructor (capacity: nat)
      ensures Valid() && fresh(reassembler) && fresh(reassembler.output)
      ensures reassembler.output.capacity == capacity
      ensures ack.None?
    {
      reassembler := new Reassembler(capacity);
      zeroPoint := Wrap32(0);
      ack := None;
    }

    /**
     * `receive(message)`: an RST only raises the stream's error; a SYN
     * records the initial sequence number; once synchronized, the payload
     * goes to the reassembler at its stream index and the ackno follows the
     * pushed bytes. Before the first SYN nothing changes.
     */
    method Receive(message: TCPSenderMessage)
      requires Valid()
      modifies this, reassembler, reassembler.output
      ensures Valid()
      ensures message.rst ==>
        && reassembler.output.error
        && ack == old(ack) && zeroPoint == old(zeroPoint)
        && reassembler.State() == old(reassembler.State())
        && reassembler.output.written == old(reassembler.output.written)
        && reassembler.output.Buffered() == old(reassembler.output.Buffered())
      ensures !message.rst && message.syn ==> zeroPoint == message.seqno && ack.Some?
      ensures !message.rst && !message.syn ==> zeroPoint == old(zeroPoint)
      ensures !message.rst && !message.syn && old(ack).None? ==>
        unchanged(this) && unchanged(reassembler) && unchanged(reassembler.output)
      ensures !message.rst && (message.syn || old(ack).Some?) ==>
        var index := StreamIndex(message.seqno, message.syn, zeroPoint, Checkpoint(old(reassembler.output.totalPushed)));
        var step := InsertStep(old(reassembler.State()), old(reassembler.output.AvailableCapacity()),
                               index, message.payload, message.fin);
        && reassembler.State() == step.after
        && reassembler.output.written == old(reassembler.output.written) + step.pushed
        && reassembler.output.Buffered() == old(reassembler.output.Buffered()) + step.pushed
        && ack == Some(Ackno(|reassembler.output.written|, reassembler.output.closed, zeroPoint))
    {
      if message.rst {
        reassembler.output.SetError();
        return;
      }
      if message.syn {
        zeroPoint := message.seqno;
        ack := Some(message.seqno);
      }
      if ack.Some? {
        var checkPoint := Checkpoint(reassembler.output.BytesPushed());
        var firstIndex := StreamIndex(message.seqno, message.syn, zeroPoint, checkPoint);
        Deliver(firstIndex, message.payload, message.fin);
      }
    }

    /**
     * Lines 18-21 of tcp_receiver.cc: the payload goes to the reassembler
     * at its stream index, and the ackno then follows the pushed bytes and
     * the stream's closing.
     */
    method Deliver(firstIndex: u64, payload: seq<byte>, fin: bool)
      requires reassembler.Valid()
      modifies this`ack, reassembler, reassembler.output
      ensures reassembler.Valid()
      ensures var step := InsertStep(old(reassembler.State()), old(reassembler.output.AvailableCapacity()),
                                     firstIndex, payload, fin);
        && reassembler.State() == step.after
        && reassembler.output.written == old(reassembler.output.written) + step.pushed
        && reassembler.output.Buffered() == old(reassembler.output.Buffered()) + step.pushed
      ensures ack == Some(Ackno(reassembler.output.totalPushed, reassembler.output.closed, zeroPoint))
    {
      ghost var step := InsertStep(reassembler.State(), reassembler.output.AvailableCapacity(),
                                   firstIndex, payload, fin);
      reassembler.Insert(firstIndex, payload, fin);
      assert reassembler.State() == step.after;
      ack := Some(Ackno(reassembler.output.BytesPushed(), reassembler.output.closed, zeroPoint));
    }

    /**
     * `send()`: the ackno, a window of the free room capped at 65535, and
     * the stream's error flag.
     */
    function Send(): (m: TCPReceiverMessage)
      reads this, reassembler, reassembler.output
      requires Valid()
      ensures m.ackno.None? <==> ack.None?
      ensures m.ackno.Some? ==>
        m.ackno.value == Ackno(|reassembler.output.written|, reassembler.output.closed, zeroPoint)
      ensures m.windowSize <= reassembler.output.AvailableCapacity()
      ensures m.windowSize < WINDOW_MAX ==> m.windowSize == reassembler.output.AvailableCapacity()
      ensures m.rst == reassembler.output.error
    {
      TCPReceiverMessage(ack, Min(reassembler.output.AvailableCapacity(), WINDOW_MAX), reassembler.output.error)
    }
  }
}
