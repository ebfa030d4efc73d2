// The sending side of the TCP connection: it cuts the outbound stream into
// segments that fit the peer's window, keeps the unacknowledged ones in
// order of their absolute sequence numbers, drops them as acknowledgments
// arrive, and retransmits the earliest one when the retransmission timer
// expires. The `transmit` callback is the ghost list `sent` of every
// segment handed to it.
module Sender {
  import opened Common
  import opened WrappingIntegers
  import opened Messages
  import opened ByteStreams

  /** `TCPConfig::MAX_PAYLOAD_SIZE`. */
  const MAX_PAYLOAD_SIZE: nat := 1000

  /** An outstanding segment, keyed by the absolute sequence number of its first slot. */
  datatype Outstanding = Outstanding(start: nat, msg: TCPSenderMessage)
  {
    /** One past the last absolute sequence number the segment occupies. */
    function End(): nat { start + SequenceLength(msg) }
  }

  /** The sequence numbers the segments occupy, summed. */
  function InFlight(segs: seq<Outstanding>): nat
  {
    if segs == [] then 0 else SequenceLength(segs[0].msg) + InFlight(segs[1..])
  }

  /** The segments' messages, in order. */
  function SentMessages(segs: seq<Outstanding>): seq<TCPSenderMessage>
  {
    if segs == [] then [] else SentMessages(segs[..|segs| - 1]) + [segs[|segs| - 1].msg]
  }

  /** The segments' payloads, concatenated in order. */
  function Payloads(segs: seq<Outstanding>): seq<byte>
  {
    if segs == [] then [] else Payloads(segs[..|segs| - 1]) + segs[|segs| - 1].msg.payload
  }

  /**
   * The segments tile the absolute sequence numbers `from` up to `to`: each
   * one starts where the previous one ends and occupies at least one.
   */
  ghost predicate Chain(segs: seq<Outstanding>, from: nat, to: nat)
    decreases |segs|
  {
    if segs == [] then from == to
    else segs[0].start == from && SequenceLength(segs[0].msg) > 0 && Chain(segs[1..], segs[0].End(), to)
  }

  /** Tiled segments are in flight for exactly the span they tile. */
  lemma {:induction false} ChainInFlight(segs: seq<Outstanding>, from: nat, to: nat)
    requires Chain(segs, from, to)
    ensures from + InFlight(segs) == to
    ensures InFlight(segs) == 0 <==> segs == []
    decreases |segs|
  {
    if segs != [] {
      ChainInFlight(segs[1..], segs[0].End(), to);
    }
  }

  /** A segment sent at the end of the tiled span extends it. */
  lemma {:induction false} ChainAppend(segs: seq<Outstanding>, from: nat, to: nat, m: TCPSenderMessage)
    requires Chain(segs, from, to) && SequenceLength(m) > 0
    ensures Chain(segs + [Outstanding(to, m)], from, to + SequenceLength(m))
    decreases |segs|
  {
    var o := Outstanding(to, m);
    if segs == [] {
      assert [o][1..] == [];
    } else {
      assert (segs + [o])[1..] == segs[1..] + [o];
      ChainAppend(segs[1..], segs[0].End(), to, m);
    }
  }

  /** Tiled segments are ordered by start, each ending no later than the next one starts. */
  lemma {:induction false} ChainOrdered(segs: seq<Outstanding>, from: nat, to: nat)
    requires Chain(segs, from, to)
    ensures forall i :: 0 <= i < |segs| ==> from <= segs[i].start < segs[i].End() <= to
    ensures forall i, j :: 0 <= i < j < |segs| ==> segs[i].End() <= segs[j].start
    decreases |segs|
  {
    if segs != [] {
      var tail := segs[1..];
      ChainOrdered(tail, segs[0].End(), to);
      forall i, j | 0 <= i < j < |segs|
        ensures segs[i].End() <= segs[j].start
      {
        assert segs[j] == tail[j - 1];
        if i > 0 {
          assert segs[i] == tail[i - 1];
        }
      }
      forall i | 0 <= i < |segs|
        ensures from <= segs[i].start < segs[i].End() <= to
      {
        if i > 0 {
          assert segs[i] == tail[i - 1];
        }
      }
    }
  }

  lemma MessagesAppend(segs: seq<Outstanding>, o: Outstanding)
    ensures SentMessages(segs + [o]) == SentMessages(segs) + [o.msg]
    ensures Payloads(segs + [o]) == Payloads(segs) + o.msg.payload
  {
    assert (segs + [o])[..|segs|] == segs;
  }

  /**
   * How many leading segments an acknowledgment of absolute sequence
   * number `ackno` covers completely (the erase loop of `receive`).
   */
  function AckedPrefix(segs: seq<Outstanding>, ackno: nat): (k: nat)
    ensures k <= |segs|
    ensures forall i :: 0 <= i < k ==> segs[i].End() <= ackno
    ensures k < |segs| ==> segs[k].End() > ackno
    decreases |segs|
  {
    if segs == [] || segs[0].End() > ackno then 0 else 1 + AckedPrefix(segs[1..], ackno)
  }

  /**
   * On tiled segments the acknowledged prefix is exactly the set of
   * segments ending at or before the ackno; a partial acknowledgment of
   * the earliest segment removes nothing.
   */
  lemma AckedExactly(segs: seq<Outstanding>, from: nat, to: nat, ackno: nat)
    requires Chain(segs, from, to)
    ensures forall i :: 0 <= i < |segs| ==> (i < AckedPrefix(segs, ackno) <==> segs[i].End() <= ackno)
    ensures segs != [] && ackno < segs[0].End() ==> AckedPrefix(segs, ackno) == 0
    ensures ackno >= to ==> AckedPrefix(segs, ackno) == |segs|
  {
    ChainOrdered(segs, from, to);
    var k := AckedPrefix(segs, ackno);
    forall i | k < i < |segs|
      ensures segs[i].End() > ackno
    {
      assert segs[k].End() <= segs[i].start;
    }
  }

  /**
   * Where an ackno lands (lines 116-121 of tcp_sender.cc): unwrapped near
   * the next sequence number to send, and ignored when it lies beyond it.
   */
  function AckTarget(ackno: Option<Wrap32>, isn: Wrap32, minSeqno: nat): (r: Option<nat>)
    ensures r.Some? ==> ackno.Some? && r.value <= minSeqno && Wrap(r.value, isn) == ackno.value
    ensures ackno.Some? && Unwrap(ackno.value, isn, minSeqno % TWO_64) <= minSeqno ==>
      r == Some(Unwrap(ackno.value, isn, minSeqno % TWO_64))
  {
    if ackno.None? then None
    else
      var absolute := Unwrap(ackno.value, isn, minSeqno % TWO_64);
      if absolute > minSeqno then None else Some(absolute)
  }

  /** The window `push` fills: the peer's window, or 1 when it is zero. */
  function EffectiveWindow(window: u16): (e: nat)
    ensures e >= 1 && e >= window
    ensures window > 0 ==> e == window
    ensures window == 0 ==> e == 1
  {
    if window == 0 then 1 else window
  }

  /** The retransmission timer and its backoff state. */
  datatype Timer = Timer(running: bool, elapsed: nat, rto: nat, retransmissions: nat)

  /**
   * `tick`: a stopped timer ignores time; a running one that reaches its
   * RTO either stops (nothing outstanding) or asks for the earliest segment
   * to be retransmitted, counts it, doubles the RTO when the window is
   * open, and restarts. The second component says whether it retransmits.
   */
  function TickTimer(t: Timer, ms: nat, outstanding: bool, windowOpen: bool): (r: (Timer, bool))
    ensures r.1 <==> t.running && t.elapsed + ms >= t.rto && outstanding
    ensures r.0.running <==> t.running && (outstanding || t.elapsed + ms < t.rto)
    ensures !t.running ==> r.0 == t
    ensures !r.1 ==> r.0.rto == t.rto && r.0.retransmissions == t.retransmissions
    ensures r.1 ==> r.0 == Timer(true, 0, if windowOpen then 2 * t.rto else t.rto, t.retransmissions + 1)
    ensures t.running && t.elapsed + ms < t.rto ==> r.0 == t.(elapsed := t.elapsed + ms)
  {
    if !t.running then (t, false)
    else
      var elapsed := t.elapsed + ms;
      if elapsed < t.rto then (t.(elapsed := elapsed), false)
      else if !outstanding then (t.(running := false, elapsed := elapsed), false)
      else (Timer(true, 0, if windowOpen then t.rto * 2 else t.rto, t.retransmissions + 1), true)
  }

  function Pow2(n: nat): (p: nat)
    ensures p >= 1
  {
    if n == 0 then 1 else 2 * Pow2(n - 1)
  }

  /** `n` ticks in a row that each last a whole RTO while segments stay outstanding. */
  function Expire(t: Timer, n: nat, windowOpen: bool): Timer
    decreases n
  {
    if n == 0 then t else Expire(TickTimer(t, t.rto, true, windowOpen).0, n - 1, windowOpen)
  }

  /** Exponential backoff: `n` expiries with an open window multiply the RTO by 2^n. */
  lemma {:induction false} ExponentialBackoff(t: Timer, n: nat)
    requires t.running
    ensures var r := Expire(t, n, true);
      && r.running
      && r.rto == t.rto * Pow2(n)
      && r.retransmissions == t.retransmissions + n
      && (n > 0 ==> r.elapsed == 0)
    decreases n
  {
    if n > 0 {
      var next := TickTimer(t, t.rto, true, true).0;
      assert next == Timer(true, 0, t.rto * 2, t.retransmissions + 1);
      ExponentialBackoff(next, n - 1);
      assert t.rto * 2 * Pow2(n - 1) == t.rto * Pow2(n);
    }
  }

  /** With the peer's window at zero, expiries retransmit without backing off. */
  lemma {:induction false} ZeroWindowNoBackoff(t: Timer, n: nat)
    requires t.running
    ensures var r := Expire(t, n, false);
      && r.running
      && r.rto == t.rto
      && r.retransmissions == t.retransmissions + n
    decreases n
  {
    if n > 0 {
      ZeroWindowNoBackoff(TickTimer(t, t.rto, true, false).0, n - 1);
    }
  }

  /** The RTO bound the sender keeps survives one more retransmission. */
  lemma RtoBoundStep(initial: nat, rto: nat, count: nat)
    requires rto <= initial * Pow2(count)
    ensures rto <= initial * Pow2(count + 1)
    ensures rto * 2 <= initial * Pow2(count + 1)
  {
    assert initial * Pow2(count + 1) == 2 * (initial * Pow2(count));
  }

  /**
   * What every recorded segment satisfies: its seqno is its start wrapped
   * around the ISN, its payload fits MAX_PAYLOAD_SIZE, and it carries the
   * SYN exactly when it starts at absolute sequence number 0.
   */
  predicate SegmentOk(o: Outstanding, isn: Wrap32)
  {
    && o.msg.seqno == Wrap(o.start, isn)
    && |o.msg.payload| <= MAX_PAYLOAD_SIZE
    && (o.msg.syn <==> o.start == 0)
  }

  ghost predicate AllSegmentsOk(segs: seq<Outstanding>, isn: Wrap32)
  {
    forall i :: 0 <= i < |segs| ==> SegmentOk(segs[i], isn)
  }

  /** The RTO is the initial one, doubled at most once per consecutive retransmission. */
  ghost predicate RtoBounded(initial: nat, rto: nat, count: nat)
  {
    && initial <= rto <= initial * Pow2(count)
    && (count == 0 ==> rto == initial)
  }

  lemma AllSegmentsOkAppend(segs: seq<Outstanding>, o: Outstanding, isn: Wrap32)
    requires AllSegmentsOk(segs, isn) && SegmentOk(o, isn)
    ensures AllSegmentsOk(segs + [o], isn)
  {
    forall i | 0 <= i < |segs + [o]|
      ensures SegmentOk((segs + [o])[i], isn)
    {
      if i < |segs| {
        assert (segs + [o])[i] == segs[i];
      }
    }
  }

  /**
   * What the segments one `push` sends satisfy: each is well formed and
   * carries the stream's error flag; only the first carries the SYN, and
   * only if it was unsent before; a FIN, unsent before, comes last; and the
   * FIN is sent afterwards exactly when it was before or the last segment
   * carries it.
   */
  ghost predicate PushedOk(added: seq<Outstanding>, isn: Wrap32, error: bool, synBefore: bool,
                           finBefore: bool, finNow: bool)
  {
    && (forall i :: 0 <= i < |added| ==> SegmentOk(added[i], isn) && added[i].msg.rst == error)
    && (forall i :: 0 <= i < |added| ==> (added[i].msg.syn <==> i == 0 && !synBefore))
    && (forall i :: 0 <= i < |added| && added[i].msg.fin ==> i == |added| - 1 && !finBefore)
    && (finNow <==> finBefore || (added != [] && added[|added| - 1].msg.fin))
  }

  lemma PushedOkStep(added: seq<Outstanding>, o: Outstanding, isn: Wrap32, error: bool, synBefore: bool,
                     finBefore: bool, finNow: bool)
    requires PushedOk(added, isn, error, synBefore, finBefore, finNow)
    requires SegmentOk(o, isn) && o.msg.rst == error
    requires o.msg.syn <==> added == [] && !synBefore
    requires added != [] ==> !added[|added| - 1].msg.fin
    requires o.msg.fin ==> !finBefore && !finNow
    ensures PushedOk(added + [o], isn, error, synBefore, finBefore, finNow || o.msg.fin)
  {
    var next := added + [o];
    forall i | 0 <= i < |next|
      ensures SegmentOk(next[i], isn) && next[i].msg.rst == error
      ensures next[i].msg.syn <==> i == 0 && !synBefore
      ensures next[i].msg.fin ==> i == |next| - 1 && !finBefore
    {
      if i < |added| {
        assert next[i] == added[i];
      }
    }
  }

  lemma AllSegmentsOkSuffix(segs: seq<Outstanding>, k: nat, isn: Wrap32)
    requires AllSegmentsOk(segs, isn) && k <= |segs|
    ensures AllSegmentsOk(segs[k..], isn)
  {
    forall i | 0 <= i < |segs| - k
      ensures SegmentOk(segs[k..][i], isn)
    {
      assert segs[k..][i] == segs[k + i];
    }
  }

  /**
   * The erase loop of `receive` (lines 124-140 of tcp_sender.cc): drop the
   * leading segments that end at or before `ackno`, taking their sequence
   * numbers off the in-flight count. `acknowledged` says whether any went.
   */
  method RemoveAcknowledged(segments: seq<Outstanding>, inFlight: nat, to: nat, ackno: nat)
    returns (segs: seq<Outstanding>, flight: nat, acknowledged: bool)
    requires inFlight <= to && Chain(segments, to - inFlight, to)
    ensures segs == segments[AckedPrefix(segments, ackno)..]
    ensures acknowledged <==> AckedPrefix(segments, ackno) > 0
    ensures flight <= to && Chain(segs, to - flight, to)
  {
    acknowledged := false;
    segs, flight := segments, inFlight;
    ghost var removed: nat := 0;
    while segs != []
      invariant removed <= |segments| && segs == segments[removed..]
      invariant flight <= to && Chain(segs, to - flight, to)
      invariant AckedPrefix(segments, ackno) == removed + AckedPrefix(segs, ackno)
      invariant acknowledged <==> removed > 0
    {
      var segStart := segs[0].start;
      var segEnd := segStart + SequenceLength(segs[0].msg);
      if segEnd <= ackno {
        ChainInFlight(segs, to - flight, to);
        flight := flight - SequenceLength(segs[0].msg);
        acknowledged := true;
        segs := segs[1..];
        removed := removed + 1;
      } else {
        break;
      }
    }
  }

  /** The parts of a sender's state `push` relates its result to. */
  datatype Snapshot = Snapshot(
    outstanding: seq<Outstanding>, sent: seq<TCPSenderMessage>, buffered: seq<byte>,
    synSent: bool, finSent: bool, inFlight: nat, windowSize: u16, currentRto: nat,
    retransmissions: nat, written: seq<byte>, closed: bool, error: bool)

  class TCPSender {
    /** The outbound stream the application writes into. */
    const input: ByteStream
    const isn: Wrap32
    const initialRto: u64
    var timerRunning: bool
    var elapsed: nat
    var currentRto: nat
    var inFlight: nat
    var consecutiveRetransmissions: nat
    var synSent: bool
    var finSent: bool
    /** The absolute sequence number of the next slot to send. */
    var minSeqno: nat
    var windowSize: u16
    /** The unacknowledged segments, ordered by start (`_outstanding_segments`). */
    var outstanding: seq<Outstanding>
    /** Every message handed to `transmit`, in order. */
    ghost var sent: seq<TCPSenderMessage>

    ghost function TimerState(): Timer
      reads this
    {
      Timer(timerRunning, elapsed, currentRto, consecutiveRetransmissions)
    }

    /** The sequence numbers used so far: the SYN, every byte read from the input, the FIN. */
    ghost function SeqnosUsed(): nat
      reads this, input
    {
      (if synSent then 1 else 0) + input.totalPopped + (if finSent then 1 else 0)
    }

    /** Everything the sender keeps, apart from where the next sequence number lies. */
    ghost predicate Sound()
      reads this, input
    {
      && input.Valid()
      && inFlight <= minSeqno
      && Chain(outstanding, minSeqno - inFlight, minSeqno)
      && AllSegmentsOk(outstanding, isn)
      && (finSent ==> synSent)
      && (!synSent ==> input.totalPopped == 0)
      && (outstanding != [] ==> timerRunning)
      && RtoBounded(initialRto, currentRto, consecutiveRetransmissions)
    }

    ghost predicate Valid()
      reads this, input
    {
      Sound() && minSeqno == SeqnosUsed()
    }

    /** A sender over a fresh stream of the given capacity. */
    constructor (capacity: nat, isn: Wrap32, initialRto: u64)
      ensures Valid() && fresh(input)
      ensures input.capacity == capacity && input.Buffered() == []
      ensures this.isn == isn && this.initialRto == initialRto
      ensures TimerState() == Timer(false, 0, initialRto, 0)
      ensures inFlight == 0 && outstanding == [] && sent == []
      ensures !synSent && !finSent && minSeqno == 0
      ensures windowSize == 1
    {
      input := new ByteStream(capacity);
      this.isn := isn;
      this.initialRto := initialRto;
      timerRunning := false;
      elapsed := 0;
      currentRto := initialRto;
      inFlight := 0;
      consecutiveRetransmissions := 0;
      synSent := false;
      finSent := false;
      minSeqno := 0;
      windowSize := 1;
      outstanding := [];
      sent := [];
    }

    /** `sequence_numbers_in_flight()`: the sequence numbers of the outstanding segments. */
    function SequenceNumbersInFlight(): (n: nat)
      reads this, input
      requires Valid()
      ensures n == InFlight(outstanding)
      ensures n == 0 <==> outstanding == []
    {
      ChainInFlight(outstanding, minSeqno - inFlight, minSeqno);
      inFlight
    }

    /**
     * `consecutive_retransmissions()`: with none the RTO is the initial
     * one, and the RTO never exceeds the initial one doubled that many times.
     */
    function ConsecutiveRetransmissions(): (n: nat)
      reads this, input
      requires Valid()
      ensures n == 0 ==> currentRto == initialRto
      ensures initialRto <= currentRto <= initialRto * Pow2(n)
    {
      consecutiveRetransmissions
    }

    /** `make_empty_message()`: a segment occupying no sequence number, at the next one. */
    function MakeEmptyMessage(): (m: TCPSenderMessage)
      reads this, input
      requires Valid()
      ensures SequenceLength(m) == 0
      ensures m.seqno == Wrap(minSeqno, isn)
      ensures m.rst == input.error
    {
      TCPSenderMessage(Wrap(minSeqno, isn), false, [], false, input.error)
    }

    /** `writer().push(data)`. */
    method Write(data: seq<byte>)
      requires Valid()
      modifies input
      ensures Valid()
      ensures input.Buffered() == old(input.Buffered()) + data[..Min(old(input.AvailableCapacity()), |data|)]
    {
      input.Push(data);
    }

    /** `writer().close()`. */
    method CloseInput()
      requires Valid()
      modifies input`closed
      ensures Valid() && input.closed
    {
      input.Close();
    }

    /**
     * Records a just-built segment at the next sequence number and hands it
     * to `transmit`, starting the timer if it is stopped (lines 77-88).
     */
    method Record(msg: TCPSenderMessage)
      requires Sound()
      requires SequenceLength(msg) > 0 && minSeqno + SequenceLength(msg) == SeqnosUsed()
      requires msg.seqno == Wrap(minSeqno, isn) && |msg.payload| <= MAX_PAYLOAD_SIZE
      requires msg.syn <==> minSeqno == 0
      modifies this`outstanding, this`minSeqno, this`inFlight, this`sent, this`timerRunning, this`elapsed
      ensures Valid()
      ensures outstanding == old(outstanding) + [Outstanding(old(minSeqno), msg)]
      ensures minSeqno == old(minSeqno) + SequenceLength(msg)
      ensures inFlight == old(inFlight) + SequenceLength(msg)
      ensures sent == old(sent) + [msg]
      ensures timerRunning
      ensures old(timerRunning) ==> elapsed == old(elapsed)
      ensures !old(timerRunning) ==> elapsed == 0
    {
      var sequenceLength := SequenceLength(msg);
      AllSegmentsOkAppend(outstanding, Outstanding(minSeqno, msg), isn);
      ChainAppend(outstanding, minSeqno - inFlight, minSeqno, msg);
      outstanding := outstanding + [Outstanding(minSeqno, msg)];
      minSeqno := minSeqno + sequenceLength;
      inFlight := inFlight + sequenceLength;
      sent := sent + [msg];
      if !timerRunning {
        timerRunning := true;
        elapsed := 0;
      }
    }

    /**
     * Lines 58-74 of `push`: as much payload as the space, MAX_PAYLOAD_SIZE
     * and the buffered bytes allow, then the FIN if it is still unsent, the
     * input is finished and a slot is left. `segmentSent` turns true when
     * either is added.
     */
    method FillPayload(msg: TCPSenderMessage, availableSpace: nat, segmentSent: bool)
      returns (m: TCPSenderMessage, space: nat, nowSent: bool)
      requires input.Valid() && msg.payload == [] && !msg.fin
      modifies this`finSent, input
      ensures input.Valid()
      ensures m == msg.(payload := m.payload, fin := m.fin)
      ensures old(input.Buffered()) == m.payload + input.Buffered()
      ensures input.totalPopped == old(input.totalPopped) + |m.payload|
      ensures |m.payload| == 0 <==> old(input.Buffered()) == [] || availableSpace == 0
      ensures |m.payload| > 0 ==>
        |m.payload| == Min(Min(availableSpace, MAX_PAYLOAD_SIZE), |old(input.Buffered())|)
      ensures m.fin <==>
        !old(finSent) && input.closed && input.Buffered() == [] && availableSpace > |m.payload|
      ensures finSent == (old(finSent) || m.fin)
      ensures space + |m.payload| + (if m.fin then 1 else 0) == availableSpace
      ensures nowSent == (segmentSent || |m.payload| > 0 || m.fin)
      ensures input.written == old(input.written) && input.closed == old(input.closed)
      ensures input.error == old(input.error)
    {
      var payload := ReadPayload(availableSpace);
      m, space := msg.(payload := payload), availableSpace - |payload|;
      nowSent := segmentSent || payload != [];
      if !finSent && input.IsFinished() && space > 0 {
        m := m.(fin := true);
        finSent := true;
        space := space - 1;
        nowSent := true;
      }
    }

    /**
     * Lines 58-66 of `push`: when bytes are buffered and there is room,
     * read as many as fit in the room, in one segment and in the buffer.
     */
    method ReadPayload(availableSpace: nat) returns (payload: seq<byte>)
      requires input.Valid()
      modifies input
      ensures input.Valid()
      ensures old(input.Buffered()) == payload + input.Buffered()
      ensures input.totalPopped == old(input.totalPopped) + |payload|
      ensures |payload| == 0 <==> old(input.Buffered()) == [] || availableSpace == 0
      ensures |payload| > 0 ==>
        |payload| == Min(Min(availableSpace, MAX_PAYLOAD_SIZE), |old(input.Buffered())|)
      ensures input.written == old(input.written) && input.closed == old(input.closed)
      ensures input.error == old(input.error)
    {
      payload := [];
      if input.BytesBuffered() > 0 && availableSpace > 0 {
        var payloadSize := Min(Min(availableSpace, MAX_PAYLOAD_SIZE), input.BytesBuffered());
        payload := input.Read(payloadSize);
      }
    }

    /**
     * One round of the loop of `push` (lines 31-92): build a segment and
     * record it if it holds anything. `o` is the segment recorded.
     */
    method SendOne(availableSpace: nat) returns (space: nat, sentOne: bool, ghost o: Outstanding)
      requires Valid() && availableSpace > 0
      modifies this`synSent, this`finSent, this`outstanding, this`minSeqno, this`inFlight, this`sent
      modifies this`timerRunning, this`elapsed, input
      ensures Valid()
      ensures synSent
      ensures sentOne ==>
        && space < availableSpace
        && o.start == old(minSeqno)
        && outstanding == old(outstanding) + [o]
        && sent == old(sent) + [o.msg]
        && inFlight + space == old(inFlight) + availableSpace
        && SegmentOk(o, isn) && o.msg.rst == input.error
        && old(input.Buffered()) == o.msg.payload + input.Buffered()
        && (o.msg.syn <==> !old(synSent))
        && finSent == (old(finSent) || o.msg.fin)
        && (o.msg.fin ==> !old(finSent) && input.closed && input.Buffered() == [])
      ensures !sentOne ==>
        && old(synSent) && space == availableSpace
        && outstanding == old(outstanding) && sent == old(sent) && inFlight == old(inFlight)
        && input.Buffered() == old(input.Buffered()) == []
        && finSent == old(finSent) && (finSent || !input.closed)
      ensures old(synSent) && old(finSent) && old(input.Buffered()) == [] ==> !sentOne
      ensures windowSize == old(windowSize) && currentRto == old(currentRto)
      ensures consecutiveRetransmissions == old(consecutiveRetransmissions)
      ensures input.written == old(input.written) && input.closed == old(input.closed)
      ensures input.error == old(input.error)
    {
      var msg;
      msg, space, sentOne := BuildSegment(availableSpace);
      o := Outstanding(minSeqno, msg);
      if sentOne {
        Record(msg);
      }
    }

    /**
     * The segment one round of `push` builds (lines 31-74): an empty
     * message, the SYN if it is unsent, then payload and the FIN. A SYN
     * that uses the last slot is sent alone and `push` returns; the loop
     * would stop there anyway, as no space is left. `segmentSent` says
     * whether the segment holds anything.
     */
    method BuildSegment(availableSpace: nat) returns (msg: TCPSenderMessage, space: nat, segmentSent: bool)
      requires Valid() && availableSpace > 0
      modifies this`synSent, this`finSent, input
      ensures Sound() && synSent
      ensures segmentSent ==>
        && SequenceLength(msg) > 0 && minSeqno + SequenceLength(msg) == SeqnosUsed()
        && msg.seqno == Wrap(minSeqno, isn) && |msg.payload| <= MAX_PAYLOAD_SIZE
        && (msg.syn <==> minSeqno == 0)
        && space + SequenceLength(msg) == availableSpace
        && msg.rst == input.error
        && old(input.Buffered()) == msg.payload + input.Buffered()
        && (msg.syn <==> !old(synSent))
        && finSent == (old(finSent) || msg.fin)
        && (msg.fin ==> !old(finSent) && input.closed && input.Buffered() == [])
      ensures !segmentSent ==>
        && Valid() && old(synSent) && space == availableSpace
        && input.Buffered() == old(input.Buffered()) == []
        && finSent == old(finSent) && (finSent || !input.closed)
      ensures old(synSent) && old(finSent) && old(input.Buffered()) == [] ==> !segmentSent
      ensures input.written == old(input.written) && input.closed == old(input.closed)
      ensures input.error == old(input.error)
    {
      msg := MakeEmptyMessage();
      segmentSent := false;
      space := availableSpace;

      if !synSent {
        msg := msg.(syn := true);
        synSent := true;
        space := space - 1;
        segmentSent := true;
      }

      if space > 0 {
        msg, space, segmentSent := FillPayload(msg, space, segmentSent);
      }
    }

    ghost function Snap(): Snapshot
      reads this, input
      requires input.Valid()
    {
      Snapshot(outstanding, sent, input.Buffered(), synSent, finSent, inFlight, windowSize,
               currentRto, consecutiveRetransmissions, input.written, input.closed, input.error)
    }

    /**
     * Where `push` stands after sending `added` since `s0`, with `space`
     * slots of the effective window left.
     */
    ghost predicate Progress(s0: Snapshot, added: seq<Outstanding>, space: nat, effective: nat)
      reads this, input
    {
      && Valid()
      && outstanding == s0.outstanding + added
      && sent == s0.sent + SentMessages(added)
      && Payloads(added) + input.Buffered() == s0.buffered
      && PushedOk(added, isn, input.error, s0.synSent, s0.finSent, finSent)
      && (finSent && !s0.finSent ==> input.closed && input.Buffered() == [])
      && inFlight + space == Max(s0.inFlight, effective)
      && (synSent <==> s0.synSent || added != [])
      && windowSize == s0.windowSize && currentRto == s0.currentRto
      && consecutiveRetransmissions == s0.retransmissions
      && input.written == s0.written && input.closed == s0.closed && input.error == s0.error
    }

    /** One round of the loop of `push`, with the segments sent so far carried along. */
    method PushRound(ghost s0: Snapshot, ghost added: seq<Outstanding>, effective: nat, availableSpace: nat)
      returns (space: nat, segmentSent: bool, ghost now: seq<Outstanding>)
      requires Progress(s0, added, availableSpace, effective) && availableSpace > 0
      modifies this, input
      ensures Progress(s0, now, space, effective)
      ensures space <= availableSpace && (segmentSent ==> space < availableSpace)
      ensures !segmentSent ==> synSent && input.Buffered() == [] && (finSent || !input.closed)
    {
      ghost var o;
      ghost var finBefore := finSent;
      ghost var bufferedBefore := input.Buffered();
      space, segmentSent, o := SendOne(availableSpace);
      if !segmentSent {
        now := added;
        return;
      }
      MessagesAppend(added, o);
      PushedOkStep(added, o, isn, input.error, s0.synSent, s0.finSent, finBefore);
      AppendAssoc(s0.outstanding, added, [o]);
      AppendAssoc(s0.sent, SentMessages(added), [o.msg]);
      AppendAssoc(Payloads(added), o.msg.payload, input.Buffered());
      now := added + [o];
    }

    /**
     * `push`: fills the effective window with segments, the SYN first, then
     * payload of at most MAX_PAYLOAD_SIZE bytes each, then the FIN once the
     * input is finished. `added` are the segments sent, in order; it stops
     * when the window is full or nothing is left to send.
     */
    method Push() returns (ghost added: seq<Outstanding>)
      requires Valid()
      modifies this, input
      ensures Valid()
      ensures outstanding == old(outstanding) + added
      ensures sent == old(sent) + SentMessages(added)
      ensures Payloads(added) + input.Buffered() == old(input.Buffered())
      ensures PushedOk(added, isn, input.error, old(synSent), old(finSent), finSent)
      ensures finSent && !old(finSent) ==> input.closed && input.Buffered() == []
      ensures inFlight <= Max(old(inFlight), EffectiveWindow(windowSize))
      ensures synSent
      ensures inFlight >= EffectiveWindow(windowSize) || (input.Buffered() == [] && (finSent || !input.closed))
      ensures windowSize == old(windowSize) && currentRto == old(currentRto)
      ensures consecutiveRetransmissions == old(consecutiveRetransmissions)
      ensures input.written == old(input.written) && input.closed == old(input.closed) && input.error == old(input.error)
    {
      ghost var s0 := Snap();
      added := [];
      var effectiveWindowSize: nat := windowSize;
      if windowSize == 0 {
        effectiveWindowSize := 1;
      }
      var availableSpace: nat := 0;
      if effectiveWindowSize > inFlight {
        availableSpace := effectiveWindowSize - inFlight;
      }
      assert SentMessages([]) == [] && Payloads([]) == [];
      var space;
      added, space := FillWindow(s0, effectiveWindowSize, availableSpace);
    }

    /**
     * The loop of `push` (lines 30-93): send segments while there is room
     * in the effective window and something to send.
     */
    method FillWindow(ghost s0: Snapshot, effective: nat, availableSpace: nat)
      returns (ghost added: seq<Outstanding>, space: nat)
      requires Progress(s0, [], availableSpace, effective)
      modifies this, input
      ensures Progress(s0, added, space, effective)
      ensures space == 0 || (synSent && input.Buffered() == [] && (finSent || !input.closed))
    {
      added, space := [], availableSpace;
      var segmentSent := true;
      while space > 0 && segmentSent
        invariant Progress(s0, added, space, effective)
        invariant !segmentSent ==> synSent && input.Buffered() == [] && (finSent || !input.closed)
        decreases space, segmentSent
      {
        space, segmentSent, added := PushRound(s0, added, effective, space);
      }
    }

    /**
     * `receive`: ignored once the input has errored; an RST raises the
     * error; otherwise the window is taken, and an ackno within what was
     * sent removes the segments it covers completely, resetting the RTO
     * and the count and restarting the timer (or stopping it when nothing
     * is left) whenever it removes any.
     */
    method Receive(message: TCPReceiverMessage)
      requires Valid()
      modifies this`windowSize, this`outstanding, this`inFlight, this`currentRto, this`consecutiveRetransmissions
      modifies this`timerRunning, this`elapsed, input`error
      ensures Valid()
      ensures old(input.error) ==> unchanged(this) && unchanged(input)
      ensures !old(input.error) && message.rst ==> input.error && unchanged(this)
      ensures !old(input.error) && !message.rst ==> windowSize == message.windowSize && !input.error
      ensures var target := if old(input.error) || message.rst then None
                            else AckTarget(message.ackno, isn, minSeqno);
        var k := if target.None? then 0 else AckedPrefix(old(outstanding), target.value);
        && outstanding == old(outstanding)[k..]
        && (k == 0 ==> TimerState() == old(TimerState()))
        && (k > 0 ==>
              && currentRto == initialRto && consecutiveRetransmissions == 0
              && (timerRunning <==> outstanding != [])
              && elapsed == (if outstanding != [] then 0 else old(elapsed)))
    {
      if input.error {
        return;
      }
      if message.rst {
        input.SetError();
        return;
      }
      windowSize := message.windowSize;
      if message.ackno.None? {
        return;
      }
      var recvAckno := Unwrap(message.ackno.value, isn, minSeqno % TWO_64);
      if recvAckno > minSeqno {
        return;
      }
      assert AckTarget(message.ackno, isn, minSeqno) == Some(recvAckno);
      Acknowledge(recvAckno);
    }

    /**
     * Lines 124-154 of `receive`: drop the segments the ackno covers and,
     * when any went, reset the RTO and the count and restart the timer, or
     * stop it when nothing is left outstanding.
     */
    method Acknowledge(recvAckno: nat)
      requires Valid() && recvAckno <= minSeqno
      modifies this`outstanding, this`inFlight, this`currentRto, this`consecutiveRetransmissions
      modifies this`timerRunning, this`elapsed
      ensures Valid()
      ensures sent == old(sent) && minSeqno == old(minSeqno) && windowSize == old(windowSize)
      ensures synSent == old(synSent) && finSent == old(finSent)
      ensures var k := AckedPrefix(old(outstanding), recvAckno);
        && outstanding == old(outstanding)[k..]
        && (k == 0 ==> TimerState() == old(TimerState()))
        && (k > 0 ==>
              && currentRto == initialRto && consecutiveRetransmissions == 0
              && (timerRunning <==> outstanding != [])
              && elapsed == (if outstanding != [] then 0 else old(elapsed)))
    {
      ghost var k := AckedPrefix(outstanding, recvAckno);
      var segs, flight, acknowledgedNewData := RemoveAcknowledged(outstanding, inFlight, minSeqno, recvAckno);
      AllSegmentsOkSuffix(outstanding, k, isn);
      outstanding := segs;
      inFlight := flight;

      if acknowledgedNewData {
        RestartTimer();
      }
    }

    /** Lines 144-153 of `receive`: the timer state after new data was acknowledged. */
    method RestartTimer()
      requires Valid()
      modifies this`currentRto, this`consecutiveRetransmissions, this`timerRunning, this`elapsed
      ensures Valid()
      ensures currentRto == initialRto && consecutiveRetransmissions == 0
      ensures timerRunning <==> outstanding != []
      ensures elapsed == (if outstanding != [] then 0 else old(elapsed))
    {
      assert Pow2(0) == 1;
      currentRto := initialRto;
      consecutiveRetransmissions := 0;
      if outstanding != [] {
        timerRunning := true;
        elapsed := 0;
      } else {
        timerRunning := false;
      }
    }

    /**
     * `tick`: advances the timer by `ms` as `TickTimer` says and, when that
     * asks for it, hands the earliest outstanding segment to `transmit` again.
     */
    method Tick(ms: nat)
      requires Valid()
      modifies this`timerRunning, this`elapsed, this`sent, this`consecutiveRetransmissions, this`currentRto
      ensures Valid()
      ensures var r := TickTimer(old(TimerState()), ms, old(outstanding) != [], windowSize > 0);
        && TimerState() == r.0
        && sent == old(sent) + (if r.1 then [outstanding[0].msg] else [])
    {
      if !timerRunning {
        return;
      }
      elapsed := elapsed + ms;
      if elapsed >= currentRto {
        if outstanding == [] {
          timerRunning := false;
          return;
        }
        sent := sent + [outstanding[0].msg];
        RtoBoundStep(initialRto, currentRto, consecutiveRetransmissions);
        consecutiveRetransmissions := consecutiveRetransmissions + 1;
        if windowSize > 0 {
          currentRto := currentRto * 2;
        }
        elapsed := 0;
      }
    }
  }
}
