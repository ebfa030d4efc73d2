// The two messages exchanged by the sender and the receiver. Their headers
// (tcp_sender_message.hh, tcp_receiver_message.hh) are not part of this
// model; the fields below are the ones the sender and receiver read and write.
module Messages {
  import opened Common
  import opened WrappingIntegers

  /** A segment from a sender: sequence number, flags and payload. */
  datatype TCPSenderMessage = TCPSenderMessage(
    seqno: Wrap32,
    syn: bool,
    payload: seq<byte>,
    fin: bool,
    rst: bool)

  /** An acknowledgment from a receiver. */
  datatype TCPReceiverMessage = TCPReceiverMessage(
    ackno: Option<Wrap32>,
    windowSize: u16,
    rst: bool)

  /** The sequence numbers a segment occupies: SYN and FIN count one each. */
  function SequenceLength(m: TCPSenderMessage): (n: nat)
    ensures n >= |m.payload|
    ensures n == 0 <==> !m.syn && !m.fin && m.payload == []
  {
    |m.payload| + (if m.syn then 1 else 0) + (if m.fin then 1 else 0)
  }
}
