/** The two halves of a TCP message, with 32-bit sequence numbers. */
module Messages {
  import opened Common
  import opened WrappingIntegers

  /** What a sender tells the remote receiver. */
  datatype SenderMessage = SenderMessage(seqno: Wrap32, syn: bool, payload: seq<byte>, fin: bool, rst: bool) {
    /** SYN and FIN occupy one sequence number each. */
    function SequenceLength(): nat {
      (if syn then 1 else 0) + |payload| + (if fin then 1 else 0)
    }
  }

  /** What a receiver tells the remote sender. */
  datatype ReceiverMessage = ReceiverMessage(ackno: Option<Wrap32>, windowSize: u16, rst: bool)

  datatype TCPMessage = TCPMessage(sender: SenderMessage, receiver: ReceiverMessage)
}
