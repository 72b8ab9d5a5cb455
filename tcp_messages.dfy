/**
 * The two segment summaries exchanged between a TCP sender and the peer's receiver:
 * the sender's segment (sequence number, SYN and FIN flags, payload) and the
 * receiver's acknowledgment (optional ackno, 16-bit window).
 */
module TCPMessages {
  import opened Common

  datatype TCPSenderMessage = TCPSenderMessage(seqno: u32, syn: bool, payload: seq<Byte>, fin: bool)
  {
    /** `sequence_length`: SYN and FIN each occupy one sequence number. */
    function SequenceLength(): (r: nat)
      ensures r == |payload| + (if syn then 1 else 0) + (if fin then 1 else 0)
      ensures r == 0 <==> !syn && !fin && payload == []
    {
      (if syn then 1 else 0) + |payload| + (if fin then 1 else 0)
    }
  }

  datatype TCPReceiverMessage = TCPReceiverMessage(ackno: Option<u32>, windowSize: u16)
}
