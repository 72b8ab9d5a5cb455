/**
 * The TCP receiver: learns the initial sequence number from the first SYN, turns each
 * segment's 32-bit sequence number into a stream index for the reassembler, and reports
 * the ackno and the window back to the peer.
 */
module TCPReceivers {
  import opened Common
  import opened WrappingIntegers
  import opened ByteStreams
  import opened Reassemblers
  import opened TCPMessages

  const UINT16_MAX: nat := 0xffff

  /**
   * Lines 16-18: the stream index of a segment's first payload byte. The SYN occupies
   * absolute sequence number 0, so the payload of a segment at absolute sequence number
   * `a` starts at `a - 1`, or at `a` when it carries the SYN; the sum is 64-bit. The
   * segment's absolute sequence number recovered from the index (one more, or the index
   * itself for a SYN) wraps back to its `seqno`.
   */
  function StartIndex(seqno: u32, isn: u32, checkpoint: u64, syn: bool): (r: u64)
    ensures Wrap((r + 1 - (if syn then 1 else 0)) % U64, isn) == seqno
  {
    var a := Unwrap(seqno, isn, checkpoint);
    var r := (a + (if syn then 1 else 0) - 1) % U64;
    assert (r + 1 - (if syn then 1 else 0)) % U64 == a;
    r
  }

  /** A segment at absolute sequence number `a`, near the checkpoint, maps to its stream index. */
  lemma StartIndexOfWrap(a: u64, isn: u32, checkpoint: u64, syn: bool)
    requires checkpoint - HALF32 <= a < checkpoint + HALF32
    requires a >= checkpoint || a + U32 < U64
    requires syn || a > 0
    ensures StartIndex(Wrap(a, isn), isn, checkpoint, syn) == a + (if syn then 1 else 0) - 1
  {
    UnwrapOfWrap(a, isn, checkpoint);
  }

  /** A SYN segment seen before any byte was written carries the stream from index 0. */
  lemma SynPayloadStartsAtZero(isn: u32)
    ensures StartIndex(isn, isn, 1, true) == 0
  {
    assert Wrap(0, isn) == isn;
    StartIndexOfWrap(0, isn, 1, true);
  }

  /** Lines 25-26: the window field saturates at 65535. */
  function WindowSize(available: nat): (r: u16)
    ensures r <= available && r <= UINT16_MAX
    ensures r == available || r == UINT16_MAX
  {
    if available > UINT16_MAX then UINT16_MAX else available
  }

  class TCPReceiver {
    /** `set_syn_`: a SYN has been seen. */
    var setSyn: bool
    /** `isn_`: the initial sequence number, meaningful once `setSyn` holds. */
    var isn: u32

    constructor ()
      ensures !setSyn
    {
      setSyn, isn := false, 0;
    }

    /**
     * `receive` (lines 6-20): ignore everything before the first SYN, whose sequence
     * number becomes the ISN; then hand the payload to the reassembler at its stream
     * index, with the FIN as the last-substring flag. The checkpoint `bytes_pushed() + 1` is
     * a 64-bit sum.
     */
    method Receive(msg: TCPSenderMessage, reassembler: Reassembler, inbound: ByteStream)
      requires reassembler.Valid() && reassembler.Coherent(inbound) && reassembler.Settled(inbound)
      requires inbound.outLen + inbound.capacity + |msg.payload| < U64
      modifies this, reassembler, inbound
      ensures reassembler.Valid() && reassembler.Coherent(inbound) && reassembler.Settled(inbound)
      ensures setSyn == (old(setSyn) || msg.syn)
      ensures isn == if old(setSyn) || !msg.syn then old(isn) else msg.seqno
      ensures !setSyn ==> unchanged(reassembler) && unchanged(inbound)
      ensures setSyn ==>
                reassembler.history == old(reassembler.history)
                  + [Piece(StartIndex(msg.seqno, isn, (old(inbound.totLen) + 1) % U64, msg.syn), msg.payload)]
      ensures setSyn ==> reassembler.closed == (old(reassembler.closed) || msg.fin)
      ensures setSyn ==>
                Assembled(old(reassembler.pending), old(reassembler.nextIndex), old(inbound.Written()),
                          old(inbound.AvailableCapacity()), old(inbound.closed) || old(inbound.error),
                          StartIndex(msg.seqno, isn, (old(inbound.totLen) + 1) % U64, msg.syn), msg.payload,
                          reassembler.pending, reassembler.nextIndex, inbound.Written())
      ensures setSyn ==> inbound.closed == (old(inbound.closed) || reassembler.IsClosed())
      ensures inbound.error == old(inbound.error)
    {
      if !setSyn {
        if !msg.syn {
          return;
        }
        setSyn := true;
        isn := msg.seqno;
      }
      var startIndex := StartIndex(msg.seqno, isn, (inbound.BytesPushed() + 1) % U64, msg.syn);
      reassembler.Insert(startIndex, msg.payload, msg.fin, inbound);
    }

    /**
     * `send` (lines 22-41): the window is the output's room capped at 65535; the ackno
     * is absent before the SYN, and otherwise names the absolute sequence number after
     * the SYN and every byte written, plus one for the FIN once the output is closed.
     */
    function Send(inbound: ByteStream): (r: TCPReceiverMessage)
      reads this, inbound
      requires inbound.Valid()
      ensures r.windowSize == WindowSize(inbound.AvailableCapacity())
      ensures r.ackno.None? <==> !setSyn
      ensures r.ackno.Some? ==>
                r.ackno.value == Wrap((inbound.BytesPushed() + 1 + (if inbound.IsClosed() then 1 else 0)) % U64, isn)
    {
      var windowSize := WindowSize(inbound.AvailableCapacity());
      if !setSyn then
        TCPReceiverMessage(None, windowSize)
      else
        var offset := inbound.BytesPushed() + 1 + (if inbound.IsClosed() then 1 else 0);
        TCPReceiverMessage(Some(Wrap(offset % U64, isn)), windowSize)
    }

    /**
     * The peer, unwrapping the ackno against any checkpoint within 2^31 of it, recovers
     * the absolute sequence number the receiver expects next.
     */
    lemma AcknoUnwraps(inbound: ByteStream, checkpoint: u64)
      requires inbound.Valid() && setSyn
      requires var a := inbound.BytesPushed() + 1 + (if inbound.IsClosed() then 1 else 0);
        a + U32 < U64 && checkpoint - HALF32 <= a < checkpoint + HALF32
      ensures Send(inbound).ackno == Some(Wrap(inbound.BytesPushed() + 1 + (if inbound.IsClosed() then 1 else 0), isn))
      ensures Unwrap(Send(inbound).ackno.value, isn, checkpoint)
                == inbound.BytesPushed() + 1 + (if inbound.IsClosed() then 1 else 0)
    {
      var a := inbound.BytesPushed() + 1 + (if inbound.IsClosed() then 1 else 0);
      UnwrapOfWrap(a, isn, checkpoint);
    }
  }
}
