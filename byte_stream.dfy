/**
 * The bounded byte stream: a FIFO of at most `capacity` bytes with a writer end
 * (push, close, set_error) and a reader end (peek, pop), monotonic pushed/popped
 * counters and sticky closed/error flags.
 */
module ByteStreams {
  import opened Common

  class ByteStream {
    const capacity: nat
    /** `queue_`: the bytes pushed and not yet popped. */
    var queue: seq<Byte>
    /** `tot_len_`: bytes pushed so far. */
    var totLen: nat
    /** `out_len_`: bytes popped so far. */
    var outLen: nat
    var closed: bool
    var error: bool
    /** Every byte popped so far, in order (the reader's view of the stream's history). */
    ghost var popped: seq<Byte>

    ghost predicate Valid()
      reads this
    {
      && totLen == outLen + |queue|
      && |queue| <= capacity
      && |popped| == outLen
    }

    /** Everything the stream has ever accepted, in order. */
    ghost function Written(): seq<Byte>
      reads this
    {
      popped + queue
    }

    constructor (capacity: nat)
      ensures Valid() && this.capacity == capacity
      ensures queue == [] && totLen == 0 && outLen == 0 && !closed && !error && popped == []
    {
      this.capacity := capacity;
      queue, totLen, outLen := [], 0, 0;
      closed, error := false, false;
      popped := [];
    }

    /** `Writer::available_capacity` (line 39-42); the subtraction cannot wrap under Valid(). */
    function AvailableCapacity(): (r: nat)
      reads this
      requires Valid()
      ensures r + |queue| == capacity
    {
      capacity - totLen + outLen
    }

    function BytesPushed(): (r: nat)
      reads this
      requires Valid()
      ensures r == |Written()|
    {
      totLen
    }

    /** `Reader::bytes_buffered` (line 77-81). */
    function BytesBuffered(): (r: nat)
      reads this
      requires Valid()
      ensures r == |queue| && r <= capacity
    {
      totLen - outLen
    }

    function BytesPopped(): (r: nat)
      reads this
      requires Valid()
      ensures r == |popped|
    {
      outLen
    }

    function Peek(): (r: seq<Byte>)
      reads this
      requires Valid()
      ensures popped + r == Written()
    {
      queue
    }

    function IsClosed(): bool reads this { closed }
    function HasError(): bool reads this { error }

    /** `Reader::is_finished` (line 54-58). */
    function IsFinished(): (r: bool)
      reads this
      requires Valid()
      ensures r <==> closed && BytesBuffered() == 0
    {
      closed && |queue| == 0
    }

    /**
     * `Writer::push` (line 9-22): a no-op when closed, errored or given no data; otherwise
     * appends the longest prefix of `data` that fits.
     */
    method Push(data: seq<Byte>)
      requires Valid()
      modifies this
      ensures Valid()
      ensures var accepted := if old(closed) || old(error) then 0
                              else Min(|data|, old(AvailableCapacity()));
        && queue == old(queue) + data[..accepted]
        && totLen == old(totLen) + accepted
        && Written() == old(Written()) + data[..accepted]
      ensures outLen == old(outLen) && popped == old(popped)
      ensures closed == old(closed) && error == old(error)
    {
      if closed || error || |data| == 0 {
        return;
      }
      var avail := AvailableCapacity();
      if |data| > avail {
        queue := queue + data[..avail];
        totLen := totLen + avail;
      } else {
        assert data[..|data|] == data;
        queue := queue + data;
        totLen := totLen + |data|;
      }
    }

    /** `Writer::close`: idempotent and sticky. */
    method Close()
      requires Valid()
      modifies this`closed
      ensures Valid() && closed
    {
      closed := true;
    }

    /** `Writer::set_error`: idempotent and sticky. */
    method SetError()
      requires Valid()
      modifies this`error
      ensures Valid() && error
    {
      error := true;
    }

    /**
     * `Reader::pop` (line 66-75): a no-op when errored or empty; otherwise removes the
     * first `len` bytes. `substr` throws past the end and `out_len_` is not clamped, so a
     * caller may not ask for more than is buffered.
     */
    method Pop(len: nat)
      requires Valid()
      requires error || |queue| == 0 || len <= |queue|
      modifies this`queue, this`outLen, this`popped
      ensures Valid() && Written() == old(Written())
      ensures if old(error) || old(|queue|) == 0 then
                queue == old(queue) && outLen == old(outLen) && popped == old(popped)
              else
                queue == old(queue)[len..] && outLen == old(outLen) + len
                && popped == old(popped) + old(queue)[..len]
    {
      if error || |queue| == 0 {
        return;
      }
      popped := popped + queue[..len];
      assert queue == queue[..len] + queue[len..];
      queue := queue[len..];
      outLen := outLen + len;
    }
  }
}
