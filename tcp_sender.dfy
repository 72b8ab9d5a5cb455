/**
 * The TCP sender: cuts the outbound byte stream into segments that fit the peer's
 * window, keeps every unacknowledged segment in an outstanding queue, retires segments
 * as acknowledgments arrive and retransmits the oldest one when the retransmission
 * timer expires, doubling the timeout each time (section 5.5 of RFC 6298).
 */
module TCPSenders {
  import opened Common
  import opened WrappingIntegers
  import opened ByteStreams
  import opened TCPMessages

  // ---------------------------------------------------------------- segment queues

  /** Total sequence length of a queue of segments. */
  function SumSeqLen(s: seq<TCPSenderMessage>): nat
  {
    if s == [] then 0 else SumSeqLen(s[..|s| - 1]) + s[|s| - 1].SequenceLength()
  }

  /** The payloads of a queue of segments, concatenated in order. */
  function Payloads(s: seq<TCPSenderMessage>): seq<Byte>
  {
    if s == [] then [] else Payloads(s[..|s| - 1]) + s[|s| - 1].payload
  }

  lemma AppendAssoc<T>(a: seq<T>, b: seq<T>, c: seq<T>)
    ensures a + b + c == a + (b + c)
  {
  }

  lemma SumSeqLenAppend(s: seq<TCPSenderMessage>, m: TCPSenderMessage)
    ensures SumSeqLen(s + [m]) == SumSeqLen(s) + m.SequenceLength()
  {
    assert (s + [m])[..|s|] == s;
  }

  lemma PayloadsAppend(s: seq<TCPSenderMessage>, m: TCPSenderMessage)
    ensures Payloads(s + [m]) == Payloads(s) + m.payload
  {
    assert (s + [m])[..|s|] == s;
  }

  lemma CancelPrefix<T>(a: seq<T>, b: seq<T>, c: seq<T>)
    requires a + b == a + c
    ensures b == c
  {
    assert b == (a + b)[|a|..];
    assert c == (a + c)[|a|..];
  }

  /** Retiring the oldest segment removes exactly its sequence length. */
  lemma {:induction false} SumSeqLenDropFirst(s: seq<TCPSenderMessage>)
    requires |s| > 0
    ensures SumSeqLen(s) == s[0].SequenceLength() + SumSeqLen(s[1..])
    decreases |s|
  {
    if |s| > 1 {
      SumSeqLenDropFirst(s[..|s| - 1]);
      assert s[..|s| - 1][1..] == s[1..][..|s[1..]| - 1];
      assert s[..|s| - 1][0] == s[0];
    } else {
      assert s[1..] == [];
      assert s[..|s| - 1] == [];
    }
  }

  /** A suffix of a queue never carries more sequence numbers than the queue. */
  lemma {:induction false} SumSeqLenSuffix(s: seq<TCPSenderMessage>, k: nat)
    requires k <= |s|
    ensures SumSeqLen(s[k..]) <= SumSeqLen(s)
    decreases k
  {
    if k > 0 {
      SumSeqLenDropFirst(s);
      SumSeqLenSuffix(s[1..], k - 1);
      assert s[1..][k - 1..] == s[k..];
    }
  }

  /** `Wrap32::wrap` of an absolute sequence number held in a 64-bit counter. */
  function WrapAbs(n: nat, isn: u32): u32
  {
    Wrap(n % U64, isn)
  }

  /** Below 2^64 the absolute number is its own 64-bit counter value. */
  lemma WrapAbsSmall(n: nat, isn: u32)
    requires n < U64
    ensures WrapAbs(n, isn) == Wrap(n, isn)
  {
  }

  /**
   * What bounds the sequence numbers one call of `push` can still use: those already
   * used, the buffered bytes, a FIN not yet sent and a SYN not yet sent.
   */
  function Potential(nxtSeqno: nat, buffered: nat, finSent: bool): nat
  {
    nxtSeqno + buffered + (if finSent then 0 else 1) + (if nxtSeqno == 0 then 1 else 0)
  }

  /**
   * A run of segments cut by one call of `push` from absolute sequence number `start`:
   * back to back (each carries the wrapped absolute sequence number just after its
   * predecessors), each of positive sequence length with a payload of at most
   * `maxPayload` bytes, the SYN exactly on a first segment at sequence number 0, and a
   * FIN on none but the last.
   */
  ghost predicate WellCut(s: seq<TCPSenderMessage>, start: nat, isn: u32, maxPayload: nat)
  {
    s == [] ||
    var p, m := s[..|s| - 1], s[|s| - 1];
    && WellCut(p, start, isn, maxPayload)
    && m.seqno == WrapAbs(start + SumSeqLen(p), isn)
    && 0 < m.SequenceLength() && |m.payload| <= maxPayload
    && (m.syn <==> p == [] && start == 0)
    && (p != [] ==> !p[|p| - 1].fin)
  }

  lemma WellCutAppend(s: seq<TCPSenderMessage>, start: nat, isn: u32, maxPayload: nat, m: TCPSenderMessage)
    requires WellCut(s, start, isn, maxPayload)
    requires m.seqno == WrapAbs(start + SumSeqLen(s), isn)
    requires 0 < m.SequenceLength() && |m.payload| <= maxPayload
    requires m.syn <==> start + SumSeqLen(s) == 0
    requires s != [] ==> !s[|s| - 1].fin
    ensures WellCut(s + [m], start, isn, maxPayload)
    ensures SumSeqLen(s + [m]) == SumSeqLen(s) + m.SequenceLength()
  {
    assert (s + [m])[..|s|] == s;
    SumSeqLenAppend(s, m);
  }

  /**
   * Where the loop of lines 49-78 stands after emitting `sent` from absolute sequence
   * number `start` out of a budget of `budget`: `space` is left, `nxt` is the next
   * sequence number, and the FIN has gone exactly when the last segment carried it.
   */
  ghost predicate Progressed(sent: seq<TCPSenderMessage>, start: nat, isn: u32, maxPayload: nat,
                             budget: nat, space: nat, nxt: nat, finSent: bool)
  {
    && nxt == start + SumSeqLen(sent)
    && space + SumSeqLen(sent) == budget
    && WellCut(sent, start, isn, maxPayload)
    && finSent == (|sent| > 0 && sent[|sent| - 1].fin)
  }

  /** A non-empty segment cut at `nxt` from `space` moves the loop on by its length. */
  lemma ProgressedStep(sent: seq<TCPSenderMessage>, start: nat, isn: u32, maxPayload: nat,
                       budget: nat, space: nat, nxt: u64, m: TCPSenderMessage, rest: nat)
    requires Progressed(sent, start, isn, maxPayload, budget, space, nxt, false)
    requires rest + m.SequenceLength() == space && 0 < m.SequenceLength()
    requires m.seqno == Wrap(nxt, isn) && (m.syn <==> nxt == 0) && |m.payload| <= maxPayload
    ensures Progressed(sent + [m], start, isn, maxPayload, budget, rest, nxt + m.SequenceLength(), m.fin)
    ensures Payloads(sent + [m]) == Payloads(sent) + m.payload
  {
    WellCutAppend(sent, start, isn, maxPayload, m);
    PayloadsAppend(sent, m);
  }

  /**
   * How full each segment of a run is, as the loop of lines 49-78 fills it from a window
   * budget `budget` and `buffered0` buffered bytes of a stream that is `closed` or not:
   * the payload is as long as the space left (less the SYN), the payload bound and the
   * bytes still buffered allow, and the FIN goes exactly when that empties a closed
   * stream and space is left for it.
   */
  ghost predicate Filled(s: seq<TCPSenderMessage>, budget: nat, buffered0: nat, closed: bool, maxPayload: nat)
  {
    s == [] ||
    var p, m := s[..|s| - 1], s[|s| - 1];
    var space, left, syn := budget - SumSeqLen(p), buffered0 - |Payloads(p)|, if m.syn then 1 else 0;
    && Filled(p, budget, buffered0, closed, maxPayload)
    && |m.payload| == Min(Min(space - syn, maxPayload), left)
    && (m.fin <==> closed && |m.payload| == left && space > |m.payload| + syn)
  }

  /** A segment filled from the space and the bytes its predecessors left extends the run. */
  lemma FilledAppend(s: seq<TCPSenderMessage>, budget: nat, buffered0: nat, closed: bool, maxPayload: nat,
                     m: TCPSenderMessage, space: int, queue: int)
    requires space == budget - SumSeqLen(s) && queue + |m.payload| == buffered0 - |Payloads(s)|
    requires |m.payload| == Min(Min(space - (if m.syn then 1 else 0), maxPayload), queue + |m.payload|)
    requires m.fin <==> closed && queue == 0 && space > |m.payload| + (if m.syn then 1 else 0)
    requires Filled(s, budget, buffered0, closed, maxPayload)
    ensures Filled(s + [m], budget, buffered0, closed, maxPayload)
  {
    assert (s + [m])[..|s|] == s;
  }

  /**
   * Each segment of a well-cut run, by position: its sequence number is the wrapped
   * absolute position after its predecessors, it is non-empty and within the payload
   * bound, it carries the SYN exactly when it is the first at sequence number 0, and
   * it carries a FIN only when it is the last.
   */
  lemma {:induction false} WellCutAt(s: seq<TCPSenderMessage>, start: nat, isn: u32, maxPayload: nat, i: nat)
    requires WellCut(s, start, isn, maxPayload) && i < |s|
    ensures s[i].seqno == WrapAbs(start + SumSeqLen(s[..i]), isn)
    ensures 0 < s[i].SequenceLength() && |s[i].payload| <= maxPayload
    ensures s[i].syn <==> i == 0 && start == 0
    ensures s[i].fin ==> i == |s| - 1
    decreases |s|
  {
    var p := s[..|s| - 1];
    if i < |s| - 1 {
      WellCutAt(p, start, isn, maxPayload, i);
      assert p[..i] == s[..i];
      if i == |s| - 2 {
        assert !p[|p| - 1].fin;
      } else {
        WellCutAt(p, start, isn, maxPayload, i + 1);
      }
    } else {
      assert s[..i] == p;
      if i > 0 {
        WellCutAt(p, start, isn, maxPayload, 0);
      }
    }
  }

  /**
   * Each segment of a filled run, by position: its payload length and its FIN follow
   * from the space and the bytes its predecessors left.
   */
  lemma {:induction false} FilledAt(s: seq<TCPSenderMessage>, budget: nat, buffered0: nat, closed: bool,
                                    maxPayload: nat, i: nat, space: int, left: int)
    requires Filled(s, budget, buffered0, closed, maxPayload) && i < |s|
    requires space == budget - SumSeqLen(s[..i]) && left == buffered0 - |Payloads(s[..i])|
    ensures |s[i].payload| == Min(Min(space - (if s[i].syn then 1 else 0), maxPayload), left)
    ensures s[i].fin <==> closed && |s[i].payload| == left && space > |s[i].payload| + (if s[i].syn then 1 else 0)
    decreases |s|
  {
    var p := s[..|s| - 1];
    if i < |s| - 1 {
      assert p[..i] == s[..i];
      FilledAt(p, budget, buffered0, closed, maxPayload, i, space, left);
    } else {
      assert s[..i] == p;
    }
  }

  /** A prefix of a run carries no more sequence numbers than the run, and its payloads come first. */
  lemma {:induction false} PrefixSums(s: seq<TCPSenderMessage>, k: nat)
    requires k <= |s|
    ensures SumSeqLen(s[..k]) <= SumSeqLen(s) && Payloads(s[..k]) <= Payloads(s)
    decreases |s|
  {
    if k < |s| {
      var p := s[..|s| - 1];
      PrefixSums(p, k);
      assert p[..k] == s[..k];
    } else {
      assert s[..k] == s;
    }
  }

  /** The segments before position `i` and the one at it: their sums and payloads lead those of the run. */
  lemma PrefixStep(s: seq<TCPSenderMessage>, i: nat)
    requires i < |s|
    ensures SumSeqLen(s[..i]) + s[i].SequenceLength() <= SumSeqLen(s)
    ensures Payloads(s[..i]) + s[i].payload <= Payloads(s)
  {
    var t := s[..i + 1];
    PrefixSums(s, i + 1);
    assert t[..|t| - 1] == s[..i] && t[|t| - 1] == s[i];
    assert SumSeqLen(t) == SumSeqLen(s[..i]) + s[i].SequenceLength();
    assert Payloads(t) == Payloads(s[..i]) + s[i].payload;
  }

  lemma PrefixSlice<T>(a: seq<T>, b: seq<T>, c: seq<T>, d: seq<T>)
    requires a + b <= c && c <= d
    ensures |a| + |b| <= |d| && b == d[|a|..][..|b|]
  {
    assert forall j :: 0 <= j < |b| ==> b[j] == (a + b)[|a| + j];
  }

  /** A segment of a well-cut run carries the SYN exactly when it sits at absolute sequence number 0. */
  lemma WellCutSyn(s: seq<TCPSenderMessage>, start: nat, isn: u32, maxPayload: nat, i: nat)
    requires WellCut(s, start, isn, maxPayload) && i < |s|
    ensures s[i].syn <==> start + SumSeqLen(s[..i]) == 0
  {
    WellCutAt(s, start, isn, maxPayload, i);
    if i > 0 {
      WellCutAt(s, start, isn, maxPayload, 0);
      SumSeqLenDropFirst(s[..i]);
      assert s[..i][0] == s[0];
    }
  }

  /** Where segment `i` of a well-cut run sits: within the 64-bit counter, the budget and the bytes. */
  lemma SentBounds(s: seq<TCPSenderMessage>, start: nat, isn: u32, budget: nat, buffered: seq<Byte>,
                   maxPayload: nat, i: nat)
    requires WellCut(s, start, isn, maxPayload) && Payloads(s) <= buffered
    requires start + SumSeqLen(s) < U64 && SumSeqLen(s) <= budget < U64 && i < |s|
    ensures start + SumSeqLen(s[..i]) < U64 && 0 < budget - SumSeqLen(s[..i]) < U64
    ensures |Payloads(s[..i])| + |s[i].payload| <= |buffered|
    ensures s[i].payload == buffered[|Payloads(s[..i])|..][..|s[i].payload|]
  {
    WellCutAt(s, start, isn, maxPayload, i);
    PrefixStep(s, i);
    PrefixSlice(Payloads(s[..i]), s[i].payload, Payloads(s), buffered);
  }

  /**
   * Segment `i` of `s` is the one `Segment` cuts from the state its predecessors left,
   * for a run begun at absolute sequence number `start` with bytes `buffered` and window
   * budget `budget`: at the next sequence number, from the bytes not yet taken, in the
   * space not yet used.
   */
  ghost predicate CutInTurn(s: seq<TCPSenderMessage>, start: nat, isn: u32, budget: nat, buffered: seq<Byte>,
                            closed: bool, maxPayload: u64, i: nat)
    requires i < |s|
  {
    && start + SumSeqLen(s[..i]) < U64 && 0 < budget - SumSeqLen(s[..i]) < U64
    && |Payloads(s[..i])| <= |buffered|
    && s[i] == Segment(start + SumSeqLen(s[..i]), isn, buffered[|Payloads(s[..i])|..], closed,
                       budget - SumSeqLen(s[..i]), maxPayload).0
  }

  /** Each segment of a well-cut run filled from `buffered` within `budget` was cut in turn. */
  lemma SentAt(s: seq<TCPSenderMessage>, start: nat, isn: u32, budget: nat, buffered: seq<Byte>,
               closed: bool, maxPayload: u64, i: nat)
    requires WellCut(s, start, isn, maxPayload) && Filled(s, budget, |buffered|, closed, maxPayload)
    requires Payloads(s) <= buffered && start + SumSeqLen(s) < U64 && SumSeqLen(s) <= budget < U64
    requires i < |s|
    ensures CutInTurn(s, start, isn, budget, buffered, closed, maxPayload, i)
  {
    SentBounds(s, start, isn, budget, buffered, maxPayload, i);
    var nxt, space, rem := start + SumSeqLen(s[..i]), budget - SumSeqLen(s[..i]), buffered[|Payloads(s[..i])|..];
    WellCutAt(s, start, isn, maxPayload, i);
    WellCutSyn(s, start, isn, maxPayload, i);
    FilledAt(s, budget, |buffered|, closed, maxPayload, i, space, |rem|);
    WrapAbsSmall(nxt, isn);
    SegmentIs(nxt, isn, rem, closed, space, maxPayload, s[i]);
  }

  /** `SentAt` at every position of the run. */
  lemma SentAll(s: seq<TCPSenderMessage>, start: nat, isn: u32, budget: nat, buffered: seq<Byte>,
                closed: bool, maxPayload: u64)
    requires WellCut(s, start, isn, maxPayload) && Filled(s, budget, |buffered|, closed, maxPayload)
    requires Payloads(s) <= buffered && start + SumSeqLen(s) < U64 && SumSeqLen(s) <= budget < U64
    ensures forall i :: 0 <= i < |s| ==> CutInTurn(s, start, isn, budget, buffered, closed, maxPayload, i)
  {
    forall i | 0 <= i < |s|
      ensures CutInTurn(s, start, isn, budget, buffered, closed, maxPayload, i)
    {
      SentAt(s, start, isn, budget, buffered, closed, maxPayload, i);
    }
  }

  // ---------------------------------------------------------------- the timer

  /** `Timer` (tcp_sender.hh lines 8-25): accumulated milliseconds and a running flag. */
  class Timer {
    /** `ticks_`: a 64-bit counter. */
    var ticks: u64
    var running: bool

    constructor ()
      ensures ticks == 0 && !running
    {
      ticks, running := 0, false;
    }

    /**
     * `expired` (lines 14-17): the elapsed time is added whether or not the timer runs;
     * the timer has expired when it runs and has reached the timeout.
     */
    method Expired(ms: u64, timeout: u64) returns (r: bool)
      modifies this`ticks
      ensures ticks == (old(ticks) + ms) % U64
      ensures r <==> running && ticks >= timeout
    {
      ticks := (ticks + ms) % U64;
      return running && ticks >= timeout;
    }

    /** `tick_now` (line 18). */
    function TickNow(): u64
      reads this
    {
      ticks
    }

    /** `in_run` (line 19). */
    function InRun(): bool
      reads this
    {
      running
    }

    /** `start` (lines 20-23): restart from zero. */
    method Start()
      modifies this
      ensures ticks == 0 && running
    {
      ticks, running := 0, true;
    }

    /** `stop` (line 24): the accumulated ticks are kept. */
    method Stop()
      modifies this`running
      ensures !running
    {
      running := false;
    }
  }

  // ---------------------------------------------------------------- the sender

  /**
   * Line 49: the number of sequence numbers the window still admits, in 64-bit
   * arithmetic; a zero window counts as one so the sender keeps probing.
   */
  function Budget(rcvno: u64, windowSize: u64, nxtSeqno: u64): (r: u64)
    ensures nxtSeqno <= rcvno + Max(windowSize, 1) < U64 ==> r == rcvno + Max(windowSize, 1) - nxtSeqno
  {
    (rcvno + (if windowSize != 0 then windowSize else 1) - nxtSeqno) % U64
  }

  /**
   * When the peer shrinks its window below what is in flight, the subtraction of
   * line 49 wraps and the budget becomes nearly 2^64.
   */
  lemma BudgetWrapsWhenWindowShrinks()
    ensures Budget(0, 1, 10) == U64 - 9
  {
  }

  /**
   * Lines 99-101: a segment is wholly acknowledged when its absolute sequence number,
   * unwrapped against the next sequence number, plus its length (a 64-bit sum) does
   * not pass the ackno.
   */
  predicate Acked(s: TCPSenderMessage, isn: u32, nxtSeqno: u64, rcvno: u64): (r: bool)
    ensures var start := Unwrap(s.seqno, isn, nxtSeqno);
      start + s.SequenceLength() < U64 ==> (r <==> start + s.SequenceLength() <= rcvno)
  {
    (Unwrap(s.seqno, isn, nxtSeqno) + s.SequenceLength()) % U64 <= rcvno
  }

  /**
   * Lines 96-107 as a function: drop segments from the front of `queue` while each is
   * wholly acknowledged. At most the queue is left, and its first segment, if any, is
   * not wholly acknowledged.
   */
  function Retired(queue: seq<TCPSenderMessage>, isn: u32, nxtSeqno: u64, rcvno: u64): (r: seq<TCPSenderMessage>)
    ensures |r| <= |queue| && (r != [] ==> !Acked(r[0], isn, nxtSeqno, rcvno))
  {
    if queue == [] || !Acked(queue[0], isn, nxtSeqno, rcvno) then queue
    else Retired(queue[1..], isn, nxtSeqno, rcvno)
  }

  /**
   * What `Retired` leaves is a suffix of the queue: everything dropped was wholly
   * acknowledged, and the first segment kept, if any, is not.
   */
  lemma {:induction false} RetiredIsAckedPrefix(queue: seq<TCPSenderMessage>, isn: u32, nxtSeqno: u64, rcvno: u64)
    ensures var rest := Retired(queue, isn, nxtSeqno, rcvno);
      && |rest| <= |queue| && rest == queue[|queue| - |rest|..]
      && (forall i | 0 <= i < |queue| - |rest| :: Acked(queue[i], isn, nxtSeqno, rcvno))
      && (rest != [] ==> !Acked(rest[0], isn, nxtSeqno, rcvno))
    decreases |queue|
  {
    if queue != [] && Acked(queue[0], isn, nxtSeqno, rcvno) {
      RetiredIsAckedPrefix(queue[1..], isn, nxtSeqno, rcvno);
      var rest := Retired(queue, isn, nxtSeqno, rcvno);
      assert queue[1..][|queue| - 1 - |rest|..] == queue[|queue| - |rest|..];
      forall i | 0 <= i < |queue| - |rest| ensures Acked(queue[i], isn, nxtSeqno, rcvno) {
        if i > 0 {
          assert queue[i] == queue[1..][i - 1];
        }
      }
    }
  }

  /**
   * One pass of the loop of lines 51-65 as a function of the next sequence number, the
   * bytes buffered in the stream, whether the stream is closed and the space left: the
   * segment cut and the space that remains. The segment sits at the wrapped next sequence
   * number, takes a SYN exactly at sequence number 0, takes the longest prefix of the
   * buffer the space and the payload bound allow, and takes a FIN exactly when that
   * empties a closed stream and space is left for it.
   */
  function Segment(nxt: u64, isn: u32, buffered: seq<Byte>, closed: bool, space: u64, maxPayload: u64)
    : (r: (TCPSenderMessage, u64))
    requires space > 0
    ensures var (m, rest) := r;
      && rest + m.SequenceLength() == space
      && m.seqno == Wrap(nxt, isn) && (m.syn <==> nxt == 0)
      && |m.payload| <= maxPayload && |m.payload| <= |buffered| && m.payload == buffered[..|m.payload|]
      && |m.payload| == Min(Min(space - (if m.syn then 1 else 0), maxPayload), |buffered|)
      && (m.fin <==> closed && |m.payload| == |buffered| && space > |m.payload| + (if m.syn then 1 else 0))
      && (m.SequenceLength() == 0 <==> nxt != 0 && if buffered == [] then !closed else maxPayload == 0)
  {
    var syn := nxt == 0;
    var room := space - (if syn then 1 else 0);
    var payload := buffered[..Min(Min(room, maxPayload), |buffered|)];
    var fin := closed && |payload| == |buffered| && room - |payload| > 0;
    (TCPSenderMessage(Wrap(nxt, isn), syn, payload, fin), room - |payload| - (if fin then 1 else 0))
  }

  /** `Segment` is determined by its contract: a message meeting every clause of it is the one cut. */
  lemma SegmentIs(nxt: u64, isn: u32, buffered: seq<Byte>, closed: bool, space: u64, maxPayload: u64,
                  m: TCPSenderMessage)
    requires space > 0
    requires m.seqno == Wrap(nxt, isn) && (m.syn <==> nxt == 0)
    requires |m.payload| == Min(Min(space - (if m.syn then 1 else 0), maxPayload), |buffered|)
    requires m.payload == buffered[..|m.payload|]
    requires m.fin <==> closed && |m.payload| == |buffered| && space > |m.payload| + (if m.syn then 1 else 0)
    ensures Segment(nxt, isn, buffered, closed, space, maxPayload).0 == m
  {
  }

  /**
   * A push at sequence number 0 with room for one sequence number sends the SYN: it
   * emits a segment, and the first carries the SYN, because a run that stops short of
   * its budget has moved the next sequence number off 0.
   */
  lemma FirstPushSyn(sent: seq<TCPSenderMessage>, isn: u32, maxPayload: nat, budget: nat, nxt: nat, fin: bool)
    requires WellCut(sent, 0, isn, maxPayload) && nxt == SumSeqLen(sent) && budget > 0
    requires fin ==> sent != []
    requires !fin ==> SumSeqLen(sent) == budget || nxt != 0
    ensures sent != [] && sent[0].syn
  {
    if sent != [] {
      WellCutAt(sent, 0, isn, maxPayload, 0);
    }
  }

  class TCPSender {
    const isn: u32
    /** `initial_RTO_ms_`. */
    const initialRTO: u64
    /** `TCPConfig::MAX_PAYLOAD_SIZE`. */
    const maxPayload: u64
    var consecutiveRetransmissions: u64
    /** The absolute ackno last received. */
    var rcvno: u64
    /** `nxt_seqno_`: the absolute sequence number of the next byte to send. */
    var nxtSeqno: u64
    var windowSize: u64
    /** `retransmission_timeout_`. */
    var rto: u64
    var bytesInFlight: u64
    var synSent: bool
    var finSent: bool
    const timer: Timer
    /** `_messages`: segments ready to be transmitted, oldest first. */
    var messages: seq<TCPSenderMessage>
    /** `_outstanding_messages`: segments sent and not yet acknowledged, oldest first. */
    var outstanding: seq<TCPSenderMessage>

    /**
     * The in-flight count is the sequence length of the outstanding queue, which never
     * exceeds what was sent; a SYN was sent exactly when something was; the timer runs
     * exactly while something is outstanding.
     */
    ghost predicate Valid()
      reads this, timer
    {
      && bytesInFlight == SumSeqLen(outstanding)
      && SumSeqLen(outstanding) <= nxtSeqno
      && (synSent <==> nxtSeqno > 0)
      && (timer.running <==> |outstanding| > 0)
    }

    /** Lines 15-17 and tcp_sender.hh lines 28-40; the ISN is a parameter. */
    constructor (initialRTO: u64, isn: u32, maxPayload: u64)
      ensures Valid() && fresh(timer)
      ensures this.isn == isn && this.initialRTO == initialRTO && this.maxPayload == maxPayload
      ensures consecutiveRetransmissions == 0 && rcvno == 0 && nxtSeqno == 0 && windowSize == 1
      ensures rto == initialRTO && bytesInFlight == 0 && !synSent && !finSent
      ensures messages == [] && outstanding == [] && timer.ticks == 0 && !timer.running
    {
      this.isn, this.initialRTO, this.maxPayload := isn, initialRTO, maxPayload;
      consecutiveRetransmissions, rcvno, nxtSeqno, windowSize := 0, 0, 0, 1;
      rto, bytesInFlight, synSent, finSent := initialRTO, 0, false, false;
      timer := new Timer();
      messages, outstanding := [], [];
    }

    /** `sequence_numbers_in_flight` (lines 19-22). */
    function SequenceNumbersInFlight(): (r: u64)
      reads this, timer
      requires Valid()
      ensures r == SumSeqLen(outstanding) && r <= nxtSeqno
    {
      bytesInFlight
    }

    /** `consecutive_retransmissions` (lines 24-27). */
    function ConsecutiveRetransmissions(): u64
      reads this
    {
      consecutiveRetransmissions
    }

    /** `send_empty_message` (lines 80-85): no flags, no payload, at the next sequence number. */
    function SendEmptyMessage(): (r: TCPSenderMessage)
      reads this
      ensures r.SequenceLength() == 0
      ensures Unwrap(r.seqno, isn, nxtSeqno) == nxtSeqno
    {
      UnwrapAtCheckpoint(nxtSeqno, isn);
      TCPSenderMessage(Wrap(nxtSeqno, isn), false, [], false)
    }

    /**
     * `maybe_send` (lines 29-42): nothing when the ready queue is empty, or while a
     * retransmission is pending on a running timer that has ticked; otherwise the
     * oldest ready segment.
     */
    method MaybeSend() returns (r: Option<TCPSenderMessage>)
      modifies this`messages
      ensures if old(messages) == [] || (consecutiveRetransmissions != 0 && timer.running && timer.ticks > 0)
              then r.None? && messages == old(messages)
              else r == Some(old(messages)[0]) && messages == old(messages)[1..]
    {
      if messages == [] {
        return None;
      }
      if consecutiveRetransmissions != 0 && timer.InRun() && timer.TickNow() > 0 {
        return None;
      }
      r := Some(messages[0]);
      messages := messages[1..];
    }

    /**
     * The `read` helper: peek at up to `n` buffered bytes and pop them; on an errored
     * stream the pop does nothing (byte_stream.cc line 69), so the bytes stay buffered.
     */
    static method Read(outbound: ByteStream, n: nat) returns (chunk: seq<Byte>)
      requires outbound.Valid()
      modifies outbound`queue, outbound`outLen, outbound`popped
      ensures outbound.Valid() && outbound.Written() == old(outbound.Written())
      ensures chunk == old(outbound.queue)[..Min(n, old(|outbound.queue|))]
      ensures if outbound.error then unchanged(outbound`queue, outbound`outLen, outbound`popped)
              else && outbound.queue == old(outbound.queue)[|chunk|..]
                   && outbound.popped == old(outbound.popped) + chunk
                   && outbound.outLen == old(outbound.outLen) + |chunk|
    {
      var k := Min(n, outbound.BytesBuffered());
      chunk := outbound.Peek()[..k];
      outbound.Pop(k);
    }

    /**
     * One segment of the loop of lines 51-65: SYN, payload and FIN that `space` admits.
     * On an errored stream the bytes read stay buffered, so the FIN goes only when none were.
     */
    method MakeSegment(outbound: ByteStream, space: u64) returns (msg: TCPSenderMessage, rest: u64)
      requires outbound.Valid()
      requires space > 0
      modifies this`synSent, this`finSent, outbound`queue, outbound`outLen, outbound`popped
      ensures outbound.Valid() && outbound.Written() == old(outbound.Written())
      ensures if outbound.error && old(|outbound.queue|) > 0 then
                && (msg, rest) == Segment(nxtSeqno, isn, old(outbound.queue), false, space, maxPayload)
                && unchanged(outbound`queue, outbound`outLen, outbound`popped)
              else
                && (msg, rest) == Segment(nxtSeqno, isn, old(outbound.queue), outbound.closed, space, maxPayload)
                && outbound.queue == old(outbound.queue)[|msg.payload|..]
                && outbound.popped == old(outbound.popped) + msg.payload
      ensures synSent == (old(synSent) || msg.syn) && finSent == (old(finSent) || msg.fin)
    {
      rest := space;
      var syn := false;
      if nxtSeqno == 0 {
        syn := true;
        synSent := true;
        rest := rest - 1;
      }
      var payload := Read(outbound, Min(rest, maxPayload));
      rest := rest - |payload|;
      var fin := false;
      if outbound.IsFinished() && rest > 0 {
        fin := true;
        finSent := true;
        rest := rest - 1;
      }
      msg := TCPSenderMessage(Wrap(nxtSeqno, isn), syn, payload, fin);
    }

    /**
     * `push` (lines 44-78): unless the FIN has gone, cut segments from the stream while
     * the window budget lasts; each non-empty segment joins both queues and advances the
     * next sequence number and the in-flight count, and the timer is started if idle.
     * A segment of sequence length zero ends the call.
     */
    method Push(outbound: ByteStream) returns (ghost sent: seq<TCPSenderMessage>)
      requires Valid() && outbound.Valid() && (!outbound.error || |outbound.queue| == 0)
      requires nxtSeqno + |outbound.queue| + 2 < U64
      modifies this`synSent, this`finSent, this`messages, this`outstanding, this`nxtSeqno, this`bytesInFlight
      modifies timer, outbound`queue, outbound`outLen, outbound`popped
      ensures Valid() && outbound.Valid() && outbound.Written() == old(outbound.Written())
      ensures old(finSent) ==> sent == []
      ensures messages == old(messages) + sent && outstanding == old(outstanding) + sent
      ensures nxtSeqno == old(nxtSeqno) + SumSeqLen(sent)
      ensures SumSeqLen(sent) <= Budget(rcvno, windowSize, old(nxtSeqno))
      ensures WellCut(sent, old(nxtSeqno), isn, maxPayload)
      ensures finSent == (old(finSent) || (|sent| > 0 && sent[|sent| - 1].fin))
      ensures finSent && !old(finSent) ==> outbound.IsFinished()
      ensures outbound.popped == old(outbound.popped) + Payloads(sent)
      ensures old(outbound.queue) == Payloads(sent) + outbound.queue
      ensures Filled(sent, Budget(rcvno, windowSize, old(nxtSeqno)), old(|outbound.queue|), outbound.closed, maxPayload)
      ensures forall i :: 0 <= i < |sent| ==>
                CutInTurn(sent, old(nxtSeqno), isn, Budget(rcvno, windowSize, old(nxtSeqno)), old(outbound.queue),
                          outbound.closed, maxPayload, i)
      ensures !finSent ==> SumSeqLen(sent) == Budget(rcvno, windowSize, old(nxtSeqno))
                           || (nxtSeqno != 0 && if outbound.queue == [] then !outbound.closed else maxPayload == 0)
      ensures if sent != [] && !old(timer.running) then timer.ticks == 0 else timer.ticks == old(timer.ticks)
      ensures !old(finSent) && old(nxtSeqno) == 0 && Budget(rcvno, windowSize, 0) > 0 ==> sent != [] && sent[0].syn
    {
      if finSent {
        sent := [];
        assert WellCut(sent, nxtSeqno, isn, maxPayload);
        assert Filled(sent, Budget(rcvno, windowSize, nxtSeqno), |outbound.queue|, outbound.closed, maxPayload);
        assert SumSeqLen(sent) == 0 && Payloads(sent) == [] && [] + outbound.queue == outbound.queue;
        assert messages == messages + [] && outstanding == outstanding + [] && outbound.popped == outbound.popped + [];
        return;
      }
      ghost var nxt0 := nxtSeqno;
      var space := Budget(rcvno, windowSize, nxtSeqno);
      ghost var budget: nat := space;
      PushingStarts(outbound, budget);
      sent := PushRun(outbound, space, messages, outstanding, outbound.popped, outbound.queue,
                      nxt0 + |outbound.queue|, nxt0, budget, timer.running, timer.ticks);
      if nxt0 == 0 && budget > 0 {
        FirstPushSyn(sent, isn, maxPayload, budget, nxtSeqno, finSent);
      }
    }

    /** Before the first pass of the loop of lines 49-78 nothing is sent and the whole budget is left. */
    lemma PushingStarts(outbound: ByteStream, budget: nat)
      requires Valid() && outbound.Valid() && (!outbound.error || |outbound.queue| == 0) && !finSent
      requires nxtSeqno + |outbound.queue| + 2 < U64
      ensures Pushing(outbound, messages, outstanding, outbound.popped, outbound.popped + outbound.queue,
                      nxtSeqno + |outbound.queue|, nxtSeqno, budget, timer.running, timer.ticks, [], budget)
    {
      assert WellCut([], nxtSeqno, isn, maxPayload) && SumSeqLen([]) == 0 && Payloads([]) == [];
      assert messages == messages + [] && outstanding == outstanding + [] && outbound.popped == outbound.popped + [];
    }

    /**
     * What the loop of lines 49-78 has done once it stops at `Pushing` with `left` space:
     * for a call that began with ready queue `m0`, outstanding queue `o0`, popped bytes
     * `popped0`, buffered bytes `queue0`, next sequence number `nxt0` and budget `budget`.
     */
    lemma PushDone(outbound: ByteStream, m0: seq<TCPSenderMessage>, o0: seq<TCPSenderMessage>,
                   popped0: seq<Byte>, queue0: seq<Byte>, bound: nat, nxt0: nat, budget: nat,
                   running0: bool, ticks0: u64, sent: seq<TCPSenderMessage>, left: nat)
      requires Pushing(outbound, m0, o0, popped0, popped0 + queue0, bound, nxt0, budget, running0, ticks0, sent, left)
      requires budget < U64
      requires !finSent ==> left == 0 || (nxtSeqno != 0 && if outbound.queue == [] then !outbound.closed else maxPayload == 0)
      ensures Valid() && outbound.Valid() && outbound.Written() == popped0 + queue0
      ensures messages == m0 + sent && outstanding == o0 + sent
      ensures nxtSeqno == nxt0 + SumSeqLen(sent) && SumSeqLen(sent) <= budget
      ensures WellCut(sent, nxt0, isn, maxPayload)
      ensures finSent == (|sent| > 0 && sent[|sent| - 1].fin) && (finSent ==> outbound.IsFinished())
      ensures outbound.popped == popped0 + Payloads(sent) && queue0 == Payloads(sent) + outbound.queue
      ensures Filled(sent, budget, |queue0|, outbound.closed, maxPayload)
      ensures forall i :: 0 <= i < |sent| ==>
                CutInTurn(sent, nxt0, isn, budget, queue0, outbound.closed, maxPayload, i)
      ensures !finSent ==> SumSeqLen(sent) == budget || (nxtSeqno != 0 && if outbound.queue == [] then !outbound.closed else maxPayload == 0)
      ensures if sent != [] && !running0 then timer.ticks == 0 else timer.ticks == ticks0
    {
      assert |popped0 + queue0| - |popped0| == |queue0|;
      AppendAssoc(popped0, Payloads(sent), outbound.queue);
      CancelPrefix(popped0, queue0, Payloads(sent) + outbound.queue);
      SentAll(sent, nxt0, isn, budget, queue0, outbound.closed, maxPayload);
    }

    /**
     * The loop of lines 49-78, once the FIN has not gone, for a call that began with
     * ready queue `m0`, outstanding queue `o0`, popped bytes `popped0`, buffered bytes
     * `queue0`, next sequence number `nxt0` and window budget `budget`; `sent` are the
     * segments emitted.
     */
    method PushRun(outbound: ByteStream, space0: u64, ghost m0: seq<TCPSenderMessage>, ghost o0: seq<TCPSenderMessage>,
                   ghost popped0: seq<Byte>, ghost queue0: seq<Byte>, ghost bound: nat, ghost nxt0: nat,
                   ghost budget: nat, ghost running0: bool, ghost ticks0: u64)
      returns (ghost sent: seq<TCPSenderMessage>)
      requires bound + 2 < U64 && !finSent
      requires Pushing(outbound, m0, o0, popped0, popped0 + queue0, bound, nxt0, budget, running0, ticks0, [], space0)
      modifies this`synSent, this`finSent, this`messages, this`outstanding, this`nxtSeqno, this`bytesInFlight
      modifies timer, outbound`queue, outbound`outLen, outbound`popped
      ensures Valid() && outbound.Valid() && outbound.Written() == popped0 + queue0
      ensures messages == m0 + sent && outstanding == o0 + sent
      ensures nxtSeqno == nxt0 + SumSeqLen(sent) && SumSeqLen(sent) <= budget
      ensures WellCut(sent, nxt0, isn, maxPayload)
      ensures finSent == (|sent| > 0 && sent[|sent| - 1].fin) && (finSent ==> outbound.IsFinished())
      ensures outbound.popped == popped0 + Payloads(sent) && queue0 == Payloads(sent) + outbound.queue
      ensures Filled(sent, budget, |queue0|, outbound.closed, maxPayload)
      ensures forall i :: 0 <= i < |sent| ==>
                CutInTurn(sent, nxt0, isn, budget, queue0, outbound.closed, maxPayload, i)
      ensures !finSent ==> SumSeqLen(sent) == budget || (nxtSeqno != 0 && if outbound.queue == [] then !outbound.closed else maxPayload == 0)
      ensures if sent != [] && !running0 then timer.ticks == 0 else timer.ticks == ticks0
    {
      var space := space0;
      sent := [];
      while space > 0 && !finSent
        invariant Pushing(outbound, m0, o0, popped0, popped0 + queue0, bound, nxt0, budget, running0, ticks0, sent, space)
      {
        var msg, rest := PushStep(outbound, space, m0, o0, popped0, popped0 + queue0, bound, nxt0, budget,
                                  running0, ticks0, sent);
        if msg.SequenceLength() == 0 {
          break;
        }
        sent := sent + [msg];
        space := rest;
      }
      PushDone(outbound, m0, o0, popped0, queue0, bound, nxt0, budget, running0, ticks0, sent, space);
    }

    /**
     * Where the loop of lines 49-78 stands after emitting `sent`, for a call of `push`
     * that started with ready queue `m0`, outstanding queue `o0`, popped bytes `popped0`,
     * stream contents `written0`, next sequence number `nxt0` with `bound` less
     * buffered bytes, window budget `budget` and timer state `running0`/`ticks0`.
     */
    ghost predicate Pushing(outbound: ByteStream, m0: seq<TCPSenderMessage>, o0: seq<TCPSenderMessage>,
                            popped0: seq<Byte>, written0: seq<Byte>, bound: nat, nxt0: nat, budget: nat,
                            running0: bool, ticks0: u64, sent: seq<TCPSenderMessage>, space: nat)
      reads this, timer, outbound
    {
      && Valid() && outbound.Valid() && outbound.Written() == written0
      && (!outbound.error || |outbound.queue| == 0)
      && messages == m0 + sent && outstanding == o0 + sent
      && Progressed(sent, nxt0, isn, maxPayload, budget, space, nxtSeqno, finSent)
      && Potential(nxtSeqno, |outbound.queue|, finSent) <= bound + 2
      && (finSent ==> outbound.IsFinished())
      && outbound.popped == popped0 + Payloads(sent)
      && Filled(sent, budget, |written0| - |popped0|, outbound.closed, maxPayload)
      && (sent == [] ==> timer.running == running0)
      && (if sent != [] && !running0 then timer.ticks == 0 else timer.ticks == ticks0)
    }

    /** One pass of the loop of lines 49-78, keeping `Pushing`. */
    method PushStep(outbound: ByteStream, space: u64, ghost m0: seq<TCPSenderMessage>, ghost o0: seq<TCPSenderMessage>,
                    ghost popped0: seq<Byte>, ghost written0: seq<Byte>, ghost bound: nat, ghost nxt0: nat,
                    ghost budget: nat, ghost running0: bool, ghost ticks0: u64, ghost sent: seq<TCPSenderMessage>)
      returns (msg: TCPSenderMessage, rest: u64)
      requires bound + 2 < U64
      requires Pushing(outbound, m0, o0, popped0, written0, bound, nxt0, budget, running0, ticks0, sent, space)
      requires space > 0 && !finSent
      modifies this`synSent, this`finSent, this`messages, this`outstanding, this`nxtSeqno, this`bytesInFlight
      modifies timer, outbound`queue, outbound`outLen, outbound`popped
      ensures msg.SequenceLength() == 0 ==>
                && Pushing(outbound, m0, o0, popped0, written0, bound, nxt0, budget, running0, ticks0, sent, space)
                && !finSent && (nxtSeqno != 0 && if outbound.queue == [] then !outbound.closed else maxPayload == 0)
      ensures msg.SequenceLength() > 0 ==>
                && rest < space
                && Pushing(outbound, m0, o0, popped0, written0, bound, nxt0, budget, running0, ticks0, sent + [msg], rest)
    {
      ghost var queue0, popped1, syn0 := outbound.queue, outbound.popped, synSent;
      ghost var potential0 := Potential(nxtSeqno, |outbound.queue|, finSent);
      msg, rest := MakeSegment(outbound, space);
      if msg.SequenceLength() > 0 {
        SegmentCut(outbound, m0, o0, popped0, written0, bound, nxt0, budget, running0, ticks0, sent, space,
                   queue0, popped1, syn0, potential0, msg, rest);
        EmitStep(outbound, msg, rest, m0, o0, popped0, written0, bound, nxt0, budget, running0, ticks0, sent, space);
      } else {
        NoSegment(outbound, m0, o0, popped0, written0, bound, nxt0, budget, running0, ticks0, sent, space,
                  queue0, popped1, syn0, potential0, msg, rest);
      }
    }

    /**
     * Where `Pushing` held with ready bytes `queue0`, popped bytes `popped1`, SYN flag
     * `syn0` and potential `potential0`, and `MakeSegment` has cut `msg` leaving `rest`.
     */
    ghost predicate Segmented(outbound: ByteStream, m0: seq<TCPSenderMessage>, o0: seq<TCPSenderMessage>,
                              popped0: seq<Byte>, written0: seq<Byte>, bound: nat, nxt0: nat, budget: nat,
                              running0: bool, ticks0: u64, sent: seq<TCPSenderMessage>, space: u64,
                              queue0: seq<Byte>, popped1: seq<Byte>, syn0: bool, potential0: nat,
                              msg: TCPSenderMessage, rest: u64)
      reads this, timer, outbound
    {
      && bound + 2 < U64 && space > 0
      && bytesInFlight == SumSeqLen(outstanding) && SumSeqLen(outstanding) <= nxtSeqno
      && (syn0 <==> nxtSeqno > 0) && (timer.running <==> |outstanding| > 0)
      && outbound.Valid() && outbound.Written() == written0 && (!outbound.error || |queue0| == 0)
      && messages == m0 + sent && outstanding == o0 + sent
      && Progressed(sent, nxt0, isn, maxPayload, budget, space, nxtSeqno, false)
      && potential0 == Potential(nxtSeqno, |queue0|, false) && potential0 <= bound + 2
      && popped1 == popped0 + Payloads(sent)
      && (msg, rest) == Segment(nxtSeqno, isn, queue0, outbound.closed, space, maxPayload)
      && outbound.queue == queue0[|msg.payload|..] && outbound.popped == popped1 + msg.payload
      && synSent == (syn0 || msg.syn) && finSent == msg.fin
      && Filled(sent, budget, |written0| - |popped0|, outbound.closed, maxPayload)
      && (sent == [] ==> timer.running == running0)
      && (if sent != [] && !running0 then timer.ticks == 0 else timer.ticks == ticks0)
    }

    /** A segment of positive length cut where `Pushing` held leaves the state `Cut` describes. */
    lemma SegmentCut(outbound: ByteStream, m0: seq<TCPSenderMessage>, o0: seq<TCPSenderMessage>,
                     popped0: seq<Byte>, written0: seq<Byte>, bound: nat, nxt0: nat, budget: nat,
                     running0: bool, ticks0: u64, sent: seq<TCPSenderMessage>, space: u64,
                     queue0: seq<Byte>, popped1: seq<Byte>, syn0: bool, potential0: nat,
                     msg: TCPSenderMessage, rest: u64)
      requires Segmented(outbound, m0, o0, popped0, written0, bound, nxt0, budget, running0, ticks0, sent, space,
                         queue0, popped1, syn0, potential0, msg, rest)
      requires msg.SequenceLength() > 0
      ensures Cut(outbound, m0, o0, popped0, written0, bound, nxt0, budget, running0, ticks0, sent, space, msg, rest)
    {
      assert |written0| - |popped0| - |Payloads(sent)| == |outbound.queue| + |msg.payload|;
      FilledAppend(sent, budget, |written0| - |popped0|, outbound.closed, maxPayload, msg,
                   budget - SumSeqLen(sent), |outbound.queue|);
    }

    /** A segment of length zero leaves `Pushing` as it was, with nothing left to send. */
    lemma NoSegment(outbound: ByteStream, m0: seq<TCPSenderMessage>, o0: seq<TCPSenderMessage>,
                    popped0: seq<Byte>, written0: seq<Byte>, bound: nat, nxt0: nat, budget: nat,
                    running0: bool, ticks0: u64, sent: seq<TCPSenderMessage>, space: u64,
                    queue0: seq<Byte>, popped1: seq<Byte>, syn0: bool, potential0: nat,
                    msg: TCPSenderMessage, rest: u64)
      requires Segmented(outbound, m0, o0, popped0, written0, bound, nxt0, budget, running0, ticks0, sent, space,
                         queue0, popped1, syn0, potential0, msg, rest)
      requires msg.SequenceLength() == 0
      ensures Pushing(outbound, m0, o0, popped0, written0, bound, nxt0, budget, running0, ticks0, sent, space)
      ensures !finSent && (nxtSeqno != 0 && if outbound.queue == [] then !outbound.closed else maxPayload == 0)
    {
    }

    /**
     * Where one pass of the loop of lines 49-78 stands once `msg`, of positive length,
     * has been cut from `space` leaving `rest`, before it is emitted.
     */
    ghost predicate Cut(outbound: ByteStream, m0: seq<TCPSenderMessage>, o0: seq<TCPSenderMessage>,
                        popped0: seq<Byte>, written0: seq<Byte>, bound: nat, nxt0: nat, budget: nat,
                        running0: bool, ticks0: u64, sent: seq<TCPSenderMessage>, space: nat,
                        msg: TCPSenderMessage, rest: nat)
      reads this, timer, outbound
    {
      && bytesInFlight == SumSeqLen(outstanding) && SumSeqLen(outstanding) <= nxtSeqno
      && (timer.running <==> |outstanding| > 0) && synSent
      && outbound.Valid() && outbound.Written() == written0
      && (!outbound.error || |outbound.queue| == 0)
      && messages == m0 + sent && outstanding == o0 + sent
      && Progressed(sent, nxt0, isn, maxPayload, budget, space, nxtSeqno, false)
      && rest + msg.SequenceLength() == space && 0 < msg.SequenceLength()
      && msg.seqno == Wrap(nxtSeqno, isn) && (msg.syn <==> nxtSeqno == 0) && |msg.payload| <= maxPayload
      && finSent == msg.fin && (finSent ==> outbound.IsFinished())
      && Potential(nxtSeqno + msg.SequenceLength(), |outbound.queue|, finSent) <= bound + 2
      && bound + 2 < U64
      && outbound.popped == popped0 + Payloads(sent) + msg.payload
      && Filled(sent + [msg], budget, |written0| - |popped0|, outbound.closed, maxPayload)
      && (sent == [] ==> timer.running == running0)
      && (if sent != [] && !running0 then timer.ticks == 0 else timer.ticks == ticks0)
    }

    /** Lines 70-76 within one pass of the loop: emitting the cut segment keeps `Pushing`. */
    method EmitStep(outbound: ByteStream, msg: TCPSenderMessage, rest: u64, ghost m0: seq<TCPSenderMessage>,
                    ghost o0: seq<TCPSenderMessage>, ghost popped0: seq<Byte>, ghost written0: seq<Byte>,
                    ghost bound: nat, ghost nxt0: nat, ghost budget: nat, ghost running0: bool, ghost ticks0: u64,
                    ghost sent: seq<TCPSenderMessage>, ghost space: nat)
      requires Cut(outbound, m0, o0, popped0, written0, bound, nxt0, budget, running0, ticks0, sent, space, msg, rest)
      modifies this`messages, this`outstanding, this`nxtSeqno, this`bytesInFlight, timer
      ensures rest < space
      ensures Pushing(outbound, m0, o0, popped0, written0, bound, nxt0, budget, running0, ticks0, sent + [msg], rest)
    {
      ghost var nxt, running, ticks := nxtSeqno, timer.running, timer.ticks;
      Emit(msg);
      EmitDone(outbound, m0, o0, popped0, written0, bound, nxt0, budget, running0, ticks0, sent, space, msg, rest,
               nxt, running, ticks);
    }

    /** The state `Emit` leaves after a segment cut as `Cut` describes is where `Pushing` continues. */
    lemma EmitDone(outbound: ByteStream, m0: seq<TCPSenderMessage>, o0: seq<TCPSenderMessage>,
                   popped0: seq<Byte>, written0: seq<Byte>, bound: nat, nxt0: nat, budget: nat,
                   running0: bool, ticks0: u64, sent: seq<TCPSenderMessage>, space: nat,
                   msg: TCPSenderMessage, rest: nat, nxt: u64, running: bool, ticks: u64)
      requires bytesInFlight == SumSeqLen(outstanding) && SumSeqLen(outstanding) <= nxtSeqno
      requires timer.running && synSent && |outstanding| > 0
      requires outbound.Valid() && outbound.Written() == written0 && (!outbound.error || |outbound.queue| == 0)
      requires messages == m0 + sent + [msg] && outstanding == o0 + sent + [msg]
      requires Progressed(sent, nxt0, isn, maxPayload, budget, space, nxt, false)
      requires rest + msg.SequenceLength() == space && 0 < msg.SequenceLength()
      requires msg.seqno == Wrap(nxt, isn) && (msg.syn <==> nxt == 0) && |msg.payload| <= maxPayload
      requires nxtSeqno == nxt + msg.SequenceLength()
      requires finSent == msg.fin && (finSent ==> outbound.IsFinished())
      requires Potential(nxtSeqno, |outbound.queue|, finSent) <= bound + 2
      requires outbound.popped == popped0 + Payloads(sent) + msg.payload
      requires Filled(sent + [msg], budget, |written0| - |popped0|, outbound.closed, maxPayload)
      requires sent == [] ==> running == running0
      requires if sent != [] && !running0 then ticks == 0 else ticks == ticks0
      requires sent != [] ==> running
      requires timer.ticks == if running then ticks else 0
      ensures Pushing(outbound, m0, o0, popped0, written0, bound, nxt0, budget, running0, ticks0, sent + [msg], rest)
    {
      ProgressedStep(sent, nxt0, isn, maxPayload, budget, space, nxt, msg, rest);
      AppendAssoc(popped0, Payloads(sent), msg.payload);
      AppendAssoc(m0, sent, [msg]);
      AppendAssoc(o0, sent, [msg]);
    }

    /**
     * Lines 70-76: a non-empty segment joins the ready queue and the outstanding queue,
     * the timer starts if idle, and the next sequence number and the in-flight count
     * advance by its length.
     */
    method Emit(msg: TCPSenderMessage)
      requires bytesInFlight == SumSeqLen(outstanding) && SumSeqLen(outstanding) <= nxtSeqno
      requires timer.running <==> |outstanding| > 0
      requires 0 < msg.SequenceLength() && nxtSeqno + msg.SequenceLength() < U64
      modifies this`messages, this`outstanding, this`nxtSeqno, this`bytesInFlight, timer
      ensures messages == old(messages) + [msg] && outstanding == old(outstanding) + [msg]
      ensures nxtSeqno == old(nxtSeqno) + msg.SequenceLength()
      ensures bytesInFlight == SumSeqLen(outstanding) && SumSeqLen(outstanding) <= nxtSeqno
      ensures timer.running && timer.ticks == if old(timer.running) then old(timer.ticks) else 0
    {
      var len := msg.SequenceLength();
      messages := messages + [msg];
      if !timer.InRun() {
        timer.Start();
      }
      SumSeqLenAppend(outstanding, msg);
      outstanding := outstanding + [msg];
      nxtSeqno := nxtSeqno + len;
      bytesInFlight := bytesInFlight + len;
    }

    /**
     * `receive` (lines 87-117): take the ackno (unwrapped against the next sequence
     * number) even when it is then rejected for lying beyond what was sent; otherwise
     * take the window and retire outstanding segments from the front while each is
     * wholly acknowledged. Progress resets the timeout and the retransmission count and
     * restarts the timer if anything is still outstanding, else stops it.
     */
    method Receive(msg: TCPReceiverMessage)
      requires Valid()
      modifies this`rcvno, this`windowSize, this`outstanding, this`bytesInFlight, this`rto
      modifies this`consecutiveRetransmissions, timer
      ensures Valid()
      ensures rcvno == if msg.ackno.Some? then Unwrap(msg.ackno.value, isn, nxtSeqno) else old(rcvno)
      ensures rcvno > nxtSeqno ==>
                && windowSize == old(windowSize) && outstanding == old(outstanding)
                && timer.running == old(timer.running) && timer.ticks == old(timer.ticks)
                && rto == old(rto) && consecutiveRetransmissions == old(consecutiveRetransmissions)
      ensures rcvno <= nxtSeqno ==>
                && windowSize == msg.windowSize
                && outstanding == Retired(old(outstanding), isn, nxtSeqno, rcvno)
      ensures |outstanding| < |old(outstanding)| ==>
                rto == initialRTO && consecutiveRetransmissions == 0 && (timer.running ==> timer.ticks == 0)
      ensures |outstanding| == |old(outstanding)| ==>
                && rto == old(rto) && consecutiveRetransmissions == old(consecutiveRetransmissions)
                && timer.running == old(timer.running) && timer.ticks == old(timer.ticks)
    {
      if msg.ackno.Some? {
        rcvno := Unwrap(msg.ackno.value, isn, nxtSeqno);
      }
      if rcvno > nxtSeqno {
        return;
      }
      Accept(msg.windowSize);
    }

    /** Lines 91-116, for an ackno that does not lie beyond what was sent. */
    method Accept(w: u16)
      requires Valid() && rcvno <= nxtSeqno
      modifies this`windowSize, this`outstanding, this`bytesInFlight, this`rto
      modifies this`consecutiveRetransmissions, timer
      ensures Valid()
      ensures windowSize == w
      ensures outstanding == Retired(old(outstanding), isn, nxtSeqno, rcvno)
      ensures |outstanding| < |old(outstanding)| ==>
                rto == initialRTO && consecutiveRetransmissions == 0 && (timer.running ==> timer.ticks == 0)
      ensures |outstanding| == |old(outstanding)| ==>
                && rto == old(rto) && consecutiveRetransmissions == old(consecutiveRetransmissions)
                && timer.running == old(timer.running) && timer.ticks == old(timer.ticks)
    {
      windowSize := w;
      var retired := Retire();
      if retired > 0 {
        Restart();
      }
    }

    /** Lines 109-115: progress resets the timeout and the count, and restarts or stops the timer. */
    method Restart()
      modifies this`rto, this`consecutiveRetransmissions, timer
      ensures rto == initialRTO && consecutiveRetransmissions == 0
      ensures timer.running == (|outstanding| > 0) && (timer.running ==> timer.ticks == 0)
    {
      rto := initialRTO;
      if |outstanding| > 0 {
        timer.Start();
      } else {
        timer.Stop();
      }
      consecutiveRetransmissions := 0;
    }

    /**
     * Lines 96-107: retire outstanding segments from the front while each is wholly
     * acknowledged; `retired` counts them.
     */
    method Retire() returns (retired: nat)
      requires Valid()
      modifies this`outstanding, this`bytesInFlight
      ensures outstanding == Retired(old(outstanding), isn, nxtSeqno, rcvno)
      ensures retired == |old(outstanding)| - |outstanding|
      ensures bytesInFlight == SumSeqLen(outstanding) && SumSeqLen(outstanding) <= nxtSeqno
    {
      retired := 0;
      var queue, inFlight := outstanding, bytesInFlight;
      while |queue| > 0
        invariant outstanding == old(outstanding) && bytesInFlight == old(bytesInFlight)
        invariant retired <= |outstanding| && queue == outstanding[retired..]
        invariant Retired(queue, isn, nxtSeqno, rcvno) == Retired(outstanding, isn, nxtSeqno, rcvno)
        invariant inFlight == SumSeqLen(queue)
        decreases |queue|
      {
        var sMsg := queue[0];
        var len := sMsg.SequenceLength();
        if !Acked(sMsg, isn, nxtSeqno, rcvno) {
          break;
        }
        SumSeqLenDropFirst(queue);
        assert outstanding[retired..][1..] == outstanding[retired + 1..];
        queue := queue[1..];
        inFlight := inFlight - len;
        retired := retired + 1;
      }
      SumSeqLenSuffix(outstanding, retired);
      outstanding, bytesInFlight := queue, inFlight;
    }

    /**
     * `tick` (lines 119-132): on expiry with something outstanding, queue the oldest
     * outstanding segment again, double the timeout unless the window is zero, count
     * the retransmission, give `maybe_send` its chance (its result is dropped) and
     * restart the timer. The doubling is a 64-bit shift.
     */
    method Tick(ms: u64)
      requires Valid()
      modifies this, timer
      ensures Valid()
      ensures timer.ticks == if old(timer.running) && (old(timer.ticks) + ms) % U64 >= old(rto) && |outstanding| > 0
                             then 0 else (old(timer.ticks) + ms) % U64
      ensures outstanding == old(outstanding) && nxtSeqno == old(nxtSeqno) && rcvno == old(rcvno)
      ensures windowSize == old(windowSize) && bytesInFlight == old(bytesInFlight)
      ensures synSent == old(synSent) && finSent == old(finSent) && timer.running == old(timer.running)
      ensures if old(timer.running) && (old(timer.ticks) + ms) % U64 >= old(rto) && |outstanding| > 0 then
                && rto == (if windowSize != 0 then (old(rto) * 2) % U64 else old(rto))
                && consecutiveRetransmissions == (old(consecutiveRetransmissions) + 1) % U64
                && var ready := old(messages) + [outstanding[0]];
                   messages == (if consecutiveRetransmissions != 0 && (old(timer.ticks) + ms) % U64 > 0
                                then ready else ready[1..])
              else
                && rto == old(rto) && consecutiveRetransmissions == old(consecutiveRetransmissions)
                && messages == old(messages)
    {
      var expired := timer.Expired(ms, rto);
      if !expired || |outstanding| == 0 {
        return;
      }
      messages := messages + [outstanding[0]];
      if windowSize != 0 {
        rto := (rto * 2) % U64;
      }
      consecutiveRetransmissions := (consecutiveRetransmissions + 1) % U64;
      var _ := MaybeSend();
      timer.Start();
    }
  }
}
