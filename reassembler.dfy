/**
 * The reassembler: accepts possibly overlapping, out-of-order substrings of a byte
 * stream, keeps the part inside the acceptance window in an ordered map of pairwise
 * disjoint pending substrings, and writes the contiguous prefix to the output stream.
 */
module Reassemblers {
  import opened Common
  import opened ByteStreams

  /** `unassembled_substrings_`: start index to stored bytes. */
  type Pending = map<nat, seq<Byte>>

  /** One call of `insert`: the index of its first byte and its data. */
  datatype Piece = Piece(first: nat, data: seq<Byte>)

  // ---------------------------------------------------------------- provenance

  /** Call `p` carried byte `b` at stream index `i`. */
  predicate Supplies(p: Piece, i: nat, b: Byte)
  {
    p.first <= i < p.first + |p.data| && p.data[i - p.first] == b
  }

  /** Some call in the history `h` carried byte `b` at stream index `i`. */
  ghost predicate Provides(h: seq<Piece>, i: nat, b: Byte)
  {
    exists k :: 0 <= k < |h| && Supplies(h[k], i, b)
  }

  /** Every byte of `d`, placed at stream index `start`, was carried by some call. */
  ghost predicate AllProvided(h: seq<Piece>, start: nat, d: seq<Byte>)
  {
    forall j | 0 <= j < |d| :: Provides(h, start + j, d[j])
  }

  lemma AllProvidedExtend(h: seq<Piece>, p: Piece, start: nat, d: seq<Byte>)
    requires AllProvided(h, start, d)
    ensures AllProvided(h + [p], start, d)
  {
    forall j | 0 <= j < |d| ensures Provides(h + [p], start + j, d[j]) {
      var k :| 0 <= k < |h| && Supplies(h[k], start + j, d[j]);
      assert (h + [p])[k] == h[k];
    }
  }

  lemma AllProvidedSlice(h: seq<Piece>, start: nat, d: seq<Byte>, lo: nat, hi: nat)
    requires AllProvided(h, start, d) && lo <= hi <= |d|
    ensures AllProvided(h, start + lo, d[lo..hi])
  {
    forall j | 0 <= j < hi - lo ensures Provides(h, start + lo + j, d[lo..hi][j]) {
      assert d[lo..hi][j] == d[lo + j];
    }
  }

  lemma AllProvidedConcat(h: seq<Piece>, start: nat, a: seq<Byte>, b: seq<Byte>)
    requires AllProvided(h, start, a) && AllProvided(h, start + |a|, b)
    ensures AllProvided(h, start, a + b)
  {
    forall j | 0 <= j < |a + b| ensures Provides(h, start + j, (a + b)[j]) {
      if j < |a| {
        assert (a + b)[j] == a[j];
      } else {
        assert (a + b)[j] == b[j - |a|];
        assert start + j == start + |a| + (j - |a|);
      }
    }
  }

  /** The last call supplies every byte of a slice of its own data. */
  lemma LastCallProvides(h: seq<Piece>, start: nat, d: seq<Byte>)
    requires |h| > 0 && h[|h| - 1].first <= start
    requires start - h[|h| - 1].first + |d| <= |h[|h| - 1].data|
    requires d == h[|h| - 1].data[start - h[|h| - 1].first .. start - h[|h| - 1].first + |d|]
    ensures AllProvided(h, start, d)
  {
    var p := h[|h| - 1];
    forall j | 0 <= j < |d| ensures Provides(h, start + j, d[j]) {
      assert Supplies(h[|h| - 1], start + j, d[j]);
    }
  }

  // ---------------------------------------------------------------- the pending map

  ghost predicate KeysFrom(m: Pending, lo: nat)
  {
    forall k | k in m :: lo <= k && |m[k]| > 0
  }

  ghost predicate Disjoint(m: Pending)
  {
    forall a, b {:trigger m[a], m[b]} | a in m && b in m && a < b :: a + |m[a]| <= b
  }

  ghost predicate WithinWindow(m: Pending, hi: nat)
  {
    forall k | k in m :: k + |m[k]| <= hi
  }

  ghost predicate EntriesProvided(h: seq<Piece>, m: Pending)
  {
    forall k | k in m :: AllProvided(h, k, m[k])
  }

  /** Every entry of `m2` is an entry of `m1` with the same bytes. */
  ghost predicate SubMap(m2: Pending, m1: Pending)
  {
    forall k | k in m2 :: k in m1 && m2[k] == m1[k]
  }

  ghost function AnyKey(m: Pending): nat
    requires m != map[]
  {
    var k :| k in m; k
  }

  /** Stream index `i` lies inside some stored substring. */
  ghost predicate Covered(m: Pending, i: nat)
  {
    exists k :: k in m && k <= i < k + |m[k]|
  }

  /** Total number of bytes stored in `m`. */
  ghost function SumLengths(m: Pending): nat
    decreases |m|
  {
    if m == map[] then 0
    else
      var k := AnyKey(m);
      assert |m - {k}| < |m| by { CardRemove(m, k); }
      |m[k]| + SumLengths(m - {k})
  }

  lemma CardRemove(m: Pending, k: nat)
    requires k in m
    ensures |m - {k}| == |m| - 1
  {
    assert (m - {k}).Keys == m.Keys - {k};
    assert |m.Keys - {k}| == |m.Keys| - 1;
  }

  lemma {:induction false} SumLengthsRemove(m: Pending, k: nat)
    requires k in m
    ensures SumLengths(m) == |m[k]| + SumLengths(m - {k})
    decreases |m|
  {
    var a := AnyKey(m);
    if a != k {
      CardRemove(m, a);
      CardRemove(m, k);
      SumLengthsRemove(m - {a}, k);
      SumLengthsRemove(m - {k}, a);
      assert m - {a} - {k} == m - {k} - {a};
    }
  }

  lemma SumLengthsAdd(m: Pending, k: nat, d: seq<Byte>)
    requires k !in m
    ensures SumLengths(m[k := d]) == |d| + SumLengths(m)
  {
    SumLengthsRemove(m[k := d], k);
    assert m[k := d] - {k} == m;
  }

  lemma SumLengthsEmpty(m: Pending)
    requires KeysFrom(m, 0)
    ensures SumLengths(m) == 0 <==> m == map[]
  {
    if m != map[] {
      SumLengthsRemove(m, AnyKey(m));
    }
  }

  // ---------------------------------------------------------------- lines 22-52

  /** `x - 1` on `uint64_t`: zero wraps around to 2^64 - 1. */
  function Dec64(x: u64): (r: u64)
    ensures r == if x == 0 then U64 - 1 else x - 1
  {
    (x - 1) % U64
  }

  /**
   * The discard test of lines 22-23, in 64-bit arithmetic: empty data, no room in the
   * output, data wholly before the next needed index, or data starting at or after the
   * end of the acceptance window. While the stream stays below 2^64 bytes, it discards
   * exactly the data that does not meet the window [next, next + avail).
   */
  function Discards(first: u64, data: seq<Byte>, next: u64, avail: u64): (r: bool)
    ensures next + avail + |data| < U64 ==>
              (r <==> |data| == 0 || avail == 0 || first + |data| <= next || next + avail <= first)
  {
    || |data| == 0
    || avail == 0
    || (first + |data| - 1) % U64 < next
    || (next + avail) % U64 <= first
  }

  /**
   * Lines 34-52: clip the data to the acceptance window [next, next + avail). The result
   * is the part of the data inside the window, with its start index.
   */
  function Clip(first: nat, data: seq<Byte>, next: nat, avail: nat): (r: (nat, seq<Byte>))
    requires |data| > 0 && avail > 0 && next < first + |data| && first < next + avail
    ensures r.0 == Max(first, next) && r.0 + |r.1| == Min(first + |data|, next + avail)
    ensures 0 < |r.1| && r.1 == data[r.0 - first .. r.0 - first + |r.1|]
  {
    if next >= first then
      var overlapped := next - first;
      (next, data[overlapped .. overlapped + Min(|data| - overlapped, avail)])
    else
      var d := data[..Min(avail, |data|)];
      if first + |d| - 1 > next + avail - 1 then (first, d[..next + avail - first]) else (first, d)
  }

  // ---------------------------------------------------------------- lines 134-140

  /**
   * Lines 134-140 as written, after a push that took `pushed` bytes of the entry at
   * `subIndex`: `std::map::insert` leaves an existing key alone, so when nothing was pushed
   * the remainder is not re-inserted and `erase` then drops the entry, while its bytes stay
   * counted in `unassembled_bytes_`.
   */
  function RekeyAsWritten(m: Pending, bytes: nat, subIndex: nat, pushed: nat): (r: (Pending, int))
    requires subIndex in m && pushed <= |m[subIndex]|
    ensures subIndex !in r.0 && r.1 == bytes - pushed
    ensures forall k | k in m && k != subIndex :: k in r.0 && r.0[k] == m[k]
    ensures forall k | k in r.0 :: k in m || (k == subIndex + pushed && r.0[k] == m[subIndex][pushed..])
    ensures pushed == 0 ==> r.0 == m - {subIndex}
  {
    var next := subIndex + pushed;
    var inserted := if next in m then m else m[next := m[subIndex][pushed..]];
    (inserted - {subIndex}, bytes - pushed)
  }

  /** An output stream that refuses the push (closed or errored) makes the counter lie. */
  lemma RekeyAsWrittenLosesBytes()
    ensures var r := RekeyAsWritten(map[1 := [98]], 1, 1, 0);
      r.0 == map[] && r.1 == 1 && SumLengths(r.0) != r.1
  {
    var m: Pending := map[1 := [98]];
    assert (m - {1}) == map[];
  }

  /**
   * The evidently intended re-keying: the unpushed remainder stays pending at the new
   * next index, and the byte counter remains the sum of the stored lengths.
   */
  function Rekey(m: Pending, bytes: nat, subIndex: nat, pushed: nat): (r: (Pending, nat))
    requires subIndex in m && pushed < |m[subIndex]| && pushed <= bytes && subIndex + pushed !in m - {subIndex}
    ensures r.1 == bytes - pushed
    ensures subIndex + pushed in r.0 && r.0[subIndex + pushed] == m[subIndex][pushed..]
    ensures forall k | k in r.0 && k != subIndex + pushed :: k in m && k != subIndex && r.0[k] == m[k]
    ensures forall k | k in m && k != subIndex :: k in r.0
  {
    ((m - {subIndex})[subIndex + pushed := m[subIndex][pushed..]], bytes - pushed)
  }

  /** With disjoint entries, no other entry starts inside the one at `subIndex`. */
  lemma FreeKey(m: Pending, subIndex: nat, pushed: nat)
    requires Disjoint(m) && subIndex in m && pushed < |m[subIndex]|
    ensures subIndex + pushed !in m - {subIndex}
  {
    if subIndex + pushed in m - {subIndex} {
      assert false;
    }
  }

  /** Replacing the entry at `sub` by `d` under a fresh key changes the total by the difference in length. */
  lemma SumLengthsReplace(m: Pending, sub: nat, n: nat, d: seq<Byte>)
    requires sub in m && n !in m - {sub}
    ensures SumLengths((m - {sub})[n := d]) + |m[sub]| == SumLengths(m) + |d|
  {
    SumLengthsRemove(m, sub);
    SumLengthsAdd(m - {sub}, n, d);
  }

  /** The corrected re-keying keeps the byte counter equal to the sum of the stored lengths. */
  lemma RekeyKeepsCount(m: Pending, subIndex: nat, pushed: nat)
    requires subIndex in m && pushed < |m[subIndex]| && subIndex + pushed !in m - {subIndex}
    ensures pushed <= SumLengths(m)
    ensures var r := Rekey(m, SumLengths(m), subIndex, pushed); r.1 == SumLengths(r.0)
  {
    SumLengthsRemove(m, subIndex);
    SumLengthsReplace(m, subIndex, subIndex + pushed, m[subIndex][pushed..]);
  }

  // ---------------------------------------------------------------- ordered-map queries

  ghost predicate IsLowerBound(m: Pending, x: nat, r: Option<nat>)
  {
    && (r.None? <==> forall k | k in m :: k < x)
    && (r.Some? ==> r.value in m && x <= r.value && forall k | k in m && x <= k :: r.value <= k)
  }

  lemma MinExists(s: set<nat>)
    requires s != {}
    ensures exists k :: k in s && forall j | j in s :: k <= j
  {
    var x :| x in s;
    MinBelow(s, x);
  }

  /** Some element of `s` at or below `x` is the least. */
  lemma {:induction false} MinBelow(s: set<nat>, x: nat)
    requires x in s
    ensures exists k :: k in s && forall j | j in s :: k <= j
    decreases x
  {
    if y :| y in s && y < x {
      MinBelow(s, y);
    }
  }

  lemma MaxExists(s: set<nat>)
    requires s != {}
    ensures exists k :: k in s && forall j | j in s :: j <= k
  {
    var x :| x in s;
    MaxAbove(s, x);
  }

  /** Some element of `s` at or above `x` is the greatest. */
  lemma {:induction false} MaxAbove(s: set<nat>, x: nat)
    requires x in s
    ensures exists k :: k in s && forall j | j in s :: j <= k
    decreases set j | j in s && x < j
  {
    if y :| y in s && x < y {
      var above := set j | j in s && x < j;
      var beyond := set j | j in s && y < j;
      assert y in above && y !in beyond && beyond < above;
      MaxAbove(s, y);
    }
  }

  /** `std::map::lower_bound`: the smallest key at or after `x`. */
  method LowerBound(m: Pending, x: nat) returns (r: Option<nat>)
    ensures IsLowerBound(m, x, r)
  {
    var ks := set k | k in m && x <= k;
    assert forall k | k in m && x <= k :: k in ks;
    if ks == {} {
      return None;
    }
    MinExists(ks);
    var k :| k in ks && forall j | j in ks :: k <= j;
    return Some(k);
  }

  /** `std::prev(std::map::upper_bound(x))`: the largest key at or before `x`. */
  method Floor(m: Pending, x: nat) returns (r: Option<nat>)
    ensures r.None? <==> forall k | k in m :: x < k
    ensures r.Some? ==> r.value in m && r.value <= x && forall k | k in m && k <= x :: k <= r.value
  {
    var ks := set k | k in m && k <= x;
    assert forall k | k in m && k <= x :: k in ks;
    if ks == {} {
      return None;
    }
    MaxExists(ks);
    var k :| k in ks && forall j | j in ks :: j <= k;
    return Some(k);
  }

  // ---------------------------------------------------------------- the invariant on values

  /**
   * The reassembler's invariant: stored substrings are non-empty, start at or after the
   * next needed index, do not overlap, are counted exactly by the byte counter, and
   * consist of bytes carried by earlier calls.
   */
  ghost predicate Inv(m: Pending, bytes: nat, next: nat, h: seq<Piece>)
  {
    && KeysFrom(m, next)
    && Disjoint(m)
    && bytes == SumLengths(m)
    && EntriesProvided(h, m)
  }

  /** Erasing a stored substring keeps the invariant, with its bytes uncounted. */
  lemma EraseKeepsInv(m: Pending, bytes: nat, next: nat, h: seq<Piece>, k: nat, hi: nat)
    requires Inv(m, bytes, next, h) && k in m && WithinWindow(m, hi)
    ensures |m[k]| <= bytes && |m - {k}| < |m|
    ensures Inv(m - {k}, bytes - |m[k]|, next, h) && WithinWindow(m - {k}, hi) && SubMap(m - {k}, m)
  {
    SumLengthsRemove(m, k);
    CardRemove(m, k);
  }

  /** Extending the history keeps the invariant. */
  lemma ExtendKeepsInv(m: Pending, bytes: nat, next: nat, h: seq<Piece>, p: Piece)
    requires Inv(m, bytes, next, h)
    ensures Inv(m, bytes, next, h + [p])
  {
    forall k | k in m ensures AllProvided(h + [p], k, m[k]) {
      AllProvidedExtend(h, p, k, m[k]);
    }
  }

  // ---------------------------------------------------------------- lines 57-85, on values

  /**
   * Progress of the rear-overlap pass over the map `m0` it started from: entries are only
   * erased, every remaining entry between the data start and the cursor lies after the
   * data, and every erased entry was covered by the data (or the data is empty at index
   * zero, where the 64-bit test of line 61 wraps around).
   */
  ghost predicate RearProgress(m0: Pending, m: Pending, newIndex: nat, cursor: nat, dLen: nat, dataLen: nat)
  {
    && SubMap(m, m0)
    && newIndex <= cursor
    && (forall k | k in m && newIndex <= k < cursor :: newIndex + dLen <= k)
    && (forall k | k in m0 && k !in m ::
          newIndex <= k && (k + |m0[k]| <= newIndex + dataLen || (newIndex == 0 && dLen == 0)))
  }

  lemma RearEraseStep(m0: Pending, m: Pending, newIndex: nat, cursor: nat, dLen: nat, dataLen: nat, k: nat)
    requires RearProgress(m0, m, newIndex, cursor, dLen, dataLen) && dLen <= dataLen
    requires KeysFrom(m, 0) && Disjoint(m) && IsLowerBound(m, cursor, Some(k))
    requires k + |m[k]| <= newIndex + dLen || (newIndex == 0 && dLen == 0)
    ensures RearProgress(m0, m - {k}, newIndex, k + |m[k]| - 1, dLen, dataLen)
  {
    RearEraseBelow(m, newIndex, cursor, dLen, k);
    RearEraseGone(m0, m, newIndex, dLen, dataLen, k);
  }

  /** After erasing the entry at `k`, no entry starts between the cursor and its end. */
  lemma RearEraseBelow(m: Pending, newIndex: nat, cursor: nat, dLen: nat, k: nat)
    requires forall j | j in m && newIndex <= j < cursor :: newIndex + dLen <= j
    requires KeysFrom(m, 0) && Disjoint(m) && IsLowerBound(m, cursor, Some(k))
    ensures forall j | j in m - {k} && newIndex <= j < k + |m[k]| - 1 :: newIndex + dLen <= j
  {
    forall j | j in m - {k} && newIndex <= j < k + |m[k]| - 1
      ensures newIndex + dLen <= j
    {
      if j >= cursor {
        assert false;
      }
    }
  }

  /** The erased entry lies within the data. */
  lemma RearEraseGone(m0: Pending, m: Pending, newIndex: nat, dLen: nat, dataLen: nat, k: nat)
    requires SubMap(m, m0) && k in m && newIndex <= k && dLen <= dataLen
    requires forall j | j in m0 && j !in m ::
          newIndex <= j && (j + |m0[j]| <= newIndex + dataLen || (newIndex == 0 && dLen == 0))
    requires k + |m[k]| <= newIndex + dLen || (newIndex == 0 && dLen == 0)
    ensures forall j | j in m0 && j !in m - {k} ::
          newIndex <= j && (j + |m0[j]| <= newIndex + dataLen || (newIndex == 0 && dLen == 0))
  {
  }

  lemma RearTrimStep(m0: Pending, m: Pending, newIndex: nat, cursor: nat, dLen: nat, dataLen: nat, k: nat)
    requires RearProgress(m0, m, newIndex, cursor, dLen, dataLen)
    requires KeysFrom(m, 0) && Disjoint(m) && IsLowerBound(m, cursor, Some(k))
    requires newIndex <= k <= newIndex + dLen
    ensures RearProgress(m0, m, newIndex, k + |m[k]| - 1, k - newIndex, dataLen)
  {
    assert forall j | j in m && newIndex <= j < k + |m[k]| - 1 :: newIndex + (k - newIndex) <= j;
  }

  /** The loop invariant of the rear-overlap pass of lines 57-85. */
  ghost predicate RearLoop(m0: Pending, m: Pending, bytes: nat, next: nat, h: seq<Piece>, windowEnd: nat,
                           newIndex: nat, data: seq<Byte>, d: seq<Byte>, cursor: nat, rear: Option<nat>)
  {
    && Inv(m, bytes, next, h) && WithinWindow(m, windowEnd)
    && |d| <= |data| && d == data[..|d|] && AllProvided(h, newIndex, d)
    && RearProgress(m0, m, newIndex, cursor, |d|, |data|)
    && IsLowerBound(m, cursor, rear)
    && RearCut(m0, m, newIndex, |data|, d, rear)
  }

  /**
   * Where the pass has cut the data short, it was cut exactly where a surviving stored
   * substring starts, that substring reaches past the data's original end, and no later
   * substring is left to visit; data cut to nothing was cut at a substring starting at
   * the data's own start. The exception is data cut to nothing at index zero, where the
   * 64-bit test of line 61 wraps around and the rest of the map is erased.
   */
  ghost predicate RearCut(m0: Pending, m: Pending, newIndex: nat, dataLen: nat, d: seq<Byte>, rear: Option<nat>)
  {
    && (d == [] ==> newIndex in m0)
    && (|d| < dataLen && !(newIndex == 0 && d == []) ==>
          && newIndex + |d| in m && newIndex + dataLen < newIndex + |d| + |m[newIndex + |d|]|
          && (rear.None? || newIndex + |d| <= rear.value))
  }

  /** Erasing a stored substring the data covers keeps the loop invariant. */
  lemma RearLoopErase(m0: Pending, m: Pending, bytes: nat, next: nat, h: seq<Piece>, windowEnd: nat,
                      newIndex: nat, data: seq<Byte>, d: seq<Byte>, cursor: nat, k: nat, rear: Option<nat>)
    requires RearLoop(m0, m, bytes, next, h, windowEnd, newIndex, data, d, cursor, Some(k))
    requires k + |m[k]| <= newIndex + |d| || (newIndex == 0 && d == [])
    requires IsLowerBound(m - {k}, k + |m[k]| - 1, rear)
    ensures |m[k]| <= bytes && |m - {k}| < |m|
    ensures RearLoop(m0, m - {k}, bytes - |m[k]|, next, h, windowEnd, newIndex, data, d, k + |m[k]| - 1, rear)
  {
    RearEraseStep(m0, m, newIndex, cursor, |d|, |data|, k);
    EraseKeepsInv(m, bytes, next, h, k, windowEnd);
  }

  /** Cutting the tail of the data at a stored substring keeps the loop invariant. */
  lemma RearLoopTrim(m0: Pending, m: Pending, bytes: nat, next: nat, h: seq<Piece>, windowEnd: nat,
                     newIndex: nat, data: seq<Byte>, d: seq<Byte>, cursor: nat, k: nat, rear: Option<nat>)
    requires RearLoop(m0, m, bytes, next, h, windowEnd, newIndex, data, d, cursor, Some(k))
    requires newIndex <= k < newIndex + |d| < k + |m[k]|
    requires IsLowerBound(m, k + |m[k]| - 1, rear)
    ensures RearLoop(m0, m, bytes, next, h, windowEnd, newIndex, data, d[..k - newIndex], k + |m[k]| - 1, rear)
  {
    RearTrimStep(m0, m, newIndex, cursor, |d|, |data|, k);
    AllProvidedSlice(h, newIndex, d, 0, k - newIndex);
    assert d[..k - newIndex] == data[..k - newIndex];
  }

  /** The loop invariant holds before the first round. */
  lemma RearLoopInit(m0: Pending, bytes0: nat, next: nat, h: seq<Piece>, windowEnd: nat,
                     newIndex: nat, data: seq<Byte>, rear: Option<nat>)
    requires Inv(m0, bytes0, next, h) && WithinWindow(m0, windowEnd)
    requires 0 < |data| && AllProvided(h, newIndex, data) && IsLowerBound(m0, newIndex, rear)
    ensures RearLoop(m0, m0, bytes0, next, h, windowEnd, newIndex, data, data, newIndex, rear)
  {
    assert data[..|data|] == data;
  }

  /** When the pass stops, every remaining entry from the data start on lies after the data. */
  lemma RearLoopDone(m0: Pending, m: Pending, bytes: nat, next: nat, h: seq<Piece>, windowEnd: nat,
                     newIndex: nat, data: seq<Byte>, d: seq<Byte>, cursor: nat, rear: Option<nat>)
    requires RearLoop(m0, m, bytes, next, h, windowEnd, newIndex, data, d, cursor, rear)
    requires rear.None? || newIndex + |d| <= rear.value
    ensures Inv(m, bytes, next, h) && WithinWindow(m, windowEnd) && SubMap(m, m0)
    ensures |d| <= |data| && d == data[..|d|] && AllProvided(h, newIndex, d)
    ensures forall k | k in m && newIndex <= k :: newIndex + |d| <= k
    ensures forall k | k in m0 && k !in m ::
              newIndex <= k && (k + |m0[k]| <= newIndex + |data| || (newIndex == 0 && d == []))
    ensures d == [] ==> newIndex in m0
    ensures |d| < |data| && !(newIndex == 0 && d == []) ==>
              newIndex + |d| in m && newIndex + |data| < newIndex + |d| + |m[newIndex + |d|]|
  {
    forall k | k in m && newIndex <= k ensures newIndex + |d| <= k {
      if k >= cursor {
        assert rear.Some? && rear.value <= k;
      }
    }
  }

  /**
   * The three 64-bit tests of lines 59-61 on a stored substring [k, k + len) inside the
   * window, against the data ending at `end`, read as comparisons of unbounded indices.
   */
  lemma RearTests(end: nat, k: nat, len: nat, windowEnd: nat)
    requires 0 < len && k + len <= windowEnd < U64 && end < U64
    ensures Dec64(end) < k ==> end <= k
    ensures !(Dec64(end) < k) && Dec64(end) < k + len - 1 ==> k < end < k + len
    ensures !(Dec64(end) < k) && !(Dec64(end) < k + len - 1) ==> k + len <= end || end == 0
  {
  }

  /**
   * One round of the loop of lines 57-85, at the stored substring `rear` names: stop when
   * it starts after the data (the test of line 61 is a 64-bit subtraction), erase it when
   * the data covers it, and otherwise cut the tail of the data where it starts.
   */
  method RearStep(ghost m0: Pending, m: Pending, bytes: nat, next: nat, ghost h: seq<Piece>, windowEnd: nat,
                  newIndex: nat, data: seq<Byte>, d: seq<Byte>, cursor: nat, rear: Option<nat>)
    returns (m': Pending, bytes': nat, d': seq<Byte>, cursor': nat, rear': Option<nat>, stop: bool)
    requires RearLoop(m0, m, bytes, next, h, windowEnd, newIndex, data, d, cursor, rear) && rear.Some?
    requires windowEnd < U64 && newIndex + |data| <= windowEnd
    ensures RearLoop(m0, m', bytes', next, h, windowEnd, newIndex, data, d', cursor', rear')
    ensures stop ==> rear'.Some? && newIndex + |d'| <= rear'.value && |m'| == |m| && |d'| == |d|
    ensures !stop ==> |m'| < |m| || (|m'| == |m| && |d'| < |d|)
  {
    var rearIndex: nat := rear.value;
    var rearData := m[rearIndex];
    var dataLast := Dec64(newIndex + |d|);
    RearTests(newIndex + |d|, rearIndex, |rearData|, windowEnd);
    if dataLast < rearIndex {
      return m, bytes, d, cursor, rear, true;
    }
    if dataLast < rearIndex + |rearData| - 1 {
      d', cursor', rear' := RearTrim(m0, m, bytes, next, h, windowEnd, newIndex, data, d, cursor, rearIndex);
      m', bytes', stop := m, bytes, false;
    } else {
      m', bytes', cursor', rear' := RearErase(m0, m, bytes, next, h, windowEnd, newIndex, data, d, cursor, rearIndex);
      d', stop := d, false;
    }
  }

  /** Lines 65-67, 80 and 84: the stored substring at `k` reaches past the data, so the data's tail is cut there. */
  method RearTrim(ghost m0: Pending, m: Pending, bytes: nat, next: nat, ghost h: seq<Piece>, windowEnd: nat,
                  newIndex: nat, data: seq<Byte>, d: seq<Byte>, cursor: nat, k: nat)
    returns (d': seq<Byte>, cursor': nat, rear': Option<nat>)
    requires RearLoop(m0, m, bytes, next, h, windowEnd, newIndex, data, d, cursor, Some(k))
    requires k < newIndex + |d| < k + |m[k]|
    ensures RearLoop(m0, m, bytes, next, h, windowEnd, newIndex, data, d', cursor', rear')
    ensures d' == d[..k - newIndex] && cursor' == k + |m[k]| - 1
  {
    var nextRear: nat := k + |m[k]| - 1;
    var rearOverlapped := newIndex + |d| - k;
    rear' := LowerBound(m, nextRear);
    RearLoopTrim(m0, m, bytes, next, h, windowEnd, newIndex, data, d, cursor, k, rear');
    d', cursor' := d[..|d| - rearOverlapped], nextRear;
  }

  /** Lines 69, 73-77 and 84: the data covers the stored substring at `k`, which is erased. */
  method RearErase(ghost m0: Pending, m: Pending, bytes: nat, next: nat, ghost h: seq<Piece>, windowEnd: nat,
                   newIndex: nat, data: seq<Byte>, d: seq<Byte>, cursor: nat, k: nat)
    returns (m': Pending, bytes': nat, cursor': nat, rear': Option<nat>)
    requires RearLoop(m0, m, bytes, next, h, windowEnd, newIndex, data, d, cursor, Some(k))
    requires k + |m[k]| <= newIndex + |d| || (newIndex == 0 && d == [])
    ensures RearLoop(m0, m', bytes', next, h, windowEnd, newIndex, data, d, cursor', rear') && |m'| < |m|
  {
    var nextRear: nat := k + |m[k]| - 1;
    rear' := LowerBound(m - {k}, nextRear);
    RearLoopErase(m0, m, bytes, next, h, windowEnd, newIndex, data, d, cursor, k, rear');
    m', bytes', cursor' := m - {k}, bytes - |m[k]|, nextRear;
  }

  /**
   * Lines 57-85: resolve overlap of the clipped data, which starts at `newIndex`, with
   * the stored substrings starting at or after it. Covered entries are erased; an
   * entry that reaches further cuts the tail of the data.
   */
  method ResolveRearOn(m0: Pending, bytes0: nat, next: nat, ghost h: seq<Piece>, newIndex: nat, data: seq<Byte>, windowEnd: nat)
    returns (m: Pending, bytes: nat, d: seq<Byte>)
    requires Inv(m0, bytes0, next, h) && WithinWindow(m0, windowEnd) && windowEnd < U64
    requires next <= newIndex && 0 < |data| && newIndex + |data| <= windowEnd
    requires AllProvided(h, newIndex, data)
    ensures Inv(m, bytes, next, h) && WithinWindow(m, windowEnd) && SubMap(m, m0)
    ensures |d| <= |data| && d == data[..|d|] && AllProvided(h, newIndex, d)
    ensures forall k | k in m && newIndex <= k :: newIndex + |d| <= k
    ensures forall k | k in m0 && k !in m ::
              newIndex <= k && (k + |m0[k]| <= newIndex + |data| || (newIndex == 0 && d == []))
    ensures d == [] ==> newIndex in m0
    ensures |d| < |data| && !(newIndex == 0 && d == []) ==>
              newIndex + |d| in m && newIndex + |data| < newIndex + |d| + |m[newIndex + |d|]|
  {
    m, bytes, d := m0, bytes0, data;
    var cursor: nat := newIndex;
    var rear := LowerBound(m, newIndex);
    RearLoopInit(m0, bytes0, next, h, windowEnd, newIndex, data, rear);
    var stop := false;
    while rear.Some? && !stop
      invariant RearLoop(m0, m, bytes, next, h, windowEnd, newIndex, data, d, cursor, rear)
      invariant stop ==> rear.Some? && newIndex + |d| <= rear.value
      decreases |m|, |d|, if stop then 0 else 1
    {
      m, bytes, d, cursor, rear, stop := RearStep(m0, m, bytes, next, h, windowEnd, newIndex, data, d, cursor, rear);
    }
    RearLoopDone(m0, m, bytes, next, h, windowEnd, newIndex, data, d, cursor, rear);
    assert |d| < |data| && !(newIndex == 0 && d == []) ==>
             newIndex + |d| in m && newIndex + |data| < newIndex + |d| + |m[newIndex + |d|]|;
  }

  // ---------------------------------------------------------------- lines 121-124, on values

  /** Storing the resolved data, which meets no stored substring, keeps the invariant. */
  lemma StoreKeepsInv(m: Pending, bytes: nat, next: nat, h: seq<Piece>, hi: nat, index: nat, d: seq<Byte>)
    requires Inv(m, bytes, next, h) && WithinWindow(m, hi)
    requires 0 < |d| && next <= index && index + |d| <= hi && AllProvided(h, index, d)
    requires forall k | k in m :: k + |m[k]| <= index || index + |d| <= k
    ensures index !in m
    ensures Inv(m[index := d], bytes + |d|, next, h) && WithinWindow(m[index := d], hi)
  {
    SumLengthsAdd(m, index, d);
  }

  /** A stored substring covering `i` still covers it once `d` is stored under a fresh key. */
  lemma CoveredStore(m: Pending, index: nat, d: seq<Byte>)
    requires index !in m
    ensures forall i: nat | Covered(m, i) :: Covered(m[index := d], i)
  {
    forall i: nat | Covered(m, i) ensures Covered(m[index := d], i) {
      var k: nat :| k in m && k <= i < k + |m[k]|;
      assert k in m[index := d] && m[index := d][k] == m[k];
    }
  }

  /** The entry of `m0` at `k` lies wholly inside the clipped data [lo, hi). */
  ghost predicate Inside(m0: Pending, k: nat, lo: nat, hi: nat)
    requires k in m0
  {
    lo <= k && k + |m0[k]| <= hi
  }

  /**
   * Where the entries of `m` come from, when `m0` was stored before a call carrying `data`
   * at `first` and clipped to [lo, hi): an entry of `m0` not wholly inside [lo, hi),
   * unchanged, or a slice of the data at its own indices inside [lo, hi).
   */
  ghost predicate EntriesFrom(m0: Pending, m: Pending, lo: nat, hi: nat, first: nat, data: seq<Byte>)
  {
    forall k | k in m ::
      || (k in m0 && !Inside(m0, k, lo, hi) && m[k] == m0[k])
      || (first <= lo <= k && k + |m[k]| <= hi && k + |m[k]| <= first + |data|
          && m[k] == data[k - first .. k + |m[k]| - first])
  }

  /**
   * Lines 57-124 on values: every index of the clipped data [lo, hi) and every index
   * stored before is stored afterwards; the stored entries that the data does not
   * wholly contain are kept unchanged, so where they overlap the data the stored bytes win;
   * the entries it does contain are dropped in favour of the data, and every entry
   * afterwards is an old one kept or a slice of the data.
   */
  ghost predicate Placed(m0: Pending, m: Pending, lo: nat, hi: nat, first: nat, data: seq<Byte>)
  {
    && (forall i | lo <= i < hi :: Covered(m, i))
    && (forall i: nat | Covered(m0, i) :: Covered(m, i))
    && (forall k | k in m0 && !Inside(m0, k, lo, hi) :: k in m && m[k] == m0[k])
    && EntriesFrom(m0, m, lo, hi, first, data)
  }

  /** `Placed` for the data carried at `first`, clipped to [next, next + avail), outside the 64-bit wrap at index 0. */
  ghost predicate PlacedFrom(m0: Pending, m: Pending, first: nat, data: seq<Byte>, next: nat, avail: nat)
  {
    !(first == 0 && 0 in m0) ==> Placed(m0, m, Max(first, next), Min(first + |data|, next + avail), first, data)
  }

  /**
   * The outcome of lines 57-114 for the clipped data `clip` at `lo`, from the map `m0`:
   * the rear pass leaves `m1` and the data `d1`, the front pass the data `d` at `index`.
   * The rear pass erases only entries the data wholly contains (or, at the 64-bit wrap,
   * entries after index 0); one it keeps that starts inside the data reaches past its end.
   */
  ghost predicate Resolved(m0: Pending, m1: Pending, lo: nat, clip: seq<Byte>, d1: seq<Byte>, index: nat, d: seq<Byte>)
  {
    && SubMap(m1, m0) && |d1| <= |clip| && d1 == clip[..|d1|]
    && (forall k | k in m1 && lo <= k :: lo + |d1| <= k)
    && (forall k | k in m0 && k !in m1 :: lo <= k && (k + |m0[k]| <= lo + |clip| || (lo == 0 && d1 == [])))
    && (d1 == [] ==> lo in m0)
    && (|d1| < |clip| && !(lo == 0 && d1 == []) ==> lo + |d1| in m1 && lo + |clip| < lo + |d1| + |m1[lo + |d1|]|)
    && lo <= index && index + |d| == lo + |d1| && d == d1[index - lo..]
    && (forall i | lo <= i < index :: Covered(m1, i))
  }

  /**
   * Lines 57-124 on values: after resolving and storing (`m2`), the entries are placed as
   * `PlacedFrom` says.
   */
  lemma PlaceSound(m0: Pending, m1: Pending, m2: Pending, next: nat, avail: nat, first: nat, data: seq<Byte>,
                   lo: nat, clip: seq<Byte>, d1: seq<Byte>, index: nat, d: seq<Byte>)
    requires Resolved(m0, m1, lo, clip, d1, index, d) && KeysFrom(m0, next) && Disjoint(m1)
    requires lo == Max(first, next) && lo + |clip| == Min(first + |data|, next + avail)
    requires lo - first + |clip| <= |data| && clip == data[lo - first .. lo - first + |clip|]
    requires d != [] ==> index !in m1
    requires m2 == if d == [] then m1 else m1[index := d]
    ensures PlacedFrom(m0, m2, first, data, next, avail)
  {
    if !(first == 0 && 0 in m0) {
      PlaceKeeps(m0, m1, m2, next, first, data, lo, Min(first + |data|, next + avail), clip, d1, index, d);
    }
  }

  /**
   * The rear pass, the front pass and the store of lines 57-124 place the data as
   * `Placed` says.
   */
  lemma PlaceKeeps(m0: Pending, m1: Pending, m2: Pending, next: nat, first: nat, data: seq<Byte>,
                   lo: nat, hi: nat, clip: seq<Byte>, d1: seq<Byte>, index: nat, d: seq<Byte>)
    requires Resolved(m0, m1, lo, clip, d1, index, d) && KeysFrom(m0, next) && Disjoint(m1) && hi == lo + |clip|
    requires first <= lo && lo - first + |clip| <= |data| && clip == data[lo - first .. lo - first + |clip|]
    requires !(first == 0 && 0 in m0)
    requires d != [] ==> index !in m1
    requires m2 == if d == [] then m1 else m1[index := d]
    ensures Placed(m0, m2, lo, hi, first, data)
  {
    assert !(lo == 0 && d1 == []);
    PlaceCovers(m0, m1, m2, lo, hi, clip, d1, index, d);
    PlaceKept(m0, m1, m2, lo, hi, clip, d1, index, d);
    if d != [] {
      ClipSlice(data, lo - first, clip, d1, index - lo, d);
    }
    PlaceEntriesFrom(m0, m1, m2, next, first, data, lo, hi, d1, index, d);
  }

  /**
   * Lines 57-124 lose no index: every index of the clipped data and every index stored
   * before lies inside a stored substring afterwards.
   */
  lemma PlaceCovers(m0: Pending, m1: Pending, m2: Pending, lo: nat, hi: nat, clip: seq<Byte>,
                    d1: seq<Byte>, index: nat, d: seq<Byte>)
    requires Resolved(m0, m1, lo, clip, d1, index, d) && hi == lo + |clip| && !(lo == 0 && d1 == [])
    requires d != [] ==> index !in m1
    requires m2 == if d == [] then m1 else m1[index := d]
    ensures forall i | lo <= i < hi :: Covered(m2, i)
    ensures forall i: nat | Covered(m0, i) :: Covered(m2, i)
  {
    if d != [] {
      CoveredStore(m1, index, d);
    }
    forall i | lo <= i < hi ensures Covered(m2, i) {
      if i < index {
        assert Covered(m1, i);
      } else if i < index + |d| {
        assert index in m2 && index <= i < index + |m2[index]|;
      } else {
        var c := lo + |d1|;
        assert c in m1 && c <= i < c + |m1[c]|;
        assert Covered(m1, i);
      }
    }
    forall i: nat | Covered(m0, i) ensures Covered(m2, i) {
      var k: nat :| k in m0 && k <= i < k + |m0[k]|;
      if k in m1 {
        assert m1[k] == m0[k] && Covered(m1, i);
      } else {
        assert lo <= i < hi;
      }
    }
  }

  /** An entry the rear pass erased lay wholly inside the data, so the others are kept. */
  lemma PlaceKept(m0: Pending, m1: Pending, m2: Pending, lo: nat, hi: nat, clip: seq<Byte>,
                  d1: seq<Byte>, index: nat, d: seq<Byte>)
    requires Resolved(m0, m1, lo, clip, d1, index, d) && hi == lo + |clip| && !(lo == 0 && d1 == [])
    requires d != [] ==> index !in m1
    requires m2 == if d == [] then m1 else m1[index := d]
    ensures forall k | k in m0 && !Inside(m0, k, lo, hi) :: k in m2 && m2[k] == m0[k]
  {
    forall k | k in m0 && !Inside(m0, k, lo, hi) ensures k in m2 && m2[k] == m0[k] {
      assert k in m1 && (d != [] ==> k != index);
    }
  }

  /** The data left by the front pass is the slice of the call's data at its indices. */
  lemma ClipSlice(data: seq<Byte>, s: nat, clip: seq<Byte>, d1: seq<Byte>, off: nat, d: seq<Byte>)
    requires s + |clip| <= |data| && clip == data[s .. s + |clip|]
    requires |d1| <= |clip| && d1 == clip[..|d1|] && off <= |d1| && d == d1[off..]
    ensures s + |d1| <= |data| && d == data[s + off .. s + |d1|]
  {
    assert forall j | 0 <= j < |d| :: d[j] == data[s + off .. s + |d1|][j];
  }

  /**
   * The entries kept by the rear pass that start inside the clipped data reach past its
   * end, so none of them lies wholly inside it; the entry stored is a slice of the data.
   */
  lemma PlaceEntriesFrom(m0: Pending, m1: Pending, m2: Pending, next: nat, first: nat, data: seq<Byte>,
                         lo: nat, hi: nat, d1: seq<Byte>, index: nat, d: seq<Byte>)
    requires KeysFrom(m0, next) && SubMap(m1, m0) && Disjoint(m1) && first <= lo && lo + |d1| <= hi
    requires forall k | k in m1 && lo <= k :: lo + |d1| <= k
    requires lo + |d1| < hi ==> lo + |d1| in m1 && hi < lo + |d1| + |m1[lo + |d1|]|
    requires lo <= index && index + |d| == lo + |d1| && hi <= first + |data|
    requires d != [] ==> index !in m1 && d == data[index - first .. index - first + |d|]
    requires m2 == if d == [] then m1 else m1[index := d]
    ensures EntriesFrom(m0, m2, lo, hi, first, data)
  {
    forall k | k in m2
      ensures || (k in m0 && !Inside(m0, k, lo, hi) && m2[k] == m0[k])
              || (first <= lo <= k && k + |m2[k]| <= hi && k + |m2[k]| <= first + |data|
                  && m2[k] == data[k - first .. k + |m2[k]| - first])
    {
      if d == [] || k != index {
        assert k in m1 && m2[k] == m1[k] == m0[k];
        var c := lo + |d1|;
        if c < hi && c < k {
          assert c + |m1[c]| <= k;
        }
        assert !Inside(m0, k, lo, hi);
      }
    }
  }

  // ---------------------------------------------------------------- lines 126-152, on values

  /** The bytes stored contiguously from index `i` on: the substring stored at `i`, then the run after it. */
  ghost function Run(m: Pending, i: nat): seq<Byte>
    decreases |m|
  {
    if i in m then
      assert |m - {i}| < |m| by { CardRemove(m, i); }
      m[i] + Run(m - {i}, i + |m[i]|)
    else []
  }

  /** Writing out the substring stored at `next` leaves its indices below the advanced next index. */
  lemma CoverDrainStep(m0: Pending, m: Pending, next: nat)
    requires next in m
    requires forall i: nat | Covered(m0, i) :: i < next || Covered(m, i)
    ensures forall i: nat | Covered(m0, i) :: i < next + |m[next]| || Covered(m - {next}, i)
  {
    forall i: nat | Covered(m0, i) ensures i < next + |m[next]| || Covered(m - {next}, i) {
      if next <= i {
        var k: nat :| k in m && k <= i < k + |m[k]|;
        if k != next {
          assert k in m - {next} && (m - {next})[k] == m[k];
        }
      }
    }
  }

  /**
   * Progress of the drain loop of lines 126-152 from the map `m0`, next index `n0` and
   * written bytes `w0` it started from: an output that refuses data changes nothing;
   * otherwise what is written and what remains to be written together make the run stored
   * from `n0`. Substrings are only removed, all those at or after the next index remain,
   * and every stored index is written or still stored.
   */
  ghost predicate Drained(m0: Pending, n0: nat, w0: seq<Byte>, refused: bool, m: Pending, n: nat, w: seq<Byte>)
  {
    && (refused ==> m == m0 && n == n0 && w == w0)
    && (!refused ==> w0 + Run(m0, n0) == w + Run(m, n))
    && SubMap(m, m0) && (forall k | k in m0 && n <= k :: k in m)
    && (forall i: nat | Covered(m0, i) :: i < n || Covered(m, i))
  }

  lemma DrainedStep(m0: Pending, n0: nat, w0: seq<Byte>, refused: bool, m: Pending, n: nat, w: seq<Byte>,
                    m': Pending, n': nat, w': seq<Byte>)
    requires !refused && Drained(m0, n0, w0, refused, m, n, w) && n in m && |m[n]| > 0
    requires m' == m - {n} && n' == n + |m[n]| && w' == w + m[n]
    ensures Drained(m0, n0, w0, refused, m', n', w')
  {
    CoverDrainStep(m0, m, n);
    assert Run(m, n) == m[n] + Run(m - {n}, n + |m[n]|);
    assert w + Run(m, n) == (w + m[n]) + Run(m - {n}, n + |m[n]|);
  }

  /** Byte `b` is stored at index `i` of the stream by some entry of `m`. */
  ghost predicate Holds(m: Pending, i: nat, b: Byte)
  {
    exists k | k in m && k <= i < k + |m[k]| :: m[k][i - k] == b
  }

  /** Every byte of the run stored from `n` is a byte some entry holds at that index. */
  lemma {:induction false} RunHolds(m: Pending, n: nat, i: nat)
    requires n <= i < n + |Run(m, n)|
    ensures Holds(m, i, Run(m, n)[i - n])
    decreases |m|
  {
    assert n in m;
    var rest, n' := m - {n}, n + |m[n]|;
    assert Run(m, n) == m[n] + Run(rest, n');
    if i < n' {
      assert m[n][i - n] == Run(m, n)[i - n];
    } else {
      CardRemove(m, n);
      RunHolds(rest, n', i);
      var k :| k in rest && k <= i < k + |rest[k]| && rest[k][i - k] == Run(rest, n')[i - n'];
      assert k in m && m[k] == rest[k];
    }
  }

  /** Among disjoint entries, the run stored from `n` holds whole every entry it reaches. */
  lemma {:induction false} RunSlice(m: Pending, n: nat, k: nat)
    requires KeysFrom(m, n) && Disjoint(m) && k in m && k < n + |Run(m, n)|
    ensures RunHoldsAt(m, n, k)
    decreases |m|
  {
    assert n in m;
    if k == n {
      RunHead(m, n);
    } else {
      var rest, n' := m - {n}, n + |m[n]|;
      CardRemove(m, n);
      assert n + |m[n]| <= k && rest[k] == m[k];
      RestKeys(m, n);
      RunSlice(rest, n', k);
      RunShift(m, n, k);
    }
  }

  /** The run stored from `n` holds the entry at `k` whole, at the entry's own indices. */
  ghost predicate RunHoldsAt(m: Pending, n: nat, k: nat)
    requires k in m
  {
    n <= k && k + |m[k]| <= n + |Run(m, n)| && forall j | 0 <= j < |m[k]| :: Run(m, n)[k - n + j] == m[k][j]
  }

  /** The run stored from `n` starts with the entry at `n`. */
  lemma RunHead(m: Pending, n: nat)
    requires n in m
    ensures RunHoldsAt(m, n, n)
  {
    assert Run(m, n) == m[n] + Run(m - {n}, n + |m[n]|);
  }

  /** What the run after the entry at `n` holds, the run from `n` holds at the same indices. */
  lemma RunShift(m: Pending, n: nat, k: nat)
    requires n in m && k in m && k != n && (m - {n})[k] == m[k] && RunHoldsAt(m - {n}, n + |m[n]|, k)
    ensures RunHoldsAt(m, n, k)
  {
    var r := Run(m - {n}, n + |m[n]|);
    assert Run(m, n) == m[n] + r;
    forall j | 0 <= j < |m[k]| ensures Run(m, n)[k - n + j] == m[k][j] {
      assert Run(m, n)[k - n + j] == r[k - (n + |m[n]|) + j];
    }
  }

  /** Without its first entry, disjoint entries start after that entry's end. */
  lemma RestKeys(m: Pending, n: nat)
    requires KeysFrom(m, n) && Disjoint(m) && n in m
    ensures KeysFrom(m - {n}, n + |m[n]|) && Disjoint(m - {n})
  {
    var rest := m - {n};
    forall a | a in rest ensures n + |m[n]| <= a && |rest[a]| > 0 {
      assert n < a;
    }
    forall a, b | a in rest && b in rest && a < b ensures a + |rest[a]| <= b {
      assert a + |m[a]| <= b;
    }
  }

  /** Pushing the whole entry at the next index keeps the invariant at the advanced index. */
  lemma DrainWholeKeepsInv(m: Pending, bytes: nat, next: nat, h: seq<Piece>, hi: nat)
    requires Inv(m, bytes, next, h) && WithinWindow(m, hi) && next in m
    ensures |m[next]| <= bytes && |m - {next}| < |m|
    ensures Inv(m - {next}, bytes - |m[next]|, next + |m[next]|, h) && WithinWindow(m - {next}, hi)
  {
    EraseKeepsInv(m, bytes, next, h, next, hi);
    forall k | k in m - {next} ensures next + |m[next]| <= k {
      assert next < k;
    }
  }

  /** Pushing part of the entry at the next index and re-keying the rest keeps the invariant. */
  lemma DrainPartKeepsInv(m: Pending, bytes: nat, next: nat, h: seq<Piece>, hi: nat, pushed: nat)
    requires Inv(m, bytes, next, h) && WithinWindow(m, hi) && next in m && pushed < |m[next]|
    ensures pushed <= bytes && next + pushed !in m - {next}
    ensures var r := Rekey(m, bytes, next, pushed);
      Inv(r.0, r.1, next + pushed, h) && WithinWindow(r.0, hi) && next + pushed in r.0
  {
    FreeKey(m, next, pushed);
    RekeyKeepsCount(m, next, pushed);
    var r := Rekey(m, bytes, next, pushed);
    RekeyKeysFrom(m, bytes, next, pushed);
    RekeyDisjoint(m, bytes, next, pushed);
    RekeyProvided(m, bytes, next, h, hi, pushed);
  }

  /** The re-keyed remainder was carried by earlier calls and stays inside the window. */
  lemma RekeyProvided(m: Pending, bytes: nat, next: nat, h: seq<Piece>, hi: nat, pushed: nat)
    requires EntriesProvided(h, m) && WithinWindow(m, hi) && next in m && pushed < |m[next]| && pushed <= bytes
    requires next + pushed !in m - {next}
    ensures var r := Rekey(m, bytes, next, pushed); EntriesProvided(h, r.0) && WithinWindow(r.0, hi)
  {
    var r := Rekey(m, bytes, next, pushed);
    forall k | k in r.0 ensures AllProvided(h, k, r.0[k]) && k + |r.0[k]| <= hi {
      if k == next + pushed {
        AllProvidedSlice(h, next, m[next], pushed, |m[next]|);
      }
    }
  }

  /** After re-keying, every entry starts at or after the advanced next index. */
  lemma RekeyKeysFrom(m: Pending, bytes: nat, next: nat, pushed: nat)
    requires KeysFrom(m, next) && Disjoint(m) && next in m && pushed < |m[next]| && pushed <= bytes
    ensures KeysFrom(Rekey(m, bytes, next, pushed).0, next + pushed)
  {
    var r := Rekey(m, bytes, next, pushed);
    forall k | k in r.0 ensures next + pushed <= k && |r.0[k]| > 0 {
      if k != next + pushed {
        assert next < k && next + |m[next]| <= k;
      }
    }
  }

  /** Re-keying the unpushed tail of the first entry keeps the entries disjoint. */
  lemma RekeyDisjoint(m: Pending, bytes: nat, next: nat, pushed: nat)
    requires KeysFrom(m, next) && Disjoint(m) && next in m && pushed < |m[next]| && pushed <= bytes
    ensures Disjoint(Rekey(m, bytes, next, pushed).0)
  {
    var r := Rekey(m, bytes, next, pushed);
    var n := next + pushed;
    forall a, b | a in r.0 && b in r.0 && a < b ensures a + |r.0[a]| <= b {
      if a == n {
        assert next < b && next + |m[next]| <= b;
      } else if b != n {
        assert a + |m[a]| <= b;
      }
    }
  }

  // ---------------------------------------------------------------- what insert guarantees

  /**
   * Once nothing is stored at the next index, stored coverage has turned into output: if
   * every index of [lo, hi) is written or stored, all of it is written.
   */
  lemma CoveredWritten(m: Pending, next: nat, lo: nat, hi: nat)
    requires KeysFrom(m, next) && next !in m && lo <= next
    requires forall i: nat | lo <= i < hi :: i < next || Covered(m, i)
    ensures hi <= next
  {
    assert !Covered(m, next);
  }

  /** An entry of `m0` not wholly inside [lo, hi) held byte `b` at index `i`. */
  ghost predicate OldByte(m0: Pending, lo: nat, hi: nat, i: nat, b: Byte)
  {
    exists k | k in m0 && !Inside(m0, k, lo, hi) && k <= i < k + |m0[k]| :: m0[k][i - k] == b
  }

  /** `b` is the byte of the data carried at `first` at index `i`, inside [lo, hi). */
  ghost predicate NewByte(first: nat, data: seq<Byte>, lo: nat, hi: nat, i: nat, b: Byte)
  {
    lo <= i < hi && first <= i < first + |data| && data[i - first] == b
  }

  /**
   * Where everything stored or written after a call comes from, with `m0` and `w0` stored
   * and written before it: every entry is an old entry kept or a slice of the data;
   * every old entry not wholly inside the clipped data [lo, hi) is still stored or was
   * written whole at its own indices; and every byte written by the call is a byte of such
   * an old entry or of the data at the same index. With disjoint entries this fixes every
   * byte: where a kept entry and the data overlap, the entry's byte wins.
   */
  ghost predicate Merged(m0: Pending, w0: seq<Byte>, m: Pending, w: seq<Byte>, lo: nat, hi: nat, first: nat, data: seq<Byte>)
  {
    && EntriesFrom(m0, m, lo, hi, first, data)
    && (forall k | k in m0 && !Inside(m0, k, lo, hi) ::
          (k in m && m[k] == m0[k]) || (k + |m0[k]| <= |w| && w[k .. k + |m0[k]|] == m0[k]))
    && (forall i | |w0| <= i < |w| :: OldByte(m0, lo, hi, i, w[i]) || NewByte(first, data, lo, hi, i, w[i]))
  }

  /**
   * The effect of one call of insert (lines 16-152) carrying `data` at `first`, from the map
   * `m0`, next index `n0`, written bytes `w0` and free capacity `avail0` before it, to `m`,
   * `n` and `w` after it; `refused` says the output refused data. What was written stays
   * written. Data the window does not meet changes nothing. Otherwise every index of the
   * clipped data [lo, hi) and every index stored before is written or stored; unless the
   * output refuses data, data reaching the next index is written through `hi`; and what
   * is stored and written comes from the old entries and the data as `Merged` says. The
   * last three promises exclude the 64-bit wrap at index 0 (see `ResolveRearOn`).
   */
  ghost predicate Assembled(m0: Pending, n0: nat, w0: seq<Byte>, avail0: nat, refused: bool,
                            first: nat, data: seq<Byte>, m: Pending, n: nat, w: seq<Byte>)
  {
    var lo, hi := Max(first, n0), Min(first + |data|, n0 + avail0);
    var missed := |data| == 0 || avail0 == 0 || first + |data| <= n0 || n0 + avail0 <= first;
    var wrapped := first == 0 && 0 in m0;
    && |w0| <= |w| && w[..|w0|] == w0
    && (missed ==> m == m0 && n == n0 && w == w0)
    && (!wrapped ==> CoversAfter(m0, m, n, lo, hi))
    && (!refused && first <= n0 ==> hi <= n)
    && (!missed && !wrapped ==> Merged(m0, w0, m, w, lo, hi, first, data))
  }

  /** Every index of [lo, hi) and every index stored in `m0` is below `n` or stored in `m`. */
  ghost predicate CoversAfter(m0: Pending, m: Pending, n: nat, lo: nat, hi: nat)
  {
    && (forall i: nat | lo <= i < hi :: i < n || Covered(m, i))
    && (forall i: nat | Covered(m0, i) :: i < n || Covered(m, i))
  }

  /** Data the window does not meet leaves everything as it was. */
  lemma AssembledMissed(m0: Pending, n0: nat, w0: seq<Byte>, avail0: nat, refused: bool, first: nat, data: seq<Byte>)
    requires |data| == 0 || avail0 == 0 || first + |data| <= n0 || n0 + avail0 <= first
    ensures Assembled(m0, n0, w0, avail0, refused, first, data, m0, n0, w0)
  {
    assert Min(first + |data|, n0 + avail0) <= Max(first, n0);
  }

  /**
   * Lines 34-152 on values: placing the data (`p`) and then draining give `Assembled`;
   * the next index and the written bytes before are `n0` and `w0`, and once draining
   * stops nothing is stored at the next index unless the output refuses data.
   */
  lemma AssembleSound(m0: Pending, n0: nat, w0: seq<Byte>, avail0: nat, refused: bool, first: nat, data: seq<Byte>,
                      p: Pending, m: Pending, n: nat, w: seq<Byte>)
    requires !(|data| == 0 || avail0 == 0 || first + |data| <= n0 || n0 + avail0 <= first)
    requires KeysFrom(m0, n0) && (n0 in m0 ==> refused)
    requires PlacedFrom(m0, p, first, data, n0, avail0) && KeysFrom(p, n0) && Disjoint(p) && |w0| == n0
    requires refused ==> m == p && n == n0 && w == w0
    requires !refused ==> w == w0 + Run(p, n0) && n == n0 + |Run(p, n0)|
    requires SubMap(m, p) && (forall k | k in p && n <= k :: k in m)
    requires forall i: nat | Covered(p, i) :: i < n || Covered(m, i)
    requires KeysFrom(m, n) && (n in m ==> refused)
    ensures Assembled(m0, n0, w0, avail0, refused, first, data, m, n, w)
  {
    var lo, hi := Max(first, n0), Min(first + |data|, n0 + avail0);
    assert w[..|w0|] == w0;
    if !(first == 0 && 0 in m0) {
      assert Placed(m0, p, lo, hi, first, data);
      DrainMerged(m0, p, n0, w0, refused, m, n, w, lo, hi, first, data);
      if !refused && first <= n0 {
        CoveredWritten(m, n, first, hi);
      }
    }
  }

  /** An entry the run holds at its own indices appears whole in what the run was written after. */
  lemma WrittenWhole(w0: seq<Byte>, r: seq<Byte>, n0: nat, k: nat, e: seq<Byte>)
    requires |w0| == n0 <= k && k + |e| <= n0 + |r|
    requires forall j | 0 <= j < |e| :: r[k - n0 + j] == e[j]
    ensures (w0 + r)[k .. k + |e|] == e
  {
    forall j | 0 <= j < |e| ensures (w0 + r)[k .. k + |e|][j] == e[j] {
      assert (w0 + r)[k + j] == r[k - n0 + j];
    }
  }

  /** A byte of an entry placed by a call comes from an old entry or from the data. */
  lemma EntryByte(m0: Pending, m: Pending, lo: nat, hi: nat, first: nat, data: seq<Byte>, k: nat, i: nat)
    requires EntriesFrom(m0, m, lo, hi, first, data) && k in m && k <= i < k + |m[k]|
    ensures OldByte(m0, lo, hi, i, m[k][i - k]) || NewByte(first, data, lo, hi, i, m[k][i - k])
  {
    if !(k in m0 && !Inside(m0, k, lo, hi) && m[k] == m0[k]) {
      assert m[k][i - k] == data[i - first];
    }
  }

  /**
   * Lines 126-152 carry the placement through to the output: draining entries placed as
   * `Placed` says (`p`) writes them whole, so what is stored and written is `Merged`.
   */
  lemma DrainMerged(m0: Pending, p: Pending, n0: nat, w0: seq<Byte>, refused: bool,
                    m: Pending, n: nat, w: seq<Byte>, lo: nat, hi: nat, first: nat, data: seq<Byte>)
    requires Placed(m0, p, lo, hi, first, data) && KeysFrom(p, n0) && Disjoint(p) && |w0| == n0
    requires refused ==> m == p && w == w0
    requires !refused ==> w == w0 + Run(p, n0) && n == n0 + |Run(p, n0)|
    requires SubMap(m, p) && forall k | k in p && n <= k :: k in m
    ensures Merged(m0, w0, m, w, lo, hi, first, data)
  {
    forall k | k in m
      ensures || (k in m0 && !Inside(m0, k, lo, hi) && m[k] == m0[k])
              || (first <= lo <= k && k + |m[k]| <= hi && k + |m[k]| <= first + |data|
                  && m[k] == data[k - first .. k + |m[k]| - first])
    {
      assert k in p && m[k] == p[k];
    }
    if !refused {
      DrainKept(m0, p, n0, w0, m, n, lo, hi);
      DrainBytes(m0, p, n0, w0, lo, hi, first, data);
    }
  }

  /** Every old entry kept by the placement is still stored or was written whole. */
  lemma DrainKept(m0: Pending, p: Pending, n0: nat, w0: seq<Byte>, m: Pending, n: nat, lo: nat, hi: nat)
    requires forall k | k in m0 && !Inside(m0, k, lo, hi) :: k in p && p[k] == m0[k]
    requires KeysFrom(p, n0) && Disjoint(p) && |w0| == n0 && n == n0 + |Run(p, n0)|
    requires SubMap(m, p) && forall k | k in p && n <= k :: k in m
    ensures forall k | k in m0 && !Inside(m0, k, lo, hi) ::
              (k in m && m[k] == m0[k]) || (k + |m0[k]| <= |w0 + Run(p, n0)| && (w0 + Run(p, n0))[k .. k + |m0[k]|] == m0[k])
  {
    forall k | k in m0 && !Inside(m0, k, lo, hi)
      ensures (k in m && m[k] == m0[k]) || (k + |m0[k]| <= |w0 + Run(p, n0)| && (w0 + Run(p, n0))[k .. k + |m0[k]|] == m0[k])
    {
      if k !in m {
        RunSlice(p, n0, k);
        WrittenWhole(w0, Run(p, n0), n0, k, p[k]);
      }
    }
  }

  /** Every byte the drain writes is a byte of a kept old entry or of the data. */
  lemma DrainBytes(m0: Pending, p: Pending, n0: nat, w0: seq<Byte>, lo: nat, hi: nat, first: nat, data: seq<Byte>)
    requires EntriesFrom(m0, p, lo, hi, first, data) && |w0| == n0
    ensures forall i | |w0| <= i < |w0 + Run(p, n0)| ::
              OldByte(m0, lo, hi, i, (w0 + Run(p, n0))[i]) || NewByte(first, data, lo, hi, i, (w0 + Run(p, n0))[i])
  {
    var w := w0 + Run(p, n0);
    forall i | |w0| <= i < |w| ensures OldByte(m0, lo, hi, i, w[i]) || NewByte(first, data, lo, hi, i, w[i]) {
      RunHolds(p, n0, i);
      assert w[i] == Run(p, n0)[i - n0];
      var k :| k in p && k <= i < k + |p[k]| && p[k][i - k] == w[i];
      EntryByte(m0, p, lo, hi, first, data, k, i);
    }
  }

  /** The call `p` carries the slice of the stream `s` that starts at its first index. */
  predicate SliceOf(p: Piece, s: seq<Byte>)
  {
    p.first + |p.data| <= |s| && p.data == s[p.first .. p.first + |p.data|]
  }

  /** Every call in the history `h` carries a slice of the stream `s`. */
  ghost predicate SlicesOf(h: seq<Piece>, s: seq<Byte>)
  {
    forall k | 0 <= k < |h| :: SliceOf(h[k], s)
  }

  /** When every call carries a slice of one stream `s`, whatever was written is a prefix of `s`. */
  lemma WrittenIsPrefix(h: seq<Piece>, w: seq<Byte>, s: seq<Byte>)
    requires AllProvided(h, 0, w) && SlicesOf(h, s)
    ensures |w| <= |s| && w == s[..|w|]
  {
    forall j | 0 <= j < |w| ensures j < |s| && w[j] == s[j] {
      var k :| 0 <= k < |h| && Supplies(h[k], j, w[j]);
      assert h[k].data[j - h[k].first] == s[j];
    }
    if |w| > 0 {
      assert w[|w| - 1] == s[|w| - 1];
    }
    assert forall j | 0 <= j < |w| :: w[j] == s[..|w|][j];
  }

  // ---------------------------------------------------------------- the reassembler

  class Reassembler {
    var pending: Pending
    /** `unassembled_index_`: the next stream index the output needs. */
    var nextIndex: nat
    /** `unassembled_bytes_`. */
    var pendingBytes: nat
    /** `closed_`: the last substring has been seen. */
    var closed: bool
    /** Every call of insert so far. */
    ghost var history: seq<Piece>

    ghost predicate Valid()
      reads this
    {
      Inv(pending, pendingBytes, nextIndex, history)
    }

    /**
     * The reassembler is the only writer of `output`: the next index is the number of
     * bytes pushed, every byte written was carried by some call at that index, and
     * every stored byte lies inside the output's window.
     */
    ghost predicate Coherent(output: ByteStream)
      reads this, output
    {
      && output.Valid()
      && nextIndex == output.totLen
      && AllProvided(history, 0, output.Written())
      && WithinWindow(pending, output.outLen + output.capacity)
    }

    /** A stored substring at the next index means the output refuses data. */
    ghost predicate Settled(output: ByteStream)
      reads this, output
    {
      nextIndex in pending ==> output.closed || output.error
    }

    constructor ()
      ensures Valid() && pending == map[] && nextIndex == 0 && pendingBytes == 0
      ensures !closed && history == []
    {
      pending, nextIndex, pendingBytes, closed := map[], 0, 0, false;
      history := [];
    }

    /** `bytes_pending` (line 159-162): the number of bytes stored. */
    function BytesPending(): (r: nat)
      reads this
      requires Valid()
      ensures r == SumLengths(pending)
    {
      pendingBytes
    }

    /** `is_closed` (line 5-8): the last substring was seen and nothing is stored. */
    function IsClosed(): (r: bool)
      reads this
      requires Valid()
      ensures r <==> closed && pending == map[]
    {
      SumLengthsEmpty(pending);
      closed && pendingBytes == 0
    }

    /** Lines 57-85 on the reassembler's state; see `ResolveRearOn`. */
    method ResolveRear(newIndex: nat, data: seq<Byte>, windowEnd: nat) returns (d: seq<Byte>)
      requires Valid() && WithinWindow(pending, windowEnd) && windowEnd < U64
      requires nextIndex <= newIndex && 0 < |data| && newIndex + |data| <= windowEnd
      requires AllProvided(history, newIndex, data)
      modifies this`pending, this`pendingBytes
      ensures Valid() && WithinWindow(pending, windowEnd) && SubMap(pending, old(pending))
      ensures |d| <= |data| && d == data[..|d|] && AllProvided(history, newIndex, d)
      ensures forall k | k in pending && newIndex <= k :: newIndex + |d| <= k
      ensures forall k | k in old(pending) && k !in pending ::
                newIndex <= k && (k + |old(pending)[k]| <= newIndex + |data| || (newIndex == 0 && d == []))
      ensures d == [] ==> newIndex in old(pending)
      ensures |d| < |data| && !(newIndex == 0 && d == []) ==>
                newIndex + |d| in pending && newIndex + |data| < newIndex + |d| + |pending[newIndex + |d|]|
    {
      var m, bytes;
      m, bytes, d := ResolveRearOn(pending, pendingBytes, nextIndex, history, newIndex, data, windowEnd);
      pending, pendingBytes := m, bytes;
    }

    /**
     * Lines 90-114: when the data starts after the next needed index, resolve overlap
     * with the closest stored substring that starts at or before it by cutting the head
     * of the data. The erase branch of lines 103-105 cannot be taken: an entry ending
     * inside the data would need to start exactly at it, which lines 57-85 have ruled out.
     */
    method ResolveFront(first: nat, newIndex: nat, data: seq<Byte>) returns (index: nat, d: seq<Byte>)
      requires Valid()
      requires newIndex == Max(first, nextIndex)
      requires forall k | k in pending && newIndex <= k :: newIndex + |data| <= k
      ensures newIndex <= index && index + |d| == newIndex + |data| && d == data[index - newIndex..]
      ensures forall k | k in pending :: k + |pending[k]| <= index || index + |d| <= k || d == []
      ensures forall i | newIndex <= i < index :: Covered(pending, i)
    {
      index, d := newIndex, data;
      if first > nextIndex {
        var front := Floor(pending, newIndex);
        if front.Some? {
          var frontIndex: nat := front.value;
          var frontData := pending[frontIndex];
          if frontIndex + |frontData| - 1 >= first {
            var overlapped: nat;
            if frontIndex + |frontData| <= first + |d| {
              overlapped := frontIndex + |frontData| - first;
            } else {
              overlapped := |d|;
            }
            if overlapped == |frontData| {
              assert false;
            } else {
              d := d[overlapped..];
              index := first + overlapped;
              forall i | newIndex <= i < index ensures Covered(pending, i) {
                assert frontIndex <= i < frontIndex + |pending[frontIndex]|;
              }
            }
          }
          forall k | k in pending && k < newIndex ensures k + |pending[k]| <= index || d == [] {
            if k < frontIndex {
              assert k + |pending[k]| <= frontIndex;
            }
          }
        }
      }
    }

    /** Lines 57-114: resolve the overlaps of the clipped data with the stored substrings. */
    method Resolve(first: nat, newIndex: nat, data: seq<Byte>, windowEnd: nat) returns (index: nat, d: seq<Byte>, d1: seq<Byte>)
      requires Valid() && WithinWindow(pending, windowEnd) && windowEnd < U64
      requires newIndex == Max(first, nextIndex) && 0 < |data| && newIndex + |data| <= windowEnd
      requires AllProvided(history, newIndex, data)
      modifies this`pending, this`pendingBytes
      ensures Valid() && WithinWindow(pending, windowEnd)
      ensures Resolved(old(pending), pending, newIndex, data, d1, index, d)
      ensures d != [] ==> nextIndex <= index && index + |d| <= windowEnd && AllProvided(history, index, d)
      ensures forall k | k in pending :: k + |pending[k]| <= index || index + |d| <= k || d == []
      ensures d != [] ==> index !in pending
    {
      d1 := ResolveRear(newIndex, data, windowEnd);
      index, d := ResolveFront(first, newIndex, d1);
      if d != [] {
        AllProvidedSlice(history, newIndex, d1, index - newIndex, |d1|);
      }
    }

    /**
     * Lines 126-152: while an entry is stored exactly at the next needed index, push it;
     * the next index advances by what the output accepted. If the output accepts less
     * than offered, the remainder is re-keyed at the new next index and draining stops.
     */
    method Drain(output: ByteStream)
      requires Valid() && Coherent(output)
      modifies this`pending, this`pendingBytes, this`nextIndex, output
      ensures Valid() && Coherent(output)
      ensures output.closed == old(output.closed) && output.error == old(output.error)
      ensures output.outLen == old(output.outLen)
      ensures nextIndex in pending ==> old(output.closed) || old(output.error)
      ensures old(output.closed) || old(output.error) ==>
                pending == old(pending) && nextIndex == old(nextIndex) && output.Written() == old(output.Written())
      ensures !(old(output.closed) || old(output.error)) ==>
                && output.Written() == old(output.Written()) + Run(old(pending), old(nextIndex))
                && nextIndex == old(nextIndex) + |Run(old(pending), old(nextIndex))|
      ensures SubMap(pending, old(pending)) && forall k | k in old(pending) && nextIndex <= k :: k in pending
      ensures forall i: nat | Covered(old(pending), i) :: i < nextIndex || Covered(pending, i)
    {
      ghost var refused := output.closed || output.error;
      ghost var m0, n0, w0 := pending, nextIndex, output.Written();
      var stop := false;
      while nextIndex in pending && !stop
        invariant Valid() && Coherent(output)
        invariant output.closed == old(output.closed) && output.error == old(output.error)
        invariant output.outLen == old(output.outLen)
        invariant stop ==> refused
        invariant Drained(m0, n0, w0, refused, pending, nextIndex, output.Written())
        decreases if stop then 0 else 1, |pending|
      {
        ghost var m: Pending, n: nat, w := pending, nextIndex, output.Written();
        stop := DrainStep(output);
        if !stop {
          DrainedStep(m0, n0, w0, refused, m, n, w, pending, nextIndex, output.Written());
        } else {
          assert pending == m && nextIndex == n && output.Written() == w;
        }
      }
    }

    /**
     * Lines 129-131: push the entry at the next index to the output, which accepts all of
     * it unless it refuses data: every stored byte lies inside the output's window.
     */
    method PushEntry(output: ByteStream) returns (pushed: nat)
      requires Valid() && Coherent(output) && nextIndex in pending
      modifies output
      ensures output.Valid() && pushed <= |pending[nextIndex]|
      ensures output.Written() == old(output.Written()) + pending[nextIndex][..pushed]
      ensures output.totLen == nextIndex + pushed
      ensures AllProvided(history, 0, output.Written())
      ensures pushed < |pending[nextIndex]| ==> output.closed || output.error
      ensures output.closed || output.error ==> pushed == 0
      ensures output.closed == old(output.closed) && output.error == old(output.error)
      ensures output.outLen == old(output.outLen)
    {
      var subData := pending[nextIndex];
      ghost var before := output.Written();
      assert AllProvided(history, nextIndex, subData);
      var prevPushed := output.BytesPushed();
      output.Push(subData);
      var nowPushed := output.BytesPushed();
      pushed := nowPushed - prevPushed;
      AllProvidedSlice(history, nextIndex, subData, 0, pushed);
      AllProvidedConcat(history, 0, before, subData[..pushed]);
    }

    /**
     * Lines 132-146: after `pushed` bytes of the entry at the next index reached the
     * output, advance the next index; a remainder is re-keyed there.
     */
    method Advance(pushed: nat, ghost windowEnd: nat)
      requires Valid() && WithinWindow(pending, windowEnd)
      requires nextIndex in pending && pushed <= |pending[nextIndex]|
      modifies this`pending, this`pendingBytes, this`nextIndex
      ensures Valid() && WithinWindow(pending, windowEnd)
      ensures nextIndex == old(nextIndex) + pushed
      ensures pushed < |old(pending[nextIndex])| ==>
                pending == (old(pending) - {old(nextIndex)})[nextIndex := old(pending[nextIndex])[pushed..]]
      ensures pushed == |old(pending[nextIndex])| ==> pending == old(pending) - {old(nextIndex)} && |pending| < old(|pending|)
    {
      var subIndex := nextIndex;
      var subData := pending[subIndex];
      if pushed < |subData| {
        DrainPartKeepsInv(pending, pendingBytes, nextIndex, history, windowEnd, pushed);
        var rekeyed := Rekey(pending, pendingBytes, subIndex, pushed);
        pending, pendingBytes, nextIndex := rekeyed.0, rekeyed.1, nextIndex + pushed;
      } else {
        DrainWholeKeepsInv(pending, pendingBytes, nextIndex, history, windowEnd);
        pending, pendingBytes, nextIndex := pending - {subIndex}, pendingBytes - |subData|, nextIndex + |subData|;
      }
    }

    /**
     * One round of lines 127-147: push the entry at the next index. On a short push the
     * remainder is re-keyed at the advanced index and the loop stops.
     */
    method DrainStep(output: ByteStream) returns (stop: bool)
      requires Valid() && Coherent(output) && nextIndex in pending
      modifies this`pending, this`pendingBytes, this`nextIndex, output
      ensures Valid() && Coherent(output)
      ensures output.closed == old(output.closed) && output.error == old(output.error)
      ensures output.outLen == old(output.outLen)
      ensures stop <==> output.closed || output.error
      ensures stop ==> pending == old(pending) && nextIndex == old(nextIndex) && output.Written() == old(output.Written())
      ensures !stop ==>
                && output.Written() == old(output.Written()) + old(pending[nextIndex])
                && pending == old(pending) - {old(nextIndex)} && |pending| < old(|pending|)
                && nextIndex == old(nextIndex) + |old(pending[nextIndex])|
    {
      ghost var windowEnd := output.outLen + output.capacity;
      ghost var m, n := pending, nextIndex;
      var subLength := |pending[nextIndex]|;
      var pushed := PushEntry(output);
      Advance(pushed, windowEnd);
      stop := pushed < subLength;
      if stop {
        assert m[n][0..] == m[n];
        assert (m - {n})[n := m[n]] == m;
      } else {
        assert m[n][..pushed] == m[n];
      }
    }

    /**
     * `insert` (lines 10-157): note the last substring, discard data the window does not
     * meet, and otherwise clip it, resolve its overlaps, store it and drain the stored
     * substrings that have become contiguous. The output is closed once the last
     * substring was seen and nothing is stored.
     */
    method Insert(first: u64, data: seq<Byte>, isLast: bool, output: ByteStream)
      requires Valid() && Coherent(output) && Settled(output)
      requires output.outLen + output.capacity + |data| < U64
      modifies this, output
      ensures Valid() && Coherent(output) && Settled(output)
      ensures history == old(history) + [Piece(first, data)]
      ensures closed == (old(closed) || isLast)
      ensures |old(output.Written())| <= |output.Written()|
      ensures output.Written()[..|old(output.Written())|] == old(output.Written())
      ensures output.closed == (old(output.closed) || IsClosed())
      ensures output.error == old(output.error) && output.outLen == old(output.outLen)
      ensures Discards(first, data, old(nextIndex), old(output.AvailableCapacity())) ==>
                pending == old(pending) && nextIndex == old(nextIndex) && output.Written() == old(output.Written())
      ensures Assembled(old(pending), old(nextIndex), old(output.Written()), old(output.AvailableCapacity()),
                        old(output.closed) || old(output.error), first, data, pending, nextIndex, output.Written())
    {
      Record(first, data, isLast, output);
      Admit(first, data, output);
      CloseIfDone(output);
    }

    /**
     * Lines 16-152: discard data the window does not meet, and otherwise assemble it. Data
     * reaching the next index is written as far as the window allows, unless the output
     * refuses data.
     */
    method Admit(first: u64, data: seq<Byte>, output: ByteStream)
      requires Valid() && Coherent(output) && Settled(output)
      requires output.outLen + output.capacity + |data| < U64
      requires |history| > 0 && history[|history| - 1] == Piece(first, data)
      modifies this`pending, this`pendingBytes, this`nextIndex, output
      ensures Valid() && Coherent(output) && Settled(output)
      ensures |old(output.Written())| <= |output.Written()|
      ensures output.Written()[..|old(output.Written())|] == old(output.Written())
      ensures output.closed == old(output.closed) && output.error == old(output.error)
      ensures output.outLen == old(output.outLen)
      ensures Discards(first, data, old(nextIndex), old(output.AvailableCapacity())) ==>
                pending == old(pending) && nextIndex == old(nextIndex) && output.Written() == old(output.Written())
      ensures Assembled(old(pending), old(nextIndex), old(output.Written()), old(output.AvailableCapacity()),
                        old(output.closed) || old(output.error), first, data, pending, nextIndex, output.Written())
    {
      var avail := output.AvailableCapacity();
      if !Discards(first, data, nextIndex, avail) {
        Assemble(first, data, output);
      } else {
        AssembledMissed(pending, nextIndex, output.Written(), avail, output.closed || output.error, first, data);
      }
    }

    /** Lines 12-14, and the call recorded in the history. */
    method Record(first: u64, data: seq<Byte>, isLast: bool, output: ByteStream)
      requires Valid() && Coherent(output)
      modifies this`history, this`closed
      ensures Valid() && Coherent(output)
      ensures history == old(history) + [Piece(first, data)]
      ensures closed == (old(closed) || isLast)
    {
      ExtendKeepsInv(pending, pendingBytes, nextIndex, history, Piece(first, data));
      AllProvidedExtend(history, Piece(first, data), 0, output.Written());
      history := history + [Piece(first, data)];
      if isLast {
        closed := true;
      }
    }

    /** Lines 25-27 and 154-156: close the output once the reassembler is closed. */
    method CloseIfDone(output: ByteStream)
      requires Valid() && Coherent(output) && Settled(output)
      modifies output
      ensures Coherent(output) && Settled(output)
      ensures output.closed == (old(output.closed) || IsClosed())
      ensures output.Written() == old(output.Written())
      ensures output.error == old(output.error) && output.outLen == old(output.outLen)
    {
      if IsClosed() {
        output.Close();
      }
    }

    /** Lines 34-152: the part of `insert` that runs when the data meets the window. */
    method Assemble(first: u64, data: seq<Byte>, output: ByteStream)
      requires Valid() && Coherent(output) && Settled(output)
      requires output.outLen + output.capacity + |data| < U64
      requires |history| > 0 && history[|history| - 1] == Piece(first, data)
      requires !Discards(first, data, nextIndex, output.AvailableCapacity())
      modifies this`pending, this`pendingBytes, this`nextIndex, output
      ensures Valid() && Coherent(output) && Settled(output)
      ensures |old(output.Written())| <= |output.Written()|
      ensures output.Written()[..|old(output.Written())|] == old(output.Written())
      ensures output.closed == old(output.closed) && output.error == old(output.error)
      ensures output.outLen == old(output.outLen)
      ensures Assembled(old(pending), old(nextIndex), old(output.Written()), old(output.AvailableCapacity()),
                        old(output.closed) || old(output.error), first, data, pending, nextIndex, output.Written())
    {
      ghost var m0, n0, w0, avail0 := pending, nextIndex, output.Written(), output.AvailableCapacity();
      ghost var refused := output.closed || output.error;
      Place(first, data, output.AvailableCapacity());
      ghost var p := pending;
      Drain(output);
      AssembleSound(m0, n0, w0, avail0, refused, first, data, p, pending, nextIndex, output.Written());
    }

    /**
     * Lines 34-124: clip the data to the window [next index, next index + avail), resolve
     * its overlaps with the stored substrings and store what is left.
     */
    method Place(first: u64, data: seq<Byte>, avail: nat)
      requires Valid() && WithinWindow(pending, nextIndex + avail) && nextIndex + avail + |data| < U64
      requires |history| > 0 && history[|history| - 1] == Piece(first, data)
      requires !Discards(first, data, nextIndex, avail)
      modifies this`pending, this`pendingBytes
      ensures Valid() && WithinWindow(pending, nextIndex + avail)
      ensures PlacedFrom(old(pending), pending, first, data, nextIndex, avail)
    {
      var windowEnd := nextIndex + avail;
      var clipped := Clip(first, data, nextIndex, avail);
      var newIndex := clipped.0;
      LastCallProvides(history, newIndex, clipped.1);
      ghost var m0 := pending;
      var index, d, d1 := Resolve(first, newIndex, clipped.1, windowEnd);
      ghost var m1 := pending;
      if |d| > 0 {
        Store(index, d, windowEnd);
      }
      assert pending == if d == [] then m1 else m1[index := d];
      PlaceSound(m0, m1, pending, nextIndex, avail, first, data, newIndex, clipped.1, d1, index, d);
    }

    /** Lines 121-124: store the resolved data, which meets no stored substring. */
    method Store(index: nat, d: seq<Byte>, ghost windowEnd: nat)
      requires Valid() && WithinWindow(pending, windowEnd)
      requires 0 < |d| && nextIndex <= index && index + |d| <= windowEnd && AllProvided(history, index, d)
      requires forall k | k in pending :: k + |pending[k]| <= index || index + |d| <= k
      modifies this`pending, this`pendingBytes
      ensures Valid() && WithinWindow(pending, windowEnd) && index !in old(pending)
      ensures pending == old(pending)[index := d] && pendingBytes == old(pendingBytes) + |d|
    {
      StoreKeepsInv(pending, pendingBytes, nextIndex, history, windowEnd, index, d);
      pendingBytes := pendingBytes + |d|;
      pending := pending[index := d];
    }
  }

  /**
   * Reassembly reproduces the stream: when every call so far carried a slice of one stream
   * `s`, inserting another slice of it leaves a prefix of `s` written, and a slice reaching
   * the next index is written through its end, as far as the window allows, unless the
   * output refuses data.
   */
  method InsertSlice(r: Reassembler, first: u64, data: seq<Byte>, isLast: bool, output: ByteStream, ghost s: seq<Byte>)
    requires r.Valid() && r.Coherent(output) && r.Settled(output)
    requires output.outLen + output.capacity + |data| < U64
    requires SlicesOf(r.history, s) && SliceOf(Piece(first, data), s)
    modifies r, output
    ensures r.Valid() && r.Coherent(output) && r.Settled(output) && SlicesOf(r.history, s)
    ensures |output.Written()| <= |s| && output.Written() == s[..|output.Written()|]
    ensures r.closed == (old(r.closed) || isLast)
    ensures output.closed == (old(output.closed) || r.IsClosed())
    ensures output.error == old(output.error) && output.outLen == old(output.outLen)
    ensures !old(output.closed) && !old(output.error) && first <= old(r.nextIndex) ==>
              Min(first + |data|, old(r.nextIndex) + old(output.AvailableCapacity())) <= |output.Written()|
  {
    ghost var h := r.history;
    r.Insert(first, data, isLast, output);
    assert forall k | 0 <= k < |r.history| :: r.history[k] == if k < |h| then h[k] else Piece(first, data);
    WrittenIsPrefix(r.history, output.Written(), s);
  }

  /**
   * Overlapping substrings are merged: `insert(0, "ab")` and then `insert(1, "bc")`, into a
   * fresh reassembler writing to a stream of capacity 10, leave "abc" in the stream.
   */
  method OverlapExample() returns (buffered: seq<Byte>)
    ensures buffered == [97, 98, 99]
  {
    var output := new ByteStream(10);
    var r := new Reassembler();
    InsertSlice(r, 0, [97, 98], false, output, [97, 98, 99]);
    assert output.totLen == r.nextIndex && 2 <= r.nextIndex <= 3 && output.outLen == 0;
    assert output.AvailableCapacity() == 10 - r.nextIndex;
    InsertSlice(r, 1, [98, 99], false, output, [97, 98, 99]);
    assert |output.Written()| == 3;
    assert output.Written() == [97, 98, 99];
    assert output.outLen == 0 && output.popped == [];
    buffered := output.Peek();
    assert buffered == output.Written();
  }
}
