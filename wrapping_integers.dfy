/**
 * Wrapping 32-bit sequence numbers (section 3.4 of RFC 9293): the translation between
 * 64-bit absolute stream indices and the 32-bit values carried on the wire, relative to
 * an initial sequence number `zeroPoint`. Every wrap-around of the C++ unsigned
 * arithmetic is written out as a conditional subtraction.
 */
module WrappingIntegers {
  import opened Common

  /**
   * `Wrap32::wrap`: `zeroPoint + static_cast<uint32_t>(n)`; the cast keeps the low 32 bits
   * and the 32-bit sum wraps around at most once.
   */
  function Wrap(n: u64, zeroPoint: u32): (r: u32)
    ensures r == (zeroPoint + n) % U32
  {
    var s := zeroPoint + n % U32;
    if s < U32 then s else s - U32
  }

  /** The 32-bit difference `self - wrap(checkpoint, zeroPoint)` computed at line 12. */
  function Offset(self: u32, zeroPoint: u32, checkpoint: u64): u32
  {
    var w := Wrap(checkpoint, zeroPoint);
    if self >= w then self - w else self + U32 - w
  }

  /**
   * `Wrap32::unwrap`: the absolute index with wire value `self` nearest `checkpoint`.
   * The sum of line 13 is a 64-bit addition and wraps around modulo 2^64. Whatever the
   * checkpoint, the result wraps back to `self`.
   */
  function Unwrap(self: u32, zeroPoint: u32, checkpoint: u64): (r: u64)
    ensures Wrap(r, zeroPoint) == self
  {
    var offset := Offset(self, zeroPoint, checkpoint);
    var sum := checkpoint + offset;
    var ret := if sum < U64 then sum else sum - U64;
    var folded := offset >= HALF32 && ret >= U32;
    var d := (if sum < U64 then 0 else U32) + (if folded then 1 else 0);
    OffsetWrapsBack(self, zeroPoint, checkpoint, d);
    if folded then ret - U32 else ret
  }

  /** Distance between two absolute indices. */
  function Dist(a: int, b: int): nat { if a <= b then b - a else a - b }

  // ---------------------------------------------------------------- arithmetic helpers

  lemma ShiftMod(x: int, k: int)
    ensures (x + k * 0x1_0000_0000) % 0x1_0000_0000 == x % 0x1_0000_0000
  {
  }

  /** The wire value differs from `zeroPoint + n` by a multiple of 2^32. */
  lemma WrapCongruent(n: u64, zeroPoint: u32) returns (k: int)
    ensures zeroPoint + n == Wrap(n, zeroPoint) + k * 0x1_0000_0000
  {
    k := n / U32 + (if zeroPoint + n % U32 < U32 then 0 else 1);
  }

  /** An index `d` multiples of 2^32 below `checkpoint + offset` wraps back to `self`. */
  lemma OffsetWrapsBack(self: u32, zeroPoint: u32, checkpoint: u64, d: int)
    ensures var n := checkpoint + Offset(self, zeroPoint, checkpoint) - d * 0x1_0000_0000;
      0 <= n < U64 ==> Wrap(n, zeroPoint) == self
  {
    var n := checkpoint + Offset(self, zeroPoint, checkpoint) - d * 0x1_0000_0000;
    if 0 <= n < U64 {
      var w := Wrap(checkpoint, zeroPoint);
      var kc := WrapCongruent(checkpoint, zeroPoint);
      var g := if self >= w then 0 else 1;
      assert zeroPoint + n == self + (kc + g - d) * 0x1_0000_0000;
      ShiftMod(self, kc + g - d);
    }
  }

  // ---------------------------------------------------------------- properties

  /** Absolute indices 2^32 apart have the same wire value. */
  lemma WrapPeriodic(n: u64, zeroPoint: u32)
    requires n + U32 < U64
    ensures Wrap(n + U32, zeroPoint) == Wrap(n, zeroPoint)
  {
    ShiftMod(n, 1);
  }

  /**
   * The offset of line 12, for `self == wrap(n, zeroPoint)`, is `n - checkpoint` when
   * `n` lies in the 2^31 at or above the checkpoint, and `n - checkpoint + 2^32` when it
   * lies in the 2^31 below.
   */
  lemma OffsetOfWrap(n: u64, zeroPoint: u32, checkpoint: u64)
    ensures checkpoint <= n < checkpoint + HALF32 ==> Offset(Wrap(n, zeroPoint), zeroPoint, checkpoint) == n - checkpoint
    ensures checkpoint - HALF32 <= n < checkpoint ==>
              Offset(Wrap(n, zeroPoint), zeroPoint, checkpoint) == n - checkpoint + U32
  {
    var s, w := Wrap(n, zeroPoint), Wrap(checkpoint, zeroPoint);
    var kn := WrapCongruent(n, zeroPoint);
    var kc := WrapCongruent(checkpoint, zeroPoint);
    var g := if s >= w then 0 else 1;
    assert Offset(s, zeroPoint, checkpoint) == n - checkpoint + (kc - kn + g) * 0x1_0000_0000;
  }

  /**
   * Round trip: an index within 2^31 of the checkpoint is recovered from its wire value,
   * provided the 64-bit sum of line 13 does not wrap around (the second requires).
   */
  lemma UnwrapOfWrap(n: u64, zeroPoint: u32, checkpoint: u64)
    requires checkpoint - HALF32 <= n < checkpoint + HALF32
    requires n >= checkpoint || n + U32 < U64
    ensures Unwrap(Wrap(n, zeroPoint), zeroPoint, checkpoint) == n
  {
    OffsetOfWrap(n, zeroPoint, checkpoint);
  }

  /** The property at the checkpoint itself: `unwrap(wrap(n, z), z, n) == n`. */
  lemma UnwrapAtCheckpoint(n: u64, zeroPoint: u32)
    ensures Unwrap(Wrap(n, zeroPoint), zeroPoint, n) == n
  {
    UnwrapOfWrap(n, zeroPoint, n);
  }

  /**
   * Near 2^64 the sum of line 13 wraps around and the round trip fails: the index
   * 2^64 - 2 with checkpoint 2^64 - 1 comes back as 2^32 - 2.
   */
  lemma UnwrapOverflowsNearTop(zeroPoint: u32)
    ensures Unwrap(Wrap(U64 - 2, zeroPoint), zeroPoint, U64 - 1) == U32 - 2
  {
    OffsetOfWrap(U64 - 2, zeroPoint, U64 - 1);
  }

  /**
   * The fold of line 16 only lowers the result below the checkpoint, and then by at
   * most 2^31; a result that far above the checkpoint has no smaller non-negative
   * candidate (it is below 2^32).
   */
  lemma UnwrapBounds(self: u32, zeroPoint: u32, checkpoint: u64)
    ensures var r := Unwrap(self, zeroPoint, checkpoint);
      && (checkpoint + U32 <= U64 ==> checkpoint - HALF32 <= r < checkpoint + U32)
      && (r >= checkpoint + HALF32 ==> r < U32)
  {
  }

  /** The three outcomes of lines 13-17 when the 64-bit sum cannot wrap around. */
  lemma UnwrapShape(self: u32, zeroPoint: u32, checkpoint: u64)
    requires checkpoint + U32 <= U64
    ensures var offset := Offset(self, zeroPoint, checkpoint);
            var r := Unwrap(self, zeroPoint, checkpoint);
      || (offset < HALF32 && r == checkpoint + offset)
      || (offset >= HALF32 && checkpoint + offset >= U32 && r == checkpoint + offset - U32)
      || (offset >= HALF32 && checkpoint + offset < U32 && r == checkpoint + offset)
  {
  }

  /**
   * Unwrap returns the nearest index to the checkpoint among all 64-bit indices with the
   * same wire value, and the smaller one on a tie (when the sum of line 13 cannot wrap).
   */
  lemma UnwrapIsNearest(self: u32, zeroPoint: u32, checkpoint: u64, m: u64)
    requires checkpoint + U32 <= U64
    requires Wrap(m, zeroPoint) == self
    ensures Dist(Unwrap(self, zeroPoint, checkpoint), checkpoint) <= Dist(m, checkpoint)
    ensures Dist(Unwrap(self, zeroPoint, checkpoint), checkpoint) == Dist(m, checkpoint)
            ==> Unwrap(self, zeroPoint, checkpoint) <= m
  {
    var r := Unwrap(self, zeroPoint, checkpoint);
    var km := WrapCongruent(m, zeroPoint);
    var kr := WrapCongruent(r, zeroPoint);
    assert m == r + (km - kr) * 0x1_0000_0000;
    UnwrapShape(self, zeroPoint, checkpoint);
    if km - kr >= 1 {
      assert m >= r + U32;
    } else if km - kr <= -1 {
      assert m <= r - U32;
      // m is non-negative, so r cannot be the unfolded result below 2^32
      assert r >= U32;
    }
  }
}
