// 32-bit wrapping sequence numbers (the "Wrap32" value type): conversion
// between absolute 64-bit stream positions and the 32-bit numbers carried
// on the wire, as in section 3.4 of RFC 9293.
module WrappingIntegers {
  import opened Common

  /** A 32-bit sequence number; `raw` is the value carried on the wire. */
  datatype Wrap32 = Wrap32(raw: u32)

  /** `Wrap32 + uint32_t`: addition modulo 2^32. */
  function Plus(w: Wrap32, n: u32): (r: Wrap32)
    ensures (r.raw - w.raw - n) % TWO_32 == 0
  {
    Wrap32((w.raw + n) % TWO_32)
  }

  /** Absolute position `n` expressed relative to `zeroPoint`. */
  function Wrap(n: nat, zeroPoint: Wrap32): (r: Wrap32)
    ensures r.raw == (zeroPoint.raw + n) % TWO_32
  {
    ModAddLeft(zeroPoint.raw, n);
    Wrap32((zeroPoint.raw + n % TWO_32) % TWO_32)
  }

  function AbsDiff(a: nat, b: nat): nat
  {
    if a > b then a - b else b - a
  }

  /** The checkpoint with its low 32 bits cleared (`checkpoint & 0xFFFFFFFF00000000`). */
  function BlockBase(checkpoint: u64): (base: u64)
    ensures base % TWO_32 == 0
    ensures base <= checkpoint < base + TWO_32
    ensures base <= TWO_64 - TWO_32
  {
    BlockBaseBound(checkpoint);
    checkpoint - checkpoint % TWO_32
  }

  /** The distance of `w` past `zeroPoint`, as a uint32 subtraction. */
  function Offset(w: Wrap32, zeroPoint: Wrap32): u32
  {
    (w.raw - zeroPoint.raw) % TWO_32
  }

  /** The candidate in the checkpoint's own 2^32 block. */
  function OwnCandidate(w: Wrap32, zeroPoint: Wrap32, checkpoint: u64): (c: u64)
    ensures c / TWO_32 == checkpoint / TWO_32
  {
    BlockDiv(BlockBase(checkpoint), Offset(w, zeroPoint), checkpoint);
    BlockBase(checkpoint) + Offset(w, zeroPoint)
  }

  /**
   * The absolute position whose wrapped form is `this`, chosen among the
   * candidate in the checkpoint's block and the candidates one period
   * before (when it does not underflow) and one period after (computed in
   * uint64, so it wraps for checkpoints in the top block). A candidate
   * replaces the current best only when strictly closer.
   */
  function Unwrap(w: Wrap32, zeroPoint: Wrap32, checkpoint: u64): (r: u64)
    ensures Wrap(r, zeroPoint) == w
  {
    var candidate := OwnCandidate(w, zeroPoint, checkpoint);
    var best :=
      if candidate >= TWO_32 && AbsDiff(candidate - TWO_32, checkpoint) < AbsDiff(candidate, checkpoint)
      then candidate - TWO_32
      else candidate;
    var next := (candidate + TWO_32) % TWO_64;
    var r := if AbsDiff(next, checkpoint) < AbsDiff(best, checkpoint) then next else best;
    UnwrapCongruent(w, zeroPoint, checkpoint, r);
    r
  }

  // ---------------------------------------------------------------------
  // Arithmetic helpers

  lemma ModAddLeft(a: nat, n: nat)
    ensures (a + n % TWO_32) % TWO_32 == (a + n) % TWO_32
  {
    var q := n / TWO_32;
    assert n == q * TWO_32 + n % TWO_32;
    ModPeriod(a + n % TWO_32, q);
  }

  /** Adding whole periods does not change the residue. */
  lemma ModPeriod(a: int, k: int)
    ensures (a + k * TWO_32) % TWO_32 == a % TWO_32
  {
  }

  lemma BlockBaseBound(checkpoint: u64)
    ensures checkpoint - checkpoint % TWO_32 <= TWO_64 - TWO_32
  {
    var q := checkpoint / TWO_32;
    assert checkpoint == q * TWO_32 + checkpoint % TWO_32;
    assert q < TWO_32;
  }

  lemma BlockDiv(base: nat, offset: nat, checkpoint: nat)
    requires base % TWO_32 == 0 && base <= checkpoint < base + TWO_32
    requires offset < TWO_32
    ensures (base + offset) / TWO_32 == checkpoint / TWO_32
  {
    var q := base / TWO_32;
    assert base == q * TWO_32;
    assert checkpoint / TWO_32 == q;
    assert (base + offset) / TWO_32 == q;
  }

  /** Every value Unwrap can return has the offset as its low 32 bits. */
  lemma UnwrapCongruent(w: Wrap32, zeroPoint: Wrap32, checkpoint: u64, r: nat)
    requires
      var candidate := OwnCandidate(w, zeroPoint, checkpoint);
      r == candidate || r == candidate - TWO_32 || r == (candidate + TWO_32) % TWO_64
    ensures Wrap(r, zeroPoint) == w
  {
    var candidate := OwnCandidate(w, zeroPoint, checkpoint);
    var offset := Offset(w, zeroPoint);
    assert candidate % TWO_32 == offset;
    assert r % TWO_32 == offset by {
      if r == candidate - TWO_32 {
        ModPeriod(r, 1);
      } else if r != candidate {
        if candidate + TWO_32 < TWO_64 {
          ModPeriod(candidate, 1);
        } else {
          assert r == candidate + TWO_32 - TWO_64;
          ModPeriod(r, 0x1_0000_0000 - 1);
        }
      }
    }
    WrapOfResidue(r, zeroPoint, w);
  }

  /** A position whose low 32 bits are the offset of `w` wraps to `w`. */
  lemma WrapOfResidue(x: nat, zeroPoint: Wrap32, w: Wrap32)
    requires x % TWO_32 == Offset(w, zeroPoint)
    ensures Wrap(x, zeroPoint) == w
  {
    var q := x / TWO_32;
    assert x == q * TWO_32 + Offset(w, zeroPoint);
    if w.raw >= zeroPoint.raw {
      assert zeroPoint.raw + x == w.raw + q * TWO_32;
      ModPeriod(w.raw, q);
    } else {
      assert zeroPoint.raw + x == w.raw + (q + 1) * TWO_32;
      ModPeriod(w.raw, q + 1);
    }
  }

  // ---------------------------------------------------------------------
  // Properties of Wrap and Unwrap

  /** Absolute positions a whole number of periods apart wrap to the same number. */
  lemma WrapPeriodic(n: nat, k: nat, zeroPoint: Wrap32)
    ensures Wrap(n + k * TWO_32, zeroPoint) == Wrap(n, zeroPoint)
  {
    ModPeriod(zeroPoint.raw + n, k);
  }

  /** Every position that wraps to `w` has the offset of `w` as its low 32 bits. */
  lemma WrapResidue(x: nat, zeroPoint: Wrap32, w: Wrap32)
    requires Wrap(x, zeroPoint) == w
    ensures x % TWO_32 == Offset(w, zeroPoint)
  {
    var q := (zeroPoint.raw + x) / TWO_32;
    assert zeroPoint.raw + x == q * TWO_32 + w.raw;
    ModPeriod(w.raw - zeroPoint.raw, q);
  }

  /** Unwrap returns a value at least as close as each candidate it examines. */
  lemma UnwrapBeatsCandidates(w: Wrap32, zeroPoint: Wrap32, checkpoint: u64)
    ensures
      var candidate := OwnCandidate(w, zeroPoint, checkpoint);
      var d := AbsDiff(Unwrap(w, zeroPoint, checkpoint), checkpoint);
      && d <= AbsDiff(candidate, checkpoint)
      && (candidate >= TWO_32 ==> d <= AbsDiff(candidate - TWO_32, checkpoint))
      && d <= AbsDiff((candidate + TWO_32) % TWO_64, checkpoint)
  {
  }

  /**
   * Nearest rule: no position with the same wrapped form is strictly
   * closer to the checkpoint. It holds for every uint64 position, and for
   * every natural number when the checkpoint lies below the top 2^32 block
   * (where the next-period candidate would not fit in 64 bits).
   */
  lemma {:induction false} UnwrapNearest(w: Wrap32, zeroPoint: Wrap32, checkpoint: u64, x: nat)
    requires Wrap(x, zeroPoint) == w
    requires x < TWO_64 || checkpoint < TWO_64 - TWO_32
    ensures AbsDiff(Unwrap(w, zeroPoint, checkpoint), checkpoint) <= AbsDiff(x, checkpoint)
  {
    var offset := Offset(w, zeroPoint);
    var candidate := OwnCandidate(w, zeroPoint, checkpoint);
    var base := BlockBase(checkpoint);
    WrapResidue(x, zeroPoint, w);
    UnwrapBeatsCandidates(w, zeroPoint, checkpoint);
    var q := x / TWO_32;
    var k := base / TWO_32;
    assert x == q * TWO_32 + offset;
    assert candidate == k * TWO_32 + offset;
    if q < k {
      EarlierPeriod(x, candidate, base, checkpoint, q, k);
    } else if q > k {
      LaterPeriod(x, candidate, base, checkpoint, q, k);
    } else {
      assert x == candidate;
    }
  }

  /** A position in an earlier period is no closer than the candidate one period back. */
  lemma EarlierPeriod(x: nat, candidate: nat, base: nat, checkpoint: nat, q: nat, k: nat)
    requires base <= checkpoint && base <= candidate < base + TWO_32
    requires x % TWO_32 == candidate % TWO_32
    requires x == q * TWO_32 + x % TWO_32 && candidate == k * TWO_32 + x % TWO_32 && q < k
    ensures candidate >= TWO_32 && AbsDiff(candidate - TWO_32, checkpoint) <= AbsDiff(x, checkpoint)
  {
    assert x + TWO_32 <= candidate by {
      assert (k - q) * TWO_32 >= TWO_32;
    }
  }

  /**
   * A position in a later period is no closer than the candidate one period
   * on, which fits in 64 bits when the position does or the checkpoint lies
   * below the top block.
   */
  lemma LaterPeriod(x: nat, candidate: nat, base: nat, checkpoint: nat, q: nat, k: nat)
    requires base % TWO_32 == 0 && base <= checkpoint < base + TWO_32 && base <= candidate < base + TWO_32
    requires x < TWO_64 || checkpoint < TWO_64 - TWO_32
    requires x == q * TWO_32 + x % TWO_32 && candidate == k * TWO_32 + x % TWO_32 && q > k
    requires base == k * TWO_32
    ensures (candidate + TWO_32) % TWO_64 == candidate + TWO_32
    ensures AbsDiff(candidate + TWO_32, checkpoint) <= AbsDiff(x, checkpoint)
  {
    assert x >= candidate + TWO_32 by {
      assert (q - k) * TWO_32 >= TWO_32;
    }
    if x >= TWO_64 {
      // then the checkpoint lies below the top block, and so does its block's end
      assert k < TWO_32 - 1 by {
        assert k * TWO_32 < TWO_64 - TWO_32 == (TWO_32 - 1) * TWO_32;
      }
      assert base + TWO_32 <= TWO_64 - TWO_32 by {
        assert base + TWO_32 == (k + 1) * TWO_32;
      }
    }
  }

  /** Round trip: unwrapping with the position itself as checkpoint recovers it. */
  lemma UnwrapWrap(n: u64, zeroPoint: Wrap32)
    ensures Unwrap(Wrap(n, zeroPoint), zeroPoint, n) == n
  {
    var r := Unwrap(Wrap(n, zeroPoint), zeroPoint, n);
    UnwrapNearest(Wrap(n, zeroPoint), zeroPoint, n, n);
    assert AbsDiff(r, n) == 0;
  }

  /** Two distinct values with the same low 32 bits are at least a period apart. */
  lemma SameResidueApart(a: nat, b: nat)
    requires a % TWO_32 == b % TWO_32 && a < b
    ensures b - a >= TWO_32
  {
    var qa, qb := a / TWO_32, b / TWO_32;
    assert a == qa * TWO_32 + a % TWO_32;
    assert b == qb * TWO_32 + b % TWO_32;
    assert qa < qb;
    assert (qb - qa) * TWO_32 >= TWO_32;
  }

  /**
   * When Unwrap picks a candidate from a neighbouring period, that
   * candidate and the own-block one lie on opposite sides of the checkpoint,
   * so the pick is less than half a period away.
   */
  lemma UnwrapNeighbourClose(w: Wrap32, zeroPoint: Wrap32, checkpoint: u64)
    requires Unwrap(w, zeroPoint, checkpoint) != OwnCandidate(w, zeroPoint, checkpoint)
    ensures AbsDiff(Unwrap(w, zeroPoint, checkpoint), checkpoint) < TWO_32 / 2
  {
    var r := Unwrap(w, zeroPoint, checkpoint);
    var candidate := OwnCandidate(w, zeroPoint, checkpoint);
    var base := BlockBase(checkpoint);
    assert base <= candidate < base + TWO_32;
    if candidate + TWO_32 >= TWO_64 {
      // the next-period candidate wrapped around to a small value and loses
      assert base == TWO_64 - TWO_32;
      assert r == candidate - TWO_32;
    }
    assert r == candidate - TWO_32 || r == candidate + TWO_32;
  }

  /**
   * Tie-break: when another position with the same wrapped form is exactly
   * as close to the checkpoint, the result is the one in the checkpoint's
   * own 2^32 block.
   */
  lemma UnwrapTieBreak(w: Wrap32, zeroPoint: Wrap32, checkpoint: u64, x: nat)
    requires Wrap(x, zeroPoint) == w
    requires x != Unwrap(w, zeroPoint, checkpoint)
    requires AbsDiff(x, checkpoint) == AbsDiff(Unwrap(w, zeroPoint, checkpoint), checkpoint)
    ensures Unwrap(w, zeroPoint, checkpoint) / TWO_32 == checkpoint / TWO_32
  {
    var r := Unwrap(w, zeroPoint, checkpoint);
    if r != OwnCandidate(w, zeroPoint, checkpoint) {
      UnwrapNeighbourClose(w, zeroPoint, checkpoint);
      WrapResidue(x, zeroPoint, w);
      WrapResidue(r, zeroPoint, w);
      // x is r mirrored about the checkpoint: less than a period from r
      if x < r {
        SameResidueApart(x, r);
      } else {
        SameResidueApart(r, x);
      }
      assert false;
    }
  }

  /**
   * For checkpoints from 2^31 up to the top 2^32 block the result lies
   * within 2^31 of the checkpoint.
   */
  lemma UnwrapWithinHalfPeriod(w: Wrap32, zeroPoint: Wrap32, checkpoint: u64)
    requires TWO_32 / 2 <= checkpoint < TWO_64 - TWO_32
    ensures AbsDiff(Unwrap(w, zeroPoint, checkpoint), checkpoint) <= TWO_32 / 2
  {
    var candidate := OwnCandidate(w, zeroPoint, checkpoint);
    UnwrapBeatsCandidates(w, zeroPoint, checkpoint);
    assert BlockBase(checkpoint) <= checkpoint < BlockBase(checkpoint) + TWO_32;
  }

  /**
   * In the top 2^32 block the bound above fails: the candidate one period
   * ahead wraps to 0 in uint64, so the checkpoint 2^64 - 1 unwraps the zero
   * point to 2^64 - 2^32, which is 2^32 - 1 away from it.
   */
  lemma UnwrapTopBlock()
    ensures Unwrap(Wrap32(0), Wrap32(0), TWO_64 - 1) == TWO_64 - TWO_32
    ensures AbsDiff(Unwrap(Wrap32(0), Wrap32(0), TWO_64 - 1), TWO_64 - 1) == TWO_32 - 1
  {
    assert BlockBase(TWO_64 - 1) == TWO_64 - TWO_32;
    assert OwnCandidate(Wrap32(0), Wrap32(0), TWO_64 - 1) == TWO_64 - TWO_32;
  }
}
