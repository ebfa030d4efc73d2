// Fixed-width integer ranges, bytes and the optional value used throughout
// the model of the minnow TCP stack.
module Common {

  const TWO_16: nat := 0x1_0000
  const TWO_32: nat := 0x1_0000_0000
  const TWO_64: nat := 0x1_0000_0000_0000_0000

  /** An unsigned 16-bit value (`uint16_t`). */
  type u16 = x: nat | x < TWO_16

  /** An unsigned 32-bit value (`uint32_t`). */
  type u32 = x: nat | x < TWO_32

  /** An unsigned 64-bit value (`uint64_t`). */
  type u64 = x: nat | x < TWO_64

  /** One byte of a `std::string` payload. */
  type byte = x: nat | x < 256

  /** `std::optional<T>`. */
  datatype Option<T> = None | Some(value: T)

  function Min(a: nat, b: nat): nat
  {
    if a <= b then a else b
  }

  function Max(a: nat, b: nat): nat
  {
    if a >= b then a else b
  }

  /** Dropping a prefix of the first part of a concatenation. */
  lemma DropAppend<T>(a: seq<T>, b: seq<T>, n: nat)
    requires n <= |a|
    ensures (a + b)[n..] == a[n..] + b
  {
  }

  /** A slice of a slice is a slice of the original. */
  lemma SliceOfSlice<T>(w: seq<T>, lo: nat, hi: nat, a: nat, b: nat)
    requires lo <= hi <= |w| && a <= b <= hi - lo
    ensures w[lo..hi][a..b] == w[lo + a..lo + b]
  {
    assert forall i | 0 <= i < b - a :: w[lo..hi][a..b][i] == w[lo..hi][a + i];
  }

  /** A slice splits at any index inside it. */
  lemma SliceSplit<T>(w: seq<T>, a: nat, b: nat, c: nat)
    requires a <= b <= c <= |w|
    ensures w[a..c] == w[a..b] + w[b..c]
  {
  }

  /** Sequence concatenation is associative (stated for the solver's benefit). */
  lemma AppendAssoc<T>(a: seq<T>, b: seq<T>, c: seq<T>)
    ensures (a + b) + c == a + (b + c)
  {
  }
}
