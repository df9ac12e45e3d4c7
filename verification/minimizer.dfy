/** Minimizer records as the cache receives them.

A read is summarised by an ordered sequence of minimizers. Each one is a pair of
64-bit unsigned words: the minimizer's hash, and an `encoded` word that packs the
read position in its upper bits and the strand in its lowest bit
(`position << 1 | strand`). The cache reads the position back through a C++
`(int)` conversion followed by an arithmetic right shift; both are written out
here so that no range precondition is needed.
 */
module Minimizer {

  const TWO_31: int := 0x8000_0000
  const TWO_32: int := 0x1_0000_0000
  const TWO_64: int := 0x1_0000_0000_0000_0000

  /** Largest position (exclusive) that survives the round trip through `encoded`. */
  const POS_LIMIT: int := 0x4000_0000

  /** A C++ `uint64_t`. */
  type U64 = x: int | 0 <= x < 0x1_0000_0000_0000_0000

  /** A C++ `uint32_t`. */
  type U32 = x: int | 0 <= x < 0x1_0000_0000

  datatype Minimizer = Minimizer(hash: U64, encoded: U64)

  /** The C++ conversion `(int)x` of a 64-bit unsigned word: the low 32 bits,
      read as a two's complement number. */
  function ToInt32(x: U64): (r: int)
    ensures -TWO_31 <= r < TWO_31
    ensures (x - r) % TWO_32 == 0
    ensures x < TWO_31 ==> r == x
  {
    var low := x % TWO_32;
    assert x == (x / TWO_32) * TWO_32 + low;
    if low < TWO_31 then low else low - TWO_32
  }

  /** The read position `(int)encoded >> 1`. The shift is arithmetic, so it
      rounds toward minus infinity, as Dafny's `/` by a positive divisor does. */
  function PosOf(encoded: U64): (p: int)
    ensures -POS_LIMIT <= p < POS_LIMIT
    ensures encoded < TWO_31 ==> p * 2 <= encoded <= p * 2 + 1
  {
    ToInt32(encoded) / 2
  }

  /** The strand bit `encoded & 1`. */
  function StrandOf(encoded: U64): (s: nat)
    ensures s < 2
    ensures (encoded - s) % 2 == 0
  {
    encoded % 2
  }

  function Pos(m: Minimizer): int
  {
    PosOf(m.encoded)
  }

  function Strand(m: Minimizer): nat
  {
    StrandOf(m.encoded)
  }

  /** Packs a position and a strand the way the minimizer extractor does;
      `PosOf` and `StrandOf` recover both. */
  function Pack(p: int, s: nat): (e: U64)
    requires 0 <= p < POS_LIMIT && s < 2
    ensures PosOf(e) == p && StrandOf(e) == s
  {
    p * 2 + s
  }

  /** The hashes of a minimizer sequence, in order. */
  function Hashes(q: seq<Minimizer>): (hs: seq<U64>)
    ensures |hs| == |q|
    ensures forall i {:trigger hs[i]} :: 0 <= i < |q| ==> hs[i] == q[i].hash
  {
    seq(|q|, i requires 0 <= i < |q| => q[i].hash)
  }

  /** The strand bits of a minimizer sequence, in order. */
  function Strands(q: seq<Minimizer>): (ss: seq<nat>)
    ensures |ss| == |q|
    ensures forall i {:trigger ss[i]} :: 0 <= i < |q| ==> ss[i] == Strand(q[i]) && ss[i] < 2
  {
    seq(|q|, i requires 0 <= i < |q| => Strand(q[i]))
  }

  /** The distances from each minimizer to the next one. */
  function Offsets(q: seq<Minimizer>): (os: seq<int>)
    ensures |os| == if |q| == 0 then 0 else |q| - 1
    ensures forall i {:trigger os[i]} :: 0 <= i < |q| - 1 ==> os[i] == Pos(q[i + 1]) - Pos(q[i])
  {
    if |q| == 0 then [] else seq(|q| - 1, i requires 0 <= i < |q| - 1 => Pos(q[i + 1]) - Pos(q[i]))
  }

  /** The sequence read back to front. */
  function Reversed<T>(s: seq<T>): (r: seq<T>)
    ensures |r| == |s|
    ensures forall i {:trigger r[i]} :: 0 <= i < |s| ==> r[i] == s[|s| - 1 - i]
  {
    seq(|s|, i requires 0 <= i < |s| => s[|s| - 1 - i])
  }

  /** Every strand bit flipped. */
  function Flipped(ss: seq<nat>): (r: seq<nat>)
    requires forall i :: 0 <= i < |ss| ==> ss[i] < 2
    ensures |r| == |ss|
    ensures forall i {:trigger r[i]} :: 0 <= i < |ss| ==> r[i] == 1 - ss[i]
  {
    seq(|ss|, i requires 0 <= i < |ss| => 1 - ss[i])
  }
}
