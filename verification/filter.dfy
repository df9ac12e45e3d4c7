/** The presence filter `head_mm`.

`head_mm` is an array of 2^22 64-bit words. A hash selects word
`(hash >> 6) & 0x3fffff` and bit `hash & 63` of that word. The model keeps the
set of bit addresses `word * 64 + bit` that are set. Bits are only ever set.
 */
module PresenceFilter {
  import opened Minimizer

  /** Number of words in `head_mm`. */
  const WORDS: int := 0x40_0000
  /** Number of bits in `head_mm`. */
  const BITS: int := 0x1000_0000

  type Filter = set<int>

  /** The word `(hash >> 6) & 0x3fffff`. */
  function Word(h: U64): (w: int)
    ensures 0 <= w < WORDS
  {
    (h / 64) % WORDS
  }

  /** The bit `hash & 0x3f` inside its word. */
  function Bit(h: U64): (b: int)
    ensures 0 <= b < 64
  {
    h % 64
  }

  /** The address of the bit that `h` tests and sets. */
  function Key(h: U64): int
  {
    Word(h) * 64 + Bit(h)
  }

  /** On a 64-bit word, the source's shift-and-mask selection is division and
      remainder. `Word` and `Bit` are the integer reading of these same
      operations: `(h >> 6) & 0x3fffff` is `(h / 64) % 2^22` and `h & 0x3f` is
      `h % 64`. */
  lemma MaskedIndexing(x: bv64)
    ensures (x >> 6) & 0x3f_ffff == (x / 64) % 0x40_0000
    ensures x & 0x3f == x % 64
  {
  }

  /** The bit address is the hash taken modulo 2^28, and it determines the word
      and the bit: two hashes share a bit exactly when they agree modulo 2^28. */
  lemma KeyIsLowBits(h: U64)
    ensures Key(h) == h % BITS
    ensures Word(h) == Key(h) / 64 && Bit(h) == Key(h) % 64
  {
    var a := h / 64;
    var b := h % 64;
    var w := a % WORDS;
    var c := a / WORDS;
    assert h == a * 64 + b;
    assert a == c * WORDS + w;
    assert h == c * BITS + (w * 64 + b);
    assert 0 <= w * 64 + b < BITS;
  }

  lemma SameBitIffSameKey(h1: U64, h2: U64)
    ensures (Word(h1) == Word(h2) && Bit(h1) == Bit(h2)) <==> h1 % BITS == h2 % BITS
  {
    KeyIsLowBits(h1);
    KeyIsLowBits(h2);
  }

  /** Filter test: is the bit of `h` set? That is, is the hash taken
      modulo 2^28 in the set? */
  predicate Contains(f: Filter, h: U64)
    ensures Contains(f, h) <==> h % BITS in f
  {
    KeyIsLowBits(h);
    Key(h) in f
  }

  /** Set the bit of `h`; every other bit keeps its value. */
  function Insert(f: Filter, h: U64): (f': Filter)
    ensures f <= f'
    ensures Contains(f', h)
    ensures forall k :: k in f' ==> k in f || k == Key(h)
  {
    f + {Key(h)}
  }

  /** Every set bit is a bit of the array. */
  ghost predicate InRange(f: Filter)
  {
    forall k :: k in f ==> 0 <= k < BITS
  }
}
