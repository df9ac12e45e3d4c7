/** The direction matcher (`IsMinimizersMatchCache`).

A query matches a slot in the same order when hashes, strands and position
deltas agree index by index. It matches in the opposite order when the query,
walked back to front, is the reverse complement of the stored pattern: hashes
agree, every strand is flipped, and the deltas agree walking backwards. The
same-order test is tried first.
 */
module Matcher {
  import opened Minimizer
  import opened CacheEntry

  datatype Direction = Forward | Reverse | NoMatch {
    /** The integer the source returns: 1, -1 or 0. */
    function Code(): int
    {
      match this
      case Forward => 1
      case Reverse => -1
      case NoMatch => 0
    }
  }

  /** Same order: hashes and strands agree index by index, and every stored
      offset is the distance between the corresponding query neighbours. */
  predicate SameOrder(q: seq<Minimizer>, s: Slot)
    requires SlotWf(s)
  {
    && |q| == |s.minimizers|
    && (forall i :: 0 <= i < |q| ==> s.minimizers[i] == q[i].hash && s.strands[i] == Strand(q[i]))
    && (forall i {:trigger s.offsets[i]} :: 0 <= i < |q| - 1 ==> s.offsets[i] == Pos(q[i + 1]) - Pos(q[i]))
  }

  /** Stored element `i` against query element `|q| - 1 - i`: equal hashes,
      different strands. */
  predicate MirroredAt(q: seq<Minimizer>, s: Slot, i: int)
    requires SlotWf(s) && |q| == |s.minimizers| && 0 <= i < |q|
  {
    var j := |q| - 1 - i;
    s.minimizers[i] == q[j].hash && s.strands[i] != Strand(q[j])
  }

  /** Stored offset `i` against the distance from query element
      `|q| - 2 - i` to query element `|q| - 1 - i`. */
  predicate MirroredOffsetAt(q: seq<Minimizer>, s: Slot, i: int)
    requires SlotWf(s) && |q| == |s.minimizers| && 0 <= i < |q| - 1
  {
    var j := |q| - 1 - i;
    s.offsets[i] == Pos(q[j]) - Pos(q[j - 1])
  }

  /** Opposite order: the stored pattern is walked from its first element
      while the query is walked from its last; hashes agree, strands differ,
      and every stored offset is the distance between the corresponding query
      neighbours taken backwards. */
  predicate OppositeOrder(q: seq<Minimizer>, s: Slot)
    requires SlotWf(s)
  {
    && |q| == |s.minimizers|
    && (forall i :: 0 <= i < |q| ==> MirroredAt(q, s, i))
    && (forall i :: 0 <= i < |q| - 1 ==> MirroredOffsetAt(q, s, i))
  }

  /** Reference classification: same order wins over opposite order. */
  function Classify(q: seq<Minimizer>, s: Slot): Direction
    requires SlotWf(s)
  {
    if SameOrder(q, s) then Forward
    else if OppositeOrder(q, s) then Reverse
    else NoMatch
  }

  /** The same-order test compares the query's hash, strand and offset vectors
      with the stored ones. */
  lemma SameOrderIsVectorEquality(q: seq<Minimizer>, s: Slot)
    requires SlotWf(s)
    ensures SameOrder(q, s) <==>
      Hashes(q) == s.minimizers && Strands(q) == s.strands && Offsets(q) == s.offsets
  {
    if SameOrder(q, s) {
      assert Hashes(q) == s.minimizers;
      assert Strands(q) == s.strands;
      assert Offsets(q) == s.offsets;
    }
    if Hashes(q) == s.minimizers && Strands(q) == s.strands && Offsets(q) == s.offsets {
      forall i | 0 <= i < |q|
        ensures s.minimizers[i] == q[i].hash && s.strands[i] == Strand(q[i])
      {
        assert Hashes(q)[i] == q[i].hash && Strands(q)[i] == Strand(q[i]);
      }
      forall i | 0 <= i < |q| - 1
        ensures s.offsets[i] == Pos(q[i + 1]) - Pos(q[i])
      {
        assert Offsets(q)[i] == Pos(q[i + 1]) - Pos(q[i]);
      }
    }
  }

  /** One mirrored element, read as an element of the reversed vectors. */
  lemma MirroredAtIsReversedAt(q: seq<Minimizer>, s: Slot, j: int)
    requires SlotWf(s) && |q| == |s.minimizers| && 0 <= j < |q|
    ensures MirroredAt(q, s, |q| - 1 - j) <==>
      Hashes(q)[j] == Reversed(s.minimizers)[j] && Strands(q)[j] == Flipped(Reversed(s.strands))[j]
  {
    var i := |q| - 1 - j;
    assert |q| - 1 - i == j;
    assert q[|q| - 1 - i] == q[j];
    assert Reversed(s.minimizers)[j] == s.minimizers[i];
    assert Reversed(s.strands)[j] == s.strands[i];
  }

  /** One mirrored offset, read as an element of the reversed offsets. */
  lemma MirroredOffsetAtIsReversedAt(q: seq<Minimizer>, s: Slot, j: int)
    requires SlotWf(s) && |q| == |s.minimizers| && 0 <= j < |q| - 1
    ensures MirroredOffsetAt(q, s, |q| - 2 - j) <==> Offsets(q)[j] == Reversed(s.offsets)[j]
  {
    var i := |q| - 2 - j;
    assert |q| - 1 - i == j + 1;
    assert q[|q| - 1 - i] == q[j + 1] && q[|q| - 1 - i - 1] == q[j];
    assert Reversed(s.offsets)[j] == s.offsets[i];
  }

  lemma OppositeOrderGivesReversedHashesAndStrands(q: seq<Minimizer>, s: Slot)
    requires SlotWf(s) && OppositeOrder(q, s)
    ensures Hashes(q) == Reversed(s.minimizers)
    ensures Strands(q) == Flipped(Reversed(s.strands))
  {
    forall j | 0 <= j < |q|
      ensures Hashes(q)[j] == Reversed(s.minimizers)[j] && Strands(q)[j] == Flipped(Reversed(s.strands))[j]
    {
      MirroredAtIsReversedAt(q, s, j);
    }
  }

  lemma OppositeOrderGivesReversedOffsets(q: seq<Minimizer>, s: Slot)
    requires SlotWf(s) && OppositeOrder(q, s)
    ensures Offsets(q) == Reversed(s.offsets)
  {
    forall j | 0 <= j < |q| - 1
      ensures Offsets(q)[j] == Reversed(s.offsets)[j]
    {
      MirroredOffsetAtIsReversedAt(q, s, j);
    }
  }

  lemma ReversedVectorsGiveOppositeOrder(q: seq<Minimizer>, s: Slot)
    requires SlotWf(s)
    requires Hashes(q) == Reversed(s.minimizers)
    requires Strands(q) == Flipped(Reversed(s.strands))
    requires Offsets(q) == Reversed(s.offsets)
    ensures OppositeOrder(q, s)
  {
    forall i | 0 <= i < |q|
      ensures MirroredAt(q, s, i)
    {
      MirroredAtIsReversedAt(q, s, |q| - 1 - i);
      assert |q| - 1 - (|q| - 1 - i) == i;
    }
    forall i | 0 <= i < |q| - 1
      ensures MirroredOffsetAt(q, s, i)
    {
      MirroredOffsetAtIsReversedAt(q, s, |q| - 2 - i);
      assert |q| - 2 - (|q| - 2 - i) == i;
    }
  }

  /** The opposite-order test compares the query's vectors with the stored ones
      read back to front, strands flipped. */
  lemma OppositeOrderIsReversedVectors(q: seq<Minimizer>, s: Slot)
    requires SlotWf(s)
    ensures OppositeOrder(q, s) <==>
      && Hashes(q) == Reversed(s.minimizers)
      && Strands(q) == Flipped(Reversed(s.strands))
      && Offsets(q) == Reversed(s.offsets)
  {
    if OppositeOrder(q, s) {
      OppositeOrderGivesReversedHashesAndStrands(q, s);
      OppositeOrderGivesReversedOffsets(q, s);
    }
    if && Hashes(q) == Reversed(s.minimizers)
       && Strands(q) == Flipped(Reversed(s.strands))
       && Offsets(q) == Reversed(s.offsets) {
      ReversedVectorsGiveOppositeOrder(q, s);
    }
  }

  /** The matcher reads only the stored pattern: two slots with the same
      minimizers, strands and offsets classify every query alike. */
  lemma ClassifySeesOnlyPattern(q: seq<Minimizer>, s: Slot, t: Slot)
    requires SlotWf(s) && SlotWf(t)
    requires s.minimizers == t.minimizers && s.strands == t.strands && s.offsets == t.offsets
    ensures Classify(q, s) == Classify(q, t)
  {
    SameOrderIsVectorEquality(q, s);
    SameOrderIsVectorEquality(q, t);
    OppositeOrderIsReversedVectors(q, s);
    OppositeOrderIsReversedVectors(q, t);
  }

  /** The first forward loop: hashes and strands, index by index, stopping
      at the first mismatch. */
  method ForwardHashScan(q: seq<Minimizer>, s: Slot) returns (ok: bool)
    requires SlotWf(s) && |q| == |s.minimizers|
    ensures ok <==> forall k :: 0 <= k < |q| ==> s.minimizers[k] == q[k].hash && s.strands[k] == Strand(q[k])
  {
    var size := |q|;
    var i := 0;
    while i < size
      invariant 0 <= i <= size
      invariant forall k :: 0 <= k < i ==> s.minimizers[k] == q[k].hash && s.strands[k] == Strand(q[k])
    {
      if s.minimizers[i] != q[i].hash || Strand(q[i]) != s.strands[i] {
        return false;
      }
      i := i + 1;
    }
    return true;
  }

  /** The second forward loop: each stored offset against the distance
      between the query's neighbours. */
  method ForwardOffsetScan(q: seq<Minimizer>, s: Slot) returns (ok: bool)
    requires SlotWf(s) && |q| == |s.minimizers|
    ensures ok <==> forall k {:trigger s.offsets[k]} :: 0 <= k < |q| - 1 ==> s.offsets[k] == Pos(q[k + 1]) - Pos(q[k])
  {
    var size := |q|;
    var i := 0;
    while i < size - 1
      invariant 0 <= i && (i <= size - 1 || i == 0)
      invariant forall k {:trigger s.offsets[k]} :: 0 <= k < i ==> s.offsets[k] == Pos(q[k + 1]) - Pos(q[k])
    {
      if s.offsets[i] != Pos(q[i + 1]) - Pos(q[i]) {
        return false;
      }
      i := i + 1;
    }
    return true;
  }

  /** The forward half of the matcher: the hash and strand scan, then the
      offset scan. */
  method ForwardTest(q: seq<Minimizer>, s: Slot) returns (ok: bool)
    requires SlotWf(s) && |q| == |s.minimizers|
    ensures ok <==> SameOrder(q, s)
  {
    var hashes := ForwardHashScan(q, s);
    if !hashes {
      return false;
    }
    ok := ForwardOffsetScan(q, s);
  }

  /** The first backward loop: the query is walked from its last minimizer
      (`j`) while the stored pattern is walked from its first (`i`). */
  method ReverseHashScan(q: seq<Minimizer>, s: Slot) returns (ok: bool)
    requires SlotWf(s) && |q| == |s.minimizers|
    ensures ok <==> forall k :: 0 <= k < |q| ==> MirroredAt(q, s, k)
  {
    var size := |q|;
    var i := 0;
    var j := size - 1;
    while i < size
      invariant 0 <= i <= size && j == size - 1 - i
      invariant forall k :: 0 <= k < i ==> MirroredAt(q, s, k)
    {
      assert q[j] == q[|q| - 1 - i];
      if s.minimizers[i] != q[j].hash || Strand(q[j]) == s.strands[i] {
        assert !MirroredAt(q, s, i);
        return false;
      }
      assert MirroredAt(q, s, i);
      i, j := i + 1, j - 1;
    }
    return true;
  }

  /** The second backward loop: stored offsets walked forwards against query
      distances walked backwards. */
  method ReverseOffsetScan(q: seq<Minimizer>, s: Slot) returns (ok: bool)
    requires SlotWf(s) && |q| == |s.minimizers|
    ensures ok <==> forall k :: 0 <= k < |q| - 1 ==> MirroredOffsetAt(q, s, k)
  {
    var size := |q|;
    var i := 0;
    var j := size - 1;
    while i < size - 1
      invariant 0 <= i && (i <= size - 1 || i == 0) && j == size - 1 - i
      invariant forall k :: 0 <= k < i ==> MirroredOffsetAt(q, s, k)
    {
      assert q[j] == q[|q| - 1 - i] && q[j - 1] == q[|q| - 1 - i - 1];
      if s.offsets[i] != Pos(q[j]) - Pos(q[j - 1]) {
        assert !MirroredOffsetAt(q, s, i);
        return false;
      }
      assert MirroredOffsetAt(q, s, i);
      i, j := i + 1, j - 1;
    }
    return true;
  }

  /** The backward half of the matcher: the hash and strand scan, then the
      offset scan. */
  method ReverseTest(q: seq<Minimizer>, s: Slot) returns (ok: bool)
    requires SlotWf(s) && |q| == |s.minimizers|
    ensures ok <==> OppositeOrder(q, s)
  {
    var hashes := ReverseHashScan(q, s);
    if !hashes {
      return false;
    }
    ok := ReverseOffsetScan(q, s);
  }

  /** The whole matcher: a length check, the forward test, and only if it
      fails, the backward test. */
  method MatchCache(q: seq<Minimizer>, s: Slot) returns (d: int)
    requires SlotWf(s)
    ensures |q| != |s.minimizers| ==> d == 0
    ensures d == 1 <==> SameOrder(q, s)
    ensures d == -1 <==> !SameOrder(q, s) && OppositeOrder(q, s)
    ensures d == Classify(q, s).Code()
  {
    if |s.minimizers| != |q| {
      return 0;
    }
    var forward := ForwardTest(q, s);
    if forward {
      return 1;
    }
    var backward := ReverseTest(q, s);
    if backward {
      return -1;
    }
    return 0;
  }
}
