/** Properties of the cache that relate several operations: the filter never
rejects a pattern the matcher would accept, the admission gate, renewal
followed by a lookup, and lookups of the reverse complement of a stored
pattern. */
module CacheProperties {
  import opened Minimizer
  import opened PresenceFilter
  import opened CacheEntry
  import opened Matcher
  import opened MmCache

  // ---------------------------------------------------------------------
  // Matcher

  /** Two minimizer sequences describe the same pattern: same hashes, same
      strands and the same distances between neighbours (the absolute
      positions may differ). */
  ghost predicate SamePattern(q: seq<Minimizer>, p: seq<Minimizer>)
  {
    Hashes(q) == Hashes(p) && Strands(q) == Strands(p) && Offsets(q) == Offsets(p)
  }

  /** `q` is the reverse complement of the pattern `p`: its hashes and
      neighbour distances are those of `p` read back to front, and its strands
      are those of `p` read back to front and flipped. */
  ghost predicate ReversedPattern(q: seq<Minimizer>, p: seq<Minimizer>)
  {
    && Hashes(q) == Reversed(Hashes(p))
    && Strands(q) == Flipped(Reversed(Strands(p)))
    && Offsets(q) == Reversed(Offsets(p))
  }

  /** A slot filled from pattern `p` matches `q` in the same order exactly when
      `q` is the same pattern, so a bucket collision between different
      patterns is never reported as a hit. */
  lemma SameOrderIffSamePattern(s: Slot, p: seq<Minimizer>, pos: seq<Candidate>, neg: seq<Candidate>,
                                rsl: U32, q: seq<Minimizer>)
    requires SlotWf(s) && |p| > 0
    ensures SameOrder(q, Renew(s, p, pos, neg, rsl)) <==> SamePattern(q, p)
  {
    SameOrderIsVectorEquality(q, Renew(s, p, pos, neg, rsl));
  }

  /** A slot filled from pattern `p` matches `q` in the opposite order exactly
      when `q` is the reverse complement of `p`. */
  lemma OppositeOrderIffReversedPattern(s: Slot, p: seq<Minimizer>, pos: seq<Candidate>, neg: seq<Candidate>,
                                        rsl: U32, q: seq<Minimizer>)
    requires SlotWf(s) && |p| > 0
    ensures OppositeOrder(q, Renew(s, p, pos, neg, rsl)) <==> ReversedPattern(q, p)
  {
    OppositeOrderIsReversedVectors(q, Renew(s, p, pos, neg, rsl));
  }

  // ---------------------------------------------------------------------
  // Presence filter

  /** The filter has no false negatives: whenever the matcher would accept a
      query at its bucket, the first hash of the query is in the filter. */
  lemma FilterNoFalseNegative(c: Cache, q: seq<Minimizer>)
    requires Valid(c) && |q| > 0
    requires Classify(q, c.slots[Bucket(c, q)]) != NoMatch
    ensures Contains(c.filter, q[0].hash)
  {
    var s := c.slots[Bucket(c, q)];
    var n := |q|;
    assert EndpointsFiltered(s, c.filter);
    if !SameOrder(q, s) {
      assert MirroredAt(q, s, n - 1);
      assert q[n - 1 - (n - 1)] == q[0];
    }
  }

  /** Hence a lookup misses exactly on an empty query or when the matcher
      rejects the bucket's pattern; the filter only saves time. */
  lemma QueryMissIffNoMatch(c: Cache, q: seq<Minimizer>, pos: seq<Candidate>, neg: seq<Candidate>,
                            rsl: U32, readLen: int)
    requires Valid(c)
    ensures Query(c, q, pos, neg, rsl, readLen).index == -1 <==>
      |q| == 0 || Classify(q, c.slots[Bucket(c, q)]) == NoMatch
  {
    if |q| > 0 && Classify(q, c.slots[Bucket(c, q)]) != NoMatch {
      FilterNoFalseNegative(c, q);
    }
  }

  // ---------------------------------------------------------------------
  // Query

  /** A same-order hit returns the stored lists re-anchored at the query's
      first minimizer: shifting the positive list forward by that position, or
      the negative list back by it, gives the stored list again. */
  lemma QueryForwardHit(c: Cache, q: seq<Minimizer>, pos: seq<Candidate>, neg: seq<Candidate>,
                        rsl: U32, readLen: int)
    requires Valid(c) && |q| > 0 && Contains(c.filter, q[0].hash)
    requires Classify(q, c.slots[Bucket(c, q)]) == Forward
    ensures var r := Query(c, q, pos, neg, rsl, readLen);
            var s := c.slots[Bucket(c, q)];
            && r.index == Bucket(c, q)
            && Shift(r.pos, Pos(q[0])) == s.positive
            && Shift(r.neg, -Pos(q[0])) == s.negative
            && r.repetitiveSeedLength == s.repetitiveSeedLength
  {
    var s := c.slots[Bucket(c, q)];
    ShiftInverse(s.positive, -Pos(q[0]));
    ShiftInverse(s.negative, Pos(q[0]));
  }

  /** An opposite-order hit swaps the strand lists and maps positions through
      the last minimizer and the k-mer length; the read length cancels out. */
  lemma QueryReverseHit(c: Cache, q: seq<Minimizer>, pos: seq<Candidate>, neg: seq<Candidate>,
                        rsl: U32, readLen: int)
    requires Valid(c) && |q| > 0 && Contains(c.filter, q[0].hash)
    requires Classify(q, c.slots[Bucket(c, q)]) == Reverse
    ensures var r := Query(c, q, pos, neg, rsl, readLen);
            var s := c.slots[Bucket(c, q)];
            var last := Pos(q[|q| - 1]);
            && r.index == Bucket(c, q)
            && r.pos == Shift(s.negative, c.kmerLength - 1 - last)
            && r.neg == Shift(s.positive, last - c.kmerLength + 1)
            && r.repetitiveSeedLength == s.repetitiveSeedLength
  {
  }

  /** The read length never changes the answer of a lookup. */
  lemma QueryIgnoresReadLength(c: Cache, q: seq<Minimizer>, pos: seq<Candidate>, neg: seq<Candidate>,
                               rsl: U32, readLen1: int, readLen2: int)
    requires Valid(c)
    ensures Query(c, q, pos, neg, rsl, readLen1) == Query(c, q, pos, neg, rsl, readLen2)
  {
  }

  /** A direct weight adjustment never changes the answer of a lookup. */
  lemma QueryIgnoresWeight(c: Cache, idx: int, delta: int, q: seq<Minimizer>,
                           pos: seq<Candidate>, neg: seq<Candidate>, rsl: U32, readLen: int)
    requires Valid(c) && 0 <= idx < |c.slots|
    ensures Query(DirectUpdateWeight(c, idx, delta), q, pos, neg, rsl, readLen) == Query(c, q, pos, neg, rsl, readLen)
  {
    var c' := DirectUpdateWeight(c, idx, delta);
    if |q| > 0 {
      var h := Bucket(c, q);
      assert Bucket(c', q) == h;
      ClassifySeesOnlyPattern(q, c.slots[h], c'.slots[h]);
    }
  }

  // ---------------------------------------------------------------------
  // Update: counting and the admission gate

  /** Every non-empty update counts its fingerprint at its bucket, whatever
      happens next. */
  lemma UpdateCountsFingerprint(c: Cache, q: seq<Minimizer>, pos: seq<Candidate>, neg: seq<Candidate>, rsl: U32)
    requires Valid(c) && |q| > 0
    ensures var c' := Update(c, q, pos, neg, rsl);
            var h, f := Bucket(c, q), Fingerprint(q);
            && c'.slots[h].fpSum == c.slots[h].fpSum + 1
            && c'.slots[h].fpCnt[f] == c.slots[h].fpCnt[f] + 1
            && forall g :: 0 <= g < FINGER_PRINT_SIZE && g != f ==> c'.slots[h].fpCnt[g] == c.slots[h].fpCnt[g]
  {
  }

  /** A gated update changes nothing but the histogram of its bucket. */
  lemma UpdateGateClosed(c: Cache, q: seq<Minimizer>, pos: seq<Candidate>, neg: seq<Candidate>, rsl: U32)
    requires Valid(c) && |q| > 0 && !Admitted(c, q)
    ensures var c' := Update(c, q, pos, neg, rsl);
            var h := Bucket(c, q);
            && c'.filter == c.filter
            && c'.slots[h].(fpCnt := c.slots[h].fpCnt, fpSum := c.slots[h].fpSum) == c.slots[h]
  {
  }

  /** The gate, stated on the slot as it was before the update. */
  lemma AdmittedIff(c: Cache, q: seq<Minimizer>)
    requires Valid(c) && |q| > 0
    ensures var s, f := c.slots[Bucket(c, q)], Fingerprint(q);
            Admitted(c, q) <==>
              && s.fpSum + 1 <= SATURATE_COUNT
              && s.fpSum + 1 >= ADMIT_MIN
              && (s.fpCnt[f] + 1) * DOMINANCE >= s.fpSum + 1
  {
  }

  /** Whenever the gate admits, every histogram counter is at most
      `SATURATE_COUNT`, far below 2^16: the wrap-around of the 16-bit counters
      can never let an update through. */
  lemma AdmittedCountsFitShort(s: Slot, f: int)
    requires SlotWf(s) && 0 <= f < FINGER_PRINT_SIZE
    requires Admits(CountFingerprint(s, f), f)
    ensures forall g :: 0 <= g < FINGER_PRINT_SIZE ==> CountFingerprint(s, f).fpCnt[g] <= SATURATE_COUNT < 0x1_0000
  {
    var counted := CountFingerprint(s, f);
    forall g | 0 <= g < FINGER_PRINT_SIZE
      ensures counted.fpCnt[g] <= SATURATE_COUNT
    {
      BucketAtMostSum(counted.fpCnt, g);
    }
  }

  /** Once a slot has counted `SATURATE_COUNT` updates it admits none again:
      its total only grows, and every later update is gated. */
  lemma SaturationIsPermanent(c: Cache, q: seq<Minimizer>, pos: seq<Candidate>, neg: seq<Candidate>, rsl: U32)
    requires Valid(c) && |q| > 0
    requires c.slots[Bucket(c, q)].fpSum >= SATURATE_COUNT
    ensures !Admitted(c, q)
    ensures var c' := Update(c, q, pos, neg, rsl);
            forall j :: 0 <= j < |c.slots| ==> c'.slots[j].fpSum >= c.slots[j].fpSum
  {
  }

  /** A slot whose updates all carried one fingerprint admits the next update
      with that fingerprint from the tenth one up to the hundredth. */
  lemma DominantFingerprintAdmitted(c: Cache, q: seq<Minimizer>)
    requires Valid(c) && |q| > 0
    requires var s := c.slots[Bucket(c, q)];
             ADMIT_MIN - 1 <= s.fpSum < SATURATE_COUNT && s.fpCnt[Fingerprint(q)] == s.fpSum
    ensures Admitted(c, q)
  {
  }

  /** Past the gate: the weight moves by one in the matcher's direction, the
      slot is activated, and either the pattern, candidates and filter stay as
      they were, or (the weight having gone negative) the slot is renewed with
      weight 1 and the new pattern. */
  lemma UpdateAdmitted(c: Cache, q: seq<Minimizer>, pos: seq<Candidate>, neg: seq<Candidate>, rsl: U32)
    requires Valid(c) && |q| > 0 && Admitted(c, q)
    ensures var c' := Update(c, q, pos, neg, rsl);
            var h := Bucket(c, q);
            var s, s' := c.slots[h], c'.slots[h];
            var stepped := if Classify(q, s) == NoMatch then s.weight - 1 else s.weight + 1;
            && s'.activated
            && (Renews(c, q) <==> stepped < 0)
            && (stepped >= 0 ==>
                  && s'.weight == stepped
                  && s'.minimizers == s.minimizers && s'.strands == s.strands && s'.offsets == s.offsets
                  && s'.positive == s.positive && s'.negative == s.negative
                  && s'.repetitiveSeedLength == s.repetitiveSeedLength
                  && c'.filter == c.filter)
            && (stepped < 0 ==>
                  && s'.weight == 1
                  && s'.minimizers == Hashes(q) && s'.strands == Strands(q) && s'.offsets == Offsets(q)
                  && s'.repetitiveSeedLength == rsl
                  && Shift(s'.positive, -Pos(q[0])) == pos && Shift(s'.negative, Pos(q[0])) == neg
                  && c'.filter == c.filter + {Key(q[0].hash), Key(q[|q| - 1].hash)})
  {
    var h := Bucket(c, q);
    var counted := CountFingerprint(c.slots[h], Fingerprint(q));
    ClassifySeesOnlyPattern(q, counted, c.slots[h]);
  }

  // ---------------------------------------------------------------------
  // Renewal followed by a lookup

  /** After an update that renews its slot with pattern `q`, looking `q` up
      hits that slot in the same order and returns exactly the candidate
      lists and seed length the update was given. */
  lemma RenewalRoundTrip(c: Cache, q: seq<Minimizer>, pos: seq<Candidate>, neg: seq<Candidate>, rsl: U32,
                         pos0: seq<Candidate>, neg0: seq<Candidate>, rsl0: U32, readLen: int)
    requires Valid(c) && |q| > 0 && Renews(c, q)
    ensures Query(Update(c, q, pos, neg, rsl), q, pos0, neg0, rsl0, readLen) == QueryOut(Bucket(c, q), pos, neg, rsl)
  {
    var c' := Update(c, q, pos, neg, rsl);
    var h := Bucket(c, q);
    UpdateAdmitted(c, q, pos, neg, rsl);
    assert Bucket(c', q) == h;
    assert SameOrder(q, c'.slots[h]);
    ShiftInverse(pos, Pos(q[0]));
  }

  /** Is `q` its own reversed pattern? Only then does a slot renewed with
      `q` accept a reversed pattern of `q` in the same order (the same-order
      test is tried first). */
  ghost predicate SelfReversed(q: seq<Minimizer>)
  {
    ReversedPattern(q, q)
  }

  /** For a reversed pattern `rq` of `q`, being the same pattern as `q` is
      being self-reversed. */
  lemma SamePatternIffSelfReversed(rq: seq<Minimizer>, q: seq<Minimizer>)
    requires ReversedPattern(rq, q)
    ensures SamePattern(rq, q) <==> SelfReversed(q)
  {
  }

  /** Every position of `q` reflects through `anchor` to a position that can
      be packed. */
  ghost predicate Reflectable(q: seq<Minimizer>, anchor: int)
  {
    forall i :: 0 <= i < |q| ==> 0 <= anchor - Pos(q[i]) < POS_LIMIT
  }

  /** One minimizer of the reverse complement: same hash, flipped strand,
      position reflected through `anchor`. */
  function Reflect(m: Minimizer, anchor: int): (r: Minimizer)
    requires 0 <= anchor - Pos(m) < POS_LIMIT
    ensures r.hash == m.hash && Strand(r) == 1 - Strand(m) && Pos(r) == anchor - Pos(m)
  {
    Minimizer(m.hash, Pack(anchor - Pos(m), 1 - Strand(m)))
  }

  /** Every minimizer of `q` reflected through `anchor`, in the same order. */
  function ReflectAll(q: seq<Minimizer>, anchor: int): (r: seq<Minimizer>)
    requires Reflectable(q, anchor)
    ensures |r| == |q|
    ensures forall i {:trigger r[i]} :: 0 <= i < |q| ==> r[i] == Reflect(q[i], anchor)
  {
    seq(|q|, i requires 0 <= i < |q| => Reflect(q[i], anchor))
  }

  /** The reverse complement of a read's minimizer sequence: the last
      minimizer comes first, every strand is flipped and every position `p`
      becomes `anchor - p`. */
  function ReverseComplement(q: seq<Minimizer>, anchor: int): (r: seq<Minimizer>)
    requires Reflectable(q, anchor)
    ensures |r| == |q|
    ensures forall j {:trigger r[j]} :: 0 <= j < |r| ==> r[j] == Reflect(q[|q| - 1 - j], anchor)
  {
    Reversed(ReflectAll(q, anchor))
  }

  lemma ReverseComplementAt(q: seq<Minimizer>, anchor: int, j: int)
    requires Reflectable(q, anchor) && 0 <= j < |q|
    ensures Hashes(ReverseComplement(q, anchor))[j] == Hashes(q)[|q| - 1 - j]
    ensures Strands(ReverseComplement(q, anchor))[j] == 1 - Strands(q)[|q| - 1 - j]
  {
    var m := ReverseComplement(q, anchor)[j];
    assert m == Reflect(q[|q| - 1 - j], anchor);
  }

  lemma ReverseComplementHashes(q: seq<Minimizer>, anchor: int)
    requires Reflectable(q, anchor)
    ensures Hashes(ReverseComplement(q, anchor)) == Reversed(Hashes(q))
  {
    var r := ReverseComplement(q, anchor);
    forall j | 0 <= j < |q|
      ensures Hashes(r)[j] == Reversed(Hashes(q))[j]
    {
      ReverseComplementAt(q, anchor, j);
    }
  }

  lemma ReverseComplementStrands(q: seq<Minimizer>, anchor: int)
    requires Reflectable(q, anchor)
    ensures Strands(ReverseComplement(q, anchor)) == Flipped(Reversed(Strands(q)))
  {
    var r := ReverseComplement(q, anchor);
    forall j | 0 <= j < |q|
      ensures Strands(r)[j] == Flipped(Reversed(Strands(q)))[j]
    {
      ReverseComplementAt(q, anchor, j);
    }
  }

  lemma ReverseComplementOffsetAt(q: seq<Minimizer>, anchor: int, j: int)
    requires Reflectable(q, anchor) && 0 <= j < |q| - 1
    ensures Offsets(ReverseComplement(q, anchor))[j] == Offsets(q)[|q| - 2 - j]
  {
    var r := ReverseComplement(q, anchor);
    var i := |q| - 2 - j;
    var a, b := r[j], r[j + 1];
    assert a == Reflect(q[i + 1], anchor);
    assert b == Reflect(q[i], anchor);
    assert Offsets(r)[j] == Pos(b) - Pos(a);
  }

  lemma ReverseComplementOffsets(q: seq<Minimizer>, anchor: int)
    requires Reflectable(q, anchor)
    ensures Offsets(ReverseComplement(q, anchor)) == Reversed(Offsets(q))
  {
    var r := ReverseComplement(q, anchor);
    forall j | 0 <= j < |q| - 1
      ensures Offsets(r)[j] == Reversed(Offsets(q))[j]
    {
      ReverseComplementOffsetAt(q, anchor, j);
    }
  }

  /** The reverse complement of `q` is a reversed pattern of `q`. */
  lemma ReverseComplementIsReversed(q: seq<Minimizer>, anchor: int)
    requires Reflectable(q, anchor)
    ensures ReversedPattern(ReverseComplement(q, anchor), q)
  {
    ReverseComplementHashes(q, anchor);
    ReverseComplementStrands(q, anchor);
    ReverseComplementOffsets(q, anchor);
  }

  /** A reversed pattern of `q` starts with the last hash of `q` and ends
      with its first. */
  lemma ReversedPatternSwapsEnds(q: seq<Minimizer>, rq: seq<Minimizer>)
    requires |q| > 0 && ReversedPattern(rq, q)
    ensures |rq| == |q|
    ensures rq[0].hash == q[|q| - 1].hash && rq[|rq| - 1].hash == q[0].hash
  {
    var n := |q|;
    assert |Hashes(rq)| == n;
    assert Hashes(rq)[0] == Reversed(Hashes(q))[0];
    assert Hashes(rq)[n - 1] == Reversed(Hashes(q))[n - 1];
  }

  /** Bucket and fingerprint depend on the two end hashes symmetrically, so a
      sequence with the ends swapped has the same bucket and fingerprint. */
  lemma SwappedEndsShareKeys(c: Cache, q: seq<Minimizer>, rq: seq<Minimizer>)
    requires |c.slots| > 0 && |q| > 0 && |rq| == |q|
    requires rq[0].hash == q[|q| - 1].hash && rq[|rq| - 1].hash == q[0].hash
    ensures Bucket(c, rq) == Bucket(c, q)
    ensures Fingerprint(rq) == Fingerprint(q)
  {
    if |q| > 1 {
      XorCommutes(q[0].hash, q[|q| - 1].hash);
    }
  }

  /** Hence a reversed pattern of `q` has the bucket and fingerprint of `q`. */
  lemma ReversedPatternSharesKeys(c: Cache, q: seq<Minimizer>, rq: seq<Minimizer>)
    requires |c.slots| > 0 && |q| > 0 && ReversedPattern(rq, q)
    ensures |rq| == |q|
    ensures rq[0].hash == q[|q| - 1].hash && rq[|rq| - 1].hash == q[0].hash
    ensures Bucket(c, rq) == Bucket(c, q)
    ensures Fingerprint(rq) == Fingerprint(q)
  {
    ReversedPatternSwapsEnds(q, rq);
    SwappedEndsShareKeys(c, q, rq);
  }

  /** A slot renewed with `q` is matched by every reversed pattern of `q`:
      in the opposite order, unless `q` is self-reversed, in which case the
      same-order test, tried first, accepts it. */
  lemma RenewedSlotMatchesReversedPattern(s: Slot, q: seq<Minimizer>, pos: seq<Candidate>, neg: seq<Candidate>,
                                          rsl: U32, rq: seq<Minimizer>)
    requires SlotWf(s) && |q| > 0 && ReversedPattern(rq, q)
    ensures var s' := Renew(s, q, pos, neg, rsl);
            && Classify(rq, s') != NoMatch
            && (!SelfReversed(q) <==> Classify(rq, s') == Reverse)
  {
    OppositeOrderIffReversedPattern(s, q, pos, neg, rsl, rq);
    SameOrderIffSamePattern(s, q, pos, neg, rsl, rq);
    SamePatternIffSelfReversed(rq, q);
  }

  /** The slot an update renews, as the update leaves it. */
  lemma RenewedSlot(c: Cache, q: seq<Minimizer>, pos: seq<Candidate>, neg: seq<Candidate>, rsl: U32)
    requires Valid(c) && |q| > 0 && Renews(c, q)
    ensures var h := Bucket(c, q);
            var stepped := Step(CountFingerprint(c.slots[h], Fingerprint(q)), q);
            var c' := Update(c, q, pos, neg, rsl);
            && Valid(c') && SlotWf(stepped)
            && c'.kmerLength == c.kmerLength && Bucket(c', q) == h
            && c'.slots[h] == Renew(stepped, q, pos, neg, rsl)
            && c'.filter == c.filter + {Key(q[0].hash), Key(q[|q| - 1].hash)}
            && Contains(c'.filter, q[0].hash) && Contains(c'.filter, q[|q| - 1].hash)
  {
  }

  /** An opposite-order hit maps a stored position `p` to `k - 1 - anchor + p`
      on the other strand, `k` being the k-mer length and `anchor` the sum of
      the positions that the pattern's two ends take in the two reads.

      The two lemmas below, which reach the lists through `Update`, state
      their shift amounts through this function and `MirrorShiftBack`
      rather than as the sums themselves. The solver normalises a sum
      wherever it appears, and so it fails to see that `Shift(neg, k - 1 -
      anchor)` written for the updated cache and the same term written for
      the original cache are equal. A named amount over plain variables keeps
      the two terms identical. `ReverseComplementRoundTrip` states the
      result with the sums written out. */
  function MirrorShift(k: int, anchor: int): int
  {
    k - 1 - anchor
  }

  /** The opposite move, applied to the other list. */
  function MirrorShiftBack(k: int, anchor: int): int
  {
    anchor - k + 1
  }

  /** An opposite-order hit on a slot whose lists were anchored at `p0`, by a
      query whose last minimizer sits at `anchor - p0`, returns the anchored
      lists moved by `k - 1 - anchor` and back by it, `k` being the k-mer
      length: the anchoring cancels. */
  lemma ReverseHitAnchored(c: Cache, q: seq<Minimizer>, pos: seq<Candidate>, neg: seq<Candidate>,
                           p0: int, anchor: int, pos0: seq<Candidate>, neg0: seq<Candidate>, rsl0: U32, readLen: int)
    requires Valid(c) && |q| > 0 && Contains(c.filter, q[0].hash)
    requires Classify(q, c.slots[Bucket(c, q)]) == Reverse
    requires c.slots[Bucket(c, q)].positive == Shift(pos, p0)
    requires c.slots[Bucket(c, q)].negative == Shift(neg, -p0)
    requires Pos(q[|q| - 1]) == anchor - p0
    ensures var r := Query(c, q, pos0, neg0, rsl0, readLen);
            r.pos == Shift(neg, c.kmerLength - 1 - anchor) && r.neg == Shift(pos, anchor - c.kmerLength + 1)
  {
    var k, last := c.kmerLength, anchor - p0;
    QueryReverseHit(c, q, pos0, neg0, rsl0, readLen);
    ShiftCompose(neg, -p0, k - 1 - last);
    assert -p0 + (k - 1 - last) == k - 1 - anchor;
    ShiftCompose(pos, p0, last - k + 1);
    assert p0 + (last - k + 1) == anchor - k + 1;
  }

  /** Looking up a reversed pattern of `q` in a cache whose slot for `q`
      was renewed with `q` (and whose filter holds the last hash of `q`)
      hits that slot and returns its seed length. */
  lemma ReversedLookupHitsRenewedSlot(c: Cache, h: int, s: Slot, q: seq<Minimizer>, pos: seq<Candidate>,
                                      neg: seq<Candidate>, rsl: U32, rq: seq<Minimizer>,
                                      pos0: seq<Candidate>, neg0: seq<Candidate>, rsl0: U32, readLen: int)
    requires Valid(c) && SlotWf(s) && |q| > 0 && ReversedPattern(rq, q)
    requires 0 <= h < |c.slots| && Bucket(c, q) == h
    requires c.slots[h] == Renew(s, q, pos, neg, rsl)
    requires Contains(c.filter, q[|q| - 1].hash)
    ensures var r := Query(c, rq, pos0, neg0, rsl0, readLen);
            r.index == h && r.repetitiveSeedLength == rsl
  {
    ReversedPatternSharesKeys(c, q, rq);
    RenewedSlotMatchesReversedPattern(s, q, pos, neg, rsl, rq);
  }

  /** In the same situation, when `q` is not self-reversed, the hit is in
      the opposite order and the lists come back swapped: the negative list
      moved by `MirrorShift(k, anchor)` and the positive list moved back by
      it, where `k` is the k-mer length and `anchor` the sum of the positions
      of the first minimizer of `q` and the last of `rq`. The k-mer length
      arrives as the parameter `k`, tied to `c.kmerLength` by a requires, for
      the reason given at `MirrorShift`: a caller passes the k-mer length of
      the cache before the update as `k`. */
  lemma ReversedLookupSwapsLists(c: Cache, h: int, s: Slot, q: seq<Minimizer>, pos: seq<Candidate>,
                                 neg: seq<Candidate>, rsl: U32, rq: seq<Minimizer>,
                                 pos0: seq<Candidate>, neg0: seq<Candidate>, rsl0: U32, readLen: int,
                                 k: int, anchor: int)
    requires Valid(c) && SlotWf(s) && |q| > 0 && ReversedPattern(rq, q) && !SelfReversed(q)
    requires 0 <= h < |c.slots| && Bucket(c, q) == h
    requires c.slots[h] == Renew(s, q, pos, neg, rsl)
    requires Contains(c.filter, q[|q| - 1].hash)
    requires k == c.kmerLength && anchor == Pos(q[0]) + Pos(rq[|rq| - 1])
    ensures var r := Query(c, rq, pos0, neg0, rsl0, readLen);
            r.pos == Shift(neg, MirrorShift(k, anchor)) && r.neg == Shift(pos, MirrorShiftBack(k, anchor))
  {
    ReversedPatternSharesKeys(c, q, rq);
    assert Bucket(c, rq) == h;
    RenewedSlotMatchesReversedPattern(s, q, pos, neg, rsl, rq);
    ReverseHitAnchored(c, rq, pos, neg, Pos(q[0]), anchor, pos0, neg0, rsl0, readLen);
  }

  /** After an update that renews its slot with pattern `q`, looking up a
      reversed pattern `rq` of `q` passes the filter and hits the same slot,
      returning the seed length the update stored. */
  lemma ReversedPatternHitsRenewedSlot(c: Cache, q: seq<Minimizer>, pos: seq<Candidate>, neg: seq<Candidate>,
                                       rsl: U32, rq: seq<Minimizer>, pos0: seq<Candidate>, neg0: seq<Candidate>,
                                       rsl0: U32, readLen: int)
    requires Valid(c) && |q| > 0 && Renews(c, q) && ReversedPattern(rq, q)
    ensures var r := Query(Update(c, q, pos, neg, rsl), rq, pos0, neg0, rsl0, readLen);
            r.index == Bucket(c, q) && r.repetitiveSeedLength == rsl
  {
    var h := Bucket(c, q);
    RenewedSlot(c, q, pos, neg, rsl);
    ReversedLookupHitsRenewedSlot(Update(c, q, pos, neg, rsl), h, Step(CountFingerprint(c.slots[h], Fingerprint(q)), q),
                                  q, pos, neg, rsl, rq, pos0, neg0, rsl0, readLen);
  }

  /** Unless `q` is self-reversed that hit is in the opposite order: the
      positive output is the caller's negative list and the negative output
      the caller's positive list, moved by `MirrorShift` and back by it, for
      the k-mer length and `anchor`, the sum of the positions of the first
      minimizer of `q` and the last of `rq`. */
  lemma ReversedPatternSwapsRenewedLists(c: Cache, q: seq<Minimizer>, pos: seq<Candidate>, neg: seq<Candidate>,
                                         rsl: U32, rq: seq<Minimizer>, pos0: seq<Candidate>, neg0: seq<Candidate>,
                                         rsl0: U32, readLen: int, anchor: int)
    requires Valid(c) && |q| > 0 && Renews(c, q) && ReversedPattern(rq, q) && !SelfReversed(q)
    requires anchor == Pos(q[0]) + Pos(rq[|rq| - 1])
    ensures var r := Query(Update(c, q, pos, neg, rsl), rq, pos0, neg0, rsl0, readLen);
            && r.pos == Shift(neg, MirrorShift(c.kmerLength, anchor))
            && r.neg == Shift(pos, MirrorShiftBack(c.kmerLength, anchor))
  {
    var h := Bucket(c, q);
    RenewedSlot(c, q, pos, neg, rsl);
    ReversedLookupSwapsLists(Update(c, q, pos, neg, rsl), h, Step(CountFingerprint(c.slots[h], Fingerprint(q)), q),
                             q, pos, neg, rsl, rq, pos0, neg0, rsl0, readLen, c.kmerLength, anchor);
  }

  /** The reverse complement of `q` is one reversed pattern of `q`; its last
      minimizer reflects the first of `q`, so the `anchor` of the reflection
      is the one that appears in `ReversedPatternSwapsRenewedLists`. Moving the lists
      returned for it back by the k-mer length and `anchor` gives the lists
      the renewing update stored. */
  lemma ReverseComplementRoundTrip(c: Cache, q: seq<Minimizer>, pos: seq<Candidate>, neg: seq<Candidate>, rsl: U32,
                                   anchor: int, pos0: seq<Candidate>, neg0: seq<Candidate>, rsl0: U32, readLen: int)
    requires Valid(c) && |q| > 0 && Renews(c, q) && Reflectable(q, anchor)
    ensures var r := Query(Update(c, q, pos, neg, rsl), ReverseComplement(q, anchor), pos0, neg0, rsl0, readLen);
            && r.index == Bucket(c, q)
            && r.repetitiveSeedLength == rsl
            && (!SelfReversed(q) ==>
                  && Shift(r.pos, anchor - c.kmerLength + 1) == neg
                  && Shift(r.neg, c.kmerLength - 1 - anchor) == pos)
  {
    var rq := ReverseComplement(q, anchor);
    ReverseComplementIsReversed(q, anchor);
    assert Pos(rq[|rq| - 1]) == anchor - Pos(q[0]);
    ReversedPatternHitsRenewedSlot(c, q, pos, neg, rsl, rq, pos0, neg0, rsl0, readLen);
    if !SelfReversed(q) {
      ReversedPatternSwapsRenewedLists(c, q, pos, neg, rsl, rq, pos0, neg0, rsl0, readLen, anchor);
      ShiftCancels(neg, MirrorShift(c.kmerLength, anchor), anchor - c.kmerLength + 1);
      ShiftCancels(pos, MirrorShiftBack(c.kmerLength, anchor), c.kmerLength - 1 - anchor);
    }
  }
}
