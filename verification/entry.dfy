/** One slot of the cache (`_mm_cache_entry`) and the candidate lists it stores. */
module CacheEntry {
  import opened Minimizer

  /** Number of fingerprint buckets in each slot's histogram. */
  const FINGER_PRINT_SIZE: int := 103

  /** The fields of a genomic candidate other than its position; the cache
      copies them and never looks at them. */
  type Payload = int

  datatype Candidate = Candidate(position: int, payload: Payload)

  /** A slot: the stored minimizer pattern (`minimizers`, `strands`, `offsets`),
      the candidate lists for both strands, anchored so that the pattern's
      first minimizer sits at position 0, the reinforcement weight, and the
      fingerprint histogram that gates updates. */
  datatype Slot = Slot(
    minimizers: seq<U64>,
    offsets: seq<int>,
    strands: seq<nat>,
    positive: seq<Candidate>,
    negative: seq<Candidate>,
    weight: int,
    fpCnt: seq<nat>,
    fpSum: int,
    repetitiveSeedLength: U32,
    activated: bool)

  function Sum(s: seq<nat>): nat
  {
    if |s| == 0 then 0 else Sum(s[..|s| - 1]) + s[|s| - 1]
  }

  /** Shape of a slot: parallel pattern vectors, one offset fewer than
      minimizers, strand bits, a full histogram whose total is `fpSum`. */
  ghost predicate SlotWf(s: Slot)
  {
    && |s.strands| == |s.minimizers|
    && |s.offsets| == (if |s.minimizers| == 0 then 0 else |s.minimizers| - 1)
    && (forall i :: 0 <= i < |s.strands| ==> s.strands[i] < 2)
    && |s.fpCnt| == FINGER_PRINT_SIZE
    && s.fpSum == Sum(s.fpCnt)
  }

  /** Moves every candidate by `d`, keeping order and payloads. */
  function Shift(cs: seq<Candidate>, d: int): (r: seq<Candidate>)
    ensures |r| == |cs|
    ensures forall i :: 0 <= i < |r| ==> r[i].position == cs[i].position + d && r[i].payload == cs[i].payload
  {
    seq(|cs|, i requires 0 <= i < |cs| => cs[i].(position := cs[i].position + d))
  }

  lemma ShiftCompose(cs: seq<Candidate>, a: int, b: int)
    ensures Shift(Shift(cs, a), b) == Shift(cs, a + b)
  {
  }

  /** Shifting by `d` and then by `-d` gives back the original list. */
  lemma ShiftInverse(cs: seq<Candidate>, d: int)
    ensures Shift(Shift(cs, d), -d) == cs
  {
    var r := Shift(Shift(cs, d), -d);
    forall i | 0 <= i < |cs|
      ensures r[i] == cs[i]
    {
      assert r[i].position == cs[i].position && r[i].payload == cs[i].payload;
    }
  }

  /** Shifting by two amounts that cancel gives back the original list. */
  lemma ShiftCancels(cs: seq<Candidate>, a: int, b: int)
    requires a + b == 0
    ensures Shift(Shift(cs, a), b) == cs
  {
    ShiftInverse(cs, a);
  }

  /** Incrementing one histogram bucket increments the total by one. */
  lemma {:induction false} SumIncrement(s: seq<nat>, i: int)
    requires 0 <= i < |s|
    ensures Sum(s[i := s[i] + 1]) == Sum(s) + 1
    decreases |s|
  {
    var t := s[i := s[i] + 1];
    var n := |s| - 1;
    assert t[..n] == if i == n then s[..n] else s[..n][i := s[i] + 1];
    if i < n {
      SumIncrement(s[..n], i);
    }
  }

  /** No bucket exceeds the total. */
  lemma {:induction false} BucketAtMostSum(s: seq<nat>, i: int)
    requires 0 <= i < |s|
    ensures s[i] <= Sum(s)
    decreases |s|
  {
    var n := |s| - 1;
    if i < n {
      BucketAtMostSum(s[..n], i);
    }
  }

  lemma {:induction false} SumOfZeros(n: nat)
    ensures Sum(seq(n, _ => 0)) == 0
  {
    if n > 0 {
      assert seq(n, _ => 0)[..n - 1] == seq(n - 1, _ => 0);
      SumOfZeros(n - 1);
    }
  }

  /** The slot as the constructor leaves it: empty pattern and lists, zero
      weight, cleared histogram, not activated. `repetitive_seed_length` is
      left uninitialised by the source; it is only read on a hit, which needs
      a stored pattern, so the value chosen here is never observed. */
  function EmptySlot(): (s: Slot)
    ensures SlotWf(s)
    ensures s.minimizers == [] && s.positive == [] && s.negative == []
    ensures s.weight == 0 && s.fpSum == 0 && !s.activated
    ensures forall f :: 0 <= f < FINGER_PRINT_SIZE ==> s.fpCnt[f] == 0
  {
    SumOfZeros(FINGER_PRINT_SIZE);
    Slot([], [], [], [], [], 0, seq(FINGER_PRINT_SIZE, _ => 0), 0, 0, false)
  }

  /** Count one more update with fingerprint `f`. */
  function CountFingerprint(s: Slot, f: int): (r: Slot)
    requires SlotWf(s) && 0 <= f < FINGER_PRINT_SIZE
    ensures SlotWf(r)
    ensures r.fpSum == s.fpSum + 1 && r.fpCnt[f] == s.fpCnt[f] + 1
    ensures forall g :: 0 <= g < FINGER_PRINT_SIZE && g != f ==> r.fpCnt[g] == s.fpCnt[g]
    ensures r.(fpCnt := s.fpCnt, fpSum := s.fpSum) == s
  {
    SumIncrement(s.fpCnt, f);
    s.(fpCnt := s.fpCnt[f := s.fpCnt[f] + 1], fpSum := s.fpSum + 1)
  }
}
