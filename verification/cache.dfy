/** The cache (`mm_cache`): a direct-mapped array of slots plus the presence
filter, with `Query`, `Update` and `DirectUpdateWeight` as functions from the
old state to the new state and the outputs. */
module MmCache {
  import opened Minimizer
  import opened PresenceFilter
  import opened CacheEntry
  import opened Matcher

  /** `saturate_count`: above this many counted updates a slot ignores updates. */
  const SATURATE_COUNT: int := 100
  /** A slot needs this many counted updates before it admits any. */
  const ADMIT_MIN: int := 10
  /** An admitted fingerprint must hold at least one fifth of the counted updates. */
  const DOMINANCE: int := 5

  /** The cache state. `kmerLength` is the value set by `SetKmerLength`. */
  datatype Cache = Cache(slots: seq<Slot>, filter: Filter, kmerLength: int)

  /** The answer of `Query`: the returned index (-1 on a miss) and the final
      contents of the caller's three output parameters. */
  datatype QueryOut = QueryOut(index: int, pos: seq<Candidate>, neg: seq<Candidate>, repetitiveSeedLength: U32)

  /** Every stored pattern has its first and last hash in the filter. */
  ghost predicate EndpointsFiltered(s: Slot, f: Filter)
  {
    |s.minimizers| > 0 ==>
      Key(s.minimizers[0]) in f && Key(s.minimizers[|s.minimizers| - 1]) in f
  }

  ghost predicate Valid(c: Cache)
  {
    && |c.slots| > 0
    && InRange(c.filter)
    && (forall i :: 0 <= i < |c.slots| ==> SlotWf(c.slots[i]))
    && (forall i :: 0 <= i < |c.slots| ==> EndpointsFiltered(c.slots[i], c.filter))
  }

  /** The constructor. `garbage` stands for the contents of `head_mm`, which
      the source allocates without clearing, and `kmerGarbage` for the
      `kmer_length` field before `SetKmerLength` is called. */
  function Init(size: int, garbage: Filter, kmerGarbage: int): (c: Cache)
    requires size > 0 && InRange(garbage)
    ensures Valid(c) && |c.slots| == size && c.filter == garbage
    ensures forall i :: 0 <= i < size ==>
      && c.slots[i].weight == 0 && c.slots[i].fpSum == 0 && !c.slots[i].activated
      && c.slots[i].minimizers == [] && c.slots[i].positive == [] && c.slots[i].negative == []
    ensures forall i, f :: 0 <= i < size && 0 <= f < FINGER_PRINT_SIZE ==> c.slots[i].fpCnt[f] == 0
  {
    Cache(seq(size, _ => EmptySlot()), garbage, kmerGarbage)
  }

  function SetKmerLength(c: Cache, k: int): (c': Cache)
    ensures c'.kmerLength == k && c'.slots == c.slots && c'.filter == c.filter
  {
    c.(kmerLength := k)
  }

  /** The bucket hash: the first hash for one minimizer, otherwise the sum of
      the first and last hashes, wrapping at 2^64. */
  function BucketHash(q: seq<Minimizer>): U64
    requires |q| > 0
  {
    if |q| == 1 then q[0].hash else (q[0].hash + q[|q| - 1].hash) % TWO_64
  }

  function Xor(a: U64, b: U64): U64
  {
    ((a as bv64) ^ (b as bv64)) as int
  }

  lemma XorCommutes(a: U64, b: U64)
    ensures Xor(a, b) == Xor(b, a)
  {
    var x, y := a as bv64, b as bv64;
    assert x ^ y == y ^ x;
  }

  /** The fingerprint hash: the first hash for one minimizer, otherwise the
      exclusive or of the first and last hashes. */
  function FingerprintHash(q: seq<Minimizer>): U64
    requires |q| > 0
  {
    if |q| == 1 then q[0].hash else Xor(q[0].hash, q[|q| - 1].hash)
  }

  function Bucket(c: Cache, q: seq<Minimizer>): (h: int)
    requires |c.slots| > 0 && |q| > 0
    ensures 0 <= h < |c.slots|
  {
    BucketHash(q) % |c.slots|
  }

  function Fingerprint(q: seq<Minimizer>): (f: int)
    requires |q| > 0
    ensures 0 <= f < FINGER_PRINT_SIZE
  {
    FingerprintHash(q) % FINGER_PRINT_SIZE
  }

  function Query(c: Cache, q: seq<Minimizer>, pos: seq<Candidate>, neg: seq<Candidate>,
                 rsl: U32, readLen: int): (r: QueryOut)
    requires Valid(c)
    ensures r.index == -1 <==>
      |q| == 0 || !Contains(c.filter, q[0].hash) || Classify(q, c.slots[Bucket(c, q)]) == NoMatch
    ensures r.index == -1 ==> r.pos == pos && r.neg == neg && r.repetitiveSeedLength == rsl
    ensures r.index != -1 ==>
      && |q| > 0 && r.index == Bucket(c, q)
      && r.repetitiveSeedLength == c.slots[r.index].repetitiveSeedLength
  {
    if |q| == 0 then QueryOut(-1, pos, neg, rsl)
    else if !Contains(c.filter, q[0].hash) then QueryOut(-1, pos, neg, rsl)
    else
      var hidx := Bucket(c, q);
      var s := c.slots[hidx];
      match Classify(q, s)
      case Forward =>
        var shift := Pos(q[0]);
        QueryOut(hidx, Shift(s.positive, -shift), Shift(s.negative, shift), s.repetitiveSeedLength)
      case Reverse =>
        var shift := readLen - Pos(q[|q| - 1]) - 1 + c.kmerLength - 1;
        QueryOut(hidx, Shift(s.negative, shift - readLen + 1), Shift(s.positive, -shift + readLen - 1),
                 s.repetitiveSeedLength)
      case NoMatch =>
        QueryOut(-1, pos, neg, rsl)
  }

  /** The admission gate, read after the histogram has been incremented. An
      admitted fingerprint has been counted at least twice. */
  predicate Admits(s: Slot, f: int)
    requires 0 <= f < |s.fpCnt|
    ensures Admits(s, f) <==>
      !(s.fpSum > SATURATE_COUNT) && !(s.fpSum < ADMIT_MIN || s.fpCnt[f] * DOMINANCE < s.fpSum)
    ensures Admits(s, f) ==> s.fpCnt[f] >= 2
  {
    && s.fpSum <= SATURATE_COUNT
    && s.fpSum >= ADMIT_MIN
    && s.fpCnt[f] * DOMINANCE >= s.fpSum
  }

  /** One weight step: up on any match, down otherwise; the slot is marked
      activated either way. */
  function Step(s: Slot, q: seq<Minimizer>): (r: Slot)
    requires SlotWf(s)
    ensures SlotWf(r)
    ensures r.weight == if Classify(q, s) == NoMatch then s.weight - 1 else s.weight + 1
    ensures r.activated
    ensures r.(weight := s.weight, activated := s.activated) == s
  {
    s.(weight := if Classify(q, s) != NoMatch then s.weight + 1 else s.weight - 1,
       activated := true)
  }

  /** Replace the slot's pattern with `q` and its candidates with the caller's,
      anchored so that the first minimizer sits at position 0. */
  function Renew(s: Slot, q: seq<Minimizer>, pos: seq<Candidate>, neg: seq<Candidate>, rsl: U32): (r: Slot)
    requires SlotWf(s) && |q| > 0
    ensures SlotWf(r)
    ensures r.weight == 1 && r.repetitiveSeedLength == rsl
    ensures r.minimizers == Hashes(q) && r.strands == Strands(q) && r.offsets == Offsets(q)
    ensures r.positive == Shift(pos, Pos(q[0])) && r.negative == Shift(neg, -Pos(q[0]))
    ensures Shift(r.positive, -Pos(q[0])) == pos && Shift(r.negative, Pos(q[0])) == neg
    ensures r.fpCnt == s.fpCnt && r.fpSum == s.fpSum && r.activated == s.activated
  {
    var shift := Pos(q[0]);
    ShiftInverse(pos, shift);
    ShiftInverse(neg, -shift);
    s.(weight := 1, minimizers := Hashes(q), strands := Strands(q), offsets := Offsets(q),
       positive := Shift(pos, shift), negative := Shift(neg, -shift), repetitiveSeedLength := rsl)
  }

  /** Does an update with `q` get past the admission gate? */
  ghost predicate Admitted(c: Cache, q: seq<Minimizer>)
    requires Valid(c) && |q| > 0
  {
    Admits(CountFingerprint(c.slots[Bucket(c, q)], Fingerprint(q)), Fingerprint(q))
  }

  /** Does an update with `q` renew its slot? */
  ghost predicate Renews(c: Cache, q: seq<Minimizer>)
    requires Valid(c) && |q| > 0
  {
    var counted := CountFingerprint(c.slots[Bucket(c, q)], Fingerprint(q));
    Admits(counted, Fingerprint(q)) && Step(counted, q).weight < 0
  }

  /** Overwrite slot `h` with a well-formed slot whose pattern endpoints are
      in the filter; nothing else changes. */
  function Store(c: Cache, h: int, s: Slot): (c': Cache)
    requires Valid(c) && 0 <= h < |c.slots| && SlotWf(s) && EndpointsFiltered(s, c.filter)
    ensures Valid(c')
    ensures c'.filter == c.filter && c'.kmerLength == c.kmerLength && |c'.slots| == |c.slots|
    ensures c'.slots[h] == s
    ensures forall j :: 0 <= j < |c.slots| && j != h ==> c'.slots[j] == c.slots[j]
  {
    c.(slots := c.slots[h := s])
  }

  /** Set the filter bits of the first and last hashes of `q`. */
  function MarkEndpoints(c: Cache, q: seq<Minimizer>): (c': Cache)
    requires Valid(c) && |q| > 0
    ensures Valid(c')
    ensures c'.slots == c.slots && c'.kmerLength == c.kmerLength
    ensures c'.filter == c.filter + {Key(q[0].hash), Key(q[|q| - 1].hash)}
  {
    KeyIsLowBits(q[0].hash);
    KeyIsLowBits(q[|q| - 1].hash);
    var c' := c.(filter := Insert(Insert(c.filter, q[0].hash), q[|q| - 1].hash));
    assert forall i :: 0 <= i < |c.slots| ==> EndpointsFiltered(c.slots[i], c.filter);
    c'
  }

  function Update(c: Cache, q: seq<Minimizer>, pos: seq<Candidate>, neg: seq<Candidate>, rsl: U32): (c': Cache)
    requires Valid(c)
    ensures Valid(c')
    ensures |c'.slots| == |c.slots| && c'.kmerLength == c.kmerLength
    ensures c.filter <= c'.filter
    ensures |q| == 0 ==> c' == c
    ensures |q| > 0 ==> forall j :: 0 <= j < |c.slots| && j != Bucket(c, q) ==> c'.slots[j] == c.slots[j]
    ensures |q| > 0 ==> forall k :: k in c'.filter ==> k in c.filter || k == Key(q[0].hash) || k == Key(q[|q| - 1].hash)
  {
    if |q| == 0 then c
    else
      var hidx := Bucket(c, q);
      var f := Fingerprint(q);
      var counted := CountFingerprint(c.slots[hidx], f);
      assert EndpointsFiltered(c.slots[hidx], c.filter);
      if !Admits(counted, f) then
        Store(c, hidx, counted)
      else
        var stepped := Step(counted, q);
        if stepped.weight >= 0 then
          Store(c, hidx, stepped)
        else
          var marked := MarkEndpoints(c, q);
          Store(marked, hidx, Renew(stepped, q, pos, neg, rsl))
  }

  /** Add `delta` to the weight of slot `idx`, bypassing the gate. */
  function DirectUpdateWeight(c: Cache, idx: int, delta: int): (c': Cache)
    requires Valid(c) && 0 <= idx < |c.slots|
    ensures Valid(c')
    ensures c'.filter == c.filter && c'.kmerLength == c.kmerLength && |c'.slots| == |c.slots|
    ensures forall j :: 0 <= j < |c.slots| && j != idx ==> c'.slots[j] == c.slots[j]
    ensures c'.slots[idx].weight == c.slots[idx].weight + delta
    ensures c'.slots[idx].(weight := c.slots[idx].weight) == c.slots[idx]
  {
    c.(slots := c.slots[idx := c.slots[idx].(weight := c.slots[idx].weight + delta)])
  }
}
