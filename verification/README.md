# mm_cache: a verified model of chromap's read-pattern cache

chromap keeps a small direct-mapped cache (`mm_cache`, `src/mmcache.hpp`) of
the minimizer patterns of recently mapped reads. A slot stores one pattern
and the candidate genomic positions found for it on both strands. The
positions are anchored so that the pattern's first minimizer sits at 0. A
later read with the same pattern, or with its reverse complement, gets its
candidates from the cache and skips seeding.

The model has six modules, one file each:

- `minimizer.dfy` (`Minimizer`) models minimizers as the cache receives them.
  - Each is a pair of 64-bit words: `hash`, and `encoded = position << 1 | strand`.
  - The C++ `(int)encoded >> 1` is written out exactly: `ToInt32` takes the low 32 bits as two's complement, then `PosOf` does a flooring halving.
  - It also defines the hash, strand and neighbour-distance vectors of a sequence.
- `filter.dfy` (`PresenceFilter`) models `head_mm` as the set of its set bits.
  - A hash's bit is addressed by word `(h >> 6) & 0x3fffff` and bit `h & 63`, which is `h mod 2^28`.
- `entry.dfy` (`CacheEntry`) models the slot `_mm_cache_entry`.
  - It includes the fingerprint histogram and its total.
  - It includes the candidate lists and `Shift`, which moves every candidate's position.
- `matcher.dfy` (`Matcher`) models `IsMinimizersMatchCache`.
  - `Classify` is a reference classification built from two pointwise predicates: `SameOrder`, and `OppositeOrder` (defined through `MirroredAt` and `MirroredOffsetAt`).
  - `MatchCache` is a loop method with the source's four scans, proved to return `Classify(...).Code()`.
- `cache.dfy` (`MmCache`) models the cache state and its operations.
  - The operations are the constructor, `SetKmerLength`, `Query`, `Update` and `DirectUpdateWeight`.
  - Each is a function from the old state to the new state and the outputs.
  - `Valid` is the invariant every operation keeps: every slot is well-formed, and the first and last hash of every stored pattern are in the filter.
- `properties.dfy` (`CacheProperties`) holds the lemmas that relate several operations:
  - the filter never rejects a pattern the matcher would accept;
  - the admission gate, stated both ways;
  - renewal followed by a lookup returns the caller's lists;
  - a lookup of the reverse complement of a stored read returns the swapped lists, remapped through the k-mer length.

Every operation is a pure function, so `Query` cannot change the cache.

Two facts about the code shape the model:

- `head_mm` is allocated without clearing (`src/mmcache.hpp:81`), so `Init`
  takes its initial contents as a parameter, and every property holds
  whatever it contains.
- The fingerprint histogram is never cleared, not even by renewal (`Renew`
  keeps it). So once a slot has counted 100 updates, it admits none again
  (`SaturationIsPermanent`), and its pattern is fixed from then on.

## Model

| member | source | states |
|---|---|---|
| Minimizer.ToInt32 | src/mmcache.hpp:50-51 | the `(int)` conversion gives a 32-bit signed value congruent to the word mod 2^32, and the word itself below 2^31 |
| Minimizer.PosOf | src/mmcache.hpp:129 | `(int)encoded >> 1` lies in [-2^30, 2^30), and for words below 2^31 it is the word halved, rounding down |
| Minimizer.StrandOf | src/mmcache.hpp:45 | `encoded & 1` is a bit of the same parity as the word |
| Minimizer.Offsets | src/mmcache.hpp:234-237 | n-1 distances for n minimizers (none for an empty sequence); distance i is pos[i+1]-pos[i] |
| PresenceFilter.Word | src/mmcache.hpp:110 | the selected word lies inside the 2^22-word array |
| PresenceFilter.Bit | src/mmcache.hpp:111 | the selected bit lies inside a 64-bit word |
| PresenceFilter.MaskedIndexing | src/mmcache.hpp:110-111 | the shifts and masks of the source select the same word and bit as division and remainder |
| PresenceFilter.KeyIsLowBits | src/mmcache.hpp:254-257 | a hash's bit address is the hash mod 2^28, and it determines the word and the bit |
| PresenceFilter.SameBitIffSameKey | src/mmcache.hpp:110-111 | two hashes test the same bit iff they agree mod 2^28 |
| PresenceFilter.Contains | src/mmcache.hpp:110-112 | the `head_mm` test on the first hash is `Key(h) in f`, that is, membership of the hash taken mod 2^28 |
| PresenceFilter.Insert | src/mmcache.hpp:254-255 | setting a bit keeps every set bit, sets the hash's bit, and sets no other bit |
| CacheEntry.Shift | src/mmcache.hpp:128-132 | moving a candidate list keeps its length, order and payloads and moves every position by the same amount |
| CacheEntry.ShiftCompose | src/mmcache.hpp:142-150 | two moves compose into one move by the sum |
| CacheEntry.ShiftInverse | src/mmcache.hpp:244-251 | moving by d and then by -d restores the list, so anchoring at renewal can be undone |
| CacheEntry.ShiftCancels | src/mmcache.hpp:139-150 | moves by amounts that sum to zero restore the list |
| CacheEntry.SumIncrement | src/mmcache.hpp:182-183 | incrementing one histogram counter increments the histogram's total by one |
| CacheEntry.BucketAtMostSum | src/mmcache.hpp:19-20 | no histogram counter exceeds the total |
| CacheEntry.SumOfZeros | src/mmcache.hpp:86-88 | a cleared histogram totals zero |
| CacheEntry.EmptySlot | src/mmcache.hpp:84-90 | a constructed slot is well-formed, with zero weight, a cleared histogram, not activated and no pattern |
| CacheEntry.CountFingerprint | src/mmcache.hpp:182-183 | counting fingerprint f adds one to counter f and to the total; the total stays the histogram's total and nothing else changes |
| Matcher.SameOrderIsVectorEquality | src/mmcache.hpp:43-55 | the pointwise same-order test holds iff the query's hash, strand and offset vectors equal the stored ones |
| Matcher.MirroredAtIsReversedAt | src/mmcache.hpp:59-63 | stored element n-1-j mirrors query element j iff the query's hash and strand at j equal the stored ones reversed, the strand flipped |
| Matcher.MirroredOffsetAtIsReversedAt | src/mmcache.hpp:65-69 | stored offset n-2-j matches the backward distance iff query offset j equals the stored offsets reversed at j |
| Matcher.OppositeOrderGivesReversedHashesAndStrands | src/mmcache.hpp:59-63 | an opposite-order match makes the query's hashes the stored ones reversed and its strands the stored ones reversed and flipped |
| Matcher.OppositeOrderGivesReversedOffsets | src/mmcache.hpp:65-69 | an opposite-order match makes the query's offsets the stored ones reversed |
| Matcher.ReversedVectorsGiveOppositeOrder | src/mmcache.hpp:59-74 | reversed hashes, reversed flipped strands and reversed offsets give an opposite-order match |
| Matcher.OppositeOrderIsReversedVectors | src/mmcache.hpp:59-74 | the opposite-order test holds iff the query's vectors are the stored ones reversed, the strands flipped |
| Matcher.ClassifySeesOnlyPattern | src/mmcache.hpp:36-76 | two slots with the same pattern classify every query alike; weight, lists and histogram are never consulted |
| Matcher.ForwardHashScan | src/mmcache.hpp:43-47 | the first loop runs off the end iff every stored hash and strand equals the query's at the same index |
| Matcher.ForwardOffsetScan | src/mmcache.hpp:48-55 | the second loop runs off the end iff every stored offset equals pos[i+1]-pos[i] |
| Matcher.ForwardTest | src/mmcache.hpp:43-55 | the forward half succeeds iff the query matches in the same order |
| Matcher.ReverseHashScan | src/mmcache.hpp:59-63 | the third loop runs off the end iff every stored hash i equals query hash n-1-i and every stored strand i differs from query strand n-1-i |
| Matcher.ReverseOffsetScan | src/mmcache.hpp:64-74 | the fourth loop runs off the end iff every stored offset i equals pos[n-1-i]-pos[n-2-i] |
| Matcher.ReverseTest | src/mmcache.hpp:59-74 | the backward half succeeds iff the query matches in the opposite order |
| Matcher.MatchCache | src/mmcache.hpp:36-76 | a length mismatch gives 0; 1 iff same order; -1 iff opposite order and not same order (same order wins); otherwise 0 |
| MmCache.Init | src/mmcache.hpp:79-93 | a new cache is valid whatever `head_mm` holds; every slot has zero weight, a cleared histogram, no pattern and is not activated |
| MmCache.SetKmerLength | src/mmcache.hpp:100 | only the k-mer length changes |
| MmCache.XorCommutes | src/mmcache.hpp:177 | the fingerprint's exclusive or is symmetric in the first and last hash |
| MmCache.Bucket | src/mmcache.hpp:113-122 | the bucket index (hash sum wrapped at 2^64, mod the cache size) lies in [0, cache_size) |
| MmCache.Fingerprint | src/mmcache.hpp:173-180 | the fingerprint lies in [0, 103) |
| MmCache.Query | src/mmcache.hpp:103-156 | a miss (-1) iff the query is empty, the filter lacks its first hash or the matcher says 0; a miss leaves the outputs untouched; a hit returns the bucket and the slot's seed length |
| MmCache.Admits | src/mmcache.hpp:184-207 | on the counted slot, the gate opens iff neither early return fires: 10 <= sum <= 100 and 5*cnt >= sum; an admitted fingerprint has been counted at least twice |
| MmCache.Step | src/mmcache.hpp:212-217 | the weight goes up by one on a match in either order, down by one otherwise; the slot is activated and nothing else changes |
| MmCache.Renew | src/mmcache.hpp:218-251 | the renewed slot has weight 1, the query's vectors and the caller's seed length; moving its lists back by pos[0] gives the caller's lists; the histogram is kept |
| MmCache.MarkEndpoints | src/mmcache.hpp:253-257 | the filter gains exactly the bits of the first and last hash, and validity is kept |
| MmCache.Update | src/mmcache.hpp:158-259 | validity is kept; an empty query changes nothing; only the bucket's slot can change; the filter only grows, and only by the bits of the first and last hash |
| MmCache.DirectUpdateWeight | src/mmcache.hpp:261 | only the weight of slot idx changes, by exactly delta |
| CacheProperties.SameOrderIffSamePattern | src/mmcache.hpp:228-237 | a slot renewed with pattern p matches q in the same order iff q has p's hashes, strands and offsets |
| CacheProperties.OppositeOrderIffReversedPattern | src/mmcache.hpp:59-74 | a slot renewed with pattern p matches q in the opposite order iff q is p reversed with flipped strands |
| CacheProperties.FilterNoFalseNegative | src/mmcache.hpp:110-112 | in a valid cache, a query the matcher would accept always has its first hash in the filter |
| CacheProperties.QueryMissIffNoMatch | src/mmcache.hpp:108-123 | a lookup misses iff the query is empty or the matcher rejects the bucket's pattern; the filter never changes an answer |
| CacheProperties.QueryForwardHit | src/mmcache.hpp:124-133 | a same-order hit returns the stored lists moved by -pos[0] (positive) and +pos[0] (negative), and the stored seed length |
| CacheProperties.QueryReverseHit | src/mmcache.hpp:134-152 | an opposite-order hit returns the stored negative list moved by k-1-pos[n-1] as positive and the stored positive list moved back by it as negative |
| CacheProperties.QueryIgnoresReadLength | src/mmcache.hpp:139-150 | the read length cancels: two lookups that differ only in it give the same answer |
| CacheProperties.QueryIgnoresWeight | src/mmcache.hpp:261 | a direct weight change never changes any lookup's answer |
| CacheProperties.UpdateCountsFingerprint | src/mmcache.hpp:179-183 | a non-empty update always counts its fingerprint at its bucket and changes no other counter |
| CacheProperties.UpdateGateClosed | src/mmcache.hpp:184-208 | a gated update leaves the filter and everything but the histogram of its slot as they were |
| CacheProperties.AdmittedIff | src/mmcache.hpp:182-208 | in terms of the slot before the update, the gate opens iff 10 <= sum+1 <= 100 and 5*(cnt+1) >= sum+1 |
| CacheProperties.AdmittedCountsFitShort | src/mmcache.hpp:19 | whenever the gate admits, every 16-bit counter is at most 100, so the counters' wrap-around cannot open the gate |
| CacheProperties.SaturationIsPermanent | src/mmcache.hpp:182-184 | a slot that has counted 100 updates admits none again, and updates never decrease any slot's total |
| CacheProperties.DominantFingerprintAdmitted | src/mmcache.hpp:204-208 | a slot that has counted only one fingerprint admits it from the tenth to the hundredth update |
| CacheProperties.UpdateAdmitted | src/mmcache.hpp:212-251 | past the gate the slot is activated; it is renewed iff the stepped weight is negative; otherwise weight steps by one and pattern, lists, seed length and filter stay; on renewal weight 1, the query's pattern, the caller's lists re-anchored and the two filter bits |
| CacheProperties.RenewalRoundTrip | src/mmcache.hpp:124-133 | after an update renews a slot with q, looking q up returns that slot, exactly the caller's two lists and the caller's seed length |
| CacheProperties.SamePatternIffSelfReversed | src/mmcache.hpp:57-59 | a reversed pattern of q is the same pattern as q iff q is its own reversed pattern |
| CacheProperties.Reflect | src/mmcache.hpp:137-138 | a reflected minimizer keeps its hash, flips its strand and sits at anchor-pos |
| CacheProperties.ReverseComplementIsReversed | src/mmcache.hpp:59-74 | the reverse complement of a read's minimizers (order reversed, strands flipped, positions reflected) is a reversed pattern of them |
| CacheProperties.ReversedPatternSwapsEnds | src/mmcache.hpp:116-120 | a reversed pattern starts with the last hash and ends with the first |
| CacheProperties.SwappedEndsShareKeys | src/mmcache.hpp:173-180 | swapping the first and last hash changes neither the bucket nor the fingerprint |
| CacheProperties.ReversedPatternSharesKeys | src/mmcache.hpp:173-180 | a reversed pattern of q has the bucket and fingerprint of q |
| CacheProperties.RenewedSlotMatchesReversedPattern | src/mmcache.hpp:57-74 | a slot renewed with q matches every reversed pattern of q; in the opposite order iff q is not self-reversed |
| CacheProperties.RenewedSlot | src/mmcache.hpp:218-257 | a renewing update leaves the bucket's slot as the renewal of the stepped slot and adds the two end bits to the filter |
| CacheProperties.ReverseHitAnchored | src/mmcache.hpp:139-150 | an opposite-order hit on lists anchored at p0, by a query whose last minimizer sits at anchor-p0, returns the caller's negative list moved by k-1-anchor and positive list moved by anchor-k+1 |
| CacheProperties.ReversedLookupHitsRenewedSlot | src/mmcache.hpp:122-152 | a reversed pattern of the slot's pattern hits that slot and returns its seed length |
| CacheProperties.ReversedLookupSwapsLists | src/mmcache.hpp:134-152 | for a pattern that is not self-reversed, that hit returns the renewing caller's negative list as positive and positive list as negative, remapped through k and anchor |
| CacheProperties.ReversedPatternHitsRenewedSlot | src/mmcache.hpp:254-257 | after a renewing update with q, a reversed pattern of q passes the filter and hits the renewed slot with the caller's seed length |
| CacheProperties.ReversedPatternSwapsRenewedLists | src/mmcache.hpp:134-152 | after a renewing update with q (not self-reversed), a reversed pattern of q gets the caller's lists swapped and remapped |
| CacheProperties.ReverseComplementRoundTrip | src/mmcache.hpp:137-150 | after a renewing update with q, the reverse complement of q hits the same slot; unless q is self-reversed, moving the returned lists back by k-1-anchor restores the caller's lists swapped |

## Left out

- `PrintStats` and `GetMemoryBytes` are left out. The first only prints; the second depends on C++ object sizes and vector capacities.
- Allocation and release of the slot array and `head_mm` are left out. `head_mm` is never cleared, so `Init` takes its initial contents as an arbitrary parameter.
- `Init` also takes the initial `kmer_length` as a parameter, because the constructor leaves that field unset.
- The constructor's cache size must be positive: `h % cache_size` would divide by zero otherwise.
- `update_limit` is left out: it is set to 10 and never read.
- The commented-out alternative gating rates are left out.
- The `msize == 0` branch inside renewal is left out. The early return for empty queries makes it unreachable.
- Concurrency is left out: the class has no synchronisation.
- `repetitive_seed_length` of a fresh slot is uninitialised in C++. The model sets it to 0. It can never be observed, because a hit needs a stored pattern, which only renewal writes.
- `Candidate` is defined in `index.h`, which is not part of this model. It is modelled as an integer position plus an opaque payload that the cache only copies.
- CacheProperties.QueryForwardHit: treats candidate positions as unbounded integers. The source's unsigned 64-bit position arithmetic wraps instead.
- CacheProperties.QueryReverseHit: also uses unbounded integers. The source computes `shift` from the unsigned 32-bit `read_len` in 32-bit arithmetic. The read length cancels only when `read_len - pos[n-1] + k - 2` fits in a signed 32-bit int.
- CacheProperties.QueryIgnoresReadLength: holds for the unbounded model. In the source it needs the same 32-bit range condition as QueryReverseHit.
- CacheProperties.ReverseComplementRoundTrip: ignores the same two wrap-arounds, on candidate positions and on `shift`.
- MmCache.Update: counts updates in unbounded integers. The source's `finger_print_cnt` is 16-bit and `finger_print_cnt_sum` is a 32-bit `int`. AdmittedCountsFitShort shows the 16-bit wrap cannot admit an update. The 32-bit total would need about 2^31 updates to one slot before it wrapped.
- MmCache.DirectUpdateWeight: adds `delta` without the signed 32-bit overflow of `weight`.
- MmCache.DirectUpdateWeight requires `idx` to be a slot index. The source does not check it, and any other index is undefined behaviour.
- Minimizer.PosOf is not limited by a precondition. The `(int)` conversion of `encoded` is modelled exactly instead: low 32 bits as two's complement, then an arithmetic shift. So positions at or above 2^30 are read back the way the C++ reads them.
- The reverse-complement lemmas do not cover self-reversed patterns. Those are patterns equal to their own reversed pattern. The matcher tries the same-order test first, so such a pattern is found in the same order and its lists come back unswapped. RenewedSlotMatchesReversedPattern states this exactly.
