# contains: a reusable sparse set and a dense bitset, in Dafny

The Go package `contains` has two integer sets. Both are meant to be reset and
filled again without allocating new memory.

- `Set` (contains.go) is a set of `uintptr` keys kept in buckets. Each key is
  scrambled by a linear congruential step (`filter`). Each bucket has a
  one-word filter, the OR of the scrambled keys it holds, and a list of keys.
  Add and Contains look only in buckets whose filter is a bit-superset of the
  scrambled key. Add puts a new key in one of three places:
  - the first covering bucket;
  - the last bucket, whose filter absorbs the key, when the key adds at least
    `minDiff` = 2 bits to that filter;
  - a new bucket.

  Reset empties every list but keeps the storage.
- `Dense` (dense.go) is a bitset over a slice of words. Key `k` is bit
  `k % 64` of word `k / 64`. Reset only shortens the slice. The words between
  its length and its capacity can still hold old bits, so `grow` must zero
  them when it re-exposes them.

The project has three modules:

- `Words` (words.dfy) models 64-bit machine words as naturals below 2^64.
  Go's `&`, `|`, `&^`, `1 << i` and `bits.OnesCount64` are defined bit by
  bit, with the lemmas the sets need.
- `SparseSet` (sparse_set.dfy) has a value model of the buckets and the class
  `Set`:
  - `Buckets` is the live filters and lists.
  - `FirstCover` gives the first covering bucket.
  - `Insert` is Add on the buckets.
  - `WellFormed` is the invariant.
  - `ExactFilters` says each filter is exactly `OrAll` of its list, the OR of
    the scrambled forms of the keys stored beside it.
  - `Members` is the abstract set.

  `Set` keeps `filters` as a sequence and the backing array of `keys` as an
  array, whose length is `cap(keys)`, plus a length `used`, which is
  `len(keys)`. The ghost field `Contents` holds the abstract set. Its methods
  are proved against the value model.
- `DenseBitset` (dense.dfy) has `BitsOf`, the keys a sequence of words holds,
  and the class `Dense`. `Dense` keeps the backing array, whose length is
  `cap(v)`, and a length `len`. Its abstract set is the bits of the first
  `len` words.

The central fact about `Set` is that Add only ever widens the last filter.
Filters before it never change until Reset. So every stored key lives in the
first bucket whose filter covers its scrambled form (`WellFormed`). This has
three consequences:

- Add's first-match search finds a key exactly when the key is present.
- No key is stored twice (`StoredOnce`).
- Contains's scan over every covering bucket answers membership exactly
  (`FoundIffMember`).

The first-match search could store a duplicate only if an earlier filter
could start to cover a key stored later. The code never lets that happen.

Each filter is also exactly the OR of its keys' scrambled forms
(`ExactFilters`, kept by `InsertKeepsFiltersExact`): it has a bit only when
one of its keys does (`OrAllBit`).

## Model

| member | source | states |
|---|---|---|
| `SparseSet.Filter` | contains.go:89-93 | The 64-bit LCG step with wrap-around; running it backwards (`Unfilter`) recovers the key, so filter loses no information. |
| `SparseSet.FilterUnfilter` | contains.go:89-93 | Every word is the scrambled form of some key: filter is onto. |
| `SparseSet.FilterInjective` | contains.go:89-93 | Distinct keys have distinct scrambled forms. |
| `SparseSet.Covers` | contains.go:31 | The test `f&r == r`; a covered word is never larger than the filter that covers it. |
| `SparseSet.JoinsLast` | contains.go:47 | The test `OnesCount64(r &^ last) >= minDiff`; when it holds, r has bits outside the last filter. |
| `SparseSet.Widen` | contains.go:48 | The filter after OR-ing in r covers both the old filter and r. |
| `SparseSet.CoversWiden` | contains.go:48 | Widening a filter keeps every scrambled key it covered. |
| `SparseSet.WideningAddsBits` | contains.go:45-48 | When a key joins the last bucket, that bucket's filter strictly grows. |
| `SparseSet.FirstCover` | contains.go:30-31 | The index of the first filter with `f&r == r`, or -1 when none covers r. |
| `SparseSet.Insert` | contains.go:28-61 | Filters and lists stay parallel. At most one bucket is added. Every filter but the last is unchanged. Every old list is a prefix of its new version. |
| `SparseSet.InsertWidensOnlyLast` | contains.go:44-49 | The last filter only gains bits: it covers whatever it covered before. |
| `SparseSet.InsertKeepsWellFormed` | contains.go:40-58 | All three insertion paths keep the invariant: each stored key is in the first bucket that covers it, and no list repeats a key. |
| `SparseSet.OrAllCovers` | contains.go:47-51 | The filter built for a list of keys, the first key's scrambled form widened by each later one's, covers the scrambled form of every key in the list. |
| `SparseSet.OrAllBit` | contains.go:47-51 | That filter has a bit exactly when some key of the list has it in its scrambled form, so a filter holds no bit its keys did not put there. |
| `SparseSet.InsertKeepsFiltersExact` | contains.go:30-58 | All three insertion paths keep each filter equal to the OR of its bucket's scrambled keys: a new bucket starts at r, the widen path ORs r in as the key joins, and a key joining a covering bucket adds no bit. |
| `SparseSet.InsertReportsPresence` | contains.go:26-61 | Add reports false exactly when the key is already a member, and then nothing changes. Otherwise the members grow by exactly the key. |
| `SparseSet.StoredIsCovered` | contains.go:30-40 | A stored key's own bucket filter covers its scrambled form. |
| `SparseSet.StoredOnce` | contains.go:30-49 | No key is stored twice, neither in two buckets nor twice in one list. |
| `SparseSet.FoundIffMember` | contains.go:64-76 | Some covering bucket holds the key exactly when the key is a member. |
| `SparseSet.EmptyIsWellFormed` | contains.go:20-24 | The zero value, with no buckets, keeps the invariant and holds no key. |
| `SparseSet.GrownCapacity` | contains.go:56 | An append to a full keys slice yields a larger capacity. |
| `SparseSet.Set.constructor` | contains.go:20-24 | The zero value is valid and empty. |
| `SparseSet.Set.Add` | contains.go:26-61 | Add is Insert on the live buckets. It returns true exactly when the key was absent, and the abstract set gains the key. Afterwards `len(keys) == len(filters)`. A false return changes nothing. The backing array of keys is replaced, by a fresh one of `GrownCapacity` slots, exactly when a new bucket is opened while `len(filters) == cap(keys)`; on every other path it is kept, for example on the first-cover and widen paths, and on the first Add after a Reset of a set that held a key. |
| `SparseSet.Set.WidenLast` | contains.go:47-49 | When no filter covers r and the key adds at least two bits, the last filter absorbs r and the last list gains the key in place. |
| `SparseSet.Set.OpenBucket` | contains.go:50-59 | A new bucket with filter r and list [key]. It re-slices when `len(filters) < cap(keys)`, over a slot left by Reset or by an earlier append's growth; otherwise keys is full and the append reallocates to `GrownCapacity` slots. |
| `SparseSet.Set.Reserve` | contains.go:52-57 | After it, a slot past the live buckets exists and is empty. The array is kept when `len(filters) < cap(keys)`, and otherwise grows. |
| `SparseSet.Set.Reallocate` | contains.go:56 | The grown array copies every list and fills the rest with empty lists. |
| `SparseSet.Set.Contains` | contains.go:63-76 | True exactly when some covering bucket holds the key, which is exactly when the key was added since the last Reset. Nothing changes. |
| `SparseSet.Set.Reset` | contains.go:78-87 | No filters and no keys remain. `len(keys)` and the backing array are kept, and every list is emptied. |
| `SparseSet.ExampleSet` | contains_test.go:238-252 | The documented example prints false, true, true, false, true, and the returned flag says the Add after Reset kept the backing array. |
| `SparseSet.ReaddAfterReset` | contains_test.go:132-148 | After adding distinct keys and resetting, every re-add returns true. |
| `Words.WithBit` | dense.go:19 | The word `a` OR `1 << i` has exactly the bits of a plus bit i. |
| `Words.AndPow2` | dense.go:28 | `a & (1 << i) != 0` exactly when bit i of a is set. |
| `DenseBitset.BitsOf` | dense.go:5-9 | The keys a slice of words holds: k is held when bit k%64 of word k/64 is set, so every held key is below 64 times the word count. |
| `DenseBitset.InBitsOf` | dense.go:23-29 | Key k is in the words exactly when word k/64 exists and has bit k%64 set. |
| `DenseBitset.SetBitAdds` | dense.go:19 | Setting bit k%64 of word k/64 adds exactly k. |
| `DenseBitset.ZerosAddNothing` | dense.go:50-62 | Zero words appended at the end hold no key. |
| `DenseBitset.CeilWords` | dense.go:41-43 | Grow's word count `(key+63)/64` is the ceiling of key/64: the fewest words whose bits number at least key. |
| `DenseBitset.CeilWordsHoldsKey` | dense.go:39-43 | Grow's word count includes key's own word exactly when key is not a multiple of 64. |
| `DenseBitset.HoldWords` | dense.go:39-40 | `key/64 + 1` words are the fewest that include key's bit. |
| `DenseBitset.Dense.constructor` | dense.go:5-9 | The zero value is valid and empty. |
| `DenseBitset.Dense.Add` | dense.go:13-20 | The set gains exactly the key, and its word is within the length. The length grows to `key/64 + 1` only when it was shorter. It reallocates exactly when grow's first case applies. Re-adding a present key changes nothing. |
| `DenseBitset.Dense.Contains` | dense.go:22-29 | True exactly when the key is in the set. |
| `DenseBitset.Dense.Reset` | dense.go:31-37 | The set is empty, and the backing array is kept. |
| `DenseBitset.Dense.Grow` | dense.go:39-43 | The set is unchanged, and the length becomes at least `(key+63)/64`. It reallocates exactly when that count reaches the capacity. |
| `DenseBitset.Dense.GrowToHold` | dense.go:39-43 | Corrected Grow: the set is unchanged and key's word is within the length. The backing is kept whenever the capacity suffices. |
| `DenseBitset.Dense.GrowWords` | dense.go:45-66 | The length becomes `max(len, w)`. The new words are zero, and the old words and the set are unchanged. It reallocates exactly when `w >= cap`. |
| `DenseBitset.Dense.GrowWordsReusing` | dense.go:46-52 | Corrected grow: the same result, but it reallocates only when `w > cap`. |
| `DenseBitset.Dense.Reallocate` | dense.go:48-52 | A fresh array of exactly w words holds the live words followed by zeros. The set is unchanged. |
| `DenseBitset.ExampleDense` | dense_test.go:107-118 | The documented example prints false, true, false. |
| `DenseBitset.NoStaleKeysAfterReset` | dense_test.go:98-104 | For any keys and any bound, after adding the keys, Reset and Grow(bound), none of the keys is found. |
| `DenseBitset.Dense.Reexpose` | dense.go:53-62 | Re-slicing to w zeroes every re-exposed word, so bits from before a Reset do not come back. The set is unchanged. |

## Left out

- `Keys()` is not modelled: the tests call it, but it is defined outside contains.go and dense.go.
- The 32-bit branch of `filter` and the platform test are left out. Words are fixed at 64 bits, so `filter` uses the MMIX constants and `wordSize` is 64.
- `DenseBitset.Dense.Add` takes a `nat` key. For negative keys, Go's truncating `/` and `%` and the oversized shift give this: a key from -63 to -1 sets no bit, though Add may still grow the slice to one word; a key of -64 or less panics on a negative index. Neither is modelled.
- `DenseBitset.Dense.Contains` takes a `nat` key, for the same reason.
- `DenseBitset.Dense.Grow` takes a `nat` key, for the same reason. Overflow of `key + wordSize - 1` near the largest `int` is not modelled.
- `SparseSet.GrownCapacity` doubles the capacity. Go's runtime decides how much a full `append` grows a slice, and that is not part of the package.
- The capacity of each key list, and `defCap` as its initial value, are not modelled. Only the outer `keys` slice has a capacity here.
- Allocation counts, speed and the benchmarks are not modelled. The model does say, per method, when the backing array is kept and when a fresh one is allocated.
- Nil and empty slices are not distinguished. The nil checks in both Reset methods only skip work that would do nothing.
- Concurrency is not modelled: neither type is safe for concurrent use, and nothing in the package synchronises.

## Findings

| source | as written | input that shows it | evidently intended | confidence | as-written member | corrected member |
|---|---|---|---|---|---|---|
| dense.go:39-43 | `Grow(key)` reserves `(key+63)/64` words. That misses key's own word `key/64` whenever key is a multiple of 64. | A new Dense, then `Grow(64)`: one word is reserved, but key 64 lives in word 1, so `Add(64)` reallocates. | Reserve `key/64 + 1` words, so the key fits without reallocating, as the doc comment says. | high; not executed | `DenseBitset.Dense.Grow`, shown by `DenseBitset.CeilWordsHoldsKey` and `DenseBitset.GrowThenAddReallocates` | `DenseBitset.Dense.GrowToHold`, used by `DenseBitset.GrowToHoldThenAddKeepsBacking` |
| dense.go:48-52 | grow reallocates when `w >= cap(s.v)`, including `w == cap`, where the backing array already holds w words. | `Add(0)`, `Reset()`, `Add(0)`: grow(1) meets capacity 1 and allocates a new array. Reset's doc comment promises reuse. | Reallocate only when `w > cap(s.v)`, the case the comment "won't hold" describes. | medium; not executed | `DenseBitset.Dense.GrowWords`, shown by `DenseBitset.ResetThenAddReallocates` | `DenseBitset.Dense.GrowWordsReusing`, used by `DenseBitset.Dense.GrowToHold` and `DenseBitset.ResetThenGrowReuses` |
