# approx: Morris counters, a Count-Min sketch and a top-k tracker, in Dafny

This project models the core of the Go package `approx` and proves properties of
that model. The package provides three layers.

- **Morris counters** (`count.go`): `Count8` and `Count16` are probabilistic counters.
  Each stores a small exponent that steps up by at most one per increment and
  saturates at its maximum. `Count16x4` packs four 16-bit counters into one 64-bit
  word. Module `Morris`, file `count.dfy`.
- **Count-Min sketch** (`cms.go`): a `depth x width` matrix of 16-bit counters.
  Each row derives its own counter index from a single 64-bit hash by double
  hashing (`lo + i*hi`). An update steps the row counters with one shared random
  roll. A query takes the minimum over the rows. Module `Sketch`, file `cms.dfy`.
- **Top-k** (`topk_heap.go`, `topk.go`): a bounded min-heap of `(hash, value, count)`
  entries ordered by count, plus the bookkeeping of `TopK.insert`. An insert either
  turns the count away, refreshes an entry already present, or evicts the minimum
  and pushes the new entry. Modules `Heap` (file `heap.dfy`) and `TopK` (file `topk.dfy`).

Modelling choices:

- The estimate tables `n8`/`n16` are abstract constants, and so are the delta tables
  `d8`/`d16`. The source computes them from floating-point formulas. The model only
  assumes what the code relies on: entry 0 is 0, entry 1 is 1, entries never
  decrease, and the last entry is `MaxCount8`/`MaxCount16`.
- `rand.Float32()` and `roll32()` become a `Roll` input in [0, 1).
- `Count8`, `Count16`, `Count16x4` and `CountMin` are classes whose fields the
  methods update in place.
- The matrix of `CountMin` is an `array2<bv64>` of packed words. A row of the source
  is a slice of `Count16x4` values; here a group is the word itself, read and
  written with the word functions of `Morris`.
- The min-heap's slice is a `seq` field. `up` and `down` swap elements pairwise as
  the source does.
- Go's unsigned 64-bit wrap-around, the conversion `int(hx)`, the truncating `%` and
  the `uint32(...)` conversions are written out explicitly (`Mix`, `ToInt64`,
  `GoRem`, `Truncate32`, `% Pow32`).
- Module `GoInt` (file `goint.dfy`) holds the Go integer types `u32` and `u64` and
  the powers of two the other modules share.

## Model

| member | source | states |
|---|---|---|
| Morris.N8Monotone | count.go:25-32 | table entries never decrease and never exceed the saturation estimate `MaxCount8` |
| Morris.Next8 | count.go:54-63 | the stored value never decreases and rises by at most one; at 255 it stays put; it changes exactly when the value is below 255 and the roll beats the delta entry |
| Morris.Returned8IsNewEstimate | count.go:54-65 | `Increment` returns the table estimate of the value it leaves behind, between the old estimate and `MaxCount8` |
| Morris.Count8.Estimate | count.go:49-51 | the estimate is at most `MaxCount8`; value 0 reads 0 and value 1 reads 1 |
| Morris.Count8.Increment | count.go:54-65 | the new value follows `Next8`; at the top it is unchanged and `MaxCount8` is returned; the result equals `Estimate()` afterwards |
| Morris.N16Monotone | count.go:75-82 | the same for `n16` and `MaxCount16` |
| Morris.Next16 | count.go:104-113 | the 16-bit rule: never decreases, at most +1, fixed at 65535, changes exactly when the roll beats the delta entry below the top |
| Morris.Returned16IsNewEstimate | count.go:104-115 | `Increment` returns the estimate of the new value, between the old estimate and `MaxCount16` |
| Morris.Count16.Estimate | count.go:99-101 | the estimate is at most `MaxCount16`; 0 reads 0, 1 reads 1 |
| Morris.Count16.Increment | count.go:104-115 | the new value follows `Next16`; saturated counters are unchanged and return `MaxCount16`; the result equals `Estimate()` afterwards |
| Morris.PackUnpack | count.go:126-133 | packing the four extracted fields reproduces the word |
| Morris.UnpackPack | count.go:126-133 | extracting the fields of a packed word gives back the four fields |
| Morris.SlotIsUnpacked | count.go:158 | the variable-shift extraction `loaded >> uint(i*16)` (as a 16-bit counter) is bits 16i..16i+15, the field `estimate16x4` decodes |
| Morris.ReplaceIsolated | count.go:162 | the repacking writes field i and leaves the other three fields bit-for-bit unchanged |
| Morris.ReplaceFacts | count.go:162 | after repacking, field i is the new value and the others are unchanged; the word is unchanged exactly when the new value equals the old field |
| Morris.ReplaceOwnSlot | count.go:158-162 | writing field i back with its own extracted value reproduces the word |
| Morris.UnpackInjective | count.go:126-133 | two words with the same four fields are equal |
| Morris.Estimate16x4 | count.go:126-133 | four estimates, the i-th being the table estimate of bits 16i..16i+15 |
| Morris.WordEstimateAt | count.go:141-147 | the estimate of field i, at most `MaxCount16`, for i in 0..3; 0 for any other i |
| Morris.IncrementWordIsolated | count.go:155-166 | about `IncrementWord`, the word after one load/increment/pack round: field i follows the `Count16` rule, the other three fields are unchanged, and the word changes exactly when the counter advances |
| Morris.Count16x4.Estimate | count.go:136-138 | four estimates decoded from the current word |
| Morris.Count16x4.EstimateAt | count.go:141-147 | for i in 0..3, the estimate of field i; 0 otherwise |
| Morris.Count16x4.IncrementAt | count.go:150-169 | for i in 0..3, the word takes one increment round at field i and the result is `Count16.Increment`'s return for that field, equal to the new field's estimate; for other i, 0 and an unchanged word |
| Morris.Count16x4.AdvanceAt | count.go:155-168 | the roll-taking `incrementAt` used by the sketch: the same word update, returning whether the counter advanced; other i change nothing and return false |
| Morris.Count16x4.Reset | count.go:172-174 | the word becomes 0, and the four estimates of the previous word are returned |
| Sketch.ValidateEstimates | cms.go:35-40 | success exactly when epsilon and confidence both lie in (0, 1); the epsilon error takes precedence |
| Sketch.ValidateSize | cms.go:50-59 | fails exactly when depth is odd, depth > 128, width % 4 != 0 or width > 2^31-1, each error reported exactly when the earlier checks pass |
| Sketch.NewCountMinWithSize | cms.go:49-71 | a failure carrying the validation error exactly when validation fails; otherwise a fresh sketch of the given depth and width with `depth` rows of `width/4` zero groups |
| Sketch.NewCountMin | cms.go:27-29 | always succeeds, with 4 rows of 256 zero groups (width 1024) |
| Sketch.GoRem | cms.go:96 | Go's truncating remainder: in [0, b) for a non-negative dividend and in (-b, 0] for a negative one |
| Sketch.MixNoWrap | cms.go:85-92 | for each row below 128, `lo + i*hi` is below 2^40, so the unsigned 64-bit sum does not wrap |
| Sketch.IndexInRange | cms.go:92-96 | the row index `int(hx) % w` is the plain residue of `lo + i*hi` modulo width, so it lies in [0, width) |
| Sketch.Group | cms.go:97 | `idx/stripe` is below `width/4` when width is a multiple of 4 |
| Sketch.SlotOf | cms.go:98 | `idx%stripe` is in 0..3, and group*4 + slot is the index |
| Sketch.Truncate32 | cms.go:127 | the `uint32` conversion stays below 2^32 and keeps any value already below it |
| Sketch.StepCellIsolated | cms.go:92-100 | one row's step changes only the hash's group in that row; there the hash's slot follows the `Count16` rule and the other three slots keep their bits; the word changes exactly when that counter advances |
| Sketch.CountMin.IncrementRow | cms.go:92-100 | row i takes its step, every other row is unchanged, and the result says whether row i's counter advanced |
| Sketch.CountMin.UpdateHash | cms.go:84-104 | every row takes exactly its own step with the one shared roll and nothing else changes; the result is true exactly when some row's counter advanced |
| Sketch.CountMin.RowCount | cms.go:124-127 | the loop body of `CountHash` for row i reads the estimate row i's index points at, at most `MaxCount16`, so the `uint32` conversion keeps it |
| Sketch.CountMin.CountHash | cms.go:117-130 | the result is the minimum over all rows of the estimate the hash points at, so the early exit at 0 does not change it; 2^32-1 for a sketch without rows; the sketch is not modified |
| Sketch.CountMin.Reset | cms.go:133-139 | every group of every row is 0 afterwards |
| Sketch.CountMin.ZeroedRowsEstimateZero | cms.go:117-139 | after a reset every row estimate is 0, so `CountHash` returns 0 once depth >= 1 |
| Heap.Swapped | topk_heap.go:14 | a swap exchanges two positions, keeps the rest and the multiset of elements |
| Heap.RootIsMinimal | topk_heap.go:23-26 | the root of a heap has a count no greater than any element's |
| Heap.DistinctOccursOnce | topk.go:107-114 | in a heap with distinct hashes no entry occurs twice |
| Heap.SubMultisetKeepsDistinct | topk.go:107-124 | a permutation, or a sub-multiset, of distinct-hash entries still has distinct hashes |
| Heap.MinHeap.Reset | topk_heap.go:7-9 | the heap is empty |
| Heap.MinHeap.Push | topk_heap.go:17-20 | heap order is preserved, the length grows by one and exactly x is added |
| Heap.MinHeap.Pop | topk_heap.go:23-32 | on a non-empty heap, returns the old root, which has minimal count, and removes exactly it; the length drops by one and heap order is kept |
| Heap.MinHeap.Update | topk_heap.go:35-40 | the elements are the old ones with entry i's count replaced, in some order, and heap order is restored |
| Heap.MinHeap.Up | topk_heap.go:42-52 | from a heap broken only at j, restores heap order by swaps alone (a permutation), stopping at the root |
| Heap.MinHeap.Down | topk_heap.go:54-73 | sifting within the first n only swaps (a permutation) and leaves positions from n on untouched; it restores every edge except the one into `at`; the result is true exactly when `at` has a child before n and its count is not below that of its smaller child, in which case that child now sits at `at`; a false result means nothing changed |
| Heap.SmallerChild | topk_heap.go:57-64 | `down`'s choice of child: a child of i before n whose count is no greater than that of any child of i |
| TopK.PositiveCounts | topk.go:134-138 | `Positive`, the filter of `Values`, keeps every occurrence of each positive-count entry and drops the zero-count ones |
| TopK.InsertSorted | topk.go:142 | inserting into a sequence sorted by count stays sorted and adds exactly the element |
| TopK.SortByCount | topk.go:142 | the sort yields a permutation of its input, ascending by count |
| TopK.TopK.constructor | topk.go:61-74 | an empty heap of bound k beside a zeroed 4 x 2048 sketch, with min and size 0 |
| TopK.TopK.IsTopAcceptsAll | topk.go:90-92 | `IsTop` is `isTop`: `min <= count` or `size < maxSize`; since size is recorded before a push into a heap with room, it stays below k, so `isTop` holds for every count once k >= 1 |
| TopK.TopK.Insert | topk.go:97-126 | a full heap turns away a count below its root's (`Rejected`, the guard of topk.go:102 as corrected under Findings) and changes nothing, and a tracker with k = 0 turns every count away; a hash already present has only its count replaced, min and size untouched; a new hash evicts the root of a full heap, or records the old length as size, then is pushed and min becomes the new root's count; heap order, distinct hashes and the bound k are kept throughout |
| TopK.GuardAsWritten | topk.go:102 | the guard as written: it fails (reads past the heap) exactly when the heap is full and empty, that is for k = 0; otherwise it is `len == maxSize && count < root count` |
| TopK.ZeroCapacityGuardFails | topk.go:102 | the empty heap of a k = 0 tracker makes the written guard fail |
| TopK.RejectedRefinesGuard | topk.go:102 | the corrected guard `Rejected` agrees with the written one wherever that one does not fail, and rejects every count when k = 0 |
| TopK.TopK.Refresh | topk.go:107-113 | the entry with the hash has its count replaced, the rest is kept up to order, and the invariant holds |
| TopK.TopK.Admit | topk.go:116-125 | the state after a new hash is admitted: the evicted root or the recorded length, the pushed entry, and min equal to the root's count |
| TopK.TopK.PushAndRecord | topk.go:123-125 | push the entry, which adds exactly it, and record the root's count as min |
| TopK.TopK.Values | topk.go:129-144 | the entries with a positive count, each as often as in the heap, ascending by count; the heap is not modified |
| TopK.TopK.Reset | topk.go:147-156 | the heap is empty and every counter of the sketch is zero; min and size are left as they were; the same tracker is returned |

## Findings

| source | as written | input that shows it | evidently intended | confidence | as-written member | corrected member |
|---|---|---|---|---|---|---|
| topk.go:102 | `insert` reads `t.elements[0]` whenever the heap length equals `maxSize`, including when both are 0 | `NewTopK(0)`, then `Update` of any value: `min` is 0, so `isTop` (topk.go:91) accepts, and the guard indexes an empty slice | a tracker with k = 0 tracks nothing: `insert` returns without change | medium, not executed | TopK.GuardAsWritten, TopK.ZeroCapacityGuardFails | TopK.Rejected, TopK.RejectedRefinesGuard, TopK.TopK.Insert |

## Left out

- The floating-point construction of `n8`, `n16`, `d8` and `d16`, and the function `n` (count.go:13-15, 24-41, 74-91). Floats. The tables are abstract constants with the properties listed above.
- The derivation of width and depth from epsilon and confidence in `NewCountMinWithEstimates` (cms.go:42-45). It uses `math.Ceil` and `math.Log`. Only its validation (`ValidateEstimates`) is modelled. A NaN epsilon or confidence would pass the Go comparisons; reals have no NaN.
- Randomness: `rand.Float32()` and `roll32()`. The roll is a parameter.
- Concurrency. The compare-and-swap retry loop of `IncrementAt` (count.go:155-168) is one round in which the swap succeeds. `atomic.Uint64`, `atomic.Uint32`, `sync.Mutex` and the atomic `Swap` of `Reset` are plain fields and assignments.
- Heap.MinHeap.Pop: requires a non-empty heap. On an empty heap, topk_heap.go:24-25 computes n = -1 and `Swap(0, -1)` panics. That panic is not modelled; `insert` pops only a full heap, which is non-empty once k >= 1.
- Sketch.CountMin.UpdateHash, Sketch.CountMin.CountHash: require `width > 0` when `depth > 0`. Validation lets width 0 through, and the Go code then divides by zero at cms.go:96 and cms.go:125. That panic is not modelled.
- Sketch.CountMin: holds packed words, not `Count16x4` objects. The lower-case `incrementAt(slot, roll)` and `roll32` that cms.go:90-98 call are not part of this model; `incrementAt` is modelled as `IncrementWord` on the word (and as `Count16x4.AdvanceAt`) and returns whether the counter advanced. `Count16x4` shares the word functions with the sketch.
- The xxh3 hash and the byte and string wrappers: `Update`, `UpdateString`, `Count`, `CountString` (cms.go:74-81, 107-114), and `TopK.Update`/`UpdateString` (topk.go:77-87). The 64-bit hash is an input. `TopK.Update` also converts `UpdateHash`'s `bool` result with `uint32(...)`, which is not valid Go. So the count an entry is inserted with is an input of `Insert`.
- The duplicate `minheap` declaration of topk.go:26-47 (the `heap.Interface` forms of `Push`/`Pop`). The explicit heap of topk_heap.go is used throughout. `heap.Fix`, `heap.Pop` and `heap.Push` in `insert` are read as `Update`, `Pop` and `Push`, and `heap.Init` on an empty slice is a new empty heap. The `down` of `container/heap`, which `heap.Fix` and `heap.Pop` reach, stops when the child is not smaller and so does not swap equal counts; topk_heap.go:65 does swap them, and the model follows topk_heap.go. The contracts are stated over multisets and hold for both, but which of several equal-count entries ends up at the root, and so is evicted next, can differ from the Go program.
- The slice capacities of `make(minheap, 0, k)`. Capacity is not observable in the model.
- TopK.TopK.Values: sorts by insertion sort rather than `sort.Sort`. The result is specified as sorted and a permutation, which fixes it up to the order of entries with equal counts; that order is not modelled.
- The statistical accuracy of the counters and of the sketch. These are probabilistic claims.
