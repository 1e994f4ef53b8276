# fastrand in Dafny

A model of the core of the Go package `fastrand`. The package offers
quickly generated pseudo-random numbers with no repeatability guarantees.
This model covers:

- the bounded integer samplers `Int31n`, `Int63n`, `Uint32n` and `Uint64n`,
  with their raw helpers `Int31` and `Int63` and the constants `maxUint32`,
  `maxUint64`, `maxInt32` and `maxInt64`;
- the Fisher-Yates `Shuffle`;
- the byte-buffer filler `Fill`, its tail helper `fill`, `reader.Read`, and
  the portable `putU64`.

The random words (`u32()` and `u64()`) come from foreign code: the runtime's
generator or a hash. Here they are two finite streams fixed in advance
(`WordSource.Draws`). Every operation takes the streams as input and returns
an `Outcome`, which is one of three things:

- a Go panic;
- `Exhausted`, when the finite stream runs dry;
- the result together with the unconsumed draws.

The properties hold for every possible stream. Go's fixed-width integers are
subset types of `int`. The operators the package uses are written out:

- `>>` is division by a power of two;
- `byte(x)` is `% 256`;
- unsigned `n - 1` wraps modulo 2^width;
- `&` is a recursive bitwise AND.

Modules:

- `Bits`: word types, constants, `And`, and the arithmetic lemmas about masks
  and powers of two.
- `WordSource`: the draw streams and `Outcome`.
- `BoundedSampler`: the four samplers share one algorithm, `Bounded`, over a
  `Width`, and each sampler is a thin wrapper around it.
- `ModuloBias`: counting lemmas showing that every residue has the same
  number of accepted draws.
- `Shuffler`: `Shuffle`, the reference swaps `FisherYates`, and the
  reference `DrawnPicks` for the indices it draws from the streams.
- `BufferFiller`: `putU64`, `fill`, `Fill` and `reader.Read`, with the
  little-endian decoding that reads a buffer back.

The rejection bound is `max = MAX - MAX % n`, computed from MAX. One might
expect the largest multiple of n that does not exceed MAX + 1 instead. The
two can differ only when n divides MAX + 1, and then n is a power of two
and the masking path is taken. `ModuloBias.ThresholdIsLargest` proves that
they agree for every bound that reaches the rejection path.

`Uint32n` and `Uint64n` do not check n. A zero bound passes the
`n & (n-1) == 0` test, because `n - 1` wraps to `maxUint`. It therefore
takes the masking path with an all-ones mask and returns the raw word.

`Shuffle` converts `i + 1` with `int64(...)` and `int32(...)`. The model
writes both conversions out as two's-complement truncations (`Bits.Int64Of`,
`Bits.Int32Of`). Within the index ranges that each loop visits, they lose
nothing.

## Model

| member | source | states |
|---|---|---|
| Bits.PowerOfTwoTest | fastrand.go:53 | for a positive n, `n & (n-1) == 0` holds exactly when n is a power of two |
| Bits.MaskIsMod | fastrand.go:54 | for a power of two n, masking with `n - 1` yields the residue modulo n |
| Bits.WordSizes | fastrand.go:17-22 | maxUint32 + 1 and maxUint64 + 1 are 2^32 and 2^64; maxInt32 + 1 and maxInt64 + 1 are 2^31 and 2^63 |
| BoundedSampler.Int31 | fastrand.go:42-45 | the result is non-negative and at most maxInt32; it is the 32-bit word with its low bit dropped; exactly one 32-bit word is consumed |
| BoundedSampler.Int63 | fastrand.go:64-67 | the result is non-negative and at most maxInt64; it is the 64-bit word with its low bit dropped; exactly one 64-bit word is consumed |
| BoundedSampler.Draw | fastrand.go:97 | one draw of the width's raw value: it runs dry exactly on an empty stream; otherwise it is at most the width's maximum and consumes exactly the first word |
| BoundedSampler.Threshold | fastrand.go:56 | `max := MAX - MAX%n` is at most MAX, and fewer than n values lie above it |
| BoundedSampler.Pred | fastrand.go:93 | `n - 1` in the width's arithmetic: n - 1 for a positive n; for an unsigned zero it wraps to the all-ones maximum |
| BoundedSampler.FirstAccepted | fastrand.go:57-60 | the redraw loop stops at the first draw below max; every draw before it was at or above max |
| BoundedSampler.Reject | fastrand.go:56-61 | runs dry exactly when every draw is rejected; otherwise returns the first draw below max and consumes it and every draw before it |
| BoundedSampler.MaskTest | fastrand.go:93 | in the width's own arithmetic, the sampler's test picks the masking path exactly for n = 0 or a power of two |
| BoundedSampler.MaskPath | fastrand.go:111-113 | one draw: exhausted exactly on an empty stream; masked with the wrapped `0 - 1` it is returned unchanged, masked with `n - 1` for a power of two it is reduced modulo n |
| BoundedSampler.RejectPath | fastrand.go:114-119 | runs dry exactly when every draw is at or above `MAX - MAX%n`; otherwise the result is below n and is the first draw under that bound modulo n, with every earlier draw consumed |
| BoundedSampler.Bounded | fastrand.go:110-120 | never panics; for n >= 1 the result is below n; a power of two uses one draw reduced modulo n; any other n reduces the first draw below max after consuming every earlier draw; n = 0 returns the raw draw |
| BoundedSampler.Int31n | fastrand.go:47-62 | panics exactly when n <= 0; the result lies in [0, n); a power of two masks one Int31 draw; any other n takes the first Int31 draw below `maxInt32 - maxInt32%n` modulo n; only 32-bit words are used |
| BoundedSampler.Int63n | fastrand.go:69-84 | panics exactly when n <= 0; the result lies in [0, n); a power of two masks one Int63 draw; any other n takes the first Int63 draw below `maxInt64 - maxInt64%n` modulo n; only 64-bit words are used |
| BoundedSampler.Uint32n | fastrand.go:91-102 | never panics; for n >= 1 the result lies in [0, n); n = 0 returns the raw 32-bit word and consumes exactly that word; a power of two runs dry exactly on an empty 32-bit stream; any other n rejects draws at or above `maxUint32 - maxUint32%n` |
| BoundedSampler.Uint64n | fastrand.go:109-120 | never panics; for n >= 1 the result lies in [0, n); n = 0 returns the raw 64-bit word and consumes exactly that word; a power of two runs dry exactly on an empty 64-bit stream; any other n rejects draws at or above `maxUint64 - maxUint64%n` |
| ModuloBias.ThresholdBounds | fastrand.go:56 | max is a multiple of n between n and MAX; fewer than n values lie above it; MAX < 2 max, so on average fewer than 2 draws are needed |
| ModuloBias.ThresholdIsLargest | fastrand.go:78 | when n is not a power of two, max is the largest multiple of n that does not exceed MAX + 1, so no draw is rejected needlessly |
| ModuloBias.NoModuloBias | fastrand.go:96-101 | on the rejection path every residue in [0, n) has exactly max / n accepted preimages |
| ModuloBias.MaskNoBias | fastrand.go:111-112 | on the masking path n divides the number of possible draws, and every residue has exactly that number / n preimages |
| Shuffler.Swap | fastrand.go:147 | elements i and j trade places and every other element stays where it was |
| Shuffler.FisherYatesPermutes | fastrand.go:147 | whatever indices are drawn, the swaps leave the same multiset of elements |
| Shuffler.FisherYatesStep | fastrand.go:147 | one more in-range pick keeps the picks valid and adds one swap at index len-1-k to the reference slice |
| Bits.Int64Of | fastrand.go:146 | `int64(x)` agrees with x modulo 2^64, equals x whenever x fits in an int64, and never exceeds a non-negative x |
| Bits.Int32Of | fastrand.go:151 | `int32(x)` agrees with x modulo 2^32, equals x whenever x fits in an int32, and never exceeds a non-negative x |
| Shuffler.PickWide | fastrand.go:146 | below maxInt64 the pick never panics; the drawn j lies in [0, i]; the 32-bit stream is untouched |
| Shuffler.PickWideIsInt63n | fastrand.go:146 | below maxInt64 the pick is exactly `Int63n(i + 1)`: it runs dry when that does, and otherwise yields its value and leaves its remaining draws |
| Shuffler.PickNarrow | fastrand.go:151 | below maxInt32 the pick never panics; the drawn j lies in [0, i]; the 64-bit stream is untouched |
| Shuffler.PickNarrowIsInt31n | fastrand.go:151 | below maxInt32 the pick is exactly `Int31n(i + 1)`: it runs dry when that does, and otherwise yields its value and leaves its remaining draws |
| Shuffler.Run | fastrand.go:145-148 | the reference for one loop: from index i down to lo + 1 it adds exactly one pick per index after the earlier ones; an empty range draws nothing |
| Shuffler.RunRange | fastrand.go:145-153 | when every pick stays in [0, i] and never panics, the loop never panics, keeps the earlier picks, and its k-th new pick lies in [0, i - k] |
| Shuffler.RunKeepsWide | fastrand.go:150-153 | a loop whose pick consumes no 64-bit word leaves the 64-bit stream as it was |
| Shuffler.Drawn | fastrand.go:142-153 | the indices both loops draw never panic; there are len-1 of them and they are valid Fisher-Yates picks; below maxInt32 elements no 64-bit word is used; len <= 1 draws nothing |
| Shuffler.DrawnPicks | fastrand.go:145-153 | the indices Shuffle draws with Int63n then Int31n: never a panic, len-1 valid picks, no 64-bit word below maxInt32 elements, nothing for len <= 1 |
| Shuffler.SwapLoop | fastrand.go:145-153 | one loop runs dry exactly when its reference run of picks does; otherwise its picks and remaining draws are that run's, and the slice is the reference swaps for those picks |
| Shuffler.ShuffleWith | fastrand.go:140-154 | the two loops for given picks never panic and run dry exactly when the reference draws do; otherwise the picks and remaining draws are the reference's, and the result is a permutation made by their swaps |
| Shuffler.Shuffle | fastrand.go:140-154 | never panics; runs dry exactly when the indices drawn from the streams by Int63n and then Int31n do; otherwise `picks` and the remaining draws are those indices and what they leave, and the result is their Fisher-Yates swaps, a permutation of s with len-1 picks; length 0 or 1 is returned as is without drawing; below maxInt32 elements no 64-bit word is used |
| BufferFiller.DecodeLowBytes | fastrand.go:185-189 | the first n little-endian bytes of v decode to v modulo 2^(8n) |
| BufferFiller.EncodeDecode | fastrand.go:185-189 | re-encoding the value of a little-endian byte string gives the same bytes back |
| BufferFiller.FillWord | fastrand.go:185-189 | `fill` writes byte i of p as `byte(v >> 8i)`, so p decodes to v modulo 2^(8 len(p)) |
| BufferFiller.PutU64 | fastrand_safe.go:21-31 | panics exactly when len(p) < 8; otherwise the first 8 bytes of p decode back to v and the rest of p is unchanged |
| BufferFiller.PutU64AsWritten | fastrand_safe.go:21-31 | as spelled, the stores land in `b`, and p keeps its old contents |
| BufferFiller.PutU64AsWrittenLosesWord | fastrand_safe.go:23-30 | unless p already held v, the p left by the stores as spelled does not decode to v, and its first 8 bytes differ from those of the corrected PutU64 |
| BufferFiller.FillDecodes | fastrand.go:172-183 | each full 8-byte chunk of the filled buffer decodes to its own u64 draw; the tail decodes to its draw modulo 2^(8 tail length) |
| BufferFiller.PutChunks | fastrand.go:173-176 | chunk c receives u64 draw c; the 0-7 tail bytes are left alone; exactly len/8 u64 words are consumed |
| BufferFiller.Fill | fastrand.go:171-183 | runs dry exactly when the streams hold too few words; otherwise every byte is overwritten with the expected draw bytes; exactly the needed u64 and u32 words are consumed |
| BufferFiller.Read | fastrand.go:166-169 | reports len(p) bytes and never an error; fills p as Fill does and consumes exactly the words Fill needs |

## Left out

- `u32` and `u64`: foreign code (a linked runtime generator, or a freshly seeded hash). They are replaced by the two finite word streams.
- `putU64` of the unsafe build: a raw pointer store. The portable `putU64` is modelled instead.
- `Fill`: full 8-byte chunks are little-endian, as the portable `putU64` writes them. The default build stores each chunk in the platform's native byte order, so the model (`Expected`, `FillDecodes`) matches it on little-endian platforms only. The 1-7 byte tail written by `fill` is little-endian everywhere.
- `Float32`, `Float64` and `Jitter`: floating-point arithmetic.
- `Uint32()` and `Uint64()`: each returns a word of the stream unchanged.
- The `ioReader` variable and `Reader()`: io.Reader plumbing. Only the behaviour of `reader.Read` is modelled.
- Concurrency: every operation is modelled as a single sequential call.
- Uniformity and the equal likelihood of permutations: probabilities are outside the model. Only counting lemmas are proved (ModuloBias).
- `Exhausted`: the real source never runs dry, so a redraw loop ends with probability 1. That outcome exists only because the model's streams are finite.
- Shuffle: requires len(s) <= maxInt64, the most elements a Go slice can hold.

## Findings

| source | as written | input that shows it | evidently intended | confidence | as-written member | corrected member |
|---|---|---|---|---|---|---|
| fastrand_safe.go:23-30 | the eight stores write to `b`, a name that is never declared, instead of the parameter `p` | any p with len(p) >= 8 whose first 8 bytes do not already encode v; for example, p = eight zero bytes and v = 1 | store the little-endian bytes of v into p[0..8] | not executed; under the `safe` build tag the file would not compile | BufferFiller.PutU64AsWrittenLosesWord | BufferFiller.PutU64 |
