# prover-js proof of work, modelled in Dafny

This project models `oratush.prover` from `src/prover.js`: a hashcash-style
proof-of-work search. A prover is built with a time budget (`timeout`, 6000 ms
by default) and a hash algorithm name (`"SHA-256"`). Its `process` method asks
a caller-supplied nonce generator for one nonce after another. For each nonce it
builds a block (the payload followed by the nonce, `prepareBlock`), hashes the
block, and reads the clock. The time budget is looked at only there, after
each hash: the search gives up with `null` at the first such reading that is
more than `timeout` milliseconds past the start. Otherwise it returns the
nonce once the digest has at least `difficulty` leading zero bits
(`isAcceptable`).

Files and modules:

- `bitstream.dfy`, module `BitStream`: bytes as `bv8`. It defines the big-endian
  bit stream of a byte sequence and the top-r-bits mask. It also holds the
  bit-level facts about one byte.
- `difficulty.dfy`, module `Difficulty`: `Accepts(h, d)`, the reference meaning
  of "digest h meets difficulty d", stated on the bit stream. It also holds the
  lemmas about byte boundaries, the mask test and monotonicity.
- `search.dfy`, module `ProofSearch`: `Search`, the whole search as a function
  of the nonces the generator will produce and the clock readings it will
  return. It also holds the lemmas that a returned nonce is the first
  acceptable one and that the timeout takes precedence.
- `prover.dfy`, module `Prover`: the imperative model. It has the classes
  `NonceGenerator`, `Clock` and `Prover`. `PrepareBlock` and `IsAcceptable`
  keep the source's loops, and `Process` keeps its `do … while`.
  `IsAcceptable` is proved against `Accepts` and `Process` against `Search`.
  `PrepareBlock`, `Next`, `Now` and the constructors state their results and
  new state directly.

Decisions:

- Reads past the end of the digest follow JavaScript, because the source has
  no bounds guard. In the whole-byte scan a missing byte reads as `undefined`,
  and `undefined !== 0`, so the test fails. At the mask step, `undefined & mask`
  is `0`, so the test passes. So for an n-byte digest, a difficulty between
  8n+1 and 8n+7 is met by an all-zero digest, and a difficulty of 8n+8 or more
  is never met. `Accepts` states this. `AllZero` proves the first part, for
  every difficulty below 8n+8, and `BeyondDigest` proves the second.
- A difficulty of 0 or less is met by every digest. The whole-byte scan does
  nothing when `Math.floor(d / 8)` is negative. For a negative multiple of 8,
  `d % 8` in JavaScript is `-0`, which equals `0`, so the test returns true
  before the mask loop. For any other negative difficulty, `%` gives a
  remainder between -7 and -1. The mask loop then shifts 255 left by 9 to 15
  places, and `& 255` clears the mask to 0. `Math.floor(d / 8)`
  is Dafny's `d / 8`, whose divisor is positive. JavaScript's truncating `%`
  is written out as `JsRemainder8`.
- The mask is computed in `bv32`, as JavaScript's `<<` and `&` work on 32-bit
  integers. The most shifting a difficulty can cause is 15 places, so no bit
  is lost.
- The hash provider (`crypto.subtle.digest(this.hashAlgo, block)`) is the
  function parameter `digest: (string, seq<byte>) -> seq<byte>`. It is applied
  to `hashAlgo` and the block's contents.
- `Date.now()` is the `Clock` class. Each `Now()` returns the next reading of a
  given sequence. The search reads the clock once at the start and once after
  each hash.
- The generator is the `NonceGenerator` class. Each `Next()` hands out the next
  nonce of a finite sequence as a fresh byte array. That sequence gives the loop
  its termination measure.

## Model

| member | source | states |
|---|---|---|
| `Prover.Prover.constructor` | src/prover.js:33-36 | the timeout is the argument (6000 ms by default) and the hash algorithm is SHA-256 |
| `Prover.Prover.PrepareBlock` | src/prover.js:73-87 | the result is a fresh array of length `|data| + |nonce|`; its first `|data|` entries are `data` and the rest are `nonce`, in order; `data` and `nonce` are unchanged |
| `Prover.Prover.IsAcceptable` | src/prover.js:94-123 | the byte scan, the shift loop and the final mask test return exactly `Accepts(h, difficulty)`: the first `difficulty` bits of the big-endian bit stream are zero, with JavaScript's reads past the digest |
| `Prover.JsRemainder8` | src/prover.js:96 | JavaScript's `% 8`: the result lies strictly between -8 and 8, differs from the input by a multiple of 8, and takes the input's sign |
| `Prover.NonceGenerator.Next` | src/prover.js:55 | returns a fresh array holding the next nonce and advances the generator by exactly one |
| `Prover.Clock.Now` | src/prover.js:59 | returns the next clock reading and consumes it |
| `Prover.Prover.Process` | src/prover.js:46-66 | returns what `Search` says: null exactly on a timeout, otherwise the fresh array of the nonce found; the generator has advanced by exactly the number of attempts and the clock by one reading more |
| `ProofSearch.Search` | src/prover.js:54-65 | a finished search made between 1 and `|nonces|` attempts and no more than it had clock readings; a returned nonce is the nonce of the last attempt |
| `ProofSearch.SearchStopsAtFirstStop` | src/prover.js:54-65 | every attempt before the last neither timed out nor met the difficulty; the last one stopped; the result is null exactly when its clock reading exceeded the budget, even if its digest was acceptable; a returned nonce's digest meets the difficulty, so it is the first acceptable nonce in generator order |
| `ProofSearch.SearchFindsFirstStop` | src/prover.js:54-65 | conversely, if attempts 0 to k-1 go on and attempt k stops, the search ends after exactly k+1 attempts with attempt k's result |
| `ProofSearch.ExpiredReadingStops` | src/prover.js:54-62 | if the reading after attempt k is past the budget and the nonces and readings last that long, the search stops after at most k+1 attempts; this is a way to meet `Process`'s requirement |
| `ProofSearch.TimeoutAfterFirstAttempt` | src/prover.js:54-62 | the first nonce is always drawn and hashed; if the first reading after hashing is past the budget, the result is null after one attempt whatever the digest |
| `ProofSearch.ZeroDifficultyFirstNonce` | src/prover.js:55-63 | with difficulty 0 or less and no timeout on the first attempt, the first nonce is returned |
| `Difficulty.ZeroDifficulty` | src/prover.js:95-111 | difficulty 0 is met by every digest |
| `Difficulty.WholeBytes` | src/prover.js:102-111 | for `d = 8k` with `k <= |h|`, the difficulty is met iff bytes `0..k-1` are zero |
| `Difficulty.WholeBytesIgnoreRest` | src/prover.js:102-111 | two digests that agree on their first k bytes meet difficulty 8k alike, so byte k and later bytes play no part |
| `Difficulty.PartialByte` | src/prover.js:113-122 | for `d = 8k + r` with `0 < r < 8` and `k < |h|`, the difficulty is met iff bytes `0..k-1` are zero and `h[k] < 2^(8-r)` |
| `Difficulty.PartialByteMask` | src/prover.js:113-122 | the same case, as the source tests it: met iff bytes `0..k-1` are zero and `h[k] & ((255 << (8-r)) & 255) == 0` |
| `Difficulty.Monotonic` | src/prover.js:94-123 | meeting difficulty d also meets every d' <= d, for all integers |
| `Difficulty.BeyondDigest` | src/prover.js:102-106 | a difficulty of 8n+8 or more is never met by an n-byte digest (the read past the end is `undefined !== 0`) |
| `Difficulty.NonzeroByteRejects` | src/prover.js:102-106 | a nonzero byte at index i fails every difficulty of at least 8(i+1) |
| `Difficulty.TopBitSet` | src/prover.js:94-123 | a digest whose first byte has its top bit set meets no positive difficulty |
| `Difficulty.AllZero` | src/prover.js:94-123 | an all-zero n-byte digest meets every difficulty below 8n+8: those up to its bit length, and 8n+1 to 8n+7 through the read of the missing byte |
| `Difficulty.LeadingZeroBytes` | src/prover.js:102-106 | the first 8k bits of the stream are zero iff the first k bytes are |
| `Difficulty.LeadingZeroBitsIntoByte` | src/prover.js:113-122 | when the first k bytes are zero, the first 8k+r bits are zero iff the top r bits of byte k are |
| `BitStream.TopMaskBits` | src/prover.js:113-120 | the mask `(255 << (8-r)) & 255` equals `256 - 2^(8-r)`, the top r bits of a byte |
| `BitStream.MaskedByte` | src/prover.js:120-122 | a byte ANDed with the top-r mask is zero iff its top r bits are zero, iff it is below `2^(8-r)` |
| `BitStream.ShiftOnceMore` | src/prover.js:115-117 | one more `<< 1` of `255 << j` is `255 << (j+1)`, so the loop builds `255 << (8 - r)` |
| `BitStream.ShiftedPastByte` | src/prover.js:115-120 | shifted left by 8 to 15 places (a negative remainder), the mask cut to 8 bits is 0 |

## Left out

- `calculateHash` (src/prover.js:129-132) is a Web Crypto call (SHA-256). The model replaces it with the function parameter `digest`. A failure of the hash provider, which the source passes on as a rejected promise, is not modelled.
- The endianness flag `oratush.littleEndian` (src/prover.js:23-28) is not modelled. Nothing in the algorithm uses it.
- `Date.now()` (src/prover.js:47, 59) is not modelled as real time. The model uses a given sequence of readings.
- The `typeof nonceG.next !== 'function'` check and its `TypeError` (src/prover.js:50-52) are not modelled. The generator is a typed class, so that case cannot arise.
- `async`/`await` and the module export (src/prover.js:135-137) are not modelled. The hash is an ordinary call at the point of the `await`.
- Prover.Prover.Process: requires that the supplied nonces and clock readings last until the search stops (`Search(...).Some?`). In the source the generator and the clock never run out. `ExpiredReadingStops` shows that one expired reading within the supply is enough.
- Difficulties and timeouts are integers. JavaScript's fractional numbers, `NaN` and `Infinity` are not modelled.
- A generator in the source may return any object, and may return the same `Uint8Array` twice. The model's generator hands out a fresh byte array each time.
