# Block numeric types of the mentat chain, in Dafny

This project models the numeric core of `pkg/chain/block.go` in the mentat
blockchain node, and proves properties of it:

- `Hash` is a 32-byte array. `Hash.ToBigInt` reads it as a big-endian
  unsigned integer.
- `Difficulty` is a byte slice of any length. `Difficulty.ToBigInt` reads it
  as a big-endian unsigned integer and subtracts that value from
  `MaxDifficulty`.
- `MaxDifficulty` is `1 << 256`, that is 2^256.
- `Address` is a 20-byte array. `Block` is the record of a block's fields.

Go's `big.Int.SetBytes` is the big-endian reading. It is modelled as the
recursive function `Bytes.BigEndian`. `Bytes.WeightedSum` is an independent
positional definition (the sum of s[i]·256^(n−1−i)), and a lemma proves the two
agree. Bytes are unbounded integers limited to 0..255. Results are unbounded
`int`/`nat`, as `big.Int` values are.

Files:
- `bytes.dfy` (module `Bytes`): the big-endian reading, powers of 256 and 2,
  zero padding, leading-zero stripping, lexicographic order, and their lemmas.
- `block.dfy` (module `Chain`): the types of `block.go`, `MaxDifficulty`,
  `HashToInt`, `DifficultyToInt`, and the properties of those two conversions.

Two facts about the code shape the model:
- `MaxDifficulty` is 2^256 (`1 << 256`, pkg/chain/block.go:15).
- `Difficulty.ToBigInt` has no length check and no underflow error. A
  difficulty whose value is 2^256 or more can only be longer than 32 bytes,
  and it gives zero or a negative number. `DifficultyToInt` therefore returns
  an `int`, and `DifficultyPositiveIff` gives the exact condition for a
  positive result.

## Model

| member | source | states |
|---|---|---|
| `Bytes.BigEndian` | pkg/chain/block.go:8 | the big-endian value of an n-byte string is below 256^n |
| `Bytes.BigEndianIsWeightedSum` | pkg/chain/block.go:8 | the recursive big-endian reading equals the positional sum of s[i]·256^(n−1−i) |
| `Bytes.BigEndianLeadingZeros` | pkg/chain/block.go:18 | prefixing any number of zero bytes leaves the value unchanged |
| `Bytes.BigEndianInjective` | pkg/chain/block.go:8 | two strings of equal length with the same value are equal |
| `Bytes.BigEndianEqualIff` | pkg/chain/block.go:18 | two strings have the same value exactly when they are equal after stripping leading zeros |
| `Bytes.BigEndianOrder` | pkg/chain/block.go:8 | for strings of equal length, numeric order is exactly lexicographic byte order |
| `Bytes.MinimalLongerIsLarger` | pkg/chain/block.go:18 | among strings without a leading zero, the longer one has the larger value |
| `Chain.MaxDifficultyIsPow256` | pkg/chain/block.go:15 | `1 << 256` equals 256^32, the number of values a 32-byte hash can hold |
| `Chain.HashToInt` | pkg/chain/block.go:5-9 | a hash's value always lies in [0, 2^256) |
| `Chain.HashToIntIsWeightedSum` | pkg/chain/block.go:7-9 | a hash's value is the sum of h[i]·256^(31−i) |
| `Chain.HashToIntSurjective` | pkg/chain/block.go:5-9 | every integer in [0, 2^256) is the value of some hash, so the range bound is tight |
| `Chain.HashToIntInjective` | pkg/chain/block.go:5-9 | two hashes have the same value if and only if they are equal |
| `Chain.HashToIntOrder` | pkg/chain/block.go:7-9 | one hash's value is below another's if and only if its bytes are lexicographically smaller |
| `Chain.DifficultyToInt` | pkg/chain/block.go:15-19 | the result never exceeds 2^256, and an empty difficulty gives exactly 2^256 |
| `Chain.DifficultyLeadingZeros` | pkg/chain/block.go:18 | prefixing one zero byte, or any number of them, leaves the result unchanged |
| `Chain.DifficultyToIntEqualIff` | pkg/chain/block.go:17-19 | two difficulties give the same result exactly when they differ only in leading zero bytes |
| `Chain.DifficultyInRange` | pkg/chain/block.go:15-19 | a difficulty of at most 32 bytes gives a result in [1, 2^256] |
| `Chain.DifficultyPositiveIff` | pkg/chain/block.go:15-19 | the result is positive if and only if the difficulty, without leading zeros, has at most 32 bytes |
| `Chain.DifficultyOverflowNonPositive` | pkg/chain/block.go:17-19 | a difficulty whose value is 2^256 or more is longer than 32 bytes and gives a result of 0 or less, with no error |
| `Chain.DifficultyOverlongExamples` | pkg/chain/block.go:17-19 | 0x01 followed by 32 zero bytes gives 0, and 0x02 followed by 32 zero bytes gives −2^256 |
| `Chain.DifficultyAntitone` | pkg/chain/block.go:18 | for any two difficulties, a larger big-endian value gives a smaller result, and conversely; for equal lengths, lexicographically larger bytes give a smaller result, and conversely |
| `Chain.DifficultyLongerIsSmaller` | pkg/chain/block.go:18 | among difficulties without leading zeros, a longer one gives a smaller result |

## Left out

- `Block` (pkg/chain/block.go:21-29) is modelled as a datatype only. The
  source defines no operation on it. `Transactions []interface{}` becomes a
  sequence of a type parameter `Tx`, because its elements are untyped and
  unused.
- `Address` (pkg/chain/block.go:11) is a type only. The source defines no
  operation on it.
- Pointer identity of the `*big.Int` results is not modelled. Each call in the
  source builds a fresh value and never changes an existing one, so the model
  returns plain integers.
- `MaxDifficulty` is a package-level `var` in Go, so other code could change
  it. No code in the source does, and the model treats it as a constant.
- pkg/chain/abci.go: the consensus-engine handlers are empty stubs, apart from
  storing consensus parameters and calling an external hash library.
- pkg/chain/blockchain.go: `NewBlockchain` only stores two pointers, one to an
  external consensus-parameter type.
- pkg/chain/target.go: `Target` is a two-field record with no operations.
- The package has no stake validation, difficulty retargeting or header
  hashing. The comment at pkg/chain/target.go:3-5 mentions a difficulty
  adjustment algorithm, but it is not implemented.
