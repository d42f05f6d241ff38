/** The numeric types of a chain block (pkg/chain/block.go): a hash and a
    difficulty, each with its conversion to an unbounded integer, and the
    block record that carries them. */
module Chain {
  import opened Bytes

  /** A 32-byte hash (Go: `[32]byte`). */
  type Hash = s: seq<uint8> | |s| == 32 witness Zeros(32)

  /** A 20-byte account address (Go: `[20]byte`). */
  type Address = s: seq<uint8> | |s| == 20 witness Zeros(20)

  /** A difficulty: a byte slice of any length, read big-endian. */
  type Difficulty = seq<uint8>

  /** Go's `int64` and `uint64`, as the ranges they hold. */
  type int64 = x: int | -0x8000_0000_0000_0000 <= x < 0x8000_0000_0000_0000
  type uint64 = x: int | 0 <= x < 0x1_0000_0000_0000_0000

  /** A block. The transactions are untyped in the source (`[]interface{}`),
      so their type is left to the user of the record. */
  datatype Block<Tx> = Block(
    parent: Hash,
    time: int64,
    nonce: uint64,
    difficulty: Difficulty,
    coinbase: Address,
    stake: uint64,
    transactions: seq<Tx>)

  /** The ceiling a difficulty is subtracted from: `1 << 256`. */
  const MaxDifficulty: nat := Pow2(256)

  /** 2^256 is the number of values a 32-byte string can hold. */
  lemma MaxDifficultyIsPow256()
    ensures MaxDifficulty == Pow256(32)
  {
    Pow2Bytes(32);
  }

  /** `Hash.ToBigInt`: the hash read as a big-endian unsigned integer. */
  function HashToInt(h: Hash): (r: nat)
    ensures r < MaxDifficulty
  {
    MaxDifficultyIsPow256();
    BigEndian(h)
  }

  /** `Difficulty.ToBigInt`: `MaxDifficulty` minus the big-endian value of the
      difficulty. There is no length check, so the result can be zero or
      negative. */
  function DifficultyToInt(d: Difficulty): (r: int)
    ensures r <= MaxDifficulty
    ensures d == [] ==> r == MaxDifficulty
  {
    MaxDifficulty - BigEndian(d)
  }

  /** The value of a hash is the positional sum of h[i] * 256^(31 - i) over
      0 <= i < 32 (WeightedSum with |h| = 32). */
  lemma HashToIntIsWeightedSum(h: Hash)
    ensures HashToInt(h) == WeightedSum(h, 0)
  {
    BigEndianIsWeightedSum(h);
  }

  /** Every integer in [0, 2^256) is the value of some hash. */
  lemma HashToIntSurjective(n: nat)
    requires n < MaxDifficulty
    ensures exists h: Hash :: HashToInt(h) == n
  {
    MaxDifficultyIsPow256();
    var h: Hash := FromNat(n, 32);
    assert HashToInt(h) == n;
  }

  /** Distinct hashes have distinct values. */
  lemma HashToIntInjective(h1: Hash, h2: Hash)
    ensures HashToInt(h1) == HashToInt(h2) <==> h1 == h2
  {
    if HashToInt(h1) == HashToInt(h2) {
      BigEndianInjective(h1, h2);
    }
  }

  /** Comparing two hashes as integers is comparing their bytes
      lexicographically. */
  lemma HashToIntOrder(h1: Hash, h2: Hash)
    ensures HashToInt(h1) < HashToInt(h2) <==> LexLess(h1, h2)
  {
    BigEndianOrder(h1, h2);
  }

  /** Leading zero bytes do not change a difficulty's value. */
  lemma DifficultyLeadingZeros(k: nat, d: Difficulty)
    ensures DifficultyToInt(Zeros(k) + d) == DifficultyToInt(d)
    ensures DifficultyToInt([0] + d) == DifficultyToInt(d)
  {
    BigEndianLeadingZeros(k, d);
    BigEndianLeadingZeros(1, d);
    assert Zeros(1) == [0];
  }

  /** Two difficulties give the same value exactly when they differ only in
      leading zero bytes. */
  lemma DifficultyToIntEqualIff(d1: Difficulty, d2: Difficulty)
    ensures DifficultyToInt(d1) == DifficultyToInt(d2) <==> StripZeros(d1) == StripZeros(d2)
  {
    BigEndianEqualIff(d1, d2);
  }

  /** A difficulty of at most 32 bytes gives a value in [1, 2^256]. */
  lemma DifficultyInRange(d: Difficulty)
    requires |d| <= 32
    ensures 1 <= DifficultyToInt(d) <= MaxDifficulty
  {
    MaxDifficultyIsPow256();
    Pow256Monotone(|d|, 32);
  }

  /** The value is positive exactly when the difficulty, without its leading
      zeros, fits in 32 bytes; longer ones give zero or less. */
  lemma DifficultyPositiveIff(d: Difficulty)
    ensures DifficultyToInt(d) >= 1 <==> |StripZeros(d)| <= 32
  {
    var s := StripZeros(d);
    assert BigEndian(d) == BigEndian(s) by {
      BigEndianStripZeros(d);
    }
    assert Pow256(32) == MaxDifficulty by {
      MaxDifficultyIsPow256();
    }
    if |s| <= 32 {
      assert BigEndian(s) < Pow256(32) by {
        Pow256Monotone(|s|, 32);
      }
    } else {
      assert BigEndian(s) >= Pow256(32) by {
        BigEndianLowerBound(s);
        Pow256Monotone(32, |s| - 1);
      }
    }
  }

  /** A difficulty whose value reaches 2^256 must be longer than 32 bytes,
      and it gives zero or less. */
  lemma DifficultyOverflowNonPositive(d: Difficulty)
    requires BigEndian(d) >= MaxDifficulty
    ensures |d| > 32 && DifficultyToInt(d) <= 0
  {
    MaxDifficultyIsPow256();
    Pow256Monotone(|d|, 32);
  }

  /** Thirty-three bytes: 1 followed by 32 zeros gives exactly 0, and 2
      followed by 32 zeros gives -2^256. */
  lemma DifficultyOverlongExamples()
    ensures DifficultyToInt([1] + Zeros(32)) == 0
    ensures DifficultyToInt([2] + Zeros(32)) == -(MaxDifficulty as int)
  {
    MaxDifficultyIsPow256();
    BigEndianCons(1, Zeros(32));
    BigEndianCons(2, Zeros(32));
    BigEndianZeros(32);
  }

  /** A larger big-endian value gives a smaller result, for any two
      difficulties; for difficulties of one length this is the
      lexicographic order of their bytes. */
  lemma DifficultyAntitone(d1: Difficulty, d2: Difficulty)
    ensures BigEndian(d1) < BigEndian(d2) <==> DifficultyToInt(d2) < DifficultyToInt(d1)
    ensures |d1| == |d2| ==> (LexLess(d1, d2) <==> DifficultyToInt(d2) < DifficultyToInt(d1))
  {
    if |d1| == |d2| {
      BigEndianOrder(d1, d2);
    }
  }

  /** Among difficulties without leading zeros, a longer one gives a smaller
      result. */
  lemma DifficultyLongerIsSmaller(d1: Difficulty, d2: Difficulty)
    requires Minimal(d1) && Minimal(d2)
    requires |d1| < |d2|
    ensures DifficultyToInt(d2) < DifficultyToInt(d1)
  {
    MinimalLongerIsLarger(d1, d2);
  }
}
