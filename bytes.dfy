/** Byte strings read as big-endian unsigned integers, the reading that Go's
    `big.Int.SetBytes` gives them: the first byte is the most significant, an
    empty string is zero, and leading zero bytes contribute nothing. */
module Bytes {

  /** A byte (Go's `byte`, an alias of `uint8`). */
  type uint8 = x: int | 0 <= x < 256

  /** 256^n: the number of values an n-byte string can hold. */
  function Pow256(n: nat): (r: nat)
    ensures r >= 1
  {
    if n == 0 then 1 else 256 * Pow256(n - 1)
  }

  /** 2^n, the value of Go's `1 << n` on a big integer. */
  function Pow2(n: nat): (r: nat)
    ensures r >= 1
  {
    if n == 0 then 1 else 2 * Pow2(n - 1)
  }

  /** k zero bytes. */
  function Zeros(k: nat): (r: seq<uint8>)
  {
    seq(k, _ => 0)
  }

  /** The big-endian value of `s`, built the way a reader consumes the bytes:
      everything before the last byte, shifted up by one byte, plus the last
      byte. */
  function BigEndian(s: seq<uint8>): (r: nat)
    ensures r < Pow256(|s|)
  {
    if s == [] then 0 else 256 * BigEndian(s[..|s| - 1]) + s[|s| - 1]
  }

  /** The positional reading of `s` from index `i` on: the sum of
      s[j] * 256^(|s| - 1 - j) over i <= j < |s|. */
  function WeightedSum(s: seq<uint8>, i: nat): (r: nat)
    requires i <= |s|
    decreases |s| - i
  {
    if i == |s| then 0 else s[i] * Pow256(|s| - 1 - i) + WeightedSum(s, i + 1)
  }

  /** A byte string with no leading zero byte: the shortest encoding of its value. */
  predicate Minimal(s: seq<uint8>)
  {
    s == [] || s[0] != 0
  }

  /** `s` with its leading zero bytes removed. */
  function StripZeros(s: seq<uint8>): (r: seq<uint8>)
    ensures Minimal(r)
    ensures |r| <= |s| && s == Zeros(|s| - |r|) + r
  {
    if s != [] && s[0] == 0 then
      var r := StripZeros(s[1..]);
      assert s == [0] + Zeros(|s| - 1 - |r|) + r;
      r
    else
      assert Zeros(0) + s == s;
      s
  }

  /** Lexicographic order on byte strings of equal length. */
  predicate LexLess(a: seq<uint8>, b: seq<uint8>)
    requires |a| == |b|
  {
    a != [] && (a[0] < b[0] || (a[0] == b[0] && LexLess(a[1..], b[1..])))
  }

  /** The `len`-byte big-endian encoding of `n`, padded with leading zeros:
      the inverse of `BigEndian` on strings of that length. */
  function FromNat(n: nat, len: nat): (r: seq<uint8>)
    requires n < Pow256(len)
    ensures |r| == len && BigEndian(r) == n
  {
    if len == 0 then []
    else
      var init := FromNat(n / 256, len - 1);
      assert (init + [n % 256])[..len - 1] == init;
      init + [n % 256]
  }

  lemma {:induction false} Pow2Add(a: nat, b: nat)
    ensures Pow2(a + b) == Pow2(a) * Pow2(b)
  {
    if a > 0 {
      Pow2Add(a - 1, b);
    }
  }

  /** Shifting by 8n bits is multiplying by 256^n. */
  lemma {:induction false} Pow2Bytes(n: nat)
    ensures Pow2(8 * n) == Pow256(n)
  {
    if n > 0 {
      Pow2Bytes(n - 1);
      Pow2Add(8 * (n - 1), 8);
      assert Pow2(8) == 256;
    }
  }

  lemma {:induction false} Pow256Monotone(m: nat, n: nat)
    ensures m <= n ==> Pow256(m) <= Pow256(n)
  {
    if m < n {
      Pow256Monotone(m, n - 1);
    }
  }

  lemma ShiftDistributes(x: int, p: int, y: int, c: int)
    ensures 256 * (x * p + y) + c == x * (256 * p) + (256 * y + c)
  {
  }

  /** Appending `b` shifts the value of `a` up by |b| bytes. */
  lemma {:induction false} BigEndianAppend(a: seq<uint8>, b: seq<uint8>)
    ensures BigEndian(a + b) == BigEndian(a) * Pow256(|b|) + BigEndian(b)
    decreases |b|
  {
    if b == [] {
      assert a + b == a;
    } else {
      var init := b[..|b| - 1];
      BigEndianAppend(a, init);
      assert (a + b)[..|a + b| - 1] == a + init;
      assert (a + b)[|a + b| - 1] == b[|b| - 1];
      ShiftDistributes(BigEndian(a), Pow256(|init|), BigEndian(init), b[|b| - 1]);
    }
  }

  /** The first byte weighs 256^(number of bytes after it). */
  lemma BigEndianCons(x: uint8, s: seq<uint8>)
    ensures BigEndian([x] + s) == x * Pow256(|s|) + BigEndian(s)
  {
    assert BigEndian([x]) == x by {
      assert [x][..0] == [];
    }
    BigEndianAppend([x], s);
  }

  lemma {:induction false} BigEndianSuffixIsWeightedSum(s: seq<uint8>, i: nat)
    requires i <= |s|
    ensures BigEndian(s[i..]) == WeightedSum(s, i)
    decreases |s| - i
  {
    if i < |s| {
      BigEndianSuffixIsWeightedSum(s, i + 1);
      BigEndianCons(s[i], s[i + 1..]);
      assert [s[i]] + s[i + 1..] == s[i..];
    }
  }

  /** The recursive reading and the positional sum agree. */
  lemma BigEndianIsWeightedSum(s: seq<uint8>)
    ensures BigEndian(s) == WeightedSum(s, 0)
  {
    BigEndianSuffixIsWeightedSum(s, 0);
    assert s[0..] == s;
  }

  lemma {:induction false} BigEndianZeros(k: nat)
    ensures BigEndian(Zeros(k)) == 0
  {
    if k > 0 {
      BigEndianZeros(k - 1);
      assert Zeros(k)[..k - 1] == Zeros(k - 1);
    }
  }

  /** Leading zero bytes do not change the value. */
  lemma BigEndianLeadingZeros(k: nat, s: seq<uint8>)
    ensures BigEndian(Zeros(k) + s) == BigEndian(s)
  {
    BigEndianAppend(Zeros(k), s);
    BigEndianZeros(k);
  }

  lemma BigEndianStripZeros(s: seq<uint8>)
    ensures BigEndian(StripZeros(s)) == BigEndian(s)
  {
    var r := StripZeros(s);
    BigEndianLeadingZeros(|s| - |r|, r);
  }

  /** A string whose first byte is not zero is worth at least 256^(|s| - 1). */
  lemma BigEndianLowerBound(s: seq<uint8>)
    requires s != [] && s[0] != 0
    ensures BigEndian(s) >= Pow256(|s| - 1)
  {
    BigEndianCons(s[0], s[1..]);
    assert [s[0]] + s[1..] == s;
  }

  /** Two strings of the same length with the same value are the same string. */
  lemma {:induction false} BigEndianInjective(a: seq<uint8>, b: seq<uint8>)
    requires |a| == |b|
    requires BigEndian(a) == BigEndian(b)
    ensures a == b
  {
    if a != [] {
      var n := |a| - 1;
      assert BigEndian(a[..n]) == BigEndian(b[..n]) && a[n] == b[n];
      BigEndianInjective(a[..n], b[..n]);
      assert a == a[..n] + [a[n]];
      assert b == b[..n] + [b[n]];
    }
  }

  /** Among minimal strings, a longer one has a larger value. */
  lemma MinimalLongerIsLarger(a: seq<uint8>, b: seq<uint8>)
    ensures Minimal(a) && Minimal(b) && |a| < |b| ==> BigEndian(a) < BigEndian(b)
  {
    if Minimal(a) && Minimal(b) && |a| < |b| {
      BigEndianLowerBound(b);
      Pow256Monotone(|a|, |b| - 1);
    }
  }

  /** Two minimal strings with the same value are the same string. */
  lemma MinimalUnique(a: seq<uint8>, b: seq<uint8>)
    requires Minimal(a) && Minimal(b)
    requires BigEndian(a) == BigEndian(b)
    ensures a == b
  {
    MinimalLongerIsLarger(a, b);
    MinimalLongerIsLarger(b, a);
    BigEndianInjective(a, b);
  }

  /** Two strings have the same value exactly when they differ only in leading zeros. */
  lemma BigEndianEqualIff(a: seq<uint8>, b: seq<uint8>)
    ensures BigEndian(a) == BigEndian(b) <==> StripZeros(a) == StripZeros(b)
  {
    BigEndianStripZeros(a);
    BigEndianStripZeros(b);
    if BigEndian(a) == BigEndian(b) {
      MinimalUnique(StripZeros(a), StripZeros(b));
    }
  }

  lemma MulStep(x: int, y: int, p: nat)
    requires x < y
    ensures x * p + p <= y * p
  {
    var d := y - x - 1;
    assert y * p == x * p + p + d * p by {
      assert y == x + 1 + d;
    }
  }

  /** For strings of one length, the numeric order is the lexicographic order. */
  lemma {:induction false} BigEndianOrder(a: seq<uint8>, b: seq<uint8>)
    requires |a| == |b|
    ensures BigEndian(a) < BigEndian(b) <==> LexLess(a, b)
  {
    if a != [] {
      var a', b' := a[1..], b[1..];
      var p := Pow256(|a'|);
      BigEndianCons(a[0], a');
      BigEndianCons(b[0], b');
      assert [a[0]] + a' == a && [b[0]] + b' == b;
      if a[0] < b[0] {
        MulStep(a[0], b[0], p);
      } else if b[0] < a[0] {
        MulStep(b[0], a[0], p);
      } else {
        BigEndianOrder(a', b');
      }
    }
  }
}
