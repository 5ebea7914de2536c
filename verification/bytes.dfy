/** Byte strings, their big-endian values, and the fixed-width machine integers
    (Go's `uint64`, `int64`) that the codec converts words into. */
module Bytes {

  type byte = x: int | 0 <= x < 256

  const U64Limit: int := 0x1_0000_0000_0000_0000
  const I64Limit: int := 0x8000_0000_0000_0000

  type uint64 = x: nat | x < U64Limit

  /** 2^256: one more than the largest value of a 32-byte word. */
  const WordLimit: nat := 0x1_0000_0000_0000_0000_0000_0000_0000_0000_0000_0000_0000_0000_0000_0000_0000_0000

  /** 256^n: the number of distinct n-byte strings. */
  function Pow256(n: nat): (r: nat)
    ensures r >= 1
  {
    if n == 0 then 1 else 256 * Pow256(n - 1)
  }

  lemma Pow256Word()
    ensures Pow256(32) == WordLimit
  {
    Pow256Eight();
    Pow256Add(8, 8);
    Pow256Add(16, 16);
  }

  /** Widths add as powers multiply. */
  lemma {:induction false} Pow256Add(a: nat, b: nat)
    ensures Pow256(a + b) == Pow256(a) * Pow256(b)
    decreases b
  {
    if b > 0 {
      Pow256Add(a, b - 1);
    }
  }

  lemma Pow256Eight()
    ensures Pow256(8) == U64Limit
  {
  }

  function Zeros(n: nat): (z: seq<byte>)
    ensures |z| == n
    ensures forall i :: 0 <= i < n ==> z[i] == 0
  {
    seq(n, _ => 0)
  }

  /** The big-endian unsigned value of a byte string: what `big.Int.SetBytes` reads. */
  function BeValue(s: seq<byte>): (v: nat)
    ensures v < Pow256(|s|)
  {
    if |s| == 0 then 0 else BeValue(s[..|s| - 1]) * 256 + s[|s| - 1]
  }

  /** A big-endian string whose value is below 256 holds that value in its last byte. */
  lemma LastByte(s: seq<byte>)
    requires |s| > 0 && BeValue(s) < 256
    ensures s[|s| - 1] == BeValue(s)
  {
  }

  /** Appending one byte shifts the value by one byte. */
  lemma BeValueSnoc(s: seq<byte>, d: byte)
    ensures BeValue(s + [d]) == BeValue(s) * 256 + d
  {
    assert (s + [d])[..|s|] == s;
  }

  /** The value of a concatenation: the left part is shifted by the width of the right part. */
  lemma {:induction false} BeValueAppend(a: seq<byte>, b: seq<byte>)
    ensures BeValue(a + b) == BeValue(a) * Pow256(|b|) + BeValue(b)
    decreases |b|
  {
    if |b| == 0 {
      assert a + b == a;
    } else {
      var b', d := b[..|b| - 1], b[|b| - 1];
      assert a + b == (a + b') + [d];
      assert b == b' + [d];
      BeValueSnoc(a + b', d);
      BeValueSnoc(b', d);
      BeValueAppend(a, b');
      ShiftArith(BeValue(a), Pow256(|b'|), BeValue(b'), d);
    }
  }

  lemma ShiftArith(x: int, p: int, y: int, d: int)
    ensures (x * p + y) * 256 + d == x * (p * 256) + (y * 256 + d)
  {
  }

  /** Leading zero bytes do not change the value. */
  lemma ZerosPrefixValue(k: nat, b: seq<byte>)
    ensures BeValue(Zeros(k) + b) == BeValue(b)
  {
    ZerosValue(k);
    BeValueAppend(Zeros(k), b);
  }

  lemma {:induction false} ZerosValue(k: nat)
    ensures BeValue(Zeros(k)) == 0
  {
    if k > 0 {
      assert Zeros(k)[..k - 1] == Zeros(k - 1);
      ZerosValue(k - 1);
    }
  }

  /** The n-byte big-endian encoding of v (the fixed-width inverse of BeValue). */
  function BeBytes(v: nat, n: nat): (s: seq<byte>)
    requires v < Pow256(n)
    ensures |s| == n
    ensures BeValue(s) == v
  {
    if n == 0 then []
    else
      var init := BeBytes(v / 256, n - 1);
      assert (init + [v % 256])[..n - 1] == init;
      init + [v % 256]
  }

  /** Every byte string is the fixed-width encoding of its own value. */
  lemma {:induction false} BeBytesOfValue(s: seq<byte>)
    ensures BeBytes(BeValue(s), |s|) == s
  {
    if |s| > 0 {
      var init := s[..|s| - 1];
      BeBytesOfValue(init);
      assert BeValue(s) / 256 == BeValue(init);
      assert BeValue(s) % 256 == s[|s| - 1];
      assert s == init + [s[|s| - 1]];
    }
  }

  /** Equal width and equal value mean equal bytes. */
  lemma BeValueInjective(a: seq<byte>, b: seq<byte>)
    requires |a| == |b|
    requires BeValue(a) == BeValue(b)
    ensures a == b
  {
    BeBytesOfValue(a);
    BeBytesOfValue(b);
  }

  /** The magnitude bytes of n without leading zero bytes, empty for zero: `big.Int.Bytes`. */
  function MinimalBytes(n: nat): (s: seq<byte>)
    ensures BeValue(s) == n
    ensures |s| > 0 ==> s[0] != 0
    decreases n
  {
    if n == 0 then []
    else
      var init := MinimalBytes(n / 256);
      assert (init + [n % 256])[..|init|] == init;
      init + [n % 256]
  }

  /** The minimal encoding fits in k bytes exactly when the value is below 256^k. */
  lemma {:induction false} MinimalBytesFit(n: nat, k: nat)
    ensures |MinimalBytes(n)| <= k <==> n < Pow256(k)
    decreases n
  {
    if n > 0 && k > 0 {
      MinimalBytesFit(n / 256, k - 1);
    }
  }

  /** `copy(word[n-len(b):], b)` into a zeroed n-byte word: right-aligns b. */
  function PadLeft(b: seq<byte>, n: nat): (w: seq<byte>)
    requires |b| <= n
    ensures |w| == n
    ensures w[n - |b|..] == b
    ensures BeValue(w) == BeValue(b)
  {
    ZerosPrefixValue(n - |b|, b);
    Zeros(n - |b|) + b
  }

  /** Right-aligning the minimal bytes gives the fixed-width big-endian encoding. */
  lemma PadMinimalIsBeBytes(v: nat, n: nat)
    requires v < Pow256(n)
    ensures |MinimalBytes(v)| <= n
    ensures PadLeft(MinimalBytes(v), n) == BeBytes(v, n)
  {
    MinimalBytesFit(v, n);
    BeValueInjective(PadLeft(MinimalBytes(v), n), BeBytes(v, n));
  }

  /** The 32-byte word starting at `start`, read as an unsigned integer. */
  function Word(data: seq<byte>, start: nat): nat
    requires start + 32 <= |data|
  {
    BeValue(data[start..start + 32])
  }

  /** A word is below 2^256. */
  lemma WordBound(data: seq<byte>, start: nat)
    requires start + 32 <= |data|
    ensures Word(data, start) < WordLimit
  {
    Pow256Word();
    assert |data[start..start + 32]| == 32;
  }

  /** A 32-byte string read as a word at offset 0 is its own value. */
  lemma WholeWord(w: seq<byte>)
    requires |w| == 32
    ensures Word(w, 0) == BeValue(w)
  {
    assert w[0..32] == w;
  }

  /** `big.Int.Uint64` of a non-negative value: its low 64 bits. */
  function LowUint64(v: nat): (r: uint64)
    ensures v < U64Limit ==> r == v
    ensures (v - r) % U64Limit == 0
  {
    v % U64Limit
  }

  /** `big.Int.Int64` of a non-negative value: the low 64 bits read as two's complement. */
  function ToInt64(v: nat): (r: int)
    ensures -I64Limit <= r < I64Limit
    ensures (v - r) % U64Limit == 0
    ensures v < I64Limit ==> r == v
  {
    var low := v % U64Limit;
    if low < I64Limit then low else low - U64Limit
  }

  /** The result of a Go `int` (64-bit) addition or multiplication whose exact value is x. */
  function Wrap64(x: int): (r: int)
    ensures -I64Limit <= r < I64Limit
    ensures (x - r) % U64Limit == 0
    ensures -I64Limit <= x < I64Limit ==> r == x
  {
    (x + I64Limit) % U64Limit - I64Limit
  }
}
