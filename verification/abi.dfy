/** The hand-written contract-call codec: 32-byte argument words, static result
    tuples and the dynamic `uint256[]` tail, after the "Formal Specification of the
    Encoding" of the Solidity Contract ABI Specification. */
module Abi {
  import opened Results
  import opened Bytes

  /** A 20-byte account address (go-ethereum's common.Address). */
  type Address = s: seq<byte> | |s| == 20 witness Zeros(20)

  const ZeroAddress: Address := Zeros(20)

  datatype DecodeError =
    | TooShort(need: nat, got: nat)
    | OutputTooShort
    | InvalidOffset(offset: int)
    | NegativeLength(length: int)
    | LengthExceedsData(length: int)

  function Abs(v: int): nat {
    if v < 0 then -v else v
  }

  /** packAddress: twelve zero bytes, then the twenty address bytes. */
  function PackAddress(a: Address): (w: seq<byte>)
    ensures |w| == 32
    ensures forall i :: 0 <= i < 12 ==> w[i] == 0
    ensures AddressOfWord(w) == a
    ensures BeValue(w) == BeValue(a)
  {
    ZerosPrefixValue(12, a);
    Zeros(12) + a
  }

  /** An address read back from the low twenty bytes of a word. */
  function AddressOfWord(w: seq<byte>): Address
    requires |w| == 32
  {
    w[12..32]
  }

  /** packUint64: the value right-aligned in a zeroed 32-byte word. */
  function PackUint64(v: uint64): (w: seq<byte>)
    ensures |w| == 32
    ensures v < WordLimit && w == BeBytes(v, 32)
    ensures Word(w, 0) == v
  {
    Pow256Word();
    PadMinimalIsBeBytes(v, 32);
    var w := PadLeft(MinimalBytes(v), 32);
    WholeWord(w);
    w
  }

  /** Reading a packed uint64 back with SetBytes and Uint64 gives the value. */
  lemma PackUint64RoundTrip(v: uint64)
    ensures LowUint64(Word(PackUint64(v), 0)) == v
  {
  }

  /** `copy(word[32-len(b):], b)` is in range: the magnitude needs at most 32 bytes. */
  predicate FitsWord(v: int) {
    |MinimalBytes(Abs(v))| <= 32
  }

  lemma FitsWordIff(v: int)
    ensures FitsWord(v) <==> Abs(v) < WordLimit
  {
    Pow256Word();
    MinimalBytesFit(Abs(v), 32);
  }

  /** packUint256: big.Int.Bytes is the magnitude, so a negative value is packed as |v|. */
  function PackUint256(v: int): (w: seq<byte>)
    requires FitsWord(v)
    ensures |w| == 32
    ensures Abs(v) < WordLimit
    ensures BeValue(w) == Abs(v)
  {
    FitsWordIff(v);
    Pow256Word();
    PadMinimalIsBeBytes(Abs(v), 32);
    PadLeft(MinimalBytes(Abs(v)), 32)
  }

  /** A word inside the right part of a concatenation. */
  lemma WordOfSuffix(a: seq<byte>, b: seq<byte>, k: nat)
    requires k + 32 <= |b|
    ensures Word(a + b, |a| + k) == Word(b, k)
  {
    assert (a + b)[|a| + k..|a| + k + 32] == b[k..k + 32];
  }

  /** A word inside the left part of a concatenation. */
  lemma WordOfPrefix(a: seq<byte>, b: seq<byte>, k: nat)
    requires k + 32 <= |a|
    ensures Word(a + b, k) == Word(a, k)
  {
    assert (a + b)[k..k + 32] == a[k..k + 32];
  }

  /** splitWords: the first n words of a static result tuple; trailing bytes are ignored. */
  function SplitWords(data: seq<byte>, n: nat): (r: Result<seq<nat>, DecodeError>)
    ensures r.Err? <==> |data| < 32 * n
    ensures r.Err? ==> r.error == TooShort(32 * n, |data|)
    ensures r.Ok? ==> |r.value| == n
    ensures r.Ok? ==> forall i :: 0 <= i < n ==> r.value[i] == Word(data, 32 * i)
  {
    if |data| < 32 * n then Err(TooShort(32 * n, |data|))
    else Ok(seq(n, i requires 0 <= i < n => Word(data, 32 * i)))
  }

  predicate AllWords(ws: seq<nat>) {
    forall i :: 0 <= i < |ws| ==> ws[i] < WordLimit
  }

  /** data is exactly the words ws, one 32-byte big-endian word each, in order. */
  predicate HoldsWords(data: seq<byte>, ws: seq<nat>) {
    && |data| == 32 * |ws|
    && forall i :: 0 <= i < |ws| ==> Word(data, 32 * i) == ws[i]
  }

  /** The static encoding of a tuple of uint256 values: one big-endian word each, in order. */
  function JoinWords(ws: seq<nat>): (data: seq<byte>)
    requires AllWords(ws)
    ensures HoldsWords(data, ws)
  {
    if |ws| == 0 then []
    else
      Pow256Word();
      var head := BeBytes(ws[0], 32);
      var rest := JoinWords(ws[1..]);
      ConsWords(head, rest, ws);
      head + rest
  }

  /** One more word in front of an encoded tuple encodes the longer tuple. */
  lemma ConsWords(head: seq<byte>, rest: seq<byte>, ws: seq<nat>)
    requires |ws| > 0 && |head| == 32 && BeValue(head) == ws[0] && HoldsWords(rest, ws[1..])
    ensures HoldsWords(head + rest, ws)
  {
    var data := head + rest;
    assert data[0..32] == head;
    forall i | 1 <= i < |ws|
      ensures Word(data, 32 * i) == ws[i]
    {
      WordOfSuffix(head, rest, 32 * (i - 1));
    }
  }

  /** Word i of an encoded tuple that follows a head of any length. */
  lemma WordAfterHead(head: seq<byte>, body: seq<byte>, ws: seq<nat>, i: nat, at: nat)
    requires HoldsWords(body, ws) && i < |ws| && at == |head| + 32 * i
    ensures Word(head + body, at) == ws[i]
  {
    WordOfSuffix(head, body, 32 * i);
  }

  /** Splitting an encoded tuple, whatever follows it, recovers the tuple. */
  lemma SplitJoinRoundTrip(ws: seq<nat>, extra: seq<byte>)
    requires AllWords(ws)
    ensures SplitWords(JoinWords(ws) + extra, |ws|) == Ok(ws)
  {
    var enc := JoinWords(ws);
    var data := enc + extra;
    var r := SplitWords(data, |ws|);
    forall i | 0 <= i < |ws|
      ensures r.value[i] == ws[i]
    {
      WordOfPrefix(enc, extra, 32 * i);
    }
    assert r.value == ws;
  }

  /** Bytes beyond the n words do not change the decoded words. */
  lemma SplitWordsIgnoresTail(data: seq<byte>, extra: seq<byte>, n: nat)
    requires |data| >= 32 * n
    ensures SplitWords(data + extra, n) == SplitWords(data, n)
  {
    var a, b := SplitWords(data + extra, n), SplitWords(data, n);
    forall i | 0 <= i < n
      ensures a.value[i] == b.value[i]
    {
      WordOfPrefix(data, extra, 32 * i);
    }
    assert a.value == b.value;
  }

  /** The declared element count of a dynamic array whose length word starts at `offset`
      (big.Int.Int64 of the word: values of 2^63 and above read as negative). */
  function ArrayLength(data: seq<byte>, offset: nat): int
    requires offset + 32 <= |data|
  {
    ToInt64(Word(data, offset))
  }

  /** decodeUint256Array, with its bounds checks evaluated exactly. Each element is
      narrowed to its low 64 bits, as big.Int.Uint64 does. */
  function DecodeUint256Array(data: seq<byte>, offset: int): (r: Result<seq<uint64>, DecodeError>)
    ensures r.Ok? <==>
              && 0 <= offset && offset + 32 <= |data|
              && 0 <= ArrayLength(data, offset)
              && offset + 32 + 32 * ArrayLength(data, offset) <= |data|
    ensures !(0 <= offset && offset + 32 <= |data|) ==> r == Err(InvalidOffset(offset))
    ensures 0 <= offset && offset + 32 <= |data| && ArrayLength(data, offset) < 0 ==>
              r == Err(NegativeLength(ArrayLength(data, offset)))
    ensures 0 <= offset && offset + 32 <= |data| && 0 <= ArrayLength(data, offset)
            && offset + 32 + 32 * ArrayLength(data, offset) > |data| ==>
              r == Err(LengthExceedsData(ArrayLength(data, offset)))
    ensures r.Ok? ==> |r.value| == ArrayLength(data, offset)
    ensures r.Ok? ==> forall i :: 0 <= i < |r.value| ==>
                        r.value[i] == LowUint64(Word(data, offset + 32 + 32 * i))
  {
    if offset < 0 || offset + 32 > |data| then Err(InvalidOffset(offset))
    else
      var length := ArrayLength(data, offset);
      if length < 0 then Err(NegativeLength(length))
      else if offset + 32 + 32 * length > |data| then Err(LengthExceedsData(length))
      else
        var ids: seq<uint64> := seq(length, i requires 0 <= i < length => LowUint64(Word(data, offset + 32 + 32 * i)));
        Ok(ids)
  }

  /** The tail of a dynamic `uint256[]`: a length word, then one word per element. */
  function EncodeUint256Array(ids: seq<uint64>): (enc: seq<byte>)
    requires |ids| < I64Limit
    ensures |enc| == 32 + 32 * |ids|
  {
    Pow256Word();
    BeBytes(|ids|, 32) + JoinWords(ids)
  }

  /** Decoding an encoded array at the offset where it was placed recovers the elements. */
  lemma ArrayRoundTrip(prefix: seq<byte>, ids: seq<uint64>, extra: seq<byte>)
    requires |ids| < I64Limit
    ensures DecodeUint256Array(prefix + EncodeUint256Array(ids) + extra, |prefix|) == Ok(ids)
  {
    Pow256Word();
    var lengthWord := BeBytes(|ids|, 32);
    var body := JoinWords(ids);
    Regroup(prefix, lengthWord, body, extra);
    DecodeLaidOutArray(prefix, lengthWord, body, extra, ids);
  }

  lemma Regroup(prefix: seq<byte>, a: seq<byte>, b: seq<byte>, extra: seq<byte>)
    ensures prefix + (a + b) + extra == prefix + (a + (b + extra))
  {
  }

  /** The array decoder on a length word and encoded elements placed after any prefix. */
  lemma DecodeLaidOutArray(prefix: seq<byte>, lengthWord: seq<byte>, body: seq<byte>, extra: seq<byte>,
                           ids: seq<uint64>)
    requires |ids| < I64Limit && |lengthWord| == 32 && BeValue(lengthWord) == |ids| && HoldsWords(body, ids)
    ensures DecodeUint256Array(prefix + (lengthWord + (body + extra)), |prefix|) == Ok(ids)
  {
    var data := prefix + (lengthWord + (body + extra));
    LaidOutWord(prefix, lengthWord, body + extra);
    assert ArrayLength(data, |prefix|) == |ids|;
    var r := DecodeUint256Array(data, |prefix|);
    forall i | 0 <= i < |ids|
      ensures r.value[i] == ids[i]
    {
      LaidOutElement(prefix, lengthWord, body, extra, ids, i);
    }
    assert r.value == ids;
  }

  /** The word at the offset where the length word was placed. */
  lemma LaidOutWord(prefix: seq<byte>, lengthWord: seq<byte>, rest: seq<byte>)
    requires |lengthWord| == 32
    ensures Word(prefix + (lengthWord + rest), |prefix|) == BeValue(lengthWord)
  {
    WordOfSuffix(prefix, lengthWord + rest, 0);
    WordOfPrefix(lengthWord, rest, 0);
    assert lengthWord[0..32] == lengthWord;
  }

  /** Element i of an array laid out after a prefix and its length word. */
  lemma LaidOutElement(prefix: seq<byte>, lengthWord: seq<byte>, body: seq<byte>, extra: seq<byte>,
                       ids: seq<nat>, i: nat)
    requires |lengthWord| == 32 && HoldsWords(body, ids) && i < |ids|
    ensures Word(prefix + (lengthWord + (body + extra)), |prefix| + 32 + 32 * i) == ids[i]
  {
    WordOfPrefix(body, extra, 32 * i);
    WordOfSuffix(lengthWord, body + extra, 32 * i);
    WordOfSuffix(prefix, lengthWord + (body + extra), 32 + 32 * i);
  }

  /** A buffer that ends exactly after the last element decodes; one byte less does not. */
  lemma ArrayExactFit(data: seq<byte>, offset: nat)
    requires offset + 32 <= |data|
    requires Word(data, offset) < I64Limit
    requires |data| == offset + 32 + 32 * Word(data, offset)
    ensures DecodeUint256Array(data, offset).Ok?
    ensures |DecodeUint256Array(data, offset).value| == Word(data, offset)
    ensures DecodeUint256Array(data[..|data| - 1], offset).Err?
  {
    var short := data[..|data| - 1];
    if offset + 32 <= |short| {
      assert short[offset..offset + 32] == data[offset..offset + 32];
    }
  }

  /** What decodeUint256Array does as written, where a Go `int` expression wraps at 64 bits. */
  datatype ArrayOutcome = Rejected(error: DecodeError) | Decoded(ids: seq<uint64>) | Panics

  /** decodeUint256Array as written: `offset+32` and `offset + 32 + int(length)*32` are
      computed in wrapping 64-bit arithmetic, so an overflowing sum can pass a check and the
      following slice or `make` then panics. The slice length is a Go `int` too. */
  function DecodeUint256ArrayWrapping(data: seq<byte>, offset: int): (r: ArrayOutcome)
    requires -I64Limit <= offset < I64Limit
    requires |data| < I64Limit
    ensures r.Decoded? ==> DecodeUint256Array(data, offset) == Ok(r.ids)
    ensures r.Rejected? ==> DecodeUint256Array(data, offset) == Err(r.error)
    ensures r.Panics? ==> DecodeUint256Array(data, offset).Err?
    ensures DecodeUint256Array(data, offset).Ok? ==> r.Decoded?
  {
    if offset < 0 || Wrap64(offset + 32) > |data| then Rejected(InvalidOffset(offset))
    else if offset + 32 > |data| then Panics
    else
      var length := ArrayLength(data, offset);
      if length < 0 then Rejected(NegativeLength(length))
      else if Wrap64(Wrap64(offset + 32) + Wrap64(length * 32)) > |data| then Rejected(LengthExceedsData(length))
      else if offset + 32 + length * 32 > |data| then Panics
      else
        var ids: seq<uint64> := seq(length, i requires 0 <= i < length => LowUint64(Word(data, offset + 32 + 32 * i)));
        Decoded(ids)
  }

  /** The count 2^59 + 1: times 32 it is 2^64 + 32, which wraps to 32 in 64 bits. */
  const WrappingCount: nat := 0x0800_0000_0000_0001

  /** A 64-byte buffer whose array, at offset 0, declares WrappingCount elements. */
  function WrappingCountBuffer(): (data: seq<byte>)
    ensures |data| == 64 && Word(data, 0) == WrappingCount
  {
    var one := Zeros(6) + [1];
    var low := [0x08] + one;
    ZerosPrefixValue(6, [1]);
    BeValueAppend([0x08], one);
    assert Pow256(7) == 0x0100_0000_0000_0000;
    assert BeValue(low) == WrappingCount;
    var w := Zeros(24) + low;
    ZerosPrefixValue(24, low);
    var data := w + Zeros(32);
    assert data[0..32] == w;
    data
  }

  /** The buffer passes the as-written size check, because the wrapped byte count is 32,
      and then panics; the exact check rejects it. */
  lemma WrappedLengthPanics()
    ensures DecodeUint256ArrayWrapping(WrappingCountBuffer(), 0) == Panics
    ensures DecodeUint256Array(WrappingCountBuffer(), 0) == Err(LengthExceedsData(WrappingCount))
  {
    var data := WrappingCountBuffer();
    assert ArrayLength(data, 0) == WrappingCount;
    assert Wrap64(WrappingCount * 32) == 32;
  }

  /** An offset of 2^63 - 1 makes `offset+32` wrap negative, so the offset check passes on
      an empty buffer and the slice panics; the exact check rejects it. */
  lemma WrappedOffsetPanics()
    ensures DecodeUint256ArrayWrapping([], I64Limit - 1) == Panics
    ensures DecodeUint256Array([], I64Limit - 1) == Err(InvalidOffset(I64Limit - 1))
  {
    assert Wrap64(I64Limit - 1 + 32) == 31 - I64Limit;
  }

  /** The number of bytes Go's UTF-8 encoding gives the character c. */
  function RuneLen(c: char): (n: nat)
    ensures 1 <= n <= 4
    ensures n == 1 <==> (c as int) < 0x80
  {
    if (c as int) < 0x80 then 1
    else if (c as int) < 0x800 then 2
    else if (c as int) < 0x1_0000 then 3
    else 4
  }

  /** `len(s)` of a Go string: the length of its UTF-8 encoding in bytes. */
  function Utf8Len(s: string): (n: nat)
    ensures |s| <= n <= 4 * |s|
    ensures n == |s| <==> forall k :: 0 <= k < |s| ==> (s[k] as int) < 0x80
  {
    if |s| == 0 then 0
    else
      var n := RuneLen(s[0]) + Utf8Len(s[1..]);
      assert forall k :: 1 <= k < |s| ==> s[k] == s[1..][k - 1];
      n
  }

  /** The byte length of a concatenation is the sum of the byte lengths. */
  lemma {:induction false} Utf8LenAppend(a: string, b: string)
    ensures Utf8Len(a + b) == Utf8Len(a) + Utf8Len(b)
    decreases |a|
  {
    if |a| > 0 {
      assert (a + b)[0] == a[0] && (a + b)[1..] == a[1..] + b;
      Utf8LenAppend(a[1..], b);
    } else {
      assert a + b == b;
    }
  }

  /** k copies of one character take k times its byte length. */
  lemma {:induction false} Utf8LenRepeat(c: char, k: nat)
    ensures Utf8Len(seq(k, _ => c)) == k * RuneLen(c)
    decreases k
  {
    if k > 0 {
      assert seq(k, _ => c)[1..] == seq(k - 1, _ => c);
      Utf8LenRepeat(c, k - 1);
    }
  }

  /** isHexAddress: `len(s) == 42` in UTF-8 bytes and a "0x" or "0X" prefix; the characters
      after the prefix are not inspected. Since '0', 'x' and 'X' are one byte each, the byte
      prefix test is the same as the character prefix test. */
  predicate IsHexAddress(s: string)
    ensures IsHexAddress(s) ==> 12 <= |s| <= 42
  {
    Utf8Len(s) == 42 && |s| >= 2 && (s[..2] == "0x" || s[..2] == "0X")
  }

  /** Anything of forty UTF-8 bytes after the prefix passes, hex digits or not; any other
      byte length fails. */
  lemma HexAddressIgnoresDigits(t: string, s: string)
    requires Utf8Len(t) == 40
    requires Utf8Len(s) != 42
    ensures IsHexAddress("0x" + t) && IsHexAddress("0X" + t)
    ensures !IsHexAddress(s)
  {
    Utf8LenAppend("0x", t);
    Utf8LenAppend("0X", t);
    assert ("0x" + t)[..2] == "0x";
    assert ("0X" + t)[..2] == "0X";
  }

  /** 'é' (U+00E9): two bytes in UTF-8. */
  const EAcute: char := '\U{E9}'

  /** The check counts bytes, not characters: twenty two-byte characters after "0x" pass,
      and forty of them fail. */
  lemma HexAddressCountsBytes()
    ensures IsHexAddress("0x" + seq(20, _ => EAcute))
    ensures !IsHexAddress("0x" + seq(40, _ => EAcute))
  {
    Utf8LenRepeat(EAcute, 20);
    Utf8LenRepeat(EAcute, 40);
    HexAddressIgnoresDigits(seq(20, _ => EAcute), "0x" + seq(40, _ => EAcute));
    Utf8LenAppend("0x", seq(40, _ => EAcute));
  }
}
