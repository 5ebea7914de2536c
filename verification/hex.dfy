/** Lower-case hexadecimal rendering of call data (`bytesToHex`) and its inverse. */
module Hex {
  import opened Results
  import opened Bytes

  const HexAlphabet: string := "0123456789abcdef"

  predicate IsLowerHexDigit(c: char) {
    ('0' <= c <= '9') || ('a' <= c <= 'f')
  }

  function NibbleChar(n: nat): (c: char)
    requires n < 16
    ensures c == HexAlphabet[n]
    ensures IsLowerHexDigit(c)
    ensures NibbleValue(c) == n
  {
    if n < 10 then ('0' as int + n) as char else ('a' as int + n - 10) as char
  }

  function NibbleValue(c: char): (n: nat)
    requires IsLowerHexDigit(c)
    ensures n < 16
  {
    if c <= '9' then c as int - '0' as int else c as int - 'a' as int + 10
  }

  /** Two characters per byte: the high nibble (`v >> 4`), then the low nibble (`v & 0x0f`). */
  function HexDigits(b: seq<byte>): (r: string)
    ensures |r| == 2 * |b|
    ensures forall i :: 0 <= i < |b| ==> r[2 * i] == NibbleChar(b[i] / 16) && r[2 * i + 1] == NibbleChar(b[i] % 16)
  {
    if |b| == 0 then ""
    else
      var rest := HexDigits(b[1..]);
      var r := [NibbleChar(b[0] / 16), NibbleChar(b[0] % 16)] + rest;
      ShiftPair(b, rest, r);
      r
  }

  /** Placing one byte's pair in front of the digits of the rest. */
  lemma ShiftPair(b: seq<byte>, rest: string, r: string)
    requires |b| > 0 && |rest| == 2 * (|b| - 1)
    requires forall i :: 0 <= i < |b| - 1 ==> rest[2 * i] == NibbleChar(b[1..][i] / 16) && rest[2 * i + 1] == NibbleChar(b[1..][i] % 16)
    requires r == [NibbleChar(b[0] / 16), NibbleChar(b[0] % 16)] + rest
    ensures forall i :: 0 <= i < |b| ==> r[2 * i] == NibbleChar(b[i] / 16) && r[2 * i + 1] == NibbleChar(b[i] % 16)
  {
    forall i | 1 <= i < |b|
      ensures r[2 * i] == NibbleChar(b[i] / 16) && r[2 * i + 1] == NibbleChar(b[i] % 16)
    {
      var j := i - 1;
      assert b[1..][j] == b[i];
      assert r[2 * i] == rest[2 * j] && r[2 * i + 1] == rest[2 * j + 1];
    }
  }

  /** bytesToHex: "0x" followed by two lower-case hex digits per byte. */
  function BytesToHex(b: seq<byte>): (r: string)
    ensures |r| == 2 + 2 * |b|
    ensures r[..2] == "0x"
    ensures forall k :: 2 <= k < |r| ==> IsLowerHexDigit(r[k])
    ensures forall i :: 0 <= i < |b| ==> r[2 + 2 * i] == NibbleChar(b[i] / 16) && r[3 + 2 * i] == NibbleChar(b[i] % 16)
  {
    var digits := HexDigits(b);
    var r := "0x" + digits;
    assert forall k :: 2 <= k < |r| ==> r[k] == digits[k - 2];
    assert forall k :: 0 <= k < |digits| ==> IsLowerHexDigit(digits[k]) by {
      forall k | 0 <= k < |digits| ensures IsLowerHexDigit(digits[k]) {
        var i := k / 2;
        if k % 2 == 0 {
          assert digits[2 * i] == NibbleChar(b[i] / 16);
        } else {
          assert digits[2 * i + 1] == NibbleChar(b[i] % 16);
        }
      }
    }
    r
  }

  /** Decodes a string of lower-case hex digit pairs; None on odd length or a foreign character. */
  function DecodeHexDigits(s: string): (r: Option<seq<byte>>)
    ensures r.Some? ==> 2 * |r.value| == |s|
    decreases |s|
  {
    if |s| == 0 then Some([])
    else if |s| < 2 || !IsLowerHexDigit(s[0]) || !IsLowerHexDigit(s[1]) then None
    else
      match DecodeHexDigits(s[2..])
      case None => None
      case Some(rest) => Some([NibbleValue(s[0]) * 16 + NibbleValue(s[1])] + rest)
  }

  /** Reads call data back: "0x" and lower-case hex digit pairs, as bytesToHex writes them. */
  function HexToBytes(s: string): Option<seq<byte>>
  {
    if |s| < 2 || s[..2] != "0x" then None else DecodeHexDigits(s[2..])
  }

  lemma {:induction false} DecodeHexDigitsRoundTrip(b: seq<byte>)
    ensures DecodeHexDigits(HexDigits(b)) == Some(b)
  {
    if |b| > 0 {
      var s := HexDigits(b);
      assert s[2..] == HexDigits(b[1..]);
      DecodeHexDigitsRoundTrip(b[1..]);
      var hi, lo := b[0] / 16, b[0] % 16;
      assert s[0] == NibbleChar(hi) && s[1] == NibbleChar(lo);
      assert NibbleValue(s[0]) == hi && NibbleValue(s[1]) == lo;
      assert hi * 16 + lo == b[0];
      assert b == [b[0]] + b[1..];
    }
  }

  /** Rendering bytes and reading them back yields the same bytes. */
  lemma HexRoundTrip(b: seq<byte>)
    ensures HexToBytes(BytesToHex(b)) == Some(b)
  {
    var r := BytesToHex(b);
    assert r[2..] == HexDigits(b);
    DecodeHexDigitsRoundTrip(b);
  }

  /** Distinct call data renders to distinct strings. */
  lemma BytesToHexInjective(a: seq<byte>, b: seq<byte>)
    requires BytesToHex(a) == BytesToHex(b)
    ensures a == b
  {
    HexRoundTrip(a);
    HexRoundTrip(b);
  }
}
