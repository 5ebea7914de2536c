/** Decimal strings at the system boundary: `parseBig` (strings.TrimSpace followed by
    big.Int.SetString in base 10) and its partner `big.Int.String()`. */
module Decimal {
  import opened Results

  datatype ParseError = EmptyString | NotDecimal(s: string)

  /** unicode.IsSpace: the Latin-1 spaces plus the Unicode White_Space characters. */
  predicate IsSpace(c: char) {
    var n := c as int;
    || n == 0x09 || n == 0x0A || n == 0x0B || n == 0x0C || n == 0x0D || n == 0x20
    || n == 0x85 || n == 0xA0 || n == 0x1680
    || (0x2000 <= n <= 0x200A)
    || n == 0x2028 || n == 0x2029 || n == 0x202F || n == 0x205F || n == 0x3000
  }

  predicate IsDigit(c: char) {
    '0' <= c <= '9'
  }

  predicate AllDigits(s: string) {
    forall i :: 0 <= i < |s| ==> IsDigit(s[i])
  }

  /** Removes leading white space: the result is a suffix, everything dropped is space,
      and the result does not start with space. */
  function TrimLeft(s: string): (r: string)
    ensures |r| <= |s| && r == s[|s| - |r|..]
    ensures forall k :: 0 <= k < |s| - |r| ==> IsSpace(s[k])
    ensures |r| > 0 ==> !IsSpace(r[0])
  {
    if |s| > 0 && IsSpace(s[0]) then TrimLeft(s[1..]) else s
  }

  /** Removes trailing white space: the result is a prefix, everything dropped is space,
      and the result does not end with space. */
  function TrimRight(s: string): (r: string)
    ensures |r| <= |s| && r == s[..|r|]
    ensures forall k :: |r| <= k < |s| ==> IsSpace(s[k])
    ensures |r| > 0 ==> !IsSpace(r[|r| - 1])
  {
    if |s| > 0 && IsSpace(s[|s| - 1]) then TrimRight(s[..|s| - 1]) else s
  }

  /** strings.TrimSpace. */
  function TrimSpace(s: string): (r: string)
    ensures |r| > 0 ==> !IsSpace(r[0]) && !IsSpace(r[|r| - 1])
    ensures |r| == 0 <==> forall k :: 0 <= k < |s| ==> IsSpace(s[k])
    ensures |s| > 0 && !IsSpace(s[0]) && !IsSpace(s[|s| - 1]) ==> r == s
  {
    var l := TrimLeft(s);
    var r := TrimRight(l);
    assert |l| > 0 ==> |r| > 0 && r[0] == l[0];
    r
  }

  function DigitValue(c: char): (d: nat)
    requires IsDigit(c)
    ensures d < 10
  {
    c as int - '0' as int
  }

  function DigitChar(d: nat): (c: char)
    requires d < 10
    ensures IsDigit(c) && DigitValue(c) == d
  {
    ('0' as int + d) as char
  }

  /** The value of a string of decimal digits, most significant first. */
  function DigitsValue(s: string): nat
    requires AllDigits(s)
  {
    if |s| == 0 then 0 else DigitsValue(s[..|s| - 1]) * 10 + DigitValue(s[|s| - 1])
  }

  /** The shape SetString(s, 10) accepts: an optional sign and at least one digit,
      with nothing else (no base prefix, no underscores, no surrounding space). */
  predicate IsDecimal(s: string) {
    var digits := if |s| > 0 && (s[0] == '+' || s[0] == '-') then s[1..] else s;
    |digits| > 0 && AllDigits(digits)
  }

  function DecimalValue(s: string): int
    requires IsDecimal(s)
  {
    if s[0] == '-' then -(DigitsValue(s[1..]) as int)
    else if s[0] == '+' then DigitsValue(s[1..])
    else DigitsValue(s)
  }

  /** parseBig: trims, rejects the empty string, then parses a signed decimal integer.
      A leading '-' is accepted: negative values are not rejected here. */
  function ParseBig(s: string): (r: Result<int, ParseError>)
    ensures r.Err? && r.error == EmptyString <==> forall k :: 0 <= k < |s| ==> IsSpace(s[k])
    ensures r.Ok? <==> IsDecimal(TrimSpace(s))
    ensures r.Ok? ==> r.value == DecimalValue(TrimSpace(s))
  {
    var t := TrimSpace(s);
    if t == "" then Err(EmptyString)
    else if IsDecimal(t) then Ok(DecimalValue(t))
    else Err(NotDecimal(t))
  }

  /** big.Int.String for a non-negative value: digits without leading zeros. */
  function FormatNat(n: nat): (r: string)
    ensures |r| > 0 && AllDigits(r)
    ensures DigitsValue(r) == n
    ensures |r| > 1 ==> r[0] != '0'
  {
    if n < 10 then [DigitChar(n)]
    else
      var init := FormatNat(n / 10);
      var r := init + [DigitChar(n % 10)];
      assert r[..|r| - 1] == init;
      r
  }

  /** big.Int.String: a '-' sign for negative values only, then the digits of the magnitude
      without leading zeros ("0" for zero, never "-0"). */
  function FormatInt(v: int): (r: string)
    ensures IsDecimal(r) && DecimalValue(r) == v
    ensures r[0] != '+'
    ensures r[0] == '-' <==> v < 0
    ensures var d := if v < 0 then r[1..] else r; |d| > 1 ==> d[0] != '0'
  {
    if v < 0 then
      var r := "-" + FormatNat(-v);
      assert r[1..] == FormatNat(-v);
      r
    else FormatNat(v)
  }

  /** Rendering an integer in decimal and parsing it back yields the integer. */
  lemma ParseFormatRoundTrip(v: int)
    ensures ParseBig(FormatInt(v)) == Ok(v)
  {
    var s := FormatInt(v);
    assert !IsSpace(s[0]) && !IsSpace(s[|s| - 1]);
  }

  /** big.Int.String of a decoded word: a decimal string that parses back to the value. */
  function DecimalOf(v: int): (s: string)
    ensures ParseBig(s) == Ok(v)
    ensures IsDecimal(s) && DecimalValue(s) == v
  {
    ParseFormatRoundTrip(v);
    FormatInt(v)
  }

  /** Two canonical renderings are equal only for equal values. */
  lemma FormatIntInjective(a: int, b: int)
    requires FormatInt(a) == FormatInt(b)
    ensures a == b
  {
    ParseFormatRoundTrip(a);
    ParseFormatRoundTrip(b);
  }

  /** Parsing a canonical decimal string and rendering the value gives the string back. */
  lemma {:induction false} FormatDigitsValue(s: string)
    requires |s| > 0 && AllDigits(s)
    requires |s| > 1 ==> s[0] != '0'
    ensures FormatNat(DigitsValue(s)) == s
  {
    if |s| > 1 {
      var init := s[..|s| - 1];
      assert AllDigits(init);
      assert init[0] == s[0];
      FormatDigitsValue(init);
      if DigitsValue(init) == 0 {
        FirstDigitZero(init);
      }
      assert DigitsValue(s) / 10 == DigitsValue(init);
      assert DigitsValue(s) % 10 == DigitValue(s[|s| - 1]);
      assert s == init + [s[|s| - 1]];
    }
  }

  /** A digit string with value zero starts with '0'. */
  lemma {:induction false} FirstDigitZero(s: string)
    requires |s| > 0 && AllDigits(s)
    requires DigitsValue(s) == 0
    ensures s[0] == '0'
  {
    if |s| > 1 {
      var init := s[..|s| - 1];
      assert AllDigits(init);
      FirstDigitZero(init);
    }
  }

  /** A string already in SetString's shape is left alone by trimming and parses to its value. */
  lemma ParseCanonical(s: string)
    requires IsDecimal(s)
    ensures ParseBig(s) == Ok(DecimalValue(s))
  {
    assert IsDigit(s[|s| - 1]);
    assert !IsSpace(s[0]);
    assert TrimSpace(s) == s;
  }
}
