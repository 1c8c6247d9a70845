/**
 * `parse_u64`: strict decimal parsing of an unsigned 64-bit value on top of
 * `std::from_chars` (C++17 [charconv.from.chars], base 10, unsigned target:
 * no sign, no leading whitespace, no base prefix; leading zeros allowed).
 * Also `std::to_string` for unsigned values, used in the reader's messages.
 */
module Unsigned {
  import opened Wrappers

  const U64_MAX: nat := 0xFFFF_FFFF_FFFF_FFFF

  newtype u64 = x: int | 0 <= x <= 0xFFFF_FFFF_FFFF_FFFF

  predicate IsDigit(c: char)
  {
    '0' <= c <= '9'
  }

  predicate AllDigits(s: string)
  {
    forall k :: 0 <= k < |s| ==> IsDigit(s[k])
  }

  function DigitValue(c: char): (d: nat)
    requires IsDigit(c)
    ensures d < 10
  {
    (c as int) - ('0' as int)
  }

  function DigitChar(d: nat): (c: char)
    requires d < 10
    ensures IsDigit(c) && DigitValue(c) == d
  {
    ('0' as int + d) as char
  }

  /** The value of a string of decimal digits, most significant first. */
  function DecimalValue(ds: string): nat
    requires AllDigits(ds)
  {
    if ds == [] then 0
    else 10 * DecimalValue(ds[..|ds| - 1]) + DigitValue(ds[|ds| - 1])
  }

  /** Length of the longest prefix of `s` made of digits. */
  function DigitRun(s: string): (n: nat)
    ensures n <= |s| && AllDigits(s[..n])
    ensures n < |s| ==> !IsDigit(s[n])
  {
    if s == [] || !IsDigit(s[0]) then 0
    else
      var n := 1 + DigitRun(s[1..]);
      assert forall k :: 1 <= k < n ==> s[..n][k] == s[1..][..n - 1][k - 1];
      n
  }

  datatype Errc = NoError | InvalidArgument | ResultOutOfRange

  /** What from_chars returns: how far it read, and its error code. */
  datatype FromCharsResult = FromCharsResult(ptr: nat, ec: Errc)

  /**
   * `std::from_chars(first, last, value)` for an unsigned 64-bit value in
   * base 10: the result, and the value it leaves in `value` (unchanged unless
   * the parse succeeds).
   */
  function FromChars(s: string, value: u64): (res: (FromCharsResult, u64))
    ensures res.0.ptr <= |s| && AllDigits(s[..res.0.ptr])
    ensures res.0.ptr < |s| ==> !IsDigit(s[res.0.ptr])
    ensures res.0.ec == InvalidArgument <==> res.0.ptr == 0
    ensures res.0.ec == ResultOutOfRange <==> 0 < res.0.ptr && DecimalValue(s[..res.0.ptr]) > U64_MAX
    ensures res.0.ec == NoError ==> res.1 as int == DecimalValue(s[..res.0.ptr])
    ensures res.0.ec != NoError ==> res.1 == value
  {
    var n := DigitRun(s);
    if n == 0 then (FromCharsResult(0, InvalidArgument), value)
    else
      var v := DecimalValue(s[..n]);
      if v > U64_MAX then (FromCharsResult(n, ResultOutOfRange), value)
      else (FromCharsResult(n, NoError), v as u64)
  }

  /**
   * `parse_u64`: succeeds exactly for a non-empty all-digit string whose value
   * fits in 64 bits, and then yields that value.
   */
  function ParseU64(s: string): (r: Option<u64>)
    ensures r.Some? <==> |s| > 0 && AllDigits(s) && DecimalValue(s) <= U64_MAX
    ensures r.Some? ==> r.value as int == DecimalValue(s)
  {
    var (res, tmp) := FromChars(s, 0);
    assert s[..|s|] == s;
    if res.ec == NoError && res.ptr == |s| then Some(tmp) else None
  }

  /** A character that is not a digit anywhere in the string makes the parse fail. */
  lemma RejectsNonDigit(s: string, k: nat)
    requires k < |s| && !IsDigit(s[k])
    ensures FromChars(s, 0).0.ptr <= k
    ensures ParseU64(s) == None
  {
    var n := DigitRun(s);
    assert forall j :: 0 <= j < n ==> s[..n][j] == s[j];
  }

  /** `std::to_string` of an unsigned value: its shortest decimal form. */
  function ToDecimal(n: nat): (s: string)
    ensures |s| > 0 && AllDigits(s)
    ensures DecimalValue(s) == n
    ensures |s| > 1 ==> s[0] != '0'
  {
    if n < 10 then [DigitChar(n)]
    else
      var prefix := ToDecimal(n / 10);
      var s := prefix + [DigitChar(n % 10)];
      assert s[..|s| - 1] == prefix;
      s
  }

  /** Parsing what to_string printed gives the value back. */
  lemma ParseToDecimal(n: nat)
    requires n <= U64_MAX
    ensures ParseU64(ToDecimal(n)) == Some(n as u64)
  {
  }
}
