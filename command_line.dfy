/**
 * What the two example programs share when they read `argv`: the
 * `--port=` prefix and std::from_chars reading a decimal `unsigned short`.
 */
module CommandLine {
  import opened Ascii

  /** The arguments after the program name, `argv[1..argc]`. */
  function Arguments(argv: seq<string>): seq<string>
  {
    if argv == [] then [] else argv[1..]
  }

  const PortArg: string := "--port="

  /** One past the largest `unsigned short`. */
  const UShortLimit: nat := 65536

  /** The length of the longest run of decimal digits at the front of `s`. */
  function LeadingDigits(s: string): (n: nat)
    ensures n <= |s|
    ensures forall k :: 0 <= k < n ==> IsDigit(s[k])
    ensures n < |s| ==> !IsDigit(s[n])
  {
    if s == [] || !IsDigit(s[0]) then 0 else 1 + LeadingDigits(s[1..])
  }

  predicate AllDigits(d: string) { forall k :: 0 <= k < |d| ==> IsDigit(d[k]) }

  /** The number a string of decimal digits denotes, most significant first. */
  function DecimalValue(d: string): nat
    requires AllDigits(d)
  {
    if d == [] then 0
    else DecimalValue(d[..|d| - 1]) * 10 + (d[|d| - 1] as int - '0' as int)
  }

  /**
   * std::from_chars(first, last, value) with an `unsigned short` value, base
   * 10: the digits at the front are read and whatever follows them is
   * ignored; no digit at all (a sign included) and a number that does not fit
   * both report an error, and then no value is produced.
   */
  function FromChars(s: string): (r: Option<nat>)
    ensures r.Some? ==> r.value < UShortLimit
    ensures r.Some? ==> |s| > 0 && IsDigit(s[0])
  {
    var n := LeadingDigits(s);
    if n == 0 then None
    else
      var v := DecimalValue(s[..n]);
      if v < UShortLimit then Some(v) else None
  }

  /** The value of a `--port=` argument, when it starts with the prefix and its number parses. */
  function PortValue(arg: string): (r: Option<nat>)
    ensures r.Some? ==> PortArg <= arg && r.value < UShortLimit
  {
    if PortArg <= arg then FromChars(arg[|PortArg|..]) else None
  }

  /** The decimal spelling of `n`, without leading zeros. */
  function DecimalString(n: nat): (d: string)
    ensures |d| > 0 && AllDigits(d)
    ensures |d| > 1 ==> d[0] != '0'
  {
    var last := ('0' as int + n % 10) as char;
    if n < 10 then [last] else DecimalString(n / 10) + [last]
  }

  lemma {:induction false} DecimalValueOfString(n: nat)
    ensures DecimalValue(DecimalString(n)) == n
  {
    var d := DecimalString(n);
    if n >= 10 {
      DecimalValueOfString(n / 10);
      assert d[..|d| - 1] == DecimalString(n / 10);
    }
  }

  lemma {:induction false} LeadingDigitsOf(d: string, rest: string)
    requires AllDigits(d)
    requires rest == [] || !IsDigit(rest[0])
    ensures LeadingDigits(d + rest) == |d|
  {
    if d != [] {
      assert (d + rest)[1..] == d[1..] + rest;
      LeadingDigitsOf(d[1..], rest);
    } else {
      assert d + rest == rest;
    }
  }

  /**
   * A port spelt in decimal is read back, whatever non-digit text follows it;
   * a number too large for an `unsigned short` is rejected.
   */
  lemma FromCharsDecimal(n: nat, rest: string)
    requires rest == [] || !IsDigit(rest[0])
    ensures FromChars(DecimalString(n) + rest) == if n < UShortLimit then Some(n) else None
  {
    var d := DecimalString(n);
    LeadingDigitsOf(d, rest);
    assert (d + rest)[..|d|] == d;
    DecimalValueOfString(n);
  }

  lemma {:induction false} DecimalValueLeadingZero(d: string)
    requires AllDigits(d)
    ensures DecimalValue("0" + d) == DecimalValue(d)
  {
    if d != [] {
      assert ("0" + d)[..|"0" + d| - 1] == "0" + d[..|d| - 1];
      DecimalValueLeadingZero(d[..|d| - 1]);
    }
  }

  /** Leading zeros do not change the number read. */
  lemma FromCharsLeadingZero(s: string)
    ensures FromChars("0" + s) == if |s| > 0 && IsDigit(s[0]) then FromChars(s) else Some(0)
  {
    assert ("0" + s)[1..] == s;
    var n := LeadingDigits(s);
    assert ("0" + s)[..n + 1] == "0" + s[..n];
    DecimalValueLeadingZero(s[..n]);
  }
}
