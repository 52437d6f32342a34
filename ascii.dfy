/**
 * Character classes of the "C" locale, as used by <cctype> on a byte string.
 * A `char` of the model stands for one byte of a `std::string`.
 */
module Ascii {

  datatype Option<+T> = None | Some(value: T)

  predicate IsDigit(c: char) { '0' <= c <= '9' }
  predicate IsUpper(c: char) { 'A' <= c <= 'Z' }
  predicate IsLower(c: char) { 'a' <= c <= 'z' }

  /** std::isalnum in the "C" locale. */
  predicate IsAlnum(c: char) { IsDigit(c) || IsUpper(c) || IsLower(c) }

  /** A hexadecimal digit of either case, as std::from_chars accepts in base 16. */
  predicate IsHexDigit(c: char) { IsDigit(c) || 'a' <= c <= 'f' || 'A' <= c <= 'F' }

  /** A `char` that stands for one byte of a std::string. */
  predicate IsByte(c: char) { c as int < 256 }

  predicate IsByteString(s: string) { forall k :: 0 <= k < |s| ==> IsByte(s[k]) }

  /** std::tolower in the "C" locale. */
  function ToLower(c: char): (r: char)
    ensures !IsUpper(r)
    ensures IsUpper(c) ==> IsLower(r) && r as int == c as int + 32
    ensures !IsUpper(c) ==> r == c
  {
    if IsUpper(c) then (c as int + 32) as char else c
  }

  /** std::toupper in the "C" locale. */
  function ToUpper(c: char): (r: char)
    ensures !IsLower(r)
    ensures IsLower(c) ==> IsUpper(r) && r as int + 32 == c as int
    ensures !IsLower(c) ==> r == c
  {
    if IsLower(c) then (c as int - 32) as char else c
  }

  /** The value of a hexadecimal digit. */
  function HexValue(c: char): (v: nat)
    requires IsHexDigit(c)
    ensures v < 16
  {
    if IsDigit(c) then c as int - '0' as int
    else if 'a' <= c <= 'f' then c as int - 'a' as int + 10
    else c as int - 'A' as int + 10
  }

  /** The digit table of Uri::encode. */
  const HexLookup: string := "0123456789ABCDEF"

  /** Upper-case hexadecimal digit for a value below 16. */
  function HexDigit(v: nat): (c: char)
    requires v < 16
    ensures IsHexDigit(c) && !IsLower(c) && HexValue(c) == v
  {
    HexLookup[v]
  }

  /** Every character lowered, as the loop of Uri::insertScheme does. */
  function Lowercase(s: string): (r: string)
    ensures |r| == |s|
    ensures forall k :: 0 <= k < |s| ==> r[k] == ToLower(s[k])
    ensures forall k :: 0 <= k < |r| ==> !IsUpper(r[k])
  {
    seq(|s|, k requires 0 <= k < |s| => ToLower(s[k]))
  }

  predicate HasNoUpper(s: string) { forall k :: 0 <= k < |s| ==> !IsUpper(s[k]) }

  /** A string that Lowercase leaves alone is one without capitals. */
  lemma LowercaseFixed(s: string)
    requires HasNoUpper(s)
    ensures Lowercase(s) == s
  {
    assert forall k :: 0 <= k < |s| ==> Lowercase(s)[k] == s[k];
  }
}
