/**
 * The text-level helpers of lsp/uri.cpp: the component scanners, the
 * percent-escape case normaliser and Uri::encode / Uri::decode.
 */
module UriText {
  import opened Ascii

  /*
   * Scanners
   */

  /** Characters the scheme scanner accepts: alphanumerics, '-', '.' and '+'.
      A digit is accepted in the first position too. */
  predicate IsSchemeChar(c: char) { IsAlnum(c) || c == '-' || c == '.' || c == '+' }

  /** Characters that end an authority, a path and a query. */
  const AuthorityStops: set<char> := {'/', '?', '#'}
  const PathStops: set<char> := {'?', '#'}
  const QueryStops: set<char> := {'#'}

  /** Length of the longest prefix made of scheme characters. */
  function SchemeLength(s: string): (n: nat)
    ensures n <= |s|
    ensures forall k :: 0 <= k < n ==> IsSchemeChar(s[k])
    ensures n < |s| ==> !IsSchemeChar(s[n])
  {
    if s == [] || !IsSchemeChar(s[0]) then 0 else 1 + SchemeLength(s[1..])
  }

  /** Length of the longest prefix that holds no character of `stops`. */
  function ScanUntil(s: string, stops: set<char>): (n: nat)
    ensures n <= |s|
    ensures forall k :: 0 <= k < n ==> s[k] !in stops
    ensures n < |s| ==> s[n] in stops
  {
    if s == [] || s[0] in stops then 0 else 1 + ScanUntil(s[1..], stops)
  }

  /** The 16-bit counter of the scanners: it wraps past 65535. */
  const U16Modulus: nat := 0x1_0000

  /** parseUriScheme: counts the leading scheme characters in a std::uint16_t. */
  method ParseUriScheme(uriStr: string) returns (len: nat)
    ensures len == SchemeLength(uriStr) % U16Modulus
    ensures |uriStr| < U16Modulus ==> len == SchemeLength(uriStr)
    ensures SchemeLength(uriStr) < U16Modulus ==> len == SchemeLength(uriStr)
  {
    len := 0;
    var i := 0;
    while i < |uriStr|
      invariant i <= |uriStr|
      invariant forall k :: 0 <= k < i ==> IsSchemeChar(uriStr[k])
      invariant len == i % U16Modulus
    {
      if !IsSchemeChar(uriStr[i]) {
        break;
      }
      len := (len + 1) % U16Modulus;
      i := i + 1;
    }
    assert i == SchemeLength(uriStr);
  }

  /** The loop shared by parseUriAuthority, parseUriPath and parseUriQuery:
      count characters in a std::uint16_t up to the first one in `stops`. */
  method CountUntil(str: string, stops: set<char>) returns (len: nat)
    ensures len == ScanUntil(str, stops) % U16Modulus
    ensures |str| < U16Modulus ==> len == ScanUntil(str, stops)
    ensures ScanUntil(str, stops) < U16Modulus ==> len == ScanUntil(str, stops)
  {
    len := 0;
    var i := 0;
    while i < |str|
      invariant i <= |str|
      invariant forall k :: 0 <= k < i ==> str[k] !in stops
      invariant len == i % U16Modulus
    {
      if str[i] in stops {
        break;
      }
      len := (len + 1) % U16Modulus;
      i := i + 1;
    }
    assert i == ScanUntil(str, stops);
  }

  /** parseUriAuthority: the authority ends at '/', '?' or '#'. */
  method ParseUriAuthority(uriAuthorityStr: string) returns (len: nat)
    ensures len == ScanUntil(uriAuthorityStr, AuthorityStops) % U16Modulus
    ensures |uriAuthorityStr| < U16Modulus ==> len == ScanUntil(uriAuthorityStr, AuthorityStops)
    ensures ScanUntil(uriAuthorityStr, AuthorityStops) < U16Modulus ==> len == ScanUntil(uriAuthorityStr, AuthorityStops)
  {
    len := CountUntil(uriAuthorityStr, AuthorityStops);
  }

  /** parseUriPath: the path ends at '?' or '#'. */
  method ParseUriPath(uriPathStr: string) returns (len: nat)
    ensures len == ScanUntil(uriPathStr, PathStops) % U16Modulus
    ensures |uriPathStr| < U16Modulus ==> len == ScanUntil(uriPathStr, PathStops)
    ensures ScanUntil(uriPathStr, PathStops) < U16Modulus ==> len == ScanUntil(uriPathStr, PathStops)
  {
    len := CountUntil(uriPathStr, PathStops);
  }

  /** parseUriQuery: the query ends at '#'. */
  method ParseUriQuery(uriQueryStr: string) returns (len: nat)
    ensures len == ScanUntil(uriQueryStr, QueryStops) % U16Modulus
    ensures |uriQueryStr| < U16Modulus ==> len == ScanUntil(uriQueryStr, QueryStops)
    ensures ScanUntil(uriQueryStr, QueryStops) < U16Modulus ==> len == ScanUntil(uriQueryStr, QueryStops)
  {
    len := CountUntil(uriQueryStr, QueryStops);
  }

  /** hasCharAt */
  predicate HasCharAt(str: string, idx: nat, c: char)
  {
    idx < |str| && str[idx] == c
  }

  /*
   * Case normalisation of percent escapes
   */

  /** The string after normalizeEncodedCase has run over all of it: scanning
      left to right, a '%' with at least two characters after it has those two
      upper-cased and the scan resumes after them. */
  function NormalizeCase(s: string): (r: string)
    ensures |r| == |s|
  {
    if s == [] then []
    else if s[0] == '%' && |s| >= 3 then ['%', ToUpper(s[1]), ToUpper(s[2])] + NormalizeCase(s[3..])
    else [s[0]] + NormalizeCase(s[1..])
  }

  predicate IsNormalized(s: string) { NormalizeCase(s) == s }

  /** Normalising only ever upper-cases characters in place. */
  lemma {:induction false} NormalizeOnlyUppercases(s: string)
    ensures forall k :: 0 <= k < |s| ==> NormalizeCase(s)[k] == s[k] || NormalizeCase(s)[k] == ToUpper(s[k])
  {
    if s == [] {
    } else if s[0] == '%' && |s| >= 3 {
      NormalizeOnlyUppercases(s[3..]);
      assert forall k :: 3 <= k < |s| ==> NormalizeCase(s)[k] == NormalizeCase(s[3..])[k - 3];
    } else {
      NormalizeOnlyUppercases(s[1..]);
      assert forall k :: 1 <= k < |s| ==> NormalizeCase(s)[k] == NormalizeCase(s[1..])[k - 1];
    }
  }

  /** Where normalizeEncodedCase stops: `first + count`, clipped to the end
      of the string. */
  function SpanEnd(first: nat, count: nat, size: nat): (end: nat)
    ensures end <= size
    ensures end == first + count || end == size
    ensures first + count <= size ==> end == first + count
  {
    if first + count < size then first + count else size
  }

  /** The scan of normalizeEncodedCase from position i up to `end`, on the
      string as it stands at that point. */
  function NormalizeSpan(str: string, i: nat, end: nat): (r: string)
    requires end <= |str|
    ensures |r| == |str|
    decreases end - i
  {
    if i >= end then str
    else if str[i] == '%' && i + 2 < end then
      NormalizeSpan(str[i + 1 := ToUpper(str[i + 1])][i + 2 := ToUpper(str[i + 2])], i + 3, end)
    else NormalizeSpan(str, i + 1, end)
  }

  /** normalizeEncodedCase, in place on a copy of the string. */
  method NormalizeEncodedCase(str: string, first: nat, count: nat) returns (r: string)
    ensures r == NormalizeSpan(str, first, SpanEnd(first, count, |str|))
  {
    var end := if first + count < |str| then first + count else |str|;
    r := str;
    var i := first;
    while i < end
      invariant end <= |r| == |str|
      invariant NormalizeSpan(r, i, end) == NormalizeSpan(str, first, end)
      decreases end - i
    {
      if r[i] == '%' && i + 2 < end {
        var j := i + 1;
        r := r[j := ToUpper(r[j])];
        j := j + 1;
        r := r[j := ToUpper(r[j])];
        i := i + 2;
      }
      i := i + 1;
    }
  }

  /** Over a span that holds exactly the text u, the scan of
      normalizeEncodedCase turns u into NormalizeCase(u) and leaves the text
      before and after alone. */
  lemma {:induction false} NormalizeSpanExact(pre: string, u: string, post: string)
    ensures NormalizeSpan(pre + u + post, |pre|, |pre| + |u|) == pre + NormalizeCase(u) + post
    decreases |u|
  {
    var s := pre + u + post;
    if u == [] {
      assert pre + NormalizeCase(u) + post == s;
    } else if u[0] == '%' && |u| >= 3 {
      var esc := ['%', ToUpper(u[1]), ToUpper(u[2])];
      EscapeRegroup(pre, u, post);
      NormalizeSpanExact(pre + esc, u[3..], post);
      Regroup(pre, esc, NormalizeCase(u[3..]), post);
    } else {
      PlainRegroup(pre, u, post);
      NormalizeSpanExact(pre + [u[0]], u[1..], post);
      Regroup(pre, [u[0]], NormalizeCase(u[1..]), post);
    }
  }

  /** The first step of the scan over an escape at the start of u. */
  lemma EscapeRegroup(pre: string, u: string, post: string)
    requires |u| >= 3 && u[0] == '%'
    ensures var s := pre + u + post;
      var i := |pre|;
      && s[i] == '%' && i + 2 < i + |u|
      && s[i + 1 := ToUpper(s[i + 1])][i + 2 := ToUpper(s[i + 2])]
         == (pre + ['%', ToUpper(u[1]), ToUpper(u[2])]) + u[3..] + post
  {
    var s := pre + u + post;
    var i := |pre|;
    var t := (pre + ['%', ToUpper(u[1]), ToUpper(u[2])]) + u[3..] + post;
    var s' := s[i + 1 := ToUpper(s[i + 1])][i + 2 := ToUpper(s[i + 2])];
    assert forall k :: 0 <= k < |s| ==> s'[k] == t[k];
  }

  /** The first step of the scan over any other character at the start of u. */
  lemma PlainRegroup(pre: string, u: string, post: string)
    requires u != []
    ensures var s := pre + u + post;
      s[|pre|] == u[0] && s == (pre + [u[0]]) + u[1..] + post
  {
    var s := pre + u + post;
    var t := (pre + [u[0]]) + u[1..] + post;
    assert forall k :: 0 <= k < |s| ==> s[k] == t[k];
  }

  lemma Regroup(pre: string, a: string, b: string, post: string)
    ensures (pre + a) + b + post == pre + (a + b) + post
  {
  }

  /** Normalising twice gives the same as normalising once. */
  lemma {:induction false} NormalizeIdempotent(s: string)
    ensures NormalizeCase(NormalizeCase(s)) == NormalizeCase(s)
  {
    var n := NormalizeCase(s);
    if s == [] {
    } else if s[0] == '%' && |s| >= 3 {
      assert n[3..] == NormalizeCase(s[3..]);
      NormalizeIdempotent(s[3..]);
    } else {
      assert n[1..] == NormalizeCase(s[1..]);
      NormalizeIdempotent(s[1..]);
    }
  }

  /** No '%' sits in either of the two places after a '%'. */
  predicate NoPercentInEscape(s: string)
  {
    forall j :: 0 <= j < |s| && s[j] == '%' ==>
      (j + 1 < |s| ==> s[j + 1] != '%') && (j + 2 < |s| ==> s[j + 2] != '%')
  }

  /** Position k is one of the two characters after a '%' that has two characters after it. */
  predicate InEscape(s: string, k: nat)
  {
    (1 <= k && k + 1 < |s| && s[k - 1] == '%') || (2 <= k < |s| && s[k - 2] == '%')
  }

  /** When no escape overlaps another, normalising upper-cases exactly the two
      characters after each '%' and leaves every other character unchanged. */
  lemma {:induction false} NormalizeUppercasesEscapes(s: string)
    requires NoPercentInEscape(s)
    ensures forall k :: 0 <= k < |s| ==>
      NormalizeCase(s)[k] == if InEscape(s, k) then ToUpper(s[k]) else s[k]
  {
    var n := NormalizeCase(s);
    if s == [] {
    } else if s[0] == '%' && |s| >= 3 {
      var t := s[3..];
      assert NoPercentInEscape(t) by {
        forall j | 0 <= j < |t| && t[j] == '%'
          ensures (j + 1 < |t| ==> t[j + 1] != '%') && (j + 2 < |t| ==> t[j + 2] != '%')
        {
          assert s[j + 3] == '%';
        }
      }
      NormalizeUppercasesEscapes(t);
      forall k | 0 <= k < |s|
        ensures n[k] == if InEscape(s, k) then ToUpper(s[k]) else s[k]
      {
        if k >= 3 {
          assert n[k] == NormalizeCase(t)[k - 3];
          assert s[1] != '%' && s[2] != '%';
          assert InEscape(s, k) == InEscape(t, k - 3);
        }
      }
    } else {
      var t := s[1..];
      assert NoPercentInEscape(t) by {
        forall j | 0 <= j < |t| && t[j] == '%'
          ensures (j + 1 < |t| ==> t[j + 1] != '%') && (j + 2 < |t| ==> t[j + 2] != '%')
        {
          assert s[j + 1] == '%';
        }
      }
      NormalizeUppercasesEscapes(t);
      forall k | 0 <= k < |s|
        ensures n[k] == if InEscape(s, k) then ToUpper(s[k]) else s[k]
      {
        if k >= 1 {
          assert n[k] == NormalizeCase(t)[k - 1];
          assert InEscape(s, k) == InEscape(t, k - 1);
        }
      }
    }
  }

  /*
   * Percent-encoding
   */

  /** Characters Uri::encode copies unchanged whatever `exclude` holds. */
  predicate IsEncodeSafe(c: char) { IsAlnum(c) || c == '_' || c == '.' || c == '-' }

  /** Upper-case hexadecimal digit, as produced by the encoder. */
  predicate IsUpperHexDigit(c: char) { IsDigit(c) || 'A' <= c <= 'F' }

  /** One character of Uri::encode's output loop. */
  function EncodeChar(c: char, exclude: string): (r: string)
    requires IsByte(c)
  {
    if c in exclude || IsEncodeSafe(c) then [c]
    else ['%', HexDigit(c as int / 16), HexDigit(c as int % 16)]
  }

  /** The value of a byte read through a signed `char` (the common ABI choice):
      bytes 0x80 to 0xFF read as -128 to -1. */
  function SignedChar(c: char): (v: int)
    requires IsByte(c)
    ensures -128 <= v < 128
    ensures (v < 0) == (c as int >= 128)
    ensures (v - c as int) % 256 == 0
  {
    if c as int < 128 then c as int else c as int - 256
  }

  /** The two indices into the digit table as Uri::encode computes them,
      `c >> 4` and `c & 0xF`, with `c` a signed char (an arithmetic shift is
      a floor division by 16; masking keeps the low four bits). */
  function HexIndicesAsWritten(c: char): (int, int)
    requires IsByte(c)
  {
    (SignedChar(c) / 16, SignedChar(c) % 16)
  }

  /** On a byte of 7-bit ASCII the indices as written are the two nibbles
      EncodeChar looks up, but on every other byte the high index is negative,
      so the table lookup reads before the start of the digit table. */
  lemma HexIndicesAsWrittenNibbles(c: char)
    requires IsByte(c)
    ensures c as int < 128 ==> HexIndicesAsWritten(c) == (c as int / 16, c as int % 16)
    ensures c as int >= 128 ==> HexIndicesAsWritten(c).0 < 0
    ensures HexIndicesAsWritten(c).1 == c as int % 16
  {
    var v := SignedChar(c);
    if c as int >= 128 {
      assert v == c as int - 256;
      assert v / 16 == c as int / 16 - 16;
    }
  }

  /** The byte 0xC3, which starts the UTF-8 form of every letter from U+00C0
      to U+00FF, is looked up at index -4. */
  lemma HexIndexAsWrittenOfC3()
    ensures HexIndicesAsWritten(0xC3 as char) == (-4, 3)
  {
  }

  /** The output of Uri::encode. */
  function Encoded(s: string, exclude: string): (r: string)
    requires IsByteString(s)
  {
    if s == [] then [] else EncodeChar(s[0], exclude) + Encoded(s[1..], exclude)
  }

  /** Uri::encode: every character that is neither in `exclude` nor alphanumeric
      nor one of "_.-" becomes '%' and two upper-case hexadecimal digits. */
  method Encode(decoded: string, exclude: string) returns (encoded: string)
    requires IsByteString(decoded)
    ensures encoded == Encoded(decoded, exclude)
  {
    encoded := "";
    for i := 0 to |decoded|
      invariant encoded + Encoded(decoded[i..], exclude) == Encoded(decoded, exclude)
    {
      ghost var before := encoded;
      EncodedStep(decoded, i, exclude);
      var c := decoded[i];
      if c in exclude || IsAlnum(c) || c == '_' || c == '.' || c == '-' {
        encoded := encoded + [c];
      } else {
        encoded := encoded + ['%'];
        encoded := encoded + [HexLookup[c as int / 16]];
        encoded := encoded + [HexLookup[c as int % 16]];
      }
      assert encoded == before + EncodeChar(c, exclude);
      AppendAssoc(before, EncodeChar(c, exclude), Encoded(decoded[i + 1..], exclude));
    }
    assert decoded[|decoded|..] == [];
  }

  /** Encoding the rest of the text from position i. */
  lemma EncodedStep(s: string, i: nat, exclude: string)
    requires IsByteString(s) && i < |s|
    ensures Encoded(s[i..], exclude) == EncodeChar(s[i], exclude) + Encoded(s[i + 1..], exclude)
  {
    assert s[i..][1..] == s[i + 1..];
  }

  lemma AppendAssoc(a: string, b: string, c: string)
    ensures (a + b) + c == a + (b + c)
  {
  }

  /** The shape of an encoder output: characters that are safe or excluded,
      and '%' followed by two upper-case hexadecimal digits. */
  predicate IsEncodedForm(t: string, exclude: string)
  {
    if t == [] then true
    else if t[0] == '%' then
      |t| >= 3 && IsUpperHexDigit(t[1]) && IsUpperHexDigit(t[2]) && IsEncodedForm(t[3..], exclude)
    else
      (IsEncodeSafe(t[0]) || t[0] in exclude) && IsEncodedForm(t[1..], exclude)
  }

  lemma {:induction false} EncodedHasEncodedForm(s: string, exclude: string)
    requires IsByteString(s) && '%' !in exclude
    ensures IsEncodedForm(Encoded(s, exclude), exclude)
  {
    if s != [] {
      var head, rest := EncodeChar(s[0], exclude), Encoded(s[1..], exclude);
      EncodedHasEncodedForm(s[1..], exclude);
      assert (head + rest)[|head|..] == rest;
    }
  }

  /** Encoding keeps out every character that is neither safe, nor a
      hexadecimal digit, nor '%', nor excluded; in particular a path encoded
      with only '/' excluded holds no '?' and no '#'. */
  lemma {:induction false} EncodedAvoids(s: string, exclude: string, stops: set<char>)
    requires IsByteString(s)
    requires forall c :: c in stops ==> c !in exclude && !IsEncodeSafe(c) && !IsUpperHexDigit(c) && c != '%'
    ensures forall k :: 0 <= k < |Encoded(s, exclude)| ==> Encoded(s, exclude)[k] !in stops
  {
    if s != [] {
      EncodedAvoids(s[1..], exclude, stops);
      var head, rest := EncodeChar(s[0], exclude), Encoded(s[1..], exclude);
      assert forall k :: |head| <= k < |head + rest| ==> (head + rest)[k] == rest[k - |head|];
    }
  }

  /** Encoding is empty exactly for empty text, and a leading character that
      is excluded from escaping is kept in front. */
  lemma EncodedFront(s: string, exclude: string)
    requires IsByteString(s)
    ensures (Encoded(s, exclude) == []) == (s == [])
    ensures s != [] ==> Encoded(s, exclude)[0] == (if s[0] in exclude || IsEncodeSafe(s[0]) then s[0] else '%')
    ensures s != [] && s[0] in exclude ==> Encoded(s, exclude) == [s[0]] + Encoded(s[1..], exclude)
  {
  }

  /*
   * Percent-decoding
   */

  function Prepend(x: string, o: Option<string>): Option<string>
  {
    match o
    case None => None
    case Some(d) => Some(x + d)
  }

  /** The output of Uri::decode, or None where it gives up: a '%' with two
      characters after it must be followed by two hexadecimal digits, which
      std::from_chars turns into one byte; any other character, including a
      '%' in the last two places, is copied. */
  function Decoded(s: string): (r: Option<string>)
    ensures r.Some? ==> |r.value| <= |s|
  {
    if s == [] then Some([])
    else if s[0] == '%' && |s| >= 3 then
      if IsHexDigit(s[1]) && IsHexDigit(s[2])
      then Prepend([(16 * HexValue(s[1]) + HexValue(s[2])) as char], Decoded(s[3..]))
      else None
    else Prepend([s[0]], Decoded(s[1..]))
  }

  lemma PrependEmpty(o: Option<string>)
    ensures Prepend([], o) == o
  {
    if o.Some? {
      assert [] + o.value == o.value;
    }
  }

  lemma PrependAssoc(x: string, y: string, o: Option<string>)
    ensures Prepend(x, Prepend(y, o)) == Prepend(x + y, o)
  {
    if o.Some? {
      assert x + (y + o.value) == (x + y) + o.value;
    }
  }

  /** What Uri::decode returns: the decoded text, or "" when decoding fails. */
  function DecodedOrEmpty(s: string): string
  {
    match Decoded(s)
    case None => ""
    case Some(d) => d
  }

  /** Uri::decode */
  method Decode(encoded: string) returns (decoded: string)
    ensures Decoded(encoded).Some? ==> decoded == Decoded(encoded).value
    ensures Decoded(encoded).None? ==> decoded == ""
  {
    decoded := "";
    var i := 0;
    assert encoded[0..] == encoded;
    PrependEmpty(Decoded(encoded));
    while i < |encoded|
      invariant i <= |encoded|
      invariant Decoded(encoded) == Prepend(decoded, Decoded(encoded[i..]))
    {
      if encoded[i] == '%' && i + 2 < |encoded| {
        var hi, lo := encoded[i + 1], encoded[i + 2];
        if !(IsHexDigit(hi) && IsHexDigit(lo)) {
          return "";
        }
        assert encoded[i..][3..] == encoded[i + 3..];
        var c := (16 * HexValue(hi) + HexValue(lo)) as char;
        PrependAssoc(decoded, [c], Decoded(encoded[i + 3..]));
        decoded := decoded + [c];
        i := i + 2;
      } else {
        assert encoded[i..][1..] == encoded[i + 1..];
        PrependAssoc(decoded, [encoded[i]], Decoded(encoded[i + 1..]));
        decoded := decoded + [encoded[i]];
      }
      i := i + 1;
    }
    assert encoded[i..] == [];
  }

  /** Decoding undoes encoding, as long as '%' is not excluded from escaping. */
  lemma {:induction false} DecodeEncode(s: string, exclude: string)
    requires IsByteString(s) && '%' !in exclude
    ensures Decoded(Encoded(s, exclude)) == Some(s)
  {
    if s != [] {
      DecodeEncode(s[1..], exclude);
      DecodeEncodedChar(s[0], exclude, Encoded(s[1..], exclude));
      assert s == [s[0]] + s[1..];
    }
  }

  /** Decoding reads back one encoded character in front of any text. */
  lemma DecodeEncodedChar(c: char, exclude: string, rest: string)
    requires IsByte(c) && '%' !in exclude
    ensures Decoded(EncodeChar(c, exclude) + rest) == Prepend([c], Decoded(rest))
  {
    var head := EncodeChar(c, exclude);
    if c in exclude || IsEncodeSafe(c) {
      assert c != '%';
      assert (head + rest)[0] == c && (head + rest)[1..] == rest;
    } else {
      var hi, lo := HexDigit(c as int / 16), HexDigit(c as int % 16);
      assert head + rest == ['%', hi, lo] + rest;
      assert (['%', hi, lo] + rest)[3..] == rest;
      assert (16 * HexValue(hi) + HexValue(lo)) as char == c;
    }
  }

  /** A '%' with two characters after it that are not both hexadecimal digits. */
  predicate BadEscapeAt(s: string, i: nat)
  {
    i + 2 < |s| && s[i] == '%' && !(IsHexDigit(s[i + 1]) && IsHexDigit(s[i + 2]))
  }

  /** Decoding fails exactly when some '%' with two characters after it is not
      followed by two hexadecimal digits; a '%' in the last two places never
      makes it fail. */
  lemma {:induction false} DecodeFailsIff(s: string)
    ensures Decoded(s).None? <==> exists i: nat :: BadEscapeAt(s, i)
  {
    if s == [] {
    } else if s[0] == '%' && |s| >= 3 {
      if IsHexDigit(s[1]) && IsHexDigit(s[2]) {
        var t := s[3..];
        DecodeFailsIff(t);
        if i: nat :| BadEscapeAt(t, i) {
          assert BadEscapeAt(s, i + 3);
        }
        if i: nat :| BadEscapeAt(s, i) {
          assert i >= 3;
          assert BadEscapeAt(t, i - 3);
        }
      } else {
        assert BadEscapeAt(s, 0);
      }
    } else {
      var t := s[1..];
      DecodeFailsIff(t);
      if i: nat :| BadEscapeAt(t, i) {
        assert BadEscapeAt(s, i + 1);
      }
      if i: nat :| BadEscapeAt(s, i) {
        assert i >= 1;
        assert BadEscapeAt(t, i - 1);
      }
    }
  }

  /** Text without any '%' decodes to itself. */
  lemma {:induction false} DecodeWithoutPercent(s: string)
    requires '%' !in s
    ensures Decoded(s) == Some(s)
  {
    if s != [] {
      assert s == [s[0]] + s[1..];
      assert '%' !in s[1..];
      DecodeWithoutPercent(s[1..]);
    }
  }
}
