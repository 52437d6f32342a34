/**
 * lsp::Uri from lsp/uri.cpp: a generic URI whose five components (scheme,
 * authority, path, query, fragment) are packed end to end in one string, with
 * one 16-bit length per component and presence flags for authority, query and
 * fragment. The delimiters ":", "//", "?" and "#" are not stored.
 */
module Uris {
  import opened Ascii
  import opened UriText
  import opened UriParts

  /*
   * The packed layout
   */

  /** The layout invariant of a packed Uri: the five lengths add up to the
      size of the string, each fits a std::uint16_t, and an absent component
      has length 0. */
  predicate Layout(size: nat, sl: nat, al: nat, pl: nat, ql: nat, fl: nat,
                   af: bool, qf: bool, ff: bool)
  {
    && size == sl + al + pl + ql + fl
    && sl < U16Modulus && al < U16Modulus && pl < U16Modulus && ql < U16Modulus && fl < U16Modulus
    && (!af ==> al == 0) && (!qf ==> ql == 0) && (!ff ==> fl == 0)
  }

  /** The components the accessors read out of a packed string, given the
      five lengths and the three presence flags. */
  function Unpack(d: string, sl: nat, al: nat, pl: nat, ql: nat, fl: nat,
                  af: bool, qf: bool, ff: bool): Parts
    requires sl + al + pl + ql + fl == |d|
  {
    Parts(d[..sl],
          af, d[sl..sl + al],
          d[sl + al..sl + al + pl],
          qf, d[sl + al + pl..sl + al + pl + ql],
          ff, d[sl + al + pl + ql..])
  }

  /** The components stored end to end. */
  function Packed(v: Parts): string
  {
    v.scheme + v.authority + v.path + v.query + v.fragment
  }

  /** std::string::replace(pos, count, t). */
  function Replace(s: string, pos: nat, count: nat, t: string): (r: string)
    requires pos + count <= |s|
    ensures |r| == |s| - count + |t|
  {
    s[..pos] + t + s[pos + count..]
  }

  lemma UnpackPacked(v: Parts)
    ensures Unpack(Packed(v), |v.scheme|, |v.authority|, |v.path|, |v.query|, |v.fragment|,
                   v.hasAuthority, v.hasQuery, v.hasFragment) == v
  {
    var d := Packed(v);
    var sl, al, pl, ql := |v.scheme|, |v.authority|, |v.path|, |v.query|;
    assert d[..sl] == v.scheme;
    assert d[sl..sl + al] == v.authority;
    assert d[sl + al..sl + al + pl] == v.path;
    assert d[sl + al + pl..sl + al + pl + ql] == v.query;
    assert d[sl + al + pl + ql..] == v.fragment;
  }

  lemma PackedUnpack(d: string, sl: nat, al: nat, pl: nat, ql: nat, fl: nat,
                     af: bool, qf: bool, ff: bool)
    requires sl + al + pl + ql + fl == |d|
    ensures var v := Unpack(d, sl, al, pl, ql, fl, af, qf, ff);
      && Packed(v) == d
      && |v.scheme| == sl && |v.authority| == al && |v.path| == pl && |v.query| == ql && |v.fragment| == fl
  {
    assert d == d[..sl] + d[sl..sl + al] + d[sl + al..sl + al + pl]
              + d[sl + al + pl..sl + al + pl + ql] + d[sl + al + pl + ql..];
  }

  lemma SchemeReplaced(v: Parts, x: string)
    ensures Replace(Packed(v), 0, |v.scheme|, x) == Packed(v.(scheme := x))
  {
    var d := Packed(v);
    assert d[|v.scheme|..] == v.authority + v.path + v.query + v.fragment;
  }

  lemma AuthorityReplaced(v: Parts, x: string)
    ensures Replace(Packed(v), |v.scheme|, |v.authority|, x) == Packed(v.(authority := x))
  {
    var d := Packed(v);
    var i := |v.scheme|;
    assert d[..i] == v.scheme;
    assert d[i + |v.authority|..] == v.path + v.query + v.fragment;
  }

  lemma PathReplaced(v: Parts, x: string)
    ensures Replace(Packed(v), |v.scheme| + |v.authority|, |v.path|, x) == Packed(v.(path := x))
  {
    var d := Packed(v);
    var i := |v.scheme| + |v.authority|;
    assert d[..i] == v.scheme + v.authority;
    assert d[i + |v.path|..] == v.query + v.fragment;
  }

  lemma QueryReplaced(v: Parts, x: string)
    ensures Replace(Packed(v), |v.scheme| + |v.authority| + |v.path|, |v.query|, x)
         == Packed(v.(query := x))
  {
    var d := Packed(v);
    var i := |v.scheme| + |v.authority| + |v.path|;
    assert d[..i] == v.scheme + v.authority + v.path;
    assert d[i + |v.query|..] == v.fragment;
  }

  lemma FragmentReplaced(v: Parts, x: string)
    ensures Replace(Packed(v), |v.scheme| + |v.authority| + |v.path| + |v.query|, |v.fragment|, x)
         == Packed(v.(fragment := x))
  {
    var d := Packed(v);
    var i := |v.scheme| + |v.authority| + |v.path| + |v.query|;
    assert d[..i] == v.scheme + v.authority + v.path + v.query;
  }

  /** normalizeEncodedCase over exactly the text just put in by a replace
      normalises that text and nothing else. */
  lemma NormalizeReplaced(s: string, pos: nat, count: nat, t: string)
    requires pos + count <= |s|
    ensures var r := Replace(s, pos, count, t);
      NormalizeSpan(r, pos, SpanEnd(pos, |t|, |r|)) == Replace(s, pos, count, NormalizeCase(t))
  {
    NormalizeSpanExact(s[..pos], t, s[pos + count..]);
  }

  /** Lowering, in place, the first |t| characters of a string whose scheme
      was just replaced by t. */
  lemma LowerFront(d: string, sl: nat, t: string, e: string)
    requires sl <= |d| && |e| == |Replace(d, 0, sl, t)|
    requires forall k :: 0 <= k < |t| ==> e[k] == ToLower(Replace(d, 0, sl, t)[k])
    requires forall k :: |t| <= k < |e| ==> e[k] == Replace(d, 0, sl, t)[k]
    ensures e == Replace(d, 0, sl, Lowercase(t))
  {
    var r := Replace(d, 0, sl, Lowercase(t));
    assert forall k :: 0 <= k < |e| ==> e[k] == r[k];
  }

  /** Uri::insertScheme on the packed fields: the scheme is replaced and
      lowered, the rest is kept. */
  lemma SchemeInserted(d: string, sl: nat, al: nat, pl: nat, ql: nat, fl: nat,
                       af: bool, qf: bool, ff: bool, x: string)
    requires Layout(|d|, sl, al, pl, ql, fl, af, qf, ff) && |x| < U16Modulus
    ensures var r := Replace(d, 0, sl, Lowercase(x));
      && Layout(|r|, |x|, al, pl, ql, fl, af, qf, ff)
      && Unpack(r, |x|, al, pl, ql, fl, af, qf, ff)
         == Unpack(d, sl, al, pl, ql, fl, af, qf, ff).(scheme := Lowercase(x))
  {
    var v := Unpack(d, sl, al, pl, ql, fl, af, qf, ff);
    PackedUnpack(d, sl, al, pl, ql, fl, af, qf, ff);
    SchemeReplaced(v, Lowercase(x));
    UnpackPacked(v.(scheme := Lowercase(x)));
  }

  /** Uri::insertAuthority on the packed fields. */
  lemma AuthorityInserted(d: string, sl: nat, al: nat, pl: nat, ql: nat, fl: nat,
                          af: bool, qf: bool, ff: bool, x: string)
    requires Layout(|d|, sl, al, pl, ql, fl, af, qf, ff) && |x| < U16Modulus
    ensures var r := Replace(d, sl, al, x);
      var n := NormalizeSpan(r, sl, SpanEnd(sl, |x|, |r|));
      && Layout(|n|, sl, |x|, pl, ql, fl, true, qf, ff)
      && Unpack(n, sl, |x|, pl, ql, fl, true, qf, ff)
         == Unpack(d, sl, al, pl, ql, fl, af, qf, ff).(hasAuthority := true, authority := NormalizeCase(x))
  {
    var v := Unpack(d, sl, al, pl, ql, fl, af, qf, ff);
    NormalizeReplaced(d, sl, al, x);
    PackedUnpack(d, sl, al, pl, ql, fl, af, qf, ff);
    AuthorityReplaced(v, NormalizeCase(x));
    UnpackPacked(v.(hasAuthority := true, authority := NormalizeCase(x)));
  }

  /** Uri::insertPath on the packed fields. */
  lemma PathInserted(d: string, sl: nat, al: nat, pl: nat, ql: nat, fl: nat,
                     af: bool, qf: bool, ff: bool, x: string)
    requires Layout(|d|, sl, al, pl, ql, fl, af, qf, ff) && |x| < U16Modulus
    ensures var r := Replace(d, sl + al, pl, x);
      && Layout(|r|, sl, al, |x|, ql, fl, af, qf, ff)
      && Unpack(r, sl, al, |x|, ql, fl, af, qf, ff)
         == Unpack(d, sl, al, pl, ql, fl, af, qf, ff).(path := x)
  {
    var v := Unpack(d, sl, al, pl, ql, fl, af, qf, ff);
    PackedUnpack(d, sl, al, pl, ql, fl, af, qf, ff);
    PathReplaced(v, x);
    UnpackPacked(v.(path := x));
  }

  /** Uri::insertQuery on the packed fields. */
  lemma QueryInserted(d: string, sl: nat, al: nat, pl: nat, ql: nat, fl: nat,
                      af: bool, qf: bool, ff: bool, x: string)
    requires Layout(|d|, sl, al, pl, ql, fl, af, qf, ff) && |x| < U16Modulus
    ensures var r := Replace(d, sl + al + pl, ql, x);
      var n := NormalizeSpan(r, sl + al + pl, SpanEnd(sl + al + pl, |x|, |r|));
      && Layout(|n|, sl, al, pl, |x|, fl, af, true, ff)
      && Unpack(n, sl, al, pl, |x|, fl, af, true, ff)
         == Unpack(d, sl, al, pl, ql, fl, af, qf, ff).(hasQuery := true, query := NormalizeCase(x))
  {
    var pos := sl + al + pl;
    var r := Replace(d, pos, ql, x);
    var n := NormalizeSpan(r, pos, SpanEnd(pos, |x|, |r|));
    var v := Unpack(d, sl, al, pl, ql, fl, af, qf, ff);
    var w := v.(hasQuery := true, query := NormalizeCase(x));
    NormalizeReplaced(d, pos, ql, x);
    PackedUnpack(d, sl, al, pl, ql, fl, af, qf, ff);
    QueryReplaced(v, NormalizeCase(x));
    assert n == Packed(w) by {
      assert Packed(v.(query := NormalizeCase(x))) == Packed(w);
    }
    UnpackPacked(w);
  }

  /** Uri::insertFragment on the packed fields. */
  lemma FragmentInserted(d: string, sl: nat, al: nat, pl: nat, ql: nat, fl: nat,
                         af: bool, qf: bool, ff: bool, x: string)
    requires Layout(|d|, sl, al, pl, ql, fl, af, qf, ff) && |x| < U16Modulus
    ensures var r := Replace(d, sl + al + pl + ql, fl, x);
      var n := NormalizeSpan(r, sl + al + pl + ql, SpanEnd(sl + al + pl + ql, |x|, |r|));
      && Layout(|n|, sl, al, pl, ql, |x|, af, qf, true)
      && Unpack(n, sl, al, pl, ql, |x|, af, qf, true)
         == Unpack(d, sl, al, pl, ql, fl, af, qf, ff).(hasFragment := true, fragment := NormalizeCase(x))
  {
    var pos := sl + al + pl + ql;
    var r := Replace(d, pos, fl, x);
    var n := NormalizeSpan(r, pos, SpanEnd(pos, |x|, |r|));
    var v := Unpack(d, sl, al, pl, ql, fl, af, qf, ff);
    var w := v.(hasFragment := true, fragment := NormalizeCase(x));
    NormalizeReplaced(d, pos, fl, x);
    PackedUnpack(d, sl, al, pl, ql, fl, af, qf, ff);
    FragmentReplaced(v, NormalizeCase(x));
    assert n == Packed(w) by {
      assert Packed(v.(fragment := NormalizeCase(x))) == Packed(w);
    }
    UnpackPacked(w);
  }

  /*
   * The Uri object
   */

  class Uri {
    var data: string
    var schemeLen: nat
    var authorityLen: nat
    var pathLen: nat
    var queryLen: nat
    var fragmentLen: nat
    var authorityFlag: bool
    var queryFlag: bool
    var fragmentFlag: bool

    /** The packed layout holds. */
    ghost predicate Valid()
      reads this
    {
      Layout(|data|, schemeLen, authorityLen, pathLen, queryLen, fragmentLen,
             authorityFlag, queryFlag, fragmentFlag)
    }

    /** Everything the accessors report. */
    function Value(): Parts
      reads this
      requires Valid()
    {
      Unpack(data, schemeLen, authorityLen, pathLen, queryLen, fragmentLen,
             authorityFlag, queryFlag, fragmentFlag)
    }

    /** A default-constructed Uri is empty and invalid. */
    constructor ()
      ensures Valid() && Value() == Empty
    {
      data := "";
      schemeLen, authorityLen, pathLen, queryLen, fragmentLen := 0, 0, 0, 0, 0;
      authorityFlag, queryFlag, fragmentFlag := false, false, false;
    }

    /** The implicit copy constructor of Uri. */
    static method Copy(other: Uri) returns (u: Uri)
      requires other.Valid()
      ensures fresh(u) && u.Valid() && u.Value() == other.Value()
    {
      u := new Uri();
      u.data := other.data;
      u.schemeLen, u.authorityLen, u.pathLen := other.schemeLen, other.authorityLen, other.pathLen;
      u.queryLen, u.fragmentLen := other.queryLen, other.fragmentLen;
      u.authorityFlag, u.queryFlag, u.fragmentFlag := other.authorityFlag, other.queryFlag, other.fragmentFlag;
    }

    /** The implicit copy assignment of Uri. */
    method Assign(other: Uri)
      requires other.Valid()
      modifies this
      ensures Valid() && Value() == old(other.Value())
    {
      data := other.data;
      schemeLen, authorityLen, pathLen := other.schemeLen, other.authorityLen, other.pathLen;
      queryLen, fragmentLen := other.queryLen, other.fragmentLen;
      authorityFlag, queryFlag, fragmentFlag := other.authorityFlag, other.queryFlag, other.fragmentFlag;
    }

    /** Uri::isValid: a Uri is valid when its scheme is not empty. */
    predicate IsValid()
      reads this
      requires Valid()
      ensures IsValid() <==> Value().scheme != []
    {
      schemeLen > 0
    }

    predicate HasAuthority()
      reads this
      requires Valid()
      ensures HasAuthority() == Value().hasAuthority
    {
      authorityFlag
    }

    predicate HasQuery()
      reads this
      requires Valid()
      ensures HasQuery() == Value().hasQuery
    {
      queryFlag
    }

    predicate HasFragment()
      reads this
      requires Valid()
      ensures HasFragment() == Value().hasFragment
    {
      fragmentFlag
    }

    function Scheme(): (r: string)
      reads this
      requires Valid()
      ensures r == Value().scheme
    {
      data[..schemeLen]
    }

    /** An absent authority reads as empty. */
    function Authority(): (r: string)
      reads this
      requires Valid()
      ensures r == Value().authority
      ensures !HasAuthority() ==> r == []
    {
      if !HasAuthority() then []
      else
        var authorityIdx := schemeLen;
        data[authorityIdx..authorityIdx + authorityLen]
    }

    function Path(): (r: string)
      reads this
      requires Valid()
      ensures r == Value().path
    {
      var pathIdx := schemeLen + authorityLen;
      data[pathIdx..pathIdx + pathLen]
    }

    /** An absent query reads as empty. */
    function Query(): (r: string)
      reads this
      requires Valid()
      ensures r == Value().query
      ensures !HasQuery() ==> r == []
    {
      if !HasQuery() then []
      else
        var queryIdx := schemeLen + authorityLen + pathLen;
        data[queryIdx..queryIdx + queryLen]
    }

    /** An absent fragment reads as empty. */
    function Fragment(): (r: string)
      reads this
      requires Valid()
      ensures r == Value().fragment
      ensures !HasFragment() ==> r == []
    {
      if !HasFragment() then []
      else
        var fragmentIdx := schemeLen + authorityLen + pathLen + queryLen;
        data[fragmentIdx..fragmentIdx + fragmentLen]
    }

    /** Uri::insertScheme: replaces the scheme and lowers it in place. */
    method InsertScheme(scheme: string)
      requires Valid() && |scheme| < U16Modulus
      modifies this
      ensures Valid()
      ensures Value() == old(Value()).(scheme := Lowercase(scheme))
    {
      ghost var d, sl := data, schemeLen;
      data := Replace(data, 0, schemeLen, scheme);
      schemeLen := |scheme|;
      ghost var replaced := data;
      var i := 0;
      while i < schemeLen
        invariant i <= schemeLen == |scheme| && |data| == |replaced|
        invariant forall k :: 0 <= k < i ==> data[k] == ToLower(replaced[k])
        invariant forall k :: i <= k < |data| ==> data[k] == replaced[k]
        invariant authorityLen == old(authorityLen) && pathLen == old(pathLen)
        invariant queryLen == old(queryLen) && fragmentLen == old(fragmentLen)
        invariant authorityFlag == old(authorityFlag) && queryFlag == old(queryFlag)
        invariant fragmentFlag == old(fragmentFlag)
      {
        data := data[i := ToLower(data[i])];
        i := i + 1;
      }
      LowerFront(d, sl, scheme, data);
      SchemeInserted(d, sl, authorityLen, pathLen, queryLen, fragmentLen,
                     authorityFlag, queryFlag, fragmentFlag, scheme);
    }

    /** Uri::insertAuthority: replaces the authority, upper-cases its escapes
        and marks it present. */
    method InsertAuthority(authority: string)
      requires Valid() && |authority| < U16Modulus
      modifies this
      ensures Valid()
      ensures Value() == old(Value()).(hasAuthority := true, authority := NormalizeCase(authority))
    {
      ghost var d, al, af := data, authorityLen, authorityFlag;
      var authorityIdx := schemeLen;
      data := Replace(data, authorityIdx, authorityLen, authority);
      authorityLen := |authority|;
      data := NormalizeEncodedCase(data, schemeLen, authorityLen);
      authorityFlag := true;
      AuthorityInserted(d, schemeLen, al, pathLen, queryLen, fragmentLen,
                        af, queryFlag, fragmentFlag, authority);
    }

    /** Uri::insertPath: replaces the path; it is stored as given. */
    method InsertPath(path: string)
      requires Valid() && |path| < U16Modulus
      modifies this
      ensures Valid()
      ensures Value() == old(Value()).(path := path)
    {
      ghost var d, pl := data, pathLen;
      var pathIdx := schemeLen + authorityLen;
      data := Replace(data, pathIdx, pathLen, path);
      pathLen := |path|;
      PathInserted(d, schemeLen, authorityLen, pl, queryLen, fragmentLen,
                   authorityFlag, queryFlag, fragmentFlag, path);
    }

    /** Uri::insertQuery: replaces the query, upper-cases its escapes and
        marks it present. */
    method InsertQuery(query: string)
      requires Valid() && |query| < U16Modulus
      modifies this
      ensures Valid()
      ensures Value() == old(Value()).(hasQuery := true, query := NormalizeCase(query))
    {
      ghost var d, ql, qf := data, queryLen, queryFlag;
      var queryIdx := schemeLen + authorityLen + pathLen;
      data := Replace(data, queryIdx, queryLen, query);
      queryLen := |query|;
      data := NormalizeEncodedCase(data, queryIdx, queryLen);
      queryFlag := true;
      QueryInserted(d, schemeLen, authorityLen, pathLen, ql, fragmentLen,
                    authorityFlag, qf, fragmentFlag, query);
    }

    /** Uri::insertFragment: replaces the fragment, upper-cases its escapes
        and marks it present. */
    method InsertFragment(fragment: string)
      requires Valid() && |fragment| < U16Modulus
      modifies this
      ensures Valid()
      ensures Value() == old(Value()).(hasFragment := true, fragment := NormalizeCase(fragment))
    {
      ghost var d, fl, ff := data, fragmentLen, fragmentFlag;
      var fragmentIdx := schemeLen + authorityLen + pathLen + queryLen;
      data := Replace(data, fragmentIdx, fragmentLen, fragment);
      fragmentLen := |fragment|;
      data := NormalizeEncodedCase(data, fragmentIdx, fragmentLen);
      fragmentFlag := true;
      FragmentInserted(d, schemeLen, authorityLen, pathLen, queryLen, fl,
                       authorityFlag, queryFlag, ff, fragment);
    }
  
    /** Uri::setScheme: accepted exactly when the scanner reads the whole of
        `scheme` (so it is made of scheme characters and its length fits the
        16-bit counter); a refused scheme leaves the Uri as it was. */
    method SetScheme(scheme: string) returns (ok: bool)
      requires Valid()
      modifies this
      ensures Valid()
      ensures ok <==> AllSchemeChars(scheme) && |scheme| < U16Modulus
      ensures ok ==> Value() == old(Value()).(scheme := Lowercase(scheme))
      ensures !ok ==> unchanged(this)
    {
      var len := ParseUriScheme(scheme);
      WholeScan(SchemeLength(scheme), |scheme|);
      if len == |scheme| {
        InsertScheme(scheme);
        return true;
      }
      return false;
    }

    /** Uri::setAuthority: accepted exactly when `authority` holds no '/',
        '?' or '#' and its length fits the 16-bit counter. */
    method SetAuthority(authority: string) returns (ok: bool)
      requires Valid()
      modifies this
      ensures Valid()
      ensures ok <==> Avoids(authority, AuthorityStops) && |authority| < U16Modulus
      ensures ok ==> Value() == old(Value()).(hasAuthority := true, authority := NormalizeCase(authority))
      ensures !ok ==> unchanged(this)
    {
      var len := ParseUriAuthority(authority);
      WholeScan(ScanUntil(authority, AuthorityStops), |authority|);
      if len == |authority| {
        InsertAuthority(authority);
        return true;
      }
      return false;
    }

    /** Uri::setPath: every path is accepted. */
    method SetPath(path: string) returns (ok: bool)
      requires Valid() && |path| < U16Modulus
      modifies this
      ensures Valid()
      ensures ok && Value() == old(Value()).(path := path)
    {
      InsertPath(path);
      return true;
    }

    /** Uri::setQuery: accepted exactly when `query` holds no '#' and its
        length fits the 16-bit counter. */
    method SetQuery(query: string) returns (ok: bool)
      requires Valid()
      modifies this
      ensures Valid()
      ensures ok <==> Avoids(query, QueryStops) && |query| < U16Modulus
      ensures ok ==> Value() == old(Value()).(hasQuery := true, query := NormalizeCase(query))
      ensures !ok ==> unchanged(this)
    {
      var len := ParseUriQuery(query);
      WholeScan(ScanUntil(query, QueryStops), |query|);
      if len == |query| {
        InsertQuery(query);
        return true;
      }
      return false;
    }

    /** Uri::setFragment: every fragment is accepted. */
    method SetFragment(fragment: string) returns (ok: bool)
      requires Valid() && |fragment| < U16Modulus
      modifies this
      ensures Valid()
      ensures ok && Value() == old(Value()).(hasFragment := true, fragment := NormalizeCase(fragment))
    {
      InsertFragment(fragment);
      return true;
    }

    /** Uri::removeAuthority: the authority is emptied and marked absent. */
    method RemoveAuthority()
      requires Valid()
      modifies this
      ensures Valid()
      ensures Value() == old(Value()).(hasAuthority := false, authority := [])
    {
      InsertAuthority([]);
      authorityFlag := false;
      AuthorityDropped(data, schemeLen, authorityLen, pathLen, queryLen, fragmentLen,
                         authorityFlag, queryFlag, fragmentFlag);
    }

    /** Uri::removeQuery: the query is emptied and marked absent. */
    method RemoveQuery()
      requires Valid()
      modifies this
      ensures Valid()
      ensures Value() == old(Value()).(hasQuery := false, query := [])
    {
      InsertQuery([]);
      queryFlag := false;
      QueryDropped(data, schemeLen, authorityLen, pathLen, queryLen, fragmentLen,
                     authorityFlag, queryFlag, fragmentFlag);
    }

    /** Uri::removeFragment: the fragment is emptied and marked absent. */
    method RemoveFragment()
      requires Valid()
      modifies this
      ensures Valid()
      ensures Value() == old(Value()).(hasFragment := false, fragment := [])
    {
      InsertFragment([]);
      fragmentFlag := false;
      FragmentDropped(data, schemeLen, authorityLen, pathLen, queryLen, fragmentLen,
                        authorityFlag, queryFlag, fragmentFlag);
    }

    /** Uri::toString: the components with their delimiters, the path
        percent-encoded; "" for an invalid Uri. */
    method ToString() returns (result: string)
      requires Valid() && IsByteString(Path())
      ensures result == Serialize(Value())
    {
      if !IsValid() {
        return "";
      }
      var encodedPath := Encode(Path(), "/");
      ghost var p := Value().(path := encodedPath);
      result := Scheme();
      result := result + ":";
      assert result == WithScheme(p);
      if HasAuthority() {
        result := result + "//";
        result := result + Authority();
      }
      assert result == WithAuthority(p);
      result := result + encodedPath;
      assert result == WithPath(p);
      if HasQuery() {
        result := result + "?";
        result := result + Query();
      }
      assert result == WithQuery(p);
      if HasFragment() {
        result := result + "#";
        result := result + Fragment();
      }
    }

    /** Uri::parse: the components of `uriStr` as ParseValue cuts and cooks
        them; an invalid (empty) Uri where it finds no scheme, no ':' after
        it, or an authority followed by something other than '/'. The blocks
        that read the authority, path, query and fragment are the four
        methods below. */
    static method Parse(uriStr: string) returns (uri: Uri)
      requires |uriStr| < U16Modulus
      ensures fresh(uri) && uri.Valid()
      ensures uri.Value() == ParseValue(uriStr)
    {
      uri := new Uri();
      var schemeLen := ParseUriScheme(uriStr);
      if schemeLen == 0 || !HasCharAt(uriStr, schemeLen, ':') {
        uri := new Uri();
        return;
      }
      var scheme := uriStr[..schemeLen];
      var idx := schemeLen;
      uri.InsertScheme(scheme);
      idx := idx + 1;
      ghost var p := Empty.(scheme := scheme);
      assert uri.Value() == Cook(p) by { CookEmpty(scheme); }
      ghost var rest := SplitAuthority(uriStr, idx, p);
      assert Split(uriStr) == rest;

      var hasAuthority := HasCharAt(uriStr, idx, '/') && HasCharAt(uriStr, idx + 1, '/');
      if hasAuthority {
        idx, p := uri.ParseAuthorityPart(uriStr, idx, p);
      } else {
        assert rest == SplitPath(uriStr, idx, p);
      }

      var pathIsEmpty := idx >= |uriStr|;
      if !pathIsEmpty {
        if hasAuthority && uriStr[idx] != '/' {
          uri := new Uri();
          return;
        }
        idx, p := uri.ParsePathPart(uriStr, idx, p);
      } else {
        assert rest == SplitQuery(uriStr, idx, p) by { EmptyPathStage(uriStr, idx, p); }
      }
      assert idx <= |uriStr| && (idx < |uriStr| ==> uriStr[idx] in PathStops);

      var hasQuery := HasCharAt(uriStr, idx, '?');
      if hasQuery {
        idx, p := uri.ParseQueryPart(uriStr, idx, p);
      } else {
        assert rest == SplitFragment(uriStr, idx, p);
      }
      assert idx < |uriStr| ==> uriStr[idx] == '#';

      var hasFragment := HasCharAt(uriStr, idx, '#');
      if hasFragment {
        idx, p := uri.ParseFragmentPart(uriStr, idx, p);
      } else {
        assert rest == Some(p);
      }
      assert idx == |uriStr|;
    }

    /** The authority block of Uri::parse: after "//", the authority runs to
        the next '/', '?' or '#'. `p` holds the raw components read so far. */
    method ParseAuthorityPart(uriStr: string, idx: nat, ghost p: Parts) returns (next: nat, ghost q: Parts)
      requires Valid() && Value() == Cook(p) && |uriStr| < U16Modulus
      requires HasCharAt(uriStr, idx, '/') && HasCharAt(uriStr, idx + 1, '/')
      requires !p.hasQuery && !p.hasFragment
      modifies this
      ensures Valid() && Value() == Cook(q) && idx + 2 <= next <= |uriStr|
      ensures next < |uriStr| ==> uriStr[next] in AuthorityStops
      ensures q.path == p.path && !q.hasQuery && !q.hasFragment
      ensures SplitAuthority(uriStr, idx, p)
           == if next < |uriStr| && uriStr[next] != '/' then None else SplitPath(uriStr, next, q)
    {
      next := idx + 2;
      var authorityLen := ParseUriAuthority(uriStr[next..]);
      var authority := uriStr[next..next + authorityLen];
      InsertAuthority(authority);
      next := next + authorityLen;
      q := p.(hasAuthority := true, authority := authority);
      CookAuthority(p, authority);
      AuthorityStage(uriStr, idx, p, next, q);
    }

    /** The path block of Uri::parse: the path runs to the next '?' or '#'
        and is stored decoded. */
    method ParsePathPart(uriStr: string, idx: nat, ghost p: Parts) returns (next: nat, ghost q: Parts)
      requires Valid() && Value() == Cook(p) && idx <= |uriStr| < U16Modulus
      requires !p.hasQuery && !p.hasFragment
      modifies this
      ensures Valid() && Value() == Cook(q) && idx <= next <= |uriStr|
      ensures next < |uriStr| ==> uriStr[next] in PathStops
      ensures !q.hasQuery && !q.hasFragment && q.query == p.query && q.fragment == p.fragment
      ensures SplitPath(uriStr, idx, p) == SplitQuery(uriStr, next, q)
    {
      var pathLen := ParseUriPath(uriStr[idx..]);
      var path := uriStr[idx..idx + pathLen];
      var decodedPath := Decode(path);
      InsertPath(decodedPath);
      next := idx + pathLen;
      q := p.(path := path);
      CookPath(p, path);
      PathStage(uriStr, idx, p, next, q);
    }

    /** The query block of Uri::parse: after '?', the query runs to the next
        '#'. */
    method ParseQueryPart(uriStr: string, idx: nat, ghost p: Parts) returns (next: nat, ghost q: Parts)
      requires Valid() && Value() == Cook(p) && |uriStr| < U16Modulus
      requires HasCharAt(uriStr, idx, '?') && !p.hasFragment
      modifies this
      ensures Valid() && Value() == Cook(q) && idx < next <= |uriStr|
      ensures next < |uriStr| ==> uriStr[next] == '#'
      ensures !q.hasFragment && q.fragment == p.fragment
      ensures SplitQuery(uriStr, idx, p) == SplitFragment(uriStr, next, q)
    {
      next := idx + 1;
      var queryLen := ParseUriQuery(uriStr[next..]);
      var query := uriStr[next..next + queryLen];
      InsertQuery(query);
      next := next + queryLen;
      q := p.(hasQuery := true, query := query);
      CookQuery(p, query);
      QueryStage(uriStr, idx, p, next, q);
    }

    /** The fragment block of Uri::parse: after '#', the fragment is the rest
        of the text. */
    method ParseFragmentPart(uriStr: string, idx: nat, ghost p: Parts) returns (next: nat, ghost q: Parts)
      requires Valid() && Value() == Cook(p) && |uriStr| < U16Modulus
      requires HasCharAt(uriStr, idx, '#')
      modifies this
      ensures Valid() && Value() == Cook(q) && next == |uriStr|
      ensures SplitFragment(uriStr, idx, p) == Some(q)
    {
      next := idx + 1;
      var fragment := uriStr[next..];
      CookFragment(p, fragment);
      InsertFragment(fragment);
      next := next + |fragment|;
      q := p.(hasFragment := true, fragment := fragment);
    }
  }
  /*
   * The steps of Uri::parse against the stages of Split
   */

  /** After "//", the authority scanned by parseUriAuthority. */
  lemma AuthorityStage(s: string, idx: nat, p: Parts, next: nat, q: Parts)
    requires idx + 2 <= next <= |s|
    requires HasCharAt(s, idx, '/') && HasCharAt(s, idx + 1, '/')
    requires next - (idx + 2) == ScanUntil(s[idx + 2..], AuthorityStops)
    requires q == p.(hasAuthority := true, authority := s[idx + 2..next])
    ensures next < |s| ==> s[next] in AuthorityStops
    ensures SplitAuthority(s, idx, p) == if next < |s| && s[next] != '/' then None else SplitPath(s, next, q)
  {
  }

  lemma NoAuthorityStage(s: string, idx: nat, p: Parts)
    requires idx <= |s|
    requires !(HasCharAt(s, idx, '/') && HasCharAt(s, idx + 1, '/'))
    ensures SplitAuthority(s, idx, p) == SplitPath(s, idx, p)
  {
  }

  /** The path scanned by parseUriPath. */
  lemma PathStage(s: string, idx: nat, p: Parts, next: nat, q: Parts)
    requires idx <= next <= |s|
    requires next - idx == ScanUntil(s[idx..], PathStops)
    requires q == p.(path := s[idx..next])
    ensures next < |s| ==> s[next] in PathStops
    ensures SplitPath(s, idx, p) == SplitQuery(s, next, q)
  {
  }

  /** At the end of the text the path is empty. */
  lemma EmptyPathStage(s: string, idx: nat, p: Parts)
    requires idx == |s|
    requires p.path == []
    ensures SplitPath(s, idx, p) == SplitQuery(s, idx, p)
  {
    assert p.(path := s[idx..idx]) == p;
  }

  /** After '?', the query scanned by parseUriQuery. */
  lemma QueryStage(s: string, idx: nat, p: Parts, next: nat, q: Parts)
    requires idx + 1 <= next <= |s|
    requires HasCharAt(s, idx, '?')
    requires next - (idx + 1) == ScanUntil(s[idx + 1..], QueryStops)
    requires q == p.(hasQuery := true, query := s[idx + 1..next])
    ensures next < |s| ==> s[next] == '#'
    ensures SplitQuery(s, idx, p) == SplitFragment(s, next, q)
  {
  }

  lemma CookAuthority(p: Parts, a: string)
    ensures Cook(p.(hasAuthority := true, authority := a))
         == Cook(p).(hasAuthority := true, authority := NormalizeCase(a))
  {
  }

  lemma CookPath(p: Parts, x: string)
    ensures Cook(p.(path := x)) == Cook(p).(path := DecodedOrEmpty(x))
  {
  }

  lemma CookQuery(p: Parts, q: string)
    ensures Cook(p.(hasQuery := true, query := q)) == Cook(p).(hasQuery := true, query := NormalizeCase(q))
  {
  }

  lemma CookFragment(p: Parts, f: string)
    ensures Cook(p.(hasFragment := true, fragment := f))
         == Cook(p).(hasFragment := true, fragment := NormalizeCase(f))
  {
  }

  /** A 16-bit count of `n` characters out of `size` equals `size` exactly
      when all of them were counted and `size` fits 16 bits. */
  lemma WholeScan(n: nat, size: nat)
    requires n <= size
    ensures n % U16Modulus == size <==> n == size && size < U16Modulus
  {
  }

  /** Clearing a presence flag once its component has been emptied. */
  lemma AuthorityDropped(d: string, sl: nat, al: nat, pl: nat, ql: nat, fl: nat,
                         af: bool, qf: bool, ff: bool)
    requires sl + al + pl + ql + fl == |d| && !af
    requires Unpack(d, sl, al, pl, ql, fl, true, qf, ff).authority == NormalizeCase([])
    ensures al == 0
    ensures Unpack(d, sl, al, pl, ql, fl, af, qf, ff)
         == Unpack(d, sl, al, pl, ql, fl, true, qf, ff).(hasAuthority := false, authority := [])
  {
  }

  lemma QueryDropped(d: string, sl: nat, al: nat, pl: nat, ql: nat, fl: nat,
                     af: bool, qf: bool, ff: bool)
    requires sl + al + pl + ql + fl == |d| && !qf
    requires Unpack(d, sl, al, pl, ql, fl, af, true, ff).query == NormalizeCase([])
    ensures ql == 0
    ensures Unpack(d, sl, al, pl, ql, fl, af, qf, ff)
         == Unpack(d, sl, al, pl, ql, fl, af, true, ff).(hasQuery := false, query := [])
  {
  }

  lemma FragmentDropped(d: string, sl: nat, al: nat, pl: nat, ql: nat, fl: nat,
                        af: bool, qf: bool, ff: bool)
    requires sl + al + pl + ql + fl == |d| && !ff
    requires Unpack(d, sl, al, pl, ql, fl, af, qf, true).fragment == NormalizeCase([])
    ensures fl == 0
    ensures Unpack(d, sl, al, pl, ql, fl, af, qf, ff)
         == Unpack(d, sl, al, pl, ql, fl, af, qf, true).(hasFragment := false, fragment := [])
  {
  }

  /** A Uri holding only a scheme is what Cook makes of it. */
  lemma CookEmpty(scheme: string)
    ensures Cook(Empty.(scheme := scheme)) == Empty.(scheme := Lowercase(scheme))
  {
    assert NormalizeCase("") == "";
    assert DecodedOrEmpty("") == "";
  }
}
