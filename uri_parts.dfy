/**
 * The value of an lsp::Uri (lsp/uri.cpp) seen through its accessors, and what
 * Uri::parse and Uri::toString do to it, as functions on text.
 */
module UriParts {
  import opened Ascii
  import opened UriText

  /** The components a Uri reports through its accessors and has* queries. */
  datatype Parts = Parts(
    scheme: string,
    hasAuthority: bool, authority: string,
    path: string,
    hasQuery: bool, query: string,
    hasFragment: bool, fragment: string)

  /** The components of a default-constructed (invalid) Uri. */
  const Empty: Parts := Parts("", false, "", "", false, "", false, "")

  predicate AllSchemeChars(s: string) { forall k :: 0 <= k < |s| ==> IsSchemeChar(s[k]) }

  predicate Avoids(s: string, stops: set<char>) { forall k :: 0 <= k < |s| ==> s[k] !in stops }

  /** What holds of the components of every parsed Uri: the scheme is made of
      scheme characters without capitals; authority, query and fragment have
      upper-case escapes; the authority has no '/', '?' or '#', the query no
      '#'; an absent component is empty. */
  predicate IsCanonical(v: Parts)
  {
    && AllSchemeChars(v.scheme) && HasNoUpper(v.scheme)
    && (!v.hasAuthority ==> v.authority == [])
    && Avoids(v.authority, AuthorityStops) && IsNormalized(v.authority)
    && (!v.hasQuery ==> v.query == [])
    && Avoids(v.query, QueryStops) && IsNormalized(v.query)
    && (!v.hasFragment ==> v.fragment == [])
    && IsNormalized(v.fragment)
  }

  /*
   * Cutting text into components and gluing them back
   */

  /** How Uri::parse cuts its input into raw components (before the scheme is
      lowered, escapes normalised and the path decoded), or None where it
      returns an invalid Uri: no scheme, or no ':' after it. The stages below
      follow the parser's position `idx` and the components found so far. */
  function Split(s: string): Option<Parts>
  {
    var n := SchemeLength(s);
    if n == 0 || !HasCharAt(s, n, ':') then None
    else SplitAuthority(s, n + 1, Empty.(scheme := s[..n]))
  }

  /** "//" opens an authority, which runs to the next '/', '?' or '#'; an
      authority that is not followed by '/' or the end of the text makes the
      whole Uri invalid. */
  function SplitAuthority(s: string, idx: nat, p: Parts): Option<Parts>
    requires idx <= |s|
  {
    if HasCharAt(s, idx, '/') && HasCharAt(s, idx + 1, '/') then
      var start := idx + 2;
      var end := start + ScanUntil(s[start..], AuthorityStops);
      if end < |s| && s[end] != '/' then None
      else SplitPath(s, end, p.(hasAuthority := true, authority := s[start..end]))
    else SplitPath(s, idx, p)
  }

  /** The path runs to the next '?' or '#'. */
  function SplitPath(s: string, idx: nat, p: Parts): Option<Parts>
    requires idx <= |s|
  {
    var end := idx + ScanUntil(s[idx..], PathStops);
    SplitQuery(s, end, p.(path := s[idx..end]))
  }

  /** '?' opens a query, which runs to the next '#'. */
  function SplitQuery(s: string, idx: nat, p: Parts): Option<Parts>
    requires idx <= |s|
  {
    if HasCharAt(s, idx, '?') then
      var start := idx + 1;
      var end := start + ScanUntil(s[start..], QueryStops);
      SplitFragment(s, end, p.(hasQuery := true, query := s[start..end]))
    else SplitFragment(s, idx, p)
  }

  /** '#' opens a fragment, which runs to the end of the text. */
  function SplitFragment(s: string, idx: nat, p: Parts): Option<Parts>
    requires idx <= |s|
  {
    if HasCharAt(s, idx, '#') then Some(p.(hasFragment := true, fragment := s[idx + 1..]))
    else Some(p)
  }

  /** parse gives up exactly when the text has no scheme, when hasCharAt
      finds no ':' after the scheme (also where the text ends there), or when
      a "//" at `a`, just after the ':', opens an authority that is followed
      by a character other than '/'. The path, query and fragment stages
      never fail. */
  lemma SplitFailsIff(s: string)
    ensures var n := SchemeLength(s); var a := n + 1;
      Split(s).None? <==>
        || n == 0
        || !HasCharAt(s, n, ':')
        || (&& HasCharAt(s, a, '/') && HasCharAt(s, a + 1, '/')
            && a + 2 + ScanUntil(s[a + 2..], AuthorityStops) < |s|
            && s[a + 2 + ScanUntil(s[a + 2..], AuthorityStops)] != '/')
  {
    var n := SchemeLength(s);
    SplitAfterScheme(s);
    if n != 0 && HasCharAt(s, n, ':') {
      SplitAuthorityFailsIff(s, n + 1, Empty.(scheme := s[..n]));
    }
  }

  /** Without a scheme and its ':' parse gives up; with them it goes on
      with the authority stage just after the ':'. */
  lemma SplitAfterScheme(s: string)
    ensures var n := SchemeLength(s);
      n == 0 || !HasCharAt(s, n, ':') ==> Split(s) == None
    ensures var n := SchemeLength(s);
      n != 0 && HasCharAt(s, n, ':') ==>
        Split(s) == SplitAuthority(s, n + 1, Empty.(scheme := s[..n]))
  {
  }

  /** The authority stage fails exactly when "//" opens an authority and
      the scan for it stops at a character other than '/'. */
  lemma SplitAuthorityFailsIff(s: string, idx: nat, p: Parts)
    requires idx <= |s|
    ensures SplitAuthority(s, idx, p).None? <==>
      (&& HasCharAt(s, idx, '/') && HasCharAt(s, idx + 1, '/')
       && idx + 2 + ScanUntil(s[idx + 2..], AuthorityStops) < |s|
       && s[idx + 2 + ScanUntil(s[idx + 2..], AuthorityStops)] != '/')
  {
    if HasCharAt(s, idx, '/') && HasCharAt(s, idx + 1, '/') {
      var end := idx + 2 + ScanUntil(s[idx + 2..], AuthorityStops);
      if !(end < |s| && s[end] != '/') {
        SplitPathSucceeds(s, end, p.(hasAuthority := true, authority := s[idx + 2..end]));
      }
    } else {
      SplitPathSucceeds(s, idx, p);
    }
  }

  /** The path stage, and the query and fragment stages after it, never fail. */
  lemma SplitPathSucceeds(s: string, idx: nat, p: Parts)
    requires idx <= |s|
    ensures SplitPath(s, idx, p).Some?
  {
  }

  /** The text Uri::toString has built once the scheme, the authority, the
      path and the query have been appended. */
  function WithScheme(p: Parts): string { p.scheme + ":" }

  function WithAuthority(p: Parts): string
  {
    if p.hasAuthority then WithScheme(p) + "//" + p.authority else WithScheme(p)
  }

  function WithPath(p: Parts): string { WithAuthority(p) + p.path }

  function WithQuery(p: Parts): string
  {
    if p.hasQuery then WithPath(p) + "?" + p.query else WithPath(p)
  }

  /** The components with their delimiters, appended in the order of
      Uri::toString. */
  function Join(p: Parts): string
  {
    if p.hasFragment then WithQuery(p) + "#" + p.fragment else WithQuery(p)
  }

  /** What the insert* calls of Uri::parse make of the raw components. */
  function Cook(p: Parts): Parts
  {
    Parts(Lowercase(p.scheme),
          p.hasAuthority, NormalizeCase(p.authority),
          DecodedOrEmpty(p.path),
          p.hasQuery, NormalizeCase(p.query),
          p.hasFragment, NormalizeCase(p.fragment))
  }

  /** The components of Uri::parse(s). */
  function ParseValue(s: string): Parts
  {
    match Split(s)
    case None => Empty
    case Some(p) => Cook(p)
  }

  /** The text of Uri::toString: "" for an invalid Uri, otherwise the
      components with their delimiters and the path percent-encoded with '/'
      left as it is. */
  function Serialize(v: Parts): string
    requires v.scheme != [] ==> IsByteString(v.path)
  {
    if v.scheme == [] then "" else Join(v.(path := Encoded(v.path, "/")))
  }

  /*
   * Split reads every character: gluing back what it finds gives the input
   */

  lemma JoinSplit(s: string)
    requires Split(s).Some?
    ensures Join(Split(s).value) == s
  {
    var n := SchemeLength(s);
    var p := Empty.(scheme := s[..n]);
    assert s[..n + 1] == WithScheme(p);
    SplitAfterScheme(s);
    JoinSplitAuthority(s, n + 1, p);
  }

  lemma JoinSplitAuthority(s: string, idx: nat, p: Parts)
    requires idx <= |s| && s[..idx] == WithScheme(p)
    requires !p.hasAuthority && !p.hasQuery && !p.hasFragment
    requires SplitAuthority(s, idx, p).Some?
    ensures Join(SplitAuthority(s, idx, p).value) == s
  {
    if HasCharAt(s, idx, '/') && HasCharAt(s, idx + 1, '/') {
      var start := idx + 2;
      var end := start + ScanUntil(s[start..], AuthorityStops);
      var q := p.(hasAuthority := true, authority := s[start..end]);
      PrefixGrow(s, idx, start, "//");
      PrefixGrow(s, start, end, s[start..end]);
      assert s[..end] == WithAuthority(q);
      assert SplitAuthority(s, idx, p) == SplitPath(s, end, q);
      JoinSplitPath(s, end, q);
    } else {
      assert SplitAuthority(s, idx, p) == SplitPath(s, idx, p);
      JoinSplitPath(s, idx, p);
    }
  }

  lemma JoinSplitPath(s: string, idx: nat, p: Parts)
    requires idx <= |s| && s[..idx] == WithAuthority(p)
    requires !p.hasQuery && !p.hasFragment
    ensures Join(SplitPath(s, idx, p).value) == s
  {
    var end := idx + ScanUntil(s[idx..], PathStops);
    var q := p.(path := s[idx..end]);
    assert SplitPath(s, idx, p) == SplitQuery(s, end, q);
    assert s[..end] == WithPath(q) by {
      PrefixGrow(s, idx, end, s[idx..end]);
    }
    assert end == |s| || s[end] in PathStops;
    JoinSplitQuery(s, end, q);
  }

  lemma JoinSplitQuery(s: string, idx: nat, p: Parts)
    requires idx <= |s| && s[..idx] == WithPath(p)
    requires idx == |s| || s[idx] in PathStops
    requires !p.hasQuery && !p.hasFragment
    ensures Join(SplitQuery(s, idx, p).value) == s
  {
    if HasCharAt(s, idx, '?') {
      var start := idx + 1;
      var end := start + ScanUntil(s[start..], QueryStops);
      var q := p.(hasQuery := true, query := s[start..end]);
      PrefixGrow(s, idx, start, "?");
      PrefixGrow(s, start, end, s[start..end]);
      assert s[..end] == WithQuery(q);
      assert SplitQuery(s, idx, p) == SplitFragment(s, end, q);
      JoinSplitFragment(s, end, q);
    } else {
      assert s[..idx] == WithQuery(p);
      assert SplitQuery(s, idx, p) == SplitFragment(s, idx, p);
      JoinSplitFragment(s, idx, p);
    }
  }

  lemma JoinSplitFragment(s: string, idx: nat, p: Parts)
    requires idx <= |s| && s[..idx] == WithQuery(p)
    requires idx == |s| || s[idx] == '#'
    requires !p.hasFragment
    ensures Join(SplitFragment(s, idx, p).value) == s
  {
    if HasCharAt(s, idx, '#') {
      var q := p.(hasFragment := true, fragment := s[idx + 1..]);
      assert WithQuery(q) == WithQuery(p);
      PrefixGrow(s, idx, idx + 1, "#");
      PrefixGrow(s, idx + 1, |s|, s[idx + 1..]);
    }
    assert s[..|s|] == s;
  }

  /** A prefix of a text grows by the slice that follows it. */
  lemma PrefixGrow(s: string, i: nat, j: nat, t: string)
    requires i <= j <= |s| && s[i..j] == t
    ensures s[..i] + t == s[..j]
  {
  }

  /*
   * Split reads back what Join writes
   */

  /** What toString must be given for parse to read its components back:
      a scheme of scheme characters, absent components empty, no delimiter
      inside a component that would end it early, a path that neither runs
      into the authority nor looks like one, and (since parse rejects an
      authority followed directly by '?' or '#') a non-empty path between an
      authority and a query or fragment. */
  predicate Joinable(p: Parts)
  {
    && p.scheme != [] && AllSchemeChars(p.scheme)
    && (!p.hasAuthority ==> p.authority == [])
    && Avoids(p.authority, AuthorityStops)
    && Avoids(p.path, PathStops)
    && (p.hasAuthority && p.path != [] ==> p.path[0] == '/')
    && (p.hasAuthority && p.path == [] ==> !p.hasQuery && !p.hasFragment)
    && (!p.hasAuthority && |p.path| >= 2 ==> !(p.path[0] == '/' && p.path[1] == '/'))
    && (!p.hasQuery ==> p.query == [])
    && Avoids(p.query, QueryStops)
    && (!p.hasFragment ==> p.fragment == [])
  }

  /** The components a parser has found before reaching the fragment, the
      query, the path and the authority. */
  function UpToQuery(p: Parts): Parts { p.(hasFragment := false, fragment := []) }
  function UpToPath(p: Parts): Parts { UpToQuery(p).(hasQuery := false, query := []) }
  function UpToAuthority(p: Parts): Parts { UpToPath(p).(path := []) }

  lemma SplitJoin(p: Parts)
    requires Joinable(p)
    ensures Split(Join(p)) == Some(p)
  {
    SchemeOfJoin(p);
    SplitJoinAuthority(p);
  }

  /** The text of toString starts with the scheme and ':'. */
  lemma SchemeOfJoin(p: Parts)
    requires p.scheme != [] && AllSchemeChars(p.scheme)
    ensures var s, n := Join(p), |p.scheme|;
      && SchemeLength(s) == n && HasCharAt(s, n, ':')
      && Empty.(scheme := s[..n]) == UpToAuthority(p).(hasAuthority := false, authority := [])
      && |WithScheme(p)| == n + 1
  {
    var s, n := Join(p), |p.scheme|;
    JoinPrefixes(p);
    assert s[..n + 1] == WithScheme(p);
    assert s[..n] == s[..n + 1][..n];
    SchemeLengthOf(s, n);
  }

  lemma SplitJoinAuthority(p: Parts)
    requires Joinable(p)
    ensures SplitAuthority(Join(p), |WithScheme(p)|, UpToAuthority(p).(hasAuthority := false, authority := []))
         == Some(p)
  {
    var s, i, w := Join(p), |WithScheme(p)|, |WithAuthority(p)|;
    var q := UpToAuthority(p).(hasAuthority := false, authority := []);
    assert SplitAuthority(s, i, q) == SplitPath(s, w, UpToAuthority(p)) by {
      AuthorityOfJoin(p);
    }
    SplitJoinPath(p);
  }

  /** How the parser gets from the ':' to the path in the text of toString. */
  lemma AuthorityOfJoin(p: Parts)
    requires Joinable(p)
    ensures var s, i, w := Join(p), |WithScheme(p)|, |WithAuthority(p)|;
      var q := UpToAuthority(p).(hasAuthority := false, authority := []);
      && i <= w <= |s|
      && (p.hasAuthority ==>
            && HasCharAt(s, i, '/') && HasCharAt(s, i + 1, '/') && i + 2 <= w
            && ScanUntil(s[i + 2..], AuthorityStops) == |p.authority|
            && (w == |s| || s[w] == '/')
            && q.(hasAuthority := true, authority := s[i + 2..w]) == UpToAuthority(p))
      && (!p.hasAuthority ==>
            && w == i && !(HasCharAt(s, i, '/') && HasCharAt(s, i + 1, '/'))
            && q == UpToAuthority(p))
  {
    var s, i, w := Join(p), |WithScheme(p)|, |WithAuthority(p)|;
    AfterAuthority(p);
    PathSlice(p);
    if p.hasAuthority {
      AuthoritySlice(p);
      ScanUntilOf(s[i + 2..], AuthorityStops, |p.authority|);
    }
  }

  lemma SplitJoinPath(p: Parts)
    requires Joinable(p)
    ensures SplitPath(Join(p), |WithAuthority(p)|, UpToAuthority(p)) == Some(p)
  {
    PathOfJoin(p);
    SplitJoinQuery(p);
  }

  /** How the parser gets across the path in the text of toString. */
  lemma PathOfJoin(p: Parts)
    requires Avoids(p.path, PathStops)
    ensures var s, w, v := Join(p), |WithAuthority(p)|, |WithPath(p)|;
      && w <= v <= |s|
      && ScanUntil(s[w..], PathStops) == |p.path|
      && UpToAuthority(p).(path := s[w..v]) == UpToPath(p)
  {
    var s, w, v := Join(p), |WithAuthority(p)|, |WithPath(p)|;
    PathSlice(p);
    AfterPath(p);
    ScanUntilOf(s[w..], PathStops, |p.path|);
  }

  lemma SplitJoinQuery(p: Parts)
    requires Joinable(p)
    ensures SplitQuery(Join(p), |WithPath(p)|, UpToPath(p)) == Some(p)
  {
    QueryOfJoin(p);
    SplitJoinFragment(p);
  }

  /** How the parser gets across the query in the text of toString. */
  lemma QueryOfJoin(p: Parts)
    requires Avoids(p.query, QueryStops) && (!p.hasQuery ==> p.query == [])
    ensures var s, v, u := Join(p), |WithPath(p)|, |WithQuery(p)|;
      && v <= u <= |s|
      && (p.hasQuery ==>
            && HasCharAt(s, v, '?') && v + 1 <= u
            && ScanUntil(s[v + 1..], QueryStops) == |p.query|
            && UpToPath(p).(hasQuery := true, query := s[v + 1..u]) == UpToQuery(p))
      && (!p.hasQuery ==> u == v && !HasCharAt(s, v, '?') && UpToPath(p) == UpToQuery(p))
  {
    var s, v, u := Join(p), |WithPath(p)|, |WithQuery(p)|;
    AfterPath(p);
    AfterQuery(p);
    if p.hasQuery {
      QuerySlice(p);
      ScanUntilOf(s[v + 1..], QueryStops, |p.query|);
    }
  }

  lemma SplitJoinFragment(p: Parts)
    requires !p.hasFragment ==> p.fragment == []
    ensures SplitFragment(Join(p), |WithQuery(p)|, UpToQuery(p)) == Some(p)
  {
    var s, u := Join(p), |WithQuery(p)|;
    if p.hasFragment {
      assert s[u] == '#' && s[u + 1..] == p.fragment;
    }
  }

  /** Where the authority sits in the text of toString. */
  lemma AuthoritySlice(p: Parts)
    requires p.hasAuthority
    ensures var s, i, w := Join(p), |WithScheme(p)|, |WithAuthority(p)|;
      && i + 2 <= w <= |s| && s[i] == '/' && s[i + 1] == '/' && s[i + 2..w] == p.authority
  {
    var s, i, w := Join(p), |WithScheme(p)|, |WithAuthority(p)|;
    JoinPrefixes(p);
    assert s[..w] == WithScheme(p) + "//" + p.authority;
    assert s[i + 2..w] == s[..w][i + 2..w];
  }

  /** Where the path sits in the text of toString. */
  lemma PathSlice(p: Parts)
    ensures var s, w, v := Join(p), |WithAuthority(p)|, |WithPath(p)|;
      && w <= v <= |s| && s[w..v] == p.path
  {
    var s, w, v := Join(p), |WithAuthority(p)|, |WithPath(p)|;
    JoinPrefixes(p);
    assert s[w..v] == s[..v][w..v];
  }

  /** Where the query sits in the text of toString. */
  lemma QuerySlice(p: Parts)
    requires p.hasQuery
    ensures var s, v, u := Join(p), |WithPath(p)|, |WithQuery(p)|;
      && v + 1 <= u <= |s| && s[v] == '?' && s[v + 1..u] == p.query
  {
    var s, v, u := Join(p), |WithPath(p)|, |WithQuery(p)|;
    JoinPrefixes(p);
    assert s[..u] == WithPath(p) + "?" + p.query;
    assert s[v + 1..u] == s[..u][v + 1..u];
  }

  /** What follows the authority in the text of toString. */
  lemma AfterAuthority(p: Parts)
    requires Joinable(p)
    ensures var s, w := Join(p), |WithAuthority(p)|;
      && (p.hasAuthority ==> w == |s| || s[w] == '/')
      && (!p.hasAuthority ==> w == |WithScheme(p)| && !(w + 1 < |s| && s[w] == '/' && s[w + 1] == '/'))
  {
    var s, w := Join(p), |WithAuthority(p)|;
    var v := |WithPath(p)|;
    PathSlice(p);
    AfterPath(p);
    if p.path != [] {
      assert s[w] == s[w..v][0] == p.path[0];
      if |p.path| >= 2 {
        assert s[w + 1] == s[w..v][1] == p.path[1];
      } else if w + 1 < |s| {
        assert s[w + 1] in PathStops;
      }
    } else if p.hasAuthority {
      AfterQuery(p);
    }
  }

  /** What follows the path in the text of toString: a '?' exactly when
      there is a query, otherwise a '#' or the end. */
  lemma AfterPath(p: Parts)
    ensures var s, v := Join(p), |WithPath(p)|;
      && v <= |s|
      && (v < |s| ==> s[v] in PathStops)
      && (HasCharAt(s, v, '?') <==> p.hasQuery)
      && (!p.hasQuery ==> v == |WithQuery(p)|)
  {
    var s, v := Join(p), |WithPath(p)|;
    JoinPrefixes(p);
    if p.hasQuery {
      assert s[..v + 1] == WithPath(p) + "?";
    } else if p.hasFragment {
      assert s == WithPath(p) + "#" + p.fragment;
    }
  }

  /** What follows the query in the text of toString: a '#' exactly when
      there is a fragment, otherwise the end. */
  lemma AfterQuery(p: Parts)
    ensures var s, u := Join(p), |WithQuery(p)|;
      && u <= |s|
      && (u < |s| <==> p.hasFragment)
      && (u < |s| ==> s[u] == '#')
  {
  }

  /** The text of toString starts with each of its partial texts. */
  lemma JoinPrefixes(p: Parts)
    ensures var s := Join(p);
      && s[..|WithQuery(p)|] == WithQuery(p)
      && s[..|WithPath(p)|] == WithPath(p)
      && s[..|WithAuthority(p)|] == WithAuthority(p)
      && s[..|WithScheme(p)|] == WithScheme(p)
  {
    var s := Join(p);
    PrefixOfPrefix(s, WithQuery(p), WithPath(p));
    PrefixOfPrefix(s, WithPath(p), WithAuthority(p));
    PrefixOfPrefix(s, WithAuthority(p), WithScheme(p));
  }

  lemma PrefixOfPrefix(s: string, t: string, u: string)
    requires |t| <= |s| && s[..|t|] == t
    requires |u| <= |t| && t[..|u|] == u
    ensures s[..|u|] == u
  {
    assert s[..|u|] == s[..|t|][..|u|];
  }

  /** The scheme scanner stops right at a character that is not a scheme
      character. */
  lemma SchemeLengthOf(s: string, n: nat)
    requires n < |s| && !IsSchemeChar(s[n])
    requires forall k :: 0 <= k < n ==> IsSchemeChar(s[k])
    ensures SchemeLength(s) == n
  {
  }

  /** A scanner stops right at the first stop character. */
  lemma ScanUntilOf(s: string, stops: set<char>, n: nat)
    requires n <= |s| && (n < |s| ==> s[n] in stops)
    requires forall k :: 0 <= k < n ==> s[k] !in stops
    ensures ScanUntil(s, stops) == n
  {
  }

  /*
   * What parse produces, and the round trip through toString
   */

  /** The raw components Split finds: a scheme of scheme characters, absent
      components empty, and no component holding the delimiter that ends it. */
  predicate Shaped(p: Parts)
  {
    && p.scheme != [] && AllSchemeChars(p.scheme)
    && (!p.hasAuthority ==> p.authority == []) && Avoids(p.authority, AuthorityStops)
    && Avoids(p.path, PathStops)
    && (!p.hasQuery ==> p.query == []) && Avoids(p.query, QueryStops)
    && (!p.hasFragment ==> p.fragment == [])
  }

  lemma SplitShaped(s: string)
    requires Split(s).Some?
    ensures Shaped(Split(s).value)
  {
    var n := SchemeLength(s);
    var p := Empty.(scheme := s[..n]);
    SplitAfterScheme(s);
    SplitAuthorityShaped(s, n + 1, p);
  }

  lemma SplitAuthorityShaped(s: string, idx: nat, p: Parts)
    requires idx <= |s| && Shaped(p) && p.path == []
    requires SplitAuthority(s, idx, p).Some?
    ensures Shaped(SplitAuthority(s, idx, p).value)
  {
    if HasCharAt(s, idx, '/') && HasCharAt(s, idx + 1, '/') {
      var start := idx + 2;
      var end := start + ScanUntil(s[start..], AuthorityStops);
      var q := p.(hasAuthority := true, authority := s[start..end]);
      AuthorityCutShaped(s, start, p);
      assert SplitAuthority(s, idx, p) == SplitPath(s, end, q);
      SplitPathShaped(s, end, q);
    } else {
      assert SplitAuthority(s, idx, p) == SplitPath(s, idx, p);
      SplitPathShaped(s, idx, p);
    }
  }

  lemma AuthorityCutShaped(s: string, start: nat, p: Parts)
    requires start <= |s| && Shaped(p) && p.path == []
    ensures var end := start + ScanUntil(s[start..], AuthorityStops);
      Shaped(p.(hasAuthority := true, authority := s[start..end]))
  {
    var end := start + ScanUntil(s[start..], AuthorityStops);
    assert forall k :: 0 <= k < end - start ==> s[start..end][k] == s[start..][k];
  }

  lemma SplitPathShaped(s: string, idx: nat, p: Parts)
    requires idx <= |s| && Shaped(p.(path := []))
    ensures Shaped(SplitPath(s, idx, p).value)
  {
    var end := idx + ScanUntil(s[idx..], PathStops);
    var q := p.(path := s[idx..end]);
    assert Avoids(s[idx..end], PathStops) by {
      assert forall k :: 0 <= k < end - idx ==> s[idx..end][k] == s[idx..][k];
    }
    assert SplitPath(s, idx, p) == SplitQuery(s, end, q);
    SplitQueryShaped(s, end, q);
  }

  lemma SplitQueryShaped(s: string, idx: nat, p: Parts)
    requires idx <= |s| && Shaped(p)
    ensures Shaped(SplitQuery(s, idx, p).value)
  {
    if HasCharAt(s, idx, '?') {
      var start := idx + 1;
      var end := start + ScanUntil(s[start..], QueryStops);
      var q := p.(hasQuery := true, query := s[start..end]);
      assert Avoids(s[start..end], QueryStops) by {
        assert forall k :: 0 <= k < end - start ==> s[start..end][k] == s[start..][k];
      }
      assert SplitQuery(s, idx, p) == SplitFragment(s, end, q);
    } else {
      assert SplitQuery(s, idx, p) == SplitFragment(s, idx, p);
    }
  }

  /** Normalising escapes upper-cases letters only, so it keeps every
      delimiter out that was out before. */
  lemma NormalizeAvoids(s: string, stops: set<char>)
    requires Avoids(s, stops)
    requires forall c :: c in stops ==> !IsLower(c) && !IsUpper(c)
    ensures Avoids(NormalizeCase(s), stops) && IsNormalized(NormalizeCase(s))
  {
    NormalizeOnlyUppercases(s);
    NormalizeIdempotent(s);
    forall k | 0 <= k < |s|
      ensures NormalizeCase(s)[k] !in stops
    {
      if NormalizeCase(s)[k] != s[k] {
        assert NormalizeCase(s)[k] == ToUpper(s[k]) && IsUpper(ToUpper(s[k]));
      }
    }
  }

  /** Lowering keeps scheme characters scheme characters. */
  lemma LowercaseSchemeChars(s: string)
    requires AllSchemeChars(s)
    ensures AllSchemeChars(Lowercase(s)) && HasNoUpper(Lowercase(s))
  {
  }

  /** Uri::parse either fails, giving the empty invalid Uri, or gives a valid
      Uri whose components meet the canonical form: lower-case scheme,
      upper-case escapes, no stray delimiters, absent components empty. */
  lemma ParseValueCanonical(s: string)
    ensures Split(s).None? ==> ParseValue(s) == Empty
    ensures Split(s).Some? ==> ParseValue(s).scheme != [] && IsCanonical(ParseValue(s))
  {
    if Split(s).Some? {
      var p := Split(s).value;
      SplitShaped(s);
      LowercaseSchemeChars(p.scheme);
      NormalizeAvoids(p.authority, AuthorityStops);
      NormalizeAvoids(p.query, QueryStops);
      NormalizeAvoids(p.fragment, {});
    }
  }

  /** The Uri values toString and parse carry through unchanged: canonical,
      valid, a path of bytes that starts with '/' under an authority and does
      not start with "//" without one, and under an authority either a
      non-empty path or no query and no fragment. */
  predicate Serializable(v: Parts)
  {
    && IsCanonical(v) && v.scheme != [] && IsByteString(v.path)
    && (v.hasAuthority && v.path != [] ==> v.path[0] == '/')
    && (v.hasAuthority && v.path == [] ==> !v.hasQuery && !v.hasFragment)
    && (!v.hasAuthority && |v.path| >= 2 ==> !(v.path[0] == '/' && v.path[1] == '/'))
  }

  /** Parsing the text of toString gives back the Uri. */
  lemma ParseSerialize(v: Parts)
    requires Serializable(v)
    ensures ParseValue(Serialize(v)) == v
  {
    var e := Encoded(v.path, "/");
    var p := v.(path := e);
    assert Joinable(p) by {
      EncodedAvoids(v.path, "/", PathStops);
      EncodedFront(v.path, "/");
      if v.path != [] && v.path[0] == '/' && |e| >= 2 {
        EncodedFront(v.path[1..], "/");
        assert e[1] == Encoded(v.path[1..], "/")[0];
        assert v.path[1..][0] == v.path[1];
      }
    }
    SplitJoin(p);
    LowercaseFixed(v.scheme);
    DecodeEncode(v.path, "/");
  }

  /** toString gives "" exactly for an invalid Uri. */
  lemma SerializeEmptyIff(v: Parts)
    requires v.scheme != [] ==> IsByteString(v.path)
    ensures Serialize(v) == "" <==> v.scheme == []
  {
    if v.scheme != [] {
      var p := v.(path := Encoded(v.path, "/"));
      JoinPrefixes(p);
      assert |Join(p)| >= |WithScheme(p)| > 0;
    }
  }
}


