/**
 Scheme and host are read without regard to case (section 6.2.2.1 of RFC 3986), and nothing else is.
 */
module UriCase {
  import opened Strings
  import opened UriCodec
  import opened UriSyntax
  import opened UriRoundTrip

  // ---------- characters and strings ----------

  lemma SameKind(c: char, d: char)
    requires SameLetter(c, d)
    ensures c == d || (IsAlpha(c) && IsAlpha(d))
    ensures LowerChar(c) == LowerChar(d) && SameLetter(d, c)
  {
    if k :| 0 <= k < 26 && ((c == UPPER[k] && d == LOWER[k]) || (c == LOWER[k] && d == UPPER[k])) {
      Letters(k);
    }
  }

  lemma SameIsLower(s: string, t: string)
    requires SameButCase(s, t)
    ensures Lower(s) == Lower(t)
  {
    forall i | 0 <= i < |s| ensures Lower(s)[i] == Lower(t)[i] {
      SameKind(s[i], t[i]);
    }
  }

  lemma SameClass(s: string, t: string, class_: Class)
    requires SameButCase(s, t)
    ensures All(s, class_) <==> All(t, class_)
  {
    forall i | 0 <= i < |s| ensures class_.Has(s[i]) <==> class_.Has(t[i]) {
      SameKind(s[i], t[i]);
    }
  }

  lemma SameStops(s: string, t: string, stops: set<char>)
    requires SameButCase(s, t) && None(s, stops) && forall c | c in stops :: !IsAlpha(c)
    ensures None(t, stops)
  {
    forall i | 0 <= i < |t| ensures t[i] !in stops {
      SameKind(s[i], t[i]);
    }
  }

  lemma SamePart(s: string, t: string, i: nat, j: nat)
    requires SameButCase(s, t) && i <= j <= |s|
    ensures SameButCase(s[i..j], t[i..j])
  {
  }

  // ---------- schemes ----------

  /** The case of the scheme does not matter. */
  lemma SchemeCase(x: string, y: string, rest: string)
    requires SameButCase(x, y) && None(x, {':', '/'})
    ensures Parse(x + ":" + rest) == Parse(y + ":" + rest)
  {
    SameStops(x, y, {':', '/'});
    SchemeSplit(x, rest);
    SchemeSplit(y, rest);
    SameIsLower(x, y);
    SameClass(x, y, Scheme);
    if x != "" {
      SameKind(x[0], y[0]);
    }
  }

  lemma SchemeSplit(x: string, rest: string)
    requires None(x, {':', '/'})
    ensures Parse(x + ":" + rest)
         == if x != "" && IsAlpha(x[0]) && All(x, Scheme) then ParseHierarchy(Lower(x), rest) else Failure(InvalidUri)
  {
    Assoc(x, ":", rest);
    BeforeConcat(x, ":" + rest, {':', '/'});
    Cut(":", rest);
  }

  // ---------- hosts ----------

  lemma SameBackOver(a: string, b: string, k: nat)
    requires SameButCase(a, b) && k < |a|
    ensures BackOverDigits(a, k) == BackOverDigits(b, k)
  {
    var j := BackOverDigits(a, k);
    forall i | 0 <= i < |a| ensures IsDigit(a[i]) <==> IsDigit(b[i]) {
      SameKind(a[i], b[i]);
    }
    BackOverSame(b, j, k);
  }

  lemma SamePort(a: string, b: string)
    requires SameButCase(a, b) && a != ""
    ensures PortPart(a) == PortPart(b) && SameButCase(HostPart(a), HostPart(b))
  {
    SameBackOver(a, b, |a| - 1);
    var j := BackOverDigits(a, |a| - 1);
    SameKind(a[j], b[j]);
    SamePart(a, b, 0, j);
    assert a[0..j] == a[..j] && b[0..j] == b[..j];
    SameDigits(a, b, j + 1);
  }

  lemma SameDigits(a: string, b: string, j: nat)
    requires SameButCase(a, b) && j <= |a| && forall i | j <= i < |a| :: IsDigit(a[i])
    ensures a[j..] == b[j..]
  {
    forall i | j <= i < |a| ensures a[i] == b[i] {
      SameKind(a[i], b[i]);
    }
  }

  lemma SameUser(h: string, g: string)
    requires SameButCase(h, g)
    ensures UserSpan(g) == UserSpan(h) && HasUser(g) == HasUser(h)
    ensures SameButCase(UserPart(h), UserPart(g)) && SameButCase(AfterUser(h), AfterUser(g))
  {
    var n := UserSpan(h);
    forall i | 0 <= i < |h| ensures (IsUserInfoChar(h[i]) <==> IsUserInfoChar(g[i])) && (h[i] == '@' <==> g[i] == '@') {
      SameKind(h[i], g[i]);
    }
    forall i | 0 <= i < n ensures IsUserInfoChar(g[i]) {
      assert User.Has(h[..n][i]);
    }
    UserSpanIs(g, n);
    SamePart(h, g, 0, n);
    SamePart(h, g, if HasUser(h) then n + 1 else 0, |h|);
    assert h[0..n] == h[..n] && g[0..n] == g[..n];
    assert h[0..|h|] == h && g[0..|g|] == g;
  }

  /** Components of an authority: those of the other but for the user information. */
  lemma SameAuthority(scheme: string, a: string, b: string)
    requires SameButCase(a, b)
    ensures var u, v := WithAuthority(scheme, a), WithAuthority(scheme, b);
            v == u.(userInfo := v.userInfo) && SameButCase(u.userInfo, v.userInfo)
  {
    if a != "" {
      SamePort(a, b);
      SameUser(HostPart(a), HostPart(b));
      SameIsLower(AfterUser(HostPart(a)), AfterUser(HostPart(b)));
    }
  }

  lemma AuthoritySplit(scheme: string, a: string, rest: string)
    requires None(a, {'/', '?', '#'}) && (rest != "" ==> rest[0] in {'/', '?', '#'})
    ensures ParseHierarchy(scheme, "//" + a + rest)
         == if All(a, Authority) then ParsePath(WithAuthority(scheme, a), rest) else Failure(InvalidUri)
  {
    BeforeConcat(a, rest, {'/', '?', '#'});
    Assoc("//", a, rest);
    Cut("//", a + rest);
  }

  /** User information is what is in front of the first '@', and its case stays. */
  lemma UserIsFront(a: string, b: string)
    requires SameButCase(a, b) && a != "" && ('@' in a ==> Before(a, {'@'}) == Before(b, {'@'}))
    ensures UserPart(HostPart(a)) == UserPart(HostPart(b))
  {
    SamePort(a, b);
    var h, g := HostPart(a), HostPart(b);
    SameUser(h, g);
    if HasUser(h) {
      UserBefore(a, h);
      UserBefore(b, g);
    }
  }

  lemma UserBefore(a: string, h: string)
    requires h <= a && HasUser(h)
    ensures '@' in a && UserPart(h) == Before(a, {'@'})
  {
    var n := UserSpan(h);
    assert a[n] == '@' && a == a[..n] + a[n..] && a[..n] == h[..n];
    forall i | 0 <= i < n ensures a[..n][i] !in {'@'} {
      assert User.Has(h[..n][i]);
    }
    BeforeConcat(a[..n], a[n..], {'@'});
  }

  lemma HostCase(scheme: string, a: string, b: string, rest: string)
    requires SameButCase(a, b) && ('@' in a ==> Before(a, {'@'}) == Before(b, {'@'}))
    requires None(a, {'/', '?', '#'}) && (rest != "" ==> rest[0] in {'/', '?', '#'})
    ensures ParseHierarchy(scheme, "//" + a + rest) == ParseHierarchy(scheme, "//" + b + rest)
  {
    SameStops(a, b, {'/', '?', '#'});
    AuthoritySplit(scheme, a, rest);
    AuthoritySplit(scheme, b, rest);
    SameClass(a, b, Authority);
    SameAuthority(scheme, a, b);
    if a != "" {
      UserIsFront(a, b);
    }
  }

  // ---------- the main theorem ----------

  /** Nothing, or a scheme and its colon. */
  predicate IsFront(f: string) {
    f == "" || (f[|f| - 1] == ':' && None(f[..|f| - 1], {':', '/'}))
  }

  /** Texts that differ in the case of letters of the scheme, or of the authority behind its user information, are
      the same URI, or both none. */
  lemma CaseDoesNotMatter(f: string, g: string, a: string, b: string, rest: string)
    requires SameButCase(f, g) && IsFront(f)
    requires SameButCase(a, b) && ('@' in a ==> Before(a, {'@'}) == Before(b, {'@'}))
    requires None(a, {'/', '?', '#'}) && (rest != "" ==> rest[0] in {'/', '?', '#'})
    ensures Parse(f + ("//" + a + rest)) == Parse(g + ("//" + b + rest))
  {
    var s, t := "//" + a + rest, "//" + b + rest;
    HostCase("", a, b, rest);
    if f == "" {
      FrontIsNone(s);
      FrontIsNone(t);
    } else {
      FrontIsScheme(f, g);
      BothCases(f[..|f| - 1], g[..|g| - 1], a, b, rest);
    }
  }

  lemma FrontIsNone(s: string)
    requires StartsWith(s, '/')
    ensures Parse("" + s) == ParseHierarchy("", s)
  {
    Nil(s);
    SlashRead(s);
  }

  lemma FrontIsScheme(f: string, g: string)
    requires SameButCase(f, g) && IsFront(f) && f != ""
    ensures var x, y := f[..|f| - 1], g[..|g| - 1];
            f == x + ":" && g == y + ":" && SameButCase(x, y) && None(x, {':', '/'})
  {
    SameKind(f[|f| - 1], g[|g| - 1]);
  }

  lemma BothCases(x: string, y: string, a: string, b: string, rest: string)
    requires SameButCase(x, y) && None(x, {':', '/'})
    requires SameButCase(a, b) && ('@' in a ==> Before(a, {'@'}) == Before(b, {'@'}))
    requires None(a, {'/', '?', '#'}) && (rest != "" ==> rest[0] in {'/', '?', '#'})
    ensures Parse(x + ":" + ("//" + a + rest)) == Parse(y + ":" + ("//" + b + rest))
  {
    SameStops(x, y, {':', '/'});
    SchemeCase(x, y, "//" + a + rest);
    SchemeSplit(y, "//" + a + rest);
    SchemeSplit(y, "//" + b + rest);
    HostCase(Lower(y), a, b, rest);
  }

  /** The components that parsing yields have no capital letter in scheme and host, and printing leaves none. */
  lemma NoCapitals(s: string, u: Components)
    ensures Parse(s) == Success(u) ==> NoUpper(u.scheme) && NoUpper(u.host)
    ensures NoUpper(Canonical(u).scheme) && NoUpper(Canonical(u).host)
    ensures SameButCase(u.scheme, Canonical(u).scheme) && SameButCase(u.host, Canonical(u).host)
  {
    if Parse(s) == Success(u) {
      ParsedIsWellformed(s, u);
    }
  }
}
