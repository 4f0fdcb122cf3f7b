/**
 When printing a parsed URI and parsing the text again gives the same components.
 */
module UriRoundTrip {
  import opened Strings
  import opened UriCodec
  import opened UriSyntax

  // ---------- scanning legal characters ----------

  lemma PathStarts(s: string)
    requires s != "" && IsPathChar(s[0])
    ensures StartsWith(Before(s, {'?', '#'}), s[0])
  {
    assert s[0] !in {'?', '#'};
    assert Before(s, {'?', '#'}) == [s[0]] + Before(s[1..], {'?', '#'});
  }

  lemma NoStops(s: string, class_: Class, stops: set<char>)
    requires All(s, class_) && forall c | c in stops :: !class_.Has(c)
    ensures None(s, stops)
  {
  }

  // ---------- decimal numbers ----------

  lemma {:induction false} DecimalInvert(n: nat)
    ensures DecimalValue(Decimal(n)) == n
  {
    if n < 10 {
      assert [DigitChar(n)][..0] == "";
    } else {
      DecimalInvert(n / 10);
      assert Decimal(n)[..|Decimal(n)| - 1] == Decimal(n / 10);
    }
  }

  /** A number is printed without zeros in front. */
  lemma {:induction false} NoZeroInFront(n: nat)
    ensures n > 0 ==> Decimal(n)[0] != '0'
  {
    if n >= 10 {
      NoZeroInFront(n / 10);
    }
  }

  // ---------- ports ----------

  lemma {:induction false} BackOverSame(a: string, j: nat, k: nat)
    requires j <= k < |a| && (forall i | j < i <= k :: IsDigit(a[i])) && (j == 0 || !IsDigit(a[j]))
    ensures BackOverDigits(a, k) == j
  {
    if j < k {
      BackOverSame(a, j, k - 1);
    }
  }

  /** A colon and digits at the end are the port; everything before is left to the host. */
  lemma PortAppended(a: string, digits: string)
    requires forall i | 0 <= i < |digits| :: IsDigit(digits[i])
    ensures var t := a + ":" + digits; HasPort(t) && HostPart(t) == a && PortPart(t) == PortValue(digits)
  {
    var t := a + ":" + digits;
    BackOverSame(t, |a|, |t| - 1);
    assert t[..|a|] == a && t[|a| + 1..] == digits;
  }

  lemma BackOverBehind(front: string, h: string)
    requires h != "" && front != "" && front[|front| - 1] == '@'
    ensures var j := BackOverDigits(h, |h| - 1);
            BackOverDigits(front + h, |front + h| - 1) == |front| + if j == 0 && IsDigit(h[0]) then -1 else j
  {
    var t, j := front + h, BackOverDigits(h, |h| - 1);
    forall i | 0 <= i < |h| ensures t[|front| + i] == h[i] {}
    BackOverSame(t, |front| + if j == 0 && IsDigit(h[0]) then -1 else j, |t| - 1);
  }

  lemma TakeBehind(front: string, h: string, j: nat)
    requires j <= |h|
    ensures (front + h)[..|front| + j] == front + h[..j]
  {
  }

  /** Text in front that ends in something other than a colon or digit does not matter. */
  lemma PortBehind(front: string, h: string)
    requires h != "" && front != "" && front[|front| - 1] == '@'
    ensures HasPort(front + h) <==> HasPort(h)
    ensures HasPort(h) ==> HostPart(front + h) == front + HostPart(h)
  {
    BackOverBehind(front, h);
    TakeBehind(front, h, BackOverDigits(h, |h| - 1));
  }

  // ---------- user information ----------

  lemma {:induction false} UserSpanIs(h: string, n: nat)
    requires n <= |h| && (forall i | 0 <= i < n :: IsUserInfoChar(h[i])) && (n < |h| ==> !IsUserInfoChar(h[n]))
    ensures UserSpan(h) == n
  {
    if n > 0 {
      UserSpanIs(h[1..], n - 1);
    }
  }

  lemma UserInFront(user: string, h: string)
    requires All(user, User)
    ensures var t := user + "@" + h; HasUser(t) && UserPart(t) == user && AfterUser(t) == h
  {
    var t := user + "@" + h;
    forall i | 0 <= i < |user| ensures IsUserInfoChar(t[i]) {
      assert User.Has(user[i]);
    }
    UserSpanIs(t, |user|);
    assert t[..|user|] == user && t[|user| + 1..] == h;
  }

  // ---------- lower case ----------

  lemma SmallLettersStay(s: string)
    requires NoUpper(s)
    ensures Lower(s) == s
  {
    forall i | 0 <= i < |s| ensures Lower(s)[i] == s[i] {
      SameSmall(s[i], Lower(s)[i]);
    }
  }

  lemma SameSmall(c: char, d: char)
    requires SameLetter(c, d) && !('A' <= c <= 'Z') && !('A' <= d <= 'Z')
    ensures c == d
  {
    if k :| 0 <= k < 26 && ((c == UPPER[k] && d == LOWER[k]) || (c == LOWER[k] && d == UPPER[k])) {
      Letters(k);
    }
  }

  lemma LowerKeepsClass(s: string, class_: Class)
    requires All(s, class_)
    ensures All(Lower(s), class_)
  {
    forall i | 0 <= i < |s| ensures class_.Has(Lower(s)[i]) {
      assert class_.Has(s[i]);
    }
  }

  // ---------- legal components ----------

  /** The first of ':' and '/', if any. */
  function FirstMark(s: string): string {
    if s == "" then "" else if s[0] == ':' || s[0] == '/' then [s[0]] else FirstMark(s[1..])
  }

  lemma {:induction false} FirstMarkConcat(a: string, b: string)
    ensures FirstMark(a + b) == if FirstMark(a) != "" then FirstMark(a) else FirstMark(b)
  {
    if a == "" {
      Nil(b);
    } else {
      assert (a + b)[1..] == a[1..] + b;
      FirstMarkConcat(a[1..], b);
    }
  }

  lemma {:induction false} FirstMarkIsStop(s: string)
    ensures FirstMark(s) == var post := From(s, {':', '/'}); if post == "" then "" else [post[0]]
  {
    if s != "" && s[0] !in {':', '/'} {
      FirstMarkIsStop(s[1..]);
    }
  }

  predicate IsSchemeName(s: string) {
    s != "" && IsAlpha(s[0]) && All(s, Scheme) && NoUpper(s)
  }

  /** What every parsed URI satisfies. */
  predicate Wellformed(u: Components) {
    && (u.scheme == "" || IsSchemeName(u.scheme))
    && All(u.userInfo, User) && All(u.host, Authority) && NoUpper(u.host)
    && 0 <= u.port <= MAX_PORT
    && u.path != "" && All(u.path, PathClass) && All(u.query, QueryClass) && All(u.fragment, QueryClass)
    && (u.host != "" ==> u.path[0] == '/')
    && (u.scheme == "" && u.path[0] != '/' ==> FirstMark(u.path + u.query + u.fragment) != ":")
  }

  /** The condition for the round trip.  A host that is there must not be mistaken for user
      information and a host, nor for a host and a port; without a host nothing else of the
      authority may be there, and the path must not look like an authority. */
  predicate Reprintable(u: Components) {
    if u.host != "" then
      && (u.userInfo == "" ==> !HasUser(u.host))
      && (u.port == 0 ==> !HasPort(u.host))
    else
      u.userInfo == "" && u.port == 0 && !StartsTwoSlashes(u.path)
  }

  // ---------- parsing yields legal components ----------

  lemma {:induction false} FirstMarkOfQuery(s: string)
    ensures FirstMark("?" + s) == FirstMark(s) && FirstMark("#" + s) == FirstMark(s)
  {
    assert ("?" + s)[1..] == s && ("#" + s)[1..] == s;
  }

  lemma ParsedFragment(u0: Components, s: string, u: Components)
    requires ParseFragment(u0, s) == Success(u) && u0.fragment == ""
    ensures u == u0.(fragment := u.fragment) && All(u.fragment, QueryClass)
    ensures s == "" || s[0] == '#' ==> FirstMark(u.fragment) == FirstMark(s)
  {
    if s != "" && s[0] == '#' {
      assert s == "#" + s[1..];
      FirstMarkOfQuery(s[1..]);
    }
  }

  lemma ParsedQuery(u0: Components, s: string, u: Components)
    requires ParseQuery(u0, s) == Success(u) && u0.query == u0.fragment == ""
    ensures u == u0.(query := u.query, fragment := u.fragment)
    ensures All(u.query, QueryClass) && All(u.fragment, QueryClass)
    ensures s == "" || s[0] == '?' || s[0] == '#' ==> FirstMark(u.query + u.fragment) == FirstMark(s)
  {
    if StartsWith(s, '?') {
      var query, rest := Before(s[1..], {'#'}), From(s[1..], {'#'});
      ParsedFragment(u0.(query := query), rest, u);
      assert s == "?" + s[1..];
      FirstMarkOfQuery(s[1..]);
      FirstMarkConcat(query, rest);
      FirstMarkConcat(query, u.fragment);
    } else {
      ParsedFragment(u0, s, u);
      Nil(u.fragment);
    }
  }

  lemma MarksOfPath(path: string, query: string, fragment: string, rest: string)
    requires FirstMark(query + fragment) == FirstMark(rest)
    ensures FirstMark(path + query + fragment) == FirstMark(path + rest)
  {
    Assoc(path, query, fragment);
    FirstMarkConcat(path, rest);
    FirstMarkConcat(path, query + fragment);
  }

  lemma MarksOfRead(u: Components, s: string, rest: string)
    requires u.path + rest == s && u.path != "" && FirstMark(u.query + u.fragment) == FirstMark(rest)
    ensures FirstMark(u.path + u.query + u.fragment) == FirstMark(s) && u.path[0] == s[0]
  {
    MarksOfPath(u.path, u.query, u.fragment, rest);
  }

  lemma ParsedPath(u0: Components, s: string, u: Components)
    requires ParsePath(u0, s) == Success(u) && u0.path == "/" && u0.query == u0.fragment == ""
    ensures u == u0.(path := u.path, query := u.query, fragment := u.fragment)
    ensures u.path != "" && All(u.path, PathClass) && All(u.query, QueryClass) && All(u.fragment, QueryClass)
  {
    if s != "" && IsPathChar(s[0]) {
      PathStarts(s);
      ParsedQuery(u0.(path := Before(s, {'?', '#'})), From(s, {'?', '#'}), u);
    } else {
      ParsedQuery(u0, s, u);
    }
  }

  lemma MarksOfParsed(u0: Components, s: string, u: Components)
    requires ParsePath(u0, s) == Success(u) && u0.path == "/" && u0.query == u0.fragment == ""
    ensures s == "" || s[0] == '/' || s[0] == '?' || s[0] == '#' ==> StartsWith(u.path, '/')
    ensures !StartsWith(u.path, '/') ==> FirstMark(u.path + u.query + u.fragment) == FirstMark(s)
  {
    if s != "" && IsPathChar(s[0]) {
      var path, rest := Before(s, {'?', '#'}), From(s, {'?', '#'});
      PathStarts(s);
      ParsedQuery(u0.(path := path), rest, u);
      MarksOfRead(u, s, rest);
    } else {
      ParsedQuery(u0, s, u);
    }
  }

  lemma AuthorityIsLegal(scheme: string, a: string)
    requires All(a, Authority)
    ensures var u := WithAuthority(scheme, a);
            && All(u.userInfo, User) && All(u.host, Authority) && NoUpper(u.host) && 0 <= u.port <= MAX_PORT
  {
    if a != "" {
      var h := HostPart(a);
      forall i | 0 <= i < |h| ensures Authority.Has(h[i]) {
        assert h[i] == a[i];
      }
      LowerKeepsClass(AfterUser(h), Authority);
    }
  }

  lemma ParsedAuthority(scheme: string, s: string, u: Components)
    requires ParseHierarchy(scheme, s) == Success(u) && StartsTwoSlashes(s)
    requires scheme == "" || IsSchemeName(scheme)
    ensures Wellformed(u) && u.scheme == scheme
  {
    var a, rest := Before(s[2..], {'/', '?', '#'}), From(s[2..], {'/', '?', '#'});
    AuthorityIsLegal(scheme, a);
    RestWellformed(WithAuthority(scheme, a), rest, u);
  }

  lemma RestWellformed(u0: Components, rest: string, u: Components)
    requires ParsePath(u0, rest) == Success(u) && u0.path == "/" && u0.query == u0.fragment == ""
    requires rest == "" || rest[0] in {'/', '?', '#'}
    requires u0.scheme == "" || IsSchemeName(u0.scheme)
    requires All(u0.userInfo, User) && All(u0.host, Authority) && NoUpper(u0.host) && 0 <= u0.port <= MAX_PORT
    ensures Wellformed(u) && u.scheme == u0.scheme
  {
    ParsedPath(u0, rest, u);
    MarksOfParsed(u0, rest, u);
  }

  lemma ParsedHierarchy(scheme: string, s: string, u: Components)
    requires ParseHierarchy(scheme, s) == Success(u)
    requires scheme == "" || IsSchemeName(scheme)
    requires scheme == "" ==> FirstMark(s) != ":"
    ensures Wellformed(u) && u.scheme == scheme
  {
    if StartsTwoSlashes(s) {
      ParsedAuthority(scheme, s, u);
    } else {
      ParsedPath(WithAuthority(scheme, ""), s, u);
      MarksOfParsed(WithAuthority(scheme, ""), s, u);
    }
  }

  lemma SchemeIsName(pre: string)
    requires pre != "" && IsAlpha(pre[0]) && All(pre, Scheme)
    ensures IsSchemeName(Lower(pre))
  {
    LowerKeepsClass(pre, Scheme);
  }

  /** Whatever parses is well-formed. */
  lemma ParsedIsWellformed(s: string, u: Components)
    requires Parse(s) == Success(u)
    ensures Wellformed(u)
  {
    var pre, post := Before(s, {':', '/'}), From(s, {':', '/'});
    FirstMarkIsStop(s);
    if StartsWith(post, ':') {
      SchemeIsName(pre);
      ParsedHierarchy(Lower(pre), post[1..], u);
    } else {
      ParsedHierarchy("", s, u);
    }
  }

  // ---------- parsing printed components ----------

  lemma PrintedFragmentParses(u0: Components, u: Components)
    requires All(u.fragment, QueryClass) && u0.fragment == ""
    ensures ParseFragment(u0, PrintFragment(u)) == Success(u0.(fragment := u.fragment))
  {
    if u.fragment != "" {
      assert PrintFragment(u)[1..] == u.fragment;
    }
  }

  lemma QueryRead(query: string, rest: string)
    requires All(query, QueryClass) && (rest != "" ==> rest[0] == '#')
    ensures var s := "?" + query + rest;
            StartsWith(s, '?') && Before(s[1..], {'#'}) == query && From(s[1..], {'#'}) == rest
  {
    NoStops(query, QueryClass, {'#'});
    BeforeConcat(query, rest, {'#'});
    Assoc("?", query, rest);
    Cut("?", query + rest);
  }

  lemma PrintedQueryParses(u0: Components, u: Components)
    requires All(u.query, QueryClass) && All(u.fragment, QueryClass) && u0.query == u0.fragment == ""
    ensures ParseQuery(u0, PrintQuery(u)) == Success(u0.(query := u.query, fragment := u.fragment))
  {
    if u.query != "" {
      QueryRead(u.query, PrintFragment(u));
      PrintedFragmentParses(u0.(query := u.query), u);
    } else {
      Nil(PrintFragment(u));
      PrintedFragmentParses(u0, u);
    }
  }

  lemma PrintedPathParses(u0: Components, u: Components)
    requires u.path != "" && All(u.path, PathClass) && All(u.query, QueryClass) && All(u.fragment, QueryClass)
    requires u0.query == u0.fragment == ""
    ensures ParsePath(u0, PrintPath(u)) == Success(u0.(path := u.path, query := u.query, fragment := u.fragment))
  {
    assert PathClass.Has(u.path[0]);
    NoStops(u.path, PathClass, {'?', '#'});
    BeforeConcat(u.path, PrintQuery(u), {'?', '#'});
    PrintedQueryParses(u0.(path := u.path), u);
  }

  // ---------- a printed authority read back ----------

  /** User information in front hides what the host alone would be taken for. */
  lemma UserRead(user: string, h: string)
    requires All(user, User)
    ensures var x := PrintUser(user) + h;
            && UserPart(x) == (if user != "" then user else UserPart(h))
            && AfterUser(x) == (if user != "" then h else AfterUser(h))
  {
    if user != "" {
      UserInFront(user, h);
    } else {
      Nil(h);
    }
  }

  /** The host and port read from the printed authority, before user information is split off. */
  lemma PortRead(u: Components)
    requires u.host != "" && 0 <= u.port <= MAX_PORT
    ensures var a, clean := PrintAuthority(u), u.port == 0 ==> !HasPort(u.host);
            && a != ""
            && HostPart(a) == PrintUser(u.userInfo) + (if clean then u.host else HostPart(u.host))
            && (clean ==> PortPart(a) == u.port)
  {
    var front := PrintUser(u.userInfo);
    if u.port > 0 {
      DecimalInvert(u.port);
      PortAppended(front + u.host, Decimal(u.port));
      Assoc(front + u.host, ":", Decimal(u.port));
    } else {
      Nil(front + u.host);
      if front == "" {
        Nil(u.host);
        Nil(HostPart(u.host));
      } else {
        PortBehind(front, u.host);
      }
    }
  }

  lemma AllConcat(a: string, b: string, class_: Class)
    requires All(a, class_) && All(b, class_)
    ensures All(a + b, class_)
  {
  }

  lemma PrintedAuthorityIsLegal(u: Components)
    requires All(u.userInfo, User) && All(u.host, Authority)
    ensures All(PrintAuthority(u), Authority)
  {
    var front := PrintUser(u.userInfo);
    forall i | 0 <= i < |front| ensures Authority.Has(front[i]) {
      assert i < |u.userInfo| ==> User.Has(u.userInfo[i]);
    }
    AllConcat(front, u.host, Authority);
    AllConcat(front + u.host, if u.port > 0 then ":" + Decimal(u.port) else "", Authority);
  }

  lemma HostLengths(h: string)
    ensures |AfterUser(h)| <= |h| && (HasUser(h) ==> |AfterUser(h)| < |h|)
    ensures !HasUser(h) ==> AfterUser(h) == h && UserPart(h) == ""
  {
  }

  /** With a host, the authority comes back unless the host is mistaken for more than a host, and
      then the host that comes back is shorter. */
  lemma PrintedAuthorityParses(u: Components)
    requires All(u.userInfo, User) && NoUpper(u.host) && u.host != "" && 0 <= u.port <= MAX_PORT
    ensures PrintAuthority(u) != ""
    ensures var v := WithAuthority(u.scheme, PrintAuthority(u));
            if Reprintable(u) then v == Components(u.scheme, u.userInfo, u.host, u.port, "/", "", "")
            else |v.host| < |u.host|
  {
    SmallLettersStay(u.host);
    PortRead(u);
    var h := if u.port == 0 ==> !HasPort(u.host) then u.host else HostPart(u.host);
    UserRead(u.userInfo, h);
    HostLengths(h);
  }

  // ---------- printed URIs read back ----------

  lemma AuthorityRead(a: string, rest: string)
    requires All(a, Authority) && StartsWith(rest, '/')
    ensures var s := "//" + a + rest;
            && StartsTwoSlashes(s)
            && Before(s[2..], {'/', '?', '#'}) == a && From(s[2..], {'/', '?', '#'}) == rest
  {
    NoStops(a, Authority, {'/', '?', '#'});
    BeforeConcat(a, rest, {'/', '?', '#'});
    Assoc("//", a, rest);
    Cut("//", a + rest);
  }

  lemma PrintedHostParses(u: Components)
    requires Wellformed(u) && u.host != ""
    ensures ParseHierarchy(u.scheme, PrintHierarchy(u)) == Success(u) <==> Reprintable(u)
  {
    var a := PrintAuthority(u);
    PrintedAuthorityIsLegal(u);
    AuthorityRead(a, PrintPath(u));
    PrintedAuthorityParses(u);
    PrintedPathParses(WithAuthority(u.scheme, a), u);
  }

  lemma {:induction false} PathAfterAuthority(x: string, q: string)
    requires None(x, {'?', '#'}) && (q != "" ==> q[0] in {'?', '#'})
    ensures |Before(From(x + q, {'/', '?', '#'}), {'?', '#'})| <= |x|
  {
    if x == "" {
      Nil(q);
    } else if x[0] == '/' {
      BeforeConcat(x, q, {'?', '#'});
    } else {
      assert x[0] !in {'?', '#'};
      assert (x + q)[1..] == x[1..] + q;
      PathAfterAuthority(x[1..], q);
    }
  }

  lemma PathAfterSlashes(path: string, q: string)
    requires StartsTwoSlashes(path) && None(path, {'?', '#'}) && (q != "" ==> q[0] in {'?', '#'})
    ensures StartsTwoSlashes(path + q)
    ensures |Before(From((path + q)[2..], {'/', '?', '#'}), {'?', '#'})| < |path|
  {
    assert (path + q)[2..] == path[2..] + q;
    PathAfterAuthority(path[2..], q);
  }

  /** A path that starts like an authority loses its start. */
  lemma TwoSlashesLost(u: Components)
    requires Wellformed(u) && u.host == "" && StartsTwoSlashes(u.path)
    ensures ParseHierarchy(u.scheme, PrintPath(u)) != Success(u)
  {
    NoStops(u.path, PathClass, {'?', '#'});
    PathAfterSlashes(u.path, PrintQuery(u));
    var s := PrintPath(u)[2..];
    ShortPath(WithAuthority(u.scheme, Before(s, {'/', '?', '#'})), From(s, {'/', '?', '#'}), u);
  }

  lemma ShortPath(u0: Components, s: string, u: Components)
    requires u0.path == "/" && |Before(s, {'?', '#'})| < |u.path| && |u.path| >= 2
    requires u0.query == u0.fragment == ""
    ensures ParsePath(u0, s) != Success(u)
  {
    if ParsePath(u0, s) == Success(u) {
      if s != "" && IsPathChar(s[0]) {
        ParsedQuery(u0.(path := Before(s, {'?', '#'})), From(s, {'?', '#'}), u);
      } else {
        ParsedQuery(u0, s, u);
      }
    }
  }

  lemma OneSlash(path: string, q: string)
    requires !StartsTwoSlashes(path) && path != "" && (q != "" ==> q[0] in {'?', '#'})
    ensures !StartsTwoSlashes(path + q)
  {
    assert (path + q)[0] == path[0];
    assert |path + q| >= 2 ==> (path + q)[1] == if |path| >= 2 then path[1] else q[0];
  }

  lemma PathAloneRead(u: Components)
    requires Wellformed(u) && !StartsTwoSlashes(u.path)
    ensures ParseHierarchy(u.scheme, PrintPath(u))
         == Success(Components(u.scheme, "", "", 0, u.path, u.query, u.fragment))
  {
    OneSlash(u.path, PrintQuery(u));
    PrintedPathParses(WithAuthority(u.scheme, ""), u);
  }

  lemma PrintedPathAloneParses(u: Components)
    requires Wellformed(u) && u.host == ""
    ensures ParseHierarchy(u.scheme, PrintHierarchy(u)) == Success(u) <==> Reprintable(u)
  {
    Nil(PrintPath(u));
    if StartsTwoSlashes(u.path) {
      TwoSlashesLost(u);
    } else {
      PathAloneRead(u);
    }
  }

  lemma FirstMarkOfPrinted(u: Components)
    ensures FirstMark(PrintPath(u)) == FirstMark(u.path + u.query + u.fragment)
  {
    FirstMarkOfQuery(u.fragment);
    Nil(PrintFragment(u));
    FirstMarkOfQuery(u.query);
    FirstMarkConcat("?" + u.query, PrintFragment(u));
    FirstMarkConcat(u.query, u.fragment);
    FirstMarkConcat(u.path, PrintQuery(u));
    FirstMarkConcat(u.path, u.query + u.fragment);
    Assoc(u.path, u.query, u.fragment);
  }

  lemma NoSchemeRead(u: Components)
    requires Wellformed(u) && u.scheme == ""
    ensures Parse(PrintHierarchy(u)) == ParseHierarchy("", PrintHierarchy(u))
  {
    var s := PrintHierarchy(u);
    FirstMarkIsStop(s);
    if u.host != "" {
      assert s[0] == '/';
    } else {
      Nil(PrintPath(u));
      FirstMarkOfPrinted(u);
      assert s[0] == u.path[0];
    }
  }

  lemma SchemeRead(scheme: string, s: string)
    requires IsSchemeName(scheme)
    ensures Parse(scheme + ":" + s) == ParseHierarchy(scheme, s)
  {
    SmallLettersStay(scheme);
    Assoc(scheme, ":", s);
    NoStops(scheme, Scheme, {':', '/'});
    BeforeConcat(scheme, ":" + s, {':', '/'});
    Cut(":", s);
  }

  /** Printing makes components canonical; what parsing yields is so already. */
  lemma ParsedIsCanonical(u: Components)
    requires Wellformed(u)
    ensures Canonical(u) == u
  {
    SmallLettersStay(u.scheme);
    SmallLettersStay(u.host);
  }

  lemma PrintedIsRead(u: Components)
    requires Wellformed(u)
    ensures Parse(Print(u)) == ParseHierarchy(u.scheme, PrintHierarchy(u))
  {
    ParsedIsCanonical(u);
    if u.scheme != "" {
      SchemeRead(u.scheme, PrintHierarchy(u));
    } else {
      Nil(PrintHierarchy(u));
      NoSchemeRead(u);
    }
  }

  /** Components that parsing can yield come back from their printed form exactly under the
      condition. */
  lemma PrintParse(u: Components)
    requires Wellformed(u)
    ensures Parse(Print(u)) == Success(u) <==> Reprintable(u)
  {
    PrintedIsRead(u);
    if u.host != "" {
      PrintedHostParses(u);
    } else {
      PrintedPathAloneParses(u);
    }
  }

  /** Legal parts in letters of any case, and a path that may lack the slash behind a host. */
  predicate LegalParts(u: Components) {
    && (u.scheme == "" || (IsAlpha(u.scheme[0]) && All(u.scheme, Scheme)))
    && All(u.userInfo, User) && All(u.host, Authority) && 0 <= u.port <= MAX_PORT
    && All(u.path, PathClass) && All(u.query, QueryClass) && All(u.fragment, QueryClass)
    && (u.host == "" ==> u.path != "")
    && (u.scheme == u.host == "" && u.path[0] != '/' ==> FirstMark(u.path + u.query + u.fragment) != ":")
  }

  lemma CanonicalIsWellformed(u: Components)
    requires LegalParts(u)
    ensures Wellformed(Canonical(u)) && (u.host != "" ==> StartsWith(Canonical(u).path, '/'))
  {
    var v := Canonical(u);
    LowerKeepsClass(u.scheme, Scheme);
    LowerKeepsClass(u.host, Authority);
    assert All("/", PathClass);
    AllConcat("/", u.path, PathClass);
    if u.scheme != "" {
      SchemeIsName(u.scheme);
    }
  }

  /** Any legal components, not only parsed ones: what is printed is read back as their canonical form. */
  lemma PrintAnyParse(u: Components)
    requires LegalParts(u)
    ensures Parse(Print(u)) == Success(Canonical(u)) <==> Reprintable(Canonical(u))
  {
    CanonicalIsWellformed(u);
    ParsedIsCanonical(Canonical(u));
    PrintParse(Canonical(u));
  }

  /** Parsing, printing and parsing again: for every input, the same components exactly under the
      condition. */
  lemma RoundTripIff(s: string, u: Components)
    requires Parse(s) == Success(u)
    ensures Parse(Print(u)) == Success(u) <==> Reprintable(u)
  {
    ParsedIsWellformed(s, u);
    PrintParse(u);
  }

  lemma SlashRead(s: string)
    requires StartsWith(s, '/')
    ensures Parse(s) == ParseHierarchy("", s)
  {
  }

  lemma EmptyUserRead(h: string)
    requires h != "" && !HasPort(h) && NoUpper(h)
    ensures WithAuthority("", "@" + h) == Components("", "", h, 0, "/", "", "")
  {
    SmallLettersStay(h);
    PortBehind("@", h);
    UserInFront("", h);
    Nil("@");
  }

  lemma TextParses(a: string, u: Components)
    requires All(a, Authority) && Wellformed(u) && StartsWith(u.path, '/')
    requires WithAuthority("", a).(path := u.path, query := u.query, fragment := u.fragment) == u
    ensures Parse("//" + a + PrintPath(u)) == Success(u)
  {
    AuthorityRead(a, PrintPath(u));
    PrintedPathParses(WithAuthority("", a), u);
    SlashRead("//" + a + PrintPath(u));
  }

  /** Texts that parse, and whose components print to text that does not parse to them: the empty user
      part in front of '@' is lost, and then the first half of the host is taken for one. */
  lemma EmptyUserIsLost(u: Components)
    requires Wellformed(u) && u.scheme == u.userInfo == "" && u.port == 0 && HasUser(u.host) && !HasPort(u.host)
    ensures Parse("//" + ("@" + u.host) + PrintPath(u)) == Success(u) && Parse(Print(u)) != Success(u)
  {
    EmptyUserRead(u.host);
    AllConcat("@", u.host, Authority);
    TextParses("@" + u.host, u);
    PrintParse(u);
  }

  /** As in "//@b@c/". */
  lemma RoundTripExample()
    ensures exists s, u :: Parse(s) == Success(u) && Parse(Print(u)) != Success(u)
  {
    var h := "b@c";
    UserSpanIs(h, 1);
    BackOverSame(h, 2, 2);
    EmptyUserIsLost(Components("", "", h, 0, "/", "", ""));
  }

  /** The number of a port is read back as it was printed exactly when it fits the machine integer. */
  lemma PortOfNumber(n: nat)
    ensures PortValue(Decimal(n)) == if n <= MAX_PORT then n else 0
  {
    DecimalInvert(n);
  }

  /** The scheme is looked for past '?' and '#', so a colon in a query or fragment with no slash and
      no scheme before it is an error. */
  lemma ColonInQueryIsRejected(s: string)
    requires StartsWith(From(s, {':', '/'}), ':')
    requires '?' in Before(s, {':', '/'}) || '#' in Before(s, {':', '/'})
    ensures Parse(s) == Failure(InvalidUri)
  {
    var pre := Before(s, {':', '/'});
    var i :| 0 <= i < |pre| && (pre[i] == '?' || pre[i] == '#');
    assert !Scheme.Has(pre[i]);
  }
}
