/**
 The parser as the program runs it: one pass with an index, stopping at the first illegal
 character.  It is proved against `Parse`.
 */
module UriParser {
  import opened Strings
  import opened UriCodec
  import opened UriSyntax

  /** From p to q no stop was met. */
  ghost predicate Scanned(s: string, p: nat, q: nat, stops: set<char>) {
    && p <= q <= |s|
    && Before(s[p..], stops) == s[p..q] + Before(s[q..], stops)
    && From(s[p..], stops) == From(s[q..], stops)
  }

  lemma ScanStart(s: string, p: nat, stops: set<char>)
    requires p <= |s|
    ensures Scanned(s, p, p, stops) && s[p..p] == ""
  {
    Nil(Before(s[p..], stops));
  }

  lemma OneStep(rest: string, stops: set<char>)
    requires rest != "" && rest[0] !in stops
    ensures Before(rest, stops) == [rest[0]] + Before(rest[1..], stops) && From(rest, stops) == From(rest[1..], stops)
  {
  }

  lemma Longer(s: string, p: nat, q: nat)
    requires p <= q < |s|
    ensures s[p..q + 1] == s[p..q] + [s[q]] && s[q..][0] == s[q] && s[q..][1..] == s[q + 1..]
  {
  }

  lemma ScanStep(s: string, p: nat, q: nat, stops: set<char>)
    requires Scanned(s, p, q, stops) && q < |s| && s[q] !in stops
    ensures Scanned(s, p, q + 1, stops) && s[p..q + 1] == s[p..q] + [s[q]]
  {
    Longer(s, p, q);
    OneStep(s[q..], stops);
    Assoc(s[p..q], [s[q]], Before(s[q + 1..], stops));
  }

  lemma ScanEnd(s: string, p: nat, q: nat, stops: set<char>)
    requires Scanned(s, p, q, stops) && (q == |s| || s[q] in stops)
    ensures s[p..q] == Before(s[p..], stops) && s[q..] == From(s[p..], stops)
  {
    Nil(s[p..q]);
  }

  lemma AllSnoc(s: string, c: char, class_: Class)
    requires All(s, class_) && class_.Has(c)
    ensures All(s + [c], class_)
  {
  }

  /** Advance over legal characters up to a stop or the end of the text. */
  method Scan(s: string, p: nat, stops: set<char>, class_: Class) returns (q: nat, ok: bool)
    requires p <= |s|
    ensures ok <==> All(Before(s[p..], stops), class_)
    ensures ok ==> p <= q <= |s| && s[p..q] == Before(s[p..], stops) && s[q..] == From(s[p..], stops)
  {
    q := p;
    ScanStart(s, p, stops);
    while q < |s| && s[q] !in stops
      invariant Scanned(s, p, q, stops) && All(s[p..q], class_)
    {
      ScanStep(s, p, q, stops);
      if !class_.Has(s[q]) {
        IllegalAt(s, p, q, stops, class_);
        return q, false;
      }
      AllSnoc(s[p..q], s[q], class_);
      q := q + 1;
    }
    ScanEnd(s, p, q, stops);
    ok := true;
  }

  lemma IllegalAt(s: string, p: nat, q: nat, stops: set<char>, class_: Class)
    requires Scanned(s, p, q + 1, stops) && q >= p && !class_.Has(s[q])
    ensures !All(Before(s[p..], stops), class_)
  {
    assert Before(s[p..], stops)[q - p] == s[q];
  }

  /** The port, found by going back over digits, and the host in front of it. */
  method SplitPort(a: string) returns (h: string, port: nat)
    requires a != ""
    ensures h == HostPart(a) && port == PortPart(a)
  {
    var portBegin := |a| - 1;
    while IsDigit(a[portBegin]) && portBegin != 0
      invariant 0 <= portBegin < |a|
      invariant BackOverDigits(a, |a| - 1) == BackOverDigits(a, portBegin)
    {
      portBegin := portBegin - 1;
    }
    if a[portBegin] == ':' {
      h := a[..portBegin];
      portBegin := portBegin + 1;
      port := PortValue(a[portBegin..]);
    } else {
      h, port := a, 0;
    }
  }

  lemma {:induction false} UserSpanFrom(h: string, k: nat)
    requires k <= |h| && forall i | 0 <= i < k :: IsUserInfoChar(h[i])
    ensures UserSpan(h) == k + UserSpan(h[k..])
  {
    if k > 0 {
      UserSpanFrom(h[1..], k - 1);
      DropDrop(h, 1, k - 1);
    }
  }

  /** User information in front of '@'. */
  method SplitUser(h: string) returns (userInfo: string, host: string)
    ensures userInfo == UserPart(h) && host == AfterUser(h)
  {
    var uEnd := 0;
    while uEnd < |h| && IsUserInfoChar(h[uEnd])
      invariant uEnd <= |h| && forall i | 0 <= i < uEnd :: IsUserInfoChar(h[i])
    {
      uEnd := uEnd + 1;
    }
    UserSpanFrom(h, uEnd);
    if uEnd < |h| && h[uEnd] == '@' {
      userInfo, host := h[..uEnd], h[uEnd + 1..];
    } else {
      userInfo, host := "", h;
    }
  }

  /** Everything after the scheme. */
  method ParseAfterScheme(scheme: string, s: string, start: nat) returns (r: Result<Components>)
    requires start <= |s|
    ensures r == ParseHierarchy(scheme, s[start..])
  {
    var p, u := start, Components(scheme, "", "", 0, "/", "", "");
    ghost var rest := s[start..];
    if p + 1 < |s| && s[p] == '/' && s[p + 1] == '/' {
      p := p + 2;
      DropDrop(s, start, 2);
      var authorityEnd, ok := Scan(s, p, {'/', '?', '#'}, Authority);
      if !ok {
        return Failure(InvalidUri);
      }
      if p != authorityEnd {
        var h, port := SplitPort(s[p..authorityEnd]);
        var userInfo, host := SplitUser(h);
        u := u.(userInfo := userInfo, host := Lower(host), port := port);
      }
      p := authorityEnd;
    }
    r := ParseAfterAuthority(u, s, p);
  }

  method ParseAfterAuthority(u0: Components, s: string, start: nat) returns (r: Result<Components>)
    requires start <= |s|
    ensures r == ParsePath(u0, s[start..])
  {
    var p, u := start, u0;
    if p < |s| && (s[p] == '/' || IsPathChar(s[p])) {
      var pathEnd, ok := Scan(s, p, {'?', '#'}, PathClass);
      if !ok {
        return Failure(InvalidUri);
      }
      u := u.(path := s[p..pathEnd]);
      p := pathEnd;
    }
    r := ParseAfterPath(u, s, p);
  }

  method ParseAfterPath(u0: Components, s: string, start: nat) returns (r: Result<Components>)
    requires start <= |s|
    ensures r == ParseQuery(u0, s[start..])
  {
    var p, u := start, u0;
    if p < |s| && s[p] == '?' {
      DropDrop(s, p, 1);
      p := p + 1;
      var queryEnd, ok := Scan(s, p, {'#'}, QueryClass);
      if !ok {
        return Failure(InvalidUri);
      }
      u := u.(query := s[p..queryEnd]);
      p := queryEnd;
    }
    if p < |s| && s[p] == '#' {
      DropDrop(s, p, 1);
      p := p + 1;
      var fragmentEnd, ok := Scan(s, p, {}, QueryClass);
      BeforeNothing(s[p..]);
      if !ok {
        return Failure(InvalidUri);
      }
      u := u.(fragment := s[p..fragmentEnd]);
    }
    r := Success(u);
  }

  lemma {:induction false} BeforeNothing(s: string)
    ensures Before(s, {}) == s
  {
    if s != "" {
      BeforeNothing(s[1..]);
    }
  }

  lemma FromZero(s: string, k: nat)
    requires k <= |s|
    ensures s[0..] == s && s[0..k] == s[..k]
  {
  }

  /** Where the first colon or slash is. */
  method FindMark(s: string) returns (p2: nat)
    ensures p2 <= |s| && s[..p2] == Before(s, {':', '/'}) && s[p2..] == From(s, {':', '/'})
  {
    p2 := 0;
    var stops := {':', '/'};
    ScanStart(s, 0, stops);
    while p2 < |s| && s[p2] !in stops
      invariant Scanned(s, 0, p2, stops)
    {
      ScanStep(s, 0, p2, stops);
      p2 := p2 + 1;
    }
    ScanEnd(s, 0, p2, stops);
    FromZero(s, p2);
  }

  method CheckScheme(s: string) returns (ok: bool)
    ensures ok <==> s != "" && IsAlpha(s[0]) && All(s, Scheme)
  {
    if s == "" || !IsAlpha(s[0]) {
      return false;
    }
    var p := 1;
    while p < |s|
      invariant 1 <= p <= |s| && forall i | 0 <= i < p :: Scheme.Has(s[i])
    {
      if !IsSchemeChar(s[p]) {
        assert !Scheme.Has(s[p]);
        return false;
      }
      p := p + 1;
    }
    ok := true;
  }

  lemma MarkRead(s: string, p2: nat)
    requires p2 <= |s| && s[..p2] == Before(s, {':', '/'}) && s[p2..] == From(s, {':', '/'})
    ensures StartsWith(From(s, {':', '/'}), ':') <==> p2 < |s| && s[p2] == ':'
    ensures p2 < |s| ==> From(s, {':', '/'})[1..] == s[p2 + 1..]
  {
    if p2 < |s| {
      DropDrop(s, p2, 1);
      assert s[p2..][0] == s[p2];
    }
  }

  /** Parsing in place.  The scheme is looked for first: a colon before any slash. */
  method ParseFrom(s: string) returns (r: Result<Components>)
    ensures r == Parse(s)
  {
    var p2 := FindMark(s);
    MarkRead(s, p2);
    if p2 < |s| && s[p2] == ':' {
      var ok := CheckScheme(s[..p2]);
      if !ok {
        return Failure(InvalidUri);
      }
      r := ParseAfterScheme(Lower(s[..p2]), s, p2 + 1);
    } else {
      FromZero(s, 0);
      r := ParseAfterScheme("", s, 0);
    }
  }
}
