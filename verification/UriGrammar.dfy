/**
 The text of a URI, piece by piece (section 3 of RFC 3986), and what each piece means.

 Here the pieces are put together, and the parser takes them apart: every text is put together from such
 pieces, and it means what they mean.
 */
module UriGrammar {
  import opened Strings
  import opened UriCodec
  import opened UriSyntax
  import opened UriRoundTrip

  datatype Part = Missing | There(text: string) {

    function Or(default: string): string {
      if There? then text else default
    }
  }

  // ---------- the authority ----------

  datatype AuthorityText = AuthorityText(user: Part, host: string, port: Part) {

    function Front(): string {
      if user.There? then user.text + "@" else ""
    }

    function Back(): string {
      if port.There? then ":" + port.text else ""
    }

    function Text(): string {
      Front() + host + Back()
    }

    /** Nothing in the host looks like user information or a port. */
    predicate Ok() {
      && None(Text(), {'/', '?', '#'})
      && (if user.There? then All(user.text, User) else !HasUser(host))
      && (if port.There? then forall i | 0 <= i < |port.text| :: IsDigit(port.text[i])
          else Front() + host == "" || !HasPort(Front() + host))
    }
  }

  lemma AuthorityMeans(scheme: string, a: AuthorityText)
    requires a.Ok()
    ensures WithAuthority(scheme, a.Text())
         == Components(scheme, a.user.Or(""), Lower(a.host), if a.port.There? then PortValue(a.port.text) else 0,
                       "/", "", "")
  {
    var h := a.Front() + a.host;
    if a.port.There? {
      PortAppended(h, a.port.text);
      Assoc(h, ":", a.port.text);
    } else {
      Nil(h);
    }
    UserMeans(a.user, a.host);
    if a.Text() == "" {
      assert a.host == "" && a.user.Missing? && a.port.Missing?;
    }
  }

  lemma UserMeans(user: Part, host: string)
    requires if user.There? then All(user.text, User) else !HasUser(host)
    ensures var h := (if user.There? then user.text + "@" else "") + host;
            UserPart(h) == user.Or("") && AfterUser(h) == host
  {
    if user.There? {
      UserInFront(user.text, host);
    } else {
      Nil(host);
    }
  }

  // ---------- the whole text ----------

  datatype Authority = NoAuthority | With(a: AuthorityText)

  datatype UriText = UriText(scheme: Part, authority: Authority, path: string, query: Part, fragment: Part) {

    function FragmentText(): string {
      if fragment.There? then "#" + fragment.text else ""
    }

    function QueryText(): string {
      (if query.There? then "?" + query.text else "") + FragmentText()
    }

    function PathText(): string {
      path + QueryText()
    }

    function Hierarchy(): string {
      if authority.With? then "//" + authority.a.Text() + PathText() else PathText()
    }

    function Text(): string {
      if scheme.There? then scheme.text + ":" + Hierarchy() else Hierarchy()
    }

    /** No piece holds a delimiter that would end it, and none that is missing could be seen in another. */
    predicate Ok() {
      && (if scheme.There? then None(scheme.text, {':', '/'}) else FirstMark(Hierarchy()) != ":")
      && (if authority.With? then authority.a.Ok() && (path == "" || path[0] == '/') else !StartsTwoSlashes(path))
      && None(path, {'?', '#'}) && (query.There? ==> None(query.text, {'#'}))
    }

    predicate SchemeIsLegal() {
      scheme.There? ==> scheme.text != "" && IsAlpha(scheme.text[0]) && All(scheme.text, Scheme)
    }

    predicate AuthorityIsLegal() {
      authority.With? ==> All(authority.a.Text(), Class.Authority)
    }

    /** A first character that no path has: nothing is read from there on. */
    predicate StopsEarly() {
      path != "" && !IsPathChar(path[0])
    }

    predicate RestIsLegal() {
      All(path, PathClass) && All(query.Or(""), QueryClass) && All(fragment.Or(""), QueryClass)
    }

    /** Scheme and authority, with a path of one slash. */
    function Head(): Components {
      if authority.With? then
        Components(Lower(scheme.Or("")), authority.a.user.Or(""), Lower(authority.a.host),
                   if authority.a.port.There? then PortValue(authority.a.port.text) else 0, "/", "", "")
      else Components(Lower(scheme.Or("")), "", "", 0, "/", "", "")
    }

    /** The same with path, query and fragment. */
    function Rest(head: Components): Result<Components> {
      if StopsEarly() then Success(head)
      else if !RestIsLegal() then Failure(InvalidUri)
      else
        Success(head.(path := if path == "" then "/" else path, query := query.Or(""), fragment := fragment.Or("")))
    }

    function Meaning(): Result<Components> {
      if SchemeIsLegal() && AuthorityIsLegal() then Rest(Head()) else Failure(InvalidUri)
    }
  }

  // ---------- reading the pieces ----------

  lemma FragmentMeans(t: UriText, u: Components)
    requires u.fragment == ""
    ensures ParseFragment(u, t.FragmentText())
         == if All(t.fragment.Or(""), QueryClass) then Success(u.(fragment := t.fragment.Or("")))
            else Failure(InvalidUri)
  {
    if t.fragment.There? {
      Cut("#", t.fragment.text);
    }
  }

  lemma QueryMeans(t: UriText, u: Components)
    requires t.Ok() && u.query == u.fragment == ""
    ensures ParseQuery(u, t.QueryText())
         == if All(t.query.Or(""), QueryClass) && All(t.fragment.Or(""), QueryClass)
            then Success(u.(query := t.query.Or(""), fragment := t.fragment.Or("")))
            else Failure(InvalidUri)
  {
    if t.query.There? {
      Assoc("?", t.query.text, t.FragmentText());
      Cut("?", t.query.text + t.FragmentText());
      BeforeConcat(t.query.text, t.FragmentText(), {'#'});
      FragmentMeans(t, u.(query := t.query.text));
    } else {
      Nil(t.FragmentText());
      FragmentMeans(t, u);
    }
  }

  lemma QueryTextStarts(t: UriText)
    ensures t.QueryText() != "" ==> t.QueryText()[0] in {'?', '#'}
  {
    if t.query.There? {
      assert t.QueryText()[0] == '?';
    } else {
      Nil(t.FragmentText());
    }
  }

  lemma NoPathIsQuery(u: Components, s: string)
    requires s == "" || s[0] == '?' || s[0] == '#'
    ensures ParsePath(u, s) == ParseQuery(u, s)
  {
    assert s != "" ==> !IsPathChar(s[0]);
  }

  lemma NoPathMeans(t: UriText, u: Components)
    requires t.Ok() && u.query == u.fragment == "" && u.path == "/" && t.path == ""
    ensures ParsePath(u, t.PathText()) == t.Rest(u)
  {
    QueryTextStarts(t);
    Nil(t.QueryText());
    NoPathIsQuery(u, t.QueryText());
    QueryMeans(t, u);
    assert All(t.path, PathClass);
    assert t.Rest(u) == ParseQuery(u, t.QueryText());
  }

  lemma UnreadMeans(t: UriText, u: Components)
    requires t.Ok() && t.StopsEarly()
    ensures ParsePath(u, t.PathText()) == Success(u)
  {
    assert t.PathText()[0] == t.path[0] && t.path[0] !in {'?', '#'};
  }

  lemma PathSplit(t: UriText, u: Components)
    requires t.Ok() && t.path != "" && !t.StopsEarly()
    ensures ParsePath(u, t.PathText())
         == if All(t.path, PathClass) then ParseQuery(u.(path := t.path), t.QueryText()) else Failure(InvalidUri)
  {
    assert t.PathText()[0] == t.path[0];
    QueryTextStarts(t);
    BeforeConcat(t.path, t.QueryText(), {'?', '#'});
  }

  lemma PathMeans(t: UriText, u: Components)
    requires t.Ok() && u.query == u.fragment == "" && u.path == "/"
    ensures ParsePath(u, t.PathText()) == t.Rest(u)
  {
    if t.path == "" {
      NoPathMeans(t, u);
    } else if t.StopsEarly() {
      UnreadMeans(t, u);
    } else {
      PathSplit(t, u);
      QueryMeans(t, u.(path := t.path));
    }
  }

  lemma AuthoritySplit(t: UriText, scheme: string)
    requires t.Ok() && t.authority.With?
    ensures ParseHierarchy(scheme, t.Hierarchy())
         == if t.AuthorityIsLegal() then ParsePath(WithAuthority(scheme, t.authority.a.Text()), t.PathText())
            else Failure(InvalidUri)
  {
    var a := t.authority.a.Text();
    QueryTextStarts(t);
    Nil(t.QueryText());
    assert t.path != "" ==> t.PathText()[0] == '/';
    BeforeConcat(a, t.PathText(), {'/', '?', '#'});
    Assoc("//", a, t.PathText());
    Cut("//", a + t.PathText());
  }

  lemma HeadIs(t: UriText)
    requires t.Ok()
    ensures t.Head() == WithAuthority(Lower(t.scheme.Or("")), if t.authority.With? then t.authority.a.Text() else "")
  {
    if t.authority.With? {
      AuthorityMeans(Lower(t.scheme.Or("")), t.authority.a);
    }
  }

  lemma HierarchyMeans(t: UriText)
    requires t.Ok() && t.SchemeIsLegal()
    ensures ParseHierarchy(Lower(t.scheme.Or("")), t.Hierarchy()) == t.Meaning()
  {
    HeadIs(t);
    PathMeans(t, t.Head());
    if t.authority.With? {
      AuthoritySplit(t, Lower(t.scheme.Or("")));
    } else {
      NoSlashes(t);
    }
  }

  lemma NoSlashes(t: UriText)
    requires t.Ok() && t.authority.NoAuthority?
    ensures !StartsTwoSlashes(t.PathText())
  {
    if t.path != "" {
      OneSlash(t.path, t.QueryText());
    }
  }

  /** Every text made of such pieces means what they mean, or is rejected for a piece that is not legal. */
  lemma ParseMeans(t: UriText)
    requires t.Ok()
    ensures Parse(t.Text()) == t.Meaning()
  {
    var rest := t.Hierarchy();
    if t.scheme.There? {
      var x := t.scheme.text;
      Assoc(x, ":", rest);
      BeforeConcat(x, ":" + rest, {':', '/'});
      Cut(":", rest);
      if t.SchemeIsLegal() {
        HierarchyMeans(t);
      }
    } else {
      FirstMarkIsStop(rest);
      assert Lower("") == "";
      HierarchyMeans(t);
    }
  }

  // ---------- printed text ----------

  function PartOf(text: string): Part {
    if text == "" then Missing else There(text)
  }

  /** The pieces that are printed: none for what is empty, and no port 0. */
  function Pieces(u: Components): UriText {
    UriText(PartOf(u.scheme),
            if u.host == "" then NoAuthority
            else
              With(AuthorityText(PartOf(u.userInfo), u.host, if u.port > 0 then There(Decimal(u.port)) else Missing)),
            u.path, PartOf(u.query), PartOf(u.fragment))
  }

  lemma PrintIsText(u: Components)
    requires Canonical(u) == u
    ensures Print(u) == Pieces(u).Text()
  {
    var t := Pieces(u);
    assert t.FragmentText() == PrintFragment(u);
    assert t.QueryText() == PrintQuery(u);
    assert t.PathText() == PrintPath(u);
    if u.host != "" {
      PrintedAuthority(u);
    } else {
      Nil(PrintPath(u));
    }
    Nil(PrintHierarchy(u));
  }

  lemma PrintedAuthority(u: Components)
    requires u.host != ""
    ensures PrintAuthority(u) == Pieces(u).authority.a.Text()
  {
    Nil(PrintUser(u.userInfo) + u.host);
  }

  // ---------- every text is made of such pieces ----------

  lemma PortPiece(text: string) returns (h: string, port: Part)
    ensures text == h + if port.There? then ":" + port.text else ""
    ensures if port.There? then forall i | 0 <= i < |port.text| :: IsDigit(port.text[i]) else h == "" || !HasPort(h)
  {
    h, port := text, Missing;
    if text != "" && HasPort(text) {
      var j := BackOverDigits(text, |text| - 1);
      h, port := text[..j], There(text[j + 1..]);
      assert text == h + (":" + port.text);
    } else {
      Nil(text);
    }
  }

  lemma UserPiece(h: string) returns (user: Part, host: string)
    ensures h == (if user.There? then user.text + "@" else "") + host
    ensures if user.There? then All(user.text, User) else !HasUser(host)
  {
    user, host := Missing, h;
    if HasUser(h) {
      var n := UserSpan(h);
      user, host := There(h[..n]), h[n + 1..];
      assert h == (user.text + "@") + host;
    } else {
      Nil(h);
    }
  }

  lemma AuthorityPieces(text: string) returns (a: AuthorityText)
    requires None(text, {'/', '?', '#'})
    ensures a.Ok() && a.Text() == text
  {
    var h, port := PortPiece(text);
    var user, host := UserPiece(h);
    a := AuthorityText(user, host, port);
    assert a.Front() + host == h;
  }

  lemma FragmentPiece(text: string) returns (fragment: Part)
    requires text == "" || text[0] == '#'
    ensures text == if fragment.There? then "#" + fragment.text else ""
  {
    fragment := if text == "" then Missing else There(text[1..]);
    assert text != "" ==> text == "#" + text[1..];
  }

  lemma QueryPiece(text: string) returns (query: Part, rest: string)
    requires text == "" || text[0] in {'?', '#'}
    ensures text == (if query.There? then "?" + query.text else "") + rest && (rest == "" || rest[0] == '#')
    ensures query.There? ==> None(query.text, {'#'})
  {
    query, rest := Missing, text;
    Nil(text);
    if StartsWith(text, '?') {
      var q := Before(text[1..], {'#'});
      BeforeHasNone(text[1..], {'#'});
      query, rest := There(q), From(text[1..], {'#'});
      assert text == "?" + text[1..];
      Assoc("?", q, rest);
    }
  }

  lemma TailPieces(text: string) returns (path: string, query: Part, fragment: Part)
    ensures UriText(Missing, NoAuthority, path, query, fragment).PathText() == text
    ensures None(path, {'?', '#'}) && (query.There? ==> None(query.text, {'#'}))
    ensures text != "" && text[0] !in {'?', '#'} ==> path != "" && path[0] == text[0]
    ensures text == "" || text[0] in {'?', '#'} ==> path == ""
  {
    path := Before(text, {'?', '#'});
    BeforeHasNone(text, {'?', '#'});
    var rest;
    query, rest := QueryPiece(From(text, {'?', '#'}));
    fragment := FragmentPiece(rest);
    var t := UriText(Missing, NoAuthority, path, query, fragment);
    assert t.FragmentText() == rest;
    assert t.QueryText() == From(text, {'?', '#'});
  }

  lemma HierarchyPieces(text: string) returns (authority: Authority, path: string, query: Part, fragment: Part)
    ensures var t := UriText(Missing, authority, path, query, fragment);
            && t.Hierarchy() == text && None(path, {'?', '#'}) && (query.There? ==> None(query.text, {'#'}))
            && (if authority.With? then authority.a.Ok() && (path == "" || path[0] == '/')
                else !StartsTwoSlashes(path))
  {
    if StartsTwoSlashes(text) {
      var s := text[2..];
      BeforeHasNone(s, {'/', '?', '#'});
      var a := AuthorityPieces(Before(s, {'/', '?', '#'}));
      authority := With(a);
      path, query, fragment := TailPieces(From(s, {'/', '?', '#'}));
      assert text == "//" + s;
      Assoc("//", a.Text(), From(s, {'/', '?', '#'}));
    } else {
      authority := NoAuthority;
      path, query, fragment := TailPieces(text);
      var t := UriText(Missing, authority, path, query, fragment);
      assert path <= text by { assert t.PathText() == path + t.QueryText(); }
    }
  }

  lemma SchemePiece(text: string) returns (scheme: Part, hierarchy: string)
    ensures text == if scheme.There? then scheme.text + ":" + hierarchy else hierarchy
    ensures if scheme.There? then None(scheme.text, {':', '/'}) else FirstMark(hierarchy) != ":"
  {
    var x, rest := Before(text, {':', '/'}), From(text, {':', '/'});
    BeforeHasNone(text, {':', '/'});
    FirstMarkIsStop(text);
    scheme, hierarchy := Missing, text;
    if StartsWith(rest, ':') {
      scheme, hierarchy := There(x), rest[1..];
      assert rest == ":" + hierarchy;
      Assoc(x, ":", hierarchy);
    }
  }

  lemma EveryTextHasPieces(text: string) returns (t: UriText)
    ensures t.Ok() && t.Text() == text && Parse(text) == t.Meaning()
  {
    var scheme, hierarchy := SchemePiece(text);
    var authority, path, query, fragment := HierarchyPieces(hierarchy);
    t := UriText(scheme, authority, path, query, fragment);
    SameHierarchy(t);
    ParseMeans(t);
  }

  lemma SameHierarchy(t: UriText)
    ensures t.Hierarchy() == UriText(Missing, t.authority, t.path, t.query, t.fragment).Hierarchy()
  {
    var v := UriText(Missing, t.authority, t.path, t.query, t.fragment);
    assert t.FragmentText() == v.FragmentText();
    assert t.QueryText() == v.QueryText();
  }
}
