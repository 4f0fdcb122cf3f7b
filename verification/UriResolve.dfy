/**
 Resolving a reference against a base, compared case by case with sections 5.2.2 and 5.2.3 of
 RFC 3986.
 */
module UriResolve {
  import opened Strings
  import opened UriCodec
  import opened UriSyntax
  import opened UriRoundTrip
  import opened UriPath
  import opened UriSegments
  import opened UriDots
  import opened UriAppend

  /** Text is read up to the first NUL. */
  function ParseText(text: string): Result<Components> {
    Parse(Before(text, {'\0'}))
  }

  // ---------- merging paths ----------

  /** Where the last slash is, or -1. */
  function LastSlash(s: string): (i: int)
    ensures -1 <= i < |s| && (i >= 0 ==> s[i] == '/')
    ensures forall k | i < k < |s| :: s[k] != '/'
  {
    if s == "" then -1
    else if s[|s| - 1] == '/' then |s| - 1
    else LastSlash(s[..|s| - 1])
  }

  function MergePaths(base: string, relative: string): string {
    var i := LastSlash(base);
    if i == -1 then base + "/" + relative
    else if i == |base| - 1 then base + relative
    else base[..i + 1] + relative
  }

  /** Section 5.2.3: all but the last segment of the base, then the reference. */
  function MergeRfc(hasAuthority: bool, base: string, relative: string): string {
    if hasAuthority && base == "" then "/" + relative else base[..LastSlash(base) + 1] + relative
  }

  /** The two agree exactly when the base path has a slash, or is empty behind an authority. */
  lemma MergeIsRfcIff(hasAuthority: bool, base: string, relative: string)
    ensures MergePaths(base, relative) == MergeRfc(hasAuthority, base, relative)
       <==> '/' in base || (base == "" && hasAuthority)
  {
    var i := LastSlash(base);
    Nil(relative);
    if i == -1 {
      assert base[..0] == "";
    } else if i == |base| - 1 {
      assert base[..i + 1] == base;
    }
  }

  // ---------- resolution as the program does it ----------

  function AuthorityOf(u: Components): Components {
    u.(path := "/", query := "", fragment := "")
  }

  function Resolve(base: Components, ref: string): Result<Components> {
    if ref == "" then Success(base)
    else if StartsTwoSlashes(ref) then ParseText(base.scheme + ":" + ref)
    else
      var r := ParseText(ref);
      if r.Failure? then r
      else if ref[0] == '/' then Success(ResolveRoot(base, r.value))
      else if r.value.scheme != "" then r
      else if r.value.host != "" then Success(r.value.(scheme := base.scheme))
      else Success(ResolvePath(base, r.value))
  }

  /** A reference with an absolute path. */
  function ResolveRoot(base: Components, r: Components): Components {
    AuthorityOf(base).(
      path := RemoveDots(AppendPath("/", r.path, true)),
      query := AppendQuery("", r.query, true),
      fragment := Encode(Query, base.fragment + r.fragment))
  }

  /** A reference with a relative path, or with none. */
  function ResolvePath(base: Components, r: Components): Components {
    var u :=
      if r.path == "/" || r.path == "" then
        if r.query != "" then base.(query := Encode(Query, r.query)) else base
      else if base.path != "" then
        base.(path := RemoveDots(SetPath(MergePaths(base.path, r.path), true)), query := Encode(Query, r.query))
      else base;
    u.(fragment := Encode(Query, r.fragment))
  }

  // ---------- resolution as RFC 3986 asks for ----------

  /** Section 5.2.2, for a reference whose components are r.  Parsing puts "/" for an empty path. */
  function Target(base: Components, ref: string, r: Components): Components {
    if r.scheme != "" then r.(path := RemoveDotsRfc(r.path))
    else if StartsTwoSlashes(ref) then r.(scheme := base.scheme, path := RemoveDotsRfc(r.path))
    else if !StartsWith(ref, '/') && r.path == "/" then
      base.(query := if r.query != "" then r.query else base.query, fragment := r.fragment)
    else if StartsWith(ref, '/') then
      base.(path := RemoveDotsRfc(r.path), query := r.query, fragment := r.fragment)
    else
      base.(path := RemoveDotsRfc(MergeRfc(base.host != "", base.path, r.path)),
            query := r.query, fragment := r.fragment)
  }

  // ---------- what encoding does to a query or fragment ----------

  predicate PlainQuery(s: string) {
    forall i | 0 <= i < |s| :: !Query.ShouldEncode(s[i])
  }

  lemma {:induction false} PlainQueryEncodes(s: string)
    ensures |Encode(Query, s)| >= |s| && (PlainQuery(s) <==> |Encode(Query, s)| == |s|)
    ensures PlainQuery(s) <==> Encode(Query, s) == s
  {
    if s != "" {
      PlainQueryEncodes(s[1..]);
      assert PlainQuery(s) <==> !Query.ShouldEncode(s[0]) && PlainQuery(s[1..]);
    }
  }

  lemma FragmentsJoined(a: string, b: string)
    ensures Encode(Query, a + b) == b <==> a == "" && PlainQuery(b)
  {
    PlainQueryEncodes(a + b);
    PlainQueryEncodes(b);
    if a == "" {
      Nil(b);
    }
  }

  // ---------- the shapes a parsed reference can have ----------

  lemma NoNul(text: string)
    requires '\0' !in text
    ensures ParseText(text) == Parse(text)
  {
    Nil(text);
    BeforeConcat(text, "", {'\0'});
  }

  /** What is behind a NUL is not read. */
  lemma NulEnds(text: string, rest: string)
    requires '\0' !in text
    ensures ParseText(text + "\0" + rest) == Parse(text)
  {
    Assoc(text, "\0", rest);
    BeforeConcat(text, "\0" + rest, {'\0'});
  }

  /** Without two slashes in front there is no authority. */
  lemma NoAuthority(ref: string, r: Components)
    requires Parse(ref) == Success(r) && !StartsTwoSlashes(ref) && r.scheme == ""
    ensures r == Components("", "", "", 0, r.path, r.query, r.fragment) && r.path != ""
    ensures StartsWith(ref, '/') ==> StartsWith(r.path, '/')
  {
    ParsedIsWellformed(ref, r);
    var pre, post := Before(ref, {':', '/'}), From(ref, {':', '/'});
    if StartsWith(post, ':') {
      SchemeSurvives(Lower(pre), post[1..], r);
    } else {
      ParsedPath(WithAuthority("", ""), ref, r);
      MarksOfParsed(WithAuthority("", ""), ref, r);
    }
  }

  lemma SchemeSurvives(scheme: string, s: string, u: Components)
    requires ParseHierarchy(scheme, s) == Success(u)
    ensures u.scheme == scheme
  {
    if StartsTwoSlashes(s) {
      var a, rest := Before(s[2..], {'/', '?', '#'}), From(s[2..], {'/', '?', '#'});
      ParsedPath(WithAuthority(scheme, a), rest, u);
    } else {
      ParsedPath(WithAuthority(scheme, ""), s, u);
    }
  }

  lemma NoSchemeBeforeSlash(ref: string, r: Components)
    requires StartsWith(ref, '/') && Parse(ref) == Success(r)
    ensures ParseHierarchy("", ref) == Success(r) && r.scheme == ""
  {
    SchemeSurvives("", ref, r);
  }

  /** The branch for a parsed authority behind a first character other than a slash is never taken. */
  lemma AuthorityBranchIsDead(ref: string, r: Components)
    requires Parse(ref) == Success(r) && !StartsWith(ref, '/') && r.scheme == ""
    ensures r.host == ""
  {
    NoAuthority(ref, r);
  }

  // ---------- references that name an authority ----------

  lemma PathUnderScheme(scheme: string, u0: Components, s: string, u: Components)
    requires ParsePath(u0, s) == Success(u) && u0.query == u0.fragment == "" && u0.path == "/"
    ensures ParsePath(u0.(scheme := scheme), s) == Success(u.(scheme := scheme))
  {
    var v0 := u0.(scheme := scheme);
    if s != "" && IsPathChar(s[0]) {
      var path := Before(s, {'?', '#'});
      assert u0.(path := path).(scheme := scheme) == v0.(path := path);
      QueryUnderScheme(scheme, u0.(path := path), From(s, {'?', '#'}), u);
    } else {
      QueryUnderScheme(scheme, u0, s, u);
    }
  }

  lemma QueryUnderScheme(scheme: string, u0: Components, s: string, u: Components)
    requires ParseQuery(u0, s) == Success(u)
    ensures ParseQuery(u0.(scheme := scheme), s) == Success(u.(scheme := scheme))
  {
  }

  /** A reference with an authority is parsed under the scheme of the base. */
  lemma HierarchyUnderScheme(scheme: string, ref: string, r: Components)
    requires StartsTwoSlashes(ref) && ParseHierarchy("", ref) == Success(r)
    ensures ParseHierarchy(scheme, ref) == Success(r.(scheme := scheme))
  {
    var a, rest := Before(ref[2..], {'/', '?', '#'}), From(ref[2..], {'/', '?', '#'});
    PathUnderScheme(scheme, WithAuthority("", a), rest, r);
  }

  lemma NoEmptyScheme(ref: string)
    ensures Parse(":" + ref) == Failure(InvalidUri)
  {
    assert (":" + ref)[0] == ':';
  }

  lemma ResolveAuthorityIff(base: Components, ref: string, r: Components)
    requires Wellformed(base) && '\0' !in ref && StartsTwoSlashes(ref) && Parse(ref) == Success(r)
    ensures Resolve(base, ref) == Success(Target(base, ref, r))
       <==> base.scheme != "" && NoDots(r.path)
  {
    RfcLeavesAloneIff(r.path);
    NoSchemeBeforeSlash(ref, r);
    var text := base.scheme + ":" + ref;
    if base.scheme == "" {
      Nil(":" + ref);
      NoEmptyScheme(ref);
      NoNul(text);
    } else {
      NameHasNoNul(base.scheme);
      NoNul(text);
      SchemeRead(base.scheme, ref);
      HierarchyUnderScheme(base.scheme, ref, r);
    }
  }

  lemma NameHasNoNul(scheme: string)
    requires IsSchemeName(scheme)
    ensures '\0' !in scheme
  {
  }

  // ---------- references that name a path ----------

  lemma ResolveRootIff(base: Components, r: Components)
    requires StartsWith(r.path, '/')
    ensures ResolveRoot(base, r)
         == base.(path := RemoveDotsRfc(r.path), query := r.query, fragment := r.fragment)
       <==> && Plain(RemoveDotsRfc(r.path)) && KeepsPath(r.path)
            && PlainQuery(r.query) && base.fragment == "" && PlainQuery(r.fragment)
  {
    AppendToRoot(r.path);
    SetAndRemoveDotsIff(r.path);
    PlainQueryEncodes(r.query);
    FragmentsJoined(base.fragment, r.fragment);
  }

  lemma AppendToRoot(path: string)
    requires StartsWith(path, '/')
    ensures AppendPath("/", path, true) == Encode(Path, path)
  {
    EncodeSingle(Path, '/');
    Nil(Encode(Path, path));
  }

  lemma ResolvePathIff(base: Components, r: Components)
    requires base.path != "" && r.path != "" && r.path != "/"
    ensures ResolvePath(base, r)
         == base.(path := RemoveDotsRfc(MergePaths(base.path, r.path)), query := r.query, fragment := r.fragment)
       <==> && Plain(RemoveDotsRfc(MergePaths(base.path, r.path))) && KeepsPath(MergePaths(base.path, r.path))
            && PlainQuery(r.query) && PlainQuery(r.fragment)
  {
    SetAndRemoveDotsIff(MergePaths(base.path, r.path));
    PlainQueryEncodes(r.query);
    PlainQueryEncodes(r.fragment);
  }

  lemma ResolveNoPathIff(base: Components, r: Components)
    requires r.path == "/"
    ensures ResolvePath(base, r)
         == base.(query := if r.query != "" then r.query else base.query, fragment := r.fragment)
       <==> PlainQuery(r.query) && PlainQuery(r.fragment)
  {
    PlainQueryEncodes(r.query);
    PlainQueryEncodes(r.fragment);
  }

  // ---------- the main theorem ----------

  /** Is a path of the reference normalized? */
  predicate Normalizes(ref: string, r: Components) {
    r.scheme == "" && !StartsTwoSlashes(ref) && (StartsWith(ref, '/') || r.path != "/")
  }

  /** Is it merged with the path of the base? */
  predicate Merges(ref: string, r: Components) {
    Normalizes(ref, r) && !StartsWith(ref, '/')
  }

  /** When a path that is normalized gets what RFC 3986 asks for: nothing is left to escape and as many
      segments are kept, behind a base path with a slash; without one see `FollowsBehind`. */
  predicate PathFollows(base: Components, ref: string, r: Components) {
    if Merges(ref, r) && '/' !in base.path then FollowsBehind(base.path, r.path)
    else
      var path := if Merges(ref, r) then MergePaths(base.path, r.path) else r.path;
      Plain(RemoveDotsRfc(path)) && KeepsPath(path)
  }

  /** When the program's target is that of RFC 3986: a reference with a scheme or an authority, whose
      dot segments stay, has none; a base without a scheme does not meet an authority; a path that is
      normalized comes out right; nothing is to be escaped in query and fragment; and a fragment of the
      base is not carried over. */
  predicate FollowsRfc(base: Components, ref: string, r: Components) {
    if r.scheme != "" then NoDots(r.path)
    else if StartsTwoSlashes(ref) then base.scheme != "" && NoDots(r.path)
    else
      && (Normalizes(ref, r) ==> PathFollows(base, ref, r))
      && PlainQuery(r.query) && PlainQuery(r.fragment)
      && (ref == "" || StartsWith(ref, '/') ==> base.fragment == "")
  }

  /** For every base that parsing can yield and every reference that parses. */
  lemma ResolveIff(base: Components, ref: string, r: Components)
    requires Wellformed(base) && '\0' !in ref && Parse(ref) == Success(r)
    ensures Resolve(base, ref) == Success(Target(base, ref, r)) <==> FollowsRfc(base, ref, r)
  {
    NoNul(ref);
    if StartsTwoSlashes(ref) {
      NoSchemeBeforeSlash(ref, r);
      ResolveAuthorityIff(base, ref, r);
    } else if StartsWith(ref, '/') {
      NoSchemeBeforeSlash(ref, r);
      NoAuthority(ref, r);
      ResolveRootIff(base, r);
    } else if r.scheme == "" {
      NoAuthority(ref, r);
      RelativeStarts(ref, r);
      ResolveRelativeIff(base, ref, r);
    } else {
      RfcLeavesAloneIff(r.path);
    }
  }

  lemma ResolveRelativeIff(base: Components, ref: string, r: Components)
    requires Wellformed(base) && Parse(ref) == Success(r) && ParseText(ref) == Success(r)
    requires r == Components("", "", "", 0, r.path, r.query, r.fragment) && r.path != "" && !StartsWith(ref, '/')
    requires r.path != "/" ==> !StartsWith(r.path, '/')
    ensures Resolve(base, ref) == Success(Target(base, ref, r)) <==> FollowsRfc(base, ref, r)
  {
    if r.path == "/" {
      ResolveNoPathIff(base, r);
    } else if '/' in base.path {
      MergeIsRfcIff(base.host != "", base.path, r.path);
      ResolvePathIff(base, r);
    } else {
      ResolveSlashlessIff(base, r);
    }
  }

  /** A base path without a slash, which the program merges as if it had one behind it. */
  lemma ResolveSlashlessIff(base: Components, r: Components)
    requires Wellformed(base) && '/' !in base.path && r.path != "" && !StartsWith(r.path, '/')
    ensures ResolvePath(base, r)
         == base.(path := RemoveDotsRfc(MergeRfc(base.host != "", base.path, r.path)),
                  query := r.query, fragment := r.fragment)
       <==> FollowsBehind(base.path, r.path) && PlainQuery(r.query) && PlainQuery(r.fragment)
  {
    assert base.path[0] != '/' && base.path[..0] == "";
    Nil(r.path);
    SetBehindIff(base.path, r.path);
    PlainQueryEncodes(r.query);
    PlainQueryEncodes(r.fragment);
  }

  lemma RelativePathStarts(u0: Components, s: string, u: Components)
    requires ParsePath(u0, s) == Success(u) && u0.path == "/" && u0.query == u0.fragment == ""
    requires !StartsWith(s, '/') && u.path != "/"
    ensures !StartsWith(u.path, '/')
  {
    if s != "" && IsPathChar(s[0]) {
      PathStarts(s);
      ParsedQuery(u0.(path := Before(s, {'?', '#'})), From(s, {'?', '#'}), u);
    } else {
      ParsedQuery(u0, s, u);
    }
  }

  lemma RelativeStarts(ref: string, r: Components)
    requires Parse(ref) == Success(r) && r.scheme == "" && !StartsWith(ref, '/')
    ensures r.path != "/" ==> !StartsWith(r.path, '/')
  {
    var pre, post := Before(ref, {':', '/'}), From(ref, {':', '/'});
    if StartsWith(post, ':') {
      SchemeSurvives(Lower(pre), post[1..], r);
    } else if r.path != "/" {
      RelativePathStarts(WithAuthority("", ""), ref, r);
    }
  }

  /** A base path without a slash and a merged path without empty segments: the target is the RFC's exactly
      when the path climbs out of its own first segment, nothing needs escaping, and the segment that the
      program puts in front is a dot segment or is climbed out of, too. */
  lemma SlashlessBaseIff(base: Components, ref: string, r: Components)
    requires Wellformed(base) && '\0' !in ref && Parse(ref) == Success(r)
    requires Merges(ref, r) && '/' !in base.path && NoEmptySegments(r.path)
    ensures Resolve(base, ref) == Success(Target(base, ref, r))
       <==> && ClimbsOut(r.path) && Plain(RemoveDotsRfc(r.path)) && PlainQuery(r.query) && PlainQuery(r.fragment)
            && (IsDot(base.path)
                || exists k | 0 <= k <= |SplitPath(r.path)| :: Stack(SplitPath(r.path)[..k], [base.path]) == [])
  {
    NoNul(ref);
    NoAuthority(ref, r);
    RelativeStarts(ref, r);
    ResolveSlashlessIff(base, r);
    SetBehindIff(base.path, r.path);
    SetBehindNoEmpty(base.path, r.path);
  }

  // ---------- where the program does something else ----------

  lemma MergeExample()
    ensures MergePaths("b", "c") != MergeRfc(false, "b", "c")
  {
    MergeIsRfcIff(false, "b", "c");
  }

  /** A path that stays below its first segment never gets the RFC's target behind a base path without a
      slash. */
  lemma SlashlessFails(base: Components, r: Components)
    requires Wellformed(base) && '/' !in base.path
    requires Wellformed(r) && Reprintable(r) && '\0' !in Print(r) && r.scheme == r.host == ""
    requires !StartsWith(r.path, '/') && !ClimbsOut(r.path)
    ensures Parse(Print(r)) == Success(r) && Resolve(base, Print(r)) != Success(Target(base, Print(r), r))
  {
    PrintParse(r);
    PrintsPath(r);
    ResolveIff(base, Print(r), r);
  }

  lemma PrintsPath(r: Components)
    requires Wellformed(r) && r.scheme == r.host == "" && !StartsWith(r.path, '/')
    ensures !StartsWith(Print(r), '/')
  {
    Nil(PrintPath(r));
    assert Canonical(r) == r && Print(r)[0] == r.path[0];
  }

  /** As for the base "g:b" and the reference "c". */
  lemma SlashlessExample()
    ensures exists base, ref, r :: Parse(ref) == Success(r) && Resolve(base, ref) != Success(Target(base, ref, r))
                                && r.scheme == base.host == "" && !StartsWith(ref, '/') && r.path != "/"
  {
    var r := Components("", "", "", 0, "c", "", "");
    OpenedRelative(r.path, "");
    Nil(r.path);
    PrintsPath(r);
    SlashlessFails(Components("g", "", "", 0, "b", "", ""), r);
  }

  /** The empty reference keeps the fragment of the base. */
  lemma FragmentExample()
    ensures var base := Components("g", "", "", 0, "/", "", "f");
            exists r :: Parse("") == Success(r) && Resolve(base, "") != Success(Target(base, "", r))
  {
    var base, r := Components("g", "", "", 0, "/", "", "f"), Components("", "", "", 0, "/", "", "");
    assert Parse("") == Success(r);
    ResolveIff(base, "", r);
  }

  /** A reference with a scheme keeps its dot segments. */
  lemma DotsBehindScheme(base: Components, r: Components)
    requires Wellformed(base) && Wellformed(r) && Reprintable(r) && '\0' !in Print(r)
    requires r.scheme != "" && !NoDots(r.path)
    ensures Parse(Print(r)) == Success(r) && Resolve(base, Print(r)) != Success(Target(base, Print(r), r))
  {
    PrintParse(r);
    assert !StartsWith(Print(r), '/') by { assert Print(r)[0] == r.scheme[0]; }
    ResolveIff(base, Print(r), r);
  }

  /** As in "g:/.". */
  lemma SchemeExample()
    ensures exists base, ref, r :: Parse(ref) == Success(r) && Resolve(base, ref) != Success(Target(base, ref, r))
                                && r.scheme != ""
  {
    var r := Components("g", "", "", 0, "/.", "", "");
    AbsoluteFirst(".", "");
    assert "/" + "." + "" == r.path && "." in SplitPath(r.path);
    DotsBehindScheme(Components("g", "", "", 0, "/", "", ""), r);
  }

  lemma MergedIsPlain(base: string, relative: string)
    requires Plain(base) && Plain(relative)
    ensures Plain(MergePaths(base, relative))
  {
    PlainConcat(base, "/");
    PlainConcat(base + "/", relative);
    PlainConcat(base, relative);
    PlainConcat(base[..LastSlash(base) + 1], relative);
  }

  predicate NoEscapes(s: string) {
    '%' !in s && '+' !in s
  }

  lemma NoEscapesIsPlain(s: string)
    requires NoEscapes(s)
    ensures All(s, PathClass) ==> Plain(s)
    ensures All(s, QueryClass) ==> PlainQuery(s)
  {
    if All(s, PathClass) {
      forall i | 0 <= i < |s| ensures !Path.ShouldEncode(s[i]) {
        assert PathClass.Has(s[i]) && s[i] in s;
      }
    }
    if All(s, QueryClass) {
      forall i | 0 <= i < |s| ensures !Query.ShouldEncode(s[i]) {
        assert QueryClass.Has(s[i]) && s[i] in s;
      }
    }
  }

  lemma MergedFollows(base: Components, r: Components)
    requires All(base.path, PathClass) && All(r.path, PathClass) && NoEscapes(base.path) && NoEscapes(r.path)
    requires KeepsPath(MergePaths(base.path, r.path))
    ensures Plain(RemoveDotsRfc(MergePaths(base.path, r.path)))
  {
    NoEscapesIsPlain(base.path);
    NoEscapesIsPlain(r.path);
    MergedIsPlain(base.path, r.path);
    PlainPathsFollowRfc(MergePaths(base.path, r.path));
  }

  /** A relative path without '%' and '+' gets the target of sections 5.2.2 and 5.2.3. */
  lemma RelativePathsFollowRfc(base: Components, ref: string, r: Components)
    requires Wellformed(base) && base.host != "" && '\0' !in ref && Parse(ref) == Success(r)
    requires r.scheme == "" && !StartsWith(ref, '/') && r.path != "/"
    requires NoEscapes(base.path) && NoEscapes(r.path) && NoEscapes(r.query) && NoEscapes(r.fragment)
    requires KeepsPath(MergePaths(base.path, r.path))
    ensures Resolve(base, ref)
         == Success(base.(path := RemoveDotsRfc(MergeRfc(true, base.path, r.path)),
                          query := r.query, fragment := r.fragment))
  {
    ParsedIsWellformed(ref, r);
    MergedFollows(base, r);
    NoEscapesIsPlain(r.query);
    NoEscapesIsPlain(r.fragment);
    FollowsMerged(base, ref, r);
  }

  lemma FollowsMerged(base: Components, ref: string, r: Components)
    requires Wellformed(base) && base.host != "" && '\0' !in ref && Parse(ref) == Success(r)
    requires r.scheme == "" && !StartsWith(ref, '/') && r.path != "/"
    requires Plain(RemoveDotsRfc(MergePaths(base.path, r.path))) && KeepsPath(MergePaths(base.path, r.path))
    requires PlainQuery(r.query) && PlainQuery(r.fragment)
    ensures Resolve(base, ref)
         == Success(base.(path := RemoveDotsRfc(MergeRfc(true, base.path, r.path)),
                          query := r.query, fragment := r.fragment))
  {
    assert base.path[0] == '/' && '/' in base.path;
    NoAuthority(ref, r);
    ResolveIff(base, ref, r);
  }
}
