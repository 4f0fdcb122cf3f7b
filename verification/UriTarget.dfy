/**
 The target of every reference, whether RFC 3986 asks for it or not: what each component says once the
 escapes that the program adds are decoded again.
 */
module UriTargets {
  import opened Strings
  import opened UriCodec
  import opened UriSyntax
  import opened UriRoundTrip
  import opened UriPath
  import opened UriDots
  import opened UriAppend
  import opened UriResolve

  // ---------- octets ----------

  lemma ClassIsOctets(s: string, class_: Class)
    requires All(s, class_)
    ensures Octets(s)
  {
    forall i | 0 <= i < |s| ensures s[i] as int < 256 {
      assert class_.Has(s[i]);
    }
  }

  lemma EncodedIsOctets(component: Component, raw: string)
    requires Octets(raw)
    ensures Octets(Encode(component, raw))
  {
    EncodedIsLegal(component, raw);
    forall i | 0 <= i < |Encode(component, raw)| ensures Encode(component, raw)[i] as int < 256 {
      assert Legal(component, Encode(component, raw)[i]);
    }
  }

  predicate OctetSegments(segs: seq<string>) {
    forall s | s in segs :: Octets(s)
  }

  lemma {:induction false} SplitIsOctets(s: string, cur: string)
    requires Octets(s) && Octets(cur)
    ensures OctetSegments(Split(s, cur))
  {
    if s != "" {
      assert Octets(s[1..]) && s[0] as int < 256;
      SplitIsOctets(s[1..], if s[0] == '/' then "" else cur + [s[0]]);
    }
  }

  lemma {:induction false} StackIsOctets(segs: seq<string>, result: seq<string>)
    requires OctetSegments(segs) && OctetSegments(result)
    ensures OctetSegments(Stack(segs, result))
  {
    if segs != [] {
      assert segs[0] in segs && OctetSegments(segs[1..]);
      StackIsOctets(segs[1..], Push(segs[0], result));
    }
  }

  lemma {:induction false} SlashedIsOctets(segs: seq<string>)
    requires OctetSegments(segs)
    ensures Octets(Slashed(segs))
  {
    if segs != [] {
      assert segs[0] in segs && OctetSegments(segs[1..]);
      SlashedIsOctets(segs[1..]);
    }
  }

  lemma NormalIsOctets(path: string)
    requires Octets(path)
    ensures Octets(Normal(path))
  {
    SplitIsOctets(path, "");
    StackIsOctets(SplitPath(path), []);
    SlashedIsOctets(Stack(SplitPath(path), []));
  }

  // ---------- what a component says ----------

  /** The text, percent-encoded as this component: decoding gives it back. */
  predicate Says(component: Component, encoded: string, text: string) {
    encoded == Encode(component, text) && Decode(encoded) == Success(text)
  }

  lemma EncodedSays(component: Component, text: string)
    requires Octets(text) && component != Host
    ensures Says(component, Encode(component, text), text)
  {
    DecodeEncode(component, text);
  }

  /** The path with a slash in front. */
  function Rooted(path: string): string {
    if StartsWith(path, '/') then path else "/" + path
  }

  /** A path with a dot is encoded twice: two decodings give what RFC 3986 leaves of it without its empty segments.
      A path without a dot is encoded once. */
  predicate SaysPath(encoded: string, path: string) {
    if '.' in path then
      && Decode(encoded).Success? && Says(Path, encoded, Decode(encoded).value)
      && Says(Path, Decode(encoded).value, RemoveDotsRfc(Tidy(path)))
    else Says(Path, encoded, Rooted(path))
  }

  lemma SetSaysPath(path: string)
    requires Octets(path)
    ensures SaysPath(RemoveDots(SetPath(path, true)), path)
  {
    SetIsEncoded(path);
    if '.' in path {
      SetDotted(path);
      NormalIsOctets(path);
      NormalIsRfc(path);
      EncodedSays(Path, Normal(path));
      EncodedIsOctets(Path, Normal(path));
      EncodedSays(Path, Encode(Path, Normal(path)));
    } else {
      Nil(path);
      EncodedSays(Path, SetPath(path, false));
    }
  }

  // ---------- references with an absolute path ----------

  /** The authority of the base, the path of the reference, and the two fragments one behind the other. */
  predicate IsRootTarget(t: Components, base: Components, r: Components) {
    && t == base.(path := t.path, query := t.query, fragment := t.fragment)
    && SaysPath(t.path, r.path) && Says(Query, t.query, r.query)
    && Says(Query, t.fragment, base.fragment + r.fragment)
  }

  lemma RootTarget(base: Components, ref: string, r: Components)
    requires Wellformed(base) && '\0' !in ref && Parse(ref) == Success(r)
    requires StartsWith(ref, '/') && !StartsTwoSlashes(ref)
    ensures Resolve(base, ref).Success? && IsRootTarget(Resolve(base, ref).value, base, r)
  {
    NoNul(ref);
    ParsedIsOctets(ref, r);
    NoSchemeBeforeSlash(ref, r);
    NoAuthority(ref, r);
    ClassIsOctets(base.fragment, QueryClass);
    RootSays(base, r);
  }

  lemma ParsedIsOctets(ref: string, r: Components)
    requires Parse(ref) == Success(r)
    ensures Octets(r.path) && Octets(r.query) && Octets(r.fragment)
  {
    ParsedIsWellformed(ref, r);
    ClassIsOctets(r.path, PathClass);
    ClassIsOctets(r.query, QueryClass);
    ClassIsOctets(r.fragment, QueryClass);
  }

  lemma RootSays(base: Components, r: Components)
    requires Octets(r.path) && Octets(r.query) && Octets(r.fragment) && Octets(base.fragment) && StartsWith(r.path, '/')
    ensures IsRootTarget(ResolveRoot(base, r), base, r)
  {
    AppendToRoot(r.path);
    Nil(Encode(Path, r.path));
    SetSaysPath(r.path);
    AppendQueryToNone(r.query, true);
    EncodedSays(Query, r.query);
    EncodedSays(Query, base.fragment + r.fragment);
  }

  // ---------- references with a relative path ----------

  /** All of the base path but its last segment, in front of the path of the reference; a base path without a
      slash stays whole. */
  function Joined(base: string, relative: string): string {
    (if '/' in base then base[..LastSlash(base)] else base) + "/" + relative
  }

  lemma MergedIsJoined(base: string, relative: string)
    requires base != ""
    ensures MergePaths(base, relative) == Joined(base, relative)
  {
    var i := LastSlash(base);
    if i >= 0 {
      assert base[..i + 1] == base[..i] + "/";
      assert i == |base| - 1 ==> base[..i + 1] == base;
    }
  }

  predicate IsRelativeTarget(t: Components, base: Components, r: Components) {
    && t == base.(path := t.path, query := t.query, fragment := t.fragment)
    && SaysPath(t.path, Joined(base.path, r.path)) && Says(Query, t.query, r.query)
    && Says(Query, t.fragment, r.fragment)
  }

  lemma RelativeTarget(base: Components, ref: string, r: Components)
    requires Wellformed(base) && '\0' !in ref && Parse(ref) == Success(r)
    requires r.scheme == "" && ref != "" && !StartsWith(ref, '/') && r.path != "/"
    ensures Resolve(base, ref).Success? && IsRelativeTarget(Resolve(base, ref).value, base, r)
  {
    NoNul(ref);
    ParsedIsOctets(ref, r);
    NoAuthority(ref, r);
    ClassIsOctets(base.path, PathClass);
    RelativeSays(base, r);
  }

  lemma RelativeSays(base: Components, r: Components)
    requires Octets(r.path) && Octets(r.query) && Octets(r.fragment) && Octets(base.path)
    requires base.path != "" && r.path != "" && r.path != "/"
    ensures IsRelativeTarget(ResolvePath(base, r), base, r)
  {
    MergedIsJoined(base.path, r.path);
    SetSaysPath(Joined(base.path, r.path));
    EncodedSays(Query, r.query);
    EncodedSays(Query, r.fragment);
  }

  // ---------- references without a path ----------

  /** The base with another fragment, and with the query of the reference if it has one. */
  predicate IsSameDocument(t: Components, base: Components, r: Components) {
    && t == base.(query := t.query, fragment := t.fragment)
    && (if r.query == "" then t.query == base.query else Says(Query, t.query, r.query))
    && Says(Query, t.fragment, r.fragment)
  }

  lemma SameDocument(base: Components, ref: string, r: Components)
    requires '\0' !in ref && Parse(ref) == Success(r)
    requires r.scheme == "" && ref != "" && !StartsWith(ref, '/') && r.path == "/"
    ensures Resolve(base, ref).Success? && IsSameDocument(Resolve(base, ref).value, base, r)
  {
    NoNul(ref);
    ParsedIsOctets(ref, r);
    NoAuthority(ref, r);
    EncodedSays(Query, r.query);
    EncodedSays(Query, r.fragment);
  }

  // ---------- the main theorem ----------

  predicate IsTarget(t: Components, base: Components, ref: string, r: Components) {
    if ref == "" then t == base
    else if r.scheme != "" then t == r
    else if StartsTwoSlashes(ref) then t == r.(scheme := base.scheme)
    else if StartsWith(ref, '/') then IsRootTarget(t, base, r)
    else if r.path == "/" then IsSameDocument(t, base, r)
    else IsRelativeTarget(t, base, r)
  }

  lemma AuthorityTarget(base: Components, ref: string, r: Components)
    requires Wellformed(base) && '\0' !in ref && Parse(ref) == Success(r) && StartsTwoSlashes(ref)
    ensures Resolve(base, ref) == if base.scheme == "" then Failure(InvalidUri) else Success(r.(scheme := base.scheme))
  {
    NoSchemeBeforeSlash(ref, r);
    if base.scheme == "" {
      Nil(":" + ref);
      NoEmptyScheme(ref);
      NoNul(":" + ref);
    } else {
      NameHasNoNul(base.scheme);
      NoNul(base.scheme + ":" + ref);
      SchemeRead(base.scheme, ref);
      HierarchyUnderScheme(base.scheme, ref, r);
    }
  }

  /** For every base that parsing can yield and every reference that parses: resolution fails only for an
      authority that meets a base without a scheme, and otherwise yields this target. */
  lemma ResolveYields(base: Components, ref: string, r: Components)
    requires Wellformed(base) && '\0' !in ref && Parse(ref) == Success(r)
    ensures if StartsTwoSlashes(ref) && base.scheme == "" then Resolve(base, ref) == Failure(InvalidUri)
            else Resolve(base, ref).Success? && IsTarget(Resolve(base, ref).value, base, ref, r)
  {
    if StartsTwoSlashes(ref) {
      NoSchemeBeforeSlash(ref, r);
      AuthorityTarget(base, ref, r);
    } else if StartsWith(ref, '/') {
      NoSchemeBeforeSlash(ref, r);
      RootTarget(base, ref, r);
    } else if ref != "" && r.scheme == "" {
      if r.path == "/" {
        SameDocument(base, ref, r);
      } else {
        RelativeTarget(base, ref, r);
      }
    } else {
      NoNul(ref);
    }
  }

  // ---------- references that do not parse ----------

  lemma PathFails(u: Components, v: Components, s: string)
    requires ParsePath(u, s).Failure?
    ensures ParsePath(v, s) == Failure(InvalidUri)
  {
  }

  lemma HierarchyFails(scheme: string, ref: string)
    requires StartsTwoSlashes(ref) && ParseHierarchy("", ref).Failure?
    ensures ParseHierarchy(scheme, ref) == Failure(InvalidUri)
  {
    var a, rest := Before(ref[2..], {'/', '?', '#'}), From(ref[2..], {'/', '?', '#'});
    if All(a, Authority) {
      PathFails(WithAuthority("", a), WithAuthority(scheme, a), rest);
    }
  }

  lemma AuthorityFails(scheme: string, ref: string)
    requires (scheme == "" || IsSchemeName(scheme)) && '\0' !in ref && StartsTwoSlashes(ref) && Parse(ref).Failure?
    ensures ParseText(scheme + ":" + ref) == Failure(InvalidUri)
  {
    SlashRead(ref);
    HierarchyFails(scheme, ref);
    if scheme == "" {
      Nil(":" + ref);
      NoEmptyScheme(ref);
      NoNul(":" + ref);
    } else {
      NameHasNoNul(scheme);
      NoNul(scheme + ":" + ref);
      SchemeRead(scheme, ref);
    }
  }

  lemma NothingParses()
    ensures Parse("").Success?
  {
    assert ParsePath(WithAuthority("", ""), "").Success?;
  }

  /** And a reference that does not parse is an error. */
  lemma ResolveFails(base: Components, ref: string)
    requires Wellformed(base) && '\0' !in ref && Parse(ref).Failure?
    ensures Resolve(base, ref) == Failure(InvalidUri)
  {
    NothingParses();
    if StartsTwoSlashes(ref) {
      AuthorityFails(base.scheme, ref);
    } else {
      NoNul(ref);
    }
  }
}
