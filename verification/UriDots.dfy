/**
 What the removal of dot segments promises, and when it keeps the promise of RFC 3986.
 */
module UriDots {
  import opened Strings
  import opened UriCodec
  import opened UriSyntax
  import opened UriPath
  import opened UriSegments

  /** Path characters that encoding leaves alone. */
  predicate Plain(s: string) {
    forall i | 0 <= i < |s| :: !Path.ShouldEncode(s[i])
  }

  lemma {:induction false} PlainEncodesToItself(s: string)
    ensures |Encode(Path, s)| >= |s| && (Plain(s) <==> |Encode(Path, s)| == |s|)
    ensures Plain(s) ==> Encode(Path, s) == s
  {
    if s != "" {
      PlainEncodesToItself(s[1..]);
      assert Plain(s) <==> !Path.ShouldEncode(s[0]) && Plain(s[1..]);
    }
  }

  lemma {:induction false} EncodedIsPlainOrEscaped(s: string)
    ensures Plain(Encode(Path, s)) <==> '%' !in Encode(Path, s)
  {
    if s != "" {
      var head, rest := EncodeChar(Path, s[0]), Encode(Path, s[1..]);
      EncodedIsPlainOrEscaped(s[1..]);
      assert Plain(head) <==> '%' !in head by {
        assert head[0] == '%' || !Path.ShouldEncode(head[0]);
      }
      PlainConcat(head, rest);
    }
  }

  lemma PlainConcat(a: string, b: string)
    ensures Plain(a + b) <==> Plain(a) && Plain(b)
  {
    if Plain(a + b) {
      forall i | 0 <= i < |a| ensures !Path.ShouldEncode(a[i]) { assert (a + b)[i] == a[i]; }
      forall i | 0 <= i < |b| ensures !Path.ShouldEncode(b[i]) { assert (a + b)[|a| + i] == b[i]; }
    }
  }

  // ---------- the result is tidy and has no dot segments ----------

  lemma {:induction false} EncodeSlashed(segs: seq<string>)
    ensures Encode(Path, Slashed(segs)) == Slashed(EncodeAll(segs))
  {
    if segs != [] {
      EncodeSlashed(segs[1..]);
      EncodeConcat(Path, "/" + segs[0], Slashed(segs[1..]));
      EncodeConcat(Path, "/", segs[0]);
      EncodeSingle(Path, '/');
      assert EncodeAll(segs)[1..] == EncodeAll(segs[1..]);
    }
  }

  lemma EncodeAbsolute(segs: seq<string>, slash: bool)
    ensures Encode(Path, Absolute(segs, slash)) == Absolute(EncodeAll(segs), slash)
  {
    EncodeSlashed(segs);
    EncodeConcat(Path, Slashed(segs), if slash then "/" else "");
    EncodeSingle(Path, '/');
  }

  lemma EncodedSegment(s: string)
    ensures IsSegment(s) ==> IsSegment(Encode(Path, s))
    ensures Encode(Path, s) == "." <==> s == "."
    ensures Encode(Path, s) == ".." <==> s == ".."
  {
    PlainEncodesToItself(s);
    if Encode(Path, s) == "." || Encode(Path, s) == ".." {
      EncodedIsPlainOrEscaped(s);
      EncodedDots(s);
    }
    if IsSegment(s) {
      NoSlashEncoded(s);
    }
  }

  lemma {:induction false} EncodedDots(s: string)
    requires '%' !in Encode(Path, s)
    ensures Encode(Path, s) == s
  {
    if s != "" {
      assert EncodeChar(Path, s[0])[0] in Encode(Path, s);
      EncodedDots(s[1..]);
    }
  }

  lemma {:induction false} NoSlashEncoded(s: string)
    requires '/' !in s
    ensures '/' !in Encode(Path, s)
  {
    if s != "" {
      NoSlashEncoded(s[1..]);
      assert '/' !in EncodeChar(Path, s[0]);
    }
  }

  lemma {:induction false} EncodedSegments(segs: seq<string>)
    requires Segments(segs)
    ensures Segments(EncodeAll(segs))
    ensures forall i | 0 <= i < |segs| :: EncodeAll(segs)[i] == Encode(Path, segs[i])
  {
    if segs != [] {
      assert IsSegment(segs[0]) && Segments(segs[1..]);
      EncodedSegment(segs[0]);
      EncodedSegments(segs[1..]);
    }
  }

  lemma EndOfAbsolute(segs: seq<string>, slash: bool)
    requires Segments(segs)
    ensures EndsWith(Absolute(segs, slash), '/') == slash
  {
    if !slash {
      Nil(Slashed(segs));
      if segs != [] {
        var init, s := segs[..|segs| - 1], segs[|segs| - 1];
        assert segs == init + [s] && IsSegment(s);
        SlashedSnoc(init, s);
        assert Slashed(segs)[|Slashed(segs)| - 1] == s[|s| - 1];
      }
    }
  }

  /** Segments joined by slashes are tidy. */
  lemma AbsoluteIsTidy(segs: seq<string>, slash: bool)
    requires Segments(segs) && (segs != [] || slash)
    ensures SplitPath(Absolute(segs, slash)) == segs && EndsWith(Absolute(segs, slash), '/') == slash
    ensures IsTidy(Absolute(segs, slash))
  {
    SplitAbsolute(segs, slash);
    EndOfAbsolute(segs, slash);
  }

  /** A path with a dot, normalized: its segments and the slash at the end. */
  lemma NormalParts(path: string)
    ensures var segs := KeptSegments(path);
            && Segments(segs) && (forall s | s in segs :: !IsDot(s)) && (segs != [] || KeptSlash(path))
            && Normal(path) == Absolute(segs, KeptSlash(path))
  {
    SplitYieldsSegments(path, "");
    StackYieldsSegments(SplitPath(path), []);
    if Stack(SplitPath(path), []) == [] && SplitPath(path) != [] {
      EmptyStack(SplitPath(path), []);
    }
  }

  /** No "." and no ".." is left, whatever the path. */
  lemma NoDotSegments(path: string)
    ensures NoDots(RemoveDots(path))
  {
    if '.' in path {
      var segs := KeptSegments(path);
      RemoveDotsIsNormal(path);
      NormalParts(path);
      EncodeAbsolute(segs, KeptSlash(path));
      EncodedSegments(segs);
      SplitAbsolute(EncodeAll(segs), KeptSlash(path));
      forall i | 0 <= i < |segs| ensures !IsDot(EncodeAll(segs)[i]) {
        EncodedSegment(segs[i]);
        assert !IsDot(segs[i]);
      }
    } else {
      SplitCharacters(path, "", '.');
    }
  }

  lemma {:induction false} StackKeeps(segs: seq<string>, result: seq<string>)
    requires forall s | s in segs :: !IsDot(s)
    ensures Stack(segs, result) == result + segs
  {
    if segs == [] {
      Nil(result);
    } else {
      assert !IsDot(segs[0]);
      StackKeeps(segs[1..], result + [segs[0]]);
      Assoc(result, [segs[0]], segs[1..]);
      assert [segs[0]] + segs[1..] == segs;
    }
  }

  /** A tidy path without dot segments is its own normal form. */
  lemma NormalKeeps(segs: seq<string>, slash: bool)
    requires Segments(segs) && (segs != [] || slash) && forall s | s in segs :: !IsDot(s)
    ensures Normal(Absolute(segs, slash)) == Absolute(segs, slash)
  {
    AbsoluteIsTidy(segs, slash);
    StackKeeps(segs, []);
    Nil(segs);
    if segs != [] {
      assert !IsDot(segs[|segs| - 1]);
    }
  }

  /** Removing dot segments again changes nothing, unless something was escaped and a dot is left:
      then it is escaped again. */
  lemma RemoveDotsIdempotentIff(path: string)
    ensures var once := RemoveDots(path);
            RemoveDots(once) == once <==> '.' !in path || '.' !in once || '%' !in once
  {
    var once := RemoveDots(path);
    if '.' in path && '.' in once {
      RemoveDotsIsNormal(path);
      NormalParts(path);
      NormalOfEncoded(KeptSegments(path), KeptSlash(path));
      RemoveDotsIsNormal(once);
      EncodedIsPlainOrEscaped(Normal(path));
      PlainEncodesToItself(once);
    }
  }

  lemma NormalOfEncoded(segs: seq<string>, slash: bool)
    requires Segments(segs) && (segs != [] || slash) && forall s | s in segs :: !IsDot(s)
    ensures var e := Encode(Path, Absolute(segs, slash)); Normal(e) == e
  {
    EncodeAbsolute(segs, slash);
    EncodedSegments(segs);
    forall i | 0 <= i < |segs| ensures !IsDot(EncodeAll(segs)[i]) {
      EncodedSegment(segs[i]);
      assert !IsDot(segs[i]);
    }
    NormalKeeps(EncodeAll(segs), slash);
  }

  lemma EscapedIsSeen(s: string)
    requires !Plain(s)
    ensures '%' in Encode(Path, s)
  {
    PlainEncodesToItself(s);
    if '%' !in Encode(Path, s) {
      EncodedDots(s);
    }
  }

  /** A second removal does change something here. */
  lemma SecondRemovalExample()
    ensures RemoveDots(RemoveDots("/.%")) != RemoveDots("/.%")
  {
    var path := "/.%";
    assert path == Absolute([".%"], false) by {
      assert Slashed([".%"]) == "/" + ".%" + Slashed([".%"][1..]);
    }
    NormalKeeps([".%"], false);
    assert path[1] == '.' && path[2] == '%';
    RemoveDotsIsNormal(path);
    EncodeKeepsDots(path);
    assert Path.ShouldEncode(path[2]);
    EscapedIsSeen(path);
    RemoveDotsIdempotentIff(path);
  }

  // ---------- paths that are escaped first ----------

  lemma {:induction false} StackEncoded(segs: seq<string>, result: seq<string>)
    ensures Stack(EncodeAll(segs), EncodeAll(result)) == EncodeAll(Stack(segs, result))
  {
    if segs != [] {
      EncodedSegment(segs[0]);
      PushEncoded(segs[0], result);
      assert EncodeAll(segs)[1..] == EncodeAll(segs[1..]);
      StackEncoded(segs[1..], Push(segs[0], result));
    }
  }

  lemma PushEncoded(s: string, result: seq<string>)
    ensures Push(Encode(Path, s), EncodeAll(result)) == EncodeAll(Push(s, result))
  {
    EncodedSegment(s);
    EncodeAllConcat(result, [s]);
    assert [s][1..] == [] && EncodeAll([s]) == [Encode(Path, s)];
    if result != [] {
      var init := DropTop(result);
      assert result == init + [result[|result| - 1]];
      EncodeAllConcat(init, [result[|result| - 1]]);
    }
  }

  lemma {:induction false} EncodeKeepsDots(s: string)
    ensures '.' in Encode(Path, s) <==> '.' in s
    ensures EndsWith(Encode(Path, s), '/') <==> EndsWith(s, '/')
  {
    if s != "" {
      EncodeKeepsDots(s[1..]);
      assert '.' in EncodeChar(Path, s[0]) <==> s[0] == '.';
      assert s == [s[0]] + s[1..];
    }
  }

  /** Escaping first and normalizing then is normalizing first and escaping then. */
  lemma NormalEncoded(path: string)
    ensures Normal(Encode(Path, path)) == Encode(Path, Normal(path))
  {
    var segs := SplitPath(path);
    SplitEncode(path, "");
    StackEncoded(segs, []);
    EncodeKeepsDots(path);
    SplitYieldsSegments(path, "");
    EncodedSegments(segs);
    if segs != [] {
      EncodedSegment(segs[|segs| - 1]);
    }
    EncodeAbsolute(Stack(segs, []), SlashAtEnd(segs, segs == [] || EndsWith(path, '/')));
  }

  // ---------- agreement with RFC 3986 ----------

  lemma NoDotCharacter(path: string)
    requires '.' !in path
    ensures RemoveDotsRfc(path) == path
  {
    SplitCharacters(path, "", '.');
    RfcLeavesAloneIff(path);
  }

  lemma {:induction false} EncodedSlashless(segs: seq<string>)
    requires Slashless(segs)
    ensures Slashless(EncodeAll(segs))
  {
    if segs != [] {
      assert '/' !in segs[0];
      NoSlashEncoded(segs[0]);
      EncodedSlashless(segs[1..]);
    }
  }

  /** An encoded normal form is the result of the rewriting only if the normal form itself is. */
  lemma EncodedIsRfc(path: string)
    requires Encode(Path, Normal(path)) == RemoveDotsRfc(path)
    ensures Normal(path) == RemoveDotsRfc(path)
  {
    var segs := KeptSegments(path);
    NormalParts(path);
    EncodeAbsolute(segs, KeptSlash(path));
    EncodedSlashless(segs);
    SameCount(path, EncodeAll(segs));
  }

  lemma TwiceEncodedIsRfc(path: string)
    requires Encode(Path, Encode(Path, Normal(path))) == RemoveDotsRfc(path)
    ensures Normal(path) == RemoveDotsRfc(path)
  {
    var segs := KeptSegments(path);
    NormalParts(path);
    EncodeAbsolute(segs, KeptSlash(path));
    EncodeAbsolute(EncodeAll(segs), KeptSlash(path));
    EncodedSlashless(segs);
    EncodedSlashless(EncodeAll(segs));
    SameCount(path, EncodeAll(EncodeAll(segs)));
  }

  /** On every path: the stack form agrees with the string rewriting exactly when it finds no dot, or
      has nothing to escape in what is kept and keeps as many segments as count with the empty ones. */
  lemma RemoveDotsIsRfcIff(path: string)
    ensures RemoveDots(path) == RemoveDotsRfc(path)
       <==> '.' !in path || (Plain(RemoveDotsRfc(path)) && KeepsAsMany(path))
  {
    if '.' in path {
      NormalIffAsMany(path);
      RemoveDotsIsNormal(path);
      if RemoveDots(path) == RemoveDotsRfc(path) {
        EncodedIsRfc(path);
      }
      PlainEncodesToItself(RemoveDotsRfc(path));
    } else {
      NoDotCharacter(path);
    }
  }

  /** The result of the program's removal never has empty segments inside. */
  lemma EmptySegmentsAreLost(path: string)
    requires '.' in path
    ensures IsTidy(RemoveDots(path))
    ensures !IsTidy(RemoveDotsRfc(path)) ==> RemoveDots(path) != RemoveDotsRfc(path)
  {
    var segs := KeptSegments(path);
    RemoveDotsIsNormal(path);
    NormalParts(path);
    EncodeAbsolute(segs, KeptSlash(path));
    EncodedSegments(segs);
    AbsoluteIsTidy(EncodeAll(segs), KeptSlash(path));
  }

  lemma EmptySegmentRewritten()
    ensures RemoveDotsRfc("/.//") == "//"
  {
    RewriteDot("//", "");
    assert "/." + "//" == "/.//";
    NoDotCharacter("//");
  }

  lemma TwoSlashesUntidy()
    ensures !IsTidy("//")
  {
    assert "//"[1..] == "/" && "/"[1..] == "";
    assert Split("/", "") == Flush("") + Split("", "");
    assert SplitPath("//") == [];
  }

  lemma EmptySegmentExample()
    ensures RemoveDotsRfc("/.//") == "//" && RemoveDots("/.//") != "//"
  {
    EmptySegmentRewritten();
    TwoSlashesUntidy();
    assert "/.//"[1] == '.';
    EmptySegmentsAreLost("/.//");
  }

  // ---------- paths that are set first ----------

  /** Setting a path puts a slash in front of it, and removing dot segments loses the empty ones: is as
      much kept as RFC 3986 keeps? */
  predicate KeepsPath(path: string) {
    if '.' in path then KeepsAsMany(path) else StartsWith(path, '/')
  }

  lemma NormalOfSet(path: string)
    requires !StartsWith(path, '/')
    ensures Normal("/" + path) == Normal(path)
  {
    assert ("/" + path)[1..] == path;
    Nil(SplitPath(path));
    if path != "" {
      assert ("/" + path)[|path|] == path[|path| - 1];
    }
  }

  lemma SetIsEncoded(path: string)
    ensures SetPath(path, true) == Encode(Path, SetPath(path, false))
    ensures Normal(SetPath(path, false)) == Normal(path) && ('.' in SetPath(path, true) <==> '.' in path)
  {
    Nil(path);
    Nil(Encode(Path, path));
    EncodeKeepsDots(path);
    if !StartsWith(path, '/') {
      NormalOfSet(path);
      assert ("/" + path)[1..] == path;
    }
  }

  /** On every path: setting it and removing its dot segments is what RFC 3986 asks for exactly when
      there is nothing to escape in what is kept and the same is kept. */
  lemma SetAndRemoveDotsIff(path: string)
    ensures RemoveDots(SetPath(path, true)) == RemoveDotsRfc(path)
       <==> Plain(RemoveDotsRfc(path)) && KeepsPath(path)
  {
    SetIsEncoded(path);
    if '.' in path {
      SetDotsIff(path);
    } else {
      NoDotCharacter(path);
      PlainEncodesToItself(path);
      Nil(Encode(Path, path));
    }
  }

  /** A path with a dot that is set and normalized: encoded twice. */
  lemma SetDotted(path: string)
    requires '.' in path
    ensures RemoveDots(SetPath(path, true)) == Encode(Path, Encode(Path, Normal(path)))
  {
    SetIsEncoded(path);
    RemoveDotsIsNormal(SetPath(path, true));
    NormalEncoded(SetPath(path, false));
  }

  lemma SetDotsIff(path: string)
    requires '.' in path
    ensures RemoveDots(SetPath(path, true)) == RemoveDotsRfc(path)
       <==> Plain(RemoveDotsRfc(path)) && KeepsAsMany(path)
  {
    var r := RemoveDotsRfc(path);
    SetDotted(path);
    NormalIffAsMany(path);
    if RemoveDots(SetPath(path, true)) == r {
      TwiceEncodedIsRfc(path);
    }
    PlainEncodesToItself(r);
    PlainEncodesToItself(Encode(Path, r));
  }

  lemma SetStarts(path: string)
    ensures StartsWith(RemoveDots(SetPath(path, true)), '/')
  {
    SetIsEncoded(path);
    if '.' in path {
      RemoveDotsIsNormal(SetPath(path, true));
      NormalParts(SetPath(path, true));
      SlashedStarts(KeptSegments(SetPath(path, true)), KeptSlash(SetPath(path, true)));
    }
  }

  // ---------- paths that are set behind one more segment ----------

  /** What RFC 3986 keeps of the path reads like what the program keeps with b in front, escaped twice. */
  predicate Coincides(b: string, path: string) {
    RfcSegments(path) == EncodeAll(EncodeAll([b] + KeptSegments(path)))
  }

  /** When a relative path, set with the segment b in front, gets what RFC 3986 leaves of it without b: it
      climbs out of its own first segment; and b is a dot segment or is climbed out of as well, nothing
      is to be escaped and as much is kept, or else the segments coincide. */
  predicate FollowsBehind(b: string, path: string) {
    && ClimbsOut(path)
    && if IsDot(b) || Climbs(SplitPath(path), 1) then Plain(RemoveDotsRfc(path)) && KeepsAsMany(path)
       else Coincides(b, path)
  }

  lemma ClimbingHasDots(path: string)
    requires path != "" && path[0] != '/' && ClimbsOut(path)
    ensures '.' in path
  {
    RfcKeeps(path);
    if '.' !in path {
      NoDotCharacter(path);
    }
  }

  lemma SetBehind(b: string, path: string)
    requires IsSegment(b) && path != "" && path[0] != '/' && ClimbsOut(path)
    ensures RemoveDots(SetPath(b + "/" + path, true)) == Encode(Path, Encode(Path, Normal(b + "/" + path)))
  {
    ClimbingHasDots(path);
    assert (b + "/" + path)[|b| + 1..] == path;
    SetDotted(b + "/" + path);
  }

  lemma CoincidesIff(b: string, path: string)
    requires IsSegment(b) && path != "" && path[0] != '/' && ClimbsOut(path)
    requires !IsDot(b) && !Climbs(SplitPath(path), 1)
    ensures Encode(Path, Encode(Path, Normal(b + "/" + path))) == RemoveDotsRfc(path) <==> Coincides(b, path)
  {
    var segs, slash := [b] + KeptSegments(path), KeptSlash(path);
    KeptBehind(b, path);
    KeptAreSlashless(b + "/" + path);
    EncodeAbsolute(segs, slash);
    EncodeAbsolute(EncodeAll(segs), slash);
    EncodedSlashless(segs);
    EncodedSlashless(EncodeAll(segs));
    RfcKeeps(path);
    if Absolute(EncodeAll(EncodeAll(segs)), slash) == Absolute(RfcSegments(path), slash) {
      AbsoluteInjective(EncodeAll(EncodeAll(segs)), RfcSegments(path), slash);
    }
  }

  lemma SetBehindIff(b: string, path: string)
    requires IsSegment(b) && path != "" && path[0] != '/'
    ensures RemoveDots(SetPath(b + "/" + path, true)) == RemoveDotsRfc(path) <==> FollowsBehind(b, path)
  {
    RfcKeeps(path);
    if !ClimbsOut(path) {
      SetStarts(b + "/" + path);
    } else {
      SetBehind(b, path);
      if IsDot(b) || Climbs(SplitPath(path), 1) {
        KeptBehind(b, path);
        KeptAreSlashless(path);
        KeptAreSlashless(b + "/" + path);
        ClimbingHasDots(path);
        SetDotted(path);
        SetDotsIff(path);
      } else {
        CoincidesIff(b, path);
      }
    }
  }

  /** The segments can coincide only if an empty one saves one from "..". */
  lemma CoincidenceKeepsMore(b: string, path: string)
    requires Coincides(b, path)
    ensures RfcHeight(path) == Height(SplitPath(path), 0) + 1
  {
    KeptHeights(path);
  }

  lemma StackStep(s: string, rest: seq<string>, result: seq<string>)
    ensures Stack([s] + rest, result) == Stack(rest, Push(s, result))
    ensures NonEmpty([s] + rest) == Flush(s) + NonEmpty(rest)
  {
    assert ([s] + rest)[1..] == rest;
  }

  lemma CoincidenceStacks(b: string)
    requires b != "" && !IsDot(b)
    ensures Stack(["..", b, "", ".."], ["d"]) == [b] && Stack(["..", b, ".."], ["d"]) == []
    ensures NonEmpty(["..", b, "", ".."]) == ["..", b, ".."]
  {
    assert ["..", b, "", ".."] == [".."] + ([b] + ([""] + ([".."] + [])));
    assert ["..", b, ".."] == [".."] + ([b] + ([".."] + []));
    assert [b, ""][..1] == [b] && [] + [b] == [b] && [b] + [""] == [b, ""];
    StackStep("..", [b] + ([""] + ([".."] + [])), ["d"]);
    StackStep("..", [b] + ([".."] + []), ["d"]);
    StackStep(b, [""] + ([".."] + []), []);
    StackStep(b, [".."] + [], []);
    StackStep("", [".."] + [], [b]);
    StackStep("..", [], [b, ""]);
    StackStep("..", [], [b]);
  }

  /** As with b in front of "d/../b//../": the program keeps the b in front, and RFC 3986 the other one. */
  lemma CoincidenceExample(b: string)
    requires IsSegment(b) && !IsDot(b) && Plain(b)
    ensures Coincides(b, "d" + Absolute(["..", b, "", ".."], true))
  {
    var segs := ["..", b, "", ".."];
    var tail := Absolute(segs, true);
    CoincidenceStacks(b);
    SlashedStarts(segs, true);
    PiecesOfAbsolute(segs);
    PiecesSplit(tail);
    OpenedRelative("d", tail);
    RelativeFirst("d", tail);
    StackBehind("d", SplitPath(tail));
    PlainEncodesToItself(b);
    assert [b][1..] == [] && EncodeAll([b]) == [b] && [b] + [] == [b];
  }

  /** Without empty segments: exactly when the path climbs out of its first segment, nothing is to be
      escaped, and b is a dot segment or at some point all segments up to b are gone. */
  lemma SetBehindNoEmpty(b: string, path: string)
    requires IsSegment(b) && path != "" && path[0] != '/' && NoEmptySegments(path)
    ensures RemoveDots(SetPath(b + "/" + path, true)) == RemoveDotsRfc(path)
       <==> && ClimbsOut(path) && Plain(RemoveDotsRfc(path))
            && (IsDot(b) || exists k | 0 <= k <= |SplitPath(path)| :: Stack(SplitPath(path)[..k], [b]) == [])
  {
    SetBehindIff(b, path);
    ClimbsIff(SplitPath(path), [b]);
    if ClimbsOut(path) {
      AsManyWithoutEmpty(path);
      if Coincides(b, path) {
        CoincidenceKeepsMore(b, path);
      }
    }
  }

  /** Without '%' and '+' in a path, and with as many segments kept, removal of dot segments is that of
      RFC 3986, and doing it again changes nothing. */
  lemma PlainPathsFollowRfc(path: string)
    requires Plain(path) && ('.' in path ==> KeepsAsMany(path))
    ensures RemoveDots(path) == RemoveDotsRfc(path) && Plain(RemoveDots(path))
    ensures RemoveDots(RemoveDots(path)) == RemoveDots(path)
  {
    PlainEncodesToItself(path);
    NormalEncoded(path);
    PlainEncodesToItself(Normal(path));
    NormalIffAsMany(path);
    RemoveDotsIsRfcIff(path);
    RemoveDotsIdempotentIff(path);
    EncodedIsPlainOrEscaped(Normal(path));
  }
}
