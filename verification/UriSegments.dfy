/**
 What the removal of dot segments in RFC 3986 does to paths of any shape: when it changes nothing,
 and when empty segments make a difference to it.
 */
module UriSegments {
  import opened Strings
  import opened UriCodec
  import opened UriSyntax
  import opened UriPath

  // ---------- the first segment ----------

  lemma SplitFlush(s: string, tail: string)
    requires '/' !in s && (tail == "" || tail[0] == '/')
    ensures SplitPath(s + tail) == Flush(s) + SplitPath(tail)
  {
    if s == "" {
      Nil(tail);
      Nil(SplitPath(tail));
    } else {
      SplitSegmentBefore(s, tail);
    }
  }

  lemma AbsoluteFirst(s: string, tail: string)
    requires '/' !in s && (tail == "" || tail[0] == '/')
    ensures var input := "/" + s + tail;
            && FirstSegment(input) == 1 + |s| && input[..1 + |s|] == "/" + s && input[1 + |s|..] == tail
            && SplitPath(input) == Flush(s) + SplitPath(tail)
  {
    Cut("/" + s, tail);
    Assoc("/", s, tail);
    Cut("/", s + tail);
    BeforeSlash(s, tail);
    SplitFlush(s, tail);
    Nil(Split(s + tail, ""));
  }

  lemma RelativeFirst(s: string, tail: string)
    requires IsSegment(s) && (tail == "" || tail[0] == '/')
    ensures var input := s + tail;
            && FirstSegment(input) == |s| && input[..|s|] == s && input[|s|..] == tail
            && SplitPath(input) == Flush(s) + SplitPath(tail)
  {
    Cut(s, tail);
    BeforeSlash(s, tail);
    SplitFlush(s, tail);
  }

  /** Any text that is not empty is a first segment, with a slash before it or without, and a tail. */
  lemma FirstAndTail(input: string) returns (s: string, tail: string)
    requires input != ""
    ensures '/' !in s && (tail == "" || tail[0] == '/') && |tail| < |input|
    ensures if input[0] == '/' then input == "/" + s + tail else s != "" && input == s + tail
  {
    var front := if input[0] == '/' then input[1..] else input;
    s, tail := Before(front, {'/'}), From(front, {'/'});
    BeforeHasNone(front, {'/'});
    if input[0] == '/' {
      assert input == "/" + front;
      Assoc("/", s, tail);
    }
  }

  // ---------- paths that are left alone ----------

  predicate NoDots(path: string) {
    forall s | s in SplitPath(path) :: !IsDot(s)
  }

  lemma NotDotRelative(s: string, tail: string)
    requires IsSegment(s) && !IsDot(s) && (tail == "" || tail[0] == '/')
    ensures var input := s + tail;
            && !("../" <= input) && !("./" <= input) && !("/./" <= input) && input != "/."
            && !("/../" <= input) && input != "/.." && input != "." && input != ".."
  {
    var input := s + tail;
    assert input[0] == s[0] != '/' && |input| == |s| + |tail|;
    if |s| == 1 {
      assert s[0] != '.';
    } else {
      assert input[1] == s[1] != '/';
      if |s| == 2 {
        assert s[0] != '.' || s[1] != '.';
      } else {
        assert input[2] == s[2] != '/';
      }
    }
  }

  lemma RewriteRelative(s: string, tail: string, output: string)
    requires IsSegment(s) && !IsDot(s) && (tail == "" || tail[0] == '/')
    ensures Rewrite(s + tail, output) == Rewrite(tail, output + s)
  {
    NotDotRelative(s, tail);
    RelativeFirst(s, tail);
  }

  lemma NoDotsFirst(s: string, tail: string, input: string)
    requires SplitPath(input) == Flush(s) + SplitPath(tail)
    ensures NoDots(input) <==> !IsDot(s) && NoDots(tail)
  {
    assert IsDot(s) ==> s in SplitPath(input);
    forall x | x in SplitPath(tail) ensures x in SplitPath(input) {}
  }

  /** Without dot segments there is nothing to rewrite. */
  lemma {:induction false} RewriteKeeps(input: string, output: string)
    requires NoDots(input)
    ensures Rewrite(input, output) == output + input
    decreases |input|
  {
    if input == "" {
      Nil(output);
    } else {
      var s, tail := FirstAndTail(input);
      if input[0] == '/' {
        AbsoluteFirst(s, tail);
        NoDotsFirst(s, tail, input);
        RewriteSegment(s, tail, output);
        RewriteKeeps(tail, output + ("/" + s));
        Assoc(output, "/" + s, tail);
      } else {
        RelativeFirst(s, tail);
        NoDotsFirst(s, tail, input);
        RewriteRelative(s, tail, output);
        RewriteKeeps(tail, output + s);
        Assoc(output, s, tail);
      }
    }
  }

  lemma {:induction false} DropLastShrinks(output: string)
    ensures |DropLast(output)| <= |output|
  {
    if output != "" && output[|output| - 1] != '/' {
      DropLastShrinks(output[..|output| - 1]);
    }
  }

  lemma {:induction false} RewriteNeverGrows(input: string, output: string)
    ensures |Rewrite(input, output)| <= |output| + |input|
    decreases |input|
  {
    DropLastShrinks(output);
    if input == "" {
    } else if "../" <= input {
      RewriteNeverGrows(input[3..], output);
    } else if "./" <= input || "/./" <= input {
      RewriteNeverGrows(input[2..], output);
    } else if input == "/." || input == "/.." {
      RewriteSlash(output);
      RewriteSlash(DropLast(output));
    } else if "/../" <= input {
      RewriteNeverGrows(input[3..], DropLast(output));
    } else if input != "." && input != ".." {
      RewriteNeverGrows(input[FirstSegment(input)..], output + input[..FirstSegment(input)]);
    }
  }

  /** Does the rewriting take something away in its first step? */
  predicate StartsWithDots(input: string) {
    || "../" <= input || "./" <= input || "/./" <= input || input == "/." || "/../" <= input || input == "/.."
    || input == "." || input == ".."
  }

  lemma RewriteShrinksHere(input: string, output: string)
    requires StartsWithDots(input)
    ensures |Rewrite(input, output)| < |output| + |input|
  {
    DropLastShrinks(output);
    if "../" <= input {
      RewriteNeverGrows(input[3..], output);
    } else if "./" <= input || "/./" <= input {
      RewriteNeverGrows(input[2..], output);
    } else if input == "/." || input == "/.." {
      RewriteSlash(output);
      RewriteSlash(DropLast(output));
    } else if "/../" <= input {
      RewriteNeverGrows(input[3..], DropLast(output));
    }
  }

  lemma {:induction false} RewriteShrinks(input: string, output: string)
    requires !NoDots(input)
    ensures |Rewrite(input, output)| < |output| + |input|
    decreases |input|
  {
    var s, tail := FirstAndTail(input);
    if IsDot(s) {
      DotsInFront(s, tail);
      RewriteShrinksHere(input, output);
    } else if input[0] == '/' {
      AbsoluteFirst(s, tail);
      NoDotsFirst(s, tail, input);
      RewriteSegment(s, tail, output);
      RewriteShrinks(tail, output + ("/" + s));
    } else {
      RelativeFirst(s, tail);
      NoDotsFirst(s, tail, input);
      RewriteRelative(s, tail, output);
      RewriteShrinks(tail, output + s);
    }
  }

  lemma DotsInFront(s: string, tail: string)
    requires IsDot(s) && (tail == "" || tail[0] == '/')
    ensures StartsWithDots("/" + s + tail) && StartsWithDots(s + tail)
  {
    if tail == "" {
      Nil("/" + s);
      Nil(s);
    } else {
      assert tail == "/" + tail[1..];
      Assoc(s, "/", tail[1..]);
      Assoc("/" + s, "/", tail[1..]);
    }
  }

  /** Removal of dot segments leaves a path alone exactly when it has no dot segments. */
  lemma RfcLeavesAloneIff(path: string)
    ensures RemoveDotsRfc(path) == path <==> NoDots(path)
  {
    Nil(path);
    if NoDots(path) {
      RewriteKeeps(path, "");
    } else {
      RewriteShrinks(path, "");
    }
  }

  lemma {:induction false} SplitCharacters(s: string, cur: string, c: char)
    requires c !in s && c !in cur
    ensures forall seg | seg in Split(s, cur) :: c !in seg
  {
    if s != "" {
      if s[0] == '/' {
        SplitCharacters(s[1..], "", c);
      } else {
        SplitCharacters(s[1..], cur + [s[0]], c);
      }
    }
  }

  // ---------- segments of any shape ----------

  /** The segments of an absolute path, empty ones included, but for the one behind a slash at the end. */
  function PiecesOf(path: string): seq<string>
    requires path == "" || path[0] == '/'
    decreases |path|
  {
    if path == "" || path == "/" then []
    else
      assert |From(path[1..], {'/'})| < |path|;
      [Before(path[1..], {'/'})] + PiecesOf(From(path[1..], {'/'}))
  }

  function NonEmpty(segs: seq<string>): seq<string> {
    if segs == [] then [] else Flush(segs[0]) + NonEmpty(segs[1..])
  }

  lemma PiecesOfFirst(s: string, tail: string)
    requires '/' !in s && (tail == "" || tail[0] == '/') && (s != "" || tail != "")
    ensures PiecesOf("/" + s + tail) == [s] + PiecesOf(tail)
  {
    var path := "/" + s + tail;
    Assoc("/", s, tail);
    assert path[1..] == s + tail && |path| > 1;
    BeforeConcat(s, tail, {'/'});
  }

  lemma EndOfFirst(s: string, tail: string)
    requires '/' !in s && (tail == "" || tail[0] == '/') && (s != "" || tail != "")
    ensures EndsWith("/" + s + tail, '/') == EndsWith(tail, '/')
  {
    var path := "/" + s + tail;
    if tail == "" {
      assert path[|path| - 1] == s[|s| - 1];
    } else {
      assert path[|path| - 1] == tail[|tail| - 1];
    }
  }

  lemma {:induction false} PiecesJoin(path: string)
    requires path == "" || path[0] == '/'
    ensures Slashless(PiecesOf(path)) && Same(Absolute(PiecesOf(path), EndsWith(path, '/')), path)
    decreases |path|
  {
    Nil(path);
    if path != "" && path != "/" {
      var s, tail := FirstAndTail(path);
      PiecesOfFirst(s, tail);
      PiecesJoin(tail);
      EndOfFirst(s, tail);
      JoinFirst(s, PiecesOf(tail), EndsWith(tail, '/'));
    }
  }

  lemma JoinFirst(s: string, segs: seq<string>, slash: bool)
    requires '/' !in s && Slashless(segs)
    ensures Slashless([s] + segs) && Same(Absolute([s] + segs, slash), "/" + s + Absolute(segs, slash))
  {
    assert ([s] + segs)[1..] == segs;
    AbsoluteCons([s] + segs, slash);
  }

  lemma {:induction false} PiecesSplit(path: string)
    requires path == "" || path[0] == '/'
    ensures SplitPath(path) == NonEmpty(PiecesOf(path))
    decreases |path|
  {
    if path == "/" {
      assert Split("/", "") == Flush("") + Split("", "");
    } else if path != "" {
      var s, tail := FirstAndTail(path);
      PiecesOfFirst(s, tail);
      PiecesSplit(tail);
      AbsoluteFirst(s, tail);
      assert ([s] + PiecesOf(tail))[1..] == PiecesOf(tail);
    }
  }

  lemma {:induction false} PiecesEnd(path: string)
    requires path != "" && path[0] == '/' && !EndsWith(path, '/')
    ensures PiecesOf(path) != [] && PiecesOf(path)[|PiecesOf(path)| - 1] != ""
    decreases |path|
  {
    var s, tail := FirstAndTail(path);
    if s == "" && tail == "" {
      assert false;
    } else {
      PiecesOfFirst(s, tail);
      EndOfFirst(s, tail);
      if tail != "" {
        PiecesEnd(tail);
      }
    }
  }

  lemma {:induction false} LastNonEmpty(segs: seq<string>)
    requires segs != [] && segs[|segs| - 1] != ""
    ensures NonEmpty(segs) != [] && NonEmpty(segs)[|NonEmpty(segs)| - 1] == segs[|segs| - 1]
  {
    if |segs| > 1 {
      LastOfRest(segs);
      LastNonEmpty(segs[1..]);
    }
  }

  lemma {:induction false} StackIsSlashless(segs: seq<string>, result: seq<string>)
    requires Slashless(segs) && Slashless(result)
    ensures Slashless(Stack(segs, result))
  {
    if segs != [] {
      assert '/' !in segs[0];
      StackIsSlashless(segs[1..], Push(segs[0], result));
    }
  }

  // ---------- leaving out segments ----------

  /** x is y with some left out. */
  predicate Sub(x: seq<string>, y: seq<string>)
    decreases |y|
  {
    || x == []
    || (y != [] && ((x[|x| - 1] == y[|y| - 1] && Sub(DropTop(x), DropTop(y))) || Sub(x, DropTop(y))))
  }

  lemma {:induction false} SubDrop(x: seq<string>, y: seq<string>)
    requires Sub(x, y)
    ensures Sub(DropTop(x), y)
    decreases |y|
  {
    if x != [] && Sub(x, DropTop(y)) {
      SubDrop(x, DropTop(y));
    }
  }

  lemma SubPop(x: seq<string>, y: seq<string>)
    requires Sub(x, y)
    ensures Sub(DropTop(x), DropTop(y))
  {
    if x != [] && Sub(x, DropTop(y)) {
      SubDrop(x, DropTop(y));
    }
  }

  lemma SubPush(x: seq<string>, y: seq<string>, s: string)
    requires Sub(x, y)
    ensures Sub(x, y + [s]) && Sub(x + [s], y + [s])
  {
    assert DropTop(y + [s]) == y && DropTop(x + [s]) == x;
  }

  lemma {:induction false} SubLength(x: seq<string>, y: seq<string>)
    requires Sub(x, y)
    ensures |x| <= |y| && (|x| == |y| ==> x == y)
    decreases |y|
  {
    if x != [] {
      if x[|x| - 1] == y[|y| - 1] && Sub(DropTop(x), DropTop(y)) {
        SubLength(DropTop(x), DropTop(y));
        assert x == DropTop(x) + [x[|x| - 1]] && y == DropTop(y) + [y[|y| - 1]];
      } else {
        SubLength(x, DropTop(y));
      }
    }
  }

  /** A stack that never sees empty segments holds what the other one holds, with some left out: what
      ".." takes from it may be an empty segment there. */
  lemma {:induction false} EmptySegmentsOnlyAdd(segs: seq<string>, x: seq<string>, y: seq<string>)
    requires Sub(x, y)
    ensures Sub(Stack(NonEmpty(segs), x), Stack(segs, y))
  {
    if segs != [] {
      var s, rest := segs[0], segs[1..];
      SubPush(x, y, s);
      SubPop(x, y);
      if s == "" {
        Nil(NonEmpty(rest));
        EmptySegmentsOnlyAdd(rest, x, y + [s]);
      } else {
        assert ([s] + NonEmpty(rest))[1..] == NonEmpty(rest);
        EmptySegmentsOnlyAdd(rest, Push(s, x), Push(s, y));
      }
    }
  }

  // ---------- counting segments ----------

  function Raised(s: string, h: nat): nat {
    if s == "." then h else if s != ".." then h + 1 else if h > 0 then h - 1 else 0
  }

  /** How many segments are kept, from h on: "." adds none, ".." takes one away, any other adds one. */
  function Height(segs: seq<string>, h: nat): nat {
    if segs == [] then h else Height(segs[1..], Raised(segs[0], h))
  }

  /** Is there ever none left on the way? */
  predicate Climbs(segs: seq<string>, h: nat) {
    h == 0 || (segs != [] && Climbs(segs[1..], Raised(segs[0], h)))
  }

  lemma {:induction false} StackHeight(segs: seq<string>, result: seq<string>)
    ensures |Stack(segs, result)| == Height(segs, |result|)
  {
    if segs != [] {
      StackHeight(segs[1..], Push(segs[0], result));
    }
  }

  /** Counting finds out whether the stack is ever empty. */
  lemma {:induction false} ClimbsIff(segs: seq<string>, result: seq<string>)
    ensures Climbs(segs, |result|) <==> exists k | 0 <= k <= |segs| :: Stack(segs[..k], result) == []
  {
    if result == [] {
      assert Stack(segs[..0], result) == [];
    } else if segs == [] {
      assert segs[..0] == [];
    } else {
      var next := Push(segs[0], result);
      ClimbsIff(segs[1..], next);
      if k :| 0 <= k <= |segs[1..]| && Stack(segs[1..][..k], next) == [] {
        assert segs[..k + 1][1..] == segs[1..][..k];
        assert Stack(segs[..k + 1], result) == [];
      }
      if k :| 0 <= k <= |segs| && Stack(segs[..k], result) == [] {
        assert k > 0;
        assert segs[..k][1..] == segs[1..][..k - 1];
      }
    }
  }

  /** One segment more at the bottom of the stack is there at the end, unless it is climbed out of. */
  lemma {:induction false} OneUnder(b: string, segs: seq<string>, high: seq<string>)
    ensures Stack(segs, [b] + high)
         == if Climbs(segs, 1 + |high|) then Stack(segs, high) else [b] + Stack(segs, high)
  {
    if segs != [] {
      var s := segs[0];
      if s == ".." && high == [] {
        assert Push(s, [b] + high) == Push(s, high);
      } else {
        assert Push(s, [b] + high) == [b] + Push(s, high);
        OneUnder(b, segs[1..], Push(s, high));
      }
    }
  }

  // ---------- the rewriting, on paths of any shape ----------

  /** The path behind its leading "./" and "../". */
  function Opened(path: string): (p: string)
    ensures |p| <= |path|
    decreases |path|
  {
    if "../" <= path then Opened(path[3..]) else if "./" <= path then Opened(path[2..]) else path
  }

  /** The first segment when there is no slash in front of it, and what follows. */
  function Begun(p: string): seq<string> {
    if p == "" || p[0] == '/' then [] else [Before(p, {'/'})]
  }

  function Behind(p: string): (tail: string)
    ensures tail == "" || tail[0] == '/'
  {
    if p == "" || p[0] == '/' then p else From(p, {'/'})
  }

  /** Is the path absolute, or does it climb out of its first segment? */
  predicate ClimbsOut(path: string) {
    StartsWith(Opened(path), '/') || Climbs(PiecesOf(Behind(Opened(path))), 1)
  }

  /** The segments RFC 3986 keeps, empty ones included, and how many they are. */
  function RfcSegments(path: string): seq<string> {
    Stack(PiecesOf(Behind(Opened(path))), Begun(Opened(path)))
  }

  function RfcHeight(path: string): nat {
    Height(PiecesOf(Behind(Opened(path))), |Begun(Opened(path))|)
  }

  /** Does the count of segments come out the same without the empty ones? */
  predicate KeepsAsMany(path: string) {
    ClimbsOut(path) && RfcHeight(path) == Height(SplitPath(path), 0)
  }

  /** The segments and the slash at the end that the stack form keeps. */
  function KeptSegments(path: string): seq<string> {
    Stack(SplitPath(path), [])
  }

  predicate KeptSlash(path: string) {
    SlashAtEnd(SplitPath(path), SplitPath(path) == [] || EndsWith(path, '/'))
  }

  /** What the string rewriting leaves of the path has a leading slash exactly when the count says so,
      and then it keeps at least what the stack form keeps. */
  ghost predicate Kept(path: string) {
    && (StartsWith(RemoveDotsRfc(path), '/') <==> ClimbsOut(path))
    && Slashless(RfcSegments(path))
    && (ClimbsOut(path) ==> RemoveDotsRfc(path) == Absolute(RfcSegments(path), KeptSlash(path)))
    && (ClimbsOut(path) ==> Sub(KeptSegments(path), RfcSegments(path)))
  }

  lemma SameEnd(path: string, s: string, tail: string)
    requires tail != "" && tail[0] == '/' && EndsWith(path, '/') == EndsWith(tail, '/')
    requires SplitPath(path) == Flush(s) + SplitPath(tail)
    ensures SlashAtEnd(PiecesOf(tail), EndsWith(tail, '/')) == KeptSlash(path)
  {
    PiecesSplit(tail);
    if !EndsWith(tail, '/') {
      PiecesEnd(tail);
      LastNonEmpty(PiecesOf(tail));
    }
    EndBehind(Flush(s), SplitPath(tail), PiecesOf(tail), EndsWith(tail, '/'));
  }

  lemma EndBehind(front: seq<string>, segs: seq<string>, pieces: seq<string>, slash: bool)
    requires slash || (segs != [] && pieces != [] && segs[|segs| - 1] == pieces[|pieces| - 1])
    ensures var all := front + segs; SlashAtEnd(pieces, slash) == SlashAtEnd(all, all == [] || slash)
  {
    if !slash {
      var all := front + segs;
      assert all[|all| - 1] == segs[|segs| - 1];
    }
  }

  lemma AbsoluteKeeps(path: string)
    requires StartsWith(path, '/')
    ensures Kept(path)
  {
    assert Opened(path) == path && Begun(path) == [];
    PiecesJoin(path);
    PiecesSplit(path);
    StackIsSlashless(PiecesOf(path), []);
    RewriteIsStack(PiecesOf(path), EndsWith(path, '/'), []);
    EmptySegmentsOnlyAdd(PiecesOf(path), [], []);
    Nil(SplitPath(path));
    SameEnd(path, "", path);
    PiecesLeft(path);
    SlashedStarts(RfcSegments(path), KeptSlash(path));
  }

  /** An absolute path leaves something. */
  lemma PiecesLeft(path: string)
    requires StartsWith(path, '/')
    ensures Stack(PiecesOf(path), []) != [] || KeptSlash(path)
  {
    PiecesSplit(path);
    if Stack(PiecesOf(path), []) == [] && !KeptSlash(path) {
      PiecesEnd(path);
      LastNonEmpty(PiecesOf(path));
      EmptyStack(PiecesOf(path), []);
    }
  }

  lemma JoinSnoc(result: seq<string>, s: string)
    requires result != []
    ensures Join(result + [s]) == Join(result) + ("/" + s)
  {
    assert (result + [s])[1..] == result[1..] + [s];
    SlashedSnoc(result[1..], s);
    Assoc(result[0], Slashed(result[1..]), "/" + s);
  }

  lemma {:induction false} DropLastAll(s: string)
    requires '/' !in s
    ensures DropLast(s) == ""
  {
    if s != "" {
      DropLastAll(s[..|s| - 1]);
    }
  }

  lemma DropLastOfJoin(result: seq<string>)
    requires result != [] && Slashless(result)
    ensures DropLast(Join(result)) == if |result| == 1 then "" else Join(DropTop(result))
  {
    var init, s := DropTop(result), result[|result| - 1];
    assert result == init + [s] && '/' !in s;
    if |result| == 1 {
      Nil(s);
      DropLastAll(s);
    } else {
      JoinSnoc(init, s);
      DropLastSegment(Join(init), s);
    }
  }

  lemma JoinStarts(result: seq<string>, end: string)
    requires result != [] && IsSegment(result[0])
    ensures !StartsWith(Join(result) + end, '/')
  {
    assert (Join(result) + end)[0] == result[0][0];
  }

  /** One segment, behind a first segment without a slash in front. */
  lemma RelativeStep(s: string, tail: string, result: seq<string>)
    requires '/' !in s && Slashless(result) && result != [] && (tail == "" || tail[0] == '/')
    ensures var r, next := Rewrite("/" + s + tail, Join(result)), Push(s, result);
            && Slashless(next) && (next != [] ==> next[0] == result[0])
            && r == if IsDot(s) && tail == "" then (if next == [] then "" else Join(next)) + "/"
                    else Rewrite(tail, if next == [] then "" else Join(next))
  {
    if s == "." {
      RewriteDot(tail, Join(result));
      assert "/" + s == "/.";
    } else if s == ".." {
      RewriteDotDot(tail, Join(result));
      assert "/" + s == "/..";
      DropLastOfJoin(result);
    } else {
      RewriteSegment(s, tail, Join(result));
      JoinSnoc(result, s);
    }
  }

  /** Behind a first segment without a slash in front, the rewriting either keeps that segment or goes
      on as it would behind a slash. */
  lemma {:induction false} RelativeRewrite(segs: seq<string>, slash: bool, result: seq<string>)
    requires Slashless(segs) && Slashless(result) && result != [] && IsSegment(result[0])
    ensures var r := Rewrite(Absolute(segs, slash), Join(result));
            && (StartsWith(r, '/') <==> Climbs(segs, |result|))
            && (StartsWith(r, '/') ==> r == Absolute(Stack(segs, result), SlashAtEnd(segs, slash)))
  {
    if segs == [] {
      RewriteSlash(Join(result));
      JoinStarts(result, if slash then "/" else "");
      Nil(Join(result));
    } else {
      var s, rest, tail := segs[0], segs[1..], Absolute(segs[1..], slash);
      var next := Push(s, result);
      assert '/' !in s && Slashless(rest);
      AbsoluteCons(segs, slash);
      SlashedStarts(rest, slash);
      RelativeStep(s, tail, result);
      if IsDot(s) && tail == "" {
        RelativeEnd(segs, slash, result);
      } else {
        SlashAtEndOfRest(segs, slash);
        if next == [] {
          RewriteIsStack(rest, slash, []);
          RelativeClimbed(rest, slash, s, tail);
        } else {
          RelativeRewrite(rest, slash, next);
        }
      }
    }
  }

  lemma RelativeClimbed(rest: seq<string>, slash: bool, s: string, tail: string)
    requires tail == Absolute(rest, slash) && tail != "" && Slashless(rest)
    ensures StartsWith(Absolute(Stack(rest, []), SlashAtEnd(rest, slash)), '/')
  {
    if Stack(rest, []) == [] && rest != [] {
      EmptyStack(rest, []);
    }
    SlashedStarts(rest, slash);
    SlashedStarts(Stack(rest, []), SlashAtEnd(rest, slash));
  }

  lemma RelativeEnd(segs: seq<string>, slash: bool, result: seq<string>)
    requires |segs| == 1 && IsDot(segs[0])
    requires Push(segs[0], result) != [] ==> IsSegment(Push(segs[0], result)[0])
    ensures var next := Push(segs[0], result);
            var r := (if next == [] then "" else Join(next)) + "/";
            && (StartsWith(r, '/') <==> next == [])
            && (StartsWith(r, '/') ==> r == Absolute(Stack(segs, result), SlashAtEnd(segs, slash)))
  {
    var next := Push(segs[0], result);
    assert Stack(segs, result) == next;
    if next == [] {
      Nil("/");
    } else {
      JoinStarts(next, "/");
    }
  }

  lemma StackBehind(s: string, segs: seq<string>)
    requires !IsDot(s)
    ensures Stack([s] + segs, []) == Stack(segs, [s]) && Height([s] + segs, 0) == Height(segs, 1)
  {
    assert ([s] + segs)[1..] == segs;
    Nil([s]);
  }

  lemma OpenedRelative(s: string, tail: string)
    requires IsSegment(s) && !IsDot(s) && (tail == "" || tail[0] == '/')
    ensures var path := s + tail; Opened(path) == path && Begun(path) == [s] && Behind(path) == tail
  {
    NotDotRelative(s, tail);
    BeforeConcat(s, tail, {'/'});
  }

  lemma RelativeKeeps(s: string, tail: string)
    requires IsSegment(s) && !IsDot(s) && (tail == "" || tail[0] == '/')
    ensures Kept(s + tail)
  {
    var path := s + tail;
    OpenedRelative(s, tail);
    RelativeFirst(s, tail);
    RelativeIsStack(s, tail);
    PiecesJoin(tail);
    PiecesSplit(tail);
    StackIsSlashless(PiecesOf(tail), [s]);
    assert Sub([s], [s]);
    EmptySegmentsOnlyAdd(PiecesOf(tail), [s], [s]);
    StackBehind(s, SplitPath(tail));
    if tail != "" {
      assert path[|path| - 1] == tail[|tail| - 1];
      SameEnd(path, s, tail);
    }
  }

  lemma RelativeIsStack(s: string, tail: string)
    requires IsSegment(s) && !IsDot(s) && (tail == "" || tail[0] == '/')
    ensures var r, pieces := RemoveDotsRfc(s + tail), PiecesOf(tail);
            && (StartsWith(r, '/') <==> Climbs(pieces, 1))
            && (StartsWith(r, '/') ==>
                  tail != "" && r == Absolute(Stack(pieces, [s]), SlashAtEnd(pieces, EndsWith(tail, '/'))))
  {
    RewriteRelative(s, tail, "");
    Nil(s);
    PiecesJoin(tail);
    RelativeRewrite(PiecesOf(tail), EndsWith(tail, '/'), [s]);
  }

  lemma SplitBehindSlash(s: string, rest: string)
    requires '/' !in s
    ensures SplitPath(s + "/" + rest) == Flush(s) + SplitPath(rest)
  {
    var tail := "/" + rest;
    Assoc(s, "/", rest);
    SplitFlush(s, tail);
    assert tail[1..] == rest;
    Nil(SplitPath(rest));
  }

  /** A leading "../" or "./" is of no account. */
  lemma StrippedKeeps(s: string, rest: string)
    requires IsDot(s)
    ensures var path := s + "/" + rest;
            && RemoveDotsRfc(path) == RemoveDotsRfc(rest) && Opened(path) == Opened(rest)
            && KeptSegments(path) == KeptSegments(rest) && KeptSlash(path) == KeptSlash(rest)
            && Height(SplitPath(path), 0) == Height(SplitPath(rest), 0)
  {
    var path := s + "/" + rest;
    SplitBehindSlash(s, rest);
    assert ([s] + SplitPath(rest))[1..] == SplitPath(rest);
    assert if s == ".." then "../" <= path && path[3..] == rest else "./" <= path && path[2..] == rest;
    assert s == "." ==> !("../" <= path) by { assert s == "." ==> path[1] == '/'; }
    if rest != "" {
      assert path[|path| - 1] == rest[|rest| - 1];
    }
  }

  lemma DotAlone(path: string, output: string)
    requires IsDot(path)
    ensures Rewrite(path, output) == output && Opened(path) == path
  {
    assert |path| < 3 && path[0] == '.' && (|path| == 2 ==> path[1] == '.');
    assert Rewrite("", output) == output;
  }

  lemma NothingKept(path: string)
    requires path == "" || IsDot(path)
    ensures Kept(path)
  {
    if path != "" {
      DotAlone(path, "");
      BeforeConcat(path, "", {'/'});
      Nil(path);
    }
  }

  /** What the rewriting leaves of any path. */
  lemma {:induction false} RfcKeeps(path: string)
    ensures Kept(path)
    decreases |path|
  {
    if path == "" || IsDot(path) {
      NothingKept(path);
    } else if path[0] == '/' {
      AbsoluteKeeps(path);
    } else {
      var s, tail := FirstAndTail(path);
      if !IsDot(s) {
        RelativeKeeps(s, tail);
      } else {
        Nil(s);
        var rest := tail[1..];
        assert path == s + ("/" + rest);
        Assoc(s, "/", rest);
        StrippedKeeps(s, rest);
        RfcKeeps(rest);
      }
    }
  }

  // ---------- when the two removals keep the same ----------

  function Slashes(s: string): nat {
    if s == "" then 0 else (if s[0] == '/' then 1 else 0) + Slashes(s[1..])
  }

  lemma {:induction false} SlashesConcat(a: string, b: string)
    ensures Slashes(a + b) == Slashes(a) + Slashes(b)
  {
    if a == "" {
      Nil(b);
    } else {
      assert (a + b)[1..] == a[1..] + b;
      SlashesConcat(a[1..], b);
    }
  }

  lemma {:induction false} NoSlashes(s: string)
    requires '/' !in s
    ensures Slashes(s) == 0
  {
    if s != "" {
      NoSlashes(s[1..]);
    }
  }

  lemma {:induction false} SlashesOfSlashed(segs: seq<string>)
    requires Slashless(segs)
    ensures Slashes(Slashed(segs)) == |segs|
  {
    if segs != [] {
      assert '/' !in segs[0];
      SlashesOfSlashed(segs[1..]);
      NoSlashes(segs[0]);
      SlashesConcat("/" + segs[0], Slashed(segs[1..]));
      SlashesConcat("/", segs[0]);
      assert Slashes("/") == 1 + Slashes("/"[1..]);
    }
  }

  lemma SameSlashes(a: seq<string>, b: seq<string>, slash: bool)
    requires Slashless(a) && Slashless(b) && Absolute(a, slash) == Absolute(b, slash)
    ensures |a| == |b|
  {
    SlashesOfSlashed(a);
    SlashesOfSlashed(b);
    SlashesConcat(Slashed(a), if slash then "/" else "");
    SlashesConcat(Slashed(b), if slash then "/" else "");
  }

  /** When the rewriting keeps no more segments than the stack form, both keep the same. */
  lemma SameCount(path: string, zs: seq<string>)
    requires Slashless(zs) && |zs| == |KeptSegments(path)| && (zs != [] || KeptSlash(path))
    requires RemoveDotsRfc(path) == Absolute(zs, KeptSlash(path))
    ensures Normal(path) == RemoveDotsRfc(path)
  {
    SlashedStarts(zs, KeptSlash(path));
    RfcKeeps(path);
    SameSlashes(RfcSegments(path), zs, KeptSlash(path));
    SubLength(KeptSegments(path), RfcSegments(path));
  }

  /** A stack is a stack: it holds as many segments as the count says. */
  lemma KeptHeights(path: string)
    ensures |KeptSegments(path)| == Height(SplitPath(path), 0) && |RfcSegments(path)| == RfcHeight(path)
  {
    StackHeight(SplitPath(path), []);
    StackHeight(PiecesOf(Behind(Opened(path))), Begun(Opened(path)));
  }

  /** On every path: the normal form is what RFC 3986 leaves exactly when counting the segments with the
      empty ones and without them comes to the same. */
  lemma NormalIffAsMany(path: string)
    ensures Normal(path) == RemoveDotsRfc(path) <==> KeepsAsMany(path)
  {
    KeptHeights(path);
    RfcKeeps(path);
    NormalStarts(path);
    if ClimbsOut(path) {
      SubLength(KeptSegments(path), RfcSegments(path));
      if Normal(path) == RemoveDotsRfc(path) {
        KeptAreSlashless(path);
        SameSlashes(KeptSegments(path), RfcSegments(path), KeptSlash(path));
      }
    }
  }

  lemma KeptAreSlashless(path: string)
    ensures Slashless(KeptSegments(path)) && Normal(path) == Absolute(KeptSegments(path), KeptSlash(path))
  {
    SplitYieldsSegments(path, "");
    StackIsSlashless(SplitPath(path), []);
  }

  lemma NormalStarts(path: string)
    ensures StartsWith(Normal(path), '/')
  {
    if KeptSegments(path) == [] && SplitPath(path) != [] {
      EmptyStack(SplitPath(path), []);
    }
    SlashedStarts(KeptSegments(path), KeptSlash(path));
  }

  // ---------- paths without empty segments ----------

  /** No two slashes meet, and none but a leading one is in front. */
  predicate NoEmptySegments(path: string) {
    "" !in PiecesOf(if StartsWith(path, '/') then path else "/" + path)
  }

  lemma {:induction false} NonEmptyKeeps(segs: seq<string>)
    requires "" !in segs
    ensures NonEmpty(segs) == segs
  {
    if segs != [] {
      assert segs[0] in segs;
      NonEmptyKeeps(segs[1..]);
      assert segs == [segs[0]] + segs[1..];
    }
  }

  lemma RelativePieces(s: string, tail: string)
    requires '/' !in s && (tail == "" || tail[0] == '/') && s != ""
    ensures PiecesOf("/" + (s + tail)) == [s] + PiecesOf(tail)
  {
    Assoc("/", s, tail);
    PiecesOfFirst(s, tail);
  }

  /** Then counting comes to the same. */
  lemma {:induction false} AsManyWithoutEmpty(path: string)
    requires NoEmptySegments(path) && ClimbsOut(path)
    ensures KeepsAsMany(path)
    decreases |path|
  {
    if StartsWith(path, '/') {
      assert Opened(path) == path && Begun(path) == [];
      PiecesSplit(path);
      NonEmptyKeeps(PiecesOf(path));
    } else if path == "" || IsDot(path) {
      NothingKept(path);
    } else {
      var s, tail := FirstAndTail(path);
      RelativePieces(s, tail);
      assert forall x | x in PiecesOf(tail) :: x in [s] + PiecesOf(tail);
      if IsDot(s) {
        StrippedAsMany(s, tail, path);
      } else {
        NamedAsMany(s, tail);
      }
    }
  }

  lemma NamedAsMany(s: string, tail: string)
    requires IsSegment(s) && !IsDot(s) && (tail == "" || tail[0] == '/') && "" !in PiecesOf(tail) && ClimbsOut(s + tail)
    ensures KeepsAsMany(s + tail)
  {
    OpenedRelative(s, tail);
    RelativeFirst(s, tail);
    PiecesSplit(tail);
    NonEmptyKeeps(PiecesOf(tail));
    StackBehind(s, SplitPath(tail));
  }

  lemma EmptyInFront(path: string)
    requires StartsWith(path, '/')
    ensures "" in PiecesOf("/" + path)
  {
    PiecesOfFirst("", path);
    Nil("/");
    assert "" in [""] + PiecesOf(path);
  }

  lemma StrippedAsMany(s: string, tail: string, path: string)
    requires IsDot(s) && path == s + tail && tail != "" && tail[0] == '/' && "" !in PiecesOf(tail) && ClimbsOut(path)
    ensures KeepsAsMany(path)
    decreases |path|, 0
  {
    var rest := tail[1..];
    assert tail == "/" + rest;
    Assoc(s, "/", rest);
    StrippedKeeps(s, rest);
    if StartsWith(rest, '/') {
      EmptyInFront(rest);
    }
    AsManyWithoutEmpty(rest);
  }

  lemma {:induction false} PiecesOfAbsolute(segs: seq<string>)
    requires Slashless(segs)
    ensures PiecesOf(Absolute(segs, true)) == segs
  {
    if segs == [] {
      assert Absolute(segs, true) == "/";
    } else {
      assert '/' !in segs[0] && Slashless(segs[1..]);
      AbsoluteCons(segs, true);
      SlashedStarts(segs[1..], true);
      PiecesOfAbsolute(segs[1..]);
      PiecesOfFirst(segs[0], Absolute(segs[1..], true));
      assert segs == [segs[0]] + segs[1..];
    }
  }

  // ---------- a path behind one more segment ----------

  lemma StackInFront(b: string, segs: seq<string>)
    ensures Stack([b] + segs, [])
         == if IsDot(b) || Climbs(segs, 1) then Stack(segs, []) else [b] + Stack(segs, [])
  {
    assert ([b] + segs)[1..] == segs;
    Nil([b]);
    OneUnder(b, segs, []);
  }

  lemma SplitsNonEmpty(path: string)
    requires path != "" && path[0] != '/'
    ensures SplitPath(path) != []
  {
    var s, tail := FirstAndTail(path);
    RelativeFirst(s, tail);
  }

  /** A segment in front is kept, unless it is a dot segment or the path climbs out of it. */
  lemma KeptBehind(b: string, path: string)
    requires IsSegment(b) && path != "" && path[0] != '/'
    ensures var all := b + "/" + path;
            && KeptSlash(all) == KeptSlash(path)
            && KeptSegments(all) == if IsDot(b) || Climbs(SplitPath(path), 1) then KeptSegments(path)
                                    else [b] + KeptSegments(path)
  {
    var all := b + "/" + path;
    SplitBehindSlash(b, path);
    StackInFront(b, SplitPath(path));
    SplitsNonEmpty(path);
    assert all[|all| - 1] == path[|path| - 1];
    EndBehind([b], SplitPath(path), SplitPath(path), EndsWith(path, '/'));
  }

  lemma {:induction false} SlashedInjective(a: seq<string>, b: seq<string>)
    requires Slashless(a) && Slashless(b) && Slashed(a) == Slashed(b)
    ensures a == b
  {
    SlashesOfSlashed(a);
    SlashesOfSlashed(b);
    if a != [] {
      assert '/' !in a[0] && '/' !in b[0];
      SlashedStarts(a[1..], false);
      SlashedStarts(b[1..], false);
      Nil(Slashed(a[1..]));
      Nil(Slashed(b[1..]));
      SlashedHead(a[0], Slashed(a[1..]));
      SlashedHead(b[0], Slashed(b[1..]));
      SlashedInjective(a[1..], b[1..]);
      assert a == [a[0]] + a[1..] && b == [b[0]] + b[1..];
    }
  }

  lemma SlashedHead(s: string, tail: string)
    requires '/' !in s && (tail == "" || tail[0] == '/')
    ensures var t := "/" + s + tail; t[1..] == s + tail && Before(t[1..], {'/'}) == s && From(t[1..], {'/'}) == tail
  {
    Assoc("/", s, tail);
    Cut("/", s + tail);
    BeforeConcat(s, tail, {'/'});
  }

  lemma AbsoluteInjective(a: seq<string>, b: seq<string>, slash: bool)
    requires Slashless(a) && Slashless(b) && Absolute(a, slash) == Absolute(b, slash)
    ensures a == b
  {
    var end := if slash then "/" else "";
    assert |Slashed(a)| == |Slashed(b)|;
    Cut(Slashed(a), end);
    Cut(Slashed(b), end);
    SlashedInjective(a, b);
  }
}
