/**
 Paths as sequences of segments, and the removal of dot segments.

 The program keeps a stack of segments.  Section 5.2.4 of RFC 3986 rewrites strings.  The two
 do the same to the same segments, but the stack form never sees the empty ones, and it re-encodes
 what it keeps.
 */
module UriPath {
  import opened Strings
  import opened UriCodec
  import opened UriSyntax

  // ---------- segments ----------

  function Flush(cur: string): seq<string> {
    if cur == "" then [] else [cur]
  }

  /** The non-empty pieces between slashes, where cur is the piece begun. */
  function Split(s: string, cur: string): seq<string> {
    if s == "" then Flush(cur)
    else if s[0] == '/' then Flush(cur) + Split(s[1..], "")
    else Split(s[1..], cur + [s[0]])
  }

  function SplitPath(s: string): seq<string> {
    Split(s, "")
  }

  predicate IsSegment(s: string) {
    s != "" && '/' !in s
  }

  predicate Segments(segs: seq<string>) {
    forall s | s in segs :: IsSegment(s)
  }

  /** Segments of which some may be empty. */
  predicate Slashless(segs: seq<string>) {
    forall s | s in segs :: '/' !in s
  }

  /** Each segment behind a slash. */
  function Slashed(segs: seq<string>): string {
    if segs == [] then "" else "/" + segs[0] + Slashed(segs[1..])
  }

  function Absolute(segs: seq<string>, slashAtEnd: bool): string {
    Slashed(segs) + if slashAtEnd then "/" else ""
  }

  lemma {:induction false} SplitConcat(a: string, b: string, cur: string)
    ensures Split(a + "/" + b, cur) == Split(a, cur) + Split(b, "")
  {
    Assoc(a, "/", b);
    var s := a + ("/" + b);
    if a == "" {
      assert s == "/" + b && s[1..] == b;
    } else {
      assert s[1..] == a[1..] + ("/" + b);
      Assoc(a[1..], "/", b);
      if a[0] == '/' {
        SplitConcat(a[1..], b, "");
        Assoc(Flush(cur), Split(a[1..], ""), Split(b, ""));
      } else {
        SplitConcat(a[1..], b, cur + [a[0]]);
      }
    }
  }

  lemma {:induction false} SplitRun(a: string, b: string, cur: string)
    requires '/' !in a
    ensures Split(a + b, cur) == Split(b, cur + a)
  {
    if a == "" {
      Nil(b);
      Nil(cur);
    } else {
      assert (a + b)[1..] == a[1..] + b;
      SplitRun(a[1..], b, cur + [a[0]]);
      Assoc(cur, [a[0]], a[1..]);
      assert [a[0]] + a[1..] == a;
    }
  }

  /** Splitting undoes joining, slash at the end or not. */
  lemma {:induction false} SplitAbsolute(segs: seq<string>, slashAtEnd: bool)
    requires Segments(segs)
    ensures SplitPath(Absolute(segs, slashAtEnd)) == segs
  {
    var end := if slashAtEnd then "/" else "";
    if segs == [] {
      Nil(end);
    } else {
      var rest := Absolute(segs[1..], slashAtEnd);
      assert Segments(segs[1..]) && IsSegment(segs[0]);
      SplitAbsolute(segs[1..], slashAtEnd);
      Assoc("/" + segs[0], Slashed(segs[1..]), end);
      Assoc("/", segs[0], rest);
      assert ("/" + (segs[0] + rest))[1..] == segs[0] + rest;
      SplitSegmentBefore(segs[0], rest);
    }
  }

  lemma SplitSegmentBefore(s: string, rest: string)
    requires IsSegment(s) && (rest == "" || rest[0] == '/')
    ensures SplitPath(s + rest) == [s] + SplitPath(rest)
  {
    SplitRun(s, rest, "");
    Nil(s);
  }

  lemma {:induction false} SplitYieldsSegments(s: string, cur: string)
    requires '/' !in cur
    ensures Segments(Split(s, cur))
  {
    if s != "" {
      if s[0] == '/' {
        SplitYieldsSegments(s[1..], "");
      } else {
        SplitYieldsSegments(s[1..], cur + [s[0]]);
      }
    }
  }

  // ---------- encoding and segments ----------

  function EncodeAll(segs: seq<string>): (r: seq<string>)
    ensures |r| == |segs|
  {
    if segs == [] then [] else [Encode(Path, segs[0])] + EncodeAll(segs[1..])
  }

  lemma {:induction false} EncodeAllConcat(a: seq<string>, b: seq<string>)
    ensures EncodeAll(a + b) == EncodeAll(a) + EncodeAll(b)
  {
    if a == [] {
      Nil(b);
      Nil(EncodeAll(b));
    } else {
      assert (a + b)[1..] == a[1..] + b;
      EncodeAllConcat(a[1..], b);
      Assoc([Encode(Path, a[0])], EncodeAll(a[1..]), EncodeAll(b));
    }
  }

  lemma EncodeSnoc(cur: string, c: char)
    ensures Encode(Path, cur + [c]) == Encode(Path, cur) + EncodeChar(Path, c)
  {
    EncodeConcat(Path, cur, [c]);
    EncodeSingle(Path, c);
  }

  lemma EncodeFlush(cur: string)
    ensures EncodeAll(Flush(cur)) == Flush(Encode(Path, cur))
  {
    if cur != "" {
      Nil([Encode(Path, cur)]);
      assert [cur][1..] == [];
    }
  }

  /** Encoding touches no slash, so it acts segment by segment. */
  lemma {:induction false} SplitEncode(s: string, cur: string)
    ensures Split(Encode(Path, s), Encode(Path, cur)) == EncodeAll(Split(s, cur))
  {
    EncodeFlush(cur);
    if s != "" {
      var rest := Encode(Path, s[1..]);
      if s[0] == '/' {
        assert ("/" + rest)[1..] == rest;
        SplitEncode(s[1..], "");
        EncodeAllConcat(Flush(cur), Split(s[1..], ""));
      } else {
        SplitRun(EncodeChar(Path, s[0]), rest, Encode(Path, cur));
        EncodeSnoc(cur, s[0]);
        SplitEncode(s[1..], cur + [s[0]]);
      }
    }
  }

  // ---------- dot segments: the stack ----------

  predicate IsDot(s: string) {
    s == "." || s == ".."
  }

  function DropTop(result: seq<string>): seq<string> {
    if result == [] then [] else result[..|result| - 1]
  }

  function Push(s: string, result: seq<string>): seq<string> {
    if s == "." then result else if s != ".." then result + [s] else DropTop(result)
  }

  /** What the stack holds after the segments. */
  function Stack(segs: seq<string>, result: seq<string>): seq<string> {
    if segs == [] then result else Stack(segs[1..], Push(segs[0], result))
  }

  predicate EndsInDot(segs: seq<string>) {
    segs != [] && IsDot(segs[|segs| - 1])
  }

  predicate EndsWith(s: string, c: char) {
    s != "" && s[|s| - 1] == c
  }

  function Join(segs: seq<string>): string
    requires segs != []
  {
    segs[0] + Slashed(segs[1..])
  }

  function SetPath(path: string, shouldEncode: bool): string {
    (if StartsWith(path, '/') then "" else "/") + if shouldEncode then Encode(Path, path) else path
  }

  /** The program's removal of dot segments. */
  function RemoveDots(path: string): string {
    if '.' !in path then path
    else
      var segs := SplitPath(path);
      var result := Stack(segs, []);
      if result == [] then SetPath("", true)
      else SetPath(Join(result) + (if EndsInDot(segs) || EndsWith(path, '/') then "/" else ""), true)
  }

  // ---------- dot segments: the rewriting of RFC 3986 ----------

  /** Without the last segment and the slash before it. */
  function DropLast(output: string): string {
    if output == "" then ""
    else if output[|output| - 1] == '/' then output[..|output| - 1]
    else DropLast(output[..|output| - 1])
  }

  /** The length of the first segment with the slash before it. */
  function FirstSegment(input: string): (n: nat)
    requires input != ""
    ensures 0 < n <= |input|
  {
    if input[0] == '/' then 1 + |Before(input[1..], {'/'})|
    else
      assert Before(input, {'/'}) == [input[0]] + Before(input[1..], {'/'});
      |Before(input, {'/'})|
  }

  /** Steps A to E of section 5.2.4. */
  function Rewrite(input: string, output: string): string
    decreases |input|
  {
    if input == "" then output
    else if "../" <= input then Rewrite(input[3..], output)
    else if "./" <= input then Rewrite(input[2..], output)
    else if "/./" <= input then Rewrite(input[2..], output)
    else if input == "/." then Rewrite("/", output)
    else if "/../" <= input then Rewrite(input[3..], DropLast(output))
    else if input == "/.." then Rewrite("/", DropLast(output))
    else if input == "." || input == ".." then Rewrite("", output)
    else Rewrite(input[FirstSegment(input)..], output + input[..FirstSegment(input)])
  }

  function RemoveDotsRfc(path: string): string {
    Rewrite(path, "")
  }

  // ---------- the two agree ----------

  lemma RewriteSlash(output: string)
    ensures Rewrite("/", output) == output + "/"
  {
    assert Before("/"[1..], {'/'}) == "";
    assert FirstSegment("/") == 1;
    assert "/"[..1] == "/" && "/"[1..] == "";
  }

  lemma RewriteDot(tail: string, output: string)
    requires tail == "" || tail[0] == '/'
    ensures Rewrite("/." + tail, output) == if tail == "" then output + "/" else Rewrite(tail, output)
  {
    var input := "/." + tail;
    assert input[0] == '/' && input[1] == '.';
    if tail == "" {
      RewriteSlash(output);
      assert input == "/.";
    } else {
      assert input[2] == '/' && input[2..] == tail;
      assert !("../" <= input) && !("./" <= input) && "/./" <= input;
    }
  }

  lemma RewriteDotDot(tail: string, output: string)
    requires tail == "" || tail[0] == '/'
    ensures Rewrite("/.." + tail, output)
         == if tail == "" then DropLast(output) + "/" else Rewrite(tail, DropLast(output))
  {
    var input := "/.." + tail;
    assert input[0] == '/' && input[1] == '.' && input[2] == '.';
    assert !("../" <= input) && !("./" <= input) && !("/./" <= input) && input != "/.";
    if tail == "" {
      RewriteSlash(DropLast(output));
      assert input == "/..";
    } else {
      assert input[3] == '/' && input[3..] == tail;
      assert "/../" <= input;
    }
  }

  lemma NotDotInput(s: string, tail: string)
    requires '/' !in s && !IsDot(s) && (tail == "" || tail[0] == '/')
    ensures var input := "/" + s + tail;
            && !("../" <= input) && !("./" <= input) && !("/./" <= input) && input != "/."
            && !("/../" <= input) && input != "/.." && input != "." && input != ".."
  {
    var input := "/" + s + tail;
    assert input[0] == '/' && |input| == 1 + |s| + |tail|;
    if s == "" {
      assert |input| > 1 ==> input[1] == '/';
      return;
    }
    assert input[1] == s[0];
    if |s| == 1 {
      assert s[0] != '.';
    } else {
      assert input[2] == s[1] && s[1] != '/';
      if |s| == 2 {
        assert s[0] != '.' || s[1] != '.';
      } else {
        assert input[3] == s[2] && s[2] != '/';
      }
    }
  }

  lemma RewriteSegment(s: string, tail: string, output: string)
    requires '/' !in s && !IsDot(s) && (tail == "" || tail[0] == '/')
    ensures Rewrite("/" + s + tail, output) == Rewrite(tail, output + ("/" + s))
  {
    var input := "/" + s + tail;
    NotDotInput(s, tail);
    assert input[1..] == s + tail;
    BeforeSlash(s, tail);
    assert input[..1 + |s|] == "/" + s && input[1 + |s|..] == tail;
  }

  lemma {:induction false} BeforeSlash(s: string, tail: string)
    requires '/' !in s && (tail == "" || tail[0] == '/')
    ensures Before(s + tail, {'/'}) == s
  {
    if s == "" {
      Nil(tail);
    } else {
      assert s[0] != '/' && (s + tail)[1..] == s[1..] + tail;
      BeforeSlash(s[1..], tail);
    }
  }

  lemma {:induction false} SlashedSnoc(segs: seq<string>, s: string)
    ensures Slashed(segs + [s]) == Slashed(segs) + ("/" + s)
  {
    if segs == [] {
      assert [s][1..] == [];
      Nil("/" + s);
    } else {
      assert (segs + [s])[1..] == segs[1..] + [s];
      SlashedSnoc(segs[1..], s);
      Assoc("/" + segs[0], Slashed(segs[1..]), "/" + s);
    }
  }

  lemma {:induction false} DropLastSegment(a: string, s: string)
    requires '/' !in s
    ensures DropLast(a + ("/" + s)) == a
    decreases |s|
  {
    var t := a + ("/" + s);
    if s == "" {
      assert t[..|t| - 1] == a && t[|t| - 1] == '/';
    } else {
      var init := s[..|s| - 1];
      assert t[..|t| - 1] == a + ("/" + init) && t[|t| - 1] == s[|s| - 1];
      DropLastSegment(a, init);
    }
  }

  lemma DropTopIsDropLast(result: seq<string>)
    requires Slashless(result)
    ensures DropLast(Slashed(result)) == Slashed(DropTop(result)) && Slashless(DropTop(result))
  {
    if result != [] {
      var init, s := DropTop(result), result[|result| - 1];
      assert result == init + [s] && '/' !in s;
      SlashedSnoc(init, s);
      DropLastSegment(Slashed(init), s);
    }
  }

  /** Is there a slash at the end once dot segments are removed? */
  predicate SlashAtEnd(segs: seq<string>, slashAtEnd: bool) {
    slashAtEnd || EndsInDot(segs)
  }

  lemma SlashedStarts(segs: seq<string>, slashAtEnd: bool)
    ensures var t := Absolute(segs, slashAtEnd); t == "" || t[0] == '/'
    ensures Absolute(segs, slashAtEnd) == "" <==> segs == [] && !slashAtEnd
  {
    if segs != [] {
      Assoc("/", segs[0], Slashed(segs[1..]));
      assert Absolute(segs, slashAtEnd)[0] == '/';
    }
  }

  lemma AbsoluteCons(segs: seq<string>, slashAtEnd: bool)
    requires segs != []
    ensures Absolute(segs, slashAtEnd) == "/" + segs[0] + Absolute(segs[1..], slashAtEnd)
  {
    Assoc("/" + segs[0], Slashed(segs[1..]), if slashAtEnd then "/" else "");
  }

  lemma LastOfRest(segs: seq<string>)
    requires |segs| >= 2
    ensures segs[1..][|segs[1..]| - 1] == segs[|segs| - 1]
  {
  }

  lemma RewriteStep(s: string, tail: string, result: seq<string>)
    requires '/' !in s && Slashless(result) && (tail == "" || tail[0] == '/')
    ensures Slashless(Push(s, result))
    ensures Rewrite("/" + s + tail, Slashed(result))
         == if IsDot(s) && tail == "" then Slashed(Push(s, result)) + "/" else Rewrite(tail, Slashed(Push(s, result)))
  {
    var output := Slashed(result);
    if s == "." {
      RewriteDot(tail, output);
      assert "/" + s == "/.";
    } else if s == ".." {
      RewriteDotDot(tail, output);
      assert "/" + s == "/..";
      DropTopIsDropLast(result);
    } else {
      RewriteSegment(s, tail, output);
      SlashedSnoc(result, s);
    }
  }

  lemma SlashAtEndOfRest(segs: seq<string>, slashAtEnd: bool)
    requires segs != [] && (IsDot(segs[0]) ==> segs[1..] != [] || slashAtEnd)
    ensures SlashAtEnd(segs, slashAtEnd) == SlashAtEnd(segs[1..], slashAtEnd)
  {
    if |segs| >= 2 {
      LastOfRest(segs);
    }
  }

  /** The string rewriting does to the text what the stack does to the segments. */
  lemma {:induction false} RewriteIsStack(segs: seq<string>, slashAtEnd: bool, result: seq<string>)
    requires Slashless(segs) && Slashless(result)
    ensures Rewrite(Absolute(segs, slashAtEnd), Slashed(result))
         == Absolute(Stack(segs, result), SlashAtEnd(segs, slashAtEnd))
  {
    if segs == [] {
      Nil(Slashed(result));
      if slashAtEnd {
        RewriteSlash(Slashed(result));
      }
    } else {
      var s, tail := segs[0], Absolute(segs[1..], slashAtEnd);
      assert '/' !in s && Slashless(segs[1..]);
      AbsoluteCons(segs, slashAtEnd);
      SlashedStarts(segs[1..], slashAtEnd);
      RewriteStep(s, tail, result);
      if IsDot(s) && tail == "" {
        assert segs[1..] == [];
      } else {
        SlashAtEndOfRest(segs, slashAtEnd);
        RewriteIsStack(segs[1..], slashAtEnd, Push(s, result));
      }
    }
  }

  /** The path with its empty segments left out: what the stack form looks at. */
  function Tidy(path: string): string {
    Absolute(SplitPath(path), SplitPath(path) == [] || EndsWith(path, '/'))
  }

  /** An absolute path without empty segments, except for a slash at the end. */
  predicate IsTidy(path: string) {
    Tidy(path) == path
  }

  lemma SlashedIsJoin(segs: seq<string>)
    requires segs != []
    ensures Slashed(segs) == "/" + Join(segs)
  {
    Assoc("/", segs[0], Slashed(segs[1..]));
  }

  lemma {:induction false} StackYieldsSegments(segs: seq<string>, result: seq<string>)
    requires Segments(segs) && Segments(result)
    ensures Segments(Stack(segs, result))
    ensures (forall s | s in result :: !IsDot(s)) ==> forall s | s in Stack(segs, result) :: !IsDot(s)
  {
    if segs != [] {
      assert IsSegment(segs[0]) && Segments(segs[1..]);
      StackYieldsSegments(segs[1..], Push(segs[0], result));
    }
  }

  /** The normalized form of any path. */
  function Normal(path: string): string {
    Absolute(Stack(SplitPath(path), []),
      SlashAtEnd(SplitPath(path), SplitPath(path) == [] || EndsWith(path, '/')))
  }

  lemma NormalIsRfc(path: string)
    ensures Normal(path) == RemoveDotsRfc(Tidy(path))
  {
    SplitYieldsSegments(path, "");
    RewriteIsStack(SplitPath(path), SplitPath(path) == [] || EndsWith(path, '/'), []);
  }

  lemma {:induction false} EmptyStack(segs: seq<string>, result: seq<string>)
    requires segs != [] && Stack(segs, result) == []
    ensures EndsInDot(segs)
  {
    if |segs| == 1 {
      assert Stack(segs, result) == Push(segs[0], result);
    } else {
      EmptyStack(segs[1..], Push(segs[0], result));
      LastOfRest(segs);
    }
  }

  /** What the program leaves of a path with a dot: the normalized form, encoded. */
  lemma RemoveDotsIsNormal(path: string)
    requires '.' in path
    ensures RemoveDots(path) == Encode(Path, Normal(path))
  {
    var segs := SplitPath(path);
    var result := Stack(segs, []);
    SplitYieldsSegments(path, "");
    StackYieldsSegments(segs, []);
    if result != [] {
      SetJoined(result, EndsInDot(segs) || EndsWith(path, '/'));
    } else {
      if segs != [] {
        EmptyStack(segs, []);
      }
      Nil("/");
      EncodeSingle(Path, '/');
    }
  }

  lemma SetJoined(result: seq<string>, slash: bool)
    requires result != [] && IsSegment(result[0])
    ensures SetPath(Join(result) + (if slash then "/" else ""), true) == Encode(Path, Absolute(result, slash))
  {
    var joined := Join(result) + if slash then "/" else "";
    assert joined[0] == result[0][0];
    SlashedIsJoin(result);
    Assoc("/", Join(result), if slash then "/" else "");
    assert ("/" + joined)[1..] == joined;
  }
}
