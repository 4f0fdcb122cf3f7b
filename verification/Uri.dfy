/**
 The URI object: fields that setters, appenders and printing change in place.  Each method is tied
 to the function on components that the theorems are about.
 */
module UriObject {
  import opened Strings
  import opened UriCodec
  import opened UriSyntax
  import opened UriParser
  import opened UriPath
  import opened UriAppend
  import opened UriResolve

  /** The first c at or after a position, or -1. */
  method FindFirst(s: string, c: char, start: nat) returns (i: int)
    requires start <= |s|
    ensures -1 <= i < |s|
    ensures i == -1 ==> From(s[start..], {c}) == "" && Before(s[start..], {c}) == s[start..]
    ensures i != -1 ==> start <= i && s[start..i] == Before(s[start..], {c}) && s[i..] == From(s[start..], {c})
  {
    i := start;
    ScanStart(s, start, {c});
    while i < |s| && s[i] !in {c}
      invariant start <= i && Scanned(s, start, i, {c})
    {
      ScanStep(s, start, i, {c});
      i := i + 1;
    }
    ScanEnd(s, start, i, {c});
    if i == |s| {
      i := -1;
    }
  }

  class Uri {
    var scheme: string
    var userInfo: string
    var host: string
    var port: int
    var path: string
    var query: string
    var fragment: string

    function Value(): Components
      reads this
    {
      Components(scheme, userInfo, host, port, path, query, fragment)
    }

    constructor (value: Components)
      ensures Value() == value
    {
      scheme, userInfo, host, port := value.scheme, value.userInfo, value.host, value.port;
      path, query, fragment := value.path, value.query, value.fragment;
    }

    static method FromText(text: string) returns (r: Result<Uri>)
      ensures r.Success? ==> fresh(r.value)
      ensures ParseText(text) == if r.Success? then Success(r.value.Value()) else Failure(r.error)
    {
      var parsed := ParseFrom(Before(text, {'\0'}));
      if parsed.Failure? {
        return Failure(parsed.error);
      }
      var uri := new Uri(parsed.value);
      r := Success(uri);
    }

    // ---------- setters ----------

    method SetScheme(text: string)
      modifies this
      ensures Value() == old(Value()).(scheme := text)
    {
      scheme := text;
    }

    method SetHost(text: string, shouldEncode: bool)
      modifies this
      ensures Value() == old(Value()).(host := if shouldEncode then Encode(Host, text) else text)
    {
      if shouldEncode {
        host := EncodeImpl(Host, text);
      } else {
        host := text;
      }
    }

    method SetUserInfo(text: string, shouldEncode: bool)
      modifies this
      ensures Value() == old(Value()).(userInfo := if shouldEncode then Encode(UserInfo, text) else text)
    {
      if shouldEncode {
        userInfo := EncodeImpl(UserInfo, text);
      } else {
        userInfo := text;
      }
    }

    method SetPath(text: string, shouldEncode: bool)
      modifies this
      ensures Value() == old(Value()).(path := UriPath.SetPath(text, shouldEncode))
    {
      var prepend := "";
      if text == "" || text[0] != '/' {
        prepend := "/";
      }
      if shouldEncode {
        var encoded := EncodeImpl(Path, text);
        path := prepend + encoded;
      } else {
        path := prepend + text;
      }
    }

    method SetQuery(text: string, shouldEncode: bool)
      modifies this
      ensures Value() == old(Value()).(query := if shouldEncode then Encode(Query, text) else text)
    {
      if shouldEncode {
        query := EncodeImpl(Query, text);
      } else {
        query := text;
      }
    }

    method SetFragment(text: string, shouldEncode: bool)
      modifies this
      ensures Value() == old(Value()).(fragment := if shouldEncode then Encode(Query, text) else text)
    {
      if shouldEncode {
        fragment := EncodeImpl(Query, text);
      } else {
        fragment := text;
      }
    }

    method AppendPath(more: string, shouldEncode: bool)
      modifies this
      ensures Value() == old(Value()).(path := UriAppend.AppendPath(old(path), more, shouldEncode))
    {
      if more != "" && more != "/" {
        var text := more;
        if shouldEncode {
          text := EncodeImpl(Path, more);
        }
        if path == "" || path == "/" {
          path := "";
          if more[0] != '/' {
            path := "/";
          }
        } else if path[|path| - 1] == '/' && more[0] == '/' {
          path := path[..|path| - 1];
        } else if path[|path| - 1] != '/' && more[0] != '/' {
          path := path + "/";
        }
        path := path + text;
      }
    }

    method AppendQuery(more: string, shouldEncode: bool)
      modifies this
      ensures Value() == old(Value()).(query := UriAppend.AppendQuery(old(query), more, shouldEncode))
    {
      if more != "" {
        var text := more;
        if shouldEncode {
          text := EncodeImpl(Query, more);
        }
        if query == "" {
        } else if query[|query| - 1] == '&' && more[0] == '&' {
          query := query[..|query| - 1];
        } else if query[|query| - 1] != '&' && more[0] != '&' {
          query := query + "&";
        }
        query := query + text;
      }
    }

    method AppendPair(name: string, value: string, shouldEncode: bool)
      modifies this
      ensures Value() == old(Value()).(query :=
        UriAppend.AppendQuery(old(query), PairText(name, value, shouldEncode), false))
    {
      if shouldEncode {
        var encodedName := EncodeImpl(Pair, name);
        var encodedValue := EncodeImpl(Pair, value);
        AppendQuery(encodedName + "=" + encodedValue, false);
      } else {
        AppendQuery(name + "=" + value, false);
      }
    }

    // ---------- printing ----------

    /** Printing leaves the object in canonical form. */
    method ToString() returns (s: string)
      modifies this
      ensures s == Print(old(Value())) && Value() == Canonical(old(Value()))
    {
      Canonicalize();
      PrintPieces(Value());
      s := if scheme != "" then scheme + ":" else "";
      if host != "" {
        var authority := AuthorityText();
        s := s + ("//" + authority);
      } else {
        Nil(s);
      }
      s := s + path;
      s := s + (if query != "" then "?" + query else "");
      s := s + (if fragment != "" then "#" + fragment else "");
    }

    method Canonicalize()
      modifies this
      ensures Value() == Canonical(old(Value()))
    {
      scheme, host := Lower(scheme), Lower(host);
      if host != "" && path == "" {
        path := "/";
      } else if host != "" && path[0] != '/' {
        path := "/" + path;
      }
      Nil("/");
    }

    method AuthorityText() returns (authority: string)
      ensures authority == PrintAuthority(Value())
    {
      authority := "";
      if userInfo != "" {
        authority := userInfo + "@";
      }
      authority := authority + host;
      if port > 0 {
        authority := authority + (":" + Decimal(port));
      } else {
        Nil(authority);
      }
    }

    // ---------- taking apart ----------

    method SplitPath() returns (results: seq<string>)
      ensures results == UriPath.SplitPath(path)
    {
      results := [];
      var s, i := "", 0;
      assert path[0..] == path;
      Nil(Split(path, ""));
      while i < |path|
        invariant i <= |path| && results + Split(path[i..], s) == UriPath.SplitPath(path)
      {
        DropDrop(path, i, 1);
        if path[i] == '/' {
          Assoc(results, Flush(s), Split(path[i + 1..], ""));
          if s != "" {
            results := results + [s];
          } else {
            Nil(results);
          }
          s := "";
        } else {
          s := s + [path[i]];
        }
        i := i + 1;
      }
      if s != "" {
        results := results + [s];
      } else {
        Nil(results);
      }
    }

    method SplitQuery() returns (results: map<string, string>)
      ensures results == UriAppend.SplitQuery(query)
    {
      results := CollectPieces(query);
    }

    // ---------- resolving references ----------

    method RemoveDotSegments()
      modifies this
      ensures Value() == old(Value()).(path := RemoveDots(old(path)))
    {
      if '.' !in path {
        return;
      }
      var segments := SplitPath();
      var result := StackOf(segments);
      if result == [] {
        SetPath("", true);
        return;
      }
      var joined := SlashBehind(result, EndsInDot(segments) || path[|path| - 1] == '/');
      SetPath(joined, true);
    }

    method AuthorityPart() returns (uri: Uri)
      ensures fresh(uri) && uri.Value() == AuthorityOf(Value())
    {
      uri := new Uri(Components(scheme, userInfo, host, port, "/", "", ""));
    }

    /** The base is left alone; the result is a new object. */
    method ResolveUri(ref: string) returns (r: Result<Uri>)
      ensures r.Success? ==> fresh(r.value)
      ensures Resolve(Value(), ref) == if r.Success? then Success(r.value.Value()) else Failure(r.error)
    {
      if ref == "" {
        var copy := new Uri(Value());
        return Success(copy);
      }
      if ref[0] == '/' && |ref| >= 2 && ref[1] == '/' {
        r := FromText(scheme + ":" + ref);
        return;
      }
      r := FromText(ref);
      if r.Failure? {
        return;
      }
      var url := r.value;
      if ref[0] == '/' {
        var root := ResolveRootPath(url);
        return Success(root);
      }
      if url.scheme != "" {
        return;
      }
      if url.host != "" {
        url.SetScheme(scheme);
        return;
      }
      var target := ResolveRelative(url);
      r := Success(target);
    }

    method ResolveRootPath(relative: Uri) returns (part: Uri)
      ensures fresh(part) && part.Value() == ResolveRoot(Value(), relative.Value())
    {
      part := AuthorityPart();
      part.AppendPath(relative.path, true);
      part.AppendQuery(relative.query, true);
      part.SetFragment(fragment + relative.fragment, true);
      part.RemoveDotSegments();
    }

    method ResolveRelative(url: Uri) returns (target: Uri)
      ensures fresh(target) && target.Value() == ResolvePath(Value(), url.Value())
    {
      target := new Uri(Value());
      if url.path == "/" || url.path == "" {
        if url.query != "" {
          target.SetQuery(url.query, true);
        }
      } else if path != "" {
        target.SetPath(MergePaths(path, url.path), true);
        target.RemoveDotSegments();
        target.SetQuery(url.query, true);
      }
      target.SetFragment(url.fragment, true);
    }
  }

  method StackOf(segments: seq<string>) returns (result: seq<string>)
    ensures result == Stack(segments, [])
  {
    result := [];
    var i := 0;
    assert segments[0..] == segments;
    while i < |segments|
      invariant i <= |segments| && Stack(segments[i..], result) == Stack(segments, [])
    {
      DropDrop(segments, i, 1);
      if segments[i] == "." {
      } else if segments[i] != ".." {
        result := result + [segments[i]];
      } else if result != [] {
        result := result[..|result| - 1];
      }
      i := i + 1;
    }
  }

  method JoinOf(segments: seq<string>) returns (joined: string)
    requires segments != []
    ensures joined == Join(segments)
  {
    joined := segments[0];
    var i := 1;
    while i != |segments|
      invariant 1 <= i <= |segments| && joined + Slashed(segments[i..]) == Join(segments)
      decreases |segments| - i
    {
      DropDrop(segments, i, 1);
      Assoc(joined, "/" + segments[i], Slashed(segments[i + 1..]));
      Assoc(joined, "/", segments[i]);
      joined := joined + "/";
      joined := joined + segments[i];
      i := i + 1;
    }
    Nil(joined);
  }

  method SlashBehind(segments: seq<string>, slash: bool) returns (joined: string)
    requires segments != []
    ensures joined == Join(segments) + if slash then "/" else ""
  {
    joined := JoinOf(segments);
    if slash {
      joined := joined + "/";
    } else {
      Nil(joined);
    }
  }

  method CollectPieces(query: string) returns (results: map<string, string>)
    ensures results == UriAppend.SplitQuery(query)
  {
    results := map[];
    var prev, more := 0, true;
    FromZero(query, 0);
    while more
      invariant prev <= |query|
      invariant Same(UriAppend.SplitQuery(query), if more then Pieces(query[prev..], results) else results)
      decreases |query| - prev, more
    {
      results, prev, more := TakePiece(query, prev, results);
    }
  }

  /** The piece at a position goes into the map; more tells whether another one follows. */
  method TakePiece(query: string, prev: nat, m: map<string, string>)
      returns (results: map<string, string>, next: nat, more: bool)
    requires prev <= |query|
    ensures prev <= next <= |query| && (more ==> prev < next)
    ensures Same(Pieces(query[prev..], m), if more then Pieces(query[next..], results) else results)
  {
    var end := FindEnd(query, prev);
    if end == -1 {
      FinalPiece(query[prev..], m);
      results := PutPiece(m, query[prev..]);
      next, more := prev, false;
    } else {
      NextPiece(query, prev, end, m);
      results := PutPiece(m, query[prev..end]);
      next, more := end + 1, true;
    }
  }

  predicate PieceEnd(rest: string, piece: string, end: string) {
    if From(rest, {'&'}) != "" then piece == Before(rest, {'&'}) && end == From(rest, {'&'})
    else From(rest, {';'}) != "" && piece == Before(rest, {';'}) && end == From(rest, {';'})
  }

  /** The end of the piece that starts at a position, or -1 for the last piece. */
  method FindEnd(query: string, prev: nat) returns (end: int)
    requires prev <= |query|
    ensures end == -1 ==> From(query[prev..], {'&'}) == "" && From(query[prev..], {';'}) == ""
    ensures end != -1 ==> prev <= end < |query| && PieceEnd(query[prev..], query[prev..end], query[end..])
  {
    end := FindFirst(query, '&', prev);
    if end == -1 {
      end := FindFirst(query, ';', prev);
    }
  }

  lemma FinalPiece(rest: string, m: map<string, string>)
    requires From(rest, {'&'}) == "" && From(rest, {';'}) == ""
    ensures Same(Pieces(rest, m), Put(m, rest))
  {
  }

  lemma NextPiece(query: string, prev: nat, end: nat, m: map<string, string>)
    requires prev <= end < |query| && PieceEnd(query[prev..], query[prev..end], query[end..])
    ensures Same(Pieces(query[prev..], m), Pieces(query[end + 1..], Put(m, query[prev..end])))
  {
    DropDrop(query, end, 1);
  }

  /** One piece: the text before the first '=' is the name. */
  method PutPiece(m: map<string, string>, piece: string) returns (results: map<string, string>)
    ensures results == Put(m, piece)
  {
    var equals := FindFirst(piece, '=', 0);
    FromZero(piece, if equals == -1 then 0 else equals);
    if equals == -1 {
      return m;
    }
    DropDrop(piece, equals, 1);
    results := m[piece[..equals] := piece[equals + 1..]];
  }

  /** The printed form, piece behind piece. */
  lemma PrintPieces(u: Components)
    ensures PrintCanonical(u)
         == (if u.scheme != "" then u.scheme + ":" else "")
          + (if u.host != "" then "//" + PrintAuthority(u) else "")
          + u.path
          + (if u.query != "" then "?" + u.query else "")
          + (if u.fragment != "" then "#" + u.fragment else "")
  {
    var a := if u.scheme != "" then u.scheme + ":" else "";
    var b := if u.host != "" then "//" + PrintAuthority(u) else "";
    var c := if u.query != "" then "?" + u.query else "";
    Assoc(a, b, PrintPath(u));
    Assoc(a + b, u.path, PrintQuery(u));
    Assoc(a + b + u.path, c, PrintFragment(u));
  }
}
