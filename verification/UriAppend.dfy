/**
 Appending to a path and to a query, and taking both apart again.
 */
module UriAppend {
  import opened Strings
  import opened UriCodec
  import opened UriSyntax
  import opened UriPath

  // ---------- paths ----------

  /** The path made ready for more: exactly one slash where the two meet. */
  function PathReady(path: string, more: string): string
    requires more != ""
  {
    if path == "" || path == "/" then if more[0] != '/' then "/" else ""
    else if EndsWith(path, '/') && more[0] == '/' then path[..|path| - 1]
    else if !EndsWith(path, '/') && more[0] != '/' then path + "/"
    else path
  }

  function AppendPath(path: string, more: string, shouldEncode: bool): string {
    if more == "" || more == "/" then path
    else PathReady(path, more) + if shouldEncode then Encode(Path, more) else more
  }

  lemma SplitSlashBehind(a: string, b: string)
    requires EndsWith(a, '/')
    ensures SplitPath(a + b) == SplitPath(a) + SplitPath(b)
    ensures SplitPath(a[..|a| - 1]) == SplitPath(a)
  {
    var init := a[..|a| - 1];
    assert a == init + "/";
    SplitConcat(init, b, "");
    SplitConcat(init, "", "");
    Nil(init + "/");
    Nil(SplitPath(init));
  }

  lemma SplitSlashBefore(a: string, b: string)
    requires StartsWith(b, '/')
    ensures SplitPath(a + b) == SplitPath(a) + SplitPath(b)
  {
    assert b == "/" + b[1..];
    SplitConcat(a, b[1..], "");
    Assoc(a, "/", b[1..]);
  }

  lemma EncodeStart(more: string)
    requires more != ""
    ensures StartsWith(Encode(Path, more), '/') <==> more[0] == '/'
  {
    assert EncodeChar(Path, more[0])[0] == '/' <==> more[0] == '/';
  }

  /** The segments appended: those of the argument, encoded if asked. */
  function Appended(more: string, shouldEncode: bool): seq<string> {
    if shouldEncode then EncodeAll(SplitPath(more)) else SplitPath(more)
  }

  lemma SplitAppended(path: string, more: string, text: string)
    requires more != "" && (StartsWith(text, '/') <==> more[0] == '/')
    requires path != "" && path != "/"
    ensures SplitPath(PathReady(path, more) + text) == SplitPath(path) + SplitPath(text)
  {
    if more[0] == '/' {
      SplitSlashBefore(path, text);
      if EndsWith(path, '/') {
        SplitSlashBehind(path, "");
        SplitSlashBefore(path[..|path| - 1], text);
      }
    } else if EndsWith(path, '/') {
      SplitSlashBehind(path, text);
    } else {
      SplitConcat(path, text, "");
    }
  }

  /** Appending to a path appends segments, whatever slashes meet. */
  lemma AppendPathIsConcat(path: string, more: string, shouldEncode: bool)
    ensures SplitPath(AppendPath(path, more, shouldEncode)) == SplitPath(path) + Appended(more, shouldEncode)
  {
    SlashIsEmpty();
    if more == "" || more == "/" {
      Nil(SplitPath(path));
    } else {
      var text := if shouldEncode then Encode(Path, more) else more;
      SplitEncode(more, "");
      EncodeStart(more);
      if path == "" || path == "/" {
        Nil(SplitPath(text));
        SplitConcat("", text, "");
        Nil("/");
        Nil(text);
      } else {
        SplitAppended(path, more, text);
      }
    }
  }

  lemma SlashIsEmpty()
    ensures SplitPath("") == [] && SplitPath("/") == []
  {
    assert "/"[1..] == "";
  }

  /** Text without the character that it may end or start with. */
  function WithoutLast(s: string, c: char): (t: string)
    ensures s == t || s == t + [c]
    ensures EndsWith(s, c) ==> s == t + [c]
  {
    if EndsWith(s, c) then s[..|s| - 1] else s
  }

  function WithoutFirst(s: string, c: char): (t: string)
    ensures s == t || s == [c] + t
    ensures StartsWith(s, c) ==> s == [c] + t
  {
    if StartsWith(s, c) then s[1..] else s
  }

  lemma EncodeBehindSlash(more: string)
    ensures Encode(Path, "/" + more) == "/" + Encode(Path, more)
  {
    assert ("/" + more)[1..] == more;
  }

  /** What is appended, behind a slash of its own. */
  function Behind(more: string, shouldEncode: bool): string {
    if shouldEncode then Encode(Path, WithoutFirst(more, '/')) else WithoutFirst(more, '/')
  }

  /** Exactly one slash comes between the two, and that is all that changes. */
  lemma AppendPathJoins(path: string, more: string, shouldEncode: bool)
    requires more != "" && more != "/"
    ensures AppendPath(path, more, shouldEncode) == WithoutLast(path, '/') + "/" + Behind(more, shouldEncode)
  {
    var text, back := WithoutFirst(more, '/'), Behind(more, shouldEncode);
    EncodeBehindSlash(text);
    Nil(back);
    Nil("/");
    Nil("/" + back);
    Assoc(WithoutLast(path, '/'), "/", back);
  }

  /** No two slashes meet. */
  predicate NoEmptyInside(path: string) {
    forall i | 0 <= i < |path| - 1 :: !(path[i] == '/' && path[i + 1] == '/')
  }

  lemma EncodedCharSlashes(c: char)
    requires c as int < 256
    ensures var e := EncodeChar(Path, c);
            && e != "" && NoEmptyInside(e)
            && (StartsWith(e, '/') <==> c == '/') && (EndsWith(e, '/') <==> c == '/')
  {
    HexDigitsInvert(c);
  }

  lemma {:induction false} EncodeKeepsSlashes(s: string)
    requires Octets(s) && NoEmptyInside(s)
    ensures NoEmptyInside(Encode(Path, s)) && (StartsWith(Encode(Path, s), '/') <==> StartsWith(s, '/'))
  {
    if s != "" {
      assert Octets(s[1..]) && s[0] as int < 256;
      NoEmptyConcat([s[0]], s[1..]);
      assert [s[0]] + s[1..] == s;
      EncodedCharSlashes(s[0]);
      EncodeKeepsSlashes(s[1..]);
      NoEmptyConcat(EncodeChar(Path, s[0]), Encode(Path, s[1..]));
    }
  }

  lemma NoEmptyConcat(a: string, b: string)
    ensures NoEmptyInside(a + b)
       <==> NoEmptyInside(a) && NoEmptyInside(b) && !(EndsWith(a, '/') && StartsWith(b, '/'))
  {
    forall i | 0 <= i < |a| ensures (a + b)[i] == a[i] {}
    forall i | 0 <= i < |b| ensures (a + b)[|a| + i] == b[i] {}
  }

  lemma NoEmptyInFront(path: string)
    requires NoEmptyInside(path)
    ensures NoEmptyInside(WithoutLast(path, '/') + "/")
  {
    NoEmptyConcat(path, "/");
  }

  lemma NoEmptyBehind(more: string, shouldEncode: bool)
    requires NoEmptyInside(more) && Octets(more)
    ensures NoEmptyInside(Behind(more, shouldEncode)) && !StartsWith(Behind(more, shouldEncode), '/')
  {
    var text := WithoutFirst(more, '/');
    NoEmptyConcat("/", text);
    assert Octets(text) && NoEmptyInside(text);
    EncodeKeepsSlashes(text);
  }

  /** A path and an argument without empty segments inside give a path without them. */
  lemma AppendPathKeepsNoEmpty(path: string, more: string, shouldEncode: bool)
    requires NoEmptyInside(path) && NoEmptyInside(more) && Octets(more)
    ensures NoEmptyInside(AppendPath(path, more, shouldEncode))
  {
    if more != "" && more != "/" {
      AppendPathJoins(path, more, shouldEncode);
      NoEmptyInFront(path);
      NoEmptyBehind(more, shouldEncode);
      NoEmptyConcat(WithoutLast(path, '/') + "/", Behind(more, shouldEncode));
    }
  }

  // ---------- queries ----------

  function QueryReady(query: string, more: string): string
    requires more != ""
  {
    if query == "" then ""
    else if EndsWith(query, '&') && more[0] == '&' then query[..|query| - 1]
    else if !EndsWith(query, '&') && more[0] != '&' then query + "&"
    else query
  }

  function AppendQuery(query: string, more: string, shouldEncode: bool): string {
    if more == "" then query
    else QueryReady(query, more) + if shouldEncode then Encode(Query, more) else more
  }

  /** Exactly one '&' comes between two that are there, and that is all that changes. */
  lemma AppendQueryJoins(query: string, more: string, shouldEncode: bool)
    requires query != "" && more != ""
    ensures var text := WithoutFirst(if shouldEncode then Encode(Query, more) else more, '&');
            AppendQuery(query, more, shouldEncode) == WithoutLast(query, '&') + "&" + text
  {
    var all := if shouldEncode then Encode(Query, more) else more;
    assert shouldEncode ==> (StartsWith(all, '&') <==> more[0] == '&');
    Assoc(WithoutLast(query, '&'), "&", WithoutFirst(all, '&'));
  }

  lemma AppendQueryToNone(more: string, shouldEncode: bool)
    ensures AppendQuery("", more, shouldEncode) == if shouldEncode then Encode(Query, more) else more
    ensures AppendQuery(more, "", shouldEncode) == more
  {
    Nil(if shouldEncode then Encode(Query, more) else more);
  }

  function PairText(name: string, value: string, shouldEncode: bool): string {
    if shouldEncode then Encode(Pair, name) + "=" + Encode(Pair, value) else name + "=" + value
  }

  /** The query after appending all pairs with encoding on. */
  function QueryOf(pairs: seq<(string, string)>): string {
    if pairs == [] then ""
    else
      var last := pairs[|pairs| - 1];
      AppendQuery(QueryOf(pairs[..|pairs| - 1]), PairText(last.0, last.1, true), false)
  }

  /** One piece of a query put into a map: nothing without '='. */
  function Put(m: map<string, string>, piece: string): map<string, string> {
    var value := From(piece, {'='});
    if value == "" then m else m[Before(piece, {'='}) := value[1..]]
  }

  /** The pieces are ended by the next '&', or by the next ';' once there is no '&' ahead. */
  function Pieces(query: string, m: map<string, string>): map<string, string>
    decreases |query|
  {
    if From(query, {'&'}) != "" then Pieces(From(query, {'&'})[1..], Put(m, Before(query, {'&'})))
    else if From(query, {';'}) != "" then Pieces(From(query, {';'})[1..], Put(m, Before(query, {';'})))
    else Put(m, query)
  }

  function SplitQuery(query: string): map<string, string> {
    Pieces(query, map[])
  }

  /** The map of a list of pairs: the last value of a name wins. */
  function MapOf(pairs: seq<(string, string)>): map<string, string> {
    if pairs == [] then map[]
    else
      var last := pairs[|pairs| - 1];
      MapOf(pairs[..|pairs| - 1])[last.0 := last.1]
  }

  predicate OctetPairs(pairs: seq<(string, string)>) {
    forall p | p in pairs :: Octets(p.0) && Octets(p.1)
  }

  lemma PairIsOnePiece(name: string, value: string)
    requires Octets(name) && Octets(value)
    ensures var p := PairText(name, value, true);
            && '&' !in p && ';' !in p && p != "" && !EndsWith(p, '&')
            && forall m :: Put(m, p) == m[Encode(Pair, name) := Encode(Pair, value)]
  {
    var n, v := Encode(Pair, name), Encode(Pair, value);
    NoDelimiters(name);
    NoDelimiters(value);
    Assoc(n, "=", v);
    BeforeConcat(n, "=" + v, {'='});
    assert ("=" + v)[1..] == v;
    assert v != "" ==> v[|v| - 1] in v;
  }

  lemma NoDelimiters(x: string)
    requires Octets(x)
    ensures var e := Encode(Pair, x); '&' !in e && ';' !in e && '=' !in e && None(e, {'='})
  {
    EncodedIsLegal(Pair, x);
  }

  lemma LastPiece(piece: string, m: map<string, string>)
    requires '&' !in piece && ';' !in piece
    ensures Pieces(piece, m) == Put(m, piece)
  {
    Nil(piece);
    BeforeConcat(piece, "", {'&'});
    BeforeConcat(piece, "", {';'});
  }

  /** A piece appended behind '&' is put into the map last. */
  lemma {:induction false} PiecesSnoc(query: string, piece: string, m: map<string, string>)
    requires ';' !in query && '&' !in piece && ';' !in piece
    ensures Pieces(query + "&" + piece, m) == Put(Pieces(query, m), piece)
    decreases |query|
  {
    var first, rest := Before(query, {'&'}), From(query, {'&'});
    BeforeHasNone(query, {'&'});
    Assoc(query, "&", piece);
    if rest == "" {
      Nil(first);
      BeforeConcat(query, "&" + piece, {'&'});
      assert ("&" + piece)[1..] == piece;
      LastPiece(query, m);
      LastPiece(piece, Put(m, query));
    } else {
      Assoc(first, rest, "&" + piece);
      BeforeConcat(first, rest + ("&" + piece), {'&'});
      assert (rest + ("&" + piece))[1..] == rest[1..] + ("&" + piece);
      Assoc(rest[1..], "&", piece);
      PiecesSnoc(rest[1..], piece, Put(m, first));
    }
  }

  /** The text is an encoded name of the list. */
  predicate IsName(k: string, pairs: map<string, string>) {
    var n := Decode(k);
    n.Success? && n.value in pairs && k == Encode(Pair, n.value)
  }

  predicate OctetMap(pairs: map<string, string>) {
    forall n | n in pairs :: Octets(n) && Octets(pairs[n])
  }

  predicate HasAll(m: map<string, string>, pairs: map<string, string>) {
    forall n | n in pairs :: Encode(Pair, n) in m && m[Encode(Pair, n)] == Encode(Pair, pairs[n])
  }

  predicate AllNames(m: map<string, string>, pairs: map<string, string>) {
    forall k | k in m :: IsName(k, pairs)
  }

  /** The map read back holds the encoded names and values of the list and nothing else. */
  predicate Encodes(m: map<string, string>, pairs: map<string, string>) {
    OctetMap(pairs) && HasAll(m, pairs) && AllNames(m, pairs)
  }

  lemma HasAllPut(m: map<string, string>, pairs: map<string, string>, name: string, value: string)
    requires HasAll(m, pairs) && OctetMap(pairs) && Octets(name)
    ensures HasAll(m[Encode(Pair, name) := Encode(Pair, value)], pairs[name := value])
  {
    var pairs' := pairs[name := value];
    forall n | n in pairs' && n != name ensures n in pairs && Encode(Pair, n) != Encode(Pair, name) {
      DecodeEncode(Pair, name);
      DecodeEncode(Pair, n);
    }
  }

  lemma AllNamesPut(m: map<string, string>, pairs: map<string, string>, name: string, value: string)
    requires AllNames(m, pairs) && Octets(name)
    ensures AllNames(m[Encode(Pair, name) := Encode(Pair, value)], pairs[name := value])
  {
    DecodeEncode(Pair, name);
  }

  lemma OctetMapPut(pairs: map<string, string>, name: string, value: string)
    requires OctetMap(pairs) && Octets(name) && Octets(value)
    ensures OctetMap(pairs[name := value])
  {
    var pairs' := pairs[name := value];
    forall n | n in pairs' ensures Octets(n) && Octets(pairs'[n]) {
      if n != name {
        assert n in pairs;
      }
    }
  }

  lemma EncodesPut(m: map<string, string>, pairs: map<string, string>, name: string, value: string)
    requires Encodes(m, pairs) && Octets(name) && Octets(value)
    ensures Encodes(m[Encode(Pair, name) := Encode(Pair, value)], pairs[name := value])
  {
    HasAllPut(m, pairs, name, value);
    AllNamesPut(m, pairs, name, value);
    OctetMapPut(pairs, name, value);
  }

  lemma {:induction false} QueryOfIsClean(pairs: seq<(string, string)>)
    requires OctetPairs(pairs)
    ensures ';' !in QueryOf(pairs) && !EndsWith(QueryOf(pairs), '&')
    ensures Encodes(SplitQuery(QueryOf(pairs)), MapOf(pairs))
  {
    if pairs == [] {
      LastPiece("", map[]);
    } else {
      var init, last := pairs[..|pairs| - 1], pairs[|pairs| - 1];
      var query, piece := QueryOf(init), PairText(last.0, last.1, true);
      assert last in pairs;
      QueryOfIsClean(init);
      PairIsOnePiece(last.0, last.1);
      EncodesPut(SplitQuery(query), MapOf(init), last.0, last.1);
      AppendPiece(query, piece);
    }
  }

  lemma AppendPiece(query: string, piece: string)
    requires ';' !in query && !EndsWith(query, '&') && piece != "" && '&' !in piece && ';' !in piece
    requires query == "" ==> SplitQuery(query) == map[]
    ensures var q := AppendQuery(query, piece, false);
            SplitQuery(q) == Put(SplitQuery(query), piece) && ';' !in q && EndsWith(q, '&') == EndsWith(piece, '&')
  {
    assert piece[0] in piece;
    if query == "" {
      Nil(piece);
      LastPiece(piece, map[]);
    } else {
      PiecesSnoc(query, piece, map[]);
    }
  }

  /** With encoding off: a pair appended to a query without ';' puts its name and value into the map unchanged. */
  lemma AppendPlainPair(query: string, name: string, value: string)
    requires ';' !in query && !EndsWith(query, '&')
    requires '=' !in name && forall c | c in {'&', ';'} :: c !in name && c !in value
    ensures SplitQuery(AppendQuery(query, PairText(name, value, false), false))
         == if query == "" then map[name := value] else SplitQuery(query)[name := value]
  {
    var piece := PairText(name, value, false);
    PlainPairIsPut(name, value);
    if query == "" {
      Nil(piece);
      LastPiece(piece, map[]);
    } else {
      assert value != "" ==> value[|value| - 1] in value;
      assert piece[0] in piece;
      PiecesSnoc(query, piece, map[]);
    }
  }

  lemma PlainPairIsPut(name: string, value: string)
    requires '=' !in name && forall c | c in {'&', ';'} :: c !in name && c !in value
    ensures var p := PairText(name, value, false);
            && p != "" && '&' !in p && ';' !in p && forall m :: Put(m, p) == m[name := value]
  {
    Assoc(name, "=", value);
    assert None(name, {'='});
    BeforeConcat(name, "=" + value, {'='});
    Cut("=", value);
  }

  function DecodedPairs(m: map<string, string>): set<(Result<string>, Result<string>)> {
    set k | k in m :: (Decode(k), Decode(m[k]))
  }

  /** Names and values of any characters, appended with encoding on, come back when the query is
      split and decoded: exactly the map of the list, the last value of a name winning. */
  lemma QueryRoundTrip(pairs: seq<(string, string)>)
    requires OctetPairs(pairs)
    ensures var list := MapOf(pairs);
            DecodedPairs(SplitQuery(QueryOf(pairs))) == set n | n in list :: (Success(n), Success(list[n]))
  {
    var m, list := SplitQuery(QueryOf(pairs)), MapOf(pairs);
    var expected: set<(Result<string>, Result<string>)> := set n | n in list :: (Success(n), Success(list[n]));
    QueryOfIsClean(pairs);
    forall k | k in m ensures (Decode(k), Decode(m[k])) in expected {
      assert IsName(k, list);
      var n := Decode(k).value;
      assert m[k] == Encode(Pair, list[n]);
      DecodeEncode(Pair, list[n]);
    }
    forall n | n in list ensures (Success(n), Success(list[n])) in DecodedPairs(m) {
      DecodeEncode(Pair, n);
      DecodeEncode(Pair, list[n]);
      assert Encode(Pair, n) in m;
    }
  }
}
