/**
 The components of a URI, how they are read from a string and how they are printed.

 `Parse` takes the string apart from the left, one delimiter at a time (section 3 of RFC 3986);
 `Print` puts components together again.  What is to be shown is when printing and parsing are
 inverse to each other.
 */
module UriSyntax {
  import opened Strings
  import opened UriCodec

  datatype Components = Components(scheme: string, userInfo: string, host: string, port: int,
                                   path: string, query: string, fragment: string)

  // ---------- scanning ----------

  /** The longest prefix without a stop character. */
  function Before(s: string, stops: set<char>): (pre: string)
    ensures pre <= s
  {
    if s == "" || s[0] in stops then "" else [s[0]] + Before(s[1..], stops)
  }

  /** What follows that prefix: nothing, or a string that starts with a stop character. */
  function From(s: string, stops: set<char>): (post: string)
    ensures post != "" ==> post[0] in stops
    ensures Before(s, stops) + post == s
  {
    if s == "" || s[0] in stops then s else From(s[1..], stops)
  }

  predicate StartsWith(s: string, c: char) {
    s != "" && s[0] == c
  }

  predicate StartsTwoSlashes(s: string) {
    |s| >= 2 && s[0] == '/' && s[1] == '/'
  }

  /** Character classes as values, so that one predicate covers them all. */
  datatype Class = Scheme | User | Authority | PathClass | QueryClass {
    predicate Has(c: char) {
      match this
      case Scheme => IsSchemeChar(c)
      case User => IsUserInfoChar(c)
      case Authority => IsAuthorityChar(c)
      case PathClass => IsPathChar(c)
      case QueryClass => IsQueryChar(c)
    }
  }

  predicate All(s: string, class_: Class) {
    forall i | 0 <= i < |s| :: class_.Has(s[i])
  }

  predicate None(s: string, stops: set<char>) {
    forall i | 0 <= i < |s| :: s[i] !in stops
  }

  // ---------- scanning what was put together ----------

  lemma {:induction false} BeforeConcat(a: string, b: string, stops: set<char>)
    requires None(a, stops) && (b != "" ==> b[0] in stops)
    ensures Before(a + b, stops) == a && From(a + b, stops) == b
  {
    if a == "" {
      Nil(b);
    } else {
      assert a[0] !in stops;
      assert (a + b)[1..] == a[1..] + b;
      BeforeConcat(a[1..], b, stops);
    }
  }

  lemma {:induction false} BeforeHasNone(s: string, stops: set<char>)
    ensures None(Before(s, stops), stops)
  {
    if s != "" && s[0] !in stops {
      BeforeHasNone(s[1..], stops);
    }
  }

  // ---------- lower case ----------

  predicate NoUpper(s: string) {
    forall i | 0 <= i < |s| :: !('A' <= s[i] <= 'Z')
  }

  /** The same letter in upper or lower case, or the same character. */
  predicate SameLetter(c: char, d: char) {
    c == d || exists k | 0 <= k < 26 :: (c == UPPER[k] && d == LOWER[k]) || (c == LOWER[k] && d == UPPER[k])
  }

  predicate SameButCase(s: string, t: string) {
    |s| == |t| && forall i | 0 <= i < |s| :: SameLetter(s[i], t[i])
  }

  function LowerChar(c: char): (d: char)
    ensures !('A' <= d <= 'Z') && SameLetter(c, d)
  {
    if 'A' <= c <= 'Z' then
      Letters(c as int - 'A' as int);
      c - 'A' + 'a'
    else c
  }

  /** Only capital letters change, each to the same small one. */
  function Lower(s: string): (t: string)
    ensures NoUpper(t) && SameButCase(s, t)
  {
    seq(|s|, i requires 0 <= i < |s| => LowerChar(s[i]))
  }

  // ---------- the authority ----------

  const MAX_PORT := 0x7fff_ffff

  function DecimalValue(digits: string): nat {
    if digits == "" then 0
    else
      var c := digits[|digits| - 1];
      10 * DecimalValue(digits[..|digits| - 1]) + if IsDigit(c) then c as int - '0' as int else 0
  }

  /** A number that does not fit leaves the port at 0. */
  function PortValue(digits: string): (port: nat)
    ensures port <= MAX_PORT
    ensures DecimalValue(digits) <= MAX_PORT ==> port == DecimalValue(digits)
    ensures DecimalValue(digits) > MAX_PORT ==> port == 0
  {
    if DecimalValue(digits) <= MAX_PORT then DecimalValue(digits) else 0
  }

  /** Going back over digits from position k, but not past the first character. */
  function BackOverDigits(a: string, k: nat): (j: nat)
    requires k < |a|
    ensures j <= k && forall i | j < i <= k :: IsDigit(a[i])
    ensures j == 0 || !IsDigit(a[j])
  {
    if IsDigit(a[k]) && k != 0 then BackOverDigits(a, k - 1) else k
  }

  /** Does the string end in a colon and digits? */
  predicate HasPort(a: string)
    requires a != ""
  {
    a[BackOverDigits(a, |a| - 1)] == ':'
  }

  function HostPart(a: string): (h: string)
    requires a != ""
    ensures h <= a && (HasPort(a) ==> |h| < |a|)
  {
    if HasPort(a) then a[..BackOverDigits(a, |a| - 1)] else a
  }

  function PortPart(a: string): nat
    requires a != ""
  {
    if HasPort(a) then PortValue(a[BackOverDigits(a, |a| - 1) + 1..]) else 0
  }

  /** The length of the longest prefix of user-info characters. */
  function UserSpan(h: string): (n: nat)
    ensures n <= |h| && All(h[..n], User) && (n < |h| ==> !IsUserInfoChar(h[n]))
  {
    if h == "" || !IsUserInfoChar(h[0]) then 0 else
      var n := 1 + UserSpan(h[1..]);
      assert h[..n] == [h[0]] + h[1..][..n - 1];
      n
  }

  predicate HasUser(h: string) {
    UserSpan(h) < |h| && h[UserSpan(h)] == '@'
  }

  function UserPart(h: string): string {
    if HasUser(h) then h[..UserSpan(h)] else ""
  }

  function AfterUser(h: string): string {
    if HasUser(h) then h[UserSpan(h) + 1..] else h
  }

  /** Components so far, for the authority a (empty when there is none). */
  function WithAuthority(scheme: string, a: string): Components {
    if a == "" then Components(scheme, "", "", 0, "/", "", "")
    else Components(scheme, UserPart(HostPart(a)), Lower(AfterUser(HostPart(a))), PortPart(a), "/", "", "")
  }

  // ---------- parsing ----------

  function Parse(s: string): (r: Result<Components>)
    ensures r.Failure? ==> r.error == InvalidUri
  {
    var pre, post := Before(s, {':', '/'}), From(s, {':', '/'});
    if StartsWith(post, ':') then
      if pre != "" && IsAlpha(pre[0]) && All(pre, Scheme) then ParseHierarchy(Lower(pre), post[1..])
      else Failure(InvalidUri)
    else ParseHierarchy("", s)
  }

  function ParseHierarchy(scheme: string, s: string): (r: Result<Components>)
    ensures r.Failure? ==> r.error == InvalidUri
  {
    if StartsTwoSlashes(s) then
      var a := Before(s[2..], {'/', '?', '#'});
      if All(a, Authority) then ParsePath(WithAuthority(scheme, a), From(s[2..], {'/', '?', '#'}))
      else Failure(InvalidUri)
    else ParsePath(WithAuthority(scheme, ""), s)
  }

  /** Text that cannot start a path, query or fragment is left unread. */
  function ParsePath(u: Components, s: string): (r: Result<Components>)
    ensures r.Failure? ==> r.error == InvalidUri
  {
    if s != "" && IsPathChar(s[0]) then
      var path := Before(s, {'?', '#'});
      if All(path, PathClass) then ParseQuery(u.(path := path), From(s, {'?', '#'})) else Failure(InvalidUri)
    else ParseQuery(u, s)
  }

  function ParseQuery(u: Components, s: string): (r: Result<Components>)
    ensures r.Failure? ==> r.error == InvalidUri
  {
    if StartsWith(s, '?') then
      var query := Before(s[1..], {'#'});
      if All(query, QueryClass) then ParseFragment(u.(query := query), From(s[1..], {'#'})) else Failure(InvalidUri)
    else ParseFragment(u, s)
  }

  function ParseFragment(u: Components, s: string): (r: Result<Components>)
    ensures r.Failure? ==> r.error == InvalidUri
  {
    if StartsWith(s, '#') then
      if All(s[1..], QueryClass) then Success(u.(fragment := s[1..])) else Failure(InvalidUri)
    else Success(u)
  }

  // ---------- printing ----------

  function DigitChar(d: nat): char
    requires d < 10
  {
    d as char + '0'
  }

  function Decimal(n: nat): (s: string)
    ensures s != "" && forall i | 0 <= i < |s| :: IsDigit(s[i])
  {
    if n < 10 then [DigitChar(n)] else Decimal(n / 10) + [DigitChar(n % 10)]
  }

  function PrintUser(userInfo: string): string {
    if userInfo != "" then userInfo + "@" else ""
  }

  function PrintAuthority(u: Components): string {
    PrintUser(u.userInfo) + u.host + if u.port > 0 then ":" + Decimal(u.port) else ""
  }

  /** A full URI has a path with a leading slash. */
  function CanonicalPath(u: Components): string {
    if u.host != "" && !StartsWith(u.path, '/') then "/" + u.path else u.path
  }

  function Canonical(u: Components): Components {
    u.(scheme := Lower(u.scheme), host := Lower(u.host), path := CanonicalPath(u))
  }

  function PrintCanonical(u: Components): string {
    (if u.scheme != "" then u.scheme + ":" else "") + PrintHierarchy(u)
  }

  function PrintHierarchy(u: Components): string {
    (if u.host != "" then "//" + PrintAuthority(u) else "") + PrintPath(u)
  }

  function PrintPath(u: Components): string {
    u.path + PrintQuery(u)
  }

  function PrintQuery(u: Components): string {
    (if u.query != "" then "?" + u.query else "") + PrintFragment(u)
  }

  function PrintFragment(u: Components): string {
    if u.fragment != "" then "#" + u.fragment else ""
  }

  function Print(u: Components): string {
    PrintCanonical(Canonical(u))
  }
}
