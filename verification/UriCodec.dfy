/**
 Characters of a URI and percent-encoding (sections 2 and 3 of RFC 3986).
 */
module UriCodec {
  import opened Strings

  datatype UriError = InvalidUri | TruncatedEscape | InvalidHexDigit

  datatype Result<+T> = Success(value: T) | Failure(error: UriError)

  // ---------- character classes ----------

  predicate IsAlpha(c: char) {
    'a' <= c <= 'z' || 'A' <= c <= 'Z'
  }

  predicate IsDigit(c: char) {
    '0' <= c <= '9'
  }

  predicate IsUnreserved(c: char) {
    IsAlpha(c) || IsDigit(c) || c == '-' || c == '.' || c == '_' || c == '~'
  }

  predicate IsGenDelim(c: char) {
    c == ':' || c == '/' || c == '?' || c == '#' || c == '[' || c == ']' || c == '@'
  }

  predicate IsSubDelim(c: char) {
    || c == '!' || c == '$' || c == '&' || c == '\'' || c == '(' || c == ')'
    || c == '*' || c == '+' || c == ',' || c == ';' || c == '='
  }

  predicate IsSchemeChar(c: char) {
    IsAlpha(c) || IsDigit(c) || c == '+' || c == '-' || c == '.'
  }

  predicate IsUserInfoChar(c: char) {
    IsUnreserved(c) || IsSubDelim(c) || c == '%' || c == ':'
  }

  predicate IsAuthorityChar(c: char) {
    IsUnreserved(c) || IsSubDelim(c) || c == '%' || c == '@' || c == ':' || c == '[' || c == ']'
  }

  predicate IsPathChar(c: char) {
    IsUnreserved(c) || IsSubDelim(c) || c == '%' || c == '/' || c == ':' || c == '@'
  }

  predicate IsQueryChar(c: char) {
    IsPathChar(c) || c == '?'
  }

  predicate IsHexDigit(c: char) {
    IsDigit(c) || 'A' <= c <= 'F' || 'a' <= c <= 'f'
  }

  const UPPER := "ABCDEFGHIJKLMNOPQRSTUVWXYZ"
  const LOWER := "abcdefghijklmnopqrstuvwxyz"

  lemma Letters(k: nat)
    requires k < 26
    ensures UPPER[k] == 'A' + k as char && LOWER[k] == 'a' + k as char
  {
  }

  /** Letters, digits and delimiters are those of RFC 3986. */
  lemma CharactersOfRfc(c: char)
    ensures IsAlpha(c) <==> c in UPPER || c in LOWER
    ensures IsDigit(c) <==> c in "0123456789"
    ensures IsUnreserved(c) <==> c in UPPER || c in LOWER || c in "0123456789" || c in "-._~"
    ensures IsGenDelim(c) <==> c in ":/?#[]@"
    ensures IsSubDelim(c) <==> c in "!$&'()*+,;="
  {
    LettersOfRfc(c);
    DelimitersOfRfc(c);
  }

  lemma LettersOfRfc(c: char)
    ensures IsAlpha(c) <==> c in UPPER || c in LOWER
  {
    if 'A' <= c <= 'Z' {
      Letters(c as int - 'A' as int);
    } else if 'a' <= c <= 'z' {
      Letters(c as int - 'a' as int);
    }
    if k :| 0 <= k < 26 && (UPPER[k] == c || LOWER[k] == c) {
      Letters(k);
    }
  }

  lemma DelimitersOfRfc(c: char)
    ensures IsDigit(c) <==> c in "0123456789"
    ensures IsGenDelim(c) <==> c in ":/?#[]@"
    ensures IsSubDelim(c) <==> c in "!$&'()*+,;="
    ensures IsUnreserved(c) <==> IsAlpha(c) || IsDigit(c) || c in "-._~"
  {
  }

  /** And so is what each part of a URI may hold: a path holds the characters of segments and slashes, a query those
      and '?'. */
  lemma PartsOfRfc(c: char)
    ensures IsUserInfoChar(c) <==> IsUnreserved(c) || IsSubDelim(c) || c in "%:"
    ensures IsAuthorityChar(c) <==> IsUserInfoChar(c) || c in "@[]"
    ensures IsPathChar(c) <==> IsUserInfoChar(c) || c in "@/"
    ensures IsQueryChar(c) <==> IsPathChar(c) || c in "?"
    ensures IsSchemeChar(c) <==> IsAlpha(c) || IsDigit(c) || c in "+-."
    ensures IsHexDigit(c) <==> c in "0123456789ABCDEFabcdef"
  {
  }

  /** The strings of the program: sequences of 8-bit characters. */
  predicate Octets(s: string) {
    forall i | 0 <= i < |s| :: s[i] as int < 256
  }

  // ---------- encoding ----------

  /** `Pair` is one side of a name=value pair of a query. */
  datatype Component = UserInfo | Host | Path | Query | Fragment | FullUri | Pair {

    predicate ShouldEncode(c: char) {
      match this
      case UserInfo => !IsUserInfoChar(c) || c == '%' || c == '+'
      case Host => c as int > 127
      case Path => !IsPathChar(c) || c == '%' || c == '+'
      case Query => !IsQueryChar(c) || c == '%' || c == '+'
      case Fragment => !IsQueryChar(c) || c == '%' || c == '+'
      case FullUri => !IsUnreserved(c) && !IsGenDelim(c) && !IsSubDelim(c)
      case Pair => c == '&' || c == ';' || c == '=' || c == '%' || c == '+' || !IsQueryChar(c)
    }
  }

  const HEX := "0123456789ABCDEF"

  function EncodeChar(component: Component, c: char): (s: string) {
    if component.ShouldEncode(c)
    then ['%', HEX[c as int / 16 % 16], HEX[c as int % 16]]
    else [c]
  }

  function Encode(component: Component, raw: string): string {
    if raw == "" then "" else EncodeChar(component, raw[0]) + Encode(component, raw[1..])
  }

  lemma {:induction false} EncodeConcat(component: Component, a: string, b: string)
    ensures Encode(component, a + b) == Encode(component, a) + Encode(component, b)
  {
    if a == "" {
      Nil(b);
      Nil(Encode(component, b));
    } else {
      EncodeConcat(component, a[1..], b);
      assert (a + b)[1..] == a[1..] + b;
      Assoc(EncodeChar(component, a[0]), Encode(component, a[1..]), Encode(component, b));
    }
  }

  lemma EncodeSingle(component: Component, c: char)
    ensures Encode(component, [c]) == EncodeChar(component, c)
  {
    assert [c][1..] == "";
    Nil(EncodeChar(component, c));
  }

  method EncodeImpl(component: Component, raw: string) returns (encoded: string)
    ensures encoded == Encode(component, raw)
  {
    encoded := "";
    var i := 0;
    while i < |raw|
      invariant 0 <= i <= |raw|
      invariant encoded == Encode(component, raw[..i])
    {
      var ch := raw[i];
      Extend(raw, i);
      EncodeConcat(component, raw[..i], [ch]);
      EncodeSingle(component, ch);
      if component.ShouldEncode(ch) {
        encoded := encoded + ['%', HEX[ch as int / 16 % 16], HEX[ch as int % 16]];
      } else {
        encoded := encoded + [ch];
      }
      i := i + 1;
    }
    assert raw[..i] == raw;
  }

  // ---------- decoding ----------

  function HexValue(c: char): Result<nat> {
    if IsDigit(c) then Success(c as int - '0' as int)
    else if 'A' <= c <= 'F' then Success(10 + (c as int - 'A' as int))
    else if 'a' <= c <= 'f' then Success(10 + (c as int - 'a' as int))
    else Failure(InvalidHexDigit)
  }

  /** The character of an escape at the front of s, which starts with '%'. */
  function Escape(s: string): (r: Result<char>)
    requires s != ""
    ensures r.Success? ==> |s| >= 3
  {
    if |s| < 2 then Failure(TruncatedEscape)
    else
      var hi := HexValue(s[1]);
      if hi.Failure? then Failure(hi.error)
      else if |s| < 3 then Failure(TruncatedEscape)
      else
        var lo := HexValue(s[2]);
        if lo.Failure? then Failure(lo.error)
        else Success((16 * hi.value + lo.value) as char)
  }

  function Decode(encoded: string): Result<string> {
    if encoded == "" then Success("")
    else if encoded[0] == '%' then
      var c := Escape(encoded);
      if c.Failure? then Failure(c.error) else Cons(c.value, Decode(encoded[3..]))
    else Cons(encoded[0], Decode(encoded[1..]))
  }

  function Cons(c: char, rest: Result<string>): Result<string> {
    if rest.Failure? then rest else Success([c] + rest.value)
  }

  function Prepend(done: string, rest: Result<string>): Result<string> {
    if rest.Failure? then rest else Success(done + rest.value)
  }

  lemma PrependCons(done: string, c: char, rest: Result<string>)
    ensures Prepend(done, Cons(c, rest)) == Prepend(done + [c], rest)
  {
    if rest.Success? {
      Assoc(done, [c], rest.value);
    }
  }

  lemma PrependNil(r: Result<string>)
    ensures Prepend("", r) == r
  {
    if r.Success? {
      Nil(r.value);
    }
  }

  method DecodeImpl(encoded: string) returns (r: Result<string>)
    ensures r == Decode(encoded)
  {
    var raw := "";
    var i := 0;
    PrependNil(Decode(encoded));
    assert encoded[0..] == encoded;
    while i < |encoded|
      invariant 0 <= i <= |encoded|
      invariant Prepend(raw, Decode(encoded[i..])) == Decode(encoded)
    {
      ghost var rest := encoded[i..];
      if encoded[i] == '%' {
        i := i + 1;
        if i == |encoded| {
          return Failure(TruncatedEscape);
        }
        var hi := HexValue(encoded[i]);
        if hi.Failure? {
          return Failure(hi.error);
        }
        i := i + 1;
        if i == |encoded| {
          return Failure(TruncatedEscape);
        }
        var lo := HexValue(encoded[i]);
        if lo.Failure? {
          return Failure(lo.error);
        }
        DropDrop(encoded, i - 2, 3);
        PrependCons(raw, (16 * hi.value + lo.value) as char, Decode(rest[3..]));
        raw := raw + [(16 * hi.value + lo.value) as char];
      } else {
        DropDrop(encoded, i, 1);
        PrependCons(raw, encoded[i], Decode(rest[1..]));
        raw := raw + [encoded[i]];
      }
      i := i + 1;
    }
    Nil(raw);
    r := Success(raw);
  }

  // ---------- what encoding promises ----------

  lemma HexDigitsInvert(c: char)
    requires c as int < 256
    ensures HexValue(HEX[c as int / 16 % 16]) == Success(c as int / 16)
    ensures HexValue(HEX[c as int % 16]) == Success(c as int % 16)
    ensures IsHexDigit(HEX[c as int / 16 % 16]) && IsHexDigit(HEX[c as int % 16])
  {
  }

  /** Decoding undoes encoding, one character at a time. */
  lemma DecodeOne(component: Component, c: char, rest: string)
    requires c as int < 256 && (c == '%' ==> component.ShouldEncode(c))
    ensures Decode(EncodeChar(component, c) + rest) == Cons(c, Decode(rest))
  {
    HexDigitsInvert(c);
    var e := EncodeChar(component, c);
    assert (e + rest)[|e|..] == rest;
  }

  /** Decoding an encoded string gives the string back, for every component that escapes '%'. */
  lemma {:induction false} DecodeEncode(component: Component, raw: string)
    requires Octets(raw) && (component == Host ==> '%' !in raw)
    ensures Decode(Encode(component, raw)) == Success(raw)
  {
    if raw != "" {
      assert Octets(raw[1..]) && raw[0] as int < 256;
      DecodeEncode(component, raw[1..]);
      DecodeOne(component, raw[0], Encode(component, raw[1..]));
      assert [raw[0]] + raw[1..] == raw;
    }
  }

  lemma EncodeIsInjective(component: Component, x: string, y: string)
    requires Octets(x) && Octets(y) && component != Host
    requires Encode(component, x) == Encode(component, y)
    ensures x == y
  {
    DecodeEncode(component, x);
    DecodeEncode(component, y);
  }

  /** The characters a component may hold. */
  predicate Legal(component: Component, c: char) {
    match component
    case UserInfo => IsUserInfoChar(c)
    case Host => c as int < 128
    case Path => IsPathChar(c)
    case Query => IsQueryChar(c)
    case Fragment => IsQueryChar(c)
    case FullUri => IsUnreserved(c) || IsGenDelim(c) || IsSubDelim(c) || c == '%'
    case Pair => IsQueryChar(c) && c != '&' && c != ';' && c != '=' && c != '+'
  }

  /** Nothing is escaped without need: legal text without '%' and '+' is left as it is. */
  lemma {:induction false} LegalEncodesToItself(component: Component, raw: string)
    requires forall i | 0 <= i < |raw| :: Legal(component, raw[i]) && raw[i] != '%' && raw[i] != '+'
    ensures Encode(component, raw) == raw
  {
    if raw != "" {
      LegalEncodesToItself(component, raw[1..]);
      assert Legal(component, raw[0]);
      assert [raw[0]] + raw[1..] == raw;
    }
  }

  /** Every '%' starts an escape (section 2.1 of RFC 3986). */
  predicate WellEscaped(s: string) {
    forall i | 0 <= i < |s| && s[i] == '%' :: i + 2 < |s| && IsHexDigit(s[i + 1]) && IsHexDigit(s[i + 2])
  }

  lemma EncodedCharIsLegal(component: Component, c: char)
    requires c as int < 256
    ensures forall i | 0 <= i < |EncodeChar(component, c)| :: Legal(component, EncodeChar(component, c)[i])
    ensures component != Host ==> WellEscaped(EncodeChar(component, c))
  {
    HexDigitsInvert(c);
  }

  /** Encoding leaves only characters the component may hold, and only whole escapes. */
  lemma {:induction false} EncodedIsLegal(component: Component, raw: string)
    requires Octets(raw)
    ensures forall i | 0 <= i < |Encode(component, raw)| :: Legal(component, Encode(component, raw)[i])
    ensures component != Host ==> WellEscaped(Encode(component, raw))
  {
    if raw != "" {
      assert raw[0] as int < 256 && Octets(raw[1..]);
      EncodedCharIsLegal(component, raw[0]);
      EncodedIsLegal(component, raw[1..]);
      if component != Host {
        WellEscapedConcat(EncodeChar(component, raw[0]), Encode(component, raw[1..]));
      }
    }
  }

  lemma WellEscapedConcat(a: string, b: string)
    requires WellEscaped(a) && WellEscaped(b)
    ensures WellEscaped(a + b)
  {
    forall i | 0 <= i < |a + b| && (a + b)[i] == '%'
      ensures i + 2 < |a + b| && IsHexDigit((a + b)[i + 1]) && IsHexDigit((a + b)[i + 2])
    {
      if i < |a| {
        assert a[i] == '%';
      } else {
        assert b[i - |a|] == '%';
      }
    }
  }

  // ---------- what decoding promises ----------

  /** The letters among the hexadecimal digits, in upper case. */
  function UpperDigit(c: char): char {
    match c
    case 'a' => 'A'
    case 'b' => 'B'
    case 'c' => 'C'
    case 'd' => 'D'
    case 'e' => 'E'
    case 'f' => 'F'
    case _ => c
  }

  /** The same text with the two characters behind each '%' in upper case. */
  function UpperEscapes(s: string): (t: string)
    ensures |t| == |s|
  {
    if s == "" then ""
    else if s[0] == '%' && |s| >= 3 then ['%', UpperDigit(s[1]), UpperDigit(s[2])] + UpperEscapes(s[3..])
    else [s[0]] + UpperEscapes(s[1..])
  }

  /** Digits of either case are worth the same. */
  lemma UpperDigitIsWorth(c: char)
    ensures HexValue(UpperDigit(c)) == HexValue(c) && UpperDigit(UpperDigit(c)) == UpperDigit(c)
    ensures IsHexDigit(c) ==> HexValue(c).Success? && HexValue(c).value < 16 && HEX[HexValue(c).value] == UpperDigit(c)
    ensures !IsHexDigit(c) ==> HexValue(c) == Failure(InvalidHexDigit)
  {
  }

  /** Decoding does not depend on the case of the digits. */
  lemma {:induction false} DecodeIgnoresCase(s: string)
    ensures Decode(UpperEscapes(s)) == Decode(s)
  {
    if s != "" {
      var t := UpperEscapes(s);
      if s[0] == '%' && |s| >= 3 {
        UpperDigitIsWorth(s[1]);
        UpperDigitIsWorth(s[2]);
        assert t[3..] == UpperEscapes(s[3..]);
        DecodeIgnoresCase(s[3..]);
      } else {
        assert t[1..] == UpperEscapes(s[1..]);
        DecodeIgnoresCase(s[1..]);
        if s[0] == '%' && |s| == 2 {
          assert s[1..][0] == s[1] && s[1..][1..] == "";
        }
      }
    }
  }

  /** Exactly the texts in which every '%' starts an escape are decoded. */
  lemma {:induction false} DecodesIffWellEscaped(s: string)
    ensures Decode(s).Success? <==> WellEscaped(s)
  {
    if s != "" {
      if s[0] != '%' {
        DecodesIffWellEscaped(s[1..]);
        WellEscapedTail(s, 1);
      } else if |s| >= 3 && IsHexDigit(s[1]) && IsHexDigit(s[2]) {
        UpperDigitIsWorth(s[1]);
        UpperDigitIsWorth(s[2]);
        DecodesIffWellEscaped(s[3..]);
        WellEscapedTail(s, 3);
      } else {
        assert !WellEscaped(s);
        if |s| >= 2 {
          UpperDigitIsWorth(s[1]);
        }
        if |s| >= 3 {
          UpperDigitIsWorth(s[2]);
        }
      }
    }
  }

  lemma WellEscapedTail(s: string, k: nat)
    requires 0 < k <= |s| && if s[0] == '%' then k == 3 && IsHexDigit(s[1]) && IsHexDigit(s[2]) else k == 1
    ensures WellEscaped(s) <==> WellEscaped(s[k..])
  {
    forall i | k <= i < |s| ensures s[i] == s[k..][i - k] {}
    if WellEscaped(s[k..]) {
      forall i | 0 <= i < |s| && s[i] == '%' ensures i + 2 < |s| && IsHexDigit(s[i + 1]) && IsHexDigit(s[i + 2]) {
        if i >= k {
          assert s[k..][i - k] == '%';
          assert IsHexDigit(s[k..][i - k + 1]) && IsHexDigit(s[k..][i - k + 2]);
        }
      }
    }
  }

  /** An escape stands for the octet with these two digits, the higher one first. */
  lemma EscapeIsOctet(hi: nat, lo: nat, rest: string)
    requires hi < 16 && lo < 16
    ensures Decode(['%', HEX[hi], HEX[lo]] + rest) == Cons((16 * hi + lo) as char, Decode(rest))
  {
    UpperDigitIsWorth(HEX[hi]);
    UpperDigitIsWorth(HEX[lo]);
    DigitIsWorth(hi);
    DigitIsWorth(lo);
    assert (['%', HEX[hi], HEX[lo]] + rest)[3..] == rest;
  }

  lemma DigitIsWorth(d: nat)
    requires d < 16
    ensures HexValue(HEX[d]) == Success(d)
  {
  }

  /** What is no escape stands for itself. */
  lemma {:induction false} DecodePlain(a: string, b: string)
    requires '%' !in a
    ensures Decode(a + b) == Prepend(a, Decode(b))
  {
    if a == "" {
      Nil(b);
      PrependNil(Decode(b));
    } else {
      assert (a + b)[1..] == a[1..] + b;
      DecodePlain(a[1..], b);
      if Decode(b).Success? {
        Assoc([a[0]], a[1..], Decode(b).value);
        assert [a[0]] + a[1..] == a;
      }
    }
  }

  /** The digits that encoding writes are in upper case (section 2.1 of RFC 3986). */
  lemma {:induction false} EncodedIsUpper(component: Component, raw: string)
    requires Octets(raw) && component != Host
    ensures UpperEscapes(Encode(component, raw)) == Encode(component, raw)
  {
    if raw != "" {
      assert raw[0] as int < 256 && Octets(raw[1..]);
      EncodedIsUpper(component, raw[1..]);
      UpperInFront(component, raw[0], Encode(component, raw[1..]));
    }
  }

  lemma UpperInFront(component: Component, c: char, rest: string)
    requires c as int < 256 && component != Host
    ensures UpperEscapes(EncodeChar(component, c) + rest) == EncodeChar(component, c) + UpperEscapes(rest)
  {
    if component.ShouldEncode(c) {
      HexIsUpper(c as int / 16 % 16);
      HexIsUpper(c as int % 16);
      EscapeInFront(HEX[c as int / 16 % 16], HEX[c as int % 16], rest);
    } else {
      assert c != '%' && ([c] + rest)[1..] == rest;
    }
  }

  lemma HexIsUpper(d: nat)
    requires d < 16
    ensures UpperDigit(HEX[d]) == HEX[d]
  {
  }

  lemma EscapeInFront(x: char, y: char, rest: string)
    ensures UpperEscapes(['%', x, y] + rest) == ['%', UpperDigit(x), UpperDigit(y)] + UpperEscapes(rest)
  {
    assert (['%', x, y] + rest)[3..] == rest;
  }

  // ---------- '+' and the reserved characters ----------

  /** In all parts that use it for a blank, '+' is escaped. */
  lemma {:induction false} PlusIsEscaped(component: Component, raw: string)
    requires Octets(raw) && component != Host && component != FullUri
    ensures '+' !in Encode(component, raw)
  {
    if raw != "" {
      assert raw[0] as int < 256 && Octets(raw[1..]);
      HexDigitsInvert(raw[0]);
      PlusIsEscaped(component, raw[1..]);
    }
  }

  /** A full URI keeps the reserved characters. */
  lemma {:induction false} ReservedStays(raw: string)
    requires forall i | 0 <= i < |raw| :: IsUnreserved(raw[i]) || IsGenDelim(raw[i]) || IsSubDelim(raw[i])
    ensures Encode(FullUri, raw) == raw
  {
    if raw != "" {
      ReservedStays(raw[1..]);
      assert raw[0] == raw[0] && [raw[0]] + raw[1..] == raw;
    }
  }

  // ---------- hosts ----------

  /** Hosts keep every ASCII character. */
  lemma {:induction false} AsciiHostStays(raw: string)
    requires forall i | 0 <= i < |raw| :: raw[i] as int < 128
    ensures Encode(Host, raw) == raw
  {
    if raw != "" {
      AsciiHostStays(raw[1..]);
      assert [raw[0]] + raw[1..] == raw;
    }
  }

  lemma HostHead(x: string, c: char)
    requires x != "" && Encode(Host, x)[0] == c && c != '%'
    ensures x[0] == c && Encode(Host, x)[1..] == Encode(Host, x[1..])
  {
  }

  /** An unescaped '%' in a host makes decoding fail or lose characters. */
  lemma {:induction false} HostShrinks(x: string)
    requires Octets(x)
    ensures var r := Decode(Encode(Host, x));
            r.Success? ==> |r.value| <= |x| && ('%' in x ==> |r.value| < |x|)
  {
    if x == "" {
    } else if x[0] != '%' {
      assert Octets(x[1..]) && x[0] as int < 256;
      HostShrinks(x[1..]);
      DecodeOne(Host, x[0], Encode(Host, x[1..]));
      assert '%' in x ==> '%' in x[1..];
    } else {
      var e := Encode(Host, x);
      assert e == ['%'] + Encode(Host, x[1..]);
      if Escape(e).Success? {
        HostHead(x[1..], e[1]);
        HostHead(x[2..], e[2]);
        assert e[3..] == Encode(Host, x[3..]);
        HostShrinks(x[3..]);
      }
    }
  }

  /** For hosts, where '%' is left alone, the round trip holds exactly without '%'. */
  lemma HostRoundTripIff(x: string)
    requires Octets(x)
    ensures Decode(Encode(Host, x)) == Success(x) <==> '%' !in x
  {
    if '%' in x {
      HostShrinks(x);
    } else {
      DecodeEncode(Host, x);
    }
  }

  lemma HostExample()
    ensures Decode(Encode(Host, "%")) != Success("%")
  {
    HostRoundTripIff("%");
  }
}
