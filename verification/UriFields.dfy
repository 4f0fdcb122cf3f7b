/**
 What splitting makes of the text of any query: its fields, put into a map one after the other.
 */
module UriFields {
  import opened Strings
  import opened UriSyntax
  import opened UriAppend

  /** A name and a value, which may hold any '=' but the first, or text without '='. */
  datatype Field = Named(name: string, value: string) | Bare(text: string) {

    function Text(): string {
      match this
      case Named(name, value) => name + "=" + value
      case Bare(text) => text
    }

    predicate Holds(c: char) {
      match this
      case Named(name, value) => c in name || c in value
      case Bare(text) => c in text
    }

    /** No '=' but where it belongs. */
    predicate Ok() {
      match this
      case Named(name, _) => '=' !in name
      case Bare(text) => '=' !in text
    }
  }

  predicate FieldsOk(fields: seq<Field>, delimiters: set<char>) {
    forall i | 0 <= i < |fields| :: fields[i].Ok() && forall c | c in delimiters :: !fields[i].Holds(c)
  }

  /** The last value of a name wins, and text without '=' counts for nothing. */
  function MapOver(m: map<string, string>, fields: seq<Field>): map<string, string>
    decreases |fields|
  {
    if fields == [] then m
    else MapOver(if fields[0].Named? then m[fields[0].name := fields[0].value] else m, fields[1..])
  }

  /** The fields, each with a delimiter behind it. */
  function Ended(fields: seq<Field>, delimiter: char): string {
    if fields == [] then "" else fields[0].Text() + [delimiter] + Ended(fields[1..], delimiter)
  }

  lemma PutField(m: map<string, string>, field: Field)
    requires field.Ok()
    ensures Put(m, field.Text()) == MapOver(m, [field])
  {
    assert [field][1..] == [];
    match field
    case Named(name, value) =>
      Assoc(name, "=", value);
      BeforeConcat(name, "=" + value, {'='});
      Cut("=", value);
    case Bare(text) =>
      Nil(text);
      BeforeConcat(text, "", {'='});
  }

  lemma HoldsNot(field: Field, c: char)
    requires !field.Holds(c) && c != '='
    ensures c !in field.Text() && None(field.Text(), {c})
  {
  }

  lemma FirstField(field: Field, rest: string, m: map<string, string>)
    requires field.Ok() && !field.Holds('&')
    ensures Pieces(field.Text() + "&" + rest, m) == Pieces(rest, MapOver(m, [field]))
  {
    var text := field.Text();
    HoldsNot(field, '&');
    Assoc(text, "&", rest);
    BeforeConcat(text, "&" + rest, {'&'});
    Cut("&", rest);
    PutField(m, field);
  }

  lemma FirstOfLast(field: Field, rest: string, m: map<string, string>)
    requires field.Ok() && !field.Holds('&') && !field.Holds(';') && '&' !in rest
    ensures Pieces(field.Text() + ";" + rest, m) == Pieces(rest, MapOver(m, [field]))
  {
    var text := field.Text();
    HoldsNot(field, '&');
    HoldsNot(field, ';');
    Assoc(text, ";", rest);
    NoneBehind(text + ";" + rest);
    BeforeConcat(text, ";" + rest, {';'});
    Cut(";", rest);
    PutField(m, field);
  }

  lemma NoneBehind(s: string)
    requires '&' !in s
    ensures From(s, {'&'}) == ""
  {
    Nil(s);
    BeforeConcat(s, "", {'&'});
  }

  lemma MapOverFirst(m: map<string, string>, fields: seq<Field>)
    requires fields != []
    ensures MapOver(m, fields) == MapOver(MapOver(m, fields[..1]), fields[1..])
  {
    assert fields[..1] == [fields[0]] && [fields[0]][1..] == [];
  }

  /** Fields ended by '&' go into the map, and what is behind them is split on; values may hold ';'. */
  lemma {:induction false} EndedByAnd(fields: seq<Field>, rest: string, m: map<string, string>)
    requires FieldsOk(fields, {'&'})
    ensures Pieces(Ended(fields, '&') + rest, m) == Pieces(rest, MapOver(m, fields))
  {
    if fields == [] {
      Nil(rest);
    } else {
      Assoc(fields[0].Text() + "&", Ended(fields[1..], '&'), rest);
      FirstField(fields[0], Ended(fields[1..], '&') + rest, m);
      MapOverFirst(m, fields);
      assert fields[..1] == [fields[0]];
      EndedByAnd(fields[1..], rest, MapOver(m, [fields[0]]));
    }
  }

  lemma {:induction false} NoAndInEnded(fields: seq<Field>, last: Field)
    requires FieldsOk(fields, {'&'}) && !last.Holds('&')
    ensures '&' !in Ended(fields, ';') + last.Text()
  {
    HoldsNot(last, '&');
    if fields == [] {
      Nil(last.Text());
    } else {
      HoldsNot(fields[0], '&');
      Assoc(fields[0].Text() + ";", Ended(fields[1..], ';'), last.Text());
      NoAndInEnded(fields[1..], last);
    }
  }

  lemma {:induction false} EndedBySemicolon(fields: seq<Field>, last: Field, m: map<string, string>)
    requires FieldsOk(fields + [last], {'&', ';'})
    ensures Pieces(Ended(fields, ';') + last.Text(), m) == MapOver(m, fields + [last])
  {
    var all := fields + [last];
    assert all[|fields|] == last && forall i | 0 <= i < |fields| :: all[i] == fields[i];
    if fields == [] {
      Nil(last.Text());
      HoldsNot(last, '&');
      HoldsNot(last, ';');
      LastPiece(last.Text(), m);
      PutField(m, last);
      assert all == [last];
    } else {
      assert all[0] == fields[0] && all[1..] == fields[1..] + [last];
      Assoc(fields[0].Text() + ";", Ended(fields[1..], ';'), last.Text());
      NoAndInEnded(fields[1..], last);
      FirstOfLast(fields[0], Ended(fields[1..], ';') + last.Text(), m);
      MapOverFirst(m, all);
      assert all[..1] == [fields[0]];
      EndedBySemicolon(fields[1..], last, MapOver(m, [fields[0]]));
    }
  }

  lemma {:induction false} MapOverConcat(m: map<string, string>, a: seq<Field>, b: seq<Field>)
    ensures MapOver(m, a + b) == MapOver(MapOver(m, a), b)
    decreases |a|
  {
    if a == [] {
      assert a + b == b;
    } else {
      assert (a + b)[0] == a[0] && (a + b)[1..] == a[1..] + b;
      MapOverConcat(if a[0].Named? then m[a[0].name := a[0].value] else m, a[1..], b);
    }
  }

  /** Any query: fields ended by '&', whose values may hold ';', and behind the last '&' fields with ';' between
      them.  Splitting it gives the map of all fields in order, values unchanged. */
  lemma SplitIsMapOfFields(ands: seq<Field>, semis: seq<Field>, last: Field)
    requires FieldsOk(ands, {'&'}) && FieldsOk(semis + [last], {'&', ';'})
    ensures SplitQuery(Ended(ands, '&') + (Ended(semis, ';') + last.Text())) == MapOver(map[], ands + (semis + [last]))
  {
    EndedByAnd(ands, Ended(semis, ';') + last.Text(), map[]);
    EndedBySemicolon(semis, last, MapOver(map[], ands));
    MapOverConcat(map[], ands, semis + [last]);
  }

  // ---------- every text is of that form ----------

  lemma FieldOf(text: string) returns (field: Field)
    ensures field.Ok() && field.Text() == text && forall c | c != '=' :: field.Holds(c) <==> c in text
  {
    var name, rest := Before(text, {'='}), From(text, {'='});
    BeforeHasNone(text, {'='});
    if rest == "" {
      Nil(name);
      field := Bare(text);
    } else {
      assert rest == "=" + rest[1..];
      Assoc(name, "=", rest[1..]);
      field := Named(name, rest[1..]);
    }
  }

  lemma {:induction false} FieldsEndedBy(text: string, delimiter: char) returns (fields: seq<Field>, rest: string)
    requires delimiter != '='
    ensures text == Ended(fields, delimiter) + rest && delimiter !in rest
    ensures FieldsOk(fields, {delimiter})
    ensures forall c | c != '=' && c !in text :: c !in rest && FieldsOk(fields, {c})
    decreases |text|
  {
    var first, tail := Before(text, {delimiter}), From(text, {delimiter});
    BeforeHasNone(text, {delimiter});
    fields, rest := [], text;
    if tail == "" {
      Nil(first);
      Nil(text);
    } else {
      var field := FieldOf(first);
      var more;
      more, rest := FieldsEndedBy(tail[1..], delimiter);
      fields := [field] + more;
      assert fields[0] == field && fields[1..] == more && tail == [delimiter] + tail[1..];
      Assoc(first, [delimiter], tail[1..]);
      Assoc(first + [delimiter], Ended(more, delimiter), rest);
      forall c | c != '=' && c !in text ensures c !in rest && FieldsOk(fields, {c}) {
        assert c !in first && c !in tail[1..];
        assert FieldsOk(more, {c});
      }
    }
  }

  /** So it says what splitting makes of every text. */
  lemma EveryQueryHasFields(query: string) returns (ands: seq<Field>, semis: seq<Field>, last: Field)
    ensures FieldsOk(ands, {'&'}) && FieldsOk(semis + [last], {'&', ';'})
    ensures query == Ended(ands, '&') + (Ended(semis, ';') + last.Text())
    ensures SplitQuery(query) == MapOver(map[], ands + (semis + [last]))
  {
    var behind, text;
    ands, behind := FieldsEndedBy(query, '&');
    semis, text := FieldsEndedBy(behind, ';');
    last := FieldOf(text);
    assert FieldsOk(semis, {'&'}) && FieldsOk(semis, {';'});
    SplitIsMapOfFields(ands, semis, last);
  }
}
