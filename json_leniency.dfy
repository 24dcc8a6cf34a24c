/** Texts the serializer never writes that the parser still accepts: any
    character where a separator or a colon belongs, and an object that
    names the same key twice. */
module JsonLeniency {
  import opened JsonValues
  import opened JsonSerializer
  import opened JsonParser
  import opened JsonRoundTrip

  /** Any character that is not white space and not `]` separates two
      array elements: the loop consumes it without looking at it. */
  lemma AnySeparator(a: Value, b: Value, c: char, fmt: NumberFormat, scan: NumberScanner)
    requires Covered(a) && Covered(b)
    requires !IsSpace(c) && c != ']'
    ensures ParseText("[" + Serialized(a, fmt) + [c] + Serialized(b, fmt) + "]", scan) == Ok(JArray([a, b]))
  {
    var sa, sb := Serialized(a, fmt), Serialized(b, fmt);
    var text := "[" + sa + [c] + sb + "]";
    SeparatedLayout(text, sa, c, sb);
    SeparatedElements(text, a, b, c, fmt, scan);
  }

  /** Where the pieces of `[`, a text, a character, a text and `]` sit. */
  lemma SeparatedLayout(text: string, sa: string, c: char, sb: string)
    requires text == "[" + sa + [c] + sb + "]"
    ensures CharAt(text, 0, '[') && At(text, 1, sa) && CharAt(text, 1 + |sa|, c)
    ensures At(text, 2 + |sa|, sb) && CharAt(text, 2 + |sa| + |sb|, ']')
  {
    var tail := [c] + sb + "]";
    assert text == "[" + sa + tail;
    AtConcat("[", sa, tail);
    var head := "[" + sa + [c];
    assert text == head + sb + "]";
    AtConcat(head, sb, "]");
    assert text[1 + |sa|] == c;
  }

  /** Two elements around an arbitrary separator, laid out as
      `SeparatedLayout` describes, parse as a two-element array. */
  lemma SeparatedElements(text: string, a: Value, b: Value, c: char, fmt: NumberFormat, scan: NumberScanner)
    requires Covered(a) && Covered(b)
    requires !IsSpace(c) && c != ']'
    requires CharAt(text, 0, '[') && At(text, 1, Serialized(a, fmt))
    requires CharAt(text, 1 + |Serialized(a, fmt)|, c)
    requires At(text, 2 + |Serialized(a, fmt)|, Serialized(b, fmt))
    requires CharAt(text, 2 + |Serialized(a, fmt)| + |Serialized(b, fmt)|, ']')
    ensures ParseText(text, scan) == Ok(JArray([a, b]))
  {
    ArrayAt(text, 0, scan);
    ElementStep(text, 1, [], a, fmt, scan);
    assert [] + [a] == [a];
    ElementEnd(text, 2 + |Serialized(a, fmt)|, [a], b, fmt, scan);
    assert [a] + [b] == [a, b];
  }

  /** An element followed by any separator: the loop goes on after it. */
  lemma ElementStep(s: string, i: nat, acc: seq<Value>, t: Value, fmt: NumberFormat, scan: NumberScanner)
    requires Covered(t) && At(s, i, Serialized(t, fmt))
    requires SeparatorAt(s, i + |Serialized(t, fmt)|, ']')
    ensures ElementsFrom(s, i, acc, scan) == ElementsFrom(s, i + |Serialized(t, fmt)| + 1, acc + [t], scan)
  {
    ValueRoundTrip(t, s, i, fmt, scan);
    PlainStart(t, fmt);
    AtFirst(s, i, Serialized(t, fmt));
    ElementsNext(s, i, acc, t, i + |Serialized(t, fmt)|, scan);
  }

  /** An element followed by `]` or the end of the text: the array is
      complete. */
  lemma ElementEnd(s: string, i: nat, acc: seq<Value>, t: Value, fmt: NumberFormat, scan: NumberScanner)
    requires Covered(t) && At(s, i, Serialized(t, fmt))
    requires Closes(s, i + |Serialized(t, fmt)|, ']')
    ensures Yields(ElementsFrom(s, i, acc, scan), JArray(acc + [t]), Past(s, i + |Serialized(t, fmt)|))
  {
    ValueRoundTrip(t, s, i, fmt, scan);
    PlainStart(t, fmt);
    AtFirst(s, i, Serialized(t, fmt));
    ElementsLast(s, i, acc, t, i + |Serialized(t, fmt)|, scan);
  }

  /** Any character that is not white space stands for the colon after a
      key, even a quote or a closing brace. */
  lemma AnyColon(key: string, v: Value, c: char, fmt: NumberFormat, scan: NumberScanner)
    requires '"' !in key && Covered(v)
    requires !IsSpace(c)
    ensures ParseText("{\"" + key + "\"" + [c] + Serialized(v, fmt) + "}", scan)
         == Ok(JObject([key], map[key := v]))
  {
    var sv := Serialized(v, fmt);
    var text := "{\"" + key + "\"" + [c] + sv + "}";
    ColonLayout(text, key, c, sv);
    assert OneMember(text, key, v, c, fmt);
    ColonMember(text, key, v, c, fmt, scan);
  }

  /** Where the pieces of `{"`, a key, `"`, a character, a text and `}`
      sit. */
  lemma ColonLayout(text: string, key: string, c: char, sv: string)
    requires text == "{\"" + key + "\"" + [c] + sv + "}"
    ensures CharAt(text, 0, '{') && CharAt(text, 1, '"') && At(text, 2, key)
    ensures CharAt(text, 2 + |key|, '"') && CharAt(text, 3 + |key|, c)
    ensures At(text, 4 + |key|, sv) && CharAt(text, 4 + |key| + |sv|, '}')
  {
    var tail := "\"" + [c] + sv + "}";
    assert text == "{\"" + key + tail;
    AtConcat("{\"", key, tail);
    var head := "{\"" + key + "\"" + [c];
    assert text == head + sv + "}";
    AtConcat(head, sv, "}");
    assert text[1] == '"';
    assert text[2 + |key|] == '"';
    assert text[3 + |key|] == c;
  }

  /** One member whose colon is an arbitrary character, laid out as
      `ColonLayout` describes, parses as a one-member object. */
  lemma ColonMember(text: string, key: string, v: Value, c: char, fmt: NumberFormat, scan: NumberScanner)
    requires CharAt(text, 0, '{') && OneMember(text, key, v, c, fmt)
    ensures ParseText(text, scan) == Ok(JObject([key], map[key := v]))
  {
    var e := 4 + |key| + |Serialized(v, fmt)|;
    ObjectAt(text, 0, scan);
    ColonKey(text, key, v, c, fmt);
    ColonValue(text, key, v, c, fmt, scan);
    assert [] + [key] == [key];
    MembersLast(text, 1, [], map[], key, 3 + |key|, v, e, [key], map[key := v], scan);
  }

  /** The layout `ColonMember` starts from, after the opening brace. */
  ghost predicate OneMember(text: string, key: string, v: Value, c: char, fmt: NumberFormat)
  {
    && '"' !in key && Covered(v) && !IsSpace(c)
    && CharAt(text, 1, '"') && At(text, 2, key)
    && CharAt(text, 2 + |key|, '"') && CharAt(text, 3 + |key|, c)
    && At(text, 4 + |key|, Serialized(v, fmt))
    && CharAt(text, 4 + |key| + |Serialized(v, fmt)|, '}')
  }

  /** The key is read up to its closing quote. */
  lemma ColonKey(text: string, key: string, v: Value, c: char, fmt: NumberFormat)
    requires OneMember(text, key, v, c, fmt)
    ensures ReadQuoted(text, 2).text == key && ReadQuoted(text, 2).end == 3 + |key|
  {
    ReadQuotedExact(text, 2, key);
  }

  /** The value starts right after the character taken as the colon. */
  lemma ColonValue(text: string, key: string, v: Value, c: char, fmt: NumberFormat, scan: NumberScanner)
    requires OneMember(text, key, v, c, fmt)
    ensures Yields(ValueFrom(text, 4 + |key|, scan), v, 4 + |key| + |Serialized(v, fmt)|)
  {
    ValueRoundTrip(v, text, 4 + |key|, fmt, scan);
  }

  /** A key named twice keeps its first position and the second value: the
      object has one member. */
  lemma DuplicateKey(key: string, a: Value, b: Value, fmt: NumberFormat, scan: NumberScanner)
    requires '"' !in key && Covered(a) && Covered(b)
    ensures ParseText("{" + MemberText(key, Serialized(a, fmt)) + "," + MemberText(key, Serialized(b, fmt)) + "}", scan)
         == Ok(JObject([key], map[key := b]))
  {
    var m1, m2 := MemberText(key, Serialized(a, fmt)), MemberText(key, Serialized(b, fmt));
    var text := "{" + m1 + "," + m2 + "}";
    TwoMembersLayout(text, m1, m2);
    assert TwoMembers(text, key, a, b, fmt);
    DuplicateMembers(text, key, a, b, fmt, scan);
  }

  /** Where the pieces of `{`, a member, `,`, a member and `}` sit. */
  lemma TwoMembersLayout(text: string, m1: string, m2: string)
    requires text == "{" + m1 + "," + m2 + "}"
    ensures CharAt(text, 0, '{') && At(text, 1, m1) && CharAt(text, 1 + |m1|, ',')
    ensures At(text, 2 + |m1|, m2) && CharAt(text, 2 + |m1| + |m2|, '}')
  {
    var tail := "," + m2 + "}";
    assert text == "{" + m1 + tail;
    AtConcat("{", m1, tail);
    var head := "{" + m1 + ",";
    assert text == head + m2 + "}";
    AtConcat(head, m2, "}");
    assert text[1 + |m1|] == ',';
  }

  /** Two members with the same key, laid out as `TwoMembersLayout`
      describes, parse as one member holding the second value. */
  lemma DuplicateMembers(text: string, key: string, a: Value, b: Value, fmt: NumberFormat, scan: NumberScanner)
    requires CharAt(text, 0, '{') && TwoMembers(text, key, a, b, fmt)
    ensures ParseText(text, scan) == Ok(JObject([key], map[key := b]))
  {
    ObjectAt(text, 0, scan);
    DuplicateFirst(text, key, a, b, fmt, scan);
    DuplicateSecond(text, key, a, b, fmt, scan);
  }

  /** The layout `DuplicateMembers` starts from, after the opening brace. */
  ghost predicate TwoMembers(text: string, key: string, a: Value, b: Value, fmt: NumberFormat)
  {
    && '"' !in key && Covered(a) && Covered(b)
    && At(text, 1, MemberText(key, Serialized(a, fmt)))
    && CharAt(text, 1 + |MemberText(key, Serialized(a, fmt))|, ',')
    && At(text, 2 + |MemberText(key, Serialized(a, fmt))|, MemberText(key, Serialized(b, fmt)))
    && CharAt(text, 2 + |MemberText(key, Serialized(a, fmt))| + |MemberText(key, Serialized(b, fmt))|, '}')
  }

  /** The first of the two members inserts the key with the first value. */
  lemma DuplicateFirst(text: string, key: string, a: Value, b: Value, fmt: NumberFormat, scan: NumberScanner)
    requires TwoMembers(text, key, a, b, fmt)
    ensures MembersFrom(text, 1, [], map[], scan)
         == MembersFrom(text, 2 + |MemberText(key, Serialized(a, fmt))|, [key], map[key := a], scan)
  {
    MemberStep(text, 1, [], map[], key, a, fmt, scan);
    assert [] + [key] == [key];
  }

  /** The second member overwrites the value and leaves the keys as they
      are. */
  lemma DuplicateSecond(text: string, key: string, a: Value, b: Value, fmt: NumberFormat, scan: NumberScanner)
    requires TwoMembers(text, key, a, b, fmt)
    ensures MembersFrom(text, 2 + |MemberText(key, Serialized(a, fmt))|, [key], map[key := a], scan).Ok?
    ensures MembersFrom(text, 2 + |MemberText(key, Serialized(a, fmt))|, [key], map[key := a], scan).value.value
         == JObject([key], map[key := b])
  {
    MemberEnd(text, 2 + |MemberText(key, Serialized(a, fmt))|, [key], map[key := a], key, b, fmt, scan);
    assert map[key := a][key := b] == map[key := b];
  }

  /** A member followed by any separator: the loop goes on after it with
      the member inserted. */
  lemma MemberStep(s: string, i: nat, keys: seq<string>, m: map<string, Value>,
                   key: string, t: Value, fmt: NumberFormat, scan: NumberScanner)
    requires '"' !in key && Covered(t)
    requires At(s, i, MemberText(key, Serialized(t, fmt)))
    requires SeparatorAt(s, i + |MemberText(key, Serialized(t, fmt))|, '}')
    ensures MembersFrom(s, i, keys, m, scan)
         == MembersFrom(s, i + |MemberText(key, Serialized(t, fmt))| + 1,
                        Inserted(keys, m, key, t).0, Inserted(keys, m, key, t).1, scan)
  {
    var c := KeyRoundTrip(s, i, key, Serialized(t, fmt));
    ValueRoundTrip(t, s, c + 1, fmt, scan);
    MembersNext(s, i, keys, m, key, c, t, i + |MemberText(key, Serialized(t, fmt))|,
                Inserted(keys, m, key, t).0, Inserted(keys, m, key, t).1, scan);
  }

  /** A member followed by `}` or the end of the text: the object is
      complete with the member inserted. */
  lemma MemberEnd(s: string, i: nat, keys: seq<string>, m: map<string, Value>,
                  key: string, t: Value, fmt: NumberFormat, scan: NumberScanner)
    requires '"' !in key && Covered(t)
    requires At(s, i, MemberText(key, Serialized(t, fmt)))
    requires Closes(s, i + |MemberText(key, Serialized(t, fmt))|, '}')
    ensures Yields(MembersFrom(s, i, keys, m, scan),
                   JObject(Inserted(keys, m, key, t).0, Inserted(keys, m, key, t).1),
                   Past(s, i + |MemberText(key, Serialized(t, fmt))|))
  {
    var c := KeyRoundTrip(s, i, key, Serialized(t, fmt));
    ValueRoundTrip(t, s, c + 1, fmt, scan);
    MembersLast(s, i, keys, m, key, c, t, i + |MemberText(key, Serialized(t, fmt))|,
                Inserted(keys, m, key, t).0, Inserted(keys, m, key, t).1, scan);
  }
}
