/** Reading back what the serializer wrote. For trees built only from
    strings, arrays and objects, with no quote inside any string or key,
    parsing the serialized text gives the tree back, whatever text follows
    it. The parser consumes only a keyword's first letter; its second letter
    is then taken for a separator, and the rest are skipped as characters
    that start no value. As the last element of an array the closing bracket
    is skipped with them, so the array is left open: an error at the top
    level, a different tree when the array is nested. Followed by another
    element, or as an object member's value, a keyword does come back. */
module JsonRoundTrip {
  import opened JsonValues
  import opened JsonSerializer
  import opened JsonParser
  import opened JsonParserLemmas

  /** Only strings, arrays and objects, and no quote in any string or key. */
  predicate Plain(v: Value)
    decreases v
  {
    match v
    case JString(s) => '"' !in s
    case JArray(es) => forall i :: 0 <= i < |es| ==> Plain(es[i])
    case JObject(keys, m) => forall k :: k in m ==> '"' !in k && Plain(m[k])
    case _ => false
  }

  /** A tree the round trip covers: well formed and plain. */
  predicate Covered(v: Value)
  {
    WellFormed(v) && Plain(v)
  }

  /** Every element is covered. */
  predicate AllCovered(es: seq<Value>)
  {
    forall k :: 0 <= k < |es| ==> Covered(es[k])
  }

  /** A member of a covered object: its key has an entry, holds no quote,
      and its value is covered. */
  lemma CoveredMember(o: Value, k: string)
    requires o.JObject? && Covered(o) && k in o.keys
    ensures KeysMatch(o.keys, o.m) && k in o.m && '"' !in k && Covered(o.m[k])
  {
  }

  /** The entries of object `o` for the first `n` keys of its order: what
      the object loop has rebuilt after `n` members. */
  function Prefix(o: Value, n: nat): map<string, Value>
    requires o.JObject? && n <= |o.keys|
  {
    if n == 0 then map[]
    else
      var k := o.keys[n - 1];
      if k in o.m then Prefix(o, n - 1)[k := o.m[k]] else Prefix(o, n - 1)
  }

  /** It holds exactly the entries of the listed keys. */
  lemma {:induction false} PrefixEntries(o: Value, n: nat)
    requires o.JObject? && n <= |o.keys|
    ensures forall k :: k in Prefix(o, n) <==> k in o.m && k in o.keys[..n]
    ensures forall k :: k in Prefix(o, n) ==> Prefix(o, n)[k] == o.m[k]
    decreases n
  {
    if n > 0 {
      PrefixEntries(o, n - 1);
      assert o.keys[..n] == o.keys[..n - 1] + [o.keys[n - 1]];
    }
  }

  /** `x` occurs in `s` at position `i`, character by character. */
  ghost predicate At(s: string, i: nat, x: string)
    decreases |x|
  {
    if |x| == 0 then i <= |s| else i < |s| && s[i] == x[0] && At(s, i + 1, x[1..])
  }

  /** The character `c` is at position `i` of `s`. */
  predicate CharAt(s: string, i: nat, c: char)
  {
    i < |s| && s[i] == c
  }

  lemma {:induction false} AtSplit(s: string, i: nat, a: string, b: string)
    requires At(s, i, a + b)
    ensures At(s, i, a) && At(s, i + |a|, b)
    decreases |a|
  {
    if |a| == 0 {
      assert a + b == b;
      AtBound(s, i, b);
    } else {
      assert (a + b)[0] == a[0] && (a + b)[1..] == a[1..] + b;
      AtSplit(s, i + 1, a[1..], b);
    }
  }

  lemma {:induction false} AtBound(s: string, i: nat, x: string)
    requires At(s, i, x)
    ensures i + |x| <= |s|
    decreases |x|
  {
    if |x| > 0 {
      AtBound(s, i + 1, x[1..]);
    }
  }

  lemma AtFirst(s: string, i: nat, x: string)
    requires At(s, i, x) && |x| > 0
    ensures CharAt(s, i, x[0])
  {
  }

  /** A text occurs at the position where it was put. */
  lemma {:induction false} AtConcat(p: string, x: string, q: string)
    ensures At(p + x + q, |p|, x)
    decreases |x|
  {
    if |x| > 0 {
      assert (p + x + q)[|p|] == x[0];
      assert p + x + q == (p + [x[0]]) + x[1..] + q;
      AtConcat(p + [x[0]], x[1..], q);
    }
  }

  /** A text, a comma and more text: where each piece sits. */
  lemma ThenComma(s: string, i: nat, x: string, rest: string)
    requires At(s, i, x + "," + rest)
    ensures At(s, i, x) && CharAt(s, i + |x|, ',') && At(s, i + |x| + 1, rest)
  {
    AtSplit(s, i, x + ",", rest);
    AtSplit(s, i, x, ",");
    AtFirst(s, i + |x|, ",");
  }

  /** A raw string followed by a quote is read back exactly. */
  lemma {:induction false} ReadQuotedExact(s: string, i: nat, x: string)
    requires At(s, i, x) && '"' !in x && CharAt(s, i + |x|, '"')
    ensures ReadQuoted(s, i).text == x && ReadQuoted(s, i).end == i + |x| + 1
    decreases |x|
  {
    if |x| > 0 {
      assert x[0] in x && x[0] != '"';
      assert forall c :: c in x[1..] ==> c in x;
      ReadQuotedExact(s, i + 1, x[1..]);
      assert x == [x[0]] + x[1..];
    }
  }

  /** The text of a plain value starts with a quote or an opening bracket:
      never white space, never a closing bracket. */
  lemma PlainStart(t: Value, fmt: NumberFormat)
    requires Covered(t)
    ensures |Serialized(t, fmt)| > 0
    ensures var c := Serialized(t, fmt)[0]; c == '"' || c == '[' || c == '{'
  {
  }

  /** The parser outcome `r` is the value `v`, ending at `end`. */
  predicate Yields(r: Result<Parsed>, v: Value, end: nat)
  {
    r.Ok? && r.value.value == v && r.value.end == end
  }

  /** A container's text ends at `close`: its closing bracket `c` stands
      there, or the text itself ends there. */
  predicate Closes(s: string, close: nat, c: char)
  {
    close == |s| || CharAt(s, close, c)
  }

  /** Where the cursor stops after a container ending at `close`: past the
      closing bracket, or at the end of the text. */
  function Past(s: string, close: nat): nat
  {
    if close < |s| then close + 1 else close
  }

  /** A quote where a value is expected starts a raw string. */
  lemma StringAt(s: string, i: nat, scan: NumberScanner)
    requires CharAt(s, i, '"')
    ensures Yields(ValueFrom(s, i, scan), JString(ReadQuoted(s, i + 1).text), ReadQuoted(s, i + 1).end)
  {
    assert SkipSpace(s, i) == i;
  }

  /** An opening bracket where a value is expected enters the array loop. */
  lemma ArrayAt(s: string, i: nat, scan: NumberScanner)
    requires CharAt(s, i, '[')
    ensures ValueFrom(s, i, scan) == ElementsFrom(s, i + 1, [], scan)
  {
    assert SkipSpace(s, i) == i;
  }

  /** An opening brace where a value is expected enters the object loop. */
  lemma ObjectAt(s: string, i: nat, scan: NumberScanner)
    requires CharAt(s, i, '{')
    ensures ValueFrom(s, i, scan) == MembersFrom(s, i + 1, [], map[], scan)
  {
    assert SkipSpace(s, i) == i;
  }

  /** One value, wherever its text occurs. */
  lemma {:induction false} ValueRoundTrip(t: Value, s: string, i: nat, fmt: NumberFormat, scan: NumberScanner)
    requires Covered(t)
    requires At(s, i, Serialized(t, fmt))
    ensures Yields(ValueFrom(s, i, scan), t, i + |Serialized(t, fmt)|)
    decreases t, 2, 0, 0
  {
    match t {
      case JString(str) => StringRoundTrip(t, s, i, fmt, scan);
      case JArray(es) => ArrayRoundTrip(t, s, i, fmt, scan);
      case JObject(keys, m) => ObjectRoundTrip(t, s, i, fmt, scan);
    }
  }

  lemma StringRoundTrip(t: Value, s: string, i: nat, fmt: NumberFormat, scan: NumberScanner)
    requires t.JString? && '"' !in t.s
    requires At(s, i, Serialized(t, fmt))
    ensures Yields(ValueFrom(s, i, scan), t, i + |Serialized(t, fmt)|)
  {
    var str := t.s;
    AtSplit(s, i, "\"" + str, "\"");
    AtSplit(s, i, "\"", str);
    AtFirst(s, i, "\"");
    AtFirst(s, i + 1 + |str|, "\"");
    StringAt(s, i, scan);
    ReadQuotedExact(s, i + 1, str);
  }

  lemma {:induction false} ArrayRoundTrip(t: Value, s: string, i: nat, fmt: NumberFormat, scan: NumberScanner)
    requires t.JArray? && Covered(t)
    requires At(s, i, Serialized(t, fmt))
    ensures Yields(ValueFrom(s, i, scan), t, i + |Serialized(t, fmt)|)
    decreases t, 1, 0, 0
  {
    var es := t.elems;
    var body := ElementsText(es, fmt);
    AtSplit(s, i, "[" + body, "]");
    AtSplit(s, i, "[", body);
    AtFirst(s, i, "[");
    AtFirst(s, i + 1 + |body|, "]");
    ArrayAt(s, i, scan);
    assert es[..0] == [] && es[0..] == es;
    ElementsRoundTrip(es, 0, s, i + 1, i + 1 + |body|, fmt, scan);
    assert Past(s, i + 1 + |body|) == i + |Serialized(t, fmt)|;
  }

  lemma {:induction false} ObjectRoundTrip(t: Value, s: string, i: nat, fmt: NumberFormat, scan: NumberScanner)
    requires t.JObject? && Covered(t)
    requires At(s, i, Serialized(t, fmt))
    ensures Yields(ValueFrom(s, i, scan), t, i + |Serialized(t, fmt)|)
    decreases t, 1, 0, 0
  {
    var keys := t.keys;
    var body := MembersText(t, keys, fmt);
    AtSplit(s, i, "{" + body, "}");
    AtSplit(s, i, "{", body);
    AtFirst(s, i, "{");
    AtFirst(s, i + 1 + |body|, "}");
    ObjectAt(s, i, scan);
    assert keys[0..] == keys && keys[..0] == [];
    assert Prefix(t, 0) == map[];
    MembersRoundTrip(t, 0, s, i + 1, i + 1 + |body|, fmt, scan);
    assert Past(s, i + 1 + |body|) == i + |Serialized(t, fmt)|;
  }

  /** The character at `e` is what one `>>` reads there: not white space.
      The loops consume it unseen, as a colon or, when it is not the
      closing bracket `close`, as a separator. */
  predicate TakenAt(s: string, e: nat)
  {
    e < |s| && !IsSpace(s[e])
  }

  predicate SeparatorAt(s: string, e: nat, close: char)
  {
    TakenAt(s, e) && s[e] != close
  }

  /** One turn of the array loop over an element followed by a separator,
      whatever character it is. */
  lemma ElementsNext(s: string, i: nat, acc: seq<Value>, v: Value, e: nat, scan: NumberScanner)
    requires i < |s| && !IsSpace(s[i]) && s[i] != ']'
    requires Yields(ValueFrom(s, i, scan), v, e)
    requires SeparatorAt(s, e, ']')
    ensures ElementsFrom(s, i, acc, scan) == ElementsFrom(s, e + 1, acc + [v], scan)
  {
    assert SkipSpace(s, i) == i;
    assert SkipSpace(s, e) == e;
  }

  /** The last turn: an element followed by the closing bracket. */
  lemma ElementsLast(s: string, i: nat, acc: seq<Value>, v: Value, e: nat, scan: NumberScanner)
    requires i < |s| && !IsSpace(s[i]) && s[i] != ']'
    requires Yields(ValueFrom(s, i, scan), v, e)
    requires Closes(s, e, ']')
    ensures Yields(ElementsFrom(s, i, acc, scan), JArray(acc + [v]), Past(s, e))
  {
    assert SkipSpace(s, i) == i;
    assert SkipSpace(s, e) == e;
    assert AfterRead(s, e) == e || e < |s|;
  }

  /** An empty array: the closing bracket, or the end of the text,
      straight away. */
  lemma ElementsClose(s: string, i: nat, acc: seq<Value>, scan: NumberScanner)
    requires Closes(s, i, ']')
    ensures Yields(ElementsFrom(s, i, acc, scan), JArray(acc), Past(s, i))
  {
    assert SkipSpace(s, i) == i;
  }

  /** The joined text of the elements from position `n`: the element's own
      text, then a comma and the rest when there is more. */
  lemma ElementsTextAt(es: seq<Value>, n: nat, fmt: NumberFormat)
    requires n < |es|
    ensures n + 1 == |es| ==> ElementsText(es[n..], fmt) == Serialized(es[n], fmt)
    ensures n + 1 < |es| ==>
              ElementsText(es[n..], fmt) == Serialized(es[n], fmt) + "," + ElementsText(es[n + 1..], fmt)
  {
    assert es[n..][0] == es[n] && es[n..][1..] == es[n + 1..];
  }

  /** The text of the elements of `es` from position `n` onwards sits at
      position `i` of `s` and ends at `close`, where the closing bracket
      stands. */
  ghost predicate ElementsAhead(es: seq<Value>, n: nat, s: string, i: nat, close: nat, fmt: NumberFormat)
  {
    && AllCovered(es) && n <= |es|
    && At(s, i, ElementsText(es[n..], fmt))
    && i + |ElementsText(es[n..], fmt)| == close
    && Closes(s, close, ']')
  }

  /** The array loop reads back the elements of `es` after the first `n`,
      having read those, and stops after the closing bracket. */
  lemma {:induction false} ElementsRoundTrip(es: seq<Value>, n: nat, s: string, i: nat, close: nat,
                                             fmt: NumberFormat, scan: NumberScanner)
    requires ElementsAhead(es, n, s, i, close, fmt)
    ensures n <= |es|
    ensures Yields(ElementsFrom(s, i, es[..n], scan), JArray(es), Past(s, close))
    decreases es, |es| - n, 2, 0
  {
    if n == |es| {
      assert es[n..] == [];
      ElementsClose(s, i, es[..n], scan);
      assert es[..n] == es;
    } else if n + 1 == |es| {
      LastElementRoundTrip(es, n, s, i, close, fmt, scan);
    } else {
      NextElementRoundTrip(es, n, s, i, close, fmt, scan);
    }
  }

  lemma {:induction false} LastElementRoundTrip(es: seq<Value>, n: nat, s: string, i: nat, close: nat,
                                                fmt: NumberFormat, scan: NumberScanner)
    requires ElementsAhead(es, n, s, i, close, fmt) && n + 1 == |es|
    ensures Yields(ElementsFrom(s, i, es[..n], scan), JArray(es), Past(s, close))
    decreases es, |es| - n, 1, 0
  {
    var e := es[n];
    var se := Serialized(e, fmt);
    ElementsTextAt(es, n, fmt);
    ValueRoundTrip(e, s, i, fmt, scan);
    PlainStart(e, fmt);
    AtFirst(s, i, se);
    ElementsLast(s, i, es[..n], e, close, scan);
    assert es[..n] + [e] == es;
  }

  lemma {:induction false} NextElementRoundTrip(es: seq<Value>, n: nat, s: string, i: nat, close: nat,
                                                fmt: NumberFormat, scan: NumberScanner)
    requires ElementsAhead(es, n, s, i, close, fmt) && n + 1 < |es|
    ensures Yields(ElementsFrom(s, i, es[..n], scan), JArray(es), Past(s, close))
    decreases es, |es| - n, 1, 0
  {
    var end := FirstElementRoundTrip(es, n, s, i, close, fmt, scan);
    ElementsRoundTrip(es, n + 1, s, end + 1, close, fmt, scan);
  }

  /** Element `n`, followed by more, is read back and the loop moves past
      the comma after it. */
  lemma FirstElementRoundTrip(es: seq<Value>, n: nat, s: string, i: nat, close: nat,
                              fmt: NumberFormat, scan: NumberScanner) returns (end: nat)
    requires ElementsAhead(es, n, s, i, close, fmt) && n + 1 < |es|
    ensures ElementsAhead(es, n + 1, s, end + 1, close, fmt)
    ensures ElementsFrom(s, i, es[..n], scan) == ElementsFrom(s, end + 1, es[..n + 1], scan)
    decreases es, |es| - n, 0, 0
  {
    var e := es[n];
    end := ElementThenMore(es, n, s, i, close, fmt);
    ValueRoundTrip(e, s, i, fmt, scan);
    assert es[..n] + [e] == es[..n + 1];
    ElementsNext(s, i, es[..n], e, end, scan);
  }

  /** Where element `n` and the comma after it sit. */
  lemma ElementThenMore(es: seq<Value>, n: nat, s: string, i: nat, close: nat, fmt: NumberFormat)
    returns (end: nat)
    requires ElementsAhead(es, n, s, i, close, fmt) && n + 1 < |es|
    ensures Covered(es[n])
    ensures At(s, i, Serialized(es[n], fmt)) && end == i + |Serialized(es[n], fmt)|
    ensures !IsSpace(s[i]) && s[i] != ']'
    ensures CharAt(s, end, ',')
    ensures ElementsAhead(es, n + 1, s, end + 1, close, fmt)
  {
    var se := Serialized(es[n], fmt);
    ElementsTextAt(es, n, fmt);
    ThenComma(s, i, se, ElementsText(es[n + 1..], fmt));
    PlainStart(es[n], fmt);
    AtFirst(s, i, se);
    end := i + |se|;
  }

  /** One turn of the object loop: a quoted key, one character taken for
      the colon, a value, and a separator after it. The loop goes on with the
      member added: `keys2` and `m2` are the fields after the insertion. */
  lemma MembersNext(s: string, i: nat, keys: seq<string>, m: map<string, Value>,
                    key: string, c: nat, v: Value, e: nat,
                    keys2: seq<string>, m2: map<string, Value>, scan: NumberScanner)
    requires CharAt(s, i, '"')
    requires ReadQuoted(s, i + 1).text == key && ReadQuoted(s, i + 1).end == c
    requires TakenAt(s, c)
    requires Yields(ValueFrom(s, c + 1, scan), v, e)
    requires SeparatorAt(s, e, '}')
    requires keys2 == Inserted(keys, m, key, v).0 && m2 == Inserted(keys, m, key, v).1
    ensures MembersFrom(s, i, keys, m, scan) == MembersFrom(s, e + 1, keys2, m2, scan)
  {
    assert SkipSpace(s, i) == i;
    assert AfterRead(s, c) == c + 1;
    assert SkipSpace(s, e) == e;
    assert AfterRead(s, e) == e + 1;
  }

  /** The last turn: the value is followed by the closing brace. */
  lemma MembersLast(s: string, i: nat, keys: seq<string>, m: map<string, Value>,
                    key: string, c: nat, v: Value, e: nat,
                    keys2: seq<string>, m2: map<string, Value>, scan: NumberScanner)
    requires CharAt(s, i, '"')
    requires ReadQuoted(s, i + 1).text == key && ReadQuoted(s, i + 1).end == c
    requires TakenAt(s, c)
    requires Yields(ValueFrom(s, c + 1, scan), v, e)
    requires Closes(s, e, '}')
    requires keys2 == Inserted(keys, m, key, v).0 && m2 == Inserted(keys, m, key, v).1
    ensures Yields(MembersFrom(s, i, keys, m, scan), JObject(keys2, m2), Past(s, e))
  {
    assert SkipSpace(s, i) == i;
    assert AfterRead(s, c) == c + 1;
    assert SkipSpace(s, e) == e;
    assert AfterRead(s, e) == e || e < |s|;
  }

  /** An empty object: the closing brace, or the end of the text, straight
      away. */
  lemma MembersClose(s: string, i: nat, keys: seq<string>, m: map<string, Value>, scan: NumberScanner)
    requires Closes(s, i, '}')
    ensures Yields(MembersFrom(s, i, keys, m, scan), JObject(keys, m), Past(s, i))
  {
    assert SkipSpace(s, i) == i;
  }

  /** The joined text of the members from position `idx` of the key order:
      the member's own text, then a comma and the rest when there is more. */
  lemma MembersTextAt(o: Value, idx: nat, fmt: NumberFormat)
    requires o.JObject? && idx < |o.keys| && o.keys[idx] in o.m
    ensures var first := MemberText(o.keys[idx], Serialized(o.m[o.keys[idx]], fmt));
            && (idx + 1 == |o.keys| ==> MembersText(o, o.keys[idx..], fmt) == first)
            && (idx + 1 < |o.keys| ==>
                  MembersText(o, o.keys[idx..], fmt) == first + "," + MembersText(o, o.keys[idx + 1..], fmt))
  {
    assert o.keys[idx..][0] == o.keys[idx] && o.keys[idx..][1..] == o.keys[idx + 1..];
  }

  /** A member's key and colon are read back, leaving the value's text. */
  lemma KeyRoundTrip(s: string, i: nat, key: string, valueText: string) returns (c: nat)
    requires '"' !in key
    requires At(s, i, MemberText(key, valueText))
    ensures CharAt(s, i, '"')
    ensures ReadQuoted(s, i + 1).text == key && ReadQuoted(s, i + 1).end == c
    ensures CharAt(s, c, ':')
    ensures At(s, c + 1, valueText)
    ensures c + 1 + |valueText| == i + |MemberText(key, valueText)|
  {
    var q := i + 1 + |key|;
    AtSplit(s, i, "\"" + key + "\":", valueText);
    AtSplit(s, i, "\"" + key, "\":");
    AtSplit(s, i, "\"", key);
    AtFirst(s, i, "\"");
    assert "\":" == "\"" + ":";
    AtSplit(s, q, "\"", ":");
    AtFirst(s, q, "\"");
    AtFirst(s, q + 1, ":");
    ReadQuotedExact(s, i + 1, key);
    c := q + 1;
  }

  /** The text of members `idx` onwards of object `o` sits at position `i`
      of `s` and ends at `close`, where the closing brace stands. */
  ghost predicate MembersAhead(o: Value, idx: nat, s: string, i: nat, close: nat, fmt: NumberFormat)
  {
    && o.JObject? && Covered(o) && idx <= |o.keys|
    && At(s, i, MembersText(o, o.keys[idx..], fmt))
    && i + |MembersText(o, o.keys[idx..], fmt)| == close
    && Closes(s, close, '}')
  }

  /** The object loop reads back the members from position `idx` of the key
      order, having rebuilt the first `idx` of them, and stops after the
      closing brace. */
  lemma {:induction false} MembersRoundTrip(o: Value, idx: nat, s: string, i: nat, close: nat,
                                            fmt: NumberFormat, scan: NumberScanner)
    requires MembersAhead(o, idx, s, i, close, fmt)
    ensures o.JObject? && idx <= |o.keys|
    ensures Yields(MembersFrom(s, i, o.keys[..idx], Prefix(o, idx), scan), o, Past(s, close))
    decreases o, 0, |o.keys| - idx, 2
  {
    if idx == |o.keys| {
      assert o.keys[idx..] == [];
      MembersClose(s, i, o.keys[..idx], Prefix(o, idx), scan);
      AllMembers(o);
    } else if idx + 1 == |o.keys| {
      LastMemberRoundTrip(o, idx, s, i, close, fmt, scan);
    } else {
      NextMemberRoundTrip(o, idx, s, i, close, fmt, scan);
    }
  }

  lemma {:induction false} LastMemberRoundTrip(o: Value, idx: nat, s: string, i: nat, close: nat,
                                               fmt: NumberFormat, scan: NumberScanner)
    requires MembersAhead(o, idx, s, i, close, fmt) && idx + 1 == |o.keys|
    ensures Yields(MembersFrom(s, i, o.keys[..idx], Prefix(o, idx), scan), o, Past(s, close))
    decreases o, 0, |o.keys| - idx, 1
  {
    var k := o.keys[idx];
    CoveredMember(o, k);
    var v := o.m[k];
    var sv := Serialized(v, fmt);
    MembersTextAt(o, idx, fmt);
    var c := KeyRoundTrip(s, i, k, sv);
    ValueRoundTrip(v, s, c + 1, fmt, scan);
    InsertNext(o, idx);
    AllMembers(o);
    MembersLast(s, i, o.keys[..idx], Prefix(o, idx), k, c, v, close, o.keys, Prefix(o, idx + 1), scan);
  }

  lemma {:induction false} NextMemberRoundTrip(o: Value, idx: nat, s: string, i: nat, close: nat,
                                               fmt: NumberFormat, scan: NumberScanner)
    requires MembersAhead(o, idx, s, i, close, fmt) && idx + 1 < |o.keys|
    ensures Yields(MembersFrom(s, i, o.keys[..idx], Prefix(o, idx), scan), o, Past(s, close))
    decreases o, 0, |o.keys| - idx, 1
  {
    var end := FirstMemberRoundTrip(o, idx, s, i, close, fmt, scan);
    MembersRoundTrip(o, idx + 1, s, end + 1, close, fmt, scan);
  }

  /** Member `idx`, followed by more, is read back and the loop moves past
      the comma after it. */
  lemma FirstMemberRoundTrip(o: Value, idx: nat, s: string, i: nat, close: nat,
                             fmt: NumberFormat, scan: NumberScanner) returns (end: nat)
    requires MembersAhead(o, idx, s, i, close, fmt) && idx + 1 < |o.keys|
    ensures MembersAhead(o, idx + 1, s, end + 1, close, fmt)
    ensures MembersFrom(s, i, o.keys[..idx], Prefix(o, idx), scan)
         == MembersFrom(s, end + 1, o.keys[..idx + 1], Prefix(o, idx + 1), scan)
    decreases o, 0, |o.keys| - idx, 0
  {
    var k := o.keys[idx];
    CoveredMember(o, k);
    var v := o.m[k];
    var sv := Serialized(v, fmt);
    var c;
    c, end := MemberThenMore(o, idx, s, i, close, fmt);
    ValueRoundTrip(v, s, c + 1, fmt, scan);
    InsertNext(o, idx);
    MembersNext(s, i, o.keys[..idx], Prefix(o, idx), k, c, v, end, o.keys[..idx + 1], Prefix(o, idx + 1), scan);
  }

  /** Where the pieces of member `idx` and the comma after it sit. */
  lemma MemberThenMore(o: Value, idx: nat, s: string, i: nat, close: nat, fmt: NumberFormat)
    returns (c: nat, end: nat)
    requires MembersAhead(o, idx, s, i, close, fmt) && idx + 1 < |o.keys|
    ensures o.keys[idx] in o.m
    ensures CharAt(s, i, '"')
    ensures ReadQuoted(s, i + 1).text == o.keys[idx] && ReadQuoted(s, i + 1).end == c
    ensures CharAt(s, c, ':')
    ensures At(s, c + 1, Serialized(o.m[o.keys[idx]], fmt))
    ensures end == c + 1 + |Serialized(o.m[o.keys[idx]], fmt)|
    ensures CharAt(s, end, ',')
    ensures MembersAhead(o, idx + 1, s, end + 1, close, fmt)
  {
    var k := o.keys[idx];
    CoveredMember(o, k);
    var sv := Serialized(o.m[k], fmt);
    MembersTextAt(o, idx, fmt);
    ThenComma(s, i, MemberText(k, sv), MembersText(o, o.keys[idx + 1..], fmt));
    c := KeyRoundTrip(s, i, k, sv);
    end := c + 1 + |sv|;
  }

  /** Member `i` of the key order is new to the first `i` keys. */
  lemma KeyIsNew(keys: seq<string>, i: nat)
    requires NoDuplicates(keys) && i < |keys|
    ensures keys[i] !in keys[..i]
  {
  }

  /** Adding member `i` to the first `i` members gives the first `i + 1`. */
  lemma InsertNext(o: Value, i: nat)
    requires o.JObject? && KeysMatch(o.keys, o.m) && i < |o.keys|
    ensures Inserted(o.keys[..i], Prefix(o, i), o.keys[i], o.m[o.keys[i]]).0 == o.keys[..i + 1]
    ensures Inserted(o.keys[..i], Prefix(o, i), o.keys[i], o.m[o.keys[i]]).1 == Prefix(o, i + 1)
  {
    var keys := o.keys;
    KeyIsNew(keys, i);
    PrefixEntries(o, i);
    assert keys[..i] + [keys[i]] == keys[..i + 1];
  }

  /** Once all members are rebuilt, the object is the original one. */
  lemma AllMembers(o: Value)
    requires o.JObject? && KeysMatch(o.keys, o.m)
    ensures o.keys[..|o.keys|] == o.keys && JObject(o.keys, Prefix(o, |o.keys|)) == o
  {
    assert o.keys[..|o.keys|] == o.keys;
    PrefixEntries(o, |o.keys|);
    assert Prefix(o, |o.keys|) == o.m;
  }

  /** Parsing the serialized text of a plain tree gives the tree back, and
      any text after it is ignored. */
  lemma RoundTripWithTrailing(t: Value, trailing: string, fmt: NumberFormat, scan: NumberScanner)
    requires WellFormed(t) && Plain(t)
    ensures ParseText(Serialized(t, fmt) + trailing, scan) == Ok(t)
  {
    var text := Serialized(t, fmt) + trailing;
    AtConcat("", Serialized(t, fmt), trailing);
    assert "" + Serialized(t, fmt) + trailing == text;
    ValueRoundTrip(t, text, 0, fmt, scan);
  }

  /** `parse(serialize(t)) == t` for plain trees. */
  lemma RoundTrip(t: Value, fmt: NumberFormat, scan: NumberScanner)
    requires WellFormed(t) && Plain(t)
    ensures ParseText(Serialized(t, fmt), scan) == Ok(t)
  {
    RoundTripWithTrailing(t, "", fmt, scan);
    assert Serialized(t, fmt) + "" == Serialized(t, fmt);
  }

  /** A missing closing bracket is accepted: the text of an array without
      its `]` still parses to the array. */
  lemma MissingBracketAccepted(es: seq<Value>, fmt: NumberFormat, scan: NumberScanner)
    requires AllCovered(es)
    ensures ParseText("[" + ElementsText(es, fmt), scan) == Ok(JArray(es))
  {
    var text := "[" + ElementsText(es, fmt);
    UnclosedElements(es, fmt);
    ArrayAt(text, 0, scan);
    ElementsRoundTrip(es, 0, text, 1, |text|, fmt, scan);
    assert es[..0] == [];
  }

  lemma UnclosedElements(es: seq<Value>, fmt: NumberFormat)
    requires AllCovered(es)
    ensures CharAt("[" + ElementsText(es, fmt), 0, '[')
    ensures ElementsAhead(es, 0, "[" + ElementsText(es, fmt), 1, |"[" + ElementsText(es, fmt)|, fmt)
  {
    var body := ElementsText(es, fmt);
    AtConcat("[", body, "");
    assert "[" + body + "" == "[" + body;
    assert es[0..] == es;
  }

  /** The same for an object without its `}`. */
  lemma MissingBraceAccepted(t: Value, fmt: NumberFormat, scan: NumberScanner)
    requires t.JObject? && Covered(t)
    ensures ParseText("{" + MembersText(t, t.keys, fmt), scan) == Ok(t)
  {
    var text := "{" + MembersText(t, t.keys, fmt);
    UnclosedMembers(t, fmt);
    ObjectAt(text, 0, scan);
    MembersRoundTrip(t, 0, text, 1, |text|, fmt, scan);
    assert t.keys[..0] == [] && Prefix(t, 0) == map[];
  }

  lemma UnclosedMembers(t: Value, fmt: NumberFormat)
    requires t.JObject? && Covered(t)
    ensures CharAt("{" + MembersText(t, t.keys, fmt), 0, '{')
    ensures MembersAhead(t, 0, "{" + MembersText(t, t.keys, fmt), 1, |"{" + MembersText(t, t.keys, fmt)|, fmt)
  {
    var body := MembersText(t, t.keys, fmt);
    AtConcat("{", body, "");
    assert "{" + body + "" == "{" + body;
    assert t.keys[0..] == t.keys;
  }

  /** At the top level the keywords do come back, because the rest of the
      keyword is trailing text. */
  lemma TopLevelKeywordRoundTrip(v: Value, fmt: NumberFormat, scan: NumberScanner)
    requires v.JNull? || v.JBoolean?
    ensures ParseText(Serialized(v, fmt), scan) == Ok(v)
  {
    var word := Serialized(v, fmt);
    if v.JNull? {
      assert word == "null";
    } else if v.b {
      assert word == "true";
    } else {
      assert word == "false";
    }
    assert SkipSpace(word, 0) == 0;
    assert Yields(ValueFrom(word, 0, scan), v, 1);
  }

  /** As the last element of an array they do not: `[null]`, `[true]` and
      `[false]` all fail to parse, since the letters after the first are
      taken for a separator and then skipped together with the closing
      bracket. */
  lemma KeywordInArrayDoesNotRoundTrip(v: Value, fmt: NumberFormat, scan: NumberScanner)
    requires v.JNull? || v.JBoolean?
    ensures ParseText(Serialized(JArray([v]), fmt), scan) == Err(InvalidJsonFormat)
  {
    var text := Serialized(JArray([v]), fmt);
    assert ElementsText([v], fmt) == Serialized(v, fmt);
    if v.JNull? {
      assert text == "[null]";
    } else if v.b {
      assert text == "[true]";
    } else {
      assert text == "[false]";
    }
    KeywordInArrayFails(text, scan);
  }

  /** An array whose first element starts with a keyword letter and whose
      third character is neither white space nor `]`: the parser takes that
      character for the separator and looks for a second element in the
      rest, which holds nothing that can start a value. */
  lemma KeywordInArrayFails(s: string, scan: NumberScanner)
    requires |s| >= 4 && s[0] == '[' && (s[1] == 'n' || s[1] == 't' || s[1] == 'f')
    requires !IsSpace(s[2]) && s[2] != ']'
    requires !IsSpace(s[3]) && s[3] != ']' && NoValueAfter(s, 3)
    ensures ParseText(s, scan) == Err(InvalidJsonFormat)
  {
    assert SkipSpace(s, 0) == 0;
    assert ValueFrom(s, 0, scan) == ElementsFrom(s, 1, [], scan);
    assert SkipSpace(s, 1) == 1;
    assert SkipSpace(s, 2) == 2;
    var kw := if s[1] == 'n' then JNull else JBoolean(s[1] == 't');
    assert Yields(ValueFrom(s, 1, scan), kw, 2);
    assert AfterRead(s, 2) == 3;
    assert [] + [kw] == [kw];
    assert ElementsFrom(s, 1, [], scan) == ElementsFrom(s, 3, [kw], scan);
    NoValueFails(s, 3, scan);
    assert SkipSpace(s, 3) == 3;
  }

  /** As an object member's value a keyword does come back: its second
      letter is taken for the separator, and the object loop skips the
      remaining letters, which are neither a quote nor a closing brace,
      until the closing brace. */
  lemma KeywordInObjectRoundTrip(key: string, v: Value, fmt: NumberFormat, scan: NumberScanner)
    requires '"' !in key && (v.JNull? || v.JBoolean?)
    ensures ParseText(Serialized(JObject([key], map[key := v]), fmt), scan) == Ok(JObject([key], map[key := v]))
  {
    var word := Serialized(v, fmt);
    var o := JObject([key], map[key := v]);
    assert MembersText(o, [key], fmt) == MemberText(key, word);
    var text := "{" + MemberText(key, word) + "}";
    assert text[0] == '{' && text[|text| - 1] == '}';
    AtConcat("{", MemberText(key, word), "}");
    KeywordObject(text, key, v, fmt, scan);
  }

  /** The parse of a one-member object whose value is a keyword, from the
      positions of its pieces. */
  lemma KeywordObject(text: string, key: string, v: Value, fmt: NumberFormat, scan: NumberScanner)
    requires '"' !in key && (v.JNull? || v.JBoolean?)
    requires CharAt(text, 0, '{') && At(text, 1, MemberText(key, Serialized(v, fmt)))
    requires CharAt(text, 1 + |MemberText(key, Serialized(v, fmt))|, '}')
    ensures ParseText(text, scan) == Ok(JObject([key], map[key := v]))
  {
    var close := 1 + |MemberText(key, Serialized(v, fmt))|;
    ObjectAt(text, 0, scan);
    var c := KeywordAdded(text, key, v, fmt, scan);
    SkipToBrace(text, c + 3, close, [key], map[key := v], scan);
  }

  /** Characters that are neither quotes nor braces, then `}`: the object
      loop skips them and ends past the brace. */
  lemma SkipToBrace(s: string, i: nat, close: nat, keys: seq<string>, m: map<string, Value>, scan: NumberScanner)
    requires i <= close && CharAt(s, close, '}')
    requires forall k :: i <= k < close ==> s[k] != '"' && s[k] != '}'
    ensures MembersFrom(s, i, keys, m, scan) == Ok(Parsed(JObject(keys, m), close + 1))
  {
    MembersSkipToQuote(s, i, close, keys, m, scan);
    MembersClose(s, close, keys, m, scan);
  }

  /** The member is added once its keyword's second letter has been taken
      for the separator; what follows up to the closing brace is skipped. */
  lemma KeywordAdded(text: string, key: string, v: Value, fmt: NumberFormat, scan: NumberScanner)
    returns (c: nat)
    requires '"' !in key && (v.JNull? || v.JBoolean?)
    requires At(text, 1, MemberText(key, Serialized(v, fmt)))
    ensures c + 3 <= 1 + |MemberText(key, Serialized(v, fmt))| <= |text|
    ensures forall k :: c + 3 <= k < 1 + |MemberText(key, Serialized(v, fmt))| ==> text[k] != '"' && text[k] != '}'
    ensures MembersFrom(text, 1, [], map[], scan) == MembersFrom(text, c + 3, [key], map[key := v], scan)
  {
    c := KeyRoundTrip(text, 1, key, Serialized(v, fmt));
    KeywordMember(text, c, v, 1 + |MemberText(key, Serialized(v, fmt))|, fmt, scan);
    assert [] + [key] == [key];
    MembersNext(text, 1, [], map[], key, c, v, c + 2, [key], map[key := v], scan);
  }

  /** The keyword text after the colon at `c`: its first letter gives the
      value, its second is a separator, and the rest, up to the closing
      brace at `close`, is neither a quote nor a brace. */
  lemma KeywordMember(s: string, c: nat, v: Value, close: nat, fmt: NumberFormat, scan: NumberScanner)
    requires v.JNull? || v.JBoolean?
    requires At(s, c + 1, Serialized(v, fmt)) && close == c + 1 + |Serialized(v, fmt)|
    ensures Yields(ValueFrom(s, c + 1, scan), v, c + 2)
    ensures SeparatorAt(s, c + 2, '}')
    ensures c + 3 <= close <= |s|
    ensures forall k :: c + 3 <= k < close ==> s[k] != '"' && s[k] != '}'
  {
    var word := Serialized(v, fmt);
    assert word == "null" || word == "true" || word == "false";
    AtBound(s, c + 1, word);
    AtIndex(s, c + 1, word, 0);
    AtIndex(s, c + 1, word, 1);
    assert SkipSpace(s, c + 1) == c + 1;
    forall k | c + 3 <= k < close
      ensures s[k] != '"' && s[k] != '}'
    {
      AtIndex(s, c + 1, word, k - c - 1);
    }
  }

  /** A keyword followed by another element does come back: its second
      letter is taken for the separator, and the next `parseValue` skips the
      rest of the keyword and the comma before it reaches the next element. */
  lemma KeywordThenElementRoundTrip(v: Value, t: Value, fmt: NumberFormat, scan: NumberScanner)
    requires (v.JNull? || v.JBoolean?) && Covered(t)
    ensures ParseText(Serialized(JArray([v, t]), fmt), scan) == Ok(JArray([v, t]))
  {
    var word, st := Serialized(v, fmt), Serialized(t, fmt);
    assert [v, t][1..] == [t];
    assert ElementsText([v, t], fmt) == word + "," + st;
    var text := "[" + word + "," + st + "]";
    assert Serialized(JArray([v, t]), fmt) == "[" + (word + "," + st) + "]" == text;
    PairLayout(text, word, st);
    assert KeywordPair(text, v, t, fmt);
    KeywordThenElement(text, v, t, fmt, scan);
  }

  /** Where the pieces of `[`, a text, `,`, a text and `]` sit. */
  lemma PairLayout(text: string, a: string, b: string)
    requires text == "[" + a + "," + b + "]"
    ensures CharAt(text, 0, '[') && At(text, 1, a) && CharAt(text, 1 + |a|, ',')
    ensures At(text, 2 + |a|, b) && CharAt(text, 2 + |a| + |b|, ']')
  {
    var tail := "," + b + "]";
    assert text == "[" + a + tail;
    AtConcat("[", a, tail);
    var head := "[" + a + ",";
    assert text == head + b + "]";
    AtConcat(head, b, "]");
    assert text[1 + |a|] == ',';
  }

  /** The parse of a keyword and a plain element, from the positions of
      their pieces. */
  lemma KeywordThenElement(text: string, v: Value, t: Value, fmt: NumberFormat, scan: NumberScanner)
    requires KeywordPair(text, v, t, fmt)
    ensures ParseText(text, scan) == Ok(JArray([v, t]))
  {
    ArrayAt(text, 0, scan);
    KeywordFirst(text, v, t, fmt, scan);
    KeywordSecond(text, v, t, fmt, scan);
  }

  /** `[`, a keyword, `,`, a plain element and `]`, in that order. */
  ghost predicate KeywordPair(text: string, v: Value, t: Value, fmt: NumberFormat)
  {
    && (v.JNull? || v.JBoolean?) && Covered(t)
    && CharAt(text, 0, '[') && At(text, 1, Serialized(v, fmt))
    && CharAt(text, 1 + |Serialized(v, fmt)|, ',')
    && At(text, 2 + |Serialized(v, fmt)|, Serialized(t, fmt))
    && CharAt(text, 2 + |Serialized(v, fmt)| + |Serialized(t, fmt)|, ']')
  }

  /** The keyword is the first element, and its second letter the
      separator. */
  lemma KeywordFirst(text: string, v: Value, t: Value, fmt: NumberFormat, scan: NumberScanner)
    requires KeywordPair(text, v, t, fmt)
    ensures ElementsFrom(text, 1, [], scan) == ElementsFrom(text, 3, [v], scan)
  {
    KeywordElement(text, 1, v, fmt, scan);
    ElementsNext(text, 1, [], v, 2, scan);
    assert [] + [v] == [v];
  }

  /** The loop goes on at the keyword's third letter; the `parseValue` there
      skips to the plain element, which the closing bracket ends. */
  lemma KeywordSecond(text: string, v: Value, t: Value, fmt: NumberFormat, scan: NumberScanner)
    requires KeywordPair(text, v, t, fmt)
    ensures ElementsFrom(text, 3, [v], scan).Ok?
    ensures ElementsFrom(text, 3, [v], scan).value.value == JArray([v, t])
  {
    var j := 2 + |Serialized(v, fmt)|;
    KeywordElement(text, 1, v, fmt, scan);
    SkipsNonStarters(text, 3, j, scan);
    ValueRoundTrip(t, text, j, fmt, scan);
    ElementsLast(text, 3, [v], t, j + |Serialized(t, fmt)|, scan);
    assert [v] + [t] == [v, t];
  }

  /** A keyword text at `i` inside an array: its first letter gives the
      value, its second is a separator, and the rest can neither start a
      value nor be white space or `]`. */
  lemma KeywordElement(s: string, i: nat, v: Value, fmt: NumberFormat, scan: NumberScanner)
    requires v.JNull? || v.JBoolean?
    requires At(s, i, Serialized(v, fmt)) && CharAt(s, i + |Serialized(v, fmt)|, ',')
    ensures Yields(ValueFrom(s, i, scan), v, i + 1)
    ensures SeparatorAt(s, i + 1, ']')
    ensures i + 3 < i + |Serialized(v, fmt)| < |s|
    ensures !IsSpace(s[i + 2]) && s[i + 2] != ']'
    ensures forall k :: i + 2 <= k <= i + |Serialized(v, fmt)| ==> !StartsValue(s[k])
  {
    var word := Serialized(v, fmt);
    assert word == "null" || word == "true" || word == "false";
    AtIndex(s, i, word, 0);
    AtIndex(s, i, word, 1);
    AtIndex(s, i, word, 2);
    assert SkipSpace(s, i) == i;
    forall k | i + 2 <= k <= i + |word|
      ensures !StartsValue(s[k])
    {
      if k < i + |word| {
        AtIndex(s, i, word, k - i);
      }
    }
  }

  /** The character at offset `k` of a text placed at `i`. */
  lemma {:induction false} AtIndex(s: string, i: nat, x: string, k: nat)
    requires At(s, i, x) && k < |x|
    ensures i + k < |s| && s[i + k] == x[k]
    decreases k
  {
    if k > 0 {
      AtIndex(s, i + 1, x[1..], k - 1);
    }
  }
}
