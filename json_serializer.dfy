/** The compact serializer: every value is written on one line, strings are
    quoted without any escaping, containers separate their members with a
    bare comma, and objects write their members in first-insertion order. */
module JsonSerializer {
  import opened JsonValues

  /** The library's number formatting (`oss << double`): platform text for a
      double, left as a parameter of the model. */
  type NumberFormat = Double -> string

  /** The text `serialize()` produces for a value. */
  function Serialized(v: Value, fmt: NumberFormat): (r: string)
    ensures !v.JNumber? ==> |r| >= 2
    decreases v
  {
    match v
    case JNull => "null"
    case JBoolean(b) => if b then "true" else "false"
    case JNumber(n) => fmt(n)
    case JString(s) => "\"" + s + "\""
    case JArray(es) => "[" + ElementsText(es, fmt) + "]"
    case JObject(keys, m) => "{" + MembersText(v, keys, fmt) + "}"
  }

  /** Every text but a number's is delimited: a string by quotes, an array
      by brackets, an object by braces, and a keyword starts with its own
      letter. */
  lemma SerializedDelimited(v: Value, fmt: NumberFormat)
    ensures v.JString? ==> |Serialized(v, fmt)| >= 2 && Serialized(v, fmt)[0] == '"' && Serialized(v, fmt)[|Serialized(v, fmt)| - 1] == '"'
    ensures v.JArray? ==> |Serialized(v, fmt)| >= 2 && Serialized(v, fmt)[0] == '[' && Serialized(v, fmt)[|Serialized(v, fmt)| - 1] == ']'
    ensures v.JObject? ==> |Serialized(v, fmt)| >= 2 && Serialized(v, fmt)[0] == '{' && Serialized(v, fmt)[|Serialized(v, fmt)| - 1] == '}'
    ensures v.JNull? ==> Serialized(v, fmt)[0] == 'n'
    ensures v.JBoolean? ==> Serialized(v, fmt)[0] == (if v.b then 't' else 'f')
  {
  }

  /** The elements' texts joined by commas. */
  function ElementsText(es: seq<Value>, fmt: NumberFormat): (r: string)
    decreases es
  {
    if es == [] then ""
    else if |es| == 1 then Serialized(es[0], fmt)
    else Serialized(es[0], fmt) + "," + ElementsText(es[1..], fmt)
  }

  /** The joined text is empty exactly when there is nothing to join: no
      element, or a single one whose own text is empty. */
  lemma ElementsTextEmpty(es: seq<Value>, fmt: NumberFormat)
    ensures ElementsText(es, fmt) == [] <==> es == [] || (|es| == 1 && Serialized(es[0], fmt) == [])
  {
    if |es| > 1 {
      assert ElementsText(es, fmt)[|Serialized(es[0], fmt)|] == ',';
    }
  }

  /** One object member: the key in quotes, a colon, the value's text. */
  function MemberText(key: string, valueText: string): string
  {
    "\"" + key + "\":" + valueText
  }

  /** The members of object `o` for the listed keys, joined by commas. A
      listed key always has an entry in a well-formed object; for any other
      the value's text is left empty, which keeps the function total. */
  function MembersText(o: Value, keys: seq<string>, fmt: NumberFormat): (r: string)
    requires o.JObject?
    ensures r == [] <==> keys == []
    decreases o, |keys|
  {
    if keys == [] then ""
    else
      var first := MemberText(keys[0], if keys[0] in o.m then Serialized(o.m[keys[0]], fmt) else "");
      if |keys| == 1 then first else first + "," + MembersText(o, keys[1..], fmt)
  }

  /** Appending one more element to the joined text, the way the
      serializer's loop does: a comma first unless it is the first one. */
  lemma {:induction false} ElementsTextSnoc(es: seq<Value>, e: Value, fmt: NumberFormat)
    ensures ElementsText(es + [e], fmt)
         == ElementsText(es, fmt) + (if es == [] then "" else ",") + Serialized(e, fmt)
    decreases |es|
  {
    if |es| >= 2 {
      assert (es + [e])[1..] == es[1..] + [e];
      ElementsTextSnoc(es[1..], e, fmt);
    } else if |es| == 1 {
      assert (es + [e])[1..] == [e];
    }
  }

  /** The same for object members. */
  lemma {:induction false} MembersTextSnoc(o: Value, keys: seq<string>, k: string, fmt: NumberFormat)
    requires o.JObject? && k in o.m
    ensures MembersText(o, keys + [k], fmt)
         == MembersText(o, keys, fmt) + (if keys == [] then "" else ",") + MemberText(k, Serialized(o.m[k], fmt))
    decreases |keys|
  {
    if |keys| >= 2 {
      assert (keys + [k])[1..] == keys[1..] + [k];
      MembersTextSnoc(o, keys[1..], k, fmt);
    } else if |keys| == 1 {
      assert (keys + [k])[1..] == [k];
    }
  }

  /** `serialize()`, dispatched on the kind of the value. */
  method Serialize(v: Value, fmt: NumberFormat) returns (out: string)
    requires WellFormed(v)
    ensures out == Serialized(v, fmt)
    decreases v, 1
  {
    match v {
      case JNull => out := "null";
      case JBoolean(b) => out := if b then "true" else "false";
      case JNumber(n) => out := fmt(n);
      case JString(s) => out := "\"" + s + "\"";
      case JArray(_) => out := SerializeArray(v, fmt);
      case JObject(_, _) => out := SerializeObject(v, fmt);
    }
  }

  /** `JsonArray::serialize`: the opening bracket, then a loop over the
      elements with an index, writing a comma before every element but the
      first, then the closing bracket. */
  method SerializeArray(v: Value, fmt: NumberFormat) returns (out: string)
    requires v.JArray? && WellFormed(v)
    ensures out == Serialized(v, fmt)
    decreases v, 0
  {
    var es := v.elems;
    out := "[";
    var i := 0;
    while i < |es|
      invariant 0 <= i <= |es|
      invariant out == "[" + ElementsText(es[..i], fmt)
    {
      if i > 0 {
        out := out + ",";
      }
      var child := Serialize(es[i], fmt);
      ElementsTextSnoc(es[..i], es[i], fmt);
      assert es[..i + 1] == es[..i] + [es[i]];
      out := out + child;
      i := i + 1;
    }
    assert es[..i] == es;
    out := out + "]";
  }

  /** `JsonObject::serialize`: the opening brace, then a loop over the key
      order with an index, writing a comma before every member but the
      first and each member as quoted key, colon and value, then the
      closing brace. */
  method SerializeObject(v: Value, fmt: NumberFormat) returns (out: string)
    requires v.JObject? && WellFormed(v)
    ensures out == Serialized(v, fmt)
    decreases v, 0
  {
    var keys := v.keys;
    out := "{";
    var i := 0;
    while i < |keys|
      invariant 0 <= i <= |keys|
      invariant out == "{" + MembersText(v, keys[..i], fmt)
    {
      ghost var sep := if keys[..i] == [] then "" else ",";
      if i > 0 {
        out := out + ",";
      }
      assert out == "{" + MembersText(v, keys[..i], fmt) + sep;
      var key := keys[i];
      var child := Serialize(v.m[key], fmt);
      MembersTextSnoc(v, keys[..i], key, fmt);
      assert keys[..i + 1] == keys[..i] + [key];
      out := out + "\"" + key + "\":" + child;
      MemberAppended("{", MembersText(v, keys[..i], fmt), sep, key, child);
      i := i + 1;
    }
    assert keys[..i] == keys;
    out := out + "}";
  }

  /** Writing a member piece by piece after the text so far and the
      separator gives the text so far followed by the separated member. */
  lemma MemberAppended(open: string, body: string, sep: string, key: string, child: string)
    ensures open + body + sep + "\"" + key + "\":" + child == open + (body + sep + MemberText(key, child))
  {
  }

  /** The characters the writer emits of its own accord: brackets, braces,
      the comma, the colon, the quote and the letters of the keywords. */
  predicate Emitted(c: char)
  {
    c in "[]{},:\"" || c in "null" || c in "true" || c in "false"
  }

  /** Every other character of the output came from a string, a key or a
      number's text: in particular the output holds no line break of its
      own, since the writer has no indentation. */
  lemma {:induction false} OnlyPayloadCharacters(v: Value, fmt: NumberFormat, c: char)
    requires !Emitted(c)
    requires forall d :: c !in fmt(d)
    requires Lacks(v, c)
    ensures c !in Serialized(v, fmt)
    decreases v
  {
    match v {
      case JArray(es) => ElementsPayloadCharacters(es, fmt, c);
      case JObject(keys, m) => MembersPayloadCharacters(v, keys, fmt, c);
      case _ =>
    }
  }

  lemma {:induction false} ElementsPayloadCharacters(es: seq<Value>, fmt: NumberFormat, c: char)
    requires !Emitted(c)
    requires forall i :: 0 <= i < |es| ==> Lacks(es[i], c)
    requires forall d :: c !in fmt(d)
    ensures c !in ElementsText(es, fmt)
    decreases es
  {
    if es != [] {
      OnlyPayloadCharacters(es[0], fmt, c);
      if |es| > 1 {
        ElementsPayloadCharacters(es[1..], fmt, c);
      }
    }
  }

  lemma {:induction false} MembersPayloadCharacters(o: Value, keys: seq<string>, fmt: NumberFormat, c: char)
    requires !Emitted(c)
    requires o.JObject? && Lacks(o, c)
    requires forall k :: k in keys ==> c !in k
    requires forall d :: c !in fmt(d)
    ensures c !in MembersText(o, keys, fmt)
    decreases o, |keys|
  {
    if keys != [] {
      if keys[0] in o.m {
        OnlyPayloadCharacters(o.m[keys[0]], fmt, c);
      }
      if |keys| > 1 {
        assert forall k :: k in keys[1..] ==> k in keys;
        MembersPayloadCharacters(o, keys[1..], fmt, c);
      }
    }
  }

  /** No string or key anywhere in the tree holds the character `c`. */
  predicate Lacks(v: Value, c: char)
    decreases v
  {
    match v
    case JString(s) => c !in s
    case JArray(es) => forall i :: 0 <= i < |es| ==> Lacks(es[i], c)
    case JObject(keys, m) =>
      && (forall k :: k in keys ==> c !in k)
      && (forall k :: k in m ==> Lacks(m[k], c))
    case _ => true
  }
}
