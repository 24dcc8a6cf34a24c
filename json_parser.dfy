/** The lenient single-pass parser. A forward cursor moves over the text:
    `>>` skips white space and reads one character, `get` reads one raw
    character and `putback` steps back by one. Characters that cannot start
    a value are skipped; `n`, `t` and `f` stand for a whole keyword; strings
    are copied raw up to the next quote; separators and colons are consumed
    without looking at them; a missing closing bracket and trailing text are
    accepted. The one failure is running out of text before a value starts. */
module JsonParser {
  import opened JsonValues

  /** White space as the C locale's `isspace` sees it: space, tab, newline,
      vertical tab, form feed and carriage return. */
  predicate IsSpace(c: char)
  {
    c == ' ' || c == '\t' || c == '\n' || c == '\U{000B}' || c == '\U{000C}' || c == '\r'
  }

  predicate IsDigit(c: char)
  {
    '0' <= c <= '9'
  }

  /** The characters the parser dispatches on; every other non-space
      character is skipped where a value is expected. */
  predicate StartsValue(c: char)
  {
    c == 'n' || c == 't' || c == 'f' || c == '"' || IsDigit(c) || c == '-' || c == '[' || c == '{'
  }

  /** The library's number scanning (`iss >> num`), left as a parameter:
      given the text and the position of the number's first character, it
      yields the payload and how many characters after the first one it
      consumed. */
  type NumberScanner = (string, nat) -> (Double, nat)

  /** A parsed value and the cursor position after it. */
  datatype Parsed = Parsed(value: Value, end: nat)

  /** A string read raw and the cursor position after it. */
  datatype Quoted = Quoted(text: string, end: nat)

  /** The position of the first non-space character at or after `i`, or the
      end of the text. */
  function SkipSpace(s: string, i: nat): (j: nat)
    requires i <= |s|
    ensures i <= j <= |s|
    ensures j < |s| ==> !IsSpace(s[j])
    decreases |s| - i
  {
    if i == |s| || !IsSpace(s[i]) then i else SkipSpace(s, i + 1)
  }

  /** Everything `SkipSpace` passes over is white space. */
  lemma {:induction false} SkipSpaceSkipsSpaces(s: string, i: nat)
    requires i <= |s|
    ensures forall k :: i <= k < SkipSpace(s, i) ==> IsSpace(s[k])
    decreases |s| - i
  {
    if i < |s| && IsSpace(s[i]) {
      SkipSpaceSkipsSpaces(s, i + 1);
    }
  }

  /** The cursor after one `>>` on a character: past the next non-space
      character, or at the end of the text when there is none. */
  function AfterRead(s: string, i: nat): (j: nat)
    requires i <= |s|
    ensures i <= j <= |s|
    ensures j == |s| || (j == SkipSpace(s, i) + 1)
  {
    var k := SkipSpace(s, i);
    if k == |s| then k else k + 1
  }

  /** `while (iss.get(ch) && ch != '"') str += ch;`: raw characters up to
      the next quote, which is consumed, or up to the end of the text. */
  function ReadQuoted(s: string, i: nat): (r: Quoted)
    requires i <= |s|
    ensures i + |r.text| <= r.end <= |s|
    decreases |s| - i
  {
    if i == |s| then Quoted("", i)
    else if s[i] == '"' then Quoted("", i + 1)
    else
      var rest := ReadQuoted(s, i + 1);
      Quoted([s[i]] + rest.text, rest.end)
  }

  /** What the raw-string loop reads: exactly the characters before the
      next quote, no escape decoding, and the cursor lands just after that
      quote, or at the end of the text when the string is unterminated. */
  lemma {:induction false} ReadQuotedIsRaw(s: string, i: nat)
    requires i <= |s|
    ensures var r := ReadQuoted(s, i);
            && r.text == s[i..i + |r.text|] && '"' !in r.text
            && (|| (i + |r.text| < |s| && s[i + |r.text|] == '"' && r.end == i + |r.text| + 1)
                || (i + |r.text| == |s| && r.end == |s|))
    decreases |s| - i
  {
    if i < |s| && s[i] != '"' {
      ReadQuotedIsRaw(s, i + 1);
      var rest := ReadQuoted(s, i + 1);
      assert s[i..i + 1 + |rest.text|] == [s[i]] + s[i + 1..i + 1 + |rest.text|];
    }
  }

  /** One step of the raw-string loop: a character other than a quote is
      kept and the reading goes on after it. */
  lemma ReadQuotedStep(s: string, i: nat, prefix: string)
    requires i < |s| && s[i] != '"'
    ensures prefix + ReadQuoted(s, i).text == (prefix + [s[i]]) + ReadQuoted(s, i + 1).text
    ensures ReadQuoted(s, i).end == ReadQuoted(s, i + 1).end
  {
    var rest := ReadQuoted(s, i + 1).text;
    assert ReadQuoted(s, i).text == [s[i]] + rest;
    assert prefix + ([s[i]] + rest) == (prefix + [s[i]]) + rest;
  }

  /** The number branch: the cursor is put back onto the number's first
      character and the scanner consumes at least that one. */
  function NumberAt(s: string, j: nat, scan: NumberScanner): (p: Parsed)
    requires j < |s|
    ensures j < p.end <= |s|
    ensures p.value.JNumber?
  {
    var scanned := scan(s, j);
    Parsed(JNumber(scanned.0), if j + 1 + scanned.1 <= |s| then j + 1 + scanned.1 else |s|)
  }

  /** `parseValue` from cursor `i`. */
  function ValueFrom(s: string, i: nat, scan: NumberScanner): (r: Result<Parsed>)
    requires i <= |s|
    ensures r.Ok? ==> i < r.value.end <= |s|
    ensures r.Err? ==> r.error == InvalidJsonFormat
    decreases |s| - i, 1
  {
    var j := SkipSpace(s, i);
    if j == |s| then Err(InvalidJsonFormat) else Dispatch(s, j, scan)
  }

  /** `parseValue` once `>>` has read the character at `j`. */
  function Dispatch(s: string, j: nat, scan: NumberScanner): (r: Result<Parsed>)
    requires j < |s|
    ensures r.Ok? ==> j < r.value.end <= |s|
    ensures r.Err? ==> r.error == InvalidJsonFormat
    decreases |s| - j, 0
  {
    var ch := s[j];
    if ch == 'n' then Ok(Parsed(JNull, j + 1))
    else if ch == 't' then Ok(Parsed(JBoolean(true), j + 1))
    else if ch == 'f' then Ok(Parsed(JBoolean(false), j + 1))
    else if ch == '"' then
      var q := ReadQuoted(s, j + 1);
      Ok(Parsed(JString(q.text), q.end))
    else if IsDigit(ch) || ch == '-' then Ok(NumberAt(s, j, scan))
    else if ch == '[' then ElementsFrom(s, j + 1, [], scan)
    else if ch == '{' then MembersFrom(s, j + 1, [], map[], scan)
    else ValueFrom(s, j + 1, scan)
  }

  /** The array loop, entered with the elements parsed so far: `>>` reads a
      character; the end of the text or `]` ends the array; otherwise the
      character is put back, an element is parsed and appended, and one more
      character is consumed, which ends the array when it is `]`. */
  function ElementsFrom(s: string, i: nat, acc: seq<Value>, scan: NumberScanner): (r: Result<Parsed>)
    requires i <= |s|
    ensures r.Ok? ==> i <= r.value.end <= |s|
    ensures r.Err? ==> r.error == InvalidJsonFormat
    decreases |s| - i, 2
  {
    var k := SkipSpace(s, i);
    if k == |s| then Ok(Parsed(JArray(acc), k))
    else if s[k] == ']' then Ok(Parsed(JArray(acc), k + 1))
    else
      match ValueFrom(s, k, scan)
      case Err(e) => Err(e)
      case Ok(p) =>
        var acc' := acc + [p.value];
        var sep := SkipSpace(s, p.end);
        if sep < |s| && s[sep] == ']' then Ok(Parsed(JArray(acc'), sep + 1))
        else ElementsFrom(s, AfterRead(s, p.end), acc', scan)
  }

  /** The object loop, entered with the members parsed so far: `>>` reads a
      character; the end of the text or `}` ends the object; any character
      but a quote is skipped; after a quote the key is read raw, one more
      character is consumed as the colon, the value is parsed and added
      under the key, and one more character is consumed, which ends the
      object when it is `}`. */
  function MembersFrom(s: string, i: nat, keys: seq<string>, m: map<string, Value>, scan: NumberScanner)
    : (r: Result<Parsed>)
    requires i <= |s|
    ensures r.Ok? ==> i <= r.value.end <= |s|
    ensures r.Err? ==> r.error == InvalidJsonFormat
    decreases |s| - i, 2
  {
    var k := SkipSpace(s, i);
    if k == |s| then Ok(Parsed(JObject(keys, m), k))
    else if s[k] == '}' then Ok(Parsed(JObject(keys, m), k + 1))
    else if s[k] != '"' then MembersFrom(s, k + 1, keys, m, scan)
    else
      var key := ReadQuoted(s, k + 1);
      match ValueFrom(s, AfterRead(s, key.end), scan)
      case Err(e) => Err(e)
      case Ok(p) =>
        var added := Inserted(keys, m, key.text, p.value);
        var sep := SkipSpace(s, p.end);
        if sep < |s| && s[sep] == '}' then Ok(Parsed(JObject(added.0, added.1), sep + 1))
        else MembersFrom(s, AfterRead(s, p.end), added.0, added.1, scan)
  }

  /** Every tree the parser builds keeps the object invariant, and the
      containers it builds only grow: what was parsed before stays a prefix
      of the elements (or of the key order). */
  lemma {:induction false} ValueFromWellFormed(s: string, i: nat, scan: NumberScanner)
    requires i <= |s|
    ensures ValueFrom(s, i, scan).Ok? ==> WellFormed(ValueFrom(s, i, scan).value.value)
    decreases |s| - i, 1
  {
    var j := SkipSpace(s, i);
    if j < |s| {
      DispatchWellFormed(s, j, scan);
    }
  }

  lemma {:induction false} DispatchWellFormed(s: string, j: nat, scan: NumberScanner)
    requires j < |s|
    ensures Dispatch(s, j, scan).Ok? ==> WellFormed(Dispatch(s, j, scan).value.value)
    decreases |s| - j, 0
  {
    var ch := s[j];
    if ch == '[' {
      ElementsWellFormed(s, j + 1, [], scan);
    } else if ch == '{' {
      MembersWellFormed(s, j + 1, [], map[], scan);
    } else if !StartsValue(ch) {
      ValueFromWellFormed(s, j + 1, scan);
    }
  }

  lemma {:induction false} ElementsWellFormed(s: string, i: nat, acc: seq<Value>, scan: NumberScanner)
    requires i <= |s|
    requires forall k :: 0 <= k < |acc| ==> WellFormed(acc[k])
    ensures var r := ElementsFrom(s, i, acc, scan);
            r.Ok? ==> r.value.value.JArray? && acc <= r.value.value.elems && WellFormed(r.value.value)
    decreases |s| - i, 2
  {
    var k := SkipSpace(s, i);
    if k < |s| && s[k] != ']' {
      ValueFromWellFormed(s, k, scan);
      match ValueFrom(s, k, scan)
      case Err(_) =>
      case Ok(p) =>
        var acc' := acc + [p.value];
        var sep := SkipSpace(s, p.end);
        if !(sep < |s| && s[sep] == ']') {
          ElementsWellFormed(s, AfterRead(s, p.end), acc', scan);
        }
    }
  }

  lemma {:induction false} MembersWellFormed(s: string, i: nat, keys: seq<string>, m: map<string, Value>, scan: NumberScanner)
    requires i <= |s|
    requires WellFormed(JObject(keys, m))
    ensures var r := MembersFrom(s, i, keys, m, scan);
            r.Ok? ==> r.value.value.JObject? && keys <= r.value.value.keys && WellFormed(r.value.value)
    decreases |s| - i, 2
  {
    var k := SkipSpace(s, i);
    if k < |s| && s[k] != '}' {
      if s[k] != '"' {
        MembersWellFormed(s, k + 1, keys, m, scan);
      } else {
        var key := ReadQuoted(s, k + 1);
        var at := AfterRead(s, key.end);
        ValueFromWellFormed(s, at, scan);
        match ValueFrom(s, at, scan)
        case Err(_) =>
        case Ok(p) =>
          var added := Inserted(keys, m, key.text, p.value);
          InsertKeepsWellFormed(keys, m, key.text, p.value);
          var sep := SkipSpace(s, p.end);
          if !(sep < |s| && s[sep] == '}') {
            MembersWellFormed(s, AfterRead(s, p.end), added.0, added.1, scan);
          }
      }
    }
  }

  /** `parse`: the first value of the text; whatever follows it is ignored. */
  function ParseText(s: string, scan: NumberScanner): (r: Result<Value>)
    ensures r.Ok? ==> WellFormed(r.value)
    ensures r.Err? ==> r.error == InvalidJsonFormat
    ensures r.Ok? <==> ValueFrom(s, 0, scan).Ok?
  {
    ValueFromWellFormed(s, 0, scan);
    match ValueFrom(s, 0, scan)
    case Ok(p) => Ok(p.value)
    case Err(e) => Err(e)
  }

  /** The method's outcome agrees with a specification result: the same
      value and the same final cursor, or the same error. */
  predicate Agrees(spec: Result<Parsed>, r: Result<Value>, pos: nat)
  {
    match spec
    case Ok(p) => r == Ok(p.value) && pos == p.end
    case Err(e) => r == Err(e)
  }

  /** `std::istringstream` over the text: a cursor that only `putback`
      moves backwards. */
  class InputStream {
    const text: string
    var pos: nat

    ghost predicate Valid()
      reads this
    {
      pos <= |text|
    }

    constructor (s: string)
      ensures Valid() && text == s && pos == 0
    {
      text := s;
      pos := 0;
    }

    /** `iss >> ch`: skips white space, then reads one character; at the
        end of the text it yields nothing. */
    method Read() returns (c: Option<char>)
      requires Valid()
      modifies this
      ensures Valid()
      ensures pos == AfterRead(text, old(pos))
      ensures SkipSpace(text, old(pos)) == |text| ==> c == None
      ensures SkipSpace(text, old(pos)) < |text| ==> c == Some(text[SkipSpace(text, old(pos))])
    {
      while pos < |text| && IsSpace(text[pos])
        invariant old(pos) <= pos <= |text|
        invariant SkipSpace(text, pos) == SkipSpace(text, old(pos))
        decreases |text| - pos
      {
        pos := pos + 1;
      }
      if pos == |text| {
        c := None;
      } else {
        c := Some(text[pos]);
        pos := pos + 1;
      }
    }

    /** `iss.get(ch)`: one raw character, white space included. */
    method Get() returns (c: Option<char>)
      requires Valid()
      modifies this
      ensures Valid()
      ensures old(pos) == |text| ==> c == None && pos == old(pos)
      ensures old(pos) < |text| ==> c == Some(text[old(pos)]) && pos == old(pos) + 1
    {
      if pos == |text| {
        c := None;
      } else {
        c := Some(text[pos]);
        pos := pos + 1;
      }
    }

    /** `iss.putback(ch)` right after reading `ch`: one step back. */
    method Putback()
      requires Valid() && pos > 0
      modifies this
      ensures Valid() && pos == old(pos) - 1
    {
      pos := pos - 1;
    }

    /** `iss >> num` with the cursor on the number's first character. */
    method ReadNumber(scan: NumberScanner) returns (d: Double)
      requires Valid() && pos < |text|
      modifies this
      ensures Valid()
      ensures NumberAt(text, old(pos), scan) == Parsed(JNumber(d), pos)
    {
      var (payload, extra) := scan(text, pos);
      d := payload;
      pos := if pos + 1 + extra <= |text| then pos + 1 + extra else |text|;
    }

    /** The raw-string loop shared by string values and object keys:
        `while (iss.get(ch) && ch != '"') str += ch;`. */
    method ReadQuotedText() returns (str: string)
      requires Valid()
      modifies this
      ensures Valid()
      ensures ReadQuoted(text, old(pos)) == Quoted(str, pos)
    {
      str := "";
      ghost var at := pos;
      var c := Get();
      while c.Some? && c.value != '"'
        invariant Valid() && at <= |text|
        invariant c.None? ==> at == pos == |text|
        invariant c.Some? ==> pos == at + 1 && text[at] == c.value
        invariant ReadQuoted(text, old(pos)).text == str + ReadQuoted(text, at).text
        invariant ReadQuoted(text, old(pos)).end == ReadQuoted(text, at).end
        decreases |text| - at
      {
        ReadQuotedStep(text, at, str);
        str := str + [c.value];
        at := pos;
        c := Get();
      }
      assert ReadQuoted(text, at).text == "";
    }
  }

  /** `parse`: a stream over the text, and one value read from it. */
  method Parse(json: string, scan: NumberScanner) returns (r: Result<Value>)
    ensures r == ParseText(json, scan)
  {
    var iss := new InputStream(json);
    r := ParseValue(iss, scan);
  }

  /** `parseValue`: reads characters with `>>` until one starts a value,
      skipping all others; fails when the text runs out first. */
  method ParseValue(iss: InputStream, scan: NumberScanner) returns (r: Result<Value>)
    requires iss.Valid()
    modifies iss
    ensures iss.Valid()
    ensures Agrees(ValueFrom(iss.text, old(iss.pos), scan), r, iss.pos)
    decreases |iss.text| - iss.pos, 1
  {
    ghost var start := iss.pos;
    var c := iss.Read();
    while c.Some?
      invariant iss.Valid()
      invariant c.Some? ==> 0 < iss.pos && iss.text[iss.pos - 1] == c.value
      invariant c.Some? ==> ValueFrom(iss.text, start, scan) == Dispatch(iss.text, iss.pos - 1, scan)
      invariant c.None? ==> ValueFrom(iss.text, start, scan) == Err(InvalidJsonFormat)
      decreases |iss.text| - iss.pos, if c.Some? then 1 else 0
    {
      var ch := c.value;
      if ch == 'n' {
        return Ok(JNull);
      } else if ch == 't' {
        return Ok(JBoolean(true));
      } else if ch == 'f' {
        return Ok(JBoolean(false));
      } else if ch == '"' {
        var str := iss.ReadQuotedText();
        return Ok(JString(str));
      } else if IsDigit(ch) || ch == '-' {
        iss.Putback();
        var d := iss.ReadNumber(scan);
        return Ok(JNumber(d));
      } else if ch == '[' {
        r := ParseArray(iss, scan);
        return;
      } else if ch == '{' {
        r := ParseObject(iss, scan);
        return;
      }
      c := iss.Read();
    }
    return Err(InvalidJsonFormat);
  }

  /** The array branch of `parseValue`, entered just after the `[`. */
  method ParseArray(iss: InputStream, scan: NumberScanner) returns (r: Result<Value>)
    requires iss.Valid()
    modifies iss
    ensures iss.Valid()
    ensures Agrees(ElementsFrom(iss.text, old(iss.pos), [], scan), r, iss.pos)
    decreases |iss.text| - iss.pos, 2
  {
    ghost var start := iss.pos;
    var arr := new JsonArray();
    while true
      invariant iss.Valid() && start <= iss.pos
      invariant ElementsFrom(iss.text, start, [], scan) == ElementsFrom(iss.text, iss.pos, arr.values, scan)
      decreases |iss.text| - iss.pos
    {
      ghost var here := iss.pos;
      var c := iss.Read();
      if c.None? || c.value == ']' {
        assert ElementsFrom(iss.text, here, arr.values, scan) == Ok(Parsed(JArray(arr.values), iss.pos));
        break;
      }
      iss.Putback();
      ghost var spec := ElementsFrom(iss.text, here, arr.values, scan);
      ghost var element := ValueFrom(iss.text, iss.pos, scan);
      var v := ParseValue(iss, scan);
      if v.Err? {
        assert spec == element;
        return v;
      }
      arr.Add(v.value);
      var sep := iss.Read();
      if sep == Some(']') {
        assert spec == Ok(Parsed(JArray(arr.values), iss.pos));
        break;
      }
      assert spec == ElementsFrom(iss.text, iss.pos, arr.values, scan);
    }
    return Ok(JArray(arr.values));
  }

  /** The object branch of `parseValue`, entered just after the `{`. */
  method ParseObject(iss: InputStream, scan: NumberScanner) returns (r: Result<Value>)
    requires iss.Valid()
    modifies iss
    ensures iss.Valid()
    ensures Agrees(MembersFrom(iss.text, old(iss.pos), [], map[], scan), r, iss.pos)
    decreases |iss.text| - iss.pos, 2
  {
    ghost var start := iss.pos;
    var obj := new JsonObject();
    while true
      invariant iss.Valid() && obj.Valid() && start <= iss.pos
      invariant MembersFrom(iss.text, start, [], map[], scan) == MembersFrom(iss.text, iss.pos, obj.keys, obj.values, scan)
      decreases |iss.text| - iss.pos
    {
      var c := iss.Read();
      if c.None? || c.value == '}' {
        break;
      }
      if c.value == '"' {
        var key := iss.ReadQuotedText();
        var colon := iss.Read();
        var v := ParseValue(iss, scan);
        if v.Err? {
          return v;
        }
        obj.Add(key, v.value);
        var sep := iss.Read();
        if sep == Some('}') {
          break;
        }
      }
    }
    return Ok(JObject(obj.keys, obj.values));
  }
}
