/** What the parser accepts and where it fails. */
module JsonParserLemmas {
  import opened JsonValues
  import opened JsonParser

  /** No character at or after `j` can start a value. */
  ghost predicate NoValueAfter(s: string, j: nat)
  {
    forall k :: j <= k < |s| ==> !StartsValue(s[k])
  }

  /** White space before the cursor is skipped in one go. */
  lemma {:induction false} SkipSpaceOverSpaces(s: string, i: nat, j: nat)
    requires i <= j <= |s|
    requires forall k :: i <= k < j ==> IsSpace(s[k])
    ensures SkipSpace(s, i) == SkipSpace(s, j)
    decreases j - i
  {
    if i < j {
      SkipSpaceOverSpaces(s, i + 1, j);
    }
  }

  /** Where a value is expected, every character that cannot start one is
      skipped: parsing from `i` is parsing from `j`. */
  lemma {:induction false} SkipsNonStarters(s: string, i: nat, j: nat, scan: NumberScanner)
    requires i <= j <= |s|
    requires forall k :: i <= k < j ==> !StartsValue(s[k])
    ensures ValueFrom(s, i, scan) == ValueFrom(s, j, scan)
    decreases j - i
  {
    var k := SkipSpace(s, i);
    if k < j {
      assert !StartsValue(s[k]);
      assert Dispatch(s, k, scan) == ValueFrom(s, k + 1, scan);
      SkipsNonStarters(s, k + 1, j, scan);
    } else {
      SkipSpaceSkipsSpaces(s, i);
      SkipSpaceOverSpaces(s, i, j);
    }
  }

  /** Inside an object, every character before a key that is neither a
      quote nor a closing brace is skipped: the loop from `i` is the loop
      from `j`. */
  lemma {:induction false} MembersSkipToQuote(s: string, i: nat, j: nat, keys: seq<string>,
                                              m: map<string, Value>, scan: NumberScanner)
    requires i <= j <= |s|
    requires forall k :: i <= k < j ==> s[k] != '"' && s[k] != '}'
    ensures MembersFrom(s, i, keys, m, scan) == MembersFrom(s, j, keys, m, scan)
    decreases j - i
  {
    var k := SkipSpace(s, i);
    if k < j {
      MembersSkipOne(s, i, keys, m, scan);
      MembersSkipToQuote(s, k + 1, j, keys, m, scan);
    } else {
      SkipSpaceSkipsSpaces(s, i);
      SkipSpaceOverSpaces(s, i, j);
    }
  }

  /** One character before a key that is neither a quote nor a closing
      brace is passed over. */
  lemma MembersSkipOne(s: string, i: nat, keys: seq<string>, m: map<string, Value>, scan: NumberScanner)
    requires i <= |s| && SkipSpace(s, i) < |s|
    requires s[SkipSpace(s, i)] != '"' && s[SkipSpace(s, i)] != '}'
    ensures MembersFrom(s, i, keys, m, scan) == MembersFrom(s, SkipSpace(s, i) + 1, keys, m, scan)
  {
  }

  /** Running out of text before a value starts is an error. */
  lemma NoValueFails(s: string, i: nat, scan: NumberScanner)
    requires i <= |s|
    requires NoValueAfter(s, i)
    ensures ValueFrom(s, i, scan) == Err(InvalidJsonFormat)
  {
    SkipsNonStarters(s, i, |s|, scan);
  }

  /** `parseValue` runs from cursor `f` at some point while parsing a
      value from `i`: `f` is `i` itself, or a cursor the parse moves to
      after skipping a character that cannot start a value, or the start of
      an element or of a member's value that the loops reach after every
      earlier element and member has parsed. */
  ghost predicate ReachesValue(s: string, i: nat, f: nat, scan: NumberScanner)
    requires i <= |s|
    decreases |s| - i, 1
  {
    f == i || (SkipSpace(s, i) < |s| && ReachesDispatch(s, SkipSpace(s, i), f, scan))
  }

  /** The same once `>>` has read the character at `j`. */
  ghost predicate ReachesDispatch(s: string, j: nat, f: nat, scan: NumberScanner)
    requires j < |s|
    decreases |s| - j, 0
  {
    if s[j] == '[' then ReachesElements(s, j + 1, f, scan)
    else if s[j] == '{' then ReachesMembers(s, j + 1, f, scan)
    else !StartsValue(s[j]) && ReachesValue(s, j + 1, f, scan)
  }

  /** The same inside the array loop entered at `i`. */
  ghost predicate ReachesElements(s: string, i: nat, f: nat, scan: NumberScanner)
    requires i <= |s|
    decreases |s| - i, 2
  {
    var k := SkipSpace(s, i);
    && k < |s| && s[k] != ']'
    && (|| ReachesValue(s, k, f, scan)
        || (&& ValueFrom(s, k, scan).Ok?
            && var e := ValueFrom(s, k, scan).value.end;
               && !(SkipSpace(s, e) < |s| && s[SkipSpace(s, e)] == ']')
               && ReachesElements(s, AfterRead(s, e), f, scan)))
  }

  /** The same inside the object loop entered at `i`. */
  ghost predicate ReachesMembers(s: string, i: nat, f: nat, scan: NumberScanner)
    requires i <= |s|
    decreases |s| - i, 2
  {
    var k := SkipSpace(s, i);
    && k < |s| && s[k] != '}'
    && if s[k] != '"' then ReachesMembers(s, k + 1, f, scan)
       else
         var at := AfterRead(s, ReadQuoted(s, k + 1).end);
         || ReachesValue(s, at, f, scan)
         || (&& ValueFrom(s, at, scan).Ok?
             && var e := ValueFrom(s, at, scan).value.end;
                && !(SkipSpace(s, e) < |s| && s[SkipSpace(s, e)] == '}')
                && ReachesMembers(s, AfterRead(s, e), f, scan))
  }

  /** Only white space is left from `f` to the end of the text. */
  predicate RunsOut(s: string, f: nat)
  {
    f <= |s| && SkipSpace(s, f) == |s|
  }

  /** Parsing fails exactly when the parse reaches a `parseValue` that finds
      only white space left: running out of text where a value is expected
      is the only error. */
  lemma ParseTextFails(s: string, scan: NumberScanner)
    ensures ParseText(s, scan).Err? <==> exists f :: ReachesValue(s, 0, f, scan) && RunsOut(s, f)
  {
    if ParseText(s, scan).Err? {
      ValueFailureReached(s, 0, scan);
    }
    if exists f :: ReachesValue(s, 0, f, scan) && RunsOut(s, f) {
      var f :| ReachesValue(s, 0, f, scan) && RunsOut(s, f);
      ReachedValueFails(s, 0, f, scan);
    }
  }

  /** Every failure comes from a reached `parseValue` that found only white
      space left. */
  lemma {:induction false} ValueFailureReached(s: string, i: nat, scan: NumberScanner)
    requires i <= |s|
    ensures ValueFrom(s, i, scan).Err? ==> exists f :: ReachesValue(s, i, f, scan) && RunsOut(s, f)
    decreases |s| - i, 1
  {
    if ValueFrom(s, i, scan).Err? {
      var j := SkipSpace(s, i);
      if j == |s| {
        assert ReachesValue(s, i, i, scan);
      } else {
        DispatchFailureReached(s, j, scan);
        var f :| ReachesDispatch(s, j, f, scan) && RunsOut(s, f);
        assert ReachesValue(s, i, f, scan);
      }
    }
  }

  lemma {:induction false} DispatchFailureReached(s: string, j: nat, scan: NumberScanner)
    requires j < |s|
    ensures Dispatch(s, j, scan).Err? ==> exists f :: ReachesDispatch(s, j, f, scan) && RunsOut(s, f)
    decreases |s| - j, 0
  {
    if Dispatch(s, j, scan).Err? {
      if s[j] == '[' {
        ElementsFailureReached(s, j + 1, [], scan);
        var f :| ReachesElements(s, j + 1, f, scan) && RunsOut(s, f);
        assert ReachesDispatch(s, j, f, scan);
      } else if s[j] == '{' {
        MembersFailureReached(s, j + 1, [], map[], scan);
        var f :| ReachesMembers(s, j + 1, f, scan) && RunsOut(s, f);
        assert ReachesDispatch(s, j, f, scan);
      } else {
        ValueFailureReached(s, j + 1, scan);
        var f :| ReachesValue(s, j + 1, f, scan) && RunsOut(s, f);
        assert ReachesDispatch(s, j, f, scan);
      }
    }
  }

  lemma {:induction false} ElementsFailureReached(s: string, i: nat, acc: seq<Value>, scan: NumberScanner)
    requires i <= |s|
    ensures ElementsFrom(s, i, acc, scan).Err? ==> exists f :: ReachesElements(s, i, f, scan) && RunsOut(s, f)
    decreases |s| - i, 2
  {
    if ElementsFrom(s, i, acc, scan).Err? {
      var k := SkipSpace(s, i);
      match ValueFrom(s, k, scan)
      case Err(_) =>
        ValueFailureReached(s, k, scan);
        var f :| ReachesValue(s, k, f, scan) && RunsOut(s, f);
        assert ReachesElements(s, i, f, scan);
      case Ok(p) =>
        ElementsFailureReached(s, AfterRead(s, p.end), acc + [p.value], scan);
        var f :| ReachesElements(s, AfterRead(s, p.end), f, scan) && RunsOut(s, f);
        assert ReachesElements(s, i, f, scan);
    }
  }

  lemma {:induction false} MembersFailureReached(s: string, i: nat, keys: seq<string>, m: map<string, Value>, scan: NumberScanner)
    requires i <= |s|
    ensures MembersFrom(s, i, keys, m, scan).Err? ==> exists f :: ReachesMembers(s, i, f, scan) && RunsOut(s, f)
    decreases |s| - i, 2
  {
    if MembersFrom(s, i, keys, m, scan).Err? {
      var k := SkipSpace(s, i);
      if s[k] != '"' {
        MembersFailureReached(s, k + 1, keys, m, scan);
        var f :| ReachesMembers(s, k + 1, f, scan) && RunsOut(s, f);
        assert ReachesMembers(s, i, f, scan);
      } else {
        var key := ReadQuoted(s, k + 1);
        var at := AfterRead(s, key.end);
        match ValueFrom(s, at, scan)
        case Err(_) =>
          ValueFailureReached(s, at, scan);
          var f :| ReachesValue(s, at, f, scan) && RunsOut(s, f);
          assert ReachesMembers(s, i, f, scan);
        case Ok(p) =>
          var (keys', m') := Inserted(keys, m, key.text, p.value);
          MembersFailureReached(s, AfterRead(s, p.end), keys', m', scan);
          var f :| ReachesMembers(s, AfterRead(s, p.end), f, scan) && RunsOut(s, f);
          assert ReachesMembers(s, i, f, scan);
      }
    }
  }

  /** Conversely, a reached `parseValue` that finds only white space left
      makes the whole parse fail: every loop passes the error on. */
  lemma {:induction false} ReachedValueFails(s: string, i: nat, f: nat, scan: NumberScanner)
    requires i <= |s|
    requires ReachesValue(s, i, f, scan) && RunsOut(s, f)
    ensures ValueFrom(s, i, scan).Err?
    decreases |s| - i, 1
  {
    if f != i {
      ReachedDispatchFails(s, SkipSpace(s, i), f, scan);
    }
  }

  lemma {:induction false} ReachedDispatchFails(s: string, j: nat, f: nat, scan: NumberScanner)
    requires j < |s|
    requires ReachesDispatch(s, j, f, scan) && RunsOut(s, f)
    ensures Dispatch(s, j, scan).Err?
    decreases |s| - j, 0
  {
    if s[j] == '[' {
      ReachedElementsFails(s, j + 1, [], f, scan);
    } else if s[j] == '{' {
      ReachedMembersFails(s, j + 1, [], map[], f, scan);
    } else {
      ReachedValueFails(s, j + 1, f, scan);
    }
  }

  lemma {:induction false} ReachedElementsFails(s: string, i: nat, acc: seq<Value>, f: nat, scan: NumberScanner)
    requires i <= |s|
    requires ReachesElements(s, i, f, scan) && RunsOut(s, f)
    ensures ElementsFrom(s, i, acc, scan).Err?
    decreases |s| - i, 2
  {
    var k := SkipSpace(s, i);
    if ReachesValue(s, k, f, scan) {
      ReachedValueFails(s, k, f, scan);
    } else {
      var p := ValueFrom(s, k, scan).value;
      ReachedElementsFails(s, AfterRead(s, p.end), acc + [p.value], f, scan);
    }
  }

  lemma {:induction false} ReachedMembersFails(s: string, i: nat, keys: seq<string>, m: map<string, Value>,
                                               f: nat, scan: NumberScanner)
    requires i <= |s|
    requires ReachesMembers(s, i, f, scan) && RunsOut(s, f)
    ensures MembersFrom(s, i, keys, m, scan).Err?
    decreases |s| - i, 2
  {
    var k := SkipSpace(s, i);
    if s[k] != '"' {
      ReachedMembersFails(s, k + 1, keys, m, f, scan);
    } else {
      var key := ReadQuoted(s, k + 1);
      var at := AfterRead(s, key.end);
      if ReachesValue(s, at, f, scan) {
        ReachedValueFails(s, at, f, scan);
      } else {
        var p := ValueFrom(s, at, scan).value;
        var (keys', m') := Inserted(keys, m, key.text, p.value);
        ReachedMembersFails(s, AfterRead(s, p.end), keys', m', f, scan);
      }
    }
  }

  /** `n`, `t` and `f` stand for `null`, `true` and `false` after only that
      one letter, wherever they occur first where a value is expected. */
  lemma KeywordLetters(s: string, i: nat, j: nat, scan: NumberScanner)
    requires i <= j < |s|
    requires forall k :: i <= k < j ==> !StartsValue(s[k])
    ensures s[j] == 'n' ==> ValueFrom(s, i, scan) == Ok(Parsed(JNull, j + 1))
    ensures s[j] == 't' ==> ValueFrom(s, i, scan) == Ok(Parsed(JBoolean(true), j + 1))
    ensures s[j] == 'f' ==> ValueFrom(s, i, scan) == Ok(Parsed(JBoolean(false), j + 1))
  {
    SkipsNonStarters(s, i, j, scan);
  }
}
