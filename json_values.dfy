/** The JSON value model: the six value kinds, their type tags and typed
    accessors, and the two mutable containers (an append-only array and an
    object that remembers the first-insertion order of its keys). */
module JsonValues {

  datatype Option<T> = None | Some(value: T)

  /** Every way an operation of the library can fail; each stands for the
      exception the library throws. */
  datatype JsonError =
    | NotAString        // runtime_error("Not a string")
    | NotANumber        // runtime_error("Not a number")
    | NotABoolean       // runtime_error("Not a boolean")
    | NotAnArray        // runtime_error("Not an array")
    | NotAnObject       // runtime_error("Not an object")
    | IndexOutOfRange   // out_of_range("Index out of range")
    | InvalidJsonFormat // runtime_error("Invalid JSON format")

  datatype Result<T> = Ok(value: T) | Err(error: JsonError)

  /** A number payload. The library stores a `double`; the model keeps its
      64-bit pattern and never looks inside it. */
  type Double = bv64

  /** The type tag, in the declaration order of the library's enumeration. */
  datatype Type = Null | Boolean | Number | String | Object | Array

  /** A JSON tree. An object carries the map from keys to values and,
      separately, the keys in the order they were first inserted. */
  datatype Value =
    | JNull
    | JBoolean(b: bool)
    | JNumber(n: Double)
    | JString(s: string)
    | JArray(elems: seq<Value>)
    | JObject(keys: seq<string>, m: map<string, Value>)

  /** `type()`: the tag of the kind the value belongs to. */
  function TypeOf(v: Value): (t: Type)
    ensures t == Null <==> v.JNull?
    ensures t == Boolean <==> v.JBoolean?
    ensures t == Number <==> v.JNumber?
    ensures t == String <==> v.JString?
    ensures t == Array <==> v.JArray?
    ensures t == Object <==> v.JObject?
  {
    match v
    case JNull => Null
    case JBoolean(_) => Boolean
    case JNumber(_) => Number
    case JString(_) => String
    case JArray(_) => Array
    case JObject(_, _) => Object
  }

  /** `asString()`: only a string answers; every other kind throws. */
  function AsString(v: Value): (r: Result<string>)
    ensures r.Ok? <==> TypeOf(v) == String
    ensures r.Ok? ==> v == JString(r.value)
    ensures r.Err? ==> r.error == NotAString
  {
    if v.JString? then Ok(v.s) else Err(NotAString)
  }

  /** `asNumber()`: only a number answers; every other kind throws. */
  function AsNumber(v: Value): (r: Result<Double>)
    ensures r.Ok? <==> TypeOf(v) == Number
    ensures r.Ok? ==> v == JNumber(r.value)
    ensures r.Err? ==> r.error == NotANumber
  {
    if v.JNumber? then Ok(v.n) else Err(NotANumber)
  }

  /** `asBoolean()`: only a boolean answers; every other kind throws. */
  function AsBoolean(v: Value): (r: Result<bool>)
    ensures r.Ok? <==> TypeOf(v) == Boolean
    ensures r.Ok? ==> v == JBoolean(r.value)
    ensures r.Err? ==> r.error == NotABoolean
  {
    if v.JBoolean? then Ok(v.b) else Err(NotABoolean)
  }

  /** `asArray()`: only an array answers, with its elements; every other
      kind throws. */
  function AsArray(v: Value): (r: Result<seq<Value>>)
    ensures r.Ok? <==> TypeOf(v) == Array
    ensures r.Ok? ==> v == JArray(r.value)
    ensures r.Err? ==> r.error == NotAnArray
  {
    if v.JArray? then Ok(v.elems) else Err(NotAnArray)
  }

  /** `asObject()`: the object class does not override the default, so this
      accessor throws on every value, objects included. */
  function AsObject(v: Value): (r: Result<(seq<string>, map<string, Value>)>)
    ensures r.Err? && r.error == NotAnObject
  {
    Err(NotAnObject)
  }

  /** No element occurs twice. */
  predicate NoDuplicates<T(==)>(s: seq<T>)
  {
    forall i, j :: 0 <= i < j < |s| ==> s[i] != s[j]
  }

  /** The object invariant: the key order lists every key of the map,
      exactly once, and nothing else. */
  predicate KeysMatch(keys: seq<string>, m: map<string, Value>)
  {
    && NoDuplicates(keys)
    && (forall k :: k in keys ==> k in m)
    && (forall k :: k in m ==> k in keys)
  }

  /** Every object in the tree keeps its invariant. */
  predicate WellFormed(v: Value)
    decreases v
  {
    match v
    case JArray(es) => forall i :: 0 <= i < |es| ==> WellFormed(es[i])
    case JObject(keys, m) => KeysMatch(keys, m) && forall k :: k in m ==> WellFormed(m[k])
    case _ => true
  }

  /** `JsonObject::get`: the value stored under a key, or nothing when the
      key is absent (a null pointer, not an exception). */
  function Lookup(m: map<string, Value>, key: string): (r: Option<Value>)
    ensures r.Some? <==> key in m
    ensures r.Some? ==> r.value == m[key]
  {
    if key in m then Some(m[key]) else None
  }

  /** `JsonObject::add` on the pair of fields: the value is stored under the
      key in every case, and the key joins the order only when it is new. */
  function Inserted(keys: seq<string>, m: map<string, Value>, key: string, v: Value)
    : (r: (seq<string>, map<string, Value>))
    ensures Lookup(r.1, key) == Some(v)
    ensures key in m ==> r.0 == keys
    ensures key !in m ==> r.0 == keys + [key]
  {
    (if key in m then keys else keys + [key], m[key := v])
  }

  /** An insertion leaves every other key's entry as it was. */
  lemma InsertLeavesOthers(keys: seq<string>, m: map<string, Value>, key: string, v: Value)
    ensures forall k :: k != key ==> Lookup(Inserted(keys, m, key, v).1, k) == Lookup(m, k)
  {
  }

  /** An insertion keeps the object invariant. */
  lemma InsertKeepsKeysMatch(keys: seq<string>, m: map<string, Value>, key: string, v: Value)
    requires KeysMatch(keys, m)
    ensures KeysMatch(Inserted(keys, m, key, v).0, Inserted(keys, m, key, v).1)
  {
    var r := Inserted(keys, m, key, v);
    if key !in m {
      assert key !in keys;
      assert forall k :: k in r.0 ==> k == key || k in keys;
    }
  }

  /** Adding a well-formed value to a well-formed object gives a
      well-formed object. */
  lemma InsertKeepsWellFormed(keys: seq<string>, m: map<string, Value>, key: string, v: Value)
    requires WellFormed(JObject(keys, m)) && WellFormed(v)
    ensures WellFormed(JObject(Inserted(keys, m, key, v).0, Inserted(keys, m, key, v).1))
  {
    assert Inserted(keys, m, key, v).1 == m[key := v];
  }

  /** A second insertion under the same key keeps one entry, holding the
      second value, at the key's first position. */
  lemma {:induction false} InsertTwice(keys: seq<string>, m: map<string, Value>, key: string, v1: Value, v2: Value)
    requires KeysMatch(keys, m)
    ensures var once := Inserted(keys, m, key, v1);
            var twice := Inserted(once.0, once.1, key, v2);
            && twice.0 == once.0
            && Lookup(twice.1, key) == Some(v2)
            && twice.1.Keys == once.1.Keys
            && (forall i, j :: 0 <= i < |twice.0| && 0 <= j < |twice.0| && twice.0[i] == key && twice.0[j] == key ==> i == j)
  {
    var once := Inserted(keys, m, key, v1);
    assert KeysMatch(once.0, once.1);
  }

  /** `JsonArray`: an append-only vector of values. */
  class JsonArray {
    var values: seq<Value>

    constructor ()
      ensures values == []
    {
      values := [];
    }

    function Size(): (n: nat)
      reads this
      ensures n == |values|
    {
      |values|
    }

    /** `add`: appends at the end; earlier elements stay where they were. */
    method Add(v: Value)
      modifies this
      ensures values == old(values) + [v]
      ensures Size() == old(Size()) + 1
      ensures Get(old(Size())) == Ok(v)
      ensures forall i :: 0 <= i < old(Size()) ==> Get(i) == old(Get(i))
    {
      values := values + [v];
    }

    /** `get`: the element at a 0-based position, or an out-of-range error
        once the position reaches the length. */
    function Get(index: nat): (r: Result<Value>)
      reads this
      ensures index < |values| ==> r == Ok(values[index])
      ensures index >= |values| ==> r == Err(IndexOutOfRange)
    {
      if index < |values| then Ok(values[index]) else Err(IndexOutOfRange)
    }
  }

  /** `JsonObject`: a map from keys to values plus the first-insertion order
      of the keys. */
  class JsonObject {
    var keys: seq<string>
    var values: map<string, Value>

    ghost predicate Valid()
      reads this
    {
      KeysMatch(keys, values)
    }

    constructor ()
      ensures Valid() && keys == [] && values == map[]
    {
      keys := [];
      values := map[];
    }

    /** `add`: overwrites the value of an existing key and leaves the key
        order alone, or stores a new key and appends it to the order. */
    method Add(key: string, v: Value)
      requires Valid()
      modifies this
      ensures Valid()
      ensures (keys, values) == Inserted(old(keys), old(values), key, v)
      ensures old(key in values) ==> keys == old(keys)
      ensures old(key !in values) ==> keys == old(keys) + [key]
      ensures Get(key) == Some(v)
      ensures forall k :: k != key ==> Get(k) == old(Get(k))
    {
      if key !in values {
        keys := keys + [key];
      }
      values := values[key := v];
    }

    /** `get`: the value under a key, or nothing (never an error) when the
        key is absent. */
    function Get(key: string): (r: Option<Value>)
      reads this
      ensures r.Some? <==> key in values
      ensures r.Some? ==> r.value == values[key]
    {
      Lookup(values, key)
    }
  }
}
