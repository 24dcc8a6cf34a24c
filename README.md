# jsonpp in Dafny

A model of the jsonpp library, a small C++ JSON value model with a compact
serializer and a hand-rolled lenient parser. It has five parts.

- **json_values.dfy** (`JsonValues`): the value model.
  - The six kinds: null, boolean, number, string, array and object.
  - Their `type()` tag and their typed accessors. Each accessor answers only
    on its own kind; everywhere else it fails with the library's exception.
  - `JsonArray`, an append-only vector with a bounds-checked `get`.
  - `JsonObject`, a map plus a vector of keys in first-insertion order.
    `add` overwrites an existing key's value and keeps its position;
    `get` answers "absent" rather than failing. The object invariant is
    proved: the key vector has no duplicates and lists exactly the map's
    keys.
- **json_serializer.dfy** (`JsonSerializer`): `serialize()` as a
  specification function and as the library's index loops, proved equal.
  - Output is one line.
  - Strings are quoted without escaping.
  - Containers join their members with a bare comma.
  - Objects write their members in key order.
- **json_parser.dfy** and **json_parser_lemmas.dfy** (`JsonParser`,
  `JsonParserLemmas`): `parse`/`parseValue`, in two forms.
  - A functional specification over the text and a cursor.
  - A stream class with `>>`, `get` and `putback`, and the library's
    imperative loops over that stream. Each loop is proved to agree with the
    specification on both the value and the final cursor.
  - Lenient behaviours proved: characters that cannot start a value are
    skipped; `n`, `t` and `f` stand for a whole keyword; strings are read raw
    up to the next quote or the end of the text; one character is consumed
    as the colon and one as each separator, unchecked; a missing `]` or `}`
    is accepted; trailing text is ignored.
  - The only failure: parsing fails exactly when the parse reaches a
    `parseValue` that finds only white space left before the end of the text.
- **json_roundtrip.dfy** (`JsonRoundTrip`): `parse(serialize(t)) == t`, with
  or without trailing text, for trees made only of strings, arrays and
  objects with no quote in any string or key. Also proved: where this stops.
  Keywords come back at the top level, as an object member's value and as
  an array element followed by another plain element (`[null,"x"]`). A
  keyword as the last element of an array does not: `[null]`, `[true]` and
  `[false]` fail to parse, and nested deeper the array swallows what follows
  it (`[[null],"x"]` reads as `[[null,"x"]]`). A serialized array or object
  with its closing bracket cut off still parses to the same tree.
- **json_leniency.dfy** (`JsonLeniency`): texts the serializer never writes
  that the parser still accepts, stated for plain trees (strings, arrays and
  objects with no quote in any string or key) as the values involved.
  - Any character that is not white space and not `]` separates two plain
    array elements.
  - Any character that is not white space stands for the colon after a key.
  - A key given twice keeps its first position and takes the second value.

Numbers stay abstract. The payload is a 64-bit pattern that is never looked
into. `oss << double` becomes a `NumberFormat` parameter. `iss >> num` becomes
a `NumberScanner` parameter: it returns a payload and how many characters
after the first one it consumed.

## Model

| member | source | states |
|---|---|---|
| JsonValues.TypeOf | json.h:15-22 | each kind reports its own tag and only that one: null, boolean, number, string, array, object, in both directions |
| JsonValues.AsString | json.h:62-67 | succeeds exactly on a string, with its contents; any other kind fails with "Not a string" (the default at json.h:29) |
| JsonValues.AsNumber | json.h:52-57 | succeeds exactly on a number, with its payload; any other kind fails with "Not a number" (json.h:30) |
| JsonValues.AsBoolean | json.h:42-47 | succeeds exactly on a boolean, with its value; any other kind fails with "Not a boolean" (json.h:31) |
| JsonValues.AsArray | json.h:72-78 | succeeds exactly on an array, with its elements; any other kind fails with "Not an array" (json.h:32) |
| JsonValues.AsObject | json.h:33 | fails with "Not an object" on every value, objects included, because the object class does not override it |
| JsonValues.Lookup | json.h:105-108 | a key's value when the key is present, and "absent" (no error) exactly when it is not |
| JsonValues.Inserted | json.h:94-99 | after `add(k, v)` the key holds `v`; an existing key leaves the key order unchanged; a new key is appended at its end |
| JsonValues.InsertLeavesOthers | json.h:98 | `add(k, v)` leaves every other key's lookup as it was |
| JsonValues.InsertKeepsKeysMatch | json.h:94-99 | `add` keeps the invariant: no duplicate key in the order, and the order and the map hold the same keys |
| JsonValues.InsertKeepsWellFormed | json.h:94-99 | adding a well-formed value to a well-formed object gives a well-formed object |
| JsonValues.InsertTwice | json.h:94-99 | adding a key a second time keeps one entry, at its first position, holding the second value |
| JsonValues.JsonArray.constructor | json.h:74 | a new array is empty |
| JsonValues.JsonArray.Add | json.h:75 | appends: the length grows by one, the new element is last, earlier elements are unchanged |
| JsonValues.JsonArray.Get | json.h:79-84 | element `i` when `i` is below the size, "Index out of range" otherwise |
| JsonValues.JsonObject.constructor | json.h:92 | a new object has no keys and satisfies the invariant |
| JsonValues.JsonObject.Add | json.h:94-99 | keeps the invariant; overwrites or appends as `Inserted` says; the key then maps to `v` and no other key changes |
| JsonValues.JsonObject.Get | json.h:105-108 | the stored value when the key is present, nothing (not an error) when it is absent |
| JsonSerializer.ElementsTextSnoc | json.cpp:23-26 | one loop turn: a comma before every element but the first, then the element's text |
| JsonSerializer.MembersTextSnoc | json.cpp:34-38 | one loop turn: a comma before every member but the first, then quote, key, quote, colon and the value's text |
| JsonSerializer.Serialized | json.cpp:8-41 | the text of every value but a number has at least two characters: `null`, `true`, `false` or delimited text |
| JsonSerializer.SerializedDelimited | json.cpp:14-41 | a string's text is in quotes, an array's in brackets, an object's in braces; a keyword starts with its own letter (json.h:39 and json.h:46) |
| JsonSerializer.ElementsTextEmpty | json.cpp:23-26 | the joined elements are empty exactly when there is no element, or one whose text is empty: with two or more there is a comma |
| JsonSerializer.MembersText | json.cpp:34-38 | the joined members are empty exactly when there is no key |
| JsonSerializer.Serialize | json.h:28 | the serialization of any well-formed value: `null`, `true`/`false`, the number's text, a raw quoted string, or a container's text |
| JsonSerializer.SerializeArray | json.cpp:20-29 | `[`, the elements' texts joined by commas, `]` |
| JsonSerializer.SerializeObject | json.cpp:31-41 | `{`, each key in key order as `"key":value`, joined by commas, `}` |
| JsonSerializer.OnlyPayloadCharacters | json.cpp:8-41 | every output character is one of `[]{},:"`, a keyword letter, or came from a string, a key or a number's text; in particular there is no line break of the writer's own |
| JsonSerializer.ElementsPayloadCharacters | json.cpp:20-29 | the same for the joined elements |
| JsonSerializer.MembersPayloadCharacters | json.cpp:31-41 | the same for the joined members |
| JsonParser.SkipSpace | json.cpp:52 | `>>` lands on the first character at or after the cursor that is not white space, or at the end of the text |
| JsonParser.SkipSpaceSkipsSpaces | json.cpp:52 | everything `>>` passes over is white space |
| JsonParser.AfterRead | json.cpp:70 | after one `>>` the cursor is just past the next non-space character, or at the end of the text |
| JsonParser.ReadQuoted | json.cpp:58 | the raw-string loop never reads past the text, and the cursor moves at least as far as the text read |
| JsonParser.ReadQuotedIsRaw | json.cpp:56-59 | a string is exactly the characters before the next quote, undecoded; the cursor lands after that quote, or at the end of an unterminated string |
| JsonParser.ReadQuotedStep | json.cpp:58 | one turn of the raw-string loop keeps a character that is not a quote and goes on after it |
| JsonParser.NumberAt | json.cpp:60-64 | the number branch, after the putback, yields a number and moves the cursor past at least the first character, without leaving the text |
| JsonParser.ValueFrom | json.cpp:50-90 | a parsed value ends strictly after the cursor it starts from, within the text; the only error is "Invalid JSON format" |
| JsonParser.Dispatch | json.cpp:52-88 | the same once a character has been read |
| JsonParser.ElementsFrom | json.cpp:65-73 | the array loop stays within the text, never moves back, and fails only with "Invalid JSON format" |
| JsonParser.MembersFrom | json.cpp:74-86 | the same for the object loop |
| JsonParser.ValueFromWellFormed | json.cpp:50-90 | every tree the parser builds keeps the object invariant |
| JsonParser.DispatchWellFormed | json.cpp:52-88 | the same from a read character |
| JsonParser.ElementsWellFormed | json.cpp:65-73 | the array loop only appends: the elements already read stay a prefix of the result, which is well formed |
| JsonParser.MembersWellFormed | json.cpp:74-86 | the object loop only adds: the keys already read stay a prefix of the key order, and the object is well formed |
| JsonParser.ParseText | json.cpp:45-48 | `parse` succeeds exactly when a value can be read from the start; its result is well formed; its only error is "Invalid JSON format" |
| JsonParser.InputStream.constructor | json.cpp:46 | a stream over the text with the cursor at its start |
| JsonParser.InputStream.Read | json.cpp:52 | `>>` on a character: skips white space and reads the next character, or reports the end of the text |
| JsonParser.InputStream.Get | json.cpp:58 | `get`: one raw character, or the end of the text |
| JsonParser.InputStream.Putback | json.cpp:61 | `putback` moves the cursor back by one |
| JsonParser.InputStream.ReadNumber | json.cpp:62-63 | `>>` on a number moves the cursor as the number branch of the specification does |
| JsonParser.InputStream.ReadQuotedText | json.cpp:57-58 | the `get` loop reads what `ReadQuoted` says and stops where it says |
| JsonParser.Parse | json.cpp:45-48 | `parse` returns the specification's result |
| JsonParser.ParseValue | json.cpp:50-90 | the `>>` loop gives the specification's value and final cursor, or its error |
| JsonParser.ParseArray | json.cpp:65-73 | the array loop, building a `JsonArray` by `add`, gives the specification's array and final cursor, or its error |
| JsonParser.ParseObject | json.cpp:74-86 | the object loop, building a `JsonObject` by `add`, gives the specification's object and final cursor, or its error |
| JsonParserLemmas.SkipSpaceOverSpaces | json.cpp:52 | `>>` from anywhere inside a run of white space lands where it would from the run's end |
| JsonParserLemmas.SkipsNonStarters | json.cpp:52-88 | characters that cannot start a value are skipped: parsing before them equals parsing after them |
| JsonParserLemmas.NoValueFails | json.cpp:89 | when no character left can start a value, parsing fails with "Invalid JSON format" |
| JsonParserLemmas.ParseTextFails | json.cpp:45-89 | `parse` fails exactly when the parse reaches a `parseValue` (at the start, after skipped characters, at an element or at a member's value) from which only white space is left |
| JsonParserLemmas.ValueFailureReached | json.cpp:50-89 | every failure of `parseValue` comes from such a reached cursor |
| JsonParserLemmas.DispatchFailureReached | json.cpp:52-88 | the same from a read character |
| JsonParserLemmas.ElementsFailureReached | json.cpp:65-73 | the same inside the array loop |
| JsonParserLemmas.MembersFailureReached | json.cpp:74-86 | the same inside the object loop |
| JsonParserLemmas.ReachedValueFails | json.cpp:50-89 | conversely, a reached cursor with only white space left makes `parseValue` fail |
| JsonParserLemmas.ReachedDispatchFails | json.cpp:52-88 | the same from a read character |
| JsonParserLemmas.ReachedElementsFails | json.cpp:65-73 | the same inside the array loop, which passes the error on |
| JsonParserLemmas.ReachedMembersFails | json.cpp:74-86 | the same inside the object loop, which passes the error on |
| JsonParserLemmas.MembersSkipToQuote | json.cpp:76-77 | inside an object, characters before a key that are neither `"` nor `}` are skipped: the loop before them equals the loop after them |
| JsonParserLemmas.KeywordLetters | json.cpp:53-55 | `n`, `t` and `f` give null, true and false after consuming only that one letter, after any skipped characters |
| JsonRoundTrip.ValueRoundTrip | json.cpp:50-90 | the serialized text of a plain tree, wherever it sits in the text, is parsed back to the tree and the cursor stops right after it |
| JsonRoundTrip.StringRoundTrip | json.cpp:56-59 | a quoted string with no quote inside reads back as itself |
| JsonRoundTrip.ArrayRoundTrip | json.cpp:65-73 | a serialized array of plain trees reads back as itself |
| JsonRoundTrip.ObjectRoundTrip | json.cpp:74-86 | a serialized object of plain trees reads back as itself, with the same key order |
| JsonRoundTrip.ElementsRoundTrip | json.cpp:67-72 | the array loop reads back the remaining elements and stops after the closing bracket |
| JsonRoundTrip.MembersRoundTrip | json.cpp:76-85 | the object loop rebuilds the remaining members in key order and stops after the closing brace |
| JsonRoundTrip.KeyRoundTrip | json.cpp:79-80 | a key is read back raw and the character after its closing quote is taken as the colon |
| JsonRoundTrip.RoundTripWithTrailing | json.cpp:45-48 | `parse(serialize(t) + rest) == t` for plain trees: anything after the value is ignored |
| JsonRoundTrip.RoundTrip | json.cpp:45-48 | `parse(serialize(t)) == t` for plain well-formed trees |
| JsonRoundTrip.TopLevelKeywordRoundTrip | json.cpp:53-55 | `null`, `true` and `false` on their own parse back, since the letters after the first are trailing text |
| JsonRoundTrip.KeywordInArrayDoesNotRoundTrip | json.cpp:65-73 | the round trip fails for a keyword as the last element of an array: `[null]`, `[true]` and `[false]` all give "Invalid JSON format" at the top level |
| JsonRoundTrip.KeywordThenElementRoundTrip | json.cpp:65-73 | a keyword followed by any plain element does round-trip: `[null,"x"]` reads back as itself, because the keyword's second letter is the separator and its other letters start no value |
| JsonRoundTrip.KeywordElement | json.cpp:67-71 | a keyword followed by `,` in an array is read from its first letter, its second letter is taken as the separator, and none of its later letters or the `,` can start a value |
| JsonRoundTrip.KeywordInObjectRoundTrip | json.cpp:76-85 | a one-member object whose value is a keyword does round-trip, for any key without a quote: the keyword's second letter is the separator and the rest is skipped before `}` |
| JsonRoundTrip.KeywordAdded | json.cpp:79-82 | in such an object the member is added after the keyword's first letter, and the characters left before `}` are neither quotes nor braces |
| JsonRoundTrip.KeywordInArrayFails | json.cpp:67-71 | why: the keyword's second letter is taken for the separator, and the rest holds nothing that can start a value |
| JsonRoundTrip.MissingBracketAccepted | json.cpp:67-72 | a serialized array without its closing `]` parses to the same array: the loop ends at the end of the text |
| JsonRoundTrip.MissingBraceAccepted | json.cpp:76-85 | a serialized object without its closing `}` parses to the same object |
| JsonLeniency.ElementStep | json.cpp:67-71 | a plain element followed by any character that is neither white space nor `]` is added, and the array loop goes on after that character |
| JsonLeniency.ElementEnd | json.cpp:67-73 | a plain element followed by `]` or by the end of the text completes the array, and the cursor stops past the `]` |
| JsonLeniency.MemberStep | json.cpp:76-83 | a member with a key without a quote and a plain value, followed by any character that is neither white space nor `}` is added to the object, and the object loop goes on after that character |
| JsonLeniency.MemberEnd | json.cpp:76-86 | a member with a key without a quote and a plain value, followed by `}` or by the end of the text is added and completes the object |
| JsonLeniency.AnySeparator | json.cpp:67-71 | for plain trees `a` and `b`, `[a` c `b]` parses to the array of `a` and `b` for every character c that is neither white space nor `]` |
| JsonLeniency.AnyColon | json.cpp:78-81 | for a key without a quote and a plain tree `v`, `{"key"` c `v}` parses to the one-member object for every character c that is not white space |
| JsonLeniency.DuplicateKey | json.cpp:76-85 | an object text naming a key without a quote twice, with plain values, parses to one member with the key in its first position and the second value |

## Left out

- Number text: `oss << double` and `iss >> num` are floating-point and locale behaviour. They are parameters of the model. The round trip therefore covers trees without numbers.
- Stream state: a failed `iss >> num` sets the stream's failbit, after which every later read fails. The model's scanner always succeeds and always moves at least one character. Apart from that, the state of the stream is only "characters remain" or "at the end".
- The character kept after a failed `>>`: at the end of the text the C++ loops test the old value of `ch`. Every such test ends the loop the same way, so this is folded into "end of text".
- `shared_ptr`, `enable_shared_from_this` and `asArray`'s self pointer: the tree is a datatype value, and `AsArray` returns the elements rather than a pointer to the same array. Nothing models sharing or aliasing between trees.
- `std::unordered_map` hashing and iteration order: a Dafny `map`. Only the key vector orders anything.
- Exceptions are `Result` values; `JsonObject::get`'s null pointer is `None`.
- `putback` at the very start of the stream cannot happen in `parseValue`, which only puts back a character it has just read. `Putback` therefore requires that a character was read.
- JsonSerializer.MembersText: for a key with no map entry it writes an empty value text instead of failing as `values_.at` would. Such a key never occurs in a well-formed object, and `SerializeObject` requires a well-formed object.
- JsonRoundTrip.RoundTrip: stated for trees with no null, boolean or number and no quote in any string or key. `KeywordInArrayDoesNotRoundTrip` shows that a keyword as the last element of an array breaks it (an error at the top level, a different tree when the array is nested); `KeywordThenElementRoundTrip` covers a keyword followed by one plain element; `KeywordInObjectRoundTrip` covers the one-member object with a keyword value, but mixed trees with keywords are not covered. Numbers depend on the abstract format and scanner.
- Characters: the library reads a `std::string` byte by byte, and each model character stands for one byte of it. Text outside ASCII must therefore be given to the model byte by byte (one character per UTF-8 byte); given as whole Unicode characters, `["a"é]` parses to `["a"]` in the model, while the library takes the first byte of `é` for the separator and then fails.
- Unlike a strict JSON parser and writer, the library does the following, and the model does the same:
  - strings and keys are neither escaped when written nor decoded when read;
  - keywords are recognised by their first letter only;
  - text after the first value is never rejected;
  - only a digit or `-` starts a number.
- Pretty-printing and escape handling do not exist in the library and are not modelled.
