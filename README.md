# Sekvap codec, modelled in Dafny

Sekvap is a one-line text format for a value followed by key/value
attributes, such as `myValue;key1=val1;key2=val2`. A reserved character in a
key or value is escaped by writing it twice. The Java class
`SekvapLanguage` implements the codec:
- `Parse` turns a text into an ordered list of (key, value-or-null) entries.
- `Serialize` turns such a list back into a text.
- `EscapeKey` and `EscapeValue` do the doubling.
- `IndexOfAny` and `CharsContain` are the search loops behind them.

This project models that class operation by operation, in the form the code
has:

- `JavaText` models the parts of `java.lang` the class uses:
  - `String.substring(begin, end)`, which returns a `Result` and fails with
    `StringIndexOutOfBoundsException` unless `0 <= begin <= end <= length`;
  - a `StringBuilder` class whose `Append` extends its text.

  Java exceptions are the `Error` values `IllegalArgument` and
  `StringIndexOutOfBounds`.
- `Entries`:
  - `Entry`, a key with an `Option` value, where `None` is Java's `null`;
  - `EntryList`, the `ArrayList` that `Parse` fills;
  - `AddToResult`.
- `Search` holds the two search loops as methods whose postconditions say
  what they find.
- `Escaping`:
  - `Doubled` is the specification of the doubling.
  - `EscapedKey` and `EscapedValue` give the text each escaper appends.
  - `EscapeKey` and `EscapeValue` are methods that append to a
    `StringBuilder`, fast path and slow loop included, and are proved to
    append exactly that text.
- `Serializer`: `Serialized` is what `Serialize` returns:
  - the escaped value of the first entry keyed "Value";
  - then `;` escaped-key `=` escaped-value for every other entry, in list
    order;
  - or `IllegalArgumentException` for a null list or an empty key.

  The method `Serialize` runs the code's two loops and is proved to return
  `Serialized(values)`. The first loop is the method `WriteLeadingValue`;
  the body of the second loop is the method `WriteEntry`.
- `Parser`:
  - `Step` is one pass of the scanning loop, including the index bumps inside
    the body and the loop's own `i++`.
  - `Scan` runs `Step` until the index passes the end of the text.
  - `Parsed` is what `Parse` returns.
  - The method `Parse` keeps the code's variables (`isStart`, `isKey`,
    `isValue`, `isEnd`, `captureStartIndex`, `capturedKey`, the result list)
    and its loop, and is proved to return `Parsed(value)`.

The model follows the code, not the format's own description. Where the two
differ, the code's behaviour is modelled and proved:

- **No unescaping.** A doubled `;` or `=` is never turned back into one
  character. Apart from the fixed key "Value" of the leading entry, every key
  and every non-null value `Parse` returns is a verbatim slice of the input
  (`ParseTakesSlices`). `"a;;b"` parses to `("Value", "a;;b")`, not to
  `("Value", "a;b")` (`ParseKeepsDoubledSemicolon`).
- **Length passed as end index.** Every capture calls
  `substring(captureStartIndex, captureLength)`, with the length where the end
  index belongs. This is right only for the leading segment, which starts at
  0. Later segments are cut short, so `"x;flag"` yields the key `"fl"`
  (`ParseTruncatesKey`). When the start lies past the length, the call throws
  `StringIndexOutOfBoundsException`: `"a=b"` and `"v;key=val"` both throw
  (`ParseKeyValueThrows`, `ParseKeyValueAfterLeadThrows`). So `Parse` does
  throw after its null check, but only with that exception (`Parse`'s third
  postcondition).
- **The "Value" entry is not always produced.** A `;;` pair read as the
  last two characters while the leading segment is still open skips the
  end-of-input pass, so `"a;;"` parses to an empty list
  (`ParseDropsTrailingDoubledSemicolon`). This is because the leading-segment
  branch and the key branch both bump the index on the same `;;`, three steps
  in all. A `;;` that ends a key segment advances by two and the end pass
  still runs: `"x;k;;"` parses to `[("Value", "x"), ("k", null)]`
  (`ParseKeepsEndAfterKeyPair`). A single
  `=` in the leading segment ends it without a "Value" entry: `"=x"` parses to
  `[("", "")]` (`ParseLeadingEquals`).
- **Skipped character.** After the leading segment ends, the next character
  is skipped without being examined: the `=` in `"v;=x"` starts no value, and
  the text parses to `[("Value", "v"), ("", null)]` (`ParseSkipsAfterLead`).
- **`=` after a null value.** `Serialize` always writes `=`, so a null value
  gives `key=` (`NullValueKeepsEquals`), the same text as an empty value.
- **`=` doubled in values.** `EscapeValue`'s slow path tests the key
  characters, so a value that contains a `;` has its `=` doubled as well
  (`EscapedValueLength`).

## Model

| member | source | states |
|---|---|---|
| JavaText.Substring | SekvapLanguage.java:125-130 | succeeds exactly when 0 <= begin <= end <= length, otherwise fails with StringIndexOutOfBounds |
| JavaText.StringBuilder.Append | SekvapLanguage.java:178-180 | the builder's text becomes the old text followed by the argument |
| Entries.AddToResult | SekvapLanguage.java:58-61 | the list becomes the old list with the entry (key, value) added at the end |
| Search.IndexOfAny | SekvapLanguage.java:192-204 | -1 exactly when no character of the text is in `chars`; otherwise the least index whose character is in `chars` |
| Search.CharsContain | SekvapLanguage.java:206-214 | true exactly when `c` occurs in `chars` |
| Escaping.DoubledAppend | SekvapLanguage.java:233-242 | escaping a concatenation is the concatenation of the escaped parts, so the slow loop may escape one character at a time |
| Escaping.DoubledSnoc | SekvapLanguage.java:233-242 | escaping one more character appends it once, or twice when it is reserved |
| Escaping.DoubledLength | SekvapLanguage.java:233-242 | the escaped text is longer than the input by exactly the number of reserved characters |
| Escaping.DoubledUnchanged | SekvapLanguage.java:221-230 | a text without reserved characters is unchanged by the slow path, so the fast path appends the same text |
| Escaping.DoubledKeeps | SekvapLanguage.java:272-281 | every character of the input occurs in its escaped form |
| Escaping.DoubledInjective | SekvapLanguage.java:233-242 | two texts with the same escaped form are equal: escaping loses nothing |
| Escaping.EscapedValueInjective | SekvapLanguage.java:255-284 | two values that EscapeValue writes the same way are equal, across the fast and slow paths |
| Escaping.EscapedValueLength | SekvapLanguage.java:260-281 | a value with `;` grows by one character per `;` and per `=`; a value without `;` is written unchanged even if it holds `=` |
| Escaping.EscapeKey | SekvapLanguage.java:216-245 | an empty key throws IllegalArgument and appends nothing; any other key is appended with every `=` and `;` doubled |
| Escaping.EscapeValue | SekvapLanguage.java:255-284 | null appends nothing; otherwise appends the escaped value: verbatim without `;`, with `;` and `=` doubled when it holds a `;` |
| Serializer.FirstValueIndex | SekvapLanguage.java:163-172 | -1 exactly when no entry is keyed "Value"; otherwise the index of the first such entry |
| Serializer.BodyFailsIffEmptyKey | SekvapLanguage.java:174-182 | writing the keyed entries fails exactly when one of them has an empty key, and only with IllegalArgument |
| Serializer.WithoutPrefix | SekvapLanguage.java:174-176 | passing index i of the second loop adds entry i to the entries written, unless i is the skipped index |
| Serializer.WithoutIndex | SekvapLanguage.java:174-176 | every entry except the skipped one is among the entries the second loop writes, at its shifted index |
| Serializer.BodySkip | SekvapLanguage.java:175-176 | passing the skipped index writes nothing |
| Serializer.BodyStep | SekvapLanguage.java:177-181 | passing any other index appends that entry's text |
| Serializer.EmptyKeyRejected | SekvapLanguage.java:174-182 | an empty key at any index but the skipped one makes Serialize throw IllegalArgument |
| Serializer.WriteLeadingValue | SekvapLanguage.java:164-172 | the first loop finds the first "Value" entry (or -1) and appends its escaped value |
| Serializer.WriteEntry | SekvapLanguage.java:178-181 | one pass of the second loop appends the entry's text, or throws IllegalArgument after the `;` when the key is empty |
| Serializer.Serialize | SekvapLanguage.java:157-185 | returns `Serialized(values)`: IllegalArgument for null, the empty text for an empty list |
| Serializer.WithoutEmptyKey | SekvapLanguage.java:174-176 | the entries written have an empty key exactly when some entry other than the skipped one does |
| Serializer.SerializeFailsIffEmptyKey | SekvapLanguage.java:157-185 | Serialize throws exactly when an entry other than the leading "Value" has an empty key, and only IllegalArgument |
| Serializer.FirstValueIndexAppend | SekvapLanguage.java:164-172 | appending an entry does not move the leading "Value" unless there was none and the new entry is keyed "Value" |
| Serializer.HeadAppend | SekvapLanguage.java:164-172 | under the same condition the leading text stays the same |
| Serializer.WithoutAppend | SekvapLanguage.java:174-182 | an appended entry is written last |
| Serializer.SerializeAppend | SekvapLanguage.java:174-182 | appending an entry that is not taken as the leading value appends exactly its text; a later "Value" key is written as an ordinary key |
| Serializer.SerializeLeadingValue | SekvapLanguage.java:164-182 | a leading "Value" entry contributes its escaped value with no prefix, before all other entries |
| Serializer.SerializeEmptyList | SekvapLanguage.java:162-184 | an empty list serializes to the empty text |
| Serializer.SerializeSingle | SekvapLanguage.java:174-182 | a list of one ordinary entry serializes to `;key=value` |
| Serializer.NullValueKeepsEquals | SekvapLanguage.java:178-181 | a null value is still written after `=`: (f, null) writes `;f=` |
| Serializer.EscapesKeyEquals | SekvapLanguage.java:179-179 | an `=` inside a key is doubled: ("a=b", w) writes `;a==b=w` |
| Parser.Step | SekvapLanguage.java:96-146 | one pass advances the index by 1 to 3 and fails only with StringIndexOutOfBounds |
| Parser.Scan | SekvapLanguage.java:77-148 | the scan ends and fails only with StringIndexOutOfBounds |
| Parser.StepAppends | SekvapLanguage.java:96-146 | one pass keeps the entries found so far and adds at most one |
| Parser.ScanAppends | SekvapLanguage.java:77-148 | entries once added are never removed or changed |
| Parser.Parse | SekvapLanguage.java:68-150 | returns `Parsed(value)`: IllegalArgument exactly for null, otherwise a list or StringIndexOutOfBounds |
| Parser.ScanPlainRun | SekvapLanguage.java:96-146 | in the leading segment, characters other than `;` and `=` are passed over without effect |
| Parser.ParsePlain | SekvapLanguage.java:96-110 | a text without `;` and `=` parses to exactly [("Value", text)] |
| Parser.ParseEmpty | SekvapLanguage.java:77-110 | the empty text parses to exactly [("Value", "")] |
| Parser.ParseLeadingSegment | SekvapLanguage.java:96-110 | for `s;t` with s free of `;`/`=` and t not starting with `;`, the first entry is ("Value", s); for `s;` it is the only entry |
| Parser.SubstringIsSlice | SekvapLanguage.java:105-105 | a successful capture is a verbatim run of the input |
| Parser.StepKeepsSlices | SekvapLanguage.java:96-146 | one pass keeps every key "Value" or verbatim input, and every value null or verbatim input |
| Parser.ScanKeepsSlices | SekvapLanguage.java:77-148 | the same holds for the whole scan |
| Parser.ParseTakesSlices | SekvapLanguage.java:68-150 | nothing is unescaped: every key Parse returns is "Value" or a verbatim slice of the input, every value null or a verbatim slice |
| Parser.StepValueOnlyAfterEquals | SekvapLanguage.java:120-145 | a value becomes pending only on a `=` not followed by `=`, with its capture starting just after it; past the leading segment an entry added with no value pending has a null value |
| Parser.StepKeepsNoValue | SekvapLanguage.java:112-146 | past the leading segment with no value pending and no `=` in the rest of the text, a pass keeps no value pending and adds only null values |
| Parser.ScanKeepsNoValue | SekvapLanguage.java:77-148 | from such a state, every entry the rest of the scan adds has a null value, whatever `=` came earlier in the text |
| Parser.ScanLeadNoValue | SekvapLanguage.java:77-148 | from the leading segment with no `=` ahead, the scan yields the "Value" entry first (if any entry) and only null values after it |
| Parser.ParseWithoutEquals | SekvapLanguage.java:120-132 | without `=`, the first entry (if any) is keyed "Value" and every later entry has a null value |
| Parser.ParseKeepsDoubledSemicolon | SekvapLanguage.java:98-101 | "a;;b" parses to [("Value", "a;;b")]: the doubled `;` is kept |
| Parser.ParseTruncatesKey | SekvapLanguage.java:128-132 | "x;flag" parses to [("Value", "x"), ("fl", null)]: the key capture is cut short |
| Parser.ParseKeyValueThrows | SekvapLanguage.java:123-126 | "a=b" throws StringIndexOutOfBounds |
| Parser.ParseKeyValueAfterLeadThrows | SekvapLanguage.java:123-126 | "v;key=val" throws StringIndexOutOfBounds |
| Parser.ParseDropsTrailingDoubledSemicolon | SekvapLanguage.java:98-101 | "a;;" parses to the empty list: the end-of-input pass is skipped |
| Parser.ParseKeepsEndAfterKeyPair | SekvapLanguage.java:116-119 | "x;k;;" parses to [("Value", "x"), ("k", null)]: a `;;` closing a key segment advances by two, so the end-of-input pass still adds the key |
| Parser.ParseLeadingEquals | SekvapLanguage.java:138-145 | "=x" parses to [("", "")]: a single `=` ends the leading segment without a "Value" entry |
| Parser.ParseSkipsAfterLead | SekvapLanguage.java:102-110 | "v;=x" parses to [("Value", "v"), ("", null)]: the character after the leading segment's `;` is skipped, so its `=` starts no value |

## Left out

- The empty constructor (SekvapLanguage.java:54-56) and the one-argument overloads `EscapeKey(String)` and `EscapeValue(String)` are trivial wrappers that `Parse` and `Serialize` never call, so they are not part of this model.
- The escapers' return values are not modelled, because `Serialize` ignores them; only the text they append is.
- The escapers' `sb == null` paths are not modelled. They allocate a fresh builder with a capacity hint and are reached only through the one-argument overloads.
- A `null` element of the entry list is not modelled. In Java it raises a `NullPointerException` in `Serialize`.
- A `null` key is modelled as the empty key. Both fail the `"Value"` test and make `EscapeKey` throw `IllegalArgumentException`, so `Serialize` treats them alike.
- `captureEndIndex` is computed by `Parse` but never read, so it is left out.
- `isKey` stays a variable of the method `Parse`. It is left out of `ScanState`, because nothing sets it to false.
- Serializer.Serialize: on an exception the partly written builder is discarded with it. The model returns the exception alone, which is all a caller of `Serialize` can observe.
- No round-trip theorem (`Parse(Serialize(x)) == x`) is stated. It does not hold: `Parse` keeps escape pairs verbatim and misuses `substring`, and `Serialize` always writes `=`.
- Characters are opaque symbols. UTF-16 surrogates and Unicode are not modelled. An actual NUL character in the input reads the same as the end-of-input sentinel in the look-ahead, as in Java.
