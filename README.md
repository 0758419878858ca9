# MongoDB-to-DynamoDB exporter: the value encoder and its repair pass

The exporter reads every document of every collection of a MongoDB server. It writes each
document as one line of the form `{"Item": {field: {TAG: payload}}}`. The tags are those of
Amazon DynamoDB's AttributeValue encoding: `N`, `S`, `BOOL`, `NULL`, `L` and `M`. This
project models the part of `index.js` that builds that shape:

- `formatValue` picks a tag from the runtime kind of a value. The tests run in a fixed
  order and the first one that holds wins. Arrays and objects are encoded recursively.
- `formatDocument` walks a document's top-level fields in order, skips `_id`, and stores
  every other field's encoding under `Item`.
- `validateDocument` is a shallow repair pass. It rewrites in place each top-level `N` entry
  whose non-empty text does not parse to a finite number, turning it into `S` with the same
  text.

Modules:

- `JsValues` (`js_values.dfy`) holds the document values. A number is the 64 bits of an
  IEEE 754 double, so `Number.isFinite` is exact. The module also has `typeof`,
  `instanceof Date`, `Array.isArray` and `=== null`. `Host` bundles the library operations
  the code calls: `toString`, `parseFloat`, `toISOString` and `JSON.stringify`. They are
  passed in as parameters. `Sound(h)` states the few ECMAScript guarantees that the proofs
  rely on.
- `Entries` (`entries.dfy`) holds an object's own properties as a list in `Object.entries`
  order. `Put` models `obj[key] = value`: an existing key keeps its place and gets the new
  value; a new key goes at the end.
- `Encoder` (`encoder.dfy`) has `Encode`, the encoding written as one case per kind of
  value. `FormatValue` follows the source's chain of type tests and is proved equal to
  `Encode`.
- `Records` (`records.dfy`) has `formatDocument` and the `Document` object
  (`{"Item": ...}`). The object's `item` field is the entry list of `Item`.
- `Repair` (`repair.dfy`) has `validateDocument` as a method that changes `doc.item` in
  place, plus the properties of the pass.
- `Unmarshal` (`unmarshal.dfy`) is a decoder of the tagged shape. The encoder is checked
  against it as its inverse.
- `Scenarios` (`scenarios.dfy`) holds the per-document step (format, then validate) and
  worked documents.
- `ProtoKey` (`proto_key.dfy`) holds the finding below.

## Model

| member | source | states |
|---|---|---|
| JsValues.TypeOf | index.js:90-106 | `typeof` gives "object" exactly for dates, arrays, `null` and plain objects. So dates, arrays and `null` must be caught before the object test at line 106. "number", "string" and "boolean" each pick out one kind. |
| JsValues.IsFinite | index.js:91 | `Number.isFinite` on the bits of a double: a number is not finite exactly when it is NaN, +Infinity or -Infinity. |
| JsValues.IsDateInstance | index.js:100 | `value instanceof Date`: a date is an object to `typeof`. |
| JsValues.IsArray | index.js:102 | `Array.isArray(value)`: an array is an object to `typeof` and is not a date, so the test reaches only values the date test let through. |
| JsValues.IsNull | index.js:104 | `value === null`: `null` is an object to `typeof` and is neither a date nor an array. |
| JsValues.FiniteTextParsesFinite | index.js:90-92 | Under a sound host, the text that `toString` gives for a finite number is non-empty and `parseFloat` reads it as a finite number. |
| Entries.IndexOf | index.js:84 | Finds the first own property with the key, or -1 when the key is absent. Every earlier property has a different key. |
| Entries.Put | index.js:84 | `obj[key] = value`: a new key is added at the end. An existing key keeps its position, so the length is unchanged. The key set gains the key. Distinct keys stay distinct. Every entry is an old entry or the new one. |
| Entries.PutExisting | index.js:120 | With distinct keys, writing to the key at position i changes that entry alone. |
| Entries.FromEntries | index.js:107-110 | Filling a fresh object by assignment gives distinct keys and the same key set as the input. Every entry comes from the input. When the input keys are distinct, the result is exactly the input list. |
| Encoder.Encode | index.js:89-114 | The tag is `N` exactly for finite numbers, `BOOL` exactly for booleans, `NULL` exactly for `null`, `L` exactly for arrays and `M` exactly for plain objects. `S` is for strings, dates, non-finite numbers and fallback values. |
| Encoder.FormatValue | index.js:89-114 | The chain of `typeof`, `instanceof Date`, `Array.isArray` and `=== null` tests, with first match winning, computes `Encode`. So arrays never reach the `M` branch and `null` never reaches the `M` branch. |
| Encoder.FormatElements | index.js:102-103 | `value.map(formatValue)` gives the `L` tag of `Encode`: each element is encoded, and length and order are kept. |
| Encoder.FormatFields | index.js:106-111 | The `for...of` loop that assigns each encoded field into `formattedObj` gives the `M` tag of `Encode`. |
| Encoder.EncodeObject | index.js:106-111 | An object encodes to `M` with the same key set. With distinct keys (as an object's own keys are), each key keeps its position and its value is that field's recursive encoding. |
| Encoder.EncodeNumeralsFinite | index.js:90-95 | Under a sound host, every `N` tag at any depth of an encoding holds non-empty text that parses to a finite number. Non-finite numbers go to `S`. |
| Records.FormatItem | index.js:80-87 | `Item` has distinct keys. Its key set is the document's key set without `_id`, so `_id` never appears. |
| Records.FormatItemIsEncodedFields | index.js:80-87 | For a document (distinct keys), `Item` is exactly the fields other than `_id`, in document order, each mapped to its encoding. |
| Records.FormatDocument | index.js:80-87 | The loop with `continue` on `_id` returns a fresh `{"Item": ...}` whose `Item` is `FormatItem` of the document. |
| Repair.NeedsRepair | index.js:118 | The test `value.N && !Number.isFinite(parseFloat(value.N))`, with the truthiness of `value.N` as non-empty text. Only an `N` tag can need repair. Under a sound host, the texts "NaN", "Infinity" and "-Infinity" in an `N` tag always need it. |
| Repair.RepairValue | index.js:118-120 | After the pass, no entry is a non-empty `N` whose text fails to parse to a finite number. |
| Repair.Repaired | index.js:116-123 | `Item` after the pass: same length, every key kept at its position, and no entry needs repair any more. |
| Repair.RepairedChanges | index.js:116-123 | Keys, their order and their distinctness are kept. An entry changes exactly when it is an `N` with non-empty text that does not parse to a finite number, and it then becomes `S` with the same text. `S`, `BOOL`, `NULL`, `L` and `M` entries stay unchanged, as do `N` entries that parse and empty `N` entries. Whatever an `L` or `M` entry holds inside is left alone. |
| Repair.RepairIdempotent | index.js:116-123 | Running the pass twice gives the same result as running it once. |
| Repair.FormattedNeedsNoRepair | index.js:118 | Under a sound host, the repair condition holds for no field that `formatDocument` writes. |
| Repair.RepairOfFormattedIsNoOp | index.js:116-123 | Under a sound host, the pass leaves the output of `formatDocument` unchanged. |
| Repair.ValidateDocument | index.js:116-124 | The method walks a snapshot of `Item`'s entries and rewrites in place each entry that needs repair. It returns the same object. The new `Item` is the repaired old `Item`, and its keys stay distinct. |
| Unmarshal.DecodeEncode | index.js:89-114 | Decoding the encoding gives back any value that has its own tag. That covers strings, booleans, `null`, finite numbers other than -0, and arrays and objects built from them. Tags, payloads, array order, and object keys and order all survive. |
| Unmarshal.DecodeEncodeLosses | index.js:90-101 | What the encoding loses: -0 reads back as 0, NaN and -Infinity come back as the strings "NaN" and "-Infinity", and a date comes back as the string of its ISO text. |
| Scenarios.FormatAndValidate | index.js:63-64 | The per-document step (`formatDocument`, then `validateDocument`) writes out exactly the formatted `Item`, which has no `_id`. |
| Scenarios.ExampleDocument | index.js:80-114 | `{_id: "x1", name: "Ann", age: 30, active: true, tags: ["a","b"], meta: null}` becomes `name: S "Ann"`, `age: N "30"`, `active: BOOL true`, `tags: L [S "a", S "b"]`, `meta: NULL`, in that order. |
| Scenarios.ExampleFields | index.js:89-114 | The five non-`_id` fields of that document, each encoded. |
| Scenarios.ExampleNaNField | index.js:93-95 | A field holding NaN is written as `S "NaN"` and never as `N`. |
| Scenarios.ExampleShallowRepair | index.js:117-121 | A top-level `N "Infinity"` becomes `S "Infinity"`. The same tag inside a list is left as it is, and the list then still holds an `N` tag that does not parse to a finite number. |
| ProtoKey.AssignAsWritten | index.js:84 | `obj[key] = value` as written, with an object value: for the key `__proto__` the object's own entries stay as they were; any other key is stored as `Put` stores it. |
| ProtoKey.FromEntriesAsWritten | index.js:107-110 | Filling a fresh object by assignment as written gives distinct keys, and its key set is the input's key set without `__proto__`. |
| ProtoKey.EncodeAsWritten | index.js:89-114 | `formatValue` as written: objects still encode to `M` and arrays to `L` (same length), but an object's key set loses `__proto__`. Every other kind encodes as `Encode` does. |
| ProtoKey.NestedProtoFieldDropped | index.js:109 | An object whose only field is `__proto__` encodes to an empty `M` as written. Under `Encode`, which stores the field as an own property, it keeps the field. |
| ProtoKey.FormatItemAsWritten | index.js:80-87 | With the assignments as written, `Item`'s key set is the document's key set without `_id` and without `__proto__`. |
| ProtoKey.ProtoFieldDropped | index.js:84 | A document whose only field is `__proto__` gives an empty `Item` as written. When the field is stored as an own property, it appears under `Item`. |

## Findings

| source | as written | input that shows it | evidently intended | confidence | as-written member | corrected member |
|---|---|---|---|---|---|---|
| index.js:84 | `formattedDoc.Item[key] = formatValue(value)` with `key` equal to `__proto__` runs the `__proto__` setter inherited from `Object.prototype`. The encoded value becomes the prototype of `Item` and no field is stored. | A document read from the database with an own field named `__proto__`, e.g. `{"__proto__": "x"}`. | Every field other than `_id` appears under `Item`. | medium; not executed (it depends on the driver returning such a field as an own property) | ProtoKey.ProtoFieldDropped | Records.FormatItem |
| index.js:109 | `formattedObj[key] = formatValue(innerValue)` does the same inside a nested object: a field named `__proto__` is lost from the `M` map. | A nested object with an own field named `__proto__`, e.g. `{"__proto__": "x"}` as a field value. | Every field of a nested object appears under `M`. | medium; not executed (same dependency on the driver) | ProtoKey.NestedProtoFieldDropped | Encoder.Encode |

The rest of the model uses `Entries.Put`, which stores every key as an own property.

## Left out

- `exportAllDatabases` and `processCollection` (index.js:8-78) are not modelled. They cover the MongoDB connection, listing databases and collections, skipping `admin`/`local`/`config`, cursor iteration, output files, progress output and `global.gc()`. All of this is I/O and foreign library calls. Only the per-document step at lines 63-64 is modelled, as `Scenarios.FormatAndValidate`.
- The `console.warn` diagnostic (index.js:119) is not modelled. It is a side effect that does not affect the result.
- `JSON.stringify(validatedDoc) + '\n'` (index.js:65) is not modelled. It is a library serialisation of the tagged tree, and the model stops at that tree.
- `Number.prototype.toString`, `parseFloat`, `Date.prototype.toISOString` and `JSON.stringify` are not defined. They are fields of `Host`. The only facts assumed about them are those in `Sound`, which come from the ECMAScript standard.
- Encoder.Encode: the fallback branch (index.js:113) is given the host's `JSON.stringify` text as a string. Real `JSON.stringify` returns `undefined` for `undefined`, functions and symbols, and throws for BigInt. The model does not capture that missing payload or that exception.
- `toISOString` throws on an invalid date. Dates are modelled as valid time values in milliseconds.
- `Object.entries` puts integer-like keys first in ascending order. The model takes each entry list in that order already. Output order equals input order either way, so this ordering rule is not modelled.
- Sparse arrays (holes skipped by `map`) are not modelled. Arrays are dense sequences.
- A finite number's `toString` text does not always read back as the same number: -0 prints "0", which reads back as +0 (`Sound`, `Unmarshal.DecodeEncodeLosses`). The code parses that text once, at index.js:118, and only tests whether the result is finite.
- Non-finite numbers get the `toString` texts "NaN", "Infinity" and "-Infinity" (`Sound`).
