# hm2mqtt inbound payload path, modelled in Dafny

hm2mqtt bridges home-battery and solar controllers to an MQTT automation
platform. A device reports telemetry as one flat payload of `key=value`
tokens: `pe=87,w1=120,w2=0,...`.

This project models the code that turns such a payload into structured
records:

- **`parseMessage`** (src/parser.ts) splits the payload into a token map. It
  runs the device family's ordered message definitions over the map. Each
  definition whose `isMessage` predicate accepts the map produces one record,
  stamped with the device type, device id, a timestamp and the raw token map.
  The record is filed under the definition's publish path.
- **`applyMessageDefinition`** applies a definition's field table to a
  record, in order:
  - A single-key field decodes one token with its transform, or with
    `transformNumber` when it has none. The result goes to the key's entry
    in a fixed alias table, or to the field's own path.
  - A compound field passes several tokens to its transform. It is skipped
    with a warning when it has no transform, or when one of its tokens is
    missing.
- **`setValueAtPath`** writes a value into the record's tree of objects and
  arrays along a key path. It creates every missing intermediate node: an
  array when the next segment is a number or a string that `parseInt`
  accepts, an object otherwise.
- **`parseMessagePayload`** (src/mqttClient.ts) is the second, smaller
  tokenizer. It drops tokens without `=` and trims keys and values.

The modules follow the source:

- `JsText`: the JavaScript string built-ins used. These are `split` with a
  one-character separator, `trim`, the `parseInt` acceptance test, and the
  decimal form of an array index.
- `JsValue`: JavaScript values as a datatype. Objects and arrays both map
  property-key strings to values, because `a[5]` and `a["5"]` are the same
  property. A missing array index is a hole.
- `Parser`: src/parser.ts. Each source function is an imperative method with
  the source's loops. Each method is proved equal to a specification
  function:
  - `SetValueAtPath` against `SetAt`;
  - `ApplyMessageDefinition` against `ApplyFields`;
  - `ParseMessage` against `Parse`.
- `ParserLemmas`: what the parser promises, proved about those functions.
- `MqttClient`: `parseMessagePayload` as a method against `PayloadTokens`,
  its properties, and where it agrees or disagrees with the parser's own
  tokenizer.

A write through a node that is not an object or an array (a string, number,
boolean, null or undefined) raises a TypeError in compiled (strict-mode)
JavaScript. `parseMessage` catches the error and throws a new one. The model
returns `Fault` in both cases. `SetAtSucceedsIff` states exactly when a
write succeeds.

The external pieces are inputs of `ParseMessage`:

- what `getDeviceDefinition` returns: `None` for an unknown family;
- the `isMessage` predicates;
- the field transforms and `transformNumber`;
- the timestamp.

### Behaviour worth knowing

- **Tokens without `=` are kept** by the parser: the key is stored with an
  undefined value (src/parser.ts:32-33; `TokenParts`, `TokensLastWins`).
  Only src/mqttClient.ts drops them.
- **A token with several `=` keeps only the text between the first and the
  second `=`** as its value, in both tokenizers.
- **A parse can throw.** It throws when a field path runs through a
  primitive value (`RecordsFaultIff`, `SetAtSucceedsIff`).
- **A compound field is skipped when it has no transform** as well as when
  one of its tokens is missing. Each case has its own warning
  (`CompoundFieldWrites`).
- **An unknown family gives the empty map** and signals nothing else
  (src/parser.ts:37).
- **The clock is read once per matching definition** (src/parser.ts:43), so
  parsing is not a function of the payload alone.

## Model

| member | source | states |
|---|---|---|
| JsText.Split | src/parser.ts:27 | `split` with a one-character separator gives at least one piece, no piece holds the separator, and joining the pieces with the separator gives the input back |
| JsText.SplitJoin | src/parser.ts:32 | splitting pieces that are joined with the separator gives exactly those pieces back, so the contract of `Split` determines it |
| JsText.TrimStartDropsLeading | src/mqttClient.ts:13 | `trimStart` keeps a suffix of its input, what it removes is whitespace, and what it keeps does not start with whitespace |
| JsText.TrimEndDropsTrailing | src/mqttClient.ts:13 | `trimEnd` keeps a prefix, what it removes is whitespace, and what it keeps does not end with whitespace |
| JsText.TrimIsCentralSlice | src/mqttClient.ts:13 | `trim` returns a slice of its input with no whitespace at either end and only whitespace outside it |
| JsText.TrimFixesTrimmed | src/mqttClient.ts:13 | `trim` leaves a string unchanged exactly when neither end of it is whitespace |
| JsText.DecimalString | src/parser.ts:133 | the property key of a numeric segment is the canonical decimal form of the number: non-empty, all digits, denoting exactly that number, `"0"` for zero and no leading zero otherwise |
| JsText.DecimalStringInjective | src/parser.ts:133 | distinct indices give distinct property keys |
| JsText.ParseIntAcceptsIff | src/parser.ts:122-124 | `parseInt(s, 10)` is a number exactly when, after leading whitespace only, comes a digit or a sign followed by a digit |
| JsText.ParseIntExamples | src/parser.ts:122-124 | `" +7"`, `"12abc"` and `"0"` are accepted; `"+-7"`, `"x1"`, `""` and `" "` are not |
| Parser.SetValueAtPath | src/parser.ts:111-134 | the pointer walk returns the tree `SetAt` describes: missing intermediates created by the kind of the next segment, existing ones reused, the value stored under the last key (the key "undefined" for an empty path), or `Fault` when the walk meets a primitive |
| Parser.ApplyMessageDefinition | src/parser.ts:62-103 | the loop over the field table gives the record and the warnings of `ApplyFields`, or `Fault` as soon as a write throws |
| Parser.ApplyFieldsFaultSticky | src/parser.ts:79-102 | once a field's write throws, applying the rest of the table throws too |
| Parser.ParseMessage | src/parser.ts:19-60 | the two loops give the token map and the record map of `Parse`, or `Fault` when a record cannot be built; an unknown family gives the empty map |
| Parser.RecordsFaultSticky | src/parser.ts:37-59 | once a record cannot be built, the whole parse throws |
| ParserLemmas.TokenParts | src/parser.ts:32-33 | a token's value is undefined exactly when it has no `=`, and its key is then the whole token; otherwise the key is the text before the first `=` and the value the text up to the second `=` or to the end, neither containing `=` |
| ParserLemmas.TokensKeys | src/parser.ts:27-34 | the token map holds a key exactly when some token has that key |
| ParserLemmas.TokensLastWins | src/parser.ts:31-34 | the value under a key is that of the last token with the key |
| ParserLemmas.SetAtSucceedsIff | src/parser.ts:115-133 | a write succeeds exactly when the root is a container and every node on the proper prefixes of the path is undefined or a container |
| ParserLemmas.SetThenGet | src/parser.ts:111-134 | after a successful write, reading the path gives the value written |
| ParserLemmas.SetAtFrame | src/parser.ts:111-134 | every path that parts from the written one reads as before |
| ParserLemmas.SetAtIntermediates | src/parser.ts:119-128 | each node along the path is a container afterwards. One that was missing is an array exactly when the next segment is numeric. One that existed keeps its kind. It differs from before only under the next key |
| ParserLemmas.ApplyFieldByOutput | src/parser.ts:79-102 | one field writes its output, if it has one, at its target path; otherwise the record is unchanged and, for a compound field, a warning naming why is added |
| ParserLemmas.SingleFieldWrites | src/parser.ts:80-90 | a single-key field without a value writes nothing. With a value, its path reads the field's transform (or `transformNumber`) of the value. The path is the alias path when the key is in the alias table, else the field's own path. No warning is added |
| ParserLemmas.CompoundFieldWrites | src/parser.ts:91-101 | a compound field is written at its path exactly when it has a transform and every key has a value. The transform then gets exactly those keys with their values. Otherwise the record is unchanged and a missing-values or no-transform warning is added |
| ParserLemmas.ApplyFieldsAppend | src/parser.ts:79-102 | applying two tables one after the other is applying their concatenation |
| ParserLemmas.ApplyFieldsIgnoresWarnings | src/parser.ts:91-101 | the record a table produces does not depend on the warnings already printed |
| ParserLemmas.SkippedFieldIsInert | src/parser.ts:91-101 | a field that writes nothing can be removed from the table without changing the record the other fields produce |
| ParserLemmas.ApplyFieldsFrame | src/parser.ts:79-102 | fields that write only at paths parting from `q` leave `q` as it was |
| ParserLemmas.LastWriteWins | src/parser.ts:79-102 | a field's output is what its path reads after the whole table, unless a later field writes at, above or below that path |
| ParserLemmas.RecordIdentity | src/parser.ts:40-48 | a record carries the device type, device id, timestamp and token map it was stamped with, unless one of its fields writes at those entries |
| ParserLemmas.RecordsKeys | src/parser.ts:37-51 | the result's keys are exactly the publish paths of the definitions that accept the token map |
| ParserLemmas.RecordsLastWins | src/parser.ts:37-51 | of the accepting definitions that share a publish path, the record of the last one is in the result |
| ParserLemmas.RecordsFaultIff | src/parser.ts:37-59 | a parse throws exactly when some accepting definition's record cannot be built |
| ParserLemmas.RecordsCarryOrigin | src/parser.ts:36-51 | every record in the result carries the parse's device type, device id, timestamp and token map, when no field writes at those entries |
| MqttClient.ParseMessagePayload | src/mqttClient.ts:8-17 | the loop gives the map `PayloadTokens` describes |
| MqttClient.PayloadKeys | src/mqttClient.ts:9-16 | a key is in the result exactly when some token containing `=` has it, trimmed, before its first `=` |
| MqttClient.PayloadLastWins | src/mqttClient.ts:10-14 | the value under a key is the trimmed value of the last token with that trimmed key |
| MqttClient.PayloadTrimmed | src/mqttClient.ts:13 | no key and no value of the result starts or ends with whitespace |
| MqttClient.BareTokenIgnored | src/mqttClient.ts:11-12 | a token without `=` contributes nothing, wherever it stands |
| MqttClient.EmptyKeyExample | src/mqttClient.ts:9-16 | the payload `=5` yields the single entry `"" := "5"` |
| MqttClient.TokenizersAgree | src/mqttClient.ts:8-17 | when every token has `=` and no whitespace around its key and value, this tokenizer and the parser's (src/parser.ts:27-34) give the same keys and values |
| MqttClient.TokenizersDifferOnEmpty | src/mqttClient.ts:9-16 | on the empty payload this tokenizer gives the empty map, while the parser's gives the empty key with an undefined value |

## Left out

- **The `MqttClient` class** (src/mqttClient.ts:19 onwards): connection,
  subscriptions, polling and discovery timers. This is transport I/O against
  the `mqtt` library.
- **Diagnostics.** `console.warn` and `console.error` are not modelled.
  `ApplyMessageDefinition` returns the compound-field warnings as a list,
  and `ParseMessage` drops them. A thrown error is `Fault`, without its
  message text.
- **Aliasing of the token map.** The source stores the same `values` object
  in every record, and `setValueAtPath` writes into the live record. A field
  whose path starts with `values` would therefore change the shared token
  map, as seen by later `isMessage` calls and by the other records. The
  model works on values: every record gets its own copy, and
  `ParserLemmas.RecordsCarryOrigin` assumes that no field writes at the
  identity entries.
- ParserLemmas.RecordsCarryOrigin and ParserLemmas.RecordIdentity assume
  that no field writes at the identity entries (`KeepsIdentity`). A field
  table that does write there overwrites the identity in the source too.
- **In-place updates.** `setValueAtPath` and `applyMessageDefinition` change
  the caller's object. `SetValueAtPath` and `ApplyMessageDefinition` return
  the new tree instead.
- **Timestamp.** `ParseMessage` stamps every record with one timestamp
  parameter. The source calls `new Date()` once per accepting definition, so
  records of one parse can differ by the milliseconds between those calls.
- **Transforms and predicates.** Field transforms, `transformNumber` and
  `isMessage` are uninterpreted functions that return normally. A transform
  that throws is not modelled. The concrete transforms and device
  definitions (src/device/, src/deviceDefinition.ts) are not part of this
  model.
- **Prototype lookups.** The model treats keys such as `__proto__`,
  `constructor` or `length` as ordinary own properties. It covers neither
  prototype-chain reads (for example `keyAliases["constructor"]`) nor
  writes to an array's `length`.
- **Reads through primitives.** A walk that meets a string, number or
  boolean faults at once in the model. JavaScript first reads that value's
  property, but the next assignment throws in the same way. The two differ
  only when that read reaches an object through the prototype chain.
- **Strict mode.** The model assumes strict-mode semantics, as in compiled
  module code. In sloppy mode, an assignment to a primitive's property is
  silently ignored instead of throwing.
- **Characters.** Strings are sequences of Unicode characters, not UTF-16
  code units. Splitting on `,` and `=` and trimming are affected only by
  lone surrogates.
- **Numeric segments.** They are non-negative safe integers. Negative or
  fractional numbers in a key path are not modelled.
- **Tests.** The expectations of src/parser.test.ts read decoded numbers
  from `values`, which holds the raw strings. They also rely on device field
  tables that are not part of this model, so they are not stated as
  properties here.
- **Other modules.** The control-command mapping, the device state store,
  polling, timeouts and discovery-config generation are not part of this
  model.
