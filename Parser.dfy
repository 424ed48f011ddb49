/** The telemetry parser of src/parser.ts: it splits a raw `key=value,...`
    payload into a token map, runs the device family's message definitions
    over it and, for every definition that accepts the tokens, builds a record
    by applying the definition's field table.

    The device family's definition, the `isMessage` predicates, the field
    transforms and `transformNumber` are inputs; so is the timestamp. */
module Parser {
  import JsText
  import opened JsValue

  /** The parsed payload: a key maps to `None` when its token had no `=`
      (the source stores `undefined` under it). */
  type TokenMap = map<string, Option<string>>

  /** A row of a field-definition table. A single-key field decodes one token
      (with `transformNumber` when it has no transform of its own); a compound
      field hands several tokens at once to its transform. */
  datatype FieldDef =
    | SingleKey(key: string, path: KeyPath, transform: Option<string -> Node>)
    | CompoundKey(keys: seq<string>, path: KeyPath, combine: Option<map<string, string> -> Node>)

  /** One message shape of a device family. */
  datatype MessageDef = MessageDef(isMessage: TokenMap -> bool, fields: seq<FieldDef>, publishPath: string)

  /** What `getDeviceDefinition` returns for a known family. */
  datatype DeviceDef = DeviceDef(messages: seq<MessageDef>)

  /** The two diagnostics `applyMessageDefinition` prints for a compound
      field it skips. */
  datatype Warning = MissingValues(path: KeyPath) | NoTransform(path: KeyPath)

  /** The record under construction and the warnings printed so far. */
  datatype Applied = Applied(data: Node, warnings: seq<Warning>)

  /** The identity every record of one parse is stamped with. */
  datatype Origin = Origin(deviceType: string, deviceId: string, timestamp: string)

  // ---------------------------------------------------------------- tokens

  /** The key of a `key=value` token: the text before its first `=`. */
  function TokenKey(pair: string): string {
    JsText.Split(pair, '=')[0]
  }

  /** The value of a token: the text between its first and second `=`, or
      none when it has no `=`. */
  function TokenValue(pair: string): Option<string> {
    var parts := JsText.Split(pair, '=');
    if |parts| >= 2 then Some(parts[1]) else None
  }

  /** The token map built from the comma-separated pairs, in order. */
  function Tokens(pairs: seq<string>): TokenMap
    decreases |pairs|
  {
    if |pairs| == 0 then map[]
    else
      var last := pairs[|pairs| - 1];
      Tokens(pairs[..|pairs| - 1])[TokenKey(last) := TokenValue(last)]
  }

  /** `values[k]`: undefined both for a key stored as undefined and for a key
      that is not there. */
  function ValueAt(values: TokenMap, k: string): Option<string> {
    if k in values then values[k] else None
  }

  // ----------------------------------------------------------- path writes

  /** The test that makes `setValueAtPath` create an array rather than an
      object in front of this segment. */
  predicate IsNumericSegment(seg: Segment) {
    match seg
    case Index(_) => true
    case Name(s) => JsText.ParseIntAccepts(s)
  }

  function NewContainer(next: Segment): Node {
    if IsNumericSegment(next) then Arr(map[]) else Obj(map[])
  }

  /** The node `setValueAtPath` steps into for `path[0]`: the existing one,
      or a fresh container when the property is undefined. */
  function ChildFor(n: Node, path: KeyPath): Node
    requires |path| >= 2
  {
    var existing := n.Lookup(KeyOf(path[0]));
    if existing == Undefined then NewContainer(path[1]) else existing
  }

  /** The keys whose value a write at `path` sets: with an empty path the
      source reads `path[-1]`, which is undefined, and writes the property
      named "undefined". */
  function WriteKeys(path: KeyPath): (ks: seq<string>)
    ensures |ks| >= 1
  {
    if |path| == 0 then ["undefined"] else Keys(path)
  }

  /** The tree after `setValueAtPath(n, path, v)`, or `Fault` when the walk
      has to assign into something that is not an object or an array. */
  function SetAt(n: Node, path: KeyPath, v: Node): Result<Node>
    decreases |path|
  {
    if !n.IsContainer() then Fault
    else if |path| == 0 then Ok(n.Put("undefined", v))
    else if |path| == 1 then Ok(n.Put(KeyOf(path[0]), v))
    else PutResult(n, KeyOf(path[0]), SetAt(ChildFor(n, path), path[1..], v))
  }

  /** `n` with `r`'s tree stored under `k`, or `Fault` if `r` is one. */
  function PutResult(n: Node, k: string, r: Result<Node>): Result<Node> {
    match r
    case Fault => Fault
    case Ok(c) => Ok(n.Put(k, c))
  }

  /** The tree obtained by writing `x` into the last container of `spine`
      under the last key, that container into the one before it, and so on
      up to the root. */
  ghost function Rebuild(spine: seq<Node>, keys: seq<string>, x: Node): Node
    requires |spine| == |keys|
    decreases |spine|
  {
    if |spine| == 0 then x
    else Rebuild(spine[..|spine| - 1], keys[..|keys| - 1], spine[|spine| - 1].Put(keys[|keys| - 1], x))
  }

  ghost function Plug(spine: seq<Node>, keys: seq<string>, r: Result<Node>): Result<Node>
    requires |spine| == |keys|
  {
    match r
    case Fault => Fault
    case Ok(x) => Ok(Rebuild(spine, keys, x))
  }

  lemma PlugPutResult(spine: seq<Node>, keys: seq<string>, c: Node, k: string, r: Result<Node>)
    requires |spine| == |keys|
    ensures Plug(spine, keys, PutResult(c, k, r)) == Plug(spine + [c], keys + [k], r)
  {
    assert (spine + [c])[..|spine|] == spine && (keys + [k])[..|keys|] == keys;
  }

  /** `setValueAtPath`: walks to the container of the last segment, creating
      each missing intermediate as an array when the segment after it is
      numeric and as an object otherwise, and assigns `value` there. The
      source mutates shared objects; here the containers passed on the way
      down are kept in `spine` and the updated ones stored back on the way
      up, which is what the shared references achieve. */
  method SetValueAtPath(obj: Node, path: KeyPath, value: Node) returns (r: Result<Node>)
    ensures r == SetAt(obj, path, value)
  {
    var spine: seq<Node> := [];
    var keys: seq<string> := [];
    var current := obj;
    var i := 0;
    while i < |path| - 1
      invariant 0 <= i <= |path|
      invariant |path| > 0 ==> i <= |path| - 1
      invariant |spine| == |keys| == i
      invariant SetAt(obj, path, value) == Plug(spine, keys, SetAt(current, path[i..], value))
    {
      if !current.IsContainer() {
        return Fault;
      }
      var key := KeyOf(path[i]);
      var next := current.Lookup(key);
      if next == Undefined {
        next := NewContainer(path[i + 1]);
      }
      assert path[i..][1..] == path[i + 1..];
      assert SetAt(current, path[i..], value) == PutResult(current, key, SetAt(next, path[i + 1..], value));
      PlugPutResult(spine, keys, current, key, SetAt(next, path[i + 1..], value));
      spine, keys := spine + [current], keys + [key];
      current := next;
      i := i + 1;
    }
    if !current.IsContainer() {
      return Fault;
    }
    var lastKey := if |path| == 0 then "undefined" else KeyOf(path[|path| - 1]);
    var node := current.Put(lastKey, value);
    assert SetAt(current, path[i..], value) == Ok(node);
    var root := StoreBack(spine, keys, node);
    r := Ok(root);
  }

  /** Stores `node` under the last key into the last container of `spine`,
      that container into the one before it, and so on up to the root. */
  method StoreBack(spine: seq<Node>, keys: seq<string>, node: Node) returns (root: Node)
    requires |spine| == |keys|
    ensures root == Rebuild(spine, keys, node)
  {
    root := node;
    var j := |spine|;
    assert spine[..j] == spine && keys[..j] == keys;
    while j > 0
      invariant 0 <= j <= |spine|
      invariant Rebuild(spine, keys, node) == Rebuild(spine[..j], keys[..j], root)
    {
      assert spine[..j][..j - 1] == spine[..j - 1] && keys[..j][..j - 1] == keys[..j - 1];
      j := j - 1;
      root := spine[j].Put(keys[j], root);
    }
  }

  // ------------------------------------------------------------ field table

  /** The alias table of `applyMessageDefinition`: a single-key field with one
      of these keys is written at the alias path instead of its own. */
  const KeyAliases: map<string, KeyPath> := map[
    "pe" := [Name("batteryPercentage")],
    "kn" := [Name("batteryCapacity")],
    "w1" := [Name("solarPower"), Name("input1")],
    "w2" := [Name("solarPower"), Name("input2")],
    "g1" := [Name("gridPower"), Name("input1")],
    "g2" := [Name("gridPower"), Name("input2")],
    "tl" := [Name("temperature"), Name("low")],
    "th" := [Name("temperature"), Name("high")],
    "do" := [Name("depthOfDischarge")]
  ]

  /** The path a field writes to when it writes. */
  function TargetPath(f: FieldDef): KeyPath {
    match f
    case SingleKey(key, path, _) => if key in KeyAliases then KeyAliases[key] else path
    case CompoundKey(_, path, _) => path
  }

  /** Every constituent key of a compound field has a defined value. */
  predicate AllDefined(values: TokenMap, keys: seq<string>) {
    forall k | k in keys :: ValueAt(values, k).Some?
  }

  /** `Object.fromEntries` of the constituent keys and their values. */
  function Entries(values: TokenMap, keys: seq<string>): map<string, string>
    requires AllDefined(values, keys)
  {
    map k | k in keys :: ValueAt(values, k).value
  }

  /** The value a field writes, when it writes at all. */
  function FieldOutput(f: FieldDef, values: TokenMap, transformNumber: string -> Node): Option<Node> {
    match f
    case SingleKey(key, _, transform) =>
      var value := ValueAt(values, key);
      if value.None? then None
      else if transform.Some? then Some(transform.value(value.value))
      else Some(transformNumber(value.value))
    case CompoundKey(keys, _, combine) =>
      if combine.Some? && AllDefined(values, keys) then Some(combine.value(Entries(values, keys)))
      else None
  }

  /** `a` with its tree replaced by `r`'s, or `Fault` if `r` is one. */
  function WithData(a: Applied, r: Result<Node>): Result<Applied> {
    match r
    case Fault => Fault
    case Ok(d) => Ok(Applied(d, a.warnings))
  }

  /** One iteration of the loop over the field table. */
  function ApplyField(a: Applied, values: TokenMap, f: FieldDef, transformNumber: string -> Node): Result<Applied> {
    match f
    case SingleKey(key, path, transform) =>
      var value := ValueAt(values, key);
      var aliasPath := if key in KeyAliases then KeyAliases[key] else path;
      if value.None? then Ok(a)
      else
        var transformed := if transform.Some? then transform.value(value.value) else transformNumber(value.value);
        WithData(a, SetAt(a.data, aliasPath, transformed))
    case CompoundKey(keys, path, combine) =>
      if combine.None? then Ok(Applied(a.data, a.warnings + [NoTransform(path)]))
      else if AllDefined(values, keys) then WithData(a, SetAt(a.data, path, combine.value(Entries(values, keys))))
      else Ok(Applied(a.data, a.warnings + [MissingValues(path)]))
  }

  /** The field table applied in order, starting from `start`. */
  function ApplyFields(start: Applied, values: TokenMap, fields: seq<FieldDef>, transformNumber: string -> Node): Result<Applied>
    decreases |fields|
  {
    if |fields| == 0 then Ok(start)
    else
      match ApplyFields(start, values, fields[..|fields| - 1], transformNumber)
      case Fault => Fault
      case Ok(a) => ApplyField(a, values, fields[|fields| - 1], transformNumber)
  }

  /** Once a field faults, the whole table faults. */
  lemma {:induction false} ApplyFieldsFaultSticky(start: Applied, values: TokenMap, fields: seq<FieldDef>, n: nat, transformNumber: string -> Node)
    requires n <= |fields|
    requires ApplyFields(start, values, fields[..n], transformNumber) == Fault
    ensures ApplyFields(start, values, fields, transformNumber) == Fault
    decreases |fields|
  {
    if n < |fields| {
      assert fields[..|fields| - 1][..n] == fields[..n];
      ApplyFieldsFaultSticky(start, values, fields[..|fields| - 1], n, transformNumber);
    } else {
      assert fields[..n] == fields;
    }
  }

  /** `applyMessageDefinition`: applies every field of the table, in order,
      to the record. */
  method ApplyMessageDefinition(parsedData: Node, values: TokenMap, fields: seq<FieldDef>, transformNumber: string -> Node)
    returns (r: Result<Applied>)
    ensures r == ApplyFields(Applied(parsedData, []), values, fields, transformNumber)
  {
    var data, warnings := parsedData, [];
    for i := 0 to |fields|
      invariant ApplyFields(Applied(parsedData, []), values, fields[..i], transformNumber) == Ok(Applied(data, warnings))
    {
      assert fields[..i + 1][..i] == fields[..i];
      var field := fields[i];
      assert ApplyFields(Applied(parsedData, []), values, fields[..i + 1], transformNumber)
          == ApplyField(Applied(data, warnings), values, field, transformNumber);
      match field {
        case SingleKey(key, path, transform) =>
          var fn := transformNumber;
          if transform.Some? {
            fn := transform.value;
          }
          var value := ValueAt(values, key);
          var aliasPath := if key in KeyAliases then KeyAliases[key] else path;
          if value.Some? {
            var written := SetValueAtPath(data, aliasPath, fn(value.value));
            if written.Fault? {
              ApplyFieldsFaultSticky(Applied(parsedData, []), values, fields, i + 1, transformNumber);
              return Fault;
            }
            data := written.value;
          }
        case CompoundKey(keys, path, combine) =>
          if combine.Some? {
            if AllDefined(values, keys) {
              var written := SetValueAtPath(data, path, combine.value(Entries(values, keys)));
              if written.Fault? {
                ApplyFieldsFaultSticky(Applied(parsedData, []), values, fields, i + 1, transformNumber);
                return Fault;
              }
              data := written.value;
            } else {
              warnings := warnings + [MissingValues(path)];
            }
          } else {
            warnings := warnings + [NoTransform(path)];
          }
      }
    }
    assert fields[..|fields|] == fields;
    r := Ok(Applied(data, warnings));
  }

  // ---------------------------------------------------------------- records

  /** The token map as the object stored under `values` in every record. */
  function TokensNode(values: TokenMap): Node {
    Obj(map k | k in values :: if values[k].Some? then Str(values[k].value) else Undefined)
  }

  /** The base record of one matching definition, before its fields apply. */
  function NewRecord(origin: Origin, values: TokenMap): Node {
    Obj(map[
      "deviceType" := Str(origin.deviceType),
      "deviceId" := Str(origin.deviceId),
      "timestamp" := Str(origin.timestamp),
      "values" := TokensNode(values)
    ])
  }

  /** The record one matching definition produces. */
  function BuildRecord(d: MessageDef, origin: Origin, values: TokenMap, transformNumber: string -> Node): Result<Node> {
    match ApplyFields(Applied(NewRecord(origin, values), []), values, d.fields, transformNumber)
    case Fault => Fault
    case Ok(a) => Ok(a.data)
  }

  /** The result map built by the loop over the message definitions. */
  function Records(defs: seq<MessageDef>, origin: Origin, values: TokenMap, transformNumber: string -> Node): Result<map<string, Node>>
    decreases |defs|
  {
    if |defs| == 0 then Ok(map[])
    else
      match Records(defs[..|defs| - 1], origin, values, transformNumber)
      case Fault => Fault
      case Ok(acc) =>
        var d := defs[|defs| - 1];
        if !d.isMessage(values) then Ok(acc)
        else
          match BuildRecord(d, origin, values, transformNumber)
          case Fault => Fault
          case Ok(rec) => Ok(acc[d.publishPath := rec])
  }

  function MessagesOf(device: Option<DeviceDef>): seq<MessageDef> {
    if device.Some? then device.value.messages else []
  }

  /** What `parseMessage` returns, or `Fault` when it throws. */
  function Parse(message: string, origin: Origin, device: Option<DeviceDef>, transformNumber: string -> Node): Result<map<string, Node>> {
    Records(MessagesOf(device), origin, Tokens(JsText.Split(message, ',')), transformNumber)
  }

  lemma {:induction false} RecordsFaultSticky(defs: seq<MessageDef>, origin: Origin, values: TokenMap, n: nat, transformNumber: string -> Node)
    requires n <= |defs|
    requires Records(defs[..n], origin, values, transformNumber) == Fault
    ensures Records(defs, origin, values, transformNumber) == Fault
    decreases |defs|
  {
    if n < |defs| {
      assert defs[..|defs| - 1][..n] == defs[..n];
      RecordsFaultSticky(defs[..|defs| - 1], origin, values, n, transformNumber);
    } else {
      assert defs[..n] == defs;
    }
  }

  /** `parseMessage`. `deviceDefinition` is what `getDeviceDefinition` gave
      for `deviceType`, none for an unknown family. */
  method ParseMessage(message: string, deviceType: string, deviceId: string, timestamp: string,
                      deviceDefinition: Option<DeviceDef>, transformNumber: string -> Node)
    returns (r: Result<map<string, Node>>)
    ensures r == Parse(message, Origin(deviceType, deviceId, timestamp), deviceDefinition, transformNumber)
    ensures deviceDefinition.None? ==> r == Ok(map[])
  {
    var pairs := JsText.Split(message, ',');
    var values: TokenMap := map[];
    for i := 0 to |pairs|
      invariant values == Tokens(pairs[..i])
    {
      assert pairs[..i + 1][..i] == pairs[..i];
      var parts := JsText.Split(pairs[i], '=');
      values := values[parts[0] := if |parts| >= 2 then Some(parts[1]) else None];
    }
    assert pairs[..|pairs|] == pairs;

    var origin := Origin(deviceType, deviceId, timestamp);
    var messages := MessagesOf(deviceDefinition);
    var result: map<string, Node> := map[];
    for i := 0 to |messages|
      invariant Records(messages[..i], origin, values, transformNumber) == Ok(result)
    {
      assert messages[..i + 1][..i] == messages[..i];
      var messageDefinition := messages[i];
      if messageDefinition.isMessage(values) {
        var parsedData := NewRecord(origin, values);
        var applied := ApplyMessageDefinition(parsedData, values, messageDefinition.fields, transformNumber);
        if applied.Fault? {
          RecordsFaultSticky(messages, origin, values, i + 1, transformNumber);
          return Fault;
        }
        result := result[messageDefinition.publishPath := applied.value.data];
      }
    }
    assert messages[..|messages|] == messages;
    r := Ok(result);
  }
}
