/** What src/parser.ts promises, proved about the model in module Parser:
    how the payload is tokenised, what a path write does to the tree, how the
    field table is applied, and which records a parse returns. */
module ParserLemmas {
  import JsText
  import opened JsValue
  import opened Parser

  // ================================================================ tokens

  /** A token's value is none exactly when the token has no `=` (and then the
      whole token is the key); otherwise the key is the text before the first
      `=` and the value the text between the first and the second `=`. */
  lemma TokenParts(pair: string)
    ensures TokenValue(pair).None? <==> '=' !in pair
    ensures TokenValue(pair).None? ==> TokenKey(pair) == pair
    ensures TokenValue(pair).Some? ==>
              var k, v := TokenKey(pair), TokenValue(pair).value;
              && '=' !in k && '=' !in v
              && |k| + 1 + |v| <= |pair|
              && pair[..|k| + 1 + |v|] == k + "=" + v
              && (|pair| == |k| + 1 + |v| || pair[|k| + 1 + |v|] == '=')
  {
    var parts := JsText.Split(pair, '=');
    if |parts| == 1 {
      assert JsText.Join(parts, '=') == parts[0];
    } else {
      var tail := JsText.Join(parts[1..], '=');
      assert pair == parts[0] + "=" + tail;
      assert pair[|parts[0]|] == '=';
      if |parts| == 2 {
        assert tail == parts[1];
      } else {
        assert parts[1..][1..] == parts[2..];
        assert tail == parts[1] + "=" + JsText.Join(parts[2..], '=');
      }
      assert pair[..|parts[0]| + 1 + |parts[1]|] == parts[0] + "=" + parts[1];
    }
  }

  /** The token map holds a key exactly when some token has that key. */
  lemma {:induction false} TokensKeys(pairs: seq<string>, k: string)
    ensures k in Tokens(pairs) <==> exists i :: 0 <= i < |pairs| && TokenKey(pairs[i]) == k
    decreases |pairs|
  {
    if |pairs| > 0 {
      var init := pairs[..|pairs| - 1];
      TokensKeys(init, k);
      if k in Tokens(init) {
        var i :| 0 <= i < |init| && TokenKey(init[i]) == k;
        assert pairs[i] == init[i];
      }
      if exists i :: 0 <= i < |pairs| && TokenKey(pairs[i]) == k {
        var i :| 0 <= i < |pairs| && TokenKey(pairs[i]) == k;
        if i < |init| {
          assert init[i] == pairs[i];
        }
      }
    }
  }

  /** The value stored for a key is that of the last token with that key. */
  lemma {:induction false} TokensLastWins(pairs: seq<string>, i: nat)
    requires i < |pairs|
    requires forall j :: i < j < |pairs| ==> TokenKey(pairs[j]) != TokenKey(pairs[i])
    ensures TokenKey(pairs[i]) in Tokens(pairs)
    ensures Tokens(pairs)[TokenKey(pairs[i])] == TokenValue(pairs[i])
    decreases |pairs|
  {
    if i < |pairs| - 1 {
      var init := pairs[..|pairs| - 1];
      assert init[i] == pairs[i];
      forall j | i < j < |init| ensures TokenKey(init[j]) != TokenKey(init[i]) {
        assert init[j] == pairs[j];
      }
      TokensLastWins(init, i);
    }
  }

  // ============================================================ path writes

  /** What `setValueAtPath` can walk through: an absent value (it is
      replaced by a new container) or a container. */
  predicate Passable(x: Node) {
    x == Undefined || x.IsContainer()
  }

  lemma GetPrefixStep(n: Node, p: KeyPath, j: nat)
    requires 1 <= j <= |p|
    ensures Get(n, Keys(p)[..j]) == Get(n.Lookup(KeyOf(p[0])), Keys(p[1..])[..j - 1])
  {
    assert Keys(p)[..j] == [KeyOf(p[0])] + Keys(p[1..])[..j - 1];
  }

  /** The walk `setValueAtPath` makes can go through: it starts at a
      container and every intermediate node is absent or a container. */
  predicate Walkable(n: Node, p: KeyPath) {
    n.IsContainer() && forall j :: 1 <= j < |p| ==> Passable(Get(n, Keys(p)[..j]))
  }

  /** The walk from `n` can go through exactly when the walk from the node it
      steps into can. */
  lemma WalkableStep(n: Node, p: KeyPath)
    requires n.IsContainer() && |p| >= 2
    ensures Walkable(n, p) <==> Walkable(ChildFor(n, p), p[1..])
  {
    var existing := n.Lookup(KeyOf(p[0]));
    var child := ChildFor(n, p);
    forall j | 1 <= j < |p| ensures Get(n, Keys(p)[..j]) == Get(existing, Keys(p[1..])[..j - 1]) {
      GetPrefixStep(n, p, j);
    }
    assert Keys(p[1..])[..0] == [];
    if existing == Undefined {
      forall j | 1 <= j < |p| ensures Get(n, Keys(p)[..j]) == Undefined {
        GetUndefined(Keys(p[1..])[..j - 1]);
      }
      forall j | 1 <= j < |p| - 1 ensures Get(child, Keys(p[1..])[..j]) == Undefined {
        GetEmptyContainer(child, Keys(p[1..])[..j]);
      }
    } else {
      if Walkable(n, p) {
        assert Passable(Get(n, Keys(p)[..1]));
        forall j | 1 <= j < |p| - 1 ensures Passable(Get(child, Keys(p[1..])[..j])) {
          assert Passable(Get(n, Keys(p)[..j + 1]));
        }
      }
      if Walkable(child, p[1..]) {
        forall j | 1 <= j < |p| ensures Passable(Get(n, Keys(p)[..j])) {
          if j > 1 {
            assert Passable(Get(child, Keys(p[1..])[..j - 1]));
          }
        }
      }
    }
  }

  /** A write succeeds exactly when it starts at a container and every
      intermediate node along the path is either absent or a container. */
  lemma {:induction false} SetAtSucceedsIff(n: Node, p: KeyPath, v: Node)
    ensures SetAt(n, p, v).Ok? <==> Walkable(n, p)
    decreases |p|
  {
    if n.IsContainer() && |p| >= 2 {
      SetAtSucceedsIff(ChildFor(n, p), p[1..], v);
      WalkableStep(n, p);
      assert SetAt(n, p, v).Ok? <==> SetAt(ChildFor(n, p), p[1..], v).Ok?;
    }
  }

  /** After a successful write, reading the path gives the value written. */
  lemma {:induction false} SetThenGet(n: Node, p: KeyPath, v: Node)
    requires SetAt(n, p, v).Ok?
    ensures Get(SetAt(n, p, v).value, WriteKeys(p)) == v
    decreases |p|
  {
    if |p| >= 2 {
      SetThenGet(ChildFor(n, p), p[1..], v);
    }
  }

  /** What a successful write stores under the first key. */
  function Below(n: Node, p: KeyPath, v: Node): Node
    requires SetAt(n, p, v).Ok?
  {
    if |p| <= 1 then v else SetAt(ChildFor(n, p), p[1..], v).value
  }

  /** A successful write puts one value under the first key of the root. */
  lemma SetAtTop(n: Node, p: KeyPath, v: Node)
    requires SetAt(n, p, v).Ok?
    ensures SetAt(n, p, v).value == n.Put(WriteKeys(p)[0], Below(n, p, v))
  {
  }

  lemma GetPut(n: Node, k: string, c: Node, q: seq<string>)
    requires n.IsContainer() && |q| > 0
    ensures Get(n.Put(k, c), q) == if q[0] == k then Get(c, q[1..]) else Get(n, q)
  {
  }

  /** A write leaves every path that parts from the written one as it was. */
  lemma {:induction false} SetAtFrame(n: Node, p: KeyPath, v: Node, q: seq<string>)
    requires SetAt(n, p, v).Ok?
    requires Diverge(WriteKeys(p), q)
    ensures Get(SetAt(n, p, v).value, q) == Get(n, q)
    decreases |p|
  {
    var ks := WriteKeys(p);
    var i :| 0 <= i < |ks| && i < |q| && ks[i] != q[i];
    SetAtTop(n, p, v);
    GetPut(n, ks[0], Below(n, p, v), q);
    if i > 0 {
      var child := ChildFor(n, p);
      assert WriteKeys(p[1..])[i - 1] == ks[i] && q[1..][i - 1] == q[i];
      SetAtFrame(child, p[1..], v, q[1..]);
      if n.Lookup(ks[0]) == Undefined {
        GetEmptyContainer(child, q[1..]);
        GetUndefined(q[1..]);
      }
    }
  }

  /** The node at each proper prefix of a written path. One that was absent
      is now a new container, an array exactly when the next segment is
      numeric; one that existed is the same kind of container as before.
      Either way it differs from what was there only under the next key. */
  lemma {:induction false} SetAtIntermediates(n: Node, p: KeyPath, v: Node, j: nat)
    requires SetAt(n, p, v).Ok?
    requires j < |p|
    ensures var before, after := Get(n, Keys(p)[..j]), Get(SetAt(n, p, v).value, Keys(p)[..j]);
            && after.IsContainer()
            && (before == Undefined ==> (after.Arr? <==> IsNumericSegment(p[j])))
            && (before != Undefined ==> (after.Arr? <==> before.Arr?))
            && forall k :: k != KeyOf(p[j]) ==> after.Lookup(k) == before.Lookup(k)
    decreases |p|
  {
    if j > 0 {
      var k := KeyOf(p[0]);
      var child := ChildFor(n, p);
      var c := SetAt(child, p[1..], v).value;
      GetPrefixStep(n, p, j);
      GetPrefixStep(SetAt(n, p, v).value, p, j);
      SetAtIntermediates(child, p[1..], v, j - 1);
      if n.Lookup(k) == Undefined {
        GetUndefined(Keys(p[1..])[..j - 1]);
        if j > 1 {
          GetEmptyContainer(child, Keys(p[1..])[..j - 1]);
        }
      }
    }
  }

  // ============================================================ field table

  function DataOf(r: Result<Applied>): Result<Node> {
    match r
    case Fault => Fault
    case Ok(a) => Ok(a.data)
  }

  function Continue(r: Result<Applied>, values: TokenMap, fields: seq<FieldDef>, transformNumber: string -> Node): Result<Applied> {
    match r
    case Fault => Fault
    case Ok(a) => ApplyFields(a, values, fields, transformNumber)
  }

  /** One field either writes its output at its target path, or, when it has
      no output, leaves the tree alone and (compound fields only) adds a
      warning saying why. */
  lemma ApplyFieldByOutput(a: Applied, values: TokenMap, f: FieldDef, transformNumber: string -> Node)
    ensures FieldOutput(f, values, transformNumber).Some? ==>
              ApplyField(a, values, f, transformNumber)
              == WithData(a, SetAt(a.data, TargetPath(f), FieldOutput(f, values, transformNumber).value))
    ensures FieldOutput(f, values, transformNumber).None? ==>
              ApplyField(a, values, f, transformNumber)
              == Ok(Applied(a.data, a.warnings +
                   (if f.SingleKey? then [] else if f.combine.None? then [NoTransform(f.path)] else [MissingValues(f.path)])))
  {
    if f.SingleKey? {
      assert a.warnings + [] == a.warnings;
    }
  }

  /** A single-key field with no value writes nothing; with a value it writes
      its transform of the value (`transformNumber` when it has none) at the
      alias path of its key, or at its own path when the key has no alias. */
  lemma SingleFieldWrites(a: Applied, values: TokenMap, f: FieldDef, transformNumber: string -> Node)
    requires f.SingleKey?
    requires ApplyField(a, values, f, transformNumber).Ok?
    ensures var b := ApplyField(a, values, f, transformNumber).value;
            && b.warnings == a.warnings
            && (ValueAt(values, f.key).None? ==> b.data == a.data)
            && (ValueAt(values, f.key).Some? ==>
                  var s := ValueAt(values, f.key).value;
                  var path := if f.key in KeyAliases then KeyAliases[f.key] else f.path;
                  Get(b.data, WriteKeys(path)) == (if f.transform.Some? then f.transform.value(s) else transformNumber(s)))
  {
    ApplyFieldByOutput(a, values, f, transformNumber);
    if ValueAt(values, f.key).Some? {
      SetThenGet(a.data, TargetPath(f), FieldOutput(f, values, transformNumber).value);
    }
  }

  /** A compound field is written at its path exactly when it has a transform
      and every constituent key has a value; the transform then receives
      exactly those keys with their values. Otherwise the tree is left alone
      and a warning names the field's path. */
  lemma CompoundFieldWrites(a: Applied, values: TokenMap, f: FieldDef, transformNumber: string -> Node)
    requires f.CompoundKey?
    requires ApplyField(a, values, f, transformNumber).Ok?
    ensures var b := ApplyField(a, values, f, transformNumber).value;
            if f.combine.Some? && AllDefined(values, f.keys) then
              var e := Entries(values, f.keys);
              && (forall k :: k in e <==> k in f.keys)
              && (forall k | k in e :: Some(e[k]) == ValueAt(values, k))
              && Get(b.data, WriteKeys(f.path)) == f.combine.value(e)
              && b.warnings == a.warnings
            else
              && b.data == a.data
              && b.warnings == a.warnings + [if f.combine.None? then NoTransform(f.path) else MissingValues(f.path)]
  {
    ApplyFieldByOutput(a, values, f, transformNumber);
    if f.combine.Some? && AllDefined(values, f.keys) {
      SetThenGet(a.data, f.path, FieldOutput(f, values, transformNumber).value);
    }
  }

  lemma {:induction false} ApplyFieldsAppend(s: Applied, values: TokenMap, a: seq<FieldDef>, b: seq<FieldDef>, transformNumber: string -> Node)
    ensures ApplyFields(s, values, a + b, transformNumber)
         == Continue(ApplyFields(s, values, a, transformNumber), values, b, transformNumber)
    decreases |b|
  {
    if |b| == 0 {
      assert a + b == a;
    } else {
      assert (a + b)[..|a + b| - 1] == a + b[..|b| - 1];
      assert (a + b)[|a + b| - 1] == b[|b| - 1];
      ApplyFieldsAppend(s, values, a, b[..|b| - 1], transformNumber);
    }
  }

  /** The tree a field table produces does not depend on the warnings
      printed before it. */
  lemma {:induction false} ApplyFieldsIgnoresWarnings(d: Node, w1: seq<Warning>, w2: seq<Warning>,
                                                     values: TokenMap, fields: seq<FieldDef>, transformNumber: string -> Node)
    ensures DataOf(ApplyFields(Applied(d, w1), values, fields, transformNumber))
         == DataOf(ApplyFields(Applied(d, w2), values, fields, transformNumber))
    decreases |fields|
  {
    if |fields| > 0 {
      var init := fields[..|fields| - 1];
      var f := fields[|fields| - 1];
      ApplyFieldsIgnoresWarnings(d, w1, w2, values, init, transformNumber);
      var r1 := ApplyFields(Applied(d, w1), values, init, transformNumber);
      var r2 := ApplyFields(Applied(d, w2), values, init, transformNumber);
      if r1.Ok? {
        ApplyFieldByOutput(r1.value, values, f, transformNumber);
        ApplyFieldByOutput(r2.value, values, f, transformNumber);
      }
    }
  }

  /** A field that writes nothing (a compound field missing a value or a
      transform, or a single-key field without a value) is skipped: the
      fields around it produce the same tree as without it. */
  lemma SkippedFieldIsInert(s: Applied, values: TokenMap, pre: seq<FieldDef>, f: FieldDef, post: seq<FieldDef>,
                            transformNumber: string -> Node)
    requires FieldOutput(f, values, transformNumber).None?
    ensures DataOf(ApplyFields(s, values, pre + [f] + post, transformNumber))
         == DataOf(ApplyFields(s, values, pre + post, transformNumber))
  {
    ApplyFieldsAppend(s, values, pre + [f], post, transformNumber);
    ApplyFieldsAppend(s, values, pre, [f], transformNumber);
    ApplyFieldsAppend(s, values, pre, post, transformNumber);
    var r := ApplyFields(s, values, pre, transformNumber);
    if r.Ok? {
      var x := r.value;
      assert [f][..0] == [];
      ApplyFieldByOutput(x, values, f, transformNumber);
      var y := ApplyField(x, values, f, transformNumber).value;
      assert ApplyFields(s, values, pre + [f], transformNumber) == Ok(y);
      ApplyFieldsIgnoresWarnings(x.data, y.warnings, x.warnings, values, post, transformNumber);
    }
  }

  /** No field of `fields` that writes touches a path that `q` does not part
      from. */
  predicate Untouched(fields: seq<FieldDef>, values: TokenMap, q: seq<string>, transformNumber: string -> Node) {
    forall i :: 0 <= i < |fields| ==>
      FieldOutput(fields[i], values, transformNumber).None? || Diverge(WriteKeys(TargetPath(fields[i])), q)
  }

  /** Applying fields that do not write at or above `q` leaves `q` as it
      was. */
  lemma {:induction false} ApplyFieldsFrame(s: Applied, values: TokenMap, fields: seq<FieldDef>, q: seq<string>,
                                            transformNumber: string -> Node)
    requires ApplyFields(s, values, fields, transformNumber).Ok?
    requires Untouched(fields, values, q, transformNumber)
    ensures Get(ApplyFields(s, values, fields, transformNumber).value.data, q) == Get(s.data, q)
    decreases |fields|
  {
    if |fields| > 0 {
      var init := fields[..|fields| - 1];
      var f := fields[|fields| - 1];
      assert Untouched(init, values, q, transformNumber) by {
        forall i | 0 <= i < |init| ensures init[i] == fields[i] { }
      }
      ApplyFieldsFrame(s, values, init, q, transformNumber);
      var a := ApplyFields(s, values, init, transformNumber).value;
      ApplyFieldByOutput(a, values, f, transformNumber);
      if FieldOutput(f, values, transformNumber).Some? {
        SetAtFrame(a.data, TargetPath(f), FieldOutput(f, values, transformNumber).value, q);
      }
    }
  }

  /** Fields apply in table order: what a field writes is what its path reads
      at the end unless a later field also writes there (or above or below
      it). */
  lemma LastWriteWins(s: Applied, values: TokenMap, pre: seq<FieldDef>, f: FieldDef, post: seq<FieldDef>,
                      transformNumber: string -> Node)
    requires FieldOutput(f, values, transformNumber).Some?
    requires Untouched(post, values, WriteKeys(TargetPath(f)), transformNumber)
    requires ApplyFields(s, values, pre + [f] + post, transformNumber).Ok?
    ensures Get(ApplyFields(s, values, pre + [f] + post, transformNumber).value.data, WriteKeys(TargetPath(f)))
         == FieldOutput(f, values, transformNumber).value
  {
    ApplyFieldsAppend(s, values, pre + [f], post, transformNumber);
    ApplyFieldsAppend(s, values, pre, [f], transformNumber);
    var x := ApplyFields(s, values, pre, transformNumber).value;
    assert [f][..0] == [];
    ApplyFieldByOutput(x, values, f, transformNumber);
    var y := ApplyField(x, values, f, transformNumber).value;
    assert ApplyFields(s, values, pre + [f], transformNumber) == Ok(y);
    SetThenGet(x.data, TargetPath(f), FieldOutput(f, values, transformNumber).value);
    ApplyFieldsFrame(y, values, post, WriteKeys(TargetPath(f)), transformNumber);
  }

  // ================================================================ records

  /** The entries every base record starts with. */
  const IdentityKeys: set<string> := {"deviceType", "deviceId", "timestamp", "values"}

  /** No field of the definition writes at a top-level identity entry. */
  predicate KeepsIdentity(d: MessageDef) {
    forall i :: 0 <= i < |d.fields| ==> WriteKeys(TargetPath(d.fields[i]))[0] !in IdentityKeys
  }

  /** A record carries the device type, device id and timestamp it was
      stamped with and the token map that was parsed, unless one of its own
      fields overwrites them. */
  lemma RecordIdentity(d: MessageDef, origin: Origin, values: TokenMap, transformNumber: string -> Node)
    requires KeepsIdentity(d)
    requires BuildRecord(d, origin, values, transformNumber).Ok?
    ensures var rec := BuildRecord(d, origin, values, transformNumber).value;
            && Get(rec, ["deviceType"]) == Str(origin.deviceType)
            && Get(rec, ["deviceId"]) == Str(origin.deviceId)
            && Get(rec, ["timestamp"]) == Str(origin.timestamp)
            && Get(rec, ["values"]) == TokensNode(values)
  {
    var s := Applied(NewRecord(origin, values), []);
    forall q | q in [["deviceType"], ["deviceId"], ["timestamp"], ["values"]]
      ensures Get(BuildRecord(d, origin, values, transformNumber).value, q) == Get(s.data, q)
    {
      forall i | 0 <= i < |d.fields| ensures Diverge(WriteKeys(TargetPath(d.fields[i])), q) {
        assert WriteKeys(TargetPath(d.fields[i]))[0] != q[0];
      }
      ApplyFieldsFrame(s, values, d.fields, q, transformNumber);
    }
  }

  /** The result's keys are exactly the publish paths of the definitions
      that accept the tokens. */
  lemma {:induction false} RecordsKeys(defs: seq<MessageDef>, origin: Origin, values: TokenMap, transformNumber: string -> Node)
    requires Records(defs, origin, values, transformNumber).Ok?
    ensures Records(defs, origin, values, transformNumber).value.Keys
         == set i | 0 <= i < |defs| && defs[i].isMessage(values) :: defs[i].publishPath
    decreases |defs|
  {
    if |defs| > 0 {
      var init := defs[..|defs| - 1];
      var last := defs[|defs| - 1];
      RecordsKeys(init, origin, values, transformNumber);
      var all := set i | 0 <= i < |defs| && defs[i].isMessage(values) :: defs[i].publishPath;
      var before := set i | 0 <= i < |init| && init[i].isMessage(values) :: init[i].publishPath;
      forall p ensures p in all <==> p in before || (last.isMessage(values) && p == last.publishPath) {
        if p in all {
          var i :| 0 <= i < |defs| && defs[i].isMessage(values) && defs[i].publishPath == p;
          if i < |init| {
            assert init[i] == defs[i];
          }
        }
        if p in before {
          var i :| 0 <= i < |init| && init[i].isMessage(values) && init[i].publishPath == p;
          assert defs[i] == init[i];
        }
      }
    }
  }

  /** When several accepting definitions share a publish path, the record of
      the last of them is the one in the result. */
  lemma {:induction false} RecordsLastWins(defs: seq<MessageDef>, origin: Origin, values: TokenMap,
                                           transformNumber: string -> Node, i: nat)
    requires Records(defs, origin, values, transformNumber).Ok?
    requires i < |defs| && defs[i].isMessage(values)
    requires forall j :: i < j < |defs| && defs[j].isMessage(values) ==> defs[j].publishPath != defs[i].publishPath
    ensures defs[i].publishPath in Records(defs, origin, values, transformNumber).value
    ensures BuildRecord(defs[i], origin, values, transformNumber)
         == Ok(Records(defs, origin, values, transformNumber).value[defs[i].publishPath])
    decreases |defs|
  {
    if i < |defs| - 1 {
      var init := defs[..|defs| - 1];
      assert init[i] == defs[i];
      forall j | i < j < |init| && init[j].isMessage(values) ensures init[j].publishPath != init[i].publishPath {
        assert init[j] == defs[j];
      }
      RecordsLastWins(init, origin, values, transformNumber, i);
    }
  }

  /** A parse throws exactly when the record of some accepting definition
      cannot be built. */
  lemma {:induction false} RecordsFaultIff(defs: seq<MessageDef>, origin: Origin, values: TokenMap, transformNumber: string -> Node)
    ensures Records(defs, origin, values, transformNumber).Fault? <==>
              exists i :: 0 <= i < |defs| && defs[i].isMessage(values) && BuildRecord(defs[i], origin, values, transformNumber).Fault?
    decreases |defs|
  {
    if |defs| > 0 {
      var init := defs[..|defs| - 1];
      RecordsFaultIff(init, origin, values, transformNumber);
      if exists i :: 0 <= i < |init| && init[i].isMessage(values) && BuildRecord(init[i], origin, values, transformNumber).Fault? {
        var i :| 0 <= i < |init| && init[i].isMessage(values) && BuildRecord(init[i], origin, values, transformNumber).Fault?;
        assert defs[i] == init[i];
      }
      if exists i :: 0 <= i < |defs| && defs[i].isMessage(values) && BuildRecord(defs[i], origin, values, transformNumber).Fault? {
        var i :| 0 <= i < |defs| && defs[i].isMessage(values) && BuildRecord(defs[i], origin, values, transformNumber).Fault?;
        if i < |init| {
          assert init[i] == defs[i];
        }
      }
    }
  }

  /** Every record in the result carries the parse's device type, device id,
      timestamp and token map, provided no field overwrites them. */
  lemma {:induction false} RecordsCarryOrigin(defs: seq<MessageDef>, origin: Origin, values: TokenMap, transformNumber: string -> Node)
    requires forall i :: 0 <= i < |defs| ==> KeepsIdentity(defs[i])
    requires Records(defs, origin, values, transformNumber).Ok?
    ensures var res := Records(defs, origin, values, transformNumber).value;
            forall p | p in res ::
              && Get(res[p], ["deviceType"]) == Str(origin.deviceType)
              && Get(res[p], ["deviceId"]) == Str(origin.deviceId)
              && Get(res[p], ["timestamp"]) == Str(origin.timestamp)
              && Get(res[p], ["values"]) == TokensNode(values)
    decreases |defs|
  {
    if |defs| > 0 {
      var init := defs[..|defs| - 1];
      var last := defs[|defs| - 1];
      forall i | 0 <= i < |init| ensures KeepsIdentity(init[i]) {
        assert init[i] == defs[i];
      }
      RecordsCarryOrigin(init, origin, values, transformNumber);
      if last.isMessage(values) {
        RecordIdentity(last, origin, values, transformNumber);
      }
    }
  }
}
