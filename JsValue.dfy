/** JavaScript values as the parser builds them: primitives, plain objects
    and arrays, with property lookup and assignment by key, and key paths
    into a tree of them. */
module JsValue {
  import JsText

  datatype Option<T> = None | Some(value: T)

  /** The outcome of a JavaScript call: a normal return of `value`, or an
      exception (a TypeError raised by assigning a property of a primitive,
      null or undefined). */
  datatype Result<T> = Ok(value: T) | Fault

  /** A JavaScript value. An array is an object whose property keys are strings
      too (`a[5]` and `a["5"]` are the same property), so both containers map
      property keys to values; an array with a missing index has a hole. */
  datatype Node =
    | Undefined
    | Null
    | Bool(b: bool)
    | Num(x: real)
    | Str(s: string)
    | Obj(props: map<string, Node>)
    | Arr(props: map<string, Node>)
  {
    predicate IsContainer() {
      Obj? || Arr?
    }

    /** `this[k]` on a container, `undefined` for a key it does not hold. */
    function Lookup(k: string): Node {
      if IsContainer() && k in props then props[k] else Undefined
    }

    /** `this[k] = v` on a container; a primitive is returned as it is. */
    function Put(k: string, v: Node): Node {
      match this
      case Obj(m) => Obj(m[k := v])
      case Arr(m) => Arr(m[k := v])
      case _ => this
    }
  }

  /** One element of a `KeyPath`: a property name or a numeric index. */
  datatype Segment = Name(name: string) | Index(index: JsText.SafeIndex)

  type KeyPath = seq<Segment>

  /** The property key a segment denotes: a number is converted to its
      decimal string, as JavaScript does for `obj[n]`. */
  function KeyOf(seg: Segment): string {
    match seg
    case Name(s) => s
    case Index(n) => JsText.DecimalString(n)
  }

  function Keys(path: KeyPath): (ks: seq<string>)
    ensures |ks| == |path|
  {
    if |path| == 0 then [] else [KeyOf(path[0])] + Keys(path[1..])
  }

  /** The value reached by reading the keys `ks` one after the other from
      `n`; reading below anything that is not a container gives undefined. */
  function Get(n: Node, ks: seq<string>): Node
    decreases |ks|
  {
    if |ks| == 0 then n else Get(n.Lookup(ks[0]), ks[1..])
  }

  /** Two key sequences part somewhere within their common length, so that
      neither ends inside the other. */
  predicate Diverge(a: seq<string>, b: seq<string>) {
    exists i :: 0 <= i < |a| && i < |b| && a[i] != b[i]
  }

  lemma {:induction false} GetUndefined(ks: seq<string>)
    ensures Get(Undefined, ks) == Undefined
    decreases |ks|
  {
    if |ks| > 0 {
      GetUndefined(ks[1..]);
    }
  }

  /** Reading any non-empty key sequence from an empty container gives
      undefined. */
  lemma GetEmptyContainer(n: Node, ks: seq<string>)
    requires n == Obj(map[]) || n == Arr(map[])
    requires |ks| > 0
    ensures Get(n, ks) == Undefined
  {
    GetUndefined(ks[1..]);
  }
}
