/**
 * The JSON value: json::Node is a variant over null, array, dict, bool, int,
 * double and string, with kind predicates, checked accessors that throw
 * `logic_error` on a kind mismatch, and equality of the held variant.
 */
module Json {
  import opened Wrappers

  /** The range of C++ `int`. */
  newtype Int32 = x: int | -0x8000_0000 <= x < 0x8000_0000

  /** A double is modelled by its exact value. */
  datatype Node =
    | Null
    | Array(items: seq<Node>)
    | Dict(entries: map<string, Node>)
    | Bool(b: bool)
    | Int(i: Int32)
    | Double(d: real)
    | Str(s: string)

  /** The `std::logic_error` an accessor throws on a kind mismatch. */
  datatype LogicError = LogicError

  datatype Document = Document(root: Node)

  predicate IsNull(n: Node) { n.Null? }
  predicate IsArray(n: Node) { n.Array? }
  predicate IsMap(n: Node) { n.Dict? }
  predicate IsBool(n: Node) { n.Bool? }
  predicate IsInt(n: Node) { n.Int? }
  /** True for ints as well: both are numbers a double can be read from. */
  predicate IsDouble(n: Node) { n.Double? || n.Int? }
  predicate IsPureDouble(n: Node) { n.Double? }
  predicate IsString(n: Node) { n.Str? }

  /** Every node has exactly one kind; IsDouble is the union of IsInt and IsPureDouble. */
  lemma KindsPartition(n: Node)
    ensures IsDouble(n) <==> IsInt(n) || IsPureDouble(n)
    ensures !(IsInt(n) && IsPureDouble(n))
    ensures var kinds := [IsNull(n), IsArray(n), IsMap(n), IsBool(n), IsInt(n), IsPureDouble(n), IsString(n)];
              |set k | 0 <= k < |kinds| && kinds[k]| == 1
  {
    var kinds := [IsNull(n), IsArray(n), IsMap(n), IsBool(n), IsInt(n), IsPureDouble(n), IsString(n)];
    var only := if n.Null? then 0 else if n.Array? then 1 else if n.Dict? then 2 else if n.Bool? then 3
                else if n.Int? then 4 else if n.Double? then 5 else 6;
    assert (set k | 0 <= k < |kinds| && kinds[k]) == {only};
  }

  function AsArray(n: Node): (r: Result<seq<Node>, LogicError>)
    ensures r.Ok? <==> IsArray(n)
    ensures r.Ok? ==> Array(r.value) == n
  {
    if n.Array? then Ok(n.items) else Err(LogicError)
  }

  function AsMap(n: Node): (r: Result<map<string, Node>, LogicError>)
    ensures r.Ok? <==> IsMap(n)
    ensures r.Ok? ==> Dict(r.value) == n
  {
    if n.Dict? then Ok(n.entries) else Err(LogicError)
  }

  function AsInt(n: Node): (r: Result<Int32, LogicError>)
    ensures r.Ok? <==> IsInt(n)
    ensures r.Ok? ==> Int(r.value) == n
  {
    if n.Int? then Ok(n.i) else Err(LogicError)
  }

  function AsBool(n: Node): (r: Result<bool, LogicError>)
    ensures r.Ok? <==> IsBool(n)
    ensures r.Ok? ==> Bool(r.value) == n
  {
    if n.Bool? then Ok(n.b) else Err(LogicError)
  }

  /** An int node reads as the same number. */
  function AsDouble(n: Node): (r: Result<real, LogicError>)
    ensures r.Ok? <==> IsDouble(n)
    ensures IsInt(n) ==> r == Ok(n.i as real)
    ensures IsPureDouble(n) ==> Double(r.value) == n
  {
    if !IsDouble(n) && !IsInt(n) then Err(LogicError)
    else if n.Int? then Ok(n.i as real)
    else Ok(n.d)
  }

  function AsString(n: Node): (r: Result<string, LogicError>)
    ensures r.Ok? <==> IsString(n)
    ensures r.Ok? ==> Str(r.value) == n
  {
    if n.Str? then Ok(n.s) else Err(LogicError)
  }

  /**
   * Comparison of the held variants: the same alternative, then the held values
   * compared as the standard library does (vectors element by element, maps
   * entry by entry).
   */
  predicate NodeEquals(a: Node, b: Node)
  {
    match a
    case Null => b.Null?
    case Array(xs) =>
      b.Array? && |xs| == |b.items| && forall k | 0 <= k < |xs| :: NodeEquals(xs[k], b.items[k])
    case Dict(m) =>
      b.Dict? && m.Keys == b.entries.Keys && forall key | key in m :: NodeEquals(m[key], b.entries[key])
    case Bool(x) => b.Bool? && x == b.b
    case Int(x) => b.Int? && x == b.i
    case Double(x) => b.Double? && x == b.d
    case Str(x) => b.Str? && x == b.s
  }

  /** operator== of Node is value equality: equal exactly when the two trees are the same. */
  lemma {:induction false} NodeEqualsIsEquality(a: Node, b: Node)
    ensures NodeEquals(a, b) <==> a == b
  {
    match a
    case Array(xs) =>
      if b.Array? && |xs| == |b.items| {
        forall k | 0 <= k < |xs| ensures NodeEquals(xs[k], b.items[k]) <==> xs[k] == b.items[k] {
          NodeEqualsIsEquality(xs[k], b.items[k]);
        }
      }
    case Dict(m) =>
      if b.Dict? && m.Keys == b.entries.Keys {
        forall key | key in m ensures NodeEquals(m[key], b.entries[key]) <==> m[key] == b.entries[key] {
          NodeEqualsIsEquality(m[key], b.entries[key]);
        }
        if forall key | key in m :: m[key] == b.entries[key] {
          assert m == b.entries;
        }
      }
    case _ =>
  }

  predicate DocumentEquals(a: Document, b: Document)
  {
    NodeEquals(a.root, b.root)
  }

  lemma DocumentEqualsIsEquality(a: Document, b: Document)
    ensures DocumentEquals(a, b) <==> a == b
  {
    NodeEqualsIsEquality(a.root, b.root);
  }
}
