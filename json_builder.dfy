/**
 * json::Builder: assembles a node tree step by step. The builder keeps the
 * root node and a stack of pointers to the containers still open; here each
 * pointer is the path from the root to the container it points at.
 */
module JsonBuilder {
  import opened Wrappers
  import opened Json

  /** One step from a container to a child: an array index or a dict key. */
  datatype Step = Item(index: nat) | Entry(key: string)

  type Path = seq<Step>

  function Child(n: Node, s: Step): Option<Node>
  {
    match s
    case Item(i) => if n.Array? && i < |n.items| then Some(n.items[i]) else None
    case Entry(k) => if n.Dict? && k in n.entries then Some(n.entries[k]) else None
  }

  /** The node a path leads to, if it leads anywhere. */
  function Get(n: Node, p: Path): Option<Node>
    decreases |p|
  {
    if p == [] then Some(n)
    else
      match Child(n, p[0])
      case None => None
      case Some(c) => Get(c, p[1..])
  }

  /** The tree with the node at p replaced by g (the tree itself if p leads nowhere). */
  function Put(n: Node, p: Path, g: Node): Node
    decreases |p|
  {
    if p == [] then g
    else
      match p[0]
      case Item(i) =>
        if n.Array? && i < |n.items| then Array(n.items[i := Put(n.items[i], p[1..], g)]) else n
      case Entry(k) =>
        if n.Dict? && k in n.entries then Dict(n.entries[k := Put(n.entries[k], p[1..], g)]) else n
  }

  /** Dict::emplace: adds the entry unless the key is already there. */
  function Emplace(d: Node, k: string, v: Node): (r: Node)
    requires d.Dict?
    ensures r.Dict? && r.entries.Keys == d.entries.Keys + {k}
    ensures k in d.entries ==> r == d
    ensures k !in d.entries ==> r.entries[k] == v && forall j | j in d.entries :: r.entries[j] == d.entries[j]
  {
    if k in d.entries then d else Dict(d.entries[k := v])
  }

  /** Following one more step goes to a child of the node the path leads to. */
  lemma {:induction false} GetAppend(n: Node, p: Path, s: Step)
    ensures Get(n, p + [s]) == if Get(n, p).None? then None else Child(Get(n, p).value, s)
    decreases |p|
  {
    if p == [] {
      assert [] + [s] == [s];
    } else {
      assert (p + [s])[0] == p[0];
      assert (p + [s])[1..] == p[1..] + [s];
      match Child(n, p[0])
      case None =>
      case Some(c) => GetAppend(c, p[1..], s);
    }
  }

  /** Every prefix of a path that leads somewhere leads somewhere. */
  lemma {:induction false} GetPrefix(n: Node, p: Path, k: nat)
    requires Get(n, p).Some? && k <= |p|
    ensures Get(n, p[..k]).Some?
    decreases |p|
  {
    if k > 0 {
      assert p[..k][0] == p[0];
      assert p[..k][1..] == p[1..][..k - 1];
      GetPrefix(Child(n, p[0]).value, p[1..], k - 1);
    }
  }

  /** After replacing the node at p, p leads to the replacement. */
  lemma {:induction false} GetPut(n: Node, p: Path, g: Node)
    requires Get(n, p).Some?
    ensures Get(Put(n, p, g), p) == Some(g)
    decreases |p|
  {
    if p != [] {
      var c := Child(n, p[0]).value;
      GetPut(c, p[1..], g);
      match p[0]
      case Item(i) =>
        assert Child(Put(n, p, g), p[0]) == Some(Put(c, p[1..], g));
      case Entry(k) =>
        assert Child(Put(n, p, g), p[0]) == Some(Put(c, p[1..], g));
    }
  }

  /** Replacing the node at p leaves every node off that path as it was. */
  lemma {:induction false} PutLeavesOtherBranches(n: Node, p: Path, g: Node, q: Path, i: nat)
    requires i < |p| && i < |q| && p[..i] == q[..i] && p[i] != q[i]
    ensures Get(Put(n, p, g), q) == Get(n, q)
    decreases i
  {
    match Child(n, p[0])
    case None =>
      assert Put(n, p, g) == n;
    case Some(c) =>
      if i == 0 {
        assert Child(Put(n, p, g), q[0]) == Child(n, q[0]);
      } else {
        assert p[0] == q[0] by {
          assert p[..i][0] == q[..i][0];
        }
        assert p[1..][..i - 1] == q[1..][..i - 1] by {
          assert p[1..][..i - 1] == p[..i][1..];
          assert q[1..][..i - 1] == q[..i][1..];
        }
        PutLeavesOtherBranches(c, p[1..], g, q[1..], i - 1);
        assert Child(Put(n, p, g), p[0]) == Some(Put(c, p[1..], g));
      }
  }

  class Builder {
    /** root_ */
    var root: Node
    /** nodes_stack_: the open containers, outermost first, as paths from the root. */
    var stack: seq<Path>
    /** key_value_: the key given to Key and not yet used. */
    var key: string
    /** check_key_value_: whether a Key call awaits its value. */
    var pendingKey: bool

    /**
     * The stack holds the chain of containers from the root down to the
     * innermost open one: entry i is the path of length i to it, and the
     * innermost path leads to a node of the tree.
     */
    ghost predicate Valid()
      reads this
    {
      stack != [] ==>
        && |stack[|stack| - 1]| == |stack| - 1
        && (forall i | 0 <= i < |stack| :: stack[i] == stack[|stack| - 1][..i])
        && Get(root, stack[|stack| - 1]).Some?
    }

    function OpenPath(): Path
      reads this
      requires stack != []
    {
      stack[|stack| - 1]
    }

    /** The innermost open node: nodes_stack_.back(). */
    function Top(): Option<Node>
      reads this
    {
      if stack == [] then None else Get(root, OpenPath())
    }

    predicate TopIsMap()
      reads this
    {
      Top().Some? && Top().value.Dict?
    }

    predicate TopIsArray()
      reads this
    {
      Top().Some? && Top().value.Array?
    }

    constructor ()
      ensures Valid()
      ensures root == Null && stack == [] && key == "" && !pendingKey
    {
      root := Null;
      stack := [];
      key := "";
      pendingKey := false;
    }

    /** Names the entry the next value goes to; only directly inside a dict and with no unused key. */
    method Key(k: string) returns (thrown: Option<LogicError>)
      requires Valid()
      modifies this`key, this`pendingKey
      ensures Valid()
      ensures thrown.None? <==> TopIsMap() && old(key) == ""
      ensures thrown.None? ==> key == k && pendingKey
      ensures thrown.Some? ==> key == old(key) && pendingKey == old(pendingKey)
    {
      if stack == [] || !TopIsMap() || key != "" {
        return Some(LogicError);
      }
      key := k;
      pendingKey := true;
      thrown := None;
    }

    /**
     * Sets the root when nothing is open and the root is still null; otherwise
     * adds the value to the innermost open container: under the pending key in
     * a dict, at the end of an array.
     */
    method Value(v: Node) returns (thrown: Option<LogicError>)
      requires Valid()
      modifies this`root, this`key, this`pendingKey
      ensures Valid() && stack == old(stack)
      ensures old(stack == [] && root != Null) ==> thrown.Some?
      ensures old(stack == [] && root == Null) ==> thrown.None? && root == v
      ensures old(stack != [] && pendingKey) ==> (thrown.None? <==> old(TopIsMap()))
      ensures old(stack != [] && pendingKey && TopIsMap()) ==>
                && root == Put(old(root), old(OpenPath()), Emplace(old(Top().value), old(key), v))
                && key == "" && !pendingKey
      ensures old(stack != [] && !pendingKey) ==> (thrown.None? <==> old(TopIsArray()))
      ensures old(stack != [] && !pendingKey && TopIsArray()) ==>
                root == Put(old(root), old(OpenPath()), Array(old(Top().value.items) + [v]))
      ensures thrown.Some? ==> root == old(root)
      ensures thrown.Some? || old(!pendingKey) || old(stack == []) ==>
                key == old(key) && pendingKey == old(pendingKey)
    {
      if stack == [] && root != Null {
        return Some(LogicError);
      }
      if stack == [] {
        root := v;
        return None;
      }
      var path := stack[|stack| - 1];
      var open := Get(root, path).value;
      if pendingKey {
        if !open.Dict? {
          return Some(LogicError);
        }
        GetPut(root, path, Emplace(open, key, v));
        root := Put(root, path, Emplace(open, key, v));
        key := "";
        pendingKey := false;
      } else {
        if !open.Array? {
          return Some(LogicError);
        }
        GetPut(root, path, Array(open.items + [v]));
        root := Put(root, path, Array(open.items + [v]));
      }
      thrown := None;
    }

    /**
     * What AddNode does to the builder: when nothing is open, n becomes the
     * root and is opened; under a pending key inside a dict, n is emplaced and
     * the entry under the key is opened; inside an array without a pending key,
     * n is appended and opened. Anything else throws and changes nothing.
     */
    twostate predicate AddedNode(n: Node, new thrown: Option<LogicError>)
      reads this
    {
      && (old(stack == []) ==>
            thrown.None? && root == n && stack == [[]] && key == old(key) && pendingKey == old(pendingKey))
      && (old(stack != [] && pendingKey) ==> (thrown.None? <==> old(TopIsMap())))
      && (old(stack != [] && pendingKey && TopIsMap()) ==>
            && root == Put(old(root), old(OpenPath()), Emplace(old(Top().value), old(key), n))
            && stack == old(stack) + [old(OpenPath()) + [Entry(old(key))]]
            && key == "" && !pendingKey)
      && (old(stack != [] && !pendingKey) ==> (thrown.None? <==> old(TopIsArray())))
      && (old(stack != [] && !pendingKey && TopIsArray()) ==>
            && root == Put(old(root), old(OpenPath()), Array(old(Top().value.items) + [n]))
            && stack == old(stack) + [old(OpenPath()) + [Item(|old(Top().value.items)|)]]
            && key == old(key) && pendingKey == old(pendingKey))
      && (thrown.Some? ==>
            root == old(root) && stack == old(stack) && key == old(key) && pendingKey == old(pendingKey))
      && (thrown.None? ==>
            && |stack| == old(|stack|) + 1
            && Top() == Some(if old(stack != [] && pendingKey && TopIsMap() && key in Top().value.entries)
                             then old(Top().value.entries[key]) else n))
    }

    /** Adds a container and opens it. */
    method AddNode(n: Node) returns (thrown: Option<LogicError>)
      requires Valid()
      modifies this`root, this`stack, this`key, this`pendingKey
      ensures Valid()
      ensures AddedNode(n, thrown)
    {
      if stack != [] && TopIsMap() && !pendingKey {
        return Some(LogicError);
      }
      if stack == [] {
        root := n;
        stack := stack + [[]];
        return None;
      }
      var path := stack[|stack| - 1];
      var open := Get(root, path).value;
      if pendingKey {
        if !open.Dict? {
          return Some(LogicError);
        }
        var filled := Emplace(open, key, n);
        AddChild(path, filled, Entry(key));
        key := "";
        pendingKey := false;
      } else {
        if !open.Array? {
          return Some(LogicError);
        }
        AddChild(path, Array(open.items + [n]), Item(|open.items|));
      }
      thrown := None;
    }

    /** Replaces the innermost open container by `filled` and opens its child at `s`. */
    method AddChild(path: Path, filled: Node, s: Step)
      requires Valid() && stack != [] && path == OpenPath()
      requires Child(filled, s).Some?
      modifies this`root, this`stack
      ensures Valid()
      ensures root == Put(old(root), path, filled)
      ensures stack == old(stack) + [path + [s]]
      ensures Top() == Child(filled, s)
    {
      GetPut(root, path, filled);
      root := Put(root, path, filled);
      GetAppend(root, path, s);
      stack := stack + [path + [s]];
      assert forall i | 0 <= i < |stack| - 1 :: stack[i] == old(stack)[i];
      assert forall i | 0 <= i < |stack| - 1 :: (path + [s])[..i] == path[..i];
    }

    /** Opens a new dict: as the root when nothing is open, else as AddNode places it. */
    method StartDict() returns (thrown: Option<LogicError>)
      requires Valid()
      modifies this`root, this`stack, this`key, this`pendingKey
      ensures Valid()
      ensures old(stack == [] && root != Null) ==>
                thrown.Some? && root == old(root) && stack == old(stack)
                && key == old(key) && pendingKey == old(pendingKey)
      ensures old(stack != [] || root == Null) ==> AddedNode(Dict(map[]), thrown)
    {
      if stack == [] && root != Null {
        return Some(LogicError);
      }
      thrown := AddNode(Dict(map[]));
    }

    /** Opens a new array: as the root when nothing is open, else as AddNode places it. */
    method StartArray() returns (thrown: Option<LogicError>)
      requires Valid()
      modifies this`root, this`stack, this`key, this`pendingKey
      ensures Valid()
      ensures old(stack == [] && root != Null) ==>
                thrown.Some? && root == old(root) && stack == old(stack)
                && key == old(key) && pendingKey == old(pendingKey)
      ensures old(stack != [] || root == Null) ==> AddedNode(Array([]), thrown)
    {
      if stack == [] && root != Null {
        return Some(LogicError);
      }
      thrown := AddNode(Array([]));
    }

    /** Closes the innermost open container, which must be a dict. */
    method EndDict() returns (thrown: Option<LogicError>)
      requires Valid()
      modifies this`stack
      ensures Valid()
      ensures thrown.None? <==> old(TopIsMap())
      ensures thrown.None? ==> stack == old(stack[..|stack| - 1])
      ensures thrown.Some? ==> stack == old(stack)
    {
      if stack == [] || !TopIsMap() {
        return Some(LogicError);
      }
      Close();
      thrown := None;
    }

    /** Closes the innermost open container, which must be an array. */
    method EndArray() returns (thrown: Option<LogicError>)
      requires Valid()
      modifies this`stack
      ensures Valid()
      ensures thrown.None? <==> old(TopIsArray())
      ensures thrown.None? ==> stack == old(stack[..|stack| - 1])
      ensures thrown.Some? ==> stack == old(stack)
    {
      if stack == [] || !TopIsArray() {
        return Some(LogicError);
      }
      Close();
      thrown := None;
    }

    /** nodes_stack_.pop_back() */
    method Close()
      requires Valid() && stack != []
      modifies this`stack
      ensures Valid()
      ensures stack == old(stack[..|stack| - 1])
    {
      var outer := stack[..|stack| - 1];
      if outer != [] {
        GetPrefix(root, OpenPath(), |outer| - 1);
        assert outer[|outer| - 1] == OpenPath()[..|outer| - 1];
        assert forall i | 0 <= i < |outer| :: outer[i] == OpenPath()[..i] == outer[|outer| - 1][..i];
      }
      stack := outer;
    }

    /** The finished tree: only when nothing is open and the root is not null. */
    method Build() returns (r: Result<Node, LogicError>)
      requires Valid()
      ensures r.Ok? <==> stack == [] && root != Null
      ensures r.Ok? ==> r.value == root
    {
      if stack != [] || root == Null {
        return Err(LogicError);
      }
      return Ok(root);
    }
  }

  /** StartDict, Key, Value, EndDict and Build give a one-entry dict. */
  method BuildEntry(k: string, v: Node) returns (r: Result<Node, LogicError>)
    ensures r == Ok(Dict(map[k := v]))
  {
    var b := new Builder();
    var thrown := b.StartDict();
    assert b.stack == [[]] && b.Top() == Some(Dict(map[]));
    thrown := b.Key(k);
    thrown := b.Value(v);
    assert b.root == Dict(map[k := v]);
    thrown := b.EndDict();
    r := b.Build();
  }

  /** StartArray, one Value per element, EndArray and Build give the array of those elements. */
  method BuildArray(values: seq<Node>) returns (r: Result<Node, LogicError>)
    ensures r == Ok(Array(values))
  {
    var b := new Builder();
    var thrown := b.StartArray();
    var i := 0;
    while i < |values|
      invariant 0 <= i <= |values|
      invariant b.Valid() && b.stack == [[]] && !b.pendingKey
      invariant b.root == Array(values[..i])
      modifies b
    {
      thrown := b.Value(values[i]);
      assert values[..i + 1] == values[..i] + [values[i]];
      i := i + 1;
    }
    assert values[..i] == values;
    thrown := b.EndArray();
    r := b.Build();
  }
}
