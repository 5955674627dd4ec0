/**
 * Git's content-addressed objects as immutable values.
 *
 * A tree maps entry names to child objects; a blob is a byte string.
 * Object ids are abstracted away: two objects are "the same object" exactly
 * when they are equal as values, which is what content addressing gives.
 * The store keeps the value of a key path in a reserved `.value` blob entry
 * of the tree at the end of that path.
 */
module Objects {
  import opened Wrappers

  type Bytes = seq<bv8>

  /** The reserved entry name that holds a key path's value. */
  const ValueName: string := ".value"

  datatype Node = Blob(data: Bytes) | Tree(entries: map<string, Node>)

  /** The entries a tree builder starts from: those of an existing tree, none for an absent node. */
  function EntriesOf(n: Option<Node>): map<string, Node>
  {
    if n.Some? && n.value.Tree? then n.value.entries else map[]
  }

  /** The child named `name`, absent when `n` is absent, is a blob, or has no such entry. */
  function Descend(n: Option<Node>, name: string): Option<Node>
  {
    if n.Some? && n.value.Tree? && name in n.value.entries then Some(n.value.entries[name]) else None
  }

  /** The node reached by following `path` from `n`, or None if some step is missing. */
  function Find(n: Option<Node>, path: seq<string>): Option<Node>
    decreases |path|
  {
    if path == [] then n else Find(Descend(n, path[0]), path[1..])
  }

  /**
   * Copy-on-write update: `n` with the node at `path` replaced by `leaf`.
   * Every tree along the path is rebuilt as a copy of the existing one (or an
   * empty one where the path did not exist) with one child entry rebound.
   */
  function Put(n: Option<Node>, path: seq<string>, leaf: Node): (r: Node)
    ensures path != [] ==> r.Tree? && path[0] in r.entries
    decreases |path|
  {
    if path == [] then leaf
    else Tree(EntriesOf(n)[path[0] := Put(Descend(n, path[0]), path[1..], leaf)])
  }

  /** The value stored at a node: the bytes of its `.value` blob entry. */
  function ValueOf(n: Option<Node>): Option<Bytes>
  {
    if n.Some? && n.value.Tree? && ValueName in n.value.entries && n.value.entries[ValueName].Blob?
    then Some(n.value.entries[ValueName].data)
    else None
  }

  /** The fresh tree a write creates at its key path: only a `.value` blob. */
  function Leaf(v: Bytes): (r: Node)
    ensures ValueOf(Some(r)) == Some(v)
    ensures r.Tree? && r.entries.Keys == {ValueName}
  {
    Tree(map[ValueName := Blob(v)])
  }

  /** No segment of the path is the reserved value entry name. */
  predicate AvoidsValueName(path: seq<string>)
  {
    forall i :: 0 <= i < |path| ==> path[i] != ValueName
  }

  /**
   * The layout the store writes: a tree whose `.value` entry, if any, is a
   * blob and whose other entries are again such trees.
   */
  predicate WellFormed(n: Node)
  {
    match n
    case Blob(_) => false
    case Tree(m) =>
      forall name :: name in m ==>
        if name == ValueName then m[name].Blob? else WellFormed(m[name])
  }

  predicate WellFormedOrAbsent(n: Option<Node>)
  {
    n.None? || WellFormed(n.value)
  }

  /** Reading back at the written path yields exactly the written node. */
  lemma {:induction false} FindPut(n: Option<Node>, path: seq<string>, leaf: Node)
    ensures Find(Some(Put(n, path, leaf)), path) == Some(leaf)
    decreases |path|
  {
    if path != [] {
      FindPut(Descend(n, path[0]), path[1..], leaf);
    }
  }

  /** Reading below the written path reads inside the new leaf: the old subtree is gone. */
  lemma {:induction false} FindPutBelow(n: Option<Node>, path: seq<string>, rest: seq<string>, leaf: Node)
    ensures Find(Some(Put(n, path, leaf)), path + rest) == Find(Some(leaf), rest)
    decreases |path|
  {
    if path == [] {
      assert path + rest == rest;
    } else {
      assert (path + rest)[0] == path[0];
      assert (path + rest)[1..] == path[1..] + rest;
      FindPutBelow(Descend(n, path[0]), path[1..], rest, leaf);
    }
  }

  /** Paths that branch away from the written path see exactly the old nodes. */
  lemma {:induction false} FindPutDiverge(n: Option<Node>, path: seq<string>, other: seq<string>, leaf: Node)
    requires !(path <= other) && !(other <= path)
    ensures Find(Some(Put(n, path, leaf)), other) == Find(n, other)
    decreases |path|
  {
    assert path != [] && other != [];
    if path[0] == other[0] {
      assert !(path[1..] <= other[1..]) && !(other[1..] <= path[1..]);
      FindPutDiverge(Descend(n, path[0]), path[1..], other[1..], leaf);
    }
  }

  /**
   * An ancestor of the written path keeps its value: it is rebuilt from its
   * existing entries with only the next segment's entry rebound.
   */
  lemma {:induction false} ValueOfPutAncestor(n: Option<Node>, path: seq<string>, prefix: seq<string>, leaf: Node)
    requires prefix < path
    requires AvoidsValueName(path)
    ensures ValueOf(Find(Some(Put(n, path, leaf)), prefix)) == ValueOf(Find(n, prefix))
    decreases |prefix|
  {
    if prefix == [] {
      assert path[0] != ValueName;
    } else {
      assert prefix[0] == path[0];
      assert prefix[1..] < path[1..] by {
        assert prefix[1..] == path[1..][..|prefix| - 1];
      }
      assert AvoidsValueName(path[1..]) by {
        forall i | 0 <= i < |path[1..]| ensures path[1..][i] != ValueName {
          assert path[1..][i] == path[i + 1];
        }
      }
      ValueOfPutAncestor(Descend(n, path[0]), path[1..], prefix[1..], leaf);
    }
  }

  /** A fresh leaf holds a value only at its own position. */
  lemma LeafHoldsNothingBelow(v: Bytes, rest: seq<string>)
    requires rest != []
    ensures ValueOf(Find(Some(Leaf(v)), rest)) == None
  {
    var d := Descend(Some(Leaf(v)), rest[0]);
    assert d == None || d == Some(Blob(v));
    FindFromBlobOrAbsent(d, rest[1..]);
  }

  /** Nothing can be found below a blob or an absent node. */
  lemma {:induction false} FindFromBlobOrAbsent(n: Option<Node>, path: seq<string>)
    requires n.None? || n.value.Blob?
    ensures ValueOf(Find(n, path)) == None
    ensures Find(n, path) == if path == [] then n else None
    decreases |path|
  {
    if path != [] {
      FindFromBlobOrAbsent(None, path[1..]);
    }
  }

  /**
   * Value-level frame: after writing at `path`, every path that does not
   * extend it (including its own ancestors) reads the value it read before.
   */
  lemma ValueOfPutFrame(n: Option<Node>, path: seq<string>, other: seq<string>, leaf: Node)
    requires !(path <= other)
    requires AvoidsValueName(path)
    ensures ValueOf(Find(Some(Put(n, path, leaf)), other)) == ValueOf(Find(n, other))
  {
    if other < path {
      ValueOfPutAncestor(n, path, other, leaf);
    } else {
      FindPutDiverge(n, path, other, leaf);
    }
  }

  /** Writes along paths that avoid the reserved name keep the layout intact. */
  lemma {:induction false} PutWellFormed(n: Option<Node>, path: seq<string>, leaf: Node)
    requires WellFormedOrAbsent(n)
    requires AvoidsValueName(path)
    requires WellFormed(leaf)
    ensures WellFormed(Put(n, path, leaf))
    decreases |path|
  {
    if path != [] {
      var child := Descend(n, path[0]);
      assert WellFormedOrAbsent(child) by {
        if child.Some? {
          assert path[0] != ValueName;
        }
      }
      assert AvoidsValueName(path[1..]) by {
        forall i | 0 <= i < |path[1..]| ensures path[1..][i] != ValueName {
          assert path[1..][i] == path[i + 1];
        }
      }
      PutWellFormed(child, path[1..], leaf);
      var m := EntriesOf(n)[path[0] := Put(child, path[1..], leaf)];
      forall name | name in m
        ensures if name == ValueName then m[name].Blob? else WellFormed(m[name])
      {
        if name != path[0] {
          assert n.Some? && n.value.Tree? && name in n.value.entries;
        }
      }
    }
  }

  /** In a well-formed tree, a path avoiding the reserved name never reaches a blob. */
  lemma {:induction false} FindWellFormed(n: Option<Node>, path: seq<string>)
    requires WellFormedOrAbsent(n)
    requires AvoidsValueName(path)
    ensures WellFormedOrAbsent(Find(n, path))
    decreases |path|
  {
    if path != [] {
      assert path[0] != ValueName;
      assert AvoidsValueName(path[1..]) by {
        forall i | 0 <= i < |path[1..]| ensures path[1..][i] != ValueName {
          assert path[1..][i] == path[i + 1];
        }
      }
      FindWellFormed(Descend(n, path[0]), path[1..]);
    }
  }
}
