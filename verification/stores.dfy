/**
 * The per-commit key/value store.
 *
 * All stores of a repository share one history: the commits of the ref
 * refs/heads/percs. The root tree of its head commit has one entry per commit
 * hex, under which the keys of that commit's store are laid out as nested
 * trees, each value in a `.value` blob at the end of its key path. A write
 * rebuilds the trees along one path and commits the new root as a child of
 * the previous head.
 */
module Stores {
  import opened Wrappers
  import opened Errors
  import opened Objects
  import opened Keys

  /**
   * A commit of refs/heads/percs: the entries of its root tree (a commit's
   * tree is always a tree) and its parent, an earlier position in the history.
   */
  datatype Commit = Commit(root: map<string, Node>, parent: Option<nat>)

  /**
   * The part of the repository the store uses: every commit ever created for
   * refs/heads/percs, in creation order (a position stands for a commit id),
   * and the commit the ref targets, None while the ref does not exist.
   */
  datatype Repo = Repo(commits: seq<Commit>, percs: Option<nat>) {

    /** The ref names an existing commit. */
    predicate Valid()
    {
      percs.Some? ==> percs.value < |commits|
    }

    /** Every parent is an earlier commit. */
    predicate Linear()
    {
      forall i :: 0 <= i < |commits| && commits[i].parent.Some? ==> commits[i].parent.value < i
    }

    /** Every snapshot has the store's tree layout. */
    predicate LaidOut()
    {
      forall i :: 0 <= i < |commits| ==> WellFormed(Tree(commits[i].root))
    }
  }

  /** A repository in which refs/heads/percs has never been written. */
  const EmptyRepo: Repo := Repo([], None)

  /**
   * A store for one commit. It holds no data of its own: every operation is
   * given the repository and re-reads refs/heads/percs.
   */
  datatype Store = Store(commit: CommitHex)

  /** `_ref` followed by `.tree`: the root tree of the head of refs/heads/percs, None without the ref. */
  function HeadTree(db: Repo): (r: Option<Node>)
    requires db.Valid()
    ensures r.Some? <==> db.percs.Some?
    ensures r.Some? ==> r.value == Tree(db.commits[db.percs.value].root)
  {
    if db.percs.None? then None else Some(Tree(db.commits[db.percs.value].root))
  }

  /** The value a key path holds in the current head: the reference reading of the store. */
  function Stored(db: Repo, path: seq<string>): Option<Bytes>
    requires db.Valid()
  {
    ValueOf(Find(HeadTree(db), path))
  }

  /**
   * `_segment_trees`: for each segment, the node reached after it, None once
   * the path no longer exists. Indexing into a blob raises `TypeError` there;
   * that walk has no result here.
   */
  function SegmentTrees(start: Option<Node>, segs: seq<string>): (r: Option<seq<Option<Node>>>)
    ensures r.Some? ==> |r.value| == |segs|
    ensures r.Some? ==> forall i :: 0 <= i < |segs| ==>
      r.value[i] == Descend(if i == 0 then start else r.value[i - 1], segs[i])
    ensures r.Some? && segs != [] ==> r.value[|segs| - 1] == Find(start, segs)
    ensures r.None? ==> segs != [] && Find(start, segs) == None
    decreases |segs|
  {
    if segs == [] then Some([])
    else if start.Some? && start.value.Blob? then
      FindFromBlobOrAbsent(None, segs[1..]);
      None
    else
      var next := Descend(start, segs[0]);
      match SegmentTrees(next, segs[1..])
      case None => None
      case Some(rest) => Some([next] + rest)
  }

  /**
   * Exactly when the walk fails: some node it must index into, the node at a
   * proper prefix of the path, is a blob. Missing entries never make it fail.
   */
  lemma {:induction false} SegmentTreesFailure(start: Option<Node>, segs: seq<string>)
    ensures SegmentTrees(start, segs).None? <==>
      exists i :: 0 <= i < |segs| && Find(start, segs[..i]).Some? && Find(start, segs[..i]).value.Blob?
    decreases |segs|
  {
    if segs == [] {
    } else if start.Some? && start.value.Blob? {
      assert segs[..0] == [];
    } else {
      var next := Descend(start, segs[0]);
      SegmentTreesFailure(next, segs[1..]);
      forall i | 0 < i < |segs|
        ensures Find(start, segs[..i]) == Find(next, segs[1..][..i - 1])
      {
        assert segs[..i][0] == segs[0] && segs[..i][1..] == segs[1..][..i - 1];
      }
      assert segs[..0] == [];
      if SegmentTrees(next, segs[1..]).None? {
        var k :| 0 <= k < |segs| - 1 && Find(next, segs[1..][..k]).Some? && Find(next, segs[1..][..k]).value.Blob?;
        assert Find(start, segs[..k + 1]) == Find(next, segs[1..][..k]);
      }
    }
  }

  /**
   * `_propagate_change`, from the deepest level up to the root: level `n` is
   * rebuilt from its existing tree, or from nothing, with the entry `segs[n]`
   * rebound to `child`, the level below as already rebuilt.
   */
  function Propagate(segs: seq<string>, trees: seq<Option<Node>>, n: nat, child: Node): (r: Node)
    requires |trees| == |segs| + 1 && n < |segs|
    ensures r.Tree?
    decreases n
  {
    var built := Tree(EntriesOf(trees[n])[segs[n] := child]);
    if n == 0 then built else Propagate(segs, trees, n - 1, built)
  }

  /**
   * Propagating a new leaf up a recorded walk is the copy-on-write update of
   * the walk's start: every ancestor copied with one child entry rebound.
   */
  lemma {:induction false} PropagateIsPut(segs: seq<string>, trees: seq<Option<Node>>, n: nat, leaf: Node)
    requires |trees| == |segs| + 1 && n < |segs|
    requires forall i :: 0 <= i < |segs| ==> trees[i + 1] == Descend(trees[i], segs[i])
    ensures Propagate(segs, trees, n, Put(trees[n + 1], segs[n + 1..], leaf)) == Put(trees[0], segs, leaf)
    decreases n
  {
    var built := Tree(EntriesOf(trees[n])[segs[n] := Put(trees[n + 1], segs[n + 1..], leaf)]);
    assert built == Put(trees[n], segs[n..], leaf) by {
      assert segs[n..][0] == segs[n] && segs[n..][1..] == segs[n + 1..];
    }
    if n == 0 {
      assert segs[0..] == segs;
    } else {
      PropagateIsPut(segs, trees, n - 1, leaf);
    }
  }

  /**
   * The two passes of `__setitem__`, the walk recording the existing trees and the
   * propagation rebuilding them bottom-up, together perform the copy-on-write
   * update of the root along the key path.
   */
  lemma WalkThenPropagate(root: Option<Node>, segs: seq<string>, leaf: Node)
    requires segs != []
    requires SegmentTrees(root, segs).Some?
    ensures Propagate(segs, [root] + SegmentTrees(root, segs).value, |segs| - 1, leaf) == Put(root, segs, leaf)
  {
    var trees := [root] + SegmentTrees(root, segs).value;
    assert forall i :: 0 <= i < |segs| ==> trees[i + 1] == Descend(trees[i], segs[i]);
    assert segs[|segs|..] == [];
    PropagateIsPut(segs, trees, |segs| - 1, leaf);
  }

  /** In a well-formed tree the walk along a path that avoids `.value` never meets a blob. */
  lemma {:induction false} SegmentTreesSucceed(start: Option<Node>, segs: seq<string>)
    ensures WellFormedOrAbsent(start) && AvoidsValueName(segs) ==> SegmentTrees(start, segs).Some?
    decreases |segs|
  {
    if segs != [] && WellFormedOrAbsent(start) && AvoidsValueName(segs) {
      assert segs[0] != ValueName;
      assert AvoidsValueName(segs[1..]) by {
        forall i | 0 <= i < |segs[1..]| ensures segs[1..][i] != ValueName {
          assert segs[1..][i] == segs[i + 1];
        }
      }
      SegmentTreesSucceed(Descend(start, segs[0]), segs[1..]);
    }
  }

  /**
   * `__getitem__`: the value of `key` in the store's commit namespace. The key
   * is not format-checked. A missing path and a final tree without a `.value`
   * blob both fail as NotFound.
   */
  function GetItem(db: Repo, store: Store, key: string): (r: Result<Bytes, Error>)
    requires db.Valid()
    ensures r.Success? <==> Stored(db, PathSegments(store.commit, key)).Some?
    ensures r.Success? ==> Stored(db, PathSegments(store.commit, key)) == Some(r.value)
    ensures r.Failure? ==> r.error == NotFound
  {
    var segs := PathSegments(store.commit, key);
    match SegmentTrees(HeadTree(db), segs)
    case None => Failure(NotFound)
    case Some(trees) =>
      var entry := ValueOf(trees[|trees| - 1]);
      if entry.Some? then Success(entry.value) else Failure(NotFound)
  }

  /**
   * `__setitem__`: check the key, walk its path in the head tree, put a fresh
   * tree holding only `.value` at the end of it, rebuild the ancestors, and
   * commit the new root with the previous head (if any) as parent.
   */
  function SetItem(db: Repo, store: Store, key: KeyArg, value: Bytes): (r: Result<Repo, Error>)
    requires db.Valid()
    ensures key.NotAString? ==> r == Failure(InvalidKeyType)
    ensures key.Str? && !MatchesKeyFormat(key.text) ==> r == Failure(InvalidKeyFormat)
    ensures r.Success? ==> key.Str? && MatchesKeyFormat(key.text)
    ensures r.Success? ==>
      r.value == Repo(db.commits + [Commit(Put(HeadTree(db), PathSegments(store.commit, key.text), Leaf(value)).entries, db.percs)],
                      Some(|db.commits|))
    ensures r.Failure? && key.Str? && MatchesKeyFormat(key.text) ==>
      r.error == NotATree && !WellFormedOrAbsent(HeadTree(db))
  {
    match VerifyKeyFormat(key)
    case Fail(e) => Failure(e)
    case Pass =>
      var root := HeadTree(db);
      var segs := PathSegments(store.commit, key.text);
      match SegmentTrees(root, segs)
      case None =>
        PathAvoidsValueName(store.commit, key.text);
        SegmentTreesSucceed(root, segs);
        Failure(NotATree)
      case Some(levels) =>
        // `__setitem__` replaces the deepest recorded tree by the new leaf, then propagates
        WalkThenPropagate(root, segs, Leaf(value));
        var newRoot := Propagate(segs, [root] + levels, |segs| - 1, Leaf(value));
        Success(Repo(db.commits + [Commit(newRoot.entries, db.percs)], Some(|db.commits|)))
  }

  /**
   * A write with a well-formatted key fails only on a head tree that does not
   * have the store's layout, and keeps that layout.
   */
  lemma SetKeepsLayout(db: Repo, store: Store, key: string, value: Bytes)
    requires db.Valid() && db.LaidOut()
    requires MatchesKeyFormat(key)
    ensures SetItem(db, store, Str(key), value).Success?
    ensures SetItem(db, store, Str(key), value).value.LaidOut()
  {
    var r := SetItem(db, store, Str(key), value);
    assert WellFormedOrAbsent(HeadTree(db));
    PathAvoidsValueName(store.commit, key);
    PutWellFormed(HeadTree(db), PathSegments(store.commit, key), Leaf(value));
    var db' := r.value;
    forall i | 0 <= i < |db'.commits| ensures WellFormed(Tree(db'.commits[i].root)) {
      if i < |db.commits| {
        assert db'.commits[i] == db.commits[i];
      }
    }
  }

  /**
   * History: a write appends exactly one commit, makes it the head, gives it
   * the previous head as parent (none when the ref did not exist), and leaves
   * every earlier commit as it was.
   */
  lemma SetAppendsOneCommit(db: Repo, store: Store, key: KeyArg, value: Bytes)
    requires db.Valid() && db.Linear()
    requires SetItem(db, store, key, value).Success?
    ensures var db' := SetItem(db, store, key, value).value;
      && db'.Valid() && db'.Linear()
      && |db'.commits| == |db.commits| + 1
      && db'.commits[..|db.commits|] == db.commits
      && db'.percs == Some(|db.commits|)
      && db'.commits[|db.commits|].parent == db.percs
      && HeadTree(db') == Some(Tree(db'.commits[|db.commits|].root))
  {
    var db' := SetItem(db, store, key, value).value;
    forall i | 0 <= i < |db'.commits| && db'.commits[i].parent.Some?
      ensures db'.commits[i].parent.value < i
    {
      if i < |db.commits| {
        assert db'.commits[i] == db.commits[i];
      }
    }
  }

  /** Round trip: after `store[key] = value`, `store[key]` returns `value`. */
  lemma RoundTrip(db: Repo, store: Store, key: KeyArg, value: Bytes)
    requires db.Valid()
    requires SetItem(db, store, key, value).Success?
    ensures SetItem(db, store, key, value).value.Valid()
    ensures GetItem(SetItem(db, store, key, value).value, store, key.text) == Success(value)
  {
    FindPut(HeadTree(db), PathSegments(store.commit, key.text), Leaf(value));
  }

  /**
   * Frame: a write at one key path leaves every key path that does not extend
   * it reading as before, in this store and in the stores of all other commits.
   */
  lemma SetFrame(db: Repo, store: Store, key: KeyArg, value: Bytes, other: Store, otherKey: string)
    requires db.Valid()
    requires SetItem(db, store, key, value).Success?
    requires !(PathSegments(store.commit, key.text) <= PathSegments(other.commit, otherKey))
    ensures SetItem(db, store, key, value).value.Valid()
    ensures GetItem(SetItem(db, store, key, value).value, other, otherKey) == GetItem(db, other, otherKey)
  {
    var path := PathSegments(store.commit, key.text);
    PathAvoidsValueName(store.commit, key.text);
    ValueOfPutFrame(HeadTree(db), path, PathSegments(other.commit, otherKey), Leaf(value));
  }

  /** Version isolation: a write in one commit's store is invisible to every other commit's store. */
  lemma VersionIsolation(db: Repo, store: Store, key: KeyArg, value: Bytes, other: Store, otherKey: string)
    requires db.Valid()
    requires SetItem(db, store, key, value).Success?
    requires other.commit != store.commit
    ensures SetItem(db, store, key, value).value.Valid()
    ensures GetItem(SetItem(db, store, key, value).value, other, otherKey) == GetItem(db, other, otherKey)
  {
    assert PathSegments(store.commit, key.text)[0] != PathSegments(other.commit, otherKey)[0];
    SetFrame(db, store, key, value, other, otherKey);
  }

  /** Prefix coexistence: writing a deeper key keeps the value of every shallower key on its path. */
  lemma PrefixCoexistence(db: Repo, store: Store, key: KeyArg, value: Bytes, shallower: string)
    requires db.Valid()
    requires SetItem(db, store, key, value).Success?
    requires KeySegments(shallower) < KeySegments(key.text)
    ensures SetItem(db, store, key, value).value.Valid()
    ensures GetItem(SetItem(db, store, key, value).value, store, shallower) == GetItem(db, store, shallower)
  {
    var p := PathSegments(store.commit, key.text);
    var q := PathSegments(store.commit, shallower);
    assert !(p <= q) by {
      assert |q| < |p|;
    }
    SetFrame(db, store, key, value, store, shallower);
  }

  /**
   * Subtree replacement: the write puts a fresh tree holding only `.value` at
   * the key's path, so every key strictly below it is no longer found.
   */
  lemma SubtreeReplaced(db: Repo, store: Store, key: KeyArg, value: Bytes, deeper: string)
    requires db.Valid()
    requires SetItem(db, store, key, value).Success?
    requires KeySegments(key.text) < KeySegments(deeper)
    ensures SetItem(db, store, key, value).value.Valid()
    ensures Find(HeadTree(SetItem(db, store, key, value).value), PathSegments(store.commit, key.text)) == Some(Leaf(value))
    ensures GetItem(SetItem(db, store, key, value).value, store, deeper) == Failure(NotFound)
  {
    var p := PathSegments(store.commit, key.text);
    var q := PathSegments(store.commit, deeper);
    var rest := q[|p|..];
    assert q == p + rest && rest != [] by {
      PathPrefix(store.commit, key.text, deeper);
    }
    var after := SetItem(db, store, key, value).value;
    assert HeadTree(after) == Some(Put(HeadTree(db), p, Leaf(value)));
    FindPut(HeadTree(db), p, Leaf(value));
    FindPutBelow(HeadTree(db), p, rest, Leaf(value));
    LeafHoldsNothingBelow(value, rest);
  }

  /** A key whose segments begin with another's has a path that begins with the other's path. */
  lemma PathPrefix(commit: CommitHex, shallower: string, deeper: string)
    requires KeySegments(shallower) < KeySegments(deeper)
    ensures PathSegments(commit, shallower) < PathSegments(commit, deeper)
  {
    var a, b := KeySegments(shallower), KeySegments(deeper);
    assert [commit] + a == ([commit] + b)[..|a| + 1];
  }

  /** Keys with the same segments are the same key for both reading and writing. */
  lemma SameSegmentsSameKey(db: Repo, store: Store, k1: string, k2: string, value: Bytes)
    requires db.Valid()
    requires KeySegments(k1) == KeySegments(k2)
    ensures GetItem(db, store, k1) == GetItem(db, store, k2)
    ensures MatchesKeyFormat(k1) && MatchesKeyFormat(k2) ==>
      SetItem(db, store, Str(k1), value) == SetItem(db, store, Str(k2), value)
  {
  }

  /** Normalisation: "/a//b/" and "a/b" read the same value and write the same repository. */
  lemma SlashesAreIgnored(db: Repo, store: Store, a: string, b: string, value: Bytes)
    requires db.Valid()
    requires IsSegment(a) && IsSegment(b)
    ensures GetItem(db, store, "/" + a + "//" + b + "/") == GetItem(db, store, a + "/" + b)
    ensures SetItem(db, store, Str("/" + a + "//" + b + "/"), value) == SetItem(db, store, Str(a + "/" + b), value)
  {
    SlashesExample(a, b);
    SingleSegmentKey(a);
    AppendSegment(a, b);
    SameSegmentsSameKey(db, store, "/" + a + "//" + b + "/", a + "/" + b, value);
  }

  /**
   * A key made only of slashes passes the format check and addresses the
   * commit's own node: writing it drops every key of that commit's store,
   * and the value reads back under the empty key.
   */
  lemma SlashOnlyKey(db: Repo, store: Store, value: Bytes, other: string)
    requires db.Valid()
    requires KeySegments(other) != []
    ensures SetItem(db, store, Str("///"), value).Success?
    ensures GetItem(SetItem(db, store, Str("///"), value).value, store, "") == Success(value)
    ensures GetItem(SetItem(db, store, Str("///"), value).value, store, other) == Failure(NotFound)
  {
    FormatExamples();
    assert KeySegments("") == [];
    PathAvoidsValueName(store.commit, "///");
    assert PathSegments(store.commit, "///") == [store.commit];
    RoundTrip(db, store, Str("///"), value);
    SubtreeReplaced(db, store, Str("///"), value, other);
  }

  /**
   * History preservation: overwriting a key leaves the snapshot of the first
   * write in the history, still holding the first value.
   */
  lemma OverwriteKeepsSnapshot(db: Repo, store: Store, key: KeyArg, v1: Bytes, v2: Bytes)
    requires db.Valid()
    requires SetItem(db, store, key, v1).Success?
    requires SetItem(SetItem(db, store, key, v1).value, store, key, v2).Success?
    ensures var db2 := SetItem(SetItem(db, store, key, v1).value, store, key, v2).value;
      && db2.Valid()
      && |db2.commits| == |db.commits| + 2
      && GetItem(db2, store, key.text) == Success(v2)
      && ValueOf(Find(Some(Tree(db2.commits[|db.commits|].root)), PathSegments(store.commit, key.text))) == Some(v1)
  {
    var db1 := SetItem(db, store, key, v1).value;
    RoundTrip(db, store, key, v1);
    RoundTrip(db1, store, key, v2);
  }
}
