/**
 * The usage scenarios the store's unit tests exercise, stated for every
 * value, every commit and every choice of legal key segments (the tests'
 * "foo", "bar" and "baz" are one instance).
 */
module Scenarios {
  import opened Wrappers
  import opened Errors
  import opened Objects
  import opened Keys
  import opened Stores

  /** Two different top-level keys written into a fresh repository both read back. */
  lemma TwoTopLevelKeys(c: CommitHex, k1: string, k2: string, v1: Bytes, v2: Bytes)
    requires IsSegment(k1) && IsSegment(k2) && k1 != k2
    ensures SetItem(EmptyRepo, Store(c), Str(k1), v1).Success?
    ensures var db1 := SetItem(EmptyRepo, Store(c), Str(k1), v1).value;
      && SetItem(db1, Store(c), Str(k2), v2).Success?
      && var db2 := SetItem(db1, Store(c), Str(k2), v2).value;
      && GetItem(db2, Store(c), k1) == Success(v1)
      && GetItem(db2, Store(c), k2) == Success(v2)
  {
    SingleSegmentKey(k1);
    SingleSegmentKey(k2);
    SetKeepsLayout(EmptyRepo, Store(c), k1, v1);
    var db1 := SetItem(EmptyRepo, Store(c), Str(k1), v1).value;
    SetKeepsLayout(db1, Store(c), k2, v2);
    RoundTrip(EmptyRepo, Store(c), Str(k1), v1);
    RoundTrip(db1, Store(c), Str(k2), v2);
    assert PathSegments(c, k2)[1] != PathSegments(c, k1)[1];
    SetFrame(db1, Store(c), Str(k2), v2, Store(c), k1);
  }

  /**
   * After those two writes the head tree holds exactly the two keys under the
   * commit's hex: listing the namespace yields {k1: v1, k2: v2}.
   */
  lemma TwoTopLevelKeysLayout(c: CommitHex, k1: string, k2: string, v1: Bytes, v2: Bytes)
    requires IsSegment(k1) && IsSegment(k2) && k1 != k2
    ensures SetItem(EmptyRepo, Store(c), Str(k1), v1).Success?
    ensures SetItem(SetItem(EmptyRepo, Store(c), Str(k1), v1).value, Store(c), Str(k2), v2).Success?
    ensures var db1 := SetItem(EmptyRepo, Store(c), Str(k1), v1).value;
      var db2 := SetItem(db1, Store(c), Str(k2), v2).value;
      HeadTree(db2) == Some(Tree(map[c := Tree(map[k1 := Leaf(v1), k2 := Leaf(v2)])]))
  {
    TwoTopLevelKeys(c, k1, k2, v1, v2);
    var db1 := SetItem(EmptyRepo, Store(c), Str(k1), v1).value;
    SingleSegmentKey(k1);
    SingleSegmentKey(k2);
    assert PathSegments(c, k1) == [c, k1];
    assert PathSegments(c, k2) == [c, k2];
    FreshTreeForOneKey(c, k1, v1);
    SecondKeyTree(c, k1, k2, v1, v2);
    assert HeadTree(db1) == Some(Put(None, [c, k1], Leaf(v1)));
  }

  lemma FreshTreeForOneKey(c: CommitHex, k1: string, v1: Bytes)
    ensures Put(None, [c, k1], Leaf(v1)) == Tree(map[c := Tree(map[k1 := Leaf(v1)])])
  {
    assert [c, k1][1..] == [k1];
    assert Put(None, [k1], Leaf(v1)) == Tree(map[k1 := Leaf(v1)]);
  }

  lemma SecondKeyTree(c: CommitHex, k1: string, k2: string, v1: Bytes, v2: Bytes)
    requires k1 != k2
    ensures Put(Some(Tree(map[c := Tree(map[k1 := Leaf(v1)])])), [c, k2], Leaf(v2))
         == Tree(map[c := Tree(map[k1 := Leaf(v1), k2 := Leaf(v2)])])
  {
    var inner := Some(Tree(map[k1 := Leaf(v1)]));
    assert [c, k2][1..] == [k2];
    assert Descend(Some(Tree(map[c := Tree(map[k1 := Leaf(v1)])])), c) == inner;
    assert Descend(inner, k2) == None;
    assert Put(inner, [k2], Leaf(v2)) == Tree(map[k1 := Leaf(v1)][k2 := Leaf(v2)]);
  }

  /** Keys written shallow-first along one path (`a`, `a/b`, `a/b/c`) all keep their own values. */
  lemma KeysWithExistingPrefixes(db: Repo, s: Store, a: string, b: string, c: string, v1: Bytes, v2: Bytes, v3: Bytes)
    requires db.Valid() && db.LaidOut()
    requires IsSegment(a) && IsSegment(b) && IsSegment(c)
    ensures SetItem(db, s, Str(a), v1).Success?
    ensures var db1 := SetItem(db, s, Str(a), v1).value;
      && SetItem(db1, s, Str(a + "/" + b), v2).Success?
      && var db2 := SetItem(db1, s, Str(a + "/" + b), v2).value;
      && SetItem(db2, s, Str(a + "/" + b + "/" + c), v3).Success?
      && var db3 := SetItem(db2, s, Str(a + "/" + b + "/" + c), v3).value;
      && GetItem(db3, s, a) == Success(v1)
      && GetItem(db3, s, a + "/" + b) == Success(v2)
      && GetItem(db3, s, a + "/" + b + "/" + c) == Success(v3)
  {
    var ab, abc := a + "/" + b, a + "/" + b + "/" + c;
    SingleSegmentKey(a);
    AppendSegment(a, b);
    AppendSegment(ab, c);
    SetKeepsLayout(db, s, a, v1);
    var db1 := SetItem(db, s, Str(a), v1).value;
    SetKeepsLayout(db1, s, ab, v2);
    var db2 := SetItem(db1, s, Str(ab), v2).value;
    SetKeepsLayout(db2, s, abc, v3);
    RoundTrip(db, s, Str(a), v1);
    RoundTrip(db1, s, Str(ab), v2);
    RoundTrip(db2, s, Str(abc), v3);
    assert [a] < [a, b] < [a, b, c];
    PrefixCoexistence(db1, s, Str(ab), v2, a);
    PrefixCoexistence(db2, s, Str(abc), v3, a);
    PrefixCoexistence(db2, s, Str(abc), v3, ab);
  }

  /** Written the other way round, deep-first, the shallower write drops the deeper key. */
  lemma DeeperKeyLostWhenWrittenFirst(db: Repo, s: Store, a: string, b: string, v1: Bytes, v2: Bytes)
    requires db.Valid() && db.LaidOut()
    requires IsSegment(a) && IsSegment(b)
    ensures SetItem(db, s, Str(a + "/" + b), v2).Success?
    ensures var db1 := SetItem(db, s, Str(a + "/" + b), v2).value;
      && SetItem(db1, s, Str(a), v1).Success?
      && var db2 := SetItem(db1, s, Str(a), v1).value;
      && GetItem(db1, s, a + "/" + b) == Success(v2)
      && GetItem(db2, s, a) == Success(v1)
      && GetItem(db2, s, a + "/" + b) == Failure(NotFound)
  {
    var ab := a + "/" + b;
    SingleSegmentKey(a);
    AppendSegment(a, b);
    SetKeepsLayout(db, s, ab, v2);
    var db1 := SetItem(db, s, Str(ab), v2).value;
    SetKeepsLayout(db1, s, a, v1);
    RoundTrip(db, s, Str(ab), v2);
    RoundTrip(db1, s, Str(a), v1);
    assert [a] < [a, b];
    SubtreeReplaced(db1, s, Str(a), v1, ab);
  }

  /** The same key written in the store of each commit in turn, the i-th value in the i-th store. */
  function WriteEach(db: Repo, commits: seq<CommitHex>, key: string, values: seq<Bytes>): (r: Repo)
    requires db.Valid() && db.LaidOut()
    requires MatchesKeyFormat(key)
    requires |values| == |commits|
    ensures r.Valid() && r.LaidOut()
    ensures |r.commits| == |db.commits| + |commits|
    decreases |commits|
  {
    if commits == [] then db
    else
      var n := |commits| - 1;
      var prev := WriteEach(db, commits[..n], key, values[..n]);
      SetKeepsLayout(prev, Store(commits[n]), key, values[n]);
      SetItem(prev, Store(commits[n]), Str(key), values[n]).value
  }

  /** Stores of distinct commits do not interfere: each reads back its own value for the shared key. */
  lemma StoresDoNotInterfere(db: Repo, commits: seq<CommitHex>, key: string, values: seq<Bytes>)
    requires db.Valid() && db.LaidOut()
    requires MatchesKeyFormat(key)
    requires |values| == |commits|
    requires forall i, j :: 0 <= i < j < |commits| ==> commits[i] != commits[j]
    ensures forall i :: 0 <= i < |commits| ==>
      GetItem(WriteEach(db, commits, key, values), Store(commits[i]), key) == Success(values[i])
  {
    forall i | 0 <= i < |commits|
      ensures GetItem(WriteEach(db, commits, key, values), Store(commits[i]), key) == Success(values[i])
    {
      OwnValueSurvives(db, commits, key, values, i);
    }
  }

  /** The i-th store's value survives the writes made after it in the other stores. */
  lemma {:induction false} OwnValueSurvives(db: Repo, commits: seq<CommitHex>, key: string, values: seq<Bytes>, i: nat)
    requires db.Valid() && db.LaidOut()
    requires MatchesKeyFormat(key)
    requires |values| == |commits|
    requires forall i, j :: 0 <= i < j < |commits| ==> commits[i] != commits[j]
    requires i < |commits|
    ensures GetItem(WriteEach(db, commits, key, values), Store(commits[i]), key) == Success(values[i])
    decreases |commits|
  {
    var n := |commits| - 1;
    var prev := WriteEach(db, commits[..n], key, values[..n]);
    SetKeepsLayout(prev, Store(commits[n]), key, values[n]);
    if i == n {
      RoundTrip(prev, Store(commits[n]), Str(key), values[n]);
    } else {
      OwnValueSurvives(db, commits[..n], key, values[..n], i);
      assert commits[..n][i] == commits[i] && values[..n][i] == values[i];
      VersionIsolation(prev, Store(commits[n]), Str(key), values[n], Store(commits[i]), key);
    }
  }
}
