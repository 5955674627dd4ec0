/**
 * The store registry of a repository: one store object per resolved commit,
 * created on first request and handed out again on every later one.
 */
module Registry {
  import opened Wrappers
  import opened Errors
  import opened Keys
  import opened Stores

  /** A store object handed out by the registry; `serial` stands for the object's identity. */
  datatype Instance = Instance(serial: nat, store: Store)

  /**
   * `Repository._stores`: the store object created for each resolved commit,
   * and how many store objects have been created.
   */
  datatype Registry = Registry(stores: map<CommitHex, Instance>, created: nat) {

    /** Each entry is a store for its own commit, and no two entries are the same object. */
    predicate Valid()
    {
      && (forall c :: c in stores ==> stores[c].store.commit == c && stores[c].serial < created)
      && (forall c1, c2 :: c1 in stores && c2 in stores && c1 != c2 ==> stores[c1].serial != stores[c2].serial)
    }
  }

  /** `Repository.__init__`: the registry starts without stores. */
  function NewRegistry(): (r: Registry)
    ensures r.Valid()
    ensures r.stores == map[]
  {
    Registry(map[], 0)
  }

  /**
   * `Repository.store` for a resolved commit: the store registered for it,
   * or a new store object registered first when there is none.
   */
  function StoreFor(reg: Registry, commit: CommitHex): (res: (Registry, Instance))
    requires reg.Valid()
    ensures res.0.Valid()
    ensures res.1.store.commit == commit
    ensures res.0.stores.Keys == reg.stores.Keys + {commit}
    ensures commit in res.0.stores && res.0.stores[commit] == res.1
    ensures forall c :: c in reg.stores ==> res.0.stores[c] == reg.stores[c]
    ensures commit in reg.stores ==> res == (reg, reg.stores[commit])
    ensures commit !in reg.stores ==> forall c :: c in reg.stores ==> reg.stores[c].serial != res.1.serial
  {
    if commit in reg.stores then (reg, reg.stores[commit])
    else
      var inst := Instance(reg.created, Store(commit));
      (Registry(reg.stores[commit := inst], reg.created + 1), inst)
  }

  /** A sequence of `Repository.store` calls, one per commit, in order. */
  function StoreForEach(reg: Registry, commits: seq<CommitHex>): (res: (Registry, seq<Instance>))
    requires reg.Valid()
    ensures res.0.Valid()
    ensures |res.1| == |commits|
    decreases |commits|
  {
    if commits == [] then (reg, [])
    else
      var first := StoreFor(reg, commits[0]);
      var after := StoreForEach(first.0, commits[1..]);
      (after.0, [first.1] + after.1)
  }

  /** A sequence of requests keeps every store object already registered. */
  lemma {:induction false} StoreForEachKeeps(reg: Registry, commits: seq<CommitHex>)
    requires reg.Valid()
    ensures var res := StoreForEach(reg, commits);
      forall c :: c in reg.stores ==> c in res.0.stores && res.0.stores[c] == reg.stores[c]
    decreases |commits|
  {
    if commits != [] {
      StoreForEachKeeps(StoreFor(reg, commits[0]).0, commits[1..]);
    }
  }

  /** After a sequence of requests the registry holds exactly the old commits and the requested ones. */
  lemma {:induction false} StoreForEachCovers(reg: Registry, commits: seq<CommitHex>)
    requires reg.Valid()
    ensures forall c :: c in StoreForEach(reg, commits).0.stores <==> c in reg.stores || c in commits
    decreases |commits|
  {
    if commits != [] {
      var first := StoreFor(reg, commits[0]);
      StoreForEachCovers(first.0, commits[1..]);
      assert StoreForEach(reg, commits).0 == StoreForEach(first.0, commits[1..]).0;
      forall c | c in commits && c != commits[0] ensures c in commits[1..] {
        var k :| 0 <= k < |commits| && commits[k] == c;
        assert commits[1..][k - 1] == c;
      }
    }
  }

  /** The i-th object returned is the store for the i-th commit, and the one registered for it. */
  lemma {:induction false} StoreForEachRegisters(reg: Registry, commits: seq<CommitHex>)
    requires reg.Valid()
    ensures var res := StoreForEach(reg, commits);
      forall i :: 0 <= i < |commits| ==>
        res.1[i].store.commit == commits[i] && commits[i] in res.0.stores && res.0.stores[commits[i]] == res.1[i]
    decreases |commits|
  {
    if commits != [] {
      var first := StoreFor(reg, commits[0]);
      var after := StoreForEach(first.0, commits[1..]);
      StoreForEachRegisters(first.0, commits[1..]);
      StoreForEachKeeps(first.0, commits[1..]);
      var res := StoreForEach(reg, commits);
      assert res == (after.0, [first.1] + after.1);
      forall i | 0 < i < |commits|
        ensures res.1[i].store.commit == commits[i] && commits[i] in res.0.stores && res.0.stores[commits[i]] == res.1[i]
      {
        assert commits[i] == commits[1..][i - 1] && res.1[i] == after.1[i - 1];
      }
    }
  }

  /**
   * Identity over any sequence of requests: two of them return the same store
   * object exactly when they ask for the same commit.
   */
  lemma SameObjectIffSameCommit(reg: Registry, commits: seq<CommitHex>, i: nat, j: nat)
    requires reg.Valid()
    requires i < |commits| && j < |commits|
    ensures StoreForEach(reg, commits).1[i] == StoreForEach(reg, commits).1[j] <==> commits[i] == commits[j]
    ensures StoreForEach(reg, commits).1[i].serial == StoreForEach(reg, commits).1[j].serial <==> commits[i] == commits[j]
  {
    var res := StoreForEach(reg, commits);
    StoreForEachRegisters(reg, commits);
    assert res.0.stores[commits[i]] == res.1[i];
    assert res.0.stores[commits[j]] == res.1[j];
  }

  /** Asking twice for the same commit gives the same store object and leaves the registry as it was. */
  lemma SameCommitSameStore(reg: Registry, commit: CommitHex)
    requires reg.Valid()
    ensures StoreFor(StoreFor(reg, commit).0, commit) == StoreFor(reg, commit)
  {
  }

  /** A revision argument: a commit object, or a name that git resolves (a ref, a SHA-1). */
  datatype Rev = CommitObject(commit: CommitHex) | Name(name: string)

  /**
   * `Repository.store`: resolve the revision (a commit object is taken as it
   * is; a name goes through `resolve`, standing for `revparse_single`), then
   * look up or create the store for the resolved commit.
   */
  function StoreForRev(reg: Registry, rev: Rev, resolve: string -> Option<CommitHex>): (r: Result<(Registry, Instance), Error>)
    requires reg.Valid()
    ensures r.Success? <==> rev.CommitObject? || resolve(rev.name).Some?
    ensures rev.Name? && resolve(rev.name).None? ==> r == Failure(UnknownRevision)
    ensures r.Success? ==> r.value.0.Valid()
    ensures r.Success? ==>
      var c := if rev.CommitObject? then rev.commit else resolve(rev.name).value;
      && r.value.1.store.commit == c
      && r.value.0.stores.Keys == reg.stores.Keys + {c}
      && r.value.0.stores[c] == r.value.1
      && (c in reg.stores ==> r.value.1 == reg.stores[c])
  {
    match rev
    case CommitObject(c) => Success(StoreFor(reg, c))
    case Name(n) =>
      match resolve(n)
      case None => Failure(UnknownRevision)
      case Some(c) => Success(StoreFor(reg, c))
  }

  /**
   * The registry is keyed by resolved commit, never by the name asked for:
   * a name that moves to another commit yields another store object, and a
   * name and a commit object that resolve alike yield the same one.
   */
  lemma KeyedByResolvedCommit(reg: Registry, name: string, before: string -> Option<CommitHex>, after: string -> Option<CommitHex>)
    requires reg.Valid()
    requires before(name).Some? && after(name).Some?
    ensures StoreForRev(reg, Name(name), before).Success?
    ensures var r1 := StoreForRev(reg, Name(name), before).value;
      && StoreForRev(r1.0, Name(name), after).Success?
      && (StoreForRev(r1.0, Name(name), after).value.1 == r1.1 <==> after(name) == before(name))
      && StoreForRev(r1.0, CommitObject(before(name).value), after) == Success((r1.0, r1.1))
  {
    var r1 := StoreForRev(reg, Name(name), before).value;
    var r2 := StoreForRev(r1.0, Name(name), after).value;
    if after(name) != before(name) {
      assert r2.1.store.commit != r1.1.store.commit;
    }
  }
}
