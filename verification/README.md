# gitpercs per-commit key/value store, modelled in Dafny

gitpercs attaches key/value data to the commits of a Git repository.

- `Repository.store(rev)` hands out one `Store` object per resolved commit. It creates the object on the first request and returns the same object on every later request.
- A `Store` reads and writes keys such as `foo/bar`.

All stores of a repository share one history: the commits of the ref `refs/heads/percs`.

- The root tree of the head commit has one entry per commit hex.
- Below that entry, each key is a path of nested trees.
- The value of a key is a `.value` blob at the end of its path.
- A write rebuilds the trees along one path, copy-on-write, and commits the new root on top of the previous head.

The model has six modules:

- `Objects` (objects.dfy): Git trees and blobs as immutable values, with content addressing as value equality.
  - `Find` and `Put` are the reference lookup and copy-on-write update.
  - `WellFormed` is the layout the store writes.
- `Keys` (keys.dfy): the key format check, and the translation of a key into a tree path.
  - That path is `[commit hex] + the non-empty pieces of key.split('/')`.
  - Python's `split` is modelled exactly, empty pieces included.
- `Stores` (stores.dfy): the history of `refs/heads/percs` and the store operations.
  - The walk down the existing trees (`SegmentTrees`) and the bottom-up rebuild (`Propagate`) follow `_segment_trees` and `_propagate_change` loop by loop.
  - Their composition is proved to be `Put` of a fresh `.value` tree at the key's path.
  - `SetItem` and `GetItem` are then characterised against the reference reading `Stored`.
- `Registry` (registry.dfy): the store registry of `Repository`. A creation serial stands for the identity of each store object.
- `Scenarios` (scenarios.dfy): the behaviours the unit tests exercise. They are stated for every value, every commit and every choice of legal key segments.
- `Wrappers` and `Errors`: `Option`, `Result` and `Outcome`, and one error value per exception the Python code raises.

Errors become values:

| source exception | model value |
|---|---|
| `TypeError` (key is not a string) | `InvalidKeyType` |
| `ValueError` (bad key format) | `InvalidKeyFormat` |
| any failure of a read | `NotFound` |
| the walk of a write meeting a blob where a tree is expected | `NotATree` |
| a revision name that does not resolve | `UnknownRevision` |

Three behaviours of the code are worth stating on their own. The model follows the code in each:

- **A key of slashes only.** `///` passes the pattern `^[a-z0-9-_/:]+$` and has no segments. Writing it replaces the whole subtree of the store's commit. See `Stores.SlashOnlyKey` and `Keys.FormatExamples`.
- **Reads are not validated.** `__getitem__` never calls the format check: any string, including one the check would reject, is split into segments and looked up as it is. See `Stores.GetItem`.
- **A trailing newline.** The class docstring (gitpercs/store.py:24-25) restricts key names to slashes, alphanumerics, dashes, underscores and colons. Python's `$` also matches before a final newline, so `foo\n` passes the format check as well. The newline stays in the key's last segment. See `Keys.MatchesKeyFormat` and `Keys.TrailingNewlineAccepted`.

## Model

| member | source | states |
|---|---|---|
| Keys.VerifyKeyFormat | gitpercs/store.py:143-149 | The check passes exactly for strings matching the key pattern. Anything that is not a string fails with the type error. A string that does not match fails with the format error. |
| Keys.TrailingNewlineAccepted | gitpercs/store.py:146-147 | A legal segment followed by a newline passes the check, because `$` matches before a final newline. The newline remains part of the key's single segment. |
| Keys.FormatChars | gitpercs/store.py:146-147 | A key that passes the check is non-empty. Every character but the last is from the class `[a-z0-9-_/:]` (any case). The last is from the class or is a newline, and a newline can appear only in that last position. |
| Keys.FormatExamples | gitpercs/store.py:143-149 | The tests expect writes with the integer key 123 to raise the type error and writes with `?+<23=?><///` to raise the format error, and they store `foo/bar/baz`, which passes. Two edge cases of the pattern: the empty key fails with the format error, and `///` passes and has no segments. |
| Keys.Split | gitpercs/store.py:162 | `split('/')` always yields at least one piece. What the pieces are is stated by `Keys.JoinSplit`, `Keys.SplitJoin`, `Keys.SplitConcat` and `Keys.SplitPiecesSlashFree`. |
| Keys.NonEmpty | gitpercs/store.py:162 | The filter `[x for x in pieces if x]` keeps every non-empty piece and nothing else: each kept piece is non-empty and taken from the input, and the list never grows. |
| Keys.KeySegments | gitpercs/store.py:162 | The key's segments are exactly the non-empty pieces of `key.split('/')` as a set: every segment is one of the pieces and is non-empty and slash-free, and every non-empty piece is among the segments. |
| Keys.PathSegments | gitpercs/store.py:161-162 | The path is the commit hex followed by exactly the key's segments, in order. Every entry is non-empty and slash-free. |
| Keys.MatchesKeyFormat | gitpercs/store.py:146-147 | Every non-empty run of class characters matches. Anything that matches is non-empty, with every character but the last from the class and the last from the class or a newline. |
| Keys.SplitPiecesSlashFree | gitpercs/store.py:162 | No piece produced by `split('/')` contains a slash. |
| Keys.JoinSplit | gitpercs/store.py:162 | `'/'.join(s.split('/')) == s`: splitting loses nothing. |
| Keys.SplitJoin | gitpercs/store.py:162 | Joining slash-free pieces with `/` and splitting again gives back exactly those pieces. |
| Keys.SplitSlashFree | gitpercs/store.py:162 | A string without a slash splits into itself alone. |
| Keys.SplitConcat | gitpercs/store.py:162 | The pieces of `a/b` are the pieces of `a` followed by those of `b`. |
| Keys.NonEmptyConcat | gitpercs/store.py:162 | Filtering empty pieces distributes over concatenation. |
| Keys.NonEmptyOfNonEmpty | gitpercs/store.py:162 | Filtering a list without empty pieces changes nothing. |
| Keys.KeySegmentsConcat | gitpercs/store.py:162 | The segments of `a/b` are the segments of `a` followed by those of `b`. |
| Keys.AppendSegment | gitpercs/store.py:162 | Appending `/seg` for a legal segment keeps the key well formatted, and adds exactly that segment to the key's segments. |
| Keys.SplitChars | gitpercs/store.py:162 | Every character of a piece of a split is a character of the split string. |
| Keys.KeySegmentsIgnoreExtraSlashes | gitpercs/store.py:24-28 | Leading, trailing and doubled slashes do not change a key's segments. |
| Keys.LeadingSlashIgnored | gitpercs/store.py:24-28 | `/a` has the same segments as `a`. |
| Keys.TrailingSlashIgnored | gitpercs/store.py:24-28 | `a/` has the same segments as `a`. |
| Keys.RepeatedSlashIgnored | gitpercs/store.py:24-28 | `a//b` has the same segments as `a/b`. |
| Keys.SlashesExample | gitpercs/store.py:26-28 | For any two legal segments, the documented spelling `/a//b/` passes the check and names the same segments as `a/b`, namely `[a, b]`. |
| Keys.KeySegmentsCanonical | gitpercs/store.py:162 | Segments are non-empty and slash-free. Re-joining them with `/` gives a key with exactly the same segments. |
| Keys.ValidKeySegments | gitpercs/store.py:146-162 | A key that passes the check never yields a segment named `.value`. Without a trailing newline, each of its segments is a legal segment. |
| Keys.CommitHexIsSegment | gitpercs/store.py:162 | The commit hex that heads every path is a legal segment, so it never collides with `.value`. |
| Keys.PathAvoidsValueName | gitpercs/store.py:161-162 | No segment of the tree path of a well-formatted key is `.value`. |
| Keys.SingleSegmentKey | gitpercs/store.py:162 | A key that is one legal segment passes the check and names exactly that segment. |
| Objects.Put | gitpercs/store.py:179-198 | The copy-on-write update of a non-empty path yields a tree with an entry for the path's first segment. It is the reference the propagation is proved equal to. |
| Objects.Leaf | gitpercs/store.py:99-103 | The tree a write creates holds exactly one entry, `.value`, and reads back as the written bytes. |
| Objects.FindPut | gitpercs/store.py:97-108 | After the copy-on-write update, the written path leads to exactly the new node. |
| Objects.FindPutBelow | gitpercs/store.py:97-103 | A path below the written one now leads into the new node, so the old subtree there is gone. |
| Objects.FindPutDiverge | gitpercs/store.py:190-197 | A path that branches off the written one reaches the same node as before, because rebuilt trees keep all their other entries. |
| Objects.ValueOfPutAncestor | gitpercs/store.py:190-197 | A proper ancestor of the written path keeps its `.value`, because it is rebuilt from its existing entries. |
| Objects.ValueOfPutFrame | gitpercs/store.py:179-198 | Every path that does not extend the written path keeps its value. |
| Objects.LeafHoldsNothingBelow | gitpercs/store.py:99-103 | A freshly written `.value` tree holds no value below itself. |
| Objects.FindFromBlobOrAbsent | gitpercs/store.py:166-176 | Nothing is reached from an absent node or through a blob. |
| Objects.PutWellFormed | gitpercs/store.py:33-57 | Writing a well-formed node along a path without `.value` segments keeps the layout: `.value` entries are blobs and all other entries are such trees. |
| Objects.FindWellFormed | gitpercs/store.py:33-57 | In the store's layout, a path without `.value` segments reaches only trees, never a blob. |
| Stores.HeadTree | gitpercs/store.py:154-159 | There is a head tree exactly when `refs/heads/percs` exists. It is then the root tree of the commit the ref targets. |
| Stores.SegmentTrees | gitpercs/store.py:164-177 | The walk records one node per segment, each the child of the previous one (or absent once the path is gone). The last recorded node is the node at the whole path. The walk can fail only when the path is absent. `Stores.SegmentTreesFailure` gives the exact condition: a proper prefix of the path leads to a blob. |
| Stores.SegmentTreesFailure | gitpercs/store.py:164-177 | The walk fails exactly when some proper prefix of the path (the empty prefix included) leads to a blob, that is, when the loop would have to index into a blob. |
| Stores.Propagate | gitpercs/store.py:179-198 | Each rebuilt level is a tree. What the rebuilt root is, is stated by `Stores.PropagateIsPut`. |
| Stores.PropagateIsPut | gitpercs/store.py:179-198 | Rebuilding from level `n` up to the root, starting from the update of the levels below `n`, gives the copy-on-write update of the whole path. |
| Stores.WalkThenPropagate | gitpercs/store.py:86-108 | Recording the walk and then propagating a new leaf up through it gives the copy-on-write update of the root along the key path. |
| Stores.SegmentTreesSucceed | gitpercs/store.py:164-177 | In the store's layout, the walk along a path without `.value` segments always completes. |
| Stores.GetItem | gitpercs/store.py:120-141 | A read succeeds exactly when the head tree holds a `.value` blob at the key's path, and then returns its bytes. Every other outcome is not-found. |
| Stores.SetItem | gitpercs/store.py:74-118 | A non-string key gives the type error. A bad format gives the format error. Otherwise the write appends one commit and moves the ref to it. That commit's root is the old head with a fresh `.value` tree put at the key's path, and its parent is the old head. The write fails otherwise only on a head that lacks the store's layout. |
| Stores.SetKeepsLayout | gitpercs/store.py:33-57 | On a repository in the store's layout, every well-formatted write succeeds and keeps the layout in every snapshot. |
| Stores.SetAppendsOneCommit | gitpercs/store.py:110-118 | A write appends exactly one commit and makes it the head. Its parent is the previous head, or none when the ref did not exist. Earlier commits are unchanged. |
| Stores.RoundTrip | gitpercs/store.py:74-141 | After `store[key] = value`, `store[key]` returns `value`. |
| Stores.SetFrame | gitpercs/store.py:179-198 | A write leaves the reading of every key path that does not extend its own unchanged, in every store. |
| Stores.VersionIsolation | gitpercs/store.py:33-51 | A write in one commit's store changes no reading in the store of any other commit. |
| Stores.PrefixCoexistence | gitpercs/store.py:53-57 | Writing a deeper key keeps the value of every shallower key on its path. |
| Stores.SubtreeReplaced | gitpercs/store.py:97-103 | A write puts a fresh `.value` tree at the key's path, so every deeper key becomes not-found. |
| Stores.SameSegmentsSameKey | gitpercs/store.py:161-162 | Keys with the same segments read the same value. When both are well formatted, they also write the same repository. |
| Stores.SlashesAreIgnored | gitpercs/store.py:24-28 | `/a//b/` and `a/b` read alike and write the same repository. |
| Stores.SlashOnlyKey | gitpercs/store.py:143-162 | `///` is accepted and addresses the commit's own tree. Writing it makes the empty key read back the value, and every key with segments becomes not-found. |
| Stores.OverwriteKeepsSnapshot | gitpercs/store.py:110-118 | Overwriting a key reads the new value. The previous snapshot stays in the history with the old value. |
| Registry.NewRegistry | gitpercs/repository.py:19-21 | A new repository object starts with no stores, in a consistent registry. |
| Registry.StoreFor | gitpercs/repository.py:39-42 | Requesting a commit returns a store for that commit, registered under it, and keeps all other entries. A registered commit returns the registered object and leaves the registry as it was. A new commit gets a new object that differs from every existing one. |
| Registry.StoreForEach | gitpercs/repository.py:39-42 | A sequence of requests keeps the registry consistent and returns one store object per request. |
| Registry.StoreForEachKeeps | gitpercs/repository.py:39-42 | A sequence of requests keeps every store object already handed out. |
| Registry.StoreForEachCovers | gitpercs/repository.py:39-42 | After a sequence of requests, the registry holds exactly the earlier commits and the requested ones. |
| Registry.StoreForEachRegisters | gitpercs/repository.py:39-42 | The i-th object returned is a store for the i-th requested commit, and is the object registered for it. |
| Registry.SameObjectIffSameCommit | gitpercs/repository.py:26-29 | Two requests return the same store object exactly when they ask for the same commit. |
| Registry.SameCommitSameStore | gitpercs/repository.py:39-42 | Asking twice for the same commit returns the same object, and the second request changes nothing. |
| Registry.StoreForRev | gitpercs/repository.py:23-42 | A commit object is used as given, and a name is resolved first. The call succeeds exactly when the argument is a commit object or a name that resolves. A name that does not resolve fails with `UnknownRevision`. On success the result is the store registered for the resolved commit, the one already there if any. |
| Registry.KeyedByResolvedCommit | gitpercs/repository.py:26-30 | A name yields the same store object again exactly when it still resolves to the same commit. A commit object and a name that resolve alike yield the same store object. |
| Scenarios.TwoTopLevelKeys | gitpercs/store_tests.py:67-72 | Two different top-level keys written into a fresh repository both read back. |
| Scenarios.TwoTopLevelKeysLayout | gitpercs/store.py:33-50 | After those writes, the head tree holds exactly the commit's subtree with the two `.value` trees. |
| Scenarios.KeysWithExistingPrefixes | gitpercs/store_tests.py:85-92 | The keys `a`, `a/b` and `a/b/c`, written in that order, all keep their values. |
| Scenarios.DeeperKeyLostWhenWrittenFirst | gitpercs/store.py:97-103 | If `a/b` is written before `a`, the write of `a` drops `a/b`. |
| Scenarios.WriteEach | gitpercs/store_tests.py:96-98 | The writes of the loop keep the history valid and in the store's layout, and together add exactly one commit per store. |
| Scenarios.StoresDoNotInterfere | gitpercs/store_tests.py:94-100 | When one key is written in the store of each distinct commit in turn, each store reads back its own value. |
| Scenarios.OwnValueSurvives | gitpercs/store_tests.py:94-100 | The value in the i-th store survives the writes to the later stores. |

## Left out

- Object ids, file modes (`0100644`, `0040000`), `TreeBuilder` and writes to the object database: objects are values, and equal content is the same object.
- Commit metadata: the author, the committer and the message `Update <hex>/<key>` (gitpercs/store.py:113-117). They do not affect any stored data.
- `str(value)`: values are modelled as byte strings already converted.
- Reading with a non-string key, which raises `AttributeError` in `_path_segments`: `GetItem` takes a string.
- Exception kinds on a read: a missing path (`TypeError` on `None`), a missing `.value` (`KeyError`) and a non-blob `.value` all become `NotFound`.
- `pygit2.GitError` on lookups of missing objects (gitpercs/store.py:173): in the model every referenced object exists.
- `Stores.SegmentTrees`: indexing into a blob during the walk is taken to raise `TypeError` (uncaught); the write then fails with `NotATree`. Writes of well-formatted keys never reach this case in the store's own layout (`Stores.SetKeepsLayout`).
- The truthiness test `if tree:` treats an empty tree like a missing one. The model does not distinguish the two, because an empty tree has no entries to walk into and is rebuilt as an empty builder either way.
- `revparse_single`: a parameter `resolve` of `Registry.StoreForRev`. A name that resolves to a non-commit object is not modelled.
- Commit objects as dictionary keys: the registry is keyed by the commit hex, taking two commit objects for the same commit as the same key. Store identity is a creation serial.
- The back-reference from a store to its repository object, and the pygit2 repository the registry holds: a store is modelled by its commit alone and is given the history explicitly.
- Concurrent writers racing on `refs/heads/percs`: every operation is atomic in the model.
- `basestring` is modelled as a string/not-a-string choice. Case-insensitive matching is ASCII only, as for Python 2 byte strings.
- Keys.Split: its own contract states only that there is at least one piece. The pieces are characterised by `Keys.JoinSplit`, `Keys.SplitJoin`, `Keys.SplitConcat` and `Keys.SplitPiecesSlashFree`.
- Objects.Put: its own contract is structural only. Its meaning is given by `Objects.FindPut`, `Objects.FindPutBelow`, `Objects.FindPutDiverge` and `Objects.ValueOfPutAncestor`.
- Stores.Propagate: its own contract states only that the result is a tree. `Stores.PropagateIsPut` states what it builds.
- Registry.StoreForEach: its own contract states consistency and length. `Registry.StoreForEachKeeps`, `Registry.StoreForEachCovers` and `Registry.StoreForEachRegisters` state the contents.
- Keys.NonEmpty: its contract does not state the order of the kept pieces. `Keys.NonEmptyConcat` and `Keys.NonEmptyOfNonEmpty` determine it.
- Scenarios.WriteEach: its contract states validity, layout and the number of commits only. What each store reads back afterwards is stated by `Scenarios.OwnValueSurvives` and `Scenarios.StoresDoNotInterfere`.
- Keys.KeySegments: its contract fixes the segments as a set, not their order or repetitions. `Keys.KeySegmentsConcat` and `Keys.KeySegmentsCanonical` determine those.
