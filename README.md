# Path-addressed bucket facade over an embedded key/value store

This project models the facade in `bucket.go` of a small Go wrapper around
the bbolt embedded store. A key path is a list of byte-string segments. The
facade walks the nested buckets that the leading segments name, creating them
on the way or failing when one is missing. It then applies one operation at
the end of the walk: put, get, delete or scan.

The store underneath is abstract. It is a tree of nested buckets, kept flat:

- a bucket is known by its path from the root;
- a leaf is known by its bucket's path followed by its key.

In a valid store:

- the root holds buckets only;
- every bucket and leaf sits inside a bucket;
- no name is empty;
- no name in a bucket is both a child bucket and a leaf.

Iteration is in ascending byte-lexicographic order. The engine behaviour the
facade relies on is written as functions over a valid store (`Engine`):

- `Bucket` returns nothing for a missing name or a leaf;
- `CreateBucketIfNotExists` refuses an empty name and a leaf name;
- `Put` refuses an empty key and a key naming a bucket;
- `Delete` of an absent key is a no-op;
- `DeleteBucket` of a missing name is `BucketNotFound`.

Modules:

- `ByteKeys`: byte order, prefixes, sorting, a cursor's seek, and the
  prefix-contiguity lemma.
- `Engine`: the abstract store and the engine primitives.
- `Resolver`: `getBucket` as a recursive walk, with closed forms of the
  creating walk and the non-creating walk.
- `Dispatch`: `CreateBucket`, `Set`, `Get`, `Del` as functions of the store
  before the call, the handle's deferred error and the key path. It also
  holds the round-trip and frame lemmas.
- `ScanSpec`: the sequence of visitor calls `Scan` makes (its plan), the run
  that stops at the first visitor error, and the clearing of the stop
  sentinels. It also holds lemmas on each scan mode.
- `Facade`:
  - the handle as a class `Tx`, holding the store in a mutable field and the
    deferred error in a constant;
  - `getBucket` (its creating loop, and the read-only loop for lookups) and
    the cursor loop as `while` loops;
  - each method proved equal to its `Resolver`, `Dispatch` or `ScanSpec`
    function.

The visitor is a function from a call `(key, value, bucket)` to an optional
error. No call repeats within one scan, so a stateful visitor answers a scan
exactly as some such function does.

With a non-empty prefix, the cursor pass does not skip child buckets. A child
bucket whose name matches the prefix is therefore reported twice: once as
`(name, nil, true)` and once as `(name, nil, false)`. The model keeps this,
and `ScanSpec.PrefixReportsBucketTwice` states it. Without a prefix no name is
reported twice (`ScanSpec.NoPrefixScan`).

Two facts about the code that the model keeps:

- db.go:13 exports `ErrBucketExists`, but bucket.go never returns it.
  `getBucket` creates through `CreateBucketIfNotExists`, which accepts an
  existing bucket and fails with `IncompatibleValue` on a leaf of that name.
- A failed `Set` or `CreateBucket` keeps the buckets created before the
  failing segment. The code does not undo them; only the surrounding
  transaction can (`Dispatch.CreateBucketFails`, `Dispatch.SetFails`).

## Model

| member | source | states |
|---|---|---|
| ByteKeys.HasPrefix | bucket.go:165 | bytes.HasPrefix; its order properties are stated by PrefixNotBelow, PrefixBetween and PrefixRun |
| ByteKeys.PrefixNotBelow | bucket.go:173 | a key that starts with p sorts at or after p, so Seek(p) skips no matching key |
| ByteKeys.PrefixBetween | bucket.go:174-176 | a key sorting between p and a key that starts with p starts with p too, so the matching keys are contiguous |
| ByteKeys.Sort | bucket.go:154-162 | the names of a bucket in engine iteration order: strictly ascending, and exactly the given set |
| ByteKeys.Seek | bucket.go:173 | a cursor's Seek(p): every key before the position sorts below p, and the key at it is at or after p |
| ByteKeys.RunEnd | bucket.go:173-176 | the first position at or after i whose key lacks the prefix: every key in between has it |
| ByteKeys.PrefixRun | bucket.go:172-180 | in sorted keys, a key starts with p exactly when it lies between Seek(p) and the first non-matching key after it |
| Engine.Bucket | bucket.go:49-51 | a child bucket's reference exactly when the name is a child bucket; nil for a missing name and for a leaf |
| Engine.CreateBucketIfNotExists | bucket.go:43-45 | on success, the child path is a bucket and only it was added; on failure nothing changes; leaves are never touched; validity is kept |
| Engine.Put | bucket.go:91 | on success exactly that leaf is set; on failure nothing changes; buckets are never touched |
| Engine.GetValue | bucket.go:109 | a value exactly when the name is a leaf, and then that leaf's value; nil for a missing name and for a child bucket |
| Engine.Delete | bucket.go:130 | refuses a child bucket's name with IncompatibleValue and nothing changed; otherwise removes that leaf (a no-op when absent); buckets never change |
| Engine.DeleteBucket | bucket.go:127-128 | succeeds exactly when the name is a child bucket, and then removes that subtree; otherwise nothing changes |
| Engine.BucketNames | bucket.go:154 | a name is listed exactly when it names a child bucket |
| Engine.LeafNames | bucket.go:157-162 | a name is listed exactly when it names a leaf |
| Engine.ChildBuckets | bucket.go:144 | ForEachBucket and Tx.ForEach; ChildBucketsListed states that each child bucket is listed once, ascending, and nothing else |
| Engine.ChildBucketsListed | bucket.go:154 | the listing is strictly ascending and holds exactly the child buckets' names |
| Engine.Keys | bucket.go:157 | ForEach and a cursor's Seek/Next; KeysListed states that each name is listed once, ascending, and nothing else |
| Engine.KeysListed | bucket.go:172-173 | the listing is strictly ascending and holds exactly the names of child buckets and leaves |
| Engine.AncestorsAreBuckets | bucket.go:40-63 | in a valid store every non-empty prefix of a bucket path is a bucket |
| Resolver.Walk | bucket.go:40-63 | the walk keeps the store valid, changes no leaf, removes no bucket, and ends at a bucket reference as deep as the path |
| Resolver.Resolve | bucket.go:30-66 | the deferred error is returned first and an empty path is BucketNameRequired, both with the store unchanged; a success is a bucket |
| Resolver.CreateWalk | bucket.go:40-57 | the creating walk adds every prefix up to the first blocked segment, and then either succeeds or fails with that segment's error |
| Resolver.FindWalk | bucket.go:47-62 | the non-creating walk changes nothing; it succeeds exactly when the whole path is a bucket, and otherwise fails with BucketNotFound |
| Resolver.LookupExact | bucket.go:30-66 | non-creating resolution of a non-empty path changes nothing; it returns the path if it is a bucket, and BucketNotFound otherwise |
| Resolver.CreateChain | bucket.go:40-46 | creating resolution succeeds exactly when no segment is empty and no prefix is a leaf; it then adds exactly the path's prefixes as buckets |
| Resolver.CreateChainFails | bucket.go:41-57 | a failed creating resolution stops at the first blocked segment, with that segment's error, after adding exactly the prefixes before it |
| Dispatch.CreateBucket | bucket.go:74-77 | deferred error first; an empty path is BucketNameRequired; otherwise success exactly when the chain is clear, which makes every prefix a bucket and keeps every leaf |
| Dispatch.CreateBucketFails | bucket.go:74-77 | a failed CreateBucket stops at the first empty segment (BucketNameRequired) or leaf prefix (IncompatibleValue), after creating exactly the prefixes before it |
| Dispatch.Set | bucket.go:79-95 | deferred error first; length 0 is KeyRequired and length 1 is BucketNameRequired, with nothing changed; longer paths succeed exactly when allowed, and then add the prefix buckets and set exactly this leaf; a failure changes no leaf and removes no bucket (the error and the buckets left: SetFails) |
| Dispatch.PutAt | bucket.go:89-92 | bucketKeySplit with create, then Put: succeeds exactly when allowed; a failure changes no leaf (which error, and which buckets it leaves: SetFails) |
| Dispatch.SetFails | bucket.go:79-95 | a failed Set of two or more segments: a blocked bucket part fails at its first blocked segment with that segment's error after creating the prefixes before it; with the part clear, an empty key is KeyRequired after creating the whole part, and a key naming a bucket is IncompatibleValue with nothing changed |
| Dispatch.SetChainBlocked | bucket.go:43-45 | with a blocked bucket part, Set ends where creating resolution of that part ends: the first blocked segment's error, and exactly the prefixes before it created |
| Dispatch.ChainThenPut | bucket.go:89-92 | the two steps of the default branch: resolution fails only when Set is not allowed; on success it returns the bucket part after creating exactly its prefixes, and Put then succeeds exactly when Set is allowed, setting exactly this leaf |
| Dispatch.PutInChain | bucket.go:91 | Put into the freshly created bucket part: succeeds exactly when allowed; an empty key is KeyRequired and a key naming a bucket IncompatibleValue, the latter with the store as before the call |
| Dispatch.SetAfterChain | bucket.go:89-92 | with a clear bucket part, Set creates the whole part and then an empty key is KeyRequired and a key naming a bucket IncompatibleValue |
| Dispatch.Get | bucket.go:97-113 | deferred error first; length 0 is KeyRequired and length 1 is BucketNameRequired; otherwise a missing bucket part is BucketNotFound, a leaf gives its value, and anything else gives no value and no error |
| Dispatch.Del | bucket.go:115-135 | deferred error first; length 0 is KeyRequired; length 1 removes that top-level bucket's subtree or is BucketNotFound; longer paths give BucketNotFound for a missing bucket part, and otherwise remove the child subtree or the leaf (a no-op when absent) |
| Dispatch.CreateBucketIdempotent | bucket.go:74-77 | when no segment is empty and no prefix is a leaf, creating succeeds, and creating the same path a second time succeeds and changes nothing |
| Dispatch.SetThenGet | bucket.go:79-113 | when Set is allowed it succeeds, and Get of the same path then returns the value set |
| Dispatch.SetKeepsOthers | bucket.go:89-92 | a successful Set leaves Get of every other key path unchanged, when that path's bucket part already existed (otherwise Set may have created it) |
| Dispatch.DelBucketThenGet | bucket.go:120-129 | after Del of a bucket, Get of any key under it is BucketNotFound |
| Dispatch.DelLeafThenGet | bucket.go:126-131 | after Del of a non-bucket key in an existing bucket, Get of it returns no value and no error |
| Dispatch.DelKeepsSiblings | bucket.go:115-135 | Del of an existing bucket, or of any key in an existing bucket, succeeds and leaves Get of every key path outside the removed part unchanged |
| ScanSpec.KeepPrefix | bucket.go:165 | the closure's prefix test; PrefixBucketPass and PrefixKeyPass state that exactly the matching names pass |
| ScanSpec.KeepNonBucket | bucket.go:158 | the closure's bucket.Bucket(k) == nil test; LeafPass states that exactly the leaves pass |
| ScanSpec.Run | bucket.go:144-178 | calling the visitor along a plan until a call returns an error; its properties are stated by RunStopsAtFirstError and RunAppend |
| ScanSpec.RunStopsAtFirstError | bucket.go:164-180 | the calls made are a prefix of the plan; every call but the last returned nil; the run ends early only after an error, which it returns; with no error every call is made |
| ScanSpec.Normalize | bucket.go:185-187 | io.EOF, fs.SkipAll and fs.SkipDir become nil, and every other error is kept unchanged |
| ScanSpec.Plan | bucket.go:143-181 | the empty path plans the root pass; a path that is not a bucket is BucketNotFound; a bucket plans the no-prefix passes for an empty prefix and the prefix passes otherwise |
| ScanSpec.RootPlan | bucket.go:143-146 | the root pass, whose properties RootScan states: each top-level bucket once as (name, nil, true), ascending |
| ScanSpec.NoPrefixPlan | bucket.go:153-162 | the no-prefix passes, whose properties NoPrefixScan, BucketPass and LeafPass state: child buckets, then leaves with their values, no name twice |
| ScanSpec.PrefixPlan | bucket.go:163-181 | the prefix passes, whose properties PrefixScan, PrefixBucketPass, PrefixKeyPass and PrefixReportsBucketTwice state |
| ScanSpec.Scan | bucket.go:137-189 | a deferred error is returned before any call; a missing bucket path is BucketNotFound with no call; an empty path or an existing bucket always gets a plan |
| ScanSpec.ScanStopsAtFirstError | bucket.go:137-189 | a scan calls a prefix of its plan and stops right after the first failing call; it returns that error unless it is a stop sentinel; a returned error is never a sentinel |
| ScanSpec.RunAppend | bucket.go:153-162 | running two passes in turn is running their concatenation; an error in the first pass skips the second |
| ScanSpec.RootScan | bucket.go:143-146 | an empty path visits each top-level bucket once as (name, nil, true), in ascending order, whatever the prefix |
| ScanSpec.BucketPass | bucket.go:154 | the bucket pass calls (name, nil, true) for exactly the child buckets, in ascending order |
| ScanSpec.LeafPass | bucket.go:157-162 | the second no-prefix pass calls (name, value, false) for exactly the leaves, each with its value, in ascending order |
| ScanSpec.NoPrefixScan | bucket.go:153-162 | without a prefix, the buckets come first and then the leaves, each pass ascending; every child bucket and every leaf is visited, and no name twice |
| ScanSpec.PrefixBucketPass | bucket.go:164-171 | the filtered bucket pass calls (name, nil, true) for exactly the child buckets that start with the prefix, in ascending order |
| ScanSpec.PrefixKeyPass | bucket.go:172-180 | the cursor pass calls (name, value, false) for exactly the names that start with the prefix, buckets included with value nil, in ascending order |
| ScanSpec.PrefixScan | bucket.go:163-181 | with a prefix, every visited name has it; matching buckets come first, then every matching name with its value; each pass ascends |
| ScanSpec.PrefixReportsBucketTwice | bucket.go:164-180 | with a prefix, a matching child bucket is visited both as (name, nil, true) and as (name, nil, false) |
| ScanSpec.SeekRunIsFilter | bucket.go:172-180 | seeking to the prefix and stopping at the first non-matching key visits exactly the keys the prefix filter accepts, in order |
| Facade.ForEach | bucket.go:154-171 | iterating with a filtering closure makes exactly the calls of the filtered plan, up to and including the first failing one |
| Facade.Cursor | bucket.go:172-180 | the Seek/Next loop with its two breaks makes exactly the calls of the prefix-filtered key pass, up to and including the first failing one |
| Facade.Tx.GetBucket | bucket.go:30-66 | the segment loop leaves the store and returns the result that Resolve prescribes, keeping the store valid |
| Facade.Tx.LookupBucket | bucket.go:30-66 | the segment loop with create false reads the store only, and its result is that of Resolve without creating |
| Facade.Tx.BucketKeySplit | bucket.go:68-72 | the last segment is the key, and the rest is resolved as getBucket prescribes |
| Facade.Tx.CreateBucket | bucket.go:74-77 | the new store and error are those of Dispatch.CreateBucket |
| Facade.Tx.Set | bucket.go:79-95 | the new store and error are those of Dispatch.Set |
| Facade.Tx.Get | bucket.go:97-113 | reads the store only (no modifies clause), and the result is that of Dispatch.Get |
| Facade.Tx.Del | bucket.go:115-135 | the new store and error are those of Dispatch.Del |
| Facade.Tx.ScanPasses | bucket.go:142-183 | reads the store only; a missing bucket path is BucketNotFound with no call; otherwise the calls and error are those of running the plan |
| Facade.Tx.Scan | bucket.go:137-189 | reads the store only, and the calls and error are those of ScanSpec.Scan |

## Left out

- db.go is not part of this model: opening and closing the store, View, Update
  and Batch, copying, and path conversion are file I/O and transaction plumbing.
  The handle's deferred error (`Err()`) is the constant `Tx.deferred`, taken as
  a constructor argument.
- Read-only transactions are not modelled. Every `Tx` is writable, so the
  engine's not-writable error never arises.
- The engine's key and value size limits, pages, commit and rollback are not
  modelled. They belong to bbolt, not to this code.
- The visitor is a pure function of the call. A visitor with side effects
  outside the scan is not modelled. A visitor that changes the store while a
  scan runs is not modelled either.
- Go's nil versus empty byte slices are not told apart, except that an empty
  prefix selects the no-prefix branch, as `len(scan) == 0` does.
