/**
 * The path-addressed handle (bucket.go): one transaction plus the error its
 * opening deferred, offering CreateBucket, Set, Get, Del and Scan on key
 * paths. The transaction's store is the handle's mutable state; every
 * operation is proved to leave it, and to return, what the matching
 * function of Dispatch or ScanSpec prescribes.
 */
module Facade {
  import opened ByteKeys
  import opened Engine
  import opened Resolver
  import Dispatch
  import opened ScanSpec

  /**
   * ForEach / ForEachBucket over entries with a closure that calls fn only
   * on the entries keep accepts and hands back the first error fn returns,
   * which stops the iteration.
   */
  method ForEach(entries: seq<Visit>, keep: Visit -> bool, fn: Visitor) returns (calls: seq<Visit>, err: Option<Error>)
    ensures (calls, err) == Run(Filter(entries, keep), fn)
  {
    calls, err := [], None;
    var i := 0;
    assert entries[i..] == entries;
    assert calls + Run(Filter(entries, keep), fn).0 == Run(Filter(entries, keep), fn).0;
    while i < |entries|
      invariant 0 <= i <= |entries|
      invariant err == None
      invariant Run(Filter(entries, keep), fn).0 == calls + Run(Filter(entries[i..], keep), fn).0
      invariant Run(Filter(entries, keep), fn).1 == Run(Filter(entries[i..], keep), fn).1
    {
      var v := entries[i];
      ForEachStep(entries, keep, fn, i, calls);
      if keep(v) {
        calls := calls + [v];
        err := fn(v);
        if err.Some? {
          return;
        }
      }
      i := i + 1;
    }
    assert calls + [] == calls;
  }

  /** One entry of ForEach: skipped, called and stopping, or called and going on. */
  lemma ForEachStep(entries: seq<Visit>, keep: Visit -> bool, fn: Visitor, i: nat, calls: seq<Visit>)
    requires i < |entries|
    ensures var v, here, next := entries[i], Run(Filter(entries[i..], keep), fn), Run(Filter(entries[i + 1..], keep), fn);
      && (!keep(v) ==> here == next)
      && (keep(v) && fn(v).Some? ==> here == ([v], fn(v)))
      && (keep(v) && fn(v).None? ==> here.1 == next.1 && calls + here.0 == (calls + [v]) + next.0)
  {
    var v, tail := entries[i], Filter(entries[i + 1..], keep);
    FilterStep(entries, keep, i);
    if keep(v) {
      RunCons(v, tail, fn);
      assert calls + ([v] + Run(tail, fn).0) == (calls + [v]) + Run(tail, fn).0;
    } else {
      assert [] + tail == tail;
    }
  }

  lemma FilterStep(entries: seq<Visit>, keep: Visit -> bool, i: nat)
    requires i < |entries|
    ensures Filter(entries[i..], keep) == (if keep(entries[i]) then [entries[i]] else []) + Filter(entries[i + 1..], keep)
  {
    assert entries[i..][1..] == entries[i + 1..];
  }

  /**
   * The prefix pass of Scan over bucket n: seek to the prefix, then call fn
   * on each key (value nil for a child bucket, bucket false) until a key no
   * longer starts with the prefix, the keys run out, or fn returns an error.
   */
  method Cursor(t: Tree, n: Path, keys: seq<Bytes>, scan: Bytes, fn: Visitor) returns (calls: seq<Visit>, err: Option<Error>)
    requires StrictlySorted(keys)
    ensures (calls, err) == Run(Filter(KeyVisits(t, n, keys), KeepPrefix(scan)), fn)
  {
    var i := Seek(keys, scan);
    ghost var s, e := i, RunEnd(keys, scan, i);
    SeekRunIsFilter(t, n, keys, scan);
    ghost var run := Run(KeyVisits(t, n, keys[s..e]), fn);
    calls, err := [], None;
    assert calls + run.0 == run.0;
    while i < |keys|
      invariant s <= i <= e
      invariant err == None
      invariant run.0 == calls + Run(KeyVisits(t, n, keys[i..e]), fn).0
      invariant run.1 == Run(KeyVisits(t, n, keys[i..e]), fn).1
    {
      if !HasPrefix(keys[i], scan) {
        break;
      }
      var v := Visit(keys[i], GetValue(t, n, keys[i]), false);
      CursorStep(t, n, keys, i, e, fn, calls);
      calls := calls + [v];
      err := fn(v);
      if err.Some? {
        break;
      }
      i := i + 1;
    }
    if err.None? {
      assert i == e && KeyVisits(t, n, keys[i..e]) == [];
      assert calls + [] == calls;
    }
  }

  /** One key of the cursor pass: called and stopping, or called and going on. */
  lemma CursorStep(t: Tree, n: Path, keys: seq<Bytes>, i: nat, e: nat, fn: Visitor, calls: seq<Visit>)
    requires i < e <= |keys|
    ensures var v := Visit(keys[i], GetValue(t, n, keys[i]), false);
      var here, next := Run(KeyVisits(t, n, keys[i..e]), fn), Run(KeyVisits(t, n, keys[i + 1..e]), fn);
      && (fn(v).Some? ==> here == ([v], fn(v)))
      && (fn(v).None? ==> here.1 == next.1 && calls + here.0 == (calls + [v]) + next.0)
  {
    var v := Visit(keys[i], GetValue(t, n, keys[i]), false);
    KeyVisitsStep(t, n, keys, i, e);
    RunCons(v, KeyVisits(t, n, keys[i + 1..e]), fn);
    assert calls + ([v] + Run(KeyVisits(t, n, keys[i + 1..e]), fn).0) == (calls + [v]) + Run(KeyVisits(t, n, keys[i + 1..e]), fn).0;
  }

  /** What Scan returns once the passes have given calls and raw, with nothing deferred. */
  lemma ScanOfPasses(t: Tree, keyPath: Path, scan: Bytes, fn: Visitor, calls: seq<Visit>, raw: Option<Error>)
    requires Valid(t)
    requires keyPath != [] && keyPath !in t.buckets ==> calls == [] && raw == Some(BucketNotFound)
    requires Plan(t, keyPath, scan).Ok? ==> (calls, raw) == Run(Plan(t, keyPath, scan).value, fn)
    ensures (calls, Normalize(raw)) == ScanSpec.Scan(t, None, keyPath, scan, fn)
  {
    LookupExact(t, keyPath);
  }

  class Tx {
    /** The error the handle was opened with (Err()); every operation returns it first. */
    const deferred: Option<Error>
    /** The store as this transaction sees it. */
    var tree: Tree

    ghost predicate Valid()
      reads this
    {
      Engine.Valid(tree)
    }

    constructor (t: Tree, deferred: Option<Error>)
      requires Engine.Valid(t)
      ensures Valid() && tree == t && this.deferred == deferred
    {
      this.tree := t;
      this.deferred := deferred;
    }

    /**
     * getBucket: the deferred error, then an empty path is refused, then one
     * segment at a time from the root, creating each missing bucket, or (with
     * create false, in LookupBucket) failing with BucketNotFound.
     */
    method GetBucket(bucketPath: Path, create: bool) returns (r: Result<Path>)
      requires Valid()
      modifies this
      ensures Valid()
      ensures (tree, r) == Resolve(old(tree), deferred, bucketPath, create)
    {
      if !create {
        LookupExact(tree, bucketPath);
        r := LookupBucket(bucketPath);
        return;
      }
      if deferred.Some? {
        return Err(deferred.value);
      }
      if |bucketPath| == 0 {
        return Err(BucketNameRequired);
      }
      ghost var walk := Walk(tree, [], bucketPath, true);
      var n: Path := [];
      var i := 0;
      while i < |bucketPath|
        invariant 0 <= i <= |bucketPath|
        invariant Engine.Valid(tree) && IsRef(tree, n)
        invariant walk == Walk(tree, n, bucketPath[i..], true)
      {
        var name := bucketPath[i];
        assert bucketPath[i..][0] == name && bucketPath[i..][1..] == bucketPath[i + 1..];
        var (t1, c) := CreateBucketIfNotExists(tree, n, name);
        tree := t1;
        if c.Err? {
          return c;
        }
        n := c.value;
        i := i + 1;
      }
      return Ok(n);
    }

    /**
     * getBucket with create false: the same segment loop, fetching each
     * bucket and stopping with BucketNotFound at the first missing one. It
     * only reads the store.
     */
    method LookupBucket(bucketPath: Path) returns (r: Result<Path>)
      requires Valid()
      ensures r == Resolve(tree, deferred, bucketPath, false).1
    {
      if deferred.Some? {
        return Err(deferred.value);
      }
      if |bucketPath| == 0 {
        return Err(BucketNameRequired);
      }
      ghost var walk := Walk(tree, [], bucketPath, false);
      var n: Path := [];
      var i := 0;
      while i < |bucketPath|
        invariant 0 <= i <= |bucketPath|
        invariant IsRef(tree, n)
        invariant walk == Walk(tree, n, bucketPath[i..], false)
      {
        var name := bucketPath[i];
        assert bucketPath[i..][0] == name && bucketPath[i..][1..] == bucketPath[i + 1..];
        match Bucket(tree, n, name)
        case None =>
          return Err(BucketNotFound);
        case Some(c) =>
          n := c;
        i := i + 1;
      }
      return Ok(n);
    }

    /** bucketKeySplit: resolve all but the last segment; the last segment is the key. */
    method BucketKeySplit(keyPath: Path, create: bool) returns (r: Result<Path>, key: Bytes)
      requires Valid() && |keyPath| >= 1
      modifies this
      ensures Valid()
      ensures Parent(keyPath) + [key] == keyPath
      ensures (tree, r) == Resolve(old(tree), deferred, Parent(keyPath), create)
    {
      key := keyPath[|keyPath| - 1];
      r := GetBucket(Parent(keyPath), create);
    }

    method CreateBucket(path: Path) returns (err: Option<Error>)
      requires Valid()
      modifies this
      ensures Valid()
      ensures Dispatch.Outcome(tree, err) == Dispatch.CreateBucket(old(tree), deferred, path)
    {
      var r := GetBucket(path, true);
      err := Dispatch.ErrorOf(r);
    }

    method Set(keyPath: Path, value: Bytes) returns (err: Option<Error>)
      requires Valid()
      modifies this
      ensures Valid()
      ensures Dispatch.Outcome(tree, err) == Dispatch.Set(old(tree), deferred, keyPath, value)
    {
      if deferred.Some? {
        return deferred;
      }
      if |keyPath| == 0 {
        return Some(KeyRequired);
      }
      if |keyPath| == 1 {
        return Some(BucketNameRequired);
      }
      var r, key := BucketKeySplit(keyPath, true);
      if r.Err? {
        return Some(r.error);
      }
      var (t2, e) := Put(tree, r.value, key, value);
      tree := t2;
      err := e;
    }

    /** Get reads the store only: its bucket part is resolved without creating. */
    method Get(keyPath: Path) returns (r: Result<Option<Bytes>>)
      requires Valid()
      ensures r == Dispatch.Get(tree, deferred, keyPath)
    {
      if deferred.Some? {
        return Err(deferred.value);
      }
      if |keyPath| == 0 {
        return Err(KeyRequired);
      }
      if |keyPath| == 1 {
        return Err(BucketNameRequired);
      }
      var b := LookupBucket(Parent(keyPath));
      var key := keyPath[|keyPath| - 1];
      LookupExact(tree, Parent(keyPath));
      assert Parent(keyPath) + [key] == keyPath;
      if b.Err? {
        return Err(b.error);
      }
      r := Ok(GetValue(tree, b.value, key));
    }

    method Del(keyPath: Path) returns (err: Option<Error>)
      requires Valid()
      modifies this
      ensures Valid()
      ensures Dispatch.Outcome(tree, err) == Dispatch.Del(old(tree), deferred, keyPath)
    {
      if deferred.Some? {
        return deferred;
      }
      if |keyPath| == 0 {
        return Some(KeyRequired);
      }
      if |keyPath| == 1 {
        var (t1, e) := DeleteBucket(tree, [], keyPath[0]);
        tree := t1;
        return e;
      }
      LookupExact(tree, Parent(keyPath));
      var b, key := BucketKeySplit(keyPath, false);
      if b.Err? {
        return Some(b.error);
      }
      if Bucket(tree, b.value, key).Some? {
        var (t2, e) := DeleteBucket(tree, b.value, key);
        tree := t2;
        err := e;
      } else {
        var (t2, e) := Delete(tree, b.value, key);
        tree := t2;
        err := e;
      }
    }

    /** The closure inside Scan: the passes, up to the first error, before sentinels are cleared. */
    method ScanPasses(keyPath: Path, scan: Bytes, fn: Visitor) returns (calls: seq<Visit>, err: Option<Error>)
      requires Valid() && deferred.None?
      ensures keyPath != [] && keyPath !in tree.buckets ==> calls == [] && err == Some(BucketNotFound)
      ensures Plan(tree, keyPath, scan).Ok? ==> (calls, err) == Run(Plan(tree, keyPath, scan).value, fn)
    {
      if |keyPath| == 0 {
        FilterAll(BucketVisits(ChildBuckets(tree, [])));
        calls, err := ForEach(BucketVisits(ChildBuckets(tree, [])), KeepAll(), fn);
        return;
      }
      LookupExact(tree, keyPath);
      var r := LookupBucket(keyPath);
      if r.Err? {
        return [], Some(r.error);
      }
      var t, n := tree, r.value;
      if |scan| == 0 {
        var buckets := BucketVisits(ChildBuckets(t, n));
        var leaves := Filter(KeyVisits(t, n, Keys(t, n)), KeepNonBucket(t, n));
        RunAppend(buckets, leaves, fn);
        RunStopsAtFirstError(buckets, fn);
        FilterAll(buckets);
        calls, err := ForEach(buckets, KeepAll(), fn);
        if err.Some? {
          return;
        }
        var more;
        more, err := ForEach(KeyVisits(t, n, Keys(t, n)), KeepNonBucket(t, n), fn);
        calls := calls + more;
      } else {
        var buckets := Filter(BucketVisits(ChildBuckets(t, n)), KeepPrefix(scan));
        var keys := Filter(KeyVisits(t, n, Keys(t, n)), KeepPrefix(scan));
        RunAppend(buckets, keys, fn);
        RunStopsAtFirstError(buckets, fn);
        calls, err := ForEach(BucketVisits(ChildBuckets(t, n)), KeepPrefix(scan), fn);
        if err.Some? {
          return;
        }
        var more;
        more, err := Cursor(t, n, Keys(t, n), scan, fn);
        calls := calls + more;
      }
    }

    /**
     * Scan(keyPath, scan, fn): the deferred error first; otherwise the passes,
     * with io.EOF, fs.SkipAll and fs.SkipDir turned into nil.
     */
    method Scan(keyPath: Path, scan: Bytes, fn: Visitor) returns (calls: seq<Visit>, err: Option<Error>)
      requires Valid()
      ensures (calls, err) == ScanSpec.Scan(tree, deferred, keyPath, scan, fn)
    {
      if deferred.Some? {
        return [], deferred;
      }
      calls, err := ScanPasses(keyPath, scan, fn);
      ghost var raw := err;
      if err == Some(EOF) || err == Some(SkipAll) || err == Some(SkipDir) {
        err := None;
      }
      assert err == Normalize(raw);
      ScanOfPasses(tree, keyPath, scan, fn, calls, raw);
    }
  }
}
