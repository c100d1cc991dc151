/**
 * Operation dispatch (bucket.go, CreateBucket, Set, Get and Del): what each
 * keyed operation does to one transaction's store, as a function of the
 * store before it, the handle's deferred error and the key path.
 *
 * A key path of length 0 has no key, one of length 1 names a top-level bucket
 * (the root holds no leaves), and one of length 2 or more is a bucket path
 * followed by a key in that bucket.
 */
module Dispatch {
  import opened ByteKeys
  import opened Engine
  import opened Resolver

  /** A store after an operation, with the error the operation returns (None for nil). */
  datatype Outcome = Outcome(tree: Tree, err: Option<Error>)

  function ErrorOf(r: Result<Path>): Option<Error>
  {
    if r.Ok? then None else Some(r.error)
  }

  /** Every segment of the bucket part of p is non-empty and no prefix of it is a leaf. */
  ghost predicate ChainClear(t: Tree, p: Path)
  {
    forall i | 0 <= i < |p| :: p[i] != [] && p[..i + 1] !in t.leaves
  }

  /**
   * CreateBucket(path): creating resolution of the whole path. On success
   * every non-empty prefix of the path is a bucket, the buckets that existed
   * are kept with all they held, and no leaf changes.
   */
  function CreateBucket(t: Tree, deferred: Option<Error>, path: Path): (o: Outcome)
    requires Valid(t)
    ensures Valid(o.tree) && o.tree.leaves == t.leaves
    ensures deferred.Some? ==> o == Outcome(t, deferred)
    ensures deferred.None? && path == [] ==> o == Outcome(t, Some(BucketNameRequired))
    ensures deferred.None? && path != [] ==>
      && (o.err == None <==> ChainClear(t, path))
      && (o.err == None ==> o.tree.buckets == t.buckets + Prefixes(path, |path|))
      && (o.err != None ==> o.err.value in {BucketNameRequired, IncompatibleValue})
  {
    CreateChain(t, path);
    CreateChainFails(t, path);
    var (t', r) := Resolve(t, deferred, path, true);
    Outcome(t', ErrorOf(r))
  }

  /**
   * A failed CreateBucket stops at the first segment that is empty
   * (BucketNameRequired) or names a leaf (IncompatibleValue), and keeps the
   * buckets it created for the segments before it.
   */
  lemma CreateBucketFails(t: Tree, path: Path)
    requires Valid(t) && path != [] && !ChainClear(t, path)
    ensures exists k | 0 <= k < |path| ::
      && (path[k] == [] || path[..k + 1] in t.leaves)
      && (forall i | 0 <= i < k :: path[i] != [] && path[..i + 1] !in t.leaves)
      && CreateBucket(t, None, path) == Outcome(Tree(t.buckets + Prefixes(path, k), t.leaves), Some(if path[k] == [] then BucketNameRequired else IncompatibleValue))
  {
    CreateChain(t, path);
    CreateChainFails(t, path);
  }

  /**
   * Set(keyPath, value) for a path of two or more segments succeeds exactly
   * when the bucket part can be created, the key is non-empty and the path
   * does not name a bucket.
   */
  ghost predicate SetAllowed(t: Tree, keyPath: Path)
    requires |keyPath| >= 2
  {
    ChainClear(t, Parent(keyPath)) && keyPath[|keyPath| - 1] != [] && keyPath !in t.buckets
  }

  /**
   * Set(keyPath, value): the deferred error, then the length checks, then
   * (PutAt) creating resolution of the bucket part and a Put of the key.
   */
  function Set(t: Tree, deferred: Option<Error>, keyPath: Path, value: Bytes): (o: Outcome)
    requires Valid(t)
    ensures Valid(o.tree) && o.tree.buckets >= t.buckets
    ensures deferred.Some? ==> o == Outcome(t, deferred)
    ensures deferred.None? && |keyPath| == 0 ==> o == Outcome(t, Some(KeyRequired))
    ensures deferred.None? && |keyPath| == 1 ==> o == Outcome(t, Some(BucketNameRequired))
    ensures deferred.None? && |keyPath| >= 2 ==>
      && (o.err == None <==> SetAllowed(t, keyPath))
      && (o.err == None ==> o.tree == Tree(t.buckets + Prefixes(Parent(keyPath), |keyPath| - 1), t.leaves[keyPath := value]))
      && (o.err != None ==> o.tree.leaves == t.leaves)
  {
    if deferred.Some? then Outcome(t, deferred)
    else if |keyPath| == 0 then Outcome(t, Some(KeyRequired))
    else if |keyPath| == 1 then Outcome(t, Some(BucketNameRequired))
    else PutAt(t, keyPath, value)
  }

  /** A path longer than k is none of the first k prefixes of p. */
  lemma LongerNotPrefix(p: Path, k: nat, q: Path)
    requires k <= |p| && |q| > k
    ensures q !in Prefixes(p, k)
  {
  }

  /**
   * How a Set of two or more segments fails. A blocked segment of the bucket
   * part (empty, or naming a leaf) stops the chain there with that segment's
   * error, keeping the buckets created before it. With the chain clear the
   * whole bucket part is created first; Put then refuses an empty key with
   * KeyRequired, and a key naming a bucket with IncompatibleValue (every
   * bucket on the way existed already, so nothing changes).
   */
  lemma SetFails(t: Tree, keyPath: Path, value: Bytes)
    requires Valid(t) && |keyPath| >= 2
    ensures var p, o := Parent(keyPath), Set(t, None, keyPath, value);
      !ChainClear(t, p) ==> exists k | 0 <= k < |p| ::
        && (p[k] == [] || p[..k + 1] in t.leaves)
        && (forall i | 0 <= i < k :: p[i] != [] && p[..i + 1] !in t.leaves)
        && o == Outcome(Tree(t.buckets + Prefixes(p, k), t.leaves), Some(if p[k] == [] then BucketNameRequired else IncompatibleValue))
    ensures ChainClear(t, Parent(keyPath)) && keyPath[|keyPath| - 1] == [] ==>
      Set(t, None, keyPath, value) == Outcome(Tree(t.buckets + Prefixes(Parent(keyPath), |keyPath| - 1), t.leaves), Some(KeyRequired))
    ensures ChainClear(t, Parent(keyPath)) && keyPath in t.buckets ==>
      Set(t, None, keyPath, value) == Outcome(t, Some(IncompatibleValue))
  {
    if !ChainClear(t, Parent(keyPath)) {
      SetChainBlocked(t, keyPath, value);
    } else {
      SetAfterChain(t, keyPath, value);
    }
  }

  /** A blocked bucket part: Set ends as creating resolution of that part does. */
  lemma SetChainBlocked(t: Tree, keyPath: Path, value: Bytes)
    requires Valid(t) && |keyPath| >= 2 && !ChainClear(t, Parent(keyPath))
    ensures var p, o := Parent(keyPath), Set(t, None, keyPath, value);
      exists k | 0 <= k < |p| ::
        && (p[k] == [] || p[..k + 1] in t.leaves)
        && (forall i | 0 <= i < k :: p[i] != [] && p[..i + 1] !in t.leaves)
        && o == Outcome(Tree(t.buckets + Prefixes(p, k), t.leaves), Some(if p[k] == [] then BucketNameRequired else IncompatibleValue))
  {
    var p := Parent(keyPath);
    var (t1, r) := Resolve(t, None, p, true);
    CreateChain(t, p);
    CreateChainFails(t, p);
    assert Set(t, None, keyPath, value) == Outcome(t1, Some(r.error));
  }

  /** A clear bucket part: Set creates it all and then does Put's checks. */
  lemma SetAfterChain(t: Tree, keyPath: Path, value: Bytes)
    requires Valid(t) && |keyPath| >= 2 && ChainClear(t, Parent(keyPath))
    ensures keyPath[|keyPath| - 1] == [] ==>
      Set(t, None, keyPath, value) == Outcome(Tree(t.buckets + Prefixes(Parent(keyPath), |keyPath| - 1), t.leaves), Some(KeyRequired))
    ensures keyPath in t.buckets ==> Set(t, None, keyPath, value) == Outcome(t, Some(IncompatibleValue))
  {
    var p := Parent(keyPath);
    CreateChain(t, p);
    var (t1, r) := Resolve(t, None, p, true);
    PutInChain(t, t1, keyPath, value);
  }

  /** The default branch of Set: bucketKeySplit with create, then Put. */
  function PutAt(t: Tree, keyPath: Path, value: Bytes): (o: Outcome)
    requires Valid(t) && |keyPath| >= 2
    ensures Valid(o.tree) && o.tree.buckets >= t.buckets
    ensures o.err == None <==> SetAllowed(t, keyPath)
    ensures o.err == None ==> o.tree == Tree(t.buckets + Prefixes(Parent(keyPath), |keyPath| - 1), t.leaves[keyPath := value])
    ensures o.err != None ==> o.tree.leaves == t.leaves
  {
    var bucketPath, key := Parent(keyPath), keyPath[|keyPath| - 1];
    ChainThenPut(t, keyPath, value);
    var (t1, r) := Resolve(t, None, bucketPath, true);
    if r.Err? then Outcome(t1, Some(r.error))
    else
      var (t2, e) := Put(t1, r.value, key, value);
      Outcome(t2, e)
  }

  /** The two steps of PutAt: creating resolution of the bucket part, then Put of the key in it. */
  lemma ChainThenPut(t: Tree, keyPath: Path, value: Bytes)
    requires Valid(t) && |keyPath| >= 2
    ensures var (t1, r) := Resolve(t, None, Parent(keyPath), true);
      && (r.Err? ==> !SetAllowed(t, keyPath))
      && (r.Ok? ==> r.value == Parent(keyPath) && t1 == Tree(t.buckets + Prefixes(Parent(keyPath), |keyPath| - 1), t.leaves))
      && (r.Ok? ==> var (t2, e) := Put(t1, r.value, keyPath[|keyPath| - 1], value);
            && (e == None <==> SetAllowed(t, keyPath))
            && (e == None ==> t2.leaves == t.leaves[keyPath := value]))
  {
    var bucketPath := Parent(keyPath);
    CreateChain(t, bucketPath);
    var (t1, r) := Resolve(t, None, bucketPath, true);
    if r.Ok? {
      PutInChain(t, t1, keyPath, value);
    }
  }

  /** Put of the key once creating resolution has made the whole bucket part. */
  lemma PutInChain(t: Tree, t1: Tree, keyPath: Path, value: Bytes)
    requires Valid(t) && Valid(t1) && |keyPath| >= 2 && ChainClear(t, Parent(keyPath))
    requires t1 == Tree(t.buckets + Prefixes(Parent(keyPath), |keyPath| - 1), t.leaves) && Parent(keyPath) in t1.buckets
    ensures var (t2, e) := Put(t1, Parent(keyPath), keyPath[|keyPath| - 1], value);
      && (e == None <==> SetAllowed(t, keyPath))
      && (e == None ==> t2.leaves == t.leaves[keyPath := value])
      && (keyPath[|keyPath| - 1] == [] ==> (t2, e) == (t1, Some(KeyRequired)))
      && (keyPath in t.buckets ==> (t2, e) == (t, Some(IncompatibleValue)))
  {
    var p, key := Parent(keyPath), keyPath[|keyPath| - 1];
    assert p + [key] == keyPath;
    LongerNotPrefix(p, |p|, keyPath);
    if keyPath in t.buckets {
      forall q | q in Prefixes(p, |p|) ensures q in t.buckets {
        var i :| 1 <= i <= |p| && q == p[..i];
        AncestorsAreBuckets(t, keyPath, i);
        assert keyPath[..i] == p[..i];
      }
      assert t1 == t;
    }
  }

  /**
   * Get(keyPath): the deferred error, then the length checks, then
   * non-creating resolution of the bucket part and a Get of the key. A
   * missing bucket on the way is BucketNotFound; a missing key, or a key
   * naming a bucket, is an absent value and no error.
   */
  function Get(t: Tree, deferred: Option<Error>, keyPath: Path): (r: Result<Option<Bytes>>)
    requires Valid(t)
    ensures deferred.Some? ==> r == Err(deferred.value)
    ensures deferred.None? && |keyPath| == 0 ==> r == Err(KeyRequired)
    ensures deferred.None? && |keyPath| == 1 ==> r == Err(BucketNameRequired)
    ensures deferred.None? && |keyPath| >= 2 ==>
      r == if Parent(keyPath) !in t.buckets then Err(BucketNotFound)
           else if keyPath in t.leaves then Ok(Some(t.leaves[keyPath]))
           else Ok(None)
  {
    if deferred.Some? then Err(deferred.value)
    else if |keyPath| == 0 then Err(KeyRequired)
    else if |keyPath| == 1 then Err(BucketNameRequired)
    else
      var bucketPath, key := Parent(keyPath), keyPath[|keyPath| - 1];
      LookupExact(t, bucketPath);
      assert bucketPath + [key] == keyPath;
      match Resolve(t, deferred, bucketPath, false).1
      case Err(e) => Err(e)
      case Ok(n) => Ok(GetValue(t, n, key))
  }

  /**
   * Del(keyPath): the deferred error, then the length checks; one segment
   * deletes that top-level bucket with everything in it; two or more resolve
   * the bucket part without creating and then delete the child bucket (and
   * its subtree) when the key names one, or else the leaf, which is a no-op
   * when the key is absent.
   */
  function Del(t: Tree, deferred: Option<Error>, keyPath: Path): (o: Outcome)
    requires Valid(t)
    ensures Valid(o.tree)
    ensures deferred.Some? ==> o == Outcome(t, deferred)
    ensures deferred.None? && |keyPath| == 0 ==> o == Outcome(t, Some(KeyRequired))
    ensures deferred.None? && |keyPath| == 1 ==>
      o == if keyPath in t.buckets then Outcome(RemoveSubtree(t, keyPath), None) else Outcome(t, Some(BucketNotFound))
    ensures deferred.None? && |keyPath| >= 2 ==>
      o == if Parent(keyPath) !in t.buckets then Outcome(t, Some(BucketNotFound))
           else if keyPath in t.buckets then Outcome(RemoveSubtree(t, keyPath), None)
           else Outcome(t.(leaves := t.leaves - {keyPath}), None)
  {
    if deferred.Some? then Outcome(t, deferred)
    else if |keyPath| == 0 then Outcome(t, Some(KeyRequired))
    else if |keyPath| == 1 then
      assert [] + [keyPath[0]] == keyPath;
      var (t1, e) := DeleteBucket(t, [], keyPath[0]);
      Outcome(t1, e)
    else
      var bucketPath, key := Parent(keyPath), keyPath[|keyPath| - 1];
      LookupExact(t, bucketPath);
      assert bucketPath + [key] == keyPath;
      var (t1, r) := Resolve(t, deferred, bucketPath, false);
      if r.Err? then Outcome(t1, Some(r.error))
      else if Bucket(t1, r.value, key).Some? then
        var (t2, e) := DeleteBucket(t1, r.value, key);
        Outcome(t2, e)
      else
        var (t2, e) := Delete(t1, r.value, key);
        Outcome(t2, e)
  }

  /** Creating a bucket path a second time succeeds and changes nothing. */
  lemma CreateBucketIdempotent(t: Tree, path: Path)
    requires Valid(t) && path != [] && ChainClear(t, path)
    ensures CreateBucket(t, None, path).err == None
    ensures var t1 := CreateBucket(t, None, path).tree;
      CreateBucket(t1, None, path) == Outcome(t1, None)
  {
    var t1 := CreateBucket(t, None, path).tree;
    assert ChainClear(t1, path);
    var t2 := CreateBucket(t1, None, path).tree;
    assert t2.buckets == t1.buckets;
    assert t2 == t1;
  }

  /** Set followed by Get of the same path returns the value set. */
  lemma SetThenGet(t: Tree, keyPath: Path, value: Bytes)
    requires Valid(t) && |keyPath| >= 2 && SetAllowed(t, keyPath)
    ensures Set(t, None, keyPath, value).err == None
    ensures Get(Set(t, None, keyPath, value).tree, None, keyPath) == Ok(Some(value))
  {
    var t1 := Set(t, None, keyPath, value).tree;
    assert Parent(keyPath) in Prefixes(Parent(keyPath), |keyPath| - 1) by {
      assert Parent(keyPath)[..|keyPath| - 1] == Parent(keyPath);
    }
  }

  /**
   * A successful Set leaves what Get reports for every other key path as it
   * was, provided that path's bucket part already existed (Set may create
   * it, turning BucketNotFound into an absent value).
   */
  lemma SetKeepsOthers(t: Tree, keyPath: Path, value: Bytes, other: Path)
    requires Valid(t) && |keyPath| >= 2 && SetAllowed(t, keyPath)
    requires other != keyPath && (|other| < 2 || Parent(other) in t.buckets)
    ensures Get(Set(t, None, keyPath, value).tree, None, other) == Get(t, None, other)
  {
  }

  /** After Del of a bucket, every key path under it is in a missing bucket. */
  lemma DelBucketThenGet(t: Tree, keyPath: Path, under: Path)
    requires Valid(t)
    requires keyPath in t.buckets
    requires |under| >= 2 && Below(Parent(under), keyPath)
    ensures Del(t, None, keyPath).err == None
    ensures Get(Del(t, None, keyPath).tree, None, under) == Err(BucketNotFound)
  {
    if |keyPath| >= 2 {
      AncestorsAreBuckets(t, keyPath, |keyPath| - 1);
    }
  }

  /** After Del of a leaf (or an absent key), Get finds no value there. */
  lemma DelLeafThenGet(t: Tree, keyPath: Path)
    requires Valid(t)
    requires |keyPath| >= 2 && Parent(keyPath) in t.buckets && keyPath !in t.buckets
    ensures Del(t, None, keyPath).err == None
    ensures Get(Del(t, None, keyPath).tree, None, keyPath) == Ok(None)
  {
  }

  /**
   * Del of a key path it can act on (an existing bucket, or any key in an
   * existing bucket) succeeds and touches nothing outside what it removes:
   * Get of any key path that does not lie under the deleted path answers as
   * before.
   */
  lemma DelKeepsSiblings(t: Tree, keyPath: Path, other: Path)
    requires Valid(t)
    requires keyPath in t.buckets || (|keyPath| >= 2 && Parent(keyPath) in t.buckets)
    requires |other| >= 2 && !Below(other, keyPath)
    ensures Del(t, None, keyPath).err == None
    ensures Get(Del(t, None, keyPath).tree, None, other) == Get(t, None, other)
  {
    var t1 := Del(t, None, keyPath).tree;
    if keyPath in t.buckets {
      assert t1 == RemoveSubtree(t, keyPath);
      assert !Below(Parent(other), keyPath);
      assert Parent(other) in t1.buckets <==> Parent(other) in t.buckets;
      assert other in t1.leaves <==> other in t.leaves;
    } else {
      assert t1 == t.(leaves := t.leaves - {keyPath});
      assert other != keyPath;
    }
  }
}
