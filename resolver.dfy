/**
 * Path resolution (bucket.go, getBucket): the walk from the root through the
 * buckets a path names, either fetching each one or creating each missing
 * one on the way.
 */
module Resolver {
  import opened ByteKeys
  import opened Engine

  /**
   * What the getBucket loop computes from bucket reference n over the
   * segments still to go: with create, CreateBucketIfNotExists at each step
   * and the first engine error ends the walk; without, Bucket at each step
   * and the first missing bucket ends it with BucketNotFound.
   */
  function Walk(t: Tree, n: Path, rest: Path, create: bool): (r: (Tree, Result<Path>))
    requires Valid(t) && IsRef(t, n)
    ensures Valid(r.0) && r.0.leaves == t.leaves && t.buckets <= r.0.buckets
    ensures r.1.Ok? ==> IsRef(r.0, r.1.value) && |r.1.value| == |n| + |rest|
    decreases |rest|
  {
    if rest == [] then (t, Ok(n))
    else if create then
      var (t1, c) := CreateBucketIfNotExists(t, n, rest[0]);
      if c.Err? then (t1, c) else Walk(t1, c.value, rest[1..], true)
    else
      match Bucket(t, n, rest[0])
      case None => (t, Err(BucketNotFound))
      case Some(c) => Walk(t, c, rest[1..], false)
  }

  /**
   * getBucket(bucketPath, create): the handle's deferred error first, then an
   * empty path is refused, then the walk from the root.
   */
  function Resolve(t: Tree, deferred: Option<Error>, path: Path, create: bool): (r: (Tree, Result<Path>))
    requires Valid(t)
    ensures Valid(r.0) && r.0.leaves == t.leaves && t.buckets <= r.0.buckets
    ensures r.1.Ok? ==> r.1.value in r.0.buckets
    ensures deferred.Some? ==> r == (t, Err(deferred.value))
    ensures deferred.None? && path == [] ==> r == (t, Err(BucketNameRequired))
  {
    if deferred.Some? then (t, Err(deferred.value))
    else if path == [] then (t, Err(BucketNameRequired))
    else Walk(t, [], path, create)
  }

  /**
   * Step i of a creating walk from n cannot go on: the segment is empty, or
   * the name it reaches is a leaf.
   */
  predicate Blocked(leaves: map<Path, Bytes>, n: Path, rest: Path, i: nat)
    requires i < |rest|
  {
    rest[i] == [] || n + rest[..i + 1] in leaves
  }

  lemma ShiftBlocked(leaves: map<Path, Bytes>, n: Path, rest: Path, i: nat)
    requires 0 < |rest| && i + 1 < |rest|
    ensures Blocked(leaves, n + [rest[0]], rest[1..], i) == Blocked(leaves, n, rest, i + 1)
  {
    assert rest[..i + 2] == [rest[0]] + rest[1..][..i + 1];
    assert (n + [rest[0]]) + rest[1..][..i + 1] == n + rest[..i + 2];
  }

  /** The first blocked step of a creating walk from n, or |rest| when none is. */
  function FirstBlocked(leaves: map<Path, Bytes>, n: Path, rest: Path): (k: nat)
    ensures k <= |rest|
    ensures forall i | 0 <= i < k :: !Blocked(leaves, n, rest, i)
    ensures k < |rest| ==> Blocked(leaves, n, rest, k)
    decreases |rest|
  {
    if rest == [] || Blocked(leaves, n, rest, 0) then 0
    else
      var k := FirstBlocked(leaves, n + [rest[0]], rest[1..]);
      assert forall i | 0 <= i < 1 + k :: !Blocked(leaves, n, rest, i) by {
        forall i | 0 <= i < 1 + k ensures !Blocked(leaves, n, rest, i) {
          if i > 0 {
            ShiftBlocked(leaves, n, rest, i - 1);
          }
        }
      }
      assert k < |rest| - 1 ==> Blocked(leaves, n, rest, k + 1) by {
        if k < |rest| - 1 {
          ShiftBlocked(leaves, n, rest, k);
        }
      }
      1 + k
  }

  /** The buckets the first k steps of a walk from n pass through. */
  function Chain(n: Path, rest: Path, k: nat): set<Path>
    requires k <= |rest|
  {
    set i | 1 <= i <= k :: n + rest[..i]
  }

  lemma ShiftChain(n: Path, rest: Path, k: nat)
    requires 0 < |rest| && k < |rest|
    ensures Chain(n, rest, k + 1) == {n + [rest[0]]} + Chain(n + [rest[0]], rest[1..], k)
  {
    var n' := n + [rest[0]];
    forall i | 1 <= i <= k ensures n' + rest[1..][..i] == n + rest[..i + 1] {
      assert rest[..i + 1] == [rest[0]] + rest[1..][..i];
    }
    forall q | q in Chain(n, rest, k + 1) ensures q in {n'} + Chain(n', rest[1..], k) {
      var i :| 1 <= i <= k + 1 && q == n + rest[..i];
      if i == 1 {
        assert rest[..1] == [rest[0]];
      } else {
        assert q == n' + rest[1..][..i - 1];
      }
    }
    forall q | q in {n'} + Chain(n', rest[1..], k) ensures q in Chain(n, rest, k + 1) {
      if q == n' {
        assert rest[..1] == [rest[0]];
        assert q == n + rest[..1];
      } else {
        var i :| 1 <= i <= k && q == n' + rest[1..][..i];
        assert q == n + rest[..i + 1];
      }
    }
  }

  /** The engine's error for a blocked step: an empty name, or a leaf in the way. */
  function StepError(name: Bytes): Error
  {
    if name == [] then BucketNameRequired else IncompatibleValue
  }

  /** The outcome CreateWalk states for a creating walk whose first blocked step is k. */
  function WalkOutcome(t: Tree, n: Path, rest: Path, k: nat): (Tree, Result<Path>)
    requires k <= |rest|
  {
    (Tree(t.buckets + Chain(n, rest, k), t.leaves),
     if k == |rest| then Ok(n + rest) else Err(StepError(rest[k])))
  }

  /** A creating walk whose first step is blocked fails at once and changes nothing. */
  lemma CreateWalkBlocked(t: Tree, n: Path, rest: Path)
    requires Valid(t) && IsRef(t, n)
    requires rest != [] && Blocked(t.leaves, n, rest, 0)
    ensures Walk(t, n, rest, true) == WalkOutcome(t, n, rest, 0)
  {
    assert Chain(n, rest, 0) == {};
    assert rest[..1] == [rest[0]];
    assert n + [rest[0]] in t.leaves ==> n + [rest[0]] !in t.buckets;
    assert CreateBucketIfNotExists(t, n, rest[0]) == (t, Err(StepError(rest[0])));
    assert t == Tree(t.buckets + Chain(n, rest, 0), t.leaves);
  }

  lemma StepAppend(n: Path, rest: Path)
    requires rest != []
    ensures (n + [rest[0]]) + rest[1..] == n + rest
  {
    assert rest == [rest[0]] + rest[1..];
  }

  /** An unblocked first step creates (or finds) the first bucket and walks on from it. */
  lemma CreateWalkUnfold(t: Tree, n: Path, rest: Path)
    requires Valid(t) && IsRef(t, n)
    requires rest != [] && !Blocked(t.leaves, n, rest, 0)
    ensures Valid(Tree(t.buckets + {n + [rest[0]]}, t.leaves))
    ensures Walk(t, n, rest, true) == Walk(Tree(t.buckets + {n + [rest[0]]}, t.leaves), n + [rest[0]], rest[1..], true)
  {
    assert rest[..1] == [rest[0]];
    var c := n + [rest[0]];
    var t1 := Tree(t.buckets + {c}, t.leaves);
    assert CreateBucketIfNotExists(t, n, rest[0]) == (t1, Ok(c));
  }

  /** The outcome after an unblocked first step is the outcome of the walk from the bucket it reached. */
  lemma WalkOutcomeStep(t: Tree, n: Path, rest: Path)
    requires rest != [] && !Blocked(t.leaves, n, rest, 0)
    ensures var c := n + [rest[0]];
      WalkOutcome(Tree(t.buckets + {c}, t.leaves), c, rest[1..], FirstBlocked(t.leaves, c, rest[1..])) ==
      WalkOutcome(t, n, rest, FirstBlocked(t.leaves, n, rest))
  {
    var k := FirstBlocked(t.leaves, n, rest);
    var c := n + [rest[0]];
    var k' := FirstBlocked(t.leaves, c, rest[1..]);
    assert k == 1 + k';
    ShiftChain(n, rest, k');
    StepAppend(n, rest);
    var w1 := WalkOutcome(Tree(t.buckets + {c}, t.leaves), c, rest[1..], k');
    var w := WalkOutcome(t, n, rest, k);
    assert w1.0.buckets == w.0.buckets;
    assert w1.0 == w.0;
    assert w1.1 == w.1;
  }

  /**
   * A creating walk from n runs up to its first blocked step k: it adds the
   * buckets of the steps before k, changes no leaf, and either reaches
   * n + rest (no step blocked) or fails with the engine's error for step k.
   */
  lemma {:induction false} CreateWalk(t: Tree, n: Path, rest: Path)
    requires Valid(t) && IsRef(t, n)
    ensures Walk(t, n, rest, true) == WalkOutcome(t, n, rest, FirstBlocked(t.leaves, n, rest))
    decreases |rest|
  {
    if rest == [] {
      assert Chain(n, rest, 0) == {};
      assert n + rest == n;
      assert t == Tree(t.buckets + Chain(n, rest, 0), t.leaves);
    } else if Blocked(t.leaves, n, rest, 0) {
      CreateWalkBlocked(t, n, rest);
    } else {
      var c := n + [rest[0]];
      CreateWalkUnfold(t, n, rest);
      CreateWalk(Tree(t.buckets + {c}, t.leaves), c, rest[1..]);
      WalkOutcomeStep(t, n, rest);
    }
  }

  /**
   * A non-creating walk from n reaches n + rest exactly when that is a bucket
   * (every bucket on the way then exists too), and otherwise stops with
   * BucketNotFound; it never changes the store.
   */
  lemma {:induction false} FindWalk(t: Tree, n: Path, rest: Path)
    requires Valid(t) && IsRef(t, n)
    ensures Walk(t, n, rest, false) == (t, if rest == [] || n + rest in t.buckets then Ok(n + rest) else Err(BucketNotFound))
    decreases |rest|
  {
    if rest != [] {
      var c := n + [rest[0]];
      assert c + rest[1..] == n + rest;
      if c in t.buckets {
        FindWalk(t, c, rest[1..]);
      } else if n + rest in t.buckets {
        AncestorsAreBuckets(t, n + rest, |n| + 1);
        assert false;
      }
    } else {
      assert n + rest == n;
    }
  }

  /**
   * Non-creating resolution of a non-empty path succeeds exactly when the path
   * names an existing bucket, fails with BucketNotFound otherwise, and never
   * changes the store.
   */
  lemma LookupExact(t: Tree, path: Path)
    requires Valid(t)
    ensures path != [] ==>
      Resolve(t, None, path, false) == (t, if path in t.buckets then Ok(path) else Err(BucketNotFound))
  {
    if path != [] {
      FindWalk(t, [], path);
      assert [] + path == path;
    }
  }

  /** The non-empty prefixes of the first k segments of path. */
  function Prefixes(path: Path, k: nat): set<Path>
    requires k <= |path|
  {
    set i | 1 <= i <= k :: path[..i]
  }

  lemma BlockedFromRoot(leaves: map<Path, Bytes>, path: Path, i: nat)
    requires i < |path|
    ensures Blocked(leaves, [], path, i) <==> (path[i] == [] || path[..i + 1] in leaves)
  {
    assert [] + path[..i + 1] == path[..i + 1];
  }

  lemma ChainFromRoot(path: Path, k: nat)
    requires k <= |path|
    ensures Chain([], path, k) == Prefixes(path, k)
  {
    forall i | 1 <= i <= k ensures [] + path[..i] == path[..i] { }
  }

  /**
   * Creating resolution of a non-empty path from the root succeeds exactly
   * when no segment is empty and no prefix of the path names a leaf. It then
   * returns the path, and afterwards the buckets are those that existed
   * (kept) plus every non-empty prefix of the path; no leaf changes.
   */
  lemma CreateChain(t: Tree, path: Path)
    requires Valid(t)
    ensures var r := Resolve(t, None, path, true);
      path != [] ==>
      && (r.1.Ok? <==> forall i | 0 <= i < |path| :: path[i] != [] && path[..i + 1] !in t.leaves)
      && (r.1.Ok? ==> r.1.value == path && r.0 == Tree(t.buckets + Prefixes(path, |path|), t.leaves))
  {
    if path == [] {
      return;
    }
    CreateWalk(t, [], path);
    assert [] + path == path;
    forall i | 0 <= i < |path| ensures Blocked(t.leaves, [], path, i) <==> (path[i] == [] || path[..i + 1] in t.leaves) {
      BlockedFromRoot(t.leaves, path, i);
    }
    ChainFromRoot(path, |path|);
  }

  /**
   * When creating resolution fails, it fails at the first segment that is
   * empty (BucketNameRequired) or names a leaf (IncompatibleValue), and the
   * buckets before that segment have been created.
   */
  lemma CreateChainFails(t: Tree, path: Path)
    requires Valid(t)
    ensures var r := Resolve(t, None, path, true);
      path != [] && r.1.Err? ==> exists k | 0 <= k < |path| ::
        && (path[k] == [] || path[..k + 1] in t.leaves)
        && (forall i | 0 <= i < k :: path[i] != [] && path[..i + 1] !in t.leaves)
        && r.1.error == (if path[k] == [] then BucketNameRequired else IncompatibleValue)
        && r.0 == Tree(t.buckets + Prefixes(path, k), t.leaves)
  {
    if path == [] {
      return;
    }
    CreateWalk(t, [], path);
    var k := FirstBlocked(t.leaves, [], path);
    if k < |path| {
      BlockedFromRoot(t.leaves, path, k);
      forall i | 0 <= i < k ensures path[i] != [] && path[..i + 1] !in t.leaves {
        BlockedFromRoot(t.leaves, path, i);
      }
      ChainFromRoot(path, k);
    }
  }
}
