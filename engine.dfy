/**
 * An abstract model of the embedded storage engine (bbolt) underneath the
 * facade: only what the facade relies on, stated as total functions over a
 * value that describes one transaction's view of the store.
 *
 * The store is a tree of nested buckets. It is kept flat here: a bucket is
 * known by its path (the names from the root down to it), and a leaf by the
 * path of its bucket followed by its own key. The root holds buckets only.
 * A bucket reference, as the engine hands it out, is the bucket's path; the
 * root itself is the empty path.
 */
module Engine {
  import opened ByteKeys

  datatype Option<+T> = None | Some(value: T)

  datatype Result<+T> = Ok(value: T) | Err(error: Error)

  /**
   * Errors that reach the facade: the engine's own sentinel errors, the
   * visitor sentinels that Scan treats as "stop" (io.EOF, fs.SkipAll,
   * fs.SkipDir), and any other error a visitor or the opening of the store
   * may produce.
   */
  datatype Error =
    | BucketNotFound
    | BucketNameRequired
    | KeyRequired
    | IncompatibleValue
    | EOF
    | SkipAll
    | SkipDir
    | Other(code: int)

  type Path = seq<Bytes>

  datatype Tree = Tree(buckets: set<Path>, leaves: map<Path, Bytes>)

  function Parent(p: Path): Path
    requires |p| > 0
  {
    p[..|p| - 1]
  }

  /** q lies in the subtree rooted at the bucket path r (r itself included). */
  predicate Below(q: Path, r: Path)
  {
    |r| <= |q| && q[..|r|] == r
  }

  /**
   * The shape every transaction sees: each bucket but a top-level one sits in
   * a bucket, every leaf sits in a bucket (so the root holds no leaves), no
   * name is empty, and a name inside one bucket is a child bucket or a leaf,
   * never both.
   */
  ghost predicate Valid(t: Tree)
  {
    && (forall p | p in t.buckets :: |p| > 0 && p[|p| - 1] != [] && (|p| > 1 ==> Parent(p) in t.buckets))
    && (forall p | p in t.leaves :: |p| > 1 && p[|p| - 1] != [] && Parent(p) in t.buckets)
    && (forall p | p in t.buckets :: p !in t.leaves)
  }

  /** n may be used as a bucket reference: the root or an existing bucket. */
  ghost predicate IsRef(t: Tree, n: Path)
  {
    n == [] || n in t.buckets
  }

  lemma {:induction false} AncestorsAreBuckets(t: Tree, p: Path, i: nat)
    requires Valid(t) && p in t.buckets
    requires 0 < i <= |p|
    ensures p[..i] in t.buckets
    decreases |p| - i
  {
    if i < |p| {
      AncestorsAreBuckets(t, p, i + 1);
      var q := p[..i + 1];
      assert q in t.buckets && |q| > 1;
      assert Parent(q) == p[..i];
    } else {
      assert p[..i] == p;
    }
  }

  /** Bucket(name) / Tx.Bucket(name): the child bucket, or nil for a missing name or a leaf. */
  function Bucket(t: Tree, n: Path, name: Bytes): (r: Option<Path>)
    ensures r.Some? <==> n + [name] in t.buckets
    ensures r.Some? ==> r.value == n + [name]
    ensures Valid(t) && n + [name] in t.leaves ==> r == None
  {
    if n + [name] in t.buckets then Some(n + [name]) else None
  }

  /**
   * CreateBucketIfNotExists(name): an empty name is refused, an existing
   * bucket is returned as it is, a leaf of that name is an incompatible
   * value, and otherwise an empty bucket is added.
   */
  function CreateBucketIfNotExists(t: Tree, n: Path, name: Bytes): (r: (Tree, Result<Path>))
    requires Valid(t) && IsRef(t, n)
    ensures Valid(r.0) && r.0.leaves == t.leaves
    ensures r.1.Ok? ==> r.1.value == n + [name] && r.0.buckets == t.buckets + {n + [name]}
    ensures r.1.Err? ==> r.0 == t
  {
    if name == [] then (t, Err(BucketNameRequired))
    else if n + [name] in t.buckets then (t, Ok(n + [name]))
    else if n + [name] in t.leaves then (t, Err(IncompatibleValue))
    else (t.(buckets := t.buckets + {n + [name]}), Ok(n + [name]))
  }

  /** Put(key, value): an empty key is refused, and a key naming a bucket is an incompatible value. */
  function Put(t: Tree, n: Path, key: Bytes, value: Bytes): (r: (Tree, Option<Error>))
    requires Valid(t) && n in t.buckets
    ensures Valid(r.0) && r.0.buckets == t.buckets
    ensures r.1 == None ==> r.0.leaves == t.leaves[n + [key] := value]
    ensures r.1 != None ==> r.0 == t
  {
    if key == [] then (t, Some(KeyRequired))
    else if n + [key] in t.buckets then (t, Some(IncompatibleValue))
    else (t.(leaves := t.leaves[n + [key] := value]), None)
  }

  /** Get(key): the leaf's value, or nil for a missing key or a bucket. */
  function GetValue(t: Tree, n: Path, key: Bytes): (r: Option<Bytes>)
    ensures r.Some? <==> n + [key] in t.leaves
    ensures r.Some? ==> r.value == t.leaves[n + [key]]
    ensures Valid(t) && n + [key] in t.buckets ==> r == None
  {
    if n + [key] in t.leaves then Some(t.leaves[n + [key]]) else None
  }

  /** The store with the subtree rooted at bucket path r removed. */
  function RemoveSubtree(t: Tree, r: Path): Tree
  {
    Tree(set q | q in t.buckets && !Below(q, r), map q | q in t.leaves && !Below(q, r) :: t.leaves[q])
  }

  lemma RemoveSubtreeValid(t: Tree, r: Path)
    requires Valid(t)
    ensures Valid(RemoveSubtree(t, r))
  {
    var t' := RemoveSubtree(t, r);
    forall p | p in t'.buckets && |p| > 1 ensures Parent(p) in t'.buckets {
      assert p in t.buckets && !Below(p, r);
    }
    forall p | p in t'.leaves ensures Parent(p) in t'.buckets {
      assert p in t.leaves && !Below(p, r);
    }
  }

  /** DeleteBucket(name): removes the child bucket and all it holds; a missing name or a leaf is refused. */
  function DeleteBucket(t: Tree, n: Path, name: Bytes): (r: (Tree, Option<Error>))
    requires Valid(t)
    ensures Valid(r.0)
    ensures r.1 == None <==> n + [name] in t.buckets
    ensures r.1 == None ==> r.0 == RemoveSubtree(t, n + [name])
    ensures r.1 != None ==> r.0 == t
  {
    if n + [name] in t.buckets then
      RemoveSubtreeValid(t, n + [name]);
      (RemoveSubtree(t, n + [name]), None)
    else if n + [name] in t.leaves then (t, Some(IncompatibleValue))
    else (t, Some(BucketNotFound))
  }

  /** Delete(key): removes a leaf; deleting a missing key is a no-op, deleting a bucket's name is refused. */
  function Delete(t: Tree, n: Path, key: Bytes): (r: (Tree, Option<Error>))
    requires Valid(t)
    ensures Valid(r.0) && r.0.buckets == t.buckets
    ensures r.1 == None <==> n + [key] !in t.buckets
    ensures r.1 == None ==> r.0.leaves == t.leaves - {n + [key]}
    ensures r.1 != None ==> r == (t, Some(IncompatibleValue))
  {
    if n + [key] in t.buckets then (t, Some(IncompatibleValue))
    else (t.(leaves := t.leaves - {n + [key]}), None)
  }

  /** The names of n's child buckets. */
  function BucketNames(t: Tree, n: Path): (s: set<Bytes>)
    ensures forall c :: c in s <==> n + [c] in t.buckets
  {
    var s := set q | q in t.buckets && |q| == |n| + 1 && q[..|n|] == n :: q[|n|];
    assert forall c | n + [c] in t.buckets :: c in s by {
      forall c | n + [c] in t.buckets ensures c in s {
        var q := n + [c];
        assert q[..|n|] == n && q[|n|] == c;
      }
    }
    assert forall c | c in s :: n + [c] in t.buckets by {
      forall c | c in s ensures n + [c] in t.buckets {
        var q :| q in t.buckets && |q| == |n| + 1 && q[..|n|] == n && q[|n|] == c;
        assert q == n + [c];
      }
    }
    s
  }

  /** The names of n's leaves. */
  function LeafNames(t: Tree, n: Path): (s: set<Bytes>)
    ensures forall c :: c in s <==> n + [c] in t.leaves
  {
    var s := set q | q in t.leaves && |q| == |n| + 1 && q[..|n|] == n :: q[|n|];
    assert forall c | n + [c] in t.leaves :: c in s by {
      forall c | n + [c] in t.leaves ensures c in s {
        var q := n + [c];
        assert q[..|n|] == n && q[|n|] == c;
      }
    }
    assert forall c | c in s :: n + [c] in t.leaves by {
      forall c | c in s ensures n + [c] in t.leaves {
        var q :| q in t.leaves && |q| == |n| + 1 && q[..|n|] == n && q[|n|] == c;
        assert q == n + [c];
      }
    }
    s
  }

  /** ForEachBucket / Tx.ForEach: n's child buckets in key order. */
  function ChildBuckets(t: Tree, n: Path): seq<Bytes>
  {
    Sort(BucketNames(t, n))
  }

  /** ForEach / a cursor's First, Seek and Next: every name in n, buckets and leaves alike, in key order. */
  function Keys(t: Tree, n: Path): seq<Bytes>
  {
    Sort(BucketNames(t, n) + LeafNames(t, n))
  }

  /** ForEachBucket lists each child bucket of n once, in ascending order, and nothing else. */
  lemma ChildBucketsListed(t: Tree, n: Path)
    ensures StrictlySorted(ChildBuckets(t, n))
    ensures forall c :: c in ChildBuckets(t, n) <==> n + [c] in t.buckets
  {
  }

  /** ForEach and a cursor list each name in n, child bucket or leaf, once, in ascending order, and nothing else. */
  lemma KeysListed(t: Tree, n: Path)
    ensures StrictlySorted(Keys(t, n))
    ensures forall c :: c in Keys(t, n) <==> n + [c] in t.buckets || n + [c] in t.leaves
  {
  }
}
