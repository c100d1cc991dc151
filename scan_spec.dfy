/**
 * What Scan (bucket.go) reports: the sequence of visitor calls it would make
 * if the visitor never failed (its plan), the run of that plan that stops at
 * the first failing call, and the translation of the stop sentinels into
 * success.
 *
 * The visitor is a function of the call it receives. Within one plan no call
 * is repeated, so any visitor, stateful or not, answers one plan the way some
 * such function does.
 */
module ScanSpec {
  import opened ByteKeys
  import opened Engine
  import opened Resolver

  /** One call fn(key, value, bucket) of the visitor; None is a nil value. */
  datatype Visit = Visit(key: Bytes, value: Option<Bytes>, bucket: bool)

  /** The visitor's answer to each call: None for nil, or the error it returns. */
  type Visitor = Visit -> Option<Error>

  /** The calls of s that keep accepts, in order. */
  function Filter(s: seq<Visit>, keep: Visit -> bool): seq<Visit>
  {
    if s == [] then []
    else (if keep(s[0]) then [s[0]] else []) + Filter(s[1..], keep)
  }

  lemma {:induction false} FilterMembers(s: seq<Visit>, keep: Visit -> bool)
    ensures forall v :: v in Filter(s, keep) <==> v in s && keep(v)
  {
    if s != [] {
      FilterMembers(s[1..], keep);
      assert s == [s[0]] + s[1..];
    }
  }

  /** The filters Scan's closures apply. */
  function KeepAll(): Visit -> bool
  {
    (v: Visit) => true
  }

  function KeepPrefix(scan: Bytes): Visit -> bool
  {
    (v: Visit) => HasPrefix(v.key, scan)
  }

  function KeepNonBucket(t: Tree, n: Path): Visit -> bool
  {
    (v: Visit) => Bucket(t, n, v.key).None?
  }

  /** A bucket pass: fn(name, nil, true) for each name. */
  function BucketVisits(names: seq<Bytes>): (r: seq<Visit>)
    ensures |r| == |names|
    ensures forall j | 0 <= j < |names| :: r[j] == Visit(names[j], None, true)
  {
    seq(|names|, j requires 0 <= j < |names| => Visit(names[j], None, true))
  }

  /** A key pass over bucket n: fn(key, value, false), where a child bucket's value is nil. */
  function KeyVisits(t: Tree, n: Path, keys: seq<Bytes>): (r: seq<Visit>)
    ensures |r| == |keys|
    ensures forall j | 0 <= j < |keys| :: r[j] == Visit(keys[j], GetValue(t, n, keys[j]), false)
  {
    seq(|keys|, j requires 0 <= j < |keys| => Visit(keys[j], GetValue(t, n, keys[j]), false))
  }

  /**
   * The calls Scan(keyPath, scan, fn) makes when fn always returns nil. At
   * the root: each top-level bucket. In a bucket without a prefix: each child
   * bucket, then each leaf. In a bucket with a prefix: each child bucket
   * whose name starts with it, then each name (child buckets included, with a
   * nil value and bucket false) that starts with it. A missing bucket on the
   * way is the resolution error.
   */
  function Plan(t: Tree, keyPath: Path, scan: Bytes): (r: Result<seq<Visit>>)
    requires Valid(t)
    ensures keyPath == [] ==> r == Ok(RootPlan(t))
    ensures keyPath != [] && keyPath !in t.buckets ==> r == Err(BucketNotFound)
    ensures keyPath in t.buckets ==> r == Ok(if |scan| == 0 then NoPrefixPlan(t, keyPath) else PrefixPlan(t, keyPath, scan))
  {
    LookupExact(t, keyPath);
    if keyPath == [] then Ok(RootPlan(t))
    else
      match Resolve(t, None, keyPath, false).1
      case Err(e) => Err(e)
      case Ok(n) => Ok(if |scan| == 0 then NoPrefixPlan(t, n) else PrefixPlan(t, n, scan))
  }

  /** Tx.ForEach at the root: fn(name, nil, true) for each top-level bucket. */
  function RootPlan(t: Tree): seq<Visit>
  {
    BucketVisits(ChildBuckets(t, []))
  }

  /** ForEachBucket, then ForEach skipping child buckets. */
  function NoPrefixPlan(t: Tree, n: Path): seq<Visit>
  {
    BucketVisits(ChildBuckets(t, n)) + Filter(KeyVisits(t, n, Keys(t, n)), KeepNonBucket(t, n))
  }

  /** ForEachBucket filtered by the prefix, then the cursor pass from Seek(scan). */
  function PrefixPlan(t: Tree, n: Path, scan: Bytes): seq<Visit>
  {
    Filter(BucketVisits(ChildBuckets(t, n)), KeepPrefix(scan)) + Filter(KeyVisits(t, n, Keys(t, n)), KeepPrefix(scan))
  }

  /**
   * Calling fn on the plan in order and stopping at the first call that
   * returns an error: the calls made (the failing one included) and that
   * error, or the whole plan and None.
   */
  function Run(plan: seq<Visit>, fn: Visitor): (seq<Visit>, Option<Error>)
  {
    if plan == [] then ([], None)
    else if fn(plan[0]).Some? then ([plan[0]], fn(plan[0]))
    else
      var (calls, e) := Run(plan[1..], fn);
      ([plan[0]] + calls, e)
  }

  /**
   * Run calls a prefix of the plan; every call but the last returned nil;
   * it stops early only after a call that returned an error, and returns
   * that error; without one it makes every call of the plan.
   */
  lemma {:induction false} RunStopsAtFirstError(plan: seq<Visit>, fn: Visitor)
    ensures var (calls, err) := Run(plan, fn);
      && calls <= plan
      && (forall j | 0 <= j < |calls| - 1 :: fn(calls[j]) == None)
      && (err == None <==> calls == plan && forall j | 0 <= j < |calls| :: fn(calls[j]) == None)
      && (err != None ==> calls != [] && fn(calls[|calls| - 1]) == err)
  {
    if plan != [] && fn(plan[0]).None? {
      RunStopsAtFirstError(plan[1..], fn);
      var (calls, err) := Run(plan[1..], fn);
      assert plan == [plan[0]] + plan[1..];
      assert forall j | 1 <= j < |calls| + 1 :: ([plan[0]] + calls)[j] == calls[j - 1];
    }
  }

  /** io.EOF, fs.SkipAll and fs.SkipDir end a scan without an error. */
  predicate IsStop(e: Error)
  {
    e == EOF || e == SkipAll || e == SkipDir
  }

  function Normalize(e: Option<Error>): (r: Option<Error>)
    ensures r == None <==> e == None || IsStop(e.value)
    ensures r != None ==> r == e
  {
    if e.Some? && IsStop(e.value) then None else e
  }

  /**
   * Scan(keyPath, scan, fn): the calls made and the error returned. A
   * deferred error is returned as it is, before any call; otherwise the
   * plan is run and its error, the resolution error included, has the stop
   * sentinels turned into nil.
   */
  function Scan(t: Tree, deferred: Option<Error>, keyPath: Path, scan: Bytes, fn: Visitor): (r: (seq<Visit>, Option<Error>))
    requires Valid(t)
    ensures deferred.Some? ==> r == ([], deferred)
    ensures deferred.None? && keyPath != [] && keyPath !in t.buckets ==> r == ([], Some(BucketNotFound))
    ensures deferred.None? && (keyPath == [] || keyPath in t.buckets) ==> Plan(t, keyPath, scan).Ok?
  {
    LookupExact(t, keyPath);
    if deferred.Some? then ([], deferred)
    else
      match Plan(t, keyPath, scan)
      case Err(e) => ([], Normalize(Some(e)))
      case Ok(plan) =>
        var (calls, e) := Run(plan, fn);
        (calls, Normalize(e))
  }

  /**
   * A scan that gets to run its plan calls the visitor on a prefix of the
   * plan, in order, and stops right after the first call that returns an
   * error; that error is returned unless it is a stop sentinel, and without
   * a failing call the whole plan is visited and nil is returned.
   */
  lemma ScanStopsAtFirstError(t: Tree, keyPath: Path, scan: Bytes, fn: Visitor, plan: seq<Visit>)
    requires Valid(t) && Plan(t, keyPath, scan) == Ok(plan)
    ensures var (calls, err) := Scan(t, None, keyPath, scan, fn);
      && calls <= plan
      && (forall j | 0 <= j < |calls| - 1 :: fn(calls[j]) == None)
      && (calls == plan || (calls != [] && fn(calls[|calls| - 1]) != None))
      && (calls != [] && fn(calls[|calls| - 1]) != None ==> err == Normalize(fn(calls[|calls| - 1])))
      && (err != None ==> !IsStop(err.value) && calls != [] && err == fn(calls[|calls| - 1]))
  {
    var r := Run(plan, fn);
    RunStopsAtFirstError(plan, fn);
    assert Scan(t, None, keyPath, scan, fn) == (r.0, Normalize(r.1));
  }

  /** Keys strictly ascending along a sequence of calls. */
  predicate Ascending(s: seq<Visit>)
  {
    forall i, j | 0 <= i < j < |s| :: Less(s[i].key, s[j].key)
  }

  lemma {:induction false} FilterAscending(s: seq<Visit>, keep: Visit -> bool)
    requires Ascending(s)
    ensures Ascending(Filter(s, keep))
  {
    if s != [] {
      FilterAscending(s[1..], keep);
      FilterMembers(s[1..], keep);
      var rest := Filter(s[1..], keep);
      forall j | 0 <= j < |rest| ensures Less(s[0].key, rest[j].key) {
        assert rest[j] in s[1..];
      }
    }
  }

  lemma {:induction false} FilterAll(s: seq<Visit>)
    ensures Filter(s, KeepAll()) == s
  {
    if s != [] {
      FilterAll(s[1..]);
      assert [s[0]] + s[1..] == s;
    }
  }

  /** Filtering a sequence whose accepted positions form the range [lo, hi) yields that slice. */
  lemma {:induction false} FilterRange(s: seq<Visit>, keep: Visit -> bool, lo: nat, hi: nat)
    requires lo <= hi <= |s|
    requires forall j | 0 <= j < |s| :: keep(s[j]) <==> lo <= j < hi
    ensures Filter(s, keep) == s[lo..hi]
    decreases |s|
  {
    if s != [] {
      var tail := s[1..];
      if lo == hi {
        assert !keep(s[0]);
        assert forall j | 0 <= j < |tail| :: keep(tail[j]) <==> 0 <= j < 0 by {
          forall j | 0 <= j < |tail| ensures keep(tail[j]) <==> 0 <= j < 0 {
            assert tail[j] == s[j + 1];
          }
        }
        FilterRange(tail, keep, 0, 0);
      } else if lo == 0 {
        assert keep(s[0]);
        assert forall j | 0 <= j < |tail| :: keep(tail[j]) <==> 0 <= j < hi - 1 by {
          forall j | 0 <= j < |tail| ensures keep(tail[j]) <==> 0 <= j < hi - 1 {
            assert tail[j] == s[j + 1];
          }
        }
        FilterRange(tail, keep, 0, hi - 1);
        assert [s[0]] + tail[0..hi - 1] == s[0..hi];
      } else {
        assert !keep(s[0]);
        assert forall j | 0 <= j < |tail| :: keep(tail[j]) <==> lo - 1 <= j < hi - 1 by {
          forall j | 0 <= j < |tail| ensures keep(tail[j]) <==> lo - 1 <= j < hi - 1 {
            assert tail[j] == s[j + 1];
          }
        }
        FilterRange(tail, keep, lo - 1, hi - 1);
        assert tail[lo - 1..hi - 1] == s[lo..hi];
      }
    }
  }

  /** Running a plan whose first part passes without error is running both parts in turn. */
  lemma {:induction false} RunAppend(a: seq<Visit>, b: seq<Visit>, fn: Visitor)
    ensures Run(a, fn).1 != None ==> Run(a + b, fn) == Run(a, fn)
    ensures Run(a, fn).1 == None ==> Run(a + b, fn) == (a + Run(b, fn).0, Run(b, fn).1)
  {
    if a == [] {
      assert a + b == b;
      assert a + Run(b, fn).0 == Run(b, fn).0;
    } else {
      var x, rest := a[0], a[1..];
      assert (a + b)[0] == x;
      assert (a + b)[1..] == rest + b;
      if fn(x).None? {
        RunAppend(rest, b, fn);
        var r := Run(rest + b, fn);
        assert Run(a + b, fn) == ([x] + r.0, r.1);
        if Run(rest, fn).1 == None {
          assert [x] + (rest + Run(b, fn).0) == a + Run(b, fn).0;
        }
      }
    }
  }

  /**
   * Scan of the root lists each top-level bucket once, as a bucket with a
   * nil value, in ascending order, whatever the prefix.
   */
  lemma RootScan(t: Tree, scan: Bytes)
    requires Valid(t)
    ensures Plan(t, [], scan) == Ok(RootPlan(t))
    ensures var p := RootPlan(t);
      && (forall v | v in p :: v.bucket && v.value == None && [v.key] in t.buckets)
      && (forall c | [c] in t.buckets :: Visit(c, None, true) in p)
      && Ascending(p)
      && (forall i, j | 0 <= i < j < |p| :: p[i].key != p[j].key)
  {
    var p := RootPlan(t);
    BucketPass(t, []);
    forall c | [c] in t.buckets ensures Visit(c, None, true) in p {
      assert [] + [c] == [c];
    }
    forall v | v in p ensures [v.key] in t.buckets {
      assert [] + [v.key] == [v.key];
    }
    forall i, j | 0 <= i < j < |p| ensures p[i].key != p[j].key {
      LessIrreflexive(p[i].key);
    }
  }

  lemma KeyVisitsAscending(t: Tree, n: Path)
    ensures Ascending(KeyVisits(t, n, Keys(t, n)))
  {
  }

  /** Every call of the first part is a bucket call and every call of the second part is not. */
  predicate Passes(bs: seq<Visit>, ls: seq<Visit>)
  {
    (forall v | v in bs :: v.bucket) && (forall v | v in ls :: !v.bucket)
  }

  /** Two passes run in turn: bucket calls come first, and each pass keeps its order. */
  lemma TwoPasses(bs: seq<Visit>, ls: seq<Visit>)
    requires Passes(bs, ls) && Ascending(bs) && Ascending(ls)
    ensures var p := bs + ls;
      && (forall i, j | 0 <= i < j < |p| :: p[j].bucket ==> p[i].bucket)
      && (forall i, j | 0 <= i < j < |p| && p[i].bucket == p[j].bucket :: Less(p[i].key, p[j].key))
  {
    var p := bs + ls;
    forall i, j | 0 <= i < j < |p| && p[i].bucket == p[j].bucket ensures Less(p[i].key, p[j].key) {
      if i >= |bs| {
        assert p[i] == ls[i - |bs|] && p[j] == ls[j - |bs|];
      }
    }
  }

  /** Two passes over disjoint sets of names report no name twice. */
  lemma NoNameTwice(bs: seq<Visit>, ls: seq<Visit>)
    requires Ascending(bs) && Ascending(ls)
    requires forall v, w | v in bs && w in ls :: v.key != w.key
    ensures var p := bs + ls;
      forall i, j | 0 <= i < j < |p| :: p[i].key != p[j].key
  {
    var p := bs + ls;
    forall i, j | 0 <= i < j < |p| ensures p[i].key != p[j].key {
      if j < |bs| {
        LessIrreflexive(p[i].key);
      } else if i >= |bs| {
        assert p[i] == ls[i - |bs|] && p[j] == ls[j - |bs|];
        LessIrreflexive(p[i].key);
      } else {
        assert p[i] in bs && p[j] in ls;
      }
    }
  }

  /** ForEachBucket / Tx.ForEach reporting fn(name, nil, true): each child bucket once, ascending. */
  lemma BucketPass(t: Tree, n: Path)
    ensures var bs := BucketVisits(ChildBuckets(t, n));
      && Ascending(bs)
      && (forall v | v in bs :: v.bucket && v.value == None && n + [v.key] in t.buckets)
      && (forall c | n + [c] in t.buckets :: Visit(c, None, true) in bs)
  {
    var names := ChildBuckets(t, n);
    var bs := BucketVisits(names);
    forall v | v in bs ensures n + [v.key] in t.buckets {
      var j :| 0 <= j < |bs| && bs[j] == v;
      assert names[j] in BucketNames(t, n);
    }
    forall c | n + [c] in t.buckets ensures Visit(c, None, true) in bs {
      var j :| 0 <= j < |names| && names[j] == c;
      assert bs[j] == Visit(c, None, true);
    }
  }

  /** ForEach skipping child buckets: each leaf once with its value, ascending. */
  lemma LeafPass(t: Tree, n: Path)
    requires Valid(t)
    ensures var ls := Filter(KeyVisits(t, n, Keys(t, n)), KeepNonBucket(t, n));
      && Ascending(ls)
      && (forall v | v in ls :: !v.bucket && n + [v.key] !in t.buckets)
      && (forall v | v in ls :: n + [v.key] in t.leaves && v.value == Some(t.leaves[n + [v.key]]))
      && (forall c | n + [c] in t.leaves :: Visit(c, Some(t.leaves[n + [c]]), false) in ls)
  {
    var all := KeyVisits(t, n, Keys(t, n));
    var ls := Filter(all, KeepNonBucket(t, n));
    KeyVisitsAscending(t, n);
    FilterAscending(all, KeepNonBucket(t, n));
    FilterMembers(all, KeepNonBucket(t, n));
    forall v | v in ls ensures n + [v.key] in t.leaves && v.value == Some(t.leaves[n + [v.key]]) {
      var j :| 0 <= j < |all| && all[j] == v;
      assert v.key in Keys(t, n);
    }
    forall c | n + [c] in t.leaves ensures Visit(c, Some(t.leaves[n + [c]]), false) in ls {
      assert c in Keys(t, n);
      var j :| 0 <= j < |all| && Keys(t, n)[j] == c;
      assert all[j] == Visit(c, Some(t.leaves[n + [c]]), false);
      assert KeepNonBucket(t, n)(all[j]);
    }
  }

  /**
   * Scan of a bucket without a prefix: the child buckets first, each once with
   * a nil value, then the leaves, each once with its value; no name is
   * reported twice, and each pass is in ascending order.
   */
  lemma NoPrefixScan(t: Tree, keyPath: Path)
    requires Valid(t) && keyPath in t.buckets
    ensures Plan(t, keyPath, []) == Ok(NoPrefixPlan(t, keyPath))
    ensures var p := NoPrefixPlan(t, keyPath);
      && (forall v | v in p && v.bucket :: v.value == None && keyPath + [v.key] in t.buckets)
      && (forall v | v in p && !v.bucket :: keyPath + [v.key] in t.leaves && v.value == Some(t.leaves[keyPath + [v.key]]))
      && (forall c | keyPath + [c] in t.buckets :: Visit(c, None, true) in p)
      && (forall c | keyPath + [c] in t.leaves :: Visit(c, Some(t.leaves[keyPath + [c]]), false) in p)
      && (forall i, j | 0 <= i < j < |p| :: p[j].bucket ==> p[i].bucket)
      && (forall i, j | 0 <= i < j < |p| && p[i].bucket == p[j].bucket :: Less(p[i].key, p[j].key))
      && (forall i, j | 0 <= i < j < |p| :: p[i].key != p[j].key)
  {
    LookupExact(t, keyPath);
    var bs := BucketVisits(ChildBuckets(t, keyPath));
    var ls := Filter(KeyVisits(t, keyPath, Keys(t, keyPath)), KeepNonBucket(t, keyPath));
    BucketPass(t, keyPath);
    LeafPass(t, keyPath);
    TwoPasses(bs, ls);
    NoNameTwice(bs, ls);
  }

  /** ForEachBucket with the prefix test: each matching child bucket once, ascending. */
  lemma PrefixBucketPass(t: Tree, n: Path, scan: Bytes)
    ensures var bs := Filter(BucketVisits(ChildBuckets(t, n)), KeepPrefix(scan));
      && Ascending(bs)
      && (forall v | v in bs :: v.bucket && v.value == None && n + [v.key] in t.buckets && HasPrefix(v.key, scan))
      && (forall c | n + [c] in t.buckets && HasPrefix(c, scan) :: Visit(c, None, true) in bs)
  {
    BucketPass(t, n);
    FilterAscending(BucketVisits(ChildBuckets(t, n)), KeepPrefix(scan));
    FilterMembers(BucketVisits(ChildBuckets(t, n)), KeepPrefix(scan));
  }

  /** The cursor pass: each matching name, buckets included, with its value (nil for a bucket), ascending. */
  lemma PrefixKeyPass(t: Tree, n: Path, scan: Bytes)
    ensures var ls := Filter(KeyVisits(t, n, Keys(t, n)), KeepPrefix(scan));
      && Ascending(ls)
      && (forall v | v in ls :: !v.bucket && HasPrefix(v.key, scan) && v.value == GetValue(t, n, v.key))
      && (forall v | v in ls :: n + [v.key] in t.buckets || n + [v.key] in t.leaves)
      && (forall c | (n + [c] in t.buckets || n + [c] in t.leaves) && HasPrefix(c, scan) :: Visit(c, GetValue(t, n, c), false) in ls)
  {
    var all := KeyVisits(t, n, Keys(t, n));
    var ls := Filter(all, KeepPrefix(scan));
    KeyVisitsAscending(t, n);
    FilterAscending(all, KeepPrefix(scan));
    FilterMembers(all, KeepPrefix(scan));
    forall v | v in ls ensures n + [v.key] in t.buckets || n + [v.key] in t.leaves {
      var j :| 0 <= j < |all| && all[j] == v;
      assert v.key in Keys(t, n);
    }
    forall c | (n + [c] in t.buckets || n + [c] in t.leaves) && HasPrefix(c, scan)
      ensures Visit(c, GetValue(t, n, c), false) in ls
    {
      assert c in Keys(t, n);
      var j :| 0 <= j < |all| && Keys(t, n)[j] == c;
      assert all[j] == Visit(c, GetValue(t, n, c), false);
      assert KeepPrefix(scan)(all[j]);
    }
  }

  /**
   * Scan of a bucket with a non-empty prefix: every call's key starts with
   * the prefix; the first pass reports each child bucket that matches, the
   * second each name that matches, child buckets included, with its value
   * (nil for a bucket) and bucket false; each pass is in ascending order.
   */
  lemma PrefixScan(t: Tree, keyPath: Path, scan: Bytes)
    requires Valid(t) && keyPath in t.buckets && scan != []
    ensures Plan(t, keyPath, scan) == Ok(PrefixPlan(t, keyPath, scan))
    ensures var p := PrefixPlan(t, keyPath, scan);
      && (forall v | v in p :: HasPrefix(v.key, scan))
      && (forall v | v in p && v.bucket :: v.value == None && keyPath + [v.key] in t.buckets)
      && (forall v | v in p && !v.bucket :: v.value == GetValue(t, keyPath, v.key) && (keyPath + [v.key] in t.buckets || keyPath + [v.key] in t.leaves))
      && (forall c | keyPath + [c] in t.buckets && HasPrefix(c, scan) :: Visit(c, None, true) in p)
      && (forall c | (keyPath + [c] in t.buckets || keyPath + [c] in t.leaves) && HasPrefix(c, scan) :: Visit(c, GetValue(t, keyPath, c), false) in p)
      && (forall i, j | 0 <= i < j < |p| :: p[j].bucket ==> p[i].bucket)
      && (forall i, j | 0 <= i < j < |p| && p[i].bucket == p[j].bucket :: Less(p[i].key, p[j].key))
  {
    LookupExact(t, keyPath);
    var bs := Filter(BucketVisits(ChildBuckets(t, keyPath)), KeepPrefix(scan));
    var ls := Filter(KeyVisits(t, keyPath, Keys(t, keyPath)), KeepPrefix(scan));
    PrefixBucketPass(t, keyPath, scan);
    PrefixKeyPass(t, keyPath, scan);
    TwoPasses(bs, ls);
  }

  /**
   * With a prefix, a child bucket whose name matches is reported twice: once
   * in the bucket pass as a bucket, and once more by the cursor with a nil
   * value and bucket false.
   */
  lemma PrefixReportsBucketTwice(t: Tree, n: Path, scan: Bytes, c: Bytes)
    requires Valid(t) && n + [c] in t.buckets && HasPrefix(c, scan)
    ensures Visit(c, None, true) in PrefixPlan(t, n, scan)
    ensures Visit(c, None, false) in PrefixPlan(t, n, scan)
  {
    var bs := Filter(BucketVisits(ChildBuckets(t, n)), KeepPrefix(scan));
    var ls := Filter(KeyVisits(t, n, Keys(t, n)), KeepPrefix(scan));
    PrefixBucketPass(t, n, scan);
    PrefixKeyPass(t, n, scan);
    assert GetValue(t, n, c) == None;
    assert Visit(c, None, true) in bs && Visit(c, None, false) in ls;
  }

  /**
   * The cursor's pass: seeking to the prefix and walking on while keys match
   * visits exactly the keys the prefix filter accepts.
   */
  lemma SeekRunIsFilter(t: Tree, n: Path, keys: seq<Bytes>, scan: Bytes)
    requires StrictlySorted(keys)
    ensures var s := Seek(keys, scan);
      Filter(KeyVisits(t, n, keys), KeepPrefix(scan)) == KeyVisits(t, n, keys[s..RunEnd(keys, scan, s)])
  {
    var s := Seek(keys, scan);
    var e := RunEnd(keys, scan, s);
    var all := KeyVisits(t, n, keys);
    PrefixRun(keys, scan);
    FilterRange(all, KeepPrefix(scan), s, e);
    assert all[s..e] == KeyVisits(t, n, keys[s..e]);
  }

  /** A key pass over a non-empty range starts with its first key. */
  lemma KeyVisitsStep(t: Tree, n: Path, keys: seq<Bytes>, i: nat, e: nat)
    requires i < e <= |keys|
    ensures KeyVisits(t, n, keys[i..e]) == [Visit(keys[i], GetValue(t, n, keys[i]), false)] + KeyVisits(t, n, keys[i + 1..e])
  {
  }

  /** Running a plan that starts with x: x is called first, and on nil the rest follows. */
  lemma RunCons(x: Visit, rest: seq<Visit>, fn: Visitor)
    ensures Run([x] + rest, fn) == if fn(x).Some? then ([x], fn(x)) else ([x] + Run(rest, fn).0, Run(rest, fn).1)
  {
    assert ([x] + rest)[1..] == rest;
  }
}
