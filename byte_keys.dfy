/**
 * Byte-string keys and the order the storage engine keeps them in.
 *
 * Bucket names and leaf keys are opaque byte strings compared byte by byte
 * (Go's bytes.Compare); every iteration the engine offers (ForEach,
 * ForEachBucket, a cursor's Seek/Next) walks a bucket's names in ascending
 * order of this comparison. Prefix tests are Go's bytes.HasPrefix.
 */
module ByteKeys {

  type Byte = x: int | 0 <= x < 256
  type Bytes = seq<Byte>

  /** Strict byte-lexicographic order: bytes.Compare(a, b) < 0. */
  predicate Less(a: Bytes, b: Bytes)
  {
    if |a| == 0 then |b| > 0
    else |b| > 0 && (a[0] < b[0] || (a[0] == b[0] && Less(a[1..], b[1..])))
  }

  predicate LessEq(a: Bytes, b: Bytes)
  {
    a == b || Less(a, b)
  }

  /** bytes.HasPrefix(s, p). */
  predicate HasPrefix(s: Bytes, p: Bytes)
  {
    |p| <= |s| && s[..|p|] == p
  }

  lemma {:induction false} LessIrreflexive(a: Bytes)
    ensures !Less(a, a)
  {
    if |a| > 0 {
      LessIrreflexive(a[1..]);
    }
  }

  lemma {:induction false} LessAsymmetric(a: Bytes, b: Bytes)
    ensures !(Less(a, b) && Less(b, a))
  {
    if |a| > 0 && |b| > 0 && a[0] == b[0] {
      LessAsymmetric(a[1..], b[1..]);
    }
  }

  lemma {:induction false} LessTransitive(a: Bytes, b: Bytes, c: Bytes)
    requires Less(a, b) && Less(b, c)
    ensures Less(a, c)
  {
    if |a| > 0 && a[0] == b[0] && b[0] == c[0] {
      LessTransitive(a[1..], b[1..], c[1..]);
    }
  }

  lemma {:induction false} LessTotal(a: Bytes, b: Bytes)
    ensures Less(a, b) || a == b || Less(b, a)
  {
    if |a| > 0 && |b| > 0 && a[0] == b[0] {
      LessTotal(a[1..], b[1..]);
      assert a == [a[0]] + a[1..];
      assert b == [b[0]] + b[1..];
    }
  }

  /** A key that starts with p sorts at or after p. */
  lemma {:induction false} PrefixNotBelow(k: Bytes, p: Bytes)
    requires HasPrefix(k, p)
    ensures LessEq(p, k)
  {
    if |p| > 0 {
      assert k[1..][..|p| - 1] == p[1..];
      PrefixNotBelow(k[1..], p[1..]);
      assert p == [p[0]] + p[1..];
      assert k == [k[0]] + k[1..];
    } else if |k| > 0 {
      assert Less(p, k);
    }
  }

  /** A key squeezed between p and a key that starts with p starts with p too. */
  lemma {:induction false} PrefixBetween(p: Bytes, a: Bytes, b: Bytes)
    requires LessEq(p, a) && LessEq(a, b) && HasPrefix(b, p)
    ensures HasPrefix(a, p)
  {
    if |p| > 0 && a != p && a != b {
      assert b[0] == p[0];
      assert |a| > 0;
      if p[0] < a[0] {
        LessAsymmetric(a, b);
        assert false;
      }
      assert a[0] == p[0] && a[0] == b[0];
      assert b[1..][..|p| - 1] == p[1..];
      PrefixBetween(p[1..], a[1..], b[1..]);
      assert a[..|p|] == [a[0]] + a[1..][..|p| - 1];
    }
  }

  /** Strictly ascending: what every engine iteration yields. */
  predicate StrictlySorted(s: seq<Bytes>)
  {
    forall i, j | 0 <= i < j < |s| :: Less(s[i], s[j])
  }

  predicate IsLeast(m: Bytes, s: set<Bytes>)
  {
    m in s && forall x | x in s :: LessEq(m, x)
  }

  lemma {:induction false} LeastExists(s: set<Bytes>)
    requires s != {}
    ensures exists m :: IsLeast(m, s)
  {
    var x :| x in s;
    if s == {x} {
      assert IsLeast(x, s);
    } else {
      LeastExists(s - {x});
      var m :| IsLeast(m, s - {x});
      LessTotal(m, x);
      if Less(x, m) {
        forall y | y in s ensures LessEq(x, y) {
          if y != x && y != m {
            assert y in s - {x};
            LessTransitive(x, m, y);
          }
        }
        assert IsLeast(x, s);
      } else {
        assert IsLeast(m, s);
      }
    }
  }

  lemma LeastUnique(a: Bytes, b: Bytes, s: set<Bytes>)
    requires IsLeast(a, s) && IsLeast(b, s)
    ensures a == b
  {
    LessAsymmetric(a, b);
  }

  /** The smallest name of a non-empty finite set. */
  function Least(s: set<Bytes>): (m: Bytes)
    requires s != {}
    ensures m in s && forall x | x in s :: LessEq(m, x)
  {
    LeastExists(s);
    assert forall a, b | IsLeast(a, s) && IsLeast(b, s) :: a == b by {
      forall a, b | IsLeast(a, s) && IsLeast(b, s) ensures a == b {
        LeastUnique(a, b, s);
      }
    }
    var m :| IsLeast(m, s);
    m
  }

  /** The names of a finite set in engine iteration order. */
  function Sort(s: set<Bytes>): (r: seq<Bytes>)
    ensures StrictlySorted(r)
    ensures forall x :: x in r <==> x in s
    decreases |s|
  {
    if s == {} then []
    else
      var m := Least(s);
      var rest := Sort(s - {m});
      assert forall j | 0 <= j < |rest| :: Less(m, rest[j]) by {
        forall j | 0 <= j < |rest| ensures Less(m, rest[j]) {
          assert rest[j] in s - {m};
        }
      }
      [m] + rest
  }

  /**
   * A cursor's Seek(p): the position of the first key at or after p, or the
   * end of the keys when there is none.
   */
  function Seek(keys: seq<Bytes>, p: Bytes): (i: nat)
    ensures i <= |keys|
    ensures forall j | 0 <= j < i :: Less(keys[j], p)
    ensures i < |keys| ==> LessEq(p, keys[i])
  {
    if keys == [] || LessEq(p, keys[0]) then 0
    else
      LessTotal(keys[0], p);
      1 + Seek(keys[1..], p)
  }

  /** The first position at or after i whose key does not start with p, or the end of the keys. */
  function RunEnd(keys: seq<Bytes>, p: Bytes, i: nat): (e: nat)
    requires i <= |keys|
    ensures i <= e <= |keys|
    ensures forall j | i <= j < e :: HasPrefix(keys[j], p)
    ensures e < |keys| ==> !HasPrefix(keys[e], p)
    decreases |keys| - i
  {
    if i == |keys| || !HasPrefix(keys[i], p) then i else RunEnd(keys, p, i + 1)
  }

  /**
   * Prefix contiguity: in strictly sorted keys, the keys that start with p are
   * exactly one run, from Seek(keys, p) up to the first key after it that
   * does not start with p. This is why a cursor loop that seeks to p and
   * stops at the first non-matching key sees every matching key.
   */
  lemma {:induction false} PrefixRun(keys: seq<Bytes>, p: Bytes)
    requires StrictlySorted(keys)
    ensures var s := Seek(keys, p);
      forall j | 0 <= j < |keys| :: HasPrefix(keys[j], p) <==> s <= j < RunEnd(keys, p, s)
  {
    var s := Seek(keys, p);
    var e := RunEnd(keys, p, s);
    forall j | 0 <= j < |keys|
      ensures HasPrefix(keys[j], p) <==> s <= j < e
    {
      if j < s {
        if HasPrefix(keys[j], p) {
          PrefixNotBelow(keys[j], p);
          LessIrreflexive(p);
          if keys[j] != p {
            LessAsymmetric(keys[j], p);
          }
        }
      } else if e < j {
        if HasPrefix(keys[j], p) {
          assert LessEq(p, keys[e]) by {
            if s < e {
              assert Less(keys[s], keys[e]);
              if keys[s] != p {
                LessTransitive(p, keys[s], keys[e]);
              }
            }
          }
          PrefixBetween(p, keys[e], keys[j]);
          assert false;
        }
      }
    }
  }
}
