/** Sequence helpers standing for the JavaScript array operations the
    service uses (`filter`, `map`, `new Set(...)`). */
module Collections {

  /** Order-preserving `Array.prototype.filter`. */
  function Filter<T>(s: seq<T>, p: T -> bool): (r: seq<T>)
    ensures |r| <= |s|
    ensures forall i :: 0 <= i < |r| ==> r[i] in s && p(r[i])
    ensures forall i :: 0 <= i < |s| && p(s[i]) ==> s[i] in r
    decreases |s|
  {
    if |s| == 0 then []
    else (if p(s[0]) then [s[0]] else []) + Filter(s[1..], p)
  }

  /** Filtering by two predicates that agree on the elements gives one
      result. */
  lemma {:induction false} FilterCongruent<T>(s: seq<T>, p: T -> bool, q: T -> bool)
    requires forall x :: x in s ==> p(x) == q(x)
    ensures Filter(s, p) == Filter(s, q)
    decreases |s|
  {
    if |s| > 0 {
      assert forall x :: x in s[1..] ==> x in s;
      FilterCongruent(s[1..], p, q);
    }
  }

  /** Filtering a concatenation filters each part and keeps them in order:
      together with the one-element case, the kept elements appear in the
      order of `s`. */
  lemma {:induction false} FilterAppend<T>(a: seq<T>, b: seq<T>, p: T -> bool)
    ensures Filter(a + b, p) == Filter(a, p) + Filter(b, p)
    decreases |a|
  {
    if |a| == 0 {
      assert a + b == b;
    } else {
      assert (a + b)[0] == a[0];
      assert (a + b)[1..] == a[1..] + b;
      FilterAppend(a[1..], b, p);
      var head := if p(a[0]) then [a[0]] else [];
      calc {
        Filter(a + b, p);
        head + Filter(a[1..] + b, p);
        head + (Filter(a[1..], p) + Filter(b, p));
        { assert head + (Filter(a[1..], p) + Filter(b, p)) == (head + Filter(a[1..], p)) + Filter(b, p); }
        (head + Filter(a[1..], p)) + Filter(b, p);
      }
    }
  }

  /** A one-element sequence keeps its element exactly when it passes. */
  lemma FilterSingle<T>(x: T, p: T -> bool)
    ensures Filter([x], p) == if p(x) then [x] else []
  {
    assert [x][1..] == [];
  }

  /** `Array.prototype.map`. */
  function MapSeq<T, U>(s: seq<T>, f: T -> U): (r: seq<U>)
    ensures |r| == |s|
    ensures forall i :: 0 <= i < |s| ==> r[i] == f(s[i])
  {
    seq(|s|, i requires 0 <= i < |s| => f(s[i]))
  }

  predicate NoDuplicates<T(==)>(s: seq<T>) {
    forall i, j :: 0 <= i < j < |s| ==> s[i] != s[j]
  }

  /** The set `new Set(s)` builds. */
  function Elements<T>(s: seq<T>): set<T> {
    set x | x in s
  }

  /** `s.length === new Set(s).size` holds exactly when `s` repeats nothing. */
  lemma {:induction false} DistinctIffSizesAgree<T>(s: seq<T>)
    ensures |Elements(s)| <= |s|
    ensures |Elements(s)| == |s| <==> NoDuplicates(s)
  {
    if |s| == 0 {
      assert Elements(s) == {};
    } else {
      var t := s[1..];
      DistinctIffSizesAgree(t);
      assert Elements(s) == {s[0]} + Elements(t) by {
        forall x ensures x in Elements(s) <==> x in {s[0]} + Elements(t) {
          if x in s && x != s[0] {
            var k :| 0 <= k < |s| && s[k] == x;
            assert t[k - 1] == x;
          }
        }
      }
      if s[0] in t {
        var k :| 0 <= k < |t| && t[k] == s[0];
        assert s[k + 1] == s[0];
        assert Elements(s) == Elements(t);
        assert !NoDuplicates(s);
      } else {
        assert |Elements(s)| == 1 + |Elements(t)|;
        if NoDuplicates(t) {
          forall i, j | 0 <= i < j < |s| ensures s[i] != s[j] {
            if i == 0 {
              assert s[j] == t[j - 1];
            } else {
              assert s[i] == t[i - 1] && s[j] == t[j - 1];
            }
          }
        } else {
          var i, j :| 0 <= i < j < |t| && t[i] == t[j];
          assert s[i + 1] == s[j + 1];
        }
      }
    }
  }

  /** No two elements of `s` share a key. */
  predicate DistinctKeys<T, K(==)>(s: seq<T>, key: T -> K) {
    forall i, j :: 0 <= i < j < |s| ==> key(s[i]) != key(s[j])
  }

  /** Filtering keeps the keys of the kept elements pairwise distinct. */
  lemma {:induction false} FilterKeepsKeysDistinct<T, K>(s: seq<T>, p: T -> bool, key: T -> K)
    requires DistinctKeys(s, key)
    ensures DistinctKeys(Filter(s, p), key)
    decreases |s|
  {
    if |s| > 0 {
      var t := s[1..];
      assert DistinctKeys(t, key) by {
        forall i, j | 0 <= i < j < |t| ensures key(t[i]) != key(t[j]) {
          assert t[i] == s[i + 1] && t[j] == s[j + 1];
        }
      }
      FilterKeepsKeysDistinct(t, p, key);
      var ft := Filter(t, p);
      if p(s[0]) {
        var r := Filter(s, p);
        assert r == [s[0]] + ft;
        forall i, j | 0 <= i < j < |r| ensures key(r[i]) != key(r[j]) {
          if i == 0 {
            assert r[j] == ft[j - 1];
            assert r[j] in t;
            var k :| 0 <= k < |t| && t[k] == r[j];
            assert s[k + 1] == r[j];
          } else {
            assert r[i] == ft[i - 1] && r[j] == ft[j - 1];
          }
        }
      } else {
        assert Filter(s, p) == ft;
      }
    }
  }

  /** A lookup that keeps the stored elements whose key was requested: with
      unique stored keys and distinct requests it returns at most one element
      per request, and exactly one per request iff every request is stored. */
  lemma LookupLength<T, K>(store: seq<T>, key: T -> K, p: T -> bool, req: seq<K>)
    requires DistinctKeys(store, key)
    requires NoDuplicates(req)
    requires forall x :: p(x) <==> key(x) in req
    ensures |Filter(store, p)| <= |req|
    ensures |Filter(store, p)| == |req| <==>
              forall k :: k in req ==> exists x :: x in store && key(x) == k
  {
    var found := Filter(store, p);
    var keys := MapSeq(found, key);
    FilterKeepsKeysDistinct(store, p, key);
    DistinctIffSizesAgree(keys);
    DistinctIffSizesAgree(req);
    assert Elements(keys) <= Elements(req) by {
      forall k | k in Elements(keys) ensures k in Elements(req) {
        var i :| 0 <= i < |keys| && keys[i] == k;
        assert found[i] in found;
      }
    }
    SubsetCardinality(Elements(keys), Elements(req));
    if forall k :: k in req ==> exists x :: x in store && key(x) == k {
      forall k | k in Elements(req) ensures k in Elements(keys) {
        var x :| x in store && key(x) == k;
        var n :| 0 <= n < |store| && store[n] == x;
        assert x in found;
        var i :| 0 <= i < |found| && found[i] == x;
        assert keys[i] == k;
      }
      assert Elements(keys) == Elements(req);
    } else {
      var k :| k in req && !(exists x :: x in store && key(x) == k);
      forall i | 0 <= i < |keys| ensures keys[i] != k {
        assert found[i] in store;
      }
      assert k !in Elements(keys);
      assert Elements(keys) < Elements(req);
      StrictSubsetCardinality(Elements(keys), Elements(req));
    }
  }

  lemma SubsetCardinality<T>(a: set<T>, b: set<T>)
    requires a <= b
    ensures |a| <= |b|
  {
    assert b == a + (b - a);
  }

  lemma StrictSubsetCardinality<T>(a: set<T>, b: set<T>)
    requires a < b
    ensures |a| < |b|
  {
    assert b == a + (b - a);
    assert b - a != {};
  }
}
