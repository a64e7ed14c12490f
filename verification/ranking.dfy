/** Python's `list.sort(key=..., reverse=True)` on a real-valued key: a
    stable sort into non-increasing key order, so elements with equal keys
    keep their original relative order. */
module Ranking {

  /** Keys never increase from left to right. */
  predicate SortedDesc<T>(ys: seq<T>, key: T -> real)
  {
    forall i, j :: 0 <= i < j < |ys| ==> key(ys[i]) >= key(ys[j])
  }

  /** The elements of `xs` whose key is `v`, in their order in `xs`. */
  function WithKey<T>(xs: seq<T>, key: T -> real, v: real): seq<T>
  {
    if |xs| == 0 then [] else (if key(xs[0]) == v then [xs[0]] else []) + WithKey(xs[1..], key, v)
  }

  /** `ys` is the stable descending sort of `xs`: sorted, and for every key
      value the elements carrying it are those of `xs`, in the same order. */
  ghost predicate StableSortOf<T>(ys: seq<T>, xs: seq<T>, key: T -> real)
  {
    SortedDesc(ys, key) && forall v :: WithKey(ys, key, v) == WithKey(xs, key, v)
  }

  /** Put `x` into `s` just before the first element whose key is not above
      `x`'s, so that `x` precedes the elements it ties with. */
  function Insert<T>(x: T, s: seq<T>, key: T -> real): (r: seq<T>)
    ensures |r| == |s| + 1
    ensures multiset(r) == multiset(s) + multiset{x}
  {
    if |s| == 0 then [x]
    else if key(s[0]) <= key(x) then [x] + s
    else
      assert s == [s[0]] + s[1..];
      [s[0]] + Insert(x, s[1..], key)
  }

  /** Inserting below a bound every key already respects keeps every key
      below it. */
  lemma {:induction false} InsertBounded<T>(x: T, s: seq<T>, key: T -> real, b: real)
    requires key(x) <= b && forall i :: 0 <= i < |s| ==> key(s[i]) <= b
    ensures forall j :: 0 <= j < |Insert(x, s, key)| ==> key(Insert(x, s, key)[j]) <= b
  {
    if |s| > 0 && key(s[0]) > key(x) {
      var rest := Insert(x, s[1..], key);
      forall i | 0 <= i < |s[1..]| ensures key(s[1..][i]) <= b {
        assert s[1..][i] == s[i + 1];
      }
      InsertBounded(x, s[1..], key, b);
      var r := [s[0]] + rest;
      assert Insert(x, s, key) == r;
      forall j | 0 <= j < |r| ensures key(r[j]) <= b {
        if j > 0 {
          assert r[j] == rest[j - 1];
        }
      }
    } else if |s| > 0 {
      var r := [x] + s;
      forall j | 0 <= j < |r| ensures key(r[j]) <= b {
        if j > 0 {
          assert r[j] == s[j - 1];
        }
      }
    }
  }

  lemma {:induction false} InsertSorted<T>(x: T, s: seq<T>, key: T -> real)
    requires SortedDesc(s, key)
    ensures SortedDesc(Insert(x, s, key), key)
  {
    if |s| > 0 && key(s[0]) > key(x) {
      var rest := Insert(x, s[1..], key);
      assert SortedDesc(s[1..], key);
      InsertSorted(x, s[1..], key);
      forall i | 0 <= i < |s[1..]| ensures key(s[1..][i]) <= key(s[0]) {
        assert s[1..][i] == s[i + 1];
      }
      InsertBounded(x, s[1..], key, key(s[0]));
      var r := [s[0]] + rest;
      assert Insert(x, s, key) == r;
      forall i, j | 0 <= i < j < |r| ensures key(r[i]) >= key(r[j]) {
        assert r[j] == rest[j - 1];
        if i > 0 {
          assert r[i] == rest[i - 1];
        }
      }
    } else if |s| > 0 {
      var r := [x] + s;
      forall i, j | 0 <= i < j < |r| ensures key(r[i]) >= key(r[j]) {
        assert r[j] == s[j - 1];
        if i > 0 {
          assert r[i] == s[i - 1];
        } else {
          assert key(s[0]) >= key(s[j - 1]) || j - 1 == 0;
        }
      }
    }
  }

  /** The stable descending sort, built by inserting from the back. */
  function Sort<T>(xs: seq<T>, key: T -> real): (r: seq<T>)
    ensures |r| == |xs|
    ensures multiset(r) == multiset(xs)
  {
    if |xs| == 0 then []
    else
      assert xs == [xs[0]] + xs[1..];
      Insert(xs[0], Sort(xs[1..], key), key)
  }

  lemma {:induction false} SortSorted<T>(xs: seq<T>, key: T -> real)
    ensures SortedDesc(Sort(xs, key), key)
  {
    if |xs| > 0 {
      SortSorted(xs[1..], key);
      InsertSorted(xs[0], Sort(xs[1..], key), key);
    }
  }

  lemma {:induction false} InsertWithKey<T>(x: T, s: seq<T>, key: T -> real, v: real)
    ensures WithKey(Insert(x, s, key), key, v) == (if key(x) == v then [x] else []) + WithKey(s, key, v)
  {
    if |s| > 0 && key(s[0]) > key(x) {
      var rest := Insert(x, s[1..], key);
      InsertWithKey(x, s[1..], key, v);
      assert ([s[0]] + rest)[1..] == rest;
      assert WithKey(s, key, v) == (if key(s[0]) == v then [s[0]] else []) + WithKey(s[1..], key, v);
    } else if |s| > 0 {
      assert ([x] + s)[1..] == s;
    }
  }

  /** `Sort` is the stable descending sort. */
  lemma {:induction false} SortIsStable<T>(xs: seq<T>, key: T -> real)
    ensures StableSortOf(Sort(xs, key), xs, key)
  {
    SortSorted(xs, key);
    if |xs| > 0 {
      SortIsStable(xs[1..], key);
      forall v ensures WithKey(Sort(xs, key), key, v) == WithKey(xs, key, v) {
        InsertWithKey(xs[0], Sort(xs[1..], key), key, v);
      }
    }
  }

  lemma {:induction false} WithKeyAppend<T>(a: seq<T>, b: seq<T>, key: T -> real, v: real)
    ensures WithKey(a + b, key, v) == WithKey(a, key, v) + WithKey(b, key, v)
  {
    if |a| > 0 {
      assert (a + b)[1..] == a[1..] + b;
      WithKeyAppend(a[1..], b, key, v);
    } else {
      assert a + b == b;
    }
  }

  /** Cutting a list keeps, for each key value, a prefix of the elements with that key. */
  lemma WithKeyPrefix<T>(ys: seq<T>, n: nat, key: T -> real, v: real)
    requires n <= |ys|
    ensures WithKey(ys[..n], key, v) <= WithKey(ys, key, v)
  {
    assert ys == ys[..n] + ys[n..];
    WithKeyAppend(ys[..n], ys[n..], key, v);
  }

  /** The first `k` of a descending sort are a top-`k`: an element of the
      input left out of them has a key no greater than the last one kept. */
  lemma TopOfSorted<T>(ys: seq<T>, xs: seq<T>, key: T -> real, k: nat, x: T)
    requires multiset(ys) == multiset(xs) && SortedDesc(ys, key)
    requires 0 < k <= |ys|
    requires x in xs
    ensures x in ys[..k] || key(x) <= key(ys[k - 1])
  {
    assert x in multiset(xs);
    assert x in ys;
    var i :| 0 <= i < |ys| && ys[i] == x;
    if i >= k {
      assert key(ys[k - 1]) >= key(ys[i]);
    } else {
      assert ys[..k][i] == x;
    }
  }

  /** Two stable descending sorts of the same input are the same list: the
      sort order is fully determined, ties included. */
  lemma {:induction false} StableSortUnique<T>(ys: seq<T>, zs: seq<T>, xs: seq<T>, key: T -> real)
    requires StableSortOf(ys, xs, key) && StableSortOf(zs, xs, key)
    ensures ys == zs
    decreases |ys| + |zs|
  {
    if |ys| > 0 && |zs| > 0 {
      assert WithKey(ys, key, key(ys[0])) != [] by {
        assert ys == [ys[0]] + ys[1..];
      }
      // The first elements carry the same, maximal key and so are the
      // first elements of that key in both lists.
      var a, b := key(ys[0]), key(zs[0]);
      WithKeyHead(ys, key);
      WithKeyHead(zs, key);
      MaxKey(ys, zs, xs, key);
      assert a == b;
      assert ys[0] == WithKey(ys, key, a)[0] == WithKey(xs, key, a)[0] == WithKey(zs, key, a)[0] == zs[0];
      forall v ensures WithKey(ys[1..], key, v) == WithKey(zs[1..], key, v) {
        var A, B := WithKey(ys[1..], key, v), WithKey(zs[1..], key, v);
        assert WithKey(ys, key, v) == WithKey(zs, key, v);
        if key(ys[0]) == v {
          assert [ys[0]] + A == [zs[0]] + B;
          assert A == ([ys[0]] + A)[1..];
          assert B == ([zs[0]] + B)[1..];
        } else {
          assert [] + A == A && [] + B == B;
        }
      }
      assert SortedDesc(ys[1..], key) && SortedDesc(zs[1..], key);
      StableSortUnique(ys[1..], zs[1..], ys[1..], key);
      assert ys == [ys[0]] + ys[1..];
      assert zs == [zs[0]] + zs[1..];
    } else if |ys| > 0 {
      WithKeyHead(ys, key);
      assert false;
    } else if |zs| > 0 {
      WithKeyHead(zs, key);
      assert false;
    }
  }

  lemma WithKeyHead<T>(ys: seq<T>, key: T -> real)
    requires |ys| > 0
    ensures WithKey(ys, key, key(ys[0])) == [ys[0]] + WithKey(ys[1..], key, key(ys[0]))
  {
  }

  lemma {:induction false} WithKeyMember<T>(ys: seq<T>, key: T -> real, v: real)
    requires WithKey(ys, key, v) != []
    ensures exists i :: 0 <= i < |ys| && key(ys[i]) == v
  {
    if key(ys[0]) != v {
      WithKeyMember(ys[1..], key, v);
      var i :| 0 <= i < |ys[1..]| && key(ys[1..][i]) == v;
      assert ys[i + 1] == ys[1..][i];
    }
  }

  lemma MaxKey<T>(ys: seq<T>, zs: seq<T>, xs: seq<T>, key: T -> real)
    requires StableSortOf(ys, xs, key) && StableSortOf(zs, xs, key)
    requires |ys| > 0 && |zs| > 0
    ensures key(ys[0]) == key(zs[0])
  {
    WithKeyHead(ys, key);
    WithKeyHead(zs, key);
    assert WithKey(zs, key, key(ys[0])) != [];
    assert WithKey(ys, key, key(zs[0])) != [];
    WithKeyMember(zs, key, key(ys[0]));
    WithKeyMember(ys, key, key(zs[0]));
    var i :| 0 <= i < |zs| && key(zs[i]) == key(ys[0]);
    var j :| 0 <= j < |ys| && key(ys[j]) == key(zs[0]);
    assert key(zs[0]) >= key(zs[i]);
    assert key(ys[0]) >= key(ys[j]);
  }
}
