/** Order-preserving selection on sequences: the `WHERE` clause of a
    `SELECT`/`DELETE`, Python's list comprehensions with a condition and
    JavaScript's `Array.prototype.filter`. */
module Seqs {
  import opened Wrappers

  /** `sub` is `xs` with some elements left out and the rest kept in order. */
  predicate IsSubsequence<T(==)>(sub: seq<T>, xs: seq<T>)
    decreases |xs|
  {
    if |sub| == 0 then true
    else if |xs| == 0 then false
    else (sub[0] == xs[0] && IsSubsequence(sub[1..], xs[1..])) || IsSubsequence(sub, xs[1..])
  }

  /** How many elements of `xs` satisfy `p`. */
  function Count<T>(xs: seq<T>, p: T -> bool): nat
  {
    if |xs| == 0 then 0 else (if p(xs[0]) then 1 else 0) + Count(xs[1..], p)
  }

  /** The elements of `xs` that satisfy `p`, in their original order. */
  function Filter<T(==,!new)>(xs: seq<T>, p: T -> bool): (r: seq<T>)
    ensures forall x :: x in r <==> x in xs && p(x)
    ensures forall i :: 0 <= i < |r| ==> p(r[i])
    ensures |r| <= |xs|
  {
    if |xs| == 0 then []
    else
      var rest := Filter(xs[1..], p);
      assert forall x :: x in xs <==> x == xs[0] || x in xs[1..];
      if p(xs[0]) then [xs[0]] + rest else rest
  }

  /** `Filter` keeps exactly the satisfying elements, in order: it is a
      subsequence, and as long as the number of satisfying elements. */
  lemma {:induction false} FilterSpec<T(!new)>(xs: seq<T>, p: T -> bool)
    ensures IsSubsequence(Filter(xs, p), xs)
    ensures |Filter(xs, p)| == Count(xs, p)
  {
    if |xs| > 0 {
      FilterSpec(xs[1..], p);
      var rest := Filter(xs[1..], p);
      if p(xs[0]) {
        assert Filter(xs, p) == [xs[0]] + rest;
        assert ([xs[0]] + rest)[1..] == rest;
      } else {
        SubsequenceOfTail(rest, xs);
      }
    }
  }

  lemma SubsequenceOfTail<T>(sub: seq<T>, xs: seq<T>)
    requires |xs| > 0 && IsSubsequence(sub, xs[1..])
    ensures IsSubsequence(sub, xs)
  {
  }

  /** A subsequence of `xs` all of whose elements satisfy `p` and which is as
      long as the number of satisfying elements of `xs` is `Filter(xs, p)`:
      the three facts pin down the result of a filter. */
  lemma {:induction false} FilterUnique<T(!new)>(sub: seq<T>, xs: seq<T>, p: T -> bool)
    requires IsSubsequence(sub, xs)
    requires forall i :: 0 <= i < |sub| ==> p(sub[i])
    requires |sub| == Count(xs, p)
    ensures sub == Filter(xs, p)
    decreases |xs|
  {
    if |xs| == 0 {
    } else if |sub| > 0 && sub[0] == xs[0] && IsSubsequence(sub[1..], xs[1..]) {
      assert p(sub[0]);
      assert forall i :: 0 <= i < |sub[1..]| ==> p(sub[1..][i]) by {
        forall i | 0 <= i < |sub[1..]| ensures p(sub[1..][i]) {
          assert sub[1..][i] == sub[i + 1];
        }
      }
      FilterUnique(sub[1..], xs[1..], p);
      assert sub == [sub[0]] + sub[1..];
    } else {
      assert IsSubsequence(sub, xs[1..]);
      SubsequenceLength(sub, xs[1..], p);
      if p(xs[0]) {
        assert false;
      }
      FilterUnique(sub, xs[1..], p);
    }
  }

  /** A subsequence whose elements all satisfy `p` has at most `Count(xs, p)` elements. */
  lemma {:induction false} SubsequenceLength<T>(sub: seq<T>, xs: seq<T>, p: T -> bool)
    requires IsSubsequence(sub, xs)
    requires forall i :: 0 <= i < |sub| ==> p(sub[i])
    ensures |sub| <= Count(xs, p)
    decreases |xs|
  {
    if |sub| > 0 {
      if sub[0] == xs[0] && IsSubsequence(sub[1..], xs[1..]) {
        assert forall i :: 0 <= i < |sub[1..]| ==> p(sub[1..][i]) by {
          forall i | 0 <= i < |sub[1..]| ensures p(sub[1..][i]) {
            assert sub[1..][i] == sub[i + 1];
          }
        }
        SubsequenceLength(sub[1..], xs[1..], p);
      } else {
        SubsequenceLength(sub, xs[1..], p);
      }
    }
  }

  /** A condition every element meets keeps the whole sequence. */
  lemma {:induction false} FilterAll<T(!new)>(xs: seq<T>, p: T -> bool)
    requires forall i :: 0 <= i < |xs| ==> p(xs[i])
    ensures Filter(xs, p) == xs
  {
    if |xs| > 0 {
      assert forall i :: 0 <= i < |xs[1..]| ==> p(xs[1..][i]) by {
        forall i | 0 <= i < |xs[1..]| ensures p(xs[1..][i]) {
          assert xs[1..][i] == xs[i + 1];
        }
      }
      FilterAll(xs[1..], p);
      assert xs == [xs[0]] + xs[1..];
    }
  }

  /** At least one element satisfies `p` exactly when the count is positive. */
  lemma {:induction false} CountPositive<T>(xs: seq<T>, p: T -> bool)
    ensures Count(xs, p) > 0 <==> exists i :: 0 <= i < |xs| && p(xs[i])
  {
    if |xs| > 0 {
      CountPositive(xs[1..], p);
      if exists i :: 0 <= i < |xs| && p(xs[i]) {
        var i :| 0 <= i < |xs| && p(xs[i]);
        if i > 0 { assert xs[1..][i - 1] == xs[i]; }
      }
      if exists i :: 0 <= i < |xs[1..]| && p(xs[1..][i]) {
        var i :| 0 <= i < |xs[1..]| && p(xs[1..][i]);
        assert xs[i + 1] == xs[1..][i];
      }
    }
  }

  lemma {:induction false} FilterAppend<T(!new)>(a: seq<T>, b: seq<T>, p: T -> bool)
    ensures Filter(a + b, p) == Filter(a, p) + Filter(b, p)
  {
    if |a| == 0 {
      assert a + b == b;
    } else {
      assert (a + b)[1..] == a[1..] + b;
      FilterAppend(a[1..], b, p);
    }
  }

  /** The present results of `f` over `xs`, in order: a loop that appends an
      entry for some elements and skips the others. */
  function FilterMap<A, B>(xs: seq<A>, f: A -> Option<B>): (r: seq<B>)
    ensures |r| <= |xs|
  {
    if |xs| == 0 then []
    else (if f(xs[0]).Some? then [f(xs[0]).value] else []) + FilterMap(xs[1..], f)
  }

  /** Every entry of `FilterMap` comes from an element of the input. */
  lemma {:induction false} FilterMapSource<A, B>(xs: seq<A>, f: A -> Option<B>, k: nat) returns (j: nat)
    requires k < |FilterMap(xs, f)|
    ensures j < |xs| && f(xs[j]) == Some(FilterMap(xs, f)[k])
  {
    var rest := FilterMap(xs[1..], f);
    if f(xs[0]).Some? && k == 0 {
      j := 0;
    } else {
      var k' := if f(xs[0]).Some? then k - 1 else k;
      assert FilterMap(xs, f)[k] == rest[k'];
      var j' := FilterMapSource(xs[1..], f, k');
      j := j' + 1;
      assert xs[j] == xs[1..][j'];
    }
  }

  /** Every present result of `f` over the input is an entry of `FilterMap`. */
  lemma {:induction false} FilterMapFound<A, B>(xs: seq<A>, f: A -> Option<B>, j: nat) returns (k: nat)
    requires j < |xs| && f(xs[j]).Some?
    ensures k < |FilterMap(xs, f)| && FilterMap(xs, f)[k] == f(xs[j]).value
  {
    var rest := FilterMap(xs[1..], f);
    if j == 0 {
      k := 0;
    } else {
      assert xs[j] == xs[1..][j - 1];
      var k' := FilterMapFound(xs[1..], f, j - 1);
      k := if f(xs[0]).Some? then k' + 1 else k';
      assert FilterMap(xs, f)[k] == rest[k'];
    }
  }

  /** `FilterMap` over a concatenation is the two parts' results, first part
      first: the entries keep the order of the elements they come from. */
  lemma {:induction false} FilterMapAppend<A, B>(a: seq<A>, b: seq<A>, f: A -> Option<B>)
    ensures FilterMap(a + b, f) == FilterMap(a, f) + FilterMap(b, f)
    decreases |a|
  {
    if |a| == 0 {
      assert a + b == b;
    } else {
      var ab := a + b;
      var head := if f(a[0]).Some? then [f(a[0]).value] else [];
      assert ab[0] == a[0] && ab[1..] == a[1..] + b;
      assert FilterMap(ab, f) == head + FilterMap(a[1..] + b, f);
      assert FilterMap(a, f) == head + FilterMap(a[1..], f);
      FilterMapAppend(a[1..], b, f);
    }
  }

  /** `f` applied to every element, in order: a list comprehension, or
      JavaScript's `Array.prototype.map`. */
  function Map<A, B>(xs: seq<A>, f: A -> B): (r: seq<B>)
    ensures |r| == |xs| && forall i :: 0 <= i < |xs| ==> r[i] == f(xs[i])
  {
    seq(|xs|, i requires 0 <= i < |xs| => f(xs[i]))
  }
}
