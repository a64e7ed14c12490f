/** String helpers shared by the server and the client model: splitting on a
    separator character and joining with it (Python's `str.split(',')` and
    `','.join`, JavaScript's `String.prototype.split(',')`), JavaScript's
    `String.prototype.trim`, and substring search (`String.prototype.includes`). */
module Text {
  import opened Seqs

  /** Number of occurrences of `c` in `s`. */
  function CountChar(s: string, c: char): nat
  {
    if |s| == 0 then 0 else (if s[0] == c then 1 else 0) + CountChar(s[1..], c)
  }

  lemma {:induction false} CountCharAppend(a: string, b: string, c: char)
    ensures CountChar(a + b, c) == CountChar(a, c) + CountChar(b, c)
  {
    if |a| == 0 {
      assert a + b == b;
    } else {
      assert (a + b)[1..] == a[1..] + b;
      CountCharAppend(a[1..], b, c);
    }
  }

  lemma {:induction false} CountCharZero(s: string, c: char)
    ensures CountChar(s, c) == 0 <==> c !in s
  {
    if |s| > 0 {
      CountCharZero(s[1..], c);
      assert c in s <==> s[0] == c || c in s[1..];
    }
  }

  /** The pieces of `s` between occurrences of `sep`, empty pieces included:
      one more piece than there are separators, none containing `sep`, and
      their join gives `s` back (see `JoinSplit`). */
  function Split(s: string, sep: char): (r: seq<string>)
    ensures |r| == CountChar(s, sep) + 1
    ensures forall i :: 0 <= i < |r| ==> sep !in r[i]
    decreases |s|
  {
    if |s| == 0 then [""]
    else
      var rest := Split(s[1..], sep);
      if s[0] == sep then [""] + rest
      else [[s[0]] + rest[0]] + rest[1..]
  }

  /** The pieces `xs` glued with `sep` between consecutive elements. */
  function Join(xs: seq<string>, sep: char): string
  {
    if |xs| == 0 then ""
    else if |xs| == 1 then xs[0]
    else xs[0] + [sep] + Join(xs[1..], sep)
  }

  /** No piece of `xs` contains the separator. */
  predicate NoSep(xs: seq<string>, sep: char)
  {
    forall i :: 0 <= i < |xs| ==> sep !in xs[i]
  }

  /** Joining the pieces of a split restores the original string, for every string. */
  lemma {:induction false} JoinSplit(s: string, sep: char)
    ensures Join(Split(s, sep), sep) == s
    decreases |s|
  {
    if |s| > 0 {
      var rest := Split(s[1..], sep);
      JoinSplit(s[1..], sep);
      if s[0] == sep {
        assert Join(Split(s, sep), sep) == "" + [sep] + Join(rest, sep);
        assert s == [s[0]] + s[1..];
      } else {
        var r := Split(s, sep);
        assert r == [[s[0]] + rest[0]] + rest[1..];
        if |rest| == 1 {
          assert Join(r, sep) == [s[0]] + rest[0];
          assert s == [s[0]] + s[1..];
        } else {
          assert r[1..] == rest[1..];
          assert Join(r, sep) == [s[0]] + rest[0] + [sep] + Join(rest[1..], sep);
          assert Join(rest, sep) == rest[0] + [sep] + Join(rest[1..], sep);
          assert s == [s[0]] + s[1..];
        }
      }
    }
  }

  lemma {:induction false} SplitNoSep(a: string, sep: char)
    requires sep !in a
    ensures Split(a, sep) == [a]
    decreases |a|
  {
    if |a| > 0 {
      assert sep !in a[1..];
      SplitNoSep(a[1..], sep);
      assert a == [a[0]] + a[1..];
    }
  }

  lemma {:induction false} SplitPieceThenSep(a: string, b: string, sep: char)
    requires sep !in a
    ensures Split(a + [sep] + b, sep) == [a] + Split(b, sep)
    decreases |a|
  {
    var s := a + [sep] + b;
    if |a| == 0 {
      assert s == [sep] + b;
      assert s[1..] == b;
    } else {
      assert s[1..] == a[1..] + [sep] + b;
      assert sep !in a[1..];
      SplitPieceThenSep(a[1..], b, sep);
      assert a == [a[0]] + a[1..];
    }
  }

  /** Splitting a join restores a non-empty list of separator-free pieces. */
  lemma {:induction false} SplitJoin(xs: seq<string>, sep: char)
    requires |xs| > 0 && NoSep(xs, sep)
    ensures Split(Join(xs, sep), sep) == xs
    decreases |xs|
  {
    if |xs| == 1 {
      SplitNoSep(xs[0], sep);
    } else {
      assert NoSep(xs[1..], sep) by {
        forall i | 0 <= i < |xs[1..]| ensures sep !in xs[1..][i] {
          assert xs[1..][i] == xs[i + 1];
        }
      }
      SplitJoin(xs[1..], sep);
      assert sep !in xs[0];
      SplitPieceThenSep(xs[0], Join(xs[1..], sep), sep);
      assert xs == [xs[0]] + xs[1..];
    }
  }

  /** Total number of separators inside the pieces. */
  function SepsInside(xs: seq<string>, sep: char): nat
  {
    if |xs| == 0 then 0 else CountChar(xs[0], sep) + SepsInside(xs[1..], sep)
  }

  lemma {:induction false} SepsInsideZero(xs: seq<string>, sep: char)
    ensures SepsInside(xs, sep) == 0 <==> NoSep(xs, sep)
    decreases |xs|
  {
    if |xs| > 0 {
      SepsInsideZero(xs[1..], sep);
      CountCharZero(xs[0], sep);
      if NoSep(xs, sep) {
        forall i | 0 <= i < |xs[1..]| ensures sep !in xs[1..][i] {
          assert xs[1..][i] == xs[i + 1];
        }
      }
      if NoSep(xs[1..], sep) && sep !in xs[0] {
        forall i | 0 <= i < |xs| ensures sep !in xs[i] {
          if i > 0 { assert xs[i] == xs[1..][i - 1]; }
        }
      }
    }
  }

  /** A join of `n` pieces holds `n - 1` separators besides those inside the pieces. */
  lemma {:induction false} JoinCount(xs: seq<string>, sep: char)
    requires |xs| > 0
    ensures CountChar(Join(xs, sep), sep) == |xs| - 1 + SepsInside(xs, sep)
    decreases |xs|
  {
    if |xs| == 1 {
      assert SepsInside(xs[1..], sep) == 0;
    } else {
      JoinCount(xs[1..], sep);
      CountCharAppend(xs[0] + [sep], Join(xs[1..], sep), sep);
      CountCharAppend(xs[0], [sep], sep);
      assert CountChar([sep], sep) == 1 by {
        assert [sep][1..] == [];
      }
    }
  }

  /** The characters JavaScript's `trim` removes: WhiteSpace and LineTerminator
      code points of ECMAScript (section 12.2 and 12.3 of ECMA-262). */
  predicate IsSpace(c: char)
  {
    || c == '\t' || c == '\n' || c == '\U{B}' || c == '\U{C}' || c == '\r' || c == ' '
    || c == '\U{A0}' || c == '\U{1680}' || ('\U{2000}' <= c <= '\U{200A}')
    || c == '\U{2028}' || c == '\U{2029}' || c == '\U{202F}' || c == '\U{205F}'
    || c == '\U{3000}' || c == '\U{FEFF}'
  }

  /** How many white-space characters open `s`: the first character after
      them, if any, is not white space. */
  function LeadingSpace(s: string): (k: nat)
    ensures k <= |s|
    ensures k < |s| ==> !IsSpace(s[k])
    decreases |s|
  {
    if |s| > 0 && IsSpace(s[0]) then 1 + LeadingSpace(s[1..]) else 0
  }

  /** How many white-space characters close `s`: the last character before
      them, if any, is not white space. */
  function TrailingSpace(s: string): (k: nat)
    ensures k <= |s|
    ensures k < |s| ==> !IsSpace(s[|s| - 1 - k])
    decreases |s|
  {
    if |s| > 0 && IsSpace(s[|s| - 1]) then 1 + TrailingSpace(s[..|s| - 1]) else 0
  }

  /** JavaScript's `String.prototype.trim`: `s` with its leading and then its
      trailing white space cut off. It has none left at either end
      (`TrimSlice`: it is a slice of `s`; `TrimCutsSpace`: only white space
      is cut). */
  function Trim(s: string): (r: string)
    ensures |r| > 0 ==> !IsSpace(r[0]) && !IsSpace(r[|r| - 1])
  {
    var t := s[LeadingSpace(s)..];
    var r := t[..|t| - TrailingSpace(t)];
    assert |r| > 0 ==> r[0] == t[0] && r[|r| - 1] == t[|t| - 1 - TrailingSpace(t)];
    r
  }

  /** The trimmed string is the slice of `s` after the leading white space. */
  lemma TrimSlice(s: string)
    ensures LeadingSpace(s) + |Trim(s)| <= |s|
    ensures Trim(s) == s[LeadingSpace(s)..LeadingSpace(s) + |Trim(s)|]
  {
  }

  /** Every character of `x` is white space. */
  predicate AllSpace(x: string)
  {
    forall i :: 0 <= i < |x| ==> IsSpace(x[i])
  }

  lemma {:induction false} LeadingCutsSpace(s: string)
    ensures AllSpace(s[..LeadingSpace(s)])
    decreases |s|
  {
    if |s| > 0 && IsSpace(s[0]) {
      var n := LeadingSpace(s);
      LeadingCutsSpace(s[1..]);
      assert s[..n] == [s[0]] + s[1..][..n - 1];
    }
  }

  lemma {:induction false} TrailingCutsSpace(s: string)
    ensures AllSpace(s[|s| - TrailingSpace(s)..])
    decreases |s|
  {
    if |s| > 0 && IsSpace(s[|s| - 1]) {
      var p := s[..|s| - 1];
      TrailingCutsSpace(p);
      var n := |s| - TrailingSpace(s);
      assert n == |p| - TrailingSpace(p);
      forall i | n <= i < |s| ensures IsSpace(s[i]) {
        if i < |p| {
          assert s[i] == p[n..][i - n];
        }
      }
    }
  }

  /** Only white space is cut, from the front and from the back. */
  lemma TrimCutsSpace(s: string)
    ensures AllSpace(s[..LeadingSpace(s)])
    ensures AllSpace(s[LeadingSpace(s) + |Trim(s)|..])
  {
    var t := s[LeadingSpace(s)..];
    LeadingCutsSpace(s);
    TrailingCutsSpace(t);
    assert s[LeadingSpace(s) + |Trim(s)|..] == t[|t| - TrailingSpace(t)..];
  }

  /** A string with no white space at either end is its own trim. */
  lemma TrimUntouched(s: string)
    requires |s| > 0 ==> !IsSpace(s[0]) && !IsSpace(s[|s| - 1])
    ensures Trim(s) == s
  {
    assert LeadingSpace(s) == 0 && TrailingSpace(s) == 0;
    assert s[0..] == s;
  }

  /** Trimming an already trimmed string changes nothing. */
  lemma TrimIdempotent(s: string)
    ensures Trim(Trim(s)) == Trim(s)
  {
    TrimUntouched(Trim(s));
  }

  lemma {:induction false} LeadingKeepsCount(s: string, c: char)
    requires !IsSpace(c)
    ensures CountChar(s[LeadingSpace(s)..], c) == CountChar(s, c)
    decreases |s|
  {
    if |s| > 0 && IsSpace(s[0]) {
      LeadingKeepsCount(s[1..], c);
      assert s[LeadingSpace(s)..] == s[1..][LeadingSpace(s[1..])..];
    } else {
      assert s[0..] == s;
    }
  }

  lemma {:induction false} TrailingKeepsCount(s: string, c: char)
    requires !IsSpace(c)
    ensures CountChar(s[..|s| - TrailingSpace(s)], c) == CountChar(s, c)
    decreases |s|
  {
    if |s| > 0 && IsSpace(s[|s| - 1]) {
      var p, last := s[..|s| - 1], [s[|s| - 1]];
      assert s == p + last;
      CountCharAppend(p, last, c);
      assert last[1..] == [];
      TrailingKeepsCount(p, c);
      assert s[..|s| - TrailingSpace(s)] == p[..|p| - TrailingSpace(p)];
    } else {
      assert s[..|s|] == s;
    }
  }

  /** Trimming never removes a separator that is not white space. */
  lemma TrimKeepsCount(s: string, c: char)
    requires !IsSpace(c)
    ensures CountChar(Trim(s), c) == CountChar(s, c)
  {
    LeadingKeepsCount(s, c);
    TrailingKeepsCount(s[LeadingSpace(s)..], c);
  }

  /** Every piece trimmed, as JavaScript's `.map(s => s.trim())` does. */
  function TrimAll(xs: seq<string>): seq<string>
  {
    Map(xs, Trim)
  }

  /** Trimmed pieces are trimmed, and trimming brings in no separator. */
  lemma TrimAllTrimmed(xs: seq<string>, sep: char)
    ensures forall i :: 0 <= i < |xs| ==> Trim(TrimAll(xs)[i]) == TrimAll(xs)[i]
    ensures NoSep(xs, sep) ==> NoSep(TrimAll(xs), sep)
  {
    var r := TrimAll(xs);
    forall i | 0 <= i < |xs|
      ensures Trim(r[i]) == r[i]
      ensures sep !in xs[i] ==> sep !in r[i]
    {
      TrimIdempotent(xs[i]);
      TrimInside(xs[i], sep);
    }
  }

  lemma TrimInside(x: string, c: char)
    ensures c !in x ==> c !in Trim(x)
  {
    var k := LeadingSpace(x);
    var r := Trim(x);
    TrimSlice(x);
    if c in r {
      var j :| 0 <= j < |r| && r[j] == c;
      assert x[k + j] == c;
    }
  }

  /** `needle` occurs in `hay` as a contiguous block (JavaScript's `includes`). */
  predicate Contains(hay: string, needle: string)
    decreases |hay|
  {
    needle <= hay || (|hay| > 0 && Contains(hay[1..], needle))
  }
}
