/** The iterator adaptors the source relies on, over Dafny sequences:
    `filter`, `filter_map`, and `str::split` on a single separator. */
module Seqs {
  import opened Wrappers

  /** `iter().filter(f).collect()`: the elements of `s` satisfying `f`, in their original order. */
  function Filter<T>(f: T -> bool, s: seq<T>): (r: seq<T>)
    ensures |r| <= |s|
    ensures forall i :: 0 <= i < |r| ==> r[i] in s && f(r[i])
    ensures forall i :: 0 <= i < |s| && f(s[i]) ==> s[i] in r
  {
    if s == [] then [] else (if f(s[0]) then [s[0]] else []) + Filter(f, s[1..])
  }

  /** Filtering distributes over concatenation: together with the one-element case
      this pins Filter down as "keep exactly the wanted elements, in order". */
  lemma {:induction false} FilterConcat<T>(f: T -> bool, a: seq<T>, b: seq<T>)
    ensures Filter(f, a + b) == Filter(f, a) + Filter(f, b)
  {
    if a == [] {
      assert a + b == b;
    } else {
      assert (a + b)[0] == a[0];
      assert (a + b)[1..] == a[1..] + b;
      FilterConcat(f, a[1..], b);
    }
  }

  /** A sequence is left unchanged by Filter exactly when every element is wanted. */
  lemma {:induction false} FilterIdentity<T>(f: T -> bool, s: seq<T>)
    ensures Filter(f, s) == s <==> forall i :: 0 <= i < |s| ==> f(s[i])
  {
    if s != [] {
      FilterIdentity(f, s[1..]);
      if Filter(f, s) == s {
        assert f(Filter(f, s)[0]);
        assert Filter(f, s[1..]) == s[1..];
      }
      if forall i :: 0 <= i < |s| ==> f(s[i]) {
        assert forall i :: 0 <= i < |s[1..]| ==> f(s[1..][i]) by {
          forall i | 0 <= i < |s[1..]| ensures f(s[1..][i]) { assert s[1..][i] == s[i + 1]; }
        }
      }
    }
  }

  /** Filtering twice is filtering once. */
  lemma FilterIdempotent<T>(f: T -> bool, s: seq<T>)
    ensures Filter(f, Filter(f, s)) == Filter(f, s)
  {
    var r := Filter(f, s);
    FilterIdentity(f, r);
  }

  /** `iter().filter_map(f).collect()`: the `Some` results of `f`, in input order. */
  function FilterMap<A, B>(f: A -> Option<B>, s: seq<A>): (r: seq<B>)
    ensures |r| <= |s|
  {
    if s == [] then []
    else (match f(s[0]) case Some(y) => [y] case None => []) + FilterMap(f, s[1..])
  }

  /** filter_map distributes over concatenation: the survivors of a later part of the
      input come after those of an earlier part. */
  lemma {:induction false} FilterMapConcat<A, B>(f: A -> Option<B>, a: seq<A>, b: seq<A>)
    ensures FilterMap(f, a + b) == FilterMap(f, a) + FilterMap(f, b)
  {
    if a == [] {
      assert a + b == b;
    } else {
      assert (a + b)[0] == a[0];
      assert (a + b)[1..] == a[1..] + b;
      FilterMapConcat(f, a[1..], b);
    }
  }

  /** An output of filter_map is exactly a `Some` value of `f` at some input position. */
  lemma {:induction false} FilterMapMembers<A, B>(f: A -> Option<B>, s: seq<A>, y: B)
    ensures y in FilterMap(f, s) <==> exists i :: 0 <= i < |s| && f(s[i]) == Some(y)
  {
    if s != [] {
      FilterMapMembers(f, s[1..], y);
      if exists i :: 0 <= i < |s[1..]| && f(s[1..][i]) == Some(y) {
        var i :| 0 <= i < |s[1..]| && f(s[1..][i]) == Some(y);
        assert f(s[i + 1]) == Some(y);
      }
      if exists i :: 0 <= i < |s| && f(s[i]) == Some(y) {
        var i :| 0 <= i < |s| && f(s[i]) == Some(y);
        if i > 0 {
          assert f(s[1..][i - 1]) == Some(y);
        }
      }
    }
  }

  /** When `f` fails on every element, nothing survives. */
  lemma {:induction false} FilterMapAllNone<A, B>(f: A -> Option<B>, s: seq<A>)
    requires forall i :: 0 <= i < |s| ==> f(s[i]).None?
    ensures FilterMap(f, s) == []
  {
    if s != [] {
      assert f(s[0]).None?;
      assert forall i :: 0 <= i < |s[1..]| ==> f(s[1..][i]).None? by {
        forall i | 0 <= i < |s[1..]| ensures f(s[1..][i]).None? { assert s[1..][i] == s[i + 1]; }
      }
      FilterMapAllNone(f, s[1..]);
    }
  }

  /** filter_map only looks at the values `f` takes on the input's elements. */
  lemma {:induction false} FilterMapCongruent<A, B>(f: A -> Option<B>, g: A -> Option<B>, s: seq<A>)
    requires forall i :: 0 <= i < |s| ==> f(s[i]) == g(s[i])
    ensures FilterMap(f, s) == FilterMap(g, s)
  {
    if s != [] {
      assert f(s[0]) == g(s[0]);
      assert forall i :: 0 <= i < |s[1..]| ==> f(s[1..][i]) == g(s[1..][i]) by {
        forall i | 0 <= i < |s[1..]| ensures f(s[1..][i]) == g(s[1..][i]) { assert s[1..][i] == s[i + 1]; }
      }
      FilterMapCongruent(f, g, s[1..]);
    }
  }

  /** Number of occurrences of `x` in `s`. */
  function Count<T(==)>(x: T, s: seq<T>): (n: nat)
    ensures n <= |s|
    ensures n == 0 <==> x !in s
  {
    if s == [] then 0 else (if s[0] == x then 1 else 0) + Count(x, s[1..])
  }

  /** The pieces joined back with the separator between them; inverse of Split. */
  function Join<T>(pieces: seq<seq<T>>, sep: T): seq<T>
    requires |pieces| >= 1
    decreases |pieces|
  {
    if |pieces| == 1 then pieces[0] else pieces[0] + [sep] + Join(pieces[1..], sep)
  }

  lemma {:induction false} JoinPrepend<T>(x: seq<T>, pieces: seq<seq<T>>, sep: T)
    requires |pieces| >= 1
    ensures Join([x + pieces[0]] + pieces[1..], sep) == x + Join(pieces, sep)
  {
    var q := [x + pieces[0]] + pieces[1..];
    assert q[1..] == pieces[1..];
  }

  /** `str::split(sep)`: the maximal separator-free runs between separators. The input with
      no separator is one piece, so the empty input gives one empty piece. */
  function Split<T(==)>(s: seq<T>, sep: T): (r: seq<seq<T>>)
    ensures |r| == Count(sep, s) + 1
  {
    if s == [] then [[]]
    else
      var rest := Split(s[1..], sep);
      if s[0] == sep then [[]] + rest
      else [[s[0]] + rest[0]] + rest[1..]
  }

  /** Join undoes Split: no input element is lost, added or reordered. */
  lemma {:induction false} JoinSplit<T>(s: seq<T>, sep: T)
    ensures Join(Split(s, sep), sep) == s
  {
    if s != [] {
      var rest := Split(s[1..], sep);
      JoinSplit(s[1..], sep);
      if s[0] == sep {
        assert ([[]] + rest)[1..] == rest;
      } else {
        JoinPrepend([s[0]], rest, sep);
      }
      assert [s[0]] + s[1..] == s;
    }
  }

  /** Splitting a sequence that begins with a separator-free run `x`. */
  lemma {:induction false} SplitPrefix<T>(x: seq<T>, z: seq<T>, sep: T)
    requires sep !in x
    ensures Split(x + z, sep) == [x + Split(z, sep)[0]] + Split(z, sep)[1..]
  {
    var r := Split(z, sep);
    if x != [] {
      var t := x[1..] + z;
      assert x + z == [x[0]] + t;
      SplitPrefix(x[1..], z, sep);
      var rest := Split(t, sep);
      assert rest[0] == x[1..] + r[0] && rest[1..] == r[1..] by {
        assert rest == [x[1..] + r[0]] + r[1..];
      }
      SplitCons(x[0], t, sep);
      HeadTailAppend(x, r[0]);
    } else {
      assert x + z == z;
      var r0 := r[0];
      assert x + r0 == r0;
      assert [r0] + r[1..] == r;
    }
  }

  lemma HeadTailAppend<T>(x: seq<T>, y: seq<T>)
    requires x != []
    ensures [x[0]] + (x[1..] + y) == x + y
  {
    assert [x[0]] + x[1..] == x;
  }

  /** Split undoes Join when no piece contains the separator. */
  lemma {:induction false} SplitJoin<T>(pieces: seq<seq<T>>, sep: T)
    requires |pieces| >= 1
    requires forall i :: 0 <= i < |pieces| ==> sep !in pieces[i]
    ensures Split(Join(pieces, sep), sep) == pieces
  {
    var first := pieces[0];
    if |pieces| == 1 {
      var empty: seq<T> := [];
      assert Split(empty, sep) == [[]];
      SplitPrefix(first, empty, sep);
      assert first + empty == first;
      assert Split(first, sep) == [first] + [];
    } else {
      var others := pieces[1..];
      var tail := Join(others, sep);
      assert Join(pieces, sep) == first + ([sep] + tail);
      SplitJoin(others, sep);
      var afterSep := Split([sep] + tail, sep);
      assert afterSep == [[]] + others by { SplitCons(sep, tail, sep); }
      assert afterSep[0] == [] && afterSep[1..] == others;
      SplitPrefix(first, [sep] + tail, sep);
      assert first + [] == first;
      assert [first] + others == pieces;
    }
  }

  /** Every element of every piece is an element of the input other than the separator. */
  lemma {:induction false} SplitElements<T>(s: seq<T>, sep: T, i: nat, j: nat)
    requires i < |Split(s, sep)| && j < |Split(s, sep)[i]|
    ensures Split(s, sep)[i][j] in s && Split(s, sep)[i][j] != sep
  {
    var r := Split(s, sep);
    if s != [] {
      var rest := Split(s[1..], sep);
      if s[0] == sep {
        if i > 0 {
          assert r[i] == rest[i - 1];
          SplitElements(s[1..], sep, i - 1, j);
        }
      } else if i == 0 {
        if j > 0 {
          assert r[0][j] == rest[0][j - 1];
          SplitElements(s[1..], sep, 0, j - 1);
        }
      } else {
        assert r[i] == rest[i];
        SplitElements(s[1..], sep, i, j);
      }
    }
  }

  /** One unfolding of Split, on a sequence given as head and tail. */
  lemma {:induction false} SplitCons<T>(c: T, t: seq<T>, sep: T)
    ensures Split([c] + t, sep) ==
      if c == sep then [[]] + Split(t, sep) else [[c] + Split(t, sep)[0]] + Split(t, sep)[1..]
  {
    assert ([c] + t)[0] == c && ([c] + t)[1..] == t;
  }

  lemma ConsAppendAssoc<T>(h: T, a: seq<T>, b: seq<T>)
    ensures [h] + (a + b) == ([h] + a) + b
  {
  }

  lemma {:induction false} ConsPreservesSplitConcat<T>(c: T, t: seq<T>, x: seq<T>, y: seq<T>, sep: T)
    requires Split(t, sep) == Split(x, sep) + Split(y, sep)
    ensures Split([c] + t, sep) == Split([c] + x, sep) + Split(y, sep)
  {
    SplitCons(c, t, sep);
    SplitCons(c, x, sep);
    if c == sep {
      ConsAppendAssoc([], Split(x, sep), Split(y, sep));
    } else {
      ExtendFirstPiece([c], Split(x, sep), Split(y, sep));
    }
  }

  /** Extending the first piece of a concatenation extends the first piece of its left part. */
  lemma ExtendFirstPiece<T>(h: seq<T>, a: seq<seq<T>>, b: seq<seq<T>>)
    requires a != []
    ensures [h + (a + b)[0]] + (a + b)[1..] == ([h + a[0]] + a[1..]) + b
  {
    assert (a + b)[0] == a[0];
    assert (a + b)[1..] == a[1..] + b;
  }

  /** Splitting at one separator splits the two sides independently. */
  lemma {:induction false} SplitConcat<T>(x: seq<T>, y: seq<T>, sep: T)
    ensures Split(x + [sep] + y, sep) == Split(x, sep) + Split(y, sep)
  {
    if x == [] {
      assert x + [sep] + y == [sep] + y;
      SplitCons(sep, y, sep);
    } else {
      var t := x[1..] + [sep] + y;
      assert x + [sep] + y == [x[0]] + t;
      assert x == [x[0]] + x[1..];
      SplitConcat(x[1..], y, sep);
      ConsPreservesSplitConcat(x[0], t, x[1..], y, sep);
    }
  }

  /** A sequence made only of separators splits into empty pieces. */
  lemma {:induction false} SplitOnlySeparators<T>(s: seq<T>, sep: T)
    requires forall k :: 0 <= k < |s| ==> s[k] == sep
    ensures forall i :: 0 <= i < |Split(s, sep)| ==> Split(s, sep)[i] == []
  {
    if s != [] {
      assert forall k :: 0 <= k < |s[1..]| ==> s[1..][k] == sep by {
        forall k | 0 <= k < |s[1..]| ensures s[1..][k] == sep { assert s[1..][k] == s[k + 1]; }
      }
      SplitOnlySeparators(s[1..], sep);
      assert s[0] == sep;
      assert Split(s, sep) == [[]] + Split(s[1..], sep);
    }
  }
}
