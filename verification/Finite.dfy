/** Finite sets and sequences: sizes, pigeonholes and concatenation. */
module Finite {

  ghost predicate Distinct<T>(s: seq<T>) {
    forall i, j :: 0 <= i < j < |s| ==> s[i] != s[j]
  }

  lemma Assoc<T>(a: seq<T>, b: seq<T>, c: seq<T>)
    ensures (a + b) + c == a + (b + c)
  {
  }

  lemma SameHead<T>(h: seq<T>, a: seq<T>, b: seq<T>)
    requires h + a == h + b
    ensures a == b
  {
    assert a == (h + a)[|h|..] && b == (h + b)[|h|..];
  }

  /** The numbers below `n`. */
  function Below(n: nat): (r: set<nat>)
    ensures |r| == n && forall i: nat :: i in r <==> i < n
  {
    if n == 0 then {} else Below(n - 1) + {n - 1}
  }

  lemma {:induction false} DistinctSize<T>(s: seq<T>)
    requires Distinct(s)
    ensures |set x | x in s| == |s|
  {
    if s == [] {
      assert (set x | x in s) == {};
    } else {
      var m := |s| - 1;
      DistinctSize(s[..m]);
      assert s == s[..m] + [s[m]];
      assert (set x | x in s) == (set x | x in s[..m]) + {s[m]};
    }
  }

  lemma {:induction false} SubsetSize<T>(a: set<T>, b: set<T>)
    requires a <= b
    ensures |a| <= |b|
  {
    if a != {} {
      var x :| x in a;
      SubsetSize(a - {x}, b - {x});
    }
  }

  /** A list of `n` distinct numbers below `n` misses none of them. */
  lemma {:induction false} DistinctIsOnto(idx: seq<nat>, k: nat)
    requires forall j :: 0 <= j < |idx| ==> idx[j] < |idx|
    requires Distinct(idx)
    requires k < |idx|
    ensures k in idx
  {
    if k !in idx {
      var hit := set x | x in idx;
      DistinctSize(idx);
      SubsetSize(hit, Below(|idx|) - {k});
      assert false;
    }
  }

  function Pairs<A, B>(a: set<A>, b: set<B>): set<(A, B)> {
    set x, y | x in a && y in b :: (x, y)
  }

  /** An injective function keeps the size of a set. */
  lemma {:induction false} ImageSize<A, B>(s: set<A>, f: A -> B, image: set<B>)
    requires forall x, y :: x in s && y in s && f(x) == f(y) ==> x == y
    requires image == set x | x in s :: f(x)
    ensures |image| == |s|
    decreases s
  {
    if s != {} {
      var x :| x in s;
      var rest := set y | y in s - {x} :: f(y);
      ImageSize(s - {x}, f, rest);
      assert image == rest + {f(x)};
      assert f(x) !in rest;
    }
  }

  ghost function Row<A, B>(x: A, b: set<B>): set<(A, B)> {
    set y | y in b :: (x, y)
  }

  lemma PairsSplit<A, B>(a: set<A>, b: set<B>, x: A)
    requires x in a
    ensures Pairs(a, b) == Pairs(a - {x}, b) + Row(x, b) && Pairs(a - {x}, b) !! Row(x, b)
    ensures |Row(x, b)| == |b|
  {
    ImageSize(b, y => (x, y), Row(x, b));
  }

  /** A set of pairs has as many elements as the product of the two sizes says. */
  lemma {:induction false} PairsSize<A, B>(a: set<A>, b: set<B>, m: nat, n: nat)
    requires |a| == m && |b| == n
    ensures |Pairs(a, b)| == m * n
    decreases a
  {
    if a == {} {
      assert Pairs(a, b) == {};
    } else {
      var x :| x in a;
      PairsSize(a - {x}, b, m - 1, n);
      PairsSplit(a, b, x);
      assert (m - 1) * n + n == m * n;
    }
  }
}
