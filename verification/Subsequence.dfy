/** Subsequences: the same elements in the same order, with some left out. */
module Subsequence {

  ghost predicate Sub<T>(a: seq<T>, b: seq<T>)
    decreases |b|
  {
    a == [] || (b != [] && ((a[0] == b[0] && Sub(a[1..], b[1..])) || Sub(a, b[1..])))
  }

  lemma {:induction false} SubRefl<T>(a: seq<T>)
    ensures Sub(a, a)
  {
    if a != [] { SubRefl(a[1..]); }
  }

  lemma {:induction false} SubTrans<T>(a: seq<T>, b: seq<T>, c: seq<T>)
    requires Sub(a, b) && Sub(b, c)
    ensures Sub(a, c)
    decreases |c|, |b|
  {
    if a != [] {
      if b[0] == c[0] && Sub(b[1..], c[1..]) {
        if a[0] == b[0] && Sub(a[1..], b[1..]) {
          SubTrans(a[1..], b[1..], c[1..]);
        } else {
          SubTrans(a, b[1..], c[1..]);
        }
      } else {
        SubTrans(a, b, c[1..]);
      }
    }
  }

  lemma {:induction false} SubConcat<T>(a: seq<T>, b: seq<T>, c: seq<T>, d: seq<T>)
    requires Sub(a, b) && Sub(c, d)
    ensures Sub(a + c, b + d)
    decreases |b|
  {
    if b == [] {
      assert a + c == c && b + d == d;
    } else {
      assert (b + d)[1..] == b[1..] + d;
      if a != [] && a[0] == b[0] && Sub(a[1..], b[1..]) {
        SubConcat(a[1..], b[1..], c, d);
        assert (a + c)[1..] == a[1..] + c;
      } else {
        SubConcat(a, b[1..], c, d);
      }
    }
  }

  /** Leaving out one stretch. */
  lemma SubDrop<T>(a: seq<T>, x: seq<T>, b: seq<T>)
    ensures Sub(a + b, a + x + b)
  {
    SubRefl(a);
    SubRefl(b);
    assert Sub([], x);
    SubConcat(a, a, [], x);
    assert a + [] == a;
    SubConcat(a, a + x, b, b);
  }

  /** A subsequence is not longer, and its elements are elements of the whole. */
  lemma {:induction false} SubElements<T>(a: seq<T>, b: seq<T>)
    requires Sub(a, b)
    ensures |a| <= |b| && forall x :: x in a ==> x in b
    decreases |b|
  {
    if a != [] {
      if a[0] == b[0] && Sub(a[1..], b[1..]) {
        SubElements(a[1..], b[1..]);
        assert a == [a[0]] + a[1..];
      } else {
        SubElements(a, b[1..]);
      }
    }
  }

  /** c is a and b merged: every element of c comes from one of them, and both are used up in order. */
  ghost predicate Merge<T>(a: seq<T>, b: seq<T>, c: seq<T>)
    decreases |c|
  {
    if c == [] then a == [] && b == []
    else
      || (a != [] && a[0] == c[0] && Merge(a[1..], b, c[1..]))
      || (b != [] && b[0] == c[0] && Merge(a, b[1..], c[1..]))
  }

  lemma {:induction false} MergeSwaps<T>(a: seq<T>, b: seq<T>, c: seq<T>)
    requires Merge(a, b, c)
    ensures Merge(b, a, c)
    decreases |c|
  {
    if c != [] {
      if a != [] && a[0] == c[0] && Merge(a[1..], b, c[1..]) {
        MergeSwaps(a[1..], b, c[1..]);
      } else {
        MergeSwaps(a, b[1..], c[1..]);
      }
    }
  }

  lemma {:induction false} MergeOne<T>(a: seq<T>)
    ensures Merge(a, [], a)
  {
    if a != [] { MergeOne(a[1..]); }
  }

  /** More behind one of the two. */
  lemma {:induction false} MergeMore<T>(a: seq<T>, b: seq<T>, c: seq<T>, x: seq<T>)
    requires Merge(a, b, c)
    ensures Merge(a + x, b, c + x)
    decreases |c|
  {
    if c == [] {
      assert a + x == x && c + x == x;
      MergeOne(x);
    } else {
      assert (c + x)[1..] == c[1..] + x;
      if a != [] && a[0] == c[0] && Merge(a[1..], b, c[1..]) {
        MergeMore(a[1..], b, c[1..], x);
        assert (a + x)[1..] == a[1..] + x;
      } else {
        MergeMore(a, b[1..], c[1..], x);
      }
    }
  }

  /** Nothing is added, lost or put out of order by a merge. */
  lemma {:induction false} MergeKeeps<T>(a: seq<T>, b: seq<T>, c: seq<T>)
    requires Merge(a, b, c)
    ensures |c| == |a| + |b| && multiset(c) == multiset(a) + multiset(b) && Sub(a, c)
    ensures b == [] ==> a == c
    decreases |c|
  {
    if c != [] {
      assert c == [c[0]] + c[1..];
      if a != [] && a[0] == c[0] && Merge(a[1..], b, c[1..]) {
        MergeKeeps(a[1..], b, c[1..]);
        assert a == [a[0]] + a[1..];
      } else {
        MergeKeeps(a, b[1..], c[1..]);
        assert b == [b[0]] + b[1..];
      }
    }
  }
}
