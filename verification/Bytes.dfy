/** Bytes and the few sequence facts that every component shares. */
module Bytes {

  newtype byte = b: int | 0 <= b < 0x100

  datatype Option<+T> = None | Some(value: T)

  function Min(a: int, b: int): (m: int)
    ensures m <= a && m <= b && (m == a || m == b)
  {
    if a < b then a else b
  }

  function Max(a: int, b: int): (m: int)
    ensures a <= m && b <= m && (m == a || m == b)
  {
    if a < b then b else a
  }

  /** All pieces of `parts`, one after the other. */
  function Flatten<T>(parts: seq<seq<T>>): seq<T> {
    if parts == [] then [] else parts[0] + Flatten(parts[1..])
  }

  lemma ConcatAssociative<T>(a: seq<T>, b: seq<T>, c: seq<T>)
    ensures a + (b + c) == a + b + c
  {
  }

  lemma ConcatTail<T>(a: seq<T>, b: seq<T>)
    requires a != []
    ensures (a + b)[0] == a[0] && (a + b)[1..] == a[1..] + b
  {
  }

  lemma SplitAt<T>(s: seq<T>, i: nat)
    requires i <= |s|
    ensures s == s[..i] + s[i..]
  {
  }

  lemma {:induction false} FlattenAppend<T>(a: seq<seq<T>>, b: seq<seq<T>>)
    ensures Flatten(a + b) == Flatten(a) + Flatten(b)
  {
    if a == [] {
      assert a + b == b;
    } else {
      ConcatTail(a, b);
      FlattenAppend(a[1..], b);
      ConcatAssociative(a[0], Flatten(a[1..]), Flatten(b));
    }
  }

  lemma {:induction false} FlattenSnoc<T>(a: seq<seq<T>>, x: seq<T>)
    ensures Flatten(a + [x]) == Flatten(a) + x
  {
    FlattenAppend(a, [x]);
    assert [x][1..] == [] && Flatten<T>([]) == [];
    assert Flatten([x]) == x;
  }

  /** The elements of `d` are some of those of `p`, in the same order. */
  ghost predicate Subsequence<T>(d: seq<T>, p: seq<T>)
    decreases |p|
  {
    if p == [] then d == []
    else
      var front, last := p[..|p| - 1], p[|p| - 1];
      Subsequence(d, front) || (d != [] && d[|d| - 1] == last && Subsequence(d[..|d| - 1], front))
  }

  lemma SubsequenceSnoc<T>(d: seq<T>, p: seq<T>, b: T)
    requires Subsequence(d, p)
    ensures Subsequence(d, p + [b]) && Subsequence(d + [b], p + [b])
  {
    assert (p + [b])[..|p|] == p && (d + [b])[..|d|] == d;
  }

  lemma PrefixSnoc<T>(p: seq<T>, buf: seq<T>, n: nat)
    requires 0 < n <= |buf|
    ensures p + buf[..n] == p + buf[..n - 1] + [buf[n - 1]]
  {
  }

  lemma {:induction false} SubsequenceGrows<T>(d: seq<T>, p: seq<T>, buf: seq<T>, taken: nat, n: nat)
    requires Subsequence(d, p) && taken <= n <= |buf|
    ensures Subsequence(d + buf[..taken], p + buf[..n])
    decreases n
  {
    hide Subsequence;
    if n == 0 {
      assert d + buf[..0] == d && p + buf[..0] == p;
    } else {
      PrefixSnoc(p, buf, n);
      if taken < n {
        SubsequenceGrows(d, p, buf, taken, n - 1);
        SubsequenceSnoc(d + buf[..taken], p + buf[..n - 1], buf[n - 1]);
      } else {
        PrefixSnoc(d, buf, n);
        SubsequenceGrows(d, p, buf, n - 1, n - 1);
        SubsequenceSnoc(d + buf[..n - 1], p + buf[..n - 1], buf[n - 1]);
      }
    }
  }

  /** A subsequence of the same length is the whole. */
  lemma {:induction false} NothingLost<T>(d: seq<T>, p: seq<T>)
    requires Subsequence(d, p)
    ensures |d| <= |p| && (d == p <==> |d| == |p|)
    decreases |p|
  {
    if p != [] {
      var front := p[..|p| - 1];
      if Subsequence(d, front) {
        NothingLost(d, front);
      } else {
        NothingLost(d[..|d| - 1], front);
        assert d == d[..|d| - 1] + [d[|d| - 1]] && p == front + [p[|p| - 1]];
      }
    }
  }
}
