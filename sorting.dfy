/** Ordering a finite set by a string key, ascending in code-point order: the
    order in which S3 lists object keys and in which the uploads query returns
    rows (`ORDER BY label ASC`). */
module Sorting {
  import opened Strings

  /** No two distinct elements of `s` share a key. */
  predicate InjectiveOn<T(==)>(s: set<T>, key: T -> string) {
    forall x, y :: x in s && y in s && key(x) == key(y) ==> x == y
  }

  /** `m` is an element of `s` whose key is not above any other key in `s`. */
  predicate IsLeast<T>(m: T, s: set<T>, key: T -> string) {
    m in s && forall x :: x in s ==> Le(key(m), key(x))
  }

  /** The keys of `q` are in ascending order. */
  predicate SortedBy<T>(q: seq<T>, key: T -> string) {
    forall i, j :: 0 <= i < j < |q| ==> Le(key(q[i]), key(q[j]))
  }

  /** Every non-empty finite set has a least element. */
  lemma {:induction false} LeastExists<T>(s: set<T>, key: T -> string)
    requires s != {}
    ensures exists m :: IsLeast(m, s, key)
    decreases s
  {
    var x :| x in s;
    var rest := s - {x};
    if rest == {} {
      assert s == {x};
      LeReflexive(key(x));
      assert IsLeast(x, s, key);
    } else {
      LeastExists(rest, key);
      var m :| IsLeast(m, rest, key);
      LeTotal(key(m), key(x));
      if Le(key(m), key(x)) {
        assert IsLeast(m, s, key);
      } else {
        forall y | y in s
          ensures Le(key(x), key(y))
        {
          if y == x {
            LeReflexive(key(x));
          } else {
            LeTransitive(key(x), key(m), key(y));
          }
        }
        assert IsLeast(x, s, key);
      }
    }
  }

  /** Under an injective key the least element is unique. */
  lemma LeastUnique<T>(s: set<T>, key: T -> string)
    requires InjectiveOn(s, key)
    ensures forall m, n :: IsLeast(m, s, key) && IsLeast(n, s, key) ==> m == n
  {
    forall m, n | IsLeast(m, s, key) && IsLeast(n, s, key)
      ensures m == n
    {
      LeAntisymmetric(key(m), key(n));
    }
  }

  /** The elements of `s`, ascending by `key`, each exactly once. */
  function SortBy<T(==,!new)>(s: set<T>, key: T -> string): (r: seq<T>)
    requires InjectiveOn(s, key)
    ensures |r| == |s|
    ensures forall x :: x in r <==> x in s
    ensures forall i, j :: 0 <= i < j < |r| ==> r[i] != r[j]
    ensures SortedBy(r, key)
    decreases s
  {
    if s == {} then []
    else
      LeastExists(s, key);
      LeastUnique(s, key);
      var m :| IsLeast(m, s, key);
      [m] + SortBy(s - {m}, key)
  }

  /** The position an element takes in the ascending order: how many elements
      of `s` have a strictly smaller key. */
  function Rank<T>(x: T, s: set<T>, key: T -> string): nat {
    |Smaller(x, s, key)|
  }

  lemma {:induction false} DistinctCard<T>(q: seq<T>)
    requires forall i, j :: 0 <= i < j < |q| ==> q[i] != q[j]
    ensures |set x | x in q| == |q|
    decreases |q|
  {
    if q != [] {
      var rest := q[1..];
      DistinctCard(rest);
      assert (set x | x in q) == (set x | x in rest) + {q[0]};
      assert q[0] !in rest;
    }
  }

  /** The elements with a key strictly below that of `x`. */
  function Smaller<T>(x: T, s: set<T>, key: T -> string): set<T> {
    set y | y in s && Le(key(y), key(x)) && key(y) != key(x)
  }

  /** Everything with a smaller key than position `i` comes before it. */
  lemma SmallerComeBefore<T(!new)>(s: set<T>, key: T -> string, i: nat)
    requires InjectiveOn(s, key)
    requires i < |SortBy(s, key)|
    ensures forall y :: y in Smaller(SortBy(s, key)[i], s, key) ==> y in SortBy(s, key)[..i]
  {
    var q := SortBy(s, key);
    var x := q[i];
    forall y | y in Smaller(x, s, key)
      ensures y in q[..i]
    {
      assert y in q;
      var j :| 0 <= j < |q| && q[j] == y;
      if j >= i {
        assert Le(key(x), key(y));
        LeAntisymmetric(key(x), key(y));
      }
      assert q[..i][j] == y;
    }
  }

  /** Everything before position `i` has a smaller key. */
  lemma BeforeAreSmaller<T(!new)>(s: set<T>, key: T -> string, i: nat)
    requires InjectiveOn(s, key)
    requires i < |SortBy(s, key)|
    ensures forall j :: 0 <= j < i ==> SortBy(s, key)[j] in Smaller(SortBy(s, key)[i], s, key)
  {
    var q := SortBy(s, key);
    forall j | 0 <= j < i
      ensures q[j] in Smaller(q[i], s, key)
    {
      assert q[j] != q[i];
      assert Le(key(q[j]), key(q[i]));
    }
  }

  /** The element at position `i` of the ascending order has rank `i`, so
      `SortBy` agrees with the rank-based definition of sorted order. */
  lemma SortByRank<T(!new)>(s: set<T>, key: T -> string, i: nat)
    requires InjectiveOn(s, key)
    requires i < |SortBy(s, key)|
    ensures Rank(SortBy(s, key)[i], s, key) == i
  {
    var q := SortBy(s, key);
    SmallerIsPrefix(s, key, i);
    DistinctCard(q[..i]);
  }

  /** The elements with a smaller key than position `i` are exactly those
      before it. */
  lemma SmallerIsPrefix<T(!new)>(s: set<T>, key: T -> string, i: nat)
    requires InjectiveOn(s, key)
    requires i < |SortBy(s, key)|
    ensures Smaller(SortBy(s, key)[i], s, key) == set y | y in SortBy(s, key)[..i]
  {
    var q := SortBy(s, key);
    SmallerComeBefore(s, key, i);
    BeforeAreSmaller(s, key, i);
    forall y | y in q[..i]
      ensures y in Smaller(q[i], s, key)
    {
      var j :| 0 <= j < i && q[..i][j] == y;
      assert q[j] == y;
    }
  }

  /** The window `[skip, skip + take)` of a sequence, clipped to its length:
      what `OFFSET skip LIMIT take` keeps of an ordered result. */
  function Window<T>(all: seq<T>, skip: nat, take: nat): (w: seq<T>)
    ensures |w| == (if skip >= |all| then 0 else if skip + take <= |all| then take else |all| - skip)
  {
    if skip >= |all| then [] else all[skip..if skip + take <= |all| then skip + take else |all|]
  }

  /** Position `j` of a window is position `skip + j` of the whole. */
  lemma WindowIndex<T>(all: seq<T>, skip: nat, take: nat)
    ensures forall j :: 0 <= j < |Window(all, skip, take)| ==>
              skip + j < |all| && Window(all, skip, take)[j] == all[skip + j]
  {
    if skip < |all| {
      var end := if skip + take <= |all| then skip + take else |all|;
      var w := Window(all, skip, take);
      assert w == all[skip..end];
      forall j | 0 <= j < |w|
        ensures skip + j < |all| && w[j] == all[skip + j]
      {
        assert w[j] == all[skip..end][j];
      }
    } else {
      assert Window(all, skip, take) == [];
    }
  }

  /** Every element of a window of the ascending order has its rank in that
      window. */
  lemma InWindowHasRank<T(!new)>(s: set<T>, key: T -> string, skip: nat, take: nat, x: T)
    requires InjectiveOn(s, key)
    requires x in Window(SortBy(s, key), skip, take)
    ensures x in s && skip <= Rank(x, s, key) < skip + take
  {
    var all := SortBy(s, key);
    var w := Window(all, skip, take);
    WindowIndex(all, skip, take);
    var j :| 0 <= j < |w| && w[j] == x;
    assert all[skip + j] == x;
    SortByRank(s, key, skip + j);
  }

  /** Every element whose rank lies in a window is in that window. */
  lemma RankInWindow<T(!new)>(s: set<T>, key: T -> string, skip: nat, take: nat, x: T)
    requires InjectiveOn(s, key)
    requires x in s && skip <= Rank(x, s, key) < skip + take
    ensures x in Window(SortBy(s, key), skip, take)
  {
    var all := SortBy(s, key);
    var w := Window(all, skip, take);
    WindowIndex(all, skip, take);
    assert x in all;
    var i :| 0 <= i < |all| && all[i] == x;
    SortByRank(s, key, i);
    assert w[i - skip] == x;
  }

  /** An element lies in a window of the ascending order exactly when its rank
      falls in that window. */
  lemma WindowByRank<T(!new)>(s: set<T>, key: T -> string, skip: nat, take: nat, x: T)
    requires InjectiveOn(s, key)
    ensures x in Window(SortBy(s, key), skip, take) <==> x in s && skip <= Rank(x, s, key) < skip + take
  {
    if x in Window(SortBy(s, key), skip, take) {
      InWindowHasRank(s, key, skip, take, x);
    }
    if x in s && skip <= Rank(x, s, key) < skip + take {
      RankInWindow(s, key, skip, take, x);
    }
  }

  /** A window of the ascending order: its size, its elements, their order,
      and which elements it holds. */
  lemma WindowOfSorted<T(!new)>(s: set<T>, key: T -> string, skip: nat, take: nat)
    requires InjectiveOn(s, key)
    ensures |Window(SortBy(s, key), skip, take)|
            == (if skip >= |s| then 0 else if skip + take <= |s| then take else |s| - skip)
    ensures forall i :: 0 <= i < |Window(SortBy(s, key), skip, take)| ==> Window(SortBy(s, key), skip, take)[i] in s
    ensures forall i, j :: 0 <= i < j < |Window(SortBy(s, key), skip, take)| ==>
              && Le(key(Window(SortBy(s, key), skip, take)[i]), key(Window(SortBy(s, key), skip, take)[j]))
              && Window(SortBy(s, key), skip, take)[i] != Window(SortBy(s, key), skip, take)[j]
    ensures forall x :: x in Window(SortBy(s, key), skip, take) <==> x in s && skip <= Rank(x, s, key) < skip + take
  {
    var all := SortBy(s, key);
    var w := Window(all, skip, take);
    WindowIndex(all, skip, take);
    forall i | 0 <= i < |w|
      ensures w[i] in s
    {
      assert w[i] == all[skip + i];
    }
    WindowSorted(all, key, skip, take);
    forall x
      ensures x in w <==> x in s && skip <= Rank(x, s, key) < skip + take
    {
      WindowByRank(s, key, skip, take, x);
    }
  }

  /** A window of a sorted sequence without repeats is sorted, without
      repeats. */
  lemma WindowSorted<T>(all: seq<T>, key: T -> string, skip: nat, take: nat)
    requires SortedBy(all, key)
    requires forall i, j :: 0 <= i < j < |all| ==> all[i] != all[j]
    ensures forall i, j :: 0 <= i < j < |Window(all, skip, take)| ==>
              && Le(key(Window(all, skip, take)[i]), key(Window(all, skip, take)[j]))
              && Window(all, skip, take)[i] != Window(all, skip, take)[j]
  {
    var w := Window(all, skip, take);
    WindowIndex(all, skip, take);
    forall i, j | 0 <= i < j < |w|
      ensures Le(key(w[i]), key(w[j])) && w[i] != w[j]
    {
      var a, b := skip + i, skip + j;
      assert w[i] == all[a] && w[j] == all[b];
    }
  }

  /** Adjacent windows concatenate to the window spanning both. */
  lemma WindowsConcatenate<T>(all: seq<T>, skip: nat, a: nat, b: nat)
    ensures Window(all, skip, a) + Window(all, skip + a, b) == Window(all, skip, a + b)
  {
    var n := |all|;
    if skip + a + b <= n {
      assert all[skip..skip + a] + all[skip + a..skip + a + b] == all[skip..skip + a + b];
    } else if skip + a <= n {
      assert all[skip..skip + a] + all[skip + a..n] == all[skip..n];
    }
  }
}
