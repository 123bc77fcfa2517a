/** Bottom-up merge sorting of sequences, as the specification of the table's in-place sort of its order list. */
module MergeSorts {
  /** Merging two runs: the first one's element goes first unless the second one's is really smaller. */
  function Merge<T>(xs: seq<T>, ys: seq<T>, cmp: (T, T) -> int): (r: seq<T>)
    ensures |r| == |xs| + |ys|
    decreases |xs| + |ys|
  {
    if xs == [] then ys
    else if ys == [] then xs
    else if cmp(xs[0], ys[0]) <= 0 then [xs[0]] + Merge(xs[1..], ys, cmp)
    else [ys[0]] + Merge(xs, ys[1..], cmp)
  }

  function Upto(n: nat, length: nat): nat {
    if n <= length then n else length
  }

  function First<T>(s: seq<T>, n: nat): seq<T> {
    s[..Upto(n, |s|)]
  }

  function Rest<T>(s: seq<T>, n: nat): seq<T> {
    s[Upto(n, |s|)..]
  }

  /** One pass: neighbouring runs of n elements are merged, two by two. */
  function Pass<T>(s: seq<T>, n: nat, cmp: (T, T) -> int): (r: seq<T>)
    requires n > 0
    ensures |r| == |s|
    decreases |s|
  {
    if s == [] then []
    else Merge(First(s, n), First(Rest(s, n), n), cmp) + Pass(Rest(Rest(s, n), n), n, cmp)
  }

  /** Passes with runs of n, 2n, 4n, ... elements, up to one that has a single merge to do. */
  function SortFrom<T>(s: seq<T>, n: nat, cmp: (T, T) -> int): (r: seq<T>)
    requires n > 0
    ensures |r| == |s|
    decreases if |s| > n then |s| - n else 0
  {
    var t := Pass(s, n, cmp);
    if |s| <= 2 * n then t else SortFrom(t, 2 * n, cmp)
  }

  // ----- it permutes -----

  lemma {:induction false} MergePermutes<T>(xs: seq<T>, ys: seq<T>, cmp: (T, T) -> int)
    ensures multiset(Merge(xs, ys, cmp)) == multiset(xs) + multiset(ys)
    decreases |xs| + |ys|
  {
    if xs != [] && ys != [] {
      assert xs == [xs[0]] + xs[1..] && ys == [ys[0]] + ys[1..];
      if cmp(xs[0], ys[0]) <= 0 {
        MergePermutes(xs[1..], ys, cmp);
      } else {
        MergePermutes(xs, ys[1..], cmp);
      }
    }
  }

  lemma SplitMultiset<T>(s: seq<T>, n: nat)
    ensures multiset(First(s, n)) + multiset(Rest(s, n)) == multiset(s)
    ensures First(s, n) + Rest(s, n) == s
  {
    assert First(s, n) + Rest(s, n) == s;
  }

  lemma {:induction false} PassPermutes<T>(s: seq<T>, n: nat, cmp: (T, T) -> int)
    requires n > 0
    ensures multiset(Pass(s, n, cmp)) == multiset(s)
    decreases |s|
  {
    if s != [] {
      var r := Rest(s, n);
      SplitMultiset(s, n);
      SplitMultiset(r, n);
      MergePermutes(First(s, n), First(r, n), cmp);
      PassPermutes(Rest(r, n), n, cmp);
    }
  }

  /** Whatever the comparison function says, the result is a permutation. */
  lemma {:induction false} SortPermutes<T>(s: seq<T>, n: nat, cmp: (T, T) -> int)
    requires n > 0
    ensures multiset(SortFrom(s, n, cmp)) == multiset(s)
    decreases if |s| > n then |s| - n else 0
  {
    PassPermutes(s, n, cmp);
    if |s| > 2 * n {
      SortPermutes(Pass(s, n, cmp), 2 * n, cmp);
    }
  }

  // ----- it sorts -----

  /** The comparison function orders the given elements: any two compare, and it is transitive. */
  ghost predicate Orders<T>(cmp: (T, T) -> int, u: set<T>) {
    && (forall a, b :: a in u && b in u ==> cmp(a, b) <= 0 || cmp(b, a) <= 0)
    && (forall a, b, c :: a in u && b in u && c in u && cmp(a, b) <= 0 && cmp(b, c) <= 0 ==> cmp(a, c) <= 0)
  }

  ghost predicate Within<T>(s: seq<T>, u: set<T>) {
    forall i :: 0 <= i < |s| ==> s[i] in u
  }

  ghost predicate Sorted<T>(s: seq<T>, cmp: (T, T) -> int) {
    forall i, j :: 0 <= i < j < |s| ==> cmp(s[i], s[j]) <= 0
  }

  /** Every run of n elements is sorted. */
  ghost predicate RunsSorted<T>(s: seq<T>, n: nat, cmp: (T, T) -> int)
    requires n > 0
    decreases |s|
  {
    s != [] ==> Sorted(First(s, n), cmp) && RunsSorted(Rest(s, n), n, cmp)
  }

  lemma InMerge<T>(xs: seq<T>, ys: seq<T>, cmp: (T, T) -> int)
    ensures forall x :: x in Merge(xs, ys, cmp) <==> x in xs || x in ys
  {
    MergePermutes(xs, ys, cmp);
    forall x
      ensures x in Merge(xs, ys, cmp) <==> x in xs || x in ys
    {
      assert x in Merge(xs, ys, cmp) <==> x in multiset(Merge(xs, ys, cmp));
      assert (x in xs <==> x in multiset(xs)) && (x in ys <==> x in multiset(ys));
    }
  }

  lemma SortedCons<T>(x: T, s: seq<T>, cmp: (T, T) -> int)
    requires Sorted(s, cmp) && forall y :: y in s ==> cmp(x, y) <= 0
    ensures Sorted([x] + s, cmp)
  {
  }

  lemma {:induction false} MergeSorted<T>(xs: seq<T>, ys: seq<T>, cmp: (T, T) -> int, u: set<T>)
    requires Orders(cmp, u) && Within(xs, u) && Within(ys, u) && Sorted(xs, cmp) && Sorted(ys, cmp)
    ensures Sorted(Merge(xs, ys, cmp), cmp) && Within(Merge(xs, ys, cmp), u)
    decreases |xs| + |ys|
  {
    if xs != [] && ys != [] {
      if cmp(xs[0], ys[0]) <= 0 {
        MergeSorted(xs[1..], ys, cmp, u);
        InMerge(xs[1..], ys, cmp);
        forall y | y in Merge(xs[1..], ys, cmp)
          ensures cmp(xs[0], y) <= 0
        {
          if j :| 0 <= j < |ys| && ys[j] == y {
            assert j > 0 ==> cmp(ys[0], ys[j]) <= 0;
          }
        }
        SortedCons(xs[0], Merge(xs[1..], ys, cmp), cmp);
      } else {
        MergeSorted(xs, ys[1..], cmp, u);
        InMerge(xs, ys[1..], cmp);
        forall y | y in Merge(xs, ys[1..], cmp)
          ensures cmp(ys[0], y) <= 0
        {
          if j :| 0 <= j < |xs| && xs[j] == y {
            assert j > 0 ==> cmp(xs[0], xs[j]) <= 0;
          }
        }
        SortedCons(ys[0], Merge(xs, ys[1..], cmp), cmp);
      }
    }
  }

  /** The first run of a sequence that starts with a whole run, or is no longer than one, is that run. */
  lemma {:induction false} PassRuns<T>(s: seq<T>, n: nat, cmp: (T, T) -> int, u: set<T>)
    requires n > 0 && Orders(cmp, u) && Within(s, u) && RunsSorted(s, n, cmp)
    ensures RunsSorted(Pass(s, n, cmp), 2 * n, cmp) && Within(Pass(s, n, cmp), u)
    decreases |s|
  {
    if s != [] {
      var xs, r := First(s, n), Rest(s, n);
      var ys, t := First(r, n), Rest(r, n);
      assert RunsSorted(r, n, cmp);
      assert RunsSorted(t, n, cmp) && Sorted(ys, cmp);
      MergeSorted(xs, ys, cmp, u);
      PassRuns(t, n, cmp, u);
      var m, p := Merge(xs, ys, cmp), Pass(t, n, cmp);
      assert |m| == 2 * n || t == [];
      assert First(m + p, 2 * n) == m && Rest(m + p, 2 * n) == p;
    }
  }

  lemma {:induction false} SortFromSorted<T>(s: seq<T>, n: nat, cmp: (T, T) -> int, u: set<T>)
    requires n > 0 && Orders(cmp, u) && Within(s, u) && RunsSorted(s, n, cmp)
    ensures Sorted(SortFrom(s, n, cmp), cmp)
    decreases if |s| > n then |s| - n else 0
  {
    var t := Pass(s, n, cmp);
    PassRuns(s, n, cmp, u);
    if |s| <= 2 * n {
      assert First(t, 2 * n) == t;
    } else {
      SortFromSorted(t, 2 * n, cmp, u);
    }
  }

  lemma {:induction false} SingleRuns<T>(s: seq<T>, cmp: (T, T) -> int)
    ensures RunsSorted(s, 1, cmp)
    decreases |s|
  {
    if s != [] {
      SingleRuns(Rest(s, 1), cmp);
    }
  }

  // ----- it is stable -----

  /** The elements of s that compare equal to x, in the order of s. */
  ghost function EqualTo<T>(s: seq<T>, x: T, cmp: (T, T) -> int): seq<T> {
    if s == [] then []
    else IfEqual(s[0], x, cmp) + EqualTo(s[1..], x, cmp)
  }

  ghost function IfEqual<T>(y: T, x: T, cmp: (T, T) -> int): seq<T> {
    if cmp(y, x) <= 0 && cmp(x, y) <= 0 then [y] else []
  }

  lemma EqualToCons<T>(y: T, s: seq<T>, x: T, cmp: (T, T) -> int)
    ensures EqualTo([y] + s, x, cmp) == IfEqual(y, x, cmp) + EqualTo(s, x, cmp)
  {
    assert ([y] + s)[1..] == s;
  }

  lemma Associative<T>(a: seq<T>, b: seq<T>, c: seq<T>)
    ensures a + (b + c) == (a + b) + c
  {
  }

  lemma {:induction false} EqualToConcat<T>(s: seq<T>, t: seq<T>, x: T, cmp: (T, T) -> int)
    ensures EqualTo(s + t, x, cmp) == EqualTo(s, x, cmp) + EqualTo(t, x, cmp)
  {
    if s == [] {
      assert s + t == t;
    } else {
      var h := IfEqual(s[0], x, cmp);
      EqualToConcat(s[1..], t, x, cmp);
      EqualToCons(s[0], s[1..] + t, x, cmp);
      hide IfEqual, EqualTo;
      assert s + t == [s[0]] + (s[1..] + t) && s == [s[0]] + s[1..];
      Associative(h, EqualTo(s[1..], x, cmp), EqualTo(t, x, cmp));
      EqualToCons(s[0], s[1..], x, cmp);
    }
  }

  lemma {:induction false} NoneEqual<T>(s: seq<T>, x: T, cmp: (T, T) -> int)
    requires forall i :: 0 <= i < |s| ==> cmp(s[i], x) > 0
    ensures EqualTo(s, x, cmp) == []
  {
    if s != [] {
      NoneEqual(s[1..], x, cmp);
    }
  }

  lemma {:induction false} MergeStable<T>(xs: seq<T>, ys: seq<T>, x: T, cmp: (T, T) -> int, u: set<T>)
    requires Orders(cmp, u) && Within(xs, u) && Within(ys, u) && x in u && Sorted(xs, cmp)
    ensures EqualTo(Merge(xs, ys, cmp), x, cmp) == EqualTo(xs, x, cmp) + EqualTo(ys, x, cmp)
    decreases |xs| + |ys|
  {
    if xs != [] && ys != [] {
      hide Orders, Within, Sorted, EqualTo, IfEqual;
      TailWithin(xs, cmp, u);
      TailWithin(ys, cmp, u);
      if cmp(xs[0], ys[0]) <= 0 {
        MergeStable(xs[1..], ys, x, cmp, u);
        FirstGoesFirst(xs, ys, x, cmp);
      } else {
        MergeStable(xs, ys[1..], x, cmp, u);
        LaterIsLarger(xs, ys[0], x, cmp, u);
        SecondGoesFirst(xs, ys, x, cmp);
      }
    }
  }

  lemma FirstGoesFirst<T>(xs: seq<T>, ys: seq<T>, x: T, cmp: (T, T) -> int)
    requires xs != [] && ys != [] && cmp(xs[0], ys[0]) <= 0
    requires EqualTo(Merge(xs[1..], ys, cmp), x, cmp) == EqualTo(xs[1..], x, cmp) + EqualTo(ys, x, cmp)
    ensures EqualTo(Merge(xs, ys, cmp), x, cmp) == EqualTo(xs, x, cmp) + EqualTo(ys, x, cmp)
  {
    EqualToCons(xs[0], Merge(xs[1..], ys, cmp), x, cmp);
  }

  lemma SecondGoesFirst<T>(xs: seq<T>, ys: seq<T>, x: T, cmp: (T, T) -> int)
    requires xs != [] && ys != [] && cmp(xs[0], ys[0]) > 0
    requires IfEqual(ys[0], x, cmp) == [] || EqualTo(xs, x, cmp) == []
    requires EqualTo(Merge(xs, ys[1..], cmp), x, cmp) == EqualTo(xs, x, cmp) + EqualTo(ys[1..], x, cmp)
    ensures EqualTo(Merge(xs, ys, cmp), x, cmp) == EqualTo(xs, x, cmp) + EqualTo(ys, x, cmp)
  {
    hide EqualTo, IfEqual;
    var m := Merge(xs, ys[1..], cmp);
    assert Merge(xs, ys, cmp) == [ys[0]] + m;
    EqualToCons(ys[0], m, x, cmp);
    EqualToSplit(ys, x, cmp);
    SwapEmpty(IfEqual(ys[0], x, cmp), EqualTo(xs, x, cmp), EqualTo(ys[1..], x, cmp));
  }

  lemma SwapEmpty<T>(a: seq<T>, b: seq<T>, c: seq<T>)
    requires a == [] || b == []
    ensures a + (b + c) == b + (a + c)
  {
  }

  lemma EqualToSplit<T>(s: seq<T>, x: T, cmp: (T, T) -> int)
    requires s != []
    ensures EqualTo(s, x, cmp) == IfEqual(s[0], x, cmp) + EqualTo(s[1..], x, cmp)
  {
  }

  lemma TailWithin<T>(s: seq<T>, cmp: (T, T) -> int, u: set<T>)
    requires Within(s, u) && s != []
    ensures s[0] in u && Within(s[1..], u) && (Sorted(s, cmp) ==> Sorted(s[1..], cmp))
  {
  }

  /** If y is smaller than all of xs and equal to x, nothing in xs is equal to x. */
  lemma LaterIsLarger<T>(xs: seq<T>, y: T, x: T, cmp: (T, T) -> int, u: set<T>)
    requires Orders(cmp, u) && Within(xs, u) && y in u && x in u && Sorted(xs, cmp) && xs != [] && cmp(xs[0], y) > 0
    ensures IfEqual(y, x, cmp) == [] || EqualTo(xs, x, cmp) == []
  {
    if cmp(y, x) <= 0 && cmp(x, y) <= 0 {
      forall i | 0 <= i < |xs|
        ensures cmp(xs[i], x) > 0
      {
        assert cmp(xs[0], xs[i]) <= 0 || i == 0;
        assert xs[0] in u && xs[i] in u;
      }
      NoneEqual(xs, x, cmp);
    }
  }

  lemma TwoRuns<T>(s: seq<T>, n: nat, cmp: (T, T) -> int, u: set<T>)
    requires n > 0 && Within(s, u) && RunsSorted(s, n, cmp) && s != []
    ensures var xs, r := First(s, n), Rest(s, n);
            && Sorted(xs, cmp) && Within(xs, u) && Within(First(r, n), u)
            && RunsSorted(Rest(r, n), n, cmp) && Within(Rest(r, n), u)
  {
    assert RunsSorted(Rest(s, n), n, cmp);
  }

  lemma {:induction false} PassStable<T>(s: seq<T>, n: nat, x: T, cmp: (T, T) -> int, u: set<T>)
    requires n > 0 && Orders(cmp, u) && Within(s, u) && x in u && RunsSorted(s, n, cmp)
    ensures EqualTo(Pass(s, n, cmp), x, cmp) == EqualTo(s, x, cmp)
    decreases |s|
  {
    hide Orders, Within, Sorted, RunsSorted, Merge, EqualTo;
    if s == [] {
      assert Pass(s, n, cmp) == s;
    } else {
      var xs, r := First(s, n), Rest(s, n);
      var ys, t := First(r, n), Rest(r, n);
      TwoRuns(s, n, cmp, u);
      MergeStable(xs, ys, x, cmp, u);
      PassStable(t, n, x, cmp, u);
      EqualToConcat(Merge(xs, ys, cmp), Pass(t, n, cmp), x, cmp);
      SplitMultiset(s, n);
      SplitMultiset(r, n);
      EqualToConcat(xs, r, x, cmp);
      EqualToConcat(ys, t, x, cmp);
      var a, b, c := EqualTo(xs, x, cmp), EqualTo(ys, x, cmp), EqualTo(t, x, cmp);
      assert (a + b) + c == a + (b + c);
    }
  }

  lemma {:induction false} SortFromStable<T>(s: seq<T>, n: nat, x: T, cmp: (T, T) -> int, u: set<T>)
    requires n > 0 && Orders(cmp, u) && Within(s, u) && x in u && RunsSorted(s, n, cmp)
    ensures EqualTo(SortFrom(s, n, cmp), x, cmp) == EqualTo(s, x, cmp)
    decreases if |s| > n then |s| - n else 0
  {
    PassStable(s, n, x, cmp, u);
    PassRuns(s, n, cmp, u);
    if |s| > 2 * n {
      SortFromStable(Pass(s, n, cmp), 2 * n, x, cmp, u);
    }
  }

  /**
   For every comparison function that orders the elements, the sort yields a sorted permutation in which elements that
   compare equal keep their order.
   */
  lemma SortIsStableSort<T>(s: seq<T>, cmp: (T, T) -> int)
    requires Orders(cmp, set x | x in s)
    ensures Sorted(SortFrom(s, 1, cmp), cmp)
    ensures multiset(SortFrom(s, 1, cmp)) == multiset(s)
    ensures forall x :: x in s ==> EqualTo(SortFrom(s, 1, cmp), x, cmp) == EqualTo(s, x, cmp)
  {
    var u := set x | x in s;
    SingleRuns(s, cmp);
    SortPermutes(s, 1, cmp);
    SortFromSorted(s, 1, cmp, u);
    forall x | x in s
      ensures EqualTo(SortFrom(s, 1, cmp), x, cmp) == EqualTo(s, x, cmp)
    {
      SortFromStable(s, 1, x, cmp, u);
    }
  }
}
