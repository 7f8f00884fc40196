/** Filtering, a stable sort by a total preorder (Python's sorted) and the order of byte strings. */
module Lists {
  import opened Bytes

  function Filter<T>(xs: seq<T>, p: T -> bool): seq<T> {
    if xs == [] then []
    else if p(xs[0]) then [xs[0]] + Filter(xs[1..], p)
    else Filter(xs[1..], p)
  }

  lemma {:induction false} FilterMembers<T(!new)>(xs: seq<T>, p: T -> bool)
    ensures forall x :: x in Filter(xs, p) <==> x in xs && p(x)
  {
    if xs != [] {
      FilterMembers(xs[1..], p);
      assert xs == [xs[0]] + xs[1..];
    }
  }

  lemma {:induction false} FilterAppend<T>(xs: seq<T>, ys: seq<T>, p: T -> bool)
    ensures Filter(xs + ys, p) == Filter(xs, p) + Filter(ys, p)
  {
    if xs == [] {
      assert xs + ys == ys;
    } else {
      assert (xs + ys)[0] == xs[0] && (xs + ys)[1..] == xs[1..] + ys;
      FilterAppend(xs[1..], ys, p);
    }
  }

  lemma {:induction false} FilterCounts<T(!new)>(xs: seq<T>, p: T -> bool)
    ensures forall x :: multiset(Filter(xs, p))[x] == if p(x) then multiset(xs)[x] else 0
  {
    if xs != [] {
      FilterCounts(xs[1..], p);
      assert xs == [xs[0]] + xs[1..];
    }
  }

  lemma {:induction false} FilterAll<T(!new)>(xs: seq<T>, p: T -> bool)
    requires forall x :: x in xs ==> p(x)
    ensures Filter(xs, p) == xs
  {
    if xs != [] {
      assert xs[0] in xs && xs == [xs[0]] + xs[1..];
      FilterAll(xs[1..], p);
    }
  }

  lemma {:induction false} FilterNone<T(!new)>(xs: seq<T>, p: T -> bool)
    requires forall x :: x in xs ==> !p(x)
    ensures Filter(xs, p) == []
  {
    if xs != [] {
      assert xs[0] in xs;
      FilterNone(xs[1..], p);
    }
  }

  lemma {:induction false} FilterOne<T(!new)>(xs: seq<T>, i: nat, p: T -> bool)
    requires i < |xs| && p(xs[i]) && forall j :: 0 <= j < |xs| && j != i ==> !p(xs[j])
    ensures Filter(xs, p) == [xs[i]]
  {
    if i == 0 {
      FilterNone(xs[1..], p);
    } else {
      FilterOne(xs[1..], i - 1, p);
    }
  }

  ghost predicate Pairwise<T>(xs: seq<T>, rel: (T, T) -> bool) {
    forall i, j :: 0 <= i < j < |xs| ==> rel(xs[i], xs[j])
  }

  lemma {:induction false} FilterPairwise<T(!new)>(xs: seq<T>, p: T -> bool, rel: (T, T) -> bool)
    requires Pairwise(xs, rel)
    ensures Pairwise(Filter(xs, p), rel)
  {
    if xs != [] {
      var rest := xs[1..];
      assert Pairwise(rest, rel);
      FilterPairwise(rest, p, rel);
      FilterMembers(rest, p);
      forall y | y in Filter(rest, p)
        ensures rel(xs[0], y)
      {
        assert y in rest;
        var k :| 0 <= k < |rest| && rest[k] == y;
        assert xs[k + 1] == y;
      }
    }
  }

  /** Filtering respects reordering. */
  lemma FilterPermutes<T(!new)>(xs: seq<T>, ys: seq<T>, p: T -> bool)
    requires multiset(xs) == multiset(ys)
    ensures multiset(Filter(xs, p)) == multiset(Filter(ys, p))
  {
    FilterCounts(xs, p);
    FilterCounts(ys, p);
  }

  function Insert<T>(x: T, xs: seq<T>, le: (T, T) -> bool): seq<T> {
    if xs == [] then [x]
    else if le(x, xs[0]) then [x] + xs
    else [xs[0]] + Insert(x, xs[1..], le)
  }

  /** Equal elements keep their order: each element goes before those that follow it. */
  function Sort<T>(xs: seq<T>, le: (T, T) -> bool): seq<T> {
    if xs == [] then [] else Insert(xs[0], Sort(xs[1..], le), le)
  }

  ghost predicate Preorder<T(!new)>(le: (T, T) -> bool) {
    && (forall x, y :: le(x, y) || le(y, x))
    && (forall x, y, z :: le(x, y) && le(y, z) ==> le(x, z))
  }

  ghost predicate Sorted<T>(xs: seq<T>, le: (T, T) -> bool) {
    forall i, j :: 0 <= i < j < |xs| ==> le(xs[i], xs[j])
  }

  /** No two positions hold elements of one rank. */
  ghost predicate Ranked<T>(xs: seq<T>, le: (T, T) -> bool) {
    forall i, j :: 0 <= i < j < |xs| ==> !(le(xs[i], xs[j]) && le(xs[j], xs[i]))
  }

  lemma {:induction false} SortOfSorted<T>(xs: seq<T>, le: (T, T) -> bool)
    requires Sorted(xs, le)
    ensures Sort(xs, le) == xs
  {
    if xs != [] {
      assert Sorted(xs[1..], le);
      SortOfSorted(xs[1..], le);
      assert [xs[0]] + xs[1..] == xs;
      if |xs| > 1 {
        assert le(xs[0], xs[1]);
      }
    }
  }

  lemma SortOne<T>(x: T, le: (T, T) -> bool)
    ensures Sort([x], le) == [x]
  {
    assert [x][1..] == [];
    assert Sort([x], le) == Insert(x, Sort([], le), le);
  }

  lemma {:induction false} InsertKeeps<T>(x: T, xs: seq<T>, le: (T, T) -> bool)
    ensures multiset(Insert(x, xs, le)) == multiset{x} + multiset(xs)
  {
    if xs != [] {
      assert xs == [xs[0]] + xs[1..];
      if !le(x, xs[0]) {
        InsertKeeps(x, xs[1..], le);
      }
    }
  }

  /** Stability: elements of one rank come out in the order they came in. */
  lemma {:induction false} InsertStable<T(!new)>(x: T, xs: seq<T>, le: (T, T) -> bool, p: T -> bool)
    requires forall a, b :: p(a) && p(b) ==> le(a, b)
    ensures Filter(Insert(x, xs, le), p) == (if p(x) then [x] else []) + Filter(xs, p)
  {
    if xs == [] {
      assert [x][1..] == [];
      assert Filter([x], p) == (if p(x) then [x] + Filter([], p) else Filter([], p));
    } else if le(x, xs[0]) {
      assert ([x] + xs)[1..] == xs;
    } else {
      InsertStable(x, xs[1..], le, p);
      assert ([xs[0]] + Insert(x, xs[1..], le))[1..] == Insert(x, xs[1..], le);
      assert !(p(x) && p(xs[0]));
    }
  }

  lemma {:induction false} SortStable<T(!new)>(xs: seq<T>, le: (T, T) -> bool, p: T -> bool)
    requires forall a, b :: p(a) && p(b) ==> le(a, b)
    ensures Filter(Sort(xs, le), p) == Filter(xs, p)
  {
    if xs != [] {
      SortStable(xs[1..], le, p);
      InsertStable(xs[0], Sort(xs[1..], le), le, p);
    }
  }

  lemma {:induction false} FilterTwice<T(!new)>(xs: seq<T>, p: T -> bool, q: T -> bool)
    requires forall x :: q(x) ==> p(x)
    ensures Filter(Filter(xs, p), q) == Filter(xs, q)
  {
    if xs != [] {
      FilterTwice(xs[1..], p, q);
      var rest := Filter(xs[1..], p);
      assert ([xs[0]] + rest)[1..] == rest;
    }
  }

  /** Two tests that agree on the members select the same. */
  lemma {:induction false} FilterSame<T(!new)>(xs: seq<T>, p: T -> bool, q: T -> bool)
    requires forall x :: x in xs ==> p(x) == q(x)
    ensures Filter(xs, p) == Filter(xs, q)
  {
    if xs != [] {
      assert xs[0] in xs && forall x :: x in xs[1..] ==> x in xs;
      FilterSame(xs[1..], p, q);
    }
  }

  /** A test that is stricter on the members may follow the weaker one. */
  lemma {:induction false} FilterWithin<T(!new)>(xs: seq<T>, p: T -> bool, q: T -> bool)
    requires forall x :: x in xs && q(x) ==> p(x)
    ensures Filter(Filter(xs, p), q) == Filter(xs, q)
  {
    if xs != [] {
      assert xs[0] in xs && forall x :: x in xs[1..] ==> x in xs;
      FilterWithin(xs[1..], p, q);
      var rest := Filter(xs[1..], p);
      assert ([xs[0]] + rest)[1..] == rest;
    }
  }

  /** One member that passes the second test only is all that the second test adds to the first. */
  lemma FilterExtra<T(!new)>(xs: seq<T>, k: nat, p: T -> bool, q: T -> bool) returns (a: seq<T>, b: seq<T>)
    requires k < |xs| && !p(xs[k]) && q(xs[k])
    requires forall j :: 0 <= j < |xs| && j != k && q(xs[j]) ==> p(xs[j])
    ensures Filter(xs, q) == a + [xs[k]] + b && Filter(Filter(xs, p), q) == a + b
  {
    var pre, post := xs[..k], xs[k + 1..];
    assert xs == (pre + [xs[k]]) + post;
    FilterAppend(pre + [xs[k]], post, q);
    FilterAppend(pre, [xs[k]], q);
    FilterAppend(pre + [xs[k]], post, p);
    FilterAppend(pre, [xs[k]], p);
    FilterNone([xs[k]], p);
    FilterAll([xs[k]], q);
    FilterWithin(pre, p, q);
    FilterWithin(post, p, q);
    FilterAppend(Filter(pre, p), Filter(post, p), q);
    a, b := Filter(pre, q), Filter(post, q);
    assert Filter(pre, p) + [] == Filter(pre, p);
  }

  /** The last element that passes is the last of the filtered list. */
  lemma {:induction false} FilterLast<T(!new)>(xs: seq<T>, i: nat, p: T -> bool)
    requires i < |xs| && p(xs[i]) && forall j :: i < j < |xs| ==> !p(xs[j])
    ensures Filter(xs, p) != [] && Filter(xs, p)[|Filter(xs, p)| - 1] == xs[i]
  {
    if i == 0 {
      FilterNone(xs[1..], p);
    } else {
      FilterLast(xs[1..], i - 1, p);
    }
  }

  /** Lists without repetition that have the same members are permutations of each other. */
  lemma {:induction false} SameMembersPermute<T(!new)>(xs: seq<T>, ys: seq<T>)
    requires forall i, j :: 0 <= i < j < |xs| ==> xs[i] != xs[j]
    requires forall i, j :: 0 <= i < j < |ys| ==> ys[i] != ys[j]
    requires forall x :: x in xs <==> x in ys
    ensures multiset(xs) == multiset(ys)
  {
    forall x
      ensures multiset(xs)[x] == multiset(ys)[x]
    {
      CountDistinct(xs, x);
      CountDistinct(ys, x);
    }
  }

  lemma {:induction false} CountDistinct<T(!new)>(xs: seq<T>, x: T)
    requires forall i, j :: 0 <= i < j < |xs| ==> xs[i] != xs[j]
    ensures multiset(xs)[x] == if x in xs then 1 else 0
  {
    if xs != [] {
      CountDistinct(xs[1..], x);
      assert xs == [xs[0]] + xs[1..];
      assert multiset(xs) == multiset{xs[0]} + multiset(xs[1..]);
    }
  }

  lemma SameMembers<T(!new)>(xs: seq<T>, ys: seq<T>)
    requires multiset(xs) == multiset(ys)
    ensures forall x :: x in xs <==> x in ys
  {
    assert forall x :: x in xs <==> x in multiset(xs);
    assert forall x :: x in ys <==> x in multiset(ys);
  }

  /** Sorting permutes. */
  lemma {:induction false} SortKeeps<T>(xs: seq<T>, le: (T, T) -> bool)
    ensures multiset(Sort(xs, le)) == multiset(xs)
  {
    if xs != [] {
      assert xs == [xs[0]] + xs[1..];
      SortKeeps(xs[1..], le);
      InsertKeeps(xs[0], Sort(xs[1..], le), le);
    }
  }

  lemma {:induction false} InsertSorted<T(!new)>(x: T, xs: seq<T>, le: (T, T) -> bool)
    requires Preorder(le) && Sorted(xs, le)
    ensures Sorted(Insert(x, xs, le), le)
  {
    if xs != [] {
      if le(x, xs[0]) {
        var r := [x] + xs;
        assert forall j :: 0 < j < |r| ==> le(x, r[j]) by {
          assert forall j :: 0 < j < |xs| ==> le(xs[0], xs[j]);
        }
      } else {
        var rest := xs[1..];
        assert Sorted(rest, le);
        InsertSorted(x, rest, le);
        InsertKeeps(x, rest, le);
        var r := Insert(x, rest, le);
        forall y | y in r
          ensures le(xs[0], y)
        {
          assert y in multiset(r);
          if y != x {
            assert y in multiset(rest);
            var k :| 0 <= k < |rest| && rest[k] == y;
            assert xs[k + 1] == y;
          }
        }
      }
    }
  }

  lemma {:induction false} SortSorted<T(!new)>(xs: seq<T>, le: (T, T) -> bool)
    requires Preorder(le)
    ensures Sorted(Sort(xs, le), le)
  {
    if xs != [] {
      SortSorted(xs[1..], le);
      InsertSorted(xs[0], Sort(xs[1..], le), le);
    }
  }

  lemma HeadsAgree<T(!new)>(xs: seq<T>, ys: seq<T>, le: (T, T) -> bool)
    requires Preorder(le) && Sorted(xs, le) && Sorted(ys, le) && multiset(xs) == multiset(ys) && Ranked(xs, le)
    requires xs != [] && ys != []
    ensures xs[0] == ys[0]
  {
    assert xs[0] in multiset(ys) && ys[0] in multiset(xs);
    var k :| 0 <= k < |ys| && ys[k] == xs[0];
    var m :| 0 <= m < |xs| && xs[m] == ys[0];
  }

  /** Two sorted arrangements of the same elements, all of different rank, are one and the same. */
  lemma {:induction false} SortedUnique<T(!new)>(xs: seq<T>, ys: seq<T>, le: (T, T) -> bool)
    requires Preorder(le) && Sorted(xs, le) && Sorted(ys, le) && multiset(xs) == multiset(ys) && Ranked(xs, le)
    ensures xs == ys
  {
    hide Preorder, Sorted, Ranked;
    assert |multiset(xs)| == |xs| && |multiset(ys)| == |ys|;
    if xs != [] {
      HeadsAgree(xs, ys, le);
      TailsAgree(xs, ys);
      SortedTail(xs, le);
      SortedTail(ys, le);
      RankedTail(xs, le);
      SortedUnique(xs[1..], ys[1..], le);
      assert xs == [xs[0]] + xs[1..] && ys == [ys[0]] + ys[1..];
    }
  }

  lemma TailsAgree<T(!new)>(xs: seq<T>, ys: seq<T>)
    requires xs != [] && ys != [] && xs[0] == ys[0] && multiset(xs) == multiset(ys)
    ensures multiset(xs[1..]) == multiset(ys[1..])
  {
    assert xs == [xs[0]] + xs[1..] && ys == [ys[0]] + ys[1..];
    assert multiset(xs[1..]) == multiset(xs) - multiset{xs[0]} == multiset(ys[1..]);
  }

  lemma SortedTail<T(!new)>(xs: seq<T>, le: (T, T) -> bool)
    requires xs != [] && Sorted(xs, le)
    ensures Sorted(xs[1..], le)
  {
  }

  lemma RankedTail<T(!new)>(xs: seq<T>, le: (T, T) -> bool)
    requires xs != [] && Ranked(xs, le)
    ensures Ranked(xs[1..], le)
  {
  }

  lemma RemoveAt<T(!new)>(xs: seq<T>, a: nat)
    requires a < |xs|
    ensures multiset(xs[..a] + xs[a + 1..]) == multiset(xs) - multiset{xs[a]}
  {
    assert xs == xs[..a] + [xs[a]] + xs[a + 1..];
  }

  lemma TwoPlaces<T(!new)>(xs: seq<T>, x: T, y: T) returns (a: nat, b: nat)
    requires multiset{x, y} <= multiset(xs)
    ensures a < |xs| && b < |xs| && a != b && xs[a] == x && xs[b] == y
  {
    assert multiset(xs)[x] >= 1;
    assert x in multiset(xs);
    a :| 0 <= a < |xs| && xs[a] == x;
    var rest := xs[..a] + xs[a + 1..];
    RemoveAt(xs, a);
    assert multiset{x, y} - multiset{x} == multiset{y};
    assert y in multiset(rest);
    var c: nat := PlaceOf(rest, y);
    b := if c < a then c else c + 1;
  }

  lemma PlaceOf<T(!new)>(xs: seq<T>, x: T) returns (c: nat)
    requires x in multiset(xs)
    ensures c < |xs| && xs[c] == x
  {
    c :| 0 <= c < |xs| && xs[c] == x;
  }

  lemma PairHeld<T>(ys: seq<T>, i: nat, j: nat)
    requires i < j < |ys|
    ensures multiset{ys[i], ys[j]} <= multiset(ys)
  {
    assert ys[..j][i] == ys[i] && ys[i] in multiset(ys[..j]);
    assert ys[j..][0] == ys[j] && ys[j] in multiset(ys[j..]);
    assert ys == ys[..j] + ys[j..];
    assert multiset(ys) == multiset(ys[..j]) + multiset(ys[j..]);
  }

  lemma RankedPermutes<T(!new)>(xs: seq<T>, ys: seq<T>, le: (T, T) -> bool)
    requires multiset(xs) == multiset(ys) && Ranked(xs, le)
    ensures Ranked(ys, le)
  {
    if i, j :| 0 <= i < j < |ys| && le(ys[i], ys[j]) && le(ys[j], ys[i]) {
      PairHeld(ys, i, j);
      var a, b := TwoPlaces(xs, ys[i], ys[j]);
    }
  }

  /** The order of the input does not matter when no two elements share a rank. */
  lemma SortPermutes<T(!new)>(xs: seq<T>, ys: seq<T>, le: (T, T) -> bool)
    requires Preorder(le) && multiset(xs) == multiset(ys) && Ranked(xs, le)
    ensures Sort(xs, le) == Sort(ys, le)
  {
    SortKeeps(xs, le);
    SortKeeps(ys, le);
    SortSorted(xs, le);
    SortSorted(ys, le);
    RankedPermutes(xs, Sort(xs, le), le);
    SortedUnique(Sort(xs, le), Sort(ys, le), le);
  }

  // ----- byte strings -----

  /** Lexicographic order, as Python compares bytes objects. */
  predicate LexLe(a: bytes, b: bytes) {
    a == [] || (b != [] && (a[0] < b[0] || (a[0] == b[0] && LexLe(a[1..], b[1..]))))
  }

  lemma {:induction false} LexTotal(a: bytes, b: bytes)
    ensures LexLe(a, b) || LexLe(b, a)
    ensures LexLe(a, b) && LexLe(b, a) ==> a == b
  {
    if a != [] && b != [] {
      LexTotal(a[1..], b[1..]);
      if a[0] == b[0] && a[1..] == b[1..] {
        assert a == [a[0]] + a[1..] && b == [b[0]] + b[1..];
      }
    }
  }

  lemma {:induction false} LexTransitive(a: bytes, b: bytes, c: bytes)
    requires LexLe(a, b) && LexLe(b, c)
    ensures LexLe(a, c)
  {
    if a != [] && b != [] && c != [] {
      if a[0] == b[0] == c[0] {
        LexTransitive(a[1..], b[1..], c[1..]);
      }
    }
  }
}
