/**
 The mathematics behind `list_sort` (osal/mpp_list.c): what a stable sort is, what the
 two-way merge computes, and why merging stably sorted neighbours sorts their
 concatenation stably.

 Only the sign test `cmp(a, b) <= 0` of a comparison is ever used, so the order is given
 by that test.
 */
module StableMerge {

  /** The test both merge loops make: "if equal, take a". */
  predicate Le<T>(cmp: (T, T) -> int, x: T, y: T) {
    cmp(x, y) <= 0
  }

  /** What the caller owes: on the elements being sorted the test is total and transitive. */
  ghost predicate TotalPreorder<T>(cmp: (T, T) -> int, s: set<T>) {
    && (forall x, y | x in s && y in s :: Le(cmp, x, y) || Le(cmp, y, x))
    && (forall x, y, z | x in s && y in s && z in s && Le(cmp, x, y) && Le(cmp, y, z) :: Le(cmp, x, z))
  }

  ghost function Elems<T>(s: seq<T>): (e: set<T>)
    ensures Within(s, e)
  {
    set x | x in s
  }

  ghost predicate Within<T>(s: seq<T>, e: set<T>) {
    forall x | x in s :: x in e
  }

  /** The result of merging two runs; ties go to the first run. */
  function Merge<T>(cmp: (T, T) -> int, a: seq<T>, b: seq<T>): seq<T>
    decreases |a| + |b|
  {
    if a == [] then b
    else if b == [] then a
    else if Le(cmp, a[0], b[0]) then [a[0]] + Merge(cmp, a[1..], b)
    else [b[0]] + Merge(cmp, a, b[1..])
  }

  /** The stable sort of a sequence, by insertion from the back. */
  function StableSort<T>(cmp: (T, T) -> int, s: seq<T>): seq<T> {
    if s == [] then [] else Merge(cmp, [s[0]], StableSort(cmp, s[1..]))
  }

  // What a stable sort is, independently of how it is computed.

  ghost predicate Sorted<T>(cmp: (T, T) -> int, s: seq<T>) {
    forall i, j | 0 <= i < j < |s| :: Le(cmp, s[i], s[j])
  }

  /** The elements of s that tie with x, in the order they occur. */
  function Ties<T>(cmp: (T, T) -> int, x: T, s: seq<T>): seq<T> {
    if s == [] then []
    else (if Le(cmp, x, s[0]) && Le(cmp, s[0], x) then [s[0]] else []) + Ties(cmp, x, s[1..])
  }

  /** t is a sorted permutation of s in which tied elements keep their order. */
  ghost predicate IsStableSortOf<T>(cmp: (T, T) -> int, t: seq<T>, s: seq<T>) {
    && Sorted(cmp, t)
    && multiset(t) == multiset(s)
    && (forall x | x in s :: Ties(cmp, x, t) == Ties(cmp, x, s))
  }

  // ---- Merge

  lemma {:induction false} MergeElems<T>(cmp: (T, T) -> int, a: seq<T>, b: seq<T>)
    ensures multiset(Merge(cmp, a, b)) == multiset(a) + multiset(b)
    ensures |Merge(cmp, a, b)| == |a| + |b|
    decreases |a| + |b|
  {
    if a == [] || b == [] {
    } else {
      assert a == [a[0]] + a[1..] && b == [b[0]] + b[1..];
      if Le(cmp, a[0], b[0]) {
        MergeElems(cmp, a[1..], b);
      } else {
        MergeElems(cmp, a, b[1..]);
      }
    }
  }

  lemma {:induction false} MergeSorted<T>(cmp: (T, T) -> int, a: seq<T>, b: seq<T>, s: set<T>)
    requires Within(a, s) && Within(b, s) && TotalPreorder(cmp, s)
    requires Sorted(cmp, a) && Sorted(cmp, b)
    ensures Sorted(cmp, Merge(cmp, a, b))
    decreases |a| + |b|
  {
    hide Sorted, Within, TotalPreorder;
    if a != [] && b != [] {
      TailOfSorted(cmp, a, s);
      TailOfSorted(cmp, b, s);
      if Le(cmp, a[0], b[0]) {
        MergeSorted(cmp, a[1..], b, s);
        AboveHead(cmp, a[0], a, s);
        AboveHead(cmp, a[0], b, s);
        MergeBelow(cmp, a[0], a[1..], b);
        ConsSorted(cmp, a[0], Merge(cmp, a[1..], b));
      } else {
        MergeSorted(cmp, a, b[1..], s);
        TotalAt(cmp, a[0], b[0], s);
        AboveHead(cmp, b[0], a, s);
        AboveHead(cmp, b[0], b, s);
        MergeBelow(cmp, b[0], a, b[1..]);
        ConsSorted(cmp, b[0], Merge(cmp, a, b[1..]));
      }
    }
  }

  lemma TotalAt<T>(cmp: (T, T) -> int, x: T, y: T, s: set<T>)
    requires TotalPreorder(cmp, s) && x in s && y in s
    ensures Le(cmp, x, y) || Le(cmp, y, x)
    ensures Le(cmp, x, x)
  {
  }

  /** What is below the head of a sorted run is below the whole run. */
  lemma AboveHead<T>(cmp: (T, T) -> int, h: T, a: seq<T>, s: set<T>)
    requires TotalPreorder(cmp, s) && Within(a, s) && h in s && Sorted(cmp, a)
    requires a != [] && (h == a[0] || Le(cmp, h, a[0]))
    ensures Below(cmp, h, a) && Below(cmp, h, a[1..])
  {
    assert Le(cmp, a[0], a[0]) by {
      assert a[0] in s;
    }
    forall j | 0 <= j < |a|
      ensures Le(cmp, h, a[j])
    {
      assert a[j] in s && a[0] in s;
      assert j > 0 ==> Le(cmp, a[0], a[j]);
    }
  }

  lemma {:induction false} MergeBelow<T>(cmp: (T, T) -> int, h: T, a: seq<T>, b: seq<T>)
    requires Below(cmp, h, a) && Below(cmp, h, b)
    ensures Below(cmp, h, Merge(cmp, a, b))
    decreases |a| + |b|
  {
    if a != [] && b != [] {
      if Le(cmp, a[0], b[0]) {
        MergeBelow(cmp, h, a[1..], b);
      } else {
        MergeBelow(cmp, h, a, b[1..]);
      }
    }
  }

  lemma ConsSorted<T>(cmp: (T, T) -> int, h: T, m: seq<T>)
    requires Sorted(cmp, m) && Below(cmp, h, m)
    ensures Sorted(cmp, [h] + m)
  {
    var s := [h] + m;
    forall i, j | 0 <= i < j < |s|
      ensures Le(cmp, s[i], s[j])
    {
      assert s[j] == m[j - 1];
      assert i > 0 ==> s[i] == m[i - 1];
    }
  }

  ghost predicate Below<T>(cmp: (T, T) -> int, h: T, m: seq<T>) {
    forall j | 0 <= j < |m| :: Le(cmp, h, m[j])
  }

  lemma {:induction false} NoTies<T>(cmp: (T, T) -> int, x: T, a: seq<T>)
    requires forall y | y in a :: !(Le(cmp, x, y) && Le(cmp, y, x))
    ensures Ties(cmp, x, a) == []
  {
    if a != [] {
      NoTies(cmp, x, a[1..]);
    }
  }

  /** Merging never moves an element across one it ties with. */
  lemma {:induction false} MergeTies<T>(cmp: (T, T) -> int, x: T, a: seq<T>, b: seq<T>, s: set<T>)
    requires Within(a, s) && Within(b, s) && x in s && TotalPreorder(cmp, s)
    requires Sorted(cmp, a)
    ensures Ties(cmp, x, Merge(cmp, a, b)) == Ties(cmp, x, a) + Ties(cmp, x, b)
    decreases |a| + |b|
  {
    NoTiesInNothing(cmp, x);
    hide *;
    MergeIs(cmp, a, b);
    if a != [] && b != [] {
      TailOfSorted(cmp, a, s);
      TailWithin(b, s);
      if Le(cmp, a[0], b[0]) {
        MergeTies(cmp, x, a[1..], b, s);
        TiesHead(cmp, x, a[0], Merge(cmp, a[1..], b));
        TiesSplit(cmp, x, a);
      } else {
        MergeTies(cmp, x, a, b[1..], s);
        TiesHead(cmp, x, b[0], Merge(cmp, a, b[1..]));
        TiesSplit(cmp, x, b);
        if Le(cmp, x, b[0]) && Le(cmp, b[0], x) {
          AllAboveNoTies(cmp, x, a, b[0], s);
        }
      }
    }
  }

  lemma MergeIs<T>(cmp: (T, T) -> int, a: seq<T>, b: seq<T>)
    ensures Merge(cmp, a, b) ==
            if a == [] then b
            else if b == [] then a
            else if Le(cmp, a[0], b[0]) then [a[0]] + Merge(cmp, a[1..], b)
            else [b[0]] + Merge(cmp, a, b[1..])
  {
    hide Le;
  }

  lemma NoTiesInNothing<T>(cmp: (T, T) -> int, x: T)
    ensures Ties(cmp, x, []) == []
  {
  }

  lemma TiesSplit<T>(cmp: (T, T) -> int, x: T, s: seq<T>)
    requires s != []
    ensures Ties(cmp, x, s) == (if Le(cmp, x, s[0]) && Le(cmp, s[0], x) then [s[0]] else []) + Ties(cmp, x, s[1..])
  {
    hide Le;
  }

  lemma TailOfSorted<T>(cmp: (T, T) -> int, t: seq<T>, e: set<T>)
    requires Sorted(cmp, t) && Within(t, e) && t != []
    ensures Sorted(cmp, t[1..]) && Within(t[1..], e) && t[0] in e
  {
  }

  lemma TailWithin<T>(t: seq<T>, e: set<T>)
    requires Within(t, e) && t != []
    ensures Within(t[1..], e) && t[0] in e
  {
  }

  lemma TiesHead<T>(cmp: (T, T) -> int, x: T, h: T, t: seq<T>)
    ensures Ties(cmp, x, [h] + t) == (if Le(cmp, x, h) && Le(cmp, h, x) then [h] else []) + Ties(cmp, x, t)
  {
    assert ([h] + t)[1..] == t;
  }

  /** Everything in a lies strictly above b0, hence nothing in a ties with what b0 ties with. */
  lemma AllAboveNoTies<T>(cmp: (T, T) -> int, x: T, a: seq<T>, b0: T, s: set<T>)
    requires Within(a, s) && b0 in s && x in s && TotalPreorder(cmp, s) && Sorted(cmp, a)
    requires a != [] && !Le(cmp, a[0], b0) && Le(cmp, x, b0)
    ensures Ties(cmp, x, a) == []
  {
    forall y | y in a
      ensures !Le(cmp, y, x)
    {
      var i :| 0 <= i < |a| && a[i] == y;
      assert a[0] in s && y in s;
      assert Le(cmp, a[0], y) by {
        assert Le(cmp, a[0], a[0]) || i > 0;
      }
    }
    NoTies(cmp, x, a);
  }

  /** Inserting in front and then merging is merging and then inserting in front. */
  lemma {:induction false} InsertMerge<T>(cmp: (T, T) -> int, x: T, a: seq<T>, b: seq<T>, s: set<T>)
    requires x in s && Within(a, s) && Within(b, s) && TotalPreorder(cmp, s)
    ensures Merge(cmp, [x], Merge(cmp, a, b)) == Merge(cmp, Merge(cmp, [x], a), b)
    decreases |a| + |b|
  {
    if a == [] || b == [] {
    } else {
      assert a[0] in s && b[0] in s;
      if Le(cmp, a[0], b[0]) {
        var m := Merge(cmp, a[1..], b);
        assert Merge(cmp, a, b)[1..] == m;
        if Le(cmp, x, a[0]) {
          assert Le(cmp, x, b[0]);
          MergeConsLeft(cmp, x, a, b);
          MergeSingleton(cmp, x, a);
        } else {
          InsertMerge(cmp, x, a[1..], b, s);
          assert Merge(cmp, [x], a) == [a[0]] + Merge(cmp, [x], a[1..]);
          assert Merge(cmp, [x], a)[1..] == Merge(cmp, [x], a[1..]);
        }
      } else {
        var m := Merge(cmp, a, b[1..]);
        assert Merge(cmp, a, b)[1..] == m;
        if Le(cmp, x, b[0]) {
          assert Le(cmp, x, a[0]);
          MergeConsLeft(cmp, x, a, b);
          MergeSingleton(cmp, x, a);
        } else {
          InsertMerge(cmp, x, a, b[1..], s);
          var xa := Merge(cmp, [x], a);
          assert xa[0] == x || xa[0] == a[0];
          assert Merge(cmp, xa, b) == [b[0]] + Merge(cmp, xa, b[1..]);
        }
      }
      if Le(cmp, x, Merge(cmp, a, b)[0]) {
        MergeSingleton(cmp, x, Merge(cmp, a, b));
      }
    }
  }

  lemma {:induction false} MergeSingleton<T>(cmp: (T, T) -> int, x: T, a: seq<T>)
    requires a != [] ==> Le(cmp, x, a[0])
    ensures Merge(cmp, [x], a) == [x] + a
  {
    assert [x][1..] == [];
  }

  lemma {:induction false} MergeConsLeft<T>(cmp: (T, T) -> int, x: T, a: seq<T>, b: seq<T>)
    requires b != [] ==> Le(cmp, x, b[0])
    ensures Merge(cmp, [x] + a, b) == [x] + Merge(cmp, a, b)
  {
    assert ([x] + a)[1..] == a;
  }

  // ---- StableSort

  lemma SortWithin<T>(cmp: (T, T) -> int, s: seq<T>, e: set<T>)
    requires Within(s, e)
    ensures Within(StableSort(cmp, s), e)
  {
    StableSortElems(cmp, s);
    forall x | x in StableSort(cmp, s)
      ensures x in e
    {
      assert x in multiset(s);
    }
  }

  lemma WithinConcat<T>(a: seq<T>, b: seq<T>, e: set<T>)
    requires Within(a + b, e)
    ensures Within(a, e) && Within(b, e)
  {
    forall x | x in a || x in b
      ensures x in e
    {
      assert x in a + b;
    }
  }

  lemma SubPreorder<T>(cmp: (T, T) -> int, e: set<T>, s: set<T>)
    requires e <= s && TotalPreorder(cmp, s)
    ensures TotalPreorder(cmp, e)
  {
  }

  /** The law the whole algorithm rests on: merging two stably sorted neighbours,
      older run first, sorts their concatenation stably. */
  lemma {:induction false} MergeOfSorts<T>(cmp: (T, T) -> int, a: seq<T>, b: seq<T>)
    requires TotalPreorder(cmp, Elems(a + b))
    ensures Merge(cmp, StableSort(cmp, a), StableSort(cmp, b)) == StableSort(cmp, a + b)
  {
    if a == [] {
      assert a + b == b;
    } else {
      var s := Elems(a + b);
      assert (a + b)[1..] == a[1..] + b;
      assert TotalPreorder(cmp, Elems(a[1..] + b)) by {
        SubPreorder(cmp, Elems(a[1..] + b), s);
      }
      MergeOfSorts(cmp, a[1..], b);
      assert StableSort(cmp, a + b) == Merge(cmp, [a[0]], StableSort(cmp, a[1..] + b));
      assert Within(a + b, s) && (a + b)[0] == a[0];
      WithinConcat(a, b, s);
      SortWithin(cmp, a[1..], s);
      SortWithin(cmp, b, s);
      InsertMerge(cmp, a[0], StableSort(cmp, a[1..]), StableSort(cmp, b), s);
    }
  }

  lemma {:induction false} StableSortElems<T>(cmp: (T, T) -> int, s: seq<T>)
    ensures multiset(StableSort(cmp, s)) == multiset(s)
    ensures |StableSort(cmp, s)| == |s|
  {
    if s != [] {
      assert s == [s[0]] + s[1..];
      StableSortElems(cmp, s[1..]);
      MergeElems(cmp, [s[0]], StableSort(cmp, s[1..]));
    }
  }

  lemma {:induction false} StableSortIsStable<T>(cmp: (T, T) -> int, s: seq<T>)
    requires TotalPreorder(cmp, Elems(s))
    ensures IsStableSortOf(cmp, StableSort(cmp, s), s)
  {
    StableSortElems(cmp, s);
    StableSortSorted(cmp, s);
    forall x | x in s
      ensures Ties(cmp, x, StableSort(cmp, s)) == Ties(cmp, x, s)
    {
      StableSortTies(cmp, x, s, Elems(s));
    }
  }

  lemma {:induction false} StableSortSorted<T>(cmp: (T, T) -> int, s: seq<T>)
    requires TotalPreorder(cmp, Elems(s))
    ensures Sorted(cmp, StableSort(cmp, s))
  {
    if s != [] {
      SubPreorder(cmp, Elems(s[1..]), Elems(s));
      StableSortSorted(cmp, s[1..]);
      SortWithin(cmp, s[1..], Elems(s));
      MergeSorted(cmp, [s[0]], StableSort(cmp, s[1..]), Elems(s));
    }
  }

  lemma SingletonRun<T>(cmp: (T, T) -> int, x: T, e: set<T>)
    requires x in e
    ensures Within([x], e) && Sorted(cmp, [x])
  {
  }

  lemma {:induction false} StableSortTies<T>(cmp: (T, T) -> int, x: T, s: seq<T>, e: set<T>)
    requires Within(s, e) && x in e && TotalPreorder(cmp, e)
    ensures Ties(cmp, x, StableSort(cmp, s)) == Ties(cmp, x, s)
  {
    SortNothing(cmp);
    hide *;
    if s != [] {
      var t := s[1..];
      TailWithin(s, e);
      SingletonRun(cmp, s[0], e);
      StableSortTies(cmp, x, t, e);
      SortWithin(cmp, t, e);
      MergeTies(cmp, x, [s[0]], StableSort(cmp, t), e);
      SortHead(cmp, s);
      TiesFront(cmp, x, s);
    }
  }

  lemma SortNothing<T>(cmp: (T, T) -> int)
    ensures StableSort(cmp, []) == []
  {
  }

  lemma SortHead<T>(cmp: (T, T) -> int, s: seq<T>)
    requires s != []
    ensures StableSort(cmp, s) == Merge(cmp, [s[0]], StableSort(cmp, s[1..]))
  {
    hide Merge;
  }

  lemma TiesFront<T>(cmp: (T, T) -> int, x: T, s: seq<T>)
    requires s != []
    ensures Ties(cmp, x, s) == Ties(cmp, x, [s[0]]) + Ties(cmp, x, s[1..])
  {
    assert Ties(cmp, x, [s[0]]) == if Le(cmp, x, s[0]) && Le(cmp, s[0], x) then [s[0]] else [];
  }

  /** There is only one stable sort, so `IsStableSortOf` pins the answer down completely. */
  lemma {:induction false} StableSortUnique<T>(cmp: (T, T) -> int, t: seq<T>, s: seq<T>)
    requires TotalPreorder(cmp, Elems(s)) && IsStableSortOf(cmp, t, s)
    ensures t == StableSort(cmp, s)
  {
    StableSortIsStable(cmp, s);
    var u := StableSort(cmp, s);
    forall x | x in s
      ensures Ties(cmp, x, t) == Ties(cmp, x, u)
    {
    }
    assert forall x | x in t :: x in multiset(t);
    assert forall x | x in u :: x in multiset(u);
    SameTiesSameSeq(cmp, t, u, Elems(s));
  }

  lemma FirstBelow<T>(cmp: (T, T) -> int, t: seq<T>, u: seq<T>, e: set<T>)
    requires TotalPreorder(cmp, e) && Within(t, e) && t != [] && u != []
    requires Sorted(cmp, t) && multiset(t) == multiset(u)
    ensures Le(cmp, t[0], u[0])
  {
    assert u[0] in multiset(u);
    var i :| 0 <= i < |t| && t[i] == u[0];
    assert t[0] in e;
  }

  /** The first element tying with t[0] heads both sequences. */
  lemma SameHead<T>(cmp: (T, T) -> int, t: seq<T>, u: seq<T>, e: set<T>)
    requires TotalPreorder(cmp, e) && Within(t, e) && Within(u, e) && t != [] && u != []
    requires Sorted(cmp, t) && Sorted(cmp, u) && multiset(t) == multiset(u)
    requires Ties(cmp, t[0], t) == Ties(cmp, t[0], u)
    ensures t[0] == u[0]
  {
    FirstBelow(cmp, t, u, e);
    FirstBelow(cmp, u, t, e);
    assert t[0] in e;
    assert Le(cmp, t[0], t[0]);
    assert Ties(cmp, t[0], t)[0] == t[0];
    assert Ties(cmp, t[0], u)[0] == u[0];
  }

  lemma DropHead<T>(cmp: (T, T) -> int, x: T, t: seq<T>)
    requires t != []
    ensures Ties(cmp, x, t[1..]) == if Le(cmp, x, t[0]) && Le(cmp, t[0], x) then Ties(cmp, x, t)[1..] else Ties(cmp, x, t)
  {
  }

  lemma SameLength<T>(t: seq<T>, u: seq<T>)
    requires multiset(t) == multiset(u)
    ensures |t| == |u|
  {
    assert |multiset(t)| == |multiset(u)|;
  }

  lemma SameTail<T>(t: seq<T>, u: seq<T>)
    requires t != [] && u != [] && t[0] == u[0] && multiset(t) == multiset(u)
    ensures multiset(t[1..]) == multiset(u[1..])
    ensures t == [t[0]] + t[1..] && u == [u[0]] + u[1..]
  {
    assert t == [t[0]] + t[1..] && u == [u[0]] + u[1..];
    assert multiset(t[1..]) == multiset(t) - multiset{t[0]};
    assert multiset(u[1..]) == multiset(u) - multiset{u[0]};
  }

  lemma {:induction false} SameTiesSameSeq<T>(cmp: (T, T) -> int, t: seq<T>, u: seq<T>, e: set<T>)
    requires TotalPreorder(cmp, e) && Within(t, e) && Within(u, e)
    requires Sorted(cmp, t) && Sorted(cmp, u) && multiset(t) == multiset(u)
    requires forall x | x in e :: Ties(cmp, x, t) == Ties(cmp, x, u)
    ensures t == u
  {
    hide TotalPreorder, Within, Sorted, Ties, Le;
    SameLength(t, u);
    if t != [] {
      TailOfSorted(cmp, t, e);
      SameHead(cmp, t, u, e);
      SameTail(t, u);
      TailOfSorted(cmp, u, e);
      forall x | x in e
        ensures Ties(cmp, x, t[1..]) == Ties(cmp, x, u[1..])
      {
        DropHead(cmp, x, t);
        DropHead(cmp, x, u);
      }
      SameTiesSameSeq(cmp, t[1..], u[1..], e);
    }
  }
}
