/**
 What the pending runs of `list_sort` contain: consecutive slices of the input, each stably
 sorted, newest slice first (osal/mpp_list.c:542-597).
 */
module PendingRuns {
  import opened StableMerge
  import opened RunSizes

  ghost predicate Distinct<T>(s: seq<T>) {
    forall i, j | 0 <= i < j < |s| :: s[i] != s[j]
  }

  ghost predicate Apart<T>(s: seq<T>, t: seq<T>) {
    forall i, j | 0 <= i < |s| && 0 <= j < |t| :: s[i] != t[j]
  }

  /** The pending runs for the consumed input t when they have the given sizes. */
  function RunsOf<T>(cmp: (T, T) -> int, t: seq<T>, sizes: seq<nat>): seq<seq<T>>
    requires Sum(sizes) == |t|
    decreases |sizes|
  {
    if sizes == [] then []
    else
      var cut := |t| - sizes[0];
      [StableSort(cmp, t[cut..])] + RunsOf(cmp, t[..cut], sizes[1..])
  }

  /** Runs k and k + 1 replaced by their merge, older run first. */
  function MergeRunsAt<T>(cmp: (T, T) -> int, runs: seq<seq<T>>, k: nat): seq<seq<T>>
    requires k + 1 < |runs|
  {
    ReplaceTwo(runs, k, Merge(cmp, runs[k + 1], runs[k]))
  }

  lemma {:induction false} RunLengths<T>(cmp: (T, T) -> int, t: seq<T>, sizes: seq<nat>)
    requires Sum(sizes) == |t|
    ensures |RunsOf(cmp, t, sizes)| == |sizes|
    ensures forall r | 0 <= r < |sizes| :: |RunsOf(cmp, t, sizes)[r]| == sizes[r]
    decreases |sizes|
  {
    if sizes != [] {
      var cut := |t| - sizes[0];
      RunLengths(cmp, t[..cut], sizes[1..]);
      StableSortElems(cmp, t[cut..]);
    }
  }

  lemma {:induction false} RunsWithin<T>(cmp: (T, T) -> int, t: seq<T>, sizes: seq<nat>, e: set<T>)
    requires Sum(sizes) == |t| && Within(t, e)
    ensures forall r | 0 <= r < |RunsOf(cmp, t, sizes)| :: Within(RunsOf(cmp, t, sizes)[r], e)
    decreases |sizes|
  {
    if sizes != [] {
      var cut := |t| - sizes[0];
      assert Within(t[..cut], e) && Within(t[cut..], e);
      RunsWithin(cmp, t[..cut], sizes[1..], e);
      SortWithin(cmp, t[cut..], e);
    }
  }

  lemma {:induction false} SortDistinct<T>(cmp: (T, T) -> int, s: seq<T>)
    requires Distinct(s)
    ensures Distinct(StableSort(cmp, s))
  {
    if s != [] {
      var t := StableSort(cmp, s[1..]);
      SortDistinct(cmp, s[1..]);
      StableSortElems(cmp, s[1..]);
      forall i | 0 <= i < |t|
        ensures t[i] != s[0]
      {
        assert t[i] in multiset(t);
        assert t[i] in s[1..];
      }
      MergeDistinct(cmp, [s[0]], t);
    }
  }

  lemma {:induction false} MergeDistinct<T>(cmp: (T, T) -> int, a: seq<T>, b: seq<T>)
    requires Distinct(a) && Distinct(b) && Apart(a, b)
    ensures Distinct(Merge(cmp, a, b))
    decreases |a| + |b|
  {
    if a != [] && b != [] {
      var (h, a', b') := if Le(cmp, a[0], b[0]) then (a[0], a[1..], b) else (b[0], a, b[1..]);
      MergeDistinct(cmp, a', b');
      MergeElems(cmp, a', b');
      var m := Merge(cmp, a', b');
      assert Merge(cmp, a, b) == [h] + m;
      forall i | 0 <= i < |m|
        ensures m[i] != h
      {
        assert m[i] in multiset(m);
        assert m[i] in multiset(a') || m[i] in multiset(b');
      }
    }
  }

  ghost predicate AllApart<T>(runs: seq<seq<T>>) {
    && (forall r | 0 <= r < |runs| :: Distinct(runs[r]))
    && (forall r, q | 0 <= r < q < |runs| :: Apart(runs[r], runs[q]))
  }

  /** No node is in two runs. */
  lemma {:induction false} RunsApart<T>(cmp: (T, T) -> int, t: seq<T>, sizes: seq<nat>)
    requires Sum(sizes) == |t| && Distinct(t)
    ensures AllApart(RunsOf(cmp, t, sizes))
    decreases |sizes|
  {
    if sizes != [] {
      var cut := |t| - sizes[0];
      var (lo, hi) := (t[..cut], t[cut..]);
      var (runs, rest) := (RunsOf(cmp, t, sizes), RunsOf(cmp, lo, sizes[1..]));
      assert runs == [StableSort(cmp, hi)] + rest;
      RunsApart(cmp, lo, sizes[1..]);
      SortDistinct(cmp, hi);
      RunsWithin(cmp, lo, sizes[1..], Elems(lo));
      SortWithin(cmp, hi, Elems(hi));
      forall q | 0 <= q < |rest|
        ensures Apart(StableSort(cmp, hi), rest[q])
      {
        ApartBySets(StableSort(cmp, hi), rest[q], Elems(hi), Elems(lo));
      }
      forall r, q | 0 <= r < q < |runs|
        ensures Apart(runs[r], runs[q])
      {
        assert runs[q] == rest[q - 1];
        if r > 0 {
          assert runs[r] == rest[r - 1];
          assert Apart(rest[r - 1], rest[q - 1]);
        }
      }
    }
  }

  lemma ApartBySets<T>(s: seq<T>, t: seq<T>, d: set<T>, e: set<T>)
    requires Within(s, d) && Within(t, e) && d !! e
    ensures Apart(s, t)
  {
    forall i, j | 0 <= i < |s| && 0 <= j < |t|
      ensures s[i] != t[j]
    {
      assert s[i] in d && t[j] in e;
    }
  }

  lemma RunsCons<T>(cmp: (T, T) -> int, lo: seq<T>, hi: seq<T>, sizes: seq<nat>)
    requires Sum(sizes) == |lo|
    ensures Sum([|hi|] + sizes) == |lo + hi|
    ensures RunsOf(cmp, lo + hi, [|hi|] + sizes) == [StableSort(cmp, hi)] + RunsOf(cmp, lo, sizes)
  {
    assert ([|hi|] + sizes)[1..] == sizes;
    assert (lo + hi)[|lo|..] == hi && (lo + hi)[..|lo|] == lo;
  }

  /** Moving one element to pending adds a run of its own in front. */
  lemma RunsPush<T>(cmp: (T, T) -> int, t: seq<T>, x: T, sizes: seq<nat>)
    requires Sum(sizes) == |t|
    ensures Sum([1] + sizes) == |t + [x]|
    ensures RunsOf(cmp, t + [x], [1] + sizes) == [[x]] + RunsOf(cmp, t, sizes)
  {
    RunsCons(cmp, t, [x], sizes);
    assert StableSort(cmp, [x]) == [x] by {
      assert [x][1..] == [];
    }
  }

  lemma {:induction false} SumMergeAt(sizes: seq<nat>, k: nat)
    requires k + 1 < |sizes| && sizes[k] == sizes[k + 1]
    ensures Sum(MergeAt(sizes, k)) == Sum(sizes)
  {
    if k == 0 {
      assert MergeAt(sizes, 0)[1..] == sizes[1..][1..];
    } else {
      SumMergeAt(sizes[1..], k - 1);
      assert MergeAt(sizes, k)[1..] == MergeAt(sizes[1..], k - 1);
    }
  }

  /** Merging two neighbouring pending runs, older first, is the pending state for the
      enlarged sizes: the merge sorts the joined slice stably. */
  lemma {:induction false} RunsMerge<T>(cmp: (T, T) -> int, t: seq<T>, sizes: seq<nat>, k: nat)
    requires Sum(sizes) == |t| && k + 1 < |sizes| && sizes[k] == sizes[k + 1]
    requires TotalPreorder(cmp, Elems(t))
    ensures Sum(MergeAt(sizes, k)) == |t| && |RunsOf(cmp, t, sizes)| == |sizes|
    ensures RunsOf(cmp, t, MergeAt(sizes, k)) == MergeRunsAt(cmp, RunsOf(cmp, t, sizes), k)
    decreases |sizes|
  {
    SumMergeAt(sizes, k);
    RunLengths(cmp, t, sizes);
    if k == 0 {
      RunsMergeNewest(cmp, t, sizes);
    } else {
      hide RunsOf, MergeAt, MergeRunsAt;
      var cut := |t| - sizes[0];
      SubPreorder(cmp, Elems(t[..cut]), Elems(t));
      RunLengths(cmp, t[..cut], sizes[1..]);
      RunsMerge(cmp, t[..cut], sizes[1..], k - 1);
      RunsMergeLater(cmp, t[..cut], t[cut..], sizes, k);
      assert t[..cut] + t[cut..] == t;
    }
  }

  lemma RunsMergeNewest<T>(cmp: (T, T) -> int, t: seq<T>, sizes: seq<nat>)
    requires Sum(sizes) == |t| && 1 < |sizes| && sizes[0] == sizes[1] && TotalPreorder(cmp, Elems(t))
    ensures Sum(MergeAt(sizes, 0)) == |t| && |RunsOf(cmp, t, sizes)| >= 2
    ensures RunsOf(cmp, t, MergeAt(sizes, 0)) == MergeRunsAt(cmp, RunsOf(cmp, t, sizes), 0)
  {
    hide RunsOf, MergeAt, MergeRunsAt, TotalPreorder;
    var (n, rest) := (sizes[0], sizes[2..]);
    assert sizes[1..][1..] == rest && Sum(sizes) == n + (n + Sum(rest));
    var cut := |t| - n;
    SlicesOf(t, cut - n, cut);
    assert [n] + ([n] + rest) == sizes;
    RunsMergeZero(cmp, t[..cut - n], t[cut - n..cut], t[cut..], rest);
  }

  lemma RunsMergeZero<T>(cmp: (T, T) -> int, lo: seq<T>, mid: seq<T>, hi: seq<T>, rest: seq<nat>)
    requires |hi| == |mid| && Sum(rest) == |lo| && TotalPreorder(cmp, Elems(lo + mid + hi))
    ensures var (sizes, t) := ([|hi|] + ([|mid|] + rest), lo + mid + hi);
            && Sum(sizes) == Sum(MergeAt(sizes, 0)) == |t| && |RunsOf(cmp, t, sizes)| >= 2
            && RunsOf(cmp, t, MergeAt(sizes, 0)) == MergeRunsAt(cmp, RunsOf(cmp, t, sizes), 0)
  {
    hide TotalPreorder, StableSort, Merge, RunsOf, Sum, MergeAt, ReplaceTwo;
    SlicePreorder(cmp, lo, mid, hi);
    MergeOfSorts(cmp, mid, hi);
    RunsMergeFront(cmp, lo, mid, hi, rest);
    ReplaceTwoFront(StableSort(cmp, hi), StableSort(cmp, mid), RunsOf(cmp, lo, rest), StableSort(cmp, mid + hi));
  }

  lemma SlicePreorder<T>(cmp: (T, T) -> int, lo: seq<T>, mid: seq<T>, hi: seq<T>)
    requires TotalPreorder(cmp, Elems(lo + mid + hi))
    ensures TotalPreorder(cmp, Elems(mid + hi))
  {
    assert forall x | x in mid + hi :: x in lo + mid + hi;
    SubPreorder(cmp, Elems(mid + hi), Elems(lo + mid + hi));
  }

  lemma RunsMergeLater<T>(cmp: (T, T) -> int, lo: seq<T>, hi: seq<T>, sizes: seq<nat>, k: nat)
    requires 0 < k && k + 1 < |sizes| && sizes[0] == |hi|
    requires Sum(sizes[1..]) == Sum(MergeAt(sizes[1..], k - 1)) == |lo|
    requires |RunsOf(cmp, lo, sizes[1..])| == |sizes| - 1
    requires RunsOf(cmp, lo, MergeAt(sizes[1..], k - 1)) == MergeRunsAt(cmp, RunsOf(cmp, lo, sizes[1..]), k - 1)
    ensures Sum(sizes) == Sum(MergeAt(sizes, k)) == |lo + hi| && |RunsOf(cmp, lo + hi, sizes)| == |sizes|
    ensures RunsOf(cmp, lo + hi, MergeAt(sizes, k)) == MergeRunsAt(cmp, RunsOf(cmp, lo + hi, sizes), k)
  {
    var (rest, later) := (RunsOf(cmp, lo, sizes[1..]), sizes[1..]);
    RunsCons(cmp, lo, hi, later);
    RunsCons(cmp, lo, hi, MergeAt(later, k - 1));
    assert [|hi|] + later == sizes;
    ReplaceTwoCons(|hi|, later, k - 1, 2 * later[k - 1]);
    ReplaceTwoCons(StableSort(cmp, hi), rest, k - 1, Merge(cmp, rest[k], rest[k - 1]));
  }

  lemma RunsMergeFront<T>(cmp: (T, T) -> int, lo: seq<T>, mid: seq<T>, hi: seq<T>, rest: seq<nat>)
    requires |hi| == |mid| && Sum(rest) == |lo|
    ensures var (sizes, t) := ([|hi|] + ([|mid|] + rest), lo + mid + hi);
            && Sum(sizes) == Sum(MergeAt(sizes, 0)) == |t|
            && RunsOf(cmp, t, sizes) == [StableSort(cmp, hi)] + ([StableSort(cmp, mid)] + RunsOf(cmp, lo, rest))
            && RunsOf(cmp, t, MergeAt(sizes, 0)) == [StableSort(cmp, mid + hi)] + RunsOf(cmp, lo, rest)
  {
    ConcatAssociates(lo, mid, hi);
    RunsCons(cmp, lo, mid, rest);
    RunsCons(cmp, lo + mid, hi, [|mid|] + rest);
    ReplaceTwoFront(|hi|, |mid|, rest, 2 * |hi|);
    RunsCons(cmp, lo, mid + hi, rest);
  }

  lemma ConcatAssociates<T>(a: seq<T>, b: seq<T>, c: seq<T>)
    ensures a + (b + c) == a + b + c
  {
  }

  /** One round on the pending runs: the merge the counter asks for. */
  function MergedFor<T>(cmp: (T, T) -> int, count: nat, runs: seq<seq<T>>): seq<seq<T>>
    requires HigherBits(count) != 0 ==> TrailingOnes(count) + 1 < |runs|
  {
    if HigherBits(count) == 0 then runs else MergeRunsAt(cmp, runs, TrailingOnes(count))
  }

  /** The invariant of the main loop is kept by a round: after the merge and the push the
      pending runs are again the sorted slices prescribed by the counter. The runs that are
      merged exist and are equally long. */
  lemma RoundRuns<T>(cmp: (T, T) -> int, s: seq<T>, count: nat)
    requires count < |s| && TotalPreorder(cmp, Elems(s))
    ensures Sum(Sizes(count)) == count && Sum(Sizes(count + 1)) == count + 1
    ensures var (runs, k) := (RunsOf(cmp, s[..count], Sizes(count)), TrailingOnes(count));
            && (if HigherBits(count) == 0 then k == |runs| else k + 1 < |runs| && |runs[k]| == |runs[k + 1]|)
            && RunsOf(cmp, s[..count + 1], Sizes(count + 1)) == [[s[count]]] + MergedFor(cmp, count, runs)
  {
    hide *;
    var (t, sizes, k) := (s[..count], Sizes(count), TrailingOnes(count));
    SizesSum(count);
    SizesSum(count + 1);
    RoundSizes(count);
    SelectedIs(count);
    RunLengths(cmp, t, sizes);
    TakeNext(s, count);
    if HigherBits(count) == 0 {
      MergedForIs(cmp, count, RunsOf(cmp, t, sizes));
      RunsPush(cmp, t, s[count], sizes);
    } else {
      TakePreorder(cmp, s, count);
      RunsMerge(cmp, t, sizes, k);
      MergedForIs(cmp, count, RunsOf(cmp, t, sizes));
      RunsPush(cmp, t, s[count], MergeAt(sizes, k));
    }
  }

  lemma SelectedIs(count: nat)
    requires Selected(count)
    ensures var (k, s) := (TrailingOnes(count), Sizes(count));
            if HigherBits(count) == 0
            then k == |s| && Sizes(count + 1) == [1] + s
            else k + 1 < |s| && s[k] == s[k + 1] && Sizes(count + 1) == [1] + MergeAt(s, k)
  {
    hide Sizes, TrailingOnes, HigherBits, MergeAt;
  }

  lemma TakeNext<T>(s: seq<T>, count: nat)
    requires count < |s|
    ensures |s[..count]| == count && s[..count + 1] == s[..count] + [s[count]]
  {
  }

  lemma TakePreorder<T>(cmp: (T, T) -> int, s: seq<T>, count: nat)
    requires count <= |s| && TotalPreorder(cmp, Elems(s))
    ensures TotalPreorder(cmp, Elems(s[..count]))
  {
    assert Within(s[..count], Elems(s));
    SubPreorder(cmp, Elems(s[..count]), Elems(s));
  }

  lemma MergedForIs<T>(cmp: (T, T) -> int, count: nat, runs: seq<seq<T>>)
    requires HigherBits(count) != 0 ==> TrailingOnes(count) + 1 < |runs|
    ensures MergedFor(cmp, count, runs) ==
            if HigherBits(count) == 0 then runs else MergeRunsAt(cmp, runs, TrailingOnes(count))
  {
    hide HigherBits, TrailingOnes, MergeRunsAt;
  }

  /** The number of runs pending at the end of the input is at least two. */
  lemma TwoRunsAtLeast(count: nat)
    requires count >= 2
    ensures |Sizes(count)| >= 2
  {
    SizesSum(count);
    var rest := Sizes(count)[1..];
    assert Sum(rest) == count - 1;
  }

  /** One step of the closing merges: the front run of what is left covers the slice just
      before the part already sorted, and merging the two sorts both. */
  lemma ClosingStep<T>(cmp: (T, T) -> int, s: seq<T>, cut: nat, sizes: seq<nat>)
    requires cut <= |s| && Sum(sizes) == cut && sizes != [] && TotalPreorder(cmp, Elems(s))
    ensures var lo := cut - sizes[0];
            && lo == Sum(sizes[1..])
            && RunsOf(cmp, s[..cut], sizes) == [StableSort(cmp, s[lo..cut])] + RunsOf(cmp, s[..lo], sizes[1..])
            && |StableSort(cmp, s[lo..cut])| == sizes[0]
            && Merge(cmp, StableSort(cmp, s[lo..cut]), StableSort(cmp, s[cut..])) == StableSort(cmp, s[lo..])
  {
    var lo := cut - sizes[0];
    SlicesOf(s, lo, cut);
    SlicePreorder(cmp, s[..lo], s[lo..cut], s[cut..]);
    MergeOfSorts(cmp, s[lo..cut], s[cut..]);
    StableSortElems(cmp, s[lo..cut]);
  }

  lemma SlicesOf<T>(s: seq<T>, lo: nat, cut: nat)
    requires lo <= cut <= |s|
    ensures s[..cut][lo..] == s[lo..cut] && s[..cut][..lo] == s[..lo]
    ensures s[lo..cut] + s[cut..] == s[lo..] && s[..lo] + s[lo..cut] + s[cut..] == s
  {
  }
}
