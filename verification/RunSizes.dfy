/**
 The shape of the pending "list of lists" of `list_sort` (osal/mpp_list.c:542-597):
 which run sizes are pending after `count` elements have been taken, newest run first.
 */
module RunSizes {

  function Doubled(s: seq<nat>): (r: seq<nat>)
    ensures |r| == |s| && forall i | 0 <= i < |s| :: r[i] == 2 * s[i]
  {
    seq(|s|, i requires 0 <= i < |s| => 2 * s[i])
  }

  /** Sizes of the pending runs once `count` elements have been moved to pending. */
  function Sizes(count: nat): (r: seq<nat>)
    ensures count > 0 ==> |r| > 0 && r[0] == 1
  {
    if count == 0 then []
    else if count % 2 == 1 then [1] + Doubled(Sizes(count / 2))
    else [1, 1] + Doubled(Sizes(count / 2)[1..])
  }

  /** What the loop over `bits` computes: how often `tail` is advanced, i.e. the position of
      the least significant clear bit of `count`. */
  function TrailingOnes(count: nat): nat {
    if count % 2 == 1 then 1 + TrailingOnes(count / 2) else 0
  }

  /** What is left in `bits` when that loop ends. */
  function HigherBits(count: nat): nat {
    if count % 2 == 1 then HigherBits(count / 2) else count
  }

  function Sum(s: seq<nat>): nat {
    if s == [] then 0 else s[0] + Sum(s[1..])
  }

  function Pow2(k: nat): nat {
    if k == 0 then 1 else 2 * Pow2(k - 1)
  }

  /** Positions k and k + 1 replaced by the single entry x. */
  function ReplaceTwo<T>(s: seq<T>, k: nat, x: T): (r: seq<T>)
    requires k + 1 < |s|
    ensures |r| == |s| - 1 && r[k] == x
  {
    s[..k] + [x] + s[k + 2..]
  }

  lemma ReplaceTwoCons<T>(h: T, s: seq<T>, k: nat, x: T)
    requires k + 1 < |s|
    ensures ReplaceTwo([h] + s, k + 1, x) == [h] + ReplaceTwo(s, k, x)
  {
    assert ([h] + s)[..k + 1] == [h] + s[..k];
    assert ([h] + s)[k + 3..] == s[k + 2..];
  }

  /** Two neighbouring runs of equal size replaced by one of twice the size. */
  function MergeAt(sizes: seq<nat>, k: nat): seq<nat>
    requires k + 1 < |sizes|
  {
    ReplaceTwo(sizes, k, 2 * sizes[k])
  }

  lemma MergeAtDoubled(h: seq<nat>, k: nat)
    requires k + 1 < |h|
    ensures MergeAt([1] + Doubled(h), k + 1) == [1] + Doubled(MergeAt(h, k))
  {
    ReplaceTwoCons(1, Doubled(h), k, 2 * Doubled(h)[k]);
    assert ReplaceTwo(Doubled(h), k, 2 * Doubled(h)[k]) == Doubled(MergeAt(h, k));
  }

  /** What the lowest clear bit of `count` selects: nothing if no higher bit is set, otherwise
      two neighbouring runs of equal size; and what the sizes are one element later. */
  ghost predicate Selected(count: nat) {
    var (k, s) := (TrailingOnes(count), Sizes(count));
    if HigherBits(count) == 0
    then k == |s| && Sizes(count + 1) == [1] + s
    else k + 1 < |s| && s[k] == s[k + 1] && Sizes(count + 1) == [1] + MergeAt(s, k)
  }

  /** One round replaces the two runs chosen by the lowest clear bit by one of twice the size
      and puts a run of size one in front. The two runs exist and are equally long. */
  lemma {:induction false} RoundSizes(count: nat)
    ensures Selected(count)
  {
    if count == 0 {
    } else if count % 2 == 0 {
      RoundEven(count);
    } else {
      RoundSizes(count / 2);
      RoundOdd(count);
    }
  }

  lemma SizesOdd(count: nat)
    requires count % 2 == 1
    ensures Sizes(count) == [1] + Doubled(Sizes(count / 2))
  {
  }

  lemma SizesEven(count: nat)
    requires count > 0 && count % 2 == 0
    ensures Sizes(count) == [1] + ([1] + Doubled(Sizes(count / 2)[1..]))
  {
    TwoOnes(Doubled(Sizes(count / 2)[1..]));
  }

  lemma TwoOnes(s: seq<nat>)
    ensures [1] + ([1] + s) == [1, 1] + s
  {
  }

  lemma RoundOdd(count: nat)
    requires count % 2 == 1 && Selected(count / 2)
    ensures Selected(count)
  {
    hide Sizes, MergeAt, Doubled;
    SizesOdd(count);
    SizesEven(count + 1);
    assert (count + 1) / 2 == count / 2 + 1;
    var (m, k) := (count / 2, TrailingOnes(count / 2));
    var h := Sizes(m);
    if HigherBits(m) == 0 {
      assert Sizes(m + 1)[1..] == h;
    } else {
      assert Sizes(m + 1)[1..] == MergeAt(h, k);
      MergeAtDoubled(h, k);
      assert Sizes(count)[k + 1] == 2 * h[k] && Sizes(count)[k + 2] == 2 * h[k + 1];
    }
  }

  lemma RoundEven(count: nat)
    requires count > 0 && count % 2 == 0
    ensures Selected(count)
  {
    hide Sizes, ReplaceTwo, Doubled;
    var h := Sizes(count / 2);
    SizesEven(count);
    SizesOdd(count + 1);
    assert (count + 1) / 2 == count / 2;
    DoubledHead(h);
    ReplaceTwoFront(1, 1, Doubled(h[1..]), 2);
  }

  lemma DoubledHead(h: seq<nat>)
    requires h != []
    ensures Doubled(h) == [2 * h[0]] + Doubled(h[1..])
  {
  }

  lemma ReplaceTwoFront<T>(a: T, b: T, s: seq<T>, x: T)
    ensures ReplaceTwo([a] + ([b] + s), 0, x) == [x] + s
  {
    assert ([a] + ([b] + s))[2..] == s;
  }

  lemma {:induction false} SumDoubled(s: seq<nat>)
    ensures Sum(Doubled(s)) == 2 * Sum(s)
  {
    if s != [] {
      SumDoubled(s[1..]);
      assert Doubled(s)[1..] == Doubled(s[1..]);
    }
  }

  /** No element is lost: the run sizes add up to `count`. */
  lemma {:induction false} SizesSum(count: nat)
    ensures Sum(Sizes(count)) == count
  {
    if count > 0 {
      var h := Sizes(count / 2);
      SizesSum(count / 2);
      SumDoubled(h);
      if count % 2 == 1 {
        assert Sizes(count)[1..] == Doubled(h);
      } else {
        SumDoubled(h[1..]);
        assert Sizes(count)[1..][1..] == Doubled(h[1..]);
        assert Sizes(count)[1..][0] == 1;
      }
    }
  }

  /** "Each of the sorted sublists is power-of-two in size." */
  lemma {:induction false} SizeIsPow2(count: nat, i: nat) returns (k: nat)
    requires i < |Sizes(count)|
    ensures Sizes(count)[i] == Pow2(k)
  {
    if i < 2 - count % 2 {
      k := 0;
    } else {
      k := SizeIsPow2(count / 2, i - 1);
      k := k + 1;
    }
  }

  lemma {:induction false} SizesStep(count: nat)
    ensures forall i | 0 <= i < |Sizes(count)| - 1 :: Sizes(count)[i] <= Sizes(count)[i + 1]
    ensures forall i | 0 <= i < |Sizes(count)| - 2 :: Sizes(count)[i] < Sizes(count)[i + 2]
  {
    if count > 0 {
      SizesStep(count / 2);
      SizesPositive(count / 2);
    }
  }

  lemma {:induction false} SizesPositive(count: nat)
    ensures forall i | 0 <= i < |Sizes(count)| :: Sizes(count)[i] >= 1
  {
    if count > 0 {
      SizesPositive(count / 2);
    }
  }

  /** "Sublists are sorted by size, smallest at front. There are zero to two sublists of each
      size." */
  lemma SizesOrdered(count: nat, i: nat, j: nat)
    requires i <= j < |Sizes(count)|
    ensures Sizes(count)[i] <= Sizes(count)[j]
    ensures j >= i + 2 ==> Sizes(count)[i] < Sizes(count)[j]
    decreases j - i
  {
    SizesStep(count);
    if i + 2 < j {
      SizesOrdered(count, i, j - 1);
    } else if i < j {
    }
  }

  /** The total size of the i newest runs. */
  function Newest(count: nat, i: nat): nat
    requires i <= |Sizes(count)|
  {
    Sum(Sizes(count)[..i])
  }

  lemma {:induction false} SumTake(s: seq<nat>, i: nat)
    requires i < |s|
    ensures Sum(s[..i + 1]) == Sum(s[..i]) + s[i]
  {
    if i == 0 {
      assert s[..1] == [s[0]] + [] && s[..0] == [];
      SumCons(s[0], []);
    } else {
      SumTake(s[1..], i - 1);
      assert s[..i + 1][1..] == s[1..][..i];
      assert s[..i][1..] == s[1..][..i - 1];
    }
  }

  lemma NewestNext(count: nat, i: nat)
    requires i < |Sizes(count)|
    ensures Newest(count, i + 1) == Newest(count, i) + Sizes(count)[i]
  {
    SumTake(Sizes(count), i);
  }

  lemma NewestOdd(count: nat, i: nat)
    requires count % 2 == 1 && 1 <= i <= |Sizes(count)|
    ensures i - 1 <= |Sizes(count / 2)| && Newest(count, i) == 1 + 2 * Newest(count / 2, i - 1)
  {
    var h := Sizes(count / 2);
    assert Sizes(count)[..i][1..] == Doubled(h[..i - 1]);
    SumDoubled(h[..i - 1]);
  }

  lemma NewestEven(count: nat, i: nat)
    requires count > 0 && count % 2 == 0 && 2 <= i <= |Sizes(count)|
    ensures i - 1 <= |Sizes(count / 2)| && Newest(count, i) == 2 * Newest(count / 2, i - 1)
  {
    hide Sum, Sizes;
    SizesEven(count);
    var h := Sizes(count / 2);
    var t := h[1..][..i - 2];
    assert Sizes(count)[..i] == [1] + ([1] + Doubled(t));
    SumCons(1, [1] + Doubled(t));
    SumCons(1, Doubled(t));
    SumDoubled(t);
    assert h[..i - 1] == [1] + t;
    SumCons(1, t);
  }

  lemma SumCons(x: nat, s: seq<nat>)
    ensures Sum([x] + s) == x + Sum(s)
  {
    assert ([x] + s)[1..] == s;
  }

  /** After the input ends the runs are merged front to back; the accumulated list and the next
      run never differ by more than a factor of two ("at worst 2:1"). */
  lemma {:induction false} FinalMergeBalance(count: nat, i: nat)
    requires 1 <= i < |Sizes(count)|
    ensures Sizes(count)[i] <= 2 * Newest(count, i)
    ensures Newest(count, i) < 2 * Sizes(count)[i]
  {
    hide Newest, Sum;
    if count % 2 == 1 {
      NewestOdd(count, i);
    } else if i > 1 {
      NewestEven(count, i);
    }
    if i > 1 {
      FinalMergeBalance(count / 2, i - 1);
    } else {
      NewestFirst(count);
      NewestFirst(count / 2);
    }
  }

  lemma NewestFirst(count: nat)
    ensures Newest(count, 0) == 0
    ensures count > 0 ==> Newest(count, 1) == 1
  {
    var s := Sizes(count);
    assert s[..0] == [];
    if count > 0 {
      assert s[..1] == [1] + [];
      SumCons(1, []);
    }
  }

  // ---- All merges of a sort

  /** The lengths of the runs joined while n elements arrive, in the order of the merges. */
  function CountingMerges(n: nat): seq<(nat, nat)> {
    if n == 0 then [] else CountingMerges(n - 1) + RoundMerge(n - 1)
  }

  /** The merge of the round that follows `count` elements, if there is one. */
  function RoundMerge(count: nat): seq<(nat, nat)> {
    RoundSizes(count);
    if HigherBits(count) == 0 then []
    else [(Sizes(count)[TrailingOnes(count) + 1], Sizes(count)[TrailingOnes(count)])]
  }

  /** The lengths joined at the end: each remaining run with everything newer. */
  function ClosingMerges(n: nat): seq<(nat, nat)> {
    seq(if n == 0 then 0 else |Sizes(n)| - 1, i requires 0 <= i < |Sizes(n)| - 1 => (Sizes(n)[i + 1], Newest(n, i + 1)))
  }

  lemma ClosingMerge(n: nat, j: nat)
    requires n > 0 && 1 <= j < |Sizes(n)|
    ensures |ClosingMerges(n)| == |Sizes(n)| - 1
    ensures ClosingMerges(n)[..j] == ClosingMerges(n)[..j - 1] + [(Sizes(n)[j], Newest(n, j))]
  {
    hide Sizes, Newest;
  }

  lemma NoSizes()
    ensures Sizes(0) == []
  {
  }

  lemma {:induction false} CountingMergesEqual(n: nat)
    ensures forall m | m in CountingMerges(n) :: m.0 == m.1
    ensures |CountingMerges(n)| + |Sizes(n)| == n
  {
    hide Sizes, TrailingOnes, HigherBits;
    if n > 0 {
      CountingMergesEqual(n - 1);
      RoundSizes(n - 1);
    } else {
      NoSizes();
    }
  }

  lemma ClosingMergesBalanced(n: nat)
    ensures forall m | m in ClosingMerges(n) :: m.0 <= 2 * m.1 && m.1 <= 2 * m.0
  {
    hide Sizes, Newest;
    forall m | m in ClosingMerges(n)
      ensures m.0 <= 2 * m.1 && m.1 <= 2 * m.0
    {
      var i: nat :| i < |ClosingMerges(n)| && ClosingMerges(n)[i] == m;
      FinalMergeBalance(n, i + 1);
    }
  }

  /** "At worst 2:1" and balanced otherwise: sorting n elements takes n - 1 merges, those made
      while elements arrive join equally long runs, those at the end runs within a factor of
      two. */
  lemma MergesBalanced(n: nat)
    ensures forall m | m in CountingMerges(n) :: m.0 == m.1
    ensures forall m | m in ClosingMerges(n) :: m.0 <= 2 * m.1 && m.1 <= 2 * m.0
    ensures n > 0 ==> |CountingMerges(n)| + |ClosingMerges(n)| == n - 1
  {
    CountingMergesEqual(n);
    ClosingMergesBalanced(n);
    hide Sizes, CountingMerges;
  }
}
