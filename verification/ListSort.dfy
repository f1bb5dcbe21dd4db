/**
 `list_sort` (osal/mpp_list.c:447-598): a bottom-up merge sort of a circular doubly linked
 list that borrows the `prev` links as the spine of a list of pending runs.
 */
module ListSort {
  import opened StableMerge
  import opened RunSizes
  import opened PendingRuns

  /** A list node or list head; the payload is whatever `cmp` looks at. */
  class ListHead {
    var prev: ListHead?
    var next: ListHead?
  }

  type Cmp = (ListHead, ListHead) -> int

  /** Consecutive nodes are joined by `next`. */
  ghost predicate Linked(s: seq<ListHead>)
    reads s`next
  {
    forall i | 0 <= i < |s| - 1 :: s[i].next == s[i + 1]
  }

  /** s is a null-terminated singly linked list; `prev` is not maintained. */
  ghost predicate Chain(s: seq<ListHead>)
    reads s`next
  {
    s != [] && Linked(s) && s[|s| - 1].next == null
  }

  /** s is the content of the circular doubly linked list at head: `next` and `prev` are
      inverse to each other all the way round. */
  ghost predicate Ring(head: ListHead, s: seq<ListHead>)
    reads head, s
  {
    && Distinct(s) && head !in s
    && head.next == (if s == [] then head else s[0])
    && head.prev == (if s == [] then head else s[|s| - 1])
    && (forall i | 0 <= i < |s| :: s[i].next == if i + 1 < |s| then s[i + 1] else head)
    && (forall i | 0 <= i < |s| :: s[i].prev == if i > 0 then s[i - 1] else head)
  }

  /** The nodes of s from position i on form a null-terminated list. */
  ghost predicate ChainFrom(s: seq<ListHead>, i: nat)
    reads (if i < |s| then s[i..] else [])`next
  {
    i < |s| && (forall k | i <= k < |s| - 1 :: s[k].next == s[k + 1]) && s[|s| - 1].next == null
  }

  /** What merging the remainders of the two runs gives. */
  ghost function MergeFrom(cmp: Cmp, fs: seq<ListHead>, i: nat, ss: seq<ListHead>, j: nat): seq<ListHead>
    requires i <= |fs| && j <= |ss|
  {
    Merge(cmp, fs[i..], ss[j..])
  }

  /** A merge in progress: the nodes of `done` are linked up and collected in `used`; fs from
      position i on and ss from position j on are still to come. */
  ghost predicate Merging(done: seq<ListHead>, used: set<ListHead>,
                          fs: seq<ListHead>, i: nat, ss: seq<ListHead>, j: nat)
    reads done`next, fs`next, ss`next
  {
    && Linked(done)
    && (forall k | 0 <= k < |done| :: done[k] in used)
    && (forall k | 0 <= k < |done| - 1 :: done[k] != done[|done| - 1])
    && (forall k | i <= k < |fs| :: fs[k] !in used)
    && (forall k | j <= k < |ss| :: ss[k] !in used)
    && ChainFrom(fs, i) && ChainFrom(ss, j)
  }

  ghost predicate AllIn(s: seq<ListHead>, nodes: set<ListHead>) {
    forall k | 0 <= k < |s| :: s[k] in nodes
  }

  /** No node occurs twice in the two runs. */
  ghost predicate Unshared(fs: seq<ListHead>, ss: seq<ListHead>) {
    && (forall i, j | 0 <= i < j < |fs| :: fs[i] != fs[j])
    && (forall i, j | 0 <= i < j < |ss| :: ss[i] != ss[j])
    && (forall i, j | 0 <= i < |fs| && 0 <= j < |ss| :: fs[i] != ss[j])
  }

  lemma MergeStep(cmp: Cmp, done: seq<ListHead>, fs: seq<ListHead>, i: nat, ss: seq<ListHead>, j: nat)
    requires i < |fs| && j < |ss|
    ensures Le(cmp, fs[i], ss[j]) ==>
              done + MergeFrom(cmp, fs, i, ss, j) == done + [fs[i]] + MergeFrom(cmp, fs, i + 1, ss, j)
    ensures !Le(cmp, fs[i], ss[j]) ==>
              done + MergeFrom(cmp, fs, i, ss, j) == done + [ss[j]] + MergeFrom(cmp, fs, i, ss, j + 1)
    ensures MergeFrom(cmp, fs, |fs|, ss, j) == ss[j..] && MergeFrom(cmp, fs, i, ss, |ss|) == fs[i..]
  {
    assert fs[i..][1..] == fs[i + 1..] && ss[j..][1..] == ss[j + 1..];
    assert fs[|fs|..] == [] && ss[|ss|..] == [];
  }

  lemma MergingInit(cmp: Cmp, head: ListHead, fs: seq<ListHead>, ss: seq<ListHead>)
    requires Chain(fs) && Chain(ss)
    ensures Merging([], {}, fs, 0, ss, 0) && TailOf(head, null, [])
    ensures [] + MergeFrom(cmp, fs, 0, ss, 0) == Merge(cmp, fs, ss)
  {
    assert fs[0..] == fs && ss[0..] == ss;
  }

  lemma SwapRoles(done: seq<ListHead>, used: set<ListHead>, fs: seq<ListHead>, i: nat, ss: seq<ListHead>, j: nat)
    requires Unshared(fs, ss) && Merging(done, used, fs, i, ss, j)
    ensures Unshared(ss, fs) && Merging(done, used, ss, j, fs, i)
  {
  }

  lemma AdvanceFirst(done: seq<ListHead>, used: set<ListHead>, fs: seq<ListHead>, i: nat, ss: seq<ListHead>, j: nat)
    requires i + 1 < |fs| && Merging(done, used, fs, i, ss, j)
    requires Linked(done + [fs[i]]) && Unshared(fs, ss)
    ensures Merging(done + [fs[i]], used + {fs[i]}, fs, i + 1, ss, j)
  {
  }

  /** Links the remainder of the other run behind x, the last node taken: `*tail = rest`. */
  method Close(x: ListHead, first: ListHead, ghost done: seq<ListHead>, ghost s: seq<ListHead>, ghost i: nat)
    requires Linked(done + [x]) && x !in done
    requires ChainFrom(s, i) && s[i] == first && (forall k | i <= k < |s| :: s[k] != x)
    modifies x`next
    ensures Chain(done + [x] + s[i..])
  {
    x.next := first;
    ghost var rs := done + [x] + s[i..];
    assert forall k | 0 <= k <= |done| :: (done + [x])[k] == rs[k];
  }

  /** Where the next link is to be written: `tail` refers to the local `head` (null here) or
      to the `next` field of the last node linked. */
  ghost predicate TailOf(head: ListHead, tail: ListHead?, done: seq<ListHead>) {
    if tail == null then done == [] else done != [] && tail == done[|done| - 1] && head == done[0]
  }

  /** Links x, the next node of fs, behind everything linked so far and steps to its
      successor: `*tail = x; tail = &x->next; x = x->next`. */
  method Take(head: ListHead, tail: ListHead?, x: ListHead, ghost done: seq<ListHead>, ghost used: set<ListHead>,
              ghost fs: seq<ListHead>, ghost i: nat, ghost ss: seq<ListHead>, ghost j: nat)
    returns (newHead: ListHead, rest: ListHead?, ghost newDone: seq<ListHead>, ghost newUsed: set<ListHead>)
    requires Merging(done, used, fs, i, ss, j) && x == fs[i]
    requires Unshared(fs, ss)
    requires TailOf(head, tail, done)
    modifies (if tail == null then {} else {tail})`next
    ensures newDone == done + [x] && x !in done && TailOf(newHead, x, newDone)
    ensures rest == null <==> i + 1 == |fs|
    ensures rest != null ==> rest == fs[i + 1] && Merging(newDone, newUsed, fs, i + 1, ss, j)
    ensures rest == null ==> Linked(newDone) && ChainFrom(ss, j) && (forall k | j <= k < |ss| :: ss[k] != x)
  {
    newDone, newUsed := done + [x], used + {x};
    if tail == null {
      newHead := x;
    } else {
      newHead := head;
      tail.next := x;
    }
    rest := x.next;
    assert i + 1 < |fs| ==> fs[i].next == fs[i + 1];
    if rest != null {
      AdvanceFirst(done, used, fs, i, ss, j);
    }
  }

  /** `merge`: joins two runs into one, older run first, relinking `next` in place. */
  method MergeRuns(cmp: Cmp, first: ListHead, second: ListHead,
                   ghost fs: seq<ListHead>, ghost ss: seq<ListHead>, ghost nodes: set<ListHead>)
    returns (head: ListHead, ghost rs: seq<ListHead>)
    requires Chain(fs) && fs[0] == first && AllIn(fs, nodes)
    requires Chain(ss) && ss[0] == second && AllIn(ss, nodes)
    requires Unshared(fs, ss)
    modifies nodes`next
    ensures rs == Merge(cmp, fs, ss)
    ensures Chain(rs) && rs[0] == head
  {
    hide Merging, Unshared, ChainFrom, Linked, MergeFrom, TailOf;  // used through the lemmas only
    var a, b := first, second;
    var tail: ListHead? := null;
    head := first;
    ghost var done: seq<ListHead>, used: set<ListHead>, i: nat, j: nat := [], {}, 0, 0;
    MergingInit(cmp, head, fs, ss);
    while true
      invariant i < |fs| && j < |ss| && Merging(done, used, fs, i, ss, j)
      invariant a == fs[i] && b == ss[j]
      invariant TailOf(head, tail, done) && (tail != null ==> tail in nodes)
      invariant done + MergeFrom(cmp, fs, i, ss, j) == Merge(cmp, fs, ss)
      decreases |fs| - i + |ss| - j
    {
      MergeStep(cmp, done, fs, i, ss, j);
      var rest;
      ghost var before := done;
      if cmp(a, b) <= 0 {
        head, rest, done, used := Take(head, tail, a, done, used, fs, i, ss, j);
        tail := a;
        if rest == null {
          Close(tail, b, before, ss, j);
          return head, done + ss[j..];
        }
        a, i := rest, i + 1;
      } else {
        SwapRoles(done, used, fs, i, ss, j);
        head, rest, done, used := Take(head, tail, b, done, used, ss, j, fs, i);
        tail := b;
        if rest == null {
          Close(tail, a, before, fs, i);
          return head, done + fs[i..];
        }
        b, j := rest, j + 1;
        SwapRoles(done, used, ss, j, fs, i);
      }
    }
  }

  /** The prev-linked list of runs: `first` heads the newest run, whose head leads by `prev`
      to the head of the next older one. */
  ghost predicate Spine(first: ListHead?, runs: seq<seq<ListHead>>, nodes: set<ListHead>)
    reads nodes
  {
    && (forall r | 0 <= r < |runs| :: AllIn(runs[r], nodes) && runs[r] != [] && runs[r][0] in nodes && Chain(runs[r]))
    && first == (if runs == [] then null else runs[0][0])
    && (forall r | 0 <= r < |runs| - 1 :: runs[r][0].prev == runs[r + 1][0])
    && (runs != [] ==> runs[|runs| - 1][0].prev == null)
  }

  /** A spine whose runs k and k + 1 have just been merged into one chain that is not yet
      installed: their links are in flux, everything else is as it was. */
  ghost predicate Unspliced(first: ListHead?, runs: seq<seq<ListHead>>, k: nat, merged: seq<ListHead>, nodes: set<ListHead>)
    reads nodes
  {
    && k + 1 < |runs| && merged != []
    && (forall r | 0 <= r < |runs| :: AllIn(runs[r], nodes) && runs[r] != [] && runs[r][0] in nodes)
    && (forall r | 0 <= r < |runs| && r != k && r != k + 1 :: Chain(runs[r]) && runs[r][0] != merged[0])
    && AllIn(merged, nodes) && Chain(merged)
    && first == runs[0][0]
    && (forall r | 0 <= r < |runs| - 1 :: runs[r][0].prev == runs[r + 1][0])
    && runs[|runs| - 1][0].prev == null
  }

  /** "Install the merged result in place of the inputs": `a->prev = b->prev; *tail = a`. */
  method Install(pending: ListHead, tail: ListHead?, a: ListHead, b: ListHead,
                 ghost runs: seq<seq<ListHead>>, ghost k: nat, ghost merged: seq<ListHead>, ghost nodes: set<ListHead>)
    returns (newPending: ListHead)
    requires Unspliced(pending, runs, k, merged, nodes)
    requires forall r, q | 0 <= r < q < |runs| :: runs[r][0] != runs[q][0]
    requires merged[0] == a && b == runs[k + 1][0] && tail == if k == 0 then null else runs[k - 1][0]
    modifies nodes`prev
    ensures Spine(newPending, ReplaceTwo(runs, k, merged), nodes)
  {
    assert merged[0] in nodes;
    hide Chain, AllIn, ReplaceTwo;
    ReplacedAt(runs, k, merged);
    a.prev := b.prev;
    if tail == null {
      newPending := a;
    } else {
      tail.prev := a;
      newPending := pending;
    }
  }

  lemma ReplacedAt(runs: seq<seq<ListHead>>, k: nat, merged: seq<ListHead>)
    requires k + 1 < |runs|
    ensures var out := ReplaceTwo(runs, k, merged);
            |out| == |runs| - 1
            && forall r | 0 <= r < |out| :: out[r] == if r < k then runs[r] else if r == k then merged else runs[r + 1]
  {
  }

  lemma SpineRun(first: ListHead?, runs: seq<seq<ListHead>>, nodes: set<ListHead>, r: nat)
    requires Spine(first, runs, nodes) && r < |runs|
    ensures runs[r] != [] && runs[r][0] in nodes && Chain(runs[r]) && AllIn(runs[r], nodes)
    ensures runs[r][0].prev == if r + 1 < |runs| then runs[r + 1][0] else null
    ensures r == 0 ==> first == runs[0][0]
  {
  }

  /** "Find the least-significant clear bit in count". The pointer `tail` refers to `pending`
      itself (null here) or to the `prev` field of a run head; the chase never runs off the
      spine. */
  method FindTail(pending: ListHead?, count: nat, ghost runs: seq<seq<ListHead>>, ghost nodes: set<ListHead>)
    returns (tail: ListHead?, bits: nat)
    requires Spine(pending, runs, nodes) && TrailingOnes(count) <= |runs|
    ensures bits == HigherBits(count)
    ensures var k := TrailingOnes(count); if k == 0 then tail == null else runs[k - 1] != [] && tail == runs[k - 1][0]
  {
    hide Spine;
    bits, tail := count, null;
    ghost var k: nat := 0;
    while bits % 2 == 1
      invariant TrailingOnes(count) == k + TrailingOnes(bits) && HigherBits(count) == HigherBits(bits)
      invariant k <= |runs|
      invariant if k == 0 then tail == null else runs[k - 1] != [] && tail == runs[k - 1][0]
      decreases bits
    {
      SpineRun(pending, runs, nodes, k);
      if k > 0 {
        SpineRun(pending, runs, nodes, k - 1);
      }
      tail := if tail == null then pending else tail.prev;
      bits := bits / 2;
      k := k + 1;
    }
  }

  /** "Do the indicated merge": joins the two runs the counter selects, which are equally long,
      and puts the result in their place on the spine. */
  method MergePending(cmp: Cmp, pending: ListHead?, count: nat, ghost runs: seq<seq<ListHead>>, ghost nodes: set<ListHead>)
    returns (newPending: ListHead?)
    requires Spine(pending, runs, nodes) && AllApart(runs)
    requires if HigherBits(count) == 0 then TrailingOnes(count) <= |runs| else TrailingOnes(count) + 1 < |runs|
    modifies nodes
    ensures Spine(newPending, MergedFor(cmp, count, runs), nodes)
  {
    var tail, bits := FindTail(pending, count, runs, nodes);
    newPending := pending;
    if bits != 0 {
      ghost var k := TrailingOnes(count);
      SpineRun(pending, runs, nodes, k);
      SpineRun(pending, runs, nodes, k + 1);
      if k > 0 {
        SpineRun(pending, runs, nodes, k - 1);
      }
      var a: ListHead := if tail == null then pending else tail.prev;
      var b: ListHead := a.prev;
      newPending := MergeAndInstall(cmp, pending, tail, a, b, runs, k, nodes);
    }
  }

  method MergeAndInstall(cmp: Cmp, pending: ListHead, tail: ListHead?, a: ListHead, b: ListHead,
                         ghost runs: seq<seq<ListHead>>, ghost k: nat, ghost nodes: set<ListHead>)
    returns (newPending: ListHead)
    requires Spine(pending, runs, nodes) && AllApart(runs)
    requires k + 1 < |runs| && a == runs[k][0] && b == runs[k + 1][0]
    requires tail == if k == 0 then null else runs[k - 1][0]
    modifies nodes
    ensures Spine(newPending, MergeRunsAt(cmp, runs, k), nodes)
  {
    hide Merge, ReplaceTwo;
    ghost var both := Elems(runs[k + 1]) + Elems(runs[k]);
    OthersOutside(runs, k);
    hide AllApart;
    var m, merged := MergeRuns(cmp, b, a, runs[k + 1], runs[k], both);
    MergedInside(cmp, runs[k + 1], runs[k]);
    newPending := Install(pending, tail, m, b, runs, k, merged, nodes);
  }

  /** The other runs share no node with the two being merged, and run heads are distinct. */
  lemma OthersOutside(runs: seq<seq<ListHead>>, k: nat)
    requires AllApart(runs) && k + 1 < |runs|
    ensures Unshared(runs[k + 1], runs[k])
    ensures forall r, i | 0 <= r < |runs| && r != k && r != k + 1 && 0 <= i < |runs[r]| ::
              runs[r][i] !in Elems(runs[k + 1]) + Elems(runs[k])
    ensures forall r, q | 0 <= r < q < |runs| && runs[r] != [] && runs[q] != [] :: runs[r][0] != runs[q][0]
  {
    assert Apart(runs[k], runs[k + 1]);
    forall r, i | 0 <= r < |runs| && r != k && r != k + 1 && 0 <= i < |runs[r]|
      ensures runs[r][i] !in Elems(runs[k + 1]) + Elems(runs[k])
    {
      assert Apart(if r < k then runs[r] else runs[k], if r < k then runs[k] else runs[r]);
      assert Apart(if r < k + 1 then runs[r] else runs[k + 1], if r < k + 1 then runs[k + 1] else runs[r]);
    }
    forall r, q | 0 <= r < q < |runs| && runs[r] != [] && runs[q] != []
      ensures runs[r][0] != runs[q][0]
    {
      assert Apart(runs[r], runs[q]);
    }
  }

  lemma MergedInside(cmp: Cmp, fs: seq<ListHead>, ss: seq<ListHead>)
    ensures AllIn(Merge(cmp, fs, ss), Elems(fs) + Elems(ss))
  {
    MergeElems(cmp, fs, ss);
    var merged := Merge(cmp, fs, ss);
    forall i | 0 <= i < |merged|
      ensures merged[i] in Elems(fs) + Elems(ss)
    {
      assert merged[i] in multiset(merged);
    }
  }

  /** The first m nodes of s have their `prev` links restored. */
  ghost predicate BackLinked(s: seq<ListHead>, m: nat)
    reads s`prev
  {
    m <= |s| && forall k | 0 < k < m :: s[k].prev == s[k - 1]
  }

  /** The second half of `merge_final`: the remainder is already in order, so only its `prev`
      links are missing, and the two links that close the ring. */
  method CloseRing(head: ListHead, last: ListHead, rest: ListHead, ghost s: seq<ListHead>, ghost start: nat)
    requires Chain(s) && Distinct(s) && s[0] == head
    requires 0 < start < |s| && s[start - 1] == last && s[start] == rest && BackLinked(s, start)
    modifies s
    ensures Ring(head, s[1..])
  {
    var tail, b := last, rest;
    ghost var m := start;
    while true
      invariant 0 < m < |s| && tail == s[m - 1] && b == s[m]
      invariant Chain(s) && BackLinked(s, m)
      decreases |s| - m
    {
      b.prev := tail;
      tail := b;
      m := m + 1;
      assert m < |s| ==> s[m - 1].next == s[m];
      if b.next == null {
        break;
      }
      b := b.next;
    }
    tail.next := head;
    head.prev := tail;
    ghost var t := s[1..];
    assert forall k | 0 <= k < |t| :: t[k] == s[k + 1];
  }

  /** "Finish linking remainder of list b on to tail", then close the ring. */
  method FinishFinal(head: ListHead, tail: ListHead, b: ListHead, ghost before: seq<ListHead>,
                     ghost rem: seq<ListHead>, ghost at: nat, ghost nodes: set<ListHead>)
    requires ChainFrom(rem, at) && rem[at] == b && (forall k | at <= k < |rem| :: rem[k] != tail)
    requires var done := before + [tail];
             && Linked(done) && tail !in before && done[0] == head && BackLinked(done, |done|)
             && Distinct(done + rem[at..]) && AllIn((done + rem[at..])[1..], nodes)
    modifies head, nodes
    ensures Ring(head, (before + [tail] + rem[at..])[1..])
  {
    hide Ring, Linked;
    ghost var all := before + [tail] + rem[at..];
    assert all[|before|] == tail && all[|before| + 1] == b;
    assert before != [] ==> all[1..][|before| - 1] == tail;
    Close(tail, b, before, rem, at);
    assert forall k | 0 < k < |all| :: all[k] == all[1..][k - 1];
    CloseRing(head, tail, b, all, |before| + 1);
  }

  lemma RingNodesDistinct(cmp: Cmp, head: ListHead, fs: seq<ListHead>, ss: seq<ListHead>, nodes: set<ListHead>)
    requires Unshared(fs, ss) && AllIn(fs, nodes) && AllIn(ss, nodes) && head !in nodes
    ensures Distinct([head] + Merge(cmp, fs, ss)) && AllIn(Merge(cmp, fs, ss), nodes)
  {
    MergedInside(cmp, fs, ss);
    MergeDistinct(cmp, fs, ss);
    var m := Merge(cmp, fs, ss);
    forall i | 0 <= i < |m|
      ensures m[i] in nodes
    {
      assert m[i] in Elems(fs) + Elems(ss);
    }
  }

  lemma FinalInit(cmp: Cmp, head: ListHead, fs: seq<ListHead>, ss: seq<ListHead>, nodes: set<ListHead>)
    requires Chain(fs) && Chain(ss) && AllIn(fs, nodes) && AllIn(ss, nodes) && head !in nodes
    ensures Merging([head], {head}, fs, 0, ss, 0) && TailOf(head, head, [head]) && BackLinked([head], 1)
    ensures [head] + MergeFrom(cmp, fs, 0, ss, 0) == [head] + Merge(cmp, fs, ss)
  {
    assert fs[0..] == fs && ss[0..] == ss;
  }

  /** As `Take`, restoring the `prev` link of x as well; here `tail` is always a node. */
  method TakeFinal(head: ListHead, tail: ListHead, x: ListHead, ghost done: seq<ListHead>, ghost used: set<ListHead>,
                   ghost fs: seq<ListHead>, ghost i: nat, ghost ss: seq<ListHead>, ghost j: nat)
    returns (rest: ListHead?, ghost newDone: seq<ListHead>, ghost newUsed: set<ListHead>)
    requires Merging(done, used, fs, i, ss, j) && x == fs[i]
    requires Unshared(fs, ss)
    requires TailOf(head, tail, done) && BackLinked(done, |done|)
    modifies {tail}`next, x`prev
    ensures newDone == done + [x] && x !in done && TailOf(head, x, newDone) && BackLinked(newDone, |newDone|)
    ensures rest == null <==> i + 1 == |fs|
    ensures rest != null ==> rest == fs[i + 1] && Merging(newDone, newUsed, fs, i + 1, ss, j)
    ensures rest == null ==> Linked(newDone) && ChainFrom(ss, j) && (forall k | j <= k < |ss| :: ss[k] != x)
  {
    hide Merging, Unshared, ChainFrom, Linked;
    var h;
    h, rest, newDone, newUsed := Take(head, tail, x, done, used, fs, i, ss, j);
    x.prev := tail;
  }

  /** `merge_final`: like `merge`, but restores `prev` and closes the ring at head. */
  method MergeFinal(cmp: Cmp, head: ListHead, first: ListHead, second: ListHead,
                    ghost fs: seq<ListHead>, ghost ss: seq<ListHead>, ghost nodes: set<ListHead>)
    requires Chain(fs) && fs[0] == first && AllIn(fs, nodes)
    requires Chain(ss) && ss[0] == second && AllIn(ss, nodes)
    requires Unshared(fs, ss) && head !in nodes
    modifies head, nodes
    ensures Ring(head, Merge(cmp, fs, ss))
  {
    var a, b := first, second;
    var tail := head;
    ghost var done, used, i: nat, j: nat := [head], {head}, 0, 0;
    ghost var before, rem, at: nat;
    hide Merging, Unshared, ChainFrom, Linked, MergeFrom, TailOf, BackLinked, Ring;
    FinalInit(cmp, head, fs, ss, nodes);
    RingNodesDistinct(cmp, head, fs, ss, nodes);
    while true
      invariant i < |fs| && j < |ss| && Merging(done, used, fs, i, ss, j)
      invariant a == fs[i] && b == ss[j]
      invariant TailOf(head, tail, done) && tail in nodes + {head}
      invariant done != [] && done[0] == head && BackLinked(done, |done|)
      invariant done + MergeFrom(cmp, fs, i, ss, j) == [head] + Merge(cmp, fs, ss)
      decreases |fs| - i + |ss| - j
    {
      MergeStep(cmp, done, fs, i, ss, j);
      var rest;
      before := done;
      if cmp(a, b) <= 0 {
        rest, done, used := TakeFinal(head, tail, a, done, used, fs, i, ss, j);
        tail := a;
        if rest == null {
          rem, at := ss, j;
          break;
        }
        a, i := rest, i + 1;
      } else {
        SwapRoles(done, used, fs, i, ss, j);
        rest, done, used := TakeFinal(head, tail, b, done, used, ss, j, fs, i);
        tail := b;
        if rest == null {
          b := a;
          rem, at := fs, i;
          break;
        }
        b, j := rest, j + 1;
        SwapRoles(done, used, ss, j, fs, i);
      }
    }
    FinishFinal(head, tail, b, before, rem, at, nodes);
  }

  /** "Move one element from input list to pending": it becomes a run of its own in front. */
  method Push(pending: ListHead?, x: ListHead, ghost runs: seq<seq<ListHead>>, ghost nodes: set<ListHead>,
              ghost s: seq<ListHead>, ghost i: nat)
    returns (rest: ListHead?)
    requires Spine(pending, runs, nodes) && x !in nodes
    requires ChainFrom(s, i) && Distinct(s) && x == s[i]
    modifies x
    ensures if rest == null then i + 1 == |s| else ChainFrom(s, i + 1) && rest == s[i + 1]
    ensures Spine(x, [[x]] + runs, nodes + {x})
  {
    x.prev := pending;
    rest := x.next;
    assert i + 1 < |s| ==> s[i].next == s[i + 1];
    x.next := null;
    ghost var out := [[x]] + runs;
    assert forall r | 0 < r < |out| :: out[r] == runs[r - 1];
  }

  lemma SpineTail(first: ListHead?, runs: seq<seq<ListHead>>, nodes: set<ListHead>, sub: set<ListHead>)
    requires Spine(first, runs, nodes) && runs != []
    requires forall r | 1 <= r < |runs| :: AllIn(runs[r], sub)
    ensures runs[0] != [] && first == runs[0][0] && Chain(runs[0])
    ensures runs[0][0].prev == null <==> |runs| == 1
    ensures Spine(runs[0][0].prev, runs[1..], sub)
  {
    assert |runs| > 1 ==> runs[0][0].prev == runs[1][0];
    assert forall r | 0 <= r < |runs| - 1 :: runs[1..][r] == runs[r + 1];
  }

  lemma RunNodes(cmp: Cmp, t: seq<ListHead>, sizes: seq<nat>)
    requires Sum(sizes) == |t| && Distinct(t)
    ensures AllApart(RunsOf(cmp, t, sizes))
    ensures forall r | 0 <= r < |RunsOf(cmp, t, sizes)| :: AllIn(RunsOf(cmp, t, sizes)[r], Elems(t))
  {
    RunsApart(cmp, t, sizes);
    RunsWithin(cmp, t, sizes, Elems(t));
  }

  lemma SortedSliceNodes(cmp: Cmp, s: seq<ListHead>, lo: nat, cut: nat)
    requires lo <= cut <= |s| && Distinct(s)
    ensures Unshared(StableSort(cmp, s[lo..cut]), StableSort(cmp, s[cut..]))
    ensures AllIn(StableSort(cmp, s[lo..cut]), Elems(s[lo..])) && AllIn(StableSort(cmp, s[cut..]), Elems(s[lo..]))
    ensures Elems(s[lo..]) !! Elems(s[..lo])
  {
    var (f, g) := (s[lo..cut], s[cut..]);
    SortDistinct(cmp, f);
    SortDistinct(cmp, g);
    SortWithin(cmp, f, Elems(f));
    SortWithin(cmp, g, Elems(g));
    ApartBySets(StableSort(cmp, f), StableSort(cmp, g), Elems(f), Elems(g));
    assert Elems(f) <= Elems(s[lo..]) && Elems(g) <= Elems(s[lo..]);
  }

  /** The closing merges in progress: `acc` is the sorted slice from `cut` on and holds the j
      newest runs; `rem` are the runs still waiting. */
  ghost predicate Closing(cmp: Cmp, s: seq<ListHead>, j: nat, cut: nat, acc: seq<ListHead>, rem: seq<seq<ListHead>>) {
    && 1 <= j < |Sizes(|s|)|
    && cut + Newest(|s|, j) == |s|
    && Sum(Sizes(|s|)[j..]) == cut
    && rem == RunsOf(cmp, s[..cut], Sizes(|s|)[j..])
    && acc == StableSort(cmp, s[cut..])
  }

  lemma ClosingInit(cmp: Cmp, s: seq<ListHead>)
    requires |s| >= 2 && Sum(Sizes(|s|)) == |s| && Distinct(s)
    ensures |RunsOf(cmp, s, Sizes(|s|))| >= 2 && |s| - 1 >= 0
    ensures Closing(cmp, s, 1, |s| - 1, RunsOf(cmp, s, Sizes(|s|))[0], RunsOf(cmp, s, Sizes(|s|))[1..])
    ensures forall r | 1 <= r < |RunsOf(cmp, s, Sizes(|s|))| :: AllIn(RunsOf(cmp, s, Sizes(|s|))[r], Elems(s[..|s| - 1]))
  {
    var n := |s|;
    TwoRunsAtLeast(n);
    NewestFirst(n);
    RunLengths(cmp, s, Sizes(n));
    var runs := RunsOf(cmp, s, Sizes(n));
    assert runs == [StableSort(cmp, s[n - 1..])] + RunsOf(cmp, s[..n - 1], Sizes(n)[1..]);
    RunsWithin(cmp, s[..n - 1], Sizes(n)[1..], Elems(s[..n - 1]));
    assert forall r | 1 <= r < |runs| :: runs[r] == runs[1..][r - 1];
  }

  lemma ClosingNext(cmp: Cmp, s: seq<ListHead>, j: nat, cut: nat, acc: seq<ListHead>, rem: seq<seq<ListHead>>)
    returns (lo: nat)
    requires Closing(cmp, s, j, cut, acc, rem) && TotalPreorder(cmp, Elems(s)) && Distinct(s)
    ensures lo <= cut <= |s| && |rem| + j == |Sizes(|s|)|
    ensures rem != [] && (|rem[0]|, |acc|) == (Sizes(|s|)[j], Newest(|s|, j))
    ensures |rem| > 1 ==> Closing(cmp, s, j + 1, lo, Merge(cmp, rem[0], acc), rem[1..])
    ensures |rem| == 1 ==> Merge(cmp, rem[0], acc) == StableSort(cmp, s)
    ensures rem[0] == StableSort(cmp, s[lo..cut]) && acc == StableSort(cmp, s[cut..])
    ensures forall r | 1 <= r < |rem| :: AllIn(rem[r], Elems(s[..lo]))
  {
    hide RunsOf, StableSort, Merge, TotalPreorder, Distinct, Sizes, Newest;
    var (n, sizes) := (|s|, Sizes(|s|)[j..]);
    lo := cut - sizes[0];
    ClosingStep(cmp, s, cut, sizes);
    RunLengths(cmp, s[..cut], sizes);
    NewestNext(n, j);
    assert sizes[1..] == Sizes(n)[j + 1..];
    RunLengths(cmp, s[..lo], sizes[1..]);
    StableSortElems(cmp, s[cut..]);
    RunsWithin(cmp, s[..lo], sizes[1..], Elems(s[..lo]));
    assert forall r | 1 <= r < |rem| :: rem[r] == rem[1..][r - 1];
    if |rem| == 1 {
      assert s[0..] == s;
    }
  }

  /** "End of input; merge together all the pending lists." `merges` records the lengths that are
      joined, those of the last merge included. */
  method MergeAll(cmp: Cmp, head: ListHead, front: ListHead?, ghost s: seq<ListHead>)
    returns (ghost merges: seq<(nat, nat)>)
    requires |s| >= 2 && Distinct(s) && head !in Elems(s) && TotalPreorder(cmp, Elems(s))
    requires Sum(Sizes(|s|)) == |s| && Spine(front, RunsOf(cmp, s, Sizes(|s|)), Elems(s))
    modifies head, Elems(s)
    ensures Ring(head, StableSort(cmp, s))
    ensures merges == ClosingMerges(|s|)
  {
    hide Spine, Ring, RunsOf, StableSort, Merge, Sizes, Newest, Unshared, Closing, TotalPreorder, Distinct, ClosingMerges;
    ClosingInit(cmp, s);
    TwoRunsAtLeast(|s|);
    ClosingMerge(|s|, 1);
    ghost var j: nat, cut: nat := 1, |s| - 1;
    ghost var acc, rem := RunsOf(cmp, s, Sizes(|s|))[0], RunsOf(cmp, s, Sizes(|s|))[1..];
    SpineTail(front, RunsOf(cmp, s, Sizes(|s|)), Elems(s), Elems(s[..cut]));
    merges := [];
    var list: ListHead := front;
    var pending: ListHead := list.prev;
    while true
      invariant cut <= |s| && Closing(cmp, s, j, cut, acc, rem)
      invariant acc != [] && list == acc[0] && Chain(acc)
      invariant Spine(pending, rem, Elems(s[..cut]))
      invariant |merges| + 1 == j <= |ClosingMerges(|s|)| && merges == ClosingMerges(|s|)[..j - 1]
      decreases |rem|
    {
      ghost var lo := ClosingNext(cmp, s, j, cut, acc, rem);
      SortedSliceNodes(cmp, s, lo, cut);
      SpineTail(pending, rem, Elems(s[..cut]), Elems(s[..lo]));
      ClosingMerge(|s|, j);
      merges := merges + [(|rem[0]|, |acc|)];
      var next := pending.prev;
      if next == null {
        break;
      }
      list, acc := MergeRuns(cmp, pending, list, rem[0], acc, Elems(s[lo..]));
      pending, rem, cut, j := next, rem[1..], lo, j + 1;
    }
    MergeFinal(cmp, head, pending, list, rem[0], acc, Elems(s));
  }

  lemma SortOfAtMostOne(cmp: Cmp, s: seq<ListHead>)
    requires |s| <= 1
    ensures StableSort(cmp, s) == s
  {
    if |s| == 1 {
      assert s[1..] == [];
    }
  }

  lemma NoMerges(n: nat)
    requires n <= 1
    ensures CountingMerges(n) == [] && ClosingMerges(n) == []
  {
    if n == 1 {
      assert Sizes(1) == [1] + Doubled(Sizes(0)) && Sizes(0) == [];
      assert CountingMerges(1) == CountingMerges(0) + RoundMerge(0);
    }
  }

  lemma ElemsNext(s: seq<ListHead>, count: nat)
    requires count < |s| && Distinct(s)
    ensures Elems(s[..count + 1]) == Elems(s[..count]) + {s[count]} && s[count] !in Elems(s[..count])
    ensures Elems(s[..count]) <= Elems(s) && Distinct(s[..count])
    ensures forall k | count <= k < |s| :: s[k] !in Elems(s[..count])
  {
    assert s[..count + 1] == s[..count] + [s[count]];
    assert forall k | 0 <= k < count :: s[..count][k] == s[k];
  }

  /** The state between two rounds: `count` elements are in pending, as the sorted slices the
      counter prescribes, and the input continues at `rest`. */
  ghost predicate Collecting(cmp: Cmp, s: seq<ListHead>, count: nat, pending: ListHead?, rest: ListHead?)
    reads s
  {
    && count <= |s| && Sum(Sizes(count)) == count
    && (if rest == null then count == |s| else ChainFrom(s, count) && rest == s[count])
    && Spine(pending, RunsOf(cmp, s[..count], Sizes(count)), Elems(s[..count]))
  }

  lemma NothingPending(cmp: Cmp, s: seq<ListHead>)
    requires s != [] && ChainFrom(s, 0)
    ensures Collecting(cmp, s, 0, null, s[0])
  {
  }

  lemma EverythingPending(cmp: Cmp, s: seq<ListHead>, count: nat, pending: ListHead?)
    requires Collecting(cmp, s, count, pending, null)
    ensures count == |s| && Sum(Sizes(|s|)) == |s| && Spine(pending, RunsOf(cmp, s, Sizes(|s|)), Elems(s))
  {
    assert s[..count] == s;
  }

  /** One round: the merge the counter asks for, which joins two runs of equal length, and one
      more element moved from the input to pending. */
  method Round(cmp: Cmp, pending: ListHead?, x: ListHead, count: nat, ghost s: seq<ListHead>)
    returns (newPending: ListHead, rest: ListHead?, ghost merges: seq<(nat, nat)>)
    requires Collecting(cmp, s, count, pending, x) && Distinct(s) && TotalPreorder(cmp, Elems(s))
    modifies Elems(s)
    ensures Collecting(cmp, s, count + 1, newPending, rest) && count < |s|
    ensures merges == RoundMerge(count)
  {
    hide StableSort, Merge, Sizes, Spine, RunsOf, TotalPreorder, Distinct, AllApart;
    ghost var runs, nodes := RunsOf(cmp, s[..count], Sizes(count)), Elems(s[..count]);
    ghost var k := TrailingOnes(count);
    ElemsNext(s, count);
    RoundRuns(cmp, s, count);
    RunNodes(cmp, s[..count], Sizes(count));
    RunLengths(cmp, s[..count], Sizes(count));
    merges := if HigherBits(count) == 0 then [] else [(|runs[k + 1]|, |runs[k]|)];
    var merged := MergePending(cmp, pending, count, runs, nodes);
    rest := Push(merged, x, MergedFor(cmp, count, runs), nodes, s, count);
    newPending := x;
  }

  /** Cutting the ring open: "convert to a null-terminated singly-linked list". */
  lemma OpenRing(head: ListHead, s: seq<ListHead>)
    requires Ring(head, s)
    ensures |s| <= 1 <==> head.next == head.prev
    ensures s != [] ==> head.next == s[0] && head.prev == s[|s| - 1]
    ensures forall k | 0 <= k < |s| - 1 :: s[k].next == s[k + 1]
    ensures Distinct(s) && head !in Elems(s)
  {
  }

  lemma CountingMergesNext(count: nat)
    ensures CountingMerges(0) == []
    ensures CountingMerges(count + 1) == CountingMerges(count) + RoundMerge(count)
  {
    hide RoundMerge;
  }

  /** The loop over the input: all elements end up in pending. */
  method Collect(cmp: Cmp, list: ListHead, ghost s: seq<ListHead>)
    returns (pending: ListHead?, ghost merges: seq<(nat, nat)>)
    requires Collecting(cmp, s, 0, null, list) && Distinct(s) && TotalPreorder(cmp, Elems(s))
    modifies Elems(s)
    ensures Collecting(cmp, s, |s|, pending, null) && merges == CountingMerges(|s|)
  {
    hide *;
    pending, merges := null, [];
    var count := 0;
    var rest: ListHead? := list;
    CountingMergesNext(0);
    while rest != null
      invariant Collecting(cmp, s, count, pending, rest) && merges == CountingMerges(count)
      invariant count <= |s|
      decreases |s| - count
    {
      ghost var merge;
      pending, rest, merge := Round(cmp, pending, rest, count, s);
      CountingMergesNext(count);
      merges := merges + merge;
      count := count + 1;
    }
    EverythingPending(cmp, s, count, pending);
  }

  /** `list_sort`: sorts the ring at head stably and leaves a well-formed ring. The two ghost
      results are the lengths of the runs joined while elements arrive and at the end: equal ones,
      and ones within a factor of two, one merge less than there are elements. */
  method Sort(cmp: Cmp, head: ListHead, ghost s: seq<ListHead>)
    returns (ghost whileCounting: seq<(nat, nat)>, ghost closing: seq<(nat, nat)>)
    requires Ring(head, s) && TotalPreorder(cmp, Elems(s))
    modifies head, s
    ensures Ring(head, StableSort(cmp, s))
    ensures whileCounting == CountingMerges(|s|) && closing == ClosingMerges(|s|)
    ensures forall m | m in whileCounting :: m.0 == m.1
    ensures forall m | m in closing :: m.0 <= 2 * m.1 && m.1 <= 2 * m.0
    ensures s != [] ==> |whileCounting| + |closing| == |s| - 1
  {
    hide Ring, StableSort, Merge, Spine, TotalPreorder, Distinct, Collecting, RoundMerge, ClosingMerges, CountingMerges;
    var list := head.next;
    whileCounting, closing := [], [];
    OpenRing(head, s);
    if list == head.prev {
      SortOfAtMostOne(cmp, s);
      NoMerges(|s|);
      return;
    }
    head.prev.next := null;
    NothingPending(cmp, s);
    var pending;
    pending, whileCounting := Collect(cmp, list, s);
    EverythingPending(cmp, s, |s|, pending);
    closing := MergeAll(cmp, head, pending, s);
    MergesBalanced(|s|);
  }
}
