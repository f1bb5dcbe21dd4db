/**
 The live-allocation table and the operation log of osal/mpp_mem.c, in the tracking mode without
 poison and extra room: every malloc, realloc and free is recorded in both.
 */
module MemTrack {

  const TWO_32: nat := 0x1_0000_0000
  const INDEX_MAX: int := 0x7FFF_FFFF

  /** A node is valid while its index is not negative. */
  datatype MemNode = MemNode(index: int, size: nat, ptr: int)

  const DEAD := MemNode(-1, 0, 0)

  // ---- The map the table stands for

  function Live(nodes: seq<MemNode>): map<int, nat> {
    if nodes == [] then map[]
    else
      var (n, m) := (|nodes| - 1, Live(nodes[..|nodes| - 1]));
      if nodes[n].index >= 0 then m[nodes[n].ptr := nodes[n].size] else m
  }

  ghost predicate DistinctPtrs(nodes: seq<MemNode>) {
    forall i, j | 0 <= i < j < |nodes| && nodes[i].index >= 0 && nodes[j].index >= 0 :: nodes[i].ptr != nodes[j].ptr
  }

  lemma {:induction false} LiveHas(nodes: seq<MemNode>, p: int)
    requires DistinctPtrs(nodes)
    ensures p in Live(nodes) <==> exists i :: 0 <= i < |nodes| && nodes[i].index >= 0 && nodes[i].ptr == p
    ensures forall i | 0 <= i < |nodes| && nodes[i].index >= 0 && nodes[i].ptr == p :: p in Live(nodes) && Live(nodes)[p] == nodes[i].size
  {
    if nodes != [] {
      var n := |nodes| - 1;
      LiveHas(nodes[..n], p);
      if p in Live(nodes[..n]) {
        var i :| 0 <= i < n && nodes[..n][i].index >= 0 && nodes[..n][i].ptr == p;
        assert nodes[i].index >= 0 && nodes[i].ptr == p;
      }
    }
  }

  /** Two tables with the same valid entries are the same map. */
  lemma LiveIs(nodes: seq<MemNode>, m: map<int, nat>)
    requires DistinctPtrs(nodes)
    requires forall i | 0 <= i < |nodes| && nodes[i].index >= 0 :: nodes[i].ptr in m && m[nodes[i].ptr] == nodes[i].size
    requires forall p | p in m :: exists i :: 0 <= i < |nodes| && nodes[i].index >= 0 && nodes[i].ptr == p
    ensures Live(nodes) == m
  {
    hide Live, DistinctPtrs;
    forall p: int
      ensures p in Live(nodes) <==> p in m
      ensures p in m ==> Live(nodes)[p] == m[p]
    {
      LiveHas(nodes, p);
    }
  }

  /** Replacing entry i: its old pointer goes, its new one comes. */
  lemma LiveUpdate(nodes: seq<MemNode>, i: nat, x: MemNode)
    requires DistinctPtrs(nodes) && i < |nodes|
    requires x.index >= 0 ==> x.ptr !in Live(nodes) || (nodes[i].index >= 0 && nodes[i].ptr == x.ptr)
    ensures DistinctPtrs(nodes[i := x])
    ensures var rest := if nodes[i].index >= 0 then Live(nodes) - {nodes[i].ptr} else Live(nodes);
            Live(nodes[i := x]) == if x.index >= 0 then rest[x.ptr := x.size] else rest
  {
    hide Live;
    LiveHas(nodes, x.ptr);
    var now := nodes[i := x];
    var rest := if nodes[i].index >= 0 then Live(nodes) - {nodes[i].ptr} else Live(nodes);
    var m := if x.index >= 0 then rest[x.ptr := x.size] else rest;
    forall j | 0 <= j < |now| && now[j].index >= 0
      ensures now[j].ptr in m && m[now[j].ptr] == now[j].size
    {
      LiveHas(nodes, now[j].ptr);
    }
    forall p | p in m
      ensures exists j :: 0 <= j < |now| && now[j].index >= 0 && now[j].ptr == p
    {
      LiveHas(nodes, p);
      if x.index >= 0 && p == x.ptr {
        assert now[i].ptr == p;
      } else {
        var j :| 0 <= j < |nodes| && nodes[j].index >= 0 && nodes[j].ptr == p;
        assert now[j].index >= 0 && now[j].ptr == p;
      }
    }
    LiveIs(now, m);
  }

  // ---- Sums

  lemma SomeKey(keys: set<int>)
    requires keys != {}
    ensures exists p :: p in keys
  {
    assert (forall p :: p !in keys) ==> keys == {};
  }

  ghost function SumOver(keys: set<int>, m: map<int, nat>): nat
    requires keys <= m.Keys
  {
    if keys == {} then 0
    else
      SomeKey(keys);
      var p :| p in keys;
      m[p] + SumOver(keys - {p}, m)
  }

  /** The sum of all sizes. */
  ghost function Sum(m: map<int, nat>): nat {
    SumOver(m.Keys, m)
  }

  lemma Picked(keys: set<int>, m: map<int, nat>) returns (q: int)
    requires keys <= m.Keys && keys != {}
    ensures q in keys && SumOver(keys, m) == m[q] + SumOver(keys - {q}, m)
  {
    SomeKey(keys);
    q :| q in keys && SumOver(keys, m) == m[q] + SumOver(keys - {q}, m);
  }

  /** The sum does not depend on the order. */
  lemma {:induction false} SumPick(keys: set<int>, m: map<int, nat>, p: int)
    requires keys <= m.Keys && p in keys
    ensures SumOver(keys, m) == m[p] + SumOver(keys - {p}, m)
  {
    var q := Picked(keys, m);
    if q != p {
      SumPick(keys - {q}, m, p);
      SumPick(keys - {p}, m, q);
      assert keys - {q} - {p} == keys - {p} - {q};
    }
  }

  lemma {:induction false} SumSame(keys: set<int>, m: map<int, nat>, n: map<int, nat>)
    requires keys <= m.Keys && keys <= n.Keys && forall p | p in keys :: m[p] == n[p]
    ensures SumOver(keys, m) == SumOver(keys, n)
  {
    if keys != {} {
      SomeKey(keys);
      var p :| p in keys;
      SumPick(keys, m, p);
      SumPick(keys, n, p);
      SumSame(keys - {p}, m, n);
    }
  }

  lemma SumPut(m: map<int, nat>, p: int, size: nat)
    requires p !in m
    ensures Sum(m[p := size]) == Sum(m) + size && |m[p := size]| == |m| + 1
  {
    var n := m[p := size];
    SumPick(n.Keys, n, p);
    assert n.Keys - {p} == m.Keys;
    SumSame(m.Keys, m, n);
  }

  lemma SumDrop(m: map<int, nat>, p: int)
    requires p in m
    ensures Sum(m - {p}) == Sum(m) - m[p] && |m - {p}| == |m| - 1
  {
    assert (m - {p})[p := m[p]] == m;
    SumPut(m - {p}, p, m[p]);
  }

  // ---- The log ring

  datatype Op = Malloc | Realloc | Free

  datatype Log = Log(index: nat, op: Op, ptr: int, ret: int, size0: nat, size1: nat)

  /** The ring slot of the t-th operation. */
  function Slot(t: nat, max: nat): (r: nat)
    requires max > 0
    ensures r < max
  {
    t % max
  }

  lemma SlotUnique(t: nat, r: nat, q: int, max: nat)
    requires max > 0 && r < max && t == q * max + r
    ensures Slot(t, max) == r
  {
    hide Slot;
    SlotDivides(t, max);
    Multiple(q - t / max, max, Slot(t, max) - r);
    assert (q - t / max) * max == q * max - t / max * max;
  }

  lemma SlotDivides(t: nat, max: nat)
    requires max > 0
    ensures t == t / max * max + Slot(t, max)
  {
  }

  lemma Multiple(k: int, max: int, d: int)
    requires -max < d < max
    ensures k * max == d ==> d == 0
  {
    if k >= 1 {
      AtLeast(k, max);
    } else if k <= -1 {
      AtLeast(-k, max);
    }
  }

  lemma AtLeast(k: int, max: int)
    requires k >= 1 && max >= 0
    ensures k * max >= max && -k * max == -(k * max)
  {
  }

  lemma SlotNext(t: nat, max: nat)
    requires max > 0
    ensures Slot(t + 1, max) == if Slot(t, max) + 1 >= max then 0 else Slot(t, max) + 1
  {
    var (q, r) := (t / max, t % max);
    assert t == q * max + r;
    if r + 1 >= max {
      assert t + 1 == (q + 1) * max + 0;
      SlotUnique(t + 1, 0, q + 1, max);
    } else {
      SlotUnique(t + 1, r + 1, q, max);
    }
  }

  lemma SlotBack(t: nat, back: nat, max: nat)
    requires back <= max && back <= t && max > 0
    ensures Slot(t - back, max) == if Slot(t, max) - back < 0 then (Slot(t, max) - back + max) % max else Slot(t, max) - back
    ensures Slot(t, max) - back < 0 ==> Slot(t, max) - back + max < max
  {
    hide Slot;
    var (q, r) := (t / max, Slot(t, max));
    SlotDivides(t, max);
    if r - back < 0 {
      RowBefore(q, max);
      SlotUnique(t - back, r - back + max, q - 1, max);
      SmallSlot(r - back + max, max);
    } else {
      SlotUnique(t - back, r - back, q, max);
    }
  }

  lemma RowBefore(q: int, max: nat)
    ensures (q - 1) * max == q * max - max
  {
  }

  lemma SlotDistinct(t: nat, u: nat, max: nat)
    requires max > 0 && t < u < t + max
    ensures Slot(t, max) != Slot(u, max)
  {
    var d := u - t;
    SlotBack(u, d, max);
  }

  /** The ring holds the last min(k, max) of k operations, each in its slot. */
  ghost predicate RingHolds(logs: seq<Log>, idx: int, cnt: int, history: seq<Log>) {
    && |logs| > 0 && idx == Slot(|history|, |logs|)
    && cnt == (if |history| < |logs| then |history| else |logs|)
    && (forall t: nat | |history| - cnt <= t < |history| :: logs[Slot(t, |logs|)] == history[t])
  }

  lemma RingAdd(logs: seq<Log>, idx: int, cnt: int, history: seq<Log>, e: Log)
    requires RingHolds(logs, idx, cnt, history)
    ensures RingHolds(logs[idx := e], if idx + 1 >= |logs| then 0 else idx + 1, if cnt < |logs| then cnt + 1 else cnt, history + [e])
  {
    hide Slot;
    SlotNext(|history|, |logs|);
    SlotInRange(|logs|);
    var cnt' := if cnt < |logs| then cnt + 1 else cnt;
    forall t: nat | |history| + 1 - cnt' <= t < |history| + 1
      ensures logs[idx := e][Slot(t, |logs|)] == (history + [e])[t]
    {
      if t < |history| {
        SlotDistinct(t, |history|, |logs|);
      }
    }
  }

  lemma SlotInRange(max: nat)
    requires max > 0
    ensures forall t: nat :: 0 <= Slot(t, max) < max
  {
  }

  // ---- The service

  lemma {:induction false} AllLive(nodes: seq<MemNode>)
    requires DistinctPtrs(nodes) && forall i | 0 <= i < |nodes| :: nodes[i].index >= 0
    ensures |Live(nodes)| == |nodes|
  {
    if nodes != [] {
      var n := |nodes| - 1;
      AllLive(nodes[..n]);
      LiveHas(nodes[..n], nodes[n].ptr);
      assert nodes[n].ptr !in Live(nodes[..n]);
    }
  }

  lemma {:induction false} AllDead(nodes: seq<MemNode>)
    requires forall i | 0 <= i < |nodes| :: nodes[i].index < 0
    ensures Live(nodes) == map[] && DistinctPtrs(nodes)
  {
    if nodes != [] {
      AllDead(nodes[..|nodes| - 1]);
    }
  }

  class MemSrv {
    var nodes: array<MemNode>
    var nodesIdx: int
    var nodesCnt: int
    var totalSize: nat
    var logs: array<Log>
    var logIndex: nat
    var logIdx: int
    var logCnt: int
    /** Every operation logged so far. */
    ghost var history: seq<Log>

    ghost predicate Valid()
      reads this, nodes, logs
    {
      && nodes as object != logs
      && DistinctPtrs(nodes[..]) && 0 <= nodesIdx <= INDEX_MAX
      && nodesCnt == |Contents()| && totalSize == Sum(Contents()) % TWO_32
      && RingHolds(logs[..], logIdx, logCnt, history)
    }

    /** The live pointers and their sizes. */
    ghost function Contents(): map<int, nat>
      reads this, nodes
    {
      Live(nodes[..])
    }

    constructor (nodesMax: nat, logMax: nat)
      requires logMax > 0
      ensures Valid() && fresh(nodes) && fresh(logs) && Contents() == map[] && history == []
    {
      nodes := new MemNode[nodesMax](_ => DEAD);
      logs := new Log[logMax](_ => Log(0, Malloc, 0, 0, 0, 0));
      nodesIdx, nodesCnt, totalSize := 0, 0, 0;
      logIndex, logIdx, logCnt := 0, 0, 0;
      history := [];
      new;
      AllDead(nodes[..]);
    }

    /** `add_log`. */
    method AddLog(op: Op, ptr: int, ret: int, size0: nat, size1: nat)
      requires Valid()
      modifies `logIndex, `logIdx, `logCnt, `history, logs
      ensures Valid() && Contents() == old(Contents())
      ensures history == old(history) + [Log(old(logIndex), op, ptr, ret, size0, size1)]
    {
      hide Live, Sum, RingHolds;
      RingFacts(logs[..], logIdx, logCnt, history);
      ghost var before := logs[..];
      var e := Log(logIndex, op, ptr, ret, size0, size1);
      RingAdd(before, logIdx, logCnt, history, e);
      logs[logIdx] := e;
      assert logs[..] == before[logIdx := e];
      logIndex := (logIndex + 1) % TWO_32;
      history := history + [e];
      logIdx := logIdx + 1;
      if logIdx >= logs.Length {
        logIdx := 0;
      }
      if logCnt < logs.Length {
        logCnt := logCnt + 1;
      }
    }

    /** `add_node`: the first invalid node is taken; false stands for the abort on a full table. */
    method AddNode(ptr: int, size: nat) returns (ok: bool)
      requires Valid() && ptr !in Contents()
      modifies `nodesIdx, `nodesCnt, `totalSize, nodes
      ensures Valid() && ok == (|old(Contents())| < nodes.Length)
      ensures Contents() == if ok then old(Contents())[ptr := size] else old(Contents())
    {
      hide Live, Sum, RingHolds;
      CountBound(nodes[..]);
      if nodesCnt >= nodes.Length {
        return false;
      }
      ok := true;
      var i := 0;
      while i < nodes.Length && nodes[i].index >= 0
        invariant i <= nodes.Length && forall j | 0 <= j < i :: nodes[j].index >= 0
      {
        i := i + 1;
      }
      if i == nodes.Length {
        AllLive(nodes[..]);
      }
      ghost var before := nodes[..];
      var x := MemNode(nodesIdx, size, ptr);
      LiveUpdate(before, i, x);
      SumPut(Live(before), ptr, size);
      nodes[i] := x;
      assert nodes[..] == before[i := x];
      nodesIdx := if nodesIdx == INDEX_MAX then 0 else nodesIdx + 1;
      nodesCnt := nodesCnt + 1;
      totalSize := (totalSize + size) % TWO_32;
    }

    /** The search that `del_node` and `reset_node` share. */
    method FindNode(ptr: int) returns (i: nat)
      requires Valid()
      ensures i <= nodes.Length
      ensures i < nodes.Length ==> nodes[i].index >= 0 && nodes[i].ptr == ptr && ptr in Contents() && Contents()[ptr] == nodes[i].size
      ensures i == nodes.Length ==> ptr !in Contents()
    {
      hide Live, Sum, RingHolds;
      LiveHas(nodes[..], ptr);
      i := 0;
      while i < nodes.Length && !(nodes[i].index >= 0 && nodes[i].ptr == ptr)
        invariant i <= nodes.Length && forall j | 0 <= j < i :: !(nodes[j].index >= 0 && nodes[j].ptr == ptr)
      {
        i := i + 1;
      }
    }

    /** `del_node`; false stands for the abort on an unknown pointer. */
    method DelNode(ptr: int) returns (ok: bool, size: nat)
      requires Valid()
      modifies `nodesCnt, `totalSize, nodes
      ensures Valid() && ok == (ptr in old(Contents()))
      ensures ok ==> size == old(Contents())[ptr]
      ensures Contents() == old(Contents()) - {ptr}
    {
      hide Live, Sum, RingHolds;
      var i := FindNode(ptr);
      if i == nodes.Length {
        return false, 0;
      }
      ok, size := true, nodes[i].size;
      ghost var before := nodes[..];
      var x := nodes[i].(index := -nodes[i].index - 1);
      LiveUpdate(before, i, x);
      SumDrop(Live(before), ptr);
      nodes[i] := x;
      assert nodes[..] == before[i := x];
      nodesCnt := nodesCnt - 1;
      totalSize := Minus(totalSize, size, Sum(Live(before)));
    }

    /** `reset_node`: the pointer and size of a live node are replaced; an unknown pointer changes
        nothing. */
    method ResetNode(ptr: int, ret: int, size: nat)
      requires Valid() && (ret == ptr || ret !in Contents())
      modifies `totalSize, nodes
      ensures Valid()
      ensures Contents() == if ptr in old(Contents()) then (old(Contents()) - {ptr})[ret := size] else old(Contents())
    {
      hide Live, Sum, RingHolds;
      var i := FindNode(ptr);
      if i == nodes.Length {
        return;
      }
      ghost var before := nodes[..];
      ghost var m := Live(before);
      var x := nodes[i].(ptr := ret, size := size);
      LiveUpdate(before, i, x);
      SumDrop(m, ptr);
      SumPut(m - {ptr}, ret, size);
      totalSize := Minus((totalSize + size) % TWO_32, nodes[i].size, Sum(m) + size);
      nodes[i] := x;
      assert nodes[..] == before[i := x];
    }

    /** `mpp_osal_malloc` with debug on; ptr is what the system allocator returned, 0 for NULL. */
    method OsalMalloc(size: nat, sizeReal: nat, ptr: int) returns (ok: bool)
      requires Valid() && ptr !in Contents()
      modifies this, nodes, logs
      ensures Valid() && nodes == old(nodes) && logs == old(logs)
      ensures ok == (ptr == 0 || |old(Contents())| < nodes.Length)
      ensures Contents() == if ok && ptr != 0 then old(Contents())[ptr := size] else old(Contents())
      ensures history == old(history) + [Log(old(logIndex), Malloc, 0, ptr, size, sizeReal)]
    {
      hide Live, Sum, RingHolds;
      AddLog(Malloc, 0, ptr, size, sizeReal);
      ok := true;
      if ptr != 0 {
        ok := AddNode(ptr, size);
      }
    }

    /** `mpp_osal_realloc`; ret is what the system allocator returned, 0 for a failure. A NULL pointer
        makes it a malloc, and a zero size is refused without any effect. */
    method OsalRealloc(ptr: int, size: nat, sizeReal: nat, ret: int) returns (ok: bool, result: int)
      requires Valid() && (ret !in Contents() || (ptr != 0 && ret == ptr))
      modifies this, nodes, logs
      ensures Valid() && nodes == old(nodes) && logs == old(logs)
      ensures result == if ptr != 0 && size == 0 then 0 else ret
      ensures ok == (ptr != 0 || ret == 0 || |old(Contents())| < nodes.Length)
      ensures Contents() == if ptr == 0 then (if ok && ret != 0 then old(Contents())[ret := size] else old(Contents()))
                            else if size != 0 && ret != 0 && ptr in old(Contents()) then (old(Contents()) - {ptr})[ret := size]
                            else old(Contents())
      ensures history == if ptr == 0 then old(history) + [Log(old(logIndex), Malloc, 0, ret, size, sizeReal)]
                         else if size != 0 && ret != 0 then old(history) + [Log(old(logIndex), Realloc, ptr, ret, size, sizeReal)]
                         else old(history)
    {
      hide Live, Sum, RingHolds;
      if ptr == 0 {
        ok := OsalMalloc(size, sizeReal, ret);
        return ok, ret;
      }
      if size == 0 {
        return true, 0;
      }
      if ret != 0 {
        ResetNode(ptr, ret, size);
        AddLog(Realloc, ptr, ret, size, sizeReal);
      }
      return true, ret;
    }

    /** `mpp_osal_free` of a pointer that is not NULL. */
    method OsalFree(ptr: int) returns (ok: bool)
      requires Valid()
      modifies this, nodes, logs
      ensures Valid() && nodes == old(nodes) && logs == old(logs)
      ensures ok == (ptr in old(Contents())) && Contents() == old(Contents()) - {ptr}
      ensures history == if ok then old(history) + [Log(old(logIndex), Free, ptr, ptr, old(Contents())[ptr], 0)] else old(history)
    {
      hide Live, Sum, RingHolds;
      var size;
      ok, size := DelNode(ptr);
      if ok {
        AddLog(Free, ptr, ptr, size, 0);
      }
    }

    /** The log walk of `mpp_mem_srv_dump`: the last operations that fit the ring, in the order in
        which they happened. */
    method DumpLog() returns (out: seq<Log>)
      requires Valid()
      ensures var kept := if |history| < logs.Length then |history| else logs.Length;
              out == history[|history| - kept..]
    {
      hide Live, Sum, Slot, RingHolds;
      ghost var h, max := |history|, logs.Length;
      RingIs(logs[..], logIdx, logCnt, history);
      SlotBack(h, logCnt, max);
      var start := logIdx - logCnt;
      var tmpCnt := logCnt;
      if start < 0 {
        start := start + logs.Length;
      }
      SmallSlot(start, max);
      out := [];
      ghost var t: nat := h - logCnt;
      while tmpCnt > 0
        invariant 0 <= tmpCnt <= logCnt && t == h - tmpCnt && start == Slot(t, max)
        invariant out == history[h - logCnt..t]
      {
        RingEntry(logs[..], logIdx, logCnt, history, t);
        out := out + [logs[start]];
        SlotNext(t, max);
        start := start + 1;
        if start >= logs.Length {
          start := 0;
        }
        tmpCnt := tmpCnt - 1;
        t := t + 1;
      }
    }
  }

  lemma RingFacts(logs: seq<Log>, idx: int, cnt: int, history: seq<Log>)
    requires RingHolds(logs, idx, cnt, history)
    ensures 0 <= idx < |logs| && 0 <= cnt <= |logs|
  {
  }

  lemma RingIs(logs: seq<Log>, idx: int, cnt: int, history: seq<Log>)
    requires RingHolds(logs, idx, cnt, history)
    ensures |logs| > 0 && idx == Slot(|history|, |logs|)
    ensures cnt == if |history| < |logs| then |history| else |logs|
  {
    hide Slot;
  }

  lemma RingEntry(logs: seq<Log>, idx: int, cnt: int, history: seq<Log>, t: nat)
    requires RingHolds(logs, idx, cnt, history) && |history| - cnt <= t < |history|
    ensures |logs| > 0 && 0 <= Slot(t, |logs|) < |logs| && logs[Slot(t, |logs|)] == history[t]
  {
    SlotInRange(|logs|);
    hide Slot;
  }

  lemma SmallSlot(n: int, max: nat)
    requires 0 <= n < max
    ensures n % max == n
  {
  }

  lemma CountBound(nodes: seq<MemNode>)
    requires DistinctPtrs(nodes)
    ensures |Live(nodes)| <= |nodes|
  {
    LiveAtMost(nodes);
  }

  lemma {:induction false} LiveAtMost(nodes: seq<MemNode>)
    ensures |Live(nodes)| <= |nodes|
  {
    if nodes != [] {
      LiveAtMost(nodes[..|nodes| - 1]);
    }
  }

  /** `total -= size` on 32 bits, where total stands for the given sum. */
  function Minus(total: nat, size: nat, ghost sum: nat): (r: nat)
    requires total == sum % TWO_32 && size <= sum
    ensures r == (sum - size) % TWO_32
  {
    (total + TWO_32 - size % TWO_32) % TWO_32
  }
}
