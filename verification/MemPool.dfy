/**
 The memory pool of osal/mpp_mem_pool.c: nodes move between a used and an unused list, and a
 node's `check` field points to itself exactly while its block is handed out.
 */
module MemPool {

  class Node {
    const block: array<bv8>
    var check: Node?

    /** `mpp_malloc_size(MppMemPoolNode, ..)`, `node->check = node`. */
    constructor (size: nat)
      ensures fresh(block) && block.Length == size && check == this
    {
      block := new bv8[size](_ => 0);
      check := this;
    }
  }

  ghost predicate Distinct(s: seq<Node>) {
    forall i, j | 0 <= i < j < |s| :: s[i] != s[j]
  }

  ghost function Elements(s: seq<Node>): set<Node> {
    set n | n in s
  }

  lemma {:induction false} DistinctSize(s: seq<Node>)
    requires Distinct(s)
    ensures |Elements(s)| == |s|
  {
    if s == [] {
      assert Elements(s) == {};
    } else {
      var n := |s| - 1;
      DistinctSize(s[..n]);
      assert Elements(s) == Elements(s[..n]) + {s[n]};
    }
  }

  /** `list_del` of a node that is on the list. */
  function Without(s: seq<Node>, n: Node): (r: seq<Node>)
    ensures n in s ==> |r| == |s| - 1
  {
    if s == [] then [] else if s[0] == n then s[1..] else [s[0]] + Without(s[1..], n)
  }

  lemma {:induction false} WithoutIs(s: seq<Node>, n: Node)
    requires Distinct(s)
    ensures Distinct(Without(s, n)) && Elements(Without(s, n)) == Elements(s) - {n}
  {
    if s != [] {
      WithoutIs(s[1..], n);
      assert Elements(s) == {s[0]} + Elements(s[1..]);
      if s[0] != n {
        assert s[0] !in Elements(s[1..]);
        assert Elements(Without(s, n)) == {s[0]} + Elements(Without(s[1..], n));
      }
    }
  }

  lemma FrontIs(n: Node, s: seq<Node>)
    ensures Elements([n] + s) == {n} + Elements(s)
    ensures Distinct(s) && n !in s ==> Distinct([n] + s)
  {
  }

  lemma BackIs(s: seq<Node>, n: Node)
    ensures Elements(s + [n]) == Elements(s) + {n}
    ensures Distinct(s) && n !in s ==> Distinct(s + [n])
  {
  }

  lemma TailIs(s: seq<Node>)
    requires s != [] && Distinct(s)
    ensures Elements(s[1..]) == Elements(s) - {s[0]} && Distinct(s[1..]) && s[0] in Elements(s)
  {
    assert s == [s[0]] + s[1..];
  }

  class Pool {
    const size: nat
    var used: seq<Node>
    var unused: seq<Node>
    var usedCount: int
    var unusedCount: int
    /** The largest number of blocks that were ever in use at once. */
    ghost var peak: nat

    ghost function Nodes(): set<Node>
      reads this
    {
      Elements(used) + Elements(unused)
    }

    ghost predicate Valid()
      reads this, Nodes()
    {
      && usedCount == |used| && unusedCount == |unused| && |used| + |unused| == peak
      && Distinct(used) && Distinct(unused) && Elements(used) !! Elements(unused)
      && (forall n | n in used :: n.check == n)
      && (forall n | n in unused :: n.check == null)
      && (forall n | n in Nodes() :: n.block.Length == size)
      && (forall n, m | n in Nodes() && m in Nodes() && n != m :: n.block != m.block)
    }

    /** The blocks handed out. */
    ghost function InUse(): set<array<bv8>>
      reads this, Nodes()
    {
      set n | n in Elements(used) :: n.block
    }

    constructor (size: nat)
      ensures Valid() && used == [] && unused == [] && this.size == size && peak == 0
    {
      this.size := size;
      used, unused := [], [];
      usedCount, unusedCount := 0, 0;
      peak := 0;
    }

    /** The part of `mpp_mem_pool_get` under the lock: reuses the first unused node or allocates
        one. */
    method Acquire() returns (node: Node)
      requires Valid()
      modifies this, Nodes()
      ensures Valid() && used == old(used) + [node] && node !in old(used)
      ensures unused == if old(unused) == [] then [] else old(unused)[1..]
      ensures if old(unused) == [] then fresh(node) && fresh(node.block) else node == old(unused)[0]
      ensures peak == if |used| > old(peak) then |used| else old(peak)
    {
      if unused != [] {
        node := unused[0];
        TailIs(unused);
        assert node !in Elements(used);
        BackIs(used, node);
        unused := unused[1..];
        used := used + [node];
        unusedCount := unusedCount - 1;
        usedCount := usedCount + 1;
        node.check := node;
        return;
      }
      node := new Node(size);
      BackIs(used, node);
      used := used + [node];
      usedCount := usedCount + 1;
      peak := peak + 1;
    }

    /** `mpp_mem_pool_get`: a block of zeros that no one holds. */
    method Get() returns (node: Node)
      requires Valid()
      modifies this, Nodes(), set n | n in unused :: n.block
      ensures Valid() && used == old(used) + [node]
      ensures unused == if old(unused) == [] then [] else old(unused)[1..]
      ensures node.block !in old(InUse()) && node.block.Length == size
      ensures forall k | 0 <= k < node.block.Length :: node.block[k] == 0
      ensures peak == if |used| > old(peak) then |used| else old(peak)
    {
      node := Acquire();
      var i := 0;
      while i < node.block.Length
        invariant i <= node.block.Length && forall k | 0 <= k < i :: node.block[k] == 0
        modifies node.block
      {
        node.block[i] := 0;
        i := i + 1;
      }
    }

    /** `mpp_mem_pool_put` of a block of this pool, or of one that fails its check, wherever it came
        from: a block that is not handed out is rejected by its `check`, and nothing changes. */
    method Put(node: Node)
      requires Valid() && (node in Nodes() || node.check != node)
      modifies this, node
      ensures Valid() && peak == old(peak)
      ensures if node in old(used) then used == Without(old(used), node) && unused == [node] + old(unused)
              else used == old(used) && unused == old(unused) && node.check == old(node.check)
    {
      if node.check != node {
        return;
      }
      assert node !in unused && node in Elements(used);
      ghost var before := used;
      WithoutIs(used, node);
      FrontIs(node, unused);
      used := Without(used, node);
      unused := [node] + unused;
      forall n | n in used
        ensures n in before && n != node
      {
        assert n in Elements(used);
        assert n in Elements(before);
      }
      usedCount := usedCount - 1;
      unusedCount := unusedCount + 1;
      node.check := null;
    }

    /** A node is handed out exactly when it is its own `check`; the nodes ever allocated are as
        many as were ever in use at once. */
    lemma Partition(node: Node)
      requires Valid() && node in Nodes()
      ensures node in used <==> node.check == node
      ensures node in used <==> node !in unused
      ensures |Nodes()| == |used| + |unused| == peak
    {
      DistinctSize(used);
      DistinctSize(unused);
      assert node in Elements(used) <==> node in used;
      assert node in Elements(unused) <==> node in unused;
    }
  }

  /** A second put of the same block is rejected. */
  method PutTwice(pool: Pool, node: Node)
    requires pool.Valid() && node in pool.used
    modifies pool, node
    ensures pool.Valid() && pool.used == Without(old(pool.used), node) && pool.unused == [node] + old(pool.unused)
  {
    assert node in Elements(pool.used);
    pool.Put(node);
    WithoutIs(old(pool.used), node);
    assert node !in Elements(pool.used);
    assert node in Elements(pool.unused);
    pool.Put(node);
  }
}
