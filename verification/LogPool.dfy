/**
  The memory behind the log blocks: one pool of nodes shared by all blocks,
  each block an intrusive list through it.  References are indices, NULL is -1.
 */
module LogPool {
  import opened LogToc
  import opened LogBlocks

  const NULL := -1
  const BLOCK_ID_FREE := -1

  datatype Node = Node(next: int, sample: Sample) {
    /** A node is free if its variable is the null address. */
    predicate IsFree() {
      sample.variable == 0
    }
  }

  datatype Block = Block(id: int, ops: int) {
    predicate IsFree() {
      id == BLOCK_ID_FREE
    }
  }

  function FreeCount(nodes: seq<Node>): nat {
    if nodes == [] then 0
    else FreeCount(nodes[..|nodes| - 1]) + if nodes[|nodes| - 1].IsFree() then 1 else 0
  }

  lemma {:induction false} FreeCountUpdate(nodes: seq<Node>, n: nat, node: Node)
    requires n < |nodes|
    ensures FreeCount(nodes[n := node])
         == FreeCount(nodes) - (if nodes[n].IsFree() then 1 else 0) + (if node.IsFree() then 1 else 0)
  {
    var k := |nodes| - 1;
    if n == k {
      assert nodes[n := node][..k] == nodes[..k];
    } else {
      FreeCountUpdate(nodes[..k], n, node);
      assert nodes[n := node][..k] == nodes[..k][n := node];
    }
  }

  lemma {:induction false} FreeCountAll(nodes: seq<Node>)
    ensures FreeCount(nodes) <= |nodes|
    ensures (forall n :: 0 <= n < |nodes| ==> nodes[n].IsFree()) ==> FreeCount(nodes) == |nodes|
    ensures FreeCount(nodes) == 0 <==> forall n :: 0 <= n < |nodes| ==> !nodes[n].IsFree()
  {
    if nodes != [] {
      var k := |nodes| - 1;
      FreeCountAll(nodes[..k]);
      assert forall n :: 0 <= n < k ==> nodes[..k][n] == nodes[n];
    }
  }

  /** The reference that follows the first `p` nodes of a list. */
  function At(list: seq<nat>, p: nat): int
    requires p <= |list|
  {
    if p < |list| then list[p] else NULL
  }

  ghost predicate InPool(list: seq<nat>, nodes: seq<Node>) {
    forall p :: 0 <= p < |list| ==> list[p] < |nodes|
  }

  /** From `head`, the links run through `list` and end in NULL. */
  ghost predicate Linked(nodes: seq<Node>, head: int, list: seq<nat>)
    requires InPool(list, nodes)
  {
    && head == At(list, 0)
    && forall p {:trigger list[p]} :: 0 <= p < |list| ==> nodes[list[p]].next == At(list, p + 1)
  }

  function SamplesOf(nodes: seq<Node>, list: seq<nat>): (ss: seq<Sample>)
    requires InPool(list, nodes)
    ensures |ss| == |list|
    ensures forall p :: 0 <= p < |list| ==> ss[p] == nodes[list[p]].sample
  {
    seq(|list|, p requires 0 <= p < |list| => nodes[list[p]].sample)
  }

  /** The concrete memory together with the reading of it: the list of nodes of
      every block, the owner of every node, and the blocks by id. */
  datatype Pool = Pool(nodes: seq<Node>, blocks: seq<Block>, lists: seq<seq<nat>>, owner: seq<int>, contents: Blocks)

  /** The nodes of list `i` are owned by block `i`, and none is visited twice. */
  ghost predicate ListOwned(list: seq<nat>, i: nat, nodes: seq<Node>, owner: seq<int>)
    requires |owner| == |nodes|
  {
    && InPool(list, nodes)
    && (forall k :: 0 <= k < |list| ==> owner[list[k]] == i)
    && (forall k, l :: 0 <= k < l < |list| ==> list[k] != list[l])
  }

  /** A node with an owner is in the owner's list; a node is marked free iff it
      has none. */
  ghost predicate NodeOwned(n: nat, nodes: seq<Node>, owner: seq<int>, lists: seq<seq<nat>>)
    requires n < |nodes| == |owner|
  {
    && -1 <= owner[n] < |lists|
    && (owner[n] >= 0 ==> n in lists[owner[n]])
    && (nodes[n].IsFree() <==> owner[n] == -1)
  }

  /** So the lists are disjoint and free of cycles, and the nodes marked as used
      are exactly those in some list. */
  ghost predicate Owned(p: Pool) {
    && |p.lists| == MAX_BLOCKS && |p.owner| == |p.nodes|
    && (forall i :: 0 <= i < MAX_BLOCKS ==> ListOwned(p.lists[i], i, p.nodes, p.owner))
    && (forall n :: 0 <= n < |p.nodes| ==> NodeOwned(n, p.nodes, p.owner, p.lists))
  }

  /** A block in use is in `contents`, with the samples along its links. */
  ghost predicate BlockRead(block: Block, list: seq<nat>, nodes: seq<Node>, contents: Blocks)
  {
    && InPool(list, nodes)
    && if block.IsFree() then list == []
       else && block.id in contents
            && contents[block.id] == SamplesOf(nodes, list)
            && Linked(nodes, block.ops, list)
  }

  ghost predicate AllRead(p: Pool) {
    && |p.lists| == |p.blocks| == MAX_BLOCKS
    && forall i :: 0 <= i < MAX_BLOCKS ==> BlockRead(p.blocks[i], p.lists[i], p.nodes, p.contents)
  }

  ghost predicate UniqueIds(blocks: seq<Block>) {
    forall i, j :: 0 <= i < j < |blocks| && !blocks[i].IsFree() ==> blocks[i].id != blocks[j].id
  }

  ghost predicate AllFound(contents: Blocks, blocks: seq<Block>) {
    forall k :: k in contents ==> exists i :: 0 <= i < |blocks| && !blocks[i].IsFree() && blocks[i].id == k
  }

  ghost predicate BlockFits(id: int, ss: seq<Sample>) {
    0 <= id < 0x100 && Typed(ss) && PacketBytes(ss) <= MAX_LENGTH
  }

  ghost predicate AllFit(contents: Blocks) {
    forall k :: k in contents ==> BlockFits(k, contents[k])
  }

  ghost predicate Inv(p: Pool) {
    && |p.nodes| == MAX_OPS
    && Owned(p) && AllRead(p)
    && UniqueIds(p.blocks) && AllFound(p.contents, p.blocks)
    && FreeCount(p.nodes) + Total(p.contents) == MAX_OPS
    && AllFit(p.contents)
  }

  // ---------- Appending a node to a block ----------

  /** The links after node `n` with sample `s` was put behind the last node of `list`. */
  function Extended(nodes: seq<Node>, list: seq<nat>, n: nat, s: Sample): (r: seq<Node>)
    requires InPool(list, nodes) && n < |nodes|
    ensures |r| == |nodes|
  {
    var filled := nodes[n := Node(NULL, s)];
    if list == [] then filled
    else
      var last := list[|list| - 1];
      filled[last := filled[last].(next := n)]
  }

  ghost function Appended(p: Pool, i: nat, n: nat, s: Sample): Pool
    requires AllRead(p) && |p.owner| == |p.nodes| && i < MAX_BLOCKS && !p.blocks[i].IsFree() && n < |p.nodes|
  {
    var list, block := p.lists[i], p.blocks[i];
    assert BlockRead(block, list, p.nodes, p.contents);
    Pool(
      Extended(p.nodes, list, n, s),
      p.blocks[i := if list == [] then block.(ops := n) else block],
      p.lists[i := list + [n]],
      p.owner[n := i],
      p.contents[block.id := p.contents[block.id] + [s]])
  }

  /** A free node is in no list. */
  lemma FreeNodeUnlisted(p: Pool, n: nat, i: nat)
    requires Owned(p) && n < |p.nodes| && p.nodes[n].IsFree() && i < MAX_BLOCKS
    ensures p.owner[n] == -1 && n !in p.lists[i]
  {
    assert NodeOwned(n, p.nodes, p.owner, p.lists);
    assert ListOwned(p.lists[i], i, p.nodes, p.owner);
  }

  lemma ListsDisjoint(p: Pool, i: nat, j: nat)
    requires Owned(p) && i < MAX_BLOCKS && j < MAX_BLOCKS && i != j
    ensures forall k :: 0 <= k < |p.lists[i]| ==> p.lists[i][k] !in p.lists[j]
  {
    assert ListOwned(p.lists[i], i, p.nodes, p.owner);
    assert ListOwned(p.lists[j], j, p.nodes, p.owner);
  }

  lemma OwnListExtended(list: seq<nat>, i: nat, nodes: seq<Node>, nodes': seq<Node>, owner: seq<int>, n: nat)
    requires |owner| == |nodes| == |nodes'| && ListOwned(list, i, nodes, owner) && n < |nodes| && n !in list
    ensures ListOwned(list + [n], i, nodes', owner[n := i])
  {
  }

  lemma OtherListOwned(list: seq<nat>, j: nat, nodes: seq<Node>, nodes': seq<Node>, owner: seq<int>, n: nat, i: nat)
    requires |owner| == |nodes| == |nodes'| && ListOwned(list, j, nodes, owner) && n < |nodes| && n !in list
    ensures ListOwned(list, j, nodes', owner[n := i])
  {
  }

  /** Filling and linking a node changes which nodes are free in one place only. */
  lemma ExtendedMarks(nodes: seq<Node>, list: seq<nat>, n: nat, s: Sample)
    requires InPool(list, nodes) && n < |nodes| && n !in list && s.variable != 0
    ensures forall m :: 0 <= m < |nodes| ==>
      (Extended(nodes, list, n, s)[m].IsFree() <==> m != n && nodes[m].IsFree())
  {
  }

  lemma AppendKeepsOwned(p: Pool, i: nat, n: nat, s: Sample)
    requires Owned(p) && AllRead(p) && i < MAX_BLOCKS && !p.blocks[i].IsFree()
    requires n < |p.nodes| && p.nodes[n].IsFree() && s.variable != 0
    ensures Owned(Appended(p, i, n, s))
  {
    hide ListOwned, BlockRead, Extended;
    var q := Appended(p, i, n, s);
    forall j | 0 <= j < MAX_BLOCKS ensures ListOwned(q.lists[j], j, q.nodes, q.owner) {
      FreeNodeUnlisted(p, n, j);
      if j == i {
        OwnListExtended(p.lists[i], i, p.nodes, q.nodes, p.owner, n);
      } else {
        OtherListOwned(p.lists[j], j, p.nodes, q.nodes, p.owner, n, i);
      }
    }
    FreeNodeUnlisted(p, n, i);
    BlockListInPool(p, i);
    ExtendedMarks(p.nodes, p.lists[i], n, s);
    forall m | 0 <= m < |q.nodes| ensures NodeOwned(m, q.nodes, q.owner, q.lists) {
      assert NodeOwned(m, p.nodes, p.owner, p.lists);
      ExtendedLists(p.lists, i, n, m);
    }
  }

  lemma BlockListInPool(p: Pool, i: nat)
    requires AllRead(p) && i < MAX_BLOCKS
    ensures InPool(p.lists[i], p.nodes)
  {
    assert BlockRead(p.blocks[i], p.lists[i], p.nodes, p.contents);
  }

  lemma ExtendedLists(lists: seq<seq<nat>>, i: nat, n: nat, m: nat)
    requires i < |lists|
    ensures forall j :: 0 <= j < |lists| && m in lists[j] ==> m in lists[i := lists[i] + [n]][j]
    ensures n in lists[i := lists[i] + [n]][i]
  {
    assert lists[i := lists[i] + [n]][i] == lists[i] + [n];
    assert (lists[i] + [n])[|lists[i]|] == n;
  }

  /** The extended block's own list. */
  lemma ExtendedList(nodes: seq<Node>, head: int, list: seq<nat>, n: nat, s: Sample)
    requires InPool(list, nodes) && n < |nodes| && n !in list && Linked(nodes, head, list)
    requires forall p, q :: 0 <= p < q < |list| ==> list[p] != list[q]
    ensures var nodes', list' := Extended(nodes, list, n, s), list + [n];
      && InPool(list', nodes')
      && Linked(nodes', if list == [] then n else head, list')
      && SamplesOf(nodes', list') == SamplesOf(nodes, list) + [s]
  {
    var nodes', list' := Extended(nodes, list, n, s), list + [n];
    forall p {:trigger list'[p]} | 0 <= p < |list'| ensures nodes'[list'[p]].next == At(list', p + 1) {
      if p < |list| {
        assert list'[p] == list[p];
        if p + 1 < |list| {
          assert list[p] != list[|list| - 1];
        }
      }
    }
    forall p | 0 <= p < |list'| ensures SamplesOf(nodes', list')[p] == (SamplesOf(nodes, list) + [s])[p] {
      assert list'[p] == if p < |list| then list[p] else n;
    }
  }

  /** A list that the changed nodes do not belong to is as before. */
  lemma OtherListRead(block: Block, list: seq<nat>, nodes: seq<Node>, nodes': seq<Node>, contents: Blocks,
                      contents': Blocks)
    requires BlockRead(block, list, nodes, contents) && |nodes'| == |nodes|
    requires forall p :: 0 <= p < |list| ==> nodes'[list[p]] == nodes[list[p]]
    requires !block.IsFree() ==> block.id in contents' && contents'[block.id] == contents[block.id]
    ensures BlockRead(block, list, nodes', contents')
  {
    assert SamplesOf(nodes', list) == SamplesOf(nodes, list);
  }

  lemma ExtendedElsewhere(nodes: seq<Node>, list: seq<nat>, n: nat, s: Sample, other: seq<nat>)
    requires InPool(list, nodes) && InPool(other, nodes) && n < |nodes| && n !in other
    requires forall k :: 0 <= k < |list| ==> list[k] !in other
    ensures forall k :: 0 <= k < |other| ==> Extended(nodes, list, n, s)[other[k]] == nodes[other[k]]
  {
  }

  lemma AppendKeepsRead(p: Pool, i: nat, n: nat, s: Sample)
    requires Owned(p) && AllRead(p) && UniqueIds(p.blocks) && i < MAX_BLOCKS && !p.blocks[i].IsFree()
    requires n < |p.nodes| && p.nodes[n].IsFree()
    ensures AllRead(Appended(p, i, n, s))
  {
    hide Extended, ListOwned, NodeOwned, Linked, SamplesOf;
    var q, list := Appended(p, i, n, s), p.lists[i];
    forall j | 0 <= j < MAX_BLOCKS ensures BlockRead(q.blocks[j], q.lists[j], q.nodes, q.contents) {
      FreeNodeUnlisted(p, n, j);
      assert BlockRead(p.blocks[j], p.lists[j], p.nodes, p.contents);
      if j == i {
        ListOnce(p, i);
        ExtendedList(p.nodes, p.blocks[i].ops, list, n, s);
      } else {
        assert BlockRead(p.blocks[i], list, p.nodes, p.contents);
        ListsDisjoint(p, i, j);
        ExtendedElsewhere(p.nodes, list, n, s, p.lists[j]);
        DifferentIds(p.blocks, i, j);
        OtherListRead(p.blocks[j], p.lists[j], p.nodes, q.nodes, p.contents, q.contents);
      }
    }
  }

  lemma ListOnce(p: Pool, i: nat)
    requires Owned(p) && i < MAX_BLOCKS
    ensures forall k, l :: 0 <= k < l < |p.lists[i]| ==> p.lists[i][k] != p.lists[i][l]
  {
    assert ListOwned(p.lists[i], i, p.nodes, p.owner);
  }

  lemma DifferentIds(blocks: seq<Block>, i: nat, j: nat)
    requires UniqueIds(blocks) && i < |blocks| && j < |blocks| && i != j && !blocks[i].IsFree()
    ensures blocks[i].id != blocks[j].id
  {
    assert if i < j then blocks[i].id != blocks[j].id else blocks[j].IsFree() || blocks[j].id != blocks[i].id;
  }

  lemma AppendKeepsInv(p: Pool, i: nat, n: nat, s: Sample)
    requires Inv(p) && i < MAX_BLOCKS && !p.blocks[i].IsFree() && p.blocks[i].id in p.contents
    requires n < MAX_OPS && p.nodes[n].IsFree()
    requires s.variable != 0 && s.logType <= 8
    requires Typed(p.contents[p.blocks[i].id])
    requires PacketBytes(p.contents[p.blocks[i].id]) + TypeLength(s.logType) <= MAX_LENGTH
    ensures Inv(Appended(p, i, n, s))
    ensures FreeCount(Appended(p, i, n, s).nodes) == FreeCount(p.nodes) - 1
  {
    hide ListOwned, NodeOwned, BlockRead, Extended, FreeCount, Total, PacketBytes;
    var q, id := Appended(p, i, n, s), p.blocks[i].id;
    AppendKeepsOwned(p, i, n, s);
    AppendKeepsRead(p, i, n, s);
    FreeNodeUnlisted(p, n, i);
    BlockListInPool(p, i);
    ExtendedCount(p.nodes, p.lists[i], n, s);
    TotalUpdate(p.contents, id, p.contents[id] + [s]);
    PacketBytesStep(p.contents[id], s);
    SameIdsFound(p.contents, q.contents, p.blocks, q.blocks);
  }

  lemma ExtendedCount(nodes: seq<Node>, list: seq<nat>, n: nat, s: Sample)
    requires InPool(list, nodes) && n < |nodes| && n !in list && nodes[n].IsFree() && s.variable != 0
    ensures FreeCount(Extended(nodes, list, n, s)) == FreeCount(nodes) - 1
  {
    var filled := nodes[n := Node(NULL, s)];
    FreeCountUpdate(nodes, n, Node(NULL, s));
    if list != [] {
      var last := list[|list| - 1];
      FreeCountUpdate(filled, last, filled[last].(next := n));
    }
  }

  lemma SameIdsFound(contents: Blocks, contents': Blocks, blocks: seq<Block>, blocks': seq<Block>)
    requires AllFound(contents, blocks) && UniqueIds(blocks)
    requires contents'.Keys == contents.Keys
    requires |blocks'| == |blocks| && forall j :: 0 <= j < |blocks| ==> blocks'[j].id == blocks[j].id
    ensures AllFound(contents', blocks') && UniqueIds(blocks')
  {
    forall k | k in contents' ensures exists j :: 0 <= j < |blocks'| && !blocks'[j].IsFree() && blocks'[j].id == k {
      var j :| 0 <= j < |blocks| && !blocks[j].IsFree() && blocks[j].id == k;
      assert blocks'[j].id == k;
    }
  }

  // ---------- Creating a block ----------

  ghost function Created(p: Pool, i: nat, id: int): Pool
    requires i < |p.blocks|
  {
    p.(blocks := p.blocks[i := Block(id, NULL)], contents := p.contents[id := []])
  }

  lemma CreateKeepsInv(p: Pool, i: nat, id: int)
    requires Inv(p) && i < MAX_BLOCKS && p.blocks[i].IsFree()
    requires 0 <= id < 0x100 && id !in p.contents
    ensures Inv(Created(p, i, id))
  {
    hide Owned, FreeCount, Total, PacketBytes, Linked, SamplesOf;
    var q := Created(p, i, id);
    OwnedIgnoresBlocks(p, q);
    TotalUpdate(p.contents, id, []);
    forall j | 0 <= j < MAX_BLOCKS ensures BlockRead(q.blocks[j], q.lists[j], q.nodes, q.contents) {
      assert BlockRead(p.blocks[j], p.lists[j], p.nodes, p.contents);
      if j == i {
        EmptyListRead(p.nodes);
      }
    }
    CreatedIds(p.contents, p.blocks, i, id);
    EmptyBlockFits(id);
  }

  lemma EmptyListRead(nodes: seq<Node>)
    ensures InPool([], nodes) && Linked(nodes, NULL, []) && SamplesOf(nodes, []) == []
  {
  }

  lemma EmptyBlockFits(id: int)
    requires 0 <= id < 0x100
    ensures BlockFits(id, [])
  {
  }

  lemma OwnedIgnoresBlocks(p: Pool, q: Pool)
    requires Owned(p) && q.nodes == p.nodes && q.lists == p.lists && q.owner == p.owner
    ensures Owned(q)
  {
  }

  lemma CreatedIds(contents: Blocks, blocks: seq<Block>, i: nat, id: int)
    requires AllFound(contents, blocks) && UniqueIds(blocks)
    requires i < |blocks| && blocks[i].IsFree() && id !in contents && id != BLOCK_ID_FREE
    requires forall j :: 0 <= j < |blocks| && !blocks[j].IsFree() ==> blocks[j].id in contents
    ensures AllFound(contents[id := []], blocks[i := Block(id, NULL)])
    ensures UniqueIds(blocks[i := Block(id, NULL)])
  {
    var contents', blocks' := contents[id := []], blocks[i := Block(id, NULL)];
    forall k | k in contents'
      ensures exists j :: 0 <= j < |blocks'| && !blocks'[j].IsFree() && blocks'[j].id == k
    {
      if k == id {
        assert blocks'[i].id == id;
      } else {
        var j :| 0 <= j < |blocks| && !blocks[j].IsFree() && blocks[j].id == k;
        assert blocks'[j].id == k;
      }
    }
  }

  // ---------- Deleting a block ----------

  function Freed(node: Node): Node {
    node.(sample := node.sample.(variable := 0))
  }

  /** The nodes in the first `k` places of `list` marked free, the others unchanged. */
  ghost predicate FreedUpTo(nodes: seq<Node>, nodes': seq<Node>, list: seq<nat>, k: nat)
    requires k <= |list|
  {
    && |nodes'| == |nodes|
    && forall n :: 0 <= n < |nodes| ==> nodes'[n] == if n in list[..k] then Freed(nodes[n]) else nodes[n]
  }

  lemma FreeOneMore(nodes: seq<Node>, nodes': seq<Node>, list: seq<nat>, k: nat)
    requires k < |list| && InPool(list, nodes) && FreedUpTo(nodes, nodes', list, k)
    requires list[k] !in list[..k] && !nodes[list[k]].IsFree()
    ensures nodes'[list[k]] == nodes[list[k]]
    ensures FreedUpTo(nodes, nodes'[list[k] := Freed(nodes'[list[k]])], list, k + 1)
    ensures FreeCount(nodes'[list[k] := Freed(nodes'[list[k]])]) == FreeCount(nodes') + 1
  {
    assert list[..k + 1] == list[..k] + [list[k]];
    FreeCountUpdate(nodes', list[k], Freed(nodes'[list[k]]));
  }

  ghost function Deleted(p: Pool, i: nat, nodes': seq<Node>): Pool
    requires i < |p.blocks| && i < |p.lists|
  {
    Pool(nodes',
         p.blocks[i := p.blocks[i].(id := BLOCK_ID_FREE)],
         p.lists[i := []],
         seq(|p.owner|, n requires 0 <= n < |p.owner| => if p.owner[n] == i then -1 else p.owner[n]),
         p.contents - {p.blocks[i].id})
  }

  lemma DeleteKeepsOwned(p: Pool, i: nat, nodes': seq<Node>)
    requires Owned(p) && i < MAX_BLOCKS == |p.blocks|
    requires FreedUpTo(p.nodes, nodes', p.lists[i], |p.lists[i]|)
    ensures Owned(Deleted(p, i, nodes'))
  {
    hide FreedUpTo;
    var q, list := Deleted(p, i, nodes'), p.lists[i];
    AllFreed(p.nodes, nodes', list);
    forall j | 0 <= j < MAX_BLOCKS ensures ListOwned(q.lists[j], j, q.nodes, q.owner) {
      assert ListOwned(p.lists[j], j, p.nodes, p.owner);
    }
    assert ListOwned(list, i, p.nodes, p.owner);
    forall n | 0 <= n < |q.nodes| ensures NodeOwned(n, q.nodes, q.owner, q.lists) {
      assert NodeOwned(n, p.nodes, p.owner, p.lists);
    }
  }

  lemma AllFreed(nodes: seq<Node>, nodes': seq<Node>, list: seq<nat>)
    requires FreedUpTo(nodes, nodes', list, |list|)
    ensures |nodes'| == |nodes|
    ensures forall n {:trigger nodes'[n]} :: 0 <= n < |nodes| ==>
      nodes'[n] == if n in list then Freed(nodes[n]) else nodes[n]
  {
    assert list[..|list|] == list;
  }

  lemma DeleteKeepsRead(p: Pool, i: nat, nodes': seq<Node>)
    requires Owned(p) && AllRead(p) && UniqueIds(p.blocks) && i < MAX_BLOCKS && !p.blocks[i].IsFree()
    requires FreedUpTo(p.nodes, nodes', p.lists[i], |p.lists[i]|)
    ensures AllRead(Deleted(p, i, nodes'))
  {
    hide FreedUpTo, Owned, Linked, SamplesOf;
    var q, list := Deleted(p, i, nodes'), p.lists[i];
    AllFreed(p.nodes, nodes', list);
    forall j | 0 <= j < MAX_BLOCKS ensures BlockRead(q.blocks[j], q.lists[j], q.nodes, q.contents) {
      if j != i {
        assert BlockRead(p.blocks[j], p.lists[j], p.nodes, p.contents);
        ListsDisjoint(p, j, i);
        DifferentIds(p.blocks, i, j);
        OtherListRead(p.blocks[j], p.lists[j], p.nodes, q.nodes, p.contents, q.contents);
      }
    }
  }

  lemma DeleteKeepsInv(p: Pool, i: nat, nodes': seq<Node>)
    requires Inv(p) && i < MAX_BLOCKS && !p.blocks[i].IsFree()
    requires FreedUpTo(p.nodes, nodes', p.lists[i], |p.lists[i]|)
    requires FreeCount(nodes') == FreeCount(p.nodes) + |p.lists[i]|
    ensures Inv(Deleted(p, i, nodes'))
  {
    hide Owned, FreeCount, Total, PacketBytes, Linked, SamplesOf, FreedUpTo;
    var q, id := Deleted(p, i, nodes'), p.blocks[i].id;
    AllFreed(p.nodes, nodes', p.lists[i]);
    DeleteKeepsOwned(p, i, nodes');
    DeleteKeepsRead(p, i, nodes');
    assert BlockRead(p.blocks[i], p.lists[i], p.nodes, p.contents);
    TotalUpdate(p.contents, id, []);
    DeletedIds(p.contents, p.blocks, i);
  }

  lemma DeletedIds(contents: Blocks, blocks: seq<Block>, i: nat)
    requires AllFound(contents, blocks) && UniqueIds(blocks) && i < |blocks| && !blocks[i].IsFree()
    ensures AllFound(contents - {blocks[i].id}, blocks[i := blocks[i].(id := BLOCK_ID_FREE)])
    ensures UniqueIds(blocks[i := blocks[i].(id := BLOCK_ID_FREE)])
  {
    var blocks' := blocks[i := blocks[i].(id := BLOCK_ID_FREE)];
    forall k | k in contents - {blocks[i].id}
      ensures exists j :: 0 <= j < |blocks'| && !blocks'[j].IsFree() && blocks'[j].id == k
    {
      var j :| 0 <= j < |blocks| && !blocks[j].IsFree() && blocks[j].id == k;
      assert blocks'[j].id == k;
    }
  }

  // ---------- The empty pool ----------

  ghost function EmptyPool(nodes: seq<Node>, blocks: seq<Block>): Pool {
    Pool(nodes, blocks, seq(MAX_BLOCKS, _ => []), seq(|nodes|, _ => -1), map[])
  }

  lemma EmptyInv(nodes: seq<Node>, blocks: seq<Block>)
    requires |nodes| == MAX_OPS && |blocks| == MAX_BLOCKS
    requires forall n :: 0 <= n < |nodes| ==> nodes[n].IsFree()
    requires forall i :: 0 <= i < |blocks| ==> blocks[i].IsFree()
    ensures Inv(EmptyPool(nodes, blocks))
  {
    FreeCountAll(nodes);
  }

  // ---------- Counting blocks ----------

  ghost function IdsUpTo(blocks: seq<Block>, n: nat): set<int>
    requires n <= |blocks|
  {
    if n == 0 then {}
    else if blocks[n - 1].IsFree() then IdsUpTo(blocks, n - 1)
    else IdsUpTo(blocks, n - 1) + {blocks[n - 1].id}
  }

  ghost predicate InUse(blocks: seq<Block>, n: nat, k: int)
    requires n <= |blocks|
  {
    exists i :: 0 <= i < n && !blocks[i].IsFree() && blocks[i].id == k
  }

  lemma {:induction false} IdsInUse(blocks: seq<Block>, n: nat, k: int)
    requires n <= |blocks|
    ensures k in IdsUpTo(blocks, n) <==> InUse(blocks, n, k)
  {
    if n > 0 {
      IdsInUse(blocks, n - 1, k);
      if InUse(blocks, n, k) && !InUse(blocks, n - 1, k) {
        var i :| 0 <= i < n && !blocks[i].IsFree() && blocks[i].id == k;
        assert i == n - 1;
      }
    }
  }

  lemma {:induction false} IdsCounted(blocks: seq<Block>, n: nat)
    requires n <= |blocks| && UniqueIds(blocks)
    ensures |IdsUpTo(blocks, n)| <= n
    ensures |IdsUpTo(blocks, n)| == n <==> forall i :: 0 <= i < n ==> !blocks[i].IsFree()
  {
    if n > 0 {
      IdsCounted(blocks, n - 1);
      IdsInUse(blocks, n - 1, blocks[n - 1].id);
    }
  }

  /** The budgets hold, and there is no free block exactly when all are in use. */
  lemma BudgetsHold(p: Pool)
    requires Inv(p)
    ensures WithinBudget(p.contents)
    ensures |p.contents| == MAX_BLOCKS <==> forall i :: 0 <= i < MAX_BLOCKS ==> !p.blocks[i].IsFree()
    ensures forall i :: 0 <= i < MAX_BLOCKS && !p.blocks[i].IsFree() ==> p.blocks[i].id in p.contents
  {
    hide Owned, FreeCount, Total, PacketBytes, Linked, SamplesOf, IdsUpTo;
    IdsCounted(p.blocks, MAX_BLOCKS);
    var ids := IdsUpTo(p.blocks, MAX_BLOCKS);
    forall i | 0 <= i < MAX_BLOCKS && !p.blocks[i].IsFree() ensures p.blocks[i].id in p.contents {
      assert BlockRead(p.blocks[i], p.lists[i], p.nodes, p.contents);
    }
    forall k ensures k in ids <==> k in p.contents.Keys {
      IdsInUse(p.blocks, MAX_BLOCKS, k);
      if k in p.contents {
        var i :| 0 <= i < |p.blocks| && !p.blocks[i].IsFree() && p.blocks[i].id == k;
      }
    }
    assert ids == p.contents.Keys;
    assert forall k :: k in p.contents ==> BlockFits(k, p.contents[k]);
  }
}
