/**
 * Reading and writing back the global indices a renumbering edits: nodes are
 * listed by local index, cells by (type, index within the type) pair. Every
 * listed entry ends up with the label of its old global index.
 */
module RenumberFields {
  import opened OrderedSeq
  import opened HaloMesh
  import opened HaloMerge
  import opened HaloRenumber
  import opened PeriodicCells

  /** The label a renumbering gives a global index: one past the maximum plus its rank among the gathered indices. */
  ghost function Label(all: seq<int>, max: int, g: int): int
  {
    max + 1 + Rank(all, g)
  }

  /**
   * Labels keep the order and the ties of gathered indices, and lie between
   * max + 1 and max plus the number of distinct gathered indices.
   */
  lemma LabelOrder(all: seq<int>, max: int, a: int, b: int)
    requires a in all && b in all
    ensures a < b <==> Label(all, max, a) < Label(all, max, b)
    ensures a == b <==> Label(all, max, a) == Label(all, max, b)
    ensures max + 1 <= Label(all, max, a) <= max + |Elems(all)|
  {
    var i :| 0 <= i < |all| && all[i] == a;
    var j :| 0 <= j < |all| && all[j] == b;
    HumanReadableOrder(all, max, i, j);
  }

  /** Every index a partition contributes is among the gathered ones. */
  lemma {:induction false} ConcatContains(parts: seq<seq<int>>, p: nat, j: nat)
    requires p < |parts| && j < |parts[p]|
    ensures parts[p][j] in Concat(parts)
  {
    ConcatSlice(parts, p);
    var d := |Concat(parts[..p])|;
    assert Concat(parts)[d .. d + |parts[p]|][j] == parts[p][j];
  }

  /** A partition's own indices are all among the gathered ones. */
  lemma OwnIndicesGathered(mine: seq<int>, others: seq<seq<int>>, rank: nat)
    requires rank < |others|
    ensures forall j :: 0 <= j < |mine| ==> mine[j] in Concat(others[rank := mine])
  {
    forall j | 0 <= j < |mine| ensures mine[j] in Concat(others[rank := mine]) {
      ConcatContains(others[rank := mine], rank, j);
    }
  }

  // ---------------------------------------------------------------------------
  // nodes

  /** Every listed node index is a node. */
  predicate NodesIn(edit: seq<nat>, n: nat)
  {
    forall j :: 0 <= j < |edit| ==> edit[j] < n
  }

  /** The global indices of the listed nodes, in list order. */
  function NodeGlbs(nodes: seq<Node>, edit: seq<nat>): (r: seq<int>)
    requires NodesIn(edit, |nodes|)
    ensures |r| == |edit|
  {
    seq(|edit|, j requires 0 <= j < |edit| => nodes[edit[j]].glb)
  }

  /** The loop filling glb_idx: the global index of each node to edit. */
  method GatherNodeGlbs(nodes: seq<Node>, edit: seq<nat>) returns (glb: seq<int>)
    requires NodesIn(edit, |nodes|)
    ensures |glb| == |edit| && forall j :: 0 <= j < |edit| ==> glb[j] == nodes[edit[j]].glb
  {
    glb := [];
    var j := 0;
    while j < |edit|
      invariant 0 <= j <= |edit| && |glb| == j
      invariant forall i :: 0 <= i < j ==> glb[i] == nodes[edit[i]].glb
    {
      glb := glb + [nodes[edit[j]].glb];
      j := j + 1;
    }
  }

  /** The nodes after a renumbering: each listed node's global index replaced by its label. */
  ghost function RelabelNodes(nodes: seq<Node>, edit: seq<nat>, all: seq<int>, max: int): (r: seq<Node>)
    ensures |r| == |nodes|
  {
    seq(|nodes|, k requires 0 <= k < |nodes| =>
      if k in edit then nodes[k].(glb := Label(all, max, nodes[k].glb)) else nodes[k])
  }

  /**
   * The write-back loop: the j-th listed node gets the j-th label. A node
   * listed twice must get the same label both times.
   */
  method WriteNodeGlbs(nodes: seq<Node>, edit: seq<nat>, labels: seq<int>) returns (nodes': seq<Node>)
    requires NodesIn(edit, |nodes|) && |labels| == |edit|
    requires forall i, j :: 0 <= i < |edit| && 0 <= j < |edit| && edit[i] == edit[j] ==> labels[i] == labels[j]
    ensures |nodes'| == |nodes|
    ensures forall j :: 0 <= j < |edit| ==> nodes'[edit[j]] == nodes[edit[j]].(glb := labels[j])
    ensures forall k :: 0 <= k < |nodes| && k !in edit ==> nodes'[k] == nodes[k]
  {
    nodes' := nodes;
    var j := 0;
    while j < |edit|
      invariant 0 <= j <= |edit| && |nodes'| == |nodes|
      invariant forall i :: 0 <= i < j ==> nodes'[edit[i]] == nodes[edit[i]].(glb := labels[i])
      invariant forall k :: 0 <= k < |nodes| && k !in edit[..j] ==> nodes'[k] == nodes[k]
    {
      nodes' := nodes'[edit[j] := nodes[edit[j]].(glb := labels[j])];
      assert forall k :: k in edit[..j + 1] <==> k in edit[..j] || k == edit[j];
      j := j + 1;
    }
    assert edit[..j] == edit;
  }

  /** Writing back the labels of the gathered indices gives the relabelled nodes. */
  lemma WrittenNodesRelabelled(nodes: seq<Node>, nodes': seq<Node>, edit: seq<nat>, all: seq<int>, max: int)
    requires NodesIn(edit, |nodes|) && |nodes'| == |nodes|
    requires forall j :: 0 <= j < |edit| ==> nodes'[edit[j]] == nodes[edit[j]].(glb := Label(all, max, nodes[edit[j]].glb))
    requires forall k :: 0 <= k < |nodes| && k !in edit ==> nodes'[k] == nodes[k]
    ensures nodes' == RelabelNodes(nodes, edit, all, max)
  {
    forall k | 0 <= k < |nodes| ensures nodes'[k] == RelabelNodes(nodes, edit, all, max)[k] {
      if k in edit {
        var j :| 0 <= j < |edit| && edit[j] == k;
      }
    }
  }

  /**
   * The relabelled nodes: unlisted nodes are untouched; listed ones keep
   * every field but the global index, whose order and ties among listed
   * nodes are kept, and which now lies above the maximum.
   */
  lemma RelabelledNodes(nodes: seq<Node>, edit: seq<nat>, all: seq<int>, max: int, a: nat, b: nat)
    requires NodesIn(edit, |nodes|) && a < |nodes| && b < |nodes|
    requires forall j :: 0 <= j < |edit| ==> nodes[edit[j]].glb in all
    ensures a !in edit ==> RelabelNodes(nodes, edit, all, max)[a] == nodes[a]
    ensures a in edit ==> RelabelNodes(nodes, edit, all, max)[a] == nodes[a].(glb := RelabelNodes(nodes, edit, all, max)[a].glb)
    ensures a in edit ==> max + 1 <= RelabelNodes(nodes, edit, all, max)[a].glb <= max + |Elems(all)|
    ensures a in edit && b in edit ==>
      (nodes[a].glb < nodes[b].glb <==> RelabelNodes(nodes, edit, all, max)[a].glb < RelabelNodes(nodes, edit, all, max)[b].glb)
    ensures a in edit && b in edit ==>
      (nodes[a].glb == nodes[b].glb <==> RelabelNodes(nodes, edit, all, max)[a].glb == RelabelNodes(nodes, edit, all, max)[b].glb)
  {
    if a in edit && b in edit {
      var i :| 0 <= i < |edit| && edit[i] == a;
      var j :| 0 <= j < |edit| && edit[j] == b;
      LabelOrder(all, max, nodes[a].glb, nodes[b].glb);
    } else if a in edit {
      var i :| 0 <= i < |edit| && edit[i] == a;
      LabelOrder(all, max, nodes[a].glb, nodes[a].glb);
    }
  }

  // ---------------------------------------------------------------------------
  // cells

  /** Every listed pair designates a cell. */
  predicate CellsIn(edit: seq<(nat, nat)>, blocks: seq<Block>)
  {
    forall j :: 0 <= j < |edit| ==> InBlocks(blocks, edit[j])
  }

  /** Every cell, as (type, index within the type) pairs in hybrid order: the list of a full renumbering. */
  function AllCells(blocks: seq<Block>): (r: seq<(nat, nat)>)
  {
    CellPairs(seq(|blocks|, t requires 0 <= t < |blocks| => Between(0, |blocks[t].cells|)))
  }

  /** The full list names exactly the cells. */
  lemma AllCellsExactly(blocks: seq<Block>, t: nat, k: nat)
    ensures (t, k) in AllCells(blocks) <==> InBlocks(blocks, (t, k))
    ensures CellsIn(AllCells(blocks), blocks)
  {
    var lists := seq(|blocks|, t requires 0 <= t < |blocks| => Between(0, |blocks[t].cells|));
    forall t': nat, k': nat ensures (t', k') in AllCells(blocks) <==> InBlocks(blocks, (t', k')) {
      CellPairsMembership(lists, t', k');
      if t' < |blocks| && k' < |blocks[t'].cells| {
        assert lists[t'][k'] == k';
      }
    }
    forall j | 0 <= j < |AllCells(blocks)| ensures InBlocks(blocks, AllCells(blocks)[j]) {
      var p := AllCells(blocks)[j];
      assert p in AllCells(blocks);
    }
  }

  /** The global index of a listed cell. */
  function CellAt(blocks: seq<Block>, p: (nat, nat)): Cell
    requires InBlocks(blocks, p)
  {
    blocks[p.0].cells[p.1]
  }

  /** The global indices of the listed cells, in list order. */
  function CellGlbs(blocks: seq<Block>, edit: seq<(nat, nat)>): (r: seq<int>)
    requires CellsIn(edit, blocks)
    ensures |r| == |edit|
  {
    seq(|edit|, j requires 0 <= j < |edit| => CellAt(blocks, edit[j]).glb)
  }

  /** The loop filling glb_idx: the global index of each cell to edit. */
  method GatherCellGlbs(blocks: seq<Block>, edit: seq<(nat, nat)>) returns (glb: seq<int>)
    requires CellsIn(edit, blocks)
    ensures |glb| == |edit| && forall j :: 0 <= j < |edit| ==> glb[j] == CellAt(blocks, edit[j]).glb
  {
    glb := [];
    var j := 0;
    while j < |edit|
      invariant 0 <= j <= |edit| && |glb| == j
      invariant forall i :: 0 <= i < j ==> glb[i] == CellAt(blocks, edit[i]).glb
    {
      glb := glb + [blocks[edit[j].0].cells[edit[j].1].glb];
      j := j + 1;
    }
  }

  /** Blocks of the same shape whose cells differ at most in their global index. */
  ghost predicate SameButGlb(blocks: seq<Block>, blocks': seq<Block>)
  {
    && |blocks'| == |blocks|
    && (forall t :: 0 <= t < |blocks| ==> blocks'[t].cols == blocks[t].cols && |blocks'[t].cells| == |blocks[t].cells|)
    && (forall t, k :: 0 <= t < |blocks| && 0 <= k < |blocks[t].cells| ==>
          blocks'[t].cells[k] == blocks[t].cells[k].(glb := blocks'[t].cells[k].glb))
  }

  /** The blocks after a renumbering: each listed cell's global index replaced by its label. */
  ghost function RelabelBlocks(blocks: seq<Block>, edit: seq<(nat, nat)>, all: seq<int>, max: int): (r: seq<Block>)
    ensures SameButGlb(blocks, r)
  {
    seq(|blocks|, t requires 0 <= t < |blocks| =>
      Block(blocks[t].cols, seq(|blocks[t].cells|, k requires 0 <= k < |blocks[t].cells| =>
        if (t, k) in edit then blocks[t].cells[k].(glb := Label(all, max, blocks[t].cells[k].glb))
        else blocks[t].cells[k])))
  }

  /** The write-back loop for cells: the j-th listed cell gets the j-th label. */
  method WriteCellGlbs(blocks: seq<Block>, edit: seq<(nat, nat)>, labels: seq<int>) returns (blocks': seq<Block>)
    requires CellsIn(edit, blocks) && |labels| == |edit|
    requires forall i, j :: 0 <= i < |edit| && 0 <= j < |edit| && edit[i] == edit[j] ==> labels[i] == labels[j]
    ensures SameButGlb(blocks, blocks')
    ensures forall j :: 0 <= j < |edit| ==> CellAt(blocks', edit[j]) == CellAt(blocks, edit[j]).(glb := labels[j])
    ensures forall t, k :: 0 <= t < |blocks| && 0 <= k < |blocks[t].cells| && (t, k) !in edit ==>
      blocks'[t].cells[k] == blocks[t].cells[k]
  {
    blocks' := blocks;
    var j := 0;
    while j < |edit|
      invariant 0 <= j <= |edit| && SameButGlb(blocks, blocks')
      invariant forall i :: 0 <= i < j ==> CellAt(blocks', edit[i]) == CellAt(blocks, edit[i]).(glb := labels[i])
      invariant forall t, k :: 0 <= t < |blocks| && 0 <= k < |blocks[t].cells| && (t, k) !in edit[..j] ==>
        blocks'[t].cells[k] == blocks[t].cells[k]
    {
      var p := edit[j];
      var b := blocks'[p.0];
      blocks' := blocks'[p.0 := b.(cells := b.cells[p.1 := blocks[p.0].cells[p.1].(glb := labels[j])])];
      assert forall q :: q in edit[..j + 1] <==> q in edit[..j] || q == p;
      j := j + 1;
    }
    assert edit[..j] == edit;
  }

  /** Writing back the labels of the gathered indices gives the relabelled blocks. */
  lemma WrittenBlocksRelabelled(blocks: seq<Block>, blocks': seq<Block>, edit: seq<(nat, nat)>, all: seq<int>, max: int)
    requires CellsIn(edit, blocks) && SameButGlb(blocks, blocks')
    requires forall j :: 0 <= j < |edit| ==>
      CellAt(blocks', edit[j]) == CellAt(blocks, edit[j]).(glb := Label(all, max, CellAt(blocks, edit[j]).glb))
    requires forall t, k :: 0 <= t < |blocks| && 0 <= k < |blocks[t].cells| && (t, k) !in edit ==>
      blocks'[t].cells[k] == blocks[t].cells[k]
    ensures blocks' == RelabelBlocks(blocks, edit, all, max)
  {
    var r := RelabelBlocks(blocks, edit, all, max);
    forall t | 0 <= t < |blocks| ensures blocks'[t] == r[t] {
      forall k | 0 <= k < |blocks[t].cells| ensures blocks'[t].cells[k] == r[t].cells[k] {
        if (t, k) in edit {
          var j :| 0 <= j < |edit| && edit[j] == (t, k);
        }
      }
    }
  }

  /** Changing only global indices keeps every row, so a valid mesh stays valid. */
  lemma SameButGlbKeepsRows(blocks: seq<Block>, blocks': seq<Block>, nbNodes: nat)
    requires SameButGlb(blocks, blocks')
    requires RowsFit(blocks) && BlockRowsInRange(blocks, nbNodes)
    ensures RowsFit(blocks') && BlockRowsInRange(blocks', nbNodes) && ColsOf(blocks') == ColsOf(blocks)
  {
    forall t, c | 0 <= t < |blocks'| && c in blocks'[t].cells
      ensures |c.nodes| == blocks'[t].cols && forall j :: 0 <= j < |c.nodes| ==> c.nodes[j] < nbNodes
    {
      var k :| 0 <= k < |blocks'[t].cells| && blocks'[t].cells[k] == c;
      assert c.nodes == blocks[t].cells[k].nodes;
      assert blocks[t].cells[k] in blocks[t].cells;
    }
  }

  /** A list of cells stays a list of cells when only global indices change. */
  lemma SameButGlbKeepsCellsIn(edit: seq<(nat, nat)>, blocks: seq<Block>, blocks': seq<Block>)
    requires SameButGlb(blocks, blocks') && CellsIn(edit, blocks)
    ensures CellsIn(edit, blocks')
  {
  }

  /**
   * The relabelled cells: unlisted cells are untouched; listed ones keep
   * every field but the global index, whose order and ties among listed
   * cells are kept, and which now lies above the maximum.
   */
  lemma RelabelledCells(blocks: seq<Block>, edit: seq<(nat, nat)>, all: seq<int>, max: int, a: (nat, nat), b: (nat, nat))
    requires CellsIn(edit, blocks) && InBlocks(blocks, a) && InBlocks(blocks, b)
    requires forall j :: 0 <= j < |edit| ==> CellAt(blocks, edit[j]).glb in all
    ensures a !in edit ==> CellAt(RelabelBlocks(blocks, edit, all, max), a) == CellAt(blocks, a)
    ensures a in edit ==> max + 1 <= CellAt(RelabelBlocks(blocks, edit, all, max), a).glb <= max + |Elems(all)|
    ensures a in edit && b in edit ==>
      (CellAt(blocks, a).glb < CellAt(blocks, b).glb <==>
       CellAt(RelabelBlocks(blocks, edit, all, max), a).glb < CellAt(RelabelBlocks(blocks, edit, all, max), b).glb)
    ensures a in edit && b in edit ==>
      (CellAt(blocks, a).glb == CellAt(blocks, b).glb <==>
       CellAt(RelabelBlocks(blocks, edit, all, max), a).glb == CellAt(RelabelBlocks(blocks, edit, all, max), b).glb)
  {
    if a in edit && b in edit {
      var i :| 0 <= i < |edit| && edit[i] == a;
      var j :| 0 <= j < |edit| && edit[j] == b;
      LabelOrder(all, max, CellAt(blocks, a).glb, CellAt(blocks, b).glb);
    } else if a in edit {
      var i :| 0 <= i < |edit| && edit[i] == a;
      LabelOrder(all, max, CellAt(blocks, a).glb, CellAt(blocks, a).glb);
    }
  }
}
