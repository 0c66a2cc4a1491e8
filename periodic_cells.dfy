/**
 * Recording where the periodic ghost cells of a level ended up, so that the
 * final renumbering can edit their global indices. The cells are grouped in
 * one block per element type; a level appends to every block.
 *
 * The driver records flat (hybrid) indices: the sizes of the earlier blocks
 * at the end of the level plus the index within the block. A later level
 * that appends to an earlier block shifts every later block, so a recorded
 * flat index can stop designating its cell. `RecordFlatAsWritten` and
 * `FlatIndexGoesStale` model and exhibit that; `RecordCellPairs` records
 * (type, index within block) pairs instead, which `PairsOutliveGrowth`
 * shows stay valid, and which the driver uses.
 */
module PeriodicCells {
  import opened HaloMesh

  // ---------------------------------------------------------------------------
  // flat indices, as the driver writes them

  /** The flat indices of the given per-type block positions. */
  function FlatIndices(newCells: seq<seq<nat>>, blocks: seq<Block>): (r: seq<int>)
    requires |newCells| == |blocks|
  {
    if newCells == [] then []
    else
      var t := |newCells| - 1;
      var last := seq(|newCells[t]|, i requires 0 <= i < |newCells[t]| => TotalCells(blocks[..t]) + newCells[t][i]);
      FlatIndices(newCells[..t], blocks[..t]) + last
  }

  /**
   * The recording loop of the driver: a running count of the cells of the
   * earlier types, plus each recorded position within its type.
   */
  method RecordFlatAsWritten(newCells: seq<seq<nat>>, blocks: seq<Block>) returns (flat: seq<int>)
    requires |newCells| == |blocks|
    ensures flat == FlatIndices(newCells, blocks)
  {
    flat := [];
    var c := 0;
    var t := 0;
    while t < |blocks|
      invariant 0 <= t <= |blocks|
      invariant c == TotalCells(blocks[..t])
      invariant flat == FlatIndices(newCells[..t], blocks[..t])
    {
      ghost var before := flat;
      var i := 0;
      while i < |newCells[t]|
        invariant 0 <= i <= |newCells[t]|
        invariant flat == before + seq(i, j requires 0 <= j < i => c + newCells[t][j])
      {
        flat := flat + [c + newCells[t][i]];
        i := i + 1;
      }
      assert newCells[..t + 1][..t] == newCells[..t];
      assert blocks[..t + 1][..t] == blocks[..t];
      c := c + |blocks[t].cells|;
      t := t + 1;
    }
    assert newCells[..t] == newCells;
    assert blocks[..t] == blocks;
  }

  /** Position k of block t sits at the sizes of the earlier blocks plus k in the flat cell list. */
  lemma {:induction false} FlattenAt(blocks: seq<Block>, t: nat, k: nat)
    requires t < |blocks| && k < |blocks[t].cells|
    ensures TotalCells(blocks[..t]) + k < TotalCells(blocks)
    ensures Flatten(blocks)[TotalCells(blocks[..t]) + k] == blocks[t].cells[k]
    decreases |blocks|
  {
    var n := |blocks| - 1;
    var front := blocks[..n];
    assert blocks[..n + 1] == blocks;
    if t < n {
      assert front[..t] == blocks[..t];
      FlattenAt(front, t, k);
      TotalCellsPrefix(front, t + 1);
      assert front[..t + 1][..t] == front[..t];
    } else {
      assert blocks[..t] == front;
    }
  }

  /** The earlier blocks hold no more cells than all of them. */
  lemma {:induction false} TotalCellsPrefix(blocks: seq<Block>, t: nat)
    requires t <= |blocks|
    ensures TotalCells(blocks[..t]) <= TotalCells(blocks)
    decreases |blocks|
  {
    if t < |blocks| {
      var n := |blocks| - 1;
      assert blocks[..n + 1] == blocks;
      assert blocks[..n][..t] == blocks[..t];
      TotalCellsPrefix(blocks[..n], t);
    } else {
      assert blocks[..t] == blocks;
    }
  }

  /**
   * The flat index recorded for cell 1 of type 1 when the blocks have 1 and
   * 2 cells designates that cell then, but after the next level appends one
   * cell to type 0 it designates a different cell.
   */
  lemma FlatIndexGoesStale()
    ensures var a := Cell(1, 0, 0, 0, [0, 1, 2]);
            var b := Cell(2, 0, 0, 0, [1, 2, 3]);
            var p := Cell(3, 1, 1, 0, [2, 3, 4]);
            var x := Cell(4, 1, 2, 0, [0, 3, 4]);
            var level1 := [Block(3, [a]), Block(3, [b, p])];
            var level2 := [Block(3, [a, x]), Block(3, [b, p])];
            && RecordedAt(FlatIndices([[], [1]], level1), level1) == [p]
            && RecordedAt(FlatIndices([[], [1]], level1), level2) == [b]
  {
    var a := Cell(1, 0, 0, 0, [0, 1, 2]);
    var b := Cell(2, 0, 0, 0, [1, 2, 3]);
    var p := Cell(3, 1, 1, 0, [2, 3, 4]);
    var x := Cell(4, 1, 2, 0, [0, 3, 4]);
    var level1 := [Block(3, [a]), Block(3, [b, p])];
    var level2 := [Block(3, [a, x]), Block(3, [b, p])];
    FlatIndicesOfSecond(level1[0], level1[1]);
    FlattenTwo(level1[0], level1[1]);
    FlattenTwo(level2[0], level2[1]);
    assert Flatten(level1)[2] == p;
    assert Flatten(level2)[2] == b;
    RecordedSingle(2, level1);
    RecordedSingle(2, level2);
  }

  /** Two blocks flatten to the cells of the first followed by those of the second. */
  lemma FlattenTwo(b0: Block, b1: Block)
    ensures Flatten([b0, b1]) == b0.cells + b1.cells
  {
    assert [b0, b1][..1] == [b0];
    assert [b0][..0] == [];
  }

  /** Position 1 of the second of two blocks has flat index one more than the first block's size. */
  lemma FlatIndicesOfSecond(b0: Block, b1: Block)
    ensures FlatIndices([[], [1]], [b0, b1]) == [|b0.cells| + 1]
  {
    var rows: seq<seq<nat>> := [[], [1]];
    assert rows[..1] == [[]] && rows[..1][..0] == [];
    assert [b0, b1][..1] == [b0] && [b0][..0] == [];
    assert TotalCells([b0]) == |b0.cells|;
    assert FlatIndices(rows[..1], [b0, b1][..1]) == [];
    assert FlatIndices(rows, [b0, b1]) == FlatIndices(rows[..1], [b0, b1][..1]) + [TotalCells([b0, b1][..1]) + 1];
  }

  /** A single recorded index inside the flat list designates the cell there. */
  lemma RecordedSingle(f: int, blocks: seq<Block>)
    requires 0 <= f < |Flatten(blocks)|
    ensures RecordedAt([f], blocks) == [Flatten(blocks)[f]]
  {
    assert [f][..0] == [];
  }

  /** The cells the recorded flat indices designate (missing ones left out). */
  function RecordedAt(flat: seq<int>, blocks: seq<Block>): (r: seq<Cell>)
    ensures |r| <= |flat|
  {
    if flat == [] then []
    else
      RecordedAt(flat[..|flat| - 1], blocks)
        + (if 0 <= flat[|flat| - 1] < |Flatten(blocks)| then [Flatten(blocks)[flat[|flat| - 1]]] else [])
  }

  // ---------------------------------------------------------------------------
  // (type, position) pairs

  /** The recorded cells as (type, position within the block) pairs, type by type. */
  function CellPairs(newCells: seq<seq<nat>>): (r: seq<(nat, nat)>)
  {
    if newCells == [] then []
    else
      var t := |newCells| - 1;
      CellPairs(newCells[..t]) + seq(|newCells[t]|, i requires 0 <= i < |newCells[t]| => (t, newCells[t][i]))
  }

  /** The recording loop with pairs in place of flat indices. */
  method RecordCellPairs(newCells: seq<seq<nat>>) returns (pairs: seq<(nat, nat)>)
    ensures pairs == CellPairs(newCells)
  {
    pairs := [];
    var t := 0;
    while t < |newCells|
      invariant 0 <= t <= |newCells|
      invariant pairs == CellPairs(newCells[..t])
    {
      ghost var before := pairs;
      var i := 0;
      while i < |newCells[t]|
        invariant 0 <= i <= |newCells[t]|
        invariant pairs == before + seq(i, j requires 0 <= j < i => (t, newCells[t][j]))
      {
        pairs := pairs + [(t, newCells[t][i])];
        i := i + 1;
      }
      assert newCells[..t + 1][..t] == newCells[..t];
      t := t + 1;
    }
    assert newCells[..t] == newCells;
  }

  /** A pair is recorded exactly when its position is listed for its type. */
  lemma {:induction false} CellPairsMembership(newCells: seq<seq<nat>>, t: nat, k: nat)
    ensures (t, k) in CellPairs(newCells) <==> t < |newCells| && k in newCells[t]
  {
    if newCells != [] {
      var n := |newCells| - 1;
      CellPairsMembership(newCells[..n], t, k);
      var last := seq(|newCells[n]|, i requires 0 <= i < |newCells[n]| => (n, newCells[n][i]));
      assert (t, k) in last <==> t == n && k in newCells[n] by {
        if t == n && k in newCells[n] {
          var i :| 0 <= i < |newCells[n]| && newCells[n][i] == k;
          assert last[i] == (t, k);
        }
      }
    }
  }

  /** The pair designates a cell of the blocks. */
  predicate InBlocks(blocks: seq<Block>, p: (nat, nat))
  {
    p.0 < |blocks| && p.1 < |blocks[p.0].cells|
  }

  /** Blocks grown by appending only: every block keeps its cells as a prefix. */
  predicate AppendOnly(blocks: seq<Block>, blocks': seq<Block>)
  {
    |blocks'| == |blocks| && forall t :: 0 <= t < |blocks| ==> blocks[t].cells <= blocks'[t].cells
  }

  /** When a level only appends, a recorded pair keeps designating the same cell. */
  lemma PairsOutliveGrowth(blocks: seq<Block>, blocks': seq<Block>, p: (nat, nat))
    requires AppendOnly(blocks, blocks') && InBlocks(blocks, p)
    ensures InBlocks(blocks', p) && blocks'[p.0].cells[p.1] == blocks[p.0].cells[p.1]
  {
  }

  /** At the time of recording, a pair and the flat index of the same position designate the same cell. */
  lemma PairsAgreeWithFlat(blocks: seq<Block>, p: (nat, nat))
    requires InBlocks(blocks, p)
    ensures TotalCells(blocks[..p.0]) + p.1 < |Flatten(blocks)|
    ensures Flatten(blocks)[TotalCells(blocks[..p.0]) + p.1] == blocks[p.0].cells[p.1]
  {
    FlattenAt(blocks, p.0, p.1);
  }
}
