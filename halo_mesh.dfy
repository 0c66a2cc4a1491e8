/**
 * The pieces of a rank's mesh that halo construction reads and grows: the node
 * rows, the cells grouped in one block per element type, the topology flag
 * bits and the mesh metadata that records the halo depth.
 */
module HaloMesh {
  import opened Wrappers

  /** A planar (x, y) coordinate; also used for (lon, lat). */
  datatype Point = Point(x: real, y: real)

  /**
   * Coordinate-derived unique identifiers. The rounding and hashing behind them
   * is not part of this model; only their being functions of the coordinates is.
   * `node` identifies one point, `cell` an element by the points of its nodes.
   */
  datatype UidFn = UidFn(node: Point -> int, cell: seq<Point> -> int)

  /** Topology flag bits of a node (the Topology enum of the node storage). */
  const NONE: bv32 := 0
  const GHOST: bv32 := 2
  const PERIODIC: bv32 := 4
  const WEST: bv32 := 16
  const EAST: bv32 := 32

  /** Topology::check: every bit of `flag` is set in `flags`. */
  predicate Check(flags: bv32, flag: bv32)
  {
    flags & flag == flag
  }

  /** One row of the node storage. */
  datatype Node = Node(glb: int, part: int, ridx: int, flags: bv32, isGhost: int, xy: Point, lonlat: Point)

  /** One row of an element block: its fields and its node-connectivity row. */
  datatype Cell = Cell(glb: int, part: int, halo: int, patch: int, nodes: seq<nat>)

  /** The elements of one type: a fixed number of nodes per element. */
  datatype Block = Block(cols: nat, cells: seq<Cell>)

  /** All cells in hybrid order: the blocks one after another. */
  function Flatten(blocks: seq<Block>): (r: seq<Cell>)
    ensures |r| == TotalCells(blocks)
  {
    if blocks == [] then [] else Flatten(blocks[..|blocks| - 1]) + blocks[|blocks| - 1].cells
  }

  function TotalCells(blocks: seq<Block>): nat
  {
    if blocks == [] then 0 else TotalCells(blocks[..|blocks| - 1]) + |blocks[|blocks| - 1].cells|
  }

  /** The type (block) index of each cell in hybrid order. */
  function TypeIndices(blocks: seq<Block>): (r: seq<nat>)
    ensures |r| == TotalCells(blocks)
    ensures forall e :: 0 <= e < |r| ==> r[e] < |blocks|
  {
    if blocks == [] then []
    else TypeIndices(blocks[..|blocks| - 1]) + seq(|blocks[|blocks| - 1].cells|, _ => |blocks| - 1)
  }

  /** The number of nodes of every block, which halo growth never changes. */
  function ColsOf(blocks: seq<Block>): (r: seq<nat>)
    ensures |r| == |blocks|
  {
    seq(|blocks|, t requires 0 <= t < |blocks| => blocks[t].cols)
  }

  lemma {:induction false} FlattenedRows(blocks: seq<Block>, e: nat)
    requires e < TotalCells(blocks)
    ensures TypeIndices(blocks)[e] < |blocks|
    ensures |Flatten(blocks)[e].nodes| == blocks[TypeIndices(blocks)[e]].cols || !RowsFit(blocks)
    ensures Flatten(blocks)[e] in blocks[TypeIndices(blocks)[e]].cells
    decreases |blocks|
  {
    var k := |blocks| - 1;
    var front := blocks[..k];
    assert front + [blocks[k]] == blocks;
    if e < TotalCells(front) {
      FlattenedRows(front, e);
      assert Flatten(blocks)[e] == Flatten(front)[e];
      assert TypeIndices(blocks)[e] == TypeIndices(front)[e];
      assert forall t :: 0 <= t < |front| ==> front[t] == blocks[t];
      if RowsFit(blocks) { assert RowsFit(front); }
    } else {
      assert Flatten(blocks)[e] == blocks[k].cells[e - TotalCells(front)];
      assert TypeIndices(blocks)[e] == k;
    }
  }

  /** Every row of a block has exactly the block's number of nodes. */
  ghost predicate RowsFit(blocks: seq<Block>)
  {
    forall t, c :: 0 <= t < |blocks| && c in blocks[t].cells ==> |c.nodes| == blocks[t].cols
  }

  /** Every connectivity entry is a valid node index. */
  ghost predicate RowsInRange(cells: seq<Cell>, nbNodes: nat)
  {
    forall e, j :: 0 <= e < |cells| && 0 <= j < |cells[e].nodes| ==> cells[e].nodes[j] < nbNodes
  }

  /** Every connectivity entry of every block is a valid node index. */
  ghost predicate BlockRowsInRange(blocks: seq<Block>, nbNodes: nat)
  {
    forall t, c :: 0 <= t < |blocks| && c in blocks[t].cells ==> forall j :: 0 <= j < |c.nodes| ==> c.nodes[j] < nbNodes
  }

  lemma FlattenRowsInRange(blocks: seq<Block>, nbNodes: nat)
    requires BlockRowsInRange(blocks, nbNodes)
    ensures RowsInRange(Flatten(blocks), nbNodes)
  {
    forall e | 0 <= e < |Flatten(blocks)| ensures forall j :: 0 <= j < |Flatten(blocks)[e].nodes| ==> Flatten(blocks)[e].nodes[j] < nbNodes {
      FlattenedRows(blocks, e);
    }
  }

  /** The identifier of a local node, computed from its coordinate. */
  function NodeUid(uid: UidFn, nodes: seq<Node>, k: nat): int
    requires k < |nodes|
  {
    uid.node(nodes[k].xy)
  }

  /** The coordinates of a connectivity row. */
  function RowPoints(nodes: seq<Node>, row: seq<nat>): (r: seq<Point>)
    requires forall j :: 0 <= j < |row| ==> row[j] < |nodes|
    ensures |r| == |row|
  {
    seq(|row|, j requires 0 <= j < |row| => nodes[row[j]].xy)
  }

  /** The mesh of one rank. */
  class Mesh {
    var nodes: seq<Node>
    var blocks: seq<Block>
    /** Metadata "halo"; absent means 0. */
    var halo: Option<int>
    /** Metadata "nb_nodes_including_halo[k]", keyed by k. */
    var nbNodesIncludingHalo: map<int, nat>
    /** Metadata "max" of the node and cell global-index fields. */
    var nodesGlbMax: Option<int>
    var cellsGlbMax: Option<int>
    /** Metadata "human_readable" of the node and cell global-index fields. */
    var nodesHumanReadable: bool
    var cellsHumanReadable: bool

    ghost predicate Valid()
      reads this
    {
      && RowsFit(blocks)
      && BlockRowsInRange(blocks, |nodes|)
    }

    function Cells(): (r: seq<Cell>)
      reads this
      ensures |r| == TotalCells(blocks)
    {
      Flatten(blocks)
    }

    constructor (nodes: seq<Node>, blocks: seq<Block>, halo: Option<int>)
      ensures this.nodes == nodes && this.blocks == blocks && this.halo == halo
      ensures nbNodesIncludingHalo == map[] && nodesGlbMax == None && cellsGlbMax == None
      ensures !nodesHumanReadable && !cellsHumanReadable
    {
      this.nodes := nodes;
      this.blocks := blocks;
      this.halo := halo;
      nbNodesIncludingHalo := map[];
      nodesGlbMax := None;
      cellsGlbMax := None;
      nodesHumanReadable := false;
      cellsHumanReadable := false;
    }
  }
}
