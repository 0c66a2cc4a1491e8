/**
 * BuildHalo: grows the halo of a distributed mesh level by level up to a
 * requested depth. Every level runs the interior pass and the West and East
 * periodic passes on a fresh helper, records the periodic ghost nodes and
 * cells it created and updates the halo metadata; at the end the global
 * indices of the recorded periodic entries are renumbered human-readably.
 */
module BuildHaloDriver {
  import opened Wrappers
  import opened OrderedSeq
  import opened HaloMesh
  import opened HaloLookup
  import opened HaloBuffers
  import opened HaloMerge
  import opened HaloPasses
  import opened HaloRenumber
  import opened PeriodicCells
  import opened RenumberFields

  /** A translation in x: forward adds dx, backward takes it away again. */
  function Translation(dx: real): (t: Transform)
    ensures forall p :: t.backward(t.forward(p)) == p && t.forward(t.backward(p)) == p
  {
    Transform((p: Point) => Point(p.x + dx, p.y), (p: Point) => Point(p.x - dx, p.y))
  }

  /** WestEast moves a coordinate one period east, EastWest one period west. */
  const WestEast: Transform := Translation(360.0)
  const EastWest: Transform := Translation(-360.0)

  /**
   * What one renumbering receives from the other partitions, as given data:
   * every partition's gathered global indices (the own slot is replaced by
   * this partition's) and the maximum stored on rank 0, where the labels are
   * assigned.
   */
  datatype Gathered = Gathered(others: seq<seq<int>>, rootMax: int)

  /** The maximum the labels start above: 0 for a full renumbering, else the one stored on rank 0. */
  function StartMax(doAll: bool, rank: nat, stored: Option<int>, rootMax: int): int
  {
    if doAll then 0 else if rank == 0 then stored.GetOr(0) else rootMax
  }

  /** The flags column of the nodes. */
  function NodeFlags(nodes: seq<Node>): (r: seq<bv32>)
    ensures |r| == |nodes| && forall k :: 0 <= k < |nodes| ==> r[k] == nodes[k].flags
  {
    seq(|nodes|, k requires 0 <= k < |nodes| => nodes[k].flags)
  }

  /** The number of cells of every block. */
  function Sizes(blocks: seq<Block>): (r: seq<nat>)
    ensures |r| == |blocks| && forall t :: 0 <= t < |blocks| ==> r[t] == |blocks[t].cells|
  {
    seq(|blocks|, t requires 0 <= t < |blocks| => |blocks[t].cells|)
  }

  /** The cells of every block from a given size on: those a level's periodic passes appended. */
  function NewPeriodicCells(sizes: seq<nat>, blocks: seq<Block>): (r: seq<seq<nat>>)
    requires |sizes| == |blocks|
    ensures |r| == |blocks|
  {
    seq(|blocks|, t requires 0 <= t < |blocks| => Between(sizes[t], |blocks[t].cells|))
  }

  /** Two adjacent ranges of indices make one. */
  lemma BetweenConcat(a: nat, b: nat, c: nat)
    requires a <= b <= c
    ensures Between(a, b) + Between(b, c) == Between(a, c)
  {
    var s := Between(a, b) + Between(b, c);
    assert forall i :: 0 <= i < |s| ==> s[i] == a + i by {
      forall i | 0 <= i < |s| ensures s[i] == a + i {
        if i >= b - a {
          assert s[i] == Between(b, c)[i - (b - a)];
        }
      }
    }
  }

  /** A range of indices holds exactly the indices from its start up to its end. */
  lemma BetweenMembership(lo: nat, hi: nat, k: int)
    ensures k in Between(lo, hi) <==> lo <= k < hi
  {
    var r := Between(lo, hi);
    if lo <= k < hi {
      assert r[k - lo] == k;
    }
    if k in r {
      var i :| 0 <= i < |r| && r[i] == k;
      assert lo <= k < hi;
    }
  }

  /**
   * What a level records stays valid: earlier records survive the growth,
   * and the new ones name nodes and cells of the grown mesh.
   */
  lemma LevelRecordsIn(points: seq<nat>, pairs: seq<(nat, nat)>, n0: nat, blocks0: seq<Block>,
                       from: nat, n: nat, sizes: seq<nat>, blocks: seq<Block>)
    requires NodesIn(points, n0) && CellsIn(pairs, blocks0)
    requires n0 <= from <= n && |blocks0| == |blocks| == |sizes|
    requires forall t :: 0 <= t < |blocks| ==> blocks0[t].cells <= blocks[t].cells
    ensures NodesIn(points + Between(from, n), n)
    ensures CellsIn(pairs + CellPairs(NewPeriodicCells(sizes, blocks)), blocks)
  {
    NewPeriodicCellsIn(sizes, blocks);
    var added := CellPairs(NewPeriodicCells(sizes, blocks));
    forall j | 0 <= j < |pairs + added| ensures InBlocks(blocks, (pairs + added)[j]) {
      if j < |pairs| {
        assert InBlocks(blocks0, pairs[j]);
      } else {
        assert (pairs + added)[j] == added[j - |pairs|];
      }
    }
  }

  /** The node records from position `from` on name nodes created after the first n0. */
  ghost predicate CreatedNodes(points: seq<nat>, from: nat, n0: nat)
  {
    forall j :: from <= j < |points| ==> n0 <= points[j]
  }

  /** The cell records from position `from` on name cells appended after those of blocks0. */
  ghost predicate CreatedCells(pairs: seq<(nat, nat)>, from: nat, blocks0: seq<Block>)
  {
    forall j :: from <= j < |pairs| ==> pairs[j].0 < |blocks0| && |blocks0[pairs[j].0].cells| <= pairs[j].1
  }

  /** What a level records are nodes and cells the level created: none of them existed before it. */
  lemma LevelRecordsCreated(points: seq<nat>, pairs: seq<(nat, nat)>, n0: nat, blocks0: seq<Block>,
                            from: nat, n: nat, sizes: seq<nat>, blocks: seq<Block>)
    requires n0 <= from && |blocks0| == |blocks| == |sizes|
    requires forall t :: 0 <= t < |blocks| ==> |blocks0[t].cells| <= sizes[t]
    ensures CreatedNodes(points + Between(from, n), |points|, n0)
    ensures CreatedCells(pairs + CellPairs(NewPeriodicCells(sizes, blocks)), |pairs|, blocks0)
  {
    var lists := NewPeriodicCells(sizes, blocks);
    var added := CellPairs(lists);
    forall j | |pairs| <= j < |pairs + added|
      ensures (pairs + added)[j].0 < |blocks0| && |blocks0[(pairs + added)[j].0].cells| <= (pairs + added)[j].1
    {
      var p := added[j - |pairs|];
      assert (pairs + added)[j] == p;
      assert p in added;
      CellPairsMembership(lists, p.0, p.1);
      BetweenMembership(sizes[p.0], |blocks[p.0].cells|, p.1);
    }
  }

  /**
   * Blocks grown from blocks0 by levels lo + 1 up to hi: every block keeps
   * its cells as a prefix, and every appended cell is a halo cell of one of
   * those levels, in no patch.
   */
  ghost predicate GrownBetween(blocks0: seq<Block>, blocks: seq<Block>, lo: int, hi: int)
  {
    && |blocks| == |blocks0|
    && (forall t :: 0 <= t < |blocks| ==> blocks0[t].cells <= blocks[t].cells)
    && (forall t, k :: 0 <= t < |blocks| && |blocks0[t].cells| <= k < |blocks[t].cells| ==>
          lo < blocks[t].cells[k].halo <= hi && blocks[t].cells[k].patch == 0)
  }

  /** One more level, appending the cells of depth hi + 1, extends the growth by that depth. */
  lemma GrownBetweenStep(blocks0: seq<Block>, blocks1: seq<Block>, blocks2: seq<Block>, lo: int, hi: int)
    requires GrownBetween(blocks0, blocks1, lo, hi) && lo <= hi && |blocks2| == |blocks1|
    requires forall t :: 0 <= t < |blocks1| ==> Appended(blocks1[t], blocks2[t], hi)
    ensures GrownBetween(blocks0, blocks2, lo, hi + 1)
  {
    forall t, k | 0 <= t < |blocks2| && |blocks0[t].cells| <= k < |blocks2[t].cells|
      ensures lo < blocks2[t].cells[k].halo <= hi + 1 && blocks2[t].cells[k].patch == 0
    {
      assert Appended(blocks1[t], blocks2[t], hi);
      if k < |blocks1[t].cells| {
        assert blocks2[t].cells[k] == blocks1[t].cells[k];
      }
    }
  }

  /** The records of a run stay created by it when one more level appends records of its own. */
  lemma RecordsCreatedStep(points0: seq<nat>, points1: seq<nat>, points2: seq<nat>, n0: nat, n1: nat,
                           pairs0: seq<(nat, nat)>, pairs1: seq<(nat, nat)>, pairs2: seq<(nat, nat)>,
                           blocks0: seq<Block>, blocks1: seq<Block>)
    requires points0 <= points1 <= points2 && n0 <= n1
    requires CreatedNodes(points1, |points0|, n0) && CreatedNodes(points2, |points1|, n1)
    requires pairs0 <= pairs1 <= pairs2 && |blocks0| == |blocks1|
    requires forall t :: 0 <= t < |blocks1| ==> blocks0[t].cells <= blocks1[t].cells
    requires CreatedCells(pairs1, |pairs0|, blocks0) && CreatedCells(pairs2, |pairs1|, blocks1)
    ensures CreatedNodes(points2, |points0|, n0) && CreatedCells(pairs2, |pairs0|, blocks0)
  {
    forall j | |points0| <= j < |points2| ensures n0 <= points2[j] {
      if j < |points1| {
        assert points2[j] == points1[j];
      }
    }
    forall j | |pairs0| <= j < |pairs2|
      ensures pairs2[j].0 < |blocks0| && |blocks0[pairs2[j].0].cells| <= pairs2[j].1
    {
      if j < |pairs1| {
        assert pairs2[j] == pairs1[j];
      } else {
        assert |blocks0[pairs2[j].0].cells| <= |blocks1[pairs2[j].0].cells|;
      }
    }
  }

  /** Appending twice with the same halo is appending once. */
  lemma AppendedTwice(b1: Block, b2: Block, b3: Block, halo: int)
    requires Appended(b1, b2, halo) && Appended(b2, b3, halo)
    ensures Appended(b1, b3, halo)
  {
    forall k | |b1.cells| <= k < |b3.cells| ensures b3.cells[k].halo == halo + 1 && b3.cells[k].patch == 0 {
      if k < |b2.cells| {
        assert b3.cells[k] == b2.cells[k];
      }
    }
  }

  /** The recorded pairs of the ranges appended from the given sizes on designate cells. */
  lemma NewPeriodicCellsIn(sizes: seq<nat>, blocks: seq<Block>)
    requires |sizes| == |blocks|
    ensures CellsIn(CellPairs(NewPeriodicCells(sizes, blocks)), blocks)
  {
    var lists := NewPeriodicCells(sizes, blocks);
    var pairs := CellPairs(lists);
    forall j | 0 <= j < |pairs| ensures InBlocks(blocks, pairs[j]) {
      var p := pairs[j];
      assert p in pairs;
      CellPairsMembership(lists, p.0, p.1);
      var i :| 0 <= i < |lists[p.0]| && lists[p.0][i] == p.1;
    }
  }

  /** The node counts recorded for the depths above lo and up to hi, never decreasing with the depth. */
  ghost predicate CountsRecorded(m: map<int, nat>, lo: int, hi: int)
  {
    && (forall k :: lo < k <= hi ==> k in m)
    && (forall k :: lo < k < hi ==> m[k] <= m[k + 1])
  }

  /** The metadata keys outside (lo, hi] are as they were. */
  ghost predicate SameOutside(m: map<int, nat>, m0: map<int, nat>, lo: int, hi: int)
  {
    forall k :: k <= lo || k > hi ==> (k in m <==> k in m0) && (k in m0 ==> m[k] == m0[k])
  }

  lemma SameOutsideWider(m: map<int, nat>, m0: map<int, nat>, lo: int, j: int, hi: int)
    requires SameOutside(m, m0, lo, j) && j <= hi
    ensures SameOutside(m, m0, lo, hi)
  {
  }

  /** Recording the count of depth j + 1, at least that of depth j, extends the recorded counts by one depth. */
  lemma CountsStep(m: map<int, nat>, m0: map<int, nat>, lo: int, j: int, v: nat)
    requires lo <= j && CountsRecorded(m, lo, j) && SameOutside(m, m0, lo, j)
    requires j > lo ==> m[j] <= v
    ensures CountsRecorded(m[j + 1 := v], lo, j + 1) && SameOutside(m[j + 1 := v], m0, lo, j + 1)
  {
  }

  /** What every pass does to the mesh as a whole: nodes and cells are only appended, block shapes kept. */
  ghost predicate Grew(h: HaloHelper, nodes0: seq<Node>, blocks0: seq<Block>)
    reads h, h.mesh
  {
    && Ready(h)
    && |h.mesh.blocks| == |blocks0| && ColsOf(h.mesh.blocks) == ColsOf(blocks0)
    && nodes0 <= h.mesh.nodes
    && forall t :: 0 <= t < |blocks0| ==> Appended(blocks0[t], h.mesh.blocks[t], h.halo)
  }

  /** The interior pass on a fresh helper, seen from the level: the mesh grows, nothing periodic is recorded. */
  method InteriorStep(h: HaloHelper, w: World, level: int) returns (r: Outcome<HaloError>, ghost p: PassTrace)
    requires Ready(h) && w.Valid(ColsOf(h.mesh.blocks))
    requires h.uid2node == map[] && h.newPeriodicGhostCells == []
    modifies h, h.mesh`nodes, h.mesh`blocks
    ensures !Distinct(NodeUids(h.uid, old(h.mesh.nodes))) ==> r.Fail? && r.error.DuplicateUid?
    ensures r.Pass? ==> Grew(h, old(h.mesh.nodes), old(h.mesh.blocks))
    ensures r.Pass? ==> p.nodes == h.mesh.nodes && p.blocks == h.mesh.blocks
    ensures p.kind == Interior
    ensures r.Pass? ==> PassStep(h.uid, h.projection, w, level, h.halo, old(h.mesh.nodes), old(h.mesh.blocks), p)
    ensures r.Pass? ==> h.newPeriodicGhostPoints == old(h.newPeriodicGhostPoints)
    ensures r.Pass? ==> |h.newPeriodicGhostCells| == |h.mesh.blocks|
    ensures r.Pass? ==> forall t :: 0 <= t < |h.mesh.blocks| ==> h.newPeriodicGhostCells[t] == []
  {
    var send;
    ghost var recv;
    ghost var cols := ColsOf(h.mesh.blocks);
    r, send, recv := IncreaseHaloInterior(h, w, level);
    if r.Pass? {
      InteriorPassStep(h.uid, h.projection, w, cols, level, h.halo, old(h.uid2node), old(h.mesh.nodes), old(h.mesh.blocks),
        recv[w.rank], h.mesh.nodes, h.mesh.blocks);
    }
    p := PassTrace(Interior, recv, h.mesh.nodes, h.mesh.blocks);
  }

  /** A periodic pass, seen from the level: the mesh grows, and what it appended is recorded as periodic. */
  method PeriodicStep(h: HaloHelper, w: World, level: int, kind: PassKind, points: PeriodicPoints,
                      transform: Transform, newFlags: bv32) returns (r: Outcome<HaloError>, ghost p: PassTrace)
    requires Ready(h) && w.Valid(ColsOf(h.mesh.blocks))
    requires |h.newPeriodicGhostCells| == |h.mesh.blocks|
    modifies h, h.mesh`nodes, h.mesh`blocks
    ensures r.Pass? ==> Grew(h, old(h.mesh.nodes), old(h.mesh.blocks))
    ensures r.Pass? ==> p.nodes == h.mesh.nodes && p.blocks == h.mesh.blocks
    ensures p.kind == kind
    ensures r.Pass? ==> PassStep(h.uid, h.projection, w, level, h.halo, old(h.mesh.nodes), old(h.mesh.blocks), p)
    ensures r.Pass? ==> h.newPeriodicGhostPoints == old(h.newPeriodicGhostPoints) + Between(old(|h.mesh.nodes|), |h.mesh.nodes|)
    ensures r.Pass? ==> |h.newPeriodicGhostCells| == |h.mesh.blocks|
    ensures r.Pass? ==> forall t :: 0 <= t < |h.mesh.blocks| ==>
      h.newPeriodicGhostCells[t] == old(h.newPeriodicGhostCells)[t] + Between(old(|h.mesh.blocks[t].cells|), |h.mesh.blocks[t].cells|)
  {
    var send;
    ghost var recv;
    ghost var cols := ColsOf(h.mesh.blocks);
    r, send, recv := IncreaseHaloPeriodic(h, w, level, kind, points, transform, newFlags);
    if r.Pass? {
      OwnReplyFromOthers(w, cols, level, kind, recv[w.rank]);
    }
    p := PassTrace(kind, recv, h.mesh.nodes, h.mesh.blocks);
  }

  /** The nodes two periodic passes appended, each recorded by the pass that appended it. */
  lemma TwoPeriodicNodePasses(n1: nat, n2: nat, n3: nat, points2: seq<nat>, points3: seq<nat>)
    requires n1 <= n2 <= n3 && points2 == [] + Between(n1, n2) && points3 == points2 + Between(n2, n3)
    ensures points3 == Between(n1, n3)
  {
    assert points2 == Between(n1, n2);
    BetweenConcat(n1, n2, n3);
  }

  /**
   * The cells two periodic passes appended, each recorded by the pass that
   * appended it, are the cells beyond the sizes before the first.
   */
  lemma TwoPeriodicPasses(blocks1: seq<Block>, blocks2: seq<Block>, blocks3: seq<Block>,
                          cells2: seq<seq<nat>>, cells3: seq<seq<nat>>, halo: int)
    requires |blocks2| == |blocks1| && |blocks3| == |blocks1| && |cells2| == |blocks1| && |cells3| == |blocks1|
    requires forall t :: 0 <= t < |blocks1| ==> Appended(blocks1[t], blocks2[t], halo) && Appended(blocks2[t], blocks3[t], halo)
    requires forall t :: 0 <= t < |blocks1| ==> cells2[t] == [] + Between(|blocks1[t].cells|, |blocks2[t].cells|)
    requires forall t :: 0 <= t < |blocks1| ==> cells3[t] == cells2[t] + Between(|blocks2[t].cells|, |blocks3[t].cells|)
    ensures forall t :: 0 <= t < |blocks1| ==> Appended(blocks1[t], blocks3[t], halo)
    ensures cells3 == NewPeriodicCells(Sizes(blocks1), blocks3)
  {
    forall t | 0 <= t < |blocks1|
      ensures Appended(blocks1[t], blocks3[t], halo)
      ensures cells3[t] == NewPeriodicCells(Sizes(blocks1), blocks3)[t]
    {
      AppendedTwice(blocks1[t], blocks2[t], blocks3[t], halo);
      BetweenConcat(|blocks1[t].cells|, |blocks2[t].cells|, |blocks3[t].cells|);
    }
  }

  /**
   * The West and East periodic passes of one level, after its interior pass:
   * each on the nodes that existed before the level (the first nbBefore).
   * The periodic nodes recorded are all the nodes they appended; the
   * periodic cells of each type all the cells they appended to it.
   */
  method PeriodicPasses(h: HaloHelper, w: World, jhalo: int, nbBefore: nat) returns (r: Outcome<HaloError>, ghost west: PassTrace, ghost east: PassTrace)
    requires Ready(h) && w.Valid(ColsOf(h.mesh.blocks))
    requires h.newPeriodicGhostPoints == [] && |h.newPeriodicGhostCells| == |h.mesh.blocks|
    requires forall t :: 0 <= t < |h.mesh.blocks| ==> h.newPeriodicGhostCells[t] == []
    modifies h, h.mesh`nodes, h.mesh`blocks
    ensures r.Pass? ==> Grew(h, old(h.mesh.nodes), old(h.mesh.blocks))
    ensures r.Pass? ==> west.kind == West && east.kind == East
    ensures r.Pass? ==> PassStep(h.uid, h.projection, w, jhalo, h.halo, old(h.mesh.nodes), old(h.mesh.blocks), west)
    ensures r.Pass? ==> PassStep(h.uid, h.projection, w, jhalo, h.halo, west.nodes, west.blocks, east)
    ensures r.Pass? ==> h.mesh.nodes == east.nodes && h.mesh.blocks == east.blocks
    ensures r.Pass? ==> h.newPeriodicGhostPoints == Between(old(|h.mesh.nodes|), |h.mesh.nodes|)
    ensures r.Pass? ==> h.newPeriodicGhostCells == NewPeriodicCells(Sizes(old(h.mesh.blocks)), h.mesh.blocks)
  {
    ghost var nodes1, blocks1 := h.mesh.nodes, h.mesh.blocks;
    var westpts := PeriodicPoints(NodeFlags(h.mesh.nodes), PERIODIC | WEST, nbBefore);
    r, west := PeriodicStep(h, w, jhalo, West, westpts, WestEast, PERIODIC | WEST | GHOST);
    east := west;
    if r.Pass? {
      ghost var nodes2, blocks2, cells2, points2 := h.mesh.nodes, h.mesh.blocks, h.newPeriodicGhostCells, h.newPeriodicGhostPoints;
      var eastpts := PeriodicPoints(NodeFlags(h.mesh.nodes), PERIODIC | EAST, nbBefore);
      r, east := PeriodicStep(h, w, jhalo, East, eastpts, EastWest, PERIODIC | EAST | GHOST);
      if r.Pass? {
        TwoPeriodicNodePasses(|nodes1|, |nodes2|, |h.mesh.nodes|, points2, h.newPeriodicGhostPoints);
        TwoPeriodicPasses(blocks1, blocks2, h.mesh.blocks, cells2, h.newPeriodicGhostCells, h.halo);
      }
    }
  }

  /**
   * The three passes of one level on a fresh helper: interior, then West and
   * East periodic on the nodes that existed before the level. The periodic
   * nodes recorded are those beyond the node count after the interior pass;
   * the periodic cells of each type those beyond its size after it.
   */
  method LevelPasses(h: HaloHelper, w: World, jhalo: int) returns (r: Outcome<HaloError>, ghost trace: LevelTrace)
    requires Ready(h) && w.Valid(ColsOf(h.mesh.blocks))
    requires h.uid2node == map[] && h.newPeriodicGhostPoints == [] && h.newPeriodicGhostCells == []
    modifies h, h.mesh`nodes, h.mesh`blocks
    ensures !Distinct(NodeUids(h.uid, old(h.mesh.nodes))) ==> r.Fail? && r.error.DuplicateUid?
    ensures r.Pass? ==> Grew(h, old(h.mesh.nodes), old(h.mesh.blocks))
    ensures r.Pass? ==> LevelMerged(h.uid, h.projection, w, jhalo, h.halo, old(h.mesh.nodes), old(h.mesh.blocks), trace)
    ensures r.Pass? ==> h.mesh.nodes == trace.east.nodes && h.mesh.blocks == trace.east.blocks
    ensures r.Pass? ==> old(|h.mesh.nodes|) <= |trace.interior.nodes| <= |h.mesh.nodes|
    ensures r.Pass? ==> h.newPeriodicGhostPoints == Between(|trace.interior.nodes|, |h.mesh.nodes|)
    ensures r.Pass? ==>
      && |trace.interior.blocks| == |h.mesh.blocks|
      && (forall t :: 0 <= t < |h.mesh.blocks| ==>
            old(|h.mesh.blocks[t].cells|) <= |trace.interior.blocks[t].cells| <= |h.mesh.blocks[t].cells|)
      && h.newPeriodicGhostCells == NewPeriodicCells(Sizes(trace.interior.blocks), h.mesh.blocks)
  {
    var nbBefore := |h.mesh.nodes|;
    ghost var blocks0 := h.mesh.blocks;
    ghost var interior, west, east;
    r, interior := InteriorStep(h, w, jhalo);
    trace := LevelTrace(interior, interior, interior);
    if r.Fail? {
      return;
    }
    ghost var blocks1 := h.mesh.blocks;
    r, west, east := PeriodicPasses(h, w, jhalo, nbBefore);
    if r.Fail? {
      return;
    }
    trace := LevelTrace(interior, west, east);
    forall t | 0 <= t < |blocks0|
      ensures Appended(blocks0[t], h.mesh.blocks[t], h.halo)
    {
      AppendedTwice(blocks0[t], blocks1[t], h.mesh.blocks[t], h.halo);
    }
  }

  /**
   * The three passes of one level, as the level's records see them: the
   * node count and the block sizes after the interior pass, beyond which
   * everything appended is periodic.
   */
  method LevelGrowth(h: HaloHelper, w: World, jhalo: int) returns (r: Outcome<HaloError>, ghost nbInterior: nat, ghost interiorSizes: seq<nat>)
    requires Ready(h) && w.Valid(ColsOf(h.mesh.blocks))
    requires h.uid2node == map[] && h.newPeriodicGhostPoints == [] && h.newPeriodicGhostCells == []
    modifies h, h.mesh`nodes, h.mesh`blocks
    ensures !Distinct(NodeUids(h.uid, old(h.mesh.nodes))) ==> r.Fail? && r.error.DuplicateUid?
    ensures r.Pass? ==> Grew(h, old(h.mesh.nodes), old(h.mesh.blocks))
    ensures r.Pass? ==> old(|h.mesh.nodes|) <= nbInterior <= |h.mesh.nodes|
    ensures r.Pass? ==> h.newPeriodicGhostPoints == Between(nbInterior, |h.mesh.nodes|)
    ensures r.Pass? ==>
      && |interiorSizes| == |h.mesh.blocks|
      && (forall t :: 0 <= t < |h.mesh.blocks| ==> old(|h.mesh.blocks[t].cells|) <= interiorSizes[t] <= |h.mesh.blocks[t].cells|)
      && h.newPeriodicGhostCells == NewPeriodicCells(interiorSizes, h.mesh.blocks)
  {
    ghost var trace;
    r, trace := LevelPasses(h, w, jhalo);
    nbInterior, interiorSizes := |trace.interior.nodes|, Sizes(trace.interior.blocks);
  }

  /** The nodes after the closing renumbering of the recorded periodic nodes. */
  ghost function RenumberedNodes(nodes: seq<Node>, edit: seq<nat>, rank: nat, g: Gathered, stored: Option<int>): seq<Node>
    requires NodesIn(edit, |nodes|) && rank < |g.others|
  {
    RelabelNodes(nodes, edit, Concat(g.others[rank := NodeGlbs(nodes, edit)]), StartMax(false, rank, stored, g.rootMax))
  }

  /** The blocks after the closing renumbering of the recorded periodic cells. */
  ghost function RenumberedBlocks(blocks: seq<Block>, edit: seq<(nat, nat)>, rank: nat, g: Gathered, stored: Option<int>): seq<Block>
    requires CellsIn(edit, blocks) && rank < |g.others|
  {
    RelabelBlocks(blocks, edit, Concat(g.others[rank := CellGlbs(blocks, edit)]), StartMax(false, rank, stored, g.rootMax))
  }

  class BuildHalo {
    const mesh: Mesh
    const uid: UidFn
    /** The mesh projection, giving lon/lat from xy. */
    const projection: Point -> Point
    /** periodic_points_local_index_: the periodic ghost nodes created so far. */
    var periodicPointsLocalIndex: seq<nat>
    /** periodic_cells_local_index_: the periodic ghost cells created so far, as (type, index) pairs. */
    var periodicCellsLocalIndex: seq<(nat, nat)>

    ghost predicate Valid()
      reads this, mesh
    {
      && mesh.Valid()
      && |mesh.nodes| > 0
      && NodesIn(periodicPointsLocalIndex, |mesh.nodes|)
      && CellsIn(periodicCellsLocalIndex, mesh.blocks)
    }

    constructor (mesh: Mesh, uid: UidFn, projection: Point -> Point)
      ensures this.mesh == mesh && this.uid == uid && this.projection == projection
      ensures periodicPointsLocalIndex == [] && periodicCellsLocalIndex == []
    {
      this.mesh := mesh;
      this.uid := uid;
      this.projection := projection;
      periodicPointsLocalIndex := [];
      periodicCellsLocalIndex := [];
    }

    /**
     * One iteration of the level loop of operator(): the three passes on a
     * fresh helper, the recording of the periodic ghost nodes and cells they
     * created, and the metadata update.
     */
    method IncreaseHaloLevel(jhalo: int, w: World) returns (r: Outcome<HaloError>, ghost nbInterior: nat, ghost interiorSizes: seq<nat>)
      requires Valid() && w.Valid(ColsOf(mesh.blocks))
      modifies this, mesh
      ensures mesh.nodesGlbMax == old(mesh.nodesGlbMax) && mesh.cellsGlbMax == old(mesh.cellsGlbMax)
      ensures !Distinct(NodeUids(uid, old(mesh.nodes))) ==> r.Fail? && r.error.DuplicateUid?
      ensures r.Pass? ==> Valid() && ColsOf(mesh.blocks) == old(ColsOf(mesh.blocks))
      ensures r.Pass? ==> old(|mesh.nodes|) <= nbInterior <= |mesh.nodes| && old(mesh.nodes) <= mesh.nodes
      ensures r.Pass? ==> forall t :: 0 <= t < |mesh.blocks| ==>
        Appended(old(mesh.blocks)[t], mesh.blocks[t], old(mesh.halo.GetOr(0)))
      ensures r.Pass? ==> periodicPointsLocalIndex == old(periodicPointsLocalIndex) + Between(nbInterior, |mesh.nodes|)
      ensures r.Pass? ==>
        && |interiorSizes| == |mesh.blocks|
        && (forall t :: 0 <= t < |mesh.blocks| ==> old(|mesh.blocks[t].cells|) <= interiorSizes[t] <= |mesh.blocks[t].cells|)
        && periodicCellsLocalIndex == old(periodicCellsLocalIndex) + CellPairs(NewPeriodicCells(interiorSizes, mesh.blocks))
      ensures r.Pass? ==> CreatedNodes(periodicPointsLocalIndex, old(|periodicPointsLocalIndex|), old(|mesh.nodes|))
      ensures r.Pass? ==> CreatedCells(periodicCellsLocalIndex, old(|periodicCellsLocalIndex|), old(mesh.blocks))
      ensures r.Pass? ==> mesh.halo == Some(jhalo + 1)
      ensures mesh.nbNodesIncludingHalo ==
        if r.Pass? then old(mesh.nbNodesIncludingHalo)[jhalo + 1 := |mesh.nodes|] else old(mesh.nbNodesIncludingHalo)
      ensures r.Pass? ==> !mesh.nodesHumanReadable && !mesh.cellsHumanReadable
    {
      var h := new HaloHelper(mesh, uid, projection);
      r, nbInterior, interiorSizes := LevelGrowth(h, w, jhalo);
      if r.Fail? {
        return;
      }
      LevelRecordsIn(periodicPointsLocalIndex, periodicCellsLocalIndex, old(|mesh.nodes|), old(mesh.blocks),
        nbInterior, |mesh.nodes|, interiorSizes, mesh.blocks);
      LevelRecordsCreated(periodicPointsLocalIndex, periodicCellsLocalIndex, old(|mesh.nodes|), old(mesh.blocks),
        nbInterior, |mesh.nodes|, interiorSizes, mesh.blocks);
      periodicPointsLocalIndex := periodicPointsLocalIndex + h.newPeriodicGhostPoints;
      var pairs := RecordCellPairs(h.newPeriodicGhostCells);
      periodicCellsLocalIndex := periodicCellsLocalIndex + pairs;

      mesh.nbNodesIncludingHalo := mesh.nbNodesIncludingHalo[jhalo + 1 := |mesh.nodes|];
      mesh.halo := Some(jhalo + 1);
      mesh.nodesHumanReadable := false;
      mesh.cellsHumanReadable := false;
    }

    /** The nodes a renumbering edits: all of them, or the recorded periodic ones. */
    function NodesToEdit(doAll: bool): (r: seq<nat>)
      reads this, mesh
      requires Valid()
      ensures NodesIn(r, |mesh.nodes|)
      ensures forall k :: k in r <==> if doAll then 0 <= k < |mesh.nodes| else k in periodicPointsLocalIndex
    {
      forall k ensures k in Between(0, |mesh.nodes|) <==> 0 <= k < |mesh.nodes| {
        BetweenMembership(0, |mesh.nodes|, k);
      }
      if doAll then Between(0, |mesh.nodes|) else periodicPointsLocalIndex
    }

    /** The cells a renumbering edits: all of them in hybrid order, or the recorded periodic ones. */
    function CellsToEdit(doAll: bool): (r: seq<(nat, nat)>)
      reads this, mesh
      requires Valid()
      ensures CellsIn(r, mesh.blocks)
      ensures forall p :: p in r <==> if doAll then InBlocks(mesh.blocks, p) else p in periodicCellsLocalIndex
    {
      forall p: (nat, nat) ensures doAll ==> (p in AllCells(mesh.blocks) <==> InBlocks(mesh.blocks, p)) {
        AllCellsExactly(mesh.blocks, p.0, p.1);
      }
      if doAll then AllCells(mesh.blocks) else periodicCellsLocalIndex
    }

    /** The node global indices a renumbering gathers from every partition. */
    ghost function NodesGathered(doAll: bool, rank: nat, g: Gathered): seq<int>
      reads this, mesh
      requires Valid() && rank < |g.others|
    {
      Concat(g.others[rank := NodeGlbs(mesh.nodes, NodesToEdit(doAll))])
    }

    /** The cell global indices a renumbering gathers from every partition. */
    ghost function CellsGathered(doAll: bool, rank: nat, g: Gathered): seq<int>
      reads this, mesh
      requires Valid() && rank < |g.others|
    {
      Concat(g.others[rank := CellGlbs(mesh.blocks, CellsToEdit(doAll))])
    }

    /**
     * make_nodes_global_index_human_readable: gather the global indices of
     * the nodes to edit, relabel them on rank 0 and write each node's label
     * back; the field is then human-readable.
     */
    method MakeNodesGlobalIndexHumanReadable(doAll: bool, rank: nat, g: Gathered)
      requires Valid() && rank < |g.others|
      modifies mesh`nodes, mesh`nodesHumanReadable
      ensures Valid() && mesh.nodesHumanReadable
      ensures mesh.nodes == RelabelNodes(old(mesh.nodes), old(NodesToEdit(doAll)), old(NodesGathered(doAll, rank, g)),
        StartMax(doAll, rank, mesh.nodesGlbMax, g.rootMax))
      ensures forall j :: 0 <= j < old(|NodesToEdit(doAll)|) ==> old(mesh.nodes[NodesToEdit(doAll)[j]].glb) in old(NodesGathered(doAll, rank, g))
    {
      var edit := NodesToEdit(doAll);
      var max := StartMax(doAll, rank, mesh.nodesGlbMax, g.rootMax);
      var glb := GatherNodeGlbs(mesh.nodes, edit);
      assert glb == NodeGlbs(mesh.nodes, edit);
      var labels := GatherRelabelScatter(glb, g.others, rank, max);
      OwnIndicesGathered(glb, g.others, rank);
      var nodes' := WriteNodeGlbs(mesh.nodes, edit, labels);
      WrittenNodesRelabelled(mesh.nodes, nodes', edit, Concat(g.others[rank := glb]), max);
      mesh.nodes := nodes';
      mesh.nodesHumanReadable := true;
    }

    /**
     * make_cells_global_index_human_readable: the same for the cells to
     * edit; only global indices change, so every row stays as it was.
     */
    method MakeCellsGlobalIndexHumanReadable(doAll: bool, rank: nat, g: Gathered)
      requires Valid() && rank < |g.others|
      modifies mesh`blocks, mesh`cellsHumanReadable
      ensures Valid() && mesh.cellsHumanReadable
      ensures SameButGlb(old(mesh.blocks), mesh.blocks)
      ensures mesh.blocks == RelabelBlocks(old(mesh.blocks), old(CellsToEdit(doAll)), old(CellsGathered(doAll, rank, g)),
        StartMax(doAll, rank, mesh.cellsGlbMax, g.rootMax))
      ensures forall j :: 0 <= j < old(|CellsToEdit(doAll)|) ==>
        old(CellAt(mesh.blocks, CellsToEdit(doAll)[j]).glb) in old(CellsGathered(doAll, rank, g))
    {
      var edit := CellsToEdit(doAll);
      var max := StartMax(doAll, rank, mesh.cellsGlbMax, g.rootMax);
      var glb := GatherCellGlbs(mesh.blocks, edit);
      assert glb == CellGlbs(mesh.blocks, edit);
      var labels := GatherRelabelScatter(glb, g.others, rank, max);
      OwnIndicesGathered(glb, g.others, rank);
      var blocks' := WriteCellGlbs(mesh.blocks, edit, labels);
      WrittenBlocksRelabelled(mesh.blocks, blocks', edit, Concat(g.others[rank := glb]), max);
      SameButGlbKeepsRows(mesh.blocks, blocks', |mesh.nodes|);
      SameButGlbKeepsCellsIn(periodicCellsLocalIndex, mesh.blocks, blocks');
      mesh.blocks := blocks';
      mesh.cellsHumanReadable := true;
    }

    /**
     * The level loop of operator(): levels from the stored halo up to the
     * requested one, each recording its node count under its depth.
     */
    method GrowLevels(halo: int, nbElems: int, w: World) returns (r: Outcome<HaloError>)
      requires Valid() && w.Valid(ColsOf(mesh.blocks)) && halo == mesh.halo.GetOr(0)
      modifies this, mesh
      ensures mesh.nodesGlbMax == old(mesh.nodesGlbMax) && mesh.cellsGlbMax == old(mesh.cellsGlbMax)
      ensures r.Pass? ==> Valid() && ColsOf(mesh.blocks) == old(ColsOf(mesh.blocks))
      ensures r.Pass? ==> old(mesh.nodes) <= mesh.nodes
      ensures r.Pass? ==> GrownBetween(old(mesh.blocks), mesh.blocks, halo, if halo < nbElems then nbElems else halo)
      ensures r.Pass? ==> old(periodicPointsLocalIndex) <= periodicPointsLocalIndex
      ensures r.Pass? ==> CreatedNodes(periodicPointsLocalIndex, old(|periodicPointsLocalIndex|), old(|mesh.nodes|))
      ensures r.Pass? ==> old(periodicCellsLocalIndex) <= periodicCellsLocalIndex
      ensures r.Pass? ==> CreatedCells(periodicCellsLocalIndex, old(|periodicCellsLocalIndex|), old(mesh.blocks))
      ensures r.Pass? ==> mesh.halo == if halo < nbElems then Some(nbElems) else old(mesh.halo)
      ensures r.Pass? ==> CountsRecorded(mesh.nbNodesIncludingHalo, halo, nbElems)
      ensures r.Pass? && halo < nbElems ==> mesh.nbNodesIncludingHalo[nbElems] == |mesh.nodes|
      ensures SameOutside(mesh.nbNodesIncludingHalo, old(mesh.nbNodesIncludingHalo), halo, nbElems)
      ensures r.Pass? && nbElems <= halo ==> mesh.nbNodesIncludingHalo == old(mesh.nbNodesIncludingHalo)
    {
      r := Pass;
      var jhalo := halo;
      while jhalo < nbElems
        invariant Valid() && ColsOf(mesh.blocks) == old(ColsOf(mesh.blocks))
        invariant mesh.nodesGlbMax == old(mesh.nodesGlbMax) && mesh.cellsGlbMax == old(mesh.cellsGlbMax)
        invariant halo <= jhalo && (jhalo > halo ==> jhalo <= nbElems)
        invariant old(mesh.nodes) <= mesh.nodes
        invariant GrownBetween(old(mesh.blocks), mesh.blocks, halo, jhalo)
        invariant old(periodicPointsLocalIndex) <= periodicPointsLocalIndex
        invariant CreatedNodes(periodicPointsLocalIndex, old(|periodicPointsLocalIndex|), old(|mesh.nodes|))
        invariant old(periodicCellsLocalIndex) <= periodicCellsLocalIndex
        invariant CreatedCells(periodicCellsLocalIndex, old(|periodicCellsLocalIndex|), old(mesh.blocks))
        invariant mesh.halo == if jhalo == halo then old(mesh.halo) else Some(jhalo)
        invariant jhalo == halo ==> mesh.nbNodesIncludingHalo == old(mesh.nbNodesIncludingHalo)
        invariant CountsRecorded(mesh.nbNodesIncludingHalo, halo, jhalo)
        invariant jhalo > halo ==> mesh.nbNodesIncludingHalo[jhalo] == |mesh.nodes|
        invariant SameOutside(mesh.nbNodesIncludingHalo, old(mesh.nbNodesIncludingHalo), halo, jhalo)
        decreases nbElems - jhalo
      {
        ghost var m, nodes, blocks := mesh.nbNodesIncludingHalo, mesh.nodes, mesh.blocks;
        ghost var points, pairs := periodicPointsLocalIndex, periodicCellsLocalIndex;
        var level;
        ghost var nbInterior, interiorSizes;
        assert mesh.halo.GetOr(0) == jhalo;
        level, nbInterior, interiorSizes := IncreaseHaloLevel(jhalo, w);
        if level.Fail? {
          SameOutsideWider(m, old(mesh.nbNodesIncludingHalo), halo, jhalo, nbElems);
          return level;
        }
        CountsStep(m, old(mesh.nbNodesIncludingHalo), halo, jhalo, |mesh.nodes|);
        GrownBetweenStep(old(mesh.blocks), blocks, mesh.blocks, halo, jhalo);
        RecordsCreatedStep(old(periodicPointsLocalIndex), points, periodicPointsLocalIndex, old(|mesh.nodes|), |nodes|,
          old(periodicCellsLocalIndex), pairs, periodicCellsLocalIndex, old(mesh.blocks), blocks);
        jhalo := jhalo + 1;
      }
      if halo < nbElems {
        assert jhalo == nbElems;
      }
    }

    /**
     * operator(): nothing happens when the stored halo already equals the
     * requested one; otherwise every level from the stored halo up to the
     * requested one is built, and the recorded periodic nodes and cells get
     * human-readable global indices. A stored halo above the requested one
     * builds no level but still renumbers.
     */
    method Run(nbElems: int, w: World, nodesRen: Gathered, cellsRen: Gathered)
      returns (r: Outcome<HaloError>, ghost nodes1: seq<Node>, ghost blocks1: seq<Block>)
      requires Valid() && w.Valid(ColsOf(mesh.blocks))
      requires w.rank < |nodesRen.others| && w.rank < |cellsRen.others|
      modifies this, mesh
      ensures old(mesh.halo.GetOr(0)) == nbElems ==> r.Pass? && unchanged(this, mesh)
      ensures mesh.nodesGlbMax == old(mesh.nodesGlbMax) && mesh.cellsGlbMax == old(mesh.cellsGlbMax)
      ensures r.Pass? ==> Valid() && ColsOf(mesh.blocks) == old(ColsOf(mesh.blocks)) && |mesh.nodes| >= old(|mesh.nodes|)
      ensures r.Pass? && old(mesh.halo.GetOr(0)) != nbElems ==>
        && old(mesh.nodes) <= nodes1
        && GrownBetween(old(mesh.blocks), blocks1, old(mesh.halo.GetOr(0)),
             if old(mesh.halo.GetOr(0)) < nbElems then nbElems else old(mesh.halo.GetOr(0)))
        && CreatedNodes(periodicPointsLocalIndex, old(|periodicPointsLocalIndex|), old(|mesh.nodes|))
        && CreatedCells(periodicCellsLocalIndex, old(|periodicCellsLocalIndex|), old(mesh.blocks))
        && NodesIn(periodicPointsLocalIndex, |nodes1|)
        && CellsIn(periodicCellsLocalIndex, blocks1)
        && mesh.nodes == RenumberedNodes(nodes1, periodicPointsLocalIndex, w.rank, nodesRen, mesh.nodesGlbMax)
        && mesh.blocks == RenumberedBlocks(blocks1, periodicCellsLocalIndex, w.rank, cellsRen, mesh.cellsGlbMax)
      ensures r.Pass? ==> old(periodicPointsLocalIndex) <= periodicPointsLocalIndex
      ensures r.Pass? ==> old(periodicCellsLocalIndex) <= periodicCellsLocalIndex
      ensures r.Pass? && old(mesh.halo.GetOr(0)) != nbElems ==> mesh.nodesHumanReadable && mesh.cellsHumanReadable
      ensures r.Pass? ==> mesh.halo == if old(mesh.halo.GetOr(0)) < nbElems then Some(nbElems) else old(mesh.halo)
      ensures r.Pass? ==> CountsRecorded(mesh.nbNodesIncludingHalo, old(mesh.halo.GetOr(0)), nbElems)
      ensures r.Pass? && old(mesh.halo.GetOr(0)) < nbElems ==> mesh.nbNodesIncludingHalo[nbElems] == |mesh.nodes|
      ensures SameOutside(mesh.nbNodesIncludingHalo, old(mesh.nbNodesIncludingHalo), old(mesh.halo.GetOr(0)), nbElems)
      ensures r.Pass? && nbElems <= old(mesh.halo.GetOr(0)) ==> mesh.nbNodesIncludingHalo == old(mesh.nbNodesIncludingHalo)
    {
      var halo := mesh.halo.GetOr(0);
      r, nodes1, blocks1 := Pass, mesh.nodes, mesh.blocks;
      if halo == nbElems {
        return;
      }
      r := GrowLevels(halo, nbElems, w);
      if r.Fail? {
        return;
      }
      nodes1, blocks1 := mesh.nodes, mesh.blocks;
      RenumberPeriodic(w.rank, nodesRen, cellsRen);
    }

    /**
     * The closing calls of operator(): the recorded periodic nodes, then the
     * recorded periodic cells, get human-readable global indices; only global
     * indices change.
     */
    method RenumberPeriodic(rank: nat, nodesRen: Gathered, cellsRen: Gathered)
      requires Valid() && rank < |nodesRen.others| && rank < |cellsRen.others|
      modifies mesh`nodes, mesh`nodesHumanReadable, mesh`blocks, mesh`cellsHumanReadable
      ensures Valid() && mesh.nodesHumanReadable && mesh.cellsHumanReadable
      ensures |mesh.nodes| == old(|mesh.nodes|) && ColsOf(mesh.blocks) == old(ColsOf(mesh.blocks))
      ensures mesh.nodes == RenumberedNodes(old(mesh.nodes), periodicPointsLocalIndex, rank, nodesRen, mesh.nodesGlbMax)
      ensures mesh.blocks == RenumberedBlocks(old(mesh.blocks), periodicCellsLocalIndex, rank, cellsRen, mesh.cellsGlbMax)
    {
      MakeNodesGlobalIndexHumanReadable(false, rank, nodesRen);
      ghost var blocks := mesh.blocks;
      MakeCellsGlobalIndexHumanReadable(false, rank, cellsRen);
      SameButGlbKeepsRows(blocks, mesh.blocks, |mesh.nodes|);
    }
  }
}
