/**
 * The two kinds of halo-growth pass of one rank: the interior pass, which
 * grows the halo across partition boundaries, and the periodic pass, which
 * grows it across the West or East periodic boundary by shifting coordinates.
 * Each pass builds its lookups, sends the identifiers of its boundary nodes,
 * answers every partition's request and merges what it receives.
 */
module HaloPasses {
  import opened Wrappers
  import opened OrderedSeq
  import opened HaloMesh
  import opened HaloLookup
  import opened HaloBuffers
  import opened HaloMerge
  import opened HaloAnswer

  /** A periodic shift: forward moves a coordinate across the boundary, backward moves it back. */
  datatype Transform = Transform(forward: Point -> Point, backward: Point -> Point)

  /** The three passes of one level. */
  datatype PassKind = Interior | West | East

  /** The errors a pass raises. */
  datatype HaloError =
    | DuplicateUid(conflicts: seq<(nat, nat)>)  // build_lookup_uid2node: two nodes share an identifier
    | UidNotFound(uid: int)                     // fill_sendbuffer: a needed node is not in the map
    | NodeAlreadyKnown(uid: int)                // add_nodes: a new node's identifier is already mapped

  /**
   * What the other partitions contribute, as given data. For each level and
   * pass: the boundary identifiers every partition broadcast (allGatherv) and
   * the buffer every partition sent to this one (all-to-all); the own slots
   * are replaced by what this rank computes. `facets` stands for the facet
   * accumulation of a mesh, which is not part of this model.
   */
  datatype World = World(
    rank: nat,
    nparts: nat,
    requests: (int, PassKind) -> seq<seq<int>>,
    buffers: (int, PassKind) -> seq<PartBuffer>,
    facets: (seq<Node>, seq<Block>) -> Facets)
  {
    ghost predicate Valid(cols: seq<nat>)
    {
      && rank < nparts
      && (forall l, k :: |requests(l, k)| == nparts)
      && (forall l, k :: |buffers(l, k)| == nparts)
      && (forall l, k, p :: 0 <= p < |buffers(l, k)| ==> WellFormed(buffers(l, k)[p], cols))
      && (forall ns, bs :: facets(ns, bs).Valid(|ns|))
    }
  }

  /** A helper a pass can run on: a valid mesh with a node, boundary nodes that are nodes. */
  ghost predicate Ready(h: HaloHelper)
    reads h, h.mesh
  {
    && h.Valid()
    && |h.mesh.nodes| > 0
    && forall x :: x in h.bdryNodes ==> 0 <= x < |h.mesh.nodes|
  }

  /** The node-to-element table of a mesh: one list per node. */
  ghost function Node2ElemTable(nbNodes: nat, cells: seq<Cell>): seq<seq<nat>>
  {
    seq(nbNodes, n requires 0 <= n < nbNodes => Node2ElemOf(cells, n))
  }

  /** The identifier map a pass works with: the given one, or the one built from the nodes. */
  ghost function LookupMap(m: map<int, nat>, rebuild: bool, uid: UidFn, nodes: seq<Node>): map<int, nat>
  {
    if rebuild then FirstIndex(NodeUids(uid, nodes)) else m
  }

  /** The identifiers a pass sends for its boundary nodes, with the coordinate shifted first when given. */
  function BoundaryUids(uid: UidFn, nodes: seq<Node>, bdry: seq<int>, shift: Option<Point -> Point>): (r: seq<int>)
    requires forall x :: x in bdry ==> 0 <= x < |nodes|
    ensures |r| == |bdry|
  {
    seq(|bdry|, j requires 0 <= j < |bdry| =>
      var x := bdry[j];
      assert x in bdry;
      uid.node(if shift.None? then nodes[x].xy else shift.value(nodes[x].xy)))
  }

  /** The boundary nodes a periodic pass sends: those the predicate accepts. */
  function PeriodicBdry(bdry: seq<int>, points: PeriodicPoints): (r: seq<int>)
    ensures forall x :: x in r <==> x in bdry && points.Accepts(x)
  {
    FilterNodes(bdry, j => points.Accepts(j))
  }

  /** Every partition's request can be answered. */
  ghost predicate AllAnswerable(nodes: seq<Node>, cells: seq<Cell>, m: map<int, nat>, node2elem: seq<seq<nat>>,
                                uid: UidFn, requests: seq<seq<int>>, rank: int)
  {
    forall p :: 0 <= p < |requests| ==> Answerable(nodes, cells, m, node2elem, uid, requests[p], rank)
  }

  /** What a rank sends itself is a buffer it can merge. */
  lemma ReplyWellFormed(nodes: seq<Node>, blocks: seq<Block>, m: map<int, nat>, node2elem: seq<seq<nat>>,
                        uid: UidFn, request: seq<int>, rank: int, periodic: Option<Periodic>)
    requires RowsFit(blocks) && BlockRowsInRange(blocks, |nodes|) && IndicesBelow(m, |nodes|)
    requires Answerable(nodes, Flatten(blocks), m, node2elem, uid, request, rank)
    ensures RowsInRange(Flatten(blocks), |nodes|)
    ensures WellFormed(Reply(nodes, Flatten(blocks), TypeIndices(blocks), m, node2elem, uid, request, rank, periodic),
                       ColsOf(blocks))
  {
    var cells := Flatten(blocks);
    var types := TypeIndices(blocks);
    FlattenRowsInRange(blocks, |nodes|);
    var needed := NeededUids(request, m, node2elem, cells, NodeUids(uid, nodes), rank);
    forall k | 0 <= k < |needed| ensures needed[k] in m {
      assert needed[k] in needed;
    }
    forall e | 0 <= e < |cells| ensures types[e] < |ColsOf(blocks)| && |cells[e].nodes| == ColsOf(blocks)[types[e]] {
      FlattenedRows(blocks, e);
    }
    SentBufferWellFormed(nodes, cells, types, ColsOf(blocks), m, uid, needed,
      FoundElems(request, m, node2elem, cells, rank), periodic);
  }

  /**
   * The exchange and merge every pass ends with: answer every partition's
   * request (the own one being `send`), replace the own received slot with
   * the own answer, and merge the received buffers.
   */
  method ExchangeAndMerge(h: HaloHelper, w: World, level: int, kind: PassKind, send: seq<int>,
                          periodic: Option<Periodic>)
    returns (r: Outcome<HaloError>, ghost recv: seq<PartBuffer>)
    requires Ready(h) && w.Valid(ColsOf(h.mesh.blocks))
    modifies h, h.mesh`nodes, h.mesh`blocks
    ensures h.node2elem == old(h.node2elem) && h.bdryNodes == old(h.bdryNodes)
    ensures r.Fail? && r.error.UidNotFound? <==>
      !AllAnswerable(old(h.mesh.nodes), Flatten(old(h.mesh.blocks)), old(h.uid2node), h.node2elem, h.uid,
        w.requests(level, kind)[w.rank := send], w.rank)
    ensures r.Pass? || r.error.UidNotFound? || r.error.NodeAlreadyKnown?
    ensures r.Pass? ==> Ready(h) && ColsOf(h.mesh.blocks) == old(ColsOf(h.mesh.blocks))
    ensures RowsInRange(Flatten(old(h.mesh.blocks)), old(|h.mesh.nodes|)) && IndicesBelow(old(h.uid2node), old(|h.mesh.nodes|))
    ensures r.Pass? ==> Answerable(old(h.mesh.nodes), Flatten(old(h.mesh.blocks)), old(h.uid2node), h.node2elem, h.uid, send, w.rank)
    ensures r.Pass? ==> recv == w.buffers(level, kind)[w.rank :=
      Reply(old(h.mesh.nodes), Flatten(old(h.mesh.blocks)), TypeIndices(old(h.mesh.blocks)), old(h.uid2node),
        h.node2elem, h.uid, send, w.rank, periodic)]
    ensures r.Pass? ==> h.mesh.nodes == old(h.mesh.nodes) + NewNodeRows(RecvNodes(recv),
      PickedNodes(h.uid, old(h.mesh.nodes), recv), h.projection)
    ensures r.Pass? ==> PassMerged(h.uid, h.projection, h.halo, old(h.uid2node), recv,
      old(h.mesh.nodes), old(h.mesh.blocks), h.mesh.nodes, h.mesh.blocks)
    ensures r.Pass? ==> forall t :: 0 <= t < |h.mesh.blocks| ==> Appended(old(h.mesh.blocks)[t], h.mesh.blocks[t], h.halo)
    ensures r.Pass? ==> (h.newPeriodicGhostPoints == old(h.newPeriodicGhostPoints)
      + (if periodic.Some? then Between(old(|h.mesh.nodes|), |h.mesh.nodes|) else []))
    ensures r.Pass? ==> |h.newPeriodicGhostCells| == |h.mesh.blocks| && forall t :: 0 <= t < |h.mesh.blocks| ==>
      h.newPeriodicGhostCells[t] == (if old(|h.newPeriodicGhostCells|) == 0 then [] else old(h.newPeriodicGhostCells)[t])
        + (if periodic.Some? then Between(old(|h.mesh.blocks[t].cells|), |h.mesh.blocks[t].cells|) else [])
  {
    recv := [];
    var nodes := h.mesh.nodes;
    var blocks := h.mesh.blocks;
    var cells := h.mesh.Cells();
    var types := TypeIndices(blocks);
    FlattenRowsInRange(blocks, |nodes|);
    var requests := w.requests(level, kind)[w.rank := send];
    var sent := AnswerAll(nodes, cells, types, h.uid2node, h.node2elem, h.uid, requests, w.rank, periodic);
    if sent.Failure? {
      r := Fail(UidNotFound(sent.error));
      return;
    }
    assert requests[w.rank] == send;
    ReplyWellFormed(nodes, blocks, h.uid2node, h.node2elem, h.uid, send, w.rank, periodic);
    var received := w.buffers(level, kind)[w.rank := sent.value[w.rank]];
    recv := received;
    var added := h.AddBuffers(received, periodic.Some?);
    if added.Fail? {
      r := Fail(NodeAlreadyKnown(added.error));
      return;
    }
    r := Pass;
  }

  /** Lookup building: node2elem and, when asked, the identifier map from the current nodes. */
  method BuildLookups(h: HaloHelper, buildNode2Elem: bool, buildUid2Node: bool) returns (r: Outcome<HaloError>)
    requires Ready(h)
    modifies h
    ensures h.bdryNodes == old(h.bdryNodes)
    ensures h.newPeriodicGhostPoints == old(h.newPeriodicGhostPoints)
    ensures h.newPeriodicGhostCells == old(h.newPeriodicGhostCells)
    ensures h.node2elem == (if buildNode2Elem then Node2ElemTable(|h.mesh.nodes|, h.mesh.Cells()) else old(h.node2elem))
    ensures r.Fail? <==> buildUid2Node && !Distinct(NodeUids(h.uid, h.mesh.nodes))
    ensures r.Fail? ==> r.error == DuplicateUid(Conflicts(NodeUids(h.uid, h.mesh.nodes)))
    ensures r.Pass? ==> Ready(h) && h.uid2node == LookupMap(old(h.uid2node), buildUid2Node, h.uid, h.mesh.nodes)
  {
    if buildNode2Elem {
      FlattenRowsInRange(h.mesh.blocks, |h.mesh.nodes|);
      var table := BuildNode2Elem(|h.mesh.nodes|, h.mesh.Cells());
      h.node2elem := table;
    }
    if buildUid2Node {
      var m := BuildUid2Node(h.uid, h.mesh.nodes);
      if m.Failure? {
        r := Fail(DuplicateUid(m.error));
        return;
      }
      FirstIndexIsFirst(NodeUids(h.uid, h.mesh.nodes));
      h.uid2node := m.value;
    }
    r := Pass;
  }

  /** accumulate_partition_bdry_nodes on the current mesh, into the helper. */
  method FindBoundary(h: HaloHelper, w: World)
    requires Ready(h) && w.Valid(ColsOf(h.mesh.blocks))
    modifies h
    ensures h.node2elem == old(h.node2elem) && h.uid2node == old(h.uid2node)
    ensures h.newPeriodicGhostPoints == old(h.newPeriodicGhostPoints)
    ensures h.newPeriodicGhostCells == old(h.newPeriodicGhostCells)
    ensures Ready(h)
    ensures h.bdryNodes == SortedOf(w.facets(h.mesh.nodes, h.mesh.blocks).BoundaryNodes())
  {
    var facets := w.facets(h.mesh.nodes, h.mesh.blocks);
    var bdry := AccumulatePartitionBdryNodes(facets);
    BoundaryNodesInRange(facets, |h.mesh.nodes|);
    assert Elems(bdry) == facets.BoundaryNodes() by {
      forall x ensures x in Elems(bdry) <==> x in facets.BoundaryNodes() {
        assert x in Elems(bdry) <==> x in bdry;
      }
    }
    SortedUnique(bdry, SortedOf(facets.BoundaryNodes()));
    h.bdryNodes := bdry;
  }

  /**
   * increase_halo_interior: node2elem and the identifier map are built when
   * still empty, the boundary nodes are found afresh, their identifiers are
   * sent, every request is answered and the received buffers are merged.
   */
  method IncreaseHaloInterior(h: HaloHelper, w: World, level: int)
    returns (r: Outcome<HaloError>, send: seq<int>, ghost recv: seq<PartBuffer>)
    requires Ready(h) && w.Valid(ColsOf(h.mesh.blocks))
    modifies h, h.mesh`nodes, h.mesh`blocks
    ensures h.node2elem == (if old(h.node2elem) == [] then Node2ElemTable(old(|h.mesh.nodes|), old(h.mesh.Cells()))
                            else old(h.node2elem))
    ensures r.Fail? && r.error.DuplicateUid? <==>
      old(h.uid2node) == map[] && !Distinct(NodeUids(h.uid, old(h.mesh.nodes)))
    ensures r.Fail? && r.error.UidNotFound? ==> Distinct(NodeUids(h.uid, old(h.mesh.nodes))) || old(h.uid2node) != map[]
    ensures r.Pass? ==> h.bdryNodes == SortedOf(w.facets(old(h.mesh.nodes), old(h.mesh.blocks)).BoundaryNodes())
    ensures r.Pass? ==> forall x :: x in h.bdryNodes ==> 0 <= x < old(|h.mesh.nodes|)
    ensures r.Pass? ==> send == BoundaryUids(h.uid, old(h.mesh.nodes), h.bdryNodes, None)
    ensures r.Pass? ==> AllAnswerable(old(h.mesh.nodes), old(h.mesh.Cells()),
      LookupMap(old(h.uid2node), old(h.uid2node) == map[], h.uid, old(h.mesh.nodes)), h.node2elem, h.uid,
      w.requests(level, Interior)[w.rank := send], w.rank)
    ensures RowsInRange(old(h.mesh.Cells()), old(|h.mesh.nodes|))
    ensures r.Pass? ==> IndicesBelow(LookupMap(old(h.uid2node), old(h.uid2node) == map[], h.uid, old(h.mesh.nodes)), old(|h.mesh.nodes|))
    ensures r.Pass? ==> Answerable(old(h.mesh.nodes), old(h.mesh.Cells()),
      LookupMap(old(h.uid2node), old(h.uid2node) == map[], h.uid, old(h.mesh.nodes)), h.node2elem, h.uid, send, w.rank)
    ensures r.Pass? ==> recv == w.buffers(level, Interior)[w.rank :=
      Reply(old(h.mesh.nodes), old(h.mesh.Cells()), TypeIndices(old(h.mesh.blocks)),
        LookupMap(old(h.uid2node), old(h.uid2node) == map[], h.uid, old(h.mesh.nodes)),
        h.node2elem, h.uid, send, w.rank, None)]
    ensures r.Pass? ==> Ready(h) && ColsOf(h.mesh.blocks) == old(ColsOf(h.mesh.blocks))
    ensures r.Pass? ==> h.mesh.nodes == old(h.mesh.nodes) + NewNodeRows(RecvNodes(recv),
      PickedNodes(h.uid, old(h.mesh.nodes), recv), h.projection)
    ensures r.Pass? ==> PassMerged(h.uid, h.projection, h.halo,
      LookupMap(old(h.uid2node), old(h.uid2node) == map[], h.uid, old(h.mesh.nodes)), recv,
      old(h.mesh.nodes), old(h.mesh.blocks), h.mesh.nodes, h.mesh.blocks)
    ensures r.Pass? ==> forall t :: 0 <= t < |h.mesh.blocks| ==> Appended(old(h.mesh.blocks)[t], h.mesh.blocks[t], h.halo)
    ensures r.Pass? ==> h.newPeriodicGhostPoints == old(h.newPeriodicGhostPoints)
    ensures r.Pass? ==> |h.newPeriodicGhostCells| == |h.mesh.blocks| && forall t :: 0 <= t < |h.mesh.blocks| ==>
      h.newPeriodicGhostCells[t] == (if old(|h.newPeriodicGhostCells|) == 0 then [] else old(h.newPeriodicGhostCells)[t])
  {
    send, recv := [], [];
    FlattenRowsInRange(h.mesh.blocks, |h.mesh.nodes|);
    r := BuildLookups(h, h.node2elem == [], h.uid2node == map[]);
    if r.Fail? {
      return;
    }
    FindBoundary(h, w);
    send := BoundaryUids(h.uid, h.mesh.nodes, h.bdryNodes, None);
    r, recv := ExchangeAndMerge(h, w, level, Interior, send, None);
  }

  /**
   * increase_halo_periodic: node2elem and the identifier map are always
   * rebuilt, the boundary nodes are found only when none are known yet, the
   * accepted ones are sent under their shifted identifier, every request is
   * answered with shifted-back coordinates and the pass's flags, and the
   * received buffers are merged as periodic.
   */
  method IncreaseHaloPeriodic(h: HaloHelper, w: World, level: int, kind: PassKind, points: PeriodicPoints,
                              transform: Transform, newFlags: bv32)
    returns (r: Outcome<HaloError>, send: seq<int>, ghost recv: seq<PartBuffer>)
    requires Ready(h) && w.Valid(ColsOf(h.mesh.blocks))
    modifies h, h.mesh`nodes, h.mesh`blocks
    ensures h.node2elem == Node2ElemTable(old(|h.mesh.nodes|), old(h.mesh.Cells()))
    ensures r.Fail? && r.error.DuplicateUid? <==> !Distinct(NodeUids(h.uid, old(h.mesh.nodes)))
    ensures r.Pass? ==> h.bdryNodes == (if old(h.bdryNodes) == [] then
      SortedOf(w.facets(old(h.mesh.nodes), old(h.mesh.blocks)).BoundaryNodes()) else old(h.bdryNodes))
    ensures r.Pass? ==> forall x :: x in h.bdryNodes ==> 0 <= x < old(|h.mesh.nodes|)
    ensures r.Pass? ==> send == BoundaryUids(h.uid, old(h.mesh.nodes), PeriodicBdry(h.bdryNodes, points), Some(transform.forward))
    ensures r.Pass? ==> AllAnswerable(old(h.mesh.nodes), old(h.mesh.Cells()), FirstIndex(NodeUids(h.uid, old(h.mesh.nodes))),
      h.node2elem, h.uid, w.requests(level, kind)[w.rank := send], w.rank)
    ensures RowsInRange(old(h.mesh.Cells()), old(|h.mesh.nodes|))
    ensures r.Pass? ==> IndicesBelow(FirstIndex(NodeUids(h.uid, old(h.mesh.nodes))), old(|h.mesh.nodes|))
    ensures r.Pass? ==> Answerable(old(h.mesh.nodes), old(h.mesh.Cells()), FirstIndex(NodeUids(h.uid, old(h.mesh.nodes))),
      h.node2elem, h.uid, send, w.rank)
    ensures r.Pass? ==> recv == w.buffers(level, kind)[w.rank :=
      Reply(old(h.mesh.nodes), old(h.mesh.Cells()), TypeIndices(old(h.mesh.blocks)),
        FirstIndex(NodeUids(h.uid, old(h.mesh.nodes))), h.node2elem, h.uid, send, w.rank,
        Some(Periodic(transform.backward, newFlags)))]
    ensures r.Pass? ==> Ready(h) && ColsOf(h.mesh.blocks) == old(ColsOf(h.mesh.blocks))
    ensures r.Pass? ==> h.mesh.nodes == old(h.mesh.nodes) + NewNodeRows(RecvNodes(recv),
      PickedNodes(h.uid, old(h.mesh.nodes), recv), h.projection)
    ensures r.Pass? ==> PassMerged(h.uid, h.projection, h.halo, FirstIndex(NodeUids(h.uid, old(h.mesh.nodes))), recv,
      old(h.mesh.nodes), old(h.mesh.blocks), h.mesh.nodes, h.mesh.blocks)
    ensures r.Pass? ==> forall t :: 0 <= t < |h.mesh.blocks| ==> Appended(old(h.mesh.blocks)[t], h.mesh.blocks[t], h.halo)
    ensures r.Pass? ==> h.newPeriodicGhostPoints == old(h.newPeriodicGhostPoints) + Between(old(|h.mesh.nodes|), |h.mesh.nodes|)
    ensures r.Pass? ==> |h.newPeriodicGhostCells| == |h.mesh.blocks| && forall t :: 0 <= t < |h.mesh.blocks| ==>
      h.newPeriodicGhostCells[t] == (if old(|h.newPeriodicGhostCells|) == 0 then [] else old(h.newPeriodicGhostCells)[t])
        + Between(old(|h.mesh.blocks[t].cells|), |h.mesh.blocks[t].cells|)
  {
    send, recv := [], [];
    FlattenRowsInRange(h.mesh.blocks, |h.mesh.nodes|);
    r := BuildLookups(h, true, true);
    if r.Fail? {
      return;
    }
    if h.bdryNodes == [] {
      FindBoundary(h, w);
    }
    var bdry := PeriodicBdry(h.bdryNodes, points);
    send := BoundaryUids(h.uid, h.mesh.nodes, bdry, Some(transform.forward));
    r, recv := ExchangeAndMerge(h, w, level, kind, send, Some(Periodic(transform.backward, newFlags)));
  }

  /** Which pass it was, what it received and the mesh it left behind. */
  datatype PassTrace = PassTrace(kind: PassKind, recv: seq<PartBuffer>, nodes: seq<Node>, blocks: seq<Block>)

  /** The three passes of one level, in order. */
  datatype LevelTrace = LevelTrace(interior: PassTrace, west: PassTrace, east: PassTrace)

  /** Every buffer but the own one is what the other partition sent for that level and pass. */
  ghost predicate FromOthers(recv: seq<PartBuffer>, w: World, level: int, kind: PassKind)
  {
    && |recv| == |w.buffers(level, kind)| && w.rank < |recv|
    && forall p :: 0 <= p < |recv| && p != w.rank ==> recv[p] == w.buffers(level, kind)[p]
  }

  /** A pass that puts its own reply in its own slot of the world's buffers receives the others' buffers unchanged. */
  lemma OwnReplyFromOthers(w: World, cols: seq<nat>, level: int, kind: PassKind, reply: PartBuffer)
    requires w.Valid(cols)
    ensures FromOthers(w.buffers(level, kind)[w.rank := reply], w, level, kind)
  {
  }

  /**
   * One pass of a level, from the mesh (nodes0, blocks0): the buffers of the
   * other partitions come from the world, and they are merged with the
   * identifier map built from the nodes the pass started from.
   */
  ghost predicate PassStep(uid: UidFn, projection: Point -> Point, w: World, level: int, halo: int,
                           nodes0: seq<Node>, blocks0: seq<Block>, p: PassTrace)
  {
    && FromOthers(p.recv, w, level, p.kind)
    && PassMerged(uid, projection, halo, FirstIndex(NodeUids(uid, nodes0)), p.recv, nodes0, blocks0, p.nodes, p.blocks)
  }

  /**
   * The interior pass merges with the identifier map it builds from the
   * nodes it starts from, so it is a pass step when that map was empty.
   */
  lemma InteriorPassStep(uid: UidFn, projection: Point -> Point, w: World, cols: seq<nat>, level: int, halo: int,
                         m: map<int, nat>, nodes0: seq<Node>, blocks0: seq<Block>, reply: PartBuffer,
                         nodes1: seq<Node>, blocks1: seq<Block>)
    requires w.Valid(cols) && m == map[]
    requires PassMerged(uid, projection, halo, LookupMap(m, m == map[], uid, nodes0),
      w.buffers(level, Interior)[w.rank := reply], nodes0, blocks0, nodes1, blocks1)
    ensures PassStep(uid, projection, w, level, halo, nodes0, blocks0,
      PassTrace(Interior, w.buffers(level, Interior)[w.rank := reply], nodes1, blocks1))
  {
    OwnReplyFromOthers(w, cols, level, Interior, reply);
  }

  /** One level: the interior pass, then the West and East periodic passes, each from where the last one left. */
  ghost predicate LevelMerged(uid: UidFn, projection: Point -> Point, w: World, level: int, halo: int,
                              nodes0: seq<Node>, blocks0: seq<Block>, t: LevelTrace)
  {
    && t.interior.kind == Interior && t.west.kind == West && t.east.kind == East
    && PassStep(uid, projection, w, level, halo, nodes0, blocks0, t.interior)
    && PassStep(uid, projection, w, level, halo, t.interior.nodes, t.interior.blocks, t.west)
    && PassStep(uid, projection, w, level, halo, t.west.nodes, t.west.blocks, t.east)
  }
}
