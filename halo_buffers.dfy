/**
 * The payload one rank sends another in a halo-growth pass: the records of the
 * requested nodes and of the found elements, with each element's node list sent
 * as identifiers in one ragged array indexed by per-element offsets.
 */
module HaloBuffers {
  import opened Wrappers
  import opened HaloMesh

  /** One shipped node: the node_* vectors of the buffers at one position. */
  datatype NodeRecord = NodeRecord(glb: int, part: int, ridx: int, flags: bv32, xy: Point)

  /** One shipped element: elem_glb_idx, elem_part, elem_type and elem_nodes_displs at one position. */
  datatype ElemRecord = ElemRecord(glb: int, part: int, elemType: int, displ: int)

  /** Everything sent to (or received from) one partition. */
  datatype PartBuffer = PartBuffer(nodes: seq<NodeRecord>, elems: seq<ElemRecord>, elemNodesId: seq<int>)

  const EmptyBuffer := PartBuffer([], [], [])

  /**
   * What a periodic pass does differently: coordinates are shipped through the
   * backward transform, and every shipped node carries the pass's flags.
   */
  datatype Periodic = Periodic(backward: Point -> Point, newFlags: bv32)

  /** The coordinate a node is shipped with. */
  function ShipPoint(p: Point, periodic: Option<Periodic>): Point
  {
    if periodic.None? then p else periodic.value.backward(p)
  }

  /**
   * The record of a local node as shipped: in the interior pass its own
   * fields with GHOST added to its flags; in a periodic pass the transformed
   * coordinate, an index derived from that coordinate and the pass's flags.
   */
  function ShippedNode(n: Node, uid: UidFn, periodic: Option<Periodic>): NodeRecord
  {
    match periodic
    case None => NodeRecord(n.glb, n.part, n.ridx, n.flags | GHOST, n.xy)
    case Some(t) => NodeRecord(uid.node(t.backward(n.xy)), n.part, n.ridx, t.newFlags, t.backward(n.xy))
  }

  /** Every node index the map holds is a valid index. */
  ghost predicate IndicesBelow(m: map<int, nat>, n: nat)
  {
    forall u :: u in m ==> m[u] < n
  }

  /** The local node known under identifier u. */
  function LocalNode(nodes: seq<Node>, uid2node: map<int, nat>, u: int): Node
    requires IndicesBelow(uid2node, |nodes|) && u in uid2node
  {
    nodes[uid2node[u]]
  }

  ghost predicate ElemsIn(cells: seq<Cell>, elems: seq<int>)
  {
    forall j :: 0 <= j < |elems| ==> 0 <= elems[j] < |cells|
  }

  /** Offset of the node list of the element after `elems` in the ragged array. */
  function Offset(cells: seq<Cell>, elems: seq<int>): nat
    requires ElemsIn(cells, elems)
  {
    if elems == [] then 0 else Offset(cells, elems[..|elems| - 1]) + |cells[elems[|elems| - 1]].nodes|
  }

  /** The shipped coordinates of one connectivity row. */
  function ShipRow(nodes: seq<Node>, row: seq<nat>, periodic: Option<Periodic>): (r: seq<Point>)
    requires forall n :: 0 <= n < |row| ==> row[n] < |nodes|
    ensures |r| == |row|
  {
    seq(|row|, n requires 0 <= n < |row| => ShipPoint(nodes[row[n]].xy, periodic))
  }

  /** The ragged array of node identifiers of the given elements. */
  function ElemNodeIds(nodes: seq<Node>, cells: seq<Cell>, elems: seq<int>, uid: UidFn, periodic: Option<Periodic>): (r: seq<int>)
    requires ElemsIn(cells, elems) && RowsInRange(cells, |nodes|)
    ensures |r| == Offset(cells, elems)
  {
    if elems == [] then []
    else
      var row := cells[elems[|elems| - 1]].nodes;
      ElemNodeIds(nodes, cells, elems[..|elems| - 1], uid, periodic)
        + seq(|row|, n requires 0 <= n < |row| => uid.node(ShipPoint(nodes[row[n]].xy, periodic)))
  }

  /**
   * The record of the j-th found element: in the interior pass its own global
   * index, in a periodic pass minus the identifier of its transformed nodes.
   */
  function ShippedElem(nodes: seq<Node>, cells: seq<Cell>, types: seq<nat>, elems: seq<int>, j: nat,
                       uid: UidFn, periodic: Option<Periodic>): ElemRecord
    requires ElemsIn(cells, elems) && RowsInRange(cells, |nodes|) && |types| == |cells| && j < |elems|
  {
    var c := cells[elems[j]];
    var glb := if periodic.None? then c.glb else -uid.cell(ShipRow(nodes, c.nodes, periodic));
    ElemRecord(glb, c.part, types[elems[j]], Offset(cells, elems[..j]))
  }

  /** The buffer for one destination, when every requested identifier is known. */
  function SendBuffer(nodes: seq<Node>, cells: seq<Cell>, types: seq<nat>, uid2node: map<int, nat>, uid: UidFn,
                      nodesUid: seq<int>, elems: seq<int>, periodic: Option<Periodic>): PartBuffer
    requires ElemsIn(cells, elems) && RowsInRange(cells, |nodes|) && |types| == |cells|
    requires IndicesBelow(uid2node, |nodes|)
    requires forall k :: 0 <= k < |nodesUid| ==> nodesUid[k] in uid2node
  {
    PartBuffer(
      seq(|nodesUid|, k requires 0 <= k < |nodesUid| => ShippedNode(LocalNode(nodes, uid2node, nodesUid[k]), uid, periodic)),
      seq(|elems|, j requires 0 <= j < |elems| => ShippedElem(nodes, cells, types, elems, j, uid, periodic)),
      ElemNodeIds(nodes, cells, elems, uid, periodic))
  }

  /**
   * A received buffer that can be merged: element types name existing blocks
   * and every element's node identifiers lie inside the ragged array.
   */
  ghost predicate WellFormed(b: PartBuffer, cols: seq<nat>)
  {
    forall e :: 0 <= e < |b.elems| ==>
      0 <= b.elems[e].elemType < |cols| && 0 <= b.elems[e].displ
      && b.elems[e].displ + cols[b.elems[e].elemType] <= |b.elemNodesId|
  }

  lemma {:induction false} OffsetMonotone(cells: seq<Cell>, elems: seq<int>, j: nat)
    requires ElemsIn(cells, elems) && j < |elems|
    ensures Offset(cells, elems[..j]) + |cells[elems[j]].nodes| <= Offset(cells, elems)
    decreases |elems|
  {
    var k := |elems| - 1;
    assert elems[..k + 1] == elems;
    if j < k {
      assert elems[..k][..j] == elems[..j];
      assert elems[..k][j] == elems[j];
      OffsetMonotone(cells, elems[..k], j);
    } else {
      assert elems[..j] == elems[..k];
    }
  }

  /** The j-th element's n-th node identifier sits at its offset plus n. */
  lemma {:induction false} RaggedAccess(nodes: seq<Node>, cells: seq<Cell>, elems: seq<int>, uid: UidFn,
                                        periodic: Option<Periodic>, j: nat, n: nat)
    requires ElemsIn(cells, elems) && RowsInRange(cells, |nodes|)
    requires j < |elems| && n < |cells[elems[j]].nodes|
    ensures Offset(cells, elems[..j]) + n < |ElemNodeIds(nodes, cells, elems, uid, periodic)|
    ensures ElemNodeIds(nodes, cells, elems, uid, periodic)[Offset(cells, elems[..j]) + n]
            == uid.node(ShipPoint(nodes[cells[elems[j]].nodes[n]].xy, periodic))
    decreases |elems|
  {
    OffsetMonotone(cells, elems, j);
    var k := |elems| - 1;
    var front := elems[..k];
    assert ElemsIn(cells, front);
    if j < k {
      assert front[..j] == elems[..j];
      assert front[j] == elems[j];
      RaggedAccess(nodes, cells, front, uid, periodic, j, n);
    } else {
      assert elems[..j] == front;
    }
  }

  /** What one rank ships is well formed for the receiver when rows fit their blocks. */
  lemma SentBufferWellFormed(nodes: seq<Node>, cells: seq<Cell>, types: seq<nat>, cols: seq<nat>,
                             uid2node: map<int, nat>, uid: UidFn, nodesUid: seq<int>, elems: seq<int>,
                             periodic: Option<Periodic>)
    requires ElemsIn(cells, elems) && RowsInRange(cells, |nodes|) && |types| == |cells|
    requires IndicesBelow(uid2node, |nodes|)
    requires forall k :: 0 <= k < |nodesUid| ==> nodesUid[k] in uid2node
    requires forall e :: 0 <= e < |cells| ==> types[e] < |cols| && |cells[e].nodes| == cols[types[e]]
    ensures WellFormed(SendBuffer(nodes, cells, types, uid2node, uid, nodesUid, elems, periodic), cols)
  {
    var b := SendBuffer(nodes, cells, types, uid2node, uid, nodesUid, elems, periodic);
    forall e | 0 <= e < |b.elems|
      ensures b.elems[e].displ + cols[b.elems[e].elemType] <= |b.elemNodesId|
    {
      OffsetMonotone(cells, elems, e);
    }
  }

  /** Look up every requested identifier; the first unknown one is reported. */
  method ShipNodes(nodes: seq<Node>, uid2node: map<int, nat>, uid: UidFn, nodesUid: seq<int>, periodic: Option<Periodic>)
    returns (r: Result<seq<NodeRecord>, int>)
    requires IndicesBelow(uid2node, |nodes|)
    ensures r.Failure? <==> exists k :: 0 <= k < |nodesUid| && nodesUid[k] !in uid2node
    ensures r.Failure? ==> r.error in nodesUid && r.error !in uid2node
    ensures r.Success? ==> |r.value| == |nodesUid|
    ensures r.Success? ==> forall k :: 0 <= k < |nodesUid| ==> r.value[k] == ShippedNode(LocalNode(nodes, uid2node, nodesUid[k]), uid, periodic)
  {
    var shipped: seq<NodeRecord> := [];
    var jnode := 0;
    while jnode < |nodesUid|
      invariant 0 <= jnode <= |nodesUid|
      invariant forall k :: 0 <= k < jnode ==> nodesUid[k] in uid2node
      invariant |shipped| == jnode
      invariant forall k :: 0 <= k < jnode ==> shipped[k] == ShippedNode(LocalNode(nodes, uid2node, nodesUid[k]), uid, periodic)
    {
      var u := nodesUid[jnode];
      if u !in uid2node {
        return Failure(u);
      }
      var node := uid2node[u];
      var n := nodes[node];
      var rec: NodeRecord;
      if periodic.None? {
        rec := NodeRecord(n.glb, n.part, n.ridx, n.flags | GHOST, n.xy);
      } else {
        var crd := periodic.value.backward(n.xy);
        rec := NodeRecord(uid.node(crd), n.part, n.ridx, periodic.value.newFlags, crd);
      }
      shipped := shipped + [rec];
      jnode := jnode + 1;
    }
    r := Success(shipped);
  }

  /** The element records and the ragged node-identifier array. */
  method ShipElems(nodes: seq<Node>, cells: seq<Cell>, types: seq<nat>, uid: UidFn, elems: seq<int>, periodic: Option<Periodic>)
    returns (records: seq<ElemRecord>, ids: seq<int>)
    requires ElemsIn(cells, elems) && RowsInRange(cells, |nodes|) && |types| == |cells|
    ensures |records| == |elems|
    ensures forall j :: 0 <= j < |elems| ==> records[j] == ShippedElem(nodes, cells, types, elems, j, uid, periodic)
    ensures ids == ElemNodeIds(nodes, cells, elems, uid, periodic)
  {
    records := [];
    ids := [];
    var jelemnode := 0;
    var jelem := 0;
    while jelem < |elems|
      invariant 0 <= jelem <= |elems|
      invariant ElemsIn(cells, elems[..jelem])
      invariant ids == ElemNodeIds(nodes, cells, elems[..jelem], uid, periodic)
      invariant jelemnode == |ids|
      invariant |records| == jelem
      invariant forall j :: 0 <= j < jelem ==> records[j] == ShippedElem(nodes, cells, types, elems, j, uid, periodic)
    {
      assert elems[..jelem + 1][..jelem] == elems[..jelem];
      var displ := jelemnode;
      var ielem := elems[jelem];
      var row := cells[ielem].nodes;
      var crds: seq<Point> := [];
      ghost var before := ids;
      var n := 0;
      while n < |row|
        invariant 0 <= n <= |row|
        invariant |crds| == n && crds == ShipRow(nodes, row, periodic)[..n]
        invariant ids == before + seq(n, i requires 0 <= i < n => uid.node(crds[i]))
        invariant jelemnode == |ids|
      {
        var crd := ShipPoint(nodes[row[n]].xy, periodic);
        ids := ids + [uid.node(crd)];
        crds := crds + [crd];
        jelemnode := jelemnode + 1;
        n := n + 1;
      }
      assert crds == ShipRow(nodes, row, periodic);
      var glb := if periodic.None? then cells[ielem].glb else -uid.cell(crds);
      records := records + [ElemRecord(glb, cells[ielem].part, types[ielem], displ)];
      jelem := jelem + 1;
    }
    assert elems[..jelem] == elems;
  }

  /**
   * fill_sendbuffer (both overloads): the buffer for one destination, built
   * from the requested node identifiers (in increasing order) and the found
   * elements; an identifier not known here is a failed assertion.
   */
  method FillSendBuffer(nodes: seq<Node>, cells: seq<Cell>, types: seq<nat>, uid2node: map<int, nat>, uid: UidFn,
                        nodesUid: seq<int>, elems: seq<int>, periodic: Option<Periodic>)
    returns (r: Result<PartBuffer, int>)
    requires ElemsIn(cells, elems) && RowsInRange(cells, |nodes|) && |types| == |cells|
    requires IndicesBelow(uid2node, |nodes|)
    ensures r.Failure? <==> exists k :: 0 <= k < |nodesUid| && nodesUid[k] !in uid2node
    ensures r.Failure? ==> r.error in nodesUid && r.error !in uid2node
    ensures r.Success? ==> r.value == SendBuffer(nodes, cells, types, uid2node, uid, nodesUid, elems, periodic)
  {
    var shipped := ShipNodes(nodes, uid2node, uid, nodesUid, periodic);
    if shipped.Failure? {
      return Failure(shipped.error);
    }
    var records, ids := ShipElems(nodes, cells, types, uid, elems, periodic);
    r := Success(PartBuffer(shipped.value, records, ids));
  }
}
