/**
 * Answering the requests of one halo-growth pass: every partition sends the
 * identifiers of its boundary nodes, and this rank answers each partition with
 * the elements it owns around those nodes and the nodes completing them.
 */
module HaloAnswer {
  import opened Wrappers
  import opened OrderedSeq
  import opened HaloMesh
  import opened HaloLookup
  import opened HaloBuffers

  /** The elements found for one request, in ascending order. */
  ghost function FoundElems(request: seq<int>, uid2node: map<int, nat>, node2elem: seq<seq<nat>>,
                            cells: seq<Cell>, rank: int): (r: seq<int>)
    ensures ElemsIn(cells, r)
  {
    var r := SortedOf(FoundSet(request, uid2node, node2elem, cells, rank));
    assert forall j :: 0 <= j < |r| ==> r[j] in FoundSet(request, uid2node, node2elem, cells, rank);
    forall j | 0 <= j < |r| ensures 0 <= r[j] < |cells| {
      FoundSetMembership(request, uid2node, node2elem, cells, rank, r[j]);
    }
    r
  }

  /** The identifiers of the nodes completing the found elements, not requested, in ascending order. */
  ghost function NeededUids(request: seq<int>, uid2node: map<int, nat>, node2elem: seq<seq<nat>>,
                            cells: seq<Cell>, nodeUids: seq<int>, rank: int): seq<int>
  {
    SortedOf(ElemNodeUids(FoundElems(request, uid2node, node2elem, cells, rank), cells, nodeUids) - Elems(request))
  }

  /** Every identifier collected from element rows is the identifier of some local node. */
  lemma {:induction false} ElemNodeUidsWithin(found: seq<int>, cells: seq<Cell>, nodeUids: seq<int>)
    ensures ElemNodeUids(found, cells, nodeUids) <= Elems(nodeUids)
  {
    if found != [] {
      ElemNodeUidsWithin(found[..|found| - 1], cells, nodeUids);
    }
  }

  /**
   * A request can always be answered when the map knows every local node:
   * the nodes a request needs all come from local element rows.
   */
  lemma AnswerComplete(nodes: seq<Node>, cells: seq<Cell>, uid2node: map<int, nat>, node2elem: seq<seq<nat>>,
                       uid: UidFn, request: seq<int>, rank: int)
    requires forall k :: 0 <= k < |nodes| ==> uid.node(nodes[k].xy) in uid2node
    ensures Answerable(nodes, cells, uid2node, node2elem, uid, request, rank)
  {
    ElemNodeUidsWithin(FoundElems(request, uid2node, node2elem, cells, rank), cells, NodeUids(uid, nodes));
  }

  /** Every node identifier a request needs is known here. */
  ghost predicate Answerable(nodes: seq<Node>, cells: seq<Cell>, uid2node: map<int, nat>, node2elem: seq<seq<nat>>,
                             uid: UidFn, request: seq<int>, rank: int)
  {
    forall u :: u in NeededUids(request, uid2node, node2elem, cells, NodeUids(uid, nodes), rank) ==> u in uid2node
  }

  /** The buffer that answers one request. */
  ghost function Reply(nodes: seq<Node>, cells: seq<Cell>, types: seq<nat>, uid2node: map<int, nat>,
                       node2elem: seq<seq<nat>>, uid: UidFn, request: seq<int>, rank: int, periodic: Option<Periodic>): PartBuffer
    requires RowsInRange(cells, |nodes|) && |types| == |cells| && IndicesBelow(uid2node, |nodes|)
    requires Answerable(nodes, cells, uid2node, node2elem, uid, request, rank)
  {
    SendBuffer(nodes, cells, types, uid2node, uid,
      NeededUids(request, uid2node, node2elem, cells, NodeUids(uid, nodes), rank),
      FoundElems(request, uid2node, node2elem, cells, rank), periodic)
  }

  /**
   * One iteration of the per-partition loop of a pass: accumulate_elements on
   * the partition's request, then fill_sendbuffer with the needed node
   * identifiers in set order and the found elements.
   */
  method Answer(nodes: seq<Node>, cells: seq<Cell>, types: seq<nat>, uid2node: map<int, nat>,
                node2elem: seq<seq<nat>>, uid: UidFn, request: seq<int>, rank: int, periodic: Option<Periodic>)
    returns (r: Result<PartBuffer, int>)
    requires RowsInRange(cells, |nodes|) && |types| == |cells|
    requires IndicesBelow(uid2node, |nodes|)
    ensures r.Success? <==> Answerable(nodes, cells, uid2node, node2elem, uid, request, rank)
    ensures r.Success? ==> r.value == Reply(nodes, cells, types, uid2node, node2elem, uid, request, rank, periodic)
  {
    var nodeUids := NodeUids(uid, nodes);
    var found, newNodesUid := AccumulateElements(request, uid2node, node2elem, cells, nodeUids, rank);
    SortedUnique(found, FoundElems(request, uid2node, node2elem, cells, rank));
    var nodesUid := SortedFromSet(newNodesUid);
    assert ElemsIn(cells, found) by {
      forall j | 0 <= j < |found| ensures 0 <= found[j] < |cells| {
        assert found[j] in found;
      }
    }
    r := FillSendBuffer(nodes, cells, types, uid2node, uid, nodesUid, found, periodic);
  }

  /** The per-partition loop of a pass: one buffer for every partition's request. */
  method AnswerAll(nodes: seq<Node>, cells: seq<Cell>, types: seq<nat>, uid2node: map<int, nat>,
                   node2elem: seq<seq<nat>>, uid: UidFn, requests: seq<seq<int>>, rank: int, periodic: Option<Periodic>)
    returns (r: Result<seq<PartBuffer>, int>)
    requires RowsInRange(cells, |nodes|) && |types| == |cells|
    requires IndicesBelow(uid2node, |nodes|)
    ensures r.Success? <==>
      forall p :: 0 <= p < |requests| ==> Answerable(nodes, cells, uid2node, node2elem, uid, requests[p], rank)
    ensures r.Success? ==> |r.value| == |requests| && forall p :: 0 <= p < |requests| ==>
      r.value[p] == Reply(nodes, cells, types, uid2node, node2elem, uid, requests[p], rank, periodic)
  {
    var sent: seq<PartBuffer> := [];
    var jpart := 0;
    while jpart < |requests|
      invariant 0 <= jpart <= |requests| && |sent| == jpart
      invariant forall p :: 0 <= p < jpart ==> Answerable(nodes, cells, uid2node, node2elem, uid, requests[p], rank)
      invariant forall p :: 0 <= p < jpart ==>
        sent[p] == Reply(nodes, cells, types, uid2node, node2elem, uid, requests[p], rank, periodic)
    {
      var b := Answer(nodes, cells, types, uid2node, node2elem, uid, requests[jpart], rank, periodic);
      if b.Failure? {
        return Failure(b.error);
      }
      ghost var before := sent;
      sent := sent + [b.value];
      forall p | 0 <= p <= jpart
        ensures sent[p] == Reply(nodes, cells, types, uid2node, node2elem, uid, requests[p], rank, periodic)
      {
        if p < jpart {
          assert sent[p] == before[p];
        }
      }
      jpart := jpart + 1;
    }
    r := Success(sent);
  }
}
