/**
 * The lookup structures of one halo-growth pass and the resolution of another
 * rank's request: node-to-element lists, the identifier-to-node map with its
 * collision check, the partition boundary taken from the facet arrays, and the
 * elements (and completing nodes) that answer a list of requested identifiers.
 */
module HaloLookup {
  import opened Wrappers
  import opened OrderedSeq
  import opened HaloMesh

  // ---------------------------------------------------------------------------
  // node -> element lists

  /** How often node n occurs in a connectivity row. */
  function Count(row: seq<nat>, n: nat): nat
  {
    if row == [] then 0 else Count(row[..|row| - 1], n) + (if row[|row| - 1] == n then 1 else 0)
  }

  function Repeat(e: nat, k: nat): (r: seq<nat>)
    ensures |r| == k && forall i :: 0 <= i < k ==> r[i] == e
  {
    if k == 0 then [] else Repeat(e, k - 1) + [e]
  }

  /**
   * The list of node n: element indices in increasing order, each non-patched
   * element once per occurrence of n in its row.
   */
  function Node2ElemOf(cells: seq<Cell>, n: nat): seq<nat>
  {
    if cells == [] then []
    else
      var k := |cells| - 1;
      Node2ElemOf(cells[..k], n) + (if cells[k].patch == 0 then Repeat(k, Count(cells[k].nodes, n)) else [])
  }

  lemma {:induction false} CountPositive(row: seq<nat>, n: nat)
    ensures Count(row, n) > 0 <==> n in row
  {
    if row != [] {
      CountPositive(row[..|row| - 1], n);
      assert row == row[..|row| - 1] + [row[|row| - 1]];
    }
  }

  /** Element e is in the list of node n iff e is not patched and n is in its row. */
  lemma {:induction false} Node2ElemMembership(cells: seq<Cell>, n: nat, e: nat)
    ensures e in Node2ElemOf(cells, n) <==> e < |cells| && cells[e].patch == 0 && n in cells[e].nodes
  {
    if cells != [] {
      var k := |cells| - 1;
      Node2ElemMembership(cells[..k], n, e);
      CountPositive(cells[k].nodes, n);
      if e < k {
        assert cells[..k][e] == cells[e];
      }
    }
  }

  /** Every entry of a list is a valid element index. */
  lemma {:induction false} Node2ElemBounded(cells: seq<Cell>, n: nat)
    ensures forall i :: 0 <= i < |Node2ElemOf(cells, n)| ==> Node2ElemOf(cells, n)[i] < |cells|
  {
    forall i | 0 <= i < |Node2ElemOf(cells, n)|
      ensures Node2ElemOf(cells, n)[i] < |cells|
    {
      Node2ElemMembership(cells, n, Node2ElemOf(cells, n)[i]);
    }
  }

  /** The lists are in increasing element order (an element repeats only for a repeated node). */
  lemma {:induction false} Node2ElemOrdered(cells: seq<Cell>, n: nat)
    ensures NonDecreasing(Node2ElemOf(cells, n))
  {
    if cells != [] {
      var k := |cells| - 1;
      Node2ElemOrdered(cells[..k], n);
      Node2ElemBounded(cells[..k], n);
    }
  }

  /** build_lookup_node2elem: one list per node, filled element by element. */
  method BuildNode2Elem(nbNodes: nat, cells: seq<Cell>) returns (node2elem: seq<seq<nat>>)
    requires RowsInRange(cells, nbNodes)
    ensures |node2elem| == nbNodes
    ensures forall n :: 0 <= n < nbNodes ==> node2elem[n] == Node2ElemOf(cells, n)
  {
    node2elem := seq(nbNodes, _ => []);
    var elem := 0;
    while elem < |cells|
      invariant 0 <= elem <= |cells|
      invariant |node2elem| == nbNodes
      invariant forall n :: 0 <= n < nbNodes ==> node2elem[n] == Node2ElemOf(cells[..elem], n)
    {
      assert cells[..elem + 1][..elem] == cells[..elem];
      if cells[elem].patch == 0 {
        var row := cells[elem].nodes;
        var j := 0;
        while j < |row|
          invariant 0 <= j <= |row|
          invariant |node2elem| == nbNodes
          invariant forall n :: 0 <= n < nbNodes ==>
            node2elem[n] == Node2ElemOf(cells[..elem], n) + Repeat(elem, Count(row[..j], n))
        {
          assert row[..j + 1][..j] == row[..j];
          var node := row[j];
          node2elem := node2elem[node := node2elem[node] + [elem]];
          j := j + 1;
        }
        assert row[..j] == row;
      }
      elem := elem + 1;
    }
    assert cells[..elem] == cells;
  }

  // ---------------------------------------------------------------------------
  // uid -> node map

  /** The identifiers of all local nodes, in node order. */
  function NodeUids(uid: UidFn, nodes: seq<Node>): (r: seq<int>)
    ensures |r| == |nodes| && forall k :: 0 <= k < |nodes| ==> r[k] == uid.node(nodes[k].xy)
  {
    seq(|nodes|, k requires 0 <= k < |nodes| => uid.node(nodes[k].xy))
  }

  predicate Distinct(s: seq<int>)
  {
    forall i, j :: 0 <= i < j < |s| ==> s[i] != s[j]
  }

  /** Map insertion that keeps an existing entry: each identifier goes to its first node. */
  function FirstIndex(uids: seq<int>): map<int, nat>
  {
    if uids == [] then map[]
    else
      var m := FirstIndex(uids[..|uids| - 1]);
      var u := uids[|uids| - 1];
      if u in m then m else m[u := |uids| - 1]
  }

  /** The reported conflicts: (node, node that first produced the same identifier). */
  function Conflicts(uids: seq<int>): seq<(nat, nat)>
  {
    if uids == [] then []
    else
      var k := |uids| - 1;
      var m := FirstIndex(uids[..k]);
      Conflicts(uids[..k]) + (if uids[k] in m then [(k, m[uids[k]])] else [])
  }

  /** The map holds every identifier, sending it to the first node that produced it. */
  lemma {:induction false} FirstIndexIsFirst(uids: seq<int>)
    ensures forall u :: u in FirstIndex(uids) <==> u in uids
    ensures forall u :: u in FirstIndex(uids) ==>
      FirstIndex(uids)[u] < |uids| && uids[FirstIndex(uids)[u]] == u
      && forall j :: 0 <= j < FirstIndex(uids)[u] ==> uids[j] != u
  {
    if uids != [] {
      var k := |uids| - 1;
      FirstIndexIsFirst(uids[..k]);
      assert uids == uids[..k] + [uids[k]];
      forall u | u in FirstIndex(uids[..k]) ensures uids[FirstIndex(uids[..k])[u]] == u {
        assert uids[..k][FirstIndex(uids[..k])[u]] == u;
      }
    }
  }

  /** Where the map sends one identifier: to a node that produced it. */
  lemma FirstIndexAt(uids: seq<int>, u: int)
    requires u in FirstIndex(uids)
    ensures FirstIndex(uids)[u] < |uids| && uids[FirstIndex(uids)[u]] == u
  {
    FirstIndexIsFirst(uids);
  }

  /** Some conflict is reported exactly when two nodes share an identifier. */
  lemma {:induction false} ConflictsIffNotDistinct(uids: seq<int>)
    ensures Conflicts(uids) == [] <==> Distinct(uids)
  {
    if uids != [] {
      var k := |uids| - 1;
      ConflictsIffNotDistinct(uids[..k]);
      FirstIndexIsFirst(uids[..k]);
      if Distinct(uids[..k]) && uids[k] !in FirstIndex(uids[..k]) {
        forall i, j | 0 <= i < j < |uids| ensures uids[i] != uids[j] {
          if j == k { assert uids[..k][i] == uids[i]; } else { assert uids[..k][i] == uids[i] && uids[..k][j] == uids[j]; }
        }
      }
      if uids[k] in FirstIndex(uids[..k]) {
        var i := FirstIndex(uids[..k])[uids[k]];
        FirstIndexAt(uids[..k], uids[k]);
        assert uids[..k][i] == uids[k];
        assert uids[i] == uids[k];
      }
      if Distinct(uids) {
        forall i, j | 0 <= i < j < k ensures uids[..k][i] != uids[..k][j] { }
      }
    }
  }

  /**
   * build_lookup_uid2node: insert every node under its identifier; if any
   * insertion finds its identifier taken, report every such conflict and fail.
   */
  method BuildUid2Node(uid: UidFn, nodes: seq<Node>) returns (r: Result<map<int, nat>, seq<(nat, nat)>>)
    ensures r.Success? <==> Distinct(NodeUids(uid, nodes))
    ensures r.Success? ==> r.value == FirstIndex(NodeUids(uid, nodes))
    ensures r.Failure? ==> r.error == Conflicts(NodeUids(uid, nodes)) && r.error != []
  {
    ghost var uids := NodeUids(uid, nodes);
    var uid2node: map<int, nat> := map[];
    var notes: seq<(nat, nat)> := [];
    var jnode := 0;
    while jnode < |nodes|
      invariant 0 <= jnode <= |nodes|
      invariant uid2node == FirstIndex(uids[..jnode])
      invariant notes == Conflicts(uids[..jnode])
    {
      assert uids[..jnode + 1][..jnode] == uids[..jnode];
      var u := uid.node(nodes[jnode].xy);
      if u in uid2node {
        var other := uid2node[u];
        notes := notes + [(jnode, other)];
      } else {
        uid2node := uid2node[u := jnode];
      }
      jnode := jnode + 1;
    }
    assert uids[..jnode] == uids;
    ConflictsIffNotDistinct(uids);
    if |notes| > 0 {
      r := Failure(notes);
    } else {
      r := Success(uid2node);
    }
  }

  // ---------------------------------------------------------------------------
  // partition boundary from facets

  /**
   * The facet arrays the facet accumulation hands back: two nodes and two
   * adjacent elements per facet, `missing` marking an absent neighbour.
   */
  datatype Facets = Facets(facetNodes: seq<int>, facetToElem: seq<int>, nbFacets: nat, missing: int)
  {
    ghost predicate Valid(nbNodes: nat)
    {
      && 2 * nbFacets <= |facetNodes|
      && 2 * nbFacets <= |facetToElem|
      && forall i :: 0 <= i < 2 * nbFacets ==> 0 <= facetNodes[i] < nbNodes
    }

    /** Facet f lies on the partition boundary: its second element is missing. */
    predicate OnBoundary(f: nat)
      requires f < nbFacets && 2 * nbFacets <= |facetToElem|
    {
      facetToElem[2 * f + 1] == missing
    }

    /** Node k (0 or 1) of facet f. */
    function FacetNode(f: nat, k: nat): int
      requires f < nbFacets && k < 2 && 2 * nbFacets <= |facetNodes|
    {
      facetNodes[2 * f + k]
    }

    /** Nodes of the boundary facets among the first `upTo`. */
    ghost function BoundaryNodesUpTo(upTo: nat): set<int>
      requires upTo <= nbFacets && 2 * nbFacets <= |facetNodes| && 2 * nbFacets <= |facetToElem|
    {
      set f: nat, k: nat | f < upTo && k < 2 && OnBoundary(f) :: FacetNode(f, k)
    }

    /** Nodes of the facets with only one adjacent element. */
    ghost function BoundaryNodes(): set<int>
      requires 2 * nbFacets <= |facetNodes| && 2 * nbFacets <= |facetToElem|
    {
      BoundaryNodesUpTo(nbFacets)
    }
  }

  /** With well-formed facet arrays every boundary node is a node of the mesh. */
  lemma BoundaryNodesInRange(facets: Facets, nbNodes: nat)
    requires facets.Valid(nbNodes)
    ensures forall x :: x in facets.BoundaryNodes() ==> 0 <= x < nbNodes
  {
    forall x | x in facets.BoundaryNodes() ensures 0 <= x < nbNodes {
      var f: nat, k: nat :| f < facets.nbFacets && k < 2 && facets.OnBoundary(f) && facets.FacetNode(f, k) == x;
      assert 2 * f + k < 2 * facets.nbFacets;
    }
  }

  /**
   * accumulate_partition_bdry_nodes_old: the nodes of the facets that have no
   * second element, each once, in increasing order.
   */
  method AccumulatePartitionBdryNodes(facets: Facets) returns (bdry: seq<int>)
    requires 2 * facets.nbFacets <= |facets.facetNodes| && 2 * facets.nbFacets <= |facets.facetToElem|
    ensures StrictlyIncreasing(bdry)
    ensures forall x :: x in bdry <==> x in facets.BoundaryNodes()
  {
    var bdrySet: set<int> := {};
    var jface := 0;
    while jface < facets.nbFacets
      invariant 0 <= jface <= facets.nbFacets
      invariant bdrySet == facets.BoundaryNodesUpTo(jface)
    {
      if facets.facetToElem[jface * 2 + 1] == facets.missing {
        bdrySet := bdrySet + {facets.facetNodes[jface * 2], facets.facetNodes[jface * 2 + 1]};
        assert facets.FacetNode(jface, 0) == facets.facetNodes[jface * 2];
        assert facets.FacetNode(jface, 1) == facets.facetNodes[jface * 2 + 1];
      }
      jface := jface + 1;
    }
    bdry := SortedFromSet(bdrySet);
  }

  // ---------------------------------------------------------------------------
  // periodic boundary selection

  /**
   * PeriodicPoints: accepts node j when j is below the node count taken before
   * the level started and the node carries every bit of `flag`.
   */
  datatype PeriodicPoints = PeriodicPoints(flags: seq<bv32>, flag: bv32, n: nat)
  {
    predicate Accepts(j: int)
    {
      // j < |flags| always holds for j < n in the driver; it keeps the test total.
      if j >= n then false
      else 0 <= j < |flags| && Check(flags[j], flag)
    }
  }

  lemma PeriodicPointsBelowCount(pts: PeriodicPoints, j: int)
    requires j < |pts.flags|
    ensures pts.Accepts(j) <==> 0 <= j < pts.n && Check(pts.flags[j], pts.flag)
  {
  }

  /** filter_nodes: the nodes the predicate accepts, in their original order. */
  function FilterNodes(nodes: seq<int>, accepts: int -> bool): (r: seq<int>)
    ensures |r| <= |nodes|
    ensures forall x :: x in r <==> x in nodes && accepts(x)
    ensures StrictlyIncreasing(nodes) ==> StrictlyIncreasing(r)
  {
    if nodes == [] then []
    else
      var rest := FilterNodes(nodes[..|nodes| - 1], accepts);
      var last := nodes[|nodes| - 1];
      assert forall x :: x in nodes <==> x in nodes[..|nodes| - 1] || x == last;
      if accepts(last) then
        assert StrictlyIncreasing(nodes) ==> forall i :: 0 <= i < |rest| ==> rest[i] in nodes[..|nodes| - 1] && rest[i] < last;
        rest + [last]
      else rest
  }

  /** The positions of the nodes the predicate accepts: every such position, once, in increasing order. */
  ghost function AcceptedPositions(nodes: seq<int>, accepts: int -> bool): (r: seq<nat>)
    ensures forall i :: 0 <= i < |r| ==> r[i] < |nodes| && accepts(nodes[r[i]])
    ensures forall i, j :: 0 <= i < j < |r| ==> r[i] < r[j]
    ensures forall k :: 0 <= k < |nodes| && accepts(nodes[k]) ==> k in r
  {
    if nodes == [] then []
    else
      var rest := AcceptedPositions(nodes[..|nodes| - 1], accepts);
      if accepts(nodes[|nodes| - 1]) then rest + [|nodes| - 1] else rest
  }

  /** filter_nodes is a stable copy-if: entry i of the result is the node at the i-th accepted position. */
  lemma {:induction false} FilterNodesStable(nodes: seq<int>, accepts: int -> bool)
    ensures |FilterNodes(nodes, accepts)| == |AcceptedPositions(nodes, accepts)|
    ensures forall i :: 0 <= i < |FilterNodes(nodes, accepts)| ==>
      FilterNodes(nodes, accepts)[i] == nodes[AcceptedPositions(nodes, accepts)[i]]
    decreases |nodes|, 1
  {
    if nodes != [] {
      FilterNodesStableStep(nodes, accepts);
    }
  }

  /** The inductive step of FilterNodesStable: the claim for all but the last node extends to the whole sequence. */
  lemma {:induction false} FilterNodesStableStep(nodes: seq<int>, accepts: int -> bool)
    requires nodes != []
    ensures |FilterNodes(nodes, accepts)| == |AcceptedPositions(nodes, accepts)|
    ensures forall i :: 0 <= i < |FilterNodes(nodes, accepts)| ==>
      FilterNodes(nodes, accepts)[i] == nodes[AcceptedPositions(nodes, accepts)[i]]
    decreases |nodes|, 0
  {
    var init := nodes[..|nodes| - 1];
    FilterNodesStable(init, accepts);
    var last := nodes[|nodes| - 1];
    var rest, psRest := FilterNodes(init, accepts), AcceptedPositions(init, accepts);
    var r, ps := FilterNodes(nodes, accepts), AcceptedPositions(nodes, accepts);
    if accepts(last) {
      assert r == rest + [last] && ps == psRest + [|init|];
      forall i | 0 <= i < |r| ensures r[i] == nodes[ps[i]] {
        if i < |rest| {
          assert init[psRest[i]] == nodes[psRest[i]];
        }
      }
    } else {
      assert r == rest && ps == psRest;
      forall i | 0 <= i < |r| ensures r[i] == nodes[ps[i]] {
        assert init[psRest[i]] == nodes[psRest[i]];
      }
    }
  }

  // ---------------------------------------------------------------------------
  // resolving a request

  /** The locally owned elements on the list of the node known under identifier u. */
  ghost function ElemsFor(u: int, uid2node: map<int, nat>, node2elem: seq<seq<nat>>, cells: seq<Cell>, rank: int): set<int>
  {
    if u in uid2node && uid2node[u] < |node2elem| then
      set e | e in node2elem[uid2node[u]] && e < |cells| && cells[e].part == rank
    else {}
  }

  ghost function FoundSet(request: seq<int>, uid2node: map<int, nat>, node2elem: seq<seq<nat>>, cells: seq<Cell>, rank: int): set<int>
  {
    if request == [] then {}
    else FoundSet(request[..|request| - 1], uid2node, node2elem, cells, rank)
         + ElemsFor(request[|request| - 1], uid2node, node2elem, cells, rank)
  }

  /** The identifiers of the nodes of the given elements. */
  ghost function ElemNodeUids(found: seq<int>, cells: seq<Cell>, nodeUids: seq<int>): set<int>
  {
    if found == [] then {}
    else
      var e := found[|found| - 1];
      ElemNodeUids(found[..|found| - 1], cells, nodeUids)
      + (if 0 <= e < |cells| then set n | n in cells[e].nodes && n < |nodeUids| :: nodeUids[n] else {})
  }

  /** An element is found iff it is owned here and touches a requested node known here. */
  lemma {:induction false} FoundSetMembership(request: seq<int>, uid2node: map<int, nat>, node2elem: seq<seq<nat>>,
                                              cells: seq<Cell>, rank: int, e: int)
    ensures e in FoundSet(request, uid2node, node2elem, cells, rank) <==>
      exists j :: 0 <= j < |request| && request[j] in uid2node && uid2node[request[j]] < |node2elem|
        && e in node2elem[uid2node[request[j]]] && 0 <= e < |cells| && cells[e].part == rank
  {
    if request != [] {
      var k := |request| - 1;
      FoundSetMembership(request[..k], uid2node, node2elem, cells, rank, e);
      if e in FoundSet(request[..k], uid2node, node2elem, cells, rank) {
        var j :| 0 <= j < k && request[..k][j] in uid2node && uid2node[request[..k][j]] < |node2elem|
          && e in node2elem[uid2node[request[..k][j]]] && 0 <= e < |cells| && cells[e].part == rank;
        assert request[j] == request[..k][j];
      }
      if (exists j :: 0 <= j < |request| && request[j] in uid2node && uid2node[request[j]] < |node2elem|
            && e in node2elem[uid2node[request[j]]] && 0 <= e < |cells| && cells[e].part == rank)
      {
        var j :| 0 <= j < |request| && request[j] in uid2node && uid2node[request[j]] < |node2elem|
          && e in node2elem[uid2node[request[j]]] && 0 <= e < |cells| && cells[e].part == rank;
        if j < k { assert request[..k][j] == request[j]; }
      }
    }
  }

  /** The owned elements on one node's list. */
  method OwnedElemsOf(list: seq<nat>, cells: seq<Cell>, rank: int) returns (r: set<int>)
    ensures r == set e | e in list && e < |cells| && cells[e].part == rank
  {
    r := {};
    var j := 0;
    while j < |list|
      invariant 0 <= j <= |list|
      invariant r == set e | e in list[..j] && e < |cells| && cells[e].part == rank
    {
      assert list[..j + 1] == list[..j] + [list[j]];
      var e := list[j];
      if e < |cells| && cells[e].part == rank {
        r := r + {e};
      }
      j := j + 1;
    }
    assert list[..j] == list;
  }

  /** The identifiers of the nodes of one connectivity row. */
  method RowUids(row: seq<nat>, nodeUids: seq<int>) returns (r: set<int>)
    ensures r == set m | m in row && m < |nodeUids| :: nodeUids[m]
  {
    r := {};
    var n := 0;
    while n < |row|
      invariant 0 <= n <= |row|
      invariant r == set m | m in row[..n] && m < |nodeUids| :: nodeUids[m]
    {
      assert row[..n + 1] == row[..n] + [row[n]];
      if row[n] < |nodeUids| {
        r := r + {nodeUids[row[n]]};
      }
      n := n + 1;
    }
    assert row[..n] == row;
  }

  /** The owned elements reached from the requested identifiers, as a set. */
  method CollectFound(request: seq<int>, uid2node: map<int, nat>, node2elem: seq<seq<nat>>,
                      cells: seq<Cell>, rank: int) returns (r: set<int>)
    ensures r == FoundSet(request, uid2node, node2elem, cells, rank)
    ensures forall e :: e in r ==> 0 <= e < |cells| && cells[e].part == rank
  {
    r := {};
    var jnode := 0;
    while jnode < |request|
      invariant 0 <= jnode <= |request|
      invariant r == FoundSet(request[..jnode], uid2node, node2elem, cells, rank)
      invariant forall e :: e in r ==> 0 <= e < |cells| && cells[e].part == rank
    {
      assert request[..jnode + 1][..jnode] == request[..jnode];
      var u := request[jnode];
      if u in uid2node && uid2node[u] < |node2elem| {
        var owned := OwnedElemsOf(node2elem[uid2node[u]], cells, rank);
        r := r + owned;
      }
      jnode := jnode + 1;
    }
    assert request[..jnode] == request;
  }

  /** The identifiers of the nodes of the given elements. */
  method CollectNodeUids(found: seq<int>, cells: seq<Cell>, nodeUids: seq<int>) returns (r: set<int>)
    requires forall e :: e in found ==> 0 <= e < |cells|
    ensures r == ElemNodeUids(found, cells, nodeUids)
  {
    r := {};
    var jelem := 0;
    while jelem < |found|
      invariant 0 <= jelem <= |found|
      invariant r == ElemNodeUids(found[..jelem], cells, nodeUids)
    {
      assert found[..jelem + 1][..jelem] == found[..jelem];
      var e := found[jelem];
      assert e in found;
      var rowUids := RowUids(cells[e].nodes, nodeUids);
      r := r + rowUids;
      jelem := jelem + 1;
    }
    assert found[..jelem] == found;
  }

  /**
   * accumulate_elements: the locally owned elements touching a requested
   * identifier known here (ascending, each once), and the identifiers of their
   * nodes other than the requested ones. Unknown identifiers are ignored.
   */
  method AccumulateElements(request: seq<int>, uid2node: map<int, nat>, node2elem: seq<seq<nat>>,
                            cells: seq<Cell>, nodeUids: seq<int>, rank: int)
    returns (found: seq<int>, newNodesUid: set<int>)
    ensures StrictlyIncreasing(found)
    ensures forall e :: e in found <==> e in FoundSet(request, uid2node, node2elem, cells, rank)
    ensures forall e :: e in found ==> 0 <= e < |cells| && cells[e].part == rank
    ensures newNodesUid == ElemNodeUids(found, cells, nodeUids) - Elems(request)
  {
    var foundSet := CollectFound(request, uid2node, node2elem, cells, rank);
    found := SortedFromSet(foundSet);
    var collected := CollectNodeUids(found, cells, nodeUids);
    newNodesUid := RemoveRequested(collected, request);
  }

  /** The erase loop of accumulate_elements: drop the identifiers the request already holds. */
  method RemoveRequested(collected: set<int>, request: seq<int>) returns (r: set<int>)
    ensures r == collected - Elems(request)
  {
    r := collected;
    var jnode := 0;
    while jnode < |request|
      invariant 0 <= jnode <= |request|
      invariant r == collected - Elems(request[..jnode])
    {
      assert Elems(request[..jnode + 1]) == Elems(request[..jnode]) + {request[jnode]};
      r := r - {request[jnode]};
      jnode := jnode + 1;
    }
    assert request[..jnode] == request;
  }
}
