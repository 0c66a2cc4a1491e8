/**
 * The per-level helper state and the merge of received buffers into the mesh:
 * new nodes are appended after deduplication by coordinate identifier, new
 * elements are appended to the block of their type after deduplication by
 * global index, and their connectivity is resolved through the identifier map.
 */
module HaloMerge {
  import opened Wrappers
  import opened OrderedSeq
  import opened HaloMesh
  import opened HaloBuffers
  import opened HaloSelect

  // ---------------------------------------------------------------------------
  // nodes

  /** All received node records, partition after partition. */
  function RecvNodes(recv: seq<PartBuffer>): (r: seq<NodeRecord>)
  {
    if recv == [] then [] else RecvNodes(recv[..|recv| - 1]) + recv[|recv| - 1].nodes
  }

  /** The identifier of every received node, from its received coordinate. */
  function NodeKeys(uid: UidFn, recs: seq<NodeRecord>): (r: seq<int>)
    ensures |r| == |recs|
  {
    seq(|recs|, i requires 0 <= i < |recs| => uid.node(recs[i].xy))
  }

  /** The identifiers of the local nodes. */
  ghost function NodeUidSet(uid: UidFn, nodes: seq<Node>): set<int>
  {
    set k | 0 <= k < |nodes| :: uid.node(nodes[k].xy)
  }

  /** The sorted identifiers of the local nodes (compute node_uid, then sort). */
  method NodeSnapshot(uid: UidFn, nodes: seq<Node>) returns (s: seq<int>)
    ensures StrictlyIncreasing(s)
    ensures Elems(s) == NodeUidSet(uid, nodes)
  {
    var uids: set<int> := {};
    var jnode := 0;
    while jnode < |nodes|
      invariant 0 <= jnode <= |nodes|
      invariant uids == set k | 0 <= k < jnode :: uid.node(nodes[k].xy)
    {
      uids := uids + {uid.node(nodes[jnode].xy)};
      jnode := jnode + 1;
    }
    s := SortedFromSet(uids);
    assert forall x :: x in Elems(s) <==> x in uids;
  }

  /**
   * A new node row from a received record: flags replaced by the received
   * flags, ghost set from their GHOST bit, lon/lat from the projection.
   */
  function NewNodeRow(r: NodeRecord, projection: Point -> Point): (n: Node)
    ensures n.isGhost == 1 <==> Check(r.flags, GHOST)
    ensures n.xy == r.xy && n.glb == r.glb && n.part == r.part && n.ridx == r.ridx && n.flags == r.flags
  {
    Node(r.glb, r.part, r.ridx, r.flags, if Check(r.flags, GHOST) then 1 else 0, r.xy, projection(r.xy))
  }

  /** The rows appended by add_nodes: the picked records, in received order. */
  function NewNodeRows(recs: seq<NodeRecord>, picked: seq<nat>, projection: Point -> Point): (r: seq<Node>)
    requires forall i :: 0 <= i < |picked| ==> picked[i] < |recs|
    ensures |r| == |picked|
  {
    seq(|picked|, i requires 0 <= i < |picked| => NewNodeRow(recs[picked[i]], projection))
  }

  /** The integers lo, lo+1, ..., lo+n-1. */
  function Range(lo: nat, n: nat): (r: seq<nat>)
    ensures |r| == n && forall i :: 0 <= i < n ==> r[i] == lo + i
  {
    seq(n, i requires 0 <= i < n => lo + i)
  }

  /** The indices lo, lo+1, ..., hi-1 (none when hi <= lo). */
  function Between(lo: nat, hi: nat): (r: seq<nat>)
    ensures |r| == (if lo <= hi then hi - lo else 0) && forall i :: 0 <= i < |r| ==> r[i] == lo + i
  {
    if lo <= hi then Range(lo, hi - lo) else []
  }

  // ---------------------------------------------------------------------------
  // elements

  /** A received element with its node identifiers cut out of the ragged array. */
  datatype Incoming = Incoming(glb: int, part: int, elemType: nat, ids: seq<int>)

  /** The elements of one received buffer. */
  function PartElems(b: PartBuffer, cols: seq<nat>): (r: seq<Incoming>)
    requires WellFormed(b, cols)
    ensures |r| == |b.elems|
    ensures forall i :: 0 <= i < |r| ==> r[i].elemType < |cols| && |r[i].ids| == cols[r[i].elemType]
  {
    seq(|b.elems|, e requires 0 <= e < |b.elems| =>
      var rec := b.elems[e];
      Incoming(rec.glb, rec.part, rec.elemType, b.elemNodesId[rec.displ .. rec.displ + cols[rec.elemType]]))
  }

  /** All received elements, partition after partition. */
  function RecvElems(recv: seq<PartBuffer>, cols: seq<nat>): (r: seq<Incoming>)
    requires forall p :: 0 <= p < |recv| ==> WellFormed(recv[p], cols)
    ensures forall i :: 0 <= i < |r| ==> r[i].elemType < |cols| && |r[i].ids| == cols[r[i].elemType]
  {
    if recv == [] then [] else RecvElems(recv[..|recv| - 1], cols) + PartElems(recv[|recv| - 1], cols)
  }

  function ElemGlbs(incoming: seq<Incoming>): (r: seq<int>)
    ensures |r| == |incoming|
  {
    seq(|incoming|, i requires 0 <= i < |incoming| => incoming[i].glb)
  }

  /**
   * The keys a local element answers to: minus the identifier of its node
   * coordinates, and its global index.
   */
  ghost function ElemKeySet(uid: UidFn, nodes: seq<Node>, cells: seq<Cell>): set<int>
    requires RowsInRange(cells, |nodes|)
  {
    (set e | 0 <= e < |cells| :: -uid.cell(RowPoints(nodes, cells[e].nodes)))
    + (set e | 0 <= e < |cells| :: cells[e].glb)
  }

  /** The sorted element keys (compute elem_uid, then sort). */
  method ElemSnapshot(uid: UidFn, nodes: seq<Node>, cells: seq<Cell>) returns (s: seq<int>)
    requires RowsInRange(cells, |nodes|)
    ensures StrictlyIncreasing(s)
    ensures Elems(s) == ElemKeySet(uid, nodes, cells)
  {
    var byUid: set<int> := {};
    var byGlb: set<int> := {};
    var jelem := 0;
    while jelem < |cells|
      invariant 0 <= jelem <= |cells|
      invariant byUid == set e | 0 <= e < jelem :: -uid.cell(RowPoints(nodes, cells[e].nodes))
      invariant byGlb == set e | 0 <= e < jelem :: cells[e].glb
    {
      byUid := byUid + {-uid.cell(RowPoints(nodes, cells[jelem].nodes))};
      byGlb := byGlb + {cells[jelem].glb};
      jelem := jelem + 1;
    }
    s := SortedFromSet(byUid + byGlb);
  }

  /** std::map operator[] on a map of node indices: a missing key reads as node 0. */
  function GetOrZero(m: map<int, nat>, u: int): nat
  {
    if u in m then m[u] else 0
  }

  /**
   * m2 is m1 with node 0 inserted under every key of `ids` that m1 lacks,
   * which is what a run of operator[] reads leaves behind.
   */
  ghost predicate ZeroExtended(m1: map<int, nat>, m2: map<int, nat>, ids: set<int>)
  {
    && (forall u :: u in m2 <==> u in m1 || u in ids)
    && (forall u :: u in m1 ==> m2[u] == m1[u])
    && (forall u :: u in m2 && u !in m1 ==> m2[u] == 0)
  }

  lemma ZeroExtendedReadsSame(m1: map<int, nat>, m2: map<int, nat>, ids: set<int>, u: int)
    requires ZeroExtended(m1, m2, ids)
    ensures GetOrZero(m2, u) == GetOrZero(m1, u)
  {
  }

  lemma ZeroExtendedTrans(m1: map<int, nat>, m2: map<int, nat>, m3: map<int, nat>, a: set<int>, b: set<int>)
    requires ZeroExtended(m1, m2, a) && ZeroExtended(m2, m3, b)
    ensures ZeroExtended(m1, m3, a + b)
  {
  }

  /**
   * The connectivity row of one new element: each node identifier looked up
   * with operator[], so a missing identifier gives node 0 and is inserted.
   */
  method ConnectRow(m: map<int, nat>, ids: seq<int>) returns (row: seq<nat>, m': map<int, nat>)
    ensures |row| == |ids|
    ensures forall n :: 0 <= n < |ids| ==> row[n] == GetOrZero(m, ids[n])
    ensures ZeroExtended(m, m', Elems(ids))
  {
    row := [];
    m' := m;
    var n := 0;
    while n < |ids|
      invariant 0 <= n <= |ids|
      invariant |row| == n
      invariant forall i :: 0 <= i < n ==> row[i] == GetOrZero(m, ids[i])
      invariant ZeroExtended(m, m', Elems(ids[..n]))
    {
      assert Elems(ids[..n + 1]) == Elems(ids[..n]) + {ids[n]};
      var id := ids[n];
      if id !in m' {
        m' := m'[id := 0];
      }
      row := row + [m'[id]];
      n := n + 1;
    }
    assert ids[..n] == ids;
  }

  /** A new element: global index made positive, halo one deeper, not patched. */
  function MakeCell(e: Incoming, m: map<int, nat>, halo: int): (c: Cell)
    ensures c.glb >= 0 && (c.glb == e.glb || c.glb == -e.glb)
    ensures c.part == e.part && c.halo == halo + 1 && c.patch == 0
    ensures |c.nodes| == |e.ids| && forall n :: 0 <= n < |e.ids| ==> c.nodes[n] == GetOrZero(m, e.ids[n])
  {
    Cell(if e.glb < 0 then -e.glb else e.glb, e.part, halo + 1, 0,
         seq(|e.ids|, n requires 0 <= n < |e.ids| => GetOrZero(m, e.ids[n])))
  }

  /** The positions among `picked` whose element has type t, in order. */
  function OfType(incoming: seq<Incoming>, picked: seq<nat>, t: nat): (r: seq<nat>)
    requires forall i :: 0 <= i < |picked| ==> picked[i] < |incoming|
    ensures forall j :: 0 <= j < |r| ==> r[j] < |incoming| && incoming[r[j]].elemType == t && r[j] in picked
  {
    if picked == [] then []
    else
      var k := |picked| - 1;
      OfType(incoming, picked[..k], t) + (if incoming[picked[k]].elemType == t then [picked[k]] else [])
  }

  /** The identifiers of the nodes of the given received elements. */
  ghost function IdsOf(incoming: seq<Incoming>, positions: seq<nat>): set<int>
    requires forall j :: 0 <= j < |positions| ==> positions[j] < |incoming|
  {
    if positions == [] then {}
    else IdsOf(incoming, positions[..|positions| - 1]) + Elems(incoming[positions[|positions| - 1]].ids)
  }

  /** The identifiers read while connecting the elements of the first nt groups. */
  ghost function IdsOfGroups(incoming: seq<Incoming>, groups: seq<seq<nat>>, nt: nat): set<int>
    requires nt <= |groups|
    requires forall t, j :: 0 <= t < |groups| && 0 <= j < |groups[t]| ==> groups[t][j] < |incoming|
  {
    if nt == 0 then {} else IdsOfGroups(incoming, groups, nt - 1) + IdsOf(incoming, groups[nt - 1])
  }

  /** The picked positions grouped by type, for the first nt types. */
  function ByType(incoming: seq<Incoming>, picked: seq<nat>, nt: nat): (r: seq<seq<nat>>)
    requires forall i :: 0 <= i < |picked| ==> picked[i] < |incoming|
    ensures |r| == nt
    ensures forall t, j :: 0 <= t < nt && 0 <= j < |r[t]| ==> r[t][j] < |incoming| && incoming[r[t][j]].elemType == t
  {
    seq(nt, t requires 0 <= t < nt => OfType(incoming, picked, t))
  }

  /** The identifiers read while connecting the new elements of the first nt types. */
  ghost function IdsUpTo(incoming: seq<Incoming>, picked: seq<nat>, nt: nat): set<int>
    requires forall i :: 0 <= i < |picked| ==> picked[i] < |incoming|
  {
    IdsOfGroups(incoming, ByType(incoming, picked, nt), nt)
  }

  /** The cells appended to block t. */
  function NewCells(incoming: seq<Incoming>, positions: seq<nat>, m: map<int, nat>, halo: int): (r: seq<Cell>)
    requires forall j :: 0 <= j < |positions| ==> positions[j] < |incoming|
    ensures |r| == |positions|
  {
    seq(|positions|, j requires 0 <= j < |positions| => MakeCell(incoming[positions[j]], m, halo))
  }

  /** The blocks after add_elements: every block extended by its new cells. */
  function GrownBlocks(blocks: seq<Block>, incoming: seq<Incoming>, picked: seq<nat>, m: map<int, nat>, halo: int): (r: seq<Block>)
    requires forall i :: 0 <= i < |picked| ==> picked[i] < |incoming|
    ensures |r| == |blocks|
    ensures ColsOf(r) == ColsOf(blocks)
  {
    seq(|blocks|, t requires 0 <= t < |blocks| =>
      Block(blocks[t].cols, blocks[t].cells + NewCells(incoming, OfType(incoming, picked, t), m, halo)))
  }

  /**
   * Growing the blocks keeps them well formed: the new rows have their
   * block's width and, with at least one node, point at existing nodes.
   */
  lemma GrownBlocksValid(blocks: seq<Block>, incoming: seq<Incoming>, picked: seq<nat>, m: map<int, nat>,
                         halo: int, nbNodes: nat)
    requires forall i :: 0 <= i < |picked| ==> picked[i] < |incoming|
    requires forall i :: 0 <= i < |incoming| ==>
      incoming[i].elemType < |blocks| && |incoming[i].ids| == blocks[incoming[i].elemType].cols
    requires RowsFit(blocks) && BlockRowsInRange(blocks, nbNodes)
    requires IndicesBelow(m, nbNodes) && nbNodes > 0
    ensures RowsFit(GrownBlocks(blocks, incoming, picked, m, halo))
    ensures BlockRowsInRange(GrownBlocks(blocks, incoming, picked, m, halo), nbNodes)
  {
    var g := GrownBlocks(blocks, incoming, picked, m, halo);
    forall t, c | 0 <= t < |g| && c in g[t].cells
      ensures |c.nodes| == g[t].cols && forall j :: 0 <= j < |c.nodes| ==> c.nodes[j] < nbNodes
    {
      var added := NewCells(incoming, OfType(incoming, picked, t), m, halo);
      if c !in blocks[t].cells {
        assert c in added;
      }
    }
  }

  /** Reading through a zero-extended map gives the same cells. */
  lemma NewCellsSameReads(incoming: seq<Incoming>, positions: seq<nat>, m1: map<int, nat>, m2: map<int, nat>,
                          ids: set<int>, halo: int)
    requires forall j :: 0 <= j < |positions| ==> positions[j] < |incoming|
    requires ZeroExtended(m1, m2, ids)
    ensures NewCells(incoming, positions, m2, halo) == NewCells(incoming, positions, m1, halo)
  {
    forall j | 0 <= j < |positions|
      ensures MakeCell(incoming[positions[j]], m2, halo) == MakeCell(incoming[positions[j]], m1, halo)
    {
      var e := incoming[positions[j]];
      forall n | 0 <= n < |e.ids| ensures GetOrZero(m2, e.ids[n]) == GetOrZero(m1, e.ids[n]) {
        ZeroExtendedReadsSame(m1, m2, ids, e.ids[n]);
      }
    }
  }

  /** elements_of_type: the picked positions grouped by element type, each group in received order. */
  method GroupByType(incoming: seq<Incoming>, picked: seq<nat>, nt: nat) returns (byType: seq<seq<nat>>)
    requires forall i :: 0 <= i < |picked| ==> picked[i] < |incoming|
    requires forall i :: 0 <= i < |incoming| ==> incoming[i].elemType < nt
    ensures |byType| == nt
    ensures forall t :: 0 <= t < nt ==> byType[t] == OfType(incoming, picked, t)
  {
    byType := seq(nt, _ => []);
    var k := 0;
    while k < |picked|
      invariant 0 <= k <= |picked|
      invariant |byType| == nt
      invariant forall t :: 0 <= t < nt ==> byType[t] == OfType(incoming, picked[..k], t)
    {
      assert picked[..k + 1][..k] == picked[..k];
      var ielem := picked[k];
      var ty := incoming[ielem].elemType;
      byType := byType[ty := byType[ty] + [ielem]];
      k := k + 1;
    }
    assert picked[..k] == picked;
  }

  /** The new elements of one type appended to its block, connectivity through operator[]. */
  method AppendOfType(cells: seq<Cell>, incoming: seq<Incoming>, positions: seq<nat>, m: map<int, nat>, halo: int)
    returns (grown: seq<Cell>, m': map<int, nat>)
    requires forall j :: 0 <= j < |positions| ==> positions[j] < |incoming|
    ensures grown == cells + NewCells(incoming, positions, m, halo)
    ensures ZeroExtended(m, m', IdsOf(incoming, positions))
  {
    grown := cells;
    m' := m;
    var e := 0;
    while e < |positions|
      invariant 0 <= e <= |positions|
      invariant grown == cells + NewCells(incoming, positions[..e], m, halo)
      invariant ZeroExtended(m, m', IdsOf(incoming, positions[..e]))
    {
      assert positions[..e + 1][..e] == positions[..e];
      var rec := incoming[positions[e]];
      var row, m2 := ConnectRow(m', rec.ids);
      forall n | 0 <= n < |rec.ids| ensures row[n] == GetOrZero(m, rec.ids[n]) {
        ZeroExtendedReadsSame(m, m', IdsOf(incoming, positions[..e]), rec.ids[n]);
      }
      var glb := if rec.glb < 0 then -rec.glb else rec.glb;
      var cell := Cell(glb, rec.part, halo + 1, 0, row);
      assert cell == MakeCell(rec, m, halo);
      grown := grown + [cell];
      ZeroExtendedTrans(m, m', m2, IdsOf(incoming, positions[..e]), Elems(rec.ids));
      m' := m2;
      e := e + 1;
    }
    assert positions[..e] == positions;
  }

  /** The periodic ghost cells recorded by add_elements, per type as block-local indices. */
  function PeriodicCells(prev: seq<seq<nat>>, blocks: seq<Block>, incoming: seq<Incoming>, picked: seq<nat>,
                         periodic: bool): (r: seq<seq<nat>>)
    requires |prev| == 0 || |prev| == |blocks|
    requires forall i :: 0 <= i < |picked| ==> picked[i] < |incoming|
    ensures |r| == |blocks|
  {
    var base := if |prev| == 0 then seq(|blocks|, _ => []) else prev;
    seq(|blocks|, t requires 0 <= t < |blocks| =>
      base[t] + (if periodic then Range(|blocks[t].cells|, |OfType(incoming, picked, t)|) else []))
  }

  /** The received nodes taken as new, given the local nodes. */
  ghost function PickedNodes(uid: UidFn, nodes: seq<Node>, recv: seq<PartBuffer>): seq<nat>
  {
    Picked(NodeKeys(uid, RecvNodes(recv)), NodeUidSet(uid, nodes))
  }

  /** The identifiers of the received nodes taken as new, in order. */
  ghost function NewNodeKeys(uid: UidFn, nodes: seq<Node>, recv: seq<PartBuffer>): seq<int>
  {
    KeysAt(NodeKeys(uid, RecvNodes(recv)), PickedNodes(uid, nodes, recv))
  }

  /** The received elements taken as new, given the local mesh. */
  ghost function PickedElems(uid: UidFn, nodes: seq<Node>, blocks: seq<Block>, incoming: seq<Incoming>): seq<nat>
    requires BlockRowsInRange(blocks, |nodes|)
  {
    FlattenRowsInRange(blocks, |nodes|);
    Picked(ElemGlbs(incoming), ElemKeySet(uid, nodes, Flatten(blocks)))
  }

  /** The identifier map after add_nodes: the given one plus every new identifier under its new node. */
  ghost function MapWithNewNodes(m: map<int, nat>, keys: seq<int>, base: nat): map<int, nat>
    decreases |keys|
  {
    if keys == [] then m
    else MapWithNewNodes(m, keys[..|keys| - 1], base)[keys[|keys| - 1] := base + |keys| - 1]
  }

  /**
   * The map after add_nodes holds the old identifiers and the new ones; an
   * old identifier that is not new keeps its node, and, the new identifiers
   * being distinct, the i-th new one names node base + i.
   */
  lemma {:induction false} MapWithNewNodesAt(m: map<int, nat>, keys: seq<int>, base: nat)
    ensures forall u :: u in MapWithNewNodes(m, keys, base) <==> u in m || u in keys
    ensures forall u :: u in m && u !in keys ==> MapWithNewNodes(m, keys, base)[u] == m[u]
    ensures (forall i, j :: 0 <= i < j < |keys| ==> keys[i] != keys[j]) ==>
      forall i :: 0 <= i < |keys| ==> MapWithNewNodes(m, keys, base)[keys[i]] == base + i
    decreases |keys|
  {
    if keys != [] {
      var k := |keys| - 1;
      var front := keys[..k];
      MapWithNewNodesAt(m, front, base);
      assert forall u :: u in keys <==> u in front || u == keys[k] by {
        assert keys == front + [keys[k]];
      }
      if forall i, j :: 0 <= i < j < |keys| ==> keys[i] != keys[j] {
        forall i | 0 <= i < |keys| ensures MapWithNewNodes(m, keys, base)[keys[i]] == base + i {
          if i < k {
            assert front[i] == keys[i] && keys[i] != keys[k];
          }
        }
      }
    }
  }

  /** A map described key by key as add_nodes leaves it is the map after add_nodes. */
  lemma MapWithNewNodesIs(m: map<int, nat>, m': map<int, nat>, keys: seq<int>, base: nat)
    requires forall i, j :: 0 <= i < j < |keys| ==> keys[i] != keys[j]
    requires forall u :: u in m' <==> u in m || u in keys
    requires forall u :: u in m ==> m'[u] == m[u]
    requires forall i :: 0 <= i < |keys| ==> keys[i] in m' && m'[keys[i]] == base + i
    ensures m' == MapWithNewNodes(m, keys, base)
  {
    var w := MapWithNewNodes(m, keys, base);
    MapWithNewNodesAt(m, keys, base);
    assert forall i :: 0 <= i < |keys| ==> w[keys[i]] == base + i;
    forall u | u in m' ensures u in w && m'[u] == w[u] {
      if u in keys {
        var i :| 0 <= i < |keys| && keys[i] == u;
        assert w[keys[i]] == base + i;
      }
    }
    forall u ensures u in w <==> u in m' {
      assert u in w <==> u in m || u in keys;
    }
  }

  /** The new identifiers add_nodes takes are distinct. */
  lemma NewNodeKeysDistinct(uid: UidFn, nodes: seq<Node>, recv: seq<PartBuffer>)
    ensures forall i, j :: 0 <= i < j < |NewNodeKeys(uid, nodes, recv)| ==>
      NewNodeKeys(uid, nodes, recv)[i] != NewNodeKeys(uid, nodes, recv)[j]
  {
    PickedDistinct(NodeKeys(uid, RecvNodes(recv)), NodeUidSet(uid, nodes));
  }

  /** The node rows after add_nodes: the old ones, then the picked received ones in received order. */
  ghost function MergedNodes(uid: UidFn, projection: Point -> Point, nodes: seq<Node>, recv: seq<PartBuffer>): seq<Node>
  {
    nodes + NewNodeRows(RecvNodes(recv), PickedNodes(uid, nodes, recv), projection)
  }

  /**
   * The blocks after add_buffers: add_elements run on the nodes and the
   * identifier map that add_nodes left behind.
   */
  ghost function MergedBlocks(uid: UidFn, projection: Point -> Point, nodes: seq<Node>, blocks: seq<Block>,
                              m: map<int, nat>, recv: seq<PartBuffer>, halo: int): seq<Block>
    requires BlockRowsInRange(blocks, |nodes|)
    requires forall p :: 0 <= p < |recv| ==> WellFormed(recv[p], ColsOf(blocks))
  {
    var nodes' := MergedNodes(uid, projection, nodes, recv);
    var incoming := RecvElems(recv, ColsOf(blocks));
    GrownBlocks(blocks, incoming, PickedElems(uid, nodes', blocks, incoming),
      MapWithNewNodes(m, NewNodeKeys(uid, nodes, recv), |nodes|), halo)
  }

  /**
   * One merge of received buffers, from the mesh (nodes0, blocks0) and the
   * identifier map m to the mesh (nodes1, blocks1): the new received nodes
   * appended, then the new received elements appended to their blocks.
   */
  ghost predicate PassMerged(uid: UidFn, projection: Point -> Point, halo: int, m: map<int, nat>, recv: seq<PartBuffer>,
                             nodes0: seq<Node>, blocks0: seq<Block>, nodes1: seq<Node>, blocks1: seq<Block>)
  {
    && BlockRowsInRange(blocks0, |nodes0|)
    && (forall p :: 0 <= p < |recv| ==> WellFormed(recv[p], ColsOf(blocks0)))
    && nodes1 == MergedNodes(uid, projection, nodes0, recv)
    && blocks1 == MergedBlocks(uid, projection, nodes0, blocks0, m, recv, halo)
  }

  lemma PrefixStep(recs: seq<NodeRecord>, keys: seq<int>, picked: seq<nat>, n: nat, projection: Point -> Point)
    requires n < |picked| && |keys| == |recs|
    requires forall i :: 0 <= i < |picked| ==> picked[i] < |recs|
    ensures KeysAt(keys, picked[..n + 1]) == KeysAt(keys, picked[..n]) + [keys[picked[n]]]
    ensures NewNodeRows(recs, picked[..n + 1], projection)
            == NewNodeRows(recs, picked[..n], projection) + [NewNodeRow(recs[picked[n]], projection)]
  {
  }

  /**
   * The append loop of add_nodes over already selected records with distinct
   * new keys: write the row, record the periodic point, check the map and
   * insert the key.
   */
  method AppendNewNodes(nodes: seq<Node>, uid2node: map<int, nat>, points: seq<nat>, recs: seq<NodeRecord>,
                        keys: seq<int>, picked: seq<nat>, uid: UidFn, projection: Point -> Point, periodic: bool)
    returns (r: Outcome<int>, nodes': seq<Node>, uid2node': map<int, nat>, points': seq<nat>)
    requires keys == NodeKeys(uid, recs)
    requires IndicesBelow(uid2node, |nodes|)
    requires forall i :: 0 <= i < |picked| ==> picked[i] < |recs|
    requires forall i, j :: 0 <= i < j < |picked| ==> keys[picked[i]] != keys[picked[j]]
    ensures r.Pass? <==> forall i :: 0 <= i < |picked| ==> keys[picked[i]] !in uid2node
    ensures r.Pass? ==> nodes' == nodes + NewNodeRows(recs, picked, projection)
    ensures r.Pass? ==> forall u :: u in uid2node' <==> u in uid2node || u in KeysAt(keys, picked)
    ensures r.Pass? ==> forall u :: u in uid2node ==> uid2node'[u] == uid2node[u]
    ensures r.Pass? ==> forall i :: 0 <= i < |picked| ==> keys[picked[i]] in uid2node' && uid2node'[keys[picked[i]]] == |nodes| + i
    ensures r.Pass? ==> IndicesBelow(uid2node', |nodes'|)
    ensures r.Pass? ==> points' == points + (if periodic then Range(|nodes|, |picked|) else [])
  {
    var nbNodes := |nodes|;
    nodes', uid2node', points' := nodes, uid2node, points;
    var n := 0;
    while n < |picked|
      invariant 0 <= n <= |picked|
      invariant nodes' == nodes + NewNodeRows(recs, picked[..n], projection)
      invariant forall u :: u in uid2node' <==> u in uid2node || u in KeysAt(keys, picked[..n])
      invariant forall u :: u in uid2node ==> uid2node'[u] == uid2node[u]
      invariant forall i :: 0 <= i < n ==> keys[picked[i]] in uid2node' && uid2node'[keys[picked[i]]] == nbNodes + i
      invariant IndicesBelow(uid2node', nbNodes + n)
      invariant points' == points + (if periodic then Range(nbNodes, n) else [])
      invariant forall i :: 0 <= i < n ==> keys[picked[i]] !in uid2node
    {
      PrefixStep(recs, keys, picked, n, projection);
      var rec := recs[picked[n]];
      var loc := nbNodes + n;
      nodes' := nodes' + [NewNodeRow(rec, projection)];
      if periodic {
        assert Range(nbNodes, n + 1) == Range(nbNodes, n) + [loc];
        points' := points' + [loc];
      }
      var u := uid.node(nodes'[loc].xy);
      assert u == keys[picked[n]];
      assert u !in KeysAt(keys, picked[..n]);
      if u in uid2node' {
        assert keys[picked[n]] in uid2node;
        r := Fail(u);
        return;
      }
      uid2node' := uid2node'[u := loc];
      n := n + 1;
    }
    assert picked[..n] == picked;
    r := Pass;
  }

  /** The loop of add_nodes on the node rows, the identifier map and the new periodic ghost points. */
  method MergeNodes(nodes: seq<Node>, uid2node: map<int, nat>, points: seq<nat>, recv: seq<PartBuffer>,
                    uid: UidFn, projection: Point -> Point, periodic: bool)
    returns (r: Outcome<int>, nodes': seq<Node>, uid2node': map<int, nat>, points': seq<nat>)
    requires IndicesBelow(uid2node, |nodes|)
    ensures r.Pass? <==> forall i :: 0 <= i < |PickedNodes(uid, nodes, recv)| ==>
      NodeKeys(uid, RecvNodes(recv))[PickedNodes(uid, nodes, recv)[i]] !in uid2node
    ensures r.Pass? ==> nodes' == nodes + NewNodeRows(RecvNodes(recv), PickedNodes(uid, nodes, recv), projection)
    ensures r.Pass? ==> forall u :: u in uid2node' <==> u in uid2node || u in NewNodeKeys(uid, nodes, recv)
    ensures r.Pass? ==> forall u :: u in uid2node ==> uid2node'[u] == uid2node[u]
    ensures r.Pass? ==> forall i :: 0 <= i < |NewNodeKeys(uid, nodes, recv)| ==>
      NewNodeKeys(uid, nodes, recv)[i] in uid2node' && uid2node'[NewNodeKeys(uid, nodes, recv)[i]] == |nodes| + i
    ensures r.Pass? ==> IndicesBelow(uid2node', |nodes'|)
    ensures r.Pass? ==> points' == points + (if periodic then Range(|nodes|, |PickedNodes(uid, nodes, recv)|) else [])
  {
    var snapshot := NodeSnapshot(uid, nodes);
    var recs := RecvNodes(recv);
    var keys := NodeKeys(uid, recs);
    var picked := SelectNew(snapshot, keys);
    PickedDistinct(keys, Elems(snapshot));
    assert picked == PickedNodes(uid, nodes, recv);
    r, nodes', uid2node', points' := AppendNewNodes(nodes, uid2node, points, recs, keys, picked, uid, projection, periodic);
  }

  lemma GrownBlocksByType(blocks: seq<Block>, incoming: seq<Incoming>, picked: seq<nat>, byType: seq<seq<nat>>,
                          m: map<int, nat>, halo: int, grown: seq<Block>)
    requires forall i :: 0 <= i < |picked| ==> picked[i] < |incoming|
    requires byType == ByType(incoming, picked, |blocks|)
    requires |grown| == |blocks|
    requires forall t :: 0 <= t < |blocks| ==> grown[t] == Block(blocks[t].cols, blocks[t].cells + NewCells(incoming, byType[t], m, halo))
    ensures grown == GrownBlocks(blocks, incoming, picked, m, halo)
  {
  }

  lemma PeriodicCellsByType(prev: seq<seq<nat>>, base: seq<seq<nat>>, blocks: seq<Block>, incoming: seq<Incoming>,
                            picked: seq<nat>, byType: seq<seq<nat>>, periodic: bool, cells: seq<seq<nat>>)
    requires |prev| == 0 || |prev| == |blocks|
    requires base == (if |prev| == 0 then seq(|blocks|, _ => []) else prev)
    requires forall i :: 0 <= i < |picked| ==> picked[i] < |incoming|
    requires byType == ByType(incoming, picked, |blocks|)
    requires |cells| == |blocks|
    requires forall t :: 0 <= t < |blocks| ==>
      cells[t] == base[t] + (if periodic then Range(|blocks[t].cells|, |byType[t]|) else [])
    ensures cells == PeriodicCells(prev, blocks, incoming, picked, periodic)
  {
  }

  /** The new elements of one type appended to its block, read through a zero-extended map. */
  method GrowBlock(b: Block, incoming: seq<Incoming>, positions: seq<nat>, m0: map<int, nat>, m: map<int, nat>,
                   ghost ids: set<int>, halo: int) returns (b': Block, m': map<int, nat>)
    requires forall j :: 0 <= j < |positions| ==> positions[j] < |incoming|
    requires ZeroExtended(m0, m, ids)
    ensures b' == Block(b.cols, b.cells + NewCells(incoming, positions, m0, halo))
    ensures ZeroExtended(m0, m', ids + IdsOf(incoming, positions))
  {
    var grown, m2 := AppendOfType(b.cells, incoming, positions, m, halo);
    NewCellsSameReads(incoming, positions, m0, m, ids, halo);
    ZeroExtendedTrans(m0, m, m2, ids, IdsOf(incoming, positions));
    b', m' := Block(b.cols, grown), m2;
  }

  /** The per-type loop of add_elements over the new elements grouped by type. */
  method AddAllTypes(blocks: seq<Block>, incoming: seq<Incoming>, byType: seq<seq<nat>>,
                     uid2node: map<int, nat>, base: seq<seq<nat>>, halo: int, periodic: bool)
    returns (blocks': seq<Block>, uid2node': map<int, nat>, cells': seq<seq<nat>>)
    requires |byType| == |blocks| && |base| == |blocks|
    requires forall t, j :: 0 <= t < |byType| && 0 <= j < |byType[t]| ==> byType[t][j] < |incoming|
    ensures |blocks'| == |blocks| && |cells'| == |blocks|
    ensures forall t :: 0 <= t < |blocks| ==>
      blocks'[t] == Block(blocks[t].cols, blocks[t].cells + NewCells(incoming, byType[t], uid2node, halo))
    ensures forall t :: 0 <= t < |blocks| ==>
      cells'[t] == base[t] + (if periodic then Range(|blocks[t].cells|, |byType[t]|) else [])
    ensures ZeroExtended(uid2node, uid2node', IdsOfGroups(incoming, byType, |blocks|))
  {
    var nt := |blocks|;
    blocks', uid2node', cells' := blocks, uid2node, base;
    var t := 0;
    while t < nt
      invariant 0 <= t <= nt
      invariant |blocks'| == nt && |cells'| == nt
      invariant forall s :: 0 <= s < t ==>
        blocks'[s] == Block(blocks[s].cols, blocks[s].cells + NewCells(incoming, byType[s], uid2node, halo))
      invariant forall s :: t <= s < nt ==> blocks'[s] == blocks[s]
      invariant forall s :: 0 <= s < t ==>
        cells'[s] == base[s] + (if periodic then Range(|blocks[s].cells|, |byType[s]|) else [])
      invariant forall s :: t <= s < nt ==> cells'[s] == base[s]
      invariant ZeroExtended(uid2node, uid2node', IdsOfGroups(incoming, byType, t))
    {
      var positions := byType[t];
      if |positions| > 0 {
        var oldSize := |blocks'[t].cells|;
        var b, m' := GrowBlock(blocks'[t], incoming, positions, uid2node, uid2node', IdsOfGroups(incoming, byType, t), halo);
        blocks' := blocks'[t := b];
        uid2node' := m';
        if periodic {
          cells' := cells'[t := cells'[t] + Range(oldSize, |positions|)];
        }
      } else {
        assert NewCells(incoming, positions, uid2node, halo) == [];
        assert blocks[t].cells + [] == blocks[t].cells;
        assert Range(|blocks[t].cells|, 0) == [];
        assert base[t] + [] == base[t];
        assert IdsOf(incoming, positions) == {};
      }
      t := t + 1;
    }
  }

  /**
   * The loops of add_elements on the blocks, the identifier map and the lists
   * of new periodic ghost cells.
   */
  method MergeElements(nodes: seq<Node>, blocks: seq<Block>, uid2node: map<int, nat>, cellsPrev: seq<seq<nat>>,
                       recv: seq<PartBuffer>, uid: UidFn, halo: int, periodic: bool)
    returns (blocks': seq<Block>, uid2node': map<int, nat>, cells': seq<seq<nat>>)
    requires RowsFit(blocks) && BlockRowsInRange(blocks, |nodes|)
    requires IndicesBelow(uid2node, |nodes|) && |nodes| > 0
    requires |cellsPrev| == 0 || |cellsPrev| == |blocks|
    requires forall p :: 0 <= p < |recv| ==> WellFormed(recv[p], ColsOf(blocks))
    ensures blocks' == GrownBlocks(blocks, RecvElems(recv, ColsOf(blocks)),
      PickedElems(uid, nodes, blocks, RecvElems(recv, ColsOf(blocks))), uid2node, halo)
    ensures RowsFit(blocks') && BlockRowsInRange(blocks', |nodes|)
    ensures |blocks'| == |blocks| && (|cells'| == 0 || |cells'| == |blocks'|)
    ensures ZeroExtended(uid2node, uid2node', IdsUpTo(RecvElems(recv, ColsOf(blocks)),
      PickedElems(uid, nodes, blocks, RecvElems(recv, ColsOf(blocks))), |blocks|))
    ensures IndicesBelow(uid2node', |nodes|)
    ensures cells' == PeriodicCells(cellsPrev, blocks, RecvElems(recv, ColsOf(blocks)),
      PickedElems(uid, nodes, blocks, RecvElems(recv, ColsOf(blocks))), periodic)
  {
    var cols := ColsOf(blocks);
    var incoming := RecvElems(recv, cols);
    FlattenRowsInRange(blocks, |nodes|);
    var snapshot := ElemSnapshot(uid, nodes, Flatten(blocks));
    var picked := SelectNew(snapshot, ElemGlbs(incoming));
    assert picked == PickedElems(uid, nodes, blocks, incoming);
    var base := cellsPrev;
    if |base| == 0 {
      base := seq(|blocks|, _ => []);
    }
    var byType := GroupByType(incoming, picked, |blocks|);
    assert byType == ByType(incoming, picked, |blocks|);
    blocks', uid2node', cells' := AddAllTypes(blocks, incoming, byType, uid2node, base, halo, periodic);
    GrownBlocksByType(blocks, incoming, picked, byType, uid2node, halo, blocks');
    PeriodicCellsByType(cellsPrev, base, blocks, incoming, picked, byType, periodic, cells');
    GrownBlocksValid(blocks, incoming, picked, uid2node, halo, |nodes|);
  }

  /** A block after growth: same width, the old cells first, then new cells one halo deeper. */
  ghost predicate Appended(b: Block, b': Block, halo: int)
  {
    && b'.cols == b.cols
    && b.cells <= b'.cells
    && forall k :: |b.cells| <= k < |b'.cells| ==> b'.cells[k].halo == halo + 1 && b'.cells[k].patch == 0
  }

  /** add_elements only appends: every block keeps its cells and gains its new ones at the end. */
  lemma GrownBlocksAppend(blocks: seq<Block>, incoming: seq<Incoming>, picked: seq<nat>, m: map<int, nat>, halo: int)
    requires forall i :: 0 <= i < |picked| ==> picked[i] < |incoming|
    ensures forall t :: 0 <= t < |blocks| ==>
      && Appended(blocks[t], GrownBlocks(blocks, incoming, picked, m, halo)[t], halo)
      && |GrownBlocks(blocks, incoming, picked, m, halo)[t].cells| == |blocks[t].cells| + |OfType(incoming, picked, t)|
  {
    var g := GrownBlocks(blocks, incoming, picked, m, halo);
    forall t | 0 <= t < |blocks| ensures Appended(blocks[t], g[t], halo) {
      var fresh' := NewCells(incoming, OfType(incoming, picked, t), m, halo);
      assert g[t].cells == blocks[t].cells + fresh';
      forall k | |blocks[t].cells| <= k < |g[t].cells| ensures g[t].cells[k].halo == halo + 1 && g[t].cells[k].patch == 0 {
        assert g[t].cells[k] == fresh'[k - |blocks[t].cells|];
      }
    }
  }

  /** BuildHaloHelper: the state the passes of one halo level share. */
  class HaloHelper {
    const mesh: Mesh
    const uid: UidFn
    /** The mesh projection, giving lon/lat from xy. */
    const projection: Point -> Point
    /** The halo depth the mesh had when the helper was made. */
    const halo: int
    var uid2node: map<int, nat>
    var node2elem: seq<seq<nat>>
    var bdryNodes: seq<int>
    /** status.new_periodic_ghost_points and status.new_periodic_ghost_cells. */
    var newPeriodicGhostPoints: seq<nat>
    var newPeriodicGhostCells: seq<seq<nat>>

    ghost predicate Valid()
      reads this, mesh
    {
      && mesh.Valid()
      && IndicesBelow(uid2node, |mesh.nodes|)
      && (|newPeriodicGhostCells| == 0 || |newPeriodicGhostCells| == |mesh.blocks|)
    }

    constructor (mesh: Mesh, uid: UidFn, projection: Point -> Point)
      ensures this.mesh == mesh && this.uid == uid && this.projection == projection
      ensures halo == mesh.halo.GetOr(0)
      ensures uid2node == map[] && node2elem == [] && bdryNodes == []
      ensures newPeriodicGhostPoints == [] && newPeriodicGhostCells == []
    {
      this.mesh := mesh;
      this.uid := uid;
      this.projection := projection;
      this.halo := mesh.halo.GetOr(0);
      uid2node := map[];
      node2elem := [];
      bdryNodes := [];
      newPeriodicGhostPoints := [];
      newPeriodicGhostCells := [];
    }

    /**
     * add_nodes: append the received nodes whose identifier is new, each once,
     * in received order; map each new identifier to its new node. A new node
     * whose identifier the map already holds is a serious bug.
     */
    method AddNodes(recv: seq<PartBuffer>, periodic: bool) returns (r: Outcome<int>)
      requires Valid()
      modifies this, mesh`nodes
      ensures node2elem == old(node2elem) && bdryNodes == old(bdryNodes)
      ensures newPeriodicGhostCells == old(newPeriodicGhostCells)
      ensures r.Pass? <==> forall i :: 0 <= i < |old(PickedNodes(uid, mesh.nodes, recv))| ==>
        NodeKeys(uid, RecvNodes(recv))[old(PickedNodes(uid, mesh.nodes, recv))[i]] !in old(uid2node)
      ensures r.Pass? ==> Valid()
      ensures r.Pass? ==> mesh.nodes == old(mesh.nodes) + NewNodeRows(RecvNodes(recv), old(PickedNodes(uid, mesh.nodes, recv)), projection)
      ensures r.Pass? ==> forall u :: u in uid2node <==> u in old(uid2node) || u in old(NewNodeKeys(uid, mesh.nodes, recv))
      ensures r.Pass? ==> forall u :: u in old(uid2node) ==> uid2node[u] == old(uid2node)[u]
      ensures r.Pass? ==> forall i :: 0 <= i < |old(NewNodeKeys(uid, mesh.nodes, recv))| ==>
        old(NewNodeKeys(uid, mesh.nodes, recv))[i] in uid2node && uid2node[old(NewNodeKeys(uid, mesh.nodes, recv))[i]] == old(|mesh.nodes|) + i
      ensures r.Pass? ==>
        newPeriodicGhostPoints == old(newPeriodicGhostPoints) + (if periodic then Range(old(|mesh.nodes|), |old(PickedNodes(uid, mesh.nodes, recv))|) else [])
    {
      var nodes', m', points';
      r, nodes', m', points' := MergeNodes(mesh.nodes, uid2node, newPeriodicGhostPoints, recv, uid, projection, periodic);
      mesh.nodes := nodes';
      uid2node := m';
      newPeriodicGhostPoints := points';
    }

    /**
     * add_elements: append the received elements whose global index is new,
     * each once, to the block of their type, with global index made positive,
     * halo one deeper than the helper's, patch 0 and the node connectivity
     * read from the identifier map with operator[].
     */
    method AddElements(recv: seq<PartBuffer>, periodic: bool)
      requires Valid() && |mesh.nodes| > 0
      requires forall p :: 0 <= p < |recv| ==> WellFormed(recv[p], ColsOf(mesh.blocks))
      modifies this, mesh`blocks
      ensures node2elem == old(node2elem) && bdryNodes == old(bdryNodes)
      ensures newPeriodicGhostPoints == old(newPeriodicGhostPoints)
      ensures Valid()
      ensures mesh.blocks == GrownBlocks(old(mesh.blocks), RecvElems(recv, ColsOf(old(mesh.blocks))),
        old(PickedElems(uid, mesh.nodes, mesh.blocks, RecvElems(recv, ColsOf(mesh.blocks)))), old(uid2node), halo)
      ensures ZeroExtended(old(uid2node), uid2node, IdsUpTo(RecvElems(recv, ColsOf(old(mesh.blocks))),
        old(PickedElems(uid, mesh.nodes, mesh.blocks, RecvElems(recv, ColsOf(mesh.blocks)))), |mesh.blocks|))
      ensures newPeriodicGhostCells == PeriodicCells(old(newPeriodicGhostCells), old(mesh.blocks),
        RecvElems(recv, ColsOf(old(mesh.blocks))),
        old(PickedElems(uid, mesh.nodes, mesh.blocks, RecvElems(recv, ColsOf(mesh.blocks)))), periodic)
    {
      var nodes, blocks, m, cells, h := mesh.nodes, mesh.blocks, uid2node, newPeriodicGhostCells, halo;
      var blocks', m', cells' := MergeElements(nodes, blocks, m, cells, recv, uid, h, periodic);
      mesh.blocks := blocks';
      uid2node := m';
      newPeriodicGhostCells := cells';
      assert Valid();
    }

    /** add_buffers: nodes first, then elements. */
    method AddBuffers(recv: seq<PartBuffer>, periodic: bool) returns (r: Outcome<int>)
      requires Valid() && |mesh.nodes| > 0
      requires forall p :: 0 <= p < |recv| ==> WellFormed(recv[p], ColsOf(mesh.blocks))
      modifies this, mesh`nodes, mesh`blocks
      ensures node2elem == old(node2elem) && bdryNodes == old(bdryNodes)
      ensures r.Pass? ==> Valid() && |mesh.nodes| >= old(|mesh.nodes|) && |mesh.blocks| == old(|mesh.blocks|)
      ensures r.Pass? ==> ColsOf(mesh.blocks) == old(ColsOf(mesh.blocks))
      ensures r.Pass? ==> mesh.nodes == old(mesh.nodes) + NewNodeRows(RecvNodes(recv), old(PickedNodes(uid, mesh.nodes, recv)), projection)
      ensures r.Pass? ==> PassMerged(uid, projection, halo, old(uid2node), recv, old(mesh.nodes), old(mesh.blocks), mesh.nodes, mesh.blocks)
      ensures r.Pass? ==> forall t :: 0 <= t < |mesh.blocks| ==> Appended(old(mesh.blocks)[t], mesh.blocks[t], halo)
      ensures r.Pass? ==> (newPeriodicGhostPoints ==
        old(newPeriodicGhostPoints) + (if periodic then Between(old(|mesh.nodes|), |mesh.nodes|) else []))
      ensures r.Pass? ==> |newPeriodicGhostCells| == |mesh.blocks| && forall t :: 0 <= t < |mesh.blocks| ==>
        newPeriodicGhostCells[t] == (if old(|newPeriodicGhostCells|) == 0 then [] else old(newPeriodicGhostCells)[t])
          + (if periodic then Between(old(|mesh.blocks[t].cells|), |mesh.blocks[t].cells|) else [])
    {
      ghost var nodes0, m0 := mesh.nodes, uid2node;
      r := AddNodes(recv, periodic);
      if r.Fail? {
        return;
      }
      NewNodeKeysDistinct(uid, nodes0, recv);
      MapWithNewNodesIs(m0, uid2node, NewNodeKeys(uid, nodes0, recv), |nodes0|);
      ghost var incoming := RecvElems(recv, ColsOf(mesh.blocks));
      ghost var picked := PickedElems(uid, mesh.nodes, mesh.blocks, incoming);
      ghost var m := uid2node;
      AddElements(recv, periodic);
      GrownBlocksAppend(old(mesh.blocks), incoming, picked, m, halo);
    }
  }
}
