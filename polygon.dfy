/**
 * The edges of a partition polygon: an edge is an ordered pair of node
 * indices, it can be reversed, edges are ordered lexicographically, and an
 * edge set is a set under that order.
 */
module PolygonEdges {
  /** edge_t: a directed edge between two node indices. */
  datatype Edge = Edge(first: int, second: int)

  /** edge_t::reverse: the same edge walked the other way. */
  function Reverse(e: Edge): Edge
  {
    Edge(e.second, e.first)
  }

  /** Reversing twice gives the edge back; only a loop is its own reverse. */
  lemma ReverseInvolution(e: Edge)
    ensures Reverse(Reverse(e)) == e
    ensures Reverse(e) == e <==> e.first == e.second
  {
  }

  /** edge_t::LessThan: ascending by first, then by second. */
  predicate LessThan(e1: Edge, e2: Edge)
  {
    if e1.first < e2.first then true
    else if e1.first > e2.first then false
    else e1.second < e2.second
  }

  /** LessThan is a strict total order: irreflexive, transitive, and any two distinct edges are comparable. */
  lemma LessThanStrictTotal(a: Edge, b: Edge, c: Edge)
    ensures !LessThan(a, a)
    ensures LessThan(a, b) && LessThan(b, c) ==> LessThan(a, c)
    ensures LessThan(a, b) ==> !LessThan(b, a)
    ensures a != b ==> LessThan(a, b) || LessThan(b, a)
  {
  }

  /** Under LessThan an edge and its reverse are equivalent exactly when both endpoints are equal. */
  lemma ReverseEquivalent(e: Edge)
    ensures !LessThan(e, Reverse(e)) && !LessThan(Reverse(e), e) <==> e.first == e.second
    ensures e.first != e.second ==> LessThan(e, Reverse(e)) != LessThan(Reverse(e), e)
  {
  }

  // ---------------------------------------------------------------------------
  // edge_set_t

  /** The elements of an edge set in iteration order: strictly ascending under LessThan. */
  predicate Ascending(s: seq<Edge>)
  {
    forall i, j :: 0 <= i < j < |s| ==> LessThan(s[i], s[j])
  }

  /** edge_set_t::insert: add the edge unless an equivalent one is present, keeping the order. */
  function Insert(s: seq<Edge>, e: Edge): (r: seq<Edge>)
    requires Ascending(s)
    ensures Ascending(r)
    ensures forall x :: x in r <==> x in s || x == e
    ensures |r| == if e in s then |s| else |s| + 1
  {
    if s == [] then [e]
    else if LessThan(e, s[0]) then
      assert forall x :: x in s ==> LessThan(e, x) by {
        forall x | x in s ensures LessThan(e, x) {
          var i :| 0 <= i < |s| && s[i] == x;
          if i > 0 { LessThanStrictTotal(e, s[0], x); }
        }
      }
      [e] + s
    else if e == s[0] then s
    else
      var rest := Insert(s[1..], e);
      assert s == [s[0]] + s[1..];
      assert forall x :: x in rest ==> LessThan(s[0], x) by {
        forall x | x in rest ensures LessThan(s[0], x) {
          if x != e {
            var i :| 0 <= i < |s| - 1 && s[1..][i] == x;
          }
        }
      }
      assert e !in s[..1];
      [s[0]] + rest
  }

  /** The set built by inserting the edges one after the other. */
  function FromEdges(edges: seq<Edge>): (r: seq<Edge>)
    ensures Ascending(r)
  {
    if edges == [] then [] else Insert(FromEdges(edges[..|edges| - 1]), edges[|edges| - 1])
  }

  /** An edge set holds exactly the inserted edges, each once. */
  lemma {:induction false} FromEdgesMembers(edges: seq<Edge>)
    ensures forall x :: x in FromEdges(edges) <==> x in edges
    ensures forall i, j :: 0 <= i < j < |FromEdges(edges)| ==> FromEdges(edges)[i] != FromEdges(edges)[j]
  {
    if edges != [] {
      var front := edges[..|edges| - 1];
      FromEdgesMembers(front);
      assert edges == front + [edges[|edges| - 1]];
    }
    var r := FromEdges(edges);
    forall i, j | 0 <= i < j < |r| ensures r[i] != r[j] {
      LessThanStrictTotal(r[i], r[j], r[j]);
    }
  }

  /** An edge and its reverse are two elements of an edge set unless the edge is a loop. */
  lemma EdgeAndReverse(e: Edge)
    ensures |FromEdges([e, Reverse(e)])| == if e.first == e.second then 1 else 2
  {
    assert [e, Reverse(e)][..1] == [e];
    assert [e][..0] == [];
    assert FromEdges([e]) == [e];
    assert Reverse(e) in [e] <==> e.first == e.second;
  }
}
