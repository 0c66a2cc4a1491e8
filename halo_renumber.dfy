/**
 * Human-readable global indices: the provisional global indices of the
 * entries to edit are gathered from every partition, sorted, and relabelled
 * densely from the stored maximum plus one, equal indices sharing one label;
 * every partition gets its own slice back.
 */
module HaloRenumber {
  import opened OrderedSeq

  // ---------------------------------------------------------------------------
  // the sort on rank 0

  /** A gathered global index with its position in the gathered array. */
  datatype Entity = Entity(g: int, i: int)

  /** Entity::operator<: order by global index only. */
  predicate EntityLess(a: Entity, b: Entity)
  {
    a.g < b.g
  }

  /** Entity::operator< is a strict weak order whose ties are exactly the equal global indices. */
  lemma EntityLessStrictWeak(a: Entity, b: Entity, c: Entity)
    ensures !EntityLess(a, a)
    ensures EntityLess(a, b) && EntityLess(b, c) ==> EntityLess(a, c)
    ensures !EntityLess(a, b) && !EntityLess(b, a) <==> a.g == b.g
  {
  }

  predicate SortedByG(s: seq<Entity>)
  {
    forall j, k :: 0 <= j < k < |s| ==> !EntityLess(s[k], s[j])
  }

  /** The entities built from the gathered array: each index with its position. */
  function Entities(all: seq<int>): (r: seq<Entity>)
    ensures |r| == |all| && forall i :: 0 <= i < |all| ==> r[i] == Entity(all[i], i)
  {
    seq(|all|, i requires 0 <= i < |all| => Entity(all[i], i))
  }

  function InsertByG(x: Entity, s: seq<Entity>): (r: seq<Entity>)
    requires SortedByG(s)
    ensures SortedByG(r) && multiset(r) == multiset(s) + multiset{x}
  {
    if s == [] then [x]
    else if x.g <= s[0].g then [x] + s
    else
      var rest := InsertByG(x, s[1..]);
      assert s == [s[0]] + s[1..];
      assert forall k :: 0 <= k < |rest| ==> rest[k] in multiset(rest);
      [s[0]] + rest
  }

  /** std::sort on the entities, as insertion sort. */
  function SortByG(s: seq<Entity>): (r: seq<Entity>)
    ensures SortedByG(r) && multiset(r) == multiset(s)
  {
    if s == [] then []
    else
      assert s == [s[0]] + s[1..];
      InsertByG(s[0], SortByG(s[1..]))
  }

  // ---------------------------------------------------------------------------
  // the relabelling

  /** The distinct gathered indices smaller than x. */
  ghost function Below(all: seq<int>, x: int): set<int>
  {
    set y | y in all && y < x
  }

  /** The number of distinct gathered indices smaller than x. */
  ghost function Rank(all: seq<int>, x: int): nat
  {
    |Below(all, x)|
  }

  /** The label of gathered position i: one past the maximum, plus the rank of its index. */
  ghost function HumanReadable(all: seq<int>, max: int): (r: seq<int>)
    ensures |r| == |all|
  {
    seq(|all|, i requires 0 <= i < |all| => max + 1 + Rank(all, all[i]))
  }

  /** Gathered position i is carried by some entity of s. */
  ghost predicate Covered(s: seq<Entity>, i: int)
  {
    exists k :: 0 <= k < |s| && s[k].i == i
  }

  /** A sorted rearrangement of the entities: every position appears, each entity is genuine. */
  ghost predicate SortedPermutation(all: seq<int>, s: seq<Entity>)
  {
    && SortedByG(s)
    && (forall k :: 0 <= k < |s| ==> 0 <= s[k].i < |all| && s[k].g == all[s[k].i])
    && (forall i :: 0 <= i < |all| ==> Covered(s, i))
  }

  lemma SortedIsPermutation(all: seq<int>, s: seq<Entity>)
    requires SortedByG(s) && multiset(s) == multiset(Entities(all))
    ensures SortedPermutation(all, s)
  {
    var es := Entities(all);
    forall k | 0 <= k < |s| ensures 0 <= s[k].i < |all| && s[k].g == all[s[k].i] {
      assert s[k] in multiset(es);
      var i :| 0 <= i < |es| && es[i] == s[k];
    }
    forall i | 0 <= i < |all| ensures Covered(s, i) {
      assert es[i] in multiset(s);
      var k :| 0 <= k < |s| && s[k] == es[i];
    }
  }

  /** In a sorted permutation the first index is the least: nothing lies below it. */
  lemma RankFirst(all: seq<int>, s: seq<Entity>)
    requires SortedPermutation(all, s) && |s| > 0
    ensures Rank(all, s[0].g) == 0
  {
    forall y | y in all ensures y >= s[0].g {
      var i :| 0 <= i < |all| && all[i] == y;
      assert Covered(s, i);
      var k :| 0 <= k < |s| && s[k].i == i;
      if k > 0 { assert !EntityLess(s[k], s[0]); }
    }
    assert Below(all, s[0].g) == {};
  }

  /** Walking the sorted entities, a change of index raises the rank by exactly one. */
  lemma RankStep(all: seq<int>, s: seq<Entity>, j: nat)
    requires SortedPermutation(all, s) && 0 < j < |s|
    ensures s[j].g == s[j - 1].g ==> Rank(all, s[j].g) == Rank(all, s[j - 1].g)
    ensures s[j].g != s[j - 1].g ==> Rank(all, s[j].g) == Rank(all, s[j - 1].g) + 1
  {
    var x, y := s[j - 1].g, s[j].g;
    if x != y {
      assert !EntityLess(s[j], s[j - 1]);
      forall z | z in all && z < y ensures z <= x {
        var i :| 0 <= i < |all| && all[i] == z;
        assert Covered(s, i);
        var k :| 0 <= k < |s| && s[k].i == i;
        assert k < j;
        assert k < j - 1 ==> !EntityLess(s[j - 1], s[k]);
      }
      assert all[s[j - 1].i] == x;
      assert Below(all, y) == Below(all, x) + {x};
    }
  }

  /**
   * Step 2 of the renumbering on rank 0: walk the sorted entities, starting
   * at max + 1 and incrementing whenever the index differs from the previous
   * one, writing each label back at the entity's gathered position.
   */
  method AssignLabels(all: seq<int>, max: int, s: seq<Entity>) returns (out: seq<int>)
    requires SortedByG(s) && multiset(s) == multiset(Entities(all))
    ensures out == HumanReadable(all, max)
  {
    SortedIsPermutation(all, s);
    out := all;
    var gid := max + 1;
    var j := 0;
    while j < |s|
      invariant 0 <= j <= |s| && |out| == |all|
      invariant j == 0 ==> gid == max + 1
      invariant j > 0 ==> gid == max + 1 + Rank(all, s[j - 1].g)
      invariant forall k :: 0 <= k < j ==> out[s[k].i] == max + 1 + Rank(all, s[k].g)
    {
      if j > 0 && s[j].g != s[j - 1].g {
        gid := gid + 1;
      }
      if j == 0 {
        RankFirst(all, s);
      } else {
        RankStep(all, s, j);
      }
      var inode := s[j].i;
      out := out[inode := gid];
      j := j + 1;
    }
    forall i | 0 <= i < |all| ensures out[i] == HumanReadable(all, max)[i] {
      assert Covered(s, i);
      var k :| 0 <= k < |s| && s[k].i == i;
    }
  }

  /** Steps 2 of the renumbering: sort the gathered indices, then label them. */
  method Relabel(all: seq<int>, max: int) returns (out: seq<int>)
    ensures out == HumanReadable(all, max)
  {
    var sorted := SortByG(Entities(all));
    out := AssignLabels(all, max, sorted);
  }

  // ---------------------------------------------------------------------------
  // what the labels promise

  lemma {:induction false} SubsetCard(a: set<int>, b: set<int>)
    requires a <= b
    ensures |a| <= |b|
    decreases |b|
  {
    if a != {} {
      if forall x :: x !in a { assert false; }
      var x :| x in a;
      SubsetCard(a - {x}, b - {x});
    }
  }

  lemma RankMonotone(all: seq<int>, x: int, y: int)
    requires x <= y
    ensures Rank(all, x) <= Rank(all, y)
  {
    SubsetCard(Below(all, x), Below(all, y));
  }

  /** A gathered index below y strictly lowers the rank of y's predecessors. */
  lemma RankStrict(all: seq<int>, x: int, y: int)
    requires x in all && x < y
    ensures Rank(all, x) < Rank(all, y)
  {
    SubsetCard(Below(all, x), Below(all, y) - {x});
  }

  /**
   * The labels keep the order of the indices, equal indices share a label and
   * different ones get different labels, and they lie between max + 1 and
   * max plus the number of distinct indices.
   */
  lemma HumanReadableOrder(all: seq<int>, max: int, i: nat, j: nat)
    requires i < |all| && j < |all|
    ensures all[i] < all[j] <==> HumanReadable(all, max)[i] < HumanReadable(all, max)[j]
    ensures all[i] == all[j] <==> HumanReadable(all, max)[i] == HumanReadable(all, max)[j]
    ensures max + 1 <= HumanReadable(all, max)[i] <= max + |Elems(all)|
  {
    if all[i] < all[j] {
      RankStrict(all, all[i], all[j]);
    } else if all[j] < all[i] {
      RankStrict(all, all[j], all[i]);
    }
    SubsetCard(Below(all, all[i]), Elems(all) - {all[i]});
  }

  /** Labels are dense: consecutive distinct indices get consecutive labels. */
  lemma {:induction false} HumanReadableDense(all: seq<int>, max: int, i: nat, j: nat)
    requires i < |all| && j < |all| && all[i] < all[j]
    requires forall k :: 0 <= k < |all| ==> !(all[i] < all[k] < all[j])
    ensures HumanReadable(all, max)[j] == HumanReadable(all, max)[i] + 1
  {
    assert Below(all, all[j]) == Below(all, all[i]) + {all[i]};
  }

  /** The smallest index gets max + 1 (or 1 when the maximum is taken as 0). */
  lemma HumanReadableStart(all: seq<int>, max: int, i: nat)
    requires i < |all| && forall k :: 0 <= k < |all| ==> all[i] <= all[k]
    ensures HumanReadable(all, max)[i] == max + 1
  {
    assert Below(all, all[i]) == {};
  }

  // ---------------------------------------------------------------------------
  // gather and scatter

  /** gatherv: the partitions' arrays one after another. */
  function Concat(parts: seq<seq<int>>): (r: seq<int>)
  {
    if parts == [] then [] else Concat(parts[..|parts| - 1]) + parts[|parts| - 1]
  }

  /** recvdispls: where each partition's array starts in the gathered one. */
  method RecvDispls(parts: seq<seq<int>>) returns (displs: seq<nat>)
    requires |parts| > 0
    ensures |displs| == |parts| && forall p :: 0 <= p < |parts| ==> displs[p] == |Concat(parts[..p])|
  {
    displs := [0];
    var jpart := 1;
    assert parts[..0] == [];
    while jpart < |parts|
      invariant 1 <= jpart <= |parts| && |displs| == jpart
      invariant forall p :: 0 <= p < jpart ==> displs[p] == |Concat(parts[..p])|
    {
      assert parts[..jpart][..jpart - 1] == parts[..jpart - 1];
      displs := displs + [|parts[jpart - 1]| + displs[jpart - 1]];
      jpart := jpart + 1;
    }
  }

  /** scatterv of a gathered array hands each partition back its own slice. */
  lemma {:induction false} ConcatSlice(parts: seq<seq<int>>, p: nat)
    requires p < |parts|
    ensures |Concat(parts[..p])| + |parts[p]| <= |Concat(parts)|
    ensures Concat(parts)[|Concat(parts[..p])| .. |Concat(parts[..p])| + |parts[p]|] == parts[p]
  {
    var k := |parts| - 1;
    assert parts[..k + 1] == parts;
    if p < k {
      assert parts[..k][..p] == parts[..p];
      ConcatSlice(parts[..k], p);
    } else {
      assert parts[..p] == parts[..k];
    }
  }

  /**
   * The gather, relabel and scatter of one renumbering as seen by one
   * partition: its own indices go in at its slot, and its slice of the
   * relabelled array comes back.
   */
  method GatherRelabelScatter(mine: seq<int>, others: seq<seq<int>>, rank: nat, max: int) returns (mine': seq<int>)
    requires rank < |others|
    ensures |mine'| == |mine|
    ensures forall j :: 0 <= j < |mine| ==> mine'[j] == max + 1 + Rank(Concat(others[rank := mine]), mine[j])
  {
    var parts := others[rank := mine];
    var displs := RecvDispls(parts);
    var gathered := Concat(parts);
    var relabelled := Relabel(gathered, max);
    ConcatSlice(parts, rank);
    mine' := relabelled[displs[rank] .. displs[rank] + |mine|];
    forall j | 0 <= j < |mine| ensures mine'[j] == max + 1 + Rank(gathered, mine[j]) {
      assert gathered[displs[rank] + j] == mine[j];
    }
  }

  /** The labels a partition gets back keep the order and the ties of its own indices. */
  lemma OwnLabelsKeepOrder(mine: seq<int>, all: seq<int>, max: int, mine': seq<int>, i: nat, j: nat)
    requires |mine'| == |mine| && i < |mine| && j < |mine|
    requires forall k :: 0 <= k < |mine| ==> mine[k] in all && mine'[k] == max + 1 + Rank(all, mine[k])
    ensures mine[i] < mine[j] <==> mine'[i] < mine'[j]
    ensures mine[i] == mine[j] <==> mine'[i] == mine'[j]
  {
    if mine[i] < mine[j] {
      RankStrict(all, mine[i], mine[j]);
    } else if mine[j] < mine[i] {
      RankStrict(all, mine[j], mine[i]);
    }
  }
}
