/**
 * Ordered views of integer collections: the ascending iteration order of a
 * std::set and the std::lower_bound search over a sorted std::vector, both of
 * which the halo construction relies on.
 */
module OrderedSeq {

  predicate StrictlyIncreasing(s: seq<int>)
  {
    forall i, j :: 0 <= i < j < |s| ==> s[i] < s[j]
  }

  predicate NonDecreasing(s: seq<int>)
  {
    forall i, j :: 0 <= i < j < |s| ==> s[i] <= s[j]
  }

  /** The set of values of a sequence. */
  function Elems(s: seq<int>): (r: set<int>)
    ensures forall x :: x in r <==> x in s
  {
    set x | x in s
  }

  lemma {:induction false} MinimumExists(s: set<int>) returns (m: int)
    requires s != {}
    ensures m in s && forall x :: x in s ==> m <= x
    decreases |s|
  {
    if forall x :: x !in s { assert false; }
    var y :| y in s;
    if s == {y} {
      m := y;
    } else {
      var m' := MinimumExists(s - {y});
      m := if y < m' then y else m';
      forall x | x in s ensures m <= x {
        if x != y { assert x in s - {y}; }
      }
    }
  }

  /** The least element of a non-empty set. */
  ghost function Least(s: set<int>): (m: int)
    requires s != {}
    ensures m in s && forall x :: x in s ==> m <= x
  {
    assert exists m :: m in s && forall x :: x in s ==> m <= x by {
      var m := MinimumExists(s);
    }
    var m :| m in s && forall x :: x in s ==> m <= x;
    m
  }

  /** The ascending sequence of the elements of a set. */
  ghost function SortedOf(s: set<int>): (r: seq<int>)
    ensures StrictlyIncreasing(r) && Elems(r) == s
    decreases |s|
  {
    if s == {} then []
    else
      var m := Least(s);
      var rest := SortedOf(s - {m});
      assert forall i :: 0 <= i < |rest| ==> rest[i] in Elems(rest) && m < rest[i];
      [m] + rest
  }

  /** A set has exactly one ascending enumeration. */
  lemma {:induction false} SortedUnique(a: seq<int>, b: seq<int>)
    requires StrictlyIncreasing(a) && StrictlyIncreasing(b) && Elems(a) == Elems(b)
    ensures a == b
    decreases |a|
  {
    assert a != [] ==> a[0] in Elems(a);
    assert b != [] ==> b[0] in Elems(b);
    if a != [] && b != [] {
      assert a[0] in Elems(b) && b[0] in Elems(a);
      assert a[0] == b[0] by {
        var i :| 0 <= i < |b| && b[i] == a[0];
        var j :| 0 <= j < |a| && a[j] == b[0];
      }
      assert Elems(a[1..]) == Elems(b[1..]) by {
        forall x ensures x in a[1..] <==> x in b[1..] {
          if x in a[1..] {
            var i :| 1 <= i < |a| && a[i] == x;
            assert x in b && x != b[0];
          }
          if x in b[1..] {
            var i :| 1 <= i < |b| && b[i] == x;
            assert x in a && x != a[0];
          }
        }
      }
      SortedUnique(a[1..], b[1..]);
      assert a == [a[0]] + a[1..] && b == [b[0]] + b[1..];
    }
  }

  /**
   * The elements of a std::set in iteration order: ascending, each once.
   * Built by repeatedly taking the least remaining element.
   */
  method SortedFromSet(s: set<int>) returns (r: seq<int>)
    ensures StrictlyIncreasing(r)
    ensures forall x :: x in r <==> x in s
    ensures |r| == |s|
    ensures r == SortedOf(s)
  {
    r := [];
    var rest := s;
    while rest != {}
      invariant rest <= s
      invariant StrictlyIncreasing(r)
      invariant forall x :: x in r <==> x in s && x !in rest
      invariant forall x, y :: x in r && y in rest ==> x < y
      invariant |r| + |rest| == |s|
      decreases |rest|
    {
      ghost var least := MinimumExists(rest);
      var m :| m in rest && forall x :: x in rest ==> m <= x;
      forall i | 0 <= i < |r| ensures r[i] < m {
        assert r[i] in r;
      }
      r := r + [m];
      rest := rest - {m};
    }
    SortedUnique(r, SortedOf(s));
  }

  /**
   * std::lower_bound: the first position whose value is not less than x.
   */
  method LowerBound(s: seq<int>, x: int) returns (i: nat)
    requires NonDecreasing(s)
    ensures i <= |s|
    ensures forall k :: 0 <= k < i ==> s[k] < x
    ensures forall k :: i <= k < |s| ==> x <= s[k]
  {
    var lo, hi := 0, |s|;
    while lo < hi
      invariant 0 <= lo <= hi <= |s|
      invariant forall k :: 0 <= k < lo ==> s[k] < x
      invariant forall k :: hi <= k < |s| ==> x <= s[k]
    {
      var mid := (lo + hi) / 2;
      if s[mid] < x {
        lo := mid + 1;
      } else {
        hi := mid;
      }
    }
    i := lo;
  }

  /**
   * The "already exists" test of the halo merge: a lower_bound search in a
   * sorted snapshot, found unless it ran off the end or stopped at a larger value.
   */
  method SnapshotContains(s: seq<int>, x: int) returns (found: bool)
    requires NonDecreasing(s)
    ensures found <==> x in s
  {
    var it := LowerBound(s, x);
    var notFound := it == |s| || x < s[it];
    found := !notFound;
  }
}
