/**
 * Deduplication of received entries against what the rank already holds: a
 * received node or element is new when its key is not in the sorted snapshot
 * of local keys and has not been seen earlier in the received order.
 */
module HaloSelect {
  import opened OrderedSeq

  /** Positions of the received keys that are taken as new, in received order. */
  function Picked(keys: seq<int>, existing: set<int>): (r: seq<nat>)
    ensures forall i :: 0 <= i < |r| ==> r[i] < |keys| && keys[r[i]] !in existing
    ensures forall i, j :: 0 <= i < j < |r| ==> r[i] < r[j]
  {
    if keys == [] then []
    else
      var k := |keys| - 1;
      var q := Picked(keys[..k], existing);
      assert forall i :: 0 <= i < |q| ==> keys[q[i]] == keys[..k][q[i]];
      q + (if keys[k] !in existing && keys[k] !in keys[..k] then [k] else [])
  }

  /** The keys at the picked positions. */
  function KeysAt(keys: seq<int>, picked: seq<nat>): (r: seq<int>)
    requires forall i :: 0 <= i < |picked| ==> picked[i] < |keys|
    ensures |r| == |picked|
  {
    seq(|picked|, i requires 0 <= i < |picked| => keys[picked[i]])
  }

  /** No key is picked twice. */
  lemma {:induction false} PickedDistinct(keys: seq<int>, existing: set<int>)
    ensures forall i, j :: 0 <= i < j < |Picked(keys, existing)| ==>
      keys[Picked(keys, existing)[i]] != keys[Picked(keys, existing)[j]]
  {
    if keys != [] {
      var k := |keys| - 1;
      var front := keys[..k];
      PickedDistinct(front, existing);
      var q := Picked(front, existing);
      var p := Picked(keys, existing);
      assert forall i :: 0 <= i < |q| ==> p[i] == q[i] && keys[q[i]] == front[q[i]];
      forall i, j | 0 <= i < j < |p| ensures keys[p[i]] != keys[p[j]] {
        if j == |q| {
          assert keys[p[i]] in front;
        }
      }
    }
  }

  /** Every new key is picked at some position. */
  lemma {:induction false} PickedComplete(keys: seq<int>, existing: set<int>, m: nat)
    requires m < |keys| && keys[m] !in existing
    ensures exists i :: 0 <= i < |Picked(keys, existing)| && keys[Picked(keys, existing)[i]] == keys[m]
  {
    var k := |keys| - 1;
    var front := keys[..k];
    var p := Picked(keys, existing);
    var q := Picked(front, existing);
    if m < k {
      assert front[m] == keys[m];
      PickedComplete(front, existing, m);
      var i :| 0 <= i < |q| && front[q[i]] == front[m];
      assert p[i] == q[i];
    } else if keys[k] in front {
      var m' :| 0 <= m' < k && front[m'] == keys[k];
      PickedComplete(front, existing, m');
      var i :| 0 <= i < |q| && front[q[i]] == front[m'];
      assert p[i] == q[i];
    } else {
      assert p[|q|] == k;
    }
  }

  /** The keys taken are exactly the received keys not already present, each once. */
  lemma PickedKeysExactlyNew(keys: seq<int>, existing: set<int>)
    ensures forall x :: x in KeysAt(keys, Picked(keys, existing)) <==> x in keys && x !in existing
    ensures forall i, j :: 0 <= i < j < |Picked(keys, existing)| ==>
      KeysAt(keys, Picked(keys, existing))[i] != KeysAt(keys, Picked(keys, existing))[j]
  {
    PickedDistinct(keys, existing);
    var p := Picked(keys, existing);
    var ks := KeysAt(keys, p);
    forall x | x in ks ensures x in keys && x !in existing {
      var i :| 0 <= i < |ks| && ks[i] == x;
      assert keys[p[i]] == x;
    }
    forall x | x in keys && x !in existing ensures x in ks {
      var m :| 0 <= m < |keys| && keys[m] == x;
      PickedComplete(keys, existing, m);
      var i :| 0 <= i < |p| && keys[p[i]] == keys[m];
      assert ks[i] == x;
    }
  }

  /**
   * The already-exists test of add_nodes and add_elements, applied to every
   * received key in order: a key is new when the binary search of the sorted
   * snapshot misses it and it is not yet in the set of new keys.
   */
  method SelectNew(snapshot: seq<int>, keys: seq<int>) returns (picked: seq<nat>)
    requires NonDecreasing(snapshot)
    ensures picked == Picked(keys, Elems(snapshot))
  {
    var newKeys: set<int> := {};
    picked := [];
    var k := 0;
    while k < |keys|
      invariant 0 <= k <= |keys|
      invariant picked == Picked(keys[..k], Elems(snapshot))
      invariant newKeys == Elems(keys[..k]) - Elems(snapshot)
    {
      assert keys[..k + 1][..k] == keys[..k];
      assert Elems(keys[..k + 1]) == Elems(keys[..k]) + {keys[k]};
      var key := keys[k];
      var present := SnapshotContains(snapshot, key);
      var alreadyExists: bool;
      if !present {
        var inserted := key !in newKeys;
        newKeys := newKeys + {key};
        alreadyExists := !inserted;
      } else {
        alreadyExists := true;
      }
      if !alreadyExists {
        picked := picked + [k];
      }
      k := k + 1;
    }
    assert keys[..k] == keys;
  }
}
