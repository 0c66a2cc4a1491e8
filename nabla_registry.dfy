/**
 * The registry of Nabla factories: a map from a method name to the factory
 * that builds the Nabla operator for it. A factory registers itself under its
 * name when it is created and removes its name when it is destroyed; the
 * registry answers whether a name is known, lists the known names, and builds
 * through the factory registered for a method's name.
 *
 * The registry is a std::map, whose iteration order is the ascending order of
 * its keys; it is modelled as the sequence of its (name, factory) entries in
 * that order.
 */
module NablaRegistry {
  import opened Wrappers

  // ---------------------------------------------------------------------------
  // the order of std::string keys

  /** std::string's operator<: the first differing character decides, and a proper prefix comes first. */
  predicate StrLess(a: string, b: string)
  {
    if |a| == 0 then |b| > 0
    else if |b| == 0 then false
    else if a[0] != b[0] then a[0] < b[0]
    else StrLess(a[1..], b[1..])
  }

  /** StrLess is a strict total order: irreflexive, asymmetric, transitive and total on distinct strings. */
  lemma {:induction false} StrLessOrder(a: string, b: string, c: string)
    ensures !StrLess(a, a)
    ensures StrLess(a, b) ==> !StrLess(b, a)
    ensures StrLess(a, b) && StrLess(b, c) ==> StrLess(a, c)
    ensures a != b ==> StrLess(a, b) || StrLess(b, a)
    decreases |a|
  {
    if |a| > 0 {
      StrLessOrder(a[1..], a[1..], a[1..]);
      if |b| > 0 {
        StrLessOrder(a[1..], b[1..], b[1..]);
        if a[0] == b[0] && a != b {
          assert a == [a[0]] + a[1..] && b == [b[0]] + b[1..];
        }
        if |c| > 0 {
          StrLessOrder(a[1..], b[1..], c[1..]);
        }
      }
    }
  }

  // ---------------------------------------------------------------------------
  // the registry's entries

  /** A factory: the name it registers under and the Nabla implementation it builds. */
  datatype Factory = Factory(name: string, builder: nat)

  /** The error build raises for an unknown method name. */
  datatype SeriousBug = SeriousBug(message: string)

  /** The keys of the entries, in order. */
  function Keys(entries: seq<(string, Factory)>): (r: seq<string>)
    ensures |r| == |entries| && forall i :: 0 <= i < |entries| ==> r[i] == entries[i].0
  {
    seq(|entries|, i requires 0 <= i < |entries| => entries[i].0)
  }

  /** The keys ascend strictly, as a std::map's do. */
  predicate Ascending(entries: seq<(string, Factory)>)
  {
    forall i, j :: 0 <= i < j < |entries| ==> StrLess(entries[i].0, entries[j].0)
  }

  /** The factory the entries map the name to, if any: the map as a function. */
  function Lookup(entries: seq<(string, Factory)>, name: string): Option<Factory>
  {
    if entries == [] then None
    else if entries[0].0 == name then Some(entries[0].1)
    else Lookup(entries[1..], name)
  }

  /** Looking a name up in two runs of entries: the first run wins. */
  lemma {:induction false} LookupConcat(a: seq<(string, Factory)>, b: seq<(string, Factory)>, name: string)
    ensures Lookup(a + b, name) == if Lookup(a, name).Some? then Lookup(a, name) else Lookup(b, name)
  {
    if a != [] {
      assert a + b != [] && (a + b)[0] == a[0] && (a + b)[1..] == a[1..] + b;
      if a[0].0 != name {
        LookupConcat(a[1..], b, name);
      }
    } else {
      assert a + b == b;
    }
  }

  /** A name is found exactly when it is a key; in ascending entries it finds its own entry. */
  lemma {:induction false} LookupFinds(entries: seq<(string, Factory)>, name: string)
    ensures Lookup(entries, name).Some? <==> name in Keys(entries)
    ensures Ascending(entries) ==>
              forall i :: 0 <= i < |entries| && entries[i].0 == name ==> Lookup(entries, name) == Some(entries[i].1)
  {
    if entries != [] {
      LookupFinds(entries[1..], name);
      assert Keys(entries) == [entries[0].0] + Keys(entries[1..]);
      if Ascending(entries) {
        assert Ascending(entries[1..]);
        forall i | 0 <= i < |entries| && entries[i].0 == name
          ensures Lookup(entries, name) == Some(entries[i].1)
        {
          if i > 0 {
            StrLessOrder(entries[0].0, entries[i].0, entries[i].0);
            assert entries[1..][i - 1] == entries[i];
          }
        }
      }
    }
  }

  /** Keys below the name first, keys above it after: the name is in neither run. */
  lemma AbsentFromRuns(pre: seq<(string, Factory)>, post: seq<(string, Factory)>, name: string)
    requires forall j :: 0 <= j < |pre| ==> StrLess(pre[j].0, name)
    requires forall j :: 0 <= j < |post| ==> StrLess(name, post[j].0)
    ensures Lookup(pre, name) == None && Lookup(post, name) == None
  {
    LookupFinds(pre, name);
    LookupFinds(post, name);
    StrLessOrder(name, name, name);
    assert forall j :: 0 <= j < |pre| ==> pre[j].0 != name;
    assert forall j :: 0 <= j < |post| ==> post[j].0 != name;
  }

  // ---------------------------------------------------------------------------
  // list's output

  /** The names written one after the other with ", " between them. */
  function Joined(names: seq<string>): (r: string)
  {
    if names == [] then ""
    else if |names| == 1 then names[0]
    else Joined(names[..|names| - 1]) + ", " + names[|names| - 1]
  }

  /**
   * The listing starts with the first name, with no separator before it, and
   * holds every name plus one separator between each two.
   */
  lemma {:induction false} JoinedShape(names: seq<string>)
    ensures names != [] ==> names[0] <= Joined(names)
    ensures |Joined(names)| == (if names == [] then 0 else 2 * (|names| - 1)) + TotalLength(names)
  {
    if |names| > 1 {
      var front := names[..|names| - 1];
      JoinedShape(front);
      assert names == front + [names[|names| - 1]];
      TotalLengthSnoc(front, names[|names| - 1]);
      assert front[0] == names[0];
    } else if |names| == 1 {
      assert names == [] + [names[0]];
      TotalLengthSnoc([], names[0]);
    }
  }

  /** The total number of characters of the names. */
  function TotalLength(names: seq<string>): nat
  {
    if names == [] then 0 else |names[0]| + TotalLength(names[1..])
  }

  lemma {:induction false} TotalLengthSnoc(names: seq<string>, last: string)
    ensures TotalLength(names + [last]) == TotalLength(names) + |last|
  {
    if names != [] {
      assert (names + [last])[1..] == names[1..] + [last];
      TotalLengthSnoc(names[1..], last);
    }
  }

  // ---------------------------------------------------------------------------
  // the registry

  /** The process-wide registry of Nabla factories. */
  class Registry {
    /** The map from name to factory, in ascending key order. */
    var entries: seq<(string, Factory)>

    predicate Valid()
      reads this
    {
      Ascending(entries)
    }

    constructor ()
      ensures Valid() && entries == []
    {
      entries := [];
    }

    /**
     * The NablaFactory constructor: the name must not be registered yet (an
     * ASSERT); then it maps to the new factory and nothing else changes.
     */
    method Register(f: Factory) returns (r: Outcome<AssertionFailed>)
      requires Valid()
      modifies this
      ensures Valid()
      ensures r.Fail? <==> old(Lookup(entries, f.name)).Some?
      ensures r.Fail? ==> entries == old(entries)
      ensures forall name :: Lookup(entries, name) == if r.Pass? && name == f.name then Some(f) else old(Lookup(entries, name))
    {
      var i := 0;
      while i < |entries| && StrLess(entries[i].0, f.name)
        invariant 0 <= i <= |entries|
        invariant forall j :: 0 <= j < i ==> StrLess(entries[j].0, f.name)
      {
        i := i + 1;
      }
      var pre, post := entries[..i], entries[i..];
      assert entries == pre + post;
      forall j | 0 <= j < |post| ensures StrLess(f.name, post[j].0) || post[j].0 == f.name {
        StrLessOrder(post[0].0, post[j].0, f.name);
        StrLessOrder(f.name, post[0].0, post[j].0);
      }
      if i < |entries| && entries[i].0 == f.name {
        LookupConcat(pre, post, f.name);
        return Fail(AssertionFailed("m->find( name ) == m->end()"));
      }
      forall j | 0 <= j < |post| ensures StrLess(f.name, post[j].0) {
        if j > 0 {
          StrLessOrder(post[0].0, post[j].0, post[j].0);
          assert post[j].0 != f.name;
        }
      }
      AbsentFromRuns(pre, post, f.name);
      LookupConcat(pre, post, f.name);
      var e := [(f.name, f)];
      entries := pre + e + post;
      forall name ensures Lookup(entries, name) == if name == f.name then Some(f) else Lookup(pre + post, name) {
        LookupConcat(pre + e, post, name);
        LookupConcat(pre, e, name);
        LookupConcat(pre, post, name);
      }
      forall a, b | 0 <= a < b < |entries| ensures StrLess(entries[a].0, entries[b].0) {
        if a < i && b > i {
          StrLessOrder(entries[a].0, f.name, entries[b].0);
        }
      }
      return Pass;
    }

    /** The NablaFactory destructor: the name is no longer registered, and nothing else changes. */
    method Unregister(name: string)
      requires Valid()
      modifies this
      ensures Valid()
      ensures forall n :: Lookup(entries, n) == if n == name then None else old(Lookup(entries, n))
    {
      var i := 0;
      while i < |entries| && StrLess(entries[i].0, name)
        invariant 0 <= i <= |entries|
        invariant forall j :: 0 <= j < i ==> StrLess(entries[j].0, name)
      {
        i := i + 1;
      }
      if i < |entries| && entries[i].0 == name {
        var pre, post := entries[..i], entries[i + 1..];
        assert entries == pre + [entries[i]] + post;
        forall j | 0 <= j < |post| ensures StrLess(name, post[j].0) {
          assert post[j] == entries[i + 1 + j];
        }
        AbsentFromRuns(pre, post, name);
        forall n ensures Lookup(pre + post, n) == if n == name then None else Lookup(entries, n) {
          LookupConcat(pre + [entries[i]], post, n);
          LookupConcat(pre, [entries[i]], n);
          LookupConcat(pre, post, n);
        }
        entries := pre + post;
      } else {
        var pre, post := entries[..i], entries[i..];
        assert entries == pre + post;
        forall j | 0 <= j < |post| ensures StrLess(name, post[j].0) {
          StrLessOrder(post[0].0, name, name);
          StrLessOrder(post[0].0, post[j].0, post[j].0);
          StrLessOrder(name, post[0].0, post[j].0);
        }
        AbsentFromRuns(pre, post, name);
        LookupConcat(pre, post, name);
      }
    }

    /** has: whether the name is registered. */
    function Has(name: string): (r: bool)
      reads this
      ensures r <==> Lookup(entries, name).Some?
    {
      LookupFinds(entries, name);
      exists i :: 0 <= i < |entries| && entries[i].0 == name
    }

    /**
     * build: a SeriousBug naming the method when no factory is registered
     * under its name, and otherwise what the registered factory makes.
     */
    function Build<T>(name: string, make: Factory -> T): (r: Result<T, SeriousBug>)
      requires Valid()
      reads this
      ensures !Has(name) ==> r == Failure(SeriousBug("No NablaFactory called " + name))
      ensures forall i :: 0 <= i < |entries| && entries[i].0 == name ==> r == Success(make(entries[i].1))
    {
      LookupFinds(entries, name);
      match Lookup(entries, name)
      case None => Failure(SeriousBug("No NablaFactory called " + name))
      case Some(f) => Success(make(f))
    }

    /** list: the registered names in ascending order, separated by ", ". */
    method List() returns (out: string)
      ensures out == Joined(Keys(entries))
    {
      out := "";
      var sep := "";
      var i := 0;
      while i < |entries|
        invariant 0 <= i <= |entries|
        invariant out == Joined(Keys(entries)[..i])
        invariant sep == if i == 0 then "" else ", "
      {
        assert Keys(entries)[..i + 1][..i] == Keys(entries)[..i];
        out := out + sep + entries[i].0;
        sep := ", ";
        i := i + 1;
      }
      assert Keys(entries)[..i] == Keys(entries);
    }
  }
}
