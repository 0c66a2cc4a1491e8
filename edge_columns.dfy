/**
 * The edge-based function space: fields that hold one value (or one column
 * of levels and variables) per mesh edge. A field configuration says whether
 * the field is global (gathered on one owner rank), how many levels and
 * variables it has, and its data type; the function space turns it into a
 * size, a shape and field metadata. Building the function space checks that
 * the requested halo is the mesh's halo.
 */
module EdgeColumnsConfig {
  import opened Wrappers

  /** A field configuration; a key the configuration does not hold is None. */
  datatype Config = Config(
    global: Option<bool>,
    owner: Option<nat>,
    levels: Option<nat>,
    variables: Option<nat>,
    dataKind: Option<int>,
    name: Option<string>,
    halo: Option<nat>)

  /**
   * The function space on one rank: its number of edges, its default number
   * of levels, the global number of edges (gathered over all ranks) and the
   * rank it runs on.
   */
  datatype EdgeColumns = EdgeColumns(nbEdges: nat, nbLevels: nat, nbEdgesGlobal: nat, rank: nat)

  /** What the function space needs of its mesh: the stored halo depth (if any) and the edge count. */
  datatype MeshInfo = MeshInfo(halo: Option<nat>, nbEdges: nat)

  /** The field is requested as a global field. */
  predicate IsGlobal(c: Config)
  {
    c.global == Some(true)
  }

  // ---------------------------------------------------------------------------
  // configuration rules

  /**
   * config_size: the local edge count, unless the field is global; a global
   * field has the global edge count on its owner rank (rank 0 unless the
   * configuration names one) and nothing on every other rank.
   */
  function ConfigSize(fs: EdgeColumns, c: Config): (r: nat)
    ensures !IsGlobal(c) ==> r == fs.nbEdges
    ensures IsGlobal(c) && fs.rank == c.owner.GetOr(0) ==> r == fs.nbEdgesGlobal
    ensures IsGlobal(c) && fs.rank != c.owner.GetOr(0) ==> r == 0
  {
    var size := fs.nbEdges;
    match c.global
    case Some(g) =>
      if g then (if fs.rank == c.owner.GetOr(0) then fs.nbEdgesGlobal else 0) else size
    case None => size
  }

  /** The sizes a configuration gives on ranks 0 to n-1, added up. */
  function SizeOverRanks(fs: EdgeColumns, c: Config, n: nat): nat
  {
    if n == 0 then 0 else SizeOverRanks(fs, c, n - 1) + ConfigSize(fs.(rank := n - 1), c)
  }

  /**
   * Over all ranks, a global field holds the global edge count exactly once
   * (on its owner) when the owner is one of the ranks, and nothing otherwise.
   */
  lemma {:induction false} GlobalSizeOnOwnerOnly(fs: EdgeColumns, c: Config, n: nat)
    requires IsGlobal(c)
    ensures SizeOverRanks(fs, c, n) == if c.owner.GetOr(0) < n then fs.nbEdgesGlobal else 0
  {
    if n > 0 {
      GlobalSizeOnOwnerOnly(fs, c, n - 1);
    }
  }

  /** config_levels: the configured levels, by default those of the function space. */
  function ConfigLevels(fs: EdgeColumns, c: Config): (r: nat)
    ensures c.levels.Some? ==> r == c.levels.value
    ensures c.levels.None? ==> r == fs.nbLevels
  {
    c.levels.GetOr(fs.nbLevels)
  }

  /** config_datatype: the configured data type; an AssertionFailed when there is none. */
  function ConfigDatatype(c: Config): (r: Result<int, AssertionFailed>)
    ensures r.Failure? <==> c.dataKind.None?
    ensures r.Failure? ==> r.error == AssertionFailed("datatype missing")
    ensures r.Success? ==> r.value == c.dataKind.value
  {
    match c.dataKind
    case None => Failure(AssertionFailed("datatype missing"))
    case Some(kind) => Success(kind)
  }

  /** config_name: the configured name, by default empty. */
  function ConfigName(c: Config): (r: string)
    ensures c.name.Some? ==> r == c.name.value
    ensures c.name.None? ==> r == ""
  {
    c.name.GetOr("")
  }

  /**
   * The shape config_shape builds: the size, then the levels when there are
   * any, then the variables when there are any.
   */
  function ShapeOf(fs: EdgeColumns, c: Config): seq<nat>
  {
    [ConfigSize(fs, c)]
      + (if ConfigLevels(fs, c) > 0 then [ConfigLevels(fs, c)] else [])
      + (if c.variables.GetOr(0) > 0 then [c.variables.GetOr(0)] else [])
  }

  /** The product of the dimensions. */
  function Product(s: seq<nat>): nat
  {
    if s == [] then 1 else s[0] * Product(s[1..])
  }

  /**
   * A shape has one to three dimensions, starting with the size, and holds
   * one value per edge, level and variable (a missing dimension counting
   * once).
   */
  lemma ShapeOfDimensions(fs: EdgeColumns, c: Config)
    ensures 1 <= |ShapeOf(fs, c)| <= 3 && ShapeOf(fs, c)[0] == ConfigSize(fs, c)
    ensures |ShapeOf(fs, c)| == 1 + (if ConfigLevels(fs, c) > 0 then 1 else 0) + (if c.variables.GetOr(0) > 0 then 1 else 0)
    ensures Product(ShapeOf(fs, c)) ==
              ConfigSize(fs, c) * ((if ConfigLevels(fs, c) > 0 then ConfigLevels(fs, c) else 1)
                * (if c.variables.GetOr(0) > 0 then c.variables.GetOr(0) else 1))
  {
    var size, levels, variables := ConfigSize(fs, c), ConfigLevels(fs, c), c.variables.GetOr(0);
    var s := ShapeOf(fs, c);
    var tail := s[1..];
    assert s == [size] + tail;
    if levels > 0 && variables > 0 {
      assert tail == [levels, variables] && tail[1..] == [variables] && tail[1..][1..] == [];
      assert Product(tail[1..]) == variables * Product(tail[1..][1..]) == variables;
      assert Product(tail) == levels * Product(tail[1..]);
    } else if levels > 0 {
      assert tail == [levels] && tail[1..] == [];
      assert Product(tail) == levels * Product(tail[1..]);
    } else if variables > 0 {
      assert tail == [variables] && tail[1..] == [];
      assert Product(tail) == variables * Product(tail[1..]);
    } else {
      assert tail == [];
    }
  }

  /** config_shape: the shape, built up one dimension at a time. */
  method ConfigShape(fs: EdgeColumns, c: Config) returns (shape: seq<nat>)
    ensures shape == ShapeOf(fs, c)
  {
    shape := [];
    shape := shape + [ConfigSize(fs, c)];
    var levels := fs.nbLevels;
    if c.levels.Some? {
      levels := c.levels.value;
    }
    if levels > 0 {
      shape := shape + [levels];
    }
    var variables := 0;
    if c.variables.Some? {
      variables := c.variables.value;
    }
    if variables > 0 {
      shape := shape + [variables];
    }
  }

  // ---------------------------------------------------------------------------
  // field metadata

  /** A metadata value. */
  datatype MetaValue = Flag(b: bool) | Count(n: nat)

  /** The parts of a field the function space configures. */
  class Field {
    var metadata: map<string, MetaValue>
    var levels: nat
    var variables: nat
    var functionspace: Option<EdgeColumns>

    constructor ()
      ensures metadata == map[] && levels == 0 && variables == 0 && functionspace == None
    {
      metadata := map[];
      levels := 0;
      variables := 0;
      functionspace := None;
    }
  }

  /**
   * set_field_metadata: the field belongs to the function space; "global" is
   * always set (false by default); "owner" is set only for a global field (0
   * by default); the levels default to the function space's and the
   * variables to none. No other metadata changes.
   */
  method SetFieldMetadata(fs: EdgeColumns, c: Config, field: Field)
    modifies field
    ensures field.functionspace == Some(fs)
    ensures field.metadata == if IsGlobal(c) then old(field.metadata)["owner" := Count(c.owner.GetOr(0))]["global" := Flag(true)]
                              else old(field.metadata)["global" := Flag(false)]
    ensures field.levels == ConfigLevels(fs, c) && field.variables == c.variables.GetOr(0)
  {
    field.functionspace := Some(fs);
    var global := false;
    if c.global.Some? {
      global := c.global.value;
      if global {
        var owner := 0;
        if c.owner.Some? {
          owner := c.owner.value;
        }
        field.metadata := field.metadata["owner" := Count(owner)];
      }
    }
    field.metadata := field.metadata["global" := Flag(global)];
    var levels := fs.nbLevels;
    if c.levels.Some? {
      levels := c.levels.value;
    }
    field.levels := levels;
    var variables := 0;
    if c.variables.Some? {
      variables := c.variables.value;
    }
    field.variables := variables;
  }

  // ---------------------------------------------------------------------------
  // construction

  /**
   * The constructor from a configuration: the levels come from the
   * configuration (none by default); the requested halo (the mesh's by
   * default) must be the halo the mesh stores (0 when it stores none).
   */
  function FromConfig(mesh: MeshInfo, params: Config, nbEdgesGlobal: nat, rank: nat): (r: Result<EdgeColumns, AssertionFailed>)
    ensures r.Failure? <==> params.halo.Some? && params.halo.value != mesh.halo.GetOr(0)
    ensures r.Success? ==> r.value == EdgeColumns(mesh.nbEdges, params.levels.GetOr(0), nbEdgesGlobal, rank)
  {
    var meshHalo := mesh.halo.GetOr(0);
    var halo := params.halo.GetOr(meshHalo);
    if meshHalo != halo then Failure(AssertionFailed("mesh_halo == halo"))
    else Success(EdgeColumns(mesh.nbEdges, ConfigLevels(EdgeColumns(0, 0, nbEdgesGlobal, rank), params), nbEdgesGlobal, rank))
  }

  /**
   * The constructors from an explicit halo: the mesh must store a halo, and
   * it must be the given one; the levels come from the configuration when
   * one is given (none otherwise).
   */
  function FromHalo(mesh: MeshInfo, halo: nat, params: Option<Config>, nbEdgesGlobal: nat, rank: nat): (r: Result<EdgeColumns, AssertionFailed>)
    requires mesh.halo.Some?
    ensures r.Failure? <==> mesh.halo.value != halo
    ensures r.Success? ==> r.value.nbEdges == mesh.nbEdges && r.value.rank == rank
    ensures r.Success? && params.None? ==> r.value.nbLevels == 0
    ensures r.Success? && params.Some? ==> r.value.nbLevels == params.value.levels.GetOr(0)
  {
    if mesh.halo.value != halo then Failure(AssertionFailed("mesh_halo_size_ == halo.size()"))
    else
      var levels := match params case Some(p) => p.levels.GetOr(0) case None => 0;
      Success(EdgeColumns(mesh.nbEdges, levels, nbEdgesGlobal, rank))
  }

  // ---------------------------------------------------------------------------
  // variables_to_vector

  /** A C int converted to size_t (64 bits): a negative value wraps around. */
  function SizeT(v: int): (r: nat)
    ensures r < 0x1_0000_0000_0000_0000 && (r - v) % 0x1_0000_0000_0000_0000 == 0
    ensures 0 <= v < 0x1_0000_0000_0000_0000 ==> r == v
  {
    v % 0x1_0000_0000_0000_0000
  }

  /** The sequence back to front. */
  function Reversed<T>(s: seq<T>): (r: seq<T>)
    ensures |r| == |s| && forall i :: 0 <= i < |s| ==> r[i] == s[|s| - 1 - i]
  {
    seq(|s|, i requires 0 <= i < |s| => s[|s| - 1 - i])
  }

  /** Reversing twice gives the sequence back. */
  lemma ReversedTwice<T>(s: seq<T>)
    ensures Reversed(Reversed(s)) == s
  {
  }

  /** The first size values, converted to size_t. */
  function Converted(variables: seq<int>, size: nat): (r: seq<nat>)
    requires size <= |variables|
    ensures |r| == size && forall i :: 0 <= i < size ==> r[i] == SizeT(variables[i])
  {
    seq(size, i requires 0 <= i < size => SizeT(variables[i]))
  }

  /** reverse_copy: the first size values written back to front, from the last slot down. */
  method ReverseCopy(variables: seq<int>, size: nat, reverse: array<nat>)
    requires size <= |variables| && reverse.Length == size
    modifies reverse
    ensures reverse[..] == Reversed(Converted(variables, size))
  {
    var r := size;
    var i := 0;
    while i < size
      invariant 0 <= i <= size && r == size - i
      invariant forall k :: r <= k < size ==> reverse[k] == SizeT(variables[size - 1 - k])
    {
      r := r - 1;
      reverse[r] := SizeT(variables[i]);
      i := i + 1;
    }
  }

  /** copy: the first size values written in order. */
  method Copy(variables: seq<int>, size: nat, cpy: array<nat>)
    requires size <= |variables| && cpy.Length == size
    modifies cpy
    ensures cpy[..] == Converted(variables, size)
  {
    var i := 0;
    while i < size
      invariant 0 <= i <= size
      invariant forall k :: 0 <= k < i ==> cpy[k] == SizeT(variables[k])
    {
      cpy[i] := SizeT(variables[i]);
      i := i + 1;
    }
  }

  /**
   * variables_to_vector: size values, reversed for Fortran ordering and in
   * the given order otherwise.
   */
  method VariablesToVector(variables: seq<int>, size: nat, fortranOrdering: bool) returns (vec: seq<nat>)
    requires size <= |variables|
    ensures |vec| == size
    ensures fortranOrdering ==> vec == Reversed(Converted(variables, size))
    ensures !fortranOrdering ==> vec == Converted(variables, size)
  {
    var a := new nat[size];
    if fortranOrdering {
      ReverseCopy(variables, size, a);
    } else {
      Copy(variables, size, a);
    }
    vec := a[..];
  }
}
