/**
 * The rules of the VTU mesh reader with the VTK library taken away: a
 * parsed unstructured grid (points, typed cells, named cell arrays) is a
 * value, and the reader decides whether it carries a usable slowness
 * field and copies out nodes, elements and slowness.
 */
module VtuReader {
  import opened Outcomes

  /** VTK's cell-type codes for the two element kinds the solver accepts. */
  const VTK_TRIANGLE: int := 5
  const VTK_TETRA: int := 10

  /** A point of the grid; VTK stores three coordinates even for 2D meshes. */
  datatype Point = Point(x: real, y: real, z: real)

  /** A cell as VTK reports it: its type code and its point ids. */
  datatype Cell = Cell(cellType: int, ids: seq<nat>)

  /** VTK guarantees a triangle has three points and a tetrahedron four. */
  type VtkCell = c: Cell | (c.cellType == VTK_TRIANGLE ==> |c.ids| == 3) && (c.cellType == VTK_TETRA ==> |c.ids| == 4)
    witness Cell(0, [])

  /** What the XML reader's `GetOutput()` yields: points, cells and named per-cell arrays. */
  datatype Grid = Grid(points: seq<Point>, cells: seq<VtkCell>, cellData: map<string, seq<real>>)

  /** The mesh file's name for the slowness array and for the velocity array. */
  const SLOWNESS: string := "Slowness"
  const VELOCITY: string := "Velocity"

  /**
   * The format check: a parsed grid exists, it has a Slowness or a
   * Velocity cell array (Slowness first), and that array has one value
   * per cell. It accepts exactly the parses whose grid has a slowness
   * field, so it and the read apply one rule.
   */
  function CheckFormat(output: Option<Grid>): (b: bool)
    ensures b <==> output.Some? && SlownessField(output.value).Some?
  {
    match output
    case None => false
    case Some(g) =>
      if SLOWNESS !in g.cellData && VELOCITY !in g.cellData then false
      else if SLOWNESS in g.cellData then |g.cellData[SLOWNESS]| == |g.cells|
      else |g.cellData[VELOCITY]| == |g.cells|
  }

  /** A slowness value: a double, or the +infinity that `1./0.` gives. */
  datatype Scalar = Finite(value: real) | Infinity

  /** The reciprocal of a velocity. */
  function Reciprocal(v: real): (s: Scalar)
    ensures v != 0.0 ==> s.Finite? && s.value * v == 1.0
    ensures v == 0.0 ==> s == Infinity
  {
    if v == 0.0 then Infinity else Finite(1.0 / v)
  }

  /** The cell array the slowness is taken from, after the precedence rule. */
  datatype Property = SlownessArray(values: seq<real>) | VelocityArray(values: seq<real>)

  /** "Slowness" when present, else "Velocity" when present, else nothing. */
  function SelectedProperty(g: Grid): Option<Property>
  {
    if SLOWNESS in g.cellData then Some(SlownessArray(g.cellData[SLOWNESS]))
    else if VELOCITY in g.cellData then Some(VelocityArray(g.cellData[VELOCITY]))
    else None
  }

  /** The per-cell slowness a property array stands for. */
  function SlownessValue(p: Property, n: nat): Scalar
    requires n < |p.values|
  {
    match p
    case SlownessArray(values) => Finite(values[n])
    case VelocityArray(values) => Reciprocal(values[n])
  }

  /**
   * The slowness field of a grid: one value per cell, from the selected
   * array, provided that array has exactly one value per cell.
   */
  function SlownessField(g: Grid): Option<seq<Scalar>>
  {
    match SelectedProperty(g)
    case None => None
    case Some(p) =>
      if |p.values| != |g.cells| then None
      else Some(seq(|p.values|, n requires 0 <= n < |p.values| => SlownessValue(p, n)))
  }

  /** Where "Slowness" is present, the "Velocity" array has no influence at all. */
  lemma SlownessTakesPrecedence(g: Grid, velocity: seq<real>)
    requires SLOWNESS in g.cellData
    ensures SlownessField(g) == SlownessField(g.(cellData := g.cellData[VELOCITY := velocity]))
    ensures SlownessField(g) == SlownessField(g.(cellData := g.cellData - {VELOCITY}))
  {
    var g1 := g.(cellData := g.cellData[VELOCITY := velocity]);
    var g2 := g.(cellData := g.cellData - {VELOCITY});
    assert SLOWNESS != VELOCITY;
    assert g1.cellData[SLOWNESS] == g.cellData[SLOWNESS];
    assert g2.cellData[SLOWNESS] == g.cellData[SLOWNESS];
  }

  /** A 2D node `(x, z)`. */
  datatype Node2D = Node2D(x: real, z: real)
  /** A 3D node `(x, y, z)`. */
  datatype Node3D = Node3D(x: real, y: real, z: real)
  /** A triangle's three point ids and a tetrahedron's four. */
  datatype TriangleElem = TriangleElem(i0: nat, i1: nat, i2: nat)
  datatype TetrahedronElem = TetrahedronElem(i0: nat, i1: nat, i2: nat, i3: nat)

  /** Reading elements aborts at the first cell of the wrong type. */
  datatype CellTypeError = WrongCellType(cell: nat)

  /**
   * A reader for one mesh file. `output` is what parsing the file yields;
   * every accessor of the C++ reader re-parses the file, and the model takes
   * each parse to yield this same value.
   */
  class VTUReader {
    const filename: string
    const output: Option<Grid>
    var valid: bool
    var nNodes: nat
    var nElements: nat

    /** `valid` records the format check; the two counters are never updated. */
    ghost predicate Valid()
      reads this
    {
      valid == CheckFormat(output) && nNodes == 0 && nElements == 0
    }

    constructor (filename: string, output: Option<Grid>)
      ensures this.filename == filename && this.output == output
      ensures valid == CheckFormat(output) && nNodes == 0 && nElements == 0
      ensures Valid()
    {
      this.filename := filename;
      this.output := output;
      valid := false;
      nNodes := 0;
      nElements := 0;
      new;
      valid := CheckFormat(output);
    }

    /** Whether the file passed the format check, so a reader with a null parse is never valid. */
    function IsValid(): (b: bool)
      reads this
      requires Valid()
      ensures b == CheckFormat(output)
      ensures b ==> output.Some? && SlownessField(output.value).Some?
    {
      valid
    }

    function GetNumberOfElements(): nat
      requires output.Some?
    {
      |output.value.cells|
    }

    function GetNumberOfNodes(): nat
      requires output.Some?
    {
      |output.value.points|
    }

    /** One 2D node per point, keeping x and z and dropping y. */
    method ReadNodes2D() returns (nodes: seq<Node2D>)
      requires output.Some?
      ensures |nodes| == |output.value.points|
      ensures forall n :: 0 <= n < |nodes| ==>
        nodes[n].x == output.value.points[n].x && nodes[n].z == output.value.points[n].z
    {
      var points := output.value.points;
      var a := new Node2D[|points|];
      for n := 0 to |points|
        invariant forall k :: 0 <= k < n ==> a[k] == Node2D(points[k].x, points[k].z)
      {
        a[n] := Node2D(points[n].x, points[n].z);
      }
      nodes := a[..];
    }

    /** One 3D node per point, with all three coordinates. */
    method ReadNodes3D() returns (nodes: seq<Node3D>)
      requires output.Some?
      ensures |nodes| == |output.value.points|
      ensures forall n :: 0 <= n < |nodes| ==>
        var p := output.value.points[n];
        nodes[n].x == p.x && nodes[n].y == p.y && nodes[n].z == p.z
    {
      var points := output.value.points;
      var a := new Node3D[|points|];
      for n := 0 to |points|
        invariant forall k :: 0 <= k < n ==> a[k] == Node3D(points[k].x, points[k].y, points[k].z)
      {
        a[n] := Node3D(points[n].x, points[n].y, points[n].z);
      }
      nodes := a[..];
    }

    /**
     * The triangles of the mesh, one per cell with the cell's point ids in
     * order; the first cell that is not a triangle aborts the read.
     */
    method ReadTriangleElements() returns (r: Result<seq<TriangleElem>, CellTypeError>)
      requires output.Some?
      ensures r.Success? <==> forall n :: 0 <= n < |output.value.cells| ==> output.value.cells[n].cellType == VTK_TRIANGLE
      ensures r.Failure? ==>
        var bad := r.error.cell;
        bad < |output.value.cells| && output.value.cells[bad].cellType != VTK_TRIANGLE &&
        forall n :: 0 <= n < bad ==> output.value.cells[n].cellType == VTK_TRIANGLE
      ensures r.Success? ==> |r.value| == |output.value.cells|
      ensures r.Success? ==> forall n :: 0 <= n < |r.value| ==>
        var ids := output.value.cells[n].ids;
        r.value[n] == TriangleElem(ids[0], ids[1], ids[2])
    {
      var cells := output.value.cells;
      var tri := new TriangleElem[|cells|];
      var n := 0;
      while n < |cells|
        invariant 0 <= n <= |cells|
        invariant forall k :: 0 <= k < n ==> cells[k].cellType == VTK_TRIANGLE
        invariant forall k :: 0 <= k < n ==> tri[k] == TriangleElem(cells[k].ids[0], cells[k].ids[1], cells[k].ids[2])
      {
        if cells[n].cellType != VTK_TRIANGLE {
          return Failure(WrongCellType(n));
        }
        var ids := cells[n].ids;
        tri[n] := TriangleElem(ids[0], ids[1], ids[2]);
        n := n + 1;
      }
      r := Success(tri[..]);
    }

    /**
     * The tetrahedra of the mesh, one per cell with the cell's point ids in
     * order; the first cell that is not a tetrahedron aborts the read.
     */
    method ReadTetrahedronElements() returns (r: Result<seq<TetrahedronElem>, CellTypeError>)
      requires output.Some?
      ensures r.Success? <==> forall n :: 0 <= n < |output.value.cells| ==> output.value.cells[n].cellType == VTK_TETRA
      ensures r.Failure? ==>
        var bad := r.error.cell;
        bad < |output.value.cells| && output.value.cells[bad].cellType != VTK_TETRA &&
        forall n :: 0 <= n < bad ==> output.value.cells[n].cellType == VTK_TETRA
      ensures r.Success? ==> |r.value| == |output.value.cells|
      ensures r.Success? ==> forall n :: 0 <= n < |r.value| ==>
        var ids := output.value.cells[n].ids;
        r.value[n] == TetrahedronElem(ids[0], ids[1], ids[2], ids[3])
    {
      var cells := output.value.cells;
      var tet := new TetrahedronElem[|cells|];
      var n := 0;
      while n < |cells|
        invariant 0 <= n <= |cells|
        invariant forall k :: 0 <= k < n ==> cells[k].cellType == VTK_TETRA
        invariant forall k :: 0 <= k < n ==> tet[k] == TetrahedronElem(cells[k].ids[0], cells[k].ids[1], cells[k].ids[2], cells[k].ids[3])
      {
        if cells[n].cellType != VTK_TETRA {
          return Failure(WrongCellType(n));
        }
        var ids := cells[n].ids;
        tet[n] := TetrahedronElem(ids[0], ids[1], ids[2], ids[3]);
        n := n + 1;
      }
      r := Success(tet[..]);
    }

    /**
     * Reads the slowness field into the caller's vector: status 1 and one
     * value per cell on success; status 0 and the vector `prior` left as it
     * was when the arrays are missing or of the wrong size.
     */
    method ReadSlowness(prior: seq<Scalar>) returns (status: int, slowness: seq<Scalar>)
      requires output.Some?
      ensures status == 0 || status == 1
      ensures status == 1 <==> CheckFormat(output)
      ensures status == 0 ==> slowness == prior
      ensures status == 1 ==> |slowness| == |output.value.cells|
      ensures status == 1 && SLOWNESS in output.value.cellData ==>
        forall n :: 0 <= n < |slowness| ==> slowness[n] == Finite(output.value.cellData[SLOWNESS][n])
      ensures status == 1 && SLOWNESS !in output.value.cellData ==>
        forall n :: 0 <= n < |slowness| ==> slowness[n] == Reciprocal(output.value.cellData[VELOCITY][n])
      // the reader and the format check apply one rule: the grid's slowness field
      ensures status == 1 ==> SlownessField(output.value) == Some(slowness)
      ensures status == 0 ==> SlownessField(output.value).None?
    {
      var g := output.value;
      if SLOWNESS !in g.cellData && VELOCITY !in g.cellData {
        return 0, prior;
      }
      if SLOWNESS in g.cellData {
        var slo := g.cellData[SLOWNESS];
        if |slo| != |g.cells| {
          return 0, prior;
        }
        var a := new Scalar[|slo|];
        for n := 0 to |slo|
          invariant forall k :: 0 <= k < n ==> a[k] == Finite(slo[k])
        {
          a[n] := Finite(slo[n]);
        }
        slowness := a[..];
        assert SlownessField(g).value == slowness;
      } else {
        var vel := g.cellData[VELOCITY];
        if |vel| != |g.cells| {
          return 0, prior;
        }
        var a := new Scalar[|vel|];
        for n := 0 to |vel|
          invariant forall k :: 0 <= k < n ==> a[k] == Reciprocal(vel[k])
        {
          a[n] := Reciprocal(vel[n]);
        }
        slowness := a[..];
        assert SlownessField(g).value == slowness;
      }
      status := 1;
    }
  }
}
