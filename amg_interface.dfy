/**
 * The array bookkeeping of the Python interface to the AMG remesher: the
 * flat lists the mesh I/O library exchanges are reshaped into rows when a
 * mesh is read and flattened back when it is written; a sensor is picked
 * from the solution columns by tag; and the remesher's command line is
 * assembled from the options. numpy's reshape raises an error when the
 * sizes do not match, which the model returns as a failure.
 */
module AmgInterface {

  datatype Result<T> = Ok(value: T) | Fail(error: InterfaceError)

  /** The ways the interface stops: a reshape that does not fit, a division by zero, a missing index or key, an exit. */
  datatype InterfaceError = ReshapeError | DivisionByZero | IndexError | KeyError | NoSolution | UnknownSensor

  // ---------------------------------------------------------------------
  // Reshape and flatten
  // ---------------------------------------------------------------------

  /** reshape of a flat list of n*w entries into n rows of width w. */
  function Rows<T>(flat: seq<T>, n: nat, w: nat): (r: seq<seq<T>>)
    requires |flat| == n * w
    ensures |r| == n && forall i :: 0 <= i < n ==> |r[i]| == w
    decreases n
  {
    if n == 0 then []
    else
      assert n * w == (n - 1) * w + w;
      [flat[..w]] + Rows(flat[w..], n - 1, w)
  }

  /** reshape of rows into one flat list: the rows one after the other. */
  function Flatten<T>(rows: seq<seq<T>>): seq<T> {
    if |rows| == 0 then [] else rows[0] + Flatten(rows[1..])
  }

  /** Every row has width w. */
  predicate Uniform<T>(rows: seq<seq<T>>, w: nat) {
    forall i :: 0 <= i < |rows| ==> |rows[i]| == w
  }

  /** Flattening what was reshaped gives back the flat list. */
  lemma {:induction false} FlattenRows<T>(flat: seq<T>, n: nat, w: nat)
    requires |flat| == n * w
    ensures Flatten(Rows(flat, n, w)) == flat
  {
    if n > 0 {
      assert n * w == (n - 1) * w + w;
      FlattenRows(flat[w..], n - 1, w);
      assert Rows(flat, n, w)[1..] == Rows(flat[w..], n - 1, w);
    }
  }

  /** Flattening rows of width w gives w entries per row. */
  lemma {:induction false} FlattenLength<T>(rows: seq<seq<T>>, w: nat)
    requires Uniform(rows, w)
    ensures |Flatten(rows)| == |rows| * w
  {
    if |rows| > 0 {
      FlattenLength(rows[1..], w);
      assert |rows| * w == (|rows| - 1) * w + w;
    }
  }

  /** Reshaping what was flattened gives back rows of a uniform width. */
  lemma {:induction false} RowsFlatten<T>(rows: seq<seq<T>>, w: nat)
    requires Uniform(rows, w)
    ensures |Flatten(rows)| == |rows| * w
    ensures Rows(Flatten(rows), |rows|, w) == rows
  {
    FlattenLength(rows, w);
    if |rows| > 0 {
      RowsFlatten(rows[1..], w);
      assert Flatten(rows)[..w] == rows[0];
      assert Flatten(rows)[w..] == Flatten(rows[1..]);
    }
  }

  /** np.array(rows).reshape(w*len(rows)): the flat list, or an error when a row has another width. */
  function FlattenChecked<T>(rows: seq<seq<T>>, w: nat): (r: Result<seq<T>>)
    ensures r.Ok? <==> Uniform(rows, w)
    ensures r.Ok? ==> r.value == Flatten(rows)
  {
    if forall i :: 0 <= i < |rows| ==> |rows[i]| == w then Ok(Flatten(rows)) else Fail(ReshapeError)
  }

  // ---------------------------------------------------------------------
  // read_mesh
  // ---------------------------------------------------------------------

  /** What the mesh I/O library hands over: flat vertex, element and solution lists, solution tags, markers. */
  datatype MeshLists = MeshLists(ver: seq<real>, tri: seq<int>, tet: seq<int>, edg: seq<int>,
                                 sol: seq<real>, solTag: seq<string>, markers: seq<int>)

  /** The coordinates of a mesh: xyz rows in 3-D, xy rows otherwise. */
  datatype Coords = Xyz(xyz: seq<seq<real>>) | Xy(xy: seq<seq<real>>)

  /** The mesh dictionary. */
  datatype Mesh = Mesh(dimension: int, coords: Coords, triangles: seq<seq<int>>, tetrahedra: seq<seq<int>>,
                       edges: seq<seq<int>>, corners: seq<int>, solution: seq<seq<real>>,
                       solutionTag: seq<string>, idSolutionTag: map<string, nat>, markers: seq<int>)

  /** The first two columns of each vertex row. */
  function XyOf(ver: seq<seq<real>>): (xy: seq<seq<real>>)
    requires Uniform(ver, 3)
    ensures Uniform(xy, 2) && |xy| == |ver|
    ensures forall i :: 0 <= i < |ver| ==> xy[i] == [ver[i][0], ver[i][1]]
  {
    seq(|ver|, i requires 0 <= i < |ver| => [ver[i][0], ver[i][1]])
  }

  /** The map from each tag to its position among the first k tags: a later duplicate overwrites an earlier one. */
  function TagIndex(tags: seq<string>, k: nat): (m: map<string, nat>)
    requires k <= |tags|
    ensures m.Keys == set i | 0 <= i < k :: tags[i]
    ensures forall t :: t in m ==> m[t] < k && tags[m[t]] == t
    ensures forall t, j :: t in m && m[t] < j < k ==> tags[j] != t
  {
    if k == 0 then map[] else TagIndex(tags, k - 1)[tags[k - 1] := k - 1]
  }

  /** With no duplicate tag, each tag maps to its own position. */
  lemma TagIndexOfDistinct(tags: seq<string>, i: nat)
    requires forall a, b :: 0 <= a < b < |tags| ==> tags[a] != tags[b]
    requires i < |tags|
    ensures TagIndex(tags, |tags|)[tags[i]] == i
  {
  }

  /** The loop building id_solution_tag. */
  method IdSolutionTag(tags: seq<string>) returns (m: map<string, nat>)
    ensures m == TagIndex(tags, |tags|)
  {
    m := map[];
    for i := 0 to |tags|
      invariant m == TagIndex(tags, i)
    {
      m := m[tags[i] := i];
    }
  }

  /**
   * read_mesh after the library call: the element lists in rows of 5, 4
   * and 3, the vertices in rows of 3, the solution in one row per vertex
   * (its width by integer division), the dimension from the first marker.
   */
  function ReadMeshSpec(l: MeshLists): Result<Mesh> {
    var nbrTet := |l.tet| / 5;
    var nbrTri := |l.tri| / 4;
    var nbrEdg := |l.edg| / 3;
    var nbrVer := |l.ver| / 3;
    if nbrTet * 5 != |l.tet| || nbrTri * 4 != |l.tri| || nbrEdg * 3 != |l.edg| || nbrVer * 3 != |l.ver| then Fail(ReshapeError)
    else if nbrVer == 0 then Fail(DivisionByZero)
    else
      var solSiz := |l.sol| / nbrVer;
      if nbrVer * solSiz != |l.sol| then Fail(ReshapeError)
      else if |l.markers| == 0 then Fail(IndexError)
      else
        var ver := Rows(l.ver, nbrVer, 3);
        var dim := l.markers[0];
        Ok(Mesh(dim, if dim == 3 then Xyz(ver) else Xy(XyOf(ver)),
                Rows(l.tri, nbrTri, 4), Rows(l.tet, nbrTet, 5), Rows(l.edg, nbrEdg, 3), [],
                Rows(l.sol, nbrVer, solSiz), l.solTag, TagIndex(l.solTag, |l.solTag|), l.markers))
  }

  /** read_mesh succeeds exactly when every list fits its width, there is a vertex, and a marker gives the dimension. */
  lemma ReadMeshSucceeds(l: MeshLists)
    ensures ReadMeshSpec(l).Ok? <==>
      |l.tet| % 5 == 0 && |l.tri| % 4 == 0 && |l.edg| % 3 == 0 && |l.ver| % 3 == 0 && |l.ver| >= 3
      && |l.sol| % (|l.ver| / 3) == 0 && |l.markers| > 0
  {
    var nbrVer := |l.ver| / 3;
    if nbrVer > 0 {
      var solSiz := |l.sol| / nbrVer;
      assert nbrVer * solSiz + |l.sol| % nbrVer == |l.sol|;
    }
  }

  /** read_mesh, assembling the dictionary field by field. */
  method ReadMesh(l: MeshLists) returns (r: Result<Mesh>)
    ensures r == ReadMeshSpec(l)
  {
    var nbrTet := |l.tet| / 5;
    var nbrTri := |l.tri| / 4;
    var nbrEdg := |l.edg| / 3;
    var nbrVer := |l.ver| / 3;
    if nbrTet * 5 != |l.tet| || nbrTri * 4 != |l.tri| || nbrEdg * 3 != |l.edg| || nbrVer * 3 != |l.ver| {
      return Fail(ReshapeError);
    }
    var tet := Rows(l.tet, nbrTet, 5);
    var tri := Rows(l.tri, nbrTri, 4);
    var edg := Rows(l.edg, nbrEdg, 3);
    var ver := Rows(l.ver, nbrVer, 3);
    if nbrVer == 0 {
      return Fail(DivisionByZero);
    }
    var solSiz := |l.sol| / nbrVer;
    if nbrVer * solSiz != |l.sol| {
      return Fail(ReshapeError);
    }
    var sol := Rows(l.sol, nbrVer, solSiz);
    if |l.markers| == 0 {
      return Fail(IndexError);
    }
    var dim := l.markers[0];
    var coords := if dim == 3 then Xyz(ver) else Xy(XyOf(ver));
    var ids := IdSolutionTag(l.solTag);
    var mesh := Mesh(dim, coords, [], [], [], [], [], [], map[], []);
    mesh := mesh.(triangles := tri, tetrahedra := tet, edges := edg, corners := [], solution := sol);
    mesh := mesh.(solutionTag := l.solTag, idSolutionTag := ids, markers := l.markers);
    r := Ok(mesh);
  }

  // ---------------------------------------------------------------------
  // write_mesh and write_solution
  // ---------------------------------------------------------------------

  /** What write_mesh hands to the library: flat lists, the markers and the dimension. */
  datatype WriteArgs = WriteArgs(ver: seq<real>, tri: seq<int>, tet: seq<int>, edg: seq<int>,
                                 sol: seq<real>, markers: seq<int>, dim: int)

  /** 2-D coordinates padded with a zero z column. */
  function PadZ(xy: seq<seq<real>>): (v: seq<seq<real>>)
    ensures |v| == |xy| && forall i :: 0 <= i < |xy| ==> v[i] == xy[i] + [0.0]
  {
    seq(|xy|, i requires 0 <= i < |xy| => xy[i] + [0.0])
  }

  /** The vertex rows a mesh writes: xyz as given, xy padded with z = 0. */
  function VertexRows(c: Coords): seq<seq<real>> {
    match c
    case Xyz(v) => v
    case Xy(xy) => PadZ(xy)
  }

  /** The solution write_mesh sends: flattened when there is more than one row, with the second row's width; else nothing. */
  function SolutionToWrite(sol: seq<seq<real>>): Result<seq<real>> {
    if |sol| > 1 then FlattenChecked(sol, |sol[1]|) else Ok([])
  }

  /** write_mesh up to the library call. */
  function WriteMeshSpec(m: Mesh): Result<WriteArgs> {
    var ver := FlattenChecked(VertexRows(m.coords), 3);
    var tri := FlattenChecked(m.triangles, 4);
    var tet := FlattenChecked(m.tetrahedra, 5);
    var edg := FlattenChecked(m.edges, 3);
    var sol := SolutionToWrite(m.solution);
    if ver.Fail? || tri.Fail? || tet.Fail? || edg.Fail? || sol.Fail? then Fail(ReshapeError)
    else Ok(WriteArgs(ver.value, tri.value, tet.value, edg.value, sol.value, m.markers, m.dimension))
  }

  /** Each vertex of a 2-D mesh goes back out with its x and y and a zero z. */
  lemma PadZOfXy(ver: seq<seq<real>>)
    requires Uniform(ver, 3)
    ensures Uniform(PadZ(XyOf(ver)), 3)
    ensures forall i :: 0 <= i < |ver| ==> PadZ(XyOf(ver))[i] == [ver[i][0], ver[i][1], 0.0]
    ensures (forall i :: 0 <= i < |ver| ==> ver[i][2] == 0.0) ==> PadZ(XyOf(ver)) == ver
  {
    if forall i :: 0 <= i < |ver| ==> ver[i][2] == 0.0 {
      forall i | 0 <= i < |ver|
        ensures PadZ(XyOf(ver))[i] == ver[i]
      {
        assert ver[i] == [ver[i][0], ver[i][1], ver[i][2]];
      }
    }
  }

  /** Rows of a list that fits them pass the width check and flatten back to the list. */
  lemma FlattenCheckedRows<T>(flat: seq<T>, n: nat, w: nat)
    requires |flat| == n * w
    ensures FlattenChecked(Rows(flat, n, w), w) == Ok(flat)
  {
    FlattenRows(flat, n, w);
  }

  /** The fields of the mesh read_mesh returns, with the sizes named. */
  lemma ReadMeshFields(l: MeshLists)
    requires ReadMeshSpec(l).Ok?
    ensures var nbrVer := |l.ver| / 3;
      && nbrVer > 0 && |l.tri| == (|l.tri| / 4) * 4 && |l.tet| == (|l.tet| / 5) * 5 && |l.edg| == (|l.edg| / 3) * 3
      && |l.ver| == nbrVer * 3 && |l.sol| == nbrVer * (|l.sol| / nbrVer) && |l.markers| > 0
      && var m := ReadMeshSpec(l).value;
      && m.triangles == Rows(l.tri, |l.tri| / 4, 4) && m.tetrahedra == Rows(l.tet, |l.tet| / 5, 5)
      && m.edges == Rows(l.edg, |l.edg| / 3, 3) && m.solution == Rows(l.sol, nbrVer, |l.sol| / nbrVer)
      && m.markers == l.markers && m.dimension == l.markers[0]
      && m.coords == (if l.markers[0] == 3 then Xyz(Rows(l.ver, nbrVer, 3)) else Xy(XyOf(Rows(l.ver, nbrVer, 3))))
  {
  }

  /**
   * Writing a mesh just read hands back the lists it was read from: in
   * 3-D the vertices unchanged, otherwise with z = 0; the solution only
   * when there is more than one vertex, nothing otherwise.
   */
  lemma ReadThenWrite(l: MeshLists)
    requires ReadMeshSpec(l).Ok?
    ensures WriteMeshSpec(ReadMeshSpec(l).value).Ok?
    ensures var w := WriteMeshSpec(ReadMeshSpec(l).value).value;
      && w.tri == l.tri && w.tet == l.tet && w.edg == l.edg && w.markers == l.markers && w.dim == l.markers[0]
      && (l.markers[0] == 3 ==> w.ver == l.ver)
      && (l.markers[0] != 3 ==> w.ver == Flatten(PadZ(XyOf(Rows(l.ver, |l.ver| / 3, 3)))))
      && (|l.ver| / 3 > 1 ==> w.sol == l.sol)
      && (|l.ver| / 3 == 1 ==> w.sol == [])
  {
    ReadMeshFields(l);
    var m := ReadMeshSpec(l).value;
    var nbrVer := |l.ver| / 3;
    var ver := Rows(l.ver, nbrVer, 3);
    FlattenCheckedRows(l.tri, |l.tri| / 4, 4);
    FlattenCheckedRows(l.tet, |l.tet| / 5, 5);
    FlattenCheckedRows(l.edg, |l.edg| / 3, 3);
    FlattenCheckedRows(l.ver, nbrVer, 3);
    PadZOfXy(ver);
    assert FlattenChecked(VertexRows(m.coords), 3).Ok?;
    if nbrVer > 1 {
      FlattenCheckedRows(l.sol, nbrVer, |l.sol| / nbrVer);
      assert SolutionToWrite(m.solution) == Ok(l.sol);
    } else {
      assert SolutionToWrite(m.solution) == Ok([]);
    }
  }

  /** What write_solution hands to the library. */
  datatype SolutionArgs = SolutionArgs(ver: seq<real>, sol: seq<real>, tags: seq<string>, nbrVer: nat, dim: int)

  /** write_solution up to the library call: as write_mesh, but it stops when there is at most one solution row. */
  function WriteSolutionSpec(m: Mesh): (r: Result<SolutionArgs>)
    ensures |m.solution| <= 1 ==> r.Fail?
    ensures |m.solution| <= 1 && Uniform(VertexRows(m.coords), 3) ==> r == Fail(NoSolution)
    ensures r.Ok? ==> r.value.nbrVer == |VertexRows(m.coords)| && |r.value.sol| == |m.solution| * |m.solution[1]|
  {
    var rows := VertexRows(m.coords);
    var ver := FlattenChecked(rows, 3);
    if ver.Fail? then Fail(ReshapeError)
    else if |m.solution| <= 1 then Fail(NoSolution)
    else
      var sol := FlattenChecked(m.solution, |m.solution[1]|);
      if sol.Fail? then Fail(ReshapeError)
      else
        FlattenLength(m.solution, |m.solution[1]|);
        Ok(SolutionArgs(ver.value, sol.value, m.solutionTag, |rows|, m.dimension))
  }

  // ---------------------------------------------------------------------
  // create_sensor
  // ---------------------------------------------------------------------

  /** Column c of the solution, one value per vertex: np.array(Sol)[:, c]. */
  function SolColumn(sol: seq<seq<real>>, c: nat): (col: seq<real>)
    requires forall i :: 0 <= i < |sol| ==> c < |sol[i]|
    ensures |col| == |sol| && forall i :: 0 <= i < |sol| ==> col[i] == sol[i][c]
  {
    seq(|sol|, i requires 0 <= i < |sol| => sol[i][c])
  }

  /** The column a tag names exists: the tag is in the map and the solution is a non-empty table wide enough. */
  predicate HasColumn(m: Mesh, tag: string) {
    tag in m.idSolutionTag && |m.solution| > 0 && Uniform(m.solution, |m.solution[0]|)
    && m.idSolutionTag[tag] < |m.solution[0]|
  }

  /** The sensor dictionary: its tags, the coordinates and dimension of the mesh, one row per vertex. */
  /**
   * create_sensor first pads xy rows with a zero z and reshapes the vertex
   * rows into 3 values each; that succeeds only for rows of three values
   * (xyz) or two (xy).
   */
  predicate CoordsReshapable(c: Coords) {
    match c
    case Xyz(xyz) => Uniform(xyz, 3)
    case Xy(xy) => Uniform(xy, 2)
  }

  datatype Sensor = Sensor(solutionTag: seq<string>, coords: Coords, dimension: int, solution: seq<seq<real>>)

  /**
   * create_sensor: the vertex rows must reshape to three values each
   * before anything else; then MACH gives the Mach column as rows of one value,
   * headed "Mach"; PRES the Pressure column, headed "Pres"; MACH_PRES the
   * pairs (Mach, Pressure); any other name stops the script. A tag missing
   * from id_solution_tag raises KeyError; a solution table that is empty,
   * ragged or too narrow for the column raises numpy's IndexError.
   */
  function CreateSensor(m: Mesh, sensor: string): (r: Result<Sensor>)
    ensures r.Ok? ==> r.value.coords == m.coords && r.value.dimension == m.dimension && |r.value.solution| == |m.solution|
    ensures !CoordsReshapable(m.coords) ==> r == Fail(ReshapeError)
    ensures CoordsReshapable(m.coords) && sensor != "MACH" && sensor != "PRES" && sensor != "MACH_PRES" ==> r == Fail(UnknownSensor)
    ensures sensor == "MACH" ==> (r.Ok? <==> CoordsReshapable(m.coords) && HasColumn(m, "Mach"))
    ensures sensor == "PRES" ==> (r.Ok? <==> CoordsReshapable(m.coords) && HasColumn(m, "Pressure"))
    ensures sensor == "MACH_PRES" ==> (r.Ok? <==> CoordsReshapable(m.coords) && HasColumn(m, "Mach") && HasColumn(m, "Pressure"))
    ensures CoordsReshapable(m.coords) && sensor == "MACH" && r.Fail? ==> r.error == (if "Mach" in m.idSolutionTag then IndexError else KeyError)
    ensures CoordsReshapable(m.coords) && sensor == "PRES" && r.Fail? ==> r.error == (if "Pressure" in m.idSolutionTag then IndexError else KeyError)
    ensures CoordsReshapable(m.coords) && sensor == "MACH_PRES" && r.Fail? ==>
      r.error == (if "Mach" in m.idSolutionTag && "Pressure" in m.idSolutionTag then IndexError else KeyError)
    ensures r.Ok? && sensor == "MACH" ==> (
      && r.value.solutionTag == ["Mach"]
      && forall i :: 0 <= i < |m.solution| ==> r.value.solution[i] == [m.solution[i][m.idSolutionTag["Mach"]]])
    ensures r.Ok? && sensor == "PRES" ==> (
      && r.value.solutionTag == ["Pres"]
      && forall i :: 0 <= i < |m.solution| ==> r.value.solution[i] == [m.solution[i][m.idSolutionTag["Pressure"]]])
  {
    if !CoordsReshapable(m.coords) then Fail(ReshapeError)
    else if sensor == "MACH" then
      if "Mach" !in m.idSolutionTag then Fail(KeyError)
      else if !HasColumn(m, "Mach") then Fail(IndexError)
      else
        var col := SolColumn(m.solution, m.idSolutionTag["Mach"]);
        SingleColumnRows(col, |col|);
        Ok(Sensor(["Mach"], m.coords, m.dimension, Rows(col, |col|, 1)))
    else if sensor == "PRES" then
      if "Pressure" !in m.idSolutionTag then Fail(KeyError)
      else if !HasColumn(m, "Pressure") then Fail(IndexError)
      else
        var col := SolColumn(m.solution, m.idSolutionTag["Pressure"]);
        SingleColumnRows(col, |col|);
        Ok(Sensor(["Pres"], m.coords, m.dimension, Rows(col, |col|, 1)))
    else if sensor == "MACH_PRES" then
      if "Pressure" !in m.idSolutionTag || "Mach" !in m.idSolutionTag then Fail(KeyError)
      else if !HasColumn(m, "Mach") || !HasColumn(m, "Pressure") then Fail(IndexError)
      else
        var mach := SolColumn(m.solution, m.idSolutionTag["Mach"]);
        var pres := SolColumn(m.solution, m.idSolutionTag["Pressure"]);
        Ok(Sensor(["Mach", "Pres"], m.coords, m.dimension, seq(|mach|, i requires 0 <= i < |mach| => [mach[i], pres[i]])))
    else Fail(UnknownSensor)
  }

  /**
   * A mesh as read_mesh returns it always passes create_sensor's vertex
   * reshape, so on such a mesh only the sensor name and the solution
   * tags decide the outcome.
   */
  lemma ReadMeshGivesReshapableCoords(l: MeshLists)
    requires ReadMeshSpec(l).Ok?
    ensures CoordsReshapable(ReadMeshSpec(l).value.coords)
    ensures CreateSensor(ReadMeshSpec(l).value, "MACH").Ok? <==> HasColumn(ReadMeshSpec(l).value, "Mach")
  {
  }

  /** A reshape into rows of one value holds the list's values in order. */
  lemma {:induction false} SingleColumnRows(col: seq<real>, n: nat)
    requires |col| == n
    ensures forall i :: 0 <= i < n ==> Rows(col, n, 1)[i] == [col[i]]
  {
    if n > 0 {
      SingleColumnRows(col[1..], n - 1);
      assert Rows(col, n, 1) == [col[..1]] + Rows(col[1..], n - 1, 1);
      assert col[..1] == [col[0]];
    }
  }

  /** The MACH_PRES sensor is the MACH sensor's row followed by the PRES sensor's row, vertex by vertex. */
  lemma MachPresJoinsMachAndPres(m: Mesh, i: nat)
    requires CreateSensor(m, "MACH_PRES").Ok? && i < |m.solution|
    ensures CreateSensor(m, "MACH").Ok? && CreateSensor(m, "PRES").Ok?
    ensures CreateSensor(m, "MACH_PRES").value.solution[i]
      == CreateSensor(m, "MACH").value.solution[i] + CreateSensor(m, "PRES").value.solution[i]
  {
    SingleColumnRows(SolColumn(m.solution, m.idSolutionTag["Mach"]), |m.solution|);
    SingleColumnRows(SolColumn(m.solution, m.idSolutionTag["Pressure"]), |m.solution|);
  }

  // ---------------------------------------------------------------------
  // amg_call
  // ---------------------------------------------------------------------

  /** The remesher options amg_call reads; the numbers come already formatted. */
  datatype AmgConfig = AmgConfig(meshIn: string, solIn: string, size: string, hgrad: string, hmin: string,
                                 hmax: string, meshOut: string, itpSolIn: string, adapSource: string,
                                 adapBack: string, amgLog: string)

  /** The fixed part of the command, with the whitespace the continued string literal carries. */
  function BaseCommand(c: AmgConfig): string {
    "amg -in " + c.meshIn + " -sol " + c.solIn + " -p 2 "
    + "         -c " + c.size + " -hgrad " + c.hgrad + " -hmin " + c.hmin + " -hmax " + c.hmax + " -out " + c.meshOut + " "
    + "        -itp  " + c.itpSolIn + "  -nordg "
  }

  /** An optional flag: " -flag value " when the value is non-empty, nothing otherwise. */
  function OptionalFlag(flag: string, value: string): (s: string)
    ensures value == "" <==> s == ""
    ensures value != "" ==> s == " -" + flag + " " + value + " "
  {
    if value != "" then " -" + flag + " " + value + " " else ""
  }

  /** amg_call's command: the base, then -source and -back when set, then the redirection to the log. */
  method AmgCall(c: AmgConfig) returns (cmd: string)
    ensures cmd == BaseCommand(c) + OptionalFlag("source", c.adapSource) + OptionalFlag("back", c.adapBack) + " > " + c.amgLog
    ensures c.adapSource == "" && c.adapBack == "" ==> cmd == BaseCommand(c) + " > " + c.amgLog
  {
    cmd := "";
    cmd := BaseCommand(c);
    if c.adapSource != "" {
      cmd := cmd + " -source " + c.adapSource + " ";
    }
    assert cmd == BaseCommand(c) + OptionalFlag("source", c.adapSource);
    ghost var withSource := cmd;
    if c.adapBack != "" {
      cmd := cmd + " -back " + c.adapBack + " ";
    }
    assert cmd == withSource + OptionalFlag("back", c.adapBack);
    cmd := cmd + " > " + c.amgLog;
  }

}
