/**
 * The Inria (libMeshb) output of COutput: the derivation of the *.solb
 * restart name from the configured file name, the layout of the output
 * columns (TagBc), the two solution files of WriteInriaOutputs, and the
 * boundary part of SetInriaMesh (the surface-point list, the element
 * counts and the emitted edge, triangle and quadrilateral records). The
 * libMeshb calls themselves are replaced by the records they would write.
 */
module InriaOutput {

  datatype Option<T> = None | Some(value: T)

  // ---------------------------------------------------------------------
  // C strings and strstr
  // ---------------------------------------------------------------------

  const NUL: char := '\0'

  /** The C string held by a char buffer: everything before the first NUL. */
  function CString(s: seq<char>): (r: seq<char>)
    ensures |r| <= |s| && r == s[..|r|] && NUL !in r
  {
    if |s| == 0 || s[0] == NUL then [] else [s[0]] + CString(s[1..])
  }

  /** A buffer whose first NUL is at n holds the C string s[..n]. */
  lemma {:induction false} CStringUpTo(s: seq<char>, n: nat)
    requires n < |s| && s[n] == NUL && NUL !in s[..n]
    ensures CString(s) == s[..n]
  {
    if n > 0 {
      assert s[0] == s[..n][0];
      assert s[1..][..n - 1] == s[..n][1..];
      CStringUpTo(s[1..], n - 1);
    }
  }

  /** pat occurs in s at index j. */
  predicate OccursAt(s: seq<char>, pat: seq<char>, j: nat) {
    j + |pat| <= |s| && s[j..j + |pat|] == pat
  }

  ghost predicate Contains(s: seq<char>, pat: seq<char>) {
    exists j: nat :: OccursAt(s, pat, j)
  }

  /** The first occurrence of pat in s at or after i. */
  function FindFrom(s: seq<char>, pat: seq<char>, i: nat): (r: Option<nat>)
    decreases |s| - i
    ensures r.Some? ==> i <= r.value && OccursAt(s, pat, r.value)
    ensures r.Some? ==> forall j: nat :: i <= j < r.value ==> !OccursAt(s, pat, j)
    ensures r.None? ==> forall j: nat :: i <= j ==> !OccursAt(s, pat, j)
  {
    if i + |pat| > |s| then None
    else if s[i..i + |pat|] == pat then Some(i)
    else FindFrom(s, pat, i + 1)
  }

  /** strstr: the index of the first occurrence, or none. */
  function StrStr(s: seq<char>, pat: seq<char>): (r: Option<nat>)
    ensures r.Some? <==> Contains(s, pat)
    ensures r.Some? ==> OccursAt(s, pat, r.value) && forall j: nat :: j < r.value ==> !OccursAt(s, pat, j)
  {
    FindFrom(s, pat, 0)
  }

  /** s cut at the first occurrence of pat, if any. */
  function TruncateAt(s: seq<char>, pat: seq<char>): seq<char> {
    match StrStr(s, pat)
    case None => s
    case Some(i) => s[..i]
  }

  /** A prefix of a string without pat has no pat either. */
  lemma PrefixKeepsAbsence(s: seq<char>, pat: seq<char>, n: nat)
    requires n <= |s| && !Contains(s, pat)
    ensures !Contains(s[..n], pat)
  {
    forall j: nat | OccursAt(s[..n], pat, j)
      ensures false
    {
      assert s[..n][j..j + |pat|] == s[j..j + |pat|];
      assert OccursAt(s, pat, j);
    }
  }

  /** After the cut, pat no longer occurs. */
  lemma TruncateRemoves(s: seq<char>, pat: seq<char>)
    requires |pat| > 0
    ensures !Contains(TruncateAt(s, pat), pat)
  {
    match StrStr(s, pat)
    case None =>
    case Some(i) =>
      forall j: nat | OccursAt(s[..i], pat, j)
        ensures false
      {
        assert s[..i][j..j + |pat|] == s[j..j + |pat|];
        assert OccursAt(s, pat, j) && j < i;
      }
  }

  // ---------------------------------------------------------------------
  // The *.solb name
  // ---------------------------------------------------------------------

  const DAT: seq<char> := ".dat"
  const SOLB: seq<char> := ".solb"

  /** The name cut at the first ".dat", then at the first ".solb", then ".solb" appended. */
  function SolbName(filename: seq<char>): seq<char> {
    TruncateAt(TruncateAt(filename, DAT), SOLB) + SOLB
  }

  /** The base SolbName keeps: neither ".dat" nor ".solb" occurs in it. */
  lemma SolbBaseIsClean(filename: seq<char>)
    ensures var base := TruncateAt(TruncateAt(filename, DAT), SOLB);
            SolbName(filename) == base + SOLB && !Contains(base, DAT) && !Contains(base, SOLB)
  {
    var t := TruncateAt(filename, DAT);
    TruncateRemoves(filename, DAT);
    TruncateRemoves(t, SOLB);
    match StrStr(t, SOLB)
    case None =>
    case Some(i) => PrefixKeepsAbsence(t, DAT, i);
  }

  /** No ".dat" starts within the last three characters of b or inside the ".solb" after it. */
  lemma NoDatStraddles(b: seq<char>, j: nat)
    requires |b| < j + 4
    ensures !OccursAt(b + SOLB, DAT, j)
  {
    var s := b + SOLB;
    if j + 4 <= |s| {
      var w := s[j..j + 4];
      if j < |b| {
        assert w[|b| - j] == s[|b|] == '.' && DAT[|b| - j] != '.';
      } else if j == |b| {
        assert w[1] == 's' && DAT[1] == 'd';
      } else {
        assert w[0] == s[j] != '.';
      }
    }
  }

  /** ".dat" cannot start in a clean base and run into the ".solb" after it. */
  lemma NoDatAcross(b: seq<char>)
    requires !Contains(b, DAT)
    ensures !Contains(b + SOLB, DAT)
  {
    var s := b + SOLB;
    forall j: nat
      ensures !OccursAt(s, DAT, j)
    {
      if j + 4 <= |b| {
        assert s[j..j + 4] == b[j..j + 4];
        assert !OccursAt(b, DAT, j);
      } else {
        NoDatStraddles(b, j);
      }
    }
  }

  /** No ".solb" starts within the last four characters of b. */
  lemma NoSolbStraddles(b: seq<char>, j: nat)
    requires j < |b| < j + 5
    ensures !OccursAt(b + SOLB, SOLB, j)
  {
    var s := b + SOLB;
    var w := s[j..j + 5];
    assert w[|b| - j] == s[|b|] == '.' && SOLB[|b| - j] != '.';
  }

  /** In a clean base followed by ".solb", the first ".solb" is the appended one. */
  lemma FirstSolbIsAppended(b: seq<char>)
    requires !Contains(b, SOLB)
    ensures StrStr(b + SOLB, SOLB) == Some(|b|)
  {
    var s := b + SOLB;
    assert OccursAt(s, SOLB, |b|) by { assert s[|b|..|b| + 5] == SOLB; }
    forall j: nat | j < |b|
      ensures !OccursAt(s, SOLB, j)
    {
      if j + 5 <= |b| {
        assert s[j..j + 5] == b[j..j + 5];
        assert !OccursAt(b, SOLB, j);
      } else {
        NoSolbStraddles(b, j);
      }
    }
  }

  /** The name always ends in ".solb". */
  lemma SolbNameEndsInSolb(filename: seq<char>)
    ensures |SolbName(filename)| >= 5 && SolbName(filename)[|SolbName(filename)| - 5..] == SOLB
  {
  }

  /** Deriving the name from a derived name changes nothing. */
  lemma SolbNameIdempotent(filename: seq<char>)
    ensures SolbName(SolbName(filename)) == SolbName(filename)
  {
    SolbBaseIsClean(filename);
    var b := TruncateAt(TruncateAt(filename, DAT), SOLB);
    NoDatAcross(b);
    assert TruncateAt(b + SOLB, DAT) == b + SOLB;
    FirstSolbIsAppended(b);
    assert (b + SOLB)[..|b|] == b;
  }

  /**
   * SetInriaRestart's OutNam: the name is copied into the 1024-char BasNam
   * buffer, a NUL is written at the first ".dat" and then at the first
   * ".solb" of what remains, and ".solb" is appended.
   */
  method SolbOutputName(filename: seq<char>) returns (outNam: seq<char>)
    requires |filename| < 1024 && NUL !in filename
    ensures outNam == SolbName(filename)
  {
    var basNam := new char[1024];
    for k := 0 to |filename|
      invariant basNam[..k] == filename[..k]
    {
      basNam[k] := filename[k];
    }
    basNam[|filename|] := NUL;
    assert basNam[..|filename|] == filename;
    CStringUpTo(basNam[..], |filename|);
    CutAt(basNam, DAT, filename);
    CutAt(basNam, SOLB, TruncateAt(filename, DAT));
    outNam := CString(basNam[..]) + SOLB;
  }

  /** *strstr(BasNam, pat) = '\0' when pat occurs: the C string in the buffer is cut at its first pat. */
  method CutAt(basNam: array<char>, pat: seq<char>, ghost cur: seq<char>)
    requires CString(basNam[..]) == cur && |cur| < basNam.Length
    modifies basNam
    ensures CString(basNam[..]) == TruncateAt(cur, pat)
  {
    var ptr := StrStr(CString(basNam[..]), pat);
    if ptr.Some? {
      basNam[ptr.value] := NUL;
      assert basNam[..ptr.value] == cur[..ptr.value];
      CStringUpTo(basNam[..], ptr.value);
    }
  }

  /** Which restart name the configuration supplies. */
  datatype RestartKind = AdjointRestart | FemRestart | FlowRestart

  /** The configured names SetInriaRestart starts from. */
  datatype RestartNames = RestartNames(adjoint: seq<char>, fem: seq<char>, flow: seq<char>)

  /** The adjoint name carries the objective-function extension; the others are used as given. */
  function RestartFileName(kind: RestartKind, names: RestartNames, objFuncExtension: seq<char> -> seq<char>): seq<char> {
    match kind
    case AdjointRestart => objFuncExtension(names.adjoint)
    case FemRestart => names.fem
    case FlowRestart => names.flow
  }

  /**
   * SetInriaRestart's naming: OutNam, the file actually opened, is built
   * before the zone and iteration suffixes are appended to `filename`,
   * so it depends on neither; the suffixed name is computed and unused.
   */
  method InriaRestartNames(kind: RestartKind, names: RestartNames, objFuncExtension: seq<char> -> seq<char>,
                           nZone: nat, zoneSuffix: seq<char> -> seq<char>,
                           writesUnsteady: bool, unsteadySuffix: seq<char> -> seq<char>)
    returns (outNam: seq<char>, filename: seq<char>)
    requires var f := RestartFileName(kind, names, objFuncExtension); |f| < 1024 && NUL !in f
    ensures outNam == SolbName(RestartFileName(kind, names, objFuncExtension))
  {
    filename := RestartFileName(kind, names, objFuncExtension);
    outNam := SolbOutputName(filename);
    if nZone > 1 {
      filename := zoneSuffix(filename);
    }
    if writesUnsteady {
      filename := unsteadySuffix(filename);
    }
  }

  // ---------------------------------------------------------------------
  // TagBc: where pressure, temperature, Mach and density sit in Data
  // ---------------------------------------------------------------------

  /** Kind_Solver as far as the layout distinguishes it. */
  datatype OutputSolver = Euler | NavierStokes | Rans | OtherOutputSolver

  /** The configuration switches the layout reads. */
  datatype LayoutOptions = LayoutOptions(lowMemory: bool, wrtLimiters: bool, wrtResiduals: bool, freeSurface: bool)

  /** TagBc: the column of each quantity, none where the source leaves the slot unset. */
  datatype Tags = Tags(mach: Option<nat>, temp: Option<nat>, pres: Option<nat>, dens: Option<nat>)

  /** The column after the conserved variables and, unless low-memory, the limiter and residual blocks. */
  function FirstExtraColumn(nVarConsv: nat, o: LayoutOptions): nat {
    nVarConsv
    + (if !o.lowMemory && o.wrtLimiters then nVarConsv else 0)
    + (if !o.lowMemory && o.wrtResiduals then nVarConsv else 0)
  }

  /** The compressible flow solvers, which write pressure, temperature and Mach. */
  predicate WritesFlowColumns(k: OutputSolver) {
    k == Euler || k == NavierStokes || k == Rans
  }

  /**
   * The TagBc computation of WriteInriaOutputs: idxVar starts after the
   * conserved variables, skips the limiter and residual blocks when they
   * are written, then takes a density slot for a free surface and four
   * slots (pressure, temperature, one unnamed, Mach) for a flow solver.
   */
  method TagBcLayout(nVarConsv: nat, o: LayoutOptions, kind: OutputSolver) returns (tags: Tags, idxVar: nat)
    ensures o.lowMemory ==> tags == Tags(None, None, None, None) && idxVar == nVarConsv
    ensures tags.dens.Some? <==> !o.lowMemory && o.freeSurface
    ensures tags.dens.Some? ==> tags.dens.value == FirstExtraColumn(nVarConsv, o)
    ensures tags.pres.Some? <==> !o.lowMemory && WritesFlowColumns(kind)
    ensures tags.temp.Some? <==> tags.pres.Some?
    ensures tags.mach.Some? <==> tags.pres.Some?
    ensures tags.pres.Some? ==>
      && tags.pres.value == FirstExtraColumn(nVarConsv, o) + (if o.freeSurface then 1 else 0)
      && tags.temp.value == tags.pres.value + 1
      && tags.mach.value == tags.pres.value + 3
      && idxVar == tags.pres.value + 4
    ensures !o.lowMemory ==>
      idxVar == FirstExtraColumn(nVarConsv, o) + (if o.freeSurface then 1 else 0) + (if WritesFlowColumns(kind) then 4 else 0)
  {
    tags := Tags(None, None, None, None);
    idxVar := 0;
    idxVar := idxVar + nVarConsv;
    if !o.lowMemory {
      if o.wrtLimiters {
        idxVar := idxVar + nVarConsv;
      }
      if o.wrtResiduals {
        idxVar := idxVar + nVarConsv;
      }
      if o.freeSurface {
        tags := tags.(dens := Some(idxVar));
        idxVar := idxVar + 1;
      }
      if kind == Euler || kind == NavierStokes || kind == Rans {
        tags := tags.(pres := Some(idxVar), temp := Some(idxVar + 1), mach := Some(idxVar + 3));
        idxVar := idxVar + 4;
      }
    }
  }

  // ---------------------------------------------------------------------
  // WriteInriaOutputs
  // ---------------------------------------------------------------------

  /** A libMeshb solution file: its name, the SolAtVertices keywords set on it (npoin, NbrVar), its lines. */
  datatype SolFile = SolFile(name: seq<char>, keywords: seq<(nat, nat)>, lines: seq<real>)

  /** Column c of Data for the first npoin points. */
  function Column(data: seq<seq<real>>, c: nat, npoin: nat): (r: seq<real>)
    requires c < |data| && npoin <= |data[c]|
    ensures |r| == npoin && forall p :: 0 <= p < npoin ==> r[p] == data[c][p]
  {
    data[c][..npoin]
  }

  /**
   * The per-point Mach loop as written: for (iVar = 0; iVar < nVar_Total;
   * iVar++) { iVar = TagBc[bcMach]; write; }. The number of lines it
   * writes for one point, starting at iVar, or none when `fuel` passes of
   * the loop do not reach the exit.
   */
  function MachLoopAsWritten(iVar: nat, nVarTotal: nat, mach: nat, fuel: nat): Option<nat>
    decreases fuel
  {
    if fuel == 0 then None
    else if iVar < nVarTotal then
      match MachLoopAsWritten(mach + 1, nVarTotal, mach, fuel - 1)
      case None => None
      case Some(n) => Some(n + 1)
    else Some(0)
  }

  /** When Mach is not the last column the loop resets its counter forever: no fuel is enough. */
  lemma {:induction false} MachLoopNeverEnds(nVarTotal: nat, mach: nat, fuel: nat)
    requires mach + 1 < nVarTotal
    ensures MachLoopAsWritten(0, nVarTotal, mach, fuel) == None
    ensures MachLoopAsWritten(mach + 1, nVarTotal, mach, fuel) == None
  {
    if fuel > 0 {
      MachLoopNeverEnds(nVarTotal, mach, fuel - 1);
    }
  }

  /** When Mach is the last column the loop writes one line and stops. */
  lemma MachLoopOnceWhenLast(nVarTotal: nat, mach: nat)
    requires nVarTotal == mach + 1
    ensures MachLoopAsWritten(0, nVarTotal, mach, 2) == Some(1)
  {
  }

  /**
   * WriteInriaOutputs, with the Mach loop writing one line per point: the
   * SolAtVertices keyword meant for mach.solb is set on pres.solb, which so
   * receives it twice, and mach.solb none; the lines are the Mach and the
   * pressure columns of Data.
   */
  method WriteInriaOutputs(data: seq<seq<real>>, tags: Tags, npoin: nat) returns (mach: SolFile, pres: SolFile)
    requires tags.mach.Some? && tags.mach.value < |data| && npoin <= |data[tags.mach.value]|
    requires tags.pres.Some? && tags.pres.value < |data| && npoin <= |data[tags.pres.value]|
    ensures mach == SolFile("mach.solb", [], Column(data, tags.mach.value, npoin))
    ensures pres == SolFile("pres.solb", [(npoin, 1), (npoin, 1)], Column(data, tags.pres.value, npoin))
  {
    mach := SolFile("mach.solb", [], []);
    pres := SolFile("pres.solb", [], []);
    var nbrVar := 1;
    pres := pres.(keywords := pres.keywords + [(npoin, nbrVar)]);
    var c := tags.mach.value;
    for p := 0 to npoin
      invariant mach.name == "mach.solb" && mach.keywords == []
      invariant mach.lines == data[c][..p]
    {
      mach := mach.(lines := mach.lines + [data[c][p]]);
      assert data[c][..p + 1] == data[c][..p] + [data[c][p]];
    }
    pres := pres.(keywords := pres.keywords + [(npoin, nbrVar)]);
    c := tags.pres.value;
    for p := 0 to npoin
      invariant pres.name == "pres.solb" && pres.keywords == [(npoin, 1), (npoin, 1)]
      invariant pres.lines == data[c][..p]
    {
      pres := pres.(lines := pres.lines + [data[c][p]]);
      assert data[c][..p + 1] == data[c][..p] + [data[c][p]];
    }
  }

  // ---------------------------------------------------------------------
  // SetInriaMesh: surface points and boundary elements
  // ---------------------------------------------------------------------

  /** The boundary points in ascending order. */
  function SurfacePoints(boundary: seq<bool>, n: nat): (ps: seq<nat>)
    requires n <= |boundary|
    ensures |ps| <= n
    ensures forall k :: 0 <= k < |ps| ==> ps[k] < n && boundary[ps[k]]
  {
    if n == 0 then []
    else if boundary[n - 1] then SurfacePoints(boundary, n - 1) + [n - 1]
    else SurfacePoints(boundary, n - 1)
  }

  /** The surface list is strictly increasing and holds exactly the boundary points. */
  lemma {:induction false} SurfacePointsExact(boundary: seq<bool>, n: nat)
    requires n <= |boundary|
    ensures forall k, l :: 0 <= k < l < |SurfacePoints(boundary, n)| ==> SurfacePoints(boundary, n)[k] < SurfacePoints(boundary, n)[l]
    ensures forall p :: 0 <= p < n && boundary[p] ==> p in SurfacePoints(boundary, n)
  {
    if n > 0 {
      SurfacePointsExact(boundary, n - 1);
    }
  }

  /**
   * The PointSurface loop: the boundary points are packed, in order, at
   * the front of an array of nPoint entries whose remaining entries keep
   * whatever the allocation held (`stale`).
   */
  method PackSurfacePoints(boundary: seq<bool>, stale: seq<nat>) returns (pointSurface: array<nat>, nPointSurface: nat)
    requires |stale| == |boundary|
    ensures fresh(pointSurface) && pointSurface.Length == |boundary|
    ensures nPointSurface == |SurfacePoints(boundary, |boundary|)|
    ensures pointSurface[..nPointSurface] == SurfacePoints(boundary, |boundary|)
    ensures pointSurface[nPointSurface..] == stale[nPointSurface..]
  {
    pointSurface := new nat[|boundary|](i requires 0 <= i < |boundary| => stale[i]);
    nPointSurface := 0;
    for p := 0 to |boundary|
      invariant nPointSurface == |SurfacePoints(boundary, p)| <= p
      invariant pointSurface[..nPointSurface] == SurfacePoints(boundary, p)
      invariant pointSurface[nPointSurface..] == stale[nPointSurface..]
    {
      if boundary[p] {
        pointSurface[nPointSurface] := p;
        nPointSurface := nPointSurface + 1;
      }
    }
  }

  /** The VTK type of a boundary element. */
  datatype VtkType = LineVtk | TriangleVtk | QuadrilateralVtk | OtherVtk

  datatype BoundElem = BoundElem(vtk: VtkType, nodes: seq<nat>)

  /** The libMeshb keywords of the boundary section. */
  datatype MeshKeyword = Edges | Triangles | Quadrilaterals

  /** A GmfSetKwd (keyword, count) or a GmfSetLin (keyword, integers) record of the mesh file. */
  datatype MeshRecord = Kwd(keyword: MeshKeyword, count: nat) | Lin(keyword: MeshKeyword, ints: seq<nat>)

  /** The node count each VTK type needs. */
  function NodesOf(t: VtkType): nat {
    match t
    case LineVtk => 2
    case TriangleVtk => 3
    case QuadrilateralVtk => 4
    case OtherVtk => 0
  }

  /** Every boundary element has the nodes its type reads, all points of the mesh. */
  predicate ValidBound(bound: seq<seq<BoundElem>>, nPoint: nat) {
    forall m, k :: 0 <= m < |bound| && 0 <= k < |bound[m]| ==>
      && NodesOf(bound[m][k].vtk) <= |bound[m][k].nodes|
      && (forall i :: 0 <= i < |bound[m][k].nodes| ==> bound[m][k].nodes[i] < nPoint)
  }

  /** The elements of type t among the first k of a marker. */
  function CountIn(es: seq<BoundElem>, t: VtkType, k: nat): nat
    requires k <= |es|
  {
    if k == 0 then 0 else CountIn(es, t, k - 1) + (if es[k - 1].vtk == t then 1 else 0)
  }

  /** The elements of type t over the first m markers. */
  function CountAll(bound: seq<seq<BoundElem>>, t: VtkType, m: nat): nat
    requires m <= |bound|
  {
    if m == 0 then 0 else CountAll(bound, t, m - 1) + CountIn(bound[m - 1], t, |bound[m - 1]|)
  }

  /**
   * The record written for element b of marker iMarker: edges and
   * quadrilaterals with their 1-based nodes, triangles with PointSurface of
   * their nodes plus one; quadrilaterals under the Triangles keyword.
   */
  function Record(b: BoundElem, iMarker: nat, pointSurface: seq<nat>): MeshRecord
    requires NodesOf(b.vtk) <= |b.nodes| && forall i :: 0 <= i < |b.nodes| ==> b.nodes[i] < |pointSurface|
  {
    match b.vtk
    case LineVtk => Lin(Edges, [b.nodes[0] + 1, b.nodes[1] + 1, iMarker])
    case TriangleVtk =>
      Lin(Triangles, [pointSurface[b.nodes[0]] + 1, pointSurface[b.nodes[1]] + 1, pointSurface[b.nodes[2]] + 1, iMarker])
    case QuadrilateralVtk => Lin(Triangles, [b.nodes[0] + 1, b.nodes[1] + 1, b.nodes[2] + 1, b.nodes[3] + 1, iMarker])
    case OtherVtk => Lin(Edges, [])
  }

  /** The records of the elements of type t among the first k of marker iMarker. */
  function EmitIn(es: seq<BoundElem>, iMarker: nat, t: VtkType, ps: seq<nat>, k: nat): seq<MeshRecord>
    requires k <= |es|
    requires forall j :: 0 <= j < |es| ==> NodesOf(es[j].vtk) <= |es[j].nodes| && forall i :: 0 <= i < |es[j].nodes| ==> es[j].nodes[i] < |ps|
  {
    if k == 0 then []
    else EmitIn(es, iMarker, t, ps, k - 1) + (if es[k - 1].vtk == t then [Record(es[k - 1], iMarker, ps)] else [])
  }

  function EmitAll(bound: seq<seq<BoundElem>>, t: VtkType, ps: seq<nat>, m: nat): seq<MeshRecord>
    requires m <= |bound| && ValidBound(bound, |ps|)
  {
    if m == 0 then [] else EmitAll(bound, t, ps, m - 1) + EmitIn(bound[m - 1], m - 1, t, ps, |bound[m - 1]|)
  }

  /** As many records are emitted as elements were counted. */
  lemma {:induction false} EmitInCount(es: seq<BoundElem>, iMarker: nat, t: VtkType, ps: seq<nat>, k: nat)
    requires k <= |es|
    requires forall j :: 0 <= j < |es| ==> NodesOf(es[j].vtk) <= |es[j].nodes| && forall i :: 0 <= i < |es[j].nodes| ==> es[j].nodes[i] < |ps|
    ensures |EmitIn(es, iMarker, t, ps, k)| == CountIn(es, t, k)
  {
    if k > 0 {
      EmitInCount(es, iMarker, t, ps, k - 1);
    }
  }

  lemma {:induction false} EmitAllCount(bound: seq<seq<BoundElem>>, t: VtkType, ps: seq<nat>, m: nat)
    requires m <= |bound| && ValidBound(bound, |ps|)
    ensures |EmitAll(bound, t, ps, m)| == CountAll(bound, t, m)
  {
    if m > 0 {
      EmitAllCount(bound, t, ps, m - 1);
      EmitInCount(bound[m - 1], m - 1, t, ps, |bound[m - 1]|);
    }
  }

  /** Every quadrilateral record carries four nodes and the marker under the Triangles keyword. */
  lemma {:induction false} QuadrilateralsUnderTriangles(es: seq<BoundElem>, iMarker: nat, ps: seq<nat>, k: nat)
    requires k <= |es|
    requires forall j :: 0 <= j < |es| ==> NodesOf(es[j].vtk) <= |es[j].nodes| && forall i :: 0 <= i < |es[j].nodes| ==> es[j].nodes[i] < |ps|
    ensures forall r :: r in EmitIn(es, iMarker, QuadrilateralVtk, ps, k) ==> r.Lin? && r.keyword == Triangles && |r.ints| == 5
  {
    if k > 0 {
      QuadrilateralsUnderTriangles(es, iMarker, ps, k - 1);
    }
  }

  /** The counting loop: nLin, nTri and nQua over every element of every marker. */
  method CountBoundElems(bound: seq<seq<BoundElem>>) returns (nLin: nat, nTri: nat, nQua: nat)
    ensures nLin == CountAll(bound, LineVtk, |bound|)
    ensures nTri == CountAll(bound, TriangleVtk, |bound|)
    ensures nQua == CountAll(bound, QuadrilateralVtk, |bound|)
  {
    nLin, nTri, nQua := 0, 0, 0;
    for m := 0 to |bound|
      invariant nLin == CountAll(bound, LineVtk, m)
      invariant nTri == CountAll(bound, TriangleVtk, m)
      invariant nQua == CountAll(bound, QuadrilateralVtk, m)
    {
      for k := 0 to |bound[m]|
        invariant nLin == CountAll(bound, LineVtk, m) + CountIn(bound[m], LineVtk, k)
        invariant nTri == CountAll(bound, TriangleVtk, m) + CountIn(bound[m], TriangleVtk, k)
        invariant nQua == CountAll(bound, QuadrilateralVtk, m) + CountIn(bound[m], QuadrilateralVtk, k)
      {
        match bound[m][k].vtk
        case LineVtk => nLin := nLin + 1;
        case TriangleVtk => nTri := nTri + 1;
        case QuadrilateralVtk => nQua := nQua + 1;
        case OtherVtk =>
      }
    }
  }

  /** One emission loop: skip the elements of other types, count and record the rest. */
  method EmitBound(bound: seq<seq<BoundElem>>, t: VtkType, ps: seq<nat>) returns (records: seq<MeshRecord>, cptElem: nat)
    requires ValidBound(bound, |ps|)
    ensures records == EmitAll(bound, t, ps, |bound|)
    ensures cptElem == CountAll(bound, t, |bound|)
  {
    records, cptElem := [], 0;
    for m := 0 to |bound|
      invariant records == EmitAll(bound, t, ps, m)
      invariant cptElem == CountAll(bound, t, m)
    {
      for k := 0 to |bound[m]|
        invariant records == EmitAll(bound, t, ps, m) + EmitIn(bound[m], m, t, ps, k)
        invariant cptElem == CountAll(bound, t, m) + CountIn(bound[m], t, k)
      {
        var b := bound[m][k];
        if b.vtk != t {
          continue;
        }
        cptElem := cptElem + 1;
        records := records + [Record(b, m, ps)];
      }
    }
  }

  /** A section of the boundary output: the keyword and count, then the records, when there are any. */
  function Section(bound: seq<seq<BoundElem>>, t: VtkType, keyword: MeshKeyword, ps: seq<nat>): seq<MeshRecord>
    requires ValidBound(bound, |ps|)
  {
    var n := CountAll(bound, t, |bound|);
    if n > 0 then [Kwd(keyword, n)] + EmitAll(bound, t, ps, |bound|) else []
  }

  /**
   * The boundary part of SetInriaMesh: PointSurface, the counts, then the
   * edge, triangle and quadrilateral sections. The "Inconsistent number"
   * exits are taken when a section's counter differs from its count;
   * `exited` reports one, and it is never taken.
   */
  method InriaBoundary(boundary: seq<bool>, stale: seq<nat>, bound: seq<seq<BoundElem>>)
    returns (records: seq<MeshRecord>, exited: bool)
    requires |stale| == |boundary| && ValidBound(bound, |boundary|)
    ensures !exited
    ensures var ps := PackedSurface(boundary, stale);
      records == Section(bound, LineVtk, Edges, ps) + Section(bound, TriangleVtk, Triangles, ps)
                 + Section(bound, QuadrilateralVtk, Quadrilaterals, ps)
  {
    var pointSurface, nPointSurface := PackSurfacePoints(boundary, stale);
    var ps := pointSurface[..];
    assert ps == PackedSurface(boundary, stale) by {
      assert ps == ps[..nPointSurface] + ps[nPointSurface..];
    }
    var nLin, nTri, nQua := CountBoundElems(bound);
    records, exited := EmitSection(bound, LineVtk, Edges, ps, nLin);
    if exited {
      return;
    }
    var tris, quas;
    tris, exited := EmitSection(bound, TriangleVtk, Triangles, ps, nTri);
    if exited {
      return;
    }
    records := records + tris;
    quas, exited := EmitSection(bound, QuadrilateralVtk, Quadrilaterals, ps, nQua);
    if exited {
      return;
    }
    records := records + quas;
  }

  /**
   * One section of SetInriaMesh's boundary part: nothing when the count is
   * zero, else the keyword and count and the emitted records, with the
   * "Inconsistent number" exit when the emission loop counts differently.
   */
  method EmitSection(bound: seq<seq<BoundElem>>, t: VtkType, keyword: MeshKeyword, ps: seq<nat>, n: nat)
    returns (records: seq<MeshRecord>, exited: bool)
    requires ValidBound(bound, |ps|) && n == CountAll(bound, t, |bound|)
    ensures !exited && records == Section(bound, t, keyword, ps)
  {
    records, exited := [], false;
    if n > 0 {
      var lines, cptElem := EmitBound(bound, t, ps);
      if cptElem != n {
        exited := true;
        return;
      }
      records := [Kwd(keyword, n)] + lines;
    }
  }

  /** What the PointSurface array holds: the surface points, then the stale entries. */
  function PackedSurface(boundary: seq<bool>, stale: seq<nat>): (ps: seq<nat>)
    requires |stale| == |boundary|
    ensures |ps| == |boundary|
  {
    var sp := SurfacePoints(boundary, |boundary|);
    sp + stale[|sp|..]
  }
}
