/**
 * The two containers the heat solver assembles into: the block residual
 * vector (CSysVector) and the sparse block matrix (CSysMatrix). The heat
 * equation has a single unknown per point (nVar = 1), so every block is a
 * scalar; the vector is a sequence indexed by point and the matrix a map
 * from (row point, column point) to the entry, absent entries reading as
 * zero. Only the block operations the solver calls are modelled.
 */
module HeatLinearSystem {

  type Vector = seq<real>
  type Matrix = map<(nat, nat), real>

  /** The entry (i, j); an entry outside the sparsity pattern is zero. */
  function Get(m: Matrix, i: nat, j: nat): real {
    if (i, j) in m then m[(i, j)] else 0.0
  }

  // ---------------------------------------------------------------------
  // Vector blocks
  // ---------------------------------------------------------------------

  /** CSysVector::AddBlock */
  function AddBlock(v: Vector, i: nat, x: real): (r: Vector)
    requires i < |v|
    ensures |r| == |v| && r[i] == v[i] + x
    ensures forall k :: 0 <= k < |v| && k != i ==> r[k] == v[k]
  {
    v[i := v[i] + x]
  }

  /** CSysVector::SubtractBlock */
  function SubtractBlock(v: Vector, i: nat, x: real): (r: Vector)
    requires i < |v|
    ensures |r| == |v| && r[i] == v[i] - x
    ensures forall k :: 0 <= k < |v| && k != i ==> r[k] == v[k]
  {
    v[i := v[i] - x]
  }

  /** CSysVector::SetBlock (and SetBlock_Zero with x = 0) */
  function SetBlock(v: Vector, i: nat, x: real): (r: Vector)
    requires i < |v|
    ensures |r| == |v| && r[i] == x
    ensures forall k :: 0 <= k < |v| && k != i ==> r[k] == v[k]
  {
    v[i := x]
  }

  // ---------------------------------------------------------------------
  // Matrix blocks
  // ---------------------------------------------------------------------

  /** CSysMatrix::AddBlock */
  function MatAdd(m: Matrix, i: nat, j: nat, x: real): (r: Matrix)
    ensures Get(r, i, j) == Get(m, i, j) + x
    ensures forall a: nat, b: nat :: (a != i || b != j) ==> Get(r, a, b) == Get(m, a, b)
  {
    m[(i, j) := Get(m, i, j) + x]
  }

  /** CSysMatrix::SubtractBlock */
  function MatSub(m: Matrix, i: nat, j: nat, x: real): (r: Matrix)
    ensures Get(r, i, j) == Get(m, i, j) - x
    ensures forall a: nat, b: nat :: (a != i || b != j) ==> Get(r, a, b) == Get(m, a, b)
  {
    m[(i, j) := Get(m, i, j) - x]
  }

  /** CSysMatrix::SetVal2Diag: the diagonal block becomes x. */
  function SetVal2Diag(m: Matrix, i: nat, x: real): (r: Matrix)
    ensures Get(r, i, i) == x
    ensures forall a: nat, b: nat :: (a != i || b != i) ==> Get(r, a, b) == Get(m, a, b)
  {
    m[(i, i) := x]
  }

  /**
   * CSysMatrix::DeleteValsRowi: row i is cleared and its diagonal entry
   * set to one, so the row of the linear system reads x_i = b_i.
   */
  function DeleteValsRowi(m: Matrix, i: nat): (r: Matrix)
    ensures forall a: nat, b: nat ::
      Get(r, a, b) == (if a == i then (if b == i then 1.0 else 0.0) else Get(m, a, b))
  {
    (map k | k in m.Keys :: if k.0 == i then 0.0 else m[k])[(i, i) := 1.0]
  }

  // ---------------------------------------------------------------------
  // Sums, for the conservation statements
  // ---------------------------------------------------------------------

  /** v[0] + ... + v[k-1] */
  function SumTo(v: Vector, k: nat): real
    requires k <= |v|
  {
    if k == 0 then 0.0 else SumTo(v, k - 1) + v[k - 1]
  }

  function Sum(v: Vector): real { SumTo(v, |v|) }

  /** Changing one entry changes the sum by the same amount. */
  lemma {:induction false} SumToUpdate(v: Vector, i: nat, y: real, k: nat)
    requires i < |v| && k <= |v|
    ensures SumTo(v[i := y], k) == SumTo(v, k) + (if i < k then y - v[i] else 0.0)
  {
    if k > 0 {
      SumToUpdate(v, i, y, k - 1);
    }
  }

  lemma SumAddBlock(v: Vector, i: nat, x: real)
    requires i < |v|
    ensures Sum(AddBlock(v, i, x)) == Sum(v) + x
  {
    SumToUpdate(v, i, v[i] + x, |v|);
  }

  lemma SumSubtractBlock(v: Vector, i: nat, x: real)
    requires i < |v|
    ensures Sum(SubtractBlock(v, i, x)) == Sum(v) - x
  {
    SumToUpdate(v, i, v[i] - x, |v|);
  }

  /** Get(m, 0, c) + ... + Get(m, n-1, c): the sum of column c over the first n rows. */
  function ColSum(m: Matrix, c: nat, n: nat): real {
    if n == 0 then 0.0 else ColSum(m, c, n - 1) + Get(m, n - 1, c)
  }

  /** Adding x at (i, j) changes the sum of column j by x, and no other column. */
  lemma {:induction false} ColSumMatAdd(m: Matrix, i: nat, j: nat, x: real, c: nat, n: nat)
    ensures ColSum(MatAdd(m, i, j, x), c, n) == ColSum(m, c, n) + (if c == j && i < n then x else 0.0)
  {
    if n > 0 {
      ColSumMatAdd(m, i, j, x, c, n - 1);
    }
  }

  lemma ColSumMatSub(m: Matrix, i: nat, j: nat, x: real, c: nat, n: nat)
    ensures ColSum(MatSub(m, i, j, x), c, n) == ColSum(m, c, n) - (if c == j && i < n then x else 0.0)
  {
    assert MatSub(m, i, j, x) == MatAdd(m, i, j, -x);
    ColSumMatAdd(m, i, j, -x, c, n);
  }

  // ---------------------------------------------------------------------
  // Matrix-vector product (CSysMatrix::MatrixVectorProduct)
  // ---------------------------------------------------------------------

  /** Get(m, i, 0) x[0] + ... + Get(m, i, k-1) x[k-1] */
  function RowDot(m: Matrix, i: nat, x: Vector, k: nat): real
    requires k <= |x|
  {
    if k == 0 then 0.0 else RowDot(m, i, x, k - 1) + Get(m, i, k - 1) * x[k - 1]
  }

  function MatVec(m: Matrix, x: Vector): (y: Vector)
    ensures |y| == |x|
  {
    seq(|x|, i requires 0 <= i < |x| => RowDot(m, i, x, |x|))
  }
}
