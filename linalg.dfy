/** The linear-algebra layer (lib/gsl/linalg.rb): `LU_decomp!` turns a fresh
    `Matrix::Double` into an LU decomposition in place and only then gives it
    `is_LU_decomp?`, `solve` and `inv`. The factorisation and the solutions
    themselves are the backend's: the factors, permutation and sign it writes
    are parameters, and the values of a solution or an inverse are left open. */
module LinAlg {
  import opened Results
  import opened ErrorClasses
  import opened Containers
  import opened Blas

  /** Reasons the backend reports through the error handler. */
  const NotSquareReason := "LU decomposition requires square matrix"
  const SolveSizeReason := "matrix size must match b size"

  /** `LU_decomp!`: only `Matrix::Double` has it. A permutation of `cols`
      entries and a sign cell are allocated; the backend rejects a matrix that
      is not square with `Error::NotSquare`, and otherwise overwrites the
      matrix with `factors`, fills the permutation with `p` and the sign with
      `sign`. The matrix then records the LU state and is returned. */
  method LUDecomp(m: Matrix, factors: Mat, p: seq<nat>, sign: int) returns (r: Result<Matrix, Exception>)
    requires IsMatrix(factors, m.Rows(), m.Cols()) && |p| == m.Cols()
    modifies m, m.data
    ensures m.kind != MatrixDouble ==>
      r == Failure(NoMethodError("LU_decomp!")) && unchanged(m) && unchanged(m.data)
    ensures m.kind == MatrixDouble && m.Rows() != m.Cols() ==>
      r == Failure(Gsl(NotSquare, NotSquareReason)) && unchanged(m) && unchanged(m.data)
    ensures m.kind == MatrixDouble && m.Rows() == m.Cols() ==>
      && r == Success(m) && m.isLU
      && m.perm == p && |m.perm| == m.Cols() && m.signum == sign
      && m.Entries() == factors
  {
    if m.kind != MatrixDouble {
      return Failure(NoMethodError("LU_decomp!"));
    }
    if m.Rows() != m.Cols() {
      return Failure(Gsl(NotSquare, NotSquareReason));
    }
    m.Store(factors);
    m.isLU := true;
    m.perm := p;
    m.signum := sign;
    r := Success(m);
  }

  /** `is_LU_decomp?`: defined only once the matrix is an LU decomposition,
      and then true. */
  function IsLUDecomp(m: Matrix): (r: Result<bool, Exception>)
    reads m
    ensures r.Success? <==> m.isLU
    ensures r.Success? ==> r.value
    ensures r.Failure? ==> r.error == NoMethodError("is_LU_decomp?")
  {
    if m.isLU then Success(true) else Failure(NoMethodError("is_LU_decomp?"))
  }

  /** `solve(vec)`: defined only on an LU decomposition. The backend rejects a
      vector whose size is not the matrix size with `Error::BadLen`; otherwise
      the solution goes into a fresh `Vector::Double` of `vec.size` elements.
      Neither the matrix nor `vec` is written. */
  method Solve(m: Matrix, vec: Vector) returns (r: Result<Vector, Exception>)
    requires vec.Valid()
    ensures !m.isLU ==> r == Failure(NoMethodError("solve"))
    ensures m.isLU && vec.Size() != m.Rows() ==> r == Failure(Gsl(BadLen, SolveSizeReason))
    ensures m.isLU && vec.Size() == m.Rows() ==>
      r.Success? && fresh(r.value) && fresh(r.value.data) &&
      r.value.kind == VectorDouble && r.value.Size() == vec.Size()
  {
    if !m.isLU {
      return Failure(NoMethodError("solve"));
    }
    var result := new Vector.Alloc(VectorDouble, vec.Size());
    if vec.Size() != m.Rows() {
      return Failure(Gsl(BadLen, SolveSizeReason));
    }
    r := Success(result);
  }

  /** `inv`: defined only on an LU decomposition; the inverse goes into a
      fresh `Matrix::Double` of `rows x cols`. The matrix is not written. */
  method Inv(m: Matrix) returns (r: Result<Matrix, Exception>)
    requires m.Valid()
    ensures !m.isLU ==> r == Failure(NoMethodError("inv"))
    ensures m.isLU ==>
      r.Success? && fresh(r.value) && fresh(r.value.data) && r.value.kind == MatrixDouble &&
      r.value.Rows() == m.Rows() && r.value.Cols() == m.Cols() && !r.value.isLU
  {
    if !m.isLU {
      return Failure(NoMethodError("inv"));
    }
    var result := new Matrix.Alloc(MatrixDouble, m.Rows(), m.Cols());
    r := Success(result);
  }

  /** The type-state transition Fresh -> Factored: a fresh 3 x 3 matrix has no
      `solve` and no `is_LU_decomp?`; after `LU_decomp!` it has both and it is
      an LU decomposition. */
  method FreshThenFactored(factors: Mat, p: seq<nat>, sign: int)
    returns (before: Result<Vector, Exception>, isLU: Result<bool, Exception>, after: Result<Vector, Exception>)
    requires IsMatrix(factors, 3, 3) && |p| == 3
    ensures before == Failure(NoMethodError("solve"))
    ensures isLU == Success(true)
    ensures after.Success? && after.value.Size() == 3
  {
    var m := new Matrix.Alloc(MatrixDouble, 3, 3);
    var v := new Vector.Alloc(VectorDouble, 3);
    before := Solve(m, v);
    var _ := LUDecomp(m, factors, p, sign);
    isLU := IsLUDecomp(m);
    after := Solve(m, v);
  }
}
