/** The BLAS layer (lib/gsl/blas.rb): the dot product and absolute sum of
    vectors, and the matrix product with its dispatch, type guards and
    result shapes. The backend's `dgemm`/`dgemv`/`ddot`/`dasum` are given
    their mathematical meaning over exact reals. */
module Blas {
  import opened Results
  import opened ErrorClasses
  import opened Enums
  import opened Containers

  /** A matrix as its rows. */
  type Mat = seq<seq<real>>

  predicate IsMatrix(a: Mat, r: nat, c: nat)
  {
    |a| == r && forall i :: 0 <= i < r ==> |a[i]| == c
  }

  /** The reason the backend reports for operands of mismatched sizes. */
  const InvalidLength := "invalid length"

  //------------------------------------------------------------
  // Level 1: vectors
  //------------------------------------------------------------

  function DotProduct(x: seq<real>, y: seq<real>): real
    requires |x| == |y|
    decreases |x|
  {
    if |x| == 0 then 0.0 else x[0] * y[0] + DotProduct(x[1..], y[1..])
  }

  lemma {:induction false} DotProductSymmetric(x: seq<real>, y: seq<real>)
    requires |x| == |y|
    ensures DotProduct(x, y) == DotProduct(y, x)
    decreases |x|
  {
    if |x| > 0 {
      DotProductSymmetric(x[1..], y[1..]);
    }
  }

  /** [1, 2, 3] . [4, 5, 6] = 32. */
  lemma DotProductExample()
    ensures DotProduct([1.0, 2.0, 3.0], [4.0, 5.0, 6.0]) == 32.0
  {
    assert [1.0, 2.0, 3.0][1..] == [2.0, 3.0] && [4.0, 5.0, 6.0][1..] == [5.0, 6.0];
    assert [2.0, 3.0][1..] == [3.0] && [5.0, 6.0][1..] == [6.0];
    assert [3.0][1..] == [] && [6.0][1..] == [];
  }

  function Abs(x: real): real
  {
    if x < 0.0 then -x else x
  }

  /** The sum of the absolute values; never negative. */
  function AbsSum(x: seq<real>): (s: real)
    ensures s >= 0.0
    ensures s == 0.0 <==> forall i :: 0 <= i < |x| ==> x[i] == 0.0
    decreases |x|
  {
    if |x| == 0 then 0.0
    else
      var rest := AbsSum(x[1..]);
      assert forall i :: 1 <= i < |x| ==> x[1..][i - 1] == x[i];
      Abs(x[0]) + rest
  }

  /** asum([1, -2, -3, 4]) = 10. */
  lemma AbsSumExample()
    ensures AbsSum([1.0, -2.0, -3.0, 4.0]) == 10.0
  {
    assert [1.0, -2.0, -3.0, 4.0][1..] == [-2.0, -3.0, 4.0];
    assert [-2.0, -3.0, 4.0][1..] == [-3.0, 4.0];
    assert [-3.0, 4.0][1..] == [4.0];
    assert [4.0][1..] == [];
  }

  /** `Vector#dot(other)`: only `Vector::Double` and `::Float` have it; the
      class-match guard runs first, then the backend rejects unequal sizes. */
  method Dot(v: Vector, other: Value) returns (r: Result<real, Exception>)
    ensures v.kind == VectorInt ==> r == Failure(NoMethodError("dot"))
    ensures v.kind != VectorInt && MatchingVectorArg(v.kind, other).Some? ==>
      r == Failure(MatchingVectorArg(v.kind, other).value)
    ensures v.kind != VectorInt && MatchingVectorArg(v.kind, other).None? && other.v.Size() != v.Size() ==>
      r == Failure(Gsl(BadLen, InvalidLength))
    ensures v.kind != VectorInt && MatchingVectorArg(v.kind, other).None? && other.v.Size() == v.Size() ==>
      r == Success(DotProduct(v.data[..], other.v.data[..]))
  {
    if v.kind == VectorInt {
      return Failure(NoMethodError("dot"));
    }
    var bad := MatchingVectorArg(v.kind, other);
    if bad.Some? {
      return Failure(bad.value);
    }
    if other.v.data.Length != v.data.Length {
      return Failure(Gsl(BadLen, InvalidLength));
    }
    r := Success(DotProduct(v.data[..], other.v.data[..]));
  }

  /** `Vector#asum`: the absolute sum, for `Vector::Double` and `::Float`. */
  method Asum(v: Vector) returns (r: Result<real, Exception>)
    ensures v.kind == VectorInt ==> r == Failure(NoMethodError("asum"))
    ensures v.kind != VectorInt ==> r == Success(AbsSum(v.data[..]))
  {
    if v.kind == VectorInt {
      return Failure(NoMethodError("asum"));
    }
    r := Success(AbsSum(v.data[..]));
  }

  //------------------------------------------------------------
  // Matrices
  //------------------------------------------------------------

  /** Column `j` of an `r x c` matrix. */
  function Column(b: Mat, r: nat, c: nat, j: nat): (col: seq<real>)
    requires IsMatrix(b, r, c) && j < c
    ensures |col| == r && forall i :: 0 <= i < r ==> col[i] == b[i][j]
  {
    seq(r, i requires 0 <= i < r => b[i][j])
  }

  function Transposed(a: Mat, r: nat, c: nat): (t: Mat)
    requires IsMatrix(a, r, c)
    ensures IsMatrix(t, c, r)
    ensures forall i, j :: 0 <= i < c && 0 <= j < r ==> t[i][j] == a[j][i]
  {
    seq(c, j requires 0 <= j < c => Column(a, r, c, j))
  }

  lemma TransposedTwice(a: Mat, r: nat, c: nat)
    requires IsMatrix(a, r, c)
    ensures Transposed(Transposed(a, r, c), c, r) == a
  {
    var tt := Transposed(Transposed(a, r, c), c, r);
    forall i | 0 <= i < r ensures tt[i] == a[i] {
      assert forall j :: 0 <= j < c ==> tt[i][j] == a[i][j];
    }
  }

  /** The product of an `n x k` and a `k x m` matrix. */
  function MatMul(a: Mat, b: Mat, n: nat, k: nat, m: nat): (p: Mat)
    requires IsMatrix(a, n, k) && IsMatrix(b, k, m)
    ensures IsMatrix(p, n, m)
    ensures forall i, j :: 0 <= i < n && 0 <= j < m ==> p[i][j] == DotProduct(a[i], Column(b, k, m, j))
  {
    seq(n, i requires 0 <= i < n => seq(m, j requires 0 <= j < m => DotProduct(a[i], Column(b, k, m, j))))
  }

  /** The product of an `n x k` matrix and a vector of `k` elements. */
  function MatVec(a: Mat, x: seq<real>, n: nat, k: nat): (y: seq<real>)
    requires IsMatrix(a, n, k) && |x| == k
    ensures |y| == n && forall i :: 0 <= i < n ==> y[i] == DotProduct(a[i], x)
  {
    seq(n, i requires 0 <= i < n => DotProduct(a[i], x))
  }

  /** A vector as a one-column matrix. */
  function ColumnMatrix(x: seq<real>): (c: Mat)
    ensures IsMatrix(c, |x|, 1) && forall i :: 0 <= i < |x| ==> c[i] == [x[i]]
  {
    seq(|x|, i requires 0 <= i < |x| => [x[i]])
  }

  /** The matrix-vector product is the matrix product with the vector as a
      one-column matrix. */
  lemma MatVecIsMatMul(a: Mat, x: seq<real>, n: nat, k: nat)
    requires IsMatrix(a, n, k) && |x| == k
    ensures MatMul(a, ColumnMatrix(x), n, k, 1) == ColumnMatrix(MatVec(a, x, n, k))
  {
    var cm := ColumnMatrix(x);
    assert Column(cm, k, 1, 0) == x;
    var p := MatMul(a, cm, n, k, 1);
    var q := ColumnMatrix(MatVec(a, x, n, k));
    forall i | 0 <= i < n ensures p[i] == q[i] {
      assert p[i][0] == q[i][0];
    }
  }

  /** (A B)^T = B^T A^T. */
  lemma MatMulTransposed(a: Mat, b: Mat, n: nat, k: nat, m: nat)
    requires IsMatrix(a, n, k) && IsMatrix(b, k, m)
    ensures Transposed(MatMul(a, b, n, k, m), n, m) == MatMul(Transposed(b, k, m), Transposed(a, n, k), m, k, n)
  {
    var lhs := Transposed(MatMul(a, b, n, k, m), n, m);
    var bt := Transposed(b, k, m);
    var at := Transposed(a, n, k);
    var rhs := MatMul(bt, at, m, k, n);
    forall j | 0 <= j < m ensures lhs[j] == rhs[j] {
      forall i | 0 <= i < n ensures lhs[j][i] == rhs[j][i] {
        assert bt[j] == Column(b, k, m, j);
        assert Column(at, k, n, i) == a[i];
        DotProductSymmetric(a[i], Column(b, k, m, j));
      }
    }
  }

  /** The 4 x 3 by 3 x 1 product of the spec examples. */
  lemma MatMulExample()
    ensures IsMatrix([[1.0, 2.0, 3.0], [4.0, 5.0, 6.0], [7.0, 8.0, 9.0], [10.0, 11.0, 12.0]], 4, 3)
    ensures IsMatrix([[-2.0], [1.0], [0.0]], 3, 1)
    ensures MatMul([[1.0, 2.0, 3.0], [4.0, 5.0, 6.0], [7.0, 8.0, 9.0], [10.0, 11.0, 12.0]], [[-2.0], [1.0], [0.0]], 4, 3, 1)
            == [[0.0], [-3.0], [-6.0], [-9.0]]
  {
    var a := [[1.0, 2.0, 3.0], [4.0, 5.0, 6.0], [7.0, 8.0, 9.0], [10.0, 11.0, 12.0]];
    var b := [[-2.0], [1.0], [0.0]];
    assert IsMatrix(b, 3, 1);
    var col := Column(b, 3, 1, 0);
    assert col == [-2.0, 1.0, 0.0];
    RowTimesColumn(a[0], col);
    RowTimesColumn(a[1], col);
    RowTimesColumn(a[2], col);
    RowTimesColumn(a[3], col);
    var p := MatMul(a, b, 4, 3, 1);
    assert p[0] == [0.0] && p[1] == [-3.0] && p[2] == [-6.0] && p[3] == [-9.0];
  }

  lemma RowTimesColumn(row: seq<real>, col: seq<real>)
    requires |row| == 3 && |col| == 3
    ensures DotProduct(row, col) == row[0] * col[0] + row[1] * col[1] + row[2] * col[2]
  {
    var r1, c1 := row[1..], col[1..];
    var r2, c2 := r1[1..], c1[1..];
    assert DotProduct(r2[1..], c2[1..]) == 0.0;
    assert DotProduct(r2, c2) == row[2] * col[2];
    assert DotProduct(r1, c1) == row[1] * col[1] + row[2] * col[2];
  }

  //------------------------------------------------------------
  // Matrix products
  //------------------------------------------------------------

  /** The transpose flags `:no_trans` and `:trans`. */
  datatype Trans = NoTrans | Trans

  function TransSymbol(t: Trans): string
  {
    match t
    case NoTrans => "no_trans"
    case Trans => "trans"
  }

  /** The CBLAS code of a flag: `CblasNoTrans` = 111, `CblasTrans` = 112. */
  function CblasCode(t: Trans): int
  {
    match t
    case NoTrans => 111
    case Trans => 112
  }

  /** With the transpose table of lib/gsl/gsl.rb, `enum_value(:transpose, t)`
      is the CBLAS code of `t`. */
  lemma TransposeCode(reg: Registry, t: Trans)
    requires reg.Registered("transpose", TransposeSpec)
    ensures reg.EnumValue("transpose", SymbolArg(TransSymbol(t))) == Success(IntVal(CblasCode(t)))
  {
    CblasTables();
  }

  /** The operand `op(X)` the backend uses for a CBLAS code: `X` for 111, its
      transpose otherwise. */
  function OpOf(code: int, a: Mat, r: nat, c: nat): (x: Mat)
    requires IsMatrix(a, r, c)
    ensures IsMatrix(x, OpRows(code, r, c), OpCols(code, r, c))
  {
    if code == CblasCode(NoTrans) then a else Transposed(a, r, c)
  }

  function OpRows(code: int, r: nat, c: nat): nat
  {
    if code == CblasCode(NoTrans) then r else c
  }

  function OpCols(code: int, r: nat, c: nat): nat
  {
    if code == CblasCode(NoTrans) then c else r
  }

  /** `mulm_full(transA, transB, other)` with `Double#_mulm`: `other` must be a
      `Matrix::Double`; the result is a fresh `Matrix::Double` whose rows are
      `self.rows` without and `self.cols` with `transA`, and whose columns are
      `other.cols` without and `other.rows` with `transB`; the backend writes
      `op(self) op(other)` into it (alpha = 1, beta = 0), or raises
      `Error::BadLen` when the inner dimensions differ. The result is built
      as `GSL::Matrix::Double.new(rrows, rcols)`, which is what the call
      `GSL::Matrix.new(rrows, rcols)` in `_mulm` evidently means (see
      MulmFullAsWritten). */
  method MulmFull(reg: Registry, m: Matrix, transA: Trans, transB: Trans, other: Value) returns (r: Result<Matrix, Exception>)
    requires m.kind == MatrixDouble && m.Valid()
    requires reg.Registered("transpose", TransposeSpec)
    requires other.MatrixValue? ==> other.m.Valid()
    ensures !(other.MatrixValue? && other.m.kind == MatrixDouble) ==>
      r == Failure(ArgumentError("vector is " + ClassName(other) + " but require GSL::Matrix::Double"))
    ensures other.MatrixValue? && other.m.kind == MatrixDouble ==>
      var b := other.m;
      var rrows := if transA == NoTrans then m.Rows() else m.Cols();
      var rcols := if transB == NoTrans then b.Cols() else b.Rows();
      var inA := if transA == NoTrans then m.Cols() else m.Rows();
      var inB := if transB == NoTrans then b.Rows() else b.Cols();
      && (inA != inB ==> r == Failure(Gsl(BadLen, InvalidLength)))
      && (inA == inB ==>
            && r.Success? && fresh(r.value) && fresh(r.value.data)
            && r.value.kind == MatrixDouble && !r.value.isLU
            && r.value.Rows() == rrows && r.value.Cols() == rcols
            && r.value.Entries() ==
                 MatMul(OpOf(CblasCode(transA), m.Entries(), m.Rows(), m.Cols()),
                        OpOf(CblasCode(transB), b.Entries(), b.Rows(), b.Cols()), rrows, inA, rcols))
  {
    if !(other.MatrixValue? && other.m.kind == MatrixDouble) {
      return Failure(ArgumentError("vector is " + ClassName(other) + " but require GSL::Matrix::Double"));
    }
    var b := other.m;
    var rrows := if transA == NoTrans then m.Rows() else m.Cols();
    var rcols := if transB == NoTrans then b.Cols() else b.Rows();
    var result := new Matrix.Alloc(MatrixDouble, rrows, rcols);
    TransposeCode(reg, transA);
    TransposeCode(reg, transB);
    var ta := reg.EnumValue("transpose", SymbolArg(TransSymbol(transA))).value.n;
    var tb := reg.EnumValue("transpose", SymbolArg(TransSymbol(transB))).value.n;
    // dgemm: op(A) is M x K, op(B) is K' x N, the result M x N.
    var inA := OpCols(ta, m.Rows(), m.Cols());
    var inB := OpRows(tb, b.Rows(), b.Cols());
    if inA != inB {
      return Failure(Gsl(BadLen, InvalidLength));
    }
    var p := MatMul(OpOf(ta, m.Entries(), m.Rows(), m.Cols()), OpOf(tb, b.Entries(), b.Rows(), b.Cols()), rrows, inA, rcols);
    result.Store(p);
    r := Success(result);
  }

  /** `mulm_full` read against lib/gsl/matrix.rb: past the class guard, and
      taking `rows` and `cols` as given, `_mulm` calls `GSL::Matrix.new`, but
      there `GSL::Matrix` is a module that defines no `new` (only
      `GSL::Vector` delegates `new` to its Double class), so the call raises
      NoMethodError before the backend runs, whatever the shapes. */
  function MulmFullAsWritten(m: Matrix, transA: Trans, transB: Trans, other: Value): (r: Result<Matrix, Exception>)
    ensures r.Failure?
    ensures !(other.MatrixValue? && other.m.kind == MatrixDouble) ==>
      r.error == ArgumentError("vector is " + ClassName(other) + " but require GSL::Matrix::Double")
    ensures other.MatrixValue? && other.m.kind == MatrixDouble ==> r.error == NoMethodError("new")
  {
    if !(other.MatrixValue? && other.m.kind == MatrixDouble) then
      Failure(ArgumentError("vector is " + ClassName(other) + " but require GSL::Matrix::Double"))
    else
      Failure(NoMethodError("new"))
  }

  /** Two 2 x 2 `Matrix::Double` values: `mulm` read against
      lib/gsl/matrix.rb raises NoMethodError, while the `mulm` of the matrix
      API the specs use returns their 2 x 2 product. */
  method MatrixNewMissing(reg: Registry) returns (asWritten: Result<Matrix, Exception>, intended: Result<Matrix, Exception>)
    requires reg.Registered("transpose", TransposeSpec)
    ensures asWritten == Failure(NoMethodError("new"))
    ensures intended.Success? && intended.value.Rows() == 2 && intended.value.Cols() == 2
  {
    var a := new Matrix.Alloc(MatrixDouble, 2, 2);
    var b := new Matrix.Alloc(MatrixDouble, 2, 2);
    asWritten := MulmFullAsWritten(a, NoTrans, NoTrans, MatrixValue(b));
    intended := Mulm(reg, a, MatrixValue(b));
  }

  /** `mulm(other)`: `mulm_full(:no_trans, :no_trans, other)`. */
  method Mulm(reg: Registry, m: Matrix, other: Value) returns (r: Result<Matrix, Exception>)
    requires m.kind == MatrixDouble && m.Valid()
    requires reg.Registered("transpose", TransposeSpec)
    requires other.MatrixValue? ==> other.m.Valid()
    ensures other.MatrixValue? && other.m.kind == MatrixDouble && m.Cols() == other.m.Rows() ==>
      r.Success? && fresh(r.value) && fresh(r.value.data) && r.value.kind == MatrixDouble && !r.value.isLU &&
      r.value.Rows() == m.Rows() && r.value.Cols() == other.m.Cols() &&
      r.value.Entries() == MatMul(m.Entries(), other.m.Entries(), m.Rows(), m.Cols(), other.m.Cols())
    ensures other.MatrixValue? && other.m.kind == MatrixDouble && m.Cols() != other.m.Rows() ==>
      r == Failure(Gsl(BadLen, InvalidLength))
    ensures !(other.MatrixValue? && other.m.kind == MatrixDouble) ==>
      r == Failure(ArgumentError("vector is " + ClassName(other) + " but require GSL::Matrix::Double"))
  {
    r := MulmFull(reg, m, NoTrans, NoTrans, other);
  }

  /** `trans_mul(other)`: the product of the transpose of `self` with `other`. */
  method TransMul(reg: Registry, m: Matrix, other: Value) returns (r: Result<Matrix, Exception>)
    requires m.kind == MatrixDouble && m.Valid()
    requires reg.Registered("transpose", TransposeSpec)
    requires other.MatrixValue? ==> other.m.Valid()
    ensures other.MatrixValue? && other.m.kind == MatrixDouble && m.Rows() == other.m.Rows() ==>
      r.Success? && fresh(r.value) && fresh(r.value.data) && r.value.kind == MatrixDouble && !r.value.isLU &&
      r.value.Rows() == m.Cols() && r.value.Cols() == other.m.Cols() &&
      r.value.Entries() == MatMul(Transposed(m.Entries(), m.Rows(), m.Cols()), other.m.Entries(), m.Cols(), m.Rows(), other.m.Cols())
    ensures other.MatrixValue? && other.m.kind == MatrixDouble && m.Rows() != other.m.Rows() ==>
      r == Failure(Gsl(BadLen, InvalidLength))
    ensures !(other.MatrixValue? && other.m.kind == MatrixDouble) ==>
      r == Failure(ArgumentError("vector is " + ClassName(other) + " but require GSL::Matrix::Double"))
  {
    r := MulmFull(reg, m, Trans, NoTrans, other);
  }

  /** `mul_trans(other)`: the product of `self` with the transpose of `other`. */
  method MulTrans(reg: Registry, m: Matrix, other: Value) returns (r: Result<Matrix, Exception>)
    requires m.kind == MatrixDouble && m.Valid()
    requires reg.Registered("transpose", TransposeSpec)
    requires other.MatrixValue? ==> other.m.Valid()
    ensures other.MatrixValue? && other.m.kind == MatrixDouble && m.Cols() == other.m.Cols() ==>
      r.Success? && fresh(r.value) && fresh(r.value.data) && r.value.kind == MatrixDouble && !r.value.isLU &&
      r.value.Rows() == m.Rows() && r.value.Cols() == other.m.Rows() &&
      r.value.Entries() == MatMul(m.Entries(), Transposed(other.m.Entries(), other.m.Rows(), other.m.Cols()), m.Rows(), m.Cols(), other.m.Rows())
    ensures other.MatrixValue? && other.m.kind == MatrixDouble && m.Cols() != other.m.Cols() ==>
      r == Failure(Gsl(BadLen, InvalidLength))
    ensures !(other.MatrixValue? && other.m.kind == MatrixDouble) ==>
      r == Failure(ArgumentError("vector is " + ClassName(other) + " but require GSL::Matrix::Double"))
  {
    r := MulmFull(reg, m, NoTrans, Trans, other);
  }

  /** `trans_mul_trans(other)`: the transpose of `other.mulm(self)`. */
  method TransMulTrans(reg: Registry, m: Matrix, other: Value) returns (r: Result<Matrix, Exception>)
    requires m.kind == MatrixDouble && m.Valid()
    requires reg.Registered("transpose", TransposeSpec)
    requires other.MatrixValue? ==> other.m.Valid()
    ensures other.MatrixValue? && other.m.kind == MatrixDouble && m.Rows() == other.m.Cols() ==>
      r.Success? && fresh(r.value) && fresh(r.value.data) && r.value.kind == MatrixDouble && !r.value.isLU &&
      r.value.Rows() == m.Cols() && r.value.Cols() == other.m.Rows() &&
      r.value.Entries() == Transposed(MatMul(other.m.Entries(), m.Entries(), other.m.Rows(), other.m.Cols(), m.Cols()), other.m.Rows(), m.Cols())
    ensures other.MatrixValue? && other.m.kind == MatrixDouble && m.Rows() != other.m.Cols() ==>
      r == Failure(Gsl(BadLen, InvalidLength))
    ensures !(other.MatrixValue? && other.m.kind == MatrixDouble) ==>
      r == Failure(ArgumentError("vector is " + ClassName(other) + " but require GSL::Matrix::Double"))
  {
    r := MulmFull(reg, m, Trans, Trans, other);
    if other.MatrixValue? && other.m.kind == MatrixDouble && m.Rows() == other.m.Cols() {
      MatMulTransposed(other.m.Entries(), m.Entries(), other.m.Rows(), other.m.Cols(), m.Cols());
    }
  }

  /** `mulv(other)` with `Double#_mulv`: `other` must be a `Vector::Double`
      whose size is the number of columns; the result is a fresh
      `Vector::Double` of `self.rows` elements holding `self * other`. */
  method Mulv(reg: Registry, m: Matrix, other: Value) returns (r: Result<Vector, Exception>)
    requires m.kind == MatrixDouble && m.Valid()
    requires reg.Registered("transpose", TransposeSpec)
    ensures !(other.VectorValue? && other.v.kind == VectorDouble) ==>
      r == Failure(ArgumentError("vector is " + ClassName(other) + " but require GSL::Vector::Double"))
    ensures other.VectorValue? && other.v.kind == VectorDouble && other.v.Size() != m.Cols() ==>
      r == Failure(Gsl(BadLen, InvalidLength))
    ensures other.VectorValue? && other.v.kind == VectorDouble && other.v.Size() == m.Cols() ==>
      && r.Success? && fresh(r.value) && fresh(r.value.data) && r.value.kind == VectorDouble
      && r.value.Size() == m.Rows()
      && r.value.data[..] == MatVec(m.Entries(), other.v.data[..], m.Rows(), m.Cols())
  {
    if !(other.VectorValue? && other.v.kind == VectorDouble) {
      return Failure(ArgumentError("vector is " + ClassName(other) + " but require GSL::Vector::Double"));
    }
    var x := other.v;
    var result := new Vector.Alloc(VectorDouble, m.Rows());
    TransposeCode(reg, NoTrans);
    var trans := reg.EnumValue("transpose", SymbolArg(TransSymbol(NoTrans))).value.n;
    assert trans == CblasCode(NoTrans);
    if x.data.Length != m.Cols() {
      return Failure(Gsl(BadLen, InvalidLength));
    }
    var y := MatVec(m.Entries(), x.data[..], m.Rows(), m.Cols());
    ghost var entries, xs := m.Entries(), x.data[..];
    forall i | 0 <= i < m.Rows() {
      result.data[i] := y[i];
    }
    assert m.Entries() == entries && x.data[..] == xs;
    assert result.data[..] == y;
    r := Success(result);
  }

  /** `mul(other)`: a matrix goes to `mulm`, a vector to `mulv`, anything
      else raises ArgumentError. */
  method Mul(reg: Registry, m: Matrix, other: Value) returns (r: Result<Value, Exception>)
    requires m.kind == MatrixDouble && m.Valid()
    requires reg.Registered("transpose", TransposeSpec)
    requires other.MatrixValue? ==> other.m.Valid()
    ensures other.OtherValue? ==> r == Failure(ArgumentError("don't know how to multiply by " + other.className))
    ensures other.MatrixValue? && other.m.kind == MatrixDouble && m.Cols() == other.m.Rows() ==>
      r.Success? && r.value.MatrixValue? && fresh(r.value.m) && fresh(r.value.m.data) && r.value.m.kind == MatrixDouble &&
      r.value.m.Entries() == MatMul(m.Entries(), other.m.Entries(), m.Rows(), m.Cols(), other.m.Cols())
    ensures other.VectorValue? && other.v.kind == VectorDouble && other.v.Size() == m.Cols() ==>
      r.Success? && r.value.VectorValue? && fresh(r.value.v) && fresh(r.value.v.data) && r.value.v.kind == VectorDouble &&
      r.value.v.data[..] == MatVec(m.Entries(), other.v.data[..], m.Rows(), m.Cols())
    ensures other.MatrixValue? && other.m.kind == MatrixDouble && m.Cols() != other.m.Rows() ==>
      r == Failure(Gsl(BadLen, InvalidLength))
    ensures other.VectorValue? && other.v.kind == VectorDouble && other.v.Size() != m.Cols() ==>
      r == Failure(Gsl(BadLen, InvalidLength))
    ensures other.MatrixValue? && other.m.kind != MatrixDouble ==>
      r == Failure(ArgumentError("vector is " + ClassName(other) + " but require GSL::Matrix::Double"))
    ensures other.VectorValue? && other.v.kind != VectorDouble ==>
      r == Failure(ArgumentError("vector is " + ClassName(other) + " but require GSL::Vector::Double"))
  {
    match other
    case MatrixValue(_) =>
      var p := Mulm(reg, m, other);
      r := if p.Success? then Success(MatrixValue(p.value)) else Failure(p.error);
    case VectorValue(_) =>
      var y := Mulv(reg, m, other);
      r := if y.Success? then Success(VectorValue(y.value)) else Failure(y.error);
    case OtherValue(c) =>
      r := Failure(ArgumentError("don't know how to multiply by " + c));
  }
}
