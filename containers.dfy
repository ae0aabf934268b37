/** The Ruby-level container protocol of `GSL::Vector` (lib/gsl/vector.rb)
    and the state of a `GSL::Matrix` that the BLAS and linear-algebra layers
    read and update. A vector owns a fixed-size element buffer that its
    methods update in place; elements are exact reals standing in for the
    backend's `double`, `float` and `int` cells. */
module Containers {
  import opened Results
  import opened ErrorClasses

  /** The three vector classes `GSL::Vector::Double`, `::Float` and `::Int`. */
  datatype VectorKind = VectorDouble | VectorFloat | VectorInt

  function VectorClassName(k: VectorKind): string
  {
    match k
    case VectorDouble => "GSL::Vector::Double"
    case VectorFloat => "GSL::Vector::Float"
    case VectorInt => "GSL::Vector::Int"
  }

  /** The matrix classes: `GSL::Matrix::Double`, `::Float`, and the other
      element types (`Int`, `Char`, ...), named by their last segment. */
  datatype MatrixKind = MatrixDouble | MatrixFloat | MatrixOther(name: string)

  function MatrixClassName(k: MatrixKind): string
  {
    match k
    case MatrixDouble => "GSL::Matrix::Double"
    case MatrixFloat => "GSL::Matrix::Float"
    case MatrixOther(name) => "GSL::Matrix::" + name
  }

  /** Reasons the GSL backend reports through the error handler. */
  const AllocReason := "vector length n must be positive integer"
  const IndexReason := "index out of range"
  const LengthReason := "vectors must have same length"

  /** The argument of `Vector#initialize`: a size, or an array-like object
      (one responding to `size` and `each`) whose items become the elements. */
  datatype InitArg = SizeArg(n: nat) | ItemsArg(items: seq<real>)

  /** A sequence of `n` copies of `x`. */
  function Fill(n: nat, x: real): (r: seq<real>)
    ensures |r| == n && forall i :: 0 <= i < n ==> r[i] == x
  {
    seq(n, _ => x)
  }

  /** The backend's elementwise operations `gsl_vector_add` ... `_div`. */
  datatype Op = Add | Sub | Mul | Div

  function Apply(op: Op, x: real, y: real): real
    requires op == Div ==> y != 0.0
  {
    match op
    case Add => x + y
    case Sub => x - y
    case Mul => x * y
    case Div => x / y
  }

  predicate NoZero(b: seq<real>)
  {
    forall i :: 0 <= i < |b| ==> b[i] != 0.0
  }

  /** Element `i` of the result is `a[i] op b[i]`. */
  function Elementwise(op: Op, a: seq<real>, b: seq<real>): (r: seq<real>)
    requires |a| == |b| && (op == Div ==> NoZero(b))
    ensures |r| == |a| && forall i :: 0 <= i < |a| ==> r[i] == Apply(op, a[i], b[i])
  {
    seq(|a|, i requires 0 <= i < |a| => Apply(op, a[i], b[i]))
  }

  /** Adding then subtracting the same vector gives the original elements. */
  lemma AddThenSub(a: seq<real>, b: seq<real>)
    requires |a| == |b|
    ensures Elementwise(Sub, Elementwise(Add, a, b), b) == a
  {
    var s := Elementwise(Add, a, b);
    assert forall i :: 0 <= i < |a| ==> Elementwise(Sub, s, b)[i] == a[i];
  }

  /** Multiplying then dividing by a vector without zeros gives the original. */
  lemma MulThenDiv(a: seq<real>, b: seq<real>)
    requires |a| == |b| && NoZero(b)
    ensures NoZero(b) && Elementwise(Div, Elementwise(Mul, a, b), b) == a
  {
    var s := Elementwise(Mul, a, b);
    forall i | 0 <= i < |a| ensures Elementwise(Div, s, b)[i] == a[i] {
      assert s[i] == a[i] * b[i];
    }
  }

  /** Addition and multiplication do not depend on the order of the operands. */
  lemma ElementwiseCommutes(op: Op, a: seq<real>, b: seq<real>)
    requires |a| == |b| && (op == Add || op == Mul)
    ensures Elementwise(op, a, b) == Elementwise(op, b, a)
  {
    assert forall i :: 0 <= i < |a| ==> Elementwise(op, a, b)[i] == Elementwise(op, b, a)[i];
  }

  /** The values of the spec examples: 1 + 2, 7 - 5, 3 * 3 and 10 / 2. */
  lemma ElementwiseExamples()
    ensures Elementwise(Add, [1.0], [2.0]) == [3.0]
    ensures Elementwise(Sub, [7.0], [5.0]) == [2.0]
    ensures Elementwise(Mul, [3.0], [3.0]) == [9.0]
    ensures Elementwise(Div, [10.0], [2.0]) == [5.0]
  {
  }

  class Vector {
    const kind: VectorKind
    /** The element buffer; its length is `size`. */
    const data: array<real>

    /** Every allocated vector has at least one element. */
    predicate Valid()
    {
      data.Length >= 1
    }

    /** `attr_reader :size`. */
    function Size(): nat
    {
      data.Length
    }

    /** `alloc(size)` for a positive size. */
    constructor Alloc(kind: VectorKind, n: nat)
      requires n >= 1
      ensures this.kind == kind && data.Length == n && fresh(data)
    {
      this.kind := kind;
      data := new real[n];
    }

    /** `[](idx)`: the element, or `Error::Invalid` for an index past the end.
        The index is passed as a `size_t`, so a negative Integer wraps to a
        value past the end and is refused the same way. */
    function Get(idx: int): (r: Result<real, Exception>)
      reads data
      ensures r.Success? <==> 0 <= idx < Size()
      ensures r.Success? ==> r.value == data[idx]
      ensures r.Failure? ==> r.error == Gsl(Invalid, IndexReason)
    {
      if 0 <= idx < data.Length then Success(data[idx]) else Failure(Gsl(Invalid, IndexReason))
    }

    /** `[]=(idx, val)`: writes one element and returns `self`; an index past
        the end (a negative one included, as for `[]`) raises `Error::Invalid`
        and writes nothing. */
    method SetAt(idx: int, val: real) returns (r: Result<Vector, Exception>)
      modifies data
      ensures 0 <= idx < Size() ==> r == Success(this) && data[..] == old(data[..])[idx := val]
      ensures 0 <= idx < Size() ==> Get(idx) == Success(val)
      ensures 0 <= idx < Size() ==> forall j :: 0 <= j < Size() && j != idx ==> Get(j) == old(Get(j))
      ensures !(0 <= idx < Size()) ==> r == Failure(Gsl(Invalid, IndexReason)) && data[..] == old(data[..])
    {
      if 0 <= idx < data.Length {
        data[idx] := val;
        r := Success(this);
      } else {
        r := Failure(Gsl(Invalid, IndexReason));
      }
    }

    /** `set_all!(value)`: every element becomes `value`; returns `self`. */
    method SetAllInPlace(value: real) returns (r: Vector)
      modifies data
      ensures r == this && data[..] == Fill(Size(), value)
    {
      forall i | 0 <= i < data.Length {
        data[i] := value;
      }
      r := this;
    }

    /** `set_zero!`: every element becomes 0; returns `self`. */
    method SetZeroInPlace() returns (r: Vector)
      modifies data
      ensures r == this && data[..] == Fill(Size(), 0.0)
    {
      forall i | 0 <= i < data.Length {
        data[i] := 0.0;
      }
      r := this;
    }

    /** `clone`: a new vector of the same class, re-allocated at the same size,
        with the elements copied by `memcpy`. */
    method Clone() returns (c: Vector)
      requires Valid()
      ensures fresh(c) && fresh(c.data)
      ensures c.kind == kind && c.data[..] == data[..]
    {
      c := new Vector.Alloc(kind, data.Length);
      forall i | 0 <= i < data.Length {
        c.data[i] := data[i];
      }
    }

    /** `to_ary`: an array of the elements, filled index by index. */
    method ToAry() returns (ary: seq<real>)
      ensures |ary| == Size()
      ensures forall i :: 0 <= i < Size() ==> Get(i) == Success(ary[i])
    {
      ary := Fill(data.Length, 0.0);
      var i := 0;
      while i < data.Length
        invariant 0 <= i <= data.Length
        invariant |ary| == data.Length
        invariant forall j :: 0 <= j < i ==> ary[j] == data[j]
      {
        var e := Get(i);
        ary := ary[i := e.value];
        i := i + 1;
      }
    }

    /** `add!` ... `div!`: the class-match guard raises ArgumentError before
        anything is touched; a length mismatch raises `Error::BadLen` from the
        backend; otherwise element `i` becomes `self[i] op other[i]` and the
        result is `self`. */
    method OpInPlace(op: Op, other: Value) returns (r: Result<Vector, Exception>)
      requires op == Div && MatchingVectorArg(kind, other).None? && other.v.Size() == Size() ==> NoZero(other.v.data[..])
      modifies data
      ensures MatchingVectorArg(kind, other).Some? ==>
        r == Failure(MatchingVectorArg(kind, other).value) && data[..] == old(data[..])
      ensures MatchingVectorArg(kind, other).None? && other.v.Size() != Size() ==>
        r == Failure(Gsl(BadLen, LengthReason)) && data[..] == old(data[..])
      ensures MatchingVectorArg(kind, other).None? && other.v.Size() == Size() ==>
        r == Success(this) && data[..] == Elementwise(op, old(data[..]), old(other.v.data[..]))
    {
      var bad := MatchingVectorArg(kind, other);
      if bad.Some? {
        return Failure(bad.value);
      }
      var b := other.v;
      if b.data.Length != data.Length {
        return Failure(Gsl(BadLen, LengthReason));
      }
      ghost var before := data[..];
      ghost var operand := b.data[..];
      forall i | 0 <= i < data.Length {
        data[i] := Apply(op, data[i], b.data[i]);
      }
      assert forall i :: 0 <= i < data.Length ==> data[i] == Apply(op, before[i], operand[i]);
      r := Success(this);
    }

    /** `set_all(value)`: `clone.set_all!(value)`; the receiver is unchanged. */
    method SetAll(value: real) returns (c: Vector)
      requires Valid()
      ensures fresh(c) && fresh(c.data) && c.kind == kind
      ensures c.data[..] == Fill(Size(), value)
    {
      c := Clone();
      c := c.SetAllInPlace(value);
    }

    /** `set_zero`: `clone.set_zero!`; the receiver is unchanged. */
    method SetZero() returns (c: Vector)
      requires Valid()
      ensures fresh(c) && fresh(c.data) && c.kind == kind
      ensures c.data[..] == Fill(Size(), 0.0)
    {
      c := Clone();
      c := c.SetZeroInPlace();
    }

    /** `add` ... `div`: `clone.op!(other)`. The receiver is unchanged; the
        errors are those of the bang operation. */
    method OpCopy(op: Op, other: Value) returns (r: Result<Vector, Exception>)
      requires Valid()
      requires op == Div && MatchingVectorArg(kind, other).None? && other.v.Size() == Size() ==> NoZero(other.v.data[..])
      ensures MatchingVectorArg(kind, other).Some? ==> r == Failure(MatchingVectorArg(kind, other).value)
      ensures MatchingVectorArg(kind, other).None? && other.v.Size() != Size() ==>
        r == Failure(Gsl(BadLen, LengthReason))
      ensures MatchingVectorArg(kind, other).None? && other.v.Size() == Size() ==>
        r.Success? && fresh(r.value) && r.value.kind == kind &&
        r.value.data[..] == Elementwise(op, data[..], other.v.data[..])
    {
      var c := Clone();
      r := c.OpInPlace(op, other);
    }
  }

  /** What a Ruby method may receive as an argument: a vector, a matrix, or
      any other object, known by its class name. */
  datatype Value = VectorValue(v: Vector) | MatrixValue(m: Matrix) | OtherValue(className: string)

  function ClassName(x: Value): string
  {
    match x
    case VectorValue(v) => VectorClassName(v.kind)
    case MatrixValue(m) => MatrixClassName(m.kind)
    case OtherValue(c) => c
  }

  /** `Vector.check_matching_vector_arg(a, b)`: `b` must be a vector of the
      same class as `a`; the error it raises otherwise, if any. */
  function MatchingVectorArg(a: VectorKind, b: Value): (r: Option<Exception>)
    ensures r == None <==> b.VectorValue? && b.v.kind == a
    ensures !b.VectorValue? ==> r == Some(ArgumentError("not a vector"))
    ensures b.VectorValue? && b.v.kind != a ==>
      r == Some(ArgumentError("vector of class " + VectorClassName(b.v.kind) + " but require " + VectorClassName(a)))
  {
    if !b.VectorValue? then Some(ArgumentError("not a vector"))
    else if b.v.kind != a then
      Some(ArgumentError("vector of class " + VectorClassName(b.v.kind) + " but require " + VectorClassName(a)))
    else None
  }

  /** `Vector#initialize(arg)`: allocates `size` elements (a size of 0 makes
      the backend raise `Error::Invalid`), then writes the items of an
      array-like argument one by one with `[]=`. */
  method New(kind: VectorKind, arg: InitArg) returns (r: Result<Vector, Exception>)
    ensures r.Success? <==> (if arg.SizeArg? then arg.n >= 1 else |arg.items| >= 1)
    ensures r.Failure? ==> r.error == Gsl(Invalid, AllocReason)
    ensures r.Success? ==> fresh(r.value) && fresh(r.value.data) && r.value.kind == kind && r.value.Valid()
    ensures r.Success? && arg.SizeArg? ==> r.value.Size() == arg.n
    ensures r.Success? && arg.ItemsArg? ==> r.value.data[..] == arg.items
  {
    var n := if arg.SizeArg? then arg.n else |arg.items|;
    if n == 0 {
      return Failure(Gsl(Invalid, AllocReason));
    }
    var v := new Vector.Alloc(kind, n);
    if arg.ItemsArg? {
      var items := arg.items;
      var i := 0;
      while i < |items|
        invariant 0 <= i <= |items|
        invariant forall j :: 0 <= j < i ==> v.data[j] == items[j]
      {
        var _ := v.SetAt(i, items[i]);
        i := i + 1;
      }
      assert v.data[..] == items;
    }
    r := Success(v);
  }

  /** `GSL::Vector.new(arg)`: a `GSL::Vector::Double`. */
  method VectorNew(arg: InitArg) returns (r: Result<Vector, Exception>)
    ensures r.Success? <==> (if arg.SizeArg? then arg.n >= 1 else |arg.items| >= 1)
    ensures r.Success? ==> fresh(r.value) && r.value.kind == VectorDouble
    ensures r.Success? && arg.ItemsArg? ==> r.value.data[..] == arg.items
  {
    r := New(VectorDouble, arg);
  }

  /** `to_ary` returns the items the vector was built from. */
  method ToAryOfNew(kind: VectorKind, items: seq<real>) returns (ary: seq<real>)
    requires |items| >= 1
    ensures ary == items
  {
    var r := New(kind, ItemsArg(items));
    ary := r.value.ToAry();
  }

  /** A clone does not see later writes to the original. */
  method CloneIsIndependent(v: Vector, idx: nat, x: real) returns (c: Vector)
    requires v.Valid()
    modifies v.data
    ensures c.data[..] == old(v.data[..])
    ensures idx < v.Size() ==> v.data[..] == old(v.data[..])[idx := x]
  {
    c := v.Clone();
    var _ := v.SetAt(idx, x);
  }

  /** A matrix: its class, its `size1 x size2` element buffer, and the state
      `LU_decomp!` adds (`@is_LU_decomp`, `@perm`, `@signum`). */
  class Matrix {
    const kind: MatrixKind
    const data: array2<real>
    var isLU: bool
    var perm: seq<nat>
    var signum: int

    function Rows(): nat
    {
      data.Length0
    }

    function Cols(): nat
    {
      data.Length1
    }

    /** Every allocated matrix has at least one row and one column. */
    predicate Valid()
    {
      data.Length0 >= 1 && data.Length1 >= 1
    }

    /** The elements, row by row. */
    function Entries(): (e: seq<seq<real>>)
      reads data
      ensures |e| == Rows()
      ensures forall i :: 0 <= i < Rows() ==> |e[i]| == Cols()
      ensures forall i, j :: 0 <= i < Rows() && 0 <= j < Cols() ==> e[i][j] == data[i, j]
    {
      seq(data.Length0, i reads data requires 0 <= i < data.Length0 =>
        seq(data.Length1, j reads data requires 0 <= j < data.Length1 => data[i, j]))
    }

    /** The backend writing a whole `rows x cols` block of elements. */
    method Store(e: seq<seq<real>>)
      requires |e| == Rows() && forall i :: 0 <= i < Rows() ==> |e[i]| == Cols()
      modifies data
      ensures Entries() == e
    {
      forall i, j | 0 <= i < data.Length0 && 0 <= j < data.Length1 {
        data[i, j] := e[i][j];
      }
      forall i | 0 <= i < data.Length0 ensures Entries()[i] == e[i] {
        assert forall j :: 0 <= j < data.Length1 ==> Entries()[i][j] == e[i][j];
      }
    }

    /** `Matrix.new(rows, cols)`: a fresh matrix, not an LU decomposition. */
    constructor Alloc(kind: MatrixKind, rows: nat, cols: nat)
      requires rows >= 1 && cols >= 1
      ensures this.kind == kind && Rows() == rows && Cols() == cols && fresh(data)
      ensures !isLU
    {
      this.kind := kind;
      data := new real[rows, cols];
      isLU := false;
      perm := [];
      signum := 0;
    }
  }
}
