/** The exception classes of lib/gsl/error.rb and the Ruby exceptions the
    rest of the library raises. */
module ErrorClasses {
  import opened Results

  /** `GSL::Continue` and `GSL::Error` derive from RuntimeError; every other
      class is declared inside `GSL::Error` and derives from it.
      (`NoMem` is declared twice in the source; the second declaration
      reopens the first, so it is one class.) */
  datatype ErrClass =
    | Continue
    | Error
    | Domain | Range | NoMem | Invalid | Failed | Factor | Sanity
    | BadFunc | Runaway | MaxIter | ZeroDiv | BadTolerance | Tolerance
    | Underflow | Overflow | Loss | Round | BadLen | NotSquare
    | Singularity | Divergent | Unsupported | Unimplemented | Cache
    | Table | NoProgress | NoProgressJacobian | ToleranceF | ToleranceX
    | ToleranceG | EOF

  /** The direct superclass among the classes above; `None` stands for
      Ruby's RuntimeError, the root of this hierarchy. */
  function Superclass(c: ErrClass): (s: Option<ErrClass>)
    ensures s.None? <==> c == Continue || c == Error
    ensures s.Some? ==> s.value == Error
  {
    if c == Continue || c == Error then None else Some(Error)
  }

  /** Ruby's `c <= d`: c is d or inherits from d (the hierarchy has depth
      two, so the superclass's superclass is RuntimeError). */
  predicate SubclassOf(c: ErrClass, d: ErrClass)
  {
    c == d || (Superclass(c).Some? && Superclass(c).value == d)
  }

  /** Every class except `Continue` is a `GSL::Error`; `Continue` is not,
      so rescuing `GSL::Error` never catches the "continue" signal. */
  lemma FailureClassesAreErrors(c: ErrClass)
    ensures SubclassOf(c, Error) <==> c != Continue
  {
  }

  /** What a Ruby call of this library raises. */
  datatype Exception =
    | ArgumentError(message: string)
    | NameError(message: string)
    | NoMethodError(name: string)
      /** An instance of one of the classes above, raised by the GSL error handler. */
    | Gsl(cls: ErrClass, message: string)
}
