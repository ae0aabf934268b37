# gsl-rb core in Dafny

This project models the Ruby layer of gsl-rb, the FFI binding of the GNU
Scientific Library, and proves properties of it. The modelled parts are
the layer's own logic:

- **Enum tables** (`GSL.enum`, `GSL.enum_value`). A spec list of symbols and
  explicit integers is scanned into a forward table (symbol to integer) and a
  reverse table (integer to symbol). The tables are registered per type in
  the class-level `@@enum`/`@@enum_rev` hashes. This covers the status table
  of GSL's error codes and the CBLAS order/transpose/uplo/diag/side constants.
- **Name mangling.** `underscore`, `gsl_name`, `gsl_types`, `argstring` and
  `upcall` build GSL C names and method text. `Attacher#gsl_function`,
  `#local_method` and `TypedAttacher#typeconv` name the bound functions and
  their typed signatures.
- **Status to exception.** `status_to_err_class` maps a status to an
  exception class of the `GSL::Error` hierarchy. `ERROR_HANDLER` picks the
  class and formats the message `"reason (file:line)"`.
- **`GSL::Vector`.** A class over a fixed-size element array. It covers
  construction from a size or an array, `[]`, `[]=`, `set_all!`, `set_zero!`,
  `clone`, `to_ary`, the in-place operations `add!`/`sub!`/`mul!`/`div!`,
  their copying forms, and the class-match guard.
- **BLAS.** `dot` and `asum` on vectors. `mul` dispatch, `mulv`, and `mulm`
  with its three transposed variants. These come with their type guards,
  result shapes and products.
- **LU type state.** `LU_decomp!` moves a `Matrix::Double` from fresh to
  factored. Only a factored matrix has `is_LU_decomp?`, `solve` and `inv`.

Ruby symbols are strings. A Ruby exception is a value of
`ErrorClasses.Exception`: `ArgumentError`, `NameError`, `NoMethodError`, or
`Gsl(cls, message)` for the classes under `GSL::Error` and `GSL::Continue`.
An operation that may raise returns a `Result`. The GSL C backend is given
its mathematical meaning over exact reals where the Ruby code relies on it:
elementwise operations, the dot product, the absolute sum and the matrix
products. Where the layer only hands memory to the backend, the backend's
output is a parameter: the LU factors, permutation and sign. The values of
a solution or an inverse are left open.

Two behaviours are modelled as written because the rest of the library sees
them:

- `enum_value` builds its "not found" message from an undefined local `val`.
  A missing key therefore raises NameError, not ArgumentError.
- `status_to_err_class` with a Symbol gets an Integer back from
  `enum_value`. That Integer matches no `when` and selects `Error`.

Modules: `Results`, `ErrorClasses` (error.rb hierarchy), `Enums` (gsl.rb
enums), `Helper` (helper.rb), `Attachers` (gsl.rb attachers), `ErrorStatus`
(error.rb mapping and handler), `Containers` (vector.rb and the matrix
state), `Blas` (blas.rb) and `LinAlg` (linalg.rb).

## Model

| member | source | states |
|---|---|---|
| ErrorClasses.Superclass | lib/gsl/error.rb:5-38 | `Continue` and `Error` sit directly under RuntimeError; every other class has `Error` as its superclass |
| ErrorClasses.FailureClassesAreErrors | lib/gsl/error.rb:5-38 | a class is a subclass of `Error` exactly when it is not `Continue` |
| Enums.Forward | lib/gsl/gsl.rb:36-44 | the forward table's keys are exactly the assigned symbols |
| Enums.Reverse | lib/gsl/gsl.rb:37-45 | the reverse table's keys are exactly the assigned values |
| Enums.ForwardAt | lib/gsl/gsl.rb:36-44 | a symbol not reassigned later maps to the value it was assigned |
| Enums.ReverseAt | lib/gsl/gsl.rb:37-45 | a value not reassigned later maps back to the symbol it was assigned to |
| Enums.ForwardFrom | lib/gsl/gsl.rb:36-44 | every forward entry comes from an assignment made by the scan |
| Enums.ReverseFrom | lib/gsl/gsl.rb:37-45 | every reverse entry comes from an assignment made by the scan |
| Enums.ReverseOfForward | lib/gsl/gsl.rb:36-45 | with distinct values, the reverse table inverts the forward table |
| Enums.ForwardOfReverse | lib/gsl/gsl.rb:36-45 | with distinct symbols, the forward table inverts the reverse table |
| Enums.CounterRun | lib/gsl/gsl.rb:41-47 | a run of bare symbols that reaches the end of the list takes consecutive values from the running counter (every bare run in gsl.rb's tables is such a trailing run) |
| Enums.WalkBound | lib/gsl/gsl.rb:26-49 | each item of the spec list makes at most one assignment, and every assigned symbol is a Symbol of the list |
| Enums.ExplicitValue | lib/gsl/gsl.rb:32-40 | a symbol followed by an integer gets that integer, the integer is consumed, and the counter continues at integer + 1 |
| Enums.ExplicitStep | lib/gsl/gsl.rb:32-40 | the scan step for a symbol with an explicit value: one pair, then the scan resumes two items on with the counter at value + 1 |
| Enums.AppendOne | lib/gsl/gsl.rb:36-45 | recording one more assignment updates both tables at that key |
| Enums.Registry.constructor | lib/gsl/gsl.rb:51-54 | the registry starts with no tables |
| Enums.Registry.Enum | lib/gsl/gsl.rb:17-56 | `enum` stores the forward and reverse tables of the scanned spec under its type and leaves every other type's tables as they were |
| Enums.Registry.EnumValue | lib/gsl/gsl.rb:60-79 | succeeds exactly for a registered type with the key present: a symbol gives an integer and an integer gives a symbol; an unregistered type raises ArgumentError "no such enum"; a missing key raises NameError; any other argument raises ArgumentError "expected symbol or integer but got C" |
| Enums.EnumRoundTrip | lib/gsl/gsl.rb:60-74 | with distinct values, `enum_value(t, enum_value(t, sym)) == sym` |
| Enums.EnumRoundTripInt | lib/gsl/gsl.rb:60-74 | with distinct symbols, `enum_value(t, enum_value(t, n)) == n` |
| Enums.StatusShapeWalk | lib/gsl/gsl.rb:89-123 | a spec shaped like the status list assigns 35 pairs with the status values |
| Enums.StatusAssignments | lib/gsl/gsl.rb:89-123 | `:success`=0, `:failure`=-1, `:continue`=-2, `:edom`=1, and the 31 remaining codes take 2..32 in order |
| Enums.StatusPosition | lib/gsl/gsl.rb:89-123 | every value -2..32 is the value of one of the 35 positions of the status table |
| Enums.StatusValuesDistinctOf | lib/gsl/gsl.rb:89-123 | pairs of the status shape have distinct values |
| Enums.StatusValuesDistinct | lib/gsl/gsl.rb:89-123 | the status table assigns no value twice |
| Enums.ReverseDistinctAt | lib/gsl/gsl.rb:37 | with distinct values, each value maps back to its own symbol |
| Enums.StatusReverseOf | lib/gsl/gsl.rb:89-123 | the reverse status table is defined on exactly -2..32, each value mapping to its assigned symbol |
| Enums.StatusReverseNames | lib/gsl/gsl.rb:89-123 | for any assignments of the status shape, the reverse table has keys exactly -2..32 and names success, failure, continue, edom and the codes in order |
| Enums.StatusReverseTable | lib/gsl/gsl.rb:89-123 | the reverse status table: keys exactly -2..32; 0, -1, -2 and 1 are success, failure, continue and edom; 2..32 are the codes in order |
| Enums.ForwardKey | lib/gsl/gsl.rb:36-44 | a symbol is a forward key exactly when some assignment names it |
| Enums.ForwardKeysNamed | lib/gsl/gsl.rb:36-44 | when the assignments carry a given list of names, the forward keys are exactly those names |
| Enums.StatusForwardOf | lib/gsl/gsl.rb:89-123 | the forward keys of the status shape are exactly the 35 status symbols |
| Enums.StatusForwardKeys | lib/gsl/gsl.rb:89-123 | the forward status table's keys are exactly the 35 status symbols |
| Enums.CblasTables | lib/gsl/gsl.rb:125-135 | the CBLAS constants: row/col major 101/102, no_trans/trans/conjtrans 111/112/113, upper/lower 121/122, non_unit/unit 131/132, left/right 141/142 |
| Enums.SixUpdates | lib/gsl/gsl.rb:51-55 | six per-type registrations keep the tables of every other type |
| Enums.RegisterGslTables | lib/gsl/gsl.rb:89-135 | loading gsl.rb registers the six tables and keeps every other registered type |
| Helper.DashToUnderscore | lib/gsl/helper.rb:7 | `tr("-", "_")` keeps the length, turns every "-" into "_" and changes nothing else |
| Helper.Downcase | lib/gsl/helper.rb:8 | `downcase` keeps the length, turns every ASCII capital into its lower-case letter (code + 32) and changes nothing else |
| Helper.Underscore | lib/gsl/helper.rb:3-9 | the result of `underscore` has no capital and no "-"; UnderscoreClean adds that it has no "::" |
| Helper.ReplaceColonsLeavesNone | lib/gsl/helper.rb:4 | after `gsub(/::/, '_')` no "::" remains |
| Helper.ReplaceColonsIdle | lib/gsl/helper.rb:4 | a string without "::" is unchanged |
| Helper.ReplaceColonsAppend | lib/gsl/helper.rb:4 | the rewrite distributes over a concatenation that creates no new "::" |
| Helper.ReplaceColonsSplit | lib/gsl/helper.rb:4 | `a::b` becomes `a_b`, each side rewritten |
| Helper.CamelBreakLeavesNone | lib/gsl/helper.rb:5-6 | after the camel-case rewrite no lower-case letter or digit is followed by a capital; the rewrite creates no "::" |
| Helper.CamelBreakIdle | lib/gsl/helper.rb:6 | a string without a lower-then-capital pair is unchanged, so runs of capitals stay together |
| Helper.CamelBreakAppend | lib/gsl/helper.rb:6 | the rewrite distributes over a concatenation whose second part does not start with a capital |
| Helper.CamelBreakAround | lib/gsl/helper.rb:6 | the camel-case rewrite distributes over an underscore join |
| Helper.UnscoredAppend | lib/gsl/helper.rb:6 | removing underscores distributes over concatenation |
| Helper.CamelBreakOnlyInserts | lib/gsl/helper.rb:6 | the camel-case rewrite only inserts underscores |
| Helper.UnderscoreClean | lib/gsl/helper.rb:3-9 | `underscore` leaves no capital, no "-" and no "::" |
| Helper.UnderscoreIdempotent | lib/gsl/helper.rb:3-9 | `underscore(underscore(w)) == underscore(w)` |
| Helper.DashToUnderscoreAround | lib/gsl/helper.rb:7 | `tr` distributes over an underscore join |
| Helper.DowncaseAround | lib/gsl/helper.rb:8 | `downcase` distributes over an underscore join |
| Helper.ReplaceColonsAfterUnderscore | lib/gsl/helper.rb:4 | a leading "_" passes the colon rewrite unchanged |
| Helper.CamelBreakAfterUnderscore | lib/gsl/helper.rb:6 | a leading "_" passes the camel-case rewrite unchanged |
| Helper.SpellAround | lib/gsl/helper.rb:6-8 | the last three stages distribute over an underscore join |
| Helper.UnderscoreAround | lib/gsl/helper.rb:3-9 | `underscore(a + "_" + b) == underscore(a) + "_" + underscore(b)` |
| Helper.SplitColons | lib/gsl/helper.rb:23 | `split('::')` yields at least one segment |
| Helper.DropTrailingEmpty | lib/gsl/helper.rb:23 | `split` keeps a prefix of the pieces that does not end in an empty piece |
| Helper.LastSegment | lib/gsl/helper.rb:23 | `split('::')[-1]` is one of the pieces of the name, or "" (`nil.to_s`) when there is none |
| Helper.GslTypes | lib/gsl/helper.rb:21-31 | the scalar type is one of the 11 listed kinds or `double`, and a listed kind is always the underscored last segment of the module name |
| Helper.SplitColonsSplit | lib/gsl/helper.rb:23 | splitting `a::b` splits `a` and `b` |
| Helper.SplitColonsPlain | lib/gsl/helper.rb:23 | a string without colons is one segment |
| Helper.LastSegmentOf | lib/gsl/helper.rb:23 | the last segment of `a::b` is `b` |
| Helper.GslNamePrefix | lib/gsl/helper.rb:17-31 | `gsl_name(n)` is the underscored module name (the first of `gsl_types`), "_", and `underscore(n)` |
| Helper.GslName | lib/gsl/helper.rb:17-19 | a GSL C name has no capital and no "-" |
| Helper.JoinAppend | lib/gsl/helper.rb:46 | joining two non-empty lists puts one separator between the two joins |
| Helper.Argstring | lib/gsl/helper.rb:45-47 | no arguments give the empty string and one argument gives its own name; ArgstringAppend gives the rest |
| Helper.ArgstringAppend | lib/gsl/helper.rb:45-47 | each further argument adds ", " and its name |
| Helper.UpcallMethodName | lib/gsl/helper.rb:64-68 | the method name gets a trailing "!" exactly when `:destructive` is set |
| Helper.Upcall | lib/gsl/helper.rb:49-75 | the generated text opens with the `def` line (the method name and the declared arguments), and the next line calls `GSL.<gsl_name>` with the call arguments of UpcallCallArgs |
| Helper.UpcallCallArgs | lib/gsl/helper.rb:57-62 | the call passes "self" before the declared arguments (just "self" when there are none), or the declared arguments alone with `:no_self` |
| Helper.UpcallExample | lib/gsl/helper.rb:56-75 | `set_all` becomes `set_all!` when destructive, and its call arguments are "self, value" |
| Helper.SpellGsl | lib/gsl/helper.rb:3-9 | "GSL" spells "gsl": the capital run is not split |
| Helper.UnderscoreLowerWord | lib/gsl/helper.rb:3-9 | a word of lower-case letters is left unchanged by `underscore` |
| Helper.SpellCapitalized | lib/gsl/helper.rb:3-9 | a capital followed by lower-case letters spells as the word with its capital lowered |
| Helper.SpellMatrix | lib/gsl/helper.rb:3-9 | "Matrix" spells "matrix" |
| Helper.SpellFloat | lib/gsl/helper.rb:3-9 | "Float" spells "float" |
| Helper.UnderscorePath | lib/gsl/helper.rb:3-9 | a three-segment module path is underscored segment by segment |
| Helper.UnderscoreMatrixFloat | lib/gsl/helper.rb:21 | `underscore("GSL::Matrix::Float") == "gsl_matrix_float"` |
| Helper.GslNameMatrixFloatAlloc | lib/gsl/helper.rb:15-19 | inside `GSL::Matrix::Float`, `gsl_name('alloc')` is "gsl_matrix_float_alloc" |
| Helper.LastSegmentMatrixFloat | lib/gsl/helper.rb:23 | the last segment of "GSL::Matrix::Float" is "Float" |
| Helper.GslTypesOfKind | lib/gsl/helper.rb:22-30 | when the underscored last segment is a listed kind, `gsl_types` is the underscored name and that kind |
| Helper.GslTypesMatrixFloat | lib/gsl/helper.rb:21-31 | `GSL::Matrix::Float.gsl_types == [:gsl_matrix_float, :float]` |
| Attachers.GslFunction | lib/gsl/gsl.rb:326-332 | the C name is `gsl_<prefix>_<suffix>`, with the type segment inserted for a typed attacher whose type is not `:double` |
| Attachers.JoinThree | lib/gsl/gsl.rb:294 | joining three names with "_" puts "_" between them |
| Attachers.JoinFour | lib/gsl/gsl.rb:330 | joining four names with "_" puts "_" between them |
| Attachers.LocalMethod | lib/gsl/gsl.rb:297-299 | the local method is "_" followed by the suffix |
| Attachers.LocalMethodInjective | lib/gsl/gsl.rb:297-299 | different suffixes give different local methods |
| Attachers.TypedIsLongerPrefix | lib/gsl/gsl.rb:326-332 | a typed attacher names what an untyped attacher with prefix `<prefix>_<type>` names |
| Attachers.TypedDoubleIsUntyped | lib/gsl/gsl.rb:326-328 | a `:double` typed attacher names what the untyped attacher names |
| Attachers.Typeconv | lib/gsl/gsl.rb:312-318 | the placeholder `:type` becomes the attacher's type; every other type is kept |
| Attachers.ConvertSignature | lib/gsl/gsl.rb:320-324 | a typed attacher replaces exactly the placeholder entries with its type and keeps the others; an untyped one passes the signature on unchanged |
| Attachers.ConvertReturn | lib/gsl/gsl.rb:322 | the return type is converted like a signature entry |
| Attachers.ConvertSignatureNoPlaceholder | lib/gsl/gsl.rb:320-322 | no placeholder survives a typed conversion |
| Attachers.ConvertSignatureIdempotent | lib/gsl/gsl.rb:312-322 | converting twice is converting once |
| Attachers.AttachGslMethod | lib/gsl/gsl.rb:285-291 | binds the C name of the suffix, with the converted signature, to the local method `_<suffix>` |
| Attachers.Attach | lib/gsl/gsl.rb:271-273 | `attach` binds an instance method |
| Attachers.AttachClass | lib/gsl/gsl.rb:279-281 | `attach_class` binds a class method |
| Attachers.AttacherAgreesWithGslName | lib/gsl/gsl.rb:326-332 | the typed attacher of `GSL::Matrix::Float` and `gsl_name` both name `gsl_matrix_float_alloc` |
| ErrorStatus.StatusToErrClass | lib/gsl/error.rb:41-81 | fails exactly when `enum_value(:status, s)` fails, with the same exception |
| ErrorStatus.StatusToErrClassAsWritten | lib/gsl/error.rb:41-81 | the mapping as written, with the two misspelt constants: a failing `enum_value` lookup propagates its exception unchanged, and wherever it answers it agrees with the corrected mapping |
| ErrorStatus.StatusClassNil | lib/gsl/error.rb:42-80 | only `:success` maps to nil and only `:continue` to `Continue`; every other symbol, listed or not, maps into `GSL::Error` |
| ErrorStatus.StatusClassAsWritten | lib/gsl/error.rb:46-73 | as written the `case` fails exactly on `:edom` and `:enoprogj`, and on every other symbol picks the corrected class |
| ErrorStatus.DigitChar | lib/gsl/error.rb:89 | a digit's character is the digit |
| ErrorStatus.Digits | lib/gsl/error.rb:89 | `%d` of a natural number is a non-empty string of digits |
| ErrorStatus.DigitsRoundTrip | lib/gsl/error.rb:89 | reading back the digits gives the number, without leading zeros |
| ErrorStatus.DecimalRoundTrip | lib/gsl/error.rb:89 | `%d` of any integer is well formed and parses back to the integer |
| ErrorStatus.Raise | lib/gsl/error.rb:88-89 | raises the looked-up class, `Error` when it is nil, with message "reason (file:line)"; a failed lookup raises its own exception |
| ErrorStatus.HandlerMessage | lib/gsl/error.rb:89 | the message starts with the reason and ends with ")" |
| ErrorStatus.HandlerMessageParts | lib/gsl/error.rb:89 | after the reason come " (", the file, ":" and the line in decimal, which parses back to the line |
| ErrorStatus.ErrorHandler | lib/gsl/error.rb:87-90 | the handler raises a GSL error exactly when the status maps to a class, always with message "reason (file:line)" |
| ErrorStatus.ErrorHandlerAsWritten | lib/gsl/error.rb:87-90 | as written the handler raises what the corrected handler raises, or a NameError |
| ErrorStatus.StatusOfCode | lib/gsl/error.rb:42 | a code is known exactly when it is in -2..32; a known code maps by its symbol; an unknown one raises NameError |
| ErrorStatus.StatusCodeClasses | lib/gsl/error.rb:47-77 | each of the 31 codes maps to its class, in table order |
| ErrorStatus.HeadStatusClasses | lib/gsl/error.rb:43-46 | success maps to nil, failure to `Error`, continue to `Continue`, edom to `Domain` |
| ErrorStatus.StatusTable | lib/gsl/error.rb:41-81 | the whole mapping on integers: 0 to nil, -1 to `Error`, -2 to `Continue`, 1 to `Domain`, 2..32 to their classes, anything else to the NameError of `enum_value` |
| ErrorStatus.StatusExamples | lib/gsl/error.rb:48-66 | `einval` gives `Invalid`, `ebadlen` `BadLen`, `enotsqr` `NotSquare`, `esing` `Singularity`; `efault` and `enomem` both give `NoMem` |
| ErrorStatus.OnlyFailureIsBaseError | lib/gsl/error.rb:42-80 | an integer status maps to the base `Error` exactly when it is -1, so the `else Error` branch is unreachable for integers |
| ErrorStatus.SymbolStatusIsBaseError | lib/gsl/error.rb:78-79 | a Symbol status of the table maps to the base `Error` |
| ErrorStatus.HandlerRaises | lib/gsl/error.rb:87-90 | for a known code the handler raises the mapped class, `Error` for success, with message "reason (file:line)" |
| ErrorStatus.HandlerUnknownStatus | lib/gsl/error.rb:87-90 | for an unknown code the handler raises the NameError of `enum_value` |
| ErrorStatus.MisspeltConstants | lib/gsl/error.rb:46-73 | as written, codes 1 and 28 raise NameError; the corrected mapping raises `Domain` and `NoProgressJacobian` |
| Containers.AddThenSub | lib/gsl/vector.rb:172-182 | `add!` then `sub!` with the same vector restores the elements |
| Containers.MulThenDiv | lib/gsl/vector.rb:184-194 | `mul!` then `div!` by a vector without zeros restores the elements |
| Containers.ElementwiseCommutes | lib/gsl/vector.rb:172-188 | elementwise addition and multiplication commute |
| Containers.ElementwiseExamples | lib/gsl/vector.rb:172-194 | 1+2=3, 7-5=2, 3*3=9, 10/2=5 |
| Containers.Fill | lib/gsl/vector.rb:132-141 | the filled contents have the given length and every element is the given value |
| Containers.Elementwise | lib/gsl/vector.rb:172-194 | the elementwise result has the operands' length and element i is `a[i] op b[i]` |
| Containers.Vector.Alloc | lib/gsl/vector.rb:98 | allocation gives a fresh buffer of the requested size |
| Containers.Vector.Get | lib/gsl/vector.rb:121-123 | `[]` returns the element within the size and raises `Invalid` for any other index, a negative one included |
| Containers.Vector.SetAt | lib/gsl/vector.rb:126-129 | `[]=` writes one element and returns self; `[]` reads it back and every other element is unchanged; for an index outside the size, a negative one included, it raises `Invalid` and writes nothing |
| Containers.Vector.SetAllInPlace | lib/gsl/vector.rb:132-135 | `set_all!(x)` sets every element to x and returns self |
| Containers.Vector.SetZeroInPlace | lib/gsl/vector.rb:138-141 | `set_zero!` sets every element to 0 and returns self |
| Containers.Vector.Clone | lib/gsl/vector.rb:113-118 | `clone` is a fresh vector of the same class with its own buffer and the same elements |
| Containers.Vector.ToAry | lib/gsl/vector.rb:163-169 | `to_ary` has the size of the vector and holds element i at index i |
| Containers.Vector.OpInPlace | lib/gsl/vector.rb:172-194 | the class guard fails first with nothing written; then a length mismatch raises `BadLen` with nothing written; otherwise element i becomes `self[i] op other[i]` and self is returned |
| Containers.Vector.SetAll | lib/gsl/vector.rb:196-198 | `set_all(x)` returns a fresh filled vector and leaves the receiver as it was |
| Containers.Vector.SetZero | lib/gsl/vector.rb:144-146 | `set_zero` returns a fresh zero vector and leaves the receiver as it was |
| Containers.Vector.OpCopy | lib/gsl/vector.rb:200-214 | `add`..`div` raise what the bang form raises, or return a fresh vector with the elementwise result; the receiver is unchanged |
| Containers.MatchingVectorArg | lib/gsl/vector.rb:217-224 | passes exactly for a vector of the receiver's class; otherwise "not a vector" or "vector of class B but require A" |
| Containers.New | lib/gsl/vector.rb:90-111 | size n at least 1 gives a fresh vector of size n; an array gives its size and its items in order; size 0 or an empty array raises `Invalid` |
| Containers.VectorNew | lib/gsl/vector.rb:62-64 | `GSL::Vector.new` builds a `Vector::Double` |
| Containers.ToAryOfNew | lib/gsl/vector.rb:104-110 | `to_ary` of a vector built from an array returns that array |
| Containers.CloneIsIndependent | lib/gsl/vector.rb:113-118 | writing the original after `clone` does not change the clone |
| Containers.Matrix.Store | lib/gsl/linalg.rb:87-89 | the backend's writes leave the matrix holding exactly the given elements |
| Containers.Matrix.Alloc | lib/gsl/matrix.rb:89-98 | a new matrix has the requested shape and is not an LU decomposition |
| Blas.DotProductSymmetric | lib/gsl/blas.rb:60-63 | the dot product is symmetric |
| Blas.DotProductExample | lib/gsl/blas.rb:60-63 | [1,2,3] . [4,5,6] = 32 |
| Blas.AbsSum | lib/gsl/blas.rb:73-75 | the absolute sum is never negative and is 0 exactly for a zero vector |
| Blas.AbsSumExample | lib/gsl/blas.rb:73-75 | `asum([1,-2,-3,4]) == 10` |
| Blas.Transposed | lib/gsl/blas.rb:232-234 | the transpose of an r x c matrix is c x r with entry (i, j) the entry (j, i) |
| Blas.MatMul | lib/gsl/blas.rb:232-234 | the product of n x k and k x m matrices is n x m, entry (i, j) the dot product of row i and column j |
| Blas.MatVec | lib/gsl/blas.rb:211-213 | the matrix-vector product has one entry per row, the dot product of that row with the vector |
| Blas.Dot | lib/gsl/blas.rb:60-63 | `Vector::Int` has no `dot`; the class guard runs first; unequal sizes raise `BadLen`; otherwise the dot product |
| Blas.Asum | lib/gsl/blas.rb:73-75 | `Vector::Int` has no `asum`; otherwise the absolute sum |
| Blas.TransposedTwice | lib/gsl/blas.rb:180-183 | transposing twice gives the matrix back |
| Blas.MatVecIsMatMul | lib/gsl/blas.rb:209-215 | `mulv` computes what `mulm` computes with the vector as a one-column matrix |
| Blas.MatMulTransposed | lib/gsl/blas.rb:180-183 | the transpose of A B is B^T A^T |
| Blas.MatMulExample | lib/gsl/blas.rb:134-143 | the 4x3 by 3x1 product of the examples is [[0],[-3],[-6],[-9]] |
| Blas.TransposeCode | lib/gsl/blas.rb:232-233 | with the table of gsl.rb, `enum_value(:transpose, t)` is 111 or 112 |
| Blas.OpOf | lib/gsl/blas.rb:232-234 | the operand for a code has the shape of the matrix or of its transpose |
| Blas.MulmFull | lib/gsl/blas.rb:192-236 | a non-`Matrix::Double` argument raises ArgumentError; mismatched inner dimensions raise `BadLen`; otherwise a fresh non-LU `Matrix::Double` (the `GSL::Matrix.new` of `_mulm` read as `GSL::Matrix::Double.new`), with rows from `self.rows`/`self.cols` and cols from `other.cols`/`other.rows` by the flags, holding op(self) op(other) |
| Blas.MulmFullAsWritten | lib/gsl/blas.rb:192-230 | read against this version's lib/gsl/matrix.rb, `mulm_full` never succeeds: past the class guard `GSL::Matrix.new` raises NoMethodError |
| Blas.MatrixNewMissing | lib/gsl/blas.rb:230 | for two 2 x 2 `Matrix::Double` values, `mulm` read against this version's lib/gsl/matrix.rb raises NoMethodError, while the `mulm` of the matrix API the specs use returns their 2 x 2 product |
| Blas.Mulm | lib/gsl/blas.rb:166-168 | `mulm` raises the class guard's ArgumentError, `BadLen` when `self.cols != other.rows`, and otherwise returns a fresh non-LU `Matrix::Double` with a fresh element buffer, of `self.rows x other.cols`, holding the plain product |
| Blas.TransMul | lib/gsl/blas.rb:171-173 | `trans_mul` raises the class guard's ArgumentError, `BadLen` when `self.rows != other.rows`, and otherwise returns a fresh non-LU `Matrix::Double` with a fresh element buffer holding self^T other |
| Blas.MulTrans | lib/gsl/blas.rb:176-178 | `mul_trans` raises the class guard's ArgumentError, `BadLen` when `self.cols != other.cols`, and otherwise returns a fresh non-LU `Matrix::Double` with a fresh element buffer holding self other^T |
| Blas.TransMulTrans | lib/gsl/blas.rb:181-183 | `trans_mul_trans` raises the class guard's ArgumentError, `BadLen` when `self.rows != other.cols`, and otherwise returns a fresh non-LU `Matrix::Double` with a fresh element buffer holding the transpose of `other.mulm(self)` |
| Blas.Mulv | lib/gsl/blas.rb:151-158 | a non-`Vector::Double` argument raises ArgumentError; a size other than the column count raises `BadLen`; otherwise a fresh `Vector::Double` of `self.rows` elements holding self x |
| Blas.Mul | lib/gsl/blas.rb:134-143 | a matrix goes to `mulm` and a vector to `mulv`, with their ArgumentErrors, their `BadLen` on mismatched dimensions and their fresh `Double` results with fresh element buffers; anything else raises "don't know how to multiply by C" |
| LinAlg.LUDecomp | lib/gsl/linalg.rb:31-45 | `Matrix::Double` only; a non-square matrix raises `NotSquare` with nothing changed; otherwise the matrix holds the factors, is marked LU, keeps the permutation of `cols` entries and the sign, and is returned |
| LinAlg.IsLUDecomp | lib/gsl/linalg.rb:54-56 | `is_LU_decomp?` exists exactly on an LU decomposition and is then true |
| LinAlg.Solve | lib/gsl/linalg.rb:63-65 | a fresh matrix has no `solve`; a vector of the wrong size raises `BadLen`; otherwise a fresh `Vector::Double` of `vec.size`, with neither input written |
| LinAlg.Inv | lib/gsl/linalg.rb:78-80 | a fresh matrix has no `inv`; otherwise a fresh rows x cols `Matrix::Double` |
| LinAlg.FreshThenFactored | lib/gsl/linalg.rb:40-42 | before `LU_decomp!` `solve` is missing; after it, `is_LU_decomp?` is true and `solve` answers |

## Findings

| source | as written | input that shows it | evidently intended | confidence | as-written member | corrected member |
|---|---|---|---|---|---|---|
| lib/gsl/error.rb:46 | `:edom` selects `Error::Domainn`, which does not exist | error handler called with status 1 (`GSL_EDOM`) raises NameError | raise `Error::Domain` | high, not executed | ErrorStatus.MisspeltConstants | ErrorStatus.StatusTable |
| lib/gsl/error.rb:73 | `:enoprogj` selects `Error::NoProgressJacob`, which does not exist | error handler called with status 28 (`GSL_ENOPROGJ`) raises NameError | raise `Error::NoProgressJacobian` | high, not executed | ErrorStatus.MisspeltConstants | ErrorStatus.StatusTable |
| lib/gsl/blas.rb:230 | `_mulm` builds its result with `GSL::Matrix.new(rrows, rcols)`, but in this version's lib/gsl/matrix.rb `GSL::Matrix` is a module with no `new` (matrix.rb:16; only `GSL::Vector` defines a delegating `new`, vector.rb:59-64). That matrix.rb equally lacks the `rows`, `cols` and `gsl` methods blas.rb relies on (matrix/double.rb:5-8), so the missing `new` may belong to a matrix API that this version of the library does not define, rather than to line 230 | `m.mulm(b)` for two `Matrix::Double` values raises NoMethodError at line 230 when `rows` and `cols` are taken as given | build a `GSL::Matrix::Double` of `rrows x rcols`, as `_mulv` builds a `GSL::Vector` and as the matrix and BLAS specs expect | low, not executed | Blas.MatrixNewMissing | Blas.MulmFull |

## Left out

- FFI loading and binding are not modelled: `ffi_lib`, `attach_function`, the typedefs (including the complex typedefs marked FIXME), and `gsl_set_error_handler`.
- The `define_method`/`module_eval` metaprogramming is not modelled: `Obj::Support`, `each_local_name`, `define_*_upcall` and `AttachDsl`. Only the names and the method text these compute are.
- Finalizers and native memory release are not modelled. This includes the finalizer that names the malformed constant `GSL::Error:Failed`.
- Of lib/gsl/matrix.rb only allocation is modelled: its `:zero` option, element access and the per-type matrix files are not. A matrix is represented only by its class, its element buffer and the LU state.
- lib/gsl/permutation.rb, lib/gsl/attach_dsl.rb and lib/gsl.rb are not part of this model. The permutation of an LU decomposition is a sequence of naturals.
- `magnitude`/`nrm2` is not modelled, because it is a square root computed by the backend.
- The `Matrix::Float` BLAS path is not modelled. Its `_mulm` has the wrong arity for the call in `mulm_full`, and `FloatStruct` is laid out as a double.
- Elements are exact reals. The model does not capture `float` rounding, `int` truncation (including integer `div!`) or the conversion of Ruby values to the element type.
- Containers.Vector.OpInPlace: `div!` requires non-zero divisors; IEEE infinities and NaNs from a zero divisor are not modelled.
- Containers.Vector.OpCopy: `div` requires non-zero divisors, for the same reason.
- Containers.New: the elements of a vector created from a size are left unspecified, because GSL does not initialise them. Sizes are natural numbers: a negative size wraps to a huge unsigned one in the binding, and the failed allocation that follows is not modelled.
- Errors raised by the backend carry the backend's reason. The " (file:line)" suffix the handler appends is not modelled for them; it is modelled in ErrorStatus.HandlerMessage.
- The matrix API that lib/gsl/blas.rb and lib/gsl/linalg.rb call is taken as the specs use it: `GSL::Matrix.new` builds a `Matrix::Double`, a `Matrix::Double` is a `GSL::Matrix` and answers `rows`, `cols` and `gsl`. This version's lib/gsl/matrix.rb defines none of these (`Matrix::Double` is an `FFI::Struct` including only Functions and RealFunctions, matrix/double.rb:5-8). Read literally, `mulm` would fail on `self.rows` before reaching `GSL::Matrix.new`, and `mul` of a matrix would take the "don't know how to multiply" branch; neither is modelled.
- Blas.MulmFull: models the intended `_mulm`, whose `GSL::Matrix.new` is read as `GSL::Matrix::Double.new` (see Findings); as written it raises NoMethodError (Blas.MulmFullAsWritten). The receiver must be a `Matrix::Double` and the transpose table must be the one lib/gsl/gsl.rb registers. Other matrix classes (no BLAS methods, or the broken Float path) and a re-registered table are not modelled.
- Blas.Mulm: the same reading of `GSL::Matrix.new` as Blas.MulmFull, and the same receiver and table assumptions.
- Blas.TransMul: the same reading of `GSL::Matrix.new` as Blas.MulmFull, and the same receiver and table assumptions.
- Blas.MulTrans: the same reading of `GSL::Matrix.new` as Blas.MulmFull, and the same receiver and table assumptions.
- Blas.TransMulTrans: the same reading of `GSL::Matrix.new` as Blas.MulmFull, and the same receiver and table assumptions.
- Blas.Mulv: the receiver must be a `Matrix::Double` and the transpose table the one lib/gsl/gsl.rb registers.
- Blas.Mul: the assumptions of Blas.Mulm and Blas.Mulv.
- LinAlg.LUDecomp: the factors, permutation and sign are the backend's outputs and are given as parameters; the factorisation arithmetic is not modelled.
- LinAlg.Solve: the solution values and the backend's singular-matrix check are not modelled.
- LinAlg.Inv: the values of the inverse and the backend's singular-matrix check are not modelled.
- Helper.Downcase: folds ASCII letters only.
- Enums.Registry.EnumValue: Ruby's Fixnum range is not modelled. Every integer counts as a Fixnum.
- `Vector#each` and `#each_index` are not modelled as separate members. They appear only as the loops of `to_ary` and `initialize`.
