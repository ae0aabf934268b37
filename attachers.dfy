/** The naming rules of `GSL::Attacher` and `GSL::TypedAttacher`
    (lib/gsl/gsl.rb): which GSL C function a Ruby method forwards to, the name
    of the local forwarding method, and how a typed attacher fills in the
    `:type` placeholder of a foreign signature. Symbols are strings. */
module Attachers {
  import opened Helper

  /** An attacher for the functions `gsl_<prefix>_...`; a typed one also
      carries the element type of its class (`:double`, `:float`, ...). */
  datatype Attacher =
    | Untyped(prefix: string)
    | Typed(prefix: string, elemType: string)

  /** The placeholder a typed signature uses for the element type. */
  const TypePlaceholder := "type"

  /** `gsl_function(suffix)`: the GSL C function name, `gsl_<prefix>_<suffix>`,
      with the element type between prefix and suffix for a typed attacher
      whose type is not `:double`. */
  function GslFunction(at: Attacher, suffix: string): (r: string)
    ensures at.Untyped? || at.elemType == "double" ==> r == "gsl_" + at.prefix + "_" + suffix
    ensures at.Typed? && at.elemType != "double" ==> r == "gsl_" + at.prefix + "_" + at.elemType + "_" + suffix
  {
    match at
    case Untyped(prefix) =>
      JoinThree("gsl", prefix, suffix);
      Join(["gsl", prefix, suffix], "_")
    case Typed(prefix, elemType) =>
      if elemType == "double" then
        JoinThree("gsl", prefix, suffix);
        Join(["gsl", prefix, suffix], "_")
      else
        JoinFour("gsl", prefix, elemType, suffix);
        Join(["gsl", prefix, elemType, suffix], "_")
  }

  lemma JoinThree(a: string, b: string, c: string)
    ensures Join([a, b, c], "_") == a + "_" + b + "_" + c
  {
    assert [a, b, c][1..] == [b, c];
    assert [b, c][1..] == [c];
    assert Join([c], "_") == c;
    assert Join([b, c], "_") == (b + "_") + c;
    assert Join([a, b, c], "_") == (a + "_") + ((b + "_") + c);
    Assoc(a + "_", b + "_", c);
    Assoc(a + "_", b, "_");
  }

  lemma JoinFour(a: string, b: string, c: string, d: string)
    ensures Join([a, b, c, d], "_") == a + "_" + b + "_" + c + "_" + d
  {
    assert [a, b, c, d][1..] == [b, c, d];
    JoinThree(b, c, d);
    var x := b + "_" + c;
    assert Join([a, b, c, d], "_") == (a + "_") + ((x + "_") + d);
    Assoc(a + "_", x + "_", d);
    Assoc(a + "_", x, "_");
    Assoc(a + "_", b + "_", c);
    Assoc(a + "_", b, "_");
  }

  /** `local_method(suffix)`: the protected forwarding method `_<suffix>`. */
  function LocalMethod(suffix: string): (r: string)
    ensures |r| == |suffix| + 1 && r[0] == '_' && r[1..] == suffix
  {
    "_" + suffix
  }

  /** Different suffixes give different local methods. */
  lemma LocalMethodInjective(s: string, t: string)
    requires LocalMethod(s) == LocalMethod(t)
    ensures s == t
  {
    assert s == LocalMethod(s)[1..];
  }

  /** A typed attacher for a type other than `:double` names the same
      functions as an untyped attacher whose prefix ends with that type. */
  lemma TypedIsLongerPrefix(prefix: string, elemType: string, suffix: string)
    requires elemType != "double"
    ensures GslFunction(Typed(prefix, elemType), suffix) == GslFunction(Untyped(prefix + "_" + elemType), suffix)
  {
  }

  /** A typed attacher for `:double` names the same functions as an untyped
      one with the same prefix: the double variants carry no type segment. */
  lemma TypedDoubleIsUntyped(prefix: string, suffix: string)
    ensures GslFunction(Typed(prefix, "double"), suffix) == GslFunction(Untyped(prefix), suffix)
  {
  }

  /** `typeconv(atype)`: the placeholder `:type` becomes the attacher's type;
      every other type is kept. */
  function Typeconv(elemType: string, atype: string): (r: string)
    ensures atype == TypePlaceholder ==> r == elemType
    ensures atype != TypePlaceholder ==> r == atype
  {
    if atype == TypePlaceholder then elemType else atype
  }

  /** The signature `attach_gsl_method` hands to `attach_function`: converted
      entry by entry for a typed attacher, as given for an untyped one. */
  function ConvertSignature(at: Attacher, sig: seq<string>): (r: seq<string>)
    ensures |r| == |sig|
    ensures forall i :: 0 <= i < |sig| && sig[i] != TypePlaceholder ==> r[i] == sig[i]
    ensures at.Typed? ==> forall i :: 0 <= i < |sig| && sig[i] == TypePlaceholder ==> r[i] == at.elemType
    ensures at.Untyped? ==> r == sig
  {
    match at
    case Untyped(_) => sig
    case Typed(_, elemType) => seq(|sig|, i requires 0 <= i < |sig| => Typeconv(elemType, sig[i]))
  }

  function ConvertReturn(at: Attacher, ret: string): (r: string)
    ensures at.Untyped? ==> r == ret
    ensures at.Typed? ==> r == Typeconv(at.elemType, ret)
  {
    match at
    case Untyped(_) => ret
    case Typed(_, elemType) => Typeconv(elemType, ret)
  }

  /** A typed attacher leaves no placeholder behind, unless its own type is
      the placeholder. */
  lemma ConvertSignatureNoPlaceholder(at: Attacher, sig: seq<string>)
    requires at.Typed? && at.elemType != TypePlaceholder
    ensures TypePlaceholder !in ConvertSignature(at, sig)
  {
    var r := ConvertSignature(at, sig);
    forall i | 0 <= i < |r| ensures r[i] != TypePlaceholder {
    }
  }

  /** Converting twice is converting once. */
  lemma ConvertSignatureIdempotent(at: Attacher, sig: seq<string>)
    requires at.Typed? ==> at.elemType != TypePlaceholder
    ensures ConvertSignature(at, ConvertSignature(at, sig)) == ConvertSignature(at, sig)
  {
    if at.Typed? {
      var r := ConvertSignature(at, sig);
      ConvertSignatureNoPlaceholder(at, sig);
      var rr := ConvertSignature(at, r);
      forall i | 0 <= i < |r| ensures rr[i] == r[i] {
        assert r[i] != TypePlaceholder;
      }
    }
  }

  /** Where the forwarding method goes: `attach` defines an instance method,
      `attach_class` a class method. */
  datatype Location = InstanceMethod | ClassMethod

  /** What `attach_gsl_method` sets up: the foreign function `func` with its
      signature, and the local method `local` at `location` that forwards to it. */
  datatype Binding = Binding(func: string, sig: seq<string>, ret: string, local: string, location: Location)

  function AttachGslMethod(at: Attacher, location: Location, suffix: string, sig: seq<string>, ret: string): (b: Binding)
    ensures b.func == GslFunction(at, suffix) && b.local == LocalMethod(suffix) && b.location == location
    ensures b.sig == ConvertSignature(at, sig) && b.ret == ConvertReturn(at, ret)
  {
    Binding(GslFunction(at, suffix), ConvertSignature(at, sig), ConvertReturn(at, ret), LocalMethod(suffix), location)
  }

  /** `attach(suffix, sig, ret)`. */
  function Attach(at: Attacher, suffix: string, sig: seq<string>, ret: string): (b: Binding)
    ensures b.location == InstanceMethod && b.func == GslFunction(at, suffix) && b.local == LocalMethod(suffix)
  {
    AttachGslMethod(at, InstanceMethod, suffix, sig, ret)
  }

  /** `attach_class(suffix, sig, ret)`. */
  function AttachClass(at: Attacher, suffix: string, sig: seq<string>, ret: string): (b: Binding)
    ensures b.location == ClassMethod && b.func == GslFunction(at, suffix) && b.local == LocalMethod(suffix)
  {
    AttachGslMethod(at, ClassMethod, suffix, sig, ret)
  }

  /** The two naming schemes of the library agree: the typed attacher of
      `GSL::Matrix::Float` (prefix `matrix`, type `:float`) and `gsl_name`
      inside that module both name `gsl_matrix_float_alloc`. */
  lemma AttacherAgreesWithGslName()
    ensures GslFunction(Typed("matrix", "float"), "alloc") == GslName("GSL::Matrix::Float", "alloc")
  {
    GslNameMatrixFloatAlloc();
    MatrixFloatAllocSpelling();
  }

  // Proof step of AttacherAgreesWithGslName: the attacher's name parts
  // concatenate to "gsl_matrix_float_alloc".
  lemma MatrixFloatAllocSpelling()
    ensures "gsl_" + "matrix" + "_" + "float" + "_" + "alloc" == "gsl_matrix_float_alloc"
  {
  }
}
