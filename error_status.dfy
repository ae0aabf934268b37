/** The mapping from GSL status codes to exception classes and the error
    handler of lib/gsl/error.rb. The status is looked up through the enum
    tables of lib/gsl/gsl.rb, so every member here reads the `Registry`. */
module ErrorStatus {
  import opened Results
  import opened ErrorClasses
  import opened Enums

  /** The `case` of `status_to_err_class` on the symbol `enum_value` returned,
      with the two misspelt class names corrected: `:edom` raises `Domain` and
      `:enoprogj` raises `NoProgressJacobian`. `None` is Ruby's nil. */
  function StatusClass(sym: string): Option<ErrClass>
  {
    match sym
    case "success" => None
    case "failure" => Some(Error)
    case "continue" => Some(Continue)
    case "edom" => Some(Domain)
    case "erange" => Some(Range)
    case "efault" => Some(NoMem)
    case "einval" => Some(Invalid)
    case "efailed" => Some(Failed)
    case "efactor" => Some(Factor)
    case "esanity" => Some(Sanity)
    case "enomem" => Some(NoMem)
    case "ebadfunc" => Some(BadFunc)
    case "erunaway" => Some(Runaway)
    case "emaxiter" => Some(MaxIter)
    case "ezerodiv" => Some(ZeroDiv)
    case "ebadtol" => Some(BadTolerance)
    case "etol" => Some(Tolerance)
    case "eunderflw" => Some(Underflow)
    case "eovrflw" => Some(Overflow)
    case "eloss" => Some(Loss)
    case "eround" => Some(Round)
    case "ebadlen" => Some(BadLen)
    case "enotsqr" => Some(NotSquare)
    case "esing" => Some(Singularity)
    case "ediverge" => Some(Divergent)
    case "eunsup" => Some(Unsupported)
    case "eunimpl" => Some(Unimplemented)
    case "ecache" => Some(Cache)
    case "etable" => Some(Table)
    case "enoprog" => Some(NoProgress)
    case "enoprogj" => Some(NoProgressJacobian)
    case "etolf" => Some(ToleranceF)
    case "etolx" => Some(ToleranceX)
    case "etolg" => Some(ToleranceG)
    case "eof" => Some(EOF)
    case _ => Some(Error)
  }

  /** Only `:success` maps to nil, and only `:continue` to a class outside
      `GSL::Error`. */
  lemma StatusClassNil(sym: string)
    ensures StatusClass(sym).None? <==> sym == "success"
    ensures StatusClass(sym) == Some(Continue) <==> sym == "continue"
  {
  }

  /** The `case` as written: evaluating `Error::Domainn` or
      `Error::NoProgressJacob` raises NameError, since no such constant exists. */
  function StatusClassAsWritten(sym: string): (r: Result<Option<ErrClass>, Exception>)
    ensures r.Failure? <==> sym == "edom" || sym == "enoprogj"
    ensures r.Success? ==> r.value == StatusClass(sym)
  {
    if sym == "edom" then Failure(NameError("uninitialized constant GSL::Error::Domainn"))
    else if sym == "enoprogj" then Failure(NameError("uninitialized constant GSL::Error::NoProgressJacob"))
    else Success(StatusClass(sym))
  }

  /** `status_to_err_class(status)`: the `case` over `enum_value(:status,
      status)`. A failing lookup propagates its exception; an Integer result
      (what a Symbol argument gives back) matches no `when` and selects `Error`. */
  function StatusToErrClass(reg: Registry, status: EnumArg): (r: Result<Option<ErrClass>, Exception>)
    reads reg
    ensures r.Failure? <==> reg.EnumValue("status", status).Failure?
    ensures r.Failure? ==> r.error == reg.EnumValue("status", status).error
  {
    match reg.EnumValue("status", status)
    case Failure(e) => Failure(e)
    case Success(SymbolVal(s)) => Success(StatusClass(s))
    case Success(IntVal(_)) => Success(Some(Error))
  }

  /** `status_to_err_class` as written, with the two undefined constants. */
  function StatusToErrClassAsWritten(reg: Registry, status: EnumArg): (r: Result<Option<ErrClass>, Exception>)
    reads reg
    ensures reg.EnumValue("status", status).Failure? ==> r == Failure(reg.EnumValue("status", status).error)
    ensures r.Success? ==> r == StatusToErrClass(reg, status)
  {
    match reg.EnumValue("status", status)
    case Failure(e) => Failure(e)
    case Success(SymbolVal(s)) => StatusClassAsWritten(s)
    case Success(IntVal(_)) => Success(Some(Error))
  }

  // ---------------------------------------------------------------------
  // "%d": the decimal form of the line number

  function DigitChar(d: nat): (c: char)
    requires d < 10
    ensures '0' <= c <= '9' && c as int - '0' as int == d
  {
    ('0' as int + d) as char
  }

  /** The decimal digits of `n`, most significant first. */
  function Digits(n: nat): (s: string)
    ensures s != [] && forall i :: 0 <= i < |s| ==> '0' <= s[i] <= '9'
    decreases n
  {
    if n < 10 then [DigitChar(n)] else Digits(n / 10) + [DigitChar(n % 10)]
  }

  /** Ruby's `"%d" % n`. */
  function Decimal(n: int): string
  {
    if n < 0 then "-" + Digits(-n) else Digits(n)
  }

  /** The number a string of decimal digits denotes. */
  function DigitsValue(s: string): nat
    requires forall i :: 0 <= i < |s| ==> '0' <= s[i] <= '9'
  {
    if s == [] then 0 else DigitsValue(s[..|s| - 1]) * 10 + (s[|s| - 1] as int - '0' as int)
  }

  /** Reading back the digits gives the number. */
  lemma {:induction false} DigitsRoundTrip(n: nat)
    ensures DigitsValue(Digits(n)) == n
    ensures Digits(n)[0] == '0' ==> n == 0
    decreases n
  {
    if n >= 10 {
      DigitsRoundTrip(n / 10);
      var s := Digits(n);
      assert s[..|s| - 1] == Digits(n / 10);
      assert s[0] == Digits(n / 10)[0];
    }
  }

  /** Reading an optionally signed decimal. */
  function ParseDecimal(s: string): int
    requires s != [] ==> forall i :: (if s[0] == '-' then 1 else 0) <= i < |s| ==> '0' <= s[i] <= '9'
  {
    if s != [] && s[0] == '-' then -(DigitsValue(s[1..]) as int) else DigitsValue(s)
  }

  /** The decimal form of a number reads back as that number, so the line
      number in a handler message identifies the line. */
  lemma DecimalRoundTrip(n: int)
    ensures var s := Decimal(n); (s != [] ==> forall i :: (if s[0] == '-' then 1 else 0) <= i < |s| ==> '0' <= s[i] <= '9')
    ensures ParseDecimal(Decimal(n)) == n
  {
    if n < 0 {
      DigitsRoundTrip(-n);
      assert Decimal(n)[1..] == Digits(-n);
    } else {
      DigitsRoundTrip(n);
    }
  }

  // ---------------------------------------------------------------------
  // ERROR_HANDLER

  /** The message of a raised error: `"%s (%s:%d)" % [reason, file, line]`. */
  function HandlerMessage(reason: string, file: string, line: int): (m: string)
    ensures |m| > |reason| + 3 && m[..|reason|] == reason && m[|m| - 1] == ')'
  {
    reason + " (" + file + ":" + Decimal(line) + ")"
  }

  /** The handler message carries the file after " (", then ":", then the
      line in decimal, which reads back to the line. */
  lemma HandlerMessageParts(reason: string, file: string, line: int)
    ensures var m, k := HandlerMessage(reason, file, line), |reason| + 2 + |file|;
      && k + 1 < |m|
      && m[|reason|..|reason| + 2] == " (" && m[|reason| + 2..k] == file && m[k] == ':'
      && m[k + 1..|m| - 1] == Decimal(line)
      && ParseDecimal(m[k + 1..|m| - 1]) == line
  {
    DecimalRoundTrip(line);
  }

  /** What the handler raises once the class lookup has produced `klass`:
      the looked-up class or `Error` when it is nil; a lookup that raised
      propagates its own exception instead. */
  function Raise(klass: Result<Option<ErrClass>, Exception>, reason: string, file: string, line: int): (e: Exception)
    ensures klass.Failure? ==> e == klass.error
    ensures klass.Success? ==> e.Gsl? && e.message == HandlerMessage(reason, file, line)
    ensures klass.Success? && klass.value.Some? ==> e.cls == klass.value.value
    ensures klass.Success? && klass.value.None? ==> e.cls == Error
  {
    match klass
    case Failure(x) => x
    case Success(c) =>
      Gsl(if c.Some? then c.value else Error, HandlerMessage(reason, file, line))
  }

  /** `ERROR_HANDLER.call(reason, file, line, errno)`: the exception it raises.
      GSL calls it with an integer status code. */
  function ErrorHandler(reg: Registry, reason: string, file: string, line: int, errno: int): (e: Exception)
    reads reg
    ensures e.Gsl? <==> StatusToErrClass(reg, FixnumArg(errno)).Success?
    ensures e.Gsl? ==> e.message == HandlerMessage(reason, file, line)
  {
    Raise(StatusToErrClass(reg, FixnumArg(errno)), reason, file, line)
  }

  /** The handler over the mapping as written: it raises what the corrected
      handler raises, or a NameError. */
  function ErrorHandlerAsWritten(reg: Registry, reason: string, file: string, line: int, errno: int): (e: Exception)
    reads reg
    ensures e == ErrorHandler(reg, reason, file, line, errno) || e.NameError?
  {
    Raise(StatusToErrClassAsWritten(reg, FixnumArg(errno)), reason, file, line)
  }

  // ---------------------------------------------------------------------
  // The mapping over the registered status table

  /** The classes of the codes 2..32, in the order of the status table. */
  const CodeClasses: seq<ErrClass> := [
    Range, NoMem, Invalid, Failed, Factor, Sanity, NoMem,
    BadFunc, Runaway, MaxIter, ZeroDiv, BadTolerance, Tolerance,
    Underflow, Overflow, Loss, Round, BadLen, NotSquare, Singularity,
    Divergent, Unsupported, Unimplemented, Cache, Table, NoProgress, NoProgressJacobian,
    ToleranceF, ToleranceX, ToleranceG, EOF]

  /** An integer status is mapped through the symbol the reverse table holds
      for it; an integer outside -2..32 fails inside `enum_value` with the
      NameError of its undefined `val`. */
  lemma StatusOfCode(reg: Registry, v: int)
    requires reg.Registered("status", StatusSpec)
    ensures -2 <= v <= 32 <==> v in Reverse(Assignments(StatusSpec))
    ensures -2 <= v <= 32 ==> StatusToErrClass(reg, FixnumArg(v)) == Success(StatusClass(Reverse(Assignments(StatusSpec))[v]))
    ensures !(-2 <= v <= 32) ==> StatusToErrClass(reg, FixnumArg(v)) == Failure(NameError(UndefinedVal))
  {
    StatusReverseTable();
  }

  // Proof step of StatusCodeClasses: codes 0..4 of the table (in
  // StatusCodes order) map to their classes.
  lemma StatusCodeClassesFrom0()
    ensures forall k :: 0 <= k < 5 ==> StatusClass(StatusCodes[k]) == Some(CodeClasses[k])
  {
    forall k | 0 <= k < 5
      ensures StatusClass(StatusCodes[k]) == Some(CodeClasses[k])
    {
      if k == 0 {
        assert StatusCodes[0] == "erange";
      } else if k == 1 {
        assert StatusCodes[1] == "efault";
      } else if k == 2 {
        assert StatusCodes[2] == "einval";
      } else if k == 3 {
        assert StatusCodes[3] == "efailed";
      } else if k == 4 {
        assert StatusCodes[4] == "efactor";
      }
    }
  }

  // Proof step of StatusCodeClasses: codes 5..9 of the table (in
  // StatusCodes order) map to their classes.
  lemma StatusCodeClassesFrom5()
    ensures forall k :: 5 <= k < 10 ==> StatusClass(StatusCodes[k]) == Some(CodeClasses[k])
  {
    forall k | 5 <= k < 10
      ensures StatusClass(StatusCodes[k]) == Some(CodeClasses[k])
    {
      if k == 5 {
        assert StatusCodes[5] == "esanity";
      } else if k == 6 {
        assert StatusCodes[6] == "enomem";
      } else if k == 7 {
        assert StatusCodes[7] == "ebadfunc";
      } else if k == 8 {
        assert StatusCodes[8] == "erunaway";
      } else if k == 9 {
        assert StatusCodes[9] == "emaxiter";
      }
    }
  }

  // Proof step of StatusCodeClasses: codes 10..14 of the table (in
  // StatusCodes order) map to their classes.
  lemma StatusCodeClassesFrom10()
    ensures forall k :: 10 <= k < 15 ==> StatusClass(StatusCodes[k]) == Some(CodeClasses[k])
  {
    forall k | 10 <= k < 15
      ensures StatusClass(StatusCodes[k]) == Some(CodeClasses[k])
    {
      if k == 10 {
        assert StatusCodes[10] == "ezerodiv";
      } else if k == 11 {
        assert StatusCodes[11] == "ebadtol";
      } else if k == 12 {
        assert StatusCodes[12] == "etol";
      } else if k == 13 {
        assert StatusCodes[13] == "eunderflw";
      } else if k == 14 {
        assert StatusCodes[14] == "eovrflw";
      }
    }
  }

  // Proof step of StatusCodeClasses: codes 15..19 of the table (in
  // StatusCodes order) map to their classes.
  lemma StatusCodeClassesFrom15()
    ensures forall k :: 15 <= k < 20 ==> StatusClass(StatusCodes[k]) == Some(CodeClasses[k])
  {
    forall k | 15 <= k < 20
      ensures StatusClass(StatusCodes[k]) == Some(CodeClasses[k])
    {
      if k == 15 {
        assert StatusCodes[15] == "eloss";
      } else if k == 16 {
        assert StatusCodes[16] == "eround";
      } else if k == 17 {
        assert StatusCodes[17] == "ebadlen";
      } else if k == 18 {
        assert StatusCodes[18] == "enotsqr";
      } else if k == 19 {
        assert StatusCodes[19] == "esing";
      }
    }
  }

  // Proof step of StatusCodeClasses: codes 20..24 of the table (in
  // StatusCodes order) map to their classes.
  lemma StatusCodeClassesFrom20()
    ensures forall k :: 20 <= k < 25 ==> StatusClass(StatusCodes[k]) == Some(CodeClasses[k])
  {
    forall k | 20 <= k < 25
      ensures StatusClass(StatusCodes[k]) == Some(CodeClasses[k])
    {
      if k == 20 {
        assert StatusCodes[20] == "ediverge";
      } else if k == 21 {
        assert StatusCodes[21] == "eunsup";
      } else if k == 22 {
        assert StatusCodes[22] == "eunimpl";
      } else if k == 23 {
        assert StatusCodes[23] == "ecache";
      } else if k == 24 {
        assert StatusCodes[24] == "etable";
      }
    }
  }

  // Proof step of StatusCodeClasses: codes 25..30 of the table (in
  // StatusCodes order) map to their classes.
  lemma StatusCodeClassesFrom25()
    ensures forall k :: 25 <= k < 31 ==> StatusClass(StatusCodes[k]) == Some(CodeClasses[k])
  {
    forall k | 25 <= k < 31
      ensures StatusClass(StatusCodes[k]) == Some(CodeClasses[k])
    {
      if k == 25 {
        assert StatusCodes[25] == "enoprog";
      } else if k == 26 {
        assert StatusCodes[26] == "enoprogj";
      } else if k == 27 {
        assert StatusCodes[27] == "etolf";
      } else if k == 28 {
        assert StatusCodes[28] == "etolx";
      } else if k == 29 {
        assert StatusCodes[29] == "etolg";
      } else if k == 30 {
        assert StatusCodes[30] == "eof";
      }
    }
  }

  /** Each bare status symbol maps to its own class. */
  lemma StatusCodeClasses()
    ensures forall k :: 0 <= k < |StatusCodes| ==> StatusClass(StatusCodes[k]) == Some(CodeClasses[k])
  {
    StatusCodeClassesFrom0();
    StatusCodeClassesFrom5();
    StatusCodeClassesFrom10();
    StatusCodeClassesFrom15();
    StatusCodeClassesFrom20();
    StatusCodeClassesFrom25();
  }

  lemma HeadStatusClasses()
    ensures StatusClass("success") == None && StatusClass("failure") == Some(Error)
    ensures StatusClass("continue") == Some(Continue) && StatusClass("edom") == Some(Domain)
  {
  }

  /** The class every integer status selects: nil for 0, `Error` for -1,
      `Continue` for -2, `Domain` for 1, the class of its symbol for 2..32,
      and for any other integer the NameError `enum_value` raises. */
  lemma StatusTable(reg: Registry)
    requires reg.Registered("status", StatusSpec)
    ensures StatusToErrClass(reg, FixnumArg(0)) == Success(None)
    ensures StatusToErrClass(reg, FixnumArg(-1)) == Success(Some(Error))
    ensures StatusToErrClass(reg, FixnumArg(-2)) == Success(Some(Continue))
    ensures StatusToErrClass(reg, FixnumArg(1)) == Success(Some(Domain))
    ensures forall v :: 2 <= v <= 32 ==> StatusToErrClass(reg, FixnumArg(v)) == Success(Some(CodeClasses[v - 2]))
    ensures forall v :: !(-2 <= v <= 32) ==> StatusToErrClass(reg, FixnumArg(v)) == Failure(NameError(UndefinedVal))
  {
    StatusReverseTable();
    HeadStatusClasses();
    StatusCodeClasses();
    StatusOfCode(reg, 0);
    StatusOfCode(reg, -1);
    StatusOfCode(reg, -2);
    StatusOfCode(reg, 1);
    forall v | 2 <= v <= 32
      ensures StatusToErrClass(reg, FixnumArg(v)) == Success(Some(CodeClasses[v - 2]))
    {
      StatusOfCode(reg, v);
    }
    forall v | !(-2 <= v <= 32)
      ensures StatusToErrClass(reg, FixnumArg(v)) == Failure(NameError(UndefinedVal))
    {
      StatusOfCode(reg, v);
    }
  }

  /** The examples: `:einval` (4) raises `Invalid`, `:ebadlen` (19) `BadLen`,
      `:enotsqr` (20) `NotSquare`, `:esing` (21) `Singularity`; `:efault` (3)
      and `:enomem` (8) both raise `NoMem`, so the mapping is not injective. */
  lemma StatusExamples(reg: Registry)
    requires reg.Registered("status", StatusSpec)
    ensures StatusToErrClass(reg, FixnumArg(4)) == Success(Some(Invalid))
    ensures StatusToErrClass(reg, FixnumArg(19)) == Success(Some(BadLen))
    ensures StatusToErrClass(reg, FixnumArg(20)) == Success(Some(NotSquare))
    ensures StatusToErrClass(reg, FixnumArg(21)) == Success(Some(Singularity))
    ensures StatusToErrClass(reg, FixnumArg(3)) == StatusToErrClass(reg, FixnumArg(8)) == Success(Some(NoMem))
  {
    StatusTable(reg);
    CodeClassExamples();
  }

  // Proof step of StatusExamples: the classes at the table positions of
  // einval, ebadlen, enotsqr and esing.
  lemma CodeClassExamples()
    ensures CodeClasses[2] == Invalid && CodeClasses[17] == BadLen
    ensures CodeClasses[18] == NotSquare && CodeClasses[19] == Singularity
    ensures CodeClasses[1] == NoMem && CodeClasses[6] == NoMem
  {
  }

  /** No integer status reaches the `else Error` branch: the base class is
      selected for `:failure` (-1) alone, and every other integer either has
      its own outcome or fails inside `enum_value`. */
  lemma OnlyFailureIsBaseError(reg: Registry, v: int)
    requires reg.Registered("status", StatusSpec)
    ensures StatusToErrClass(reg, FixnumArg(v)) == Success(Some(Error)) <==> v == -1
  {
    StatusTable(reg);
    if 2 <= v <= 32 {
      assert CodeClasses[v - 2] != Error;
    }
  }

  /** A Symbol argument gets an Integer back from `enum_value`, which matches
      no `when`: every registered status symbol selects the base `Error`. */
  lemma SymbolStatusIsBaseError(reg: Registry, s: string)
    requires reg.Registered("status", StatusSpec)
    requires s in StatusHeadNames || s in StatusCodes
    ensures StatusToErrClass(reg, SymbolArg(s)) == Success(Some(Error))
  {
    StatusForwardKeys(s);
  }

  /** The handler raises the class of the status, `Error` when that class is
      nil, with the message "reason (file:line)". */
  lemma HandlerRaises(reg: Registry, reason: string, file: string, line: int, errno: int)
    requires reg.Registered("status", StatusSpec)
    requires -2 <= errno <= 32
    ensures var e := ErrorHandler(reg, reason, file, line, errno);
      && e.Gsl? && e.message == HandlerMessage(reason, file, line)
      && (errno == 0 ==> e.cls == Error)
      && StatusToErrClass(reg, FixnumArg(errno)) == Success(if errno == 0 then None else Some(e.cls))
  {
    StatusTable(reg);
  }

  /** An unknown status makes the handler raise the NameError of `enum_value`
      instead of a GSL error. */
  lemma HandlerUnknownStatus(reg: Registry, reason: string, file: string, line: int, errno: int)
    requires reg.Registered("status", StatusSpec)
    requires !(-2 <= errno <= 32)
    ensures ErrorHandler(reg, reason, file, line, errno) == NameError(UndefinedVal)
  {
    StatusTable(reg);
  }

  // ---------------------------------------------------------------------
  // The misspelt constants

  /** As written, the status codes 1 (`:edom`) and 28 (`:enoprogj`) make the
      handler raise NameError instead of `Domain` and `NoProgressJacobian`. */
  lemma MisspeltConstants(reg: Registry, reason: string, file: string, line: int)
    requires reg.Registered("status", StatusSpec)
    ensures ErrorHandlerAsWritten(reg, reason, file, line, 1) == NameError("uninitialized constant GSL::Error::Domainn")
    ensures ErrorHandlerAsWritten(reg, reason, file, line, 28) == NameError("uninitialized constant GSL::Error::NoProgressJacob")
    ensures ErrorHandler(reg, reason, file, line, 1) == Gsl(Domain, HandlerMessage(reason, file, line))
    ensures ErrorHandler(reg, reason, file, line, 28) == Gsl(NoProgressJacobian, HandlerMessage(reason, file, line))
  {
    StatusTable(reg);
    StatusReverseTable();
    assert StatusCodes[26] == "enoprogj";
  }
}
