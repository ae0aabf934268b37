/** `GSL.enum` and `GSL.enum_value` (lib/gsl/gsl.rb): per-type forward
    (symbol to integer) and reverse (integer to symbol) tables built from a
    spec list, and the tables the library registers at load time. */
module Enums {
  import opened Results
  import opened ErrorClasses

  /** An entry of the spec list given to `GSL.enum`: a Symbol, a Fixnum,
      or anything else (which the scan skips). */
  datatype SpecItem = Sym(name: string) | Fix(n: int) | OtherItem

  /** One assignment made by the scan: `enum[code] = val`, `enum_rev[val] = code`. */
  type Pair = (string, int)

  /** The assignments the scan of `GSL.enum` makes from position `i` on,
      given the running counter `val` and the `skip` flag. A symbol directly
      followed by a Fixnum takes that Fixnum and sets `skip`, so the Fixnum is
      passed over; a bare symbol takes the counter; after an assignment the
      counter is the assigned value + 1. Anything else is passed over. */
  function Walk(spec: seq<SpecItem>, i: nat, val: int, skip: bool): seq<Pair>
    requires i <= |spec|
    decreases |spec| - i
  {
    if i == |spec| then []
    else if skip then Walk(spec, i + 1, val, false)
    else if spec[i].Sym? && i + 1 < |spec| && spec[i + 1].Fix? then
      [(spec[i].name, spec[i + 1].n)] + Walk(spec, i + 1, spec[i + 1].n + 1, true)
    else if spec[i].Sym? then
      [(spec[i].name, val)] + Walk(spec, i + 1, val + 1, false)
    else
      Walk(spec, i + 1, val, false)
  }

  /** All assignments made for a spec list, in order; the counter starts at 0. */
  function Assignments(spec: seq<SpecItem>): seq<Pair>
  {
    Walk(spec, 0, 0, false)
  }

  /** Each spec item makes at most one assignment, and every assigned
      symbol is a Symbol of the spec list. */
  lemma {:induction false} WalkBound(spec: seq<SpecItem>, i: nat, val: int, skip: bool)
    requires i <= |spec|
    ensures |Walk(spec, i, val, skip)| <= |spec| - i
    ensures forall p :: p in Walk(spec, i, val, skip) ==> Sym(p.0) in spec[i..]
    decreases |spec| - i
  {
    if i < |spec| {
      assert spec[i..] == [spec[i]] + spec[i + 1..];
      if skip {
        WalkBound(spec, i + 1, val, false);
      } else if spec[i].Sym? && i + 1 < |spec| && spec[i + 1].Fix? {
        WalkBound(spec, i + 1, spec[i + 1].n + 1, true);
      } else if spec[i].Sym? {
        WalkBound(spec, i + 1, val + 1, false);
      } else {
        WalkBound(spec, i + 1, val, false);
      }
    }
  }

  /** The symbol-to-integer hash after the assignments, in order (a later
      assignment to the same symbol overwrites an earlier one). */
  function Forward(ps: seq<Pair>): (m: map<string, int>)
    ensures m.Keys == set j | 0 <= j < |ps| :: ps[j].0
  {
    if ps == [] then map[]
    else
      var last := ps[|ps| - 1];
      var m0 := Forward(ps[..|ps| - 1]);
      assert forall j :: 0 <= j < |ps| - 1 ==> ps[..|ps| - 1][j] == ps[j];
      m0[last.0 := last.1]
  }

  /** The integer-to-symbol hash after the assignments, in order. */
  function Reverse(ps: seq<Pair>): (m: map<int, string>)
    ensures m.Keys == set j | 0 <= j < |ps| :: ps[j].1
  {
    if ps == [] then map[]
    else
      var last := ps[|ps| - 1];
      var m0 := Reverse(ps[..|ps| - 1]);
      assert forall j :: 0 <= j < |ps| - 1 ==> ps[..|ps| - 1][j] == ps[j];
      m0[last.1 := last.0]
  }

  ghost predicate DistinctValues(ps: seq<Pair>)
  {
    forall j, l :: 0 <= j < l < |ps| ==> ps[j].1 != ps[l].1
  }

  ghost predicate DistinctKeys(ps: seq<Pair>)
  {
    forall j, l :: 0 <= j < l < |ps| ==> ps[j].0 != ps[l].0
  }

  /** The forward table holds, for each symbol, the value of its last assignment. */
  lemma {:induction false} ForwardAt(ps: seq<Pair>, j: nat)
    requires j < |ps|
    requires forall l :: j < l < |ps| ==> ps[l].0 != ps[j].0
    ensures ps[j].0 in Forward(ps) && Forward(ps)[ps[j].0] == ps[j].1
  {
    if j < |ps| - 1 {
      var init := ps[..|ps| - 1];
      ForwardAt(init, j);
    }
  }

  /** The reverse table holds, for each value, the symbol of its last assignment. */
  lemma {:induction false} ReverseAt(ps: seq<Pair>, j: nat)
    requires j < |ps|
    requires forall l :: j < l < |ps| ==> ps[l].1 != ps[j].1
    ensures ps[j].1 in Reverse(ps) && Reverse(ps)[ps[j].1] == ps[j].0
  {
    if j < |ps| - 1 {
      var init := ps[..|ps| - 1];
      ReverseAt(init, j);
    }
  }

  /** Every entry of the forward table comes from some assignment. */
  lemma {:induction false} ForwardFrom(ps: seq<Pair>, s: string)
    requires s in Forward(ps)
    ensures exists j :: 0 <= j < |ps| && ps[j] == (s, Forward(ps)[s])
  {
    var init := ps[..|ps| - 1];
    if ps[|ps| - 1].0 != s {
      ForwardFrom(init, s);
      var j :| 0 <= j < |init| && init[j] == (s, Forward(init)[s]);
      assert ps[j] == init[j];
    }
  }

  /** Every entry of the reverse table comes from some assignment. */
  lemma {:induction false} ReverseFrom(ps: seq<Pair>, v: int)
    requires v in Reverse(ps)
    ensures exists j :: 0 <= j < |ps| && ps[j] == (Reverse(ps)[v], v)
  {
    var init := ps[..|ps| - 1];
    if ps[|ps| - 1].1 != v {
      ReverseFrom(init, v);
      var j :| 0 <= j < |init| && init[j] == (Reverse(init)[v], v);
      assert ps[j] == init[j];
    }
  }

  /** With distinct values, looking a symbol up forward and the result up in
      reverse gives the symbol back. */
  lemma ReverseOfForward(ps: seq<Pair>, s: string)
    requires DistinctValues(ps)
    requires s in Forward(ps)
    ensures Forward(ps)[s] in Reverse(ps) && Reverse(ps)[Forward(ps)[s]] == s
  {
    ForwardFrom(ps, s);
    var j :| 0 <= j < |ps| && ps[j] == (s, Forward(ps)[s]);
    ReverseAt(ps, j);
  }

  /** With distinct symbols, looking a value up in reverse and the result up
      forward gives the value back. */
  lemma ForwardOfReverse(ps: seq<Pair>, v: int)
    requires DistinctKeys(ps)
    requires v in Reverse(ps)
    ensures Reverse(ps)[v] in Forward(ps) && Forward(ps)[Reverse(ps)[v]] == v
  {
    ReverseFrom(ps, v);
    var j :| 0 <= j < |ps| && ps[j] == (Reverse(ps)[v], v);
    ForwardAt(ps, j);
  }

  /** A run of bare symbols reaching the end of the list takes consecutive
      values, starting at the counter. */
  lemma {:induction false} CounterRun(spec: seq<SpecItem>, i: nat, val: int)
    requires i <= |spec|
    requires forall k :: i <= k < |spec| ==> spec[k].Sym?
    decreases |spec| - i
    ensures |Walk(spec, i, val, false)| == |spec| - i
    ensures forall k :: 0 <= k < |spec| - i ==> Walk(spec, i, val, false)[k] == (spec[i + k].name, val + k)
  {
    if i < |spec| {
      CounterRun(spec, i + 1, val + 1);
      var rest := Walk(spec, i + 1, val + 1, false);
      assert Walk(spec, i, val, false) == [(spec[i].name, val)] + rest;
    }
  }

  /** A symbol directly followed by a Fixnum takes that Fixnum, the Fixnum is
      not an entry of its own, and the counter continues from it. */
  lemma ExplicitValue(spec: seq<SpecItem>, i: nat, val: int)
    requires i + 1 < |spec| && spec[i].Sym? && spec[i + 1].Fix?
    ensures Walk(spec, i, val, false)
         == [(spec[i].name, spec[i + 1].n)] + Walk(spec, i + 2, spec[i + 1].n + 1, false)
  {
  }

  /** A Ruby value handed to `GSL.enum_value`. */
  datatype EnumArg = SymbolArg(name: string) | FixnumArg(n: int) | OtherArg(className: string)

  /** What `GSL.enum_value` returns: an integer for a symbol, a symbol for an integer. */
  datatype EnumVal = IntVal(n: int) | SymbolVal(name: string)

  /** The value as an argument for the opposite lookup. */
  function AsArg(v: EnumVal): EnumArg
  {
    match v
    case IntVal(n) => FixnumArg(n)
    case SymbolVal(s) => SymbolArg(s)
  }

  /** The class variables `@@enum` and `@@enum_rev`: per registered type, its
      forward and its reverse table. */
  class Registry {
    var enums: map<string, map<string, int>>
    var enumsRev: map<string, map<int, string>>

    constructor ()
      ensures enums == map[] && enumsRev == map[]
    {
      enums := map[];
      enumsRev := map[];
    }

    /** `GSL.enum(type, spec)`: scans the spec list and stores the two tables
        of `enumType`, replacing only that type's tables. */
    method Enum(enumType: string, spec: seq<SpecItem>)
      modifies this
      ensures enums == old(enums)[enumType := Forward(Assignments(spec))]
      ensures enumsRev == old(enumsRev)[enumType := Reverse(Assignments(spec))]
    {
      var enum: map<string, int> := map[];
      var enumRev: map<int, string> := map[];
      var val := 0;
      var skip := false;
      ghost var done: seq<Pair> := [];
      var i := 0;
      while i < |spec|
        invariant 0 <= i <= |spec|
        invariant done + Walk(spec, i, val, skip) == Assignments(spec)
        invariant enum == Forward(done) && enumRev == Reverse(done)
        invariant enums == old(enums) && enumsRev == old(enumsRev)
      {
        if skip {
          skip := false;
        } else if spec[i].Sym? && i + 1 < |spec| && spec[i + 1].Fix? {
          val := spec[i + 1].n;
          var code := spec[i].name;
          enum := enum[code := val];
          enumRev := enumRev[val := code];
          AppendOne(done, (code, val), Walk(spec, i + 1, val + 1, true));
          done := done + [(code, val)];
          skip := true;
          val := val + 1;
        } else if spec[i].Sym? {
          var code := spec[i].name;
          enum := enum[code := val];
          enumRev := enumRev[val := code];
          AppendOne(done, (code, val), Walk(spec, i + 1, val + 1, false));
          done := done + [(code, val)];
          val := val + 1;
        }
        i := i + 1;
      }
      assert done == Assignments(spec);
      enums := enums[enumType := enum];
      enumsRev := enumsRev[enumType := enumRev];
    }

    /** `GSL.enum_value(type, arg)`: a symbol is looked up in the forward
        table, a Fixnum in the reverse table. An unregistered type or any
        other argument raises ArgumentError; a key missing from the table
        raises NameError, because the error message names an undefined `val`. */
    function EnumValue(enumType: string, arg: EnumArg): (r: Result<EnumVal, Exception>)
      reads this
      ensures r.Success? <==>
        (arg.SymbolArg? && enumType in enums && arg.name in enums[enumType]) ||
        (arg.FixnumArg? && enumType in enumsRev && arg.n in enumsRev[enumType])
      ensures r.Success? ==> (arg.SymbolArg? <==> r.value.IntVal?)
      ensures arg.OtherArg? ==> r == Failure(ArgumentError("expected symbol or integer but got " + arg.className))
      ensures r.Failure? && !arg.OtherArg? ==>
        r.error == (if enumType !in (if arg.SymbolArg? then enums.Keys else enumsRev.Keys)
                    then ArgumentError("no such enum " + enumType)
                    else NameError(UndefinedVal))
    {
      match arg
      case SymbolArg(s) =>
        if enumType !in enums then Failure(ArgumentError("no such enum " + enumType))
        else if s !in enums[enumType] then Failure(NameError(UndefinedVal))
        else Success(IntVal(enums[enumType][s]))
      case FixnumArg(n) =>
        if enumType !in enumsRev then Failure(ArgumentError("no such enum " + enumType))
        else if n !in enumsRev[enumType] then Failure(NameError(UndefinedVal))
        else Success(SymbolVal(enumsRev[enumType][n]))
      case OtherArg(c) =>
        Failure(ArgumentError("expected symbol or integer but got " + c))
    }

    /** The registered tables of `enumType` are those `GSL.enum(type, spec)` builds. */
    ghost predicate Registered(enumType: string, spec: seq<SpecItem>)
      reads this
    {
      && enumType in enums && enums[enumType] == Forward(Assignments(spec))
      && enumType in enumsRev && enumsRev[enumType] == Reverse(Assignments(spec))
    }
  }

  /** The message of the NameError raised for a missing key. */
  const UndefinedVal := "undefined local variable or method `val' for GSL:Module"

  lemma AppendOne(done: seq<Pair>, p: Pair, rest: seq<Pair>)
    ensures (done + [p]) + rest == done + ([p] + rest)
    ensures Forward(done + [p]) == Forward(done)[p.0 := p.1]
    ensures Reverse(done + [p]) == Reverse(done)[p.1 := p.0]
  {
    assert (done + [p])[..|done + [p]| - 1] == done;
  }

  /** When the assigned values are distinct, enum_value maps a registered
      symbol to its integer and that integer back to the symbol. */
  lemma EnumRoundTrip(reg: Registry, enumType: string, spec: seq<SpecItem>, s: string)
    requires reg.Registered(enumType, spec)
    requires DistinctValues(Assignments(spec))
    requires s in reg.enums[enumType]
    ensures reg.EnumValue(enumType, SymbolArg(s)).Success?
    ensures reg.EnumValue(enumType, AsArg(reg.EnumValue(enumType, SymbolArg(s)).value)) == Success(SymbolVal(s))
  {
    ReverseOfForward(Assignments(spec), s);
  }

  /** When the symbols are distinct, enum_value maps a registered integer to
      its symbol and that symbol back to the integer. */
  lemma EnumRoundTripInt(reg: Registry, enumType: string, spec: seq<SpecItem>, v: int)
    requires reg.Registered(enumType, spec)
    requires DistinctKeys(Assignments(spec))
    requires v in reg.enumsRev[enumType]
    ensures reg.EnumValue(enumType, FixnumArg(v)).Success?
    ensures reg.EnumValue(enumType, AsArg(reg.EnumValue(enumType, FixnumArg(v)).value)) == Success(IntVal(v))
  {
    ForwardOfReverse(Assignments(spec), v);
  }

  // The tables lib/gsl/gsl.rb registers when it is loaded.

  /** The bare status symbols after `:edom`, which take the counter. */
  const StatusCodes: seq<string> := [
    "erange", "efault", "einval", "efailed", "efactor", "esanity", "enomem",
    "ebadfunc", "erunaway", "emaxiter", "ezerodiv", "ebadtol", "etol",
    "eunderflw", "eovrflw", "eloss", "eround", "ebadlen", "enotsqr", "esing",
    "ediverge", "eunsup", "eunimpl", "ecache", "etable", "enoprog", "enoprogj",
    "etolf", "etolx", "etolg", "eof"]

  /** The status symbols with explicit values. */
  const StatusHeadNames: seq<string> := ["success", "failure", "continue", "edom"]

  /** `:status`: the status codes of GSL's gsl_errno.h. */
  const StatusSpec: seq<SpecItem> :=
    [Sym(StatusHeadNames[0]), Fix(0), Sym(StatusHeadNames[1]), Fix(-1),
     Sym(StatusHeadNames[2]), Fix(-2), Sym(StatusHeadNames[3]), Fix(1)]
    + seq(|StatusCodes|, k requires 0 <= k < |StatusCodes| => Sym(StatusCodes[k]))

  const OrderSpec: seq<SpecItem> := [Sym("row_major"), Fix(101), Sym("col_major"), Fix(102)]
  const TransposeSpec: seq<SpecItem> := [Sym("no_trans"), Fix(111), Sym("trans"), Fix(112), Sym("conjtrans"), Fix(113)]
  const UploSpec: seq<SpecItem> := [Sym("upper"), Fix(121), Sym("lower"), Fix(122)]
  const DiagSpec: seq<SpecItem> := [Sym("non_unit"), Fix(131), Sym("unit"), Fix(132)]
  const SideSpec: seq<SpecItem> := [Sym("left"), Fix(141), Sym("right"), Fix(142)]

  /** The shape of the status list: four symbols with explicit values, then
      bare symbols only. */
  ghost predicate StatusShape(s: seq<SpecItem>)
  {
    && |s| == 39
    && s[0].Sym? && s[1] == Fix(0) && s[2].Sym? && s[3] == Fix(-1)
    && s[4].Sym? && s[5] == Fix(-2) && s[6].Sym? && s[7] == Fix(1)
    && forall k :: 8 <= k < 39 ==> s[k].Sym?
  }

  /** Where the k-th assignment of the status scan comes from in the list. */
  function StatusIndex(k: nat): nat
  {
    if k < 4 then 2 * k else k + 4
  }

  /** The value the status scan gives its k-th symbol. */
  function StatusValue(k: nat): int
  {
    if k == 0 then 0 else if k == 1 then -1 else if k == 2 then -2 else k - 2
  }

  /** A symbol followed by a Fixnum, element by element: one assignment, then
      the assignments from two positions on. */
  lemma ExplicitStep(spec: seq<SpecItem>, i: nat, val: int)
    requires i + 1 < |spec| && spec[i].Sym? && spec[i + 1].Fix?
    ensures var w, rest := Walk(spec, i, val, false), Walk(spec, i + 2, spec[i + 1].n + 1, false);
      && |w| == |rest| + 1 && w[0] == (spec[i].name, spec[i + 1].n)
      && forall k :: 0 <= k < |rest| ==> w[k + 1] == rest[k]
  {
    ExplicitValue(spec, i, val);
  }

  /** Any list of the status shape gets 35 assignments with the values 0, -1,
      -2, 1 and then 2, 3, ... */
  lemma StatusShapeWalk(s: seq<SpecItem>)
    requires StatusShape(s)
    ensures |Walk(s, 0, 0, false)| == 35
    ensures forall k :: 0 <= k < 35 ==> Walk(s, 0, 0, false)[k] == (s[StatusIndex(k)].name, StatusValue(k))
  {
    var w8 := Walk(s, 8, 2, false);
    CounterRun(s, 8, 2);
    var head := [(s[0].name, 0), (s[2].name, -1), (s[4].name, -2), (s[6].name, 1)];
    assert Walk(s, 0, 0, false) == head + w8 by {
      ExplicitValue(s, 6, -1);
      ExplicitValue(s, 4, 0);
      ExplicitValue(s, 2, 1);
      ExplicitValue(s, 0, 0);
    }
    forall k | 4 <= k < 35
      ensures (head + w8)[k] == (s[StatusIndex(k)].name, StatusValue(k))
    {
      assert (head + w8)[k] == w8[k - 4];
    }
  }

  /** The status scan: `:success`, `:failure`, `:continue` and `:edom` take
      0, -1, -2 and 1; the 31 codes after `:edom` take 2..32 in order, so
      `:eof` is 32. */
  lemma StatusAssignments()
    ensures |Assignments(StatusSpec)| == 35
    ensures Assignments(StatusSpec)[0] == ("success", 0) && Assignments(StatusSpec)[1] == ("failure", -1)
    ensures Assignments(StatusSpec)[2] == ("continue", -2) && Assignments(StatusSpec)[3] == ("edom", 1)
    ensures forall k :: 4 <= k < 35 ==> Assignments(StatusSpec)[k] == (StatusCodes[k - 4], k - 2)
    ensures forall k :: 0 <= k < 35 ==> Assignments(StatusSpec)[k].1 == StatusValue(k)
  {
    assert StatusShape(StatusSpec);
    StatusShapeWalk(StatusSpec);
  }

  /** The assignments the status scan makes, as a property of a list of pairs. */
  ghost predicate StatusPairs(a: seq<Pair>)
  {
    && |a| == 35
    && (forall k :: 0 <= k < 35 ==> a[k].1 == StatusValue(k))
    && a[0].0 == "success" && a[1].0 == "failure" && a[2].0 == "continue" && a[3].0 == "edom"
    && forall k :: 4 <= k < 35 ==> a[k].0 == StatusCodes[k - 4]
  }

  /** The position of the status symbol whose value is `v`. */
  function StatusPosition(v: int): (k: nat)
    requires -2 <= v <= 32
    ensures k < 35 && StatusValue(k) == v
  {
    if v == 0 then 0 else if v == -1 then 1 else if v == -2 then 2 else if v == 1 then 3 else v + 2
  }

  /** The status values are pairwise distinct. */
  lemma StatusValuesDistinctOf(a: seq<Pair>)
    requires StatusPairs(a)
    ensures DistinctValues(a)
  {
  }

  lemma StatusValuesDistinct()
    ensures DistinctValues(Assignments(StatusSpec))
  {
    StatusAssignments();
    StatusValuesDistinctOf(Assignments(StatusSpec));
  }

  /** With distinct values, the reverse table maps every assigned value to its symbol. */
  lemma ReverseDistinctAt(ps: seq<Pair>, j: nat)
    requires DistinctValues(ps) && j < |ps|
    ensures ps[j].1 in Reverse(ps) && Reverse(ps)[ps[j].1] == ps[j].0
  {
    ReverseAt(ps, j);
  }

  lemma StatusReverseOf(a: seq<Pair>)
    requires StatusPairs(a)
    ensures forall v :: v in Reverse(a) <==> -2 <= v <= 32
    ensures forall v :: -2 <= v <= 32 ==> Reverse(a)[v] == a[StatusPosition(v)].0
  {
    StatusValuesDistinctOf(a);
    forall v | -2 <= v <= 32
      ensures v in Reverse(a) && Reverse(a)[v] == a[StatusPosition(v)].0
    {
      ReverseDistinctAt(a, StatusPosition(v));
    }
  }

  /** The reverse table of the status assignments, by name. */
  lemma StatusReverseNames(a: seq<Pair>)
    requires StatusPairs(a)
    ensures forall v :: v in Reverse(a) <==> -2 <= v <= 32
    ensures Reverse(a)[0] == "success" && Reverse(a)[-1] == "failure"
    ensures Reverse(a)[-2] == "continue" && Reverse(a)[1] == "edom"
    ensures forall v :: 2 <= v <= 32 ==> Reverse(a)[v] == StatusCodes[v - 2]
  {
    StatusReverseOf(a);
    var r := Reverse(a);
    assert StatusPosition(0) == 0 && StatusPosition(-1) == 1 && StatusPosition(-2) == 2 && StatusPosition(1) == 3;
    forall v | 2 <= v <= 32
      ensures r[v] == StatusCodes[v - 2]
    {
      assert r[v] == a[v + 2].0;
    }
  }

  /** `enum_value(:status, n)`: exactly the integers -2..32 are known, and
      each names the status symbol of gsl_errno.h. */
  lemma StatusReverseTable()
    ensures forall v :: v in Reverse(Assignments(StatusSpec)) <==> -2 <= v <= 32
    ensures Reverse(Assignments(StatusSpec))[0] == "success" && Reverse(Assignments(StatusSpec))[-1] == "failure"
    ensures Reverse(Assignments(StatusSpec))[-2] == "continue" && Reverse(Assignments(StatusSpec))[1] == "edom"
    ensures forall v :: 2 <= v <= 32 ==> Reverse(Assignments(StatusSpec))[v] == StatusCodes[v - 2]
  {
    StatusAssignments();
    StatusReverseNames(Assignments(StatusSpec));
  }

  /** A symbol is a key of the forward table exactly when some assignment names it. */
  lemma ForwardKey(ps: seq<Pair>, c: string)
    ensures c in Forward(ps) <==> exists j :: 0 <= j < |ps| && ps[j].0 == c
  {
  }

  /** The forward table's keys are the names of the assignments, whatever they are. */
  lemma ForwardKeysNamed(a: seq<Pair>, names: seq<string>, c: string)
    requires |a| == |names| && forall k :: 0 <= k < |a| ==> a[k].0 == names[k]
    ensures c in Forward(a) <==> c in names
  {
    ForwardKey(a, c);
    if c in names {
      var i :| 0 <= i < |names| && names[i] == c;
      assert a[i].0 == c;
    }
  }

  lemma StatusForwardOf(a: seq<Pair>, c: string)
    requires StatusPairs(a)
    ensures c in Forward(a) <==> c in StatusHeadNames || c in StatusCodes
  {
    var names := StatusHeadNames + StatusCodes;
    forall k | 0 <= k < |a|
      ensures a[k].0 == names[k]
    {
      if k >= 4 {
        assert names[k] == StatusCodes[k - 4];
      }
    }
    ForwardKeysNamed(a, names, c);
  }

  /** `enum_value(:status, sym)`: the known symbols are the four with
      explicit values and the 31 codes after them. */
  lemma StatusForwardKeys(c: string)
    ensures c in Forward(Assignments(StatusSpec)) <==> c in StatusHeadNames || c in StatusCodes
  {
    StatusAssignments();
    StatusForwardOf(Assignments(StatusSpec), c);
  }

  /** The CBLAS constants of the order/transpose/uplo/diag/side tables. */
  lemma CblasTables()
    ensures Forward(Assignments(OrderSpec)) == map["row_major" := 101, "col_major" := 102]
    ensures Forward(Assignments(TransposeSpec)) == map["no_trans" := 111, "trans" := 112, "conjtrans" := 113]
    ensures Reverse(Assignments(TransposeSpec)) == map[111 := "no_trans", 112 := "trans", 113 := "conjtrans"]
    ensures Forward(Assignments(UploSpec)) == map["upper" := 121, "lower" := 122]
    ensures Forward(Assignments(DiagSpec)) == map["non_unit" := 131, "unit" := 132]
    ensures Forward(Assignments(SideSpec)) == map["left" := 141, "right" := 142]
  {
    ExplicitValue(OrderSpec, 0, 0);
    ExplicitValue(OrderSpec, 2, 102);
    ExplicitValue(TransposeSpec, 0, 0);
    ExplicitValue(TransposeSpec, 2, 112);
    ExplicitValue(TransposeSpec, 4, 113);
    ExplicitValue(UploSpec, 0, 0);
    ExplicitValue(UploSpec, 2, 122);
    ExplicitValue(DiagSpec, 0, 0);
    ExplicitValue(DiagSpec, 2, 132);
    ExplicitValue(SideSpec, 0, 0);
    ExplicitValue(SideSpec, 2, 142);
  }

  /** All six tables registered as lib/gsl/gsl.rb registers them. */
  ghost predicate GslTables(reg: Registry)
    reads reg
  {
    && reg.Registered("status", StatusSpec)
    && reg.Registered("order", OrderSpec)
    && reg.Registered("transpose", TransposeSpec)
    && reg.Registered("uplo", UploSpec)
    && reg.Registered("diag", DiagSpec)
    && reg.Registered("side", SideSpec)
  }

  /** Six successive updates of a table keyed by type: each type finds its
      own entry and every other type keeps its old one. */
  lemma SixUpdates<V>(e: map<string, V>, a: V, b: V, c: V, d: V, f: V, g: V)
    ensures var m := e["status" := a]["order" := b]["transpose" := c]["uplo" := d]["diag" := f]["side" := g];
      && "status" in m && m["status"] == a && "order" in m && m["order"] == b
      && "transpose" in m && m["transpose"] == c && "uplo" in m && m["uplo"] == d
      && "diag" in m && m["diag"] == f && "side" in m && m["side"] == g
      && forall t :: t in e && t !in {"status", "order", "transpose", "uplo", "diag", "side"} ==> t in m && m[t] == e[t]
  {
  }

  /** Loading lib/gsl/gsl.rb: the six `enum` calls, in source order. */
  method RegisterGslTables(reg: Registry)
    modifies reg
    ensures reg.enums == old(reg.enums)["status" := Forward(Assignments(StatusSpec))]["order" := Forward(Assignments(OrderSpec))]
      ["transpose" := Forward(Assignments(TransposeSpec))]["uplo" := Forward(Assignments(UploSpec))]
      ["diag" := Forward(Assignments(DiagSpec))]["side" := Forward(Assignments(SideSpec))]
    ensures reg.enumsRev == old(reg.enumsRev)["status" := Reverse(Assignments(StatusSpec))]["order" := Reverse(Assignments(OrderSpec))]
      ["transpose" := Reverse(Assignments(TransposeSpec))]["uplo" := Reverse(Assignments(UploSpec))]
      ["diag" := Reverse(Assignments(DiagSpec))]["side" := Reverse(Assignments(SideSpec))]
    ensures GslTables(reg)
    ensures forall t :: t in old(reg.enums) && t !in {"status", "order", "transpose", "uplo", "diag", "side"}
              ==> t in reg.enums && reg.enums[t] == old(reg.enums)[t]
  {
    reg.Enum("status", StatusSpec);
    reg.Enum("order", OrderSpec);
    reg.Enum("transpose", TransposeSpec);
    reg.Enum("uplo", UploSpec);
    reg.Enum("diag", DiagSpec);
    reg.Enum("side", SideSpec);
    SixUpdates(old(reg.enums), Forward(Assignments(StatusSpec)), Forward(Assignments(OrderSpec)),
      Forward(Assignments(TransposeSpec)), Forward(Assignments(UploSpec)),
      Forward(Assignments(DiagSpec)), Forward(Assignments(SideSpec)));
    SixUpdates(old(reg.enumsRev), Reverse(Assignments(StatusSpec)), Reverse(Assignments(OrderSpec)),
      Reverse(Assignments(TransposeSpec)), Reverse(Assignments(UploSpec)),
      Reverse(Assignments(DiagSpec)), Reverse(Assignments(SideSpec)));
  }
}
