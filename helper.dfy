/** The string helpers of `GSL::Helper` (lib/gsl/helper.rb): the name
    mangling that turns a Ruby module name into the prefix of GSL's C
    function names, and the text of the forwarding methods the library
    generates. Strings are sequences of characters; letters have case only
    in ASCII. */
module Helper {

  predicate IsUpper(c: char) { 'A' <= c <= 'Z' }

  predicate IsLowerOrDigit(c: char) { 'a' <= c <= 'z' || '0' <= c <= '9' }

  /** No two adjacent colons. */
  predicate NoDoubleColon(s: string)
  {
    forall i :: 0 <= i < |s| - 1 ==> !(s[i] == ':' && s[i + 1] == ':')
  }

  /** No lower-case letter or digit directly followed by an upper-case letter. */
  predicate NoCamelPair(s: string)
  {
    forall i :: 0 <= i < |s| - 1 ==> !(IsLowerOrDigit(s[i]) && IsUpper(s[i + 1]))
  }

  predicate NoUpper(s: string)
  {
    forall i :: 0 <= i < |s| ==> !IsUpper(s[i])
  }

  predicate NoDash(s: string)
  {
    forall i :: 0 <= i < |s| ==> s[i] != '-'
  }

  lemma Assoc<T>(x: seq<T>, y: seq<T>, z: seq<T>)
    ensures x + (y + z) == (x + y) + z
  {
  }

  lemma DropFirst<T>(x: seq<T>, y: seq<T>)
    requires x != []
    ensures (x + y)[0] == x[0] && (x + y)[1..] == x[1..] + y
  {
  }

  // ---------------------------------------------------------------------
  // underscore: four rewriting stages, in the order of lib/gsl/helper.rb:4-8

  /** `gsub(/::/, '_')`: scanning from the left, each "::" becomes "_". */
  function ReplaceColons(s: string): string
  {
    if |s| >= 2 && s[0] == ':' && s[1] == ':' then "_" + ReplaceColons(s[2..])
    else if s == [] then []
    else [s[0]] + ReplaceColons(s[1..])
  }

  /** `gsub(/([a-z\d])([A-Z])/, '\1_\2')`: scanning from the left, a lower-case
      letter or digit followed by an upper-case letter gets "_" between them.
      The rule that would split a run of capitals is commented out in the
      source, so two capitals stay together. */
  function CamelBreak(s: string): string
  {
    if |s| >= 2 && IsLowerOrDigit(s[0]) && IsUpper(s[1]) then [s[0], '_', s[1]] + CamelBreak(s[2..])
    else if s == [] then []
    else [s[0]] + CamelBreak(s[1..])
  }

  /** `tr("-", "_")`. */
  function DashToUnderscore(s: string): (r: string)
    ensures |r| == |s| && NoDash(r)
    ensures forall i :: 0 <= i < |s| && s[i] != '-' ==> r[i] == s[i]
    ensures forall i :: 0 <= i < |s| && s[i] == '-' ==> r[i] == '_'
  {
    seq(|s|, i requires 0 <= i < |s| => if s[i] == '-' then '_' else s[i])
  }

  function Lower(c: char): char
  {
    if IsUpper(c) then (c as int + 32) as char else c
  }

  /** `downcase`, on ASCII letters. */
  function Downcase(s: string): (r: string)
    ensures |r| == |s| && NoUpper(r)
    ensures forall i :: 0 <= i < |s| && !IsUpper(s[i]) ==> r[i] == s[i]
    ensures forall i :: 0 <= i < |s| && IsUpper(s[i]) ==> r[i] as int == s[i] as int + 32
  {
    seq(|s|, i requires 0 <= i < |s| => Lower(s[i]))
  }

  /** `Helper#underscore`: CamelCase module paths to snake_case names. */
  function Underscore(word: string): (r: string)
    ensures NoUpper(r) && NoDash(r)
  {
    Downcase(DashToUnderscore(CamelBreak(ReplaceColons(word))))
  }

  // ---------------------------------------------------------------------
  // What each stage leaves behind

  /** The "::" rewriting leaves no "::", and the output starts with a colon
      only if the input does. */
  lemma {:induction false} ReplaceColonsLeavesNone(s: string)
    ensures NoDoubleColon(ReplaceColons(s))
    ensures ReplaceColons(s) != [] ==> s != [] && (ReplaceColons(s)[0] == ':' ==> s[0] == ':')
  {
    if |s| >= 2 && s[0] == ':' && s[1] == ':' {
      ReplaceColonsLeavesNone(s[2..]);
    } else if s != [] {
      ReplaceColonsLeavesNone(s[1..]);
      var r := ReplaceColons(s[1..]);
      assert ReplaceColons(s) == [s[0]] + r;
      if s[0] == ':' && r != [] {
        assert r[0] != ':';
      }
    }
  }

  /** Without "::" the rewriting changes nothing. */
  lemma {:induction false} ReplaceColonsIdle(s: string)
    requires NoDoubleColon(s)
    ensures ReplaceColons(s) == s
  {
    if s != [] {
      ReplaceColonsIdle(s[1..]);
    }
  }

  /** The rewriting of a concatenation is the concatenation of the rewritings
      when no "::" straddles the seam: the left part does not end in a colon,
      or the right part does not start with one. */
  lemma {:induction false} ReplaceColonsAppend(a: string, t: string)
    requires a == [] || t == [] || a[|a| - 1] != ':' || t[0] != ':'
    ensures ReplaceColons(a + t) == ReplaceColons(a) + ReplaceColons(t)
  {
    var s := a + t;
    if a == [] {
      assert s == t;
    } else if |a| >= 2 && a[0] == ':' && a[1] == ':' {
      assert s[0] == ':' && s[1] == ':';
      assert s[2..] == a[2..] + t;
      ReplaceColonsAppend(a[2..], t);
      assert ReplaceColons(s) == "_" + (ReplaceColons(a[2..]) + ReplaceColons(t));
      Assoc("_", ReplaceColons(a[2..]), ReplaceColons(t));
    } else {
      assert s[0] == a[0];
      assert |a| >= 2 ==> s[1] == a[1];
      assert |a| == 1 && t != [] ==> s[1] == t[0];
      assert s[1..] == a[1..] + t;
      ReplaceColonsAppend(a[1..], t);
      assert ReplaceColons(s) == [a[0]] + (ReplaceColons(a[1..]) + ReplaceColons(t));
      Assoc([a[0]], ReplaceColons(a[1..]), ReplaceColons(t));
    }
  }

  /** Every "::" becomes "_": splitting at a "::" that is not preceded by a
      colon, the two sides are rewritten independently. */
  lemma ReplaceColonsSplit(a: string, b: string)
    requires a == [] || a[|a| - 1] != ':'
    ensures ReplaceColons(a + "::" + b) == ReplaceColons(a) + "_" + ReplaceColons(b)
  {
    var t := "::" + b;
    var ra, rb := ReplaceColons(a), ReplaceColons(b);
    assert ReplaceColons(t) == "_" + rb by {
      assert |t| >= 2 && t[0] == ':' && t[1] == ':' && t[2..] == b;
    }
    ReplaceColonsAppend(a, t);
    assert a + "::" + b == a + t;
    assert ra + ("_" + rb) == ra + "_" + rb;
  }

  /** The camel-case rule leaves no lower-case-then-capital pair behind, keeps
      the first character, and inserts no "::". */
  lemma {:induction false} CamelBreakLeavesNone(s: string)
    ensures NoCamelPair(CamelBreak(s))
    ensures CamelBreak(s) != [] ==> s != [] && CamelBreak(s)[0] == s[0]
    ensures NoDoubleColon(s) ==> NoDoubleColon(CamelBreak(s))
  {
    if |s| >= 2 && IsLowerOrDigit(s[0]) && IsUpper(s[1]) {
      CamelBreakLeavesNone(s[2..]);
      var r := CamelBreak(s[2..]);
      assert CamelBreak(s) == [s[0], '_', s[1]] + r;
      if NoDoubleColon(s) {
        assert NoDoubleColon(s[2..]) by {
          forall i | 0 <= i < |s[2..]| - 1 ensures !(s[2..][i] == ':' && s[2..][i + 1] == ':') {
            assert s[2..][i] == s[i + 2] && s[2..][i + 1] == s[i + 3];
          }
        }
      }
    } else if s != [] {
      CamelBreakLeavesNone(s[1..]);
      var r := CamelBreak(s[1..]);
      assert CamelBreak(s) == [s[0]] + r;
      if NoDoubleColon(s) {
        assert NoDoubleColon(s[1..]) by {
          forall i | 0 <= i < |s[1..]| - 1 ensures !(s[1..][i] == ':' && s[1..][i + 1] == ':') {
            assert s[1..][i] == s[i + 1] && s[1..][i + 1] == s[i + 2];
          }
        }
      }
    }
  }

  /** Where there is no pair to break, the rule changes nothing. */
  lemma {:induction false} CamelBreakIdle(s: string)
    requires NoCamelPair(s)
    ensures CamelBreak(s) == s
  {
    if s != [] {
      CamelBreakIdle(s[1..]);
    }
  }

  /** The camel-case rewriting of a concatenation is the concatenation of the
      rewritings when the right part does not start with a capital. */
  lemma {:induction false} CamelBreakAppend(a: string, t: string)
    requires t == [] || !IsUpper(t[0])
    ensures CamelBreak(a + t) == CamelBreak(a) + CamelBreak(t)
  {
    var s := a + t;
    if a == [] {
      assert s == t;
    } else if |a| >= 2 && IsLowerOrDigit(a[0]) && IsUpper(a[1]) {
      assert s[0] == a[0] && s[1] == a[1];
      assert s[2..] == a[2..] + t;
      CamelBreakAppend(a[2..], t);
      var h := [a[0], '_', a[1]];
      assert CamelBreak(s) == h + (CamelBreak(a[2..]) + CamelBreak(t));
      Assoc(h, CamelBreak(a[2..]), CamelBreak(t));
    } else {
      assert s[0] == a[0];
      assert |a| >= 2 ==> s[1] == a[1];
      assert |a| == 1 && t != [] ==> s[1] == t[0];
      assert s[1..] == a[1..] + t;
      CamelBreakAppend(a[1..], t);
      assert CamelBreak(s) == [a[0]] + (CamelBreak(a[1..]) + CamelBreak(t));
      Assoc([a[0]], CamelBreak(a[1..]), CamelBreak(t));
    }
  }

  /** Removing every "_" from the camel-case output gives the input with its
      "_" removed: the rule only inserts underscores. */
  function Unscored(s: string): string
  {
    if s == [] then [] else (if s[0] == '_' then [] else [s[0]]) + Unscored(s[1..])
  }

  lemma {:induction false} UnscoredAppend(a: string, b: string)
    ensures Unscored(a + b) == Unscored(a) + Unscored(b)
  {
    if a == [] {
      assert a + b == b;
    } else {
      var h: string := if a[0] == '_' then [] else [a[0]];
      UnscoredAppend(a[1..], b);
      assert (a + b)[0] == a[0];
      assert (a + b)[1..] == a[1..] + b;
      assert Unscored(a + b) == h + (Unscored(a[1..]) + Unscored(b));
      Assoc(h, Unscored(a[1..]), Unscored(b));
    }
  }

  lemma {:induction false} CamelBreakOnlyInserts(s: string)
    ensures Unscored(CamelBreak(s)) == Unscored(s)
    ensures |CamelBreak(s)| >= |s|
  {
    if |s| >= 2 && IsLowerOrDigit(s[0]) && IsUpper(s[1]) {
      var t := s[2..];
      CamelBreakOnlyInserts(t);
      var broken, pair := [s[0], '_', s[1]], [s[0], s[1]];
      assert Unscored(broken) == Unscored(pair) by {
        assert broken[1..] == ['_', s[1]] && broken[1..][1..] == [s[1]];
        assert pair[1..] == [s[1]];
      }
      UnscoredAppend(broken, CamelBreak(t));
      assert s == pair + t;
      UnscoredAppend(pair, t);
    } else if s != [] {
      var t := s[1..];
      CamelBreakOnlyInserts(t);
      UnscoredAppend([s[0]], CamelBreak(t));
      assert s == [s[0]] + t;
      UnscoredAppend([s[0]], t);
    }
  }

  // ---------------------------------------------------------------------
  // underscore as a whole

  /** The output of `underscore` has no capital, no "-" and no "::". */
  lemma UnderscoreClean(word: string)
    ensures NoUpper(Underscore(word)) && NoDash(Underscore(word)) && NoDoubleColon(Underscore(word))
  {
    var r := ReplaceColons(word);
    ReplaceColonsLeavesNone(word);
    var c := CamelBreak(r);
    CamelBreakLeavesNone(r);
    var t := DashToUnderscore(c);
    assert NoDoubleColon(t) by {
      forall i | 0 <= i < |t| - 1 ensures !(t[i] == ':' && t[i + 1] == ':') {
        assert t[i] == ':' ==> c[i] == ':';
        assert t[i + 1] == ':' ==> c[i + 1] == ':';
      }
    }
    var d := Downcase(t);
    forall i | 0 <= i < |d| - 1 ensures !(d[i] == ':' && d[i + 1] == ':') {
      assert d[i] == Lower(t[i]) && d[i + 1] == Lower(t[i + 1]);
    }
  }

  /** `underscore` is idempotent: its output holds none of the patterns it
      rewrites. */
  lemma UnderscoreIdempotent(word: string)
    ensures Underscore(Underscore(word)) == Underscore(word)
  {
    var u := Underscore(word);
    UnderscoreClean(word);
    ReplaceColonsIdle(u);
    assert NoCamelPair(u);
    CamelBreakIdle(u);
    assert DashToUnderscore(u) == u;
    assert Downcase(u) == u;
  }

  lemma DashToUnderscoreAround(a: string, b: string)
    ensures DashToUnderscore(a + "_" + b) == DashToUnderscore(a) + "_" + DashToUnderscore(b)
  {
  }

  lemma DowncaseAround(a: string, b: string)
    ensures Downcase(a + "_" + b) == Downcase(a) + "_" + Downcase(b)
  {
  }

  lemma ReplaceColonsAfterUnderscore(b: string)
    ensures ReplaceColons("_" + b) == "_" + ReplaceColons(b)
  {
    var s := "_" + b;
    assert s[0] == '_' && s[1..] == b;
  }

  lemma CamelBreakAfterUnderscore(b: string)
    ensures CamelBreak("_" + b) == "_" + CamelBreak(b)
  {
    var s := "_" + b;
    assert s[0] == '_' && s[1..] == b;
  }

  /** The stages after the "::" rewriting. */
  function Spell(s: string): string
  {
    Downcase(DashToUnderscore(CamelBreak(s)))
  }

  // Proof step of SpellAround: the camel-case stage alone distributes over
  // an underscore join.
  lemma CamelBreakAround(a: string, b: string)
    ensures CamelBreak(a + "_" + b) == CamelBreak(a) + "_" + CamelBreak(b)
  {
    CamelBreakAppend(a, "_" + b);
    CamelBreakAfterUnderscore(b);
    assert a + "_" + b == a + ("_" + b);
    assert CamelBreak(a) + ("_" + CamelBreak(b)) == CamelBreak(a) + "_" + CamelBreak(b);
  }

  /** An underscore separates the later stages. */
  lemma SpellAround(a: string, b: string)
    ensures Spell(a + "_" + b) == Spell(a) + "_" + Spell(b)
  {
    var ca, cb := CamelBreak(a), CamelBreak(b);
    CamelBreakAround(a, b);
    var da, db := DashToUnderscore(ca), DashToUnderscore(cb);
    DashToUnderscoreAround(ca, cb);
    DowncaseAround(da, db);
  }

  /** An underscore in the input separates `underscore`: both sides are
      rewritten on their own. */
  lemma UnderscoreAround(a: string, b: string)
    ensures Underscore(a + "_" + b) == Underscore(a) + "_" + Underscore(b)
  {
    var t := "_" + b;
    ReplaceColonsAppend(a, t);
    ReplaceColonsAfterUnderscore(b);
    assert a + "_" + b == a + t;
    var ra, rb := ReplaceColons(a), ReplaceColons(b);
    assert ReplaceColons(a + "_" + b) == ra + "_" + rb;
    SpellAround(ReplaceColons(a), ReplaceColons(b));
  }

  // ---------------------------------------------------------------------
  // gsl_name, gsl_types

  /** `gsl_name(name)` inside the module `selfName`. */
  function GslName(selfName: string, name: string): (r: string)
    ensures NoUpper(r) && NoDash(r)
  {
    Underscore(selfName + "_" + name)
  }

  /** `String#split('::')` without its limit: the pieces between separators,
      scanning from the left; there is always at least one piece here. */
  function SplitColons(s: string): (ps: seq<string>)
    ensures |ps| >= 1
  {
    if s == [] then [""]
    else if |s| >= 2 && s[0] == ':' && s[1] == ':' then [""] + SplitColons(s[2..])
    else
      var rest := SplitColons(s[1..]);
      [[s[0]] + rest[0]] + rest[1..]
  }

  /** Ruby's `split` drops trailing empty pieces. */
  function DropTrailingEmpty(ps: seq<string>): (r: seq<string>)
    ensures |r| <= |ps| && r == ps[..|r|]
    ensures r != [] ==> r[|r| - 1] != ""
  {
    if ps != [] && ps[|ps| - 1] == "" then DropTrailingEmpty(ps[..|ps| - 1]) else ps
  }

  /** `self.to_s.split('::')[-1]`, where `nil.to_s` is the empty string. */
  function LastSegment(s: string): (r: string)
    ensures r == "" || r in SplitColons(s)
  {
    var ps := DropTrailingEmpty(SplitColons(s));
    if ps == [] then "" else ps[|ps| - 1]
  }

  /** The scalar kinds `gsl_types` recognises. */
  const ScalarKinds: seq<string> :=
    ["char", "complex", "float", "int", "long_double", "long", "short", "uchar", "uint", "ulong", "ushort"]

  /** `gsl_types`: the underscored module name and the scalar type named by
      its last segment, `double` when that is not a recognised kind. */
  function GslTypes(selfName: string): (r: (string, string))
    ensures r.1 in ScalarKinds || r.1 == "double"
    ensures r.1 != "double" ==> r.1 == Underscore(LastSegment(selfName))
  {
    var t := Underscore(LastSegment(selfName));
    (Underscore(selfName), if t in ScalarKinds then t else "double")
  }

  /** A separator that is not preceded by a colon splits the pieces. */
  lemma {:induction false} SplitColonsSplit(a: string, b: string)
    requires a == [] || a[|a| - 1] != ':'
    ensures SplitColons(a + "::" + b) == SplitColons(a) + SplitColons(b)
  {
    var s := a + "::" + b;
    if a == [] {
      assert s[0] == ':' && s[1] == ':' && s[2..] == b;
    } else if |a| >= 2 && a[0] == ':' && a[1] == ':' {
      assert s[0] == ':' && s[1] == ':';
      assert s[2..] == a[2..] + "::" + b;
      SplitColonsSplit(a[2..], b);
      assert SplitColons(s) == [""] + (SplitColons(a[2..]) + SplitColons(b));
      Assoc([""], SplitColons(a[2..]), SplitColons(b));
    } else {
      assert s[0] == a[0] && s[1] == (if |a| >= 2 then a[1] else ':');
      assert s[1..] == a[1..] + "::" + b;
      SplitColonsSplit(a[1..], b);
      var ra := SplitColons(a[1..]);
      assert SplitColons(s[1..]) == ra + SplitColons(b);
      DropFirst(ra, SplitColons(b));
      var h := [[a[0]] + ra[0]];
      assert SplitColons(s) == h + (ra[1..] + SplitColons(b));
      Assoc(h, ra[1..], SplitColons(b));
    }
  }

  /** A string without colons is a single piece. */
  lemma {:induction false} SplitColonsPlain(b: string)
    requires forall i :: 0 <= i < |b| ==> b[i] != ':'
    ensures SplitColons(b) == [b]
  {
    if b != [] {
      SplitColonsPlain(b[1..]);
      assert [b[0]] + b[1..] == b;
    }
  }

  /** The last segment of `a::b`, for a non-empty `b` without colons, is `b`. */
  lemma LastSegmentOf(a: string, b: string)
    requires a == [] || a[|a| - 1] != ':'
    requires b != [] && forall i :: 0 <= i < |b| ==> b[i] != ':'
    ensures LastSegment(a + "::" + b) == b
  {
    SplitColonsSplit(a, b);
    SplitColonsPlain(b);
  }

  /** The GSL name of a method is the underscored module name, "_", and the
      underscored method name: `gsl_name` and `gsl_types` agree on the prefix. */
  lemma GslNamePrefix(selfName: string, name: string)
    ensures GslName(selfName, name) == GslTypes(selfName).0 + "_" + Underscore(name)
  {
    UnderscoreAround(selfName, name);
  }

  // ---------------------------------------------------------------------
  // argstring, upcall

  /** `Array#join(sep)` of strings. */
  function Join(parts: seq<string>, sep: string): string
  {
    if parts == [] then "" else if |parts| == 1 then parts[0] else parts[0] + sep + Join(parts[1..], sep)
  }

  /** Joining two non-empty lists is joining each and putting one separator
      between the results. */
  lemma {:induction false} JoinAppend(a: seq<string>, b: seq<string>, sep: string)
    requires a != [] && b != []
    ensures Join(a + b, sep) == Join(a, sep) + sep + Join(b, sep)
  {
    var ab := a + b;
    assert ab[0] == a[0] && |ab| >= 2;
    if |a| == 1 {
      assert ab[1..] == b;
    } else {
      var ja, jb := Join(a[1..], sep), Join(b, sep);
      JoinAppend(a[1..], b, sep);
      assert ab[1..] == a[1..] + b;
      assert Join(ab, sep) == a[0] + sep + (ja + sep + jb);
      assert a[0] + sep + (ja + sep + jb) == (a[0] + sep + ja) + sep + jb;
    }
  }

  /** `argstring(args)`: the arguments' string forms joined by ", ". */
  function Argstring(args: seq<string>): (r: string)
    ensures args == [] ==> r == ""
    ensures |args| == 1 ==> r == args[0]
  {
    Join(args, ", ")
  }

  /** The options `upcall` looks at. */
  datatype UpcallOpts = UpcallOpts(noSelf: bool, destructive: bool)

  /** The name of the generated method: the local name, with "!" when
      destructive. */
  function UpcallMethodName(localName: string, destructive: bool): (r: string)
    ensures r == localName + "!" <==> destructive
    ensures !destructive ==> r == localName
  {
    if destructive then localName + "!" else localName
  }

  /** The arguments the generated method passes on: "self" first, unless
      `:no_self` is set. */
  function UpcallCallArgs(nonSelfArgs: seq<string>, noSelf: bool): (r: string)
    ensures noSelf ==> r == Argstring(nonSelfArgs)
    ensures !noSelf && nonSelfArgs == [] ==> r == "self"
    ensures !noSelf && nonSelfArgs != [] ==> r == "self, " + Argstring(nonSelfArgs)
  {
    if noSelf then Argstring(nonSelfArgs)
    else
      if nonSelfArgs != [] then JoinAppend(["self"], nonSelfArgs, ", "); Argstring(["self"] + nonSelfArgs)
      else Argstring(["self"] + nonSelfArgs)
  }

  /** The `def` line `upcall` generates. */
  function UpcallDefLine(localName: string, nonSelfArgs: seq<string>, destructive: bool): string
  {
    "\n        def " + UpcallMethodName(localName, destructive) + "(" + Argstring(nonSelfArgs) + ")"
  }

  /** The line of the generated method that calls `GSL.gslName`. */
  function UpcallCallLine(gslName: string, nonSelfArgs: seq<string>, noSelf: bool): string
  {
    "\n          GSL." + gslName + "(" + UpcallCallArgs(nonSelfArgs, noSelf) + ")"
  }

  /** `upcall`: the text of a method `localName` that calls `GSL.gslName`. */
  function Upcall(localName: string, gslName: string, nonSelfArgs: seq<string>, opts: UpcallOpts): (r: string)
    ensures var decl := UpcallDefLine(localName, nonSelfArgs, opts.destructive);
      |r| > |decl| && r[..|decl|] == decl
    ensures var decl, call := UpcallDefLine(localName, nonSelfArgs, opts.destructive), UpcallCallLine(gslName, nonSelfArgs, opts.noSelf);
      |r| >= |decl| + |call| && r[|decl|..|decl| + |call|] == call
  {
    UpcallDefLine(localName, nonSelfArgs, opts.destructive)
    + UpcallCallLine(gslName, nonSelfArgs, opts.noSelf)
    + "\n        end\n      "
  }

  /** `define_module_upcall!('set_all', 'gsl_vector_set_all', [:value])`. */
  lemma UpcallExample()
    ensures UpcallMethodName("set_all", true) == "set_all!"
    ensures Argstring(["value"]) == "value"
    ensures UpcallCallArgs(["value"], false) == "self, value"
  {
  }

  /** Separated arguments: appending one argument appends ", " and its name. */
  lemma ArgstringAppend(args: seq<string>, a: string)
    requires args != []
    ensures Argstring(args + [a]) == Argstring(args) + ", " + a
  {
    JoinAppend(args, [a], ", ");
  }

  // ---------------------------------------------------------------------
  // The examples of the doc comments

  /** A capitalised word spells as itself with its capital lowered. */
  lemma SpellCapitalized(s: string)
    requires s != [] && IsUpper(s[0])
    requires forall i :: 1 <= i < |s| ==> 'a' <= s[i] <= 'z'
    ensures Spell(s) == [Lower(s[0])] + s[1..]
  {
    assert NoCamelPair(s);
    CamelBreakIdle(s);
    var d := DashToUnderscore(s);
    assert d == s;
    var r := Downcase(d);
    assert r == [Lower(s[0])] + s[1..];
  }

  /** A word of lower-case letters is its own `underscore`. */
  lemma UnderscoreLowerWord(s: string)
    requires forall i :: 0 <= i < |s| ==> 'a' <= s[i] <= 'z'
    ensures Underscore(s) == s
  {
    assert NoDoubleColon(s);
    ReplaceColonsIdle(s);
    assert NoCamelPair(s);
    CamelBreakIdle(s);
    assert DashToUnderscore(s) == s;
    assert Downcase(s) == s;
  }

  lemma SpellGsl()
    ensures Spell("GSL") == "gsl"
  {
    var c := "GSL";
    assert NoCamelPair(c);
    CamelBreakIdle(c);
    assert DashToUnderscore(c) == c;
    assert Downcase(c) == "gsl";
  }

  lemma SpellMatrix()
    ensures Spell("Matrix") == "matrix"
  {
    SpellCapitalized("Matrix");
  }

  lemma SpellFloat()
    ensures Spell("Float") == "float"
  {
    SpellCapitalized("Float");
  }

  /** A three-segment module path is underscored segment by segment. */
  lemma UnderscorePath(a: string, b: string, c: string)
    requires NoDoubleColon(a) && NoDoubleColon(b) && NoDoubleColon(c)
    requires a == [] || a[|a| - 1] != ':'
    requires b == [] || b[|b| - 1] != ':'
    ensures Underscore(a + "::" + (b + "::" + c)) == Spell(a) + "_" + (Spell(b) + "_" + Spell(c))
  {
    var bc := b + "::" + c;
    ReplaceColonsSplit(a, bc);
    ReplaceColonsSplit(b, c);
    ReplaceColonsIdle(a);
    ReplaceColonsIdle(b);
    ReplaceColonsIdle(c);
    assert ReplaceColons(a + "::" + bc) == a + "_" + (b + "_" + c);
    SpellAround(a, b + "_" + c);
    SpellAround(b, c);
  }

  // Proof step of UnderscoreMatrixFloat: the three spelt segments joined by
  // "_" give "gsl_matrix_float".
  lemma GslMatrixFloatSpelling()
    ensures "gsl" + "_" + ("matrix" + "_" + "float") == "gsl_matrix_float"
  {
  }

  /** `"GSL::Matrix::Float".underscore`, the example of lib/gsl/helper.rb. */
  lemma UnderscoreMatrixFloat()
    ensures Underscore("GSL::Matrix::Float") == "gsl_matrix_float"
  {
    var a, b, c := "GSL", "Matrix", "Float";
    assert "GSL::Matrix::Float" == a + "::" + (b + "::" + c);
    UnderscorePath(a, b, c);
    SpellGsl();
    SpellMatrix();
    SpellFloat();
    GslMatrixFloatSpelling();
  }

  // Proof step of GslNameMatrixFloatAlloc: "alloc" is its own `underscore`.
  lemma SpellAlloc()
    ensures Underscore("alloc") == "alloc"
  {
    UnderscoreLowerWord("alloc");
  }

  // Proof step of GslNameMatrixFloatAlloc: the type prefix, "_" and "alloc"
  // give "gsl_matrix_float_alloc".
  lemma GslMatrixFloatAllocSpelling()
    ensures "gsl_matrix_float" + "_" + "alloc" == "gsl_matrix_float_alloc"
  {
  }

  /** Inside `GSL::Matrix::Float`, `gsl_name('alloc')` is
      "gsl_matrix_float_alloc". */
  lemma GslNameMatrixFloatAlloc()
    ensures GslName("GSL::Matrix::Float", "alloc") == "gsl_matrix_float_alloc"
  {
    GslNamePrefix("GSL::Matrix::Float", "alloc");
    UnderscoreMatrixFloat();
    SpellAlloc();
    GslMatrixFloatAllocSpelling();
  }

  lemma LastSegmentMatrixFloat()
    ensures LastSegment("GSL::Matrix::Float") == "Float"
  {
    var a, b := "GSL::Matrix", "Float";
    assert "GSL::Matrix::Float" == a + "::" + b;
    LastSegmentOf(a, b);
  }

  // Proof step of GslTypesMatrixFloat: the last segment "Float" underscores
  // to "float".
  lemma UnderscoreFloat()
    ensures Underscore("Float") == "float"
  {
    ReplaceColonsIdle("Float");
    SpellFloat();
  }

  /** A module whose underscored last segment is a recognised kind has that
      kind as its scalar type. */
  lemma GslTypesOfKind(selfName: string, kind: string)
    requires Underscore(LastSegment(selfName)) == kind && kind in ScalarKinds
    ensures GslTypes(selfName) == (Underscore(selfName), kind)
  {
  }

  // Proof step of GslTypesMatrixFloat: "float" is one of the listed scalar
  // kinds.
  lemma FloatIsAKind()
    ensures "float" in ScalarKinds
  {
    assert ScalarKinds[2] == "float";
  }

  /** Inside `GSL::Matrix::Float`, `gsl_types` is `[:gsl_matrix_float, :float]`. */
  lemma GslTypesMatrixFloat()
    ensures GslTypes("GSL::Matrix::Float") == ("gsl_matrix_float", "float")
  {
    LastSegmentMatrixFloat();
    UnderscoreFloat();
    UnderscoreMatrixFloat();
    FloatIsAKind();
    GslTypesOfKind("GSL::Matrix::Float", "float");
  }
}
