/** Printing what was parsed gives back the bits that were consumed. */
module PrintParsed {
  import opened Bits
  import opened Grammar
  import opened DirectSpec
  import opened PrintSpec

  // What the input spells. A constant is printed in one way: an alternative as its first spelling,
  // a repetition once. `SpelledConst` and `Spelled` say of an input that everything the direct parser
  // meets on its path through it was written in that way.

  predicate SpelledConst(c: Const, b: seq<bool>, i: nat)
    requires ConstWellFormed(c) && i <= |b|
  {
    match c
    case CInt(_, _) => true
    case CSeq(cs) => SpelledConsts(cs, b, i)
    case CUnion(cs) => SpelledFirst(cs, b, i)
    case CRepeat(d) =>
      var r := ParseConst(d, b, i, false);
      r.ok && SpelledConst(d, b, i) && ParseRepeat(d, b, r.at, false).at == r.at
  }

  predicate SpelledConsts(cs: Consts, b: seq<bool>, i: nat)
    requires ConstsWellFormed(cs) && i <= |b|
  {
    cs.CCons? ==>
      && SpelledConst(cs.head, b, i)
      && (var r := ParseConst(cs.head, b, i, false); r.ok ==> SpelledConsts(cs.tail, b, r.at))
  }

  predicate SpelledFirst(cs: Consts, b: seq<bool>, i: nat)
    requires ConstsWellFormed(cs) && i <= |b|
  {
    cs.CCons? && ParseConst(cs.head, b, i, false).ok && SpelledConst(cs.head, b, i)
  }

  /** The dependencies the input gives, too: the variable of each one holds, once its structure has
      been printed, the value that was read for it, up to the width of its field. */
  predicate Spelled(p: Parser, b: seq<bool>, i: nat, env: Env, junk: nat)
    requires WellFormed(p) && i <= |b|
    decreases p, 0, 0
  {
    match p
    case PInt(_, _) => true
    case PStruct(fs) =>
      var r := ParseFields(fs, b, i, env);
      r.Ok? ==> SpelledFields(fs, b, i, env, AssignsFields(fs, r.value), junk)
    case PWrap(before, q, after) =>
      && SpelledConsts(before, b, i)
      && (var r := ParseConsts(before, b, i, false);
          r.ok ==>
            && Spelled(q, b, r.at, env, junk)
            && (var s := Parse(q, b, r.at, env); s.Ok? ==> SpelledConsts(after, b, s.at)))
    case PChoice(alts) => SpelledAlts(alts, b, i, env, junk)
    case PSelect(dep, cases) => SpelledCases(cases, Dep(env, dep), b, i, env, junk)
    case PMany(q, _, sep) => SpelledMany(q, sep, b, i, env, true, junk)
    case PFixed(n, q) => SpelledN(q, n, b, i, env, junk)
    case PLength(dep, q) => SpelledN(q, Dep(env, dep), b, i, env, junk)
    case POptional(q) => Parse(q, b, i, env).Ok? ==> Spelled(q, b, i, env, junk)
  }

  predicate SpelledFields(fs: Fields, b: seq<bool>, i: nat, env: Env, d: Env, junk: nat)
    requires FieldsWellFormed(fs) && i <= |b|
    decreases fs, 0, 0
  {
    match fs
    case FNil => true
    case FConst(c, rest) =>
      && SpelledConst(c, b, i)
      && (var r := ParseConst(c, b, i, false); r.ok ==> SpelledFields(rest, b, r.at, env, d, junk))
    case FField(p, rest) =>
      && Spelled(p, b, i, env, junk)
      && (var r := Parse(p, b, i, env); r.Ok? ==> SpelledFields(rest, b, r.at, env, d, junk))
    case FDep(x, w, c, rest) =>
      var r := ParseInt(w, c, b, i);
      r.Ok? ==>
        && Lookup(d, x, junk) % Pow2(w) == r.value.n
        && SpelledFields(rest, b, r.at, env[x := r.value.n], d, junk)
  }

  predicate SpelledAlts(alts: Alts, b: seq<bool>, i: nat, env: Env, junk: nat)
    requires AltsWellFormed(alts) && i <= |b|
    decreases alts, 0, 0
  {
    alts.ACons? ==>
      if Parse(alts.head, b, i, env).Ok? then Spelled(alts.head, b, i, env, junk)
      else SpelledAlts(alts.tail, b, i, env, junk)
  }

  predicate SpelledCases(cases: Cases, d: nat, b: seq<bool>, i: nat, env: Env, junk: nat)
    requires CasesWellFormed(cases) && i <= |b|
    decreases cases, 0, 0
  {
    cases.SCons? ==>
      if cases.value == d then Spelled(cases.head, b, i, env, junk) else SpelledCases(cases.tail, d, b, i, env, junk)
  }

  predicate SpelledMany(p: Parser, sep: Option<Const>, b: seq<bool>, i: nat, env: Env, first: bool, junk: nat)
    requires WellFormed(p) && Advances(p) && (sep.Some? ==> ConstWellFormed(sep.value)) && i <= |b|
    decreases p, 1, |b| - i
  {
    var s := Separator(sep, b, i, first);
    s.ok && Parse(p, b, s.at, env).Ok? ==>
      && (first || sep.None? || SpelledConst(sep.value, b, i))
      && Spelled(p, b, s.at, env, junk)
      && SpelledMany(p, sep, b, Parse(p, b, s.at, env).at, env, false, junk)
  }

  predicate SpelledN(p: Parser, n: nat, b: seq<bool>, i: nat, env: Env, junk: nat)
    requires WellFormed(p) && i <= |b|
    decreases p, 1, n
  {
    n > 0 ==>
      && Spelled(p, b, i, env, junk)
      && (var r := Parse(p, b, i, env); r.Ok? ==> SpelledN(p, n - 1, b, r.at, env, junk))
  }

  lemma {:induction false} ConstText(c: Const, b: seq<bool>, i: nat)
    requires ConstWellFormed(c) && i <= |b| && SpelledConst(c, b, i)
    requires ParseConst(c, b, i, false).ok
    ensures PrintConst(c) == b[i..ParseConst(c, b, i, false).at]
  {
    match c
    case CInt(w, v) => ToBitsOfNumber(b[i..i + w]);
    case CSeq(cs) => ConstsText(cs, b, i);
    case CUnion(cs) => ConstText(cs.head, b, i);
    case CRepeat(d) => ConstText(d, b, i);
  }

  lemma {:induction false} ConstsText(cs: Consts, b: seq<bool>, i: nat)
    requires ConstsWellFormed(cs) && i <= |b| && SpelledConsts(cs, b, i)
    requires ParseConsts(cs, b, i, false).ok
    ensures PrintConsts(cs) == b[i..ParseConsts(cs, b, i, false).at]
  {
    if cs.CCons? {
      var j := ParseConst(cs.head, b, i, false).at;
      ConstText(cs.head, b, i);
      ConstsText(cs.tail, b, j);
      Splice(b, i, j, ParseConsts(cs, b, i, false).at);
    }
  }

  /** Whatever printing a parsed value assigns to a dependency is the value that was parsed for
      it, and a variable the grammar always sets is assigned. */
  lemma {:induction false} Assigned(p: Parser, b: seq<bool>, i: nat, env: Env, x: string)
    requires WellFormed(p) && i <= |b| && Parse(p, b, i, env).Ok?
    ensures var a := Assigns(p, Parse(p, b, i, env).value);
            (x in a ==> a[x] == Dep(env, x)) && (Sets(p, x) ==> x in a)
    decreases p, 0, 0
  {
    match p
    case PInt(_, _) =>
    case PStruct(fs) => if x !in Declared(fs) { AssignedFields(fs, b, i, env, x); }
    case PWrap(before, q, _) => Assigned(q, b, ParseConsts(before, b, i, false).at, env, x);
    case PChoice(alts) => AssignedAlts(alts, 0, b, i, env, x);
    case PSelect(dep, cases) => AssignedCases(cases, 0, dep, b, i, env, x);
    case PMany(q, _, sep) => AssignedMany(q, sep, b, i, env, true, x);
    case PFixed(n, q) => AssignedN(q, n, b, i, env, x);
    case PLength(dep, q) => AssignedN(q, Dep(env, dep), b, i, env, x);
    case POptional(q) => if Parse(q, b, i, env).Ok? { Assigned(q, b, i, env, x); }
  }

  lemma {:induction false} AssignedFields(fs: Fields, b: seq<bool>, i: nat, env: Env, x: string)
    requires FieldsWellFormed(fs) && i <= |b| && ParseFields(fs, b, i, env).Ok?
    requires x !in Declared(fs)
    ensures var a := AssignsFields(fs, ParseFields(fs, b, i, env).value);
            (x in a ==> a[x] == Dep(env, x)) && (FieldsSet(fs, x) ==> x in a)
    decreases fs, 0, 0
  {
    match fs
    case FNil =>
    case FConst(c, rest) => AssignedFields(rest, b, ParseConst(c, b, i, false).at, env, x);
    case FField(p, rest) =>
      var r := Parse(p, b, i, env);
      Assigned(p, b, i, env, x);
      AssignedFields(rest, b, r.at, env, x);
      assert ParseFields(fs, b, i, env).value[1..] == ParseFields(rest, b, r.at, env).value;
    case FDep(y, w, c, rest) =>
      var r := ParseInt(w, c, b, i);
      AssignedFields(rest, b, r.at, env[y := r.value.n], x);
  }

  lemma {:induction false} AssignedAlts(alts: Alts, tag: nat, b: seq<bool>, i: nat, env: Env, x: string)
    requires AltsWellFormed(alts) && i <= |b| && ParseAlts(alts, tag, b, i, env).Ok?
    ensures var v := ParseAlts(alts, tag, b, i, env).value;
            v.VTagged? && v.tag >= tag
            && var a := AssignsAlts(alts, v.tag - tag, v.v);
               (x in a ==> a[x] == Dep(env, x)) && (AltsSet(alts, x) ==> x in a)
    decreases alts, 0, 0
  {
    if Parse(alts.head, b, i, env).Ok? {
      Assigned(alts.head, b, i, env, x);
    } else {
      AssignedAlts(alts.tail, tag + 1, b, i, env, x);
    }
  }

  lemma {:induction false} AssignedCases(cases: Cases, tag: nat, dep: string, b: seq<bool>, i: nat, env: Env, x: string)
    requires CasesWellFormed(cases) && i <= |b| && ParseCases(cases, tag, Dep(env, dep), b, i, env).Ok?
    ensures var v := ParseCases(cases, tag, Dep(env, dep), b, i, env).value;
            v.VTagged? && v.tag >= tag
            && var a := AssignsCases(cases, v.tag - tag, dep, v.v);
               (x in a ==> a[x] == Dep(env, x)) && (dep == x || CasesSet(cases, x) ==> x in a)
    decreases cases, 0, 0
  {
    if cases.value == Dep(env, dep) {
      Assigned(cases.head, b, i, env, x);
    } else {
      AssignedCases(cases.tail, tag + 1, dep, b, i, env, x);
    }
  }

  lemma {:induction false} AssignedMany(
      p: Parser, sep: Option<Const>, b: seq<bool>, i: nat, env: Env, first: bool, x: string)
    requires WellFormed(p) && Advances(p) && (sep.Some? ==> ConstWellFormed(sep.value)) && i <= |b|
    ensures var vs := ParseMany(p, sep, b, i, env, first).0;
            var a := AssignsElems(p, vs);
            (x in a ==> a[x] == Dep(env, x)) && (Sets(p, x) && vs != [] ==> x in a)
    decreases p, 1, |b| - i
  {
    var s := Separator(sep, b, i, first);
    if s.ok && Parse(p, b, s.at, env).Ok? {
      var j := Parse(p, b, s.at, env).at;
      Assigned(p, b, s.at, env, x);
      AssignedMany(p, sep, b, j, env, false, x);
      assert ParseMany(p, sep, b, i, env, first).0[1..] == ParseMany(p, sep, b, j, env, false).0;
    }
  }

  lemma {:induction false} AssignedN(p: Parser, n: nat, b: seq<bool>, i: nat, env: Env, x: string)
    requires WellFormed(p) && i <= |b| && ParseN(p, n, b, i, env).Ok?
    ensures var a := AssignsElems(p, ParseN(p, n, b, i, env).value);
            (x in a ==> a[x] == Dep(env, x)) && (Sets(p, x) && n > 0 ==> x in a)
    decreases p, 1, n
  {
    if n > 0 {
      var j := Parse(p, b, i, env).at;
      Assigned(p, b, i, env, x);
      AssignedN(p, n - 1, b, j, env, x);
      assert ParseN(p, n, b, i, env).value[1..] == ParseN(p, n - 1, b, j, env).value;
    }
  }

  /** When the input is spelled as it is printed, the printer succeeds on the parsed
      value and emits exactly the bits the parser consumed. */
  lemma {:induction false} SpelledPrints(p: Parser, b: seq<bool>, i: nat, env: Env, junk: nat)
    requires WellFormed(p) && i <= |b| && Parse(p, b, i, env).Ok?
    requires Spelled(p, b, i, env, junk)
    ensures var r := Parse(p, b, i, env);
            Print(p, r.value, junk) == Some(b[i..r.at])
    decreases p, 0, 0
  {
    hide ParseFields, ParseAlts, ParseCases, ParseMany, ParseN, ParseConsts, PrintFields, PrintAlts, PrintCases,
      PrintElems, PrintConsts, SpelledFields, SpelledAlts, SpelledCases, SpelledMany, SpelledN, SpelledConsts;
    match p
    case PInt(w, _) => ToBitsOfNumber(b[i..i + w]);
    case PStruct(fs) =>
      PrintFieldsParsed(fs, b, i, env, AssignsFields(fs, ParseFields(fs, b, i, env).value), junk);
    case PWrap(before, q, after) =>
      var j := ParseConsts(before, b, i, false).at;
      var k := Parse(q, b, j, env).at;
      ConstsText(before, b, i);
      SpelledPrints(q, b, j, env, junk);
      ConstsText(after, b, k);
      JoinText(b, i, j, k, ParseConsts(after, b, k, false).at);
    case PChoice(alts) => PrintAltsParsed(alts, 0, b, i, env, junk);
    case PSelect(dep, cases) => PrintCasesParsed(cases, 0, Dep(env, dep), b, i, env, junk);
    case PMany(q, _, sep) => PrintManyParsed(q, sep, b, i, env, true, junk);
    case PFixed(n, q) => PrintNParsed(q, n, b, i, env, true, junk);
    case PLength(dep, q) => PrintNParsed(q, Dep(env, dep), b, i, env, true, junk);
    case POptional(q) =>
      if Parse(q, b, i, env).Ok? { SpelledPrints(q, b, i, env, junk); } else { assert b[i..i] == []; }
  }

  lemma JoinText(b: seq<bool>, i: nat, s: nat, j: nat, e: nat)
    requires i <= s <= j <= e <= |b|
    ensures i == s ==> b[i..s] == []
    ensures Cat(Some(b[i..s]), Cat(Some(b[s..j]), Some(b[j..e]))) == Some(b[i..e])
  {
    Splice(b, s, j, e);
    Splice(b, i, s, e);
  }

  lemma {:induction false} PrintFieldsParsed(fs: Fields, b: seq<bool>, i: nat, env: Env, d: Env, junk: nat)
    requires FieldsWellFormed(fs) && i <= |b| && ParseFields(fs, b, i, env).Ok?
    requires SpelledFields(fs, b, i, env, d, junk)
    ensures var r := ParseFields(fs, b, i, env);
            PrintFields(fs, r.value, d, junk) == Some(b[i..r.at])
    decreases fs, 0, 0
  {
    hide Parse, Print, Spelled, ParseConst, PrintConst, SpelledConst, WellFormed, ConstWellFormed, Violates, Pow2,
      Number, ToBits;
    var e := ParseFields(fs, b, i, env).at;
    match fs
    case FNil => assert b[i..i] == [];
    case FConst(c, rest) =>
      var j := ParseConst(c, b, i, false).at;
      ConstText(c, b, i);
      PrintFieldsParsed(rest, b, j, env, d, junk);
      Splice(b, i, j, e);
    case FField(p, rest) =>
      var j := Parse(p, b, i, env).at;
      assert ParseFields(fs, b, i, env).value[1..] == ParseFields(rest, b, j, env).value;
      SpelledPrints(p, b, i, env, junk);
      PrintFieldsParsed(rest, b, j, env, d, junk);
      Splice(b, i, j, e);
    case FDep(x, w, c, rest) =>
      var r := ParseInt(w, c, b, i);
      var inner := env[x := r.value.n];
      ToBitsOfNumber(b[i..i + w]);
      ToBitsOfMod(Lookup(d, x, junk), w);
      PrintFieldsParsed(rest, b, r.at, inner, d, junk);
      Splice(b, i, r.at, e);
  }

  lemma {:induction false} PrintAltsParsed(alts: Alts, tag: nat, b: seq<bool>, i: nat, env: Env, junk: nat)
    requires AltsWellFormed(alts) && i <= |b| && ParseAlts(alts, tag, b, i, env).Ok?
    requires SpelledAlts(alts, b, i, env, junk)
    ensures var r := ParseAlts(alts, tag, b, i, env);
            r.value.VTagged? && r.value.tag >= tag
            && PrintAlts(alts, r.value.tag - tag, r.value.v, junk) == Some(b[i..r.at])
    decreases alts, 0, 0
  {
    if Parse(alts.head, b, i, env).Ok? {
      SpelledPrints(alts.head, b, i, env, junk);
    } else {
      PrintAltsParsed(alts.tail, tag + 1, b, i, env, junk);
    }
  }

  lemma {:induction false} PrintCasesParsed(cases: Cases, tag: nat, d: nat, b: seq<bool>, i: nat, env: Env, junk: nat)
    requires CasesWellFormed(cases) && i <= |b| && ParseCases(cases, tag, d, b, i, env).Ok?
    requires SpelledCases(cases, d, b, i, env, junk)
    ensures var r := ParseCases(cases, tag, d, b, i, env);
            r.value.VTagged? && r.value.tag >= tag
            && PrintCases(cases, r.value.tag - tag, r.value.v, junk) == Some(b[i..r.at])
    decreases cases, 0, 0
  {
    if cases.value == d {
      SpelledPrints(cases.head, b, i, env, junk);
    } else {
      PrintCasesParsed(cases.tail, tag + 1, d, b, i, env, junk);
    }
  }

  lemma {:induction false} PrintManyParsed(
      p: Parser, sep: Option<Const>, b: seq<bool>, i: nat, env: Env, first: bool, junk: nat)
    requires WellFormed(p) && Advances(p) && (sep.Some? ==> ConstWellFormed(sep.value)) && i <= |b|
    requires SpelledMany(p, sep, b, i, env, first, junk)
    ensures var (vs, j) := ParseMany(p, sep, b, i, env, first);
            PrintElems(p, sep, vs, first, junk) == Some(b[i..j])
    decreases p, 1, |b| - i
  {
    var s := Separator(sep, b, i, first);
    if s.ok && Parse(p, b, s.at, env).Ok? {
      var r := Parse(p, b, s.at, env);
      if !first && sep.Some? { ConstText(sep.value, b, i); }
      SpelledPrints(p, b, s.at, env, junk);
      PrintManyParsed(p, sep, b, r.at, env, false, junk);
      var rest := ParseMany(p, sep, b, r.at, env, false);
      assert ParseMany(p, sep, b, i, env, first) == ([r.value] + rest.0, rest.1);
      hide ParseMany, Parse, ParseConst, Print, PrintConst;
      PrintElemsCons(p, sep, r.value, rest.0, first, junk);
      JoinText(b, i, s.at, r.at, rest.1);
    } else {
      assert b[i..i] == [];
    }
  }

  lemma PrintElemsCons(p: Parser, sep: Option<Const>, v: Value, vs: seq<Value>, first: bool, junk: nat)
    ensures PrintElems(p, sep, [v] + vs, first, junk)
         == Cat(Some(PrintSeparator(sep, first)), Cat(Print(p, v, junk), PrintElems(p, sep, vs, false, junk)))
  {
    assert ([v] + vs)[1..] == vs;
  }

  lemma {:induction false} PrintNParsed(p: Parser, n: nat, b: seq<bool>, i: nat, env: Env, first: bool, junk: nat)
    requires WellFormed(p) && i <= |b| && ParseN(p, n, b, i, env).Ok?
    requires SpelledN(p, n, b, i, env, junk)
    ensures var r := ParseN(p, n, b, i, env);
            PrintElems(p, None, r.value, first, junk) == Some(b[i..r.at])
    decreases p, 1, n
  {
    if n == 0 {
      assert b[i..i] == [];
    } else {
      var j := Parse(p, b, i, env).at;
      SpelledPrints(p, b, i, env, junk);
      PrintNParsed(p, n - 1, b, j, env, false, junk);
      assert ParseN(p, n, b, i, env).value[1..] == ParseN(p, n - 1, b, j, env).value;
      JoinText(b, i, i, j, ParseN(p, n, b, i, env).at);
    }
  }

  // A grammar whose constants have one spelling and whose dependencies are all set leaves the input
  // no choice.

  lemma {:induction false} OneSpellingSpelled(c: Const, b: seq<bool>, i: nat)
    requires ConstWellFormed(c) && OneSpelling(c) && i <= |b|
    ensures SpelledConst(c, b, i)
  {
    match c
    case CInt(_, _) =>
    case CSeq(cs) => OneSpellingsSpelled(cs, b, i);
  }

  lemma {:induction false} OneSpellingsSpelled(cs: Consts, b: seq<bool>, i: nat)
    requires ConstsWellFormed(cs) && OneSpellings(cs) && i <= |b|
    ensures SpelledConsts(cs, b, i)
  {
    if cs.CCons? {
      OneSpellingSpelled(cs.head, b, i);
      var r := ParseConst(cs.head, b, i, false);
      if r.ok { OneSpellingsSpelled(cs.tail, b, r.at); }
    }
  }

  ghost predicate Extends(d: Env, a: Env) {
    forall x :: x in a ==> x in d && d[x] == a[x]
  }

  lemma {:induction false} CanonicalSpelled(p: Parser, b: seq<bool>, i: nat, env: Env, junk: nat)
    requires WellFormed(p) && Canonical(p) && Determined(p) && i <= |b|
    ensures Spelled(p, b, i, env, junk)
    decreases p, 0, 0
  {
    match p
    case PInt(_, _) =>
    case PStruct(fs) =>
      var r := ParseFields(fs, b, i, env);
      if r.Ok? { CanonicalFieldsSpelled(fs, b, i, env, AssignsFields(fs, r.value), junk); }
    case PWrap(before, q, after) =>
      OneSpellingsSpelled(before, b, i);
      var r := ParseConsts(before, b, i, false);
      if r.ok {
        CanonicalSpelled(q, b, r.at, env, junk);
        var s := Parse(q, b, r.at, env);
        if s.Ok? { OneSpellingsSpelled(after, b, s.at); }
      }
    case PChoice(alts) => CanonicalAltsSpelled(alts, b, i, env, junk);
    case PSelect(dep, cases) => CanonicalCasesSpelled(cases, Dep(env, dep), b, i, env, junk);
    case PMany(q, _, sep) => CanonicalManySpelled(q, sep, b, i, env, true, junk);
    case PFixed(n, q) => CanonicalNSpelled(q, n, b, i, env, junk);
    case PLength(dep, q) => CanonicalNSpelled(q, Dep(env, dep), b, i, env, junk);
    case POptional(q) => CanonicalSpelled(q, b, i, env, junk);
  }

  lemma {:induction false} CanonicalFieldsSpelled(
      fs: Fields, b: seq<bool>, i: nat, env: Env, d: Env, junk: nat)
    requires FieldsWellFormed(fs) && FieldsCanonical(fs) && FieldsDetermined(fs)
    requires i <= |b| && ParseFields(fs, b, i, env).Ok?
    requires Extends(d, AssignsFields(fs, ParseFields(fs, b, i, env).value))
    ensures SpelledFields(fs, b, i, env, d, junk)
    decreases fs, 0, 0
  {
    match fs
    case FNil =>
    case FConst(c, rest) =>
      OneSpellingSpelled(c, b, i);
      CanonicalFieldsSpelled(rest, b, ParseConst(c, b, i, false).at, env, d, junk);
    case FField(p, rest) =>
      var j := Parse(p, b, i, env).at;
      assert ParseFields(fs, b, i, env).value[1..] == ParseFields(rest, b, j, env).value;
      CanonicalSpelled(p, b, i, env, junk);
      CanonicalFieldsSpelled(rest, b, j, env, d, junk);
    case FDep(x, w, c, rest) =>
      var r := ParseInt(w, c, b, i);
      var inner := env[x := r.value.n];
      AssignedFields(rest, b, r.at, inner, x);
      ModSmall(r.value.n, Pow2(w));
      CanonicalFieldsSpelled(rest, b, r.at, inner, d, junk);
  }

  lemma {:induction false} CanonicalAltsSpelled(alts: Alts, b: seq<bool>, i: nat, env: Env, junk: nat)
    requires AltsWellFormed(alts) && AltsCanonical(alts) && AltsDetermined(alts) && i <= |b|
    ensures SpelledAlts(alts, b, i, env, junk)
    decreases alts, 0, 0
  {
    if alts.ACons? {
      CanonicalSpelled(alts.head, b, i, env, junk);
      CanonicalAltsSpelled(alts.tail, b, i, env, junk);
    }
  }

  lemma {:induction false} CanonicalCasesSpelled(cases: Cases, d: nat, b: seq<bool>, i: nat, env: Env, junk: nat)
    requires CasesWellFormed(cases) && CasesCanonical(cases) && CasesDetermined(cases) && i <= |b|
    ensures SpelledCases(cases, d, b, i, env, junk)
    decreases cases, 0, 0
  {
    if cases.SCons? {
      CanonicalSpelled(cases.head, b, i, env, junk);
      CanonicalCasesSpelled(cases.tail, d, b, i, env, junk);
    }
  }

  lemma {:induction false} CanonicalManySpelled(
      p: Parser, sep: Option<Const>, b: seq<bool>, i: nat, env: Env, first: bool, junk: nat)
    requires WellFormed(p) && Advances(p) && (sep.Some? ==> ConstWellFormed(sep.value)) && i <= |b|
    requires Canonical(p) && Determined(p) && (sep.Some? ==> OneSpelling(sep.value))
    ensures SpelledMany(p, sep, b, i, env, first, junk)
    decreases p, 1, |b| - i
  {
    var s := Separator(sep, b, i, first);
    if s.ok && Parse(p, b, s.at, env).Ok? {
      if sep.Some? { OneSpellingSpelled(sep.value, b, i); }
      CanonicalSpelled(p, b, s.at, env, junk);
      CanonicalManySpelled(p, sep, b, Parse(p, b, s.at, env).at, env, false, junk);
    }
  }

  lemma {:induction false} CanonicalNSpelled(p: Parser, n: nat, b: seq<bool>, i: nat, env: Env, junk: nat)
    requires WellFormed(p) && Canonical(p) && Determined(p) && i <= |b|
    ensures SpelledN(p, n, b, i, env, junk)
    decreases p, 1, n
  {
    if n > 0 {
      CanonicalSpelled(p, b, i, env, junk);
      var r := Parse(p, b, i, env);
      if r.Ok? { CanonicalNSpelled(p, n - 1, b, r.at, env, junk); }
    }
  }

  /** Print after parse: for a grammar whose constants have one spelling, the printer succeeds on
      every parsed value and emits exactly the bits the parser consumed, whatever uninitialised
      dependency variables hold. */
  lemma PrintAfterParse(p: Parser, b: seq<bool>, i: nat, env: Env, junk: nat)
    requires WellFormed(p) && Canonical(p) && Determined(p) && i <= |b| && Parse(p, b, i, env).Ok?
    ensures var r := Parse(p, b, i, env);
            Print(p, r.value, junk) == Some(b[i..r.at])
  {
    CanonicalSpelled(p, b, i, env, junk);
    SpelledPrints(p, b, i, env, junk);
  }
}
