/** Parsing what was printed gives back the value exactly when the value fits its grammar and the
    bits around its text are not mistaken for a part of it. */
module ParsePrinted {
  import opened Bits
  import opened Grammar
  import opened DirectSpec
  import opened PrintSpec
  import opened PrintParsed
  import opened PrintExactly

  /** The value fits the grammar: integers fit their widths and constraints, every n_of has as many
      elements as its dependency says, every select carries the tag of the first case its dependency
      names, every choice the tag of one of its alternatives, and an array has an element where one
      is asked for. A dependency has the value its variable holds in the end, as far as its field
      can hold it. */
  predicate Fits(p: Parser, v: Value, env: Env, junk: nat)
    decreases p, 0, 0
  {
    match p
    case PInt(w, c) => v.VInt? && v.n < Pow2(w) && !Violates(c, v.n)
    case PStruct(fs) => v.VStruct? && FieldsFit(fs, v.fields, env, AssignsFields(fs, v.fields), junk)
    case PWrap(_, q, _) => Fits(q, v, env, junk)
    case PChoice(alts) => v.VTagged? && AltsFit(alts, v.tag, v.v, env, junk)
    case PSelect(dep, cases) => v.VTagged? && CasesFit(cases, v.tag, Dep(env, dep), v.v, env, junk)
    case PMany(q, atLeastOne, _) => v.VList? && (atLeastOne ==> v.elems != []) && AllFit(q, v.elems, env, junk)
    case PFixed(n, q) => v.VList? && |v.elems| == n && AllFit(q, v.elems, env, junk)
    case PLength(dep, q) => v.VList? && |v.elems| == Dep(env, dep) && AllFit(q, v.elems, env, junk)
    case POptional(q) => v.VAbsent? || (v.VPresent? && Fits(q, v.v, env, junk))
  }

  predicate FieldsFit(fs: Fields, vs: seq<Value>, env: Env, d: Env, junk: nat)
    decreases fs, 0, 0
  {
    match fs
    case FNil => vs == []
    case FConst(_, rest) => FieldsFit(rest, vs, env, d, junk)
    case FField(p, rest) => vs != [] && Fits(p, vs[0], env, junk) && FieldsFit(rest, vs[1..], env, d, junk)
    case FDep(x, w, c, rest) =>
      var n := Lookup(d, x, junk) % Pow2(w);
      !Violates(c, n) && FieldsFit(rest, vs, env[x := n], d, junk)
  }

  predicate AltsFit(alts: Alts, tag: nat, v: Value, env: Env, junk: nat)
    decreases alts, 0, 0
  {
    && alts.ACons?
    && (if tag == 0 then Fits(alts.head, v, env, junk) else AltsFit(alts.tail, tag - 1, v, env, junk))
  }

  predicate CasesFit(cases: Cases, tag: nat, d: nat, v: Value, env: Env, junk: nat)
    decreases cases, 0, 0
  {
    && cases.SCons?
    && (d == cases.value <==> tag == 0)
    && (if tag == 0 then Fits(cases.head, v, env, junk) else CasesFit(cases.tail, tag - 1, d, v, env, junk))
  }

  predicate AllFit(p: Parser, vs: seq<Value>, env: Env, junk: nat)
    decreases p, 1, |vs|
  {
    vs != [] ==> Fits(p, vs[0], env, junk) && AllFit(p, vs[1..], env, junk)
  }

  // What stands around the text. The text of a value leaves three things open: whether an earlier
  // alternative would have been accepted where the text of the chosen one stands, whether a
  // repetition, of elements or of a constant, would have gone on behind its end, and whether an
  // absent part would have been accepted where it is missing.

  /** Nothing at any of these places is mistaken, when the text of the value stands at bit `i`. */
  predicate Clear(p: Parser, v: Value, b: seq<bool>, i: nat, env: Env, junk: nat)
    requires WellFormed(p) && Print(p, v, junk).Some? && i + |Print(p, v, junk).value| <= |b|
    decreases p, 0, 0
  {
    match p
    case PInt(_, _) => true
    case PStruct(fs) => ClearFields(fs, v.fields, b, i, env, AssignsFields(fs, v.fields), junk)
    case PWrap(before, q, after) =>
      var j := i + |PrintConsts(before)|;
      && ConstsClear(before, b, i) && Clear(q, v, b, j, env, junk)
      && ConstsClear(after, b, j + |Print(q, v, junk).value|)
    case PChoice(alts) => ClearAlts(alts, v.tag, v.v, b, i, env, junk)
    case PSelect(_, cases) => ClearCases(cases, v.tag, v.v, b, i, env, junk)
    case PMany(q, _, sep) => ClearMany(q, sep, v.elems, true, b, i, env, junk)
    case PFixed(_, q) => ClearElems(q, v.elems, true, b, i, env, junk)
    case PLength(_, q) => ClearElems(q, v.elems, true, b, i, env, junk)
    case POptional(q) => if v.VAbsent? then Parse(q, b, i, env).Fail? else Clear(q, v.v, b, i, env, junk)
  }

  predicate ClearFields(fs: Fields, vs: seq<Value>, b: seq<bool>, i: nat, env: Env, d: Env, junk: nat)
    requires FieldsWellFormed(fs) && PrintFields(fs, vs, d, junk).Some?
    requires i + |PrintFields(fs, vs, d, junk).value| <= |b|
    decreases fs, 0, 0
  {
    match fs
    case FNil => true
    case FConst(c, rest) => ConstClear(c, b, i) && ClearFields(rest, vs, b, i + |PrintConst(c)|, env, d, junk)
    case FField(p, rest) =>
      && Clear(p, vs[0], b, i, env, junk)
      && ClearFields(rest, vs[1..], b, i + |Print(p, vs[0], junk).value|, env, d, junk)
    case FDep(x, w, _, rest) =>
      ClearFields(rest, vs, b, i + w, env[x := Lookup(d, x, junk) % Pow2(w)], d, junk)
  }

  predicate ClearAlts(alts: Alts, tag: nat, v: Value, b: seq<bool>, i: nat, env: Env, junk: nat)
    requires AltsWellFormed(alts) && PrintAlts(alts, tag, v, junk).Some?
    requires i + |PrintAlts(alts, tag, v, junk).value| <= |b|
    decreases alts, 0, 0
  {
    alts.ACons? ==>
      if tag == 0 then Clear(alts.head, v, b, i, env, junk)
      else Parse(alts.head, b, i, env).Fail? && ClearAlts(alts.tail, tag - 1, v, b, i, env, junk)
  }

  predicate ClearCases(cases: Cases, tag: nat, v: Value, b: seq<bool>, i: nat, env: Env, junk: nat)
    requires CasesWellFormed(cases) && PrintCases(cases, tag, v, junk).Some?
    requires i + |PrintCases(cases, tag, v, junk).value| <= |b|
    decreases cases, 0, 0
  {
    cases.SCons? ==>
      if tag == 0 then Clear(cases.head, v, b, i, env, junk)
      else ClearCases(cases.tail, tag - 1, v, b, i, env, junk)
  }

  predicate ClearMany(
      p: Parser, sep: Option<Const>, vs: seq<Value>, first: bool, b: seq<bool>, i: nat, env: Env, junk: nat)
    requires WellFormed(p) && (sep.Some? ==> ConstWellFormed(sep.value))
    requires PrintElems(p, sep, vs, first, junk).Some? && i + |PrintElems(p, sep, vs, first, junk).value| <= |b|
    decreases p, 1, |vs|
  {
    if vs == [] then
      var s := Separator(sep, b, i, first);
      s.ok ==> Parse(p, b, s.at, env).Fail?
    else
      var j := i + |PrintSeparator(sep, first)|;
      && (first || sep.None? || ConstClear(sep.value, b, i))
      && Clear(p, vs[0], b, j, env, junk)
      && ClearMany(p, sep, vs[1..], false, b, j + |Print(p, vs[0], junk).value|, env, junk)
  }

  predicate ClearElems(p: Parser, vs: seq<Value>, first: bool, b: seq<bool>, i: nat, env: Env, junk: nat)
    requires WellFormed(p)
    requires PrintElems(p, None, vs, first, junk).Some? && i + |PrintElems(p, None, vs, first, junk).value| <= |b|
    decreases p, 1, |vs|
  {
    vs != [] ==>
      && Clear(p, vs[0], b, i, env, junk)
      && ClearElems(p, vs[1..], false, b, i + |Print(p, vs[0], junk).value|, env, junk)
  }

  /** The printer succeeds on every value that fits. */
  lemma {:induction false} FittingPrints(p: Parser, v: Value, env: Env, junk: nat)
    requires Fits(p, v, env, junk)
    ensures Print(p, v, junk).Some?
    decreases p, 0, 0
  {
    match p
    case PInt(w, c) =>
    case PStruct(fs) => FittingFieldsPrint(fs, v.fields, env, AssignsFields(fs, v.fields), junk);
    case PWrap(_, q, _) => FittingPrints(q, v, env, junk);
    case PChoice(alts) => FittingAltPrints(alts, v.tag, v.v, env, junk);
    case PSelect(dep, cases) => FittingCasePrints(cases, v.tag, Dep(env, dep), v.v, env, junk);
    case PMany(q, _, sep) => FittingElemsPrint(q, sep, v.elems, env, junk, true);
    case PFixed(n, q) => FittingElemsPrint(q, None, v.elems, env, junk, true);
    case PLength(dep, q) => FittingElemsPrint(q, None, v.elems, env, junk, true);
    case POptional(q) => if v.VPresent? { FittingPrints(q, v.v, env, junk); }
  }

  lemma {:induction false} FittingFieldsPrint(fs: Fields, vs: seq<Value>, env: Env, d: Env, junk: nat)
    requires FieldsFit(fs, vs, env, d, junk)
    ensures PrintFields(fs, vs, d, junk).Some?
    decreases fs, 0, 0
  {
    match fs
    case FNil =>
    case FConst(_, rest) => FittingFieldsPrint(rest, vs, env, d, junk);
    case FField(p, rest) =>
      FittingPrints(p, vs[0], env, junk);
      FittingFieldsPrint(rest, vs[1..], env, d, junk);
    case FDep(x, w, _, rest) => FittingFieldsPrint(rest, vs, env[x := Lookup(d, x, junk) % Pow2(w)], d, junk);
  }

  lemma {:induction false} FittingAltPrints(alts: Alts, tag: nat, v: Value, env: Env, junk: nat)
    requires AltsFit(alts, tag, v, env, junk)
    ensures PrintAlts(alts, tag, v, junk).Some?
    decreases alts, 0, 0
  {
    if tag == 0 { FittingPrints(alts.head, v, env, junk); } else { FittingAltPrints(alts.tail, tag - 1, v, env, junk); }
  }

  lemma {:induction false} FittingCasePrints(cases: Cases, tag: nat, d: nat, v: Value, env: Env, junk: nat)
    requires CasesFit(cases, tag, d, v, env, junk)
    ensures PrintCases(cases, tag, v, junk).Some?
    decreases cases, 0, 0
  {
    if tag == 0 {
      FittingPrints(cases.head, v, env, junk);
    } else {
      FittingCasePrints(cases.tail, tag - 1, d, v, env, junk);
    }
  }

  lemma {:induction false} FittingElemsPrint(
      p: Parser, sep: Option<Const>, vs: seq<Value>, env: Env, junk: nat, first: bool)
    requires AllFit(p, vs, env, junk)
    ensures PrintElems(p, sep, vs, first, junk).Some?
    decreases p, 1, |vs|
  {
    if vs != [] {
      FittingPrints(p, vs[0], env, junk);
      FittingElemsPrint(p, sep, vs[1..], env, junk, false);
    }
  }

  // From right to left: what fits and is clear reads back.

  /** Where the low bits of a number stand, they are read. */
  lemma IntPrinted(w: nat, c: Constraint, n: nat, b: seq<bool>, i: nat)
    requires !Violates(c, n % Pow2(w)) && At(b, i, ToBits(n, w))
    ensures ParseInt(w, c, b, i) == Ok(VInt(n % Pow2(w)), i + w)
  {
    NumberOfToBits(n, w);
    hide ToBits, Number, Violates, Pow2;
  }

  /** The text of a value that fits reads back wherever it stands, when it stands clear; repeated
      constants included. */
  lemma {:induction false} ReadsBack(p: Parser, v: Value, env: Env, junk: nat, b: seq<bool>, i: nat, t: seq<bool>)
    requires WellFormed(p) && Legible(p) && Fits(p, v, env, junk)
    requires Print(p, v, junk) == Some(t) && At(b, i, t) && i + |t| <= |b| && Clear(p, v, b, i, env, junk)
    ensures Parse(p, b, i, env) == Ok(v, i + |t|)
    decreases p, 0, 0
  {
    hide At, ToBits, ConstsClear, ParseFields, ParseAlts, ParseCases, ParseMany, ParseN, ParseConsts, PrintFields,
      PrintAlts, PrintCases, PrintElems, PrintConsts, FieldsFit, AltsFit, CasesFit, AllFit, ClearFields, ClearAlts,
      ClearCases, ClearMany, ClearElems, Number, Pow2, Violates, ParseInt;
    match p
    case PInt(w, c) =>
      ModSmall(v.n, Pow2(w));
      IntPrinted(w, c, v.n, b, i);
    case PStruct(fs) => FieldsReadBack(fs, v.fields, env, AssignsFields(fs, v.fields), junk, b, i, t);
    case PWrap(before, q, after) => WrapReadsBack(before, q, after, v, env, junk, b, i, t);
    case PChoice(alts) => AltsReadBack(alts, v.tag, 0, v.v, env, junk, b, i, t);
    case PSelect(dep, cases) => CasesReadBack(cases, v.tag, 0, Dep(env, dep), v.v, env, junk, b, i, t);
    case PMany(q, _, sep) => ManyReadsBack(q, sep, v.elems, env, junk, b, i, true, t);
    case PFixed(n, q) => ElemsReadBack(q, v.elems, env, junk, b, i, true, t);
    case PLength(dep, q) => ElemsReadBack(q, v.elems, env, junk, b, i, true, t);
    case POptional(q) =>
      if v.VPresent? { ReadsBack(q, v.v, env, junk, b, i, t); }
  }

  lemma {:induction false} WrapReadsBack(
      before: Consts, q: Parser, after: Consts, v: Value, env: Env, junk: nat, b: seq<bool>, i: nat, t: seq<bool>)
    requires WellFormed(PWrap(before, q, after)) && Legible(PWrap(before, q, after)) && Fits(q, v, env, junk)
    requires Print(PWrap(before, q, after), v, junk) == Some(t) && At(b, i, t) && i + |t| <= |b|
    requires Clear(PWrap(before, q, after), v, b, i, env, junk)
    ensures Parse(PWrap(before, q, after), b, i, env) == Ok(v, i + |t|)
    decreases q, 2, 0
  {
    hide At, Fits, Parse, PrintConsts, ParseConsts, ConstsClear, ConstsLegible, ConstsWellFormed;
    var s, m, e := PrintConsts(before), Print(q, v, junk).value, PrintConsts(after);
    assert t == s + (m + e);
    AtCat(b, i, s, m + e);
    AtCat(b, i + |s|, m, e);
    hide Print;
    ConstsReadBack(before, b, i);
    ReadsBack(q, v, env, junk, b, i + |s|, m);
    ConstsReadBack(after, b, i + |s| + |m|);
    ConstsAround(before, q, after, b, i, env, v, i + |s|, i + |s| + |m|, i + |t|);
  }

  lemma ConstsAround(
      before: Consts, q: Parser, after: Consts, b: seq<bool>, i: nat, env: Env, v: Value, j: nat, k: nat, e: nat)
    requires WellFormed(PWrap(before, q, after)) && i <= |b| && ParseConsts(before, b, i, false) == ConstResult(true, j)
    requires Parse(q, b, j, env) == Ok(v, k) && ParseConsts(after, b, k, false) == ConstResult(true, e)
    ensures Parse(PWrap(before, q, after), b, i, env) == Ok(v, e)
  {
    hide ParseConsts;
  }

  lemma {:induction false} FieldsReadBack(
      fs: Fields, vs: seq<Value>, env: Env, d: Env, junk: nat, b: seq<bool>, i: nat, t: seq<bool>)
    requires FieldsWellFormed(fs) && FieldsLegible(fs) && FieldsFit(fs, vs, env, d, junk)
    requires PrintFields(fs, vs, d, junk) == Some(t) && At(b, i, t) && i + |t| <= |b|
    requires ClearFields(fs, vs, b, i, env, d, junk)
    ensures ParseFields(fs, b, i, env) == Ok(vs, i + |t|)
    decreases fs, 0, 0
  {
    hide At, ToBits, Push, Print, Parse, ParseFields, ParseInt, Fits, Clear, ConstClear, PrintConst, ConstLegible,
      ConstWellFormed, WellFormed, Legible, Violates, Number, Pow2;
    match fs
    case FNil => NothingReadBack(b, i, env, t);
    case FConst(c, rest) =>
      var s, m := PrintConst(c), PrintFields(rest, vs, d, junk).value;
      assert t == s + m && ClearFields(rest, vs, b, i + |s|, env, d, junk);
      hide PrintFields, FieldsFit, ClearFields;
      AtCat(b, i, s, m);
      ConstReadsBack(c, b, i);
      FieldsReadBack(rest, vs, env, d, junk, b, i + |s|, m);
      ConstThenFields(c, rest, b, i, env, i + |s|);
    case FField(p, rest) =>
      var s, m := Print(p, vs[0], junk).value, PrintFields(rest, vs[1..], d, junk).value;
      assert t == s + m && ClearFields(rest, vs[1..], b, i + |s|, env, d, junk);
      hide PrintFields, FieldsFit, ClearFields;
      AtCat(b, i, s, m);
      ReadsBack(p, vs[0], env, junk, b, i, s);
      FieldsReadBack(rest, vs[1..], env, d, junk, b, i + |s|, m);
      FieldThenFields(p, rest, b, i, env, vs, i + |s|, i + |t|);
    case FDep(x, w, c, rest) =>
      var n := Lookup(d, x, junk);
      var s, m := ToBits(n, w), PrintFields(rest, vs, d, junk).value;
      assert t == s + m && ClearFields(rest, vs, b, i + w, env[x := n % Pow2(w)], d, junk);
      hide PrintFields, FieldsFit, ClearFields;
      AtCat(b, i, s, m);
      IntPrinted(w, c, n, b, i);
      FieldsReadBack(rest, vs, env[x := n % Pow2(w)], d, junk, b, i + w, m);
      DependencyThenFields(x, w, c, rest, b, i, env, n % Pow2(w));
  }

  lemma NothingReadBack(b: seq<bool>, i: nat, env: Env, t: seq<bool>)
    requires At(b, i, t) && t == []
    ensures ParseFields(FNil, b, i, env) == Ok([], i + |t|)
  {
  }

  lemma ConstThenFields(c: Const, rest: Fields, b: seq<bool>, i: nat, env: Env, j: nat)
    requires FieldsWellFormed(FConst(c, rest)) && i <= |b| && ParseConst(c, b, i, false) == ConstResult(true, j)
    ensures ParseFields(FConst(c, rest), b, i, env) == ParseFields(rest, b, j, env)
  {
  }

  lemma FieldThenFields(p: Parser, rest: Fields, b: seq<bool>, i: nat, env: Env, vs: seq<Value>, j: nat, k: nat)
    requires FieldsWellFormed(FField(p, rest)) && i <= |b| && vs != [] && Parse(p, b, i, env) == Ok(vs[0], j)
    requires ParseFields(rest, b, j, env) == Ok(vs[1..], k)
    ensures ParseFields(FField(p, rest), b, i, env) == Ok(vs, k)
  {
    PushBack(vs, k);
  }

  lemma DependencyThenFields(x: string, w: nat, c: Constraint, rest: Fields, b: seq<bool>, i: nat, env: Env, n: nat)
    requires FieldsWellFormed(FDep(x, w, c, rest)) && i <= |b| && ParseInt(w, c, b, i) == Ok(VInt(n), i + w)
    ensures i + w <= |b| && ParseFields(FDep(x, w, c, rest), b, i, env) == ParseFields(rest, b, i + w, env[x := n])
  {
  }

  lemma {:induction false} AltsReadBack(
      alts: Alts, tag: nat, k: nat, v: Value, env: Env, junk: nat, b: seq<bool>, i: nat, t: seq<bool>)
    requires AltsWellFormed(alts) && AltsLegible(alts) && AltsFit(alts, tag, v, env, junk)
    requires PrintAlts(alts, tag, v, junk) == Some(t) && At(b, i, t) && i + |t| <= |b|
    requires ClearAlts(alts, tag, v, b, i, env, junk)
    ensures ParseAlts(alts, k, b, i, env) == Ok(VTagged(k + tag, v), i + |t|)
    decreases alts, 0, 0
  {
    if tag == 0 {
      ReadsBack(alts.head, v, env, junk, b, i, t);
    } else {
      AltsReadBack(alts.tail, tag - 1, k + 1, v, env, junk, b, i, t);
    }
  }

  lemma {:induction false} CasesReadBack(
      cases: Cases, tag: nat, k: nat, d: nat, v: Value, env: Env, junk: nat, b: seq<bool>, i: nat, t: seq<bool>)
    requires CasesWellFormed(cases) && CasesLegible(cases) && CasesFit(cases, tag, d, v, env, junk)
    requires PrintCases(cases, tag, v, junk) == Some(t) && At(b, i, t) && i + |t| <= |b|
    requires ClearCases(cases, tag, v, b, i, env, junk)
    ensures ParseCases(cases, k, d, b, i, env) == Ok(VTagged(k + tag, v), i + |t|)
    decreases cases, 0, 0
  {
    if tag == 0 {
      ReadsBack(cases.head, v, env, junk, b, i, t);
    } else {
      CasesReadBack(cases.tail, tag - 1, k + 1, d, v, env, junk, b, i, t);
    }
  }

  /** A repetition whose text stands clear accepts the printed elements and stops behind them. */
  lemma {:induction false} ManyReadsBack(
      p: Parser, sep: Option<Const>, vs: seq<Value>, env: Env, junk: nat, b: seq<bool>, i: nat, first: bool,
      t: seq<bool>)
    requires WellFormed(p) && Advances(p) && Legible(p) && AllFit(p, vs, env, junk)
    requires sep.Some? ==> ConstWellFormed(sep.value) && ConstLegible(sep.value)
    requires PrintElems(p, sep, vs, first, junk) == Some(t) && At(b, i, t) && i + |t| <= |b|
    requires ClearMany(p, sep, vs, first, b, i, env, junk)
    ensures ParseMany(p, sep, b, i, env, first) == (vs, i + |t|)
    decreases p, 1, |vs|
  {
    hide At, Print, PrintElems, Parse, ParseMany, Fits, AllFit, Clear, ClearMany, ConstClear, WellFormed, Legible,
      Advances, PrintConst, ParseConst, ConstLegible;
    ElementParts(p, sep, vs, env, junk, b, i, first);
    if vs == [] {
      OneMoreParsed(p, sep, b, i, env, first);
    } else {
      var x, y := PrintSeparator(sep, first), Print(p, vs[0], junk).value;
      var z := PrintElems(p, sep, vs[1..], false, junk).value;
      AtCat(b, i, x, y + z);
      AtCat(b, i + |x|, y, z);
      if !first && sep.Some? { ConstReadsBack(sep.value, b, i); }
      ReadsBack(p, vs[0], env, junk, b, i + |x|, y);
      ManyReadsBack(p, sep, vs[1..], env, junk, b, i + |x| + |y|, false, z);
      ElementThenMany(p, sep, b, i, env, first, vs, i + |x| + |y|, i + |t|);
    }
  }

  /** The text of a repetition, and what it takes to stand clear, one element at a time. */
  lemma ElementParts(
      p: Parser, sep: Option<Const>, vs: seq<Value>, env: Env, junk: nat, b: seq<bool>, i: nat, first: bool)
    requires WellFormed(p) && (sep.Some? ==> ConstWellFormed(sep.value)) && AllFit(p, vs, env, junk)
    requires PrintElems(p, sep, vs, first, junk).Some? && i + |PrintElems(p, sep, vs, first, junk).value| <= |b|
    requires ClearMany(p, sep, vs, first, b, i, env, junk)
    ensures vs == [] ==>
              && PrintElems(p, sep, vs, first, junk) == Some([])
              && var s := Separator(sep, b, i, first); s.ok ==> Parse(p, b, s.at, env).Fail?
    ensures vs != [] ==>
              && Fits(p, vs[0], env, junk) && AllFit(p, vs[1..], env, junk)
              && Print(p, vs[0], junk).Some? && PrintElems(p, sep, vs[1..], false, junk).Some?
              && var x, y := PrintSeparator(sep, first), Print(p, vs[0], junk).value;
                 var z := PrintElems(p, sep, vs[1..], false, junk).value;
                 && PrintElems(p, sep, vs, first, junk) == Some(x + (y + z))
                 && (first || sep.None? || ConstClear(sep.value, b, i)) && Clear(p, vs[0], b, i + |x|, env, junk)
                 && ClearMany(p, sep, vs[1..], false, b, i + |x| + |y|, env, junk)
  {
    hide Print, Parse, Fits, Clear, ConstClear, WellFormed, PrintConst, ParseConst;
  }

  lemma ElementThenMany(
      p: Parser, sep: Option<Const>, b: seq<bool>, i: nat, env: Env, first: bool, vs: seq<Value>, j: nat, k: nat)
    requires WellFormed(p) && Advances(p) && (sep.Some? ==> ConstWellFormed(sep.value)) && i <= |b| && vs != []
    requires Separator(sep, b, i, first).ok && Parse(p, b, Separator(sep, b, i, first).at, env) == Ok(vs[0], j)
    requires ParseMany(p, sep, b, j, env, false) == (vs[1..], k)
    ensures ParseMany(p, sep, b, i, env, first) == (vs, k)
  {
    hide Parse, ParseMany, ParseConst;
    OneMoreParsed(p, sep, b, i, env, first);
    assert [vs[0]] + vs[1..] == vs;
  }

  lemma {:induction false} ElemsReadBack(
      p: Parser, vs: seq<Value>, env: Env, junk: nat, b: seq<bool>, i: nat, first: bool, t: seq<bool>)
    requires WellFormed(p) && Legible(p) && AllFit(p, vs, env, junk)
    requires PrintElems(p, None, vs, first, junk) == Some(t) && At(b, i, t) && i + |t| <= |b|
    requires ClearElems(p, vs, first, b, i, env, junk)
    ensures ParseN(p, |vs|, b, i, env) == Ok(vs, i + |t|)
    decreases p, 1, |vs|
  {
    hide At, Print, Parse, Fits, Clear, Push, WellFormed, Legible;
    if vs != [] {
      var s, m := Print(p, vs[0], junk).value, PrintElems(p, None, vs[1..], false, junk).value;
      assert t == s + m;
      AtCat(b, i, s, m);
      ReadsBack(p, vs[0], env, junk, b, i, s);
      ElemsReadBack(p, vs[1..], env, junk, b, i + |s|, false, m);
      PushBack(vs, i + |t|);
    }
  }

  lemma PushBack(vs: seq<Value>, j: nat)
    requires vs != []
    ensures Push(vs[0], Ok(vs[1..], j)) == Ok(vs, j)
  {
    assert [vs[0]] + vs[1..] == vs;
  }

  // From left to right: where the text of a parsed value stands at the place it was parsed from, the
  // value fits and the text stands clear.

  lemma {:induction false} PrintedFits(p: Parser, b: seq<bool>, i: nat, env: Env, junk: nat, t: seq<bool>)
    requires WellFormed(p) && Readable(p) && i <= |b| && Parse(p, b, i, env).Ok?
    requires Print(p, Parse(p, b, i, env).value, junk) == Some(t) && At(b, i, t) && i + |t| <= |b|
    ensures var v := Parse(p, b, i, env).value;
            Fits(p, v, env, junk) && Clear(p, v, b, i, env, junk)
    decreases p, 0, 0
  {
    hide At, ToBits, ParseFields, ParseAlts, ParseCases, ParseMany, ParseN, ParseConsts, PrintFields, PrintAlts,
      PrintCases, PrintElems, PrintConsts, FieldsFit, AltsFit, CasesFit, AllFit, ClearFields, ClearAlts, ClearCases,
      ClearMany, ClearElems, Number, Pow2, Violates;
    match p
    case PInt(_, _) =>
    case PStruct(fs) =>
      PrintedFieldsFit(fs, b, i, env, AssignsFields(fs, ParseFields(fs, b, i, env).value), junk, t);
    case PWrap(before, q, after) =>
      var r := ParseConsts(before, b, i, false);
      var s, e := PrintConsts(before), PrintConsts(after);
      var m := Print(q, Parse(q, b, r.at, env).value, junk).value;
      AtCat(b, i, s, m + e);
      AtCat(b, i + |s|, m, e);
      ConstsPrinted(before, b, i);
      PrintedFits(q, b, r.at, env, junk, m);
      AllUnrepeatedClear(before, b, i);
      AllUnrepeatedClear(after, b, i + |s| + |m|);
    case PChoice(alts) => PrintedAltsFit(alts, 0, b, i, env, junk, t);
    case PSelect(dep, cases) => PrintedCasesFit(cases, 0, Dep(env, dep), b, i, env, junk, t);
    case PMany(q, _, sep) => PrintedManyFit(q, sep, b, i, env, true, junk, t);
    case PFixed(n, q) => PrintedNFit(q, n, b, i, env, true, junk, t);
    case PLength(dep, q) => PrintedNFit(q, Dep(env, dep), b, i, env, true, junk, t);
    case POptional(q) => if Parse(q, b, i, env).Ok? { PrintedFits(q, b, i, env, junk, t); }
  }

  lemma {:induction false} PrintedFieldsFit(
      fs: Fields, b: seq<bool>, i: nat, env: Env, d: Env, junk: nat, t: seq<bool>)
    requires FieldsWellFormed(fs) && FieldsReadable(fs) && i <= |b| && ParseFields(fs, b, i, env).Ok?
    requires PrintFields(fs, ParseFields(fs, b, i, env).value, d, junk) == Some(t) && At(b, i, t) && i + |t| <= |b|
    ensures var vs := ParseFields(fs, b, i, env).value;
            FieldsFit(fs, vs, env, d, junk) && ClearFields(fs, vs, b, i, env, d, junk)
    decreases fs, 0, 0
  {
    hide At, Print, Parse, Fits, Clear, ConstClear, PrintConst, ParseConst, ConstLegible, ConstUnrepeated,
      ConstWellFormed, Legible, Unrepeated, WellFormed, ToBits, Number, Violates, Pow2;
    var vs := ParseFields(fs, b, i, env).value;
    match fs
    case FNil =>
    case FConst(c, rest) =>
      var s, m := PrintConst(c), PrintFields(rest, vs, d, junk).value;
      AtCat(b, i, s, m);
      ConstPrinted(c, b, i);
      UnrepeatedClear(c, b, i);
      PrintedFieldsFit(rest, b, i + |s|, env, d, junk, m);
    case FField(p, rest) =>
      var r := Parse(p, b, i, env);
      assert vs[1..] == ParseFields(rest, b, r.at, env).value;
      var s, m := Print(p, vs[0], junk).value, PrintFields(rest, vs[1..], d, junk).value;
      assert t == s + m;
      AtCat(b, i, s, m);
      PrintedSpelled(p, b, i, env, junk, s);
      PrintedFits(p, b, i, env, junk, s);
      PrintedFieldsFit(rest, b, r.at, env, d, junk, m);
      OneMoreField(p, rest, vs, b, i, env, d, junk);
    case FDep(x, w, c, rest) =>
      var r := ParseInt(w, c, b, i);
      var s, m := ToBits(Lookup(d, x, junk), w), PrintFields(rest, vs, d, junk).value;
      AtCat(b, i, s, m);
      Within(b, i, s);
      NumberOfToBits(Lookup(d, x, junk), w);
      PrintedFieldsFit(rest, b, r.at, env[x := r.value.n], d, junk, m);
  }

  lemma OneMoreField(
      p: Parser, rest: Fields, vs: seq<Value>, b: seq<bool>, i: nat, env: Env, d: Env, junk: nat)
    requires FieldsWellFormed(FField(p, rest)) && vs != []
    requires Print(p, vs[0], junk).Some? && PrintFields(rest, vs[1..], d, junk).Some?
    requires var j := i + |Print(p, vs[0], junk).value|;
             && j + |PrintFields(rest, vs[1..], d, junk).value| <= |b|
             && Clear(p, vs[0], b, i, env, junk) && ClearFields(rest, vs[1..], b, j, env, d, junk)
    requires Fits(p, vs[0], env, junk) && FieldsFit(rest, vs[1..], env, d, junk)
    ensures PrintFields(FField(p, rest), vs, d, junk).Some?
    ensures i + |PrintFields(FField(p, rest), vs, d, junk).value| <= |b|
    ensures FieldsFit(FField(p, rest), vs, env, d, junk) && ClearFields(FField(p, rest), vs, b, i, env, d, junk)
  {
    hide Print, Clear, Fits, WellFormed;
  }

  lemma {:induction false} PrintedAltsFit(
      alts: Alts, tag: nat, b: seq<bool>, i: nat, env: Env, junk: nat, t: seq<bool>)
    requires AltsWellFormed(alts) && AltsReadable(alts) && i <= |b| && ParseAlts(alts, tag, b, i, env).Ok?
    requires var v := ParseAlts(alts, tag, b, i, env).value;
             v.VTagged? && v.tag >= tag && PrintAlts(alts, v.tag - tag, v.v, junk) == Some(t) && At(b, i, t)
             && i + |t| <= |b|
    ensures var v := ParseAlts(alts, tag, b, i, env).value;
            AltsFit(alts, v.tag - tag, v.v, env, junk) && ClearAlts(alts, v.tag - tag, v.v, b, i, env, junk)
    decreases alts, 0, 0
  {
    if Parse(alts.head, b, i, env).Ok? {
      PrintedFits(alts.head, b, i, env, junk, t);
    } else {
      LaterTag(alts.tail, tag + 1, b, i, env);
      PrintedAltsFit(alts.tail, tag + 1, b, i, env, junk, t);
    }
  }

  lemma {:induction false} PrintedCasesFit(
      cases: Cases, tag: nat, d: nat, b: seq<bool>, i: nat, env: Env, junk: nat, t: seq<bool>)
    requires CasesWellFormed(cases) && CasesReadable(cases) && i <= |b| && ParseCases(cases, tag, d, b, i, env).Ok?
    requires var v := ParseCases(cases, tag, d, b, i, env).value;
             v.VTagged? && v.tag >= tag && PrintCases(cases, v.tag - tag, v.v, junk) == Some(t) && At(b, i, t)
             && i + |t| <= |b|
    ensures var v := ParseCases(cases, tag, d, b, i, env).value;
            CasesFit(cases, v.tag - tag, d, v.v, env, junk) && ClearCases(cases, v.tag - tag, v.v, b, i, env, junk)
    decreases cases, 0, 0
  {
    if cases.value == d {
      PrintedFits(cases.head, b, i, env, junk, t);
    } else {
      LaterCase(cases.tail, tag + 1, d, b, i, env);
      PrintedCasesFit(cases.tail, tag + 1, d, b, i, env, junk, t);
    }
  }

  lemma {:induction false} PrintedManyFit(
      p: Parser, sep: Option<Const>, b: seq<bool>, i: nat, env: Env, first: bool, junk: nat, t: seq<bool>)
    requires WellFormed(p) && Advances(p) && (sep.Some? ==> ConstWellFormed(sep.value)) && i <= |b|
    requires Readable(p) && (sep.Some? ==> ConstReadable(sep.value))
    requires PrintElems(p, sep, ParseMany(p, sep, b, i, env, first).0, first, junk) == Some(t) && At(b, i, t)
    requires i + |t| <= |b|
    ensures var vs := ParseMany(p, sep, b, i, env, first).0;
            AllFit(p, vs, env, junk) && ClearMany(p, sep, vs, first, b, i, env, junk)
    decreases p, 1, |b| - i
  {
    hide At, Parse, ParseMany, Print, Fits, Clear, Readable, WellFormed, Advances, PrintConst, ParseConst;
    OneMoreParsed(p, sep, b, i, env, first);
    var s := Separator(sep, b, i, first);
    if s.ok && Parse(p, b, s.at, env).Ok? {
      var r := Parse(p, b, s.at, env);
      var rest := ParseMany(p, sep, b, r.at, env, false).0;
      PrintElemsCons(p, sep, r.value, rest, first, junk);
      var x, y := PrintSeparator(sep, first), Print(p, r.value, junk).value;
      var z := PrintElems(p, sep, rest, false, junk).value;
      hide PrintElems, AllFit, ClearMany;
      AtCat(b, i, x, y + z);
      AtCat(b, i + |x|, y, z);
      if !first && sep.Some? {
        ConstPrinted(sep.value, b, i);
        UnrepeatedClear(sep.value, b, i);
      }
      PrintedSpelled(p, b, s.at, env, junk, y);
      PrintedFits(p, b, s.at, env, junk, y);
      PrintedManyFit(p, sep, b, r.at, env, false, junk, z);
      OneMoreFits(p, r.value, rest, env, junk);
      OneMoreClear(p, sep, r.value, rest, first, b, i, env, junk);
    }
  }

  lemma OneMoreFits(p: Parser, v: Value, vs: seq<Value>, env: Env, junk: nat)
    requires Fits(p, v, env, junk) && AllFit(p, vs, env, junk)
    ensures AllFit(p, [v] + vs, env, junk)
  {
    hide Fits;
    assert ([v] + vs)[1..] == vs;
  }

  lemma OneMoreClear(
      p: Parser, sep: Option<Const>, v: Value, vs: seq<Value>, first: bool, b: seq<bool>, i: nat, env: Env, junk: nat)
    requires WellFormed(p) && (sep.Some? ==> ConstWellFormed(sep.value))
    requires Print(p, v, junk).Some? && PrintElems(p, sep, vs, false, junk).Some?
    requires var j := i + |PrintSeparator(sep, first)|;
             var k := j + |Print(p, v, junk).value|;
             && k + |PrintElems(p, sep, vs, false, junk).value| <= |b|
             && (first || sep.None? || ConstClear(sep.value, b, i))
             && Clear(p, v, b, j, env, junk) && ClearMany(p, sep, vs, false, b, k, env, junk)
    ensures PrintElems(p, sep, [v] + vs, first, junk).Some?
    ensures i + |PrintElems(p, sep, [v] + vs, first, junk).value| <= |b|
    ensures ClearMany(p, sep, [v] + vs, first, b, i, env, junk)
  {
    hide Print, Clear, Parse, ParseConst, WellFormed;
    PrintElemsCons(p, sep, v, vs, first, junk);
    assert ([v] + vs)[1..] == vs;
  }

  lemma {:induction false} PrintedNFit(
      p: Parser, n: nat, b: seq<bool>, i: nat, env: Env, first: bool, junk: nat, t: seq<bool>)
    requires WellFormed(p) && Readable(p) && i <= |b| && ParseN(p, n, b, i, env).Ok?
    requires PrintElems(p, None, ParseN(p, n, b, i, env).value, first, junk) == Some(t) && At(b, i, t)
    requires i + |t| <= |b|
    ensures var vs := ParseN(p, n, b, i, env).value;
            AllFit(p, vs, env, junk) && ClearElems(p, vs, first, b, i, env, junk)
    decreases p, 1, n
  {
    hide At, Parse, Print, Fits, Clear, Readable, WellFormed;
    if n > 0 {
      var r := Parse(p, b, i, env);
      var rest := ParseN(p, n - 1, b, r.at, env).value;
      var vs := ParseN(p, n, b, i, env).value;
      assert vs == [r.value] + rest;
      PrintElemsCons(p, None, r.value, rest, first, junk);
      var y, z := Print(p, r.value, junk).value, PrintElems(p, None, rest, false, junk).value;
      assert t == y + z;
      hide PrintElems, AllFit, ClearElems;
      AtCat(b, i, y, z);
      PrintedSpelled(p, b, i, env, junk, y);
      PrintedFits(p, b, i, env, junk, y);
      PrintedNFit(p, n - 1, b, r.at, env, false, junk, z);
      OneMoreFits(p, r.value, rest, env, junk);
      OneMoreElemClear(p, r.value, rest, first, b, i, env, junk);
    }
  }

  lemma OneMoreElemClear(
      p: Parser, v: Value, vs: seq<Value>, first: bool, b: seq<bool>, i: nat, env: Env, junk: nat)
    requires WellFormed(p) && Print(p, v, junk).Some? && PrintElems(p, None, vs, false, junk).Some?
    requires var j := i + |Print(p, v, junk).value|;
             && j + |PrintElems(p, None, vs, false, junk).value| <= |b|
             && Clear(p, v, b, i, env, junk) && ClearElems(p, vs, false, b, j, env, junk)
    ensures PrintElems(p, None, [v] + vs, first, junk).Some?
    ensures i + |PrintElems(p, None, [v] + vs, first, junk).value| <= |b|
    ensures ClearElems(p, [v] + vs, first, b, i, env, junk)
  {
    hide Print, Clear, WellFormed;
    PrintElemsCons(p, None, v, vs, first, junk);
    assert ([v] + vs)[1..] == vs;
  }

  /** Parse after print, exactly: where the text of a value stands, the parser gives the value back
      and stops behind its text if and only if the value fits the grammar and its text stands
      clear. */
  lemma ParseAfterPrintExactly(p: Parser, v: Value, env: Env, junk: nat, b: seq<bool>, i: nat, t: seq<bool>)
    requires WellFormed(p) && Readable(p) && Print(p, v, junk) == Some(t) && At(b, i, t)
    ensures i + |t| <= |b|
    ensures Parse(p, b, i, env) == Ok(v, i + |t|) <==> Fits(p, v, env, junk) && Clear(p, v, b, i, env, junk)
  {
    Within(b, i, t);
    if Fits(p, v, env, junk) && Clear(p, v, b, i, env, junk) {
      ReadsBack(p, v, env, junk, b, i, t);
    }
    if Parse(p, b, i, env) == Ok(v, i + |t|) {
      PrintedFits(p, b, i, env, junk, t);
    }
  }

  /** A value that fits and does not stand clear: the second of two equal alternatives comes back
      as the first. */
  lemma EarlierAlternativeTaken()
    ensures var byte := PInt(8, Any);
            var p := PChoice(ACons(byte, ACons(byte, ANil)));
            var v, b := VTagged(1, VInt(7)), ToBits(7, 8);
            && WellFormed(p) && Readable(p) && Fits(p, v, map[], 0) && Print(p, v, 0) == Some(b)
            && Parse(p, b, 0, map[]) == Ok(VTagged(0, VInt(7)), 8)
  {
    var byte := PInt(8, Any);
    var second := ACons(byte, ANil);
    var alts := ACons(byte, second);
    var b := ToBits(7, 8);
    assert Pow2(8) == 256;
    NumberOfFitting(7, 8);
    assert b[0..8] == b;
    assert AltsWellFormed(second) && AltsReadable(second) && AltsWellFormed(alts) && AltsReadable(alts);
    assert AltsFit(second, 0, VInt(7), map[], 0) && PrintAlts(second, 0, VInt(7), 0) == Some(b);
    assert ParseAlts(alts, 0, b, 0, map[]) == Ok(VTagged(0, VInt(7)), 8);
  }

  /** With repeated constants one direction fails here as well: two repetitions that stand next to
      each other read back what they print, although the first goes on into the text of the second. */
  lemma RepeatsNotClear()
    ensures var p, b := OnlyConsts(CCons(WHITE, CCons(WHITE, CNil))), TwoSpaces();
            && WellFormed(p) && Legible(p) && Print(p, VList([]), 0) == Some(b) && Fits(p, VList([]), map[], 0)
            && Parse(p, b, 0, map[]) == Ok(VList([]), |b|) && !Clear(p, VList([]), b, 0, map[], 0)
  {
    var b, second, before := TwoSpaces(), CCons(WHITE, CNil), CCons(WHITE, CCons(WHITE, CNil));
    RepeatsCompensate();
    WhiteAtTwoSpaces();
    WhiteLegible();
    hide ParseConst, ConstClear, PrintConst, SpelledConst, ConstLegible, Print, Parse, TwoSpaces;
    assert ConstsLegible(second) && ConstsLegible(before);
    ConstsAloneClear(before, b);
    hide PrintConsts;
    assert !ConstsClear(before, b, 0);
  }

  lemma ConstsAloneClear(cs: Consts, b: seq<bool>)
    requires ConstsWellFormed(cs)
    requires WellFormed(OnlyConsts(cs)) && Print(OnlyConsts(cs), VList([]), 0) == Some(b)
    ensures |PrintConsts(cs)| <= |b|
    ensures Fits(OnlyConsts(cs), VList([]), map[], 0)
    ensures ConstsLegible(cs) ==> Legible(OnlyConsts(cs))
    ensures Clear(OnlyConsts(cs), VList([]), b, 0, map[], 0) ==> ConstsClear(cs, b, 0)
  {
    hide PrintConsts, ConstsClear;
  }

  lemma WhiteLegible()
    ensures ConstLegible(WHITE)
  {
    assert Pow2(8) == 256;
    assert ConstLegible(CInt(8, SPACE));
    assert ConstLegible(WHITE.c);
  }

  // Grammars whose text says by itself where it ends: nothing around it matters.

  /** No choice by backtracking, no open-ended repetition and no optional part. */
  predicate SelfDelimiting(p: Parser) {
    match p
    case PInt(_, _) => true
    case PStruct(fs) => FieldsSelfDelimiting(fs)
    case PWrap(_, q, _) => SelfDelimiting(q)
    case PChoice(_) => false
    case PSelect(_, cases) => CasesSelfDelimiting(cases)
    case PMany(_, _, _) => false
    case PFixed(_, q) => SelfDelimiting(q)
    case PLength(_, q) => SelfDelimiting(q)
    case POptional(_) => false
  }

  predicate FieldsSelfDelimiting(fs: Fields) {
    match fs
    case FNil => true
    case FConst(_, rest) => FieldsSelfDelimiting(rest)
    case FField(p, rest) => SelfDelimiting(p) && FieldsSelfDelimiting(rest)
    case FDep(_, _, _, rest) => FieldsSelfDelimiting(rest)
  }

  predicate CasesSelfDelimiting(cases: Cases) {
    cases.SCons? ==> SelfDelimiting(cases.head) && CasesSelfDelimiting(cases.tail)
  }

  lemma {:induction false} AlwaysClear(p: Parser, v: Value, b: seq<bool>, i: nat, env: Env, junk: nat)
    requires WellFormed(p) && SelfDelimiting(p) && Unrepeated(p)
    requires Print(p, v, junk).Some? && i + |Print(p, v, junk).value| <= |b|
    ensures Clear(p, v, b, i, env, junk)
    decreases p, 0, 0
  {
    match p
    case PInt(_, _) =>
    case PStruct(fs) => FieldsAlwaysClear(fs, v.fields, b, i, env, AssignsFields(fs, v.fields), junk);
    case PWrap(before, q, after) =>
      var j := i + |PrintConsts(before)|;
      AllUnrepeatedClear(before, b, i);
      AlwaysClear(q, v, b, j, env, junk);
      AllUnrepeatedClear(after, b, j + |Print(q, v, junk).value|);
    case PSelect(_, cases) => CasesAlwaysClear(cases, v.tag, v.v, b, i, env, junk);
    case PFixed(_, q) => ElemsAlwaysClear(q, v.elems, true, b, i, env, junk);
    case PLength(_, q) => ElemsAlwaysClear(q, v.elems, true, b, i, env, junk);
  }

  lemma {:induction false} FieldsAlwaysClear(
      fs: Fields, vs: seq<Value>, b: seq<bool>, i: nat, env: Env, d: Env, junk: nat)
    requires FieldsWellFormed(fs) && FieldsSelfDelimiting(fs) && FieldsUnrepeated(fs)
    requires PrintFields(fs, vs, d, junk).Some? && i + |PrintFields(fs, vs, d, junk).value| <= |b|
    ensures ClearFields(fs, vs, b, i, env, d, junk)
    decreases fs, 0, 0
  {
    match fs
    case FNil =>
    case FConst(c, rest) =>
      UnrepeatedClear(c, b, i);
      FieldsAlwaysClear(rest, vs, b, i + |PrintConst(c)|, env, d, junk);
    case FField(p, rest) =>
      AlwaysClear(p, vs[0], b, i, env, junk);
      FieldsAlwaysClear(rest, vs[1..], b, i + |Print(p, vs[0], junk).value|, env, d, junk);
    case FDep(x, w, _, rest) =>
      FieldsAlwaysClear(rest, vs, b, i + w, env[x := Lookup(d, x, junk) % Pow2(w)], d, junk);
  }

  lemma {:induction false} CasesAlwaysClear(
      cases: Cases, tag: nat, v: Value, b: seq<bool>, i: nat, env: Env, junk: nat)
    requires CasesWellFormed(cases) && CasesSelfDelimiting(cases) && CasesUnrepeated(cases)
    requires PrintCases(cases, tag, v, junk).Some? && i + |PrintCases(cases, tag, v, junk).value| <= |b|
    ensures ClearCases(cases, tag, v, b, i, env, junk)
    decreases cases, 0, 0
  {
    if cases.SCons? {
      if tag == 0 {
        AlwaysClear(cases.head, v, b, i, env, junk);
      } else {
        CasesAlwaysClear(cases.tail, tag - 1, v, b, i, env, junk);
      }
    }
  }

  lemma {:induction false} ElemsAlwaysClear(
      p: Parser, vs: seq<Value>, first: bool, b: seq<bool>, i: nat, env: Env, junk: nat)
    requires WellFormed(p) && SelfDelimiting(p) && Unrepeated(p)
    requires PrintElems(p, None, vs, first, junk).Some? && i + |PrintElems(p, None, vs, first, junk).value| <= |b|
    ensures ClearElems(p, vs, first, b, i, env, junk)
    decreases p, 1, |vs|
  {
    if vs != [] {
      AlwaysClear(p, vs[0], b, i, env, junk);
      ElemsAlwaysClear(p, vs[1..], false, b, i + |Print(p, vs[0], junk).value|, env, junk);
    }
  }

  predicate Invertible(p: Parser) {
    Readable(p) && SelfDelimiting(p)
  }

  /** Parse after print: a value of such a grammar is recovered from its printed form, with every
      bit of any suffix left over, exactly when it fits. */
  lemma ParseAfterPrint(p: Parser, v: Value, env: Env, junk: nat, prefix: seq<bool>, t: seq<bool>, suffix: seq<bool>)
    requires WellFormed(p) && Invertible(p) && Print(p, v, junk) == Some(t)
    ensures Parse(p, prefix + t + suffix, |prefix|, env) == Ok(v, |prefix| + |t|) <==> Fits(p, v, env, junk)
  {
    var b := prefix + t + suffix;
    assert At(b, |prefix|, t);
    AlwaysClear(p, v, b, |prefix|, env, junk);
    ParseAfterPrintExactly(p, v, env, junk, b, |prefix|, t);
  }

  lemma FittingReadsBack(p: Parser, v: Value, env: Env, junk: nat, b: seq<bool>, i: nat, t: seq<bool>)
    requires WellFormed(p) && Invertible(p) && Fits(p, v, env, junk) && Print(p, v, junk) == Some(t) && At(b, i, t)
    ensures Parse(p, b, i, env) == Ok(v, i + |t|)
  {
    Within(b, i, t);
    AlwaysClear(p, v, b, i, env, junk);
    ReadsBack(p, v, env, junk, b, i, t);
  }

  /** At the entry point of the one-pass parser such a text is accepted with fewer than eight bits
      behind it, and refused with more. */
  lemma EntryAcceptsWhen(p: Parser, v: Value, junk: nat, t: seq<bool>, suffix: seq<bool>)
    requires WellFormed(p) && Invertible(p) && Fits(p, v, map[], junk) && Print(p, v, junk) == Some(t)
    ensures ParseAll(p, t + suffix) == if |suffix| < 8 then Some(v) else None
  {
    assert At(t + suffix, 0, t);
    hide At, Parse, Print, Fits, WellFormed, Invertible;
    FittingReadsBack(p, v, map[], junk, t + suffix, 0, t);
  }

  // The parser only ever returns values that fit.

  lemma {:induction false} ParsedFits(p: Parser, b: seq<bool>, i: nat, env: Env, junk: nat)
    requires WellFormed(p) && Determined(p) && i <= |b| && Parse(p, b, i, env).Ok?
    ensures Fits(p, Parse(p, b, i, env).value, env, junk)
    decreases p, 0, 0
  {
    hide ParseFields, ParseAlts, ParseCases, ParseMany, ParseN, ParseConsts, FieldsFit, AltsFit, CasesFit, AllFit;
    match p
    case PInt(_, _) =>
    case PStruct(fs) => ParsedFieldsFit(fs, b, i, env, AssignsFields(fs, ParseFields(fs, b, i, env).value), junk);
    case PWrap(before, q, _) => ParsedFits(q, b, ParseConsts(before, b, i, false).at, env, junk);
    case PChoice(alts) => ParsedAltsFit(alts, 0, b, i, env, junk);
    case PSelect(dep, cases) => ParsedCasesFit(cases, 0, Dep(env, dep), b, i, env, junk);
    case PMany(q, _, sep) => ParsedManyFit(q, sep, b, i, env, true, junk);
    case PFixed(n, q) => ParsedElemsFit(q, n, b, i, env, junk);
    case PLength(dep, q) => ParsedElemsFit(q, Dep(env, dep), b, i, env, junk);
    case POptional(q) => if Parse(q, b, i, env).Ok? { ParsedFits(q, b, i, env, junk); }
  }

  lemma {:induction false} ParsedFieldsFit(fs: Fields, b: seq<bool>, i: nat, env: Env, d: Env, junk: nat)
    requires FieldsWellFormed(fs) && FieldsDetermined(fs)
    requires i <= |b| && ParseFields(fs, b, i, env).Ok?
    requires Extends(d, AssignsFields(fs, ParseFields(fs, b, i, env).value))
    ensures FieldsFit(fs, ParseFields(fs, b, i, env).value, env, d, junk)
    decreases fs, 0, 0
  {
    hide Parse, Fits, ParseConst, WellFormed, Determined, ConstWellFormed, Number, Violates, Pow2;
    match fs
    case FNil =>
    case FConst(c, rest) => ParsedFieldsFit(rest, b, ParseConst(c, b, i, false).at, env, d, junk);
    case FField(p, rest) =>
      var j := Parse(p, b, i, env).at;
      ParsedFits(p, b, i, env, junk);
      assert ParseFields(fs, b, i, env).value[1..] == ParseFields(rest, b, j, env).value;
      ParsedFieldsFit(rest, b, j, env, d, junk);
    case FDep(x, w, c, rest) =>
      var r := ParseInt(w, c, b, i);
      var inner := env[x := r.value.n];
      AssignedFields(rest, b, r.at, inner, x);
      ReadFits(w, c, b, i);
      ParsedFieldsFit(rest, b, r.at, inner, d, junk);
  }

  lemma {:induction false} ParsedCasesFit(cases: Cases, tag: nat, d: nat, b: seq<bool>, i: nat, env: Env, junk: nat)
    requires CasesWellFormed(cases) && CasesDetermined(cases)
    requires i <= |b| && ParseCases(cases, tag, d, b, i, env).Ok?
    ensures var v := ParseCases(cases, tag, d, b, i, env).value;
            v.VTagged? && v.tag >= tag && CasesFit(cases, v.tag - tag, d, v.v, env, junk)
    decreases cases, 0, 0
  {
    if cases.value == d {
      ParsedFits(cases.head, b, i, env, junk);
    } else {
      ParsedCasesFit(cases.tail, tag + 1, d, b, i, env, junk);
    }
  }

  lemma ReadFits(w: nat, c: Constraint, b: seq<bool>, i: nat)
    requires i <= |b| && ParseInt(w, c, b, i).Ok?
    ensures var n := ParseInt(w, c, b, i).value.n; n % Pow2(w) == n && !Violates(c, n)
  {
    ModSmall(ParseInt(w, c, b, i).value.n, Pow2(w));
  }

  lemma {:induction false} ParsedAltsFit(alts: Alts, tag: nat, b: seq<bool>, i: nat, env: Env, junk: nat)
    requires AltsWellFormed(alts) && AltsDetermined(alts) && i <= |b| && ParseAlts(alts, tag, b, i, env).Ok?
    ensures var v := ParseAlts(alts, tag, b, i, env).value;
            v.VTagged? && v.tag >= tag && AltsFit(alts, v.tag - tag, v.v, env, junk)
    decreases alts, 0, 0
  {
    if Parse(alts.head, b, i, env).Ok? {
      ParsedFits(alts.head, b, i, env, junk);
    } else {
      ParsedAltsFit(alts.tail, tag + 1, b, i, env, junk);
    }
  }

  lemma {:induction false} ParsedManyFit(
      p: Parser, sep: Option<Const>, b: seq<bool>, i: nat, env: Env, first: bool, junk: nat)
    requires WellFormed(p) && Advances(p) && (sep.Some? ==> ConstWellFormed(sep.value)) && Determined(p) && i <= |b|
    ensures AllFit(p, ParseMany(p, sep, b, i, env, first).0, env, junk)
    decreases p, 1, |b| - i
  {
    hide Parse, ParseMany, ParseConst, Fits, WellFormed, Advances, Determined;
    OneMoreParsed(p, sep, b, i, env, first);
    var s := Separator(sep, b, i, first);
    if s.ok && Parse(p, b, s.at, env).Ok? {
      var r := Parse(p, b, s.at, env);
      ParsedFits(p, b, s.at, env, junk);
      ParsedManyFit(p, sep, b, r.at, env, false, junk);
      OneMoreFits(p, r.value, ParseMany(p, sep, b, r.at, env, false).0, env, junk);
    }
  }

  lemma {:induction false} ParsedElemsFit(p: Parser, n: nat, b: seq<bool>, i: nat, env: Env, junk: nat)
    requires WellFormed(p) && Determined(p) && i <= |b| && ParseN(p, n, b, i, env).Ok?
    ensures AllFit(p, ParseN(p, n, b, i, env).value, env, junk)
    decreases p, 1, n
  {
    if n > 0 {
      var j := Parse(p, b, i, env).at;
      ParsedFits(p, b, i, env, junk);
      ParsedElemsFit(p, n - 1, b, j, env, junk);
      assert ParseN(p, n, b, i, env).value[1..] == ParseN(p, n - 1, b, j, env).value;
    }
  }
}
