/** Exactly when printing what was parsed gives back the bits that were consumed, for grammars
    whose constants can be spelled in several ways or repeated. */
module PrintExactly {
  import opened Bits
  import opened Grammar
  import opened DirectSpec
  import opened PrintSpec
  import opened PrintParsed

  // Grammars whose constants are read back where their printed form stands: the values fit their
  // widths. An alternative is printed as its first spelling, so the others do not matter.

  predicate ConstLegible(c: Const) {
    match c
    case CInt(w, v) => v < Pow2(w)
    case CSeq(cs) => ConstsLegible(cs)
    case CUnion(cs) => cs.CCons? && ConstLegible(cs.head)
    case CRepeat(d) => ConstLegible(d)
  }

  predicate ConstsLegible(cs: Consts) {
    cs.CCons? ==> ConstLegible(cs.head) && ConstsLegible(cs.tail)
  }

  predicate Legible(p: Parser) {
    match p
    case PInt(_, _) => true
    case PStruct(fs) => FieldsLegible(fs)
    case PWrap(before, q, after) => ConstsLegible(before) && Legible(q) && ConstsLegible(after)
    case PChoice(alts) => AltsLegible(alts)
    case PSelect(_, cases) => CasesLegible(cases)
    case PMany(q, _, sep) => Legible(q) && (sep.Some? ==> ConstLegible(sep.value))
    case PFixed(_, q) => Legible(q)
    case PLength(_, q) => Legible(q)
    case POptional(q) => Legible(q)
  }

  predicate FieldsLegible(fs: Fields) {
    match fs
    case FNil => true
    case FConst(c, rest) => ConstLegible(c) && FieldsLegible(rest)
    case FField(p, rest) => Legible(p) && FieldsLegible(rest)
    case FDep(_, _, _, rest) => FieldsLegible(rest)
  }

  predicate AltsLegible(alts: Alts) {
    alts.ACons? ==> Legible(alts.head) && AltsLegible(alts.tail)
  }

  predicate CasesLegible(cases: Cases) {
    cases.SCons? ==> Legible(cases.head) && CasesLegible(cases.tail)
  }

  // No constant is printed from a repetition.

  predicate ConstUnrepeated(c: Const) {
    match c
    case CInt(_, _) => true
    case CSeq(cs) => ConstsUnrepeated(cs)
    case CUnion(cs) => cs.CCons? ==> ConstUnrepeated(cs.head)
    case CRepeat(_) => false
  }

  predicate ConstsUnrepeated(cs: Consts) {
    cs.CCons? ==> ConstUnrepeated(cs.head) && ConstsUnrepeated(cs.tail)
  }

  predicate Unrepeated(p: Parser) {
    match p
    case PInt(_, _) => true
    case PStruct(fs) => FieldsUnrepeated(fs)
    case PWrap(before, q, after) => ConstsUnrepeated(before) && Unrepeated(q) && ConstsUnrepeated(after)
    case PChoice(alts) => AltsUnrepeated(alts)
    case PSelect(_, cases) => CasesUnrepeated(cases)
    case PMany(q, _, sep) => Unrepeated(q) && (sep.Some? ==> ConstUnrepeated(sep.value))
    case PFixed(_, q) => Unrepeated(q)
    case PLength(_, q) => Unrepeated(q)
    case POptional(q) => Unrepeated(q)
  }

  predicate FieldsUnrepeated(fs: Fields) {
    match fs
    case FNil => true
    case FConst(c, rest) => ConstUnrepeated(c) && FieldsUnrepeated(rest)
    case FField(p, rest) => Unrepeated(p) && FieldsUnrepeated(rest)
    case FDep(_, _, _, rest) => FieldsUnrepeated(rest)
  }

  predicate AltsUnrepeated(alts: Alts) {
    alts.ACons? ==> Unrepeated(alts.head) && AltsUnrepeated(alts.tail)
  }

  predicate CasesUnrepeated(cases: Cases) {
    cases.SCons? ==> Unrepeated(cases.head) && CasesUnrepeated(cases.tail)
  }

  // Both: the text of each constant decides what is read where it stands.

  predicate ConstReadable(c: Const) {
    ConstLegible(c) && ConstUnrepeated(c)
  }

  predicate ConstsReadable(cs: Consts) {
    ConstsLegible(cs) && ConstsUnrepeated(cs)
  }

  predicate Readable(p: Parser) {
    Legible(p) && Unrepeated(p)
  }

  predicate FieldsReadable(fs: Fields) {
    FieldsLegible(fs) && FieldsUnrepeated(fs)
  }

  predicate AltsReadable(alts: Alts) {
    AltsLegible(alts) && AltsUnrepeated(alts)
  }

  predicate CasesReadable(cases: Cases) {
    CasesLegible(cases) && CasesUnrepeated(cases)
  }

  ghost predicate At(b: seq<bool>, i: nat, t: seq<bool>) {
    i + |t| <= |b| && b[i..i + |t|] == t
  }

  lemma Within(b: seq<bool>, i: nat, t: seq<bool>)
    requires At(b, i, t)
    ensures i + |t| <= |b| && b[i..i + |t|] == t
  {
  }

  lemma AtCat(b: seq<bool>, i: nat, s: seq<bool>, t: seq<bool>)
    ensures At(b, i, s + t) <==> At(b, i, s) && At(b, i + |s|, t)
  {
    var m, e := i + |s|, i + |s| + |t|;
    if At(b, i, s + t) {
      assert b[i..m] == b[i..e][..|s|];
      assert b[m..e] == b[i..e][|s|..];
    }
    if At(b, i, s) && At(b, m, t) {
      Splice(b, i, m, e);
    }
  }

  /** Where the text of the constant stands, no repetition in it goes on behind its one match. */
  predicate ConstClear(c: Const, b: seq<bool>, i: nat)
    requires ConstWellFormed(c) && i + |PrintConst(c)| <= |b|
  {
    match c
    case CInt(_, _) => true
    case CSeq(cs) => ConstsClear(cs, b, i)
    case CUnion(cs) => FirstClear(cs, b, i)
    case CRepeat(d) =>
      var k := i + |PrintConst(d)|;
      ConstClear(d, b, i) && ParseRepeat(d, b, k, false).at == k
  }

  predicate FirstClear(cs: Consts, b: seq<bool>, i: nat)
    requires ConstsWellFormed(cs) && i + |PrintConst(CUnion(cs))| <= |b|
  {
    cs.CCons? ==> ConstClear(cs.head, b, i)
  }

  predicate ConstsClear(cs: Consts, b: seq<bool>, i: nat)
    requires ConstsWellFormed(cs) && i + |PrintConsts(cs)| <= |b|
  {
    cs.CCons? ==> ConstClear(cs.head, b, i) && ConstsClear(cs.tail, b, i + |PrintConst(cs.head)|)
  }

  lemma {:induction false} ConstReadsBack(c: Const, b: seq<bool>, i: nat)
    requires ConstWellFormed(c) && ConstLegible(c) && At(b, i, PrintConst(c)) && i + |PrintConst(c)| <= |b|
    requires ConstClear(c, b, i)
    ensures ParseConst(c, b, i, false) == ConstResult(true, i + |PrintConst(c)|) && SpelledConst(c, b, i)
  {
    match c
    case CInt(w, v) => NumberOfFitting(v, w);
    case CSeq(cs) => ConstsReadBack(cs, b, i);
    case CUnion(cs) => ConstReadsBack(cs.head, b, i);
    case CRepeat(d) => ConstReadsBack(d, b, i);
  }

  lemma {:induction false} ConstsReadBack(cs: Consts, b: seq<bool>, i: nat)
    requires ConstsWellFormed(cs) && ConstsLegible(cs) && At(b, i, PrintConsts(cs)) && i + |PrintConsts(cs)| <= |b|
    requires ConstsClear(cs, b, i)
    ensures ParseConsts(cs, b, i, false) == ConstResult(true, i + |PrintConsts(cs)|) && SpelledConsts(cs, b, i)
  {
    if cs.CCons? {
      AtCat(b, i, PrintConst(cs.head), PrintConsts(cs.tail));
      ConstReadsBack(cs.head, b, i);
      ConstsReadBack(cs.tail, b, i + |PrintConst(cs.head)|);
    }
  }

  lemma {:induction false} UnrepeatedClear(c: Const, b: seq<bool>, i: nat)
    requires ConstWellFormed(c) && ConstUnrepeated(c) && i + |PrintConst(c)| <= |b|
    ensures ConstClear(c, b, i)
  {
    match c
    case CInt(_, _) =>
    case CSeq(cs) => AllUnrepeatedClear(cs, b, i);
    case CUnion(cs) => if cs.CCons? { UnrepeatedClear(cs.head, b, i); }
  }

  lemma {:induction false} AllUnrepeatedClear(cs: Consts, b: seq<bool>, i: nat)
    requires ConstsWellFormed(cs) && ConstsUnrepeated(cs) && i + |PrintConsts(cs)| <= |b|
    ensures ConstsClear(cs, b, i)
  {
    if cs.CCons? {
      UnrepeatedClear(cs.head, b, i);
      AllUnrepeatedClear(cs.tail, b, i + |PrintConst(cs.head)|);
    }
  }

  lemma ConstPrinted(c: Const, b: seq<bool>, i: nat)
    requires ConstWellFormed(c) && ConstReadable(c) && At(b, i, PrintConst(c))
    ensures ParseConst(c, b, i, false) == ConstResult(true, i + |PrintConst(c)|) && SpelledConst(c, b, i)
  {
    Within(b, i, PrintConst(c));
    UnrepeatedClear(c, b, i);
    ConstReadsBack(c, b, i);
  }

  lemma ConstsPrinted(cs: Consts, b: seq<bool>, i: nat)
    requires ConstsWellFormed(cs) && ConstsReadable(cs) && At(b, i, PrintConsts(cs))
    ensures ParseConsts(cs, b, i, false) == ConstResult(true, i + |PrintConsts(cs)|) && SpelledConsts(cs, b, i)
  {
    Within(b, i, PrintConsts(cs));
    AllUnrepeatedClear(cs, b, i);
    ConstsReadBack(cs, b, i);
  }

  // Wherever the text of a parsed value stands at the place the value was parsed from, every
  // constant on the way was spelled as it is printed, and the text is what was consumed.

  lemma {:induction false} PrintedSpelled(p: Parser, b: seq<bool>, i: nat, env: Env, junk: nat, t: seq<bool>)
    requires WellFormed(p) && Readable(p) && i <= |b| && Parse(p, b, i, env).Ok?
    requires Print(p, Parse(p, b, i, env).value, junk) == Some(t) && At(b, i, t)
    ensures Spelled(p, b, i, env, junk) && Parse(p, b, i, env).at == i + |t|
    decreases p, 0, 0
  {
    hide At, ParseFields, ParseAlts, ParseCases, ParseMany, ParseN, ParseConsts, PrintFields, PrintAlts, PrintCases,
      PrintElems, PrintConsts, SpelledFields, SpelledAlts, SpelledCases, SpelledMany, SpelledN, SpelledConsts;
    match p
    case PInt(_, _) =>
    case PStruct(fs) =>
      PrintedFieldsSpelled(fs, b, i, env, AssignsFields(fs, ParseFields(fs, b, i, env).value), junk, t);
    case PWrap(before, q, after) => PrintedWrapSpelled(before, q, after, b, i, env, junk, t);
    case PChoice(alts) => PrintedAltsSpelled(alts, 0, b, i, env, junk, t);
    case PSelect(dep, cases) => PrintedCasesSpelled(cases, 0, Dep(env, dep), b, i, env, junk, t);
    case PMany(q, _, sep) => PrintedManySpelled(q, sep, b, i, env, true, junk, t);
    case PFixed(n, q) => PrintedNSpelled(q, n, b, i, env, true, junk, t);
    case PLength(dep, q) => PrintedNSpelled(q, Dep(env, dep), b, i, env, true, junk, t);
    case POptional(q) => if Parse(q, b, i, env).Ok? { PrintedSpelled(q, b, i, env, junk, t); }
  }

  lemma {:induction false} PrintedWrapSpelled(
      before: Consts, q: Parser, after: Consts, b: seq<bool>, i: nat, env: Env, junk: nat, t: seq<bool>)
    requires WellFormed(PWrap(before, q, after)) && ConstsReadable(before) && Readable(q) && ConstsReadable(after)
    requires i <= |b| && Parse(PWrap(before, q, after), b, i, env).Ok?
    requires Print(PWrap(before, q, after), Parse(PWrap(before, q, after), b, i, env).value, junk) == Some(t)
    requires At(b, i, t)
    ensures Spelled(PWrap(before, q, after), b, i, env, junk) && Parse(PWrap(before, q, after), b, i, env).at == i + |t|
    decreases q, 2, 0
  {
    hide At, Parse, Print, PrintConsts, ParseConsts, Spelled, SpelledConsts, ConstsReadable, ConstsWellFormed, Legible,
      Unrepeated;
    WrapText(before, q, after, b, i, env, junk);
    var r := Parse(q, b, ParseConsts(before, b, i, false).at, env);
    var s, m, e := PrintConsts(before), Print(q, r.value, junk).value, PrintConsts(after);
    AtCat(b, i, s, m + e);
    AtCat(b, i + |s|, m, e);
    ConstsPrinted(before, b, i);
    PrintedSpelled(q, b, i + |s|, env, junk, m);
    ConstsPrinted(after, b, i + |s| + |m|);
    PartsSpelled(before, q, after, b, i, env, junk, i + |s|, i + |s| + |m|, i + |t|);
  }

  lemma WrapText(before: Consts, q: Parser, after: Consts, b: seq<bool>, i: nat, env: Env, junk: nat)
    requires WellFormed(PWrap(before, q, after)) && i <= |b| && Parse(PWrap(before, q, after), b, i, env).Ok?
    requires Print(PWrap(before, q, after), Parse(PWrap(before, q, after), b, i, env).value, junk).Some?
    ensures WellFormed(q) && ConstsWellFormed(before) && ConstsWellFormed(after)
    ensures var v, r := Parse(PWrap(before, q, after), b, i, env).value,
                        Parse(q, b, ParseConsts(before, b, i, false).at, env);
            && r == Ok(v, r.at) && Print(q, v, junk).Some?
            && Print(PWrap(before, q, after), v, junk)
            == Some(PrintConsts(before) + (Print(q, v, junk).value + PrintConsts(after)))
  {
    hide PrintConsts, ParseConsts;
  }

  lemma PartsSpelled(
      before: Consts, q: Parser, after: Consts, b: seq<bool>, i: nat, env: Env, junk: nat, j: nat, k: nat, e: nat)
    requires WellFormed(PWrap(before, q, after)) && i <= |b| && ParseConsts(before, b, i, false) == ConstResult(true, j)
    requires Parse(q, b, j, env).Ok? && Parse(q, b, j, env).at == k
    requires ParseConsts(after, b, k, false) == ConstResult(true, e)
    requires SpelledConsts(before, b, i) && Spelled(q, b, j, env, junk) && SpelledConsts(after, b, k)
    ensures Spelled(PWrap(before, q, after), b, i, env, junk) && Parse(PWrap(before, q, after), b, i, env).Ok?
    ensures Parse(PWrap(before, q, after), b, i, env).at == e
  {
    hide ParseConsts, SpelledConsts, ConstsWellFormed;
  }

  lemma {:induction false} PrintedFieldsSpelled(
      fs: Fields, b: seq<bool>, i: nat, env: Env, d: Env, junk: nat, t: seq<bool>)
    requires FieldsWellFormed(fs) && FieldsReadable(fs) && i <= |b| && ParseFields(fs, b, i, env).Ok?
    requires PrintFields(fs, ParseFields(fs, b, i, env).value, d, junk) == Some(t) && At(b, i, t)
    ensures SpelledFields(fs, b, i, env, d, junk) && ParseFields(fs, b, i, env).at == i + |t|
    decreases fs, 0, 0
  {
    hide At, Print, Parse, Spelled, PrintConst, ParseConst, SpelledConst, ConstLegible, ConstUnrepeated,
      ConstWellFormed, Legible, Unrepeated, WellFormed, ToBits, Violates, Number, Pow2;
    var vs := ParseFields(fs, b, i, env).value;
    match fs
    case FNil =>
    case FConst(c, rest) =>
      var s, m := PrintConst(c), PrintFields(rest, vs, d, junk).value;
      AtCat(b, i, s, m);
      ConstPrinted(c, b, i);
      PrintedFieldsSpelled(rest, b, i + |s|, env, d, junk, m);
    case FField(p, rest) =>
      var r := Parse(p, b, i, env);
      assert vs[1..] == ParseFields(rest, b, r.at, env).value;
      var s, m := Print(p, vs[0], junk).value, PrintFields(rest, vs[1..], d, junk).value;
      assert t == s + m;
      AtCat(b, i, s, m);
      PrintedSpelled(p, b, i, env, junk, s);
      PrintedFieldsSpelled(rest, b, r.at, env, d, junk, m);
    case FDep(x, w, c, rest) =>
      var r := ParseInt(w, c, b, i);
      var s, m := ToBits(Lookup(d, x, junk), w), PrintFields(rest, vs, d, junk).value;
      AtCat(b, i, s, m);
      Within(b, i, s);
      NumberOfToBits(Lookup(d, x, junk), w);
      PrintedFieldsSpelled(rest, b, r.at, env[x := r.value.n], d, junk, m);
  }

  lemma {:induction false} PrintedAltsSpelled(
      alts: Alts, tag: nat, b: seq<bool>, i: nat, env: Env, junk: nat, t: seq<bool>)
    requires AltsWellFormed(alts) && AltsReadable(alts) && i <= |b| && ParseAlts(alts, tag, b, i, env).Ok?
    requires var v := ParseAlts(alts, tag, b, i, env).value;
             v.VTagged? && v.tag >= tag && PrintAlts(alts, v.tag - tag, v.v, junk) == Some(t) && At(b, i, t)
    ensures SpelledAlts(alts, b, i, env, junk) && ParseAlts(alts, tag, b, i, env).at == i + |t|
    decreases alts, 0, 0
  {
    if Parse(alts.head, b, i, env).Ok? {
      PrintedSpelled(alts.head, b, i, env, junk, t);
    } else {
      LaterTag(alts.tail, tag + 1, b, i, env);
      PrintedAltsSpelled(alts.tail, tag + 1, b, i, env, junk, t);
    }
  }

  lemma {:induction false} LaterTag(alts: Alts, tag: nat, b: seq<bool>, i: nat, env: Env)
    requires AltsWellFormed(alts) && i <= |b| && ParseAlts(alts, tag, b, i, env).Ok?
    ensures var v := ParseAlts(alts, tag, b, i, env).value; v.VTagged? && v.tag >= tag
  {
    if Parse(alts.head, b, i, env).Fail? { LaterTag(alts.tail, tag + 1, b, i, env); }
  }

  lemma {:induction false} PrintedCasesSpelled(
      cases: Cases, tag: nat, d: nat, b: seq<bool>, i: nat, env: Env, junk: nat, t: seq<bool>)
    requires CasesWellFormed(cases) && CasesReadable(cases) && i <= |b| && ParseCases(cases, tag, d, b, i, env).Ok?
    requires var v := ParseCases(cases, tag, d, b, i, env).value;
             v.VTagged? && v.tag >= tag && PrintCases(cases, v.tag - tag, v.v, junk) == Some(t) && At(b, i, t)
    ensures SpelledCases(cases, d, b, i, env, junk) && ParseCases(cases, tag, d, b, i, env).at == i + |t|
    decreases cases, 0, 0
  {
    if cases.value == d {
      PrintedSpelled(cases.head, b, i, env, junk, t);
    } else {
      LaterCase(cases.tail, tag + 1, d, b, i, env);
      PrintedCasesSpelled(cases.tail, tag + 1, d, b, i, env, junk, t);
    }
  }

  lemma {:induction false} LaterCase(cases: Cases, tag: nat, d: nat, b: seq<bool>, i: nat, env: Env)
    requires CasesWellFormed(cases) && i <= |b| && ParseCases(cases, tag, d, b, i, env).Ok?
    ensures var v := ParseCases(cases, tag, d, b, i, env).value; v.VTagged? && v.tag >= tag
  {
    if cases.value != d { LaterCase(cases.tail, tag + 1, d, b, i, env); }
  }

  lemma {:induction false} PrintedManySpelled(
      p: Parser, sep: Option<Const>, b: seq<bool>, i: nat, env: Env, first: bool, junk: nat, t: seq<bool>)
    requires WellFormed(p) && Advances(p) && (sep.Some? ==> ConstWellFormed(sep.value)) && i <= |b|
    requires Readable(p) && (sep.Some? ==> ConstReadable(sep.value))
    requires PrintElems(p, sep, ParseMany(p, sep, b, i, env, first).0, first, junk) == Some(t) && At(b, i, t)
    ensures SpelledMany(p, sep, b, i, env, first, junk) && ParseMany(p, sep, b, i, env, first).1 == i + |t|
    decreases p, 1, |b| - i
  {
    hide At, Parse, Print, Spelled, Readable, WellFormed, Advances, PrintConst, ParseConst, SpelledConst;
    var s := Separator(sep, b, i, first);
    if s.ok && Parse(p, b, s.at, env).Ok? {
      var r := Parse(p, b, s.at, env);
      var rest := ParseMany(p, sep, b, r.at, env, false).0;
      assert ParseMany(p, sep, b, i, env, first).0 == [r.value] + rest;
      hide ParseMany;
      PrintElemsCons(p, sep, r.value, rest, first, junk);
      var x, y := PrintSeparator(sep, first), Print(p, r.value, junk).value;
      var z := PrintElems(p, sep, rest, false, junk).value;
      hide PrintElems;
      AtCat(b, i, x, y + z);
      AtCat(b, i + |x|, y, z);
      if !first && sep.Some? { ConstPrinted(sep.value, b, i); }
      PrintedSpelled(p, b, s.at, env, junk, y);
      PrintedManySpelled(p, sep, b, r.at, env, false, junk, z);
      OneMoreParsed(p, sep, b, i, env, first);
    }
  }

  lemma {:induction false} PrintedNSpelled(
      p: Parser, n: nat, b: seq<bool>, i: nat, env: Env, first: bool, junk: nat, t: seq<bool>)
    requires WellFormed(p) && Readable(p) && i <= |b| && ParseN(p, n, b, i, env).Ok?
    requires PrintElems(p, None, ParseN(p, n, b, i, env).value, first, junk) == Some(t) && At(b, i, t)
    ensures SpelledN(p, n, b, i, env, junk) && ParseN(p, n, b, i, env).at == i + |t|
    decreases p, 1, n
  {
    hide At, Parse, Print, Spelled, Readable, WellFormed;
    if n > 0 {
      var r := Parse(p, b, i, env);
      var rest := ParseN(p, n - 1, b, r.at, env).value;
      PrintElemsCons(p, None, r.value, rest, first, junk);
      var y, z := Print(p, r.value, junk).value, PrintElems(p, None, rest, false, junk).value;
      assert [] + (y + z) == y + z;
      AtCat(b, i, y, z);
      PrintedSpelled(p, b, i, env, junk, y);
      PrintedNSpelled(p, n - 1, b, r.at, env, false, junk, z);
    }
  }

  /** Print after parse, exactly: the printer gives back the bits the parser consumed if and only
      if every constant the parser met, each alternative among them, was written as its first
      spelling, and every dependency is written again as the value that was read. */
  lemma PrintAfterParseExactly(p: Parser, b: seq<bool>, i: nat, env: Env, junk: nat)
    requires WellFormed(p) && Readable(p) && i <= |b| && Parse(p, b, i, env).Ok?
    ensures var r := Parse(p, b, i, env);
            Print(p, r.value, junk) == Some(b[i..r.at]) <==> Spelled(p, b, i, env, junk)
  {
    var r := Parse(p, b, i, env);
    if Print(p, r.value, junk) == Some(b[i..r.at]) {
      PrintedSpelled(p, b, i, env, junk, b[i..r.at]);
    }
    if Spelled(p, b, i, env, junk) {
      SpelledPrints(p, b, i, env, junk);
    }
  }

  /** An alternative of constants is printed as its first spelling, so the input is printed back
      exactly when the first spelling is what it matched, with the alternatives inside it matched
      in the same way. */
  lemma UnionPrintedWhen(c: Const, rest: Consts, b: seq<bool>, i: nat)
    requires ConstWellFormed(c) && ConstsWellFormed(CCons(c, rest)) && ConstReadable(c) && i <= |b|
    requires ParseConst(CUnion(CCons(c, rest)), b, i, false).ok
    ensures var j := ParseConst(CUnion(CCons(c, rest)), b, i, false).at;
            PrintConst(CUnion(CCons(c, rest))) == b[i..j] <==> ParseConst(c, b, i, false).ok && SpelledConst(c, b, i)
  {
    var j := ParseConst(CUnion(CCons(c, rest)), b, i, false).at;
    if ParseConst(c, b, i, false).ok && SpelledConst(c, b, i) {
      ConstText(c, b, i);
    }
    if PrintConst(c) == b[i..j] {
      assert At(b, i, PrintConst(c));
      ConstPrinted(c, b, i);
    }
  }

  /** A repeated constant is printed once, so the input is printed back exactly when the first
      spelling stands there and the repetition ends right behind it. */
  lemma RepeatPrintedWhen(d: Const, b: seq<bool>, i: nat)
    requires ConstWellFormed(CRepeat(d)) && ConstReadable(d) && i <= |b|
    ensures var j, k := ParseConst(CRepeat(d), b, i, false).at, i + |PrintConst(d)|;
            (PrintConst(CRepeat(d)) == b[i..j] <==>
             At(b, i, PrintConst(d)) && ParseRepeat(d, b, k, false).at == k)
  {
    var j, k := ParseConst(CRepeat(d), b, i, false).at, i + |PrintConst(d)|;
    if PrintConst(d) == b[i..j] {
      assert At(b, i, PrintConst(d));
    }
    if At(b, i, PrintConst(d)) {
      ConstPrinted(d, b, i);
      assert ParseRepeat(d, b, i, false) == ParseRepeat(d, b, k, false);
    }
  }

  // The white space of the zone file grammar: any number of spaces and line ends.

  const SPACE: nat := 0x20
  const LINE_END: nat := 0x0a
  const WHITE: Const := CRepeat(CUnion(CCons(CInt(8, SPACE), CCons(CInt(8, LINE_END), CNil))))

  lemma SpaceRead(b: seq<bool>, i: nat)
    requires At(b, i, ToBits(SPACE, 8))
    ensures ConstWellFormed(WHITE.c) && ParseConst(WHITE.c, b, i, false) == ConstResult(true, i + 8)
    ensures ConstReadable(WHITE.c) && PrintConst(WHITE.c) == ToBits(SPACE, 8)
  {
    assert Pow2(8) == 256;
    assert ConstReadable(CInt(8, SPACE));
    assert ConstsWellFormed(CCons(CInt(8, LINE_END), CNil));
    assert ConstsWellFormed(WHITE.c.cs);
    ConstPrinted(WHITE.c, b, i);
  }

  lemma NoSpaceLeft(b: seq<bool>)
    ensures ConstWellFormed(WHITE.c) && ParseConst(WHITE.c, b, |b|, false) == ConstResult(false, |b|)
  {
    var rest := CCons(CInt(8, LINE_END), CNil);
    assert ConstsWellFormed(rest) && ConstsWellFormed(WHITE.c.cs);
    assert ParseConst(CInt(8, LINE_END), b, |b|, false) == ConstResult(false, |b|);
    assert ParseUnion(rest, b, |b|, false) == ConstResult(false, |b|);
    assert ParseConst(CInt(8, SPACE), b, |b|, false) == ConstResult(false, |b|);
    assert ParseUnion(WHITE.c.cs, b, |b|, false) == ConstResult(false, |b|);
  }

  /** A space or a line end stands at bit `k`. */
  predicate WhiteAt(b: seq<bool>, k: nat) {
    k + 8 <= |b| && (Number(b[k..k + 8]) == 32 || Number(b[k..k + 8]) == 10)
  }

  lemma OneWhite(b: seq<bool>, i: nat)
    requires i <= |b|
    ensures ConstWellFormed(WHITE.c) && ConstAdvances(WHITE.c)
    ensures ParseConst(WHITE.c, b, i, false)
         == if WhiteAt(b, i) then ConstResult(true, i + 8) else ConstResult(false, i)
  {
    var second := CCons(CInt(8, LINE_END), CNil);
    assert ConstsWellFormed(second) && ConstsWellFormed(WHITE.c.cs) && EveryConstAdvances(second);
    assert ParseUnion(CNil, b, i, false) == ConstResult(false, i);
    assert ParseUnion(WHITE.c.cs, b, i, false)
        == var r := ParseConst(CInt(8, SPACE), b, i, false); if r.ok then r else ParseUnion(second, b, i, false);
  }

  /** White space is the longest run of bytes that are spaces or line ends. */
  lemma {:induction false} WhiteRun(b: seq<bool>, i: nat)
    requires i <= |b|
    ensures ConstWellFormed(WHITE.c) && ConstAdvances(WHITE.c)
    ensures var e := ParseRepeat(WHITE.c, b, i, false).at;
            && (e - i) % 8 == 0 && !WhiteAt(b, e)
            && forall k | i <= k < e && (k - i) % 8 == 0 :: WhiteAt(b, k)
    decreases |b| - i
  {
    hide ParseConst, WhiteAt;
    OneWhite(b, i);
    if WhiteAt(b, i) {
      WhiteRun(b, i + 8);
      forall k | i <= k < ParseRepeat(WHITE.c, b, i, false).at && (k - i) % 8 == 0 ensures WhiteAt(b, k) {
        if k > i { assert k >= i + 8 && (k - (i + 8)) % 8 == 0; }
      }
    }
  }

  function TwoSpaces(): (b: seq<bool>)
    ensures |b| == 16 && At(b, 0, ToBits(SPACE, 8)) && At(b, 8, ToBits(SPACE, 8))
  {
    ToBits(SPACE, 8) + ToBits(SPACE, 8)
  }

  lemma WhiteAtTwoSpaces()
    ensures ConstWellFormed(WHITE)
    ensures ParseConst(WHITE, TwoSpaces(), 0, false) == ConstResult(true, 16)
    ensures ParseConst(WHITE, TwoSpaces(), 16, false) == ConstResult(true, 16)
    ensures !SpelledConst(WHITE, TwoSpaces(), 0) && !ConstClear(WHITE, TwoSpaces(), 0)
  {
    var b, d := TwoSpaces(), WHITE.c;
    SpaceRead(b, 0);
    SpaceRead(b, 8);
    NoSpaceLeft(b);
    assert ConstWellFormed(WHITE);
    assert ParseConst(WHITE, b, 0, false) == ParseRepeat(d, b, 0, false);
    assert ParseConst(WHITE, b, 16, false) == ParseRepeat(d, b, 16, false);
    hide At, ParseConst, TwoSpaces;
    assert ParseRepeat(d, b, 16, false) == ConstResult(true, 16);
    assert ParseRepeat(d, b, 8, false) == ConstResult(true, 16);
    assert ParseRepeat(d, b, 0, false) == ConstResult(true, 16);
  }

  /** White space is printed as one space whatever was read: two spaces come back as one, and
      none comes back as one too. */
  lemma WhiteSpaceIsLost()
    ensures ConstWellFormed(WHITE)
    ensures ParseConst(WHITE, TwoSpaces(), 0, false) == ConstResult(true, 16)
    ensures PrintConst(WHITE) == ToBits(SPACE, 8) != TwoSpaces()
    ensures ParseConst(WHITE, [], 0, false) == ConstResult(true, 0) && PrintConst(WHITE) != []
  {
    WhiteAtTwoSpaces();
    SpaceRead(TwoSpaces(), 0);
    NoSpaceLeft([]);
    assert ParseRepeat(WHITE.c, [], 0, false) == ConstResult(true, 0);
  }

  /** A grammar of nothing but constants. */
  function OnlyConsts(cs: Consts): Parser {
    PWrap(cs, PFixed(0, PInt(8, Any)), CNil)
  }

  lemma ConstsAlone(cs: Consts, b: seq<bool>)
    requires ConstsWellFormed(cs) && ParseConsts(cs, b, 0, false) == ConstResult(true, |b|)
    ensures var p := OnlyConsts(cs);
            && WellFormed(p) && Determined(p) && Parse(p, b, 0, map[]) == Ok(VList([]), |b|)
            && Print(p, VList([]), 0) == Some(PrintConsts(cs))
            && (Spelled(p, b, 0, map[], 0) <==> SpelledConsts(cs, b, 0))
  {
    assert ParseConsts(CNil, b, |b|, false) == ConstResult(true, |b|);
    hide ParseConst, PrintConst, SpelledConst;
    var none: seq<bool> := [];
    assert none + none == none && PrintConsts(cs) + none == PrintConsts(cs);
  }

  /** With repeated constants one direction fails for a whole grammar: two repetitions can make
      up for each other. The first takes both spaces, the second none, and each is printed as
      one. */
  lemma RepeatsCompensate()
    ensures var p := OnlyConsts(CCons(WHITE, CCons(WHITE, CNil)));
            var b := TwoSpaces();
            && WellFormed(p) && Determined(p) && Parse(p, b, 0, map[]) == Ok(VList([]), 16)
            && Print(p, VList([]), 0) == Some(b) && !Spelled(p, b, 0, map[], 0)
  {
    var b := TwoSpaces();
    var second, before := CCons(WHITE, CNil), CCons(WHITE, CCons(WHITE, CNil));
    WhiteAtTwoSpaces();
    WhiteSpaceIsLost();
    hide ParseConst, SpelledConst, PrintConst;
    assert ConstsWellFormed(second) && ConstsWellFormed(before);
    assert ParseConsts(CNil, b, 16, false) == ConstResult(true, 16);
    assert ParseConsts(second, b, 16, false) == ConstResult(true, 16);
    assert ParseConsts(before, b, 0, false) == ConstResult(true, 16);
    assert PrintConsts(second) == ToBits(SPACE, 8) + [] == ToBits(SPACE, 8);
    assert PrintConsts(before) == b;
    assert !SpelledConsts(before, b, 0);
    ConstsAlone(before, b);
  }

  // The same with repetitions that all take at least what they print: an alternative read in a
  // shorter spelling makes up for a repetition that took too much.

  const LETTER: nat := 0x62
  const SPACED: Const :=
    CUnion(CCons(CSeq(CCons(CInt(8, SPACE), CCons(CInt(8, LETTER), CNil))), CCons(CInt(8, LETTER), CNil)))

  function SpacedLetter(): (b: seq<bool>)
    ensures |b| == 24 && At(b, 0, ToBits(SPACE, 8)) && At(b, 8, ToBits(SPACE, 8)) && At(b, 16, ToBits(LETTER, 8))
  {
    ToBits(SPACE, 8) + (ToBits(SPACE, 8) + ToBits(LETTER, 8))
  }

  lemma LetterRead()
    ensures var b := SpacedLetter();
            && ParseConst(CInt(8, LETTER), b, 16, false) == ConstResult(true, 24)
            && ParseConst(CInt(8, SPACE), b, 16, false) == ConstResult(false, 24)
            && ParseConst(CInt(8, LINE_END), b, 16, false) == ConstResult(false, 24)
  {
    assert Pow2(8) == 256;
    NumberOfFitting(LETTER, 8);
    Within(SpacedLetter(), 16, ToBits(LETTER, 8));
  }

  lemma WhiteAtLetter()
    ensures ConstWellFormed(WHITE) && ParseConst(WHITE, SpacedLetter(), 0, false) == ConstResult(true, 16)
    ensures !SpelledConst(WHITE, SpacedLetter(), 0)
  {
    var b, d := SpacedLetter(), WHITE.c;
    var rest := CCons(CInt(8, LINE_END), CNil);
    SpaceRead(b, 0);
    SpaceRead(b, 8);
    LetterRead();
    assert ConstsWellFormed(rest) && ConstsWellFormed(d.cs) && ConstWellFormed(WHITE);
    assert ParseUnion(rest, b, 16, false) == ConstResult(false, 16);
    assert ParseUnion(d.cs, b, 16, false) == ConstResult(false, 16);
    assert ParseConst(d, b, 16, false) == ConstResult(false, 16);
    assert ParseConst(WHITE, b, 0, false) == ParseRepeat(d, b, 0, false);
    hide At, ParseConst, SpacedLetter;
    assert ParseRepeat(d, b, 16, false) == ConstResult(true, 16);
    assert ParseRepeat(d, b, 8, false) == ConstResult(true, 16);
    assert ParseRepeat(d, b, 0, false) == ConstResult(true, 16);
  }

  lemma SpacedAtLetter()
    ensures ConstWellFormed(SPACED) && ParseConst(SPACED, SpacedLetter(), 16, false) == ConstResult(true, 24)
    ensures PrintConst(SPACED) == ToBits(SPACE, 8) + ToBits(LETTER, 8)
  {
    var b := SpacedLetter();
    var letter := CCons(CInt(8, LETTER), CNil);
    var both := CCons(CInt(8, SPACE), letter);
    LetterRead();
    assert ConstsWellFormed(letter) && ConstsWellFormed(both) && ConstsWellFormed(SPACED.cs);
    assert ParseConsts(both, b, 16, false) == ConstResult(false, 24);
    assert ParseConst(CSeq(both), b, 16, false) == ConstResult(false, 24);
    assert ParseUnion(letter, b, 16, false) == ConstResult(true, 24);
    assert ParseUnion(SPACED.cs, b, 16, false) == ConstResult(true, 24);
    assert PrintConsts(letter) == ToBits(LETTER, 8) + [] == ToBits(LETTER, 8);
    assert PrintConst(CSeq(both)) == PrintConsts(both);
  }

  lemma LongRepeatCompensated()
    ensures var p := OnlyConsts(CCons(WHITE, CCons(SPACED, CNil)));
            var b := SpacedLetter();
            && WellFormed(p) && ParseConst(WHITE, b, 0, false).at >= |PrintConst(WHITE)|
            && Parse(p, b, 0, map[]) == Ok(VList([]), 24)
            && Print(p, VList([]), 0) == Some(b) && !Spelled(p, b, 0, map[], 0)
  {
    var b := SpacedLetter();
    var second, before := CCons(SPACED, CNil), CCons(WHITE, CCons(SPACED, CNil));
    WhiteAtLetter();
    SpacedAtLetter();
    SpaceRead(b, 0);
    assert PrintConst(WHITE) == ToBits(SPACE, 8);
    hide ParseConst, SpelledConst, PrintConst;
    assert ConstsWellFormed(second) && ConstsWellFormed(before);
    assert ParseConsts(CNil, b, 24, false) == ConstResult(true, 24);
    assert ParseConsts(second, b, 16, false) == ConstResult(true, 24);
    assert ParseConsts(before, b, 0, false) == ConstResult(true, 24);
    var text := ToBits(SPACE, 8) + ToBits(LETTER, 8);
    assert PrintConsts(second) == text + [] == text;
    assert PrintConsts(before) == b;
    assert !SpelledConsts(before, b, 0);
    ConstsAlone(before, b);
  }

  // A dependency that the value read does not set.

  const COUNTED: Parser := POptional(PLength("n", PInt(8, Any)))
  const COUNT: Fields := FDep("n", 8, Any, FField(COUNTED, FNil))

  lemma CountAlone(b: seq<bool>)
    requires |b| == 8 && Number(b) == 5
    ensures FieldsWellFormed(COUNT) && ParseFields(COUNT, b, 0, map[]) == Ok([VAbsent], 8)
  {
    var rest, env := FField(COUNTED, FNil), map["n" := 5];
    assert b[0..8] == b;
    assert FieldsWellFormed(rest);
    assert ParseN(PInt(8, Any), 5, b, 8, env) == Fail;
    assert Parse(COUNTED, b, 8, env) == Ok(VAbsent, 8);
    assert ParseFields(FNil, b, 8, env) == Ok([], 8);
    hide Parse, Number;
    assert ParseFields(rest, b, 8, env) == Ok([VAbsent] + [], 8);
    assert [VAbsent] + [] == [VAbsent];
  }

  lemma CountPrinted(junk: nat)
    ensures PrintFields(COUNT, [VAbsent], AssignsFields(COUNT, [VAbsent]), junk) == Some(ToBits(junk, 8))
  {
    var rest, vs := FField(COUNTED, FNil), [VAbsent];
    var d := AssignsFields(COUNT, vs);
    assert vs[1..] == [];
    assert Assigns(COUNTED, VAbsent) == map[] && AssignsFields(rest, vs) == map[] + AssignsFields(FNil, vs[1..]);
    assert d == map[];
    var none: seq<bool> := [];
    assert PrintFields(rest, vs, d, junk) == Some(none + none);
    assert ToBits(junk, 8) + (none + none) == ToBits(junk, 8);
  }

  /** It is printed as whatever its variable holds: here the count 5 of an n_of that is absent. */
  lemma DependencyNotSet(junk: nat)
    ensures var p, b := PStruct(COUNT), ToBits(5, 8);
            && WellFormed(p) && Canonical(p) && Parse(p, b, 0, map[]) == Ok(VStruct([VAbsent]), 8)
            && (Print(p, VStruct([VAbsent]), junk) == Some(b) <==> junk % 256 == 5)
  {
    assert Pow2(8) == 256;
    NumberOfToBits(5, 8);
    NumberOfToBits(junk, 8);
    ToBitsOfMod(junk, 8);
    CountAlone(ToBits(5, 8));
    CountPrinted(junk);
    assert FieldsCanonical(FField(COUNTED, FNil));
    hide ParseFields, PrintFields, AssignsFields, ToBits, Number;
  }

  /** A printed alternative is the first spelling, so print after parse fails as soon as a
      constant has a second one: here the input spells the constant 2 and is printed as 1. */
  lemma SecondSpellingIsLost()
    ensures var two := CUnion(CCons(CInt(8, 1), CCons(CInt(8, 2), CNil)));
            var p := OnlyConsts(CCons(two, CNil));
            var b := ToBits(2, 8);
            WellFormed(p) && Parse(p, b, 0, map[]) == Ok(VList([]), 8)
            && Print(p, VList([]), 0) == Some(ToBits(1, 8)) && ToBits(1, 8) != b
  {
    var one, two := CInt(8, 1), CInt(8, 2);
    var u := CUnion(CCons(one, CCons(two, CNil)));
    var b := ToBits(2, 8);
    assert b[0..8] == b;
    NumberOfFitting(2, 8);
    NumberOfFitting(1, 8);
    assert ParseConst(one, b, 0, false) == ConstResult(false, 8);
    assert ParseConst(two, b, 0, false) == ConstResult(true, 8);
    assert ParseUnion(CCons(two, CNil), b, 0, false) == ConstResult(true, 8);
    assert ParseConst(u, b, 0, false) == ConstResult(true, 8);
    assert ParseConsts(CCons(u, CNil), b, 0, false) == ConstResult(true, 8);
    assert ToBits(1, 8) + [] == ToBits(1, 8);
    assert PrintConsts(CCons(u, CNil)) == ToBits(1, 8);
    hide ParseConst, PrintConst;
    ConstsAlone(CCons(u, CNil), b);
  }
}
