/** When a failure costs nothing: what the one-pass parser has accepted of an element or optional
    part before it rejects it, and the inputs on which every such failure is at the first bits. */
module GiveBack {
  import opened Grammar
  import opened DirectSpec
  import opened TwoPassSpec

  // What a failure has read. The first pass backs up over the integer it rejects, but over
  // nothing it accepted before.

  /** A constant that the direct parser rejects at bit `i` was rejected at its first bits. */
  predicate ConstReadNothing(c: Const, b: seq<bool>, i: nat)
    requires ConstWellFormed(c) && i <= |b|
  {
    c.CSeq? ==> ConstsReadNothing(c.cs, b, i)
  }

  predicate ConstsReadNothing(cs: Consts, b: seq<bool>, i: nat)
    requires ConstsWellFormed(cs) && i <= |b|
  {
    cs.CCons? ==>
      var r := ParseConst(cs.head, b, i, false);
      if r.ok then r.at == i && ConstsReadNothing(cs.tail, b, i) else ConstReadNothing(cs.head, b, i)
  }

  // Constants both parsers match alike. Only a repetition can set them apart: it goes on behind the
  // failure that ends it, which the direct parser leaves behind the rejected integer and the first
  // pass in front of it.

  /** A failing match of `c` at bit `i` ran out of input, or its failing integer has no bits. */
  predicate CutShort(c: Const, b: seq<bool>, i: nat)
    requires ConstWellFormed(c) && i <= |b|
  {
    match c
    case CInt(w, _) => w == 0 || i + w > |b|
    case CSeq(cs) => ConstsCutShort(cs, b, i)
    case CUnion(_) => true
    case CRepeat(_) => true
  }

  predicate ConstsCutShort(cs: Consts, b: seq<bool>, i: nat)
    requires ConstsWellFormed(cs) && i <= |b|
  {
    cs.CCons? ==>
      var r := ParseConst(cs.head, b, i, false);
      if r.ok then ConstsCutShort(cs.tail, b, r.at) else CutShort(cs.head, b, i)
  }

  /** Where the run of matches of `d` that starts at bit `i` ends. */
  function LastMatch(d: Const, b: seq<bool>, i: nat): (k: nat)
    requires ConstWellFormed(d) && ConstAdvances(d) && i <= |b|
    ensures k <= |b| && !ParseConst(d, b, k, false).ok
    decreases |b| - i
  {
    var r := ParseConst(d, b, i, false);
    if r.ok then LastMatch(d, b, r.at) else i
  }

  /** On its path through the constant the direct parser meets no repetition that the two parsers
      leave at different places. */
  predicate Alike(c: Const, b: seq<bool>, i: nat)
    requires ConstWellFormed(c) && i <= |b|
    decreases c, 0, 0
  {
    match c
    case CInt(_, _) => true
    case CSeq(cs) => AllAlike(cs, b, i)
    case CUnion(cs) => UnionAlike(cs, b, i)
    case CRepeat(d) => MatchesAlike(d, b, i) && CutShort(d, b, LastMatch(d, b, i))
  }

  predicate AllAlike(cs: Consts, b: seq<bool>, i: nat)
    requires ConstsWellFormed(cs) && i <= |b|
    decreases cs, 0, 0
  {
    cs.CCons? ==>
      Alike(cs.head, b, i) && (var r := ParseConst(cs.head, b, i, false); r.ok ==> AllAlike(cs.tail, b, r.at))
  }

  predicate UnionAlike(cs: Consts, b: seq<bool>, i: nat)
    requires ConstsWellFormed(cs) && i <= |b|
    decreases cs, 0, 0
  {
    cs.CCons? ==> Alike(cs.head, b, i) && (ParseConst(cs.head, b, i, false).ok || UnionAlike(cs.tail, b, i))
  }

  /** Every match of `d` in a row is alike, and so is the failure behind them. */
  predicate MatchesAlike(d: Const, b: seq<bool>, i: nat)
    requires ConstWellFormed(d) && ConstAdvances(d) && i <= |b|
    decreases d, 1, |b| - i
  {
    Alike(d, b, i) && (var r := ParseConst(d, b, i, false); r.ok ==> MatchesAlike(d, b, r.at))
  }

  lemma {:induction false} SteadyAlike(c: Const, b: seq<bool>, i: nat)
    requires ConstWellFormed(c) && Steady(c) && i <= |b|
    ensures Alike(c, b, i)
    decreases c, 0, 0
  {
    match c
    case CInt(_, _) =>
    case CSeq(cs) => AllSteadyAlike(cs, b, i);
    case CUnion(cs) => UnionSteadyAlike(cs, b, i);
    case CRepeat(d) => RepeatSteadyAlike(d, b, i);
  }

  lemma {:induction false} AllSteadyAlike(cs: Consts, b: seq<bool>, i: nat)
    requires ConstsWellFormed(cs) && AllSteady(cs) && i <= |b|
    ensures AllAlike(cs, b, i)
    decreases cs, 0, 0
  {
    if cs.CCons? {
      SteadyAlike(cs.head, b, i);
      var r := ParseConst(cs.head, b, i, false);
      if r.ok { AllSteadyAlike(cs.tail, b, r.at); }
    }
  }

  lemma {:induction false} UnionSteadyAlike(cs: Consts, b: seq<bool>, i: nat)
    requires ConstsWellFormed(cs) && AllSteady(cs) && i <= |b|
    ensures UnionAlike(cs, b, i)
    decreases cs, 0, 0
  {
    if cs.CCons? {
      SteadyAlike(cs.head, b, i);
      UnionSteadyAlike(cs.tail, b, i);
    }
  }

  lemma {:induction false} RepeatSteadyAlike(d: Const, b: seq<bool>, i: nat)
    requires ConstWellFormed(d) && ConstAdvances(d) && Steady(d) && i <= |b|
    ensures MatchesAlike(d, b, i)
    decreases d, 1, |b| - i
  {
    SteadyAlike(d, b, i);
    var r := ParseConst(d, b, i, false);
    if r.ok { RepeatSteadyAlike(d, b, r.at); }
  }

  /** A parser that the direct parser rejects at bit `i` was rejected at its first bits: no part
      of it that takes any bits was accepted. */
  predicate ReadNothing(p: Parser, b: seq<bool>, i: nat, env: Env)
    requires WellFormed(p) && i <= |b|
    decreases p, 0, 0
  {
    match p
    case PInt(_, _) => true
    case PStruct(fs) => FieldsReadNothing(fs, b, i, env)
    case PWrap(before, q, after) =>
      var r := ParseConsts(before, b, i, false);
      if !r.ok then ConstsReadNothing(before, b, i) else
      r.at == i &&
      (match Parse(q, b, i, env)
       case Fail => ReadNothing(q, b, i, env)
       case Ok(_, j) => j == i && ConstsReadNothing(after, b, i))
    case PChoice(_) => true
    case PSelect(_, _) => true
    case PMany(q, _, _) => ReadNothing(q, b, i, env)
    case PFixed(n, q) => NReadNothing(q, n, b, i, env)
    case PLength(dep, q) => NReadNothing(q, Dep(env, dep), b, i, env)
    case POptional(_) => true
  }

  predicate FieldsReadNothing(fs: Fields, b: seq<bool>, i: nat, env: Env)
    requires FieldsWellFormed(fs) && i <= |b|
    decreases fs, 0, 0
  {
    match fs
    case FNil => true
    case FConst(c, rest) =>
      var r := ParseConst(c, b, i, false);
      if r.ok then r.at == i && FieldsReadNothing(rest, b, i, env) else ConstReadNothing(c, b, i)
    case FField(p, rest) =>
      (match Parse(p, b, i, env)
       case Fail => ReadNothing(p, b, i, env)
       case Ok(_, j) => j == i && FieldsReadNothing(rest, b, i, env))
    case FDep(x, w, c, rest) =>
      (match ParseInt(w, c, b, i)
       case Fail => true
       case Ok(v, j) => j == i && FieldsReadNothing(rest, b, i, env[x := v.n]))
  }

  predicate NReadNothing(p: Parser, n: nat, b: seq<bool>, i: nat, env: Env)
    requires WellFormed(p) && i <= |b|
    decreases p, 1, n
  {
    n > 0 ==>
      match Parse(p, b, i, env)
      case Fail => ReadNothing(p, b, i, env)
      case Ok(_, j) => j == i && NReadNothing(p, n - 1, b, i, env)
  }

  /** The round of an array that failed at bit `j`, with its separator, had read nothing. */
  predicate RoundReadNothing(p: Parser, sep: Option<Const>, b: seq<bool>, j: nat, env: Env, first: bool)
    requires WellFormed(p) && (sep.Some? ==> ConstWellFormed(sep.value)) && j <= |b|
  {
    var s := Separator(sep, b, j, first);
    if s.ok then s.at == j && ReadNothing(p, b, j, env) else ConstReadNothing(sep.value, b, j)
  }

  // The inputs on which the first pass gives everything back. All three predicates follow the
  // attempts the direct parser makes.

  /** Every constant met is matched alike by both parsers, every optional part that is absent had
      read nothing, and so had the round at which any array stopped. */
  predicate GivesBack(p: Parser, b: seq<bool>, i: nat, env: Env)
    requires WellFormed(p) && i <= |b|
    decreases p, 0, 0
  {
    match p
    case PInt(_, _) => true
    case PStruct(fs) => FieldsGiveBack(fs, b, i, env)
    case PWrap(before, q, after) =>
      && AllAlike(before, b, i)
      && (var r := ParseConsts(before, b, i, false);
          r.ok ==>
            && GivesBack(q, b, r.at, env)
            && (var s := Parse(q, b, r.at, env); s.Ok? ==> AllAlike(after, b, s.at)))
    case PChoice(alts) => AltsGiveBack(alts, b, i, env)
    case PSelect(_, _) => false
    case PMany(q, _, sep) =>
      && ElementsGiveBack(q, sep, b, i, env, true)
      && (var (vs, j) := ParseMany(q, sep, b, i, env, true); RoundReadNothing(q, sep, b, j, env, vs == []))
    case PFixed(n, q) => NGivesBack(q, n, b, i, env)
    case PLength(dep, q) => NGivesBack(q, Dep(env, dep), b, i, env)
    case POptional(q) => GivesBack(q, b, i, env) && (Parse(q, b, i, env).Fail? ==> ReadNothing(q, b, i, env))
  }

  predicate FieldsGiveBack(fs: Fields, b: seq<bool>, i: nat, env: Env)
    requires FieldsWellFormed(fs) && i <= |b|
    decreases fs, 0, 0
  {
    match fs
    case FNil => true
    case FConst(c, rest) =>
      Alike(c, b, i) && (var r := ParseConst(c, b, i, false); r.ok ==> FieldsGiveBack(rest, b, r.at, env))
    case FField(p, rest) =>
      GivesBack(p, b, i, env) && (var r := Parse(p, b, i, env); r.Ok? ==> FieldsGiveBack(rest, b, r.at, env))
    case FDep(x, w, c, rest) =>
      var r := ParseInt(w, c, b, i);
      r.Ok? ==> FieldsGiveBack(rest, b, r.at, env[x := r.value.n])
  }

  predicate AltsGiveBack(alts: Alts, b: seq<bool>, i: nat, env: Env)
    requires AltsWellFormed(alts) && i <= |b|
    decreases alts, 0, 0
  {
    alts.ACons? ==>
      GivesBack(alts.head, b, i, env) && (Parse(alts.head, b, i, env).Fail? ==> AltsGiveBack(alts.tail, b, i, env))
  }

  predicate SeparatorAlike(sep: Option<Const>, b: seq<bool>, i: nat, first: bool)
    requires i <= |b| && (sep.Some? ==> ConstWellFormed(sep.value))
  {
    first || sep.None? || Alike(sep.value, b, i)
  }

  /** Every separator and element tried, the last and failed one included, gives back what is inside
      it. */
  predicate ElementsGiveBack(p: Parser, sep: Option<Const>, b: seq<bool>, i: nat, env: Env, first: bool)
    requires WellFormed(p) && Advances(p) && (sep.Some? ==> ConstWellFormed(sep.value)) && i <= |b|
    decreases p, 1, |b| - i
  {
    var s := Separator(sep, b, i, first);
    && SeparatorAlike(sep, b, i, first)
    && (s.ok ==>
          && GivesBack(p, b, s.at, env)
          && (var r := Parse(p, b, s.at, env); r.Ok? ==> ElementsGiveBack(p, sep, b, r.at, env, false)))
  }

  predicate NGivesBack(p: Parser, n: nat, b: seq<bool>, i: nat, env: Env)
    requires WellFormed(p) && i <= |b|
    decreases p, 1, n
  {
    n > 0 ==>
      GivesBack(p, b, i, env) && (var r := Parse(p, b, i, env); r.Ok? ==> NGivesBack(p, n - 1, b, r.at, env))
  }

  // A grammar that restores gives back on every input.

  lemma OnePart(p: Parser, b: seq<bool>, i: nat, env: Env)
    requires WellFormed(p) && i <= |b|
    ensures WellFormed(PStruct(FField(p, FNil)))
    ensures ParseFields(FField(p, FNil), b, i, env).Ok? == Parse(p, b, i, env).Ok?
    ensures ParseN(p, 1, b, i, env).Ok? == Parse(p, b, i, env).Ok?
    ensures Parse(PWrap(CNil, p, CNil), b, i, env).Ok? == Parse(p, b, i, env).Ok?
  {
    assert FieldsWellFormed(FNil);
    var r := Parse(p, b, i, env);
    if r.Ok? {
      assert ParseFields(FNil, b, r.at, env) == Ok([], r.at) && ParseN(p, 0, b, r.at, env) == Ok([], r.at);
    }
  }

  lemma {:induction false} NothingRead(p: Parser, b: seq<bool>, i: nat, env: Env)
    requires WellFormed(p) && FailsInPlace(p) && i <= |b| && Parse(p, b, i, env).Fail?
    ensures ReadNothing(p, b, i, env)
    decreases p
  {
    match p
    case PStruct(fs) =>
      if fs.FField? {
        assert fs == FField(fs.p, FNil);
        OnePart(fs.p, b, i, env);
        NothingRead(fs.p, b, i, env);
      }
    case PWrap(before, q, after) =>
      assert p == PWrap(CNil, q, CNil);
      OnePart(q, b, i, env);
      NothingRead(q, b, i, env);
    case PMany(q, _, sep) => if Parse(q, b, i, env).Fail? { NothingRead(q, b, i, env); }
    case PFixed(n, q) =>
      if n == 1 {
        OnePart(q, b, i, env);
        NothingRead(q, b, i, env);
      }
    case _ =>
  }

  lemma {:induction false} RestoresGivesBack(p: Parser, b: seq<bool>, i: nat, env: Env)
    requires WellFormed(p) && Restores(p) && i <= |b|
    ensures GivesBack(p, b, i, env)
    decreases p, 0, 0
  {
    match p
    case PInt(_, _) =>
    case PStruct(fs) => FieldsRestoreGiveBack(fs, b, i, env);
    case PWrap(before, q, after) =>
      AllSteadyAlike(before, b, i);
      var r := ParseConsts(before, b, i, false);
      if r.ok {
        RestoresGivesBack(q, b, r.at, env);
        var s := Parse(q, b, r.at, env);
        if s.Ok? { AllSteadyAlike(after, b, s.at); }
      }
    case PChoice(alts) => AltsRestoreGiveBack(alts, b, i, env);
    case PMany(q, _, _) => ManyRestoresGivesBack(q, b, i, env, true);
    case PFixed(n, q) => NRestoresGivesBack(q, n, b, i, env);
    case PLength(dep, q) => NRestoresGivesBack(q, Dep(env, dep), b, i, env);
    case POptional(q) =>
      RestoresGivesBack(q, b, i, env);
      if Parse(q, b, i, env).Fail? { NothingRead(q, b, i, env); }
  }

  lemma {:induction false} FieldsRestoreGiveBack(fs: Fields, b: seq<bool>, i: nat, env: Env)
    requires FieldsWellFormed(fs) && FieldsRestore(fs) && i <= |b|
    ensures FieldsGiveBack(fs, b, i, env)
    decreases fs, 0, 0
  {
    match fs
    case FNil =>
    case FConst(c, rest) =>
      SteadyAlike(c, b, i);
      var r := ParseConst(c, b, i, false);
      if r.ok { FieldsRestoreGiveBack(rest, b, r.at, env); }
    case FField(p, rest) =>
      RestoresGivesBack(p, b, i, env);
      var r := Parse(p, b, i, env);
      if r.Ok? { FieldsRestoreGiveBack(rest, b, r.at, env); }
    case FDep(x, w, c, rest) =>
      var r := ParseInt(w, c, b, i);
      if r.Ok? { FieldsRestoreGiveBack(rest, b, r.at, env[x := r.value.n]); }
  }

  lemma {:induction false} AltsRestoreGiveBack(alts: Alts, b: seq<bool>, i: nat, env: Env)
    requires AltsWellFormed(alts) && AltsRestore(alts) && i <= |b|
    ensures AltsGiveBack(alts, b, i, env)
    decreases alts, 0, 0
  {
    if alts.ACons? {
      RestoresGivesBack(alts.head, b, i, env);
      AltsRestoreGiveBack(alts.tail, b, i, env);
    }
  }

  lemma {:induction false} ManyRestoresGivesBack(p: Parser, b: seq<bool>, i: nat, env: Env, first: bool)
    requires WellFormed(p) && Advances(p) && Restores(p) && FailsInPlace(p) && i <= |b|
    ensures ElementsGiveBack(p, None, b, i, env, first)
    ensures var (vs, j) := ParseMany(p, None, b, i, env, first);
            RoundReadNothing(p, None, b, j, env, first && vs == [])
    decreases p, 1, |b| - i
  {
    hide Parse, GivesBack, ReadNothing, WellFormed, Advances, Restores, FailsInPlace;
    RestoresGivesBack(p, b, i, env);
    var r := Parse(p, b, i, env);
    if r.Ok? { ManyRestoresGivesBack(p, b, r.at, env, false); } else { NothingRead(p, b, i, env); }
  }

  lemma {:induction false} NRestoresGivesBack(p: Parser, n: nat, b: seq<bool>, i: nat, env: Env)
    requires WellFormed(p) && Restores(p) && i <= |b|
    ensures NGivesBack(p, n, b, i, env)
    decreases p, 1, n
  {
    if n > 0 {
      RestoresGivesBack(p, b, i, env);
      var r := Parse(p, b, i, env);
      if r.Ok? { NRestoresGivesBack(p, n - 1, b, r.at, env); }
    }
  }
}
