/** What the emitted one-pass parser computes: a backtracking parser over a bit string. The
    contracts carry the progress argument: every success ends inside the stream at or after its
    start, strictly after it for a parser that advances, so every repetition stops. */
module DirectSpec {
  import opened Bits
  import opened Grammar

  datatype Result<+T> = Fail | Ok(value: T, at: nat)

  /** A constant parser leaves the cursor somewhere even when it fails. */
  datatype ConstResult = ConstResult(ok: bool, at: nat)

  /** `backUp` tells the two parsers apart: after reading a wrong integer the two-pass parser
      backs up over it, the direct parser does not. */
  function ParseConst(c: Const, b: seq<bool>, i: nat, backUp: bool): (r: ConstResult)
    requires ConstWellFormed(c) && i <= |b|
    ensures i <= r.at <= |b|
    ensures r.ok && ConstAdvances(c) ==> i < r.at
    decreases c, 0, 0
  {
    match c
    case CInt(w, v) =>
      if i + w > |b| then ConstResult(false, i)
      else if Number(b[i..i + w]) == v then ConstResult(true, i + w)
      else ConstResult(false, if backUp then i else i + w)
    case CSeq(cs) => ParseConsts(cs, b, i, backUp)
    case CUnion(cs) => ParseUnion(cs, b, i, backUp)
    case CRepeat(d) => ParseRepeat(d, b, i, backUp)
  }

  function ParseConsts(cs: Consts, b: seq<bool>, i: nat, backUp: bool): (r: ConstResult)
    requires ConstsWellFormed(cs) && i <= |b|
    ensures i <= r.at <= |b|
    ensures r.ok && SomeConstAdvances(cs) ==> i < r.at
    decreases cs, 0, 0
  {
    match cs
    case CNil => ConstResult(true, i)
    case CCons(c, rest) =>
      var r := ParseConst(c, b, i, backUp);
      if r.ok then ParseConsts(rest, b, r.at, backUp) else r
  }

  function ParseUnion(cs: Consts, b: seq<bool>, i: nat, backUp: bool): (r: ConstResult)
    requires ConstsWellFormed(cs) && i <= |b|
    ensures i <= r.at <= |b| && (!r.ok ==> r.at == i)
    ensures r.ok && EveryConstAdvances(cs) ==> i < r.at
    decreases cs, 0, 0
  {
    match cs
    case CNil => ConstResult(false, i)
    case CCons(c, rest) =>
      var r := ParseConst(c, b, i, backUp);
      if r.ok then r else ParseUnion(rest, b, i, backUp)
  }

  /** Repeats `c` until it fails and stays where that failure left the cursor. */
  function ParseRepeat(c: Const, b: seq<bool>, i: nat, backUp: bool): (r: ConstResult)
    requires ConstWellFormed(c) && ConstAdvances(c) && i <= |b|
    ensures r.ok && i <= r.at <= |b|
    decreases c, 1, |b| - i
  {
    var r := ParseConst(c, b, i, backUp);
    if r.ok then ParseRepeat(c, b, r.at, backUp) else ConstResult(true, r.at)
  }

  function Parse(p: Parser, b: seq<bool>, i: nat, env: Env): (r: Result<Value>)
    requires WellFormed(p) && i <= |b|
    ensures r.Ok? ==> i <= r.at <= |b|
    ensures r.Ok? && Advances(p) ==> i < r.at
    decreases p, 0, 0
  {
    match p
    case PInt(w, c) => ParseInt(w, c, b, i)
    case PStruct(fs) =>
      (match ParseFields(fs, b, i, env)
       case Fail => Fail
       case Ok(vs, j) => Ok(VStruct(vs), j))
    case PWrap(before, q, after) =>
      var r1 := ParseConsts(before, b, i, false);
      if !r1.ok then Fail else
      (match Parse(q, b, r1.at, env)
       case Fail => Fail
       case Ok(v, j) =>
         var r2 := ParseConsts(after, b, j, false);
         if r2.ok then Ok(v, r2.at) else Fail)
    case PChoice(alts) => ParseAlts(alts, 0, b, i, env)
    case PSelect(dep, cases) => ParseCases(cases, 0, Dep(env, dep), b, i, env)
    case PMany(q, atLeastOne, sep) =>
      var (vs, j) := ParseMany(q, sep, b, i, env, true);
      if atLeastOne && vs == [] then Fail else Ok(VList(vs), j)
    case PFixed(n, q) => Listed(ParseN(q, n, b, i, env))
    case PLength(dep, q) => Listed(ParseN(q, Dep(env, dep), b, i, env))
    case POptional(q) =>
      (match Parse(q, b, i, env)
       case Fail => Ok(VAbsent, i)
       case Ok(v, j) => Ok(VPresent(v), j))
  }

  function ParseInt(w: nat, c: Constraint, b: seq<bool>, i: nat): Result<Value>
    requires i <= |b|
  {
    if i + w > |b| || Violates(c, Number(b[i..i + w])) then Fail
    else Ok(VInt(Number(b[i..i + w])), i + w)
  }

  /** An integer is accepted exactly when it is inside the input and one of the numbers its
      constraint allows. */
  lemma IntAcceptedWhen(w: nat, c: Constraint, b: seq<bool>, i: nat, env: Env)
    requires w <= 64 && i <= |b|
    ensures Parse(PInt(w, c), b, i, env).Ok? <==> i + w <= |b| && Allows(c, Number(b[i..i + w]))
    ensures var r := Parse(PInt(w, c), b, i, env); r.Ok? ==> r == Ok(VInt(Number(b[i..i + w])), i + w)
  {
    if i + w <= |b| { RejectedWhen(c, Number(b[i..i + w])); }
    hide Violates, Allows, Number;
  }

  function Listed(r: Result<seq<Value>>): Result<Value> {
    match r
    case Fail => Fail
    case Ok(vs, j) => Ok(VList(vs), j)
  }

  function Push(v: Value, r: Result<seq<Value>>): Result<seq<Value>> {
    match r
    case Fail => Fail
    case Ok(vs, j) => Ok([v] + vs, j)
  }

  function ParseFields(fs: Fields, b: seq<bool>, i: nat, env: Env): (r: Result<seq<Value>>)
    requires FieldsWellFormed(fs) && i <= |b|
    ensures r.Ok? ==> i <= r.at <= |b|
    ensures r.Ok? && FieldsAdvance(fs) ==> i < r.at
    decreases fs, 0, 0
  {
    match fs
    case FNil => Ok([], i)
    case FConst(c, rest) =>
      var r := ParseConst(c, b, i, false);
      if r.ok then ParseFields(rest, b, r.at, env) else Fail
    case FField(p, rest) =>
      (match Parse(p, b, i, env)
       case Fail => Fail
       case Ok(v, j) => Push(v, ParseFields(rest, b, j, env)))
    case FDep(x, w, c, rest) =>
      (match ParseInt(w, c, b, i)
       case Fail => Fail
       case Ok(v, j) => ParseFields(rest, b, j, env[x := v.n]))
  }

  function ParseAlts(alts: Alts, tag: nat, b: seq<bool>, i: nat, env: Env): (r: Result<Value>)
    requires AltsWellFormed(alts) && i <= |b|
    ensures r.Ok? ==> i <= r.at <= |b|
    ensures r.Ok? && EveryAltAdvances(alts) ==> i < r.at
    decreases alts, 0, 0
  {
    match alts
    case ANil => Fail
    case ACons(p, rest) =>
      (match Parse(p, b, i, env)
       case Ok(v, j) => Ok(VTagged(tag, v), j)
       case Fail => ParseAlts(rest, tag + 1, b, i, env))
  }

  function ParseCases(cases: Cases, tag: nat, d: nat, b: seq<bool>, i: nat, env: Env): (r: Result<Value>)
    requires CasesWellFormed(cases) && i <= |b|
    ensures r.Ok? ==> i <= r.at <= |b|
    ensures r.Ok? && EveryCaseAdvances(cases) ==> i < r.at
    decreases cases, 0, 0
  {
    match cases
    case SNil => Fail
    case SCons(value, p, rest) =>
      if d != value then ParseCases(rest, tag + 1, d, b, i, env) else
      match Parse(p, b, i, env)
      case Ok(v, j) => Ok(VTagged(tag, v), j)
      case Fail => Fail
  }

  /** The separator of a round of a repetition: read before every element but the first. */
  function Separator(sep: Option<Const>, b: seq<bool>, i: nat, first: bool): (r: ConstResult)
    requires i <= |b| && (sep.Some? ==> ConstWellFormed(sep.value))
    ensures i <= r.at <= |b|
  {
    if first || sep.None? then ConstResult(true, i) else ParseConst(sep.value, b, i, false)
  }

  /** A repetition never fails: it stops just after the last element accepted, and a separator
      read before a failed element is given back. */
  function ParseMany(p: Parser, sep: Option<Const>, b: seq<bool>, i: nat, env: Env, first: bool)
    : (r: (seq<Value>, nat))
    requires WellFormed(p) && Advances(p) && (sep.Some? ==> ConstWellFormed(sep.value)) && i <= |b|
    ensures i <= r.1 <= |b| && (r.0 != [] ==> i < r.1) && (r.0 == [] ==> r.1 == i)
    decreases p, 1, |b| - i
  {
    var s := Separator(sep, b, i, first);
    if !s.ok then ([], i) else
    match Parse(p, b, s.at, env)
    case Fail => ([], i)
    case Ok(v, j) =>
      var (vs, k) := ParseMany(p, sep, b, j, env, false);
      ([v] + vs, k)
  }

  /** One more round of an array. */
  lemma OneMoreParsed(p: Parser, sep: Option<Const>, b: seq<bool>, i: nat, env: Env, first: bool)
    requires WellFormed(p) && Advances(p) && (sep.Some? ==> ConstWellFormed(sep.value)) && i <= |b|
    ensures ParseMany(p, sep, b, i, env, first) ==
            var s := Separator(sep, b, i, first);
            if s.ok && Parse(p, b, s.at, env).Ok? then
              var r := Parse(p, b, s.at, env);
              ([r.value] + ParseMany(p, sep, b, r.at, env, false).0, ParseMany(p, sep, b, r.at, env, false).1)
            else ([], i)
  {
    hide Parse, ParseConst;
  }

  function ParseN(p: Parser, n: nat, b: seq<bool>, i: nat, env: Env): (r: Result<seq<Value>>)
    requires WellFormed(p) && i <= |b|
    ensures r.Ok? ==> i <= r.at <= |b| && |r.value| == n
    ensures r.Ok? && Advances(p) && n > 0 ==> i < r.at
    decreases p, 1, n
  {
    if n == 0 then Ok([], i) else
    match Parse(p, b, i, env)
    case Fail => Fail
    case Ok(v, j) => Push(v, ParseN(p, n - 1, b, j, env))
  }

  /** The emitted entry point accepts when fewer than eight bits are left. */
  function ParseAll(p: Parser, b: seq<bool>): Option<Value>
    requires WellFormed(p)
  {
    match Parse(p, b, 0, map[])
    case Fail => None
    case Ok(v, j) => if j + 8 > |b| then Some(v) else None
  }
}
