/** Nail grammars, the values they describe, and the static conditions under which every loop
    of the emitted parsers makes progress. A reference to another parser stands for its
    definition, so a grammar is a finite tree. */
module Grammar {

  datatype Option<+T> = None | Some(value: T)

  // Integer constraints. The generators print the negation of a constraint, as the test that
  // makes the parser or the printer fail.

  datatype Element = IntValue(n: nat) | Range(min: Option<nat>, max: Option<nat>)
  datatype Constraint = Any | Single(e: Element) | OneOf(es: seq<Element>) | Negate(c: Constraint)

  predicate Excluded(e: Element, n: nat) {
    match e
    case IntValue(m) => n != m
    case Range(min, max) => (max.Some? && n > max.value) || (min.Some? && n < min.value)
  }

  predicate Violates(c: Constraint, n: nat) {
    match c
    case Any => false
    case Single(e) => Excluded(e, n)
    case OneOf(es) => forall e | e in es :: Excluded(e, n)
    case Negate(d) => !Violates(d, n)
  }

  // What a constraint means.

  /** The numbers an element stands for: one number, or all between two bounds either of which may be
      missing. */
  predicate Among(e: Element, n: nat) {
    match e
    case IntValue(m) => n == m
    case Range(min, max) => (min.Some? ==> min.value <= n) && (max.Some? ==> n <= max.value)
  }

  /** The numbers a constraint allows: a set allows those of any of its elements. */
  predicate Allows(c: Constraint, n: nat) {
    match c
    case Any => true
    case Single(e) => Among(e, n)
    case OneOf(es) => exists e | e in es :: Among(e, n)
    case Negate(d) => !Allows(d, n)
  }

  /** The generated tests reject exactly the numbers that are not allowed. */
  lemma {:induction false} RejectedWhen(c: Constraint, n: nat)
    ensures Violates(c, n) <==> !Allows(c, n)
  {
    match c
    case Any =>
    case Single(_) =>
    case OneOf(es) =>
      forall e | e in es ensures Excluded(e, n) <==> !Among(e, n) {
      }
    case Negate(d) => RejectedWhen(d, n);
  }

  /** Constant parsers. An array of constants is a sequence of integer constants. */
  datatype Const =
    | CInt(width: nat, value: nat)
    | CSeq(cs: Consts)
    | CUnion(cs: Consts)
    | CRepeat(c: Const)
  datatype Consts = CNil | CCons(head: Const, tail: Consts)

  datatype Parser =
    | PInt(width: nat, c: Constraint)
    | PStruct(fields: Fields)
    | PWrap(before: Consts, p: Parser, after: Consts)
    | PChoice(alts: Alts)
    | PSelect(dep: string, cases: Cases)
    | PMany(p: Parser, atLeastOne: bool, separator: Option<Const>)
    | PFixed(count: nat, p: Parser)
    | PLength(dep: string, p: Parser)
    | POptional(p: Parser)
  datatype Fields =
    | FNil
    | FConst(c: Const, rest: Fields)
    | FField(p: Parser, rest: Fields)
    | FDep(name: string, width: nat, dc: Constraint, rest: Fields)
  datatype Alts = ANil | ACons(head: Parser, tail: Alts)
  datatype Cases = SNil | SCons(value: nat, head: Parser, tail: Cases)

  datatype Value =
    | VInt(n: nat)
    | VStruct(fields: seq<Value>)
    | VTagged(tag: nat, v: Value)
    | VList(elems: seq<Value>)
    | VAbsent
    | VPresent(v: Value)

  /** The values of the dep_ variables in scope. */
  type Env = map<string, nat>

  /** An undeclared name does not compile; the model reads 0 for it. */
  function Dep(env: Env, x: string): nat {
    if x in env then env[x] else 0
  }

  // Static progress: a parser that advances consumes at least one bit whenever it succeeds.

  predicate ConstAdvances(c: Const) {
    match c
    case CInt(w, _) => w > 0
    case CSeq(cs) => SomeConstAdvances(cs)
    case CUnion(cs) => EveryConstAdvances(cs)
    case CRepeat(_) => false
  }

  predicate SomeConstAdvances(cs: Consts) {
    cs.CCons? && (ConstAdvances(cs.head) || SomeConstAdvances(cs.tail))
  }

  predicate EveryConstAdvances(cs: Consts) {
    cs.CCons? ==> ConstAdvances(cs.head) && EveryConstAdvances(cs.tail)
  }

  predicate Advances(p: Parser) {
    match p
    case PInt(w, _) => w > 0
    case PStruct(fs) => FieldsAdvance(fs)
    case PWrap(before, q, after) => SomeConstAdvances(before) || Advances(q) || SomeConstAdvances(after)
    case PChoice(alts) => EveryAltAdvances(alts)
    case PSelect(_, cases) => EveryCaseAdvances(cases)
    case PMany(q, atLeastOne, _) => atLeastOne && Advances(q)
    case PFixed(n, q) => n > 0 && Advances(q)
    case PLength(_, _) => false
    case POptional(_) => false
  }

  predicate FieldsAdvance(fs: Fields) {
    match fs
    case FNil => false
    case FConst(c, rest) => ConstAdvances(c) || FieldsAdvance(rest)
    case FField(p, rest) => Advances(p) || FieldsAdvance(rest)
    case FDep(_, w, _, rest) => w > 0 || FieldsAdvance(rest)
  }

  predicate EveryAltAdvances(alts: Alts) {
    alts.ACons? ==> Advances(alts.head) && EveryAltAdvances(alts.tail)
  }

  predicate EveryCaseAdvances(cases: Cases) {
    cases.SCons? ==> Advances(cases.head) && EveryCaseAdvances(cases.tail)
  }

  // Well-formed grammars: no integer is wider than 64 bits, which the generators refuse, and
  // the body of every repetition advances, without which the emitted loop may never end.

  predicate ConstWellFormed(c: Const) {
    match c
    case CInt(w, _) => w <= 64
    case CSeq(cs) => ConstsWellFormed(cs)
    case CUnion(cs) => ConstsWellFormed(cs)
    case CRepeat(d) => ConstWellFormed(d) && ConstAdvances(d)
  }

  predicate ConstsWellFormed(cs: Consts) {
    cs.CCons? ==> ConstWellFormed(cs.head) && ConstsWellFormed(cs.tail)
  }

  predicate WellFormed(p: Parser) {
    match p
    case PInt(w, _) => w <= 64
    case PStruct(fs) => FieldsWellFormed(fs)
    case PWrap(before, q, after) => ConstsWellFormed(before) && WellFormed(q) && ConstsWellFormed(after)
    case PChoice(alts) => AltsWellFormed(alts)
    case PSelect(_, cases) => CasesWellFormed(cases)
    case PMany(q, _, sep) => WellFormed(q) && Advances(q) && (sep.Some? ==> ConstWellFormed(sep.value))
    case PFixed(_, q) => WellFormed(q)
    case PLength(_, q) => WellFormed(q)
    case POptional(q) => WellFormed(q)
  }

  predicate FieldsWellFormed(fs: Fields) {
    match fs
    case FNil => true
    case FConst(c, rest) => ConstWellFormed(c) && FieldsWellFormed(rest)
    case FField(p, rest) => WellFormed(p) && FieldsWellFormed(rest)
    case FDep(_, w, _, rest) => w <= 64 && FieldsWellFormed(rest)
  }

  predicate AltsWellFormed(alts: Alts) {
    alts.ACons? ==> WellFormed(alts.head) && AltsWellFormed(alts.tail)
  }

  predicate CasesWellFormed(cases: Cases) {
    cases.SCons? ==> WellFormed(cases.head) && CasesWellFormed(cases.tail)
  }
}
