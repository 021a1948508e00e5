/** Exactly which values the printer accepts. */
module PrintWhen {
  import opened Grammar
  import opened PrintSpec

  /** The value has the shape of the C type of its grammar, and every integer the printer writes as a
      field of its own is one of the numbers its constraint allows. Neither the widths of integers,
      nor the constraints of dependencies, nor the smallest number of elements of an array are looked
      at, and a tag that names no alternative stands for nothing. */
  predicate Printable(p: Parser, v: Value)
    decreases p, 0, 0
  {
    match p
    case PInt(_, c) => v.VInt? && Allows(c, v.n)
    case PStruct(fs) => v.VStruct? && FieldsPrintable(fs, v.fields)
    case PWrap(_, q, _) => Printable(q, v)
    case PChoice(alts) => v.VTagged? && AltsPrintable(alts, v.tag, v.v)
    case PSelect(_, cases) => v.VTagged? && CasesPrintable(cases, v.tag, v.v)
    case PMany(q, _, _) => v.VList? && AllPrintable(q, v.elems)
    case PFixed(n, q) => v.VList? && |v.elems| == n && AllPrintable(q, v.elems)
    case PLength(_, q) => v.VList? && AllPrintable(q, v.elems)
    case POptional(q) => v.VAbsent? || (v.VPresent? && Printable(q, v.v))
  }

  predicate FieldsPrintable(fs: Fields, vs: seq<Value>)
    decreases fs, 0, 0
  {
    match fs
    case FNil => vs == []
    case FConst(_, rest) => FieldsPrintable(rest, vs)
    case FField(p, rest) => vs != [] && Printable(p, vs[0]) && FieldsPrintable(rest, vs[1..])
    case FDep(_, _, _, rest) => FieldsPrintable(rest, vs)
  }

  predicate AltsPrintable(alts: Alts, tag: nat, v: Value)
    decreases alts, 0, 0
  {
    alts.ACons? ==> if tag == 0 then Printable(alts.head, v) else AltsPrintable(alts.tail, tag - 1, v)
  }

  predicate CasesPrintable(cases: Cases, tag: nat, v: Value)
    decreases cases, 0, 0
  {
    cases.SCons? ==> if tag == 0 then Printable(cases.head, v) else CasesPrintable(cases.tail, tag - 1, v)
  }

  predicate AllPrintable(p: Parser, vs: seq<Value>)
    decreases p, 1, |vs|
  {
    vs != [] ==> Printable(p, vs[0]) && AllPrintable(p, vs[1..])
  }

  /** The printer succeeds exactly on these values. */
  lemma {:induction false} PrintsWhen(p: Parser, v: Value, junk: nat)
    ensures Print(p, v, junk).Some? <==> Printable(p, v)
    decreases p, 0, 0
  {
    hide PrintFields, PrintAlts, PrintCases, PrintElems, PrintConsts, FieldsPrintable, AltsPrintable, CasesPrintable,
      AllPrintable;
    match p
    case PInt(_, c) => if v.VInt? { RejectedWhen(c, v.n); }
    case PStruct(fs) => if v.VStruct? { FieldsPrintWhen(fs, v.fields, AssignsFields(fs, v.fields), junk); }
    case PWrap(_, q, _) => PrintsWhen(q, v, junk);
    case PChoice(alts) => if v.VTagged? { AltsPrintWhen(alts, v.tag, v.v, junk); }
    case PSelect(_, cases) => if v.VTagged? { CasesPrintWhen(cases, v.tag, v.v, junk); }
    case PMany(q, _, sep) => if v.VList? { ElemsPrintWhen(q, sep, v.elems, true, junk); }
    case PFixed(_, q) => if v.VList? { ElemsPrintWhen(q, None, v.elems, true, junk); }
    case PLength(_, q) => if v.VList? { ElemsPrintWhen(q, None, v.elems, true, junk); }
    case POptional(q) => if v.VPresent? { PrintsWhen(q, v.v, junk); }
  }

  lemma {:induction false} FieldsPrintWhen(fs: Fields, vs: seq<Value>, d: Env, junk: nat)
    ensures PrintFields(fs, vs, d, junk).Some? <==> FieldsPrintable(fs, vs)
    decreases fs, 0, 0
  {
    hide Print, PrintConst, Printable;
    match fs
    case FNil =>
    case FConst(_, rest) => FieldsPrintWhen(rest, vs, d, junk);
    case FField(p, rest) =>
      if vs != [] {
        PrintsWhen(p, vs[0], junk);
        FieldsPrintWhen(rest, vs[1..], d, junk);
      }
    case FDep(_, _, _, rest) => FieldsPrintWhen(rest, vs, d, junk);
  }

  lemma {:induction false} AltsPrintWhen(alts: Alts, tag: nat, v: Value, junk: nat)
    ensures PrintAlts(alts, tag, v, junk).Some? <==> AltsPrintable(alts, tag, v)
    decreases alts, 0, 0
  {
    if alts.ACons? {
      if tag == 0 { PrintsWhen(alts.head, v, junk); } else { AltsPrintWhen(alts.tail, tag - 1, v, junk); }
    }
  }

  lemma {:induction false} CasesPrintWhen(cases: Cases, tag: nat, v: Value, junk: nat)
    ensures PrintCases(cases, tag, v, junk).Some? <==> CasesPrintable(cases, tag, v)
    decreases cases, 0, 0
  {
    if cases.SCons? {
      if tag == 0 { PrintsWhen(cases.head, v, junk); } else { CasesPrintWhen(cases.tail, tag - 1, v, junk); }
    }
  }

  lemma {:induction false} ElemsPrintWhen(p: Parser, sep: Option<Const>, vs: seq<Value>, first: bool, junk: nat)
    ensures PrintElems(p, sep, vs, first, junk).Some? <==> AllPrintable(p, vs)
    decreases p, 1, |vs|
  {
    hide Print, Printable;
    if vs != [] {
      PrintsWhen(p, vs[0], junk);
      ElemsPrintWhen(p, sep, vs[1..], false, junk);
    }
  }

  function Alternatives(alts: Alts): nat {
    if alts.ANil? then 0 else 1 + Alternatives(alts.tail)
  }

  /** A tag that names no alternative is printed as nothing: the emitted switch has no default. */
  lemma UnknownTagPrintsNothing(alts: Alts, tag: nat, v: Value, junk: nat)
    requires tag >= Alternatives(alts)
    ensures Print(PChoice(alts), VTagged(tag, v), junk) == Some([])
  {
    AltsPrintNothing(alts, tag, v, junk);
  }

  lemma {:induction false} AltsPrintNothing(alts: Alts, tag: nat, v: Value, junk: nat)
    requires tag >= Alternatives(alts)
    ensures PrintAlts(alts, tag, v, junk) == Some([])
  {
    if alts.ACons? { AltsPrintNothing(alts.tail, tag - 1, v, junk); }
  }
}
