/** What the emitted printer writes, as in-order serialisation: a dependency field is written
    with the value its variable holds once the whole structure has been printed. */
module PrintSpec {
  import opened Bits
  import opened Grammar

  type Text = Option<seq<bool>>

  function Cat(a: Text, b: Text): Text {
    if a.Some? && b.Some? then Some(a.value + b.value) else None
  }

  // Constants: an alternative is printed as its first spelling, a repetition once.

  function PrintConst(c: Const): seq<bool> {
    match c
    case CInt(w, v) => ToBits(v, w)
    case CSeq(cs) => PrintConsts(cs)
    case CUnion(cs) => if cs.CCons? then PrintConst(cs.head) else []
    case CRepeat(d) => PrintConst(d)
  }

  function PrintConsts(cs: Consts): seq<bool> {
    match cs
    case CNil => []
    case CCons(c, rest) => PrintConst(c) + PrintConsts(rest)
  }

  function Declared(fs: Fields): set<string> {
    match fs
    case FNil => {}
    case FConst(_, rest) => Declared(rest)
    case FField(_, rest) => Declared(rest)
    case FDep(x, _, _, rest) => {x} + Declared(rest)
  }

  // The assignments to enclosing dep_ variables that printing a value makes. An n_of stores the
  // number of elements after printing them, a select stores its case value before its body.

  function Assigns(p: Parser, v: Value): Env
    decreases p, 0, 0
  {
    match p
    case PInt(_, _) => map[]
    case PStruct(fs) => if v.VStruct? then AssignsFields(fs, v.fields) - Declared(fs) else map[]
    case PWrap(_, q, _) => Assigns(q, v)
    case PChoice(alts) => if v.VTagged? then AssignsAlts(alts, v.tag, v.v) else map[]
    case PSelect(dep, cases) => if v.VTagged? then AssignsCases(cases, v.tag, dep, v.v) else map[]
    case PMany(q, _, _) => if v.VList? then AssignsElems(q, v.elems) else map[]
    case PFixed(_, q) => if v.VList? then AssignsElems(q, v.elems) else map[]
    case PLength(dep, q) => if v.VList? then AssignsElems(q, v.elems)[dep := |v.elems|] else map[]
    case POptional(q) => if v.VPresent? then Assigns(q, v.v) else map[]
  }

  function AssignsFields(fs: Fields, vs: seq<Value>): Env
    decreases fs, 0, 0
  {
    match fs
    case FNil => map[]
    case FConst(_, rest) => AssignsFields(rest, vs)
    case FField(p, rest) => if vs == [] then map[] else Assigns(p, vs[0]) + AssignsFields(rest, vs[1..])
    case FDep(_, _, _, rest) => AssignsFields(rest, vs)
  }

  function AssignsAlts(alts: Alts, tag: nat, v: Value): Env
    decreases alts, 0, 0
  {
    if alts.ANil? then map[]
    else if tag == 0 then Assigns(alts.head, v)
    else AssignsAlts(alts.tail, tag - 1, v)
  }

  function AssignsCases(cases: Cases, tag: nat, dep: string, v: Value): Env
    decreases cases, 0, 0
  {
    if cases.SNil? then map[]
    else if tag == 0 then map[dep := cases.value] + Assigns(cases.head, v)
    else AssignsCases(cases.tail, tag - 1, dep, v)
  }

  function AssignsElems(p: Parser, vs: seq<Value>): Env
    decreases p, 1, |vs|
  {
    if vs == [] then map[] else Assigns(p, vs[0]) + AssignsElems(p, vs[1..])
  }

  /** A dep_ variable no field assigned holds whatever was there: `junk`. */
  function Lookup(d: Env, x: string, junk: nat): nat {
    if x in d then d[x] else junk
  }

  // The text of a value. None means the printer returns -1, because a field violates its
  // constraint, or the value does not have the shape of the C type of the parser.

  function Print(p: Parser, v: Value, junk: nat): Text
    decreases p, 0, 0
  {
    match p
    case PInt(w, c) => if v.VInt? && !Violates(c, v.n) then Some(ToBits(v.n, w)) else None
    case PStruct(fs) =>
      if v.VStruct? then PrintFields(fs, v.fields, AssignsFields(fs, v.fields), junk) else None
    case PWrap(before, q, after) =>
      Cat(Some(PrintConsts(before)), Cat(Print(q, v, junk), Some(PrintConsts(after))))
    case PChoice(alts) => if v.VTagged? then PrintAlts(alts, v.tag, v.v, junk) else None
    case PSelect(_, cases) => if v.VTagged? then PrintCases(cases, v.tag, v.v, junk) else None
    case PMany(q, _, sep) => if v.VList? then PrintElems(q, sep, v.elems, true, junk) else None
    case PFixed(n, q) => if v.VList? && |v.elems| == n then PrintElems(q, None, v.elems, true, junk) else None
    case PLength(_, q) => if v.VList? then PrintElems(q, None, v.elems, true, junk) else None
    case POptional(q) =>
      if v.VAbsent? then Some([]) else if v.VPresent? then Print(q, v.v, junk) else None
  }

  function PrintFields(fs: Fields, vs: seq<Value>, d: Env, junk: nat): Text
    decreases fs, 0, 0
  {
    match fs
    case FNil => if vs == [] then Some([]) else None
    case FConst(c, rest) => Cat(Some(PrintConst(c)), PrintFields(rest, vs, d, junk))
    case FField(p, rest) =>
      if vs == [] then None else Cat(Print(p, vs[0], junk), PrintFields(rest, vs[1..], d, junk))
    case FDep(x, w, _, rest) => Cat(Some(ToBits(Lookup(d, x, junk), w)), PrintFields(rest, vs, d, junk))
  }

  /** A tag that names no alternative prints nothing: the emitted switch has no default. */
  function PrintAlts(alts: Alts, tag: nat, v: Value, junk: nat): Text
    decreases alts, 0, 0
  {
    if alts.ANil? then Some([])
    else if tag == 0 then Print(alts.head, v, junk)
    else PrintAlts(alts.tail, tag - 1, v, junk)
  }

  function PrintCases(cases: Cases, tag: nat, v: Value, junk: nat): Text
    decreases cases, 0, 0
  {
    if cases.SNil? then Some([])
    else if tag == 0 then Print(cases.head, v, junk)
    else PrintCases(cases.tail, tag - 1, v, junk)
  }

  function PrintSeparator(sep: Option<Const>, first: bool): seq<bool> {
    if first || sep.None? then [] else PrintConst(sep.value)
  }

  function PrintElems(p: Parser, sep: Option<Const>, vs: seq<Value>, first: bool, junk: nat): Text
    decreases p, 1, |vs|
  {
    if vs == [] then Some([])
    else Cat(Some(PrintSeparator(sep, first)), Cat(Print(p, vs[0], junk), PrintElems(p, sep, vs[1..], false, junk)))
  }

  // Static conditions on grammars.

  /** One spelling per constant. */
  predicate OneSpelling(c: Const) {
    match c
    case CInt(_, _) => true
    case CSeq(cs) => OneSpellings(cs)
    case CUnion(_) => false
    case CRepeat(_) => false
  }

  predicate OneSpellings(cs: Consts) {
    cs.CCons? ==> OneSpelling(cs.head) && OneSpellings(cs.tail)
  }

  /** Every value of `p` contains an n_of or a select that assigns the variable `x`. */
  predicate Sets(p: Parser, x: string) {
    match p
    case PInt(_, _) => false
    case PStruct(fs) => x !in Declared(fs) && FieldsSet(fs, x)
    case PWrap(_, q, _) => Sets(q, x)
    case PChoice(alts) => AltsSet(alts, x)
    case PSelect(dep, cases) => dep == x || CasesSet(cases, x)
    case PMany(q, atLeastOne, _) => atLeastOne && Sets(q, x)
    case PFixed(n, q) => n > 0 && Sets(q, x)
    case PLength(dep, _) => dep == x
    case POptional(_) => false
  }

  predicate FieldsSet(fs: Fields, x: string) {
    match fs
    case FNil => false
    case FConst(_, rest) => FieldsSet(rest, x)
    case FField(p, rest) => Sets(p, x) || FieldsSet(rest, x)
    case FDep(_, _, _, rest) => FieldsSet(rest, x)
  }

  predicate AltsSet(alts: Alts, x: string) {
    alts.ACons? ==> Sets(alts.head, x) && AltsSet(alts.tail, x)
  }

  predicate CasesSet(cases: Cases, x: string) {
    cases.SCons? ==> Sets(cases.head, x) && CasesSet(cases.tail, x)
  }

  /** Every constant of the grammar has one spelling. */
  predicate Canonical(p: Parser) {
    match p
    case PInt(_, _) => true
    case PStruct(fs) => FieldsCanonical(fs)
    case PWrap(before, q, after) => OneSpellings(before) && Canonical(q) && OneSpellings(after)
    case PChoice(alts) => AltsCanonical(alts)
    case PSelect(_, cases) => CasesCanonical(cases)
    case PMany(q, _, sep) => Canonical(q) && (sep.Some? ==> OneSpelling(sep.value))
    case PFixed(_, q) => Canonical(q)
    case PLength(_, q) => Canonical(q)
    case POptional(q) => Canonical(q)
  }

  predicate FieldsCanonical(fs: Fields) {
    match fs
    case FNil => true
    case FConst(c, rest) => OneSpelling(c) && FieldsCanonical(rest)
    case FField(p, rest) => Canonical(p) && FieldsCanonical(rest)
    case FDep(_, _, _, rest) => FieldsCanonical(rest)
  }

  predicate AltsCanonical(alts: Alts) {
    alts.ACons? ==> Canonical(alts.head) && AltsCanonical(alts.tail)
  }

  predicate CasesCanonical(cases: Cases) {
    cases.SCons? ==> Canonical(cases.head) && CasesCanonical(cases.tail)
  }

  /** Every dependency is declared once in its structure and assigned by a later field of it. */
  predicate Determined(p: Parser) {
    match p
    case PInt(_, _) => true
    case PStruct(fs) => FieldsDetermined(fs)
    case PWrap(_, q, _) => Determined(q)
    case PChoice(alts) => AltsDetermined(alts)
    case PSelect(_, cases) => CasesDetermined(cases)
    case PMany(q, _, _) => Determined(q)
    case PFixed(_, q) => Determined(q)
    case PLength(_, q) => Determined(q)
    case POptional(q) => Determined(q)
  }

  predicate FieldsDetermined(fs: Fields) {
    match fs
    case FNil => true
    case FConst(_, rest) => FieldsDetermined(rest)
    case FField(p, rest) => Determined(p) && FieldsDetermined(rest)
    case FDep(x, _, _, rest) => x !in Declared(rest) && FieldsSet(rest, x) && FieldsDetermined(rest)
  }

  predicate AltsDetermined(alts: Alts) {
    alts.ACons? ==> Determined(alts.head) && AltsDetermined(alts.tail)
  }

  predicate CasesDetermined(cases: Cases) {
    cases.SCons? ==> Determined(cases.head) && CasesDetermined(cases.tail)
  }
}
