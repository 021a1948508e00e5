/** The arena as the emitted one-pass parser uses it. Every array of a result is a block of the
    arena; a choice, a round of a repetition and an optional part save the arena first and restore
    it when they fail. */
module ArenaUse {
  import opened Grammar
  import opened DirectSpec
  import Arena

  type Run = Arena.Run

  /** The sizes of the C types of array elements. */
  type SizeOf = Parser -> nat

  function Bytes(n: nat, q: Parser, sz: SizeOf): nat {
    n * sz(q)
  }

  /** What any attempt leaves of the arena: open marks and live blocks are kept. */
  predicate Keeps(r: Run, e: Option<Run>) {
    e.Some? ==> Arena.Inv(e.value) && e.value.marks == r.marks && r.live <= e.value.live
  }

  /** A request; None when it is one the arena does not serve inside a pool. */
  function Request(r: Run, size: nat): (e: Option<Run>)
    requires Arena.Inv(r)
    ensures Keeps(r, e)
    ensures e.Some? ==> |e.value.live| == |r.live| + 1 && e.value.live[|r.live|].size == size
  {
    if Arena.Enabled(r, Arena.OMalloc(size)) then Some(Arena.Step(r, Arena.OMalloc(size))) else None
  }

  /** A request made once the attempt that began at `r` has come to `e`. */
  function RequestBehind(r: Run, e: Run, size: nat): (f: Option<Run>)
    requires Keeps(r, Some(e))
    ensures Keeps(r, f) && f == Request(e, size)
  {
    Request(e, size)
  }

  function Save(r: Run): (e: Run)
    requires Arena.Inv(r)
    ensures Arena.Inv(e) && e.live == r.live && |e.marks| == |r.marks| + 1 && e.marks[..|r.marks|] == r.marks
    ensures e.marks[|r.marks|].live == |r.live|
  {
    Arena.Step(r, Arena.OSave)
  }

  /** The attempt succeeded: the mark is a local variable nobody uses any more. */
  function Commit(r: Run): (e: Run)
    requires Arena.Inv(r) && r.marks != []
    ensures Arena.Inv(e) && e.live == r.live && e.marks == r.marks[..|r.marks| - 1]
  {
    Arena.Step(r, Arena.OForget)
  }

  /** The attempt failed: everything it allocated is given up. */
  function Backtrack(r: Run): (e: Run)
    requires Arena.Inv(r) && r.marks != []
    ensures Arena.Inv(e) && e.marks == r.marks
    ensures var m := r.marks[|r.marks| - 1]; m.live <= |r.live| && e.live == r.live[..m.live]
  {
    assert r.marks[|r.marks| - 1] in r.marks;
    Arena.Step(r, Arena.ORestore(|r.marks| - 1))
  }

  /** The end of an attempt that began at `r` with a mark of its own. */
  function Settle(r: Run, e: Run, ok: bool): (f: Run)
    requires Arena.Inv(r) && Arena.Inv(e) && e.marks == Save(r).marks && r.live <= e.live
    ensures Arena.Inv(f) && f.marks == r.marks && f.live == if ok then e.live else r.live
  {
    if ok then Commit(e) else Commit(Backtrack(e))
  }

  // One attempt of the parser, as the direct parser makes it.

  function Use(p: Parser, b: seq<bool>, i: nat, env: Env, sz: SizeOf, r: Run): (e: Option<Run>)
    requires WellFormed(p) && i <= |b| && Arena.Inv(r)
    ensures Keeps(r, e)
    decreases p, 0, 0
  {
    match p
    case PInt(_, _) => Some(r)
    case PStruct(fs) => UseFields(fs, b, i, env, sz, r)
    case PWrap(before, q, _) =>
      var s := ParseConsts(before, b, i, false);
      if s.ok then Use(q, b, s.at, env, sz, r) else Some(r)
    case PChoice(alts) => UseChoice(alts, b, i, env, sz, r)
    case PSelect(dep, cases) => UseCases(cases, Dep(env, dep), b, i, env, sz, r)
    case PMany(q, atLeastOne, sep) => UseArray(q, atLeastOne, sep, b, i, env, sz, r)
    case PFixed(n, q) => UseN(q, n, b, i, env, sz, r)
    case PLength(dep, q) => UseLength(q, Dep(env, dep), b, i, env, sz, r)
    case POptional(q) => UseOptional(q, b, i, env, sz, r)
  }

  function UseChoice(alts: Alts, b: seq<bool>, i: nat, env: Env, sz: SizeOf, r: Run): (e: Option<Run>)
    requires AltsWellFormed(alts) && i <= |b| && Arena.Inv(r)
    ensures Keeps(r, e)
    decreases alts, 1, 0
  {
    match UseAlts(alts, b, i, env, sz, Save(r))
    case None => None
    case Some(e) => Some(Commit(e))
  }

  function UseArray(q: Parser, atLeastOne: bool, sep: Option<Const>, b: seq<bool>, i: nat, env: Env, sz: SizeOf, r: Run)
    : (e: Option<Run>)
    requires WellFormed(q) && Advances(q) && (sep.Some? ==> ConstWellFormed(sep.value)) && i <= |b| && Arena.Inv(r)
    ensures Keeps(r, e)
    decreases q, 2, 0
  {
    match UseMany(q, sep, b, i, env, sz, true, r)
    case None => None
    case Some(e) =>
      var n := |ParseMany(q, sep, b, i, env, true).0|;
      if atLeastOne && n == 0 then Some(e) else RequestBehind(r, e, Bytes(n, q, sz))
  }

  function UseLength(q: Parser, n: nat, b: seq<bool>, i: nat, env: Env, sz: SizeOf, r: Run): (e: Option<Run>)
    requires WellFormed(q) && i <= |b| && Arena.Inv(r)
    ensures Keeps(r, e)
    decreases q, 2, 0
  {
    match Request(r, Bytes(n, q, sz))
    case None => None
    case Some(e) => UseN(q, n, b, i, env, sz, e)
  }

  function UseOptional(q: Parser, b: seq<bool>, i: nat, env: Env, sz: SizeOf, r: Run): (e: Option<Run>)
    requires WellFormed(q) && i <= |b| && Arena.Inv(r)
    ensures Keeps(r, e)
    decreases q, 2, 0
  {
    match Use(q, b, i, env, sz, Save(r))
    case None => None
    case Some(e) => Some(Settle(r, e, Parse(q, b, i, env).Ok?))
  }

  function UseFields(fs: Fields, b: seq<bool>, i: nat, env: Env, sz: SizeOf, r: Run): (e: Option<Run>)
    requires FieldsWellFormed(fs) && i <= |b| && Arena.Inv(r)
    ensures Keeps(r, e)
    decreases fs, 0, 0
  {
    match fs
    case FNil => Some(r)
    case FConst(c, rest) =>
      var s := ParseConst(c, b, i, false);
      if s.ok then UseFields(rest, b, s.at, env, sz, r) else Some(r)
    case FField(p, rest) =>
      (match Use(p, b, i, env, sz, r)
       case None => None
       case Some(e) =>
         var s := Parse(p, b, i, env);
         if s.Ok? then UseFields(rest, b, s.at, env, sz, e) else Some(e))
    case FDep(x, w, c, rest) =>
      var s := ParseInt(w, c, b, i);
      if s.Ok? then UseFields(rest, b, s.at, env[x := s.value.n], sz, r) else Some(r)
  }

  /** The mark of the choice is on top; a failed alternative restores it. */
  function UseAlts(alts: Alts, b: seq<bool>, i: nat, env: Env, sz: SizeOf, r: Run): (e: Option<Run>)
    requires AltsWellFormed(alts) && i <= |b| && Arena.Inv(r)
    requires r.marks != [] && r.marks[|r.marks| - 1].live == |r.live|
    ensures Keeps(r, e)
    decreases alts, 0, 0
  {
    if alts.ANil? then Some(r) else
    match Use(alts.head, b, i, env, sz, r)
    case None => None
    case Some(e) => if Parse(alts.head, b, i, env).Ok? then Some(e) else UseAlts(alts.tail, b, i, env, sz, Backtrack(e))
  }

  function UseCases(cases: Cases, d: nat, b: seq<bool>, i: nat, env: Env, sz: SizeOf, r: Run): (e: Option<Run>)
    requires CasesWellFormed(cases) && i <= |b| && Arena.Inv(r)
    ensures Keeps(r, e)
    decreases cases, 0, 0
  {
    if cases.SNil? then Some(r)
    else if cases.value == d then Use(cases.head, b, i, env, sz, r)
    else UseCases(cases.tail, d, b, i, env, sz, r)
  }

  /** The rounds of a repetition, the failed one included, before its array is allocated. */
  function UseMany(p: Parser, sep: Option<Const>, b: seq<bool>, i: nat, env: Env, sz: SizeOf, first: bool, r: Run)
    : (e: Option<Run>)
    requires WellFormed(p) && Advances(p) && (sep.Some? ==> ConstWellFormed(sep.value)) && i <= |b| && Arena.Inv(r)
    ensures Keeps(r, e)
    decreases p, 1, |b| - i
  {
    var s := Separator(sep, b, i, first);
    if !s.ok then Some(Settle(r, Save(r), false)) else
    match Use(p, b, s.at, env, sz, Save(r))
    case None => None
    case Some(e) =>
      var d := Parse(p, b, s.at, env);
      var f := Settle(r, e, d.Ok?);
      if d.Ok? then UseMany(p, sep, b, d.at, env, sz, false, f) else Some(f)
  }

  function UseN(p: Parser, n: nat, b: seq<bool>, i: nat, env: Env, sz: SizeOf, r: Run): (e: Option<Run>)
    requires WellFormed(p) && i <= |b| && Arena.Inv(r)
    ensures Keeps(r, e)
    decreases p, 1, n
  {
    if n == 0 then Some(r) else
    match Use(p, b, i, env, sz, r)
    case None => None
    case Some(e) =>
      var d := Parse(p, b, i, env);
      if d.Ok? then UseN(p, n - 1, b, d.at, env, sz, e) else Some(e)
  }

  // The arrays of a value, in the order in which their blocks are handed out: an n_of gets its
  // block before its elements are parsed, a repetition afterwards.

  function Arrays(p: Parser, v: Value, sz: SizeOf): seq<nat>
    decreases p, 0, 0
  {
    match p
    case PInt(_, _) => []
    case PStruct(fs) => if v.VStruct? then ArraysFields(fs, v.fields, sz) else []
    case PWrap(_, q, _) => Arrays(q, v, sz)
    case PChoice(alts) => if v.VTagged? then ArraysAlts(alts, v.tag, v.v, sz) else []
    case PSelect(_, cases) => if v.VTagged? then ArraysCases(cases, v.tag, v.v, sz) else []
    case PMany(q, _, _) => if v.VList? then ArraysElems(q, v.elems, sz) + [Bytes(|v.elems|, q, sz)] else []
    case PFixed(_, q) => if v.VList? then ArraysElems(q, v.elems, sz) else []
    case PLength(_, q) => if v.VList? then [Bytes(|v.elems|, q, sz)] + ArraysElems(q, v.elems, sz) else []
    case POptional(q) => if v.VPresent? then Arrays(q, v.v, sz) else []
  }

  function ArraysFields(fs: Fields, vs: seq<Value>, sz: SizeOf): seq<nat>
    decreases fs, 0, 0
  {
    match fs
    case FNil => []
    case FConst(_, rest) => ArraysFields(rest, vs, sz)
    case FField(p, rest) => if vs == [] then [] else Arrays(p, vs[0], sz) + ArraysFields(rest, vs[1..], sz)
    case FDep(_, _, _, rest) => ArraysFields(rest, vs, sz)
  }

  function ArraysAlts(alts: Alts, tag: nat, v: Value, sz: SizeOf): seq<nat>
    decreases alts, 0, 0
  {
    if alts.ANil? then [] else if tag == 0 then Arrays(alts.head, v, sz) else ArraysAlts(alts.tail, tag - 1, v, sz)
  }

  function ArraysCases(cases: Cases, tag: nat, v: Value, sz: SizeOf): seq<nat>
    decreases cases, 0, 0
  {
    if cases.SNil? then [] else if tag == 0 then Arrays(cases.head, v, sz) else ArraysCases(cases.tail, tag - 1, v, sz)
  }

  function ArraysElems(p: Parser, vs: seq<Value>, sz: SizeOf): seq<nat>
    decreases p, 1, |vs|
  {
    if vs == [] then [] else Arrays(p, vs[0], sz) + ArraysElems(p, vs[1..], sz)
  }

  function SizesOf(live: seq<Arena.Block>): (s: seq<nat>)
    ensures |s| == |live|
  {
    seq(|live|, k requires 0 <= k < |live| => live[k].size)
  }

  /** The blocks added to those of `r` are the arrays `sizes`. */
  ghost predicate Added(r: Run, e: Run, sizes: seq<nat>) {
    SizesOf(e.live) == SizesOf(r.live) + sizes
  }

  lemma AddedTwice(r: Run, e: Run, f: Run, s: seq<nat>, t: seq<nat>)
    requires Added(r, e, s) && Added(e, f, t)
    ensures Added(r, f, s + t)
  {
    assert (SizesOf(r.live) + s) + t == SizesOf(r.live) + (s + t);
  }

  lemma AddedNothing(r: Run, e: Run)
    requires e.live == r.live
    ensures Added(r, e, [])
  {
  }

  lemma AddedRequest(r: Run, size: nat)
    requires Arena.Inv(r) && Request(r, size).Some?
    ensures Added(r, Request(r, size).value, [size])
  {
    var e := Request(r, size).value;
    assert e.live == r.live + [e.live[|r.live|]];
  }

  lemma SameBlocks(r: Run, s: Run, e: Run, f: Run, sizes: seq<nat>)
    requires Added(r, e, sizes) && s.live == r.live && f.live == e.live
    ensures Added(s, f, sizes)
  {
  }

  /** Whenever the parser succeeds, the blocks it has added to the live ones are the arrays of the
      value it returns; what failed attempts allocated on the way has been given up. */
  lemma {:induction false} UseAdds(p: Parser, b: seq<bool>, i: nat, env: Env, sz: SizeOf, r: Run)
    requires WellFormed(p) && i <= |b| && Arena.Inv(r)
    requires Use(p, b, i, env, sz, r).Some? && Parse(p, b, i, env).Ok?
    ensures Added(r, Use(p, b, i, env, sz, r).value, Arrays(p, Parse(p, b, i, env).value, sz))
    decreases p, 0, 0
  {
    hide Added, Arena.Inv, UseFields, UseChoice, UseCases, UseArray, UseN, UseLength, UseOptional, ParseFields,
      ParseAlts, ParseCases, ParseMany, ParseN, ArraysFields, ArraysAlts, ArraysCases, ArraysElems;
    match p
    case PInt(_, _) => AddedNothing(r, r);
    case PStruct(fs) => FieldsAdd(fs, b, i, env, sz, r);
    case PWrap(before, q, _) => UseAdds(q, b, ParseConsts(before, b, i, false).at, env, sz, r);
    case PChoice(alts) => ChoiceAdds(alts, b, i, env, sz, r);
    case PSelect(dep, cases) => CasesAdd(cases, 0, Dep(env, dep), b, i, env, sz, r);
    case PMany(q, atLeastOne, sep) => ArrayAdds(q, atLeastOne, sep, b, i, env, sz, r);
    case PFixed(n, q) => NAdds(q, n, b, i, env, sz, r);
    case PLength(dep, q) => LengthAdds(q, Dep(env, dep), b, i, env, sz, r);
    case POptional(q) => OptionalAdds(q, b, i, env, sz, r);
  }

  lemma {:induction false} ChoiceAdds(alts: Alts, b: seq<bool>, i: nat, env: Env, sz: SizeOf, r: Run)
    requires AltsWellFormed(alts) && i <= |b| && Arena.Inv(r)
    requires UseChoice(alts, b, i, env, sz, r).Some? && ParseAlts(alts, 0, b, i, env).Ok?
    ensures var v := ParseAlts(alts, 0, b, i, env).value;
            v.VTagged? && Added(r, UseChoice(alts, b, i, env, sz, r).value, ArraysAlts(alts, v.tag, v.v, sz))
    decreases alts, 1, 0
  {
    hide Added, Arena.Inv, UseAlts, ParseAlts, ArraysAlts;
    AltsAdd(alts, 0, b, i, env, sz, Save(r));
    var e, v := UseAlts(alts, b, i, env, sz, Save(r)).value, ParseAlts(alts, 0, b, i, env).value;
    SameBlocks(Save(r), r, e, Commit(e), ArraysAlts(alts, v.tag, v.v, sz));
  }

  lemma {:induction false} ArrayAdds(
      q: Parser, atLeastOne: bool, sep: Option<Const>, b: seq<bool>, i: nat, env: Env, sz: SizeOf, r: Run)
    requires WellFormed(q) && Advances(q) && (sep.Some? ==> ConstWellFormed(sep.value)) && i <= |b| && Arena.Inv(r)
    requires UseArray(q, atLeastOne, sep, b, i, env, sz, r).Some?
    requires atLeastOne ==> ParseMany(q, sep, b, i, env, true).0 != []
    ensures var vs := ParseMany(q, sep, b, i, env, true).0;
            Added(r, UseArray(q, atLeastOne, sep, b, i, env, sz, r).value,
                  ArraysElems(q, vs, sz) + [Bytes(|vs|, q, sz)])
    decreases q, 2, 0
  {
    hide Added, Arena.Inv, UseMany, ParseMany, ArraysElems;
    ManyAdds(q, sep, b, i, env, sz, true, r);
    var e, vs := UseMany(q, sep, b, i, env, sz, true, r).value, ParseMany(q, sep, b, i, env, true).0;
    AddedRequest(e, Bytes(|vs|, q, sz));
    AddedTwice(r, e, Request(e, Bytes(|vs|, q, sz)).value, ArraysElems(q, vs, sz), [Bytes(|vs|, q, sz)]);
  }

  lemma {:induction false} LengthAdds(q: Parser, n: nat, b: seq<bool>, i: nat, env: Env, sz: SizeOf, r: Run)
    requires WellFormed(q) && i <= |b| && Arena.Inv(r)
    requires UseLength(q, n, b, i, env, sz, r).Some? && ParseN(q, n, b, i, env).Ok?
    ensures var vs := ParseN(q, n, b, i, env).value;
            Added(r, UseLength(q, n, b, i, env, sz, r).value, [Bytes(|vs|, q, sz)] + ArraysElems(q, vs, sz))
    decreases q, 2, 0
  {
    hide Added, Arena.Inv, UseN, ParseN, ArraysElems;
    var e, vs := Request(r, Bytes(n, q, sz)).value, ParseN(q, n, b, i, env).value;
    AddedRequest(r, Bytes(n, q, sz));
    NAdds(q, n, b, i, env, sz, e);
    AddedTwice(r, e, UseN(q, n, b, i, env, sz, e).value, [Bytes(n, q, sz)], ArraysElems(q, vs, sz));
  }

  lemma {:induction false} OptionalAdds(q: Parser, b: seq<bool>, i: nat, env: Env, sz: SizeOf, r: Run)
    requires WellFormed(q) && i <= |b| && Arena.Inv(r) && UseOptional(q, b, i, env, sz, r).Some?
    ensures var d := Parse(q, b, i, env);
            Added(r, UseOptional(q, b, i, env, sz, r).value, if d.Ok? then Arrays(q, d.value, sz) else [])
    decreases q, 2, 0
  {
    hide Added, Arena.Inv, Use, Parse, Arrays;
    var e, d := Use(q, b, i, env, sz, Save(r)).value, Parse(q, b, i, env);
    if d.Ok? {
      UseAdds(q, b, i, env, sz, Save(r));
      SameBlocks(Save(r), r, e, Settle(r, e, true), Arrays(q, d.value, sz));
    } else {
      AddedNothing(r, Settle(r, e, false));
    }
  }

  lemma {:induction false} FieldsAdd(fs: Fields, b: seq<bool>, i: nat, env: Env, sz: SizeOf, r: Run)
    requires FieldsWellFormed(fs) && i <= |b| && Arena.Inv(r)
    requires UseFields(fs, b, i, env, sz, r).Some? && ParseFields(fs, b, i, env).Ok?
    ensures Added(r, UseFields(fs, b, i, env, sz, r).value, ArraysFields(fs, ParseFields(fs, b, i, env).value, sz))
    decreases fs, 0, 0
  {
    hide Added, Arena.Inv;
    match fs
    case FNil => AddedNothing(r, r);
    case FConst(c, rest) => FieldsAdd(rest, b, ParseConst(c, b, i, false).at, env, sz, r);
    case FField(p, rest) =>
      var d, e := Parse(p, b, i, env), Use(p, b, i, env, sz, r).value;
      var vs := ParseFields(rest, b, d.at, env).value;
      assert ParseFields(fs, b, i, env).value[1..] == vs;
      UseAdds(p, b, i, env, sz, r);
      FieldsAdd(rest, b, d.at, env, sz, e);
      AddedTwice(r, e, UseFields(rest, b, d.at, env, sz, e).value, Arrays(p, d.value, sz), ArraysFields(rest, vs, sz));
    case FDep(x, w, c, rest) =>
      var d := ParseInt(w, c, b, i);
      FieldsAdd(rest, b, d.at, env[x := d.value.n], sz, r);
  }

  lemma {:induction false} AltsAdd(alts: Alts, tag: nat, b: seq<bool>, i: nat, env: Env, sz: SizeOf, r: Run)
    requires AltsWellFormed(alts) && i <= |b| && Arena.Inv(r)
    requires r.marks != [] && r.marks[|r.marks| - 1].live == |r.live|
    requires UseAlts(alts, b, i, env, sz, r).Some? && ParseAlts(alts, tag, b, i, env).Ok?
    ensures var v := ParseAlts(alts, tag, b, i, env).value;
            v.VTagged? && v.tag >= tag
            && Added(r, UseAlts(alts, b, i, env, sz, r).value, ArraysAlts(alts, v.tag - tag, v.v, sz))
    decreases alts, 0, 0
  {
    hide Added, Arena.Inv;
    if Parse(alts.head, b, i, env).Ok? {
      UseAdds(alts.head, b, i, env, sz, r);
    } else {
      var e := Backtrack(Use(alts.head, b, i, env, sz, r).value);
      AltsAdd(alts.tail, tag + 1, b, i, env, sz, e);
      var f, v := UseAlts(alts.tail, b, i, env, sz, e).value, ParseAlts(alts.tail, tag + 1, b, i, env).value;
      SameBlocks(e, r, f, f, ArraysAlts(alts.tail, v.tag - tag - 1, v.v, sz));
    }
  }

  lemma {:induction false} CasesAdd(cases: Cases, tag: nat, d: nat, b: seq<bool>, i: nat, env: Env, sz: SizeOf, r: Run)
    requires CasesWellFormed(cases) && i <= |b| && Arena.Inv(r)
    requires UseCases(cases, d, b, i, env, sz, r).Some? && ParseCases(cases, tag, d, b, i, env).Ok?
    ensures var v := ParseCases(cases, tag, d, b, i, env).value;
            v.VTagged? && v.tag >= tag
            && Added(r, UseCases(cases, d, b, i, env, sz, r).value, ArraysCases(cases, v.tag - tag, v.v, sz))
    decreases cases, 0, 0
  {
    hide Added, Arena.Inv;
    if cases.value == d {
      UseAdds(cases.head, b, i, env, sz, r);
    } else {
      CasesAdd(cases.tail, tag + 1, d, b, i, env, sz, r);
    }
  }

  lemma {:induction false} ManyAdds(
      p: Parser, sep: Option<Const>, b: seq<bool>, i: nat, env: Env, sz: SizeOf, first: bool, r: Run)
    requires WellFormed(p) && Advances(p) && (sep.Some? ==> ConstWellFormed(sep.value)) && i <= |b| && Arena.Inv(r)
    requires UseMany(p, sep, b, i, env, sz, first, r).Some?
    ensures Added(r, UseMany(p, sep, b, i, env, sz, first, r).value,
                  ArraysElems(p, ParseMany(p, sep, b, i, env, first).0, sz))
    decreases p, 1, |b| - i
  {
    hide Added, Arena.Inv, Parse, ParseMany, ParseConst, Use, Arrays;
    OneMoreParsed(p, sep, b, i, env, first);
    var s := Separator(sep, b, i, first);
    if s.ok && Parse(p, b, s.at, env).Ok? {
      var d, e := Parse(p, b, s.at, env), Use(p, b, s.at, env, sz, Save(r)).value;
      var next := Settle(r, e, true);
      var f := UseMany(p, sep, b, d.at, env, sz, false, next).value;
      var vs := ParseMany(p, sep, b, d.at, env, false).0;
      UseAdds(p, b, s.at, env, sz, Save(r));
      SameBlocks(Save(r), r, e, next, Arrays(p, d.value, sz));
      ManyAdds(p, sep, b, d.at, env, sz, false, next);
      AddedTwice(r, next, f, Arrays(p, d.value, sz), ArraysElems(p, vs, sz));
      assert ([d.value] + vs)[1..] == vs;
    } else {
      AddedNothing(r, UseMany(p, sep, b, i, env, sz, first, r).value);
    }
  }

  lemma {:induction false} NAdds(p: Parser, n: nat, b: seq<bool>, i: nat, env: Env, sz: SizeOf, r: Run)
    requires WellFormed(p) && i <= |b| && Arena.Inv(r)
    requires UseN(p, n, b, i, env, sz, r).Some? && ParseN(p, n, b, i, env).Ok?
    ensures Added(r, UseN(p, n, b, i, env, sz, r).value, ArraysElems(p, ParseN(p, n, b, i, env).value, sz))
    decreases p, 1, n
  {
    hide Added, Arena.Inv, Parse, Use, Arrays;
    if n == 0 {
      AddedNothing(r, r);
    } else {
      var d, e := Parse(p, b, i, env), Use(p, b, i, env, sz, r).value;
      var vs := ParseN(p, n - 1, b, d.at, env).value;
      UseAdds(p, b, i, env, sz, r);
      NAdds(p, n - 1, b, d.at, env, sz, e);
      AddedTwice(r, e, UseN(p, n - 1, b, d.at, env, sz, e).value, Arrays(p, d.value, sz), ArraysElems(p, vs, sz));
      assert ([d.value] + vs)[1..] == vs;
    }
  }

  /** Parse results are safe: when every request was served inside a pool, the blocks of the value
      a parser returns are exactly its arrays, they are live, inside their pools, apart from each
      other and from every block that was live before, and those are kept. */
  lemma ResultBlocksAreSafe(p: Parser, b: seq<bool>, i: nat, env: Env, sz: SizeOf, r: Run)
    requires WellFormed(p) && i <= |b| && Arena.Inv(r)
    requires Use(p, b, i, env, sz, r).Some? && Parse(p, b, i, env).Ok?
    ensures var e := Use(p, b, i, env, sz, r).value;
            && r.live <= e.live
            && SizesOf(e.live[|r.live|..]) == Arrays(p, Parse(p, b, i, env).value, sz)
            && (forall x | x in e.live :: Arena.Within(e.arena, x))
            && (forall j, k | 0 <= j < k < |e.live| :: Arena.Disjoint(e.live[j], e.live[k]))
  {
    UseAdds(p, b, i, env, sz, r);
    var e := Use(p, b, i, env, sz, r).value;
    assert SizesOf(e.live)[|r.live|..] == SizesOf(e.live[|r.live|..]);
  }
}
