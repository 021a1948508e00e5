/** The emitted printer as it runs: it writes a zero where a dependency field goes, remembers
    the position, prints the later fields, and at the end of the structure moves back to write
    the value the dependency variable then holds. */
module Printer {
  import opened Bits
  import opened OutStream
  import opened Grammar
  import opened PrintSpec
  import opened PrintWhen

  /** The position of a dependency field that was written as zero. */
  datatype Hole = Hole(name: string, at: nat, width: nat)

  // Back-patching on bit strings.

  function Overwrite(b: seq<bool>, at: nat, text: seq<bool>): (r: seq<bool>)
    requires at + |text| <= |b|
    ensures |r| == |b|
  {
    b[..at] + text + b[at + |text|..]
  }

  ghost predicate Inside(holes: seq<Hole>, end: nat) {
    forall h | h in holes :: h.at + h.width <= end
  }

  function PatchHoles(b: seq<bool>, holes: seq<Hole>, d: Env, junk: nat): (r: seq<bool>)
    requires Inside(holes, |b|)
    ensures |r| == |b|
    decreases |holes|
  {
    if holes == [] then b
    else
      var h := holes[0];
      PatchHoles(Overwrite(b, h.at, ToBits(Lookup(d, h.name, junk), h.width)), holes[1..], d, junk)
  }

  /** The dependency fields of a structure printed at bit `at`. */
  function Holes(fs: Fields, vs: seq<Value>, at: nat, junk: nat): seq<Hole>
    decreases fs
  {
    match fs
    case FNil => []
    case FConst(c, rest) => Holes(rest, vs, at + |PrintConst(c)|, junk)
    case FField(p, rest) =>
      if vs == [] || Print(p, vs[0], junk).None? then []
      else Holes(rest, vs[1..], at + |Print(p, vs[0], junk).value|, junk)
    case FDep(x, w, _, rest) => [Hole(x, at, w)] + Holes(rest, vs, at + w, junk)
  }

  /** `d0` gives zero for every dependency of the structure: the placeholders. */
  ghost predicate Zeroed(fs: Fields, d0: Env) {
    forall x | x in Declared(fs) :: x in d0 && d0[x] == 0
  }

  lemma {:induction false} HolesInside(fs: Fields, vs: seq<Value>, at: nat, d0: Env, junk: nat, end: nat)
    requires PrintFields(fs, vs, d0, junk).Some? && end >= at + |PrintFields(fs, vs, d0, junk).value|
    ensures Inside(Holes(fs, vs, at, junk), end)
  {
    match fs
    case FNil =>
    case FConst(c, rest) => HolesInside(rest, vs, at + |PrintConst(c)|, d0, junk, end);
    case FField(p, rest) => HolesInside(rest, vs[1..], at + |Print(p, vs[0], junk).value|, d0, junk, end);
    case FDep(x, w, _, rest) => HolesInside(rest, vs, at + w, d0, junk, end);
  }

  /** The length of the text of a structure, and whether it prints at all, do not depend on the
      values of its dependencies. */
  lemma {:induction false} SameShape(fs: Fields, vs: seq<Value>, d: Env, d0: Env, junk: nat)
    ensures var t, t0 := PrintFields(fs, vs, d, junk), PrintFields(fs, vs, d0, junk);
            t.Some? == t0.Some? && (t.Some? ==> |t.value| == |t0.value|)
  {
    match fs
    case FNil =>
    case FConst(c, rest) => SameShape(rest, vs, d, d0, junk);
    case FField(p, rest) => if vs != [] { SameShape(rest, vs[1..], d, d0, junk); }
    case FDep(x, w, _, rest) => SameShape(rest, vs, d, d0, junk);
  }

  /** Back-patching is invisible: writing zeros first and patching them in order of the fields
      leaves the text that in-order printing with the final values would have written. It holds
      at every bit position and for whatever was printed before the structure. */
  lemma {:induction false} BackPatching(pre: seq<bool>, fs: Fields, vs: seq<Value>, d: Env, d0: Env, junk: nat)
    requires PrintFields(fs, vs, d0, junk).Some?
    ensures PrintFields(fs, vs, d, junk).Some?
    ensures var t0, t := PrintFields(fs, vs, d0, junk).value, PrintFields(fs, vs, d, junk).value;
            var holes := Holes(fs, vs, |pre|, junk);
            Inside(holes, |pre + t0|) && PatchHoles(pre + t0, holes, d, junk) == pre + t
    decreases fs, 0
  {
    hide ToBits, Print, PrintConst, Overwrite;
    SameShape(fs, vs, d, d0, junk);
    var t0 := PrintFields(fs, vs, d0, junk).value;
    HolesInside(fs, vs, |pre|, d0, junk, |pre + t0|);
    match fs
    case FNil =>
    case FConst(c, rest) => SkipText(pre, PrintConst(c), rest, vs, d, d0, junk);
    case FField(p, rest) => SkipText(pre, Print(p, vs[0], junk).value, rest, vs[1..], d, d0, junk);
    case FDep(x, w, _, rest) =>
      var text, zero := ToBits(Lookup(d, x, junk), w), ToBits(Lookup(d0, x, junk), w);
      var m0 := PrintFields(rest, vs, d0, junk).value;
      assert Holes(fs, vs, |pre|, junk)[1..] == Holes(rest, vs, |pre| + w, junk);
      OverwriteFirst(pre, zero, m0, text);
      SkipText(pre, text, rest, vs, d, d0, junk);
  }

  lemma OverwriteFirst(pre: seq<bool>, zero: seq<bool>, m0: seq<bool>, text: seq<bool>)
    requires |zero| == |text|
    ensures Overwrite(pre + (zero + m0), |pre|, text) == pre + (text + m0)
  {
  }

  lemma SkipText(pre: seq<bool>, s: seq<bool>, rest: Fields, vs: seq<Value>, d: Env, d0: Env, junk: nat)
    requires PrintFields(rest, vs, d0, junk).Some?
    ensures PrintFields(rest, vs, d, junk).Some?
    ensures var t0, t := PrintFields(rest, vs, d0, junk).value, PrintFields(rest, vs, d, junk).value;
            var holes := Holes(rest, vs, |pre| + |s|, junk);
            Inside(holes, |pre + (s + t0)|) && PatchHoles(pre + (s + t0), holes, d, junk) == pre + (s + t)
    decreases rest, 1
  {
    hide PrintFields, Holes, PatchHoles;
    BackPatching(pre + s, rest, vs, d, d0, junk);
    var t0, t := PrintFields(rest, vs, d0, junk).value, PrintFields(rest, vs, d, junk).value;
    assert (pre + s) + t0 == pre + (s + t0);
    assert (pre + s) + t == pre + (s + t);
  }

  // The printer over the output stream. `env` holds the C variables in scope; the text printed
  // so far is everything before the cursor.

  ghost function Written(out: NailOutStream): (t: seq<bool>)
    requires out.Valid()
    reads out, out.data
    ensures |t| == out.At()
  {
    out.Buffer()[..out.At()]
  }

  lemma AppendText(before: seq<bool>, after: seq<bool>, at: nat, text: seq<bool>)
    requires at <= |before| && Patched(before, after, at, text)
    ensures after[..at + |text|] == before[..at] + text
  {
    assert after[..at] == before[..at];
    assert after[..at + |text|] == after[..at] + after[at..at + |text|];
  }

  lemma OverwriteText(before: seq<bool>, after: seq<bool>, at: nat, text: seq<bool>, end: nat)
    requires at + |text| <= end <= |before| && Patched(before, after, at, text)
    ensures after[..end] == Overwrite(before[..end], at, text)
  {
  }

  method Append(out: NailOutStream, value: nat, width: nat)
    requires out.Valid() && width <= 64
    modifies out, out.data
    ensures out.Valid() && (out.data == old(out.data) || fresh(out.data))
    ensures Written(out) == old(Written(out)) + ToBits(value, width)
  {
    hide BitsOf, ToBits, Patched;
    out.Write(value, width);
    AppendText(old(out.Buffer()), out.Buffer(), old(out.At()), ToBits(value, width));
  }

  method EmitConst(c: Const, out: NailOutStream)
    requires out.Valid() && ConstWellFormed(c)
    modifies out, out.data
    ensures out.Valid() && (out.data == old(out.data) || fresh(out.data))
    ensures Written(out) == old(Written(out)) + PrintConst(c)
    decreases c
  {
    hide Written;
    match c {
      case CInt(w, v) => Append(out, v, w);
      case CSeq(cs) => EmitConsts(cs, out);
      case CUnion(cs) =>
        if cs.CCons? {
          EmitConst(cs.head, out);
        } else {
          assert old(Written(out)) + [] == old(Written(out));
        }
      case CRepeat(d) => EmitConst(d, out);
    }
  }

  method EmitConsts(cs: Consts, out: NailOutStream)
    requires out.Valid() && ConstsWellFormed(cs)
    modifies out, out.data
    ensures out.Valid() && (out.data == old(out.data) || fresh(out.data))
    ensures Written(out) == old(Written(out)) + PrintConsts(cs)
    decreases cs
  {
    hide Written, PrintConst;
    if cs.CCons? {
      EmitConst(cs.head, out);
      EmitConsts(cs.tail, out);
      Associate(old(Written(out)), PrintConst(cs.head), PrintConsts(cs.tail));
    } else {
      assert old(Written(out)) + [] == old(Written(out));
    }
  }

  lemma Associate(a: seq<bool>, b: seq<bool>, c: seq<bool>)
    ensures (a + b) + c == a + (b + c) && a + [] == a
  {
  }

  /** Moves back to every hole in order and writes the value of its variable. */
  method Patch(holes: seq<Hole>, out: NailOutStream, env: Env, junk: nat, end: nat)
    requires out.Valid() && end <= |out.Buffer()| && Inside(holes, end)
    requires forall h | h in holes :: h.width <= 64
    modifies out, out.data
    ensures out.Valid() && (out.data == old(out.data) || fresh(out.data))
    ensures end <= |out.Buffer()|
    ensures out.Buffer()[..end] == PatchHoles(old(out.Buffer()[..end]), holes, env, junk)
  {
    hide BitsOf, ToBits, Patched, Overwrite;
    var k := 0;
    ghost var whole := PatchHoles(out.Buffer()[..end], holes, env, junk);
    assert holes[0..] == holes;
    while k < |holes|
      invariant k <= |holes| && out.Valid() && end <= |out.Buffer()|
      invariant out.data == old(out.data) || fresh(out.data)
      invariant Inside(holes[k..], end)
      invariant PatchHoles(out.Buffer()[..end], holes[k..], env, junk) == whole
    {
      var h := holes[k];
      assert h in holes && holes[k..][0] == h && holes[k..][1..] == holes[k + 1..];
      ghost var before := out.Buffer();
      out.Reposition(h.at);
      out.Write(Lookup(env, h.name, junk), h.width);
      OverwriteText(before, out.Buffer(), h.at, ToBits(Lookup(env, h.name, junk), h.width), end);
      PatchedGrows(before, out.Buffer(), h.at, ToBits(Lookup(env, h.name, junk), h.width));
      k := k + 1;
    }
  }

  lemma PatchedGrows(before: seq<bool>, after: seq<bool>, at: nat, text: seq<bool>)
    requires Patched(before, after, at, text)
    ensures |before| <= |after|
  {
  }

  lemma HolesNarrow(fs: Fields, vs: seq<Value>, at: nat, junk: nat)
    requires FieldsWellFormed(fs)
    ensures forall h | h in Holes(fs, vs, at, junk) :: h.width <= 64
  {
  }

  /** Printing a parsed value: None exactly when the emitted printer returns -1. */
  method Emit(p: Parser, v: Value, out: NailOutStream, env: Env, junk: nat) returns (ok: bool, env': Env)
    requires WellFormed(p) && out.Valid()
    modifies out, out.data
    ensures out.Valid() && (out.data == old(out.data) || fresh(out.data))
    ensures ok == Print(p, v, junk).Some?
    ensures ok <==> Printable(p, v)
    ensures ok ==> Written(out) == old(Written(out)) + Print(p, v, junk).value
    ensures ok ==> env' == env + Assigns(p, v)
    decreases p, 0
  {
    hide Written, PrintConst, PrintFields, PrintConsts, PrintAlts, PrintCases, PrintElems, AssignsFields, AssignsAlts,
      AssignsCases, AssignsElems, Holes, PatchHoles, ToBits, Violates, Printable;
    env' := env;
    ok := false;
    PrintsWhen(p, v, junk);
    ghost var start := Written(out);
    Associate(start, [], []);
    match p {
      case PInt(w, c) =>
        if v.VInt? && !Violates(c, v.n) {
          Append(out, v.n, w);
          ok := true;
        }
      case PStruct(fs) =>
        if v.VStruct? {
          ok, env' := EmitStruct(fs, v.fields, out, env, junk);
        }
      case PWrap(before, q, after) =>
        ok, env' := EmitWrap(before, q, after, v, out, env, junk);
      case PChoice(alts) =>
        if v.VTagged? {
          ok, env' := EmitAlts(alts, v.tag, v.v, out, env, junk);
        }
      case PSelect(dep, cases) =>
        if v.VTagged? {
          ok, env' := EmitCases(cases, v.tag, dep, v.v, out, env, junk);
        }
      case PMany(q, _, sep) =>
        if v.VList? {
          ok, env' := EmitElems(q, sep, v.elems, out, env, junk);
        }
      case PFixed(n, q) =>
        if v.VList? && |v.elems| == n {
          ok, env' := EmitElems(q, None, v.elems, out, env, junk);
        }
      case PLength(dep, q) =>
        if v.VList? {
          ok, env' := EmitElems(q, None, v.elems, out, env, junk);
          env' := env'[dep := |v.elems|];
        }
      case POptional(q) =>
        if v.VPresent? {
          ok, env' := Emit(q, v.v, out, env, junk);
        } else {
          ok := v.VAbsent?;
        }
    }
  }

  method EmitWrap(before: Consts, q: Parser, after: Consts, v: Value, out: NailOutStream, env: Env, junk: nat)
    returns (ok: bool, env': Env)
    requires WellFormed(PWrap(before, q, after)) && out.Valid()
    modifies out, out.data
    ensures out.Valid() && (out.data == old(out.data) || fresh(out.data))
    ensures var t := Print(PWrap(before, q, after), v, junk);
            ok == t.Some? && (ok ==> Written(out) == old(Written(out)) + t.value)
    ensures ok ==> env' == env + Assigns(q, v)
    decreases q, 1
  {
    hide Written, PrintConsts, Assigns, Printable;
    ghost var start := Written(out);
    EmitConsts(before, out);
    ok, env' := Emit(q, v, out, env, junk);
    if ok {
      EmitConsts(after, out);
      ghost var t := Print(q, v, junk).value;
      Associate(start, PrintConsts(before), t + PrintConsts(after));
      Associate(start + PrintConsts(before), t, PrintConsts(after));
    }
  }

  method EmitStruct(fs: Fields, vs: seq<Value>, out: NailOutStream, env: Env, junk: nat) returns (ok: bool, env': Env)
    requires FieldsWellFormed(fs) && out.Valid()
    modifies out, out.data
    ensures out.Valid() && (out.data == old(out.data) || fresh(out.data))
    ensures ok == Print(PStruct(fs), VStruct(vs), junk).Some?
    ensures ok ==> Written(out) == old(Written(out)) + Print(PStruct(fs), VStruct(vs), junk).value
    ensures ok ==> env' == env + Assigns(PStruct(fs), VStruct(vs))
    decreases fs, 1
  {
    hide BitsOf, PrintFields, AssignsFields, Holes, PatchHoles, FieldsWellFormed;
    ghost var start, d := Written(out), AssignsFields(fs, vs);
    ghost var d0: Env := map x | x in Declared(fs) :: 0;
    var holes, locals;
    ok, locals, holes := EmitFields(fs, vs, out, env - Declared(fs), junk, d0);
    SameShape(fs, vs, d, d0, junk);
    env' := env;
    if ok {
      var end := out.GetPos();
      BackPatching(start, fs, vs, d, d0, junk);
      HolesNarrow(fs, vs, |start|, junk);
      SameLookups(fs, vs, |start|, junk, start + PrintFields(fs, vs, d0, junk).value, holes, locals, d, env);
      Patch(holes, out, locals, junk, end);
      out.Reposition(end);
      env' := EndOfScope(env, locals, Declared(fs));
    }
  }

  /** After the structure its own variables are gone and those of the same name outside it are
      what they were. */
  function EndOfScope(env: Env, locals: Env, declared: set<string>): (r: Env)
    ensures forall a: Env :: locals == (env - declared) + a ==> r == env + (a - declared)
  {
    (map x | x in env && x in declared :: env[x]) + (locals - declared)
  }

  /** The variables of the structure hold what its own fields assigned. */
  lemma SameLookups(
      fs: Fields, vs: seq<Value>, at: nat, junk: nat, b: seq<bool>, holes: seq<Hole>, locals: Env, d: Env, env: Env)
    requires holes == Holes(fs, vs, at, junk) && Inside(holes, |b|)
    requires locals == (env - Declared(fs)) + d
    ensures PatchHoles(b, holes, locals, junk) == PatchHoles(b, holes, d, junk)
  {
    HolesDeclared(fs, vs, at, junk);
    PatchesAlike(b, holes, locals, d, junk);
  }

  lemma {:induction false} HolesDeclared(fs: Fields, vs: seq<Value>, at: nat, junk: nat)
    ensures forall h | h in Holes(fs, vs, at, junk) :: h.name in Declared(fs)
  {
    match fs
    case FNil =>
    case FConst(c, rest) => HolesDeclared(rest, vs, at + |PrintConst(c)|, junk);
    case FField(p, rest) =>
      if vs != [] && Print(p, vs[0], junk).Some? {
        HolesDeclared(rest, vs[1..], at + |Print(p, vs[0], junk).value|, junk);
      }
    case FDep(x, w, _, rest) => HolesDeclared(rest, vs, at + w, junk);
  }

  lemma {:induction false} PatchesAlike(b: seq<bool>, holes: seq<Hole>, d: Env, e: Env, junk: nat)
    requires Inside(holes, |b|)
    requires forall h | h in holes :: Lookup(d, h.name, junk) == Lookup(e, h.name, junk)
    ensures PatchHoles(b, holes, d, junk) == PatchHoles(b, holes, e, junk)
    decreases |holes|
  {
    if holes != [] {
      var h := holes[0];
      assert h in holes;
      PatchesAlike(Overwrite(b, h.at, ToBits(Lookup(d, h.name, junk), h.width)), holes[1..], d, e, junk);
    }
  }

  method EmitFields(fs: Fields, vs: seq<Value>, out: NailOutStream, env: Env, junk: nat, ghost d0: Env)
    returns (ok: bool, env': Env, holes: seq<Hole>)
    requires FieldsWellFormed(fs) && out.Valid() && Zeroed(fs, d0)
    modifies out, out.data
    ensures out.Valid() && (out.data == old(out.data) || fresh(out.data))
    ensures ok == PrintFields(fs, vs, d0, junk).Some?
    ensures ok ==> Written(out) == old(Written(out)) + PrintFields(fs, vs, d0, junk).value
    ensures ok ==> env' == env + AssignsFields(fs, vs)
    ensures ok ==> holes == Holes(fs, vs, old(out.At()), junk)
    decreases fs, 0
  {
    hide Print, PrintConst, ToBits, Written, Assigns, WellFormed, ConstWellFormed, Violates;
    ok, env', holes := true, env, [];
    ghost var start := Written(out);
    match fs {
      case FNil =>
        ok := vs == [];
        Associate(start, [], []);
      case FConst(c, rest) =>
        EmitConst(c, out);
        ok, env', holes := EmitFields(rest, vs, out, env, junk, d0);
        if ok { Associate(start, PrintConst(c), PrintFields(rest, vs, d0, junk).value); }
      case FField(p, rest) =>
        if vs == [] {
          ok := false;
        } else {
          ok, env' := Emit(p, vs[0], out, env, junk);
          if ok {
            ok, env', holes := EmitFields(rest, vs[1..], out, env', junk, d0);
            if ok {
              Associate(start, Print(p, vs[0], junk).value, PrintFields(rest, vs[1..], d0, junk).value);
              Compose(env, Assigns(p, vs[0]), AssignsFields(rest, vs[1..]));
            }
          }
        }
      case FDep(x, w, _, rest) =>
        var rewind := out.GetPos();
        Append(out, 0, w);
        ok, env', holes := EmitFields(rest, vs, out, env, junk, d0);
        holes := [Hole(x, rewind, w)] + holes;
        if ok { Associate(start, ToBits(0, w), PrintFields(rest, vs, d0, junk).value); }
    }
  }

  lemma Compose(a: Env, b: Env, c: Env)
    ensures (a + b) + c == a + (b + c)
  {
  }

  method EmitAlts(alts: Alts, tag: nat, v: Value, out: NailOutStream, env: Env, junk: nat) returns (ok: bool, env': Env)
    requires AltsWellFormed(alts) && out.Valid()
    modifies out, out.data
    ensures out.Valid() && (out.data == old(out.data) || fresh(out.data))
    ensures ok == PrintAlts(alts, tag, v, junk).Some?
    ensures ok ==> Written(out) == old(Written(out)) + PrintAlts(alts, tag, v, junk).value
    ensures ok ==> env' == env + AssignsAlts(alts, tag, v)
    decreases alts, 0
  {
    hide Written;
    ok, env' := true, env;
    Associate(Written(out), [], []);
    if alts.ACons? {
      if tag == 0 {
        ok, env' := Emit(alts.head, v, out, env, junk);
      } else {
        ok, env' := EmitAlts(alts.tail, tag - 1, v, out, env, junk);
      }
    }
  }

  method EmitCases(cases: Cases, tag: nat, dep: string, v: Value, out: NailOutStream, env: Env, junk: nat)
    returns (ok: bool, env': Env)
    requires CasesWellFormed(cases) && out.Valid()
    modifies out, out.data
    ensures out.Valid() && (out.data == old(out.data) || fresh(out.data))
    ensures ok == PrintCases(cases, tag, v, junk).Some?
    ensures ok ==> Written(out) == old(Written(out)) + PrintCases(cases, tag, v, junk).value
    ensures ok ==> env' == env + AssignsCases(cases, tag, dep, v)
    decreases cases, 0
  {
    hide Written;
    ok, env' := true, env;
    Associate(Written(out), [], []);
    if cases.SCons? {
      if tag == 0 {
        ok, env' := Emit(cases.head, v, out, env[dep := cases.value], junk);
        Compose(env, map[dep := cases.value], Assigns(cases.head, v));
        assert env[dep := cases.value] == env + map[dep := cases.value];
      } else {
        ok, env' := EmitCases(cases.tail, tag - 1, dep, v, out, env, junk);
      }
    }
  }

  method EmitElems(p: Parser, sep: Option<Const>, vs: seq<Value>, out: NailOutStream, env: Env, junk: nat)
    returns (ok: bool, env': Env)
    requires WellFormed(p) && (sep.Some? ==> ConstWellFormed(sep.value)) && out.Valid()
    modifies out, out.data
    ensures out.Valid() && (out.data == old(out.data) || fresh(out.data))
    ensures ok == PrintElems(p, sep, vs, true, junk).Some?
    ensures ok ==> Written(out) == old(Written(out)) + PrintElems(p, sep, vs, true, junk).value
    ensures ok ==> env' == env + AssignsElems(p, vs)
    decreases p, 1
  {
    hide Written, Print, PrintConst, PrintElems, Assigns, AssignsElems, WellFormed, ConstWellFormed;
    ghost var start := Written(out);
    var i := 0;
    ok, env' := true, env;
    assert vs[0..] == vs;
    Associate(start, [], []);
    while i < |vs| && ok
      invariant i <= |vs| && out.Valid() && (out.data == old(out.data) || fresh(out.data))
      invariant ok ==> StillToPrint(start, Written(out), PrintElems(p, sep, vs, true, junk),
                                    PrintElems(p, sep, vs[i..], i == 0, junk))
      invariant ok ==> env' + AssignsElems(p, vs[i..]) == env + AssignsElems(p, vs)
      invariant !ok ==> PrintElems(p, sep, vs, true, junk).None?
      decreases |vs| - i
    {
      ghost var before, e := Written(out), env';
      ElementText(p, sep, vs[i..], i == 0, junk);
      assert vs[i..][1..] == vs[i + 1..] && vs[i..][0] == vs[i];
      if i != 0 && sep.Some? {
        EmitConst(sep.value, out);
      } else {
        Associate(before, [], []);
      }
      ok, env' := Emit(p, vs[i], out, env', junk);
      if ok {
        Further(start, before, PrintElems(p, sep, vs, true, junk), PrintSeparator(sep, i == 0),
                Print(p, vs[i], junk).value, PrintElems(p, sep, vs[i + 1..], false, junk));
        Compose(e, Assigns(p, vs[i]), AssignsElems(p, vs[i + 1..]));
      }
      i := i + 1;
    }
    if ok {
      assert vs[i..] == [];
      NothingLeft(p, sep, i == 0, junk);
      Associate(Written(out), [], []);
    }
  }

  /** The text already printed and the text still to come make up the whole. */
  ghost predicate StillToPrint(start: seq<bool>, now: seq<bool>, whole: Text, rest: Text) {
    whole.Some? == rest.Some? && (whole.Some? ==> now + rest.value == start + whole.value)
  }

  lemma Further(start: seq<bool>, before: seq<bool>, whole: Text, s: seq<bool>, t: seq<bool>, rest: Text)
    requires StillToPrint(start, before, whole, Cat(Some(s), Cat(Some(t), rest)))
    ensures StillToPrint(start, (before + s) + t, whole, rest)
  {
    if rest.Some? {
      Associate(before, s, t + rest.value);
      Associate(before + s, t, rest.value);
    }
  }

  lemma ElementText(p: Parser, sep: Option<Const>, vs: seq<Value>, first: bool, junk: nat)
    requires vs != []
    ensures PrintElems(p, sep, vs, first, junk)
         == Cat(Some(PrintSeparator(sep, first)), Cat(Print(p, vs[0], junk), PrintElems(p, sep, vs[1..], false, junk)))
    ensures AssignsElems(p, vs) == Assigns(p, vs[0]) + AssignsElems(p, vs[1..])
  {
  }

  lemma NothingLeft(p: Parser, sep: Option<Const>, first: bool, junk: nat)
    ensures PrintElems(p, sep, [], first, junk) == Some([]) && AssignsElems(p, []) == map[]
  {
  }

  /** The buffer of a freshly printed value, when it is a whole number of bytes. */
  method EmitBuffer(p: Parser, v: Value, junk: nat) returns (r: Option<seq<byte>>)
    requires WellFormed(p)
    ensures r.Some? <==> Printable(p, v) && Print(p, v, junk).Some? && |Print(p, v, junk).value| % 8 == 0
    ensures r.Some? ==> BitsOf(r.value) == Print(p, v, junk).value
  {
    hide Print, BitsOf;
    var out := new NailOutStream(4096);
    assert Written(out) == [];
    var ok, _ := Emit(p, v, out, map[], junk);
    r := None;
    if ok {
      assert [] + Print(p, v, junk).value == Print(p, v, junk).value;
      if out.bitOffset == 0 {
        r := Some(out.data[..out.pos]);
        assert out.data[..out.pos] <= out.data[..];
        GrownBits(out.data[..out.pos], out.data[..]);
        assert BitsOf(out.data[..out.pos]) == Written(out);
      }
    }
  }
}
