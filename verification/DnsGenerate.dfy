/** The generated DNS printer as it runs: the names go through a stream of their own, and the four
    counts of the header are written as zeros first and patched once the sections are printed. */
module DnsGenerate {
  import opened Bits
  import opened OutStream
  import opened Grammar
  import opened PrintSpec
  import opened Printer
  import opened DnsMessage
  import opened DnsWire

  // Whole bytes.

  lemma WrittenBytes(out: NailOutStream)
    requires out.Valid() && out.bitOffset == 0
    ensures Written(out) == BitsOf(out.data[..out.pos])
  {
    hide BitsOf;
    assert out.data[..out.pos] <= out.data[..];
    GrownBits(out.data[..out.pos], out.data[..]);
  }

  lemma LabelWidth(l: Value)
    requires Print(LABEL, l, 0).Some?
    ensures |Print(LABEL, l, 0).value| % 8 == 0
  {
    var p := PLength("length", PInt(8, Any));
    var fs := FField(p, FNil);
    var all := FDep("length", 8, LABEL_LENGTH, fs);
    FieldsOfAnswer(all, l);
    var d := AssignsFields(all, l.fields);
    assert PrintFields(fs, l.fields, d, 0).Some?;
    assert Print(p, l.fields[0], 0).Some? && PrintFields(FNil, l.fields[1..], d, 0) == Some([]);
    ElemsWidth(l.fields[0].elems, true);
  }

  lemma {:induction false} LabelListWidth(vs: seq<Value>, first: bool)
    requires PrintElems(LABEL, None, vs, first, 0).Some?
    ensures |PrintElems(LABEL, None, vs, first, 0).value| % 8 == 0
    decreases |vs|
  {
    hide Print;
    if vs != [] {
      LabelWidth(vs[0]);
      LabelListWidth(vs[1..], false);
    }
  }

  lemma LabelsWidth(v: Value)
    requires Print(LABELS, v, 0).Some?
    ensures |Print(LABELS, v, 0).value| % 8 == 0
  {
    LabelListWidth(v.elems, true);
    assert PrintConsts(CNil) == [] && PrintConsts(ZERO) == ToBits(0, 8) + [];
  }

  // The emitted functions.

  /** A name is printed to a stream of its own, whose bytes are appended to the message. */
  method GenCompressed(v: Value, out: NailOutStream) returns (ok: bool)
    requires out.Valid() && out.bitOffset == 0
    modifies out, out.data
    ensures out.Valid() && (out.data == old(out.data) || fresh(out.data))
    ensures ok == Print(LABELS, v, 0).Some?
    ensures ok ==> out.bitOffset == 0 && Written(out) == old(Written(out)) + Print(LABELS, v, 0).value
  {
    hide Print, BitsOf;
    LabelsFormed();
    var decompressed := new NailOutStream(4096);
    assert Written(decompressed) == [];
    var printed, _ := Emit(LABELS, v, decompressed, map[], 0);
    ok := printed;
    if ok {
      LabelsWidth(v);
      assert [] + Print(LABELS, v, 0).value == Print(LABELS, v, 0).value;
      WrittenBytes(decompressed);
      WrittenBytes(out);
      BitsOfConcat(out.data[..out.pos], decompressed.data[..decompressed.pos]);
      out.AppendBytes(decompressed.data[..decompressed.pos]);
      WrittenBytes(out);
    }
  }

  lemma LabelsFormed()
    ensures WellFormed(LABELS)
  {
    LabelIsRegular();
  }

  method GenNamed(n: Named, p: Parser, out: NailOutStream) returns (ok: bool)
    requires IsSection(p) && WellFormed(p) && out.Valid() && out.bitOffset == 0
    modifies out, out.data
    ensures out.Valid() && (out.data == old(out.data) || fresh(out.data))
    ensures ok == NamedText(n, p).Some?
    ensures ok ==> out.bitOffset == 0 && Written(out) == old(Written(out)) + NamedText(n, p).value
  {
    hide Print, Written, WellFormed, IsSection, BitsOf;
    ghost var start := Written(out);
    ok := GenCompressed(n.name, out);
    if ok {
      var printed, _ := Emit(p, n.rest, out, map[], 0);
      ok := printed;
      if ok {
        RestWidth(n.rest, p);
        Associate(start, Print(LABELS, n.name, 0).value, Print(p, n.rest, 0).value);
      }
    }
  }

  method GenSection(ns: seq<Named>, p: Parser, out: NailOutStream) returns (ok: bool)
    requires IsSection(p) && WellFormed(p) && out.Valid() && out.bitOffset == 0
    modifies out, out.data
    ensures out.Valid() && (out.data == old(out.data) || fresh(out.data))
    ensures ok == SectionText(ns, p).Some?
    ensures ok ==> out.bitOffset == 0 && Written(out) == old(Written(out)) + SectionText(ns, p).value
  {
    hide Written, WellFormed, IsSection, NamedText, SectionText, BitsOf;
    ghost var start := Written(out);
    ok := true;
    var i := 0;
    assert ns[0..] == ns;
    Associate(start, [], []);
    while i < |ns| && ok
      invariant i <= |ns| && out.Valid() && (out.data == old(out.data) || fresh(out.data))
      invariant ok ==> out.bitOffset == 0
      invariant ok ==> StillToPrint(start, Written(out), SectionText(ns, p), SectionText(ns[i..], p))
      invariant !ok ==> SectionText(ns, p).None?
      decreases |ns| - i
    {
      ghost var before := Written(out);
      SectionStep(ns[i..], p);
      assert ns[i..][0] == ns[i] && ns[i..][1..] == ns[i + 1..];
      ok := GenNamed(ns[i], p, out);
      if ok {
        Associate(before, [], []);
        Further(start, before, SectionText(ns, p), [], NamedText(ns[i], p).value, SectionText(ns[i + 1..], p));
      }
      i := i + 1;
    }
    if ok {
      assert ns[i..] == [];
      SectionStep(ns[i..], p);
      Associate(Written(out), [], []);
    }
  }

  lemma SectionStep(ns: seq<Named>, p: Parser)
    ensures ns == [] ==> SectionText(ns, p) == Some([])
    ensures ns != [] ==> SectionText(ns, p) == Cat(Some([]), Cat(NamedText(ns[0], p), SectionText(ns[1..], p)))
  {
    if ns != [] {
      var t := Cat(NamedText(ns[0], p), SectionText(ns[1..], p));
      var none: seq<bool> := [];
      assert t.Some? ==> none + t.value == t.value;
    }
  }

  method GenBody(m: Message, out: NailOutStream) returns (ok: bool)
    requires out.Valid() && out.bitOffset == 0
    modifies out, out.data
    ensures out.Valid() && (out.data == old(out.data) || fresh(out.data))
    ensures ok == BodyText(m).Some?
    ensures ok ==> Written(out) == old(Written(out)) + BodyText(m).value
  {
    hide Written, SectionText, BitsOf;
    SectionsAreRegular();
    ghost var start := Written(out);
    ok := GenSection(m.questions, QUESTION, out);
    if ok {
      ok := GenSection(m.answers, ANSWER, out);
      if ok {
        ok := GenSection(m.authority, ANSWER, out);
        if ok {
          ok := GenSection(m.additional, ANSWER, out);
          if ok {
            FourParts(start, SectionText(m.questions, QUESTION).value, SectionText(m.answers, ANSWER).value,
                      SectionText(m.authority, ANSWER).value, SectionText(m.additional, ANSWER).value);
          }
        }
      }
    }
  }

  lemma FourParts(a: seq<bool>, b: seq<bool>, c: seq<bool>, d: seq<bool>, e: seq<bool>)
    ensures a + b + c + d + e == a + (b + (c + (d + e)))
  {
  }

  // The header: the fixed fields, then the four counts as dependencies of the sections.

  const FIXED: Fields :=
    FField(PInt(16, Any), FField(PInt(1, Any), FField(PInt(4, Any), FField(PInt(1, Any), FField(PInt(1, Any),
      FField(PInt(1, Any), FField(PInt(1, Any), FConst(CInt(3, 0), FField(PInt(4, Any), FNil)))))))))
  const COUNT_FIELDS: Fields :=
    FDep("questioncount", 16, Any, FDep("answercount", 16, Any,
      FDep("authoritycount", 16, Any, FDep("additionalcount", 16, Any, FNil))))

  function Sizes(m: Message): Env {
    map["questioncount" := |m.questions|, "answercount" := |m.answers|,
        "authoritycount" := |m.authority|, "additionalcount" := |m.additional|]
  }

  function Four(a: nat, b: nat, c: nat, d: nat): seq<bool> {
    ToBits(a, 16) + (ToBits(b, 16) + (ToBits(c, 16) + ToBits(d, 16)))
  }

  function Counts(m: Message): seq<bool> {
    Four(|m.questions|, |m.answers|, |m.authority|, |m.additional|)
  }

  function Then(fs: Fields, gs: Fields): Fields
    requires Flat(fs)
  {
    match fs
    case FNil => gs
    case FConst(c, rest) => FConst(c, Then(rest, gs))
    case FField(p, rest) => FField(p, Then(rest, gs))
    case FDep(x, w, c, rest) => FDep(x, w, c, Then(rest, gs))
  }

  lemma {:induction false} ThenPrints(fs: Fields, gs: Fields, vs: seq<Value>, ws: seq<Value>, d: Env)
    requires Flat(fs) && |vs| == FieldCount(fs)
    ensures PrintFields(Then(fs, gs), vs + ws, d, 0) == Cat(PrintFields(fs, vs, d, 0), PrintFields(gs, ws, d, 0))
  {
    hide Print, ToBits;
    match fs
    case FNil =>
      assert vs + ws == ws;
      EmptyCat(PrintFields(gs, ws, d, 0));
    case FConst(c, rest) =>
      ThenPrints(rest, gs, vs, ws, d);
      CatAssociates(Some(PrintConst(c)), PrintFields(rest, vs, d, 0), PrintFields(gs, ws, d, 0));
    case FField(p, rest) =>
      ThenPrints(rest, gs, vs[1..], ws, d);
      assert (vs + ws)[1..] == vs[1..] + ws;
      CatAssociates(Print(p, vs[0], 0), PrintFields(rest, vs[1..], d, 0), PrintFields(gs, ws, d, 0));
    case FDep(x, w, _, rest) =>
      ThenPrints(rest, gs, vs, ws, d);
      CatAssociates(Some(ToBits(Lookup(d, x, 0), w)), PrintFields(rest, vs, d, 0), PrintFields(gs, ws, d, 0));
  }

  lemma CatAssociates(a: Text, b: Text, c: Text)
    ensures Cat(Cat(a, b), c) == Cat(a, Cat(b, c))
  {
    if a.Some? && b.Some? && c.Some? { Associate(a.value, b.value, c.value); }
  }

  lemma EmptyCat(a: Text)
    ensures Cat(Some([]), a) == a
  {
    if a.Some? {
      var none: seq<bool> := [];
      assert none + a.value == a.value;
    }
  }

  lemma {:induction false} FlatCount(fs: Fields, vs: seq<Value>, d: Env)
    requires Flat(fs) && PrintFields(fs, vs, d, 0).Some?
    ensures |vs| == FieldCount(fs)
  {
    match fs
    case FNil =>
    case FConst(_, rest) => FlatCount(rest, vs, d);
    case FField(_, rest) => FlatCount(rest, vs[1..], d);
    case FDep(_, _, _, rest) => FlatCount(rest, vs, d);
  }

  /** Fields without nested structures assign nothing. */
  lemma {:induction false} FlatAssigns(fs: Fields, vs: seq<Value>)
    requires Flat(fs)
    ensures AssignsFields(fs, vs) == map[]
  {
    match fs
    case FNil =>
    case FConst(_, rest) => FlatAssigns(rest, vs);
    case FField(_, rest) => if vs != [] { FlatAssigns(rest, vs[1..]); }
    case FDep(_, _, _, rest) => FlatAssigns(rest, vs);
  }

  lemma HeaderFields()
    ensures Flat(FIXED) && FieldCount(FIXED) == 8 && Width(FIXED) == 32 && FieldsWellFormed(FIXED)
    ensures Flat(COUNTS) && FieldCount(COUNTS) == 4
    ensures HEADER == PStruct(Then(FIXED, COUNTS))
  {
    var last := FConst(CInt(3, 0), FField(PInt(4, Any), FNil));
    assert Flat(last) && FieldCount(last) == 1 && Width(last) == 7 && FieldsWellFormed(last);
    assert Then(last, COUNTS) == FConst(CInt(3, 0), FField(PInt(4, Any), COUNTS));
    var low := FField(PInt(1, Any), FField(PInt(1, Any), last));
    assert Flat(low) && FieldCount(low) == 3 && Width(low) == 9 && FieldsWellFormed(low);
    assert Then(low, COUNTS) == FField(PInt(1, Any), FField(PInt(1, Any), Then(last, COUNTS)));
    var mid := FField(PInt(1, Any), FField(PInt(1, Any), low));
    assert Flat(mid) && FieldCount(mid) == 5 && Width(mid) == 11 && FieldsWellFormed(mid);
    assert Then(mid, COUNTS) == FField(PInt(1, Any), FField(PInt(1, Any), Then(low, COUNTS)));
    var high := FField(PInt(1, Any), FField(PInt(4, Any), mid));
    assert Flat(high) && FieldCount(high) == 7 && Width(high) == 16 && FieldsWellFormed(high);
    assert Then(high, COUNTS) == FLAGS;
    assert FIXED == FField(PInt(16, Any), high);
  }

  lemma OneInt(n: nat, w: nat, rest: Fields, ws: seq<Value>, d: Env)
    ensures PrintFields(FField(PInt(w, Any), rest), [VInt(n)] + ws, d, 0)
         == Cat(Some(ToBits(n, w)), PrintFields(rest, ws, d, 0))
  {
    assert ([VInt(n)] + ws)[1..] == ws;
  }

  lemma CountsPrint(m: Message, d: Env)
    ensures var ws := [VInt(|m.questions|), VInt(|m.answers|), VInt(|m.authority|), VInt(|m.additional|)];
            PrintFields(COUNTS, ws, d, 0) == Some(Counts(m))
  {
    hide PrintFields, ToBits;
    var q, an, au, ad := |m.questions|, |m.answers|, |m.authority|, |m.additional|;
    var f4 := FField(PInt(16, Any), FNil);
    var f3 := FField(PInt(16, Any), f4);
    var f2 := FField(PInt(16, Any), f3);
    var none: seq<Value> := [];
    OneInt(ad, 16, FNil, none, d);
    OneInt(au, 16, f4, [VInt(ad)], d);
    OneInt(an, 16, f3, [VInt(au), VInt(ad)], d);
    OneInt(q, 16, f2, [VInt(an), VInt(au), VInt(ad)], d);
    assert [VInt(ad)] + none == [VInt(ad)];
    assert [VInt(au)] + [VInt(ad)] == [VInt(au), VInt(ad)];
    assert [VInt(an)] + [VInt(au), VInt(ad)] == [VInt(an), VInt(au), VInt(ad)];
    assert [VInt(q)] + [VInt(an), VInt(au), VInt(ad)] == [VInt(q), VInt(an), VInt(au), VInt(ad)];
    NoFields(d);
    var t := ToBits(ad, 16);
    assert t + [] == t;
  }

  lemma NoFields(d: Env)
    ensures PrintFields(FNil, [], d, 0) == Some([])
  {
  }

  lemma StructText(fs: Fields, vs: seq<Value>)
    requires Flat(fs)
    ensures Print(PStruct(fs), VStruct(vs), 0) == PrintFields(fs, vs, map[], 0)
  {
    FlatAssigns(fs, vs);
  }

  lemma {:induction false} ThenFlat(fs: Fields, gs: Fields)
    requires Flat(fs) && Flat(gs)
    ensures Flat(Then(fs, gs)) && FieldCount(Then(fs, gs)) == FieldCount(fs) + FieldCount(gs)
  {
    match fs
    case FNil =>
    case FConst(_, rest) => ThenFlat(rest, gs);
    case FField(_, rest) => ThenFlat(rest, gs);
    case FDep(_, _, _, rest) => ThenFlat(rest, gs);
  }

  lemma ThenText(fs: Fields, gs: Fields, vs: seq<Value>, ws: seq<Value>)
    requires Flat(fs) && Flat(gs) && |ws| == FieldCount(gs) && PrintFields(gs, ws, map[], 0).Some?
    ensures PrintFields(Then(fs, gs), vs + ws, map[], 0)
         == Cat(PrintFields(fs, vs, map[], 0), PrintFields(gs, ws, map[], 0))
  {
    if |vs| == FieldCount(fs) {
      ThenPrints(fs, gs, vs, ws, map[]);
    } else {
      ThenFlat(fs, gs);
      if PrintFields(fs, vs, map[], 0).Some? { FlatCount(fs, vs, map[]); }
      if PrintFields(Then(fs, gs), vs + ws, map[], 0).Some? { FlatCount(Then(fs, gs), vs + ws, map[]); }
    }
  }

  /** The header as printed in order: the fixed fields and the counts. */
  lemma HeaderText(m: Message)
    ensures Print(HEADER, Header(m), 0) == Cat(Print(PStruct(FIXED), VStruct(m.fixed), 0), Some(Counts(m)))
  {
    hide Print, PrintFields, Then, Counts;
    HeaderFields();
    var ws := [VInt(|m.questions|), VInt(|m.answers|), VInt(|m.authority|), VInt(|m.additional|)];
    CountsPrint(m, map[]);
    StructText(FIXED, m.fixed);
    ThenFlat(FIXED, COUNTS);
    StructText(Then(FIXED, COUNTS), m.fixed + ws);
    ThenText(FIXED, COUNTS, m.fixed, ws);
  }

  // Patching the counts.

  lemma {:induction false} PatchesBefore(b: seq<bool>, s: seq<bool>, holes: seq<Hole>, d: Env)
    requires Inside(holes, |b|)
    ensures Inside(holes, |b + s|) && PatchHoles(b + s, holes, d, 0) == PatchHoles(b, holes, d, 0) + s
    decreases |holes|
  {
    hide ToBits;
    if holes != [] {
      var h := holes[0];
      var t := ToBits(Lookup(d, h.name, 0), h.width);
      assert h in holes;
      assert Overwrite(b + s, h.at, t) == Overwrite(b, h.at, t) + s;
      PatchesBefore(Overwrite(b, h.at, t), s, holes[1..], d);
    }
  }

  function CountHoles(at: nat): seq<Hole> {
    [Hole("questioncount", at, 16), Hole("answercount", at + 16, 16),
     Hole("authoritycount", at + 32, 16), Hole("additionalcount", at + 48, 16)]
  }

  lemma CountHolesAre(at: nat)
    ensures Holes(COUNT_FIELDS, [], at, 0) == CountHoles(at)
  {
    var f4 := FDep("additionalcount", 16, Any, FNil);
    var f3 := FDep("authoritycount", 16, Any, f4);
    var f2 := FDep("answercount", 16, Any, f3);
    assert Holes(f4, [], at + 48, 0) == [Hole("additionalcount", at + 48, 16)];
    assert Holes(f3, [], at + 32, 0) == [Hole("authoritycount", at + 32, 16)] + Holes(f4, [], at + 48, 0);
    assert Holes(f2, [], at + 16, 0) == [Hole("answercount", at + 16, 16)] + Holes(f3, [], at + 32, 0);
    assert Holes(COUNT_FIELDS, [], at, 0) == [Hole("questioncount", at, 16)] + Holes(f2, [], at + 16, 0);
  }

  lemma CountFieldsText(d: Env)
    ensures PrintFields(COUNT_FIELDS, [], d, 0)
         == Some(Four(Lookup(d, "questioncount", 0), Lookup(d, "answercount", 0),
                      Lookup(d, "authoritycount", 0), Lookup(d, "additionalcount", 0)))
  {
    hide ToBits, Lookup;
    var f4 := FDep("additionalcount", 16, Any, FNil);
    var f3 := FDep("authoritycount", 16, Any, f4);
    var f2 := FDep("answercount", 16, Any, f3);
    var t := ToBits(Lookup(d, "additionalcount", 0), 16);
    assert t + [] == t;
    assert PrintFields(f4, [], d, 0) == Some(t);
    assert PrintFields(f3, [], d, 0) == Some(ToBits(Lookup(d, "authoritycount", 0), 16) + t);
    assert PrintFields(f2, [], d, 0).Some?;
  }

  /** Patching the four zeros puts the counts there and changes nothing else. */
  lemma CountsPatched(pre: seq<bool>, body: seq<bool>, m: Message)
    ensures var b := pre + Four(0, 0, 0, 0) + body;
            && Inside(CountHoles(|pre|), |b|)
            && PatchHoles(b, CountHoles(|pre|), Sizes(m), 0) == pre + Counts(m) + body
  {
    hide ToBits, PrintFields, Holes, PatchHoles;
    var d0: Env := map["questioncount" := 0, "answercount" := 0, "authoritycount" := 0, "additionalcount" := 0];
    CountFieldsText(d0);
    CountFieldsText(Sizes(m));
    CountHolesAre(|pre|);
    BackPatching(pre, COUNT_FIELDS, [], Sizes(m), d0, 0);
    PatchesBefore(pre + Four(0, 0, 0, 0), body, CountHoles(|pre|), Sizes(m));
  }

  /** The emitted printer of a message. It returns false exactly when a field violates its
      constraint; otherwise the buffer holds, behind what was there, the text of the message with
      the lengths of the sections as counts, and the cursor is behind it. */
  method GenDnspacket(m: Message, out: NailOutStream) returns (ok: bool)
    requires out.Valid() && out.bitOffset == 0
    modifies out, out.data
    ensures out.Valid() && (out.data == old(out.data) || fresh(out.data))
    ensures ok == MessageText(m).Some?
    ensures ok ==> Written(out) == old(Written(out)) + MessageText(m).value
    ensures ok ==> (forall n | n in m.questions :: QuestionInRange(n.rest))
                   && AnswersTaken(m.answers) && AnswersTaken(m.authority) && AnswersTaken(m.additional)
    ensures InRange(m) ==> ok && Written(out) == old(Written(out)) + BitsOf(Wire(m))
  {
    hide Print, BodyText, BitsOf, Header, Written, Counts, Four, InRange, Wire, QuestionInRange, AnswersTaken;
    ghost var start := Written(out);
    if MessageText(m).Some? { PrintedNumbers(m); }
    if InRange(m) { MessageOnWire(m); }
    HeaderText(m);
    ok := GenFixed(m, out);
    if ok {
      ghost var fixed := Print(PStruct(FIXED), VStruct(m.fixed), 0).value;
      ghost var pre := Written(out);
      var holes := Placeholders(out);
      ok := GenBody(m, out);
      if ok {
        PatchCounts(m, out, holes, pre, BodyText(m).value);
        MessageParts(start, fixed, Counts(m), BodyText(m).value);
      }
    }
  }

  method GenFixed(m: Message, out: NailOutStream) returns (ok: bool)
    requires out.Valid() && out.bitOffset == 0
    modifies out, out.data
    ensures out.Valid() && (out.data == old(out.data) || fresh(out.data))
    ensures var t := Print(PStruct(FIXED), VStruct(m.fixed), 0);
            ok == t.Some? && (ok ==> out.bitOffset == 0 && Written(out) == old(Written(out)) + t.value)
  {
    hide Print, PrintFields, BitsOf, Written;
    HeaderFields();
    StructText(FIXED, m.fixed);
    var printed, _ := Emit(PStruct(FIXED), VStruct(m.fixed), out, map[], 0);
    ok := printed;
    if ok { FlatWidth(FIXED, m.fixed, map[], 0); }
  }

  /** At the end of the message: back to every placeholder, and to the end again. */
  method PatchCounts(m: Message, out: NailOutStream, holes: seq<Hole>, ghost pre: seq<bool>, ghost body: seq<bool>)
    requires out.Valid() && holes == CountHoles(|pre|) && Written(out) == pre + Four(0, 0, 0, 0) + body
    modifies out, out.data
    ensures out.Valid() && (out.data == old(out.data) || fresh(out.data))
    ensures Written(out) == pre + Counts(m) + body
  {
    hide BitsOf, ToBits, PatchHoles, Counts, Four;
    var end := out.GetPos();
    CountsPatched(pre, body, m);
    Patch(holes, out, Sizes(m), 0, end);
    out.Reposition(end);
  }

  /** The zeros of one count, and where they are. */
  method Placeholder(name: string, out: NailOutStream) returns (h: Hole)
    requires out.Valid() && out.bitOffset == 0
    modifies out, out.data
    ensures out.Valid() && (out.data == old(out.data) || fresh(out.data)) && out.bitOffset == 0
    ensures h == Hole(name, |old(Written(out))|, 16) && Written(out) == old(Written(out)) + ToBits(0, 16)
  {
    hide ToBits, BitsOf, Patched;
    var rewind := out.GetPos();
    h := Hole(name, rewind, 16);
    Append(out, 0, 16);
    assert |Written(out)| == |old(Written(out))| + 16;
  }

  method Placeholders(out: NailOutStream) returns (holes: seq<Hole>)
    requires out.Valid() && out.bitOffset == 0
    modifies out, out.data
    ensures out.Valid() && (out.data == old(out.data) || fresh(out.data)) && out.bitOffset == 0
    ensures holes == CountHoles(|old(Written(out))|) && Written(out) == old(Written(out)) + Four(0, 0, 0, 0)
  {
    hide Written, ToBits, BitsOf;
    ghost var start, z := Written(out), ToBits(0, 16);
    var questions := Placeholder("questioncount", out);
    var answers := Placeholder("answercount", out);
    var authority := Placeholder("authoritycount", out);
    var additional := Placeholder("additionalcount", out);
    holes := [questions, answers, authority, additional];
    FourParts(start, z, z, z, z);
  }

  lemma MessageParts(start: seq<bool>, fixed: seq<bool>, counts: seq<bool>, body: seq<bool>)
    ensures start + fixed + counts + body == start + ((fixed + counts) + body)
  {
  }

  /** Printing to a stream of its own. A message in range is printed as its bytes on the wire, which
      parse back to it, to the last byte; and of the messages that are not, none is printed in which
      a type or class of a question or answer is out of range. */
  method PrintMessage(m: Message) returns (r: Option<seq<byte>>)
    ensures r.Some? <==> MessageText(m).Some? && |MessageText(m).value| % 8 == 0
    ensures r.Some? ==> BitsOf(r.value) == MessageText(m).value
    ensures InRange(m) ==> r == Some(Wire(m)) && ParseMessage(r.value) == Some((m, 8 * |r.value|))
    ensures r.Some? ==> (forall n | n in m.questions :: QuestionInRange(n.rest))
                        && AnswersTaken(m.answers) && AnswersTaken(m.authority) && AnswersTaken(m.additional)
  {
    hide MessageText, InRange, Wire, ParseMessage, BitsOf, QuestionInRange, AnswersTaken;
    var out := new NailOutStream(4096);
    assert Written(out) == [];
    var ok := GenDnspacket(m, out);
    r := None;
    if ok {
      assert [] + MessageText(m).value == MessageText(m).value;
      PrintedNumbers(m);
      if out.bitOffset == 0 {
        WrittenBytes(out);
        r := Some(out.data[..out.pos]);
      }
    }
    if InRange(m) {
      MessageOnWire(m);
      BitsDetermineBytes(r.value, Wire(m));
      WireParses(m, []);
      assert Wire(m) + [] == Wire(m);
    }
  }
}
