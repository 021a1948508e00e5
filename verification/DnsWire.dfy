/** DNS messages in plain numbers (sections 4.1.1 to 4.1.3 of RFC 1035): which messages the codec
    takes, and the bytes they are on the wire, by arithmetic on their fields and without the
    grammar. */
module DnsWire {
  import opened Bits
  import opened Grammar
  import opened DirectSpec
  import opened PrintSpec
  import opened PrintWhen
  import opened PrintParsed
  import opened PrintExactly
  import opened ParsePrinted
  import opened DnsName
  import opened DnsMessage

  // The messages of the codec.

  predicate Int(v: Value, bound: nat) {
    v.VInt? && v.n < bound
  }

  predicate ByteList(v: Value) {
    v.VList? && forall e | e in v.elems :: Int(e, 256)
  }

  /** 1 to 64 bytes. */
  predicate LabelInRange(l: Value) {
    l.VStruct? && |l.fields| == 1 && ByteList(l.fields[0]) && 1 <= |l.fields[0].elems| <= 64
  }

  predicate NameInRange(v: Value) {
    v.VList? && forall l | l in v.elems :: LabelInRange(l)
  }

  /** A type from 1 to 16, a class of 1 or 255. */
  predicate QuestionInRange(v: Value) {
    && v.VStruct? && |v.fields| == 2
    && v.fields[0].VInt? && 1 <= v.fields[0].n <= 16
    && v.fields[1].VInt? && (v.fields[1].n == 1 || v.fields[1].n == 255)
  }

  /** A type from 1 to 16, class 1, a time to live of four bytes, data of two bytes' length. */
  predicate AnswerInRange(v: Value) {
    && v.VStruct? && |v.fields| == 4
    && v.fields[0].VInt? && 1 <= v.fields[0].n <= 16
    && v.fields[1] == VInt(1)
    && Int(v.fields[2], 0x1_0000_0000)
    && ByteList(v.fields[3]) && |v.fields[3].elems| < 0x1_0000
  }

  /** Identifier, qr, opcode, aa, tc, rd, ra and response code, and the lengths of the sections. */
  predicate HeaderInRange(m: Message) {
    && |m.fixed| == 8
    && Int(m.fixed[0], 0x1_0000) && Int(m.fixed[1], 2) && Int(m.fixed[2], 16) && Int(m.fixed[3], 2)
    && Int(m.fixed[4], 2) && Int(m.fixed[5], 2) && Int(m.fixed[6], 2) && Int(m.fixed[7], 16)
    && |m.questions| < 0x1_0000 && |m.answers| < 0x1_0000
    && |m.authority| < 0x1_0000 && |m.additional| < 0x1_0000
  }

  predicate QuestionsInRange(ns: seq<Named>) {
    forall n | n in ns :: NameInRange(n.name) && QuestionInRange(n.rest)
  }

  predicate AnswersInRange(ns: seq<Named>) {
    forall n | n in ns :: NameInRange(n.name) && AnswerInRange(n.rest)
  }

  predicate InRange(m: Message) {
    && HeaderInRange(m) && QuestionsInRange(m.questions) && AnswersInRange(m.answers)
    && AnswersInRange(m.authority) && AnswersInRange(m.additional)
  }

  // These are the messages that fit the grammar.

  lemma SixteenBits()
    ensures Pow2(16) == 0x1_0000 && Pow2(32) == 0x1_0000_0000
  {
    assert Pow2(8) == 256;
    Pow2Add(8, 8);
    Pow2Add(16, 16);
  }

  lemma {:induction false} BytesFitWhen(vs: seq<Value>, env: Env)
    ensures AllFit(PInt(8, Any), vs, env, 0) <==> forall e | e in vs :: Int(e, 256)
  {
    if vs != [] {
      assert Pow2(8) == 256;
      assert Fits(PInt(8, Any), vs[0], env, 0) <==> Int(vs[0], 256);
      BytesFitWhen(vs[1..], env);
      FirstOrLater(vs);
      hide Fits, Int;
    }
  }

  lemma FirstOrLater<T>(vs: seq<T>)
    requires vs != []
    ensures forall e :: e in vs <==> e == vs[0] || e in vs[1..]
  {
    assert vs == [vs[0]] + vs[1..];
  }

  lemma LabelLength(l: Value)
    requires l.VStruct? && |l.fields| == 1 && l.fields[0].VList?
    ensures var d := AssignsFields(LABEL.fields, l.fields);
            "length" in d && d["length"] == |l.fields[0].elems|
  {
    var p := PLength("length", PInt(8, Any));
    var fs := FField(p, FNil);
    assert l.fields[1..] == [];
    assert AssignsFields(LABEL.fields, l.fields) == AssignsFields(fs, l.fields);
    assert AssignsFields(fs, l.fields) == Assigns(p, l.fields[0]) + AssignsFields(FNil, l.fields[1..]);
  }

  lemma LabelFitsInRange(l: Value)
    ensures Fits(LABEL, l, map[], 0) <==> LabelInRange(l)
  {
    if l.VStruct? {
      StructFits(LABEL.fields, l.fields);
      hide Fits;
      if |l.fields| == 1 && l.fields[0].VList? { LabelLength(l); }
      LabelFieldsInRange(l.fields, AssignsFields(LABEL.fields, l.fields));
    }
  }

  lemma LabelFieldsInRange(vs: seq<Value>, d: Env)
    requires |vs| == 1 && vs[0].VList? ==> "length" in d && d["length"] == |vs[0].elems|
    ensures FieldsFit(LABEL.fields, vs, map[], d, 0) <==> LabelInRange(VStruct(vs))
  {
    var p := PLength("length", PInt(8, Any));
    var fs, n := FField(p, FNil), Lookup(d, "length", 0) % Pow2(8);
    var env: Env := map["length" := n];
    assert Pow2(8) == 256;
    RejectedWhen(LABEL_LENGTH, n);
    assert FieldsFit(LABEL.fields, vs, map[], d, 0) <==> 1 <= n <= 64 && FieldsFit(fs, vs, env, d, 0);
    if vs != [] {
      assert FieldsFit(fs, vs, env, d, 0) <==> Fits(p, vs[0], env, 0) && vs[1..] == [];
      assert Fits(p, vs[0], env, 0) <==>
             vs[0].VList? && |vs[0].elems| == n && AllFit(PInt(8, Any), vs[0].elems, env, 0);
      if vs[0].VList? { BytesFitWhen(vs[0].elems, env); }
    }
  }

  lemma {:induction false} LabelsFitInRange(vs: seq<Value>)
    ensures AllFit(LABEL, vs, map[], 0) <==> forall l | l in vs :: LabelInRange(l)
  {
    hide Fits, LabelInRange;
    if vs != [] {
      LabelFitsInRange(vs[0]);
      LabelsFitInRange(vs[1..]);
      FirstOrLater(vs);
    }
  }

  lemma NameFitsInRange(v: Value)
    ensures NameFits(v) <==> NameInRange(v)
  {
    assert NameFits(v) == Fits(PMany(LABEL, false, None), v, map[], 0);
    if v.VList? { LabelsFitInRange(v.elems); }
  }

  /** One integer of a structure. */
  lemma IntFits(w: nat, c: Constraint, rest: Fields, vs: seq<Value>, d: Env)
    ensures FieldsFit(FField(PInt(w, c), rest), vs, map[], d, 0)
       <==> && vs != [] && vs[0].VInt? && vs[0].n < Pow2(w) && Allows(c, vs[0].n)
            && FieldsFit(rest, vs[1..], map[], d, 0)
  {
    if vs != [] && vs[0].VInt? { RejectedWhen(c, vs[0].n); }
    hide Pow2, Allows, Violates;
    assert vs != [] ==> (Fits(PInt(w, c), vs[0], map[], 0) <==>
                         vs[0].VInt? && vs[0].n < Pow2(w) && !Violates(c, vs[0].n));
  }

  lemma SmallConstraints(n: nat)
    ensures Allows(Single(Range(Some(1), Some(16))), n) <==> 1 <= n <= 16
    ensures Allows(OneOf([IntValue(1), IntValue(255)]), n) <==> n == 1 || n == 255
    ensures Allows(OneOf([IntValue(1)]), n) <==> n == 1
  {
    var two := [IntValue(1), IntValue(255)];
    assert IntValue(1) in two && IntValue(255) in two && IntValue(1) in [IntValue(1)];
  }

  lemma QuestionFitsInRange(v: Value)
    ensures Fits(QUESTION, v, map[], 0) <==> QuestionInRange(v)
  {
    if v.VStruct? {
      var vs := v.fields;
      StructFits(QUESTION.fields, vs);
      hide Fits;
      QuestionFieldsInRange(vs, AssignsFields(QUESTION.fields, vs));
    }
  }

  lemma QuestionFieldsInRange(vs: seq<Value>, d: Env)
    ensures FieldsFit(QUESTION.fields, vs, map[], d, 0) <==> QuestionInRange(VStruct(vs))
  {
    var rest := FField(PInt(16, OneOf([IntValue(1), IntValue(255)])), FNil);
    SixteenBits();
    IntFits(16, Single(Range(Some(1), Some(16))), rest, vs, d);
    if vs != [] {
      if vs[0].VInt? { SmallConstraints(vs[0].n); }
      if |vs| > 1 && vs[1].VInt? { SmallConstraints(vs[1].n); }
      hide Pow2, Allows, Fits;
      IntFits(16, OneOf([IntValue(1), IntValue(255)]), FNil, vs[1..], d);
    }
  }

  lemma StructFits(fs: Fields, vs: seq<Value>)
    ensures Fits(PStruct(fs), VStruct(vs), map[], 0) <==> FieldsFit(fs, vs, map[], AssignsFields(fs, vs), 0)
  {
    hide FieldsFit;
  }

  lemma RdataFitsInRange(vs: seq<Value>, d: Env)
    requires |vs| == 1 && vs[0].VList? ==> "rlength" in d && d["rlength"] == |vs[0].elems|
    ensures FieldsFit(RDATA, vs, map[], d, 0) <==> |vs| == 1 && ByteList(vs[0]) && |vs[0].elems| < 0x1_0000
  {
    var p := PLength("rlength", PInt(8, Any));
    var bytes, n := FField(p, FNil), Lookup(d, "rlength", 0) % Pow2(16);
    var env: Env := map["rlength" := n];
    SixteenBits();
    assert FieldsFit(RDATA, vs, map[], d, 0) == FieldsFit(bytes, vs, env, d, 0);
    if vs != [] {
      assert FieldsFit(bytes, vs, env, d, 0) <==> Fits(p, vs[0], env, 0) && vs[1..] == [];
      assert Fits(p, vs[0], env, 0) <==>
             vs[0].VList? && |vs[0].elems| == n && AllFit(PInt(8, Any), vs[0].elems, env, 0);
      if vs[0].VList? { BytesFitWhen(vs[0].elems, env); }
    }
  }

  /** The length of the data is what its variable ends up with. */
  lemma RdataLength(vs: seq<Value>)
    requires |vs| == 4 && vs[3].VList?
    ensures var d := AssignsFields(ANSWER.fields, vs);
            "rlength" in d && d["rlength"] == |vs[3].elems|
  {
    var p := PLength("rlength", PInt(8, Any));
    assert vs[1..][1..] == vs[2..] && vs[2..][1..] == vs[3..] && vs[3..][1..] == [] && vs[3..][0] == vs[3];
    assert "rlength" in Assigns(p, vs[3]) && Assigns(p, vs[3])["rlength"] == |vs[3].elems|;
    assert AssignsFields(RDATA, vs[3..]) == Assigns(p, vs[3]) + AssignsFields(FNil, vs[3..][1..]);
    assert AssignsFields(TTL, vs[2..]) == map[] + AssignsFields(RDATA, vs[3..]);
    assert AssignsFields(CLASS, vs[1..]) == map[] + AssignsFields(TTL, vs[2..]);
  }

  lemma AnswerFitsInRange(v: Value)
    ensures Fits(ANSWER, v, map[], 0) <==> AnswerInRange(v)
  {
    if v.VStruct? {
      var vs := v.fields;
      StructFits(ANSWER.fields, vs);
      hide Fits;
      AnswerFieldsInRange(vs, AssignsFields(ANSWER.fields, vs));
    }
  }

  lemma AnswerFieldsInRange(vs: seq<Value>, d: Env)
    requires d == AssignsFields(ANSWER.fields, vs)
    ensures FieldsFit(ANSWER.fields, vs, map[], d, 0) <==> AnswerInRange(VStruct(vs))
  {
    SixteenBits();
    if |vs| == 4 && vs[3].VList? { RdataLength(vs); }
    hide Pow2, Allows, Fits, FieldsFit, AssignsFields;
    IntFits(16, Single(Range(Some(1), Some(16))), CLASS, vs, d);
    if |vs| >= 3 {
      if vs[0].VInt? { SmallConstraints(vs[0].n); }
      if vs[1].VInt? { SmallConstraints(vs[1].n); }
      assert vs[1..][0] == vs[1] && vs[1..][1..] == vs[2..] && vs[2..][0] == vs[2] && vs[2..][1..] == vs[3..];
      IntFits(16, OneOf([IntValue(1)]), TTL, vs[1..], d);
      IntFits(32, Any, RDATA, vs[2..], d);
      RdataFitsInRange(vs[3..], d);
      AnyAllowed();
    } else {
      TooShort(vs, d);
    }
  }

  lemma AnyAllowed()
    ensures forall n :: Allows(Any, n)
  {
  }

  lemma TooShort(vs: seq<Value>, d: Env)
    requires |vs| < 3
    ensures !FieldsFit(ANSWER.fields, vs, map[], d, 0)
  {
    hide Fits;
    if |vs| == 1 { assert vs[1..] == []; }
    if |vs| == 2 { assert |vs[1..]| == 1 && vs[1..][1..] == []; }
    assert !FieldsFit(TTL, [], map[], d, 0);
  }

  lemma EntryFitsInRange(n: Named)
    ensures NameFits(n.name) && Fits(QUESTION, n.rest, map[], 0) <==> NameInRange(n.name) && QuestionInRange(n.rest)
    ensures NameFits(n.name) && Fits(ANSWER, n.rest, map[], 0) <==> NameInRange(n.name) && AnswerInRange(n.rest)
  {
    NameFitsInRange(n.name);
    QuestionFitsInRange(n.rest);
    AnswerFitsInRange(n.rest);
  }

  lemma SectionsFitInRange(ns: seq<Named>)
    ensures SectionFits(ns, QUESTION) <==> QuestionsInRange(ns)
    ensures SectionFits(ns, ANSWER) <==> AnswersInRange(ns)
  {
    hide Fits, NameFits, NameInRange, QuestionInRange, AnswerInRange;
    forall n | n in ns
      ensures NameFits(n.name) && Fits(QUESTION, n.rest, map[], 0) <==> NameInRange(n.name) && QuestionInRange(n.rest)
      ensures NameFits(n.name) && Fits(ANSWER, n.rest, map[], 0) <==> NameInRange(n.name) && AnswerInRange(n.rest)
    {
      EntryFitsInRange(n);
    }
  }

  // The header is a list of plain integers.

  /** Integers of any value and constants only. */
  predicate Plain(fs: Fields) {
    match fs
    case FNil => true
    case FConst(_, rest) => Plain(rest)
    case FField(p, rest) => p.PInt? && p.c == Any && Plain(rest)
    case FDep(_, _, _, _) => false
  }

  function Widths(fs: Fields): seq<nat>
    requires Plain(fs)
  {
    match fs
    case FNil => []
    case FConst(_, rest) => Widths(rest)
    case FField(p, rest) => [p.width] + Widths(rest)
  }

  predicate Hold(ws: seq<nat>, vs: seq<Value>) {
    |vs| == |ws| && forall k | 0 <= k < |ws| :: vs[k].VInt? && vs[k].n < Pow2(ws[k])
  }

  lemma {:induction false} PlainFits(fs: Fields, vs: seq<Value>, env: Env, d: Env)
    requires Plain(fs)
    ensures FieldsFit(fs, vs, env, d, 0) <==> Hold(Widths(fs), vs)
  {
    match fs
    case FNil =>
    case FConst(_, rest) => PlainFits(rest, vs, env, d);
    case FField(p, rest) =>
      if vs != [] {
        PlainFits(rest, vs[1..], env, d);
        HoldMore(p.width, Widths(rest), vs);
      }
  }

  lemma HoldMore(w: nat, ws: seq<nat>, vs: seq<Value>)
    requires vs != []
    ensures Hold([w] + ws, vs) <==> vs[0].VInt? && vs[0].n < Pow2(w) && Hold(ws, vs[1..])
  {
    hide Pow2;
    var all := [w] + ws;
    if Hold(all, vs) {
      assert all[0] == w;
      forall k | 0 <= k < |ws| ensures vs[1..][k].VInt? && vs[1..][k].n < Pow2(ws[k]) {
        assert vs[k + 1].VInt? && vs[k + 1].n < Pow2(all[k + 1]);
      }
    }
    if vs[0].VInt? && vs[0].n < Pow2(w) && Hold(ws, vs[1..]) {
      forall k | 0 <= k < |all| ensures vs[k].VInt? && vs[k].n < Pow2(all[k]) {
        if k > 0 { assert vs[1..][k - 1].VInt? && vs[1..][k - 1].n < Pow2(ws[k - 1]); }
      }
    }
  }

  const HEADER_WIDTHS: seq<nat> := [16, 1, 4, 1, 1, 1, 1, 4, 16, 16, 16, 16]

  lemma HeaderWidths()
    ensures Plain(HEADER.fields) && Widths(HEADER.fields) == HEADER_WIDTHS
  {
    assert Plain(COUNTS) && Widths(COUNTS) == [16, 16, 16, 16];
    var fs := FConst(CInt(3, 0), FField(PInt(4, Any), COUNTS));
    assert Plain(fs) && Widths(fs) == [4, 16, 16, 16, 16];
    var gs := FField(PInt(1, Any), FField(PInt(1, Any), fs));
    assert Plain(gs) && Widths(gs) == [1, 1, 4, 16, 16, 16, 16];
    var hs := FField(PInt(1, Any), FField(PInt(1, Any), gs));
    assert Plain(hs) && Widths(hs) == [1, 1, 1, 1, 4, 16, 16, 16, 16];
    assert FLAGS == FField(PInt(1, Any), FField(PInt(4, Any), hs));
    assert Plain(FLAGS) && Widths(FLAGS) == [1, 4, 1, 1, 1, 1, 4, 16, 16, 16, 16];
  }

  lemma HeaderFitsWhen(m: Message)
    ensures Fits(HEADER, Header(m), map[], 0) <==> Hold(HEADER_WIDTHS, Header(m).fields)
  {
    HeaderWidths();
    var h := Header(m);
    PlainFits(HEADER.fields, h.fields, map[], AssignsFields(HEADER.fields, h.fields));
  }

  lemma HeaderFitsInRange(m: Message)
    requires |m.fixed| == 8
    ensures Fits(HEADER, Header(m), map[], 0) <==> HeaderInRange(m)
  {
    HeaderFitsWhen(m);
    hide Fits;
    var vs := Header(m).fields;
    assert Pow2(1) == 2 && Pow2(4) == 16;
    SixteenBits();
    hide Pow2;
    forall k | 0 <= k < 8 ensures vs[k] == m.fixed[k] {
    }
    assert vs[8] == VInt(|m.questions|) && vs[9] == VInt(|m.answers|);
    assert vs[10] == VInt(|m.authority|) && vs[11] == VInt(|m.additional|);
    HeaderNumbers(vs);
  }

  lemma HeaderNumbers(vs: seq<Value>)
    requires |vs| == 12 && Pow2(1) == 2 && Pow2(4) == 16 && Pow2(16) == 0x1_0000
    ensures Hold(HEADER_WIDTHS, vs) <==>
              && Int(vs[0], 0x1_0000) && Int(vs[1], 2) && Int(vs[2], 16) && Int(vs[3], 2) && Int(vs[4], 2)
              && Int(vs[5], 2) && Int(vs[6], 2) && Int(vs[7], 16) && Int(vs[8], 0x1_0000) && Int(vs[9], 0x1_0000)
              && Int(vs[10], 0x1_0000) && Int(vs[11], 0x1_0000)
  {
    hide Pow2;
    if Hold(HEADER_WIDTHS, vs) {
      assert vs[0].n < Pow2(HEADER_WIDTHS[0]) && vs[1].n < Pow2(HEADER_WIDTHS[1]) && vs[2].n < Pow2(HEADER_WIDTHS[2]);
      assert vs[3].n < Pow2(HEADER_WIDTHS[3]) && vs[4].n < Pow2(HEADER_WIDTHS[4]) && vs[5].n < Pow2(HEADER_WIDTHS[5]);
      assert vs[6].n < Pow2(HEADER_WIDTHS[6]) && vs[7].n < Pow2(HEADER_WIDTHS[7]) && vs[8].n < Pow2(HEADER_WIDTHS[8]);
      assert vs[9].n < Pow2(HEADER_WIDTHS[9]) && vs[10].n < Pow2(HEADER_WIDTHS[10]);
      assert vs[11].n < Pow2(HEADER_WIDTHS[11]);
    }
  }

  /** The messages that fit the grammar, in numbers. */
  lemma FitsWhen(m: Message)
    ensures MessageFits(m) <==> InRange(m)
  {
    hide Fits, SectionFits, HeaderInRange, QuestionsInRange, AnswersInRange, Header;
    if |m.fixed| == 8 { HeaderFitsInRange(m); } else { EightFields(m); }
    SectionsFitInRange(m.questions);
    SectionsFitInRange(m.answers);
    SectionsFitInRange(m.authority);
    SectionsFitInRange(m.additional);
  }

  lemma EightFields(m: Message)
    requires |m.fixed| != 8
    ensures !HeaderInRange(m)
  {
  }

  // The bytes.

  /** A number of two bytes, the high one first. */
  function TwoBytes(n: nat): (s: seq<byte>)
    requires n < 0x1_0000
    ensures |s| == 2
  {
    [n / 256, n % 256]
  }

  function FourBytes(n: nat): (s: seq<byte>)
    requires n < 0x1_0000_0000
    ensures |s| == 4
  {
    TwoBytes(n / 0x1_0000) + TwoBytes(n % 0x1_0000)
  }

  /** The twelve bytes of section 4.1.1: the identifier; qr, opcode, aa, tc and rd in one byte; ra, three
      zero bits and the response code in one byte; and the lengths of the four sections. */
  function HeaderBytes(m: Message): (s: seq<byte>)
    requires HeaderInRange(m)
    ensures |s| == 12
  {
    var qr, opcode, aa, tc := m.fixed[1].n, m.fixed[2].n, m.fixed[3].n, m.fixed[4].n;
    var rd, ra, rcode := m.fixed[5].n, m.fixed[6].n, m.fixed[7].n;
    TwoBytes(m.fixed[0].n)
    + [128 * qr + 8 * opcode + 4 * aa + 2 * tc + rd, 128 * ra + rcode]
    + TwoBytes(|m.questions|) + TwoBytes(|m.answers|) + TwoBytes(|m.authority|) + TwoBytes(|m.additional|)
  }

  /** Behind the name of a question: type and class. */
  function QuestionBytes(v: Value): seq<byte>
    requires QuestionInRange(v)
  {
    TwoBytes(v.fields[0].n) + TwoBytes(v.fields[1].n)
  }

  /** Behind the name of an answer: type, class, time to live, length of the data, data. */
  function AnswerBytes(v: Value): seq<byte>
    requires AnswerInRange(v)
  {
    TwoBytes(v.fields[0].n) + TwoBytes(v.fields[1].n) + FourBytes(v.fields[2].n)
    + TwoBytes(|v.fields[3].elems|) + Bytes(v.fields[3].elems)
  }

  function QuestionsBytes(ns: seq<Named>): seq<byte>
    requires QuestionsInRange(ns)
  {
    if ns == [] then []
    else
      assert ns[0] in ns;
      Encoded(ns[0].name.elems) + QuestionBytes(ns[0].rest) + QuestionsBytes(ns[1..])
  }

  function AnswersBytes(ns: seq<Named>): seq<byte>
    requires AnswersInRange(ns)
  {
    if ns == [] then []
    else
      assert ns[0] in ns;
      Encoded(ns[0].name.elems) + AnswerBytes(ns[0].rest) + AnswersBytes(ns[1..])
  }

  /** A message on the wire. */
  function Wire(m: Message): seq<byte>
    requires InRange(m)
  {
    HeaderBytes(m) + QuestionsBytes(m.questions) + AnswersBytes(m.answers)
    + AnswersBytes(m.authority) + AnswersBytes(m.additional)
  }

  // The printer writes these bytes.

  /** A number in front of another. */
  lemma ToBitsCat(high: nat, w: nat, low: nat, k: nat)
    requires low < Pow2(k)
    ensures ToBits(high * Pow2(k) + low, w + k) == ToBits(high, w) + ToBits(low, k)
  {
    var n := high * Pow2(k) + low;
    ToBitsSplit(n, w, k);
    ShrIsQuotient(n, k);
    ModUnique(n, Pow2(k), high, low);
    ToBitsOfMod(n, k);
  }

  lemma TwoText(n: nat)
    requires n < 0x1_0000
    ensures BitsOf(TwoBytes(n)) == ToBits(n, 16)
  {
    assert Pow2(8) == 256;
    hide BitsOf, ToBits, Pow2;
    ToBitsCat(n / 256, 8, n % 256, 8);
    BitsOfOne(n / 256);
    BitsOfOne(n % 256);
    BitsOfConcat([n / 256], [n % 256]);
  }

  lemma FourText(n: nat)
    requires n < 0x1_0000_0000
    ensures BitsOf(FourBytes(n)) == ToBits(n, 32)
  {
    SixteenBits();
    ToBitsCat(n / 0x1_0000, 16, n % 0x1_0000, 16);
    TwoText(n / 0x1_0000);
    TwoText(n % 0x1_0000);
    BitsOfConcat(TwoBytes(n / 0x1_0000), TwoBytes(n % 0x1_0000));
  }

  lemma SmallPowers()
    ensures Pow2(1) == 2 && Pow2(2) == 4 && Pow2(3) == 8 && Pow2(4) == 16 && Pow2(7) == 128
  {
  }

  lemma LastFlagsText(aa: nat, tc: nat, rd: nat)
    requires aa < 2 && tc < 2 && rd < 2
    ensures ToBits(4 * aa + 2 * tc + rd, 3) == ToBits(aa, 1) + (ToBits(tc, 1) + ToBits(rd, 1))
  {
    SmallPowers();
    hide ToBits, Pow2;
    InFront(tc, 1, rd, 1, 2);
    InFront(aa, 1, 2 * tc + rd, 2, 4);
    assert 4 * aa + 2 * tc + rd == 4 * aa + (2 * tc + rd);
  }

  /** The first byte of flags. */
  lemma FlagsText(qr: nat, opcode: nat, aa: nat, tc: nat, rd: nat)
    requires qr < 2 && opcode < 16 && aa < 2 && tc < 2 && rd < 2
    ensures ToBits(128 * qr + 8 * opcode + 4 * aa + 2 * tc + rd, 8)
         == ToBits(qr, 1) + (ToBits(opcode, 4) + (ToBits(aa, 1) + (ToBits(tc, 1) + ToBits(rd, 1))))
  {
    hide *;
    LastFlagsText(aa, tc, rd);
    FirstFlagsText(qr, opcode, 4 * aa + 2 * tc + rd);
  }

  lemma FirstFlagsText(qr: nat, opcode: nat, y: nat)
    requires opcode < 16 && y < 8
    ensures ToBits(128 * qr + 8 * opcode + y, 8) == ToBits(qr, 1) + (ToBits(opcode, 4) + ToBits(y, 3))
  {
    SmallPowers();
    hide ToBits, Pow2;
    InFront(opcode, 4, y, 3, 8);
    InFront(qr, 1, 8 * opcode + y, 7, 128);
    assert 128 * qr + 8 * opcode + y == 128 * qr + (8 * opcode + y);
  }

  lemma InFront(high: nat, w: nat, low: nat, k: nat, p: nat)
    requires Pow2(k) == p && low < p
    ensures ToBits(p * high + low, w + k) == ToBits(high, w) + ToBits(low, k)
  {
    ToBitsCat(high, w, low, k);
  }

  /** The second byte of flags. */
  lemma ResponseText(ra: nat, rcode: nat)
    requires ra < 2 && rcode < 16
    ensures ToBits(128 * ra + rcode, 8) == ToBits(ra, 1) + (ToBits(0, 3) + ToBits(rcode, 4))
  {
    hide ToBits;
    assert ToBits(rcode, 7) == ToBits(0, 3) + ToBits(rcode, 4) by { InFront(0, 3, rcode, 4, 16); }
    assert ToBits(128 * ra + rcode, 8) == ToBits(ra, 1) + ToBits(rcode, 7) by { InFront(ra, 1, rcode, 7, 128); }
  }

  /** One integer of a structure, printed. */
  lemma IntText(w: nat, c: Constraint, rest: Fields, vs: seq<Value>, k: nat, d: Env, t: seq<bool>)
    requires k < |vs| && vs[k].VInt? && Allows(c, vs[k].n) && PrintFields(rest, vs[k + 1..], d, 0) == Some(t)
    ensures PrintFields(FField(PInt(w, c), rest), vs[k..], d, 0) == Some(ToBits(vs[k].n, w) + t)
  {
    RejectedWhen(c, vs[k].n);
    assert vs[k..][0] == vs[k] && vs[k..][1..] == vs[k + 1..];
  }

  lemma StructText(fs: Fields, vs: seq<Value>)
    ensures Print(PStruct(fs), VStruct(vs), 0) == PrintFields(fs, vs, AssignsFields(fs, vs), 0)
  {
  }

  lemma NoFieldsText(vs: seq<Value>, d: Env)
    ensures PrintFields(FNil, vs[|vs|..], d, 0) == Some([])
  {
  }

  lemma CountsText(vs: seq<Value>, d: Env)
    requires |vs| == 12 && Int(vs[8], 0x1_0000) && Int(vs[9], 0x1_0000)
    requires Int(vs[10], 0x1_0000) && Int(vs[11], 0x1_0000)
    ensures PrintFields(COUNTS, vs[8..], d, 0)
         == Some(BitsOf(TwoBytes(vs[8].n) + TwoBytes(vs[9].n) + TwoBytes(vs[10].n) + TwoBytes(vs[11].n)))
  {
    var a, b, e, g := vs[8].n, vs[9].n, vs[10].n, vs[11].n;
    AnyAllowed();
    hide PrintFields, ToBits, BitsOf, TwoBytes;
    NoFieldsText(vs, d);
    var f4 := FField(PInt(16, Any), FNil);
    var f3 := FField(PInt(16, Any), f4);
    var f2 := FField(PInt(16, Any), f3);
    IntText(16, Any, FNil, vs, 11, d, []);
    IntText(16, Any, f4, vs, 10, d, ToBits(g, 16) + []);
    IntText(16, Any, f3, vs, 9, d, ToBits(e, 16) + (ToBits(g, 16) + []));
    IntText(16, Any, f2, vs, 8, d, ToBits(b, 16) + (ToBits(e, 16) + (ToBits(g, 16) + [])));
    TwoText(a);
    TwoText(b);
    TwoText(e);
    TwoText(g);
    BitsOfConcat(TwoBytes(a), TwoBytes(b));
    BitsOfConcat(TwoBytes(a) + TwoBytes(b), TwoBytes(e));
    BitsOfConcat(TwoBytes(a) + TwoBytes(b) + TwoBytes(e), TwoBytes(g));
    Regrouped(ToBits(a, 16), ToBits(b, 16), ToBits(e, 16), ToBits(g, 16));
  }

  lemma Regrouped(a: seq<bool>, b: seq<bool>, c: seq<bool>, d: seq<bool>)
    ensures a + (b + (c + (d + []))) == a + b + c + d
  {
  }

  lemma ZeroBitsText(rest: Fields, vs: seq<Value>, d: Env, t: seq<bool>)
    requires PrintFields(rest, vs, d, 0) == Some(t)
    ensures PrintFields(FConst(CInt(3, 0), rest), vs, d, 0) == Some(ToBits(0, 3) + t)
  {
  }

  /** The fields in front of the counts, one after the other. */
  lemma FlagFieldsText(vs: seq<Value>, d: Env, t: seq<bool>)
    requires |vs| == 12 && (forall k | 0 <= k < 8 :: vs[k].VInt?) && PrintFields(COUNTS, vs[8..], d, 0) == Some(t)
    ensures PrintFields(HEADER.fields, vs, d, 0)
         == Some(ToBits(vs[0].n, 16) + (ToBits(vs[1].n, 1) + (ToBits(vs[2].n, 4) + (ToBits(vs[3].n, 1)
                 + (ToBits(vs[4].n, 1) + (ToBits(vs[5].n, 1) + (ToBits(vs[6].n, 1) + (ToBits(0, 3)
                 + (ToBits(vs[7].n, 4) + t)))))))))
  {
    AnyAllowed();
    hide PrintFields, ToBits;
    var rcode := FField(PInt(4, Any), COUNTS);
    var zero := FConst(CInt(3, 0), rcode);
    var ra := FField(PInt(1, Any), zero);
    var rd := FField(PInt(1, Any), ra);
    var tc := FField(PInt(1, Any), rd);
    var aa := FField(PInt(1, Any), tc);
    var opcode := FField(PInt(4, Any), aa);
    assert FLAGS == FField(PInt(1, Any), opcode);
    IntText(4, Any, COUNTS, vs, 7, d, t);
    var t7 := ToBits(vs[7].n, 4) + t;
    ZeroBitsText(rcode, vs[7..], d, t7);
    IntText(1, Any, zero, vs, 6, d, ToBits(0, 3) + t7);
    var t6 := ToBits(vs[6].n, 1) + (ToBits(0, 3) + t7);
    IntText(1, Any, ra, vs, 5, d, t6);
    IntText(1, Any, rd, vs, 4, d, ToBits(vs[5].n, 1) + t6);
    var t4 := ToBits(vs[4].n, 1) + (ToBits(vs[5].n, 1) + t6);
    IntText(1, Any, tc, vs, 3, d, t4);
    IntText(4, Any, aa, vs, 2, d, ToBits(vs[3].n, 1) + t4);
    var t2 := ToBits(vs[2].n, 4) + (ToBits(vs[3].n, 1) + t4);
    IntText(1, Any, opcode, vs, 1, d, t2);
    IntText(16, Any, FLAGS, vs, 0, d, ToBits(vs[1].n, 1) + t2);
    assert vs[0..] == vs;
  }

  lemma Packed(a: seq<bool>, b: seq<bool>, c: seq<bool>, d: seq<bool>, e: seq<bool>, f: seq<bool>, g: seq<bool>,
               h: seq<bool>, i: seq<bool>, t: seq<bool>)
    ensures a + (b + (c + (d + (e + (f + (g + (h + (i + t))))))))
         == a + ((b + (c + (d + (e + f)))) + (g + (h + i))) + t
  {
  }

  lemma FlagBytesText(first: byte, second: byte)
    ensures BitsOf([first, second]) == ToBits(first, 8) + ToBits(second, 8)
  {
    BitsOfOne(first);
    BitsOfOne(second);
    BitsOfConcat([first], [second]);
  }

  function CountBytes(m: Message): seq<byte>
    requires HeaderInRange(m)
  {
    TwoBytes(|m.questions|) + TwoBytes(|m.answers|) + TwoBytes(|m.authority|) + TwoBytes(|m.additional|)
  }

  /** The bits of the two bytes of flags, and what is around them. */
  lemma HeaderBytesText(m: Message)
    requires HeaderInRange(m)
    ensures BitsOf(HeaderBytes(m)) ==
            (var x := m.fixed;
             ToBits(x[0].n, 16) + (ToBits(x[1].n, 1) + (ToBits(x[2].n, 4) + (ToBits(x[3].n, 1)
             + (ToBits(x[4].n, 1) + (ToBits(x[5].n, 1) + (ToBits(x[6].n, 1) + (ToBits(0, 3)
             + (ToBits(x[7].n, 4) + BitsOf(CountBytes(m)))))))))))
  {
    hide ToBits, BitsOf, TwoBytes, HeaderBytes;
    var x := m.fixed;
    var id, counts := TwoBytes(x[0].n), CountBytes(m);
    var first, second := 128 * x[1].n + 8 * x[2].n + 4 * x[3].n + 2 * x[4].n + x[5].n, 128 * x[6].n + x[7].n;
    CountsBehind(m, id + [first, second]);
    hide CountBytes;
    TwoText(x[0].n);
    FlagBytesText(first, second);
    BitsOfConcat(id, [first, second]);
    BitsOfConcat(id + [first, second], counts);
    FlagsText(x[1].n, x[2].n, x[3].n, x[4].n, x[5].n);
    ResponseText(x[6].n, x[7].n);
    Packed(ToBits(x[0].n, 16), ToBits(x[1].n, 1), ToBits(x[2].n, 4), ToBits(x[3].n, 1), ToBits(x[4].n, 1),
           ToBits(x[5].n, 1), ToBits(x[6].n, 1), ToBits(0, 3), ToBits(x[7].n, 4), BitsOf(counts));
  }

  lemma HeaderOnWire(m: Message)
    requires HeaderInRange(m)
    ensures Print(HEADER, Header(m), 0) == Some(BitsOf(HeaderBytes(m)))
  {
    var vs := Header(m).fields;
    assert forall k | 0 <= k < 8 :: vs[k] == m.fixed[k] && vs[k].VInt?;
    assert vs[8] == VInt(|m.questions|) && vs[9] == VInt(|m.answers|);
    assert vs[10] == VInt(|m.authority|) && vs[11] == VInt(|m.additional|);
    var d := AssignsFields(HEADER.fields, vs);
    hide PrintFields, AssignsFields, Print, ToBits, BitsOf, TwoBytes, HeaderBytes;
    StructText(HEADER.fields, vs);
    CountsText(vs, d);
    HeaderBytesText(m);
    FlagFieldsText(vs, d, BitsOf(CountBytes(m)));
  }

  lemma CountsBehind(m: Message, front: seq<byte>)
    requires HeaderInRange(m)
    requires front == TwoBytes(m.fixed[0].n)
                      + [128 * m.fixed[1].n + 8 * m.fixed[2].n + 4 * m.fixed[3].n + 2 * m.fixed[4].n + m.fixed[5].n,
                         128 * m.fixed[6].n + m.fixed[7].n]
    ensures HeaderBytes(m) == front + CountBytes(m)
  {
    hide TwoBytes;
  }

  lemma QuestionOnWire(v: Value)
    requires QuestionInRange(v)
    ensures Print(QUESTION, v, 0) == Some(BitsOf(QuestionBytes(v)))
  {
    var vs := v.fields;
    var d := AssignsFields(QUESTION.fields, vs);
    var last := FField(PInt(16, OneOf([IntValue(1), IntValue(255)])), FNil);
    SmallConstraints(vs[0].n);
    SmallConstraints(vs[1].n);
    hide PrintFields, AssignsFields, Print, ToBits, BitsOf, TwoBytes, Allows;
    StructText(QUESTION.fields, vs);
    NoFieldsText(vs, d);
    IntText(16, OneOf([IntValue(1), IntValue(255)]), FNil, vs, 1, d, []);
    IntText(16, Single(Range(Some(1), Some(16))), last, vs, 0, d, ToBits(vs[1].n, 16) + []);
    assert vs[0..] == vs && ToBits(vs[1].n, 16) + [] == ToBits(vs[1].n, 16);
    TwoText(vs[0].n);
    TwoText(vs[1].n);
    BitsOfConcat(TwoBytes(vs[0].n), TwoBytes(vs[1].n));
  }

  lemma RdataText(vs: seq<Value>, d: Env)
    requires |vs| == 1 && ByteList(vs[0]) && |vs[0].elems| < 0x1_0000
    requires "rlength" in d && d["rlength"] == |vs[0].elems|
    ensures PrintFields(RDATA, vs, d, 0) == Some(BitsOf(TwoBytes(|vs[0].elems|) + Bytes(vs[0].elems)))
  {
    var p, elems := PLength("rlength", PInt(8, Any)), vs[0].elems;
    var t := BitsOf(Bytes(elems));
    BytesFitWhen(elems, map[]);
    BytesText(elems, map[], true);
    assert vs[1..] == [] && t + [] == t;
    assert PrintFields(FField(p, FNil), vs, d, 0) == Some(t);
    assert PrintFields(RDATA, vs, d, 0) == Some(ToBits(|elems|, 16) + t);
    TwoText(|elems|);
    BitsOfConcat(TwoBytes(|elems|), Bytes(elems));
  }

  lemma AnswerOnWire(v: Value)
    requires AnswerInRange(v)
    ensures Print(ANSWER, v, 0) == Some(BitsOf(AnswerBytes(v)))
  {
    var vs := v.fields;
    var d := AssignsFields(ANSWER.fields, vs);
    RdataLength(vs);
    SmallConstraints(vs[0].n);
    SmallConstraints(vs[1].n);
    AnyAllowed();
    hide PrintFields, AssignsFields, Print, ToBits, BitsOf, TwoBytes, FourBytes, Allows, Bytes;
    StructText(ANSWER.fields, vs);
    assert vs[3..][0] == vs[3];
    RdataText(vs[3..], d);
    var data := TwoBytes(|vs[3].elems|) + Bytes(vs[3].elems);
    IntText(32, Any, RDATA, vs, 2, d, BitsOf(data));
    IntText(16, OneOf([IntValue(1)]), TTL, vs, 1, d, ToBits(vs[2].n, 32) + BitsOf(data));
    IntText(16, Single(Range(Some(1), Some(16))), CLASS, vs, 0, d,
            ToBits(vs[1].n, 16) + (ToBits(vs[2].n, 32) + BitsOf(data)));
    assert vs[0..] == vs;
    FixedFieldsText(vs[0].n, vs[1].n, vs[2].n, data);
    AnswerParts(v, data);
  }

  lemma FixedFieldsText(t: nat, c: nat, ttl: nat, data: seq<byte>)
    requires t < 0x1_0000 && c < 0x1_0000 && ttl < 0x1_0000_0000
    ensures BitsOf(TwoBytes(t) + (TwoBytes(c) + (FourBytes(ttl) + data)))
         == ToBits(t, 16) + (ToBits(c, 16) + (ToBits(ttl, 32) + BitsOf(data)))
  {
    hide BitsOf, ToBits, TwoBytes, FourBytes;
    TwoText(t);
    TwoText(c);
    FourText(ttl);
    BitsOfConcat(FourBytes(ttl), data);
    BitsOfConcat(TwoBytes(c), FourBytes(ttl) + data);
    BitsOfConcat(TwoBytes(t), TwoBytes(c) + (FourBytes(ttl) + data));
  }

  lemma AnswerParts(v: Value, data: seq<byte>)
    requires AnswerInRange(v) && data == TwoBytes(|v.fields[3].elems|) + Bytes(v.fields[3].elems)
    ensures AnswerBytes(v) == TwoBytes(v.fields[0].n) + (TwoBytes(v.fields[1].n) + (FourBytes(v.fields[2].n) + data))
  {
    hide TwoBytes, FourBytes, Bytes;
  }

  lemma EntryOnWire(n: Named, p: Parser, rest: seq<byte>, more: seq<byte>, t: seq<bool>)
    requires NameInRange(n.name) && Print(p, n.rest, 0) == Some(BitsOf(rest)) && t == BitsOf(more)
    ensures Cat(NamedText(n, p), Some(t)) == Some(BitsOf(Encoded(n.name.elems) + rest + more))
  {
    hide Print, BitsOf, Encoded;
    NameFitsInRange(n.name);
    NameText(n.name);
    BitsOfConcat(Encoded(n.name.elems), rest);
    BitsOfConcat(Encoded(n.name.elems) + rest, more);
  }

  lemma {:induction false} QuestionsOnWire(ns: seq<Named>)
    requires QuestionsInRange(ns)
    ensures SectionText(ns, QUESTION) == Some(BitsOf(QuestionsBytes(ns)))
    decreases |ns|
  {
    hide NamedText, BitsOf, QuestionBytes, Encoded, NameInRange, QuestionInRange;
    if ns == [] {
      NoBytes();
    } else {
      assert ns[0] in ns;
      QuestionOnWire(ns[0].rest);
      QuestionsOnWire(ns[1..]);
      EntryOnWire(ns[0], QUESTION, QuestionBytes(ns[0].rest), QuestionsBytes(ns[1..]), BitsOf(QuestionsBytes(ns[1..])));
    }
  }

  lemma {:induction false} AnswersOnWire(ns: seq<Named>)
    requires AnswersInRange(ns)
    ensures SectionText(ns, ANSWER) == Some(BitsOf(AnswersBytes(ns)))
    decreases |ns|
  {
    hide NamedText, BitsOf, AnswerBytes, Encoded, NameInRange, AnswerInRange;
    if ns == [] {
      NoBytes();
    } else {
      assert ns[0] in ns;
      AnswerOnWire(ns[0].rest);
      AnswersOnWire(ns[1..]);
      EntryOnWire(ns[0], ANSWER, AnswerBytes(ns[0].rest), AnswersBytes(ns[1..]), BitsOf(AnswersBytes(ns[1..])));
    }
  }

  lemma NoBytes()
    ensures BitsOf([]) == []
  {
  }

  /** The text of a message in range is its bytes on the wire. */
  lemma MessageOnWire(m: Message)
    requires InRange(m)
    ensures MessageText(m) == Some(BitsOf(Wire(m)))
  {
    hide Print, SectionText, BitsOf, HeaderBytes, QuestionsBytes, AnswersBytes, HeaderInRange, QuestionsInRange,
      AnswersInRange, Header;
    HeaderOnWire(m);
    QuestionsOnWire(m.questions);
    AnswersOnWire(m.answers);
    AnswersOnWire(m.authority);
    AnswersOnWire(m.additional);
    FiveParts(HeaderBytes(m), QuestionsBytes(m.questions), AnswersBytes(m.answers), AnswersBytes(m.authority),
              AnswersBytes(m.additional));
  }

  lemma FiveParts(h: seq<byte>, q: seq<byte>, a: seq<byte>, b: seq<byte>, c: seq<byte>)
    ensures BitsOf(h + q + a + b + c) == BitsOf(h) + (BitsOf(q) + (BitsOf(a) + (BitsOf(b) + BitsOf(c))))
  {
    hide BitsOf;
    BitsOfConcat(b, c);
    BitsOfConcat(a, b + c);
    BitsOfConcat(q, a + (b + c));
    BitsOfConcat(h, q + (a + (b + c)));
    assert h + q + a + b + c == h + (q + (a + (b + c)));
  }

  // What the printer takes and the parser returns, in numbers.

  /** Every integer the printer checks is in range. It does not look at widths or lengths. */
  predicate AnswerTaken(v: Value) {
    && v.VStruct? && |v.fields| == 4
    && v.fields[0].VInt? && 1 <= v.fields[0].n <= 16
    && v.fields[1] == VInt(1) && v.fields[2].VInt?
    && v.fields[3].VList? && forall e | e in v.fields[3].elems :: e.VInt?
  }

  lemma IntPrintable(w: nat, c: Constraint, rest: Fields, vs: seq<Value>)
    ensures FieldsPrintable(FField(PInt(w, c), rest), vs)
       <==> vs != [] && vs[0].VInt? && Allows(c, vs[0].n) && FieldsPrintable(rest, vs[1..])
  {
    hide Allows;
  }

  /** A question is printed exactly when its type is from 1 to 16 and its class 1 or 255. */
  lemma QuestionPrintsWhen(v: Value)
    ensures Print(QUESTION, v, 0).Some? <==> QuestionInRange(v)
  {
    PrintsWhen(QUESTION, v, 0);
    hide Print;
    if v.VStruct? {
      var vs := v.fields;
      var last := FField(PInt(16, OneOf([IntValue(1), IntValue(255)])), FNil);
      assert Printable(QUESTION, v) == FieldsPrintable(QUESTION.fields, vs);
      if vs != [] {
        if vs[0].VInt? { SmallConstraints(vs[0].n); }
        if |vs| > 1 && vs[1].VInt? { SmallConstraints(vs[1].n); }
        IntPrintable(16, OneOf([IntValue(1), IntValue(255)]), FNil, vs[1..]);
      }
      hide Allows;
      IntPrintable(16, Single(Range(Some(1), Some(16))), last, vs);
    }
  }

  lemma {:induction false} BytesPrintWhen(vs: seq<Value>)
    ensures AllPrintable(PInt(8, Any), vs) <==> forall e | e in vs :: e.VInt?
  {
    if vs != [] {
      assert Printable(PInt(8, Any), vs[0]) <==> vs[0].VInt?;
      BytesPrintWhen(vs[1..]);
      FirstOrLater(vs);
      hide Printable;
    }
  }

  lemma RdataPrintsWhen(vs: seq<Value>)
    ensures FieldsPrintable(RDATA, vs) <==> |vs| == 1 && vs[0].VList? && forall e | e in vs[0].elems :: e.VInt?
  {
    var p := PLength("rlength", PInt(8, Any));
    assert FieldsPrintable(RDATA, vs) == FieldsPrintable(FField(p, FNil), vs);
    if vs != [] {
      assert FieldsPrintable(FField(p, FNil), vs) <==> Printable(p, vs[0]) && vs[1..] == [];
      if vs[0].VList? { BytesPrintWhen(vs[0].elems); }
    }
  }

  /** An answer is printed exactly when its type is from 1 to 16 and its class 1. */
  lemma AnswerPrintsWhen(v: Value)
    ensures Print(ANSWER, v, 0).Some? <==> AnswerTaken(v)
  {
    PrintsWhen(ANSWER, v, 0);
    hide Print;
    if v.VStruct? {
      assert Printable(ANSWER, v) == FieldsPrintable(ANSWER.fields, v.fields);
      hide Printable;
      AnswerFieldsPrintWhen(v.fields);
    }
  }

  lemma AnswerFieldsPrintWhen(vs: seq<Value>)
    ensures FieldsPrintable(ANSWER.fields, vs) <==> AnswerTaken(VStruct(vs))
  {
    AnyAllowed();
    hide Allows, FieldsPrintable;
    IntPrintable(16, Single(Range(Some(1), Some(16))), CLASS, vs);
    if vs != [] {
      if vs[0].VInt? { SmallConstraints(vs[0].n); }
      IntPrintable(16, OneOf([IntValue(1)]), TTL, vs[1..]);
      if |vs| >= 2 {
        if vs[1].VInt? { SmallConstraints(vs[1].n); }
        assert vs[1..][1..] == vs[2..];
        IntPrintable(32, Any, RDATA, vs[2..]);
        if |vs| >= 3 {
          assert vs[2..][1..] == vs[3..];
          RdataPrintsWhen(vs[3..]);
        }
      }
    }
  }

  lemma {:induction false} SectionTaken(ns: seq<Named>, p: Parser)
    requires SectionText(ns, p).Some?
    ensures forall n | n in ns :: Print(p, n.rest, 0).Some?
    decreases |ns|
  {
    hide Print;
    if ns != [] {
      SectionTaken(ns[1..], p);
      FirstOrLater(ns);
    }
  }

  predicate AnswersTaken(ns: seq<Named>) {
    forall n | n in ns :: AnswerTaken(n.rest)
  }

  lemma AnswersTakenIn(ns: seq<Named>)
    requires SectionText(ns, ANSWER).Some?
    ensures AnswersTaken(ns)
  {
    SectionTaken(ns, ANSWER);
    hide Print, SectionText, AnswerTaken;
    forall n | n in ns ensures AnswerTaken(n.rest) {
      AnswerPrintsWhen(n.rest);
    }
  }

  /** In every message that is printed, all types and classes are in range. */
  lemma PrintedNumbers(m: Message)
    requires MessageText(m).Some?
    ensures forall n | n in m.questions :: QuestionInRange(n.rest)
    ensures AnswersTaken(m.answers) && AnswersTaken(m.authority) && AnswersTaken(m.additional)
  {
    hide Print, SectionText, QuestionInRange, AnswersTaken;
    SectionTaken(m.questions, QUESTION);
    forall n | n in m.questions ensures QuestionInRange(n.rest) {
      QuestionPrintsWhen(n.rest);
    }
    AnswersTakenIn(m.answers);
    AnswersTakenIn(m.authority);
    AnswersTakenIn(m.additional);
  }

  /** Every message that is parsed is in range. */
  lemma ParsedNumbers(data: seq<byte>)
    requires ParseMessage(data).Some?
    ensures InRange(ParseMessage(data).value.0)
  {
    ParsedMessageFits(data);
    FitsWhen(ParseMessage(data).value.0);
  }

  /** The bytes of a message in range parse to that message, whatever follows them, and the parser
      stops at their end. */
  lemma WireParses(m: Message, behind: seq<byte>)
    requires InRange(m)
    ensures ParseMessage(Wire(m) + behind) == Some((m, 8 * |Wire(m)|))
  {
    FitsWhen(m);
    MessageOnWire(m);
    hide ParseMessage, MessageText, MessageFits, Wire, InRange, BitsOf;
    BitsOfConcat(Wire(m), behind);
    assert At(BitsOf(Wire(m) + behind), 0, BitsOf(Wire(m)));
    MessageRoundTrip(m, Wire(m) + behind, BitsOf(Wire(m)));
  }

  lemma {:induction false} BitsDetermineBytes(a: seq<byte>, b: seq<byte>)
    requires BitsOf(a) == BitsOf(b)
    ensures a == b
  {
    if a != [] && b != [] {
      assert BitsOf(a)[..8] == ToBits(a[0], 8) && BitsOf(b)[..8] == ToBits(b[0], 8);
      assert BitsOf(a)[8..] == BitsOf(a[1..]) && BitsOf(b)[8..] == BitsOf(b[1..]);
      ByteOfBits(a[0]);
      ByteOfBits(b[0]);
      BitsDetermineBytes(a[1..], b[1..]);
      assert a == [a[0]] + a[1..] && b == [b[0]] + b[1..];
    }
  }

  // Where the parser finds the fields.

  lemma SectionsAreCanonical()
    ensures Canonical(HEADER) && Canonical(QUESTION) && Canonical(ANSWER)
  {
    assert FieldsCanonical(COUNTS);
    var fs := FConst(CInt(3, 0), FField(PInt(4, Any), COUNTS));
    assert FieldsCanonical(fs);
    var gs := FField(PInt(1, Any), FField(PInt(1, Any), fs));
    assert FieldsCanonical(gs);
    var hs := FField(PInt(1, Any), FField(PInt(1, Any), gs));
    assert FieldsCanonical(hs);
    assert FLAGS == FField(PInt(1, Any), FField(PInt(4, Any), hs));
    assert FieldsCanonical(FLAGS) && FieldsCanonical(RDATA) && FieldsCanonical(TTL) && FieldsCanonical(CLASS);
  }

  lemma BytesOfBits(data: seq<byte>, i: nat, j: nat, s: seq<byte>)
    requires i <= j <= |data| && BitsOf(data)[8 * i..8 * j] == BitsOf(s)
    ensures data[i..j] == s
  {
    hide BitsOf;
    var a, b, c := data[..i], data[i..j], data[j..];
    BitsOfConcat(a, b);
    BitsOfConcat(a + b, c);
    assert data == a + b + c;
    MiddleOf(BitsOf(a), BitsOf(b), BitsOf(c));
    BitsDetermineBytes(b, s);
  }

  lemma MiddleOf(a: seq<bool>, b: seq<bool>, c: seq<bool>)
    ensures (a + b + c)[|a|..|a| + |b|] == b
  {
  }

  /** The first twelve bytes of every message that is parsed are its header. */
  lemma ParsedHeader(data: seq<byte>)
    requires ParseMessage(data).Some?
    ensures var m := ParseMessage(data).value.0;
            HeaderInRange(m) && |data| >= 12 && data[..12] == HeaderBytes(m)
  {
    ParsedNumbers(data);
    HeaderIsRegular();
    SectionsAreCanonical();
    var b, m := BitsOf(data), ParseMessage(data).value.0;
    var r := Parse(HEADER, b, 0, map[]);
    hide BitsOf, Parse, Print, Canonical, Determined, WellFormed, Invertible, ParseBody, HeaderBytes;
    PrintAfterParse(HEADER, b, 0, map[], 0);
    ParsedHeaderValue(data, r.value, r.at);
    HeaderWidth(r.value);
    HeaderOnWire(m);
    BytesOfBits(data, 0, 12, HeaderBytes(m));
  }

  lemma ParsedHeaderValue(data: seq<byte>, h: Value, i: nat)
    requires WellFormed(HEADER) && Parse(HEADER, BitsOf(data), 0, map[]) == Ok(h, i) && ParseBody(data, i, h).Some?
    ensures Header(ParseBody(data, i, h).value.0) == h
  {
    HeaderIsRegular();
    hide Parse, ParseBody, BodyFits, Fits, WellFormed, Invertible, Determined, BitsOf, Count, Fixed, Header;
    ParsedFits(HEADER, BitsOf(data), 0, map[], 0);
    HeaderShape(h);
    ParsedBodyFits(data, i, h);
    HeaderRebuilt(h, ParseBody(data, i, h).value.0);
  }

  /** What the parser read behind a name, up to where it went on, is the type, the class and what else
      there is, in these bytes. */
  lemma ParsedRest(data: seq<byte>, at: nat, p: Parser, s: seq<byte>)
    requires IsSection(p) && WellFormed(p) && ParseNamed(data, at, p).Some?
    requires Print(p, ParseNamed(data, at, p).value.0.rest, 0) == Some(BitsOf(s))
    ensures var j := ParseNamed(data, at, p).value.1;
            j % 8 == 0 && |s| <= j / 8 <= |data| && data[j / 8 - |s|..j / 8] == s
  {
    hide *;
    SectionsAreRegular();
    SectionsAreCanonical();
    SectionRegular(p);
    var after := NamedAfter(data, at, p);
    var j := ParseNamed(data, at, p).value.1;
    PrintAfterParse(p, BitsOf(data), 8 * after, map[], 0);
    assert j - 8 * after == |BitsOf(s)| == 8 * |s|;
    BytesOfBits(data, after, j / 8, s);
  }

  lemma SectionRegular(p: Parser)
    requires IsSection(p)
    ensures WellFormed(p) && Canonical(p) && Determined(p)
  {
    SectionsAreRegular();
    SectionsAreCanonical();
    hide WellFormed, Canonical, Determined;
  }

  /** Where the name of an entry ends. */
  lemma NamedAfter(data: seq<byte>, at: nat, p: Parser) returns (after: nat)
    requires WellFormed(p) && ParseNamed(data, at, p).Some?
    ensures after <= |data|
    ensures var (n, j) := ParseNamed(data, at, p).value; Parse(p, BitsOf(data), 8 * after, map[]) == Ok(n.rest, j)
  {
    hide Parse, BitsOf, Follow;
    after := Follow(PointerOffset, data, at / 8, |data| + 1).value.after;
  }

  lemma ParsedQuestion(data: seq<byte>, at: nat)
    requires WellFormed(QUESTION) && ParseNamed(data, at, QUESTION).Some?
    ensures var (n, j) := ParseNamed(data, at, QUESTION).value;
            && NameInRange(n.name) && QuestionInRange(n.rest)
            && j % 8 == 0 && 4 <= j / 8 <= |data| && data[j / 8 - 4..j / 8] == QuestionBytes(n.rest)
  {
    SectionsAreRegular();
    hide ParseNamed, Print, WellFormed, BitsOf, Invertible, Determined, Fits, NameFits;
    ParsedNamedFits(data, at, QUESTION);
    var n := ParseNamed(data, at, QUESTION).value.0;
    EntryFitsInRange(n);
    QuestionOnWire(n.rest);
    ParsedRest(data, at, QUESTION, QuestionBytes(n.rest));
  }

  lemma ParsedAnswer(data: seq<byte>, at: nat)
    requires WellFormed(ANSWER) && ParseNamed(data, at, ANSWER).Some?
    ensures var (n, j) := ParseNamed(data, at, ANSWER).value;
            && NameInRange(n.name) && AnswerInRange(n.rest)
            && var s := AnswerBytes(n.rest);
               j % 8 == 0 && |s| <= j / 8 <= |data| && data[j / 8 - |s|..j / 8] == s
  {
    SectionsAreRegular();
    hide ParseNamed, Print, WellFormed, BitsOf, Invertible, Determined, Fits, NameFits, AnswerBytes;
    ParsedNamedFits(data, at, ANSWER);
    var n := ParseNamed(data, at, ANSWER).value.0;
    EntryFitsInRange(n);
    AnswerOnWire(n.rest);
    ParsedRest(data, at, ANSWER, AnswerBytes(n.rest));
  }
}
