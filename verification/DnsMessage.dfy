/** The DNS message codec (sections 4.1.1 to 4.1.3 of RFC 1035): the grammar of a message, the
    text the generated printer writes and what the generated parser reads back from it. Names
    are printed uncompressed and read through the decompression transform. */
module DnsMessage {
  import opened Bits
  import opened Grammar
  import opened DirectSpec
  import opened PrintSpec
  import opened PrintParsed
  import opened PrintExactly
  import opened ParsePrinted
  import opened DnsName

  // The grammar.

  function Number16(min: nat, max: nat): Parser {
    PInt(16, Single(Range(Some(min), Some(max))))
  }

  const LABEL_LENGTH: Constraint := Single(Range(Some(1), Some(64)))
  const LABEL: Parser :=
    PStruct(FDep("length", 8, LABEL_LENGTH, FField(PLength("length", PInt(8, Any)), FNil)))
  const ZERO: Consts := CCons(CInt(8, 0), CNil)
  const LABELS: Parser := PWrap(CNil, PMany(LABEL, false, None), ZERO)

  const QUESTION: Parser :=
    PStruct(FField(Number16(1, 16), FField(PInt(16, OneOf([IntValue(1), IntValue(255)])), FNil)))
  const ANSWER: Parser := PStruct(FField(Number16(1, 16), CLASS))
  const CLASS: Fields := FField(PInt(16, OneOf([IntValue(1)])), TTL)
  const TTL: Fields := FField(PInt(32, Any), RDATA)
  const RDATA: Fields := FDep("rlength", 16, Any, FField(PLength("rlength", PInt(8, Any)), FNil))

  /** The fixed twelve bytes. The four counts at its end are the dependencies of the sections. */
  const HEADER: Parser := PStruct(FField(PInt(16, Any), FLAGS))
  const FLAGS: Fields :=
    FField(PInt(1, Any), FField(PInt(4, Any), FField(PInt(1, Any), FField(PInt(1, Any),
      FField(PInt(1, Any), FField(PInt(1, Any), FConst(CInt(3, 0), FField(PInt(4, Any), COUNTS))))))))
  const COUNTS: Fields :=
    FField(PInt(16, Any), FField(PInt(16, Any), FField(PInt(16, Any), FField(PInt(16, Any), FNil))))

  lemma HeaderIsRegular()
    ensures WellFormed(HEADER) && Invertible(HEADER) && Determined(HEADER)
  {
    assert FieldsWellFormed(COUNTS) && FieldsReadable(COUNTS);
    assert FieldsSelfDelimiting(COUNTS) && FieldsDetermined(COUNTS);
    var fs := FConst(CInt(3, 0), FField(PInt(4, Any), COUNTS));
    assert Pow2(3) == 8;
    assert FieldsWellFormed(fs) && FieldsReadable(fs) && FieldsSelfDelimiting(fs) && FieldsDetermined(fs);
    var gs := FField(PInt(1, Any), FField(PInt(1, Any), fs));
    assert FieldsWellFormed(gs) && FieldsReadable(gs) && FieldsSelfDelimiting(gs) && FieldsDetermined(gs);
    var hs := FField(PInt(1, Any), FField(PInt(1, Any), gs));
    assert FieldsWellFormed(hs) && FieldsReadable(hs) && FieldsSelfDelimiting(hs) && FieldsDetermined(hs);
    assert FLAGS == FField(PInt(1, Any), FField(PInt(4, Any), hs));
    assert FieldsWellFormed(FLAGS) && FieldsReadable(FLAGS) && FieldsSelfDelimiting(FLAGS) && FieldsDetermined(FLAGS);
  }

  lemma SectionsAreRegular()
    ensures WellFormed(QUESTION) && Invertible(QUESTION) && Determined(QUESTION)
    ensures WellFormed(ANSWER) && Invertible(ANSWER) && Determined(ANSWER)
  {
    assert FieldsWellFormed(RDATA) && FieldsReadable(RDATA) && FieldsSelfDelimiting(RDATA) && FieldsDetermined(RDATA);
    assert FieldsWellFormed(TTL) && FieldsReadable(TTL) && FieldsSelfDelimiting(TTL) && FieldsDetermined(TTL);
    assert FieldsWellFormed(CLASS) && FieldsReadable(CLASS) && FieldsSelfDelimiting(CLASS) && FieldsDetermined(CLASS);
  }

  /** A name and the fields behind it. */
  datatype Named = Named(name: Value, rest: Value)

  /** A message as the application sees it: the eight fixed fields and the sections. The counts
      exist only on the wire. */
  datatype Message = Message(fixed: seq<Value>, questions: seq<Named>, answers: seq<Named>,
                             authority: seq<Named>, additional: seq<Named>)

  /** The fields of the header as they end up on the wire, with the lengths of the sections in
      place of the four counts. */
  function Header(m: Message): Value {
    VStruct(m.fixed + [VInt(|m.questions|), VInt(|m.answers|), VInt(|m.authority|), VInt(|m.additional|)])
  }

  // Printing.

  function NamedText(n: Named, p: Parser): Text {
    Cat(Print(LABELS, n.name, 0), Print(p, n.rest, 0))
  }

  function SectionText(ns: seq<Named>, p: Parser): Text {
    if ns == [] then Some([]) else Cat(NamedText(ns[0], p), SectionText(ns[1..], p))
  }

  function BodyText(m: Message): Text {
    Cat(SectionText(m.questions, QUESTION),
        Cat(SectionText(m.answers, ANSWER),
            Cat(SectionText(m.authority, ANSWER), SectionText(m.additional, ANSWER))))
  }

  function MessageText(m: Message): Text {
    Cat(Print(HEADER, Header(m), 0), BodyText(m))
  }

  // Parsing.

  /** At a byte boundary, a name is decompressed into a stream of its own, which the label list
      is parsed from; the message continues where the decompression says. Positions are in bits.
      None also stands for a name that never ends, on which the C code does not return. */
  function ParseNamed(data: seq<byte>, at: nat, p: Parser): Option<(Named, nat)>
    requires WellFormed(p)
  {
    if at % 8 != 0 then None else
    match Follow(PointerOffset, data, at / 8, |data| + 1)
    case Some(Ended(name, k, after)) =>
      (match Parse(LABELS, BitsOf(name + Zeros(k)), 0, map[])
       case Fail => None
       case Ok(v, _) =>
         match Parse(p, BitsOf(data), 8 * after, map[])
         case Fail => None
         case Ok(w, j) => Some((Named(v, w), j)))
    case _ => None
  }

  function ParseSection(data: seq<byte>, at: nat, n: nat, p: Parser): Option<(seq<Named>, nat)>
    requires WellFormed(p)
    decreases n
  {
    if n == 0 then Some(([], at)) else
    match ParseNamed(data, at, p)
    case None => None
    case Some((x, j)) =>
      match ParseSection(data, j, n - 1, p)
      case None => None
      case Some((xs, k)) => Some(([x] + xs, k))
  }

  function Fixed(header: Value): seq<Value> {
    if header.VStruct? && |header.fields| >= 8 then header.fields[..8] else []
  }

  function Count(header: Value, k: nat): nat {
    if header.VStruct? && 8 + k < |header.fields| && header.fields[8 + k].VInt? then header.fields[8 + k].n else 0
  }

  function ParseBody(data: seq<byte>, i: nat, h: Value): Option<(Message, nat)> {
    SectionsAreRegular();
    match ParseSection(data, i, Count(h, 0), QUESTION)
    case None => None
    case Some((qs, j)) =>
      match ParseSection(data, j, Count(h, 1), ANSWER)
      case None => None
      case Some((an, k)) =>
        match ParseSection(data, k, Count(h, 2), ANSWER)
        case None => None
        case Some((au, l)) =>
          match ParseSection(data, l, Count(h, 3), ANSWER)
          case None => None
          case Some((ad, e)) => Some((Message(Fixed(h), qs, an, au, ad), e))
  }

  /** The message and the bit position after it. */
  function ParseMessage(data: seq<byte>): Option<(Message, nat)> {
    HeaderIsRegular();
    match Parse(HEADER, BitsOf(data), 0, map[])
    case Fail => None
    case Ok(h, i) => ParseBody(data, i, h)
  }

  // The messages that meet the widths and constraints of the grammar.

  predicate NameFits(v: Value) {
    Fits(LABELS, v, map[], 0)
  }

  lemma NameParts(v: Value)
    requires NameFits(v)
    ensures v.VList? && AllFit(LABEL, v.elems, map[], 0)
  {
    assert Fits(PMany(LABEL, false, None), v, map[], 0);
  }

  predicate SectionFits(ns: seq<Named>, p: Parser) {
    forall n | n in ns :: NameFits(n.name) && Fits(p, n.rest, map[], 0)
  }

  predicate BodyFits(m: Message) {
    && SectionFits(m.questions, QUESTION) && SectionFits(m.answers, ANSWER)
    && SectionFits(m.authority, ANSWER) && SectionFits(m.additional, ANSWER)
  }

  predicate MessageFits(m: Message) {
    |m.fixed| == 8 && Fits(HEADER, Header(m), map[], 0) && BodyFits(m)
  }

  lemma HeaderParts(m: Message)
    requires |m.fixed| == 8
    ensures Fixed(Header(m)) == m.fixed
    ensures Count(Header(m), 0) == |m.questions| && Count(Header(m), 1) == |m.answers|
    ensures Count(Header(m), 2) == |m.authority| && Count(Header(m), 3) == |m.additional|
  {
  }

  // Names, byte by byte.

  function Bytes(vs: seq<Value>): (r: seq<byte>)
    ensures |r| == |vs|
  {
    if vs == [] then []
    else [if vs[0].VInt? && vs[0].n < 256 then vs[0].n else 0] + Bytes(vs[1..])
  }

  function LabelElems(l: Value): seq<Value> {
    if l.VStruct? && |l.fields| == 1 && l.fields[0].VList? then l.fields[0].elems else []
  }

  function EncodedLabel(l: Value): seq<byte> {
    [if |LabelElems(l)| < 256 then |LabelElems(l)| else 0] + Bytes(LabelElems(l))
  }

  function Encoded(vs: seq<Value>): seq<byte> {
    if vs == [] then [0] else EncodedLabel(vs[0]) + Encoded(vs[1..])
  }

  lemma LabelFitsShape(l: Value)
    requires Fits(LABEL, l, map[], 0)
    ensures l == VStruct([VList(LabelElems(l))]) && 1 <= |LabelElems(l)| <= 64
    ensures AllFit(PInt(8, Any), LabelElems(l), map["length" := |LabelElems(l)|], 0)
  {
    var fs := FField(PLength("length", PInt(8, Any)), FNil);
    var d := AssignsFields(FDep("length", 8, LABEL_LENGTH, fs), l.fields);
    assert FieldsFit(FDep("length", 8, LABEL_LENGTH, fs), l.fields, map[], d, 0);
    assert d == AssignsFields(fs, l.fields);
    assert |l.fields[1..]| == 0;
    assert l.fields == [l.fields[0]];
    assert "length" in d && d["length"] == |l.fields[0].elems|;
  }

  lemma {:induction false} BitsOfConcat(a: seq<byte>, b: seq<byte>)
    ensures BitsOf(a + b) == BitsOf(a) + BitsOf(b)
  {
    if a == [] {
      assert a + b == b;
    } else {
      assert (a + b)[1..] == a[1..] + b;
      BitsOfConcat(a[1..], b);
    }
  }

  lemma BitsOfOne(x: byte)
    ensures BitsOf([x]) == ToBits(x, 8)
  {
    assert [x][1..] == [];
  }

  lemma {:induction false} BytesText(vs: seq<Value>, env: Env, first: bool)
    requires AllFit(PInt(8, Any), vs, env, 0)
    ensures PrintElems(PInt(8, Any), None, vs, first, 0) == Some(BitsOf(Bytes(vs)))
  {
    if vs != [] {
      assert Pow2(8) == 256;
      BytesText(vs[1..], env, false);
      BitsOfOne(vs[0].n);
      BitsOfConcat([vs[0].n], Bytes(vs[1..]));
      var rest := BitsOf(Bytes(vs[1..]));
      assert [] + (ToBits(vs[0].n, 8) + rest) == ToBits(vs[0].n, 8) + rest;
    }
  }

  lemma LabelText(l: Value)
    requires Fits(LABEL, l, map[], 0)
    ensures Print(LABEL, l, 0) == Some(BitsOf(EncodedLabel(l)))
  {
    var elems := LabelElems(l);
    LabelFitsShape(l);
    var p := PLength("length", PInt(8, Any));
    var fs := FField(p, FNil);
    var d := AssignsFields(FDep("length", 8, LABEL_LENGTH, fs), l.fields);
    assert d == AssignsFields(fs, l.fields);
    assert "length" in d && d["length"] == |elems|;
    BytesText(elems, map["length" := |elems|], true);
    assert l.fields[1..] == [];
    var t := BitsOf(Bytes(elems));
    assert PrintFields(fs, l.fields, d, 0) == Some(t + []);
    assert t + [] == t;
    BitsOfOne(|elems|);
    BitsOfConcat([|elems|], Bytes(elems));
  }

  lemma {:induction false} LabelsText(vs: seq<Value>, first: bool)
    requires AllFit(LABEL, vs, map[], 0)
    ensures PrintElems(LABEL, None, vs, first, 0).Some?
    ensures PrintElems(LABEL, None, vs, first, 0).value + ToBits(0, 8) == BitsOf(Encoded(vs))
  {
    hide ToBits, Print, Fits;
    if vs == [] {
      BitsOfOne(0);
      assert [] + ToBits(0, 8) == ToBits(0, 8);
    } else {
      LabelText(vs[0]);
      LabelsText(vs[1..], false);
      assert vs == [vs[0]] + vs[1..];
      PrintElemsCons(LABEL, None, vs[0], vs[1..], first, 0);
      BitsOfConcat(EncodedLabel(vs[0]), Encoded(vs[1..]));
      var s, t := BitsOf(EncodedLabel(vs[0])), PrintElems(LABEL, None, vs[1..], false, 0).value;
      hide *;
      Shuffle(s, t, ToBits(0, 8));
    }
  }

  lemma Shuffle(s: seq<bool>, t: seq<bool>, z: seq<bool>)
    ensures [] + (s + t) == s + t && (s + t) + z == s + (t + z)
  {
  }

  /** The printed name is the labels behind their lengths, and a zero byte. */
  lemma NameText(v: Value)
    requires NameFits(v)
    ensures v.VList? && Print(LABELS, v, 0) == Some(BitsOf(Encoded(v.elems)))
  {
    NameParts(v);
    LabelsText(v.elems, true);
    var t := PrintElems(LABEL, None, v.elems, true, 0).value;
    assert PrintConsts(CNil) == [] && PrintConsts(ZERO) == ToBits(0, 8) + [];
    assert ToBits(0, 8) + [] == ToBits(0, 8);
    assert [] + (t + ToBits(0, 8)) == t + ToBits(0, 8);
  }

  // Reading back.

  lemma LabelIsRegular()
    ensures WellFormed(LABEL) && Invertible(LABEL) && Determined(LABEL) && Advances(LABEL)
    ensures WellFormed(LABELS) && Determined(LABELS)
  {
    var fs := FDep("length", 8, LABEL_LENGTH, FField(PLength("length", PInt(8, Any)), FNil));
    assert FieldsWellFormed(fs) && FieldsReadable(fs) && FieldsSelfDelimiting(fs);
    assert FieldsDetermined(fs) && FieldsAdvance(fs);
  }

  /** A zero byte is not the length of a label: the label list ends there. */
  lemma NoLabelAtZero(b: seq<bool>, i: nat)
    requires At(b, i, ToBits(0, 8))
    ensures WellFormed(LABEL) && Parse(LABEL, b, i, map[]) == Fail
  {
    LabelIsRegular();
    NumberOfFitting(0, 8);
    assert Violates(LABEL_LENGTH, 0);
    assert ParseInt(8, LABEL_LENGTH, b, i) == Fail;
  }

  lemma {:induction false} LabelsReadBack(vs: seq<Value>, b: seq<bool>, i: nat, first: bool)
    requires AllFit(LABEL, vs, map[], 0) && At(b, i, BitsOf(Encoded(vs)))
    ensures WellFormed(LABEL) && Advances(LABEL)
    ensures ParseMany(LABEL, None, b, i, map[], first) == (vs, i + 8 * |Encoded(vs)| - 8)
    ensures At(b, i + 8 * |Encoded(vs)| - 8, ToBits(0, 8))
    decreases |vs|
  {
    hide At, ToBits, Parse, Print, Fits, Readable, SelfDelimiting, Determined, WellFormed, Advances, EncodedLabel;
    LabelIsRegular();
    if vs == [] {
      BitsOfOne(0);
      NoLabelAtZero(b, i);
      Within(b, i, ToBits(0, 8));
    } else {
      var t := BitsOf(EncodedLabel(vs[0]));
      BitsOfConcat(EncodedLabel(vs[0]), Encoded(vs[1..]));
      Within(b, i, t + BitsOf(Encoded(vs[1..])));
      AtCat(b, i, t, BitsOf(Encoded(vs[1..])));
      LabelText(vs[0]);
      FittingReadsBack(LABEL, vs[0], map[], 0, b, i, t);
      LabelsReadBack(vs[1..], b, i + |t|, false);
      assert [vs[0]] + vs[1..] == vs;
    }
  }

  lemma ZeroRead(b: seq<bool>, j: nat)
    requires At(b, j, ToBits(0, 8))
    ensures j + 8 <= |b| && ConstsWellFormed(CNil) && ConstsWellFormed(ZERO)
    ensures ParseConsts(CNil, b, 0, false) == ConstResult(true, 0)
    ensures ParseConsts(ZERO, b, j, false) == ConstResult(true, j + 8)
  {
    assert ConstReadable(CInt(8, 0)) by { assert Pow2(8) == 256; }
    ConstPrinted(CInt(8, 0), b, j);
    assert ParseConsts(CNil, b, j + 8, false) == ConstResult(true, j + 8);
  }

  lemma LabelsParsed(b: seq<bool>, vs: seq<Value>, j: nat)
    requires WellFormed(LABEL) && Advances(LABEL) && ParseMany(LABEL, None, b, 0, map[], true) == (vs, j)
    ensures WellFormed(PMany(LABEL, false, None)) && Parse(PMany(LABEL, false, None), b, 0, map[]) == Ok(VList(vs), j)
  {
    hide ParseMany, Advances;
  }

  lemma LabelsAre()
    ensures LABELS == PWrap(CNil, PMany(LABEL, false, None), ZERO)
  {
  }

  lemma {:induction false} EncodedLength(vs: seq<Value>)
    ensures |Encoded(vs)| >= 1
  {
  }

  /** A name reads back from the front of any stream. */
  lemma NameReadsBack(v: Value, b: seq<bool>)
    requires NameFits(v) && v.VList? && At(b, 0, BitsOf(Encoded(v.elems)))
    ensures WellFormed(LABELS) && Parse(LABELS, b, 0, map[]) == Ok(v, 8 * |Encoded(v.elems)|)
  {
    hide *;
    NameParts(v);
    LabelIsRegular();
    LabelsAre();
    EncodedLength(v.elems);
    LabelsReadBack(v.elems, b, 0, true);
    var e := 8 * |Encoded(v.elems)|;
    ZeroRead(b, e - 8);
    LabelsParsed(b, v.elems, e - 8);
    ConstsAround(CNil, PMany(LABEL, false, None), ZERO, b, 0, map[], v, 0, e - 8, e);
  }

  /** Without pointers the decompression returns the name as it stands. */
  lemma {:induction false} FollowEncoded(vs: seq<Value>, data: seq<byte>, pos: nat)
    requires AllFit(LABEL, vs, map[], 0)
    requires pos + |Encoded(vs)| <= |data| && data[pos..pos + |Encoded(vs)|] == Encoded(vs)
    ensures Follow(PointerOffset, data, pos, |vs| + 1) == Some(Ended(Encoded(vs), 0, pos + |Encoded(vs)|))
    ensures |vs| + 1 <= |Encoded(vs)|
    decreases |vs|
  {
    hide Follow, Fits, EncodedLabel;
    var e := Encoded(vs);
    if vs == [] {
      assert data[pos] == e[0];
      FollowZero(data, pos);
    } else {
      var s, next := EncodedLabel(vs[0]), pos + |EncodedLabel(vs[0])|;
      assert data[pos..next] == e[..|s|] == s;
      assert data[next..next + |Encoded(vs[1..])|] == e[|s|..];
      LabelEncoding(vs[0]);
      assert data[pos] == s[0];
      FollowEncoded(vs[1..], data, next);
      FollowLabel(data, pos, |vs|, Encoded(vs[1..]), next + |Encoded(vs[1..])|);
    }
  }

  lemma FollowZero(data: seq<byte>, pos: nat)
    requires pos < |data| && data[pos] == 0
    ensures Follow(PointerOffset, data, pos, 1) == Some(Ended([0], 0, pos + 1))
  {
  }

  lemma FollowLabel(data: seq<byte>, pos: nat, fuel: nat, name: seq<byte>, after: nat)
    requires pos < |data| && 0 < data[pos] < 192 && pos + 1 + data[pos] <= |data|
    requires Follow(PointerOffset, data, pos + 1 + data[pos], fuel) == Some(Ended(name, 0, after))
    ensures Follow(PointerOffset, data, pos, fuel + 1) == Some(Ended(data[pos..pos + 1 + data[pos]] + name, 0, after))
  {
    hide PointerOffset;
  }

  lemma LabelEncoding(l: Value)
    requires Fits(LABEL, l, map[], 0)
    ensures var s := EncodedLabel(l); 0 < s[0] <= 64 && |s| == 1 + s[0]
  {
    LabelFitsShape(l);
  }

  lemma NamedReadsBack(n: Named, p: Parser, data: seq<byte>, at: nat, t: seq<bool>)
    requires WellFormed(p) && Invertible(p) && NameFits(n.name) && Fits(p, n.rest, map[], 0)
    requires at % 8 == 0 && NamedText(n, p) == Some(t) && At(BitsOf(data), at, t)
    ensures ParseNamed(data, at, p) == Some((n, at + |t|))
  {
    hide At, Parse, Print, Fits, BitsOf, Follow, Encoded, Readable, SelfDelimiting, WellFormed, AllFit;
    NameParts(n.name);
    var e, r := Encoded(n.name.elems), Print(p, n.rest, 0).value;
    NameText(n.name);
    AtCat(BitsOf(data), at, BitsOf(e), r);
    Within(BitsOf(data), at, BitsOf(e));
    BytesAt(data, at / 8, e, at, at + |BitsOf(e)|);
    FollowEncoded(n.name.elems, data, at / 8);
    FollowMore(PointerOffset, data, at / 8, |n.name.elems| + 1, |data| + 1);
    assert e + Zeros(0) == e;
    Everywhere(BitsOf(e));
    NameReadsBack(n.name, BitsOf(e));
    FittingReadsBack(p, n.rest, map[], 0, BitsOf(data), at + |BitsOf(e)|, r);
  }

  /** A pointer stands for the name it points to: what is read is that name, and the message goes on
      behind the two bytes of the pointer. */
  lemma PointerReadsBack(name: Value, data: seq<byte>, pos: nat, at: nat, p: Parser)
    requires WellFormed(p) && NameFits(name) && name.VList? && pos + 1 < |data| && data[pos] >= 192
    requires data[pos + 1] == at && at + |Encoded(name.elems)| <= |data|
    requires data[at..at + |Encoded(name.elems)|] == Encoded(name.elems)
    ensures ParseNamed(data, 8 * pos, p) ==
            match Parse(p, BitsOf(data), 8 * (pos + 2), map[])
            case Fail => None
            case Ok(w, j) => Some((Named(name, w), j))
  {
    hide *;
    var e := Encoded(name.elems);
    LabelIsRegular();
    PointerFollowed(name, data, pos, at);
    BitsOfConcat(e, Zeros(1));
    FrontAt(BitsOf(e), BitsOf(Zeros(1)));
    NameReadsBack(name, BitsOf(e + Zeros(1)));
    NamedParsed(data, 8 * pos, p, e, 1, pos + 2, name);
  }

  lemma NamedParsed(data: seq<byte>, at: nat, p: Parser, name: seq<byte>, k: nat, after: nat, v: Value)
    requires WellFormed(p) && at % 8 == 0 && after <= |data|
    requires Follow(PointerOffset, data, at / 8, |data| + 1) == Some(Ended(name, k, after))
    requires WellFormed(LABELS) && Parse(LABELS, BitsOf(name + Zeros(k)), 0, map[]).Ok?
    requires Parse(LABELS, BitsOf(name + Zeros(k)), 0, map[]).value == v
    ensures ParseNamed(data, at, p) ==
            match Parse(p, BitsOf(data), 8 * after, map[])
            case Fail => None
            case Ok(w, j) => Some((Named(v, w), j))
  {
    hide Parse, BitsOf, Follow, WellFormed;
  }

  lemma FrontAt(a: seq<bool>, b: seq<bool>)
    ensures At(a + b, 0, a)
  {
  }

  lemma PointerFollowed(name: Value, data: seq<byte>, pos: nat, at: nat)
    requires NameFits(name) && name.VList? && pos + 1 < |data| && data[pos] >= 192
    requires data[pos + 1] == at && at + |Encoded(name.elems)| <= |data|
    requires data[at..at + |Encoded(name.elems)|] == Encoded(name.elems)
    ensures Follow(PointerOffset, data, pos, |data| + 1) == Some(Ended(Encoded(name.elems), 1, pos + 2))
  {
    hide *;
    var e := Encoded(name.elems);
    NameParts(name);
    FollowEncoded(name.elems, data, at);
    OffsetIsLowByte(data[pos], at);
    FollowPointer(data, pos, |name.elems| + 1, e, at + |e|);
    if |name.elems| + 2 <= |data| + 1 { FollowMore(PointerOffset, data, pos, |name.elems| + 2, |data| + 1); }
  }

  lemma FollowPointer(data: seq<byte>, pos: nat, fuel: nat, name: seq<byte>, after: nat)
    requires pos + 1 < |data| && data[pos] >= 192
    requires Follow(PointerOffset, data, PointerOffset(data[pos], data[pos + 1]), fuel) == Some(Ended(name, 0, after))
    ensures Follow(PointerOffset, data, pos, fuel + 1) == Some(Ended(name, 1, pos + 2))
  {
    hide PointerOffset;
  }

  // Every part of a message is a whole number of bytes.

  predicate Flat(fs: Fields) {
    match fs
    case FNil => true
    case FConst(c, rest) => c.CInt? && Flat(rest)
    case FField(p, rest) => p.PInt? && Flat(rest)
    case FDep(_, _, _, rest) => Flat(rest)
  }

  function Width(fs: Fields): nat
    requires Flat(fs)
  {
    match fs
    case FNil => 0
    case FConst(c, rest) => c.width + Width(rest)
    case FField(p, rest) => p.width + Width(rest)
    case FDep(_, w, _, rest) => w + Width(rest)
  }

  lemma {:induction false} FlatWidth(fs: Fields, vs: seq<Value>, d: Env, junk: nat)
    requires Flat(fs) && PrintFields(fs, vs, d, junk).Some?
    ensures |PrintFields(fs, vs, d, junk).value| == Width(fs)
  {
    match fs
    case FNil =>
    case FConst(c, rest) => FlatWidth(rest, vs, d, junk);
    case FField(p, rest) => FlatWidth(rest, vs[1..], d, junk);
    case FDep(_, _, _, rest) => FlatWidth(rest, vs, d, junk);
  }

  lemma HeaderWidth(v: Value)
    requires Print(HEADER, v, 0).Some?
    ensures |Print(HEADER, v, 0).value| == 96
  {
    assert Flat(COUNTS) && Width(COUNTS) == 64;
    var fs := FConst(CInt(3, 0), FField(PInt(4, Any), COUNTS));
    assert Flat(fs) && Width(fs) == 71;
    var gs := FField(PInt(1, Any), FField(PInt(1, Any), fs));
    assert Flat(gs) && Width(gs) == 73;
    var hs := FField(PInt(1, Any), FField(PInt(1, Any), gs));
    assert Flat(hs) && Width(hs) == 75;
    assert FLAGS == FField(PInt(1, Any), FField(PInt(4, Any), hs));
    assert Flat(FLAGS) && Width(FLAGS) == 80;
    var all := FField(PInt(16, Any), FLAGS);
    FlatWidth(all, v.fields, AssignsFields(all, v.fields), 0);
  }

  lemma QuestionWidth(v: Value)
    requires Print(QUESTION, v, 0).Some?
    ensures |Print(QUESTION, v, 0).value| == 32
  {
    FlatWidth(QUESTION.fields, v.fields, AssignsFields(QUESTION.fields, v.fields), 0);
  }

  lemma {:induction false} ElemsWidth(vs: seq<Value>, first: bool)
    requires PrintElems(PInt(8, Any), None, vs, first, 0).Some?
    ensures |PrintElems(PInt(8, Any), None, vs, first, 0).value| == 8 * |vs|
  {
    if vs != [] { ElemsWidth(vs[1..], false); }
  }

  /** Whatever these fields print takes whole bytes. */
  ghost predicate WholeBytes(fs: Fields) {
    forall vs, d | PrintFields(fs, vs, d, 0).Some? :: |PrintFields(fs, vs, d, 0).value| % 8 == 0
  }

  lemma IntKeepsWhole(w: nat, c: Constraint, rest: Fields)
    requires w % 8 == 0 && WholeBytes(rest)
    ensures WholeBytes(FField(PInt(w, c), rest))
  {
    forall vs, d | PrintFields(FField(PInt(w, c), rest), vs, d, 0).Some?
      ensures |PrintFields(FField(PInt(w, c), rest), vs, d, 0).value| % 8 == 0
    {
      assert PrintFields(rest, vs[1..], d, 0).Some?;
    }
  }

  lemma RdataWhole()
    ensures WholeBytes(RDATA)
  {
    hide PrintFields;
    forall vs, d | PrintFields(RDATA, vs, d, 0).Some? ensures |PrintFields(RDATA, vs, d, 0).value| % 8 == 0 {
      RdataWidth(vs, d);
    }
  }

  lemma AnswerWidth(v: Value)
    requires Print(ANSWER, v, 0).Some?
    ensures |Print(ANSWER, v, 0).value| % 8 == 0
  {
    hide PrintFields, WholeBytes;
    RdataWhole();
    IntKeepsWhole(32, Any, RDATA);
    IntKeepsWhole(16, OneOf([IntValue(1)]), TTL);
    IntKeepsWhole(16, Number16(1, 16).c, CLASS);
    StructWhole(FField(Number16(1, 16), CLASS), v);
  }

  lemma StructWhole(fs: Fields, v: Value)
    requires WholeBytes(fs) && Print(PStruct(fs), v, 0).Some?
    ensures |Print(PStruct(fs), v, 0).value| % 8 == 0
  {
    FieldsOfAnswer(fs, v);
  }

  lemma FieldsOfAnswer(fs: Fields, v: Value)
    requires Print(PStruct(fs), v, 0).Some?
    ensures v.VStruct? && Print(PStruct(fs), v, 0) == PrintFields(fs, v.fields, AssignsFields(fs, v.fields), 0)
  {
  }

  lemma RdataWidth(vs: seq<Value>, d: Env)
    requires PrintFields(RDATA, vs, d, 0).Some?
    ensures |PrintFields(RDATA, vs, d, 0).value| % 8 == 0
  {
    var p := PLength("rlength", PInt(8, Any));
    var bytes := FField(p, FNil);
    assert PrintFields(bytes, vs, d, 0).Some?;
    assert Print(p, vs[0], 0).Some? && PrintFields(FNil, vs[1..], d, 0) == Some([]);
    ElemsWidth(vs[0].elems, true);
    assert |PrintFields(bytes, vs, d, 0).value| == 8 * |vs[0].elems|;
  }

  predicate IsSection(p: Parser) {
    p == QUESTION || p == ANSWER
  }

  lemma NamedWidth(n: Named, p: Parser)
    requires IsSection(p) && NameFits(n.name) && NamedText(n, p).Some?
    ensures |NamedText(n, p).value| % 8 == 0
  {
    hide Print, NameFits, Encoded, BitsOf;
    NameText(n.name);
    RestWidth(n.rest, p);
  }

  lemma RestWidth(v: Value, p: Parser)
    requires IsSection(p) && Print(p, v, 0).Some?
    ensures |Print(p, v, 0).value| % 8 == 0
  {
    hide Print;
    if p == QUESTION { QuestionWidth(v); } else { AnswerWidth(v); }
  }

  lemma {:induction false} SectionReadsBack(ns: seq<Named>, p: Parser, data: seq<byte>, at: nat, t: seq<bool>)
    requires IsSection(p) && WellFormed(p) && Invertible(p) && SectionFits(ns, p)
    requires at % 8 == 0 && SectionText(ns, p) == Some(t) && At(BitsOf(data), at, t)
    ensures ParseSection(data, at, |ns|, p) == Some((ns, at + |t|)) && |t| % 8 == 0
    decreases |ns|
  {
    hide *;
    SectionParts(ns, p);
    if ns == [] {
      NoSection(data, at, p);
    } else {
      var s, m := NamedText(ns[0], p).value, SectionText(ns[1..], p).value;
      EntryReadsBack(ns[0], p, data, at, s, m);
      SectionReadsBack(ns[1..], p, data, at + |s|, m);
      NamedThenSection(data, at, p, ns, at + |s|, at + |t|);
    }
  }

  lemma SectionParts(ns: seq<Named>, p: Parser)
    requires Invertible(p) && SectionFits(ns, p) && SectionText(ns, p).Some?
    ensures ns == [] ==> SectionText(ns, p) == Some([])
    ensures ns != [] ==>
              && NamedText(ns[0], p).Some? && SectionText(ns[1..], p).Some?
              && SectionText(ns, p) == Some(NamedText(ns[0], p).value + SectionText(ns[1..], p).value)
              && NameFits(ns[0].name) && Fits(p, ns[0].rest, map[], 0) && SectionFits(ns[1..], p)
  {
    hide NamedText, NameFits, Fits, Invertible;
    if ns != [] { assert ns[0] in ns; }
  }

  lemma NoSection(data: seq<byte>, at: nat, p: Parser)
    requires WellFormed(p)
    ensures ParseSection(data, at, 0, p) == Some(([], at))
  {
  }

  lemma EntryReadsBack(n: Named, p: Parser, data: seq<byte>, at: nat, s: seq<bool>, m: seq<bool>)
    requires IsSection(p) && WellFormed(p) && Invertible(p) && NameFits(n.name) && Fits(p, n.rest, map[], 0)
    requires at % 8 == 0 && NamedText(n, p) == Some(s) && At(BitsOf(data), at, s + m)
    ensures ParseNamed(data, at, p) == Some((n, at + |s|)) && |s| % 8 == 0 && At(BitsOf(data), at + |s|, m)
  {
    hide At, ParseNamed, NamedText, NameFits, Fits, WellFormed, Invertible, BitsOf, IsSection;
    AtCat(BitsOf(data), at, s, m);
    NamedReadsBack(n, p, data, at, s);
    NamedWidth(n, p);
  }

  lemma NamedThenSection(data: seq<byte>, at: nat, p: Parser, ns: seq<Named>, j: nat, k: nat)
    requires WellFormed(p) && ns != [] && ParseNamed(data, at, p) == Some((ns[0], j))
    requires ParseSection(data, j, |ns| - 1, p) == Some((ns[1..], k))
    ensures ParseSection(data, at, |ns|, p) == Some((ns, k))
  {
    hide ParseNamed;
    assert [ns[0]] + ns[1..] == ns;
  }

  lemma BodyReadsBack(m: Message, data: seq<byte>, i: nat, t: seq<bool>)
    requires BodyFits(m) && BodyText(m) == Some(t) && i % 8 == 0 && At(BitsOf(data), i, t)
    requires |m.fixed| == 8
    ensures ParseBody(data, i, Header(m)) == Some((m, i + |t|))
  {
    hide SectionText, ParseSection, SectionFits, WellFormed, Invertible, BitsOf, At, Count, Fixed, Header;
    SectionsAreRegular();
    HeaderParts(m);
    var b := BitsOf(data);
    var q, an := SectionText(m.questions, QUESTION).value, SectionText(m.answers, ANSWER).value;
    var au, ad := SectionText(m.authority, ANSWER).value, SectionText(m.additional, ANSWER).value;
    AtCat(b, i, q, an + (au + ad));
    SectionReadsBack(m.questions, QUESTION, data, i, q);
    var j := i + |q|;
    AtCat(b, j, an, au + ad);
    SectionReadsBack(m.answers, ANSWER, data, j, an);
    var k := j + |an|;
    AtCat(b, k, au, ad);
    SectionReadsBack(m.authority, ANSWER, data, k, au);
    SectionReadsBack(m.additional, ANSWER, data, k + |au|, ad);
  }

  /** The DNS message round trip: a buffer that begins with what the printer writes for a message that
      meets the widths and constraints parses to that message, and the parser stops behind it. */
  lemma MessageRoundTrip(m: Message, data: seq<byte>, t: seq<bool>)
    requires MessageFits(m) && MessageText(m) == Some(t) && At(BitsOf(data), 0, t)
    ensures ParseMessage(data) == Some((m, |t|))
  {
    hide Print, Fits, BodyText, BodyFits, Parse, ParseBody, WellFormed, Invertible, BitsOf, At, Header;
    var b := BitsOf(data);
    HeaderIsRegular();
    var h, rest := Print(HEADER, Header(m), 0).value, BodyText(m).value;
    AtCat(b, 0, h, rest);
    FittingReadsBack(HEADER, Header(m), map[], 0, b, 0, h);
    HeaderWidth(Header(m));
    BodyReadsBack(m, data, 96, rest);
  }

  lemma Everywhere(b: seq<bool>)
    ensures At(b, 0, b)
  {
  }

  lemma {:induction false} SectionPrints(ns: seq<Named>, p: Parser)
    requires IsSection(p) && Invertible(p) && SectionFits(ns, p)
    ensures SectionText(ns, p).Some? && |SectionText(ns, p).value| % 8 == 0
    decreases |ns|
  {
    hide NamedText, NameFits, Fits, Invertible, IsSection;
    if ns != [] {
      assert ns[0] in ns;
      EntryPrints(ns[0], p);
      SectionPrints(ns[1..], p);
    }
  }

  lemma EntryPrints(n: Named, p: Parser)
    requires IsSection(p) && Invertible(p) && NameFits(n.name) && Fits(p, n.rest, map[], 0)
    ensures NamedText(n, p).Some? && |NamedText(n, p).value| % 8 == 0
  {
    hide NameFits, Fits, Print, Invertible, IsSection;
    NameText(n.name);
    FittingPrints(p, n.rest, map[], 0);
    NamedWidth(n, p);
  }

  /** A whole number of bytes, packed. */
  function Pack(bits: seq<bool>): (data: seq<byte>)
    requires |bits| % 8 == 0
    ensures BitsOf(data) == bits
  {
    if bits == [] then []
    else
      var first := Number(bits[..8]);
      assert first < 256 by { assert Pow2(8) == 256; }
      ToBitsOfNumber(bits[..8]);
      assert bits == bits[..8] + bits[8..];
      var data := [first] + Pack(bits[8..]);
      assert data[1..] == Pack(bits[8..]);
      data
  }

  lemma FittingMessagePrints(m: Message)
    requires MessageFits(m)
    ensures MessageText(m).Some? && |MessageText(m).value| % 8 == 0
  {
    hide Print, Fits, SectionText, SectionFits, Header, WellFormed, Invertible, Determined;
    HeaderIsRegular();
    SectionsAreRegular();
    FittingPrints(HEADER, Header(m), map[], 0);
    HeaderWidth(Header(m));
    SectionPrints(m.questions, QUESTION);
    SectionPrints(m.answers, ANSWER);
    SectionPrints(m.authority, ANSWER);
    SectionPrints(m.additional, ANSWER);
  }

  // Conversely, every message the parser returns meets the widths and constraints, also when
  // its names were compressed.

  lemma ParsedNamedFits(data: seq<byte>, at: nat, p: Parser)
    requires WellFormed(p) && Invertible(p) && Determined(p) && ParseNamed(data, at, p).Some?
    ensures var n := ParseNamed(data, at, p).value.0;
            NameFits(n.name) && Fits(p, n.rest, map[], 0)
  {
    hide Parse, Fits, BitsOf, Follow, Determined, Invertible;
    var w := Follow(PointerOffset, data, at / 8, |data| + 1).value;
    LabelIsRegular();
    ParsedFits(LABELS, BitsOf(w.name + Zeros(w.pointers)), 0, map[], 0);
    ParsedFits(p, BitsOf(data), 8 * w.after, map[], 0);
  }

  lemma {:induction false} ParsedSectionFits(data: seq<byte>, at: nat, n: nat, p: Parser)
    requires WellFormed(p) && Invertible(p) && Determined(p) && ParseSection(data, at, n, p).Some?
    ensures var ns := ParseSection(data, at, n, p).value.0;
            |ns| == n && SectionFits(ns, p)
    decreases n
  {
    hide ParseNamed, Fits, NameFits, Determined, Invertible, WellFormed;
    if n > 0 {
      var x := ParseNamed(data, at, p).value;
      ParsedNamedFits(data, at, p);
      ParsedSectionFits(data, x.1, n - 1, p);
    }
  }

  function FieldCount(fs: Fields): nat
    requires Flat(fs)
  {
    match fs
    case FNil => 0
    case FConst(_, rest) => FieldCount(rest)
    case FField(_, rest) => 1 + FieldCount(rest)
    case FDep(_, _, _, rest) => FieldCount(rest)
  }

  lemma {:induction false} FlatShape(fs: Fields, vs: seq<Value>, env: Env, d: Env, junk: nat)
    requires Flat(fs) && FieldsFit(fs, vs, env, d, junk)
    ensures |vs| == FieldCount(fs) && forall v | v in vs :: v.VInt?
  {
    match fs
    case FNil =>
    case FConst(_, rest) => FlatShape(rest, vs, env, d, junk);
    case FField(_, rest) =>
      FlatShape(rest, vs[1..], env, d, junk);
      assert vs == [vs[0]] + vs[1..];
    case FDep(x, w, _, rest) => FlatShape(rest, vs, env[x := Lookup(d, x, junk) % Pow2(w)], d, junk);
  }

  lemma HeaderShape(h: Value)
    requires Invertible(HEADER) && Fits(HEADER, h, map[], 0)
    ensures h.VStruct? && |h.fields| == 12 && forall v | v in h.fields :: v.VInt?
  {
    assert Flat(COUNTS) && FieldCount(COUNTS) == 4;
    var fs := FConst(CInt(3, 0), FField(PInt(4, Any), COUNTS));
    assert Flat(fs) && FieldCount(fs) == 5;
    var gs := FField(PInt(1, Any), FField(PInt(1, Any), fs));
    assert Flat(gs) && FieldCount(gs) == 7;
    var hs := FField(PInt(1, Any), FField(PInt(1, Any), gs));
    assert Flat(hs) && FieldCount(hs) == 9;
    assert FLAGS == FField(PInt(1, Any), FField(PInt(4, Any), hs));
    assert Flat(FLAGS) && FieldCount(FLAGS) == 11;
    var all := FField(PInt(16, Any), FLAGS);
    FlatShape(all, h.fields, map[], AssignsFields(all, h.fields), 0);
  }

  lemma HeaderRebuilt(h: Value, m: Message)
    requires h.VStruct? && |h.fields| == 12 && (forall v | v in h.fields :: v.VInt?)
    requires m.fixed == Fixed(h)
    requires Count(h, 0) == |m.questions| && Count(h, 1) == |m.answers|
    requires Count(h, 2) == |m.authority| && Count(h, 3) == |m.additional|
    ensures |m.fixed| == 8 && Header(m) == h
  {
    assert h.fields[8] in h.fields && h.fields[9] in h.fields && h.fields[10] in h.fields && h.fields[11] in h.fields;
    assert h.fields == h.fields[..8] + [h.fields[8], h.fields[9], h.fields[10], h.fields[11]];
  }

  lemma ParsedBodyFits(data: seq<byte>, i: nat, h: Value)
    requires ParseBody(data, i, h).Some?
    ensures var m := ParseBody(data, i, h).value.0;
            BodyFits(m) && m.fixed == Fixed(h)
            && Count(h, 0) == |m.questions| && Count(h, 1) == |m.answers|
            && Count(h, 2) == |m.authority| && Count(h, 3) == |m.additional|
  {
    hide ParseSection, SectionFits, WellFormed, Invertible, Determined, Count, Fixed;
    SectionsAreRegular();
    var (_, j) := ParseSection(data, i, Count(h, 0), QUESTION).value;
    var (_, k) := ParseSection(data, j, Count(h, 1), ANSWER).value;
    var (_, l) := ParseSection(data, k, Count(h, 2), ANSWER).value;
    ParsedSectionFits(data, i, Count(h, 0), QUESTION);
    ParsedSectionFits(data, j, Count(h, 1), ANSWER);
    ParsedSectionFits(data, k, Count(h, 2), ANSWER);
    ParsedSectionFits(data, l, Count(h, 3), ANSWER);
  }

  lemma ParsedMessageFits(data: seq<byte>)
    requires ParseMessage(data).Some?
    ensures MessageFits(ParseMessage(data).value.0)
  {
    hide Parse, ParseBody, BodyFits, Fits, WellFormed, Invertible, Determined, BitsOf, Count, Fixed, Header;
    HeaderIsRegular();
    var r := Parse(HEADER, BitsOf(data), 0, map[]);
    ParsedFits(HEADER, BitsOf(data), 0, map[], 0);
    HeaderShape(r.value);
    ParsedBodyFits(data, r.at, r.value);
    HeaderRebuilt(r.value, ParseBody(data, r.at, r.value).value.0);
  }

  /** The printer's output for a message, as a buffer, parses back to it, to the last byte. */
  predicate Recovered(m: Message) {
    var t := MessageText(m);
    t.Some? && |t.value| % 8 == 0 && ParseMessage(Pack(t.value)) == Some((m, |t.value|))
  }

  /** A message is recovered from what the printer wrote for it exactly when it meets the widths
      and constraints of the grammar. */
  lemma RecoveredExactlyWhen(m: Message)
    ensures Recovered(m) <==> MessageFits(m)
  {
    hide MessageText, MessageFits, ParseMessage, BitsOf, Pack;
    if MessageFits(m) {
      FittingMessagePrints(m);
      Everywhere(MessageText(m).value);
      MessageRoundTrip(m, Pack(MessageText(m).value), MessageText(m).value);
    }
    if Recovered(m) {
      ParsedMessageFits(Pack(MessageText(m).value));
    }
  }

  /** Whatever buffer a message was parsed from, compressed names included, the message is
      recovered from what the printer writes for it. */
  lemma ReprintedMessageRecovered(data: seq<byte>)
    requires ParseMessage(data).Some?
    ensures Recovered(ParseMessage(data).value.0)
  {
    ParsedMessageFits(data);
    RecoveredExactlyWhen(ParseMessage(data).value.0);
  }
}
