/** Answering a DNS query: the definitions found in the zone index become the answers of a reply,
    which is printed with the printer of the DNS grammar. */
module DnsServer {
  import opened Bits
  import opened OutStream
  import opened Grammar
  import opened DirectSpec
  import opened PrintSpec
  import opened PrintParsed
  import opened PrintExactly
  import opened ParsePrinted
  import opened Printer
  import opened DnsMessage
  import opened DnsWire
  import opened DnsGenerate
  import opened ZoneIndex

  // The data of an answer.

  /** The digits of a part as the C loop reads them, whatever the characters are. */
  function Natoi(s: seq<byte>): int {
    if s == [] then 0 else Natoi(s[..|s| - 1]) * 10 + (s[|s| - 1] as int - 48)
  }

  method NatoiLoop(s: seq<byte>) returns (x: int)
    ensures x == Natoi(s)
  {
    x := 0;
    for n := 0 to |s|
      invariant x == Natoi(s[..n])
    {
      assert s[..n + 1][..n] == s[..n];
      x := x * 10 + (s[n] as int - 48);
    }
    assert s[..|s|] == s;
  }

  function Decimal(n: nat): (s: seq<byte>) {
    (if n < 10 then [] else Decimal(n / 10)) + [48 + n % 10]
  }

  /** Reading the decimal digits of a number gives the number. */
  lemma {:induction false} NatoiOfDecimal(n: nat)
    ensures Natoi(Decimal(n)) == n
  {
    var s := Decimal(n);
    if n < 10 {
      assert s[..|s| - 1] == [];
    } else {
      NatoiOfDecimal(n / 10);
      assert s[..|s| - 1] == Decimal(n / 10);
    }
  }

  datatype Answer = Answer(rtype: nat, rdata: seq<byte>)

  /** A name as it ends up in an answer: the labels behind their lengths, and a zero. */
  function NameBytes(name: Name): seq<byte> {
    if name == [] then [0] else LabelBytes(name[0]) + NameBytes(name[1..])
  }

  function LabelBytes(chars: seq<byte>): seq<byte> {
    [|chars| % 256] + chars
  }

  function AddressByte(j: Definition, k: nat): byte
    requires k < |j.parts|
  {
    Natoi(j.parts[k]) % 256
  }

  /** What a definition that answers is answered with: four bytes for an address, the name for
      the others. */
  function AnswerOf(j: Definition): Answer
    requires j.kind.A? ==> |j.parts| >= 4
  {
    match j.kind
    case A => Answer(TYPE_A, [AddressByte(j, 0), AddressByte(j, 1), AddressByte(j, 2), AddressByte(j, 3)])
    case NS => Answer(TYPE_NS, NameBytes(j.parts))
    case MX => Answer(TYPE_MX, NameBytes(j.parts))
    case CNAME => Answer(TYPE_CNAME, NameBytes(j.parts))
  }

  lemma NatoiDigits(a: byte, b: byte, c: byte)
    ensures Natoi([c]) == c - 48 && Natoi([a, b, c]) == 100 * (a - 48) + 10 * (b - 48) + (c - 48)
  {
    var one: seq<byte> := [];
    assert [c][..0] == one && [a][..0] == one && [a, b][..1] == [a] && [a, b, c][..2] == [a, b];
    assert Natoi([a]) == a - 48;
    assert Natoi([a, b]) == 10 * (a - 48) + (b - 48);
  }

  /** The characters 192.0.2.1 are answered with the bytes 192 0 2 1. */
  lemma AddressInAscii(hostname: Name)
    ensures AnswerOf(Definition(hostname, A, [[0x31, 0x39, 0x32], [0x30], [0x32], [0x31]]))
         == Answer(TYPE_A, [192, 0, 2, 1])
  {
    NatoiDigits(0x31, 0x39, 0x32);
    NatoiDigits(0, 0, 0x30);
    NatoiDigits(0, 0, 0x32);
    NatoiDigits(0, 0, 0x31);
    hide Natoi;
  }

  // The labels of a name as a value of the grammar, and what the label printer writes for them.

  function ByteValues(s: seq<byte>): (vs: seq<Value>)
    ensures |vs| == |s|
  {
    if s == [] then [] else [VInt(s[0])] + ByteValues(s[1..])
  }

  function LabelValue(chars: seq<byte>): Value {
    VStruct([VList(ByteValues(chars))])
  }

  function LabelValues(name: Name): (vs: seq<Value>)
    ensures |vs| == |name|
  {
    if name == [] then [] else [LabelValue(name[0])] + LabelValues(name[1..])
  }

  function NameValue(name: Name): Value {
    VList(LabelValues(name))
  }

  lemma {:induction false} ByteValuesFit(s: seq<byte>, env: Env)
    ensures AllFit(PInt(8, Any), ByteValues(s), env, 0) && Bytes(ByteValues(s)) == s
  {
    if s != [] {
      assert Pow2(8) == 256;
      assert ByteValues(s)[1..] == ByteValues(s[1..]);
      ByteValuesFit(s[1..], env);
      assert [s[0]] + s[1..] == s;
    }
  }

  /** A label of any length is printed; its length byte holds what is left of it. */
  lemma LabelPrinted(chars: seq<byte>)
    ensures Print(LABEL, LabelValue(chars), 0) == Some(BitsOf(LabelBytes(chars)))
  {
    var elems, n := ByteValues(chars), |chars|;
    var p := PLength("length", PInt(8, Any));
    var fs, vs := FField(p, FNil), [VList(elems)];
    var d := AssignsFields(FDep("length", 8, LABEL_LENGTH, fs), vs);
    assert vs[1..] == [];
    assert d == AssignsFields(fs, vs) == Assigns(p, vs[0]) + AssignsFields(FNil, vs[1..]);
    assert "length" in d && d["length"] == n;
    ByteValuesFit(chars, map[]);
    BytesText(elems, map[], true);
    var t := BitsOf(chars);
    assert t + [] == t;
    assert PrintFields(fs, vs, d, 0) == Some(t);
    ToBitsOfMod(n, 8);
    assert Pow2(8) == 256;
    BitsOfOne(n % 256);
    BitsOfConcat([n % 256], chars);
  }

  lemma {:induction false} LabelsPrinted(name: Name, first: bool)
    ensures PrintElems(LABEL, None, LabelValues(name), first, 0).Some?
    ensures PrintElems(LABEL, None, LabelValues(name), first, 0).value + ToBits(0, 8) == BitsOf(NameBytes(name))
    decreases |name|
  {
    hide ToBits, Print, LabelValue, LabelBytes, BitsOf;
    if name == [] {
      BitsOfOne(0);
      assert [] + ToBits(0, 8) == ToBits(0, 8);
    } else {
      LabelPrinted(name[0]);
      LabelsPrinted(name[1..], false);
      PrintElemsCons(LABEL, None, LabelValue(name[0]), LabelValues(name[1..]), first, 0);
      BitsOfConcat(LabelBytes(name[0]), NameBytes(name[1..]));
      var s, t := BitsOf(LabelBytes(name[0])), PrintElems(LABEL, None, LabelValues(name[1..]), false, 0).value;
      Shuffle(s, t, ToBits(0, 8));
    }
  }

  /** The bytes of a name are its text in the grammar. */
  lemma NamePrinted(name: Name)
    ensures Print(LABELS, NameValue(name), 0) == Some(BitsOf(NameBytes(name)))
  {
    LabelsPrinted(name, true);
    var t := PrintElems(LABEL, None, LabelValues(name), true, 0).value;
    assert PrintConsts(CNil) == [] && PrintConsts(ZERO) == ToBits(0, 8) + [];
    assert ToBits(0, 8) + [] == ToBits(0, 8);
    assert [] + (t + ToBits(0, 8)) == t + ToBits(0, 8);
  }

  /** Every label has 1 to 64 bytes. */
  predicate Regular(name: Name) {
    name != [] ==> 1 <= |name[0]| <= 64 && Regular(name[1..])
  }

  lemma {:induction false} ByteValuesInRange(s: seq<byte>)
    ensures forall e | e in ByteValues(s) :: Int(e, 256)
  {
    if s != [] { ByteValuesInRange(s[1..]); }
  }

  lemma LabelFitsWhen(chars: seq<byte>)
    ensures Fits(LABEL, LabelValue(chars), map[], 0) <==> 1 <= |chars| <= 64
  {
    LabelFitsInRange(LabelValue(chars));
    ByteValuesInRange(chars);
    hide Fits;
  }

  lemma {:induction false} LabelsFitWhen(name: Name)
    ensures AllFit(LABEL, LabelValues(name), map[], 0) <==> Regular(name)
  {
    hide Fits, LabelValue;
    if name != [] {
      LabelFitsWhen(name[0]);
      LabelsFitWhen(name[1..]);
      assert LabelValues(name)[1..] == LabelValues(name[1..]);
    }
  }

  lemma NameFitsWhen(name: Name)
    ensures NameFits(NameValue(name)) <==> Regular(name)
  {
    LabelsFitWhen(name);
    assert NameFits(NameValue(name)) == Fits(PMany(LABEL, false, None), NameValue(name), map[], 0);
  }

  /** The bytes of a name read back as its labels exactly when every label has 1 to 64 bytes. */
  lemma NameReadsBackWhen(name: Name)
    ensures WellFormed(LABELS)
    ensures var b := BitsOf(NameBytes(name));
            Parse(LABELS, b, 0, map[]) == Ok(NameValue(name), |b|) <==> Regular(name)
  {
    var b, v := BitsOf(NameBytes(name)), NameValue(name);
    LabelsFormed();
    LabelIsRegular();
    NamePrinted(name);
    NameFitsWhen(name);
    hide Fits, Parse, Print, BitsOf, NameBytes, LabelValues, WellFormed, Determined, Encoded;
    if Regular(name) {
      NameText(v);
      Everywhere(b);
      BitsDetermineBytes(NameBytes(name), Encoded(v.elems));
      NameReadsBack(v, b);
    }
    if Parse(LABELS, b, 0, map[]) == Ok(v, |b|) {
      ParsedFits(LABELS, b, 0, map[], 0);
    }
  }

  /** A name for an answer, written by the printer of the grammar to a stream of its own. */
  method DomainResponse(dom: Name) returns (rdata: seq<byte>)
    ensures rdata == NameBytes(dom)
  {
    hide Print, BitsOf, NameBytes, LabelValues;
    LabelsFormed();
    NamePrinted(dom);
    var stream := new NailOutStream(256);
    assert Written(stream) == [];
    var _, _ := Emit(LABELS, NameValue(dom), stream, map[], 0);
    LabelsWidth(NameValue(dom));
    assert [] + Print(LABELS, NameValue(dom), 0).value == Print(LABELS, NameValue(dom), 0).value;
    WrittenBytes(stream);
    rdata := stream.data[..stream.pos];
    BitsDetermineBytes(rdata, NameBytes(dom));
  }

  method FillAnswer(j: Definition) returns (a: Answer)
    requires j.kind.A? ==> |j.parts| >= 4
    ensures a == AnswerOf(j)
  {
    if j.kind.A? {
      var elem := new byte[4](_ => 0);
      for i := 0 to 4
        invariant forall k | 0 <= k < i :: elem[k] == AddressByte(j, k)
      {
        var x := NatoiLoop(j.parts[i]);
        elem[i] := x % 256;
      }
      assert elem[..] == [elem[0], elem[1], elem[2], elem[3]];
      a := Answer(TYPE_A, elem[..]);
    } else {
      var name := DomainResponse(j.parts);
      a := Answer(if j.kind.NS? then TYPE_NS else if j.kind.MX? then TYPE_MX else TYPE_CNAME, name);
    }
  }

  /** An address written in decimal is answered with its four bytes. */
  lemma AddressAnswered(j: Definition, address: seq<byte>)
    requires j.kind.A? && |address| == 4 && |j.parts| >= 4
    requires forall k | 0 <= k < 4 :: j.parts[k] == Decimal(address[k])
    ensures AnswerOf(j) == Answer(TYPE_A, address)
  {
    hide Natoi, Decimal;
    forall k | 0 <= k < 4 ensures AddressByte(j, k) == address[k] {
      NatoiOfDecimal(address[k]);
    }
    assert address == [address[0], address[1], address[2], address[3]];
  }

  // The reply: the header and the questions of the query, and an answer to each question.

  const ANSWER_CLASS: nat := 1
  const ANSWER_TTL: nat := 60
  const NAME_ERROR: nat := 3

  function LabelBytesOf(l: Value): seq<byte> {
    Bytes(LabelElems(l))
  }

  function NameOf(ls: seq<Value>): Name {
    if ls == [] then [] else [LabelBytesOf(ls[0])] + NameOf(ls[1..])
  }

  /** A parsed question as the search sees it. */
  function QuestionOf(n: Named): Question
    requires NameInRange(n.name) && QuestionInRange(n.rest)
  {
    Question(NameOf(n.name.elems), n.rest.fields[0].n)
  }

  lemma {:induction false} BytesSeen(vs: seq<Value>)
    requires forall e | e in vs :: Int(e, 256)
    ensures ByteValues(Bytes(vs)) == vs
  {
    if vs != [] {
      assert vs[0] in vs && Int(vs[0], 256);
      BytesSeen(vs[1..]);
      assert Bytes(vs)[1..] == Bytes(vs[1..]);
      assert vs == [vs[0]] + vs[1..];
    }
  }

  lemma LabelSeen(l: Value)
    requires LabelInRange(l)
    ensures LabelValue(LabelBytesOf(l)) == l && LabelBytes(LabelBytesOf(l)) == EncodedLabel(l)
  {
    BytesSeen(LabelElems(l));
    assert l.fields == [l.fields[0]];
  }

  /** The search sees the labels of the question, no more and no less: they make up its name again, and
      their bytes are those of the name on the wire. */
  lemma {:induction false} NameSeen(ls: seq<Value>)
    requires forall l | l in ls :: LabelInRange(l)
    ensures LabelValues(NameOf(ls)) == ls && NameBytes(NameOf(ls)) == Encoded(ls)
  {
    hide LabelInRange, LabelValue, LabelBytesOf, LabelBytes, EncodedLabel;
    if ls != [] {
      assert ls[0] in ls;
      LabelSeen(ls[0]);
      NameSeen(ls[1..]);
      assert NameOf(ls)[1..] == NameOf(ls[1..]) && ls == [ls[0]] + ls[1..];
    }
  }

  /** The answer to a question by the linear scan. */
  function Answered(zone: seq<Definition>, n: Named): Option<Named>
    requires NameInRange(n.name) && QuestionInRange(n.rest)
  {
    match FirstAnswer(zone, QuestionOf(n), 0)
    case None => None
    case Some(d) => Some(Named(n.name, AnswerValue(AnswerOf(zone[d]))))
  }

  function AnswerValue(a: Answer): Value {
    VStruct([VInt(a.rtype), VInt(ANSWER_CLASS), VInt(ANSWER_TTL), VList(ByteValues(a.rdata))])
  }

  /** The fixed fields: the identifier and the recursion bit of the query, an authoritative answer
      that is neither truncated nor recursive, and the response code. */
  function ReplyFields(query: Message, rcode: nat): seq<Value>
    requires |query.fixed| == 8
  {
    [query.fixed[0], VInt(1), VInt(0), VInt(1), VInt(0), query.fixed[5], VInt(0), VInt(rcode)]
  }

  function Reply(query: Message, rcode: nat, answers: seq<Named>): Message
    requires |query.fixed| == 8
  {
    Message(ReplyFields(query, rcode), query.questions, answers, [], [])
  }

  // What a reply must be, in the numbers of sections 3.2, 4.1.1 and 4.1.3 of RFC 1035 and without the
  // functions above.

  /** No definition suits the question. */
  predicate Unknown(zone: seq<Definition>, n: Named)
    requires NameInRange(n.name) && QuestionInRange(n.rest)
  {
    forall j | j in zone :: !Suits(j, NameOf(n.name.elems), n.rest.fields[0].n)
  }

  /** Definition `d` is the first that suits the question. */
  predicate FirstSuiting(zone: seq<Definition>, n: Named, d: nat)
    requires NameInRange(n.name) && QuestionInRange(n.rest)
  {
    && d < |zone| && Suits(zone[d], NameOf(n.name.elems), n.rest.fields[0].n)
    && forall c | 0 <= c < d :: !Suits(zone[c], NameOf(n.name.elems), n.rest.fields[0].n)
  }

  /** The answer has the name of the question, class 1 and sixty seconds to live, and the type number
      and the data of the definition. */
  predicate Carries(a: Named, n: Named, j: Definition) {
    && a.name == n.name
    && a.rest.VStruct? && |a.rest.fields| == 4
    && a.rest.fields[1] == VInt(1) && a.rest.fields[2] == VInt(60) && ByteList(a.rest.fields[3])
    && var data := Bytes(a.rest.fields[3].elems);
       match j.kind
       case A =>
         && a.rest.fields[0] == VInt(1) && |j.parts| >= 4
         && data == [AddressByte(j, 0), AddressByte(j, 1), AddressByte(j, 2), AddressByte(j, 3)]
       case NS => a.rest.fields[0] == VInt(2) && data == NameBytes(j.parts)
       case CNAME => a.rest.fields[0] == VInt(5) && data == NameBytes(j.parts)
       case MX => a.rest.fields[0] == VInt(15) && data == NameBytes(j.parts)
  }

  ghost predicate CarriesFirst(zone: seq<Definition>, a: Named, n: Named)
    requires NameInRange(n.name) && QuestionInRange(n.rest)
  {
    exists d: nat :: FirstSuiting(zone, n, d) && Carries(a, n, zone[d])
  }

  ghost predicate SomeUnknown(zone: seq<Definition>, query: Message)
    requires QuestionsInRange(query.questions)
  {
    exists i :: 0 <= i < |query.questions| && Unknown(zone, query.questions[i])
  }

  /** Every question is answered, in order, from the first definition that suits it, with response code
      0; when there is none for some question, there are no answers at all and the code is 3. */
  ghost predicate RepliesTo(reply: Message, zone: seq<Definition>, query: Message)
    requires |query.fixed| == 8 && QuestionsInRange(query.questions)
  {
    var rcode := if SomeUnknown(zone, query) then 3 else 0;
    && reply.fixed
    == [query.fixed[0], VInt(1), VInt(0), VInt(1), VInt(0), query.fixed[5], VInt(0), VInt(rcode)]
    && reply.questions == query.questions && reply.authority == [] && reply.additional == []
    && (SomeUnknown(zone, query) ==> reply.answers == [])
    && (!SomeUnknown(zone, query) ==>
          && |reply.answers| == |query.questions|
          && forall i | 0 <= i < |query.questions| :: CarriesFirst(zone, reply.answers[i], query.questions[i]))
  }

  /** The type of an answer is the one asked for, or that of an alias, or any was asked for. */
  lemma TypeOfAnswer(zone: seq<Definition>, a: Named, n: Named)
    requires NameInRange(n.name) && QuestionInRange(n.rest) && CarriesFirst(zone, a, n)
    ensures var qtype, rtype := n.rest.fields[0].n, a.rest.fields[0];
            rtype == VInt(qtype) || rtype == VInt(5) || qtype == 255
  {
  }

  /** A question without an answer: no definition of its name is an alias, none has the type asked for,
      and if any was asked for there are only addresses with too few parts. */
  lemma NothingToAnswer(zone: seq<Definition>, n: Named, j: Definition)
    requires NameInRange(n.name) && QuestionInRange(n.rest) && Unknown(zone, n)
    requires j in zone && j.hostname == NameOf(n.name.elems)
    ensures var qtype := n.rest.fields[0].n;
            && !j.kind.CNAME? && (qtype == 2 ==> !j.kind.NS?) && (qtype == 15 ==> !j.kind.MX?)
            && (qtype == 1 && j.kind.A? ==> |j.parts| < 4)
            && (qtype == 255 ==> j.kind.A? && |j.parts| < 4)
  {
    hide NameOf, NameInRange;
  }

  // The answers of the code are these.

  lemma AnsweredWhen(zone: seq<Definition>, n: Named)
    requires NameInRange(n.name) && QuestionInRange(n.rest)
    ensures Answered(zone, n).None? <==> Unknown(zone, n)
    ensures Answered(zone, n).Some? ==> CarriesFirst(zone, Answered(zone, n).value, n)
  {
    var q := QuestionOf(n);
    FirstSuits(zone, q);
    hide NameBytes, AddressByte, FirstAnswer, NameOf, NameInRange, Suits;
    var r := FirstAnswer(zone, q, 0);
    if r.Some? {
      assert zone[r.value] in zone;
      assert FirstSuiting(zone, n, r.value);
      CarriesAnswer(zone[r.value], n);
    }
  }

  lemma CarriesAnswer(j: Definition, n: Named)
    requires j.kind.A? ==> |j.parts| >= 4
    ensures Carries(Named(n.name, AnswerValue(AnswerOf(j))), n, j)
  {
    hide NameBytes, AddressByte;
    ByteValuesInRange(AnswerOf(j).rdata);
    ByteValuesFit(AnswerOf(j).rdata, map[]);
  }

  /** What the zone must keep to: an answer from any definition can be sent. */
  predicate ZoneSendable(zone: seq<Definition>) {
    forall j | j in zone :: !j.kind.A? ==> |NameBytes(j.parts)| < 0x1_0000
  }

  lemma {:induction false} BytesLength(vs: seq<Value>)
    ensures |Bytes(vs)| == |vs|
  {
  }

  lemma CarriedInRange(zone: seq<Definition>, a: Named, n: Named)
    requires NameInRange(n.name) && QuestionInRange(n.rest) && CarriesFirst(zone, a, n) && ZoneSendable(zone)
    ensures NameInRange(a.name) && AnswerInRange(a.rest)
  {
    hide NameBytes, AddressByte, NameOf, NameInRange, Suits;
    var d: nat :| FirstSuiting(zone, n, d) && Carries(a, n, zone[d]);
    assert zone[d] in zone;
  }

  /** Every reply is a message that can be sent. */
  lemma ReplyInRange(reply: Message, zone: seq<Definition>, query: Message)
    requires InRange(query) && ZoneSendable(zone) && RepliesTo(reply, zone, query)
    ensures InRange(reply)
  {
    hide NameInRange, QuestionInRange, AnswerInRange, ZoneSendable, CarriesFirst, SomeUnknown;
    forall a | a in reply.answers ensures NameInRange(a.name) && AnswerInRange(a.rest) {
      var i :| 0 <= i < |reply.answers| && reply.answers[i] == a;
      assert query.questions[i] in query.questions;
      CarriedInRange(zone, a, query.questions[i]);
    }
  }

  /** Answering a query that was parsed: what is sent is the reply, byte by byte, and parses back to it,
      to the last byte. */
  method DnsRespond(table: array<Entry>, zone: seq<Definition>, query: Message, ghost slots: seq<nat>)
    returns (reply: Message, sent: Option<seq<byte>>)
    requires table.Length == HashSize(|zone|) && Indexed(table[..], zone, slots) && |slots| == |zone|
    requires InRange(query)
    requires |zone| >= 2 || query.questions == []
          || (zone != [] && forall n | n in query.questions :: Answers(zone[0], QuestionOf(n)))
    ensures RepliesTo(reply, zone, query)
    ensures ZoneSendable(zone) ==>
              InRange(reply) && sent == Some(Wire(reply)) && ParseMessage(sent.value) == Some((reply, 8 * |sent.value|))
  {
    hide ParseMessage, MessageText, Wire, BitsOf, Indexed, Answers, ZoneSendable, FirstAnswer, QuestionOf, CarriesFirst,
      Unknown, NameInRange, QuestionInRange, AnswersInRange, AnswersTaken, HeaderInRange;
    assert |query.fixed| == 8 by { QueryFields(query); }
    var found, answers := AnswerAll(table, zone, query.questions, slots);
    reply := if found then Reply(query, 0, answers) else Reply(query, NAME_ERROR, []);
    sent := PrintMessage(reply);
    if ZoneSendable(zone) { ReplyInRange(reply, zone, query); }
  }

  lemma QueryFields(query: Message)
    requires InRange(query)
    ensures |query.fixed| == 8
  {
  }

  method AnswerAll(table: array<Entry>, zone: seq<Definition>, questions: seq<Named>, ghost slots: seq<nat>)
    returns (found: bool, answers: seq<Named>)
    requires table.Length == HashSize(|zone|) && Indexed(table[..], zone, slots) && |slots| == |zone|
    requires QuestionsInRange(questions)
    requires |zone| >= 2 || questions == []
          || (zone != [] && forall n | n in questions :: Answers(zone[0], QuestionOf(n)))
    ensures !found <==> exists i :: 0 <= i < |questions| && Unknown(zone, questions[i])
    ensures found ==> |answers| == |questions|
    ensures found ==> forall i | 0 <= i < |questions| :: CarriesFirst(zone, answers[i], questions[i])
  {
    hide Indexed, QuestionOf, AnswerOf, AnswerValue, NameInRange, QuestionInRange, CarriesFirst, Unknown, Suits;
    answers := [];
    for i := 0 to |questions|
      invariant |answers| == i
      invariant forall k | 0 <= k < i :: !Unknown(zone, questions[k])
      invariant forall k | 0 <= k < i :: CarriesFirst(zone, answers[k], questions[k])
    {
      assert questions[i] in questions;
      AnsweredWhen(zone, questions[i]);
      var d := ZoneIndex.Lookup(table, zone, QuestionOf(questions[i]), slots);
      if d.None? { return false, []; }
      var a := FillAnswer(zone[d.value]);
      answers := answers + [Named(questions[i].name, AnswerValue(a))];
    }
    found := true;
  }

  /** The entry point of the parser: fewer than eight bits may be left over. */
  function Accepted(packet: seq<byte>): Option<Message> {
    match ParseMessage(packet)
    case None => None
    case Some((m, j)) => if j + 8 > 8 * |packet| then Some(m) else None
  }

  /** It accepts a message on the wire and refuses it with anything behind it. */
  lemma AcceptedWhen(m: Message, behind: seq<byte>)
    requires InRange(m)
    ensures Accepted(Wire(m) + behind) == if behind == [] then Some(m) else None
  {
    hide ParseMessage, Wire, InRange;
    WireParses(m, behind);
  }

  lemma AcceptedHeader(packet: seq<byte>)
    requires Accepted(packet).Some?
    ensures var m := Accepted(packet).value;
            InRange(m) && |packet| >= 12 && packet[..12] == HeaderBytes(m)
  {
    hide ParseMessage, InRange, HeaderBytes;
    ParsedNumbers(packet);
    ParsedHeader(packet);
  }

  /** One round of the server. A packet that is not a message is ignored. Otherwise what is sent is a
      message, to its last byte, that replies to every question of the query. Its header has the
      identifier of the query; qr and aa set, opcode and tc clear, rd as in the query; ra clear and
      response code 0 or 3; as many questions as the query and no more or as many answers. */
  method Serve(table: array<Entry>, zone: seq<Definition>, packet: seq<byte>, ghost slots: seq<nat>)
    returns (sent: Option<seq<byte>>)
    requires |zone| >= 2 && ZoneSendable(zone)
    requires table.Length == HashSize(|zone|) && Indexed(table[..], zone, slots) && |slots| == |zone|
    ensures sent.Some? <==> Accepted(packet).Some?
    ensures sent.Some? ==>
              && Accepted(sent.value).Some? && InRange(Accepted(sent.value).value) && InRange(Accepted(packet).value)
              && sent.value == Wire(Accepted(sent.value).value)
              && RepliesTo(Accepted(sent.value).value, zone, Accepted(packet).value)
    ensures sent.Some? ==>
              && |packet| >= 12 && |sent.value| >= 12
              && sent.value[..2] == packet[..2]
              && sent.value[2] == 132 + packet[2] % 2
              && sent.value[3] == (if SomeUnknown(zone, Accepted(packet).value) then 3 else 0)
              && sent.value[4..6] == packet[4..6]
              && sent.value[6..8] == (if SomeUnknown(zone, Accepted(packet).value) then [0, 0] else packet[4..6])
              && sent.value[8..12] == [0, 0, 0, 0]
  {
    hide ParseMessage, InRange, Wire, Indexed, ZoneSendable, RepliesTo, HeaderBytes, SomeUnknown;
    var query := Accepted(packet);
    if query.None? { return None; }
    AcceptedHeader(packet);
    QueryFields(query.value);
    var reply, answer := DnsRespond(table, zone, query.value, slots);
    sent := answer;
    AcceptedHeader(sent.value);
    ReplyHeader(packet[..12], sent.value[..12], reply, zone, query.value);
    HeaderOf(packet, packet[..12]);
    HeaderOf(sent.value, sent.value[..12]);
  }

  lemma HeaderOf(s: seq<byte>, h: seq<byte>)
    requires |s| >= 12 && h == s[..12]
    ensures s[..2] == h[..2] && s[2] == h[2] && s[3] == h[3] && s[4..6] == h[4..6] && s[6..8] == h[6..8]
    ensures s[8..12] == h[8..12]
  {
  }

  lemma ReplyHeader(h: seq<byte>, r: seq<byte>, reply: Message, zone: seq<Definition>, query: Message)
    requires InRange(query) && InRange(reply) && h == HeaderBytes(query) && r == HeaderBytes(reply)
    requires RepliesTo(reply, zone, query)
    ensures r[..2] == h[..2] && r[2] == 132 + h[2] % 2 && r[3] == (if SomeUnknown(zone, query) then 3 else 0)
    ensures r[4..6] == h[4..6] && r[6..8] == (if SomeUnknown(zone, query) then [0, 0] else h[4..6])
    ensures r[8..12] == [0, 0, 0, 0]
  {
    hide QuestionsInRange, AnswersInRange, CarriesFirst, SomeUnknown;
    HeaderFields(query, h);
    HeaderFields(reply, r);
  }

  lemma HeaderFields(m: Message, h: seq<byte>)
    requires HeaderInRange(m) && h == HeaderBytes(m)
    ensures h[..2] == TwoBytes(m.fixed[0].n) && h[4..6] == TwoBytes(|m.questions|) && h[6..8] == TwoBytes(|m.answers|)
    ensures h[8..12] == TwoBytes(|m.authority|) + TwoBytes(|m.additional|)
    ensures h[2] == 128 * m.fixed[1].n + 8 * m.fixed[2].n + 4 * m.fixed[3].n + 2 * m.fixed[4].n + m.fixed[5].n
    ensures h[3] == 128 * m.fixed[6].n + m.fixed[7].n
  {
  }
}
