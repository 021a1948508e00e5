/** The domain names of the zone file grammar: labels of letters and digits with dots between them,
    a repetition inside a repetition. */
module ZoneText {
  import opened Bits
  import opened Grammar
  import opened DirectSpec
  import opened PrintSpec
  import opened PrintParsed
  import opened PrintExactly
  import opened ParsePrinted

  const ALNUM: Parser :=
    PInt(8, OneOf([Range(Some(0x61), Some(0x7a)), Range(Some(0x30), Some(0x39))]))
  const DOT: Const := CInt(8, 0x2e)
  const CHARS: Parser := PMany(ALNUM, true, None)
  const DOMAIN: Parser := PMany(CHARS, true, Some(DOT))

  lemma DomainIsRegular()
    ensures WellFormed(DOMAIN) && Readable(DOMAIN) && WellFormed(CHARS) && Readable(CHARS) && Advances(CHARS)
  {
    assert Pow2(8) == 256;
    assert WellFormed(ALNUM) && Readable(ALNUM) && Advances(ALNUM);
  }

  predicate IsAlnum(n: nat) {
    0x61 <= n <= 0x7a || 0x30 <= n <= 0x39
  }

  predicate AlnumAt(b: seq<bool>, k: nat) {
    k + 8 <= |b| && IsAlnum(Number(b[k..k + 8]))
  }

  predicate DotAt(b: seq<bool>, k: nat) {
    k + 8 <= |b| && Number(b[k..k + 8]) == 0x2e
  }

  /** Neither a character of the last label nor another label stands at bit `k`. */
  predicate Bounded(b: seq<bool>, k: nat) {
    !AlnumAt(b, k) && !(DotAt(b, k) && AlnumAt(b, k + 8))
  }

  lemma AlnumParsed(b: seq<bool>, k: nat)
    requires k <= |b|
    ensures WellFormed(ALNUM) && (Parse(ALNUM, b, k, map[]).Ok? <==> AlnumAt(b, k))
  {
    if k + 8 <= |b| {
      var n := Number(b[k..k + 8]);
      var letters, digits := Range(Some(0x61), Some(0x7a)), Range(Some(0x30), Some(0x39));
      assert ALNUM.c == OneOf([letters, digits]);
      assert forall e | e in [letters, digits] :: e == letters || e == digits;
      assert letters in [letters, digits] && digits in [letters, digits];
      assert Violates(ALNUM.c, n) <==> Excluded(letters, n) && Excluded(digits, n);
    }
  }

  lemma CharsParsed(b: seq<bool>, k: nat)
    requires k <= |b| && WellFormed(CHARS)
    ensures Parse(CHARS, b, k, map[]).Ok? <==> AlnumAt(b, k)
  {
    AlnumParsed(b, k);
    hide AlnumAt;
    OneMoreParsed(ALNUM, None, b, k, map[], true);
    assert Parse(CHARS, b, k, map[]).Ok? <==> ParseMany(ALNUM, None, b, k, map[], true).0 != [];
  }

  /** The characters of a label stand clear exactly when none stands behind them. */
  lemma {:induction false} CharsClear(cs: seq<Value>, first: bool, b: seq<bool>, i: nat)
    requires WellFormed(ALNUM) && PrintElems(ALNUM, None, cs, first, 0).Some?
    requires i + |PrintElems(ALNUM, None, cs, first, 0).value| <= |b|
    ensures ClearMany(ALNUM, None, cs, first, b, i, map[], 0)
       <==> !AlnumAt(b, i + |PrintElems(ALNUM, None, cs, first, 0).value|)
  {
    hide Violates, Number, ToBits, ParseConst;
    if cs == [] {
      AlnumParsed(b, i);
    } else {
      var c, rest := Print(ALNUM, cs[0], 0).value, PrintElems(ALNUM, None, cs[1..], false, 0).value;
      assert |PrintElems(ALNUM, None, cs, first, 0).value| == |c| + |rest|;
      hide AlnumAt;
      CharsClear(cs[1..], false, b, i + |c|);
    }
  }

  lemma NoCharAtDot(b: seq<bool>, k: nat)
    requires At(b, k, ToBits(0x2e, 8))
    ensures DotAt(b, k) && !AlnumAt(b, k)
  {
    assert Pow2(8) == 256;
    NumberOfFitting(0x2e, 8);
    Within(b, k, ToBits(0x2e, 8));
  }

  /** Behind the last label, another round is rejected. */
  lemma NoLabelBehind(b: seq<bool>, k: nat)
    requires k <= |b| && WellFormed(CHARS)
    ensures ClearMany(CHARS, Some(DOT), [], false, b, k, map[], 0) <==> !(DotAt(b, k) && AlnumAt(b, k + 8))
  {
    hide AlnumAt;
    if DotAt(b, k) { CharsParsed(b, k + 8); }
  }

  /** A label stands clear exactly when no character stands behind it. */
  lemma LabelClear(v: Value, b: seq<bool>, i: nat)
    requires WellFormed(CHARS) && Print(CHARS, v, 0).Some? && i + |Print(CHARS, v, 0).value| <= |b|
    ensures Clear(CHARS, v, b, i, map[], 0) <==> !AlnumAt(b, i + |Print(CHARS, v, 0).value|)
  {
    CharsClear(v.elems, true, b, i);
  }

  /** The text of the labels, and what it takes to stand clear, one label at a time. */
  lemma OneLabel(vs: seq<Value>, first: bool, b: seq<bool>, i: nat)
    requires WellFormed(CHARS) && vs != [] && PrintElems(CHARS, Some(DOT), vs, first, 0).Some?
    requires i + |PrintElems(CHARS, Some(DOT), vs, first, 0).value| <= |b|
    ensures Print(CHARS, vs[0], 0).Some? && PrintElems(CHARS, Some(DOT), vs[1..], false, 0).Some?
    ensures var x, y := PrintSeparator(Some(DOT), first), Print(CHARS, vs[0], 0).value;
            var z := PrintElems(CHARS, Some(DOT), vs[1..], false, 0).value;
            && PrintElems(CHARS, Some(DOT), vs, first, 0).value == x + (y + z)
            && (vs[1..] == [] ==> z == [])
            && (ClearMany(CHARS, Some(DOT), vs, first, b, i, map[], 0) <==>
                && Clear(CHARS, vs[0], b, i + |x|, map[], 0)
                && ClearMany(CHARS, Some(DOT), vs[1..], false, b, i + |x| + |y|, map[], 0))
  {
    hide Clear, Print, WellFormed, ToBits, Parse, ParseConst;
  }

  /** The dots between the labels keep them apart, so only what is behind the last one matters. */
  lemma {:induction false} LabelsClear(vs: seq<Value>, first: bool, b: seq<bool>, i: nat, t: seq<bool>)
    requires WellFormed(CHARS) && vs != []
    requires PrintElems(CHARS, Some(DOT), vs, first, 0) == Some(t) && At(b, i, t) && i + |t| <= |b|
    ensures ClearMany(CHARS, Some(DOT), vs, first, b, i, map[], 0) <==> Bounded(b, i + |t|)
  {
    hide At, Clear, ClearMany, Print, PrintElems, PrintSeparator, AlnumAt, DotAt, WellFormed, ToBits;
    OneLabel(vs, first, b, i);
    var x, y := PrintSeparator(Some(DOT), first), Print(CHARS, vs[0], 0).value;
    var z := PrintElems(CHARS, Some(DOT), vs[1..], false, 0).value;
    var k := i + |x| + |y|;
    AtCat(b, i, x, y + z);
    AtCat(b, i + |x|, y, z);
    LabelClear(vs[0], b, i + |x|);
    if vs[1..] == [] {
      NoLabelBehind(b, k);
    } else {
      DotFirst(vs[1..], b, k, z);
      LabelsClear(vs[1..], false, b, k, z);
    }
  }

  lemma DotFirst(vs: seq<Value>, b: seq<bool>, k: nat, z: seq<bool>)
    requires WellFormed(CHARS) && vs != []
    requires PrintElems(CHARS, Some(DOT), vs, false, 0) == Some(z) && At(b, k, z) && k + |z| <= |b|
    ensures !AlnumAt(b, k)
  {
    hide At, Print, PrintElems, AlnumAt, DotAt, ToBits;
    OneLabel(vs, false, b, k);
    var y, rest := Print(CHARS, vs[0], 0).value, PrintElems(CHARS, Some(DOT), vs[1..], false, 0).value;
    assert PrintSeparator(Some(DOT), false) == ToBits(0x2e, 8);
    AtCat(b, k, ToBits(0x2e, 8), y + rest);
    NoCharAtDot(b, k);
  }

  /** A printed domain name reads back exactly when what stands behind it does not go on with it: no
      letter or digit, and no dot with a letter or digit behind it. */
  lemma DomainReadsBackWhen(v: Value, b: seq<bool>, i: nat, t: seq<bool>)
    requires Fits(DOMAIN, v, map[], 0) && Print(DOMAIN, v, 0) == Some(t) && At(b, i, t)
    ensures i + |t| <= |b| && WellFormed(DOMAIN)
    ensures Parse(DOMAIN, b, i, map[]) == Ok(v, i + |t|) <==> Bounded(b, i + |t|)
  {
    DomainIsRegular();
    ParseAfterPrintExactly(DOMAIN, v, map[], 0, b, i, t);
    LabelsClear(v.elems, true, b, i, t);
    hide ClearMany, Bounded, Parse, PrintElems, AllFit;
    assert Clear(DOMAIN, v, b, i, map[], 0) == ClearMany(CHARS, Some(DOT), v.elems, true, b, i, map[], 0);
  }

  /** The name a, a single letter. */
  const A: Value := VList([VList([VInt(0x61)])])

  lemma OneElement(p: Parser, sep: Option<Const>, v: Value, t: seq<bool>)
    requires Print(p, v, 0) == Some(t) && Fits(p, v, map[], 0)
    ensures PrintElems(p, sep, [v], true, 0) == Some(t) && AllFit(p, [v], map[], 0)
  {
    hide Print, Fits;
    var none: seq<bool> := [];
    assert [v] == [v] + [];
    PrintElemsCons(p, sep, v, [], true, 0);
    OneMoreFits(p, v, [], map[], 0);
    assert none + (t + none) == t;
  }

  lemma LetterFits()
    ensures Fits(DOMAIN, A, map[], 0) && Print(DOMAIN, A, 0) == Some(ToBits(0x61, 8))
  {
    var a, t := VInt(0x61), ToBits(0x61, 8);
    assert Pow2(8) == 256;
    assert !Violates(ALNUM.c, 0x61) by { assert Range(Some(0x61), Some(0x7a)) in ALNUM.c.es; }
    assert Fits(ALNUM, a, map[], 0) && Print(ALNUM, a, 0) == Some(t);
    hide ToBits, PrintElems, AllFit, Violates;
    OneElement(ALNUM, None, a, t);
    assert Fits(CHARS, VList([a]), map[], 0) && Print(CHARS, VList([a]), 0) == Some(t);
    OneElement(CHARS, Some(DOT), VList([a]), t);
  }

  /** In front of another letter it does not: the name a, with b behind it, is read as one name. */
  lemma DomainGoesOn()
    ensures WellFormed(DOMAIN) && Fits(DOMAIN, A, map[], 0) && Print(DOMAIN, A, 0) == Some(ToBits(0x61, 8))
    ensures Parse(DOMAIN, ToBits(0x61, 8) + ToBits(0x62, 8), 0, map[]) != Ok(A, 8)
  {
    var b := ToBits(0x61, 8) + ToBits(0x62, 8);
    assert Pow2(8) == 256;
    LetterFits();
    NumberOfFitting(0x62, 8);
    assert b[0..8] == ToBits(0x61, 8) && b[8..16] == ToBits(0x62, 8);
    hide Parse, Print, Fits, ToBits, Number;
    DomainReadsBackWhen(A, b, 0, ToBits(0x61, 8));
  }
}
