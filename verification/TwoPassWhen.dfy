/** Exactly when the first pass of the two-pass parser ends an array or an optional part where the
    one-pass parser does, in terms of what the one-pass parser finds in the input. */
module TwoPassWhen {
  import opened Bits
  import opened Grammar
  import opened DirectSpec
  import opened Trace
  import opened TwoPassSpec
  import opened TraceReplay
  import opened GiveBack
  import opened TwoPass

  // Arrays and optional parts.

  /** Arrays, with or without a separator, whose elements give back what is inside them: the two
      parsers accept the same inputs and build the same value, and their cursors end at the same
      place exactly when the round that failed, a separator and an element, was rejected at its
      first bits. */
  lemma ArrayAgreesWhen(
      p: Parser, atLeastOne: bool, sep: Option<Const>, b: seq<bool>, i: nat, tr: Slots, env: Env, behind: Slots)
    requires WellFormed(p) && NoSelect(p) && Advances(p) && i <= |b|
    requires sep.Some? ==> ConstWellFormed(sep.value)
    requires ElementsGiveBack(p, sep, b, i, env, true)
    ensures var a := PMany(p, atLeastOne, sep);
            var r, d := Recognise(a, b, i, tr, env), Parse(a, b, i, env);
            && r.ok == d.Ok?
            && (r.ok ==>
                  && (r.at == d.at <==> RoundReadNothing(p, sep, b, d.at, env, d.value == VList([])))
                  && Replay(a, b, i, r.tr + behind, |tr|) == Built(d.value, d.at, |r.tr|))
  {
    hide RecogniseMany, ParseMany, ReplayN, Fill, Reserve, RoundReadNothing, ElementsGiveBack;
    var open := Reserve(tr, -2, -0x1111_1111);
    ArrayStops(p, sep, b, i, open, env, true);
    var (r, n) := RecogniseMany(p, sep, b, i, open, env, true);
    var all := Fill(tr, r.tr, n, |r.tr|) + behind;
    Reserved(all, tr, r.tr, n, |r.tr|);
    ManyRebuilt(p, sep, b, i, open, env, true, all);
    JumpExact(p, sep, n, b, i, all, |tr|, |r.tr|);
  }

  /** Optional parts that give back what is inside them: the cursors agree exactly when the part
      is there or was rejected at its first bits. */
  lemma OptionalAgreesWhen(p: Parser, b: seq<bool>, i: nat, tr: Slots, env: Env)
    requires WellFormed(p) && NoSelect(p) && i <= |b| && GivesBack(p, b, i, env)
    ensures var r, d := Recognise(POptional(p), b, i, tr, env), Parse(POptional(p), b, i, env);
            && r.ok && d.Ok?
            && (r.at == d.at <==> Parse(p, b, i, env).Ok? || ReadNothing(p, b, i, env))
  {
    RecogniseAgrees(p, b, i, tr + [Hole(-3)], env);
  }

  // Arrays whose separator and elements fail in place: only a trailing separator matters.

  predicate ConstFailsInPlace(c: Const) {
    match c
    case CInt(_, _) => true
    case CSeq(cs) => cs.CNil? || (cs.tail.CNil? && ConstFailsInPlace(cs.head))
    case CUnion(_) => true
    case CRepeat(_) => true
  }

  lemma {:induction false} NothingOfConst(c: Const, b: seq<bool>, i: nat)
    requires ConstWellFormed(c) && ConstFailsInPlace(c) && i <= |b| && !ParseConst(c, b, i, false).ok
    ensures ConstReadNothing(c, b, i)
  {
    if c.CSeq? && c.cs.CCons? {
      assert c.cs.tail.CNil? ==> ParseConsts(c.cs.tail, b, ParseConst(c.cs.head, b, i, false).at, false).ok;
      if !ParseConst(c.cs.head, b, i, false).ok { NothingOfConst(c.cs.head, b, i); }
    }
  }

  /** Where an array stops, another round fails. */
  lemma {:induction false} ManyStopped(p: Parser, sep: Option<Const>, b: seq<bool>, i: nat, env: Env, first: bool)
    requires WellFormed(p) && Advances(p) && (sep.Some? ==> ConstWellFormed(sep.value)) && i <= |b|
    ensures var (vs, j) := ParseMany(p, sep, b, i, env, first);
            var s := Separator(sep, b, j, first && vs == []);
            s.ok ==> Parse(p, b, s.at, env).Fail?
    decreases |b| - i
  {
    hide Parse, ParseMany, ParseConst;
    OneMoreParsed(p, sep, b, i, env, first);
    var s := Separator(sep, b, i, first);
    if s.ok && Parse(p, b, s.at, env).Ok? {
      ManyStopped(p, sep, b, Parse(p, b, s.at, env).at, env, false);
    }
  }

  lemma {:induction false} BacksUp(c: Const, b: seq<bool>, i: nat)
    requires ConstWellFormed(c) && Steady(c) && ConstFailsInPlace(c) && i <= |b| && !ParseConst(c, b, i, true).ok
    ensures ParseConst(c, b, i, true).at == i
  {
    SteadyAlike(c, b, i);
    ConstAgrees(c, b, i);
    NothingOfConst(c, b, i);
    ConstFailsAt(c, b, i);
  }

  /** Both parsers accept the same elements, and the first pass is ahead exactly by a separator
      that stands behind the last of them. */
  lemma {:induction false} SeparatedAgrees(
      p: Parser, c: Const, b: seq<bool>, i: nat, tr: Slots, env: Env, first: bool)
    requires WellFormed(p) && NoSelect(p) && Restores(p) && Advances(p) && FailsInPlace(p) && i <= |b|
    requires ConstWellFormed(c) && Steady(c) && ConstFailsInPlace(c)
    ensures var (r, n) := RecogniseMany(p, Some(c), b, i, tr, env, first);
            var (vs, j) := ParseMany(p, Some(c), b, i, env, first);
            var s := ParseConst(c, b, j, false);
            n == |vs| && r.at == if (first && vs == []) || !s.ok then j else s.at
    decreases p, 1, |b| - i
  {
    hide Recognise, RecogniseMany, Parse, ParseMany, ParseConst;
    OneMoreParsed(p, Some(c), b, i, env, first);
    OneMoreRecognised(p, Some(c), b, i, tr, env, first);
    SteadyAlike(c, b, i);
    ConstAgrees(c, b, i);
    var s := PegSeparator(Some(c), b, i, tr, first);
    if s.ok {
      RestoresGivesBack(p, b, s.at, env);
      RecogniseAgrees(p, b, s.at, s.tr, env);
      var r := Recognise(p, b, s.at, s.tr, env);
      if r.ok { SeparatedAgrees(p, c, b, r.at, r.tr, env, false); }
    } else {
      BacksUp(c, b, i);
    }
    if s.ok && Parse(p, b, s.at, env).Fail? { NothingRead(p, b, s.at, env); }
  }

  lemma {:induction false} ElementsRestore(p: Parser, sep: Option<Const>, b: seq<bool>, i: nat, env: Env, first: bool)
    requires WellFormed(p) && Advances(p) && Restores(p) && i <= |b|
    requires sep.Some? ==> ConstWellFormed(sep.value) && Steady(sep.value)
    ensures ElementsGiveBack(p, sep, b, i, env, first)
    decreases |b| - i
  {
    hide Parse, GivesBack, Restores;
    var s := Separator(sep, b, i, first);
    if sep.Some? { SteadyAlike(sep.value, b, i); }
    if s.ok {
      RestoresGivesBack(p, b, s.at, env);
      var r := Parse(p, b, s.at, env);
      if r.Ok? { ElementsRestore(p, sep, b, r.at, env, false); }
    }
  }

  /** Separated arrays whose parts fail in place: the cursors agree exactly when no separator
      stands behind the last element. */
  lemma SeparatedAgreesWhen(
      p: Parser, atLeastOne: bool, c: Const, b: seq<bool>, i: nat, tr: Slots, env: Env, behind: Slots)
    requires WellFormed(p) && NoSelect(p) && Restores(p) && Advances(p) && FailsInPlace(p) && i <= |b|
    requires ConstWellFormed(c) && Steady(c) && ConstFailsInPlace(c) && ConstAdvances(c)
    ensures var a := PMany(p, atLeastOne, Some(c));
            var r, d := Recognise(a, b, i, tr, env), Parse(a, b, i, env);
            && r.ok == d.Ok?
            && (r.ok ==>
                  && (r.at == d.at <==> d.value == VList([]) || !ParseConst(c, b, d.at, false).ok)
                  && Replay(a, b, i, r.tr + behind, |tr|) == Built(d.value, d.at, |r.tr|))
  {
    hide Recognise, ParseConst, ReadNothing, ConstReadNothing;
    ElementsRestore(p, Some(c), b, i, env, true);
    ArrayAgreesWhen(p, atLeastOne, Some(c), b, i, tr, env, behind);
    ManyStopped(p, Some(c), b, i, env, true);
    var d := Parse(PMany(p, atLeastOne, Some(c)), b, i, env);
    if d.Ok? {
      if d.value == VList([]) {
        NothingRead(p, b, d.at, env);
      } else if !ParseConst(c, b, d.at, false).ok {
        NothingOfConst(c, b, d.at);
      }
    }
  }

  /** A separator behind the last element: on the bytes 1 2, an array of ones with twos between them
      ends behind the one for the direct parser and behind the two for the first pass. */
  lemma TrailingSeparator(b: seq<bool>)
    requires |b| == 16 && Number(b[0..8]) == 1 && Number(b[8..16]) == 2
    ensures var p := PMany(PInt(8, Single(IntValue(1))), false, Some(CInt(8, 2)));
            && WellFormed(p) && NoSelect(p) && Parse(p, b, 0, map[]) == Ok(VList([VInt(1)]), 8)
            && Recognise(p, b, 0, [], map[]).ok && Recognise(p, b, 0, [], map[]).at == 16
  {
    var q, two := PInt(8, Single(IntValue(1))), CInt(8, 2);
    assert Parse(q, b, 0, map[]) == Ok(VInt(1), 8) && Parse(q, b, 16, map[]) == Fail;
    assert ParseConst(two, b, 8, false) == ConstResult(true, 16);
    OneMoreParsed(q, Some(two), b, 0, map[], true);
    OneMoreParsed(q, Some(two), b, 8, map[], false);
    assert [VInt(1)] + [] == [VInt(1)];
    SeparatedAgrees(q, two, b, 0, Reserve([], -2, -0x1111_1111), map[], true);
    hide Parse, ParseMany, RecogniseMany, Reserve, Fill;
    assert ParseMany(q, Some(two), b, 0, map[], true) == ([VInt(1)], 8);
    ManyParsed(q, Some(two), b, [VInt(1)], 8);
  }

  lemma ManyParsed(q: Parser, sep: Option<Const>, b: seq<bool>, vs: seq<Value>, j: nat)
    requires WellFormed(PMany(q, false, sep)) && ParseMany(q, sep, b, 0, map[], true) == (vs, j)
    ensures Parse(PMany(q, false, sep), b, 0, map[]) == Ok(VList(vs), j)
  {
    hide ParseMany;
  }

  // Repeated constants, which both parsers repeat until the body fails.

  /** For a repeated integer: exactly when fewer bits than one more would take are left. */
  lemma {:induction false} RepeatedIntAgreesWhen(w: nat, v: nat, b: seq<bool>, i: nat)
    requires 0 < w <= 64 && i <= |b|
    ensures var r, d := ParseRepeat(CInt(w, v), b, i, true), ParseRepeat(CInt(w, v), b, i, false);
            r.at == d.at <==> r.at + w > |b|
    decreases |b| - i
  {
    var c := CInt(w, v);
    var r := ParseConst(c, b, i, false);
    assert r.ok == ParseConst(c, b, i, true).ok;
    if r.ok { RepeatedIntAgreesWhen(w, v, b, r.at); }
  }

  /** On the bytes 1 3 the repeated constant 1 leaves the direct parser behind the 3 it rejected and
      the first pass in front of it. */
  lemma RepeatedIntApart(b: seq<bool>)
    requires |b| == 16 && Number(b[0..8]) == 1 && Number(b[8..16]) == 3
    ensures ParseRepeat(CInt(8, 1), b, 0, false) == ConstResult(true, 16)
    ensures ParseRepeat(CInt(8, 1), b, 0, true) == ConstResult(true, 8)
  {
    var one := CInt(8, 1);
    assert ParseConst(one, b, 0, false) == ConstResult(true, 8) == ParseConst(one, b, 0, true);
    assert ParseConst(one, b, 8, false) == ConstResult(false, 16);
    assert ParseConst(one, b, 8, true) == ConstResult(false, 8);
    assert ParseRepeat(one, b, 8, false) == ConstResult(true, 16);
    assert ParseRepeat(one, b, 8, true) == ConstResult(true, 8);
  }

  /** An optional part that starts well and then fails: on the bytes 1 3 the part 1 2 is absent
      for both parsers, but the first pass goes on behind the first byte. */
  lemma OptionalNotGivenBack(b: seq<bool>)
    requires |b| == 16 && Number(b[0..8]) == 1 && Number(b[8..16]) == 3
    ensures var part := PStruct(FConst(CInt(8, 1), FConst(CInt(8, 2), FNil)));
            && WellFormed(part) && NoSelect(part) && Restores(part) && !ReadNothing(part, b, 0, map[])
            && Parse(POptional(part), b, 0, map[]) == Ok(VAbsent, 0)
            && Recognise(POptional(part), b, 0, [], map[]).at == 8
  {
    var one, two := CInt(8, 1), CInt(8, 2);
    var fs := FConst(one, FConst(two, FNil));
    assert ParseConst(one, b, 0, false) == ConstResult(true, 8);
    assert ParseConst(two, b, 8, false) == ConstResult(false, 16);
    assert ParseFields(FConst(two, FNil), b, 8, map[]) == Fail;
    assert ParseFields(fs, b, 0, map[]) == Fail;
    assert FieldsRestore(FConst(two, FNil)) && FieldsRestore(fs);
    assert !FieldsReadNothing(fs, b, 0, map[]);
    var r1 := PegConst(one, b, 0, [Hole(-3)]);
    assert ParseConst(two, b, 8, true) == ConstResult(false, 8);
    var r2 := RecogniseFields(FConst(two, FNil), b, 8, r1.tr, map[]);
    assert !r2.ok && r2.at == 8;
    assert [] + [Hole(-3)] == [Hole(-3)];
    assert Recognise(PStruct(fs), b, 0, [Hole(-3)], map[]) == r2;
  }

  /** The bytes 1 3 as a run of the alternatives 1 and 3. */
  lemma OddBytes(b: seq<bool>, backUp: bool)
    requires |b| == 16 && Number(b[0..8]) == 1 && Number(b[8..16]) == 3
    ensures var odd := CUnion(CCons(CInt(8, 1), CCons(CInt(8, 3), CNil)));
            ConstWellFormed(odd) && ConstAdvances(odd)
            && ParseRepeat(odd, b, 0, backUp) == ConstResult(true, 16)
            && ParseRepeat(odd, b, 8, backUp) == ConstResult(true, 16)
  {
    var one, three := CInt(8, 1), CInt(8, 3);
    var last := CCons(three, CNil);
    var odd := CUnion(CCons(one, last));
    assert ConstsWellFormed(last) && ConstsWellFormed(odd.cs) && EveryConstAdvances(last);
    assert ParseConst(one, b, 0, backUp) == ConstResult(true, 8);
    assert ParseConst(odd, b, 0, backUp) == ConstResult(true, 8);
    assert !ParseConst(one, b, 8, backUp).ok && ParseConst(three, b, 8, backUp) == ConstResult(true, 16);
    assert ParseUnion(last, b, 8, backUp) == ConstResult(true, 16);
    assert ParseConst(odd, b, 8, backUp) == ConstResult(true, 16);
    assert !ParseConst(one, b, 16, backUp).ok && !ParseConst(three, b, 16, backUp).ok;
    assert ParseUnion(last, b, 16, backUp) == ConstResult(false, 16);
    assert ParseConst(odd, b, 16, backUp) == ConstResult(false, 16);
    hide ParseConst;
    assert ParseRepeat(odd, b, 16, backUp) == ConstResult(true, 16);
    assert ParseRepeat(odd, b, 8, backUp) == ConstResult(true, 16);
  }

  /** For a whole grammar one direction fails: what is not given back can be made up for. Behind
      the same optional part, a repeated constant takes both bytes for the direct parser and the
      second one for the first pass, and both end at the same place. */
  lemma FailureHidden(b: seq<bool>)
    requires |b| == 16 && Number(b[0..8]) == 1 && Number(b[8..16]) == 3
    ensures var part := PStruct(FConst(CInt(8, 1), FConst(CInt(8, 2), FNil)));
            var odd := CRepeat(CUnion(CCons(CInt(8, 1), CCons(CInt(8, 3), CNil))));
            var p := PStruct(FField(POptional(part), FConst(odd, FNil)));
            && WellFormed(p) && NoSelect(p) && !GivesBack(p, b, 0, map[])
            && Parse(p, b, 0, map[]) == Ok(VStruct([VAbsent]), 16)
            && Recognise(p, b, 0, [], map[]).ok && Recognise(p, b, 0, [], map[]).at == 16
  {
    var part := POptional(PStruct(FConst(CInt(8, 1), FConst(CInt(8, 2), FNil))));
    var odd := CRepeat(CUnion(CCons(CInt(8, 1), CCons(CInt(8, 3), CNil))));
    OptionalNotGivenBack(b);
    OddBytes(b, false);
    OddBytes(b, true);
    assert ConstWellFormed(odd) && WellFormed(part) && NoSelect(part);
    PartThenConst(part, odd, b);
  }

  lemma PartThenConst(part: Parser, odd: Const, b: seq<bool>)
    requires |b| == 16 && WellFormed(part) && NoSelect(part) && ConstWellFormed(odd) && !GivesBack(part, b, 0, map[])
    requires Parse(part, b, 0, map[]) == Ok(VAbsent, 0) && ParseConst(odd, b, 0, false) == ConstResult(true, 16)
    requires Recognise(part, b, 0, [], map[]).ok && Recognise(part, b, 0, [], map[]).at == 8
    requires ParseConst(odd, b, 8, true) == ConstResult(true, 16)
    ensures var p := PStruct(FField(part, FConst(odd, FNil)));
            && WellFormed(p) && NoSelect(p) && !GivesBack(p, b, 0, map[])
            && Parse(p, b, 0, map[]) == Ok(VStruct([VAbsent]), 16)
            && Recognise(p, b, 0, [], map[]).ok && Recognise(p, b, 0, [], map[]).at == 16
  {
    var last := FConst(odd, FNil);
    var fs := FField(part, last);
    var r := Recognise(part, b, 0, [], map[]);
    var s := PegConst(odd, b, 8, r.tr);
    assert FieldsWellFormed(last) && FieldsWellFormed(fs) && NoSelectFields(last) && NoSelectFields(fs);
    assert ParseFields(FNil, b, 16, map[]) == Ok([], 16);
    assert ParseFields(last, b, 0, map[]) == Ok([], 16);
    assert ParseFields(fs, b, 0, map[]) == Push(VAbsent, Ok([], 16));
    assert [VAbsent] + [] == [VAbsent];
    assert RecogniseFields(FNil, b, 16, s.tr, map[]) == Peg(true, 16, s.tr);
    assert RecogniseFields(last, b, 8, r.tr, map[]) == Peg(true, 16, s.tr);
  }
}
