/** The two-pass parser agrees with the one-pass parser on every input on which the elements and
    optional parts that fail have read nothing; so it does on every input for a grammar whose array
    elements and optional parts fail in place. */
module TwoPass {
  import opened Bits
  import opened Grammar
  import opened DirectSpec
  import opened Trace
  import opened TwoPassSpec
  import opened TraceReplay
  import opened GiveBack

  ghost predicate SameConst(r: ConstResult, s: ConstResult) {
    r.ok == s.ok && (r.ok ==> r.at == s.at)
  }

  lemma {:induction false} ConstAgrees(c: Const, b: seq<bool>, i: nat)
    requires ConstWellFormed(c) && i <= |b| && Alike(c, b, i)
    ensures SameConst(ParseConst(c, b, i, true), ParseConst(c, b, i, false))
    decreases c, 0, 0
  {
    match c
    case CInt(_, _) =>
    case CSeq(cs) => ConstsAgree(cs, b, i);
    case CUnion(cs) => UnionAgrees(cs, b, i);
    case CRepeat(d) => RepeatAgreesWhen(d, b, i);
  }

  lemma {:induction false} ConstsAgree(cs: Consts, b: seq<bool>, i: nat)
    requires ConstsWellFormed(cs) && i <= |b| && AllAlike(cs, b, i)
    ensures SameConst(ParseConsts(cs, b, i, true), ParseConsts(cs, b, i, false))
    decreases cs, 0, 0
  {
    if cs.CCons? {
      var r := ParseConst(cs.head, b, i, true);
      ConstAgrees(cs.head, b, i);
      if r.ok { ConstsAgree(cs.tail, b, r.at); }
    }
  }

  lemma {:induction false} UnionAgrees(cs: Consts, b: seq<bool>, i: nat)
    requires ConstsWellFormed(cs) && i <= |b| && UnionAlike(cs, b, i)
    ensures ParseUnion(cs, b, i, true) == ParseUnion(cs, b, i, false)
    decreases cs, 0, 0
  {
    if cs.CCons? {
      ConstAgrees(cs.head, b, i);
      if !ParseConst(cs.head, b, i, true).ok { UnionAgrees(cs.tail, b, i); }
    }
  }

  lemma {:induction false} FailureAgreesWhen(c: Const, b: seq<bool>, i: nat)
    requires ConstWellFormed(c) && i <= |b| && Alike(c, b, i) && !ParseConst(c, b, i, false).ok
    ensures ParseConst(c, b, i, true).at == ParseConst(c, b, i, false).at <==> CutShort(c, b, i)
    decreases c, 0, 1
  {
    match c
    case CInt(_, _) =>
    case CSeq(cs) => FailuresAgreeWhen(cs, b, i);
    case CUnion(cs) => UnionAgrees(cs, b, i);
  }

  lemma {:induction false} FailuresAgreeWhen(cs: Consts, b: seq<bool>, i: nat)
    requires ConstsWellFormed(cs) && i <= |b| && AllAlike(cs, b, i) && !ParseConsts(cs, b, i, false).ok
    ensures ParseConsts(cs, b, i, true).at == ParseConsts(cs, b, i, false).at <==> ConstsCutShort(cs, b, i)
    decreases cs, 0, 1
  {
    var r := ParseConst(cs.head, b, i, false);
    ConstAgrees(cs.head, b, i);
    if r.ok { FailuresAgreeWhen(cs.tail, b, r.at); } else { FailureAgreesWhen(cs.head, b, i); }
  }

  /** A repeated constant: both parsers take the same run of matches, and end at the same place
      exactly when the match that failed behind it was cut short by the end of the input. */
  lemma {:induction false} RepeatAgreesWhen(d: Const, b: seq<bool>, i: nat)
    requires ConstWellFormed(d) && ConstAdvances(d) && i <= |b| && MatchesAlike(d, b, i)
    ensures ParseRepeat(d, b, i, true).at == ParseRepeat(d, b, i, false).at <==> CutShort(d, b, LastMatch(d, b, i))
    decreases d, 1, |b| - i
  {
    hide ParseConst, CutShort;
    ConstAgrees(d, b, i);
    var r := ParseConst(d, b, i, false);
    if r.ok { RepeatAgreesWhen(d, b, r.at); } else { FailureAgreesWhen(d, b, i); }
  }

  lemma {:induction false} PegConstsAgree(cs: Consts, b: seq<bool>, i: nat, tr: Slots)
    requires ConstsWellFormed(cs) && i <= |b| && AllAlike(cs, b, i)
    ensures var r, s := PegConsts(cs, b, i, tr), ParseConsts(cs, b, i, false);
            r.ok == s.ok && (r.ok ==> r.at == s.at)
  {
    if cs.CCons? {
      var r := PegConst(cs.head, b, i, tr);
      ConstAgrees(cs.head, b, i);
      if r.ok { PegConstsAgree(cs.tail, b, r.at, r.tr); }
    }
  }

  // Where a constant fails.

  lemma {:induction false} ConstFailsAt(c: Const, b: seq<bool>, i: nat)
    requires ConstWellFormed(c) && i <= |b| && Alike(c, b, i) && !ParseConst(c, b, i, true).ok
    ensures ParseConst(c, b, i, true).at == i <==> ConstReadNothing(c, b, i)
  {
    if c.CSeq? { ConstsFailAt(c.cs, b, i); }
  }

  lemma {:induction false} ConstsFailAt(cs: Consts, b: seq<bool>, i: nat)
    requires ConstsWellFormed(cs) && i <= |b| && AllAlike(cs, b, i) && !ParseConsts(cs, b, i, true).ok
    ensures ParseConsts(cs, b, i, true).at == i <==> ConstsReadNothing(cs, b, i)
  {
    var r := ParseConst(cs.head, b, i, true);
    ConstAgrees(cs.head, b, i);
    if !r.ok {
      ConstFailsAt(cs.head, b, i);
    } else if r.at == i {
      ConstsFailAt(cs.tail, b, i);
    }
  }

  lemma {:induction false} PegConstsFailAt(cs: Consts, b: seq<bool>, i: nat, tr: Slots)
    requires ConstsWellFormed(cs) && i <= |b| && AllAlike(cs, b, i) && !PegConsts(cs, b, i, tr).ok
    ensures PegConsts(cs, b, i, tr).at == i <==> ConstsReadNothing(cs, b, i)
  {
    var r := PegConst(cs.head, b, i, tr);
    ConstAgrees(cs.head, b, i);
    if !r.ok {
      ConstFailsAt(cs.head, b, i);
    } else if r.at == i {
      PegConstsFailAt(cs.tail, b, i, r.tr);
    }
  }

  // First pass against the direct parser.

  /** The first pass started at bit `i` succeeds exactly when the direct parser does, at the same
      place, and when it fails it is back at its start exactly if nothing had been read. */
  ghost predicate SameOutcome<T>(r: Peg, d: Result<T>, i: nat, nothing: bool) {
    && r.ok == d.Ok?
    && (if r.ok then r.at == d.at else (r.at == i <==> nothing))
  }

  lemma {:induction false} RecogniseAgrees(p: Parser, b: seq<bool>, i: nat, tr: Slots, env: Env)
    requires WellFormed(p) && NoSelect(p) && i <= |b| && GivesBack(p, b, i, env)
    ensures SameOutcome(Recognise(p, b, i, tr, env), Parse(p, b, i, env), i, ReadNothing(p, b, i, env))
    decreases p, 0, 0
  {
    match p
    case PInt(_, _) =>
    case PStruct(fs) => FieldsAgree(fs, b, i, tr, env);
    case PWrap(before, q, after) => WrapAgrees(before, q, after, b, i, tr, env);
    case PChoice(alts) => AltsAgree(alts, 0, b, i, Reserve(tr, -1, -0x1111_1112), env);
    case PMany(q, atLeastOne, sep) => ArrayAgrees(q, atLeastOne, sep, b, i, tr, env);
    case PFixed(n, q) => NAgrees(q, n, b, i, tr, env);
    case PLength(dep, q) => NAgrees(q, Dep(env, dep), b, i, Reserve(tr, -2, -0x1111_1111), env);
    case POptional(q) => RecogniseAgrees(q, b, i, tr + [Hole(-3)], env);
  }

  lemma {:induction false} WrapAgrees(
      before: Consts, q: Parser, after: Consts, b: seq<bool>, i: nat, tr: Slots, env: Env)
    requires WellFormed(PWrap(before, q, after)) && NoSelect(q) && i <= |b|
    requires GivesBack(PWrap(before, q, after), b, i, env)
    ensures var p := PWrap(before, q, after);
            SameOutcome(Recognise(p, b, i, tr, env), Parse(p, b, i, env), i, ReadNothing(p, b, i, env))
    decreases q, 2, 0
  {
    hide PegConsts, ParseConsts, ConstsReadNothing, AllAlike, ConstsWellFormed;
    PegConstsAgree(before, b, i, tr);
    var r1 := PegConsts(before, b, i, tr);
    if !r1.ok {
      PegConstsFailAt(before, b, i, tr);
    } else {
      RecogniseAgrees(q, b, r1.at, r1.tr, env);
      var r2 := Recognise(q, b, r1.at, r1.tr, env);
      if r2.ok {
        PegConstsAgree(after, b, r2.at, r2.tr);
        if !PegConsts(after, b, r2.at, r2.tr).ok { PegConstsFailAt(after, b, r2.at, r2.tr); }
      }
    }
  }

  lemma {:induction false} FieldsAgree(fs: Fields, b: seq<bool>, i: nat, tr: Slots, env: Env)
    requires FieldsWellFormed(fs) && NoSelectFields(fs) && i <= |b| && FieldsGiveBack(fs, b, i, env)
    ensures SameOutcome(RecogniseFields(fs, b, i, tr, env), ParseFields(fs, b, i, env), i,
                        FieldsReadNothing(fs, b, i, env))
    decreases fs, 0, 0
  {
    hide Recognise, Parse, ReadNothing, GivesBack, ConstReadNothing, ParseConst, Alike, WellFormed, NoSelect,
      ConstWellFormed, Number, Violates;
    match fs
    case FNil =>
    case FConst(c, rest) =>
      var r := PegConst(c, b, i, tr);
      ConstAgrees(c, b, i);
      if r.ok { FieldsAgree(rest, b, r.at, r.tr, env); } else { ConstFailsAt(c, b, i); }
    case FField(p, rest) =>
      var r := Recognise(p, b, i, tr, env);
      RecogniseAgrees(p, b, i, tr, env);
      if r.ok { FieldsAgree(rest, b, r.at, r.tr, env); }
    case FDep(x, w, c, rest) =>
      var r := ParseInt(w, c, b, i);
      if r.Ok? { FieldsAgree(rest, b, r.at, tr + [Filled(r.at)], env[x := r.value.n]); }
  }

  lemma {:induction false} AltsAgree(alts: Alts, tag: nat, b: seq<bool>, i: nat, tr: Slots, env: Env)
    requires AltsWellFormed(alts) && NoSelectAlts(alts) && i <= |b| && AltsGiveBack(alts, b, i, env)
    ensures SameOutcome(RecogniseAlts(alts, tag, b, i, tr, env).0, ParseAlts(alts, tag, b, i, env), i, true)
    decreases alts, 0, 0
  {
    if alts.ACons? {
      var r := Recognise(alts.head, b, i, tr, env);
      RecogniseAgrees(alts.head, b, i, tr, env);
      if !r.ok { AltsAgree(alts.tail, tag + 1, b, i, r.tr, env); }
    }
  }

  lemma {:induction false} ArrayAgrees(
      q: Parser, atLeastOne: bool, sep: Option<Const>, b: seq<bool>, i: nat, tr: Slots, env: Env)
    requires WellFormed(PMany(q, atLeastOne, sep)) && NoSelect(q) && i <= |b|
    requires GivesBack(PMany(q, atLeastOne, sep), b, i, env)
    ensures var p := PMany(q, atLeastOne, sep);
            SameOutcome(Recognise(p, b, i, tr, env), Parse(p, b, i, env), i, ReadNothing(p, b, i, env))
    decreases q, 2, 0
  {
    hide RecogniseMany, ParseMany, ElementsGiveBack, Reserve, Fill;
    ArrayStops(q, sep, b, i, Reserve(tr, -2, -0x1111_1111), env, true);
  }

  /** Both parsers accept the same elements, and the first pass stops where the direct parser does
      exactly when the round that failed had read nothing. */
  lemma {:induction false} ArrayStops(
      p: Parser, sep: Option<Const>, b: seq<bool>, i: nat, tr: Slots, env: Env, first: bool)
    requires WellFormed(p) && NoSelect(p) && Advances(p) && i <= |b|
    requires sep.Some? ==> ConstWellFormed(sep.value)
    requires ElementsGiveBack(p, sep, b, i, env, first)
    ensures var (r, n) := RecogniseMany(p, sep, b, i, tr, env, first);
            var (vs, j) := ParseMany(p, sep, b, i, env, first);
            n == |vs| && (r.at == j <==> RoundReadNothing(p, sep, b, j, env, first && vs == []))
    decreases p, 1, |b| - i
  {
    hide Recognise, RecogniseMany, Parse, ParseMany, PegConst, ParseConst, ReadNothing, ConstReadNothing, GivesBack;
    OneMoreParsed(p, sep, b, i, env, first);
    OneMoreRecognised(p, sep, b, i, tr, env, first);
    SeparatorAgrees(sep, b, i, tr, first);
    var s := PegSeparator(sep, b, i, tr, first);
    if s.ok {
      RecogniseAgrees(p, b, s.at, s.tr, env);
      var r := Recognise(p, b, s.at, s.tr, env);
      if r.ok { ArrayStops(p, sep, b, r.at, r.tr, env, false); }
    } else {
      SeparatorFailsAt(sep.value, b, i, tr);
    }
  }

  lemma SeparatorFailsAt(c: Const, b: seq<bool>, i: nat, tr: Slots)
    requires ConstWellFormed(c) && i <= |b| && Alike(c, b, i) && !PegConst(c, b, i, tr).ok
    ensures PegConst(c, b, i, tr).at == i <==> ConstReadNothing(c, b, i)
  {
    ConstFailsAt(c, b, i);
  }

  lemma {:induction false} NAgrees(p: Parser, n: nat, b: seq<bool>, i: nat, tr: Slots, env: Env)
    requires WellFormed(p) && NoSelect(p) && i <= |b| && NGivesBack(p, n, b, i, env)
    ensures SameOutcome(RecogniseN(p, n, b, i, tr, env), ParseN(p, n, b, i, env), i, NReadNothing(p, n, b, i, env))
    decreases p, 1, n
  {
    hide Recognise, Parse, WellFormed, NoSelect, GivesBack, ReadNothing, Advances;
    if n > 0 {
      var r := Recognise(p, b, i, tr, env);
      RecogniseAgrees(p, b, i, tr, env);
      if r.ok { NAgrees(p, n - 1, b, r.at, r.tr, env); }
    }
  }

  // Second pass against the direct parser.

  /** The replay built the value the direct parser returned, at the same place of the input. */
  ghost predicate Rebuilt<T>(s: Replayed<T>, d: Result<T>) {
    s.Built? && d.Ok? && s.value == d.value && s.at == d.at
  }

  lemma {:induction false} ConstsRebuilt(cs: Consts, b: seq<bool>, i: nat, tr: Slots, all: Slots)
    requires ConstsWellFormed(cs) && i <= |b| && AllAlike(cs, b, i) && PegConsts(cs, b, i, tr).ok
    requires Final(all, PegConsts(cs, b, i, tr).tr, |tr|)
    ensures ReplayConsts(cs, b, i, all, |tr|)
         == Built((), ParseConsts(cs, b, i, false).at, |PegConsts(cs, b, i, tr).tr|)
  {
    if cs.CCons? {
      var r := PegConst(cs.head, b, i, tr);
      ConstAgrees(cs.head, b, i);
      ConstExact(cs.head, b, i, tr, all);
      ConstsRebuilt(cs.tail, b, r.at, r.tr, all);
    }
  }

  lemma {:induction false} ReplayAgrees(p: Parser, b: seq<bool>, i: nat, tr: Slots, env: Env, all: Slots)
    requires WellFormed(p) && NoSelect(p) && i <= |b| && GivesBack(p, b, i, env) && Recognise(p, b, i, tr, env).ok
    requires Final(all, Recognise(p, b, i, tr, env).tr, |tr|)
    ensures Rebuilt(Replay(p, b, i, all, |tr|), Parse(p, b, i, env))
    decreases p, 0, 0
  {
    hide Final, Fill, FillOne, Reserve;
    match p
    case PInt(_, _) =>
    case PStruct(fs) => FieldsRebuilt(fs, b, i, tr, env, all);
    case PWrap(before, q, after) => WrapRebuilt(before, q, after, b, i, tr, env, all);
    case PChoice(alts) => ChoiceRebuilt(alts, b, i, tr, env, all);
    case PMany(q, atLeastOne, sep) => ArrayRebuilt(q, atLeastOne, sep, b, i, tr, env, all);
    case PFixed(n, q) => NRebuilt(q, n, b, i, tr, env, true, all);
    case PLength(dep, q) => LengthRebuilt(dep, q, b, i, tr, env, all);
    case POptional(q) => OptionalRebuilt(q, b, i, tr, env, all);
  }

  lemma {:induction false} OptionalRebuilt(q: Parser, b: seq<bool>, i: nat, tr: Slots, env: Env, all: Slots)
    requires WellFormed(q) && NoSelect(q) && i <= |b| && GivesBack(POptional(q), b, i, env)
    requires Final(all, Recognise(POptional(q), b, i, tr, env).tr, |tr|)
    ensures Rebuilt(Replay(POptional(q), b, i, all, |tr|), Parse(POptional(q), b, i, env))
    decreases q, 2, 0
  {
    hide Final, FillOne;
    var r := Recognise(q, b, i, tr + [Hole(-3)], env);
    RecogniseAgrees(q, b, i, tr + [Hole(-3)], env);
    ReservedOne(all, tr, r.tr, if r.ok then -1 else |r.tr|);
    if r.ok { ReplayAgrees(q, b, i, tr + [Hole(-3)], env, all); }
  }

  lemma {:induction false} WrapRebuilt(
      before: Consts, q: Parser, after: Consts, b: seq<bool>, i: nat, tr: Slots, env: Env, all: Slots)
    requires WellFormed(PWrap(before, q, after)) && NoSelect(q) && i <= |b|
    requires GivesBack(PWrap(before, q, after), b, i, env)
    requires Recognise(PWrap(before, q, after), b, i, tr, env).ok
    requires Final(all, Recognise(PWrap(before, q, after), b, i, tr, env).tr, |tr|)
    ensures Rebuilt(Replay(PWrap(before, q, after), b, i, all, |tr|), Parse(PWrap(before, q, after), b, i, env))
    decreases q, 2, 0
  {
    hide Final, PegConsts, ParseConsts, ReplayConsts, AllAlike, ConstsWellFormed;
    var r1 := PegConsts(before, b, i, tr);
    var r2 := Recognise(q, b, r1.at, r1.tr, env);
    var r3 := PegConsts(after, b, r2.at, r2.tr);
    FinalPrefix(all, r3.tr, r1.tr, |tr|, |tr|);
    ConstsRebuilt(before, b, i, tr, all);
    PegConstsAgree(before, b, i, tr);
    FinalPrefix(all, r3.tr, r2.tr, |tr|, |r1.tr|);
    ReplayExact(q, b, r1.at, r1.tr, env, all, r1.at);
    RecogniseAgrees(q, b, r1.at, r1.tr, env);
    ReplayAgrees(q, b, r1.at, r1.tr, env, all);
    FinalPrefix(all, r3.tr, r3.tr, |tr|, |r2.tr|);
    PegConstsAgree(after, b, r2.at, r2.tr);
    ConstsRebuilt(after, b, r2.at, r2.tr, all);
  }

  lemma {:induction false} FieldsRebuilt(fs: Fields, b: seq<bool>, i: nat, tr: Slots, env: Env, all: Slots)
    requires FieldsWellFormed(fs) && NoSelectFields(fs) && i <= |b| && FieldsGiveBack(fs, b, i, env)
    requires RecogniseFields(fs, b, i, tr, env).ok && Final(all, RecogniseFields(fs, b, i, tr, env).tr, |tr|)
    ensures Rebuilt(ReplayFields(fs, b, i, all, |tr|), ParseFields(fs, b, i, env))
    decreases fs, 0, 0
  {
    hide Final, Recognise, Replay, Parse, PegConst, ParseConst, GivesBack, ReadNothing, Alike, WellFormed, NoSelect,
      ConstWellFormed, Violates;
    var end := RecogniseFields(fs, b, i, tr, env).tr;
    match fs
    case FNil =>
    case FConst(c, rest) =>
      var r := PegConst(c, b, i, tr);
      FinalPrefix(all, end, r.tr, |tr|, |tr|);
      PegConstAgrees(c, b, i, tr);
      SeparatorExact(c, b, i, tr, all);
      FinalPrefix(all, end, end, |tr|, |r.tr|);
      FieldsRebuilt(rest, b, r.at, r.tr, env, all);
    case FField(p, rest) =>
      var r := Recognise(p, b, i, tr, env);
      FinalPrefix(all, end, r.tr, |tr|, |tr|);
      RecogniseAgrees(p, b, i, tr, env);
      ReplayExact(p, b, i, tr, env, all, i);
      ReplayAgrees(p, b, i, tr, env, all);
      FinalPrefix(all, end, end, |tr|, |r.tr|);
      FieldsRebuilt(rest, b, r.at, r.tr, env, all);
    case FDep(x, w, c, rest) =>
      var r := ParseInt(w, c, b, i);
      var next := tr + [Filled(r.at)];
      FinalPrefix(all, end, next, |tr|, |tr|);
      DependencyExact(b, r.at, tr, all);
      FinalPrefix(all, end, end, |tr|, |next|);
      FieldsRebuilt(rest, b, r.at, next, env[x := r.value.n], all);
  }

  lemma PegConstAgrees(c: Const, b: seq<bool>, i: nat, tr: Slots)
    requires ConstWellFormed(c) && i <= |b| && Alike(c, b, i) && PegConst(c, b, i, tr).ok
    ensures ParseConst(c, b, i, false) == ConstResult(true, PegConst(c, b, i, tr).at)
  {
    ConstAgrees(c, b, i);
  }

  lemma {:induction false} ChoiceRebuilt(alts: Alts, b: seq<bool>, i: nat, tr: Slots, env: Env, all: Slots)
    requires AltsWellFormed(alts) && NoSelectAlts(alts) && i <= |b| && AltsGiveBack(alts, b, i, env)
    requires Recognise(PChoice(alts), b, i, tr, env).ok
    requires Final(all, Recognise(PChoice(alts), b, i, tr, env).tr, |tr|)
    ensures Rebuilt(Replay(PChoice(alts), b, i, all, |tr|), Parse(PChoice(alts), b, i, env))
    decreases alts, 1, 0
  {
    hide Final, Fill, Reserve;
    var open := Reserve(tr, -1, -0x1111_1112);
    var (r, tag, start) := RecogniseAlts(alts, 0, b, i, open, env);
    Reserved(all, tr, r.tr, tag, start);
    AltsExact(alts, 0, b, i, open, env, all, i);
    AltsRebuilt(alts, 0, b, i, open, env, all);
  }

  lemma {:induction false} AltsRebuilt(alts: Alts, tag: nat, b: seq<bool>, i: nat, tr: Slots, env: Env, all: Slots)
    requires AltsWellFormed(alts) && NoSelectAlts(alts) && i <= |b| && AltsGiveBack(alts, b, i, env)
    requires RecogniseAlts(alts, tag, b, i, tr, env).0.ok
    requires Final(all, RecogniseAlts(alts, tag, b, i, tr, env).0.tr, |tr|)
    ensures var (r, chosen, start) := RecogniseAlts(alts, tag, b, i, tr, env);
            && chosen >= tag
            && Rebuilt(ReplayAlts(alts, chosen - tag, chosen, b, i, all, start), ParseAlts(alts, tag, b, i, env))
    decreases alts, 0, 0
  {
    hide Final;
    var r := Recognise(alts.head, b, i, tr, env);
    var end := RecogniseAlts(alts, tag, b, i, tr, env).0.tr;
    RecogniseAgrees(alts.head, b, i, tr, env);
    if r.ok {
      ReplayAgrees(alts.head, b, i, tr, env, all);
    } else {
      FinalPrefix(all, end, end, |tr|, |r.tr|);
      AltsRebuilt(alts.tail, tag + 1, b, i, r.tr, env, all);
    }
  }

  lemma {:induction false} ArrayRebuilt(
      q: Parser, atLeastOne: bool, sep: Option<Const>, b: seq<bool>, i: nat, tr: Slots, env: Env, all: Slots)
    requires WellFormed(PMany(q, atLeastOne, sep)) && NoSelect(q) && i <= |b|
    requires ElementsGiveBack(q, sep, b, i, env, true)
    requires Recognise(PMany(q, atLeastOne, sep), b, i, tr, env).ok
    requires Final(all, Recognise(PMany(q, atLeastOne, sep), b, i, tr, env).tr, |tr|)
    ensures var s, d := Replay(PMany(q, atLeastOne, sep), b, i, all, |tr|), Parse(PMany(q, atLeastOne, sep), b, i, env);
            Rebuilt(s, d)
    decreases q, 2, 0
  {
    hide Final, Fill, Reserve, RecogniseMany, ParseMany, ReplayN, ElementsGiveBack;
    var open := Reserve(tr, -2, -0x1111_1111);
    var (r, n) := RecogniseMany(q, sep, b, i, open, env, true);
    Reserved(all, tr, r.tr, n, |r.tr|);
    ArrayStops(q, sep, b, i, open, env, true);
    ManyRebuilt(q, sep, b, i, open, env, true, all);
    JumpExact(q, sep, n, b, i, all, |tr|, |r.tr|);
  }

  lemma {:induction false} LengthRebuilt(dep: string, q: Parser, b: seq<bool>, i: nat, tr: Slots, env: Env, all: Slots)
    requires WellFormed(q) && NoSelect(q) && i <= |b| && NGivesBack(q, Dep(env, dep), b, i, env)
    requires Recognise(PLength(dep, q), b, i, tr, env).ok
    requires Final(all, Recognise(PLength(dep, q), b, i, tr, env).tr, |tr|)
    ensures Rebuilt(Replay(PLength(dep, q), b, i, all, |tr|), Parse(PLength(dep, q), b, i, env))
    decreases q, 2, 0
  {
    hide Final, Fill, Reserve;
    var open, n := Reserve(tr, -2, -0x1111_1111), Dep(env, dep);
    var r := RecogniseN(q, n, b, i, open, env);
    Reserved(all, tr, r.tr, n, |r.tr|);
    NRebuilt(q, n, b, i, open, env, true, all);
    JumpExact(q, None, n, b, i, all, |tr|, |r.tr|);
  }

  lemma OneMoreRecognised(p: Parser, sep: Option<Const>, b: seq<bool>, i: nat, tr: Slots, env: Env, first: bool)
    requires WellFormed(p) && NoSelect(p) && Advances(p) && (sep.Some? ==> ConstWellFormed(sep.value)) && i <= |b|
    ensures RecogniseMany(p, sep, b, i, tr, env, first) ==
            var s := PegSeparator(sep, b, i, tr, first);
            if !s.ok then (s, 0) else
            var r := Recognise(p, b, s.at, s.tr, env);
            if !r.ok then (r, 0) else
            var (rest, n) := RecogniseMany(p, sep, b, r.at, r.tr, env, false);
            (rest, n + 1)
  {
    hide Recognise, PegConst;
  }

  lemma SeparatorAgrees(sep: Option<Const>, b: seq<bool>, i: nat, tr: Slots, first: bool)
    requires i <= |b| && (sep.Some? ==> ConstWellFormed(sep.value)) && SeparatorAlike(sep, b, i, first)
    ensures var s := PegSeparator(sep, b, i, tr, first);
            SameConst(Separator(sep, b, i, first), ConstResult(s.ok, s.at))
  {
    if !first && sep.Some? { ConstAgrees(sep.value, b, i); }
  }

  lemma {:induction false} ManyRebuilt(
      p: Parser, sep: Option<Const>, b: seq<bool>, i: nat, tr: Slots, env: Env, first: bool, all: Slots)
    requires WellFormed(p) && NoSelect(p) && Advances(p) && i <= |b|
    requires sep.Some? ==> ConstWellFormed(sep.value)
    requires ElementsGiveBack(p, sep, b, i, env, first)
    requires Final(all, RecogniseMany(p, sep, b, i, tr, env, first).0.tr, |tr|)
    ensures var n := RecogniseMany(p, sep, b, i, tr, env, first).1;
            var (vs, j) := ParseMany(p, sep, b, i, env, first);
            Rebuilt(ReplayN(p, sep, n, b, i, all, |tr|, first), Ok(vs, j))
    decreases p, 1, |b| - i
  {
    hide Final, Recognise, RecogniseMany, Replay, Parse, ParseMany, ReplayN, ReplayConst, PegConst, ParseConst,
      GivesBack, ReadNothing, WellFormed, NoSelect, Advances, Alike, ConstWellFormed;
    OneMoreParsed(p, sep, b, i, env, first);
    OneMoreRecognised(p, sep, b, i, tr, env, first);
    SeparatorAgrees(sep, b, i, tr, first);
    ReplayNone(p, sep, b, i, all, |tr|, first);
    var s := PegSeparator(sep, b, i, tr, first);
    if s.ok {
      RecogniseAgrees(p, b, s.at, s.tr, env);
      var r := Recognise(p, b, s.at, s.tr, env);
      if r.ok {
        hide ElementsGiveBack;
        var (rest, n) := RecogniseMany(p, sep, b, r.at, r.tr, env, false);
        ManyRebuilt(p, sep, b, r.at, r.tr, env, false, all) by { FinalPrefix(all, rest.tr, rest.tr, |tr|, |r.tr|); }
        ElementRebuilt(p, sep, b, i, tr, env, first, all, rest.tr);
        ReplayElement(p, sep, n, b, i, all, |tr|, first, s.at, |s.tr|);
      }
    }
  }

  /** The separator and the element of one round are replayed from their slots. */
  lemma {:induction false} ElementRebuilt(
      p: Parser, sep: Option<Const>, b: seq<bool>, i: nat, tr: Slots, env: Env, first: bool, all: Slots, end: Slots)
    requires WellFormed(p) && NoSelect(p) && (sep.Some? ==> ConstWellFormed(sep.value)) && i <= |b|
    requires PegSeparator(sep, b, i, tr, first).ok
    requires var s := PegSeparator(sep, b, i, tr, first);
             GivesBack(p, b, s.at, env) && Recognise(p, b, s.at, s.tr, env).ok
             && Recognise(p, b, s.at, s.tr, env).tr <= end && Final(all, end, |tr|)
    ensures var s := PegSeparator(sep, b, i, tr, first);
            && (!first && sep.Some? ==> ReplayConst(b, all, |tr|) == Built((), s.at, |s.tr|))
            && var r := Replay(p, b, s.at, all, |s.tr|);
               Rebuilt(r, Parse(p, b, s.at, env)) && r.t == |Recognise(p, b, s.at, s.tr, env).tr|
    decreases p, 0, 1
  {
    hide Final, Recognise, Replay, Parse, ReplayConst, PegConst, ParseConst, GivesBack, WellFormed, NoSelect;
    var s := PegSeparator(sep, b, i, tr, first);
    var r := Recognise(p, b, s.at, s.tr, env);
    if !first && sep.Some? {
      FinalPrefix(all, end, s.tr, |tr|, |tr|);
      SeparatorExact(sep.value, b, i, tr, all);
    }
    FinalPrefix(all, end, r.tr, |tr|, |s.tr|);
    ReplayExact(p, b, s.at, s.tr, env, all, s.at);
    ReplayAgrees(p, b, s.at, s.tr, env, all);
  }

  lemma {:induction false} NRebuilt(
      p: Parser, n: nat, b: seq<bool>, i: nat, tr: Slots, env: Env, first: bool, all: Slots)
    requires WellFormed(p) && NoSelect(p) && i <= |b| && NGivesBack(p, n, b, i, env)
    requires RecogniseN(p, n, b, i, tr, env).ok
    requires Final(all, RecogniseN(p, n, b, i, tr, env).tr, |tr|)
    ensures Rebuilt(ReplayN(p, None, n, b, i, all, |tr|, first), ParseN(p, n, b, i, env))
    decreases p, 1, n
  {
    hide Final, Recognise, Replay, Parse, ReplayN, GivesBack, ReadNothing, WellFormed, NoSelect, Advances;
    ReplayNone(p, None, b, i, all, |tr|, first);
    if n > 0 {
      var r := Recognise(p, b, i, tr, env);
      var end := RecogniseN(p, n, b, i, tr, env).tr;
      FinalPrefix(all, end, r.tr, |tr|, |tr|);
      RecogniseAgrees(p, b, i, tr, env);
      ReplayExact(p, b, i, tr, env, all, i);
      ReplayAgrees(p, b, i, tr, env, all);
      FinalPrefix(all, end, end, |tr|, |r.tr|);
      NRebuilt(p, n - 1, b, r.at, r.tr, env, false, all);
      assert ReplaySeparator(None, b, i, all, |tr|, first) == Built((), i, |tr|);
      ReplayElement(p, None, n - 1, b, i, all, |tr|, first, i, |tr|);
    }
  }

  /** Two-pass equals one-pass, input by input: where the failed elements and optional parts had
      read nothing, recognition succeeds exactly when the direct parser does, at the same bit
      position, and replaying its trace, even once more slots follow, builds the same value and
      ends at the end of the trace. */
  lemma TwoPassEqualsOnePassOn(p: Parser, b: seq<bool>, i: nat, tr: Slots, env: Env, behind: Slots)
    requires WellFormed(p) && NoSelect(p) && i <= |b| && GivesBack(p, b, i, env)
    ensures var r, d := Recognise(p, b, i, tr, env), Parse(p, b, i, env);
            && r.ok == d.Ok?
            && (r.ok ==> r.at == d.at && Replay(p, b, i, r.tr + behind, |tr|) == Built(d.value, d.at, |r.tr|))
  {
    var r := Recognise(p, b, i, tr, env);
    RecogniseAgrees(p, b, i, tr, env);
    if r.ok {
      ReplayAgrees(p, b, i, tr, env, r.tr + behind);
      ReplayExact(p, b, i, tr, env, r.tr + behind, i);
    }
  }

  /** Two-pass equals one-pass: the same on every input, for every grammar that restores. */
  lemma TwoPassEqualsOnePass(p: Parser, b: seq<bool>, i: nat, tr: Slots, env: Env, behind: Slots)
    requires WellFormed(p) && NoSelect(p) && Restores(p) && i <= |b|
    ensures var r, d := Recognise(p, b, i, tr, env), Parse(p, b, i, env);
            && r.ok == d.Ok?
            && (r.ok ==> r.at == d.at && Replay(p, b, i, r.tr + behind, |tr|) == Built(d.value, d.at, |r.tr|))
  {
    RestoresGivesBack(p, b, i, env);
    TwoPassEqualsOnePassOn(p, b, i, tr, env, behind);
  }

  /** The emitted entry point of the two-pass parser: it accepts when the byte cursor is at the
      end of the input, then replays the trace from the start. */
  function TwoPassAll(p: Parser, b: seq<bool>): Option<Value>
    requires WellFormed(p) && NoSelect(p)
  {
    var r := Recognise(p, b, 0, [], map[]);
    if !r.ok || r.at / 8 != |b| / 8 then None else
    match Replay(p, b, 0, r.tr, 0)
    case Stuck => None
    case Built(v, _, _) => Some(v)
  }

  /** On whole bytes of input that give everything back, the two entry points accept the same inputs
      and return the same value, except that the direct one also accepts when one to seven bits are
      left over. */
  lemma EntryPointsAgree(p: Parser, b: seq<bool>)
    requires WellFormed(p) && NoSelect(p) && GivesBack(p, b, 0, map[]) && |b| % 8 == 0
    ensures TwoPassAll(p, b).Some?
       <==> ParseAll(p, b).Some? && Parse(p, b, 0, map[]).at == |b|
    ensures TwoPassAll(p, b).Some? ==> TwoPassAll(p, b) == ParseAll(p, b)
  {
    var r := Recognise(p, b, 0, [], map[]);
    TwoPassEqualsOnePassOn(p, b, 0, [], map[], []);
    assert r.tr + [] == r.tr;
  }

  /** Four bits of a byte: the direct entry point accepts with the other four left over, the two-pass
      one does not. */
  lemma BitsLeftOver(b: seq<bool>)
    requires |b| == 8
    ensures var p := PInt(4, Any);
            WellFormed(p) && NoSelect(p) && ParseAll(p, b) == Some(VInt(Number(b[0..4]))) && TwoPassAll(p, b) == None
  {
    EntryPointsAgree(PInt(4, Any), b);
  }

  /** Without the side condition the two parsers differ. The element of this array reads the
      constant 1 and then 2; on the bytes 1 3 the element fails after the first byte, which the
      direct parser gives back and the first pass does not. */
  lemma ElementNotGivenBack(b: seq<bool>)
    requires |b| == 16 && Number(b[0..8]) == 1 && Number(b[8..16]) == 3
    ensures var element := PStruct(FConst(CInt(8, 1), FConst(CInt(8, 2), FNil)));
            var p := PMany(element, false, None);
            WellFormed(p) && NoSelect(p) && !Restores(p)
            && Parse(p, b, 0, map[]) == Ok(VList([]), 0)
            && Recognise(p, b, 0, [], map[]).ok && Recognise(p, b, 0, [], map[]).at == 8
  {
    var one, two := CInt(8, 1), CInt(8, 2);
    var fs := FConst(one, FConst(two, FNil));
    var element := PStruct(fs);
    assert ParseConst(one, b, 0, false) == ConstResult(true, 8);
    assert ParseConst(two, b, 8, false) == ConstResult(false, 16);
    assert ParseFields(FConst(two, FNil), b, 8, map[]) == Fail;
    assert ParseFields(fs, b, 0, map[]) == Fail;
    assert Parse(element, b, 0, map[]) == Fail;
    var open := Reserve([], -2, -0x1111_1111);
    var r1 := PegConst(one, b, 0, open);
    assert r1.ok && r1.at == 8;
    assert ParseConst(two, b, 8, true) == ConstResult(false, 8);
    var r2 := RecogniseFields(FConst(two, FNil), b, 8, r1.tr, map[]);
    assert !r2.ok && r2.at == 8;
    assert RecogniseFields(fs, b, 0, open, map[]) == r2;
    assert Recognise(element, b, 0, open, map[]) == r2;
    assert RecogniseMany(element, None, b, 0, open, map[], true) == (r2, 0);
  }
}
