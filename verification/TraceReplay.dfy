/** The replay of a trace is exact: after any successful first pass, with whatever failed
    alternatives and elements left in the trace, the second pass is never stuck and its cursor
    ends where the trace ends. */
module TraceReplay {
  import opened Grammar
  import opened DirectSpec
  import opened Trace
  import opened TwoPassSpec

  /** From slot `lo` on, `all` has the final contents of `tr`, and possibly more behind them. */
  ghost predicate Final(all: Slots, tr: Slots, lo: nat) {
    |tr| <= |all| && forall k :: lo <= k < |tr| ==> all[k] == tr[k]
  }

  /** The replay built a value, its cursor is where the trace ended, and it is not ahead. */
  ghost predicate Tracks<T>(s: Replayed<T>, r: Peg) {
    s.Built? && s.t == |r.tr| && s.at <= r.at
  }

  lemma FinalPrefix(all: Slots, tr: Slots, part: Slots, lo: nat, from: nat)
    requires Final(all, tr, lo) && part <= tr && lo <= from
    ensures Final(all, part, from)
  {
  }

  /** The slots a parser reserved, once filled, are read back by the replay. */
  lemma Reserved(all: Slots, base: Slots, tr: Slots, x: int, y: int)
    requires |base| + 2 <= |tr| && base <= tr && Final(all, Fill(base, tr, x, y), |base|)
    ensures |tr| <= |all| && Final(all, tr, |base| + 2)
    ensures ReadSlot(all, |base|) == Some(x) && ReadSlot(all, |base| + 1) == Some(y)
  {
    var done, where := Fill(base, tr, x, y), |base|;
    assert all[where] == done[where] && all[where + 1] == done[where + 1];
    forall k | where + 2 <= k < |tr| ensures all[k] == tr[k] {
      assert all[k] == done[k];
    }
  }

  lemma ReservedOne(all: Slots, base: Slots, tr: Slots, x: int)
    requires |base| + 1 <= |tr| && base <= tr && Final(all, FillOne(base, tr, x), |base|)
    ensures |tr| <= |all| && Final(all, tr, |base| + 1) && ReadSlot(all, |base|) == Some(x)
  {
    var done, where := FillOne(base, tr, x), |base|;
    assert all[where] == done[where];
    forall k | where + 1 <= k < |tr| ensures all[k] == tr[k] {
      assert all[k] == done[k];
    }
  }

  lemma {:induction false} ConstsExact(cs: Consts, b: seq<bool>, i: nat, tr: Slots, all: Slots, j: nat)
    requires ConstsWellFormed(cs) && j <= i <= |b| && PegConsts(cs, b, i, tr).ok
    requires Final(all, PegConsts(cs, b, i, tr).tr, |tr|)
    ensures var r, s := PegConsts(cs, b, i, tr), ReplayConsts(cs, b, j, all, |tr|);
            Tracks(s, r)
  {
    if cs.CCons? {
      var r := PegConst(cs.head, b, i, tr);
      ConstExact(cs.head, b, i, tr, all);
      ConstsExact(cs.tail, b, r.at, r.tr, all, r.at);
    }
  }

  lemma ConstExact(c: Const, b: seq<bool>, i: nat, tr: Slots, all: Slots)
    requires ConstWellFormed(c) && i <= |b| && PegConst(c, b, i, tr).ok
    requires |tr| < |all| && all[|tr|] == PegConst(c, b, i, tr).tr[|tr|]
    ensures ReplayConst(b, all, |tr|) == Built((), PegConst(c, b, i, tr).at, |tr| + 1)
  {
  }

  /** Trace replay is exact. The replay may lag behind the first pass in the input, by what a
      failed element or optional part consumed, but never runs ahead of it. */
  lemma {:induction false} ReplayExact(p: Parser, b: seq<bool>, i: nat, tr: Slots, env: Env, all: Slots, j: nat)
    requires WellFormed(p) && NoSelect(p) && j <= i <= |b| && Recognise(p, b, i, tr, env).ok
    requires Final(all, Recognise(p, b, i, tr, env).tr, |tr|)
    ensures var r, s := Recognise(p, b, i, tr, env), Replay(p, b, j, all, |tr|);
            Tracks(s, r)
    decreases p, 0, 0
  {
    hide Final, Fill, FillOne, Reserve;
    match p
    case PInt(_, _) =>
    case PStruct(fs) => FieldsExact(fs, b, i, tr, env, all, j);
    case PWrap(before, q, after) => WrapExact(before, q, after, b, i, tr, env, all, j);
    case PChoice(alts) => ChoiceExact(alts, b, i, tr, env, all, j);
    case PMany(q, atLeastOne, sep) => ArrayExact(q, atLeastOne, sep, b, i, tr, env, all, j);
    case PFixed(n, q) => NExact(q, n, b, i, tr, env, true, all, j);
    case PLength(dep, q) => LengthExact(dep, q, b, i, tr, env, all, j);
    case POptional(q) =>
      var r := Recognise(q, b, i, tr + [Hole(-3)], env);
      ReservedOne(all, tr, r.tr, if r.ok then -1 else |r.tr|);
      if r.ok {
        ReplayExact(q, b, i, tr + [Hole(-3)], env, all, j);
      }
  }

  lemma {:induction false} ArrayExact(
      q: Parser, atLeastOne: bool, sep: Option<Const>, b: seq<bool>, i: nat, tr: Slots, env: Env, all: Slots, j: nat)
    requires WellFormed(PMany(q, atLeastOne, sep)) && NoSelect(q) && j <= i <= |b|
    requires Final(all, Recognise(PMany(q, atLeastOne, sep), b, i, tr, env).tr, |tr|)
    ensures var p := PMany(q, atLeastOne, sep);
            Tracks(Replay(p, b, j, all, |tr|), Recognise(p, b, i, tr, env))
    decreases q, 2, 0
  {
    hide Final, Fill, Reserve;
    var open := Reserve(tr, -2, -0x1111_1111);
    var (r, n) := RecogniseMany(q, sep, b, i, open, env, true);
    Reserved(all, tr, r.tr, n, |r.tr|);
    ManyExact(q, sep, b, i, open, env, true, all, j);
    JumpExact(q, sep, n, b, j, all, |tr|, |r.tr|);
  }

  lemma {:induction false} LengthExact(
      dep: string, q: Parser, b: seq<bool>, i: nat, tr: Slots, env: Env, all: Slots, j: nat)
    requires WellFormed(q) && NoSelect(q) && j <= i <= |b| && Recognise(PLength(dep, q), b, i, tr, env).ok
    requires Final(all, Recognise(PLength(dep, q), b, i, tr, env).tr, |tr|)
    ensures var r, s := Recognise(PLength(dep, q), b, i, tr, env), Replay(PLength(dep, q), b, j, all, |tr|);
            Tracks(s, r)
    decreases q, 2, 0
  {
    hide Final, Fill, Reserve;
    var open, n := Reserve(tr, -2, -0x1111_1111), Dep(env, dep);
    var r := RecogniseN(q, n, b, i, open, env);
    Reserved(all, tr, r.tr, n, |r.tr|);
    NExact(q, n, b, i, open, env, true, all, j);
    JumpExact(q, None, n, b, j, all, |tr|, |r.tr|);
  }

  /** An array or n_of whose two slots are filled replays its elements and jumps to the end. */
  lemma JumpExact(q: Parser, sep: Option<Const>, n: nat, b: seq<bool>, j: nat, all: Slots, t: nat, end: nat)
    requires NoSelect(q) && j <= |b| && t + 2 <= end <= |all|
    requires ReadSlot(all, t) == Some(n) && ReadSlot(all, t + 1) == Some(end)
    requires ReplayN(q, sep, n, b, j, all, t + 2, true).Built?
    ensures var s := ReplayN(q, sep, n, b, j, all, t + 2, true);
            ReplayMany(q, sep, b, j, all, t) == Built(VList(s.value), s.at, end)
  {
  }

  lemma {:induction false} ChoiceExact(alts: Alts, b: seq<bool>, i: nat, tr: Slots, env: Env, all: Slots, j: nat)
    requires AltsWellFormed(alts) && NoSelectAlts(alts) && j <= i <= |b|
    requires Recognise(PChoice(alts), b, i, tr, env).ok
    requires Final(all, Recognise(PChoice(alts), b, i, tr, env).tr, |tr|)
    ensures var r, s := Recognise(PChoice(alts), b, i, tr, env), Replay(PChoice(alts), b, j, all, |tr|);
            Tracks(s, r)
    decreases alts, 1, 0
  {
    hide Final, Fill, Reserve;
    var open := Reserve(tr, -1, -0x1111_1112);
    var (r, tag, start) := RecogniseAlts(alts, 0, b, i, open, env);
    Reserved(all, tr, r.tr, tag, start);
    AltsExact(alts, 0, b, i, open, env, all, j);
  }

  lemma {:induction false} WrapExact(
      before: Consts, q: Parser, after: Consts, b: seq<bool>, i: nat, tr: Slots, env: Env, all: Slots, j: nat)
    requires WellFormed(PWrap(before, q, after)) && NoSelect(q) && j <= i <= |b|
    requires Recognise(PWrap(before, q, after), b, i, tr, env).ok
    requires Final(all, Recognise(PWrap(before, q, after), b, i, tr, env).tr, |tr|)
    ensures var p := PWrap(before, q, after);
            Tracks(Replay(p, b, j, all, |tr|), Recognise(p, b, i, tr, env))
    decreases q, 1, 0
  {
    var r1 := PegConsts(before, b, i, tr);
    var r2 := Recognise(q, b, r1.at, r1.tr, env);
    var r3 := PegConsts(after, b, r2.at, r2.tr);
    FinalPrefix(all, r3.tr, r1.tr, |tr|, |tr|);
    ConstsExact(before, b, i, tr, all, j);
    var s1 := ReplayConsts(before, b, j, all, |tr|);
    FinalPrefix(all, r3.tr, r2.tr, |tr|, |r1.tr|);
    ReplayExact(q, b, r1.at, r1.tr, env, all, s1.at);
    var s2 := Replay(q, b, s1.at, all, s1.t);
    FinalPrefix(all, r3.tr, r3.tr, |tr|, |r2.tr|);
    ConstsExact(after, b, r2.at, r2.tr, all, s2.at);
  }

  lemma {:induction false} FieldsExact(fs: Fields, b: seq<bool>, i: nat, tr: Slots, env: Env, all: Slots, j: nat)
    requires FieldsWellFormed(fs) && NoSelectFields(fs) && j <= i <= |b| && RecogniseFields(fs, b, i, tr, env).ok
    requires Final(all, RecogniseFields(fs, b, i, tr, env).tr, |tr|)
    ensures var r, s := RecogniseFields(fs, b, i, tr, env), ReplayFields(fs, b, j, all, |tr|);
            Tracks(s, r)
    decreases fs, 0, 0
  {
    hide Final, Recognise, Replay, Parse, PegConst, ParseConst, Violates;
    var end := RecogniseFields(fs, b, i, tr, env).tr;
    match fs
    case FNil =>
    case FConst(c, rest) =>
      var r := PegConst(c, b, i, tr);
      FinalPrefix(all, end, r.tr, |tr|, |tr|);
      SeparatorExact(c, b, i, tr, all);
      FieldsExact(rest, b, r.at, r.tr, env, all, r.at) by { FinalPrefix(all, end, end, |tr|, |r.tr|); }
    case FField(p, rest) =>
      var r := Recognise(p, b, i, tr, env);
      FinalPrefix(all, end, r.tr, |tr|, |tr|);
      ReplayExact(p, b, i, tr, env, all, j);
      FieldsExact(rest, b, r.at, r.tr, env, all, Replay(p, b, j, all, |tr|).at) by {
        FinalPrefix(all, end, end, |tr|, |r.tr|);
      }
    case FDep(x, w, c, rest) =>
      var r := ParseInt(w, c, b, i);
      var next := tr + [Filled(r.at)];
      FinalPrefix(all, end, next, |tr|, |tr|);
      DependencyExact(b, r.at, tr, all);
      FieldsExact(rest, b, r.at, next, env[x := r.value.n], all, r.at) by {
        FinalPrefix(all, end, end, |tr|, |next|);
      }
  }

  lemma DependencyExact(b: seq<bool>, j: nat, tr: Slots, all: Slots)
    requires j <= |b| && Final(all, tr + [Filled(j)], |tr|)
    ensures ReplayConst(b, all, |tr|) == Built((), j, |tr| + 1)
  {
    assert all[|tr|] == (tr + [Filled(j)])[|tr|];
  }

  lemma {:induction false} AltsExact(
      alts: Alts, tag: nat, b: seq<bool>, back: nat, tr: Slots, env: Env, all: Slots, j: nat)
    requires AltsWellFormed(alts) && NoSelectAlts(alts) && j <= back <= |b|
    requires RecogniseAlts(alts, tag, b, back, tr, env).0.ok
    requires Final(all, RecogniseAlts(alts, tag, b, back, tr, env).0.tr, |tr|)
    ensures var (r, chosen, start) := RecogniseAlts(alts, tag, b, back, tr, env);
            chosen >= tag && |tr| <= start <= |r.tr|
            && var s := ReplayAlts(alts, chosen - tag, chosen, b, j, all, start);
               Tracks(s, r)
    decreases alts, 0, 0
  {
    var r := Recognise(alts.head, b, back, tr, env);
    if r.ok {
      ReplayExact(alts.head, b, back, tr, env, all, j);
    } else {
      var end := RecogniseAlts(alts, tag, b, back, tr, env).0.tr;
      FinalPrefix(all, end, end, |tr|, |r.tr|);
      AltsExact(alts.tail, tag + 1, b, back, r.tr, env, all, j);
    }
  }

  lemma {:induction false} ManyExact(
      p: Parser, sep: Option<Const>, b: seq<bool>, i: nat, tr: Slots, env: Env, first: bool, all: Slots, j: nat)
    requires WellFormed(p) && NoSelect(p) && Advances(p) && j <= i <= |b|
    requires sep.Some? ==> ConstWellFormed(sep.value)
    requires Final(all, RecogniseMany(p, sep, b, i, tr, env, first).0.tr, |tr|)
    ensures var (r, n) := RecogniseMany(p, sep, b, i, tr, env, first);
            var s := ReplayN(p, sep, n, b, j, all, |tr|, first);
            s.Built? && s.at <= r.at
    decreases p, 1, |b| - i
  {
    hide Final, Recognise, Replay, ReplayN, PegConst, ReplayConst, WellFormed, NoSelect, Advances;
    var bare := first || sep.None?;
    var s := if bare then Peg(true, i, tr) else PegConst(sep.value, b, i, tr);
    ReplayNone(p, sep, b, j, all, |tr|, first);
    if s.ok && Recognise(p, b, s.at, s.tr, env).ok {
      var r := Recognise(p, b, s.at, s.tr, env);
      var (rest, n) := RecogniseMany(p, sep, b, r.at, r.tr, env, false);
      assert RecogniseMany(p, sep, b, i, tr, env, first) == (rest, n + 1);
      var k := if bare then j else s.at;
      if !bare {
        FinalPrefix(all, rest.tr, s.tr, |tr|, |tr|);
        SeparatorExact(sep.value, b, i, tr, all);
      }
      FinalPrefix(all, rest.tr, r.tr, |tr|, |s.tr|);
      ReplayExact(p, b, s.at, s.tr, env, all, k);
      FinalPrefix(all, rest.tr, rest.tr, |tr|, |r.tr|);
      ManyExact(p, sep, b, r.at, r.tr, env, false, all, Replay(p, b, k, all, |s.tr|).at);
      ReplayElement(p, sep, n, b, j, all, |tr|, first, k, |s.tr|);
    }
  }

  lemma ReplayNone(p: Parser, sep: Option<Const>, b: seq<bool>, j: nat, all: Slots, t: nat, first: bool)
    requires NoSelect(p) && j <= |b|
    ensures ReplayN(p, sep, 0, b, j, all, t, first) == Built([], j, t)
  {
  }

  lemma ReplayElement(
      p: Parser, sep: Option<Const>, n: nat, b: seq<bool>, j: nat, all: Slots, t: nat, first: bool, k: nat, u: nat)
    requires NoSelect(p) && j <= |b| && k <= |b|
    requires ReplaySeparator(sep, b, j, all, t, first) == Built((), k, u)
    requires Replay(p, b, k, all, u).Built?
    requires var r := Replay(p, b, k, all, u); ReplayN(p, sep, n, b, r.at, all, r.t, false).Built?
    ensures var r := Replay(p, b, k, all, u);
            var rest, s := ReplayN(p, sep, n, b, r.at, all, r.t, false), ReplayN(p, sep, n + 1, b, j, all, t, first);
            s == Built([r.value] + rest.value, rest.at, rest.t)
  {
  }

  lemma SeparatorExact(c: Const, b: seq<bool>, i: nat, tr: Slots, all: Slots)
    requires ConstWellFormed(c) && i <= |b| && PegConst(c, b, i, tr).ok
    requires Final(all, PegConst(c, b, i, tr).tr, |tr|)
    ensures ReplayConst(b, all, |tr|) == Built((), PegConst(c, b, i, tr).at, |tr| + 1)
    ensures |PegConst(c, b, i, tr).tr| == |tr| + 1
  {
    ConstExact(c, b, i, tr, all);
  }

  lemma {:induction false} NExact(
      p: Parser, n: nat, b: seq<bool>, i: nat, tr: Slots, env: Env, first: bool, all: Slots, j: nat)
    requires WellFormed(p) && NoSelect(p) && j <= i <= |b| && RecogniseN(p, n, b, i, tr, env).ok
    requires Final(all, RecogniseN(p, n, b, i, tr, env).tr, |tr|)
    ensures var r, s := RecogniseN(p, n, b, i, tr, env), ReplayN(p, None, n, b, j, all, |tr|, first);
            Tracks(s, r)
    decreases p, 1, n
  {
    if n > 0 {
      var r := Recognise(p, b, i, tr, env);
      var end := RecogniseN(p, n, b, i, tr, env).tr;
      FinalPrefix(all, end, r.tr, |tr|, |tr|);
      ReplayExact(p, b, i, tr, env, all, j);
      FinalPrefix(all, end, end, |tr|, |r.tr|);
      NExact(p, n - 1, b, r.at, r.tr, env, false, all, Replay(p, b, j, all, |tr|).at);
    }
  }
}
