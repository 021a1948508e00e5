/** The emitted two-pass parser as it runs: the first pass moves the stream and writes the
    trace, the second reads both again and fills the value. */
module TwoPassParser {
  import opened Bits
  import opened MemStream
  import opened Grammar
  import opened DirectSpec
  import opened TwoPassSpec
  import opened TraceReplay
  import opened TwoPass
  import opened Trace

  method PegConstInto(c: Const, s: NailMemStream) returns (ok: bool)
    requires ConstWellFormed(c) && s.Valid()
    modifies s
    ensures s.Valid() && ConstResult(ok, s.At()) == ParseConst(c, s.Input(), old(s.At()), true)
    decreases c, 0, 0
  {
    match c {
      case CInt(w, v) =>
        ok := s.Check(w);
        if ok {
          var r := s.ReadUnsignedBig(w);
          if r != v {
            s.Backup(w);
            ok := false;
          }
        }
      case CSeq(cs) => ok := PegConstSeq(cs, s);
      case CUnion(cs) => ok := PegConstUnion(cs, s);
      case CRepeat(d) =>
        ghost var start := s.At();
        ok := true;
        while ok
          invariant s.Valid() && start <= s.At()
          invariant ParseRepeat(d, s.Input(), start, true)
                 == if ok then ParseRepeat(d, s.Input(), s.At(), true) else ConstResult(true, s.At())
          decreases ok, |s.Input()| - s.At()
        {
          ok := PegConstInto(d, s);
        }
        ok := true;
    }
  }

  method PegConstSeq(cs: Consts, s: NailMemStream) returns (ok: bool)
    requires ConstsWellFormed(cs) && s.Valid()
    modifies s
    ensures s.Valid() && ConstResult(ok, s.At()) == ParseConsts(cs, s.Input(), old(s.At()), true)
    decreases cs, 0, 0
  {
    ok := true;
    if cs.CCons? {
      ok := PegConstInto(cs.head, s);
      if ok {
        ok := PegConstSeq(cs.tail, s);
      }
    }
  }

  method PegConstUnion(cs: Consts, s: NailMemStream) returns (ok: bool)
    requires ConstsWellFormed(cs) && s.Valid()
    modifies s
    ensures s.Valid() && ConstResult(ok, s.At()) == ParseUnion(cs, s.Input(), old(s.At()), true)
    decreases cs, 0, 0
  {
    ok := false;
    if cs.CCons? {
      var back := s.GetPos();
      ok := PegConstInto(cs.head, s);
      if !ok {
        s.Rewind(back);
        ok := PegConstUnion(cs.tail, s);
      }
    }
  }

  /** A constant of a structure, a wrapper or a separator: the position after it is traced. */
  method PegTracedConst(c: Const, s: NailMemStream, tr: NailTrace) returns (ok: bool)
    requires ConstWellFormed(c) && s.Valid() && tr.Valid()
    modifies s, tr, tr.trace
    ensures s.Valid() && tr.Valid() && (tr.trace == old(tr.trace) || fresh(tr.trace))
    ensures Peg(ok, s.At(), tr.Contents()) == PegConst(c, s.Input(), old(s.At()), old(tr.Contents()))
  {
    ok := PegConstInto(c, s);
    if ok {
      tr.Const(8 * s.pos + s.bitOffset);
    }
  }

  method PegTracedConsts(cs: Consts, s: NailMemStream, tr: NailTrace) returns (ok: bool)
    requires ConstsWellFormed(cs) && s.Valid() && tr.Valid()
    modifies s, tr, tr.trace
    ensures s.Valid() && tr.Valid() && (tr.trace == old(tr.trace) || fresh(tr.trace))
    ensures Peg(ok, s.At(), tr.Contents()) == PegConsts(cs, s.Input(), old(s.At()), old(tr.Contents()))
    decreases cs
  {
    ok := true;
    if cs.CCons? {
      ok := PegTracedConst(cs.head, s, tr);
      if ok {
        ok := PegTracedConsts(cs.tail, s, tr);
      }
    }
  }

  /** An unconstrained integer is skipped, a constrained one is read and backed over when it
      violates its constraint. */
  method PegInt(w: nat, c: Constraint, s: NailMemStream) returns (ok: bool)
    requires w <= 64 && s.Valid()
    modifies s
    ensures s.Valid()
    ensures ok == ParseInt(w, c, s.Input(), old(s.At())).Ok?
    ensures s.At() == if ok then old(s.At()) + w else old(s.At())
    ensures var at := old(s.At());
            ok <==> at + w <= |s.Input()| && Allows(c, Number(s.Input()[at..at + w]))
  {
    hide Number, BitsOf;
    ghost var at := s.At();
    ok := s.Check(w);
    if ok {
      RejectedWhen(c, Number(s.Input()[at..at + w]));
      if c.Any? {
        s.Advance(w);
      } else {
        var val := s.ReadUnsignedBig(w);
        if Violates(c, val) {
          s.Backup(w);
          ok := false;
        }
      }
    }
  }

  method PegInto(p: Parser, s: NailMemStream, tr: NailTrace, env: Env) returns (ok: bool)
    requires WellFormed(p) && NoSelect(p) && s.Valid() && tr.Valid()
    modifies s, tr, tr.trace
    ensures s.Valid() && tr.Valid() && (tr.trace == old(tr.trace) || fresh(tr.trace))
    ensures Peg(ok, s.At(), tr.Contents()) == Recognise(p, s.Input(), old(s.At()), old(tr.Contents()), env)
    decreases p, 0, 0
  {
    hide BitsOf, Fill, Reserve, RecogniseFields, RecogniseAlts, RecogniseMany, RecogniseN, PegConsts, Parse, ParseInt;
    match p {
      case PInt(w, c) => ok := PegInt(w, c, s);
      case PStruct(fs) => ok := PegFields(fs, s, tr, env);
      case PWrap(before, q, after) =>
        ok := PegTracedConsts(before, s, tr);
        if ok {
          ok := PegInto(q, s, tr, env);
          if ok {
            ok := PegTracedConsts(after, s, tr);
          }
        }
      case PChoice(alts) => ok := PegChoice(alts, s, tr, env);
      case PMany(q, atLeastOne, sep) => ok := PegArray(q, atLeastOne, sep, s, tr, env);
      case PFixed(n, q) => ok := PegTimes(q, n, s, tr, env);
      case PLength(dep, q) => ok := PegLength(q, Dep(env, dep), s, tr, env);
      case POptional(q) =>
        PegOptional(q, s, tr, env);
        ok := true;
    }
  }

  method PegArray(p: Parser, atLeastOne: bool, sep: Option<Const>, s: NailMemStream, tr: NailTrace, env: Env)
    returns (ok: bool)
    requires WellFormed(p) && NoSelect(p) && Advances(p) && (sep.Some? ==> ConstWellFormed(sep.value))
    requires s.Valid() && tr.Valid()
    modifies s, tr, tr.trace
    ensures s.Valid() && tr.Valid() && (tr.trace == old(tr.trace) || fresh(tr.trace))
    ensures Peg(ok, s.At(), tr.Contents())
         == Recognise(PMany(p, atLeastOne, sep), s.Input(), old(s.At()), old(tr.Contents()), env)
    decreases p, 3
  {
    hide BitsOf, Fill, Reserve, RecogniseMany, WellFormed, NoSelect, Advances;
    ghost var before := tr.Contents();
    var many := tr.MemoMany();
    var count := PegRepeat(p, sep, s, tr, env);
    PrefixKept(before, tr.Contents(), many);
    tr.WriteMany(many, count);
    ok := !(atLeastOne && count < 1);
  }

  method PegOptional(p: Parser, s: NailMemStream, tr: NailTrace, env: Env)
    requires WellFormed(p) && NoSelect(p) && s.Valid() && tr.Valid()
    modifies s, tr, tr.trace
    ensures s.Valid() && tr.Valid() && (tr.trace == old(tr.trace) || fresh(tr.trace))
    ensures Peg(true, s.At(), tr.Contents())
         == Recognise(POptional(p), s.Input(), old(s.At()), old(tr.Contents()), env)
    decreases p, 3
  {
    hide BitsOf, WellFormed, NoSelect, RecogniseFields, RecogniseAlts, RecogniseMany, RecogniseN, PegConsts, Parse,
      ParseInt;
    var many := tr.MemoOptional();
    var ok := PegInto(p, s, tr, env);
    if ok {
      tr.OptionalSucceed(many);
    } else {
      tr.OptionalFail(many);
    }
  }

  lemma PrefixKept(before: Slots, after: Slots, n: nat)
    requires n == |before| && before <= after
    ensures after[..n] == before
  {
  }

  method PegChoice(alts: Alts, s: NailMemStream, tr: NailTrace, env: Env) returns (ok: bool)
    requires AltsWellFormed(alts) && NoSelectAlts(alts) && s.Valid() && tr.Valid()
    modifies s, tr, tr.trace
    ensures s.Valid() && tr.Valid() && (tr.trace == old(tr.trace) || fresh(tr.trace))
    ensures Peg(ok, s.At(), tr.Contents()) == Recognise(PChoice(alts), s.Input(), old(s.At()), old(tr.Contents()), env)
    decreases alts, 1, 0
  {
    hide BitsOf, Fill, Reserve;
    ghost var before := tr.Contents();
    var back := s.GetPos();
    var begin := tr.BeginChoice();
    var tag, start;
    ok, tag, start := PegAlts(alts, 0, back, s, tr, env);
    if ok {
      PrefixKept(before, tr.Contents(), begin);
      tr.PickChoice(begin, tag, start);
    }
  }

  method PegLength(q: Parser, n: nat, s: NailMemStream, tr: NailTrace, env: Env) returns (ok: bool)
    requires WellFormed(q) && NoSelect(q) && s.Valid() && tr.Valid()
    modifies s, tr, tr.trace
    ensures s.Valid() && tr.Valid() && (tr.trace == old(tr.trace) || fresh(tr.trace))
    ensures var r := RecogniseN(q, n, s.Input(), old(s.At()), Reserve(old(tr.Contents()), -2, -0x1111_1111), env);
            ok == r.ok && s.At() == r.at
            && tr.Contents() == if ok then Fill(old(tr.Contents()), r.tr, n, |r.tr|) else r.tr
    decreases q, 2
  {
    hide BitsOf, Fill, Reserve, RecogniseN, WellFormed, NoSelect;
    ghost var before := tr.Contents();
    var many := tr.MemoMany();
    ok := PegTimes(q, n, s, tr, env);
    if ok {
      PrefixKept(before, tr.Contents(), many);
      tr.WriteMany(many, n);
    }
  }

  method PegFields(fs: Fields, s: NailMemStream, tr: NailTrace, env: Env) returns (ok: bool)
    requires FieldsWellFormed(fs) && NoSelectFields(fs) && s.Valid() && tr.Valid()
    modifies s, tr, tr.trace
    ensures s.Valid() && tr.Valid() && (tr.trace == old(tr.trace) || fresh(tr.trace))
    ensures Peg(ok, s.At(), tr.Contents()) == RecogniseFields(fs, s.Input(), old(s.At()), old(tr.Contents()), env)
    decreases fs, 0, 0
  {
    hide BitsOf, Recognise, PegConst, ParseInt, WellFormed, NoSelect, ConstWellFormed;
    ok := true;
    match fs {
      case FNil =>
      case FConst(c, rest) =>
        ok := PegTracedConst(c, s, tr);
        if ok {
          ok := PegFields(rest, s, tr, env);
        }
      case FField(p, rest) =>
        ok := PegInto(p, s, tr, env);
        if ok {
          ok := PegFields(rest, s, tr, env);
        }
      case FDep(x, w, c, rest) =>
        var n;
        ok, n := PegDependency(w, c, s, tr);
        if ok {
          ok := PegFields(rest, s, tr, env[x := n]);
        }
    }
  }

  /** A dependency is recognised, read again from a copy of the stream, and its trace replaced
      by the position after it. */
  method PegDependency(w: nat, c: Constraint, s: NailMemStream, tr: NailTrace) returns (ok: bool, n: nat)
    requires w <= 64 && s.Valid() && tr.Valid()
    modifies s, tr, tr.trace
    ensures s.Valid() && tr.Valid() && (tr.trace == old(tr.trace) || fresh(tr.trace))
    ensures var r := ParseInt(w, c, s.Input(), old(s.At()));
            ok == r.Ok?
            && (ok ==> r == Ok(VInt(n), s.At()) && tr.Contents() == old(tr.Contents()) + [Filled(s.At())])
            && (!ok ==> s.At() == old(s.At()) && tr.Contents() == old(tr.Contents()))
  {
    hide BitsOf, Number, Violates;
    n := 0;
    var mark := tr.GetPos();
    var tmpstream := new NailMemStream(s.data);
    var here := s.GetPos();
    tmpstream.Rewind(here);
    ok := PegInt(w, c, s);
    if ok {
      n := tmpstream.ReadUnsignedBig(w);
      var _ := tr.SetPos(mark);
      tr.Const(8 * s.pos + s.bitOffset);
    }
  }

  method PegAlts(alts: Alts, k: nat, back: Pos, s: NailMemStream, tr: NailTrace, env: Env)
    returns (ok: bool, tag: nat, start: nat)
    requires AltsWellFormed(alts) && NoSelectAlts(alts) && s.Valid() && tr.Valid() && back == Pos(s.pos, s.bitOffset)
    modifies s, tr, tr.trace
    ensures s.Valid() && tr.Valid() && (tr.trace == old(tr.trace) || fresh(tr.trace))
    ensures (Peg(ok, s.At(), tr.Contents()), tag, start)
         == RecogniseAlts(alts, k, s.Input(), old(s.At()), old(tr.Contents()), env)
    decreases alts, 0, 0
  {
    ok, tag, start := false, 0, 0;
    if alts.ACons? {
      start := tr.GetPos();
      ok := PegInto(alts.head, s, tr, env);
      if ok {
        tag := k;
      } else {
        s.Rewind(back);
        ok, tag, start := PegAlts(alts.tail, k + 1, back, s, tr, env);
      }
    }
  }

  ghost function Counted(n: nat, rest: (Peg, nat)): (Peg, nat) {
    (rest.0, n + rest.1)
  }

  method PegRepeat(p: Parser, sep: Option<Const>, s: NailMemStream, tr: NailTrace, env: Env) returns (count: nat)
    requires WellFormed(p) && NoSelect(p) && Advances(p) && (sep.Some? ==> ConstWellFormed(sep.value))
    requires s.Valid() && tr.Valid()
    modifies s, tr, tr.trace
    ensures s.Valid() && tr.Valid() && (tr.trace == old(tr.trace) || fresh(tr.trace))
    ensures var (r, n) := RecogniseMany(p, sep, s.Input(), old(s.At()), old(tr.Contents()), env, true);
            count == n && s.At() == r.at && tr.Contents() == r.tr
    decreases p, 2
  {
    hide Element, Counted, RecogniseMany, BitsOf, WellFormed, NoSelect, Advances, ConstWellFormed;
    ghost var b, whole := s.Input(), RecogniseMany(p, sep, s.Input(), s.At(), tr.Contents(), env, true);
    var more := true;
    count := 0;
    NothingCounted(whole);
    while more
      invariant s.Valid() && b == s.Input() && tr.Valid() && (tr.trace == old(tr.trace) || fresh(tr.trace))
      invariant more ==> Counted(count, RecogniseMany(p, sep, b, s.At(), tr.Contents(), env, count == 0)) == whole
      invariant !more ==> whole.1 == count && whole.0.at == s.At() && whole.0.tr == tr.Contents()
      decreases more, |b| - s.At()
    {
      OneMoreElement(p, sep, b, s.At(), tr.Contents(), env, count == 0, count);
      more := PegElement(p, sep, s, tr, env, count == 0);
      if more {
        count := count + 1;
      }
    }
  }

  /** One round of the loop: the separator, except the first time, and the element. */
  method PegElement(
      p: Parser, sep: Option<Const>, s: NailMemStream, tr: NailTrace, env: Env, first: bool) returns (ok: bool)
    requires WellFormed(p) && NoSelect(p) && (sep.Some? ==> ConstWellFormed(sep.value))
    requires s.Valid() && tr.Valid()
    modifies s, tr, tr.trace
    ensures s.Valid() && tr.Valid() && (tr.trace == old(tr.trace) || fresh(tr.trace))
    ensures Peg(ok, s.At(), tr.Contents()) == Element(p, sep, s.Input(), old(s.At()), old(tr.Contents()), env, first)
    decreases p, 1
  {
    hide Recognise, PegConst, BitsOf, WellFormed, NoSelect, ConstWellFormed;
    ok := true;
    if sep.Some? && !first {
      ok := PegTracedConst(sep.value, s, tr);
    }
    if ok {
      ok := PegInto(p, s, tr, env);
    }
  }

  ghost function Element(p: Parser, sep: Option<Const>, b: seq<bool>, i: nat, tr: Slots, env: Env, first: bool): Peg
    requires WellFormed(p) && NoSelect(p) && (sep.Some? ==> ConstWellFormed(sep.value)) && i <= |b|
  {
    var s := PegSeparator(sep, b, i, tr, first);
    if s.ok then Recognise(p, b, s.at, s.tr, env) else s
  }

  lemma OneMoreElement(
      p: Parser, sep: Option<Const>, b: seq<bool>, i: nat, tr: Slots, env: Env, first: bool, count: nat)
    requires WellFormed(p) && NoSelect(p) && Advances(p) && i <= |b|
    requires sep.Some? ==> ConstWellFormed(sep.value)
    ensures var r, m := Element(p, sep, b, i, tr, env, first), RecogniseMany(p, sep, b, i, tr, env, first);
            if r.ok then
              && i < r.at <= |b|
              && Counted(count, m) == Counted(count + 1, RecogniseMany(p, sep, b, r.at, r.tr, env, false))
            else Counted(count, m) == (r, count)
  {
    hide Recognise, PegConst;
  }

  lemma NothingCounted(whole: (Peg, nat))
    ensures Counted(0, whole) == whole
  {
  }

  method PegTimes(p: Parser, n: nat, s: NailMemStream, tr: NailTrace, env: Env) returns (ok: bool)
    requires WellFormed(p) && NoSelect(p) && s.Valid() && tr.Valid()
    modifies s, tr, tr.trace
    ensures s.Valid() && tr.Valid() && (tr.trace == old(tr.trace) || fresh(tr.trace))
    ensures Peg(ok, s.At(), tr.Contents()) == RecogniseN(p, n, s.Input(), old(s.At()), old(tr.Contents()), env)
    decreases p, 1
  {
    hide Recognise, BitsOf, WellFormed, NoSelect;
    ghost var whole := RecogniseN(p, n, s.Input(), s.At(), tr.Contents(), env);
    var i := 0;
    ok := true;
    while i < n && ok
      invariant i <= n && s.Valid() && tr.Valid() && (tr.trace == old(tr.trace) || fresh(tr.trace))
      invariant whole == if ok then RecogniseN(p, n - i, s.Input(), s.At(), tr.Contents(), env)
                         else Peg(false, s.At(), tr.Contents())
      decreases n - i
    {
      ok := PegInto(p, s, tr, env);
      i := i + 1;
    }
  }

  // Second pass.

  method BindConst(s: NailMemStream, tr: NailTrace, t: nat) returns (u: nat)
    requires s.Valid() && tr.Valid() && ReplayConst(s.Input(), tr.Contents(), t).Built?
    modifies s
    ensures s.Valid() && Built((), s.At(), u) == ReplayConst(s.Input(), tr.Contents(), t)
  {
    var n := tr.trace[t].n;
    s.Rewind(Pos(n / 8, n % 8));
    u := t + 1;
  }

  method BindConsts(cs: Consts, s: NailMemStream, tr: NailTrace, t: nat) returns (u: nat)
    requires s.Valid() && tr.Valid() && ReplayConsts(cs, s.Input(), s.At(), tr.Contents(), t).Built?
    modifies s
    ensures s.Valid() && Built((), s.At(), u) == ReplayConsts(cs, s.Input(), old(s.At()), tr.Contents(), t)
    decreases cs
  {
    u := t;
    if cs.CCons? {
      u := BindConst(s, tr, u);
      u := BindConsts(cs.tail, s, tr, u);
    }
  }

  method Bind(p: Parser, s: NailMemStream, tr: NailTrace, t: nat) returns (v: Value, u: nat)
    requires WellFormed(p) && NoSelect(p) && s.Valid() && tr.Valid()
    requires Replay(p, s.Input(), s.At(), tr.Contents(), t).Built?
    modifies s
    ensures s.Valid() && Built(v, s.At(), u) == Replay(p, s.Input(), old(s.At()), tr.Contents(), t)
    decreases p, 0, 0
  {
    match p {
      case PInt(w, _) =>
        var n := s.ReadUnsignedBig(w);
        v, u := VInt(n), t;
      case PStruct(fs) =>
        var vs;
        vs, u := BindFields(fs, s, tr, t);
        v := VStruct(vs);
      case PWrap(before, q, after) =>
        u := BindConsts(before, s, tr, t);
        v, u := Bind(q, s, tr, u);
        u := BindConsts(after, s, tr, u);
      case PChoice(alts) =>
        var tag, start := tr.trace[t].n, tr.trace[t + 1].n;
        v, u := BindAlts(alts, tag, tag, s, tr, start);
      case PMany(q, _, sep) =>
        v, u := BindArray(q, sep, s, tr, t);
      case PFixed(n, q) =>
        var vs;
        vs, u := BindTimes(q, None, n, s, tr, t);
        v := VList(vs);
      case PLength(_, q) =>
        v, u := BindArray(q, None, s, tr, t);
      case POptional(q) =>
        if tr.trace[t].n < 0 {
          v, u := Bind(q, s, tr, t + 1);
          v := VPresent(v);
        } else {
          v, u := VAbsent, tr.trace[t].n;
        }
    }
  }

  method BindFields(fs: Fields, s: NailMemStream, tr: NailTrace, t: nat) returns (vs: seq<Value>, u: nat)
    requires FieldsWellFormed(fs) && NoSelectFields(fs) && s.Valid() && tr.Valid()
    requires ReplayFields(fs, s.Input(), s.At(), tr.Contents(), t).Built?
    modifies s
    ensures s.Valid() && Built(vs, s.At(), u) == ReplayFields(fs, s.Input(), old(s.At()), tr.Contents(), t)
    decreases fs, 0, 0
  {
    vs, u := [], t;
    match fs {
      case FNil =>
      case FConst(_, rest) =>
        u := BindConst(s, tr, u);
        vs, u := BindFields(rest, s, tr, u);
      case FField(p, rest) =>
        var v;
        v, u := Bind(p, s, tr, u);
        vs, u := BindFields(rest, s, tr, u);
        vs := [v] + vs;
      case FDep(_, _, _, rest) =>
        u := BindConst(s, tr, u);
        vs, u := BindFields(rest, s, tr, u);
    }
  }

  method BindAlts(alts: Alts, k: nat, tag: nat, s: NailMemStream, tr: NailTrace, t: nat) returns (v: Value, u: nat)
    requires AltsWellFormed(alts) && NoSelectAlts(alts) && s.Valid() && tr.Valid()
    requires ReplayAlts(alts, k, tag, s.Input(), s.At(), tr.Contents(), t).Built?
    modifies s
    ensures s.Valid() && Built(v, s.At(), u) == ReplayAlts(alts, k, tag, s.Input(), old(s.At()), tr.Contents(), t)
    decreases alts, 0, 0
  {
    if k > 0 {
      v, u := BindAlts(alts.tail, k - 1, tag, s, tr, t);
    } else {
      v, u := Bind(alts.head, s, tr, t);
      v := VTagged(tag, v);
    }
  }

  method BindArray(p: Parser, sep: Option<Const>, s: NailMemStream, tr: NailTrace, t: nat) returns (v: Value, u: nat)
    requires WellFormed(p) && NoSelect(p) && s.Valid() && tr.Valid()
    requires ReplayMany(p, sep, s.Input(), s.At(), tr.Contents(), t).Built?
    modifies s
    ensures s.Valid() && Built(v, s.At(), u) == ReplayMany(p, sep, s.Input(), old(s.At()), tr.Contents(), t)
    decreases p, 2
  {
    var count, save := tr.trace[t].n, tr.trace[t + 1].n;
    var vs, _ := BindTimes(p, sep, count, s, tr, t + 2);
    v, u := VList(vs), save;
  }

  ghost function Before(vs: seq<Value>, r: Replayed<seq<Value>>): Replayed<seq<Value>> {
    if r.Stuck? then Stuck else Built(vs + r.value, r.at, r.t)
  }

  lemma BeforeNothing(r: Replayed<seq<Value>>)
    ensures Before([], r) == r
  {
    if r.Built? { assert [] + r.value == r.value; }
  }

  lemma BeforeNone(p: Parser, sep: Option<Const>, b: seq<bool>, i: nat, tr: Slots, t: nat, first: bool, vs: seq<Value>)
    requires NoSelect(p) && i <= |b|
    ensures Before(vs, ReplayN(p, sep, 0, b, i, tr, t, first)) == Built(vs, i, t)
  {
    assert vs + [] == vs;
  }

  lemma BeforeOne(
      p: Parser, sep: Option<Const>, n: nat, b: seq<bool>, i: nat, tr: Slots, t: nat, first: bool, vs: seq<Value>)
    requires NoSelect(p) && i <= |b| && n > 0 && ReplayN(p, sep, n, b, i, tr, t, first).Built?
    ensures var s := ReplaySeparator(sep, b, i, tr, t, first);
            s.Built? && var r := Replay(p, b, s.at, tr, s.t);
            r.Built? && var rest := ReplayN(p, sep, n - 1, b, r.at, tr, r.t, false);
            rest.Built?
            && Before(vs, ReplayN(p, sep, n, b, i, tr, t, first)) == Before(vs + [r.value], rest)
  {
    hide Replay, ReplayConst;
    var s := ReplaySeparator(sep, b, i, tr, t, first);
    var r := Replay(p, b, s.at, tr, s.t);
    var rest := ReplayN(p, sep, n - 1, b, r.at, tr, r.t, false);
    assert vs + ([r.value] + rest.value) == (vs + [r.value]) + rest.value;
  }

  method BindTimes(p: Parser, sep: Option<Const>, n: nat, s: NailMemStream, tr: NailTrace, t: nat)
    returns (vs: seq<Value>, u: nat)
    requires WellFormed(p) && NoSelect(p) && s.Valid() && tr.Valid()
    requires ReplayN(p, sep, n, s.Input(), s.At(), tr.Contents(), t, true).Built?
    modifies s
    ensures s.Valid() && Built(vs, s.At(), u) == ReplayN(p, sep, n, s.Input(), old(s.At()), tr.Contents(), t, true)
    decreases p, 1
  {
    hide Replay, ReplayN, ReplayConst, Before, BitsOf, WellFormed, NoSelect;
    ghost var whole := ReplayN(p, sep, n, s.Input(), s.At(), tr.Contents(), t, true);
    var data := new Value[n](_ => VAbsent);
    var i := 0;
    u := t;
    BeforeNothing(whole);
    while i < n
      invariant i <= n && s.Valid()
      invariant ReplayN(p, sep, n - i, s.Input(), s.At(), tr.Contents(), u, i == 0).Built?
      invariant Before(data[..i], ReplayN(p, sep, n - i, s.Input(), s.At(), tr.Contents(), u, i == 0)) == whole
    {
      ghost var done := data[..i];
      BeforeOne(p, sep, n - i, s.Input(), s.At(), tr.Contents(), u, i == 0, done);
      if i > 0 && sep.Some? {
        u := BindConst(s, tr, u);
      }
      var v;
      v, u := Bind(p, s, tr, u);
      data[i] := v;
      assert data[..i + 1] == done + [v];
      i := i + 1;
    }
    vs := data[..];
    assert data[..n] == vs;
    BeforeNone(p, sep, s.Input(), s.At(), tr.Contents(), u, i == 0, vs);
  }

  /** The emitted entry point: recognise, require that every byte was consumed, replay. */
  method ParseBuffer(p: Parser, data: array<byte>) returns (r: Option<Value>)
    requires WellFormed(p) && NoSelect(p)
    ensures r == TwoPassAll(p, BitsOf(data[..]))
  {
    hide BitsOf, Recognise, Replay, WellFormed, NoSelect;
    var s := new NailMemStream(data);
    var tr := new NailTrace(4096, 4096);
    assert s.Input() == BitsOf(data[..]);
    var ok := PegInto(p, s, tr, map[]);
    r := None;
    if ok && s.pos == data.Length {
      ReplayExact(p, s.Input(), 0, [], map[], tr.Contents(), 0);
      s.Rewind(Pos(0, s.bitOffset));
      var v, _ := Bind(p, s, tr, 0);
      r := Some(v);
    }
  }
}
