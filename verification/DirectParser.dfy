/** The emitted one-pass parser as it runs: it reads the stream, rewinds it on failure, gathers
    the elements of an array in a list linked backwards and copies them into place at the end. */
module DirectParser {
  import opened Bits
  import opened MemStream
  import opened Grammar
  import opened DirectSpec

  /** A run of the parser returned what the specification says, with the cursor after it. */
  ghost predicate Returned<T>(d: Result<T>, ok: bool, v: T, at: nat) {
    ok == d.Ok? && (ok ==> v == d.value && at == d.at)
  }

  method MatchConst(c: Const, s: NailMemStream) returns (ok: bool)
    requires ConstWellFormed(c) && s.Valid()
    modifies s
    ensures s.Valid() && ConstResult(ok, s.At()) == ParseConst(c, s.Input(), old(s.At()), false)
    decreases c, 0, 0
  {
    match c {
      case CInt(w, v) =>
        ok := s.Check(w);
        if ok {
          var r := s.ReadUnsignedBig(w);
          ok := r == v;
        }
      case CSeq(cs) => ok := MatchConsts(cs, s);
      case CUnion(cs) => ok := MatchUnion(cs, s);
      case CRepeat(d) =>
        ghost var start := s.At();
        ok := true;
        while ok
          invariant s.Valid() && start <= s.At()
          invariant ParseRepeat(d, s.Input(), start, false)
                 == if ok then ParseRepeat(d, s.Input(), s.At(), false) else ConstResult(true, s.At())
          decreases ok, |s.Input()| - s.At()
        {
          ok := MatchConst(d, s);
        }
        ok := true;
    }
  }

  method MatchConsts(cs: Consts, s: NailMemStream) returns (ok: bool)
    requires ConstsWellFormed(cs) && s.Valid()
    modifies s
    ensures s.Valid() && ConstResult(ok, s.At()) == ParseConsts(cs, s.Input(), old(s.At()), false)
    decreases cs, 0, 0
  {
    ok := true;
    if cs.CCons? {
      ok := MatchConst(cs.head, s);
      if ok {
        ok := MatchConsts(cs.tail, s);
      }
    }
  }

  method MatchUnion(cs: Consts, s: NailMemStream) returns (ok: bool)
    requires ConstsWellFormed(cs) && s.Valid()
    modifies s
    ensures s.Valid() && ConstResult(ok, s.At()) == ParseUnion(cs, s.Input(), old(s.At()), false)
    decreases cs, 0, 0
  {
    ok := false;
    if cs.CCons? {
      var back := s.GetPos();
      ok := MatchConst(cs.head, s);
      if !ok {
        s.Rewind(back);
        ok := MatchUnion(cs.tail, s);
      }
    }
  }

  method ReadInt(w: nat, c: Constraint, s: NailMemStream) returns (ok: bool, n: nat)
    requires w <= 64 && s.Valid()
    modifies s
    ensures s.Valid() && Returned(ParseInt(w, c, s.Input(), old(s.At())), ok, VInt(n), s.At())
    ensures var at := old(s.At());
            ok <==> at + w <= |s.Input()| && Allows(c, Number(s.Input()[at..at + w]))
  {
    hide Violates, Allows, Number, BitsOf;
    n := 0;
    ok := s.Check(w);
    if ok {
      n := s.ReadUnsignedBig(w);
      RejectedWhen(c, n);
      ok := !Violates(c, n);
    }
  }

  method Run(p: Parser, s: NailMemStream, env: Env) returns (ok: bool, v: Value)
    requires WellFormed(p) && s.Valid()
    modifies s
    ensures s.Valid() && Returned(Parse(p, s.Input(), old(s.At()), env), ok, v, s.At())
    decreases p, 0, 0
  {
    v := VAbsent;
    match p {
      case PInt(w, c) =>
        var n;
        ok, n := ReadInt(w, c, s);
        v := VInt(n);
      case PStruct(fs) =>
        var vs;
        ok, vs := RunFields(fs, s, env);
        v := VStruct(vs);
      case PWrap(before, q, after) =>
        ok := MatchConsts(before, s);
        if ok {
          ok, v := Run(q, s, env);
          if ok {
            ok := MatchConsts(after, s);
          }
        }
      case PChoice(alts) => ok, v := RunAlts(alts, 0, s, env);
      case PSelect(dep, cases) => ok, v := RunCases(cases, 0, Dep(env, dep), s, env);
      case PMany(q, atLeastOne, sep) =>
        var elems;
        elems := RunMany(q, sep, s, env);
        ok := !(atLeastOne && elems == []);
        v := VList(elems);
      case PFixed(n, q) =>
        var elems;
        ok, elems := RunN(q, n, s, env);
        v := VList(elems);
      case PLength(dep, q) =>
        var elems;
        ok, elems := RunN(q, Dep(env, dep), s, env);
        v := VList(elems);
      case POptional(q) =>
        var back := s.GetPos();
        var present, w := Run(q, s, env);
        if present {
          v := VPresent(w);
        } else {
          s.Rewind(back);
        }
        ok := true;
    }
  }

  method RunFields(fs: Fields, s: NailMemStream, env: Env) returns (ok: bool, vs: seq<Value>)
    requires FieldsWellFormed(fs) && s.Valid()
    modifies s
    ensures s.Valid() && Returned(ParseFields(fs, s.Input(), old(s.At()), env), ok, vs, s.At())
    decreases fs, 0, 0
  {
    ok, vs := true, [];
    match fs {
      case FNil =>
      case FConst(c, rest) =>
        ok := MatchConst(c, s);
        if ok {
          ok, vs := RunFields(rest, s, env);
        }
      case FField(p, rest) =>
        var v;
        ok, v := Run(p, s, env);
        if ok {
          ok, vs := RunFields(rest, s, env);
          vs := [v] + vs;
        }
      case FDep(x, w, c, rest) =>
        var n;
        ok, n := ReadInt(w, c, s);
        if ok {
          ok, vs := RunFields(rest, s, env[x := n]);
        }
    }
  }

  method RunAlts(alts: Alts, tag: nat, s: NailMemStream, env: Env) returns (ok: bool, v: Value)
    requires AltsWellFormed(alts) && s.Valid()
    modifies s
    ensures s.Valid() && Returned(ParseAlts(alts, tag, s.Input(), old(s.At()), env), ok, v, s.At())
    decreases alts, 0, 0
  {
    ok, v := false, VAbsent;
    if alts.ACons? {
      var back := s.GetPos();
      ok, v := Run(alts.head, s, env);
      if ok {
        v := VTagged(tag, v);
      } else {
        s.Rewind(back);
        ok, v := RunAlts(alts.tail, tag + 1, s, env);
      }
    }
  }

  method RunCases(cases: Cases, tag: nat, d: nat, s: NailMemStream, env: Env) returns (ok: bool, v: Value)
    requires CasesWellFormed(cases) && s.Valid()
    modifies s
    ensures s.Valid() && Returned(ParseCases(cases, tag, d, s.Input(), old(s.At()), env), ok, v, s.At())
    decreases cases, 0, 0
  {
    ok, v := false, VAbsent;
    if cases.SCons? {
      if d == cases.value {
        ok, v := Run(cases.head, s, env);
        v := VTagged(tag, v);
      } else {
        ok, v := RunCases(cases.tail, tag + 1, d, s, env);
      }
    }
  }

  /** The temporary list of an array: each node points to the element before it. */
  datatype Temp = Nil | Node(elem: Value, prev: Temp)

  ghost function Gathered(tmp: Temp): seq<Value> {
    if tmp.Nil? then [] else Gathered(tmp.prev) + [tmp.elem]
  }

  method RunMany(p: Parser, sep: Option<Const>, s: NailMemStream, env: Env) returns (elems: seq<Value>)
    requires WellFormed(p) && Advances(p) && (sep.Some? ==> ConstWellFormed(sep.value)) && s.Valid()
    modifies s
    ensures s.Valid() && (elems, s.At()) == ParseMany(p, sep, s.Input(), old(s.At()), env, true)
    decreases p, 2
  {
    hide Parse, ParseMany, ParseConst, Separator, After, BitsOf, WellFormed, ConstWellFormed, Advances;
    ghost var b, whole := s.Input(), ParseMany(p, sep, s.Input(), s.At(), env, true);
    var tmp, count, more := Nil, 0, true;
    NothingGathered(whole);
    while more
      invariant s.Valid() && |Gathered(tmp)| == count
      invariant more ==> After(Gathered(tmp), ParseMany(p, sep, b, s.At(), env, count == 0)) == whole
      invariant !more ==> (Gathered(tmp), s.At()) == whole
      decreases more, |b| - s.At()
    {
      OneMore(p, sep, b, s.At(), env, count == 0, Gathered(tmp));
      more, tmp := RunRound(p, sep, s, env, count == 0, tmp);
      if more {
        count := count + 1;
      }
    }
    elems := Drain(tmp, count);
  }

  /** One round of the loop: the separator, except the first time, and an element in a new node of
      the list. A failure drops the node and rewinds the stream to where the round began. */
  method RunRound(p: Parser, sep: Option<Const>, s: NailMemStream, env: Env, first: bool, tmp: Temp)
    returns (more: bool, tmp': Temp)
    requires WellFormed(p) && (sep.Some? ==> ConstWellFormed(sep.value)) && s.Valid()
    modifies s
    ensures s.Valid()
    ensures var r := Separator(sep, s.Input(), old(s.At()), first);
            if r.ok && Parse(p, s.Input(), r.at, env).Ok? then
              var d := Parse(p, s.Input(), r.at, env);
              more && s.At() == d.at && Gathered(tmp') == Gathered(tmp) + [d.value]
            else !more && s.At() == old(s.At()) && tmp' == tmp
    decreases p, 1
  {
    hide Parse, ParseConst, BitsOf, WellFormed, ConstWellFormed;
    var posrep := s.GetPos();
    more, tmp' := true, tmp;
    if sep.Some? && !first {
      more := MatchConst(sep.value, s);
    }
    if more {
      tmp' := Node(VAbsent, tmp');
      var v;
      more, v := Run(p, s, env);
      if more {
        tmp' := Node(v, tmp'.prev);
      } else {
        tmp' := tmp'.prev;
      }
    }
    if !more {
      s.Rewind(posrep);
    }
  }

  lemma NothingGathered(whole: (seq<Value>, nat))
    ensures After([], whole) == whole
  {
    assert [] + whole.0 == whole.0;
  }

  /** What is still to come, behind the elements already gathered. */
  ghost function After(vs: seq<Value>, rest: (seq<Value>, nat)): (seq<Value>, nat) {
    (vs + rest.0, rest.1)
  }

  lemma OneMore(p: Parser, sep: Option<Const>, b: seq<bool>, i: nat, env: Env, first: bool, vs: seq<Value>)
    requires WellFormed(p) && Advances(p) && (sep.Some? ==> ConstWellFormed(sep.value)) && i <= |b|
    ensures var s := Separator(sep, b, i, first);
            if s.ok && Parse(p, b, s.at, env).Ok? then
              var r := Parse(p, b, s.at, env);
              r.at > i
              && After(vs, ParseMany(p, sep, b, i, env, first))
              == After(vs + [r.value], ParseMany(p, sep, b, r.at, env, false))
            else After(vs, ParseMany(p, sep, b, i, env, first)) == (vs, i)
  {
    hide Parse, ParseMany, ParseConst, WellFormed, Advances;
    OneMoreParsed(p, sep, b, i, env, first);
    var s := Separator(sep, b, i, first);
    if s.ok && Parse(p, b, s.at, env).Ok? {
      var r := Parse(p, b, s.at, env);
      var ws := ParseMany(p, sep, b, r.at, env, false).0;
      assert vs + ([r.value] + ws) == (vs + [r.value]) + ws;
    } else {
      assert vs + [] == vs;
    }
  }

  /** Copies the temporary list backwards into an array of its length. */
  method Drain(tmp: Temp, count: nat) returns (elems: seq<Value>)
    requires |Gathered(tmp)| == count
    ensures elems == Gathered(tmp)
  {
    var data := new Value[count](_ => VAbsent);
    var t, n := tmp, count;
    while n > 0
      invariant n == |Gathered(t)| <= count
      invariant Gathered(t) + data[n..] == Gathered(tmp)
    {
      n := n - 1;
      data[n] := t.elem;
      t := t.prev;
    }
    elems := data[..];
  }

  method RunN(p: Parser, n: nat, s: NailMemStream, env: Env) returns (ok: bool, elems: seq<Value>)
    requires WellFormed(p) && s.Valid()
    modifies s
    ensures s.Valid() && Returned(ParseN(p, n, s.Input(), old(s.At()), env), ok, elems, s.At())
    decreases p, 1
  {
    hide Parse, ParseN, Behind, BitsOf, WellFormed;
    ghost var b, whole := s.Input(), ParseN(p, n, s.Input(), s.At(), env);
    var data := new Value[n](_ => VAbsent);
    var i := 0;
    ok := true;
    BehindNothing(whole);
    while i < n && ok
      invariant i <= n && s.Valid()
      invariant if ok then Behind(data[..i], ParseN(p, n - i, b, s.At(), env)) == whole else whole.Fail?
      decreases n - i
    {
      ghost var done := data[..i];
      OneMoreOf(p, n - i, b, s.At(), env, done);
      var v;
      ok, v := Run(p, s, env);
      if ok {
        data[i] := v;
        assert data[..i + 1] == done + [v];
      }
      i := i + 1;
    }
    elems := data[..];
    assert data[..n] == elems;
    if ok { NoneLeftOf(p, b, s.At(), env, elems); }
  }

  /** One more element of a counted array. */
  lemma OneMoreOf(p: Parser, n: nat, b: seq<bool>, i: nat, env: Env, done: seq<Value>)
    requires WellFormed(p) && i <= |b| && n > 0
    ensures match Parse(p, b, i, env)
            case Fail => Behind(done, ParseN(p, n, b, i, env)).Fail?
            case Ok(v, j) => Behind(done, ParseN(p, n, b, i, env)) == Behind(done + [v], ParseN(p, n - 1, b, j, env))
  {
    hide Parse;
    match Parse(p, b, i, env)
    case Fail =>
    case Ok(v, j) => BehindPush(done, v, ParseN(p, n - 1, b, j, env));
  }

  lemma NoneLeftOf(p: Parser, b: seq<bool>, i: nat, env: Env, done: seq<Value>)
    requires WellFormed(p) && i <= |b|
    ensures Behind(done, ParseN(p, 0, b, i, env)) == Ok(done, i)
  {
    assert done + [] == done;
  }

  ghost function Behind(vs: seq<Value>, r: Result<seq<Value>>): Result<seq<Value>> {
    match r
    case Fail => Fail
    case Ok(ws, j) => Ok(vs + ws, j)
  }

  lemma BehindNothing(r: Result<seq<Value>>)
    ensures Behind([], r) == r
  {
    if r.Ok? { assert [] + r.value == r.value; }
  }

  lemma BehindPush(vs: seq<Value>, v: Value, r: Result<seq<Value>>)
    ensures Behind(vs, Push(v, r)) == Behind(vs + [v], r)
  {
    if r.Ok? { assert vs + ([v] + r.value) == (vs + [v]) + r.value; }
  }

  /** The emitted entry point. */
  method ParseBuffer(p: Parser, data: array<byte>) returns (r: Option<Value>)
    requires WellFormed(p)
    ensures r == ParseAll(p, BitsOf(data[..]))
  {
    var s := new NailMemStream(data);
    assert s.Input() == BitsOf(data[..]);
    var ok, v := Run(p, s, map[]);
    r := None;
    if ok {
      var another := s.Check(8);
      if !another {
        r := Some(v);
      }
    }
  }
}
