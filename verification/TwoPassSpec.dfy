/** What the emitted two-pass parser computes. The first pass recognises the input and appends
    to a flat trace of integers; what a failed alternative or element appended stays there and
    is jumped over. The second pass replays the trace to build the value. */
module TwoPassSpec {
  import opened Bits
  import opened Grammar
  import opened DirectSpec
  import opened Trace

  /** The outcome of the first pass; on failure too the cursor and the trace have moved. */
  datatype Peg = Peg(ok: bool, at: nat, tr: Slots)

  /** The two-pass generators have no case for select and emit nothing for it. */
  predicate NoSelect(p: Parser) {
    match p
    case PInt(_, _) => true
    case PStruct(fs) => NoSelectFields(fs)
    case PWrap(_, q, _) => NoSelect(q)
    case PChoice(alts) => NoSelectAlts(alts)
    case PSelect(_, _) => false
    case PMany(q, _, _) => NoSelect(q)
    case PFixed(_, q) => NoSelect(q)
    case PLength(_, q) => NoSelect(q)
    case POptional(q) => NoSelect(q)
  }

  predicate NoSelectFields(fs: Fields) {
    match fs
    case FNil => true
    case FConst(_, rest) => NoSelectFields(rest)
    case FField(p, rest) => NoSelect(p) && NoSelectFields(rest)
    case FDep(_, _, _, rest) => NoSelectFields(rest)
  }

  predicate NoSelectAlts(alts: Alts) {
    alts.ACons? ==> NoSelect(alts.head) && NoSelectAlts(alts.tail)
  }

  // First pass. Every function only appends to the trace it is given, apart from filling the
  // slots it reserved itself.

  function PegConst(c: Const, b: seq<bool>, i: nat, tr: Slots): (r: Peg)
    requires ConstWellFormed(c) && i <= |b|
    ensures i <= r.at <= |b| && (r.ok && ConstAdvances(c) ==> i < r.at)
    ensures tr <= r.tr && (r.ok ==> |r.tr| == |tr| + 1)
  {
    var r := ParseConst(c, b, i, true);
    Peg(r.ok, r.at, if r.ok then tr + [Filled(r.at)] else tr)
  }

  function PegConsts(cs: Consts, b: seq<bool>, i: nat, tr: Slots): (r: Peg)
    requires ConstsWellFormed(cs) && i <= |b|
    ensures i <= r.at <= |b| && (r.ok && SomeConstAdvances(cs) ==> i < r.at)
    ensures tr <= r.tr
  {
    match cs
    case CNil => Peg(true, i, tr)
    case CCons(c, rest) =>
      var r := PegConst(c, b, i, tr);
      if r.ok then PegConsts(rest, b, r.at, r.tr) else r
  }

  function Recognise(p: Parser, b: seq<bool>, i: nat, tr: Slots, env: Env): (r: Peg)
    requires WellFormed(p) && NoSelect(p) && i <= |b|
    ensures i <= r.at <= |b| && (r.ok && Advances(p) ==> i < r.at)
    ensures tr <= r.tr
    decreases p, 0, 0
  {
    match p
    case PInt(w, c) =>
      if ParseInt(w, c, b, i).Ok? then Peg(true, i + w, tr) else Peg(false, i, tr)
    case PStruct(fs) => RecogniseFields(fs, b, i, tr, env)
    case PWrap(before, q, after) =>
      var r1 := PegConsts(before, b, i, tr);
      if !r1.ok then r1 else
      var r2 := Recognise(q, b, r1.at, r1.tr, env);
      if !r2.ok then r2 else PegConsts(after, b, r2.at, r2.tr)
    case PChoice(alts) =>
      var (r, tag, start) := RecogniseAlts(alts, 0, b, i, Reserve(tr, -1, -0x1111_1112), env);
      if r.ok then Peg(true, r.at, Fill(tr, r.tr, tag, start)) else r
    case PMany(q, atLeastOne, sep) =>
      var (r, count) := RecogniseMany(q, sep, b, i, Reserve(tr, -2, -0x1111_1111), env, true);
      Peg(!(atLeastOne && count < 1), r.at, Fill(tr, r.tr, count, |r.tr|))
    case PFixed(n, q) => RecogniseN(q, n, b, i, tr, env)
    case PLength(dep, q) =>
      var r := RecogniseN(q, Dep(env, dep), b, i, Reserve(tr, -2, -0x1111_1111), env);
      if r.ok then Peg(true, r.at, Fill(tr, r.tr, Dep(env, dep), |r.tr|)) else r
    case POptional(q) =>
      var r := Recognise(q, b, i, tr + [Hole(-3)], env);
      Peg(true, r.at, FillOne(tr, r.tr, if r.ok then -1 else |r.tr|))
  }

  function RecogniseFields(fs: Fields, b: seq<bool>, i: nat, tr: Slots, env: Env): (r: Peg)
    requires FieldsWellFormed(fs) && NoSelectFields(fs) && i <= |b|
    ensures i <= r.at <= |b| && (r.ok && FieldsAdvance(fs) ==> i < r.at)
    ensures tr <= r.tr
    decreases fs, 0, 0
  {
    match fs
    case FNil => Peg(true, i, tr)
    case FConst(c, rest) =>
      var r := PegConst(c, b, i, tr);
      if r.ok then RecogniseFields(rest, b, r.at, r.tr, env) else r
    case FField(p, rest) =>
      var r := Recognise(p, b, i, tr, env);
      if r.ok then RecogniseFields(rest, b, r.at, r.tr, env) else r
    case FDep(x, w, c, rest) =>
      (match ParseInt(w, c, b, i)
       case Fail => Peg(false, i, tr)
       case Ok(v, j) => RecogniseFields(rest, b, j, tr + [Filled(j)], env[x := v.n]))
  }

  /** The result, the tag of the alternative taken and the slot its trace starts at. */
  function RecogniseAlts(alts: Alts, tag: nat, b: seq<bool>, back: nat, tr: Slots, env: Env): (r: (Peg, nat, nat))
    requires AltsWellFormed(alts) && NoSelectAlts(alts) && back <= |b|
    ensures back <= r.0.at <= |b| && (r.0.ok && EveryAltAdvances(alts) ==> back < r.0.at)
    ensures tr <= r.0.tr && (!r.0.ok ==> r.0.at == back)
    decreases alts, 0, 0
  {
    match alts
    case ANil => (Peg(false, back, tr), 0, 0)
    case ACons(p, rest) =>
      var r := Recognise(p, b, back, tr, env);
      if r.ok then (r, tag, |tr|) else RecogniseAlts(rest, tag + 1, b, back, r.tr, env)
  }

  /** The separator of a round: read before every element but the first. */
  function PegSeparator(sep: Option<Const>, b: seq<bool>, i: nat, tr: Slots, first: bool): (r: Peg)
    requires i <= |b| && (sep.Some? ==> ConstWellFormed(sep.value))
    ensures i <= r.at <= |b| && tr <= r.tr
  {
    if first || sep.None? then Peg(true, i, tr) else PegConst(sep.value, b, i, tr)
  }

  /** Stops at the first failure, leaving the cursor and the trace where the failure left them. */
  function RecogniseMany(p: Parser, sep: Option<Const>, b: seq<bool>, i: nat, tr: Slots, env: Env, first: bool)
    : (r: (Peg, nat))
    requires WellFormed(p) && NoSelect(p) && Advances(p) && i <= |b|
    requires sep.Some? ==> ConstWellFormed(sep.value)
    ensures i <= r.0.at <= |b| && (r.1 > 0 ==> i < r.0.at)
    ensures tr <= r.0.tr
    decreases p, 1, |b| - i
  {
    var s := PegSeparator(sep, b, i, tr, first);
    if !s.ok then (s, 0) else
    var r := Recognise(p, b, s.at, s.tr, env);
    if !r.ok then (r, 0) else
    var (rest, n) := RecogniseMany(p, sep, b, r.at, r.tr, env, false);
    (rest, n + 1)
  }

  function RecogniseN(p: Parser, n: nat, b: seq<bool>, i: nat, tr: Slots, env: Env): (r: Peg)
    requires WellFormed(p) && NoSelect(p) && i <= |b|
    ensures i <= r.at <= |b| && (r.ok && Advances(p) && n > 0 ==> i < r.at)
    ensures tr <= r.tr
    decreases p, 1, n
  {
    if n == 0 then Peg(true, i, tr) else
    var r := Recognise(p, b, i, tr, env);
    if r.ok then RecogniseN(p, n - 1, b, r.at, r.tr, env) else r
  }

  // Second pass. The replay is stuck when it would read a slot that is not there or was never
  // filled, follow a jump that does not lead forward past its own slot, or read past the input.

  datatype Replayed<+T> = Stuck | Built(value: T, at: nat, t: nat)

  function ReadSlot(tr: Slots, t: nat): Option<int> {
    if t < |tr| && tr[t].Filled? then Some(tr[t].n) else None
  }

  predicate Forward(tr: Slots, slot: nat, target: int) {
    slot < target <= |tr|
  }

  /** A constant, a separator or a dependency: the slot holds the bit position after it. */
  function ReplayConst(b: seq<bool>, tr: Slots, t: nat): (r: Replayed<()>)
    ensures r.Built? ==> r.at <= |b|
  {
    match ReadSlot(tr, t)
    case None => Stuck
    case Some(n) => if 0 <= n <= |b| then Built((), n, t + 1) else Stuck
  }

  function ReplayConsts(cs: Consts, b: seq<bool>, i: nat, tr: Slots, t: nat): (r: Replayed<()>)
    requires i <= |b|
    ensures r.Built? ==> r.at <= |b|
  {
    match cs
    case CNil => Built((), i, t)
    case CCons(_, rest) =>
      var r := ReplayConst(b, tr, t);
      if r.Stuck? then Stuck else ReplayConsts(rest, b, r.at, tr, r.t)
  }

  function Replay(p: Parser, b: seq<bool>, i: nat, tr: Slots, t: nat): (r: Replayed<Value>)
    requires NoSelect(p) && i <= |b|
    ensures r.Built? ==> r.at <= |b|
    decreases p, 0, 0
  {
    match p
    case PInt(w, _) => if i + w <= |b| then Built(VInt(Number(b[i..i + w])), i + w, t) else Stuck
    case PStruct(fs) =>
      var r := ReplayFields(fs, b, i, tr, t);
      if r.Stuck? then Stuck else Built(VStruct(r.value), r.at, r.t)
    case PWrap(before, q, after) =>
      var r1 := ReplayConsts(before, b, i, tr, t);
      if r1.Stuck? then Stuck else
      var r2 := Replay(q, b, r1.at, tr, r1.t);
      if r2.Stuck? then Stuck else
      var r3 := ReplayConsts(after, b, r2.at, tr, r2.t);
      if r3.Stuck? then Stuck else Built(r2.value, r3.at, r3.t)
    case PChoice(alts) =>
      var tag, start := ReadSlot(tr, t), ReadSlot(tr, t + 1);
      if tag.Some? && tag.value >= 0 && start.Some? && Forward(tr, t + 1, start.value)
      then ReplayAlts(alts, tag.value, tag.value, b, i, tr, start.value)
      else Stuck
    case PMany(q, _, sep) => ReplayMany(q, sep, b, i, tr, t)
    case PFixed(n, q) => ListBuilt(ReplayN(q, None, n, b, i, tr, t, true))
    case PLength(_, q) => ReplayMany(q, None, b, i, tr, t)
    case POptional(q) =>
      (match ReadSlot(tr, t)
       case None => Stuck
       case Some(n) =>
         if n < 0 then
           var r := Replay(q, b, i, tr, t + 1);
           if r.Stuck? then Stuck else Built(VPresent(r.value), r.at, r.t)
         else if Forward(tr, t, n) then Built(VAbsent, i, n) else Stuck)
  }

  function ListBuilt(r: Replayed<seq<Value>>): (l: Replayed<Value>)
    ensures r.Built? <==> l.Built?
    ensures r.Built? ==> l == Built(VList(r.value), r.at, r.t)
  {
    if r.Stuck? then Stuck else Built(VList(r.value), r.at, r.t)
  }

  function ReplayFields(fs: Fields, b: seq<bool>, i: nat, tr: Slots, t: nat): (r: Replayed<seq<Value>>)
    requires NoSelectFields(fs) && i <= |b|
    ensures r.Built? ==> r.at <= |b|
    decreases fs, 0, 0
  {
    match fs
    case FNil => Built([], i, t)
    case FConst(_, rest) =>
      var r := ReplayConst(b, tr, t);
      if r.Stuck? then Stuck else ReplayFields(rest, b, r.at, tr, r.t)
    case FField(p, rest) =>
      var r := Replay(p, b, i, tr, t);
      if r.Stuck? then Stuck else
      var s := ReplayFields(rest, b, r.at, tr, r.t);
      if s.Stuck? then Stuck else Built([r.value] + s.value, s.at, s.t)
    case FDep(_, _, _, rest) =>
      var r := ReplayConst(b, tr, t);
      if r.Stuck? then Stuck else ReplayFields(rest, b, r.at, tr, r.t)
  }

  function ReplayAlts(alts: Alts, k: nat, tag: nat, b: seq<bool>, i: nat, tr: Slots, t: nat): (r: Replayed<Value>)
    requires NoSelectAlts(alts) && i <= |b|
    ensures r.Built? ==> r.at <= |b|
    decreases alts, 0, 0
  {
    if alts.ANil? then Stuck
    else if k > 0 then ReplayAlts(alts.tail, k - 1, tag, b, i, tr, t)
    else
      var r := Replay(alts.head, b, i, tr, t);
      if r.Stuck? then Stuck else Built(VTagged(tag, r.value), r.at, r.t)
  }

  /** The count and the slot after the last element come first; the cursor jumps there in the
      end, over whatever a failed element left behind. */
  function ReplayMany(p: Parser, sep: Option<Const>, b: seq<bool>, i: nat, tr: Slots, t: nat): (r: Replayed<Value>)
    requires NoSelect(p) && i <= |b|
    ensures r.Built? ==> r.at <= |b|
    decreases p, 2, 0
  {
    var count, save := ReadSlot(tr, t), ReadSlot(tr, t + 1);
    if count.Some? && count.value >= 0 && save.Some? && Forward(tr, t + 1, save.value) then
      var r := ReplayN(p, sep, count.value, b, i, tr, t + 2, true);
      if r.Stuck? then Stuck else Built(VList(r.value), r.at, save.value)
    else Stuck
  }

  function ReplaySeparator(sep: Option<Const>, b: seq<bool>, i: nat, tr: Slots, t: nat, first: bool): (r: Replayed<()>)
    requires i <= |b|
    ensures r.Built? ==> r.at <= |b|
  {
    if first || sep.None? then Built((), i, t) else ReplayConst(b, tr, t)
  }

  function ReplayN(p: Parser, sep: Option<Const>, n: nat, b: seq<bool>, i: nat, tr: Slots, t: nat, first: bool)
    : (r: Replayed<seq<Value>>)
    requires NoSelect(p) && i <= |b|
    ensures r.Built? ==> r.at <= |b| && |r.value| == n
    decreases p, 1, n
  {
    if n == 0 then Built([], i, t) else
    var s := ReplaySeparator(sep, b, i, tr, t, first);
    if s.Stuck? then Stuck else
    var r := Replay(p, b, s.at, tr, s.t);
    if r.Stuck? then Stuck else
    var rest := ReplayN(p, sep, n - 1, b, r.at, tr, r.t, false);
    if rest.Stuck? then Stuck else Built([r.value] + rest.value, rest.at, rest.t)
  }

  // The grammars on which the first pass gives back what a failed element or optional part
  // consumed, as the direct parser always does.

  /** Constants the two parsers leave at the same place. */
  predicate Steady(c: Const) {
    match c
    case CInt(_, _) => true
    case CSeq(cs) => AllSteady(cs)
    case CUnion(cs) => AllSteady(cs)
    case CRepeat(d) => d.CUnion? && Steady(d)
  }

  predicate AllSteady(cs: Consts) {
    cs.CCons? ==> Steady(cs.head) && AllSteady(cs.tail)
  }

  /** A failure of `p` leaves the cursor where it was. */
  predicate FailsInPlace(p: Parser) {
    match p
    case PInt(_, _) => true
    case PStruct(fs) => fs.FNil? || (fs.FField? && fs.rest.FNil? && FailsInPlace(fs.p))
    case PWrap(before, q, after) => before.CNil? && after.CNil? && FailsInPlace(q)
    case PChoice(_) => true
    case PSelect(_, _) => false
    case PMany(q, _, _) => FailsInPlace(q)
    case PFixed(n, q) => n <= 1 && FailsInPlace(q)
    case PLength(_, _) => false
    case POptional(_) => true
  }

  /** Every element of an unseparated array and every optional part fails in place. */
  predicate Restores(p: Parser) {
    match p
    case PInt(_, _) => true
    case PStruct(fs) => FieldsRestore(fs)
    case PWrap(before, q, after) => AllSteady(before) && Restores(q) && AllSteady(after)
    case PChoice(alts) => AltsRestore(alts)
    case PSelect(_, _) => false
    case PMany(q, _, sep) => Restores(q) && FailsInPlace(q) && sep.None?
    case PFixed(_, q) => Restores(q)
    case PLength(_, q) => Restores(q)
    case POptional(q) => Restores(q) && FailsInPlace(q)
  }

  predicate FieldsRestore(fs: Fields) {
    match fs
    case FNil => true
    case FConst(c, rest) => Steady(c) && FieldsRestore(rest)
    case FField(p, rest) => Restores(p) && FieldsRestore(rest)
    case FDep(_, _, _, rest) => FieldsRestore(rest)
  }

  predicate AltsRestore(alts: Alts) {
    alts.ACons? ==> Restores(alts.head) && AltsRestore(alts.tail)
  }

  // What the slots hold.

  /** An optional part: -1 when it is there, otherwise the slot behind what its failure left. */
  lemma TraceOfOptional(b: seq<bool>, tr: Slots)
    ensures var p := POptional(PInt(8, Any));
            WellFormed(p) && NoSelect(p)
            && Recognise(p, b, 0, tr, map[])
            == if |b| >= 8 then Peg(true, 8, tr + [Filled(-1)]) else Peg(true, 0, tr + [Filled(|tr| + 1)])
  {
    var open := tr + [Hole(-3)];
    assert Recognise(PInt(8, Any), b, 0, open, map[]) == Peg(|b| >= 8, if |b| >= 8 then 8 else 0, open);
  }

  /** An array: the number of its elements and the slot behind it. */
  lemma TraceOfArray(b: seq<bool>, tr: Slots)
    requires |b| == 8
    ensures var p := PMany(PInt(8, Any), false, None);
            WellFormed(p) && NoSelect(p)
            && Recognise(p, b, 0, tr, map[]) == Peg(true, 8, tr + [Filled(1), Filled(|tr| + 2)])
  {
    var open := Reserve(tr, -2, -0x1111_1111);
    var byte := PInt(8, Any);
    assert RecogniseMany(byte, None, b, 8, open, map[], false) == (Peg(false, 8, open), 0);
    assert RecogniseMany(byte, None, b, 0, open, map[], true) == (Peg(false, 8, open), 1);
    assert Fill(tr, open, 1, |open|) == tr + [Filled(1), Filled(|tr| + 2)];
  }

  /** A choice: the tag of the alternative taken, counted from 0, and the slot its trace starts at. */
  lemma TraceOfChoice(b: seq<bool>, tr: Slots)
    requires |b| == 8 && Number(b[0..8]) != 7
    ensures var p := PChoice(ACons(PInt(8, Single(IntValue(7))), ACons(PInt(8, Any), ANil)));
            WellFormed(p) && NoSelect(p)
            && Recognise(p, b, 0, tr, map[]) == Peg(true, 8, tr + [Filled(1), Filled(|tr| + 2)])
  {
    var open := Reserve(tr, -1, -0x1111_1112);
    var seven, byte := PInt(8, Single(IntValue(7))), PInt(8, Any);
    var second := ACons(byte, ANil);
    assert AltsWellFormed(second) && NoSelectAlts(second) && AltsWellFormed(ACons(seven, second));
    assert Recognise(seven, b, 0, open, map[]) == Peg(false, 0, open);
    assert RecogniseAlts(second, 1, b, 0, open, map[]) == (Peg(true, 8, open), 1, |open|);
    assert RecogniseAlts(ACons(seven, second), 0, b, 0, open, map[]) == (Peg(true, 8, open), 1, |open|);
    assert Fill(tr, open, 1, |open|) == tr + [Filled(1), Filled(|tr| + 2)];
  }

  /** A constant: the bit behind it. */
  lemma TraceOfConst(b: seq<bool>, tr: Slots)
    requires |b| == 8 && Number(b[0..8]) == 7
    ensures ConstWellFormed(CInt(8, 7)) && PegConst(CInt(8, 7), b, 0, tr) == Peg(true, 8, tr + [Filled(8)])
  {
  }
}
