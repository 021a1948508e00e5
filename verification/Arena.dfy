/** The arena the parsers allocate their results from, with save and restore for backtracking.
    An address is a pool and an offset in it; every pool begins with its own record. */
module Arena {

  /** sizeof(NailArenaPool): three pointers. */
  const HEADER: nat := 24
  /** 2 * sizeof(NailArena). */
  const SMALLEST: nat := 48

  datatype Pool = Pool(size: nat, iter: nat)
  datatype Block = Block(pool: nat, start: nat, size: nat)
  datatype Pos = Pos(pool: nat, iter: nat)

  /** The pools that were ever allocated, the one in use, and the size of an ordinary pool. */
  datatype State = State(pools: seq<Pool>, current: nat, blocksize: nat)

  predicate WellFormed(a: State) {
    a.current < |a.pools|
  }

  function Init(blocksize: nat): State {
    var size := if blocksize < SMALLEST then SMALLEST else blocksize;
    State([Pool(size, HEADER)], 0, size)
  }

  /** The state in which a request is served: a new pool unless the current one has more than
      `size` bytes left. */
  function MakeRoom(a: State, size: nat): (r: State)
    requires WellFormed(a)
    ensures WellFormed(r)
  {
    var pool := a.pools[a.current];
    if pool.size - pool.iter <= size then
      var siz := if size > a.blocksize then size + HEADER else a.blocksize;
      State(a.pools + [Pool(siz, HEADER)], |a.pools|, a.blocksize)
    else a
  }

  function Malloc(a: State, size: nat): (r: (State, Block))
    requires WellFormed(a)
    ensures WellFormed(r.0)
  {
    var m := MakeRoom(a, size);
    var pool := m.pools[m.current];
    (m.(pools := m.pools[m.current := pool.(iter := pool.iter + size)]), Block(m.current, pool.iter, size))
  }

  function Save(a: State): Pos
    requires WellFormed(a)
  {
    Pos(a.current, a.pools[a.current].iter)
  }

  function Restore(a: State, p: Pos): (r: State)
    requires p.pool < |a.pools|
    ensures WellFormed(r)
  {
    State(a.pools[p.pool := a.pools[p.pool].(iter := p.iter)], p.pool, a.blocksize)
  }

  /** The arena after serving requests of these sizes. */
  function MallocAll(a: State, sizes: seq<nat>): (r: State)
    requires WellFormed(a)
    ensures WellFormed(r)
    decreases |sizes|
  {
    if sizes == [] then a else MallocAll(Malloc(a, sizes[0]).0, sizes[1..])
  }

  /** Both states serve from the same pool filled to the same place, and the pools of the first are all
      there, filled as in the first. */
  predicate SameRoom(a: State, r: State) {
    && a.current == r.current && a.blocksize == r.blocksize
    && |a.pools| <= |r.pools| && forall k | 0 <= k < |a.pools| :: r.pools[k] == a.pools[k]
  }

  /** Pools other than the current one are not touched, and the current one only grows. */
  predicate Served(a: State, r: State)
    requires WellFormed(a)
  {
    && WellFormed(r) && |a.pools| <= |r.pools| && a.blocksize == r.blocksize
    && (forall k | 0 <= k < |a.pools| && k != a.current :: r.pools[k] == a.pools[k])
    && r.pools[a.current].size == a.pools[a.current].size
    && (r.current == a.current || r.current >= |a.pools|)
  }

  lemma {:induction false} AllServed(a: State, sizes: seq<nat>)
    requires WellFormed(a)
    ensures Served(a, MallocAll(a, sizes))
    decreases |sizes|
  {
    if sizes != [] {
      AllServed(Malloc(a, sizes[0]).0, sizes[1..]);
    }
  }

  /** Restoring undoes any number of requests: the room they took is given back. */
  lemma RestoreUndoes(a: State, sizes: seq<nat>)
    requires WellFormed(a)
    ensures Save(a).pool < |MallocAll(a, sizes).pools| && SameRoom(a, Restore(MallocAll(a, sizes), Save(a)))
  {
    AllServed(a, sizes);
  }

  /** So a request that fits where the arena was saved is served the same block again. */
  lemma ServedAgain(a: State, sizes: seq<nat>, size: nat)
    requires WellFormed(a) && a.pools[a.current].size - a.pools[a.current].iter > size
    ensures Save(a).pool < |MallocAll(a, sizes).pools|
    ensures Malloc(Restore(MallocAll(a, sizes), Save(a)), size).1 == Malloc(a, size).1
  {
    RestoreUndoes(a, sizes);
  }

  // Which requests are served inside a pool.

  predicate Within(a: State, b: Block) {
    b.pool < |a.pools| && HEADER <= b.start && b.start + b.size <= a.pools[b.pool].size
  }

  predicate PoolsConsistent(a: State) {
    && WellFormed(a) && a.blocksize >= SMALLEST
    && forall p | p in a.pools :: HEADER <= p.iter <= p.size
  }

  /** The current pool has more room than the request needs, or the request fits an ordinary pool
      beside the header, or it is larger than one. */
  predicate Servable(a: State, size: nat) {
    && WellFormed(a)
    && (a.pools[a.current].size - a.pools[a.current].iter > size || size + HEADER <= a.blocksize || size > a.blocksize)
  }

  /** A request is served inside its pool exactly in these cases. */
  lemma ServedInside(a: State, size: nat)
    requires PoolsConsistent(a)
    ensures var (r, b) := Malloc(a, size); Within(r, b) <==> Servable(a, size)
  {
    var m := MakeRoom(a, size);
    assert a.pools[a.current] in a.pools;
  }

  /** In a new arena of the smallest size, a request for 30 bytes gets a pool of 48, and ends 6 bytes
      behind it. */
  lemma LeavesItsPool()
    ensures var (a, b) := Malloc(Init(0), 30);
            && b == Block(1, HEADER, 30) && a.pools[b.pool].size == SMALLEST && b.start + b.size == SMALLEST + 6
            && !Within(a, b)
  {
    var m := MakeRoom(Init(0), 30);
    assert m.pools == [Pool(SMALLEST, HEADER), Pool(SMALLEST, HEADER)];
  }

  // Runs that backtrack. The parsers save the arena before an alternative, an element or an
  // optional part, may restore it any number of times, and forget it when they succeed. Marks
  // nest, and restoring one discards the blocks handed out since it was taken.

  datatype Mark = Mark(at: Pos, live: nat)
  datatype Op = OMalloc(size: nat) | OSave | ORestore(depth: nat) | OForget

  datatype Run = Run(arena: State, live: seq<Block>, marks: seq<Mark>)

  /** What the emitted code may do next; a request must be served inside a pool. */
  predicate Enabled(r: Run, op: Op) {
    match op
    case OMalloc(size) => Servable(r.arena, size)
    case OSave => true
    case ORestore(d) => d < |r.marks|
    case OForget => r.marks != []
  }

  function Next(r: Run, op: Op): Run
    requires Inv(r) && Enabled(r, op)
  {
    match op
    case OMalloc(size) =>
      var (a, b) := Malloc(r.arena, size);
      Run(a, r.live + [b], r.marks)
    case OSave => r.(marks := r.marks + [Mark(Save(r.arena), |r.live|)])
    case ORestore(d) =>
      var m := r.marks[d];
      assert m in r.marks;
      Run(Restore(r.arena, m.at), r.live[..m.live], r.marks[..d + 1])
    case OForget => r.(marks := r.marks[..|r.marks| - 1])
  }

  predicate Disjoint(x: Block, y: Block) {
    x.pool != y.pool || x.start + x.size <= y.start || y.start + y.size <= x.start
  }

  /** Every live block in the pool `at.pool` lies below `at.iter`. */
  predicate Below(live: seq<Block>, at: Pos) {
    forall b | b in live && b.pool == at.pool :: b.start + b.size <= at.iter
  }

  predicate MarkValid(a: State, live: seq<Block>, m: Mark) {
    && m.live <= |live| && m.at.pool < |a.pools|
    && HEADER <= m.at.iter <= a.pools[m.at.pool].size
    && Below(live[..m.live], m.at)
  }

  predicate Inv(r: Run) {
    && PoolsConsistent(r.arena)
    && (forall b | b in r.live :: Within(r.arena, b))
    && (forall i, j | 0 <= i < j < |r.live| :: Disjoint(r.live[i], r.live[j]))
    && Below(r.live, Save(r.arena))
    && (forall m | m in r.marks :: MarkValid(r.arena, r.live, m))
    && (forall i, j | 0 <= i < j < |r.marks| :: r.marks[i].live <= r.marks[j].live)
  }

  function Start(blocksize: nat): (r: Run)
    ensures Inv(r)
  {
    Run(Init(blocksize), [], [])
  }

  lemma MallocKeeps(r: Run, size: nat)
    requires Inv(r) && Enabled(r, OMalloc(size))
    ensures Inv(Next(r, OMalloc(size)))
  {
    var a := r.arena;
    var m := MakeRoom(a, size);
    var (s, b) := Malloc(a, size);
    var q := Next(r, OMalloc(size));
    assert a.pools[a.current] in a.pools;
    forall x | x in r.live ensures Disjoint(x, b) && Within(s, x) {
      assert Within(a, x);
    }
    assert Within(s, b);
    forall p | p in s.pools ensures HEADER <= p.iter <= p.size {
      var k :| 0 <= k < |s.pools| && s.pools[k] == p;
      if k < |a.pools| { assert a.pools[k] in a.pools; }
    }
    forall k | k in r.marks ensures MarkValid(s, q.live, k) {
      assert q.live[..k.live] == r.live[..k.live];
      assert a.pools[k.at.pool].size == s.pools[k.at.pool].size;
    }
  }

  lemma NewBlockApart(r: Run, size: nat)
    requires Inv(r) && Enabled(r, OMalloc(size))
    ensures var (a, b) := Malloc(r.arena, size);
            Within(a, b) && forall x | x in r.live :: Disjoint(x, b)
  {
    MallocKeeps(r, size);
    var q, b := Next(r, OMalloc(size)), Malloc(r.arena, size).1;
    assert b in q.live;
    forall x | x in r.live ensures Disjoint(x, b) {
      var k :| 0 <= k < |r.live| && r.live[k] == x;
      assert q.live[k] == x && q.live[|r.live|] == b;
    }
  }

  lemma Consistent(r: Run)
    requires Inv(r)
    ensures PoolsConsistent(r.arena)
  {
  }

  lemma BrokenBy(r: Run, b: Block)
    requires b in r.live && !Within(r.arena, b)
    ensures !Inv(r)
  {
  }

  lemma RestoreKeeps(r: Run, d: nat)
    requires Inv(r) && Enabled(r, ORestore(d))
    ensures Inv(Next(r, ORestore(d)))
  {
    var m, q := r.marks[d], Next(r, ORestore(d));
    assert m in r.marks;
    forall p | p in q.arena.pools ensures HEADER <= p.iter <= p.size {
      var k :| 0 <= k < |q.arena.pools| && q.arena.pools[k] == p;
      assert r.arena.pools[k] in r.arena.pools;
    }
    forall x | x in q.live ensures Within(q.arena, x) {
      assert x in r.live;
    }
    forall i | 0 <= i < |q.marks| ensures MarkValid(q.arena, q.live, q.marks[i]) {
      var k := q.marks[i];
      assert k == r.marks[i] && k in r.marks;
      assert k.live <= m.live;
      assert q.live[..k.live] == r.live[..k.live];
    }
  }

  lemma StepKeeps(r: Run, op: Op)
    requires Inv(r) && Enabled(r, op)
    ensures Inv(Next(r, op))
  {
    match op
    case OMalloc(size) => MallocKeeps(r, size);
    case OSave =>
      var m := Mark(Save(r.arena), |r.live|);
      assert r.live[..m.live] == r.live && r.arena.pools[r.arena.current] in r.arena.pools;
      assert MarkValid(r.arena, r.live, m);
      forall i | 0 <= i < |r.marks| ensures r.marks[i].live <= m.live {
        assert r.marks[i] in r.marks;
      }
    case ORestore(d) => RestoreKeeps(r, d);
    case OForget =>
      var q := Next(r, op);
      assert forall m | m in q.marks :: m in r.marks;
  }

  function Step(r: Run, op: Op): (q: Run)
    requires Inv(r) && Enabled(r, op)
    ensures Inv(q)
  {
    StepKeeps(r, op);
    Next(r, op)
  }

  /** A run is legal when every step is enabled and none restores a mark taken when fewer than
      `floor` blocks were live. */
  predicate Legal(r: Run, ops: seq<Op>, floor: nat)
    requires Inv(r)
    decreases |ops|
  {
    ops == [] ||
    (&& Enabled(r, ops[0])
     && (ops[0].ORestore? ==> floor <= r.marks[ops[0].depth].live)
     && Legal(Step(r, ops[0]), ops[1..], floor))
  }

  function End(r: Run, ops: seq<Op>, floor: nat): (e: Run)
    requires Inv(r) && Legal(r, ops, floor)
    ensures Inv(e)
    decreases |ops|
  {
    if ops == [] then r else End(Step(r, ops[0]), ops[1..], floor)
  }

  /** Every block handed out along the run, also those given up again. */
  function HandedOut(r: Run, ops: seq<Op>, floor: nat): seq<Block>
    requires Inv(r) && Legal(r, ops, floor)
    decreases |ops|
  {
    if ops == [] then []
    else
      (if ops[0].OMalloc? then [Malloc(r.arena, ops[0].size).1] else [])
      + HandedOut(Step(r, ops[0]), ops[1..], floor)
  }

  /** Arena backtracking is safe: the blocks that are live when a mark is taken stay live, and
      no block handed out later, whatever is restored down to that mark, overlaps any of them. */
  lemma {:induction false} KeptBlocksAreNeverOverwritten(r: Run, ops: seq<Op>, floor: nat)
    requires Inv(r) && floor <= |r.live| && Legal(r, ops, floor)
    ensures floor <= |End(r, ops, floor).live| && End(r, ops, floor).live[..floor] == r.live[..floor]
    ensures forall x, y | x in r.live[..floor] && y in HandedOut(r, ops, floor) :: Disjoint(x, y)
    decreases |ops|
  {
    if ops != [] {
      var q := Step(r, ops[0]);
      KeptByStep(r, ops[0], floor);
      KeptBlocksAreNeverOverwritten(q, ops[1..], floor);
    }
  }

  lemma KeptByStep(r: Run, op: Op, floor: nat)
    requires Inv(r) && Enabled(r, op) && floor <= |r.live|
    requires op.ORestore? ==> floor <= r.marks[op.depth].live
    ensures floor <= |Step(r, op).live| && Step(r, op).live[..floor] == r.live[..floor]
    ensures op.OMalloc? ==> forall x | x in r.live[..floor] :: Disjoint(x, Malloc(r.arena, op.size).1)
  {
    var q := Step(r, op);
    if op.ORestore? { assert r.marks[op.depth] in r.marks; }
    if op.OMalloc? {
      var b := Malloc(r.arena, op.size).1;
      forall x | x in r.live[..floor] ensures Disjoint(x, b) {
        var k :| 0 <= k < floor && r.live[k] == x;
        assert q.live[k] == x && q.live[|r.live|] == b;
      }
    }
  }

  /** From an empty arena, at the end of any legal run all live blocks lie in their pools and
      are pairwise disjoint. */
  lemma LiveBlocksAreApart(blocksize: nat, ops: seq<Op>)
    requires Legal(Start(blocksize), ops, 0)
    ensures var e := End(Start(blocksize), ops, 0);
            && (forall b | b in e.live :: Within(e.arena, b))
            && (forall i, j | 0 <= i < j < |e.live| :: Disjoint(e.live[i], e.live[j]))
  {
  }

  /** The arena of the C code. What it promises its callers is about the blocks they hold: `live`
      are the blocks handed out and not given up, `marks` the saves that can still be restored. */
  class NailArena {
    var pools: seq<Pool>
    var current: nat
    const blocksize: nat
    ghost var live: seq<Block>
    ghost var marks: seq<Mark>

    ghost function AsRun(): Run
      reads this
    {
      Run(State(pools, current, blocksize), live, marks)
    }

    ghost predicate Valid()
      reads this
    {
      Inv(AsRun())
    }

    constructor (size: nat)
      ensures Valid() && live == [] && marks == [] && blocksize >= size && blocksize >= SMALLEST
    {
      var siz := if size < SMALLEST then SMALLEST else size;
      blocksize := siz;
      pools := [Pool(siz, HEADER)];
      current := 0;
      live, marks := [], [];
    }

    /** A new block of the size asked for. Where the request is served inside a pool, the block is
        apart from every live one; where it is not, the arena is broken. */
    method NMalloc(size: nat) returns (b: Block)
      requires Valid()
      modifies this
      ensures (AsRun().arena, b) == Malloc(old(AsRun().arena), size) && b.size == size
      ensures live == old(live) + [b] && marks == old(marks)
      ensures Valid() <==> Servable(old(AsRun().arena), size)
      ensures Valid() ==> Within(AsRun().arena, b) && forall x | x in old(live) :: Disjoint(x, b)
    {
      ghost var run := AsRun();
      Consistent(run);
      hide Inv, Disjoint, Within, Servable;
      ServedInside(run.arena, size);
      if Servable(run.arena, size) {
        MallocKeeps(run, size);
        NewBlockApart(run, size);
      }
      Room(size);
      b := Block(current, pools[current].iter, size);
      pools := pools[current := pools[current].(iter := pools[current].iter + size)];
      live := live + [b];
      if !Servable(run.arena, size) { BrokenBy(AsRun(), b); }
    }

    /** A new pool unless the current one has room. */
    method Room(size: nat)
      requires WellFormed(AsRun().arena)
      modifies this`pools, this`current
      ensures AsRun().arena == MakeRoom(old(AsRun().arena), size)
    {
      if pools[current].size - pools[current].iter <= size {
        var siz := blocksize;
        if size > siz {
          siz := size + HEADER;
        }
        pools := pools + [Pool(siz, HEADER)];
        current := |pools| - 1;
      }
    }

    /** A mark of the blocks that are live now. */
    method NSave() returns (p: Pos)
      requires Valid()
      modifies this`marks
      ensures Valid() && live == old(live) && marks == old(marks) + [Mark(p, |live|)]
    {
      StepKeeps(AsRun(), OSave);
      p := Pos(current, pools[current].iter);
      marks := marks + [Mark(p, |live|)];
    }

    /** Gives up the blocks handed out since the mark, and the marks taken since. */
    method NRestore(p: Pos, ghost d: nat)
      requires Valid() && d < |marks| && marks[d].at == p
      modifies this
      ensures Valid() && marks == old(marks)[..d + 1]
      ensures marks[d].live <= |old(live)| && live == old(live)[..marks[d].live]
    {
      assert marks[d] in marks;
      RestoreKeeps(AsRun(), d);
      live := live[..marks[d].live];
      marks := marks[..d + 1];
      current := p.pool;
      pools := pools[current := pools[current].(iter := p.iter)];
    }
  }
}
