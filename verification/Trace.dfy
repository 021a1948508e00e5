/** The trace buffer of the two-pass parser: an array of slots filled in place, with slots that
    are reserved first and filled once it is known where they lead. */
module Trace {
  /** A slot of the trace: reserved, holding a marker that is only there for debugging, or
      written with its final meaning. */
  datatype Slot = Hole(marker: int) | Filled(n: int)
  type Slots = seq<Slot>

  /** Two slots holding debugging markers; a choice, an array or an n_of begins with them. */
  function Reserve(tr: Slots, marker0: int, marker1: int): (r: Slots)
    ensures tr <= r && |r| == |tr| + 2
  {
    tr + [Hole(marker0), Hole(marker1)]
  }

  /** Fills the two slots reserved after `base`: with the tag and the start of the alternative
      taken, or with the count and the position after the last element. */
  function Fill(base: Slots, tr: Slots, x: int, y: int): (r: Slots)
    requires |base| + 2 <= |tr| && base <= tr
    ensures |r| == |tr| && base <= r
  {
    tr[|base| := Filled(x)][|base| + 1 := Filled(y)]
  }

  function FillOne(base: Slots, tr: Slots, x: int): (r: Slots)
    requires |base| + 1 <= |tr| && base <= tr
    ensures |r| == |tr| && base <= r
  {
    tr[|base| := Filled(x)]
  }

  class NailTrace {
    var trace: array<Slot>
    var capacity: nat
    var iter: nat
    const grow: nat

    ghost predicate Valid()
      reads this
    {
      iter <= capacity <= trace.Length && grow >= 16
    }

    ghost function Contents(): (c: Slots)
      requires Valid()
      reads this, trace
      ensures |c| == iter
    {
      trace[..iter]
    }

    /** A capacity is one less than what was allocated, until the buffer has grown. */
    constructor (size: nat, growth: nat)
      requires size > 1
      ensures Valid() && fresh(trace) && Contents() == []
    {
      trace := new Slot[size](_ => Hole(0));
      capacity := size - 1;
      iter := 0;
      grow := if growth < 16 then 16 else growth;
    }

    /** Makes room for `space` more slots; what is in the trace stays. */
    method Grow(space: nat)
      requires Valid() && space <= 16
      modifies this
      ensures Valid() && (trace == old(trace) || fresh(trace))
      ensures iter == old(iter) && Contents() == old(Contents()) && iter + space <= capacity
    {
      if capacity - space < iter {
        var bigger := new Slot[capacity + grow](_ => Hole(0));
        forall i | 0 <= i < capacity {
          bigger[i] := trace[i];
        }
        trace := bigger;
        capacity := capacity + grow;
      }
    }

    method Push(slot: Slot)
      requires Valid() && iter < capacity
      modifies this`iter, trace
      ensures Valid() && Contents() == old(Contents()) + [slot]
    {
      trace[iter] := slot;
      iter := iter + 1;
    }

    method Set(where: nat, slot: Slot)
      requires Valid() && where < iter
      modifies trace
      ensures Valid() && Contents() == old(Contents())[where := slot]
    {
      trace[where] := slot;
    }

    method GetPos() returns (p: nat)
      ensures p == iter
    {
      p := iter;
    }

    /** Cuts the trace back. The C function asserts that the position is below the capacity: the
        result says whether that assertion holds. */
    method SetPos(offset: nat) returns (asserted: bool)
      requires Valid() && offset <= iter
      modifies this`iter
      ensures Valid() && Contents() == old(Contents())[..offset]
      ensures asserted == (offset < capacity)
    {
      asserted := offset < capacity;
      iter := offset;
    }

    method Const(at: nat)
      requires Valid()
      modifies this, trace
      ensures Valid() && (trace == old(trace) || fresh(trace))
      ensures Contents() == old(Contents()) + [Filled(at)]
    {
      Grow(1);
      Push(Filled(at));
    }

    method MemoOptional() returns (where: nat)
      requires Valid()
      modifies this, trace
      ensures Valid() && (trace == old(trace) || fresh(trace)) && where == old(iter)
      ensures Contents() == old(Contents()) + [Hole(-3)]
    {
      Grow(1);
      Push(Hole(-3));
      where := iter - 1;
    }

    method OptionalSucceed(where: nat)
      requires Valid() && where < iter
      modifies trace
      ensures Valid() && Contents() == old(Contents())[where := Filled(-1)]
    {
      Set(where, Filled(-1));
    }

    method OptionalFail(where: nat)
      requires Valid() && where < iter
      modifies trace
      ensures Valid() && Contents() == old(Contents())[where := Filled(iter)]
    {
      Set(where, Filled(iter));
    }

    method Reserve2(marker0: int, marker1: int) returns (where: nat)
      requires Valid()
      modifies this, trace
      ensures Valid() && (trace == old(trace) || fresh(trace)) && where == old(iter)
      ensures Contents() == Reserve(old(Contents()), marker0, marker1)
    {
      Grow(2);
      Push(Hole(marker0));
      Push(Hole(marker1));
      where := iter - 2;
    }

    method MemoMany() returns (where: nat)
      requires Valid()
      modifies this, trace
      ensures Valid() && (trace == old(trace) || fresh(trace)) && where == old(iter)
      ensures Contents() == Reserve(old(Contents()), -2, -0x1111_1111)
    {
      where := Reserve2(-2, -0x1111_1111);
    }

    method WriteMany(where: nat, count: nat)
      requires Valid() && where + 2 <= iter
      modifies trace
      ensures Valid() && Contents() == Fill(old(Contents())[..where], old(Contents()), count, iter)
    {
      Set(where, Filled(count));
      Set(where + 1, Filled(iter));
    }

    method BeginChoice() returns (where: nat)
      requires Valid()
      modifies this, trace
      ensures Valid() && (trace == old(trace) || fresh(trace)) && where == old(iter)
      ensures Contents() == Reserve(old(Contents()), -1, -0x1111_1112)
    {
      where := Reserve2(-1, -0x1111_1112);
    }

    method PickChoice(where: nat, which: nat, start: nat)
      requires Valid() && where + 2 <= iter
      modifies trace
      ensures Valid() && Contents() == Fill(old(Contents())[..where], old(Contents()), which, start)
    {
      Set(where, Filled(which));
      Set(where + 1, Filled(start));
    }
  }
}
