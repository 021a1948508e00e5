/** Decompressing a DNS name (section 4.1.4 of RFC 1035) in two passes: the first follows the
    labels and pointers to find out how large the name is, the second follows them again and
    copies. */
module DnsName {
  import opened Bits
  import opened Grammar

  /** The offset both loops compute. In C, & binds tighter than | and << tighter than &, so the
      high byte is masked with 63 << 8. */
  function PointerOffset(high: byte, low: byte): nat {
    Or(And(high, Shl(63, 8)), low)
  }

  /** The offset of section 4.1.4 of RFC 1035: the fourteen low bits of the two bytes. */
  function RfcOffset(high: byte, low: byte): nat {
    high % 64 * 256 + low
  }

  lemma {:induction false} AndLowHigh(x: nat, y: nat, k: nat)
    requires x < Pow2(k)
    ensures And(x, y * Pow2(k)) == 0
  {
    if k > 0 && x != 0 && y * Pow2(k) != 0 {
      Doubling(y, Pow2(k - 1));
      AndLowHigh(x / 2, y, k - 1);
      HalfOfAnd(x, 2 * (y * Pow2(k - 1)));
    }
  }

  /** Only the low byte counts. */
  lemma OffsetIsLowByte(high: byte, low: byte)
    ensures PointerOffset(high, low) == low
  {
    assert Pow2(8) == 256;
    ShlFits(63, 8, 6);
    AndLowHigh(high, 63, 8);
    OrZero(low);
  }

  /** A pointer is followed to where the standard says exactly when its offset is below 256. */
  lemma OffsetMeetsStandard(high: byte, low: byte)
    requires high >= 192
    ensures RfcOffset(high, low) == 256 * high + low - 0xc000
    ensures PointerOffset(high, low) == RfcOffset(high, low) <==> high == 192
  {
    OffsetIsLowByte(high, low);
    hide PointerOffset;
  }

  // The name at a position, by a simple recursive decoder. Everything about the two passes holds
  // for any decoding of pointers that both loops share, `PointerOffset` or `RfcOffset`.

  type Offset = (byte, byte) -> nat

  /** How following a name ends: off the end of the message, or at a zero byte with the bytes of
      its labels, the number of pointers followed, and the position after the first pointer or,
      without one, after the zero. */
  datatype Walk = OffEnd | Ended(name: seq<byte>, pointers: nat, after: nat)

  function Follow(off: Offset, data: seq<byte>, pos: nat, fuel: nat): (w: Option<Walk>)
    ensures w.Some? && w.value.Ended? ==> w.value.after <= |data|
    decreases fuel
  {
    if fuel == 0 then None
    else if pos >= |data| then Some(OffEnd)
    else
      var b := data[pos];
      if b == 0 then Some(Ended([0], 0, pos + 1))
      else if b >= 192 then
        if pos + 1 >= |data| then Some(OffEnd) else
        match Follow(off, data, off(b, data[pos + 1]), fuel - 1)
        case Some(Ended(name, k, _)) => Some(Ended(name, k + 1, pos + 2))
        case other => other
      else
        match Follow(off, data, pos + 1 + b, fuel - 1)
        case Some(Ended(name, k, after)) => Some(Ended(Label(data, pos) + name, k, after))
        case other => other
  }

  /** The length byte and the bytes of the label, as far as there are any. */
  function Label(data: seq<byte>, pos: nat): seq<byte>
    requires pos < |data|
  {
    if pos + 1 + data[pos] <= |data| then data[pos..pos + 1 + data[pos]] else data[pos..]
  }

  /** Where the walk goes next, if it goes on. */
  function Successor(off: Offset, data: seq<byte>, pos: nat): nat
    requires pos < |data| && data[pos] != 0 && (data[pos] >= 192 ==> pos + 1 < |data|)
  {
    if data[pos] >= 192 then off(data[pos], data[pos + 1]) else pos + 1 + data[pos]
  }

  predicate Final(data: seq<byte>, pos: nat) {
    pos >= |data| || data[pos] == 0 || (data[pos] >= 192 && pos + 1 >= |data|)
  }

  lemma {:induction false} FollowMore(off: Offset, data: seq<byte>, pos: nat, fuel: nat, more: nat)
    requires fuel <= more && Follow(off, data, pos, fuel).Some?
    ensures Follow(off, data, pos, more) == Follow(off, data, pos, fuel)
    decreases fuel
  {
    if !Final(data, pos) {
      FollowMore(off, data, Successor(off, data, pos), fuel - 1, more - 1);
    }
  }

  // Termination. The loops of the C code end exactly when the walk does, and a walk that ends
  // does so before it has visited more positions than there are bytes.

  ghost predicate Ends(off: Offset, data: seq<byte>, pos: nat) {
    exists fuel: nat :: Follow(off, data, pos, fuel).Some?
  }

  /** The walk ends with `fuel` rounds and not with fewer. */
  predicate Exactly(off: Offset, data: seq<byte>, pos: nat, fuel: nat) {
    fuel > 0 && Follow(off, data, pos, fuel).Some? && Follow(off, data, pos, fuel - 1).None?
  }

  lemma {:induction false} Least(off: Offset, data: seq<byte>, pos: nat, fuel: nat) returns (m: nat)
    requires Follow(off, data, pos, fuel).Some?
    ensures m <= fuel && Exactly(off, data, pos, m)
  {
    if Follow(off, data, pos, fuel - 1).Some? {
      m := Least(off, data, pos, fuel - 1);
    } else {
      m := fuel;
    }
  }

  lemma ExactlyOne(off: Offset, data: seq<byte>, pos: nat, m: nat, n: nat)
    requires Exactly(off, data, pos, m) && Exactly(off, data, pos, n)
    ensures m == n
  {
    if m < n {
      FollowMore(off, data, pos, m, n - 1);
    } else if n < m {
      FollowMore(off, data, pos, n, m - 1);
    }
  }

  /** The positions of a walk that ends are distinct: each is a different number of rounds from
      the end. */
  lemma {:induction false} Visited(off: Offset, data: seq<byte>, pos: nat, m: nat) returns (s: set<nat>)
    requires Exactly(off, data, pos, m)
    ensures |s| == m - 1 && forall q | q in s :: q < |data| && exists n: nat :: n <= m && Exactly(off, data, q, n)
    decreases m
  {
    if m == 1 || Final(data, pos) {
      assert Follow(off, data, pos, 1).Some?;
      ExactlyOne(off, data, pos, m, 1);
      s := {};
    } else {
      var next := Successor(off, data, pos);
      var t := Visited(off, data, next, m - 1);
      if pos in t {
        var n: nat :| n <= m - 1 && Exactly(off, data, pos, n);
        ExactlyOne(off, data, pos, m, n);
        assert false;
      }
      s := t + {pos};
    }
  }

  lemma {:induction false} BelowBound(s: set<nat>, n: nat)
    requires forall q | q in s :: q < n
    ensures |s| <= n
  {
    if n == 0 {
      assert s == {};
    } else {
      BelowBound(s - {n - 1}, n - 1);
    }
  }

  /** Whether the loops end at all can be told after as many rounds as there are bytes. */
  lemma EndsSoon(off: Offset, data: seq<byte>, pos: nat)
    ensures Ends(off, data, pos) <==> Follow(off, data, pos, |data| + 1).Some?
  {
    if Ends(off, data, pos) {
      var fuel: nat :| Follow(off, data, pos, fuel).Some?;
      var m := Least(off, data, pos, fuel);
      var s := Visited(off, data, pos, m);
      BelowBound(s, |data|);
      FollowMore(off, data, pos, m, |data| + 1);
    }
  }

  // Where the code and the standard part. The walk is the code's own; the rest of the message does
  // not matter.

  /** Every pointer met within `fuel` rounds of the walk has an offset below 256. */
  predicate Near(data: seq<byte>, pos: nat, fuel: nat)
    decreases fuel
  {
    fuel > 0 && !Final(data, pos) ==>
      && (data[pos] >= 192 ==> data[pos] == 192)
      && Near(data, Successor(PointerOffset, data, pos), fuel - 1)
  }

  /** The positions visited, at the start and after each of at most `fuel` rounds. */
  function Positions(off: Offset, data: seq<byte>, pos: nat, fuel: nat): seq<nat>
    decreases fuel
  {
    [pos] + if fuel == 0 || Final(data, pos) then [] else Positions(off, data, Successor(off, data, pos), fuel - 1)
  }

  /** One round stays on the path of the standard exactly if it does not follow a far pointer. */
  lemma SameSuccessor(data: seq<byte>, pos: nat)
    requires !Final(data, pos)
    ensures Successor(PointerOffset, data, pos) == Successor(RfcOffset, data, pos)
       <==> (data[pos] >= 192 ==> data[pos] == 192)
  {
    if data[pos] >= 192 { OffsetMeetsStandard(data[pos], data[pos + 1]); }
    hide PointerOffset, RfcOffset;
  }

  /** The code and the standard visit the same positions exactly when every pointer the code meets
      is near. */
  lemma {:induction false} SamePositionsWhen(data: seq<byte>, pos: nat, fuel: nat)
    ensures Positions(PointerOffset, data, pos, fuel) == Positions(RfcOffset, data, pos, fuel)
       <==> Near(data, pos, fuel)
    decreases fuel
  {
    hide PointerOffset, RfcOffset, Successor;
    if fuel > 0 && !Final(data, pos) {
      var next, meant := Successor(PointerOffset, data, pos), Successor(RfcOffset, data, pos);
      SameSuccessor(data, pos);
      SamePositionsWhen(data, next, fuel - 1);
      FirstPosition(PointerOffset, data, next, fuel - 1);
      FirstPosition(RfcOffset, data, meant, fuel - 1);
      SameTail(pos, Positions(PointerOffset, data, next, fuel - 1), Positions(RfcOffset, data, meant, fuel - 1));
    }
  }

  lemma FirstPosition(off: Offset, data: seq<byte>, pos: nat, fuel: nat)
    ensures Positions(off, data, pos, fuel) != [] && Positions(off, data, pos, fuel)[0] == pos
  {
  }

  lemma SameTail(pos: nat, s: seq<nat>, t: seq<nat>)
    ensures [pos] + s == [pos] + t <==> s == t
  {
    assert ([pos] + s)[1..] == s && ([pos] + t)[1..] == t;
  }

  /** A name all of whose pointers are near is decoded by the code as by the standard, whatever
      stands elsewhere in the message. */
  lemma {:induction false} NearDecodesAlike(data: seq<byte>, pos: nat, fuel: nat)
    requires Near(data, pos, fuel)
    ensures Follow(PointerOffset, data, pos, fuel) == Follow(RfcOffset, data, pos, fuel)
    decreases fuel
  {
    hide PointerOffset, RfcOffset;
    if fuel > 0 && !Final(data, pos) {
      SameSuccessor(data, pos);
      NearDecodesAlike(data, Successor(PointerOffset, data, pos), fuel - 1);
      SameStep(PointerOffset, RfcOffset, data, pos, fuel);
    }
  }

  const FAR: seq<byte> := [0, 193, 0]

  lemma FollowFar(off: Offset, fuel: nat)
    requires fuel >= 2 && (off(193, 0) == 0 || off(193, 0) >= 3)
    ensures Follow(off, FAR, 1, fuel) == Some(if off(193, 0) == 0 then Ended([0], 1, 3) else OffEnd)
  {
    assert FAR[1] == 193 && FAR[2] == 0 && FAR[0] == 0;
    var next := off(193, 0);
    assert Follow(off, FAR, next, fuel - 1) == Some(if next == 0 then Ended([0], 0, 1) else OffEnd);
  }

  /** A far pointer: from the bytes 193 0 the standard goes to position 256, which is outside this
      message, and the code to the empty name at position 0. */
  lemma FarPointerDiffers(fuel: nat)
    requires fuel >= 2
    ensures Follow(PointerOffset, FAR, 1, fuel) == Some(Ended([0], 1, 3))
    ensures Follow(RfcOffset, FAR, 1, fuel) == Some(OffEnd)
    ensures !Near(FAR, 1, fuel)
  {
    OffsetIsLowByte(193, 0);
    hide PointerOffset, Follow;
    FollowFar(PointerOffset, fuel);
    FollowFar(RfcOffset, fuel);
  }

  lemma SameStep(off: Offset, other: Offset, data: seq<byte>, pos: nat, fuel: nat)
    requires fuel > 0 && !Final(data, pos) && Successor(off, data, pos) == Successor(other, data, pos)
    requires var next := Successor(off, data, pos);
             Follow(off, data, next, fuel - 1) == Follow(other, data, next, fuel - 1)
    ensures Follow(off, data, pos, fuel) == Follow(other, data, pos, fuel)
  {
  }

  /** A name that points to itself never ends. */
  lemma {:induction false} SelfPointerNeverEnds(fuel: nat)
    ensures Follow(PointerOffset, [192, 0], 0, fuel).None?
  {
    if fuel > 0 {
      OffsetIsLowByte(192, 0);
      SelfPointerNeverEnds(fuel - 1);
    }
  }

  /** The answer of the decoder for a name that ends. */
  function Decoded(off: Offset, data: seq<byte>, pos: nat): Walk
    requires Ends(off, data, pos)
  {
    EndsSoon(off, data, pos);
    Follow(off, data, pos, |data| + 1).value
  }

  /** What is still ahead of a loop that stands at `pos`. */
  lemma Ahead(off: Offset, data: seq<byte>, pos: nat)
    requires Ends(off, data, pos)
    ensures !Final(data, pos) ==>
              && Ends(off, data, Successor(off, data, pos))
              && Decoded(off, data, pos) == match Decoded(off, data, Successor(off, data, pos))
                                       case OffEnd => OffEnd
                                       case Ended(name, k, after) =>
                                         if data[pos] >= 192 then Ended(name, k + 1, pos + 2)
                                         else Ended(Label(data, pos) + name, k, after)
    ensures Final(data, pos) ==>
              Decoded(off, data, pos) == if pos < |data| && data[pos] == 0 then Ended([0], 0, pos + 1) else OffEnd
    ensures Rounds(off, data, pos) > 0
    ensures !Final(data, pos) ==> Rounds(off, data, Successor(off, data, pos)) < Rounds(off, data, pos)
  {
    EndsSoon(off, data, pos);
    if !Final(data, pos) {
      var next := Successor(off, data, pos);
      assert Follow(off, data, next, |data|).Some?;
      EndsSoon(off, data, next);
      FollowMore(off, data, next, |data|, |data| + 1);
      OneRoundLess(off, data, pos);
    }
  }

  lemma OneRoundLess(off: Offset, data: seq<byte>, pos: nat)
    requires !Final(data, pos) && Ends(off, data, pos) && Ends(off, data, Successor(off, data, pos))
    ensures Rounds(off, data, Successor(off, data, pos)) < Rounds(off, data, pos)
  {
    var next, m := Successor(off, data, pos), Rounds(off, data, pos);
    assert Follow(off, data, next, m - 1).Some?;
    hide Follow, Ends;
    var k := Least(off, data, next, m - 1);
    ExactlyOne(off, data, next, k, Rounds(off, data, next));
  }

  /** The number of rounds a loop still makes. */
  ghost function Rounds(off: Offset, data: seq<byte>, pos: nat): (m: nat)
    requires Ends(off, data, pos)
    ensures Exactly(off, data, pos, m)
  {
    var fuel: nat :| Follow(off, data, pos, fuel).Some?;
    assert exists m: nat :: Exactly(off, data, pos, m) by {
      var m := Least(off, data, pos, fuel);
    }
    var m: nat :| Exactly(off, data, pos, m);
    m
  }

  // The two passes.

  datatype Sized = Sized(size: nat, after: nat)

  /** The sizing pass: the size of the buffer and where the outer stream continues. It never
      returns on a name that does not end. */
  method SizingPass(off: Offset, data: array<byte>, begin: nat) returns (r: Option<Sized>)
    requires Ends(off, data[..], begin)
    ensures r == match Decoded(off, data[..], begin)
                 case OffEnd => None
                 case Ended(name, k, after) => Some(Sized(|name| + k, after))
  {
    hide Follow, Ends, Decoded;
    ghost var whole := Decoded(off, data[..], begin);
    var pos: nat, size: nat, firstLabel, current: nat := begin, 0, true, 0;
    while true
      invariant Ends(off, data[..], pos)
      invariant SizedSoFar(whole, Decoded(off, data[..], pos), size, firstLabel, current)
      decreases Rounds(off, data[..], pos)
    {
      Ahead(off, data[..], pos);
      if pos >= data.Length { return None; }
      size := size + 1;
      var highbyte: nat := data[pos];
      pos := pos + 1;
      if highbyte == 0 {
        if firstLabel {
          firstLabel := false;
          current := pos;
        }
        break;
      }
      if highbyte >= 192 {
        if pos >= data.Length { return None; }
        if firstLabel {
          firstLabel := false;
          current := pos + 1;
        }
        pos := off(data[pos - 1], data[pos]);
      } else {
        size := size + highbyte;
        pos := pos + highbyte;
        ghost var rest := Decoded(off, data[..], pos);
        if rest.Ended? { NotOffEnd(off, data[..], pos); }
      }
    }
    r := Some(Sized(size, current));
  }

  ghost predicate SizedSoFar(whole: Walk, rest: Walk, size: nat, firstLabel: bool, current: nat) {
    && whole.OffEnd? == rest.OffEnd?
    && (rest.Ended? ==>
          && |whole.name| + whole.pointers == size + |rest.name| + rest.pointers
          && whole.after == if firstLabel then rest.after else current)
  }

  lemma NotOffEnd(off: Offset, data: seq<byte>, pos: nat)
    requires Ends(off, data, pos) && Decoded(off, data, pos).Ended?
    ensures pos < |data|
  {
    EndsSoon(off, data, pos);
  }

  function Zeros(n: nat): (z: seq<byte>)
    ensures |z| == n
  {
    seq(n, _ => 0)
  }

  lemma StillInside(off: Offset, data: seq<byte>, pos: nat)
    requires Ends(off, data, pos) && Decoded(off, data, pos).Ended?
    ensures pos < |data| && (data[pos] >= 192 ==> pos + 1 < |data|)
  {
    Ahead(off, data, pos);
  }

  /** The part of the name that is copied at a label or at the final zero. */
  lemma NextLabel(off: Offset, data: seq<byte>, pos: nat)
    requires Ends(off, data, pos) && Decoded(off, data, pos).Ended? && pos < |data| && data[pos] < 192
    ensures pos + 1 + data[pos] <= |data|
    ensures data[pos] == 0 ==> Decoded(off, data, pos).name == data[pos..pos + 1]
    ensures var next := pos + 1 + data[pos];
            data[pos] != 0 ==>
              (Ends(off, data, next) && Decoded(off, data, next).Ended?
               && Rounds(off, data, next) < Rounds(off, data, pos)
               && Decoded(off, data, pos).name == data[pos..next] + Decoded(off, data, next).name)
  {
    hide Decoded, Ends, Follow;
    Ahead(off, data, pos);
    if data[pos] != 0 { NotOffEnd(off, data, pos + 1 + data[pos]); }
  }

  /** The copying pass, into a zeroed buffer of the size found: it visits the same positions,
      stays inside both buffers and writes the name, which leaves one unwritten byte for every
      pointer followed. */
  method CopyingPass(off: Offset, data: array<byte>, begin: nat, size: nat) returns (out: array<byte>)
    requires Ends(off, data[..], begin) && Decoded(off, data[..], begin).Ended?
    requires size == |Decoded(off, data[..], begin).name| + Decoded(off, data[..], begin).pointers
    ensures fresh(out) && out[..] == Decoded(off, data[..], begin).name + Zeros(Decoded(off, data[..], begin).pointers)
  {
    hide Follow, Ends, Decoded, Copied;
    ghost var name, k := Decoded(off, data[..], begin).name, Decoded(off, data[..], begin).pointers;
    out := new byte[size](_ => 0);
    CopiedNothing(name, out[..0]);
    var pos: nat, written: nat := begin, 0;
    while true
      invariant Ends(off, data[..], pos) && Decoded(off, data[..], pos).Ended?
      invariant written <= |name| && Copied(name, out[..written], Decoded(off, data[..], pos).name)
      invariant forall i | written <= i < size :: out[i] == 0
      decreases Rounds(off, data[..], pos)
    {
      StillInside(off, data[..], pos);
      var highbyte: nat := data[pos];
      if highbyte >= 192 {
        Ahead(off, data[..], pos);
        pos := off(data[pos], data[pos + 1]);
      } else {
        NextLabel(off, data[..], pos);
        ghost var rest := if highbyte == 0 then [] else Decoded(off, data[..], pos + 1 + highbyte).name;
        CopiedMore(name, out[..written], data[pos..pos + 1 + highbyte], rest, Decoded(off, data[..], pos).name);
        CopyBytes(data, pos, out, written, highbyte + 1);
        written := written + highbyte + 1;
        pos := pos + highbyte + 1;
        if highbyte == 0 {
          break;
        }
      }
    }
    CopiedAll(name, out[..written]);
    assert out[..] == out[..written] + out[written..] && out[written..] == Zeros(k);
  }

  /** What has been copied and what is still to come make up the name. */
  ghost predicate Copied(name: seq<byte>, got: seq<byte>, rest: seq<byte>) {
    got + rest == name
  }

  lemma CopiedNothing(name: seq<byte>, got: seq<byte>)
    requires got == []
    ensures Copied(name, got, name)
  {
  }

  lemma CopiedMore(name: seq<byte>, got: seq<byte>, piece: seq<byte>, rest: seq<byte>, ahead: seq<byte>)
    requires Copied(name, got, ahead) && (ahead == piece + rest || (ahead == piece && rest == []))
    ensures Copied(name, got + piece, rest) && |got| + |piece| <= |name|
  {
    assert (got + piece) + rest == got + (piece + rest);
    assert piece + [] == piece;
  }

  lemma CopiedAll(name: seq<byte>, got: seq<byte>)
    requires Copied(name, got, [])
    ensures got == name
  {
    assert got + [] == got;
  }

  /** memcpy. */
  method CopyBytes(from: array<byte>, start: nat, to: array<byte>, at: nat, n: nat)
    requires from != to && start + n <= from.Length && at + n <= to.Length
    modifies to
    ensures to[..at + n] == old(to[..at]) + from[start..start + n]
    ensures forall i | at + n <= i < to.Length :: to[i] == old(to[i])
  {
    for i := 0 to n
      invariant to[..at + i] == old(to[..at]) + from[start..start + i]
      invariant forall j | at + i <= j < to.Length :: to[j] == old(to[j])
    {
      to[at + i] := from[start + i];
    }
  }

  /** The transform: the decompressed stream, and the position where the message continues. */
  method DnscompressParse(data: array<byte>, pos: nat, bitOffset: nat) returns (r: Option<(seq<byte>, nat)>)
    requires Ends(PointerOffset, data[..], pos)
    ensures r == if bitOffset != 0 then None else match Decoded(PointerOffset, data[..], pos)
                 case OffEnd => None
                 case Ended(name, k, after) => Some((name + Zeros(k), after))
  {
    r := None;
    if bitOffset == 0 {
      var sized := SizingPass(PointerOffset, data, pos);
      if sized.Some? {
        var out := CopyingPass(PointerOffset, data, pos, sized.value.size);
        r := Some((out[..], sized.value.after));
      }
    }
  }
}
