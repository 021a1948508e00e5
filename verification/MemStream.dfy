/** The input stream of the emitted C++ parsers: a read-only buffer with a bit cursor, and the
    two loops that read an unsigned integer with a byte-at-a-time fast path. */
module MemStream {
  import opened Bits

  /** A saved cursor. */
  datatype Pos = Pos(pos: nat, bitOffset: nat)

  class NailMemStream {
    const data: array<byte>
    var pos: nat
    var bitOffset: nat

    ghost predicate Valid()
      reads this
    {
      bitOffset < 8 && At() <= 8 * data.Length
    }

    ghost function Bytes(): seq<byte>
      reads data
    {
      data[..]
    }

    /** The whole buffer as a bit string. */
    ghost function Input(): (bits: seq<bool>)
      reads data
      ensures |bits| == 8 * data.Length
    {
      BitsOf(data[..])
    }

    /** The cursor as a bit position. */
    ghost function At(): nat
      reads this
    {
      8 * pos + bitOffset
    }

    constructor (data: array<byte>)
      ensures Valid() && this.data == data && At() == 0
    {
      this.data := data;
      pos, bitOffset := 0, 0;
    }

    /** True iff `count` more bits can be read; C returns 0 for that and -1 otherwise. */
    method Check(count: nat) returns (ok: bool)
      ensures ok == (At() + count <= |Input()|)
    {
      ok := !((8 * pos) + bitOffset + count > 8 * data.Length);
    }

    method GetPos() returns (p: Pos)
      ensures p == Pos(pos, bitOffset)
    {
      p := Pos(pos, bitOffset);
    }

    method Rewind(p: Pos)
      requires p.bitOffset < 8 && 8 * p.pos + p.bitOffset <= 8 * data.Length
      modifies this
      ensures Valid() && At() == 8 * p.pos + p.bitOffset && Pos(pos, bitOffset) == p
    {
      pos, bitOffset := p.pos, p.bitOffset;
    }

    // The C template adds these two for the first pass of the two-pass parser.

    method Advance(count: nat)
      requires Valid() && At() + count <= |Input()|
      modifies this
      ensures Valid() && At() == old(At()) + count
    {
      pos := pos + count / 8;
      bitOffset := bitOffset + count % 8;
      if bitOffset > 7 {
        pos := pos + 1;
        bitOffset := bitOffset - 8;
      }
    }

    method Backup(count: nat)
      requires Valid() && count <= At()
      modifies this
      ensures Valid() && At() == old(At()) - count
    {
      var p, off := pos - count / 8, bitOffset - count % 8;
      if off < 0 {
        p := p - 1;
        off := off + 8;
      }
      pos, bitOffset := p, off;
    }

    method ReadUnsignedBig(count: nat) returns (r: nat)
      requires Valid() && count <= 64 && At() + count <= |Input()|
      modifies this
      ensures Valid() && At() == old(At()) + count
      ensures r == Number(Input()[old(At())..At()]) < WORD
    {
      hide Or, Shl, Shr, Number, LittleNumber, BitsOf, LittleBitsOf, Above;
      ghost var start := At();
      var retval, outIdx, n := 0, count, count;
      var p, off := pos, bitOffset;
      assert Input()[start..start] == [];
      NothingAbove(n);
      while n > 0
        invariant 0 <= n <= count && outIdx == n && off < 8
        invariant 8 * p + off == start + (count - n)
        invariant retval == Above(Input()[start..8 * p + off], n)
        decreases n
      {
        if off == 0 && n % 8 == 0 {
          outIdx := outIdx - 8;
          BigByte(data[..], start, p, outIdx);
          retval := Or(retval, Shl(data[p], outIdx));
          p := p + 1;
          n := n - 8;
        } else {
          outIdx := outIdx - 1;
          BigBit(data[..], start, p, off, outIdx);
          retval := Or(retval, Shl(Shr(data[p], 7 - off) % 2, outIdx));
          n := n - 1;
          off := off + 1;
          if off > 7 {
            off := off - 8;
            p := p + 1;
          }
        }
      }
      pos, bitOffset := p, off;
      r := retval;
      WholeWord(Input()[start..At()]);
    }

    method ReadUnsignedLittle(count: nat) returns (r: nat)
      requires Valid() && count <= 64 && At() + count <= |Input()|
      modifies this
      ensures Valid() && At() == old(At()) + count
      ensures r == LittleNumber(LittleBitsOf(Bytes())[old(At())..At()]) < WORD
    {
      hide Or, Shl, Shr, Number, LittleNumber, BitsOf, LittleBitsOf;
      ghost var start := At();
      var retval, outIdx, n := 0, 0, count;
      var p, off := pos, bitOffset;
      while n > 0
        invariant 0 <= n <= count && outIdx == count - n && off < 8
        invariant 8 * p + off == start + outIdx <= |LittleBitsOf(data[..])|
        invariant retval == LittleNumber(LittleBitsOf(data[..])[start..8 * p + off])
        decreases n
      {
        if off == 0 && n % 8 == 0 {
          LittleByte(data[..], start, p, outIdx);
          retval := Or(retval, Shl(data[p], outIdx));
          outIdx := outIdx + 8;
          p := p + 1;
          n := n - 8;
        } else {
          LittleBit(data[..], start, p, off, outIdx);
          retval := Or(retval, Shl(Shr(data[p], off) % 2, outIdx));
          outIdx := outIdx + 1;
          n := n - 1;
          off := off + 1;
          if off > 7 {
            off := off - 8;
            p := p + 1;
          }
        }
      }
      pos, bitOffset := p, off;
      r := retval;
      WholeWord(LittleBitsOf(data[..])[start..At()]);
    }
  }

  lemma Gather(v: nat, x: nat, a: nat, b: nat)
    ensures (v * a + x) * b == v * (a * b) + x * b
  {
  }

  /** The bits read so far, in their place above `k` that are still to come. */
  ghost function Above(bits: seq<bool>, k: nat): nat {
    Number(bits) * Pow2(k)
  }

  lemma NothingAbove(k: nat)
    ensures Above([], k) == 0
  {
  }

  /** Adding `w` more bits, worth `x`, below what the big-endian reader has gathered. */
  lemma BigStep(done: seq<bool>, more: seq<bool>, x: nat, k: nat)
    requires more == ToBits(x, |more|) && x < Pow2(|more|)
    requires |more| + k <= 64
    ensures Or(Above(done, k + |more|), Shl(x, k)) == Above(done + more, k)
  {
    hide Or, Shl, Number, ToBits, Pow2;
    var v, w := Number(done), |more|;
    assert Number(done + more) == v * Pow2(w) + x by {
      NumberOfFitting(x, w);
      NumberOfConcat(done, more);
    }
    ShlFits(x, k, w);
    Pow2Add(w, k);
    MulBelow(x, Pow2(w), Pow2(k));
    OrDisjoint(v, k + w, x * Pow2(k));
    Gather(v, x, Pow2(w), Pow2(k));
  }

  lemma BigByte(data: seq<byte>, start: nat, p: nat, k: nat)
    requires p < |data| && start <= 8 * p && k + 8 <= 64
    ensures Or(Above(BitsOf(data)[start..8 * p], k + 8), Shl(data[p], k))
         == Above(BitsOf(data)[start..8 * p + 8], k)
  {
    hide Or, Shl, Number, BitsOf, ToBits, Above;
    var bits := BitsOf(data);
    ByteSlice(data, p);
    assert Pow2(8) == 256;
    BigStep(bits[start..8 * p], bits[8 * p..8 * p + 8], data[p], k);
    Splice(bits, start, 8 * p, 8 * p + 8);
  }

  lemma BigBit(data: seq<byte>, start: nat, p: nat, off: nat, k: nat)
    requires p < |data| && off < 8 && start <= 8 * p + off && k + 1 <= 64
    ensures Or(Above(BitsOf(data)[start..8 * p + off], k + 1), Shl(Shr(data[p], 7 - off) % 2, k))
         == Above(BitsOf(data)[start..8 * p + off + 1], k)
  {
    hide Or, Shl, Shr, Number, BitsOf, Above;
    var bits, at, bit := BitsOf(data), 8 * p + off, Shr(data[p], 7 - off) % 2;
    BitAt(data, p, off);
    BitOf(data[p], 8, off);
    assert bits[at..at + 1] == [bit == 1] == ToBits(bit, 1);
    assert Pow2(1) == 2;
    BigStep(bits[start..at], bits[at..at + 1], bit, k);
    Splice(bits, start, at, at + 1);
  }

  /** Adding more bits above what the little-endian reader has gathered. */
  lemma LittleStep(done: seq<bool>, more: seq<bool>, x: nat)
    requires x == LittleNumber(more) && |done| + |more| <= 64
    ensures Or(LittleNumber(done), Shl(x, |done|)) == LittleNumber(done + more)
  {
    LittleNumberOfConcat(done, more);
    ShlFits(x, |done|, |more|);
    OrDisjoint(x, |done|, LittleNumber(done));
  }

  lemma LittleByteNumber(data: seq<byte>, p: nat)
    requires p < |data|
    ensures LittleNumber(LittleBitsOf(data)[8 * p..8 * p + 8]) == data[p]
  {
    ByteSlice(data, p);
    LittleNumberReversed(data[p], 8);
    assert Pow2(8) == 256;
    ModSmall(data[p], 256);
  }

  lemma LittleByte(data: seq<byte>, start: nat, p: nat, k: nat)
    requires p < |data| && 8 * p == start + k && k + 8 <= 64
    ensures Or(LittleNumber(LittleBitsOf(data)[start..8 * p]), Shl(data[p], k))
         == LittleNumber(LittleBitsOf(data)[start..8 * p + 8])
  {
    hide *;
    LittleByteNumber(data, p);
    LittleJoin(LittleBitsOf(data), start, k, 8, data[p]);
  }

  lemma LittleJoin(bits: seq<bool>, start: nat, k: nat, w: nat, x: nat)
    requires start + k + w <= |bits| && k + w <= 64 && x == LittleNumber(bits[start + k..start + k + w])
    ensures Or(LittleNumber(bits[start..start + k]), Shl(x, k)) == LittleNumber(bits[start..start + k + w])
  {
    hide *;
    LittleStep(bits[start..start + k], bits[start + k..start + k + w], x);
    Splice(bits, start, start + k, start + k + w);
  }

  lemma LittleBit(data: seq<byte>, start: nat, p: nat, off: nat, k: nat)
    requires p < |data| && off < 8 && 8 * p + off == start + k && k + 1 <= 64
    ensures Or(LittleNumber(LittleBitsOf(data)[start..8 * p + off]), Shl(Shr(data[p], off) % 2, k))
         == LittleNumber(LittleBitsOf(data)[start..8 * p + off + 1])
  {
    hide *;
    var bits, at, bit := LittleBitsOf(data), 8 * p + off, Shr(data[p], off) % 2;
    BitAt(data, p, off);
    BitOf(data[p], 8, 7 - off);
    LittleOneBit(bits[at..at + 1], bit);
    LittleJoin(bits, start, k, 1, bit);
  }

  lemma LittleOneBit(bits: seq<bool>, bit: nat)
    requires |bits| == 1 && bit < 2 && bits[0] == (bit == 1)
    ensures LittleNumber(bits) == bit
  {
    assert bits[..0] == [];
  }

  lemma WholeWord(bits: seq<bool>)
    requires |bits| <= 64
    ensures Above(bits, 0) == Number(bits) < WORD && LittleNumber(bits) < WORD
  {
    Pow2Monotone(|bits|, 64);
    WordIsPow2();
  }
}
