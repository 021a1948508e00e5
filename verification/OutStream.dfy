/** The output stream of the emitted printers: a growing buffer with a bit cursor that can be
    moved back to patch what was written earlier. */
module OutStream {
  import opened Bits

  /** `after` is `before`, possibly grown, with `text` written over it at bit `at`. */
  ghost predicate Patched(before: seq<bool>, after: seq<bool>, at: nat, text: seq<bool>) {
    && |before| <= |after| && at + |text| <= |after|
    && after[at..at + |text|] == text
    && forall i :: 0 <= i < |before| && !(at <= i < at + |text|) ==> after[i] == before[i]
  }

  /** The reader undoes the writer: what `Write` leaves at `at` reads back as the value modulo
      2^width, and every other bit that was in the buffer reads back as before. */
  lemma ReadBack(before: seq<bool>, after: seq<bool>, at: nat, value: nat, width: nat, other: nat, n: nat)
    requires Patched(before, after, at, ToBits(value, width))
    requires other + n <= |before| && (other + n <= at || at + width <= other)
    ensures Number(after[at..at + width]) == value % Pow2(width)
    ensures Number(after[other..other + n]) == Number(before[other..other + n])
  {
    NumberOfToBits(value, width);
    assert after[other..other + n] == before[other..other + n];
  }

  lemma PatchedTwice(a: seq<bool>, b: seq<bool>, c: seq<bool>, at: nat, text: seq<bool>, more: seq<bool>)
    requires Patched(a, b, at, text) && Patched(b, c, at + |text|, more)
    ensures Patched(a, c, at, text + more)
  {
    var mid, end := at + |text|, at + |text| + |more|;
    assert c[at..mid] == text by {
      forall i | at <= i < mid ensures c[i] == b[i] {}
      assert b[at..mid] == c[at..mid];
    }
    Splice(c, at, mid, end);
  }

  /** What replacing one byte does to the bits of a buffer. */
  lemma {:induction false} BitsOfUpdate(data: seq<byte>, p: nat, b: byte)
    requires p < |data|
    ensures var bits := BitsOf(data);
            BitsOf(data[p := b]) == bits[..8 * p] + ToBits(b, 8) + bits[8 * p + 8..]
  {
    var bits, rest := BitsOf(data), data[1..];
    if p == 0 {
      assert data[p := b][1..] == rest;
      assert bits[8..] == BitsOf(rest);
    } else {
      BitsOfUpdate(rest, p - 1, b);
      assert data[p := b][1..] == rest[p - 1 := b];
      assert bits[..8 * p] == ToBits(data[0], 8) + BitsOf(rest)[..8 * (p - 1)];
      assert bits[8 * p + 8..] == BitsOf(rest)[8 * (p - 1) + 8..];
    }
  }

  lemma PatchByte(data: seq<byte>, p: nat, b: byte)
    requires p < |data|
    ensures Patched(BitsOf(data), BitsOf(data[p := b]), 8 * p, ToBits(b, 8))
  {
    hide ToBits, BitsOf;
    BitsOfUpdate(data, p, b);
  }

  lemma PatchBit(data: seq<byte>, p: nat, off: nat, b: byte, bit: bool)
    requires p < |data| && off < 8
    requires ToBits(b, 8) == ToBits(data[p], 8)[off := bit]
    ensures Patched(BitsOf(data), BitsOf(data[p := b]), 8 * p + off, [bit])
  {
    hide ToBits, BitsOf;
    BitsOfUpdate(data, p, b);
    ByteSlice(data, p);
    ReplacedBit(BitsOf(data), BitsOf(data[p := b]), 8 * p, off, bit);
  }

  lemma ReplacedBit(bits: seq<bool>, after: seq<bool>, a: nat, off: nat, bit: bool)
    requires off < 8 && a + 8 <= |bits|
    requires after == bits[..a] + bits[a..a + 8][off := bit] + bits[a + 8..]
    ensures Patched(bits, after, a + off, [bit])
  {
    assert after == bits[a + off := bit];
  }

  /** Setting one bit of a byte with |= and clearing it with &= and a complemented mask. */
  lemma SetBit(b: byte, off: nat)
    requires off < 8
    ensures Or(b, Pow2(7 - off)) < 256
    ensures ToBits(Or(b, Pow2(7 - off)), 8) == ToBits(b, 8)[off := true]
  {
    var r, w := Or(b, Pow2(7 - off)), 8;
    OrBelow(b, Pow2(7 - off), w, off);
    var left, right := ToBits(r, w), ToBits(b, w)[off := true];
    hide *;
    forall i | 0 <= i < w
      ensures left[i] == right[i]
    {
      BitsOfOr(b, Pow2(7 - off), w, i);
      BitsOfPow2(7 - off, w, i);
    }
  }

  lemma OrBelow(x: nat, y: nat, width: nat, off: nat)
    requires width == 8 && off < 8 && x < 256 && y == Pow2(7 - off)
    ensures Or(x, y) < 256
  {
    assert Pow2(8) == 256;
    Pow2Monotone(7 - off, 7);
    assert Pow2(7) == 128;
    OrBounded(x, y, 8);
  }

  lemma {:induction false} OrBounded(x: nat, y: nat, width: nat)
    requires x < Pow2(width) && y < Pow2(width)
    ensures Or(x, y) < Pow2(width)
  {
    if width > 0 {
      OrBounded(x / 2, y / 2, width - 1);
      HalfOfOr(x, y);
    }
  }

  lemma {:induction false} AndBounded(x: nat, y: nat)
    ensures And(x, y) <= x
  {
    if x != 0 && y != 0 {
      AndBounded(x / 2, y / 2);
    }
  }

  lemma ClearBit(b: byte, off: nat)
    requires off < 8
    ensures Pow2(7 - off) < 256 && And(b, 255 - Pow2(7 - off)) < 256
    ensures ToBits(And(b, 255 - Pow2(7 - off)), 8) == ToBits(b, 8)[off := false]
  {
    hide *;
    var m, w := Pow2(7 - off), 8;
    MaskBelow(off);
    AndBounded(b, 255 - m);
    var left, right := ToBits(And(b, 255 - m), w), ToBits(b, w)[off := false];
    forall i | 0 <= i < w
      ensures left[i] == right[i]
    {
      BitsOfAnd(b, 255 - m, w, i);
      BitsOfComplement(m, w, i);
      BitsOfPow2(7 - off, w, i);
    }
  }

  lemma MaskBelow(off: nat)
    requires off < 8
    ensures Pow2(7 - off) < Pow2(8) == 256
  {
    Pow2Monotone(7 - off, 7);
  }

  /** The text written so far, one byte or one bit further. */
  lemma TextByte(grown: seq<bool>, before: seq<bool>, after: seq<bool>, start: nat, value: nat, count: nat, n: nat)
    requires n + 8 <= count
    requires Patched(grown, before, start, ToBits(value, count)[..count - n - 8])
    requires Patched(before, after, start + (count - n - 8), ToBits(Shr(value, n) % 256, 8))
    ensures Patched(grown, after, start, ToBits(value, count)[..count - n])
  {
    hide *;
    var text := ToBits(value, count);
    ByteOfText(value, count, n);
    PatchedTwice(grown, before, after, start, text[..count - n - 8], text[count - n - 8..count - n]);
    assert text[..count - n - 8] + text[count - n - 8..count - n] == text[..count - n];
  }

  lemma TextBit(grown: seq<bool>, before: seq<bool>, after: seq<bool>, start: nat, value: nat, count: nat, n: nat)
    requires n + 1 <= count
    requires Patched(grown, before, start, ToBits(value, count)[..count - n - 1])
    requires Patched(before, after, start + (count - n - 1), [Shr(value, n) % 2 == 1])
    ensures Patched(grown, after, start, ToBits(value, count)[..count - n])
  {
    hide *;
    var text, bit := ToBits(value, count), Shr(value, n) % 2 == 1;
    BitOf(value, count, count - 1 - n);
    PatchedTwice(grown, before, after, start, text[..count - n - 1], [bit]);
    assert text[..count - n - 1] + [bit] == text[..count - n];
  }

  class NailOutStream {
    var data: array<byte>
    var pos: nat
    var bitOffset: nat

    ghost predicate Valid()
      reads this
    {
      bitOffset < 8 && At() <= 8 * data.Length
    }

    /** The whole buffer, written or not, as a bit string. */
    ghost function Buffer(): (bits: seq<bool>)
      reads this, data
      ensures |bits| == 8 * data.Length
    {
      BitsOf(data[..])
    }

    ghost function At(): nat
      reads this
    {
      8 * pos + bitOffset
    }

    constructor (size: nat)
      ensures Valid() && fresh(data) && data.Length == size && At() == 0
    {
      data := new byte[size](_ => 0);
      pos, bitOffset := 0, 0;
    }

    method GetPos() returns (p: nat)
      ensures p == At()
    {
      p := (8 * pos) + bitOffset;
    }

    method Reposition(p: nat)
      requires p <= 8 * data.Length
      modifies this`pos, this`bitOffset
      ensures Valid() && At() == p
    {
      pos := p / 8;
      bitOffset := p % 8;
    }

    /** Makes room for `count` more bits. */
    method Grow(count: nat)
      requires Valid()
      modifies this`data
      ensures Valid() && (data == old(data) || fresh(data))
      ensures data.Length >= old(data.Length) && data[..old(data.Length)] == old(data[..])
      ensures pos + count / 8 + 1 <= data.Length
      ensures count / 8 + 1 < 4096 ==> pos + count / 8 + 1 < data.Length
      ensures pos + count / 8 + 1 < old(data.Length) ==> data == old(data)
    {
      if pos + count / 8 + 1 >= data.Length {
        var allocSize := pos + count / 8 + 1;
        if 4096 + data.Length > allocSize {
          allocSize := 4096 + data.Length;
        }
        var bigger := new byte[allocSize](_ => 0);
        forall i | 0 <= i < data.Length {
          bigger[i] := data[i];
        }
        data := bigger;
      }
    }

    /** How the generating transforms append a finished buffer: to the whole bytes written so far,
        over those of a byte that has only been begun. */
    method AppendBytes(bytes: seq<byte>)
      requires Valid()
      modifies this, data
      ensures Valid() && bitOffset == old(bitOffset) && (data == old(data) || fresh(data))
      ensures pos == old(pos) + |bytes|
      ensures data[..pos] == old(data[..pos]) + bytes
    {
      hide BitsOf, Patched;
      Grow(8 * |bytes|);
      assert data[..pos] == old(data[..pos]);
      var k := 0;
      while k < |bytes|
        invariant k <= |bytes| && pos + |bytes| + 1 <= data.Length && pos == old(pos) && bitOffset == old(bitOffset)
        invariant data == old(data) || fresh(data)
        invariant data[..pos + k] == old(data[..pos]) + bytes[..k]
        modifies data
      {
        data[pos + k] := bytes[k];
        k := k + 1;
      }
      pos := pos + |bytes|;
    }

    /** One round of the byte-at-a-time path. */
    method PutByte(b: byte)
      requires Valid() && bitOffset == 0 && pos < data.Length
      modifies this`pos, data
      ensures Valid() && At() == old(At()) + 8 && bitOffset == 0
      ensures Patched(old(Buffer()), Buffer(), old(At()), ToBits(b, 8))
    {
      hide ToBits, BitsOf;
      data[pos] := b;
      assert data[..] == old(data[..])[pos := b];
      PatchByte(old(data[..]), pos, b);
      pos := pos + 1;
    }

    /** One round of the bit-at-a-time path. */
    method PutBit(bit: bool)
      requires Valid() && pos < data.Length
      modifies this`pos, this`bitOffset, data
      ensures Valid() && At() == old(At()) + 1
      ensures Patched(old(Buffer()), Buffer(), old(At()), [bit])
    {
      hide ToBits, BitsOf, Or, And, Pow2;
      if bit {
        SetBit(data[pos], bitOffset);
        data[pos] := Or(data[pos], Pow2(7 - bitOffset));
      } else {
        ClearBit(data[pos], bitOffset);
        data[pos] := And(data[pos], 255 - Pow2(7 - bitOffset));
      }
      assert data[..] == old(data[..])[pos := data[pos]];
      PatchBit(old(data[..]), pos, bitOffset, data[pos], bit);
      bitOffset := bitOffset + 1;
      if bitOffset > 7 {
        pos := pos + 1;
        bitOffset := 0;
      }
    }

    /** Writes the low `count` bits of `value` at the cursor, growing the buffer when needed. */
    method Write(value: nat, count: nat)
      requires Valid() && count <= 64
      modifies this, data
      ensures Valid() && (data == old(data) || fresh(data))
      ensures At() == old(At()) + count
      ensures Patched(old(Buffer()), Buffer(), old(At()), ToBits(value, count))
    {
      hide ToBits, BitsOf, Shr, Patched;
      Grow(count);
      ghost var grown, start := Buffer(), At();
      GrownBits(old(data[..]), data[..]);
      NothingPatched(grown, start, ToBits(value, count));
      var n := count;
      while n > 0
        invariant 0 <= n <= count && Valid()
        invariant At() == start + (count - n) && start + count <= 8 * data.Length
        invariant data == old(data) || fresh(data)
        invariant Patched(grown, Buffer(), start, ToBits(value, count)[..count - n])
        modifies this`pos, this`bitOffset, data
        decreases n
      {
        ghost var before := Buffer();
        if bitOffset == 0 && n % 8 == 0 {
          n := n - 8;
          PutByte(Shr(value, n) % 256);
          TextByte(grown, before, Buffer(), start, value, count, n);
        } else {
          n := n - 1;
          PutBit(Shr(value, n) % 2 == 1);
          TextBit(grown, before, Buffer(), start, value, count, n);
        }
      }
      PatchedAfterGrowth(old(Buffer()), grown, Buffer(), start, ToBits(value, count));
    }
  }

  lemma NothingPatched(bits: seq<bool>, at: nat, text: seq<bool>)
    requires at <= |bits|
    ensures Patched(bits, bits, at, text[..0])
  {
  }

  lemma {:induction false} GrownBits(small: seq<byte>, big: seq<byte>)
    requires small <= big
    ensures BitsOf(small) <= BitsOf(big)
  {
    if small != [] {
      GrownBits(small[1..], big[1..]);
    }
  }

  lemma PatchedAfterGrowth(small: seq<bool>, grown: seq<bool>, after: seq<bool>, at: nat, text: seq<bool>)
    requires small <= grown && Patched(grown, after, at, text[..|text|])
    ensures Patched(small, after, at, text)
  {
    assert text[..|text|] == text;
  }

  /** The byte written by the fast path is the next eight bits of the text. */
  lemma ByteOfText(value: nat, count: nat, n: nat)
    requires n + 8 <= count
    ensures ToBits(Shr(value, n) % 256, 8) == ToBits(value, count)[count - n - 8..count - n]
  {
    hide ToBits, Shr;
    var high := count - n - 8;
    ToBitsSplit(value, high + 8, n);
    ToBitsSplit(Shr(value, n), high, 8);
    assert Pow2(8) == 256;
    ToBitsOfMod(Shr(value, n), 8);
  }
}
