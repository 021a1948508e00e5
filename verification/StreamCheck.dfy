/** The bounds check of the C template, and when it agrees with the exact one. Its term for the
    bits of a partial byte, ((offset + count) & 7) >> 3, is always zero. */
module StreamCheck {
  import opened Bits

  /** True when the C function returns 0. The subtractions are on size_t. */
  predicate Passes(size: nat, pos: nat, offset: nat, count: nat) {
    !((size - count / 8 - ((offset + count) % 8) / 8) % WORD < pos)
  }

  predicate Enough(size: nat, pos: nat, offset: nat, count: nat) {
    8 * pos + offset + count <= 8 * size
  }

  /** The check is exact for reads of `count` bits at bit `offset` of a byte, wherever the cursor
      is in whichever buffer of at least count / 8 bytes. */
  ghost predicate AlwaysExact(offset: nat, count: nat) {
    forall size: nat, pos: nat | 8 * pos + offset <= 8 * size && count / 8 <= size < WORD ::
      Passes(size, pos, offset, count) == Enough(size, pos, offset, count)
  }

  /** The check is exact exactly for whole bytes at a byte boundary, and for fields that start
      inside a byte and end in it. */
  lemma ExactWhen(offset: nat, count: nat)
    requires offset < 8 && count <= 64
    ensures AlwaysExact(offset, count)
       <==> (offset == 0 && count % 8 == 0) || (offset > 0 && offset + count <= 8)
  {
    if !((offset == 0 && count % 8 == 0) || (offset > 0 && offset + count <= 8)) {
      var size := if count < 8 && offset > 0 then 1 else count / 8;
      assert Passes(size, 0, offset, count) && !Enough(size, 0, offset, count);
    }
  }

  /** On a buffer shorter than the whole bytes asked for, the subtraction wraps and the check
      passes. */
  lemma ShortBufferPasses(size: nat, pos: nat, offset: nat, count: nat)
    requires offset < 8 && count <= 64 && 8 * pos + offset <= 8 * size && size < count / 8
    ensures Passes(size, pos, offset, count) && !Enough(size, pos, offset, count)
  {
    var k := count / 8 - size;
    assert (size - count / 8) % WORD == WORD - k;
  }
}
