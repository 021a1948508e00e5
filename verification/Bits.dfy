/** Bit strings, their numeric values, and the C operators the runtime applies to bytes and
    to uint64_t values. Bit strings are most-significant-bit first, the order of the big-endian
    reader and of the writer. */
module Bits {

  type byte = n: nat | n < 256

  function Pow2(k: nat): (p: nat)
    ensures p > 0
  {
    if k == 0 then 1 else 2 * Pow2(k - 1)
  }

  /** The number written by a bit string. */
  function Number(bits: seq<bool>): (n: nat)
    ensures n < Pow2(|bits|)
  {
    if bits == [] then 0
    else 2 * Number(bits[..|bits| - 1]) + (if bits[|bits| - 1] then 1 else 0)
  }

  /** The low `width` bits of `n`. */
  function ToBits(n: nat, width: nat): (bits: seq<bool>)
    ensures |bits| == width
  {
    if width == 0 then [] else ToBits(n / 2, width - 1) + [n % 2 == 1]
  }

  lemma {:induction false} ToBitsOfNumber(bits: seq<bool>)
    ensures ToBits(Number(bits), |bits|) == bits
  {
    if bits != [] {
      var init, last := bits[..|bits| - 1], bits[|bits| - 1];
      ToBitsOfNumber(init);
      assert Number(bits) / 2 == Number(init) && (Number(bits) % 2 == 1) == last;
      assert bits == init + [last];
    }
  }

  lemma {:induction false} ModDouble(n: nat, p: nat)
    requires p > 0
    ensures 2 * ((n / 2) % p) + n % 2 == n % (2 * p)
  {
    var m := n / 2;
    var q, r := m / p, m % p;
    assert n == (2 * p) * q + (2 * r + n % 2) by {
      assert m == p * q + r;
      assert (2 * p) * q == 2 * (p * q);
    }
    ModUnique(n, 2 * p, q, 2 * r + n % 2);
  }

  lemma ModUnique(n: nat, p: nat, q: nat, r: nat)
    requires p > 0 && r < p && n == p * q + r
    ensures n % p == r && n / p == q
  {
    var d := n / p - q;
    assert p * d == p * (n / p) - p * q == r - n % p;
    MulAway(p, d);
  }

  lemma ModSmall(n: nat, p: nat)
    requires n < p
    ensures n % p == n
  {
  }

  lemma MulAway(p: int, d: int)
    requires p > 0
    ensures d >= 1 ==> p * d >= p
    ensures d <= -1 ==> p * d <= -p
  {
  }

  lemma Distribute(a: nat, b: nat, c: nat)
    ensures (a + b) * c == a * c + b * c
  {
  }

  lemma Doubling(a: nat, b: nat)
    ensures a * (2 * b) == 2 * (a * b)
  {
  }

  lemma MulBelow(a: nat, b: nat, c: nat)
    requires a < b && c > 0
    ensures a * c < b * c
  {
  }

  lemma {:induction false} NumberOfToBits(n: nat, width: nat)
    ensures Number(ToBits(n, width)) == n % Pow2(width)
  {
    if width > 0 {
      var init := ToBits(n / 2, width - 1);
      NumberOfToBits(n / 2, width - 1);
      assert ToBits(n, width)[..width - 1] == init;
      ModDouble(n, Pow2(width - 1));
    }
  }

  lemma NumberOfFitting(n: nat, width: nat)
    requires n < Pow2(width)
    ensures Number(ToBits(n, width)) == n
  {
    NumberOfToBits(n, width);
    ModUnique(n, Pow2(width), 0, n);
  }

  lemma {:induction false} Pow2Add(a: nat, b: nat)
    ensures Pow2(a + b) == Pow2(a) * Pow2(b)
  {
    if b == 0 {
    } else {
      Pow2Add(a, b - 1);
      assert Pow2(a) * (2 * Pow2(b - 1)) == 2 * (Pow2(a) * Pow2(b - 1));
    }
  }

  lemma {:induction false} Pow2Monotone(a: nat, b: nat)
    requires a <= b
    ensures Pow2(a) <= Pow2(b)
  {
    Pow2Add(a, b - a);
    assert Pow2(a) * Pow2(b - a) >= Pow2(a);
  }

  lemma {:induction false} NumberOfConcat(a: seq<bool>, b: seq<bool>)
    ensures Number(a + b) == Number(a) * Pow2(|b|) + Number(b)
  {
    if b == [] {
      assert a + b == a;
      assert Number(a) * Pow2(0) == Number(a);
    } else {
      var init, bit := b[..|b| - 1], if b[|b| - 1] then 1 else 0;
      NumberOfConcat(a, init);
      assert (a + b)[..|a + b| - 1] == a + init;
      assert Number(a + b) == 2 * Number(a + init) + bit;
      assert Number(b) == 2 * Number(init) + bit;
      assert Pow2(|b|) == 2 * Pow2(|init|);
      hide Number, Pow2;
      Doubling(Number(a), Pow2(|init|));
    }
  }

  /** Shifting right by k is halving k times. */
  function Shr(n: nat, k: nat): nat {
    if k == 0 then n else Shr(n / 2, k - 1)
  }

  lemma HalfDivides(n: nat, p: nat)
    requires p > 0
    ensures n / (2 * p) == (n / 2) / p
  {
    var m := n / 2;
    var q, r := m / p, m % p;
    assert m == p * q + r;
    assert (2 * p) * q == 2 * (p * q);
    ModUnique(n, 2 * p, q, 2 * r + n % 2);
  }

  lemma {:induction false} ShrIsQuotient(n: nat, k: nat)
    ensures Shr(n, k) == n / Pow2(k)
  {
    if k > 0 {
      ShrIsQuotient(n / 2, k - 1);
      HalfDivides(n, Pow2(k - 1));
    }
  }

  /** The high part of a bit string is the bit string of the shifted number. */
  lemma {:induction false} ToBitsSplit(n: nat, high: nat, low: nat)
    ensures ToBits(n, high + low) == ToBits(Shr(n, low), high) + ToBits(n, low)
  {
    if low > 0 {
      ToBitsSplit(n / 2, high, low - 1);
    }
  }

  lemma {:induction false} ToBitsOfMod(n: nat, width: nat)
    ensures ToBits(n % Pow2(width), width) == ToBits(n, width)
  {
    NumberOfToBits(n, width);
    ToBitsOfNumber(ToBits(n, width));
  }

  /** Bit i of the string, counted from the most significant end, as C tests it. */
  lemma {:induction false} BitOf(n: nat, width: nat, i: nat)
    requires i < width
    ensures ToBits(n, width)[i] == (Shr(n, width - 1 - i) % 2 == 1)
  {
    if i < width - 1 {
      BitOf(n / 2, width - 1, i);
    }
  }

  // The C operators. Values of type uint64_t are numbers below 2^64; shifting left drops the
  // bits that leave the word.

  const WORD: nat := 0x1_0000_0000_0000_0000

  function Shl(x: nat, k: nat): nat {
    (x * Pow2(k)) % WORD
  }

  function Or(x: nat, y: nat): nat {
    if x == 0 && y == 0 then 0
    else 2 * Or(x / 2, y / 2) + (if x % 2 == 1 || y % 2 == 1 then 1 else 0)
  }

  function And(x: nat, y: nat): nat {
    if x == 0 || y == 0 then 0
    else 2 * And(x / 2, y / 2) + (if x % 2 == 1 && y % 2 == 1 then 1 else 0)
  }

  lemma HalfOfOr(x: nat, y: nat)
    ensures Or(x, y) / 2 == Or(x / 2, y / 2)
    ensures Or(x, y) % 2 == (if x % 2 == 1 || y % 2 == 1 then 1 else 0)
  {
  }

  lemma HalfOfAnd(x: nat, y: nat)
    ensures And(x, y) / 2 == And(x / 2, y / 2)
    ensures And(x, y) % 2 == (if x % 2 == 1 && y % 2 == 1 then 1 else 0)
  {
  }

  lemma {:induction false} BitsOfOr(x: nat, y: nat, width: nat, i: nat)
    requires i < width
    ensures ToBits(Or(x, y), width)[i] == (ToBits(x, width)[i] || ToBits(y, width)[i])
  {
    hide Or;
    HalfOfOr(x, y);
    if i < width - 1 {
      BitsOfOr(x / 2, y / 2, width - 1, i);
    }
  }

  lemma {:induction false} BitsOfAnd(x: nat, y: nat, width: nat, i: nat)
    requires i < width
    ensures ToBits(And(x, y), width)[i] == (ToBits(x, width)[i] && ToBits(y, width)[i])
  {
    hide And;
    HalfOfAnd(x, y);
    if i < width - 1 {
      BitsOfAnd(x / 2, y / 2, width - 1, i);
    }
  }

  lemma {:induction false} BitsOfZero(width: nat, i: nat)
    requires i < width
    ensures !ToBits(0, width)[i]
  {
    if i < width - 1 {
      BitsOfZero(width - 1, i);
    }
  }

  lemma {:induction false} BitsOfPow2(k: nat, width: nat, i: nat)
    requires i < width && k < width
    ensures ToBits(Pow2(k), width)[i] == (i == width - 1 - k)
  {
    if k == 0 {
      if i < width - 1 {
        BitsOfZero(width - 1, i);
      }
    } else if i < width - 1 {
      BitsOfPow2(k - 1, width - 1, i);
    }
  }

  lemma {:induction false} BitsOfComplement(n: nat, width: nat, i: nat)
    requires i < width && n < Pow2(width)
    ensures ToBits(Pow2(width) - 1 - n, width)[i] == !ToBits(n, width)[i]
  {
    var c := Pow2(width) - 1 - n;
    assert c / 2 == Pow2(width - 1) - 1 - n / 2 && c % 2 == 1 - n % 2;
    if i < width - 1 {
      BitsOfComplement(n / 2, width - 1, i);
    }
  }

  /** Or of a multiple of 2^k with a number below 2^k is their sum. */
  lemma {:induction false} OrDisjoint(m: nat, k: nat, y: nat)
    requires y < Pow2(k)
    ensures Or(m * Pow2(k), y) == m * Pow2(k) + y && Or(y, m * Pow2(k)) == m * Pow2(k) + y
  {
    hide Or;
    if k == 0 {
      OrZero(m);
      assert m * Pow2(k) == m;
    } else {
      OrDisjoint(m, k - 1, y / 2);
      Doubling(m, Pow2(k - 1));
      OrOfEven(m * Pow2(k - 1), y);
    }
  }

  lemma OrOfEven(half: nat, y: nat)
    requires Or(half, y / 2) == half + y / 2 == Or(y / 2, half)
    ensures Or(2 * half, y) == 2 * half + y == Or(y, 2 * half)
  {
  }

  lemma {:induction false} OrZero(m: nat)
    ensures Or(m, 0) == m && Or(0, m) == m
  {
    if m > 0 {
      OrZero(m / 2);
    }
  }

  lemma WordIsPow2()
    ensures WORD == Pow2(64)
  {
    assert Pow2(4) == 16;
    hide Pow2;
    Pow2Add(4, 4);
    Pow2Add(8, 8);
    Pow2Add(16, 16);
    Pow2Add(32, 32);
  }

  lemma ShlFits(x: nat, k: nat, n: nat)
    requires k + n <= 64 && x < Pow2(n)
    ensures Shl(x, k) == x * Pow2(k) < WORD
  {
    hide Pow2;
    ShiftedFits(x, k, n);
    ModSmall(x * Pow2(k), WORD);
  }

  lemma ShiftedFits(x: nat, k: nat, n: nat)
    requires k + n <= 64 && x < Pow2(n)
    ensures x * Pow2(k) < WORD
  {
    hide *;
    MulBelow(x, Pow2(n), Pow2(k));
    Pow2Add(n, k);
    Pow2Monotone(n + k, 64);
    WordIsPow2();
  }

  // Byte buffers as bit strings.

  /** All bits of a buffer, most significant bit of each byte first. */
  function BitsOf(data: seq<byte>): (bits: seq<bool>)
    ensures |bits| == 8 * |data|
  {
    if data == [] then [] else ToBits(data[0], 8) + BitsOf(data[1..])
  }

  /** All bits of a buffer, least significant bit of each byte first. */
  function LittleBitsOf(data: seq<byte>): (bits: seq<bool>)
    ensures |bits| == 8 * |data|
  {
    if data == [] then [] else Reverse(ToBits(data[0], 8)) + LittleBitsOf(data[1..])
  }

  function Reverse(bits: seq<bool>): (r: seq<bool>)
    ensures |r| == |bits|
  {
    if bits == [] then [] else Reverse(bits[1..]) + [bits[0]]
  }

  lemma {:induction false} ReverseAt(bits: seq<bool>, i: nat)
    requires i < |bits|
    ensures Reverse(bits)[i] == bits[|bits| - 1 - i]
  {
    if i < |bits| - 1 {
      ReverseAt(bits[1..], i);
    }
  }

  lemma SliceAt<T>(s: seq<T>, a: nat, b: nat, i: nat)
    requires a + i < b <= |s|
    ensures s[a..b][i] == s[a + i]
  {
  }

  lemma Splice<T>(s: seq<T>, a: nat, b: nat, c: nat)
    requires a <= b <= c <= |s|
    ensures s[a..b] + s[b..c] == s[a..c]
  {
  }

  /** The number whose bit j is the j-th bit of the string. */
  function LittleNumber(bits: seq<bool>): (n: nat)
    ensures n < Pow2(|bits|)
  {
    if bits == [] then 0
    else LittleNumber(bits[..|bits| - 1]) + (if bits[|bits| - 1] then Pow2(|bits| - 1) else 0)
  }

  lemma {:induction false} ByteSlice(data: seq<byte>, k: nat)
    requires k < |data|
    ensures BitsOf(data)[8 * k..8 * k + 8] == ToBits(data[k], 8)
    ensures LittleBitsOf(data)[8 * k..8 * k + 8] == Reverse(ToBits(data[k], 8))
  {
    hide ToBits, Reverse;
    if k == 0 {
      assert BitsOf(data)[..8] == ToBits(data[0], 8);
      assert LittleBitsOf(data)[..8] == Reverse(ToBits(data[0], 8));
    } else {
      var rest := data[1..];
      ByteSlice(rest, k - 1);
      assert BitsOf(data)[8 * k..8 * k + 8] == BitsOf(rest)[8 * (k - 1)..8 * (k - 1) + 8];
      assert LittleBitsOf(data)[8 * k..8 * k + 8] == LittleBitsOf(rest)[8 * (k - 1)..8 * (k - 1) + 8];
    }
  }

  lemma BitAt(data: seq<byte>, k: nat, off: nat)
    requires k < |data| && off < 8
    ensures BitsOf(data)[8 * k + off] == ToBits(data[k], 8)[off]
    ensures LittleBitsOf(data)[8 * k + off] == ToBits(data[k], 8)[7 - off]
  {
    hide *;
    ByteSlice(data, k);
    ReverseAt(ToBits(data[k], 8), off);
    SliceAt(BitsOf(data), 8 * k, 8 * k + 8, off);
    SliceAt(LittleBitsOf(data), 8 * k, 8 * k + 8, off);
  }

  /** Bytes found in the bits of a buffer at a byte boundary are in the buffer. */
  lemma BytesAt(data: seq<byte>, pos: nat, e: seq<byte>, at: nat, end: nat)
    requires at == 8 * pos && end == at + 8 * |e| <= 8 * |data| && BitsOf(data)[at..end] == BitsOf(e)
    ensures pos + |e| <= |data| && data[pos..pos + |e|] == e
  {
    hide *;
    forall k | 0 <= k < |e| ensures data[pos + k] == e[k] {
      ByteAt(data, pos, e, at, end, k);
    }
  }

  lemma ByteAt(data: seq<byte>, pos: nat, e: seq<byte>, at: nat, end: nat, k: nat)
    requires at == 8 * pos && end == at + 8 * |e| <= 8 * |data| && BitsOf(data)[at..end] == BitsOf(e)
    requires k < |e|
    ensures data[pos + k] == e[k]
  {
    hide *;
    ByteSlice(data, pos + k);
    ByteSlice(e, k);
    SliceOfSlice(BitsOf(data), at, end, 8 * k, 8 * k + 8);
    ByteOfBits(data[pos + k]);
    ByteOfBits(e[k]);
  }

  lemma SliceOfSlice<T>(s: seq<T>, a: nat, b: nat, c: nat, d: nat)
    requires c <= d && a + d <= b <= |s|
    ensures s[a..b][c..d] == s[a + c..a + d]
  {
    assert forall i | c <= i < d :: s[a..b][i] == s[a + i];
  }

  lemma ByteOfBits(x: byte)
    ensures Number(ToBits(x, 8)) == x
  {
    assert Pow2(8) == 256;
    NumberOfFitting(x, 8);
  }

  lemma {:induction false} LittleNumberOfConcat(a: seq<bool>, b: seq<bool>)
    ensures LittleNumber(a + b) == LittleNumber(a) + LittleNumber(b) * Pow2(|a|)
  {
    if b == [] {
      assert a + b == a;
    } else {
      var init := b[..|b| - 1];
      LittleNumberOfConcat(a, init);
      assert (a + b)[..|a + b| - 1] == a + init;
      Pow2Add(|init|, |a|);
      Distribute(LittleNumber(init), Pow2(|init|), Pow2(|a|));
    }
  }

  lemma {:induction false} LowBitFirst(low: bool, rest: seq<bool>)
    ensures LittleNumber([low] + rest) == 2 * LittleNumber(rest) + (if low then 1 else 0)
  {
    if rest == [] {
      assert ([low] + rest)[..0] == [];
    } else {
      var init := rest[..|rest| - 1];
      LowBitFirst(low, init);
      assert ([low] + rest)[..|rest|] == [low] + init;
    }
  }

  /** The two readings of the same bits agree. */
  lemma {:induction false} LittleNumberReversed(n: nat, width: nat)
    ensures LittleNumber(Reverse(ToBits(n, width))) == n % Pow2(width)
  {
    if width > 0 {
      var init := ToBits(n / 2, width - 1);
      LittleNumberReversed(n / 2, width - 1);
      ReverseSnoc(init, n % 2 == 1);
      LowBitFirst(n % 2 == 1, Reverse(init));
      ModDouble(n, Pow2(width - 1));
    }
  }

  lemma {:induction false} ReverseSnoc(bits: seq<bool>, b: bool)
    ensures Reverse(bits + [b]) == [b] + Reverse(bits)
  {
    if bits == [] {
    } else {
      assert (bits + [b])[1..] == bits[1..] + [b];
      ReverseSnoc(bits[1..], b);
    }
  }
}
