/** The Internet checksum transform (section 1 of RFC 1071), on a little-endian host: words are
    read from the buffer in host order, the generated field is converted to network order and
    then printed big-endian. */
module Checksum {
  import opened Bits

  function Word(data: seq<byte>, k: nat): nat
    requires 2 * k + 1 < |data|
  {
    data[2 * k] as nat + 256 * (data[2 * k + 1] as nat)
  }

  /** The sum of the first n words. */
  function Sum(data: seq<byte>, n: nat): (s: nat)
    requires 2 * n <= |data|
    ensures s <= 65535 * n
  {
    if n == 0 then 0 else Sum(data, n - 1) + Word(data, n - 1)
  }

  const WORD32: nat := 0x1_0000_0000

  /** Adding the carries back in until none is left. */
  function Fold(x: nat): nat
    decreases x
  {
    if x / 65536 == 0 then x else Fold(x % 65536 + x / 65536)
  }

  lemma {:induction false} FoldKeepsSum(x: nat)
    ensures Fold(x) < 65536 && Fold(x) % 65535 == x % 65535 && (Fold(x) == 0 <==> x == 0)
    decreases x
  {
    if x / 65536 != 0 {
      var y := x % 65536 + x / 65536;
      FoldKeepsSum(y);
      assert x == 65535 * (y / 65535 + x / 65536) + y % 65535;
      ModUnique(x, 65535, y / 65535 + x / 65536, y % 65535);
    }
  }

  /** Folding gives 0xFFFF exactly for the positive multiples of 65535. */
  lemma FoldsToOnes(x: nat)
    ensures Fold(x) == 0xFFFF <==> x > 0 && x % 65535 == 0
  {
    FoldKeepsSum(x);
  }

  lemma FoldStep(x: nat)
    ensures Fold(x) == if x / 65536 == 0 then x else Fold(x % 65536 + x / 65536)
  {
  }

  lemma AddWord(s: nat, w: nat)
    ensures (s % WORD32 + w) % WORD32 == (s + w) % WORD32
  {
  }

  method FoldedSum(data: array<byte>, n: nat) returns (c: nat)
    requires 2 * n <= data.Length
    ensures c == Fold(Sum(data[..], n) % WORD32)
  {
    hide Fold;
    var checksum: nat, k: nat := 0, 0;
    while k < n
      invariant k <= n && checksum == Sum(data[..], k) % WORD32
    {
      AddWord(Sum(data[..], k), Word(data[..], k));
      checksum := (checksum + (data[2 * k] as nat + 256 * (data[2 * k + 1] as nat))) % WORD32;
      k := k + 1;
    }
    while checksum / 65536 != 0
      invariant Fold(checksum) == Fold(Sum(data[..], n) % WORD32)
      decreases checksum
    {
      FoldStep(checksum);
      checksum := checksum % 65536 + checksum / 65536;
    }
    FoldStep(checksum);
    c := checksum;
  }

  /** The parsing transform: true when the C function returns 0, which it does exactly when the sum
      of the words, in network order, is a positive multiple of 65535. */
  method ChecksumParse(data: array<byte>) returns (ok: bool)
    ensures ok == Verifies(data[..])
    ensures data.Length / 2 <= MOST_WORDS ==> (ok <==> Closed(NetworkSum(data[..], data.Length / 2)))
  {
    var c := FoldedSum(data, data.Length / 2);
    ok := c == 0xFFFF;
    if data.Length / 2 <= MOST_WORDS { VerifiesWhen(data[..]); }
  }

  predicate Verifies(data: seq<byte>) {
    Fold(Sum(data, |data| / 2) % WORD32) == 0xFFFF
  }

  function Htons(x: nat): nat
    requires x < 65536
  {
    x % 256 * 256 + x / 256
  }

  /** The generating transform, over the first `pos` bytes: the value for the checksum field. */
  method ChecksumGenerate(data: array<byte>, pos: nat) returns (field: nat)
    requires pos <= data.Length
    ensures field == Generated(data[..pos])
    ensures pos / 2 <= MOST_WORDS ==> field == 65535 - Fold(NetworkSum(data[..pos], pos / 2))
  {
    var c := FoldedSum(data, pos / 2);
    SumOfPrefix(data[..], data[..pos], pos / 2);
    FoldKeepsSum(Sum(data[..pos], pos / 2) % WORD32);
    field := Htons(65535 - c);
    if pos / 2 <= MOST_WORDS { GeneratedIs(data[..pos]); }
  }

  function Generated(data: seq<byte>): nat {
    FoldKeepsSum(Sum(data, |data| / 2) % WORD32);
    Htons(65535 - Fold(Sum(data, |data| / 2) % WORD32))
  }

  lemma {:induction false} SumOfPrefix(data: seq<byte>, prefix: seq<byte>, n: nat)
    requires prefix <= data && 2 * n <= |prefix|
    ensures Sum(data, n) == Sum(prefix, n)
  {
    if n > 0 { SumOfPrefix(data, prefix, n - 1); }
  }

  /** A 16-bit field printed big-endian at byte `at`. */
  function Store(data: seq<byte>, at: nat, field: nat): (r: seq<byte>)
    requires at + 1 < |data| && field < 65536
    ensures |r| == |data|
  {
    data[at := field / 256][at + 1 := field % 256]
  }

  // The same words in network order. The checksum does not depend on the order of the bytes
  // (section 2 of RFC 1071), so what the code decides can be said without the host's.

  function NetworkWord(data: seq<byte>, k: nat): (w: nat)
    requires 2 * k + 1 < |data|
    ensures w < 65536
  {
    256 * (data[2 * k] as nat) + data[2 * k + 1] as nat
  }

  function NetworkSum(data: seq<byte>, n: nat): (s: nat)
    requires 2 * n <= |data|
    ensures s <= 65535 * n
  {
    if n == 0 then 0 else NetworkSum(data, n - 1) + NetworkWord(data, n - 1)
  }

  /** With more words than this the 32-bit accumulator can overflow. */
  const MOST_WORDS: nat := 65537

  predicate Closed(sum: nat) {
    sum > 0 && sum % 65535 == 0
  }

  /** Reading the words in the other order multiplies the sum by 256, in either direction. */
  lemma {:induction false} OtherOrder(data: seq<byte>, n: nat)
    requires 2 * n <= |data|
    ensures (256 * Sum(data, n)) % 65535 == NetworkSum(data, n) % 65535
    ensures Sum(data, n) == 0 <==> NetworkSum(data, n) == 0
  {
    if n > 0 {
      OtherOrder(data, n - 1);
      var s, t, lo, hi := Sum(data, n - 1), NetworkSum(data, n - 1), data[2 * n - 2] as nat, data[2 * n - 1] as nat;
      assert 256 * (s + (lo + 256 * hi)) == 256 * s + (256 * lo + hi) + 65535 * hi;
      DropMultiple(256 * s + (256 * lo + hi), hi);
      AddCongruent(256 * s, t, 256 * lo + hi);
    }
  }

  lemma DropMultiple(x: nat, k: nat)
    ensures (x + 65535 * k) % 65535 == x % 65535
  {
    ModUnique(x + 65535 * k, 65535, x / 65535 + k, x % 65535);
  }

  lemma AddCongruent(x: nat, y: nat, z: nat)
    requires x % 65535 == y % 65535
    ensures (x + z) % 65535 == (y + z) % 65535
  {
    DropMultiple(x % 65535 + z, x / 65535);
    DropMultiple(y % 65535 + z, y / 65535);
  }

  lemma TwiceTimes256(x: nat)
    ensures (256 * (256 * x)) % 65535 == x % 65535
  {
    DropMultiple(x, x);
  }

  lemma Times256(x: nat)
    ensures (256 * x) % 65535 == (256 * (x % 65535)) % 65535
  {
    var q := x / 65535;
    assert 256 * x == 256 * (x % 65535) + 65535 * (256 * q);
    DropMultiple(256 * (x % 65535), 256 * q);
  }

  /** What verifies, in numbers. */
  lemma VerifiesWhen(data: seq<byte>)
    requires |data| / 2 <= MOST_WORDS
    ensures Verifies(data) <==> Closed(NetworkSum(data, |data| / 2))
  {
    hide Fold, Sum, NetworkSum;
    var s, t := Sum(data, |data| / 2), NetworkSum(data, |data| / 2);
    assert s % WORD32 == s;
    FoldsToOnes(s);
    OtherOrder(data, |data| / 2);
    Times256(s);
    TwiceTimes256(s);
    Times256(256 * s);
  }

  lemma SwapTimes256(x: nat)
    requires x < 65536
    ensures Htons(x) < 65536 && Htons(x) % 65535 == (256 * x) % 65535 && (Htons(x) == 0 <==> x == 0)
  {
    assert 256 * x == Htons(x) + 65535 * (x / 256);
    DropMultiple(Htons(x), x / 256);
  }

  /** A folded sum is the only number of 16 bits with its remainder that is zero just when the sum
      is. */
  lemma FoldedIsUnique(x: nat, y: nat)
    requires x < 65536 && y < 65536 && x % 65535 == y % 65535 && (x == 0 <==> y == 0)
    ensures x == y
  {
  }

  lemma ComplementSwapped(x: nat)
    requires x < 65536
    ensures Htons(x) < 65536 && Htons(65535 - x) == 65535 - Htons(x)
  {
  }

  /** Folding does not depend on the byte order. */
  lemma FoldOtherOrder(s: nat, t: nat)
    requires (256 * s) % 65535 == t % 65535 && (s == 0 <==> t == 0)
    ensures Fold(s) < 65536 && Htons(Fold(s)) == Fold(t)
  {
    FoldKeepsSum(s);
    FoldKeepsSum(t);
    hide Fold;
    Times256(s);
    Times256(Fold(s));
    SwapTimes256(Fold(s));
    hide Htons;
    FoldedIsUnique(Htons(Fold(s)), Fold(t));
  }

  /** The generated field is the complement of the folded sum of the words in network order. */
  lemma GeneratedIs(data: seq<byte>)
    requires |data| / 2 <= MOST_WORDS
    ensures Generated(data) == 65535 - Fold(NetworkSum(data, |data| / 2))
  {
    hide Fold, Htons, Sum, NetworkSum;
    var s := Sum(data, |data| / 2);
    assert s % WORD32 == s;
    OtherOrder(data, |data| / 2);
    FoldOtherOrder(s, NetworkSum(data, |data| / 2));
    ComplementSwapped(Fold(s));
  }

  /** Writing another word into the buffer exchanges it in the sum. */
  lemma {:induction false} SumAfterStore(data: seq<byte>, f: nat, word: nat, n: nat)
    requires 2 * n <= |data| && 2 * f + 1 < |data| && word < 65536
    ensures NetworkSum(Store(data, 2 * f, word), n) + (if f < n then NetworkWord(data, f) else 0)
         == NetworkSum(data, n) + (if f < n then word else 0)
  {
    if n > 0 {
      SumAfterStore(data, f, word, n - 1);
      StoredWord(data, f, word, n - 1);
    }
  }

  lemma StoredWord(data: seq<byte>, f: nat, word: nat, k: nat)
    requires 2 * k + 1 < |data| && 2 * f + 1 < |data| && word < 65536
    ensures NetworkWord(Store(data, 2 * f, word), k) == if k == f then word else NetworkWord(data, k)
  {
  }

  /** Which fields close the checksum: exactly those that complete the sum of the other words to a
      positive multiple of 65535. */
  lemma FieldVerifiesWhen(data: seq<byte>, f: nat, field: nat)
    requires 2 * f + 1 < |data| && |data| / 2 <= MOST_WORDS && field < 65536
    requires data[2 * f] == 0 && data[2 * f + 1] == 0
    ensures Verifies(Store(data, 2 * f, field)) <==> Closed(NetworkSum(data, |data| / 2) + field)
  {
    VerifiesWhen(Store(data, 2 * f, field));
    SumAfterStore(data, f, field, |data| / 2);
    hide Verifies, Store, NetworkSum;
  }

  /** What changing one word does to a buffer that verifies: it goes unnoticed exactly when the new
      word has the same remainder modulo 65535 and something is left of the sum. */
  lemma ChangeUnnoticedWhen(data: seq<byte>, f: nat, word: nat)
    requires 2 * f + 1 < |data| && |data| / 2 <= MOST_WORDS && word < 65536 && Verifies(data)
    ensures var changed := Store(data, 2 * f, word);
            Verifies(changed) <==>
              word % 65535 == NetworkWord(data, f) % 65535 && NetworkSum(changed, |data| / 2) > 0
  {
    var changed, n := Store(data, 2 * f, word), |data| / 2;
    VerifiesWhen(data);
    VerifiesWhen(changed);
    SumAfterStore(data, f, word, n);
    hide Verifies, Store, NetworkSum, NetworkWord;
    var s, t, w := NetworkSum(data, n), NetworkSum(changed, n), NetworkWord(data, f);
    assert t + w == s + word;
    ExchangeKeeps(s, t, w, word);
  }

  lemma ExchangeKeeps(s: nat, t: nat, w: nat, word: nat)
    requires t + w == s + word && s % 65535 == 0
    ensures t % 65535 == 0 <==> word % 65535 == w % 65535
  {
    DropMultiple(word, s / 65535);
    if t % 65535 == 0 { DropMultiple(w, t / 65535); }
    if word % 65535 == w % 65535 {
      var d := if word >= w then word / 65535 - w / 65535 else w / 65535 - word / 65535;
      if word >= w {
        assert t == s + 65535 * d;
        DropMultiple(s, d);
      } else {
        assert s == t + 65535 * d;
        DropMultiple(t, d);
      }
    }
  }

  /** The checksum closes: storing the generated field in the zeroed word makes the buffer
      verify. */
  lemma ChecksumCloses(data: seq<byte>, f: nat)
    requires 2 * f + 1 < |data| && |data| / 2 <= MOST_WORDS
    requires data[2 * f] == 0 && data[2 * f + 1] == 0
    ensures Generated(data) < 65536 && Verifies(Store(data, 2 * f, Generated(data)))
  {
    var sum := NetworkSum(data, |data| / 2);
    GeneratedIs(data);
    FoldKeepsSum(sum);
    FieldVerifiesWhen(data, f, 65535 - Fold(sum));
    hide Fold, Verifies, NetworkSum;
    ComplementCloses(sum, Fold(sum));
  }

  lemma ComplementCloses(sum: nat, c: nat)
    requires c < 65536 && c % 65535 == sum % 65535 && (c == 0 <==> sum == 0)
    ensures Closed(sum + (65535 - c))
  {
    assert sum + (65535 - c) == (sum - sum % 65535) + (65535 - (c - c % 65535));
  }
}
