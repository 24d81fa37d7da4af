/** The Internet checksum of net/ip6.c: 16-bit words are read as the
    little-endian machine reads them, and the pseudo-header arithmetic of
    section 8.1 of RFC 8200 comes out in network order all the same. */
module Checksum {
  import opened Words

  /** The uint16_t the machine loads from two bytes. */
  function Word16(lo: byte, hi: byte): u16 { lo + 256 * hi }

  function Swap16(w: u16): u16 { w % 256 * 256 + w / 256 }

  /** The plain sum: seed, words, and a last odd byte on its own. */
  function Total(data: seq<byte>, seed: nat): nat {
    if |data| == 0 then seed
    else if |data| == 1 then seed + data[0]
    else Total(data[2..], seed + Word16(data[0], data[1]))
  }

  /** One's-complement reduction to 16 bits: 0 only for 0, else 1..65535. */
  function Fold(total: nat): u16 { if total == 0 then 0 else (total - 1) % 65535 + 1 }

  function OnesSum(data: seq<byte>, seed: nat): u16 { Fold(Total(data, seed)) }

  /** The adding loop and the odd byte, in 32-bit arithmetic. */
  method Accumulate(data: seq<byte>, seed: u16) returns (sum: nat)
    ensures sum == Total(data, seed) % 0x1_0000_0000
  {
    hide Word16;
    sum := seed;
    var pos, len := 0, |data|;
    assert data[0..] == data;
    while len > 1
      invariant 0 <= pos && 0 <= len && pos + len == |data|
      invariant sum < 0x1_0000_0000
      invariant Total(data, seed) % 0x1_0000_0000 == Total(data[pos..], sum) % 0x1_0000_0000
    {
      var word := Word16(data[pos], data[pos + 1]);
      assert data[pos..][2..] == data[pos + 2..];
      TotalWraps(data[pos + 2..], sum + word);
      sum := (sum + word) % 0x1_0000_0000;
      pos, len := pos + 2, len - 2;
    }
    if len != 0 {
      sum := (sum + data[pos]) % 0x1_0000_0000;
    }
  }

  /** checksum(data, len, sum_init) */
  method Compute(data: seq<byte>, seed: u16) returns (r: u16)
    ensures r == Fold(Total(data, seed) % 0x1_0000_0000)
    ensures |data| <= 131072 ==> r == OnesSum(data, seed)
  {
    hide Total;
    var sum := Accumulate(data, seed);
    ghost var unfolded := sum;
    while sum / 0x1_0000 != 0
      invariant Fold(sum) == Fold(unfolded)
      decreases sum
    {
      FoldStep(sum);
      sum := sum % 0x1_0000 + sum / 0x1_0000;
    }
    FoldSmall(sum);
    r := sum;
    if |data| <= 131072 { TotalBound(data, seed); }
  }

  lemma FoldSmall(x: nat)
    requires x / 0x1_0000 == 0
    ensures x < 0x1_0000 && Fold(x) == x
  {
  }

  lemma {:induction false} TotalSeed(data: seq<byte>, seed: nat)
    ensures Total(data, seed) == seed + Total(data, 0)
    decreases |data|
  {
    if |data| > 1 {
      var word := Word16(data[0], data[1]);
      TotalSeed(data[2..], seed + word);
      TotalSeed(data[2..], word);
    }
  }

  lemma TotalWraps(data: seq<byte>, seed: nat)
    ensures Total(data, seed) % 0x1_0000_0000 == Total(data, seed % 0x1_0000_0000) % 0x1_0000_0000
  {
    hide Total;
    TotalSeed(data, seed);
    TotalSeed(data, seed % 0x1_0000_0000);
    AddWraps(seed, Total(data, 0));
  }

  lemma AddWraps(x: nat, y: nat)
    ensures (x + y) % 0x1_0000_0000 == (x % 0x1_0000_0000 + y) % 0x1_0000_0000
  {
    var q, r := x / 0x1_0000_0000, x % 0x1_0000_0000;
    assert x + y == 0x1_0000_0000 * (q + (r + y) / 0x1_0000_0000) + (r + y) % 0x1_0000_0000;
    DivUnique(x + y, 0x1_0000_0000, q + (r + y) / 0x1_0000_0000, (r + y) % 0x1_0000_0000);
  }

  /** Up to 131072 bytes the accumulator cannot overflow: the largest possible
      sum is exactly 2^32 - 1. */
  lemma {:induction false} TotalBound(data: seq<byte>, seed: nat)
    ensures Total(data, seed) <= seed + 65535 * ((|data| + 1) / 2)
    ensures seed < 0x1_0000 && |data| <= 131072 ==> Total(data, seed) < 0x1_0000_0000
    decreases |data|
  {
    if |data| > 1 { TotalBound(data[2..], seed + Word16(data[0], data[1])); }
  }

  lemma FoldStep(sum: nat)
    requires sum >= 0x1_0000
    ensures var next := sum % 0x1_0000 + sum / 0x1_0000; 0 < next < sum && Fold(next) == Fold(sum)
  {
    var next := sum % 0x1_0000 + sum / 0x1_0000;
    assert sum == next + 65535 * (sum / 0x1_0000);
    Congruent(next - 1, sum - 1, sum / 0x1_0000);
  }

  lemma Congruent(x: int, y: int, k: int)
    requires y == x + 65535 * k
    ensures x % 65535 == y % 65535
  {
    assert y == 65535 * (x / 65535 + k) + x % 65535;
  }

  /** Two reductions agree when the sums agree modulo 65535 and vanish together. */
  lemma FoldCongruent(x: nat, y: nat)
    requires x % 65535 == y % 65535 && (x == 0 <==> y == 0)
    ensures Fold(x) == Fold(y)
  {
    if x != 0 {
      var k := y / 65535 - x / 65535;
      assert y == x + 65535 * k;
      Congruent(x - 1, y - 1, k);
    }
  }

  lemma FoldIsCongruent(x: nat)
    ensures Fold(x) % 65535 == x % 65535 && (Fold(x) == 0 <==> x == 0)
  {
    if x != 0 {
      assert x == Fold(x) + 65535 * ((x - 1) / 65535);
      Congruent(Fold(x), x, (x - 1) / 65535);
    }
  }

  /** The reduction is all ones exactly for the positive multiples of 65535. */
  lemma FoldAllOnes(x: nat)
    requires x > 0
    ensures Fold(x) == 0xFFFF <==> x % 65535 == 0
    ensures Fold(x) >= 0xFF00 <==> x % 65535 == 0 || x % 65535 >= 0xFF00
  {
    hide Fold;
    FoldIsCongruent(x);
    FoldRange(x);
  }

  lemma FoldRange(x: nat)
    requires x > 0
    ensures 1 <= Fold(x) <= 65535
  {
  }

  lemma FoldAdd(x: nat, y: nat)
    ensures Fold(Fold(x) + y) == Fold(x + y)
  {
    FoldIsCongruent(x);
    assert x == 65535 * (x / 65535) + x % 65535;
    assert Fold(x) == 65535 * (Fold(x) / 65535) + x % 65535;
    Congruent(Fold(x) + y, x + y, x / 65535 - Fold(x) / 65535);
    FoldCongruent(Fold(x) + y, x + y);
  }

  /** The sum is 0 only when seed and data are all zero. */
  lemma {:induction false} ZeroOnlyForZeros(data: seq<byte>, seed: nat)
    ensures OnesSum(data, seed) == 0 <==> seed == 0 && forall b <- data :: b == 0
    decreases |data|
  {
    FoldIsCongruent(Total(data, seed));
    TotalZero(data, seed);
  }

  lemma {:induction false} TotalZero(data: seq<byte>, seed: nat)
    ensures Total(data, seed) == 0 <==> seed == 0 && forall b <- data :: b == 0
    decreases |data|
  {
    if |data| > 1 {
      TotalZero(data[2..], seed + Word16(data[0], data[1]));
      assert data[0] in data && data[1] in data && forall b <- data[2..] :: b in data;
      assert forall b <- data :: b == data[0] || b == data[1] || b in data[2..] by {
        assert data == [data[0], data[1]] + data[2..];
      }
    } else if |data| == 1 {
      assert data == [data[0]] && data[0] in data;
    }
  }

  lemma TotalOfTwo(lo: byte, hi: byte, seed: nat)
    ensures Total([lo, hi], seed) == seed + Word16(lo, hi)
  {
    assert [lo, hi][2..] == [];
  }

  lemma {:induction false} TotalConcat(a: seq<byte>, b: seq<byte>, seed: nat)
    requires |a| % 2 == 0
    ensures Total(a + b, seed) == Total(b, Total(a, seed))
    decreases |a|
  {
    if |a| == 0 {
      assert a + b == b;
    } else {
      assert (a + b)[2..] == a[2..] + b;
      TotalConcat(a[2..], b, seed + Word16(a[0], a[1]));
    }
  }

  /** Summing in two calls, the first over an even number of bytes. */
  lemma Chain(a: seq<byte>, b: seq<byte>, seed: nat)
    requires |a| % 2 == 0
    ensures OnesSum(b, OnesSum(a, seed)) == OnesSum(a + b, seed)
  {
    TotalConcat(a, b, seed);
    TotalSeed(b, OnesSum(a, seed));
    TotalSeed(b, Total(a, seed));
    FoldAdd(Total(a, seed), Total(b, 0));
  }

  // ------------------------------------------------------------------ byte order

  /** The same words with their bytes exchanged; an odd end is padded with zero. */
  function SwapWords(data: seq<byte>): seq<byte> {
    if |data| == 0 then []
    else if |data| == 1 then [0, data[0]]
    else [data[1], data[0]] + SwapWords(data[2..])
  }

  lemma {:induction false} SwapTotal(data: seq<byte>, seed: nat, seed': nat)
    requires seed' % 65535 == 256 * seed % 65535 && (seed == 0 <==> seed' == 0)
    ensures Total(SwapWords(data), seed') % 65535 == 256 * Total(data, seed) % 65535
    ensures Total(data, seed) == 0 <==> Total(SwapWords(data), seed') == 0
    decreases |data|
  {
    hide Swap16;
    if |data| == 1 {
      SwapBytes(data[0], 0);
      SwapStep(seed, seed', Word16(data[0], 0));
      assert SwapWords(data)[2..] == [];
    } else if |data| > 1 {
      var w, w' := Word16(data[0], data[1]), Word16(data[1], data[0]);
      assert SwapWords(data)[2..] == SwapWords(data[2..]);
      SwapBytes(data[0], data[1]);
      SwapStep(seed, seed', w);
      SwapTotal(data[2..], seed + w, seed' + w');
    }
  }

  lemma SwapBytes(lo: byte, hi: byte)
    ensures Swap16(Word16(lo, hi)) == Word16(hi, lo)
  {
    DivUnique(Word16(lo, hi), 256, hi, lo);
  }

  lemma SwapStep(seed: nat, seed': nat, w: u16)
    requires seed' % 65535 == 256 * seed % 65535
    ensures (seed' + Swap16(w)) % 65535 == 256 * (seed + w) % 65535
  {
    assert 256 * w == Swap16(w) + 65535 * (w / 256);
    var k := seed' / 65535 - 256 * seed / 65535;
    assert seed' == 256 * seed + 65535 * k;
    Congruent(256 * (seed + w), seed' + Swap16(w), k - w / 256);
  }

  /** Section 2 of RFC 1071: exchanging the bytes of every word and of the seed
      exchanges the bytes of the sum. */
  lemma ByteOrder(data: seq<byte>, seed: u16)
    ensures OnesSum(SwapWords(data), Swap16(seed)) == Swap16(OnesSum(data, seed))
  {
    hide Total, SwapWords, Fold, Swap16;
    var t := Total(data, seed);
    var s := Total(SwapWords(data), Swap16(seed));
    SwapZero(seed);
    SwapZero(Fold(t));
    SwapStep(0, 0, seed);
    SwapStep(0, 0, Fold(t));
    SwapTotal(data, seed, Swap16(seed));
    FoldIsCongruent(t);
    Times256(Fold(t), t);
    FoldCongruent(s, Swap16(Fold(t)));
    FoldSmall(Swap16(Fold(t)));
  }

  lemma SwapZero(w: u16)
    ensures Swap16(w) == 0 <==> w == 0
  {
  }

  lemma Times256(x: nat, y: nat)
    requires x % 65535 == y % 65535
    ensures 256 * x % 65535 == 256 * y % 65535
  {
    var k := y / 65535 - x / 65535;
    assert y == x + 65535 * k;
    Congruent(256 * x, 256 * y, 256 * k);
  }
}
