/** Physical memory as the processor sees it: a byte at every address.
    Words are little-endian and share their bytes with everything else, so a
    store to a page table and a store to kernel data are the same operation. */
module Memory {
  import opened Words

  type Mem = nat -> byte

  function LoadLE(m: Mem, a: nat, n: nat): nat
    decreases n
  {
    if n == 0 then 0 else m(a) + 256 * LoadLE(m, a + 1, n - 1)
  }

  /** `*(uint64_t *) a` */
  function Word(m: Mem, a: nat): nat { LoadLE(m, a, 8) }

  /** `*(uint64_t *) a = v` */
  function Store(m: Mem, a: nat, v: nat): Mem {
    (x: nat) => if a <= x < a + 8 then ByteOf(v, x - a) else m(x)
  }

  /** memset(a, 0, n) */
  function Clear(m: Mem, a: nat, n: nat): Mem {
    (x: nat) => if a <= x < a + n then 0 else m(x)
  }

  /** memcpy or a firmware read to address a */
  function Copy(m: Mem, a: nat, data: seq<byte>): Mem {
    (x: nat) => if a <= x < a + |data| then data[x - a] else m(x)
  }

  /** n bytes of memory from p on. */
  function Bytes(m: Mem, p: nat, n: nat): seq<byte> { seq(n, i requires 0 <= i => m(p + i)) }

  lemma {:induction false} SameBytesSameValue(m: Mem, m': Mem, a: nat, n: nat)
    requires forall x :: a <= x < a + n ==> m(x) == m'(x)
    ensures LoadLE(m, a, n) == LoadLE(m', a, n)
    decreases n
  {
    if n > 0 { SameBytesSameValue(m, m', a + 1, n - 1); }
  }

  lemma {:induction false} BytesMakeValue(m: Mem, a: nat, v: nat, n: nat)
    requires forall x :: a <= x < a + n ==> m(x) == ByteOf(v, x - a)
    requires v < Pow256(n)
    ensures LoadLE(m, a, n) == v
    decreases n
  {
    if n > 0 {
      forall x | a + 1 <= x < a + n ensures m(x) == ByteOf(v / 256, x - (a + 1)) {
        assert m(x) == ByteOf(v, x - a);
      }
      BytesMakeValue(m, a + 1, v / 256, n - 1);
    }
  }

  function Pow256(n: nat): nat { if n == 0 then 1 else 256 * Pow256(n - 1) }

  lemma StoreLoad(m: Mem, a: nat, v: u64)
    ensures Word(Store(m, a, v), a) == v
  {
    assert Pow256(8) == 0x1_0000_0000_0000_0000 by {
      assert Pow256(4) == 0x1_0000_0000;
      assert Pow256(6) == 0x1_0000_0000_0000;
    }
    BytesMakeValue(Store(m, a, v), a, v, 8);
  }

  lemma StoreElsewhere(m: Mem, a: nat, v: u64, b: nat)
    requires b + 8 <= a || a + 8 <= b
    ensures Word(Store(m, a, v), b) == Word(m, b)
  {
    SameBytesSameValue(Store(m, a, v), m, b, 8);
  }

  lemma {:induction false} ZeroBytes(m: Mem, a: nat, n: nat)
    requires forall x :: a <= x < a + n ==> m(x) == 0
    ensures LoadLE(m, a, n) == 0
    decreases n
  {
    if n > 0 { ZeroBytes(m, a + 1, n - 1); }
  }
}
