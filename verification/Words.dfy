/** Machine words: bytes, 64-bit values, the C bit operators on them and
    their little-endian layout in memory. */
module Words {

  type byte = x: int | 0 <= x < 0x100
  type u16 = x: int | 0 <= x < 0x1_0000
  type u64 = x: int | 0 <= x < 0x1_0000_0000_0000_0000

  datatype Option<+T> = None | Some(value: T)

  function Min(x: int, y: int): int { if x < y then x else y }

  function Pow2(n: nat): nat
    ensures Pow2(n) > 0
  {
    if n == 0 then 1 else 2 * Pow2(n - 1)
  }

  /** The C operator `|`, bit by bit. */
  function Or(x: nat, y: nat): nat
    decreases x + y
  {
    if x == 0 && y == 0 then 0
    else 2 * Or(x / 2, y / 2) + (if x % 2 == 1 || y % 2 == 1 then 1 else 0)
  }

  /** The C operator `&`, bit by bit. */
  function And(x: nat, y: nat): nat
  {
    if x == 0 || y == 0 then 0
    else 2 * And(x / 2, y / 2) + (if x % 2 == 1 && y % 2 == 1 then 1 else 0)
  }

  /** Bits that no operand shares are simply added. */
  lemma {:induction false} OrDisjoint(x: nat, y: nat)
    requires And(x, y) == 0
    ensures Or(x, y) == x + y
    decreases x + y
  {
    if x != 0 || y != 0 {
      OrDisjoint(x / 2, y / 2);
    }
  }

  /** Masking with 2^n - 1 keeps the low n bits. */
  lemma {:induction false} AndLow(x: nat, n: nat)
    ensures And(x, Pow2(n) - 1) == x % Pow2(n)
    decreases n
  {
    if n > 0 {
      hide And;
      var p := Pow2(n - 1);
      AndLow(x / 2, n - 1);
      AndOdd(x, p - 1);
      assert Pow2(n) - 1 == 2 * (p - 1) + 1;
      ModDouble(x, p);
    } else {
      assert Pow2(n) == 1;
    }
  }

  function Shl(x: nat, k: nat): nat { if k == 0 then x else 2 * Shl(x, k - 1) }
  function Shr(x: nat, k: nat): nat { if k == 0 then x else Shr(x / 2, k - 1) }

  /** A mask whose low k bits are clear acts on the operand shifted by k. */
  lemma {:induction false} AndShift(x: nat, m: nat, k: nat)
    ensures And(x, Shl(m, k)) == Shl(And(Shr(x, k), m), k)
    decreases k
  {
    if k > 0 {
      AndDouble(x, Shl(m, k - 1));
      AndShift(x / 2, m, k - 1);
    }
  }

  lemma AndDouble(x: nat, m: nat)
    ensures And(x, 2 * m) == 2 * And(x / 2, m)
  {
  }

  lemma AndOdd(x: nat, m: nat)
    ensures And(x, 2 * m + 1) == 2 * And(x / 2, m) + x % 2
  {
  }

  lemma DivDiv(x: nat, d: nat)
    requires d > 0
    ensures x / (2 * d) == x / 2 / d
  {
    var q, r := x / 2 / d, x / 2 % d;
    assert x / 2 == d * q + r;
    assert x == (2 * d) * q + (2 * r + x % 2);
    DivUnique(x, 2 * d, q, 2 * r + x % 2);
  }

  lemma ModDouble(x: nat, d: nat)
    requires d > 0
    ensures x % (2 * d) == 2 * (x / 2 % d) + x % 2
  {
    var q, r := x / 2 / d, x / 2 % d;
    assert x / 2 == d * q + r;
    assert x == (2 * d) * q + (2 * r + x % 2);
    DivUnique(x, 2 * d, q, 2 * r + x % 2);
  }

  lemma DivUnique(x: int, d: int, q: int, r: int)
    requires d > 0 && x == d * q + r && 0 <= r < d
    ensures x / d == q && x % d == r
  {
    var q', r' := x / d, x % d;
    assert d * (q - q') == r' - r;
    MulBound(d, q - q');
  }

  lemma MulBound(d: int, t: int)
    requires d > 0 && -d < d * t < d
    ensures t == 0
  {
    if t >= 1 { MulMonotone(d, 1, t); } else if t <= -1 { MulMonotone(d, t, -1); }
  }

  lemma MulMonotone(d: int, s: int, t: int)
    requires d > 0 && s <= t
    ensures d * s <= d * t
  {
  }

  lemma {:induction false} AndOverOr(x: nat, y: nat, m: nat)
    ensures And(Or(x, y), m) == Or(And(x, m), And(y, m))
    decreases x + y
  {
    if (x != 0 || y != 0) && m != 0 { AndOverOr(x / 2, y / 2, m / 2); }
  }

  lemma {:induction false} OrBound(x: nat, y: nat, n: nat)
    requires x < Pow2(n) && y < Pow2(n)
    ensures Or(x, y) < Pow2(n)
    decreases n
  {
    if n > 0 { OrBound(x / 2, y / 2, n - 1); }
  }

  lemma {:induction false} OrZero(x: nat)
    ensures Or(x, 0) == x
    decreases x
  {
    if x != 0 { OrZero(x / 2); }
  }

  lemma OrParity(x: nat, y: nat)
    ensures Or(x, y) % 2 == 1 <==> x % 2 == 1 || y % 2 == 1
  {
    EvenPlus(Or(x / 2, y / 2), if x % 2 == 1 || y % 2 == 1 then 1 else 0);
  }

  lemma EvenPlus(k: int, x: int)
    ensures (2 * k + x) % 2 == x % 2
  {
  }

  /** The mask 0x000FFFFFFFFFF000: bits 12 to 51 of a page-table entry. */
  lemma AndAddressMask(x: nat)
    ensures And(x, 0x000F_FFFF_FFFF_F000) == x / 0x1000 % 0x100_0000_0000 * 0x1000
  {
    hide And, Shl, Shr, Pow2;
    AndShift(x, 0xFF_FFFF_FFFF, 12);
    Pow2At12();
    ShlIsTimes(0xFF_FFFF_FFFF, 12);
    ShlIsTimes(And(Shr(x, 12), 0xFF_FFFF_FFFF), 12);
    ShrIsOver(x, 12);
    Pow2At40();
    AndLow(x / 0x1000, 40);
  }

  /** ~2047UL where unsigned long has 64 bits. */
  lemma AndSlotMask64(x: u64)
    ensures And(x, 0xFFFF_FFFF_FFFF_F800) == x - x % 2048
  {
    hide And, Shl, Shr, Pow2;
    AndHighMask(x, 53);
    Pow2At40();
    assert x / 2048 < 0x20_0000_0000_0000;
  }

  /** ~2047UL where unsigned long has 32 bits: the upper half is cut off too. */
  lemma AndSlotMask32(x: u64)
    ensures And(x, 0xFFFF_F800) == x % 0x1_0000_0000 - x % 2048
  {
    hide And, Shl, Shr, Pow2;
    AndHighMask(x, 21);
    Pow2At12();
    var q := x / 2048;
    assert x == 2048 * q + x % 2048 && q == 0x20_0000 * (q / 0x20_0000) + q % 0x20_0000;
    assert x == 0x1_0000_0000 * (q / 0x20_0000) + (2048 * (q % 0x20_0000) + x % 2048);
  }

  lemma AndHighMask(x: nat, n: nat)
    ensures And(x, (Pow2(n) - 1) * 2048) == x / 2048 % Pow2(n) * 2048
  {
    hide And, Shl, Shr, Pow2;
    AndShift(x, Pow2(n) - 1, 11);
    Pow2At12();
    ShlIsTimes(Pow2(n) - 1, 11);
    ShlIsTimes(And(Shr(x, 11), Pow2(n) - 1), 11);
    ShrIsOver(x, 11);
    AndLow(x / 2048, n);
  }

  lemma {:induction false} ShlIsTimes(x: nat, k: nat)
    ensures Shl(x, k) == x * Pow2(k)
    decreases k
  {
    if k > 0 {
      ShlIsTimes(x, k - 1);
      assert x * (2 * Pow2(k - 1)) == 2 * (x * Pow2(k - 1));
    }
  }

  lemma {:induction false} ShrIsOver(x: nat, k: nat)
    ensures Shr(x, k) == x / Pow2(k)
    decreases k
  {
    if k > 0 {
      ShrIsOver(x / 2, k - 1);
      DivDiv(x, Pow2(k - 1));
    }
  }

  lemma Pow2At12()
    ensures Pow2(12) == 0x1000 && Pow2(11) == 0x800 && Pow2(21) == 0x20_0000
  {
    assert Pow2(6) == 64;
    assert Pow2(16) == 0x1_0000;
  }

  lemma Pow2At40()
    ensures Pow2(40) == 0x100_0000_0000 && Pow2(53) == 0x20_0000_0000_0000 && Pow2(64) == 0x1_0000_0000_0000_0000
  {
    assert Pow2(10) == 0x400;
    assert Pow2(20) == 0x10_0000;
    assert Pow2(30) == 0x4000_0000;
    assert Pow2(40) == 0x100_0000_0000;
    assert Pow2(50) == 0x4_0000_0000_0000;
    assert Pow2(60) == 0x1000_0000_0000_0000;
  }

  /** Byte k of a value in little-endian order. */
  function ByteOf(v: nat, k: nat): byte
  {
    if k == 0 then v % 256 else ByteOf(v / 256, k - 1)
  }
}
