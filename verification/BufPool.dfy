/** The transmit buffers (net/bufpool.c): four 2 KiB slots whose first word
    links them into a free list. */
module BufPool {
  import opened Words
  import opened Memory
  import opened Frames

  const SLOT: nat := 2048

  /** ~2047UL. The build targets Windows COFF, where unsigned long has 32 bits. */
  const MASK32: nat := 0xFFFF_F800
  const MASK64: nat := 0xFFFF_FFFF_FFFF_F800

  function Slots(phys: nat): set<nat> { {phys, phys + 2048, phys + 4096, phys + 6144} }

  /** `data & ~2047UL` */
  function SlotOf(mask: nat, data: u64): nat { And(data, mask) }

  /** The pool lies where the mask can reach. */
  predicate Reachable(mask: nat, phys: nat) {
    (mask == MASK32 || mask == MASK64) && phys > 0 && phys % 0x1000 == 0 && phys + 8192 <= mask + 2048
  }

  ghost predicate Distinct(s: seq<nat>) { forall i, j :: 0 <= i < j < |s| ==> s[i] != s[j] }

  /** The links in memory spell out the list. */
  ghost predicate Linked(m: Mem, free: seq<nat>) {
    forall i :: 0 <= i < |free| ==> Word(m, free[i]) == Next(free, i + 1)
  }

  ghost function Next(free: seq<nat>, i: nat): nat { if i < |free| then free[i] else 0 }

  lemma SlotAligned(phys: nat, slot: nat)
    requires phys % 0x1000 == 0 && slot in Slots(phys)
    ensures slot % SLOT == 0
  {
    var k := phys / 0x1000;
    assert phys == 2048 * (2 * k);
    SlotMultiple(2 * k);
    SlotMultiple(2 * k + 1);
    SlotMultiple(2 * k + 2);
    SlotMultiple(2 * k + 3);
  }

  lemma SlotMultiple(k: nat)
    ensures 2048 * k % 2048 == 0
  {
  }

  /** The two masks on a pointer into an aligned slot. */
  lemma MaskedPointer(slot: nat, offset: nat)
    requires slot % SLOT == 0 && offset < SLOT && slot + offset < 0x1_0000_0000_0000_0000
    ensures SlotOf(MASK64, slot + offset) == slot
    ensures SlotOf(MASK32, slot + offset) == slot % 0x1_0000_0000
  {
    hide And;
    AndSlotMask64(slot + offset);
    AndSlotMask32(slot + offset);
    assert slot == 2048 * (slot / SLOT);
    SlotDigits(slot / SLOT, offset);
  }

  lemma SlotDigits(k: nat, offset: nat)
    requires offset < 2048
    ensures (2048 * k + offset) % 2048 == offset
    ensures (2048 * k + offset) % 0x1_0000_0000 == 2048 * k % 0x1_0000_0000 + offset
  {
    var q, r := k / 0x20_0000, k % 0x20_0000;
    assert 2048 * k == 0x1_0000_0000 * q + 2048 * r;
    DivUnique(2048 * k, 0x1_0000_0000, q, 2048 * r);
    DivUnique(2048 * k + offset, 0x1_0000_0000, q, 2048 * r + offset);
    DivUnique(2048 * k + offset, 2048, k, offset);
  }

  /** A data pointer into a slot leads back to the slot. */
  lemma Masking(mask: nat, phys: u64, slot: nat, offset: nat)
    requires Reachable(mask, phys) && slot in Slots(phys) && offset < SLOT
    ensures slot + offset < 0x1_0000_0000_0000_0000 && SlotOf(mask, slot + offset) == slot
  {
    hide SlotOf;
    SlotAligned(phys, slot);
    MaskedPointer(slot, offset);
  }

  /** With the 32-bit mask of the build this is so exactly below 4 GiB. */
  lemma MaskingExact(phys: u64, slot: nat, offset: nat)
    requires phys % 0x1000 == 0 && phys + 8192 <= 0x1_0000_0000_0000_0000 && slot in Slots(phys) && offset < SLOT
    ensures SlotOf(MASK64, slot + offset) == slot
    ensures SlotOf(MASK32, slot + offset) == slot <==> slot < 0x1_0000_0000
  {
    hide SlotOf;
    SlotAligned(phys, slot);
    MaskedPointer(slot, offset);
  }

  /** One such pool, at 4 GiB: the pointer to a buffer leads to address 0. */
  lemma MaskingExample()
    ensures SlotOf(MASK32, 0x1_0000_0000 + 8) == 0
  {
    hide SlotOf;
    MaskedPointer(0x1_0000_0000, 8);
  }

  lemma SlotsApart(phys: nat, s: nat, t: nat)
    requires s in Slots(phys) && t in Slots(phys) && s != t
    ensures s + SLOT <= t || t + SLOT <= s
  {
  }

  /** Writing inside one slot leaves the links of the others alone. */
  lemma LinksElsewhere(m: Mem, m': Mem, phys: nat, free: seq<nat>, slot: nat)
    requires Linked(m, free) && slot in Slots(phys) && slot !in free && forall s <- free :: s in Slots(phys)
    requires forall x: nat :: !(slot <= x < slot + SLOT) ==> m'(x) == m(x)
    ensures Linked(m', free)
  {
    forall i | 0 <= i < |free| ensures Word(m', free[i]) == Word(m, free[i]) {
      SlotsApart(phys, free[i], slot);
      SameBytesSameValue(m', m, free[i], 8);
    }
  }

  /** Nothing but the link word of one slot differs, so the frames in slots the NIC
      is still sending stay as they are. */
  ghost predicate LinkOnly(m: Mem, m': Mem, slot: nat) {
    forall x: nat :: !(slot <= x < slot + 8) ==> m'(x) == m(x)
  }

  /** Nothing differs outside one slot. */
  ghost predicate SlotOnly(m: Mem, m': Mem, slot: nat) {
    forall x: nat :: !(slot <= x < slot + SLOT) ==> m'(x) == m(x)
  }

  /** The frames at the NIC are still in their slots, byte for byte. */
  ghost predicate InFlight(m: Mem, phys: nat, nic: map<nat, seq<byte>>) {
    forall s <- nic :: s in Slots(phys) && 8 + |nic[s]| <= SLOT && Bytes(m, s + 8, |nic[s]|) == nic[s]
  }

  /** Work on another slot leaves them alone. */
  lemma StillInFlight(m: Mem, m': Mem, phys: nat, nic: map<nat, seq<byte>>, slot: nat)
    requires InFlight(m, phys, nic) && slot in Slots(phys) && slot !in nic && SlotOnly(m, m', slot)
    ensures InFlight(m', phys, nic)
  {
    hide Slots;
    forall s <- nic ensures Bytes(m', s + 8, |nic[s]|) == nic[s] {
      SlotsApart(phys, s, slot);
      SameBytes(m, m', s + 8, |nic[s]|);
    }
  }

  lemma SameBytes(m: Mem, m': Mem, p: nat, n: nat)
    requires forall x | p <= x < p + n :: m'(x) == m(x)
    ensures Bytes(m', p, n) == Bytes(m, p, n)
  {
  }

  lemma StoreLink(m: Mem, slot: nat, v: nat)
    ensures LinkOnly(m, Store(m, slot, v), slot)
  {
  }

  class Pool {
    var mem: Mem
    const mask: nat
    const phys: u64
    var head: nat
    var avail: nat
    var nic: set<nat>
    ghost var free: seq<nat>
    ghost var held: set<nat>

    ghost predicate Listed()
      reads this
    {
      && Reachable(mask, phys)
      && (forall s <- free :: s in Slots(phys))
      && Distinct(free) && Linked(mem, free)
      && head == Next(free, 0) && avail == |free|
    }

    /** Every slot is in exactly one place: the free list, the NIC, or a sender's hands. */
    ghost predicate Valid()
      reads this
    {
      && Listed()
      && (forall s :: s in Slots(phys) <==> s in free || s in nic || s in held)
      && nic !! held && (forall s <- free :: s !in nic && s !in held)
    }

    /** net_bufpool_init: the slots are returned one by one to an empty list. */
    constructor (mem: Mem, mask: nat, phys: u64)
      requires Reachable(mask, phys)
      ensures Valid() && this.phys == phys && nic == {} && held == {} && |free| == 4
    {
      this.mem, this.mask, this.phys, this.head, this.avail, this.nic := mem, mask, phys, 0, 0, {};
      this.free, this.held := [], Slots(phys);
      new;
      Fill();
    }

    method Fill()
      requires Valid() && free == [] && nic == {}
      modifies this`mem, this`head, this`avail, this`nic, this`free, this`held
      ensures Valid() && nic == {} && held == {} && |free| == 4
    {
      hide SlotOf, Word, Linked, Next;
      for i := 0 to 4
        invariant Valid() && nic == {} && |free| == i
        invariant (forall s <- free :: s < phys + i * SLOT) && (forall s <- held :: s >= phys + i * SLOT)
      {
        var slot := phys + i * SLOT;
        assert slot in Slots(phys) && slot !in free;
        Masking(mask, phys, slot, 0);
        Return(slot);
      }
    }

    /** net_bufpool_return, for a pointer into a slot that is not free. */
    method Return(data: u64)
      requires Valid() && SlotOf(mask, data) in nic + held
      modifies this`mem, this`head, this`avail, this`nic, this`free, this`held
      ensures Valid() && free == [SlotOf(mask, data)] + old(free)
      ensures nic == old(nic) - {SlotOf(mask, data)} && held == old(held) - {SlotOf(mask, data)}
      ensures LinkOnly(old(mem), mem, SlotOf(mask, data))
    {
      hide SlotOf, Linked, Distinct, Store, Slots, Reachable;
      var buf := SlotOf(mask, data);
      PushFree(mem, mask, phys, free, buf);
      StoreLink(mem, buf, head);
      mem := Store(mem, buf, head);
      avail := avail + 1;
      head := buf;
      free := [buf] + free;
      nic, held := nic - {buf}, held - {buf};
    }

    /** net_bufpool_get */
    method Get(size: nat) returns (data: Option<nat>)
      requires Valid()
      modifies this`mem, this`head, this`avail, this`free, this`held
      ensures Valid() && nic == old(nic)
      ensures size > ETH_MTU || old(free) == [] ==> data == None && free == old(free) && held == old(held) && mem == old(mem)
      ensures size <= ETH_MTU && old(free) != [] ==>
        && data == Some(old(free)[0] + 8) && free == old(free)[1..] && held == old(held) + {old(free)[0]}
        && LinkOnly(old(mem), mem, old(free)[0])
    {
      hide Word, Slots, Linked, Distinct, Reachable, Store;
      if size > ETH_MTU { return None; }
      if head == 0 {
        SlotsPositive(mask, phys, free);
        return None;
      }
      var buf := head;
      FirstLink(mem, free);
      head := Word(mem, buf);
      free := free[1..];
      held := held + {buf};
      ListTail(mem, old(free));
      StoreInside(mem, buf, 0);
      StoreLink(mem, buf, 0);
      LinksElsewhere(mem, Store(mem, buf, 0), phys, free, buf);
      mem := Store(mem, buf, 0);
      avail := avail - 1;
      return Some(buf + 8);
    }

    /** memcpy into the buffer p of a held slot. */
    method Put(p: nat, at: nat, data: seq<byte>, ghost slot: nat)
      requires Valid() && slot in held && p == slot + 8 && 8 + at + |data| <= SLOT
      modifies this`mem
      ensures Valid() && mem == Copy(old(mem), p + at, data) && SlotOnly(old(mem), mem, slot)
      ensures Bytes(mem, p, at + |data|) == old(Bytes(mem, p, at)) + data
    {
      BytesAppended(mem, p, at, data);
      LinksElsewhere(mem, Copy(mem, p + at, data), phys, free, slot);
      mem := Copy(mem, p + at, data);
    }

    /** The NIC has accepted the buffer. */
    method Transmitted(p: nat, slot: nat)
      requires Valid() && slot in held && p == slot + 8
      modifies this`nic, this`held
      ensures Valid() && nic == old(nic) + {slot} && held == old(held) - {slot}
    {
      hide Slots, Linked, Distinct, Reachable, Next;
      nic, held := nic + {slot}, held - {slot};
    }
  }

  lemma BytesAppended(m: Mem, p: nat, at: nat, data: seq<byte>)
    ensures Bytes(Copy(m, p + at, data), p, at + |data|) == Bytes(m, p, at) + data
  {
  }

  /** Storing a 16-bit value into a frame of n bytes, perhaps across its end. */
  lemma BytesPatched(m: Mem, p: nat, at: nat, w: u16, n: nat)
    ensures Bytes(Copy(m, p + at, Little16(w)), p, n) == Patch(Bytes(m, p, n), at, w)
  {
  }

  lemma FirstLink(m: Mem, free: seq<nat>)
    requires Linked(m, free) && free != []
    ensures Word(m, free[0]) == Next(free, 1)
  {
  }

  lemma StoreInside(m: Mem, a: nat, v: nat)
    ensures forall x: nat :: !(a <= x < a + SLOT) ==> Store(m, a, v)(x) == m(x)
  {
  }

  lemma SlotsPositive(mask: nat, phys: nat, free: seq<nat>)
    requires Reachable(mask, phys) && (forall s <- free :: s in Slots(phys)) && Next(free, 0) == 0
    ensures free == []
  {
    assert free != [] ==> free[0] in Slots(phys);
  }

  /** A slot stored in front of the list. */
  lemma PushFree(m: Mem, mask: nat, phys: nat, free: seq<nat>, buf: nat)
    requires Reachable(mask, phys) && buf in Slots(phys) && buf !in free && (forall s <- free :: s in Slots(phys))
    requires Linked(m, free) && Distinct(free)
    ensures Linked(Store(m, buf, Next(free, 0)), [buf] + free) && Distinct([buf] + free)
  {
    hide Word;
    var m' := Store(m, buf, Next(free, 0));
    LinksElsewhere(m, m', phys, free, buf);
    assert Next(free, 0) < 0x1_0000_0000_0000_0000 by { assert free != [] ==> free[0] in Slots(phys); }
    StoreLoad(m, buf, Next(free, 0));
    forall i | 0 <= i < |free| + 1 ensures Word(m', ([buf] + free)[i]) == Next([buf] + free, i + 1) {
      assert i > 0 ==> ([buf] + free)[i] == free[i - 1] && Next([buf] + free, i + 1) == Next(free, i);
    }
  }

  lemma ListTail(m: Mem, free: seq<nat>)
    requires free != [] && Distinct(free) && Linked(m, free)
    ensures Distinct(free[1..]) && Linked(m, free[1..]) && free[0] !in free[1..]
    ensures Next(free, 1) == Next(free[1..], 0)
    ensures forall s :: s in free <==> s == free[0] || s in free[1..]
  {
    assert free == [free[0]] + free[1..];
    forall i | 0 <= i < |free| - 1 ensures Word(m, free[1..][i]) == Next(free[1..], i + 1) {
      assert free[1..][i] == free[i + 1];
    }
  }
}
