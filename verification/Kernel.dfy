/** Loading the kernel's ELF segments (loader/kernel.c:81-113, elf/elf.c:5-17). */
module Kernel {
  import opened Words
  import opened Memory
  import opened Paging
  import opened Ranges
  import opened AddressSpace

  const PT_LOAD := 1
  const PT_X := 1
  const PT_W := 2
  const STACK: nat := 0xFFFF_FE00_0000_0000
  const STACK_SIZE: nat := 0x2_1000
  const STACK_PAGES: nat := 33
  const STACK_SLOT: nat := 508

  datatype Phdr = Phdr(ptype: nat, flags: nat, offset: nat, vaddr: u64, filesz: nat, memsz: nat) {
    function Pages(): nat { (memsz + 0xFFF) / 0x1000 }
  }

  /** efi_elf_phdr_flags, with the tests as they are written. */
  function PhdrFlags(f: nat): nat {
    var flags := PAGE_PRESENT;
    var flags := if Or(f, PT_X) == 0 then Or(flags, PAGE_NX) else flags;
    if Or(f, PT_W) != 0 then Or(flags, PAGE_WRITE) else flags
  }

  /** Whatever the header asks for, the segment is present, writable and executable. */
  lemma PhdrFlagsConstant(f: nat)
    ensures PhdrFlags(f) == 3 && PresentFlags(3)
  {
    hide PresentFlags, Or;
    LoaderFlags();
    SomeBit(f, PT_X);
    SomeBit(f, PT_W);
  }

  lemma SomeBit(f: nat, bit: nat)
    requires bit == 1 || bit == 2
    ensures Or(f, bit) != 0
  {
    hide Or;
    OrParity(f, 1);
    OrParity(f / 2, 1);
    OrHalf(f, 2);
  }

  lemma OrHalf(x: nat, y: nat)
    ensures Or(x, y) == 0 ==> Or(x / 2, y / 2) == 0
  {
  }

  /** The byte the ELF file puts at offset k of a segment. */
  function SegmentByte(file: seq<byte>, ph: Phdr, k: nat): byte
    requires ph.offset + ph.filesz <= |file|
  {
    if k < ph.filesz then file[ph.offset + k] else 0
  }

  /** A segment the loader can place: the file covers it, it lies in the upper
      half, and it stays clear of the stack's slot and the recursive slot. */
  ghost predicate Good(file: seq<byte>, ph: Phdr) {
    && ph.filesz <= ph.memsz && ph.offset + ph.filesz <= |file|
    && At(ph.vaddr, ph.Pages()) <= 0x1_0000_0000_0000_0000
    && ph.vaddr >= UPPER_HALF
    && forall i :: 0 <= i < ph.Pages() ==> Indices(At(ph.vaddr, i)).a !in {STACK_SLOT, RECURSIVE}
  }

  ghost predicate Apart(ph: Phdr, ph': Phdr) {
    ph.vaddr / 0x1000 + ph.Pages() <= ph'.vaddr / 0x1000 || ph'.vaddr / 0x1000 + ph'.Pages() <= ph.vaddr / 0x1000
  }

  /** A loadable image: every PT_LOAD segment is good and no two share a page. */
  ghost predicate Loadable(file: seq<byte>, phdrs: seq<Phdr>) {
    && (forall j :: 0 <= j < |phdrs| && phdrs[j].ptype == PT_LOAD ==> Good(file, phdrs[j]))
    && (forall j, k :: 0 <= j < k < |phdrs| && phdrs[j].ptype == PT_LOAD && phdrs[k].ptype == PT_LOAD ==>
          Apart(phdrs[j], phdrs[k]))
  }

  /** The segment is in memory at `physical`, its pages lead there, and the
      frames belong to it alone. */
  ghost predicate InMemory(mem: Mem, used: set<nat>, tableFrames: set<nat>, leaves: map<Page, nat>,
                           file: seq<byte>, ph: Phdr, physical: nat)
    requires Good(file, ph)
  {
    && physical % 0x1000 == 0 && At(physical, ph.Pages()) < LOWER_LIMIT
    && (forall i :: 0 <= i < ph.Pages() ==>
          Lookup(leaves, Indices(At(ph.vaddr, i))) == Or(At(physical, i), 3))
    && (forall x: nat | physical <= x < physical + ph.memsz ::
          Number(x) in used && Number(x) !in tableFrames && mem(x) == SegmentByte(file, ph, x - physical))
  }

  lemma GoodMappable(file: seq<byte>, ph: Phdr)
    requires Good(file, ph)
    ensures Mappable(ph.vaddr, ph.Pages())
  {
    hide Indices;
  }

  /** Nothing that respects the frames and pages of a segment can disturb it. */
  lemma StaysInMemory(mem: Mem, used: set<nat>, tables: set<nat>, log: seq<Call>,
                      mem': Mem, used': set<nat>, tables': set<nat>, extra: seq<Call>,
                      file: seq<byte>, ph: Phdr, physical: nat)
    requires Good(file, ph) && InMemory(mem, used, tables, Replay(log), file, ph, physical)
    requires KeptFrom(mem, used, tables, mem', used', tables')
    requires forall c <- extra, i | 0 <= i < ph.Pages() :: c.Where() != Indices(At(ph.vaddr, i))
    ensures InMemory(mem', used', tables', Replay(log + extra), file, ph, physical)
  {
    hide Indices, Number, Or, Replay;
    forall i | 0 <= i < ph.Pages()
      ensures Lookup(Replay(log + extra), Indices(At(ph.vaddr, i))) == Or(At(physical, i), 3)
    {
      ReplayAvoid(log, extra, Indices(At(ph.vaddr, i)));
    }
  }

  /** The frames a fresh allocation covers, byte by byte. */
  lemma BytesInFrames(base: nat, pages: nat, x: nat)
    requires base % 0x1000 == 0 && base <= x < At(base, pages)
    ensures Number(x) in Frames(base, pages)
  {
  }

  /** Writing to frames handed out later keeps what was kept so far. */
  lemma KeptCopy(m0: Mem, u0: set<nat>, t0: set<nat>, m1: Mem, u1: set<nat>, t1: set<nat>, a: nat, data: seq<byte>)
    requires KeptFrom(m0, u0, t0, m1, u1, t1) && forall x | a <= x < a + |data| :: Number(x) !in u0
    ensures KeptFrom(m0, u0, t0, Copy(m1, a, data), u1, t1)
  {
    hide Number;
  }

  lemma KeptClear(m0: Mem, u0: set<nat>, t0: set<nat>, m1: Mem, u1: set<nat>, t1: set<nat>, a: nat, n: nat)
    requires KeptFrom(m0, u0, t0, m1, u1, t1) && forall x | a <= x < a + n :: Number(x) !in u0
    ensures KeptFrom(m0, u0, t0, Clear(m1, a, n), u1, t1)
  {
    hide Number;
  }

  /** Read, then map, then clear the tail: the segment is in memory. */
  lemma SegmentPlaced(m0: Mem, m1: Mem, u1: set<nat>, t1: set<nat>, m2: Mem, u2: set<nat>, t2: set<nat>, m3: Mem, log: seq<Call>,
                      file: seq<byte>, ph: Phdr, physical: nat)
    requires Good(file, ph) && physical % 0x1000 == 0 && At(physical, ph.Pages()) < LOWER_LIMIT
    requires KeptFrom(m1, u1, t1, m2, u2, t2) && t1 !! Frames(physical, ph.Pages()) && Frames(physical, ph.Pages()) <= u1
    requires m1 == Copy(m0, physical, file[ph.offset..ph.offset + ph.filesz])
    requires TailCleared(m2, m3, ph, physical)
    ensures InMemory(m3, u2, t2, Replay(log + Linear(physical, ph.vaddr, ph.Pages(), 3)), file, ph, physical)
  {
    hide Number, Indices, Or, Replay, Linear, Frames;
    GoodMappable(file, ph);
    forall i | 0 <= i < ph.Pages()
      ensures Lookup(Replay(log + Linear(physical, ph.vaddr, ph.Pages(), 3)), Indices(At(ph.vaddr, i))) == Or(At(physical, i), 3)
    {
      ReplayHit(log, physical, ph.vaddr, ph.Pages(), 3, i);
    }
    forall x: nat | physical <= x < physical + ph.memsz
      ensures Number(x) in u2 && Number(x) !in t2 && m3(x) == SegmentByte(file, ph, x - physical)
    {
      BytesInFrames(physical, ph.Pages(), x);
    }
  }

  /** From p_filesz to p_memsz memory is zero, and unchanged everywhere else. */
  ghost predicate TailCleared(m: Mem, m': Mem, ph: Phdr, physical: nat) {
    forall x: nat :: m'(x) == if physical + ph.filesz <= x < physical + ph.memsz then 0 else m(x)
  }

  /** The firmware has just refused a table frame or this many pages. */
  ghost predicate Refused(m: Machine, pages: nat)
    reads m
  {
    m.alloc(m.used, 1).None? || m.alloc(m.used, pages).None?
  }

  /** The body of the loop in loader_kernel_phdrs for one PT_LOAD header. It fails
      only when the firmware refuses memory. */
  method LoadSegment(m: Machine, file: seq<byte>, ph: Phdr) returns (ok: bool, physical: nat)
    requires m.Valid() && Good(file, ph)
    modifies m
    ensures m.root == old(m.root)
    ensures ok ==> m.Valid() && InMemory(m.mem, m.used, m.tableFrames, Replay(m.log), file, ph, physical)
    ensures ok ==> At(physical, ph.Pages()) < LOWER_LIMIT && m.log == old(m.log) + Linear(physical, ph.vaddr, ph.Pages(), 3)
    ensures m.Kept(old(m.mem), old(m.used), old(m.tableFrames))
    ensures !ok ==> Refused(m, ph.Pages())
  {
    hide CoreOf, Number, Indices, Or, Replay, Linear, Frames, KeptFrom, Good, InMemory, Touched, PresentFlags,
      PhdrFlags, Mappable, Copy, Clear, TailCleared, Took;
    var pages := ph.Pages();
    GoodBounds(file, ph);
    GoodMappable(file, ph);
    TablesUsed(m);
    ok, physical := m.AllocData(pages);
    KeptMore(old(m.mem), old(m.used), m.tableFrames, m.used);
    if !ok { return; }
    ghost var frames := Frames(physical, pages);
    assert frames <= m.used && m.tableFrames !! frames;
    forall x: nat | physical <= x < At(physical, pages) ensures Number(x) in m.used && Number(x) !in old(m.used) {
      BytesInFrames(physical, pages, x);
    }
    m.CopyIn(physical, file[ph.offset..ph.offset + ph.filesz]);
    ghost var m1, u1, t1 := m.mem, m.used, m.tableFrames;
    KeptCopy(old(m.mem), old(m.used), old(m.tableFrames), old(m.mem), u1, t1, physical, file[ph.offset..ph.offset + ph.filesz]);
    PhdrFlagsConstant(ph.flags);
    ok := m.MapRange(physical, ph.vaddr, pages, PhdrFlags(ph.flags));
    ghost var m2 := m.mem;
    KeptTrans(old(m.mem), old(m.used), old(m.tableFrames), m1, u1, t1, m2, m.used, m.tableFrames);
    if !ok { return; }
    NewTablesElsewhere(m1, u1, t1, m.mem, m.used, m.tableFrames);
    ClearTail(m, ph, physical);
    KeptTail(old(m.mem), old(m.used), old(m.tableFrames), m2, m.used, m.tableFrames, m.mem, ph, physical);
    SegmentPlaced(old(m.mem), m1, u1, t1, m2, m.used, m.tableFrames, m.mem, old(m.log), file, ph, physical);
  }

  lemma TablesUsed(m: Machine)
    requires m.Valid()
    ensures m.tableFrames <= m.used
  {
    hide Tree, Honest, Touched, Replay;
  }

  lemma KeptTail(m0: Mem, u0: set<nat>, t0: set<nat>, m1: Mem, u1: set<nat>, t1: set<nat>, m2: Mem, ph: Phdr, physical: nat)
    requires KeptFrom(m0, u0, t0, m1, u1, t1) && TailCleared(m1, m2, ph, physical)
    requires forall x: nat | physical <= x < physical + ph.memsz :: Number(x) !in u0
    ensures KeptFrom(m0, u0, t0, m2, u1, t1)
  {
    hide Number;
  }

  /** The final memset, when the segment is longer in memory than in the file. */
  method ClearTail(m: Machine, ph: Phdr, physical: nat)
    requires m.Valid() && ph.filesz <= ph.memsz
    requires forall x: nat | physical <= x < physical + ph.memsz :: Number(x) !in m.tableFrames
    modifies m`mem
    ensures m.Valid() && TailCleared(old(m.mem), m.mem, ph, physical)
  {
    hide CoreOf, Number, Replay, Touched;
    if ph.memsz - ph.filesz > 0 {
      m.ClearOut(physical + ph.filesz, ph.memsz - ph.filesz);
    }
  }

  lemma GoodBounds(file: seq<byte>, ph: Phdr)
    requires Good(file, ph)
    ensures ph.filesz <= ph.memsz <= At(0, ph.Pages()) < ph.memsz + 0x1000 && ph.offset + ph.filesz <= |file|
    ensures At(ph.vaddr, ph.Pages()) <= 0x1_0000_0000_0000_0000
  {
  }

  lemma KeptMore(m: Mem, used: set<nat>, tables: set<nat>, used': set<nat>)
    requires used <= used'
    ensures KeptFrom(m, used, tables, m, used', tables)
  {
  }

  lemma NewTablesElsewhere(m0: Mem, u0: set<nat>, t0: set<nat>, m1: Mem, u1: set<nat>, t1: set<nat>)
    requires KeptFrom(m0, u0, t0, m1, u1, t1)
    ensures forall f | f in u0 && f !in t0 :: f !in t1
  {
  }

  /** Segments on different pages: the calls for one never name a page of the other. */
  lemma ApartCalls(file: seq<byte>, ph: Phdr, ph': Phdr, physical: nat, c: Call, i: nat)
    requires Good(file, ph) && Good(file, ph') && (Apart(ph, ph') || Apart(ph', ph))
    requires At(physical, ph'.Pages()) < LOWER_LIMIT
    requires c in Linear(physical, ph'.vaddr, ph'.Pages(), 3) && i < ph.Pages()
    ensures c.Where() != Indices(At(ph.vaddr, i))
  {
    hide Indices, Linear;
    LinearCalls(physical, ph'.vaddr, ph'.Pages(), 3, c);
    var j :| 0 <= j < ph'.Pages() && c == Call(At(physical, j), At(ph'.vaddr, j), 3);
    IndicesInjective(At(ph.vaddr, i), At(ph'.vaddr, j));
    PageNumbers(ph.vaddr, i);
    PageNumbers(ph'.vaddr, j);
  }

  lemma PageNumbers(virt: nat, i: nat)
    ensures At(virt, i) / 0x1000 == virt / 0x1000 + i
  {
  }

  /** The first n headers have been dealt with. */
  ghost predicate AllInMemory(mem: Mem, used: set<nat>, tableFrames: set<nat>, leaves: map<Page, nat>,
                              file: seq<byte>, phdrs: seq<Phdr>, places: seq<nat>)
    requires Loadable(file, phdrs) && |places| <= |phdrs|
  {
    forall j :: 0 <= j < |places| && phdrs[j].ptype == PT_LOAD ==>
      InMemory(mem, used, tableFrames, leaves, file, phdrs[j], places[j])
  }

  /** One more segment leaves the earlier ones in place. */
  lemma OneMore(m0: Mem, u0: set<nat>, t0: set<nat>, log: seq<Call>, m1: Mem, u1: set<nat>, t1: set<nat>,
                file: seq<byte>, phdrs: seq<Phdr>, places: seq<nat>, physical: nat)
    requires Loadable(file, phdrs) && |places| < |phdrs| && phdrs[|places|].ptype == PT_LOAD
    requires AllInMemory(m0, u0, t0, Replay(log), file, phdrs, places) && KeptFrom(m0, u0, t0, m1, u1, t1)
    requires At(physical, phdrs[|places|].Pages()) < LOWER_LIMIT
    requires var ph := phdrs[|places|]; var log' := log + Linear(physical, ph.vaddr, ph.Pages(), 3);
      InMemory(m1, u1, t1, Replay(log'), file, ph, physical)
    ensures var ph := phdrs[|places|]; var log' := log + Linear(physical, ph.vaddr, ph.Pages(), 3);
      AllInMemory(m1, u1, t1, Replay(log'), file, phdrs, places + [physical])
  {
    hide Indices, InMemory, KeptFrom, Good, Apart, Linear, Replay;
    var n := |places|;
    var ph := phdrs[n];
    GoodBounds(file, ph);
    var extra := Linear(physical, ph.vaddr, ph.Pages(), 3);
    forall j | 0 <= j < n && phdrs[j].ptype == PT_LOAD
      ensures InMemory(m1, u1, t1, Replay(log + extra), file, phdrs[j], places[j])
    {
      assert Apart(phdrs[j], ph);
      GoodBounds(file, phdrs[j]);
      forall c <- extra, i | 0 <= i < phdrs[j].Pages() ensures c.Where() != Indices(At(phdrs[j].vaddr, i)) {
        ApartCalls(file, phdrs[j], ph, physical, c, i);
      }
      StaysInMemory(m0, u0, t0, log, m1, u1, t1, extra, file, phdrs[j], places[j]);
    }
  }

  /** loader_kernel_phdrs. It fails only when the firmware refuses memory, and
      maps nothing below the upper half. */
  method LoadPhdrs(m: Machine, file: seq<byte>, phdrs: seq<Phdr>) returns (ok: bool, ghost places: seq<nat>)
    requires m.Valid() && Loadable(file, phdrs)
    modifies m
    ensures m.root == old(m.root)
    ensures ok ==> m.Valid() && |places| == |phdrs|
    ensures ok ==> AllInMemory(m.mem, m.used, m.tableFrames, Replay(m.log), file, phdrs, places)
    ensures ok ==> old(m.log) <= m.log && UpperCalls(m.log[|old(m.log)|..])
    ensures !ok ==> exists j | 0 <= j < |phdrs| && phdrs[j].ptype == PT_LOAD :: Refused(m, phdrs[j].Pages())
  {
    hide CoreOf, Indices, InMemory, KeptFrom, Good, Apart, Replay, Touched, Linear, UpperCalls;
    places := [];
    ok := true;
    NoCalls();
    assert m.log[|old(m.log)|..] == [];
    for j := 0 to |phdrs|
      invariant m.Valid() && m.root == old(m.root) && |places| == j
      invariant AllInMemory(m.mem, m.used, m.tableFrames, Replay(m.log), file, phdrs, places)
      invariant old(m.log) <= m.log && UpperCalls(m.log[|old(m.log)|..])
    {
      var place := 0;
      if phdrs[j].ptype == PT_LOAD {
        ghost var m0, u0, t0, l0 := m.mem, m.used, m.tableFrames, m.log;
        ok, place := LoadSegment(m, file, phdrs[j]);
        if !ok { return; }
        OneMore(m0, u0, t0, l0, m.mem, m.used, m.tableFrames, file, phdrs, places, place);
        SegmentCalls(file, phdrs[j], place, l0[|old(m.log)|..]);
        assert m.log[|old(m.log)|..] == l0[|old(m.log)|..] + Linear(place, phdrs[j].vaddr, phdrs[j].Pages(), 3);
      }
      places := places + [place];
    }
  }

  ghost predicate UpperCalls(calls: seq<Call>) { forall c <- calls :: c.virt >= UPPER_HALF }

  lemma NoCalls()
    ensures UpperCalls([])
  {
  }

  lemma SegmentCalls(file: seq<byte>, ph: Phdr, physical: nat, before: seq<Call>)
    requires Good(file, ph) && At(physical, ph.Pages()) < LOWER_LIMIT && UpperCalls(before)
    ensures At(ph.vaddr, ph.Pages()) <= 0x1_0000_0000_0000_0000
    ensures UpperCalls(before + Linear(physical, ph.vaddr, ph.Pages(), 3))
  {
    hide Linear, Indices;
    forall c | c in Linear(physical, ph.vaddr, ph.Pages(), 3) ensures c.virt >= UPPER_HALF {
      LinearCalls(physical, ph.vaddr, ph.Pages(), 3, c);
    }
  }

  // ------------------------------------------------------------------ what the kernel sees

  /** A byte read by the processor through the tables. */
  function ReadVirtual(m: Mem, cr3: nat, virt: u64): Option<byte> {
    match Translate(m, cr3, virt)
    case Some(physical) => Some(m(physical))
    case None => None
  }

  /** The segment as the kernel sees it, from the start of its first page. */
  ghost predicate Visible(m: Mem, cr3: nat, file: seq<byte>, ph: Phdr)
    requires Good(file, ph)
  {
    GoodBounds(file, ph);
    forall k :: 0 <= k < ph.memsz ==>
      ReadVirtual(m, cr3, PageOf(ph.vaddr) + k) == Some(SegmentByte(file, ph, k))
  }

  lemma SegmentVisible(m: Mem, used: set<nat>, tableFrames: set<nat>, tables: map<Node, nat>, leaves: map<Page, nat>,
                       file: seq<byte>, ph: Phdr, physical: nat)
    requires Tree(m, tables, leaves) && Good(file, ph) && InMemory(m, used, tableFrames, leaves, file, ph, physical)
    ensures Visible(m, tables[Root], file, ph)
  {
    hide Indices, Tree, Translate, Or, Frame, IsFrame, PresentFlags, Number;
    GoodBounds(file, ph);
    RootIn(m, tables, leaves);
    forall k | 0 <= k < ph.memsz
      ensures ReadVirtual(m, tables[Root], PageOf(ph.vaddr) + k) == Some(SegmentByte(file, ph, k))
    {
      SegmentTranslates(m, used, tableFrames, tables, leaves, file, ph, physical, k);
      assert m(physical + k) == SegmentByte(file, ph, k);
    }
  }

  /** Offset k from the start of the first page leads to offset k of the frames. */
  lemma SegmentTranslates(m: Mem, used: set<nat>, tableFrames: set<nat>, tables: map<Node, nat>, leaves: map<Page, nat>,
                          file: seq<byte>, ph: Phdr, physical: nat, k: nat)
    requires Tree(m, tables, leaves) && Good(file, ph) && InMemory(m, used, tableFrames, leaves, file, ph, physical)
    requires k < At(0, ph.Pages()) && PageOf(ph.vaddr) + k < 0x1_0000_0000_0000_0000
    ensures Translate(m, tables[Root], PageOf(ph.vaddr) + k) == Some(physical + k)
  {
    hide Indices, Tree, Translate, Or, Frame, IsFrame, PresentFlags, Number;
    var x := PageOf(ph.vaddr) + k;
    var i := k / 0x1000;
    GoodMappable(file, ph);
    assert x >= UPPER_HALF by { UpperPage(ph.vaddr); }
    PageNumbers(ph.vaddr, i);
    PageNumbers(PageOf(ph.vaddr), i);
    assert x / 0x1000 == At(ph.vaddr, i) / 0x1000 by { ByteInPage(ph.vaddr, k); }
    IndicesInjective(x, At(ph.vaddr, i));
    TranslateRefines(m, tables, leaves, x);
    PhdrFlagsConstant(ph.flags);
    LowFrame(At(physical, i));
    LeafBits(At(physical, i), 3);
  }

  lemma UpperPage(virt: nat)
    requires virt >= UPPER_HALF
    ensures PageOf(virt) >= UPPER_HALF
  {
  }

  lemma ByteInPage(virt: nat, k: nat)
    ensures (PageOf(virt) + k) / 0x1000 == virt / 0x1000 + k / 0x1000
    ensures (PageOf(virt) + k) % 0x1000 == k % 0x1000
  {
    var f := virt / 0x1000;
    assert PageOf(virt) == f * 0x1000;
    assert PageOf(virt) + k == (f + k / 0x1000) * 0x1000 + k % 0x1000;
  }

  /** With p_vaddr on a page boundary, byte k of the segment is at p_vaddr + k:
      file contents first, zeros after (System V gABI, Program Header). */
  lemma AlignedSegment(m: Mem, cr3: nat, file: seq<byte>, ph: Phdr, k: nat)
    requires Good(file, ph) && Visible(m, cr3, file, ph) && ph.vaddr % 0x1000 == 0 && k < ph.memsz
    ensures ph.vaddr + k < 0x1_0000_0000_0000_0000
    ensures ReadVirtual(m, cr3, ph.vaddr + k) == Some(if k < ph.filesz then file[ph.offset + k] else 0)
  {
    hide Good, ReadVirtual;
    GoodBounds(file, ph);
    assert PageOf(ph.vaddr) == ph.vaddr;
    assert ReadVirtual(m, cr3, PageOf(ph.vaddr) + k) == Some(SegmentByte(file, ph, k));
  }

  /** Off a page boundary the segment is shifted by p_vaddr mod 4096, for every
      offset k below p_memsz. With j the shifted offset, p_vaddr + k
      - reads byte j of the segment while j is below p_memsz, so the promise at k
        holds exactly when bytes j and k agree,
      - reads what the allocation happened to hold up to the end of the last page,
      - lies on a page the segment has no mapping for beyond that. */
  lemma UnalignedSegment(m: Mem, used: set<nat>, tableFrames: set<nat>, tables: map<Node, nat>, leaves: map<Page, nat>,
                         file: seq<byte>, ph: Phdr, physical: nat, k: nat)
    requires Tree(m, tables, leaves) && Good(file, ph) && InMemory(m, used, tableFrames, leaves, file, ph, physical)
    requires k < ph.memsz
    ensures ph.vaddr + k < 0x1_0000_0000_0000_0000
    ensures var j := k + ph.vaddr % 0x1000;
      && (j < ph.memsz ==>
            (ReadVirtual(m, tables[Root], ph.vaddr + k) == Some(SegmentByte(file, ph, k)) <==>
             SegmentByte(file, ph, j) == SegmentByte(file, ph, k)))
      && (j < At(0, ph.Pages()) ==> ReadVirtual(m, tables[Root], ph.vaddr + k) == Some(m(physical + j)))
      && (j >= At(0, ph.Pages()) ==>
            && (forall i | 0 <= i < ph.Pages() :: Indices(ph.vaddr + k) != Indices(At(ph.vaddr, i)))
            && (Indices(ph.vaddr + k) !in leaves && Indices(ph.vaddr + k).a != RECURSIVE ==>
                  ReadVirtual(m, tables[Root], ph.vaddr + k) == None))
  {
    hide Indices, Tree, Translate, Or, Frame, IsFrame, PresentFlags, Number;
    GoodBounds(file, ph);
    RootIn(m, tables, leaves);
    var j := k + ph.vaddr % 0x1000;
    assert PageOf(ph.vaddr) + j == ph.vaddr + k;
    if j < At(0, ph.Pages()) {
      SegmentTranslates(m, used, tableFrames, tables, leaves, file, ph, physical, j);
      if j < ph.memsz { assert m(physical + j) == SegmentByte(file, ph, j); }
    } else {
      BehindSegment(file, ph, j);
      UnmappedPage(m, tables, leaves, ph.vaddr + k);
    }
  }

  lemma UnmappedPage(m: Mem, tables: map<Node, nat>, leaves: map<Page, nat>, virt: u64)
    requires Tree(m, tables, leaves) && virt >= UPPER_HALF
    ensures Root in tables
    ensures Indices(virt) !in leaves && Indices(virt).a != RECURSIVE ==> Translate(m, tables[Root], virt) == None
  {
    hide Indices, Tree, Translate;
    RootIn(m, tables, leaves);
    if Indices(virt) !in leaves && Indices(virt).a != RECURSIVE { TranslateRefines(m, tables, leaves, virt); }
  }

  lemma BehindSegment(file: seq<byte>, ph: Phdr, j: nat)
    requires Good(file, ph) && At(0, ph.Pages()) <= j && PageOf(ph.vaddr) + j < 0x1_0000_0000_0000_0000
    ensures forall i | 0 <= i < ph.Pages() :: Indices(PageOf(ph.vaddr) + j) != Indices(At(ph.vaddr, i))
  {
    hide Indices;
    GoodMappable(file, ph);
    ByteInPage(ph.vaddr, j);
    UpperPage(ph.vaddr);
    forall i | 0 <= i < ph.Pages() ensures Indices(PageOf(ph.vaddr) + j) != Indices(At(ph.vaddr, i)) {
      PageNumbers(ph.vaddr, i);
      IndicesInjective(PageOf(ph.vaddr) + j, At(ph.vaddr, i));
    }
  }

  /** One such segment: two file bytes 1 and 2 meant for an address that ends in
      001. The loader takes it, and its first byte reads 2. */
  lemma UnalignedExample(m: Mem, used: set<nat>, tableFrames: set<nat>, tables: map<Node, nat>, leaves: map<Page, nat>, physical: nat)
    requires var ph := Phdr(PT_LOAD, 5, 0, UPPER_HALF + 1, 2, 2);
      Tree(m, tables, leaves) && (Good([1, 2], ph) ==> InMemory(m, used, tableFrames, leaves, [1, 2], ph, physical))
    ensures var ph := Phdr(PT_LOAD, 5, 0, UPPER_HALF + 1, 2, 2);
      && Loadable([1, 2], [ph]) && SegmentByte([1, 2], ph, 0) == 1
      && ReadVirtual(m, tables[Root], ph.vaddr) == Some(2)
  {
    hide Indices, Tree, Translate, InMemory, Number;
    var ph := Phdr(PT_LOAD, 5, 0, UPPER_HALF + 1, 2, 2);
    assert ph.Pages() == 1;
    FirstUpperSlot();
    assert Good([1, 2], ph);
    UnalignedSegment(m, used, tableFrames, tables, leaves, [1, 2], ph, physical, 0);
    SecondByte(m, used, tableFrames, leaves, [1, 2], ph, physical);
  }

  lemma FirstUpperSlot()
    ensures Indices(UPPER_HALF + 1).a == 256
  {
  }

  lemma SecondByte(m: Mem, used: set<nat>, tableFrames: set<nat>, leaves: map<Page, nat>, file: seq<byte>, ph: Phdr, physical: nat)
    requires Good(file, ph) && InMemory(m, used, tableFrames, leaves, file, ph, physical) && 1 < ph.memsz
    ensures m(physical + 1) == SegmentByte(file, ph, 1)
  {
    hide Indices, Number;
  }
}
