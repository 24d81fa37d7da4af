/** From the loaded segments to the jump: stack, boot information, frame
    buffer, loader image and memory map are mapped, and none of it disturbs
    the kernel (loader/kernel.c:39-78, boot/). */
module HandOff {
  import opened Words
  import opened Memory
  import opened Paging
  import opened Ranges
  import opened AddressSpace
  import opened Kernel
  import opened Seal

  /** An answer to the second GetMemoryMap call. */
  datatype MemoryMap = MemoryMap(data: seq<byte>, size: u64, key: u64, descriptorSize: u64) {
    function Entries(): u64
      requires descriptorSize > 0
    {
      size / descriptorSize
    }
  }

  /** The number of whole descriptors. */
  lemma EntriesFit(reply: MemoryMap)
    requires reply.descriptorSize > 0
    ensures reply.Entries() * reply.descriptorSize <= reply.size < reply.Entries() * reply.descriptorSize + reply.descriptorSize
  {
    var q, r := reply.size / reply.descriptorSize, reply.size % reply.descriptorSize;
    assert reply.size == reply.descriptorSize * q + r;
  }

  /** What the firmware reports to the loader. `mapSize` and `firstKey` come from
      the first GetMemoryMap call, `memoryMap` from the second; None is an error other
      than EFI_BUFFER_TOO_SMALL. */
  datatype Firmware = Firmware(
    handle: u64, st: u64, copy: u64, copySize: u64, rsdp: Option<u64>,
    gopMode: u64, gopInfo: u64, framebuffer: u64, framebufferSize: u64, image: u64, imageBase: u64, imageSize: u64,
    mapSize: Option<nat>, firstKey: u64, memoryMap: Option<MemoryMap>)

  function RoundUp(size: nat): nat { if size % 0x1000 != 0 then size / 0x1000 + 1 else size / 0x1000 }

  function MapPages(size: nat): nat { (size + 0xFFF) / 0x1000 + 1 }

  /** The fewest pages that hold the size, and for the memory map one more. */
  lemma PageCounts(size: nat)
    ensures size <= At(0, RoundUp(size)) < size + 0x1000
    ensures size + 0x1000 <= At(0, MapPages(size)) < size + 0x2000
  {
  }

  /** Everything the firmware points at lies in the identity-mapped low half, and
      the memory map it writes has the size it announced. */
  predicate Low(fw: Firmware) {
    && fw.gopMode + 8 < LOWER_LIMIT && fw.gopInfo + 8 < LOWER_LIMIT
    && At(fw.framebuffer, RoundUp(fw.framebufferSize)) <= LOWER_LIMIT
    && At(fw.imageBase, RoundUp(fw.imageSize)) <= LOWER_LIMIT
    && (fw.mapSize.Some? && fw.memoryMap.Some? ==> |fw.memoryMap.value.data| <= fw.mapSize.value && fw.memoryMap.value.descriptorSize > 0)
  }

  // ------------------------------------------------------------------ the boot information

  // The fields of info_t, in words (include/boot/info.h).
  const HANDLE: nat := 0
  const ST: nat := 1
  const IMAGE: nat := 2
  const MEMORY_MAP: nat := 3
  const MAP_ENTRIES: nat := 4
  const MAP_KEY: nat := 5
  const DESCRIPTOR_SIZE: nat := 6
  const RSDP: nat := 7
  const GOP_MODE: nat := 8
  const COPY: nat := 9
  const COPY_SIZE: nat := 10
  const INFO_WORDS: nat := 11

  /** Memory holds these words from `info` on. */
  ghost predicate Holds(m: Mem, info: nat, words: seq<u64>) {
    forall k | 0 <= k < |words| :: Word(m, info + 8 * k) == words[k]
  }

  /** The first argument lies where the kernel's entry code pops it off the stack. */
  ghost predicate Passes(m: Mem, stack: nat, info: u64) { Holds(m, stack + STACK_SIZE - 8 * 4, [info]) }

  lemma HoldsStore(m: Mem, info: nat, words: seq<u64>, k: nat, v: u64)
    requires Holds(m, info, words) && k < |words|
    ensures Holds(Store(m, info + 8 * k, v), info, words[k := v])
  {
    hide Word, Store;
    forall i | 0 <= i < |words| ensures Word(Store(m, info + 8 * k, v), info + 8 * i) == words[k := v][i] {
      if i == k { StoreLoad(m, info + 8 * k, v); } else { StoreElsewhere(m, info + 8 * k, v, info + 8 * i); }
    }
  }

  /** Data in frames of its own survives table building. */
  lemma HoldsKept(m0: Mem, u0: set<nat>, t0: set<nat>, m1: Mem, u1: set<nat>, t1: set<nat>, base: nat, pages: nat, a: nat, words: seq<u64>)
    requires KeptFrom(m0, u0, t0, m1, u1, t1) && Owned(u0, t0, base, pages)
    requires base <= a && a + 8 * |words| <= At(base, pages) && Holds(m0, a, words)
    ensures Holds(m1, a, words)
  {
    hide Number, Frames, Word;
    forall k | 0 <= k < |words| ensures Word(m1, a + 8 * k) == words[k] {
      forall x | a + 8 * k <= x < a + 8 * k + 8 ensures m1(x) == m0(x) { BytesInFrames(base, pages, x); }
      SameWord(m0, m1, a + 8 * k);
    }
  }

  lemma SameWord(m: Mem, m': Mem, a: nat)
    requires forall x | a <= x < a + 8 :: m'(x) == m(x)
    ensures Word(m', a) == Word(m, a)
  {
    SameBytesSameValue(m', m, a, 8);
  }

  lemma HoldsZeros(m: Mem, a: nat, n: nat)
    requires forall x: nat | a <= x < a + 8 * n :: m(x) == 0
    ensures Holds(m, a, seq(n, k => 0))
  {
    hide Word;
    forall k | 0 <= k < n ensures Word(m, a + 8 * k) == 0 {
      ZeroBytes(m, a + 8 * k, 8);
      WordIsZero(m, a + 8 * k);
    }
  }

  /** The boot information is where the loader keeps writing it. */
  ghost predicate Info(m: Machine, s: Point, info: nat, words: seq<u64>)
    reads m
  {
    && Owned(m.used, m.tableFrames, info, 1) && Frames(info, 1) !! s.used
    && |words| == INFO_WORDS && Holds(m.mem, info, words)
  }

  /** `info->field = v` */
  method SetField(m: Machine, info: nat, k: nat, v: u64, ghost words: seq<u64>, ghost s: Point)
    requires Sealed(m, s) && Info(m, s, info, words) && k < INFO_WORDS
    modifies m`mem
    ensures Sealed(m, s) && Info(m, s, info, words[k := v]) && m.mem == Store(old(m.mem), info + 8 * k, v)
  {
    hide CoreOf, KeptFrom, Later, Replay, Touched, Frames, Number, Store, Holds;
    HoldsStore(m.mem, info, words, k, v);
    StoreSealed(m, info, 1, info + 8 * k, v, s);
  }

  lemma InfoKept(m0: Mem, u0: set<nat>, t0: set<nat>, m: Machine, s: Point, info: nat, words: seq<u64>)
    requires KeptFrom(m0, u0, t0, m.mem, m.used, m.tableFrames) && Owned(u0, t0, info, 1) && Frames(info, 1) !! s.used
    requires |words| == INFO_WORDS && Holds(m0, info, words)
    ensures Info(m, s, info, words)
  {
    hide KeptFrom, Holds, Frames, Number;
    OwnedKept(m0, u0, t0, m.mem, m.used, m.tableFrames, info, 1);
    OwnedPage(u0, t0, info);
    HoldsKept(m0, u0, t0, m.mem, m.used, m.tableFrames, info, 1, info, words);
  }

  lemma OwnedPage(used: set<nat>, tableFrames: set<nat>, info: nat)
    requires Owned(used, tableFrames, info, 1)
    ensures info + 0x1000 < LOWER_LIMIT
  {
  }

  lemma Disjoint(used: set<nat>, tableFrames: set<nat>, info: nat, base: nat, pages: nat)
    requires Owned(used, tableFrames, info, 1) && Owned(used, tableFrames, base, pages) && Frames(info, 1) !! Frames(base, pages)
    ensures At(base, pages) <= info || info + 0x1000 <= base || pages == 0
  {
    assert Number(info) !in Frames(base, pages);
  }

  lemma HoldsCopy(m: Mem, a: nat, words: seq<u64>, b: nat, data: seq<byte>)
    requires Holds(m, a, words) && (b + |data| <= a || a + 8 * |words| <= b || data == [])
    ensures Holds(Copy(m, b, data), a, words)
  {
    hide Word;
    forall k | 0 <= k < |words| ensures Word(Copy(m, b, data), a + 8 * k) == words[k] {
      SameWord(m, Copy(m, b, data), a + 8 * k);
    }
  }

  lemma HoldsBeside(m: Mem, a: nat, words: seq<u64>, b: nat, v: u64)
    requires Holds(m, a, words) && (b + 8 <= a || a + 8 * |words| <= b)
    ensures Holds(Store(m, b, v), a, words)
  {
    hide Word, Store;
    forall k | 0 <= k < |words| ensures Word(Store(m, b, v), a + 8 * k) == words[k] {
      StoreElsewhere(m, b, v, a + 8 * k);
    }
  }

  // ------------------------------------------------------------------ mapping

  /** The loop that maps pages to themselves. */
  method MapSelf(m: Machine, base: nat, pages: nat, ghost info: nat, ghost words: seq<u64>, ghost s: Point) returns (ok: bool)
    requires Sealed(m, s) && Info(m, s, info, words) && At(base, pages) <= LOWER_LIMIT
    modifies m
    ensures m.root == old(m.root) && (!ok ==> m.alloc(m.used, 1).None?)
    ensures ok ==> Sealed(m, s) && Info(m, s, info, words) && m.Kept(old(m.mem), old(m.used), old(m.tableFrames))
    ensures ok ==> m.log == old(m.log) + Linear(base, base, pages, PAGE_RW)
  {
    hide CoreOf, KeptFrom, Later, Replay, Touched, Linear, Indices, Mappable, SelfCall, StackCall, Took, Owned, Frames, Holds;
    LowPages(base, pages);
    ok := m.MapRange(base, base, pages, PAGE_RW);
    KeptTrans(s.mem, s.used, s.tableFrames, old(m.mem), old(m.used), old(m.tableFrames), m.mem, m.used, m.tableFrames);
    InfoKept(old(m.mem), old(m.used), old(m.tableFrames), m, s, info, words);
    SelfCalls(base, pages);
    LaterMore(s.log, old(m.log), Linear(base, base, pages, PAGE_RW));
  }

  /** loader_paging_map_addr for a range of the low half. */
  method MapSelfAddr(m: Machine, start: u64, length: u64, ghost info: nat, ghost words: seq<u64>, ghost s: Point) returns (ok: bool)
    requires Sealed(m, s) && Info(m, s, info, words) && start + length < LOWER_LIMIT
    modifies m
    ensures m.root == old(m.root) && (!ok ==> m.alloc(m.used, 1).None?)
    ensures ok ==> Sealed(m, s) && Info(m, s, info, words) && m.Kept(old(m.mem), old(m.used), old(m.tableFrames))
    ensures ok ==> m.log == old(m.log) + Identity(start, length)
  {
    hide CoreOf, KeptFrom, Later, Replay, Touched, Linear, Indices, SelfCall, StackCall, Took, Walk, Translate, PageOf,
      Span, Address, PresentFlags, Owned, Frames, Holds;
    LowRange(start, length);
    ok := m.MapAddr(start, length, PAGE_RW);
    KeptTrans(s.mem, s.used, s.tableFrames, old(m.mem), old(m.used), old(m.tableFrames), m.mem, m.used, m.tableFrames);
    InfoKept(old(m.mem), old(m.used), old(m.tableFrames), m, s, info, words);
    IdentitySelf(start, length);
    LaterMore(s.log, old(m.log), Identity(start, length));
  }

  /** loader/kernel.c:45-51: the boot information and its first four fields. */
  method AllocInfo(m: Machine, fw: Firmware, ghost s: Point) returns (ok: bool, info: nat)
    requires Sealed(m, s)
    modifies m
    ensures m.root == old(m.root) && (!ok ==> m.alloc(m.used, 1).None?)
    ensures ok ==> Sealed(m, s) && Info(m, s, info, FirstWords(fw))
    ensures ok ==> info + 0x1000 < LOWER_LIMIT && m.log == old(m.log) + Linear(info, info, 1, PAGE_RW)
  {
    hide CoreOf, KeptFrom, Later, Replay, Touched, Linear, Frames, Owned, Holds;
    ok, info := AllocSealed(m, 1, true, s);
    if !ok { return; }
    OwnedPage(m.used, m.tableFrames, info);
    HoldsZeros(m.mem, info, INFO_WORDS);
    ghost var w0: seq<u64> := seq(INFO_WORDS, k => 0);
    ok := MapSelf(m, info, 1, info, w0, s);
    if !ok { return; }
    SetField(m, info, ST, fw.st, w0, s);
    SetField(m, info, HANDLE, fw.handle, w0[ST := fw.st], s);
    SetField(m, info, COPY, fw.copy, w0[ST := fw.st][HANDLE := fw.handle], s);
    SetField(m, info, COPY_SIZE, fw.copySize, w0[ST := fw.st][HANDLE := fw.handle][COPY := fw.copy], s);
    assert w0[ST := fw.st][HANDLE := fw.handle][COPY := fw.copy][COPY_SIZE := fw.copySize] == FirstWords(fw);
  }

  function FirstWords(fw: Firmware): seq<u64> { [fw.handle, fw.st, 0, 0, 0, 0, 0, 0, 0, fw.copy, fw.copySize] }

  lemma StackPages()
    ensures Mappable(STACK, STACK_PAGES)
  {
    hide Indices;
    forall i | 0 <= i < STACK_PAGES ensures Canonical(At(STACK, i)) && Indices(At(STACK, i)).a == STACK_SLOT {
      StackSlot(At(STACK, i));
    }
  }

  lemma StackSlot(x: u64)
    requires STACK <= x < STACK + STACK_SIZE
    ensures Canonical(x) && Indices(x).a == STACK_SLOT
  {
  }

  /** loader/kernel.c:53-58: the stack's pages, and the address of the boot
      information where the kernel's entry code pops its argument. */
  method MapStack(m: Machine, stack: nat, info: nat, ghost words: seq<u64>, ghost s: Point) returns (ok: bool)
    requires Sealed(m, s) && Info(m, s, info, words)
    requires Owned(m.used, m.tableFrames, stack, STACK_PAGES) && Frames(stack, STACK_PAGES) !! s.used + Frames(info, 1)
    modifies m
    ensures m.root == old(m.root) && (!ok ==> m.alloc(m.used, 1).None?)
    ensures ok ==> Sealed(m, s) && Info(m, s, info, words) && Owned(m.used, m.tableFrames, stack, STACK_PAGES)
    ensures ok ==> At(stack, STACK_PAGES) < LOWER_LIMIT && m.log == old(m.log) + Linear(stack, STACK, STACK_PAGES, PAGE_RW_NX)
    ensures ok ==> info < LOWER_LIMIT && Passes(m.mem, stack, info)
  {
    hide CoreOf, KeptFrom, Later, Replay, Touched, Linear, Indices, Mappable, SelfCall, StackCall, Took, Owned, Frames, Holds, Store;
    StackPages();
    OwnedBound(m.used, m.tableFrames, stack, STACK_PAGES);
    OwnedBound(m.used, m.tableFrames, info, 1);
    Disjoint(m.used, m.tableFrames, info, stack, STACK_PAGES);
    ok := m.MapRange(stack, STACK, STACK_PAGES, PAGE_RW_NX);
    if !ok { return; }
    KeptTrans(s.mem, s.used, s.tableFrames, old(m.mem), old(m.used), old(m.tableFrames), m.mem, m.used, m.tableFrames);
    InfoKept(old(m.mem), old(m.used), old(m.tableFrames), m, s, info, words);
    OwnedKept(old(m.mem), old(m.used), old(m.tableFrames), m.mem, m.used, m.tableFrames, stack, STACK_PAGES);
    StackCalls(stack);
    LaterMore(s.log, old(m.log), Linear(stack, STACK, STACK_PAGES, PAGE_RW_NX));
    var args := stack + STACK_SIZE - 8 * 4;
    HoldsBeside(m.mem, info, words, args, info);
    WordStored(m.mem, args, info);
    StoreSealed(m, stack, STACK_PAGES, args, info, s);
  }

  lemma OwnedBound(used: set<nat>, tableFrames: set<nat>, base: nat, pages: nat)
    requires Owned(used, tableFrames, base, pages)
    ensures base % 0x1000 == 0 && At(base, pages) < LOWER_LIMIT
  {
  }

  lemma WordStored(m: Mem, a: nat, v: u64)
    ensures Holds(Store(m, a, v), a, [v])
  {
    hide Word, Store;
    StoreLoad(m, a, v);
  }

  /** Two seals in a row are one. */
  lemma SealedTrans(m: Machine, s: Point, s': Point)
    requires KeptFrom(s.mem, s.used, s.tableFrames, s'.mem, s'.used, s'.tableFrames) && Later(s.log, s'.log)
    requires Sealed(m, s')
    ensures Sealed(m, s)
  {
    hide CoreOf, KeptFrom, Later, Replay, Touched;
    KeptTrans(s.mem, s.used, s.tableFrames, s'.mem, s'.used, s'.tableFrames, m.mem, m.used, m.tableFrames);
    LaterTrans(s.log, s'.log, m.log);
  }

  /** loader/kernel.c:39-58: the stack and the boot information. */
  method MapStackAndInfo(m: Machine, fw: Firmware, ghost s: Point) returns (ok: bool, stack: nat, info: nat)
    requires Sealed(m, s)
    modifies m
    ensures m.root == old(m.root)
    ensures !ok ==> m.alloc(m.used, 1).None? || m.alloc(m.used, STACK_PAGES).None?
    ensures ok ==> Sealed(m, s) && Info(m, s, info, FirstWords(fw)) && Owned(m.used, m.tableFrames, stack, STACK_PAGES)
    ensures ok ==> At(stack, STACK_PAGES) < LOWER_LIMIT && info + 0x1000 < LOWER_LIMIT && Frames(stack, STACK_PAGES) !! Frames(info, 1)
    ensures ok ==> m.log == old(m.log) + Linear(info, info, 1, PAGE_RW) + Linear(stack, STACK, STACK_PAGES, PAGE_RW_NX)
    ensures ok ==> Passes(m.mem, stack, info)
  {
    hide CoreOf, KeptFrom, Later, Replay, Touched, Linear, Owned, Frames, Holds;
    info := 0;
    ok, stack := AllocSealed(m, STACK_PAGES, true, s);
    if !ok { return; }
    ghost var s1 := Point(m.mem, m.used, m.tableFrames, m.log);
    KeptRefl(m.mem, m.used, m.tableFrames);
    LaterRefl(m.log);
    ok, info := AllocInfo(m, fw, s1);
    if !ok { return; }
    SealedTrans(m, s, s1);
    KeptGrows(s.mem, s.used, s.tableFrames, s1.mem, s1.used, s1.tableFrames);
    OwnedKept(s1.mem, s1.used, s1.tableFrames, m.mem, m.used, m.tableFrames, stack, STACK_PAGES);
    OwnedUsed(s1.used, s1.tableFrames, stack, STACK_PAGES);
    ok := MapStack(m, stack, info, FirstWords(fw), s);
  }

  lemma OwnedUsed(used: set<nat>, tableFrames: set<nat>, base: nat, pages: nat)
    requires Owned(used, tableFrames, base, pages)
    ensures Frames(base, pages) <= used
  {
  }

  /** framebuffer_get: mode and mode information, then the frame buffer. */
  method FramebufferGet(m: Machine, fw: Firmware, info: nat, ghost words: seq<u64>, ghost s: Point) returns (ok: bool)
    requires Sealed(m, s) && Info(m, s, info, words) && Low(fw)
    modifies m
    ensures m.root == old(m.root) && (!ok ==> m.alloc(m.used, 1).None?)
    ensures ok ==> Sealed(m, s) && Info(m, s, info, words[GOP_MODE := fw.gopMode])
    ensures ok ==> m.log == old(m.log) + FramebufferCalls(fw)
    ensures ok ==> forall c <- FramebufferCalls(fw) ::
      || Touches(c, fw.gopMode, fw.gopMode + 9) || Touches(c, fw.gopInfo, fw.gopInfo + 9)
      || Touches(c, fw.framebuffer, fw.framebuffer + fw.framebufferSize)
    ensures ok ==> PageOf(fw.framebuffer) + fw.framebufferSize <= LOWER_LIMIT
    ensures ok ==> Covers(m.log, PageOf(fw.framebuffer), PageOf(fw.framebuffer) + fw.framebufferSize)
  {
    hide CoreOf, KeptFrom, Later, Replay, Touched, Linear, Identity, Owned, Frames, Holds, RoundUp, Covers, Touches;
    SetField(m, info, GOP_MODE, fw.gopMode, words, s);
    ghost var words' := words[GOP_MODE := fw.gopMode];
    ok := MapSelfAddr(m, fw.gopMode, 8, info, words', s);
    if !ok { return; }
    ok := MapSelfAddr(m, fw.gopInfo, 8, info, words', s);
    if !ok { return; }
    ghost var log := m.log;
    ok := MapSelf(m, fw.framebuffer, RoundUp(fw.framebufferSize), info, words', s);
    ByteRange(log, fw.framebuffer, fw.framebufferSize);
    IdentityTouches(fw.gopMode, 8);
    IdentityTouches(fw.gopInfo, 8);
  }

  /** A range mapped page by page: every byte is covered, and no page is named
      that holds none of it. */
  lemma ByteRange(log: seq<Call>, base: nat, size: nat)
    requires At(base, RoundUp(size)) <= LOWER_LIMIT
    ensures PageOf(base) + size <= LOWER_LIMIT
    ensures Covers(log + Linear(base, base, RoundUp(size), PAGE_RW), PageOf(base), PageOf(base) + size)
    ensures forall c <- Linear(base, base, RoundUp(size), PAGE_RW) :: Touches(c, base, base + size)
  {
    hide Linear, RoundUp, Covers, Touches;
    RunCovers(log, base, RoundUp(size));
    PageCounts(size);
    PageStart(base);
    CoversLess(log + Linear(base, base, RoundUp(size), PAGE_RW), PageOf(base), PageOf(base) + size, At(PageOf(base), RoundUp(size)));
    RunTouches(base, size);
  }

  function FramebufferCalls(fw: Firmware): seq<Call>
    requires Low(fw)
  {
    Identity(fw.gopMode, 8) + Identity(fw.gopInfo, 8)
    + Linear(fw.framebuffer, fw.framebuffer, RoundUp(fw.framebufferSize), PAGE_RW)
  }

  /** efi_get_image and the loop that maps the loader, then efi_get_rsdp. */
  method MapImage(m: Machine, fw: Firmware, info: nat, ghost words: seq<u64>, ghost s: Point) returns (ok: bool)
    requires Sealed(m, s) && Info(m, s, info, words) && Low(fw)
    modifies m
    ensures m.root == old(m.root) && (!ok ==> m.alloc(m.used, 1).None?)
    ensures ok ==> Sealed(m, s) && Info(m, s, info, ImageWords(fw, words))
    ensures ok ==> m.log == old(m.log) + Linear(fw.imageBase, fw.imageBase, RoundUp(fw.imageSize), PAGE_RW)
    ensures ok ==> forall c <- m.log[|old(m.log)|..] :: Touches(c, fw.imageBase, fw.imageBase + fw.imageSize)
    ensures ok ==> PageOf(fw.imageBase) + fw.imageSize <= LOWER_LIMIT
    ensures ok ==> Covers(m.log, PageOf(fw.imageBase), PageOf(fw.imageBase) + fw.imageSize)
  {
    hide CoreOf, KeptFrom, Later, Replay, Touched, Linear, Owned, Frames, Holds, RoundUp, Covers, Touches;
    ByteRange(m.log, fw.imageBase, fw.imageSize);
    SetField(m, info, IMAGE, fw.image, words, s);
    ghost var words' := words[IMAGE := fw.image];
    ok := MapSelf(m, fw.imageBase, RoundUp(fw.imageSize), info, words', s);
    if !ok { return; }
    if fw.rsdp.Some? {
      SetField(m, info, RSDP, fw.rsdp.value, words', s);
    } else {
      assert words' == ImageWords(fw, words);
    }
  }

  function ImageWords(fw: Firmware, words: seq<u64>): seq<u64>
    requires |words| == INFO_WORDS
  {
    words[IMAGE := fw.image][RSDP := if fw.rsdp.Some? then fw.rsdp.value else words[RSDP]]
  }

  ghost predicate HoldsBytes(m: Mem, a: nat, data: seq<byte>) { forall x: nat | a <= x < a + |data| :: m(x) == data[x - a] }

  /** efi_get_memory_map. When the firmware refuses, the loader carries on without
      the map. `base` is where the map went. */
  method MapMemoryMap(m: Machine, fw: Firmware, info: nat, ghost words: seq<u64>, ghost s: Point) returns (ok: bool, base: Option<nat>)
    requires Sealed(m, s) && Info(m, s, info, words) && Low(fw)
    modifies m
    ensures m.root == old(m.root) && (!ok ==> m.alloc(m.used, 1).None?)
    ensures MapPlaced(fw, base)
    ensures ok ==> Sealed(m, s) && Info(m, s, info, MapWords(fw, base, words))
    ensures ok ==> m.log == old(m.log) + MapCalls(fw, base)
    ensures ok && base.Some? && fw.memoryMap.Some? ==> HoldsBytes(m.mem, base.value, fw.memoryMap.value.data)
  {
    hide CoreOf, KeptFrom, Later, Replay, Touched, Identity, Owned, Frames, Holds, HoldsBytes, MapPages;
    ok, base := true, None;
    if fw.mapSize.None? { return; }
    SetField(m, info, MAP_KEY, fw.firstKey, words, s);
    ghost var words1 := words[MAP_KEY := fw.firstKey];
    var pages := MapPages(fw.mapSize.value);
    ghost var m1, u1, t1 := m.mem, m.used, m.tableFrames;
    var got, b := AllocSealed(m, pages, false, s);
    InfoKept(m1, u1, t1, m, s, info, words1);
    if !got { return; }
    OwnedBound(m.used, m.tableFrames, b, pages);
    OwnedUsed(u1, t1, info, 1);
    base := Some(b);
    SetField(m, info, MEMORY_MAP, b, words1, s);
    ghost var words2 := words1[MEMORY_MAP := b];
    ghost var m2, u2, t2 := m.mem, m.used, m.tableFrames;
    ok := MapSelfAddr(m, b, pages * 0x1000, info, words2, s);
    if !ok { return; }
    OwnedKept(m2, u2, t2, m.mem, m.used, m.tableFrames, b, pages);
    if fw.memoryMap.Some? { FillMap(m, fw, info, b, pages, words2, s); }
  }

  /** The second GetMemoryMap call and the fields it leads to. */
  method FillMap(m: Machine, fw: Firmware, info: nat, b: nat, pages: nat, ghost words: seq<u64>, ghost s: Point)
    requires Sealed(m, s) && Info(m, s, info, words) && Low(fw) && fw.mapSize.Some? && fw.memoryMap.Some?
    requires Owned(m.used, m.tableFrames, b, pages) && Frames(b, pages) !! s.used + Frames(info, 1)
    requires pages == MapPages(fw.mapSize.value)
    modifies m`mem
    ensures Sealed(m, s) && Info(m, s, info, FilledWords(fw.memoryMap.value, words))
    ensures HoldsBytes(m.mem, b, fw.memoryMap.value.data)
  {
    hide CoreOf, KeptFrom, Later, Replay, Touched, Owned, Frames, Holds, Copy, Store, HoldsBytes;
    var reply := fw.memoryMap.value;
    Disjoint(m.used, m.tableFrames, info, b, pages);
    HoldsCopy(m.mem, info, words, b, reply.data);
    BytesCopied(m.mem, b, reply.data);
    WriteSealed(m, b, pages, reply.data, s);
    BytesBeside(m.mem, b, reply.data, info + 8 * MAP_KEY, reply.key);
    SetField(m, info, MAP_KEY, reply.key, words, s);
    BytesBeside(m.mem, b, reply.data, info + 8 * MAP_ENTRIES, reply.Entries());
    SetField(m, info, MAP_ENTRIES, reply.Entries(), words[MAP_KEY := reply.key], s);
    BytesBeside(m.mem, b, reply.data, info + 8 * DESCRIPTOR_SIZE, reply.descriptorSize);
    SetField(m, info, DESCRIPTOR_SIZE, reply.descriptorSize,
             words[MAP_KEY := reply.key][MAP_ENTRIES := reply.Entries()], s);
  }

  function FilledWords(reply: MemoryMap, words: seq<u64>): seq<u64>
    requires |words| == INFO_WORDS && reply.descriptorSize > 0
  {
    words[MAP_KEY := reply.key][MAP_ENTRIES := reply.Entries()][DESCRIPTOR_SIZE := reply.descriptorSize]
  }

  lemma BytesCopied(m: Mem, a: nat, data: seq<byte>)
    ensures HoldsBytes(Copy(m, a, data), a, data)
  {
  }

  lemma BytesBeside(m: Mem, a: nat, data: seq<byte>, b: nat, v: u64)
    requires HoldsBytes(m, a, data) && (b + 8 <= a || a + |data| <= b)
    ensures HoldsBytes(Store(m, b, v), a, data)
  {
  }

  function MapWords(fw: Firmware, base: Option<nat>, words: seq<u64>): seq<u64>
    requires |words| == INFO_WORDS && Low(fw) && MapPlaced(fw, base)
  {
    if fw.mapSize.None? then words else
    var words := words[MAP_KEY := fw.firstKey];
    if base.None? then words else
    var words := words[MEMORY_MAP := base.value];
    if fw.memoryMap.None? then words else FilledWords(fw.memoryMap.value, words)
  }

  function MapCalls(fw: Firmware, base: Option<nat>): seq<Call>
    requires MapPlaced(fw, base)
  {
    if base.None? then [] else Identity(base.value, MapPages(fw.mapSize.value) * 0x1000)
  }

  /** loader/kernel.c:60-75: frame buffer, loader image, ACPI tables and memory map. */
  method MapFirmware(m: Machine, fw: Firmware, info: nat, ghost s: Point) returns (ok: bool, base: Option<nat>)
    requires Sealed(m, s) && Info(m, s, info, FirstWords(fw)) && Low(fw)
    modifies m
    ensures m.root == old(m.root) && (!ok ==> m.alloc(m.used, 1).None?)
    ensures MapPlaced(fw, base)
    ensures ok ==> Sealed(m, s) && Info(m, s, info, BootInfo(fw, base))
    ensures ok ==> m.log == old(m.log) + FirmwareCalls(fw) + MapCalls(fw, base)
    ensures ok && base.Some? && fw.memoryMap.Some? ==> HoldsBytes(m.mem, base.value, fw.memoryMap.value.data)
  {
    hide CoreOf, KeptFrom, Later, Replay, Touched, Linear, Identity, Owned, Frames, Holds, HoldsBytes, MapPages,
      RoundUp, Low, FramebufferCalls, MapCalls;
    base := None;
    ok := FramebufferGet(m, fw, info, FirstWords(fw), s);
    if !ok { return; }
    ghost var words := FirstWords(fw)[GOP_MODE := fw.gopMode];
    ok := MapImage(m, fw, info, words, s);
    if !ok { return; }
    ok, base := MapMemoryMap(m, fw, info, ImageWords(fw, words), s);
    BootInfoWords(fw, base);
  }

  predicate MapPlaced(fw: Firmware, base: Option<nat>) {
    base.Some? ==> fw.mapSize.Some? && At(base.value, MapPages(fw.mapSize.value)) < LOWER_LIMIT
  }

  function FirmwareCalls(fw: Firmware): seq<Call>
    requires Low(fw)
  {
    FramebufferCalls(fw) + Linear(fw.imageBase, fw.imageBase, RoundUp(fw.imageSize), PAGE_RW)
  }

  /** The boot information as the kernel gets it. A field the loader could not
      fill is zero. */
  function BootInfo(fw: Firmware, base: Option<nat>): seq<u64>
    requires Low(fw) && MapPlaced(fw, base)
  {
    var full := base.Some? && fw.memoryMap.Some?;
    [fw.handle,
     fw.st,
     fw.image,
     if base.Some? then base.value else 0,
     if full then fw.memoryMap.value.Entries() else 0,
     if full then fw.memoryMap.value.key else if fw.mapSize.Some? then fw.firstKey else 0,
     if full then fw.memoryMap.value.descriptorSize else 0,
     if fw.rsdp.Some? then fw.rsdp.value else 0,
     fw.gopMode,
     fw.copy,
     fw.copySize]
  }

  lemma BootInfoWords(fw: Firmware, base: Option<nat>)
    requires Low(fw) && MapPlaced(fw, base)
    ensures MapWords(fw, base, ImageWords(fw, FirstWords(fw)[GOP_MODE := fw.gopMode])) == BootInfo(fw, base)
  {
    hide MapPages;
  }

  // ------------------------------------------------------------------ what the kernel finds

  /** Nothing but kernel pages above and identity maps below. */
  ghost predicate Proper(log: seq<Call>) { forall c <- log :: c.virt >= UPPER_HALF || SelfCall(c) }

  lemma ProperLater(log: seq<Call>, upper: seq<Call>, log': seq<Call>)
    requires Proper(log) && UpperCalls(upper) && Later(log + upper, log')
    ensures Proper(log')
  {
    hide SelfCall;
    assert log' == (log + upper) + log'[|log + upper|..];
    forall c <- log' ensures c.virt >= UPPER_HALF || SelfCall(c) {
      if c in log {} else if c in upper {} else { assert c in log'[|log + upper|..]; }
    }
  }

  /** A mapped page was mapped by some call. */
  lemma {:induction false} ReplayMember(log: seq<Call>, p: Page) returns (c: Call)
    requires p in Replay(log)
    ensures c in log && c.Where() == p && Replay(log)[p] == c.Value()
    decreases |log|
  {
    hide Indices, Or;
    c := log[|log| - 1];
    if c.Where() != p { c := ReplayMember(log[..|log| - 1], p); }
  }

  lemma SelfEntry(v: u64)
    requires v < LOWER_LIMIT
    ensures IsPresent(Or(v, PAGE_RW)) && Frame(Or(v, PAGE_RW)) == PageOf(v)
  {
    hide And, Or, Frame;
    OrParity(v, PAGE_RW);
    LoaderFlags();
    AndOverOr(v, PAGE_RW, ADDRESS_MASK);
    RoundDown(v);
    OrZero(PageOf(v));
    CodeReadsEntry(Or(v, PAGE_RW));
  }

  /** Every byte of the range is found at its own address. */
  ghost predicate SelfMapped(m: Mem, cr3: nat, lo: nat, hi: nat) {
    forall x: u64 | lo <= x < hi :: Translate(m, cr3, x) == Some(x)
  }

  /** In the low half the tables hold nothing but identities, so whatever is
      covered is mapped to itself, however often and by whom. */
  lemma CoveredIsSelf(m: Mem, tables: map<Node, nat>, log: seq<Call>, lo: nat, hi: nat)
    requires Tree(m, tables, Replay(log)) && Proper(log) && hi <= LOWER_LIMIT && Covers(log, lo, hi)
    ensures SelfMapped(m, tables[Root], lo, hi)
  {
    hide Tree, Replay, Indices, Translate, Proper;
    RootIn(m, tables, Replay(log));
    forall x: u64 | lo <= x < hi ensures Translate(m, tables[Root], x) == Some(x) { SelfByte(m, tables, log, x); }
  }

  lemma SelfByte(m: Mem, tables: map<Node, nat>, log: seq<Call>, x: u64)
    requires Tree(m, tables, Replay(log)) && Proper(log) && x < LOWER_LIMIT && Indices(x) in Replay(log)
    ensures Translate(m, tables[Root], x) == Some(x)
  {
    hide Tree, Replay, Indices, Translate, Or, Frame;
    var c := ReplayMember(log, Indices(x));
    LowSlot(x);
    if c.virt >= UPPER_HALF {
      UpperSlot(c.virt);
    } else {
      LowSlot(c.virt);
      IndicesInjective(c.virt, x);
      SelfEntry(c.virt);
      TranslateRefines(m, tables, Replay(log), x);
    }
  }

  lemma UpperSlot(x: u64)
    requires x >= UPPER_HALF
    ensures Indices(x).a >= 256
  {
  }

  /** The page of the boot information, and every byte of graphics mode, mode
      information, frame buffer, loader and memory map, each at its own address.
      The ranges mapped page by page count from the start of their first page,
      which is the range itself when it is page-aligned. */
  ghost predicate FirmwareMapped(m: Mem, cr3: nat, fw: Firmware, info: nat, base: Option<nat>) {
    && SelfMapped(m, cr3, info, info + 0x1000)
    && SelfMapped(m, cr3, fw.gopMode, fw.gopMode + 9)
    && SelfMapped(m, cr3, fw.gopInfo, fw.gopInfo + 9)
    && SelfMapped(m, cr3, PageOf(fw.framebuffer), PageOf(fw.framebuffer) + fw.framebufferSize)
    && SelfMapped(m, cr3, PageOf(fw.imageBase), PageOf(fw.imageBase) + fw.imageSize)
    && (base.Some? && fw.mapSize.Some? ==> SelfMapped(m, cr3, base.value, base.value + fw.mapSize.value + 0x1000))
  }

  /** The page at c.virt has an address in [lo, hi). */
  predicate Touches(c: Call, lo: nat, hi: nat) { c.virt < hi && lo < c.virt + 0x1000 }

  /** No other low page is named: none that starts at or after the end of a range. */
  ghost predicate NamesOnly(calls: seq<Call>, fw: Firmware, info: nat, base: Option<nat>) {
    forall c <- calls ::
      || c.virt >= UPPER_HALF
      || c.virt == info
      || Touches(c, fw.gopMode, fw.gopMode + 9)
      || Touches(c, fw.gopInfo, fw.gopInfo + 9)
      || Touches(c, fw.framebuffer, fw.framebuffer + fw.framebufferSize)
      || Touches(c, fw.imageBase, fw.imageBase + fw.imageSize)
      || (base.Some? && fw.mapSize.Some? && Touches(c, base.value, base.value + fw.mapSize.value + 0x2000))
  }

  lemma RunTouches(base: nat, size: nat)
    requires At(base, RoundUp(size)) <= LOWER_LIMIT
    ensures forall c <- Linear(base, base, RoundUp(size), PAGE_RW) :: Touches(c, base, base + size)
  {
    hide Linear, RoundUp;
    PageCounts(size);
    forall c | c in Linear(base, base, RoundUp(size), PAGE_RW) ensures Touches(c, base, base + size) {
      LinearCalls(base, base, RoundUp(size), PAGE_RW, c);
    }
  }

  lemma IdentityTouches(start: u64, length: u64)
    requires start + length < LOWER_LIMIT
    ensures forall c <- Identity(start, length) :: Touches(c, start, start + length + 1)
  {
    hide Linear;
    LowRange(start, length);
    forall c | c in Identity(start, length) ensures Touches(c, start, start + length + 1) {
      LinearCalls(PageOf(start), PageOf(start), Span(start, length), PAGE_RW, c);
    }
  }

  lemma FirmwareNames(fw: Firmware, info: nat, base: Option<nat>)
    requires Low(fw) && MapPlaced(fw, base)
    ensures NamesOnly(FirmwareCalls(fw) + MapCalls(fw, base), fw, info, base)
  {
    hide Linear, Identity, RoundUp, MapPages, Touches;
    IdentityTouches(fw.gopMode, 8);
    IdentityTouches(fw.gopInfo, 8);
    RunTouches(fw.framebuffer, fw.framebufferSize);
    RunTouches(fw.imageBase, fw.imageSize);
    if base.Some? {
      PageCounts(fw.mapSize.value);
      IdentityTouches(base.value, MapPages(fw.mapSize.value) * 0x1000);
      forall c <- MapCalls(fw, base) ensures Touches(c, base.value, base.value + fw.mapSize.value + 0x2000) {
        TouchesMore(c, base.value, At(base.value, MapPages(fw.mapSize.value)) + 1, base.value + fw.mapSize.value + 0x2000);
      }
    }
  }

  lemma TouchesMore(c: Call, lo: nat, hi: nat, hi': nat)
    requires Touches(c, lo, hi) && hi <= hi'
    ensures Touches(c, lo, hi')
  {
  }

  /** All the calls of loader_kernel together. */
  lemma AllNamed(upper: seq<Call>, fw: Firmware, info: nat, stack: nat, base: Option<nat>)
    requires Low(fw) && MapPlaced(fw, base) && UpperCalls(upper)
    requires info + 0x1000 < LOWER_LIMIT && At(stack, STACK_PAGES) < LOWER_LIMIT
    ensures NamesOnly(upper + Linear(info, info, 1, PAGE_RW) + Linear(stack, STACK, STACK_PAGES, PAGE_RW_NX)
                      + FirmwareCalls(fw) + MapCalls(fw, base), fw, info, base)
  {
    hide Linear, FirmwareCalls, MapCalls, Touches, Low, MapPlaced;
    FirmwareNames(fw, info, base);
    StackCalls(stack);
    forall c | c in Linear(info, info, 1, PAGE_RW) ensures c.virt == info { LinearCalls(info, info, 1, PAGE_RW, c); }
    assert forall c <- FirmwareCalls(fw) :: c in FirmwareCalls(fw) + MapCalls(fw, base);
    assert forall c <- MapCalls(fw, base) :: c in FirmwareCalls(fw) + MapCalls(fw, base);
  }

  lemma AllMapped(m: Mem, tables: map<Node, nat>, log0: seq<Call>, log: seq<Call>, fw: Firmware, info: nat, stack: nat, base: Option<nat>)
    requires Low(fw) && MapPlaced(fw, base) && info % 0x1000 == 0 && info + 0x1000 <= LOWER_LIMIT && At(stack, STACK_PAGES) < LOWER_LIMIT
    requires Tree(m, tables, Replay(log)) && Proper(log)
    requires log == log0 + Linear(info, info, 1, PAGE_RW) + Linear(stack, STACK, STACK_PAGES, PAGE_RW_NX) + FirmwareCalls(fw) + MapCalls(fw, base)
    ensures Root in tables && FirmwareMapped(m, tables[Root], fw, info, base)
  {
    hide Tree, Replay, Linear, Identity, Proper, SelfMapped, Covers, RoundUp, MapPages;
    RootIn(m, tables, Replay(log));
    var a := log0 + Linear(info, info, 1, PAGE_RW);
    var b := a + Linear(stack, STACK, STACK_PAGES, PAGE_RW_NX);
    var c := b + Identity(fw.gopMode, 8);
    var d := c + Identity(fw.gopInfo, 8);
    var e := d + Linear(fw.framebuffer, fw.framebuffer, RoundUp(fw.framebufferSize), PAGE_RW);
    var f := e + Linear(fw.imageBase, fw.imageBase, RoundUp(fw.imageSize), PAGE_RW);
    assert log == f + MapCalls(fw, base);
    RunCovers(log0, info, 1);
    MappedRange(m, tables, a, log, info, info + 0x1000);
    IdentityCovers(b, fw.gopMode, 8);
    MappedRange(m, tables, c, log, fw.gopMode, fw.gopMode + 9);
    IdentityCovers(c, fw.gopInfo, 8);
    MappedRange(m, tables, d, log, fw.gopInfo, fw.gopInfo + 9);
    ByteRange(d, fw.framebuffer, fw.framebufferSize);
    MappedRange(m, tables, e, log, PageOf(fw.framebuffer), PageOf(fw.framebuffer) + fw.framebufferSize);
    ByteRange(e, fw.imageBase, fw.imageSize);
    MappedRange(m, tables, f, log, PageOf(fw.imageBase), PageOf(fw.imageBase) + fw.imageSize);
    if base.Some? {
      var length := MapPages(fw.mapSize.value) * 0x1000;
      IdentityCovers(f, base.value, length);
      PageCounts(fw.mapSize.value);
      CoversLess(log, base.value, base.value + fw.mapSize.value + 0x1000, base.value + length + 1);
      MappedRange(m, tables, log, log, base.value, base.value + fw.mapSize.value + 0x1000);
    }
  }

  lemma MappedRange(m: Mem, tables: map<Node, nat>, part: seq<Call>, log: seq<Call>, lo: nat, hi: nat)
    requires Tree(m, tables, Replay(log)) && Proper(log) && part <= log && hi <= LOWER_LIMIT && Covers(part, lo, hi)
    ensures Root in tables && SelfMapped(m, tables[Root], lo, hi)
  {
    hide Tree, Replay, Proper, Covers, SelfMapped;
    RootIn(m, tables, Replay(log));
    assert log == part + log[|part|..];
    CoversLater(part, log[|part|..], lo, hi);
    CoveredIsSelf(m, tables, log, lo, hi);
  }

  /** The stack the jump switches to. */
  ghost predicate StackMapped(m: Mem, cr3: nat, stack: nat) {
    forall x: u64 | STACK <= x < STACK + STACK_SIZE :: Translate(m, cr3, x) == Some(stack + (x - STACK))
  }

  /** Later calls in the low half leave the stack's pages alone. */
  lemma StackStays(m: Mem, tables: map<Node, nat>, before: seq<Call>, later: seq<Call>, stack: nat)
    requires stack % 0x1000 == 0 && At(stack, STACK_PAGES) < LOWER_LIMIT && (forall c <- later :: SelfCall(c))
    requires Tree(m, tables, Replay(before + Linear(stack, STACK, STACK_PAGES, PAGE_RW_NX) + later))
    ensures Root in tables && StackMapped(m, tables[Root], stack)
  {
    hide Tree, Replay, Linear, Translate, SelfCall;
    RootIn(m, tables, Replay(before + Linear(stack, STACK, STACK_PAGES, PAGE_RW_NX) + later));
    forall x: u64 | STACK <= x < STACK + STACK_SIZE ensures Translate(m, tables[Root], x) == Some(stack + (x - STACK)) {
      StackByte(m, tables, before, later, stack, x - STACK);
    }
  }

  lemma StackByte(m: Mem, tables: map<Node, nat>, before: seq<Call>, later: seq<Call>, stack: nat, k: nat)
    requires stack % 0x1000 == 0 && At(stack, STACK_PAGES) < LOWER_LIMIT && (forall c <- later :: SelfCall(c)) && k < STACK_SIZE
    requires Tree(m, tables, Replay(before + Linear(stack, STACK, STACK_PAGES, PAGE_RW_NX) + later))
    ensures Root in tables && Translate(m, tables[Root], STACK + k) == Some(stack + k)
  {
    hide Indices, Tree, Translate, Replay, Or, Frame, IsFrame, PresentFlags, Linear, Mappable;
    var i := k / 0x1000;
    StackPages();
    StackSlot(STACK + k);
    StackSlot(At(STACK, i));
    var calls := Linear(stack, STACK, STACK_PAGES, PAGE_RW_NX);
    RootIn(m, tables, Replay(before + calls + later));
    ReplayHit(before, stack, STACK, STACK_PAGES, PAGE_RW_NX, i);
    forall c <- later ensures c.Where() != Indices(At(STACK, i)) { LowSlot(c.virt); }
    ReplayAvoid(before + calls, later, Indices(At(STACK, i)));
    IndicesInjective(STACK + k, At(STACK, i));
    TranslateRefines(m, tables, Replay(before + calls + later), STACK + k);
    LoaderFlags();
    LowFrame(At(stack, i));
    LeafBits(At(stack, i), PAGE_RW_NX);
  }

  lemma FirmwareSelf(fw: Firmware, base: Option<nat>)
    requires Low(fw) && MapPlaced(fw, base)
    ensures forall c <- FirmwareCalls(fw) + MapCalls(fw, base) :: SelfCall(c)
  {
    hide Linear, SelfCall, RoundUp, MapPages;
    IdentitySelf(fw.gopMode, 8);
    IdentitySelf(fw.gopInfo, 8);
    SelfCalls(fw.framebuffer, RoundUp(fw.framebufferSize));
    SelfCalls(fw.imageBase, RoundUp(fw.imageSize));
    if base.Some? { IdentitySelf(base.value, MapPages(fw.mapSize.value) * 0x1000); }
  }

  lemma IdentitySelf(start: u64, length: u64)
    requires start + length < LOWER_LIMIT
    ensures forall c <- Identity(start, length) :: SelfCall(c)
  {
    hide Linear, SelfCall;
    LowRange(start, length);
    SelfCalls(PageOf(start), Span(start, length));
  }

  /** Words as the processor reads them, byte by byte through the tables. */
  ghost predicate Reads(m: Mem, cr3: nat, virt: nat, words: seq<u64>)
    requires virt + 8 * |words| <= 0x1_0000_0000_0000_0000
  {
    forall k, i | 0 <= k < |words| && 0 <= i < 8 :: ReadVirtual(m, cr3, virt + 8 * k + i) == Some(ByteOf(words[k], i))
  }

  /** The address of the boot information, at its place on the kernel's stack. */
  ghost predicate Receives(m: Mem, cr3: nat, info: u64) { Reads(m, cr3, STACK + STACK_SIZE - 8 * 4, [info]) }

  lemma {:induction false} ValueBytes(m: Mem, a: nat, n: nat, i: nat)
    requires i < n
    ensures ByteOf(LoadLE(m, a, n), i) == m(a + i)
    decreases n
  {
    var rest := LoadLE(m, a + 1, n - 1);
    DivUnique(m(a) + 256 * rest, 256, rest, m(a));
    if i > 0 { ValueBytes(m, a + 1, n - 1, i - 1); }
  }

  lemma WordBytes(m: Mem, a: nat, i: nat)
    requires i < 8
    ensures ByteOf(Word(m, a), i) == m(a + i)
  {
    ValueBytes(m, a, 8, i);
  }

  /** What memory holds behind a straight mapping is what the processor reads. */
  lemma HoldsReads(m: Mem, cr3: nat, virt: nat, physical: nat, words: seq<u64>)
    requires virt + 8 * |words| <= 0x1_0000_0000_0000_0000 && Holds(m, physical, words)
    requires forall x: u64 | virt <= x < virt + 8 * |words| :: Translate(m, cr3, x) == Some(physical + (x - virt))
    ensures Reads(m, cr3, virt, words)
  {
    hide Translate, Word, ByteOf;
    forall k, i | 0 <= k < |words| && 0 <= i < 8 ensures ReadVirtual(m, cr3, virt + 8 * k + i) == Some(ByteOf(words[k], i)) {
      WordBytes(m, physical + 8 * k, i);
      assert Translate(m, cr3, virt + 8 * k + i) == Some(physical + 8 * k + i);
    }
  }

  /** Everything sealed is still in memory, and visible. */
  lemma AllVisible(s: Point, m1: Mem, u1: set<nat>, t1: set<nat>, tables: map<Node, nat>, log: seq<Call>,
                   file: seq<byte>, phdrs: seq<Phdr>, places: seq<nat>)
    requires Loadable(file, phdrs) && |places| == |phdrs|
    requires AllInMemory(s.mem, s.used, s.tableFrames, Replay(s.log), file, phdrs, places)
    requires KeptFrom(s.mem, s.used, s.tableFrames, m1, u1, t1) && Later(s.log, log) && Tree(m1, tables, Replay(log))
    ensures AllInMemory(m1, u1, t1, Replay(log), file, phdrs, places)
    ensures forall j | 0 <= j < |phdrs| && phdrs[j].ptype == PT_LOAD ::
      Good(file, phdrs[j]) && Visible(m1, tables[Root], file, phdrs[j])
  {
    hide KeptFrom, Good, Tree, Replay, Visible, Indices, InMemory, SelfCall, StackCall;
    RootIn(m1, tables, Replay(log));
    var extra := log[|s.log|..];
    assert log == s.log + extra;
    forall j | 0 <= j < |phdrs| && phdrs[j].ptype == PT_LOAD
      ensures InMemory(m1, u1, t1, Replay(log), file, phdrs[j], places[j])
      ensures Good(file, phdrs[j]) && Visible(m1, tables[Root], file, phdrs[j])
    {
      GoodBounds(file, phdrs[j]);
      forall c <- extra, i | 0 <= i < phdrs[j].Pages() ensures c.Where() != Indices(At(phdrs[j].vaddr, i)) {
        KernelPage(file, phdrs[j], c, i);
      }
      StaysInMemory(s.mem, s.used, s.tableFrames, s.log, m1, u1, t1, extra, file, phdrs[j], places[j]);
      SegmentVisible(m1, u1, t1, tables, Replay(log), file, phdrs[j], places[j]);
    }
  }

  /** The stack and the low half have slots of their own. */
  lemma KernelPage(file: seq<byte>, ph: Phdr, c: Call, i: nat)
    requires Good(file, ph) && (SelfCall(c) || StackCall(c)) && i < ph.Pages()
    ensures At(ph.vaddr, i) < 0x1_0000_0000_0000_0000 && c.Where() != Indices(At(ph.vaddr, i))
  {
    hide Indices;
    UpperSlot(At(ph.vaddr, i));
    if SelfCall(c) { LowSlot(c.virt); } else { StackSlot(c.virt); }
  }

  /** loader_kernel from the empty tables to the jump. Through the tables in CR3
      the kernel then finds every PT_LOAD segment where its program header says,
      its stack, the address of the boot information on it, the boot information,
      the memory map, and the pages of frame buffer and loader at their own
      addresses. The loader stops before the jump only when the firmware refuses
      pages for a segment, for the stack or for a table. */
  method LoaderKernel(m: Machine, file: seq<byte>, phdrs: seq<Phdr>, fw: Firmware)
    returns (ok: bool, stack: nat, info: nat, base: Option<nat>, ghost places: seq<nat>)
    requires m.Valid() && Proper(m.log) && Loadable(file, phdrs) && Low(fw)
    modifies m
    ensures m.root == old(m.root)
    ensures ok ==> m.Valid() && |places| == |phdrs| && AllInMemory(m.mem, m.used, m.tableFrames, Replay(m.log), file, phdrs, places)
    ensures ok ==> forall j | 0 <= j < |phdrs| && phdrs[j].ptype == PT_LOAD ::
      Good(file, phdrs[j]) && Visible(m.mem, m.root, file, phdrs[j])
    ensures ok ==> StackMapped(m.mem, m.root, stack) && info < LOWER_LIMIT && Receives(m.mem, m.root, info)
    ensures ok ==> MapPlaced(fw, base) && Reads(m.mem, m.root, info, BootInfo(fw, base))
    ensures ok ==> info + 0x1000 <= LOWER_LIMIT && FirmwareMapped(m.mem, m.root, fw, info, base)
    ensures ok ==> old(m.log) <= m.log && NamesOnly(m.log[|old(m.log)|..], fw, info, base)
    ensures ok && base.Some? && fw.memoryMap.Some? ==> HoldsBytes(m.mem, base.value, fw.memoryMap.value.data)
    ensures !ok ==>
      || m.alloc(m.used, 1).None? || m.alloc(m.used, STACK_PAGES).None?
      || exists j | 0 <= j < |phdrs| && phdrs[j].ptype == PT_LOAD :: m.alloc(m.used, phdrs[j].Pages()).None?
  {
    hide CoreOf, KeptFrom, Good, AllInMemory, Replay, Touched, Later, Visible, Low, Linear, FirmwareCalls, MapCalls, StackMapped,
      Holds, HoldsBytes, Frames, Owned, Proper, MapPlaced, FirmwareMapped, NamesOnly, Reads, BootInfo, UpperCalls, SelfCall;
    stack, info, base := 0, 0, None;
    ok, places := LoadPhdrs(m, file, phdrs);
    if !ok { return; }
    ghost var s0 := Point(m.mem, m.used, m.tableFrames, m.log);
    KeptRefl(m.mem, m.used, m.tableFrames);
    LaterRefl(m.log);
    ok, stack, info := MapStackAndInfo(m, fw, s0);
    if !ok { return; }
    ghost var frames := Frames(info, 1);
    ghost var s1 := Point(m.mem, m.used - frames, m.tableFrames, m.log);
    KeptWithout(s0.mem, s0.used, s0.tableFrames, m.mem, m.used, m.tableFrames, frames);
    OwnedWithout(m.used, m.tableFrames, stack, STACK_PAGES, frames);
    KeptFewer(m.mem, m.used, m.tableFrames, frames);
    LaterRefl(m.log);
    ok, base := MapFirmware(m, fw, info, s1);
    if !ok { return; }
    SealedTrans(m, s0, s1);
    CoreFacts(m.alloc, m.before, m.mem, m.used, m.root, m.tables, m.tableFrames, m.dataFrames, Replay(m.log));
    AllVisible(s0, m.mem, m.used, m.tableFrames, m.tables, m.log, file, phdrs, places);
    ghost var upper := s0.log[|old(m.log)|..];
    assert s0.log == old(m.log) + upper;
    AllNamed(upper, fw, info, stack, base);
    assert m.log[|old(m.log)|..] == upper + Linear(info, info, 1, PAGE_RW) + Linear(stack, STACK, STACK_PAGES, PAGE_RW_NX)
      + FirmwareCalls(fw) + MapCalls(fw, base);
    ProperLater(old(m.log), s0.log[|old(m.log)|..], m.log);
    OwnedBound(m.used, m.tableFrames, info, 1);
    KernelFinds(s0.log, s1, m.mem, m.used, m.tableFrames, m.tables, fw, stack, info, base);
  }

  /** What the kernel reads besides its segments. */
  lemma KernelFinds(log0: seq<Call>, s: Point, mem: Mem, used: set<nat>, tableFrames: set<nat>, tables: map<Node, nat>,
                    fw: Firmware, stack: nat, info: nat, base: Option<nat>)
    requires Low(fw) && MapPlaced(fw, base) && info % 0x1000 == 0 && info + 0x1000 < LOWER_LIMIT && At(stack, STACK_PAGES) < LOWER_LIMIT
    requires s.log == log0 + Linear(info, info, 1, PAGE_RW) + Linear(stack, STACK, STACK_PAGES, PAGE_RW_NX)
    requires var log := s.log + FirmwareCalls(fw) + MapCalls(fw, base); Tree(mem, tables, Replay(log)) && Proper(log)
    requires Owned(s.used, s.tableFrames, stack, STACK_PAGES) && Passes(s.mem, stack, info)
    requires KeptFrom(s.mem, s.used, s.tableFrames, mem, used, tableFrames) && Holds(mem, info, BootInfo(fw, base))
    ensures Root in tables && StackMapped(mem, tables[Root], stack) && FirmwareMapped(mem, tables[Root], fw, info, base)
    ensures Reads(mem, tables[Root], info, BootInfo(fw, base)) && Receives(mem, tables[Root], info)
  {
    hide Tree, Replay, Linear, Low, Translate, KeptFrom, Frames, FirmwareCalls, MapCalls, Holds, Proper, Reads, SelfCall;
    var log := s.log + FirmwareCalls(fw) + MapCalls(fw, base);
    AllMapped(mem, tables, log0, log, fw, info, stack, base);
    FirmwareSelf(fw, base);
    assert log == log0 + Linear(info, info, 1, PAGE_RW) + Linear(stack, STACK, STACK_PAGES, PAGE_RW_NX)
      + (FirmwareCalls(fw) + MapCalls(fw, base));
    StackStays(mem, tables, log0 + Linear(info, info, 1, PAGE_RW), FirmwareCalls(fw) + MapCalls(fw, base), stack);
    HoldsReads(mem, tables[Root], info, info, BootInfo(fw, base));
    HoldsKept(s.mem, s.used, s.tableFrames, mem, used, tableFrames, stack, STACK_PAGES, stack + STACK_SIZE - 8 * 4, [info]);
    HoldsReads(mem, tables[Root], STACK + STACK_SIZE - 8 * 4, stack + STACK_SIZE - 8 * 4, [info]);
  }

  lemma OwnedWithout(used: set<nat>, tableFrames: set<nat>, base: nat, pages: nat, frames: set<nat>)
    requires Owned(used, tableFrames, base, pages) && Frames(base, pages) !! frames
    ensures Owned(used - frames, tableFrames, base, pages)
  {
  }

  lemma KeptWithout(m0: Mem, u0: set<nat>, t0: set<nat>, m1: Mem, u1: set<nat>, t1: set<nat>, frames: set<nat>)
    requires KeptFrom(m0, u0, t0, m1, u1, t1) && frames !! u0
    ensures KeptFrom(m0, u0, t0, m1, u1 - frames, t1)
  {
    hide Number;
  }

  lemma KeptFewer(m: Mem, used: set<nat>, tables: set<nat>, frames: set<nat>)
    ensures KeptFrom(m, used - frames, tables, m, used, tables)
  {
  }
}
