/** What the loader leaves alone once a segment is in place: a seal on memory
    and log since some moment, and the operations that keep it
    (loader/kernel.c:39-78, loader/paging.c:67-76). */
module Seal {
  import opened Words
  import opened Memory
  import opened Paging
  import opened Ranges
  import opened AddressSpace
  import opened Kernel

  const PAGE_RW: u64 := 3
  const PAGE_RW_NX: u64 := 0x8000_0000_0000_0003

  /** A moment of the machine. */
  datatype Point = Point(mem: Mem, used: set<nat>, tableFrames: set<nat>, log: seq<Call>)

  /** A page below 2^47 mapped to itself. */
  predicate SelfCall(c: Call) { c.virt < LOWER_LIMIT && c.physical == c.virt && c.flags == PAGE_RW }

  predicate StackCall(c: Call) { STACK <= c.virt < STACK + STACK_SIZE }

  /** Since that moment only later frames were written, and only the stack and
      identity maps of the low half were added. */
  ghost predicate Sealed(m: Machine, s: Point)
    reads m
  {
    m.Valid() && m.Kept(s.mem, s.used, s.tableFrames) && Later(s.log, m.log)
  }

  ghost predicate Later(log0: seq<Call>, log: seq<Call>) {
    |log0| <= |log| && log[..|log0|] == log0 && forall c <- log[|log0|..] :: SelfCall(c) || StackCall(c)
  }

  lemma LaterMore(log0: seq<Call>, log: seq<Call>, extra: seq<Call>)
    requires Later(log0, log) && forall c <- extra :: SelfCall(c) || StackCall(c)
    ensures Later(log0, log + extra)
  {
    hide SelfCall, StackCall;
    assert (log + extra)[|log0|..] == log[|log0|..] + extra;
  }

  lemma LaterRefl(log: seq<Call>)
    ensures Later(log, log)
  {
  }

  lemma LaterTrans(log0: seq<Call>, log1: seq<Call>, log2: seq<Call>)
    requires Later(log0, log1) && Later(log1, log2)
    ensures Later(log0, log2)
  {
    hide SelfCall, StackCall;
    assert log2[|log0|..] == log1[|log0|..] + log2[|log1|..];
  }

  /** Every address of the range lies on a page that some call named. */
  ghost predicate Covers(log: seq<Call>, lo: nat, hi: nat)
    requires hi <= LOWER_LIMIT
  {
    forall x: u64 | lo <= x < hi :: Indices(x) in Replay(log)
  }

  lemma CoversLater(log: seq<Call>, extra: seq<Call>, lo: nat, hi: nat)
    requires hi <= LOWER_LIMIT && Covers(log, lo, hi)
    ensures Covers(log + extra, lo, hi)
  {
    hide Indices, Replay;
    forall x: u64 | lo <= x < hi ensures Indices(x) in Replay(log + extra) { ReplayGrows(log, extra, Indices(x)); }
  }

  lemma CoversLess(log: seq<Call>, lo: nat, hi: nat, hi': nat)
    requires hi <= hi' <= LOWER_LIMIT && Covers(log, lo, hi')
    ensures Covers(log, lo, hi)
  {
    hide Indices, Replay;
  }

  lemma PageStart(base: nat)
    ensures PageOf(base) <= base
  {
  }

  /** A run of pages covers its addresses from the start of the first page. */
  lemma RunCovers(log: seq<Call>, base: nat, pages: nat)
    requires At(base, pages) <= LOWER_LIMIT
    ensures At(PageOf(base), pages) <= LOWER_LIMIT
    ensures Covers(log + Linear(base, base, pages, PAGE_RW), PageOf(base), At(PageOf(base), pages))
  {
    hide Indices, Replay, Or, Linear, Mappable;
    PageStart(base);
    LowPages(base, pages);
    forall x: u64 | PageOf(base) <= x < At(PageOf(base), pages)
      ensures Indices(x) in Replay(log + Linear(base, base, pages, PAGE_RW))
    {
      var i := (x - PageOf(base)) / 0x1000;
      ByteInPage(base, x - PageOf(base));
      PageNumbers(base, i);
      LowSlot(x);
      LowSlot(At(base, i));
      IndicesInjective(x, At(base, i));
      ReplayHit(log, base, base, pages, PAGE_RW, i);
    }
  }

  lemma LowPages(virt: nat, pages: nat)
    requires At(virt, pages) <= LOWER_LIMIT
    ensures Mappable(virt, pages)
  {
    hide Indices, Canonical;
    forall i | 0 <= i < pages ensures Canonical(At(virt, i)) && Indices(At(virt, i)).a != RECURSIVE {
      LowSlot(At(virt, i));
    }
  }

  lemma SelfCalls(base: nat, pages: nat)
    requires At(base, pages) <= LOWER_LIMIT
    ensures forall c <- Linear(base, base, pages, PAGE_RW) :: SelfCall(c)
  {
    hide Linear;
    forall c | c in Linear(base, base, pages, PAGE_RW) ensures SelfCall(c) {
      LinearCalls(base, base, pages, PAGE_RW, c);
    }
  }

  lemma StackCalls(stack: nat)
    requires At(stack, STACK_PAGES) <= LOWER_LIMIT
    ensures forall c <- Linear(stack, STACK, STACK_PAGES, PAGE_RW_NX) :: StackCall(c)
  {
    hide Linear;
    forall c | c in Linear(stack, STACK, STACK_PAGES, PAGE_RW_NX) ensures StackCall(c) {
      LinearCalls(stack, STACK, STACK_PAGES, PAGE_RW_NX, c);
    }
  }

  /** The calls of loader_paging_map_addr for [start, start+length]. */
  function Identity(start: u64, length: u64): seq<Call>
    requires start + length < LOWER_LIMIT
  {
    LowRange(start, length);
    Linear(PageOf(start), PageOf(start), Span(start, length), PAGE_RW)
  }

  lemma IdentityCovers(log: seq<Call>, start: u64, length: u64)
    requires start + length < LOWER_LIMIT
    ensures Covers(log + Identity(start, length), start, start + length + 1)
  {
    hide Indices, Replay, Linear;
    LowRange(start, length);
    RunCovers(log, PageOf(start), Span(start, length));
    assert PageOf(PageOf(start)) == PageOf(start) <= start;
    assert start + length < At(PageOf(start), Span(start, length));
  }

  // ------------------------------------------------------------------ frames for data

  /** The frames were handed out, and not for tables. */
  ghost predicate Owned(used: set<nat>, tableFrames: set<nat>, base: nat, pages: nat) {
    base % 0x1000 == 0 && At(base, pages) < LOWER_LIMIT && Frames(base, pages) <= used && Frames(base, pages) !! tableFrames
  }

  /** Such frames never become tables. */
  lemma OwnedKept(m0: Mem, u0: set<nat>, t0: set<nat>, m1: Mem, u1: set<nat>, t1: set<nat>, base: nat, pages: nat)
    requires KeptFrom(m0, u0, t0, m1, u1, t1) && Owned(u0, t0, base, pages)
    ensures Owned(u1, t1, base, pages)
  {
    hide Number;
  }

  /** uefi_alloc_pages (cleared) or AllocatePages (not cleared). */
  method AllocSealed(m: Machine, pages: nat, cleared: bool, ghost s: Point) returns (ok: bool, base: nat)
    requires Sealed(m, s)
    modifies m
    ensures m.root == old(m.root) && m.log == old(m.log) && Sealed(m, s)
    ensures m.Kept(old(m.mem), old(m.used), old(m.tableFrames))
    ensures ok ==> Owned(m.used, m.tableFrames, base, pages) && Frames(base, pages) !! old(m.used) && Frames(base, pages) !! s.used
    ensures ok && cleared ==> forall x: nat | base <= x < At(base, pages) :: m.mem(x) == 0
    ensures !ok ==> m.alloc(m.used, pages).None?
  {
    hide CoreOf, KeptFrom, Later, Replay, Touched, Frames, Number;
    KeptGrows(s.mem, s.used, s.tableFrames, m.mem, m.used, m.tableFrames);
    TablesUsed(m);
    ok, base := m.AllocData(pages);
    KeptMore(m.mem, old(m.used), m.tableFrames, m.used);
    KeptTrans(s.mem, s.used, s.tableFrames, m.mem, old(m.used), m.tableFrames, m.mem, m.used, m.tableFrames);
    if ok && cleared {
      forall x: nat | base <= x < At(base, pages) ensures Number(x) in Frames(base, pages) { BytesInFrames(base, pages, x); }
      KeptClear(s.mem, s.used, s.tableFrames, m.mem, m.used, m.tableFrames, base, pages * 0x1000);
      KeptClear(m.mem, old(m.used), m.tableFrames, m.mem, m.used, m.tableFrames, base, pages * 0x1000);
      m.ClearOut(base, pages * 0x1000);
    }
  }

  lemma KeptGrows(m0: Mem, u0: set<nat>, t0: set<nat>, m1: Mem, u1: set<nat>, t1: set<nat>)
    requires KeptFrom(m0, u0, t0, m1, u1, t1)
    ensures u0 <= u1
  {
  }

  /** A firmware write into frames of its own. */
  method WriteSealed(m: Machine, base: nat, pages: nat, data: seq<byte>, ghost s: Point)
    requires Sealed(m, s) && Owned(m.used, m.tableFrames, base, pages) && Frames(base, pages) !! s.used && |data| <= At(0, pages)
    modifies m`mem
    ensures Sealed(m, s) && m.mem == Copy(old(m.mem), base, data)
  {
    hide CoreOf, KeptFrom, Later, Replay, Touched, Frames, Copy, Number;
    forall x: nat | base <= x < At(base, pages) ensures Number(x) in Frames(base, pages) { BytesInFrames(base, pages, x); }
    KeptCopy(s.mem, s.used, s.tableFrames, m.mem, m.used, m.tableFrames, base, data);
    m.CopyIn(base, data);
  }

  /** `*(uint64_t *) a = v` in such frames. */
  method StoreSealed(m: Machine, base: nat, pages: nat, a: nat, v: u64, ghost s: Point)
    requires Sealed(m, s) && Owned(m.used, m.tableFrames, base, pages) && Frames(base, pages) !! s.used
    requires base <= a && a + 8 <= At(base, pages)
    modifies m`mem
    ensures Sealed(m, s) && m.mem == Store(old(m.mem), a, v)
  {
    hide CoreOf, KeptFrom, Later, Replay, Touched, Frames, Store, Number;
    forall x: nat | a <= x < a + 8 ensures Number(x) in Frames(base, pages) { BytesInFrames(base, pages, x); }
    KeptStore(s.mem, s.used, s.tableFrames, m.mem, m.used, m.tableFrames, a, v);
    m.StoreIn(a, v);
  }

  lemma KeptStore(m0: Mem, u0: set<nat>, t0: set<nat>, m1: Mem, u1: set<nat>, t1: set<nat>, a: nat, v: nat)
    requires KeptFrom(m0, u0, t0, m1, u1, t1) && forall x | a <= x < a + 8 :: Number(x) !in u0
    ensures KeptFrom(m0, u0, t0, Store(m1, a, v), u1, t1)
  {
    hide Number;
  }
}
