/** Runs of consecutive pages: what a loop of loader_paging_map calls does to
    the plain map, and what the hardware then sees. */
module Ranges {
  import opened Words
  import opened Memory
  import opened Paging

  /** `base + (i << 12)` */
  function At(base: nat, i: nat): nat { base + i * 0x1000 }

  /** The addresses of the pages are canonical and outside the recursive slot. */
  ghost predicate Mappable(virt: nat, pages: nat) {
    && At(virt, pages) <= 0x1_0000_0000_0000_0000
    && forall i :: 0 <= i < pages ==> Canonical(At(virt, i)) && Indices(At(virt, i)).a != RECURSIVE
  }

  /** The calls a loop over `pages` pages makes. */
  function Linear(physical: nat, virt: nat, pages: nat, flags: u64): (calls: seq<Call>)
    requires At(physical, pages) <= 0x1_0000_0000_0000_0000 && At(virt, pages) <= 0x1_0000_0000_0000_0000
    ensures |calls| == pages
  {
    if pages == 0 then []
    else Linear(physical, virt, pages - 1, flags) + [Call(At(physical, pages - 1), At(virt, pages - 1), flags)]
  }

  lemma ReplayLast(log: seq<Call>, c: Call)
    ensures Replay(log + [c]) == Replay(log)[c.Where() := c.Value()]
  {
    assert (log + [c])[..|log|] == log;
  }

  lemma AppendLinear(log: seq<Call>, physical: nat, virt: nat, pages: nat, flags: u64)
    requires pages > 0
    requires At(physical, pages) <= 0x1_0000_0000_0000_0000 && At(virt, pages) <= 0x1_0000_0000_0000_0000
    ensures log + Linear(physical, virt, pages, flags)
         == log + Linear(physical, virt, pages - 1, flags) + [Call(At(physical, pages - 1), At(virt, pages - 1), flags)]
  {
  }

  /** Pages that no call names keep their entries. */
  lemma {:induction false} ReplayAvoid(log: seq<Call>, extra: seq<Call>, p: Page)
    requires forall c <- extra :: c.Where() != p
    ensures Lookup(Replay(log + extra), p) == Lookup(Replay(log), p)
    decreases |extra|
  {
    hide Indices, Or;
    if extra == [] {
      assert log + extra == log;
    } else {
      var init, c := extra[..|extra| - 1], extra[|extra| - 1];
      assert extra == init + [c];
      assert log + extra == (log + init) + [c];
      ReplayAvoid(log, init, p);
      ReplayLast(log + init, c);
    }
  }

  /** A mapped page stays mapped. */
  lemma {:induction false} ReplayGrows(log: seq<Call>, extra: seq<Call>, p: Page)
    requires p in Replay(log)
    ensures p in Replay(log + extra)
    decreases |extra|
  {
    hide Indices, Or;
    if extra == [] {
      assert log + extra == log;
    } else {
      var init, c := extra[..|extra| - 1], extra[|extra| - 1];
      assert log + extra == (log + init) + [c];
      ReplayGrows(log, init, p);
      ReplayLast(log + init, c);
    }
  }

  lemma {:induction false} LinearCalls(physical: nat, virt: nat, pages: nat, flags: u64, c: Call)
    requires At(physical, pages) <= 0x1_0000_0000_0000_0000 && At(virt, pages) <= 0x1_0000_0000_0000_0000
    requires c in Linear(physical, virt, pages, flags)
    ensures exists i :: 0 <= i < pages && c == Call(At(physical, i), At(virt, i), flags)
    decreases pages
  {
    if c in Linear(physical, virt, pages - 1, flags) { LinearCalls(physical, virt, pages - 1, flags, c); }
  }

  /** Page i of the loop ends up with physical page i. */
  lemma {:induction false} ReplayHit(log: seq<Call>, physical: nat, virt: nat, pages: nat, flags: u64, i: nat)
    requires At(physical, pages) <= 0x1_0000_0000_0000_0000 && Mappable(virt, pages) && i < pages
    ensures Lookup(Replay(log + Linear(physical, virt, pages, flags)), Indices(At(virt, i))) == Or(At(physical, i), flags)
    ensures Indices(At(virt, i)) in Replay(log + Linear(physical, virt, pages, flags))
    decreases pages
  {
    hide Indices, Or;
    AppendLinear(log, physical, virt, pages, flags);
    var c := Call(At(physical, pages - 1), At(virt, pages - 1), flags);
    ReplayLast(log + Linear(physical, virt, pages - 1, flags), c);
    if i < pages - 1 {
      ReplayHit(log, physical, virt, pages - 1, flags, i);
      DistinctPages(virt, i, pages - 1);
    }
  }

  lemma DistinctPages(virt: nat, i: nat, j: nat)
    requires At(virt, i) < 0x1_0000_0000_0000_0000 && At(virt, j) < 0x1_0000_0000_0000_0000
    requires Canonical(At(virt, i)) && Canonical(At(virt, j)) && i < j
    ensures Indices(At(virt, i)) != Indices(At(virt, j))
  {
    hide Indices;
    IndicesInjective(At(virt, i), At(virt, j));
  }

  /** A whole address through the tables, in terms of the plain map. */
  lemma TranslateRefines(m: Mem, tables: map<Node, nat>, leaves: map<Page, nat>, virt: u64)
    requires Tree(m, tables, leaves) && Canonical(virt) && Indices(virt).a != RECURSIVE
    ensures var e := Lookup(leaves, Indices(virt));
      Translate(m, tables[Root], virt) == if IsPresent(e) then Some(Frame(e) + virt % 0x1000) else None
  {
    hide Indices, HardwareIndices, Walk, Tree, Frame;
    IndicesBijection(virt);
    WalkRefines(m, tables, leaves, Indices(virt));
  }

  /** Flags that include PRESENT and leave the address bits alone. */
  predicate PresentFlags(flags: u64) { flags % 2 == 1 && And(flags, ADDRESS_MASK) == 0 }

  lemma LeafBits(physical: nat, flags: u64)
    requires IsFrame(physical) && PresentFlags(flags)
    ensures IsPresent(Or(physical, flags)) && Frame(Or(physical, flags)) == physical
  {
    hide IsFrame, Frame, And, Or;
    AndOverOr(physical, flags, ADDRESS_MASK);
    OrParity(physical, flags);
    CodeReadsEntry(physical);
    CodeReadsEntry(Or(physical, flags));
    LowBits(physical, 0);
    OrZero(physical);
  }

  /** The flags the loader passes are such flags. */
  lemma LoaderFlags()
    ensures Or(PAGE_PRESENT, PAGE_WRITE) == 3 && PresentFlags(3)
    ensures Or(3, PAGE_NX) == PAGE_NX + 3 && PresentFlags(PAGE_NX + 3)
  {
    hide And, Or, PresentFlags;
    OneOrTwo();
    FlagBits(3);
    FlagBits(PAGE_NX + 3);
    NxApart();
    OrDisjoint(3, PAGE_NX);
  }

  lemma OneOrTwo()
    ensures Or(1, 2) == 3
  {
  }

  lemma FlagBits(flags: u64)
    requires flags % 2 == 1 && flags / 0x1000 % 0x100_0000_0000 == 0
    ensures PresentFlags(flags)
  {
    hide And;
    AndAddressMask(flags);
  }

  lemma NxApart()
    ensures And(3, PAGE_NX) == 0
  {
    hide And;
    AndDouble(3, 0x4000_0000_0000_0000);
    AndDouble(1, 0x2000_0000_0000_0000);
    AndZero(0x2000_0000_0000_0000);
  }

  lemma AndZero(x: nat)
    ensures And(0, x) == 0
  {
  }

  // ------------------------------------------------------------------ identity ranges

  function PageOf(x: nat): nat { x - x % 0x1000 }

  /** The number of pages that [start, start+length] touches. */
  function Span(start: nat, length: nat): nat { 1 + ((start + length) / 0x1000 - start / 0x1000) }

  /** `start & 0x000FFFFFFFFFF000UL` */
  lemma RoundDown(start: u64)
    requires start < LOWER_LIMIT
    ensures And(start, ADDRESS_MASK) == PageOf(start)
  {
    hide And;
    AndAddressMask(start);
    var f := start / 0x1000;
    assert f < 0x8_0000_0000;
    DivUnique(f, 0x100_0000_0000, 0, f);
  }

  lemma LowSlot(x: u64)
    requires x < LOWER_LIMIT
    ensures Canonical(x) && Indices(x).a < 256
  {
  }

  lemma LowRange(start: u64, length: u64)
    requires start + length < LOWER_LIMIT
    ensures Mappable(PageOf(start), Span(start, length))
    ensures At(PageOf(start), Span(start, length)) <= LOWER_LIMIT
  {
    hide Indices, Canonical;
    var n := Span(start, length);
    assert At(PageOf(start), n - 1) == PageOf(start + length);
    forall i | 0 <= i < n
      ensures Canonical(At(PageOf(start), i)) && Indices(At(PageOf(start), i)).a != RECURSIVE
    {
      LowSlot(At(PageOf(start), i));
    }
  }

  lemma IdentityByte(m: Mem, tables: map<Node, nat>, log: seq<Call>, start: u64, length: u64, flags: u64, x: u64)
    requires start + length < LOWER_LIMIT && PresentFlags(flags) && start <= x <= start + length
    requires At(PageOf(start), Span(start, length)) <= LOWER_LIMIT
    requires Tree(m, tables, Replay(log + Linear(PageOf(start), PageOf(start), Span(start, length), flags)))
    ensures Translate(m, tables[Root], x) == Some(x)
  {
    hide Indices, Tree, Translate, Replay, Or, Frame, IsFrame, PresentFlags, Linear, Canonical, Mappable;
    var page := PageOf(start);
    var i := x / 0x1000 - start / 0x1000;
    LowRange(start, length);
    LowSlot(x);
    assert At(page, i) == PageOf(x);
    LowSlot(At(page, i));
    ReplayHit(log, page, page, Span(start, length), flags, i);
    IndicesInjective(At(page, i), x) by { assert At(page, i) / 0x1000 == x / 0x1000; }
    TranslateRefines(m, tables, Replay(log + Linear(page, page, Span(start, length), flags)), x);
    assert IsFrame(At(page, i)) by { LowFrame(PageOf(x)); }
    LeafBits(At(page, i), flags);
  }

  lemma LowFrame(x: nat)
    requires x % 0x1000 == 0 && x + 0x1000 <= LOWER_LIMIT
    ensures IsFrame(x)
  {
  }

  lemma IdentityOutside(log: seq<Call>, start: u64, length: u64, flags: u64, p: Page)
    requires start + length < LOWER_LIMIT && p.Ordinary()
    requires !(start / 0x1000 <= Address(p) / 0x1000 <= (start + length) / 0x1000)
    requires At(PageOf(start), Span(start, length)) <= LOWER_LIMIT
    ensures Lookup(Replay(log + Linear(PageOf(start), PageOf(start), Span(start, length), flags)), p) == Lookup(Replay(log), p)
  {
    hide Indices, Address, Canonical, Mappable, Linear;
    var page := PageOf(start);
    forall i | 0 <= i < Span(start, length) ensures Indices(At(page, i)) != p {
      AddressInverse(p);
      LowSlot(At(page, i));
      IndicesInjective(At(page, i), Address(p));
      assert At(page, i) / 0x1000 == start / 0x1000 + i;
    }
    var calls := Linear(page, page, Span(start, length), flags);
    forall c | c in calls ensures c.Where() != p { LinearCalls(page, page, Span(start, length), flags, c); }
    ReplayAvoid(log, calls, p);
  }
}
