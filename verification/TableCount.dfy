/** How many frames the tables take: one per region of addresses that was
    touched, and the root (loader/paging.c:43-62). */
module TableCount {
  import opened Paging
  import opened AddressSpace

  /** The distinct regions of `size` bytes in which calls mapped pages. */
  function Regions(log: seq<Call>, size: nat): set<nat>
    requires size > 0
  {
    set c | c in log :: c.virt / size
  }

  ghost predicate AllCanonical(log: seq<Call>) { forall c <- log :: Canonical(c.virt) }

  // The table that serves a region, from the region's number.
  function Table3(q: nat): Node { L3(q % 512) }
  function Table2(q: nat): Node { L2(q / 512 % 512, q % 512) }
  function Table1(q: nat): Node { L1(q / 512 / 512 % 512, q / 512 % 512, q % 512) }

  predicate CanonicalRegion(q: nat, low: nat, high: nat) { q < low || high <= q < high + low }

  lemma CallTables(c: Call)
    requires Canonical(c.virt)
    ensures var p := c.Where();
      && Table3(c.virt / 0x80_0000_0000) == L3(p.a)
      && Table2(c.virt / 0x4000_0000) == L2(p.a, p.b)
      && Table1(c.virt / 0x20_0000) == L1(p.a, p.b, p.c)
  {
    hide Indices;
    CodeDigits(c.virt);
    DivideInSteps(c.virt);
  }

  lemma CallRegions(c: Call)
    requires Canonical(c.virt)
    ensures CanonicalRegion(c.virt / 0x80_0000_0000, 0x100, 0x1FF_FF00)
    ensures CanonicalRegion(c.virt / 0x4000_0000, 0x2_0000, 0x3_FFFE_0000)
    ensures CanonicalRegion(c.virt / 0x20_0000, 0x400_0000, 0x7FF_FC00_0000)
  {
  }

  lemma Table3Injective(q: nat, r: nat)
    requires CanonicalRegion(q, 0x100, 0x1FF_FF00) && CanonicalRegion(r, 0x100, 0x1FF_FF00) && Table3(q) == Table3(r)
    ensures q == r
  {
  }

  lemma Table2Injective(q: nat, r: nat)
    requires CanonicalRegion(q, 0x2_0000, 0x3_FFFE_0000) && CanonicalRegion(r, 0x2_0000, 0x3_FFFE_0000) && Table2(q) == Table2(r)
    ensures q == r
  {
    Table3Injective(q / 512, r / 512);
  }

  lemma Table1Injective(q: nat, r: nat)
    requires CanonicalRegion(q, 0x400_0000, 0x7FF_FC00_0000) && CanonicalRegion(r, 0x400_0000, 0x7FF_FC00_0000) && Table1(q) == Table1(r)
    ensures q == r
  {
    Table2Injective(q / 512, r / 512);
  }

  /** An injective image is as large as the set. */
  lemma {:induction false} ImageSize(s: set<nat>, f: nat -> Node)
    requires forall q, r | q in s && r in s && f(q) == f(r) :: q == r
    ensures |set q | q in s :: f(q)| == |s|
    decreases |s|
  {
    if s != {} {
      var x :| x in s;
      ImageSize(s - {x}, f);
      assert (set q | q in s :: f(q)) == (set q | q in s - {x} :: f(q)) + {f(x)};
    }
  }

  lemma {:induction false} TouchedImage(log: seq<Call>)
    requires AllCanonical(log)
    ensures Touched(log) == {Root}
      + (set q | q in Regions(log, 0x80_0000_0000) :: Table3(q))
      + (set q | q in Regions(log, 0x4000_0000) :: Table2(q))
      + (set q | q in Regions(log, 0x20_0000) :: Table1(q))
    decreases |log|
  {
    hide Canonical, Table1, Table2, Table3, Regions, Indices;
    if log == [] {
      NoRegions(0x80_0000_0000);
      NoRegions(0x4000_0000);
      NoRegions(0x20_0000);
    } else {
      var init, c := log[..|log| - 1], log[|log| - 1];
      assert log == init + [c];
      TouchedImage(init);
      CallTables(c);
      RegionsLast(init, c, 0x80_0000_0000);
      RegionsLast(init, c, 0x4000_0000);
      RegionsLast(init, c, 0x20_0000);
    }
  }

  lemma NoRegions(size: nat)
    requires size > 0
    ensures Regions([], size) == {}
  {
  }

  lemma RegionsLast(log: seq<Call>, c: Call, size: nat)
    requires size > 0
    ensures Regions(log + [c], size) == Regions(log, size) + {c.virt / size}
  {
    assert forall x :: x in log + [c] <==> x in log || x == c;
  }

  /** Frames taken for tables: the root and one per 512 GiB, 1 GiB and 2 MiB
      region that holds a mapped page. */
  lemma TablesMatchRegions(log: seq<Call>)
    requires AllCanonical(log)
    ensures |Touched(log)| ==
      1 + |Regions(log, 0x80_0000_0000)| + |Regions(log, 0x4000_0000)| + |Regions(log, 0x20_0000)|
  {
    hide Canonical, Table1, Table2, Table3, Regions;
    TouchedImage(log);
    Size3(log);
    Size2(log);
    Size1(log);
    Apart(Regions(log, 0x80_0000_0000), Regions(log, 0x4000_0000), Regions(log, 0x20_0000));
  }

  /** In every reachable state: of the frames the firmware handed out since the
      start, those that are not data number one plus the regions touched. So a
      table is allocated only when it is missing, and no frame is lost. */
  lemma FramesMatchRegions(m: Machine)
    requires m.Valid() && AllCanonical(m.log)
    ensures m.before <= m.used
    ensures |m.used - m.before - m.dataFrames| ==
      1 + |Regions(m.log, 0x80_0000_0000)| + |Regions(m.log, 0x4000_0000)| + |Regions(m.log, 0x20_0000)|
  {
    hide Tree, Touched, Honest, Regions, Canonical;
    TablesMatchRegions(m.log);
    assert m.used - m.before - m.dataFrames == m.tableFrames;
    assert m.tables.Keys == Touched(m.log);
  }

  lemma Size3(log: seq<Call>)
    requires AllCanonical(log)
    ensures |set q | q in Regions(log, 0x80_0000_0000) :: Table3(q)| == |Regions(log, 0x80_0000_0000)|
  {
    hide Canonical, CanonicalRegion, Table3;
    var s := Regions(log, 0x80_0000_0000);
    forall c | c in log ensures CanonicalRegion(c.virt / 0x80_0000_0000, 0x100, 0x1FF_FF00) { CallRegions(c); }
    forall q, r | q in s && r in s && Table3(q) == Table3(r) ensures q == r { Table3Injective(q, r); }
    var f: nat -> Node := Table3;
    ImageSize(s, f);
    assert (set q | q in s :: f(q)) == (set q | q in s :: Table3(q));
  }

  lemma Size2(log: seq<Call>)
    requires AllCanonical(log)
    ensures |set q | q in Regions(log, 0x4000_0000) :: Table2(q)| == |Regions(log, 0x4000_0000)|
  {
    hide Canonical, CanonicalRegion, Table2;
    var s := Regions(log, 0x4000_0000);
    forall c | c in log ensures CanonicalRegion(c.virt / 0x4000_0000, 0x2_0000, 0x3_FFFE_0000) { CallRegions(c); }
    forall q, r | q in s && r in s && Table2(q) == Table2(r) ensures q == r { Table2Injective(q, r); }
    var f: nat -> Node := Table2;
    ImageSize(s, f);
    assert (set q | q in s :: f(q)) == (set q | q in s :: Table2(q));
  }

  lemma Size1(log: seq<Call>)
    requires AllCanonical(log)
    ensures |set q | q in Regions(log, 0x20_0000) :: Table1(q)| == |Regions(log, 0x20_0000)|
  {
    hide Canonical, CanonicalRegion, Table1;
    var s := Regions(log, 0x20_0000);
    forall c | c in log ensures CanonicalRegion(c.virt / 0x20_0000, 0x400_0000, 0x7FF_FC00_0000) { CallRegions(c); }
    forall q, r | q in s && r in s && Table1(q) == Table1(r) ensures q == r { Table1Injective(q, r); }
    var f: nat -> Node := Table1;
    ImageSize(s, f);
    assert (set q | q in s :: f(q)) == (set q | q in s :: Table1(q));
  }

  lemma Apart(r3: set<nat>, r2: set<nat>, r1: set<nat>)
    ensures var n3, n2, n1 := (set q | q in r3 :: Table3(q)), (set q | q in r2 :: Table2(q)), (set q | q in r1 :: Table1(q));
      |{Root} + n3 + n2 + n1| == 1 + |n3| + |n2| + |n1|
  {
    var n3, n2, n1 := (set q | q in r3 :: Table3(q)), (set q | q in r2 :: Table2(q)), (set q | q in r1 :: Table1(q));
    assert {Root} !! n3 && {Root} + n3 !! n2 && {Root} + n3 + n2 !! n1;
  }
}
