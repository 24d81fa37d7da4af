/** The loader's view of the machine while it builds the kernel's address
    space: memory, the firmware's page allocator and the tables under
    construction (loader/paging.c, uefi/util.c). */
module AddressSpace {
  import opened Words
  import opened Memory
  import opened Paging
  import opened Ranges

  /** An AllocatePages answer may depend on everything handed out before. */
  type Allocator = (set<nat>, nat) -> Option<nat>

  /** The number of the frame an address lies in. */
  function Number(x: nat): nat { x / 0x1000 }

  /** The frame numbers of an allocation. */
  function Frames(base: nat, pages: nat): (r: set<nat>)
    ensures forall f :: f in r <==> Number(base) <= f < Number(base) + pages
  {
    if pages == 0 then {} else Frames(base, pages - 1) + {Number(base) + pages - 1}
  }

  /** The firmware's contract: page-aligned, unused frames. The loader uses the
      returned address as a pointer, so it lies in the identity-mapped low half. */
  ghost predicate Honest(alloc: Allocator) {
    forall used, pages: nat :: alloc(used, pages).Some? ==> Granted(used, alloc(used, pages).value, pages)
  }

  ghost predicate Granted(used: set<nat>, base: nat, pages: nat) {
    base % 0x1000 == 0 && base + pages * 0x1000 < LOWER_LIMIT && Frames(base, pages) !! used
  }

  /** The tables a sequence of calls needs: the root and, per page, one table
      for its 512 GiB, 1 GiB and 2 MiB region. */
  function Touched(log: seq<Call>): set<Node> {
    if log == [] then {Root}
    else
      var p := log[|log| - 1].Where();
      Touched(log[..|log| - 1]) + {L3(p.a), L2(p.a, p.b), L1(p.a, p.b, p.c)}
  }

  class Machine {
    var mem: Mem
    var used: set<nat>
    const alloc: Allocator
    var root: nat
    ghost var tables: map<Node, nat>
    ghost var tableFrames: set<nat>
    ghost var dataFrames: set<nat>
    ghost const before: set<nat>
    ghost var log: seq<Call>

    /** The tree invariant, with every table in a frame of its own that the
        firmware handed out for it, and no frame handed out for anything but
        tables and data. */
    ghost predicate Core()
      reads this
    {
      CoreOf(alloc, before, mem, used, root, tables, tableFrames, dataFrames, Replay(log))
    }

    ghost predicate Valid()
      reads this
    {
      Core() && tables.Keys == Touched(log)
    }

    /** AllocatePages(AllocateAnyPages, EfiLoaderData, pages, &base): contents unspecified. */
    method AllocatePages(pages: nat) returns (ok: bool, base: nat)
      requires Honest(alloc)
      modifies this`used
      ensures ok ==> Granted(old(used), base, pages) && used == old(used) + Frames(base, pages)
      ensures !ok ==> used == old(used) && alloc(used, pages).None?
    {
      match alloc(used, pages)
      case None => ok, base := false, 0;
      case Some(b) =>
        ok, base := true, b;
        used := used + Frames(b, pages);
    }

    /** uefi_alloc_pages: the same, cleared. A firmware error ends the loader. */
    method AllocZeroed(pages: nat) returns (ok: bool, base: nat)
      requires Honest(alloc)
      modifies this`used, this`mem
      ensures ok ==> Granted(old(used), base, pages) && used == old(used) + Frames(base, pages)
      ensures ok ==> mem == Clear(old(mem), base, pages * 0x1000)
      ensures !ok ==> used == old(used) && mem == old(mem) && alloc(used, pages).None?
    {
      ok, base := AllocatePages(pages);
      if ok { mem := Clear(mem, base, pages * 0x1000); }
    }

    /** AllocatePages for anything that is not a table. */
    method AllocData(pages: nat) returns (ok: bool, base: nat)
      requires Valid()
      modifies this`used, this`dataFrames
      ensures Valid()
      ensures ok ==> Granted(old(used), base, pages)
      ensures ok ==> used == old(used) + Frames(base, pages) && dataFrames == old(dataFrames) + Frames(base, pages)
      ensures !ok ==> used == old(used) && dataFrames == old(dataFrames) && alloc(used, pages).None?
    {
      hide CoreOf, Replay, Touched, Frames, Honest;
      CoreFacts(alloc, before, mem, used, root, tables, tableFrames, dataFrames, Replay(log));
      ok, base := AllocatePages(pages);
      if ok {
        DataTaken(alloc, before, mem, old(used), root, tables, tableFrames, dataFrames, Replay(log), Frames(base, pages));
        dataFrames := dataFrames + Frames(base, pages);
      }
    }

    /** loader_paging_setup */
    constructor Setup(mem: Mem, used: set<nat>, alloc: Allocator)
      requires Honest(alloc) && alloc(used, 1).Some?
      ensures Valid() && log == [] && before == used && dataFrames == {}
      ensures forall x: nat :: Number(x) in used ==> this.mem(x) == mem(x)
    {
      hide CoreOf, Number, Store, Clear, TableEntry, Frames, Honest, Granted;
      this.alloc := alloc;
      var base := alloc(used, 1).value;
      var entry := TableEntry(base);
      this.used := used + Frames(base, 1);
      this.mem := Store(Clear(mem, base, 0x1000), base + 8 * RECURSIVE, entry);
      this.root := base;
      this.log, this.tables, this.tableFrames := [], map[Root := base], {Number(base)};
      this.before, this.dataFrames := used, {};
      new;
      assert Granted(used, base, 1) by { GrantedBy(alloc, used, 1); }
      RootCore(alloc, mem, used, base);
    }

    /** An empty slot: take a cleared frame and hang it in. */
    method NewTable(table: nat, index: nat, ghost n: Node) returns (ok: bool, child: nat)
      requires Core() && n in tables && tables[n] == table && !n.L1?
      requires index < 512 && !(n.Root? && index == RECURSIVE) && n.Child(index) !in tables
      modifies this`mem, this`used, this`tables, this`tableFrames
      ensures ok ==> Core() && tables == old(tables)[n.Child(index) := child]
      ensures Kept(old(mem), old(used), old(tableFrames)) && Took(old(used), old(tableFrames), used, tableFrames)
      ensures !ok ==> alloc(used, 1).None?
    {
      hide CoreOf, Frames, Number, TableEntry, Store, Clear, KeptFrom, Replay, Honest, Took, Granted;
      CoreFacts(alloc, before, mem, used, root, tables, tableFrames, dataFrames, Replay(log));
      KeptRefl(mem, used, tableFrames);
      TookRefl(used, tableFrames);
      ok, child := AllocZeroed(1);
      if ok {
        Grow(alloc, before, old(mem), old(used), root, tables, tableFrames, dataFrames, Replay(log), n, index, child);
        mem := Store(mem, table + 8 * index, TableEntry(child));
        tables := tables[n.Child(index) := child];
        tableFrames := tableFrames + {Number(child)};
      }
    }

    /** The branch that loader_paging_map repeats for levels 4, 3 and 2: follow
        the entry, or hang a fresh table into the empty slot. */
    method Descend(table: nat, index: nat, ghost n: Node) returns (ok: bool, child: nat)
      requires Core() && n in tables && tables[n] == table && !n.L1?
      requires index < 512 && !(n.Root? && index == RECURSIVE)
      modifies this`mem, this`used, this`tables, this`tableFrames
      ensures ok ==> Core() && Extends(old(tables), tables, n.Child(index), child)
      ensures Kept(old(mem), old(used), old(tableFrames)) && Took(old(used), old(tableFrames), used, tableFrames)
      ensures !ok ==> alloc(used, 1).None?
    {
      hide CoreOf, Tree, Frame, Word, And, KeptFrom, Honest, Took, Replay;
      CoreFacts(alloc, before, mem, used, root, tables, tableFrames, dataFrames, Replay(log));
      var entry := Word(mem, table + 8 * index);
      CodeReadsEntry(entry);
      Step(mem, tables, Replay(log), n, index);
      if And(entry, PAGE_PRESENT) == 0 {
        ok, child := NewTable(table, index, n);
      } else {
        KeptRefl(mem, used, tableFrames);
        TookRefl(used, tableFrames);
        ok, child := true, And(entry, ADDRESS_MASK);
      }
    }

    /** loader_paging_map, for addresses outside the recursive slot. */
    method Map(physical: u64, virt: u64, flags: u64) returns (ok: bool)
      requires Valid() && Indices(virt).a != RECURSIVE
      modifies this`mem, this`used, this`tables, this`tableFrames, this`log
      ensures ok ==> Valid() && log == old(log) + [Call(physical, virt, flags)]
      ensures ok ==> Superset(old(tables), tables)
      ensures Kept(old(mem), old(used), old(tableFrames)) && Took(old(used), old(tableFrames), used, tableFrames)
      ensures !ok ==> alloc(used, 1).None?
    {
      hide CoreOf, Number, Store, Indices, Or, KeptFrom, Replay, Extends, Touched, Superset, Took;
      var i := Indices(virt);
      CoreFacts(alloc, before, mem, used, root, tables, tableFrames, dataFrames, Replay(log));
      var pml3, pml2, pml1;
      ok, pml3 := Descend(root, i.a, Root);
      if !ok { return; }
      ghost var tables3 := tables;
      assert L3(i.a) in tables && tables[L3(i.a)] == pml3 by { Extended(old(tables), tables3, L3(i.a), pml3); }
      ghost var m3, u3, t3 := mem, used, tableFrames;
      ok, pml2 := Descend(pml3, i.b, L3(i.a));
      KeptTrans(old(mem), old(used), old(tableFrames), m3, u3, t3, mem, used, tableFrames);
      TookTrans(old(used), old(tableFrames), u3, t3, used, tableFrames);
      if !ok { return; }
      ghost var tables2 := tables;
      assert L2(i.a, i.b) in tables && tables[L2(i.a, i.b)] == pml2 by { Extended(tables3, tables2, L2(i.a, i.b), pml2); }
      ghost var m2, u2, t2 := mem, used, tableFrames;
      ok, pml1 := Descend(pml2, i.c, L2(i.a, i.b));
      KeptTrans(old(mem), old(used), old(tableFrames), m2, u2, t2, mem, used, tableFrames);
      TookTrans(old(used), old(tableFrames), u2, t2, used, tableFrames);
      if !ok { return; }
      assert L1(i.a, i.b, i.c) in tables && tables[L1(i.a, i.b, i.c)] == pml1 by {
        Extended(tables2, tables, L1(i.a, i.b, i.c), pml1);
      }
      ghost var m1 := mem;
      SetLeaf(alloc, before, m1, used, root, tables, tableFrames, dataFrames, log, Call(physical, virt, flags));
      mem := Store(mem, pml1 + 8 * i.d, Or(physical, flags));
      log := log + [Call(physical, virt, flags)];
      KeptTrans(old(mem), old(used), old(tableFrames), m1, used, tableFrames, mem, used, tableFrames);
      ThreeLevels(old(tables), tables3, tables2, tables, pml3, pml2, pml1, old(log), Call(physical, virt, flags));
    }

    /** The loop `for(i < pages) loader_paging_map(pml4, physical + (i << 12), virt + (i << 12), flags)`. */
    method MapRange(physical: nat, virt: nat, pages: nat, flags: u64) returns (ok: bool)
      requires Valid() && Mappable(virt, pages) && At(physical, pages) <= 0x1_0000_0000_0000_0000
      modifies this`mem, this`used, this`tables, this`tableFrames, this`log
      ensures ok ==> Valid() && log == old(log) + Linear(physical, virt, pages, flags)
      ensures ok ==> Superset(old(tables), tables)
      ensures Kept(old(mem), old(used), old(tableFrames)) && Took(old(used), old(tableFrames), used, tableFrames)
      ensures !ok ==> alloc(used, 1).None?
    {
      hide CoreOf, Indices, KeptFrom, Replay, Touched, Number, Took;
      ok := true;
      KeptRefl(mem, used, tableFrames);
      TookRefl(used, tableFrames);
      for i := 0 to pages
        invariant Valid() && log == old(log) + Linear(physical, virt, i, flags)
        invariant Superset(old(tables), tables)
        invariant Kept(old(mem), old(used), old(tableFrames)) && Took(old(used), old(tableFrames), used, tableFrames)
      {
        ghost var m, u, t := mem, used, tableFrames;
        ok := Map(At(physical, i), At(virt, i), flags);
        KeptTrans(old(mem), old(used), old(tableFrames), m, u, t, mem, used, tableFrames);
        TookTrans(old(used), old(tableFrames), u, t, used, tableFrames);
        if !ok { return; }
        AppendLinear(old(log), physical, virt, i + 1, flags);
      }
    }

    /** loader_paging_map_addr: every byte of [start, start+length] translates to
        itself, aligned or not, and every other page is as before. */
    method MapAddr(start: u64, length: u64, flags: u64) returns (ok: bool)
      requires Valid() && start + length < LOWER_LIMIT
      modifies this`mem, this`used, this`tables, this`tableFrames, this`log
      ensures ok ==> Valid() && Superset(old(tables), tables)
      ensures ok && PresentFlags(flags) ==>
        forall x | start <= x <= start + length :: Translate(mem, root, x) == Some(x)
      ensures ok ==> forall p: Page | p.Ordinary() && !(start / 0x1000 <= Address(p) / 0x1000 <= (start + length) / 0x1000) ::
        Walk(mem, root, p) == old(Walk(mem, root, p))
      ensures Kept(old(mem), old(used), old(tableFrames)) && Took(old(used), old(tableFrames), used, tableFrames)
      ensures !ok ==> alloc(used, 1).None?
      ensures ok ==> log == old(log) + Linear(PageOf(start), PageOf(start), Span(start, length), flags)
    {
      hide CoreOf, Tree, Indices, Address, KeptFrom, Replay, Touched, Number, Walk, Translate, Canonical, Mappable, And, PresentFlags, Superset, Took;
      CoreFacts(alloc, before, mem, used, root, tables, tableFrames, dataFrames, Replay(log));
      var startPage := start / 0x1000;
      var endPage := (start + length) / 0x1000;
      var pages := 1 + (endPage - startPage);
      var pageAddr := And(start, ADDRESS_MASK);
      RoundDown(start);
      LowRange(start, length);
      ok := MapRange(pageAddr, pageAddr, pages, flags);
      if ok {
        CoreFacts(alloc, before, mem, used, root, tables, tableFrames, dataFrames, Replay(log));
        if PresentFlags(flags) {
          forall x | start <= x <= start + length ensures Translate(mem, root, x) == Some(x) {
            IdentityByte(mem, tables, old(log), start, length, flags, x);
          }
        }
        forall p: Page | p.Ordinary() && !(start / 0x1000 <= Address(p) / 0x1000 <= (start + length) / 0x1000)
          ensures Walk(mem, root, p) == old(Walk(mem, root, p))
        {
          IdentityOutside(old(log), start, length, flags, p);
          WalkRefines(mem, tables, Replay(log), p);
          WalkRefines(old(mem), old(tables), Replay(old(log)), p);
        }
      }
    }

    /** memcpy or a firmware read into memory that holds no table. */
    method CopyIn(a: nat, data: seq<byte>)
      requires Valid() && forall x :: a <= x < a + |data| ==> Number(x) !in tableFrames
      modifies this`mem
      ensures Valid() && mem == Copy(old(mem), a, data)
    {
      hide CoreOf, Number, Replay, Touched;
      CoreElsewhere(alloc, before, mem, Copy(mem, a, data), used, root, tables, tableFrames, dataFrames, Replay(log));
      mem := Copy(mem, a, data);
    }

    /** A word stored in memory that holds no table. */
    method StoreIn(a: nat, v: u64)
      requires Valid() && forall x :: a <= x < a + 8 ==> Number(x) !in tableFrames
      modifies this`mem
      ensures Valid() && mem == Store(old(mem), a, v)
    {
      hide CoreOf, Number, Replay, Touched;
      CoreElsewhere(alloc, before, mem, Store(mem, a, v), used, root, tables, tableFrames, dataFrames, Replay(log));
      mem := Store(mem, a, v);
    }

    /** memset to zero of memory that holds no table. */
    method ClearOut(a: nat, n: nat)
      requires Valid() && forall x :: a <= x < a + n ==> Number(x) !in tableFrames
      modifies this`mem
      ensures Valid() && mem == Clear(old(mem), a, n)
    {
      hide CoreOf, Number, Replay, Touched;
      CoreElsewhere(alloc, before, mem, Clear(mem, a, n), used, root, tables, tableFrames, dataFrames, Replay(log));
      mem := Clear(mem, a, n);
    }

    /** What every table operation leaves alone: frames already handed out stay
        so, new table frames are new frames, and no byte outside a table changes. */
    ghost predicate Kept(mem0: Mem, used0: set<nat>, tableFrames0: set<nat>)
      reads this
    {
      KeptFrom(mem0, used0, tableFrames0, mem, used, tableFrames)
    }
  }

  ghost predicate CoreOf(alloc: Allocator, before: set<nat>, mem: Mem, used: set<nat>, root: nat,
                         tables: map<Node, nat>, tableFrames: set<nat>, dataFrames: set<nat>, leaves: map<Page, nat>) {
    && Honest(alloc)
    && Tree(mem, tables, leaves)
    && Root in tables && tables[Root] == root
    && (forall n <- tables :: Number(tables[n]) in tableFrames)
    && |tableFrames| == |tables|
    && Accounted(before, tableFrames, dataFrames, used)
  }

  lemma CoreFacts(alloc: Allocator, before: set<nat>, mem: Mem, used: set<nat>, root: nat,
                  tables: map<Node, nat>, tableFrames: set<nat>, dataFrames: set<nat>, leaves: map<Page, nat>)
    requires CoreOf(alloc, before, mem, used, root, tables, tableFrames, dataFrames, leaves)
    ensures Honest(alloc) && Tree(mem, tables, leaves) && Root in tables && tables[Root] == root
  {
  }

  /** Every frame handed out since the start is a table's or data's. */
  ghost predicate Accounted(before: set<nat>, tables: set<nat>, data: set<nat>, used: set<nat>) {
    used == before + tables + data && tables !! before + data
  }

  /** Exactly the new table frames were handed out. */
  ghost predicate Took(u0: set<nat>, t0: set<nat>, u1: set<nat>, t1: set<nat>) {
    t0 <= t1 && u1 == u0 + (t1 - t0)
  }

  lemma TookRefl(u: set<nat>, t: set<nat>)
    ensures Took(u, t, u, t)
  {
  }

  lemma TookTrans(u0: set<nat>, t0: set<nat>, u1: set<nat>, t1: set<nat>, u2: set<nat>, t2: set<nat>)
    requires Took(u0, t0, u1, t1) && Took(u1, t1, u2, t2)
    ensures Took(u0, t0, u2, t2)
  {
  }

  lemma DataTaken(alloc: Allocator, before: set<nat>, mem: Mem, used: set<nat>, root: nat, tables: map<Node, nat>,
                  tableFrames: set<nat>, dataFrames: set<nat>, leaves: map<Page, nat>, frames: set<nat>)
    requires CoreOf(alloc, before, mem, used, root, tables, tableFrames, dataFrames, leaves) && frames !! used
    ensures CoreOf(alloc, before, mem, used + frames, root, tables, tableFrames, dataFrames + frames, leaves)
  {
    hide Tree, Honest, Number;
  }

  /** Writes outside the table frames keep the tree. */
  lemma CoreElsewhere(alloc: Allocator, before: set<nat>, mem: Mem, mem': Mem, used: set<nat>, root: nat, tables: map<Node, nat>,
                      tableFrames: set<nat>, dataFrames: set<nat>, leaves: map<Page, nat>)
    requires CoreOf(alloc, before, mem, used, root, tables, tableFrames, dataFrames, leaves)
    requires forall x: nat :: Number(x) in tableFrames ==> mem'(x) == mem(x)
    ensures CoreOf(alloc, before, mem', used, root, tables, tableFrames, dataFrames, leaves)
  {
    hide Tree, Honest, Number, Accounted;
    TreeElsewhere(mem, mem', tables, tableFrames, leaves);
  }

  lemma TableTaken(before: set<nat>, tables: set<nat>, data: set<nat>, used: set<nat>, base: nat)
    requires Accounted(before, tables, data, used) && Granted(used, base, 1)
    ensures tables <= used && Accounted(before, tables + {Number(base)}, data, used + Frames(base, 1))
    ensures Took(used, tables, used + Frames(base, 1), tables + {Number(base)})
  {
    assert Number(base) in Frames(base, 1);
    assert Frames(base, 1) == {Number(base)};
  }

  /** In every reachable state the hardware agrees with the calls made so far. */
  lemma WalkAgrees(m: Machine, p: Page)
    requires m.Valid() && p.Ordinary()
    ensures Walk(m.mem, m.root, p) == Decode(Lookup(Replay(m.log), p))
  {
    hide Tree, Walk, Replay, Touched, Honest, Accounted, Number;
    WalkRefines(m.mem, m.tables, Replay(m.log), p);
  }

  /** The recursive window on a page's tables survives later map calls: the same
      frames are still there and still seen. */
  lemma WindowSurvives(m: Mem, tables: map<Node, nat>, log: seq<Call>, m': Mem, tables': map<Node, nat>, extra: seq<Call>, p: Page)
    requires Tree(m, tables, Replay(log)) && p in Replay(log)
    requires Tree(m', tables', Replay(log + extra)) && Superset(tables, tables')
    ensures Root in tables && L1(p.a, p.b, p.c) in tables && L2(p.a, p.b) in tables && L3(p.a) in tables
    ensures forall w <- [Page(RECURSIVE, p.a, p.b, p.c), Page(RECURSIVE, RECURSIVE, p.a, p.b),
                         Page(RECURSIVE, RECURSIVE, RECURSIVE, p.a), Page(RECURSIVE, RECURSIVE, RECURSIVE, RECURSIVE)] ::
      Walk(m', tables[Root], w) == Walk(m, tables[Root], w)
    ensures Walk(m', tables[Root], Page(RECURSIVE, p.a, p.b, p.c)) == Leaf(TableEntry(tables[L1(p.a, p.b, p.c)]))
    ensures Walk(m', tables[Root], Page(RECURSIVE, RECURSIVE, p.a, p.b)) == Leaf(TableEntry(tables[L2(p.a, p.b)]))
    ensures Walk(m', tables[Root], Page(RECURSIVE, RECURSIVE, RECURSIVE, p.a)) == Leaf(TableEntry(tables[L3(p.a)]))
  {
    hide Tree, Walk, Replay, TableEntry, Frame;
    RecursiveWindow(m, tables, Replay(log), p);
    RootIn(m, tables, Replay(log));
    ReplayGrows(log, extra, p);
    RecursiveWindow(m', tables', Replay(log + extra), p);
  }

  lemma RootIn(m: Mem, tables: map<Node, nat>, leaves: map<Page, nat>)
    requires Tree(m, tables, leaves)
    ensures Root in tables
  {
  }

  ghost predicate KeptFrom(mem0: Mem, used0: set<nat>, tables0: set<nat>, mem: Mem, used: set<nat>, tables: set<nat>) {
    && used0 <= used && tables0 <= tables && (tables - tables0) !! used0
    && forall x: nat :: Number(x) in used0 && Number(x) !in tables0 ==> mem(x) == mem0(x)
  }

  /** At most the table k is new. */
  ghost predicate Extends(t0: map<Node, nat>, t1: map<Node, nat>, k: Node, v: nat) {
    t1 == t0[k := v] && (k in t0 ==> t1 == t0)
  }

  lemma Extended(t0: map<Node, nat>, t1: map<Node, nat>, k: Node, v: nat)
    requires Extends(t0, t1, k, v)
    ensures k in t1 && t1[k] == v && t1.Keys == t0.Keys + {k} && forall n <- t0 :: n in t1 && t1[n] == t0[n]
  {
  }

  ghost predicate Superset(t0: map<Node, nat>, t1: map<Node, nat>) {
    forall n <- t0 :: n in t1 && t1[n] == t0[n]
  }

  lemma ThreeLevels(t0: map<Node, nat>, t1: map<Node, nat>, t2: map<Node, nat>, t3: map<Node, nat>,
                    pml3: nat, pml2: nat, pml1: nat, log: seq<Call>, c: Call)
    requires var p := c.Where();
      Extends(t0, t1, L3(p.a), pml3) && Extends(t1, t2, L2(p.a, p.b), pml2) && Extends(t2, t3, L1(p.a, p.b, p.c), pml1)
    requires t0.Keys == Touched(log)
    ensures t3.Keys == Touched(log + [c]) && Superset(t0, t3)
  {
    hide Indices, Touched, Extends;
    var p := c.Where();
    Touch(log, c);
    Extended(t0, t1, L3(p.a), pml3);
    Extended(t1, t2, L2(p.a, p.b), pml2);
    Extended(t2, t3, L1(p.a, p.b, p.c), pml1);
  }

  lemma KeptRefl(m: Mem, used: set<nat>, tables: set<nat>)
    ensures KeptFrom(m, used, tables, m, used, tables)
  {
  }

  lemma KeptTrans(m0: Mem, u0: set<nat>, t0: set<nat>, m1: Mem, u1: set<nat>, t1: set<nat>, m2: Mem, u2: set<nat>, t2: set<nat>)
    requires KeptFrom(m0, u0, t0, m1, u1, t1) && KeptFrom(m1, u1, t1, m2, u2, t2)
    ensures KeptFrom(m0, u0, t0, m2, u2, t2)
  {
    hide Number;
    forall x: nat | Number(x) in u0 && Number(x) !in t0 ensures m2(x) == m0(x) {
      assert m1(x) == m0(x);
    }
  }

  /** The final store of a map call, in terms of the log. */
  lemma SetLeaf(alloc: Allocator, before: set<nat>, m: Mem, used: set<nat>, root: nat, tables: map<Node, nat>,
                tableFrames: set<nat>, dataFrames: set<nat>, log: seq<Call>, c: Call)
    requires CoreOf(alloc, before, m, used, root, tables, tableFrames, dataFrames, Replay(log)) && c.Where().Ordinary()
    requires var p := c.Where(); L1(p.a, p.b, p.c) in tables
    ensures var p := c.Where();
      var m' := Store(m, tables[L1(p.a, p.b, p.c)] + 8 * p.d, c.Value());
      && CoreOf(alloc, before, m', used, root, tables, tableFrames, dataFrames, Replay(log + [c]))
      && KeptFrom(m, used, tableFrames, m', used, tableFrames)
  {
    hide Tree, Frame, Number, TableEntry, IsFrame, Store, Indices, Honest, Accounted;
    var p := c.Where();
    var n := L1(p.a, p.b, p.c);
    assert (log + [c])[..|log|] == log;
    OrFits(c.physical, c.flags);
    WriteLeaf(m, tables, Replay(log), p, c.Value());
    TableFrame(m, tables, Replay(log), n);
    LeafWrite(m, tables, n, p.d, c.Value());
  }

  lemma Touch(log: seq<Call>, c: Call)
    ensures var p := c.Where(); Touched(log + [c]) == Touched(log) + {L3(p.a), L2(p.a, p.b), L1(p.a, p.b, p.c)}
  {
    assert (log + [c])[..|log|] == log;
  }

  /** Taking one frame for a missing table keeps everything Core asks for. */
  lemma Grow(alloc: Allocator, before: set<nat>, m: Mem, used: set<nat>, root: nat, tables: map<Node, nat>,
             tableFrames: set<nat>, dataFrames: set<nat>, leaves: map<Page, nat>, n: Node, i: nat, base: nat)
    requires CoreOf(alloc, before, m, used, root, tables, tableFrames, dataFrames, leaves)
    requires n in tables && !n.L1? && i < 512 && !(n.Root? && i == RECURSIVE) && n.Child(i) !in tables
    requires Granted(used, base, 1)
    ensures var m' := Store(Clear(m, base, 0x1000), tables[n] + 8 * i, TableEntry(base));
      var frames' := tableFrames + {Number(base)};
      var used' := used + Frames(base, 1);
      && CoreOf(alloc, before, m', used', root, tables[n.Child(i) := base], frames', dataFrames, leaves)
      && KeptFrom(m, used, tableFrames, m', used', frames') && Took(used, tableFrames, used', frames')
  {
    hide Tree, Frames, Number, TableEntry, IsFrame, Store, Clear, Honest, Accounted, KeptFrom, Took, Granted;
    TableTaken(before, tableFrames, dataFrames, used, base);
    NewFrame(used, tableFrames, tables, base);
    AddTable(m, tables, leaves, n, i, base);
    TableFrame(m, tables, leaves, n);
    GrowKeeps(m, used, tables, tableFrames, n, i, base);
  }

  lemma GrowKeeps(m: Mem, used: set<nat>, tables: map<Node, nat>, tableFrames: set<nat>, n: Node, i: nat, base: nat)
    requires n in tables && IsFrame(tables[n]) && i < 512 && IsFrame(base) && Number(base) !in used
    requires tableFrames <= used && Number(tables[n]) in tableFrames
    ensures KeptFrom(m, used, tableFrames, Store(Clear(m, base, 0x1000), tables[n] + 8 * i, TableEntry(base)),
                     used + Frames(base, 1), tableFrames + {Number(base)})
  {
    hide Frames, Number, TableEntry, IsFrame, Store, Clear;
    TableWrites(m, tables, n, i, base);
  }

  /** Filling a slot and clearing the new table touches only those two frames. */
  lemma TableWrites(m: Mem, tables: map<Node, nat>, n: Node, i: nat, base: nat)
    requires n in tables && IsFrame(tables[n]) && i < 512 && IsFrame(base)
    ensures forall x: nat :: Number(x) != Number(base) && Number(x) != Number(tables[n]) ==>
      Store(Clear(m, base, 0x1000), tables[n] + 8 * i, TableEntry(base))(x) == m(x)
  {
    var a := tables[n] + 8 * i;
    forall x: nat | Number(x) != Number(base) && Number(x) != Number(tables[n])
      ensures Store(Clear(m, base, 0x1000), a, TableEntry(base))(x) == m(x)
    {
      InFrame(tables[n], x);
      InFrame(base, x);
    }
  }

  lemma LeafWrite(m: Mem, tables: map<Node, nat>, n: Node, i: nat, v: nat)
    requires n in tables && IsFrame(tables[n]) && i < 512
    ensures forall x: nat :: Number(x) != Number(tables[n]) ==> Store(m, tables[n] + 8 * i, v)(x) == m(x)
  {
    forall x: nat | Number(x) != Number(tables[n]) ensures Store(m, tables[n] + 8 * i, v)(x) == m(x) {
      InFrame(tables[n], x);
    }
  }

  lemma OrFits(x: u64, y: u64)
    ensures Or(x, y) < 0x1_0000_0000_0000_0000
  {
    Pow2At40();
    OrBound(x, y, 64);
  }

  lemma InFrame(base: nat, x: nat)
    requires base % 0x1000 == 0
    ensures Number(x) == Number(base) <==> base <= x < base + 0x1000
  {
  }

  /** Writes outside the table frames keep the tree. */
  lemma TreeElsewhere(m: Mem, m': Mem, tables: map<Node, nat>, tableFrames: set<nat>, leaves: map<Page, nat>)
    requires Tree(m, tables, leaves) && forall n <- tables :: Number(tables[n]) in tableFrames
    requires forall x: nat :: Number(x) in tableFrames ==> m'(x) == m(x)
    ensures Tree(m', tables, leaves)
  {
    hide TableEntry, Frame, Number, IsFrame;
    forall n, i | n in tables && 0 <= i < 512 ensures Entry(m', tables[n], i) == Entry(m, tables[n], i) {
      var a := tables[n] + 8 * i;
      FrameBound(tables[n]);
      forall x | a <= x < a + 8 ensures m'(x) == m(x) { InFrame(tables[n], x); }
      SameBytesSameValue(m', m, a, 8);
    }
  }

  lemma TableFrame(m: Mem, tables: map<Node, nat>, leaves: map<Page, nat>, n: Node)
    requires Tree(m, tables, leaves) && n in tables
    ensures IsFrame(tables[n])
  {
  }

  lemma NewFrame(used: set<nat>, tableFrames: set<nat>, tables: map<Node, nat>, base: nat)
    requires Granted(used, base, 1)
    requires tableFrames <= used && forall n <- tables :: Number(tables[n]) in tableFrames
    ensures IsFrame(base) && Frames(base, 1) == {Number(base)} && Number(base) !in used
    ensures forall n <- tables :: tables[n] != base
  {
    assert Number(base) in Frames(base, 1);
  }

  lemma GrantedBy(alloc: Allocator, used: set<nat>, pages: nat)
    requires Honest(alloc) && alloc(used, pages).Some?
    ensures Granted(used, alloc(used, pages).value, pages)
  {
  }

  lemma RootKeeps(m: Mem, used: set<nat>, base: nat)
    requires IsFrame(base) && Number(base) !in used
    ensures forall x: nat :: Number(x) in used ==> Store(Clear(m, base, 0x1000), base + 8 * RECURSIVE, TableEntry(base))(x) == m(x)
  {
    hide Store, Clear, TableEntry, Number, IsFrame;
    var tables: map<Node, nat> := map[Root := base];
    TableWrites(m, tables, Root, RECURSIVE, base);
    assert tables[Root] == base;
    forall x: nat | Number(x) in used
      ensures Store(Clear(m, base, 0x1000), base + 8 * RECURSIVE, TableEntry(base))(x) == m(x)
    {
      assert Number(x) != Number(base);
    }
  }

  lemma RootCore(alloc: Allocator, m: Mem, used: set<nat>, base: nat)
    requires Honest(alloc) && Granted(used, base, 1)
    ensures var m' := Store(Clear(m, base, 0x1000), base + 8 * RECURSIVE, TableEntry(base));
      && CoreOf(alloc, used, m', used + Frames(base, 1), base, map[Root := base], {Number(base)}, {}, map[])
      && forall x: nat :: Number(x) in used ==> m'(x) == m(x)
  {
    hide Tree, TableEntry, Number, Store, Clear, Honest, Frames, IsFrame, Accounted, Granted, Took;
    assert Accounted(used, {}, {}, used) by { NothingTaken(used); }
    var tables: map<Node, nat> := map[Root := base];
    TableTaken(used, {}, {}, used, base);
    NewFrame(used, {}, map[], base);
    RootTree(m, base);
    assert {} + {Number(base)} == {Number(base)};
    RootKeeps(m, used, base);
  }

  lemma NothingTaken(used: set<nat>)
    ensures Accounted(used, {}, {}, used)
  {
  }

  lemma RootTree(m: Mem, base: nat)
    requires IsFrame(base)
    ensures Tree(Store(Clear(m, base, 0x1000), base + 8 * RECURSIVE, TableEntry(base)), map[Root := base], map[])
  {
    hide Word, TableEntry, IsFrame;
    TableEntryBits(base);
    FrameBound(base);
    var tables := map[Root := base];
    var m1 := Clear(m, base, 0x1000);
    forall i | 0 <= i < 512
      ensures Entry(Store(m1, base + 8 * RECURSIVE, TableEntry(base)), base, i) == Expected(tables, map[], Root, i)
    {
      StoreEntry(m1, tables, Root, RECURSIVE, TableEntry(base), Root, i);
      ZeroBytes(m1, base + 8 * i, 8);
      assert Word(m1, base + 8 * i) == 0 by { WordIsZero(m1, base + 8 * i); }
    }
  }

  lemma WordIsZero(m: Mem, a: nat)
    requires LoadLE(m, a, 8) == 0
    ensures Word(m, a) == 0
  {
  }
}
