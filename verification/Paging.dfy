/** Four-level page tables built lazily in raw memory (loader/paging.c), the
    hardware walk over them, and the proof that the walk refines a plain map. */
module Paging {
  import opened Words
  import opened Memory

  const PAGE_PRESENT: nat := 0x01
  const PAGE_WRITE: nat := 0x02
  const PAGE_NX: nat := 0x8000_0000_0000_0000
  const ADDRESS_MASK: nat := 0x000F_FFFF_FFFF_F000
  const UPPER_HALF: nat := 0xFFFF_8000_0000_0000
  const LOWER_LIMIT: nat := 0x8000_0000_0000
  const RECURSIVE: nat := 510

  // ------------------------------------------------------------------ addresses

  /** The four 9-bit table indices of a page. */
  datatype Page = Page(a: nat, b: nat, c: nat, d: nat) {
    predicate Legal() { a < 512 && b < 512 && c < 512 && d < 512 }
    /** Mapped through an ordinary slot of the top table. */
    predicate Ordinary() { Legal() && a != RECURSIVE }
  }

  /** mm_virtual_indices */
  function Indices(virt: u64): (p: Page)
    ensures p.Legal()
  {
    var addr := if virt >= UPPER_HALF then virt - UPPER_HALF else virt;
    var slot := addr / 0x80_0000_0000 % 512;
    Page(if virt >= UPPER_HALF then 256 + slot else slot,
         addr / 0x4000_0000 % 512, addr / 0x20_0000 % 512, addr / 0x1000 % 512)
  }

  predicate Canonical(virt: u64) { virt < LOWER_LIMIT || virt >= UPPER_HALF }

  /** The canonical address at which a page starts. */
  function Address(p: Page): (virt: u64)
    requires p.Legal()
  {
    var low := p.a * 0x80_0000_0000 + p.b * 0x4000_0000 + p.c * 0x20_0000 + p.d * 0x1000;
    if p.a >= 256 then low + 0xFFFF_0000_0000_0000 else low
  }

  /** Dividing by 2^21, 2^30 and 2^39 is dividing the page number by 512 again and again. */
  lemma DivideInSteps(x: nat)
    ensures x / 0x20_0000 == x / 0x1000 / 512
    ensures x / 0x4000_0000 == x / 0x20_0000 / 512
    ensures x / 0x80_0000_0000 == x / 0x4000_0000 / 512
  {
  }

  /** Four 9-bit digits, lowest last, and the number they make up. */
  lemma Digits(n: nat, p: Page)
    requires n == ((p.a * 512 + p.b) * 512 + p.c) * 512 + p.d && p.b < 512 && p.c < 512 && p.d < 512
    ensures p.d == n % 512 && p.c == n / 512 % 512 && p.b == n / 512 / 512 % 512 && p.a == n / 512 / 512 / 512
  {
    assert n / 512 == (p.a * 512 + p.b) * 512 + p.c;
    assert n / 512 / 512 == p.a * 512 + p.b;
  }

  /** The hardware's split, in terms of the page number. */
  function PageDigits(n: nat): Page { Page(n / 512 / 512 / 512 % 512, n / 512 / 512 % 512, n / 512 % 512, n % 512) }

  lemma HardwareDigits(virt: u64)
    ensures HardwareIndices(virt) == PageDigits(virt / 0x1000)
  {
    DivideInSteps(virt);
  }

  lemma DigitsCarry(n: nat, k: nat)
    ensures var m := n + k * 0x800_0000;
      && m / 512 == n / 512 + k * 0x4_0000
      && m / 512 / 512 == n / 512 / 512 + k * 512
      && m / 512 / 512 / 512 == n / 512 / 512 / 512 + k
  {
  }

  lemma CodeDigits(virt: u64)
    requires Canonical(virt)
    ensures Indices(virt) == PageDigits(virt / 0x1000)
  {
    if virt >= UPPER_HALF {
      var addr := virt - UPPER_HALF;
      DivideInSteps(addr);
      assert virt / 0x1000 == addr / 0x1000 + 0x1FF_FF00 * 0x800_0000;
      DigitsCarry(addr / 0x1000, 0x1FF_FF00);
      var a := addr / 0x1000 / 512 / 512 / 512;
      assert a < 256;
      assert (a + 0x1FF_FF00) % 512 == a + 256;
    } else {
      HardwareDigits(virt);
    }
  }

  lemma FromDigits(n: nat)
    ensures n == ((n / 512 / 512 / 512 * 512 + n / 512 / 512 % 512) * 512 + n / 512 % 512) * 512 + n % 512
  {
  }

  /** Both branches of the index split together are a bijection between the
      canonical pages and the index quadruples, and they agree with the bits
      47:39, 38:30, 29:21 and 20:12 that the hardware uses. */
  lemma IndicesBijection(virt: u64)
    requires Canonical(virt)
    ensures Address(Indices(virt)) == virt - virt % 0x1000
    ensures Indices(virt) == HardwareIndices(virt)
  {
    hide Indices, HardwareIndices;
    CodeDigits(virt);
    HardwareDigits(virt);
    var n := virt / 0x1000;
    FromDigits(n);
    var a := n / 512 / 512 / 512;
    if virt < LOWER_LIMIT {
      assert a < 256 && a % 512 == a;
    } else {
      assert 0x1FF_FF00 <= a < 0x200_0000;
      assert a % 512 == a - 0x1FF_FE00;
    }
  }

  lemma AddressInverse(p: Page)
    requires p.Legal()
    ensures Canonical(Address(p)) && Address(p) % 0x1000 == 0 && Indices(Address(p)) == p
  {
    var q := if p.a >= 256 then p.(a := p.a - 256) else p;
    var n := ((q.a * 512 + q.b) * 512 + q.c) * 512 + q.d;
    Digits(n, q);
    var addr := n * 0x1000;
    DivideInSteps(addr);
    assert addr / 0x1000 == n;
    assert Address(p) == if p.a >= 256 then addr + UPPER_HALF else addr;
  }

  /** Distinct pages have distinct indices. */
  lemma IndicesInjective(x: u64, y: u64)
    requires Canonical(x) && Canonical(y)
    ensures Indices(x) == Indices(y) <==> x / 0x1000 == y / 0x1000
  {
    hide Indices, Address, HardwareIndices;
    IndicesBijection(x);
    IndicesBijection(y);
    CodeDigits(x);
    CodeDigits(y);
  }

  // ------------------------------------------------------------------ the hardware

  datatype Translation = Fault | Leaf(entry: nat) | Large(entry: nat, level: nat)

  function Entry(m: Mem, table: nat, index: nat): nat { Word(m, table + 8 * index) }
  predicate IsPresent(entry: nat) { entry % 2 == 1 }
  predicate IsLarge(entry: nat) { entry / 0x80 % 2 == 1 }
  function Frame(entry: nat): nat { entry / 0x1000 % 0x100_0000_0000 * 0x1000 }

  function HardwareIndices(virt: u64): Page {
    Page(virt / 0x80_0000_0000 % 512, virt / 0x4000_0000 % 512, virt / 0x20_0000 % 512, virt / 0x1000 % 512)
  }

  /** 4-level paging (Intel SDM volume 3A, section 4.5), permission bits aside. */
  function Walk(m: Mem, cr3: nat, p: Page): Translation {
    var e4 := Entry(m, cr3, p.a);
    if !IsPresent(e4) then Fault else
    var e3 := Entry(m, Frame(e4), p.b);
    if !IsPresent(e3) then Fault else if IsLarge(e3) then Large(e3, 3) else
    var e2 := Entry(m, Frame(e3), p.c);
    if !IsPresent(e2) then Fault else if IsLarge(e2) then Large(e2, 2) else
    var e1 := Entry(m, Frame(e2), p.d);
    if !IsPresent(e1) then Fault else Leaf(e1)
  }

  /** The physical address a virtual address reaches through 4 KiB pages. */
  function Translate(m: Mem, cr3: nat, virt: u64): Option<nat> {
    match Walk(m, cr3, HardwareIndices(virt))
    case Leaf(entry) => Some(Frame(entry) + virt % 0x1000)
    case _ => None
  }

  // ------------------------------------------------------------------ the plain map

  /** One call of loader_paging_map. */
  datatype Call = Call(physical: u64, virt: u64, flags: u64) {
    function Where(): Page { Indices(virt) }
    function Value(): nat { Or(physical, flags) }
  }

  /** The finite map the calls describe: the last writer of a page wins. */
  function Replay(log: seq<Call>): map<Page, nat> {
    if log == [] then map[]
    else Replay(log[..|log| - 1])[log[|log| - 1].Where() := log[|log| - 1].Value()]
  }

  function Lookup(leaves: map<Page, nat>, p: Page): nat { if p in leaves then leaves[p] else 0 }

  function Decode(entry: nat): Translation { if IsPresent(entry) then Leaf(entry) else Fault }

  // ------------------------------------------------------------------ the tree of tables

  /** A table, named by the indices that lead to it. */
  datatype Node = Root | L3(a: nat) | L2(a: nat, b: nat) | L1(a: nat, b: nat, c: nat) {
    function Child(i: nat): Node
      requires !L1?
    {
      match this
      case Root => L3(i)
      case L3(a) => L2(a, i)
      case L2(a, b) => L1(a, b, i)
    }
    function Parent(): Node
      requires !Root?
    {
      match this
      case L3(a) => Root
      case L2(a, b) => L3(a)
      case L1(a, b, c) => L2(a, b)
    }
    function Last(): nat
      requires !Root?
    {
      match this
      case L3(a) => a
      case L2(a, b) => b
      case L1(a, b, c) => c
    }
    predicate Legal() {
      match this
      case Root => true
      case L3(a) => a < 512 && a != RECURSIVE
      case L2(a, b) => a < 512 && a != RECURSIVE && b < 512
      case L1(a, b, c) => a < 512 && a != RECURSIVE && b < 512 && c < 512
    }
  }

  /** `(uintptr_t) base | PAGE_PRESENT | PAGE_WRITE` */
  function TableEntry(base: nat): nat { Or(Or(base, PAGE_PRESENT), PAGE_WRITE) }

  /** A page-aligned frame below 2^52. */
  predicate IsFrame(base: nat) { base % 0x1000 == 0 && base + 0x1000 <= 0x10_0000_0000_0000 }

  /** Every table is a frame of its own: distinct tables, distinct frames, and
      every table but the root hangs from a parent table. */
  ghost predicate Placed(tables: map<Node, nat>) {
    && Root in tables
    && (forall n <- tables :: n.Legal() && IsFrame(tables[n]))
    && (forall n, n' | n in tables && n' in tables && n != n' :: tables[n] != tables[n'])
    && (forall n <- tables :: !n.Root? ==> n.Parent() in tables)
  }

  /** What word i of a table holds. The root's slot 510 is its own address. */
  ghost function Expected(tables: map<Node, nat>, leaves: map<Page, nat>, n: Node, i: nat): nat
    requires Root in tables
  {
    if n.L1? then Lookup(leaves, Page(n.a, n.b, n.c, i))
    else if n.Root? && i == RECURSIVE then TableEntry(tables[Root])
    else if n.Child(i) in tables then TableEntry(tables[n.Child(i)])
    else 0
  }

  /** The tree invariant: memory holds exactly these tables and these leaves. */
  ghost predicate Tree(m: Mem, tables: map<Node, nat>, leaves: map<Page, nat>) {
    && Placed(tables)
    && (forall n, i | n in tables && 0 <= i < 512 ::
          Entry(m, tables[n], i) == Expected(tables, leaves, n, i))
    && (forall p <- leaves :: p.Ordinary() && L1(p.a, p.b, p.c) in tables)
  }

  lemma TableEntryBits(base: nat)
    requires IsFrame(base)
    ensures TableEntry(base) == base + 3 && IsPresent(base + 3) && !IsLarge(base + 3) && Frame(base + 3) == base
  {
    hide And, Or, Frame, IsLarge;
    EvenBits(base);
    OrDisjoint(base, 1);
    OrDisjoint(base + 1, 2);
    LowBits(base, 3);
  }

  lemma EvenBits(base: nat)
    requires base % 4 == 0
    ensures And(base, 1) == 0 && And(base + 1, 2) == 0
  {
    assert And(base / 2, 0) == 0;
    assert And((base + 1) / 2 / 2, 0) == 0;
  }

  /** Adding bits below 12 to a frame address leaves the frame readable. */
  lemma LowBits(base: nat, low: nat)
    requires IsFrame(base) && low < 0x1000
    ensures Frame(base + low) == base && (base + low) % 2 == low % 2 && IsLarge(base + low) == (low / 0x80 % 2 == 1)
  {
    var f := base / 0x1000;
    assert base == f * 0x1000;
    FrameNumber(f, low);
  }

  lemma FrameNumber(f: nat, low: nat)
    requires low < 0x1000 && f < 0x100_0000_0000
    ensures var e := f * 0x1000 + low;
      e / 0x1000 == f && f % 0x100_0000_0000 == f && e / 0x80 % 2 == low / 0x80 % 2 && e % 2 == low % 2
  {
    var e := f * 0x1000 + low;
    DivUnique(e, 0x1000, f, low);
    DivUnique(e, 0x80, f * 32 + low / 0x80, low % 0x80);
    EvenPlus(f * 16, low / 0x80);
    EvenPlus(f * 0x800, low);
    DivUnique(f, 0x100_0000_0000, 0, f);
  }

  /** One step down: a present child is reached, a missing one faults. */
  lemma Step(m: Mem, tables: map<Node, nat>, leaves: map<Page, nat>, n: Node, i: nat)
    requires Tree(m, tables, leaves) && n in tables && !n.L1? && i < 512 && !(n.Root? && i == RECURSIVE)
    ensures var e := Entry(m, tables[n], i);
      if n.Child(i) in tables then IsPresent(e) && !IsLarge(e) && Frame(e) == tables[n.Child(i)] else !IsPresent(e)
  {
    hide Frame, IsFrame, IsLarge, Word, TableEntry;
    if n.Child(i) in tables { TableEntryBits(tables[n.Child(i)]); }
  }

  /** Apart from the self-entry, every table is reached from one slot of one
      table, and the root from none. */
  lemma UniqueParent(m: Mem, tables: map<Node, nat>, leaves: map<Page, nat>, n: Node, i: nat, n': Node, i': nat)
    requires Tree(m, tables, leaves) && n in tables && n' in tables && !n.L1? && !n'.L1? && i < 512 && i' < 512
    requires !(n.Root? && i == RECURSIVE) && !(n'.Root? && i' == RECURSIVE)
    requires IsPresent(Entry(m, tables[n], i)) && IsPresent(Entry(m, tables[n'], i'))
    ensures Frame(Entry(m, tables[n], i)) == Frame(Entry(m, tables[n'], i')) ==> n == n' && i == i'
    ensures Frame(Entry(m, tables[n], i)) != tables[Root]
  {
    hide Frame, IsPresent, IsFrame, IsLarge, Word, TableEntry, Expected;
    Step(m, tables, leaves, n, i);
    Step(m, tables, leaves, n', i');
    var child, child' := n.Child(i), n'.Child(i');
    assert child.Parent() == n && child.Last() == i && child'.Parent() == n' && child'.Last() == i';
  }

  /** The walk refines the plain map on every page outside slot 510. */
  lemma WalkRefines(m: Mem, tables: map<Node, nat>, leaves: map<Page, nat>, p: Page)
    requires Tree(m, tables, leaves) && p.Ordinary()
    ensures Walk(m, tables[Root], p) == Decode(Lookup(leaves, p))
  {
    hide Frame, IsLarge, Word, IsFrame;
    Step(m, tables, leaves, Root, p.a);
    if L3(p.a) in tables {
      Step(m, tables, leaves, L3(p.a), p.b);
      if L2(p.a, p.b) in tables {
        Step(m, tables, leaves, L2(p.a, p.b), p.c);
        if L1(p.a, p.b, p.c) in tables {
          assert Entry(m, tables[L1(p.a, p.b, p.c)], p.d) == Expected(tables, leaves, L1(p.a, p.b, p.c), p.d);
        }
      }
    }
    if p in leaves {
      assert L1(p.a, p.b, p.c).Parent() in tables && L2(p.a, p.b).Parent() in tables;
    }
  }

  /** The recursive slot is a window on the tables: one trip through it shows
      the level-1 table of a page, two the level-2 table, three the level-3
      table and four the root itself. */
  lemma RecursiveWindow(m: Mem, tables: map<Node, nat>, leaves: map<Page, nat>, p: Page)
    requires Tree(m, tables, leaves) && p in leaves
    ensures L1(p.a, p.b, p.c) in tables && L2(p.a, p.b) in tables && L3(p.a) in tables
    ensures var r := tables[Root];
      && Walk(m, r, Page(RECURSIVE, p.a, p.b, p.c)) == Leaf(TableEntry(tables[L1(p.a, p.b, p.c)]))
      && Walk(m, r, Page(RECURSIVE, RECURSIVE, p.a, p.b)) == Leaf(TableEntry(tables[L2(p.a, p.b)]))
      && Walk(m, r, Page(RECURSIVE, RECURSIVE, RECURSIVE, p.a)) == Leaf(TableEntry(tables[L3(p.a)]))
      && Walk(m, r, Page(RECURSIVE, RECURSIVE, RECURSIVE, RECURSIVE)) == Leaf(TableEntry(r))
    ensures forall n <- tables :: Frame(TableEntry(tables[n])) == tables[n]
  {
    hide Frame, IsFrame, IsLarge, Word, TableEntry;
    assert L1(p.a, p.b, p.c).Parent() in tables && L2(p.a, p.b).Parent() in tables;
    forall n <- tables ensures Frame(TableEntry(tables[n])) == tables[n] { TableEntryBits(tables[n]); }
    TableEntryBits(tables[Root]);
    assert Entry(m, tables[Root], RECURSIVE) == Expected(tables, leaves, Root, RECURSIVE);
    Step(m, tables, leaves, Root, p.a);
    Step(m, tables, leaves, L3(p.a), p.b);
    Step(m, tables, leaves, L2(p.a, p.b), p.c);
    assert Entry(m, tables[Root], p.a) == Expected(tables, leaves, Root, p.a);
    assert Entry(m, tables[L3(p.a)], p.b) == Expected(tables, leaves, L3(p.a), p.b);
    assert Entry(m, tables[L2(p.a, p.b)], p.c) == Expected(tables, leaves, L2(p.a, p.b), p.c);
  }

  // ------------------------------------------------------------------ writing tables

  /** A store to word i of one table changes that word and no other table word. */
  lemma StoreEntry(m: Mem, tables: map<Node, nat>, n: Node, i: nat, v: u64, n': Node, i': nat)
    requires Placed(tables) && n in tables && n' in tables && i < 512 && i' < 512
    ensures Entry(Store(m, tables[n] + 8 * i, v), tables[n'], i')
         == if n' == n && i' == i then v else Entry(m, tables[n'], i')
  {
    hide Word;
    var a, b := tables[n] + 8 * i, tables[n'] + 8 * i';
    if n' == n && i' == i {
      StoreLoad(m, a, v);
    } else {
      if n' != n { FramesApart(tables[n], tables[n'], 8 * i, 8 * i'); }
      StoreElsewhere(m, a, v, b);
    }
  }

  lemma FramesApart(f: nat, g: nat, i: nat, j: nat)
    requires f % 0x1000 == 0 && g % 0x1000 == 0 && f != g && i + 8 <= 0x1000 && j + 8 <= 0x1000
    ensures g + j + 8 <= f + i || f + i + 8 <= g + j
  {
  }

  lemma FrameContains(f: nat, g: nat, x: nat)
    requires f % 0x1000 == 0 && g % 0x1000 == 0 && f != g && f <= x < f + 0x1000
    ensures x < g || g + 0x1000 <= x
  {
  }

  /** Clearing a frame that is no table changes no table, and all its words are zero. */
  lemma ClearEntry(m: Mem, tables: map<Node, nat>, base: nat, n: Node, i: nat)
    requires Placed(tables) && IsFrame(base) && n in tables && tables[n] != base && i < 512
    ensures Entry(Clear(m, base, 0x1000), tables[n], i) == Entry(m, tables[n], i)
    ensures Entry(Clear(m, base, 0x1000), base, i) == 0
  {
    hide IsFrame;
    FrameBound(tables[n]);
    FrameBound(base);
    var a := tables[n] + 8 * i;
    forall x | a <= x < a + 8 ensures Clear(m, base, 0x1000)(x) == m(x) {
      FrameContains(tables[n], base, x);
    }
    SameBytesSameValue(Clear(m, base, 0x1000), m, tables[n] + 8 * i, 8);
    ZeroBytes(Clear(m, base, 0x1000), base + 8 * i, 8);
  }

  /** Hanging a cleared frame into an empty slot keeps the tree. */
  lemma AddTable(m: Mem, tables: map<Node, nat>, leaves: map<Page, nat>, n: Node, i: nat, base: nat)
    requires Tree(m, tables, leaves) && n in tables && !n.L1? && i < 512 && !(n.Root? && i == RECURSIVE)
    requires n.Child(i) !in tables
    requires IsFrame(base) && forall n' <- tables :: tables[n'] != base
    ensures Tree(Store(Clear(m, base, 0x1000), tables[n] + 8 * i, TableEntry(base)), tables[n.Child(i) := base], leaves)
  {
    hide Word, TableEntry, IsFrame, Expected, Placed, Store, Clear;
    var tables' := tables[n.Child(i) := base];
    var m2 := Store(Clear(m, base, 0x1000), tables[n] + 8 * i, TableEntry(base));
    AddPlaced(tables, n, i, base);
    ParentOf(tables, Root);
    forall n', j | n' in tables' && 0 <= j < 512
      ensures Entry(m2, tables'[n'], j) == Expected(tables', leaves, n', j)
    {
      AddTableEntry(m, tables, leaves, n, i, base, n', j);
    }
  }

  lemma AddPlaced(tables: map<Node, nat>, n: Node, i: nat, base: nat)
    requires Placed(tables) && n in tables && !n.L1? && i < 512 && !(n.Root? && i == RECURSIVE) && n.Child(i) !in tables
    requires IsFrame(base) && forall n' <- tables :: tables[n'] != base
    ensures Placed(tables[n.Child(i) := base])
  {
    hide IsFrame;
  }

  /** Every word of every table after the new one was hung in. */
  lemma AddTableEntry(m: Mem, tables: map<Node, nat>, leaves: map<Page, nat>, n: Node, i: nat, base: nat, n': Node, j: nat)
    requires Tree(m, tables, leaves) && n in tables && !n.L1? && i < 512 && !(n.Root? && i == RECURSIVE)
    requires n.Child(i) !in tables
    requires IsFrame(base) && forall n' <- tables :: tables[n'] != base
    requires (n' in tables || n' == n.Child(i)) && j < 512
    ensures var tables' := tables[n.Child(i) := base];
      Entry(Store(Clear(m, base, 0x1000), tables[n] + 8 * i, TableEntry(base)), tables'[n'], j) == Expected(tables', leaves, n', j)
  {
    hide Word, TableEntry, IsFrame, Placed, Store, Clear;
    var child := n.Child(i);
    var m1 := Clear(m, base, 0x1000);
    assert TableEntry(base) < 0x1_0000_0000_0000_0000 by { TableEntryBits(base); FrameBound(base); }
    AddPlaced(tables, n, i, base);
    ParentOf(tables, n');
    StoreEntry(m1, tables[child := base], n, i, TableEntry(base), n', j);
    if n' == child {
      ClearEntry(m, tables, base, n, j);
      NoOrphans(tables, child, j);
    } else {
      ClearEntry(m, tables, base, n', j);
      if !n'.L1? && n'.Child(j) == child { assert n' == child.Parent() && j == child.Last(); }
    }
  }

  lemma ParentOf(tables: map<Node, nat>, n: Node)
    requires Placed(tables)
    ensures Root in tables && (n in tables && !n.Root? ==> n.Parent() in tables)
  {
  }

  /** A table that is not there has no children. */
  lemma NoOrphans(tables: map<Node, nat>, n: Node, j: nat)
    requires Placed(tables) && n !in tables
    ensures !n.L1? ==> n.Child(j) !in tables
  {
    assert !n.L1? ==> n.Child(j).Parent() == n;
  }

  lemma FrameBound(base: nat)
    requires IsFrame(base)
    ensures base + 0x1000 <= 0x10_0000_0000_0000 && base % 0x1000 == 0
  {
  }

  /** Writing a level-1 word updates the plain map at that page. */
  lemma WriteLeaf(m: Mem, tables: map<Node, nat>, leaves: map<Page, nat>, p: Page, v: u64)
    requires Tree(m, tables, leaves) && p.Ordinary() && L1(p.a, p.b, p.c) in tables
    ensures Tree(Store(m, tables[L1(p.a, p.b, p.c)] + 8 * p.d, v), tables, leaves[p := v])
  {
    hide Word, TableEntry, IsFrame;
    var n := L1(p.a, p.b, p.c);
    var m' := Store(m, tables[n] + 8 * p.d, v);
    forall n', j | n' in tables && 0 <= j < 512
      ensures Entry(m', tables[n'], j) == Expected(tables, leaves[p := v], n', j)
    {
      StoreEntry(m, tables, n, p.d, v, n', j);
    }
  }

  /** `e & PAGE_PRESENT` and `e & 0x000FFFFFFFFFF000UL` are what the hardware looks at. */
  lemma CodeReadsEntry(e: nat)
    ensures (And(e, PAGE_PRESENT) != 0) == IsPresent(e)
    ensures And(e, ADDRESS_MASK) == Frame(e)
  {
    assert And(e, 1) == e % 2 by { assert And(e / 2, 0) == 0; }
    AndAddressMask(e);
  }
}
