/**
 The kernel side of abstract-machine/am/src/x86/qemu/vme.c: the two `mmu` configurations, the kernel
 tables that `vme_init` builds with `ptwalk`, and the ones that the 64-bit boot code leaves behind.
 */
module VmeKernel {
  import opened Bits
  import opened Common
  import opened PageTable
  import opened VmeInvariant
  import opened Vme

  // ---------------------------------------------------------------- the configurations

  /** `mmu` and `vm_areas` of the 32-bit build. */
  const I386: Mmu := Mmu(
    [Level(0, 0, false), Level(22, 10, false), Level(12, 10, false)], 32,
    Area(0x4000_0000, 0x8000_0000),
    [Area(0x0000_0000, 0x4000_0000), Area(0xfd00_0000, 0x0000_0000)])

  /** `mmu` and `vm_areas` of the 64-bit build; 1 GiB and 2 MiB pages exist. */
  const X64: Mmu := Mmu(
    [Level(0, 0, false), Level(39, 9, false), Level(30, 9, true), Level(21, 9, true), Level(12, 9, false)], 64,
    Area(0x1000_0000_0000, 0x1080_0000_0000),
    [Area(0x0000_0000_0000, 0x0080_0000_0000)])

  lemma MorePowers()
    ensures Pow2(21) == 0x20_0000 && Pow2(22) == 0x40_0000 && Pow2(30) == 0x4000_0000
    ensures Pow2(39) == 0x80_0000_0000 && Pow2(48) == 0x1_0000_0000_0000
    ensures Pow2(0) == 1
  {
    Pow2Values();
    Pow2Add(20, 1);
    Pow2Add(20, 2);
    Pow2Add(20, 10);
    Pow2Add(31, 8);
    Pow2Add(32, 16);
  }

  /** `indexof` at every level with the masks and shifts that the source writes, 32-bit build. */
  lemma I386Masks(va: nat)
    ensures |I386.levels| == 3
    ensures IndexOf(va, I386.levels[0]) == Shr(And(va, 0), 0)
    ensures IndexOf(va, I386.levels[1]) == Shr(And(va, 0xffc0_0000), 22)
    ensures IndexOf(va, I386.levels[2]) == Shr(And(va, 0x003f_f000), 12)
  {
    Pow2Values();
    MorePowers();
    hide Pow2, And, Shr;
    assert (Pow2(10) - 1) * Pow2(22) == 0xffc0_0000 && (Pow2(10) - 1) * Pow2(12) == 0x003f_f000;
  }

  /** The same for the 64-bit build. */
  lemma X64Masks(va: nat)
    ensures |X64.levels| == 5
    ensures IndexOf(va, X64.levels[0]) == Shr(And(va, 0), 0)
    ensures IndexOf(va, X64.levels[1]) == Shr(And(va, 0xff80_0000_0000), 39)
    ensures IndexOf(va, X64.levels[2]) == Shr(And(va, 0x007f_c000_0000), 30)
    ensures IndexOf(va, X64.levels[3]) == Shr(And(va, 0x0000_3fe0_0000), 21)
    ensures IndexOf(va, X64.levels[4]) == Shr(And(va, 0x0000_001f_f000), 12)
  {
    Pow2Values();
    MorePowers();
    hide Pow2, And, Shr;
    assert (Pow2(9) - 1) * Pow2(39) == 0xff80_0000_0000 && (Pow2(9) - 1) * Pow2(30) == 0x007f_c000_0000;
    assert (Pow2(9) - 1) * Pow2(21) == 0x0000_3fe0_0000 && (Pow2(9) - 1) * Pow2(12) == 0x0000_001f_f000;
  }

  /** A table of 1024 words of 4 bytes, or of 512 words of 8 bytes, is one page. */
  lemma TablesFill()
    ensures FillsPage(10, 32) && FillsPage(9, 64)
  {
    Pow2Values();
    hide Pow2;
  }

  lemma I386Levels()
    ensures I386.ValidLevels() && Pow2(I386.levels[1].shift + I386.levels[1].bits) == 0x1_0000_0000
  {
    TablesFill();
    Pow2Values();
    hide Pow2, FillsPage;
  }

  lemma X64Levels()
    ensures X64.ValidLevels() && Pow2(X64.levels[1].shift + X64.levels[1].bits) == 0x1_0000_0000_0000
  {
    TablesFill();
    MorePowers();
    hide Pow2, FillsPage;
  }

  lemma I386Valid()
    ensures I386.Valid()
  {
    I386Levels();
    Pow2Values();
    MorePowers();
    hide Pow2, FillsPage, Mmu.ValidLevels;
    assert I386.Step() == 0x40_0000;
    assert I386.Span(I386.kernel[0]) == 0x4000_0000;
    assert I386.Span(I386.kernel[1]) == 0x300_0000;
    assert I386.Span(I386.user) == 0x4000_0000;
  }

  lemma X64Valid()
    ensures X64.Valid()
  {
    X64Levels();
    Pow2Values();
    MorePowers();
    hide Pow2, FillsPage, Mmu.ValidLevels;
    assert X64.Step() == 0x80_0000_0000;
    assert X64.Span(X64.kernel[0]) == 0x80_0000_0000;
    assert X64.Span(X64.user) == 0x80_0000_0000;
  }

  // ---------------------------------------------------------------- building with ptwalk

  ghost function KernelMode(mmu: Mmu): Mode
    requires mmu.ValidLevels()
  {
    Mode(3, 3, {}, Repeat<nat>(0, mmu.Slots(1)))
  }

  /** The pages of the areas before k, and those of area k below the limit. */
  ghost predicate PagesUpTo(mmu: Mmu, k: nat, limit: nat, va: nat)
    requires k <= |mmu.kernel|
  {
    || (exists j :: 0 <= j < k && mmu.InArea(mmu.kernel[j], va))
    || (k < |mmu.kernel| && mmu.kernel[k].start <= va < limit)
  }

  /** Exactly the pages built so far are mapped, each to itself, writable and for the kernel only. */
  ghost predicate IdentityUpTo(mmu: Mmu, mem: Memory, tables: Tables, s: nat, k: nat, limit: nat)
    requires mmu.ValidLevels() && k <= |mmu.kernel|
  {
    forall va: nat {:trigger Leaf(mmu, mem, tables, s, va)} :: LowPage(mmu, va) ==>
      Leaf(mmu, mem, tables, s, va) == if PagesUpTo(mmu, k, limit, va) then va + 3 else 0
  }

  lemma IdentityStep(mmu: Mmu, mem: Memory, tables: Tables, free: set<nat>, s: nat, k: nat, cur: nat)
    requires mmu.ValidLevels() && Inv(mmu, mem, tables, KernelMode(mmu), free) && k < |mmu.kernel|
    requires LowPage(mmu, cur) && mmu.kernel[k].start <= cur && mmu.kernel[k].start % 4096 == 0
    requires Table(s, Path(mmu, cur)[..mmu.Depth()]) in tables
    requires IdentityUpTo(mmu, mem, tables, s, k, cur)
    ensures var t, i := Table(s, Path(mmu, cur)[..mmu.Depth()]), Path(mmu, cur)[mmu.Depth()];
            && tables[t] in mem && i < |mem[tables[t]]|
            && Inv(mmu, WriteMem(mem, tables[t], i, cur + 3), tables, KernelMode(mmu), free)
            && IdentityUpTo(mmu, WriteMem(mem, tables[t], i, cur + 3), tables, s, k, cur + 4096)
  {
    hide Pow2, And, IndexOf, BaseOf, Present, User, Writable, LargePage, Leaf;
    var mode := KernelMode(mmu);
    var t, i := Table(s, Path(mmu, cur)[..mmu.Depth()]), Path(mmu, cur)[mmu.Depth()];
    assert TableOk(mmu, mem, tables, t);
    WriteLeaf(mmu, mem, tables, mode, free, s, cur, cur + 3, s, cur);
    WriteInv(mmu, mem, tables, mode, free, t, i, cur + 3);
    forall va: nat | LowPage(mmu, va)
      ensures Leaf(mmu, WriteMem(mem, tables[t], i, cur + 3), tables, s, va)
           == if PagesUpTo(mmu, k, cur + 4096, va) then va + 3 else 0
    {
      WriteLeaf(mmu, mem, tables, mode, free, s, cur, cur + 3, s, va);
      assert Leaf(mmu, mem, tables, s, va) == if PagesUpTo(mmu, k, cur, va) then va + 3 else 0;
    }
  }

  lemma IdentityArea(mmu: Mmu, mem: Memory, tables: Tables, s: nat, k: nat)
    requires mmu.ValidLevels() && k < |mmu.kernel|
    requires IdentityUpTo(mmu, mem, tables, s, k, mmu.kernel[k].start + mmu.Span(mmu.kernel[k]))
    ensures IdentityUpTo(mmu, mem, tables, s, k + 1, AreaStart(mmu, k + 1))
  {
    hide Pow2, Leaf;
    forall va: nat | LowPage(mmu, va)
      ensures Leaf(mmu, mem, tables, s, va) == if PagesUpTo(mmu, k + 1, AreaStart(mmu, k + 1), va) then va + 3 else 0
    {
      assert PagesUpTo(mmu, k + 1, AreaStart(mmu, k + 1), va)
        <==> PagesUpTo(mmu, k, mmu.kernel[k].start + mmu.Span(mmu.kernel[k]), va);
    }
  }

  /** Growing the tree keeps the identity map. */
  lemma IdentityExtends(mmu: Mmu, mem: Memory, tables: Tables, mem': Memory, tables': Tables, s: nat, k: nat, limit: nat)
    requires mmu.ValidLevels() && k <= |mmu.kernel| && IdentityUpTo(mmu, mem, tables, s, k, limit)
    requires Extends(mmu, mem, tables, mem', tables', s)
    ensures IdentityUpTo(mmu, mem', tables', s, k, limit)
  {
    hide Pow2, Leaf, PagesUpTo;
  }

  // ---------------------------------------------------------------- how many tables the kernel needs

  /** The paths of the tables that lead to the pages of the kernel areas. */
  ghost function KernelPaths(mmu: Mmu): set<seq<nat>>
    requires mmu.ValidLevels()
  {
    set va: nat, i: nat | va < Pow2(mmu.levels[1].shift + mmu.levels[1].bits) && 1 <= i <= mmu.Depth()
                          && LowPage(mmu, va) && mmu.InKernel(va) :: Path(mmu, va)[..i]
  }

  /** Only such tables have been built, and each of them takes one page. */
  ghost predicate BuiltFrom(mmu: Mmu, tables: Tables, free: set<nat>, pages: nat)
    requires mmu.ValidLevels()
  {
    && |tables| + |free| == pages + 1
    && forall t :: t in tables ==> t.path == [] || t.path in KernelPaths(mmu)
  }

  lemma BuiltStart(mmu: Mmu, s: nat, free: set<nat>)
    requires mmu.ValidLevels()
    ensures BuiltFrom(mmu, map[Table(s, []) := Cr3(s)], free, |free|)
  {
    var tables: Tables := map[Table(s, []) := Cr3(s)];
    assert tables.Keys == {Table(s, [])} && |tables| == |tables.Keys|;
  }

  lemma KernelPath(mmu: Mmu, va: nat, path: seq<nat>)
    requires mmu.ValidLevels() && LowPage(mmu, va) && mmu.InKernel(va) && OnPath(mmu, va, path)
    ensures path in KernelPaths(mmu)
  {
    hide Path, Pow2;
  }

  lemma BuiltMore(mmu: Mmu, tables0: Tables, free0: set<nat>, tables: Tables, free: set<nat>, pages: nat, s: nat, va: nat)
    requires mmu.ValidLevels() && BuiltFrom(mmu, tables0, free0, pages) && Grown(mmu, tables0, free0, tables, free, s, va)
    requires LowPage(mmu, va) && mmu.InKernel(va)
    ensures BuiltFrom(mmu, tables, free, pages)
  {
    hide Path, Pow2, KernelPaths, OnPath, LowPage;
    forall t | t in tables && t !in tables0
      ensures t.path in KernelPaths(mmu)
    {
      KernelPath(mmu, va, t.path);
    }
  }

  /** The paths of the tables of a single space, without the cell `as->ptr`. */
  ghost function PathsOf(tables: Tables): set<seq<nat>>
  {
    set t | t in tables && t.path != [] :: t.path
  }

  lemma PathCount(tables: Tables, s: nat)
    requires Table(s, []) in tables && forall t :: t in tables ==> t.space == s
    ensures |tables| == |PathsOf(tables)| + 1
  {
    var rest := tables.Keys - {Table(s, [])};
    assert |tables| == |tables.Keys| == |rest| + 1;
    assert forall t :: t in rest <==> t in tables && t.path != [];
    assert PathsOf(tables) == set t | t in rest :: t.path;
    SameCount(rest, s);
  }

  lemma {:induction false} SameCount(ts: set<Table>, s: nat)
    requires forall t :: t in ts ==> t.space == s
    ensures |set t | t in ts :: t.path| == |ts|
    decreases |ts|
  {
    var paths := set t | t in ts :: t.path;
    if ts == {} {
      assert paths == {};
    } else {
      var u :| u in ts;
      var rest := ts - {u};
      SameCount(rest, s);
      var paths' := set t | t in rest :: t.path;
      assert u.path !in paths';
      assert paths == paths' + {u.path};
    }
  }

  lemma InKernelArea(mmu: Mmu, k: nat, va: nat)
    requires k < |mmu.kernel| && mmu.InArea(mmu.kernel[k], va)
    ensures mmu.InKernel(va)
  {
  }

  /** If a kernel table could not be built, there were fewer pages than kernel tables. */
  lemma TooFewPages(mmu: Mmu, mem: Memory, tables: Tables, s: nat, free: set<nat>, pages: nat, va: nat)
    requires mmu.ValidLevels() && BuiltFrom(mmu, tables, free, pages) && OneSpace(mem, tables, s) && free == {}
    requires LowPage(mmu, va) && mmu.InKernel(va) && Table(s, Path(mmu, va)[..mmu.Depth()]) !in tables
    ensures pages < |KernelPaths(mmu)|
  {
    hide Path, Pow2;
    PathCount(tables, s);
    var missing := Path(mmu, va)[..mmu.Depth()];
    assert missing in KernelPaths(mmu) && missing !in PathsOf(tables) by {
      assert forall t :: t in tables && t.path == missing ==> t == Table(s, missing);
    }
    SubsetCount(PathsOf(tables) + {missing}, KernelPaths(mmu));
  }

  lemma SubsetCount(a: set<seq<nat>>, b: set<seq<nat>>)
    requires a <= b
    ensures |a| <= |b|
  {
    assert b == a + (b - a);
  }

  /** When all pages are mapped, exactly the kernel tables exist. */
  lemma EnoughPages(mmu: Mmu, mem: Memory, tables: Tables, s: nat, free: set<nat>, pages: nat)
    requires mmu.ValidLevels() && Inv(mmu, mem, tables, KernelMode(mmu), free) && OneSpace(mem, tables, s)
    requires BuiltFrom(mmu, tables, free, pages) && IdentityUpTo(mmu, mem, tables, s, |mmu.kernel|, 0)
    ensures pages == |free| + |KernelPaths(mmu)|
  {
    hide Path, Pow2, Inv, IdentityUpTo;
    PathCount(tables, s);
    forall path | path in KernelPaths(mmu)
      ensures path in PathsOf(tables)
    {
      var va: nat, i: nat :| 1 <= i <= mmu.Depth() && LowPage(mmu, va) && mmu.InKernel(va) && path == Path(mmu, va)[..i];
      KernelTableExists(mmu, mem, tables, free, s, va, i);
      assert Table(s, path) in tables && |path| == i;
    }
    assert PathsOf(tables) == KernelPaths(mmu);
  }

  lemma KernelTableExists(mmu: Mmu, mem: Memory, tables: Tables, free: set<nat>, s: nat, va: nat, i: nat)
    requires mmu.ValidLevels() && Inv(mmu, mem, tables, KernelMode(mmu), free)
    requires IdentityUpTo(mmu, mem, tables, s, |mmu.kernel|, 0)
    requires LowPage(mmu, va) && mmu.InKernel(va) && 1 <= i <= mmu.Depth()
    ensures Table(s, Path(mmu, va)[..i]) in tables && |Path(mmu, va)[..i]| == i
  {
    hide Pow2, And, IndexOf, Inv, Leaf;
    assert PagesUpTo(mmu, |mmu.kernel|, 0, va);
    assert Leaf(mmu, mem, tables, s, va) == va + 3;
    if Table(s, Path(mmu, va)[..i]) !in tables {
      MissingBelow(mmu, mem, tables, KernelMode(mmu), free, s, va, i);
    }
  }

  // ---------------------------------------------------------------- from the built tree to the shared tables

  /** The level of every kernel table page. */
  ghost function KernelLevels(tables: Tables): (r: map<Loc, nat>)
    requires Injective(tables)
    ensures forall t {:trigger tables[t]} :: t in tables && t.path != [] ==> tables[t] in r && r[tables[t]] == |t.path|
    ensures forall l :: l in r ==> exists t {:trigger tables[t]} :: t in tables && t.path != [] && tables[t] == l
  {
    assert forall t, u :: t in tables && u in tables && tables[t] == tables[u] ==> t == u by {
      forall t, u
        ensures t in tables && u in tables && tables[t] == tables[u] ==> t == u
      {
        assert Apart(tables, t, u);
      }
    }
    map t | t in tables && t.path != [] :: tables[t] := |t.path|
  }

  lemma KernelTables(mmu: Mmu, mem: Memory, tables: Tables, free: set<nat>, s: nat)
    requires mmu.ValidLevels() && Inv(mmu, mem, tables, KernelMode(mmu), free)
    requires Table(s, [0]) in tables
    requires forall t :: t in tables ==> t.space == s
    ensures KernelOk(mmu, mem - {Cr3(s)}, KernelLevels(tables), tables[Table(s, [0])])
    ensures forall i: nat :: i < |mem[tables[Table(s, [0])]]| ==>
              mem[tables[Table(s, [0])]][i] < Pow2(mmu.wordBits) && !User(mem[tables[Table(s, [0])]][i])
  {
    hide Pow2, And, IndexOf, BaseOf, Present, User, Writable, LargePage;
    var kernel := KernelLevels(tables);
    var mem' := mem - {Cr3(s)};
    assert TableOk(mmu, mem, tables, Table(s, [0]));
    forall l | l in kernel
      ensures l in mem' && 1 <= kernel[l] <= mmu.Depth()
    {
      var t :| t in tables && t.path != [] && tables[t] == l;
      assert TableOk(mmu, mem, tables, t);
    }
    forall l, i: nat | l in kernel && l in mem' && i < |mem'[l]|
      ensures KernelEntry(mmu, kernel, kernel[l], mem'[l][i])
    {
      var t :| t in tables && t.path != [] && tables[t] == l;
      KernelTableEntry(mmu, mem, tables, free, t, i);
    }
    forall i: nat | i < |mem[tables[Table(s, [0])]]|
      ensures mem[tables[Table(s, [0])]][i] < Pow2(mmu.wordBits) && !User(mem[tables[Table(s, [0])]][i])
    {
      KernelTableEntry(mmu, mem, tables, free, Table(s, [0]), i);
    }
  }

  lemma KernelTableEntry(mmu: Mmu, mem: Memory, tables: Tables, free: set<nat>, t: Table, i: nat)
    requires mmu.ValidLevels() && Inv(mmu, mem, tables, KernelMode(mmu), free)
    requires t in tables && t.path != [] && tables[t] in mem && i < |mem[tables[t]]|
    ensures tables[t] in KernelLevels(tables) && KernelLevels(tables)[tables[t]] == |t.path|
    ensures KernelEntry(mmu, KernelLevels(tables), |t.path|, mem[tables[t]][i])
    ensures |t.path| < mmu.Depth() ==> mem[tables[t]][i] < Pow2(mmu.wordBits) && !User(mem[tables[t]][i])
  {
    hide Pow2, And, IndexOf, BaseOf, Present, User, Writable, LargePage;
    var kernel := KernelLevels(tables);
    assert TableOk(mmu, mem, tables, t) && EntriesOk(mmu, mem, tables, KernelMode(mmu), t);
    if |t.path| < mmu.Depth() {
      var c := Child(t, i);
      assert EntryOk(mem, tables, KernelMode(mmu), t, i);
      if c in tables {
        assert TableOk(mmu, mem, tables, c);
        assert tables[c] in kernel && kernel[tables[c]] == |c.path|;
        EntryFields(tables[c].base, 3, mmu.wordBits);
      } else {
        WordBits(0);
      }
    }
  }

  /** The kernel translation once the identity map is complete. */
  lemma KernelIdentity(mmu: Mmu, mem: Memory, tables: Tables, free: set<nat>, s: nat, va: nat)
    requires mmu.Valid() && Inv(mmu, mem, tables, KernelMode(mmu), free)
    requires IdentityUpTo(mmu, mem, tables, s, |mmu.kernel|, 0)
    requires Table(s, [0]) in tables
    requires va < Pow2(mmu.levels[1].shift + mmu.levels[1].bits)
    ensures HwFrom(mmu, mem, tables[Table(s, [0])], 1, va, true, true)
         == if mmu.InKernel(va - va % 4096) then To(va - va % 4096, false, true) else Fault
  {
    hide Pow2, And, IndexOf, BaseOf, Present, User, Writable, LargePage, HwFrom;
    var page := va - va % 4096;
    assert Path(mmu, va)[..1] == [0] by {
      IndexOfValue(va, mmu.levels[0]);
      Pow2Zero();
    }
    WalkFrom(mmu, mem, tables, KernelMode(mmu), free, s, va, 1, true);
    SamePath(mmu, va);
    assert Leaf(mmu, mem, tables, s, va) == Leaf(mmu, mem, tables, s, page);
    assert LowPage(mmu, page);
    assert PagesUpTo(mmu, |mmu.kernel|, 0, page) <==> mmu.InKernel(page);
    WordBits(0);
    assert page < Pow2(mmu.wordBits) by { Pow2Mono(mmu.levels[1].shift + mmu.levels[1].bits, mmu.wordBits); }
    EntryFields(page, 3, mmu.wordBits);
  }

  /** Every kernel page translates to itself, writable and not for the user, and every other page faults. */
  ghost predicate IdentityTranslation(mmu: Mmu, mem: Memory, kpt: Loc)
    requires mmu.ValidLevels()
  {
    forall va: nat {:trigger HwFrom(mmu, mem, kpt, 1, va, true, true)} ::
      va < Pow2(mmu.levels[1].shift + mmu.levels[1].bits) ==>
      HwFrom(mmu, mem, kpt, 1, va, true, true)
      == if mmu.InKernel(va - va % 4096) then To(va - va % 4096, false, true) else Fault
  }

  /** Removing the temporary `as->ptr` does not affect the kernel's tables. */
  lemma KernelAfter(mmu: Mmu, mem: Memory, kernel: map<Loc, nat>, kpt: Loc, s: nat, va: nat)
    requires KernelOk(mmu, mem - {Cr3(s)}, kernel, kpt)
    ensures HwFrom(mmu, mem, kpt, 1, va, true, true) == HwFrom(mmu, mem - {Cr3(s)}, kpt, 1, va, true, true)
  {
    KernelStable(mmu, mem - {Cr3(s)}, mem, kernel, kpt, kpt, va, true, true);
  }

  /** The kernel translation is the same while the kernel's tables are. */
  lemma KernelSame(mmu: Mmu, mem: Memory, mem': Memory, kernel: map<Loc, nat>, kpt: Loc)
    requires KernelOk(mmu, mem, kernel, kpt)
    requires forall l :: l in kernel ==> l in mem' && l in mem && mem'[l] == mem[l]
    ensures forall va {:trigger HwFrom(mmu, mem', kpt, 1, va, true, true)} ::
              HwFrom(mmu, mem', kpt, 1, va, true, true) == HwFrom(mmu, mem, kpt, 1, va, true, true)
  {
    forall va
      ensures HwFrom(mmu, mem', kpt, 1, va, true, true) == HwFrom(mmu, mem, kpt, 1, va, true, true)
    {
      KernelStable(mmu, mem, mem', kernel, kpt, kpt, va, true, true);
    }
  }

  /** The first state of the user phase: no address space yet. */
  lemma EmptyState(mmu: Mmu, mem: Memory, free: set<nat>, kernel: map<Loc, nat>, kpt: Loc)
    requires mmu.Valid() && KernelOk(mmu, mem, kernel, kpt)
    requires |mem[kpt]| == mmu.Slots(1)
    requires forall i: nat :: i < |mem[kpt]| ==> mem[kpt][i] < Pow2(mmu.wordBits) && !User(mem[kpt][i])
    requires forall p :: p in free ==> PageAddr(p, mmu.wordBits) && Page(p) !in mem
    ensures StateOk(mmu, mem, map[], free, kernel, kpt, map[])
  {
    hide Pow2, And, User, KernelEntry, IndexOf;
  }

  // ---------------------------------------------------------------- the 64-bit boot tables

  /** PML4 at 0x1000 with one entry, PDPT at 0x2000 with 512 pages of 1 GiB. */
  ghost function BootMemory(): Memory
  {
    map[Page(0x1000) := Repeat<nat>(0, 512)[0 := 0x2003],
        Page(0x2000) := seq(512, i requires 0 <= i => i * 0x4000_0000 + 0x83)]
  }

  /** They form closed kernel tables, so `protect` and `map` work on top of them as well. */
  lemma BootTables(free: set<nat>)
    requires forall p :: p in free ==> PageAddr(p, X64.wordBits) && p != 0x1000 && p != 0x2000
    ensures StateOk(X64, BootMemory(), map[], free, map[Page(0x1000) := 1, Page(0x2000) := 2], Page(0x1000), map[])
  {
    X64Valid();
    Pow2Values();
    hide Pow2, And, IndexOf, BaseOf, Present, User, Writable, LargePage;
    var mem, kernel := BootMemory(), map[Page(0x1000) := 1, Page(0x2000) := 2];
    forall i: nat | i < 512
      ensures KernelEntry(X64, kernel, 1, mem[Page(0x1000)][i])
      ensures mem[Page(0x1000)][i] < Pow2(X64.wordBits) && !User(mem[Page(0x1000)][i])
      ensures KernelEntry(X64, kernel, 2, mem[Page(0x2000)][i])
    {
      BootWords(i, kernel);
    }
    hide KernelEntry;
    EmptyState(X64, mem, free, kernel, Page(0x1000));
  }

  lemma BootWords(i: nat, kernel: map<Loc, nat>)
    requires i < 512 && kernel == map[Page(0x1000) := 1, Page(0x2000) := 2]
    ensures X64.ValidLevels()
    ensures KernelEntry(X64, kernel, 1, BootMemory()[Page(0x1000)][i])
    ensures BootMemory()[Page(0x1000)][i] < Pow2(X64.wordBits) && !User(BootMemory()[Page(0x1000)][i])
    ensures KernelEntry(X64, kernel, 2, BootMemory()[Page(0x2000)][i])
  {
    X64Valid();
    assert BootMemory()[Page(0x1000)][i] == if i == 0 then 0x2003 else 0;
    assert BootMemory()[Page(0x2000)][i] == i * 0x4000_0000 + 0x83;
    hide BootMemory, KernelEntry, Pow2, And, IndexOf, BaseOf, Present, User, Writable, LargePage;
    RootEntries(kernel);
    LargeEntry(i, kernel);
  }

  lemma RootEntries(kernel: map<Loc, nat>)
    requires X64.ValidLevels() && kernel == map[Page(0x1000) := 1, Page(0x2000) := 2]
    ensures KernelEntry(X64, kernel, 1, 0) && KernelEntry(X64, kernel, 1, 0x2003)
    ensures 0x2003 < Pow2(X64.wordBits) && !User(0) && !User(0x2003)
  {
    hide Pow2, And, IndexOf, BaseOf, Present, User, Writable, LargePage;
    RootEntry();
    WordBits(0);
  }

  lemma RootEntry()
    ensures 0x2003 < Pow2(X64.wordBits) && !User(0x2003) && BaseOf(0x2003, X64.wordBits) == 0x2000
  {
    hide Pow2, And, BaseOf, Present, User, Writable, LargePage;
    var base: nat := 0x2000;
    Pow2Values();
    EntryFields(base, 3, X64.wordBits);
  }

  lemma LargeEntry(i: nat, kernel: map<Loc, nat>)
    requires X64.ValidLevels() && i < 512
    ensures KernelEntry(X64, kernel, 2, i * 0x4000_0000 + 0x83)
  {
    hide Pow2, And, IndexOf, BaseOf, Present, User, Writable, LargePage;
    BootLarge(i);
  }

  /** An entry of the PDPT as start64.S stores it: the low word, then the high word. */
  lemma BootEntry(i: nat)
    requires i < 512
    ensures Or(i * 0x4000_0000 % 0x1_0000_0000, 0x83) + i / 4 * 0x1_0000_0000 == i * 0x4000_0000 + 0x83
  {
    Pow2Values();
    hide Pow2;
    var low := i % 4 * 0x4000_0000;
    assert i * 0x4000_0000 == i / 4 * 0x1_0000_0000 + low;
    DivUnique(i * 0x4000_0000, 0x1_0000_0000, i / 4, low);
    var k := i % 4 * 0x4_0000;
    assert low == k * 0x1000;
    OrLow(k, 12, 0, 0x83);
    assert Or(0, 0x83) == 0x83;
  }

  lemma BootLarge(i: nat)
    requires i < 512
    ensures var w := i * 0x4000_0000 + 0x83;
            && w < Pow2(X64.wordBits) && Present(w) && Writable(w) && !User(w) && LargePage(w)
            && BaseOf(w, X64.wordBits) == i * 0x4000_0000
  {
    Pow2Values();
    hide Pow2, And, BaseOf, Present, User, Writable, LargePage;
    var w := i * 0x4000_0000 + 0x83;
    WordBits(w);
    assert w == 128 * (8388608 * i + 1) + 3;
    assert w / 128 == 8388608 * i + 1;
    BaseOfValue(w, 64);
    DivUnique(w, 4096, i * 0x4_0000, 0x83);
  }

  lemma BootIndices(va: nat)
    requires va < 0x1_0000_0000_0000
    ensures 0 <= IndexOf(va, X64.levels[1]) < 512 && 0 <= IndexOf(va, X64.levels[2]) < 512
    ensures IndexOf(va, X64.levels[1]) == 0 <==> va < 0x80_0000_0000
    ensures va < 0x80_0000_0000 ==> IndexOf(va, X64.levels[2]) * 0x4000_0000 == va - va % 0x4000_0000
  {
    Pow2Values();
    MorePowers();
    hide Pow2, And, IndexOf;
    IndexOfValue(va, X64.levels[1]);
    IndexOfValue(va, X64.levels[2]);
    var i1, i2 := va / 0x80_0000_0000, va / 0x4000_0000;
    assert i1 < 512 && i1 % 512 == i1;
    assert va < 0x80_0000_0000 ==> i2 < 512 && i2 % 512 == i2;
    DivRem(va, 0x4000_0000);
  }

  lemma BootArea(va: nat)
    ensures X64.InKernel(va) <==> va < 0x80_0000_0000
  {
    Pow2Values();
    hide Pow2;
    assert X64.Span(X64.kernel[0]) == 0x80_0000_0000;
    assert X64.InArea(X64.kernel[0], va) <==> va < 0x80_0000_0000;
  }

  /** The boot tables map every kernel address into its own 1 GiB page, for the kernel only, and nothing else. */
  lemma BootTranslation(va: nat)
    requires va < 0x1_0000_0000_0000
    ensures HwFrom(X64, BootMemory(), Page(0x1000), 1, va, true, true)
         == if X64.InKernel(va) then To(va - va % 0x4000_0000, false, true) else Fault
  {
    hide Pow2, And, IndexOf, BaseOf, Present, User, Writable, LargePage, HwFrom;
    BootIndices(va);
    BootArea(va);
    var mem, i1, i2 := BootMemory(), IndexOf(va, X64.levels[1]), IndexOf(va, X64.levels[2]);
    assert mem[Page(0x1000)][i1] == if i1 == 0 then 0x2003 else 0;
    assert mem[Page(0x2000)][i2] == i2 * 0x4000_0000 + 0x83;
    hide BootMemory;
    HwStep(X64, mem, Page(0x1000), 1, va, true, true, mem[Page(0x1000)][i1]);
    WordBits(0);
    assert PageAddr(0x2000, X64.wordBits) by { Pow2Values(); }
    EntryFields(0x2000, 3, X64.wordBits);
    HwStep(X64, mem, Page(0x2000), 2, va, false, true, mem[Page(0x2000)][i2]);
    BootLarge(i2);
  }

  /** Every 48-bit kernel address translates to its own page of 1 GiB, and every other one faults. */
  ghost predicate LargePages(mem: Memory, kpt: Loc)
  {
    forall va: nat {:trigger HwFrom(X64, mem, kpt, 1, va, true, true)} :: va < 0x1_0000_0000_0000 ==>
      HwFrom(X64, mem, kpt, 1, va, true, true)
      == if X64.InKernel(va) then To(va - va % 0x4000_0000, false, true) else Fault
  }

  lemma BootTranslations()
    ensures LargePages(BootMemory(), Page(0x1000))
  {
    hide HwFrom, BootMemory;
    forall va: nat | va < 0x1_0000_0000_0000
      ensures HwFrom(X64, BootMemory(), Page(0x1000), 1, va, true, true)
           == if X64.InKernel(va) then To(va - va % 0x4000_0000, false, true) else Fault
    {
      BootTranslation(va);
    }
  }

  // ---------------------------------------------------------------- steps used by vme_init

  /** While the kernel's tables are built there is a single address space. */
  ghost predicate OneSpace(mem: Memory, tables: Tables, s: nat)
  {
    && Table(s, []) in tables
    && (forall t :: t in tables ==> t.space == s)
    && (forall q :: Cr3(q) in mem ==> q == s)
  }

  lemma OneSpaceExtends(mmu: Mmu, mem: Memory, tables: Tables, mem': Memory, tables': Tables, s: nat)
    requires mmu.ValidLevels() && OneSpace(mem, tables, s)
    requires Extends(mmu, mem, tables, mem', tables', s)
    ensures OneSpace(mem', tables', s)
  {
    hide Leaf, Foreign;
  }

  /** `as.ptr = NULL`: nothing is mapped. */
  lemma NullSpace(mmu: Mmu, free: set<nat>, s: nat)
    requires mmu.Valid() && forall p :: p in free ==> PageAddr(p, mmu.wordBits)
    ensures var mem: Memory, tables: Tables := map[Cr3(s) := [0]], map[Table(s, []) := Cr3(s)];
            && Inv(mmu, mem, tables, KernelMode(mmu), free)
            && OneSpace(mem, tables, s)
            && IdentityUpTo(mmu, mem, tables, s, 0, AreaStart(mmu, 0))
  {
    Pow2Zero();
    hide Pow2, And, IndexOf, BaseOf, Present, User, Writable, LargePage;
    var mem: Memory, tables: Tables := map[Cr3(s) := [0]], map[Table(s, []) := Cr3(s)];
    var t := Table(s, []);
    assert EntryOk(mem, tables, KernelMode(mmu), t, 0) by { assert |Child(t, 0).path| == 1; }
    assert TableOk(mmu, mem, tables, t) && EntriesOk(mmu, mem, tables, KernelMode(mmu), t);
  }

  lemma BootRoot()
    ensures Or(0x2000, Or(PTE_P, PTE_W)) == 0x2003
  {
    assert Or(1, 2) == 3;
    Pow2Values();
    hide Pow2;
    OrLow(2, 12, 0, 3);
    assert Or(0, 3) == 3;
  }

  lemma KernelFlags()
    ensures Or(1, PTE_W) == 3
  {
  }

  lemma KernelArea(mmu: Mmu, k: nat)
    requires mmu.Valid() && k < |mmu.kernel|
    ensures mmu.WholeEntries(mmu.kernel[k])
    ensures mmu.kernel[k].start % 4096 == 0 && mmu.Span(mmu.kernel[k]) % 4096 == 0
  {
    hide Pow2;
    AreaPages(mmu, mmu.kernel[k]);
  }

  lemma AreaPages(mmu: Mmu, a: Area)
    requires mmu.Valid() && mmu.WholeEntries(a)
    ensures a.start % 4096 == 0 && mmu.Span(a) % 4096 == 0
  {
    hide Pow2;
    StepIsPages(mmu);
    var k := Pow2(mmu.levels[1].shift - 12);
    DivRem(a.start, mmu.Step());
    MultipleOfPage(a.start / mmu.Step(), k, a.start, mmu.Step());
    DivRem(mmu.Span(a), mmu.Step());
    MultipleOfPage(mmu.Span(a) / mmu.Step(), k, mmu.Span(a), mmu.Step());
  }

  /** The page loop of `vme_init`, one step. */
  lemma PageStep(mmu: Mmu, a: Area, n: nat, cur: nat)
    requires mmu.ValidLevels() && mmu.WholeEntries(a) && a.start % 4096 == 0
    requires mmu.Span(a) % 4096 == 0 && n * 4096 <= mmu.Span(a)
    requires cur == (a.start + n * 4096) % Pow2(mmu.wordBits)
    ensures cur == a.end ==> a.start + n * 4096 == a.start + mmu.Span(a)
    ensures cur != a.end ==>
              && cur == a.start + n * 4096 && LowPage(mmu, cur)
              && (n + 1) * 4096 <= mmu.Span(a)
              && cur + 4096 == a.start + (n + 1) * 4096
  {
    hide Pow2, FillsPage;
    AreaStep(mmu, a, 4096, n, cur);
  }

  /** When the loops are done the root table exists and `as.ptr` points to it. */
  lemma RootBuilt(mmu: Mmu, mem: Memory, tables: Tables, free: set<nat>, s: nat)
    requires mmu.Valid() && |mmu.kernel| > 0 && mmu.Span(mmu.kernel[0]) > 0
    requires Inv(mmu, mem, tables, KernelMode(mmu), free) && OneSpace(mem, tables, s)
    requires IdentityUpTo(mmu, mem, tables, s, |mmu.kernel|, 0)
    ensures Table(s, [0]) in tables && Cr3(s) in mem && |mem[Cr3(s)]| == 1
    ensures tables[Table(s, [0])] == Page(BaseOf(mem[Cr3(s)][0], mmu.wordBits))
    ensures var kpt := tables[Table(s, [0])];
            && kpt in mem && |mem[kpt]| == mmu.Slots(1)
            && Injective(tables)
            && KernelOk(mmu, mem - {Cr3(s)}, KernelLevels(tables), kpt)
            && (forall i: nat :: i < |mem[kpt]| ==> mem[kpt][i] < Pow2(mmu.wordBits) && !User(mem[kpt][i]))
            && (forall p :: p in free ==> PageAddr(p, mmu.wordBits) && Page(p) !in mem)
  {
    hide Pow2, And, IndexOf, BaseOf, Present, User, Writable, LargePage, KernelOk;
    var va := mmu.kernel[0].start;
    assert mmu.InArea(mmu.kernel[0], va);
    assert mmu.WholeEntries(mmu.kernel[0]);
    AreaPages(mmu, mmu.kernel[0]);
    assert PagesUpTo(mmu, |mmu.kernel|, 0, va);
    assert LowPage(mmu, va);
    assert Leaf(mmu, mem, tables, s, va) == va + 3;
    assert Path(mmu, va)[..1] == [0] by {
      IndexOfValue(va, mmu.levels[0]);
      Pow2Zero();
    }
    if Table(s, [0]) !in tables {
      MissingBelow(mmu, mem, tables, KernelMode(mmu), free, s, va, 1);
    }
    StepFacts(mmu, mem, tables, KernelMode(mmu), free, s, va, 0);
    Pow2Zero();
    assert Path(mmu, va)[..0] == [];
    assert TableOk(mmu, mem, tables, Table(s, []));
    assert TableOk(mmu, mem, tables, Table(s, [0]));
    KernelTables(mmu, mem, tables, free, s);
  }

  // ---------------------------------------------------------------- runs

  datatype Command =
    | DoProtect(s: nat)
    | DoMap(s: nat, va: nat, pa: nat, prot: nat)
    | DoUnprotect(s: nat)
    | DoAlloc
    | DoRelease(p: nat)

  /** Callers protect a space before they use it and do not use it after `unprotect`. */
  predicate Applicable(live: set<nat>, c: Command)
  {
    match c
    case DoProtect(s) => s !in live
    case DoMap(s, _, _, _) => s in live
    case DoUnprotect(s) => s in live
    case DoAlloc => true
    case DoRelease(_) => true
  }

  function LiveAfter(live: set<nat>, c: Command): set<nat>
  {
    match c
    case DoProtect(s) => live + {s}
    case DoMap(_, _, _, _) => live
    case DoUnprotect(s) => live - {s}
    case DoAlloc => live
    case DoRelease(_) => live
  }

  predicate Usable(live: set<nat>, commands: seq<Command>)
    decreases |commands|
  {
    commands == [] || (Applicable(live, commands[0]) && Usable(LiveAfter(live, commands[0]), commands[1..]))
  }

  /** What a command depends on and changes. */
  datatype Snapshot = Snapshot(maps: Maps, tables: Tables, free: set<nat>, handed: set<nat>, freed: seq<nat>)

  ghost predicate StepLegal(mmu: Mmu, now: Snapshot, c: Command)
  {
    match c
    case DoProtect(_) => true
    case DoMap(s, va, pa, prot) => MapLegal(mmu, now.maps, s, va, pa, prot)
    case DoUnprotect(_) => true
    case DoAlloc => true
    case DoRelease(p) => p in now.handed
  }

  /** The number of free pages that a command takes. */
  ghost function Needed(mmu: Mmu, now: Snapshot, c: Command): nat
    requires mmu.ValidLevels()
  {
    match c
    case DoProtect(_) => 1
    case DoMap(s, va, _, _) => Missing(mmu, now.tables, s, va)
    case DoUnprotect(_) => 0
    case DoAlloc => 1
    case DoRelease(_) => 0
  }

  ghost predicate Succeeds(mmu: Mmu, now: Snapshot, c: Command)
    requires mmu.ValidLevels()
  {
    StepLegal(mmu, now, c) && Needed(mmu, now, c) <= |now.free|
  }

  ghost function StepSpec(maps: Maps, c: Command): Maps
  {
    match c
    case DoProtect(s) => maps[s := map[]]
    case DoMap(s, va, pa, prot) => if s in maps then MapSpec(maps, s, va, pa, prot) else maps
    case DoUnprotect(s) => maps - {s}
    case DoAlloc => maps
    case DoRelease(_) => maps
  }

  /** The caller maps only pages that it has, and gives back only pages that it has not mapped. */
  ghost predicate Careful(now: Snapshot, c: Command)
  {
    match c
    case DoMap(_, _, pa, prot) => prot == 0 || pa in now.handed
    case DoRelease(p) => forall s, va {:trigger now.maps[s][va]} :: s in now.maps && va in now.maps[s] ==> now.maps[s][va].pa != p
    case _ => true
  }

  /** The pages of the caller change only at its own request, and none that it has is freed. */
  ghost predicate PagesSafe(now: Snapshot, c: Command, next: Snapshot)
  {
    && (match c
        case DoAlloc => exists p :: p in now.free && next.handed == now.handed + {p}
        case DoRelease(p) => next.handed == now.handed - {p}
        case _ => next.handed == now.handed)
    && |now.freed| <= |next.freed| && next.freed[..|now.freed|] == now.freed
    && forall p :: p in next.freed[|now.freed|..] ==> p !in now.handed
  }

  /** A command has done what it specifies exactly when it is legal and there were pages enough. */
  ghost predicate Executed(mmu: Mmu, now: Snapshot, c: Command, ok: bool, next: Snapshot)
    requires mmu.ValidLevels()
  {
    && (ok <==> Succeeds(mmu, now, c))
    && next.maps == (if ok then StepSpec(now.maps, c) else now.maps)
    && (if ok then PagesSafe(now, c, next) else next.handed == now.handed && next.freed == now.freed)
    && (Owned(now.maps, now.handed) && Careful(now, c) ==> Owned(next.maps, next.handed))
  }

  lemma ProtectExecuted(mmu: Mmu, now: Snapshot, c: Command, ok: bool, next: Snapshot)
    requires mmu.ValidLevels() && c.DoProtect? && (ok <==> now.free != {})
    requires next.maps == if ok then now.maps[c.s := map[]] else now.maps
    requires next.handed == now.handed && next.freed == now.freed
    ensures Executed(mmu, now, c, ok, next)
  {
    assert ok <==> |now.free| >= 1;
  }

  lemma MapExecuted(mmu: Mmu, now: Snapshot, c: Command, ok: bool, next: Snapshot)
    requires mmu.ValidLevels() && c.DoMap? && c.s in now.maps
    requires ok <==> MapLegal(mmu, now.maps, c.s, c.va, c.pa, c.prot) && Missing(mmu, now.tables, c.s, c.va) <= |now.free|
    requires next.maps == if ok then MapSpec(now.maps, c.s, c.va, c.pa, c.prot) else now.maps
    requires Owned(now.maps, now.handed) && (c.prot == 0 || c.pa in now.handed) ==> Owned(next.maps, next.handed)
    requires next.handed == now.handed && next.freed == now.freed
    ensures Executed(mmu, now, c, ok, next)
  {
    hide Missing, MapLegal, MapSpec, Owned;
  }

  lemma UnprotectExecuted(mmu: Mmu, now: Snapshot, c: Command, next: Snapshot)
    requires mmu.ValidLevels() && c.DoUnprotect? && next.maps == now.maps - {c.s} && next.handed == now.handed
    requires |now.freed| <= |next.freed| && next.freed[..|now.freed|] == now.freed
    requires forall p :: p in next.freed[|now.freed|..] ==> p !in now.handed
    ensures Executed(mmu, now, c, true, next)
  {
  }

  lemma AllocExecuted(mmu: Mmu, now: Snapshot, c: Command, ok: bool, next: Snapshot, p: nat)
    requires mmu.ValidLevels() && c.DoAlloc? && next.maps == now.maps && next.freed == now.freed
    requires (ok <==> now.free != {}) && (ok ==> p in now.free)
    requires next.handed == if ok then now.handed + {p} else now.handed
    ensures Executed(mmu, now, c, ok, next)
  {
    assert ok <==> |now.free| >= 1;
  }

  lemma ReleaseExecuted(mmu: Mmu, now: Snapshot, c: Command, ok: bool, next: Snapshot)
    requires mmu.ValidLevels() && c.DoRelease? && next.maps == now.maps && next.freed == now.freed
    requires ok <==> c.p in now.handed
    requires next.handed == if ok then now.handed - {c.p} else now.handed
    ensures Executed(mmu, now, c, ok, next)
  {
  }

  /** The states of a run: every command succeeded, did what it specifies, and left the caller's pages alone. */
  ghost predicate History(mmu: Mmu, commands: seq<Command>, steps: seq<Snapshot>)
    requires mmu.ValidLevels()
  {
    && 0 < |steps| <= |commands| + 1
    && forall i {:trigger commands[i]} :: 0 <= i < |steps| - 1 ==>
         && Succeeds(mmu, steps[i], commands[i])
         && steps[i + 1].maps == StepSpec(steps[i].maps, commands[i])
         && PagesSafe(steps[i], commands[i], steps[i + 1])
  }

  /** As long as the caller is careful, all mapped frames are its own. */
  ghost predicate KeepsOwned(commands: seq<Command>, steps: seq<Snapshot>)
    requires 0 < |steps| <= |commands| + 1
  {
    forall i {:trigger steps[i]} :: 0 <= i < |steps| && CarefulUpTo(commands, steps, i) ==> Owned(steps[i].maps, steps[i].handed)
  }

  ghost predicate CarefulUpTo(commands: seq<Command>, steps: seq<Snapshot>, n: int)
    requires 0 < |steps| <= |commands| + 1 && 0 <= n < |steps|
  {
    Owned(steps[0].maps, steps[0].handed) && forall i {:trigger commands[i]} :: 0 <= i < n ==> Careful(steps[i], commands[i])
  }

  lemma HistoryStart(mmu: Mmu, commands: seq<Command>, now: Snapshot)
    requires mmu.ValidLevels()
    ensures History(mmu, commands, [now]) && KeepsOwned(commands, [now])
  {
  }

  lemma HistoryNext(mmu: Mmu, commands: seq<Command>, steps: seq<Snapshot>, next: Snapshot)
    requires mmu.ValidLevels() && History(mmu, commands, steps) && KeepsOwned(commands, steps) && |steps| <= |commands|
    requires var now, c := steps[|steps| - 1], commands[|steps| - 1];
             && Succeeds(mmu, now, c) && next.maps == StepSpec(now.maps, c) && PagesSafe(now, c, next)
             && (Owned(now.maps, now.handed) && Careful(now, c) ==> Owned(next.maps, next.handed))
    ensures History(mmu, commands, steps + [next]) && KeepsOwned(commands, steps + [next])
  {
    hide Succeeds, StepSpec, PagesSafe, Owned, Careful;
    var more, n := steps + [next], |steps|;
    forall i | 0 <= i < |more| && CarefulUpTo(commands, more, i)
      ensures Owned(more[i].maps, more[i].handed)
    {
      if i < n {
        assert CarefulUpTo(commands, steps, i);
        assert more[i] == steps[i];
      } else {
        assert CarefulUpTo(commands, steps, n - 1) by {
          assert forall j :: 0 <= j < n - 1 ==> more[j] == steps[j];
        }
        assert Owned(steps[n - 1].maps, steps[n - 1].handed);
        assert Careful(more[n - 1], commands[n - 1]);
      }
    }
  }

  ghost function RunSpec(maps: Maps, commands: seq<Command>): Maps
  {
    if commands == [] then maps
    else StepSpec(RunSpec(maps, commands[..|commands| - 1]), commands[|commands| - 1])
  }

  lemma {:induction false} RunKeys(maps: Maps, commands: seq<Command>, n: nat)
    requires n <= |commands| && Usable(maps.Keys, commands)
    ensures Usable(RunSpec(maps, commands[..n]).Keys, commands[n..])
  {
    hide MapSpec;
    if n == 0 {
      assert commands[0..] == commands;
    } else {
      RunKeys(maps, commands, n - 1);
      var m, c := RunSpec(maps, commands[..n - 1]), commands[n - 1];
      assert commands[..n][..n - 1] == commands[..n - 1];
      assert commands[n - 1..][1..] == commands[n..];
      assert LiveAfter(m.Keys, c) == StepSpec(m, c).Keys by { StepKeys(m, c); }
    }
  }

  lemma StepKeys(maps: Maps, c: Command)
    requires Applicable(maps.Keys, c)
    ensures StepSpec(maps, c).Keys == LiveAfter(maps.Keys, c)
  {
    hide And;
  }

  lemma UsableAt(maps: Maps, commands: seq<Command>, n: nat)
    requires n < |commands| && Usable(maps.Keys, commands)
    ensures Applicable(RunSpec(maps, commands[..n]).Keys, commands[n])
  {
    RunKeys(maps, commands, n);
  }
}
