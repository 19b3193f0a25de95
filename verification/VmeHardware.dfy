/**
 The page-table formats of the processor in numerals (sections 4.3 and 4.5 of the Intel SDM, Volume 3A), and the
 proof that the `mmu` tables of both builds describe exactly the walks that the processor makes. The translations
 of the finished address spaces are then stated for these walks.
 */
module VmeHardware {
  import opened Bits
  import opened Common
  import opened PageTable
  import opened VmeInvariant
  import opened Vme
  import opened VmeKernel
  import opened VmeMachine

  // ---------------------------------------------------------------- the walks of the processor

  /** Word i of the table at this place, if it is a table and has so many words. */
  function EntryAt(mem: Memory, loc: Loc, i: nat): Option<nat>
  {
    if loc in mem && i < |mem[loc]| then Some(mem[loc][i]) else None
  }

  /** The two-level walk of 32-bit paging: 1024 entries a table, 4 MiB below each entry of the first one. */
  function Walk32(mem: Memory, pd: Loc, va: nat): Translation
  {
    match EntryAt(mem, pd, va / 0x40_0000 % 1024)
    case None => Wild
    case Some(pde) =>
      if pde % 2 == 0 then Fault else
      match EntryAt(mem, Page(pde / 0x1000 % 0x10_0000 * 0x1000), va / 0x1000 % 1024)
      case None => Wild
      case Some(pte) =>
        if pte % 2 == 0 then Fault
        else To(pte / 0x1000 % 0x10_0000 * 0x1000, pde / 4 % 2 == 1 && pte / 4 % 2 == 1, pde / 2 % 2 == 1 && pte / 2 % 2 == 1)
  }

  /** Bits 63 to 12 of an entry. */
  function Base64(w: nat): nat
  {
    w / 0x1000 % 0x10_0000_0000_0000 * 0x1000
  }

  /** The lower half of the four-level walk, from a page directory; bit 7 ends it with a 2 MiB page. */
  function Lower64(mem: Memory, pd: Loc, va: nat, user: bool, write: bool): Translation
  {
    match EntryAt(mem, pd, va / 0x20_0000 % 512)
    case None => Wild
    case Some(e2) =>
      var user2, write2 := user && e2 / 4 % 2 == 1, write && e2 / 2 % 2 == 1;
      if e2 % 2 == 0 then Fault
      else if e2 / 128 % 2 == 1 then To(Base64(e2), user2, write2)
      else
        match EntryAt(mem, Page(Base64(e2)), va / 0x1000 % 512)
        case None => Wild
        case Some(e1) =>
          if e1 % 2 == 0 then Fault
          else To(Base64(e1), user2 && e1 / 4 % 2 == 1, write2 && e1 / 2 % 2 == 1)
  }

  /** The four-level walk: 512 entries a table; bit 7 of a page directory pointer ends it with a 1 GiB page. */
  function Walk64(mem: Memory, pml4: Loc, va: nat): Translation
  {
    match EntryAt(mem, pml4, va / 0x80_0000_0000 % 512)
    case None => Wild
    case Some(e4) =>
      if e4 % 2 == 0 then Fault else
      match EntryAt(mem, Page(Base64(e4)), va / 0x4000_0000 % 512)
      case None => Wild
      case Some(e3) =>
        var user, write := e4 / 4 % 2 == 1 && e3 / 4 % 2 == 1, e4 / 2 % 2 == 1 && e3 / 2 % 2 == 1;
        if e3 % 2 == 0 then Fault
        else if e3 / 128 % 2 == 1 then To(Base64(e3), user, write)
        else Lower64(mem, Page(Base64(e3)), va, user, write)
  }

  // ---------------------------------------------------------------- the mmu tables describe them

  lemma Base32Value(w: nat)
    ensures BaseOf(w, 32) == w / 0x1000 % 0x10_0000 * 0x1000
  {
    Pow2Values();
    hide And, Pow2;
    AndMask(w, 12, 20);
  }

  lemma Base64Value(w: nat)
    ensures BaseOf(w, 64) == Base64(w)
  {
    Pow2Values();
    Pow2Add(32, 20);
    hide And, Pow2;
    AndMask(w, 12, 52);
  }

  /** The word that a step of the generic walk reads, in numerals. */
  lemma Indices(va: nat)
    ensures IndexOf(va, I386.levels[1]) == va / 0x40_0000 % 1024
    ensures IndexOf(va, I386.levels[2]) == va / 0x1000 % 1024
    ensures IndexOf(va, X64.levels[1]) == va / 0x80_0000_0000 % 512
    ensures IndexOf(va, X64.levels[2]) == va / 0x4000_0000 % 512
    ensures IndexOf(va, X64.levels[3]) == va / 0x20_0000 % 512
    ensures IndexOf(va, X64.levels[4]) == va / 0x1000 % 512
  {
    Pow2Values();
    MorePowers();
    hide Pow2, IndexOf;
    IndexOfValue(va, I386.levels[1]);
    IndexOfValue(va, I386.levels[2]);
    IndexOfValue(va, X64.levels[1]);
    IndexOfValue(va, X64.levels[2]);
    IndexOfValue(va, X64.levels[3]);
    IndexOfValue(va, X64.levels[4]);
  }

  /** Walking by the 32-bit `mmu` table is what the processor does, whatever is in memory. */
  lemma WalkIs32(mem: Memory, pd: Loc, va: nat)
    ensures HwFrom(I386, mem, pd, 1, va, true, true) == Walk32(mem, pd, va)
  {
    Indices(va);
    hide Pow2, And, IndexOf, BaseOf, Present, User, Writable, LargePage, HwFrom;
    var i1, i2 := IndexOf(va, I386.levels[1]), IndexOf(va, I386.levels[2]);
    if EntryAt(mem, pd, i1).Some? {
      var pde := mem[pd][i1];
      HwStep(I386, mem, pd, 1, va, true, true, pde);
      WordBits(pde);
      Base32Value(pde);
      var pt := Page(BaseOf(pde, 32));
      if EntryAt(mem, pt, i2).Some? {
        HwLast(I386, mem, pt, va, User(pde), Writable(pde), mem[pt][i2]);
        WordBits(mem[pt][i2]);
        Base32Value(mem[pt][i2]);
      } else {
        HwWild(I386, mem, pt, 2, va, User(pde), Writable(pde));
      }
    } else {
      HwWild(I386, mem, pd, 1, va, true, true);
    }
  }

  /** A walk that leaves the tables. */
  lemma HwWild(mmu: Mmu, mem: Memory, loc: Loc, level: nat, va: nat, user: bool, writable: bool)
    requires mmu.wordBits >= 12 && 1 <= level <= mmu.Depth()
    requires EntryAt(mem, loc, IndexOf(va, mmu.levels[level])).None?
    ensures HwFrom(mmu, mem, loc, level, va, user, writable) == Wild
  {
    hide Pow2, And, IndexOf, BaseOf, Present, User, Writable, LargePage;
  }

  lemma LowerIs64(mem: Memory, pd: Loc, va: nat, user: bool, write: bool)
    ensures HwFrom(X64, mem, pd, 3, va, user, write) == Lower64(mem, pd, va, user, write)
  {
    Indices(va);
    hide Pow2, And, IndexOf, BaseOf, Present, User, Writable, LargePage, HwFrom, Base64;
    var i2, i1 := IndexOf(va, X64.levels[3]), IndexOf(va, X64.levels[4]);
    if EntryAt(mem, pd, i2).Some? {
      var e2 := mem[pd][i2];
      HwStep(X64, mem, pd, 3, va, user, write, e2);
      WordBits(e2);
      Base64Value(e2);
      var pt := Page(BaseOf(e2, 64));
      var user2, write2 := user && User(e2), write && Writable(e2);
      if EntryAt(mem, pt, i1).Some? {
        HwLast(X64, mem, pt, va, user2, write2, mem[pt][i1]);
        WordBits(mem[pt][i1]);
        Base64Value(mem[pt][i1]);
      } else {
        HwWild(X64, mem, pt, 4, va, user2, write2);
      }
    } else {
      HwWild(X64, mem, pd, 3, va, user, write);
    }
  }

  /** Walking by the 64-bit `mmu` table is what the processor does, whatever is in memory. */
  lemma WalkIs64(mem: Memory, pml4: Loc, va: nat)
    ensures HwFrom(X64, mem, pml4, 1, va, true, true) == Walk64(mem, pml4, va)
  {
    Indices(va);
    hide Pow2, And, IndexOf, BaseOf, Present, User, Writable, LargePage, HwFrom, Base64;
    var i4, i3 := IndexOf(va, X64.levels[1]), IndexOf(va, X64.levels[2]);
    if EntryAt(mem, pml4, i4).Some? {
      var e4 := mem[pml4][i4];
      HwStep(X64, mem, pml4, 1, va, true, true, e4);
      WordBits(e4);
      Base64Value(e4);
      var pdpt := Page(BaseOf(e4, 64));
      if EntryAt(mem, pdpt, i3).Some? {
        var e3 := mem[pdpt][i3];
        HwStep(X64, mem, pdpt, 2, va, User(e4), Writable(e4), e3);
        WordBits(e3);
        Base64Value(e3);
        LowerIs64(mem, Page(BaseOf(e3, 64)), va, User(e4) && User(e3), Writable(e4) && Writable(e3));
      } else {
        HwWild(X64, mem, pdpt, 2, va, User(e4), Writable(e4));
      }
    } else {
      HwWild(X64, mem, pml4, 1, va, true, true);
    }
  }

  // ---------------------------------------------------------------- sizes and areas

  /** Every table of both builds is 4096 bytes long, and one root entry covers 4 MiB or 512 GiB. */
  lemma TableSizes()
    ensures I386.Slots(1) * 4 == 4096 && I386.Slots(2) * 4 == 4096 && I386.PageWords() * 4 == 4096
    ensures forall l :: 1 <= l <= 4 ==> X64.Slots(l) * 8 == 4096
    ensures X64.PageWords() * 8 == 4096
    ensures I386.Step() == 0x40_0000 && X64.Step() == 0x80_0000_0000
    ensures Pow2(I386.levels[1].shift + I386.levels[1].bits) == 0x1_0000_0000
    ensures Pow2(X64.levels[1].shift + X64.levels[1].bits) == 0x1_0000_0000_0000
  {
    Pow2Values();
    MorePowers();
    hide Pow2;
  }

  /** The areas of the 32-bit build: 1 GiB for the user, and the kernel below it and from 0xfd000000 to the top. */
  lemma Areas32(va: nat)
    ensures I386.InUser(va) <==> 0x4000_0000 <= va < 0x8000_0000
    ensures I386.InKernel(va) <==> va < 0x4000_0000 || 0xfd00_0000 <= va < 0x1_0000_0000
  {
    Pow2Values();
    hide Pow2;
    assert I386.InArea(I386.kernel[0], va) <==> va < 0x4000_0000;
    assert I386.InArea(I386.kernel[1], va) <==> 0xfd00_0000 <= va < 0x1_0000_0000;
  }

  /** The areas of the 64-bit build: 512 GiB for the user, and the lowest 512 GiB for the kernel. */
  lemma Areas64(va: nat)
    ensures X64.InUser(va) <==> 0x1000_0000_0000 <= va < 0x1080_0000_0000
    ensures X64.InKernel(va) <==> va < 0x80_0000_0000
  {
    BootArea(va);
    Pow2Values();
    hide Pow2;
    assert X64.Span(X64.user) == 0x80_0000_0000;
  }

  // ---------------------------------------------------------------- the finished address spaces

  /**
   What the processor makes of a 32-bit address in a space: its own page in the kernel areas, for the kernel only;
   the mapped frame where the page is mapped; a fault elsewhere.
   */
  ghost predicate Translates32(mem: Memory, maps: Maps, s: nat, va: nat)
  {
    && Cr3(s) in mem && |mem[Cr3(s)]| == 1 && s in maps
    && var page := va - va % 4096;
       var t := Walk32(mem, Page(mem[Cr3(s)][0] / 0x1000 % 0x10_0000 * 0x1000), va);
       if va < 0x4000_0000 || 0xfd00_0000 <= va then t == To(page, false, true)
       else if page in maps[s] then t == To(maps[s][page].pa, true, maps[s][page].writable)
       else t == Fault
  }

  /** The same for 48-bit addresses of the 64-bit build, whose kernel is mapped in pages of 1 GiB. */
  ghost predicate Translates64(mem: Memory, maps: Maps, s: nat, va: nat)
  {
    && Cr3(s) in mem && |mem[Cr3(s)]| == 1 && s in maps
    && var page := va - va % 4096;
       var t := Walk64(mem, Page(Base64(mem[Cr3(s)][0])), va);
       if va < 0x80_0000_0000 then t == To(va - va % 0x4000_0000, false, true)
       else if page in maps[s] then t == To(maps[s][page].pa, true, maps[s][page].writable)
       else t == Fault
  }

  /** In every valid state of the 32-bit build the processor translates every address of every space like this. */
  lemma Space32(mem: Memory, tables: Tables, free: set<nat>, kernel: map<Loc, nat>, kpt: Loc, maps: Maps, s: nat, va: nat)
    requires StateOk(I386, mem, tables, free, kernel, kpt, maps) && IdentityTranslation(I386, mem, kpt)
    requires s in maps && va < 0x1_0000_0000
    ensures Translates32(mem, maps, s, va)
  {
    TableSizes();
    hide HwFrom, StateOk, Pow2, Walk32, BaseOf, IdentityTranslation;
    TranslationIsMap(I386, mem, tables, free, kernel, kpt, maps, s, va);
    var cr3 := mem[Cr3(s)][0];
    Base32Value(cr3);
    WalkIs32(mem, Page(BaseOf(cr3, 32)), va);
    Areas32(va);
    Areas32(va - va % 4096);
    KernelIs(I386, mem, kpt, va);
  }

  lemma KernelIs(mmu: Mmu, mem: Memory, kpt: Loc, va: nat)
    requires mmu.ValidLevels() && IdentityTranslation(mmu, mem, kpt)
    requires va < Pow2(mmu.levels[1].shift + mmu.levels[1].bits)
    ensures HwFrom(mmu, mem, kpt, 1, va, true, true)
         == if mmu.InKernel(va - va % 4096) then To(va - va % 4096, false, true) else Fault
  {
    hide HwFrom, Pow2;
  }

  lemma Space64(mem: Memory, tables: Tables, free: set<nat>, kernel: map<Loc, nat>, kpt: Loc, maps: Maps, s: nat, va: nat)
    requires StateOk(X64, mem, tables, free, kernel, kpt, maps) && LargePages(mem, kpt)
    requires s in maps && va < 0x1_0000_0000_0000
    ensures Translates64(mem, maps, s, va)
  {
    TableSizes();
    hide HwFrom, StateOk, Pow2, Walk64, BaseOf, Base64, LargePages;
    TranslationIsMap(X64, mem, tables, free, kernel, kpt, maps, s, va);
    var cr3 := mem[Cr3(s)][0];
    Base64Value(cr3);
    WalkIs64(mem, Page(BaseOf(cr3, 64)), va);
    Areas64(va);
    LargeIs(mem, kpt, va);
  }

  lemma LargeIs(mem: Memory, kpt: Loc, va: nat)
    requires LargePages(mem, kpt) && va < 0x1_0000_0000_0000
    ensures HwFrom(X64, mem, kpt, 1, va, true, true)
         == if X64.InKernel(va) then To(va - va % 0x4000_0000, false, true) else Fault
  {
    hide HwFrom;
  }

  /** What one call of `map` means for a page map: the frame, writable exactly when bit 1 of prot is set. */
  lemma MapMeans(mmu: Mmu, maps: Maps, s: nat, va: nat, pa: nat, prot: nat, s': nat, page: nat)
    requires s in maps && s' in maps
    ensures var after := MapSpec(maps, s, va, pa, prot);
            && after.Keys == maps.Keys
            && (s' != s || page != va ==>
                  && (page in after[s'] <==> page in maps[s'])
                  && (page in maps[s'] ==> after[s'][page] == maps[s'][page]))
            && (va in after[s] <==> prot != 0)
            && (prot != 0 ==> after[s][va].pa == pa && (after[s][va].writable <==> prot / 2 % 2 == 1))
  {
    assert Pow2(1) == 2;
    AndMask(prot, 1, 1);
  }

  /** Which calls of `map` are legal in the two builds. */
  lemma LegalMaps(maps: Maps, s: nat, va: nat, pa: nat, prot: nat)
    requires s in maps
    ensures MapLegal(I386, maps, s, va, pa, prot)
       <==> 0x4000_0000 <= va < 0x8000_0000 && va % 0x1000 == 0 && pa % 0x1000 == 0 && (prot == 0 <==> va in maps[s])
    ensures MapLegal(X64, maps, s, va, pa, prot)
       <==> 0x1000_0000_0000 <= va < 0x1080_0000_0000 && va % 0x1000 == 0 && pa % 0x1000 == 0 && (prot == 0 <==> va in maps[s])
  {
    Areas32(va);
    Areas64(va);
  }

  // ---------------------------------------------------------------- the kernel's tables of the 32-bit build

  /** The root entries of the kernel areas: 1 GiB at the bottom and 48 MiB at the top. */
  ghost function KernelEntries32(): set<nat>
  {
    Range(0, 256) + Range(1012, 1024)
  }

  ghost function Range(lo: nat, hi: nat): (s: set<nat>)
    requires lo <= hi
    ensures forall i: nat :: i in s <==> lo <= i < hi
    ensures |s| == hi - lo
    decreases hi
  {
    if lo == hi then {} else Range(lo, hi - 1) + {hi - 1}
  }

  ghost function Pairs(s: set<nat>): set<seq<nat>>
  {
    set i | i in s :: [0, i]
  }

  lemma RootIndex(va: nat)
    ensures IndexOf(va, Level(0, 0, false)) == 0
  {
    IndexOfValue(va, Level(0, 0, false));
    assert Pow2(0) == 1;
  }

  lemma PathIs32(va: nat)
    requires va < 0x1_0000_0000
    ensures Path(I386, va)[..1] == [0] && Path(I386, va)[..2] == [0, va / 0x40_0000]
  {
    RootIndex(va);
    Indices(va);
    hide IndexOf, Pow2;
    var path := Path(I386, va);
    hide Path;
    assert path[0] == 0 && path[1] == va / 0x40_0000 by { Quotient1024(va); }
  }

  lemma Quotient1024(va: nat)
    requires va < 0x1_0000_0000
    ensures va / 0x40_0000 % 1024 == va / 0x40_0000 < 1024
  {
  }

  lemma EntryOf(va: nat)
    ensures va < 0x4000_0000 ==> va / 0x40_0000 < 256
    ensures 0xfd00_0000 <= va < 0x1_0000_0000 ==> 1012 <= va / 0x40_0000 < 1024
  {
  }

  lemma InEntries(j: nat)
    ensures j in KernelEntries32() <==> j < 256 || 1012 <= j < 1024
  {
    hide Range;
  }

  lemma KernelPathIn(va: nat, i: nat)
    requires va < 0x1_0000_0000 && 1 <= i <= 2 && I386.InKernel(va)
    ensures Path(I386, va)[..i] in {[0]} + Pairs(KernelEntries32())
  {
    hide Path, Pow2, KernelEntries32, Mmu.InKernel;
    PathIs32(va);
    Areas32(va);
    EntryOf(va);
    InEntries(va / 0x40_0000);
    assert [0, va / 0x40_0000] in Pairs(KernelEntries32());
  }

  lemma KernelPathOf(j: nat)
    requires j in KernelEntries32()
    ensures I386.ValidLevels() && [0] in KernelPaths(I386) && [0, j] in KernelPaths(I386)
  {
    hide Path, Pow2, Mmu.Valid, KernelEntries32, Mmu.InKernel;
    I386Valid();
    TableSizes();
    InEntries(j);
    var va := j * 0x40_0000;
    assert va % 4096 == 0 && va / 0x40_0000 == j && va < 0x1_0000_0000;
    PathIs32(va);
    Areas32(va);
    ValidHasLevels(I386);
    assert LowPage(I386, va);
    assert Path(I386, va)[..1] in KernelPaths(I386) && Path(I386, va)[..2] in KernelPaths(I386);
  }

  lemma ValidHasLevels(mmu: Mmu)
    requires mmu.Valid()
    ensures mmu.ValidLevels()
  {
  }

  lemma KernelPathsAre()
    ensures I386.ValidLevels()
    ensures KernelPaths(I386) == {[0]} + Pairs(KernelEntries32())
  {
    I386Valid();
    TableSizes();
    hide Pow2, Path, Mmu.Valid, KernelEntries32, LowPage;
    forall path | path in KernelPaths(I386) ensures path in {[0]} + Pairs(KernelEntries32()) {
      var va: nat, i: nat :| va < 0x1_0000_0000 && 1 <= i <= 2 && LowPage(I386, va) && I386.InKernel(va) && path == Path(I386, va)[..i];
      KernelPathIn(va, i);
    }
    hide KernelPaths;
    InEntries(0);
    KernelPathOf(0);
    forall j | j in KernelEntries32() ensures [0, j] in KernelPaths(I386) {
      KernelPathOf(j);
    }
    assert {[0]} + Pairs(KernelEntries32()) <= KernelPaths(I386);
  }

  lemma {:induction false} CountPairs(s: set<nat>)
    ensures |Pairs(s)| == |s|
    decreases |s|
  {
    if s == {} {
      assert Pairs(s) == {};
    } else {
      var u :| u in s;
      var rest, p := s - {u}, [0, u];
      CountPairs(rest);
      assert p[1] == u;
      assert forall i :: i in rest ==> [0, i][1] == i;
      assert Pairs(s) == Pairs(rest) + {p};
    }
  }

  /** `vme_init` of the 32-bit build takes 269 pages: a page directory and 256 + 12 page tables. */
  lemma KernelTables32()
    ensures I386.ValidLevels() && |KernelPaths(I386)| == 269
  {
    KernelPathsAre();
    hide KernelPaths, Range;
    assert Range(0, 256) !! Range(1012, 1024);
    CountPairs(KernelEntries32());
    assert [0] !in Pairs(KernelEntries32());
  }

  // ---------------------------------------------------------------- whole systems

  /** The commands pass words of this size to `map`. */
  predicate FitWord(commands: seq<Command>, limit: nat)
  {
    forall c :: c in commands && c.DoMap? ==> c.va < limit && c.pa < limit
  }

  /**
   The 32-bit build from power-on: `vme_init`, then any commands. It comes up exactly when there are 269 pages
   for the kernel's tables. Afterwards the processor translates every address of every space as the page maps say.
   */
  method System32(pages: set<nat>, space: nat, commands: seq<Command>) returns (up: bool, done: nat, m: Machine)
    requires forall p :: p in pages ==> p % 0x1000 == 0 && p < 0x1_0000_0000
    requires Usable({}, commands) && FitWord(commands, 0x1_0000_0000)
    ensures up <==> |pages| >= 269
    ensures up ==> done <= |commands| && m.maps == RunSpec(map[], commands[..done])
    ensures up ==> forall s, va: nat {:trigger Translates32(m.mem, m.maps, s, va)} ::
              s in m.maps && va < 0x1_0000_0000 ==> Translates32(m.mem, m.maps, s, va)
  {
    I386Valid();
    Pow2Values();
    hide Pow2, HwFrom, StateOk, Inv, MapsOk, IdentityTranslation, KernelPaths, Translates32, Mmu.Valid, Usable, History, KeepsOwned;
    m := new Machine(I386, pages);
    KernelAreas();
    KernelTables32();
    up := m.VmeInit(space);
    done := 0;
    if up {
      NoKeys(m.maps);
      label ready:
      ghost var mem0 := m.mem;
      ghost var steps;
      done, steps := m.Run(commands);
      m.KernelTranslation@ready();
      SameIdentity(I386, mem0, m.mem, m.kpt);
      forall s, va: nat | s in m.maps && va < 0x1_0000_0000 ensures Translates32(m.mem, m.maps, s, va) {
        Space32(m.mem, m.tables, m.free, m.kernel, m.kpt, m.maps, s, va);
      }
    }
  }

  lemma NoKeys(maps: Maps)
    requires maps == map[]
    ensures maps.Keys == {}
  {
  }

  lemma KernelAreas()
    ensures |I386.kernel| > 0 && I386.Span(I386.kernel[0]) > 0
  {
    Pow2Values();
    hide Pow2;
    assert I386.Span(I386.kernel[0]) == 0x4000_0000;
  }

  lemma SameIdentity(mmu: Mmu, mem0: Memory, mem: Memory, kpt: Loc)
    requires mmu.ValidLevels() && IdentityTranslation(mmu, mem0, kpt)
    requires forall va {:trigger HwFrom(mmu, mem, kpt, 1, va, true, true)} ::
               HwFrom(mmu, mem, kpt, 1, va, true, true) == HwFrom(mmu, mem0, kpt, 1, va, true, true)
    ensures IdentityTranslation(mmu, mem, kpt)
  {
    hide HwFrom, Pow2;
  }

  lemma SameLarge(mem0: Memory, mem: Memory, kpt: Loc)
    requires LargePages(mem0, kpt)
    requires forall va {:trigger HwFrom(X64, mem, kpt, 1, va, true, true)} ::
               HwFrom(X64, mem, kpt, 1, va, true, true) == HwFrom(X64, mem0, kpt, 1, va, true, true)
    ensures LargePages(mem, kpt)
  {
    hide HwFrom;
  }

  /** The 64-bit build on the tables of start64.S, for any commands. */
  method System64(pages: set<nat>, commands: seq<Command>) returns (done: nat, m: Machine)
    requires forall p :: p in pages ==> p % 0x1000 == 0 && p < 0x1_0000_0000_0000_0000 && p != 0x1000 && p != 0x2000
    requires Usable({}, commands) && FitWord(commands, 0x1_0000_0000_0000_0000)
    ensures done <= |commands| && m.maps == RunSpec(map[], commands[..done])
    ensures forall s, va: nat {:trigger Translates64(m.mem, m.maps, s, va)} ::
              s in m.maps && va < 0x1_0000_0000_0000 ==> Translates64(m.mem, m.maps, s, va)
  {
    X64Valid();
    Pow2Values();
    hide Pow2, HwFrom, StateOk, Inv, MapsOk, LargePages, Translates64, Mmu.Valid, Usable, History, KeepsOwned;
    m := new Machine(X64, pages);
    m.VmeInit64();
    NoKeys(m.maps);
    label ready:
    ghost var mem0 := m.mem;
    ghost var steps;
    done, steps := m.Run(commands);
    m.KernelTranslation@ready();
    SameLarge(mem0, m.mem, m.kpt);
    forall s, va: nat | s in m.maps && va < 0x1_0000_0000_0000 ensures Translates64(m.mem, m.maps, s, va) {
      Space64(m.mem, m.tables, m.free, m.kernel, m.kpt, m.maps, s, va);
    }
  }
}
