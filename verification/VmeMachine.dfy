/**
 abstract-machine/am/src/x86/qemu/vme.c as a state machine: the page-table words, the page allocator
 and, as ghost state, the tree of tables and the page map of every address space.

 A page handed to `pgfree` leaves the memory at once, so a later access to it would not be
 well-defined: the proofs below include the absence of use after free.
 */
module VmeMachine {
  import opened Bits
  import opened Common
  import opened PageTable
  import opened VmeInvariant
  import opened Vme
  import opened VmeTeardown
  import opened VmeKernel

  class Machine {
    const mmu: Mmu
    var mem: Memory
    var free: set<nat>
    var freed: seq<nat>
    var handed: set<nat>
    var kpt: Loc
    ghost var tables: Tables
    ghost var mode: Mode
    ghost var kernel: map<Loc, nat>
    ghost var maps: Maps

    constructor (config: Mmu, pages: set<nat>)
      requires config.Valid()
      ensures mmu == config && mem == map[] && free == pages && freed == [] && handed == {} && tables == map[] && maps == map[]
    {
      mmu, mem, free, freed, handed, kpt := config, map[], pages, [], {}, Page(0);
      tables, maps, kernel := map[], map[], map[];
      mode := UserMode(config, []);
    }

    /** Every address space translates as its page map says, and shares the kernel's tables. */
    ghost predicate Valid()
      reads this
    {
      && StateOk(mmu, mem, tables, free, kernel, kpt, maps)
      && mode == UserMode(mmu, mem[kpt])
      && (forall s :: Cr3(s) in mem ==> s in maps)
      && HandedOk(mmu, mem, free, handed)
    }

    /** All pages of the allocator: the free ones, those of the caller and those that hold tables. */
    ghost function Account(): set<nat>
      reads this
    {
      TablePages(mem) + free + handed
    }

    /** What no operation touches. */
    twostate predicate KernelUntouched()
      reads this
    {
      && kernel == old(kernel)
      && kpt == old(kpt)
      && SameKernel(kernel, old(mem), mem)
    }

    /** `pgalloc` called by the user of the interface, for a data page. */
    method PgAlloc() returns (ok: bool, p: nat)
      requires Valid()
      modifies this`free, this`handed
      ensures Valid() && KernelUntouched()
      ensures ok <==> old(free) != {}
      ensures ok ==> p in old(free) && free == old(free) - {p} && handed == old(handed) + {p}
      ensures !ok ==> free == old(free) && handed == old(handed)
      ensures Account() == old(Account())
    {
      if free == {} {
        return false, 0;
      }
      StateFacts(mmu, mem, tables, free, kernel, kpt, maps);
      InvFacts(mmu, mem, tables, mode, free);
      hide StateOk;
      p :| p in free;
      OtherFree(mmu, mem, tables, free, free - {p}, kernel, kpt, maps);
      free := free - {p};
      handed := handed + {p};
      ok := true;
    }

    /** `pgfree` called by the user of the interface, for a data page. */
    method PgRelease(p: nat)
      requires Valid() && p in handed
      modifies this`free, this`handed
      ensures Valid() && KernelUntouched()
      ensures free == old(free) + {p} && handed == old(handed) - {p}
      ensures Account() == old(Account())
    {
      StateFacts(mmu, mem, tables, free, kernel, kpt, maps);
      InvFacts(mmu, mem, tables, mode, free);
      hide StateOk;
      OtherFree(mmu, mem, tables, free, free + {p}, kernel, kpt, maps);
      free := free + {p};
      handed := handed - {p};
    }

    /** `pgallocz`: any unused page, zeroed word by word; fails when the allocator has none. */
    method PgAllocZ() returns (ok: bool, p: nat)
      requires mmu.wordBits >= 8 && forall q :: q in free ==> Page(q) !in mem
      modifies this`mem, this`free
      ensures ok <==> old(free) != {}
      ensures ok ==> p in old(free) && free == old(free) - {p} && mem == old(mem)[Page(p) := Repeat<nat>(0, mmu.PageWords())]
      ensures !ok ==> free == old(free) && mem == old(mem)
    {
      if free == {} {
        return false, 0;
      }
      p :| p in free;
      free := free - {p};
      var base: seq<nat> := [];
      for i := 0 to mmu.PageWords()
        invariant base == Repeat<nat>(0, i)
      {
        base := base + [0];
      }
      mem := mem[Page(p) := base];
      ok := true;
    }

    /** The allocating branch of `ptwalk`: `pt[index] = next_page | PTE_P | flags`. */
    method AddTable(loc: Loc, level: nat, index: nat, flags: nat, ghost t: Table) returns (ok: bool, p: nat)
      requires Inv(mmu, mem, tables, mode, free)
      requires t in tables && TableOk(mmu, mem, tables, t) && loc == tables[t]
      requires |t.path| == level < mmu.Depth() && index < |mem[loc]| && Child(t, index) !in tables
      requires !(|t.path| == 1 && index in mode.shared)
      requires t.path == [] ==> mode.rootFlags == mode.flags && mode.shared == {}
      requires flags < 8 && Or(1, flags) == mode.flags
      modifies this`mem, this`free, this`tables
      ensures ok <==> old(free) != {}
      ensures ok ==> && p in old(free) && |free| == |old(free)| - 1
                     && tables == old(tables)[Child(t, index) := Page(p)]
      ensures !ok ==> mem == old(mem) && tables == old(tables) && free == old(free)
      ensures Inv(mmu, mem, tables, mode, free)
      ensures Extends(mmu, old(mem), old(tables), mem, tables, t.space)
      ensures TakenFrom(old(mem), old(free), mem, free)
    {
      hide And, Or, Pow2, IndexOf, BaseOf, Present, User, Writable, LargePage, Leaf, TakenFrom, Extends;
      ghost var mem0, tables0, free0 := mem, tables, free;
      FullPage(mmu, level + 1);
      ok, p := PgAllocZ();
      if ok {
        EntryWord(p, flags);
        var row: seq<nat> := mem[loc][index := Or(Or(p, PTE_P), flags)];
        mem := mem[loc := row];
        tables := tables[Child(t, index) := Page(p)];
        assert mem == GrowMem(mmu, mem0, tables0, mode, t, index, p);
        TakenOne(mem0, free0, p, Repeat<nat>(0, mmu.Slots(level + 1)), loc, row);
        GrowInv(mmu, mem0, tables0, mode, free0, t, index, p);
        GrowExtends(mmu, mem0, tables0, mode, free0, t, index, p);
      } else {
        ExtendsSelf(mmu, mem, tables, t.space);
        TakenNone(mem, free);
      }
    }

    /**
     `ptwalk`: the location of the leaf entry of va, creating the missing tables on the way. It maps
     no page anew, and once the tables are there it changes nothing.
     */
    method PtWalk(space: nat, va: nat, flags: nat) returns (ok: bool, loc: Loc, index: nat)
      requires Inv(mmu, mem, tables, mode, free)
      requires Table(space, []) in tables
      requires flags < 8 && Or(1, flags) == mode.flags
      requires Path(mmu, va)[1] !in mode.shared
      modifies this`mem, this`free, this`tables
      ensures Inv(mmu, mem, tables, mode, free)
      ensures Extends(mmu, old(mem), old(tables), mem, tables, space)
      ensures ok ==> && Table(space, Path(mmu, va)[..mmu.Depth()]) in tables
                     && loc == tables[Table(space, Path(mmu, va)[..mmu.Depth()])]
                     && index == Path(mmu, va)[mmu.Depth()]
      ensures Table(space, Path(mmu, va)[..mmu.Depth()]) in old(tables) ==>
                ok && mem == old(mem) && tables == old(tables) && free == old(free)
      ensures ok <==> Missing(mmu, old(tables), space, va) <= |old(free)|
      ensures ok ==> |free| == |old(free)| - Missing(mmu, old(tables), space, va)
      ensures !ok ==> free == {} && Table(space, Path(mmu, va)[..mmu.Depth()]) !in tables
      ensures TakenFrom(old(mem), old(free), mem, free)
      ensures Grown(mmu, old(tables), old(free), tables, free, space, va)
    {
      hide And, Or, Pow2, IndexOf, Inv, Walked, Stepped, Missing;
      loc, index := Cr3(space), 0;
      ghost var path := Path(mmu, va);
      assert path[..0] == [];
      RootCell(mmu, mem, tables, mode, free, space);
      WalkedStart(mmu, mem, tables, free, space, va);
      ok := true;
      var i: nat := 0;
      while i < mmu.Depth()
        invariant 0 <= i <= mmu.Depth() && ok
        invariant Inv(mmu, mem, tables, mode, free)
        invariant Walked(mmu, old(mem), old(tables), old(free), mem, tables, free, space, va, i)
        invariant Table(space, path[..i]) in tables && loc == tables[Table(space, path[..i])]
      {
        ghost var mem0, tables0, free0 := mem, tables, free;
        var next;
        ok, next := NextTable(space, va, i, loc, flags);
        WalkedNext(mmu, old(mem), old(tables), old(free), mem0, tables0, free0, mem, tables, free, space, va, i, ok, next);
        if !ok {
          WalkedFacts(mmu, old(mem), old(tables), old(free), mem, tables, free, space, va, i);
          return;
        }
        loc := next;
        i := i + 1;
      }
      WalkedFacts(mmu, old(mem), old(tables), old(free), mem, tables, free, space, va, i);
      WalkedEnd(mmu, old(mem), old(tables), old(free), mem, tables, free, space, va);
      index := IndexOf(va, mmu.levels[mmu.Depth()]);
    }

    /** One turn of the loop of `ptwalk`. */
    method NextTable(space: nat, va: nat, i: nat, loc: Loc, flags: nat) returns (ok: bool, next: Loc)
      requires Inv(mmu, mem, tables, mode, free) && mmu.ValidLevels() && i < mmu.Depth()
      requires Table(space, Path(mmu, va)[..i]) in tables && loc == tables[Table(space, Path(mmu, va)[..i])]
      requires flags < 8 && Or(1, flags) == mode.flags
      requires Path(mmu, va)[1] !in mode.shared
      modifies this`mem, this`free, this`tables
      ensures Inv(mmu, mem, tables, mode, free)
      ensures Stepped(mmu, old(mem), old(tables), old(free), mem, tables, free, space, va, i, ok, next)
      ensures ok ==> Table(space, Path(mmu, va)[..i + 1]) in tables && next == tables[Table(space, Path(mmu, va)[..i + 1])]
    {
      hide And, Or, Pow2, IndexOf, BaseOf, Present, User, Writable, LargePage, Leaf, Inv, Extends, TakenFrom;
      var index := IndexOf(va, mmu.levels[i]);
      StepFacts(mmu, mem, tables, mode, free, space, va, i);
      if !Present(mem[loc][index]) {
        var p;
        ok, p := AddTable(loc, i, index, flags, Table(space, Path(mmu, va)[..i]));
        next := Page(p);
      } else {
        ExtendsSelf(mmu, mem, tables, space);
        TakenNone(mem, free);
        ok, next := true, Page(BaseOf(mem[loc][index], mmu.wordBits));
      }
    }

    /**
     `map`: installs or removes one leaf. It panics on an address outside the user area, an unaligned
     address, an unmap of an unmapped page, a remap of a mapped page, or when there are fewer free pages than
     tables missing on the way, and in no other case.
     */
    method Map(space: nat, va: nat, pa: nat, prot: nat) returns (ok: bool)
      requires Valid() && space in maps
      requires va < Pow2(mmu.wordBits) && pa < Pow2(mmu.wordBits)
      modifies this`mem, this`free, this`tables, this`maps
      ensures Valid() && KernelUntouched()
      ensures ok <==> MapLegal(mmu, old(maps), space, va, pa, prot) && Missing(mmu, old(tables), space, va) <= |old(free)|
      ensures maps == if ok then MapSpec(old(maps), space, va, pa, prot) else old(maps)
      ensures ok ==> |free| == |old(free)| - Missing(mmu, old(tables), space, va)
      ensures Account() == old(Account())
      ensures ok && prot == 0 ==> free == old(free) && tables == old(tables)
      ensures old(Owned(maps, handed)) && (prot == 0 || pa in handed) ==> Owned(maps, handed)
    {
      hide And, Or, Pow2, IndexOf, BaseOf, Present, User, Writable, LargePage, Leaf, KernelOk, Inv, MapsOk, TableOk, Extends, WriteMem, Owned, TakenFrom, HandedOk, Path, TablePages, Grown, MapSpec, FillsPage;
      StateFacts(mmu, mem, tables, free, kernel, kpt, maps);
      UserAreaIsRange(mmu, va);
      BaseOfValue(va, mmu.wordBits);
      BaseOfValue(pa, mmu.wordBits);
      if !(mmu.user.start <= va < mmu.user.end) {
        return false;
      }
      if va != BaseOf(va, mmu.wordBits) || pa != BaseOf(pa, mmu.wordBits) {
        return false;
      }
      hide StateOk, Missing;
      var loc, index;
      ok, loc, index := UserWalk(space, va);
      if ok {
        ok := SetLeaf(space, va, pa, prot, loc, index);
      }
    }

    /** The walk of `map`: as far as pages allow, the missing tables are there afterwards; no page is remapped. */
    method UserWalk(space: nat, va: nat) returns (ok: bool, loc: Loc, index: nat)
      requires Valid() && space in maps && UserPage(mmu, va)
      modifies this`mem, this`free, this`tables
      ensures Valid() && KernelUntouched() && Account() == old(Account())
      ensures ok <==> Missing(mmu, old(tables), space, va) <= |old(free)|
      ensures ok ==> |free| == |old(free)| - Missing(mmu, old(tables), space, va)
      ensures ok ==> && Table(space, Path(mmu, va)[..mmu.Depth()]) in tables
                     && loc == tables[Table(space, Path(mmu, va)[..mmu.Depth()])]
                     && index == Path(mmu, va)[mmu.Depth()]
      ensures va in maps[space] ==> free == old(free) && tables == old(tables)
    {
      hide And, Or, Pow2, IndexOf, BaseOf, Present, User, Writable, LargePage, Leaf, KernelOk, Inv, MapsOk, TableOk, Extends, WriteMem, TakenFrom, HandedOk, Path, TablePages, Grown, Missing;
      StateFacts(mmu, mem, tables, free, kernel, kpt, maps);
      UserNotShared(mmu, va);
      UserFlags();
      if va in maps[space] {
        MappedHasTables(mmu, mem, tables, mode, free, maps, space, va);
      }
      ok, loc, index := PtWalk(space, va, Or(PTE_W, PTE_U));
      ExtendsState(mmu, old(mem), old(tables), old(free), mem, tables, free, kernel, kpt, maps, space);
      ExtendsCells(mmu, old(mem), old(tables), mem, tables, space);
      HandedKept(mmu, old(mem), old(free), mem, free, handed);
    }

    /** The second half of `map`: checks the leaf entry, writes it and walks once more. */
    method SetLeaf(space: nat, va: nat, pa: nat, prot: nat, loc: Loc, index: nat) returns (ok: bool)
      requires Valid() && space in maps && UserPage(mmu, va) && PageAddr(pa, mmu.wordBits)
      requires Table(space, Path(mmu, va)[..mmu.Depth()]) in tables
      requires loc == tables[Table(space, Path(mmu, va)[..mmu.Depth()])] && index == Path(mmu, va)[mmu.Depth()]
      modifies this`mem, this`free, this`tables, this`maps
      ensures Valid() && KernelUntouched() && free == old(free) && tables == old(tables)
      ensures TablePages(mem) == TablePages(old(mem))
      ensures ok <==> MapLegal(mmu, old(maps), space, va, pa, prot)
      ensures maps == if ok then MapSpec(old(maps), space, va, pa, prot) else old(maps)
      ensures old(Owned(maps, handed)) && (prot == 0 || pa in handed) ==> Owned(maps, handed)
    {
      hide And, Or, Pow2, IndexOf, BaseOf, Present, User, Writable, LargePage, Leaf, KernelOk, Inv, MapsOk, TableOk, Extends, WriteMem, Owned, TakenFrom, HandedOk, Path, TablePages, Grown;
      StateFacts(mmu, mem, tables, free, kernel, kpt, maps);
      UserNotShared(mmu, va);
      UserFlags();
      ghost var t := Table(space, Path(mmu, va)[..mmu.Depth()]);
      LeafAt(mmu, mem, tables, mode, free, maps, space, va);
      if (prot == 0) != Present(mem[loc][index]) {
        return false;
      }
      var pte := if prot == 0 then 0 else Or(Or(Or(pa, PTE_P), PTE_U), if And(prot, 2) != 0 then PTE_W else 0);
      LeafWord(pa, And(prot, 2) != 0);
      WriteState(mmu, mem, tables, free, kernel, kpt, maps, space, va, pa, prot, t, index);
      ghost var mem1 := mem;
      WriteEntry(loc, index, pte);
      SameKeys(mmu, mem1, mem, free, handed);
      if Owned(maps, handed) && (prot == 0 || pa in handed) {
        OwnedAfterMap(maps, handed, space, va, pa, prot);
      }
      maps := MapSpec(maps, space, va, pa, prot);
      var _, _, _ := PtWalk(space, va, Or(PTE_W, PTE_U));
      ok := true;
    }

    method WriteEntry(loc: Loc, index: nat, w: nat)
      requires loc in mem && index < |mem[loc]|
      modifies this`mem
      ensures mem == WriteMem(old(mem), loc, index, w) && mem.Keys == old(mem.Keys)
    {
      var row: seq<nat> := mem[loc][index := w];
      mem := mem[loc := row];
    }

    /** The copying loops of `protect`, one kernel area after the other. */
    method CopyKernelEntries(p: nat)
      requires mmu.Valid() && kpt in mem && Page(p) in mem && kpt != Page(p)
      requires |mem[kpt]| == mmu.Slots(1) && mem[Page(p)] == Repeat<nat>(0, mmu.Slots(1))
      modifies this`mem
      ensures Page(p) in mem && RootRow(mmu, old(mem)[kpt], mem[Page(p)])
      ensures mem == old(mem)[Page(p) := mem[Page(p)]]
    {
      hide And, Or, Pow2, IndexOf;
      var k: nat := 0;
      while k < |mmu.kernel|
        invariant 0 <= k <= |mmu.kernel|
        invariant Page(p) in mem && mem == old(mem)[Page(p) := mem[Page(p)]]
        invariant RowUpTo(mmu, k, AreaStart(mmu, k), old(mem)[kpt], mem[Page(p)])
      {
        CopyArea(p, k);
        RowArea(mmu, k, old(mem)[kpt], mem[Page(p)]);
        k := k + 1;
      }
      RowDone(mmu, old(mem)[kpt], mem[Page(p)]);
    }

    method CopyArea(p: nat, k: nat)
      requires mmu.Valid() && k < |mmu.kernel| && kpt in mem && Page(p) in mem && kpt != Page(p)
      requires RowUpTo(mmu, k, mmu.kernel[k].start, mem[kpt], mem[Page(p)])
      modifies this`mem
      ensures Page(p) in mem && mem == old(mem)[Page(p) := mem[Page(p)]]
      ensures RowUpTo(mmu, k, mmu.kernel[k].start + mmu.Span(mmu.kernel[k]), old(mem)[kpt], mem[Page(p)])
    {
      hide And, Or, Pow2, IndexOf;
      var a, step := mmu.kernel[k], mmu.Step();
      assert mmu.WholeEntries(a);
      var cur := a.start;
      ghost var n: nat := 0;
      DivUnique(a.start, Pow2(mmu.wordBits), 0, a.start);
      while cur != a.end
        invariant n * step <= mmu.Span(a)
        invariant cur == (a.start + n * step) % Pow2(mmu.wordBits)
        invariant Page(p) in mem && mem == old(mem)[Page(p) := mem[Page(p)]]
        invariant RowUpTo(mmu, k, a.start + n * step, old(mem)[kpt], mem[Page(p)])
        decreases mmu.Span(a) - n * step
      {
        AreaStep(mmu, a, step, n, cur);
        MultipleStep(a.start, n, step);
        RowStep(mmu, k, cur, mem[kpt], mem[Page(p)]);
        var index := IndexOf(cur, mmu.levels[1]);
        WriteEntry(Page(p), index, mem[kpt][index]);
        cur := (cur + step) % Pow2(mmu.wordBits);
        n := n + 1;
      }
      AreaStep(mmu, a, step, n, cur);
    }

    /** `protect`: a new address space that maps no user page and sees the kernel. */
    method Protect(space: nat) returns (ok: bool)
      requires Valid() && space !in maps
      modifies this`mem, this`free, this`tables, this`maps
      ensures Valid() && KernelUntouched()
      ensures ok <==> old(free) != {}
      ensures maps == if ok then old(maps)[space := map[]] else old(maps)
      ensures |free| == if ok then |old(free)| - 1 else 0
      ensures Account() == old(Account())
    {
      hide And, Or, Pow2, StateOk, HandedOk, ProtectTables, TablePages, RootRow, UserMode, Mmu.Valid, PageAddr;
      BeforeProtect(mmu, mem, tables, free, kernel, kpt, maps);
      var p;
      ghost var row;
      ok, p, row := NewRoot();
      if ok {
        EnterSpace(space, p, old(mem), old(free), row);
      }
    }

    /** The end of `protect`: `as->ptr = upt | PTE_P | PTE_U`. */
    method EnterSpace(space: nat, p: nat, ghost mem0: Memory, ghost free0: set<nat>, ghost row: seq<nat>)
      requires StateOk(mmu, mem0, tables, free0, kernel, kpt, maps) && HandedOk(mmu, mem0, free0, handed)
      requires kpt in mem0 && mode == UserMode(mmu, mem0[kpt]) && forall s :: Cr3(s) in mem0 ==> s in maps
      requires space !in maps && p in free0 && PageAddr(p, mmu.wordBits) && free == free0 - {p}
      requires mem == mem0[Page(p) := row] && RootRow(mmu, mem0[kpt], row)
      modifies this`mem, this`tables, this`maps
      ensures Valid() && maps == old(maps)[space := map[]]
      ensures kpt in mem && SameKernel(kernel, mem0, mem)
      ensures Account() == TablePages(mem0) + free0 + handed
    {
      hide And, Or, Pow2, StateOk, HandedOk, ProtectTables, TablePages, RootRow, UserMode;
      mem := mem[Cr3(space) := [Or(Or(p, PTE_P), PTE_U)]];
      Protected(mmu, mem0, tables, free0, kernel, kpt, maps, handed, space, p, row, mem);
      tables := ProtectTables(tables, space, p);
      maps := maps[space := map[]];
    }

    /** A page with the kernel's entries of the kernel areas. */
    method NewRoot() returns (ok: bool, p: nat, ghost row: seq<nat>)
      requires mmu.Valid() && kpt in mem && |mem[kpt]| == mmu.Slots(1)
      requires forall q :: q in free ==> Page(q) !in mem
      modifies this`mem, this`free
      ensures ok <==> old(free) != {}
      ensures !ok ==> mem == old(mem) && free == old(free)
      ensures ok ==> && p in old(free) && free == old(free) - {p} && |free| == |old(free)| - 1
                     && mem == old(mem)[Page(p) := row] && RootRow(mmu, old(mem)[kpt], row)
    {
      hide RootRow, Pow2;
      row := [];
      FullPage(mmu, 1);
      ok, p := PgAllocZ();
      if ok {
        CopyKernelEntries(p);
        row := mem[Page(p)];
      }
    }

    method PgFree(p: nat)
      requires Page(p) in mem
      modifies this`mem, this`free, this`freed
      ensures mem == old(mem) - {Page(p)} && free == old(free) + {p} && freed == old(freed) + [p]
    {
      mem := mem - {Page(p)};
      free := free + {p};
      freed := freed + [p];
    }

    /**
     `teardown`: frees the tables below t, children first. `tables0` and `mem0` are the tables and the
     memory when `unprotect` was called. Past the last level it returns without reading anything, so
     mapped pages are neither read nor freed.
     */
    method Teardown(level: nat, pt: Loc, ghost t: Table, ghost tables0: Tables, ghost mem0: Memory, ghost free0: set<nat>)
      requires mmu.ValidLevels() && level <= mmu.Depth() + 1
      requires level <= mmu.Depth() ==>
                 && Inv(mmu, mem0, tables0, mode, free0) && mode.flags == 7 && mode.rootFlags == 5
                 && t in tables0 && |t.path| == level && pt == tables0[t]
                 && Intact(tables0, mem0, mem, t)
      modifies this`mem, this`free, this`freed
      ensures level > mmu.Depth() ==> mem == old(mem) && free == old(free) && freed == old(freed)
      ensures level <= mmu.Depth() ==>
                Torn(tables0, PostOrder(mmu, tables0, t), old(mem), mem, old(free), free, old(freed), freed)
      decreases mmu.Depth() + 1 - level
    {
      hide And, Pow2, IndexOf, BaseOf, Present, User, Writable, LargePage, Torn, Inv, PostOrder, ChildrenOrder, Locs, Pages, Bases;
      if level > mmu.Depth() {
        return;
      }
      TornNothing(tables0, mem, free, freed);
      ChildrenNone(mmu, tables0, t);
      var index: nat := 0;
      while index < mmu.Slots(level)
        invariant index <= mmu.Slots(level)
        invariant Torn(tables0, ChildrenOrder(mmu, tables0, t, index), old(mem), mem, old(free), free, old(freed), freed)
      {
        ghost var mem1, free1, freed1 := mem, free, freed;
        TornMem(tables0, ChildrenOrder(mmu, tables0, t, index), old(mem), mem, old(free), free, old(freed), freed);
        IntactChild(mmu, mem0, tables0, mode, free0, old(mem), mem, t, index);
        TableWords(mmu, mem0, tables0, mode, free0, t, index);
        var w := mem[pt][index];
        if Present(w) && User(w) {
          Teardown(level + 1, Page(BaseOf(w, mmu.wordBits)), Child(t, index), tables0, mem0, free0);
        }
        ChildrenNext(mmu, tables0, t, index);
        if level < mmu.Depth() && Child(t, index) in tables0 {
          TornConcat(tables0, ChildrenOrder(mmu, tables0, t, index), PostOrder(mmu, tables0, Child(t, index)),
                     old(mem), mem1, mem, old(free), free1, free, old(freed), freed1, freed);
        }
        index := index + 1;
      }
      TornMem(tables0, ChildrenOrder(mmu, tables0, t, index), old(mem), mem, old(free), free, old(freed), freed);
      IntactChild(mmu, mem0, tables0, mode, free0, old(mem), mem, t, index);
      OrderNext(mmu, tables0, t);
      if level >= 1 {
        TableIsPage(mmu, mem0, tables0, mode, free0, t);
        TornOne(tables0, t, mem, free, freed);
        TornConcat(tables0, ChildrenOrder(mmu, tables0, t, index), [t], old(mem), mem, mem - {pt},
                   old(free), free, free + {pt.base}, old(freed), freed, freed + [pt.base]);
        PgFree(pt.base);
      }
    }

    /**
     `unprotect`: hands exactly the page-table pages of the space to `pgfree`, each once. None of them is a
     kernel table or a page of the caller, so no frame that the caller owns and has mapped is freed. The other
     spaces keep their page maps.
     */
    method Unprotect(space: nat)
      requires Valid() && space in maps
      modifies this`mem, this`free, this`freed, this`tables, this`maps
      ensures Valid() && KernelUntouched()
      ensures maps == old(maps) - {space}
      ensures |old(freed)| <= |freed| && freed[..|old(freed)|] == old(freed)
      ensures NoDup(freed[|old(freed)|..])
      ensures forall p :: p in freed[|old(freed)|..] <==> TablePage(old(tables), space, p)
      ensures forall p :: p in freed[|old(freed)|..] ==> Page(p) !in kernel && p !in handed
      ensures forall p :: p in free <==> p in old(free) || p in freed[|old(freed)|..]
      ensures Account() == old(Account())
      ensures old(Owned(maps, handed)) ==>
                && Owned(maps, handed)
                && forall s, va {:trigger old(maps)[s][va]} ::
                     s in old(maps) && va in old(maps)[s] ==> old(maps)[s][va].pa !in freed[|old(freed)|..]
    {
      hide And, Or, Pow2, IndexOf, BaseOf, Present, User, Writable, LargePage, Leaf, KernelOk, Inv, MapsOk, TableOk, SharedIndices, PostOrder, Locs, Pages, Bases, DropTables, TablePage, HandedOk, TablePages;
      StateFacts(mmu, mem, tables, free, kernel, kpt, maps);
      ghost var t := Table(space, []);
      StartTeardown(mmu, mem, tables, mode, free, space);
      ghost var order := PostOrder(mmu, tables, t);
      FreedAreOwn(mmu, mem, tables, free, kernel, kpt, maps, space, order, handed);
      Teardown(0, Cr3(space), t, tables, mem, free);
      DropState(mmu, old(mem), old(tables), old(free), kernel, kpt, maps, space, order);
      mem := mem - {Cr3(space)};
      tables := DropTables(tables, space);
      maps := maps - {space};
      assert freed[|old(freed)|..] == Bases(old(tables), order);
    }

    /**
     The part of `vme_init` that builds the kernel's tables: every page of every kernel area is mapped
     to itself, writable and not for the user; all other addresses fault. `s` names the local variable `as`.
     It fails exactly when there are fewer free pages than tables on the way to the kernel areas.
     */
    method VmeInit(s: nat) returns (ok: bool)
      requires mmu.Valid() && |mmu.kernel| > 0 && mmu.Span(mmu.kernel[0]) > 0
      requires mem == map[] && tables == map[] && maps == map[] && handed == {}
      requires forall p :: p in free ==> PageAddr(p, mmu.wordBits)
      modifies this
      ensures ok ==> Valid() && maps == map[] && handed == {}
      ensures ok <==> |KernelPaths(mmu)| <= |old(free)|
      ensures ok ==> |free| == |old(free)| - |KernelPaths(mmu)|
      ensures Account() == old(Account())
      ensures ok ==> IdentityTranslation(mmu, mem, kpt)
    {
      hide Pow2, Inv, StateOk, IdentityUpTo, IdentityTranslation, TakenFrom, TablePages, KernelPaths, OneSpace, Mmu.Valid;
      ok := BuildKernel(s);
      TakenAccount(old(mem), old(free), mem, free);
      if ok {
        UseKernel(s);
      }
    }

    /** The loops of `vme_init`. */
    method BuildKernel(s: nat) returns (ok: bool)
      requires mmu.Valid()
      requires mem == map[] && tables == map[] && maps == map[] && handed == {}
      requires forall p :: p in free ==> PageAddr(p, mmu.wordBits)
      modifies this`mem, this`free, this`tables, this`mode
      ensures mode == KernelMode(mmu) && Inv(mmu, mem, tables, mode, free) && OneSpace(mem, tables, s)
      ensures ok ==> IdentityUpTo(mmu, mem, tables, s, |mmu.kernel|, 0)
      ensures ok <==> |KernelPaths(mmu)| <= |old(free)|
      ensures ok ==> |free| == |old(free)| - |KernelPaths(mmu)|
      ensures TakenFrom(old(mem), old(free), mem, free)
    {
      hide And, Or, Pow2, IndexOf, BaseOf, Present, User, Writable, LargePage, Leaf, Inv, IdentityUpTo, TakenFrom, BuiltFrom, TablePages, KernelPaths, OneSpace, KernelMode;
      NullSpace(mmu, free, s);
      BuiltStart(mmu, s, free);
      assert mmu.ValidLevels();
      hide Mmu.Valid;
      mem := map[Cr3(s) := [0]];
      tables := map[Table(s, []) := Cr3(s)];
      mode := KernelMode(mmu);
      StartPages(old(mem), mem, s, free);
      var k: nat := 0;
      while k < |mmu.kernel|
        invariant 0 <= k <= |mmu.kernel|
        invariant mode == KernelMode(mmu) && Inv(mmu, mem, tables, mode, free) && OneSpace(mem, tables, s)
        invariant IdentityUpTo(mmu, mem, tables, s, k, AreaStart(mmu, k))
        invariant TakenFrom(old(mem), old(free), mem, free) && BuiltFrom(mmu, tables, free, |old(free)|)
      {
        KernelArea(mmu, k);
        ghost var mem0, free0 := mem, free;
        ok := MapArea(s, k, |old(free)|);
        TakenTrans(old(mem), old(free), mem0, free0, mem, free);
        if !ok {
          return;
        }
        IdentityArea(mmu, mem, tables, s, k);
        k := k + 1;
      }
      EnoughPages(mmu, mem, tables, s, free, |old(free)|);
      ok := true;
    }

    /**
     The 64-bit branch of `vme_init` on the tables that start64.S has built: a PML4 with one entry and a PDPT
     of 512 pages of 1 GiB.
     */
    method VmeInit64()
      requires mmu == X64 && mem == map[] && tables == map[] && maps == map[] && handed == {}
      requires forall p :: p in free ==> PageAddr(p, mmu.wordBits) && p != 0x1000 && p != 0x2000
      modifies this
      ensures Valid() && maps == map[] && handed == {} && free == old(free)
      ensures Account() == old(Account()) + {0x1000, 0x2000}
      ensures LargePages(mem, kpt)
    {
      hide And, Or, Pow2, HwFrom, StateOk;
      mem := Start64();
      assert |mem[Page(0x1000)]| == 512;
      hide BootMemory;
      kpt := Page(0x1000);
      kernel := map[Page(0x1000) := 1, Page(0x2000) := 2];
      X64Valid();
      mode := UserMode(mmu, mem[kpt]);
      BootTables(free);
      BootTranslations();
    }

    /** The tables that start64.S leaves in memory; the rest of the page of the PML4 is zero. */
    method Start64() returns (boot: Memory)
      ensures boot == BootMemory()
    {
      hide Or;
      var pml4: seq<nat> := Repeat<nat>(0, 512)[0 := Or(0x2000, Or(PTE_P, PTE_W))];
      var pdpt := BootPdpt();
      BootRoot();
      boot := map[Page(0x1000) := pml4, Page(0x2000) := pdpt];
      assert pml4 == BootMemory()[Page(0x1000)] && pdpt == BootMemory()[Page(0x2000)];
    }

    /** The loop of start64.S that fills the PDPT, one low and one high word at a time. */
    method BootPdpt() returns (pdpt: seq<nat>)
      ensures |pdpt| == 512 && forall i :: 0 <= i < 512 ==> pdpt[i] == i * 0x4000_0000 + 0x83
    {
      hide Or;
      pdpt := [];
      for i := 0 to 512
        invariant |pdpt| == i && forall j :: 0 <= j < i ==> pdpt[j] == j * 0x4000_0000 + 0x83
      {
        BootEntry(i);
        pdpt := pdpt + [Or(i * 0x4000_0000 % 0x1_0000_0000, 0x83) + i / 4 * 0x1_0000_0000];
      }
    }

    /** `kpt = baseof(as.ptr)`: from here on the tables just built are the kernel's. */
    method UseKernel(s: nat)
      requires mmu.Valid() && |mmu.kernel| > 0 && mmu.Span(mmu.kernel[0]) > 0 && maps == map[] && handed == {}
      requires Inv(mmu, mem, tables, KernelMode(mmu), free) && OneSpace(mem, tables, s)
      requires IdentityUpTo(mmu, mem, tables, s, |mmu.kernel|, 0)
      modifies this`mem, this`tables, this`mode, this`kernel, this`kpt
      ensures Valid() && TablePages(mem) == TablePages(old(mem))
      ensures IdentityTranslation(mmu, mem, kpt)
    {
      hide And, Or, Pow2, IndexOf, BaseOf, Present, User, Writable, LargePage, Leaf, Inv, KernelOk, StateOk, IdentityUpTo, HwFrom, KernelLevels;
      RootBuilt(mmu, mem, tables, free, s);
      kpt := Page(BaseOf(mem[Cr3(s)][0], mmu.wordBits));
      kernel := KernelLevels(tables);
      forall va: nat | va < Pow2(mmu.levels[1].shift + mmu.levels[1].bits)
        ensures HwFrom(mmu, mem - {Cr3(s)}, kpt, 1, va, true, true)
             == if mmu.InKernel(va - va % 4096) then To(va - va % 4096, false, true) else Fault
      {
        KernelIdentity(mmu, mem, tables, free, s, va);
        KernelAfter(mmu, mem, kernel, kpt, s, va);
      }
      PagesWithoutCell(mem, s);
      mem := mem - {Cr3(s)};
      assert IdentityTranslation(mmu, mem, kpt);
      tables := map[];
      mode := UserMode(mmu, mem[kpt]);
      EmptyState(mmu, mem, free, kernel, kpt);
    }

    /** `*ptwalk(&as, cur, PTE_W) = cur | PTE_P | PTE_W`. */
    method MapPage(s: nat, k: nat, cur: nat) returns (ok: bool)
      requires mmu.ValidLevels() && k < |mmu.kernel|
      requires mmu.kernel[k].start <= cur && mmu.kernel[k].start % 4096 == 0 && LowPage(mmu, cur)
      requires mode == KernelMode(mmu) && Inv(mmu, mem, tables, mode, free) && OneSpace(mem, tables, s)
      requires IdentityUpTo(mmu, mem, tables, s, k, cur)
      modifies this`mem, this`free, this`tables
      ensures Inv(mmu, mem, tables, mode, free) && OneSpace(mem, tables, s)
      ensures ok ==> IdentityUpTo(mmu, mem, tables, s, k, cur + 4096)
      ensures !ok ==> free == {} && Table(s, Path(mmu, cur)[..mmu.Depth()]) !in tables
      ensures TakenFrom(old(mem), old(free), mem, free)
      ensures Grown(mmu, old(tables), old(free), tables, free, s, cur)
    {
      hide And, Or, Pow2, IndexOf, BaseOf, Present, User, Writable, LargePage, Leaf, Inv, IdentityUpTo, WriteMem, TableOk, Extends, TakenFrom, Grown, Path;
      KernelFlags();
      var loc, index;
      ok, loc, index := PtWalk(s, cur, PTE_W);
      OneSpaceExtends(mmu, old(mem), old(tables), mem, tables, s);
      if !ok {
        return;
      }
      IdentityExtends(mmu, old(mem), old(tables), mem, tables, s, k, cur);
      IdentityStep(mmu, mem, tables, free, s, k, cur);
      EntryWord(cur, PTE_W);
      ghost var mem1 := mem;
      WriteEntry(loc, index, Or(Or(cur, PTE_P), PTE_W));
      TakenSameKeys(old(mem), old(free), mem1, free, mem);
    }

    method MapArea(s: nat, k: nat, ghost pages: nat) returns (ok: bool)
      requires mmu.ValidLevels() && k < |mmu.kernel| && mmu.WholeEntries(mmu.kernel[k])
      requires mmu.kernel[k].start % 4096 == 0 && mmu.Span(mmu.kernel[k]) % 4096 == 0
      requires mode == KernelMode(mmu) && Inv(mmu, mem, tables, mode, free) && OneSpace(mem, tables, s)
      requires IdentityUpTo(mmu, mem, tables, s, k, mmu.kernel[k].start) && BuiltFrom(mmu, tables, free, pages)
      modifies this`mem, this`free, this`tables
      ensures Inv(mmu, mem, tables, mode, free) && OneSpace(mem, tables, s)
      ensures ok ==> IdentityUpTo(mmu, mem, tables, s, k, mmu.kernel[k].start + mmu.Span(mmu.kernel[k]))
      ensures TakenFrom(old(mem), old(free), mem, free)
      ensures BuiltFrom(mmu, tables, free, pages)
      ensures !ok ==> free == {} && pages < |KernelPaths(mmu)|
    {
      hide And, Or, Pow2, IndexOf, BaseOf, Present, User, Writable, LargePage, Leaf, Inv, IdentityUpTo, WriteMem, TableOk, Extends, LowPage, KernelMode, OneSpace, TakenFrom, Grown, BuiltFrom, Path;
      var a := mmu.kernel[k];
      DivUnique(a.start, Pow2(mmu.wordBits), 0, a.start);
      var cur := a.start;
      ghost var n: nat := 0;
      TakenNone(mem, free);
      while cur != a.end
        invariant n * 4096 <= mmu.Span(a)
        invariant cur == (a.start + n * 4096) % Pow2(mmu.wordBits)
        invariant Inv(mmu, mem, tables, mode, free) && OneSpace(mem, tables, s)
        invariant IdentityUpTo(mmu, mem, tables, s, k, a.start + n * 4096)
        invariant TakenFrom(old(mem), old(free), mem, free) && BuiltFrom(mmu, tables, free, pages)
        decreases mmu.Span(a) - n * 4096
      {
        PageStep(mmu, a, n, cur);
        ghost var mem0, tables0, free0 := mem, tables, free;
        ok := MapPage(s, k, cur);
        InKernelArea(mmu, k, cur);
        TakenTrans(old(mem), old(free), mem0, free0, mem, free);
        BuiltMore(mmu, tables0, free0, tables, free, pages, s, cur);
        if !ok {
          TooFewPages(mmu, mem, tables, s, free, pages, cur);
          return;
        }
        cur := (cur + 4096) % Pow2(mmu.wordBits);
        n := n + 1;
      }
      PageStep(mmu, a, n, cur);
      ok := true;
    }

    ghost function Snap(): Snapshot
      reads this
    {
      Snapshot(maps, tables, free, handed, freed)
    }

    /** One command. */
    method Execute(c: Command) returns (ok: bool)
      requires Valid() && Applicable(maps.Keys, c)
      requires c.DoMap? ==> c.va < Pow2(mmu.wordBits) && c.pa < Pow2(mmu.wordBits)
      modifies this
      ensures Valid() && KernelUntouched() && Account() == old(Account())
      ensures Executed(mmu, old(Snap()), c, ok, Snap())
    {
      hide StateOk, Pow2, HandedOk, TablePages, Executed;
      match c {
        case DoProtect(_) => ok := ExecuteProtect(c);
        case DoMap(_, _, _, _) => ok := ExecuteMap(c);
        case DoUnprotect(_) => ok := ExecuteUnprotect(c);
        case _ => ok := ExecutePage(c);
      }
    }

    method ExecuteProtect(c: Command) returns (ok: bool)
      requires Valid() && c.DoProtect? && c.s !in maps
      modifies this
      ensures Valid() && KernelUntouched() && Account() == old(Account())
      ensures Executed(mmu, old(Snap()), c, ok, Snap())
    {
      hide StateOk, Pow2, And, HandedOk, TablePages, TablePage, Mmu.Valid, Owned, Executed, MapLegal, MapSpec, Missing;
      StateFacts(mmu, mem, tables, free, kernel, kpt, maps);
      ok := Protect(c.s);
      ProtectExecuted(mmu, old(Snap()), c, ok, Snap());
    }

    method ExecuteMap(c: Command) returns (ok: bool)
      requires Valid() && c.DoMap? && c.s in maps && c.va < Pow2(mmu.wordBits) && c.pa < Pow2(mmu.wordBits)
      modifies this
      ensures Valid() && KernelUntouched() && Account() == old(Account())
      ensures Executed(mmu, old(Snap()), c, ok, Snap())
    {
      hide StateOk, Pow2, And, HandedOk, TablePages, TablePage, Mmu.Valid, Owned, Executed, MapLegal, MapSpec, Missing;
      StateFacts(mmu, mem, tables, free, kernel, kpt, maps);
      ok := Map(c.s, c.va, c.pa, c.prot);
      MapExecuted(mmu, old(Snap()), c, ok, Snap());
    }

    method ExecuteUnprotect(c: Command) returns (ok: bool)
      requires Valid() && c.DoUnprotect? && c.s in maps
      modifies this
      ensures Valid() && KernelUntouched() && Account() == old(Account())
      ensures Executed(mmu, old(Snap()), c, ok, Snap())
    {
      hide StateOk, Pow2, And, HandedOk, TablePages, TablePage, Mmu.Valid, Owned, Executed, MapLegal, MapSpec, Missing;
      StateFacts(mmu, mem, tables, free, kernel, kpt, maps);
      Unprotect(c.s);
      ok := true;
      UnprotectExecuted(mmu, old(Snap()), c, Snap());
    }

    method ExecutePage(c: Command) returns (ok: bool)
      requires Valid() && (c.DoAlloc? || c.DoRelease?)
      modifies this
      ensures Valid() && KernelUntouched() && Account() == old(Account())
      ensures Executed(mmu, old(Snap()), c, ok, Snap())
    {
      hide StateOk, Pow2, And, HandedOk, TablePages, TablePage, Mmu.Valid, Owned, Executed, MapLegal, MapSpec, Missing;
      StateFacts(mmu, mem, tables, free, kernel, kpt, maps);
      if c.DoAlloc? {
        var p;
        ok, p := PgAlloc();
        AllocExecuted(mmu, old(Snap()), c, ok, Snap(), p);
      } else {
        ok := c.p in handed;
        if ok {
          PgRelease(c.p);
        }
        ReleaseExecuted(mmu, old(Snap()), c, ok, Snap());
      }
    }

    /**
     Executes commands until one of them panics. `steps` are the states before each command and at the end. Every
     command up to the first that is illegal or lacks pages succeeds; all spaces then translate as the page maps
     of the specification say, the kernel as at the start. No page is freed while the caller has it, and as long
     as the caller is careful, all mapped frames are its own.
     */
    method Run(commands: seq<Command>) returns (done: nat, ghost steps: seq<Snapshot>)
      requires Valid() && Usable(maps.Keys, commands)
      requires forall c :: c in commands && c.DoMap? ==> c.va < Pow2(mmu.wordBits) && c.pa < Pow2(mmu.wordBits)
      modifies this
      ensures Valid() && KernelUntouched() && Account() == old(Account())
      ensures done <= |commands| && maps == RunSpec(old(maps), commands[..done])
      ensures |steps| == done + 1 && steps[0] == old(Snap()) && History(mmu, commands, steps) && KeepsOwned(commands, steps)
      ensures steps[done].maps == maps && (done == |commands| ==> steps[done] == Snap())
      ensures done < |commands| ==> !Succeeds(mmu, steps[done], commands[done])
    {
      hide StateOk, Pow2, And, StepSpec, Usable, Applicable, UserMode, HandedOk, Owned, PagesSafe, Careful, TablePages, Succeeds, History, KeepsOwned, Mmu.Valid;
      done, steps := 0, [Snap()];
      StateFacts(mmu, mem, tables, free, kernel, kpt, maps);
      HistoryStart(mmu, commands, Snap());
      assert commands[..0] == [];
      while done < |commands|
        invariant done <= |commands|
        invariant Valid() && KernelUntouched() && Account() == old(Account())
        invariant maps == RunSpec(old(maps), commands[..done])
        invariant |steps| == done + 1 && steps[0] == old(Snap()) && steps[done] == Snap()
        invariant History(mmu, commands, steps) && KeepsOwned(commands, steps)
      {
        var c := commands[done];
        UsableAt(old(maps), commands, done);
        var ok := Execute(c);
        if !ok {
          return;
        }
        HistoryNext(mmu, commands, steps, Snap());
        steps := steps + [Snap()];
        assert commands[..done + 1][..done] == commands[..done] && commands[..done + 1][done] == c;
        done := done + 1;
      }
    }

    /** Operations that leave the kernel's tables alone leave its translation alone. */
    twostate lemma KernelTranslation()
      requires old(Valid()) && Valid() && KernelUntouched()
      ensures mmu.wordBits >= 12 && 1 <= mmu.Depth()
      ensures forall va {:trigger HwFrom(mmu, mem, kpt, 1, va, true, true)} ::
                HwFrom(mmu, mem, kpt, 1, va, true, true) == HwFrom(mmu, old(mem), kpt, 1, va, true, true)
    {
      hide HwFrom, Inv, MapsOk, KernelEntry;
      KernelSame(mmu, old(mem), mem, kernel, kpt);
    }
  }
}
