/**
 Page maps of address spaces and the kernel's shared tables: what the words in memory must say about
 them, and that the hardware walk agrees.
 */
module Vme {
  import opened Bits
  import opened Common
  import opened PageTable
  import opened VmeInvariant

  /** What the user of the API asked for: a physical page and whether it may be written. */
  datatype Frame = Frame(pa: nat, writable: bool)
  {
    function Word(): nat
    {
      pa + (if writable then 7 else 5)
    }
  }

  type Maps = map<nat, map<nat, Frame>>

  // ---------------------------------------------------------------- shared root entries

  /** The root indices that `protect` copies from the kernel. */
  ghost function SharedIndices(mmu: Mmu): set<nat>
    requires mmu.ValidLevels()
  {
    set i: nat | i < mmu.Slots(1) && mmu.InKernel(i * mmu.Step())
  }

  ghost function UserMode(mmu: Mmu, kroot: seq<nat>): Mode
    requires mmu.ValidLevels()
  {
    Mode(7, 5, SharedIndices(mmu), kroot)
  }

  /** The level-1 index of an address below the top of the address space is its quotient. */
  lemma RootIndex(mmu: Mmu, va: nat)
    requires mmu.ValidLevels() && va < Pow2(mmu.levels[1].shift + mmu.levels[1].bits)
    ensures 0 <= IndexOf(va, mmu.levels[1]) < mmu.Slots(1)
    ensures IndexOf(va, mmu.levels[1]) == va / mmu.Step()
    ensures IndexOf(va, mmu.levels[1]) * mmu.Step() == va - va % mmu.Step()
  {
    hide And, Pow2, IndexOf;
    var l := mmu.levels[1];
    IndexOfValue(va, l);
    assert va < Pow2(l.bits) * Pow2(l.shift) by { Pow2Add(l.bits, l.shift); }
    DivLess(va, Pow2(l.shift), Pow2(l.bits));
    DivGeq(va, Pow2(l.shift), 0);
    DivUnique(va / Pow2(l.shift), Pow2(l.bits), 0, va / Pow2(l.shift));
    DivRem(va, Pow2(l.shift));
  }

  function RoundDown(va: nat, s: nat): (r: nat)
    requires s > 0
    ensures r == va - va % s
  {
    DivRem(va, s);
    DivGeq(va, s, 0);
    MulMono(0, va / s, s);
    va / s * s
  }

  /** Rounding down to a level-1 boundary stays inside an area made of whole entries. */
  lemma RoundInArea(mmu: Mmu, a: Area, va: nat)
    requires mmu.ValidLevels() && mmu.WholeEntries(a) && mmu.InArea(a, va)
    ensures va < Pow2(mmu.levels[1].shift + mmu.levels[1].bits)
    ensures mmu.InArea(a, RoundDown(va, mmu.Step()))
  {
    hide Pow2;
    RoundBetween(a.start, va, mmu.Step());
    DivRem(va, mmu.Step());
  }

  lemma RoundBetween(start: nat, va: nat, s: nat)
    requires s > 0 && start % s == 0 && start <= va
    ensures start <= va - va % s
  {
    DivRem(start, s);
    DivRem(va, s);
    DivMono(start, va, s);
    MulMono(start / s, va / s, s);
  }

  /** User addresses never go through a shared root entry. */
  lemma UserNotShared(mmu: Mmu, va: nat)
    requires mmu.Valid() && mmu.InUser(va)
    ensures va < Pow2(mmu.levels[1].shift + mmu.levels[1].bits)
    ensures Path(mmu, va)[1] !in SharedIndices(mmu)
  {
    hide And, Pow2, IndexOf;
    RoundInArea(mmu, mmu.user, va);
    RootIndex(mmu, va);
    var r := RoundDown(va, mmu.Step());
    assert mmu.InUser(r);
  }

  /** Kernel addresses always do. */
  lemma KernelShared(mmu: Mmu, va: nat)
    requires mmu.Valid() && mmu.InKernel(va)
    ensures va < Pow2(mmu.levels[1].shift + mmu.levels[1].bits)
    ensures Path(mmu, va)[1] in SharedIndices(mmu)
  {
    hide And, Pow2, IndexOf;
    var k :| 0 <= k < |mmu.kernel| && mmu.InArea(mmu.kernel[k], va);
    RoundInArea(mmu, mmu.kernel[k], va);
    RootIndex(mmu, va);
    assert mmu.InKernel(RoundDown(va, mmu.Step()));
  }

  /** An address and its page have the same path. */
  lemma SamePath(mmu: Mmu, va: nat)
    requires mmu.ValidLevels()
    ensures Path(mmu, va) == Path(mmu, va - va % 4096)
  {
    hide And, Pow2, IndexOf;
    forall i | 0 <= i < |mmu.levels|
      ensures IndexOf(va, mmu.levels[i]) == IndexOf(va - va % 4096, mmu.levels[i])
    {
      IndexOfValue(va, mmu.levels[i]);
      IndexOfValue(va - va % 4096, mmu.levels[i]);
      if i == 0 {
        assert Pow2(0) == 1 by { Pow2Zero(); }
        DivUnique(va, 1, va, 0);
        var p := va - va % 4096;
        DivUnique(p, 1, p, 0);
      } else {
        ShiftAtLeast(mmu, i);
        var k := mmu.levels[i].shift - 12;
        assert Pow2(mmu.levels[i].shift) == 4096 * Pow2(k) by {
          Pow2Add(12, k);
          Pow2Values();
        }
        DivDiv(va, 4096, Pow2(k));
        DivDiv(va - va % 4096, 4096, Pow2(k));
      }
    }
  }

  lemma Pow2Zero()
    ensures Pow2(0) == 1
  {
  }

  lemma {:induction false} ShiftAtLeast(mmu: Mmu, i: nat)
    requires mmu.ValidLevels() && 1 <= i <= mmu.Depth()
    ensures mmu.levels[i].shift >= 12
    decreases mmu.Depth() - i
  {
    if i < mmu.Depth() {
      ShiftAtLeast(mmu, i + 1);
    }
  }

  // ---------------------------------------------------------------- the kernel tables

  ghost predicate Foreign(tables: Tables, l: Loc)
  {
    forall t :: t in tables ==> tables[t] != l
  }

  /** The kernel's tables: closed under the walk, apart from all user tables, rooted at `kpt`. */
  ghost predicate KernelOk(mmu: Mmu, mem: Memory, kernel: map<Loc, nat>, kpt: Loc)
  {
    && mmu.ValidLevels()
    && kpt in kernel && kernel[kpt] == 1
    && (forall l :: l in kernel ==> l in mem && 1 <= kernel[l] <= mmu.Depth())
    && (forall l, i: nat {:trigger mem[l][i]} :: l in kernel && l in mem && i < |mem[l]| ==>
          KernelEntry(mmu, kernel, kernel[l], mem[l][i]))
  }

  ghost predicate KernelEntry(mmu: Mmu, kernel: map<Loc, nat>, level: nat, w: nat)
    requires mmu.ValidLevels()
  {
    (1 <= level < mmu.Depth() && Present(w) && !(mmu.levels[level].large && LargePage(w))) ==>
      var l := Page(BaseOf(w, mmu.wordBits));
      l in kernel && kernel[l] == level + 1
  }

  /** The kernel translation depends on the kernel's tables only. */
  lemma {:induction false} KernelStable(mmu: Mmu, mem: Memory, mem': Memory, kernel: map<Loc, nat>, kpt: Loc,
                                        l: Loc, va: nat, user: bool, writable: bool)
    requires KernelOk(mmu, mem, kernel, kpt)
    requires forall m :: m in kernel ==> m in mem' && m in mem && mem'[m] == mem[m]
    requires l in kernel
    ensures HwFrom(mmu, mem', l, kernel[l], va, user, writable) == HwFrom(mmu, mem, l, kernel[l], va, user, writable)
    decreases mmu.Depth() - kernel[l]
  {
    hide And, Pow2, IndexOf, BaseOf, Present, User, Writable, LargePage;
    var level := kernel[l];
    var i := IndexOf(va, mmu.levels[level]);
    if i < |mem[l]| {
      var w := mem[l][i];
      assert KernelEntry(mmu, kernel, level, w);
      if level < mmu.Depth() && Present(w) && !(mmu.levels[level].large && LargePage(w)) {
        KernelStable(mmu, mem, mem', kernel, kpt, Page(BaseOf(w, mmu.wordBits)), va, user && User(w), writable && Writable(w));
      }
    }
  }

  /** In every address space a kernel address translates as it does from the kernel's own root. */
  lemma KernelVisible(mmu: Mmu, mem: Memory, tables: Tables, mode: Mode, free: set<nat>, kpt: Loc, s: nat, va: nat)
    requires mmu.Valid() && kpt in mem
    requires Inv(mmu, mem, tables, mode, free) && mode == UserMode(mmu, mem[kpt])
    requires Table(s, [0]) in tables
    requires mmu.InKernel(va)
    ensures HwFrom(mmu, mem, tables[Table(s, [0])], 1, va, true, true) == HwFrom(mmu, mem, kpt, 1, va, true, true)
  {
    hide And, Pow2, IndexOf, BaseOf, Present, User, Writable, LargePage;
    var t := Table(s, [0]);
    KernelShared(mmu, va);
    RootIndex(mmu, va);
    var i := IndexOf(va, mmu.levels[1]);
    assert TableOk(mmu, mem, tables, t) && EntriesOk(mmu, mem, tables, mode, t);
    assert EntryOk(mem, tables, mode, t, i);
  }

  // ---------------------------------------------------------------- what the page map says

  ghost predicate UserPage(mmu: Mmu, va: nat)
  {
    mmu.InUser(va) && va % 4096 == 0
  }

  /** Any page that the tables can translate, whatever area it is in. */
  ghost predicate LowPage(mmu: Mmu, va: nat)
    requires mmu.ValidLevels()
  {
    va < Pow2(mmu.levels[1].shift + mmu.levels[1].bits) && va % 4096 == 0
  }

  function MapWord(maps: Maps, s: nat, va: nat): nat
  {
    if s in maps && va in maps[s] then maps[s][va].Word() else 0
  }

  /** The leaf words of all pages of all address spaces are exactly those of the abstract page maps. */
  ghost predicate MapsOk(mmu: Mmu, mem: Memory, tables: Tables, maps: Maps)
    requires mmu.ValidLevels()
  {
    && (forall s :: s in maps <==> Table(s, []) in tables)
    && (forall s, va {:trigger Leaf(mmu, mem, tables, s, va)} ::
          s in maps && LowPage(mmu, va) ==> Leaf(mmu, mem, tables, s, va) == MapWord(maps, s, va))
    && (forall s, va {:trigger maps[s][va]} :: s in maps && va in maps[s] ==>
          UserPage(mmu, va) && PageAddr(maps[s][va].pa, mmu.wordBits))
  }

  ghost predicate StateOk(mmu: Mmu, mem: Memory, tables: Tables, free: set<nat>, kernel: map<Loc, nat>, kpt: Loc, maps: Maps)
  {
    && mmu.Valid()
    && KernelOk(mmu, mem, kernel, kpt)
    && (forall l :: l in kernel ==> Foreign(tables, l))
    && Inv(mmu, mem, tables, UserMode(mmu, mem[kpt]), free)
    && MapsOk(mmu, mem, tables, maps)
  }

  /** The root table behind the CR3 value of a live address space. */
  lemma RootOf(mmu: Mmu, mem: Memory, tables: Tables, mode: Mode, free: set<nat>, s: nat)
    requires Inv(mmu, mem, tables, mode, free) && mode.flags == 7 && mode.rootFlags == 5
    requires Table(s, []) in tables
    ensures Table(s, [0]) in tables && Cr3(s) in mem && |mem[Cr3(s)]| == 1
    ensures tables[Table(s, [0])] == Page(BaseOf(mem[Cr3(s)][0], mmu.wordBits))
  {
    hide And, Pow2, IndexOf, BaseOf, Present, User, Writable, LargePage;
    var t, c := Table(s, []), Table(s, [0]);
    assert Child(t, 0) == c;
    assert TableOk(mmu, mem, tables, t) && EntriesOk(mmu, mem, tables, mode, t);
    Pow2Zero();
    assert EntryOk(mem, tables, mode, t, 0);
    assert TableOk(mmu, mem, tables, c);
    EntryFields(tables[c].base, 5, mmu.wordBits);
  }

  /**
   The main theorem about the words in memory: the hardware, started from `as->ptr`, translates every address
   of a kernel area as the kernel's own tables do, every page of the page map of the space to its frame, and
   nothing else.
   */
  lemma TranslationIsMap(mmu: Mmu, mem: Memory, tables: Tables, free: set<nat>, kernel: map<Loc, nat>, kpt: Loc,
                         maps: Maps, s: nat, va: nat)
    requires StateOk(mmu, mem, tables, free, kernel, kpt, maps)
    requires s in maps && va < Pow2(mmu.levels[1].shift + mmu.levels[1].bits)
    ensures Cr3(s) in mem && |mem[Cr3(s)]| == 1
    ensures HwWalk(mmu, mem, mem[Cr3(s)][0], va) ==
            var page := va - va % 4096;
            if mmu.InKernel(va) then HwFrom(mmu, mem, kpt, 1, va, true, true)
            else if page in maps[s] then To(maps[s][page].pa, true, maps[s][page].writable)
            else Fault
  {
    StateFacts(mmu, mem, tables, free, kernel, kpt, maps);
    hide Inv, MapsOk, HwFrom, KernelOk, SharedIndices, BaseOf, Pow2, Foreign;
    var mode := UserMode(mmu, mem[kpt]);
    RootOf(mmu, mem, tables, mode, free, s);
    if mmu.InKernel(va) {
      KernelVisible(mmu, mem, tables, mode, free, kpt, s, va);
    } else {
      if Path(mmu, va)[1] in SharedIndices(mmu) { SharedIsKernel(mmu, va); }
      SpaceTranslation(mmu, mem, tables, mode, free, maps, s, va);
    }
  }

  /** An address whose root entry is shared is a kernel address. */
  lemma SharedIsKernel(mmu: Mmu, va: nat)
    requires mmu.Valid() && va < Pow2(mmu.levels[1].shift + mmu.levels[1].bits)
    requires Path(mmu, va)[1] in SharedIndices(mmu)
    ensures mmu.InKernel(va)
  {
    hide Pow2, IndexOf;
    RootIndex(mmu, va);
    var base := RoundDown(va, mmu.Step());
    assert mmu.InKernel(base);
    var k :| 0 <= k < |mmu.kernel| && mmu.InArea(mmu.kernel[k], base);
    assert mmu.WholeEntries(mmu.kernel[k]);
    BaseInArea(mmu, mmu.kernel[k], va);
  }

  /** An area made of whole entries contains an address when it contains the start of its entry. */
  lemma BaseInArea(mmu: Mmu, a: Area, va: nat)
    requires mmu.ValidLevels() && mmu.WholeEntries(a) && mmu.InArea(a, RoundDown(va, mmu.Step()))
    ensures mmu.InArea(a, va)
  {
    hide Pow2;
    var s, end := mmu.Step(), a.start + mmu.Span(a);
    DivRem(va, s);
    DivRem(mmu.Span(a), s);
    DivGeq(mmu.Span(a), s, 0);
    MultipleStep(a.start, mmu.Span(a) / s, s);
    if end <= va {
      RoundBetween(end, va, s);
    }
  }

  lemma SpaceTranslation(mmu: Mmu, mem: Memory, tables: Tables, mode: Mode, free: set<nat>, maps: Maps, s: nat, va: nat)
    requires mmu.Valid() && Inv(mmu, mem, tables, mode, free) && MapsOk(mmu, mem, tables, maps)
    requires mode.flags == 7 && mode.rootFlags == 5 && mode.shared == SharedIndices(mmu)
    requires s in maps && va < Pow2(mmu.levels[1].shift + mmu.levels[1].bits)
    requires Path(mmu, va)[1] !in SharedIndices(mmu)
    ensures Cr3(s) in mem && |mem[Cr3(s)]| == 1
    ensures HwWalk(mmu, mem, mem[Cr3(s)][0], va) ==
            var page := va - va % 4096;
            if page in maps[s] then To(maps[s][page].pa, true, maps[s][page].writable) else Fault
  {
    hide And, Pow2, IndexOf, BaseOf, Present, User, Writable, LargePage, HwFrom;
    RootOf(mmu, mem, tables, mode, free, s);
    assert Path(mmu, va)[..1] == [0] by {
      IndexOfValue(va, mmu.levels[0]);
      Pow2Zero();
    }
    WalkFrom(mmu, mem, tables, mode, free, s, va, 1, true);
    var page := va - va % 4096;
    SamePath(mmu, va);
    assert Leaf(mmu, mem, tables, s, va) == Leaf(mmu, mem, tables, s, page);
    assert LowPage(mmu, page);
    if page in maps[s] {
      var f := maps[s][page];
      EntryFields(f.pa, if f.writable then 7 else 5, mmu.wordBits);
    } else {
      WordBits(0);
    }
  }

  lemma MultipleOfPage(q: nat, k: nat, a: nat, s: nat)
    requires a == q * s && s == k * 4096
    ensures a % 4096 == 0
  {
    assert a == q * k * 4096;
    DivUnique(a, 4096, q * k, 0);
  }

  lemma StepIsPages(mmu: Mmu)
    requires mmu.ValidLevels()
    ensures mmu.Step() == Pow2(mmu.levels[1].shift - 12) * 4096
  {
    Pow2Add(mmu.levels[1].shift - 12, 12);
    Pow2Values();
  }

  // ---------------------------------------------------------------- pages of the allocator

  /** Pages that the allocator has handed to the caller hold no table and are not free. */
  ghost predicate HandedOk(mmu: Mmu, mem: Memory, free: set<nat>, handed: set<nat>)
    requires mmu.ValidLevels()
  {
    forall p :: p in handed ==> PageAddr(p, mmu.wordBits) && p !in free && Page(p) !in mem
  }

  /** Every mapped frame is a page that the caller got from the allocator. */
  ghost predicate Owned(maps: Maps, handed: set<nat>)
  {
    forall s, va {:trigger maps[s][va]} :: s in maps && va in maps[s] ==> maps[s][va].pa in handed
  }

  /** The pages that hold tables. */
  ghost function TablePages(mem: Memory): (r: set<nat>)
    ensures forall p {:trigger p in r} {:trigger Page(p)} :: p in r <==> Page(p) in mem
  {
    set l | l in mem && l.Page? :: l.base
  }

  /** Pages were only taken from the free ones, and every page taken now holds a table. */
  ghost predicate TakenFrom(mem0: Memory, free0: set<nat>, mem: Memory, free: set<nat>)
  {
    free <= free0 && TablePages(mem) + free == TablePages(mem0) + free0
  }

  lemma TakenTrans(mem0: Memory, free0: set<nat>, mem1: Memory, free1: set<nat>, mem2: Memory, free2: set<nat>)
    requires TakenFrom(mem0, free0, mem1, free1) && TakenFrom(mem1, free1, mem2, free2)
    ensures TakenFrom(mem0, free0, mem2, free2)
  {
  }

  lemma TakenOne(mem: Memory, free: set<nat>, p: nat, zeros: seq<nat>, loc: Loc, row: seq<nat>)
    requires p in free && loc in mem
    ensures TakenFrom(mem, free, mem[Page(p) := zeros][loc := row], free - {p})
  {
    var mem' := mem[Page(p) := zeros][loc := row];
    forall q ensures q in TablePages(mem') <==> q in TablePages(mem) || q == p {
      assert Page(q) in mem' <==> Page(q) in mem || q == p;
    }
    hide TablePages;
    assert TablePages(mem') + (free - {p}) == TablePages(mem) + free;
  }

  lemma TakenSameKeys(mem0: Memory, free0: set<nat>, mem1: Memory, free: set<nat>, mem: Memory)
    requires TakenFrom(mem0, free0, mem1, free) && mem.Keys == mem1.Keys
    ensures TakenFrom(mem0, free0, mem, free)
  {
    assert forall l :: l in mem <==> l in mem.Keys;
    assert forall l :: l in mem1 <==> l in mem1.Keys;
    assert TablePages(mem) == TablePages(mem1);
  }

  lemma TakenAccount(mem0: Memory, free0: set<nat>, mem: Memory, free: set<nat>)
    requires TakenFrom(mem0, free0, mem, free)
    ensures TablePages(mem) + free + {} == TablePages(mem0) + free0 + {}
  {
  }

  lemma StartPages(mem0: Memory, mem: Memory, s: nat, free: set<nat>)
    requires mem0 == map[] && mem == map[Cr3(s) := [0]]
    ensures TakenFrom(mem0, free, mem, free)
  {
    assert TablePages(mem) == TablePages(mem0) == {};
  }

  lemma PagesWithoutCell(mem: Memory, s: nat)
    ensures TablePages(mem - {Cr3(s)}) == TablePages(mem)
  {
  }

  lemma TakenNone(mem: Memory, free: set<nat>)
    ensures TakenFrom(mem, free, mem, free)
  {
  }

  lemma HandedKept(mmu: Mmu, mem0: Memory, free0: set<nat>, mem: Memory, free: set<nat>, handed: set<nat>)
    requires mmu.ValidLevels() && HandedOk(mmu, mem0, free0, handed) && TakenFrom(mem0, free0, mem, free)
    ensures HandedOk(mmu, mem, free, handed)
    ensures TablePages(mem) + free + handed == TablePages(mem0) + free0 + handed
  {
    hide TablePages;
    forall p | p in handed
      ensures PageAddr(p, mmu.wordBits) && p !in free && Page(p) !in mem
    {
      assert p !in TablePages(mem0) + free0;
      assert p !in TablePages(mem);
    }
  }

  lemma SameKeys(mmu: Mmu, mem0: Memory, mem: Memory, free: set<nat>, handed: set<nat>)
    requires mmu.ValidLevels() && HandedOk(mmu, mem0, free, handed) && mem.Keys == mem0.Keys
    ensures HandedOk(mmu, mem, free, handed) && TablePages(mem) == TablePages(mem0)
  {
    assert forall l :: l in mem <==> l in mem.Keys;
    assert forall l :: l in mem0 <==> l in mem0.Keys;
  }

  lemma OwnedAfterMap(maps: Maps, handed: set<nat>, space: nat, va: nat, pa: nat, prot: nat)
    requires Owned(maps, handed) && space in maps && (prot == 0 || pa in handed)
    ensures Owned(MapSpec(maps, space, va, pa, prot), handed)
  {
    hide And;
  }

  /** The allocator may have fewer or, among pages without tables, more free pages. */
  lemma OtherFree(mmu: Mmu, mem: Memory, tables: Tables, free: set<nat>, free': set<nat>, kernel: map<Loc, nat>, kpt: Loc, maps: Maps)
    requires StateOk(mmu, mem, tables, free, kernel, kpt, maps)
    requires forall p :: p in free' ==> PageAddr(p, mmu.wordBits) && Page(p) !in mem
    ensures StateOk(mmu, mem, tables, free', kernel, kpt, maps)
  {
    hide KernelOk, MapsOk, Foreign, TableOk, EntriesOk;
  }

  // ---------------------------------------------------------------- how many tables a walk needs

  /** The tables on the path of va below level i that do not exist yet. */
  ghost function MissingFrom(mmu: Mmu, tables: Tables, s: nat, va: nat, i: nat): (n: nat)
    requires mmu.ValidLevels() && i <= mmu.Depth()
    ensures n <= mmu.Depth() - i
    decreases mmu.Depth() - i
  {
    if i == mmu.Depth() then 0
    else (if Table(s, Path(mmu, va)[..i + 1]) in tables then 0 else 1) + MissingFrom(mmu, tables, s, va, i + 1)
  }

  /** The number of pages that `ptwalk` has to allocate. */
  ghost function Missing(mmu: Mmu, tables: Tables, s: nat, va: nat): (n: nat)
    requires mmu.ValidLevels()
    ensures n <= mmu.Depth()
  {
    MissingFrom(mmu, tables, s, va, 0)
  }

  /** The path leads through this table. */
  ghost predicate OnPath(mmu: Mmu, va: nat, path: seq<nat>)
    requires mmu.ValidLevels()
  {
    1 <= |path| <= mmu.Depth() && path == Path(mmu, va)[..|path|]
  }

  /** A walk has added tables on its path only, one page for each. */
  ghost predicate Grown(mmu: Mmu, tables0: Tables, free0: set<nat>, tables: Tables, free: set<nat>, s: nat, va: nat)
    requires mmu.ValidLevels()
  {
    && |tables| + |free| == |tables0| + |free0|
    && (forall t :: t in tables0 ==> t in tables)
    && (forall t {:trigger t in tables} :: t in tables && t !in tables0 ==> t.space == s && OnPath(mmu, va, t.path))
  }

  /** Below level i the path is as it was. */
  ghost predicate SameBelow(mmu: Mmu, tables0: Tables, tables: Tables, s: nat, va: nat, i: nat)
    requires mmu.ValidLevels()
  {
    forall j {:trigger Path(mmu, va)[..j]} :: i < j <= mmu.Depth() ==>
      (Table(s, Path(mmu, va)[..j]) in tables <==> Table(s, Path(mmu, va)[..j]) in tables0)
  }

  lemma SameBelowStart(mmu: Mmu, tables: Tables, s: nat, va: nat)
    requires mmu.ValidLevels()
    ensures SameBelow(mmu, tables, tables, s, va, 0)
  {
  }

  lemma SameBelowNext(mmu: Mmu, tables0: Tables, tables: Tables, tables': Tables, s: nat, va: nat, i: nat, l: Loc)
    requires mmu.ValidLevels() && i < mmu.Depth() && SameBelow(mmu, tables0, tables, s, va, i)
    requires tables' == tables || tables' == tables[Table(s, Path(mmu, va)[..i + 1]) := l]
    ensures Table(s, Path(mmu, va)[..i + 1]) in tables <==> Table(s, Path(mmu, va)[..i + 1]) in tables0
    ensures SameBelow(mmu, tables0, tables', s, va, i + 1)
  {
    forall j | i + 1 < j <= mmu.Depth()
      ensures Table(s, Path(mmu, va)[..j]) in tables' <==> Table(s, Path(mmu, va)[..j]) in tables0
    {
      assert |Path(mmu, va)[..j]| == j && |Path(mmu, va)[..i + 1]| == i + 1;
    }
  }

  lemma RootCell(mmu: Mmu, mem: Memory, tables: Tables, mode: Mode, free: set<nat>, s: nat)
    requires Inv(mmu, mem, tables, mode, free) && Table(s, []) in tables
    ensures mmu.ValidLevels() && tables[Table(s, [])] == Cr3(s)
  {
    assert TableOk(mmu, mem, tables, Table(s, []));
  }

  lemma GrownNone(mmu: Mmu, tables: Tables, free: set<nat>, s: nat, va: nat)
    requires mmu.ValidLevels()
    ensures Grown(mmu, tables, free, tables, free, s, va)
  {
  }

  lemma MissingStep(mmu: Mmu, tables: Tables, s: nat, va: nat, i: nat)
    requires mmu.ValidLevels() && i < mmu.Depth()
    ensures MissingFrom(mmu, tables, s, va, i)
         == (if Table(s, Path(mmu, va)[..i + 1]) in tables then 0 else 1) + MissingFrom(mmu, tables, s, va, i + 1)
  {
  }

  lemma GrownOne(mmu: Mmu, tables0: Tables, free0: set<nat>, tables: Tables, free: set<nat>, tables': Tables, free': set<nat>,
                 s: nat, va: nat, i: nat, l: Loc)
    requires mmu.ValidLevels() && i < mmu.Depth() && Grown(mmu, tables0, free0, tables, free, s, va)
    requires Table(s, Path(mmu, va)[..i + 1]) !in tables && |free'| == |free| - 1
    requires tables' == tables[Table(s, Path(mmu, va)[..i + 1]) := l]
    ensures Grown(mmu, tables0, free0, tables', free', s, va)
  {
    var t := Table(s, Path(mmu, va)[..i + 1]);
    assert tables'.Keys == tables.Keys + {t};
    assert |tables'| == |tables'.Keys| && |tables| == |tables.Keys|;
  }

  // ---------------------------------------------------------------- growing the tree

  /** From one state to a later one, only tables of the given space were added and no page was remapped. */
  ghost predicate Extends(mmu: Mmu, mem0: Memory, tables0: Tables, mem: Memory, tables: Tables, space: nat)
    requires mmu.ValidLevels()
  {
    && (forall t :: t in tables0 ==> t in tables && tables[t] == tables0[t])
    && (forall t :: t in tables && t !in tables0 ==> t.space == space && t.path != [] && tables[t] !in mem0)
    && (forall s, va {:trigger Leaf(mmu, mem, tables, s, va)} ::
          Leaf(mmu, mem, tables, s, va) == Leaf(mmu, mem0, tables0, s, va))
    && (forall l :: l in mem0 ==> l in mem)
    && (forall l :: l in mem && l !in mem0 ==> l.Page?)
    && (forall l :: l in mem0 && Foreign(tables0, l) ==> l in mem && mem[l] == mem0[l])
  }

  lemma ExtendsSelf(mmu: Mmu, mem: Memory, tables: Tables, space: nat)
    requires mmu.ValidLevels()
    ensures Extends(mmu, mem, tables, mem, tables, space)
  {
  }

  lemma ExtendsTrans(mmu: Mmu, mem0: Memory, tables0: Tables, mem1: Memory, tables1: Tables, mem2: Memory, tables2: Tables, space: nat)
    requires mmu.ValidLevels()
    requires Extends(mmu, mem0, tables0, mem1, tables1, space)
    requires Extends(mmu, mem1, tables1, mem2, tables2, space)
    ensures Extends(mmu, mem0, tables0, mem2, tables2, space)
  {
    hide Leaf;
    forall s, va
      ensures Leaf(mmu, mem2, tables2, s, va) == Leaf(mmu, mem0, tables0, s, va)
    {
      assert Leaf(mmu, mem2, tables2, s, va) == Leaf(mmu, mem1, tables1, s, va);
    }
    forall l | l in mem0 && Foreign(tables0, l)
      ensures mem2[l] == mem0[l]
    {
      assert Foreign(tables1, l);
    }
  }

  /** No `as->ptr` cell is created by growing. */
  lemma ExtendsCells(mmu: Mmu, mem: Memory, tables: Tables, mem': Memory, tables': Tables, space: nat)
    requires mmu.ValidLevels() && Extends(mmu, mem, tables, mem', tables', space)
    ensures forall s :: Cr3(s) in mem' ==> Cr3(s) in mem
  {
    hide Leaf, Foreign;
  }

  lemma GrowExtends(mmu: Mmu, mem: Memory, tables: Tables, mode: Mode, free: set<nat>, t: Table, i: nat, p: nat)
    requires Inv(mmu, mem, tables, mode, free)
    requires t in tables && TableOk(mmu, mem, tables, t) && |t.path| < mmu.Depth() && i < |mem[tables[t]]|
    requires Child(t, i) !in tables && p in free
    ensures Extends(mmu, mem, tables, GrowMem(mmu, mem, tables, mode, t, i, p), tables[Child(t, i) := Page(p)], t.space)
  {
    hide And, Pow2, IndexOf, BaseOf, Present, User, Writable, LargePage, Leaf;
    forall s, va
      ensures Leaf(mmu, GrowMem(mmu, mem, tables, mode, t, i, p), tables[Child(t, i) := Page(p)], s, va)
           == Leaf(mmu, mem, tables, s, va)
    {
      GrowLeaf(mmu, mem, tables, mode, free, t, i, p, s, va);
    }
  }

  /** The state of the walk after i levels, compared with its start. */
  ghost predicate Walked(mmu: Mmu, mem0: Memory, tables0: Tables, free0: set<nat>, mem: Memory, tables: Tables, free: set<nat>,
                         s: nat, va: nat, i: nat)
    requires mmu.ValidLevels() && i <= mmu.Depth()
  {
    && Extends(mmu, mem0, tables0, mem, tables, s)
    && TakenFrom(mem0, free0, mem, free)
    && Grown(mmu, tables0, free0, tables, free, s, va)
    && SameBelow(mmu, tables0, tables, s, va, i)
    && |free0| == |free| + Missing(mmu, tables0, s, va) - MissingFrom(mmu, tables0, s, va, i)
    && (Table(s, Path(mmu, va)[..mmu.Depth()]) in tables0 ==> mem == mem0 && tables == tables0 && free == free0)
  }

  /** One level of the walk: the next table is there, or one page is taken for it, or there is none. */
  ghost predicate Stepped(mmu: Mmu, mem: Memory, tables: Tables, free: set<nat>, mem': Memory, tables': Tables, free': set<nat>,
                          s: nat, va: nat, i: nat, ok: bool, next: Loc)
    requires mmu.ValidLevels() && i < mmu.Depth()
  {
    var c := Table(s, Path(mmu, va)[..i + 1]);
    && Extends(mmu, mem, tables, mem', tables', s)
    && TakenFrom(mem, free, mem', free')
    && (c in tables || !ok ==> mem' == mem && tables' == tables && free' == free)
    && (c in tables ==> ok && next == tables[c])
    && (c !in tables ==> (ok <==> free != {}) && Table(s, Path(mmu, va)[..mmu.Depth()]) !in tables)
    && (c !in tables && ok ==> |free'| == |free| - 1 && tables' == tables[c := next])
  }

  lemma WalkedStart(mmu: Mmu, mem: Memory, tables: Tables, free: set<nat>, s: nat, va: nat)
    requires mmu.ValidLevels()
    ensures Walked(mmu, mem, tables, free, mem, tables, free, s, va, 0)
  {
    ExtendsSelf(mmu, mem, tables, s);
    TakenNone(mem, free);
    GrownNone(mmu, tables, free, s, va);
    SameBelowStart(mmu, tables, s, va);
  }

  lemma WalkedNext(mmu: Mmu, mem0: Memory, tables0: Tables, free0: set<nat>, mem: Memory, tables: Tables, free: set<nat>,
                   mem': Memory, tables': Tables, free': set<nat>, s: nat, va: nat, i: nat, ok: bool, next: Loc)
    requires mmu.ValidLevels() && i < mmu.Depth()
    requires Walked(mmu, mem0, tables0, free0, mem, tables, free, s, va, i)
    requires Stepped(mmu, mem, tables, free, mem', tables', free', s, va, i, ok, next)
    ensures ok ==> Walked(mmu, mem0, tables0, free0, mem', tables', free', s, va, i + 1)
    ensures !ok ==> && Walked(mmu, mem0, tables0, free0, mem', tables', free', s, va, i) && free' == {}
                    && |free0| < Missing(mmu, tables0, s, va) && Table(s, Path(mmu, va)[..mmu.Depth()]) !in tables'
  {
    hide Extends, TakenFrom, Grown, SameBelow, MissingFrom, Path;
    ExtendsTrans(mmu, mem0, tables0, mem, tables, mem', tables', s);
    TakenTrans(mem0, free0, mem, free, mem', free');
    MissingStep(mmu, tables0, s, va, i);
    SameBelowNext(mmu, tables0, tables, tables, s, va, i, next);
    if Table(s, Path(mmu, va)[..i + 1]) !in tables && ok {
      GrownOne(mmu, tables0, free0, tables, free, tables', free', s, va, i, next);
      SameBelowNext(mmu, tables0, tables, tables', s, va, i, next);
    }
  }

  lemma WalkedFacts(mmu: Mmu, mem0: Memory, tables0: Tables, free0: set<nat>, mem: Memory, tables: Tables, free: set<nat>,
                    s: nat, va: nat, i: nat)
    requires mmu.ValidLevels() && i <= mmu.Depth() && Walked(mmu, mem0, tables0, free0, mem, tables, free, s, va, i)
    ensures Extends(mmu, mem0, tables0, mem, tables, s)
    ensures TakenFrom(mem0, free0, mem, free)
    ensures Grown(mmu, tables0, free0, tables, free, s, va)
    ensures Table(s, Path(mmu, va)[..mmu.Depth()]) in tables0 ==> mem == mem0 && tables == tables0 && free == free0
  {
  }

  lemma WalkedEnd(mmu: Mmu, mem0: Memory, tables0: Tables, free0: set<nat>, mem: Memory, tables: Tables, free: set<nat>, s: nat, va: nat)
    requires mmu.ValidLevels() && Walked(mmu, mem0, tables0, free0, mem, tables, free, s, va, mmu.Depth())
    ensures |free| == |free0| - Missing(mmu, tables0, s, va)
  {
  }

  /** One level of the walk: the entry is present exactly when the next table exists. */
  lemma StepFacts(mmu: Mmu, mem: Memory, tables: Tables, mode: Mode, free: set<nat>, space: nat, va: nat, i: nat)
    requires Inv(mmu, mem, tables, mode, free)
    requires i < mmu.Depth() && Table(space, Path(mmu, va)[..i]) in tables
    requires Path(mmu, va)[1] !in mode.shared
    ensures var t, index := Table(space, Path(mmu, va)[..i]), IndexOf(va, mmu.levels[i]);
            && TableOk(mmu, mem, tables, t)
            && index < |mem[tables[t]]|
            && Child(t, index) == Table(space, Path(mmu, va)[..i + 1])
            && !(|t.path| == 1 && index in mode.shared)
            && (Child(t, index) in tables <==> Present(mem[tables[t]][index]))
            && (Child(t, index) in tables ==>
                  tables[Child(t, index)] == Page(BaseOf(mem[tables[t]][index], mmu.wordBits)))
            && (Child(t, index) !in tables ==> Table(space, Path(mmu, va)[..mmu.Depth()]) !in tables)
            && (Child(t, index) !in tables && t.path == [] ==> mode.rootFlags == mode.flags && mode.shared == {})
  {
    hide And, Pow2, IndexOf, BaseOf, Present, User, Writable, LargePage, Leaf;
    var path := Path(mmu, va);
    var t, index := Table(space, path[..i]), IndexOf(va, mmu.levels[i]);
    assert path[..i] + [path[i]] == path[..i + 1];
    IndexOfValue(va, mmu.levels[i]);
    assert TableOk(mmu, mem, tables, t) && EntriesOk(mmu, mem, tables, mode, t);
    assert EntryOk(mem, tables, mode, t, index);
    var c := Child(t, index);
    if c in tables {
      assert TableOk(mmu, mem, tables, c);
      EntryFields(tables[c].base, mode.EntryFlags(i), mmu.wordBits);
    } else {
      MissingBelow(mmu, mem, tables, mode, free, space, va, i + 1);
      WordBits(0);
      if i == 0 {
        Pow2Zero();
        assert c == Child(Table(space, []), 0);
      }
    }
  }

  // ---------------------------------------------------------------- the operations on page maps

  lemma UserFlags()
    ensures Or(PTE_W, PTE_U) == 6 && Or(1, 6) == 7
  {
  }

  /** `map` is allowed: a page of the user area, to be unmapped only if mapped and mapped only if not. */
  ghost predicate MapLegal(mmu: Mmu, maps: Maps, space: nat, va: nat, pa: nat, prot: nat)
  {
    && UserPage(mmu, va)
    && pa % 4096 == 0
    && space in maps
    && (prot == 0 <==> va in maps[space])
  }

  /** The page map after `map`: MMAP_NONE removes the page, anything else adds it, writable iff MMAP_WRITE. */
  ghost function MapSpec(maps: Maps, space: nat, va: nat, pa: nat, prot: nat): Maps
    requires space in maps
  {
    var page: map<nat, Frame> :=
      if prot == 0 then maps[space] - {va} else maps[space][va := Frame(pa, And(prot, 2) != 0)];
    maps[space := page]
  }

  lemma UserAreaIsRange(mmu: Mmu, va: nat)
    requires mmu.Valid()
    ensures mmu.InUser(va) <==> mmu.user.start <= va < mmu.user.end
    ensures 12 <= mmu.wordBits
  {
  }

  /** `pa | PTE_P | PTE_U | (write ? PTE_W : 0)`. */
  lemma LeafWord(pa: nat, write: bool)
    requires pa % 4096 == 0
    ensures Or(Or(Or(pa, PTE_P), PTE_U), if write then PTE_W else 0) == Frame(pa, write).Word()
  {
    EntryWord(pa, PTE_U);
    assert Or(1, 4) == 5;
    assert Or(5, 2) == 7;
    assert Or(5, 0) == 5;
    hide Or, Pow2;
    Pow2Values();
    OrLow(pa / 4096, 12, 5, if write then PTE_W else 0);
  }

  /** The tables of the kernel hold the same words. */
  ghost predicate SameKernel(kernel: map<Loc, nat>, mem: Memory, mem': Memory)
  {
    forall l :: l in kernel && l in mem ==> l in mem' && mem'[l] == mem[l]
  }

  lemma KernelKept(mmu: Mmu, mem: Memory, mem': Memory, kernel: map<Loc, nat>, kpt: Loc)
    requires KernelOk(mmu, mem, kernel, kpt)
    requires SameKernel(kernel, mem, mem')
    ensures KernelOk(mmu, mem', kernel, kpt) && kpt in mem && kpt in mem' && mem'[kpt] == mem[kpt]
  {
    hide KernelEntry;
  }

  /** Adding tables does not disturb the state. */
  lemma ExtendsState(mmu: Mmu, mem: Memory, tables: Tables, free: set<nat>, mem': Memory, tables': Tables, free': set<nat>,
                     kernel: map<Loc, nat>, kpt: Loc, maps: Maps, space: nat)
    requires StateOk(mmu, mem, tables, free, kernel, kpt, maps)
    requires Extends(mmu, mem, tables, mem', tables', space)
    requires kpt in mem && Inv(mmu, mem', tables', UserMode(mmu, mem[kpt]), free')
    ensures StateOk(mmu, mem', tables', free', kernel, kpt, maps)
    ensures kpt in mem' && mem'[kpt] == mem[kpt]
    ensures SameKernel(kernel, mem, mem')
  {
    KernelKept(mmu, mem, mem', kernel, kpt);
    hide Leaf, KernelOk, Inv, SharedIndices, UserPage;
  }

  lemma StateFacts(mmu: Mmu, mem: Memory, tables: Tables, free: set<nat>, kernel: map<Loc, nat>, kpt: Loc, maps: Maps)
    requires StateOk(mmu, mem, tables, free, kernel, kpt, maps)
    ensures kpt in mem && mmu.ValidLevels()
    ensures forall s :: s in maps <==> Table(s, []) in tables
  {
    hide KernelEntry, Leaf, Inv;
  }

  /** The leaf entry of a page of the user area, read through the page map. */
  lemma LeafAt(mmu: Mmu, mem: Memory, tables: Tables, mode: Mode, free: set<nat>, maps: Maps, s: nat, va: nat)
    requires mmu.Valid() && Inv(mmu, mem, tables, mode, free) && MapsOk(mmu, mem, tables, maps)
    requires UserPage(mmu, va) && s in maps
    requires Table(s, Path(mmu, va)[..mmu.Depth()]) in tables
    ensures var t, i := Table(s, Path(mmu, va)[..mmu.Depth()]), Path(mmu, va)[mmu.Depth()];
            && TableOk(mmu, mem, tables, t)
            && tables[t] in mem && i < |mem[tables[t]]|
            && mem[tables[t]][i] == MapWord(maps, s, va)
            && (Present(mem[tables[t]][i]) <==> va in maps[s])
  {
    hide And, Pow2, IndexOf, BaseOf, Present, User, Writable, LargePage;
    assert TableOk(mmu, mem, tables, Table(s, Path(mmu, va)[..mmu.Depth()]));
    IndexOfValue(va, mmu.levels[mmu.Depth()]);
    assert Leaf(mmu, mem, tables, s, va) == MapWord(maps, s, va);
    if va in maps[s] {
      var f := maps[s][va];
      EntryFields(f.pa, if f.writable then 7 else 5, mmu.wordBits);
    } else {
      WordBits(0);
    }
  }

  /** A mapped page has all its tables. */
  lemma MappedHasTables(mmu: Mmu, mem: Memory, tables: Tables, mode: Mode, free: set<nat>, maps: Maps, s: nat, va: nat)
    requires mmu.Valid() && Inv(mmu, mem, tables, mode, free) && MapsOk(mmu, mem, tables, maps)
    requires s in maps && va in maps[s]
    ensures Table(s, Path(mmu, va)[..mmu.Depth()]) in tables
  {
    hide And, Pow2, IndexOf;
    assert maps[s][va].Word() > 0;
    assert Leaf(mmu, mem, tables, s, va) == MapWord(maps, s, va);
  }

  /** Writing the leaf of a page is `MapSpec` on the page maps. */
  lemma WriteMaps(mmu: Mmu, mem: Memory, tables: Tables, mode: Mode, free: set<nat>, maps: Maps,
                  s: nat, va: nat, pa: nat, prot: nat)
    requires mmu.Valid() && Inv(mmu, mem, tables, mode, free) && MapsOk(mmu, mem, tables, maps)
    requires MapLegal(mmu, maps, s, va, pa, prot) && PageAddr(pa, mmu.wordBits)
    requires Table(s, Path(mmu, va)[..mmu.Depth()]) in tables
    requires TableOk(mmu, mem, tables, Table(s, Path(mmu, va)[..mmu.Depth()]))
    requires Path(mmu, va)[mmu.Depth()] < |mem[tables[Table(s, Path(mmu, va)[..mmu.Depth()])]]|
    ensures var w := if prot == 0 then 0 else Frame(pa, And(prot, 2) != 0).Word();
            MapsOk(mmu, WriteMem(mem, tables[Table(s, Path(mmu, va)[..mmu.Depth()])], Path(mmu, va)[mmu.Depth()], w),
                   tables, MapSpec(maps, s, va, pa, prot))
  {
    hide And, Pow2, IndexOf, Leaf;
    var w := if prot == 0 then 0 else Frame(pa, And(prot, 2) != 0).Word();
    var mem' := WriteMem(mem, tables[Table(s, Path(mmu, va)[..mmu.Depth()])], Path(mmu, va)[mmu.Depth()], w);
    var maps' := MapSpec(maps, s, va, pa, prot);
    forall s', va' | s' in maps' && LowPage(mmu, va')
      ensures Leaf(mmu, mem', tables, s', va') == MapWord(maps', s', va')
    {
      UserNotShared(mmu, va);
      WriteLeaf(mmu, mem, tables, mode, free, s, va, w, s', va');
      assert Leaf(mmu, mem, tables, s', va') == MapWord(maps, s', va');
    }
  }

  lemma WriteState(mmu: Mmu, mem: Memory, tables: Tables, free: set<nat>, kernel: map<Loc, nat>, kpt: Loc, maps: Maps,
                   s: nat, va: nat, pa: nat, prot: nat, t: Table, i: nat)
    requires StateOk(mmu, mem, tables, free, kernel, kpt, maps)
    requires MapLegal(mmu, maps, s, va, pa, prot) && PageAddr(pa, mmu.wordBits)
    requires t == Table(s, Path(mmu, va)[..mmu.Depth()]) && t in tables && TableOk(mmu, mem, tables, t)
    requires i == Path(mmu, va)[mmu.Depth()] < |mem[tables[t]]|
    ensures var w := if prot == 0 then 0 else Frame(pa, And(prot, 2) != 0).Word();
            var mem' := WriteMem(mem, tables[t], i, w);
            && StateOk(mmu, mem', tables, free, kernel, kpt, MapSpec(maps, s, va, pa, prot))
            && kpt in mem && kpt in mem' && mem'[kpt] == mem[kpt]
            && SameKernel(kernel, mem, mem')
  {
    var w := if prot == 0 then 0 else Frame(pa, And(prot, 2) != 0).Word();
    var mem' := WriteMem(mem, tables[t], i, w);
    KernelKept(mmu, mem, mem', kernel, kpt);
    hide And, Pow2, IndexOf, Leaf, KernelOk, Inv, MapsOk, TableOk;
    WriteInv(mmu, mem, tables, UserMode(mmu, mem[kpt]), free, t, i, w);
    WriteMaps(mmu, mem, tables, UserMode(mmu, mem[kpt]), free, maps, s, va, pa, prot);
  }

  // ---------------------------------------------------------------- a new address space

  /** The level-1 entries starting below the given address of area k, and all of the areas before it. */
  ghost predicate CopiedUpTo(mmu: Mmu, k: nat, limit: nat, i: nat)
    requires mmu.ValidLevels() && k <= |mmu.kernel|
  {
    || (exists j :: 0 <= j < k && mmu.InArea(mmu.kernel[j], i * mmu.Step()))
    || (k < |mmu.kernel| && mmu.kernel[k].start <= i * mmu.Step() < limit)
  }

  /** Stepping `cur` through an area: it does not pass the end, and it is done exactly at the end. */
  lemma AreaStep(mmu: Mmu, a: Area, step: nat, n: nat, cur: nat)
    requires mmu.ValidLevels() && mmu.WholeEntries(a)
    requires step > 0 && mmu.Span(a) % step == 0 && n * step <= mmu.Span(a)
    requires cur == (a.start + n * step) % Pow2(mmu.wordBits)
    ensures cur == a.end <==> n * step == mmu.Span(a)
    ensures cur != a.end ==>
              && cur == a.start + n * step
              && cur + step <= a.start + mmu.Span(a)
              && (n + 1) * step <= mmu.Span(a)
              && (cur + step) % Pow2(mmu.wordBits) == (a.start + (n + 1) * step) % Pow2(mmu.wordBits)
  {
    hide Pow2;
    var top, span := Pow2(mmu.wordBits), mmu.Span(a);
    Pow2Mono(mmu.levels[1].shift + mmu.levels[1].bits, mmu.wordBits);
    EndOfSpan(a.start, a.end, span, top);
    var at := n * step;
    if at < span { StepsInSpan(n, step, span); }
    assert (n + 1) * step == at + step;
    if at != span {
      DivUnique(a.start + at, top, 0, a.start + at);
    }
  }

  lemma StepsInSpan(n: nat, step: nat, span: nat)
    requires step > 0 && span % step == 0 && n * step < span
    ensures (n + 1) * step <= span
  {
    DivRem(span, step);
    MulCancel(n, span / step, step);
    MulMono(n + 1, span / step, step);
  }

  /** `end` is `start + span` with at most one wrap-around. */
  lemma EndOfSpan(start: nat, end: nat, span: nat, top: nat)
    requires top > 0 && start < top && end < top && span == (end - start) % top && start + span <= top
    ensures (start + span) % top == end
    ensures start + span < top ==> end == start + span
    ensures start + span == top ==> end == 0
  {
    if end >= start {
      DivUnique(end - start, top, 0, end - start);
      DivUnique(end, top, 0, end);
    } else {
      DivUnique(end - start, top, -1, end - start + top);
      DivUnique(end + top, top, 1, end);
    }
  }

  /** After one more entry has been copied. */
  lemma CopiedOneMore(mmu: Mmu, k: nat, cur: nat, i: nat)
    requires mmu.ValidLevels() && k < |mmu.kernel| && mmu.WholeEntries(mmu.kernel[k])
    requires mmu.kernel[k].start <= cur && cur % mmu.Step() == 0
    requires cur < Pow2(mmu.levels[1].shift + mmu.levels[1].bits)
    ensures CopiedUpTo(mmu, k, cur + mmu.Step(), i)
       <==> CopiedUpTo(mmu, k, cur, i) || i == IndexOf(cur, mmu.levels[1])
  {
    assert mmu.Depth() >= 1;
    hide Pow2, And, IndexOf, FillsPage, Mmu.ValidLevels, Mmu.WholeEntries, Mmu.InArea;
    RootIndex(mmu, cur);
    NextMultiple(i, IndexOf(cur, mmu.levels[1]), mmu.Step(), cur);
  }

  lemma NextMultiple(i: nat, c: nat, step: nat, cur: nat)
    requires step > 0 && cur == c * step
    ensures i * step < cur + step <==> i * step < cur || i == c
    ensures i == c ==> i * step == cur
  {
    if i < c {
      MulMono(i + 1, c, step);
      assert (i + 1) * step == i * step + step;
    } else if i > c {
      MulMono(c + 1, i, step);
      assert (c + 1) * step == c * step + step;
    }
  }

  /** When an area has been copied completely, the next one starts from nothing. */
  lemma CopiedArea(mmu: Mmu, k: nat, i: nat)
    requires mmu.ValidLevels() && k < |mmu.kernel|
    ensures CopiedUpTo(mmu, k, mmu.kernel[k].start + mmu.Span(mmu.kernel[k]), i)
       <==> CopiedUpTo(mmu, k + 1, if k + 1 < |mmu.kernel| then mmu.kernel[k + 1].start else 0, i)
  {
  }

  /** The root table that `protect` builds: the kernel's entries at the shared indices, zero elsewhere. */
  ghost predicate RootRow(mmu: Mmu, kroot: seq<nat>, row: seq<nat>)
    requires mmu.ValidLevels()
  {
    && |row| == |kroot| == mmu.Slots(1)
    && forall i: nat :: i < |row| ==> row[i] == if i in SharedIndices(mmu) then kroot[i] else 0
  }

  /** The root table after the areas before k and the part of area k below the limit were copied. */
  ghost predicate RowUpTo(mmu: Mmu, k: nat, limit: nat, kroot: seq<nat>, row: seq<nat>)
    requires mmu.ValidLevels() && k <= |mmu.kernel|
  {
    && |row| == |kroot| == mmu.Slots(1)
    && forall i: nat {:trigger row[i]} :: i < |row| ==> row[i] == if CopiedUpTo(mmu, k, limit, i) then kroot[i] else 0
  }

  function AreaStart(mmu: Mmu, k: nat): nat
  {
    if k < |mmu.kernel| then mmu.kernel[k].start else 0
  }

  lemma RowStep(mmu: Mmu, k: nat, cur: nat, kroot: seq<nat>, row: seq<nat>)
    requires mmu.ValidLevels() && k < |mmu.kernel| && mmu.WholeEntries(mmu.kernel[k])
    requires mmu.kernel[k].start <= cur && cur % mmu.Step() == 0
    requires cur < Pow2(mmu.levels[1].shift + mmu.levels[1].bits)
    requires RowUpTo(mmu, k, cur, kroot, row)
    ensures IndexOf(cur, mmu.levels[1]) < |row|
    ensures var i := IndexOf(cur, mmu.levels[1]);
            RowUpTo(mmu, k, cur + mmu.Step(), kroot, row[i := kroot[i]])
  {
    hide Pow2, And, IndexOf, CopiedUpTo;
    RootIndex(mmu, cur);
    var c := IndexOf(cur, mmu.levels[1]);
    var row' := row[c := kroot[c]];
    forall i: nat | i < |row'|
      ensures row'[i] == if CopiedUpTo(mmu, k, cur + mmu.Step(), i) then kroot[i] else 0
    {
      CopiedOneMore(mmu, k, cur, i);
    }
  }

  lemma RowArea(mmu: Mmu, k: nat, kroot: seq<nat>, row: seq<nat>)
    requires mmu.ValidLevels() && k < |mmu.kernel|
    requires RowUpTo(mmu, k, mmu.kernel[k].start + mmu.Span(mmu.kernel[k]), kroot, row)
    ensures RowUpTo(mmu, k + 1, AreaStart(mmu, k + 1), kroot, row)
  {
    hide Pow2;
    forall i: nat | i < |row|
      ensures row[i] == if CopiedUpTo(mmu, k + 1, AreaStart(mmu, k + 1), i) then kroot[i] else 0
    {
      CopiedArea(mmu, k, i);
    }
  }

  lemma RowDone(mmu: Mmu, kroot: seq<nat>, row: seq<nat>)
    requires mmu.ValidLevels() && RowUpTo(mmu, |mmu.kernel|, 0, kroot, row)
    ensures RootRow(mmu, kroot, row)
  {
    hide Pow2;
    forall i: nat | i < |row|
      ensures row[i] == if i in SharedIndices(mmu) then kroot[i] else 0
    {
      assert CopiedUpTo(mmu, |mmu.kernel|, 0, i) <==> mmu.InKernel(i * mmu.Step());
    }
  }

  /** Every table hangs off the `as->ptr` of its space. */
  lemma {:induction false} HasRoot(mmu: Mmu, mem: Memory, tables: Tables, mode: Mode, free: set<nat>, t: Table)
    requires Inv(mmu, mem, tables, mode, free) && t in tables
    ensures Table(t.space, []) in tables
    decreases |t.path|
  {
    assert TableOk(mmu, mem, tables, t);
    if t.path != [] {
      HasRoot(mmu, mem, tables, mode, free, Parent(t));
    }
  }

  ghost function ProtectMem(mem: Memory, s: nat, p: nat, row: seq<nat>): Memory
  {
    mem[Page(p) := row][Cr3(s) := [p + 5]]
  }

  lemma ProtectMemValue(mem: Memory, s: nat, p: nat, zeros: seq<nat>, row: seq<nat>)
    ensures mem[Page(p) := zeros][Page(p) := row][Cr3(s) := [p + 5]] == ProtectMem(mem, s, p, row)
  {
  }

  ghost function ProtectTables(tables: Tables, s: nat, p: nat): Tables
  {
    tables[Table(s, []) := Cr3(s)][Table(s, [0]) := Page(p)]
  }

  lemma ProtectTable(mmu: Mmu, mem: Memory, tables: Tables, mode: Mode, free: set<nat>, s: nat, p: nat, row: seq<nat>, u: Table)
    requires Inv(mmu, mem, tables, mode, free) && mode == UserMode(mmu, mode.kroot)
    requires Table(s, []) !in tables && Cr3(s) !in mem && p in free && RootRow(mmu, mode.kroot, row)
    requires u in ProtectTables(tables, s, p)
    ensures var mem', tables' := ProtectMem(mem, s, p, row), ProtectTables(tables, s, p);
            TableOk(mmu, mem', tables', u) && EntriesOk(mmu, mem', tables', mode, u)
  {
    var mem', tables' := ProtectMem(mem, s, p, row), ProtectTables(tables, s, p);
    Pow2Zero();
    hide And, Pow2, IndexOf, BaseOf, Present, User, Writable, LargePage, SharedIndices;
    if u.space == s && u in tables {
      HasRoot(mmu, mem, tables, mode, free, u);
    }
    if u == Table(s, []) {
      forall j: nat | j < 1
        ensures EntryOk(mem', tables', mode, u, j)
      {
        assert Child(u, 0) == Table(s, [0]);
      }
    } else if u == Table(s, [0]) {
      assert Parent(u) == Table(s, []);
      forall j: nat | j < |row|
        ensures EntryOk(mem', tables', mode, u, j)
      {
        var c := Child(u, j);
        assert |c.path| == 2;
        if c in tables {
          HasRoot(mmu, mem, tables, mode, free, c);
        }
      }
    } else {
      assert TableOk(mmu, mem, tables, u) && EntriesOk(mmu, mem, tables, mode, u);
      if |u.path| < mmu.Depth() {
        forall j: nat | j < |mem'[tables'[u]]|
          ensures EntryOk(mem', tables', mode, u, j)
        {
          assert EntryOk(mem, tables, mode, u, j);
          assert Child(u, j).space != s;
        }
      }
    }
  }

  lemma ProtectInv(mmu: Mmu, mem: Memory, tables: Tables, mode: Mode, free: set<nat>, s: nat, p: nat, row: seq<nat>)
    requires Inv(mmu, mem, tables, mode, free) && mode == UserMode(mmu, mode.kroot)
    requires Table(s, []) !in tables && Cr3(s) !in mem && p in free && RootRow(mmu, mode.kroot, row)
    ensures Inv(mmu, ProtectMem(mem, s, p, row), ProtectTables(tables, s, p), mode, free - {p})
  {
    var mem', tables' := ProtectMem(mem, s, p, row), ProtectTables(tables, s, p);
    hide And, Pow2, IndexOf, BaseOf, Present, User, Writable, LargePage, SharedIndices, TableOk, EntriesOk, Apart, RootRow;
    forall u | u in tables'
      ensures TableOk(mmu, mem', tables', u) && EntriesOk(mmu, mem', tables', mode, u)
    {
      ProtectTable(mmu, mem, tables, mode, free, s, p, row, u);
    }
    forall u, v
      ensures Apart(tables', u, v)
    {
      ProtectApart(mmu, mem, tables, mode, free, s, p, u, v);
    }
    forall q
      ensures Table(q, []) in tables' ==> Child(Table(q, []), 0) in tables'
    {
      assert Child(Table(q, []), 0) == Table(q, [0]);
    }
  }

  lemma ProtectApart(mmu: Mmu, mem: Memory, tables: Tables, mode: Mode, free: set<nat>, s: nat, p: nat, u: Table, v: Table)
    requires Inv(mmu, mem, tables, mode, free)
    requires Table(s, []) !in tables && Cr3(s) !in mem && p in free
    ensures Apart(ProtectTables(tables, s, p), u, v)
  {
    hide And, Pow2, IndexOf, EntriesOk;
    assert Apart(tables, u, v);
    assert u in tables ==> TableOk(mmu, mem, tables, u);
    assert v in tables ==> TableOk(mmu, mem, tables, v);
  }

  /** A new address space maps nothing and leaves the others alone. */
  lemma ProtectMaps(mmu: Mmu, mem: Memory, tables: Tables, mode: Mode, free: set<nat>, maps: Maps, s: nat, p: nat, row: seq<nat>)
    requires Inv(mmu, mem, tables, mode, free) && MapsOk(mmu, mem, tables, maps)
    requires s !in maps && Cr3(s) !in mem && p in free
    ensures MapsOk(mmu, ProtectMem(mem, s, p, row), ProtectTables(tables, s, p), maps[s := map[]])
  {
    var mem', tables', maps' := ProtectMem(mem, s, p, row), ProtectTables(tables, s, p), maps[s := map[]];
    hide And, Pow2, IndexOf, BaseOf, Present, User, Writable, LargePage;
    forall q, va | q in maps' && LowPage(mmu, va)
      ensures Leaf(mmu, mem', tables', q, va) == MapWord(maps', q, va)
    {
      var t := Table(q, Path(mmu, va)[..mmu.Depth()]);
      if t in tables {
        HasRoot(mmu, mem, tables, mode, free, t);
        assert TableOk(mmu, mem, tables, t);
      }
      assert |t.path| == mmu.Depth() >= 2;
      if q != s {
        assert Leaf(mmu, mem, tables, q, va) == MapWord(maps, q, va);
      }
    }
  }

  lemma ProtectState(mmu: Mmu, mem: Memory, tables: Tables, free: set<nat>, kernel: map<Loc, nat>, kpt: Loc, maps: Maps,
                     s: nat, p: nat, row: seq<nat>)
    requires StateOk(mmu, mem, tables, free, kernel, kpt, maps)
    requires s !in maps && Cr3(s) !in mem && p in free && kpt in mem && RootRow(mmu, mem[kpt], row)
    ensures var mem' := ProtectMem(mem, s, p, row);
            && StateOk(mmu, mem', ProtectTables(tables, s, p), free - {p}, kernel, kpt, maps[s := map[]])
            && kpt in mem' && mem'[kpt] == mem[kpt]
            && SameKernel(kernel, mem, mem')
  {
    assert Page(p) !in mem && forall l :: l in kernel ==> l in mem;
    KernelKept(mmu, mem, ProtectMem(mem, s, p, row), kernel, kpt);
    StateFacts(mmu, mem, tables, free, kernel, kpt, maps);
    hide And, Pow2, IndexOf, Leaf, KernelOk, Inv, MapsOk, TableOk, RootRow, SharedIndices;
    ProtectInv(mmu, mem, tables, UserMode(mmu, mem[kpt]), free, s, p, row);
    ProtectMaps(mmu, mem, tables, UserMode(mmu, mem[kpt]), free, maps, s, p, row);
  }

  lemma MultipleStep(start: nat, n: nat, s: nat)
    requires s > 0 && start % s == 0
    ensures (start + n * s) % s == 0
  {
    DivRem(start, s);
    assert (start / s + n) * s == start / s * s + n * s;
    DivUnique(start + n * s, s, start / s + n, 0);
  }

  lemma InvFacts(mmu: Mmu, mem: Memory, tables: Tables, mode: Mode, free: set<nat>)
    requires Inv(mmu, mem, tables, mode, free)
    ensures forall q :: q in free ==> PageAddr(q, mmu.wordBits) && Page(q) !in mem
    ensures |mode.kroot| == mmu.Slots(1)
  {
  }

  /** What `protect` finds. */
  lemma BeforeProtect(mmu: Mmu, mem: Memory, tables: Tables, free: set<nat>, kernel: map<Loc, nat>, kpt: Loc, maps: Maps)
    requires StateOk(mmu, mem, tables, free, kernel, kpt, maps)
    ensures mmu.Valid() && kpt in mem && |mem[kpt]| == mmu.Slots(1)
    ensures forall q :: q in free ==> PageAddr(q, mmu.wordBits) && Page(q) !in mem
  {
    StateFacts(mmu, mem, tables, free, kernel, kpt, maps);
    InvFacts(mmu, mem, tables, UserMode(mmu, mem[kpt]), free);
  }

  /** The state after `protect` has filled the new root and written `as->ptr`. */
  lemma Protected(mmu: Mmu, mem: Memory, tables: Tables, free: set<nat>, kernel: map<Loc, nat>, kpt: Loc, maps: Maps,
                  handed: set<nat>, s: nat, p: nat, row: seq<nat>, mem': Memory)
    requires StateOk(mmu, mem, tables, free, kernel, kpt, maps) && HandedOk(mmu, mem, free, handed)
    requires s !in maps && Cr3(s) !in mem && p in free && kpt in mem && RootRow(mmu, mem[kpt], row)
    requires p % 4096 == 0 && mem' == mem[Page(p) := row][Cr3(s) := [Or(Or(p, PTE_P), PTE_U)]]
    ensures StateOk(mmu, mem', ProtectTables(tables, s, p), free - {p}, kernel, kpt, maps[s := map[]])
    ensures HandedOk(mmu, mem', free - {p}, handed)
    ensures TablePages(mem') + (free - {p}) == TablePages(mem) + free
    ensures kpt in mem' && mem'[kpt] == mem[kpt]
    ensures SameKernel(kernel, mem, mem')
  {
    hide StateOk, RootRow, Or, PageAddr, TablePages;
    forall q ensures q in TablePages(mem') <==> q in TablePages(mem) || q == p {
      assert Page(q) in mem' <==> Page(q) in mem || q == p;
    }
    EntryWord(p, PTE_U);
    RootWord();
    ProtectMemValue(mem, s, p, [], row);
    assert mem' == ProtectMem(mem, s, p, row);
    ProtectState(mmu, mem, tables, free, kernel, kpt, maps, s, p, row);
  }

  lemma RootWord()
    ensures Or(1, PTE_U) == 5
  {
  }
}
