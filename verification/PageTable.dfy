/**
 The format side of abstract-machine/am/src/x86/qemu/vme.c: the `mmu` table, the words stored in
 page tables and the hardware walk that reads them (sections 4.3 and 4.5 of the Intel SDM, Volume 3A).
 Everything is generic in the table, so it covers the 2-level and the 4-level configuration.
 */
module PageTable {
  import opened Bits

  const PTE_P := 0x001
  const PTE_W := 0x002
  const PTE_U := 0x004
  const PTE_PS := 0x080

  /** One row of `mmu.pgtables`; `large` says whether the hardware honours PTE_PS at this level. */
  datatype Level = Level(shift: nat, bits: nat, large: bool)

  /** An address range; the end may have wrapped around to 0. */
  datatype Area = Area(start: nat, end: nat)

  /** A table of 2^bits words takes exactly one page. */
  predicate FillsPage(bits: nat, wordBits: nat)
  {
    Pow2(bits) * (wordBits / 8) == 4096
  }

  /** The `mmu` table with the word size and the `vm_areas` of the same configuration. */
  datatype Mmu = Mmu(levels: seq<Level>, wordBits: nat, user: Area, kernel: seq<Area>)
  {
    /** `ptlevels`. */
    function Depth(): int
    {
      |levels| - 1
    }

    function Step(): nat
      requires Depth() >= 1
    {
      Pow2(levels[1].shift)
    }

    /** Number of words of a table at the given level; level 0 is the cell `as->ptr`. */
    function Slots(level: nat): nat
      requires level <= Depth()
    {
      Pow2(levels[level].bits)
    }

    /** The number of words in a page, `pgsize / sizeof(uintptr_t)`. */
    function PageWords(): nat
      requires wordBits >= 8
    {
      4096 / (wordBits / 8)
    }

    /** Length of an area, `end - start` in unsigned arithmetic. */
    function Span(a: Area): nat
    {
      (a.end - a.start) % Pow2(wordBits)
    }

    ghost predicate ValidLevels()
    {
      && Depth() >= 2
      && levels[0] == Level(0, 0, false)
      && levels[Depth()].shift == 12
      && (forall i :: 1 <= i < Depth() ==> levels[i].shift == levels[i + 1].shift + levels[i + 1].bits)
      && (forall i :: 1 <= i <= Depth() ==> 1 <= levels[i].bits && FillsPage(levels[i].bits, wordBits))
      && 12 <= levels[1].shift
      && levels[1].shift + levels[1].bits <= wordBits
    }

    /** Areas are made of whole level-1 entries and do not run past the address space. */
    ghost predicate WholeEntries(a: Area)
      requires Depth() >= 1
    {
      && a.start < Pow2(wordBits) && a.end < Pow2(wordBits)
      && a.start % Step() == 0
      && Span(a) % Step() == 0
      && a.start + Span(a) <= Pow2(levels[1].shift + levels[1].bits)
    }

    ghost predicate InArea(a: Area, va: nat)
    {
      a.start <= va < a.start + Span(a)
    }

    ghost predicate InUser(va: nat)
    {
      InArea(user, va)
    }

    ghost predicate InKernel(va: nat)
    {
      exists k :: 0 <= k < |kernel| && InArea(kernel[k], va)
    }

    ghost predicate Valid()
    {
      && ValidLevels()
      && WholeEntries(user)
      && user.start + Span(user) == user.end
      && (forall k :: 0 <= k < |kernel| ==> WholeEntries(kernel[k]))
      && (forall k :: 0 <= k < |kernel| ==>
            user.end <= kernel[k].start || kernel[k].start + Span(kernel[k]) <= user.start)
    }
  }

  /** Every table is one page long. */
  lemma FullPage(mmu: Mmu, level: nat)
    requires mmu.ValidLevels() && 1 <= level <= mmu.Depth()
    ensures mmu.wordBits >= 8 && mmu.Slots(level) == mmu.PageWords()
  {
    assert FillsPage(mmu.levels[level].bits, mmu.wordBits);
    hide Pow2;
    var n, b := mmu.Slots(level), mmu.wordBits / 8;
    DivUnique(4096, b, n, 0);
  }

  // ---------------------------------------------------------------- words

  predicate Present(w: nat) { And(w, PTE_P) != 0 }
  predicate Writable(w: nat) { And(w, PTE_W) != 0 }
  predicate User(w: nat) { And(w, PTE_U) != 0 }
  predicate LargePage(w: nat) { And(w, PTE_PS) != 0 }

  /** `baseof`: `addr & ~(pgsize - 1)` in words of the given size. */
  function BaseOf(addr: nat, wordBits: nat): nat
    requires wordBits >= 12
  {
    And(addr, (Pow2(wordBits - 12) - 1) * Pow2(12))
  }

  ghost predicate PageAddr(a: nat, wordBits: nat)
  {
    a % 4096 == 0 && a < Pow2(wordBits)
  }

  lemma WordBits(w: nat)
    ensures Present(w) <==> w % 2 == 1
    ensures Writable(w) <==> w / 2 % 2 == 1
    ensures User(w) <==> w / 4 % 2 == 1
    ensures LargePage(w) <==> w / 128 % 2 == 1
  {
    hide And;
    Pow2Values();
    assert Pow2(7) == 128 && Pow2(0) == 1;
    AndMask(w, 0, 1);
    AndMask(w, 1, 1);
    AndMask(w, 2, 1);
    AndMask(w, 7, 1);
  }

  lemma BaseOfValue(addr: nat, wordBits: nat)
    requires wordBits >= 12 && addr < Pow2(wordBits)
    ensures BaseOf(addr, wordBits) == addr - addr % 4096
    ensures PageAddr(BaseOf(addr, wordBits), wordBits)
  {
    hide And, Pow2;
    assert Pow2(12) == 4096 by { Pow2Values(); }
    AndMask(addr, 12, wordBits - 12);
    Pow2Add(wordBits - 12, 12);
    PageBase(addr, Pow2(wordBits - 12));
  }

  lemma PageBase(addr: nat, p: nat)
    requires addr < p * 4096
    ensures p > 0 && addr / 4096 % p * 4096 == addr - addr % 4096
  {
    DivLess(addr, 4096, p);
    DivUnique(addr / 4096, p, 0, addr / 4096);
  }

  /** A page address with low flag bits: all fields can be read back. */
  lemma EntryFields(base: nat, f: nat, wordBits: nat)
    requires wordBits >= 12 && PageAddr(base, wordBits) && f < 8
    ensures base + f < Pow2(wordBits)
    ensures BaseOf(base + f, wordBits) == base
    ensures Present(base + f) <==> f % 2 == 1
    ensures Writable(base + f) <==> f / 2 % 2 == 1
    ensures User(base + f) <==> f / 4 == 1
    ensures !LargePage(base + f)
  {
    hide And, Pow2, BaseOf;
    assert base + f < Pow2(wordBits) by {
      Pow2Add(wordBits - 12, 12);
      Pow2Values();
      BelowNextPage(base, f, Pow2(wordBits - 12));
    }
    BaseOfValue(base + f, wordBits);
    WordBits(base + f);
    LowFields(base / 4096, f);
  }

  lemma BelowNextPage(base: nat, f: nat, p: nat)
    requires base % 4096 == 0 && base < p * 4096 && f < 4096
    ensures base + f < p * 4096
  {
    assert base / 4096 < p;
  }

  lemma LowFields(k: nat, f: nat)
    requires f < 8
    ensures var w := 4096 * k + f;
            w % 2 == f % 2 && w / 2 % 2 == f / 2 % 2 && w / 4 % 2 == f / 4 && w / 128 % 2 == 0 && w % 4096 == f
  {
    var w := 4096 * k + f;
    FieldBit(k, f, 1, 2048);
    FieldBit(k, f, 2, 1024);
    FieldBit(k, f, 4, 512);
    FieldBit(k, f, 128, 16);
    DivUnique(w, 4096, k, f);
  }

  /** Bit d of a page address plus a small offset is bit d of the offset. */
  lemma FieldBit(k: nat, f: nat, d: nat, m: nat)
    requires d > 0 && 2 * m * d == 4096
    ensures (4096 * k + f) / d % 2 == f / d % 2
  {
    var w := 4096 * k + f;
    DivRem(f, d);
    assert 2 * m * k * d == 4096 * k by { assert 2 * m * k * d == 2 * m * d * k; }
    assert (2 * m * k + f / d) * d == 2 * m * k * d + f / d * d;
    DivUnique(w, d, 2 * m * k + f / d, f % d);
    var mk := m * k;
    assert 2 * m * k == 2 * mk;
    DivUnique(2 * mk + f / d, 2, mk + f / d / 2, f / d % 2);
  }

  /** `page | PTE_P | flags` is the sum of its parts. */
  lemma EntryWord(base: nat, f: nat)
    requires base % 4096 == 0 && f < 8
    ensures Or(Or(base, PTE_P), f) == base + Or(1, f)
    ensures Or(1, f) == (if f % 2 == 0 then f + 1 else f)
  {
    OrHalves(1, f);
    assert Or(0, f / 2) == f / 2;
    hide *;
    Pow2Values();
    OrDisjoint(base / 4096, 12, 1);
    OrLow(base / 4096, 12, 1, f);
  }

  // ---------------------------------------------------------------- indices

  function Shr(x: nat, k: nat): nat
  {
    DivGeq(x, Pow2(k), 0);
    x / Pow2(k)
  }

  /** `indexof`. */
  function IndexOf(va: nat, level: Level): nat
  {
    Shr(And(va, (Pow2(level.bits) - 1) * Pow2(level.shift)), level.shift)
  }

  lemma IndexOfValue(va: nat, level: Level)
    ensures IndexOf(va, level) == va / Pow2(level.shift) % Pow2(level.bits)
    ensures 0 <= IndexOf(va, level) < Pow2(level.bits)
  {
    hide And;
    AndMask(va, level.shift, level.bits);
    var i := va / Pow2(level.shift) % Pow2(level.bits);
    DivRem(va / Pow2(level.shift), Pow2(level.bits));
    DivUnique(i * Pow2(level.shift), Pow2(level.shift), i, 0);
  }

  /** The index at every level, from `as->ptr` (always 0) down to the last table. */
  function Path(mmu: Mmu, va: nat): (p: seq<nat>)
    ensures |p| == |mmu.levels|
    ensures forall i :: 0 <= i < |p| ==> p[i] == IndexOf(va, mmu.levels[i])
  {
    seq(|mmu.levels|, i requires 0 <= i < |mmu.levels| => IndexOf(va, mmu.levels[i]))
  }

  /** va / 2^shift at level i, rebuilt from the indices above. */
  lemma {:induction false} PathPrefix(mmu: Mmu, u: nat, v: nat, i: nat)
    requires mmu.ValidLevels() && 1 <= i <= mmu.Depth()
    requires u < Pow2(mmu.levels[1].shift + mmu.levels[1].bits)
    requires v < Pow2(mmu.levels[1].shift + mmu.levels[1].bits)
    requires forall j :: 1 <= j <= i ==> IndexOf(u, mmu.levels[j]) == IndexOf(v, mmu.levels[j])
    ensures u / Pow2(mmu.levels[i].shift) == v / Pow2(mmu.levels[i].shift)
  {
    hide FillsPage;
    var l := mmu.levels[i];
    IndexOfValue(u, l);
    IndexOfValue(v, l);
    if i == 1 {
      Pow2Add(l.bits, l.shift);
      TopIndex(u, v, Pow2(l.shift), Pow2(l.bits));
    } else {
      PathPrefix(mmu, u, v, i - 1);
      Pow2Add(l.shift, l.bits);
      NextIndex(u, v, Pow2(l.shift), Pow2(l.bits));
    }
  }

  lemma TopIndex(u: nat, v: nat, p: nat, b: nat)
    requires p > 0 && b > 0 && u < b * p && v < b * p && u / p % b == v / p % b
    ensures u / p == v / p
  {
    DivLess(u, p, b);
    DivLess(v, p, b);
    DivGeq(u, p, 0);
    DivGeq(v, p, 0);
    DivUnique(u / p, b, 0, u / p);
    DivUnique(v / p, b, 0, v / p);
  }

  lemma NextIndex(u: nat, v: nat, p: nat, b: nat)
    requires p > 0 && b > 0 && p * b > 0 && u / (p * b) == v / (p * b) && u / p % b == v / p % b
    ensures u / p == v / p
  {
    DivDiv(u, p, b);
    DivDiv(v, p, b);
    DivRem(u / p, b);
    DivRem(v / p, b);
  }

  /** Two page addresses with the same path are the same page. */
  lemma PathInjective(mmu: Mmu, u: nat, v: nat)
    requires mmu.ValidLevels()
    requires u < Pow2(mmu.levels[1].shift + mmu.levels[1].bits) && u % 4096 == 0
    requires v < Pow2(mmu.levels[1].shift + mmu.levels[1].bits) && v % 4096 == 0
    requires Path(mmu, u) == Path(mmu, v)
    ensures u == v
  {
    forall j | 1 <= j <= mmu.Depth()
      ensures IndexOf(u, mmu.levels[j]) == IndexOf(v, mmu.levels[j])
    {
      assert Path(mmu, u)[j] == Path(mmu, v)[j];
    }
    PathPrefix(mmu, u, v, mmu.Depth());
    Pow2Values();
  }

  // ---------------------------------------------------------------- hardware walk

  /** Where a table lives: the cell `as->ptr` of an address space, or a page. */
  datatype Loc = Cr3(space: nat) | Page(base: nat)

  type Memory = map<Loc, seq<nat>>

  /** The outcome of a walk; Wild means that the walk left the memory that holds page tables. */
  datatype Translation = Fault | Wild | To(frame: nat, user: bool, writable: bool)

  /**
   The walk from a table at the given level. An access is a user (write) access only if every
   entry on the way allows it.
   */
  function HwFrom(mmu: Mmu, mem: Memory, loc: Loc, level: nat, va: nat, user: bool, writable: bool): Translation
    requires mmu.wordBits >= 12 && 1 <= level <= mmu.Depth()
    decreases mmu.Depth() - level
  {
    var i := IndexOf(va, mmu.levels[level]);
    if loc !in mem || i >= |mem[loc]| then Wild else
    var w := mem[loc][i];
    var base := BaseOf(w, mmu.wordBits);
    if !Present(w) then Fault
    else if level == mmu.Depth() || (mmu.levels[level].large && LargePage(w)) then
      To(base, user && User(w), writable && Writable(w))
    else
      HwFrom(mmu, mem, Page(base), level + 1, va, user && User(w), writable && Writable(w))
  }

  /** One level of the hardware walk. */
  lemma HwStep(mmu: Mmu, mem: Memory, loc: Loc, level: nat, va: nat, user: bool, writable: bool, w: nat)
    requires mmu.wordBits >= 12 && 1 <= level < mmu.Depth() && loc in mem
    requires 0 <= IndexOf(va, mmu.levels[level]) < |mem[loc]| && w == mem[loc][IndexOf(va, mmu.levels[level])]
    ensures HwFrom(mmu, mem, loc, level, va, user, writable) ==
            if !Present(w) then Fault
            else if mmu.levels[level].large && LargePage(w) then
              To(BaseOf(w, mmu.wordBits), user && User(w), writable && Writable(w))
            else
              HwFrom(mmu, mem, Page(BaseOf(w, mmu.wordBits)), level + 1, va, user && User(w), writable && Writable(w))
  {
    hide Pow2, And, IndexOf, BaseOf, Present, User, Writable, LargePage;
  }

  /** The last level. */
  lemma HwLast(mmu: Mmu, mem: Memory, loc: Loc, va: nat, user: bool, writable: bool, w: nat)
    requires mmu.wordBits >= 12 && 1 <= mmu.Depth() && loc in mem
    requires 0 <= IndexOf(va, mmu.levels[mmu.Depth()]) < |mem[loc]| && w == mem[loc][IndexOf(va, mmu.levels[mmu.Depth()])]
    ensures HwFrom(mmu, mem, loc, mmu.Depth(), va, user, writable) ==
            if !Present(w) then Fault else To(BaseOf(w, mmu.wordBits), user && User(w), writable && Writable(w))
  {
    hide Pow2, And, IndexOf, BaseOf, Present, User, Writable, LargePage;
  }

  /** The walk that starts at a CR3 value, whose low bits are not consulted. */
  function HwWalk(mmu: Mmu, mem: Memory, cr3: nat, va: nat): Translation
    requires mmu.wordBits >= 12 && 1 <= mmu.Depth()
  {
    HwFrom(mmu, mem, Page(BaseOf(cr3, mmu.wordBits)), 1, va, true, true)
  }
}
