/**
 The invariant that ties the words of all page tables to a finite tree of tables per address space,
 and what the two elementary updates (adding a table, writing a leaf) do to it.
 */
module VmeInvariant {
  import opened Bits
  import opened Common
  import opened PageTable

  /** A table of an address space, named by the indices that lead to it from `as->ptr`. */
  datatype Table = Table(space: nat, path: seq<nat>)

  function Child(t: Table, i: nat): Table
  {
    Table(t.space, t.path + [i])
  }

  function Parent(t: Table): Table
    requires t.path != []
  {
    Table(t.space, t.path[..|t.path| - 1])
  }

  type Tables = map<Table, Loc>

  /**
   The flags of intermediate entries (and of `as->ptr`), and the root entries that are shared with
   the kernel: their indices and the contents of the kernel's root table.
   */
  datatype Mode = Mode(flags: nat, rootFlags: nat, shared: set<nat>, kroot: seq<nat>)
  {
    function EntryFlags(level: nat): nat
    {
      if level == 0 then rootFlags else flags
    }

    ghost predicate Valid(mmu: Mmu)
      requires mmu.ValidLevels()
    {
      && flags < 8 && rootFlags < 8 && flags % 2 == 1 && rootFlags % 2 == 1
      && flags / 2 % 2 == 1
      && rootFlags / 4 == flags / 4
      && (rootFlags == flags ==> shared == {})
      && |kroot| == mmu.Slots(1)
      && forall i :: i in shared ==> 0 <= i < |kroot| && kroot[i] < Pow2(mmu.wordBits) && !User(kroot[i])
    }
  }

  ghost predicate TableOk(mmu: Mmu, mem: Memory, tables: Tables, t: Table)
    requires mmu.ValidLevels() && t in tables
  {
    && |t.path| <= mmu.Depth()
    && tables[t] in mem
    && |mem[tables[t]]| == mmu.Slots(|t.path|)
    && (t.path == [] ==> tables[t] == Cr3(t.space))
    && (t.path != [] ==>
          && tables[t].Page?
          && PageAddr(tables[t].base, mmu.wordBits)
          && Parent(t) in tables
          && t.path[|t.path| - 1] < mmu.Slots(|t.path| - 1))
  }

  /** An intermediate entry leads to a table, is shared with the kernel, or is empty. */
  ghost predicate EntryOk(mem: Memory, tables: Tables, mode: Mode, t: Table, i: nat)
    requires t in tables && tables[t] in mem && i < |mem[tables[t]]|
  {
    var w, c := mem[tables[t]][i], Child(t, i);
    var isShared := |t.path| == 1 && i in mode.shared;
    if c in tables then
      tables[c].Page? && w == tables[c].base + mode.EntryFlags(|t.path|) && !isShared
    else if isShared then
      i < |mode.kroot| && w == mode.kroot[i]
    else
      w == 0
  }

  ghost predicate EntriesOk(mmu: Mmu, mem: Memory, tables: Tables, mode: Mode, t: Table)
    requires mmu.ValidLevels() && t in tables && TableOk(mmu, mem, tables, t)
  {
    |t.path| < mmu.Depth() ==>
      forall i: nat {:trigger EntryOk(mem, tables, mode, t, i)} ::
        i < |mem[tables[t]]| ==> EntryOk(mem, tables, mode, t, i)
  }

  ghost predicate Apart(tables: Tables, t: Table, u: Table)
  {
    t in tables && u in tables && tables[t] == tables[u] ==> t == u
  }

  /** No page is used for two tables. */
  ghost predicate Injective(tables: Tables)
  {
    forall t, u {:trigger Apart(tables, t, u)} :: Apart(tables, t, u)
  }

  ghost predicate Inv(mmu: Mmu, mem: Memory, tables: Tables, mode: Mode, free: set<nat>)
  {
    && mmu.ValidLevels()
    && mode.Valid(mmu)
    && (forall t {:trigger TableOk(mmu, mem, tables, t)} :: t in tables ==> TableOk(mmu, mem, tables, t))
    && (forall t {:trigger EntriesOk(mmu, mem, tables, mode, t)} ::
          t in tables ==> TableOk(mmu, mem, tables, t) && EntriesOk(mmu, mem, tables, mode, t))
    && Injective(tables)
    && (forall p :: p in free ==> PageAddr(p, mmu.wordBits) && Page(p) !in mem)
    && (mode.rootFlags != mode.flags ==> forall s {:trigger Child(Table(s, []), 0)} ::
          Table(s, []) in tables ==> Child(Table(s, []), 0) in tables)
  }

  /** The word that maps a page in an address space; 0 when some table on the way is missing. */
  ghost function Leaf(mmu: Mmu, mem: Memory, tables: Tables, s: nat, va: nat): nat
    requires mmu.ValidLevels()
  {
    var p := Path(mmu, va);
    var t := Table(s, p[..mmu.Depth()]);
    if t in tables && tables[t] in mem && p[mmu.Depth()] < |mem[tables[t]]|
    then mem[tables[t]][p[mmu.Depth()]] else 0
  }

  // ---------------------------------------------------------------- adding a table

  ghost function GrowMem(mmu: Mmu, mem: Memory, tables: Tables, mode: Mode, t: Table, i: nat, p: nat): Memory
    requires mmu.ValidLevels() && t in tables && |t.path| < mmu.Depth()
    requires tables[t] in mem && i < |mem[tables[t]]|
  {
    mem[Page(p) := Repeat<nat>(0, mmu.Slots(|t.path| + 1))]
       [tables[t] := mem[tables[t]][i := p + mode.EntryFlags(|t.path|)]]
  }

  /** Adding a zeroed table behind an empty entry keeps the invariant. */
  lemma GrowInv(mmu: Mmu, mem: Memory, tables: Tables, mode: Mode, free: set<nat>, t: Table, i: nat, p: nat)
    requires Inv(mmu, mem, tables, mode, free)
    requires t in tables && TableOk(mmu, mem, tables, t) && |t.path| < mmu.Depth() && i < |mem[tables[t]]|
    requires Child(t, i) !in tables && !(|t.path| == 1 && i in mode.shared)
    requires t.path == [] ==> mode.shared == {}
    requires p in free
    ensures Inv(mmu, GrowMem(mmu, mem, tables, mode, t, i, p), tables[Child(t, i) := Page(p)], mode, free - {p})
  {
    hide And, Pow2, IndexOf, BaseOf, Present, User, Writable, LargePage;
    var mem' := GrowMem(mmu, mem, tables, mode, t, i, p);
    var c := Child(t, i);
    var tables' := tables[c := Page(p)];
    assert Parent(c) == t;
    assert TableOk(mmu, mem, tables, t);
    forall u, v
      ensures Apart(tables', u, v)
    {
      assert Apart(tables, u, v);
      if u in tables {
        assert TableOk(mmu, mem, tables, u);
      }
      if v in tables {
        assert TableOk(mmu, mem, tables, v);
      }
    }
    forall u | u in tables'
      ensures TableOk(mmu, mem', tables', u)
      ensures EntriesOk(mmu, mem', tables', mode, u)
    {
      GrowTable(mmu, mem, tables, mode, free, t, i, p, u);
    }
  }

  lemma GrowChild(mmu: Mmu, mem: Memory, tables: Tables, mode: Mode, free: set<nat>, t: Table, i: nat, p: nat)
    requires Inv(mmu, mem, tables, mode, free)
    requires t in tables && TableOk(mmu, mem, tables, t) && |t.path| < mmu.Depth() && i < |mem[tables[t]]|
    requires Child(t, i) !in tables
    requires t.path == [] ==> mode.shared == {}
    requires p in free
    ensures var mem', tables' := GrowMem(mmu, mem, tables, mode, t, i, p), tables[Child(t, i) := Page(p)];
            TableOk(mmu, mem', tables', Child(t, i)) && EntriesOk(mmu, mem', tables', mode, Child(t, i))
  {
    hide And, Pow2, IndexOf, BaseOf, Present, User, Writable, LargePage;
    var mem' := GrowMem(mmu, mem, tables, mode, t, i, p);
    var c := Child(t, i);
    var tables' := tables[c := Page(p)];
    assert Parent(c) == t;
    forall j: nat | j < |mem'[tables'[c]]|
      ensures EntryOk(mem', tables', mode, c, j)
    {
      assert Parent(Child(c, j)) == c;
      assert Child(c, j) in tables ==> TableOk(mmu, mem, tables, Child(c, j));
      assert Child(c, j).path != c.path;
    }
  }

  lemma GrowTable(mmu: Mmu, mem: Memory, tables: Tables, mode: Mode, free: set<nat>, t: Table, i: nat, p: nat, u: Table)
    requires Inv(mmu, mem, tables, mode, free)
    requires t in tables && TableOk(mmu, mem, tables, t) && |t.path| < mmu.Depth() && i < |mem[tables[t]]|
    requires Child(t, i) !in tables && !(|t.path| == 1 && i in mode.shared)
    requires t.path == [] ==> mode.shared == {}
    requires p in free
    requires u in tables || u == Child(t, i)
    ensures var mem', tables' := GrowMem(mmu, mem, tables, mode, t, i, p), tables[Child(t, i) := Page(p)];
            TableOk(mmu, mem', tables', u) && EntriesOk(mmu, mem', tables', mode, u)
  {
    hide And, Pow2, IndexOf, BaseOf, Present, User, Writable, LargePage;
    var mem' := GrowMem(mmu, mem, tables, mode, t, i, p);
    var c := Child(t, i);
    var tables' := tables[c := Page(p)];
    assert Parent(c) == t;
    assert TableOk(mmu, mem, tables, t);
    if u == c {
      GrowChild(mmu, mem, tables, mode, free, t, i, p);
    } else {
      assert TableOk(mmu, mem, tables, u) && EntriesOk(mmu, mem, tables, mode, u);
      assert Apart(tables, t, u);
      assert mem'[tables[u]] == if u == t then mem[tables[t]][i := p + mode.EntryFlags(|t.path|)] else mem[tables[u]];
      if |u.path| < mmu.Depth() {
        forall j: nat | j < |mem'[tables'[u]]|
          ensures EntryOk(mem', tables', mode, u, j)
        {
          assert EntryOk(mem, tables, mode, u, j);
          GrowEntry(mem, tables, mem', mode, t, i, p, u, j);
        }
      }
    }
  }

  /** The entry that leads to the new table is the only one that changes. */
  lemma GrowEntry(mem: Memory, tables: Tables, mem': Memory, mode: Mode, t: Table, i: nat, p: nat, u: Table, j: nat)
    requires t in tables && u in tables && tables[t] in mem && tables[u] in mem && tables[u] in mem'
    requires i < |mem[tables[t]]| && j < |mem[tables[u]]| && Child(t, i) !in tables
    requires mem'[tables[u]] == if u == t then mem[tables[t]][i := p + mode.EntryFlags(|t.path|)] else mem[tables[u]]
    requires EntryOk(mem, tables, mode, u, j) && !(|t.path| == 1 && i in mode.shared)
    ensures EntryOk(mem', tables[Child(t, i) := Page(p)], mode, u, j)
  {
    assert Parent(Child(u, j)) == u && Child(u, j).path[|u.path|] == j;
    assert Parent(Child(t, i)) == t && Child(t, i).path[|t.path|] == i;
    assert Child(u, j) == Child(t, i) <==> u == t && j == i;
  }

  /** A zeroed table does not change what any page is mapped to. */
  lemma GrowLeaf(mmu: Mmu, mem: Memory, tables: Tables, mode: Mode, free: set<nat>, t: Table, i: nat, p: nat, s: nat, va: nat)
    requires Inv(mmu, mem, tables, mode, free)
    requires t in tables && TableOk(mmu, mem, tables, t) && |t.path| < mmu.Depth() && i < |mem[tables[t]]|
    requires Child(t, i) !in tables && p in free
    ensures Leaf(mmu, GrowMem(mmu, mem, tables, mode, t, i, p), tables[Child(t, i) := Page(p)], s, va)
         == Leaf(mmu, mem, tables, s, va)
  {
    hide And, Pow2, IndexOf, BaseOf, Present, User, Writable, LargePage;
    var u := Table(s, Path(mmu, va)[..mmu.Depth()]);
    if u in tables {
      assert TableOk(mmu, mem, tables, u);
      assert Apart(tables, t, u);
    }
  }

  // ---------------------------------------------------------------- writing a leaf

  ghost function WriteMem(mem: Memory, loc: Loc, i: nat, w: nat): Memory
    requires loc in mem && i < |mem[loc]|
  {
    var row: seq<nat> := mem[loc][i := w];
    mem[loc := row]
  }

  lemma WriteInv(mmu: Mmu, mem: Memory, tables: Tables, mode: Mode, free: set<nat>, t: Table, i: nat, w: nat)
    requires Inv(mmu, mem, tables, mode, free)
    requires t in tables && TableOk(mmu, mem, tables, t) && |t.path| == mmu.Depth() && i < |mem[tables[t]]|
    ensures Inv(mmu, WriteMem(mem, tables[t], i, w), tables, mode, free)
  {
    hide And, Pow2, IndexOf, BaseOf, Present, User, Writable, LargePage;
    var mem' := WriteMem(mem, tables[t], i, w);
    forall u | u in tables
      ensures TableOk(mmu, mem', tables, u) && EntriesOk(mmu, mem', tables, mode, u)
    {
      WriteTable(mmu, mem, tables, mode, free, t, i, w, u);
    }
  }

  lemma WriteTable(mmu: Mmu, mem: Memory, tables: Tables, mode: Mode, free: set<nat>, t: Table, i: nat, w: nat, u: Table)
    requires Inv(mmu, mem, tables, mode, free)
    requires t in tables && TableOk(mmu, mem, tables, t) && |t.path| == mmu.Depth() && i < |mem[tables[t]]|
    requires u in tables
    ensures var mem' := WriteMem(mem, tables[t], i, w);
            TableOk(mmu, mem', tables, u) && EntriesOk(mmu, mem', tables, mode, u)
  {
    hide And, Pow2, IndexOf, BaseOf, Present, User, Writable, LargePage;
    var mem' := WriteMem(mem, tables[t], i, w);
    assert TableOk(mmu, mem, tables, u) && EntriesOk(mmu, mem, tables, mode, u);
    if |u.path| < mmu.Depth() {
      assert Apart(tables, t, u);
      assert mem'[tables[u]] == mem[tables[u]];
      forall j: nat | j < |mem'[tables[u]]|
        ensures EntryOk(mem', tables, mode, u, j)
      {
        assert EntryOk(mem, tables, mode, u, j);
      }
    }
  }

  /** Writing the leaf of one page changes the mapping of that page of that space and no other. */
  lemma WriteLeaf(mmu: Mmu, mem: Memory, tables: Tables, mode: Mode, free: set<nat>, s: nat, va: nat, w: nat, s': nat, va': nat)
    requires Inv(mmu, mem, tables, mode, free)
    requires Table(s, Path(mmu, va)[..mmu.Depth()]) in tables
    requires va < Pow2(mmu.levels[1].shift + mmu.levels[1].bits) && va % 4096 == 0
    requires va' < Pow2(mmu.levels[1].shift + mmu.levels[1].bits) && va' % 4096 == 0
    ensures var t := Table(s, Path(mmu, va)[..mmu.Depth()]);
            var i := Path(mmu, va)[mmu.Depth()];
            && tables[t] in mem && i < |mem[tables[t]]|
            && Leaf(mmu, WriteMem(mem, tables[t], i, w), tables, s', va')
               == if s == s' && va == va' then w else Leaf(mmu, mem, tables, s', va')
  {
    hide And, Pow2, IndexOf, BaseOf, Present, User, Writable, LargePage;
    var p, p' := Path(mmu, va), Path(mmu, va');
    var t, t' := Table(s, p[..mmu.Depth()]), Table(s', p'[..mmu.Depth()]);
    assert TableOk(mmu, mem, tables, t);
    IndexOfValue(va, mmu.levels[mmu.Depth()]);
    if t == t' && p[mmu.Depth()] == p'[mmu.Depth()] {
      assert p == p[..mmu.Depth()] + [p[mmu.Depth()]];
      assert p' == p'[..mmu.Depth()] + [p'[mmu.Depth()]];
      PathInjective(mmu, va, va');
    }
    assert Apart(tables, t, t');
  }

  // ---------------------------------------------------------------- the hardware walk

  ghost function Decode(mmu: Mmu, w: nat, user: bool, writable: bool): Translation
    requires mmu.wordBits >= 12
  {
    if !Present(w) then Fault else To(BaseOf(w, mmu.wordBits), user && User(w), writable && Writable(w))
  }

  /** From any table on the path of va, the hardware finds the leaf of va with the rights of the mode. */
  lemma {:induction false} WalkFrom(mmu: Mmu, mem: Memory, tables: Tables, mode: Mode, free: set<nat>, s: nat, va: nat, level: nat, user: bool)
    requires Inv(mmu, mem, tables, mode, free)
    requires 1 <= level <= mmu.Depth()
    requires Table(s, Path(mmu, va)[..level]) in tables
    requires Path(mmu, va)[1] !in mode.shared
    ensures HwFrom(mmu, mem, tables[Table(s, Path(mmu, va)[..level])], level, va, user, true)
         == Decode(mmu, Leaf(mmu, mem, tables, s, va), user && (level == mmu.Depth() || mode.flags / 4 == 1), true)
    decreases mmu.Depth() - level
  {
    hide And, Pow2, IndexOf, BaseOf, Present, User, Writable, LargePage, HwFrom, Inv;
    EntryAt(mmu, mem, tables, mode, free, s, va, level);
    var loc := tables[Table(s, Path(mmu, va)[..level])];
    var w := mem[loc][IndexOf(va, mmu.levels[level])];
    if level == mmu.Depth() {
      HwLast(mmu, mem, loc, va, user, true, w);
    } else {
      HwStep(mmu, mem, loc, level, va, user, true, w);
      hide Leaf;
      if Table(s, Path(mmu, va)[..level + 1]) in tables {
        WalkFrom(mmu, mem, tables, mode, free, s, va, level + 1, user && mode.flags / 4 == 1);
      } else {
        MissingBelow(mmu, mem, tables, mode, free, s, va, level + 1);
        WordBits(0);
      }
    }
  }

  /** The word at a level of the path: it leads to the next table, or is empty when there is none. */
  lemma EntryAt(mmu: Mmu, mem: Memory, tables: Tables, mode: Mode, free: set<nat>, s: nat, va: nat, level: nat)
    requires Inv(mmu, mem, tables, mode, free)
    requires 1 <= level <= mmu.Depth()
    requires Table(s, Path(mmu, va)[..level]) in tables
    requires Path(mmu, va)[1] !in mode.shared
    ensures mmu.ValidLevels()
    ensures var loc, i := tables[Table(s, Path(mmu, va)[..level])], IndexOf(va, mmu.levels[level]);
            && loc in mem && 0 <= i < |mem[loc]|
            && (level < mmu.Depth() ==>
                  var w, c := mem[loc][i], Table(s, Path(mmu, va)[..level + 1]);
                  && (c !in tables ==> w == 0)
                  && (c in tables ==>
                        && Present(w) && Writable(w) && !LargePage(w) && (User(w) <==> mode.flags / 4 == 1)
                        && tables[c] == Page(BaseOf(w, mmu.wordBits))))
  {
    hide And, Pow2, IndexOf, BaseOf, Present, User, Writable, LargePage;
    var p := Path(mmu, va);
    var t := Table(s, p[..level]);
    IndexOfValue(va, mmu.levels[level]);
    assert TableOk(mmu, mem, tables, t) && EntriesOk(mmu, mem, tables, mode, t);
    if level < mmu.Depth() {
      var c := Child(t, p[level]);
      assert p[..level] + [p[level]] == p[..level + 1];
      assert EntryOk(mem, tables, mode, t, p[level]);
      if c in tables {
        assert TableOk(mmu, mem, tables, c);
        EntryFields(tables[c].base, mode.flags, mmu.wordBits);
      }
    }
  }

  /** A missing table has nothing below it. */
  lemma {:induction false} MissingBelow(mmu: Mmu, mem: Memory, tables: Tables, mode: Mode, free: set<nat>, s: nat, va: nat, level: nat)
    requires Inv(mmu, mem, tables, mode, free)
    requires 1 <= level <= mmu.Depth()
    requires Table(s, Path(mmu, va)[..level]) !in tables
    ensures Leaf(mmu, mem, tables, s, va) == 0
    ensures Table(s, Path(mmu, va)[..mmu.Depth()]) !in tables
    decreases mmu.Depth() - level
  {
    hide And, Pow2, IndexOf, BaseOf, Present, User, Writable, LargePage;
    var p := Path(mmu, va);
    if level < mmu.Depth() {
      var u := Table(s, p[..level + 1]);
      assert u in tables ==> TableOk(mmu, mem, tables, u);
      assert Parent(u).path == p[..level];
      MissingBelow(mmu, mem, tables, mode, free, s, va, level + 1);
    }
  }
}
