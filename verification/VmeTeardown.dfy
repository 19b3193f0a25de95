/**
 `teardown` of abstract-machine/am/src/x86/qemu/vme.c as an order on the tables of an address space:
 children before their parent, each table once, nothing else.
 */
module VmeTeardown {
  import opened Bits
  import opened Common
  import opened PageTable
  import opened VmeInvariant
  import opened Vme

  /** u is t or hangs below t. */
  predicate Under(t: Table, u: Table)
  {
    t.space == u.space && t.path <= u.path
  }

  /** The tables below and including t, in the order in which they are freed; `as->ptr` itself is not freed. */
  ghost function PostOrder(mmu: Mmu, tables: Tables, t: Table): seq<Table>
    requires mmu.ValidLevels() && |t.path| <= mmu.Depth()
    decreases mmu.Depth() - |t.path|, 1, 0
  {
    ChildrenOrder(mmu, tables, t, mmu.Slots(|t.path|)) + (if t.path != [] then [t] else [])
  }

  ghost function ChildrenOrder(mmu: Mmu, tables: Tables, t: Table, n: nat): seq<Table>
    requires mmu.ValidLevels() && |t.path| <= mmu.Depth()
    decreases mmu.Depth() - |t.path|, 0, n
  {
    if n == 0 then [] else
    ChildrenOrder(mmu, tables, t, n - 1)
    + (if Child(t, n - 1) in tables && |t.path| < mmu.Depth() then PostOrder(mmu, tables, Child(t, n - 1)) else [])
  }

  /** Only tables below t are freed. */
  lemma {:induction false} OrderSound(mmu: Mmu, tables: Tables, t: Table, u: Table)
    requires mmu.ValidLevels() && |t.path| <= mmu.Depth() && t in tables
    requires u in PostOrder(mmu, tables, t)
    ensures u in tables && Under(t, u) && u.path != []
    decreases mmu.Depth() - |t.path|, 1, 0
  {
    hide Pow2;
    if u in ChildrenOrder(mmu, tables, t, mmu.Slots(|t.path|)) {
      ChildrenSound(mmu, tables, t, mmu.Slots(|t.path|), u);
    }
  }

  lemma {:induction false} ChildrenSound(mmu: Mmu, tables: Tables, t: Table, n: nat, u: Table)
    requires mmu.ValidLevels() && |t.path| <= mmu.Depth()
    requires u in ChildrenOrder(mmu, tables, t, n)
    ensures u in tables && Under(t, u) && |t.path| < |u.path| && u.path[|t.path|] < n
    decreases mmu.Depth() - |t.path|, 0, n
  {
    hide Pow2;
    if u in ChildrenOrder(mmu, tables, t, n - 1) {
      ChildrenSound(mmu, tables, t, n - 1, u);
    } else {
      OrderSound(mmu, tables, Child(t, n - 1), u);
    }
  }

  /** The child of t on the way to a table below it. */
  lemma {:induction false} StepDown(mmu: Mmu, mem: Memory, tables: Tables, mode: Mode, free: set<nat>, t: Table, u: Table)
    requires Inv(mmu, mem, tables, mode, free)
    requires u in tables && Under(t, u) && |t.path| < |u.path|
    ensures |t.path| < mmu.Depth()
    ensures var i := u.path[|t.path|];
            Child(t, i) in tables && Under(Child(t, i), u) && i < mmu.Slots(|t.path|)
    decreases |u.path|
  {
    hide Pow2;
    assert TableOk(mmu, mem, tables, u);
    var i := u.path[|t.path|];
    assert Child(t, i).path == u.path[..|t.path| + 1];
    if |u.path| == |t.path| + 1 {
      assert Child(t, i) == u;
    } else {
      StepDown(mmu, mem, tables, mode, free, t, Parent(u));
    }
  }

  /** Every table below t is freed. */
  lemma {:induction false} OrderComplete(mmu: Mmu, mem: Memory, tables: Tables, mode: Mode, free: set<nat>, t: Table, u: Table)
    requires Inv(mmu, mem, tables, mode, free) && |t.path| <= mmu.Depth()
    requires u in tables && Under(t, u) && u.path != []
    ensures u in PostOrder(mmu, tables, t)
    decreases mmu.Depth() - |t.path|
  {
    hide Pow2;
    if |u.path| == |t.path| {
      assert u == t;
    } else {
      StepDown(mmu, mem, tables, mode, free, t, u);
      var i := u.path[|t.path|];
      OrderComplete(mmu, mem, tables, mode, free, Child(t, i), u);
      ChildrenInclude(mmu, tables, t, i, mmu.Slots(|t.path|), u);
    }
  }

  lemma {:induction false} ChildrenInclude(mmu: Mmu, tables: Tables, t: Table, i: nat, n: nat, u: Table)
    requires mmu.ValidLevels() && |t.path| < mmu.Depth() && i < n
    requires Child(t, i) in tables && u in PostOrder(mmu, tables, Child(t, i))
    ensures u in ChildrenOrder(mmu, tables, t, n)
  {
    hide Pow2, PostOrder;
    if i < n - 1 {
      ChildrenInclude(mmu, tables, t, i, n - 1, u);
    }
  }

  lemma NoDupConcat(a: seq<Table>, b: seq<Table>)
    requires NoDup(a) && NoDup(b) && forall u :: u in a ==> u !in b
    ensures NoDup(a + b)
  {
    forall i, j | 0 <= i < j < |a + b|
      ensures (a + b)[i] != (a + b)[j]
    {
      assert i < |a| <= j ==> a[i] in a && b[j - |a|] in b;
    }
  }

  /** No table is freed twice. */
  lemma {:induction false} OrderNoDup(mmu: Mmu, tables: Tables, t: Table)
    requires mmu.ValidLevels() && |t.path| <= mmu.Depth()
    ensures NoDup(PostOrder(mmu, tables, t))
    decreases mmu.Depth() - |t.path|, 1, 0
  {
    hide Pow2;
    var n := mmu.Slots(|t.path|);
    ChildrenNoDup(mmu, tables, t, n);
    if t in ChildrenOrder(mmu, tables, t, n) {
      ChildrenSound(mmu, tables, t, n, t);
    }
    NoDupConcat(ChildrenOrder(mmu, tables, t, n), if t.path != [] then [t] else []);
  }

  lemma {:induction false} ChildrenNoDup(mmu: Mmu, tables: Tables, t: Table, n: nat)
    requires mmu.ValidLevels() && |t.path| <= mmu.Depth()
    ensures NoDup(ChildrenOrder(mmu, tables, t, n))
    decreases mmu.Depth() - |t.path|, 0, n
  {
    hide Pow2, PostOrder;
    if n > 0 {
      ChildrenNoDup(mmu, tables, t, n - 1);
      var c := Child(t, n - 1);
      if c in tables && |t.path| < mmu.Depth() {
        OrderNoDup(mmu, tables, c);
        forall u | u in ChildrenOrder(mmu, tables, t, n - 1)
          ensures u !in PostOrder(mmu, tables, c)
        {
          ChildrenSound(mmu, tables, t, n - 1, u);
          assert c.path[|t.path|] == n - 1;
          if u in PostOrder(mmu, tables, c) {
            OrderSound(mmu, tables, c, u);
          }
        }
        NoDupConcat(ChildrenOrder(mmu, tables, t, n - 1), PostOrder(mmu, tables, c));
      }
    }
  }

  // ---------------------------------------------------------------- effects of freeing

  /** The page of a table other than `as->ptr`. */
  function BaseOfTable(tables: Tables, u: Table): nat
  {
    if u in tables && tables[u].Page? then tables[u].base else 0
  }

  ghost function Bases(tables: Tables, order: seq<Table>): seq<nat>
  {
    seq(|order|, i requires 0 <= i < |order| => BaseOfTable(tables, order[i]))
  }

  ghost function Locs(tables: Tables, order: seq<Table>): set<Loc>
  {
    set u | u in order && u in tables :: tables[u]
  }

  ghost function Pages(tables: Tables, order: seq<Table>): set<nat>
  {
    set u | u in order :: BaseOfTable(tables, u)
  }

  /** What has happened to memory, allocator and log after the given tables were freed. */
  ghost predicate Torn(tables: Tables, order: seq<Table>, mem0: Memory, mem: Memory,
                       free0: set<nat>, free: set<nat>, freed0: seq<nat>, freed: seq<nat>)
  {
    && mem == mem0 - Locs(tables, order)
    && free == free0 + Pages(tables, order)
    && freed == freed0 + Bases(tables, order)
  }

  lemma TornNothing(tables: Tables, mem: Memory, free: set<nat>, freed: seq<nat>)
    ensures Torn(tables, [], mem, mem, free, free, freed, freed)
  {
    assert freed + Bases(tables, []) == freed;
  }

  lemma TornConcat(tables: Tables, a: seq<Table>, b: seq<Table>, mem0: Memory, mem1: Memory, mem2: Memory,
                   free0: set<nat>, free1: set<nat>, free2: set<nat>, freed0: seq<nat>, freed1: seq<nat>, freed2: seq<nat>)
    requires Torn(tables, a, mem0, mem1, free0, free1, freed0, freed1)
    requires Torn(tables, b, mem1, mem2, free1, free2, freed1, freed2)
    ensures Torn(tables, a + b, mem0, mem2, free0, free2, freed0, freed2)
  {
    assert Locs(tables, a + b) == Locs(tables, a) + Locs(tables, b);
    assert Pages(tables, a + b) == Pages(tables, a) + Pages(tables, b);
    assert Bases(tables, a + b) == Bases(tables, a) + Bases(tables, b);
  }

  lemma TornOne(tables: Tables, t: Table, mem: Memory, free: set<nat>, freed: seq<nat>)
    requires t in tables && tables[t].Page?
    ensures Torn(tables, [t], mem, mem - {tables[t]}, free, free + {tables[t].base}, freed, freed + [tables[t].base])
  {
    assert Locs(tables, [t]) == {tables[t]};
    assert Pages(tables, [t]) == {tables[t].base};
    assert Bases(tables, [t]) == [tables[t].base];
  }

  /** The tables below t still hold what they held at the start. */
  ghost predicate Intact(tables: Tables, mem0: Memory, mem: Memory, t: Table)
  {
    forall u {:trigger Under(t, u)} :: u in tables && Under(t, u) ==>
      tables[u] in mem0 && tables[u] in mem && mem[tables[u]] == mem0[tables[u]]
  }

  /** Freeing the earlier children leaves t itself and the next child's subtree alone. */
  lemma IntactChild(mmu: Mmu, mem0: Memory, tables: Tables, mode: Mode, free0: set<nat>, mem: Memory, mem1: Memory, t: Table, n: nat)
    requires Inv(mmu, mem0, tables, mode, free0) && t in tables && |t.path| <= mmu.Depth()
    requires Intact(tables, mem0, mem, t)
    requires mem1 == mem - Locs(tables, ChildrenOrder(mmu, tables, t, n))
    ensures tables[t] in mem0 && tables[t] in mem1 && mem1[tables[t]] == mem0[tables[t]]
    ensures Intact(tables, mem0, mem1, Child(t, n))
  {
    hide Pow2, PostOrder, ChildrenOrder, And, User;
    assert Under(t, t);
    var order := ChildrenOrder(mmu, tables, t, n);
    forall u | u in tables && (u == t || Under(Child(t, n), u))
      ensures tables[u] !in Locs(tables, order) && Under(t, u)
    {
      assert Under(Child(t, n), u) ==> u.path[|t.path|] == Child(t, n).path[|t.path|] == n;
      forall v | v in order
        ensures v in tables && tables[v] != tables[u]
      {
        ChildrenSound(mmu, tables, t, n, v);
        assert Apart(tables, u, v);
      }
    }
  }

  /** The test of the loop recognises exactly the entries that lead to a table of this space. */
  lemma LoopTest(mmu: Mmu, mem: Memory, tables: Tables, mode: Mode, free: set<nat>, t: Table, i: nat)
    requires Inv(mmu, mem, tables, mode, free) && mode.flags == 7 && mode.rootFlags == 5
    requires t in tables && |t.path| < mmu.Depth()
    requires tables[t] in mem && i < |mem[tables[t]]|
    ensures var w := mem[tables[t]][i];
            && (Present(w) && User(w) <==> Child(t, i) in tables)
            && (Child(t, i) in tables ==> tables[Child(t, i)] == Page(BaseOf(w, mmu.wordBits)))
  {
    hide And, Pow2, IndexOf, BaseOf, Present, User, Writable, LargePage;
    assert TableOk(mmu, mem, tables, t) && EntriesOk(mmu, mem, tables, mode, t);
    assert EntryOk(mem, tables, mode, t, i);
    var c := Child(t, i);
    if c in tables {
      assert TableOk(mmu, mem, tables, c);
      EntryFields(tables[c].base, mode.EntryFlags(|t.path|), mmu.wordBits);
    } else {
      WordBits(0);
    }
  }

  // Unfoldings and projections used by the recursive method.

  lemma ChildrenNone(mmu: Mmu, tables: Tables, t: Table)
    requires mmu.ValidLevels() && |t.path| <= mmu.Depth()
    ensures ChildrenOrder(mmu, tables, t, 0) == []
  {
  }

  lemma ChildrenNext(mmu: Mmu, tables: Tables, t: Table, n: nat)
    requires mmu.ValidLevels() && |t.path| <= mmu.Depth()
    ensures |t.path| < mmu.Depth() && Child(t, n) in tables ==>
              ChildrenOrder(mmu, tables, t, n + 1) == ChildrenOrder(mmu, tables, t, n) + PostOrder(mmu, tables, Child(t, n))
    ensures !(|t.path| < mmu.Depth() && Child(t, n) in tables) ==>
              ChildrenOrder(mmu, tables, t, n + 1) == ChildrenOrder(mmu, tables, t, n)
  {
    hide Pow2;
  }

  /** A table is freed before the tables above it. */
  lemma {:induction false} ChildrenFirst(mmu: Mmu, tables: Tables, t: Table, i: nat, j: nat)
    requires mmu.ValidLevels() && |t.path| <= mmu.Depth() && t in tables && i < j < |PostOrder(mmu, tables, t)|
    ensures !(PostOrder(mmu, tables, t)[i].path < PostOrder(mmu, tables, t)[j].path)
    decreases mmu.Depth() - |t.path|, 1, 0
  {
    hide Pow2, ChildrenOrder;
    var n := mmu.Slots(|t.path|);
    var below := ChildrenOrder(mmu, tables, t, n);
    assert below[i] in below;
    ChildrenSound(mmu, tables, t, n, below[i]);
    if j < |below| {
      SiblingsFirst(mmu, tables, t, n, i, j);
    }
  }

  lemma {:induction false} SiblingsFirst(mmu: Mmu, tables: Tables, t: Table, n: nat, i: nat, j: nat)
    requires mmu.ValidLevels() && |t.path| <= mmu.Depth() && i < j < |ChildrenOrder(mmu, tables, t, n)|
    ensures !(ChildrenOrder(mmu, tables, t, n)[i].path < ChildrenOrder(mmu, tables, t, n)[j].path)
    decreases mmu.Depth() - |t.path|, 0, n
  {
    hide Pow2, PostOrder;
    var before := ChildrenOrder(mmu, tables, t, n - 1);
    if j < |before| {
      SiblingsFirst(mmu, tables, t, n - 1, i, j);
    } else {
      var c := Child(t, n - 1);
      var last := PostOrder(mmu, tables, c);
      if i >= |before| {
        ChildrenFirst(mmu, tables, c, i - |before|, j - |before|);
      } else {
        assert before[i] in before && last[j - |before|] in last;
        ChildrenSound(mmu, tables, t, n - 1, before[i]);
        OrderSound(mmu, tables, c, last[j - |before|]);
        assert last[j - |before|].path[|t.path|] == n - 1;
      }
    }
  }

  lemma OrderNext(mmu: Mmu, tables: Tables, t: Table)
    requires mmu.ValidLevels() && |t.path| <= mmu.Depth()
    ensures PostOrder(mmu, tables, t) ==
            ChildrenOrder(mmu, tables, t, mmu.Slots(|t.path|)) + (if t.path != [] then [t] else [])
    ensures t.path == [] ==> PostOrder(mmu, tables, t) == ChildrenOrder(mmu, tables, t, mmu.Slots(|t.path|))
  {
  }

  lemma TornMem(tables: Tables, order: seq<Table>, mem0: Memory, mem: Memory,
                free0: set<nat>, free: set<nat>, freed0: seq<nat>, freed: seq<nat>)
    requires Torn(tables, order, mem0, mem, free0, free, freed0, freed)
    ensures mem == mem0 - Locs(tables, order)
  {
  }

  /** The words of t, with the meaning of one of them when t is not a last-level table. */
  lemma TableWords(mmu: Mmu, mem: Memory, tables: Tables, mode: Mode, free: set<nat>, t: Table, i: nat)
    requires Inv(mmu, mem, tables, mode, free) && mode.flags == 7 && mode.rootFlags == 5
    requires t in tables && |t.path| <= mmu.Depth() && i < mmu.Slots(|t.path|)
    ensures tables[t] in mem && i < |mem[tables[t]]|
    ensures |t.path| < mmu.Depth() ==>
              var w := mem[tables[t]][i];
              && (Present(w) && User(w) <==> Child(t, i) in tables)
              && (Child(t, i) in tables ==> tables[Child(t, i)] == Page(BaseOf(w, mmu.wordBits)))
  {
    hide And, Pow2, IndexOf, BaseOf, Present, User, Writable, LargePage;
    assert TableOk(mmu, mem, tables, t);
    if |t.path| < mmu.Depth() {
      LoopTest(mmu, mem, tables, mode, free, t, i);
    }
  }

  lemma TableIsPage(mmu: Mmu, mem: Memory, tables: Tables, mode: Mode, free: set<nat>, t: Table)
    requires Inv(mmu, mem, tables, mode, free) && t in tables && t.path != []
    ensures tables[t].Page?
  {
    assert TableOk(mmu, mem, tables, t);
  }

  /** At the start everything is in place, and the tables to be freed are those of the space. */
  lemma StartTeardown(mmu: Mmu, mem: Memory, tables: Tables, mode: Mode, free: set<nat>, s: nat)
    requires Inv(mmu, mem, tables, mode, free) && Table(s, []) in tables
    ensures tables[Table(s, [])] == Cr3(s)
    ensures Intact(tables, mem, mem, Table(s, []))
    ensures NoDup(PostOrder(mmu, tables, Table(s, [])))
    ensures forall u {:trigger u in PostOrder(mmu, tables, Table(s, []))} ::
              u in PostOrder(mmu, tables, Table(s, [])) <==> u in tables && u.space == s && u.path != []
  {
    hide Pow2, PostOrder;
    var t := Table(s, []);
    assert TableOk(mmu, mem, tables, t);
    OrderNoDup(mmu, tables, t);
    forall u
      ensures u in PostOrder(mmu, tables, t) <==> u in tables && u.space == s && u.path != []
    {
      if u in PostOrder(mmu, tables, t) {
        OrderSound(mmu, tables, t, u);
      }
      if u in tables && u.space == s && u.path != [] {
        OrderComplete(mmu, mem, tables, mode, free, t, u);
      }
    }
    forall u | u in tables && Under(t, u)
      ensures tables[u] in mem
    {
      assert TableOk(mmu, mem, tables, u);
    }
  }

  /** The page p holds a table of this space. */
  ghost predicate TablePage(tables: Tables, s: nat, p: nat)
  {
    exists t {:trigger tables[t]} :: t in tables && t.space == s && t.path != [] && tables[t] == Page(p)
  }

  /** The pages of distinct tables are distinct, and they are the table pages of the space. */
  lemma FreedPages(mmu: Mmu, mem: Memory, tables: Tables, mode: Mode, free: set<nat>, s: nat, order: seq<Table>)
    requires Inv(mmu, mem, tables, mode, free) && NoDup(order)
    requires forall u {:trigger u in order} :: u in order <==> u in tables && u.space == s && u.path != []
    ensures NoDup(Bases(tables, order))
    ensures forall p :: p in Bases(tables, order) <==> TablePage(tables, s, p)
    ensures forall p {:trigger TablePage(tables, s, p)} :: TablePage(tables, s, p) ==> Page(p) in mem
  {
    hide And, Pow2, EntriesOk;
    var bases := Bases(tables, order);
    forall i | 0 <= i < |order|
      ensures order[i] in tables && tables[order[i]] == Page(bases[i]) && Page(bases[i]) in mem
    {
      assert order[i] in order;
      assert TableOk(mmu, mem, tables, order[i]);
    }
    forall i, j | 0 <= i < j < |bases|
      ensures bases[i] != bases[j]
    {
      assert Apart(tables, order[i], order[j]);
    }
    forall p
      ensures p in bases <==> TablePage(tables, s, p)
    {
      if p in bases {
        var i :| 0 <= i < |bases| && bases[i] == p;
        assert order[i] in order;
      }
      if TablePage(tables, s, p) {
        var t :| t in tables && t.space == s && t.path != [] && tables[t] == Page(p);
        assert t in order;
        var i :| 0 <= i < |order| && order[i] == t;
        assert bases[i] == p;
      }
    }
    forall p | TablePage(tables, s, p)
      ensures Page(p) in mem
    {
      var t :| t in tables && t.space == s && t.path != [] && tables[t] == Page(p);
      assert TableOk(mmu, mem, tables, t);
    }
  }

  /** None of them belongs to the kernel or to the caller. */
  lemma FreedAreOwn(mmu: Mmu, mem: Memory, tables: Tables, free: set<nat>, kernel: map<Loc, nat>, kpt: Loc, maps: Maps,
                    s: nat, order: seq<Table>, handed: set<nat>)
    requires StateOk(mmu, mem, tables, free, kernel, kpt, maps) && HandedOk(mmu, mem, free, handed) && NoDup(order)
    requires forall u {:trigger u in order} :: u in order <==> u in tables && u.space == s && u.path != []
    ensures NoDup(Bases(tables, order))
    ensures forall p :: p in Bases(tables, order) <==> TablePage(tables, s, p)
    ensures forall p :: p in Bases(tables, order) ==> Page(p) !in kernel && p !in handed
    ensures HandedOk(mmu, mem - Locs(tables, order) - {Cr3(s)}, free + Pages(tables, order), handed)
    ensures forall p :: p in Pages(tables, order) <==> p in Bases(tables, order)
    ensures TablePages(mem - Locs(tables, order) - {Cr3(s)}) + (free + Pages(tables, order)) == TablePages(mem) + free
  {
    assert kpt in mem;
    hide KernelEntry, MapsOk, Inv, And, Pow2, PageAddr;
    FreedPages(mmu, mem, tables, UserMode(mmu, mem[kpt]), free, s, order);
    forall p | p in Bases(tables, order)
      ensures Page(p) !in kernel && p !in handed
    {
      assert TablePage(tables, s, p);
      var t :| t in tables && t.space == s && t.path != [] && tables[t] == Page(p);
      assert Page(p) in kernel ==> Foreign(tables, Page(p));
    }
    forall p | p in Pages(tables, order)
      ensures p in Bases(tables, order)
    {
      var u :| u in order && p == BaseOfTable(tables, u);
      var i :| 0 <= i < |order| && order[i] == u;
      assert Bases(tables, order)[i] == p;
    }
    PagesReturned(mmu, mem, tables, UserMode(mmu, mem[kpt]), free, s, order);
  }

  /** The pages of the tables leave memory and become free. */
  lemma PagesReturned(mmu: Mmu, mem: Memory, tables: Tables, mode: Mode, free: set<nat>, s: nat, order: seq<Table>)
    requires Inv(mmu, mem, tables, mode, free)
    requires forall u {:trigger u in order} :: u in order <==> u in tables && u.space == s && u.path != []
    ensures forall p :: p in Bases(tables, order) ==> p in Pages(tables, order)
    ensures TablePages(mem - Locs(tables, order) - {Cr3(s)}) + (free + Pages(tables, order)) == TablePages(mem) + free
  {
    hide And, Pow2, EntriesOk, TablePages;
    var mem' := mem - Locs(tables, order) - {Cr3(s)};
    forall u | u in order
      ensures tables[u] == Page(BaseOfTable(tables, u)) && tables[u] in mem
    {
      assert TableOk(mmu, mem, tables, u);
    }
    forall p
      ensures p in TablePages(mem) <==> p in TablePages(mem') || p in Pages(tables, order)
    {
      assert Page(p) in Locs(tables, order) <==> p in Pages(tables, order) by {
        if Page(p) in Locs(tables, order) {
          var u :| u in order && u in tables && tables[u] == Page(p);
        }
        if p in Pages(tables, order) {
          var u :| u in order && p == BaseOfTable(tables, u);
        }
      }
      assert Page(p) in mem' <==> Page(p) in mem && Page(p) !in Locs(tables, order);
      assert p in Pages(tables, order) ==> Page(p) in mem;
    }
  }

  // ---------------------------------------------------------------- the state after unprotect

  ghost function DropTables(tables: Tables, s: nat): Tables
  {
    map t | t in tables && t.space != s :: tables[t]
  }

  /** The tables of the other spaces are intact and the freed pages are available again. */
  lemma DropInv(mmu: Mmu, mem: Memory, tables: Tables, mode: Mode, free: set<nat>, s: nat, order: seq<Table>)
    requires Inv(mmu, mem, tables, mode, free)
    requires forall u {:trigger u in order} :: u in order <==> u in tables && u.space == s && u.path != []
    ensures Inv(mmu, mem - Locs(tables, order) - {Cr3(s)}, DropTables(tables, s), mode, free + Pages(tables, order))
  {
    var mem', tables' := mem - Locs(tables, order) - {Cr3(s)}, DropTables(tables, s);
    hide And, Pow2, IndexOf, BaseOf, Present, User, Writable, LargePage, TableOk, EntriesOk, PageAddr;
    forall u | u in tables'
      ensures TableOk(mmu, mem', tables', u) && EntriesOk(mmu, mem', tables', mode, u)
    {
      DropTable(mmu, mem, tables, mode, free, s, order, u);
    }
    forall u, v
      ensures Apart(tables', u, v)
    {
      assert Apart(tables, u, v);
    }
    forall p | p in Pages(tables, order)
      ensures PageAddr(p, mmu.wordBits) && Page(p) !in mem'
    {
      DropPage(mmu, mem, tables, mode, free, order, p);
    }
    forall q
      ensures mode.rootFlags != mode.flags && Table(q, []) in tables' ==> Child(Table(q, []), 0) in tables'
    {
      assert Child(Table(q, []), 0).space == q;
    }
  }

  lemma DropPage(mmu: Mmu, mem: Memory, tables: Tables, mode: Mode, free: set<nat>, order: seq<Table>, p: nat)
    requires Inv(mmu, mem, tables, mode, free) && p in Pages(tables, order)
    requires forall v {:trigger v in order} :: v in order ==> v in tables && v.path != []
    ensures PageAddr(p, mmu.wordBits) && Page(p) in Locs(tables, order)
  {
    hide And, Pow2, EntriesOk;
    var u :| u in order && p == BaseOfTable(tables, u);
    assert TableOk(mmu, mem, tables, u);
    assert tables[u] in Locs(tables, order);
  }

  lemma DropTable(mmu: Mmu, mem: Memory, tables: Tables, mode: Mode, free: set<nat>, s: nat, order: seq<Table>, u: Table)
    requires Inv(mmu, mem, tables, mode, free)
    requires forall v {:trigger v in order} :: v in order ==> v in tables && v.space == s
    requires u in tables && u.space != s
    ensures var mem', tables' := mem - Locs(tables, order) - {Cr3(s)}, DropTables(tables, s);
            && TableOk(mmu, mem', tables', u) && EntriesOk(mmu, mem', tables', mode, u)
            && tables[u] in mem && mem'[tables[u]] == mem[tables[u]]
  {
    var mem', tables' := mem - Locs(tables, order) - {Cr3(s)}, DropTables(tables, s);
    hide And, Pow2, IndexOf, BaseOf, Present, User, Writable, LargePage;
    assert TableOk(mmu, mem, tables, u) && EntriesOk(mmu, mem, tables, mode, u);
    forall v | v in order
      ensures tables[v] != tables[u]
    {
      assert Apart(tables, u, v);
    }
    assert tables[u] in mem';
    if |u.path| < mmu.Depth() {
      forall j: nat | j < |mem'[tables'[u]]|
        ensures EntryOk(mem', tables', mode, u, j)
      {
        assert EntryOk(mem, tables, mode, u, j);
        assert Child(u, j).space == u.space;
      }
    }
  }

  lemma DropMaps(mmu: Mmu, mem: Memory, tables: Tables, mode: Mode, free: set<nat>, maps: Maps, s: nat, order: seq<Table>)
    requires Inv(mmu, mem, tables, mode, free) && MapsOk(mmu, mem, tables, maps)
    requires forall v {:trigger v in order} :: v in order ==> v in tables && v.space == s
    ensures MapsOk(mmu, mem - Locs(tables, order) - {Cr3(s)}, DropTables(tables, s), maps - {s})
  {
    var mem', tables' := mem - Locs(tables, order) - {Cr3(s)}, DropTables(tables, s);
    hide And, Pow2, IndexOf, BaseOf, Present, User, Writable, LargePage;
    forall q, va | q in maps && q != s && LowPage(mmu, va)
      ensures Leaf(mmu, mem', tables', q, va) == MapWord(maps - {s}, q, va)
    {
      var t := Table(q, Path(mmu, va)[..mmu.Depth()]);
      if t in tables {
        DropTable(mmu, mem, tables, mode, free, s, order, t);
      }
      assert Leaf(mmu, mem, tables, q, va) == MapWord(maps, q, va);
    }
  }

  lemma DropState(mmu: Mmu, mem: Memory, tables: Tables, free: set<nat>, kernel: map<Loc, nat>, kpt: Loc, maps: Maps,
                  s: nat, order: seq<Table>)
    requires StateOk(mmu, mem, tables, free, kernel, kpt, maps) && s in maps
    requires forall u {:trigger u in order} :: u in order <==> u in tables && u.space == s && u.path != []
    ensures var mem' := mem - Locs(tables, order) - {Cr3(s)};
            && StateOk(mmu, mem', DropTables(tables, s), free + Pages(tables, order), kernel, kpt, maps - {s})
            && kpt in mem && kpt in mem' && mem'[kpt] == mem[kpt]
            && SameKernel(kernel, mem, mem')
  {
    var mem' := mem - Locs(tables, order) - {Cr3(s)};
    StateFacts(mmu, mem, tables, free, kernel, kpt, maps);
    assert tables[Table(s, [])] == Cr3(s) by {
      assert TableOk(mmu, mem, tables, Table(s, []));
    }
    hide And, Pow2, IndexOf, Leaf, Inv, MapsOk, TableOk, SharedIndices, KernelEntry;
    forall l | l in kernel && l in mem
      ensures l in mem' && mem'[l] == mem[l]
    {
      assert Foreign(tables, l);
    }
    KernelKept(mmu, mem, mem', kernel, kpt);
    DropInv(mmu, mem, tables, UserMode(mmu, mem[kpt]), free, s, order);
    DropMaps(mmu, mem, tables, UserMode(mmu, mem[kpt]), free, maps, s, order);
  }
}
