/**
 Address spaces on the native platform (abstract-machine/am/src/native/vme.c): every space is a linked
 list of page mappings, and `__am_switch` installs the list of the next space in the host process.
 List nodes live in a heap indexed by address; 0 is NULL. The host's mmap and munmap are updates of a
 map from pages to mappings.
 */
module NativeVme {

  datatype PageMap = PageMap(va: nat, pa: nat, next: nat, prot: nat, isMapped: bool)

  type Heap = map<nat, PageMap>

  /** A mapping of the host process: physical page and protection. */
  datatype Mapping = Mapping(pa: nat, prot: nat)

  const USER_START: nat := 0x4000_0000
  const USER_END: nat := 0xc000_0000

  predicate InUserSpace(va: nat)
  {
    USER_START <= va < USER_END
  }

  // ---------------------------------------------------------------- lists

  /** Following `next` from p visits exactly these nodes, in this order, and then reaches NULL. */
  ghost predicate Chain(heap: Heap, p: nat, nodes: seq<nat>)
    decreases |nodes|
  {
    if nodes == [] then p == 0
    else p == nodes[0] && p != 0 && p in heap && Chain(heap, heap[p].next, nodes[1..])
  }

  /** The walk of `list_foreach` from this head comes to an end. */
  ghost predicate Ends(heap: Heap, head: nat)
    requires head in heap
  {
    exists nodes {:trigger Chain(heap, heap[head].next, nodes)} :: Chain(heap, heap[head].next, nodes)
  }

  /** The page mappings written in a list, the front one taking precedence. */
  ghost function Entries(heap: Heap, nodes: seq<nat>): map<nat, Mapping>
    requires forall n <- nodes :: n in heap
  {
    if nodes == [] then map[]
    else Entries(heap, nodes[1..])[heap[nodes[0]].va := Mapping(heap[nodes[0]].pa, heap[nodes[0]].prot)]
  }

  function WithPage(space: map<nat, Mapping>, va: nat, pa: nat, prot: nat): map<nat, Mapping>
  {
    space[va := Mapping(pa, prot)]
  }

  ghost predicate DistinctVas(heap: Heap, nodes: seq<nat>)
    requires forall n <- nodes :: n in heap
  {
    forall i, j :: 0 <= i < j < |nodes| ==> heap[nodes[i]].va != heap[nodes[j]].va
  }

  /** A proper list from p: it ends, its pages are distinct, aligned and in user space. */
  ghost predicate Listed(heap: Heap, pgsize: nat, p: nat, nodes: seq<nat>)
    requires pgsize > 0
  {
    && (forall n <- nodes :: n in heap && InUserSpace(heap[n].va) && heap[n].va % pgsize == 0)
    && Chain(heap, p, nodes)
    && DistinctVas(heap, nodes)
  }

  /** One address space: the list behind a head. */
  ghost predicate ListOk(heap: Heap, pgsize: nat, head: nat, nodes: seq<nat>)
    requires pgsize > 0
  {
    head != 0 && head in heap && Listed(heap, pgsize, heap[head].next, nodes)
  }

  type Lists = map<nat, seq<nat>>

  /** All spaces: proper lists that share no node with each other, nor with the heads. */
  ghost predicate ListsOk(heap: Heap, pgsize: nat, lists: Lists)
    requires pgsize > 0
  {
    && (forall h {:trigger h in lists} :: h in lists ==> ListOk(heap, pgsize, h, lists[h]))
    && Apart(lists)
  }

  ghost predicate Apart(lists: Lists)
  {
    && (forall g, h, n :: g in lists && h in lists && n in lists[g] && n in lists[h] ==> g == h)
    && (forall h, n :: h in lists && n in lists[h] ==> n !in lists)
  }

  /** The abstract content of every space. */
  ghost function Spaces(heap: Heap, pgsize: nat, lists: Lists): (spaces: map<nat, map<nat, Mapping>>)
    requires pgsize > 0 && ListsOk(heap, pgsize, lists)
    ensures spaces.Keys == lists.Keys
  {
    map h | h in lists :: Entries(heap, lists[h])
  }

  /** `is_mapped` is true for exactly the nodes of the installed space. */
  ghost predicate MarksOk(heap: Heap, lists: Lists, current: nat)
  {
    forall h, n :: h in lists && n in lists[h] ==> n in heap && (heap[n].isMapped <==> h == current)
  }

  /** Two heaps write the same list over these nodes; only `is_mapped` may differ. */
  ghost predicate SameList(h1: Heap, h2: Heap, nodes: seq<nat>)
  {
    forall n <- nodes :: n in h1 && n in h2 && h2[n] == h1[n].(isMapped := h2[n].isMapped)
  }

  lemma {:induction false} ChainFrame(h1: Heap, h2: Heap, p: nat, nodes: seq<nat>)
    requires Chain(h1, p, nodes) && SameList(h1, h2, nodes)
    ensures Chain(h2, p, nodes)
    decreases |nodes|
  {
    if nodes != [] {
      assert nodes[0] in nodes;
      ChainFrame(h1, h2, h1[p].next, nodes[1..]);
    }
  }

  lemma {:induction false} EntriesFrame(h1: Heap, h2: Heap, nodes: seq<nat>)
    requires SameList(h1, h2, nodes)
    ensures Entries(h1, nodes) == Entries(h2, nodes)
    decreases |nodes|
  {
    if nodes != [] {
      assert nodes[0] in nodes;
      EntriesFrame(h1, h2, nodes[1..]);
    }
  }

  lemma ListFrame(h1: Heap, h2: Heap, pgsize: nat, head: nat, nodes: seq<nat>)
    requires pgsize > 0 && ListOk(h1, pgsize, head, nodes) && SameList(h1, h2, nodes)
    requires head in h2 && h2[head].next == h1[head].next
    ensures ListOk(h2, pgsize, head, nodes)
    ensures Entries(h2, nodes) == Entries(h1, nodes)
  {
    ChainFrame(h1, h2, h1[head].next, nodes);
    EntriesFrame(h1, h2, nodes);
  }

  /** The heaps differ only in the marks of these nodes. */
  ghost predicate SameButMarks(h1: Heap, h2: Heap, nodes: seq<nat>)
  {
    && h1.Keys == h2.Keys
    && forall n <- h1 :: h2[n] == h1[n].(isMapped := h2[n].isMapped) && (n !in nodes ==> h2[n] == h1[n])
  }

  lemma Remarked(h1: Heap, h2: Heap, pgsize: nat, lists: Lists, nodes: seq<nat>)
    requires pgsize > 0 && ListsOk(h1, pgsize, lists) && SameButMarks(h1, h2, nodes)
    ensures ListsOk(h2, pgsize, lists)
    ensures Spaces(h2, pgsize, lists) == Spaces(h1, pgsize, lists)
  {
    forall h | h in lists
      ensures ListOk(h2, pgsize, h, lists[h]) && Entries(h2, lists[h]) == Entries(h1, lists[h])
    {
      RemarkedList(h1, h2, pgsize, h, lists[h], nodes);
    }
  }

  lemma RemarkedList(h1: Heap, h2: Heap, pgsize: nat, head: nat, list: seq<nat>, nodes: seq<nat>)
    requires pgsize > 0 && ListOk(h1, pgsize, head, list) && SameButMarks(h1, h2, nodes)
    ensures ListOk(h2, pgsize, head, list)
    ensures Entries(h2, list) == Entries(h1, list)
  {
    assert SameList(h1, h2, list);
    ListFrame(h1, h2, pgsize, head, list);
  }

  /** A page is mapped by a list exactly when some node of the list carries it. */
  lemma {:induction false} EntriesKeys(heap: Heap, nodes: seq<nat>, va: nat)
    requires forall n <- nodes :: n in heap
    ensures va in Entries(heap, nodes) <==> exists n :: n in nodes && heap[n].va == va
    decreases |nodes|
  {
    if nodes != [] {
      EntriesKeys(heap, nodes[1..], va);
      assert nodes[0] in nodes;
      assert forall n :: n in nodes ==> n == nodes[0] || n in nodes[1..];
    }
  }

  lemma {:induction false} FirstVaUnique(heap: Heap, nodes: seq<nat>)
    requires nodes != [] && (forall n <- nodes :: n in heap) && DistinctVas(heap, nodes)
    ensures DistinctVas(heap, nodes[1..])
    ensures heap[nodes[0]].va !in Entries(heap, nodes[1..])
    ensures nodes[0] !in nodes[1..]
  {
    EntriesKeys(heap, nodes[1..], heap[nodes[0]].va);
    forall n | n in nodes[1..] ensures heap[n].va != heap[nodes[0]].va {
      var i :| 0 <= i < |nodes[1..]| && nodes[1..][i] == n;
      assert nodes[1 + i] == n;
    }
    forall i, j | 0 <= i < j < |nodes[1..]| ensures heap[nodes[1..][i]].va != heap[nodes[1..][j]].va {
      assert nodes[1..][i] == nodes[i + 1] && nodes[1..][j] == nodes[j + 1];
    }
  }

  lemma NoNodes(heap: Heap, pgsize: nat, nodes: seq<nat>)
    requires pgsize > 0 && Listed(heap, pgsize, 0, nodes)
    ensures nodes == [] && Entries(heap, nodes) == map[]
  {
  }

  lemma FrontAllocated(heap: Heap, pgsize: nat, p: nat, nodes: seq<nat>)
    requires pgsize > 0 && Listed(heap, pgsize, p, nodes)
    ensures p != 0 ==> nodes != [] && p in nodes && p in heap
  {
  }

  /** One step along a list while the mark of its first node is changed. */
  lemma Advance(heap: Heap, after: Heap, pgsize: nat, p: nat, nodes: seq<nat>)
    requires pgsize > 0 && p != 0 && Listed(heap, pgsize, p, nodes)
    requires SameButMarks(heap, after, [p])
    ensures nodes != [] && p == nodes[0] && p in heap && p in nodes && InUserSpace(heap[p].va)
    ensures Listed(after, pgsize, heap[p].next, nodes[1..]) && p !in nodes[1..]
    ensures heap[p].va !in Entries(after, nodes[1..])
    ensures Entries(heap, nodes) == Entries(after, nodes[1..])[heap[p].va := Mapping(heap[p].pa, heap[p].prot)]
  {
    FirstVaUnique(heap, nodes);
    var tail := nodes[1..];
    assert nodes[0] in nodes;
    assert SameList(heap, after, tail);
    ChainFrame(heap, after, heap[p].next, tail);
    EntriesFrame(heap, after, tail);
    SameVas(heap, after, tail);
  }

  lemma SameVas(h1: Heap, h2: Heap, nodes: seq<nat>)
    requires SameList(h1, h2, nodes) && DistinctVas(h1, nodes)
    ensures DistinctVas(h2, nodes)
  {
    forall i, j | 0 <= i < j < |nodes| ensures h2[nodes[i]].va != h2[nodes[j]].va {
      assert nodes[i] in nodes && nodes[j] in nodes;
    }
  }

  /** A walk inside a closed set of nodes never reaches NULL. */
  lemma {:induction false} ClosedNeverEnds(heap: Heap, s: set<nat>, p: nat, nodes: seq<nat>)
    requires p in s && 0 !in s
    requires forall n <- s :: n in heap && heap[n].next in s
    ensures !Chain(heap, p, nodes)
    decreases |nodes|
  {
    if nodes != [] && p in heap {
      ClosedNeverEnds(heap, s, heap[p].next, nodes[1..]);
    }
  }

  /** In a chain, each of the first k nodes leads to one of the first k + 1. */
  lemma {:induction false} PrefixClosed(heap: Heap, p: nat, nodes: seq<nat>, k: nat, n: nat)
    requires Chain(heap, p, nodes) && k < |nodes| && n in nodes[..k]
    ensures n != 0 && n in heap && heap[n].next in nodes[..k + 1]
    decreases |nodes|
  {
    if n == p && k > 0 {
      assert nodes[1..][0] == nodes[1];
      assert nodes[..k + 1][1] == nodes[1];
    } else {
      assert nodes[..k] == [nodes[0]] + nodes[1..][..k - 1];
      PrefixClosed(heap, heap[p].next, nodes[1..], k - 1, n);
      assert nodes[1..][..k] == nodes[..k + 1][1..];
    }
  }

  /** Linking a listed node in front of its own list leaves a list without an end. */
  lemma Relinked(heap: Heap, after: Heap, pgsize: nat, head: nat, nodes: seq<nat>, pp: nat)
    requires pgsize > 0 && ListOk(heap, pgsize, head, nodes) && head !in nodes && pp in nodes
    requires after.Keys == heap.Keys && after[head].next == pp && after[pp].next == heap[head].next
    requires forall n <- heap :: n != pp && n != head ==> after[n] == heap[n]
    ensures !Ends(after, head)
  {
    var k: nat :| k < |nodes| && nodes[k] == pp;
    var front := nodes[..k + 1];
    var s := set n | n in front;
    assert nodes[..k + 1] == nodes[..k] + [nodes[k]];
    assert nodes[..k + 1][0] == nodes[0] == heap[head].next;
    forall n | n in s ensures n != 0 && n in after && after[n].next in s {
      if n == pp {
        ChainNonzero(heap, heap[head].next, nodes, k);
      } else {
        PrefixClosed(heap, heap[head].next, nodes, k, n);
      }
    }
    if Ends(after, head) {
      var other :| Chain(after, after[head].next, other);
      ClosedNeverEnds(after, s, pp, other);
    }
  }

  lemma {:induction false} ChainNonzero(heap: Heap, p: nat, nodes: seq<nat>, k: nat)
    requires Chain(heap, p, nodes) && k < |nodes|
    ensures nodes[k] != 0
    decreases |nodes|
  {
    if k > 0 { ChainNonzero(heap, heap[p].next, nodes[1..], k - 1); }
  }

  // ---------------------------------------------------------------- the abstract system

  /** Every space is a finite map from pages; one of them (or none, 0) is installed. */
  datatype View = View(spaces: map<nat, map<nat, Mapping>>, current: nat, pages: set<nat>)

  datatype Command =
    | Protect(page: nat, content: PageMap)
    | MapPage(head: nat, va: nat, pa: nat, prot: nat, page: nat, content: PageMap)
    | SwitchTo(head: nat)

  predicate PageArgs(pgsize: nat, va: nat, pa: nat)
    requires pgsize > 0
  {
    InUserSpace(va) && va % pgsize == 0 && pa % pgsize == 0
  }

  lemma PageArgsAre(pgsize: nat, va: nat, pa: nat)
    requires pgsize > 0
    ensures PageArgs(pgsize, va, pa) <==> 0x4000_0000 <= va < 0xc000_0000 && va % pgsize == 0 && pa % pgsize == 0
  {
  }

  /** Pages from the allocator are unused, spaces are known, and no page is mapped twice in a space. */
  predicate Legal(v: View, pgsize: nat, c: Command)
    requires pgsize > 0
  {
    match c
    case Protect(page, content) => page != 0 && page !in v.pages && content.next == 0
    case MapPage(head, va, pa, prot, page, _) =>
      PageArgs(pgsize, va, pa) && head in v.spaces && va !in v.spaces[head] && page != 0 && page !in v.pages
    case SwitchTo(head) => head == 0 || head in v.spaces
  }

  function Step(v: View, c: Command): View
  {
    match c
    case Protect(page, _) => v.(spaces := v.spaces[page := map[]], pages := v.pages + {page})
    case MapPage(head, va, pa, prot, page, _) =>
      if head in v.spaces then
        v.(spaces := v.spaces[head := WithPage(v.spaces[head], va, pa, prot)], pages := v.pages + {page})
      else v
    case SwitchTo(head) => v.(current := head)
  }

  /**
   What the steps mean, entry by entry: `protect` makes a new empty space, `map` enters this page with this frame and
   protection into this space, a switch installs a space, and nothing else changes.
   */
  lemma StepMeans(v: View, c: Command, s: nat, u: nat)
    ensures var w := Step(v, c);
            match c
            case Protect(page, _) =>
              && w.current == v.current && (s in w.spaces <==> s in v.spaces || s == page)
              && (s in w.spaces ==> (u in w.spaces[s] <==> s != page && u in v.spaces[s]))
              && (s in w.spaces && u in w.spaces[s] ==> w.spaces[s][u] == v.spaces[s][u])
            case MapPage(head, va, pa, prot, _, _) =>
              && w.current == v.current && (s in w.spaces <==> s in v.spaces)
              && (s in v.spaces ==> (u in w.spaces[s] <==> (s == head && u == va) || u in v.spaces[s]))
              && (s in v.spaces && s == head && u == va ==> w.spaces[s][u].pa == pa && w.spaces[s][u].prot == prot)
              && (s in v.spaces && !(s == head && u == va) && u in v.spaces[s] ==> w.spaces[s][u] == v.spaces[s][u])
            case SwitchTo(head) => w.current == head && w.spaces == v.spaces
  {
  }

  predicate LegalRun(v: View, pgsize: nat, commands: seq<Command>)
    requires pgsize > 0
    decreases |commands|
  {
    commands == [] || (Legal(v, pgsize, commands[0]) && LegalRun(Step(v, commands[0]), pgsize, commands[1..]))
  }

  function RunView(v: View, commands: seq<Command>): View
    decreases |commands|
  {
    if commands == [] then v else RunView(Step(v, commands[0]), commands[1..])
  }

  /** The pages that a run maps into one space, in order. */
  function Mapped(space: map<nat, Mapping>, head: nat, commands: seq<Command>): map<nat, Mapping>
    decreases |commands|
  {
    if commands == [] then space
    else
      match commands[0]
      case MapPage(h, va, pa, prot, _, _) =>
        Mapped(if h == head then WithPage(space, va, pa, prot) else space, head, commands[1..])
      case _ => Mapped(space, head, commands[1..])
  }

  /** Over a whole run a space changes only by the pages mapped into it. */
  lemma {:induction false} SpaceHistory(v: View, pgsize: nat, commands: seq<Command>, head: nat)
    requires pgsize > 0 && LegalRun(v, pgsize, commands)
    requires head in v.spaces && v.spaces.Keys <= v.pages
    ensures head in RunView(v, commands).spaces
    ensures RunView(v, commands).spaces[head] == Mapped(v.spaces[head], head, commands)
    decreases |commands|
  {
    if commands != [] {
      SpaceHistory(Step(v, commands[0]), pgsize, commands[1..], head);
    }
  }

  // ---------------------------------------------------------------- what each operation does to the lists

  /** A new head with an empty list. */
  lemma NewHead(heap: Heap, pgsize: nat, lists: Lists, page: nat, content: PageMap)
    requires pgsize > 0 && ListsOk(heap, pgsize, lists) && page != 0 && page !in heap && content.next == 0
    ensures ListsOk(heap[page := content], pgsize, lists[page := []])
    ensures Spaces(heap[page := content], pgsize, lists[page := []]) == Spaces(heap, pgsize, lists)[page := map[]]
  {
    var after, more := heap[page := content], lists[page := []];
    forall h | h in more
      ensures ListOk(after, pgsize, h, more[h])
      ensures h != page ==> h in lists && Entries(after, more[h]) == Entries(heap, lists[h])
    {
      if h != page {
        NewPage(heap, after, pgsize, h, lists[h]);
      }
    }
    hide ListOk;
    assert ListsOk(after, pgsize, more) by { NewApart(heap, pgsize, lists, page); }
  }

  lemma NewPage(heap: Heap, after: Heap, pgsize: nat, head: nat, nodes: seq<nat>)
    requires pgsize > 0 && ListOk(heap, pgsize, head, nodes)
    requires forall n <- heap :: n in after && after[n] == heap[n]
    ensures ListOk(after, pgsize, head, nodes) && Entries(after, nodes) == Entries(heap, nodes)
  {
    assert SameList(heap, after, nodes);
    ListFrame(heap, after, pgsize, head, nodes);
  }

  lemma NewApart(heap: Heap, pgsize: nat, lists: Lists, page: nat)
    requires pgsize > 0 && ListsOk(heap, pgsize, lists) && page !in heap
    ensures Apart(lists[page := []]) && page !in lists
  {
    hide Entries, Chain;
    assert page !in lists;
    assert forall h, n :: h in lists && n in lists[h] ==> n != page;
  }

  /** The heap after `map` has linked the node pp behind the head. */
  ghost predicate LinkedIn(heap: Heap, after: Heap, head: nat, pp: nat, va: nat, pa: nat, prot: nat)
  {
    && head in heap && head != pp && after.Keys == heap.Keys + {pp}
    && (forall n <- heap :: n != head && n != pp ==> after[n] == heap[n])
    && after[pp].va == va && after[pp].pa == pa && after[pp].prot == prot
    && after[pp].next == heap[head].next && after[head] == heap[head].(next := pp)
  }

  /** A new node in front of a list adds one page to it. */
  lemma ExtendedList(heap: Heap, after: Heap, pgsize: nat, head: nat, nodes: seq<nat>, pp: nat, va: nat, pa: nat, prot: nat)
    requires pgsize > 0 && ListOk(heap, pgsize, head, nodes) && head !in nodes
    requires pp != 0 && pp !in heap && LinkedIn(heap, after, head, pp, va, pa, prot)
    requires InUserSpace(va) && va % pgsize == 0 && va !in Entries(heap, nodes)
    ensures ListOk(after, pgsize, head, [pp] + nodes)
    ensures Entries(after, [pp] + nodes) == WithPage(Entries(heap, nodes), va, pa, prot)
  {
    var all := [pp] + nodes;
    assert all[1..] == nodes;
    assert SameList(heap, after, nodes);
    ChainFrame(heap, after, heap[head].next, nodes);
    EntriesFrame(heap, after, nodes);
    SameVas(heap, after, nodes);
    EntriesKeys(heap, nodes, va);
    forall i, j | 0 <= i < j < |all| ensures after[all[i]].va != after[all[j]].va {
      assert all[j] == nodes[j - 1] && nodes[j - 1] in nodes;
      assert i > 0 ==> all[i] == nodes[i - 1];
    }
  }

  /** Every other space is untouched by that. */
  lemma NewNode(heap: Heap, after: Heap, pgsize: nat, lists: Lists, head: nat, pp: nat, va: nat, pa: nat, prot: nat)
    requires pgsize > 0 && ListsOk(heap, pgsize, lists) && head in lists
    requires pp != 0 && pp !in heap && LinkedIn(heap, after, head, pp, va, pa, prot)
    requires InUserSpace(va) && va % pgsize == 0 && va !in Spaces(heap, pgsize, lists)[head]
    ensures ListsOk(after, pgsize, lists[head := [pp] + lists[head]])
    ensures Spaces(after, pgsize, lists[head := [pp] + lists[head]])
         == Spaces(heap, pgsize, lists)[head := WithPage(Spaces(heap, pgsize, lists)[head], va, pa, prot)]
  {
    hide Entries, Chain, DistinctVas, LinkedIn, InUserSpace;
    var more := lists[head := [pp] + lists[head]];
    forall h | h in more
      ensures ListOk(after, pgsize, h, more[h])
      ensures h != head ==> Entries(after, more[h]) == Entries(heap, lists[h])
    {
      if h != head {
        OtherList(heap, after, pgsize, lists, h, head, pp, va, pa, prot);
      } else {
        ExtendedList(heap, after, pgsize, head, lists[head], pp, va, pa, prot);
      }
    }
    ExtendedList(heap, after, pgsize, head, lists[head], pp, va, pa, prot);
    StillApart(heap, pgsize, lists, head, pp);
  }

  lemma OtherList(heap: Heap, after: Heap, pgsize: nat, lists: Lists, h: nat, head: nat, pp: nat, va: nat, pa: nat, prot: nat)
    requires pgsize > 0 && ListsOk(heap, pgsize, lists) && head in lists && h in lists && h != head
    requires pp !in heap && LinkedIn(heap, after, head, pp, va, pa, prot)
    ensures ListOk(after, pgsize, h, lists[h]) && Entries(after, lists[h]) == Entries(heap, lists[h])
  {
    hide Chain, Entries, DistinctVas;
    assert SameList(heap, after, lists[h]);
    ListFrame(heap, after, pgsize, h, lists[h]);
  }

  lemma StillApart(heap: Heap, pgsize: nat, lists: Lists, head: nat, pp: nat)
    requires pgsize > 0 && ListsOk(heap, pgsize, lists) && head in lists && pp !in heap
    ensures Apart(lists[head := [pp] + lists[head]])
  {
    hide Entries, Chain;
    assert pp !in lists;
    assert forall h, n :: h in lists && n in lists[h] ==> n != pp;
  }

  lemma OneSpace(heap: Heap, pgsize: nat, lists: Lists, head: nat)
    requires pgsize > 0 && ListsOk(heap, pgsize, lists) && head in lists
    ensures ListOk(heap, pgsize, head, lists[head]) && head !in lists[head]
    ensures Spaces(heap, pgsize, lists)[head] == Entries(heap, lists[head])
    ensures lists.Keys <= heap.Keys
  {
  }

  lemma HeadAllocated(heap: Heap, pgsize: nat, head: nat, nodes: seq<nat>)
    requires pgsize > 0 && ListOk(heap, pgsize, head, nodes)
    ensures head in heap && forall n <- nodes :: n in heap
  {
  }

  lemma ListEnds(heap: Heap, pgsize: nat, head: nat, nodes: seq<nat>)
    requires pgsize > 0 && ListOk(heap, pgsize, head, nodes)
    ensures head in heap && Ends(heap, head)
  {
  }

  lemma NewMarks(heap: Heap, after: Heap, lists: Lists, current: nat, head: nat, pp: nat)
    requires head in lists && MarksOk(heap, lists, current) && pp !in heap && pp in after && head in heap
    requires forall n <- heap :: n in after && after[n].isMapped == heap[n].isMapped
    requires after[pp].isMapped <==> head == current
    ensures MarksOk(after, lists[head := [pp] + lists[head]], current)
  {
  }

  /** The whole effect of a new node: one space gains one page, the list ends, the marks are right. */
  lemma AddedNode(heap: Heap, after: Heap, pgsize: nat, lists: Lists, current: nat, head: nat, pp: nat,
                  va: nat, pa: nat, prot: nat)
    requires pgsize > 0 && ListsOk(heap, pgsize, lists) && head in lists && MarksOk(heap, lists, current)
    requires pp != 0 && pp !in heap && LinkedIn(heap, after, head, pp, va, pa, prot)
    requires InUserSpace(va) && va % pgsize == 0 && va !in Spaces(heap, pgsize, lists)[head]
    requires after[pp].isMapped <==> head == current
    ensures ListsOk(after, pgsize, lists[head := [pp] + lists[head]]) && Ends(after, head)
    ensures Spaces(after, pgsize, lists[head := [pp] + lists[head]])
         == Spaces(heap, pgsize, lists)[head := WithPage(Spaces(heap, pgsize, lists)[head], va, pa, prot)]
    ensures MarksOk(after, lists[head := [pp] + lists[head]], current)
  {
    NewNode(heap, after, pgsize, lists, head, pp, va, pa, prot);
    hide ListsOk, Spaces, MarksOk, Ends;
    NewMarks(heap, after, lists, current, head, pp);
    var more := lists[head := [pp] + lists[head]];
    OneSpace(after, pgsize, more, head);
    ListEnds(after, pgsize, head, more[head]);
  }

  lemma Unmarked(heap: Heap, after: Heap, lists: Lists, head: nat)
    requires head in lists && Apart(lists) && MarksOk(heap, lists, head) && 0 !in lists
    requires SameButMarks(heap, after, lists[head]) && forall n <- lists[head] :: n in after && !after[n].isMapped
    ensures MarksOk(after, lists, 0)
  {
  }

  lemma Marked(heap: Heap, after: Heap, lists: Lists, head: nat)
    requires head in lists && Apart(lists) && MarksOk(heap, lists, 0) && 0 !in lists
    requires SameButMarks(heap, after, lists[head]) && forall n <- lists[head] :: n in after && after[n].isMapped
    ensures MarksOk(after, lists, head)
  {
  }

  // ---------------------------------------------------------------- the machine

  class Host {
    var heap: Heap
    var live: map<nat, Mapping>
    var current: nat
    var vmeEnable: bool
    const pgsize: nat
    ghost var lists: Lists

    ghost predicate Valid()
      reads this
    {
      && pgsize > 0 && ListsOk(heap, pgsize, lists) && 0 !in lists
      && (current == 0 || current in lists)
      && (!vmeEnable ==> current == 0 && lists == map[])
      && live == (if current == 0 then map[] else Spaces(heap, pgsize, lists)[current])
      && MarksOk(heap, lists, current)
    }

    ghost function Contents(): View
      reads this
      requires pgsize > 0 && ListsOk(heap, pgsize, lists)
    {
      View(Spaces(heap, pgsize, lists), current, heap.Keys)
    }

    constructor (pgsize_: nat)
      requires pgsize_ > 0
      ensures Valid() && pgsize == pgsize_ && !vmeEnable
      ensures Contents() == View(map[], 0, {}) && live == map[]
    {
      pgsize := pgsize_;
      heap, live, current, vmeEnable, lists := map[], map[], 0, false, map[];
    }

    method VmeInit()
      requires Valid()
      modifies this
      ensures Valid() && vmeEnable
      ensures Contents() == old(Contents()) && live == old(live)
    {
      vmeEnable := true;
    }

    /** `page` is the zeroed page that `pgalloc` returns. */
    method Protect(page: nat, content: PageMap) returns (head: nat)
      requires Valid() && vmeEnable && Legal(Contents(), pgsize, Command.Protect(page, content))
      modifies this
      ensures Valid() && vmeEnable && head == page
      ensures Contents() == Step(old(Contents()), Command.Protect(page, content)) && live == old(live)
    {
      hide ListsOk, Spaces, ListOk, Chain, Entries, Ends;
      NewHead(heap, pgsize, lists, page, content);
      if current != 0 { OneSpace(heap, pgsize, lists, current); }
      heap := heap[page := content];
      lists := lists[page := []];
      head := page;
    }

    /** The current list is unmapped, the list of the next space is mapped. */
    method Switch(head: nat)
      requires Valid() && (head == 0 || head in lists)
      modifies this
      ensures Valid() && vmeEnable == old(vmeEnable) && lists == old(lists)
      ensures Contents() == Step(old(Contents()), SwitchTo(head))
      ensures live == if head == 0 then map[] else Contents().spaces[head]
    {
      hide ListsOk, MarksOk, Spaces;
      if !vmeEnable { return; }
      if head == current { return; }
      if current != 0 { UnmapList(); }
      if head != 0 { MapList(head); }
      current := head;
    }

    /** The first loop of `__am_switch`: afterwards nothing is live and no node is marked. */
    method UnmapList()
      requires Valid() && current != 0
      modifies this`heap, this`live
      ensures live == map[] && heap.Keys == old(heap).Keys
      ensures ListsOk(heap, pgsize, lists) && MarksOk(heap, lists, 0)
      ensures Spaces(heap, pgsize, lists) == old(Spaces(heap, pgsize, lists))
    {
      hide Chain, Entries, DistinctVas, Spaces;
      OneSpace(heap, pgsize, lists, current);
      ghost var nodes := lists[current];
      UnmapNodes(nodes);
      Remarked(old(heap), heap, pgsize, lists, nodes);
      Unmarked(old(heap), heap, lists, current);
    }

    method UnmapNodes(ghost nodes: seq<nat>)
      requires pgsize > 0 && current in heap && Listed(heap, pgsize, heap[current].next, nodes)
      requires live == Entries(heap, nodes) && forall n <- nodes :: heap[n].isMapped
      modifies this`heap, this`live
      ensures live == map[] && SameButMarks(old(heap), heap, nodes)
      ensures forall n <- nodes :: n in heap && !heap[n].isMapped
    {
      hide Chain, DistinctVas, Entries, InUserSpace;
      var pp := heap[current].next;
      ghost var rest := nodes;
      while pp != 0
        invariant Listed(heap, pgsize, pp, rest) && live == Entries(heap, rest)
        invariant SameButMarks(old(heap), heap, nodes)
        invariant forall n <- nodes :: n in rest || (n in heap && !heap[n].isMapped)
        invariant forall n <- rest :: n in nodes && n in heap && heap[n].isMapped
        decreases |rest|
      {
        FrontAllocated(heap, pgsize, pp, rest);
        Advance(heap, heap[pp := heap[pp].(isMapped := false)], pgsize, pp, rest);
        if heap[pp].isMapped {
          live := live - {heap[pp].va};
          heap := heap[pp := heap[pp].(isMapped := false)];
        }
        pp := heap[pp].next;
        assert rest == [rest[0]] + rest[1..];
        rest := rest[1..];
      }
      NoNodes(heap, pgsize, rest);
    }

    /** The second loop of `__am_switch`: afterwards exactly this list is live and marked. */
    method MapList(head: nat)
      requires pgsize > 0 && ListsOk(heap, pgsize, lists) && MarksOk(heap, lists, 0) && 0 !in lists
      requires head in lists && live == map[]
      modifies this`heap, this`live
      ensures ListsOk(heap, pgsize, lists) && heap.Keys == old(heap).Keys && MarksOk(heap, lists, head)
      ensures Spaces(heap, pgsize, lists) == old(Spaces(heap, pgsize, lists))
      ensures live == Spaces(heap, pgsize, lists)[head]
    {
      hide Chain, Entries, DistinctVas, Spaces;
      OneSpace(heap, pgsize, lists, head);
      ghost var nodes := lists[head];
      MapNodes(head, nodes);
      Remarked(old(heap), heap, pgsize, lists, nodes);
      Marked(old(heap), heap, lists, head);
    }

    method MapNodes(head: nat, ghost nodes: seq<nat>)
      requires pgsize > 0 && head in heap && Listed(heap, pgsize, heap[head].next, nodes)
      requires live == map[]
      modifies this`heap, this`live
      ensures live == Entries(old(heap), nodes) && SameButMarks(old(heap), heap, nodes)
      ensures forall n <- nodes :: n in heap && heap[n].isMapped
    {
      hide Chain, DistinctVas, Entries, InUserSpace;
      var pp := heap[head].next;
      ghost var rest := nodes;
      while pp != 0
        invariant Listed(heap, pgsize, pp, rest)
        invariant live + Entries(heap, rest) == Entries(old(heap), nodes)
        invariant SameButMarks(old(heap), heap, nodes)
        invariant forall n <- nodes :: n in rest || (n in heap && heap[n].isMapped)
        invariant forall n <- rest :: n in nodes
        decreases |rest|
      {
        ghost var was, before := heap, live;
        FrontAllocated(heap, pgsize, pp, rest);
        Advance(heap, heap[pp := heap[pp].(isMapped := true)], pgsize, pp, rest);
        assert InUserSpace(heap[pp].va);
        live := live[heap[pp].va := Mapping(heap[pp].pa, heap[pp].prot)];
        heap := heap[pp := heap[pp].(isMapped := true)];
        pp := heap[pp].next;
        assert rest == [rest[0]] + rest[1..];
        assert live + Entries(heap, rest[1..]) == before + Entries(was, rest);
        rest := rest[1..];
      }
      NoNodes(heap, pgsize, rest);
    }

    /** The search loop of `map`. */
    method Find(head: nat, va: nat, ghost nodes: seq<nat>) returns (pp: nat)
      requires pgsize > 0 && ListOk(heap, pgsize, head, nodes)
      ensures pp == 0 ==> va !in Entries(heap, nodes)
      ensures pp != 0 ==> pp in nodes && heap[pp].va == va && va in Entries(heap, nodes)
    {
      hide Chain, DistinctVas, Entries, InUserSpace;
      pp := heap[head].next;
      ghost var rest := nodes;
      EntriesKeys(heap, nodes, va);
      FrontAllocated(heap, pgsize, pp, rest);
      while pp != 0 && heap[pp].va != va
        invariant Listed(heap, pgsize, pp, rest)
        invariant forall n <- rest :: n in nodes
        invariant forall n <- nodes :: n in rest || heap[n].va != va
        invariant pp != 0 ==> pp in rest
        decreases |rest|
      {
        Advance(heap, heap, pgsize, pp, rest);
        assert rest == [rest[0]] + rest[1..];
        pp := heap[pp].next;
        rest := rest[1..];
        FrontAllocated(heap, pgsize, pp, rest);
      }
      if pp == 0 { NoNodes(heap, pgsize, rest); }
    }

    /**
     Maps a page, or fails an assertion of the source. `page` is what `pgalloc` returns if a new node is
     needed, with any content. A page already listed in this space is found and relinked, and from then
     on the walk of the list never ends; in every other case the space gains exactly this page.
     */
    method Map(head: nat, va: nat, pa: nat, prot: nat, page: nat, content: PageMap) returns (ok: bool)
      requires Valid() && vmeEnable && (head == 0 || head in lists)
      requires page != 0 && page !in heap
      modifies this
      ensures ok <==> 0x4000_0000 <= va < 0xc000_0000 && va % pgsize == 0 && pa % pgsize == 0 && head != 0
      ensures !ok ==> Valid() && Contents() == old(Contents()) && live == old(live)
      ensures vmeEnable
      ensures ok && va !in old(Contents()).spaces[head] ==>
                Valid() && Contents() == Step(old(Contents()), MapPage(head, va, pa, prot, page, content))
      ensures ok ==> head in heap && (Ends(heap, head) <==> va !in old(Contents()).spaces[head])
    {
      hide ListsOk, Spaces, MarksOk, Ends, ListOk, Entries, PageArgs, Chain, DistinctVas;
      PageArgsAre(pgsize, va, pa);
      if !PageArgs(pgsize, va, pa) || head == 0 {
        return false;
      }
      ok := true;
      ghost var nodes := lists[head];
      OneSpace(heap, pgsize, lists, head);
      HeadAllocated(heap, pgsize, head, nodes);
      var pp := Find(head, va, nodes);
      ghost var listed := pp != 0;
      if pp == 0 {
        heap := heap[page := content];
        pp := page;
      }
      Link(head, pp, va, pa, prot);
      if !listed {
        AddedNode(old(heap), heap, pgsize, lists, current, head, page, va, pa, prot);
        lists := lists[head := [page] + nodes];
      } else {
        Relinked(old(heap), heap, pgsize, head, nodes, pp);
      }
    }

    /** The second half of `map`: fill the node, put it behind the head, install it if this space is. */
    method Link(head: nat, pp: nat, va: nat, pa: nat, prot: nat)
      requires head in heap && pp in heap && head != pp
      modifies this`heap, this`live
      ensures LinkedIn(old(heap), heap, head, pp, va, pa, prot)
      ensures heap[pp].isMapped <==> head == current
      ensures live == if head == current then old(live)[va := Mapping(pa, prot)] else old(live)
    {
      heap := heap[pp := heap[pp].(va := va, pa := pa, prot := prot, isMapped := false)];
      heap := heap[pp := heap[pp].(next := heap[head].next)];
      heap := heap[head := heap[head].(next := pp)];
      if head == current {
        live := live[va := Mapping(pa, prot)];
        heap := heap[pp := heap[pp].(isMapped := true)];
      }
    }

    method Execute(c: Command)
      requires Valid() && vmeEnable && Legal(Contents(), pgsize, c)
      modifies this
      ensures Valid() && vmeEnable && Contents() == Step(old(Contents()), c)
    {
      hide ListsOk, Spaces, MarksOk;
      match c
      case Protect(page, content) => var _ := Protect(page, content);
      case MapPage(head, va, pa, prot, page, content) => var _ := Map(head, va, pa, prot, page, content);
      case SwitchTo(head) => Switch(head);
    }

    /** Over every legal run the live mappings are exactly the pages of the installed space. */
    method Run(commands: seq<Command>)
      requires Valid() && vmeEnable && LegalRun(Contents(), pgsize, commands)
      modifies this
      ensures Valid() && vmeEnable && Contents() == RunView(old(Contents()), commands)
      ensures live == if Contents().current == 0 then map[] else Contents().spaces[Contents().current]
      decreases |commands|
    {
      hide ListsOk, Spaces, MarksOk, Legal, Step;
      if commands != [] {
        Execute(commands[0]);
        Run(commands[1..]);
      }
    }
  }
}
