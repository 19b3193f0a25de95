/**
 The watchpoint pool of the debugger (nemu/src/monitor/debug/watchpoint.c): a fixed array of nodes,
 threaded by `next` into a list of active watchpoints and a list of free ones. A pointer into the pool
 is the index of the node; NULL is -1.
 */
module Watchpoint {
  import opened Common
  import ExprTokenizer

  /** The outcomes of evaluating a watched text. */
  type Answer = ExprTokenizer.Answer

  const NR_WP: nat := 32
  const NULL: int := -1

  datatype WP = WP(no: nat, next: int, text: string, value: U32)

  // ---------------------------------------------------------------- lists

  /** The i-th node of a list, or NULL past its end. */
  function NodeAt(nodes: seq<nat>, i: nat): int
  {
    if i < |nodes| then nodes[i] else NULL
  }

  /** Following `next` from `first` visits exactly these nodes, in this order, and ends at NULL. */
  ghost predicate Linked(pool: seq<WP>, first: int, nodes: seq<nat>)
  {
    && first == NodeAt(nodes, 0)
    && (forall n <- nodes :: n < |pool|)
    && forall i {:trigger pool[nodes[i]]} :: 0 <= i < |nodes| && nodes[i] < |pool| ==>
         pool[nodes[i]].next == NodeAt(nodes, i + 1)
  }

  /** Both lists end, repeat nothing, share nothing and hold the whole pool; numbers never change. */
  ghost predicate PoolOk(pool: seq<WP>, head: int, spareHead: int, active: seq<nat>, spare: seq<nat>)
  {
    && |pool| == NR_WP && (forall i :: 0 <= i < NR_WP ==> pool[i].no == i)
    && Linked(pool, head, active) && Linked(pool, spareHead, spare)
    && NoDup(active) && NoDup(spare)
    && Split(active, spare)
  }

  /** Every pool node is in exactly one of the lists, and nothing else is. */
  ghost predicate Split(active: seq<nat>, spare: seq<nat>)
  {
    && (forall n <- active :: n < NR_WP && n !in spare)
    && (forall n <- spare :: n < NR_WP && n !in active)
    && (forall n: nat :: n < NR_WP ==> n in active || n in spare)
  }

  function Without(nodes: seq<nat>, k: nat): seq<nat>
    requires k < |nodes|
  {
    nodes[..k] + nodes[k + 1..]
  }

  /** The list links are kept when nothing but text and value of its nodes changes. */
  lemma LinkedFrame(p1: seq<WP>, p2: seq<WP>, first: int, nodes: seq<nat>)
    requires Linked(p1, first, nodes) && |p1| == |p2|
    requires forall n <- nodes :: n < |p1| ==> p2[n].next == p1[n].next
    ensures Linked(p2, first, nodes)
  {
    forall i | 0 <= i < |nodes| ensures nodes[i] < |p2| && p2[nodes[i]].next == NodeAt(nodes, i + 1) {
      assert nodes[i] in nodes;
      assert p1[nodes[i]].next == NodeAt(nodes, i + 1);
    }
  }

  lemma LinkedPush(p1: seq<WP>, p2: seq<WP>, first: int, nodes: seq<nat>, n: nat)
    requires Linked(p1, first, nodes) && |p1| == |p2| && n < |p1| && n !in nodes
    requires p2 == p1[n := p2[n]] && p2[n].next == first
    ensures Linked(p2, n, [n] + nodes)
  {
    var all := [n] + nodes;
    forall i | 0 <= i < |all| ensures all[i] < |p2| && p2[all[i]].next == NodeAt(all, i + 1) {
      if i > 0 {
        assert all[i] == nodes[i - 1] && nodes[i - 1] in nodes;
        assert p1[nodes[i - 1]].next == NodeAt(nodes, i);
        assert NodeAt(all, i + 1) == NodeAt(nodes, i);
      } else {
        assert NodeAt(all, 1) == NodeAt(nodes, 0);
      }
    }
  }

  lemma LinkedPop(pool: seq<WP>, first: int, nodes: seq<nat>)
    requires Linked(pool, first, nodes) && nodes != []
    ensures first == nodes[0] && nodes[0] < |pool| && Linked(pool, pool[nodes[0]].next, nodes[1..])
  {
    assert nodes[0] in nodes;
    assert pool[nodes[0]].next == NodeAt(nodes, 1);
    var tail := nodes[1..];
    forall i | 0 <= i < |tail| ensures tail[i] < |pool| && pool[tail[i]].next == NodeAt(tail, i + 1) {
      assert tail[i] == nodes[i + 1] && nodes[i + 1] in nodes;
      assert pool[nodes[i + 1]].next == NodeAt(nodes, i + 2);
    }
  }

  /** Bypassing the node after position k - 1 removes exactly that node from the list. */
  lemma LinkedSkip(p1: seq<WP>, p2: seq<WP>, first: int, nodes: seq<nat>, k: nat)
    requires Linked(p1, first, nodes) && NoDup(nodes) && 0 < k < |nodes| && |p1| == |p2|
    requires nodes[k - 1] < |p1| && p2 == p1[nodes[k - 1] := p2[nodes[k - 1]]]
    requires p2[nodes[k - 1]].next == NodeAt(nodes, k + 1)
    ensures Linked(p2, first, Without(nodes, k))
  {
    var all := Without(nodes, k);
    forall i | 0 <= i < |all| ensures all[i] < |p2| && p2[all[i]].next == NodeAt(all, i + 1) {
      var j := if i < k then i else i + 1;
      assert all[i] == nodes[j] && nodes[j] in nodes;
      assert p1[nodes[j]].next == NodeAt(nodes, j + 1);
      assert i == k - 1 || nodes[j] != nodes[k - 1];
    }
  }

  lemma WithoutMembers(nodes: seq<nat>, k: nat)
    requires k < |nodes| && NoDup(nodes)
    ensures NoDup(Without(nodes, k))
    ensures forall n :: n in Without(nodes, k) <==> n in nodes && n != nodes[k]
  {
    var less := Without(nodes, k);
    forall i, j | 0 <= i < j < |less| ensures less[i] != less[j] {
      assert less[i] == nodes[if i < k then i else i + 1];
      assert less[j] == nodes[if j < k then j else j + 1];
    }
    forall n ensures n in less <==> n in nodes && n != nodes[k] {
      if n in less {
        var i :| 0 <= i < |less| && less[i] == n;
        assert less[i] == nodes[if i < k then i else i + 1];
      }
      if n in nodes && n != nodes[k] {
        var i :| 0 <= i < |nodes| && nodes[i] == n;
        assert less[if i < k then i else i - 1] == n;
      }
    }
  }

  /** Moving the k-th node of one list to the front of the other. */
  lemma MoveSplit(from: seq<nat>, to: seq<nat>, k: nat)
    requires Split(from, to) && NoDup(from) && NoDup(to) && k < |from|
    ensures Split(Without(from, k), [from[k]] + to)
    ensures NoDup(Without(from, k)) && NoDup([from[k]] + to)
  {
    WithoutMembers(from, k);
    assert from[k] in from;
    var all := [from[k]] + to;
    forall i, j | 0 <= i < j < |all| ensures all[i] != all[j] {
      assert all[j] == to[j - 1] && to[j - 1] in to;
      assert i > 0 ==> all[i] == to[i - 1];
    }
    assert forall n :: n in all <==> n == from[k] || n in to;
  }

  lemma SplitSym(active: seq<nat>, spare: seq<nat>)
    requires Split(active, spare)
    ensures Split(spare, active)
  {
  }

  /** The lengths of the lists always add up to the size of the pool. */
  lemma PoolSize(active: seq<nat>, spare: seq<nat>)
    requires Split(active, spare) && NoDup(active) && NoDup(spare)
    ensures |active| + |spare| == 32
  {
    var all := active + spare;
    forall i, j | 0 <= i < j < |all| ensures all[i] != all[j] {
      if i < |active| <= j {
        assert all[i] in active && all[j] in spare;
      }
    }
    assert forall n: nat :: n < NR_WP ==> n in all;
    assert forall n <- all :: n < NR_WP;
    Enumerates(all, NR_WP);
  }

  /** A list without repetition of exactly the numbers below n has length n. */
  lemma {:induction false} Enumerates(nodes: seq<nat>, n: nat)
    requires NoDup(nodes) && forall m: nat :: m < n <==> m in nodes
    ensures |nodes| == n
  {
    assert nodes == [] || exists m :: m in nodes by { assert nodes == [] || nodes[0] in nodes; }
    if n > 0 {
      var last: nat := n - 1;
      assert last in nodes;
      var k :| 0 <= k < |nodes| && nodes[k] == last;
      WithoutMembers(nodes, k);
      Enumerates(Without(nodes, k), n - 1);
    }
  }

  // ---------------------------------------------------------------- what each operation does to the lists

  /** `new_wp` moves the first free node to the front of the active list. */
  lemma Taken(p1: seq<WP>, p2: seq<WP>, head: int, spareHead: int, active: seq<nat>, spare: seq<nat>)
    requires PoolOk(p1, head, spareHead, active, spare) && spare != [] && spare[0] < |p1|
    requires |p2| == |p1| && p2 == p1[spare[0] := p1[spare[0]].(next := head)]
    ensures spareHead == spare[0]
    ensures PoolOk(p2, spare[0], p1[spare[0]].next, [spare[0]] + active, spare[1..])
  {
    hide Split, NoDup, Linked;
    var n := spare[0];
    assert n in spare;
    assert n !in active by { assert Split(active, spare); NotIn(active, spare, n); }
    LinkedPush(p1, p2, head, active, n);
    LinkedPop(p1, spareHead, spare);
    SplitSym(active, spare);
    MoveSplit(spare, active, 0);
    assert Without(spare, 0) == spare[1..];
    SplitSym(spare[1..], [n] + active);
    NotIn([n] + active, spare[1..], n);
    LinkedFrame(p1, p2, p1[n].next, spare[1..]);
  }

  lemma NotIn(active: seq<nat>, spare: seq<nat>, n: nat)
    requires Split(active, spare)
    ensures n in spare ==> n !in active && n < NR_WP
    ensures n in active ==> n !in spare && n < NR_WP
  {
  }

  /** `free_wp` on the first active node: the pool with its value cleared and its link redirected. */
  lemma ReleasedFirst(p1: seq<WP>, p2: seq<WP>, head: int, spareHead: int, active: seq<nat>, spare: seq<nat>)
    requires PoolOk(p1, head, spareHead, active, spare) && active != [] && active[0] < |p1|
    requires |p2| == |p1| && p2 == p1[active[0] := p1[active[0]].(next := spareHead, value := 0)]
    ensures head == active[0] && PoolOk(p2, p1[active[0]].next, active[0], Without(active, 0), [active[0]] + spare)
  {
    hide Split, NoDup, Linked;
    var n := active[0];
    assert n in active;
    NotIn(active, spare, n);
    LinkedPush(p1, p2, spareHead, spare, n);
    LinkedPop(p1, head, active);
    MoveSplit(active, spare, 0);
    assert Without(active, 0) == active[1..];
    NotIn(active[1..], [n] + spare, n);
    LinkedFrame(p1, p2, p1[n].next, active[1..]);
  }

  /** `free_wp` on a later active node. */
  lemma ReleasedLater(p1: seq<WP>, p2: seq<WP>, p3: seq<WP>, head: int, spareHead: int, active: seq<nat>, spare: seq<nat>, k: nat)
    requires PoolOk(p1, head, spareHead, active, spare) && 0 < k < |active|
    requires |p1| == |p2| == |p3|
    requires active[k - 1] < NR_WP && active[k] < NR_WP
    requires p2 == p1[active[k - 1] := p1[active[k - 1]].(next := p1[active[k]].next)]
    requires p3 == p2[active[k] := p2[active[k]].(next := spareHead, value := 0)]
    ensures PoolOk(p3, head, active[k], Without(active, k), [active[k]] + spare)
  {
    hide Split, NoDup, Linked;
    var n := active[k];
    assert n in active && active[k - 1] in active;
    NextOf(p1, head, active, k);
    LinkedSkip(p1, p2, head, active, k);
    SpareUntouched(p1, p2, spareHead, active, spare, active[k - 1]);
    NotIn(active, spare, n);
    LinkedPush(p2, p3, spareHead, spare, n);
    MoveSplit(active, spare, k);
    WithoutMembers(active, k);
    LinkedFrame(p2, p3, head, Without(active, k));
  }

  lemma NextOf(pool: seq<WP>, first: int, nodes: seq<nat>, k: nat)
    requires Linked(pool, first, nodes) && k < |nodes|
    ensures nodes[k] < |pool| && pool[nodes[k]].next == NodeAt(nodes, k + 1)
  {
    assert nodes[k] in nodes;
    assert pool[nodes[k]].next == NodeAt(nodes, k + 1);
  }

  lemma SpareUntouched(p1: seq<WP>, p2: seq<WP>, spareHead: int, active: seq<nat>, spare: seq<nat>, n: nat)
    requires Split(active, spare) && n in active && Linked(p1, spareHead, spare) && n < |p1| == |p2|
    requires p2 == p1[n := p2[n]]
    ensures Linked(p2, spareHead, spare)
  {
    LinkedFrame(p1, p2, spareHead, spare);
  }

  /** The links left by `init_wp_pool`: every node is free. */
  lemma InitialPool(pool: seq<WP>)
    requires |pool| == NR_WP
    requires forall i :: 0 <= i < NR_WP ==> pool[i].no == i && pool[i].next == if i + 1 < NR_WP then i + 1 else NULL
    ensures PoolOk(pool, NULL, 0, [], seq(NR_WP, i requires 0 <= i => i))
  {
    var spare: seq<nat> := seq(NR_WP, i requires 0 <= i => i);
    forall n: nat | n < NR_WP ensures n in spare {
      assert spare[n] == n;
    }
  }

  lemma EmptyIsNull(pool: seq<WP>, first: int, nodes: seq<nat>)
    requires Linked(pool, first, nodes)
    ensures first == NULL <==> nodes == []
    ensures nodes != [] ==> first == nodes[0] && nodes[0] in nodes && nodes[0] < |pool|
  {
    if nodes != [] { assert nodes[0] in nodes; }
  }

  /** Only the text and value of the nodes that `keep` excludes may have changed. */
  ghost predicate SameWatches(p1: seq<WP>, p2: seq<WP>, except: set<nat>)
  {
    && |p1| == |p2|
    && forall i: nat :: i < |p1| && i !in except ==>
         p2[i].no == p1[i].no && p2[i].text == p1[i].text && p2[i].value == p1[i].value
  }

  lemma ActiveBound(active: seq<nat>, spare: seq<nat>)
    requires Split(active, spare)
    ensures forall n <- active :: n < NR_WP && n !in spare
  {
  }

  lemma Revalued(pool: seq<WP>, head: int, spareHead: int, active: seq<nat>, spare: seq<nat>, p: nat, w: WP)
    requires PoolOk(pool, head, spareHead, active, spare) && p < |pool|
    requires w.no == pool[p].no && w.next == pool[p].next
    ensures PoolOk(pool[p := w], head, spareHead, active, spare)
  {
    LinkedFrame(pool, pool[p := w], head, active);
    LinkedFrame(pool, pool[p := w], spareHead, spare);
  }

  /** The first k active watchpoints store their current value, nothing else has changed. */
  ghost predicate Checked(before: seq<WP>, now: seq<WP>, nodes: seq<nat>, eval: string -> Answer)
  {
    && |before| == |now|
    && (forall i: nat :: i < |now| ==> now[i].text == before[i].text)
    && (forall i: nat :: i < |now| && i !in nodes ==> now[i] == before[i])
    && forall n <- nodes :: n < |now| && eval(before[n].text) == ExprTokenizer.Value(now[n].value)
  }

  ghost predicate SameTexts(before: seq<WP>, now: seq<WP>)
  {
    |before| == |now| && forall i: nat :: i < |now| ==> now[i].text == before[i].text
  }

  ghost predicate Differs(before: seq<WP>, nodes: seq<nat>, eval: string -> Answer)
  {
    exists n <- nodes :: n < |before| && eval(before[n].text) != ExprTokenizer.Value(before[n].value)
  }

  lemma CheckedStep(before: seq<WP>, now: seq<WP>, nodes: seq<nat>, k: nat, eval: string -> Answer)
    requires NoDup(nodes) && k < |nodes| && nodes[k] < |now|
    requires Checked(before, now, nodes[..k], eval) && eval(before[nodes[k]].text).Value?
    ensures now[nodes[k]] == before[nodes[k]]
    ensures Checked(before, now[nodes[k] := now[nodes[k]].(value := eval(before[nodes[k]].text).value)], nodes[..k + 1], eval)
    ensures Differs(before, nodes[..k + 1], eval)
       <==> Differs(before, nodes[..k], eval) || before[nodes[k]].value != eval(before[nodes[k]].text).value
  {
    assert nodes[..k + 1] == nodes[..k] + [nodes[k]];
    assert nodes[k] !in nodes[..k];
  }

  // ---------------------------------------------------------------- the pool

  class WatchPool {
    const pool: array<WP>
    var head: int
    var free: int
    ghost var active: seq<nat>
    ghost var spare: seq<nat>

    ghost predicate Valid()
      reads this, pool
    {
      PoolOk(pool[..], head, free, active, spare)
    }

    /** `init_wp_pool` on the static array. */
    constructor ()
      ensures Valid() && fresh(pool) && active == []
    {
      pool := new WP[NR_WP](_ => WP(0, NULL, "", 0));
      new;
      for i := 0 to NR_WP
        invariant pool.Length == NR_WP && fresh(pool)
        invariant forall j :: 0 <= j < i ==> pool[j].no == j && pool[j].next == j + 1
      {
        pool[i] := WP(i, i + 1, "", 0);
      }
      pool[NR_WP - 1] := pool[NR_WP - 1].(next := NULL);
      head, free := NULL, 0;
      active, spare := [], seq(NR_WP, i requires 0 <= i => i);
      InitialPool(pool[..]);
    }

    /** Takes the first free node; the source's assertion fails exactly when none is left. */
    method NewWp() returns (ok: bool, wp: int)
      requires Valid()
      modifies this, pool
      ensures Valid() && SameWatches(old(pool[..]), pool[..], {})
      ensures ok <==> old(spare) != []
      ensures !ok ==> active == old(active) && spare == old(spare) && pool[..] == old(pool[..])
      ensures ok ==> 0 <= wp < NR_WP && old(spare) == [wp] + spare && active == [wp] + old(active) && wp == head
    {
      hide Linked, Split, NoDup;
      var p := free;
      EmptyIsNull(pool[..], free, spare);
      if p == NULL {
        return false, NULL;
      }
      Taken(pool[..], pool[..][p := pool[p].(next := head)], head, free, active, spare);
      free := pool[free].next;
      pool[p] := pool[p].(next := head);
      head := p;
      active, spare := [spare[0]] + active, spare[1..];
      ok, wp := true, head;
    }

    /**
     Moves an active node to the free list and clears its value; on any other pointer an assertion of the
     source fails.
     */
    method FreeWp(wp: int) returns (ok: bool)
      requires Valid() && (wp == NULL || 0 <= wp < NR_WP)
      modifies this, pool
      ensures ok <==> wp in old(active)
      ensures ok ==> Valid() && SameWatches(old(pool[..]), pool[..], {wp as nat}) && pool[wp].value == 0
      ensures ok ==> spare == [wp as nat] + old(spare)
      ensures ok ==> exists k: nat :: k < |old(active)| && old(active)[k] == wp && active == Without(old(active), k)
    {
      hide Linked, Split, NoDup;
      EmptyIsNull(pool[..], head, active);
      if wp == NULL || head == NULL {
        return false;
      }
      ghost var p1, target := pool[..], pool[..];
      pool[wp] := pool[wp].(value := 0);
      if head == wp {
        head := pool[wp].next;
        target := p1[wp := p1[wp].(next := free, value := 0)];
        ReleasedFirst(p1, target, wp, free, active, spare);
        active := Without(active, 0);
      } else {
        LinkedFrame(p1, pool[..], head, active);
        var pre;
        ghost var k;
        pre, k := FindBefore(wp, head, active);
        if pool[pre].next != wp {
          return false;
        }
        assert active[k] == wp && active[k - 1] == pre;
        pool[pre] := pool[pre].(next := pool[wp].next);
        ghost var p2 := p1[pre := p1[pre].(next := p1[wp].next)];
        target := p2[wp := p2[wp].(next := free, value := 0)];
        ReleasedLater(p1, p2, target, head, free, active, spare, k);
        active := Without(active, k);
      }
      pool[wp] := pool[wp].(next := free);
      assert pool[..] == target;
      free := wp;
      spare := [wp as nat] + spare;
      ok := true;
    }

    /** The search loop of `free_wp`: stops at the node in front of wp, or at the last node. */
    method FindBefore(wp: nat, first: nat, ghost nodes: seq<nat>) returns (pre: nat, ghost k: nat)
      requires Linked(pool[..], first, nodes) && nodes != [] && first != wp
      ensures 0 < k <= |nodes| && nodes[k - 1] == pre && pre < pool.Length
      ensures pool[pre].next == NodeAt(nodes, k)
      ensures pre != wp && (NodeAt(nodes, k) == wp || wp !in nodes)
    {
      hide Linked;
      EmptyIsNull(pool[..], first, nodes);
      pre, k := first, 1;
      NextOf(pool[..], first, nodes, 0);
      while pool[pre].next != wp && pool[pre].next != NULL
        invariant 0 < k <= |nodes| && nodes[k - 1] == pre && pre < pool.Length
        invariant pool[pre].next == NodeAt(nodes, k)
        invariant forall i :: 0 <= i < k ==> nodes[i] != wp
        decreases |nodes| - k
      {
        NextOf(pool[..], first, nodes, k);
        pre := pool[pre].next;
        k := k + 1;
      }
    }

    /** Finds the watchpoint with this number exactly when it is active. */
    method NoToWp(no: int) returns (wp: int)
      requires Valid()
      ensures wp == if no in active then no else NULL
      ensures wp != NULL ==> 0 <= wp < pool.Length && pool[wp].no == no
    {
      hide Linked, Split, NoDup;
      ActiveBound(active, spare);
      EmptyIsNull(pool[..], head, active);
      if no > NR_WP {
        return NULL;
      }
      wp := head;
      ghost var k: nat := 0;
      while wp != NULL
        invariant k <= |active| && wp == NodeAt(active, k)
        invariant forall i :: 0 <= i < k ==> active[i] != no
        decreases |active| - k
      {
        NextOf(pool[..], head, active, k);
        if pool[wp].no == no {
          return;
        }
        wp := pool[wp].next;
        k := k + 1;
      }
    }

    /**
     Re-evaluates every active watchpoint. The program stops (`ok` is false) exactly when one of the texts has
     no value: it is not an expression, or its evaluation fails an assertion. Otherwise every watchpoint now
     stores its current value, and the answer says whether any of them had another value before.
     */
    method CheckWpChanged(eval: string -> Answer) returns (ok: bool, changed: bool)
      requires Valid()
      modifies pool
      ensures Valid()
      ensures ok <==> forall n <- active :: n < NR_WP && eval(old(pool[..])[n].text).Value?
      ensures SameTexts(old(pool[..]), pool[..])
      ensures ok ==> Checked(old(pool[..]), pool[..], active, eval)
      ensures ok ==> (changed <==> Differs(old(pool[..]), active, eval))
    {
      hide Linked, Split, NoDup;
      ActiveBound(active, spare);
      EmptyIsNull(pool[..], head, active);
      ghost var before := pool[..];
      assert forall i :: 0 <= i < |active| ==> active[i] in active;
      var p := head;
      changed := false;
      ghost var k: nat := 0;
      while p != NULL
        invariant k <= |active| && p == NodeAt(active, k)
        invariant PoolOk(pool[..], head, free, active, spare)
        invariant Checked(before, pool[..], active[..k], eval)
        invariant changed <==> Differs(before, active[..k], eval)
        decreases |active| - k
      {
        NextOf(pool[..], head, active, k);
        var answer := eval(pool[p].text);
        if !answer.Value? {
          return false, changed;
        }
        CheckedStep(before, pool[..], active, k, eval);
        ghost var now := pool[..];
        var v := answer.value;
        Revalued(pool[..], head, free, active, spare, p, pool[p].(value := v));
        if v != pool[p].value {
          pool[p] := pool[p].(value := v);
          changed := true;
        }
        assert pool[..] == now[p := now[p].(value := v)];
        p := pool[p].next;
        k := k + 1;
      }
      assert active[..k] == active;
      ok := true;
    }
  }
}
