/**
 The run loop of the emulator with its watchpoints (nemu/src/monitor/cpu-exec.c, and the commands `w`,
 `d`, `si`, `c` and `q` of nemu/src/monitor/debug/ui.c with the loop that reads them), in the configuration of nemu/include/common.h: DEBUG is
 defined and HAS_IOE is not. The guest machine, one instruction of it, and the evaluation of a text in it are
 parameters; `ExprMonitor` uses the evaluation of the debugger. Evaluating a text can stop the program.
 */
module CpuExec {
  import opened Common
  import opened Watchpoint
  import ExprEval
  import ExprTokenizer

  datatype RunState = STOP | RUNNING | END | ABORT | QUIT

  datatype NemuState = NemuState(state: RunState, haltPc: nat, haltRet: nat)

  /** One instruction: the next machine, and the exit it requests through `rtl_exit`, if any. */
  datatype Outcome<M> = Next(machine: M) | Exit(machine: M, abort: bool, pc: nat, ret: nat)

  // ---------------------------------------------------------------- what a run is

  /** The machine after k instructions. */
  function After<M>(step: M -> Outcome<M>, m: M, k: nat): M
  {
    if k == 0 then m else After(step, step(m).machine, k - 1)
  }

  /** From m1 to m2 as many instructions have been executed as the counter says. */
  predicate Counted<M(==)>(step: M -> Outcome<M>, m1: M, n1: nat, m2: M, n2: nat)
  {
    n1 <= n2 && m2 == After(step, m1, n2 - n1)
  }

  /** Some watched expression has another value in m2 than in m1. */
  predicate Changes<M>(eval: (M, string) -> Answer, texts: set<string>, m1: M, m2: M)
  {
    exists t <- texts :: eval(m1, t) != eval(m2, t)
  }

  /** Some watched text has no value in m, so evaluating it takes the program down. */
  predicate Undefined<M>(eval: (M, string) -> Answer, texts: set<string>, m: M)
  {
    exists t <- texts :: !eval(m, t).Value?
  }

  /** The instruction at m neither exits nor changes a watched value. */
  predicate Quiet<M>(step: M -> Outcome<M>, eval: (M, string) -> Answer, texts: set<string>, m: M)
  {
    step(m).Next? && !Changes(eval, texts, m, step(m).machine)
  }

  /**
   k instructions run out of at most n: all but the last one are quiet, and the last one is not unless the
   budget is used up.
   */
  ghost predicate StopsAfter<M(!new)>(step: M -> Outcome<M>, eval: (M, string) -> Answer, texts: set<string>, m: M, n: nat, k: nat)
  {
    && k <= n
    && (forall i: nat :: i + 1 < k ==> Quiet(step, eval, texts, After(step, m, i)))
    && (k < n ==> k > 0 && !Quiet(step, eval, texts, After(step, m, k - 1)))
  }

  /** There is exactly one such k. */
  lemma StopsOnce<M(!new)>(step: M -> Outcome<M>, eval: (M, string) -> Answer, texts: set<string>, m: M, n: nat, j: nat, k: nat)
    requires StopsAfter(step, eval, texts, m, n, j) && StopsAfter(step, eval, texts, m, n, k)
    ensures j == k
  {
    assert 0 < j < n ==> !Quiet(step, eval, texts, After(step, m, j - 1));
    assert 0 < k < n ==> !Quiet(step, eval, texts, After(step, m, k - 1));
  }

  /** That k. */
  function Ran<M>(step: M -> Outcome<M>, eval: (M, string) -> Answer, texts: set<string>, m: M, n: nat): nat
  {
    if n == 0 then 0
    else if Quiet(step, eval, texts, m) then 1 + Ran(step, eval, texts, step(m).machine, n - 1)
    else 1
  }

  lemma {:induction false} RanStops<M(!new)>(step: M -> Outcome<M>, eval: (M, string) -> Answer, texts: set<string>, m: M, n: nat)
    ensures StopsAfter(step, eval, texts, m, n, Ran(step, eval, texts, m, n))
  {
    hide Quiet;
    if n > 0 && Quiet(step, eval, texts, m) {
      var m', k := step(m).machine, Ran(step, eval, texts, step(m).machine, n - 1);
      RanStops(step, eval, texts, m', n - 1);
      forall i: nat | i + 1 < 1 + k ensures Quiet(step, eval, texts, After(step, m, i)) {
        if i > 0 { assert Quiet(step, eval, texts, After(step, m', i - 1)); }
      }
    }
  }

  lemma {:induction false} AfterOne<M>(step: M -> Outcome<M>, m: M, k: nat)
    ensures After(step, m, k + 1) == step(After(step, m, k)).machine
  {
    if k > 0 { AfterOne(step, step(m).machine, k - 1); }
  }

  lemma {:induction false} AfterSum<M>(step: M -> Outcome<M>, m: M, j: nat, k: nat)
    ensures After(step, m, j + k) == After(step, After(step, m, j), k)
  {
    if j > 0 { AfterSum(step, step(m).machine, j - 1, k); }
  }

  lemma CountedBy<M>(step: M -> Outcome<M>, m: M, n: nat, k: nat)
    ensures Counted(step, m, n, After(step, m, k), n + k)
  {
    hide After;
  }

  lemma CountedOn<M>(step: M -> Outcome<M>, m1: M, n1: nat, m2: M, n2: nat, m3: M, n3: nat)
    requires Counted(step, m1, n1, m2, n2) && Counted(step, m2, n2, m3, n3)
    ensures Counted(step, m1, n1, m3, n3)
  {
    hide After;
    AfterSum(step, m1, n2 - n1, n3 - n2);
  }

  /** Two runs in a row, the first one using up its budget quietly, are one run over the sum of the budgets. */
  lemma RunsCompose<M(!new)>(step: M -> Outcome<M>, eval: (M, string) -> Answer, texts: set<string>, m: M,
                             n1: nat, n2: nat, k: nat)
    requires forall i: nat :: i < n1 ==> Quiet(step, eval, texts, After(step, m, i))
    requires StopsAfter(step, eval, texts, After(step, m, n1), n2, k)
    ensures StopsAfter(step, eval, texts, m, n1 + n2, n1 + k)
  {
    forall i: nat | i + 1 < n1 + k ensures Quiet(step, eval, texts, After(step, m, i)) {
      if n1 <= i {
        AfterSum(step, m, n1, i - n1);
        assert Quiet(step, eval, texts, After(step, After(step, m, n1), i - n1));
      }
    }
    if 0 < k { AfterSum(step, m, n1, k - 1); }
  }

  /** The state in which a run of k > 0 instructions ends. */
  function EndState<M>(step: M -> Outcome<M>, eval: (M, string) -> Answer, texts: set<string>, last: M, was: NemuState): NemuState
  {
    var o := step(last);
    var s := if o.Next? then was.(state := RUNNING) else NemuState(if o.abort then ABORT else END, o.pc, o.ret);
    if Changes(eval, texts, last, o.machine) || o.Next? then s.(state := STOP) else s
  }

  /**
   How a run may end after its last instruction. One that exits leaves the program counter and the code it asks for;
   if no watched value changes the state is ABORT or END as requested, and otherwise STOP. One that does not exit
   leaves STOP and the old program counter and code.
   */
  predicate EndsIn<M>(step: M -> Outcome<M>, eval: (M, string) -> Answer, texts: set<string>, last: M, was: NemuState, now: NemuState)
  {
    match step(last)
    case Next(m) => now.state == STOP && now.haltPc == was.haltPc && now.haltRet == was.haltRet
    case Exit(m, abort, pc, ret) =>
      && now.haltPc == pc && now.haltRet == ret
      && (Changes(eval, texts, last, m) ==> now.state == STOP)
      && (!Changes(eval, texts, last, m) && abort ==> now.state == ABORT)
      && (!Changes(eval, texts, last, m) && !abort ==> now.state == END)
  }

  /** The computed end state is the only one that a run may end in. */
  lemma EndsInOne<M>(step: M -> Outcome<M>, eval: (M, string) -> Answer, texts: set<string>, last: M, was: NemuState, now: NemuState)
    ensures EndsIn(step, eval, texts, last, was, now) <==> now == EndState(step, eval, texts, last, was)
  {
    hide Changes;
  }

  /**
   A call of `cpu_exec` for n instructions on machine m runs k of them: none after END or ABORT, and otherwise up
   to the first one that is not quiet. It takes the program down (`dead`) exactly when some watched text has no
   value after them, and is never left in RUNNING.
   */
  ghost predicate WentOn<M(!new)>(step: M -> Outcome<M>, eval: (M, string) -> Answer, texts: set<string>, m: M, was: NemuState,
                                  n: nat, k: nat, dead: bool, now: NemuState)
  {
    && (dead <==> Undefined(eval, texts, After(step, m, k)))
    && if was.state in {END, ABORT} then k == 0 && !dead && now == was
       else && StopsAfter(step, eval, texts, m, n, k)
            && (k == 0 ==> now == was.(state := STOP))
            && (k > 0 && !dead ==> EndsIn(step, eval, texts, After(step, m, k - 1), was, now))
  }

  // ---------------------------------------------------------------- watched values

  ghost function TextsOf(pool: seq<WP>, active: seq<nat>): set<string>
  {
    set n | n in active && n < |pool| :: pool[n].text
  }

  /** Every active watchpoint stores the value of its expression in machine m. */
  ghost predicate Stored<M>(pool: seq<WP>, active: seq<nat>, eval: (M, string) -> Answer, m: M)
  {
    forall n <- active :: n < |pool| && eval(m, pool[n].text) == ExprTokenizer.Value(pool[n].value)
  }

  /** The check in m2 stops the program exactly when some watched text has no value there. */
  lemma CheckStops<M(!new)>(before: seq<WP>, active: seq<nat>, eval: (M, string) -> Answer, m2: M, f: string -> Answer)
    requires (forall t :: f(t) == eval(m2, t)) && forall n <- active :: n < |before|
    ensures (forall n <- active :: n < |before| && f(before[n].text).Value?) <==> !Undefined(eval, TextsOf(before, active), m2)
  {
    if !Undefined(eval, TextsOf(before, active), m2) {
      forall n | n in active ensures f(before[n].text).Value? {
        assert before[n].text in TextsOf(before, active);
      }
    }
  }

  /** A check in m2 of watchpoints that store values of m1 reports exactly the changes between m1 and m2. */
  lemma CheckFinds<M(!new)>(before: seq<WP>, now: seq<WP>, active: seq<nat>,
                            eval: (M, string) -> Answer, m1: M, m2: M, f: string -> Answer)
    requires Stored(before, active, eval, m1)
    requires forall t :: f(t) == eval(m2, t)
    requires Checked(before, now, active, f)
    ensures TextsOf(now, active) == TextsOf(before, active)
    ensures Stored(now, active, eval, m2)
    ensures Differs(before, active, f) <==> Changes(eval, TextsOf(before, active), m1, m2)
  {
    assert forall n <- active :: now[n].text == before[n].text;
    if Differs(before, active, f) {
      var n :| n in active && n < |before| && f(before[n].text) != ExprTokenizer.Value(before[n].value);
      assert before[n].text in TextsOf(before, active);
    }
    if Changes(eval, TextsOf(before, active), m1, m2) {
      var t :| t in TextsOf(before, active) && eval(m1, t) != eval(m2, t);
      var n :| n in active && n < |before| && before[n].text == t;
      assert f(before[n].text) != ExprTokenizer.Value(before[n].value);
    }
  }

  lemma SameTextsOf(before: seq<WP>, now: seq<WP>, active: seq<nat>)
    requires SameTexts(before, now)
    ensures TextsOf(now, active) == TextsOf(before, active)
  {
  }

  lemma StoredDefined<M(!new)>(pool: seq<WP>, active: seq<nat>, eval: (M, string) -> Answer, m: M)
    requires Stored(pool, active, eval, m)
    ensures !Undefined(eval, TextsOf(pool, active), m)
  {
  }

  lemma UndefinedChanges<M(!new)>(pool: seq<WP>, active: seq<nat>, eval: (M, string) -> Answer, m1: M, m2: M)
    requires Stored(pool, active, eval, m1) && Undefined(eval, TextsOf(pool, active), m2)
    ensures Changes(eval, TextsOf(pool, active), m1, m2)
  {
    var t :| t in TextsOf(pool, active) && !eval(m2, t).Value?;
    var n :| n in active && n < |pool| && pool[n].text == t;
    assert eval(m1, t).Value?;
  }

  lemma StoredFrame<M(!new)>(p1: seq<WP>, p2: seq<WP>, a1: seq<nat>, a2: seq<nat>, except: set<nat>,
                             eval: (M, string) -> Answer, m: M)
    requires Stored(p1, a1, eval, m) && SameWatches(p1, p2, except)
    requires forall n <- a2 :: n in a1 && n !in except
    ensures Stored(p2, a2, eval, m)
  {
  }

  lemma StoredPush<M(!new)>(pool: seq<WP>, active: seq<nat>, wp: nat, eval: (M, string) -> Answer, m: M)
    requires Stored(pool, active, eval, m) && wp < |pool|
    requires eval(m, pool[wp].text) == ExprTokenizer.Value(pool[wp].value)
    ensures Stored(pool, [wp] + active, eval, m)
  {
  }

  lemma NewNotActive(all: seq<nat>, wp: nat, active: seq<nat>)
    requires all == [wp] + active && NoDup(all)
    ensures wp !in active
  {
    assert all[0] == wp;
    assert forall i :: 0 <= i < |active| ==> all[i + 1] == active[i];
  }

  /** The node of a failed `w` goes back to where it came from. */
  lemma PutBack(wp: nat, rest: seq<nat>, k: nat)
    requires NoDup([wp] + rest) && k < 1 + |rest| && ([wp] + rest)[k] == wp
    ensures Without([wp] + rest, k) == rest && wp !in rest
  {
    var all := [wp] + rest;
    assert all[0] == wp;
    assert forall i :: 0 <= i < |rest| ==> all[i + 1] == rest[i];
  }

  // ---------------------------------------------------------------- what the commands mean

  /** The arguments of `w` without any are "", those of `d` without any are []. */
  datatype Command = Watch(text: string) | Delete(numbers: seq<int>) | Continue(n: nat) | Quit

  datatype Watched = Watched(no: nat, text: string)

  /** The watched expressions, the newest first, and the numbers that are not in use. */
  datatype Board = Board(watches: seq<Watched>, spare: seq<nat>)

  datatype View<M> = View(board: Board, machine: M, nemu: NemuState, instructions: nat)

  /** A command is followed by the next one, ends the session, or takes the program down. */
  datatype Fate<V> = Goes(view: V) | Leaves(view: V) | Dies

  function TextSet(ws: seq<Watched>): set<string>
  {
    set w <- ws :: w.text
  }

  function Removed(ws: seq<Watched>, no: int): seq<Watched>
  {
    if ws == [] then [] else (if ws[0].no == no then [] else [ws[0]]) + Removed(ws[1..], no)
  }

  predicate Names(ws: seq<Watched>, no: int)
  {
    exists w <- ws :: w.no == no
  }

  /** The number of a deleted watchpoint is the next to be used. */
  function Dropped(b: Board, no: int): Board
  {
    if no >= 0 && Names(b.watches, no) then Board(Removed(b.watches, no), [no as nat] + b.spare) else b
  }

  function Deleted(b: Board, numbers: seq<int>): Board
  {
    if numbers == [] then b else Dropped(Deleted(b, numbers[..|numbers| - 1]), numbers[|numbers| - 1])
  }

  /** Continuing for at most n instructions; what is left of the machine if the program goes down is not told. */
  function Continued<M>(step: M -> Outcome<M>, eval: (M, string) -> Answer, v: View<M>, n: nat): Fate<View<M>>
  {
    if v.nemu.state in {END, ABORT} then Goes(v) else
    var texts := TextSet(v.board.watches);
    var k := Ran(step, eval, texts, v.machine, n);
    var m := After(step, v.machine, k);
    if Undefined(eval, texts, m) then Dies else
    var nemu := if k == 0 then v.nemu.(state := STOP)
                else EndState(step, eval, texts, After(step, v.machine, k - 1), v.nemu);
    Goes(View(v.board, m, nemu, v.instructions + k))
  }

  function Spec<M>(step: M -> Outcome<M>, eval: (M, string) -> Answer, v: View<M>, c: Command): Fate<View<M>>
  {
    match c
    case Watch(text) =>
      if text == "" || v.board.spare == [] then Dies else
      var answer := eval(v.machine, text);
      if answer.Unrecognised? then Leaves(v)
      else if answer.Value? then
        Goes(v.(board := Board([Watched(v.board.spare[0], text)] + v.board.watches, v.board.spare[1..])))
      else Dies
    case Delete(numbers) => if numbers == [] then Leaves(v) else Goes(v.(board := Deleted(v.board, numbers)))
    case Continue(n) => Continued(step, eval, v, n)
    case Quit => Leaves(v)
  }

  /** Whatever stops after k instructions has continued as specified. */
  lemma ContinuedBy<M(!new)>(step: M -> Outcome<M>, eval: (M, string) -> Answer, v: View<M>, n: nat, k: nat, dead: bool, w: View<M>)
    requires WentOn(step, eval, TextSet(v.board.watches), v.machine, v.nemu, n, k, dead, w.nemu)
    requires w.board == v.board && w.machine == After(step, v.machine, k) && w.instructions == v.instructions + k
    ensures Continued(step, eval, v, n) == if dead then Dies else Goes(w)
    ensures Counted(step, v.machine, v.instructions, w.machine, w.instructions)
  {
    hide Undefined, EndState, EndsIn, StopsAfter;
    var texts := TextSet(v.board.watches);
    if v.nemu.state !in {END, ABORT} {
      if k > 0 { EndsInOne(step, eval, texts, After(step, v.machine, k - 1), v.nemu, w.nemu); }
      RanStops(step, eval, texts, v.machine, n);
      StopsOnce(step, eval, texts, v.machine, n, k, Ran(step, eval, texts, v.machine, n));
    }
  }

  /**
   The specification of `si` and `c` in terms of single instructions: nothing happens after END or ABORT; otherwise
   the instructions run up to the first that is not quiet, and their last one decides how the run ends.
   */
  lemma ContinuedMeans<M(!new)>(step: M -> Outcome<M>, eval: (M, string) -> Answer, v: View<M>, n: nat, k: nat)
    requires StopsAfter(step, eval, TextSet(v.board.watches), v.machine, n, k)
    ensures v.nemu.state in {END, ABORT} ==> Continued(step, eval, v, n) == Goes(v)
    ensures v.nemu.state !in {END, ABORT} && Undefined(eval, TextSet(v.board.watches), After(step, v.machine, k)) ==>
              Continued(step, eval, v, n) == Dies
    ensures v.nemu.state !in {END, ABORT} && !Undefined(eval, TextSet(v.board.watches), After(step, v.machine, k)) ==>
              var f := Continued(step, eval, v, n);
              && f.Goes? && f.view.board == v.board
              && f.view.machine == After(step, v.machine, k) && f.view.instructions == v.instructions + k
              && (k == 0 ==> f.view.nemu == v.nemu.(state := STOP))
              && (k > 0 ==> EndsIn(step, eval, TextSet(v.board.watches), After(step, v.machine, k - 1), v.nemu, f.view.nemu))
  {
    hide Undefined, EndState, EndsIn, StopsAfter;
    var texts := TextSet(v.board.watches);
    RanStops(step, eval, texts, v.machine, n);
    StopsOnce(step, eval, texts, v.machine, n, k, Ran(step, eval, texts, v.machine, n));
    if k > 0 {
      var last := After(step, v.machine, k - 1);
      EndsInOne(step, eval, texts, last, v.nemu, EndState(step, eval, texts, last, v.nemu));
    }
  }

  /** When the first instruction is a `nemu_trap` that changes nothing watched, the run ends in END with its pc and code. */
  lemma GoodTrap<M(!new)>(step: M -> Outcome<M>, eval: (M, string) -> Answer, v: View<M>, n: nat, m: M, pc: nat, r: nat)
    requires v.nemu.state !in {END, ABORT} && n > 0 && step(v.machine) == Exit(m, false, pc, r)
    requires var texts := TextSet(v.board.watches); !Changes(eval, texts, v.machine, m) && !Undefined(eval, texts, m)
    ensures Continued(step, eval, v, n) == Goes(View(v.board, m, NemuState(END, pc, r), v.instructions + 1))
  {
    hide Undefined, Changes;
    assert After(step, v.machine, 0) == v.machine && After(step, v.machine, 1) == m;
    ContinuedMeans(step, eval, v, n, 1);
  }

  /** A session: the commands up to the first one that ends it. */
  function Session<M>(step: M -> Outcome<M>, eval: (M, string) -> Answer, v: View<M>, commands: seq<Command>): Fate<View<M>>
  {
    if commands == [] then Goes(v) else
    var f := Session(step, eval, v, commands[..|commands| - 1]);
    if f.Goes? then Spec(step, eval, f.view, commands[|commands| - 1]) else f
  }

  /** Nothing follows the end of a session. */
  lemma {:induction false} SessionEnds<M>(step: M -> Outcome<M>, eval: (M, string) -> Answer, v: View<M>, commands: seq<Command>, k: nat)
    requires k <= |commands| && !Session(step, eval, v, commands[..k]).Goes?
    ensures Session(step, eval, v, commands) == Session(step, eval, v, commands[..k])
  {
    hide Spec;
    if k == |commands| {
      assert commands[..k] == commands;
    } else {
      var init := commands[..|commands| - 1];
      assert init[..k] == commands[..k];
      SessionEnds(step, eval, v, init, k);
    }
  }

  lemma SessionNext<M>(step: M -> Outcome<M>, eval: (M, string) -> Answer, v: View<M>, commands: seq<Command>, k: nat)
    requires k < |commands| && Session(step, eval, v, commands[..k]).Goes?
    ensures Session(step, eval, v, commands[..k + 1])
         == Spec(step, eval, Session(step, eval, v, commands[..k]).view, commands[k])
  {
    hide Spec;
    assert commands[..k + 1][..k] == commands[..k];
  }

  lemma {:induction false} RemovedAt(ws: seq<Watched>, k: nat)
    requires k < |ws| && forall i :: 0 <= i < |ws| && i != k ==> ws[i].no != ws[k].no
    ensures Removed(ws, ws[k].no) == ws[..k] + ws[k + 1..]
  {
    if k == 0 {
      RemovedNone(ws[1..], ws[0].no);
    } else {
      RemovedAt(ws[1..], k - 1);
      assert ws[..k] == [ws[0]] + ws[1..][..k - 1];
    }
  }

  lemma {:induction false} RemovedNone(ws: seq<Watched>, no: int)
    requires !Names(ws, no)
    ensures Removed(ws, no) == ws
  {
    if ws != [] {
      assert ws[0] in ws;
      RemovedNone(ws[1..], no);
    }
  }

  /** Deleting the watchpoint that `w` has just set restores everything. */
  lemma WatchThenDelete<M>(step: M -> Outcome<M>, eval: (M, string) -> Answer, v: View<M>, text: string)
    requires v.board.spare != [] && !Names(v.board.watches, v.board.spare[0])
    requires text != "" && eval(v.machine, text).Value?
    ensures Session(step, eval, v, [Watch(text), Delete([v.board.spare[0]])]) == Goes(v)
  {
    var c1, c2 := Watch(text), Delete([v.board.spare[0]]);
    var no: int := v.board.spare[0];
    var ws := [Watched(v.board.spare[0], text)] + v.board.watches;
    assert [c1, c2][..1] == [c1] && [c1][..0] == [];
    assert ws[0].no == no && ws[0] in ws && ws[1..] == v.board.watches;
    RemovedNone(v.board.watches, no);
    assert v.board.spare == [v.board.spare[0]] + v.board.spare[1..];
    var b := Board(ws, v.board.spare[1..]);
    assert Deleted(b, [no]) == v.board by { assert [no][..0] == []; }
    hide Deleted, Removed, Dropped, Names, Continued;
    assert Session(step, eval, v, [c1]) == Goes(v.(board := b));
    assert Session(step, eval, v, [c1, c2]) == Spec(step, eval, v.(board := b), c2);
  }

  // ---------------------------------------------------------------- the board of a pool

  ghost function WatchesOf(pool: seq<WP>, active: seq<nat>): seq<Watched>
  {
    seq(|active|, i requires 0 <= i < |active| => Watched(active[i], if active[i] < |pool| then pool[active[i]].text else ""))
  }

  lemma TextsOnBoard(pool: seq<WP>, active: seq<nat>)
    requires forall n <- active :: n < |pool|
    ensures TextSet(WatchesOf(pool, active)) == TextsOf(pool, active)
  {
    var ws := WatchesOf(pool, active);
    forall t | t in TextsOf(pool, active) ensures t in TextSet(ws) {
      var n :| n in active && n < |pool| && pool[n].text == t;
      var i :| 0 <= i < |active| && active[i] == n;
      assert ws[i] in ws && ws[i].text == t;
    }
    forall t | t in TextSet(ws) ensures t in TextsOf(pool, active) {
      var w :| w in ws && w.text == t;
      var i :| 0 <= i < |ws| && ws[i] == w;
      assert active[i] in active;
    }
  }

  lemma NamesActive(pool: seq<WP>, active: seq<nat>, no: int)
    ensures Names(WatchesOf(pool, active), no) <==> no in active
  {
    var ws := WatchesOf(pool, active);
    if no in active {
      var i :| 0 <= i < |active| && active[i] == no;
      assert ws[i] in ws;
    }
  }

  lemma SameBoard(p1: seq<WP>, p2: seq<WP>, active: seq<nat>)
    requires |p1| == |p2| && forall n <- active :: n < |p1| && p1[n].text == p2[n].text
    ensures WatchesOf(p2, active) == WatchesOf(p1, active)
  {
  }

  lemma BoardFrame(p1: seq<WP>, p2: seq<WP>, active: seq<nat>, except: set<nat>)
    requires SameWatches(p1, p2, except) && forall n <- active :: n < |p1| && n !in except
    ensures WatchesOf(p2, active) == WatchesOf(p1, active)
  {
  }

  lemma Rewritten(p0: seq<WP>, p1: seq<WP>, p2: seq<WP>, wp: nat)
    requires SameWatches(p0, p1, {wp}) && wp < |p1| == |p2| && p2 == p1[wp := p2[wp]]
    ensures SameWatches(p0, p2, {wp})
  {
  }

  lemma Again(p0: seq<WP>, p1: seq<WP>, p2: seq<WP>, wp: nat)
    requires SameWatches(p0, p1, {wp}) && SameWatches(p1, p2, {wp})
    ensures SameWatches(p0, p2, {wp})
  {
  }

  lemma BoardPush(p1: seq<WP>, p2: seq<WP>, active: seq<nat>, wp: nat)
    requires SameWatches(p1, p2, {wp}) && wp < |p1| && wp !in active && forall n <- active :: n < |p1|
    ensures WatchesOf(p2, [wp] + active) == [Watched(wp, p2[wp].text)] + WatchesOf(p1, active)
  {
    assert forall i :: 0 <= i < |active| ==> active[i] in active;
  }

  /** Freeing the k-th active node deletes its number from the board. */
  lemma DroppedNode(p1: seq<WP>, p2: seq<WP>, active: seq<nat>, spare: seq<nat>, k: nat)
    requires NoDup(active) && k < |active| && SameWatches(p1, p2, {active[k]})
    ensures Board(WatchesOf(p2, Without(active, k)), [active[k]] + spare)
         == Dropped(Board(WatchesOf(p1, active), spare), active[k])
  {
    hide Removed;
    var ws := WatchesOf(p1, active);
    assert active[k] in active;
    NamesActive(p1, active, active[k]);
    RemovedAt(ws, k);
    assert WatchesOf(p2, Without(active, k)) == ws[..k] + ws[k + 1..];
  }

  lemma DroppedNone(pool: seq<WP>, active: seq<nat>, spare: seq<nat>, no: int)
    requires no !in active
    ensures Dropped(Board(WatchesOf(pool, active), spare), no) == Board(WatchesOf(pool, active), spare)
  {
    NamesActive(pool, active, no);
  }

  lemma DeleteNext(numbers: seq<int>, i: nat, b: Board)
    requires i < |numbers|
    ensures Deleted(b, numbers[..i + 1]) == Dropped(Deleted(b, numbers[..i]), numbers[i])
  {
    assert numbers[..i + 1][..i] == numbers[..i];
  }

  // ---------------------------------------------------------------- the debugger

  /** How the loop of commands goes on: with the next command, not at all, or the program is gone. */
  datatype Verdict = Stay | Leave | Gone

  class Monitor<M(!new)> {
    const step: M -> Outcome<M>
    const eval: (M, string) -> Answer
    const wps: WatchPool
    var machine: M
    var nemuState: NemuState
    var instructions: nat

    /** The watched texts. */
    ghost function Texts(): set<string>
      reads this, wps, wps.pool
    {
      TextsOf(wps.pool[..], wps.active)
    }

    ghost function GetBoard(): Board
      reads this, wps, wps.pool
    {
      Board(WatchesOf(wps.pool[..], wps.active), wps.spare)
    }

    ghost function GetView(): View<M>
      reads this, wps, wps.pool
    {
      View(GetBoard(), machine, nemuState, instructions)
    }

    ghost function FateOf(verdict: Verdict): Fate<View<M>>
      reads this, wps, wps.pool
    {
      match verdict
      case Stay => Goes(GetView())
      case Leave => Leaves(GetView())
      case Gone => Dies
    }

    /** Between commands every active watchpoint stores the value of its expression in this machine. */
    ghost predicate InSync()
      reads this, wps, wps.pool
    {
      Stored(wps.pool[..], wps.active, eval, machine)
    }

    ghost predicate Valid()
      reads this, wps, wps.pool
    {
      wps.Valid() && InSync() && nemuState.state != RUNNING
    }

    constructor (step_: M -> Outcome<M>, eval_: (M, string) -> Answer, machine_: M)
      ensures Valid() && step == step_ && eval == eval_ && machine == machine_ && nemuState.state == STOP && wps.active == []
      ensures fresh(wps) && fresh(wps.pool)
    {
      step, eval := step_, eval_;
      machine, nemuState, instructions := machine_, NemuState(STOP, 0, 0), 0;
      wps := new WatchPool();
    }

    /**
     Runs at most n instructions; `ran` counts them. The run stops right after the first instruction that exits
     or changes a watched value.
     */
    method CpuExec(n: nat) returns (dead: bool, ghost ran: nat)
      requires Valid()
      modifies this`machine, this`nemuState, this`instructions, wps.pool
      ensures Texts() == old(Texts()) && GetBoard() == old(GetBoard()) && (!dead ==> Valid())
      ensures WentOn(step, eval, old(Texts()), old(machine), old(nemuState), n, ran, dead, nemuState)
      ensures machine == After(step, old(machine), ran) && instructions == old(instructions) + ran
    {
      hide PoolOk, TextsOf, Changes, WatchesOf;
      ran := 0;
      dead := false;
      StoredDefined(wps.pool[..], wps.active, eval, machine);
      hide Stored, Undefined;
      if nemuState.state in {END, ABORT} {
        return;
      }
      nemuState := nemuState.(state := RUNNING);
      var left := n;
      while left > 0
        invariant ran + left == n
        invariant wps.Valid() && InSync() && GetBoard() == old(GetBoard()) && Texts() == old(Texts()) && !Undefined(eval, Texts(), machine)
        invariant machine == After(step, old(machine), ran) && instructions == old(instructions) + ran
        invariant nemuState == old(nemuState).(state := RUNNING)
        invariant forall i: nat :: i < ran ==> Quiet(step, eval, Texts(), After(step, old(machine), i))
      {
        AfterOne(step, old(machine), ran);
        dead := ExecOnce();
        ran := ran + 1;
        if dead {
          return;
        }
        if nemuState.state != RUNNING {
          break;
        }
        left := left - 1;
      }
      if nemuState.state == RUNNING {
        nemuState := nemuState.(state := STOP);
      }
    }

    /** One turn of the loop: an instruction, then the watchpoints. */
    method ExecOnce() returns (dead: bool)
      requires wps.Valid() && InSync() && nemuState.state == RUNNING
      modifies this`machine, this`nemuState, this`instructions, wps.pool
      ensures machine == step(old(machine)).machine && instructions == old(instructions) + 1
      ensures dead <==> Undefined(eval, old(Texts()), machine)
      ensures dead ==> !Quiet(step, eval, old(Texts()), old(machine))
      ensures Texts() == old(Texts()) && GetBoard() == old(GetBoard()) && (!dead ==> wps.Valid() && InSync())
      ensures !dead ==> (nemuState.state == RUNNING <==> Quiet(step, eval, Texts(), old(machine)))
      ensures !dead && nemuState.state == RUNNING ==> nemuState == old(nemuState)
      ensures !dead && nemuState.state != RUNNING ==> EndsIn(step, eval, Texts(), old(machine), old(nemuState), nemuState)
    {
      hide Linked, Split, NoDup, Checked, Differs, Changes, TextsOf, Undefined, WatchesOf;
      var o := step(machine);
      machine := o.machine;
      if o.Exit? {
        nemuState := NemuState(if o.abort then ABORT else END, o.pc, o.ret);
      }
      instructions := instructions + 1;
      var m := machine;
      var evalNow := t => eval(m, t);
      ghost var pool := wps.pool[..];
      ActiveBound(wps.active, wps.spare);
      CheckStops(pool, wps.active, eval, m, evalNow);
      var ok, changed := wps.CheckWpChanged(evalNow);
      SameTextsOf(pool, wps.pool[..], wps.active);
      SameBoard(pool, wps.pool[..], wps.active);
      if !ok {
        UndefinedChanges(pool, wps.active, eval, old(machine), m);
        return true;
      }
      CheckFinds(pool, wps.pool[..], wps.active, eval, old(machine), m, evalNow);
      if changed {
        nemuState := nemuState.(state := STOP);
      }
      dead := false;
    }

    /** The first half of `w`: a node for the text. */
    method NewWatch(text: string) returns (ok: bool, wp: nat)
      requires wps.Valid()
      modifies wps, wps.pool
      ensures ok <==> old(wps.spare) != []
      ensures ok ==> && wps.Valid() && wp < NR_WP && wp !in old(wps.active)
                     && wps.active == [wp] + old(wps.active) && old(wps.spare) == [wp] + wps.spare
                     && wps.pool[wp].text == text && SameWatches(old(wps.pool[..]), wps.pool[..], {wp})
    {
      hide Linked, Split, NoDup;
      ghost var active := wps.active;
      var p;
      ok, p := wps.NewWp();
      if !ok {
        return false, 0;
      }
      wp := p;
      NewNotActive(wps.active, wp, active);
      Revalued(wps.pool[..], wps.head, wps.free, wps.active, wps.spare, wp, wps.pool[wp].(text := text));
      wps.pool[wp] := wps.pool[wp].(text := text);
    }

    /**
     `w`: a new watchpoint on this text, storing its value now. If the text is no expression the node is
     given back, and the session ends. The program goes down exactly when there is no text, all 32 nodes are
     active, or the evaluation fails an assertion or corrupts memory.
     */
    method CmdW(text: string) returns (verdict: Verdict)
      requires Valid()
      modifies wps, wps.pool
      ensures Spec(step, eval, old(GetView()), Watch(text)) == FateOf(verdict)
      ensures verdict.Gone? <==> text == "" || |old(wps.active)| == 32 || eval(machine, text).Stops? || eval(machine, text).Corrupts?
      ensures !verdict.Gone? ==> Valid()
    {
      hide Linked, Split, NoDup, Stored, WatchesOf, SameWatches;
      ghost var p0, active, spare := wps.pool[..], wps.active, wps.spare;
      ActiveBound(active, spare);
      PoolSize(active, spare);
      if text == "" {
        return Gone;
      }
      var ok, wp := NewWatch(text);
      if !ok {
        return Gone;
      }
      var answer := eval(machine, text);
      ghost var p1 := wps.pool[..];
      if answer.Value? {
        var v := answer.value;
        Revalued(p1, wps.head, wps.free, wps.active, wps.spare, wp, p1[wp].(value := v));
        wps.pool[wp] := wps.pool[wp].(value := v);
        Rewritten(p0, p1, p1[wp := p1[wp].(value := v)], wp);
        StoredFrame(p0, wps.pool[..], active, active, {wp}, eval, machine);
        StoredPush(wps.pool[..], active, wp, eval, machine);
        BoardPush(p0, wps.pool[..], active, wp);
        return Stay;
      }
      if !answer.Unrecognised? {
        return Gone;
      }
      var freed := wps.FreeWp(wp);
      ghost var k: nat :| k < 1 + |active| && ([wp] + active)[k] == wp && wps.active == Without([wp] + active, k);
      PutBack(wp, active, k);
      Again(p0, p1, wps.pool[..], wp);
      StoredFrame(p0, wps.pool[..], active, active, {wp}, eval, machine);
      BoardFrame(p0, wps.pool[..], active, {wp});
      verdict := Leave;
    }

    /**
     `d`: the named watchpoints are freed one after the other; the active ones that are not named remain, with
     their texts and values. Without a number the session ends.
     */
    method CmdD(numbers: seq<int>) returns (verdict: Verdict)
      requires Valid()
      modifies wps, wps.pool
      ensures Valid() && verdict == if numbers == [] then Leave else Stay
      ensures GetBoard() == Deleted(old(GetBoard()), numbers)
      ensures forall n :: n in wps.active <==> n in old(wps.active) && n !in numbers
      ensures forall n <- wps.active :: n < wps.pool.Length
                && wps.pool[n].text == old(wps.pool[..])[n].text && wps.pool[n].value == old(wps.pool[..])[n].value
    {
      hide Linked, Split, NoDup, Stored, Without, WatchesOf, Dropped;
      ghost var p0 := wps.pool[..];
      ActiveBound(wps.active, wps.spare);
      for i := 0 to |numbers|
        invariant Valid() && GetBoard() == Deleted(old(GetBoard()), numbers[..i])
        invariant forall n :: n in wps.active <==> n in old(wps.active) && n !in numbers[..i]
        invariant forall n <- wps.active :: n < NR_WP && wps.pool[n].text == p0[n].text && wps.pool[n].value == p0[n].value
      {
        assert numbers[..i + 1] == numbers[..i] + [numbers[i]];
        DeleteNext(numbers, i, old(GetBoard()));
        var wp := wps.NoToWp(numbers[i]);
        if wp == NULL {
          DroppedNone(wps.pool[..], wps.active, wps.spare, numbers[i]);
          continue;
        }
        ghost var before, active, spare := wps.pool[..], wps.active, wps.spare;
        var freed := wps.FreeWp(wp);
        ghost var k: nat :| k < |active| && active[k] == wp && wps.active == Without(active, k);
        WithoutMembers(active, k);
        StoredFrame(before, wps.pool[..], active, wps.active, {wp as nat}, eval, machine);
        DroppedNode(before, wps.pool[..], active, spare, k);
      }
      assert numbers[..|numbers|] == numbers;
      verdict := if numbers == [] then Leave else Stay;
    }

    /** `si` and `c`: at most n instructions. */
    method CmdC(n: nat) returns (verdict: Verdict)
      requires Valid()
      modifies this`machine, this`nemuState, this`instructions, wps.pool
      ensures Continued(step, eval, old(GetView()), n) == FateOf(verdict)
      ensures verdict.Stay? ==> Valid()
      ensures Counted(step, old(machine), old(instructions), machine, instructions)
    {
      ActiveBound(wps.active, wps.spare);
      TextsOnBoard(wps.pool[..], wps.active);
      hide PoolOk, Stored, TextsOf, Undefined, WatchesOf, WentOn, TextSet, Continued, After, Counted;
      ghost var v := GetView();
      var dead;
      ghost var ran;
      dead, ran := CpuExec(n);
      ContinuedBy(step, eval, v, n, ran, dead, GetView());
      verdict := if dead then Gone else Stay;
    }

    /** One command does what `Spec` says. */
    method Execute(c: Command) returns (verdict: Verdict)
      requires Valid()
      modifies this`machine, this`nemuState, this`instructions, wps, wps.pool
      ensures Spec(step, eval, old(GetView()), c) == FateOf(verdict)
      ensures verdict.Stay? ==> Valid()
      ensures Counted(step, old(machine), old(instructions), machine, instructions)
    {
      CountedBy(step, machine, instructions, 0);
      hide PoolOk, Stored, TextsOf, Undefined, WatchesOf, Continued, Dropped, Counted;
      match c
      case Watch(text) => verdict := CmdW(text);
      case Delete(numbers) => verdict := CmdD(numbers);
      case Continue(n) => verdict := CmdC(n);
      case Quit => verdict := Leave;
    }

    /**
     The loop over the commands: a session as specified. Up to its end the lists stay whole and every
     watchpoint stays in sync; `done` commands have gone before the one that ended it.
     */
    method Run(commands: seq<Command>) returns (done: nat, verdict: Verdict)
      requires Valid()
      modifies this`machine, this`nemuState, this`instructions, wps, wps.pool
      ensures Session(step, eval, old(GetView()), commands) == FateOf(verdict)
      ensures verdict.Stay? ==> Valid() && done == |commands|
      ensures !verdict.Stay? ==> done < |commands| && Session(step, eval, old(GetView()), commands[..done]).Goes?
                                 && Session(step, eval, old(GetView()), commands[..done + 1]) == FateOf(verdict)
      ensures Counted(step, old(machine), old(instructions), machine, instructions)
    {
      CountedBy(step, machine, instructions, 0);
      hide PoolOk, Stored, TextsOf, Undefined, WatchesOf, Spec, Counted;
      done, verdict := 0, Stay;
      assert commands[..0] == [];
      while done < |commands|
        invariant done <= |commands| && verdict == Stay
        invariant Valid() && Counted(step, old(machine), old(instructions), machine, instructions)
        invariant Session(step, eval, old(GetView()), commands[..done]) == Goes(GetView())
      {
        ghost var m, i := machine, instructions;
        SessionNext(step, eval, old(GetView()), commands, done);
        verdict := Execute(commands[done]);
        CountedOn(step, old(machine), old(instructions), m, i, machine, instructions);
        if !verdict.Stay? {
          SessionEnds(step, eval, old(GetView()), commands, done + 1);
          return;
        }
        done := done + 1;
      }
      assert commands[..done] == commands;
    }
  }

  /** The debugger with its own expressions: registers and memory of the machine are the environment. */
  method ExprMonitor<M(!new)>(step: M -> Outcome<M>, env: M -> ExprEval.Env, machine: M) returns (monitor: Monitor<M>)
    ensures monitor.Valid() && monitor.machine == machine && monitor.step == step
    ensures forall m, t :: monitor.eval(m, t) == ExprTokenizer.ExprSpec(env(m), t)
  {
    monitor := new Monitor<M>(step, (m, t) => ExprTokenizer.ExprSpec(env(m), t), machine);
  }
}
