/**
 Starting the other processors (abstract-machine/am/src/x86/qemu/mpe.c, with the boot path of trm.c,
 boot/start.S and boot/main.c in the same directory). Every access to shared memory is one step, and the
 steps of the CPUs interleave in any order. The one assumption about the hardware: a boot request starts
 the named CPU, once, at any later time.
 */
module BringUp {

  /** Where the boot CPU is. It uses the shared boot stack until it has initialised itself. */
  datatype BootPc =
    | BLoad
    | BStart
    | BInit
    | BMain
    | BSetJmp
    | BLoop(cpu: nat)
    | BSend(cpu: nat)
    | BWait(cpu: nat)
    | BUser
    | BLost

  /**
   Where another CPU is: not started, requested, in the boot record, in `load_kernel`, in `_start_c`, in
   `__am_othercpu_entry`, in `__am_percpu_init`, before the ready signal, before `user_entry`, in it. Lost
   stands for a wild jump, a second load of the kernel, or a second boot CPU.
   */
  datatype ApPc = Off | Requested | Jumping | Loading | Starting | Entering | Percpu | Ready | Call | User | Lost

  /** `overwritten` counts ready signals stored over a signal nobody had taken. */
  datatype State = State(boot: BootPc, aps: seq<ApPc>, apReady: nat, isAp: bool, jmpSet: bool, entrySet: bool, overwritten: nat)

  /** CPU number cpu is aps[cpu - 1]; `__am_ncpu` is |aps| + 1. */
  datatype Actor = Boot | Ap(cpu: nat)

  function Init(others: nat): State
  {
    State(BLoad, seq(others, _ => Off), 0, false, false, false, 0)
  }

  function BootStep(s: State): State
  {
    match s.boot
    case BLoad => s.(boot := BStart)
    case BStart => s.(boot := if s.isAp then BLost else BInit)
    case BInit => s.(boot := BMain)
    case BMain => s.(entrySet := true, boot := BSetJmp)
    case BSetJmp => s.(jmpSet := true, boot := BLoop(1))
    case BLoop(cpu) => if cpu < |s.aps| + 1 then s.(isAp := true, boot := BSend(cpu)) else s.(boot := BUser)
    case BSend(cpu) =>
      s.(aps := if 1 <= cpu <= |s.aps| then s.aps[cpu - 1 := Requested] else s.aps, boot := BWait(cpu))
    case BWait(cpu) => s.(apReady := 0, boot := if s.apReady == 1 then BLoop(cpu + 1) else BWait(cpu))
    case BUser => s
    case BLost => s
  }

  /** The next place of another CPU, given what it reads. */
  function ApNext(pc: ApPc, isAp: bool, jmpSet: bool, entrySet: bool): ApPc
  {
    match pc
    case Off => Off
    case Requested => Jumping
    case Jumping => if jmpSet then Loading else Lost
    case Loading => if isAp then Starting else Lost
    case Starting => if isAp then Entering else Lost
    case Entering => Percpu
    case Percpu => Ready
    case Ready => Call
    case Call => if entrySet then User else Lost
    case User => User
    case Lost => Lost
  }

  function ApStep(s: State, k: nat): State
    requires k < |s.aps|
  {
    var pc := s.aps[k];
    s.(aps := s.aps[k := ApNext(pc, s.isAp, s.jmpSet, s.entrySet)],
       apReady := if pc == Ready then 1 else s.apReady,
       overwritten := if pc == Ready && s.apReady == 1 then s.overwritten + 1 else s.overwritten)
  }

  function Step(s: State, a: Actor): State
  {
    match a
    case Boot => BootStep(s)
    case Ap(cpu) => if 1 <= cpu <= |s.aps| then ApStep(s, cpu - 1) else s
  }

  function Run(s: State, schedule: seq<Actor>): State
    decreases |schedule|
  {
    if schedule == [] then s else Run(Step(s, schedule[0]), schedule[1..])
  }

  // ---------------------------------------------------------------- what every interleaving keeps

  predicate BootOnBootStack(pc: BootPc)
  {
    pc in {BLoad, BStart, BInit}
  }

  predicate ApOnBootStack(pc: ApPc)
  {
    pc in {Jumping, Loading, Starting, Entering}
  }

  /** No two CPUs are on the shared boot stack. */
  predicate BootStackExclusive(s: State)
  {
    && (forall k :: 0 <= k < |s.aps| && BootOnBootStack(s.boot) ==> !ApOnBootStack(s.aps[k]))
    && forall j, k :: 0 <= j < k < |s.aps| ==> !(ApOnBootStack(s.aps[j]) && ApOnBootStack(s.aps[k]))
  }

  /** The CPU has finished `__am_percpu_init` and sent its signal. */
  predicate Up(pc: ApPc)
  {
    pc in {Call, User}
  }

  predicate Coming(pc: ApPc)
  {
    pc in {Requested, Jumping, Loading, Starting, Entering, Percpu, Ready}
  }

  /** The first n other CPUs are up, the rest from m on has not been started. */
  predicate UpThenOff(aps: seq<ApPc>, n: int, m: int)
  {
    && (forall k :: 0 <= k < n && k < |aps| ==> Up(aps[k]))
    && (forall k :: m <= k < |aps| && 0 <= k ==> aps[k] == Off)
  }

  predicate Inv(s: State)
  {
    && s.overwritten == 0
    && match s.boot
       case BLoad => !s.isAp && s.apReady == 0 && UpThenOff(s.aps, 0, 0)
       case BStart => !s.isAp && s.apReady == 0 && UpThenOff(s.aps, 0, 0)
       case BInit => !s.isAp && s.apReady == 0 && UpThenOff(s.aps, 0, 0)
       case BMain => s.apReady == 0 && UpThenOff(s.aps, 0, 0)
       case BSetJmp => s.entrySet && s.apReady == 0 && UpThenOff(s.aps, 0, 0)
       case BLoop(cpu) =>
         && 1 <= cpu <= |s.aps| + 1 && s.entrySet && s.jmpSet && s.apReady == 0
         && UpThenOff(s.aps, cpu - 1, cpu - 1)
       case BSend(cpu) =>
         && 1 <= cpu <= |s.aps| && s.entrySet && s.jmpSet && s.isAp && s.apReady == 0
         && UpThenOff(s.aps, cpu - 1, cpu - 1)
       case BWait(cpu) =>
         && 1 <= cpu <= |s.aps| && s.entrySet && s.jmpSet && s.isAp
         && UpThenOff(s.aps, cpu - 1, cpu)
         && (if s.apReady == 0 then Coming(s.aps[cpu - 1]) else s.apReady == 1 && Up(s.aps[cpu - 1]))
       case BUser => s.entrySet && s.apReady == 0 && UpThenOff(s.aps, |s.aps|, |s.aps|)
       case BLost => false
  }

  lemma BootKeepsInv(s: State)
    requires Inv(s)
    ensures Inv(BootStep(s)) && |BootStep(s).aps| == |s.aps|
  {
  }

  /** Another CPU that moves is the one the boot CPU waits for, or is up already. */
  lemma ApKeepsInv(s: State, k: nat)
    requires Inv(s) && k < |s.aps|
    ensures Inv(ApStep(s, k))
    ensures s.aps[k] != Lost && ApStep(s, k).aps[k] != Lost
  {
    match s.boot
    case BWait(cpu) =>
      assert k < cpu - 1 ==> Up(s.aps[k]);
      assert k >= cpu ==> s.aps[k] == Off;
    case BLoop(cpu) => assert k < cpu - 1 ==> Up(s.aps[k]);
    case BSend(cpu) => assert k < cpu - 1 ==> Up(s.aps[k]);
    case _ =>
  }

  lemma StepKeepsInv(s: State, a: Actor)
    requires Inv(s)
    ensures Inv(Step(s, a)) && |Step(s, a).aps| == |s.aps|
  {
    hide Inv, BootStep;
    match a
    case Boot => BootKeepsInv(s);
    case Ap(cpu) => if 1 <= cpu <= |s.aps| { ApKeepsInv(s, cpu - 1); }
  }

  lemma {:induction false} RunKeepsInv(s: State, schedule: seq<Actor>)
    requires Inv(s)
    ensures Inv(Run(s, schedule)) && |Run(s, schedule).aps| == |s.aps|
    decreases |schedule|
  {
    if schedule != [] {
      StepKeepsInv(s, schedule[0]);
      RunKeepsInv(Step(s, schedule[0]), schedule[1..]);
    }
  }

  lemma InvIsSafe(s: State)
    requires Inv(s)
    ensures BootStackExclusive(s) && s.overwritten == 0 && s.boot != BLost && Lost !in s.aps
    ensures s.boot == BUser ==> s.apReady == 0 && forall k :: 0 <= k < |s.aps| ==> Up(s.aps[k])
  {
  }

  /**
   In every interleaving: at most one CPU is on the boot stack, no CPU is lost and no ready signal is
   overwritten; and once the boot CPU calls the user's entry, every other CPU is up and no signal is pending.
   */
  lemma BringUpSafe(others: nat, schedule: seq<Actor>)
    ensures var s := Run(Init(others), schedule);
            && |s.aps| == others
            && BootStackExclusive(s) && s.overwritten == 0 && s.boot != BLost && Lost !in s.aps
            && (s.boot == BUser ==> s.apReady == 0 && forall k :: 0 <= k < others ==> Up(s.aps[k]))
  {
    RunKeepsInv(Init(others), schedule);
    InvIsSafe(Run(Init(others), schedule));
  }

  // ---------------------------------------------------------------- progress

  /** Every CPU runs the user's entry. */
  predicate AllUp(s: State)
  {
    s.boot == BUser && forall k :: 0 <= k < |s.aps| ==> s.aps[k] == User
  }

  function ApWork(pc: ApPc): nat
  {
    match pc
    case Off => 8
    case Requested => 8
    case Jumping => 7
    case Loading => 6
    case Starting => 5
    case Entering => 4
    case Percpu => 3
    case Ready => 2
    case Call => 1
    case User => 0
    case Lost => 0
  }

  function TotalWork(aps: seq<ApPc>): nat
  {
    if aps == [] then 0 else TotalWork(aps[..|aps| - 1]) + ApWork(aps[|aps| - 1])
  }

  function BootWork(pc: BootPc, others: nat): int
  {
    match pc
    case BLoad => 3 * others + 6
    case BStart => 3 * others + 5
    case BInit => 3 * others + 4
    case BMain => 3 * others + 3
    case BSetJmp => 3 * others + 2
    case BLoop(cpu) => 3 * (others + 1 - cpu) + 1
    case BSend(cpu) => 3 * (others + 1 - cpu)
    case BWait(cpu) => 3 * (others + 1 - cpu) - 1
    case BUser => 0
    case BLost => 0
  }

  /** The number of steps still to take, not counting turns of the spin loop. */
  function Work(s: State): int
  {
    BootWork(s.boot, |s.aps|) + TotalWork(s.aps)
  }

  lemma {:induction false} WorkUpdate(aps: seq<ApPc>, k: nat, pc: ApPc)
    requires k < |aps|
    ensures TotalWork(aps[k := pc]) == TotalWork(aps) - ApWork(aps[k]) + ApWork(pc)
    decreases |aps|
  {
    var last := |aps| - 1;
    if k == last {
      assert aps[k := pc][..last] == aps[..last];
    } else {
      assert aps[k := pc][..last] == aps[..last][k := pc];
      WorkUpdate(aps[..last], k, pc);
    }
  }

  lemma ApWorks(s: State, k: nat)
    requires Inv(s) && k < |s.aps|
    ensures ApStep(s, k) == s || Work(ApStep(s, k)) == Work(s) - 1
  {
    hide Inv, TotalWork;
    ApKeepsInv(s, k);
    var pc := ApNext(s.aps[k], s.isAp, s.jmpSet, s.entrySet);
    WorkUpdate(s.aps, k, pc);
    if s.aps[k] in {Off, User} {
      assert s.aps[k := s.aps[k]] == s.aps;
    } else {
      NextWorks(s.aps[k], s.isAp, s.jmpSet, s.entrySet);
    }
  }

  lemma NextWorks(pc: ApPc, isAp: bool, jmpSet: bool, entrySet: bool)
    requires pc !in {Off, User, Lost} && ApNext(pc, isAp, jmpSet, entrySet) != Lost
    ensures ApWork(ApNext(pc, isAp, jmpSet, entrySet)) == ApWork(pc) - 1
  {
  }

  lemma BootWorks(s: State)
    requires Inv(s)
    ensures BootStep(s) == s || Work(BootStep(s)) == Work(s) - 1
  {
    if s.boot.BSend? {
      WorkUpdate(s.aps, s.boot.cpu - 1, Requested);
    }
    hide TotalWork;
  }

  /** A step either changes nothing or takes away exactly one unit of work. */
  lemma StepWorks(s: State, a: Actor)
    requires Inv(s)
    ensures Step(s, a) == s || Work(Step(s, a)) == Work(s) - 1
  {
    hide Inv, Work, BootStep, ApStep;
    match a
    case Boot => BootWorks(s);
    case Ap(cpu) => if 1 <= cpu <= |s.aps| { ApWorks(s, cpu - 1); }
  }

  lemma WorkNatural(s: State)
    requires Inv(s)
    ensures Work(s) >= 0
  {
  }

  /** Short of the end, some CPU can always take a step that changes something. */
  lemma SomeoneMoves(s: State) returns (a: Actor)
    requires Inv(s) && !AllUp(s)
    ensures Step(s, a) != s
  {
    if s.boot.BWait? && s.apReady == 0 {
      a := Ap(s.boot.cpu);
    } else if s.boot == BUser {
      var k :| 0 <= k < |s.aps| && s.aps[k] != User;
      assert Up(s.aps[k]);
      a := Ap(k + 1);
    } else {
      a := Boot;
    }
  }

  /** From every reachable state all CPUs can still come up. */
  lemma {:induction false} CanFinish(s: State) returns (schedule: seq<Actor>)
    requires Inv(s)
    ensures AllUp(Run(s, schedule))
    decreases Work(s)
  {
    if AllUp(s) {
      schedule := [];
    } else {
      var a := SomeoneMoves(s);
      StepKeepsInv(s, a);
      StepWorks(s, a);
      WorkNatural(s);
      WorkNatural(Step(s, a));
      var rest := CanFinish(Step(s, a));
      schedule := [a] + rest;
    }
  }

  /** The turns of a run that change something. */
  function Effective(s: State, schedule: seq<Actor>): nat
    decreases |schedule|
  {
    if schedule == [] then 0
    else (if Step(s, schedule[0]) == s then 0 else 1) + Effective(Step(s, schedule[0]), schedule[1..])
  }

  /** Work is used up one unit at a time, whatever the schedule. */
  lemma {:induction false} RunWorks(s: State, schedule: seq<Actor>)
    requires Inv(s)
    ensures Effective(s, schedule) == Work(s) - Work(Run(s, schedule))
    decreases |schedule|
  {
    if schedule != [] {
      StepKeepsInv(s, schedule[0]);
      StepWorks(s, schedule[0]);
      RunWorks(Step(s, schedule[0]), schedule[1..]);
    }
  }

  lemma {:induction false} InitWork(others: nat)
    ensures TotalWork(seq(others, _ => Off)) == 8 * others
  {
    if others > 0 {
      var aps := seq(others, _ => Off);
      assert aps[..others - 1] == seq(others - 1, _ => Off);
      InitWork(others - 1);
    }
  }

  lemma {:induction false} NoWork(aps: seq<ApPc>)
    requires forall k :: 0 <= k < |aps| ==> aps[k] == User
    ensures TotalWork(aps) == 0
  {
    if aps != [] { NoWork(aps[..|aps| - 1]); }
  }

  /**
   Bring-up cannot go on for ever: every interleaving makes at most 11 * others + 6 steps that change
   something, and exactly that many when all CPUs have come up.
   */
  lemma BringUpBounded(others: nat, schedule: seq<Actor>)
    ensures Effective(Init(others), schedule) <= 11 * others + 6
    ensures AllUp(Run(Init(others), schedule)) ==> Effective(Init(others), schedule) == 11 * others + 6
  {
    var s := Init(others);
    RunKeepsInv(s, schedule);
    RunWorks(s, schedule);
    WorkNatural(Run(s, schedule));
    InitWork(others);
    if AllUp(Run(s, schedule)) { NoWork(Run(s, schedule).aps); }
  }

  /** Whatever has happened so far, all CPUs can still come up. */
  lemma BringUpCanFinish(others: nat, schedule: seq<Actor>)
    ensures exists rest :: AllUp(Run(Run(Init(others), schedule), rest))
  {
    RunKeepsInv(Init(others), schedule);
    var rest := CanFinish(Run(Init(others), schedule));
  }
}
