/** The reusable two-gate barrier as a step system: every CPU runs barrier() any number of times, one
    atomic step of one CPU at a time, in any interleaving. */
module Barrier {
  import opened Wrappers

  /** Where a CPU is. The comments give the step the CPU takes next. */
  datatype PC =
    | Outside       // call barrier()
    | WaitEntry     // spin_wait(&st1)
    | LockEntry     // spin_lock(&lck)
    | Decrement     // --count, test for 0
    | CloseEntry    // last to arrive: st1 = 0
    | OpenExit      // st2 = 1
    | Restore       // count++
    | UnlockLast    // spin_unlock(&lck), return
    | UnlockArrive  // not last: spin_unlock(&lck)
    | WaitExit      // spin_wait(&st2)
    | LockExit      // spin_lock(&lck)
    | Increment     // ++count, test for maxproc
    | OpenEntry     // last to leave: st1 = 1
    | CloseExit     // st2 = 0
    | UnlockLeave   // spin_unlock(&lck), return

  /** A CPU, with the number of barrier() calls it has returned from. */
  datatype CPU = CPU(pc: PC, returned: nat)

  /** The barrier structure; a lock or gate is true when its slock is 1. */
  datatype Shared = Shared(count: int, st1: bool, st2: bool, lck: bool)

  /** The structure and the CPUs, with two history variables that no step reads: round counts how often
      the entry gate has been reopened, holder is the CPU that has the lock (-1 for none). */
  datatype State = State(g: Shared, cpus: seq<CPU>, round: nat, holder: int)

  /** barrier_init(n), with n CPUs yet to call barrier(). */
  ghost predicate Init(s: State, n: nat) {
    s == State(Shared(n, true, false, true), seq(n, _ => CPU(Outside, 0)), 0, -1)
  }

  /** Holding the lock. */
  predicate Holds(pc: PC) {
    !(pc.Outside? || pc.WaitEntry? || pc.LockEntry? || pc.WaitExit? || pc.LockExit?)
  }

  /** One step of the body of barrier(): the next program counter and the new shared fields; None when
      the CPU has to spin. Reaching Outside is returning. */
  function Act(pc: PC, g: Shared, maxproc: nat): Option<(PC, Shared)> {
    match pc
    case Outside => Some((WaitEntry, g))
    case WaitEntry => if g.st1 then Some((LockEntry, g)) else None
    case LockEntry => if g.lck then Some((Decrement, g.(lck := false))) else None
    case Decrement => Some((if g.count - 1 == 0 then CloseEntry else UnlockArrive, g.(count := g.count - 1)))
    case CloseEntry => Some((OpenExit, g.(st1 := false)))
    case OpenExit => Some((Restore, g.(st2 := true)))
    case Restore => Some((UnlockLast, g.(count := g.count + 1)))
    case UnlockLast => Some((Outside, g.(lck := true)))
    case UnlockArrive => Some((WaitExit, g.(lck := true)))
    case WaitExit => if g.st2 then Some((LockExit, g)) else None
    case LockExit => if g.lck then Some((Increment, g.(lck := false))) else None
    case Increment => Some((if g.count + 1 == maxproc then OpenEntry else UnlockLeave, g.(count := g.count + 1)))
    case OpenEntry => Some((CloseExit, g.(st1 := true)))
    case CloseExit => Some((UnlockLeave, g.(st2 := false)))
    case UnlockLeave => Some((Outside, g.(lck := true)))
  }

  /** CPU i takes its next step. */
  function StepOf(s: State, i: nat): Option<State>
    requires i < |s.cpus|
  {
    var c := s.cpus[i];
    match Act(c.pc, s.g, |s.cpus|)
    case None => None
    case Some((pc, g)) =>
      Some(State(g,
                 s.cpus[i := CPU(pc, c.returned + if pc.Outside? then 1 else 0)],
                 s.round + if c.pc.OpenEntry? then 1 else 0,
                 if Holds(c.pc) == Holds(pc) then s.holder else if Holds(pc) then i else -1))
  }

  ghost predicate Next(s: State, s': State) {
    exists i: nat :: i < |s.cpus| && StepOf(s, i) == Some(s')
  }

  /** A run: any finite sequence of steps from the initial state. */
  ghost predicate IsRun(run: seq<State>, n: nat) {
    && |run| > 0
    && Init(run[0], n)
    && forall k | 0 < k < |run| :: Next(run[k - 1], run[k])
  }

  // ---------- counters of calls, decrements and returns ----------

  /** Has decremented count in its current call, and not yet put it back. */
  predicate Inside(pc: PC) {
    pc.CloseEntry? || pc.OpenExit? || pc.Restore? || pc.UnlockArrive? || pc.WaitExit? || pc.LockExit? || pc.Increment?
  }

  /** Has decremented count in its current call. */
  predicate Arrived(pc: PC) {
    Inside(pc) || pc.UnlockLast? || pc.OpenEntry? || pc.CloseExit? || pc.UnlockLeave?
  }

  /** Calls made so far, counting the one in progress. */
  function Calls(c: CPU): nat {
    c.returned + if c.pc.Outside? then 0 else 1
  }

  /** Decrements of count made so far. */
  function Decrements(c: CPU): nat {
    c.returned + if Arrived(c.pc) then 1 else 0
  }

  function CountInside(cpus: seq<CPU>): nat {
    if cpus == [] then 0 else CountInside(cpus[..|cpus| - 1]) + if Inside(cpus[|cpus| - 1].pc) then 1 else 0
  }

  lemma {:induction false} CountInsideUpdate(cpus: seq<CPU>, i: nat, c: CPU)
    requires i < |cpus|
    ensures CountInside(cpus[i := c])
         == CountInside(cpus) - (if Inside(cpus[i].pc) then 1 else 0) + if Inside(c.pc) then 1 else 0
  {
    var front := cpus[..|cpus| - 1];
    if i < |front| {
      CountInsideUpdate(front, i, c);
      assert cpus[i := c][..|cpus| - 1] == front[i := c];
    } else {
      assert cpus[i := c][..|cpus| - 1] == front;
    }
  }

  lemma {:induction false} CountInsideExtremes(cpus: seq<CPU>)
    ensures CountInside(cpus) <= |cpus|
    ensures CountInside(cpus) == |cpus| <==> forall i | 0 <= i < |cpus| :: Inside(cpus[i].pc)
    ensures CountInside(cpus) == 0 <==> forall i | 0 <= i < |cpus| :: !Inside(cpus[i].pc)
  {
    if cpus != [] {
      var front := cpus[..|cpus| - 1];
      CountInsideExtremes(front);
      assert forall i | 0 <= i < |front| :: front[i] == cpus[i];
      assert cpus[|cpus| - 1] == cpus[|front|];
    }
  }

  // ---------- the invariant ----------

  /** What a CPU may be doing, given the two gates and the round:
      entry open, exit closed: arriving (or the first or last lock holder is still busy);
      both closed: the last to arrive is switching over;
      entry closed, exit open: leaving; both open: the last to leave is switching back. */
  predicate CpuOk(s: State, c: CPU) {
    if s.g.st1 && !s.g.st2 then
      if c.pc.UnlockLeave? then
        c.returned + 1 == s.round && s.g.count == |s.cpus|
      else
        c.returned == s.round
        && (c.pc.Outside? || c.pc.WaitEntry? || c.pc.LockEntry? || c.pc.Decrement? || c.pc.UnlockArrive?
            || c.pc.WaitExit? || (c.pc.CloseEntry? && s.g.count == 0))
    else if !s.g.st1 && !s.g.st2 then
      c.returned == s.round && ((c.pc.OpenExit? && s.g.count == 0) || c.pc.WaitExit?)
    else if !s.g.st1 then
      if c.pc.Outside? || c.pc.WaitEntry? then
        c.returned == s.round + 1
      else
        c.returned == s.round
        && (c.pc.WaitExit? || c.pc.LockExit? || c.pc.Increment? || c.pc.UnlockLeave? || c.pc.UnlockLast?
            || (c.pc.Restore? && s.g.count == 0) || (c.pc.OpenEntry? && s.g.count == |s.cpus|))
    else
      if c.pc.CloseExit? then
        c.returned + 1 == s.round && s.g.count == |s.cpus|
      else
        c.returned == s.round && (c.pc.Outside? || c.pc.WaitEntry? || c.pc.LockEntry?)
  }

  /** The lock is taken exactly when a CPU is between taking and releasing it, and that is one CPU. */
  ghost predicate LockOk(s: State) {
    && -1 <= s.holder < |s.cpus|
    && (s.g.lck <==> s.holder == -1)
    && (forall i | 0 <= i < |s.cpus| :: Holds(s.cpus[i].pc) <==> i == s.holder)
  }

  /** Gate and counter values that only the lock holder can have left behind. */
  predicate HolderOk(s: State)
    requires -1 <= s.holder < |s.cpus|
  {
    var pc := if s.holder == -1 then Outside else s.cpus[s.holder].pc;
    && (!s.g.st1 && !s.g.st2 ==> pc.OpenExit?)
    && (s.g.st1 && s.g.st2 ==> pc.CloseExit?)
    && (s.g.count == 0 ==> pc.CloseEntry? || pc.OpenExit? || pc.Restore?)
    && (!s.g.st1 && s.g.st2 && s.g.count == |s.cpus| ==> pc.OpenEntry?)
  }

  ghost predicate Inv(s: State) {
    && 2 <= |s.cpus|
    && s.g.count == |s.cpus| - CountInside(s.cpus)
    && LockOk(s) && HolderOk(s)
    && (forall i | 0 <= i < |s.cpus| :: CpuOk(s, s.cpus[i]))
  }

  lemma InitInv(s: State, n: nat)
    requires Init(s, n) && n >= 2
    ensures Inv(s)
  {
    CountInsideExtremes(s.cpus);
  }

  /** The lock and the counter follow the program counter. */
  lemma ActEffect(pc: PC, g: Shared, maxproc: nat)
    requires Act(pc, g, maxproc).Some?
    ensures var (pc', g') := Act(pc, g, maxproc).value;
            && g'.lck == (if Holds(pc) == Holds(pc') then g.lck else !Holds(pc'))
            && (Holds(pc') && !Holds(pc) ==> g.lck)
            && g'.count - g.count == (if Inside(pc) then 1 else 0) - (if Inside(pc') then 1 else 0)
  {
  }

  lemma StepCount(s: State, s': State, i: nat)
    requires Inv(s) && i < |s.cpus| && StepOf(s, i) == Some(s')
    ensures |s'.cpus| == |s.cpus|
    ensures forall j | 0 <= j < |s.cpus| && j != i :: s'.cpus[j] == s.cpus[j]
    ensures s'.g.count == |s.cpus| - CountInside(s'.cpus)
  {
    hide CpuOk, HolderOk, LockOk, CountInside, Act;
    ActEffect(s.cpus[i].pc, s.g, |s.cpus|);
    CountInsideUpdate(s.cpus, i, s'.cpus[i]);
  }

  lemma StepLock(s: State, s': State, i: nat)
    requires Inv(s) && i < |s.cpus| && StepOf(s, i) == Some(s')
    ensures LockOk(s')
  {
    hide CpuOk, HolderOk, CountInside, Act, Holds, Inside;
    ActEffect(s.cpus[i].pc, s.g, |s.cpus|);
  }

  /** What the counter says about the CPUs. */
  lemma CountFacts(s: State)
    requires Inv(s)
    ensures 0 <= s.g.count <= |s.cpus|
    ensures s.g.count == 0 <==> forall i | 0 <= i < |s.cpus| :: Inside(s.cpus[i].pc)
    ensures s.g.count == |s.cpus| <==> forall i | 0 <= i < |s.cpus| :: !Inside(s.cpus[i].pc)
  {
    CountInsideExtremes(s.cpus);
  }

  /** The counter after i's step, in the two cases where its value opens a gate. */
  lemma CountFactsAfter(s: State, s': State, i: nat)
    requires Inv(s) && i < |s.cpus| && StepOf(s, i) == Some(s')
    ensures s'.g.count == 0 ==> forall j | 0 <= j < |s.cpus| && j != i :: Inside(s.cpus[j].pc)
    ensures s'.g.count == |s.cpus| ==> forall j | 0 <= j < |s.cpus| && j != i :: !Inside(s.cpus[j].pc)
    ensures 0 <= s'.g.count <= |s.cpus|
    ensures s'.g.count == 0 ==> Inside(s'.cpus[i].pc)
    ensures s'.g.count == |s.cpus| ==> !Inside(s'.cpus[i].pc)
  {
    StepCount(s, s', i);
    CountInsideExtremes(s'.cpus);
    hide CpuOk, HolderOk, CountInside, LockOk, StepOf;
    assert forall j | 0 <= j < |s.cpus| && j != i :: s'.cpus[j] == s.cpus[j];
  }

  lemma StepHolder(s: State, s': State, i: nat)
    requires Inv(s) && i < |s.cpus| && StepOf(s, i) == Some(s')
    requires LockOk(s') && |s'.cpus| == |s.cpus|
    ensures HolderOk(s')
  {
    CountFactsAfter(s, s', i);
    hide CountInside;
  }

  lemma StepSelf(s: State, s': State, i: nat)
    requires Inv(s) && i < |s.cpus| && StepOf(s, i) == Some(s')
    requires |s'.cpus| == |s.cpus|
    ensures CpuOk(s', s'.cpus[i])
  {
    CountFactsAfter(s, s', i);
    hide CountInside;
  }

  lemma StepOther(s: State, s': State, i: nat, j: nat)
    requires Inv(s) && i < |s.cpus| && StepOf(s, i) == Some(s')
    requires j < |s.cpus| && j != i && |s'.cpus| == |s.cpus| && s'.cpus[j] == s.cpus[j]
    ensures CpuOk(s', s.cpus[j])
  {
    CountFacts(s);
    CountFactsAfter(s, s', i);
    hide CountInside;
  }

  /** Every step of every CPU keeps the invariant. */
  lemma StepInv(s: State, s': State, i: nat)
    requires Inv(s) && i < |s.cpus| && StepOf(s, i) == Some(s')
    ensures Inv(s') && |s'.cpus| == |s.cpus|
  {
    StepCount(s, s', i);
    StepLock(s, s', i);
    StepHolder(s, s', i);
    StepSelf(s, s', i);
    forall j | 0 <= j < |s.cpus| && j != i ensures CpuOk(s', s'.cpus[j]) {
      StepOther(s, s', i, j);
    }
    hide CpuOk, HolderOk, CountInside, LockOk, StepOf;
  }
}
