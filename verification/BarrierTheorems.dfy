/** What the barrier guarantees over every run: separation of rounds, freedom from deadlock, bounded
    completion, and refinement of an atomic rendezvous. */
module BarrierTheorems {
  import opened Barrier
  import opened Wrappers

  // ---------- safety ----------

  lemma {:induction false} RunInv(run: seq<State>, n: nat, k: nat)
    requires IsRun(run, n) && n >= 2 && k < |run|
    ensures Inv(run[k]) && |run[k].cpus| == n
  {
    if k == 0 {
      InitInv(run[0], n);
    } else {
      RunInv(run, n, k - 1);
      var i: nat :| i < |run[k - 1].cpus| && StepOf(run[k - 1], i) == Some(run[k]);
      StepInv(run[k - 1], run[k], i);
    }
  }

  /** No CPU has returned from a call that some CPU has not made yet, and no CPU has counted itself into
      a round before every CPU left the previous one. */
  ghost predicate RoundsSeparated(s: State) {
    forall i, j | 0 <= i < |s.cpus| && 0 <= j < |s.cpus| ::
      && s.cpus[i].returned <= Calls(s.cpus[j])
      && Decrements(s.cpus[i]) <= s.cpus[j].returned + 1
  }

  lemma InvSeparates(s: State)
    requires Inv(s)
    ensures RoundsSeparated(s)
  {
    CountFacts(s);
    hide CountInside, LockOk;
    forall i, j | 0 <= i < |s.cpus| && 0 <= j < |s.cpus|
      ensures s.cpus[i].returned <= Calls(s.cpus[j])
      ensures Decrements(s.cpus[i]) <= s.cpus[j].returned + 1
    {
      assert CpuOk(s, s.cpus[i]) && CpuOk(s, s.cpus[j]);
    }
  }

  /** Rounds stay separated in every state of every run of any number of CPUs. */
  lemma BarrierSafe(run: seq<State>, n: nat, k: nat)
    requires IsRun(run, n) && n >= 2 && k < |run|
    ensures RoundsSeparated(run[k])
  {
    RunInv(run, n, k);
    InvSeparates(run[k]);
  }

  // ---------- progress ----------

  /** A step of a CPU that is inside the call (anything but making a call). */
  ghost predicate Internal(s: State, s': State) {
    exists i: nat :: i < |s.cpus| && !s.cpus[i].pc.Outside? && StepOf(s, i) == Some(s')
  }

  /** Every CPU inside the call has to spin. */
  ghost predicate Stuck(s: State) {
    forall i | 0 <= i < |s.cpus| :: s.cpus[i].pc.Outside? || StepOf(s, i) == None
  }

  /** When every CPU in the call spins, the barrier is waiting for arrivals: all that are inside have
      arrived, and some CPU outside has not called yet in this round. */
  lemma StuckShape(s: State)
    requires Inv(s) && Stuck(s)
    ensures s.g.st1 && !s.g.st2 && s.g.lck
    ensures forall i | 0 <= i < |s.cpus| ::
              s.cpus[i].returned == s.round && (s.cpus[i].pc.Outside? || s.cpus[i].pc.WaitExit?)
    ensures exists i :: 0 <= i < |s.cpus| && s.cpus[i].pc.Outside?
  {
    StuckUnlocked(s);
    StuckArriving(s);
    CountFacts(s);
    hide CountInside;
    forall i | 0 <= i < |s.cpus| ensures s.cpus[i].pc.Outside? || s.cpus[i].pc.WaitExit? {
      assert CpuOk(s, s.cpus[i]);
    }
  }

  lemma StuckUnlocked(s: State)
    requires Inv(s) && Stuck(s)
    ensures s.g.lck && s.holder == -1
  {
    hide CountInside, CpuOk, HolderOk;
    if !s.g.lck {
      HolderActs(s.cpus[s.holder].pc, s.g, |s.cpus|);
    }
  }

  /** A CPU holding the lock never spins. */
  lemma HolderActs(pc: PC, g: Shared, maxproc: nat)
    requires Holds(pc)
    ensures Act(pc, g, maxproc).Some?
  {
  }

  lemma StuckArriving(s: State)
    requires Inv(s) && Stuck(s) && s.holder == -1
    ensures s.g.st1 && !s.g.st2
  {
    CountFacts(s);
    hide CountInside, LockOk;
  }

  /** No deadlock: with every CPU inside the call, some CPU can take a step. */
  lemma NoDeadlock(s: State)
    requires Inv(s)
    requires forall i | 0 <= i < |s.cpus| :: !s.cpus[i].pc.Outside?
    ensures exists i: nat :: i < |s.cpus| && StepOf(s, i).Some?
  {
    if Stuck(s) {
      StuckShape(s);
    } else {
      var i :| 0 <= i < |s.cpus| && !s.cpus[i].pc.Outside? && StepOf(s, i) != None;
      assert StepOf(s, i).Some?;
    }
  }

  /** How many steps of the call can still lie ahead. */
  function Rank(pc: PC): nat {
    match pc
    case Outside => 0
    case WaitEntry => 10
    case LockEntry => 9
    case Decrement => 8
    case CloseEntry => 4
    case OpenExit => 3
    case Restore => 2
    case UnlockLast => 1
    case UnlockArrive => 7
    case WaitExit => 6
    case LockExit => 5
    case Increment => 4
    case OpenEntry => 3
    case CloseExit => 2
    case UnlockLeave => 1
  }

  function Work(cpus: seq<CPU>): nat {
    if cpus == [] then 0 else Work(cpus[..|cpus| - 1]) + Rank(cpus[|cpus| - 1].pc)
  }

  lemma {:induction false} WorkUpdate(cpus: seq<CPU>, i: nat, c: CPU)
    requires i < |cpus|
    ensures Work(cpus[i := c]) == Work(cpus) - Rank(cpus[i].pc) + Rank(c.pc)
  {
    var front := cpus[..|cpus| - 1];
    if i < |front| {
      WorkUpdate(front, i, c);
      assert cpus[i := c][..|cpus| - 1] == front[i := c];
    } else {
      assert cpus[i := c][..|cpus| - 1] == front;
    }
  }

  lemma RankDrops(pc: PC, g: Shared, maxproc: nat)
    requires !pc.Outside? && Act(pc, g, maxproc).Some?
    ensures Rank(Act(pc, g, maxproc).value.0) < Rank(pc)
  {
  }

  /** Every step inside the call uses up work, and makes no new calls. */
  lemma InternalStep(s: State, s': State)
    requires Inv(s) && Internal(s, s')
    ensures Inv(s') && |s'.cpus| == |s.cpus|
    ensures Work(s'.cpus) < Work(s.cpus)
    ensures forall j | 0 <= j < |s.cpus| :: Calls(s'.cpus[j]) == Calls(s.cpus[j])
  {
    var i: nat :| i < |s.cpus| && !s.cpus[i].pc.Outside? && StepOf(s, i) == Some(s');
    StepInv(s, s', i);
    hide Inv, Act, Rank, Work;
    WorkUpdate(s.cpus, i, s'.cpus[i]);
    RankDrops(s.cpus[i].pc, s.g, |s.cpus|);
    InternalKeepsCalls(s, s', i);
  }

  lemma InternalKeepsCalls(s: State, s': State, i: nat)
    requires i < |s.cpus| && !s.cpus[i].pc.Outside? && StepOf(s, i) == Some(s')
    ensures forall j | 0 <= j < |s.cpus| :: Calls(s'.cpus[j]) == Calls(s.cpus[j])
  {
    hide Act;
  }

  /** A sequence of steps without new calls. */
  ghost predicate InternalRun(run: seq<State>) {
    |run| > 0 && forall k | 0 < k < |run| :: Internal(run[k - 1], run[k])
  }

  lemma {:induction false} InternalRunKeeps(run: seq<State>, k: nat)
    requires InternalRun(run) && Inv(run[0]) && k < |run|
    ensures Inv(run[k]) && |run[k].cpus| == |run[0].cpus|
    ensures Work(run[k].cpus) + k <= Work(run[0].cpus)
    ensures forall j | 0 <= j < |run[0].cpus| :: Calls(run[k].cpus[j]) == Calls(run[0].cpus[j])
  {
    hide Inv;
    if k > 0 {
      InternalRunKeeps(run, k - 1);
      InternalStep(run[k - 1], run[k]);
    }
  }

  /** Once all CPUs have made their g-th call, steps inside the call come to an end, after at most Work
      of them, and when they do every CPU has returned and the barrier is as barrier_init left it. */
  lemma RoundCompletes(run: seq<State>, calls: nat)
    requires InternalRun(run) && Inv(run[0])
    requires forall j | 0 <= j < |run[0].cpus| :: Calls(run[0].cpus[j]) == calls
    ensures |run| <= Work(run[0].cpus) + 1
    ensures var last := run[|run| - 1];
            Stuck(last) ==>
              last.g == Shared(|last.cpus|, true, false, true)
              && forall j | 0 <= j < |last.cpus| :: last.cpus[j] == CPU(Outside, calls)
  {
    var last := run[|run| - 1];
    InternalRunKeeps(run, |run| - 1);
    if Stuck(last) {
      StuckShape(last);
      var o :| 0 <= o < |last.cpus| && last.cpus[o].pc.Outside?;
      assert Calls(last.cpus[o]) == calls;
      assert last.round == calls;
      forall j | 0 <= j < |last.cpus| ensures last.cpus[j] == CPU(Outside, calls) {
        assert Calls(last.cpus[j]) == calls;
      }
      CountFacts(last);
    }
  }

  // ---------- refinement ----------

  /** An atomic N-way rendezvous: calls are made, all N calls of a round meet in one step, and then each
      CPU may return. */
  datatype Rendezvous = Rendezvous(calls: seq<nat>, met: nat, returned: seq<nat>)

  ghost predicate RendezvousCall(r: Rendezvous, r': Rendezvous, i: nat) {
    i < |r.calls| == |r.returned| && r.calls[i] == r.returned[i] && r' == r.(calls := r.calls[i := r.calls[i] + 1])
  }

  ghost predicate RendezvousMeet(r: Rendezvous, r': Rendezvous) {
    (forall i | 0 <= i < |r.calls| :: r.calls[i] == r.met + 1) && r' == r.(met := r.met + 1)
  }

  ghost predicate RendezvousReturn(r: Rendezvous, r': Rendezvous, i: nat) {
    i < |r.returned| && r.returned[i] < r.met && r' == r.(returned := r.returned[i := r.returned[i] + 1])
  }

  ghost function Abstract(s: State): Rendezvous {
    Rendezvous(
      seq(|s.cpus|, i requires 0 <= i < |s.cpus| => Calls(s.cpus[i])),
      s.round + if !s.g.st1 || s.g.count == 0 then 1 else 0,
      seq(|s.cpus|, i requires 0 <= i < |s.cpus| => s.cpus[i].returned))
  }

  /** Every step of the barrier is a step of the rendezvous, or changes nothing it can see: a call is a
      call, bringing the counter to 0 is the meeting, and releasing the lock for the last time is the
      return. */
  lemma RefinesRendezvous(s: State, s': State, i: nat)
    requires Inv(s) && i < |s.cpus| && StepOf(s, i) == Some(s')
    ensures var pc, r, r' := s.cpus[i].pc, Abstract(s), Abstract(s');
            if pc.Outside? then RendezvousCall(r, r', i)
            else if pc.Decrement? && s.g.count == 1 then RendezvousMeet(r, r')
            else if pc.UnlockLast? || pc.UnlockLeave? then RendezvousReturn(r, r', i)
            else r' == r
  {
    CpusAfter(s, s', i);
    MetAfter(s, s', i);
    assert CpuOk(s, s.cpus[i]);
    if s.cpus[i].pc.Decrement? && s.g.count == 1 {
      AllCalled(s, s', i);
    }
    hide Act, CountInside, LockOk, HolderOk;
  }

  lemma MetAfter(s: State, s': State, i: nat)
    requires Inv(s) && i < |s.cpus| && StepOf(s, i) == Some(s')
    ensures Abstract(s').met == Abstract(s).met + if s.cpus[i].pc.Decrement? && s.g.count == 1 then 1 else 0
  {
    CountFacts(s);
    assert CpuOk(s, s.cpus[i]);
    hide CountInside, LockOk;
  }

  /** When the counter reaches 0, every CPU is in its call of the current round. */
  lemma AllCalled(s: State, s': State, i: nat)
    requires Inv(s) && i < |s.cpus| && StepOf(s, i) == Some(s')
    requires s.cpus[i].pc.Decrement? && s.g.count == 1
    ensures forall j | 0 <= j < |s.cpus| :: Calls(s.cpus[j]) == Abstract(s).met + 1
  {
    CountFactsAfter(s, s', i);
    assert CpuOk(s, s.cpus[i]);
    hide CountInside, LockOk, HolderOk;
    forall j | 0 <= j < |s.cpus| ensures Calls(s.cpus[j]) == s.round + 1 {
      assert CpuOk(s, s.cpus[j]);
    }
  }

  lemma CpusAfter(s: State, s': State, i: nat)
    requires i < |s.cpus| && StepOf(s, i) == Some(s')
    ensures var pc, r, r' := s.cpus[i].pc, Abstract(s), Abstract(s');
            && r'.calls == (if pc.Outside? then r.calls[i := r.calls[i] + 1] else r.calls)
            && r'.returned == (if pc.UnlockLast? || pc.UnlockLeave? then r.returned[i := r.returned[i] + 1]
                               else r.returned)
  {
  }
}
