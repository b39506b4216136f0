/**
 sleeplock.c on top of sleep, wakeup and kill of proc.c, as interleaved steps of any number of
 processes. Every acquire, release and store that another process could observe is one step.
 */
module Sleeplock {

  // Where a process is. Comments name the statement it is about to execute.
  datatype Pc =
    | Away                // outside acquiresleep and releasesleep, without the sleeplock
    | WantLk              // acquire(&lk->lk) in acquiresleep or at the end of sleep
    | Test                // while(lk->locked)
    | Take                // lk->locked = 1; lk->pid = ...
    | DropLk              // release(&lk->lk) in acquiresleep
    | Holds               // outside, with the sleeplock
    | SleepWantPt         // sleep: acquire(&ptable.lock)
    | SleepDropLk         // sleep: release(lk)
    | SleepMark           // sleep: p->chan = chan; p->state = SLEEPING
    | SleepSwitch         // sleep: sched(); the scheduler will release ptable.lock
    | Asleep              // switched out; the scheduler runs it again once it is RUNNABLE
    | Woken               // sleep: p->chan = 0
    | WokenDropPt         // sleep: release(&ptable.lock)
    | RelWantLk           // releasesleep: acquire(&lk->lk)
    | RelClear            // lk->locked = 0; lk->pid = 0
    | RelWantPt           // wakeup: acquire(&ptable.lock)
    | Waking(next: nat)   // wakeup1: about to look at process `next`
    | RelDropPt           // wakeup: release(&ptable.lock)
    | RelDropLk           // releasesleep: release(&lk->lk)

  // sleeping: p->state == SLEEPING. onLock: p->chan is the sleeplock.
  datatype Proc = Proc(pc: Pc, sleeping: bool, onLock: bool)

  // lk and pt are the owners of the two spinlocks, -1 if free; the pid of process i is i + 1.
  datatype State = State(procs: seq<Proc>, locked: bool, pid: int, lk: int, pt: int)

  datatype Step =
    | Run(i: nat)                 // process i executes its next statement
    | Call(i: nat)                // process i calls acquiresleep, or releasesleep if it holds the lock
    | Kill(i: nat)                // kill wakes process i, whatever it sleeps on
    | Elsewhere(i: nat, sleeping: bool) // process i, outside, goes to sleep on or wakes up from something else

  predicate HasLk(pc: Pc) {
    pc.Test? || pc.Take? || pc.DropLk? || pc.SleepWantPt? || pc.SleepDropLk?
    || pc.RelClear? || pc.RelWantPt? || pc.Waking? || pc.RelDropPt? || pc.RelDropLk?
  }

  predicate HasPt(pc: Pc) {
    pc.SleepDropLk? || pc.SleepMark? || pc.SleepSwitch? || pc.Woken? || pc.WokenDropPt? || pc.Waking? || pc.RelDropPt?
  }

  // Between taking the sleeplock and giving it up.
  predicate Owner(pc: Pc) {
    pc.DropLk? || pc.Holds? || pc.RelWantLk? || pc.RelClear?
  }

  predicate Outside(pc: Pc) {
    pc.Away? || pc.Holds?
  }

  // ---- Steps ---------------------------------------------------------------------------------

  predicate Enabled(s: State, step: Step) {
    match step
    case Run(i) => i < |s.procs| && CanRun(s, i)
    case Call(i) => i < |s.procs| && Outside(s.procs[i].pc) && !s.procs[i].sleeping
    case Kill(i) => i < |s.procs| && s.pt == -1
    case Elsewhere(i, _) => i < |s.procs| && Outside(s.procs[i].pc) && s.pt == -1
  }

  predicate CanRun(s: State, i: nat)
    requires i < |s.procs|
  {
    match s.procs[i].pc
    case Away | Holds => false
    case WantLk | RelWantLk => s.lk == -1
    case SleepWantPt | RelWantPt => s.pt == -1
    case Asleep => !s.procs[i].sleeping && s.pt == -1
    case _ => true
  }

  function Goto(s: State, i: nat, pc: Pc): State
    requires i < |s.procs|
  {
    s.(procs := s.procs[i := s.procs[i].(pc := pc)])
  }

  // wakeup1's loop body for process j.
  function WakeOne(s: State, j: nat): State
    requires j < |s.procs|
  {
    if s.procs[j].sleeping && s.procs[j].onLock then s.(procs := s.procs[j := s.procs[j].(sleeping := false)]) else s
  }

  function RunStep(s: State, i: nat): State
    requires i < |s.procs| && CanRun(s, i)
  {
    match s.procs[i].pc
    case WantLk => Goto(s, i, Test).(lk := i)
    case Test => Goto(s, i, if s.locked then SleepWantPt else Take)
    case Take => Goto(s, i, DropLk).(locked := true, pid := i + 1)
    case DropLk => Goto(s, i, Holds).(lk := -1)
    case SleepWantPt => Goto(s, i, SleepDropLk).(pt := i)
    case SleepDropLk => Goto(s, i, SleepMark).(lk := -1)
    case SleepMark => s.(procs := s.procs[i := Proc(SleepSwitch, true, true)])
    case SleepSwitch => Goto(s, i, Asleep).(pt := -1)
    case Asleep => Goto(s, i, Woken).(pt := i)
    case Woken => s.(procs := s.procs[i := s.procs[i].(pc := WokenDropPt, onLock := false)])
    case WokenDropPt => Goto(s, i, WantLk).(pt := -1)
    case RelWantLk => Goto(s, i, RelClear).(lk := i)
    case RelClear => Goto(s, i, RelWantPt).(locked := false, pid := 0)
    case RelWantPt => Goto(s, i, Waking(0)).(pt := i)
    case Waking(j) => if j < |s.procs| then Goto(WakeOne(s, j), i, Waking(j + 1)) else Goto(s, i, RelDropPt)
    case RelDropPt => Goto(s, i, RelDropLk).(pt := -1)
    case RelDropLk => Goto(s, i, Away).(lk := -1)
  }

  function Next(s: State, step: Step): State
    requires Enabled(s, step)
  {
    match step
    case Run(i) => RunStep(s, i)
    case Call(i) => Goto(s, i, if s.procs[i].pc.Away? then WantLk else RelWantLk)
    case Kill(i) => s.(procs := s.procs[i := s.procs[i].(sleeping := false)])
    case Elsewhere(i, z) => s.(procs := s.procs[i := s.procs[i].(sleeping := z)])
  }

  predicate Initial(s: State) {
    && !s.locked && s.pid == 0 && s.lk == -1 && s.pt == -1
    && forall i | 0 <= i < |s.procs| :: s.procs[i].pc.Away? && !s.procs[i].onLock
  }

  predicate Reaches(s: State, steps: seq<Step>, t: State)
    decreases steps
  {
    if steps == [] then s == t
    else Enabled(s, steps[0]) && Reaches(Next(s, steps[0]), steps[1..], t)
  }

  // ---- The invariant --------------------------------------------------------------------------

  // A releaser has cleared `locked` and its wakeup has not passed process i yet.
  predicate WakeupComing(s: State, i: nat) {
    0 <= s.lk < |s.procs| &&
    match s.procs[s.lk].pc
    case RelWantPt => true
    case Waking(j) => j <= i
    case _ => false
  }

  // Who has which lock, as the program counters say it and as the state says it.
  predicate LocksOk(s: State, i: nat)
    requires i < |s.procs|
  {
    var pc := s.procs[i].pc;
    && (s.lk == i <==> HasLk(pc))
    && (s.pt == i <==> HasPt(pc))
    && (Owner(pc) <==> s.locked && s.pid == i + 1)
    && (pc.Take? || pc.RelWantPt? || pc.Waking? || pc.RelDropPt? || pc.RelDropLk? ==> !s.locked)
    && (pc.SleepWantPt? || pc.SleepDropLk? ==> s.locked)
  }

  // Nobody sleeps, or is bound to, unless the lock is taken or a wakeup is still to reach it.
  predicate SleepOk(s: State, i: nat)
    requires i < |s.procs|
  {
    var p := s.procs[i];
    && (p.onLock ==> p.pc.SleepSwitch? || p.pc.Asleep? || p.pc.Woken?)
    && (p.pc.SleepSwitch? || p.pc.Asleep? ==> p.onLock)
    && (p.sleeping ==> Outside(p.pc) || p.pc.SleepSwitch? || p.pc.Asleep?)
    && (p.pc.SleepMark? ==> s.locked || (WakeupComing(s, i) && s.procs[s.lk].pc.RelWantPt?))
    && (p.sleeping && p.onLock ==> s.locked || WakeupComing(s, i))
  }

  predicate InRange(s: State) {
    && (if s.locked then 1 <= s.pid <= |s.procs| else s.pid == 0)
    && -1 <= s.lk < |s.procs| && -1 <= s.pt < |s.procs|
  }

  predicate Inv(s: State) {
    && InRange(s)
    && forall i | 0 <= i < |s.procs| :: LocksOk(s, i) && SleepOk(s, i)
  }

  // Inside acquiresleep, inside sleep, and inside releasesleep.
  predicate Acquiring(pc: Pc) {
    pc.WantLk? || pc.Test? || pc.Take? || pc.DropLk?
  }

  predicate InSleep(pc: Pc) {
    pc.SleepWantPt? || pc.SleepDropLk? || pc.SleepMark? || pc.SleepSwitch? || pc.Asleep? || pc.Woken? || pc.WokenDropPt?
  }

  lemma AcquireLocks(s: State, i: nat)
    requires i < |s.procs| && CanRun(s, i) && LocksOk(s, i) && Acquiring(s.procs[i].pc)
    ensures LocksOk(RunStep(s, i), i)
  {
    hide SleepOk, WakeupComing, Next, Enabled, Outside;
  }

  lemma SleepLocks(s: State, i: nat)
    requires i < |s.procs| && CanRun(s, i) && LocksOk(s, i) && InSleep(s.procs[i].pc)
    ensures LocksOk(RunStep(s, i), i)
  {
    hide SleepOk, WakeupComing, Next, Enabled, Outside;
  }

  lemma ReleaseLocks(s: State, i: nat)
    requires i < |s.procs| && CanRun(s, i) && LocksOk(s, i)
    requires !Acquiring(s.procs[i].pc) && !InSleep(s.procs[i].pc)
    ensures LocksOk(RunStep(s, i), i)
  {
    hide SleepOk, WakeupComing, Next, Enabled, Outside;
  }

  lemma RunLocks(s: State, i: nat)
    requires i < |s.procs| && CanRun(s, i) && LocksOk(s, i)
    ensures LocksOk(RunStep(s, i), i)
  {
    hide *;
    if Acquiring(s.procs[i].pc) {
      AcquireLocks(s, i);
    } else if InSleep(s.procs[i].pc) {
      SleepLocks(s, i);
    } else {
      ReleaseLocks(s, i);
    }
  }

  lemma OwnLocks(s: State, step: Step)
    requires Enabled(s, step) && LocksOk(s, step.i)
    ensures LocksOk(Next(s, step), step.i)
  {
    hide SleepOk, WakeupComing, RunStep, CanRun;
    if step.Run? {
      RunLocks(s, step.i);
    }
  }

  lemma OtherLocks(s: State, step: Step, k: nat)
    requires Enabled(s, step) && k < |s.procs| && k != step.i && LocksOk(s, k) && LocksOk(s, step.i)
    ensures LocksOk(Next(s, step), k)
  {
    hide SleepOk, WakeupComing;
    assert Next(s, step).procs[k].pc == s.procs[k].pc;
  }

  lemma OwnSleep(s: State, step: Step)
    requires Enabled(s, step) && -1 <= s.lk < |s.procs| && LocksOk(s, step.i) && SleepOk(s, step.i)
    ensures SleepOk(Next(s, step), step.i)
  {
  }

  lemma OtherSleep(s: State, step: Step, k: nat)
    requires Enabled(s, step) && k < |s.procs| && k != step.i && -1 <= s.lk < |s.procs|
    requires LocksOk(s, k) && LocksOk(s, step.i) && SleepOk(s, k) && SleepOk(s, step.i)
    ensures SleepOk(Next(s, step), k)
  {
    hide LocksOk, SleepOk, CanRun, RunStep;
    if step.Run? {
      if Acquiring(s.procs[step.i].pc) || InSleep(s.procs[step.i].pc) {
        OtherSleepBefore(s, step.i, k);
      } else {
        OtherSleepAfter(s, step.i, k);
      }
    } else {
      OtherSleepOutside(s, step, k);
    }
  }

  lemma OtherSleepBefore(s: State, i: nat, k: nat)
    requires i < |s.procs| && CanRun(s, i) && k < |s.procs| && k != i && -1 <= s.lk < |s.procs|
    requires LocksOk(s, k) && LocksOk(s, i) && SleepOk(s, k) && SleepOk(s, i)
    requires Acquiring(s.procs[i].pc) || InSleep(s.procs[i].pc)
    ensures SleepOk(RunStep(s, i), k)
  {
  }

  lemma OtherSleepAfter(s: State, i: nat, k: nat)
    requires i < |s.procs| && CanRun(s, i) && k < |s.procs| && k != i && -1 <= s.lk < |s.procs|
    requires LocksOk(s, k) && LocksOk(s, i) && SleepOk(s, k) && SleepOk(s, i)
    requires !Acquiring(s.procs[i].pc) && !InSleep(s.procs[i].pc)
    ensures SleepOk(RunStep(s, i), k)
  {
  }

  lemma OtherSleepOutside(s: State, step: Step, k: nat)
    requires Enabled(s, step) && !step.Run? && k < |s.procs| && k != step.i && -1 <= s.lk < |s.procs|
    requires LocksOk(s, k) && LocksOk(s, step.i) && SleepOk(s, k) && SleepOk(s, step.i)
    ensures SleepOk(Next(s, step), k)
  {
  }

  lemma StepInRange(s: State, step: Step)
    requires InRange(s) && Enabled(s, step)
    ensures InRange(Next(s, step)) && |Next(s, step).procs| == |s.procs|
  {
  }

  lemma StepKeepsInv(s: State, step: Step)
    requires Inv(s) && Enabled(s, step)
    ensures Inv(Next(s, step)) && |Next(s, step).procs| == |s.procs|
  {
    hide LocksOk, SleepOk, Next;
    var t := Next(s, step);
    StepInRange(s, step);
    forall k | 0 <= k < |s.procs|
      ensures LocksOk(t, k) && SleepOk(t, k)
    {
      assert LocksOk(s, k) && SleepOk(s, k) && LocksOk(s, step.i) && SleepOk(s, step.i);
      if k == step.i {
        OwnLocks(s, step);
        OwnSleep(s, step);
      } else {
        OtherLocks(s, step, k);
        OtherSleep(s, step, k);
      }
    }
  }

  lemma {:induction false} RunKeepsInv(s: State, steps: seq<Step>, t: State)
    requires Inv(s) && Reaches(s, steps, t)
    ensures Inv(t) && |t.procs| == |s.procs|
    decreases steps
  {
    hide Inv, Enabled, Next;
    if steps != [] {
      StepKeepsInv(s, steps[0]);
      RunKeepsInv(Next(s, steps[0]), steps[1..], t);
    }
  }

  lemma InitialInv(s: State)
    requires Initial(s)
    ensures Inv(s)
  {
  }

  // ---- What holds in every reachable state ---------------------------------------------------

  predicate SleepsOnLock(s: State, i: nat)
    requires i < |s.procs|
  {
    s.procs[i].sleeping && s.procs[i].onLock
  }

  // At most one process has the lock, and it is the one whose pid the lock records.
  lemma MutualExclusion(s: State, steps: seq<Step>, t: State, i: nat, j: nat)
    requires Initial(s) && Reaches(s, steps, t) && i < |t.procs| && j < |t.procs|
    requires Owner(t.procs[i].pc) && Owner(t.procs[j].pc)
    ensures i == j && t.locked && t.pid == i + 1
  {
    InitialInv(s);
    RunKeepsInv(s, steps, t);
    assert LocksOk(t, i) && LocksOk(t, j);
  }

  // The answer of holdingsleep: `locked` and the pid are those of the owner, and nobody's if there
  // is none.
  lemma HoldingIff(s: State, steps: seq<Step>, t: State, i: nat)
    requires Initial(s) && Reaches(s, steps, t) && i < |t.procs|
    ensures t.locked && t.pid == i + 1 <==> Owner(t.procs[i].pc)
    ensures t.locked <==> t.pid != 0
  {
    InitialInv(s);
    RunKeepsInv(s, steps, t);
    assert LocksOk(t, i);
  }

  predicate Releasing(pc: Pc) {
    pc.RelWantLk? || pc.RelClear? || pc.RelWantPt? || pc.Waking? || pc.RelDropPt? || pc.RelDropLk?
  }

  // All that one process's step does to another is to wake it, if it sleeps here.
  predicate OnlyWoken(p: Proc, q: Proc) {
    q == p || (q == p.(sleeping := false) && p.sleeping && p.onLock)
  }

  // A call of acquiresleep ends with the lock in hand and in no other way, one of releasesleep
  // without it.
  predicate CallProceeds(pc: Pc, pc': Pc, call: bool, owned: bool) {
    && (call ==> if pc.Away? then Acquiring(pc') else Releasing(pc'))
    && (Acquiring(pc) || InSleep(pc) ==> Acquiring(pc') || InSleep(pc') || (pc'.Holds? && owned))
    && (Releasing(pc) ==> Releasing(pc') || pc'.Away?)
  }

  lemma CallsReturn(s: State, step: Step, k: nat)
    requires Inv(s) && Enabled(s, step) && k < |s.procs|
    ensures |Next(s, step).procs| == |s.procs|
    ensures k != step.i ==> OnlyWoken(s.procs[k], Next(s, step).procs[k])
    ensures k == step.i ==>
      var t := Next(s, step);
      CallProceeds(s.procs[k].pc, t.procs[k].pc, step.Call?, t.locked && t.pid == k + 1)
  {
    hide SleepOk;
    assert LocksOk(s, k);
    if k == step.i {
      OwnProceeds(s, step);
    } else {
      OthersWoken(s, step, k);
    }
  }

  lemma OthersWoken(s: State, step: Step, k: nat)
    requires Enabled(s, step) && k < |s.procs| && k != step.i
    ensures |Next(s, step).procs| == |s.procs| && OnlyWoken(s.procs[k], Next(s, step).procs[k])
  {
  }

  lemma OwnProceeds(s: State, step: Step)
    requires Enabled(s, step) && LocksOk(s, step.i)
    ensures var i, t := step.i, Next(s, step);
      && |t.procs| == |s.procs|
      && CallProceeds(s.procs[i].pc, t.procs[i].pc, step.Call?, t.locked && t.pid == i + 1)
  {
  }

  // Inside sleep, past the test of `locked`, and not asleep yet.
  predicate BoundToSleep(pc: Pc) {
    pc.SleepWantPt? || pc.SleepDropLk? || pc.SleepMark?
  }

  // A process sleeps on the lock, or is bound to, only while it is taken, or while a releaser that
  // holds lk->lk has cleared it and its wakeup is still to come to that process; if it is not yet
  // asleep, that wakeup has not even started.
  lemma NoLostWakeup(s: State, steps: seq<Step>, t: State, i: nat)
    requires Initial(s) && Reaches(s, steps, t) && i < |t.procs|
    requires SleepsOnLock(t, i) || BoundToSleep(t.procs[i].pc)
    ensures t.locked || WakeupComing(t, i)
    ensures !t.locked ==> t.lk != -1
    ensures !t.locked && BoundToSleep(t.procs[i].pc) ==> t.procs[t.lk].pc.RelWantPt?
  {
    InitialInv(s);
    RunKeepsInv(s, steps, t);
    assert SleepOk(t, i) && LocksOk(t, i);
  }

  // A process can only be stuck on a lock that another process has and is not giving up: unless
  // every process is outside or asleep on a lock held by a process outside, one of them can run.
  lemma NoDeadlock(s: State, steps: seq<Step>, t: State)
    requires Initial(s) && Reaches(s, steps, t)
    ensures (exists i | 0 <= i < |t.procs| :: CanRun(t, i)) || AllWaitForHolder(t)
  {
    InitialInv(s);
    RunKeepsInv(s, steps, t);
    if t.lk >= 0 {
      LockOwnerRuns(t);
    } else if t.pt >= 0 {
      assert LocksOk(t, t.pt) && CanRun(t, t.pt);
    } else if forall i | 0 <= i < |t.procs| :: !CanRun(t, i) {
      OnlySleepers(t);
    }
  }

  predicate AllWaitForHolder(s: State) {
    forall i | 0 <= i < |s.procs| ::
      Outside(s.procs[i].pc)
      || (SleepsOnLock(s, i) && s.locked && 1 <= s.pid <= |s.procs| && s.procs[s.pid - 1].pc.Holds?)
  }

  lemma LockOwnerRuns(s: State)
    requires Inv(s) && s.lk >= 0
    ensures CanRun(s, s.lk) || (s.pt >= 0 && CanRun(s, s.pt))
  {
    assert LocksOk(s, s.lk);
    if s.pt >= 0 {
      assert LocksOk(s, s.pt);
    }
  }

  lemma OnlySleepers(s: State)
    requires Inv(s) && s.lk == -1 && s.pt == -1 && forall i | 0 <= i < |s.procs| :: !CanRun(s, i)
    ensures AllWaitForHolder(s)
  {
    forall i | 0 <= i < |s.procs|
      ensures Outside(s.procs[i].pc)
              || (SleepsOnLock(s, i) && s.locked && 1 <= s.pid <= |s.procs| && s.procs[s.pid - 1].pc.Holds?)
    {
      assert LocksOk(s, i) && SleepOk(s, i) && !CanRun(s, i);
      if s.locked {
        assert LocksOk(s, s.pid - 1) && !CanRun(s, s.pid - 1);
      }
    }
  }

  // ---- Left alone, the processes settle ---------------------------------------------------------

  // What waking a sleeper costs: its way from Asleep back to Asleep, and one step of the releaser.
  const ROUND := 10

  // The most statements process p can still execute before it is outside or asleep, counting with
  // a releaser those of the sleepers it has yet to wake.
  function Left(p: Proc, n: nat): nat {
    match p.pc
    case Away | Holds => 0
    case DropLk => 1
    case Take => 2
    case Asleep => if p.sleeping then 0 else 9
    case SleepSwitch => if p.sleeping then 1 else 10
    case SleepMark => 2
    case SleepDropLk => 3
    case SleepWantPt => 4
    case Test => 5
    case WantLk => 6
    case WokenDropPt => 7
    case Woken => 8
    case RelDropLk => 1
    case RelDropPt => 2
    case Waking(j) => 3 + if j < n then ROUND * (n - j) else 0
    case RelWantPt => 4 + ROUND * n
    case RelClear => 5 + ROUND * n
    case RelWantLk => 6 + ROUND * n
  }

  function LeftOf(ps: seq<Proc>, n: nat): nat {
    if ps == [] then 0 else LeftOf(ps[..|ps| - 1], n) + Left(ps[|ps| - 1], n)
  }

  lemma {:induction false} LeftUpdated(ps: seq<Proc>, n: nat, i: nat, p: Proc)
    requires i < |ps|
    ensures LeftOf(ps[i := p], n) == LeftOf(ps, n) - Left(ps[i], n) + Left(p, n)
  {
    hide Left;
    var init, last := ps[..|ps| - 1], |ps| - 1;
    if i < last {
      LeftUpdated(init, n, i, p);
      assert ps[i := p][..last] == init[i := p];
    } else {
      assert ps[i := p][..last] == init;
    }
  }

  lemma {:induction false} LeftBounded(ps: seq<Proc>, n: nat)
    ensures LeftOf(ps, n) <= |ps| * (ROUND * n + ROUND)
  {
    if ps != [] {
      LeftBounded(ps[..|ps| - 1], n);
      assert |ps| * (ROUND * n + ROUND) == (|ps| - 1) * (ROUND * n + ROUND) + (ROUND * n + ROUND);
    }
  }

  lemma WakeTakesOne(s: State, i: nat, j: nat)
    requires i < |s.procs| && s.procs[i].pc == Waking(j) && j < |s.procs|
    ensures LeftOf(RunStep(s, i).procs, |s.procs|) < LeftOf(s.procs, |s.procs|)
  {
    hide LeftOf;
    var n, w, t := |s.procs|, WakeOne(s, j), RunStep(s, i);
    assert w.procs == s.procs[j := w.procs[j]] && t.procs == w.procs[i := t.procs[i]];
    LeftUpdated(s.procs, n, j, w.procs[j]);
    LeftUpdated(w.procs, n, i, t.procs[i]);
  }

  predicate Wakes(s: State, i: nat)
    requires i < |s.procs|
  {
    s.procs[i].pc.Waking? && s.procs[i].pc.next < |s.procs|
  }

  lemma OnlyItself(s: State, i: nat)
    requires i < |s.procs| && CanRun(s, i) && !Wakes(s, i)
    ensures var t := RunStep(s, i); |t.procs| == |s.procs| && t.procs == s.procs[i := t.procs[i]]
  {
  }

  lemma OneLess(s: State, i: nat)
    requires i < |s.procs| && CanRun(s, i) && !Wakes(s, i)
    ensures var t := RunStep(s, i); |t.procs| == |s.procs| && Left(t.procs[i], |s.procs|) < Left(s.procs[i], |s.procs|)
  {
  }

  lemma RunTakesOne(s: State, i: nat)
    requires i < |s.procs| && CanRun(s, i)
    ensures |RunStep(s, i).procs| == |s.procs|
    ensures LeftOf(RunStep(s, i).procs, |s.procs|) < LeftOf(s.procs, |s.procs|)
  {
    hide LeftOf, Left, CanRun;
    if Wakes(s, i) {
      WakeTakesOne(s, i, s.procs[i].pc.next);
    } else {
      hide RunStep;
      OnlyItself(s, i);
      OneLess(s, i);
      LeftUpdated(s.procs, |s.procs|, i, RunStep(s, i).procs[i]);
    }
  }

  predicate OnlyRuns(steps: seq<Step>) {
    forall k | 0 <= k < |steps| :: steps[k].Run?
  }

  lemma {:induction false} RunsAreShort(s: State, steps: seq<Step>, t: State)
    requires Reaches(s, steps, t) && OnlyRuns(steps)
    ensures |t.procs| == |s.procs| && |steps| + LeftOf(t.procs, |s.procs|) <= LeftOf(s.procs, |s.procs|)
    decreases steps
  {
    hide LeftOf, RunStep, CanRun;
    if steps != [] {
      RunTakesOne(s, steps[0].i);
      RunsAreShort(Next(s, steps[0]), steps[1..], t);
    }
  }

  // With no new calls and nobody killed, every run from a reachable state ends, after at most
  // 10 n (n + 1) statements of the n processes; and when no one can go on, everybody is outside or
  // asleep on the lock while a process outside has it.
  lemma Settles(s: State, steps: seq<Step>, t: State, more: seq<Step>, u: State)
    requires Initial(s) && Reaches(s, steps, t) && Reaches(t, more, u) && OnlyRuns(more)
    ensures |more| <= ROUND * |s.procs| * (|s.procs| + 1)
    ensures (forall i | 0 <= i < |u.procs| :: !CanRun(u, i)) ==> AllWaitForHolder(u)
  {
    hide Reaches, Inv, CanRun, LeftOf, AllWaitForHolder;
    InitialInv(s);
    RunKeepsInv(s, steps, t);
    RunsAreShort(t, more, u);
    LeftBounded(t.procs, |t.procs|);
    ReachesJoin(s, steps, t, more, u);
    NoDeadlock(s, steps + more, u);
    var n := |s.procs|;
    assert n * (ROUND * n + ROUND) == ROUND * n * (n + 1);
  }

  lemma {:induction false} ReachesJoin(s: State, steps: seq<Step>, t: State, more: seq<Step>, u: State)
    requires Reaches(s, steps, t) && Reaches(t, more, u)
    ensures Reaches(s, steps + more, u)
    decreases steps
  {
    hide Enabled, Next;
    if steps == [] {
      assert steps + more == more;
    } else {
      ReachesJoin(Next(s, steps[0]), steps[1..], t, more, u);
      assert (steps + more)[1..] == steps[1..] + more;
    }
  }
}
