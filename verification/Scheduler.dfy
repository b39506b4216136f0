/**
 The ageing priority scheduler of Signal-Scheduler-xv6: one locked round of scheduler() over
 the process table, updated in place, and a bound on how long a runnable process can wait
 whatever the rest of the system does between rounds.
 */
module Scheduler {
  import opened Counting

  datatype ProcState = UNUSED | EMBRYO | SLEEPING | RUNNABLE | RUNNING | ZOMBIE | CREATED

  datatype Proc = Proc(
    state: ProcState,
    pid: int,
    suspended: bool,
    execTime: int,
    creationTime: int,
    endTime: int,
    totalTicks: int,
    waitingTime: int,
    contextSwitches: int,
    firstScheduled: bool,
    responseTime: int,
    initialPriority: int,
    dynamicPriority: int)

  // The compile-time constants ALPHA and BETA.
  datatype Weights = Weights(alpha: int, beta: int)

  // ---- One round as a function -------------------------------------------------------

  predicate Waiting(p: Proc) {
    p.state == RUNNABLE && !p.suspended
  }

  predicate Expired(p: Proc) {
    p.execTime > 0 && p.totalTicks >= p.execTime
  }

  predicate Eligible(p: Proc) {
    Waiting(p) && !Expired(p)
  }

  // Once it has waited one more round.
  function Priority(w: Weights, p: Proc): int {
    p.initialPriority - w.alpha * p.totalTicks + w.beta * (p.waitingTime + 1)
  }

  function Age(w: Weights, p: Proc): Proc {
    if Waiting(p) then
      p.(waitingTime := p.waitingTime + 1,
         dynamicPriority := Priority(w, p))
    else p
  }

  function Sweep(p: Proc, ticks: int): Proc {
    if Waiting(p) && Expired(p) then p.(state := ZOMBIE, endTime := ticks) else p
  }

  predicate Better(p: Proc, q: Proc) {
    p.dynamicPriority > q.dynamicPriority || (p.dynamicPriority == q.dynamicPriority && p.pid < q.pid)
  }

  // The index the selection loop holds after looking at the first k entries; -1 for none.
  function Best(tab: seq<Proc>, k: nat): (b: int)
    requires k <= |tab|
    ensures -1 <= b < k
  {
    if k == 0 then -1
    else
      var b := Best(tab, k - 1);
      if Eligible(tab[k - 1]) && (b < 0 || Better(tab[k - 1], tab[b])) then k - 1 else b
  }

  // It is eligible and beats every other eligible entry, or is the first of equals; it exists
  // whenever anything is eligible.
  lemma {:induction false} BestIsBest(tab: seq<Proc>, k: nat)
    requires k <= |tab|
    ensures var b := Best(tab, k);
      && (b >= 0 ==> Eligible(tab[b]))
      && forall j | 0 <= j < k && Eligible(tab[j]) :: b >= 0 && (Better(tab[b], tab[j])
           || (tab[b].dynamicPriority == tab[j].dynamicPriority && tab[b].pid == tab[j].pid && b <= j))
  {
    if k > 0 {
      BestIsBest(tab, k - 1);
    }
  }

  function AgeAll(w: Weights, tab: seq<Proc>): (r: seq<Proc>)
    ensures |r| == |tab| && forall i | 0 <= i < |r| :: r[i] == Age(w, tab[i])
  {
    seq(|tab|, i requires 0 <= i < |tab| => Age(w, tab[i]))
  }

  function Chosen(w: Weights, tab: seq<Proc>): (b: int)
    ensures -1 <= b < |tab|
  {
    Best(AgeAll(w, tab), |tab|)
  }

  // Told from the table before the round: of those that can run and have time left, the one of
  // highest priority once it has waited this round too, then of lowest pid, then of lowest slot.
  lemma ChosenIsBest(w: Weights, tab: seq<Proc>)
    ensures var b := Chosen(w, tab);
      && (b >= 0 ==> tab[b].state == RUNNABLE && !tab[b].suspended
                     && (tab[b].execTime <= 0 || tab[b].totalTicks < tab[b].execTime))
      && forall j | 0 <= j < |tab| && tab[j].state == RUNNABLE && !tab[j].suspended
                    && (tab[j].execTime <= 0 || tab[j].totalTicks < tab[j].execTime) ::
           && b >= 0
           && (|| Priority(w, tab[b]) > Priority(w, tab[j])
               || (Priority(w, tab[b]) == Priority(w, tab[j])
                   && (tab[b].pid < tab[j].pid || (tab[b].pid == tab[j].pid && b <= j))))
  {
    var aged := AgeAll(w, tab);
    BestIsBest(aged, |tab|);
    assert forall j | 0 <= j < |tab| :: Eligible(tab[j]) ==> Eligible(aged[j]);
  }

  // The entry of slot i when the lock is released to the chosen process.
  function RoundAt(w: Weights, tab: seq<Proc>, ticks: int, prev: int, i: nat): Proc
    requires i < |tab|
  {
    var p := Sweep(Age(w, tab[i]), ticks);
    var b := Chosen(w, tab);
    if i == b then
      p.(firstScheduled := true,
         responseTime := if p.firstScheduled then p.responseTime else ticks - p.creationTime,
         waitingTime := 0,
         state := RUNNING)
    else if i == prev && b >= 0 && b != 1 then p.(contextSwitches := p.contextSwitches + 1)
    else p
  }

  function Round(w: Weights, tab: seq<Proc>, ticks: int, prev: int): (r: seq<Proc>)
    ensures |r| == |tab| && forall i | 0 <= i < |r| :: r[i] == RoundAt(w, tab, ticks, prev, i)
  {
    seq(|tab|, i requires 0 <= i < |tab| => RoundAt(w, tab, ticks, prev, i))
  }

  // ---- The same round in place -----------------------------------------------------------

  // First loop: whoever could run and does not, ages.
  method AgeTable(w: Weights, table: array<Proc>)
    modifies table
    ensures table[..] == AgeAll(w, old(table[..]))
    ensures forall i | 0 <= i < table.Length ::
              var p, r := old(table[i]), table[i];
              if p.state == RUNNABLE && !p.suspended then
                && r.waitingTime == p.waitingTime + 1
                && r.dynamicPriority == r.initialPriority - w.alpha * r.totalTicks + w.beta * r.waitingTime
                && r == p.(waitingTime := r.waitingTime, dynamicPriority := r.dynamicPriority)
              else r == p
  {
    ghost var tab := table[..];
    var i := 0;
    while i < table.Length
      invariant i <= table.Length
      invariant forall j | 0 <= j < i :: table[j] == Age(w, tab[j])
      invariant forall j | i <= j < table.Length :: table[j] == tab[j]
    {
      if table[i].state == RUNNABLE && !table[i].suspended {
        table[i] := table[i].(waitingTime := table[i].waitingTime + 1);
        table[i] := table[i].(dynamicPriority := table[i].initialPriority - w.alpha * table[i].totalTicks
                                                 + w.beta * table[i].waitingTime);
      }
      i := i + 1;
    }
  }

  // Second loop: of those that can run and have time left, the one of highest priority, and of
  // these the one of lowest pid. Those it finds out of time are retired.
  method Select(table: array<Proc>, ticks: int) returns (b: int)
    modifies table
    ensures b == Best(old(table[..]), table.Length)
    ensures forall j | 0 <= j < table.Length :: table[j] == Sweep(old(table[j]), ticks)
    ensures b >= 0 ==> var p := old(table[b]);
      p.state == RUNNABLE && !p.suspended && (p.execTime <= 0 || p.totalTicks < p.execTime)
    ensures forall j | 0 <= j < table.Length ::
      var q := old(table[j]);
      q.state == RUNNABLE && !q.suspended && (q.execTime <= 0 || q.totalTicks < q.execTime) ==>
        && b >= 0
        && var p := old(table[b]);
          || p.dynamicPriority > q.dynamicPriority
          || (p.dynamicPriority == q.dynamicPriority && (p.pid < q.pid || (p.pid == q.pid && b <= j)))
    ensures forall j | 0 <= j < table.Length ::
      var q := old(table[j]);
      table[j] == if q.state == RUNNABLE && !q.suspended && q.execTime > 0 && q.totalTicks >= q.execTime
                  then q.(state := ZOMBIE, endTime := ticks) else q
  {
    ghost var aged := table[..];
    b := -1;
    var i := 0;
    while i < table.Length
      invariant i <= table.Length && -1 <= b < i && b == Best(aged, i)
      invariant forall j | 0 <= j < i :: table[j] == Sweep(aged[j], ticks)
      invariant forall j | i <= j < table.Length :: table[j] == aged[j]
      invariant b >= 0 ==> table[b] == aged[b]
    {
      if !table[i].suspended && table[i].state == RUNNABLE {
        if table[i].execTime > 0 && table[i].totalTicks >= table[i].execTime {
          table[i] := table[i].(state := ZOMBIE, endTime := ticks);
        } else if b < 0 || table[i].dynamicPriority > table[b].dynamicPriority
          || (table[i].dynamicPriority == table[b].dynamicPriority && table[i].pid < table[b].pid) {
          b := i;
        }
      }
      i := i + 1;
    }
    BestIsBest(aged, table.Length);
  }

  // One pass of scheduler()'s outer loop up to swtch. prev is the slot this CPU ran last, or -1;
  // b is the slot to run, or -1 if nothing can run, and last the new value of prev.
  method RunRound(w: Weights, table: array<Proc>, ticks: int, prev: int) returns (b: int, last: int)
    requires -1 <= prev < table.Length
    modifies table
    ensures b == Chosen(w, old(table[..])) && last == (if b >= 0 then b else prev)
    ensures table[..] == Round(w, old(table[..]), ticks, prev)
    ensures b >= 0 ==>
      var p, r := old(table[b]), table[b];
      && r.state == RUNNING && r.waitingTime == 0 && r.firstScheduled && r.endTime == p.endTime
      && r.responseTime == if p.firstScheduled then p.responseTime else ticks - p.creationTime
    ensures forall i | 0 <= i < table.Length ::
      table[i].contextSwitches == old(table[i].contextSwitches) + if b >= 0 && i == prev != b && b != 1 then 1 else 0
  {
    hide Age, Sweep, Best;
    last := prev;
    AgeTable(w, table);
    b := Select(table, ticks);
    if b >= 0 {
      if !table[b].firstScheduled {
        table[b] := table[b].(firstScheduled := true, responseTime := ticks - table[b].creationTime);
      }
      table[b] := table[b].(waitingTime := 0);
      table[b] := table[b].(state := RUNNING);
      if prev != b && prev >= 0 && b != 1 {
        table[prev] := table[prev].(contextSwitches := table[prev].contextSwitches + 1);
      }
      last := b;
    }
  }

  // ---- No starvation ------------------------------------------------------------------------

  // What the rest of the system may do to the table while no round is in progress.
  datatype Change =
    | Become(slot: nat, state: ProcState) // sleep, wake up, yield, exit, be reaped, be signalled
    | Suspend(slot: nat, on: bool)
    | Tick(slot: nat)                     // a timer interrupt while the slot runs
    | Reuse(slot: nat, pid: int, now: int)
    | SetLimit(slot: nat, execTime: int, now: int)

  predicate Possible(tab: seq<Proc>, c: Change) {
    && c.slot < |tab|
    && match c {
         case Become(i, _) => tab[i].state != UNUSED
         case Suspend(_, _) => true
         case Tick(i) => tab[i].state == RUNNING && !tab[i].suspended
         case Reuse(i, _, _) => tab[i].state == UNUSED
         case SetLimit(i, _, _) => tab[i].state == EMBRYO
       }
  }

  // allocproc gives a slot its starting values; custom_fork gives them again with a time limit.
  function Apply(base: int, tab: seq<Proc>, c: Change): (r: seq<Proc>)
    requires c.slot < |tab|
    ensures |r| == |tab|
  {
    var p := tab[c.slot];
    tab[c.slot := match c
      case Become(_, s) => p.(state := s)
      case Suspend(_, on) => p.(suspended := on)
      case Tick(_) => p.(totalTicks := p.totalTicks + 1)
      case Reuse(_, pid, now) => Proc(EMBRYO, pid, false, -1, now, 0, 0, 0, 0, false, 0, base, base)
      case SetLimit(_, execTime, now) =>
        p.(execTime := execTime, creationTime := now, totalTicks := 0, waitingTime := 0,
           contextSwitches := 0, firstScheduled := false, initialPriority := base, dynamicPriority := base)]
  }

  predicate AllPossible(base: int, tab: seq<Proc>, cs: seq<Change>)
    decreases cs
  {
    cs == [] || (Possible(tab, cs[0]) && AllPossible(base, Apply(base, tab, cs[0]), cs[1..]))
  }

  function ApplyAll(base: int, tab: seq<Proc>, cs: seq<Change>): (r: seq<Proc>)
    requires AllPossible(base, tab, cs)
    decreases cs
  {
    if cs == [] then tab else ApplyAll(base, Apply(base, tab, cs[0]), cs[1..])
  }

  // None of the changes alters slot `me`.
  predicate LeaveAlone(base: int, tab: seq<Proc>, cs: seq<Change>, me: nat)
    requires AllPossible(base, tab, cs)
    decreases cs
  {
    me < |tab| && (cs == [] || (var next := Apply(base, tab, cs[0]);
      next[me] == tab[me] && LeaveAlone(base, next, cs[1..], me)))
  }

  // Process `me` is waiting to run.
  predicate Ready(tab: seq<Proc>, me: nat, total: nat) {
    me < |tab| && Eligible(tab[me]) && tab[me].totalTicks == total
  }

  // Counters are not negative, and every slot in use started with the same priority.
  predicate Sane(tab: seq<Proc>, base: int) {
    forall i | 0 <= i < |tab| ::
      tab[i].waitingTime >= 0 && tab[i].totalTicks >= 0 && (tab[i].state != UNUSED ==> tab[i].initialPriority == base)
  }

  // One locked round, the table it starts from, and what happens after it.
  datatype Turn = Turn(tab: seq<Proc>, ticks: int, prev: int, changes: seq<Change>)

  function After(w: Weights, t: Turn): (r: seq<Proc>)
    ensures |r| == |t.tab|
  {
    Round(w, t.tab, t.ticks, t.prev)
  }

  // A run of rounds: the environment is free except that, until `me` is picked, it leaves `me`
  // as it is: runnable, not suspended, not out of time.
  predicate Run(w: Weights, run: seq<Turn>, me: nat, base: int, total: nat) {
    && (|run| > 0 ==> Sane(run[0].tab, base) && Ready(run[0].tab, me, total))
    && forall k | 0 <= k < |run| - 1 :: Follows(w, run[k], run[k + 1].tab, me, base)
  }

  predicate Follows(w: Weights, t: Turn, next: seq<Proc>, me: nat, base: int) {
    && AllPossible(base, After(w, t), t.changes)
    && next == ApplyAll(base, After(w, t), t.changes)
    && (Chosen(w, t.tab) != me ==> LeaveAlone(base, After(w, t), t.changes, me))
  }

  // What matters of a change: no waiting time grows.
  predicate NoGrowth(tab: seq<Proc>, next: seq<Proc>) {
    |next| == |tab| && forall i | 0 <= i < |tab| :: next[i].waitingTime <= tab[i].waitingTime
  }

  lemma {:induction false} ChangesKeep(base: int, tab: seq<Proc>, cs: seq<Change>)
    requires AllPossible(base, tab, cs) && Sane(tab, base)
    ensures var next := ApplyAll(base, tab, cs); Sane(next, base) && NoGrowth(tab, next)
    decreases cs
  {
    if cs != [] {
      ChangesKeep(base, Apply(base, tab, cs[0]), cs[1..]);
    }
  }

  lemma {:induction false} LeftAlone(base: int, tab: seq<Proc>, cs: seq<Change>, me: nat)
    requires AllPossible(base, tab, cs) && LeaveAlone(base, tab, cs, me)
    ensures var next := ApplyAll(base, tab, cs); |next| == |tab| && next[me] == tab[me]
    decreases cs
  {
    if cs != [] {
      LeftAlone(base, Apply(base, tab, cs[0]), cs[1..], me);
    }
  }

  lemma RoundKeeps(w: Weights, tab: seq<Proc>, ticks: int, prev: int, base: int)
    requires Sane(tab, base)
    ensures Sane(Round(w, tab, ticks, prev), base)
  {
    BestIsBest(AgeAll(w, tab), |tab|);
  }

  // Slot counters stay sane, and `me` stays ready until it is picked.
  lemma {:induction false} RunKeeps(w: Weights, run: seq<Turn>, me: nat, base: int, total: nat, k: nat)
    requires Run(w, run, me, base, total) && k < |run|
    ensures |run[k].tab| == |run[0].tab| && Sane(run[k].tab, base)
    ensures (forall j | 0 <= j < k :: Pick(w, run, j) != me) ==> Ready(run[k].tab, me, total)
  {
    if k > 0 {
      RunKeeps(w, run, me, base, total, k - 1);
      var t := run[k - 1];
      assert Follows(w, t, run[k - 1 + 1].tab, me, base);
      RoundKeeps(w, t.tab, t.ticks, t.prev, base);
      ChangesKeep(base, After(w, t), t.changes);
      if forall j | 0 <= j < k :: Pick(w, run, j) != me {
        assert Pick(w, run, k - 1) != me;
        LeftAlone(base, After(w, t), t.changes, me);
      }
    }
  }

  function Pick(w: Weights, run: seq<Turn>, k: nat): int
    requires k < |run|
  {
    Chosen(w, run[k].tab)
  }

  function CeilDiv(a: nat, b: nat): (d: nat)
    requires b > 0
    ensures b * d >= a && b * d < a + b
  {
    (a + b - 1) / b
  }

  // As long as it is not picked, a ready process gains one unit of waiting time a round.
  lemma {:induction false} WaitGrows(w: Weights, run: seq<Turn>, me: nat, base: int, total: nat, k: nat)
    requires Run(w, run, me, base, total) && k < |run|
    requires forall j | 0 <= j < k :: Pick(w, run, j) != me
    ensures me < |run[k].tab| && run[k].tab[me].waitingTime >= k
  {
    RunKeeps(w, run, me, base, total, k);
    if k > 0 {
      WaitGrows(w, run, me, base, total, k - 1);
      RunKeeps(w, run, me, base, total, k - 1);
      var t := run[k - 1];
      assert Pick(w, run, k - 1) != me && Follows(w, t, run[k - 1 + 1].tab, me, base);
      LeftAlone(base, After(w, t), t.changes, me);
    }
  }

  // A slot picked in round j has waited at most k - j - 1 rounds before round k.
  lemma {:induction false} WaitAfterPick(w: Weights, run: seq<Turn>, me: nat, base: int, total: nat,
                                         j: nat, k: nat, q: nat)
    requires Run(w, run, me, base, total) && j < k < |run| && Pick(w, run, j) == q
    requires q < |run[k].tab|
    ensures run[k].tab[q].waitingTime <= k - j - 1
  {
    hide Chosen, RoundAt, Sane, ApplyAll, AllPossible, LeaveAlone;
    var t := run[k - 1];
    RunKeeps(w, run, me, base, total, k - 1);
    RunKeeps(w, run, me, base, total, k);
    assert Follows(w, t, run[k - 1 + 1].tab, me, base);
    RoundKeeps(w, t.tab, t.ticks, t.prev, base);
    ChangesKeep(base, After(w, t), t.changes);
    if j < k - 1 {
      WaitAfterPick(w, run, me, base, total, j, k - 1, q);
    }
    RoundWaits(w, t, q);
  }

  // A round resets the waiting time of the slot it picks and adds at most one to any other.
  lemma RoundWaits(w: Weights, t: Turn, q: nat)
    requires q < |t.tab|
    ensures After(w, t)[q].waitingTime == (
              if q == Chosen(w, t.tab) then 0
              else if Waiting(t.tab[q]) then t.tab[q].waitingTime + 1
              else t.tab[q].waitingTime)
  {
  }

  // Whoever is picked over a ready process has waited nearly as long.
  lemma WinnerWaited(w: Weights, tab: seq<Proc>, me: nat, base: int, total: nat, d: nat)
    requires w.alpha >= 0 && w.beta > 0 && w.beta * d >= w.alpha * total
    requires Ready(tab, me, total) && Sane(tab, base)
    ensures var q := Chosen(w, tab);
      0 <= q < |tab| && tab[q].waitingTime >= tab[me].waitingTime - d
  {
    var aged := AgeAll(w, tab);
    BestIsBest(aged, |tab|);
    assert Eligible(aged[me]);
    var q := Chosen(w, tab);
    assert Eligible(aged[q]) && !Better(aged[me], aged[q]);
    var x, y := tab[q].waitingTime + 1, tab[me].waitingTime + 1;
    assert base - w.alpha * tab[q].totalTicks + w.beta * x >= base - w.alpha * total + w.beta * y;
    ProductsCompare(w, tab[q].totalTicks, total, x, y, d);
  }

  lemma ProductsCompare(w: Weights, t: int, total: int, x: int, y: int, d: int)
    requires w.alpha >= 0 && w.beta > 0 && t >= 0
    requires -(w.alpha * t) + w.beta * x >= -(w.alpha * total) + w.beta * y
    requires w.beta * d >= w.alpha * total
    ensures x >= y - d
  {
    assert w.alpha * t >= 0;
    assert w.beta * (x - y + d) == w.beta * x - w.beta * y + w.beta * d >= 0;
    FactorNonNegative(w.beta, x - y + d);
  }

  lemma FactorNonNegative(b: int, z: int)
    requires b > 0 && b * z >= 0
    ensures z >= 0
  {
  }

  // From round d on no slot is picked twice before `me` is.
  lemma NoSecondPick(w: Weights, run: seq<Turn>, me: nat, base: int, total: nat, d: nat, j: nat, k: nat)
    requires w.alpha >= 0 && w.beta > 0 && w.beta * d >= w.alpha * total
    requires Run(w, run, me, base, total) && d <= j < k < |run|
    requires forall i | 0 <= i < k :: Pick(w, run, i) != me
    ensures Pick(w, run, j) != Pick(w, run, k)
  {
    hide Run, Chosen;
    if Pick(w, run, j) == Pick(w, run, k) {
      RunKeeps(w, run, me, base, total, k);
      WinnerWaited(w, run[k].tab, me, base, total, d);
      WaitGrows(w, run, me, base, total, k);
      WaitAfterPick(w, run, me, base, total, j, k, Pick(w, run, k));
      assert false;
    }
  }

  // A process that stays runnable, unsuspended and unexpired is picked within
  // ceil(ALPHA * total / BETA) + NPROC rounds.
  lemma NoStarvation(w: Weights, run: seq<Turn>, me: nat, base: int, total: nat)
    requires w.alpha >= 0 && w.beta > 0
    requires Run(w, run, me, base, total) && |run| > 0
    requires |run| >= CeilDiv(w.alpha * total, w.beta) + |run[0].tab|
    ensures exists k | 0 <= k < |run| :: Pick(w, run, k) == me
  {
    hide Run, Chosen, CeilDiv;
    if forall k | 0 <= k < |run| :: Pick(w, run, k) != me {
      var d, n := CeilDiv(w.alpha * total, w.beta), |run[0].tab|;
      var picks := seq(n, i requires 0 <= i < n => Pick(w, run, d + i));
      forall i | 0 <= i < n
        ensures 0 <= picks[i] < n && picks[i] != me
      {
        RunKeeps(w, run, me, base, total, d + i);
        WinnerWaited(w, run[d + i].tab, me, base, total, d);
      }
      forall i, j | 0 <= i < j < n
        ensures picks[i] != picks[j]
      {
        NoSecondPick(w, run, me, base, total, d, d + i, d + j);
      }
      RunKeeps(w, run, me, base, total, 0);
      Pigeonhole(picks, n, me);
      assert false;
    }
  }
}
