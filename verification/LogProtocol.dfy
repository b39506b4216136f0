/**
 Runs of the logging protocol: file-system operations interleave begin_op, log_write and end_op, the
 last one out commits block by block, and the machine may crash between any two block writes.
 */
module LogProtocol {
  import opened Blocks
  import opened LogDisk
  import Log

  // The guards and effects of the steps are those of log.c as stated by the contracts of
  // Log.LogManager; the disk contents after each block write are those of LogDisk. `done` is the
  // history of all log_writes that have not been lost in a crash, and `durable` is how many of
  // them had committed; neither influences a step. While a commit runs, `dirty` is what was pinned
  // when it began; CommitDisk says what becomes of it. A pinned block takes up one of the NBUF
  // buffers, so that no more blocks than that can be logged, and NBUF of them cannot be committed:
  // write_log has to read a block of the log first.

  // A process inside a file-system operation that has logged the blocks in `blocks`. Inside: it is
  // in log_write of block b, past the tests that log_write makes before taking log.lock.
  datatype Place = Outside | Inside(b: nat)

  datatype Slot = Idle | Busy(op: nat, blocks: set<nat>, at: Place)

  datatype Write = Write(op: nat, blk: nat, data: Block)

  datatype Phase =
    | Running
    | Committing(from: Disk, i: nat)
    | Down
    | Recovering(from: Disk, i: nat)

  datatype State = State(
    disk: Disk,
    dirty: map<nat, Block>,
    lh: seq<nat>,
    outstanding: nat,
    slots: seq<Slot>,
    phase: Phase,
    nextOp: nat,
    done: seq<Write>,
    durable: nat)

  datatype Step =
    | Begin(p: nat)
    | Check(p: nat, b: nat)
    | Record(p: nat, data: Block)
    | End(p: nat)
    | CommitWrite
    | CommitDone
    | Crash
    | Reboot
    | RecoverWrite
    | RecoverDone

  ghost predicate Enabled(g: Geometry, s: State, step: Step) {
    match step
    case Begin(p) =>
      && p < |s.slots| && s.slots[p].Idle?
      && (s.phase.Running? || s.phase.Committing?)
      && !Log.MustWait(g, |s.lh|, s.outstanding, s.phase.Committing?)
    case Check(p, b) =>
      MayPut(g, s, p, b) && !Log.WritePanics(g, |s.lh|, s.outstanding)
    case Record(p, data) =>
      && p < |s.slots| && s.slots[p].Busy? && s.slots[p].at.Inside?
      && var b := s.slots[p].at.b;
         b < |s.disk| && !InLog(g, b) && (b in s.lh || |s.lh| < g.nbuf)
    case End(p) =>
      p < |s.slots| && s.slots[p].Busy? && s.slots[p].at.Outside? && s.outstanding > 0
    case CommitWrite =>
      && s.phase.Committing? && s.phase.i < CommitLength(s.lh) && |s.lh| < g.nbuf
      && GeometryOk(g, |s.phase.from|) && Copyable(g, |s.phase.from|, s.lh)
    case CommitDone =>
      s.phase.Committing? && s.phase.i == CommitLength(s.lh)
    case Crash => true
    case Reboot => s.phase.Down?
    case RecoverWrite =>
      s.phase.Recovering? && HeaderOk(g, s.phase.from) && s.phase.i < RecoverLength(g, s.phase.from)
    case RecoverDone =>
      s.phase.Recovering? && HeaderOk(g, s.phase.from) && s.phase.i == RecoverLength(g, s.phase.from)
  }

  // An operation calls log_write of block b, which has a buffer, and stays within its budget: it
  // logs MAXOPBLOCKS different blocks at most, each as often as it likes.
  ghost predicate MayPut(g: Geometry, s: State, p: nat, b: nat) {
    && p < |s.slots| && s.slots[p].Busy? && s.slots[p].at.Outside?
    && b < |s.disk| && !InLog(g, b) && (b in s.lh || |s.lh| < g.nbuf)
    && (b in s.slots[p].blocks || |s.slots[p].blocks| < g.maxop)
  }

  ghost function Apply(g: Geometry, s: State, step: Step): State
    requires Enabled(g, s, step)
  {
    match step
    case Begin(p) =>
      s.(outstanding := s.outstanding + 1, slots := s.slots[p := Busy(s.nextOp, {}, Outside)], nextOp := s.nextOp + 1)
    case Check(p, b) =>
      s.(slots := s.slots[p := s.slots[p].(at := Inside(b))])
    case Record(p, data) =>
      var b := s.slots[p].at.b;
      s.(dirty := s.dirty[b := data],
         lh := Log.Absorb(s.lh, b),
         slots := s.slots[p := Busy(s.slots[p].op, s.slots[p].blocks + {b}, Outside)],
         done := s.done + [Write(s.slots[p].op, b, data)])
    case End(p) =>
      s.(outstanding := s.outstanding - 1,
         slots := s.slots[p := Idle],
         phase := if s.outstanding == 1 then Committing(s.disk, 0) else s.phase)
    case CommitWrite =>
      var i := s.phase.i + 1;
      s.(disk := CommitDisk(g, s.phase.from, s.dirty, s.lh, i),
         phase := Committing(s.phase.from, i),
         durable := if i == CommitPoint(s.lh) then |s.done| else s.durable)
    case CommitDone =>
      s.(dirty := map[], lh := [], phase := Running)
    case Crash =>
      s.(dirty := map[], lh := [], outstanding := 0, slots := seq(|s.slots|, _ => Idle), phase := Down,
         done := if s.durable <= |s.done| then s.done[..s.durable] else s.done)
    case Reboot =>
      s.(phase := Recovering(s.disk, 0))
    case RecoverWrite =>
      s.(disk := RecoverDisk(g, s.phase.from, s.phase.i + 1), phase := Recovering(s.phase.from, s.phase.i + 1))
    case RecoverDone =>
      s.(phase := Running)
  }

  ghost predicate Reaches(g: Geometry, s: State, steps: seq<Step>, t: State)
    decreases |steps|
  {
    if steps == [] then t == s
    else Enabled(g, s, steps[0]) && Reaches(g, Apply(g, s, steps[0]), steps[1..], t)
  }

  // A machine about to boot from an image whose log may hold a committed transaction.
  ghost predicate Initial(g: Geometry, image: Disk, s: State) {
    && HeaderOk(g, image)
    && s == State(image, map[], [], 0, seq(|s.slots|, _ => Idle), Down, 0, [], 0)
  }

  // ---- What the disk should contain --------------------------------------------------

  function Replay(base: Disk, ws: seq<Write>): (d: Disk)
    ensures |d| == |base|
  {
    if ws == [] then base
    else
      var d := Replay(base, ws[..|ws| - 1]);
      var w := ws[|ws| - 1];
      if w.blk < |d| then d[w.blk := w.data] else d
  }

  // No operation is partly durable.
  ghost predicate Atomic(done: seq<Write>, durable: nat) {
    forall j, k | 0 <= j < durable <= k < |done| :: done[j].op != done[k].op
  }

  // ---- Reservations -------------------------------------------------------------------

  function Busyness(x: Slot): nat {
    if x.Busy? then 1 else 0
  }

  function BusyCount(slots: seq<Slot>): nat {
    if slots == [] then 0 else Busyness(slots[0]) + BusyCount(slots[1..])
  }

  // Blocks that the operation in this slot may still log.
  function Unused(g: Geometry, x: Slot): int {
    if x.Busy? then g.maxop - |x.blocks| else 0
  }

  function Reserved(g: Geometry, slots: seq<Slot>): int {
    if slots == [] then 0 else Unused(g, slots[0]) + Reserved(g, slots[1..])
  }

  lemma {:induction false} UpdateSlot(g: Geometry, slots: seq<Slot>, p: nat, x: Slot)
    requires p < |slots|
    ensures BusyCount(slots[p := x]) == BusyCount(slots) - Busyness(slots[p]) + Busyness(x)
    ensures Reserved(g, slots[p := x]) == Reserved(g, slots) - Unused(g, slots[p]) + Unused(g, x)
  {
    if p == 0 {
      assert slots[p := x][1..] == slots[1..];
    } else {
      assert slots[p := x][1..] == slots[1..][p - 1 := x];
      UpdateSlot(g, slots[1..], p - 1, x);
    }
  }

  lemma {:induction false} AllIdle(g: Geometry, slots: seq<Slot>)
    requires forall p | 0 <= p < |slots| :: slots[p].Idle?
    ensures BusyCount(slots) == 0 && Reserved(g, slots) == 0
  {
    if slots != [] {
      AllIdle(g, slots[1..]);
    }
  }

  lemma {:induction false} NoneBusy(g: Geometry, slots: seq<Slot>)
    requires BusyCount(slots) == 0
    ensures forall p | 0 <= p < |slots| :: slots[p].Idle?
  {
    if slots != [] {
      NoneBusy(g, slots[1..]);
      assert forall p | 0 < p < |slots| :: slots[p] == slots[1..][p - 1];
    }
  }

  lemma {:induction false} OneBusy(slots: seq<Slot>, p: nat)
    requires p < |slots| && slots[p].Busy?
    ensures BusyCount(slots) > 0
  {
    if p > 0 {
      OneBusy(slots[1..], p - 1);
    }
  }

  lemma {:induction false} ReservedAtLeast(g: Geometry, lh: seq<nat>, slots: seq<Slot>, p: nat)
    requires p < |slots| && forall q | 0 <= q < |slots| :: SlotOk(g, lh, slots[q])
    ensures Reserved(g, slots) >= Unused(g, slots[p]) >= 0
  {
    assert SlotOk(g, lh, slots[0]);
    if p > 0 {
      ReservedAtLeast(g, lh, slots[1..], p - 1);
    } else if |slots| > 1 {
      ReservedAtLeast(g, lh, slots[1..], 0);
    }
  }

  // ---- The invariant --------------------------------------------------------------------

  ghost predicate Reservation(g: Geometry, s: State) {
    && s.outstanding == BusyCount(s.slots)
    && |s.lh| + Reserved(g, s.slots) <= g.logsize && |s.lh| <= g.nbuf
    && (forall p | 0 <= p < |s.slots| :: SlotOk(g, s.lh, s.slots[p]))
    && (g.size == 1 ==> s.lh == [] && forall p | 0 <= p < |s.slots| && s.slots[p].Busy? :: s.slots[p].at.Outside?)
    && (!s.phase.Running? ==> s.outstanding == 0)
  }

  // What an operation has logged stays on the list until it ends.
  predicate SlotOk(g: Geometry, lh: seq<nat>, x: Slot) {
    x.Busy? ==>
      && |x.blocks| <= g.maxop && (forall b | b in x.blocks :: b in lh)
      && (x.at.Inside? ==> x.at.b in x.blocks || |x.blocks| < g.maxop)
  }

  // The log has room for every list of blocks that the operations can make and that can be
  // committed, or for no block at all.
  predicate Fits(g: Geometry) {
    g.size > g.logsize || g.size == 1 || g.size >= g.nbuf
  }

  ghost predicate Operations(s: State) {
    && s.durable <= |s.done|
    && Atomic(s.done, s.durable)
    && (forall k | 0 <= k < |s.done| :: s.done[k].op < s.nextOp)
    && (forall p | 0 <= p < |s.slots| && s.slots[p].Busy? :: s.slots[p].op < s.nextOp)
    && (forall p, k | 0 <= p < |s.slots| && s.slots[p].Busy? && 0 <= k < s.durable ::
          s.done[k].op != s.slots[p].op)
  }

  ghost predicate DiskOk(g: Geometry, base: Disk, s: State) {
    && GeometryOk(g, |s.disk|) && |s.disk| == |base|
    && HeaderOk(g, s.disk)
    && Listed(g, |s.disk|, s.lh) && (|s.lh| < g.nbuf ==> |s.lh| < g.size)
    && (forall b | b in s.dirty :: b in s.lh)
    && s.durable <= |s.done|
    && (s.lh == [] ==> s.durable == |s.done|)
    && HomeEq(g, Recovered(g, s.disk), Replay(base, s.done[..s.durable]))
  }

  ghost predicate CommittingOk(g: Geometry, base: Disk, s: State, from: Disk, i: nat)
    requires DiskOk(g, base, s)
  {
    && s.outstanding == 0
    && |from| == |s.disk| && HeaderOk(g, from) && Logged(g, from) == []
    && i <= CommitLength(s.lh) && (i > 0 ==> |s.lh| < g.nbuf)
    && s.disk == (if i == 0 then from else CommitDisk(g, from, s.dirty, s.lh, i))
    && Shows(g, from, s.dirty, Replay(base, s.done))
    && (i < CommitPoint(s.lh) ==> HomeEq(g, from, Replay(base, s.done[..s.durable])))
    && (i >= CommitPoint(s.lh) ==> s.durable == |s.done|)
  }

  ghost predicate RecoveringOk(g: Geometry, base: Disk, s: State, from: Disk, i: nat) {
    && s.lh == [] && s.outstanding == 0
    && |from| == |s.disk| && HeaderOk(g, from)
    && i <= RecoverLength(g, from)
    && s.disk == RecoverDisk(g, from, i)
    && HomeEq(g, Recovered(g, from), Replay(base, s.done))
  }

  ghost predicate PhaseOk(g: Geometry, base: Disk, s: State)
    requires DiskOk(g, base, s)
  {
    match s.phase
    case Running =>
      && Logged(g, s.disk) == []
      && Shows(g, s.disk, s.dirty, Replay(base, s.done))
      && (s.outstanding == 0 ==> s.lh == [])
    case Committing(from, i) => CommittingOk(g, base, s, from, i)
    case Down => s.lh == [] && s.outstanding == 0
    case Recovering(from, i) => RecoveringOk(g, base, s, from, i)
  }

  ghost predicate Inv(g: Geometry, base: Disk, s: State) {
    Reservation(g, s) && Operations(s) && DiskOk(g, base, s) && PhaseOk(g, base, s)
  }

  // ---- Each step keeps each part ----------------------------------------------------------

  lemma InitialInv(g: Geometry, image: Disk, s: State)
    requires Initial(g, image, s)
    ensures Inv(g, Recovered(g, image), s)
  {
    AllIdle(g, s.slots);
    InstalledSize(g, image);
  }

  lemma InstalledSize(g: Geometry, d: Disk)
    requires HeaderOk(g, d)
    ensures |Recovered(g, d)| == |d|
  {
  }

  lemma StepKeepsReservation(g: Geometry, s: State, step: Step)
    requires Reservation(g, s) && Enabled(g, s, step)
    ensures Reservation(g, Apply(g, s, step))
  {
    hide CommitDisk, RecoverDisk, HeaderOk, Copyable;
    match step
    case Begin(p) => BeginReserves(g, s, p);
    case Check(p, b) => CheckReserves(g, s, p, b);
    case Record(p, data) => RecordReserves(g, s, p, data);
    case End(p) => EndReserves(g, s, p);
    case CommitDone => NoneBusy(g, s.slots);
    case Crash => AllIdle(g, Apply(g, s, step).slots);
    case _ =>
  }

  lemma CheckReserves(g: Geometry, s: State, p: nat, b: nat)
    requires Reservation(g, s) && Enabled(g, s, Check(p, b))
    ensures Reservation(g, Apply(g, s, Check(p, b)))
  {
    UpdateSlot(g, s.slots, p, s.slots[p].(at := Inside(b)));
  }

  lemma RecordReserves(g: Geometry, s: State, p: nat, data: Block)
    requires Reservation(g, s) && Enabled(g, s, Record(p, data))
    ensures Reservation(g, Apply(g, s, Record(p, data)))
  {
    var x := s.slots[p];
    assert SlotOk(g, s.lh, x);
    assert x.at.b in x.blocks ==> x.blocks + {x.at.b} == x.blocks;
    UpdateSlot(g, s.slots, p, Busy(x.op, x.blocks + {x.at.b}, Outside));
    OneBusy(s.slots, p);
    var t := Apply(g, s, Record(p, data));
    forall q | 0 <= q < |t.slots|
      ensures SlotOk(g, t.lh, t.slots[q])
    {
      assert SlotOk(g, s.lh, s.slots[q]);
    }
  }

  lemma EndReserves(g: Geometry, s: State, p: nat)
    requires Reservation(g, s) && Enabled(g, s, End(p))
    ensures Reservation(g, Apply(g, s, End(p)))
  {
    UpdateSlot(g, s.slots, p, Idle);
  }

  lemma BeginReserves(g: Geometry, s: State, p: nat)
    requires Reservation(g, s) && Enabled(g, s, Begin(p))
    ensures Reservation(g, Apply(g, s, Begin(p)))
  {
    UpdateSlot(g, s.slots, p, Busy(s.nextOp, {}, Outside));
    ReservedAtMost(g, s.slots);
    assert (s.outstanding + 1) * g.maxop == BusyCount(s.slots) * g.maxop + g.maxop;
  }

  lemma {:induction false} ReservedAtMost(g: Geometry, slots: seq<Slot>)
    ensures Reserved(g, slots) <= BusyCount(slots) * g.maxop
  {
    if slots != [] {
      ReservedAtMost(g, slots[1..]);
      var k := BusyCount(slots[1..]);
      assert (1 + k) * g.maxop == g.maxop + k * g.maxop;
    }
  }

  lemma StepKeepsOperations(g: Geometry, base: Disk, s: State, step: Step)
    requires Inv(g, base, s) && Enabled(g, s, step)
    ensures Operations(Apply(g, s, step))
  {
    hide Operations, Enabled, DiskOk, Reservation;
    match step
    case Begin(p) => BeginKeepsOperations(g, s, p);
    case Record(p, data) => RecordKeepsOperations(g, s, p, data);
    case CommitWrite =>
      CommittingIdle(g, base, s);
      CommitKeepsOperations(g, s);
    case _ => OtherKeepsOperations(g, s, step);
  }

  lemma CommittingIdle(g: Geometry, base: Disk, s: State)
    requires Inv(g, base, s) && Enabled(g, s, CommitWrite)
    ensures forall p | 0 <= p < |s.slots| :: s.slots[p].Idle?
  {
    hide Operations, DiskOk, CommitDisk, HomeEq, HeaderOk;
    NoneBusy(g, s.slots);
  }

  lemma BeginKeepsOperations(g: Geometry, s: State, p: nat)
    requires Operations(s) && Enabled(g, s, Begin(p))
    ensures Operations(Apply(g, s, Begin(p)))
  {
  }

  lemma RecordKeepsOperations(g: Geometry, s: State, p: nat, data: Block)
    requires Operations(s) && Enabled(g, s, Record(p, data))
    ensures Operations(Apply(g, s, Record(p, data)))
  {
  }

  lemma CommitKeepsOperations(g: Geometry, s: State)
    requires Operations(s) && Enabled(g, s, CommitWrite) && forall p | 0 <= p < |s.slots| :: s.slots[p].Idle?
    ensures Operations(Apply(g, s, CommitWrite))
  {
    hide CommitDisk;
  }

  lemma OtherKeepsOperations(g: Geometry, s: State, step: Step)
    requires Operations(s) && Enabled(g, s, step) && !step.Begin? && !step.Record? && !step.CommitWrite?
    ensures Operations(Apply(g, s, step))
  {
    hide CommitDisk, RecoverDisk;
  }

  lemma StepKeepsDisk(g: Geometry, base: Disk, s: State, step: Step)
    requires Inv(g, base, s) && Fits(g) && Enabled(g, s, step)
    ensures DiskOk(g, base, Apply(g, s, step)) && PhaseOk(g, base, Apply(g, s, step))
  {
    var t := Apply(g, s, step);
    match step
    case Begin(p) =>
    case Check(p, _) => OneBusy(s.slots, p);
    case Record(p, data) => RecordKeepsDisk(g, base, s, p, data);
    case End(p) => OneBusy(s.slots, p);
    case CommitWrite => CommitWriteKeepsDisk(g, base, s);
    case CommitDone => CommitDoneKeepsDisk(g, base, s);
    case Crash => assert t.done[..t.durable] == s.done[..s.durable] == t.done;
    case Reboot => assert s.done[..s.durable] == s.done;
    case RecoverWrite =>
      RecoverWriteKeepsDisk(g, base, s);
    case RecoverDone =>
      assert s.done[..s.durable] == s.done;
      RecoveryRestarts(g, s.phase.from, s.phase.i);
  }

  lemma RecoverWriteKeepsDisk(g: Geometry, base: Disk, s: State)
    requires DiskOk(g, base, s) && PhaseOk(g, base, s) && Enabled(g, s, RecoverWrite)
    ensures var t := Apply(g, s, RecoverWrite); DiskOk(g, base, t) && PhaseOk(g, base, t)
  {
    hide RecoverDisk, Recovered, HomeEq, HeaderOk, Replay, Shows, CommittingOk;
    var t, from, i := Apply(g, s, RecoverWrite), s.phase.from, s.phase.i + 1;
    assert s.done[..s.durable] == s.done;
    RecoveryRestarts(g, from, i);
    HomeEqTrans(g, Recovered(g, t.disk), Recovered(g, from), Replay(base, s.done));
  }

  lemma HomeEqTrans(g: Geometry, d: Disk, e: Disk, f: Disk)
    requires HomeEq(g, d, e) && HomeEq(g, e, f)
    ensures HomeEq(g, d, f)
  {
  }

  lemma ReservationCounts(g: Geometry, s: State)
    requires Reservation(g, s)
    ensures s.outstanding == BusyCount(s.slots)
  {
  }

  // The reservation closes the gap between log_write's test and its record, as far as it matters.
  lemma RoomToRecord(g: Geometry, s: State, p: nat)
    requires Reservation(g, s) && Fits(g) && p < |s.slots| && s.slots[p].Busy? && s.slots[p].at.Inside?
    ensures var n := |Log.Absorb(s.lh, s.slots[p].at.b)|; n <= g.logsize && (n < g.nbuf ==> n < g.size)
  {
    assert SlotOk(g, s.lh, s.slots[p]);
    ReservedAtLeast(g, s.lh, s.slots, p);
  }

  lemma RecordKeepsDisk(g: Geometry, base: Disk, s: State, p: nat, data: Block)
    requires Inv(g, base, s) && Fits(g) && Enabled(g, s, Record(p, data))
    ensures var t := Apply(g, s, Record(p, data)); DiskOk(g, base, t) && PhaseOk(g, base, t)
  {
    hide Recovered, HomeEq, Reservation, CommitDisk, RecoverDisk, Fits;
    ReservationCounts(g, s);
    RoomToRecord(g, s, p);
    var t := Apply(g, s, Record(p, data));
    OneBusy(s.slots, p);
    assert t.done[..t.durable] == s.done[..s.durable];
    assert t.done[..|t.done| - 1] == s.done;
  }

  lemma CommitWriteRecovers(g: Geometry, base: Disk, s: State)
    requires DiskOk(g, base, s) && PhaseOk(g, base, s) && Enabled(g, s, CommitWrite)
    ensures var t := Apply(g, s, CommitWrite);
      && HeaderOk(g, t.disk)
      && t.durable <= |t.done|
      && HomeEq(g, Recovered(g, t.disk), Replay(base, t.done[..t.durable]))
  {
    hide Recovered, HomeEq, Shows, CommitDisk, Replay;
    var from, i, m := s.phase.from, s.phase.i + 1, Replay(base, s.done);
    if i < CommitPoint(s.lh) {
      BeforeCommitPoint(g, from, s.dirty, s.lh, i);
      HomeEqTrans(g, Recovered(g, CommitDisk(g, from, s.dirty, s.lh, i)), from, Replay(base, s.done[..s.durable]));
    } else {
      AfterCommitPoint(g, from, s.dirty, s.lh, m, i);
      assert s.done[..|s.done|] == s.done;
    }
  }

  lemma CommitWriteKeepsDisk(g: Geometry, base: Disk, s: State)
    requires DiskOk(g, base, s) && PhaseOk(g, base, s) && Enabled(g, s, CommitWrite)
    ensures var t := Apply(g, s, CommitWrite); DiskOk(g, base, t) && PhaseOk(g, base, t)
  {
    CommitWriteRecovers(g, base, s);
  }

  lemma CommitDoneKeepsDisk(g: Geometry, base: Disk, s: State)
    requires DiskOk(g, base, s) && PhaseOk(g, base, s) && Enabled(g, s, CommitDone)
    ensures var t := Apply(g, s, CommitDone); DiskOk(g, base, t) && PhaseOk(g, base, t)
  {
    if s.lh != [] {
      AfterCommitPoint(g, s.phase.from, s.dirty, s.lh, Replay(base, s.done), s.phase.i);
    }
  }

  lemma StepKeepsInv(g: Geometry, base: Disk, s: State, step: Step)
    requires Inv(g, base, s) && Fits(g) && Enabled(g, s, step)
    ensures Inv(g, base, Apply(g, s, step))
  {
    StepKeepsReservation(g, s, step);
    StepKeepsOperations(g, base, s, step);
    StepKeepsDisk(g, base, s, step);
  }

  lemma {:induction false} RunKeepsInv(g: Geometry, base: Disk, s: State, steps: seq<Step>, t: State)
    requires Inv(g, base, s) && Fits(g) && Reaches(g, s, steps, t)
    ensures Inv(g, base, t)
    decreases |steps|
  {
    if steps != [] {
      StepKeepsInv(g, base, s, steps[0]);
      RunKeepsInv(g, base, Apply(g, s, steps[0]), steps[1..], t);
    }
  }

  // ---- Crash safety over whole runs ---------------------------------------------------------

  // In every reachable state, whatever the interleaving and wherever crashes and interrupted
  // recoveries fell, recovering from the disk as it is now yields exactly the log_writes of the
  // committed transactions, and no operation is partly among them.
  lemma CrashAtomicity(g: Geometry, image: Disk, s: State, steps: seq<Step>, t: State)
    requires Fits(g) && Initial(g, image, s) && Reaches(g, s, steps, t)
    ensures HeaderOk(g, t.disk) && t.durable <= |t.done|
    ensures HomeEq(g, Recovered(g, t.disk), Replay(Recovered(g, image), t.done[..t.durable]))
    ensures Atomic(t.done, t.durable)
  {
    InitialInv(g, image, s);
    RunKeepsInv(g, Recovered(g, image), s, steps, t);
  }

  predicate IsRecovery(step: Step) {
    step.Crash? || step.Reboot? || step.RecoverWrite? || step.RecoverDone?
  }

  // A machine that crashes in any reachable state, and possibly again any number of times while
  // recovering, comes up with exactly the transactions that had committed before the first crash.
  lemma RecoveryCompletes(g: Geometry, image: Disk, s: State, steps: seq<Step>, t: State, more: seq<Step>, u: State)
    requires Fits(g) && Initial(g, image, s) && Reaches(g, s, steps, t)
    requires Reaches(g, t, [Crash] + more, u) && (forall x | x in more :: IsRecovery(x))
    requires u.phase.Running?
    ensures t.durable <= |t.done| && u.done == t.done[..t.durable]
    ensures HomeEq(g, u.disk, Replay(Recovered(g, image), u.done))
    ensures Shows(g, u.disk, u.dirty, Replay(Recovered(g, image), u.done)) && u.lh == []
  {
    hide Inv, Enabled, Apply, Recovered, HomeEq, Shows, Replay;
    var base := Recovered(g, image);
    InitialInv(g, image, s);
    RunKeepsInv(g, base, s, steps, t);
    CrashIsQuiet(g, base, t);
    var c := Apply(g, t, Crash);
    assert ([Crash] + more)[1..] == more;
    StepKeepsInv(g, base, t, Crash);
    RecoveryKeepsDone(g, c, more, u);
    RunKeepsInv(g, base, c, more, u);
    QuietShows(g, base, u);
  }

  lemma CrashIsQuiet(g: Geometry, base: Disk, t: State)
    requires Inv(g, base, t)
    ensures Enabled(g, t, Crash) && Quiet(Apply(g, t, Crash))
    ensures t.durable <= |t.done| && Apply(g, t, Crash).done == t.done[..t.durable]
  {
    hide Reservation, Operations, PhaseOk, HomeEq, Recovered;
  }

  lemma QuietShows(g: Geometry, base: Disk, u: State)
    requires Inv(g, base, u) && u.phase.Running? && u.lh == [] && u.durable == |u.done|
    ensures HomeEq(g, u.disk, Replay(base, u.done)) && Shows(g, u.disk, u.dirty, Replay(base, u.done))
  {
    hide Reservation, Operations, Replay;
    assert u.done[..u.durable] == u.done;
  }

  // Nothing is running and nothing is left that could be lost.
  predicate Quiet(c: State) {
    c.durable == |c.done| && c.outstanding == 0 && c.lh == [] && !c.phase.Committing?
  }

  lemma RecoveryStepKeepsDone(g: Geometry, c: State, step: Step)
    requires Quiet(c) && IsRecovery(step) && Enabled(g, c, step)
    ensures var d := Apply(g, c, step); Quiet(d) && d.done == c.done && d.durable == c.durable
  {
    hide RecoverDisk, HeaderOk;
  }

  lemma {:induction false} RecoveryKeepsDone(g: Geometry, c: State, more: seq<Step>, u: State)
    requires Quiet(c) && Reaches(g, c, more, u) && (forall x | x in more :: IsRecovery(x))
    ensures u.done == c.done && u.durable == c.durable && u.lh == []
    decreases |more|
  {
    hide Enabled, Apply, IsRecovery;
    if more != [] {
      assert IsRecovery(more[0]);
      RecoveryStepKeepsDone(g, c, more[0]);
      RecoveryKeepsDone(g, Apply(g, c, more[0]), more[1..], u);
    }
  }

  lemma StepOnlyAddsDurable(g: Geometry, base: Disk, s: State, step: Step)
    requires DiskOk(g, base, s) && PhaseOk(g, base, s) && Enabled(g, s, step)
    ensures var t := Apply(g, s, step);
      s.durable <= t.durable <= |t.done| && t.done[..s.durable] == s.done[..s.durable]
  {
  }

  lemma {:induction false} DurableOnlyGrows(g: Geometry, base: Disk, s: State, steps: seq<Step>, t: State)
    requires Inv(g, base, s) && Fits(g) && Reaches(g, s, steps, t)
    ensures s.durable <= |s.done| && s.durable <= t.durable <= |t.done|
    ensures t.done[..s.durable] == s.done[..s.durable]
    decreases |steps|
  {
    if steps != [] {
      var r := Apply(g, s, steps[0]);
      StepKeepsInv(g, base, s, steps[0]);
      StepOnlyAddsDurable(g, base, s, steps[0]);
      DurableOnlyGrows(g, base, r, steps[1..], t);
      PrefixOfPrefix(r.done, t.done, s.durable, r.durable);
    }
  }

  // No committed write is ever lost or reordered, whatever happens afterwards.
  lemma CommittedIsNeverLost(g: Geometry, image: Disk, s: State, steps: seq<Step>, t: State, more: seq<Step>, u: State)
    requires Fits(g) && Initial(g, image, s) && Reaches(g, s, steps, t) && Reaches(g, t, more, u)
    ensures t.durable <= |t.done| && t.durable <= u.durable <= |u.done|
    ensures u.done[..t.durable] == t.done[..t.durable]
  {
    InitialInv(g, image, s);
    RunKeepsInv(g, Recovered(g, image), s, steps, t);
    DurableOnlyGrows(g, Recovered(g, image), t, more, u);
  }

  lemma PrefixOfPrefix<T>(a: seq<T>, b: seq<T>, i: nat, j: nat)
    requires i <= j <= |a| && j <= |b| && a[..j] == b[..j]
    ensures a[..i] == b[..i]
  {
    assert a[..i] == a[..j][..i] && b[..i] == b[..j][..i];
  }

  // When the committing end_op is about to clear log.committing, everything logged so far is
  // durable and already in its home location.
  lemma CommittedWhenEndOpReturns(g: Geometry, image: Disk, s: State, steps: seq<Step>, t: State)
    requires Fits(g) && Initial(g, image, s) && Reaches(g, s, steps, t)
    requires Enabled(g, t, CommitDone)
    ensures t.durable == |t.done|
    ensures HomeEq(g, t.disk, Replay(Recovered(g, image), t.done))
  {
    var base := Recovered(g, image);
    InitialInv(g, image, s);
    RunKeepsInv(g, base, s, steps, t);
    StepKeepsDisk(g, base, t, CommitDone);
    assert t.done[..t.durable] == t.done;
  }

  // ---- What recovery brings back ---------------------------------------------------------------

  lemma {:induction false} ReachesLast(g: Geometry, s: State, steps: seq<Step>, t: State) returns (r: State)
    requires Reaches(g, s, steps, t) && steps != []
    ensures var n := |steps| - 1; Reaches(g, s, steps[..n], r) && Enabled(g, r, steps[n]) && t == Apply(g, r, steps[n])
    decreases |steps|
  {
    hide Enabled, Apply;
    var n := |steps| - 1;
    if n == 0 {
      r := s;
    } else {
      var next := Apply(g, s, steps[0]);
      r := ReachesLast(g, next, steps[1..], t);
      assert steps[1..][..n - 1] == steps[..n][1..] && steps[..n][0] == steps[0];
    }
  }

  // The durable writes change only when the header is written, when nothing is in progress.
  lemma StepDurable(g: Geometry, base: Disk, r: State, step: Step)
    requires DiskOk(g, base, r) && PhaseOk(g, base, r) && Enabled(g, r, step)
    ensures var t := Apply(g, r, step);
      && r.durable <= |r.done| && t.durable <= |t.done|
      && (t.done[..t.durable] == r.done[..r.durable] || (r.outstanding == 0 && t.done[..t.durable] == r.done))
  {
    hide CommitDisk, RecoverDisk, HomeEq, Recovered, Listed;
    var t := Apply(g, r, step);
    assert t.durable == |t.done| ==> t.done[..t.durable] == t.done;
  }

  // What is durable is what the processes had done at some moment when no operation was in progress,
  // wherever crashes fell since.
  lemma {:induction false} DurableIsQuiet(g: Geometry, image: Disk, s: State, steps: seq<Step>, t: State)
    returns (k: nat, u: State)
    requires Fits(g) && Initial(g, image, s) && Reaches(g, s, steps, t)
    ensures k <= |steps| && Reaches(g, s, steps[..k], u) && u.outstanding == 0
    ensures t.durable <= |t.done| && u.done == t.done[..t.durable]
    decreases |steps|
  {
    hide Reaches, Enabled, Apply, Recovered, DiskOk, PhaseOk, Reservation, Operations;
    if steps == [] {
      ReachesNothing(g, s, steps, t);
      k, u := 0, s;
      assert steps[..0] == [];
    } else {
      var n := |steps| - 1;
      var r := ReachesLast(g, s, steps, t);
      InitialInv(g, image, s);
      RunKeepsInv(g, Recovered(g, image), s, steps[..n], r);
      StepDurable(g, Recovered(g, image), r, steps[n]);
      if r.outstanding == 0 && t.done[..t.durable] == r.done {
        k, u := n, r;
      } else {
        k, u := DurableIsQuiet(g, image, s, steps[..n], r);
        assert steps[..n][..k] == steps[..k];
      }
    }
  }

  lemma ReachesNothing(g: Geometry, s: State, steps: seq<Step>, t: State)
    requires Reaches(g, s, steps, t) && steps == []
    ensures t == s && Reaches(g, s, [], s)
  {
  }

  // ---- Reservation: which panics can be reached ---------------------------------------------

  ghost predicate Bounded(g: Geometry, s: State) {
    && Reservation(g, s)
    && (forall i, j | 0 <= i < j < |s.lh| :: s.lh[i] != s.lh[j])
  }

  lemma StepKeepsBounded(g: Geometry, s: State, step: Step)
    requires Bounded(g, s) && Enabled(g, s, step)
    ensures Bounded(g, Apply(g, s, step))
  {
    StepKeepsReservation(g, s, step);
  }

  lemma {:induction false} RunKeepsBounded(g: Geometry, s: State, steps: seq<Step>, t: State)
    requires Bounded(g, s) && Reaches(g, s, steps, t)
    ensures Bounded(g, t)
    decreases |steps|
  {
    hide Bounded, Enabled, Apply;
    if steps != [] {
      StepKeepsBounded(g, s, steps[0]);
      RunKeepsBounded(g, Apply(g, s, steps[0]), steps[1..], t);
    }
  }

  lemma InitialBounded(g: Geometry, image: Disk, s: State)
    requires Initial(g, image, s)
    ensures Bounded(g, s)
  {
    AllIdle(g, s.slots);
  }

  // Whatever the size of the log: lh.n plus the unused reservations of all outstanding operations
  // never exceeds LOGSIZE, and block numbers in lh.block are distinct.
  lemma ReservationHolds(g: Geometry, image: Disk, s: State, steps: seq<Step>, t: State)
    requires Initial(g, image, s) && Reaches(g, s, steps, t)
    ensures |t.lh| + Reserved(g, t.slots) <= g.logsize
    ensures forall i, j | 0 <= i < j < |t.lh| :: t.lh[i] != t.lh[j]
  {
    InitialBounded(g, image, s);
    RunKeepsBounded(g, s, steps, t);
  }

  // So an operation that has not used up its budget, or is about to record another block, finds
  // room in lh.block; and end_op never finds a commit in progress.
  lemma RoomInHeader(g: Geometry, image: Disk, s: State, steps: seq<Step>, t: State, p: nat)
    requires Initial(g, image, s) && Reaches(g, s, steps, t) && p < |t.slots| && t.slots[p].Busy?
    ensures t.outstanding >= 1 && t.phase.Running?
    ensures |t.slots[p].blocks| < g.maxop ==> |t.lh| < g.logsize
    ensures t.slots[p].at.Inside? ==> |Log.Absorb(t.lh, t.slots[p].at.b)| <= g.logsize
  {
    InitialBounded(g, image, s);
    RunKeepsBounded(g, s, steps, t);
    assert SlotOk(g, t.lh, t.slots[p]);
    ReservedAtLeast(g, t.lh, t.slots, p);
    OneBusy(t.slots, p);
  }

  // The list is never longer than LOGSIZE, nor than there are buffers to pin.
  lemma ListBounded(g: Geometry, s: State, steps: seq<Step>, t: State)
    requires Initial(g, s.disk, s) && Reaches(g, s, steps, t)
    ensures |t.lh| <= g.logsize && |t.lh| <= g.nbuf && (g.size == 1 ==> t.lh == [])
  {
    InitialBounded(g, s.disk, s);
    RunKeepsBounded(g, s, steps, t);
    if t.slots != [] {
      ReservedAtLeast(g, t.lh, t.slots, 0);
    }
  }

  // log_write panics on an operation within its budget; `unspent`: one that still has blocks left.
  ghost predicate PanicReachable(g: Geometry, unspent: bool) {
    exists s: State, steps: seq<Step>, t: State, p: nat, b: nat ::
      Initial(g, s.disk, s) && Reaches(g, s, steps, t) && MayPut(g, t, p, b)
      && (unspent ==> |t.slots[p].blocks| < g.maxop) && Log.WritePanics(g, |t.lh|, t.outstanding)
  }

  lemma NoPanicIfLogIsLarger(g: Geometry)
    requires g.size > g.logsize
    ensures !PanicReachable(g, true)
  {
    forall s: State, steps: seq<Step>, t: State, p: nat, b: nat |
      Initial(g, s.disk, s) && Reaches(g, s, steps, t) && MayPut(g, t, p, b) && |t.slots[p].blocks| < g.maxop
      ensures !Log.WritePanics(g, |t.lh|, t.outstanding)
    {
      RoomInHeader(g, s.disk, s, steps, t, p);
    }
  }

  lemma NoPanicIfBuffersRunOut(g: Geometry)
    requires (g.size > g.nbuf + 1 && g.logsize > g.nbuf) || g.nbuf == 0
    ensures !PanicReachable(g, false)
  {
    forall s: State, steps: seq<Step>, t: State, p: nat, b: nat |
      Initial(g, s.disk, s) && Reaches(g, s, steps, t) && MayPut(g, t, p, b)
      ensures !Log.WritePanics(g, |t.lh|, t.outstanding)
    {
      RoomInHeader(g, s.disk, s, steps, t, p);
      ListBounded(g, s, steps, t);
    }
  }

  // ---- Building runs ---------------------------------------------------------------------------

  lemma {:induction false} ReachesSnoc(g: Geometry, s: State, steps: seq<Step>, t: State, step: Step)
    requires Reaches(g, s, steps, t) && Enabled(g, t, step)
    ensures Reaches(g, s, steps + [step], Apply(g, t, step))
    decreases |steps|
  {
    if steps == [] {
      assert [step][1..] == [];
      assert Reaches(g, Apply(g, s, step), [], Apply(g, s, step));
    } else {
      assert (steps + [step])[0] == steps[0];
      assert (steps + [step])[1..] == steps[1..] + [step];
      ReachesSnoc(g, Apply(g, s, steps[0]), steps[1..], t, step);
    }
  }

  lemma ReachesSelf(g: Geometry, s: State)
    ensures Reaches(g, s, [], s)
  {
  }

  lemma AddStep(g: Geometry, s: State, steps: seq<Step>, t: State, step: Step) returns (longer: seq<Step>, u: State)
    requires Reaches(g, s, steps, t) && Enabled(g, t, step)
    ensures Reaches(g, s, longer, u) && u == Apply(g, t, step)
  {
    longer, u := steps + [step], Apply(g, t, step);
    ReachesSnoc(g, s, steps, t, step);
  }

  // MAXOPBLOCKS and LOGSIZE leave room for two operations at a time, and a header fits a block.
  // There may be as many home blocks behind the log as it can list.
  predicate TwoFit(g: Geometry) {
    && 1 <= g.maxop && 2 * g.maxop <= g.logsize && g.logsize + 1 < WORDS
    && 1 <= g.size && g.start + g.size + g.logsize <= TWO32
  }

  // The log is empty, and so is every block.
  function SmallDisk(g: Geometry): (d: Disk)
    ensures |d| == g.start + g.size + g.logsize
  {
    seq(g.start + g.size + g.logsize, _ => ZERO)
  }

  lemma EmptyRecovers(g: Geometry)
    requires TwoFit(g)
    ensures var d := SmallDisk(g);
      && HeaderOk(g, d) && Logged(g, d) == [] && RecoverLength(g, d) == 1
      && RecoverDisk(g, d, 1) == d && Recovered(g, d) == d
  {
    var d := SmallDisk(g);
    ZeroWords(0);
    assert Logged(g, d) == [];
    assert HeadImage(d[g.start], [], 0) == SetWord(ZERO, 0, 0) == ZERO;
  }

  lemma Boot(g: Geometry, m: nat) returns (s: State, steps: seq<Step>, t: State)
    requires TwoFit(g)
    ensures Initial(g, s.disk, s) && Reaches(g, s, steps, t) && s.disk == SmallDisk(g)
    ensures t == State(SmallDisk(g), map[], [], 0, seq(m, _ => Idle), Running, 0, [], 0)
  {
    hide Reaches, RecoverDisk, SmallDisk, Recovered;
    var d := SmallDisk(g);
    EmptyRecovers(g);
    s := State(d, map[], [], 0, seq(m, _ => Idle), Down, 0, [], 0);
    assert s.slots == seq(|s.slots|, _ => Idle);
    steps, t := [], s;
    ReachesSelf(g, s);
    steps, t := AddStep(g, s, steps, t, Reboot);
    steps, t := AddStep(g, s, steps, t, RecoverWrite);
    steps, t := AddStep(g, s, steps, t, RecoverDone);
  }

  // The first k blocks behind the log have been logged; nothing has committed.
  ghost predicate Filled(g: Geometry, s: State, t: State, k: nat) {
    && s.disk == SmallDisk(g) && t.disk == s.disk && t.durable == 0 && t.phase.Running?
    && |t.lh| == k && (forall i | 0 <= i < k :: t.lh[i] == g.start + g.size + i)
    && (forall i | 0 <= i < k :: t.lh[i] in t.dirty)
    && (forall p, b | 0 <= p < |t.slots| && t.slots[p].Busy? && b in t.slots[p].blocks :: b in t.lh)
  }

  // An operation that has logged so many blocks.
  predicate Made(x: Slot, n: int) {
    x.Busy? && x.at.Outside? && |x.blocks| == n
  }

  // An operation that has blocks left and is not in log_write.
  predicate HasLeft(g: Geometry, x: Slot) {
    x.Busy? && x.at.Outside? && |x.blocks| < g.maxop
  }

  // log_write of the next block by process p.
  lemma LogNext(g: Geometry, s: State, steps: seq<Step>, t: State, k: nat, p: nat, data: Block)
    returns (longer: seq<Step>, u: State)
    requires Reaches(g, s, steps, t) && Filled(g, s, t, k) && p < |t.slots| && t.outstanding >= 1
    requires HasLeft(g, t.slots[p]) && k < g.logsize && k + 1 < g.size && k < g.nbuf
    ensures Reaches(g, s, longer, u) && Filled(g, s, u, k + 1) && u.outstanding == t.outstanding
    ensures |u.slots| == |t.slots| && u.slots == t.slots[p := u.slots[p]]
    ensures Made(u.slots[p], |t.slots[p].blocks| + 1) && u.lh[k] in u.slots[p].blocks
  {
    hide Reaches;
    longer, u := AddStep(g, s, steps, t, Check(p, g.start + g.size + k));
    longer, u := RecordNext(g, s, longer, u, k, p, data);
  }

  // Its second half alone.
  lemma RecordNext(g: Geometry, s: State, steps: seq<Step>, t: State, k: nat, p: nat, data: Block)
    returns (longer: seq<Step>, u: State)
    requires Reaches(g, s, steps, t) && Filled(g, s, t, k) && p < |t.slots|
    requires t.slots[p].Busy? && t.slots[p].at == Inside(g.start + g.size + k)
    requires k < g.logsize && k < g.nbuf
    ensures Reaches(g, s, longer, u) && Filled(g, s, u, k + 1) && u.outstanding == t.outstanding
    ensures |u.slots| == |t.slots| && u.slots == t.slots[p := u.slots[p]]
    ensures Made(u.slots[p], |t.slots[p].blocks| + 1)
    ensures u.lh[k] in u.slots[p].blocks && u.dirty == t.dirty[g.start + g.size + k := data]
  {
    hide Reaches;
    var b := g.start + g.size + k;
    assert b !in t.lh;
    longer, u := AddStep(g, s, steps, t, Record(p, data));
    assert u.lh == t.lh + [b];
    forall q, c | 0 <= q < |u.slots| && u.slots[q].Busy? && c in u.slots[q].blocks
      ensures c in u.lh
    {
      assert c in t.lh || c == b;
    }
  }

  // The first j of m operations have begun.
  lemma {:induction false} BeginSome(g: Geometry, m: nat, j: nat) returns (s: State, steps: seq<Step>, t: State)
    requires TwoFit(g) && j <= m && m * g.maxop <= g.logsize
    ensures Initial(g, s.disk, s) && Reaches(g, s, steps, t) && Filled(g, s, t, 0)
    ensures t.outstanding == j && |t.slots| == m
    ensures forall p | 0 <= p < m :: if p < j then Made(t.slots[p], 0) else t.slots[p].Idle?
  {
    hide Reaches, Initial, SmallDisk;
    if j == 0 {
      s, steps, t := Boot(g, m);
    } else {
      s, steps, t := BeginSome(g, m, j - 1);
      FewerTimes(j, m, g.maxop);
      steps, t := AddStep(g, s, steps, t, Begin(j - 1));
    }
  }

  lemma FewerTimes(a: nat, b: nat, n: nat)
    requires a <= b
    ensures a * n <= b * n
  {
  }

  // k blocks logged by operations of one block each that are over, while m - 1 others have not
  // logged any yet.
  lemma {:induction false} OneByOne(g: Geometry, m: nat, k: nat) returns (s: State, steps: seq<Step>, t: State)
    requires TwoFit(g) && m >= 2 && k + m * g.maxop <= g.logsize && k < g.size && k <= g.nbuf
    ensures Initial(g, s.disk, s) && Reaches(g, s, steps, t) && Filled(g, s, t, k)
    ensures t.outstanding == m - 1 && |t.slots| == m && t.slots[m - 1].Idle?
    ensures forall p | 0 <= p < m - 1 :: Made(t.slots[p], 0)
  {
    hide Reaches, Initial, SmallDisk;
    if k == 0 {
      s, steps, t := BeginSome(g, m, m - 1);
    } else {
      s, steps, t := OneByOne(g, m, k - 1);
      steps, t := AddStep(g, s, steps, t, Begin(m - 1));
      steps, t := LogNext(g, s, steps, t, k - 1, m - 1, ZERO);
      steps, t := AddStep(g, s, steps, t, End(m - 1));
    }
  }

  // k blocks logged while m operations have blocks left.
  lemma {:induction false} AllAtOnce(g: Geometry, m: nat, k: nat) returns (s: State, steps: seq<Step>, t: State)
    requires TwoFit(g) && m >= 2 && m * g.maxop <= g.logsize && k + m <= g.logsize && k < g.size && k <= g.nbuf
    ensures Initial(g, s.disk, s) && Reaches(g, s, steps, t) && Filled(g, s, t, k)
    ensures t.outstanding == m && |t.slots| == m && forall p | 0 <= p < m :: HasLeft(g, t.slots[p])
    ensures Reserved(g, t.slots) == if k + m * g.maxop <= g.logsize then m * g.maxop else g.logsize - k
  {
    hide Reaches, Initial, SmallDisk;
    if k + m * g.maxop <= g.logsize {
      s, steps, t := OneByOne(g, m, k);
      steps, t := AddStep(g, s, steps, t, Begin(m - 1));
      NoneMade(g, t.slots);
    } else {
      s, steps, t := AllAtOnce(g, m, k - 1);
      var p := MoreThanOneLeft(g, t.slots);
      UpdateSlot(g, t.slots, p, Busy(0, t.slots[p].blocks, Outside));
      ghost var slots := t.slots;
      steps, t := LogNext(g, s, steps, t, k - 1, p, ZERO);
      UpdateSlot(g, slots, p, t.slots[p]);
    }
  }

  lemma {:induction false} NoneMade(g: Geometry, slots: seq<Slot>)
    requires forall p | 0 <= p < |slots| :: Made(slots[p], 0)
    ensures Reserved(g, slots) == |slots| * g.maxop
  {
    if slots != [] {
      NoneMade(g, slots[1..]);
      assert |slots| * g.maxop == g.maxop + (|slots| - 1) * g.maxop;
    }
  }

  // With more blocks left than operations, one of them has two left.
  lemma {:induction false} MoreThanOneLeft(g: Geometry, slots: seq<Slot>) returns (p: nat)
    requires Reserved(g, slots) > |slots|
    ensures p < |slots| && Unused(g, slots[p]) >= 2
  {
    if Unused(g, slots[0]) >= 2 {
      p := 0;
    } else {
      p := MoreThanOneLeft(g, slots[1..]);
      p := p + 1;
    }
  }

  // Some run drives log_write into its panic on an operation that has blocks left exactly when the
  // superblock gives the log no more than LOGSIZE blocks, as mkfs.c does, and as many can be pinned.
  lemma PanicReachableIff(g: Geometry)
    requires TwoFit(g)
    ensures PanicReachable(g, true) <==> g.size <= g.logsize && g.size <= g.nbuf + 1 && 1 <= g.nbuf
  {
    if g.size > g.logsize {
      NoPanicIfLogIsLarger(g);
    } else if g.size > g.nbuf + 1 || g.nbuf == 0 {
      NoPanicIfBuffersRunOut(g);
    } else {
      var s, steps, t := AtTheLimit(g);
      assert MayPut(g, t, 1, g.start + g.size) && Log.WritePanics(g, |t.lh|, t.outstanding);
    }
  }

  // The log is full and the second operation has blocks left; it logs the first block listed, or, if
  // the log is all header, any block.
  lemma AtTheLimit(g: Geometry) returns (s: State, steps: seq<Step>, t: State)
    requires TwoFit(g) && g.size <= g.logsize && g.size <= g.nbuf + 1 && 1 <= g.nbuf
    ensures Initial(g, s.disk, s) && Reaches(g, s, steps, t) && |t.lh| == g.size - 1 && |t.slots| == 2
    ensures MayPut(g, t, 1, g.start + g.size) && |t.slots[1].blocks| < g.maxop
  {
    hide Reaches, Initial;
    s, steps, t := AllAtOnce(g, 2, if g.size == 1 then 0 else g.size - 2);
    if g.size > 1 {
      steps, t := LogNext(g, s, steps, t, g.size - 2, 0, ZERO);
      assert t.lh[0] == g.start + g.size;
    }
  }

  // On an operation that has none left, but logs one of its blocks again, it panics in some run
  // whatever the size of the log: the test comes before the search that would find the block listed.
  lemma AbsorbPanicIff(g: Geometry)
    requires TwoFit(g)
    ensures PanicReachable(g, false) <==>
              (if g.size <= g.logsize then g.size - 1 else g.logsize) <= g.nbuf && 1 <= g.nbuf
  {
    if g.size <= g.logsize && g.size <= g.nbuf + 1 && 1 <= g.nbuf {
      var s, steps, t := AtTheLimit(g);
      assert MayPut(g, t, 1, g.start + g.size) && Log.WritePanics(g, |t.lh|, t.outstanding);
    } else if g.size > g.logsize && g.logsize <= g.nbuf {
      var s, steps, t := HeaderFull(g);
      assert MayPut(g, t, 0, t.lh[g.logsize - 2]) && Log.WritePanics(g, |t.lh|, t.outstanding);
    } else {
      NoPanicIfBuffersRunOut(g);
    }
  }

  // LOGSIZE blocks are listed and an operation is about to log one of them again.
  lemma HeaderFull(g: Geometry) returns (s: State, steps: seq<Step>, t: State)
    requires TwoFit(g) && g.size > g.logsize && g.logsize <= g.nbuf
    ensures Initial(g, s.disk, s) && Reaches(g, s, steps, t) && |t.lh| == g.logsize && |t.slots| == 2
    ensures MayPut(g, t, 0, t.lh[g.logsize - 2])
  {
    hide Reaches, Initial;
    var k := g.logsize - 2;
    s, steps, t := AllAtOnce(g, 2, k);
    steps, t := LogNext(g, s, steps, t, k, 0, ZERO);
    steps, t := LogNext(g, s, steps, t, k + 1, 1, ZERO);
  }

  // ---- The gap between log_write's test and its record ---------------------------------------

  // lh.block lists more blocks than the log holds.
  ghost predicate OverrunReachable(g: Geometry) {
    exists s: State, steps: seq<Step>, t: State ::
      Initial(g, s.disk, s) && Reaches(g, s, steps, t) && |t.lh| > g.size - 1
  }

  lemma NoOverrun(g: Geometry)
    requires g.size > g.logsize || g.size == 1 || g.size > g.nbuf
    ensures !OverrunReachable(g)
  {
    forall s: State, steps: seq<Step>, t: State | Initial(g, s.disk, s) && Reaches(g, s, steps, t)
      ensures |t.lh| <= g.size - 1
    {
      ListBounded(g, s, steps, t);
    }
  }

  const ONES: Block := seq(512, _ => 1)

  // m operations pass the test when the log has room for one block: the first r of them, each for a
  // block of its own.
  lemma {:induction false} PassTogether(g: Geometry, m: nat, k: nat, r: nat)
    returns (s: State, steps: seq<Step>, t: State)
    requires TwoFit(g) && m >= 2 && m * g.maxop <= g.logsize && k + m <= g.logsize
    requires k + 1 < g.size && k < g.nbuf && r <= m
    ensures Initial(g, s.disk, s) && Reaches(g, s, steps, t) && Filled(g, s, t, k)
    ensures t.outstanding == m && |t.slots| == m
    ensures forall p | r <= p < m :: HasLeft(g, t.slots[p])
    ensures forall p | 0 <= p < r :: t.slots[p].Busy? && t.slots[p].at == Inside(g.start + g.size + k + p)
  {
    hide Reaches, Initial;
    if r == 0 {
      s, steps, t := AllAtOnce(g, m, k);
    } else {
      s, steps, t := PassTogether(g, m, k, r - 1);
      steps, t := AddStep(g, s, steps, t, Check(r - 1, g.start + g.size + k + r - 1));
    }
  }

  // And then the first r of them record, which takes the list beyond the log.
  lemma {:induction false} RecordTogether(g: Geometry, m: nat, k: nat, r: nat)
    returns (s: State, steps: seq<Step>, t: State)
    requires TwoFit(g) && m >= 2 && m * g.maxop <= g.logsize && k + m <= g.logsize
    requires k + 1 < g.size && k + m <= g.nbuf && r <= m
    ensures Initial(g, s.disk, s) && Reaches(g, s, steps, t) && Filled(g, s, t, k + r)
    ensures t.outstanding == m && |t.slots| == m
    ensures forall p | 0 <= p < r :: t.slots[p].Busy? && t.slots[p].at.Outside?
    ensures forall p | r <= p < m :: t.slots[p].Busy? && t.slots[p].at == Inside(g.start + g.size + k + p)
    ensures r > 0 ==> var b := t.lh[k + r - 1]; b in t.dirty && t.dirty[b] == ONES
  {
    hide Reaches, Initial, SmallDisk;
    if r == 0 {
      s, steps, t := PassTogether(g, m, k, m);
    } else {
      s, steps, t := RecordTogether(g, m, k, r - 1);
      steps, t := RecordNext(g, s, steps, t, k + r - 1, r - 1, ONES);
    }
  }

  // The last operation to end, after all the others, starts the commit.
  lemma {:induction false} EndAll(g: Geometry, s: State, steps: seq<Step>, t: State, m: nat)
    returns (longer: seq<Step>, u: State)
    requires Reaches(g, s, steps, t) && t.phase.Running? && 1 <= m <= |t.slots| && t.outstanding == m
    requires forall p | 0 <= p < m :: t.slots[p].Busy? && t.slots[p].at.Outside?
    ensures Reaches(g, s, longer, u)
    ensures u == t.(slots := u.slots, outstanding := 0, phase := Committing(t.disk, 0))
    decreases m
  {
    hide Reaches;
    longer, u := AddStep(g, s, steps, t, End(m - 1));
    if m > 1 {
      longer, u := EndAll(g, s, longer, u, m - 1);
    }
  }

  // Two operations pass the test when the log has room for one block, and both record.
  lemma Overrun(g: Geometry) returns (s: State, steps: seq<Step>, t: State)
    requires TwoFit(g) && 2 <= g.size <= g.logsize && g.size <= g.nbuf
    ensures Initial(g, s.disk, s) && Reaches(g, s, steps, t) && Filled(g, s, t, g.size)
    ensures t.outstanding == 2 == |t.slots|
    ensures forall p | 0 <= p < 2 :: t.slots[p].Busy? && t.slots[p].at.Outside?
    ensures var b := t.lh[g.size - 1]; b in t.dirty && t.dirty[b] == ONES
  {
    hide Reaches, Initial, SmallDisk, Filled;
    s, steps, t := RecordTogether(g, 2, g.size - 2, 2);
  }

  // lh.n can outgrow the log exactly for logs of 2 to LOGSIZE blocks, given the buffers for it.
  lemma OverrunReachableIff(g: Geometry)
    requires TwoFit(g)
    ensures OverrunReachable(g) <==> 2 <= g.size <= g.logsize && g.size <= g.nbuf
  {
    if 2 <= g.size <= g.logsize && g.size <= g.nbuf {
      var s, steps, t := Overrun(g);
      assert |t.lh| > g.size - 1;
    } else {
      NoOverrun(g);
    }
  }

  // The commit of such a list, where there is a buffer to begin it with, writes the block behind the
  // log, which is somebody's home block, before the header; by then blocks in the log are all that
  // has changed otherwise.
  lemma OverrunLeavesLog(g: Geometry, d: Disk, dirty: map<nat, Block>, bs: seq<nat>)
    requires GeometryOk(g, |d|) && Copyable(g, |d|, bs) && Listed(g, |d|, bs) && |bs| > g.size - 1
    ensures var i := g.size; var r := CommitDisk(g, d, dirty, bs, i);
      && i < CommitPoint(bs) && i <= CommitLength(bs)
      && !InLog(g, g.start + i) && r[g.start + i] == Bread(d, dirty, bs[i - 1])
      && forall a: nat | a < |d| && !InLog(g, a) && a != g.start + i :: r[a] == d[a]
  {
    CopiedBefore(g, d, dirty, bs, g.size - 1);
  }

  // While the log lasts, write_log reads what was there before.
  lemma {:induction false} CopiedBefore(g: Geometry, d: Disk, dirty: map<nat, Block>, bs: seq<nat>, k: nat)
    requires GeometryOk(g, |d|) && Copyable(g, |d|, bs) && Listed(g, |d|, bs) && k <= |bs| && k < g.size
    ensures HomeEq(g, LogCopied(g, d, dirty, bs, k), d)
    ensures forall b: nat | b < |d| && !InLog(g, b) ::
              Bread(LogCopied(g, d, dirty, bs, k), Unpinned(g, dirty, k), b) == Bread(d, dirty, b)
  {
    if k > 0 {
      CopiedBefore(g, d, dirty, bs, k - 1);
    }
  }

  lemma CopiedLast(g: Geometry, d: Disk, dirty: map<nat, Block>, bs: seq<nat>)
    requires GeometryOk(g, |d|) && Copyable(g, |d|, bs) && Listed(g, |d|, bs) && |bs| == g.size >= 1
    ensures CommitDisk(g, d, dirty, bs, g.size)[g.start + g.size] == Bread(d, dirty, bs[g.size - 1])
  {
    OverrunLeavesLog(g, d, dirty, bs);
  }

  // The first n block writes of a commit.
  lemma {:induction false} CommitWrites(g: Geometry, s: State, steps: seq<Step>, t: State, n: nat)
    returns (longer: seq<Step>, u: State)
    requires Reaches(g, s, steps, t) && t.phase == Committing(t.disk, 0) && n <= |t.lh|
    requires GeometryOk(g, |t.disk|) && Copyable(g, |t.disk|, t.lh) && |t.lh| < g.nbuf
    ensures Reaches(g, s, longer, u) && n <= CommitLength(t.lh)
    ensures u == t.(disk := CommitDisk(g, t.disk, t.dirty, t.lh, n), phase := Committing(t.disk, n))
  {
    hide Reaches;
    if n == 0 {
      longer, u := steps, t;
    } else {
      longer, u := CommitWrites(g, s, steps, t, n - 1);
      longer, u := AddStep(g, s, longer, u, CommitWrite);
    }
  }

  // The disk of state t, recovered, holds exactly the committed writes.
  ghost predicate Consistent(g: Geometry, base: Disk, t: State) {
    && HeaderOk(g, t.disk) && t.durable <= |t.done|
    && HomeEq(g, Recovered(g, t.disk), Replay(base, t.done[..t.durable]))
    && Atomic(t.done, t.durable)
  }

  ghost predicate CrashSafe(g: Geometry) {
    forall s: State, steps: seq<Step>, t: State | Initial(g, s.disk, s) && Reaches(g, s, steps, t) ::
      Consistent(g, Recovered(g, s.disk), t)
  }

  // Such a list is committed up to the write behind the log, and then the machine stops.
  lemma Torn(g: Geometry) returns (s: State, steps: seq<Step>, t: State)
    requires TwoFit(g) && 2 <= g.size <= g.logsize && g.size < g.nbuf
    ensures Initial(g, s.disk, s) && Reaches(g, s, steps, t)
    ensures s.disk == SmallDisk(g) && t.durable == 0
    ensures g.start + g.size < |t.disk| == |s.disk| && t.disk[g.start + g.size] == ONES
    ensures t.disk[g.start] == ZERO
  {
    hide Reaches, Initial;
    s, steps, t := Overrun(g);
    steps, t := EndAll(g, s, steps, t, 2);
    ghost var c := t;
    steps, t := CommitWrites(g, s, steps, t, g.size);
    CopiedHead(g, c.disk, c.dirty, c.lh, g.size);
    CopiedLast(g, c.disk, c.dirty, c.lh);
  }

  lemma {:induction false} CopiedHead(g: Geometry, d: Disk, dirty: map<nat, Block>, bs: seq<nat>, k: nat)
    requires GeometryOk(g, |d|) && Copyable(g, |d|, bs) && k <= |bs|
    ensures LogCopied(g, d, dirty, bs, k)[g.start] == d[g.start]
  {
    if k > 0 {
      CopiedHead(g, d, dirty, bs, k - 1);
    }
  }

  // Crash safety holds in every reachable state exactly if the log has room for every list that can
  // be committed, or for no block: with LOGSIZE 30 and NBUF 30, for 30 blocks, which is what mkfs.c
  // makes, or more, or 1.
  lemma CrashSafeIff(g: Geometry)
    requires TwoFit(g)
    ensures CrashSafe(g) <==> g.size > g.logsize || g.size == 1 || g.size >= g.nbuf
  {
    if Fits(g) {
      forall s: State, steps: seq<Step>, t: State | Initial(g, s.disk, s) && Reaches(g, s, steps, t)
        ensures Consistent(g, Recovered(g, s.disk), t)
      {
        CrashAtomicity(g, s.disk, s, steps, t);
      }
    } else {
      var s, steps, t := Torn(g);
      NotConsistent(g, t);
      EmptyRecovers(g);
    }
  }

  lemma NotConsistent(g: Geometry, t: State)
    requires TwoFit(g) && t.durable == 0 && |t.disk| == g.start + g.size + g.logsize
    requires t.disk[g.start] == ZERO && t.disk[g.start + g.size] == ONES
    ensures !Consistent(g, SmallDisk(g), t)
  {
    ZeroWords(0);
    if HeaderOk(g, t.disk) {
      assert Logged(g, t.disk) == [];
      assert Recovered(g, t.disk) == t.disk;
      assert t.done[..0] == [];
      assert ONES[0] != ZERO[0];
    }
  }

  // ---- A transaction that takes up the whole cache --------------------------------------------

  // The commit is due and write_log has no buffer for its first log block: bget panics.
  ghost predicate NoBufferReachable(g: Geometry) {
    exists s: State, steps: seq<Step>, t: State ::
      Initial(g, s.disk, s) && Reaches(g, s, steps, t)
      && t.phase == Committing(t.disk, 0) && t.lh != [] && |t.lh| >= g.nbuf
  }

  // How many operations can have blocks left at the same time.
  function Together(g: Geometry): nat
    requires g.maxop >= 1
  {
    g.logsize / g.maxop
  }

  // NBUF blocks are logged, more than the log holds or as many, and the last operation ends.
  lemma FullByOverrun(g: Geometry) returns (s: State, steps: seq<Step>, t: State)
    requires TwoFit(g) && 2 <= g.size <= g.nbuf <= g.logsize && g.nbuf <= g.size - 2 + Together(g)
    ensures Initial(g, s.disk, s) && Reaches(g, s, steps, t) && t.phase == Committing(t.disk, 0) && |t.lh| == g.nbuf
  {
    hide Reaches, Initial, SmallDisk;
    var m := g.nbuf - g.size + 2;
    FewerTimes(m, Together(g), g.maxop);
    s, steps, t := RecordTogether(g, m, g.size - 2, m);
    steps, t := EndAll(g, s, steps, t, m);
  }

  // NBUF blocks are logged, fewer than the log holds, and the last operation ends.
  lemma FullWithin(g: Geometry) returns (s: State, steps: seq<Step>, t: State)
    requires TwoFit(g) && 1 <= g.nbuf <= g.logsize && g.nbuf < g.size
    ensures Initial(g, s.disk, s) && Reaches(g, s, steps, t) && t.phase == Committing(t.disk, 0) && |t.lh| == g.nbuf
  {
    hide Reaches, Initial, SmallDisk, Reserved, TwoFit;
    var k := if g.nbuf + 2 <= g.logsize then g.nbuf else g.logsize - 2;
    TwoFitFacts(g);
    s, steps, t := AllAtOnce(g, 2, k);
    if k < g.nbuf {
      steps, t := LogNext(g, s, steps, t, k, 0, ZERO);
    }
    if k + 1 < g.nbuf {
      steps, t := LogNext(g, s, steps, t, k + 1, 1, ZERO);
    }
    steps, t := EndAll(g, s, steps, t, 2);
  }

  lemma TwoFitFacts(g: Geometry)
    requires TwoFit(g)
    ensures 1 <= g.maxop && 2 * g.maxop <= g.logsize && 1 <= g.size
  {
  }

  function InsideCount(slots: seq<Slot>): nat {
    if slots == [] then 0 else InsideCount(slots[1..]) + if slots[0].Busy? && slots[0].at.Inside? then 1 else 0
  }

  lemma {:induction false} UpdateInside(slots: seq<Slot>, p: nat, x: Slot)
    requires p < |slots|
    ensures InsideCount(slots[p := x]) == InsideCount(slots) - InsideCount([slots[p]]) + InsideCount([x])
  {
    if p == 0 {
      assert slots[p := x][1..] == slots[1..];
    } else {
      assert slots[p := x][1..] == slots[1..][p - 1 := x];
      UpdateInside(slots[1..], p - 1, x);
    }
  }

  lemma {:induction false} InsideAreBusy(slots: seq<Slot>)
    ensures InsideCount(slots) <= BusyCount(slots)
    ensures (forall p | 0 <= p < |slots| :: slots[p].Idle?) ==> InsideCount(slots) == 0
  {
    if slots != [] {
      InsideAreBusy(slots[1..]);
    }
  }

  // Operations can outgrow the log only by those that are in log_write at the same time.
  ghost predicate Crowd(g: Geometry, s: State)
    requires g.maxop >= 1
  {
    && Reservation(g, s) && s.outstanding * g.maxop <= g.logsize
    && |s.lh| + InsideCount(s.slots) <= g.size - 2 + Together(g)
  }

  lemma NoMoreThanTogether(g: Geometry, n: nat)
    requires g.maxop >= 1 && n * g.maxop <= g.logsize
    ensures n <= Together(g)
  {
    if n > Together(g) {
      FewerTimes(Together(g) + 1, n, g.maxop);
    }
  }

  lemma StepKeepsCrowd(g: Geometry, s: State, step: Step)
    requires g.maxop >= 1 && g.size >= 2 && Crowd(g, s) && Enabled(g, s, step)
    ensures Crowd(g, Apply(g, s, step))
  {
    hide Reservation, CommitDisk, RecoverDisk, HeaderOk, Copyable, Together;
    StepKeepsReservation(g, s, step);
    match step
    case Begin(p) =>
      UpdateInside(s.slots, p, Busy(s.nextOp, {}, Outside));
    case Check(p, b) => CheckKeepsCrowd(g, s, p, b);
    case Record(p, data) =>
      UpdateInside(s.slots, p, Apply(g, s, step).slots[p]);
    case End(p) =>
      UpdateInside(s.slots, p, Idle);
      FewerTimes(s.outstanding - 1, s.outstanding, g.maxop);
    case Crash => InsideAreBusy(Apply(g, s, step).slots);
    case _ =>
  }

  lemma CheckKeepsCrowd(g: Geometry, s: State, p: nat, b: nat)
    requires g.maxop >= 1 && Crowd(g, s) && Enabled(g, s, Check(p, b))
    ensures var t := Apply(g, s, Check(p, b)); |t.lh| + InsideCount(t.slots) <= g.size - 2 + Together(g)
  {
    var t := Apply(g, s, Check(p, b));
    UpdateSlot(g, s.slots, p, s.slots[p].(at := Inside(b)));
    InsideAreBusy(t.slots);
    NoMoreThanTogether(g, s.outstanding);
  }

  lemma {:induction false} RunKeepsCrowd(g: Geometry, s: State, steps: seq<Step>, t: State)
    requires g.maxop >= 1 && g.size >= 2 && Crowd(g, s) && Reaches(g, s, steps, t)
    ensures Crowd(g, t)
    decreases |steps|
  {
    hide Crowd, Enabled, Apply;
    if steps != [] {
      StepKeepsCrowd(g, s, steps[0]);
      RunKeepsCrowd(g, Apply(g, s, steps[0]), steps[1..], t);
    }
  }

  // The list outgrows the log by less than the number of operations that fit in it together.
  lemma OutgrownByFew(g: Geometry, s: State, steps: seq<Step>, t: State)
    requires g.maxop >= 1 && g.size >= 2 && Initial(g, s.disk, s) && Reaches(g, s, steps, t)
    ensures |t.lh| <= g.size - 2 + Together(g)
  {
    InitialBounded(g, s.disk, s);
    InsideAreBusy(s.slots);
    RunKeepsCrowd(g, s, steps, t);
  }

  // Some transaction cannot even begin its commit exactly if the list can get as long as the cache is
  // large: by the header, and by the log with what can outgrow it. LOGSIZE and NBUF are both 30, and
  // three operations fit together, so this is so for 29 blocks and more.
  lemma NoBufferIff(g: Geometry)
    requires TwoFit(g)
    ensures NoBufferReachable(g) <==> 1 <= g.nbuf <= g.logsize && 2 <= g.size && g.nbuf <= g.size - 2 + Together(g)
  {
    if 1 <= g.nbuf <= g.logsize && 2 <= g.size && g.nbuf <= g.size - 2 + Together(g) {
      if g.nbuf >= g.size {
        var s, steps, t := FullByOverrun(g);
        assert t.lh != [];
      } else {
        var s, steps, t := FullWithin(g);
        assert t.lh != [];
      }
    } else {
      forall s: State, steps: seq<Step>, t: State | Initial(g, s.disk, s) && Reaches(g, s, steps, t)
        ensures t.lh == [] || |t.lh| < g.nbuf
      {
        ListBounded(g, s, steps, t);
        if g.size >= 2 {
          OutgrownByFew(g, s, steps, t);
        }
      }
    }
  }
}
