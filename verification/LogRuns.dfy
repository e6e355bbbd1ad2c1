/**
 The log protocol as a state machine whose steps are the critical sections of begin_op,
 log_write and end_op, the single block writes of commit and of recovery, and crashes.
 Any process may step at any time, and a crash may strike between any two block writes,
 including those of recovery itself.
 */
module LogRuns {
  import opened Common
  import opened LogFormat
  import opened LogPlan

  /** One process: outside a file system call, or inside one that added `used` blocks to the log. */
  datatype Op = Idle | Active(used: nat)

  /** `base` is the disk on which the phase began; `done` counts its block writes so far. */
  datatype Phase =
    | Recovering(base: Disk, done: nat)  // recover_from_log
    | Serving                            // log.committing == 0
    | Committing(base: Disk, done: nat)  // commit
    | Cleared                            // commit returned, end_op has yet to clear log.committing

  /** `view` is what a read through the buffer cache returns; a crash loses it. */
  datatype Sys = Sys(
    start: nat,
    disk: Disk,
    view: Disk,
    targets: seq<int>,
    ops: seq<Op>,
    outstanding: int,
    phase: Phase,
    panicked: bool)

  datatype Step =
    | Begin(p: nat)
    | LogWrite(p: nat, b: nat, data: Block)
    | End(p: nat)
    | WriteBlock
    | FinishCommit
    | Crash

  predicate CommitRunning(s: Sys)
  {
    s.phase.Committing? || s.phase.Cleared?
  }

  /** What a file system call owes the log: it calls log_write only while it has budget left. */
  predicate KeepsBudget(s: Sys, step: Step)
  {
    step.LogWrite? && step.p < |s.ops| && s.ops[step.p].Active? ==> s.ops[step.p].used < MAXOPBLOCKS
  }

  /** When the code lets a step happen. */
  ghost predicate Enabled(s: Sys, step: Step)
  {
    match step
    case Begin(p) =>
      && !s.phase.Recovering?
      && p < |s.ops| && s.ops[p].Idle?
      && !CommitRunning(s)
      && |s.targets| + (s.outstanding + 1) * MAXOPBLOCKS <= LOGBLOCKS
    case LogWrite(p, b, data) =>
      && p < |s.ops| && s.ops[p].Active?
      && IsHome(|s.view|, s.start, b)
    case End(p) =>
      p < |s.ops| && s.ops[p].Active?
    case WriteBlock =>
      Writing(s) && s.phase.done < |Plan(s)| && Plan(s)[s.phase.done].at < |s.disk|
    case FinishCommit =>
      s.phase.Cleared?
    case Crash =>
      s.start < |s.disk|
  }

  /** The block writes of the running commit or recovery. */
  ghost function Plan(s: Sys): (ws: seq<Write>)
    requires Writing(s)
  {
    if s.phase.Recovering? then RecoveryWrites(s.phase.base, s.start)
    else CommitWrites(s.start, s.targets, Contents(s.view, s.targets), s.phase.base[s.start])
  }

  ghost predicate Writing(s: Sys)
  {
    || (s.phase.Recovering? && WellFormed(s.phase.base, s.start))
    || (s.phase.Committing? && Ready(s.phase.base, s.start, s.targets, s.view))
  }

  ghost function Do(s: Sys, step: Step): Sys
    requires Enabled(s, step)
  {
    match step
    case Begin(p) =>
      s.(ops := s.ops[p := Active(0)], outstanding := s.outstanding + 1)
    case LogWrite(p, b, data) =>
      if |s.targets| >= LOGBLOCKS || s.outstanding < 1 then
        s.(panicked := true)
      else if b in s.targets then
        s.(view := s.view[b := data])
      else
        s.(view := s.view[b := data], targets := s.targets + [b],
           ops := s.ops[p := Active(s.ops[p].used + 1)])
    case End(p) =>
      var s' := s.(ops := s.ops[p := Idle], outstanding := s.outstanding - 1);
      if CommitRunning(s) then s'.(panicked := true)
      else if s'.outstanding != 0 then s'
      else s'.(phase := if |s.targets| > 0 then Committing(s.disk, 0) else Cleared)
    case WriteBlock =>
      var d := Apply(s.disk, Plan(s)[s.phase.done]);
      if s.phase.done + 1 < |Plan(s)| then
        s.(disk := d, phase := s.phase.(done := s.phase.done + 1), view := if s.phase.Recovering? then d else s.view)
      else
        s.(disk := d, targets := [], phase := if s.phase.Recovering? then Serving else Cleared,
           view := if s.phase.Recovering? then d else s.view)
    case FinishCommit =>
      s.(phase := Serving)
    case Crash =>
      s.(view := s.disk, targets := Names(s.disk[s.start]),
         ops := seq(|s.ops|, i => Idle), outstanding := 0, phase := Recovering(s.disk, 0))
  }

  /** Power-on: recovery is about to run on some well-formed disk. */
  ghost predicate Init(s: Sys)
  {
    && WellFormed(s.disk, s.start)
    && s.view == s.disk
    && s.targets == Names(s.disk[s.start])
    && (forall i :: 0 <= i < |s.ops| ==> s.ops[i].Idle?)
    && s.outstanding == 0
    && s.phase == Recovering(s.disk, 0)
    && !s.panicked
  }

  function Count(ops: seq<Op>): (c: nat)
  {
    if ops == [] then 0 else (if ops[0].Active? then 1 else 0) + Count(ops[1..])
  }

  /** Log space promised to running operations and not used yet. */
  function Reserved(ops: seq<Op>): (r: int)
  {
    if ops == [] then 0
    else (if ops[0].Active? then MAXOPBLOCKS - ops[0].used else 0) + Reserved(ops[1..])
  }

  predicate WithinBudget(ops: seq<Op>)
  {
    forall i :: 0 <= i < |ops| && ops[i].Active? ==> ops[i].used <= MAXOPBLOCKS
  }

  lemma {:induction false} CountUpdate(ops: seq<Op>, p: nat, op: Op)
    requires p < |ops|
    ensures Count(ops[p := op]) == Count(ops) - (if ops[p].Active? then 1 else 0) + (if op.Active? then 1 else 0)
    ensures Reserved(ops[p := op]) == Reserved(ops)
      - (if ops[p].Active? then MAXOPBLOCKS - ops[p].used else 0)
      + (if op.Active? then MAXOPBLOCKS - op.used else 0)
    decreases |ops|
  {
    if p == 0 {
      assert ops[p := op][1..] == ops[1..];
    } else {
      CountUpdate(ops[1..], p - 1, op);
      assert ops[p := op][1..] == ops[1..][p - 1 := op];
    }
  }

  lemma {:induction false} AllIdle(ops: seq<Op>)
    requires forall i :: 0 <= i < |ops| ==> ops[i].Idle?
    ensures Count(ops) == 0 && Reserved(ops) == 0
    decreases |ops|
  {
    if ops != [] {
      AllIdle(ops[1..]);
    }
  }

  lemma {:induction false} NoneActive(ops: seq<Op>)
    requires Count(ops) == 0
    ensures forall i :: 0 <= i < |ops| ==> ops[i].Idle?
    ensures Reserved(ops) == 0
    decreases |ops|
  {
    if ops != [] {
      NoneActive(ops[1..]);
      forall i | 0 <= i < |ops| ensures ops[i].Idle? {
        if i > 0 {
          assert ops[i] == ops[1..][i - 1];
        }
      }
    }
  }

  /** Every running operation has room for its unused budget. */
  lemma {:induction false} ReservedCovers(ops: seq<Op>, p: nat)
    requires p < |ops| && ops[p].Active? && WithinBudget(ops)
    ensures Reserved(ops) >= MAXOPBLOCKS - ops[p].used
    ensures Count(ops) >= 1
    decreases |ops|
  {
    forall i | 0 <= i < |ops[1..]| && ops[1..][i].Active? ensures ops[1..][i].used <= MAXOPBLOCKS {
      assert ops[1..][i] == ops[i + 1];
    }
    ReservedNonNegative(ops[1..]);
    if p > 0 {
      ReservedCovers(ops[1..], p - 1);
    }
  }

  lemma {:induction false} ReservedNonNegative(ops: seq<Op>)
    requires WithinBudget(ops)
    ensures 0 <= Reserved(ops) <= MAXOPBLOCKS * Count(ops)
    decreases |ops|
  {
    if ops != [] {
      forall i | 0 <= i < |ops[1..]| && ops[1..][i].Active? ensures ops[1..][i].used <= MAXOPBLOCKS {
        assert ops[1..][i] == ops[i + 1];
      }
      ReservedNonNegative(ops[1..]);
    }
  }

  ghost predicate PhaseInv(s: Sys)
  {
    match s.phase
    case Serving =>
      Ready(s.disk, s.start, s.targets, s.view) && |s.targets| + Reserved(s.ops) <= LOGBLOCKS
    case Committing(base, done) =>
      && s.outstanding == 0 && s.targets != []
      && Ready(base, s.start, s.targets, s.view) && done < |Plan(s)|
      && InRange(base, Plan(s)) && s.disk == ApplyAll(base, Plan(s)[..done])
    case Cleared =>
      s.outstanding == 0 && s.targets == [] && Ready(s.disk, s.start, s.targets, s.view)
    case Recovering(base, done) =>
      && s.outstanding == 0 && WellFormed(base, s.start) && s.view == s.disk
      && s.targets == Names(base[s.start]) && done < |Plan(s)|
      && s.disk == ApplyAll(base, Plan(s)[..done])
  }

  /** What every reachable state satisfies. */
  ghost predicate Inv(s: Sys)
  {
    && !s.panicked
    && WithinBudget(s.ops)
    && s.outstanding == Count(s.ops)
    && PhaseInv(s)
  }

  lemma InitInv(s: Sys)
    requires Init(s)
    ensures Inv(s)
  {
    AllIdle(s.ops);
  }

  lemma BeginKeepsInv(s: Sys, p: nat)
    requires Inv(s) && Enabled(s, Begin(p))
    ensures Inv(Do(s, Begin(p)))
  {
    CountUpdate(s.ops, p, Active(0));
    ReservedNonNegative(s.ops);
  }

  lemma LogWriteKeepsInv(s: Sys, p: nat, b: nat, data: Block)
    requires Inv(s) && Enabled(s, LogWrite(p, b, data)) && KeepsBudget(s, LogWrite(p, b, data))
    ensures Inv(Do(s, LogWrite(p, b, data)))
  {
    ReservedCovers(s.ops, p);
    assert s.phase.Serving?;
    if b !in s.targets {
      CountUpdate(s.ops, p, Active(s.ops[p].used + 1));
    }
  }

  lemma EndKeepsInv(s: Sys, p: nat)
    requires Inv(s) && Enabled(s, End(p))
    ensures Inv(Do(s, End(p)))
  {
    hide Names, Header, CommitWrites, Contents, ApplyAll, Reserved, Count, Owed;
    ReservedCovers(s.ops, p);
    CountUpdate(s.ops, p, Idle);
    assert s.phase.Serving?;
    var s' := Do(s, End(p));
    if s'.phase.Committing? {
      CrashDuringCommit(s.disk, s.start, s.targets, s.view, Plan(s'), 0, 0);
      NoWrites(s.disk);
    }
  }

  lemma CommitWriteKeepsInv(s: Sys)
    requires Inv(s) && Enabled(s, WriteBlock) && s.phase.Committing?
    ensures Inv(Do(s, WriteBlock))
  {
    hide Count, Reserved, Names, Header, CommitWrites, Contents;
    var base, k := s.phase.base, s.phase.done;
    ApplyNext(base, Plan(s), k);
    if k + 1 == |Plan(s)| {
      assert Plan(s)[..k + 1] == Plan(s);
      forall b | IsHome(|base|, s.start, b)
        ensures ApplyAll(base, Plan(s))[b] == s.view[b] && Names(ApplyAll(base, Plan(s))[s.start]) == []
        ensures WellFormed(ApplyAll(base, Plan(s)), s.start)
      {
        CrashDuringCommit(base, s.start, s.targets, s.view, Plan(s), k + 1, b);
      }
      assert IsHome(|base|, s.start, 0);
    }
  }

  lemma RecoveryWriteKeepsInv(s: Sys)
    requires Inv(s) && Enabled(s, WriteBlock) && s.phase.Recovering?
    ensures Inv(Do(s, WriteBlock))
  {
    NoneActive(s.ops);
    hide Count, Reserved, Names, Header, RecoveryWrites;
    var base, k := s.phase.base, s.phase.done;
    ApplyNext(base, Plan(s), k);
    if k + 1 == |Plan(s)| {
      assert Plan(s)[..k + 1] == Plan(s);
      CrashDuringRecovery(base, s.start, k + 1, 0);
    }
  }

  lemma StepKeepsInv(s: Sys, step: Step)
    requires Inv(s) && Enabled(s, step) && KeepsBudget(s, step)
    ensures Inv(Do(s, step))
  {
    match step
    case Begin(p) => BeginKeepsInv(s, p);
    case LogWrite(p, b, data) => LogWriteKeepsInv(s, p, b, data);
    case End(p) => EndKeepsInv(s, p);
    case WriteBlock =>
      if s.phase.Committing? {
        CommitWriteKeepsInv(s);
      } else {
        RecoveryWriteKeepsInv(s);
      }
    case FinishCommit => NoneActive(s.ops);
    case Crash =>
      OwedNow(s, 0);
      AllIdle(Do(s, step).ops);
  }

  /**
   log_write tests for a full log before it looks for the block, so in a full log even a block
   that is already logged panics: this is why an operation must stop calling log_write once its
   budget is spent, and not merely stop adding blocks.
   */
  lemma LogWritePanicsWhenFull(s: Sys, p: nat, b: nat, data: Block)
    requires Inv(s) && Enabled(s, LogWrite(p, b, data))
    ensures Do(s, LogWrite(p, b, data)).panicked <==> |s.targets| == LOGBLOCKS
    ensures |s.targets| == LOGBLOCKS ==> s.ops[p].used == MAXOPBLOCKS
  {
    ReservedCovers(s.ops, p);
  }

  /** The write of the log header that makes a transaction durable. */
  predicate IsCommitPoint(s: Sys, step: Step)
  {
    step.WriteBlock? && s.phase.Committing? && s.phase.done == |s.targets|
  }

  /** What recovery owes in each phase. */
  lemma OwedNow(s: Sys, b: int)
    requires Inv(s)
    ensures WellFormed(s.disk, s.start)
    ensures IsHome(|s.disk|, s.start, b) ==>
      match s.phase
      case Recovering(base, done) =>
        WellFormed(base, s.start) && |base| == |s.disk| && Owed(s.disk, s.start, b) == Owed(base, s.start, b)
      case Committing(base, done) =>
        |base| == |s.disk| == |s.view| && Owed(s.disk, s.start, b) == if done <= |s.targets| then base[b] else s.view[b]
      case _ =>
        Owed(s.disk, s.start, b) == s.disk[b]
  {
    hide Count, Reserved, Header, CommitWrites, RecoveryWrites, Contents;
    var c := if IsHome(|s.disk|, s.start, b) then b else 0;
    match s.phase
    case Recovering(base, done) =>
      CrashDuringRecovery(base, s.start, done, c);
    case Committing(base, done) =>
      CrashDuringCommit(base, s.start, s.targets, s.view, Plan(s), done, c);
    case Serving =>
    case Cleared =>
  }

  lemma OwedAfterRecoveryWrite(s: Sys, b: int)
    requires Inv(s) && Enabled(s, WriteBlock) && s.phase.Recovering?
    ensures WellFormed(s.disk, s.start) && WellFormed(Do(s, WriteBlock).disk, s.start)
    ensures IsHome(|s.disk|, s.start, b) ==> Owed(Do(s, WriteBlock).disk, s.start, b) == Owed(s.disk, s.start, b)
  {
    hide Count, Reserved, Header, RecoveryWrites, Names, Owed;
    var base, k := s.phase.base, s.phase.done;
    var c := if IsHome(|s.disk|, s.start, b) then b else 0;
    ApplyNext(base, Plan(s), k);
    CrashDuringRecovery(base, s.start, k, c);
    CrashDuringRecovery(base, s.start, k + 1, c);
  }

  lemma OwedAfterCommitWrite(s: Sys, b: int, d: Disk, v: Disk)
    requires Inv(s) && Enabled(s, WriteBlock) && s.phase.Committing? && d == Do(s, WriteBlock).disk && v == s.view
    ensures WellFormed(s.disk, s.start) && WellFormed(d, s.start) && |v| == |s.disk| == |d|
    ensures IsHome(|d|, s.start, b) ==>
      Owed(d, s.start, b) == if s.phase.done == |s.targets| then v[b] else Owed(s.disk, s.start, b)
  {
    hide Count, Reserved, Header, CommitWrites, Contents, Names, Owed;
    var base, k, ws := s.phase.base, s.phase.done, Plan(s);
    var c := if IsHome(|s.disk|, s.start, b) then b else 0;
    ApplyNext(base, ws, k);
    CrashDuringCommit(base, s.start, s.targets, s.view, ws, k, c);
    CrashDuringCommit(base, s.start, s.targets, s.view, ws, k + 1, c);
  }

  /** No step other than the commit point changes what recovery owes. */
  lemma OwedAfterStep(s: Sys, step: Step, b: int)
    requires Inv(s) && Enabled(s, step) && KeepsBudget(s, step)
    ensures WellFormed(s.disk, s.start) && WellFormed(Do(s, step).disk, s.start)
    ensures IsHome(|s.disk|, s.start, b) ==>
      Owed(Do(s, step).disk, s.start, b) == if IsCommitPoint(s, step) then s.view[b] else Owed(s.disk, s.start, b)
  {
    hide Inv, Owed, Names, Header, Contents, CommitWrites, ApplyAll;
    OwedNow(s, b);
    if step.WriteBlock? && s.phase.Recovering? {
      OwedAfterRecoveryWrite(s, b);
    } else if step.WriteBlock? {
      OwedAfterCommitWrite(s, b, Do(s, step).disk, s.view);
    }
  }

  /** A run: the states passed through, one step between neighbours. */
  ghost predicate IsRun(run: seq<Sys>, steps: seq<Step>)
  {
    && |run| == |steps| + 1
    && Init(run[0])
    && forall i :: 0 <= i < |steps| ==>
         Enabled(run[i], steps[i]) && KeepsBudget(run[i], steps[i]) && run[i + 1] == Do(run[i], steps[i])
  }

  lemma StepKeepsSize(s: Sys, step: Step)
    requires Inv(s) && Enabled(s, step) && KeepsBudget(s, step)
    ensures Do(s, step).start == s.start && |Do(s, step).disk| == |s.disk|
  {
    hide Count, Reserved, Names, Header, CommitWrites, Contents, Owed;
  }

  lemma {:induction false} ReachableInv(run: seq<Sys>, steps: seq<Step>, i: nat)
    requires IsRun(run, steps) && i < |run|
    ensures Inv(run[i]) && run[i].start == run[0].start && |run[i].disk| == |run[0].disk|
  {
    hide Inv, Do, Enabled, KeepsBudget;
    if i == 0 {
      InitInv(run[0]);
    } else {
      ReachableInv(run, steps, i - 1);
      assert run[i - 1 + 1] == Do(run[i - 1], steps[i - 1]);
      StepKeepsInv(run[i - 1], steps[i - 1]);
      StepKeepsSize(run[i - 1], steps[i - 1]);
    }
  }

  /**
   No interleaving lets an operation run while a commit is in progress, no panic of log.c is
   reachable, the logged blocks stay distinct, and the log always has room for the unused
   budget of every running operation.
   */
  lemma ProtocolSafe(run: seq<Sys>, steps: seq<Step>, i: nat)
    requires IsRun(run, steps) && i < |run|
    ensures !run[i].panicked
    ensures CommitRunning(run[i]) ==> run[i].outstanding == 0 && forall p :: 0 <= p < |run[i].ops| ==> run[i].ops[p].Idle?
    ensures Distinct(run[i].targets)
    ensures |run[i].targets| + Reserved(run[i].ops) <= LOGBLOCKS
    ensures forall p :: 0 <= p < |run[i].ops| && run[i].ops[p].Active? && run[i].ops[p].used < MAXOPBLOCKS
              ==> |run[i].targets| < LOGBLOCKS
  {
    ReachableInv(run, steps, i);
    var s := run[i];
    if !s.phase.Serving? {
      NoneActive(s.ops);
    }
    forall p | 0 <= p < |s.ops| && s.ops[p].Active? && s.ops[p].used < MAXOPBLOCKS
      ensures |s.targets| < LOGBLOCKS
    {
      ReservedCovers(s.ops, p);
    }
  }

  /** The last commit point among the first `i` steps, or -1. */
  ghost function LastCommit(run: seq<Sys>, steps: seq<Step>, i: nat): (j: int)
    requires IsRun(run, steps) && i <= |steps|
    ensures -1 <= j < i
    ensures j >= 0 ==> IsCommitPoint(run[j], steps[j])
    ensures forall k :: j < k < i ==> !IsCommitPoint(run[k], steps[k])
  {
    if i == 0 then -1
    else if IsCommitPoint(run[i - 1], steps[i - 1]) then i - 1
    else LastCommit(run, steps, i - 1)
  }

  lemma {:induction false} OwedInRun(run: seq<Sys>, steps: seq<Step>, i: nat, b: int)
    requires IsRun(run, steps) && i < |run| && IsHome(|run[0].disk|, run[0].start, b)
    ensures run[i].start == run[0].start && |run[i].disk| == |run[0].disk|
    ensures WellFormed(run[i].disk, run[0].start) && WellFormed(run[0].disk, run[0].start)
    ensures var j := LastCommit(run, steps, i);
      && (j < 0 ==> Owed(run[i].disk, run[0].start, b) == Owed(run[0].disk, run[0].start, b))
      && (j >= 0 ==> |run[j].view| == |run[0].disk| && Owed(run[i].disk, run[0].start, b) == run[j].view[b])
    decreases i
  {
    ReachableInv(run, steps, i);
    OwedNow(run[i], b);
    if i > 0 {
      OwedInRun(run, steps, i - 1, b);
      ReachableInv(run, steps, i - 1);
      OwedAfterStep(run[i - 1], steps[i - 1], b);
      OwedNow(run[i - 1], b);
    }
  }

  /**
   Crash atomicity over whole runs.  Take any state of any run, with any number of crashes before it.
   A recovery started from its disk owes exactly the memory image at the last commit point, and at that
   point no operation was in progress; before the first commit it owes what the initial disk did.
   So a group of operations survives as a whole or not at all.
   */
  lemma CrashAtomicity(run: seq<Sys>, steps: seq<Step>, i: nat)
    requires IsRun(run, steps) && i < |run|
    ensures run[i].start == run[0].start && |run[i].disk| == |run[0].disk|
    ensures WellFormed(run[i].disk, run[i].start) && WellFormed(run[0].disk, run[i].start)
    ensures var j := LastCommit(run, steps, i);
      if j < 0 then
        forall b :: IsHome(|run[0].disk|, run[i].start, b) ==>
          Owed(run[i].disk, run[i].start, b) == Owed(run[0].disk, run[i].start, b)
      else
        && RecoversTo(run[i].disk, run[i].start, run[j].view)
        && run[j].outstanding == 0
        && forall p :: 0 <= p < |run[j].ops| ==> run[j].ops[p].Idle?
  {
    assert WellFormed(run[0].disk, run[0].start);
    var j := LastCommit(run, steps, i);
    if j >= 0 {
      ReachableInv(run, steps, j);
      NoneActive(run[j].ops);
    }
    hide Inv, IsRun, Owed, Names, LastCommit;
    OwedInRun(run, steps, i, 0);
    forall b | IsHome(|run[0].disk|, run[0].start, b)
      ensures j < 0 ==> Owed(run[i].disk, run[0].start, b) == Owed(run[0].disk, run[0].start, b)
      ensures j >= 0 ==> |run[j].view| == |run[0].disk| && Owed(run[i].disk, run[0].start, b) == run[j].view[b]
    {
      OwedInRun(run, steps, i, b);
    }
  }

  /** When recovery or a commit has finished, the home blocks themselves hold what was owed. */
  lemma QuietDiskIsCurrent(run: seq<Sys>, steps: seq<Step>, i: nat, b: int)
    requires IsRun(run, steps) && i < |run|
    requires run[i].phase.Serving? || run[i].phase.Cleared?
    requires IsHome(|run[i].disk|, run[i].start, b)
    ensures WellFormed(run[i].disk, run[i].start)
    ensures run[i].disk[b] == Owed(run[i].disk, run[i].start, b)
    ensures b !in run[i].targets ==> |run[i].view| == |run[i].disk| && run[i].view[b] == run[i].disk[b]
  {
    ReachableInv(run, steps, i);
  }

  // ---- a full log is reachable ----

  /** The k-th home block past the log. */
  function Past(start: nat, k: nat): nat
  {
    start + LOGBLOCKS + 1 + k
  }

  /** Blocks logged by operation p when k blocks were logged, ten by each operation in turn. */
  function Share(k: nat, p: nat): nat
  {
    if k <= p * MAXOPBLOCKS then 0 else if k - p * MAXOPBLOCKS < MAXOPBLOCKS then k - p * MAXOPBLOCKS else MAXOPBLOCKS
  }

  /** Three operations are running and have logged k blocks between them. */
  ghost predicate Filled(s: Sys, k: nat)
  {
    && s.phase.Serving? && !s.panicked && s.outstanding == 3 && |s.ops| >= 3 && Past(s.start, LOGBLOCKS) <= |s.view|
    && |s.targets| == k && (forall i :: 0 <= i < k ==> s.targets[i] == Past(s.start, i))
    && forall p :: 0 <= p < 3 ==> s.ops[p] == Active(Share(k, p))
  }

  lemma LogOneMore(s: Sys, k: nat, data: Block) returns (step: Step)
    requires Filled(s, k) && k < LOGBLOCKS
    ensures step.LogWrite? && Enabled(s, step) && KeepsBudget(s, step) && Filled(Do(s, step), k + 1)
  {
    step := LogWrite(k / MAXOPBLOCKS, Past(s.start, k), data);
  }

  lemma {:induction false} FillLog(run: seq<Sys>, steps: seq<Step>, k: nat, data: Block)
    returns (run': seq<Sys>, steps': seq<Step>)
    requires IsRun(run, steps) && k <= LOGBLOCKS && Filled(run[|steps|], k)
    ensures IsRun(run', steps') && run'[0] == run[0] && Filled(run'[|steps'|], LOGBLOCKS)
    decreases LOGBLOCKS - k
  {
    hide Do, Enabled, KeepsBudget, Filled, Init;
    if k == LOGBLOCKS {
      return run, steps;
    }
    var step := LogOneMore(run[|steps|], k, data);
    run', steps' := Extend(run, steps, step);
    run', steps' := FillLog(run', steps', k + 1, data);
  }

  lemma Extend(run: seq<Sys>, steps: seq<Step>, step: Step) returns (run': seq<Sys>, steps': seq<Step>)
    requires IsRun(run, steps) && Enabled(run[|steps|], step) && KeepsBudget(run[|steps|], step)
    ensures run' == run + [Do(run[|steps|], step)] && steps' == steps + [step] && IsRun(run', steps')
  {
    hide Do, Enabled, KeepsBudget, Init;
    run', steps' := run + [Do(run[|steps|], step)], steps + [step];
  }

  lemma ThreeBegun(s0: Sys)
    requires Init(s0) && Names(s0.disk[s0.start]) == [] && |s0.ops| >= 3 && Past(s0.start, LOGBLOCKS) <= |s0.disk|
    ensures Enabled(s0, WriteBlock)
    ensures var s1 := Do(s0, WriteBlock);
      && Enabled(s1, Begin(0)) && Enabled(Do(s1, Begin(0)), Begin(1))
      && Enabled(Do(Do(s1, Begin(0)), Begin(1)), Begin(2))
      && Filled(Do(Do(Do(s1, Begin(0)), Begin(1)), Begin(2)), 0)
  {
    assert |Plan(s0)| == 1;
  }

  /**
   From any power-on state with nothing to recover, three operations that keep their budget fill the
   log, and then log_write panics on a block that is in the log already.
   */
  lemma FullLogReachable(s0: Sys, data: Block) returns (run: seq<Sys>, steps: seq<Step>, b: nat)
    requires Init(s0) && Names(s0.disk[s0.start]) == [] && |s0.ops| >= 3 && Past(s0.start, LOGBLOCKS) <= |s0.disk|
    ensures IsRun(run, steps) && run[0] == s0
    ensures var s := run[|steps|];
      && |s.targets| == LOGBLOCKS && b in s.targets && !s.panicked
      && Enabled(s, LogWrite(0, b, data)) && Do(s, LogWrite(0, b, data)).panicked
  {
    hide Plan, Init;
    ThreeBegun(s0);
    run, steps := [s0], [];
    run, steps := Extend(run, steps, WriteBlock);
    run, steps := Extend(run, steps, Begin(0));
    run, steps := Extend(run, steps, Begin(1));
    run, steps := Extend(run, steps, Begin(2));
    run, steps := FillLog(run, steps, 0, data);
    b := Past(run[|steps|].start, 0);
    assert run[|steps|].targets[0] == b;
  }

  /** Such a power-on state: a blank disk. */
  lemma BlankDisk(blank: Block) returns (s0: Sys)
    requires blank == seq(WORDS, _ => 0)
    ensures Init(s0) && Names(s0.disk[s0.start]) == [] && |s0.ops| >= 3 && Past(s0.start, LOGBLOCKS) <= |s0.disk|
  {
    var d: Disk := seq(100, _ => blank);
    s0 := Sys(2, d, d, [], [Idle, Idle, Idle], 0, Recovering(d, 0), false);
  }
}
