/**
 kfork, kexit, reparent, kwait and kkill (proc.c), one step per lock operation or locked section,
 in every interleaving. p->lock is held across steps only by p itself.
 */
module WaitExit {

  const INIT: nat := 0
  const NOBODY: int := -1

  datatype RunState = UNUSED | USED | SLEEPING | RUNNABLE | RUNNING | ZOMBIE

  datatype Pc =
    | Vacant                             // no process in this slot
    | Elsewhere                          // user code, or kernel code outside this protocol
    // kexit
    | ExitReparent(i: nat)
    | ExitWakeInit(i: nat, j: nat)       // reparent's wakeup(initproc), after giving i away
    | ExitWakeParent(j: nat)
    | ExitOwn
    | ExitMark
    | ExitRelease
    | ExitSwitch
    | Dead
    // kwait
    | WaitScan(i: nat, kids: bool)
    | WaitRelease
    | SleepOwn
    | SleepRelease
    | SleepMark
    | SleepSwitch
    | Asleep
    | Resumed
    | Relock
    // kfork
    | ForkAcquire(np: nat)
    | ForkLink(np: nat)
    | ForkRelease(np: nat)
    | ForkLaunch(np: nat)

  datatype Proc = Proc(state: RunState, chan: int, parent: int, killed: bool, pc: Pc)

  /** The process table and the holder of wait_lock. */
  datatype Sys = Sys(procs: seq<Proc>, lock: int)

  datatype Step =
    | Move(p: nat)                       // the next step of whatever p is doing
    | CallExit(p: nat)
    | CallWait(p: nat)
    | CallFork(p: nat, np: nat)
    | CopyoutFails(p: nat)               // kwait found a zombie but cannot report it
    | Schedule(p: nat)
    | Kill(q: nat)
    | Other(p: nat, state: RunState, chan: int)   // sleeping, waking and running outside this protocol

  predicate HoldsWait(pc: Pc)
  {
    pc.ExitReparent? || pc.ExitWakeInit? || pc.ExitWakeParent? || pc.ExitOwn? || pc.ExitMark? || pc.ExitRelease?
    || pc.WaitScan? || pc.WaitRelease? || pc.SleepOwn? || pc.SleepRelease? || pc.ForkLink? || pc.ForkRelease?
  }

  predicate HoldsOwn(pc: Pc)
  {
    pc.ExitMark? || pc.ExitRelease? || pc.ExitSwitch? || pc.SleepRelease? || pc.SleepMark? || pc.SleepSwitch? || pc.Resumed?
  }

  function With(s: Sys, p: nat, x: Proc): Sys
    requires p < |s.procs|
  {
    s.(procs := s.procs[p := x])
  }

  function Goto(s: Sys, p: nat, pc: Pc): Sys
    requires p < |s.procs|
  {
    With(s, p, s.procs[p].(pc := pc))
  }

  function Woken(x: Proc, chan: int): Proc
  {
    if x.state == SLEEPING && x.chan == chan then x.(state := RUNNABLE) else x
  }

  /** One visit of wakeup(chan) by p to process j. */
  function Visit(s: Sys, p: nat, j: nat, chan: int): Sys
    requires p < |s.procs| && j < |s.procs|
  {
    if j == p then s else With(s, j, Woken(s.procs[j], chan))
  }

  // ---- when a step can be taken ----

  predicate CanMove(s: Sys, p: nat)
    requires p < |s.procs|
  {
    var n := |s.procs|;
    match s.procs[p].pc
    case ExitWakeInit(i, j) => j < n ==> j == p || !HoldsOwn(s.procs[j].pc)
    case ExitWakeParent(j) => j < n ==> j == p || !HoldsOwn(s.procs[j].pc)
    case WaitScan(i, kids) => i < n && s.procs[i].parent == p ==> !HoldsOwn(s.procs[i].pc)
    case Relock => s.lock == NOBODY
    case ForkAcquire(np) => s.lock == NOBODY
    case ForkLaunch(np) => np < n && !HoldsOwn(s.procs[np].pc)
    case Vacant => false
    case Elsewhere => false
    case Dead => false
    case Asleep => false
    case _ => true
  }

  predicate Enabled(s: Sys, step: Step)
  {
    match step
    case Move(p) => p < |s.procs| && CanMove(s, p)
    case CallExit(p) => p < |s.procs| && p != INIT && s.procs[p].pc.Elsewhere? && s.procs[p].state == RUNNING && s.lock == NOBODY
    case CallWait(p) => p < |s.procs| && s.procs[p].pc.Elsewhere? && s.procs[p].state == RUNNING && s.lock == NOBODY
    case CallFork(p, np) =>
      p < |s.procs| && np < |s.procs| && s.procs[p].pc.Elsewhere? && s.procs[p].state == RUNNING && s.procs[np].state == UNUSED
    case CopyoutFails(p) =>
      && p < |s.procs| && s.procs[p].pc.WaitScan? && s.procs[p].pc.i < |s.procs|
      && s.procs[s.procs[p].pc.i].parent == p && s.procs[s.procs[p].pc.i].state == ZOMBIE
      && !HoldsOwn(s.procs[s.procs[p].pc.i].pc)
    case Schedule(p) => p < |s.procs| && s.procs[p].pc.Asleep? && s.procs[p].state == RUNNABLE
    case Kill(q) => q < |s.procs| && !HoldsOwn(s.procs[q].pc)
    case Other(p, state, chan) =>
      && p < |s.procs| && s.procs[p].pc.Elsewhere? && s.procs[p].state in {RUNNING, RUNNABLE, SLEEPING}
      && state in {RUNNING, RUNNABLE, SLEEPING}
  }

  // ---- what it does ----

  function ExitStep(s: Sys, p: nat): Sys
    requires p < |s.procs|
  {
    var n := |s.procs|;
    match s.procs[p].pc
    case ExitReparent(i) =>
      if i >= n then Goto(s, p, ExitWakeParent(0))
      else if s.procs[i].parent == p then
        Goto(With(s, i, s.procs[i].(parent := INIT)), p, ExitWakeInit(i, 0))
      else Goto(s, p, ExitReparent(i + 1))
    case ExitWakeInit(i, j) =>
      if j >= n then Goto(s, p, ExitReparent(i + 1)) else Goto(Visit(s, p, j, INIT), p, ExitWakeInit(i, j + 1))
    case ExitWakeParent(j) =>
      if j >= n then Goto(s, p, ExitOwn) else Goto(Visit(s, p, j, s.procs[p].parent), p, ExitWakeParent(j + 1))
    case ExitOwn => Goto(s, p, ExitMark)
    case ExitMark => With(s, p, s.procs[p].(state := ZOMBIE, pc := ExitRelease))
    case ExitRelease => Goto(s, p, ExitSwitch).(lock := NOBODY)
    case ExitSwitch => Goto(s, p, Dead)
    case _ => s
  }

  /** freeproc */
  const FREED: Proc := Proc(UNUSED, NOBODY, NOBODY, false, Vacant)

  function WaitStep(s: Sys, p: nat): Sys
    requires p < |s.procs|
  {
    var n, x := |s.procs|, s.procs[p];
    match x.pc
    case WaitScan(i, kids) =>
      if i >= n then Goto(s, p, if !kids || x.killed then WaitRelease else SleepOwn)
      else if s.procs[i].parent != p then Goto(s, p, WaitScan(i + 1, kids))
      else if s.procs[i].state == ZOMBIE then Goto(With(s, i, FREED), p, WaitRelease)
      else Goto(s, p, WaitScan(i + 1, true))
    case WaitRelease => Goto(s, p, Elsewhere).(lock := NOBODY)
    case SleepOwn => Goto(s, p, SleepRelease)
    case SleepRelease => Goto(s, p, SleepMark).(lock := NOBODY)
    case SleepMark => With(s, p, x.(chan := p, state := SLEEPING, pc := SleepSwitch))
    case SleepSwitch => Goto(s, p, Asleep)
    case Resumed => With(s, p, x.(chan := NOBODY, pc := Relock))
    case Relock => Goto(s, p, WaitScan(0, false)).(lock := p)
    case _ => s
  }

  function ForkStep(s: Sys, p: nat): Sys
    requires p < |s.procs|
  {
    match s.procs[p].pc
    case ForkAcquire(np) => Goto(s, p, ForkLink(np)).(lock := p)
    case ForkLink(np) =>
      if np >= |s.procs| then s else Goto(With(s, np, s.procs[np].(parent := p)), p, ForkRelease(np))
    case ForkRelease(np) => Goto(s, p, ForkLaunch(np)).(lock := NOBODY)
    case ForkLaunch(np) =>
      if np >= |s.procs| then s
      else Goto(With(s, np, s.procs[np].(state := RUNNABLE, pc := Elsewhere)), p, Elsewhere)
    case _ => s
  }

  predicate InExit(pc: Pc)
  {
    pc.ExitReparent? || pc.ExitWakeInit? || pc.ExitWakeParent? || pc.ExitOwn? || pc.ExitMark? || pc.ExitRelease? || pc.ExitSwitch?
  }

  predicate InFork(pc: Pc)
  {
    pc.ForkAcquire? || pc.ForkLink? || pc.ForkRelease? || pc.ForkLaunch?
  }

  function Do(s: Sys, step: Step): Sys
    requires Enabled(s, step)
  {
    match step
    case Move(p) =>
      if InExit(s.procs[p].pc) then ExitStep(s, p) else if InFork(s.procs[p].pc) then ForkStep(s, p) else WaitStep(s, p)
    case CallExit(p) => Goto(s, p, ExitReparent(0)).(lock := p)
    case CallWait(p) => Goto(s, p, WaitScan(0, false)).(lock := p)
    case CallFork(p, np) =>
      Goto(With(s, np, Proc(USED, NOBODY, NOBODY, false, Vacant)), p, ForkAcquire(np))
    case CopyoutFails(p) => Goto(s, p, WaitRelease)
    case Schedule(p) => With(s, p, s.procs[p].(state := RUNNING, pc := Resumed))
    case Kill(q) =>
      With(s, q, s.procs[q].(killed := true, state := if s.procs[q].state == SLEEPING then RUNNABLE else s.procs[q].state))
    case Other(p, state, chan) => With(s, p, s.procs[p].(state := state, chan := chan))
  }

  // ---- the invariant ----

  /** Asleep in kwait, or past the point of no return on the way there. */
  predicate Dozing(x: Proc)
  {
    x.pc.SleepOwn? || x.pc.SleepRelease? || x.pc.SleepMark? || x.pc.SleepSwitch? || (x.pc.Asleep? && x.state == SLEEPING)
  }

  predicate ZombieOf(z: Proc, p: nat)
  {
    z.parent == p && z.state == ZOMBIE
  }

  ghost predicate LockFits(s: Sys)
  {
    NOBODY <= s.lock < |s.procs| && forall p :: 0 <= p < |s.procs| ==> (HoldsWait(s.procs[p].pc) <==> s.lock == p)
  }

  /** State, channel and program counter agree. */
  predicate Coherent(x: Proc, p: nat)
  {
    && (x.pc.Vacant? <==> x.state == UNUSED || x.state == USED)
    && (x.pc.ExitRelease? || x.pc.ExitSwitch? || x.pc.Dead? <==> x.state == ZOMBIE)
    && (x.pc.SleepSwitch? ==> x.state == SLEEPING && x.chan == p)
    && (x.pc.Asleep? ==> (x.state == SLEEPING && x.chan == p) || x.state == RUNNABLE)
    && (InExit(x.pc) ==> p != INIT)
  }

  ghost predicate AllCoherent(s: Sys)
  {
    forall p: nat :: p < |s.procs| ==> Coherent(s.procs[p], p)
  }

  /** A slot being forked into belongs to one forker. */
  ghost predicate Forking(s: Sys)
  {
    && (forall p: nat :: p < |s.procs| ==> Targets(s, p))
    && (forall p: nat, q: nat :: p < |s.procs| && q < |s.procs| && p != q ==> Apart(s.procs[p], s.procs[q]))
  }

  predicate Targets(s: Sys, p: nat)
    requires p < |s.procs|
  {
    InFork(s.procs[p].pc) ==> s.procs[p].pc.np < |s.procs| && s.procs[s.procs[p].pc.np].state == USED
  }

  predicate Apart(x: Proc, y: Proc)
  {
    InFork(x.pc) && InFork(y.pc) ==> x.pc.np != y.pc.np
  }

  /** What kwait has scanned holds no zombie child, all the way to the start of sleep. */
  predicate ScanClean(x: Proc, p: nat, z: Proc, i: nat)
  {
    (x.pc.WaitScan? && i < x.pc.i) || x.pc.SleepOwn? || x.pc.SleepRelease? ==> !ZombieOf(z, p)
  }

  ghost predicate AllScanClean(s: Sys)
  {
    forall p: nat, z: nat :: p < |s.procs| && z < |s.procs| ==> ScanClean(s.procs[p], p, s.procs[z], z)
  }

  /** Whom the wakeups of kexit have passed is not dozing. */
  predicate PassedAwake(x: Proc, q: nat, y: Proc)
  {
    && ((x.pc.ExitWakeParent? && q < x.pc.j) || x.pc.ExitOwn? || x.pc.ExitMark? ==> x.parent == q ==> !Dozing(y))
    && (x.pc.ExitWakeInit? && INIT < x.pc.j && q == INIT ==> !Dozing(y))
  }

  ghost predicate AllPassedAwake(s: Sys)
  {
    forall e: nat, q: nat :: e < |s.procs| && q < |s.procs| ==> PassedAwake(s.procs[e], q, s.procs[q])
  }

  /** The holder of wait_lock has yet to reach init with the wakeup for a child it gave away. */
  ghost predicate WakeComing(s: Sys, p: nat)
  {
    p == INIT && 0 <= s.lock < |s.procs| && s.procs[s.lock].pc.ExitWakeInit? && s.procs[s.lock].pc.j <= INIT
  }

  ghost predicate Watched(s: Sys)
  {
    forall p: nat, z: nat :: p < |s.procs| && z < |s.procs| && Dozing(s.procs[p]) && ZombieOf(s.procs[z], p) ==>
      WakeComing(s, p)
  }

  ghost predicate Basics(s: Sys)
  {
    LockFits(s) && AllCoherent(s) && Forking(s)
  }

  ghost predicate Inv(s: Sys)
  {
    Basics(s) && AllScanClean(s) && AllPassedAwake(s) && Watched(s)
  }

  /** What a step of kexit leaves alone. */
  lemma ExitEffect(s: Sys, p: nat, q: nat)
    requires p < |s.procs| && q < |s.procs| && InExit(s.procs[p].pc)
    ensures var t := ExitStep(s, p);
      && |t.procs| == |s.procs|
      && (q != p ==> t.procs[q].pc == s.procs[q].pc && (s.procs[q].state == USED ==> t.procs[q].state == USED))
      && (q == p ==> !InFork(t.procs[q].pc))
  {
  }

  lemma ExitKeepsLock(s: Sys, p: nat, q: nat)
    requires Basics(s) && p < |s.procs| && q < |s.procs| && CanMove(s, p) && InExit(s.procs[p].pc)
    ensures (HoldsWait(ExitStep(s, p).procs[q].pc) <==> ExitStep(s, p).lock == q)
    ensures NOBODY <= ExitStep(s, p).lock < |s.procs| && |ExitStep(s, p).procs| == |s.procs|
  {
  }

  lemma ForkKeepsLock(s: Sys, p: nat, q: nat)
    requires Basics(s) && p < |s.procs| && q < |s.procs| && CanMove(s, p) && InFork(s.procs[p].pc)
    ensures (HoldsWait(ForkStep(s, p).procs[q].pc) <==> ForkStep(s, p).lock == q)
    ensures NOBODY <= ForkStep(s, p).lock < |s.procs| && |ForkStep(s, p).procs| == |s.procs|
  {
    assert Targets(s, p) && Coherent(s.procs[p], p);
  }

  lemma WaitKeepsLock(s: Sys, p: nat, q: nat)
    requires Basics(s) && p < |s.procs| && q < |s.procs| && CanMove(s, p) && !InExit(s.procs[p].pc)
    requires !InFork(s.procs[p].pc)
    ensures (HoldsWait(WaitStep(s, p).procs[q].pc) <==> WaitStep(s, p).lock == q)
    ensures NOBODY <= WaitStep(s, p).lock < |s.procs| && |WaitStep(s, p).procs| == |s.procs|
  {
  }

  lemma CallKeepsLock(s: Sys, step: Step, q: nat)
    requires Basics(s) && Enabled(s, step) && !step.Move? && q < |s.procs|
    ensures (HoldsWait(Do(s, step).procs[q].pc) <==> Do(s, step).lock == q)
    ensures NOBODY <= Do(s, step).lock < |s.procs| && |Do(s, step).procs| == |s.procs|
  {
  }

  lemma ExitKeepsCoherent(s: Sys, p: nat, q: nat)
    requires Basics(s) && p < |s.procs| && q < |s.procs| && CanMove(s, p) && InExit(s.procs[p].pc)
    ensures |ExitStep(s, p).procs| == |s.procs| && Coherent(ExitStep(s, p).procs[q], q)
  {
  }

  lemma ForkKeepsCoherent(s: Sys, p: nat, q: nat)
    requires Basics(s) && p < |s.procs| && q < |s.procs| && CanMove(s, p) && InFork(s.procs[p].pc)
    ensures |ForkStep(s, p).procs| == |s.procs| && Coherent(ForkStep(s, p).procs[q], q)
  {
    assert Targets(s, p) && Coherent(s.procs[p], p);
  }

  lemma WaitKeepsCoherent(s: Sys, p: nat, q: nat)
    requires Basics(s) && p < |s.procs| && q < |s.procs| && CanMove(s, p) && !InExit(s.procs[p].pc)
    requires !InFork(s.procs[p].pc)
    ensures |WaitStep(s, p).procs| == |s.procs| && Coherent(WaitStep(s, p).procs[q], q)
  {
  }

  lemma CallKeepsCoherent(s: Sys, step: Step, q: nat)
    requires Basics(s) && Enabled(s, step) && !step.Move? && q < |s.procs|
    ensures |Do(s, step).procs| == |s.procs| && Coherent(Do(s, step).procs[q], q)
  {
  }

  lemma ExitKeepsTarget(s: Sys, p: nat, q: nat)
    requires Basics(s) && p < |s.procs| && q < |s.procs| && CanMove(s, p) && InExit(s.procs[p].pc)
    ensures |ExitStep(s, p).procs| == |s.procs| && Targets(ExitStep(s, p), q)
  {
    hide ExitStep, LockFits;
    ExitEffect(s, p, q);
    assert Targets(s, q) && Coherent(s.procs[p], p);
    if q != p && InFork(s.procs[q].pc) {
      ExitEffect(s, p, s.procs[q].pc.np);
      assert Coherent(s.procs[s.procs[q].pc.np], s.procs[q].pc.np);
    }
  }

  lemma ForkKeepsTarget(s: Sys, p: nat, q: nat)
    requires Basics(s) && p < |s.procs| && q < |s.procs| && CanMove(s, p) && InFork(s.procs[p].pc)
    ensures |ForkStep(s, p).procs| == |s.procs| && Targets(ForkStep(s, p), q)
  {
    assert Targets(s, q) && Coherent(s.procs[q], q);
    if InFork(s.procs[q].pc) {
      assert Coherent(s.procs[s.procs[q].pc.np], s.procs[q].pc.np);
    }
  }

  lemma WaitKeepsTarget(s: Sys, p: nat, q: nat)
    requires Basics(s) && p < |s.procs| && q < |s.procs| && CanMove(s, p) && !InExit(s.procs[p].pc)
    requires !InFork(s.procs[p].pc)
    ensures |WaitStep(s, p).procs| == |s.procs| && Targets(WaitStep(s, p), q)
  {
    assert Targets(s, q) && Coherent(s.procs[q], q);
    if InFork(s.procs[q].pc) {
      assert Coherent(s.procs[s.procs[q].pc.np], s.procs[q].pc.np);
    }
  }

  lemma CallKeepsTarget(s: Sys, step: Step, q: nat)
    requires Basics(s) && Enabled(s, step) && !step.Move? && q < |s.procs|
    ensures |Do(s, step).procs| == |s.procs| && Targets(Do(s, step), q)
  {
    assert Targets(s, q) && Coherent(s.procs[q], q);
    if InFork(s.procs[q].pc) {
      assert Coherent(s.procs[s.procs[q].pc.np], s.procs[q].pc.np);
    }
  }

  lemma ExitKeepsApart(s: Sys, p: nat, q: nat, r: nat)
    requires Basics(s) && p < |s.procs| && q < |s.procs| && r < |s.procs| && q != r && CanMove(s, p)
    requires InExit(s.procs[p].pc)
    ensures |ExitStep(s, p).procs| == |s.procs| && Apart(ExitStep(s, p).procs[q], ExitStep(s, p).procs[r])
  {
    hide ExitStep, LockFits, AllCoherent;
    ExitEffect(s, p, q);
    ExitEffect(s, p, r);
    assert Apart(s.procs[q], s.procs[r]);
  }

  lemma ForkKeepsApart(s: Sys, p: nat, q: nat, r: nat)
    requires Basics(s) && p < |s.procs| && q < |s.procs| && r < |s.procs| && q != r && CanMove(s, p)
    requires InFork(s.procs[p].pc)
    ensures |ForkStep(s, p).procs| == |s.procs| && Apart(ForkStep(s, p).procs[q], ForkStep(s, p).procs[r])
  {
    assert Targets(s, p) && Coherent(s.procs[p], p);
    assert Apart(s.procs[q], s.procs[r]) && Targets(s, q) && Targets(s, r);
  }

  lemma WaitKeepsApart(s: Sys, p: nat, q: nat, r: nat)
    requires Basics(s) && p < |s.procs| && q < |s.procs| && r < |s.procs| && q != r && CanMove(s, p)
    requires !InExit(s.procs[p].pc) && !InFork(s.procs[p].pc)
    ensures |WaitStep(s, p).procs| == |s.procs| && Apart(WaitStep(s, p).procs[q], WaitStep(s, p).procs[r])
  {
    assert Apart(s.procs[q], s.procs[r]) && Targets(s, q) && Targets(s, r);
  }

  lemma CallKeepsApart(s: Sys, step: Step, q: nat, r: nat)
    requires Basics(s) && Enabled(s, step) && !step.Move? && q < |s.procs| && r < |s.procs| && q != r
    ensures |Do(s, step).procs| == |s.procs| && Apart(Do(s, step).procs[q], Do(s, step).procs[r])
  {
    assert Apart(s.procs[q], s.procs[r]) && Targets(s, q) && Targets(s, r);
  }

  lemma ExitKeepsScan(s: Sys, p: nat, q: nat, z: nat)
    requires Basics(s) && AllScanClean(s) && p < |s.procs| && q < |s.procs| && z < |s.procs| && CanMove(s, p)
    requires InExit(s.procs[p].pc)
    ensures |ExitStep(s, p).procs| == |s.procs| && ScanClean(ExitStep(s, p).procs[q], q, ExitStep(s, p).procs[z], z)
  {
    assert ScanClean(s.procs[q], q, s.procs[z], z);
  }

  lemma ForkKeepsScan(s: Sys, p: nat, q: nat, z: nat)
    requires Basics(s) && AllScanClean(s) && p < |s.procs| && q < |s.procs| && z < |s.procs| && CanMove(s, p)
    requires InFork(s.procs[p].pc)
    ensures |ForkStep(s, p).procs| == |s.procs| && ScanClean(ForkStep(s, p).procs[q], q, ForkStep(s, p).procs[z], z)
  {
    assert Targets(s, p) && Coherent(s.procs[p], p);
    assert ScanClean(s.procs[q], q, s.procs[z], z);
  }

  lemma WaitKeepsScan(s: Sys, p: nat, q: nat, z: nat)
    requires Basics(s) && AllScanClean(s) && p < |s.procs| && q < |s.procs| && z < |s.procs| && CanMove(s, p)
    requires !InExit(s.procs[p].pc) && !InFork(s.procs[p].pc)
    ensures |WaitStep(s, p).procs| == |s.procs| && ScanClean(WaitStep(s, p).procs[q], q, WaitStep(s, p).procs[z], z)
  {
    assert ScanClean(s.procs[q], q, s.procs[z], z);
  }

  lemma CallKeepsScan(s: Sys, step: Step, q: nat, z: nat)
    requires Basics(s) && AllScanClean(s) && Enabled(s, step) && !step.Move? && q < |s.procs| && z < |s.procs|
    ensures |Do(s, step).procs| == |s.procs| && ScanClean(Do(s, step).procs[q], q, Do(s, step).procs[z], z)
  {
    assert ScanClean(s.procs[q], q, s.procs[z], z);
  }

  lemma ExitKeepsPassed(s: Sys, p: nat, e: nat, q: nat)
    requires Basics(s) && AllPassedAwake(s) && p < |s.procs| && e < |s.procs| && q < |s.procs| && CanMove(s, p)
    requires InExit(s.procs[p].pc)
    ensures |ExitStep(s, p).procs| == |s.procs| && PassedAwake(ExitStep(s, p).procs[e], q, ExitStep(s, p).procs[q])
  {
    hide ExitStep, PassedAwake;
    if s.procs[p].pc.ExitWakeParent? || s.procs[p].pc.ExitWakeInit? {
      WakingKeepsPassed(s, p, e, q);
    } else if s.procs[p].pc.ExitReparent? {
      ReparentKeepsPassed(s, p, e, q);
    } else {
      RestKeepsPassed(s, p, e, q);
    }
  }

  lemma WakingKeepsPassed(s: Sys, p: nat, e: nat, q: nat)
    requires Basics(s) && AllPassedAwake(s) && p < |s.procs| && e < |s.procs| && q < |s.procs| && CanMove(s, p)
    requires s.procs[p].pc.ExitWakeParent? || s.procs[p].pc.ExitWakeInit?
    ensures |ExitStep(s, p).procs| == |s.procs| && PassedAwake(ExitStep(s, p).procs[e], q, ExitStep(s, p).procs[q])
  {
    assert PassedAwake(s.procs[e], q, s.procs[q]);
  }

  lemma ReparentKeepsPassed(s: Sys, p: nat, e: nat, q: nat)
    requires Basics(s) && AllPassedAwake(s) && p < |s.procs| && e < |s.procs| && q < |s.procs| && CanMove(s, p)
    requires s.procs[p].pc.ExitReparent?
    ensures |ExitStep(s, p).procs| == |s.procs| && PassedAwake(ExitStep(s, p).procs[e], q, ExitStep(s, p).procs[q])
  {
    assert PassedAwake(s.procs[e], q, s.procs[q]);
  }

  lemma RestKeepsPassed(s: Sys, p: nat, e: nat, q: nat)
    requires Basics(s) && AllPassedAwake(s) && p < |s.procs| && e < |s.procs| && q < |s.procs| && CanMove(s, p)
    requires InExit(s.procs[p].pc) && !s.procs[p].pc.ExitWakeParent? && !s.procs[p].pc.ExitWakeInit? && !s.procs[p].pc.ExitReparent?
    ensures |ExitStep(s, p).procs| == |s.procs| && PassedAwake(ExitStep(s, p).procs[e], q, ExitStep(s, p).procs[q])
  {
    assert PassedAwake(s.procs[e], q, s.procs[q]);
  }

  lemma ForkKeepsPassed(s: Sys, p: nat, e: nat, q: nat)
    requires Basics(s) && AllPassedAwake(s) && p < |s.procs| && e < |s.procs| && q < |s.procs| && CanMove(s, p)
    requires InFork(s.procs[p].pc)
    ensures |ForkStep(s, p).procs| == |s.procs| && PassedAwake(ForkStep(s, p).procs[e], q, ForkStep(s, p).procs[q])
  {
    assert Targets(s, p) && Coherent(s.procs[p], p);
    assert PassedAwake(s.procs[e], q, s.procs[q]);
  }

  lemma WaitKeepsPassed(s: Sys, p: nat, e: nat, q: nat)
    requires Basics(s) && AllPassedAwake(s) && p < |s.procs| && e < |s.procs| && q < |s.procs| && CanMove(s, p)
    requires !InExit(s.procs[p].pc) && !InFork(s.procs[p].pc)
    ensures |WaitStep(s, p).procs| == |s.procs| && PassedAwake(WaitStep(s, p).procs[e], q, WaitStep(s, p).procs[q])
  {
    assert PassedAwake(s.procs[e], q, s.procs[q]);
  }

  lemma CallKeepsPassed(s: Sys, step: Step, e: nat, q: nat)
    requires Basics(s) && AllPassedAwake(s) && Enabled(s, step) && !step.Move? && e < |s.procs| && q < |s.procs|
    ensures |Do(s, step).procs| == |s.procs| && PassedAwake(Do(s, step).procs[e], q, Do(s, step).procs[q])
  {
    assert PassedAwake(s.procs[e], q, s.procs[q]);
  }

  lemma ReparentKeepsWatch(s: Sys, p: nat, q: nat, z: nat)
    requires Inv(s) && p < |s.procs| && q < |s.procs| && z < |s.procs| && CanMove(s, p) && InExit(s.procs[p].pc)
    requires s.procs[p].pc.ExitReparent?
    ensures |ExitStep(s, p).procs| == |s.procs|
    ensures Dozing(ExitStep(s, p).procs[q]) && ZombieOf(ExitStep(s, p).procs[z], q) ==> WakeComing(ExitStep(s, p), q)
  {
    assert PassedAwake(s.procs[p], q, s.procs[q]) && Coherent(s.procs[q], q) && Coherent(s.procs[p], p);
    assert (HoldsWait(s.procs[q].pc) <==> s.lock == q) && (HoldsWait(s.procs[p].pc) <==> s.lock == p);
    assert Dozing(s.procs[q]) && ZombieOf(s.procs[z], q) ==> WakeComing(s, q);
    hide AllScanClean, AllPassedAwake, AllCoherent, Forking, LockFits, Watched;
  }

  lemma WakeInitKeepsWatch(s: Sys, p: nat, q: nat, z: nat)
    requires Inv(s) && p < |s.procs| && q < |s.procs| && z < |s.procs| && CanMove(s, p) && InExit(s.procs[p].pc)
    requires s.procs[p].pc.ExitWakeInit?
    ensures |ExitStep(s, p).procs| == |s.procs|
    ensures Dozing(ExitStep(s, p).procs[q]) && ZombieOf(ExitStep(s, p).procs[z], q) ==> WakeComing(ExitStep(s, p), q)
  {
    assert PassedAwake(s.procs[p], q, s.procs[q]) && Coherent(s.procs[q], q) && Coherent(s.procs[p], p);
    assert (HoldsWait(s.procs[q].pc) <==> s.lock == q) && (HoldsWait(s.procs[p].pc) <==> s.lock == p);
    assert Dozing(s.procs[q]) && ZombieOf(s.procs[z], q) ==> WakeComing(s, q);
    hide AllScanClean, AllPassedAwake, AllCoherent, Forking, LockFits, Watched;
  }

  lemma RestKeepsWatch(s: Sys, p: nat, q: nat, z: nat)
    requires Inv(s) && p < |s.procs| && q < |s.procs| && z < |s.procs| && CanMove(s, p) && InExit(s.procs[p].pc)
    requires !s.procs[p].pc.ExitReparent? && !s.procs[p].pc.ExitWakeInit?
    ensures |ExitStep(s, p).procs| == |s.procs|
    ensures Dozing(ExitStep(s, p).procs[q]) && ZombieOf(ExitStep(s, p).procs[z], q) ==> WakeComing(ExitStep(s, p), q)
  {
    assert PassedAwake(s.procs[p], q, s.procs[q]) && Coherent(s.procs[q], q) && Coherent(s.procs[p], p);
    assert (HoldsWait(s.procs[q].pc) <==> s.lock == q) && (HoldsWait(s.procs[p].pc) <==> s.lock == p);
    assert Dozing(s.procs[q]) && ZombieOf(s.procs[z], q) ==> WakeComing(s, q);
    hide AllScanClean, AllPassedAwake, AllCoherent, Forking, LockFits, Watched;
  }

  lemma ExitKeepsWatch(s: Sys, p: nat, q: nat, z: nat)
    requires Inv(s) && p < |s.procs| && q < |s.procs| && z < |s.procs| && CanMove(s, p) && InExit(s.procs[p].pc)
    ensures |ExitStep(s, p).procs| == |s.procs|
    ensures Dozing(ExitStep(s, p).procs[q]) && ZombieOf(ExitStep(s, p).procs[z], q) ==> WakeComing(ExitStep(s, p), q)
  {
    hide ExitStep, Inv, Dozing, ZombieOf, WakeComing;
    if s.procs[p].pc.ExitReparent? {
      ReparentKeepsWatch(s, p, q, z);
    } else if s.procs[p].pc.ExitWakeInit? {
      WakeInitKeepsWatch(s, p, q, z);
    } else {
      RestKeepsWatch(s, p, q, z);
    }
  }

  lemma ForkKeepsWatch(s: Sys, p: nat, q: nat, z: nat)
    requires Inv(s) && p < |s.procs| && q < |s.procs| && z < |s.procs| && CanMove(s, p) && InFork(s.procs[p].pc)
    ensures |ForkStep(s, p).procs| == |s.procs|
    ensures (Dozing(ForkStep(s, p).procs[q]) && ZombieOf(ForkStep(s, p).procs[z], q) ==> WakeComing(ForkStep(s, p), q))
  {
    assert Targets(s, p) && Coherent(s.procs[p], p);
    assert Dozing(s.procs[q]) && ZombieOf(s.procs[z], q) ==> WakeComing(s, q);
  }

  lemma WaitKeepsWatch(s: Sys, p: nat, q: nat, z: nat)
    requires Inv(s) && p < |s.procs| && q < |s.procs| && z < |s.procs| && CanMove(s, p) && !InExit(s.procs[p].pc)
    requires !InFork(s.procs[p].pc)
    ensures |WaitStep(s, p).procs| == |s.procs|
    ensures (Dozing(WaitStep(s, p).procs[q]) && ZombieOf(WaitStep(s, p).procs[z], q) ==> WakeComing(WaitStep(s, p), q))
  {
    assert Dozing(s.procs[q]) && ZombieOf(s.procs[z], q) ==> WakeComing(s, q);
  }

  lemma CallKeepsWatch(s: Sys, step: Step, q: nat, z: nat)
    requires Inv(s) && Enabled(s, step) && !step.Move? && q < |s.procs| && z < |s.procs|
    ensures |Do(s, step).procs| == |s.procs|
    ensures (Dozing(Do(s, step).procs[q]) && ZombieOf(Do(s, step).procs[z], q) ==> WakeComing(Do(s, step), q))
  {
    assert Dozing(s.procs[q]) && ZombieOf(s.procs[z], q) ==> WakeComing(s, q);
  }

  lemma StepKeepsLock(s: Sys, step: Step, q: nat)
    requires Basics(s) && Enabled(s, step) && q < |s.procs|
    ensures (HoldsWait(Do(s, step).procs[q].pc) <==> Do(s, step).lock == q)
    ensures NOBODY <= Do(s, step).lock < |s.procs| && |Do(s, step).procs| == |s.procs|
  {
    hide LockFits, AllCoherent, Forking, AllScanClean, AllPassedAwake, Watched, ExitStep, WaitStep, ForkStep, CanMove;
    hide Coherent, Targets, Apart, ScanClean, PassedAwake, Dozing, ZombieOf, WakeComing, HoldsWait;
    if !step.Move? {
      CallKeepsLock(s, step, q);
    } else if InExit(s.procs[step.p].pc) {
      ExitKeepsLock(s, step.p, q);
    } else if InFork(s.procs[step.p].pc) {
      ForkKeepsLock(s, step.p, q);
    } else {
      WaitKeepsLock(s, step.p, q);
    }
  }

  lemma StepKeepsCoherent(s: Sys, step: Step, q: nat)
    requires Basics(s) && Enabled(s, step) && q < |s.procs|
    ensures |Do(s, step).procs| == |s.procs| && Coherent(Do(s, step).procs[q], q)
  {
    hide LockFits, AllCoherent, Forking, AllScanClean, AllPassedAwake, Watched, ExitStep, WaitStep, ForkStep, CanMove;
    hide Coherent, Targets, Apart, ScanClean, PassedAwake, Dozing, ZombieOf, WakeComing, HoldsWait;
    if !step.Move? {
      CallKeepsCoherent(s, step, q);
    } else if InExit(s.procs[step.p].pc) {
      ExitKeepsCoherent(s, step.p, q);
    } else if InFork(s.procs[step.p].pc) {
      ForkKeepsCoherent(s, step.p, q);
    } else {
      WaitKeepsCoherent(s, step.p, q);
    }
  }

  lemma StepKeepsTarget(s: Sys, step: Step, q: nat)
    requires Basics(s) && Enabled(s, step) && q < |s.procs|
    ensures |Do(s, step).procs| == |s.procs| && Targets(Do(s, step), q)
  {
    hide LockFits, AllCoherent, Forking, AllScanClean, AllPassedAwake, Watched, ExitStep, WaitStep, ForkStep, CanMove;
    hide Coherent, Targets, Apart, ScanClean, PassedAwake, Dozing, ZombieOf, WakeComing, HoldsWait;
    if !step.Move? {
      CallKeepsTarget(s, step, q);
    } else if InExit(s.procs[step.p].pc) {
      ExitKeepsTarget(s, step.p, q);
    } else if InFork(s.procs[step.p].pc) {
      ForkKeepsTarget(s, step.p, q);
    } else {
      WaitKeepsTarget(s, step.p, q);
    }
  }

  lemma StepKeepsApart(s: Sys, step: Step, q: nat, r: nat)
    requires Basics(s) && Enabled(s, step) && q < |s.procs| && r < |s.procs| && q != r
    ensures |Do(s, step).procs| == |s.procs| && Apart(Do(s, step).procs[q], Do(s, step).procs[r])
  {
    hide LockFits, AllCoherent, Forking, AllScanClean, AllPassedAwake, Watched, ExitStep, WaitStep, ForkStep, CanMove;
    hide Coherent, Targets, Apart, ScanClean, PassedAwake, Dozing, ZombieOf, WakeComing, HoldsWait;
    if !step.Move? {
      CallKeepsApart(s, step, q, r);
    } else if InExit(s.procs[step.p].pc) {
      ExitKeepsApart(s, step.p, q, r);
    } else if InFork(s.procs[step.p].pc) {
      ForkKeepsApart(s, step.p, q, r);
    } else {
      WaitKeepsApart(s, step.p, q, r);
    }
  }

  lemma StepKeepsScan(s: Sys, step: Step, q: nat, z: nat)
    requires Basics(s) && AllScanClean(s) && Enabled(s, step) && q < |s.procs| && z < |s.procs|
    ensures |Do(s, step).procs| == |s.procs| && ScanClean(Do(s, step).procs[q], q, Do(s, step).procs[z], z)
  {
    hide LockFits, AllCoherent, Forking, AllScanClean, AllPassedAwake, Watched, ExitStep, WaitStep, ForkStep, CanMove;
    hide Coherent, Targets, Apart, ScanClean, PassedAwake, Dozing, ZombieOf, WakeComing, HoldsWait;
    if !step.Move? {
      CallKeepsScan(s, step, q, z);
    } else if InExit(s.procs[step.p].pc) {
      ExitKeepsScan(s, step.p, q, z);
    } else if InFork(s.procs[step.p].pc) {
      ForkKeepsScan(s, step.p, q, z);
    } else {
      WaitKeepsScan(s, step.p, q, z);
    }
  }

  lemma StepKeepsPassed(s: Sys, step: Step, e: nat, q: nat)
    requires Basics(s) && AllPassedAwake(s) && Enabled(s, step) && e < |s.procs| && q < |s.procs|
    ensures |Do(s, step).procs| == |s.procs| && PassedAwake(Do(s, step).procs[e], q, Do(s, step).procs[q])
  {
    hide LockFits, AllCoherent, Forking, AllScanClean, AllPassedAwake, Watched, ExitStep, WaitStep, ForkStep, CanMove;
    hide Coherent, Targets, Apart, ScanClean, PassedAwake, Dozing, ZombieOf, WakeComing, HoldsWait;
    if !step.Move? {
      CallKeepsPassed(s, step, e, q);
    } else if InExit(s.procs[step.p].pc) {
      ExitKeepsPassed(s, step.p, e, q);
    } else if InFork(s.procs[step.p].pc) {
      ForkKeepsPassed(s, step.p, e, q);
    } else {
      WaitKeepsPassed(s, step.p, e, q);
    }
  }

  lemma StepKeepsWatch(s: Sys, step: Step, q: nat, z: nat)
    requires Inv(s) && Enabled(s, step) && q < |s.procs| && z < |s.procs|
    ensures |Do(s, step).procs| == |s.procs|
    ensures (Dozing(Do(s, step).procs[q]) && ZombieOf(Do(s, step).procs[z], q) ==> WakeComing(Do(s, step), q))
  {
    hide LockFits, AllCoherent, Forking, AllScanClean, AllPassedAwake, Watched, ExitStep, WaitStep, ForkStep, CanMove;
    hide Coherent, Targets, Apart, ScanClean, PassedAwake, Dozing, ZombieOf, WakeComing, HoldsWait;
    if !step.Move? {
      CallKeepsWatch(s, step, q, z);
    } else if InExit(s.procs[step.p].pc) {
      ExitKeepsWatch(s, step.p, q, z);
    } else if InFork(s.procs[step.p].pc) {
      ForkKeepsWatch(s, step.p, q, z);
    } else {
      WaitKeepsWatch(s, step.p, q, z);
    }
  }

  /** Every step keeps the protocol invariant. */
  lemma StepKeepsInv(s: Sys, step: Step)
    requires Inv(s) && Enabled(s, step)
    ensures Inv(Do(s, step))
  {
    hide Do, Enabled, Coherent, Targets, Apart, ScanClean, PassedAwake, Dozing, ZombieOf, WakeComing, HoldsWait;
    StepKeepsBasics(s, step);
    StepKeepsPairs(s, step);
  }

  lemma StepKeepsBasics(s: Sys, step: Step)
    requires Inv(s) && Enabled(s, step)
    ensures LockFits(Do(s, step)) && AllCoherent(Do(s, step)) && Forking(Do(s, step))
  {
    hide Do, Enabled, Coherent, Targets, Apart, ScanClean, PassedAwake, Dozing, ZombieOf, WakeComing, HoldsWait;
    var t := Do(s, step);
    StepKeepsSize(s, step);
    forall q: nat | q < |t.procs|
      ensures (HoldsWait(t.procs[q].pc) <==> t.lock == q) && Coherent(t.procs[q], q) && Targets(t, q)
    {
      StepKeepsLock(s, step, q);
      StepKeepsCoherent(s, step, q);
      StepKeepsTarget(s, step, q);
    }
    forall q: nat, r: nat | q < |t.procs| && r < |t.procs| && q != r ensures Apart(t.procs[q], t.procs[r]) {
      StepKeepsApart(s, step, q, r);
    }
  }

  lemma StepKeepsSize(s: Sys, step: Step)
    requires Inv(s) && Enabled(s, step)
    ensures |Do(s, step).procs| == |s.procs| && NOBODY <= Do(s, step).lock < |s.procs|
  {
    assert |s.procs| > 0;
    StepKeepsLock(s, step, 0);
  }

  lemma StepKeepsPairs(s: Sys, step: Step)
    requires Inv(s) && Enabled(s, step)
    ensures AllScanClean(Do(s, step)) && AllPassedAwake(Do(s, step)) && Watched(Do(s, step))
  {
    hide Do, Enabled, Coherent, Targets, Apart, ScanClean, PassedAwake, Dozing, ZombieOf, WakeComing, HoldsWait;
    var t := Do(s, step);
    StepKeepsSize(s, step);
    forall q: nat, z: nat | q < |t.procs| && z < |t.procs|
      ensures ScanClean(t.procs[q], q, t.procs[z], z) && PassedAwake(t.procs[q], z, t.procs[z])
      ensures Dozing(t.procs[q]) && ZombieOf(t.procs[z], q) ==> WakeComing(t, q)
    {
      StepKeepsScan(s, step, q, z);
      StepKeepsPassed(s, step, q, z);
      StepKeepsWatch(s, step, q, z);
    }
  }

  /** Only init exists. */
  ghost predicate Initial(s: Sys)
  {
    && |s.procs| > INIT && s.lock == NOBODY
    && s.procs[INIT].pc == Elsewhere && s.procs[INIT].state == RUNNABLE && s.procs[INIT].parent == NOBODY
    && forall p: nat :: p < |s.procs| && p != INIT ==> s.procs[p] == FREED
  }

  ghost predicate IsRun(run: seq<Sys>, steps: seq<Step>)
  {
    && |run| == |steps| + 1 && Initial(run[0])
    && forall i :: 0 <= i < |steps| ==> Enabled(run[i], steps[i]) && run[i + 1] == Do(run[i], steps[i])
  }

  lemma InitialInv(s: Sys)
    requires Initial(s)
    ensures Inv(s)
  {
  }

  lemma {:induction false} ReachableInv(run: seq<Sys>, steps: seq<Step>, i: nat)
    requires IsRun(run, steps) && i < |run|
    ensures Inv(run[i])
    decreases i
  {
    hide Do, Enabled, Inv, Initial;
    if i > 0 {
      ReachableInv(run, steps, i - 1);
      assert Enabled(run[i - 1], steps[i - 1]) && run[i - 1 + 1] == Do(run[i - 1], steps[i - 1]);
      StepKeepsInv(run[i - 1], steps[i - 1]);
    } else {
      InitialInv(run[0]);
    }
  }

  /**
   In every reachable state with wait_lock free, no process that sleeps in kwait, or is on its way
   there, has a zombie child, whether its own or given to init by reparent.
   */
  lemma NoSleepingParentOfZombie(run: seq<Sys>, steps: seq<Step>, i: nat, p: nat, z: nat)
    requires IsRun(run, steps) && i < |run| && p < |run[i].procs| && z < |run[i].procs|
    requires run[i].lock == NOBODY && ZombieOf(run[i].procs[z], p)
    ensures !Dozing(run[i].procs[p])
  {
    hide IsRun;
    ReachableInv(run, steps, i);
    hide LockFits, AllCoherent, Forking, AllScanClean, AllPassedAwake;
    assert Watched(run[i]);
  }

  /** A slot is freed only by the parent, and only once its process is off its stack for good. */
  lemma FreedOnlyWhenDead(run: seq<Sys>, steps: seq<Step>, i: nat, z: nat)
    requires IsRun(run, steps) && i < |steps| && z < |run[i].procs| && z < |run[i + 1].procs|
    requires run[i].procs[z].state == ZOMBIE && run[i + 1].procs[z].state != ZOMBIE
    ensures run[i].procs[z].pc == Dead && steps[i].Move? && run[i].procs[z].parent == steps[i].p
  {
    ReachableInv(run, steps, i);
    assert Enabled(run[i], steps[i]) && run[i + 1] == Do(run[i], steps[i]);
    hide IsRun;
    FreedByParent(run[i], steps[i], z);
  }

  lemma FreedByParent(s: Sys, step: Step, z: nat)
    requires Inv(s) && Enabled(s, step) && z < |s.procs| && z < |Do(s, step).procs|
    requires s.procs[z].state == ZOMBIE && Do(s, step).procs[z].state != ZOMBIE
    ensures s.procs[z].pc == Dead && step.Move? && s.procs[z].parent == step.p
  {
    hide LockFits, AllScanClean, AllPassedAwake, Watched;
    assert Coherent(s.procs[z], z);
    assert step.Move? ==> Targets(s, step.p) && Coherent(s.procs[step.p], step.p);
    hide AllCoherent, Forking;
    if step.Move? && InExit(s.procs[step.p].pc) {
      ExitLeavesZombies(s, step.p, z);
    }
  }

  lemma ExitLeavesZombies(s: Sys, p: nat, z: nat)
    requires p < |s.procs| && z < |s.procs| && InExit(s.procs[p].pc) && s.procs[z].state == ZOMBIE
    ensures |ExitStep(s, p).procs| == |s.procs| && ExitStep(s, p).procs[z].state == ZOMBIE
  {
  }
}
