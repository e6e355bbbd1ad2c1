/**
 sleep and wakeup (proc.c) under a condition lock, one step per lock operation or locked section.
 Any number of processes test conditions, sleep on channels, are killed, scheduled and woken in
 every interleaving.
 */
module SleepWakeup {

  datatype RunState = RUNNABLE | RUNNING | SLEEPING

  /** Where a process stands in sleep() or wakeup(). */
  datatype Pc =
    | Outside                     // in neither; may or may not hold the condition lock
    | OwnLock(chan: nat)          // sleep called; about to acquire p->lock
    | DropCondition(chan: nat)    // holds p->lock; about to release lk
    | Mark(chan: nat)             // lk released; about to set chan and state
    | Switch(chan: nat)           // state is SLEEPING; p->lock still held
    | Asleep(chan: nat)           // switched out, p->lock released by the scheduler
    | Resumed                     // scheduled again, holding p->lock
    | Relock                      // about to reacquire lk
    | Waking(chan: nat, i: nat)   // in wakeup(chan), next process is i

  datatype Proc = Proc(state: RunState, chan: int, pc: Pc)

  /** The processes, the holder of the condition lock (-1 when free) and the conditions that hold. */
  datatype Sys = Sys(procs: seq<Proc>, lk: int, conditions: set<nat>)

  datatype Step =
    | Acquire(p: nat)
    | Release(p: nat)
    | Clear(p: nat, chan: nat)          // make a condition false, under lk
    | Signal(p: nat, chan: nat)         // make it true, under lk, and call wakeup
    | Wake(p: nat)                      // one iteration of wakeup's loop
    | Sleep(p: nat, chan: nat)          // the condition was tested false under lk
    | Advance(p: nat)                   // the next step inside sleep
    | Schedule(p: nat)
    | Yield(p: nat)
    | Kill(q: nat)

  /** p->lock is held, by p or by the scheduler for p. */
  predicate OwnLocked(pc: Pc)
  {
    pc.DropCondition? || pc.Mark? || pc.Switch? || pc.Resumed?
  }

  predicate Enabled(s: Sys, step: Step)
  {
    match step
    case Acquire(p) => p < |s.procs| && s.procs[p].pc.Outside? && s.procs[p].state == RUNNING && s.lk == -1
    case Release(p) => p < |s.procs| && s.procs[p].pc.Outside? && s.lk == p
    case Clear(p, c) => p < |s.procs| && s.procs[p].pc.Outside? && s.lk == p
    case Signal(p, c) => p < |s.procs| && s.procs[p].pc.Outside? && s.lk == p
    case Wake(p) =>
      && p < |s.procs| && s.procs[p].pc.Waking?
      && (s.procs[p].pc.i < |s.procs| ==> s.procs[p].pc.i == p || !OwnLocked(s.procs[s.procs[p].pc.i].pc))
    case Sleep(p, c) => p < |s.procs| && s.procs[p].pc.Outside? && s.lk == p && c !in s.conditions
    case Advance(p) =>
      && p < |s.procs|
      && (s.procs[p].pc.OwnLock? || OwnLocked(s.procs[p].pc) || (s.procs[p].pc.Relock? && s.lk == -1))
    case Schedule(p) => p < |s.procs| && (s.procs[p].pc.Asleep? || s.procs[p].pc.Outside?) && s.procs[p].state == RUNNABLE
    case Yield(p) => p < |s.procs| && s.procs[p].pc.Outside? && s.procs[p].state == RUNNING && s.lk != p
    case Kill(q) => q < |s.procs| && !OwnLocked(s.procs[q].pc)
  }

  function With(s: Sys, p: nat, x: Proc): Sys
    requires p < |s.procs|
  {
    s.(procs := s.procs[p := x])
  }

  function AdvanceOf(s: Sys, p: nat): Sys
    requires p < |s.procs|
  {
    var x := s.procs[p];
    match x.pc
    case OwnLock(c) => With(s, p, x.(pc := DropCondition(c)))
    case DropCondition(c) => With(s, p, x.(pc := Mark(c))).(lk := -1)
    case Mark(c) => With(s, p, Proc(SLEEPING, c, Switch(c)))
    case Switch(c) => With(s, p, x.(pc := Asleep(c)))
    case Resumed => With(s, p, x.(chan := -1, pc := Relock))
    case Relock => With(s, p, x.(pc := Outside)).(lk := p)
    case _ => s
  }

  function Woken(x: Proc, chan: nat): Proc
  {
    if x.state == SLEEPING && x.chan == chan then x.(state := RUNNABLE) else x
  }

  /** Visit process i unless it is the caller; at the end of the table, return. */
  function WakeOf(s: Sys, p: nat): Sys
    requires p < |s.procs| && s.procs[p].pc.Waking?
  {
    var chan, i := s.procs[p].pc.chan, s.procs[p].pc.i;
    if i >= |s.procs| then With(s, p, s.procs[p].(pc := Outside))
    else
      var t := if i == p then s else With(s, i, Woken(s.procs[i], chan));
      With(t, p, s.procs[p].(pc := Waking(chan, i + 1)))
  }

  function Do(s: Sys, step: Step): Sys
    requires Enabled(s, step)
  {
    match step
    case Acquire(p) => s.(lk := p)
    case Release(p) => s.(lk := -1)
    case Clear(p, c) => s.(conditions := s.conditions - {c})
    case Signal(p, c) => With(s, p, s.procs[p].(pc := Waking(c, 0))).(conditions := s.conditions + {c})
    case Wake(p) => WakeOf(s, p)
    case Sleep(p, c) => With(s, p, s.procs[p].(pc := OwnLock(c)))
    case Advance(p) => AdvanceOf(s, p)
    case Schedule(p) => With(s, p, s.procs[p].(state := RUNNING, pc := if s.procs[p].pc.Asleep? then Resumed else Outside))
    case Yield(p) => With(s, p, s.procs[p].(state := RUNNABLE))
    case Kill(q) => With(s, q, if s.procs[q].state == SLEEPING then s.procs[q].(state := RUNNABLE) else s.procs[q])
  }

  /** Committed to sleeping on a channel: called sleep and not woken since. */
  predicate SleepsOn(x: Proc, chan: nat)
  {
    || ((x.pc.OwnLock? || x.pc.DropCondition? || x.pc.Mark? || x.pc.Switch?) && x.pc.chan == chan)
    || (x.pc.Asleep? && x.pc.chan == chan && x.state == SLEEPING)
  }

  ghost predicate LocksFit(s: Sys)
  {
    forall p :: 0 <= p < |s.procs| && (s.procs[p].pc.OwnLock? || s.procs[p].pc.DropCondition? || s.procs[p].pc.Waking?) ==>
      s.lk == p
  }

  /** Inside sleep, state and chan say so. */
  ghost predicate Marked(s: Sys)
  {
    forall p :: 0 <= p < |s.procs| ==>
      && (s.procs[p].pc.Switch? ==> s.procs[p].state == SLEEPING && s.procs[p].chan == s.procs[p].pc.chan)
      && (s.procs[p].pc.Asleep? ==> s.procs[p].chan == s.procs[p].pc.chan && s.procs[p].state != RUNNING)
  }

  /** Someone with the lock has yet to reach process q in its wakeup on this channel. */
  ghost predicate Pending(s: Sys, q: nat, chan: nat)
  {
    0 <= s.lk < |s.procs| && s.procs[s.lk].pc.Waking? && s.procs[s.lk].pc.chan == chan && s.procs[s.lk].pc.i <= q
  }

  /** A process sleeps on a channel whose condition holds only while the wakeup that will reach it is under way. */
  ghost predicate NoneMissed(s: Sys)
  {
    forall q: nat, chan: nat :: q < |s.procs| && SleepsOn(s.procs[q], chan) && chan in s.conditions ==> Pending(s, q, chan)
  }

  /** Every process a wakeup has passed is awake. */
  ghost predicate PassedAwake(s: Sys)
  {
    forall w: nat, q: nat :: w < |s.procs| && q < |s.procs| && s.procs[w].pc.Waking? && q < s.procs[w].pc.i ==>
      !SleepsOn(s.procs[q], s.procs[w].pc.chan)
  }

  ghost predicate Inv(s: Sys)
  {
    -1 <= s.lk < |s.procs| && LocksFit(s) && Marked(s) && PassedAwake(s) && NoneMissed(s)
  }

  lemma StepKeepsLocks(s: Sys, step: Step)
    requires Enabled(s, step) && Inv(s)
    ensures -1 <= Do(s, step).lk < |Do(s, step).procs| && LocksFit(Do(s, step)) && Marked(Do(s, step))
  {
    hide PassedAwake, NoneMissed;
  }

  lemma StepKeepsPassed(s: Sys, step: Step)
    requires Enabled(s, step) && Inv(s)
    ensures PassedAwake(Do(s, step))
  {
    hide NoneMissed;
    var t := Do(s, step);
    forall w: nat, q: nat | w < |t.procs| && q < |t.procs| && t.procs[w].pc.Waking? && q < t.procs[w].pc.i
      ensures !SleepsOn(t.procs[q], t.procs[w].pc.chan)
    {
      PassedOne(s, step, w, q);
    }
  }

  lemma PassedOne(s: Sys, step: Step, w: nat, q: nat)
    requires Enabled(s, step) && Inv(s)
    requires var t := Do(s, step);
      w < |t.procs| && q < |t.procs| && t.procs[w].pc.Waking? && q < t.procs[w].pc.i
    ensures !SleepsOn(Do(s, step).procs[q], Do(s, step).procs[w].pc.chan)
  {
    hide NoneMissed;
    assert s.procs[w].pc.Waking?;
    if q < s.procs[w].pc.i {
      assert !SleepsOn(s.procs[q], s.procs[w].pc.chan);
    }
  }

  lemma StepKeepsNoneMissed(s: Sys, step: Step)
    requires Enabled(s, step) && Inv(s)
    ensures NoneMissed(Do(s, step))
  {
    hide PassedAwake;
    var t := Do(s, step);
    forall q: nat, chan: nat | q < |t.procs| && SleepsOn(t.procs[q], chan) && chan in t.conditions
      ensures Pending(t, q, chan)
    {
      MissedOne(s, step, q, chan);
    }
  }

  lemma MissedOne(s: Sys, step: Step, q: nat, chan: nat)
    requires Enabled(s, step) && Inv(s) && q < |Do(s, step).procs|
    requires SleepsOn(Do(s, step).procs[q], chan) && chan in Do(s, step).conditions
    ensures Pending(Do(s, step), q, chan)
  {
    hide PassedAwake;
    if SleepsOn(s.procs[q], chan) && chan in s.conditions {
      assert Pending(s, q, chan);
    }
  }

  /** Every step keeps the protocol invariant. */
  lemma StepKeepsInv(s: Sys, step: Step)
    requires Enabled(s, step) && Inv(s)
    ensures Inv(Do(s, step))
  {
    StepKeepsLocks(s, step);
    StepKeepsPassed(s, step);
    StepKeepsNoneMissed(s, step);
    hide Do, Enabled;
  }

  ghost predicate Initial(s: Sys)
  {
    s.lk == -1 && forall p :: 0 <= p < |s.procs| ==> s.procs[p].pc.Outside? && s.procs[p].state != SLEEPING
  }

  ghost predicate IsRun(run: seq<Sys>, steps: seq<Step>)
  {
    && |run| == |steps| + 1 && Initial(run[0])
    && forall i :: 0 <= i < |steps| ==> Enabled(run[i], steps[i]) && run[i + 1] == Do(run[i], steps[i])
  }

  lemma {:induction false} ReachableInv(run: seq<Sys>, steps: seq<Step>, i: nat)
    requires IsRun(run, steps) && i < |run|
    ensures Inv(run[i])
    decreases i
  {
    if i > 0 {
      ReachableInv(run, steps, i - 1);
      assert Enabled(run[i - 1], steps[i - 1]);
      StepKeepsInv(run[i - 1], steps[i - 1]);
    }
  }

  /**
   No lost wakeup: in every reachable state with the condition lock free, nobody sleeps, or is on
   the way to sleep, on a channel whose condition holds.
   */
  lemma NoLostWakeup(run: seq<Sys>, steps: seq<Step>, i: nat, q: nat, chan: nat)
    requires IsRun(run, steps) && i < |run| && run[i].lk == -1 && q < |run[i].procs| && chan in run[i].conditions
    ensures !SleepsOn(run[i].procs[q], chan)
  {
    ReachableInv(run, steps, i);
  }

  /** When wakeup returns, every other process that had tested under the lock before it is awake. */
  lemma WakeupReachesAll(run: seq<Sys>, steps: seq<Step>, i: nat, w: nat, q: nat)
    requires IsRun(run, steps) && i < |run| && w < |run[i].procs| && q < |run[i].procs|
    requires run[i].procs[w].pc.Waking? && run[i].procs[w].pc.i >= |run[i].procs|
    ensures !SleepsOn(run[i].procs[q], run[i].procs[w].pc.chan)
  {
    ReachableInv(run, steps, i);
    assert PassedAwake(run[i]);
  }
}
