/**
 Which faults are served and what access rights they leave, and the proof that over every run of
 exec, fork, sbrk, user faults and kernel copies no user page is ever both writable and executable.
 */
module Permissions {
  import opened Common

  const USERSTACK: nat := 1
  const TRAMPOLINE: nat := MAXVA - PGSIZE
  const TRAPFRAME: nat := TRAMPOLINE - PGSIZE

  /** Arithmetic on uint64. */
  function U64(x: int): (r: nat)
    ensures r < UINT64
  {
    x % UINT64
  }

  /** Access bits of a valid leaf entry. */
  datatype Flags = Flags(r: bool, w: bool, x: bool, u: bool)

  /** The address ranges recorded at exec, and the current break. */
  datatype Layout = Layout(sz: nat, textStart: nat, textEnd: nat, dataStart: nat, dataEnd: nat, stackTop: nat)

  /** Segments start on page boundaries, and the break stays below the trap frame page. Their ends may lie anywhere. */
  predicate ValidLayout(l: Layout)
  {
    l.textStart % PGSIZE == 0 && l.dataStart % PGSIZE == 0 && l.sz <= TRAPFRAME
  }

  function StackEnd(l: Layout): nat { PageUp(l.stackTop) }

  predicate InGuard(l: Layout, va: nat)
  {
    U64(StackEnd(l) - (USERSTACK + 1) * PGSIZE) <= va < U64(StackEnd(l) - USERSTACK * PGSIZE)
  }

  predicate InText(l: Layout, va: nat) { va < l.sz && l.textStart <= va < l.textEnd }
  predicate InData(l: Layout, va: nat) { va < l.sz && l.dataStart <= va < l.dataEnd }
  predicate IsText(l: Layout, page: nat) { l.textStart <= page < l.textEnd }
  predicate IsData(l: Layout, page: nat) { l.dataStart <= page < l.dataEnd }

  datatype Access = Exec | Read | Write

  datatype Cause = Swapped | FromFile | Anonymous | Invalid

  /** usertrap's classification of a page fault at va. */
  function Classify(l: Layout, acc: Access, va: nat, swapped: bool): Cause
  {
    if InGuard(l, va) then Invalid
    else if swapped then (if acc == Exec then Invalid else Swapped)
    else if InText(l, va) || InData(l, va) then (if acc == Write && IsText(l, PageDown(va)) then Invalid else FromFile)
    else if va < l.sz && acc != Exec then Anonymous
    else Invalid
  }

  /** The rights a served fault leaves on its page. */
  function Granted(l: Layout, acc: Access, va: nat, cause: Cause, old_: Option<Flags>): (f: Flags)
    requires cause != Invalid
  {
    var text := IsText(l, PageDown(va));
    match (cause, old_)
    case (FromFile, None) => Flags(true, false, text, true)
    case (FromFile, Some(f)) =>
      if acc == Write then f.(w := true)
      else f.(u := true, r := true, x := text, w := false)
    case (_, None) => Flags(true, true, false, true)
    case (_, Some(f)) => f
  }

  /** vmfault's decision for a kernel access to an unmapped page. */
  function KernelGranted(l: Layout, page: nat): (f: Option<Flags>)
  {
    if InGuard(l, page) then None
    else if InText(l, page) then Some(Flags(true, false, true, true))
    else if page < l.sz then Some(Flags(true, true, false, true))
    else None
  }

  /** One process: its layout and the rights of every page its page table maps, by page address. */
  datatype Proc = Proc(layout: Layout, pages: map<nat, Flags>)

  /** No page is writable and executable, and only text pages and the trampoline are executable. */
  ghost predicate Safe(p: Proc)
  {
    && ValidLayout(p.layout)
    && forall a :: a in p.pages ==>
         && a % PGSIZE == 0
         && !(p.pages[a].w && p.pages[a].x)
         && (p.pages[a].x ==> IsText(p.layout, a) || a == TRAMPOLINE)
  }

  /** The mappings of proc_pagetable: trampoline code and the trap frame, both kernel-only. */
  const FRESH: map<nat, Flags> :=
    map[TRAMPOLINE := Flags(true, false, true, false), TRAPFRAME := Flags(true, true, false, false)]

  /** What kexec's header loop found: the file ranges, and the highest end of a segment, all below 2^64. */
  datatype Ranges = Ranges(textStart: nat, textEnd: nat, dataStart: nat, dataEnd: nat, top: nat)

  /** Segments start on page boundaries, and top is at or above all their ends. */
  predicate Scannable(r: Ranges)
  {
    r.textStart % PGSIZE == 0 && r.dataStart % PGSIZE == 0 && r.textEnd <= r.top && r.dataEnd <= r.top && r.top < UINT64
  }

  /** Where the guard page goes: the rounded-up top, which wraps to 0 for a top in the last page of the address space. */
  function StackBase(r: Ranges): nat
  {
    U64(PageUp(r.top))
  }

  /** The layout kexec records: guard page and stack page from the base on, the arguments at the top of the stack. */
  function ExecLayout(r: Ranges, args: nat): Layout
    requires args <= PGSIZE
  {
    var sz := StackBase(r) + (USERSTACK + 1) * PGSIZE;
    Layout(sz, r.textStart, r.textEnd, r.dataStart, r.dataEnd, sz - args)
  }

  datatype Step =
    | UserFault(i: nat, acc: Access, va: nat, swapped: bool)
    | KernelFault(i: nat, va: nat)
    | Evict(i: nat, page: nat)
    | SbrkEager(i: nat, n: nat)
    | SbrkLazy(i: nat, n: nat)
    | SbrkShrink(i: nat, n: nat)
    | Fork(i: nat)
    | ExecNew(i: nat, ranges: Ranges, args: nat)
    | Exit(i: nat)

  /** A file-backed fault on a page the user may not touch: walkaddr does not see it, and mappages meets its entry. */
  ghost predicate Remaps(p: Proc, acc: Access, va: nat, swapped: bool)
  {
    Classify(p.layout, acc, va, swapped) == FromFile && PageDown(va) in p.pages && !p.pages[PageDown(va)].u
  }

  ghost predicate Enabled(ps: seq<Proc>, s: Step)
  {
    s.i < |ps| && Can(ps[s.i], s)
  }

  ghost predicate Can(p: Proc, s: Step)
  {
    match s
    case UserFault(i, acc, va, swapped) =>
      // walk panics from MAXVA on, and mappages on a page it finds mapped
      Classify(p.layout, acc, va, swapped) != Invalid && PageDown(va) < MAXVA && !Remaps(p, acc, va, swapped)
    case KernelFault(i, va) => PageDown(va) !in p.pages && KernelGranted(p.layout, PageDown(va)).Some?
    case Evict(i, page) => true
    case SbrkEager(i, n) => p.layout.sz + n <= TRAPFRAME
    case SbrkLazy(i, n) => p.layout.sz + n <= TRAPFRAME
    case SbrkShrink(i, n) => n <= p.layout.sz
    case Fork(i) => true
    case ExecNew(i, r, args) =>
      // the two stack pages could be mapped below the trap frame, and the arguments fit
      Scannable(r) && args <= PGSIZE && StackBase(r) + (USERSTACK + 1) * PGSIZE <= TRAPFRAME
    case Exit(i) => true
  }

  /** Pages uvmalloc maps when the break grows from lo to hi. */
  ghost predicate Grown(lo: nat, hi: nat, a: nat)
  {
    a % PGSIZE == 0 && PageUp(lo) <= a < hi
  }

  /** What a step does to the process that takes it. */
  ghost function Next(p: Proc, s: Step): Proc
    requires Can(p, s)
  {
    var l := p.layout;
    match s
    case UserFault(i, acc, va, swapped) =>
      var a := PageDown(va);
      var was := if a in p.pages then Some(p.pages[a]) else None;
      p.(pages := p.pages[a := Granted(l, acc, va, Classify(l, acc, va, swapped), was)])
    case KernelFault(i, va) =>
      p.(pages := p.pages[PageDown(va) := KernelGranted(l, PageDown(va)).value])
    case Evict(i, page) =>
      p.(pages := p.pages - {page})
    case SbrkEager(i, n) =>
      var hi := l.sz + n;
      var grown := map a | 0 <= a < hi && Grown(l.sz, hi, a) :: Flags(true, true, false, true);
      p.(layout := l.(sz := hi), pages := p.pages + grown)
    case SbrkLazy(i, n) =>
      p.(layout := l.(sz := l.sz + n))
    case SbrkShrink(i, n) =>
      var gone := set a | a in p.pages && PageUp(l.sz - n) <= a < PageUp(l.sz);
      p.(layout := l.(sz := l.sz - n), pages := p.pages - gone)
    case ExecNew(i, r, args) =>
      var guard := StackBase(r);
      Proc(ExecLayout(r, args), FRESH[guard + PGSIZE := Flags(true, true, false, true)][guard := Flags(true, true, false, false)])
    case _ => p
  }

  ghost function Do(ps: seq<Proc>, s: Step): seq<Proc>
    requires Enabled(ps, s)
  {
    match s
    case Fork(i) => ps + [ps[i]]
    case Exit(i) => ps[..i] + ps[i + 1..]
    case _ => ps[s.i := Next(ps[s.i], s)]
  }

  ghost predicate AllSafe(ps: seq<Proc>)
  {
    forall i :: 0 <= i < |ps| ==> Safe(ps[i])
  }

  /** A served fault cannot combine W and X, because X is only ever on text pages. */
  lemma GrantedSafe(p: Proc, acc: Access, va: nat, swapped: bool)
    requires Safe(p) && Classify(p.layout, acc, va, swapped) != Invalid
    ensures var a := PageDown(va);
      var was := if a in p.pages then Some(p.pages[a]) else None;
      var f := Granted(p.layout, acc, va, Classify(p.layout, acc, va, swapped), was);
      !(f.w && f.x) && (f.x ==> IsText(p.layout, a) || a == TRAMPOLINE)
  {
  }

  lemma FaultKeepsSafe(p: Proc, s: Step)
    requires Safe(p) && Can(p, s) && (s.UserFault? || s.KernelFault? || s.Evict?)
    ensures Safe(Next(p, s))
  {
    if s.UserFault? {
      GrantedSafe(p, s.acc, s.va, s.swapped);
    }
  }

  lemma ResizeKeepsSafe(p: Proc, s: Step)
    requires Safe(p) && Can(p, s) && (s.SbrkEager? || s.SbrkLazy? || s.SbrkShrink?)
    ensures Safe(Next(p, s))
  {
    hide Granted, KernelGranted, Classify, PageUp, PageDown;
  }

  lemma ExecIsSafe(p: Proc, s: Step)
    requires Can(p, s) && s.ExecNew?
    ensures Safe(Next(p, s))
  {
    hide Granted, KernelGranted, Classify, Grown;
    BaseAligned(s.ranges);
    assert TRAMPOLINE % PGSIZE == 0 && TRAPFRAME % PGSIZE == 0;
  }

  lemma BaseAligned(r: Ranges)
    requires r.top < UINT64
    ensures StackBase(r) % PGSIZE == 0 && StackBase(r) == if r.top > UINT64 - PGSIZE then 0 else PageUp(r.top)
  {
  }

  lemma StepKeepsSafe(ps: seq<Proc>, s: Step)
    requires AllSafe(ps) && Enabled(ps, s)
    ensures AllSafe(Do(ps, s))
  {
    if s.UserFault? || s.KernelFault? || s.Evict? {
      FaultKeepsSafe(ps[s.i], s);
    } else if s.ExecNew? {
      ExecIsSafe(ps[s.i], s);
    } else if s.SbrkEager? || s.SbrkLazy? || s.SbrkShrink? {
      ResizeKeepsSafe(ps[s.i], s);
    }
    hide Safe, Next, Can;
  }

  ghost predicate IsRun(run: seq<seq<Proc>>, steps: seq<Step>)
  {
    && |run| == |steps| + 1
    && (forall i :: 0 <= i < |run[0]| ==> ValidLayout(run[0][i].layout) && run[0][i].pages == FRESH)
    && forall k :: 0 <= k < |steps| ==> Enabled(run[k], steps[k]) && run[k + 1] == Do(run[k], steps[k])
  }

  /** No run, from processes with nothing mapped yet, ever makes a user page both writable and executable. */
  lemma {:induction false} NeverWritableAndExecutable(run: seq<seq<Proc>>, steps: seq<Step>, k: nat)
    requires IsRun(run, steps) && k < |run|
    ensures forall i, a :: 0 <= i < |run[k]| && a in run[k][i].pages ==> !(run[k][i].pages[a].w && run[k][i].pages[a].x)
    ensures AllSafe(run[k])
  {
    if k > 0 {
      NeverWritableAndExecutable(run, steps, k - 1);
      StepKeepsSafe(run[k - 1], steps[k - 1]);
    }
  }

  // ---- mapping over a page that is mapped already ----

  /** Every page below the break that the user may not touch is fenced off by the guard range, or no file page. */
  ghost predicate Fenced(p: Proc)
  {
    forall a :: a in p.pages && a < TRAPFRAME && !p.pages[a].u ==>
      InGuard(p.layout, a) || !(IsText(p.layout, a) || IsData(p.layout, a))
  }

  /** Behind the fence no fault maps over a page. */
  lemma NoRemap(p: Proc, acc: Access, va: nat, swapped: bool)
    requires Safe(p) && Fenced(p)
    ensures !Remaps(p, acc, va, swapped)
  {
    SameRange(p.layout, va);
  }

  /** Guard and file ranges do not cut through a page from below. */
  lemma SameRange(l: Layout, va: nat)
    requires ValidLayout(l)
    ensures InGuard(l, va) <==> InGuard(l, PageDown(va))
    ensures InText(l, va) ==> IsText(l, PageDown(va))
    ensures InData(l, va) ==> IsData(l, PageDown(va))
  {
    GuardAligned(l);
  }

  lemma GuardAligned(l: Layout)
    ensures U64(StackEnd(l) - (USERSTACK + 1) * PGSIZE) % PGSIZE == 0 && U64(StackEnd(l) - USERSTACK * PGSIZE) % PGSIZE == 0
  {
    WholePages(StackEnd(l) - (USERSTACK + 1) * PGSIZE);
    WholePages(StackEnd(l) - USERSTACK * PGSIZE);
  }

  lemma WholePages(x: int)
    requires x % PGSIZE == 0
    ensures U64(x) % PGSIZE == 0
  {
    var q, k := x / UINT64, x / PGSIZE;
    assert U64(x) == x - q * UINT64 && x == k * PGSIZE;
    assert q * UINT64 == q * 0x10_0000_0000_0000 * PGSIZE;
    assert U64(x) == (k - q * 0x10_0000_0000_0000) * PGSIZE;
  }

  /** Every step but exec keeps the fence. */
  lemma StepKeepsFence(p: Proc, s: Step)
    requires Safe(p) && Fenced(p) && Can(p, s) && !s.ExecNew?
    ensures Fenced(Next(p, s))
  {
    hide Classify, U64, PageUp, PageDown;
  }

  /** The headers end in the last page of the address space and a recorded range starts at 0. */
  predicate CoversBase(r: Ranges)
  {
    r.top > UINT64 - PGSIZE && ((r.textStart == 0 && r.textEnd > 0) || (r.dataStart == 0 && r.dataEnd > 0))
  }

  lemma GuardPage(r: Ranges, args: nat)
    requires Scannable(r) && args <= PGSIZE && StackBase(r) + (USERSTACK + 1) * PGSIZE <= TRAPFRAME
    ensures var l, g := ExecLayout(r, args), StackBase(r);
      && (InGuard(l, g) <==> args < PGSIZE) && g < l.sz
      && (IsText(l, g) || IsData(l, g) <==> CoversBase(r)) && (CoversBase(r) ==> g == 0)
  {
    BaseAligned(r);
    var l, g := ExecLayout(r, args), StackBase(r);
    assert PageUp(l.stackTop) == if args < PGSIZE then l.sz else g + PGSIZE;
  }

  /** exec puts up the fence exactly unless the arguments fill the stack page and the guard page lies in a file range. */
  lemma ExecFences(p: Proc, s: Step)
    requires Can(p, s) && s.ExecNew?
    ensures Fenced(Next(p, s)) <==> s.args < PGSIZE || !CoversBase(s.ranges)
    ensures !Fenced(Next(p, s)) ==> Remaps(Next(p, s), Read, 0, false)
  {
    GuardPage(s.ranges, s.args);
    var q, g := Next(p, s), StackBase(s.ranges);
    assert g in q.pages && !q.pages[g].u && g < TRAPFRAME;
    hide InGuard, CoversBase, StackBase, ExecLayout;
  }

  ghost predicate AllFenced(ps: seq<Proc>)
  {
    forall i :: 0 <= i < |ps| ==> Fenced(ps[i])
  }

  lemma StepKeepsFences(ps: seq<Proc>, s: Step)
    requires AllSafe(ps) && AllFenced(ps) && Enabled(ps, s) && (s.ExecNew? ==> s.args < PGSIZE || !CoversBase(s.ranges))
    ensures AllFenced(Do(ps, s))
  {
    if s.ExecNew? {
      ExecFences(ps[s.i], s);
    } else if !s.Fork? && !s.Exit? {
      StepKeepsFence(ps[s.i], s);
    }
    hide Safe, Next, Can, Fenced, CoversBase;
  }

  /** In every run whose execs all put up the fence, no fault ever maps over a page. */
  lemma {:induction false} NeverRemaps(run: seq<seq<Proc>>, steps: seq<Step>, k: nat)
    requires IsRun(run, steps) && k < |run|
    requires forall j :: 0 <= j < k && steps[j].ExecNew? ==> steps[j].args < PGSIZE || !CoversBase(steps[j].ranges)
    ensures AllFenced(run[k])
    ensures forall i, acc, va, swapped :: 0 <= i < |run[k]| ==> !Remaps(run[k][i], acc, va, swapped)
  {
    hide Fenced, Safe, Remaps, Enabled, Do, CoversBase;
    NeverWritableAndExecutable(run, steps, k);
    if k == 0 {
      FreshFenced(run[0]);
    } else {
      NeverRemaps(run, steps, k - 1);
      NeverWritableAndExecutable(run, steps, k - 1);
      StepKeepsFences(run[k - 1], steps[k - 1]);
    }
    forall i, acc, va, swapped | 0 <= i < |run[k]| ensures !Remaps(run[k][i], acc, va, swapped) {
      NoRemap(run[k][i], acc, va, swapped);
    }
  }

  lemma FreshFenced(ps: seq<Proc>)
    requires forall i :: 0 <= i < |ps| ==> ps[i].pages == FRESH
    ensures AllFenced(ps)
  {
  }

  /** A program with one text segment over the whole address space, and arguments that fill the stack page. */
  lemma RemapRun() returns (run: seq<seq<Proc>>, steps: seq<Step>)
    ensures IsRun(run, steps) && |run| == 2 && |run[1]| == 1 && Remaps(run[1][0], Read, 0, false)
  {
    var p := Proc(Layout(0, 0, 0, 0, 0, 0), FRESH);
    var s := ExecNew(0, Ranges(0, UINT64 - 1, 0, 0, UINT64 - 1), PGSIZE);
    BaseAligned(s.ranges);
    ExecFences(p, s);
    run, steps := [[p], Do([p], s)], [s];
  }
}
