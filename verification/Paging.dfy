/**
 A process under demand paging over longer stretches: runs of faults, and the calls that set up,
 resize and give back its memory, exec, sbrk and exit.
 */
module Paging {
  import opened Common
  import opened Permissions
  import opened Residency
  import opened UserMemory
  import opened Fault
  import MemStat
  import Loader

  // ---- runs of faults ----

  datatype FaultAt = FaultAt(acc: Access, va: nat, env: Env)

  ghost predicate Elsewhere(fs: seq<FaultAt>, b: nat)
  {
    forall i :: 0 <= i < |fs| ==> PageDown(fs[i].va) != b
  }

  /** Faults, one after the other, until one is not survived or there are no more. */
  method RunFaults(p: Process, fs: seq<FaultAt>) returns (fate: Fate)
    requires p.Valid() && !p.killed && forall i :: 0 <= i < |fs| ==> EnvOk(fs[i].env)
    modifies p`killed, p.space, p.book.stat, p.book.stat.pages, p.book.swap, p.book.swap.table
    ensures fate == Alive ==> !p.killed
    ensures fate == Alive || fate == Killed ==>
      && p.Valid() && p.space.owner.Keys == old(p.space.owner).Keys
      && forall x: nat :: x < MemStat.VALIMIT && PageDown(x) !in old(p.space.pages) && Elsewhere(fs, PageDown(x)) ==>
           PageDown(x) !in p.space.pages && p.PageAt(x) == old(p.PageAt(x))
  {
    hide Process.Valid, Process.PageAt, Process.Start, LoadedFirst, SamePage, SameHeld, SameKernel, EnvOk, Short;
    hide Process.Panics, Process.Tears, Process.Survives, Process.NeedsFrame, Process.Goes, Process.Result;
    ghost var m := p.space.M();
    fate := Alive;
    var n := 0;
    while n < |fs|
      invariant 0 <= n <= |fs| && p.Valid() && p.space.owner.Keys == m.owner.Keys && !p.killed && fate == Alive
      invariant forall x: nat :: x < MemStat.VALIMIT && PageDown(x) !in m.pages && Elsewhere(fs, PageDown(x)) ==>
        PageDown(x) !in p.space.pages && p.PageAt(x) == old(p.PageAt(x))
    {
      ghost var t := p.space.M();
      ghost var victim;
      fate, victim := p.UserFault(fs[n].acc, fs[n].va, fs[n].env);
      if fate == Alive || fate == Killed {
        forall x: nat | x < MemStat.VALIMIT && PageDown(x) !in m.pages && Elsewhere(fs, PageDown(x))
          ensures PageDown(x) !in p.space.pages && p.PageAt(x) == old(p.PageAt(x))
        {
          StaysOut(t, p.space.M(), PageDown(fs[n].va), victim, PageDown(x));
        }
      }
      if fate != Alive {
        return;
      }
      n := n + 1;
    }
  }

  lemma StaysOut(m: Mem, t: Mem, a: nat, v: Option<nat>, b: nat)
    requires Kept(m, t, {a} + Only(v), -1) && b != a && b !in m.pages && (v.Some? ==> v.value in m.pages) && b < MemStat.VALIMIT
    ensures b !in t.pages && Some(b) != v && Short(b) == b
  {
    assert SamePage(m, t, b);
  }

  /**
   A page is evicted by a fault, any faults elsewhere follow, and then it is touched again. If the process
   survives all that the page is back: with the contents it had, if its record said dirty.
   */
  method OutAndBack(p: Process, first: FaultAt, fs: seq<FaultAt>, acc: Access, x: nat, env: Env)
    returns (fate: Fate, ghost victim: Option<nat>)
    requires p.Valid() && !p.killed && EnvOk(first.env) && EnvOk(env) && forall i :: 0 <= i < |fs| ==> EnvOk(fs[i].env)
    requires Elsewhere(fs, PageDown(x)) && PageDown(first.va) != PageDown(x)
    modifies p`killed, p.space, p.book.stat, p.book.stat.pages, p.book.swap, p.book.swap.table
    ensures fate == Alive || fate == Killed ==> p.Valid() && p.space.owner.Keys == old(p.space.owner).Keys
    ensures fate == Alive && victim == Some(PageDown(x)) ==>
      PageDown(x) in p.space.pages && p.PageAt(x) == if old(p.Dirty(PageDown(x))) then old(p.PageAt(x)) else p.Start(x)
  {
    hide Process.Valid, Process.PageAt, Process.Start, LoadedFirst, SamePage, SameHeld, SameKernel, EnvOk, Granted, Classify;
    hide Process.Dirty, Process.Panics, Process.Tears, Process.Survives, Process.NeedsFrame, Process.Goes, Short;
    hide Process.Result, Process.CauseOf, Process.Unseen, Process.Taken;
    fate, victim := p.UserFault(first.acc, first.va, first.env);
    if fate == Alive {
      fate := RunFaults(p, fs);
    }
    if fate == Alive {
      ghost var v;
      ghost var m := p.space.M();
      ghost var was := p.PageAt(x);
      ghost var cause := p.CauseOf(acc, x);
      if victim == Some(PageDown(x)) {
        p.SeenOutside(acc, x);
      }
      fate, v := p.UserFault(acc, x, env);
      if fate == Alive && victim == Some(PageDown(x)) {
        p.Back(acc, x, cause, m, p.space.M(), was, p.PageAt(x));
      }
    }
  }

  // ---- sbrk ----

  const RW: Flags := Flags(true, true, false, true)

  datatype Call = Answer(value: int) | Crash

  lemma GrownRights(m: Mem, t: Mem, lo: nat, hi: nat)
    requires lo % PGSIZE == 0 && Extended(m, t, lo, PagesIn(lo, hi), RW)
    ensures Rights(t.pages) == Rights(m.pages) + (map a: nat | a < hi && a in Range(lo, hi) :: RW)
  {
    hide Paths, Cost;
    RangeIs(lo, hi);
    var r := Rights(m.pages) + (map a: nat | a < hi && a in Range(lo, hi) :: RW);
    assert Rights(t.pages).Keys == t.pages.Keys;
    forall a | a in t.pages ensures a in r && r[a] == t.pages[a].flags {
      if a in Range(lo, hi) {
        assert ZeroPage(t, a, RW);
      } else {
        assert SamePage(m, t, a);
      }
    }
    assert r.Keys == t.pages.Keys;
  }

  lemma SafeGrown(l: Layout, m: Mem, t: Mem, n: nat)
    requires Safe(Proc(l, Rights(m.pages))) && l.sz + n <= TRAPFRAME
    requires Extended(m, t, PageUp(l.sz), PagesIn(PageUp(l.sz), l.sz + n), RW)
    ensures Safe(Proc(l.(sz := l.sz + n), Rights(t.pages)))
  {
    hide Safe, Extended, Rights;
    GrownRights(m, t, PageUp(l.sz), l.sz + n);
    var q := Proc(l, Rights(m.pages));
    ResizeKeepsSafe(q, SbrkEager(0, n));
    SameGrowth(l.sz, l.sz + n);
  }

  lemma SameGrowth(sz: nat, hi: nat)
    ensures (map a | 0 <= a < hi && Permissions.Grown(sz, hi, a) :: Flags(true, true, false, true))
         == (map a: nat | a < hi && a in Range(PageUp(sz), hi) :: RW)
  {
  }

  lemma SafeShrunk(l: Layout, pages: map<nat, Leaf>, n: nat)
    requires Safe(Proc(l, Rights(pages))) && n <= l.sz
    ensures Safe(Proc(l.(sz := l.sz - n), Rights(pages - Range(PageUp(l.sz - n), PageUp(l.sz)))))
  {
    hide PageUp, Range;
    var kept := pages - Range(PageUp(l.sz - n), PageUp(l.sz));
    forall a | a in Rights(kept) ensures a in Rights(pages) && Rights(pages)[a] == Rights(kept)[a] {
      assert a in pages;
    }
  }

  lemma SafeLazy(l: Layout, pages: map<nat, Leaf>, n: nat)
    requires Safe(Proc(l, Rights(pages))) && l.sz + n <= TRAPFRAME
    ensures Safe(Proc(l.(sz := l.sz + n), Rights(pages)))
  {
    ResizeKeepsSafe(Proc(l, Rights(pages)), SbrkLazy(0, n));
  }

  /**
   sys_sbrk. Growing by n either only moves the break, or maps zeroed pages up to it, all or none of
   them; shrinking frees the pages past the new break. It fails only when the break would reach the trap
   frame or there are too few frames for the pages and the tables they lack. Growing over a page that is
   still mapped past the break makes mappages panic.
   */
  method Sbrk(p: Process, n: int, eager: bool) returns (r: Call)
    requires p.Valid()
    modifies p`layout, p.space
    ensures r != Crash ==> p.Valid() && p.layout == old(p.layout).(sz := p.layout.sz)
    ensures r != Crash ==> r == Answer(old(p.layout.sz)) || r == Answer(-1)
    ensures r == Answer(-1) ==> p.layout == old(p.layout) && p.space.pages == old(p.space.pages)
    ensures r == Answer(-1) ==> Kept(old(p.space.M()), p.space.M(), {}, -1)
    ensures n <= 0 || !eager ==> (r == Answer(-1) <==> n > 0 && old(p.layout.sz) + n > TRAPFRAME) && r != Crash
    ensures var sz, lo := old(p.layout.sz), PageUp(old(p.layout.sz));
      n > 0 && eager ==>
        && (r == Answer(sz) <==>
              && sz + n <= TRAPFRAME && old(p.space.pages).Keys !! Range(lo, sz + n)
              && Cost(old(p.space.tables), lo, PagesIn(lo, sz + n)) <= |old(p.space.free)|)
        && (r == Crash <==>
              sz + n <= TRAPFRAME && exists k: nat :: k < PagesIn(lo, sz + n) && BlockedAt(old(p.space.M()), lo, k))
        && (r == Answer(sz) ==>
              p.layout.sz == sz + n && Extended(old(p.space.M()), p.space.M(), lo, PagesIn(lo, sz + n), RW))
    ensures n >= 0 && !eager && r != Answer(-1) ==> p.layout.sz == old(p.layout.sz) + n && p.space.M() == old(p.space.M())
    ensures n < 0 ==> p.layout.sz == if old(p.layout.sz) + n >= 0 then old(p.layout.sz) + n else old(p.layout.sz)
    ensures n < 0 ==>
      && p.space.pages == old(p.space.pages) - Range(PageUp(p.layout.sz), PageUp(old(p.layout.sz)))
      && p.space.free == old(p.space.free) + FramesOf(old(p.space.pages), Range(PageUp(p.layout.sz), PageUp(old(p.layout.sz))))
      && Kept(old(p.space.M()), p.space.M(), Range(PageUp(p.layout.sz), PageUp(old(p.layout.sz))), -1)
  {
    hide Book.Valid, Ok, HeldOf, Kept, Safe, Rights, Range, Cost, Extended, PageUp, BlockedAt, FramesOf, U64;
    ghost var m := p.space.M();
    KeptSelf(m);
    BreakFits(p);
    var sz := p.layout.sz;
    if !eager && n >= 0 {
      if sz + n > TRAPFRAME {
        return Answer(-1);
      }
      SafeLazy(p.layout, p.space.pages, n);
      p.layout := p.layout.(sz := sz + n);
    } else if n > 0 {
      if sz + n > TRAPFRAME {
        return Answer(-1);
      }
      var g := p.space.Grow(PageUp(sz), sz + n, RW);
      if g == Remap {
        return Crash;
      }
      if g == NoMemory {
        return Answer(-1);
      }
      SafeGrown(p.layout, m, p.space.M(), n);
      p.layout := p.layout.(sz := sz + n);
    } else {
      if n < 0 && sz + n >= 0 {
        SafeShrunk(p.layout, p.space.pages, -n);
        p.space.Shrink(PageUp(sz + n), PageUp(sz));
        p.layout := p.layout.(sz := sz + n);
      } else {
        NothingBetween(m, PageUp(sz));
      }
    }
    r := Answer(sz);
  }

  lemma NothingBetween(m: Mem, a: nat)
    requires Ok(m)
    ensures Range(a, a) == {} && m.pages - Range(a, a) == m.pages && Kept(m, m, Range(a, a), -1)
    ensures m.free + FramesOf(m.pages, Range(a, a)) == m.free
  {
    KeptSelf(m);
    assert Range(a, a) == {};
  }

  // ---- exec ----

  /** Executed, refused with -1, hung on the inode's own lock, or a kernel panic. */
  datatype ExecResult = Executed | Refused | Hung | Panicked

  /** The address ranges of an image. */
  function RangesOf(m: Loader.Image): Ranges
  {
    Ranges(m.text.start, m.text.end, m.data.start, m.data.end, m.sz)
  }

  /** Frames a new image takes: three tables for the kernel's pages, two stack pages and the tables they lack. */
  ghost function ExecCost(sz: nat): nat
  {
    3 + 2 + Lacking(Paths(sz, 2), {ROOT} + Path(TRAMPOLINE))
  }

  lemma {:induction false} ScannedBounds(hs: seq<Loader.Header>)
    requires Loader.Scanned(hs).Some?
    ensures Scannable(RangesOf(Loader.Scanned(hs).value))
    decreases |hs|
  {
    if hs != [] {
      ScannedBounds(hs[..|hs| - 1]);
    }
  }

  /** The pages of a new image: a guard page the user cannot touch and the stack page. */
  ghost predicate StackOnly(m: Mem, sz: nat, args: seq<byte>)
    requires |args| <= PGSIZE
  {
    && m.pages.Keys == {sz, sz + PGSIZE}
    && m.pages[sz].flags == RW.(u := false) && m.pages[sz + PGSIZE].flags == RW
    && m.pages[sz + PGSIZE].frame in m.bytes && ContentsOf(m, sz + PGSIZE) == Loader.Zeros(PGSIZE - |args|) + args
  }

  lemma ExecSafe(hs: seq<Loader.Header>, args: nat, pages: map<nat, Leaf>)
    requires Loader.Scanned(hs).Some? && args <= PGSIZE
    requires var sz := StackBase(RangesOf(Loader.Scanned(hs).value));
      && sz + 2 * PGSIZE <= TRAPFRAME
      && pages.Keys == {sz, sz + PGSIZE} && pages[sz].flags == RW.(u := false) && pages[sz + PGSIZE].flags == RW
    ensures Safe(Proc(ExecLayout(RangesOf(Loader.Scanned(hs).value), args), Rights(pages)))
  {
    hide StackBase;
    ScannedBounds(hs);
    var r := RangesOf(Loader.Scanned(hs).value);
    var p, s := Proc(ExecLayout(r, args), map[]), ExecNew(0, r, args);
    ExecIsSafe(p, s);
    var next := Next(p, s);
    forall a | a in Rights(pages) ensures a in next.pages && next.pages[a] == Rights(pages)[a] {
    }
  }

  /** The stack of a new image, on a fresh page table; false if there are too few frames. */
  method BuildStack(space: Space, sz: nat, args: seq<byte>) returns (ok: bool)
    requires Ok(space.M()) && space.pages == map[] && sz % PGSIZE == 0 && |args| <= PGSIZE
    modifies space
    ensures Ok(space.M()) && SameFrames(old(space.M()), space.M())
    ensures ok <==> Cost(old(space.tables), sz, 2) <= |old(space.free)|
    ensures ok ==> StackOnly(space.M(), sz, args)
  {
    hide Ok, HeldOf, Kept, Paths, Cost, SameFrames;
    ghost var m := space.M();
    TwoPages(sz);
    var g := space.Grow(sz, sz + 2 * PGSIZE, RW);
    assert forall k: nat :: !BlockedAt(m, sz, k);
    ok := g == Done;
    if ok {
      ghost var t := space.M();
      NewStack(m, t, sz);
      space.SetFlags(sz, RW.(u := false));
      ghost var u := space.M();
      SameHands(t, space.pages);
      space.WritePage(sz + PGSIZE, Loader.Zeros(PGSIZE - |args|) + args);
      KeptOn(m, t, u, Range(sz, sz + 2 * PGSIZE), {sz}, -1);
      KeptOn(m, u, space.M(), Range(sz, sz + 2 * PGSIZE) + {sz}, {sz + PGSIZE}, -1);
      KeptIsFrames(m, space.M(), Range(sz, sz + 2 * PGSIZE) + {sz} + {sz + PGSIZE});
    } else {
      KeptIsFrames(m, space.M(), {});
    }
  }

  lemma TwoPages(sz: nat)
    requires sz % PGSIZE == 0
    ensures PagesIn(sz, sz + 2 * PGSIZE) == 2 && Range(sz, sz + 2 * PGSIZE) == {sz, sz + PGSIZE}
  {
  }

  lemma NewStack(m: Mem, t: Mem, sz: nat)
    requires sz % PGSIZE == 0 && m.pages == map[] && Extended(m, t, sz, 2, RW)
    ensures t.pages.Keys == {sz, sz + PGSIZE} && t.pages[sz].flags == RW && t.pages[sz + PGSIZE].flags == RW
    ensures Kept(m, t, Range(sz, sz + 2 * PGSIZE), -1)
  {
    hide Kept, Paths, Cost;
    TwoPages(sz);
    assert ZeroPage(t, sz, RW) && ZeroPage(t, sz + PGSIZE, RW);
  }

  /** uvmalloc for a stack that would reach the pages the kernel keeps: it panics as soon as it has a frame for one of them. */
  method StackAtTop(space: Space, sz: nat) returns (panicked: bool)
    requires Ok(space.M()) && space.pages == map[] && space.tables.Keys == {ROOT} + Path(TRAMPOLINE)
    requires sz % PGSIZE == 0 && TRAPFRAME < sz + 2 * PGSIZE && sz <= MAXVA
    modifies space
    ensures panicked <==> |old(space.free)| > if sz + PGSIZE == TRAPFRAME then 1 else 0
    ensures !panicked ==> Ok(space.M()) && SameFrames(old(space.M()), space.M()) && space.pages == map[]
  {
    hide Ok, HeldOf, Kept, Paths, Cost, SameFrames, Path, Range, Extended;
    ghost var m := space.M();
    if sz + PGSIZE == TRAPFRAME {
      TopCost(space.tables, sz);
      TopPage(m, sz);
      var g := space.Grow(sz, sz + PGSIZE, RW);
      assert forall k: nat :: !BlockedAt(m, sz, k);
      if g != Done {
        KeptIsFrames(m, space.M(), {});
        return false;
      }
      ghost var t := space.M();
      OneFewer(m, t, sz);
      var f := space.Kalloc();
      panicked := f >= 0;
      if !panicked {
        space.Shrink(sz, sz + PGSIZE);
        KeptAlong(m, t, space.M(), Range(sz, sz + PGSIZE), Range(sz, sz + PGSIZE), -1);
        KeptIsFrames(m, space.M(), Range(sz, sz + PGSIZE) + Range(sz, sz + PGSIZE));
        Emptied(t, sz);
      }
    } else {
      KeptSelf(m);
      KeptIsFrames(m, m, {});
      var f := space.Kalloc();
      panicked := f >= 0;
    }
  }

  /** The page below the trap frame needs no further table. */
  lemma TopCost(tables: map<TKey, nat>, sz: nat)
    requires tables.Keys == {ROOT} + Path(TRAMPOLINE) && sz + PGSIZE == TRAPFRAME
    ensures PagesIn(sz, sz + PGSIZE) == 1 && Cost(tables, sz, 1) == 1
  {
    PathsNext(sz, 0);
    assert Middle(sz) == Middle(TRAMPOLINE) && Last(sz) == Last(TRAMPOLINE);
    assert Paths(sz, 1) - tables.Keys == {};
  }

  lemma TopPage(m: Mem, sz: nat)
    requires m.pages == map[] && sz % PGSIZE == 0
    ensures m.pages.Keys !! Range(sz, sz + PGSIZE) && Range(sz, sz + PGSIZE) == {sz}
  {
  }

  lemma OneFewer(m: Mem, t: Mem, sz: nat)
    requires m.pages == map[] && Extended(m, t, sz, 1, RW) && Cost(m.tables, sz, 1) == 1 && sz % PGSIZE == 0
    ensures |t.free| + 1 == |m.free| && t.pages.Keys == Range(sz, sz + PGSIZE) && Kept(m, t, Range(sz, sz + PGSIZE), -1)
  {
    hide Kept, Paths, Cost;
  }

  lemma Emptied(t: Mem, sz: nat)
    requires t.pages.Keys == Range(sz, sz + PGSIZE)
    ensures t.pages - Range(sz, sz + PGSIZE) == map[]
  {
  }

  /** The address up to which a page table built for segments reaching to top is taken apart again. */
  function BaseOf(top: nat): nat
  {
    U64(PageUp(top))
  }

  /**
   A new page table with a stack on it, or nothing. The headers reached top; `loads` if none was rejected.
   Without a stack the new table is given back for top bytes, which walks past the last address for a large top.
   */
  method NewImage(space: Space, loads: bool, top: nat, args: seq<byte>) returns (r: ExecResult)
    requires Ok(space.M()) && space.pages == map[] && space.tables == map[] && top < UINT64
    modifies space
    ensures r == Hung <==> |old(space.free)| < 3 || (!loads && BaseOf(top) <= MAXVA)
    ensures r == Panicked <==> Overruns(|old(space.free)|, loads, BaseOf(top))
    ensures r == Executed <==>
      loads && BaseOf(top) + 2 * PGSIZE <= TRAPFRAME && |args| <= PGSIZE && ExecCost(BaseOf(top)) <= |old(space.free)|
    ensures r != Panicked ==> Ok(space.M()) && SameFrames(old(space.M()), space.M())
    ensures r == Executed ==> StackOnly(space.M(), BaseOf(top), args)
    ensures r == Refused || r == Hung ==> space.pages == map[] && space.tables == map[]
  {
    hide Ok, HeldOf, Kept, Paths, SameFrames, PageUp, StackOnly, Path, U64, Lacking;
    ghost var m := space.M();
    BaseIs(top);
    var ok := space.NewTable();
    if !ok {
      return Hung;
    }
    ghost var t := space.M();
    var base := BaseOf(top);
    if !loads {
      var panicked := space.Dismantle(top);
      if panicked {
        return Panicked;
      }
      FramesOn(m, t, space.M());
      return Hung;
    }
    if base > MAXVA {
      return Panicked;  // walk, in uvmalloc, in uvmclear or when the table is given back
    }
    if base + 2 * PGSIZE > TRAPFRAME {
      var panicked := StackAtTop(space, base);
      if panicked {
        return Panicked;
      }
      r := Refused;
    } else {
      ok := |args| <= PGSIZE;
      if ok {
        ok := BuildStack(space, base, args);
      } else {
        StillFrames(t);
      }
      r := if ok then Executed else Refused;
    }
    FramesOn(m, t, space.M());
    if r == Refused {
      ghost var u := space.M();
      space.FreeTables();
      FramesOn(m, u, space.M());
    }
  }

  /** There is a new page table, and it is taken to a page past the last address or to one the kernel keeps. */
  ghost predicate Overruns(free: nat, loads: bool, base: nat)
  {
    free >= 3 &&
    (base > MAXVA || (loads && base + 2 * PGSIZE > TRAPFRAME && free > 3 + if base + PGSIZE == TRAPFRAME then 1 else 0))
  }

  lemma BaseIs(top: nat)
    requires top < UINT64
    ensures BaseOf(top) % PGSIZE == 0
  {
  }

  lemma StillFrames(m: Mem)
    requires Ok(m)
    ensures SameFrames(m, m)
  {
    KeptSelf(m);
    KeptIsFrames(m, m, {});
  }

  lemma AllBack(m0: Mem, t: Mem, u: Mem, sz: nat, args: seq<byte>)
    requires Ok(m0) && HeldOf(m0) == {} && SameFrames(Detached(m0), t) && |args| <= PGSIZE && StackOnly(t, sz, args)
    requires HeldOf(u) == HeldOf(t) - TableFrames(m0.pages, m0.tables) && u.pages == t.pages && forall b :: SamePage(t, u, b)
    ensures HeldOf(u) == {} && StackOnly(u, sz, args)
  {
    hide Ok, TableFrames;
    DetachOk(m0);
    assert SamePage(t, u, sz + PGSIZE);
  }

  /** A page mapped at or past the break, which freewalk finds after uvmunmap. */
  predicate LeftOver(pages: map<nat, Leaf>, sz: nat)
  {
    exists a :: a in pages && a >= PageUp(sz)
  }

  /** The new image takes the place of the old one of sz bytes, or the old one stays as it was. */
  method SwitchImage(space: Space, sz: nat, loads: bool, top: nat, args: seq<byte>) returns (r: ExecResult)
    requires Ok(space.M()) && HeldOf(space.M()) == {} && top < UINT64
    modifies space
    ensures r == Hung <==> |old(space.free)| < 3 || (!loads && BaseOf(top) <= MAXVA)
    ensures r == Panicked <==>
      || Overruns(|old(space.free)|, loads, BaseOf(top))
      || (Buildable(|old(space.free)|, loads, BaseOf(top), |args|) && LeftOver(old(space.pages), sz))
    ensures r == Executed <==> Buildable(|old(space.free)|, loads, BaseOf(top), |args|) && !LeftOver(old(space.pages), sz)
    ensures r != Panicked ==> Ok(space.M()) && HeldOf(space.M()) == {} && space.owner.Keys == old(space.owner).Keys
    ensures r != Panicked ==> forall f :: SameKernel(old(space.M()), space.M(), f)
    ensures r == Executed ==> StackOnly(space.M(), BaseOf(top), args)
    ensures r == Refused || r == Hung ==>
      space.M() == old(space.M()).(bytes := space.bytes) && Kept(old(space.M()), space.M(), {}, -1)
  {
    hide Ok, HeldOf, Kept, Paths, SameFrames, PageUp, StackOnly, TableFrames, ExecCost, BaseOf, Overruns, SameKernel;
    ghost var m0 := space.M();
    var was, wasTables := space.Detach();
    r := NewImage(space, loads, top, args);
    if r == Panicked {
      SetAside(m0);
      return;
    }
    ghost var t := space.M();
    SetAside(m0);
    AsideKept(m0, t);
    if r == Executed {
      if LeftOver(was, sz) {
        return Panicked;  // freewalk: leaf
      }
      space.Discard(TableFrames(was, wasTables));
      AllBack(m0, t, space.M(), BaseOf(top), args);
      KernelTwice(m0, t, space.M());
    } else {
      space.Attach(was, wasTables, m0);
      forall f ensures SameKernel(m0, space.M(), f) {
        KernelOwner(m0, space.M(), f);
      }
    }
  }

  /** There are frames and addresses for a new image. */
  ghost predicate Buildable(free: nat, loads: bool, base: nat, args: nat)
  {
    loads && base + 2 * PGSIZE <= TRAPFRAME && args <= PGSIZE && ExecCost(base) <= free
  }

  lemma KernelOwner(m: Mem, t: Mem, f: nat)
    requires m.owner == t.owner
    ensures SameKernel(m, t, f)
  {
  }

  lemma KernelTwice(m0: Mem, t: Mem, u: Mem)
    requires SameFrames(Detached(m0), t) && forall f :: SameKernel(t, u, f)
    ensures forall f :: SameKernel(m0, u, f)
  {
    forall f ensures SameKernel(m0, u, f) {
      assert SameKernel(Detached(m0), t, f) && SameKernel(t, u, f);
    }
  }

  lemma SetAside(m0: Mem)
    ensures Detached(m0).free == m0.free
  {
  }

  lemma AsideKept(m0: Mem, t: Mem)
    requires Ok(m0) && HeldOf(m0) == {} && SameFrames(Detached(m0), t)
    ensures HeldOf(t) == TableFrames(m0.pages, m0.tables) && t.owner.Keys == m0.owner.Keys
  {
    hide Ok, TableFrames;
    DetachOk(m0);
  }

  /**
   kexec of a file that is found, with the argument area of the new stack as a parameter: `elf` if the
   file starts with an ELF header, hs the program headers that could be read, `whole` if that is all of
   them. It succeeds exactly if every header is acceptable, the stack fits below the trap frame, the
   arguments fit the stack page, there are frames enough and no page of the old image lies past its
   break; then the old image is gone and all its frames are free. A page past the break makes freewalk
   panic. When the headers are at fault, or there is no page table, kexec waits for a lock it holds; the
   other failures are refusals. Unless the kernel panics, a failure leaves the old image as it was.
   */
  method Exec(p: Process, elf: bool, file: seq<byte>, hs: seq<Loader.Header>, whole: bool, args: seq<byte>)
    returns (r: ExecResult)
    requires p.Valid()
    modifies p`image, p`layout, p`file, p.space
    ensures var free, loads, base := |old(p.space.free)|, whole && Loader.Scanned(hs).Some?, BaseOf(Loader.Reached(hs));
      && (r == Hung <==> !elf || free < 3 || (!loads && base <= MAXVA))
      && (r == Panicked <==>
            || (elf && Overruns(free, loads, base))
            || (elf && Buildable(free, loads, base, |args|) && LeftOver(old(p.space.pages), old(p.layout.sz))))
      && (r == Executed <==> elf && Buildable(free, loads, base, |args|) && !LeftOver(old(p.space.pages), old(p.layout.sz)))
    ensures r != Panicked ==> p.Valid() && p.space.owner.Keys == old(p.space.owner).Keys
    ensures r != Panicked ==> forall f :: SameKernel(old(p.space.M()), p.space.M(), f)
    ensures r == Executed ==>
      && |args| <= PGSIZE && p.file == file && Loader.Scanned(hs) == Some(p.image)
      && p.layout == ExecLayout(RangesOf(p.image), |args|)
      && StackOnly(p.space.M(), StackBase(RangesOf(p.image)), args)
    ensures r == Refused || r == Hung ==> p.image == old(p.image) && p.layout == old(p.layout) && p.file == old(p.file)
    ensures r == Refused || r == Hung ==>
      p.space.M() == old(p.space.M()).(bytes := p.space.bytes) && Kept(old(p.space.M()), p.space.M(), {}, -1)
  {
    hide Book.Valid, Ok, HeldOf, Kept, Safe, Rights, PageUp, ExecCost, Overruns, Buildable, SameKernel, LeftOver;
    ghost var m := p.space.M();
    if !elf {
      KeptSelf(m);
      forall f ensures SameKernel(m, m, f) {
        KernelOwner(m, m, f);
      }
      return Hung;
    }
    var image, top := Loader.ScanHeaders(hs);
    Loader.ReachedBelow(hs);
    r := SwitchImage(p.space, p.layout.sz, whole && image.Some?, top, args);
    if r == Executed {
      BuildableFits(|old(p.space.free)|, whole && image.Some?, BaseOf(top), |args|);
      ExecSafe(hs, |args|, p.space.pages);
      p.file, p.image, p.layout := file, image.value, ExecLayout(RangesOf(image.value), |args|);
    }
  }

  lemma BuildableFits(free: nat, loads: bool, base: nat, args: nat)
    requires Buildable(free, loads, base, args)
    ensures loads && base + 2 * PGSIZE <= TRAPFRAME && args <= PGSIZE
  {
  }

  // ---- allocproc and freeproc ----

  /**
   allocproc: a process that can call exec, if there are frames for its trap frame and its page table.
   Otherwise every frame is given back.
   */
  method Allocproc(space: Space) returns (p: Option<Process>, trapframe: int)
    requires Ok(space.M()) && HeldOf(space.M()) == {} && space.pages == map[] && space.tables == map[]
    modifies space
    ensures Ok(space.M()) && space.owner.Keys == old(space.owner).Keys && space.pages == map[]
    ensures p.Some? <==> |old(space.free)| >= 4
    ensures p.Some? ==> p.value.Valid() && p.value.space == space && !p.value.killed && p.value.layout.sz == 0
    ensures p.Some? ==> |space.free| + 4 == |old(space.free)| && fresh(p.value)
    ensures p.Some? ==> trapframe in old(space.free) && trapframe in space.owner && space.owner[trapframe] == Kernel
    ensures forall f :: f != trapframe || p.None? ==> SameKernel(old(space.M()), space.M(), f)
    ensures p.None? ==> space.free == old(space.free) && space.tables == map[]
  {
    hide Ok, HeldOf, Path, Kept, SameFrames;
    ghost var m := space.M();
    trapframe := space.Kalloc();
    ghost var t := space.M();
    p := None;
    if trapframe < 0 {
      KernelSame(m, t);
      return;
    }
    var ok := space.NewTable();
    ghost var u := space.M();
    StillHeld(t, u, trapframe);
    if !ok {
      space.Kfree(trapframe);
      AllGivenBack(m, t, u, space.M(), trapframe);
      return;
    }
    KernelOnly(m, t, u, trapframe);
    space.Claim(trapframe);
    var book := new Book();
    var process := new Process(space, book);
    p := Some(process);
  }

  lemma KernelSame(m: Mem, t: Mem)
    requires Kept(m, t, {}, -1)
    ensures t.owner.Keys == m.owner.Keys && forall f :: SameKernel(m, t, f)
  {
  }

  lemma StillHeld(t: Mem, u: Mem, f: nat)
    requires SameFrames(t, u) && f in t.owner && t.owner[f] == Held
    ensures f in u.owner && u.owner[f] == Held && HeldOf(u) == HeldOf(t) && u.owner.Keys == t.owner.Keys
  {
    assert SameHeld(t, u, f);
  }

  lemma KernelOnly(m: Mem, t: Mem, u: Mem, f: nat)
    requires Kept(m, t, {}, -1) && SameFrames(t, u)
    ensures forall v: Mem, g :: v.owner == u.owner[f := Kernel] && g != f ==> SameKernel(m, v, g)
  {
    forall v: Mem, g | v.owner == u.owner[f := Kernel] && g != f ensures SameKernel(m, v, g) {
      assert SameKernel(m, t, g) && SameKernel(t, u, g);
    }
  }

  lemma AllGivenBack(m: Mem, t: Mem, u: Mem, v: Mem, f: nat)
    requires Ok(m) && Ok(v) && m.pages == map[] && m.tables == map[] && v.pages == map[] && v.tables == map[]
    requires HeldOf(m) == {} && HeldOf(v) == {} && Kept(m, t, {}, -1) && SameFrames(t, u) && Kept(u, v, {}, f)
    ensures v.free == m.free && v.owner.Keys == m.owner.Keys && forall g :: SameKernel(m, v, g)
  {
    hide Ok, HeldOf;
    forall g ensures SameKernel(m, v, g) {
      assert SameKernel(m, t, g) && SameKernel(t, u, g) && SameKernel(u, v, g);
    }
    forall g ensures g in v.free <==> g in m.free {
      RestIsFree(m, g);
      RestIsFree(v, g);
      assert SameKernel(m, v, g);
    }
  }

  /**
   freeproc, as wait calls it for an exited child: the trap frame and the user memory are given back. It
   panics exactly if a page lies past the break; otherwise every frame is free but other trap frames.
   */
  method Freeproc(p: Process, trapframe: nat) returns (panicked: bool)
    requires p.Valid() && trapframe in p.space.owner && p.space.owner[trapframe] == Kernel
    modifies p.space
    ensures panicked <==> LeftOver(old(p.space.pages), p.layout.sz)
    ensures !panicked ==>
      && Ok(p.space.M()) && HeldOf(p.space.M()) == {} && p.space.pages == map[] && p.space.tables == map[]
      && p.space.owner.Keys == old(p.space.owner).Keys
      && forall f :: f in p.space.owner ==> (f in p.space.free <==> f == trapframe || old(p.space.owner)[f] != Kernel)
  {
    hide Ok, HeldOf, SameFrames, Safe, Book.Valid, Rights;
    ghost var m := p.space.M();
    BreakFits(p);
    p.space.Unclaim(trapframe);
    ghost var t := p.space.M();
    panicked := p.space.Dismantle(p.layout.sz);
    if !panicked {
      FreedKeys(t, p.space.M());
      assert HeldOf(t) == {};
      forall f | f in p.space.owner ensures f in p.space.free <==> f == trapframe || m.owner[f] != Kernel {
        FreedFrame(m, t, p.space.M(), trapframe, f);
      }
    }
  }

  lemma BreakFits(p: Process)
    requires p.Valid()
    ensures p.layout.sz <= TRAPFRAME && U64(PageUp(p.layout.sz)) == PageUp(p.layout.sz) <= MAXVA
  {
    hide Ok, HeldOf, Book.Valid, Rights;
  }

  lemma FreedFrame(m: Mem, t: Mem, u: Mem, trapframe: nat, f: nat)
    requires Ok(u) && u.pages == map[] && u.tables == map[] && HeldOf(u) == {} && SameFrames(t, u)
    requires t.owner == m.owner[trapframe := Free] && f in u.owner && trapframe in m.owner
    ensures f in m.owner && (f in u.free <==> f == trapframe || m.owner[f] != Kernel)
  {
    RestIsFree(u, f);
    assert SameKernel(t, u, f);
  }

  lemma FreedKeys(t: Mem, u: Mem)
    requires SameFrames(t, u)
    ensures u.owner.Keys == t.owner.Keys && HeldOf(u) == HeldOf(t)
  {
  }

  /** A process is set up and exits again: the frames are as many and the same as before. */
  method BornAndGone(space: Space) returns (born: bool, panicked: bool)
    requires Ok(space.M()) && HeldOf(space.M()) == {} && space.pages == map[] && space.tables == map[]
    modifies space
    ensures !panicked && (born <==> |old(space.free)| >= 4)
    ensures Ok(space.M()) && space.free == old(space.free) && space.pages == map[] && space.tables == map[]
  {
    hide Ok, HeldOf, Process.Valid, SameKernel;
    ghost var m := space.M();
    var p, trapframe := Allocproc(space);
    born := p.Some?;
    panicked := false;
    if born {
      ghost var t := space.M();
      panicked := Freeproc(p.value, trapframe);
      forall f ensures f in space.free <==> f in m.free {
        BackAgain(m, t, space.M(), trapframe, f);
      }
    }
  }

  lemma BackAgain(m: Mem, t: Mem, u: Mem, trapframe: nat, f: nat)
    requires Ok(m) && Ok(u) && m.pages == map[] && m.tables == map[] && HeldOf(m) == {} && trapframe in m.free
    requires u.owner.Keys == t.owner.Keys == m.owner.Keys && (f != trapframe ==> SameKernel(m, t, f))
    requires f in u.owner ==> (f in u.free <==> f == trapframe || t.owner[f] != Kernel)
    requires u.pages == map[] && u.tables == map[]
    ensures f in u.free <==> f in m.free
  {
    RestIsFree(m, f);
    RestIsFree(u, f);
  }

  /** The page an access in segment i of a freshly executed program brings in is that page of the program loaded eagerly. */
  lemma StartIsEager(p: Process, hs: seq<Loader.Header>, args: nat, t: nat, d: nat, i: nat, x: nat)
    requires Loader.Scanned(hs).Some? && args <= PGSIZE && Loader.TwoSegments(p.file, hs, t, d) && (i == t || i == d)
    requires p.image == Loader.Scanned(hs).value && p.layout == ExecLayout(RangesOf(p.image), args)
    requires Loader.Covers(hs[i], x) && x < p.layout.sz
    ensures EagerlyLoaded(p.file, hs, PageDown(x), p.Start(x))
  {
    hide Loader.EagerImage, Loader.BuiltPage, Loader.Scanned, ExecLayout;
    TouchedSegment(p, hs, args, t, d, i, x);
    Loader.FaultBuildsEagerPage(p.file, hs, t, d, i, PageDown(x));
  }

  /** The address lies in the file-backed part of the layout, and its page in the segment. */
  lemma TouchedSegment(p: Process, hs: seq<Loader.Header>, args: nat, t: nat, d: nat, i: nat, x: nat)
    requires Loader.Scanned(hs).Some? && args <= PGSIZE && Loader.TwoSegments(p.file, hs, t, d) && (i == t || i == d)
    requires p.image == Loader.Scanned(hs).value && p.layout == ExecLayout(RangesOf(p.image), args)
    requires Loader.Covers(hs[i], x) && x < p.layout.sz
    ensures p.FileBacked(x) && Loader.Covers(hs[i], PageDown(x)) && p.SegmentOf(PageDown(x)).start <= PageDown(x)
  {
    hide Loader.Scanned;
    SegmentBelow(hs, i);
    Loader.OneSegmentRecorded(hs, t);
    Loader.OneSegmentRecorded(hs, d);
    assert hs[i].vaddr % PGSIZE == 0;
  }

  /** The page holds, byte for byte, what an eager loader of these headers puts at a. */
  ghost predicate EagerlyLoaded(file: seq<byte>, hs: seq<Loader.Header>, a: nat, page: Option<seq<byte>>)
  {
    && (forall j :: 0 <= j < |hs| && hs[j].load ==> hs[j].off + hs[j].filesz <= |file|)
    && page.Some? && |page.value| == PGSIZE
    && forall k :: 0 <= k < PGSIZE ==> page.value[k] == Loader.EagerImage(file, hs, a + k)
  }

  /**
   A program of one text and one data segment is executed and then touched for the first time at any
   address of a segment off the stack. If the process survives, the page holds what an eager loader
   would have put there. Only a program that reaches into the last page of the address space has
   segments on its stack, which then wraps around to address 0.
   */
  method ExecThenTouch(p: Process, file: seq<byte>, hs: seq<Loader.Header>, args: seq<byte>, t: nat, d: nat,
                       acc: Access, i: nat, x: nat, env: Env) returns (r: ExecResult, fate: Fate)
    requires p.Valid() && !p.killed && EnvOk(env) && Loader.TwoSegments(file, hs, t, d) && (i == t || i == d)
    requires Loader.Covers(hs[i], x) && !p.Saved(PageDown(x))
    modifies p, p.space, p.book.stat, p.book.stat.pages, p.book.swap, p.book.swap.table
    ensures r == Executed && fate == Alive && !OnStack(p.image.sz, PageDown(x)) ==>
      PageDown(x) in p.space.pages && EagerlyLoaded(file, hs, PageDown(x), p.PageAt(x))
    ensures r == Executed && OnStack(p.image.sz, PageDown(x)) ==> p.image.sz > UINT64 - PGSIZE
  {
    hide Process.Valid, EagerlyLoaded, EnvOk, Loader.Scanned, Overruns, Buildable, LeftOver, Process.Saved, ExecLayout;
    hide Loader.TwoSegments, Loader.OnlyOne, Loader.Covers, Process.PageAt, StackOnly, OnStack, StackBase;
    hide Loader.Reached, BaseOf, Kept, SameKernel;
    r := Exec(p, true, file, hs, true, args);
    fate := Killed;
    if r == Executed {
      BothLoad(file, hs, t, d);
      OffStack(hs, i, x);
      OnlyStack(p.space.M(), p.image, args, PageDown(x));
      fate := Touch(p, hs, |args|, t, d, acc, i, x, env);
    }
  }

  /** The first access to a page of a freshly executed program. */
  method Touch(p: Process, hs: seq<Loader.Header>, args: nat, t: nat, d: nat, acc: Access, i: nat, x: nat, env: Env)
    returns (fate: Fate)
    requires p.Valid() && !p.killed && EnvOk(env) && Loader.TwoSegments(p.file, hs, t, d) && (i == t || i == d)
    requires Loader.Covers(hs[i], x) && !p.Saved(PageDown(x)) && args <= PGSIZE
    requires Loader.Scanned(hs) == Some(p.image) && p.layout == ExecLayout(RangesOf(p.image), args)
    modifies p`killed, p.space, p.book.stat, p.book.stat.pages, p.book.swap, p.book.swap.table
    ensures fate == Alive && PageDown(x) !in old(p.space.pages) ==>
      PageDown(x) in p.space.pages && EagerlyLoaded(p.file, hs, PageDown(x), p.PageAt(x))
  {
    hide Process.Valid, Process.Start, EagerlyLoaded, EnvOk, LoadedFirst, Loader.Scanned, Short, ExecLayout, Kept;
    hide Process.Tears, Process.Goes, Process.Room, Process.Panics, Process.NeedsFrame, Process.Survives, Process.Result;
    hide Process.Saved, Process.CauseOf, Process.Unseen, Process.Taken, Process.Dirty, SamePage, Loader.TwoSegments, Loader.Covers;
    if x < p.layout.sz {
      StartIsEager(p, hs, args, t, d, i, x);
      BreakFits(p);
    } else {
      p.PastBreak(acc, x, env);
    }
    if PageDown(x) !in p.space.pages {
      p.SeenOutside(acc, x);
    }
    ghost var m := p.space.M();
    ghost var was := p.PageAt(x);
    ghost var cause := p.CauseOf(acc, x);
    ghost var v;
    fate, v := p.UserFault(acc, x, env);
    if fate == Alive && PageDown(x) !in m.pages {
      p.Back(acc, x, cause, m, p.space.M(), was, p.PageAt(x));
    }
  }

  /** Page a is the guard page or the stack page of an image reaching to top. */
  predicate OnStack(top: nat, a: nat)
  {
    a == BaseOf(top) || a == BaseOf(top) + PGSIZE
  }

  lemma BothLoad(file: seq<byte>, hs: seq<Loader.Header>, t: nat, d: nat)
    requires Loader.TwoSegments(file, hs, t, d)
    ensures Loader.OnlyOne(hs, t) && Loader.OnlyOne(hs, d)
  {
  }

  lemma OnlyStack(m: Mem, image: Loader.Image, args: seq<byte>, a: nat)
    requires |args| <= PGSIZE && StackOnly(m, StackBase(RangesOf(image)), args)
    ensures a in m.pages <==> OnStack(image.sz, a)
  {
    hide PageUp, U64;
  }

  /** A segment's page is on the stack only where the stack has wrapped around. */
  lemma OffStack(hs: seq<Loader.Header>, i: nat, x: nat)
    requires Loader.Scanned(hs).Some? && Loader.OnlyOne(hs, i) && Loader.Covers(hs[i], x)
    ensures OnStack(Loader.Scanned(hs).value.sz, PageDown(x)) ==> Loader.Scanned(hs).value.sz > UINT64 - PGSIZE
  {
    SegmentBelow(hs, i);
    Loader.ReachedBelow(hs);
    BaseAligned(RangesOf(Loader.Scanned(hs).value));
  }

  lemma {:induction false} SegmentBelow(hs: seq<Loader.Header>, i: nat)
    requires Loader.Scanned(hs).Some? && i < |hs| && hs[i].load
    ensures hs[i].vaddr + hs[i].memsz <= Loader.Scanned(hs).value.sz
    decreases |hs|
  {
    if i < |hs| - 1 {
      SegmentBelow(hs[..|hs| - 1], i);
    }
  }

  // ---- contents that do not survive ----

  /** Memory with page 8192 mapped on four frames and none left. */
  method FourFrames(content: seq<byte>) returns (space: Space)
    requires |content| == PGSIZE
    ensures fresh(space) && Ok(space.M()) && HeldOf(space.M()) == {} && space.free == {}
    ensures space.pages.Keys == {8192} && space.pages[8192].flags == RW && Missing(space.tables, 12288) == 0
    ensures space.pages[8192].frame in space.bytes && ContentsOf(space.M(), 8192) == content
  {
    hide Ok, Kept, HeldOf, Missing, Path;
    space := new Space({0, 1, 2, 3});
    var ok := space.AddTable(ROOT);
    OnlyRoot(space.tables);
    MapOne(space, content);
  }

  /** The last three frames for page 8192 and its tables. */
  method MapOne(space: Space, content: seq<byte>)
    requires Ok(space.M()) && HeldOf(space.M()) == {} && |space.free| == 3 && space.tables.Keys == {ROOT}
    requires space.pages == map[] && Missing(space.tables, 8192) == 2 && |content| == PGSIZE
    modifies space
    ensures Ok(space.M()) && HeldOf(space.M()) == {} && space.free == {}
    ensures space.pages.Keys == {8192} && space.pages[8192].flags == RW && Missing(space.tables, 12288) == 0
    ensures space.pages[8192].frame in space.bytes && ContentsOf(space.M(), 8192) == content
  {
    hide Ok, Kept, HeldOf, Missing, Path;
    var f := space.Kalloc();
    space.Fill(f, content);
    var ok := space.MapPage(8192, f, RW);
    SameTables(space.tables);
    assert |space.free| == 0;
  }

  lemma OnlyRoot(tables: map<TKey, nat>)
    requires tables.Keys == {ROOT}
    ensures Missing(tables, 8192) == 2
  {
  }

  lemma SameTables(tables: map<TKey, nat>)
    requires tables.Keys == {ROOT} + Path(8192)
    ensures Missing(tables, 12288) == 0
  {
    assert Middle(12288) == Middle(8192) && Last(12288) == Last(8192);
  }

  const SMALL: Layout := Layout(16384, 0, 0, 0, 0, 0)

  /** A process with one page in memory, recorded clean, and no frame left. */
  method FullProcess(content: seq<byte>, env: Env) returns (p: Process)
    requires |content| == PGSIZE
    ensures fresh(p) && fresh(p.space) && fresh(p.book.stat) && fresh(p.book.stat.pages)
    ensures fresh(p.book.swap) && fresh(p.book.swap.table)
    ensures p.Valid() && !p.killed && p.layout == SMALL && p.space.free == {} && p.space.pages.Keys == {8192}
    ensures Missing(p.space.tables, 12288) == 0 && p.Evictable(env) && !p.Dirty(8192)
    ensures forall v: nat :: LoadedFirst(p.book.stat.pages[..], p.book.stat.marks, v) ==> v == 8192
    ensures p.PageAt(8192) == Some(content) && p.book.Stored(8192).None? && p.book.Stored(12288).None?
  {
    hide Ok, HeldOf, Kept, MemStat.Oldest, MemStat.Status, MemStat.Full, Book.Valid, Safe, Rights, Missing, CanEvict;
    hide LoadedFirst;
    var space := FourFrames(content);
    var book := new Book();
    book.RoomAtFirst(8192);
    book.Load(8192, false);
    OnePageSafe(SMALL, space.pages);
    p := new Process.Running(space, book, SMALL);
    ghost var i := book.OnlyRecord(8192);
    EvictsOnly(book.stat.pages[..], book.stat.marks, space.pages, book.swap.open, book.swap.num, env, i);
  }

  /** A written page whose record says clean does not survive: it is evicted when memory is full and comes back as zeros. */
  method CleanPageIsLost(content: seq<byte>) returns (alive: bool, ghost was: Option<seq<byte>>, ghost now: Option<seq<byte>>)
    requires |content| == PGSIZE && content != Loader.Zeros(PGSIZE)
    ensures alive && was == Some(content) && now == Some(Loader.Zeros(PGSIZE)) && now != was
  {
    hide Process.Valid, Process.Dirty, CanEvict, LoadedFirst, Missing, Kept;
    var env := Env(0, false, []);
    var p := FullProcess(content, env);
    was := p.PageAt(8192);
    var fate;
    ghost var victim;
    fate, victim := p.UserFault(Read, 12288, env);
    alive := fate == Alive;
    now := p.PageAt(8192);
  }

  /** A book in which page 12288 is swapped out with these contents. */
  method SavedPage(content: seq<byte>) returns (book: Book)
    requires |content| == PGSIZE
    ensures fresh(book) && fresh(book.stat) && fresh(book.stat.pages) && fresh(book.swap) && fresh(book.swap.table)
    ensures book.Valid() && book.Stored(12288) == Some(content)
  {
    hide MemStat.Oldest, MemStat.Status, MemStat.Full, Book.Valid;
    book := new Book();
    book.RoomAtFirst(12288);
    book.Load(12288, true);
    ghost var i := book.OnlyRecord(12288);
    var idx := book.SelectVictim();
    OneOldest(book.stat.pages[..], book.stat.marks, i, idx);
    assert book.stat.pages[idx] == book.stat.pages[..][i];
    var ok := book.Evict(idx, Some(content), Env(PGSIZE, true, []));
  }

  /** A process with page 12288 swapped out and nothing in memory but a trap frame. */
  method SwappedProcess(frames: set<nat>, content: seq<byte>) returns (p: Process, trapframe: nat)
    requires |content| == PGSIZE && frames != {}
    ensures fresh(p) && fresh(p.space) && fresh(p.book.stat) && fresh(p.book.stat.pages)
    ensures fresh(p.book.swap) && fresh(p.book.swap.table)
    ensures p.Valid() && !p.killed && p.layout == SMALL && p.book.Stored(12288) == Some(content) && p.space.pages == map[]
    ensures |p.space.free| + 1 == |frames| && p.space.tables == map[]
    ensures trapframe in p.space.owner && p.space.owner[trapframe] == Kernel
  {
    hide Ok, HeldOf, Book.Valid, Safe, Rights;
    var space := new Space(frames);
    trapframe := space.Kalloc();
    space.Claim(trapframe);
    var book := SavedPage(content);
    NoPageSafe();
    p := new Process.Running(space, book, SMALL);
  }

  /** A kernel access to a page that is swapped out finds zeros, although its contents are in the store. */
  method KernelMissesSavedPage(frames: set<nat>, content: seq<byte>)
    returns (f: int, ghost was: Option<seq<byte>>, ghost now: Option<seq<byte>>)
    requires |content| == PGSIZE && content != Loader.Zeros(PGSIZE) && |frames| >= 4
    ensures f >= 0 && was == Some(content) && now == Some(Loader.Zeros(PGSIZE)) && now != was
  {
    hide Kept, LoadedFirst, CanEvict, Process.Valid, SamePage;
    var p, trapframe := SwappedProcess(frames, content);
    assert PageDown(12288) == 12288;
    was := p.PageAt(12288);
    ghost var victim;
    f, victim := p.KernelFault(12288, Env(0, false, []));
    now := p.PageAt(12288);
  }

  // ---- calls that do not come back ----

  /** A process gives up the upper half of its memory while a page there is swapped out, and then reads that page. */
  method PageLeftOver(frames: set<nat>, content: seq<byte>) returns (p: Process, trapframe: nat)
    requires |content| == PGSIZE && |frames| >= 11
    ensures fresh(p) && fresh(p.space) && p.Valid() && p.layout.sz == 8192 && LeftOver(p.space.pages, 8192)
    ensures |p.space.free| >= 7 && trapframe in p.space.owner && p.space.owner[trapframe] == Kernel
  {
    hide Process.Valid, LoadedFirst, CanEvict, SamePage, Kept, Missing, Process.Survives, Process.Panics, Process.Tears;
    hide Process.NeedsFrame, Process.Taken, Process.Result, Process.CauseOf, Process.PageAt, FramesOf, Short, Range, Process.Goes;
    p, trapframe := SwappedProcess(frames, content);
    ghost var m := p.space.M();
    var r := Sbrk(p, -8192, false);
    ghost var t := p.space.M();
    NothingLost(m, t, trapframe);
    var env := Env(0, false, []);
    SavedIsRead(p, content, env);
    ghost var cause, was := p.CauseOf(Read, 12288), p.PageAt(12288);
    var fate;
    ghost var victim;
    fate, victim := p.UserFault(Read, 12288, env);
    p.Back(Read, 12288, cause, t, p.space.M(), was, p.PageAt(12288));
    StillKernel(t, p.space.M(), {PageDown(12288)} + Only(victim), trapframe);
  }

  /** With three frames left a saved page can be read, break or no break. */
  lemma SavedIsRead(p: Process, content: seq<byte>, env: Env)
    requires p.book.Stored(12288) == Some(content) && p.space.pages == map[] && |p.space.free| >= 3
    requires p.layout.stackTop == 0
    ensures PageDown(12288) == 12288 && p.Survives(Read, 12288, env) && p.Taken(Read, 12288) <= 3 && !p.Unseen(Read, 12288)
  {
    assert Short(12288) == 12288 && PageDown(12288) == 12288;
    hide Short, PageDown;
    assert !InGuard(p.layout, 12288);
  }

  lemma StillKernel(m: Mem, t: Mem, x: set<nat>, f: nat)
    requires Kept(m, t, x, -1) && f in m.owner && m.owner[f] == Kernel
    ensures f in t.owner && t.owner[f] == Kernel
  {
    assert SameKernel(m, t, f);
  }

  /** exec panics where a page was left over past the break. */
  method ExecPanics(frames: set<nat>, content: seq<byte>) returns (r: ExecResult)
    requires |content| == PGSIZE && |frames| >= 11
    ensures r == Panicked
  {
    hide Process.Valid;
    var p, trapframe := PageLeftOver(frames, content);
    SmallCost();
    r := Exec(p, true, [], [], true, []);
  }

  /** So does the parent's wait when such a process has exited. */
  method ExitPanics(frames: set<nat>, content: seq<byte>) returns (panicked: bool)
    requires |content| == PGSIZE && |frames| >= 11
    ensures panicked
  {
    hide Process.Valid;
    var p, trapframe := PageLeftOver(frames, content);
    panicked := Freeproc(p, trapframe);
  }

  /** exec of a program with a misaligned segment never comes back, however much memory there is. */
  method ExecHangs(frames: set<nat>) returns (r: ExecResult)
    requires |frames| >= 7
    ensures r == Hung
  {
    hide Process.Valid, Ok, HeldOf;
    var space := new Space(frames);
    var p, trapframe := Allocproc(space);
    var h := Loader.Header(true, true, 1, 0, 0, 0);
    OneBad(h);
    r := Exec(p.value, true, [], [h], true, []);
  }

  /** A read far past the last virtual address panics when its low 32 bits are those of a swapped-out page. */
  method FarReadPanics(frames: set<nat>, content: seq<byte>) returns (fate: Fate)
    requires |content| == PGSIZE && frames != {}
    ensures fate == Fate.Panic
  {
    hide Process.Valid;
    var p, trapframe := SwappedProcess(frames, content);
    var va := 0x1000_0000_0000 + 12288;
    assert PageDown(va) == va && Short(va) == 12288;
    ghost var victim;
    fate, victim := p.UserFault(Read, va, Env(0, false, []));
  }

  lemma SmallCost()
    ensures BaseOf(Loader.Reached([])) == 0 && ExecCost(0) <= 7
  {
    PathsNext(0, 0);
    PathsNext(0, 1);
    assert Middle(4096) == Middle(0) && Last(4096) == Last(0);
    assert Paths(0, 2) == Path(0);
    var l := Paths(0, 2) - ({ROOT} + Path(TRAMPOLINE));
    assert l <= {Middle(0), Last(0)};
    assert l == {} || l == {Middle(0)} || l == {Last(0)} || l == {Middle(0), Last(0)};
  }

  lemma OneBad(h: Loader.Header)
    requires !Loader.Acceptable(h)
    ensures Loader.Scanned([h]).None? && BaseOf(Loader.Reached([h])) == 0
  {
    assert [h][..0] == [];
  }

  /** Giving up memory without pages changes nothing. */
  lemma NothingLost(m: Mem, t: Mem, f: nat)
    requires m.pages == map[] && t.pages == m.pages - Range(PageUp(8192), PageUp(16384)) && f in m.owner && m.owner[f] == Kernel
    requires t.free == m.free + FramesOf(m.pages, Range(PageUp(8192), PageUp(16384)))
    requires Kept(m, t, Range(PageUp(8192), PageUp(16384)), -1)
    ensures t.pages == map[] && t.free == m.free && PageUp(8192) == 8192 && f in t.owner && t.owner[f] == Kernel
  {
    StillKernel(m, t, Range(PageUp(8192), PageUp(16384)), f);
  }

  lemma NoPageSafe()
    ensures Safe(Proc(SMALL, Rights(map[])))
  {
  }

  lemma OnePageSafe(layout: Layout, pages: map<nat, Leaf>)
    requires layout == Layout(16384, 0, 0, 0, 0, 0) && pages.Keys == {8192} && pages[8192].flags == RW
    ensures Safe(Proc(layout, Rights(pages)))
  {
  }

  lemma EvictsOnly(stats: seq<MemStat.PageStat>, marks: seq<nat>, pages: map<nat, Leaf>, open: bool, num: int, env: Env, i: nat)
    requires MemStat.Oldest(stats, marks, i, false) && stats[i].va in pages && !stats[i].dirty
    ensures CanEvict(stats, marks, pages, open, num, env)
    ensures forall v: nat :: LoadedFirst(stats, marks, v) ==> v == stats[i].va
  {
    forall j: nat | MemStat.Oldest(stats, marks, j, false) ensures j == i {
      OneOldest(stats, marks, i, j);
    }
  }
}
