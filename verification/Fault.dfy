/**
 The page-fault path: usertrap's page-fault branch and vmfault, with replacement, over the resident
 page table, the swap store, the rights of Permissions, the pages of Loader and the frames of
 UserMemory.
 */
module Fault {
  import opened Common
  import opened Permissions
  import opened Residency
  import opened UserMemory
  import MemStat
  import Loader

  ghost function Rights(pages: map<nat, Leaf>): (m: map<nat, Flags>)
  {
    map a | a in pages :: pages[a].flags
  }

  lemma RightsPut(pages: map<nat, Leaf>, a: nat, l: Leaf)
    ensures Rights(pages[a := l]) == Rights(pages)[a := l.flags]
  {
  }

  lemma SafeRemove(layout: Layout, pages: map<nat, Leaf>, a: nat)
    requires Safe(Proc(layout, Rights(pages)))
    ensures Safe(Proc(layout, Rights(pages - {a})))
  {
    FaultKeepsSafe(Proc(layout, Rights(pages)), Permissions.Evict(0, a));
    assert Rights(pages - {a}) == Rights(pages) - {a};
  }

  lemma SafeUpgrade(layout: Layout, pages: map<nat, Leaf>, acc: Access, va: nat)
    requires Safe(Proc(layout, Rights(pages))) && PageDown(va) in pages && Classify(layout, acc, va, false) == FromFile
    requires pages[PageDown(va)].flags.u
    ensures var a := PageDown(va);
      Safe(Proc(layout, Rights(pages)[a := Granted(layout, acc, va, FromFile, Some(pages[a].flags))]))
  {
    FaultKeepsSafe(Proc(layout, Rights(pages)), UserFault(0, acc, va, false));
  }

  lemma SafeKernelGrant(layout: Layout, pages: map<nat, Leaf>, a: nat)
    requires Safe(Proc(layout, Rights(pages))) && a !in pages && a % PGSIZE == 0 && KernelGranted(layout, a).Some?
    ensures Safe(Proc(layout, Rights(pages)[a := KernelGranted(layout, a).value]))
  {
    FaultKeepsSafe(Proc(layout, Rights(pages)), Permissions.KernelFault(0, a));
  }

  lemma SafeGrant(layout: Layout, pages: map<nat, Leaf>, acc: Access, va: nat, swapped: bool)
    requires Safe(Proc(layout, Rights(pages))) && PageDown(va) !in pages && PageDown(va) < MAXVA
    requires Classify(layout, acc, va, swapped) != Invalid
    ensures var c := Classify(layout, acc, va, swapped);
      Safe(Proc(layout, Rights(pages)[PageDown(va) := Granted(layout, acc, va, c, None)]))
  {
    FaultKeepsSafe(Proc(layout, Rights(pages)), UserFault(0, acc, va, swapped));
  }

  /** The page of a file-backed address starts inside its segment. */
  lemma FilePage(layout: Layout, pages: map<nat, Leaf>, va: nat)
    requires Safe(Proc(layout, Rights(pages))) && (InText(layout, va) || InData(layout, va))
    ensures IsText(layout, PageDown(va)) || layout.dataStart <= PageDown(va)
  {
  }

  // ---- who is evicted ----

  /** Page a is recorded resident and was loaded before every other resident page. */
  ghost predicate LoadedFirst(stats: seq<MemStat.PageStat>, marks: seq<nat>, a: nat)
  {
    exists i: nat :: MemStat.Oldest(stats, marks, i, false) && stats[i].va == a
  }

  /** The page loaded longest ago can go: it is mapped, and if its record says dirty it can be saved. */
  ghost predicate CanEvict(stats: seq<MemStat.PageStat>, marks: seq<nat>, pages: map<nat, Leaf>, open: bool, num: int, env: Env)
  {
    exists i: nat ::
      MemStat.Oldest(stats, marks, i, false) && stats[i].va in pages && (stats[i].dirty ==> CanSave(open, num, env))
  }

  lemma OneOldest(stats: seq<MemStat.PageStat>, marks: seq<nat>, i: nat, j: nat)
    requires MemStat.Oldest(stats, marks, i, false) && MemStat.Oldest(stats, marks, j, false)
    ensures i == j
  {
  }

  lemma VictimDecides(stats: seq<MemStat.PageStat>, marks: seq<nat>, pages: map<nat, Leaf>, open: bool, num: int,
                      env: Env, i: nat)
    requires MemStat.Oldest(stats, marks, i, false)
    ensures CanEvict(stats, marks, pages, open, num, env) <==>
      stats[i].va in pages && (stats[i].dirty ==> CanSave(open, num, env))
  {
    forall j: nat | MemStat.Oldest(stats, marks, j, false) ensures j == i {
      OneOldest(stats, marks, i, j);
    }
  }

  lemma NoVictim(stats: seq<MemStat.PageStat>, marks: seq<nat>, pages: map<nat, Leaf>, open: bool, num: int, env: Env)
    requires forall i :: 0 <= i < |stats| ==> stats[i].state != MemStat.RESIDENT
    ensures !CanEvict(stats, marks, pages, open, num, env)
  {
  }

  /** Page a left memory, and its frame is the only free one. */
  ghost predicate Evicted(m: Mem, t: Mem, a: nat)
  {
    a in m.pages && t.pages == m.pages - {a} && t.tables == m.tables && Kept(m, t, {a}, -1) && t.free == {m.pages[a].frame}
  }

  function Only(v: Option<nat>): set<nat>
  {
    if v.Some? then {v.value} else {}
  }

  /** The part of a page address that fits the 32-bit field of its record. */
  function Short(a: nat): (k: nat)
    ensures k < MemStat.VALIMIT && (a < MemStat.VALIMIT ==> k == a)
  {
    a % MemStat.VALIMIT
  }

  lemma ShortAligned(a: nat)
    requires a % PGSIZE == 0
    ensures Short(a) % PGSIZE == 0
  {
    var q, k := a / MemStat.VALIMIT, a / PGSIZE;
    assert Short(a) == (k - q * 0x10_0000) * PGSIZE;
  }

  /** What a page holds: its frame's bytes, or else what a fault would bring in. */
  ghost function Holding(m: Mem, a: nat, backing: Option<seq<byte>>): Option<seq<byte>>
  {
    if a in m.pages && m.pages[a].frame in m.bytes then Some(m.bytes[m.pages[a].frame]) else backing
  }

  /** Page v was the one loaded longest ago, and what is stored for it now are its contents if it was dirty. */
  ghost predicate Chosen(m: Mem, stats: seq<MemStat.PageStat>, marks: seq<nat>, v: nat, dirty: bool, stored: Option<seq<byte>>)
  {
    LoadedFirst(stats, marks, v) && stored == if dirty then Holding(m, v, None) else None
  }

  /** The rights of a page that a fault newly maps. */
  function NewFlags(l: Layout, acc: Access, va: nat, swapped: bool): Flags
  {
    var cause := Classify(l, acc, va, swapped);
    if cause == Invalid then Flags(false, false, false, false) else Granted(l, acc, va, cause, None)
  }

  /** How a user fault ends. Torn: the page is mapped and recorded resident while a copy stays stored under its record's address. */
  datatype Fate = Alive | Killed | Panic | Torn

  class Process {
    const space: Space
    const book: Book                // which pages are resident, which are swapped out
    var file: seq<byte>             // the executable
    var image: Loader.Image
    var layout: Layout
    var killed: bool

    /** A new process: a page table without user pages, nothing recorded. */
    constructor (space: Space, book: Book)
      requires book.Valid() && Ok(space.M()) && HeldOf(space.M()) == {} && space.pages == map[]
      ensures Valid() && this.space == space && this.book == book && !killed
      ensures image == Loader.EMPTY && layout == Layout(0, 0, 0, 0, 0, 0)
    {
      this.space, this.book, this.file := space, book, [];
      image, layout, killed := Loader.EMPTY, Layout(0, 0, 0, 0, 0, 0), false;
    }

    /** A process that is already running, with no program pages. */
    constructor Running(space: Space, book: Book, layout: Layout)
      requires book.Valid() && Ok(space.M()) && HeldOf(space.M()) == {} && Safe(Proc(layout, Rights(space.pages)))
      requires layout.textStart == layout.textEnd == layout.dataStart == layout.dataEnd == 0
      ensures Valid() && this.space == space && this.book == book && this.layout == layout && !killed
    {
      this.space, this.book, this.layout := space, book, layout;
      file, image, killed := [], Loader.EMPTY, false;
    }

    /** The address ranges match the recorded segments. */
    ghost predicate LayoutOk()
      reads this`image, this`layout
    {
      && layout.textStart == image.text.start && layout.textEnd == image.text.end
      && layout.dataStart == image.data.start && layout.dataEnd == image.data.end
    }

    /** Everything in order, with the frames hs in the kernel's hands. */
    ghost predicate ValidWith(hs: set<nat>)
      reads this`image, this`layout, space, book, book.stat, book.stat.pages, book.swap, book.swap.table
    {
      && book.Valid() && Ok(space.M()) && HeldOf(space.M()) == hs
      && LayoutOk() && Safe(Proc(layout, Rights(space.pages)))
    }

    ghost predicate Valid()
      reads this`image, this`layout, space, book, book.stat, book.stat.pages, book.swap, book.swap.table
    {
      ValidWith({})
    }

    /** The segment a file-backed page belongs to. */
    ghost function SegmentOf(a: nat): Loader.Segment
      reads this`image
    {
      if Loader.InSegment(image.text, a) then image.text else image.data
    }

    ghost predicate FileBacked(x: nat)
      reads this`layout
    {
      InText(layout, x) || InData(layout, x)
    }

    /** The page that a first access at x brings in: the program's, where the file has it, or zeros. */
    ghost function Start(x: nat): Option<seq<byte>>
      reads this`image, this`layout, this`file
    {
      var a := PageDown(x);
      if !FileBacked(x) then Some(Loader.Zeros(PGSIZE))
      else if SegmentOf(a).start <= a then Loader.BuiltPage(file, SegmentOf(a), a)
      else None
    }

    /** A saved copy is found under the record for page a. */
    ghost predicate Saved(a: nat)
      reads book, book.swap, book.swap.table
    {
      book.Stored(Short(a)).Some?
    }

    /** What a fault at x brings in: the saved copy, if the record promises one, or the page it starts from. */
    ghost function Brought(x: nat, swapped: bool): Option<seq<byte>>
      reads this`image, this`layout, this`file, book, book.swap, book.swap.table
    {
      if swapped then book.Stored(PageDown(x)) else Start(x)
    }

    /** The page that an access at x sees, bringing it in if need be; None if that cannot be done. */
    ghost function PageAt(x: nat): Option<seq<byte>>
      reads this`image, this`layout, this`file, space, book, book.swap, book.swap.table
    {
      Holding(space.M(), PageDown(x), Brought(x, Saved(PageDown(x))))
    }

    /** The record of page a says that it was written to since it was loaded. */
    ghost predicate Dirty(a: nat)
      reads book, book.stat, book.stat.pages
    {
      book.Recorded(a).Some? && book.Recorded(a).value.dirty
    }

    ghost predicate Evictable(env: Env)
      reads space, book, book.stat, book.stat.pages, book.swap
    {
      CanEvict(book.stat.pages[..], book.stat.marks, space.pages, book.swap.open, book.swap.num, env)
    }

    /** The page at this index of the table leaves memory, saved first if its record says dirty. */
    method EvictPage(idx: nat, env: Env) returns (ok: bool)
      requires Valid() && EnvOk(env) && space.free == {} && book.Resident(idx) && book.stat.pages[idx].va in space.pages
      modifies space`pages, space`free, space`bytes, space`owner, book.stat.pages, book.swap, book.swap.table
      ensures Valid()
      ensures ok <==> (old(book.stat.pages[idx]).dirty ==> CanSave(old(book.swap.open), old(book.swap.num), env))
      ensures !ok ==> space.M() == old(space.M()) && forall v: nat :: book.Stored(v) == old(book.Stored(v))
      ensures ok ==> Evicted(old(space.M()), space.M(), old(book.stat.pages[idx]).va)
      ensures ok ==> forall v: nat :: v != old(book.stat.pages[idx]).va ==> book.Stored(v) == old(book.Stored(v))
      ensures var e := old(book.stat.pages[idx]);
        ok ==> book.Stored(e.va) == if e.dirty then Holding(old(space.M()), e.va, None) else None
    {
      hide Book.Valid, Safe, MemStat.Status, Ok, HeldOf, Kept, Rights;
      var a := book.stat.pages[idx].va;
      var dirty := book.stat.pages[idx].dirty;
      FrameOf(space.M(), a);
      ok := book.Evict(idx, if dirty then Some(space.bytes[space.pages[a].frame]) else None, env);
      if ok {
        SafeRemove(layout, space.pages, a);
        space.Unmap(a);
      }
    }

    /**
     Evict the page loaded longest ago, saving it first if its record says dirty. When that cannot be
     done, nothing is evicted.
     */
    method Replace(env: Env) returns (ghost victim: Option<nat>)
      requires Valid() && EnvOk(env) && space.free == {}
      modifies this`killed, space`pages, space`free, space`bytes, space`owner, book.stat.pages, book.swap, book.swap.table
      ensures Valid() && (victim.Some? <==> old(Evictable(env)))
      ensures victim.None? ==> space.M() == old(space.M()) && forall v: nat :: book.Stored(v) == old(book.Stored(v))
      ensures victim.Some? ==>
        && Evicted(old(space.M()), space.M(), victim.value) && killed == old(killed)
        && (forall v: nat :: v != victim.value ==> book.Stored(v) == old(book.Stored(v)))
        && victim.value < MemStat.VALIMIT && old(book.Stored(victim.value)).None?
        && Chosen(old(space.M()), old(book.stat.pages[..]), old(book.stat.marks), victim.value, old(Dirty(victim.value)),
                  book.Stored(victim.value))
    {
      hide Book.Valid, Safe, MemStat.Oldest, MemStat.Status, Ok, HeldOf, Kept, CanEvict, Rights, Evicted;
      victim := None;
      var idx := book.SelectVictim();
      if idx < 0 {
        NoVictim(book.stat.pages[..], book.stat.marks, space.pages, book.swap.open, book.swap.num, env);
        killed := true;
        return;
      }
      VictimDecides(book.stat.pages[..], book.stat.marks, space.pages, book.swap.open, book.swap.num, env, idx);
      book.VictimRecord(idx);
      var a := book.stat.pages[idx].va;
      book.Facts(a);
      if a !in space.pages {
        var _ := book.Evict(idx, None, env);
        return;
      }
      var ok := EvictPage(idx, env);
      if ok {
        victim := Some(a);
      } else {
        killed := true;
      }
    }

    /** The frame of the page loaded longest ago, which leaves memory; -1 if it cannot. */
    method Reclaim(env: Env) returns (f: int, ghost victim: Option<nat>)
      requires Valid() && EnvOk(env) && space.free == {}
      modifies this`killed, space`pages, space`free, space`bytes, space`owner, book.stat.pages, book.swap, book.swap.table
      ensures ValidWith(if f >= 0 then {f} else {}) && space.free == {}
      ensures (f >= 0 <==> old(Evictable(env))) && (victim.Some? <==> f >= 0)
      ensures space.pages == old(space.pages) - Only(victim) && Kept(old(space.M()), space.M(), Only(victim), -1)
      ensures f >= 0 ==> f in space.owner && space.owner[f] == Held && killed == old(killed)
      ensures f >= 0 ==> f in old(space.owner) && old(space.owner)[f] != Held
      ensures forall v: nat :: Some(v) != victim ==> book.Stored(v) == old(book.Stored(v))
      ensures victim.Some? ==> victim.value in old(space.pages) && f == old(space.pages)[victim.value].frame
      ensures victim.Some? ==>
        && victim.value < MemStat.VALIMIT && old(book.Stored(victim.value)).None?
        && Chosen(old(space.M()), old(book.stat.pages[..]), old(book.stat.marks), victim.value, old(Dirty(victim.value)),
                  book.Stored(victim.value))
    {
      hide Book.Valid, Safe, Chosen, MemStat.Status, Ok, HeldOf, Kept, CanEvict, Rights;
      ghost var m := space.M();
      KeptSelf(m);
      NotHeldNow(m);
      victim := Replace(env);
      ghost var t := space.M();
      f := space.Kalloc();
      if victim.Some? {
        OneTaken(m, t, space.M(), victim.value, f);
      } else {
        assert space.pages - {} == space.pages;
      }
    }

    /** try_kalloc_or_replace: a free frame, or else the frame of the page loaded longest ago; -1 if neither can be had. */
    method Alloc(env: Env) returns (f: int, ghost victim: Option<nat>)
      requires Valid() && EnvOk(env)
      modifies this`killed, space`pages, space`free, space`bytes, space`owner, book.stat.pages, book.swap, book.swap.table
      ensures ValidWith(if f >= 0 then {f} else {})
      ensures f >= 0 <==> old(space.free) != {} || old(Evictable(env))
      ensures victim.Some? <==> old(space.free) == {} && f >= 0
      ensures f >= 0 ==> |space.free| == if old(space.free) != {} then |old(space.free)| - 1 else 0
      ensures space.pages == old(space.pages) - Only(victim) && Kept(old(space.M()), space.M(), Only(victim), -1)
      ensures f >= 0 ==> f in space.owner && space.owner[f] == Held && killed == old(killed)
      ensures f >= 0 ==> f in old(space.owner) && old(space.owner)[f] != Held
      ensures forall v: nat :: Some(v) != victim ==> book.Stored(v) == old(book.Stored(v))
      ensures victim.Some? ==> victim.value in old(space.pages) && f == old(space.pages)[victim.value].frame
      ensures victim.Some? ==>
        && victim.value < MemStat.VALIMIT && old(book.Stored(victim.value)).None?
        && Chosen(old(space.M()), old(book.stat.pages[..]), old(book.stat.marks), victim.value, old(Dirty(victim.value)),
                  book.Stored(victim.value))
    {
      hide Book.Valid, Safe, Chosen, MemStat.Status, MemStat.Oldest, Ok, HeldOf, Kept, CanEvict, Rights;
      victim := None;
      f := space.Kalloc();
      if f < 0 {
        f, victim := Reclaim(env);
      } else {
        assert space.pages - {} == space.pages;
      }
    }

    /** Fill the frame in hand and map it at page a; if it could not be loaded or mapped, give it back. */
    method Install(f: nat, content: Option<seq<byte>>, a: nat, flags: Flags) returns (ok: bool)
      requires ValidWith({f}) && f in space.owner && space.owner[f] == Held && a !in space.pages && a % PGSIZE == 0
      requires Safe(Proc(layout, Rights(space.pages)[a := flags]))
      requires content.Some? ==> |content.value| == PGSIZE
      modifies space
      ensures Valid() && Kept(old(space.M()), space.M(), {a}, f)
      ensures ok <==> content.Some? && Missing(old(space.tables), a) <= |old(space.free)|
      ensures space.pages == if ok then old(space.pages)[a := Leaf(f, flags)] else old(space.pages)
      ensures ok ==> f in space.bytes && space.bytes[f] == content.value
      ensures ok ==> |space.free| + Missing(old(space.tables), a) == |old(space.free)|
    {
      hide Book.Valid, Safe, Ok, HeldOf, Kept, Rights, Missing;
      ghost var m := space.M();
      ok := false;
      if content.Some? {
        RightsPut(space.pages, a, Leaf(f, flags));
        space.Fill(f, content.value);
        ghost var t := space.M();
        ok := space.MapPage(a, f, flags);
        KeptBoth(m, t, space.M(), {}, {a}, f);
        assert {} + {a} == {a};
      } else {
        WiderSelf(m, {a}, f);
      }
      if !ok {
        ghost var u := space.M();
        space.Kfree(f);
        KeptBoth(m, u, space.M(), {a}, {}, f);
        assert {a} + {} == {a};
      }
    }

    /** There are frames for page a and the tables it lacks; after an eviction there are none for tables. */
    ghost predicate Room(a: nat, env: Env)
      reads space, book, book.stat, book.stat.pages, book.swap
    {
      if space.free != {} then 1 + Missing(space.tables, a) <= |space.free|
      else Evictable(env) && Missing(space.tables, a) == 0
    }

    // ---- when a user fault needs a frame, and what then becomes of the process ----

    ghost function CauseOf(acc: Access, va: nat): Cause
      reads this`layout, book, book.swap, book.swap.table
    {
      Classify(layout, acc, va, Saved(PageDown(va)))
    }

    /** The page is in memory but not the user's, so the file-backed branch takes it for missing. */
    ghost predicate Unseen(acc: Access, va: nat)
      reads this`layout, space`pages, book, book.swap, book.swap.table
    {
      CauseOf(acc, va) == FromFile && PageDown(va) in space.pages && !space.pages[PageDown(va)].flags.u
    }

    /** There is a table entry for page a: a user page, or one of the two pages the kernel keeps in every page table. */
    ghost predicate Mapped(a: nat)
      reads space`pages
    {
      a in space.pages || a == TRAPFRAME || a == TRAMPOLINE
    }

    ghost predicate NeedsFrame(acc: Access, va: nat)
      reads this`layout, space`pages, book, book.swap, book.swap.table
    {
      && CauseOf(acc, va) != Invalid && PageDown(va) < MAXVA
      && (!Mapped(PageDown(va)) || Unseen(acc, va))
    }

    /** The free frames a survived fault takes: one for the page and those for the tables it lacks, unless there were none. */
    ghost function Taken(acc: Access, va: nat): nat
      reads this`layout, space`pages, space`tables, space`free, book, book.swap, book.swap.table
    {
      if NeedsFrame(acc, va) && space.free != {} then 1 + Missing(space.tables, PageDown(va)) else 0
    }

    /** Memory is full and page v is the one that makes room. */
    ghost predicate Goes(v: nat, env: Env)
      reads space, book, book.stat, book.stat.pages, book.swap
    {
      space.free == {} && Evictable(env) && LoadedFirst(book.stat.pages[..], book.stat.marks, v)
    }

    /** walk panics past the last virtual address, and mappages on a page that is still mapped. */
    ghost predicate Panics(acc: Access, va: nat, env: Env)
      reads this`image, this`layout, this`file, space, book, book.stat, book.stat.pages, book.swap, book.swap.table
    {
      var a := PageDown(va);
      || (a >= MAXVA && Saved(a) && !InGuard(layout, va))
      || (Unseen(acc, va) && (space.free != {} || Evictable(env)) && Start(va).Some? && !Goes(a, env))
    }

    /** A frame, the tables and the contents can be had, and the page is not mapped or is itself the one that goes. */
    ghost predicate Brings(acc: Access, va: nat, env: Env)
      reads this`image, this`layout, this`file, space, book, book.stat, book.stat.pages, book.swap, book.swap.table
    {
      var a := PageDown(va);
      && NeedsFrame(acc, va) && Room(a, env) && Brought(va, Saved(a)).Some?
      && (a in space.pages ==> Goes(a, env))
    }

    /** The page that goes has a dirty record, under the very address the new page is recorded by. */
    ghost predicate Tears(acc: Access, va: nat, env: Env)
      reads this`image, this`layout, this`file, space, book, book.stat, book.stat.pages, book.swap, book.swap.table
    {
      var k := Short(PageDown(va));
      Brings(acc, va, env) && Goes(k, env) && Dirty(k)
    }

    ghost predicate Survives(acc: Access, va: nat, env: Env)
      reads this`image, this`layout, this`file, space, book, book.stat, book.stat.pages, book.swap, book.swap.table
    {
      var a := PageDown(va);
      || (CauseOf(acc, va) != Invalid && a < MAXVA && Mapped(a) && !Unseen(acc, va))
      || (Brings(acc, va, env) && !Tears(acc, va, env))
    }

    /** Neither page b nor what its record stands for is touched by a fault on page a that evicts v. */
    ghost predicate Spared(b: nat, a: nat, v: Option<nat>)
      reads space`pages
    {
      Some(b) != v && (b in space.pages || (Short(b) != a && Some(Short(b)) != v))
    }

    /** The four ways a fault goes. */
    lemma Sorting(acc: Access, va: nat, env: Env)
      requires Valid()
      ensures var a := PageDown(va);
        && (InGuard(layout, va) || (a < MAXVA && CauseOf(acc, va) == Invalid) ==>
              !Panics(acc, va, env) && !Tears(acc, va, env) && !Survives(acc, va, env) && !NeedsFrame(acc, va))
        && (!InGuard(layout, va) && a >= MAXVA ==>
              && !Tears(acc, va, env) && !Survives(acc, va, env) && !NeedsFrame(acc, va)
              && (Panics(acc, va, env) <==> Saved(a)))
        && (a < MAXVA && CauseOf(acc, va) != Invalid && Mapped(a) && !Unseen(acc, va) ==>
              !Panics(acc, va, env) && !Tears(acc, va, env) && Survives(acc, va, env) && !NeedsFrame(acc, va))
        && (a < MAXVA && CauseOf(acc, va) != Invalid && (!Mapped(a) || Unseen(acc, va)) ==>
              NeedsFrame(acc, va) && (Survives(acc, va, env) <==> Brings(acc, va, env) && !Tears(acc, va, env)))
    {
      hide Book.Valid, Safe, Ok, HeldOf, Rights, Process.Room, Process.Start, Process.Dirty, Process.Goes, Short, Book.Stored;
      hide Process.Evictable;
      if PageDown(va) >= MAXVA {
        BreakBelow(layout, space.pages, va);
      }
    }

    /** What decides the outcome once a frame is needed. */
    lemma Deciding(acc: Access, va: nat, env: Env)
      requires NeedsFrame(acc, va)
      ensures var a := PageDown(va);
        && (Panics(acc, va, env) <==>
              a in space.pages && (space.free != {} || Evictable(env)) && Brought(va, Saved(a)).Some? && !Goes(a, env))
        && (Brings(acc, va, env) <==> Room(a, env) && Brought(va, Saved(a)).Some? && (a in space.pages ==> Goes(a, env)))
        && (Tears(acc, va, env) <==> Brings(acc, va, env) && Goes(Short(a), env) && Dirty(Short(a)))
        && (a in space.pages <==> Unseen(acc, va)) && (a in space.pages ==> !Saved(a))
        && CauseOf(acc, va) != Invalid && a < MAXVA
    {
      hide Process.Room, Process.Start, Process.Dirty, Process.Goes, Short, Book.Stored, Process.Evictable;
    }

    // ---- serving a fault ----

    /** The contents for a page that is not in memory: swapped in, read from the program, or zeros. */
    method Fetch(va: nat, swapped: bool, ghost hs: set<nat>) returns (content: Option<seq<byte>>)
      requires ValidWith(hs) && (swapped ==> Saved(PageDown(va)))
      modifies book.stat.pages, book.swap, book.swap.table
      ensures ValidWith(hs) && content == old(Brought(va, swapped)) && (content.Some? ==> |content.value| == PGSIZE)
      ensures forall v: nat :: v != PageDown(va) || !swapped ==> book.Stored(v) == old(book.Stored(v))
      ensures swapped ==> book.Stored(PageDown(va)).None?
    {
      hide Book.Valid, Safe, MemStat.Status, Ok, HeldOf, Rights, Loader.BuiltPage;
      var a := PageDown(va);
      book.Facts(a);
      book.Facts(Short(a));
      if swapped {
        content := None;
        if a < MemStat.VALIMIT {
          content := book.BringIn(a);
        }
      } else if InText(layout, va) || InData(layout, va) {
        FilePage(layout, space.pages, va);
        content := Loader.UserLoad(file, image, a);
      } else {
        content := Some(Loader.Zeros(PGSIZE));
      }
    }

    /** Map the frame in hand for va, filled or not, and record it; or give it back. */
    method MapAndRecord(f: nat, content: Option<seq<byte>>, acc: Access, va: nat, swapped: bool) returns (fate: Fate)
      requires ValidWith({f}) && f in space.owner && space.owner[f] == Held && PageDown(va) !in space.pages
      requires Classify(layout, acc, va, swapped) != Invalid && PageDown(va) < MAXVA
      requires content.Some? ==> |content.value| == PGSIZE
      modifies space, book.stat, book.stat.pages
      ensures fate == Killed <==> content.None? || Missing(old(space.tables), PageDown(va)) > |old(space.free)|
      ensures fate == Torn <==> fate != Killed && old(Saved(PageDown(va)))
      ensures fate != Panic && (fate != Torn ==> Valid()) && Kept(old(space.M()), space.M(), {PageDown(va)}, f)
      ensures space.pages == if fate == Killed then old(space.pages) else
        old(space.pages)[PageDown(va) := Leaf(f, NewFlags(layout, acc, va, swapped))]
      ensures fate == Killed ==> SamePage(old(space.M()), space.M(), PageDown(va))
      ensures fate == Alive ==> f in space.bytes && Some(space.bytes[f]) == content
      ensures fate == Alive ==> |space.free| + Missing(old(space.tables), PageDown(va)) == |old(space.free)|
      ensures fate != Torn ==> forall v: nat :: book.Stored(v) == old(book.Stored(v))
    {
      hide Book.Valid, Safe, MemStat.Status, Ok, HeldOf, Kept, Rights, Missing, Short, Book.Stored;
      var a := PageDown(va);
      ShortAligned(a);
      book.Facts(Short(a));
      SafeGrant(layout, space.pages, acc, va, swapped);
      var anonymous := swapped || !(InText(layout, va) || InData(layout, va));
      var flags := if anonymous then Flags(true, true, false, true) else Flags(true, false, IsText(layout, a), true);
      var ok := Install(f, content, a, flags);
      fate := Killed;
      if ok {
        var torn := book.WasSwapped(Short(a));
        if torn {
          fate := Torn;
        } else {
          book.Load(Short(a), acc == Write && anonymous);
          fate := Alive;
        }
      }
    }

    /** A fault that needs a frame, once there is one or none can be had. */
    method Finish(f: int, acc: Access, va: nat, swapped: bool) returns (fate: Fate)
      requires ValidWith(if f >= 0 then {f} else {}) && (f >= 0 ==> f in space.owner && space.owner[f] == Held)
      requires (swapped ==> Saved(PageDown(va))) && Classify(layout, acc, va, swapped) != Invalid && PageDown(va) < MAXVA
      modifies this`killed, space, book.stat, book.stat.pages, book.swap, book.swap.table
      ensures var a, got := PageDown(va), f >= 0 && old(Brought(va, swapped)).Some?;
        && (fate == Panic <==> got && a in old(space.pages))
        && (fate == Killed <==> !got || (a !in old(space.pages) && Missing(old(space.tables), a) > |old(space.free)|))
        && (fate == Torn <==> fate != Panic && fate != Killed && !swapped && old(Saved(a)))
      ensures fate == Alive || fate == Killed ==> Valid() && killed == (fate == Killed)
      ensures fate == Alive || fate == Killed ==>
        forall v: nat :: v != PageDown(va) || !swapped ==> book.Stored(v) == old(book.Stored(v))
      ensures fate != Panic ==> Kept(old(space.M()), space.M(), {PageDown(va)}, f)
      ensures fate == Killed ==> SamePage(old(space.M()), space.M(), PageDown(va)) && space.pages == old(space.pages)
      ensures fate == Alive ==>
        && space.pages == old(space.pages)[PageDown(va) := Leaf(f, NewFlags(layout, acc, va, swapped))]
        && f in space.bytes && Some(space.bytes[f]) == old(Brought(va, swapped))
        && |space.free| + Missing(old(space.tables), PageDown(va)) == |old(space.free)|
    {
      hide Book.Valid, Safe, MemStat.Status, Ok, HeldOf, Kept, Rights, Missing, Process.Start, Classify, NewFlags;
      hide Book.Stored, Short, SamePage;
      if f < 0 {
        WiderSelf(space.M(), {PageDown(va)}, f);
        StillThere(space.M(), PageDown(va));
        killed := true;
        return Killed;
      }
      book.Facts(PageDown(va));
      book.Facts(Short(PageDown(va)));
      var content := Fetch(va, swapped, {f});
      if content.None? {
        ghost var m := space.M();
        space.Kfree(f);
        WiderKept(m, space.M(), {}, {PageDown(va)}, f, f);
        SameOn(m, space.M(), {}, PageDown(va), f);
        killed := true;
        return Killed;
      }
      if PageDown(va) in space.pages {
        return Panic;
      }
      fate := MapAndRecord(f, content, acc, va, swapped);
      killed := fate == Killed;
    }

    /** A page newly mapped and filled is what a surviving process should find. */
    lemma NewlyFound(acc: Access, va: nat, swapped: bool, m: Mem, t: Mem, content: Option<seq<byte>>, backing: Option<seq<byte>>)
      requires FoundAt(t, PageDown(va), NewFlags(layout, acc, va, swapped), content)
      requires Classify(layout, acc, va, swapped) != Invalid
      requires PageDown(va) in m.pages ==> content == Start(va)
      ensures Result(acc, va, Classify(layout, acc, va, swapped), m, t, PageDown(va) in m.pages, Holding(m, PageDown(va), content),
                     Holding(t, PageDown(va), backing))
    {
      hide Process.Start, Classify, Granted;
    }

    /** A served fault that needs a frame. */
    method ServeMissing(acc: Access, va: nat, swapped: bool, env: Env) returns (fate: Fate, ghost victim: Option<nat>)
      requires Valid() && EnvOk(env) && !killed && NeedsFrame(acc, va) && (swapped <==> Saved(PageDown(va)))
      modifies this`killed, space, book.stat, book.stat.pages, book.swap, book.swap.table
      ensures fate == Panic <==> old(Panics(acc, va, env))
      ensures fate == Torn <==> old(Tears(acc, va, env))
      ensures fate == Alive <==> old(Brings(acc, va, env)) && !old(Tears(acc, va, env))
      ensures victim.Some? <==> old(space.free) == {} && old(Evictable(env))
      ensures victim.Some? ==>
        && victim.value in old(space.pages) && victim.value < MemStat.VALIMIT
        && LoadedFirst(old(book.stat.pages[..]), old(book.stat.marks), victim.value)
      ensures fate == Alive || fate == Killed ==>
        && Valid() && Kept(old(space.M()), space.M(), {PageDown(va)} + Only(victim), -1) && killed == (fate == Killed)
        && (forall v: nat :: v != PageDown(va) && Some(v) != victim ==> book.Stored(v) == old(book.Stored(v)))
        && (victim.Some? && victim.value != PageDown(va) ==>
              && victim.value !in space.pages
              && book.Stored(victim.value) ==
                   if old(Dirty(victim.value)) then Holding(old(space.M()), victim.value, None) else None)
      ensures fate == Killed && victim != Some(PageDown(va)) ==> SamePage(old(space.M()), space.M(), PageDown(va))
      ensures fate == Alive ==> Result(acc, va, old(CauseOf(acc, va)), old(space.M()), space.M(), old(Unseen(acc, va)),
                                       old(PageAt(va)), PageAt(va))
      ensures fate == Alive ==> |space.free| + old(Taken(acc, va)) == |old(space.free)|
    {
      hide Book.Valid, Safe, MemStat.Status, MemStat.Oldest, Ok, HeldOf, Kept, Rights, CanEvict, Missing, LoadedFirst;
      hide Process.Start, Classify, Book.Stored, Process.Dirty, EnvOk, Short, SamePage, NewFlags, Process.Result, Holding;
      hide Process.Panics, Process.Brings, Process.Tears, Process.NeedsFrame, Process.Unseen;
      Deciding(acc, va, env);
      var a := PageDown(va);
      ghost var m := space.M();
      var f;
      f, victim := Alloc(env);
      ghost var t := space.M();
      if victim.Some? {
        FrameOf(m, victim.value);
        InMemory(m, victim.value, None);
        OnlyFirst(old(book.stat.pages[..]), old(book.stat.marks), victim.value);
      }
      NotHeldNow(m);
      fate := Finish(f, acc, va, swapped);
      if fate == Alive || fate == Killed {
        InTwo(m, t, space.M(), victim, a, f);
      }
      if fate == Alive {
        NewlyFound(acc, va, swapped, m, space.M(), old(Brought(va, swapped)), Brought(va, Saved(a)));
      }
    }

    /** A served fault on a page that is in memory: note a write, and adjust the rights of a program page. */
    method ServeMapped(acc: Access, va: nat, swapped: bool)
      requires Valid() && CauseOf(acc, va) != Invalid && Mapped(PageDown(va)) && !Unseen(acc, va)
      requires swapped <==> Saved(PageDown(va))
      modifies space`pages, book.stat.pages
      ensures Valid() && Kept(old(space.M()), space.M(), {PageDown(va)}, -1)
      ensures forall v: nat :: book.Stored(v) == old(book.Stored(v))
      ensures Result(acc, va, old(CauseOf(acc, va)), old(space.M()), space.M(), false, old(PageAt(va)), PageAt(va))
    {
      hide Book.Valid, Safe, MemStat.Status, Ok, HeldOf, Kept, Rights, Short, Book.Stored, Process.Start;
      var a := PageDown(va);
      var cause := Classify(layout, acc, va, swapped);
      if cause == FromFile {
        BelowKernel(layout, space.pages, va);
        SafeUpgrade(layout, space.pages, acc, va);
        var l := Leaf(space.pages[a].frame, Granted(layout, acc, va, FromFile, Some(space.pages[a].flags)));
        RightsPut(space.pages, a, l);
        SameHands(space.M(), space.pages[a := l]);
        space.SetFlags(a, l.flags);
        if acc == Write {
          book.Dirty(Short(a));
        }
      } else {
        WiderSelf(space.M(), {a}, -1);
        assert a in space.pages ==> space.pages == space.pages[a := Leaf(space.pages[a].frame, space.pages[a].flags)];
        if acc == Write {
          book.DirtyResident(Short(a));
        }
      }
    }

    /** usertrap's page-fault branch, by kind of fault. */
    method Serve(acc: Access, va: nat, env: Env) returns (fate: Fate, ghost victim: Option<nat>)
      requires Valid() && EnvOk(env) && !killed
      modifies this`killed, space, book.stat, book.stat.pages, book.swap, book.swap.table
      ensures (fate == Panic <==> old(Panics(acc, va, env))) && (fate == Torn <==> old(Tears(acc, va, env)))
      ensures fate == Alive <==> old(Survives(acc, va, env))
      ensures victim.Some? <==> old(NeedsFrame(acc, va)) && old(space.free) == {} && old(Evictable(env))
      ensures victim.Some? ==>
        && victim.value in old(space.pages) && victim.value < MemStat.VALIMIT
        && LoadedFirst(old(book.stat.pages[..]), old(book.stat.marks), victim.value)
      ensures fate == Alive || fate == Killed ==>
        && Valid() && Kept(old(space.M()), space.M(), {PageDown(va)} + Only(victim), -1) && killed == (fate == Killed)
        && (forall v: nat :: v != PageDown(va) && Some(v) != victim ==> book.Stored(v) == old(book.Stored(v)))
        && (victim.Some? && victim.value != PageDown(va) ==>
              && victim.value !in space.pages
              && book.Stored(victim.value) ==
                   if old(Dirty(victim.value)) then Holding(old(space.M()), victim.value, None) else None)
      ensures fate == Killed && victim != Some(PageDown(va)) ==> SamePage(old(space.M()), space.M(), PageDown(va))
      ensures fate == Alive ==> Result(acc, va, old(CauseOf(acc, va)), old(space.M()), space.M(), old(Unseen(acc, va)),
                                       old(PageAt(va)), PageAt(va))
      ensures fate == Alive ==> |space.free| + old(Taken(acc, va)) == |old(space.free)|
    {
      hide Book.Valid, Safe, MemStat.Status, MemStat.Oldest, Ok, HeldOf, Kept, Rights, CanEvict, Missing, Process.Start;
      hide Process.Room, Process.Dirty, EnvOk, Book.Stored, Short, LoadedFirst, SamePage, InGuard, Holding;
      hide Process.Result, Process.PageAt, Classify;
      hide Process.Panics, Process.Brings, Process.Tears, Process.NeedsFrame, Process.Survives;
      Sorting(acc, va, env);
      var a := PageDown(va);
      victim := None;
      book.Facts(Short(a));
      var swapped := book.WasSwapped(Short(a));
      assert CauseOf(acc, va) == Classify(layout, acc, va, swapped);
      if InGuard(layout, va) || (a < MAXVA && Classify(layout, acc, va, swapped) == Invalid) {
        StillThere(space.M(), a);
        killed := true;
        fate := Killed;
      } else if a >= MAXVA {
        if swapped {
          fate := Panic;
        } else {
          StillThere(space.M(), a);
          killed := true;
          fate := Killed;
        }
      } else if (a in space.pages || a == TRAPFRAME || a == TRAMPOLINE) &&
                !(a in space.pages && Classify(layout, acc, va, swapped) == FromFile && !space.pages[a].flags.u) {
        assert {a} + {} == {a};
        ServeMapped(acc, va, swapped);
        fate := Alive;
      } else {
        fate, victim := ServeMissing(acc, va, swapped, env);
      }
    }

    /** The page a process that survives finds: mapped with the rights its fault grants, and with the contents it had. */
    ghost predicate Result(acc: Access, va: nat, cause: Cause, m: Mem, t: Mem, unseen: bool, was: Option<seq<byte>>,
                           now: Option<seq<byte>>)
      reads this`layout, this`image, this`file
    {
      var a := PageDown(va);
      && now == (if unseen then Start(va) else was)
      && (a in m.pages && !unseen ==> a in t.pages && t.pages[a].frame == m.pages[a].frame)
      && (a != TRAPFRAME && a != TRAMPOLINE ==>
        && a in t.pages && cause != Invalid
        && t.pages[a].flags == Granted(layout, acc, va, cause, if a in m.pages && !unseen then Some(m.pages[a].flags) else None))
    }

    /** A page that was not in memory is in memory now, as it was. */
    lemma Back(acc: Access, va: nat, cause: Cause, m: Mem, t: Mem, was: Option<seq<byte>>, now: Option<seq<byte>>)
      requires Result(acc, va, cause, m, t, false, was, now) && PageDown(va) < TRAPFRAME
      ensures PageDown(va) in t.pages && now == was
    {
    }

    lemma SeenOutside(acc: Access, va: nat)
      requires PageDown(va) !in space.pages
      ensures !Unseen(acc, va)
    {
    }

    /** Past the break only a saved page can be had. */
    lemma PastBreak(acc: Access, va: nat, env: Env)
      requires Valid() && va >= layout.sz && !Saved(PageDown(va))
      ensures !Survives(acc, va, env)
    {
      hide Book.Valid, Safe, Ok, HeldOf, Rights, Process.Room, Process.Start, Process.Dirty, Process.Goes, Short, Book.Stored;
      hide Process.Survives, Process.Panics, Process.Tears, Process.NeedsFrame, Process.Brings;
      Sorting(acc, va, env);
    }

    /**
     The page-fault branch of usertrap. The kernel panics exactly if a saved page's short address matches
     an address past the last one, or a file-backed page is mapped that the user cannot see; the process
     survives exactly if the access is allowed and the page is in memory or can be brought in. Then the
     page is mapped with the rights its kind of fault grants and holds what it held before. No frame is
     lost. Every other page is left alone, in memory or not, except that a page evicted with a clean
     record holds afterwards what it started from: so its contents survive exactly if its record said
     dirty or they were what it starts from. Addresses a multiple of 2^32 apart share a record.
     */
    method UserFault(acc: Access, va: nat, env: Env) returns (fate: Fate, ghost victim: Option<nat>)
      requires Valid() && EnvOk(env) && !killed
      modifies this`killed, space, book.stat, book.stat.pages, book.swap, book.swap.table
      ensures (fate == Panic <==> old(Panics(acc, va, env))) && (fate == Torn <==> old(Tears(acc, va, env)))
      ensures fate == Alive <==> old(Survives(acc, va, env))
      ensures victim.Some? <==> old(NeedsFrame(acc, va)) && old(space.free) == {} && old(Evictable(env))
      ensures victim.Some? ==>
        victim.value in old(space.pages) && old(Goes(victim.value, env)) && victim.value < MemStat.VALIMIT
      ensures fate == Alive || fate == Killed ==>
        && Valid() && Kept(old(space.M()), space.M(), {PageDown(va)} + Only(victim), -1) && killed == (fate == Killed)
        && forall v: nat :: v != PageDown(va) && Some(v) != victim ==> book.Stored(v) == old(book.Stored(v))
      ensures fate == Killed && victim != Some(PageDown(va)) ==> SamePage(old(space.M()), space.M(), PageDown(va))
      ensures fate == Alive ==> Result(acc, va, old(CauseOf(acc, va)), old(space.M()), space.M(), old(Unseen(acc, va)),
                                       old(PageAt(va)), PageAt(va))
      ensures fate == Alive ==> |space.free| + old(Taken(acc, va)) == |old(space.free)|
      ensures fate == Alive || fate == Killed ==>
        forall x: nat :: PageDown(x) != PageDown(va) && old(Spared(PageDown(x), PageDown(va), victim)) ==>
          PageAt(x) == old(PageAt(x))
      ensures fate == Alive || fate == Killed ==>
        forall x: nat :: victim == Some(PageDown(x)) && PageDown(x) != PageDown(va) ==>
          && PageDown(x) !in space.pages
          && PageAt(x) == if old(Dirty(PageDown(x))) then old(PageAt(x)) else Start(x)
    {
      hide Book.Valid, Safe, MemStat.Status, MemStat.Oldest, Ok, HeldOf, Kept, Rights, CanEvict, Missing, Process.Start;
      hide Process.CauseOf, Process.Room, Process.Dirty, EnvOk, Book.Stored, Process.Result, LoadedFirst, Holding, Short;
      hide Process.Panics, Process.Tears, Process.Survives, Process.NeedsFrame, SamePage;
      var a := PageDown(va);
      ghost var m := space.M();
      fate, victim := Serve(acc, va, env);
      if fate == Alive || fate == Killed {
        forall x: nat | PageDown(x) != a && old(Spared(PageDown(x), a, victim)) ensures PageAt(x) == old(PageAt(x)) {
          HoldingKept(m, space.M(), a, victim, PageDown(x), old(Brought(x, Saved(PageDown(x)))), Brought(x, Saved(PageDown(x))));
        }
        forall x: nat | victim == Some(PageDown(x)) && PageDown(x) != a
          ensures PageDown(x) !in space.pages
          ensures PageAt(x) == if old(Dirty(PageDown(x))) then old(PageAt(x)) else Start(x)
        {
          var b := PageDown(x);
          HoldingEvicted(m, space.M(), b, old(Brought(x, Saved(b))), book.Stored(b), Start(x), old(Dirty(b)));
        }
      }
    }

    /** vmfault's contents for a page: from the program, or zeros. */
    method KernelFetch(a: nat) returns (content: Option<seq<byte>>)
      requires LayoutOk() && a % PGSIZE == 0
      ensures content == Start(a) && (content.Some? ==> |content.value| == PGSIZE)
    {
      content := Some(Loader.Zeros(PGSIZE));
      if InText(layout, a) || InData(layout, a) {
        content := Loader.KernelLoad(file, image, layout.sz, a);
      }
    }

    /**
     vmfault, for a kernel access to a user page: the frame mapped for it, or -1. It brings in the page
     that a first access would, even when a saved copy is stored: then, and only then, the page may hold
     something else than before. Other pages fare as in a user fault.
     */
    method KernelFault(va: nat, env: Env) returns (f: int, ghost victim: Option<nat>)
      requires Valid() && EnvOk(env) && PageDown(va) < MAXVA
      modifies this`killed, space, book.stat.pages, book.swap, book.swap.table
      ensures Valid() && Kept(old(space.M()), space.M(), {PageDown(va)} + Only(victim), -1)
      ensures var a := PageDown(va);
        && (f >= 0 <==> a !in old(space.pages) && KernelGranted(layout, a).Some? && old(Room(a, env)) && Start(a).Some?)
        && (f >= 0 ==> a in space.pages && space.pages[a] == Leaf(f, KernelGranted(layout, a).value))
        && (f < 0 ==> SamePage(old(space.M()), space.M(), a))
        && (a in old(space.pages) || KernelGranted(layout, a).None? ==> victim.None?)
        && (f >= 0 ==> PageAt(a) == Start(a))
        && (f < 0 && Some(Short(a)) != victim ==> PageAt(a) == old(PageAt(a)))
      ensures forall v: nat :: Some(v) != victim ==> book.Stored(v) == old(book.Stored(v))
      ensures f >= 0 ==> killed == old(killed)
      ensures victim.Some? ==>
        && victim.value in old(space.pages) && victim.value !in space.pages && old(space.free) == {}
        && LoadedFirst(old(book.stat.pages[..]), old(book.stat.marks), victim.value)
      ensures forall x: nat :: PageDown(x) != PageDown(va) && old(Spared(PageDown(x), PageDown(va), victim)) ==>
        PageAt(x) == old(PageAt(x))
      ensures forall x: nat :: victim == Some(PageDown(x)) ==>
        PageAt(x) == if old(Dirty(PageDown(x))) then old(PageAt(x)) else Start(x)
    {
      hide Book.Valid, Safe, MemStat.Status, MemStat.Oldest, Ok, HeldOf, Kept, Rights, CanEvict, Missing, Process.Start;
      hide Process.Room, Process.Dirty, EnvOk, Book.Stored, LoadedFirst, KernelGranted, Holding, Short;
      var a := PageDown(va);
      assert PageDown(a) == a;
      ghost var m := space.M();
      f, victim := KernelServe(a, env);
      if f >= 0 {
        FrameOf(space.M(), a);
        InMemory(space.M(), a, Brought(a, Saved(a)));
      } else if Some(Short(a)) != victim {
        HoldingSame(m, space.M(), a, Brought(a, Saved(a)));
      }
      forall x: nat | PageDown(x) != a && old(Spared(PageDown(x), a, victim)) ensures PageAt(x) == old(PageAt(x)) {
        HoldingKept(m, space.M(), a, victim, PageDown(x), old(Brought(x, Saved(PageDown(x)))), Brought(x, Saved(PageDown(x))));
      }
      forall x: nat | victim == Some(PageDown(x))
        ensures PageAt(x) == if old(Dirty(PageDown(x))) then old(PageAt(x)) else Start(x)
      {
        var b := PageDown(x);
        HoldingEvicted(m, space.M(), b, old(Brought(x, Saved(b))), book.Stored(b), Start(x), old(Dirty(b)));
      }
    }

    /** vmfault on the page at a. */
    method KernelServe(a: nat, env: Env) returns (f: int, ghost victim: Option<nat>)
      requires Valid() && EnvOk(env) && a % PGSIZE == 0
      modifies this`killed, space, book.stat.pages, book.swap, book.swap.table
      ensures Valid() && Kept(old(space.M()), space.M(), {a} + Only(victim), -1)
      ensures f >= 0 <==> a !in old(space.pages) && KernelGranted(layout, a).Some? && old(Room(a, env)) && Start(a).Some?
      ensures f >= 0 ==> a in space.pages && space.pages[a] == Leaf(f, KernelGranted(layout, a).value)
      ensures f >= 0 ==> f in space.bytes && Some(space.bytes[f]) == Start(a) && killed == old(killed)
      ensures f < 0 ==> SamePage(old(space.M()), space.M(), a)
      ensures a in old(space.pages) || KernelGranted(layout, a).None? ==> victim.None?
      ensures forall v: nat :: Some(v) != victim ==> book.Stored(v) == old(book.Stored(v))
      ensures victim.Some? ==>
        victim.value != a && victim.value in old(space.pages) && victim.value !in space.pages && old(space.free) == {}
      ensures victim.Some? ==>
        && victim.value < MemStat.VALIMIT && old(book.Stored(victim.value)).None?
        && Chosen(old(space.M()), old(book.stat.pages[..]), old(book.stat.marks), victim.value, old(Dirty(victim.value)),
                  book.Stored(victim.value))
    {
      hide Book.Valid, Safe, MemStat.Status, MemStat.Oldest, Ok, HeldOf, Kept, Rights, CanEvict, Missing, Process.Start;
      hide Process.Dirty, EnvOk, Book.Stored, Chosen, KernelGranted;
      ghost var m := space.M();
      victim := None;
      var granted := KernelGranted(layout, a);
      if granted.None? || a in space.pages {
        StillThere(m, a);
        return -1, victim;
      }
      f, victim := Alloc(env);
      ghost var t := space.M();
      if f < 0 {
        WiderKept(m, t, Only(victim), {a} + Only(victim), -1, -1);
        return;
      }
      var content := KernelFetch(a);
      SafeKernelGrant(layout, space.pages, a);
      var ok := Install(f, content, a, granted.value);
      NotHeldNow(m);
      KeptOn(m, t, space.M(), Only(victim), {a}, f);
      assert Only(victim) + {a} == {a} + Only(victim);
      if !ok {
        f := -1;
      }
    }
  }

  lemma StillThere(m: Mem, a: nat)
    requires Ok(m)
    ensures Kept(m, m, {a} + {}, -1) && SamePage(m, m, a)
  {
    WiderSelf(m, {a} + {}, -1);
  }

  lemma SameHands(m: Mem, pages: map<nat, Leaf>)
    ensures HeldOf(m.(pages := pages)) == HeldOf(m)
  {
  }

  /** What a page with these copies stored, under its record's address and its own, would be filled with. */
  ghost function Backing(key: Option<seq<byte>>, own: Option<seq<byte>>, start: Option<seq<byte>>): Option<seq<byte>>
  {
    if key.Some? then own else start
  }

  /** A page still in memory, or with nothing stored or taken under its record's address, holds what it held. */
  lemma HoldingKept(m: Mem, t: Mem, a: nat, v: Option<nat>, b: nat, was: Option<seq<byte>>, now: Option<seq<byte>>)
    requires Ok(m) && Kept(m, t, {a} + Only(v), -1) && b != a && Some(b) != v && (b in m.pages || was == now)
    ensures Holding(t, b, now) == Holding(m, b, was)
  {
    hide Ok, Kept;
    assert SamePage(m, t, b) by {
      SameOn(m, t, {a} + Only(v), b, -1);
    }
    if b in m.pages {
      FrameOf(m, b);
    }
  }

  lemma SameOn(m: Mem, t: Mem, x: set<nat>, b: nat, h: int)
    requires Kept(m, t, x, h) && b !in x
    ensures SamePage(m, t, b)
  {
  }

  /** A frame is taken, evicting v, and then page a is dealt with. */
  lemma InTwo(m: Mem, t: Mem, u: Mem, v: Option<nat>, a: nat, f: int)
    requires Kept(m, t, Only(v), -1) && Kept(t, u, {a}, f) && (f >= 0 ==> f in m.owner && m.owner[f] != Held)
    ensures Kept(m, u, {a} + Only(v), -1)
    ensures v != Some(a) && SamePage(t, u, a) ==> SamePage(m, u, a)
  {
    hide Kept, SamePage;
    KeptOn(m, t, u, Only(v), {a}, f);
    assert Only(v) + {a} == {a} + Only(v);
    if v != Some(a) && SamePage(t, u, a) {
      SameOn(m, t, Only(v), a, -1);
      SameTwice(m, t, u, a);
    }
  }

  lemma SameTwice(m: Mem, t: Mem, u: Mem, b: nat)
    requires SamePage(m, t, b) && SamePage(t, u, b)
    ensures SamePage(m, u, b)
  {
  }

  /** An evicted page holds what it held if its record said dirty, and otherwise what it starts from. */
  lemma HoldingEvicted(m: Mem, t: Mem, b: nat, was: Option<seq<byte>>, saved: Option<seq<byte>>,
                       start: Option<seq<byte>>, dirty: bool)
    requires Ok(m) && b in m.pages && b !in t.pages && saved == if dirty then Holding(m, b, None) else None
    ensures Holding(t, b, Backing(saved, saved, start)) == if dirty then Holding(m, b, was) else start
  {
    FrameOf(m, b);
  }

  lemma HoldingSame(m: Mem, t: Mem, a: nat, backing: Option<seq<byte>>)
    requires SamePage(m, t, a) && Ok(m)
    ensures Holding(t, a, backing) == Holding(m, a, backing)
  {
    if a in m.pages {
      FrameOf(m, a);
    }
  }

  lemma InMemory(t: Mem, a: nat, backing: Option<seq<byte>>)
    requires a in t.pages && t.pages[a].frame in t.bytes
    ensures Holding(t, a, backing) == Some(t.bytes[t.pages[a].frame])
  {
  }

  /** A program page lies below the pages the kernel keeps. */
  lemma BelowKernel(layout: Layout, pages: map<nat, Leaf>, va: nat)
    requires Safe(Proc(layout, Rights(pages))) && va < layout.sz
    ensures PageDown(va) < TRAPFRAME
  {
  }

  /** Past the last virtual address only a saved page can make a fault valid. */
  lemma BreakBelow(layout: Layout, pages: map<nat, Leaf>, va: nat)
    requires Safe(Proc(layout, Rights(pages))) && PageDown(va) >= MAXVA
    ensures va >= layout.sz
  {
  }

  /** The page loaded longest ago is one page. */
  lemma OnlyFirst(stats: seq<MemStat.PageStat>, marks: seq<nat>, v: nat)
    requires LoadedFirst(stats, marks, v)
    ensures forall w: nat :: LoadedFirst(stats, marks, w) ==> w == v
  {
    forall w: nat | LoadedFirst(stats, marks, w) ensures w == v {
      var i: nat, j: nat :| MemStat.Oldest(stats, marks, i, false) && stats[i].va == v
                         && MemStat.Oldest(stats, marks, j, false) && stats[j].va == w;
      OneOldest(stats, marks, i, j);
    }
  }

  /** Page a is in memory with these rights and this content. */
  ghost predicate FoundAt(t: Mem, a: nat, flags: Flags, content: Option<seq<byte>>)
  {
    a in t.pages && t.pages[a].flags == flags && t.pages[a].frame in t.bytes && Some(t.bytes[t.pages[a].frame]) == content
  }

  lemma OneTaken(m: Mem, t: Mem, u: Mem, a: nat, f: nat)
    requires Evicted(m, t, a) && Kept(t, u, {}, -1) && u.pages == t.pages && f in t.free && u.free == t.free - {f}
    requires f in t.owner
    ensures Kept(m, u, {a}, -1) && u.pages == m.pages - {a} && u.free == {} && f in m.owner && f == m.pages[a].frame
  {
    hide SamePage, SameHeld;
    KeptOn(m, t, u, {a}, {}, -1);
    assert {a} + {} == {a};
  }

  lemma NotHeldNow(m: Mem)
    requires HeldOf(m) == {}
    ensures forall f :: f in m.owner ==> m.owner[f] != Held
  {
    forall f | f in m.owner ensures m.owner[f] != Held {
      assert f !in HeldOf(m);
    }
  }
}
