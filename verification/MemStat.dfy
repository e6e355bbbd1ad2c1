/**
 The per-process page table of contents `memstat.pages[]`: which pages are resident or swapped, in
 what order they were loaded, and which one to evict.
 */
module MemStat {
  import opened Common

  const MAX_PAGES_INFO: nat := 128
  const VALIMIT: nat := 0x1_0000_0000

  datatype State = UNMAPPED | RESIDENT | SWAPPED

  datatype PageStat = PageStat(va: nat, state: State, dirty: bool, seqno: int, slot: int)

  predicate Live(e: PageStat)
  {
    e.state != UNMAPPED
  }

  /** At most one live entry per page, and it comes before every dead entry that still names the page. */
  ghost predicate LiveFirst(pages: seq<PageStat>)
  {
    && (forall i, j :: 0 <= i < j < |pages| && Live(pages[i]) && Live(pages[j]) ==> pages[i].va != pages[j].va)
    && (forall i, j :: 0 <= j < i < |pages| && Live(pages[i]) && !Live(pages[j]) ==> pages[i].va != pages[j].va)
  }

  /** `marks[k]` is the page of the k-th call of memstat_mark_resident; k is its sequence number. */
  ghost predicate LastMark(marks: seq<nat>, va: nat, k: int)
  {
    0 <= k < |marks| && marks[k] == va && forall m :: k < m < |marks| ==> marks[m] != va
  }

  /** Every live entry carries the sequence number of its page's latest load. */
  ghost predicate Dated(pages: seq<PageStat>, marks: seq<nat>)
  {
    forall i :: 0 <= i < |pages| && Live(pages[i]) ==> LastMark(marks, pages[i].va, pages[i].seqno)
  }

  /** The live entry of va, or |pages|. */
  ghost function Find(pages: seq<PageStat>, va: nat): (i: nat)
    ensures i <= |pages|
    ensures i < |pages| ==> Live(pages[i]) && pages[i].va == va
    ensures forall j :: 0 <= j < i ==> !(Live(pages[j]) && pages[j].va == va)
  {
    if pages == [] then 0
    else if Live(pages[0]) && pages[0].va == va then 0
    else 1 + Find(pages[1..], va)
  }

  ghost predicate Tracked(pages: seq<PageStat>, va: nat)
  {
    Find(pages, va) < |pages|
  }

  /** A scan for the first entry naming va, dead or alive, finds the live entry if there is one. */
  lemma ScanFindsLive(pages: seq<PageStat>, va: nat, i: nat)
    requires LiveFirst(pages) && i < |pages| && pages[i].va == va
    requires forall j :: 0 <= j < i ==> pages[j].va != va
    requires Tracked(pages, va)
    ensures i == Find(pages, va)
  {
  }

  /** The table as a map: what it records for page va. */
  ghost function Status(pages: seq<PageStat>, va: nat): (e: Option<PageStat>)
    ensures e.Some? ==> e.value in pages && Live(e.value) && e.value.va == va
  {
    var i := Find(pages, va);
    if i < |pages| then Some(pages[i]) else None
  }

  /** Where memstat_find_index puts page va. */
  ghost predicate Home(pages: seq<PageStat>, va: nat, i: nat)
  {
    && i < |pages|
    && (i == Find(pages, va)
        || (!Tracked(pages, va) && !Live(pages[i]) && forall j :: 0 <= j < i ==> Live(pages[j])))
  }

  /** Where a scan for the first entry naming va, dead or alive, ends. */
  ghost function FirstNamed(pages: seq<PageStat>, va: nat): (i: nat)
    ensures i <= |pages| && (i < |pages| ==> pages[i].va == va)
    ensures forall j :: 0 <= j < i ==> pages[j].va != va
  {
    if pages == [] then 0 else if pages[0].va == va then 0 else 1 + FirstNamed(pages[1..], va)
  }

  /** An entry for va may be written here: in its home, or over the first entry that names it. */
  ghost predicate Place(pages: seq<PageStat>, va: nat, i: nat)
  {
    Home(pages, va, i) || (i < |pages| && i == FirstNamed(pages, va))
  }

  lemma LiveIsFound(pages: seq<PageStat>, i: nat)
    requires LiveFirst(pages) && i < |pages| && Live(pages[i])
    ensures Find(pages, pages[i].va) == i
  {
  }

  lemma LiveIsRecorded(pages: seq<PageStat>, i: nat)
    requires LiveFirst(pages) && i < |pages|
    ensures Live(pages[i]) ==> Status(pages, pages[i].va).Some?
  {
    if Live(pages[i]) {
      LiveIsFound(pages, i);
    }
  }

  lemma PutKeepsOrder(pages: seq<PageStat>, i: nat, e: PageStat)
    requires LiveFirst(pages) && Place(pages, e.va, i)
    ensures LiveFirst(pages[i := e])
  {
    var pages' := pages[i := e];
    forall a, b | 0 <= a < b < |pages'| && Live(pages'[a]) && Live(pages'[b]) ensures pages'[a].va != pages'[b].va {
      if b == i {
        assert pages[a] == pages'[a];
      } else if a == i {
        assert pages[b] == pages'[b];
      }
    }
  }

  /** Writing the entry of one page in its place records that page and disturbs no other. */
  lemma PutSetsStatus(pages: seq<PageStat>, i: nat, e: PageStat, va: nat)
    requires LiveFirst(pages) && Place(pages, e.va, i)
    ensures LiveFirst(pages[i := e])
    ensures Status(pages[i := e], va) ==
      if va != e.va then Status(pages, va) else if Live(e) then Some(e) else None
  {
    var pages' := pages[i := e];
    PutKeepsOrder(pages, i, e);
    var x, y := Find(pages, va), Find(pages', va);
    assert x < |pages| && x != i ==> pages'[x] == pages[x];
    assert y < |pages| && y != i ==> pages[y] == pages'[y];
    assert pages'[i] == e;
  }

  class Table {
    const pages: array<PageStat>
    var nextSeq: nat
    ghost var marks: seq<nat>

    ghost predicate Valid()
      reads this, pages
    {
      && pages.Length == MAX_PAGES_INFO
      && nextSeq == |marks|
      && LiveFirst(pages[..])
      && Dated(pages[..], marks)
    }

    constructor ()
      ensures Valid() && nextSeq == 0 && fresh(pages)
      ensures forall va: nat :: Status(pages[..], va) == None
    {
      pages := new PageStat[MAX_PAGES_INFO](i => PageStat(0, UNMAPPED, false, 0, -1));
      nextSeq, marks := 0, [];
    }

    /** Locate va's entry, or name the first dead entry after it; -1 if the table is full. */
    method FindIndex(va: nat) returns (idx: int)
      requires pages.Length == MAX_PAGES_INFO
      modifies pages
      ensures -1 <= idx < pages.Length
      ensures idx == -1 <==> old(Full(pages[..], va))
      ensures idx == -1 ==> pages[..] == old(pages[..])
      ensures idx >= 0 ==> old(Home(pages[..], va, idx)) && pages[..] == old(pages[..])[idx := old(pages[..])[idx].(va := va)]
    {
      ghost var was := pages[..];
      var i := 0;
      while i < pages.Length
        invariant 0 <= i <= pages.Length && pages[..] == was
        invariant forall j :: 0 <= j < i ==> !(Live(was[j]) && was[j].va == va)
      {
        if pages[i].state != UNMAPPED && pages[i].va == va {
          assert was[i] == was[i].(va := va);
          return i;
        }
        i := i + 1;
      }
      i := 0;
      while i < pages.Length
        invariant 0 <= i <= pages.Length && pages[..] == was
        invariant forall j :: 0 <= j < i ==> Live(was[j])
      {
        if pages[i].state == UNMAPPED {
          pages[i] := pages[i].(va := va);
          assert pages[..] == was[i := was[i].(va := va)];
          return i;
        }
        i := i + 1;
      }
      return -1;
    }

    /** Page va was just loaded: take the next sequence number and record it as resident and clean. */
    method MarkResident(va: nat)
      requires Valid()
      modifies this, pages
      ensures Valid() && marks == old(marks) + [va]
      ensures forall v: nat :: v != va ==> Status(pages[..], v) == old(Status(pages[..], v))
      ensures Status(pages[..], va) ==
        if old(Full(pages[..], va)) then None else Some(PageStat(va, RESIDENT, false, old(nextSeq), -1))
    {
      ghost var was := pages[..];
      var seqno := nextSeq;
      nextSeq := nextSeq + 1;
      marks := marks + [va];
      var idx := FindIndex(va);
      if idx >= 0 {
        ghost var e := PageStat(va, RESIDENT, false, seqno, -1);
        pages[idx] := pages[idx].(state := RESIDENT, seqno := seqno, dirty := false, slot := -1);
        assert pages[..] == was[idx := e];
        PutAll(was, idx, e);
        MarkKeepsDates(was, old(marks), idx, e);
      } else {
        NoMarkKeepsDates(was, old(marks), va);
      }
    }

    /** Page va was evicted without being saved. */
    method MarkUnmapped(va: nat)
      requires Valid()
      modifies pages
      ensures Valid()
      ensures forall v: nat :: v != va ==> Status(pages[..], v) == old(Status(pages[..], v))
      ensures Status(pages[..], va) == None
    {
      ghost var was := pages[..];
      var idx := FindIndex(va);
      if idx >= 0 {
        pages[idx] := pages[idx].(state := UNMAPPED, slot := -1);
        ghost var e := was[idx].(va := va, state := UNMAPPED, slot := -1);
        assert pages[..] == was[idx := e];
        PutAll(was, idx, e);
      }
    }

    /**
     Page va was saved in a swap slot. A page that is not recorded gets an entry if there is room, with
     the load time of whatever page had the entry before; the table stays in order otherwise.
     */
    method MarkSwapped(va: nat, slot: int)
      requires Valid()
      modifies pages
      ensures LiveFirst(pages[..]) && (old(Status(pages[..], va)).Some? || old(Full(pages[..], va)) ==> Valid())
      ensures forall v: nat :: v != va ==> Status(pages[..], v) == old(Status(pages[..], v))
      ensures old(Status(pages[..], va)).Some? ==>
        Status(pages[..], va) == Some(old(Status(pages[..], va)).value.(state := SWAPPED, slot := slot))
      ensures old(Status(pages[..], va)).None? ==>
        && (Status(pages[..], va).None? <==> old(Full(pages[..], va)))
        && (Status(pages[..], va).Some? ==>
              Status(pages[..], va).value.state == SWAPPED && Status(pages[..], va).value.slot == slot)
    {
      ghost var was := pages[..];
      var idx := FindIndex(va);
      if idx >= 0 {
        pages[idx] := pages[idx].(state := SWAPPED, slot := slot);
        ghost var e := was[idx].(va := va, state := SWAPPED, slot := slot);
        assert pages[..] == was[idx := e];
        PutAll(was, idx, e);
      }
    }

    /** The index of the first entry naming va, dead or alive, as the scans of swap.c and trap.c compute it. */
    method FirstNaming(va: nat) returns (i: nat)
      requires Valid()
      ensures i == FirstNamed(pages[..], va)
      ensures Tracked(pages[..], va) ==> i == Find(pages[..], va)
    {
      i := 0;
      while i < pages.Length
        invariant 0 <= i <= pages.Length
        invariant forall j :: 0 <= j < i ==> pages[j].va != va
      {
        if pages[i].va == va {
          if Tracked(pages[..], va) {
            ScanFindsLive(pages[..], va, i);
          }
          return;
        }
        i := i + 1;
      }
    }

    /** proc_swapout_page's update: the first entry naming va, dead or alive, becomes swapped and clean. */
    method NoteSwapOut(va: nat, slot: int)
      requires Valid()
      modifies pages
      ensures LiveFirst(pages[..]) && (old(Status(pages[..], va)).Some? ==> Valid())
      ensures forall v: nat :: v != va ==> Status(pages[..], v) == old(Status(pages[..], v))
      ensures var i := old(FirstNamed(pages[..], va));
        if i == pages.Length then pages[..] == old(pages[..])
        else Status(pages[..], va) == Some(old(pages[..])[i].(state := SWAPPED, slot := slot, dirty := false))
      ensures old(Status(pages[..], va)).Some? ==>
        old(Status(pages[..], va)) == Some(old(pages[..])[old(FirstNamed(pages[..], va))])
    {
      ghost var was := pages[..];
      var i := FirstNaming(va);
      if i < pages.Length {
        pages[i] := pages[i].(state := SWAPPED, slot := slot, dirty := false);
        assert pages[..] == was[i := pages[i]];
        PutAll(was, i, pages[i]);
      }
    }

    /** swapin_page's update: the first entry naming va, dead or alive, becomes resident and clean. */
    method NoteSwapIn(va: nat)
      requires Valid()
      modifies pages
      ensures LiveFirst(pages[..]) && (old(Status(pages[..], va)).Some? ==> Valid())
      ensures forall v: nat :: v != va ==> Status(pages[..], v) == old(Status(pages[..], v))
      ensures var i := old(FirstNamed(pages[..], va));
        if i == pages.Length then pages[..] == old(pages[..])
        else Status(pages[..], va) == Some(old(pages[..])[i].(state := RESIDENT, slot := -1, dirty := false))
      ensures old(Status(pages[..], va)).Some? ==>
        old(Status(pages[..], va)) == Some(old(pages[..])[old(FirstNamed(pages[..], va))])
    {
      ghost var was := pages[..];
      var i := FirstNaming(va);
      if i < pages.Length {
        pages[i] := pages[i].(state := RESIDENT, slot := -1, dirty := false);
        assert pages[..] == was[i := pages[i]];
        PutAll(was, i, pages[i]);
      }
    }

    /** usertrap's note that va was written to, by the first entry naming va if any. */
    method NoteWrite(va: nat)
      requires Valid()
      modifies pages
      ensures Valid()
      ensures forall v: nat :: v != va ==> Status(pages[..], v) == old(Status(pages[..], v))
      ensures Status(pages[..], va) ==
        if old(Tracked(pages[..], va)) then Some(old(Status(pages[..], va)).value.(dirty := true)) else None
    {
      ghost var was := pages[..];
      var i := FirstNaming(va);
      if i < pages.Length {
        pages[i] := pages[i].(dirty := true);
        assert pages[..] == was[i := pages[i]];
        PutAll(was, i, pages[i]);
      }
    }

    /** usertrap's note that a mapped anonymous page was written to, if the page is recorded resident. */
    method NoteResidentWrite(va: nat)
      requires Valid()
      modifies pages
      ensures Valid()
      ensures forall v: nat :: v != va ==> Status(pages[..], v) == old(Status(pages[..], v))
      ensures Status(pages[..], va) ==
        match old(Status(pages[..], va))
        case Some(e) => Some(if e.state == RESIDENT then e.(dirty := true) else e)
        case None => None
    {
      ghost var was := pages[..];
      var i := 0;
      while i < pages.Length
        invariant 0 <= i <= pages.Length && pages[..] == was
        invariant forall j :: 0 <= j < i ==> !(was[j].va == va && was[j].state == RESIDENT)
      {
        if pages[i].va == va && pages[i].state == RESIDENT {
          LiveIsFound(was, i);
          pages[i] := pages[i].(dirty := true);
          assert pages[..] == was[i := pages[i]];
          PutAll(was, i, pages[i]);
          return;
        }
        i := i + 1;
      }
    }

    /** Does the table record va as swapped out? */
    method WasSwapped(va: nat) returns (yes: bool)
      requires Valid()
      ensures yes <==> Tracked(pages[..], va) && Status(pages[..], va).value.state == SWAPPED
    {
      var i := 0;
      while i < pages.Length
        invariant 0 <= i <= pages.Length
        invariant forall j :: 0 <= j < i ==> !(pages[j].state == SWAPPED && pages[j].va == va)
      {
        if pages[i].state == SWAPPED && pages[i].va == va {
          LiveIsFound(pages[..], i);
          return true;
        }
        i := i + 1;
      }
      return false;
    }

    /** FIFO: the resident page that was loaded longest ago. */
    method SelectFifo() returns (victim: int)
      requires Valid()
      ensures -1 <= victim < pages.Length
      ensures victim == -1 <==> forall i :: 0 <= i < pages.Length ==> pages[i].state != RESIDENT
      ensures victim >= 0 ==> Oldest(pages[..], marks, victim, false)
    {
      victim := -1;
      var i := 0;
      while i < pages.Length
        invariant 0 <= i <= pages.Length
        invariant Least(pages[..], i, victim, false)
      {
        if pages[i].state == RESIDENT {
          if victim == -1 || Before(pages[i], pages[victim]) {
            victim := i;
          }
        }
        i := i + 1;
      }
      if victim >= 0 {
        LeastIsOldest(pages[..], marks, victim, false);
      }
      assert forall i :: 0 <= i < pages.Length ==> pages[i] == pages[..][i];
    }

    /** Clean-First: the oldest clean resident page, or the FIFO choice if every resident page is dirty. */
    method SelectCleanFirst() returns (victim: int, choseClean: bool)
      requires Valid()
      ensures -1 <= victim < pages.Length
      ensures victim == -1 <==> forall i :: 0 <= i < pages.Length ==> pages[i].state != RESIDENT
      ensures choseClean <==> exists i :: 0 <= i < pages.Length && Eligible(pages[i], true)
      ensures victim >= 0 ==> Oldest(pages[..], marks, victim, choseClean)
    {
      var clean, fifo := -1, -1;
      var i := 0;
      while i < pages.Length
        invariant 0 <= i <= pages.Length
        invariant Least(pages[..], i, clean, true)
        invariant Least(pages[..], i, fifo, false)
      {
        if pages[i].state == RESIDENT {
          if !pages[i].dirty {
            if clean == -1 || Before(pages[i], pages[clean]) {
              clean := i;
            }
          }
          if fifo == -1 || Before(pages[i], pages[fifo]) {
            fifo := i;
          }
        }
        i := i + 1;
      }
      assert forall i :: 0 <= i < pages.Length ==> pages[i] == pages[..][i];
      choseClean := clean >= 0;
      victim := if clean >= 0 then clean else fifo;
      if victim >= 0 {
        LeastIsOldest(pages[..], marks, victim, choseClean);
      }
    }
  }

  /** The running minimum of both victim scans: a loaded earlier than b, ties broken by address. */
  predicate Before(a: PageStat, b: PageStat)
  {
    a.seqno < b.seqno || (a.seqno == b.seqno && a.va < b.va)
  }

  /** Distinct live pages were loaded at distinct times, so the order of loads decides between any two. */
  lemma LoadOrder(pages: seq<PageStat>, marks: seq<nat>, i: nat, j: nat)
    requires LiveFirst(pages) && Dated(pages, marks)
    requires i < |pages| && j < |pages| && i != j && Live(pages[i]) && Live(pages[j])
    ensures pages[i].seqno != pages[j].seqno
    ensures Before(pages[i], pages[j]) <==> pages[i].seqno < pages[j].seqno
  {
    assert LastMark(marks, pages[i].va, pages[i].seqno);
    assert LastMark(marks, pages[j].va, pages[j].seqno);
  }

  /** Entry v is resident, passes the filter, and was loaded before every other such entry. */
  ghost predicate Oldest(pages: seq<PageStat>, marks: seq<nat>, v: nat, cleanOnly: bool)
  {
    && v < |pages| && Eligible(pages[v], cleanOnly)
    && LastMark(marks, pages[v].va, pages[v].seqno)
    && forall j :: 0 <= j < |pages| && j != v && Eligible(pages[j], cleanOnly) ==>
         LastMark(marks, pages[j].va, pages[j].seqno) && pages[v].seqno < pages[j].seqno
  }

  predicate Eligible(e: PageStat, cleanOnly: bool)
  {
    e.state == RESIDENT && (cleanOnly ==> !e.dirty)
  }

  /** What the loop of both victim scans keeps: the least eligible entry so far, or -1. */
  predicate Least(pages: seq<PageStat>, n: nat, v: int, cleanOnly: bool)
    requires n <= |pages|
  {
    && -1 <= v < n
    && (v >= 0 ==> Eligible(pages[v], cleanOnly))
    && (forall j :: 0 <= j < n && Eligible(pages[j], cleanOnly) ==> v >= 0 && (j == v || !Before(pages[j], pages[v])))
  }

  lemma LeastIsOldest(pages: seq<PageStat>, marks: seq<nat>, v: int, cleanOnly: bool)
    requires LiveFirst(pages) && Dated(pages, marks) && Least(pages, |pages|, v, cleanOnly) && v >= 0
    ensures Oldest(pages, marks, v, cleanOnly)
  {
    forall j | 0 <= j < |pages| && j != v && Eligible(pages[j], cleanOnly)
      ensures LastMark(marks, pages[j].va, pages[j].seqno) && pages[v].seqno < pages[j].seqno
    {
      LoadOrder(pages, marks, j, v);
    }
  }

  /** memstat_find_index fails: the page is not recorded and no entry is free. */
  ghost predicate Full(pages: seq<PageStat>, va: nat)
  {
    !Tracked(pages, va) && forall i :: 0 <= i < |pages| ==> Live(pages[i])
  }

  lemma PutAll(pages: seq<PageStat>, i: nat, e: PageStat)
    requires LiveFirst(pages) && Place(pages, e.va, i)
    ensures LiveFirst(pages[i := e])
    ensures forall v: nat :: v != e.va ==> Status(pages[i := e], v) == Status(pages, v)
    ensures Status(pages[i := e], e.va) == if Live(e) then Some(e) else None
  {
    PutKeepsOrder(pages, i, e);
    PutSetsStatus(pages, i, e, e.va);
    forall v: nat | v != e.va ensures Status(pages[i := e], v) == Status(pages, v) {
      PutSetsStatus(pages, i, e, v);
    }
  }

  lemma MarkKeepsDates(pages: seq<PageStat>, marks: seq<nat>, i: nat, e: PageStat)
    requires LiveFirst(pages) && Dated(pages, marks) && Home(pages, e.va, i) && e.seqno == |marks|
    ensures Dated(pages[i := e], marks + [e.va])
  {
    var pages' := pages[i := e];
    forall j | 0 <= j < |pages'| && Live(pages'[j]) ensures LastMark(marks + [e.va], pages'[j].va, pages'[j].seqno) {
      if j != i {
        assert pages'[j] == pages[j];
        assert LastMark(marks, pages[j].va, pages[j].seqno);
        LiveIsFound(pages, j);
      }
    }
  }

  lemma NoMarkKeepsDates(pages: seq<PageStat>, marks: seq<nat>, va: nat)
    requires Dated(pages, marks) && !Tracked(pages, va)
    ensures Dated(pages, marks + [va])
  {
    forall j | 0 <= j < |pages| && Live(pages[j]) ensures LastMark(marks + [va], pages[j].va, pages[j].seqno) {
      assert LastMark(marks, pages[j].va, pages[j].seqno);
    }
  }
}
