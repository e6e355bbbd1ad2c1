/**
 A process's resident-page table and swap store kept in step: the store holds exactly the pages the
 table records as swapped out, through every eviction and every load.
 */
module Residency {
  import opened Common
  import opened MemStat
  import Swap

  /** What the environment decides while a page is being swapped out. */
  datatype Env = Env(
    room: nat,            // bytes of disk space writei can still get
    creatable: bool,      // a swap file can be created
    existing: seq<byte>)  // what a left-over swap file of that name holds

  predicate EnvOk(env: Env)
  {
    |env.existing| <= MAXFILE * BSIZE
  }

  /** A page can be saved: there is or can be a swap file, a slot below the file's limit, and disk space. */
  predicate CanSave(open: bool, num: int, env: Env)
  {
    (open || env.creatable) && num < 67 && env.room >= PGSIZE
  }

  class Book {
    const stat: Table
    const swap: Swap.Store

    constructor ()
      ensures Valid() && fresh(stat) && fresh(stat.pages) && fresh(swap) && fresh(swap.table)
      ensures forall a: nat :: Recorded(a) == None && Stored(a) == None
      ensures swap.num == 0
    {
      stat := new Table();
      swap := new Swap.Store();
    }

    /** What the table records for page a. */
    ghost function Recorded(a: nat): (e: Option<PageStat>)
      reads stat, stat.pages
    {
      Status(stat.pages[..], a)
    }

    /** What the store holds for page a. */
    ghost function Stored(a: nat): (page: Option<seq<byte>>)
      reads swap, swap.table
    {
      if swap.Valid() then swap.Stored(a) else None
    }

    ghost predicate IsSwapped(a: nat)
      reads stat, stat.pages
    {
      Recorded(a).Some? && Recorded(a).value.state == SWAPPED
    }

    /** The store holds exactly the pages recorded as swapped out, and pages are recorded by aligned address. */
    ghost predicate InStep(a: nat)
      reads stat, stat.pages, swap, swap.table
    {
      && (Stored(a).Some? <==> IsSwapped(a))
      && (Recorded(a).Some? ==> a % PGSIZE == 0 && a < VALIMIT)
    }

    ghost predicate Valid()
      reads stat, stat.pages, swap, swap.table
    {
      stat.Valid() && swap.Valid() && swap.Unique() && forall a: nat :: InStep(a)
    }

    lemma Facts(a: nat)
      requires Valid()
      ensures Stored(a).Some? <==> IsSwapped(a)
      ensures Recorded(a).Some? ==> a % PGSIZE == 0 && a < VALIMIT
    {
      assert InStep(a);
    }

    ghost predicate Resident(idx: nat)
      reads stat, stat.pages
    {
      idx < stat.pages.Length && stat.pages[idx].state == RESIDENT
    }

    /** The victim's page leaves memory: `saved` is its contents if it must be saved. */
    method Evict(idx: nat, saved: Option<seq<byte>>, env: Env) returns (ok: bool)
      requires Valid() && Resident(idx) && EnvOk(env)
      requires saved.Some? ==> |saved.value| == PGSIZE
      modifies stat.pages, swap, swap.table
      ensures Valid()
      ensures ok <==> saved.None? || CanSave(old(swap.open), old(swap.num), env)
      ensures var a := old(stat.pages[idx].va);
        && (ok ==> Stored(a) == saved && (Recorded(a).Some? <==> saved.Some?))
        && (!ok ==> Recorded(a) == old(Recorded(a)))
        && forall v: nat :: v != a || !ok ==> Recorded(v) == old(Recorded(v)) && Stored(v) == old(Stored(v))
    {
      hide LiveFirst, Dated, Find, Tracked, Swap.SlotOf, Swap.CountUsed, Swap.FirstFreeOf;
      var a := stat.pages[idx].va;
      assert Recorded(a) == Some(stat.pages[idx]) by {
        LiveIsFound(stat.pages[..], idx);
      }
      assert InStep(a);
      assert PageDown(a) == a;
      ok := true;
      if saved.None? {
        stat.MarkUnmapped(a);
      } else {
        var slot := swap.SwapOut(a, saved.value, env.room, env.creatable, env.existing);
        if slot < 0 {
          forall v: nat ensures InStep(v) {
            assert old(InStep(v));
          }
          return false;
        }
        stat.NoteSwapOut(a, slot);
        stat.MarkSwapped(a, slot);
      }
      forall v: nat ensures InStep(v) {
        assert old(InStep(v));
      }
    }

    /** The record of a resident page. */
    lemma VictimRecord(idx: nat)
      requires Valid() && Resident(idx)
      ensures Recorded(stat.pages[idx].va) == Some(stat.pages[idx]) && Stored(stat.pages[idx].va).None?
    {
      LiveIsFound(stat.pages[..], idx);
      assert InStep(stat.pages[idx].va);
    }

    /** Nothing is recorded, so the table has room. */
    lemma RoomAtFirst(a: nat)
      requires Valid() && forall v: nat :: Recorded(v).None?
      ensures !Full(stat.pages[..], a)
    {
      hide Find, Dated, Swap.SlotOf, Swap.CountUsed;
      var e := Recorded(stat.pages[..][0].va);
      LiveIsRecorded(stat.pages[..], 0);
    }

    /** The only page recorded is the one loaded first. */
    lemma OnlyRecord(a: nat) returns (i: nat)
      requires Valid() && Recorded(a).Some? && Recorded(a).value.state == RESIDENT
      requires forall v: nat :: v != a ==> Recorded(v).None?
      ensures Oldest(stat.pages[..], stat.marks, i, false) && stat.pages[..][i] == Recorded(a).value
    {
      i := Find(stat.pages[..], a);
      assert stat.pages[..][i] == Recorded(a).value;
      forall j | 0 <= j < stat.pages.Length && Live(stat.pages[..][j]) ensures j == i {
        LiveIsFound(stat.pages[..], j);
        assert Recorded(stat.pages[..][j].va).Some?;
      }
    }

    /** The FIFO victim, if any page is resident: the one loaded longest ago. */
    method SelectVictim() returns (idx: int)
      requires Valid()
      ensures idx >= 0 ==> Resident(idx) && Oldest(stat.pages[..], stat.marks, idx, false)
      ensures idx < 0 ==> forall i :: 0 <= i < stat.pages.Length ==> stat.pages[i].state != RESIDENT
    {
      hide LiveFirst, Dated, Find;
      idx := stat.SelectFifo();
    }

    /** swapin_page: fetch page a from the store and record it as resident. */
    method BringIn(a: nat) returns (page: Option<seq<byte>>)
      requires Valid() && IsSwapped(a)
      modifies stat.pages, swap, swap.table
      ensures Valid() && page.Some? && page == old(Stored(a)) && |page.value| == PGSIZE
      ensures Stored(a) == None && Recorded(a).Some? && Recorded(a).value.state == RESIDENT
      ensures forall v: nat :: v != a ==> Recorded(v) == old(Recorded(v)) && Stored(v) == old(Stored(v))
    {
      hide LiveFirst, Dated, Find, Swap.SlotOf, Swap.CountUsed;
      assert InStep(a);
      assert PageDown(a) == a;
      var slot, bytes := swap.SwapIn(a);
      stat.NoteSwapIn(a);
      forall v: nat ensures InStep(v) {
        assert old(InStep(v));
      }
      page := Some(bytes);
    }

    /** Page a, not in the store, was loaded; `written` if by a store instruction. */
    method Load(a: nat, written: bool)
      requires Valid() && Stored(a).None? && a % PGSIZE == 0 && a < VALIMIT
      modifies stat, stat.pages
      ensures Valid()
      ensures Recorded(a).Some? ==> Recorded(a).value.state == RESIDENT && Recorded(a).value.dirty == written
                                    && Recorded(a).value.seqno == old(stat.nextSeq)
      ensures Recorded(a).None? <==> old(Full(stat.pages[..], a))
      ensures forall v: nat :: Stored(v) == old(Stored(v))
      ensures forall v: nat :: v != a ==> Recorded(v) == old(Recorded(v))
    {
      hide LiveFirst, Dated, Find, Full, Swap.SlotOf, Swap.CountUsed;
      stat.MarkResident(a);
      if written {
        stat.NoteWrite(a);
      }
      forall v: nat ensures InStep(v) {
        assert old(InStep(v));
      }
    }

    /** A page that is already mapped is written to for the first time. */
    method Dirty(a: nat)
      requires Valid()
      modifies stat.pages
      ensures Valid()
      ensures forall v: nat :: Stored(v) == old(Stored(v))
      ensures forall v: nat :: v != a ==> Recorded(v) == old(Recorded(v))
      ensures Recorded(a) == if old(Recorded(a)).Some? then Some(old(Recorded(a)).value.(dirty := true)) else None
    {
      hide LiveFirst, Dated, Find, Swap.SlotOf, Swap.CountUsed;
      stat.NoteWrite(a);
      forall v: nat ensures InStep(v) {
        assert old(InStep(v));
      }
    }

    /** A mapped stack or heap page is written to. */
    method DirtyResident(a: nat)
      requires Valid()
      modifies stat.pages
      ensures Valid()
      ensures forall v: nat :: Stored(v) == old(Stored(v))
      ensures forall v: nat :: v != a ==> Recorded(v) == old(Recorded(v))
      ensures Recorded(a) ==
        match old(Recorded(a))
        case Some(e) => Some(if e.state == RESIDENT then e.(dirty := true) else e)
        case None => None
    {
      hide LiveFirst, Dated, Find, Swap.SlotOf, Swap.CountUsed;
      stat.NoteResidentWrite(a);
      forall v: nat ensures InStep(v) {
        assert old(InStep(v));
      }
    }

    method WasSwapped(a: nat) returns (yes: bool)
      requires Valid()
      ensures yes <==> IsSwapped(a)
    {
      hide LiveFirst, Dated;
      yes := stat.WasSwapped(a);
    }
  }
}
