/**
 swap.c: a process's swap table and swap file, as a store of pages by virtual address.
 */
module Swap {
  import opened Common

  const MAX_SWAP_PAGES: nat := 1024

  datatype Entry = Entry(used: bool, va: nat, slot: int)

  function CountUsed(t: seq<Entry>): (n: nat)
    ensures n <= |t|
  {
    if t == [] then 0 else CountUsed(t[..|t| - 1]) + (if t[|t| - 1].used then 1 else 0)
  }

  lemma {:induction false} CountUsedUpdate(t: seq<Entry>, i: nat, e: Entry)
    requires i < |t|
    ensures CountUsed(t[i := e]) == CountUsed(t) - (if t[i].used then 1 else 0) + (if e.used then 1 else 0)
  {
    if i == |t| - 1 {
      assert t[i := e][..|t| - 1] == t[..|t| - 1];
    } else {
      CountUsedUpdate(t[..|t| - 1], i, e);
      assert t[i := e][..|t| - 1] == t[..|t| - 1][i := e];
    }
  }

  lemma {:induction false} CountUsedZero(t: seq<Entry>)
    requires forall i :: 0 <= i < |t| ==> !t[i].used
    ensures CountUsed(t) == 0
  {
    if t != [] {
      CountUsedZero(t[..|t| - 1]);
    }
  }

  /** The slot swapin_page reads for va: the lowest used one, or |t| if there is none. */
  ghost function SlotOf(t: seq<Entry>, va: nat): (s: nat)
    ensures s <= |t|
    ensures s < |t| ==> t[s].used && t[s].va == va
    ensures forall i :: 0 <= i < s ==> !(t[i].used && t[i].va == va)
  {
    if t == [] then 0
    else if t[0].used && t[0].va == va then 0
    else 1 + SlotOf(t[1..], va)
  }

  /** The slot proc_swapout_page takes: the lowest free one, or |t| if there is none. */
  ghost function FirstFreeOf(t: seq<Entry>): (s: nat)
    ensures s <= |t|
    ensures s < |t| ==> !t[s].used
    ensures forall i :: 0 <= i < s ==> t[i].used
  {
    if t == [] || !t[0].used then 0 else 1 + FirstFreeOf(t[1..])
  }

  /** Filling free slot s for va shadows nothing but higher slots of va itself. */
  lemma SlotOfInsert(t: seq<Entry>, s: nat, va: nat, v: nat)
    requires s < |t| && !t[s].used
    ensures var t' := t[s := Entry(true, va, s)];
      SlotOf(t', v) == if v == va && s < SlotOf(t, v) then s else SlotOf(t, v)
  {
    var t' := t[s := Entry(true, va, s)];
    var x, y := SlotOf(t, v), SlotOf(t', v);
    assert x < |t| ==> t'[x] == t[x];
    assert y < |t| && y != s ==> t[y] == t'[y];
    assert t'[s].used && t'[s].va == va;
  }

  /** Freeing the slot found for va uncovers nothing but higher slots of va itself. */
  lemma SlotOfRemove(t: seq<Entry>, va: nat, v: nat)
    requires SlotOf(t, va) < |t|
    ensures var t' := t[SlotOf(t, va) := Entry(false, 0, -1)];
      && (v != va ==> SlotOf(t', v) == SlotOf(t, v))
      && SlotOf(t', va) > SlotOf(t, va)
  {
    var s := SlotOf(t, va);
    var t' := t[s := Entry(false, 0, -1)];
    var x, y := SlotOf(t, v), SlotOf(t', v);
    assert x < |t| && x != s ==> t'[x] == t[x];
    assert y < |t| ==> t[y] == t'[y];
    assert forall i :: 0 <= i < s ==> t'[i] == t[i];
  }

  class Store {
    const table: array<Entry>
    var num: int
    var file: seq<byte>
    var open: bool

    ghost predicate Valid()
      reads this, table
    {
      && table.Length == MAX_SWAP_PAGES
      && |file| <= MAXFILE * BSIZE
      && num == CountUsed(table[..])
      && (forall i :: 0 <= i < table.Length && table[i].used ==> Holds(i) && table[i].slot == i && open)
    }

    /** The file is long enough to hold slot i. */
    ghost predicate Holds(i: nat)
      reads this
    {
      (i + 1) * PGSIZE <= |file|
    }

    /** What the store holds for va. */
    ghost function Stored(va: nat): (page: Option<seq<byte>>)
      requires Valid()
      reads this, table
    {
      var s := SlotOf(table[..], va);
      if s < table.Length then Some(file[s * PGSIZE..(s + 1) * PGSIZE]) else None
    }

    /** No page is stored twice. */
    ghost predicate Unique()
      reads table
    {
      forall i, j :: 0 <= i < j < table.Length && table[i].used && table[j].used ==> table[i].va != table[j].va
    }

    constructor ()
      ensures Valid() && Unique() && !open && num == 0 && fresh(table)
      ensures forall va: nat :: Stored(va) == None
      ensures forall i :: 0 <= i < table.Length ==> !table[i].used
    {
      table := new Entry[MAX_SWAP_PAGES](i => Entry(false, 0, -1));
      num, file, open := 0, [], false;
      new;
      CountUsedZero(table[..]);
    }

    /**
     writei on the swap file from kernel memory: refuses a gap or an oversized file, and stops early,
     with the bytes so far in place, when only `room` bytes can be given blocks.
     */
    method WriteFile(off: nat, data: seq<byte>, room: nat) returns (n: int)
      requires |file| <= MAXFILE * BSIZE
      modifies this`file
      ensures n == if off > |old(file)| || off + |data| > MAXFILE * BSIZE then -1
                   else if room < |data| then room else |data|
      ensures |old(file)| <= |file| <= MAXFILE * BSIZE
      ensures forall k :: 0 <= k < |old(file)| && !(off <= k < off + |data|) ==> file[k] == old(file)[k]
      ensures n >= 0 ==> off + n <= |file| && file[off..off + n] == data[..n]
      ensures n < 0 ==> file == old(file)
    {
      if off > |file| || off + |data| > MAXFILE * BSIZE {
        return -1;
      }
      n := if room < |data| then room else |data|;
      file := if off + n <= |file| then file[..off] + data[..n] + file[off + n..] else file[..off] + data[..n];
    }

    /** The first free slot, or -1: and the file always reaches up to it. */
    method FirstFree() returns (slot: int)
      requires Valid()
      ensures slot == FirstFreeOf(table[..]) < table.Length && !table[slot].used
      ensures slot <= 67 && slot * PGSIZE <= |file|
    {
      var i := 0;
      while i < table.Length
        invariant 0 <= i <= table.Length
        invariant forall j :: 0 <= j < i ==> table[j].used
        invariant i * PGSIZE <= |file|
      {
        if !table[i].used {
          return i;
        }
        assert Holds(i);
        i := i + 1;
      }
      slot := -1;
    }

    /** Write a page into a free slot's place in the file: no stored page changes. */
    method WriteSlot(slot: nat, page: seq<byte>, room: nat) returns (n: int)
      requires Valid() && slot < table.Length && !table[slot].used && slot * PGSIZE <= |file| && |page| == PGSIZE
      modifies this`file
      ensures Valid()
      ensures forall v: nat :: Stored(v) == old(Stored(v))
      ensures n == PGSIZE <==> slot <= 66 && room >= PGSIZE
      ensures n == PGSIZE ==> Holds(slot) && file[slot * PGSIZE..(slot + 1) * PGSIZE] == page
    {
      n := WriteFile(slot * PGSIZE, page, room);
      forall i | 0 <= i < table.Length && table[i].used
        ensures Holds(i) && file[i * PGSIZE..(i + 1) * PGSIZE] == old(file)[i * PGSIZE..(i + 1) * PGSIZE]
      {
        OtherSlot(i, slot);
      }
      assert n >= 0 ==> page[..n] == page[..n];
      assert n == PGSIZE ==> page[..n] == page;
    }

    /** Record the page just written to a free slot. */
    method Occupy(slot: nat, va: nat)
      requires Valid() && open && slot < table.Length && !table[slot].used && Holds(slot)
      modifies this`num, table
      ensures Valid() && num == old(num) + 1 && table[..] == old(table[..])[slot := Entry(true, va, slot)]
      ensures old(Unique()) && old(Stored(va)).None? ==> Unique()
      ensures forall v: nat :: v != va ==> Stored(v) == old(Stored(v))
      ensures Stored(va) == if slot < old(SlotOf(table[..], va)) then Some(file[slot * PGSIZE..(slot + 1) * PGSIZE])
                            else old(Stored(va))
    {
      ghost var t := table[..];
      CountUsedUpdate(t, slot, Entry(true, va, slot));
      table[slot] := Entry(true, va, slot);
      num := num + 1;
      assert table[..] == t[slot := Entry(true, va, slot)];
      forall v: nat {
        SlotOfInsert(t, slot, va, v);
      }
    }

    /**
     Swap out the page at va.  `creatable` and `existing` say whether a swap file can be made and what
     a left-over file of that name holds.  Returns the slot, or -1.
     */
    method SwapOut(va: nat, page: seq<byte>, room: nat, creatable: bool, existing: seq<byte>) returns (slot: int)
      requires Valid() && va < 0x1_0000_0000 && |page| == PGSIZE && |existing| <= MAXFILE * BSIZE
      modifies this, table
      ensures Valid()
      ensures slot >= 0 <==> (old(open) || creatable) && old(num) < 67 && room >= PGSIZE
      ensures slot < 0 ==> num == old(num) && table[..] == old(table[..]) && forall v: nat :: Stored(v) == old(Stored(v))
      ensures old(Unique()) && (slot >= 0 ==> old(Stored(PageDown(va))).None?) ==> Unique()
      ensures slot >= 0 ==> slot == FirstFreeOf(old(table[..])) <= 66 && num == old(num) + 1
      ensures slot >= 0 ==> table[..] == old(table[..])[slot := Entry(true, PageDown(va), slot)]
      ensures slot >= 0 ==> forall v: nat :: v != PageDown(va) ==> Stored(v) == old(Stored(v))
      ensures slot >= 0 ==>
        Stored(PageDown(va)) ==
          if FirstFreeOf(old(table[..])) < old(SlotOf(table[..], PageDown(va))) then Some(page)
          else old(Stored(PageDown(va)))
    {
      if !open {
        if !creatable {
          return -1;
        }
        open, file := true, existing;
        assert forall i :: 0 <= i < table.Length ==> !table[i].used;
        assert forall v: nat :: SlotOf(table[..], v) == table.Length;
      }
      assert forall v: nat :: Stored(v) == old(Stored(v));
      slot := FirstFree();
      ghost var t := table[..];
      FirstFreeCounts(t, slot);
      forall i | 0 <= i < |t| && t[i].used ensures i < 67 {
        assert Holds(i);
      }
      var n := WriteSlot(slot, page, room);
      if n != PGSIZE {
        return -1;
      }
      Occupy(slot, PageDown(va));
    }

    /** Swap va back in: the page, and its slot is free again. */
    method SwapIn(va: nat) returns (slot: int, page: seq<byte>)
      requires Valid() && va < 0x1_0000_0000
      modifies this`num, table
      ensures Valid()
      ensures slot >= 0 <==> old(Stored(PageDown(va))).Some?
      ensures slot < 0 ==> table[..] == old(table[..]) && num == old(num)
      ensures old(Unique()) ==> Unique() && Stored(PageDown(va)) == None
      ensures slot >= 0 ==> old(Stored(PageDown(va))) == Some(page) && num == old(num) - 1
      ensures slot >= 0 ==> slot == old(SlotOf(table[..], PageDown(va))) < SlotOf(table[..], PageDown(va))
      ensures slot >= 0 ==> forall v: nat :: v != PageDown(va) ==> Stored(v) == old(Stored(v))
    {
      slot, page := -1, [];
      ghost var t := table[..];
      if !open {
        return;
      }
      var va0 := PageDown(va);
      var i := 0;
      while i < table.Length
        invariant 0 <= i <= table.Length
        invariant forall j :: 0 <= j < i ==> !(t[j].used && t[j].va == va0)
      {
        if table[i].used && table[i].va == va0 {
          slot := i;
          break;
        }
        i := i + 1;
      }
      if slot == -1 {
        return;
      }
      assert t[slot].used && t[slot].va == va0;
      assert Holds(slot);
      page := file[slot * PGSIZE..(slot + 1) * PGSIZE];
      CountUsedUpdate(t, slot, Entry(false, 0, -1));
      table[slot] := Entry(false, 0, -1);
      num := num - 1;
      assert table[..] == t[slot := Entry(false, 0, -1)];
      forall v: nat {
        SlotOfRemove(t, va0, v);
      }
      if forall i, j :: 0 <= i < j < |t| && t[i].used && t[j].used ==> t[i].va != t[j].va {
        assert forall j :: 0 <= j < table.Length ==> !(table[..][j].used && table[..][j].va == va0);
      }
    }

    /** Empty the table; returns how many slots were in use. */
    method Cleanup() returns (freed: int)
      requires Valid()
      modifies this, table
      ensures Valid() && freed == old(num) && num == 0 && !open
      ensures forall v: nat :: Stored(v) == None
    {
      ghost var t := table[..];
      freed := 0;
      var i := 0;
      while i < table.Length
        invariant 0 <= i <= table.Length
        invariant freed == CountUsed(t[..i])
        invariant forall j :: i <= j < table.Length ==> table[j] == t[j]
        invariant forall j :: 0 <= j < i ==> !table[j].used
      {
        assert t[..i + 1][..i] == t[..i] && t[..i + 1][i] == t[i];
        if table[i].used {
          freed := freed + 1;
        }
        table[i] := Entry(false, 0, -1);
        i := i + 1;
      }
      assert t[..i] == t;
      num, open, file := 0, false, [];
      CountUsedZero(table[..]);
    }
  }

  /** A page swapped out twice comes back as it was the first time: the second copy sits in a higher slot. */
  method StaleCopy(va: nat, first: seq<byte>, second: seq<byte>) returns (page: seq<byte>)
    requires va < 0x1_0000_0000 && |first| == |second| == PGSIZE
    ensures page == first
  {
    hide CountUsed, SlotOf, FirstFreeOf;
    var store := new Store();
    var s1 := store.SwapOut(va, first, PGSIZE, true, []);
    var s2 := store.SwapOut(va, second, PGSIZE, true, []);
    var s3;
    s3, page := store.SwapIn(va);
  }

  /** The first free slot is at most the number of used ones; with used slots below 67, both reach 67 together. */
  lemma FirstFreeCounts(t: seq<Entry>, s: nat)
    requires s < |t| && !t[s].used && |t| > 67
    requires forall i :: 0 <= i < s ==> t[i].used
    ensures s <= CountUsed(t)
    ensures (forall i :: 0 <= i < |t| && t[i].used ==> i < 67) ==> (CountUsed(t) < 67 <==> s < 67)
  {
    UsedPrefix(t, s);
    if forall i :: 0 <= i < |t| && t[i].used ==> i < 67 {
      UsedBelow(t, 67, s);
    }
  }

  lemma {:induction false} UsedPrefix(t: seq<Entry>, s: nat)
    requires s <= |t| && forall i :: 0 <= i < s ==> t[i].used
    ensures s <= CountUsed(t)
  {
    if s > 0 {
      UsedPrefix(t[..|t| - 1], if s == |t| then s - 1 else s);
    }
  }

  lemma {:induction false} UsedBelow(t: seq<Entry>, m: nat, s: nat)
    requires forall i :: 0 <= i < |t| && t[i].used ==> i < m
    requires s < |t| ==> !t[s].used
    ensures CountUsed(t) <= m
    ensures s < |t| && s < m ==> CountUsed(t) < m
  {
    if t != [] {
      var u := t[..|t| - 1];
      UsedBelow(u, if |t| <= m then |t| - 1 else m, s);
    }
  }

  lemma OtherSlot(i: nat, j: nat)
    ensures i < j ==> (i + 1) * PGSIZE <= j * PGSIZE
    ensures j < i ==> (j + 1) * PGSIZE <= i * PGSIZE
  {
  }
}
