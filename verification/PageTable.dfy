/**
 kalloc.c and the page-table half of vm.c. Frames are numbered by physical page number; an address
 is a frame number times PGSIZE, and 0 is the null pointer.
 */
module PageTable {
  import opened Common
  import opened Sv39
  import opened TableSteps
  import opened TableRelations
  import opened TableTrees
  import opened Frames
  import opened TableCalls

  class Memory {
    var mem: map<nat, seq<nat>>
    var head: nat                  // kmem.freelist
    ghost var free: seq<nat>
    ghost var owner: map<nat, Owner>
    ghost var tabs: map<Key, nat>

    ghost function S(): St
      reads this
    {
      St(mem, owner, tabs)
    }

    ghost predicate ValidBut(x: set<Key>)
      reads this
    {
      FreeList(mem, owner, free, head) && TreeBut(S(), x) && forall f :: f in owner ==> f < PHYS_FRAMES
    }

    ghost predicate Valid()
      reads this
    {
      ValidBut({})
    }

    /** kinit: every frame of RAM past the kernel image is free, once. */
    constructor (ram: map<nat, seq<nat>>, end: nat)
      requires 0 < end && forall f :: f in ram ==> |ram[f]| == 512
      requires forall f :: f in ram <==> PageUp(end) / PGSIZE <= f < PHYS_FRAMES
      ensures Valid() && tabs == map[] && owner.Keys == ram.Keys && forall f :: f in owner ==> owner[f] == Free
    {
      mem := ram;
      head, free := 0, [];
      owner := map f | f in ram :: Held;
      tabs := map[];
      new;
      Freerange(end, PHYS_FRAMES * PGSIZE);
    }

    /** freerange: the whole pages of [start, stop). */
    method Freerange(start: nat, stop: nat)
      requires Valid()
      requires forall f: nat :: PageUp(start) / PGSIZE <= f < stop / PGSIZE ==> f in owner && owner[f] == Held
      modifies this
      ensures Valid() && tabs == old(tabs) && owner.Keys == old(owner).Keys
      ensures forall f :: f in owner ==>
        owner[f] == if PageUp(start) / PGSIZE <= f < stop / PGSIZE then Free else old(owner)[f]
    {
      hide TreeBut, FreeList, SameLookups;
      var p := PageUp(start);
      while p + PGSIZE <= stop
        invariant p % PGSIZE == 0 && PageUp(start) <= p
        invariant Valid() && tabs == old(tabs) && owner.Keys == old(owner).Keys
        invariant forall f :: f in owner ==>
          owner[f] == if PageUp(start) / PGSIZE <= f < p / PGSIZE && f < stop / PGSIZE then Free else old(owner)[f]
      {
        Kfree(p, {});
        p := p + PGSIZE;
      }
    }

    /** kalloc: the frame freed last, filled with junk, or 0 exactly when nothing is free. */
    method Kalloc() returns (pa: nat)
      requires Valid()
      modifies this
      ensures Valid() && tabs == old(tabs) && SameLookups(old(S()), S())
      ensures pa == 0 <==> old(free) == []
      ensures pa == 0 ==> mem == old(mem) && owner == old(owner) && free == old(free)
      ensures pa != 0 ==> pa == old(free)[0] * PGSIZE && free == old(free)[1..]
      ensures pa != 0 ==> pa / PGSIZE in old(owner) && old(owner)[pa / PGSIZE] == Free
      ensures pa != 0 ==> owner == old(owner)[pa / PGSIZE := Held] && mem == old(mem)[pa / PGSIZE := Filled(5)]
    {
      hide TreeBut, SameLookups, Filled, FreeList, Sv39.Lookup;
      ghost var s := S();
      pa := head;
      NullWhenEmpty(mem, owner, free, head);
      if pa != 0 {
        PopFree(mem, owner, free, head, Filled(5));
        ghost var f := free[0];
        Reowned(s, f, Held, Filled(5), {});
        head := mem[pa / PGSIZE][0];
        mem := mem[pa / PGSIZE := Filled(5)];
        owner := owner[f := Held];
        free := free[1..];
      } else {
        SameState(s);
      }
    }

    /** kfree: junk in the page, the frame on top of the list. The caller must hold the frame. */
    method Kfree(pa: nat, ghost x: set<Key>)
      requires ValidBut(x) && pa % PGSIZE == 0 && pa / PGSIZE in owner && owner[pa / PGSIZE] == Held
      modifies this
      ensures ValidBut(x) && tabs == old(tabs) && SameLookups(old(S()), S())
      ensures free == [pa / PGSIZE] + old(free) && owner == old(owner)[pa / PGSIZE := Free]
      ensures mem == old(mem)[pa / PGSIZE := Put(Filled(1), 0, old(head))]
    {
      hide TreeBut, SameLookups, Filled, FreeList, Sv39.Lookup;
      ghost var s := S();
      var f := pa / PGSIZE;
      var page := Put(Filled(1), 0, head);
      PushFree(mem, owner, free, head, f, page);
      Reowned(s, f, Free, page, x);
      mem := mem[f := page];
      head := pa;
      owner := owner[f := Free];
      free := [f] + free;
    }

    /** A zeroed frame for a new table page, linked from entry i of the table k. */
    method AddTable(p: nat, i: nat, ghost k: Key) returns (pa: nat)
      requires Valid() && k in tabs && tabs[k] == p && k.level > 0 && i < 512 && Child(k, i) !in tabs
      modifies this
      ensures Valid() && Grew(old(S()), S()) && pa % PGSIZE == 0
      ensures pa == 0 <==> old(free) == []
      ensures pa == 0 ==> S() == old(S()) && free == old(free)
      ensures pa != 0 ==> tabs == old(tabs)[Child(k, i) := pa / PGSIZE] && |free| == |old(free)| - 1
    {
      hide TreeBut, FreeList, Filled, SameLookups, Grew, CanGrow, Grown, Zeroed;
      ghost var s := S();
      ghost var wasFree := free;
      pa := Kalloc();
      if pa == 0 {
        GrewNothing(s);
        return;
      }
      var f := pa / PGSIZE;
      ghost var s1 := S();
      ZeroedPage();
      Fill(f, Filled(0));
      ghost var s2 := S();
      TableCanGrow(s2, k, i, f);
      Grow(s2, k, i, f);
      GrewByOne(s, s1, s2, k, i, f);
      GrownFree(s2, free, head, k, i, f);
      mem := mem[p := Put(mem[p], i, Pa2Pte(pa) + 1)];
      owner := owner[f := Table(Child(k, i))];
      tabs := tabs[Child(k, i) := f];
      GrownIs(s2, k, i, f);
    }

    /** memset or memmove onto a frame in the kernel's hands. */
    method Fill(f: nat, page: seq<nat>)
      requires Valid() && f in owner && owner[f] == Held && |page| == 512
      modifies this`mem
      ensures Valid() && mem == old(mem)[f := page] && SameLookups(old(S()), S())
    {
      hide TreeBut, FreeList, SameLookups;
      Reowned(S(), f, Held, page, {});
      ShapeOf(S());
      KeepFree(mem, owner, free, head, mem[f := page], owner);
      mem := mem[f := page];
      assert S() == St(old(mem)[f := page], old(owner)[f := Held], old(tabs));
    }

    /** One round of walk's loop: follow or create the entry for va in the table at this level. */
    method Descend(p: nat, va: nat, level: nat, alloc: bool, ghost root: nat) returns (next: nat)
      requires Valid() && 0 < level <= 2
      requires On(root, level, va / PGSIZE) in tabs && tabs[On(root, level, va / PGSIZE)] == p
      modifies this
      ensures Valid() && Grew(old(S()), S())
      ensures next == 0 <==> On(root, level - 1, va / PGSIZE) !in old(tabs) && (!alloc || old(free) == [])
      ensures next == 0 || On(root, level - 1, va / PGSIZE) in old(tabs) ==> S() == old(S()) && free == old(free)
      ensures next != 0 ==> On(root, level - 1, va / PGSIZE) in tabs
      ensures next != 0 ==> next == tabs[On(root, level - 1, va / PGSIZE)] * PGSIZE
      ensures next != 0 && On(root, level - 1, va / PGSIZE) !in old(tabs) ==>
        tabs == old(tabs)[On(root, level - 1, va / PGSIZE) := next / PGSIZE] && |free| == |old(free)| - 1
    {
      hide TreeBut, FreeList, SameLookups, Grew, Word, Pte;
      PxIsDigit(level, va);
      NextOn(root, level, va / PGSIZE);
      hide On, Up, Child, Px;
      var i := Px(level, va);
      WordIs(S(), On(root, level, va / PGSIZE), i, {});
      var w := mem[p][i];
      GrewNothing(S());
      if V(w) {
        PointsAt(S(), free, head, On(root, level - 1, va / PGSIZE), w);
        next := Pte2Pa(w);
      } else if !alloc {
        PointsAt(S(), free, head, On(root, level - 1, va / PGSIZE), w);
        next := 0;
      } else {
        PointsAt(S(), free, head, On(root, level - 1, va / PGSIZE), w);
        next := AddTable(p, i, On(root, level, va / PGSIZE));
      }
    }

    /**
     walk: the leaf slot of va. The flat map never changes; a page table that cannot be completed
     for lack of frames is the only reason for failure with alloc set.
     */
    method Walk(root: nat, va: nat, alloc: bool) returns (slot: Slot)
      requires Valid() && Key(root, 2, 0) in tabs && va < MAXVA
      modifies this
      ensures Valid() && Grew(old(S()), S())
      ensures !alloc ==> S() == old(S()) && free == old(free)
      ensures slot.NoSlot? <==> (if alloc then |old(free)| < Missing(old(tabs), root, va / PGSIZE, 0)
                                 else Missing(old(tabs), root, va / PGSIZE, 0) > 0)
      ensures slot.Slot? ==> HasLeafTable(S(), root, va / PGSIZE)
      ensures slot.Slot? ==> slot == Slot(tabs[Key(root, 0, va / PGSIZE / 512)], va / PGSIZE % 512)
      ensures slot.Slot? ==> |free| + Missing(old(tabs), root, va / PGSIZE, 0) == |old(free)|
      ensures slot.Slot? && alloc ==> tabs.Keys == old(tabs).Keys + Path(root, va / PGSIZE, 0)
      ensures slot.NoSlot? && alloc ==> free == []
    {
      hide TreeBut, FreeList, SameLookups, Grew, Word, Up, Px, HasLeafTable;
      RootIs(S(), root, va);
      ghost var vpn, s := va / PGSIZE, S();
      GrewNothing(s);
      var pagetable, level := root * PGSIZE, 2;
      while level > 0
        invariant level <= 2 && Valid() && Grew(s, S()) && (!alloc ==> S() == s && free == old(free))
        invariant On(root, level, vpn) in tabs && pagetable == tabs[On(root, level, vpn)] * PGSIZE
        invariant forall j: nat :: j < level ==> (On(root, j, vpn) in tabs <==> On(root, j, vpn) in old(tabs))
        invariant |free| + Missing(old(tabs), root, vpn, level) == |old(free)|
        invariant tabs.Keys == old(tabs).Keys + Path(root, vpn, level)
        invariant !alloc ==> Missing(old(tabs), root, vpn, level) == 0
      {
        ghost var s1 := S();
        pagetable := Descend(pagetable / PGSIZE, va, level, alloc, root);
        GrewTwice(s, s1, S());
        if pagetable == 0 {
          slot := NoSlot;
          return;
        }
        level := level - 1;
      }
      LeafTable(S(), root, va);
      slot := Slot(pagetable / PGSIZE, Px(0, va));
    }

    /** Store w in the leaf slot of an unmapped page; with own, the mapping takes over the frame. */
    method StoreLeaf(slot: Slot, w: nat, ghost root: nat, ghost vpn: nat, ghost own: bool)
      requires Valid() && HasLeafTable(S(), root, vpn) && Lookup(S(), root, vpn) == 0 && V(w)
      requires slot == Slot(tabs[Key(root, 0, vpn / 512)], vpn % 512)
      requires own ==> w / 1024 in owner && owner[w / 1024] == Held
      modifies this`mem, this`owner
      ensures Valid() && owner == if own then old(owner)[w / 1024 := Leaf(root, vpn)] else old(owner)
      ensures HasLeafTable(old(S()), root, vpn)
      ensures S() == WithLeaf(old(S()), root, vpn, w, owner)
    {
      hide TreeBut, FreeList, Sv39.Lookup, WithLeaf;
      ghost var s := S();
      ghost var o := if own then owner[w / 1024 := Leaf(root, vpn)] else owner;
      LeafStored(s, free, head, root, vpn, w, own, o);
      LeafWritten(s, root, vpn, w, o);
      mem := mem[slot.frame := Put(mem[slot.frame], slot.i, w)];
      owner := o;
    }

    /** One page of mappages. */
    method MapLeaf(root: nat, va: nat, pa: nat, perm: nat, ghost own: bool) returns (r: Mapping)
      requires Valid() && Key(root, 2, 0) in tabs && va < MAXVA && perm < 1024
      requires RunHeld(owner, pa / PGSIZE, 1, own)
      modifies this
      ensures r == Remap <==> V(Lookup(old(S()), root, va / PGSIZE))
      ensures r == Mapped <==> r != Remap && Missing(old(tabs), root, va / PGSIZE, 0) <= |old(free)|
      ensures r != Remap ==> Valid() && (r == NoFrame ==> free == [])
      ensures r == Mapped ==> |free| + Missing(old(tabs), root, va / PGSIZE, 0) == |old(free)|
      ensures r == Mapped ==> tabs.Keys == old(tabs).Keys + Path(root, va / PGSIZE, 0)
      ensures r != Remap ==>
        MappedRun(old(S()), S(), root, va / PGSIZE, pa / PGSIZE, if r == Mapped then 1 else 0, WithV(perm), own)
    {
      hide TreeBut, FreeList, SameLookups, Grew, Word, Sv39.Lookup, HasLeafTable, MappedRun, Pte, WithLeaf, RunHeld;
      ghost var s, vpn, f := S(), va / PGSIZE, pa / PGSIZE;
      var slot := Walk(root, va, true);
      GrewIsRun(s, S(), root, vpn, f, WithV(perm), own);
      if slot.NoSlot? {
        SlotOrNothing(s, root, vpn, slot);
        return NoFrame;
      }
      ghost var s1 := S();
      SlotOrNothing(s1, root, vpn, slot);
      SameEntry(s, s1, root, vpn);
      if V(mem[slot.frame][slot.i]) {
        return Remap;
      }
      var w := Pa2Pte(pa) + WithV(perm);
      PteParts(f, WithV(perm));
      PteIs(pa, WithV(perm));
      HeldStays(s, s1, f, own);
      StillUnmapped(s, s1, root, vpn);
      StoreLeaf(slot, w, root, vpn, own);
      OneRun(s, s1, root, vpn, f, WithV(perm), own, owner);
      r := Mapped;
    }

    /**
     mappages: pages [va, va + size) onto frames from pa. It succeeds exactly if none of them is mapped
     and there are frames for all the table pages the range still lacks; it panics exactly if it gets as
     far as a page that is mapped. When frames run out the pages before the one that could not be
     mapped stay mapped, and no frame is free.
     */
    method Mappages(root: nat, va: nat, size: nat, pa: nat, perm: nat, ghost own: bool) returns (r: Mapping, ghost n: nat)
      requires Valid() && Key(root, 2, 0) in tabs && perm < 1024
      requires va % PGSIZE == 0 && size % PGSIZE == 0 && size > 0 && va + size <= MAXVA && pa % PGSIZE == 0
      requires RunHeld(owner, pa / PGSIZE, size / PGSIZE, own)
      modifies this
      ensures r == Mapped <==>
        && (forall v: nat :: va / PGSIZE <= v < (va + size) / PGSIZE ==> !V(Lookup(old(S()), root, v)))
        && Lacking(Needed(root, va / PGSIZE, size / PGSIZE), old(tabs).Keys) <= |old(free)|
      ensures r == Remap <==> exists k: nat ::
        && k < size / PGSIZE && RemapAt(old(S()), root, va / PGSIZE, k)
        && Lacking(Needed(root, va / PGSIZE, k), old(tabs).Keys) <= |old(free)|
      ensures r == NoFrame ==> n < size / PGSIZE && free == []
      ensures r == Mapped ==> n == size / PGSIZE
      ensures r == Mapped ==> Supplied(old(tabs), |old(free)|, tabs, |free|, root, va / PGSIZE, size / PGSIZE)
      ensures r != Remap ==> Valid() && MappedRun(old(S()), S(), root, va / PGSIZE, pa / PGSIZE, n, WithV(perm), own)
    {
      hide TreeBut, FreeList, Sv39.Lookup, MappedRun, RunHeld, Needed, Path, Missing, Lacking;
      ghost var s, vpn, f, total := S(), va / PGSIZE, pa / PGSIZE, size / PGSIZE;
      ghost var t0, f0 := tabs, |free|;
      var a, last, q := va, va + size - PGSIZE, pa;
      n := 0;
      SpentNothing(t0, f0, root, vpn);
      NoRun(s, root, vpn, f, WithV(perm), own);
      while true
        invariant Valid() && a == va + n * PGSIZE <= last && q == pa + n * PGSIZE
        invariant MappedRun(s, S(), root, vpn, f, n, WithV(perm), own)
        invariant Supplied(t0, f0, tabs, |free|, root, vpn, n)
        invariant forall v: nat :: vpn <= v < vpn + n ==> !V(Lookup(s, root, v))
        decreases last - a
      {
        ghost var t := S();
        SupplyNext(t0, f0, tabs, |free|, root, vpn, n);
        NextInRun(s, t, root, vpn, f, n, total, WithV(perm), own);
        r := MapLeaf(root, a, q, perm, own);
        if r == Remap {
          assert RemapAt(s, root, vpn, n);
          return;
        }
        RunOn(s, t, S(), root, vpn, f, n, if r == Mapped then 1 else 0, WithV(perm), own);
        if r == NoFrame {
          TooMany(t0.Keys, f0, s, root, vpn, n, total);
          return;
        }
        n := n + 1;
        if a == last {
          return;
        }
        a := a + PGSIZE;
        q := q + PGSIZE;
      }
    }

    /** Take the frame of a mapped page away from its mapping; with doFree it goes back to the allocator. */
    method TakeFrame(w: nat, doFree: bool, ghost root: nat, ghost vpn: nat)
      requires Valid() && V(w) && Lookup(S(), root, vpn) == w && HasLeafTable(S(), root, vpn)
      requires doFree ==> w / 1024 in owner && owner[w / 1024] == Leaf(root, vpn)
      modifies this
      ensures Valid() && Taken(old(S()), S(), root, vpn, if doFree then Free else Held)
      ensures !doFree ==> free == old(free)
    {
      hide TreeBut, FreeList, Sv39.Lookup, SameLookups, HasLeafTable, Taken;
      ghost var s, f := S(), w / 1024;
      if f in owner && owner[f] == Leaf(root, vpn) {
        LetGo(s, free, head, f);
        owner := owner[f := Held];
      }
      ghost var s1 := S();
      TakenBack(s, s1, root, vpn, f);
      if doFree {
        var pa := Pte2Pa(w);
        Kfree(pa, {});
        TakenFree(s, s1, S(), root, vpn, f, mem[f]);
      }
    }

    /** One page of uvmunmap. */
    method UnmapOne(root: nat, va: nat, doFree: bool)
      requires Valid() && Key(root, 2, 0) in tabs && va < MAXVA
      requires doFree ==> OwnedIfMapped(S(), root, va / PGSIZE)
      modifies this
      ensures Valid() && Cut(old(S()), S(), root, va / PGSIZE, va / PGSIZE + 1, if doFree then Free else Held)
      ensures !doFree ==> free == old(free)
    {
      hide TreeBut, FreeList, Sv39.Lookup, SameLookups, HasLeafTable, Taken, Cut, WithLeaf;
      ghost var s, vpn, to := S(), va / PGSIZE, if doFree then Free else Held;
      var slot := Walk(root, va, false);
      SlotOrNothing(s, root, vpn, slot);
      if slot.NoSlot? {
        CutUnmapped(s, root, vpn, to);
        return;
      }
      var w := mem[slot.frame][slot.i];
      if !V(w) {
        CutUnmapped(s, root, vpn, to);
        return;
      }
      TakeFrame(w, doFree, root, vpn);
      ghost var s2 := S();
      CutTaken(s, s2, root, vpn, to);
      LeafFree(s2, free, head, root, vpn, 0, owner);
      WithLeafIs(s2, root, vpn, slot);
      mem := mem[slot.frame := Put(mem[slot.frame], slot.i, 0)];
    }

    /** uvmunmap: exactly the mapped pages of the range go, holes are skipped. */
    method Uvmunmap(root: nat, va: nat, npages: nat, doFree: bool)
      requires Valid() && Key(root, 2, 0) in tabs && va % PGSIZE == 0 && va + npages * PGSIZE <= MAXVA
      requires doFree ==> forall v: nat :: va / PGSIZE <= v < va / PGSIZE + npages ==> OwnedIfMapped(S(), root, v)
      modifies this
      ensures Valid()
      ensures Cut(old(S()), S(), root, va / PGSIZE, va / PGSIZE + npages, if doFree then Free else Held)
      ensures !doFree ==> free == old(free)
    {
      hide TreeBut, FreeList, Cut, OwnedIfMapped;
      ghost var s, lo, to := S(), va / PGSIZE, if doFree then Free else Held;
      ghost var n := 0;
      var a := va;
      CutNothing(s, root, lo, to);
      while a < va + npages * PGSIZE
        invariant Valid() && n <= npages && a == va + n * PGSIZE && Cut(s, S(), root, lo, lo + n, to)
        invariant !doFree ==> free == old(free)
      {
        ghost var t := S();
        StillOwned(s, t, root, lo, n, to);
        UnmapOne(root, a, doFree);
        CutOn(s, t, S(), root, lo, lo + n, lo + n + 1, to);
        a := a + PGSIZE;
        n := n + 1;
      }
    }

    /** uvmdealloc: the pages between the two sizes go back to the allocator. */
    method Uvmdealloc(root: nat, oldsz: nat, newsz: nat) returns (sz: nat)
      requires Valid() && Key(root, 2, 0) in tabs && PageUp(oldsz) <= MAXVA
      requires forall v: nat :: PageUp(newsz) / PGSIZE <= v < PageUp(oldsz) / PGSIZE ==> OwnedIfMapped(S(), root, v)
      modifies this
      ensures Valid() && sz == if newsz < oldsz then newsz else oldsz
      ensures if PageUp(newsz) < PageUp(oldsz) then
                Cut(old(S()), S(), root, PageUp(newsz) / PGSIZE, PageUp(oldsz) / PGSIZE, Free)
              else S() == old(S())
    {
      hide TreeBut, FreeList, Cut, OwnedIfMapped;
      if newsz >= oldsz {
        PageUpMonotone(oldsz, newsz);
        return oldsz;
      }
      if PageUp(newsz) < PageUp(oldsz) {
        var npages := (PageUp(oldsz) - PageUp(newsz)) / PGSIZE;
        Uvmunmap(root, PageUp(newsz), npages, true);
      }
      sz := newsz;
    }

    /** The body shared by the loops of uvmalloc and uvmcopy: a new frame, its contents, its mapping. */
    method AddPage(root: nat, va: nat, page: seq<nat>, perm: nat) returns (ok: bool)
      requires Valid() && Key(root, 2, 0) in tabs && va % PGSIZE == 0 && va + PGSIZE <= MAXVA && perm < 1024 && |page| == 512
      requires !V(Lookup(S(), root, va / PGSIZE))
      modifies this
      ensures Valid()
      ensures Built(old(S()), S(), root, if ok then map[va / PGSIZE := Image(WithV(perm), page)] else map[])
      ensures ok <==> 1 + Missing(old(tabs), root, va / PGSIZE, 0) <= |old(free)|
      ensures ok ==> |free| + 1 + Missing(old(tabs), root, va / PGSIZE, 0) == |old(free)|
      ensures ok ==> tabs.Keys == old(tabs).Keys + Path(root, va / PGSIZE, 0)
    {
      hide TreeBut, FreeList, SameLookups, Sv39.Lookup, Built, MappedRun, WithV, RunHeld, Filled, Missing, Path, Needed, Lacking;
      ghost var s, vpn := S(), va / PGSIZE;
      OnePageNeeds(tabs, root, vpn);
      var pa := Kalloc();
      if pa == 0 {
        BuiltNothing(s, root);
        return false;
      }
      ghost var s1 := S();
      var f := pa / PGSIZE;
      Fill(f, page);
      ghost var s2 := S();
      PreparedBy(s, s1, s2, f, Filled(5), page);
      ReadyToMap(s, s2, root, vpn, f);
      ghost var n;
      var r;
      r, n := Mappages(root, va, PGSIZE, pa, perm, true);
      assert forall k: nat :: k < 1 ==> !RemapAt(s2, root, vpn, k);
      ok := r == Mapped;
      ghost var s3 := S();
      if ok {
        BuiltOne(s, s2, s3, root, vpn, f, WithV(perm), page);
      } else {
        NotMapped(s2, s3, root, vpn, f, WithV(perm));
        Kfree(pa, {});
        BuiltNone(s, s2, s3, S(), root, vpn, f, WithV(perm), page, mem[f]);
      }
    }

    /**
     uvmalloc: zeroed pages up to newsz, each on a frame of its own, or the flat map exactly as it was.
     It succeeds exactly if there are frames for the pages and for the tables they lack.
     */
    method Uvmalloc(root: nat, oldsz: nat, newsz: nat, xperm: nat) returns (r: nat, ghost ok: bool)
      requires Valid() && Key(root, 2, 0) in tabs && PageUp(newsz) <= MAXVA && xperm < 1024
      requires forall v: nat :: PageUp(oldsz) / PGSIZE <= v < PageUp(newsz) / PGSIZE ==> !V(Lookup(S(), root, v))
      modifies this
      ensures Valid() && (newsz < oldsz ==> ok && r == oldsz && S() == old(S()))
      ensures newsz >= oldsz ==> r == if ok then newsz else 0
      ensures var lo, n := PageUp(oldsz) / PGSIZE, PagesUp(oldsz, newsz);
        newsz >= oldsz ==> (ok <==> n + Lacking(Needed(root, lo, n), old(tabs).Keys) <= |old(free)|)
      ensures newsz >= oldsz && ok ==> Built(old(S()), S(), root,
        ZeroPages(PageUp(oldsz) / PGSIZE, PageUp(newsz) / PGSIZE, WithV(UserPerm(xperm))))
      ensures !ok ==> Built(old(S()), S(), root, map[]) && SameLookups(old(S()), S())
    {
      hide TreeBut, FreeList, SameLookups, Sv39.Lookup, Built, Cut, WithV, ZeroPages, UserPerm, OwnedIfMapped;
      hide Needed, Path, Missing, Lacking;
      if newsz < oldsz {
        return oldsz, true;
      }
      ghost var s, lo, flags := S(), PageUp(oldsz) / PGSIZE, WithV(UserPerm(xperm));
      ghost var t0, f0, total := tabs, |free|, PagesUp(oldsz, newsz);
      ghost var hi := lo;
      var first := PageUp(oldsz);
      var a := first;
      BuiltNothing(s, root);
      NoZeroPages(lo, flags);
      SpentNothing(t0, f0, root, lo);
      TotalIs(oldsz, newsz);
      while a < newsz
        invariant Valid() && lo <= hi && a == hi * PGSIZE && a <= PageUp(newsz)
        invariant Built(s, S(), root, ZeroPages(lo, hi, flags))
        invariant Spent(t0, f0, tabs, |free|, Needed(root, lo, hi - lo), hi - lo)
      {
        ghost var t := S();
        NextToBuild(s, t, root, lo, hi, flags);
        NeededNext(root, lo, hi - lo);
        SpendNext(t0, f0, tabs, |free|, Needed(root, lo, hi - lo), hi - lo, root, hi);
        var added := AddPage(root, a, Filled(0), UserPerm(xperm));
        if !added {
          NeededMore(root, lo, hi - lo + 1, total);
          LackingMore(Needed(root, lo, hi - lo + 1), Needed(root, lo, total), t0.Keys);
          FailedPage(s, t, S(), root, lo, hi, flags);
          ghost var u := S();
          var _ := Uvmdealloc(root, a, first);
          UndoneAll(s, u, S(), root, lo, hi, flags);
          return 0, false;
        }
        OneMore(s, t, S(), root, lo, hi, flags);
        a := a + PGSIZE;
        hi := hi + 1;
      }
      r, ok := newsz, true;
    }

    /**
     uvmcopy: every mapped page below sz gets a frame of its own in the child, with equal bytes and
     flags; on failure the child has no page below sz. It succeeds exactly if there are frames for the
     copies and for the tables they lack.
     */
    method Uvmcopy(parent: nat, child: nat, sz: nat) returns (ok: bool)
      requires Valid() && Key(parent, 2, 0) in tabs && Key(child, 2, 0) in tabs && parent != child && PageUp(sz) <= MAXVA
      requires forall v: nat :: v < PageUp(sz) / PGSIZE ==> OwnedIfMapped(S(), parent, v) && !V(Lookup(S(), child, v))
      modifies this
      ensures Valid()
      ensures var n := PageUp(sz) / PGSIZE;
        ok <==> MappedBelow(old(S()), parent, n) + Lacking(CopyNeeds(old(S()), parent, child, n), old(tabs).Keys) <= |old(free)|
      ensures ok ==> Built(old(S()), S(), child, CopyPages(old(S()), parent, PageUp(sz) / PGSIZE))
      ensures !ok ==> Built(old(S()), S(), child, map[]) && SameLookups(old(S()), S())
    {
      hide TreeBut, FreeList, SameLookups, Sv39.Lookup, Built, Cut, CopyPages, OwnedIfMapped, HasLeafTable, Missing;
      hide Lacking, Path;
      ghost var s := S();
      ghost var t0, f0, total := tabs, |free|, PageUp(sz) / PGSIZE;
      var i := 0;
      ghost var n := 0;
      BuiltNothing(s, child);
      SpentNone(t0, f0);
      while i < sz
        invariant Valid() && i == n * PGSIZE && i <= PageUp(sz)
        invariant Built(s, S(), child, CopyPages(s, parent, n))
        invariant Spent(t0, f0, tabs, |free|, CopyNeeds(s, parent, child, n), MappedBelow(s, parent, n))
      {
        ghost var t := S();
        NextToCopy(s, t, parent, child, n);
        SpendNext(t0, f0, tabs, |free|, CopyNeeds(s, parent, child, n), MappedBelow(s, parent, n), child, n);
        var slot := Walk(parent, i, false);
        SlotOrNothing(t, parent, n, slot);
        var copied := true;
        if slot.Slot? {
          var w := mem[slot.frame][slot.i];
          if V(w) {
            CopySource(s, t, parent, child, n);
            copied := AddPage(child, i, mem[w / 1024], w % 1024);
          }
        }
        if !copied {
          CopyMore(s, parent, child, n + 1, total);
          LackingMore(CopyNeeds(s, parent, child, n + 1), CopyNeeds(s, parent, child, total), t0.Keys);
          FailedCopy(s, t, S(), parent, child, n);
          ghost var u := S();
          Uvmunmap(child, 0, i / PGSIZE, true);
          UndoneCopy(s, u, S(), parent, child, n);
          return false;
        }
        CopiedOne(s, t, S(), parent, child, n);
        i := i + PGSIZE;
        n := n + 1;
      }
      ok := true;
    }

    /** One round of freewalk's loop: it panics exactly if a page is mapped through the entry. */
    method FreeEntry(p: nat, i: nat, ghost k: Key) returns (leaf: bool, ghost gone: set<Key>)
      requires Valid() && k in tabs && tabs[k] == p && k.level <= 2 && i < 512 && Usable(S(), k.root)
      modifies this
      ensures leaf <==> !EmptyEntry(old(S()), k, i)
      ensures !leaf ==> Valid() && Felled(old(S()), S(), gone)
      ensures !leaf ==> forall j :: j in gone <==> j in old(tabs) && k.level > 0 && Under(Child(k, i), j)
      decreases k.level, 0
    {
      hide TreeBut, FreeList, SameLookups, Sv39.Lookup, Felled, Word, Pte, Empty, EmptyEntry, Under, Usable, Pointer;
      ghost var s := S();
      WordIs(s, k, i, {});
      var pte := mem[p][i];
      gone := {};
      leaf := false;
      FelledNothing(s);
      if V(pte) {
        EntryOfTable(s, k, i, pte);
        if !Pointer(pte) {
          leaf := true;
          return;
        }
        EntryIsChild(s, k, i);
        leaf, gone := Freewalk(pte / 1024, Child(k, i));
        if leaf {
          return;
        }
        ghost var t := S();
        FelledStale(s, t, gone, k, i);
        Unlink(t, k, i);
        UnlinkedFree(t, free, head, k, i);
        mem := mem[p := Put(mem[p], i, 0)];
        FelledUnlinked(s, t, gone, k, i);
      } else {
        NoTableBelow(s, k, i);
        NoEntry(s, k, i);
      }
    }

    /**
     freewalk: every table page of the subtree goes back to the allocator once, and nothing else. It
     panics exactly if a page is still mapped through the subtree.
     */
    method Freewalk(p: nat, ghost k: Key) returns (leaf: bool, ghost gone: set<Key>)
      requires Valid() && k in tabs && tabs[k] == p && k.level <= 2 && Usable(S(), k.root)
      modifies this
      ensures leaf <==> !Empty(old(S()), k)
      ensures !leaf ==> ValidBut({k}) && Felled(old(S()), S(), gone)
      ensures !leaf ==> forall j :: j in gone <==> j in old(tabs) && Under(k, j)
      decreases k.level, 1
    {
      hide TreeBut, FreeList, SameLookups, Sv39.Lookup, Felled, Word, Empty, EmptyEntry, Under, Below, Filled, Usable;
      ghost var s := S();
      var i := 0;
      gone := {};
      leaf := false;
      FelledNothing(s);
      NothingBelowFirst(k);
      EmptyEntries(s, k);
      while i < 512
        invariant i <= 512 && Valid() && Felled(s, S(), gone)
        invariant forall j :: j in gone <==> j in s.tabs && Below(k, i, j)
        invariant forall j: nat :: j < i ==> EmptyEntry(s, k, j)
      {
        ghost var t := S();
        StillThere(s, t, gone, k, i);
        StillUsable(s, t, k.root);
        EmptyEntryStays(s, t, k, i);
        ghost var more;
        leaf, more := FreeEntry(p, i, k);
        if leaf {
          return;
        }
        FelledOn(s, t, S(), gone, more);
        BelowNextAll(k, i);
        gone := gone + more;
        i := i + 1;
      }
      ghost var t := S();
      StillThere(s, t, gone, k, 512);
      EmptyStays(s, t, k);
      BareNow(s, t, gone, k);
      Prune(t, k);
      PrunedFree(t, free, head, k);
      ghost var u := Pruned(t, k);
      owner := owner[p := Held];
      tabs := tabs - {k};
      assert S() == u;
      Kfree(p * PGSIZE, {k});
      FelledPruned(t, u, S(), k, mem[p]);
      FelledOn(s, t, S(), gone, {k});
      UnderOrSelfAll(k);
      gone := gone + {k};
    }

    /**
     uvmfree: the whole address space goes, pages and tables, and every frame of it is free again. It
     panics exactly if the pages up to sz reach past the last address or one is mapped at or past sz.
     */
    method Uvmfree(root: nat, sz: nat) returns (panicked: bool)
      requires Valid() && Key(root, 2, 0) in tabs && Usable(S(), root)
      requires forall v: nat :: v < PageUp(sz) / PGSIZE ==> OwnedIfMapped(S(), root, v)
      modifies this
      ensures panicked <==> PageUp(sz) > MAXVA || MappedFrom(old(S()), root, PageUp(sz) / PGSIZE)
      ensures !panicked ==> Valid() && Dismantled(old(S()), S(), root)
    {
      hide TreeBut, FreeList, SameLookups, Sv39.Lookup, Felled, Cut, Dismantled, OwnedIfMapped, Empty, Usable, MappedFrom;
      if PageUp(sz) > MAXVA {
        return true;
      }
      ghost var s, n := S(), PageUp(sz) / PGSIZE;
      CutNothing(s, root, 0, Free);
      if sz > 0 {
        Uvmunmap(root, 0, PageUp(sz) / PGSIZE, true);
      }
      ghost var t := S();
      NowEmpty(s, t, root, n);
      RootIs(t, root, 0);
      ghost var gone;
      panicked, gone := Freewalk(root, Key(root, 2, 0));
      if !panicked {
        NothingAboveRoot(S(), Key(root, 2, 0));
        RootsSubtree(t, root, gone);
        AllGone(s, t, S(), root, n, gone);
      }
    }

    /** uvmcreate: an empty address space. */
    method Uvmcreate() returns (root: nat)
      requires Valid()
      modifies this
      ensures Valid() && SameLookups(old(S()), S()) && (root == 0 <==> old(free) == [])
      ensures root == 0 ==> S() == old(S())
      ensures root != 0 ==> Key(root, 2, 0) in tabs && root in old(owner) && old(owner)[root] == Free
      ensures root != 0 ==> owner == old(owner)[root := Table(Key(root, 2, 0))]
      ensures root != 0 ==> forall vpn: nat :: Lookup(S(), root, vpn) == 0
    {
      hide TreeBut, FreeList, SameLookups, Sv39.Lookup, Filled;
      ghost var s := S();
      var pa := Kalloc();
      root := pa / PGSIZE;
      if pa != 0 {
        FreeFrame(s, old(free), old(head));
        ghost var s1 := S();
        ZeroedPage();
        Fill(root, Filled(0));
        ghost var s2 := S();
        Plant(s2, root);
        PlantedFree(s2, free, head, root);
        SameTwice(s, s1, s2);
        owner := owner[root := Table(Key(root, 2, 0))];
        tabs := tabs[Key(root, 2, 0) := root];
        SameTwice(s, s2, S());
        EmptyRoot(s2, S(), root);
      }
    }

    /** The end of an eviction: unmap the victim, free its frame, allocate. The same frame comes back. */
    method Evict(root: nat, va: nat) returns (pa: nat)
      requires Valid() && Key(root, 2, 0) in tabs && va < MAXVA
      requires V(Lookup(S(), root, va / PGSIZE)) && OwnedIfMapped(S(), root, va / PGSIZE)
      modifies this
      ensures Valid() && pa == Pte2Pa(Lookup(old(S()), root, va / PGSIZE)) && pa != 0 && free == old(free)
      ensures Cut(old(S()), S(), root, va / PGSIZE, va / PGSIZE + 1, Held)
    {
      hide TreeBut, FreeList, SameLookups, Sv39.Lookup, Cut, OwnedIfMapped, HasLeafTable, Filled, Put;
      ghost var s, vpn := S(), va / PGSIZE;
      var slot := Walk(root, va, false);
      SlotOrNothing(s, root, vpn, slot);
      var frame := Pte2Pa(mem[slot.frame][slot.i]);
      UnmapOne(root, va, false);
      ghost var t := S();
      VictimHeld(s, t, root, vpn);
      ghost var rest := free;
      Kfree(frame, {});
      ghost var t1 := S();
      pa := Kalloc();
      assert ([frame / PGSIZE] + rest)[1..] == rest;
      Recycled(s, t, t1, S(), root, vpn, frame / PGSIZE, t1.mem[frame / PGSIZE], mem[frame / PGSIZE]);
    }
  }
}
