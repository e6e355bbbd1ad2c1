/**
 A process's memory: the leaf entries of its page table, the frames its table pages take, the free
 list and the contents of frames. Every frame has one owner at all times.
 */
module UserMemory {
  import opened Common
  import opened Permissions
  import Loader

  /** A valid leaf entry: its frame and access bits. */
  datatype Leaf = Leaf(frame: nat, flags: Flags)

  /** A table page: its level, and the address bits above those it translates. */
  datatype TKey = TKey(level: nat, prefix: nat)

  const ROOT: TKey := TKey(2, 0)

  /** The two tables below the root on the way to address a. */
  function Middle(a: nat): TKey { TKey(1, a / 0x4000_0000) }
  function Last(a: nat): TKey { TKey(0, a / 0x20_0000) }
  function Path(a: nat): set<TKey> { {Middle(a), Last(a)} }

  /** Held frames are in the hands of the running call; Kernel ones hold a trap frame. */
  datatype Owner = Free | Held | Kernel | Page(a: nat) | Tab(k: TKey)

  datatype Mem = Mem(
    pages: map<nat, Leaf>,        // leaf entries, by page address
    tables: map<TKey, nat>,       // the frame of each table page
    free: set<nat>,               // the free list
    bytes: map<nat, seq<byte>>,   // contents of frames
    owner: map<nat, Owner>)

  predicate Placed(m: Mem, f: nat, o: Owner)
  {
    && (f in m.free <==> o == Free)
    && (o.Page? ==> o.a in m.pages && m.pages[o.a].frame == f)
    && (o.Tab? ==> o.k in m.tables && m.tables[o.k] == f)
  }

  /** Every frame is where its owner says, and nowhere else. */
  ghost predicate Owned(m: Mem)
  {
    && m.free <= m.owner.Keys
    && (forall f :: f in m.owner ==> Placed(m, f, m.owner[f]))
    && (forall a :: a in m.pages ==> m.pages[a].frame in m.owner && m.owner[m.pages[a].frame] == Page(a))
    && (forall k :: k in m.tables ==> m.tables[k] in m.owner && m.owner[m.tables[k]] == Tab(k))
  }

  ghost predicate Whole(m: Mem)
  {
    m.bytes.Keys == m.owner.Keys && forall f :: f in m.bytes ==> |m.bytes[f]| == PGSIZE
  }

  /** A table is reached through the one above it, a page through both. */
  ghost predicate Reached(m: Mem)
  {
    && (forall k :: k in m.tables && k.level == 0 ==> TKey(1, k.prefix / 512) in m.tables)
    && (forall a :: a in m.pages ==> a % PGSIZE == 0 && Path(a) <= m.tables.Keys)
  }

  ghost predicate Ok(m: Mem)
  {
    Owned(m) && Whole(m) && Reached(m)
  }

  /** The contents of a mapped page. */
  function ContentsOf(m: Mem, a: nat): seq<byte>
    requires a in m.pages && m.pages[a].frame in m.bytes
  {
    m.bytes[m.pages[a].frame]
  }

  predicate SamePage(m: Mem, t: Mem, b: nat)
  {
    && (b in t.pages <==> b in m.pages)
    && (b in m.pages ==>
      && t.pages[b] == m.pages[b] && m.pages[b].frame in m.bytes && m.pages[b].frame in t.bytes
      && t.bytes[m.pages[b].frame] == m.bytes[m.pages[b].frame])
  }

  predicate SameHeld(m: Mem, t: Mem, f: nat)
  {
    f in m.owner && m.owner[f] == Held ==>
      f in t.owner && t.owner[f] == Held && f in m.bytes && f in t.bytes && t.bytes[f] == m.bytes[f]
  }

  predicate SameKernel(m: Mem, t: Mem, f: nat)
  {
    f in m.owner && m.owner[f] == Kernel <==> f in t.owner && t.owner[f] == Kernel
  }

  /**
   No frame came or went, every page outside x is mapped as before with the same contents, and so is
   every held frame but h; tables may have been added.
   */
  ghost predicate Kept(m: Mem, t: Mem, x: set<nat>, h: int)
  {
    && t.owner.Keys == m.owner.Keys
    && m.tables.Keys <= t.tables.Keys
    && (forall b :: b !in x ==> SamePage(m, t, b))
    && (forall f :: f != h ==> SameHeld(m, t, f))
    && (forall f :: SameKernel(m, t, f))
  }

  lemma KeptSelf(m: Mem)
    requires Ok(m)
    ensures Kept(m, m, {}, -1)
  {
  }

  lemma KeptOn(m: Mem, t: Mem, u: Mem, x: set<nat>, y: set<nat>, h: int)
    requires Kept(m, t, x, -1) && Kept(t, u, y, h) && (h in m.owner ==> m.owner[h] != Held)
    ensures Kept(m, u, x + y, -1)
  {
    forall b | b !in x + y ensures SamePage(m, u, b) {
      assert SamePage(m, t, b) && SamePage(t, u, b);
    }
    forall f | f != -1 ensures SameHeld(m, u, f) {
      assert SameHeld(m, t, f);
      assert f != h ==> SameHeld(t, u, f);
    }
    forall f ensures SameKernel(m, u, f) {
      assert SameKernel(m, t, f) && SameKernel(t, u, f);
    }
  }

  // ---- the steps ----

  /** Frame f goes from the free list to the kernel's hands, back, or gets new contents there. */
  ghost function Reowned(m: Mem, f: nat, o: Owner, c: seq<byte>): Mem
  {
    m.(free := if o == Free then m.free + {f} else m.free - {f}, bytes := m.bytes[f := c], owner := m.owner[f := o])
  }

  lemma ReownOk(m: Mem, f: nat, o: Owner, c: seq<byte>)
    requires Ok(m) && f in m.owner && (m.owner[f] == Free || m.owner[f] == Held) && (o == Free || o == Held)
    requires |c| == PGSIZE
    ensures Ok(Reowned(m, f, o, c)) && Kept(m, Reowned(m, f, o, c), {}, if m.owner[f] == Held then f else -1)
  {
    ReownOwned(m, f, o, c);
    ReownReached(m, f, o, c);
    ReownKept(m, f, o, c);
    hide Owned, Whole, Reached, Kept, Reowned;
  }

  lemma ReownOwned(m: Mem, f: nat, o: Owner, c: seq<byte>)
    requires Owned(m) && f in m.owner && (m.owner[f] == Free || m.owner[f] == Held) && (o == Free || o == Held)
    ensures Owned(Reowned(m, f, o, c))
  {
    var t := Reowned(m, f, o, c);
    forall g | g in t.owner ensures Placed(t, g, t.owner[g]) {
      assert Placed(m, g, m.owner[g]);
    }
  }

  lemma ReownReached(m: Mem, f: nat, o: Owner, c: seq<byte>)
    requires Ok(m) && f in m.owner && (m.owner[f] == Free || m.owner[f] == Held) && (o == Free || o == Held) && |c| == PGSIZE
    ensures Whole(Reowned(m, f, o, c)) && Reached(Reowned(m, f, o, c))
  {
    hide Path;
  }

  lemma ReownKept(m: Mem, f: nat, o: Owner, c: seq<byte>)
    requires Ok(m) && f in m.owner && (m.owner[f] == Free || m.owner[f] == Held) && (o == Free || o == Held)
    ensures Kept(m, Reowned(m, f, o, c), {}, if m.owner[f] == Held then f else -1)
  {
    hide Reached, Placed;
    var t := Reowned(m, f, o, c);
    forall b | b !in {} ensures SamePage(m, t, b) {
      assert b in m.pages ==> m.owner[m.pages[b].frame] == Page(b) && m.pages[b].frame in m.bytes;
    }
  }

  /** Frame f, in hand, becomes table k. */
  ghost function Linked(m: Mem, k: TKey, f: nat): Mem
  {
    m.(tables := m.tables[k := f], owner := m.owner[f := Tab(k)])
  }

  lemma LinkOk(m: Mem, k: TKey, f: nat)
    requires Ok(m) && f in m.owner && m.owner[f] == Held && k !in m.tables
    requires k.level == 0 ==> TKey(1, k.prefix / 512) in m.tables
    ensures Ok(Linked(m, k, f)) && Kept(m, Linked(m, k, f), {}, f)
  {
    LinkOwned(m, k, f);
    LinkReached(m, k, f);
    LinkKept(m, k, f);
    hide Owned, Whole, Reached, Kept, Linked;
  }

  lemma LinkOwned(m: Mem, k: TKey, f: nat)
    requires Owned(m) && f in m.owner && m.owner[f] == Held && k !in m.tables
    ensures Owned(Linked(m, k, f))
  {
    var t := Linked(m, k, f);
    forall g | g in t.owner ensures Placed(t, g, t.owner[g]) {
      assert Placed(m, g, m.owner[g]);
    }
  }

  lemma LinkReached(m: Mem, k: TKey, f: nat)
    requires Ok(m) && f in m.owner && m.owner[f] == Held && k !in m.tables
    requires k.level == 0 ==> TKey(1, k.prefix / 512) in m.tables
    ensures Whole(Linked(m, k, f)) && Reached(Linked(m, k, f))
  {
    hide Path;
  }

  lemma LinkKept(m: Mem, k: TKey, f: nat)
    requires Ok(m) && f in m.owner && m.owner[f] == Held && k !in m.tables
    ensures Kept(m, Linked(m, k, f), {}, f)
  {
    hide Reached, Placed;
    var t := Linked(m, k, f);
    forall b | b !in {} ensures SamePage(m, t, b) {
      assert b in m.pages ==> m.owner[m.pages[b].frame] == Page(b) && m.pages[b].frame in m.bytes;
    }
  }

  /** Frame f, in hand, is mapped at a. */
  ghost function Mapping(m: Mem, a: nat, f: nat, flags: Flags): Mem
  {
    m.(pages := m.pages[a := Leaf(f, flags)], owner := m.owner[f := Page(a)])
  }

  lemma MapOk(m: Mem, a: nat, f: nat, flags: Flags)
    requires Ok(m) && f in m.owner && m.owner[f] == Held && a !in m.pages && a % PGSIZE == 0 && Path(a) <= m.tables.Keys
    ensures Ok(Mapping(m, a, f, flags)) && Kept(m, Mapping(m, a, f, flags), {a}, f)
  {
    MapOwned(m, a, f, flags);
    MapReached(m, a, f, flags);
    MapKept(m, a, f, flags);
    hide Owned, Whole, Reached, Kept, Mapping;
  }

  lemma MapOwned(m: Mem, a: nat, f: nat, flags: Flags)
    requires Owned(m) && f in m.owner && m.owner[f] == Held && a !in m.pages
    ensures Owned(Mapping(m, a, f, flags))
  {
    var t := Mapping(m, a, f, flags);
    forall g | g in t.owner ensures Placed(t, g, t.owner[g]) {
      assert Placed(m, g, m.owner[g]);
    }
  }

  lemma MapReached(m: Mem, a: nat, f: nat, flags: Flags)
    requires Ok(m) && f in m.owner && m.owner[f] == Held && a !in m.pages && a % PGSIZE == 0 && Path(a) <= m.tables.Keys
    ensures Whole(Mapping(m, a, f, flags)) && Reached(Mapping(m, a, f, flags))
  {
    hide Path;
  }

  lemma MapKept(m: Mem, a: nat, f: nat, flags: Flags)
    requires Ok(m) && f in m.owner && m.owner[f] == Held && a !in m.pages
    ensures Kept(m, Mapping(m, a, f, flags), {a}, f)
  {
    hide Reached, Placed;
    var t := Mapping(m, a, f, flags);
    forall b | b !in {a} ensures SamePage(m, t, b) {
      assert b in m.pages ==> m.owner[m.pages[b].frame] == Page(b) && m.pages[b].frame in m.bytes;
    }
  }

  /** Page a is unmapped; its frame is in hand. */
  ghost function Unmapping(m: Mem, a: nat): Mem
    requires a in m.pages
  {
    m.(pages := m.pages - {a}, owner := m.owner[m.pages[a].frame := Held])
  }

  lemma UnmapOk(m: Mem, a: nat)
    requires Ok(m) && a in m.pages
    ensures Ok(Unmapping(m, a)) && Kept(m, Unmapping(m, a), {a}, -1)
  {
    UnmapOwned(m, a);
    UnmapReached(m, a);
    UnmapKept(m, a);
    hide Owned, Whole, Reached, Kept, Unmapping;
  }

  lemma UnmapOwned(m: Mem, a: nat)
    requires Owned(m) && a in m.pages
    ensures Owned(Unmapping(m, a))
  {
    var t := Unmapping(m, a);
    forall g | g in t.owner ensures Placed(t, g, t.owner[g]) {
      assert Placed(m, g, m.owner[g]);
    }
  }

  lemma UnmapReached(m: Mem, a: nat)
    requires Ok(m) && a in m.pages
    ensures Whole(Unmapping(m, a)) && Reached(Unmapping(m, a))
  {
    hide Path;
  }

  lemma UnmapKept(m: Mem, a: nat)
    requires Ok(m) && a in m.pages
    ensures Kept(m, Unmapping(m, a), {a}, -1)
  {
    hide Reached, Placed;
    var t := Unmapping(m, a);
    forall b | b !in {a} ensures SamePage(m, t, b) {
      assert b in m.pages ==> m.owner[m.pages[b].frame] == Page(b) && m.pages[b].frame in m.bytes;
    }
  }

  ghost function Retagged(m: Mem, a: nat, flags: Flags): Mem
    requires a in m.pages
  {
    m.(pages := m.pages[a := Leaf(m.pages[a].frame, flags)])
  }

  lemma RetagOk(m: Mem, a: nat, flags: Flags)
    requires Ok(m) && a in m.pages
    ensures Ok(Retagged(m, a, flags)) && Kept(m, Retagged(m, a, flags), {a}, -1)
  {
    RetagOwned(m, a, flags);
    RetagReached(m, a, flags);
    RetagKept(m, a, flags);
    hide Owned, Whole, Reached, Kept, Retagged;
  }

  lemma RetagOwned(m: Mem, a: nat, flags: Flags)
    requires Owned(m) && a in m.pages
    ensures Owned(Retagged(m, a, flags))
  {
    var t := Retagged(m, a, flags);
    forall g | g in t.owner ensures Placed(t, g, t.owner[g]) {
      assert Placed(m, g, m.owner[g]);
    }
  }

  lemma RetagReached(m: Mem, a: nat, flags: Flags)
    requires Ok(m) && a in m.pages
    ensures Whole(Retagged(m, a, flags)) && Reached(Retagged(m, a, flags))
  {
    hide Path;
  }

  lemma RetagKept(m: Mem, a: nat, flags: Flags)
    requires Ok(m) && a in m.pages
    ensures Kept(m, Retagged(m, a, flags), {a}, -1)
  {
    hide Reached, Placed;
    var t := Retagged(m, a, flags);
    forall b | b !in {a} ensures SamePage(m, t, b) {
      assert b in m.pages ==> m.owner[m.pages[b].frame] == Page(b) && m.pages[b].frame in m.bytes;
    }
  }

  lemma WriteOk(m: Mem, a: nat, content: seq<byte>)
    requires Ok(m) && a in m.pages && |content| == PGSIZE
    ensures Ok(m.(bytes := m.bytes[m.pages[a].frame := content]))
    ensures Kept(m, m.(bytes := m.bytes[m.pages[a].frame := content]), {a}, -1)
  {
    OwnedAlone(m, m.bytes[m.pages[a].frame := content]);
    WriteKept(m, a, content);
    assert m.owner[m.pages[a].frame] == Page(a);
    hide Owned, Reached, Kept;
  }

  lemma WriteKept(m: Mem, a: nat, content: seq<byte>)
    requires Ok(m) && a in m.pages
    ensures Kept(m, m.(bytes := m.bytes[m.pages[a].frame := content]), {a}, -1)
  {
    hide Reached, Placed;
    var t := m.(bytes := m.bytes[m.pages[a].frame := content]);
    forall b | b != a ensures SamePage(m, t, b) {
      assert b in m.pages ==> m.owner[m.pages[b].frame] == Page(b);
      assert m.owner[m.pages[a].frame] == Page(a);
    }
  }

  // ---- what mapping costs ----

  /** Table frames still lacking on the way to a. */
  function Missing(tables: map<TKey, nat>, a: nat): (n: nat)
  {
    (if Middle(a) in tables then 0 else 1) + (if Last(a) in tables then 0 else 1)
  }

  /** How many of the tables needed are not there. */
  ghost function Lacking(needed: set<TKey>, there: set<TKey>): nat
  {
    |needed - there|
  }

  lemma MissingIs(tables: map<TKey, nat>, a: nat)
    ensures Missing(tables, a) == Lacking(Path(a), tables.Keys)
  {
    assert Middle(a) != Last(a);
    hide Middle, Last;
    TwoLess(Middle(a), Last(a), tables.Keys);
  }

  lemma TwoLess(a: TKey, b: TKey, k: set<TKey>)
    requires a != b
    ensures |{a, b} - k| == (if a in k then 0 else 1) + (if b in k then 0 else 1)
  {
    if a in k {
      assert {a, b} - k == if b in k then {} else {b};
    } else {
      assert {a, b} - k == if b in k then {a} else {a, b};
    }
  }

  /** Frames in the kernel's hands. */
  ghost function HeldOf(m: Mem): set<nat>
  {
    set f | f in m.owner && m.owner[f] == Held
  }

  lemma FrameOf(m: Mem, a: nat)
    requires Ok(m) && a in m.pages
    ensures m.pages[a].frame in m.owner && m.owner[m.pages[a].frame] == Page(a) && a % PGSIZE == 0
    ensures m.pages[a].frame in m.bytes && |m.bytes[m.pages[a].frame]| == PGSIZE
  {
  }

  lemma FreeFrame(m: Mem, f: nat)
    requires Ok(m)
    ensures f in m.free <==> f in m.owner && m.owner[f] == Free
    ensures f in m.owner <==> f in m.bytes
    ensures f in m.bytes ==> |m.bytes[f]| == PGSIZE
  {
    assert f in m.owner ==> Placed(m, f, m.owner[f]);
  }

  // ---- whole page tables ----

  function TableFrames(pages: map<nat, Leaf>, tables: map<TKey, nat>): set<nat>
  {
    (set a | a in pages :: pages[a].frame) + (set k | k in tables :: tables[k])
  }

  ghost function Detached(m: Mem): Mem
  {
    m.(pages := map[], tables := map[],
       owner := map f | f in m.owner :: if m.owner[f].Page? || m.owner[f].Tab? then Held else m.owner[f])
  }

  lemma DetachOk(m: Mem)
    requires Ok(m)
    ensures Ok(Detached(m)) && HeldOf(Detached(m)) == HeldOf(m) + TableFrames(m.pages, m.tables)
  {
    var t := Detached(m);
    forall f | f in m.owner ensures Placed(t, f, t.owner[f]) {
      assert Placed(m, f, m.owner[f]);
    }
    forall f ensures f in HeldOf(t) <==> f in HeldOf(m) + TableFrames(m.pages, m.tables) {
      assert f in m.owner ==> Placed(m, f, m.owner[f]);
    }
  }

  /** The same frames, and those in hand are still in hand with the same contents. */
  ghost predicate SameFrames(m: Mem, t: Mem)
  {
    && t.owner.Keys == m.owner.Keys && HeldOf(t) == HeldOf(m)
    && (forall f :: SameHeld(m, t, f)) && (forall f :: SameKernel(m, t, f))
  }

  lemma FramesOn(m: Mem, t: Mem, u: Mem)
    requires SameFrames(m, t) && SameFrames(t, u)
    ensures SameFrames(m, u)
  {
    forall f ensures SameHeld(m, u, f) && SameKernel(m, u, f) {
      assert SameHeld(m, t, f) && SameHeld(t, u, f) && SameKernel(m, t, f) && SameKernel(t, u, f);
    }
  }

  lemma KeptIsFrames(m: Mem, t: Mem, x: set<nat>)
    requires Kept(m, t, x, -1) && HeldOf(t) == HeldOf(m)
    ensures SameFrames(m, t)
  {
    forall f ensures SameHeld(m, t, f) {
      assert f != -1;
    }
  }

  /** Without a page table, every frame is free, in hand or the kernel's. */
  lemma RestIsFree(m: Mem, f: nat)
    requires Ok(m) && m.pages == map[] && m.tables == map[]
    ensures f in m.free <==> f in m.owner && f !in HeldOf(m) && m.owner[f] != Kernel
  {
    assert f in m.owner ==> Placed(m, f, m.owner[f]);
  }

  lemma AttachOk(m0: Mem, t: Mem)
    requires Ok(m0) && HeldOf(m0) == {} && Ok(t) && t.pages == map[] && t.tables == map[] && SameFrames(Detached(m0), t)
    ensures Ok(m0.(bytes := t.bytes)) && t.free == m0.free && Kept(m0, m0.(bytes := t.bytes), {}, -1)
  {
    hide Owned, Whole, Reached, Kept, SameFrames, Detached;
    AttachFree(m0, t);
    AttachKept(m0, t);
    NewBytes(m0, t);
  }

  lemma NewBytes(m0: Mem, t: Mem)
    requires Ok(m0) && Ok(t) && SameFrames(Detached(m0), t)
    ensures Ok(m0.(bytes := t.bytes))
  {
    hide Reached, Owned;
    assert t.owner.Keys == m0.owner.Keys;
    OwnedAlone(m0, t.bytes);
  }

  lemma OwnedAlone(m: Mem, bytes: map<nat, seq<byte>>)
    requires Owned(m) && Reached(m)
    ensures Owned(m.(bytes := bytes)) && Reached(m.(bytes := bytes))
  {
    var t := m.(bytes := bytes);
    forall f | f in t.owner ensures Placed(t, f, t.owner[f]) {
      assert Placed(m, f, m.owner[f]);
    }
  }

  lemma AttachFree(m0: Mem, t: Mem)
    requires Ok(m0) && HeldOf(m0) == {} && Ok(t) && t.pages == map[] && t.tables == map[] && SameFrames(Detached(m0), t)
    ensures t.free == m0.free
  {
    DetachOk(m0);
    forall f ensures f in t.free <==> f in m0.free {
      RestIsFree(t, f);
      RestIsFree(Detached(m0), f);
      assert SameKernel(Detached(m0), t, f);
    }
    hide Ok;
  }

  lemma AttachKept(m0: Mem, t: Mem)
    requires Ok(m0) && HeldOf(m0) == {} && SameFrames(Detached(m0), t)
    ensures Kept(m0, m0.(bytes := t.bytes), {}, -1)
  {
    hide Placed, Reached;
    var u := m0.(bytes := t.bytes);
    forall b ensures SamePage(m0, u, b) {
      if b in m0.pages {
        assert m0.owner[m0.pages[b].frame] == Page(b);
        assert SameHeld(Detached(m0), t, m0.pages[b].frame);
      }
    }
    forall f: nat ensures SameHeld(m0, u, f) {
      assert f in m0.owner && m0.owner[f] == Held ==> f in HeldOf(m0);
    }
  }

  ghost function Discarded(m: Mem, fs: set<nat>, junk: seq<byte>): Mem
  {
    m.(free := m.free + fs, bytes := map f | f in m.bytes :: if f in fs then junk else m.bytes[f],
       owner := map f | f in m.owner :: if f in fs then Free else m.owner[f])
  }

  lemma DiscardOk(m: Mem, fs: set<nat>, junk: seq<byte>)
    requires Ok(m) && fs <= HeldOf(m) && |junk| == PGSIZE
    ensures var t := Discarded(m, fs, junk);
      && Ok(t) && HeldOf(t) == HeldOf(m) - fs && t.owner.Keys == m.owner.Keys
      && (forall b :: SamePage(m, t, b)) && (forall f :: f !in fs ==> SameHeld(m, t, f)) && (forall f :: SameKernel(m, t, f))
  {
    DiscardOwned(m, fs, junk);
    hide Placed, Reached;
    var t := Discarded(m, fs, junk);
    forall b ensures SamePage(m, t, b) {
      if b in m.pages {
        assert m.owner[m.pages[b].frame] == Page(b);
      }
    }
    DiscardReached(m, fs, junk);
  }

  lemma DiscardReached(m: Mem, fs: set<nat>, junk: seq<byte>)
    requires Reached(m)
    ensures Reached(Discarded(m, fs, junk))
  {
  }

  lemma DiscardOwned(m: Mem, fs: set<nat>, junk: seq<byte>)
    requires Owned(m) && fs <= HeldOf(m)
    ensures Owned(Discarded(m, fs, junk))
  {
    var t := Discarded(m, fs, junk);
    forall f | f in t.owner ensures Placed(t, f, t.owner[f]) {
      assert Placed(m, f, m.owner[f]);
    }
    forall a | a in m.pages ensures m.pages[a].frame !in fs {
    }
    forall k | k in m.tables ensures m.tables[k] !in fs {
    }
  }

  /** What is left of the page map once the pages below end are gone. */
  lemma CutOff(m: Mem, end: nat)
    requires Ok(m)
    ensures m.pages - Range(0, end) != map[] <==> exists a :: a in m.pages && a >= end
  {
    if a :| a in m.pages && a >= end {
      assert a in m.pages - Range(0, end);
    } else {
      forall a | a in m.pages ensures a in Range(0, end) {
        FrameOf(m, a);
      }
    }
  }

  lemma ClaimOk(m: Mem, f: nat, o: Owner)
    requires Ok(m) && f in m.owner && (m.owner[f] == Held || m.owner[f] == Kernel) && (o == Held || o == Kernel)
    ensures Ok(m.(owner := m.owner[f := o]))
  {
    hide Owned;
    ClaimOwned(m, f, o);
  }

  lemma ClaimOwned(m: Mem, f: nat, o: Owner)
    requires Owned(m) && f in m.owner && (m.owner[f] == Held || m.owner[f] == Kernel) && (o == Held || o == Kernel)
    ensures Owned(m.(owner := m.owner[f := o]))
  {
    var t := m.(owner := m.owner[f := o]);
    forall g | g in t.owner ensures Placed(t, g, t.owner[g]) {
      assert Placed(m, g, m.owner[g]);
    }
  }

  lemma ClaimKept(m: Mem, t: Mem, u: Mem, f: nat)
    requires t == m.(owner := m.owner[f := Held]) && Kept(t, u, {}, f)
    ensures forall b :: b in m.pages ==> SamePage(m, u, b)
  {
    forall b | b in m.pages ensures SamePage(m, u, b) {
      assert SamePage(t, u, b);
    }
  }

  lemma NotHeld(m: Mem)
    requires Ok(m)
    ensures TableFrames(m.pages, m.tables) !! HeldOf(m)
  {
    forall f | f in TableFrames(m.pages, m.tables) ensures f !in HeldOf(m) {
      if a :| a in m.pages && m.pages[a].frame == f {
        assert m.owner[f] == Page(a);
      } else {
        var k :| k in m.tables && m.tables[k] == f;
        assert m.owner[f] == Tab(k);
      }
    }
  }

  lemma AsideFrames(m: Mem, u: Mem)
    requires Ok(m) && u.owner.Keys == m.owner.Keys
    requires HeldOf(u) == HeldOf(Detached(m)) - TableFrames(m.pages, m.tables)
    requires forall f :: f !in TableFrames(m.pages, m.tables) ==> SameHeld(Detached(m), u, f)
    requires forall f :: SameKernel(Detached(m), u, f)
    ensures SameFrames(m, u)
  {
    DetachOk(m);
    NotHeld(m);
    hide Ok;
    forall f: nat ensures SameHeld(m, u, f) {
      if f in m.owner && m.owner[f] == Held {
        assert f in HeldOf(m);
        assert SameHeld(Detached(m), u, f);
      }
    }
    forall f: nat ensures SameKernel(m, u, f) {
      assert SameKernel(Detached(m), u, f);
    }
  }

  lemma TopPath(tables: map<TKey, nat>)
    requires tables.Keys == {ROOT}
    ensures Missing(tables, TRAMPOLINE) == 2
  {
  }

  // ---- ranges of pages ----

  /** The pages [lo, hi). */
  ghost function Range(lo: nat, hi: nat): set<nat>
  {
    set a: nat | lo <= a < hi && a % PGSIZE == 0
  }

  lemma RangeNext(lo: nat, a: nat, hi: nat)
    requires lo <= a < hi && a % PGSIZE == 0
    ensures Range(lo, a + PGSIZE) == Range(lo, a) + {a}
    ensures hi <= a + PGSIZE ==> Range(lo, a + PGSIZE) == Range(lo, hi)
  {
  }

  lemma NotInRange(lo: nat, a: nat)
    ensures a !in Range(lo, a)
  {
  }

  /** The frames of the pages among x. */
  ghost function FramesOf(pages: map<nat, Leaf>, x: set<nat>): set<nat>
  {
    set a | a in pages && a in x :: pages[a].frame
  }

  lemma FramesOfNone(pages: map<nat, Leaf>)
    ensures FramesOf(pages, {}) == {}
  {
  }

  lemma FramesOfMore(pages: map<nat, Leaf>, x: set<nat>, a: nat)
    ensures FramesOf(pages, x + {a}) == FramesOf(pages, x) + if a in pages then {pages[a].frame} else {}
  {
    var more := FramesOf(pages, x + {a});
    forall f | f in FramesOf(pages, x) ensures f in more {
      var b :| b in pages && b in x && f == pages[b].frame;
      assert b in x + {a};
    }
    if a in pages {
      assert a in x + {a};
    }
  }

  lemma RangeEnds(lo: nat, a: nat, hi: nat)
    requires lo % PGSIZE == 0 && a % PGSIZE == 0
    ensures Range(lo, lo) == {} && (hi <= lo ==> Range(lo, hi) == {})
  {
  }

  /** How many pages [lo, hi) has. */
  function PagesIn(lo: nat, hi: nat): nat
  {
    if hi <= lo then 0 else (hi - lo + PGSIZE - 1) / PGSIZE
  }

  /** The tables below the root that n pages from lo on need. */
  ghost function Paths(lo: nat, n: nat): set<TKey>
  {
    set i: nat, level: nat | i < n && level < 2 :: PathOf(lo, i, level)
  }

  function PathOf(lo: nat, i: nat, level: nat): TKey
  {
    PathAt(lo + i * PGSIZE, level)
  }

  function PathAt(a: nat, level: nat): TKey
  {
    if level == 0 then Last(a) else Middle(a)
  }

  /** Frames that n new pages from lo on take, with the tables they lack. */
  ghost function Cost(tables: map<TKey, nat>, lo: nat, n: nat): nat
  {
    n + Lacking(Paths(lo, n), tables.Keys)
  }

  lemma PathsNext(lo: nat, n: nat)
    ensures Paths(lo, 0) == {} && Paths(lo, n + 1) == Paths(lo, n) + Path(lo + n * PGSIZE)
  {
    hide Last, Middle;
    var a, b := lo + n * PGSIZE, Paths(lo, n + 1);
    forall k | k in Path(a) ensures k in b {
      assert k == PathOf(lo, n, 0) || k == PathOf(lo, n, 1);
    }
    forall k | k in b ensures k in Paths(lo, n) + Path(a) {
      var i: nat, level: nat :| i < n + 1 && level < 2 && k == PathOf(lo, i, level);
      assert i < n ==> k in Paths(lo, n);
    }
  }

  lemma PathsMore(lo: nat, n: nat, l: nat)
    requires n <= l
    ensures Paths(lo, n) <= Paths(lo, l)
  {
    hide PathOf;
  }

  lemma SplitCount(a: set<TKey>, b: set<TKey>, c: set<TKey>, k: set<TKey>, t: set<TKey>)
    requires c == a + b && t == k + a
    ensures Lacking(c, k) == Lacking(a, k) + Lacking(b, t)
  {
    assert c - k == (a - k) + (b - t);
  }

  lemma CountNext(k: set<TKey>, t: set<TKey>, lo: nat, n: nat)
    requires t == k + Paths(lo, n)
    ensures Lacking(Paths(lo, n + 1), k) == Lacking(Paths(lo, n), k) + Lacking(Path(lo + n * PGSIZE), t)
  {
    hide Paths, Path, Lacking;
    PathsNext(lo, n);
    SplitCount(Paths(lo, n), Path(lo + n * PGSIZE), Paths(lo, n + 1), k, t);
  }

  lemma CostNext(t0: map<TKey, nat>, t1: map<TKey, nat>, lo: nat, n: nat)
    requires t1.Keys == t0.Keys + Paths(lo, n)
    ensures Cost(t0, lo, n + 1) == Cost(t0, lo, n) + 1 + Missing(t1, lo + n * PGSIZE)
  {
    hide Paths, Path, Missing, Lacking;
    CountNext(t0.Keys, t1.Keys, lo, n);
    MissingIs(t1, lo + n * PGSIZE);
  }

  lemma CostMore(t0: map<TKey, nat>, lo: nat, n: nat, l: nat)
    requires n <= l
    ensures Cost(t0, lo, n) <= Cost(t0, lo, l)
  {
    hide Paths;
    PathsMore(lo, n, l);
    var a, b := Paths(lo, n) - t0.Keys, Paths(lo, l) - t0.Keys;
    assert b == a + (b - a);
  }

  datatype Growth = Done | NoMemory | Remap

  predicate ZeroPage(m: Mem, a: nat, flags: Flags)
  {
    a in m.pages && m.pages[a].flags == flags && m.pages[a].frame in m.bytes && ContentsOf(m, a) == Loader.Zeros(PGSIZE)
  }

  /** t is m with n new zeroed pages from lo on, and the tables and frames that took. */
  ghost predicate Extended(m: Mem, t: Mem, lo: nat, n: nat, flags: Flags)
  {
    && t.pages.Keys == m.pages.Keys + Range(lo, lo + n * PGSIZE) && m.pages.Keys !! Range(lo, lo + n * PGSIZE)
    && Kept(m, t, Range(lo, lo + n * PGSIZE), -1)
    && (forall b :: b in Range(lo, lo + n * PGSIZE) ==> ZeroPage(t, b, flags))
    && t.tables.Keys == m.tables.Keys + Paths(lo, n) && |t.free| + Cost(m.tables, lo, n) == |m.free|
  }

  lemma GrownNone(m: Mem, lo: nat, flags: Flags)
    requires Ok(m) && lo % PGSIZE == 0
    ensures Extended(m, m, lo, 0, flags)
  {
    hide Paths, Range, Ok, Kept, ZeroPage, Cost;
    KeptSelf(m);
    RangeEnds(lo, lo, lo);
    PathsNext(lo, 0);
    NoCost(m.tables, lo);
    assert lo + 0 * PGSIZE == lo;
    assert m.pages.Keys == m.pages.Keys + Range(lo, lo) && m.tables.Keys == m.tables.Keys + Paths(lo, 0);
  }

  lemma NoCost(tables: map<TKey, nat>, lo: nat)
    ensures Cost(tables, lo, 0) == 0
  {
    hide Paths;
    PathsNext(lo, 0);
    assert Paths(lo, 0) - tables.Keys == {};
  }

  lemma ZeroKept(t: Mem, u: Mem, b: nat, x: set<nat>, flags: Flags)
    requires Kept(t, u, x, -1) && b !in x && ZeroPage(t, b, flags)
    ensures ZeroPage(u, b, flags)
  {
    assert SamePage(t, u, b);
  }

  /** One more page after n: what AddPage did. */
  ghost predicate OneMore(t: Mem, u: Mem, a: nat, flags: Flags)
  {
    && a !in t.pages && u.pages.Keys == t.pages.Keys + {a} && Kept(t, u, {a}, -1) && ZeroPage(u, a, flags)
    && u.tables.Keys == t.tables.Keys + Path(a) && |u.free| + 1 + Missing(t.tables, a) == |t.free|
  }

  lemma GrownMore(m: Mem, t: Mem, u: Mem, lo: nat, n: nat, flags: Flags)
    requires Extended(m, t, lo, n, flags) && lo % PGSIZE == 0 && OneMore(t, u, lo + n * PGSIZE, flags)
    ensures Extended(m, u, lo, n + 1, flags)
  {
    hide Kept, ZeroPage, Path, Paths, Missing, Cost, Range;
    var a := lo + n * PGSIZE;
    assert lo + (n + 1) * PGSIZE == a + PGSIZE;
    RangeNext(lo, a, a + 1);
    GrownPages(m, t, u, lo, a, flags);
    GrownTables(m, t, u, lo, n, flags);
  }

  lemma GrownTables(m: Mem, t: Mem, u: Mem, lo: nat, n: nat, flags: Flags)
    requires t.tables.Keys == m.tables.Keys + Paths(lo, n) && |t.free| + Cost(m.tables, lo, n) == |m.free|
    requires OneMore(t, u, lo + n * PGSIZE, flags)
    ensures u.tables.Keys == m.tables.Keys + Paths(lo, n + 1) && |u.free| + Cost(m.tables, lo, n + 1) == |m.free|
  {
    hide Kept, ZeroPage, Path, Paths, Missing, Cost;
    PathsNext(lo, n);
    CostNext(m.tables, t.tables, lo, n);
  }

  lemma GrownPages(m: Mem, t: Mem, u: Mem, lo: nat, a: nat, flags: Flags)
    requires t.pages.Keys == m.pages.Keys + Range(lo, a) && m.pages.Keys !! Range(lo, a) && Kept(m, t, Range(lo, a), -1)
    requires (forall b :: b in Range(lo, a) ==> ZeroPage(t, b, flags)) && lo <= a && a % PGSIZE == 0
    requires OneMore(t, u, a, flags)
    ensures var r := Range(lo, a) + {a};
      && u.pages.Keys == m.pages.Keys + r && m.pages.Keys !! r && Kept(m, u, r, -1)
      && forall b :: b in r ==> ZeroPage(u, b, flags)
  {
    hide Kept, ZeroPage, Path, Missing;
    KeptOn(m, t, u, Range(lo, a), {a}, -1);
    forall b | b in Range(lo, a) ensures ZeroPage(u, b, flags) {
      ZeroKept(t, u, b, {a}, flags);
    }
  }

  /** What one more page would take, of the frames there were. */
  lemma GrowthNext(m: Mem, t: Mem, lo: nat, n: nat, hi: nat, flags: Flags)
    requires Extended(m, t, lo, n, flags) && n < PagesIn(lo, hi)
    ensures 1 + Missing(t.tables, lo + n * PGSIZE) > |t.free| ==> Cost(m.tables, lo, PagesIn(lo, hi)) > |m.free|
  {
    hide Kept, ZeroPage, Path, Paths, Missing, Cost, Range;
    CostNext(m.tables, t.tables, lo, n);
    CostMore(m.tables, lo, n + 1, PagesIn(lo, hi));
  }

  lemma StillMapped(m: Mem, t: Mem, lo: nat, n: nat, hi: nat, flags: Flags)
    requires Extended(m, t, lo, n, flags) && lo % PGSIZE == 0 && lo + n * PGSIZE < hi && lo + n * PGSIZE in t.pages
    ensures !(m.pages.Keys !! Range(lo, hi))
  {
    hide Kept, ZeroPage, Paths, Cost;
    var a := lo + n * PGSIZE;
    assert a in m.pages.Keys && a in Range(lo, hi);
  }

  /** Page k from lo on is the first that is mapped, and there are frames for those before it and one more. */
  ghost predicate BlockedAt(m: Mem, lo: nat, k: nat)
  {
    lo + k * PGSIZE in m.pages && m.pages.Keys !! Range(lo, lo + k * PGSIZE) && Cost(m.tables, lo, k) < |m.free|
  }

  lemma Blocked(m: Mem, t: Mem, lo: nat, n: nat, hi: nat, flags: Flags)
    requires Extended(m, t, lo, n, flags) && lo % PGSIZE == 0 && n < PagesIn(lo, hi)
    requires lo + n * PGSIZE in t.pages && |t.free| > 0
    ensures n < PagesIn(lo, hi) && BlockedAt(m, lo, n)
  {
    hide Kept, ZeroPage, Paths, Cost;
  }

  lemma NotBlocked(m: Mem, t: Mem, lo: nat, n: nat, hi: nat, flags: Flags)
    requires Extended(m, t, lo, n, flags) && lo % PGSIZE == 0
    requires t.free == {} || (lo + n * PGSIZE !in t.pages && 1 + Missing(t.tables, lo + n * PGSIZE) > |t.free|)
    ensures forall k: nat :: k < PagesIn(lo, hi) ==> !BlockedAt(m, lo, k)
  {
    hide Kept, ZeroPage, Paths, Cost, Path, Missing;
    CostNext(m.tables, t.tables, lo, n);
    forall k: nat | k < PagesIn(lo, hi) ensures !BlockedAt(m, lo, k) {
      if k < n {
        assert lo + k * PGSIZE in Range(lo, lo + n * PGSIZE);
      } else if k > n {
        CostMore(m.tables, lo, n + 1, k);
      }
    }
  }

  lemma NeverBlocked(m: Mem, lo: nat, hi: nat)
    requires lo % PGSIZE == 0 && m.pages.Keys !! Range(lo, hi)
    ensures forall k: nat :: k < PagesIn(lo, hi) ==> !BlockedAt(m, lo, k)
  {
    forall k: nat | k < PagesIn(lo, hi) ensures lo + k * PGSIZE in Range(lo, hi) {
    }
  }

  lemma RangeIs(lo: nat, hi: nat)
    requires lo % PGSIZE == 0
    ensures Range(lo, hi) == Range(lo, lo + PagesIn(lo, hi) * PGSIZE)
  {
  }

  lemma GrownFree(m: Mem, t: Mem, lo: nat, n: nat, hi: nat, flags: Flags)
    requires Extended(m, t, lo, n, flags) && lo % PGSIZE == 0 && n == PagesIn(lo, hi)
    ensures m.pages.Keys !! Range(lo, hi) && Cost(m.tables, lo, PagesIn(lo, hi)) <= |m.free|
  {
    hide Kept, ZeroPage, Paths, Cost, Range, PagesIn;
    RangeIs(lo, hi);
  }

  /** Taking the new pages out again leaves every page as it was. */
  lemma RolledBack(m: Mem, t: Mem, u: Mem, v: Mem, lo: nat, n: nat, flags: Flags)
    requires Extended(m, t, lo, n, flags) && lo % PGSIZE == 0
    requires u.pages == t.pages && Kept(t, u, {}, -1)
    requires v.pages == u.pages - Range(lo, lo + n * PGSIZE) && Kept(u, v, Range(lo, lo + n * PGSIZE), -1)
    ensures v.pages == m.pages && Kept(m, v, {}, -1)
  {
    hide ZeroPage, Paths, Cost, Range, Kept;
    var x := Range(lo, lo + n * PGSIZE);
    KeptOn(m, t, u, x, {}, -1);
    KeptOn(m, u, v, x + {}, x, -1);
    assert x + {} + x == x;
    CutBack(m, v, x);
  }

  lemma CutBack(m: Mem, v: Mem, x: set<nat>)
    requires Kept(m, v, x, -1) && m.pages.Keys !! x && v.pages.Keys == m.pages.Keys
    ensures v.pages == m.pages && Kept(m, v, {}, -1)
  {
    forall b ensures SamePage(m, v, b) {
      assert b !in x ==> SamePage(m, v, b);
    }
    hide Kept;
    assert forall b :: b in m.pages ==> SamePage(m, v, b);
  }

  lemma FreshPage(m: Mem, u: Mem, v: Mem, a: nat, f: nat)
    requires Kept(m, u, {}, -1) && Kept(u, v, {a}, f) && f in m.owner && m.owner[f] != Held
    ensures Kept(m, v, {a}, -1)
  {
    hide Kept;
    KeptOn(m, u, v, {}, {a}, f);
    assert {} + {a} == {a};
  }

  lemma NothingMapped(m: Mem, u: Mem, v: Mem, w: Mem, a: nat, f: nat)
    requires Kept(m, v, {a}, -1) && Kept(v, w, {}, f) && f in m.owner && m.owner[f] != Held
    requires a !in m.pages && v.pages == m.pages && w.pages == v.pages
    ensures Kept(m, w, {}, -1)
  {
    hide SameHeld;
    KeptOn(m, v, w, {a}, {}, f);
    forall b ensures SamePage(m, w, b) {
      assert b !in {a} + {} ==> SamePage(m, w, b);
    }
  }

  class Space {
    var pages: map<nat, Leaf>
    var tables: map<TKey, nat>
    var free: set<nat>
    var bytes: map<nat, seq<byte>>
    ghost var owner: map<nat, Owner>

    ghost function M(): Mem
      reads this
    {
      Mem(pages, tables, free, bytes, owner)
    }

    /** All of memory is free. */
    constructor (frames: set<nat>)
      ensures Ok(M()) && HeldOf(M()) == {} && pages == map[] && tables == map[] && free == frames == owner.Keys
    {
      var junk: seq<byte> := seq(PGSIZE, i => 1);
      pages, tables, free := map[], map[], frames;
      bytes := map f | f in frames :: junk;
      owner := map f | f in frames :: Free;
    }

    /** Set the current page table aside: its frames are in hand, and there is no table. */
    method Detach() returns (was: map<nat, Leaf>, wasTables: map<TKey, nat>)
      requires Ok(M())
      modifies this`pages, this`tables, this`owner
      ensures was == old(pages) && wasTables == old(tables) && M() == Detached(old(M())) && Ok(M())
      ensures HeldOf(M()) == HeldOf(old(M())) + TableFrames(was, wasTables)
    {
      hide Ok, HeldOf, TableFrames;
      DetachOk(M());
      was, wasTables := pages, tables;
      ghost var o := Detached(M()).owner;
      pages, tables, owner := map[], map[], o;
    }

    /** Take the page table of m0 back into use, when nothing is left of any other. */
    method Attach(was: map<nat, Leaf>, wasTables: map<TKey, nat>, ghost m0: Mem)
      requires Ok(M()) && pages == map[] && tables == map[] && Ok(m0) && HeldOf(m0) == {}
      requires was == m0.pages && wasTables == m0.tables && SameFrames(Detached(m0), M())
      modifies this`pages, this`tables, this`owner
      ensures Ok(M()) && HeldOf(M()) == {} && M() == m0.(bytes := bytes) && Kept(m0, M(), {}, -1)
    {
      hide Ok, Kept, SameFrames, Detached;
      AttachOk(m0, M());
      pages, tables, owner := was, wasTables, m0.owner;
    }

    /** Free a set of frames in hand. */
    method Discard(fs: set<nat>)
      requires Ok(M()) && fs <= HeldOf(M())
      modifies this`free, this`bytes, this`owner
      ensures Ok(M()) && HeldOf(M()) == HeldOf(old(M())) - fs && owner.Keys == old(owner).Keys
      ensures free == old(free) + fs
      ensures forall b :: SamePage(old(M()), M(), b)
      ensures forall f :: f !in fs ==> SameHeld(old(M()), M(), f)
      ensures forall f :: SameKernel(old(M()), M(), f)
    {
      hide Ok, HeldOf, SamePage, SameHeld, SameKernel;
      var junk: seq<byte> := seq(PGSIZE, i => 1);
      DiscardOk(M(), fs, junk);
      free := free + fs;
      bytes := map f | f in bytes :: if f in fs then junk else bytes[f];
      owner := map f | f in owner :: if f in fs then Free else owner[f];
      assert M() == Discarded(old(M()), fs, junk);
    }

    /** freewalk on an emptied page table: every table page is free. */
    method FreeTables()
      requires Ok(M())
      modifies this`pages, this`tables, this`free, this`bytes, this`owner
      ensures Ok(M()) && pages == map[] && tables == map[] && SameFrames(old(M()), M())
    {
      hide Ok, HeldOf, SamePage, SameHeld, SameKernel;
      ghost var m := M();
      NotHeld(m);
      var was, wasTables := Detach();
      Discard(TableFrames(was, wasTables));
      AsideFrames(m, M());
    }

    /**
     uvmfree for a size of sz bytes: every page and every table page of the page table is free. It panics
     exactly if the pages up to sz reach past MAXVA, or a page is mapped at or past sz.
     */
    method Dismantle(sz: nat) returns (panicked: bool)
      requires Ok(M()) && sz < UINT64
      modifies this`pages, this`tables, this`free, this`bytes, this`owner
      ensures panicked <==> U64(PageUp(sz)) > MAXVA || exists a :: a in old(pages) && a >= U64(PageUp(sz))
      ensures !panicked ==> Ok(M()) && pages == map[] && tables == map[] && SameFrames(old(M()), M())
    {
      hide Ok, HeldOf, SamePage, SameHeld, SameKernel, Kept, SameFrames, PageUp, U64;
      ghost var m := M();
      var end := U64(PageUp(sz));
      if end > MAXVA {
        return true;  // panic: walk
      }
      Shrink(0, end);
      KeptIsFrames(m, M(), Range(0, end));
      CutOff(m, end);
      if pages != map[] {
        return true;  // panic: freewalk: leaf
      }
      ghost var t := M();
      FreeTables();
      FramesOn(m, t, M());
      panicked := false;
    }

    /** A frame in hand becomes the kernel's: a trap frame page. */
    method Claim(f: nat)
      requires Ok(M()) && f in owner && owner[f] == Held
      modifies this`owner
      ensures Ok(M()) && owner == old(owner)[f := Kernel] && HeldOf(M()) == HeldOf(old(M())) - {f}
    {
      hide Ok;
      ClaimOk(M(), f, Kernel);
      owner := owner[f := Kernel];
    }

    /** kfree of a trap frame page. */
    method Unclaim(f: nat)
      requires Ok(M()) && f in owner && owner[f] == Kernel
      modifies this`free, this`bytes, this`owner
      ensures Ok(M()) && owner == old(owner)[f := Free] && free == old(free) + {f} && HeldOf(M()) == HeldOf(old(M())) - {f}
      ensures forall b :: b in pages ==> SamePage(old(M()), M(), b)
    {
      hide Ok, Kept;
      ghost var m := M();
      ClaimOk(M(), f, Held);
      owner := owner[f := Held];
      ghost var t := M();
      Kfree(f);
      ClaimKept(m, t, M(), f);
    }

    /** Take a frame off the free list; -1 if there is none. */
    method Kalloc() returns (f: int)
      requires Ok(M())
      modifies this`free, this`bytes, this`owner
      ensures Ok(M()) && Kept(old(M()), M(), {}, -1)
      ensures f < 0 <==> old(free) == {}
      ensures f < 0 ==> M() == old(M())
      ensures f >= 0 ==> f in old(owner) && old(owner)[f] == Free && free == old(free) - {f} && f in old(free)
      ensures f >= 0 ==> owner == old(owner)[f := Held] && f in bytes && |bytes[f]| == PGSIZE
      ensures HeldOf(M()) == if f < 0 then HeldOf(old(M())) else HeldOf(old(M())) + {f}
      ensures f !in HeldOf(old(M()))
    {
      hide Ok, Kept;
      KeptSelf(M());
      if free == {} {
        return -1;
      }
      f :| f in free;
      FreeFrame(M(), f);
      var junk: seq<byte> := seq(PGSIZE, i => 5);
      ReownOk(M(), f, Held, junk);
      free, bytes, owner := free - {f}, bytes[f := junk], owner[f := Held];
    }

    /** Give back a frame in hand. */
    method Kfree(f: nat)
      requires Ok(M()) && f in owner && owner[f] == Held
      modifies this`free, this`bytes, this`owner
      ensures Ok(M()) && Kept(old(M()), M(), {}, f)
      ensures free == old(free) + {f} && owner == old(owner)[f := Free] && HeldOf(M()) == HeldOf(old(M())) - {f}
    {
      hide Ok, Kept;
      var junk: seq<byte> := seq(PGSIZE, i => 1);
      ReownOk(M(), f, Free, junk);
      free, bytes, owner := free + {f}, bytes[f := junk], owner[f := Free];
    }

    /** memset, memmove or readi onto a frame in hand. */
    method Fill(f: nat, content: seq<byte>)
      requires Ok(M()) && f in owner && owner[f] == Held && |content| == PGSIZE
      modifies this`bytes
      ensures Ok(M()) && Kept(old(M()), M(), {}, f) && bytes == old(bytes)[f := content] && HeldOf(M()) == HeldOf(old(M()))
    {
      hide Ok, Kept;
      FreeFrame(M(), f);
      ReownOk(M(), f, Held, content);
      bytes := bytes[f := content];
      assert M() == Reowned(old(M()), f, Held, content);
    }

    /** walk's allocation of one table page. */
    method AddTable(k: TKey) returns (ok: bool)
      requires Ok(M()) && k !in tables && (k.level == 0 ==> TKey(1, k.prefix / 512) in tables)
      modifies this`tables, this`free, this`bytes, this`owner
      ensures Ok(M()) && Kept(old(M()), M(), {}, -1) && HeldOf(M()) == HeldOf(old(M()))
      ensures ok <==> old(free) != {}
      ensures ok ==> tables.Keys == old(tables).Keys + {k} && |free| + 1 == |old(free)|
      ensures !ok ==> M() == old(M())
    {
      hide Ok, Kept;
      ghost var m := M();
      var f := Kalloc();
      if f < 0 {
        return false;
      }
      ghost var t := M();
      LinkOk(t, k, f);
      tables, owner := tables[k := f], owner[f := Tab(k)];
      KeptStill(m, t, M(), f);
      ok := true;
    }

    /** walk with alloc set: the tables on the way to a, as far as there are frames for them. */
    method Walk(a: nat) returns (ok: bool)
      requires Ok(M())
      modifies this`tables, this`free, this`bytes, this`owner
      ensures Ok(M()) && Kept(old(M()), M(), {}, -1) && HeldOf(M()) == HeldOf(old(M()))
      ensures ok <==> Missing(old(tables), a) <= |old(free)|
      ensures ok ==> tables.Keys == old(tables).Keys + Path(a) && |free| + Missing(old(tables), a) == |old(free)|
      ensures !ok ==> free == {}
    {
      hide Kept, HeldOf, Owned, Whole, Reached;
      ghost var m := M();
      KeptSelf(m);
      assert a / 0x20_0000 / 512 == a / 0x4000_0000;
      UpperFirst(m, a);
      ok := true;
      if Middle(a) !in tables {
        ok := AddTable(Middle(a));
        if !ok {
          return;
        }
      }
      ghost var t := M();
      if Last(a) !in tables {
        ok := AddTable(Last(a));
        KeptStill(m, t, M(), -1);
      }
    }

    /** proc_pagetable: the tables for the trampoline and the trap frame; nothing stays behind on failure. */
    method NewTable() returns (ok: bool)
      requires Ok(M()) && pages == map[] && tables == map[]
      modifies this`pages, this`tables, this`free, this`bytes, this`owner
      ensures Ok(M()) && SameFrames(old(M()), M()) && pages == map[]
      ensures ok <==> |old(free)| >= 3
      ensures ok ==> tables.Keys == {ROOT} + Path(TRAMPOLINE) && |free| + 3 == |old(free)|
      ensures !ok ==> tables == map[]
    {
      hide Ok, Kept, Path, HeldOf, SameFrames;
      ghost var m := M();
      ok := AddTable(ROOT);
      KeptIsFrames(m, M(), {});
      if ok {
        ghost var t := M();
        TopPath(tables);
        ok := Walk(TRAMPOLINE);
        KeptStill(m, t, M(), -1);
        KeptIsFrames(m, M(), {});
        if !ok {
          ghost var u := M();
          FreeTables();
          FramesOn(m, u, M());
        }
      }
    }

    /** mappages of one page onto the frame in hand. */
    method MapPage(a: nat, f: nat, flags: Flags) returns (ok: bool)
      requires Ok(M()) && f in owner && owner[f] == Held && a !in pages && a % PGSIZE == 0
      modifies this`pages, this`tables, this`free, this`bytes, this`owner
      ensures Ok(M()) && Kept(old(M()), M(), {a}, f)
      ensures ok <==> Missing(old(tables), a) <= |old(free)|
      ensures ok ==> tables.Keys == old(tables).Keys + Path(a) && |free| + Missing(old(tables), a) == |old(free)|
      ensures ok ==> pages == old(pages)[a := Leaf(f, flags)] && f in bytes && f in old(bytes) && bytes[f] == old(bytes)[f]
      ensures ok ==> HeldOf(M()) == HeldOf(old(M())) - {f}
      ensures !ok ==> pages == old(pages) && free == {} && f in owner && owner[f] == Held && HeldOf(M()) == HeldOf(old(M()))
    {
      hide Ok, Kept, Path, Missing;
      ghost var m := M();
      FreeFrame(m, f);
      ok := Walk(a);
      ghost var t := M();
      KeptHeld(m, t, f);
      WiderKept(m, t, {}, {a}, -1, f);
      if ok {
        MapOk(t, a, f, flags);
        pages, owner := pages[a := Leaf(f, flags)], owner[f := Page(a)];
        KeptAlong(m, t, M(), {}, {a}, f);
        assert {} + {a} == {a};
      }
    }

    /** uvmunmap of one mapped page, freeing its frame. */
    method Unmap(a: nat)
      requires Ok(M()) && a in pages
      modifies this`pages, this`free, this`bytes, this`owner
      ensures Ok(M()) && Kept(old(M()), M(), {a}, -1) && HeldOf(M()) == HeldOf(old(M()))
      ensures pages == old(pages) - {a} && free == old(free) + {old(pages)[a].frame}
    {
      hide Ok, Kept;
      ghost var m := M();
      FrameOf(m, a);
      UnmapOk(m, a);
      var f := pages[a].frame;
      pages, owner := pages - {a}, owner[f := Held];
      ghost var t := M();
      Kfree(f);
      KeptOn(m, t, M(), {a}, {}, f);
      assert {a} + {} == {a};
    }

    /** uvmunmap of the pages [lo, hi), freeing their frames; unmapped ones are skipped. */
    method Shrink(lo: nat, hi: nat)
      requires Ok(M()) && lo % PGSIZE == 0
      modifies this`pages, this`free, this`bytes, this`owner
      ensures Ok(M()) && Kept(old(M()), M(), Range(lo, hi), -1) && HeldOf(M()) == HeldOf(old(M()))
      ensures pages == old(pages) - Range(lo, hi) && free == old(free) + FramesOf(old(pages), Range(lo, hi))
    {
      hide Ok, Kept, HeldOf, Range, FramesOf;
      ghost var m := M();
      RangeEnds(lo, lo, hi);
      FramesOfNone(m.pages);
      KeptSelf(m);
      var a := lo;
      while a < hi
        invariant lo <= a && a % PGSIZE == 0 && Ok(M()) && HeldOf(M()) == HeldOf(m)
        invariant Kept(m, M(), Range(lo, a), -1) && pages == m.pages - Range(lo, a)
        invariant free == m.free + FramesOf(m.pages, Range(lo, a))
        invariant a >= hi ==> Range(lo, a) == Range(lo, hi)
        decreases hi - a
      {
        RangeNext(lo, a, hi);
        NotInRange(lo, a);
        FramesOfMore(m.pages, Range(lo, a), a);
        ghost var t := M();
        if a in pages {
          Unmap(a);
          KeptOn(m, t, M(), Range(lo, a), {a}, -1);
        } else {
          WiderKept(m, t, Range(lo, a), Range(lo, a + PGSIZE), -1, -1);
        }
        a := a + PGSIZE;
      }
      RangeEnds(lo, a, hi);
    }

    /** One round of uvmalloc: a zeroed frame mapped at a. */
    method AddPage(a: nat, flags: Flags) returns (r: Growth)
      requires Ok(M()) && a % PGSIZE == 0
      modifies this`pages, this`tables, this`free, this`bytes, this`owner
      ensures r == Done <==> a !in old(pages) && 1 + Missing(old(tables), a) <= |old(free)|
      ensures r == Remap <==> a in old(pages) && old(free) != {}
      ensures r != Remap ==> Ok(M()) && HeldOf(M()) == HeldOf(old(M()))
      ensures r == NoMemory ==> pages == old(pages) && Kept(old(M()), M(), {}, -1)
      ensures r == Done ==> a in pages && pages == old(pages)[a := pages[a]] && Kept(old(M()), M(), {a}, -1)
      ensures r == Done ==> ZeroPage(M(), a, flags)
      ensures r == Done ==> tables.Keys == old(tables).Keys + Path(a) && |free| + 1 + Missing(old(tables), a) == |old(free)|
    {
      hide Ok, Kept, Path, Missing, HeldOf;
      ghost var m := M();
      var f := Kalloc();
      if f < 0 {
        return NoMemory;
      }
      ghost var t := M();
      Fill(f, Loader.Zeros(PGSIZE));
      KeptStill(m, t, M(), f);
      if a in pages {
        return Remap;  // panic: mappages: remap
      }
      ghost var u := M();
      var ok := MapPage(a, f, flags);
      FreshPage(m, u, M(), a, f);
      if ok {
        return Done;
      }
      ghost var v := M();
      Kfree(f);
      NothingMapped(m, u, v, M(), a, f);
      r := NoMemory;
    }

    /**
     uvmalloc: zeroed pages for [lo, hi). It succeeds exactly if none of them is mapped and there are
     frames for them and for the table pages they still lack; when frames run out, the pages added so
     far go again and their tables stay. It panics exactly if frames last until a page that is mapped.
     */
    method Grow(lo: nat, hi: nat, flags: Flags) returns (r: Growth)
      requires Ok(M()) && lo % PGSIZE == 0
      modifies this`pages, this`tables, this`free, this`bytes, this`owner
      ensures r == Done <==> old(pages).Keys !! Range(lo, hi) && Cost(old(tables), lo, PagesIn(lo, hi)) <= |old(free)|
      ensures r == Remap <==> exists k: nat :: k < PagesIn(lo, hi) && BlockedAt(old(M()), lo, k)
      ensures r != Remap ==> Ok(M()) && HeldOf(M()) == HeldOf(old(M()))
      ensures r == NoMemory ==> pages == old(pages) && Kept(old(M()), M(), {}, -1)
      ensures r == Done ==> Extended(old(M()), M(), lo, PagesIn(lo, hi), flags)
    {
      hide Ok, Kept, Path, Missing, HeldOf, Range, Cost, Extended, ZeroPage, BlockedAt;
      ghost var m := M();
      ghost var n: nat := 0;
      var a := lo;
      GrownNone(m, lo, flags);
      while a < hi
        invariant a == lo + n * PGSIZE && n <= PagesIn(lo, hi) && (a >= hi ==> n == PagesIn(lo, hi))
        invariant Ok(M()) && HeldOf(M()) == HeldOf(m) && Extended(m, M(), lo, n, flags)
        decreases hi - a
      {
        ghost var t := M();
        r := AddPage(a, flags);
        GrowthNext(m, t, lo, n, hi, flags);
        if r == Remap {
          StillMapped(m, t, lo, n, hi, flags);
          Blocked(m, t, lo, n, hi, flags);
          return;
        }
        if r == NoMemory {
          if a in t.pages {
            StillMapped(m, t, lo, n, hi, flags);
          }
          NotBlocked(m, t, lo, n, hi, flags);
          ghost var u := M();
          Shrink(lo, a);
          RolledBack(m, t, u, M(), lo, n, flags);
          return;
        }
        assert OneMore(t, M(), a, flags);
        GrownMore(m, t, M(), lo, n, flags);
        n := n + 1;
        a := a + PGSIZE;
      }
      GrownFree(m, M(), lo, n, hi, flags);
      NeverBlocked(m, lo, hi);
      r := Done;
    }

    /** Store new contents in a mapped page. */
    method WritePage(a: nat, content: seq<byte>)
      requires Ok(M()) && a in pages && |content| == PGSIZE
      modifies this`bytes
      ensures Ok(M()) && Kept(old(M()), M(), {a}, -1) && HeldOf(M()) == HeldOf(old(M()))
      ensures pages[a].frame in bytes && ContentsOf(M(), a) == content
    {
      hide Ok, Kept;
      WriteOk(M(), a, content);
      bytes := bytes[pages[a].frame := content];
    }

    /** Change the rights of a mapped page. */
    method SetFlags(a: nat, flags: Flags)
      requires Ok(M()) && a in pages
      modifies this`pages
      ensures Ok(M()) && Kept(old(M()), M(), {a}, -1) && pages == old(pages)[a := Leaf(old(pages)[a].frame, flags)]
    {
      hide Ok, Kept;
      RetagOk(M(), a, flags);
      pages := pages[a := Leaf(pages[a].frame, flags)];
    }
  }

  lemma KeptStill(m: Mem, t: Mem, u: Mem, h: int)
    requires Kept(m, t, {}, -1) && Kept(t, u, {}, h) && (h in m.owner ==> m.owner[h] != Held)
    ensures Kept(m, u, {}, -1)
  {
    hide Kept;
    KeptOn(m, t, u, {}, {}, h);
    var none: set<nat> := {};
    assert none + none == none;
  }

  /** Without the middle table there is no last one. */
  lemma UpperFirst(m: Mem, a: nat)
    requires Ok(m)
    ensures Last(a) in m.tables ==> Middle(a) in m.tables
  {
    assert a / 0x20_0000 / 512 == a / 0x4000_0000;
  }

  lemma KeptHeld(m: Mem, t: Mem, f: nat)
    requires Kept(m, t, {}, -1) && f in m.owner && m.owner[f] == Held && f in m.bytes
    ensures f in t.owner && t.owner[f] == Held && f in t.bytes && t.bytes[f] == m.bytes[f]
  {
    assert SameHeld(m, t, f);
  }

  lemma WiderSelf(m: Mem, x: set<nat>, h: int)
    requires Ok(m)
    ensures Kept(m, m, x, h)
  {
    KeptSelf(m);
  }

  lemma KeptBoth(m: Mem, t: Mem, u: Mem, x: set<nat>, y: set<nat>, h: int)
    requires Kept(m, t, x, h) && Kept(t, u, y, h)
    ensures Kept(m, u, x + y, h)
  {
    forall b | b !in x + y ensures SamePage(m, u, b) {
      assert SamePage(m, t, b) && SamePage(t, u, b);
    }
    forall f | f != h ensures SameHeld(m, u, f) {
      assert SameHeld(m, t, f) && SameHeld(t, u, f);
    }
    forall f ensures SameKernel(m, u, f) {
      assert SameKernel(m, t, f) && SameKernel(t, u, f);
    }
  }

  lemma WiderKept(m: Mem, t: Mem, x: set<nat>, y: set<nat>, h: int, g: int)
    requires Kept(m, t, x, h) && x <= y && (h == g || h == -1)
    ensures Kept(m, t, y, g)
  {
    forall f | f != g ensures SameHeld(m, t, f) {
      assert f != h ==> SameHeld(m, t, f);
    }
  }

  lemma KeptAlong(m: Mem, t: Mem, u: Mem, x: set<nat>, y: set<nat>, h: int)
    requires Kept(m, t, x, -1) && Kept(t, u, y, h)
    ensures Kept(m, u, x + y, h)
  {
    forall b | b !in x + y ensures SamePage(m, u, b) {
      assert SamePage(m, t, b) && SamePage(t, u, b);
    }
    forall f | f != h ensures SameHeld(m, u, f) {
      assert f != -1 ==> SameHeld(m, t, f) && SameHeld(t, u, f);
    }
    forall f ensures SameKernel(m, u, f) {
      assert SameKernel(m, t, f) && SameKernel(t, u, f);
    }
  }
}
