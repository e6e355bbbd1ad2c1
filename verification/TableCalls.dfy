/** Lemmas about the calls of the page-table code: what each sequence of stores adds up to. */
module TableCalls {
  import opened Common
  import opened Sv39
  import opened TableSteps
  import opened TableRelations
  import opened TableTrees
  import opened Frames

  lemma SameState(s: St)
    ensures SameLookups(s, s)
  {
  }

  /** Passing a frame that is neither table nor leaf between Free and Held. */
  lemma Reowned(s: St, f: nat, o: Owner, page: seq<nat>, x: set<Key>)
    requires TreeBut(s, x) && f in s.owner && (s.owner[f] == Free || s.owner[f] == Held) && (o == Free || o == Held)
    requires |page| == 512
    ensures TreeBut(St(s.mem[f := page], s.owner[f := o], s.tabs), x)
    ensures SameLookups(s, St(s.mem[f := page], s.owner[f := o], s.tabs))
  {
    var t := St(s.mem[f := page], s.owner[f := o], s.tabs);
    assert Shape(t);
    SameTables(s, t, x);
  }

  lemma ShapeOf(s: St)
    requires Tree(s)
    ensures Shape(s)
  {
  }

  /** Only table pages were added, out of free frames: the flat map and every other page are the same. */
  ghost predicate Grew(s: St, t: St)
  {
    GrewPages(s, t) && SameLookups(s, t)
  }

  ghost predicate GrewPages(s: St, t: St)
  {
    && t.owner.Keys == s.owner.Keys && t.mem.Keys == s.mem.Keys
    && (forall f :: f in s.owner ==> t.owner[f] == s.owner[f] || (s.owner[f] == Free && t.owner[f].Table?))
    && (forall f :: f in t.owner && f in s.mem && !t.owner[f].Table? ==> t.mem[f] == s.mem[f])
    && (forall k :: k in s.tabs ==> k in t.tabs && t.tabs[k] == s.tabs[k])
  }

  lemma GrewNothing(s: St)
    ensures Grew(s, s)
  {
  }

  lemma GrewTwice(s: St, t: St, u: St)
    requires Grew(s, t) && Grew(t, u)
    ensures Grew(s, u)
  {
    hide Sv39.Lookup;
  }

  lemma TableCanGrow(s: St, k: Key, i: nat, f: nat)
    requires Tree(s) && k in s.tabs && k.level > 0 && i < 512 && Child(k, i) !in s.tabs
    requires f in s.owner && s.owner[f] == Held && f in s.mem && Zeroed(s.mem[f])
    ensures CanGrow(s, k, i, f)
  {
    WordIs(s, k, i, {});
    assert s.owner[s.tabs[k]] == Table(k);
  }

  lemma SameTwice(s: St, t: St, u: St)
    requires SameLookups(s, t) && SameLookups(t, u)
    ensures SameLookups(s, u)
  {
    hide Sv39.Lookup;
    forall root: nat, vpn: nat ensures Lookup(u, root, vpn) == Lookup(s, root, vpn) {
      assert Lookup(t, root, vpn) == Lookup(s, root, vpn);
    }
  }

  lemma GrewPage(s: St, s2: St, k: Key, i: nat, f: nat)
    requires CanGrow(s2, k, i, f) && s2.tabs[k] in s2.owner && s2.owner[s2.tabs[k]] == Table(k)
    requires f in s.owner && s.owner[f] == Free && s2.owner == s.owner[f := Held] && s2.tabs == s.tabs
    requires s2.mem.Keys == s.mem.Keys && forall g :: g in s.mem && g != f ==> s2.mem[g] == s.mem[g]
    ensures GrewPages(s, Grown(s2, k, i, f))
  {
  }

  lemma GrewByOne(s: St, s1: St, s2: St, k: Key, i: nat, f: nat)
    requires CanGrow(s2, k, i, f) && Tree(s2) && Tree(s)
    requires f in s.owner && s.owner[f] == Free && s2.owner == s.owner[f := Held] && s2.tabs == s.tabs
    requires s1.mem == s.mem[f := Filled(5)] && s2.mem == s1.mem[f := Filled(0)]
    requires SameLookups(s, s1) && SameLookups(s1, s2) && SameLookups(s2, Grown(s2, k, i, f))
    ensures Grew(s, Grown(s2, k, i, f))
  {
    assert s2.owner[s2.tabs[k]] == Table(k);
    assert f in s.mem;
    hide SameLookups, TreeBut, GrewPages, Filled, CanGrow, Grown;
    SameTwice(s, s1, s2);
    SameTwice(s, s2, Grown(s2, k, i, f));
    GrewPage(s, s2, k, i, f);
  }

  lemma GrownFree(s: St, free: seq<nat>, head: nat, k: Key, i: nat, f: nat)
    requires FreeList(s.mem, s.owner, free, head) && CanGrow(s, k, i, f) && Tree(s)
    ensures FreeList(Grown(s, k, i, f).mem, Grown(s, k, i, f).owner, free, head)
  {
    assert s.owner[s.tabs[k]] == Table(k);
    hide FreeList;
    KeepFree(s.mem, s.owner, free, head, Grown(s, k, i, f).mem, Grown(s, k, i, f).owner);
  }

  lemma GrownIs(s: St, k: Key, i: nat, f: nat)
    requires CanGrow(s, k, i, f)
    ensures Grown(s, k, i, f) ==
      St(s.mem[s.tabs[k] := Put(s.mem[s.tabs[k]], i, Pte(f, 1))], s.owner[f := Table(Child(k, i))], s.tabs[Child(k, i) := f])
  {
  }

  lemma PointsAt(s: St, free: seq<nat>, head: nat, c: Key, w: nat)
    requires Tree(s) && FreeList(s.mem, s.owner, free, head) && w == Entry(s.tabs, c)
    ensures V(w) <==> c in s.tabs
    ensures c in s.tabs ==> Pte2Pa(w) == s.tabs[c] * PGSIZE && s.tabs[c] > 0
  {
    if c in s.tabs {
      assert s.owner[s.tabs[c]] == Table(c);
      PointerBits(s.tabs[c]);
    }
    hide TreeBut, FreeList, Pte;
  }

  lemma LeafTable(s: St, root: nat, va: nat)
    requires Tree(s) && On(root, 0, va / PGSIZE) in s.tabs
    ensures On(root, 0, va / PGSIZE) == Key(root, 0, va / PGSIZE / 512)
    ensures HasLeafTable(s, root, va / PGSIZE) && Px(0, va) == va / PGSIZE % 512
  {
    PxIsDigit(0, va);
    assert Up(va / PGSIZE, 1) == Up(va / PGSIZE, 0) / 512;
    WordIs(s, On(root, 0, va / PGSIZE), 0, {});
  }

  lemma RootIs(s: St, root: nat, va: nat)
    requires Tree(s) && Key(root, 2, 0) in s.tabs && va < MAXVA
    ensures s.tabs[Key(root, 2, 0)] == root && On(root, 2, va / PGSIZE) == Key(root, 2, 0)
  {
    TopIsZero(va);
  }

  /** How many tables at this level or above still lack on the way to vpn. */
  function Missing(tabs: map<Key, nat>, root: nat, vpn: nat, level: nat): (n: nat)
  {
    (if level <= 1 && On(root, 1, vpn) !in tabs then 1 else 0) + (if level == 0 && On(root, 0, vpn) !in tabs then 1 else 0)
  }

  /** The tables at this level or above, below the root, on the way to vpn. */
  function Path(root: nat, vpn: nat, level: nat): set<Key>
  {
    (if level <= 1 then {On(root, 1, vpn)} else {}) + (if level == 0 then {On(root, 0, vpn)} else {})
  }

  /** The tables below the root that mapping n pages from vpn on needs. */
  ghost function Needed(root: nat, vpn: nat, n: nat): set<Key>
  {
    set v: nat, level: nat | vpn <= v < vpn + n && level < 2 :: On(root, level, v)
  }

  /** How many of the tables needed are not there. */
  ghost function Lacking(needed: set<Key>, there: set<Key>): nat
  {
    |needed - there|
  }

  lemma MissingIs(tabs: map<Key, nat>, root: nat, vpn: nat)
    ensures Missing(tabs, root, vpn, 0) == Lacking(Path(root, vpn, 0), tabs.Keys)
  {
    var a, b := On(root, 1, vpn), On(root, 0, vpn);
    assert Path(root, vpn, 0) - tabs.Keys == (if a in tabs then {} else {a}) + (if b in tabs then {} else {b});
  }

  lemma NeededNext(root: nat, vpn: nat, n: nat)
    ensures Needed(root, vpn, 0) == {} && Needed(root, vpn, n + 1) == Needed(root, vpn, n) + Path(root, vpn + n, 0)
  {
    hide On;
    var a := Needed(root, vpn, n + 1);
    forall k | k in Path(root, vpn + n, 0) ensures k in a {
      assert k == On(root, 0, vpn + n) || k == On(root, 1, vpn + n);
    }
    forall k | k in a ensures k in Needed(root, vpn, n) + Path(root, vpn + n, 0) {
      var v: nat, level: nat :| vpn <= v < vpn + n + 1 && level < 2 && k == On(root, level, v);
      assert v < vpn + n ==> k in Needed(root, vpn, n);
    }
  }

  lemma NeededMore(root: nat, vpn: nat, n: nat, m: nat)
    requires n <= m
    ensures Needed(root, vpn, n) <= Needed(root, vpn, m)
  {
  }

  lemma SplitCount(a: set<Key>, b: set<Key>, k: set<Key>)
    ensures Lacking(a + b, k) == Lacking(a, k) + Lacking(b, k + a)
  {
    assert (a + b) - k == (a - k) + (b - (k + a));
  }

  lemma FewerKeys(a: set<Key>, b: set<Key>)
    requires a <= b
    ensures |a| <= |b|
  {
    assert b == a + (b - a);
  }

  /** Frames still free, and tables present, after mapping n pages from vpn on. */
  ghost predicate Supplied(tabs: map<Key, nat>, free: nat, tabs': map<Key, nat>, free': nat, root: nat, vpn: nat, n: nat)
  {
    && tabs'.Keys == tabs.Keys + Needed(root, vpn, n)
    && free' + Lacking(Needed(root, vpn, n), tabs.Keys) == free
  }

  lemma SupplyNext(t0: map<Key, nat>, f0: nat, t1: map<Key, nat>, f1: nat, root: nat, vpn: nat, n: nat)
    requires Supplied(t0, f0, t1, f1, root, vpn, n)
    ensures Lacking(Needed(root, vpn, n + 1), t0.Keys) + f1 == f0 + Missing(t1, root, vpn + n, 0)
    ensures t1.Keys + Path(root, vpn + n, 0) == t0.Keys + Needed(root, vpn, n + 1)
  {
    hide Needed, Path, Missing, Lacking;
    NeededNext(root, vpn, n);
    MissingIs(t1, root, vpn + n);
    OneMorePath(Needed(root, vpn, n), Path(root, vpn + n, 0), Needed(root, vpn, n + 1), t0.Keys, t1.Keys);
  }

  lemma OneMorePath(a: set<Key>, b: set<Key>, c: set<Key>, k: set<Key>, t: set<Key>)
    requires c == a + b && t == k + a
    ensures Lacking(c, k) == Lacking(a, k) + Lacking(b, t) && t + b == k + c
  {
    SplitCount(a, b, k);
  }

  lemma LackingMore(a: set<Key>, b: set<Key>, there: set<Key>)
    requires a <= b
    ensures Lacking(a, there) <= Lacking(b, there)
  {
    FewerKeys(a - there, b - there);
  }

  /** What is left of the free frames after mapping new pages that needed these tables. */
  ghost predicate Spent(tabs: map<Key, nat>, free: nat, tabs': map<Key, nat>, free': nat, needed: set<Key>, pages: nat)
  {
    tabs'.Keys == tabs.Keys + needed && free' + pages + Lacking(needed, tabs.Keys) == free
  }

  lemma SpendNext(t0: map<Key, nat>, f0: nat, t1: map<Key, nat>, f1: nat, needed: set<Key>, pages: nat, root: nat, vpn: nat)
    requires Spent(t0, f0, t1, f1, needed, pages)
    ensures f1 + pages + Lacking(needed + Path(root, vpn, 0), t0.Keys) == f0 + Missing(t1, root, vpn, 0)
    ensures t1.Keys + Path(root, vpn, 0) == t0.Keys + (needed + Path(root, vpn, 0))
  {
    hide Path, Missing, Lacking;
    MissingIs(t1, root, vpn);
    OneMorePath(needed, Path(root, vpn, 0), needed + Path(root, vpn, 0), t0.Keys, t1.Keys);
  }

  lemma SpentNone(tabs: map<Key, nat>, free: nat)
    ensures Spent(tabs, free, tabs, free, {}, 0)
  {
    assert {} - tabs.Keys == {};
  }

  lemma SpentNothing(tabs: map<Key, nat>, free: nat, root: nat, vpn: nat)
    ensures Spent(tabs, free, tabs, free, Needed(root, vpn, 0), 0)
  {
    NeededNext(root, vpn, 0);
    SpentNone(tabs, free);
  }

  lemma TotalIs(oldsz: nat, newsz: nat)
    requires oldsz <= newsz
    ensures PageUp(oldsz) / PGSIZE + PagesUp(oldsz, newsz) == PageUp(newsz) / PGSIZE
  {
  }

  lemma OnePageNeeds(tabs: map<Key, nat>, root: nat, vpn: nat)
    ensures Needed(root, vpn, 1) == Path(root, vpn, 0) && Lacking(Needed(root, vpn, 1), tabs.Keys) == Missing(tabs, root, vpn, 0)
  {
    hide Path, Missing, Needed, Lacking;
    NeededNext(root, vpn, 0);
    MissingIs(tabs, root, vpn);
    assert {} + Path(root, vpn, 0) == Path(root, vpn, 0);
  }

  /** The tables that copying the mapped pages below n into child needs. */
  ghost function CopyNeeds(s: St, parent: nat, child: nat, n: nat): set<Key>
  {
    if n == 0 then {}
    else if V(Lookup(s, parent, n - 1)) then CopyNeeds(s, parent, child, n - 1) + Path(child, n - 1, 0)
    else CopyNeeds(s, parent, child, n - 1)
  }

  /** How many pages below n are mapped. */
  ghost function MappedBelow(s: St, parent: nat, n: nat): nat
  {
    if n == 0 then 0 else MappedBelow(s, parent, n - 1) + if V(Lookup(s, parent, n - 1)) then 1 else 0
  }

  lemma {:induction false} CopyMore(s: St, parent: nat, child: nat, n: nat, m: nat)
    requires n <= m
    ensures CopyNeeds(s, parent, child, n) <= CopyNeeds(s, parent, child, m)
    ensures MappedBelow(s, parent, n) <= MappedBelow(s, parent, m)
    decreases m
  {
    if n < m {
      CopyMore(s, parent, child, n, m - 1);
    }
  }

  /** Page k of the run is the first that is mapped already. */
  ghost predicate RemapAt(s: St, root: nat, vpn: nat, k: nat)
  {
    V(Lookup(s, root, vpn + k)) && forall v: nat :: vpn <= v < vpn + k ==> !V(Lookup(s, root, v))
  }

  /** Out of frames after n pages: too few for the whole run, and for getting to a later page that is mapped. */
  lemma TooMany(k0: set<Key>, f0: nat, s: St, root: nat, vpn: nat, n: nat, total: nat)
    requires Lacking(Needed(root, vpn, n + 1), k0) > f0 && n < total
    requires forall v: nat :: vpn <= v <= vpn + n ==> !V(Lookup(s, root, v))
    ensures Lacking(Needed(root, vpn, total), k0) > f0
    ensures forall k: nat :: k < total && RemapAt(s, root, vpn, k) ==> Lacking(Needed(root, vpn, k), k0) > f0
  {
    hide Needed, Sv39.Lookup, Lacking;
    NeededMore(root, vpn, n + 1, total);
    LackingMore(Needed(root, vpn, n + 1), Needed(root, vpn, total), k0);
    forall k: nat | k < total && RemapAt(s, root, vpn, k) ensures Lacking(Needed(root, vpn, k), k0) > f0 {
      assert k > n;
      NeededMore(root, vpn, n + 1, k);
      LackingMore(Needed(root, vpn, n + 1), Needed(root, vpn, k), k0);
    }
  }

  lemma SameEntry(s: St, t: St, root: nat, vpn: nat)
    requires SameLookups(s, t)
    ensures Lookup(t, root, vpn) == Lookup(s, root, vpn)
  {
    hide Sv39.Lookup;
  }

  /** The pages between two sizes. */
  function PagesUp(oldsz: nat, newsz: nat): nat
  {
    if PageUp(oldsz) <= PageUp(newsz) then (PageUp(newsz) - PageUp(oldsz)) / PGSIZE else 0
  }

  lemma LeafFree(s: St, free: seq<nat>, head: nat, root: nat, vpn: nat, w: nat, o: map<nat, Owner>)
    requires FreeList(s.mem, s.owner, free, head) && Tree(s) && HasLeafTable(s, root, vpn) && o.Keys == s.owner.Keys
    requires forall f :: f in s.owner ==> (o[f] == Free <==> s.owner[f] == Free)
    ensures FreeList(WithLeaf(s, root, vpn, w, o).mem, o, free, head)
  {
    var p := s.tabs[Key(root, 0, vpn / 512)];
    assert s.owner[p] == Table(Key(root, 0, vpn / 512));
    hide FreeList;
    KeepFree(s.mem, s.owner, free, head, WithLeaf(s, root, vpn, w, o).mem, o);
  }

  lemma LeafStored(s: St, free: seq<nat>, head: nat, root: nat, vpn: nat, w: nat, own: bool, o: map<nat, Owner>)
    requires FreeList(s.mem, s.owner, free, head) && Tree(s) && HasLeafTable(s, root, vpn) && Lookup(s, root, vpn) == 0 && V(w)
    requires own ==> w / 1024 in s.owner && s.owner[w / 1024] == Held
    requires o == if own then s.owner[w / 1024 := Leaf(root, vpn)] else s.owner
    ensures FreeList(WithLeaf(s, root, vpn, w, o).mem, o, free, head) && Tree(WithLeaf(s, root, vpn, w, o))
  {
    hide TreeBut, FreeList, Sv39.Lookup, WithLeaf;
    if own {
      Give(s, root, vpn, w, w / 1024);
    } else {
      Borrow(s, root, vpn, w);
    }
    LeafFree(s, free, head, root, vpn, w, o);
  }

  lemma LeafWritten(s: St, root: nat, vpn: nat, w: nat, o: map<nat, Owner>)
    requires HasLeafTable(s, root, vpn)
    ensures var p := s.tabs[Key(root, 0, vpn / 512)];
      WithLeaf(s, root, vpn, w, o) == St(s.mem[p := Put(s.mem[p], vpn % 512, w)], o, s.tabs)
  {
  }

  lemma GrewIsRun(s: St, t: St, root: nat, vpn: nat, f: nat, flags: nat, own: bool)
    requires Grew(s, t)
    ensures TabsGrew(s, t) && SameLookups(s, t) && RunOwners(s, t, root, vpn, f, 0, own) && PagesKept(s, t)
    ensures MappedRun(s, t, root, vpn, f, 0, flags, own)
  {
    hide Sv39.Lookup;
  }

  lemma HeldStays(s: St, t: St, f: nat, own: bool)
    requires Grew(s, t) && RunHeld(s.owner, f, 1, own)
    ensures own ==> f in t.owner && t.owner[f] == Held
  {
  }

  /** A leaf word that is not valid is 0. */
  lemma CrispLeaf(s: St, root: nat, vpn: nat)
    requires Tree(s)
    ensures !V(Lookup(s, root, vpn)) ==> Lookup(s, root, vpn) == 0
    ensures Indexed(s)
  {
    var k := Key(root, 0, vpn / 512);
    if k in s.tabs {
      WordIs(s, k, vpn % 512, {});
    }
  }

  lemma PteIs(pa: nat, flags: nat)
    ensures Pa2Pte(pa) + flags == Pte(pa / PGSIZE, flags)
  {
  }

  lemma StillUnmapped(s: St, t: St, root: nat, vpn: nat)
    requires Tree(t) && SameLookups(s, t) && !V(Lookup(s, root, vpn))
    ensures Lookup(t, root, vpn) == 0 && Indexed(t)
  {
    CrispLeaf(t, root, vpn);
    hide Sv39.Lookup, TreeBut;
  }

  lemma NextInRun(s: St, t: St, root: nat, vpn: nat, f: nat, n: nat, total: nat, flags: nat, own: bool)
    requires MappedRun(s, t, root, vpn, f, n, flags, own) && RunHeld(s.owner, f, total, own) && n < total
    requires Key(root, 2, 0) in s.tabs
    ensures Key(root, 2, 0) in t.tabs && Lookup(t, root, vpn + n) == Lookup(s, root, vpn + n)
    ensures RunHeld(t.owner, f + n, 1, own)
    ensures RunHeld(s.owner, f, n, own) && RunHeld(s.owner, f, n + 1, own)
  {
    hide Sv39.Lookup;
  }

  /** A page that is mapped owns the frame it maps: what freeing on unmap asks for. */
  ghost predicate OwnedIfMapped(s: St, root: nat, vpn: nat)
  {
    V(Lookup(s, root, vpn)) ==>
      Lookup(s, root, vpn) / 1024 in s.owner && s.owner[Lookup(s, root, vpn) / 1024] == Leaf(root, vpn)
  }

  /** The frame is no longer the page's, the leaf word is still in place. */
  ghost predicate Taken(s: St, t: St, root: nat, vpn: nat, to: Owner)
  {
    && TabsGrew(s, t) && t.tabs == s.tabs && SameLookups(s, t)
    && CutOwners(s, t, root, vpn, vpn + 1, to) && DataKept(s, t)
    && (forall f :: f in s.owner && s.owner[f].Table? ==> f in t.mem && f in s.mem && t.mem[f] == s.mem[f])
  }

  lemma LetGo(s: St, free: seq<nat>, head: nat, f: nat)
    requires Tree(s) && FreeList(s.mem, s.owner, free, head) && f in s.owner && s.owner[f].Leaf?
    ensures Tree(St(s.mem, s.owner[f := Held], s.tabs))
    ensures FreeList(s.mem, s.owner[f := Held], free, head)
  {
    var t := St(s.mem, s.owner[f := Held], s.tabs);
    assert Shape(t);
    hide FreeList;
    KeepFree(s.mem, s.owner, free, head, s.mem, t.owner);
    SameTables(s, t, {});
  }

  lemma TakenBack(s: St, t: St, root: nat, vpn: nat, f: nat)
    requires Tree(s) && V(Lookup(s, root, vpn)) && Lookup(s, root, vpn) / 1024 == f && t.mem == s.mem && t.tabs == s.tabs
    requires t.owner == if f in s.owner && s.owner[f] == Leaf(root, vpn) then s.owner[f := Held] else s.owner
    ensures Taken(s, t, root, vpn, Held)
  {
    hide Linked, Rooted, Indexed;
  }

  lemma TakenFree(s: St, t: St, u: St, root: nat, vpn: nat, f: nat, page: seq<nat>)
    requires Tree(s) && Taken(s, t, root, vpn, Held) && f in s.owner && s.owner[f] == Leaf(root, vpn)
    requires V(Lookup(s, root, vpn)) && Lookup(s, root, vpn) / 1024 == f
    requires u.owner == t.owner[f := Free] && u.tabs == t.tabs && SameLookups(t, u)
    requires u.mem == t.mem[f := page]
    ensures Taken(s, u, root, vpn, Free)
  {
    hide Indexed, Linked, Rooted, Sv39.Lookup, SameLookups;
    OwnsOnlyItsFrame(s, root, vpn, f);
    SameTwice(s, t, u);
    hide TreeBut, Backed;
  }

  lemma SlotOrNothing(s: St, root: nat, vpn: nat, slot: Slot)
    requires Tree(s)
    requires slot.NoSlot? ==> Missing(s.tabs, root, vpn, 0) > 0
    requires slot.Slot? ==> HasLeafTable(s, root, vpn) && slot == Slot(s.tabs[Key(root, 0, vpn / 512)], vpn % 512)
    ensures slot.NoSlot? ==> Lookup(s, root, vpn) == 0
    ensures slot.Slot? ==> slot.frame in s.mem && |s.mem[slot.frame]| == 512 && slot.i < 512
    ensures slot.Slot? ==> Lookup(s, root, vpn) == s.mem[slot.frame][slot.i]
  {
    if slot.NoSlot? {
      if On(root, 1, vpn) !in s.tabs {
        NothingBelow(s, root, 1, vpn);
      } else {
        NothingBelow(s, root, 0, vpn);
      }
    }
    hide TreeBut;
  }

  lemma CutUnmapped(s: St, root: nat, vpn: nat, to: Owner)
    requires Tree(s) && !V(Lookup(s, root, vpn))
    ensures Cut(s, s, root, vpn, vpn + 1, to)
  {
    CrispLeaf(s, root, vpn);
    UnmappedUnowned(s, root, vpn);
    hide TreeBut, Sv39.Lookup;
  }

  lemma TakenUnowned(s: St, t: St, root: nat, vpn: nat, to: Owner)
    requires CutOwnersOf(s, t, root, vpn, to) && (to == Free || to == Held)
    ensures NoLeafOwner(t.owner, root, vpn)
  {
  }

  ghost predicate CutOwnersOf(s: St, t: St, root: nat, vpn: nat, to: Owner)
  {
    t.owner.Keys == s.owner.Keys && CutOwners(s, t, root, vpn, vpn + 1, to)
  }

  lemma TakenLeafTable(s: St, t: St, root: nat, vpn: nat, to: Owner)
    requires Tree(s) && Taken(s, t, root, vpn, to) && HasLeafTable(s, root, vpn)
    ensures HasLeafTable(t, root, vpn) && t.tabs == s.tabs && CutOwnersOf(s, t, root, vpn, to)
    ensures s.tabs[Key(root, 0, vpn / 512)] in s.owner && s.owner[s.tabs[Key(root, 0, vpn / 512)]].Table?
  {
    assert s.owner[s.tabs[Key(root, 0, vpn / 512)]] == Table(Key(root, 0, vpn / 512));
    hide Linked, Backed, Rooted, SameLookups, DataKept, CutOwners;
  }

  lemma CutTakenPages(s: St, t: St, root: nat, vpn: nat, to: Owner)
    requires Taken(s, t, root, vpn, to) && HasLeafTable(t, root, vpn)
    requires forall r: nat, v: nat ::
      Lookup(WithLeaf(t, root, vpn, 0, t.owner), r, v) == if r == root && v == vpn then 0 else Lookup(t, r, v)
    requires s.tabs[Key(root, 0, vpn / 512)] in s.owner && s.owner[s.tabs[Key(root, 0, vpn / 512)]].Table?
    ensures Cut(s, WithLeaf(t, root, vpn, 0, t.owner), root, vpn, vpn + 1, to)
  {
    hide Sv39.Lookup;
  }

  lemma CutTaken(s: St, t: St, root: nat, vpn: nat, to: Owner)
    requires Tree(t) && Taken(s, t, root, vpn, to) && HasLeafTable(s, root, vpn) && (to == Free || to == Held)
    requires Tree(s)
    ensures HasLeafTable(t, root, vpn) && t.tabs == s.tabs
    ensures Tree(WithLeaf(t, root, vpn, 0, t.owner))
    ensures Cut(s, WithLeaf(t, root, vpn, 0, t.owner), root, vpn, vpn + 1, to)
  {
    hide Sv39.Lookup, Taken, Indexed, Linked, Backed, Rooted, HasLeafTable, WithLeaf, Cut, NoLeafOwner;
    TakenLeafTable(s, t, root, vpn, to);
    TakenUnowned(s, t, root, vpn, to);
    LeafLookups(t, root, vpn, 0, t.owner);
    Clear(t, root, vpn);
    CutTakenPages(s, t, root, vpn, to);
  }

  lemma WithLeafIs(s: St, root: nat, vpn: nat, slot: Slot)
    requires HasLeafTable(s, root, vpn) && slot == Slot(s.tabs[Key(root, 0, vpn / 512)], vpn % 512)
    ensures slot.frame in s.mem && slot.i < |s.mem[slot.frame]|
    ensures WithLeaf(s, root, vpn, 0, s.owner) ==
      St(s.mem[slot.frame := Put(s.mem[slot.frame], slot.i, 0)], s.owner, s.tabs)
  {
  }

  lemma StillOwned(s: St, t: St, root: nat, lo: nat, n: nat, to: Owner)
    requires Cut(s, t, root, lo, lo + n, to)
    ensures OwnedIfMapped(s, root, lo + n) ==> OwnedIfMapped(t, root, lo + n)
    ensures t.tabs == s.tabs
  {
    hide Sv39.Lookup;
  }

  lemma ZeroedPage()
    ensures Zeroed(Filled(0))
  {
  }

  lemma PageUpMonotone(a: nat, b: nat)
    requires a <= b
    ensures PageUp(a) <= PageUp(b)
  {
  }

  /** A free frame was taken and filled. */
  ghost predicate Prepared(s: St, t: St, f: nat, page: seq<nat>)
  {
    && f in s.owner && s.owner[f] == Free && t.owner == s.owner[f := Held] && t.tabs == s.tabs
    && f in s.mem && t.mem == s.mem[f := page] && SameLookups(s, t)
  }

  lemma PreparedBy(s: St, s1: St, s2: St, f: nat, junk: seq<nat>, page: seq<nat>)
    requires Tree(s) && f in s.owner && s.owner[f] == Free && s1.owner == s.owner[f := Held] && s1.tabs == s.tabs
    requires s1.mem == s.mem[f := junk]
    requires s2 == s1.(mem := s1.mem[f := page]) && SameLookups(s, s1) && SameLookups(s1, s2)
    ensures Prepared(s, s2, f, page)
  {
    SameTwice(s, s1, s2);
    assert f in s.mem;
    hide SameLookups, TreeBut;
  }

  lemma ReadyToMap(s: St, t: St, root: nat, vpn: nat, f: nat)
    requires f in t.owner && t.owner[f] == Held && SameLookups(s, t) && !V(Lookup(s, root, vpn))
    ensures RunHeld(t.owner, f, 1, true) && !V(Lookup(t, root, vpn))
  {
    hide Sv39.Lookup;
  }

  lemma NotMapped(s: St, t: St, root: nat, vpn: nat, f: nat, flags: nat)
    requires MappedRun(s, t, root, vpn, f, 0, flags, true) && f in s.owner && s.owner[f] == Held
    ensures f in t.owner && t.owner[f] == Held
  {
    hide RunLookups;
  }

  lemma BuiltOne(s: St, s2: St, s3: St, root: nat, vpn: nat, f: nat, flags: nat, page: seq<nat>)
    requires Prepared(s, s2, f, page) && MappedRun(s2, s3, root, vpn, f, 1, flags, true) && flags < 1024 && V(flags)
    ensures Built(s, s3, root, map[vpn := Image(flags, page)])
  {
    PteParts(f, flags);
    BuiltOneOwners(s, s2, s3, root, vpn, f, flags, page);
    hide Sv39.Lookup, Pte;
    assert BuiltPage(s3, root, vpn, Image(flags, page));
    hide DataKept, BuiltOwners, TabsGrew, RunOwners;
  }

  lemma BuiltOneOwners(s: St, s2: St, s3: St, root: nat, vpn: nat, f: nat, flags: nat, page: seq<nat>)
    requires Prepared(s, s2, f, page) && MappedRun(s2, s3, root, vpn, f, 1, flags, true)
    ensures TabsGrew(s, s3) && BuiltOwners(s, s3, root, map[vpn := Image(flags, page)]) && DataKept(s, s3)
    ensures s3.owner[f] == Leaf(root, vpn) && f in s3.mem && s3.mem[f] == page
  {
    hide SameLookups, RunLookups;
  }

  lemma BuiltNone(s: St, s2: St, s3: St, s4: St, root: nat, vpn: nat, f: nat, flags: nat, page: seq<nat>, junk: seq<nat>)
    requires Prepared(s, s2, f, page) && MappedRun(s2, s3, root, vpn, f, 0, flags, true)
    requires s4.owner == s3.owner[f := Free] && s4.tabs == s3.tabs && SameLookups(s3, s4)
    requires s4.mem == s3.mem[f := junk]
    ensures Built(s, s4, root, map[])
  {
    hide Sv39.Lookup;
  }

  /** PTE_R | PTE_U | xperm */
  function UserPerm(xperm: nat): (perm: nat)
    ensures xperm < 1024 ==> perm < 1024
  {
    var r := if xperm / 2 % 2 == 1 then xperm else xperm + 2;
    if r / 16 % 2 == 1 then r else r + 16
  }

  ghost function ZeroPages(lo: nat, hi: nat, flags: nat): (img: map<nat, Image>)
    ensures forall v: nat :: v in img <==> lo <= v < hi
    ensures forall v :: v in img ==> img[v] == Image(flags, Filled(0))
    decreases hi
  {
    if hi <= lo then map[] else ZeroPages(lo, hi - 1, flags)[hi - 1 := Image(flags, Filled(0))]
  }

  lemma NoZeroPages(lo: nat, flags: nat)
    ensures ZeroPages(lo, lo, flags) == map[]
  {
  }

  lemma NextToBuild(s: St, t: St, root: nat, lo: nat, hi: nat, flags: nat)
    requires Built(s, t, root, ZeroPages(lo, hi, flags)) && Key(root, 2, 0) in s.tabs
    ensures Key(root, 2, 0) in t.tabs && Lookup(t, root, hi) == Lookup(s, root, hi)
  {
    hide Sv39.Lookup;
  }

  lemma OneMore(s: St, t: St, u: St, root: nat, lo: nat, hi: nat, flags: nat)
    requires Built(s, t, root, ZeroPages(lo, hi, flags)) && lo <= hi
    requires Built(t, u, root, map[hi := Image(flags, Filled(0))])
    ensures Built(s, u, root, ZeroPages(lo, hi + 1, flags))
  {
    hide Built, Filled;
    BuiltOn(s, t, u, root, ZeroPages(lo, hi, flags), map[hi := Image(flags, Filled(0))]);
    assert ZeroPages(lo, hi + 1, flags) == ZeroPages(lo, hi, flags) + map[hi := Image(flags, Filled(0))];
  }

  lemma FailedPage(s: St, t: St, u: St, root: nat, lo: nat, hi: nat, flags: nat)
    requires Built(s, t, root, ZeroPages(lo, hi, flags)) && Built(t, u, root, map[]) && Key(root, 2, 0) in s.tabs
    ensures Built(s, u, root, ZeroPages(lo, hi, flags)) && Key(root, 2, 0) in u.tabs
    ensures forall v: nat :: lo <= v < hi ==> OwnedIfMapped(u, root, v)
  {
    BuiltOn(s, t, u, root, ZeroPages(lo, hi, flags), map[]);
    assert ZeroPages(lo, hi, flags) + map[] == ZeroPages(lo, hi, flags);
    hide Sv39.Lookup, Filled;
    forall v: nat | lo <= v < hi ensures OwnedIfMapped(u, root, v) {
      assert v in ZeroPages(lo, hi, flags);
      assert BuiltPage(u, root, v, Image(flags, Filled(0)));
    }
  }

  lemma UndoneAll(s: St, t: St, u: St, root: nat, lo: nat, hi: nat, flags: nat)
    requires Built(s, t, root, ZeroPages(lo, hi, flags)) && Tree(s)
    requires if lo < hi then Cut(t, u, root, lo, hi, Free) else u == t
    requires forall v: nat :: lo <= v < hi ==> !V(Lookup(s, root, v))
    ensures Built(s, u, root, map[]) && SameLookups(s, u)
  {
    forall v: nat | lo <= v < hi ensures Lookup(s, root, v) == 0 {
      CrispLeaf(s, root, v);
    }
    assert Backed(s);
    hide TreeBut, Cut, Sv39.Lookup, Built;
    if lo < hi {
      Undone(s, t, u, root, ZeroPages(lo, hi, flags), lo, hi);
    } else {
      assert ZeroPages(lo, hi, flags) == map[];
      BuiltNothingSame(s, u, root);
    }
  }

  lemma BuiltNothingSame(s: St, t: St, root: nat)
    requires Built(s, t, root, map[])
    ensures SameLookups(s, t)
  {
    hide Sv39.Lookup;
  }

  /** What fork should give the child: the parent's pages below n. */
  ghost function CopyPages(s: St, parent: nat, n: nat): (img: map<nat, Image>)
    ensures forall v: nat :: v in img <==> v < n && V(Lookup(s, parent, v)) && Lookup(s, parent, v) / 1024 in s.mem
    ensures forall v :: v in img ==> img[v] == Image(Lookup(s, parent, v) % 1024, s.mem[Lookup(s, parent, v) / 1024])
  {
    if n == 0 then map[]
    else
      var rest := CopyPages(s, parent, n - 1);
      var w := Lookup(s, parent, n - 1);
      if V(w) && w / 1024 in s.mem then rest[n - 1 := Image(w % 1024, s.mem[w / 1024])] else rest
  }

  lemma NextToCopy(s: St, t: St, parent: nat, child: nat, n: nat)
    requires Built(s, t, child, CopyPages(s, parent, n)) && parent != child
    requires Key(parent, 2, 0) in s.tabs && Key(child, 2, 0) in s.tabs
    ensures Key(parent, 2, 0) in t.tabs && Key(child, 2, 0) in t.tabs
    ensures Lookup(t, parent, n) == Lookup(s, parent, n) && Lookup(t, child, n) == Lookup(s, child, n)
  {
    hide Sv39.Lookup, DataKept, BuiltOwners;
  }

  lemma OwnedPageKept(s: St, t: St, root: nat, img: map<nat, Image>, f: nat)
    requires Built(s, t, root, img) && Shape(s) && Shape(t) && f in s.owner && s.owner[f].Leaf?
    ensures f in s.mem && f in t.mem && t.mem[f] == s.mem[f] && |t.mem[f]| == 512
  {
    hide BuiltLookups;
  }

  /** The parent's page still holds what it held when the copy began. */
  lemma CopySource(s: St, t: St, parent: nat, child: nat, n: nat)
    requires Built(s, t, child, CopyPages(s, parent, n)) && parent != child && Tree(s) && Tree(t)
    requires OwnedIfMapped(s, parent, n) && V(Lookup(s, parent, n))
    ensures var f := Lookup(s, parent, n) / 1024;
      f in s.mem && f in t.mem && t.mem[f] == s.mem[f] && |t.mem[f]| == 512
    ensures WithV(Lookup(s, parent, n) % 1024) == Lookup(s, parent, n) % 1024
  {
    ShapeOf(s);
    ShapeOf(t);
    hide TreeBut, Shape, Built, CopyPages, Sv39.Lookup;
    OwnedPageKept(s, t, child, CopyPages(s, parent, n), Lookup(s, parent, n) / 1024);
    FlagsHaveV(Lookup(s, parent, n));
  }

  lemma FlagsHaveV(w: nat)
    requires V(w)
    ensures WithV(w % 1024) == w % 1024
  {
  }

  lemma CopyPagesStep(s: St, parent: nat, n: nat)
    ensures var w := Lookup(s, parent, n);
      CopyPages(s, parent, n + 1) ==
        if V(w) && w / 1024 in s.mem then CopyPages(s, parent, n) + map[n := Image(w % 1024, s.mem[w / 1024])]
        else CopyPages(s, parent, n)
    ensures n !in CopyPages(s, parent, n)
  {
    hide Sv39.Lookup;
  }

  lemma CopiedOne(s: St, t: St, u: St, parent: nat, child: nat, n: nat)
    requires Built(s, t, child, CopyPages(s, parent, n))
    requires var w := Lookup(s, parent, n);
      if V(w) then w / 1024 in s.mem && Built(t, u, child, map[n := Image(w % 1024, s.mem[w / 1024])]) else u == t
    ensures Built(s, u, child, CopyPages(s, parent, n + 1))
  {
    hide Built, Sv39.Lookup, CopyPages;
    CopyPagesStep(s, parent, n);
    var w := Lookup(s, parent, n);
    if V(w) {
      BuiltOn(s, t, u, child, CopyPages(s, parent, n), map[n := Image(w % 1024, s.mem[w / 1024])]);
    }
  }

  lemma FailedCopy(s: St, t: St, u: St, parent: nat, child: nat, n: nat)
    requires Built(s, t, child, CopyPages(s, parent, n)) && Built(t, u, child, map[]) && Key(child, 2, 0) in s.tabs
    requires forall v: nat :: v < n ==> !V(Lookup(s, child, v))
    ensures Built(s, u, child, CopyPages(s, parent, n)) && Key(child, 2, 0) in u.tabs
    ensures forall v: nat :: v < n ==> OwnedIfMapped(u, child, v)
  {
    BuiltOn(s, t, u, child, CopyPages(s, parent, n), map[]);
    assert CopyPages(s, parent, n) + map[] == CopyPages(s, parent, n);
    hide Sv39.Lookup;
    forall v: nat | v < n ensures OwnedIfMapped(u, child, v) {
      if v in CopyPages(s, parent, n) {
        assert BuiltPage(u, child, v, CopyPages(s, parent, n)[v]);
      }
    }
  }

  lemma UndoneCopy(s: St, t: St, u: St, parent: nat, child: nat, n: nat)
    requires Built(s, t, child, CopyPages(s, parent, n)) && Tree(s) && Cut(t, u, child, 0, n, Free)
    requires forall v: nat :: v < n ==> !V(Lookup(s, child, v))
    ensures Built(s, u, child, map[]) && SameLookups(s, u)
  {
    forall v: nat | v < n ensures Lookup(s, child, v) == 0 {
      CrispLeaf(s, child, v);
    }
    assert Backed(s);
    hide TreeBut, Cut, Sv39.Lookup, Built;
    Undone(s, t, u, child, CopyPages(s, parent, n), 0, n);
  }

  /** A valid entry with none of R, W and X points at a lower table. */
  predicate Pointer(pte: nat)
  {
    pte / 2 % 2 == 0 && pte / 4 % 2 == 0 && pte / 8 % 2 == 0
  }

  /** Every mapped page of the address space can be read, written or executed. */
  ghost predicate Usable(s: St, root: nat)
  {
    forall vpn: nat :: V(Lookup(s, root, vpn)) ==> !Pointer(Lookup(s, root, vpn))
  }

  lemma StillUsable(s: St, t: St, root: nat)
    requires SameLookups(s, t) && Usable(s, root)
    ensures Usable(t, root)
  {
    hide Sv39.Lookup, Pointer;
  }

  /** A valid entry: a lower table, or in a lowest table a page, and only the page has rights. */
  lemma EntryOfTable(s: St, k: Key, i: nat, pte: nat)
    requires Tree(s) && k in s.tabs && i < 512 && Usable(s, k.root)
    requires Word(s, k, i) == pte && V(pte)
    ensures Pointer(pte) <==> k.level > 0
    ensures k.level > 0 ==> Child(k, i) in s.tabs && s.tabs[Child(k, i)] == pte / 1024
    ensures k.level == 0 ==> !EmptyEntry(s, k, i)
  {
    hide TreeBut, EmptyEntry, Pte, Word, Sv39.Lookup;
    if k.level == 0 {
      LeafEntry(s, k, i);
    } else {
      WordIs(s, k, i, {});
      PointerBits(s.tabs[Child(k, i)]);
    }
  }

  /** An entry that is not valid maps nothing. */
  lemma NoEntry(s: St, k: Key, i: nat)
    requires Tree(s) && k in s.tabs && i < 512 && !V(Word(s, k, i))
    ensures EmptyEntry(s, k, i)
  {
    if k.level == 0 {
      WordIs(s, k, i, {});
      LeafEntry(s, k, i);
    } else {
      NoTableBelow(s, k, i);
      hide TreeBut;
      forall vpn: nat | Up(vpn, k.level) == k.prefix * 512 + i ensures Lookup(s, k.root, vpn) == 0 {
        UpShift(vpn, k.level);
        assert Up(vpn / 512, k.level - 1) == k.prefix * 512 + i;
        assert Under(Child(k, i), Key(k.root, 0, vpn / 512));
      }
    }
  }

  lemma NoTableBelow(s: St, k: Key, i: nat)
    requires Tree(s) && k in s.tabs && i < 512 && !V(Word(s, k, i))
    ensures k.level > 0 ==> forall j :: j in s.tabs ==> !Under(Child(k, i), j)
  {
    if k.level > 0 {
      assert Child(k, i) !in s.tabs by {
        WordIs(s, k, i, {});
        hide TreeBut;
      }
      forall j | j in s.tabs ensures !Under(Child(k, i), j) {
        if Under(Child(k, i), j) {
          AncestorExists(s.tabs, Child(k, i), j);
        }
      }
    }
  }

  lemma FelledStale(s: St, t: St, gone: set<Key>, k: Key, i: nat)
    requires Felled(s, t, gone) && k in s.tabs && k.level > 0 && i < 512 && Child(k, i) in s.tabs
    requires forall j :: j in gone <==> j in s.tabs && Under(Child(k, i), j)
    ensures k in t.tabs && t.tabs[k] == s.tabs[k] && Child(k, i) !in t.tabs
  {
    assert Under(Child(k, i), Child(k, i)) by { UnderOrSelf(Child(k, i), Child(k, i)); }
    assert !Under(Child(k, i), k);
  }

  lemma UnlinkedFree(s: St, free: seq<nat>, head: nat, k: Key, i: nat)
    requires FreeList(s.mem, s.owner, free, head) && k in s.tabs && k.level > 0 && i < 512
    requires TreeBut(s, {Child(k, i)})
    ensures s.tabs[k] in s.mem && i < |s.mem[s.tabs[k]]|
    ensures s.tabs[k] in s.owner && s.owner[s.tabs[k]] == Table(k)
    ensures FreeList(Unlinked(s, k, i).mem, s.owner, free, head)
  {
    WordIs(s, k, i, {Child(k, i)});
    assert s.owner[s.tabs[k]] == Table(k);
    assert Shape(s);
    hide FreeList, TreeBut;
    KeepFree(s.mem, s.owner, free, head, Unlinked(s, k, i).mem, s.owner);
  }

  lemma FelledUnlinked(s: St, t: St, gone: set<Key>, k: Key, i: nat)
    requires Felled(s, t, gone) && k in t.tabs && t.tabs[k] in t.mem && i < |t.mem[t.tabs[k]]|
    requires t.tabs[k] in t.owner && t.owner[t.tabs[k]] == Table(k)
    requires SameLookups(t, Unlinked(t, k, i))
    ensures Felled(s, Unlinked(t, k, i), gone)
  {
    SameTwice(s, t, Unlinked(t, k, i));
    hide SameLookups;
  }

  lemma NothingBelowFirst(k: Key)
    ensures forall j :: !Below(k, 0, j)
  {
  }

  lemma BelowNextAll(k: Key, i: nat)
    requires i < 512
    ensures forall j :: Below(k, i + 1, j) <==> Below(k, i, j) || (k.level > 0 && Under(Child(k, i), j))
  {
    forall j ensures Below(k, i + 1, j) <==> Below(k, i, j) || (k.level > 0 && Under(Child(k, i), j)) {
      if k.level > 0 {
        BelowNext(k, i, j);
      }
    }
  }

  lemma UnderOrSelfAll(k: Key)
    ensures forall j :: Under(k, j) <==> j == k || Below(k, 512, j)
  {
    forall j ensures Under(k, j) <==> j == k || Below(k, 512, j) {
      UnderOrSelf(k, j);
    }
  }

  lemma StillThere(s: St, t: St, gone: set<Key>, k: Key, i: nat)
    requires Felled(s, t, gone) && k in s.tabs
    requires forall j :: j in gone <==> j in s.tabs && Below(k, i, j)
    ensures k in t.tabs && t.tabs[k] == s.tabs[k] && SameLookups(s, t)
    ensures forall j :: j in t.tabs <==> j in s.tabs && j !in gone
  {
    assert !Below(k, i, k);
  }

  lemma BareNow(s: St, t: St, gone: set<Key>, k: Key)
    requires k in t.tabs && Empty(t, k)
    requires forall j :: j in gone <==> j in s.tabs && Below(k, 512, j)
    requires forall j :: j in t.tabs <==> j in s.tabs && j !in gone
    ensures Bare(t, k)
  {
    forall j | j in t.tabs ensures Parent(j) != k {
      if Parent(j) == k {
        ChildrenBelow(k, j);
      }
    }
    if k.level == 0 {
      forall i: nat | i < 512 ensures Word(t, k, i) == 0 {
        EmptyLeafTable(t, k, i);
      }
    }
  }

  lemma PrunedFree(s: St, free: seq<nat>, head: nat, k: Key)
    requires FreeList(s.mem, s.owner, free, head) && k in s.tabs && Tree(s)
    ensures FreeList(s.mem, s.owner[s.tabs[k] := Held], free, head)
    ensures s.tabs[k] in s.owner && s.owner[s.tabs[k]] == Table(k)
  {
    assert s.owner[s.tabs[k]] == Table(k);
    assert Shape(s);
    hide FreeList, TreeBut;
    KeepFree(s.mem, s.owner, free, head, s.mem, s.owner[s.tabs[k] := Held]);
  }

  lemma FelledPruned(s: St, t: St, u: St, k: Key, junk: seq<nat>)
    requires Tree(s) && k in s.tabs && t == Pruned(s, k) && SameLookups(s, t) && SameLookups(t, u)
    requires u.tabs == t.tabs && u.owner == t.owner[s.tabs[k] := Free] && u.mem == t.mem[s.tabs[k] := junk]
    ensures Felled(s, u, {k})
  {
    SameTwice(s, t, u);
    assert s.owner[s.tabs[k]] == Table(k);
    hide SameLookups, Linked, Backed, Rooted;
  }

  /** Nothing of the address space is left, and nothing else changed. */
  ghost predicate Dismantled(s: St, t: St, root: nat)
  {
    && t.owner.Keys == s.owner.Keys && t.mem.Keys == s.mem.Keys
    && (forall r: nat, v: nat :: Lookup(t, r, v) == if r == root then 0 else Lookup(s, r, v))
    && (forall k :: k in t.tabs <==> k in s.tabs && k.root != root)
    && (forall k :: k in t.tabs ==> t.tabs[k] == s.tabs[k])
    && (forall f :: f in s.owner ==> t.owner[f] == if BelongsTo(s.owner[f], root) then Free else s.owner[f])
    && DataKept(s, t)
  }

  predicate BelongsTo(o: Owner, root: nat)
  {
    (o.Leaf? && o.root == root) || (o.Table? && o.key.root == root)
  }

  /** A page at or past n is mapped. */
  ghost predicate MappedFrom(s: St, root: nat, n: nat)
  {
    exists v: nat :: v >= n && V(Lookup(s, root, v))
  }

  /** Only pages below the last address can be mapped. */
  lemma InReach(s: St, root: nat, v: nat)
    requires Tree(s) && V(Lookup(s, root, v))
    ensures Up(v, 3) == 0
  {
    var j := Key(root, 0, v / 512);
    assert j in s.tabs && Rooted(s.tabs);
    hide TreeBut;
    assert Parent(j) in s.tabs && Parent(Parent(j)) in s.tabs;
    UpShift(v, 3);
    UpShift(v / 512, 2);
    UpShift(v / 512 / 512, 1);
  }

  lemma NotMappedFrom(s: St, root: nat, n: nat)
    requires Tree(s)
    ensures !MappedFrom(s, root, n) <==> forall v: nat :: v >= n ==> Lookup(s, root, v) == 0
  {
    forall v: nat ensures Lookup(s, root, v) == 0 || V(Lookup(s, root, v)) {
      CrispLeaf(s, root, v);
    }
    hide TreeBut, Sv39.Lookup;
  }

  /** After the pages below n are gone the address space is empty exactly if it had none from n on. */
  lemma NowEmpty(s: St, t: St, root: nat, n: nat)
    requires Cut(s, t, root, 0, n, Free) && Key(root, 2, 0) in s.tabs && Tree(s) && Usable(s, root)
    ensures Key(root, 2, 0) in t.tabs && Usable(t, root)
    ensures Empty(t, Key(root, 2, 0)) <==> !MappedFrom(s, root, n)
    ensures !MappedFrom(s, root, n) ==> forall v: nat :: v >= n ==> Lookup(s, root, v) == 0
  {
    NotMappedFrom(s, root, n);
    hide Sv39.Lookup, TreeBut, Pointer, MappedFrom, Up;
    if !(forall v: nat :: v >= n ==> Lookup(s, root, v) == 0) {
      var v: nat :| v >= n && Lookup(s, root, v) != 0;
      CrispLeaf(s, root, v);
      InReach(s, root, v);
      assert Lookup(t, root, v) == Lookup(s, root, v);
    }
  }

  lemma RootsSubtree(s: St, root: nat, gone: set<Key>)
    requires Tree(s) && forall j :: j in gone <==> j in s.tabs && Under(Key(root, 2, 0), j)
    ensures forall j :: j in gone <==> j in s.tabs && j.root == root
  {
    forall j | j in s.tabs && j.root == root ensures Under(Key(root, 2, 0), j) {
      assert Rooted(s.tabs);
      hide TreeBut;
      if j.level == 1 {
        assert Parent(j) in s.tabs;
        assert Up(j.prefix, 1) == Up(j.prefix, 0) / 512;
      } else if j.level == 0 {
        assert Parent(j) in s.tabs && Parent(Parent(j)) in s.tabs;
        assert Up(j.prefix, 1) == Up(j.prefix, 0) / 512;
      }
    }
  }

  lemma AllGoneOwner(s: St, t: St, u: St, root: nat, n: nat, gone: set<Key>, f: nat)
    requires Cut(s, t, root, 0, n, Free) && Felled(t, u, gone) && Indexed(s) && Backed(s) && f in s.owner
    requires forall v: nat :: v >= n ==> Lookup(s, root, v) == 0
    requires forall j :: j in gone <==> j in t.tabs && j.root == root
    ensures f in u.owner && u.owner[f] == if BelongsTo(s.owner[f], root) then Free else s.owner[f]
  {
    hide Sv39.Lookup, SameLookups, DataKept, CutLookups;
    assert s.owner[f].Leaf? ==> V(Lookup(s, s.owner[f].root, s.owner[f].vpn));
    assert s.owner[f].Table? ==> s.owner[f].key in s.tabs;
    hide Indexed, Backed;
  }

  lemma AllGone(s: St, t: St, u: St, root: nat, n: nat, gone: set<Key>)
    requires Cut(s, t, root, 0, n, Free) && Felled(t, u, gone) && Tree(s)
    requires forall v: nat :: v >= n ==> Lookup(s, root, v) == 0
    requires forall j :: j in gone <==> j in t.tabs && j.root == root
    ensures Dismantled(s, u, root)
  {
    hide Sv39.Lookup, Indexed, Backed, Linked, Rooted, Shape, FelledOwners, CutOwners;
    forall f | f in s.owner
      ensures f in u.owner && u.owner[f] == if BelongsTo(s.owner[f], root) then Free else s.owner[f]
    {
      AllGoneOwner(s, t, u, root, n, gone, f);
    }
    AllGoneData(s, t, u, root, n, gone);
    hide DataKept;
  }

  lemma AllGoneData(s: St, t: St, u: St, root: nat, n: nat, gone: set<Key>)
    requires Cut(s, t, root, 0, n, Free) && Felled(t, u, gone)
    ensures u.owner.Keys == s.owner.Keys && u.mem.Keys == s.mem.Keys && DataKept(s, u)
  {
    hide Sv39.Lookup, SameLookups, CutLookups;
  }

  lemma FreeFrame(s: St, free: seq<nat>, head: nat)
    requires FreeList(s.mem, s.owner, free, head) && free != []
    ensures free[0] in s.owner && s.owner[free[0]] == Free && free[0] > 0
  {
    assert free[0] in free;
  }

  lemma PlantedFree(s: St, free: seq<nat>, head: nat, g: nat)
    requires FreeList(s.mem, s.owner, free, head) && Tree(s) && g in s.owner && s.owner[g] == Held
    ensures FreeList(s.mem, s.owner[g := Table(Key(g, 2, 0))], free, head)
  {
    assert Shape(s);
    hide FreeList, TreeBut;
    KeepFree(s.mem, s.owner, free, head, s.mem, s.owner[g := Table(Key(g, 2, 0))]);
  }

  lemma EmptyRoot(s: St, t: St, root: nat)
    requires SameLookups(s, t) && forall vpn: nat :: Lookup(s, root, vpn) == 0
    ensures forall vpn: nat :: Lookup(t, root, vpn) == 0
  {
    hide Sv39.Lookup;
  }

  lemma VictimHeld(s: St, t: St, root: nat, vpn: nat)
    requires Cut(s, t, root, vpn, vpn + 1, Held) && V(Lookup(s, root, vpn)) && OwnedIfMapped(s, root, vpn) && Tree(s)
    ensures var f := Lookup(s, root, vpn) / 1024;
      f in s.owner && s.owner[f] == Leaf(root, vpn) && f in t.owner && t.owner[f] == Held && f in t.mem
  {
    ShapeOf(s);
    hide Sv39.Lookup, TreeBut;
  }

  lemma Recycled(s: St, t: St, t1: St, u: St, root: nat, vpn: nat, f: nat, p: seq<nat>, q: seq<nat>)
    requires Cut(s, t, root, vpn, vpn + 1, Held) && f in t.owner && t.owner[f] == Held
    requires f in s.owner && s.owner[f].Leaf?
    requires t1.owner == t.owner[f := Free] && t1.mem == t.mem[f := p] && t1.tabs == t.tabs && SameLookups(t, t1)
    requires u.owner == t1.owner[f := Held] && u.mem == t1.mem[f := q] && u.tabs == t1.tabs && SameLookups(t1, u)
    requires f in t.mem
    ensures Cut(s, u, root, vpn, vpn + 1, Held)
  {
    SameTwice(t, t1, u);
    hide Sv39.Lookup;
    assert u.owner == t.owner;
  }

  /** What a process stores in its own pages touches neither the tables nor the flat map. */
  lemma UserStoreKeeps(s: St, f: nat, page: seq<nat>)
    requires Tree(s) && f in s.owner && s.owner[f].Leaf? && |page| == 512
    ensures Tree(s.(mem := s.mem[f := page])) && SameLookups(s, s.(mem := s.mem[f := page]))
  {
    var t := s.(mem := s.mem[f := page]);
    assert Shape(t);
    SameTables(s, t, {});
  }
}
