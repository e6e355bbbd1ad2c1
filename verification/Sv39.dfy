/**
 The memory a page table lives in: physical frames of 512 words, who owns each frame, and the
 three-level Sv39 tree (section 4.4 of the RISC-V Privileged Architecture, v1.12) read as one flat
 map from virtual page number to leaf word.
 */
module Sv39 {
  import opened Common

  /** A table page: its root frame, its level and the page-number bits above it. */
  datatype Key = Key(root: nat, level: nat, prefix: nat)

  datatype Owner =
    | Free                          // on kalloc's list
    | Table(key: Key)               // a page-table page
    | Leaf(root: nat, vpn: nat)     // mapped, and freed with its mapping
    | Held                          // in the kernel's hands

  /** Frames by physical page number, their owners, and where each table page lies. */
  datatype St = St(mem: map<nat, seq<nat>>, owner: map<nat, Owner>, tabs: map<Key, nat>)

  // ---- page-table entries ----

  function Pte(ppn: nat, flags: nat): nat
  {
    ppn * 1024 + flags
  }

  predicate V(w: nat)
  {
    w % 2 == 1
  }

  function Pa2Pte(pa: nat): nat
  {
    pa / 4096 * 1024
  }

  function Pte2Pa(w: nat): nat
  {
    w / 1024 * 4096
  }

  /** An aligned address survives the trip through an entry, whatever its flags. */
  lemma AddressRoundTrip(pa: nat, flags: nat)
    requires flags < 1024
    ensures Pte2Pa(Pa2Pte(pa) + flags) == pa <==> pa % PGSIZE == 0
    ensures (Pa2Pte(pa) + flags) % 1024 == flags
  {
  }

  // ---- indices ----

  /** x with its n lowest 9-bit digits dropped. */
  function Up(x: nat, n: nat): (r: nat)
  {
    if n == 0 then x else Up(x, n - 1) / 512
  }

  function Px(level: nat, va: nat): (i: nat)
    requires level <= 2
    ensures i < 512
  {
    (if level == 0 then va / 0x1000 else if level == 1 then va / 0x20_0000 else va / 0x4000_0000) % 512
  }

  lemma PxIsDigit(level: nat, va: nat)
    requires level <= 2
    ensures Px(level, va) == Up(va / PGSIZE, level) % 512
  {
    var vpn := va / PGSIZE;
    assert va / 0x20_0000 == vpn / 512;
    assert va / 0x4000_0000 == vpn / 512 / 512;
    assert Up(vpn, 1) == Up(vpn, 0) / 512;
  }

  lemma TopIsZero(va: nat)
    requires va < MAXVA
    ensures Up(va / PGSIZE, 3) == 0
  {
    var vpn := va / PGSIZE;
    assert Up(vpn, 1) == vpn / 512 && Up(vpn, 2) == vpn / 512 / 512;
  }

  /** The table at a level on the way to vpn. */
  function On(root: nat, level: nat, vpn: nat): Key
  {
    Key(root, level, Up(vpn, level + 1))
  }

  function Child(k: Key, i: nat): Key
    requires k.level > 0
  {
    Key(k.root, k.level - 1, k.prefix * 512 + i)
  }

  function Parent(k: Key): Key
  {
    Key(k.root, k.level + 1, k.prefix / 512)
  }

  lemma NextOn(root: nat, level: nat, vpn: nat)
    requires 0 < level
    ensures Child(On(root, level, vpn), Up(vpn, level) % 512) == On(root, level - 1, vpn)
    ensures Parent(On(root, level - 1, vpn)) == On(root, level, vpn)
  {
  }

  lemma ChildOf(k: Key, i: nat)
    requires k.level > 0 && i < 512
    ensures Parent(Child(k, i)) == k && Child(k, i).prefix % 512 == i
  {
  }

  // ---- the invariant ----

  ghost predicate Shape(s: St)
  {
    s.mem.Keys == s.owner.Keys && forall f :: f in s.mem ==> |s.mem[f]| == 512
  }

  /** Table pages and table owners are one and the same. */
  ghost predicate Indexed(s: St)
  {
    && (forall k :: k in s.tabs ==> s.tabs[k] in s.owner && s.owner[s.tabs[k]] == Table(k))
    && (forall f :: f in s.owner && s.owner[f].Table? ==>
      s.owner[f].key in s.tabs && s.tabs[s.owner[f].key] == f)
  }

  ghost predicate Rooted(tabs: map<Key, nat>)
  {
    forall k :: k in tabs ==>
      && k.level <= 2
      && (k.level == 2 ==> k.prefix == 0 && tabs[k] == k.root)
      && (k.level < 2 ==> Parent(k) in tabs)
  }

  function Entry(tabs: map<Key, nat>, c: Key): nat
  {
    if c in tabs then Pte(tabs[c], 1) else 0
  }

  function Word(s: St, k: Key, i: nat): nat
  {
    if k in s.tabs && s.tabs[k] in s.mem && i < |s.mem[s.tabs[k]]| then s.mem[s.tabs[k]][i] else 0
  }

  /** Upper entries point at exactly the tables below, except for the entries of x. */
  ghost predicate Linked(s: St, x: set<Key>)
  {
    forall k, i {:trigger Word(s, k, i)} :: k in s.tabs && 0 <= i < 512 ==>
      if k.level > 0 then Child(k, i) in x || Word(s, k, i) == Entry(s.tabs, Child(k, i))
      else Word(s, k, i) == 0 || V(Word(s, k, i))
  }

  /** The flat map: the leaf word of a page, 0 when nothing is mapped. */
  function Lookup(s: St, root: nat, vpn: nat): nat
  {
    Word(s, Key(root, 0, vpn / 512), vpn % 512)
  }

  /** A frame owned by a mapping is the frame that page maps. */
  ghost predicate Backed(s: St)
  {
    forall f :: f in s.owner && s.owner[f].Leaf? ==>
      V(Lookup(s, s.owner[f].root, s.owner[f].vpn)) && Lookup(s, s.owner[f].root, s.owner[f].vpn) / 1024 == f
  }

  ghost predicate TreeBut(s: St, x: set<Key>)
  {
    Shape(s) && Indexed(s) && Rooted(s.tabs) && Linked(s, x) && Backed(s)
  }

  ghost predicate Tree(s: St)
  {
    TreeBut(s, {})
  }

  // ---- refinement: what the hardware sees ----

  datatype Walked = PageFault | Mapping(level: nat, word: nat)

  /** The translation algorithm of section 4.3.2, on raw memory. */
  function Hardware(mem: map<nat, seq<nat>>, a: nat, level: nat, vpn: nat): Walked
    decreases level
  {
    if a !in mem || |mem[a]| != 512 then PageFault
    else
      var w := mem[a][Up(vpn, level) % 512];
      if !V(w) || (w / 2 % 2 == 0 && w / 4 % 2 == 1) then PageFault
      else if w / 2 % 2 == 1 || w / 8 % 2 == 1 then Mapping(level, w)
      else if level == 0 then PageFault
      else Hardware(mem, w / 1024, level - 1, vpn)
  }

  /** What the flat map says the hardware should find. */
  function Flat(w: nat): Walked
  {
    if !V(w) || (w / 2 % 2 == 0 && w / 4 % 2 == 1) then PageFault
    else if w / 2 % 2 == 1 || w / 8 % 2 == 1 then Mapping(0, w)
    else PageFault
  }

  lemma PointerBits(ppn: nat)
    ensures var w := Pte(ppn, 1);
      V(w) && w / 2 % 2 == 0 && w / 4 % 2 == 0 && w / 8 % 2 == 0 && w / 1024 == ppn
  {
    var w := Pte(ppn, 1);
    assert w / 2 == ppn * 512 && w / 4 == ppn * 256 && w / 8 == ppn * 128;
  }

  lemma WordIs(s: St, k: Key, i: nat, x: set<Key>)
    requires TreeBut(s, x) && k in s.tabs && i < 512
    ensures s.tabs[k] in s.mem && |s.mem[s.tabs[k]]| == 512 && Word(s, k, i) == s.mem[s.tabs[k]][i]
    ensures k.level > 0 && Child(k, i) !in x ==> Word(s, k, i) == Entry(s.tabs, Child(k, i))
    ensures k.level == 0 ==> Word(s, k, i) == 0 || V(Word(s, k, i))
  {
    hide Backed, Rooted, Entry;
    assert s.owner[s.tabs[k]] == Table(k);
  }

  lemma {:induction false} HardwareFrom(s: St, root: nat, level: nat, vpn: nat)
    requires Tree(s) && level <= 2 && On(root, level, vpn) in s.tabs
    ensures Hardware(s.mem, s.tabs[On(root, level, vpn)], level, vpn) == Flat(Lookup(s, root, vpn))
    decreases level
  {
    hide TreeBut, Pte, Word;
    var k, i := On(root, level, vpn), Up(vpn, level) % 512;
    assert k.level == level && k.root == root;
    WordIs(s, k, i, {});
    if level == 0 {
      assert k == Key(root, 0, vpn / 512);
    } else {
      NextOn(root, level, vpn);
      var c := On(root, level - 1, vpn);
      if c in s.tabs {
        PointerBits(s.tabs[c]);
        HardwareFrom(s, root, level - 1, vpn);
      } else {
        RootedTree(s);
        NothingBelow(s, root, level - 1, vpn);
      }
    }
  }

  lemma RootedTree(s: St)
    requires Tree(s)
    ensures Rooted(s.tabs)
  {
  }

  /** Without the table at a level there is no leaf word. */
  lemma {:induction false} NothingBelow(s: St, root: nat, level: nat, vpn: nat)
    requires Rooted(s.tabs) && On(root, level, vpn) !in s.tabs && level < 2
    ensures Lookup(s, root, vpn) == 0
    decreases level
  {
    if level > 0 {
      NextOn(root, level, vpn);
      NothingBelow(s, root, level - 1, vpn);
    } else {
      assert On(root, 0, vpn) == Key(root, 0, vpn / 512);
    }
  }

  /** The tree refines the flat map: the hardware finds exactly the leaf word Lookup gives. */
  lemma HardwareSeesFlatMap(s: St, root: nat, va: nat)
    requires Tree(s) && Key(root, 2, 0) in s.tabs && va < MAXVA
    ensures Hardware(s.mem, root, 2, va / PGSIZE) == Flat(Lookup(s, root, va / PGSIZE))
  {
    TopIsZero(va);
    HardwareFrom(s, root, 2, va / PGSIZE);
  }
}
