/** How each store the kernel makes moves the page-table invariant and the flat map. */
module TableSteps {
  import opened Sv39

  ghost predicate Zeroed(page: seq<nat>)
  {
    |page| == 512 && forall i :: 0 <= i < 512 ==> page[i] == 0
  }

  function Put(page: seq<nat>, i: nat, w: nat): seq<nat>
    requires i < |page|
  {
    page[i := w]
  }

  ghost predicate SameWords(s: St, t: St)
  {
    forall k: Key, i: nat :: Word(t, k, i) == Word(s, k, i)
  }

  ghost predicate SameLookups(s: St, t: St)
  {
    forall root: nat, vpn: nat :: Lookup(t, root, vpn) == Lookup(s, root, vpn)
  }

  /** Writing or handing over frames that are neither tables nor owned leaves changes nothing. */
  lemma SameTables(s: St, t: St, x: set<Key>)
    requires TreeBut(s, x) && Shape(t) && t.tabs == s.tabs && t.owner.Keys == s.owner.Keys
    requires forall f :: f in s.owner && s.owner[f].Table? ==> t.owner[f] == s.owner[f] && t.mem[f] == s.mem[f]
    requires forall f :: f in t.owner && (t.owner[f].Table? || t.owner[f].Leaf?) ==> t.owner[f] == s.owner[f]
    ensures TreeBut(t, x) && SameLookups(s, t)
  {
    hide Rooted, Entry, Child;
    forall k: Key, i: nat ensures Word(t, k, i) == Word(s, k, i) {
      if k in s.tabs {
        assert s.owner[s.tabs[k]] == Table(k);
      }
    }
  }

  // ---- a new table page below an existing one ----

  function Grown(s: St, k: Key, i: nat, g: nat): (t: St)
    requires k in s.tabs && k.level > 0 && i < 512 && s.tabs[k] in s.mem && |s.mem[s.tabs[k]]| == 512
  {
    St(s.mem[s.tabs[k] := Put(s.mem[s.tabs[k]], i, Pte(g, 1))],
       s.owner[g := Table(Child(k, i))],
       s.tabs[Child(k, i) := g])
  }

  ghost predicate CanGrow(s: St, k: Key, i: nat, g: nat)
  {
    && k in s.tabs && k.level > 0 && i < 512 && s.tabs[k] in s.mem && |s.mem[s.tabs[k]]| == 512
    && Child(k, i) !in s.tabs
    && g in s.owner && s.owner[g] == Held && g in s.mem && Zeroed(s.mem[g])
    && s.tabs[k] != g
  }

  lemma GrownWords(s: St, k: Key, i: nat, g: nat, j: Key, n: nat)
    requires CanGrow(s, k, i, g) && Indexed(s)
    ensures j in s.tabs && (j != k || n != i) ==> Word(Grown(s, k, i, g), j, n) == Word(s, j, n)
    ensures Word(Grown(s, k, i, g), k, i) == Pte(g, 1)
    ensures n < 512 ==> Word(Grown(s, k, i, g), Child(k, i), n) == 0
  {
    if j in s.tabs {
      assert s.owner[s.tabs[j]] == Table(j);
    }
  }

  lemma GrownIndexed(s: St, k: Key, i: nat, g: nat)
    requires CanGrow(s, k, i, g) && Indexed(s)
    ensures Indexed(Grown(s, k, i, g))
  {
  }

  lemma GrownRooted(s: St, k: Key, i: nat, g: nat)
    requires CanGrow(s, k, i, g) && Rooted(s.tabs)
    ensures Rooted(Grown(s, k, i, g).tabs)
  {
    ChildOf(k, i);
  }

  lemma GrownLinked(s: St, k: Key, i: nat, g: nat)
    requires CanGrow(s, k, i, g) && Indexed(s) && Linked(s, {}) && Rooted(s.tabs)
    ensures Linked(Grown(s, k, i, g), {})
  {
    var t := Grown(s, k, i, g);
    var c := Child(k, i);
    ChildOf(k, i);
    forall j, n | j in t.tabs && 0 <= n < 512
      ensures if j.level > 0 then Word(t, j, n) == Entry(t.tabs, Child(j, n)) else Word(t, j, n) == 0 || V(Word(t, j, n))
    {
      GrownWord(s, k, i, g, j, n);
    }
  }

  lemma GrownWord(s: St, k: Key, i: nat, g: nat, j: Key, n: nat)
    requires CanGrow(s, k, i, g) && Indexed(s) && Linked(s, {}) && Rooted(s.tabs)
    requires j in Grown(s, k, i, g).tabs && n < 512
    ensures var t := Grown(s, k, i, g);
      if j.level > 0 then Word(t, j, n) == Entry(t.tabs, Child(j, n)) else Word(t, j, n) == 0 || V(Word(t, j, n))
  {
    GrownWords(s, k, i, g, j, n);
    ChildOf(k, i);
    hide Word, Indexed, Pte;
    if j == Child(k, i) {
      if j.level > 0 {
        ChildOf(j, n);
        assert Child(j, n) !in s.tabs;
      }
    } else if j.level > 0 {
      ChildOf(j, n);
      assert Word(s, j, n) == Entry(s.tabs, Child(j, n));
      assert Child(j, n) == Child(k, i) ==> j == k && n == i;
    } else {
      assert Word(s, j, n) == 0 || V(Word(s, j, n));
    }
  }

  lemma GrownLookups(s: St, k: Key, i: nat, g: nat)
    requires CanGrow(s, k, i, g) && Indexed(s)
    ensures SameLookups(s, Grown(s, k, i, g))
  {
    forall root: nat, vpn: nat ensures Lookup(Grown(s, k, i, g), root, vpn) == Lookup(s, root, vpn) {
      GrownWords(s, k, i, g, Key(root, 0, vpn / 512), vpn % 512);
    }
  }

  lemma Grow(s: St, k: Key, i: nat, g: nat)
    requires Tree(s) && CanGrow(s, k, i, g)
    ensures Tree(Grown(s, k, i, g)) && SameLookups(s, Grown(s, k, i, g))
  {
    GrownIndexed(s, k, i, g);
    GrownRooted(s, k, i, g);
    GrownLinked(s, k, i, g);
    GrownLookups(s, k, i, g);
    hide Indexed, Rooted, Linked, Lookup;
  }

  // ---- leaf words ----

  function WithLeaf(s: St, root: nat, vpn: nat, w: nat, owner: map<nat, Owner>): (t: St)
    requires Key(root, 0, vpn / 512) in s.tabs && s.tabs[Key(root, 0, vpn / 512)] in s.mem
    requires |s.mem[s.tabs[Key(root, 0, vpn / 512)]]| == 512
  {
    var p := s.tabs[Key(root, 0, vpn / 512)];
    St(s.mem[p := Put(s.mem[p], vpn % 512, w)], owner, s.tabs)
  }

  ghost predicate HasLeafTable(s: St, root: nat, vpn: nat)
  {
    && Key(root, 0, vpn / 512) in s.tabs && s.tabs[Key(root, 0, vpn / 512)] in s.mem
    && |s.mem[s.tabs[Key(root, 0, vpn / 512)]]| == 512
  }

  /** Owners may change among Held and leaves, never to or from a table. */
  ghost predicate SameTableOwners(a: map<nat, Owner>, b: map<nat, Owner>)
  {
    a.Keys == b.Keys && forall f :: f in a && (a[f].Table? || b[f].Table?) ==> a[f] == b[f]
  }

  lemma LeafWords(s: St, root: nat, vpn: nat, w: nat, owner: map<nat, Owner>)
    requires Indexed(s) && HasLeafTable(s, root, vpn)
    ensures forall k: Key, i: nat :: k != Key(root, 0, vpn / 512) || i != vpn % 512 ==>
      Word(WithLeaf(s, root, vpn, w, owner), k, i) == Word(s, k, i)
    ensures Word(WithLeaf(s, root, vpn, w, owner), Key(root, 0, vpn / 512), vpn % 512) == w
  {
    forall k: Key, i: nat | k != Key(root, 0, vpn / 512) || i != vpn % 512
      ensures Word(WithLeaf(s, root, vpn, w, owner), k, i) == Word(s, k, i)
    {
      if k in s.tabs {
        assert s.owner[s.tabs[k]] == Table(k);
      }
    }
  }

  /** The store changes the flat map at its own page and nowhere else. */
  lemma LeafLookups(s: St, root: nat, vpn: nat, w: nat, owner: map<nat, Owner>)
    requires Indexed(s) && HasLeafTable(s, root, vpn)
    ensures forall r: nat, v: nat ::
      Lookup(WithLeaf(s, root, vpn, w, owner), r, v) == if r == root && v == vpn then w else Lookup(s, r, v)
  {
    LeafWords(s, root, vpn, w, owner);
    hide Word, Indexed;
    forall r: nat, v: nat
      ensures Lookup(WithLeaf(s, root, vpn, w, owner), r, v) == if r == root && v == vpn then w else Lookup(s, r, v)
    {
      if Key(r, 0, v / 512) == Key(root, 0, vpn / 512) && v % 512 == vpn % 512 {
        assert v == v / 512 * 512 + v % 512 && vpn == vpn / 512 * 512 + vpn % 512;
      }
    }
  }

  lemma LeafLinked(s: St, root: nat, vpn: nat, w: nat, owner: map<nat, Owner>)
    requires Indexed(s) && HasLeafTable(s, root, vpn) && Linked(s, {}) && (w == 0 || V(w))
    ensures Linked(WithLeaf(s, root, vpn, w, owner), {})
  {
    LeafWords(s, root, vpn, w, owner);
    hide Word, Indexed;
    var t := WithLeaf(s, root, vpn, w, owner);
    forall j, n | j in t.tabs && 0 <= n < 512
      ensures if j.level > 0 then Word(t, j, n) == Entry(t.tabs, Child(j, n)) else Word(t, j, n) == 0 || V(Word(t, j, n))
    {
      assert j in s.tabs;
      if j != Key(root, 0, vpn / 512) || n != vpn % 512 {
        assert Word(t, j, n) == Word(s, j, n);
      }
    }
  }

  lemma LeafIndexed(s: St, root: nat, vpn: nat, w: nat, owner: map<nat, Owner>)
    requires Indexed(s) && Shape(s) && HasLeafTable(s, root, vpn) && SameTableOwners(s.owner, owner)
    ensures Indexed(WithLeaf(s, root, vpn, w, owner)) && Shape(WithLeaf(s, root, vpn, w, owner))
  {
  }

  ghost predicate NoLeafOwner(owner: map<nat, Owner>, root: nat, vpn: nat)
  {
    forall f :: f in owner ==> owner[f] != Leaf(root, vpn)
  }

  /** Map a page without handing over its frame. */
  lemma Borrow(s: St, root: nat, vpn: nat, w: nat)
    requires Tree(s) && HasLeafTable(s, root, vpn) && Lookup(s, root, vpn) == 0 && V(w)
    ensures Tree(WithLeaf(s, root, vpn, w, s.owner))
  {
    LeafIndexed(s, root, vpn, w, s.owner);
    LeafLinked(s, root, vpn, w, s.owner);
    LeafLookups(s, root, vpn, w, s.owner);
    hide Indexed, Linked, Shape, Lookup, Rooted;
  }

  /** Map a page and give its frame to the mapping. */
  lemma Give(s: St, root: nat, vpn: nat, w: nat, f: nat)
    requires Tree(s) && HasLeafTable(s, root, vpn) && Lookup(s, root, vpn) == 0 && V(w)
    requires f in s.owner && s.owner[f] == Held && w / 1024 == f
    ensures Tree(WithLeaf(s, root, vpn, w, s.owner[f := Leaf(root, vpn)]))
  {
    var owner := s.owner[f := Leaf(root, vpn)];
    LeafIndexed(s, root, vpn, w, owner);
    LeafLinked(s, root, vpn, w, owner);
    LeafLookups(s, root, vpn, w, owner);
    hide Indexed, Linked, Shape, Lookup, Rooted;
  }

  /** Clear a page whose frame the mapping does not own (any more). */
  lemma Clear(s: St, root: nat, vpn: nat)
    requires Tree(s) && HasLeafTable(s, root, vpn) && NoLeafOwner(s.owner, root, vpn)
    ensures Tree(WithLeaf(s, root, vpn, 0, s.owner))
  {
    LeafIndexed(s, root, vpn, 0, s.owner);
    LeafLinked(s, root, vpn, 0, s.owner);
    LeafLookups(s, root, vpn, 0, s.owner);
    hide Indexed, Linked, Shape, Lookup, Rooted;
  }

  lemma UnmappedUnowned(s: St, root: nat, vpn: nat)
    requires Backed(s) && !V(Lookup(s, root, vpn))
    ensures NoLeafOwner(s.owner, root, vpn)
  {
  }

  /** A page owns at most the one frame it maps. */
  lemma OwnsOnlyItsFrame(s: St, root: nat, vpn: nat, f: nat)
    requires Backed(s) && f in s.owner && s.owner[f] == Leaf(root, vpn)
    ensures V(Lookup(s, root, vpn)) && Lookup(s, root, vpn) / 1024 == f
    ensures forall g :: g in s.owner && s.owner[g] == Leaf(root, vpn) ==> g == f
  {
  }

  // ---- a new root ----

  function Planted(s: St, g: nat): (t: St)
  {
    St(s.mem, s.owner[g := Table(Key(g, 2, 0))], s.tabs[Key(g, 2, 0) := g])
  }

  /** No table can hang under a frame that is not a root. */
  lemma NoTablesUnder(s: St, g: nat)
    requires Indexed(s) && Rooted(s.tabs) && g in s.owner && !s.owner[g].Table?
    ensures forall k :: k in s.tabs ==> k.root != g
  {
    forall k | k in s.tabs ensures k.root != g {
      var top := if k.level == 2 then k else if k.level == 1 then Parent(k) else Parent(Parent(k));
      assert k.level < 2 ==> Parent(k) in s.tabs;
      assert top in s.tabs && top.root == k.root;
      assert s.owner[s.tabs[top]] == Table(top);
    }
  }

  lemma PlantedWords(s: St, g: nat)
    requires Indexed(s) && Rooted(s.tabs) && g in s.owner && s.owner[g] == Held && g in s.mem && Zeroed(s.mem[g])
    ensures SameWords(s, Planted(s, g))
  {
    NoTablesUnder(s, g);
  }

  lemma PlantedIndexed(s: St, g: nat)
    requires Indexed(s) && Rooted(s.tabs) && Shape(s) && g in s.owner && s.owner[g] == Held
    ensures Indexed(Planted(s, g)) && Rooted(Planted(s, g).tabs) && Shape(Planted(s, g))
  {
    NoTablesUnder(s, g);
  }

  lemma Plant(s: St, g: nat)
    requires Tree(s) && g in s.owner && s.owner[g] == Held && Zeroed(s.mem[g])
    ensures Tree(Planted(s, g)) && SameLookups(s, Planted(s, g))
    ensures forall vpn: nat :: Lookup(s, g, vpn) == 0
  {
    NoTablesUnder(s, g);
    PlantedIndexed(s, g);
    PlantedWords(s, g);
    PlantedLinked(s, g);
    assert forall vpn: nat :: Key(g, 0, vpn / 512).root == g;
    hide Indexed, Rooted, Shape, Linked;
  }

  lemma PlantedLinked(s: St, g: nat)
    requires Linked(s, {}) && forall k :: k in s.tabs ==> k.root != g
    requires SameWords(s, Planted(s, g))
    ensures Linked(Planted(s, g), {})
  {
    var t := Planted(s, g);
    forall j, n | j in t.tabs && 0 <= n < 512
      ensures if j.level > 0 then Word(t, j, n) == Entry(t.tabs, Child(j, n)) else Word(t, j, n) == 0 || V(Word(t, j, n))
    {
      assert Word(t, j, n) == Word(s, j, n);
    }
  }

  // ---- taking tables away ----

  function Pruned(s: St, k: Key): (t: St)
    requires k in s.tabs
  {
    St(s.mem, s.owner[s.tabs[k] := Held], s.tabs - {k})
  }

  ghost predicate Bare(s: St, k: Key)
  {
    && k in s.tabs
    && (forall j :: j in s.tabs ==> Parent(j) != k)
    && (k.level == 0 ==> forall i :: 0 <= i < 512 ==> Word(s, k, i) == 0)
  }

  lemma PrunedWords(s: St, k: Key)
    requires Bare(s, k)
    ensures forall j: Key, i: nat :: j != k ==> Word(Pruned(s, k), j, i) == Word(s, j, i)
    ensures k.level == 0 ==> forall i: nat :: i < 512 ==> Word(Pruned(s, k), k, i) == Word(s, k, i)
  {
  }

  lemma PrunedIndexed(s: St, k: Key)
    requires Bare(s, k) && Indexed(s) && Rooted(s.tabs) && Shape(s)
    ensures Indexed(Pruned(s, k)) && Rooted(Pruned(s, k).tabs) && Shape(Pruned(s, k))
  {
  }

  lemma PrunedLinked(s: St, k: Key)
    requires Bare(s, k) && Linked(s, {})
    ensures Linked(Pruned(s, k), {k})
  {
    PrunedWords(s, k);
    var t := Pruned(s, k);
    forall j, n | j in t.tabs && 0 <= n < 512
      ensures if j.level > 0 then Child(j, n) == k || Word(t, j, n) == Entry(t.tabs, Child(j, n))
              else Word(t, j, n) == 0 || V(Word(t, j, n))
    {
      assert Word(t, j, n) == Word(s, j, n);
    }
  }

  /** A table with nothing below it can go; only its parent's entry is left stale. */
  lemma Prune(s: St, k: Key)
    requires Tree(s) && Bare(s, k)
    ensures TreeBut(Pruned(s, k), {k}) && SameLookups(s, Pruned(s, k))
  {
    PrunedWords(s, k);
    PrunedIndexed(s, k);
    PrunedLinked(s, k);
    hide Indexed, Rooted, Shape, Linked, Word, Bare;
  }

  function Unlinked(s: St, k: Key, i: nat): (t: St)
    requires k in s.tabs && s.tabs[k] in s.mem && i < |s.mem[s.tabs[k]]|
  {
    St(s.mem[s.tabs[k] := Put(s.mem[s.tabs[k]], i, 0)], s.owner, s.tabs)
  }

  lemma UnlinkedWords(s: St, k: Key, i: nat)
    requires Indexed(s) && k in s.tabs && k.level > 0 && s.tabs[k] in s.mem && i < |s.mem[s.tabs[k]]|
    ensures forall j: Key, n: nat :: j != k || n != i ==> Word(Unlinked(s, k, i), j, n) == Word(s, j, n)
    ensures Word(Unlinked(s, k, i), k, i) == 0
  {
    forall j: Key, n: nat | j != k || n != i ensures Word(Unlinked(s, k, i), j, n) == Word(s, j, n) {
      if j in s.tabs {
        assert s.owner[s.tabs[j]] == Table(j);
      }
    }
  }

  lemma UnlinkedLinked(s: St, k: Key, i: nat)
    requires Indexed(s) && k in s.tabs && k.level > 0 && s.tabs[k] in s.mem && i < |s.mem[s.tabs[k]]|
    requires Linked(s, {Child(k, i)}) && Child(k, i) !in s.tabs && i < 512
    ensures Linked(Unlinked(s, k, i), {})
  {
    UnlinkedWords(s, k, i);
    var t := Unlinked(s, k, i);
    hide Word, Indexed;
    forall j, n | j in t.tabs && 0 <= n < 512
      ensures if j.level > 0 then Word(t, j, n) == Entry(t.tabs, Child(j, n)) else Word(t, j, n) == 0 || V(Word(t, j, n))
    {
      if j != k || n != i {
        assert Word(t, j, n) == Word(s, j, n);
        if j.level > 0 {
          ChildOf(j, n);
          ChildOf(k, i);
        }
      }
    }
  }

  /** Zeroing the stale entry restores the whole invariant. */
  lemma Unlink(s: St, k: Key, i: nat)
    requires k in s.tabs && k.level > 0 && i < 512 && Child(k, i) !in s.tabs
    requires TreeBut(s, {Child(k, i)})
    ensures s.tabs[k] in s.mem && |s.mem[s.tabs[k]]| == 512
    ensures Tree(Unlinked(s, k, i)) && SameLookups(s, Unlinked(s, k, i))
  {
    WordIs(s, k, i, {Child(k, i)});
    UnlinkedWords(s, k, i);
    UnlinkedLinked(s, k, i);
    hide Indexed, Rooted, Linked, Word;
  }

  /** A root has no entry above it, so nothing is stale once it goes. */
  lemma NothingAboveRoot(s: St, k: Key)
    requires TreeBut(s, {k}) && k.level == 2
    ensures Tree(s)
  {
    hide Indexed, Shape, Backed, Entry;
    forall j, n | j in s.tabs && 0 <= n < 512 && j.level > 0 ensures Child(j, n) != k {
      assert j.level <= 2;
    }
  }
}
