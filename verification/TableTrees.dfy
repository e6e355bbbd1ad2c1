/** Subtrees of a page table, and what removing one changes. */
module TableTrees {
  import opened Sv39
  import opened TableSteps
  import opened TableRelations

  /** Table j lies in the subtree of table k. */
  ghost predicate Under(k: Key, j: Key)
  {
    j.root == k.root && j.level <= k.level && Up(j.prefix, k.level - j.level) == k.prefix
  }

  /** Table j lies below one of the first i entries of table k. */
  ghost predicate Below(k: Key, i: nat, j: Key)
  {
    j.level < k.level && Under(k, j) && Up(j.prefix, k.level - 1 - j.level) % 512 < i
  }

  lemma BelowNext(k: Key, i: nat, j: Key)
    requires k.level > 0 && i < 512
    ensures Below(k, i + 1, j) <==> Below(k, i, j) || Under(Child(k, i), j)
  {
    if j.root == k.root && j.level < k.level {
      var x := Up(j.prefix, k.level - 1 - j.level);
      assert Up(j.prefix, k.level - j.level) == x / 512;
    }
  }

  lemma UnderOrSelf(k: Key, j: Key)
    ensures Under(k, j) <==> j == k || Below(k, 512, j)
  {
    if j.level == k.level {
      assert Up(j.prefix, 0) == j.prefix;
    }
  }

  lemma ChildrenBelow(k: Key, j: Key)
    requires Parent(j) == k
    ensures Below(k, 512, j)
  {
    assert Up(j.prefix, 0) == j.prefix && Up(j.prefix, 1) == Up(j.prefix, 0) / 512;
  }

  /** Every table above a table exists. */
  lemma {:induction false} AncestorExists(tabs: map<Key, nat>, c: Key, j: Key)
    requires Rooted(tabs) && j in tabs && Under(c, j) && c.level <= 2
    ensures c in tabs
    decreases c.level - j.level
  {
    if c.level > j.level {
      UpShift(j.prefix, c.level - j.level);
      AncestorExists(tabs, c, Parent(j));
    }
  }

  lemma {:induction false} UpShift(x: nat, n: nat)
    requires n > 0
    ensures Up(x, n) == Up(x / 512, n - 1)
  {
    if n > 1 {
      UpShift(x, n - 1);
    } else {
      assert Up(x, 1) == Up(x, 0) / 512;
    }
  }

  /** No page is mapped through the subtree of k. */
  ghost predicate Empty(s: St, k: Key)
  {
    forall vpn: nat :: Up(vpn, k.level + 1) == k.prefix ==> Lookup(s, k.root, vpn) == 0
  }

  /** No page is mapped through entry i of table k. */
  ghost predicate EmptyEntry(s: St, k: Key, i: nat)
  {
    forall vpn: nat :: Up(vpn, k.level) == k.prefix * 512 + i ==> Lookup(s, k.root, vpn) == 0
  }

  lemma EmptyEntries(s: St, k: Key)
    ensures Empty(s, k) <==> forall i: nat :: i < 512 ==> EmptyEntry(s, k, i)
  {
    hide Sv39.Lookup;
    forall vpn: nat ensures Up(vpn, k.level + 1) == Up(vpn, k.level) / 512 {
    }
    if forall i: nat :: i < 512 ==> EmptyEntry(s, k, i) {
      forall vpn: nat | Up(vpn, k.level + 1) == k.prefix ensures Lookup(s, k.root, vpn) == 0 {
        assert EmptyEntry(s, k, Up(vpn, k.level) % 512);
      }
    }
  }

  lemma EmptyEntryStays(s: St, t: St, k: Key, i: nat)
    requires SameLookups(s, t)
    ensures EmptyEntry(s, k, i) <==> EmptyEntry(t, k, i)
  {
    hide Sv39.Lookup;
  }

  lemma EntryIsChild(s: St, k: Key, i: nat)
    requires k.level > 0
    ensures EmptyEntry(s, k, i) <==> Empty(s, Child(k, i))
  {
    hide Sv39.Lookup;
  }

  /** An entry of a lowest-level table maps a page or nothing. */
  lemma LeafEntry(s: St, k: Key, i: nat)
    requires k.level == 0 && i < 512
    ensures Lookup(s, k.root, k.prefix * 512 + i) == Word(s, k, i)
    ensures EmptyEntry(s, k, i) <==> Word(s, k, i) == 0
  {
    assert Up(k.prefix * 512 + i, 0) == k.prefix * 512 + i;
  }

  lemma EmptyStays(s: St, t: St, k: Key)
    requires Empty(s, k) && SameLookups(s, t)
    ensures Empty(t, k)
  {
    hide Sv39.Lookup;
  }

  lemma EmptyLeafTable(s: St, k: Key, i: nat)
    requires Empty(s, k) && k.level == 0 && i < 512
    ensures Word(s, k, i) == 0
  {
    var vpn := k.prefix * 512 + i;
    assert Up(vpn, 1) == Up(vpn, 0) / 512;
    assert Lookup(s, k.root, vpn) == Word(s, Key(k.root, 0, vpn / 512), vpn % 512);
  }

  ghost predicate FelledOwners(s: St, t: St, gone: set<Key>)
    requires t.owner.Keys == s.owner.Keys
  {
    forall f :: f in s.owner ==>
      t.owner[f] == if s.owner[f].Table? && s.owner[f].key in gone then Free else s.owner[f]
  }

  /** The table pages of gone, and only those, went back to the allocator; the flat map is the same. */
  ghost predicate Felled(s: St, t: St, gone: set<Key>)
  {
    && t.owner.Keys == s.owner.Keys && t.mem.Keys == s.mem.Keys
    && gone <= s.tabs.Keys && t.tabs == s.tabs - gone
    && FelledOwners(s, t, gone) && DataKept(s, t) && SameLookups(s, t)
  }

  lemma FelledNothing(s: St)
    ensures Felled(s, s, {})
  {
    assert s.tabs - {} == s.tabs;
  }

  lemma FelledOn(s: St, t: St, u: St, a: set<Key>, b: set<Key>)
    requires Felled(s, t, a) && Felled(t, u, b)
    ensures Felled(s, u, a + b)
  {
    hide Sv39.Lookup;
    assert s.tabs - a - b == s.tabs - (a + b);
  }
}
