/** What a whole call of the page-table code changes, as relations between the states around it. */
module TableRelations {
  import opened Sv39
  import opened TableSteps

  /** perm | PTE_V */
  function WithV(perm: nat): (flags: nat)
    ensures V(flags) && (flags == perm || flags == perm + 1)
    ensures perm < 1024 ==> flags < 1024
  {
    if V(perm) then perm else perm + 1
  }

  lemma PteParts(ppn: nat, flags: nat)
    requires flags < 1024 && V(flags)
    ensures V(Pte(ppn, flags)) && Pte(ppn, flags) / 1024 == ppn && Pte(ppn, flags) % 1024 == flags
  {
    assert Pte(ppn, flags) == ppn * 512 * 2 + flags;
  }

  /** Existing tables stay where they are. */
  ghost predicate TabsGrew(s: St, t: St)
  {
    && t.owner.Keys == s.owner.Keys && t.mem.Keys == s.mem.Keys
    && forall k :: k in s.tabs ==> k in t.tabs && t.tabs[k] == s.tabs[k]
  }

  // ---- mappages: n consecutive pages onto n consecutive frames ----

  ghost predicate RunLookups(s: St, t: St, root: nat, vpn: nat, base: nat, n: nat, flags: nat)
  {
    forall r: nat, v: nat ::
      Lookup(t, r, v) == if r == root && vpn <= v < vpn + n then Pte(base + v - vpn, flags) else Lookup(s, r, v)
  }

  function RunOwner(o: Owner, f: nat, root: nat, vpn: nat, base: nat, n: nat, own: bool): Owner
  {
    if own && base <= f < base + n then Leaf(root, vpn + f - base) else o
  }

  ghost predicate RunOwners(s: St, t: St, root: nat, vpn: nat, base: nat, n: nat, own: bool)
    requires t.owner.Keys == s.owner.Keys
  {
    forall f :: f in s.owner ==>
      || t.owner[f] == RunOwner(s.owner[f], f, root, vpn, base, n, own)
      || (s.owner[f] == Free && t.owner[f].Table?)
  }

  ghost predicate PagesKept(s: St, t: St)
    requires t.owner.Keys == s.owner.Keys && t.mem.Keys == s.mem.Keys
  {
    forall f :: f in t.owner && f in s.mem && !t.owner[f].Table? ==> t.mem[f] == s.mem[f]
  }

  /** n pages from vpn now map the n frames from base; nothing else changed but added tables. */
  ghost predicate MappedRun(s: St, t: St, root: nat, vpn: nat, base: nat, n: nat, flags: nat, own: bool)
  {
    && TabsGrew(s, t)
    && RunLookups(s, t, root, vpn, base, n, flags)
    && RunOwners(s, t, root, vpn, base, n, own)
    && PagesKept(s, t)
  }

  /** The frames a run takes over are in the kernel's hands. */
  ghost predicate RunHeld(owner: map<nat, Owner>, base: nat, n: nat, own: bool)
  {
    own ==> forall f: nat :: base <= f < base + n ==> f in owner && owner[f] == Held
  }

  lemma RunOn(s: St, t: St, u: St, root: nat, vpn: nat, base: nat, n: nat, m: nat, flags: nat, own: bool)
    requires MappedRun(s, t, root, vpn, base, n, flags, own) && RunHeld(s.owner, base, n + m, own)
    requires MappedRun(t, u, root, vpn + n, base + n, m, flags, own)
    ensures MappedRun(s, u, root, vpn, base, n + m, flags, own)
  {
    hide Sv39.Lookup;
    assert RunLookups(s, u, root, vpn, base, n + m, flags);
    hide RunLookups;
  }

  lemma NoRun(s: St, root: nat, vpn: nat, base: nat, flags: nat, own: bool)
    ensures MappedRun(s, s, root, vpn, base, 0, flags, own)
  {
  }

  /** A run of one page: tables were added, then one leaf word was stored. */
  lemma OneRun(s: St, s1: St, root: nat, vpn: nat, f: nat, flags: nat, own: bool, owner: map<nat, Owner>)
    requires TabsGrew(s, s1) && SameLookups(s, s1) && RunOwners(s, s1, root, vpn, f, 0, own) && PagesKept(s, s1)
    requires Indexed(s1) && HasLeafTable(s1, root, vpn) && RunHeld(s.owner, f, 1, own)
    requires owner == if own then s1.owner[f := Leaf(root, vpn)] else s1.owner
    ensures MappedRun(s, WithLeaf(s1, root, vpn, Pte(f, flags), owner), root, vpn, f, 1, flags, own)
  {
    LeafLookups(s1, root, vpn, Pte(f, flags), owner);
    var p := s1.tabs[Key(root, 0, vpn / 512)];
    assert s1.owner[p] == Table(Key(root, 0, vpn / 512));
    hide Sv39.Lookup, Indexed;
  }

  // ---- uvmunmap: every page of a range ----

  ghost predicate CutLookups(s: St, t: St, root: nat, lo: nat, hi: nat)
  {
    forall r: nat, v: nat :: Lookup(t, r, v) == if r == root && lo <= v < hi then 0 else Lookup(s, r, v)
  }

  function CutOwner(o: Owner, root: nat, lo: nat, hi: nat, to: Owner): Owner
  {
    if o.Leaf? && o.root == root && lo <= o.vpn < hi then to else o
  }

  ghost predicate CutOwners(s: St, t: St, root: nat, lo: nat, hi: nat, to: Owner)
    requires t.owner.Keys == s.owner.Keys
  {
    forall f :: f in s.owner ==> t.owner[f] == CutOwner(s.owner[f], root, lo, hi, to)
  }

  ghost predicate DataKept(s: St, t: St)
    requires t.owner.Keys == s.owner.Keys && t.mem.Keys == s.mem.Keys
  {
    forall f :: f in t.owner && f in s.mem && (t.owner[f].Leaf? || t.owner[f] == Held) && t.owner[f] == s.owner[f] ==>
      t.mem[f] == s.mem[f]
  }

  /** The pages [lo, hi) are gone and the frames they owned passed to their new owner. */
  ghost predicate Cut(s: St, t: St, root: nat, lo: nat, hi: nat, to: Owner)
  {
    && TabsGrew(s, t) && t.tabs == s.tabs
    && CutLookups(s, t, root, lo, hi)
    && CutOwners(s, t, root, lo, hi, to)
    && DataKept(s, t)
  }

  lemma CutNothing(s: St, root: nat, lo: nat, to: Owner)
    ensures Cut(s, s, root, lo, lo, to)
  {
  }

  lemma CutOn(s: St, t: St, u: St, root: nat, lo: nat, mid: nat, hi: nat, to: Owner)
    requires Cut(s, t, root, lo, mid, to) && Cut(t, u, root, mid, hi, to) && lo <= mid <= hi
    requires to == Free || to == Held
    ensures Cut(s, u, root, lo, hi, to)
  {
    hide Sv39.Lookup;
  }

  // ---- uvmalloc and uvmcopy: new pages with given flags and contents ----

  datatype Image = Image(flags: nat, page: seq<nat>)

  ghost predicate BuiltPage(t: St, root: nat, v: nat, i: Image)
  {
    var w := Lookup(t, root, v);
    V(w) && w % 1024 == i.flags && w / 1024 in t.owner && w / 1024 in t.mem
    && t.owner[w / 1024] == Leaf(root, v) && t.mem[w / 1024] == i.page
  }

  ghost predicate BuiltLookups(s: St, t: St, root: nat, img: map<nat, Image>)
  {
    && (forall v :: v in img ==> BuiltPage(t, root, v, img[v]))
    && (forall r: nat, v: nat :: r != root || v !in img ==> Lookup(t, r, v) == Lookup(s, r, v))
  }

  ghost predicate BuiltOwners(s: St, t: St, root: nat, img: map<nat, Image>)
    requires t.owner.Keys == s.owner.Keys
  {
    forall f :: f in s.owner ==>
      || t.owner[f] == s.owner[f]
      || (s.owner[f] == Free && (t.owner[f].Table? || (t.owner[f].Leaf? && t.owner[f].root == root && t.owner[f].vpn in img)))
  }

  /** The pages of img are new, each on its own frame that was free; everything else is as it was. */
  ghost predicate Built(s: St, t: St, root: nat, img: map<nat, Image>)
  {
    && TabsGrew(s, t)
    && BuiltLookups(s, t, root, img)
    && BuiltOwners(s, t, root, img)
    && DataKept(s, t)
  }

  lemma BuiltNothing(s: St, root: nat)
    ensures Built(s, s, root, map[])
  {
  }

  lemma BuiltPageKept(t: St, u: St, root: nat, v: nat, i: Image)
    requires TabsGrew(t, u) && DataKept(t, u) && BuiltPage(t, root, v, i)
    requires Lookup(u, root, v) == Lookup(t, root, v)
    requires u.owner[Lookup(t, root, v) / 1024] == t.owner[Lookup(t, root, v) / 1024]
    ensures BuiltPage(u, root, v, i)
  {
    hide Sv39.Lookup;
  }

  lemma BuiltOnLookups(s: St, t: St, u: St, root: nat, a: map<nat, Image>, b: map<nat, Image>)
    requires Built(s, t, root, a) && Built(t, u, root, b) && a.Keys !! b.Keys
    ensures BuiltLookups(s, u, root, a + b)
  {
    hide Sv39.Lookup;
    forall v | v in a ensures BuiltPage(u, root, v, a[v]) {
      assert v !in b && BuiltPage(t, root, v, a[v]);
      BuiltPageKept(t, u, root, v, a[v]);
    }
  }

  lemma BuiltOn(s: St, t: St, u: St, root: nat, a: map<nat, Image>, b: map<nat, Image>)
    requires Built(s, t, root, a) && Built(t, u, root, b) && a.Keys !! b.Keys
    ensures Built(s, u, root, a + b)
  {
    BuiltOnLookups(s, t, u, root, a, b);
    hide BuiltLookups;
  }

  /** Unmapping everything that was built brings back the flat map of before. */
  lemma Undone(s: St, t: St, u: St, root: nat, img: map<nat, Image>, lo: nat, hi: nat)
    requires Built(s, t, root, img) && Cut(t, u, root, lo, hi, Free) && Backed(s)
    requires forall v :: v in img ==> lo <= v < hi
    requires forall v: nat :: lo <= v < hi ==> Lookup(s, root, v) == 0
    ensures Built(s, u, root, map[]) && SameLookups(s, u)
  {
    hide Sv39.Lookup;
    forall f | f in s.owner
      ensures u.owner[f] == s.owner[f] || (s.owner[f] == Free && u.owner[f].Table?)
    {
      assert s.owner[f].Leaf? ==> V(Lookup(s, s.owner[f].root, s.owner[f].vpn));
    }
  }
}
