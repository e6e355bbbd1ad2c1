/** free, morecore and malloc (umalloc.c): the circular, address-ordered free list. */
module Malloc {
  import opened HeapBlocks

  const HEADER: nat := 16   // sizeof(Header)

  // ---- the circular list ----

  function Next(ring: seq<nat>, i: nat): nat
    requires i < |ring|
  {
    if i + 1 < |ring| then ring[i + 1] else ring[0]
  }

  ghost predicate Links(ring: seq<nat>, ptr: map<nat, nat>)
  {
    forall i: nat :: i < |ring| ==> ring[i] in ptr && ptr[ring[i]] == Next(ring, i)
  }

  /** The last entry of the ring below bp. */
  ghost function Target(ring: seq<nat>, bp: nat): (t: nat)
    requires Ascending(ring) && BASE < bp
    ensures t < |ring| && ring[t] < bp && forall i :: t < i < |ring| ==> bp <= ring[i]
    decreases |ring|
  {
    if ring[|ring| - 1] < bp then |ring| - 1 else Target(ring[..|ring| - 1], bp)
  }

  /** Steps around the ring from j to t. */
  function Distance(j: nat, t: nat, n: nat): (d: nat)
    requires j < n && t < n
  {
    if j <= t then t - j else t - j + n
  }

  /** The entry after ring[..b], around the end if need be. */
  function After(ring: seq<nat>, b: nat): nat
    requires 0 < |ring| && b <= |ring|
  {
    if b < |ring| then ring[b] else ring[0]
  }

  /** Replacing ring[a..b] by head, with the three links that changes. */
  lemma LinksMerged(ring: seq<nat>, ptr: map<nat, nat>, ptr': map<nat, nat>, a: nat, b: nat, head: nat)
    requires Links(ring, ptr) && 0 < a <= b <= |ring|
    requires head in ptr' && ptr'[head] == After(ring, b)
    requires ring[a - 1] in ptr' && ptr'[ring[a - 1]] == head
    requires forall i: nat :: i < |ring| && (i + 1 < a || b <= i) ==> ring[i] in ptr' && ptr'[ring[i]] == ptr[ring[i]]
    ensures Links(ring[..a] + [head] + ring[b..], ptr')
  {
    var r := ring[..a] + [head] + ring[b..];
    forall i: nat | i < |r| ensures r[i] in ptr' && ptr'[r[i]] == Next(r, i) {
      if i + 1 < a {
        assert r[i] == ring[i] && r[i + 1] == ring[i + 1];
      } else if i > a {
        assert r[i] == ring[i - a - 1 + b];
      }
    }
  }

  lemma LinksTaken(ring: seq<nat>, ptr: map<nat, nat>, i: nat)
    requires Links(ring, ptr) && Ascending(ring) && 0 < i < |ring|
    ensures Links(ring[..i] + ring[i + 1..], ptr[ring[i - 1] := ptr[ring[i]]])
  {
    var r, q := ring[..i] + ring[i + 1..], ptr[ring[i - 1] := ptr[ring[i]]];
    forall k: nat | k < |r| ensures r[k] in q && q[r[k]] == Next(r, k) {
      var o := if k < i then k else k + 1;
      assert r[k] == ring[o] && (o != i - 1 ==> ring[o] != ring[i - 1]);
    }
  }

  /** The size field of a header that is neither free nor live does not matter. */
  lemma StaleSizes(h: Heap, size: map<nat, nat>)
    requires Inv(h) && forall b :: b in h.ring || b in h.live ==> b in size && b in h.size && size[b] == h.size[b]
    ensures Inv(h.(size := size))
  {
    var t := h.(size := size);
    forall u | u in t.cell ensures CellOk(t, u, t.cell[u]) {
      assert CellOk(h, u, h.cell[u]);
    }
    forall x, u | IsFree(t, x) && Inside(t, x, u) ensures u in t.cell && t.cell[u] == InFree(x) {
      assert IsFree(h, x) && Inside(h, x, u);
    }
    forall x, u | x in t.live && Inside(t, x, u) ensures u in t.cell && t.cell[u] == InLive(x) {
      assert x in h.live && Inside(h, x, u);
    }
    forall i: nat | i + 1 < |t.ring| ensures Gap(t, t.ring[i], t.ring[i + 1]) {
      assert Gap(h, h.ring[i], h.ring[i + 1]);
      assert h.ring[i] in h.ring;
    }
  }

  // ---- where a freed block fits ----

  /** A live block lies strictly between its neighbours in the ring. */
  lemma Between(h: Heap, bp: nat)
    requires Inv(h) && bp in h.live
    ensures bp > BASE && bp !in h.ring && bp in h.size && h.size[bp] > 0
    ensures var t := Target(h.ring, bp);
      && h.ring[t] in h.size && h.ring[t] + h.size[h.ring[t]] <= bp
      && (t + 1 < |h.ring| ==> bp + h.size[bp] <= h.ring[t + 1])
  {
    assert Inside(h, bp, bp) && CellOk(h, bp, h.cell[bp]);
    assert bp in h.ring ==> IsFree(h, bp) && Inside(h, bp, bp);
    var t := Target(h.ring, bp);
    var p: nat := h.ring[t];
    assert p in h.ring;
    if p != BASE && p + h.size[p] > bp {
      assert IsFree(h, p) && Inside(h, p, bp);
    }
    if t + 1 < |h.ring| {
      var nx := h.ring[t + 1];
      assert nx in h.ring && nx > BASE && IsFree(h, nx) && Inside(h, nx, nx);
      assert bp + h.size[bp] > nx ==> Inside(h, bp, nx);
    }
  }

  /** The four ways a freed block joins its neighbours. */
  lemma MergeCases(h: Heap, bp: nat)
    requires Inv(h) && bp in h.live
    ensures bp > BASE && bp in h.size
    ensures var t := Target(h.ring, bp);
      var p, sz := h.ring[t], h.size[bp];
      var up, down := t + 1 < |h.ring| && bp + sz == h.ring[t + 1], p in h.size && p + h.size[p] == bp;
      && p in h.size && (up ==> h.ring[t + 1] in h.size)
      && (down ==> t > 0)
      && Merges(h, if down then t else t + 1, if up then t + 2 else t + 1, if down then p else bp,
                (if down then h.size[p] else 0) + sz + (if up then h.size[h.ring[t + 1]] else 0), bp)
  {
    Between(h, bp);
    var t := Target(h.ring, bp);
    var p, sz := h.ring[t], h.size[bp];
    assert h.ring[t] in h.ring;
    if t + 1 < |h.ring| {
      assert h.ring[t + 1] in h.ring && h.ring[0] < h.ring[t + 1];
    }
    if p + h.size[p] == bp {
      assert t > 0;
      MergeDown(h, bp, t);
    } else {
      MergeUp(h, bp, t);
    }
  }

  lemma MergeUp(h: Heap, bp: nat, t: nat)
    requires Inv(h) && bp in h.live && bp > BASE && t == Target(h.ring, bp) && bp in h.size && h.size[bp] > 0
    requires h.ring[t] in h.size && h.ring[t] + h.size[h.ring[t]] < bp
    requires t + 1 < |h.ring| ==> bp + h.size[bp] <= h.ring[t + 1] && h.ring[t + 1] in h.size
    ensures var up := t + 1 < |h.ring| && bp + h.size[bp] == h.ring[t + 1];
      Merges(h, t + 1, if up then t + 2 else t + 1, bp, h.size[bp] + (if up then h.size[h.ring[t + 1]] else 0), bp)
  {
    var up := t + 1 < |h.ring| && bp + h.size[bp] == h.ring[t + 1];
    var b, n := if up then t + 2 else t + 1, h.size[bp] + (if up then h.size[h.ring[t + 1]] else 0);
    if up && t + 2 < |h.ring| {
      assert Gap(h, h.ring[t + 1], h.ring[t + 1 + 1]);
    }
    hide Inv, Target;
    forall u: nat ensures bp <= u < bp + n <==> Inside(h, bp, u) || InSome(h, t + 1, b, u) {
      assert up && Inside(h, h.ring[t + 1], u) ==> InSome(h, t + 1, b, u);
    }
  }

  lemma MergeDown(h: Heap, bp: nat, t: nat)
    requires Inv(h) && bp in h.live && bp > BASE && t == Target(h.ring, bp) && t > 0 && bp in h.size && h.size[bp] > 0
    requires h.ring[t] in h.size && h.ring[t] + h.size[h.ring[t]] == bp
    requires t + 1 < |h.ring| ==> bp + h.size[bp] <= h.ring[t + 1] && h.ring[t + 1] in h.size
    ensures var up := t + 1 < |h.ring| && bp + h.size[bp] == h.ring[t + 1];
      Merges(h, t, if up then t + 2 else t + 1, h.ring[t],
             h.size[h.ring[t]] + h.size[bp] + (if up then h.size[h.ring[t + 1]] else 0), bp)
  {
    var up := t + 1 < |h.ring| && bp + h.size[bp] == h.ring[t + 1];
    var p: nat := h.ring[t];
    var b, n := if up then t + 2 else t + 1, h.size[p] + h.size[bp] + (if up then h.size[h.ring[t + 1]] else 0);
    assert Gap(h, h.ring[t - 1], h.ring[t - 1 + 1]);
    if up && t + 2 < |h.ring| {
      assert Gap(h, h.ring[t + 1], h.ring[t + 1 + 1]);
    }
    hide Inv, Target;
    forall u: nat ensures p <= u < p + n <==> Inside(h, bp, u) || InSome(h, t, b, u) {
      assert Inside(h, p, u) ==> InSome(h, t, b, u);
      assert up && Inside(h, h.ring[t + 1], u) ==> InSome(h, t, b, u);
    }
  }

  class Allocator {
    var ptr: map<nat, nat>      // s.ptr of each header
    var size: map<nat, nat>     // s.size of each header
    var freep: nat              // 0 until the first malloc
    var brk: nat                // end of the heap, in units
    ghost var ring: seq<nat>
    ghost var live: set<nat>
    ghost var cell: map<nat, Cell>

    ghost function H(): Heap
      reads this
    {
      Heap(ring, size, live, cell)
    }

    /** The list is in order: what the allocator takes for its heap is tiled by its blocks. */
    ghost predicate Listed()
      reads this
    {
      freep in ring && Links(ring, ptr) && Inv(H())
    }

    /** The list is in order, and all of the heap lies below the break, in memory the kernel granted. */
    ghost predicate Ready()
      reads this
    {
      Listed() && BASE < brk && forall u :: u in cell ==> u < brk
    }

    ghost predicate Valid()
      reads this
    {
      if freep == 0 then ring == [] && live == {} && cell == map[] && BASE < brk else Ready()
    }

    /** A program starts with an empty heap above its data. */
    constructor (brk: nat)
      requires BASE < brk
      ensures Valid() && live == {} && cell == map[]
    {
      ptr, size, freep := map[], map[], 0;
      this.brk := brk;
      ring, live, cell := [], {}, map[];
    }

    /** free's search: it ends at the block below bp, wherever freep starts it. */
    method Search(bp: nat) returns (p: nat, ghost t: nat)
      requires Listed() && bp in live
      ensures bp > BASE && Ascending(ring) && t == Target(ring, bp) && p == ring[t]
    {
      Between(H(), bp);
      t := Target(ring, bp);
      hide Sizes, Tiled, Gapped, Target;
      p := freep;
      ghost var j :| 0 <= j < |ring| && ring[j] == p;
      while !(bp > p && bp < ptr[p])
        invariant 0 <= j < |ring| && ring[j] == p
        decreases Distance(j, t, |ring|)
      {
        NotYet(ring, ptr, bp, j, t);
        if p >= ptr[p] && (bp > p || bp < ptr[p]) {
          break;
        }
        p := ptr[p];
        j := if j + 1 < |ring| then j + 1 else 0;
      }
      Arrived(ring, ptr, bp, j, t);
    }

    /** The assignments of free, once its place is found. */
    method Relink(bp: nat, p: nat)
      requires p in ptr && bp in size && p in size && bp != p
      requires bp + size[bp] == ptr[p] ==> ptr[p] in size && ptr[p] in ptr && ptr[p] != bp && ptr[p] != p
      modifies this`ptr, this`size, this`freep
      ensures freep == p
      ensures Relinked(old(ptr), old(size), ptr, size, bp, p)
    {
      if bp + size[bp] == ptr[p] {
        size := size[bp := size[bp] + size[ptr[p]]];
        ptr := ptr[bp := ptr[ptr[p]]];
      } else {
        ptr := ptr[bp := ptr[p]];
      }
      if p + size[p] == bp {
        size := size[p := size[p] + size[bp]];
        ptr := ptr[p := ptr[bp]];
      } else {
        ptr := ptr[p := bp];
      }
      freep := p;
    }

    /**
     free: the block joins the list at its place in address order, merged with the free blocks it
     touches. No other live block is affected and no unit is lost.
     */
    method Free(ap: nat) returns (ghost k: nat)
      requires Listed() && ap > 0 && ap - 1 in live
      modifies this`ptr, this`size, this`freep, this`ring, this`live, this`cell
      ensures Listed() && (old(Ready()) ==> Ready()) && Released(old(H()), H(), ap - 1) && ap - 1 in old(size)
      ensures 0 < k < |ring| && ring[k] in size && size[ring[k]] >= old(size)[ap - 1]
      ensures ap - 1 + old(size)[ap - 1] !in old(ring) ==> ring[k] + size[ring[k]] == ap - 1 + old(size)[ap - 1]
      ensures OthersAsBefore(old(H()), H(), k)
    {
      hide Inv, Target, Links, Released, Ascending, OthersAsBefore;
      var bp := ap - 1;
      ghost var h, links := H(), ptr;
      ghost var t, c;
      var p;
      p, t := Search(bp);
      BeforeFree(h, links, bp, t);
      Relink(bp, p);
      c, k := FreeResult(h, links, ptr, size, bp, t);
      ring, live, cell := c.ring, c.live, c.cell;
      KeysOf(h, c, bp);
    }

    /**
     sbrk of n bytes, after others moved the break up by gap units: the old break, or 0 for an error.
     Only growth can fail, and only growth moves the break up.
     */
    method Sbrk(n: int, granted: bool, gap: nat) returns (p: nat)
      modifies this`brk
      ensures n > 0 && !granted ==> p == 0 && brk == old(brk) + gap
      ensures n <= 0 || granted ==> p == old(brk) + gap && brk == BreakAfter(p, n)
    {
      brk := brk + gap;
      p := brk;
      if n > 0 {
        if !granted {
          return 0;
        }
        brk := brk + n / HEADER;
      } else if n < 0 && brk + n / HEADER >= 0 {
        brk := brk + n / HEADER;
      }
    }

    /**
     morecore: one block of at least nu units joins the list, ending where the new units end. They are
     granted units exactly if the byte count survives being passed as an int. The block's header is
     written where the old break was: if the break did not move up, that kills the process unless the
     page there happens to be in memory.
     */
    method Morecore(nu: nat, granted: bool, gap: nat, mapped: bool) returns (p: nat, ghost k: nat, crashed: bool)
      requires Ready() && nu > 0
      modifies this
      ensures Listed() && Kept(old(H()), H())
      ensures crashed <==> Crashes(nu, granted, old(brk) + gap, mapped)
      ensures crashed ==> p == 0
      ensures !Refused(nu, granted) && !crashed ==>
        && p == freep && p != 0 && BigAt(H(), k, nu) && OthersAsBefore(old(H()), H(), k)
        && ring[k] + size[ring[k]] == old(brk) + gap + Asked(nu)
        && brk == BreakAfter(old(brk) + gap, AsInt(SbrkBytes(nu)))
      ensures Refused(nu, granted) ==> p == 0 && H() == old(H()) && freep == old(freep) && Ready()
      ensures SbrkBytes(nu) < INT_MAX ==> Ready()
    {
      hide Inv, Links, Kept, Released, Grown, OthersAsBefore, AsInt, BreakAfter;
      var units := if nu < 4096 then 4096 else nu;
      ghost var h := H();
      FitsNeverCrash(nu, granted, brk + gap, mapped);
      var hp := Sbrk(AsInt(units * HEADER), granted, gap);
      k := 0;
      crashed := false;
      KeptSame(h);
      if hp == 0 {
        return 0, k, crashed;
      }
      if hp >= brk && !mapped {
        return 0, k, true;
      }
      GrowKeepsInv(h, hp, units);
      GrownKeeps(h, hp, units);
      NothingAbove(h, hp, units);
      size := size[hp := units];
      live := live + {hp};
      cell := cell + Region(hp, units);
      k := Free(hp + 1);
      KeptThrough(h, Grown(h, hp, units), H(), hp, units);
      AsBeforeGrown(h, hp, units, H(), k);
      p := freep;
      RingPositive(H(), p);
      KeysOf(Grown(h, hp, units), H(), hp);
      if SbrkBytes(nu) < INT_MAX {
        GrantedUnits(hp, nu);
      }
    }

    /** Hand out nunits of the free block p: all of it, or its tail. */
    method TakeFrom(prevp: nat, p: nat, nunits: nat) returns (ap: nat)
      requires Listed() && p in size && size[p] >= nunits > 0
      requires exists i: nat :: 0 < i < |ring| && p == ring[i] && prevp == ring[i - 1]
      modifies this`ptr, this`size, this`freep, this`ring, this`live, this`cell
      ensures Listed() && cell.Keys == old(cell).Keys
      ensures ap > 0 && Given(old(H()), H(), ap - 1, nunits) && ap - 1 + nunits == p + old(size)[p]
    {
      hide Inv, Links, Given, Taken, Carved;
      ghost var i: nat :| 0 < i < |ring| && p == ring[i] && prevp == ring[i - 1];
      ghost var h := H();
      IsFreeAt(h, i);
      NextOf(ring, ptr, i);
      if size[p] == nunits {
        TakeKeepsInv(h, i);
        LinksTaken(ring, ptr, i);
        GivenWhole(h, i);
        ptr := ptr[prevp := ptr[p]];
        ghost var t := Taken(h, i);
        ring, live, cell := t.ring, t.live, t.cell;
        ap := p + 1;
      } else {
        CarveKeepsInv(h, p, nunits);
        GivenTail(h, p, nunits);
        size := size[p := size[p] - nunits];
        var q := p + size[p];
        size := size[q := nunits];
        ghost var t := Carved(h, p, nunits);
        live, cell := t.live, t.cell;
        ap := q + 1;
      }
      freep := prevp;
    }

    /** The first malloc makes base a list of its own. */
    method FirstUse()
      requires Valid()
      modifies this`ptr, this`size, this`freep, this`ring
      ensures Ready() && live == old(live) && cell == old(cell)
      ensures old(freep) != 0 ==> H() == old(H()) && freep == old(freep)
      ensures forall n: nat :: n > 0 ==> (HasBig(H(), n) <==> HasBig(old(H()), n))
      ensures forall b :: b in live ==> b in size && b in old(size) && size[b] == old(size)[b]
    {
      if freep == 0 {
        ptr := ptr[BASE := BASE];
        size := size[BASE := 0];
        freep := BASE;
        ring := [BASE];
      } else {
        LiveSized(H());
      }
    }

    /**
     malloc: a live block whose payload holds nbytes, made of units that were free or new. It asks
     for more memory once if no free block is big enough, and fails exactly when that is refused. The
     block lies in memory the kernel granted exactly if one of three things holds: a free block was big
     enough, more memory was refused, or the request is at most 2^31 - 32 bytes, so that its byte count
     fits the int that sbrk takes. Beyond that the process may be killed writing the block's header.
     */
    method Malloc(nbytes: nat, granted: bool, gap: nat, mapped: bool) returns (ap: nat, ghost calls: nat, crashed: bool)
      requires Valid() && nbytes < 0x1_0000_0000
      modifies this
      ensures Listed() && calls == if HasBig(old(H()), NUnits(nbytes)) then 0 else 1
      ensures crashed <==> calls == 1 && Crashes(NUnits(nbytes), granted, old(brk) + gap, mapped)
      ensures ap == 0 <==> crashed || (calls == 1 && Refused(NUnits(nbytes), granted))
      ensures ap == 0 ==> Kept(old(H()), H())
      ensures ap > 0 ==> Given(old(H()), H(), ap - 1, NUnits(nbytes))
      ensures var fits := calls == 0 || Refused(NUnits(nbytes), granted) || nbytes <= INT_MAX - 2 * HEADER;
        && (!crashed ==> (fits <==> (ap > 0 ==> ap - 1 + NUnits(nbytes) <= brk)))
        && (fits ==> Ready() && !crashed)
    {
      hide Inv, Links, Kept, Given, Scanning, HasBig, OnlyBig, Refused, SbrkBytes, NUnits, Asked, BreakAfter, AsInt, BigAt,
        OthersAsBefore, Crashes;
      RequestFits(nbytes);
      FitsNeverCrash(NUnits(nbytes), granted, brk + gap, mapped);
      ghost var h0, b0 := H(), brk;
      crashed := false;
      var nunits := NUnits(nbytes);
      FirstUse();
      StartsKept(h0, H());
      ghost var hp: nat := 0;
      calls := 0;
      var prevp := freep;
      ghost var k: nat, big: nat := 0, 0;
      var p := FollowLink(prevp, nunits);
      while true
        invariant Listed() && Kept(h0, H()) && calls <= 1 && (calls == 0 ==> brk == b0) && !crashed
        invariant calls == 1 ==> !Crashes(nunits, granted, b0 + gap, mapped)
        invariant Scanning(H(), freep, k, prevp, p, nunits)
        invariant calls == 0 ==> Ready() && (HasBig(H(), nunits) <==> HasBig(h0, nunits))
        invariant calls == 1 ==> OnlyBig(H(), big, nunits, hp + Asked(nunits))
        invariant calls == 1 ==> !HasBig(h0, nunits) && !Refused(nunits, granted)
        invariant calls == 1 ==> brk == BreakAfter(hp, AsInt(SbrkBytes(nunits)))
        invariant calls == 1 && SbrkBytes(nunits) < INT_MAX ==> Ready()
        decreases 1 - calls, |ring| - k
      {
        ScannedSize(H(), freep, k, prevp, p, nunits);
        if size[p] >= nunits {
          ghost var g := H();
          FoundBig(g, prevp, p, nunits);
          if calls == 1 {
            TheBig(g, big, nunits, hp + Asked(nunits), p);
          }
          ap := TakeFrom(prevp, p, nunits);
          GivenAfter(h0, g, H(), ap - 1, nunits);
          GivenInside(h0, H(), ap - 1, nunits);
          if calls == 1 {
            GrantedEnd(nbytes, hp);
          }
          return;
        }
        if p == freep {
          if calls == 1 {
            OnlyIsBig(H(), big, nunits, hp + Asked(nunits));
          }
          NoBig(H(), freep, k, prevp, p, nunits);
          ghost var g, b := H(), brk;
          p, big, crashed := Morecore(nunits, granted, gap, mapped);
          calls := calls + 1;
          KeptTwice(h0, g, H());
          if p == 0 {
            return 0, calls, crashed;
          }
          hp := b + gap;
          BecomesOnly(g, H(), big, nunits, hp + Asked(nunits));
          k := 0;
          prevp := p;
          p := FollowLink(prevp, nunits);
        } else {
          ScanOn(H(), ptr, freep, k, prevp, p, nunits);
          k := k + 1;
          prevp, p := p, ptr[p];
        }
      }
    }

    /** The scan starts at the entry after freep. */
    method FollowLink(p: nat, ghost nunits: nat) returns (q: nat)
      requires Listed() && p == freep
      ensures Scanning(H(), freep, 0, p, q, nunits)
    {
      ghost var i: nat :| i < |ring| && ring[i] == p;
      NextOf(ring, ptr, i);
      q := ptr[p];
      assert ScanningFrom(H(), i, freep, 0, p, q, nunits);
    }
  }

  /** Away from the target, free's search goes on. */
  lemma NotYet(ring: seq<nat>, ptr: map<nat, nat>, bp: nat, j: nat, t: nat)
    requires Ascending(ring) && Links(ring, ptr) && BASE < bp && bp !in ring && t == Target(ring, bp) && j < |ring|
    ensures ring[j] in ptr
    ensures ring[j] >= ptr[ring[j]] && (bp > ring[j] || bp < ptr[ring[j]]) ==> j == t
    ensures j == t && !(bp > ring[j] && bp < ptr[ring[j]]) ==> ring[j] >= ptr[ring[j]] && bp > ring[j]
  {
    hide Target;
    assert ptr[ring[j]] == Next(ring, j);
    assert j + 1 < |ring| ==> ring[j] < ring[j + 1];
  }

  lemma Arrived(ring: seq<nat>, ptr: map<nat, nat>, bp: nat, j: nat, t: nat)
    requires Ascending(ring) && Links(ring, ptr) && BASE < bp && bp !in ring && t == Target(ring, bp) && j < |ring|
    requires ring[j] in ptr
    requires (bp > ring[j] && bp < ptr[ring[j]]) || (ring[j] >= ptr[ring[j]] && (bp > ring[j] || bp < ptr[ring[j]]))
    ensures j == t
  {
    NotYet(ring, ptr, bp, j, t);
    hide Target;
    assert ptr[ring[j]] == Next(ring, j);
  }

  /** Block bp is free; every other live block keeps its size and its units, and the heap its extent. */
  ghost predicate Released(h: Heap, t: Heap, bp: nat)
  {
    && t.live == h.live - {bp} && t.cell.Keys == h.cell.Keys
    && (forall b :: b in t.live ==> b in t.size && b in h.size && t.size[b] == h.size[b])
    && (forall u :: u in h.cell && h.cell[u] == InLive(bp) ==> t.cell[u].InFree?)
    && (forall u :: u in h.cell && h.cell[u] != InLive(bp) ==> t.cell[u].InFree? == h.cell[u].InFree?)
    && (forall u :: u in h.cell && h.cell[u] != InLive(bp) && h.cell[u].InLive? ==> t.cell[u] == h.cell[u])
  }

  lemma NextOf(ring: seq<nat>, ptr: map<nat, nat>, t: nat)
    requires Links(ring, ptr) && Ascending(ring) && t < |ring|
    ensures ring[0] == BASE && ring[t] in ptr && ptr[ring[t]] == Next(ring, t)
    ensures t + 1 < |ring| ==> ring[t + 1] in ptr && ptr[ring[t + 1]] == Next(ring, t + 1)
  {
  }

  /** The links free's assignments leave behind when bp does not join the block below. */
  lemma LinksAbove(ring: seq<nat>, ptr: map<nat, nat>, bp: nat, t: nat, b: nat)
    requires Ascending(ring) && Links(ring, ptr) && bp !in ring && t < b <= |ring|
    ensures Links(ring[..t + 1] + [bp] + ring[b..], ptr[bp := After(ring, b)][ring[t] := bp])
  {
    var p: nat := ring[t];
    var ptr' := ptr[bp := After(ring, b)][p := bp];
    assert p in ring;
    hide After;
    forall i: nat | i < |ring| && (i < t || b <= i) ensures ring[i] in ptr' && ptr'[ring[i]] == ptr[ring[i]] {
      assert ring[i] in ring && ring[i] != p;
      assert ptr[ring[i]] == Next(ring, i);
    }
    hide Links;
    LinksMerged(ring, ptr, ptr', t + 1, b, bp);
  }

  /** The links when bp joins the block below. */
  lemma LinksBelow(ring: seq<nat>, ptr: map<nat, nat>, bp: nat, t: nat, b: nat)
    requires Ascending(ring) && Links(ring, ptr) && bp !in ring && 0 < t < b <= |ring|
    ensures Links(ring[..t] + [ring[t]] + ring[b..], ptr[bp := After(ring, b)][ring[t] := After(ring, b)])
  {
    var p: nat := ring[t];
    var ptr' := ptr[bp := After(ring, b)][p := After(ring, b)];
    forall i: nat | i < |ring| && (i < t || b <= i) ensures ring[i] in ptr' && ptr'[ring[i]] == ptr[ring[i]] {
      assert ring[i] in ring && ring[i] != p;
    }
    assert ptr[ring[t - 1]] == Next(ring, t - 1);
    LinksMerged(ring, ptr, ptr', t, b, p);
  }

  lemma BeforeFree(h: Heap, ptr: map<nat, nat>, bp: nat, t: nat)
    requires Inv(h) && Links(h.ring, ptr) && bp in h.live && BASE < bp && t == Target(h.ring, bp)
    ensures bp in h.size && h.ring[t] in h.size && h.ring[t] in ptr && h.ring[t] != bp
    ensures var p, nx := h.ring[t], ptr[h.ring[t]];
      bp + h.size[bp] == nx ==> nx in h.size && nx in ptr && nx != bp && nx != p
  {
    Between(h, bp);
    MergeCases(h, bp);
    NextOf(h.ring, ptr, t);
    assert h.ring[0] <= h.ring[t];
    hide Inv, Target, Merges;
  }

  /** The assignments of free on the list, where p is the block below bp. */
  ghost predicate Relinked(ptr: map<nat, nat>, size: map<nat, nat>, ptr': map<nat, nat>, size': map<nat, nat>, bp: nat, p: nat)
  {
    && p in ptr && bp in size && p in size
    && var nx, up, down := ptr[p], bp + size[bp] == ptr[p], p + size[p] == bp;
       && (up ==> nx in ptr && nx in size)
       && var far := if up then ptr[nx] else nx;
          var joined := size[bp] + if up then size[nx] else 0;
          && ptr' == ptr[bp := far][p := if down then far else bp]
          && (down ==> p in size' && size'[p] == size[p] + joined)
          && (!down ==> bp in size' && size'[bp] == joined)
          && forall x :: x in size && x != bp && (!down || x != p) ==> x in size' && size'[x] == size[x]
  }

  /** The heap free leaves behind: bp and its free neighbours are one block, the k-th of the list. */
  lemma FreeResult(h: Heap, ptr: map<nat, nat>, ptr': map<nat, nat>, size': map<nat, nat>, bp: nat, t: nat)
    returns (c: Heap, k: nat)
    requires Inv(h) && Ascending(h.ring) && Links(h.ring, ptr) && bp in h.live && BASE < bp && t == Target(h.ring, bp)
    requires Relinked(ptr, h.size, ptr', size', bp, h.ring[t])
    ensures Inv(c) && c.size == size' && Links(c.ring, ptr') && Released(h, c, bp) && h.ring[t] in c.ring
    ensures 0 < k < |c.ring| && c.ring[k] in size' && size'[c.ring[k]] >= h.size[bp]
    ensures bp + h.size[bp] !in h.ring ==> c.ring[k] + size'[c.ring[k]] == bp + h.size[bp]
    ensures OthersAsBefore(h, c, k)
  {
    hide Inv, Target, Links, Merges, Released, Coalesced, Ascending, OthersAsBefore;
    Between(h, bp);
    MergeCases(h, bp);
    NextOf(h.ring, ptr, t);
    var p: nat := h.ring[t];
    var up, down := t + 1 < |h.ring| && bp + h.size[bp] == h.ring[t + 1], p + h.size[p] == bp;
    var b := if up then t + 2 else t + 1;
    var n := (if down then h.size[p] else 0) + h.size[bp] + (if up then h.size[h.ring[t + 1]] else 0);
    k := if down then t else t + 1;
    assert up <==> bp + h.size[bp] == ptr[p];
    assert up ==> h.ring[t + 1] in h.ring;
    var head := if down then p else bp;
    FreedHeap(h, k, b, head, n, bp, size');
    if down {
      LinksBelow(h.ring, ptr, bp, t, b);
    } else {
      LinksAbove(h.ring, ptr, bp, t, b);
    }
    CoalescedShape(h, k, b, head, n, bp, t);
    OthersFreed(h, size', k, b, head, n, bp);
    c := Coalesced(h, k, b, head, n, bp).(size := size');
  }

  /** Up to stale size fields, free makes the coalesced heap. */
  lemma FreedHeap(h: Heap, a: nat, b: nat, head: nat, n: nat, bp: nat, size: map<nat, nat>)
    requires Inv(h) && Merges(h, a, b, head, n, bp) && bp !in h.ring && head in size && size[head] == n
    requires forall x :: x in h.size && x != bp && x != head ==> x in size && size[x] == h.size[x]
    ensures var c := Coalesced(h, a, b, head, n, bp).(size := size);
      Inv(c) && Released(h, c, bp) && c.cell.Keys == h.cell.Keys && a < |c.ring| && c.ring[a] == head
  {
    var c := Coalesced(h, a, b, head, n, bp);
    CoalesceKeepsInv(h, a, b, head, n, bp);
    CoalescedReleased(h, a, b, head, n, bp);
    CoalescedRing(h, a, b, head, n, bp);
    assert bp in c.ring ==> head == bp by {
      assert bp !in h.ring[..a] && bp !in h.ring[b..];
    }
    hide Inv, Merges;
    KeptSizes(h, c, head, n, bp, size);
    StaleSizes(c, size);
  }

  lemma KeptSizes(h: Heap, c: Heap, head: nat, n: nat, bp: nat, size: map<nat, nat>)
    requires Inv(c) && c.size == h.size[head := n] && bp !in c.live && (bp in c.ring ==> head == bp)
    requires head in size && size[head] == n
    requires forall b :: b in h.size && b != bp && b != head ==> b in size && size[b] == h.size[b]
    ensures forall b :: b in c.ring || b in c.live ==> b in size && b in c.size && size[b] == c.size[b]
  {
  }

  lemma CoalescedReleased(h: Heap, a: nat, b: nat, head: nat, n: nat, bp: nat)
    requires Inv(h) && Merges(h, a, b, head, n, bp)
    ensures Released(h, Coalesced(h, a, b, head, n, bp), bp)
  {
    HeadIsNoOther(h, a, b, head, n, bp);
    var t := Coalesced(h, a, b, head, n, bp);
    forall u | u in h.cell
      ensures h.cell[u] == InLive(bp) ==> t.cell[u].InFree?
      ensures h.cell[u] != InLive(bp) ==> t.cell[u].InFree? == h.cell[u].InFree?
      ensures h.cell[u] != InLive(bp) && h.cell[u].InLive? ==> t.cell[u] == h.cell[u]
    {
      MergedUnit(h, a, b, head, n, bp, u);
    }
    hide Tiled, Gapped, Ascending;
  }

  lemma CoalescedShape(h: Heap, a: nat, b: nat, head: nat, n: nat, bp: nat, t: nat)
    requires a <= b <= |h.ring| && t < |h.ring| && (t < a || (t == a && head == h.ring[t]))
    ensures Coalesced(h, a, b, head, n, bp).ring == h.ring[..a] + [head] + h.ring[b..]
    ensures h.ring[t] in Coalesced(h, a, b, head, n, bp).ring
  {
    var r := Coalesced(h, a, b, head, n, bp).ring;
    assert r[t] == h.ring[t];
  }

  // ---- malloc ----

  const INT_MAX: nat := 0x8000_0000

  /** What morecore asks of sbrk, whose argument is a C int. */
  function SbrkBytes(nu: nat): nat
  {
    Asked(nu) * HEADER
  }

  /** The units morecore asks for. */
  function Asked(nu: nat): nat
  {
    if nu < 4096 then 4096 else nu
  }

  /** growproc's arithmetic on the break, in units: a shrink past zero wraps and leaves the break alone. */
  function BreakAfter(brk: nat, n: int): nat
  {
    if brk + n / HEADER >= 0 then brk + n / HEADER else brk
  }

  /** The kernel refuses to grow the process for morecore. */
  predicate Refused(nu: nat, granted: bool)
  {
    AsInt(SbrkBytes(nu)) > 0 && !granted
  }

  /** The header is written at hp although the break did not move up past it, and nothing is mapped there. */
  predicate Crashes(nu: nat, granted: bool, hp: nat, mapped: bool)
  {
    !Refused(nu, granted) && BreakAfter(hp, AsInt(SbrkBytes(nu))) <= hp && !mapped
  }

  lemma FitsNeverCrash(nu: nat, granted: bool, hp: nat, mapped: bool)
    requires nu > 0
    ensures SbrkBytes(nu) < INT_MAX || Refused(nu, granted) ==> !Crashes(nu, granted, hp, mapped)
  {
    if SbrkBytes(nu) < INT_MAX {
      GrantedUnits(hp, nu);
    }
  }

  /** Every free block but the k-th was free before, with the same size. */
  ghost predicate OthersAsBefore(h: Heap, t: Heap, k: nat)
  {
    forall i: nat :: i < |t.ring| && i != k ==>
      t.ring[i] in h.ring && t.ring[i] in h.size && t.ring[i] in t.size && t.size[t.ring[i]] == h.size[t.ring[i]]
  }

  lemma OthersFreed(h: Heap, size: map<nat, nat>, a: nat, b: nat, head: nat, n: nat, bp: nat)
    requires Inv(h) && Merges(h, a, b, head, n, bp) && bp !in h.ring
    requires forall x :: x in h.size && x != bp && x != head ==> x in size && size[x] == h.size[x]
    ensures forall live, cell :: OthersAsBefore(h, Heap(h.ring[..a] + [head] + h.ring[b..], size, live, cell), a)
  {
    CoalescedRing(h, a, b, head, n, bp);
    hide Tiled, Gapped, Ascending;
    var r := h.ring[..a] + [head] + h.ring[b..];
    forall i: nat | i < |r| && i != a ensures r[i] in h.ring && r[i] in h.size && r[i] != head && r[i] != bp {
      if i < a {
        assert r[i] == h.ring[..a][i];
      } else {
        assert r[i] == h.ring[b..][i - a - 1];
      }
    }
  }

  lemma NothingAbove(h: Heap, brk: nat, n: nat)
    requires Inv(h) && brk > BASE && forall u :: u in h.cell ==> u < brk
    ensures brk !in h.ring && brk + n !in h.ring
  {
    assert IsFree(h, brk) ==> Inside(h, brk, brk);
    assert IsFree(h, brk + n) ==> Inside(h, brk + n, brk + n);
  }

  lemma AsBeforeGrown(h: Heap, brk: nat, n: nat, t: Heap, k: nat)
    requires Inv(h) && OthersAsBefore(Grown(h, brk, n), t, k) && brk !in h.ring
    ensures OthersAsBefore(h, t, k)
  {
    assert forall b :: b in h.ring ==> b in h.size && b != brk;
  }

  lemma KeysOf(g: Heap, t: Heap, bp: nat)
    requires Released(g, t, bp)
    ensures t.cell.Keys == g.cell.Keys
  {
  }

  /** Units for nbytes of payload: a header and enough whole units. */
  function NUnits(nbytes: nat): (n: nat)
    ensures n > 0 && nbytes <= (n - 1) * HEADER < nbytes + HEADER
  {
    (nbytes + HEADER - 1) / HEADER + 1
  }

  /** Live blocks stay as they are, and what was part of the heap still is. */
  ghost predicate Kept(h: Heap, t: Heap)
  {
    && t.live == h.live && h.cell.Keys <= t.cell.Keys
    && (forall b :: b in h.live ==> b in h.size && b in t.size && t.size[b] == h.size[b])
    && (forall u :: u in h.cell ==> if h.cell[u].InLive? then t.cell[u] == h.cell[u] else t.cell[u].InFree?)
    && (forall u :: u in t.cell && u !in h.cell ==> t.cell[u].InFree?)
  }

  lemma KeptSame(h: Heap)
    requires Inv(h)
    ensures Kept(h, h)
  {
  }

  lemma GrownKeeps(h: Heap, brk: nat, n: nat)
    requires Inv(h) && Inv(Grown(h, brk, n)) && brk !in h.live && n > 0
    ensures Grown(h, brk, n) == Heap(h.ring, h.size[brk := n], h.live + {brk}, h.cell + Region(brk, n))
  {
  }

  lemma KeptThrough(h: Heap, g: Heap, t: Heap, brk: nat, n: nat)
    requires Inv(h) && brk !in h.live && (forall u :: u in h.cell ==> u < brk) && Released(g, t, brk)
    requires g == Grown(h, brk, n)
    ensures Kept(h, t)
  {
    forall u | u in h.cell ensures g.cell[u] == h.cell[u] && h.cell[u] != InLive(brk) {
      assert CellOk(h, u, h.cell[u]);
    }
    hide Tiled, Gapped, Ascending;
    assert t.live == h.live;
  }

  /** Block p of n units is live; its units were free or not yet part of the heap. All else is kept. */
  ghost predicate Given(h: Heap, t: Heap, p: nat, n: nat)
  {
    && t.live == h.live + {p} && p !in h.live && p in t.size && t.size[p] == n && h.cell.Keys <= t.cell.Keys
    && (forall b :: b in h.live ==> b in h.size && b in t.size && t.size[b] == h.size[b])
    && (forall u: nat :: p <= u < p + n ==> u in t.cell && t.cell[u] == InLive(p) && (u in h.cell ==> h.cell[u].InFree?))
    && (forall u :: u in h.cell && h.cell[u].InLive? ==> t.cell[u] == h.cell[u])
  }

  lemma IsFreeAt(h: Heap, i: nat)
    requires Inv(h) && 0 < i < |h.ring|
    ensures IsFree(h, h.ring[i]) && Ascending(h.ring) && h.ring[i - 1] < h.ring[i] && BASE < h.ring[i]
    ensures forall j :: 0 <= j < |h.ring| && j != i ==> h.ring[j] != h.ring[i]
  {
    assert h.ring[i] in h.ring && h.ring[0] < h.ring[i];
  }

  lemma GivenWhole(h: Heap, i: nat)
    requires Inv(h) && 0 < i < |h.ring| && h.ring[i] in h.size
    ensures Taken(h, i).ring == h.ring[..i] + h.ring[i + 1..] && Taken(h, i).size == h.size
    ensures i < |h.ring| && h.ring[i - 1] in Taken(h, i).ring
    ensures Given(h, Taken(h, i), h.ring[i], h.size[h.ring[i]])
  {
    IsFreeAt(h, i);
    var t := Taken(h, i);
    var p: nat := h.ring[i];
    assert t.ring[i - 1] == h.ring[i - 1];
    assert Inside(h, p, p) && p !in h.live;
    forall u: nat | p <= u < p + h.size[p] ensures u in h.cell && h.cell[u] == InFree(p) {
      assert Inside(h, p, u);
    }
    hide Tiled, Gapped, Ascending;
  }

  lemma GivenTail(h: Heap, p: nat, n: nat)
    requires Inv(h) && IsFree(h, p) && p in h.size && 0 < n < h.size[p]
    ensures var t := Carved(h, p, n);
      && t.ring == h.ring && t.size == h.size[p := h.size[p] - n][p + h.size[p] - n := n]
      && Given(h, t, p + h.size[p] - n, n)
  {
    CarvedHead(h, p, n);
    CarvedUnits(h, p, n);
    assert Inside(h, p, p) && p !in h.live;
    hide Tiled, Gapped, Ascending;
  }

  lemma GivenAfter(h: Heap, g: Heap, t: Heap, p: nat, n: nat)
    requires Kept(h, g) && Given(g, t, p, n)
    ensures Given(h, t, p, n)
  {
  }

  /** The index k steps after f around a ring of n. */
  function Around(f: nat, k: nat, n: nat): (i: nat)
    requires f < n && k <= n
    ensures i < n
  {
    if f + k < n then f + k else f + k - n
  }

  predicate SmallAt(h: Heap, i: nat, nunits: nat)
  {
    i < |h.ring| && h.ring[i] in h.size && h.size[h.ring[i]] < nunits
  }

  lemma LiveSized(h: Heap)
    requires Inv(h)
    ensures forall b :: b in h.live ==> b in h.size
  {
  }

  lemma StartsKept(h: Heap, t: Heap)
    requires t.live == h.live && t.cell == h.cell
    requires forall b :: b in t.live ==> b in t.size && b in h.size && t.size[b] == h.size[b]
    ensures Kept(h, t)
  {
  }

  lemma KeptTwice(h: Heap, g: Heap, t: Heap)
    requires Kept(h, g) && Kept(g, t)
    ensures Kept(h, t)
  {
  }

  predicate BigAt(h: Heap, i: nat, nunits: nat)
  {
    0 < i < |h.ring| && h.ring[i] in h.size && h.size[h.ring[i]] >= nunits
  }

  /** k entries after freep = ring[f] were too small; prevp and p are the next two. */
  ghost predicate ScanningFrom(h: Heap, f: nat, freep: nat, k: nat, prevp: nat, p: nat, nunits: nat)
  {
    && f < |h.ring| && h.ring[f] == freep && k < |h.ring|
    && prevp == h.ring[Around(f, k, |h.ring|)] && p == h.ring[Around(f, k + 1, |h.ring|)]
    && forall m: nat :: 1 <= m <= k ==> SmallAt(h, Around(f, m, |h.ring|), nunits)
  }

  ghost predicate Scanning(h: Heap, freep: nat, k: nat, prevp: nat, p: nat, nunits: nat)
  {
    exists f: nat :: ScanningFrom(h, f, freep, k, prevp, p, nunits)
  }

  lemma ScannedSize(h: Heap, freep: nat, k: nat, prevp: nat, p: nat, nunits: nat)
    requires Inv(h) && Scanning(h, freep, k, prevp, p, nunits)
    ensures p in h.size && k < |h.ring|
    ensures h.size[p] > 0 ==> exists i: nat :: 0 < i < |h.ring| && p == h.ring[i] && prevp == h.ring[i - 1]
  {
    var f :| ScanningFrom(h, f, freep, k, prevp, p, nunits);
    var i := Around(f, k + 1, |h.ring|);
    assert h.ring[i] in h.ring;
    if h.size[p] > 0 {
      assert 0 < i < |h.ring| && p == h.ring[i] && prevp == h.ring[i - 1];
    }
  }

  /** Back at freep, the whole list has been seen, so nothing in it is big enough. */
  lemma AllSmall(h: Heap, freep: nat, k: nat, prevp: nat, p: nat, nunits: nat, big: nat)
    requires Inv(h) && Scanning(h, freep, k, prevp, p, nunits) && p == freep && p in h.size && h.size[p] < nunits
    ensures !BigAt(h, big, nunits)
  {
    var f :| ScanningFrom(h, f, freep, k, prevp, p, nunits);
    NotAround(h, f, k);
    if big < |h.ring| && big != f {
      var m := if big > f then big - f else big + |h.ring| - f;
      assert Around(f, m, |h.ring|) == big;
    }
  }

  lemma ScanOn(h: Heap, ptr: map<nat, nat>, freep: nat, k: nat, prevp: nat, p: nat, nunits: nat)
    requires Inv(h) && Links(h.ring, ptr) && Scanning(h, freep, k, prevp, p, nunits) && p != freep
    requires p in h.size && h.size[p] < nunits
    ensures p in ptr && Scanning(h, freep, k + 1, p, ptr[p], nunits) && k + 1 < |h.ring|
  {
    hide Inv, Links, ScanningFrom;
    var f :| ScanningFrom(h, f, freep, k, prevp, p, nunits);
    ScanOnFrom(h, ptr, f, freep, k, prevp, p, nunits);
  }

  lemma ScanOnFrom(h: Heap, ptr: map<nat, nat>, f: nat, freep: nat, k: nat, prevp: nat, p: nat, nunits: nat)
    requires Inv(h) && Links(h.ring, ptr) && ScanningFrom(h, f, freep, k, prevp, p, nunits) && p != freep
    requires p in h.size && h.size[p] < nunits
    ensures p in ptr && ScanningFrom(h, f, freep, k + 1, p, ptr[p], nunits) && k + 1 < |h.ring|
  {
    hide Inv, Links, Ascending, SmallAt, Around;
    NotAround(h, f, k);
    RingAscends(h);
    NextOf(h.ring, ptr, Around(f, k + 1, |h.ring|));
    ScanStep(h.ring, f, k);
    SmallHere(h, Around(f, k + 1, |h.ring|), nunits);
  }

  lemma RingAscends(h: Heap)
    requires Inv(h)
    ensures Ascending(h.ring)
  {
  }

  lemma ScanStep(ring: seq<nat>, f: nat, k: nat)
    requires f < |ring| && k + 1 < |ring|
    ensures Next(ring, Around(f, k + 1, |ring|)) == ring[Around(f, k + 2, |ring|)]
  {
  }

  lemma SmallHere(h: Heap, i: nat, nunits: nat)
    requires i < |h.ring| && h.ring[i] in h.size && h.size[h.ring[i]] < nunits
    ensures SmallAt(h, i, nunits)
  {
  }

  lemma NotAround(h: Heap, f: nat, k: nat)
    requires Inv(h) && f < |h.ring| && k < |h.ring|
    ensures h.ring[Around(f, k + 1, |h.ring|)] == h.ring[f] <==> k + 1 == |h.ring|
  {
    var i := Around(f, k + 1, |h.ring|);
    assert Ascending(h.ring);
    assert i < f ==> h.ring[i] < h.ring[f];
    assert f < i ==> h.ring[f] < h.ring[i];
  }

  lemma RingPositive(h: Heap, x: nat)
    requires Inv(h) && x in h.ring
    ensures x > 0
  {
    var i :| 0 <= i < |h.ring| && h.ring[i] == x;
    assert h.ring[0] <= h.ring[i];
  }

  /** A value passed where the callee declares a C int. */
  function AsInt(x: nat): int
  {
    var y := x % 0x1_0000_0000;
    if y < INT_MAX then y else y - 0x1_0000_0000
  }

  /** Some free block has n units or more. */
  ghost predicate HasBig(h: Heap, n: nat)
  {
    exists i: nat :: BigAt(h, i, n)
  }

  /** The only free block of n units or more is the one at index k, and it ends at top. */
  ghost predicate OnlyBig(h: Heap, k: nat, n: nat, top: nat)
  {
    && BigAt(h, k, n) && h.ring[k] + h.size[h.ring[k]] == top
    && forall i: nat :: i < |h.ring| && i != k ==> SmallAt(h, i, n)
  }

  lemma FoundBig(h: Heap, prevp: nat, p: nat, n: nat)
    requires p in h.size && h.size[p] >= n
    requires exists i: nat :: 0 < i < |h.ring| && p == h.ring[i] && prevp == h.ring[i - 1]
    ensures HasBig(h, n)
  {
    var i: nat :| 0 < i < |h.ring| && p == h.ring[i];
    assert BigAt(h, i, n);
  }

  lemma NoBig(h: Heap, freep: nat, k: nat, prevp: nat, p: nat, nunits: nat)
    requires Inv(h) && Scanning(h, freep, k, prevp, p, nunits) && p == freep && p in h.size && h.size[p] < nunits
    ensures !HasBig(h, nunits)
  {
    hide Inv, Scanning;
    forall big: nat ensures !BigAt(h, big, nunits) {
      AllSmall(h, freep, k, prevp, p, nunits, big);
    }
  }

  lemma TheBig(h: Heap, k: nat, n: nat, top: nat, p: nat)
    requires OnlyBig(h, k, n, top) && p in h.ring && p in h.size && h.size[p] >= n
    ensures p + h.size[p] == top
  {
    var i: nat :| i < |h.ring| && h.ring[i] == p;
    assert i != k ==> SmallAt(h, i, n);
  }

  lemma OnlyIsBig(h: Heap, k: nat, n: nat, top: nat)
    requires OnlyBig(h, k, n, top)
    ensures HasBig(h, n)
  {
  }

  lemma GrantedUnits(hp: nat, nu: nat)
    requires nu > 0 && SbrkBytes(nu) < INT_MAX
    ensures BreakAfter(hp, AsInt(SbrkBytes(nu))) == hp + Asked(nu)
  {
  }

  lemma BecomesOnly(h: Heap, t: Heap, k: nat, n: nat, top: nat)
    requires Inv(h) && !HasBig(h, n) && n > 0 && BigAt(t, k, n) && OthersAsBefore(h, t, k)
    requires t.ring[k] + t.size[t.ring[k]] == top
    ensures OnlyBig(t, k, n, top)
  {
    forall i: nat | i < |t.ring| && i != k ensures SmallAt(t, i, n) {
      var j: nat :| j < |h.ring| && h.ring[j] == t.ring[i];
      assert !BigAt(h, j, n);
    }
  }

  lemma GivenInside(h: Heap, t: Heap, p: nat, n: nat)
    requires Given(h, t, p, n) && n > 0
    ensures p + n - 1 in t.cell
  {
  }

  /** Where the break ends up after morecore, against the end of the block it recorded. */
  lemma GrantedEnd(nbytes: nat, hp: nat)
    requires nbytes < 0x1_0000_0000
    ensures var n := NUnits(nbytes);
      hp + Asked(n) <= BreakAfter(hp, AsInt(SbrkBytes(n))) <==> SbrkBytes(n) < INT_MAX
  {
  }

  /** The request to sbrk fits an int exactly for requests up to 2^31 - 32 bytes. */
  lemma RequestFits(nbytes: nat)
    requires nbytes < 0x1_0000_0000
    ensures SbrkBytes(NUnits(nbytes)) < INT_MAX <==> nbytes <= INT_MAX - 2 * HEADER
  {
  }

  lemma HugeAsked(nbytes: nat)
    requires nbytes == 0x7fff_ffe1 || nbytes == 0xffff_fff0 || nbytes == 0xffff_ffff
    ensures AsInt(SbrkBytes(NUnits(nbytes))) == if nbytes == 0x7fff_ffe1 then -0x8000_0000
                                                else if nbytes == 0xffff_fff0 then 0 else HEADER
    ensures SbrkBytes(NUnits(nbytes)) >= INT_MAX
  {
  }

  /**
   Three requests just past the limits ask sbrk to shrink the heap by 2^31 bytes, for nothing, and for
   one unit. Each is answered. The last always gets a block that was never granted; so do the others,
   unless the page at the old break is not mapped and writing the header kills the process.
   */
  method HugeRequest(a: Allocator, nbytes: nat, gap: nat, mapped: bool) returns (ap: nat, crashed: bool)
    requires a.Valid() && !HasBig(a.H(), NUnits(nbytes))
    requires nbytes == 0x7fff_ffe1 || nbytes == 0xffff_fff0 || nbytes == 0xffff_ffff
    modifies a
    ensures crashed <==> nbytes != 0xffff_ffff && !mapped
    ensures !crashed ==> ap > 0 && ap - 1 + NUnits(nbytes) > a.brk
  {
    hide Inv, Links, Kept, Given, HasBig, SbrkBytes, NUnits, AsInt;
    HugeAsked(nbytes);
    ghost var calls;
    ap, calls, crashed := a.Malloc(nbytes, true, gap, mapped);
  }
}
