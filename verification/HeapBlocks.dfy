/**
 The heap of umalloc.c as a set of units: every unit belongs to exactly one free or live block. All
 addresses count units of sizeof(Header) bytes; the static header base lies below the heap.
 */
module HeapBlocks {

  const BASE: nat := 1

  datatype Cell = InFree(head: nat) | InLive(head: nat)

  /**
   ring: base and the free blocks in address order. size: the size field of every header. live:
   the blocks handed out. cell: the block each unit of the heap belongs to.
   */
  datatype Heap = Heap(ring: seq<nat>, size: map<nat, nat>, live: set<nat>, cell: map<nat, Cell>)

  ghost predicate Ascending(ring: seq<nat>)
  {
    |ring| > 0 && ring[0] == BASE && forall i, j :: 0 <= i < j < |ring| ==> ring[i] < ring[j]
  }

  predicate IsFree(h: Heap, b: nat)
  {
    b in h.ring && b != BASE
  }

  /** Every block has its size field, and a block that is not base is not empty. */
  ghost predicate Sizes(h: Heap)
  {
    && BASE in h.size && h.size[BASE] == 0 && BASE !in h.live
    && (forall b :: b in h.ring && b != BASE ==> b in h.size && h.size[b] > 0)
    && (forall b :: b in h.live ==> b in h.size && h.size[b] > 0)
  }

  predicate Inside(h: Heap, b: nat, u: nat)
  {
    b in h.size && b <= u < b + h.size[b]
  }

  predicate CellOk(h: Heap, u: nat, c: Cell)
  {
    BASE < u && Inside(h, c.head, u) && if c.InFree? then IsFree(h, c.head) else c.head in h.live
  }

  /** Each unit lies in the block it belongs to, and each block consists of its own units. */
  ghost predicate Tiled(h: Heap)
  {
    && (forall u :: u in h.cell ==> CellOk(h, u, h.cell[u]))
    && (forall b, u :: IsFree(h, b) && Inside(h, b, u) ==> u in h.cell && h.cell[u] == InFree(b))
    && (forall b, u :: b in h.live && Inside(h, b, u) ==> u in h.cell && h.cell[u] == InLive(b))
  }

  /** Consecutive free blocks neither overlap nor touch. */
  ghost predicate Gapped(h: Heap)
  {
    forall i: nat :: i + 1 < |h.ring| ==> Gap(h, h.ring[i], h.ring[i + 1])
  }

  predicate Gap(h: Heap, a: nat, b: nat)
  {
    a in h.size && a + h.size[a] < b
  }

  ghost predicate Inv(h: Heap)
  {
    Ascending(h.ring) && Sizes(h) && Tiled(h) && Gapped(h)
  }

  /** No two free blocks touch, consecutive in the ring or not. */
  lemma FreeNeverAdjacent(h: Heap, i: nat, j: nat)
    requires Inv(h) && i < j < |h.ring|
    ensures h.ring[i] in h.size && h.ring[i] + h.size[h.ring[i]] < h.ring[j]
  {
    assert Gap(h, h.ring[i], h.ring[i + 1]);
  }

  // ---- a live block becomes part of the free list ----

  /** The units of [head, head + n) become one free block that replaces ring[a..b] and live block bp. */
  function Coalesced(h: Heap, a: nat, b: nat, head: nat, n: nat, bp: nat): (t: Heap)
    requires a <= b <= |h.ring|
  {
    Heap(h.ring[..a] + [head] + h.ring[b..], h.size[head := n], h.live - {bp},
         map u | u in h.cell :: if head <= u < head + n then InFree(head) else h.cell[u])
  }

  /** [head, head + n) is made of bp and the blocks ring[a..b], and leaves a gap on both sides. */
  ghost predicate Merges(h: Heap, a: nat, b: nat, head: nat, n: nat, bp: nat)
  {
    && 0 < a <= b <= |h.ring| && bp in h.live && n > 0
    && (head == bp || (a < b && head == h.ring[a]))
    && (forall u: nat :: head <= u < head + n <==> Inside(h, bp, u) || InSome(h, a, b, u))
    && Gap(h, h.ring[a - 1], head) && (b < |h.ring| ==> head + n < h.ring[b])
  }

  /** u lies in one of the free blocks ring[a..b]. */
  ghost predicate InSome(h: Heap, a: nat, b: nat, u: nat)
  {
    exists i :: a <= i < b <= |h.ring| && Inside(h, h.ring[i], u)
  }

  lemma CoalescedRing(h: Heap, a: nat, b: nat, head: nat, n: nat, bp: nat)
    requires Inv(h) && Merges(h, a, b, head, n, bp)
    ensures Ascending(Coalesced(h, a, b, head, n, bp).ring)
    ensures forall x :: x in Coalesced(h, a, b, head, n, bp).ring <==> x in h.ring[..a] || x == head || x in h.ring[b..]
    ensures head !in h.ring[..a] && head !in h.ring[b..] && head > BASE
  {
    assert h.ring[a - 1] < head;
    assert b < |h.ring| ==> head < h.ring[b];
    hide Tiled, Gapped, Sizes;
  }

  lemma CoalescedGapped(h: Heap, a: nat, b: nat, head: nat, n: nat, bp: nat)
    requires Inv(h) && Merges(h, a, b, head, n, bp)
    ensures Gapped(Coalesced(h, a, b, head, n, bp))
  {
    CoalescedRing(h, a, b, head, n, bp);
    var t := Coalesced(h, a, b, head, n, bp);
    hide Tiled, Sizes;
    forall i: nat | i + 1 < |t.ring| ensures Gap(t, t.ring[i], t.ring[i + 1]) {
      if i + 1 < a {
        assert Gap(h, h.ring[i], h.ring[i + 1]);
      } else if i > a {
        assert Gap(h, h.ring[i - a - 1 + b], h.ring[i - a + b]);
      }
    }
  }

  /** Units of the new block belonged to bp or to a merged free block, and to nothing else. */
  lemma MergedUnit(h: Heap, a: nat, b: nat, head: nat, n: nat, bp: nat, u: nat)
    requires Inv(h) && Merges(h, a, b, head, n, bp)
    ensures head <= u < head + n ==>
      u in h.cell && (h.cell[u] == InLive(bp) || (h.cell[u].InFree? && h.cell[u].head in h.ring[a..b]))
    ensures u in h.cell && (h.cell[u] == InLive(bp) || (h.cell[u].InFree? && h.cell[u].head in h.ring[a..b])) ==>
      head <= u < head + n
  {
    if head <= u < head + n {
      if !Inside(h, bp, u) {
        assert InSome(h, a, b, u);
        var i :| a <= i < b <= |h.ring| && Inside(h, h.ring[i], u);
        assert h.ring[i] in h.ring[a..b] && h.ring[i] in h.ring;
        assert h.ring[0] < h.ring[i];
      }
    }
    if u in h.cell && (h.cell[u] == InLive(bp) || (h.cell[u].InFree? && h.cell[u].head in h.ring[a..b])) {
      UnitMerges(h, a, b, head, n, bp, u);
    }
  }

  lemma UnitMerges(h: Heap, a: nat, b: nat, head: nat, n: nat, bp: nat, u: nat)
    requires Inv(h) && Merges(h, a, b, head, n, bp) && u in h.cell
    requires h.cell[u] == InLive(bp) || (h.cell[u].InFree? && h.cell[u].head in h.ring[a..b])
    ensures head <= u < head + n
  {
    assert CellOk(h, u, h.cell[u]);
    if h.cell[u].InFree? {
      var i :| a <= i < b && h.ring[i] == h.cell[u].head;
      assert InSome(h, a, b, u);
    }
  }

  lemma HeadIsNoOther(h: Heap, a: nat, b: nat, head: nat, n: nat, bp: nat)
    requires Inv(h) && Merges(h, a, b, head, n, bp)
    ensures head in h.live ==> head == bp
    ensures forall x :: x in h.ring[..a] || x in h.ring[b..] ==> x != head && x !in h.ring[a..b]
    ensures head > BASE
  {
    CoalescedRing(h, a, b, head, n, bp);
    MergedUnit(h, a, b, head, n, bp, head);
  }

  lemma CoalescedSizes(h: Heap, a: nat, b: nat, head: nat, n: nat, bp: nat)
    requires Inv(h) && Merges(h, a, b, head, n, bp)
    ensures Sizes(Coalesced(h, a, b, head, n, bp))
  {
    CoalescedRing(h, a, b, head, n, bp);
    hide Tiled, Gapped, Ascending;
  }

  lemma RingParts(ring: seq<nat>, a: nat, b: nat, x: nat)
    requires a <= b <= |ring| && x in ring
    ensures x in ring[..a] || x in ring[a..b] || x in ring[b..]
  {
    assert ring == ring[..a] + ring[a..b] + ring[b..];
  }

  lemma CoalescedCell(h: Heap, a: nat, b: nat, head: nat, n: nat, bp: nat, u: nat)
    requires Inv(h) && Merges(h, a, b, head, n, bp) && u in h.cell
    ensures var t := Coalesced(h, a, b, head, n, bp); CellOk(t, u, t.cell[u])
  {
    CoalescedRing(h, a, b, head, n, bp);
    HeadIsNoOther(h, a, b, head, n, bp);
    MergedUnit(h, a, b, head, n, bp, u);
    assert CellOk(h, u, h.cell[u]);
    hide Tiled, Gapped, Ascending, Sizes;
    if !(head <= u < head + n) && h.cell[u].InFree? {
      RingParts(h.ring, a, b, h.cell[u].head);
    }
    hide Merges;
  }

  lemma CoalescedFree(h: Heap, a: nat, b: nat, head: nat, n: nat, bp: nat, x: nat, u: nat)
    requires Inv(h) && Merges(h, a, b, head, n, bp)
    requires var t := Coalesced(h, a, b, head, n, bp); IsFree(t, x) && Inside(t, x, u)
    ensures var t := Coalesced(h, a, b, head, n, bp); u in t.cell && t.cell[u] == InFree(x)
  {
    CoalescedRing(h, a, b, head, n, bp);
    HeadIsNoOther(h, a, b, head, n, bp);
    MergedUnit(h, a, b, head, n, bp, u);
    if x != head {
      assert x in h.ring && Inside(h, x, u);
      assert u in h.cell && h.cell[u] == InFree(x);
    }
    hide Tiled, Gapped, Ascending, Sizes, Merges;
  }

  lemma CoalescedLive(h: Heap, a: nat, b: nat, head: nat, n: nat, bp: nat, x: nat, u: nat)
    requires Inv(h) && Merges(h, a, b, head, n, bp)
    requires var t := Coalesced(h, a, b, head, n, bp); x in t.live && Inside(t, x, u)
    ensures var t := Coalesced(h, a, b, head, n, bp); u in t.cell && t.cell[u] == InLive(x)
  {
    HeadIsNoOther(h, a, b, head, n, bp);
    MergedUnit(h, a, b, head, n, bp, u);
    assert x in h.live && x != head && Inside(h, x, u);
    assert u in h.cell && h.cell[u] == InLive(x);
    hide Tiled, Gapped, Ascending, Sizes, Merges;
  }

  /** Coalescing keeps the heap invariant and every unit of the heap. */
  lemma CoalesceKeepsInv(h: Heap, a: nat, b: nat, head: nat, n: nat, bp: nat)
    requires Inv(h) && Merges(h, a, b, head, n, bp)
    ensures Inv(Coalesced(h, a, b, head, n, bp)) && Coalesced(h, a, b, head, n, bp).cell.Keys == h.cell.Keys
  {
    var t := Coalesced(h, a, b, head, n, bp);
    CoalescedRing(h, a, b, head, n, bp);
    CoalescedGapped(h, a, b, head, n, bp);
    CoalescedSizes(h, a, b, head, n, bp);
    forall u | u in t.cell ensures CellOk(t, u, t.cell[u]) {
      CoalescedCell(h, a, b, head, n, bp, u);
    }
    forall x, u | IsFree(t, x) && Inside(t, x, u) ensures u in t.cell && t.cell[u] == InFree(x) {
      CoalescedFree(h, a, b, head, n, bp, x, u);
    }
    forall x, u | x in t.live && Inside(t, x, u) ensures u in t.cell && t.cell[u] == InLive(x) {
      CoalescedLive(h, a, b, head, n, bp, x, u);
    }
    hide Inv, Sizes, Gapped, Ascending, Merges, CellOk, IsFree, Inside, Coalesced;
  }

  // ---- a free block, or its tail, is handed out ----

  function Taken(h: Heap, i: nat): (t: Heap)
    requires i < |h.ring|
  {
    var p := h.ring[i];
    Heap(h.ring[..i] + h.ring[i + 1..], h.size, h.live + {p},
         map u | u in h.cell :: if h.cell[u] == InFree(p) then InLive(p) else h.cell[u])
  }

  lemma TakenRing(h: Heap, i: nat)
    requires Inv(h) && 0 < i < |h.ring|
    ensures Ascending(Taken(h, i).ring) && h.ring[i] > BASE
    ensures forall x :: x in Taken(h, i).ring <==> x in h.ring && x != h.ring[i]
  {
    hide Tiled, Sizes, Gapped;
    var t := Taken(h, i);
    forall x ensures x in t.ring <==> x in h.ring && x != h.ring[i] {
      if x in h.ring && x != h.ring[i] {
        var k :| 0 <= k < |h.ring| && h.ring[k] == x;
        assert t.ring[if k < i then k else k - 1] == x;
      }
    }
  }

  lemma TakenGapped(h: Heap, i: nat)
    requires Inv(h) && 0 < i < |h.ring|
    ensures Gapped(Taken(h, i))
  {
    var t := Taken(h, i);
    forall k: nat | k + 1 < |t.ring| ensures Gap(t, t.ring[k], t.ring[k + 1]) {
      FreeNeverAdjacent(h, if k < i then k else k + 1, if k + 1 < i then k + 1 else k + 2);
    }
  }

  /** Handing out a whole free block. */
  lemma TakeKeepsInv(h: Heap, i: nat)
    requires Inv(h) && 0 < i < |h.ring|
    ensures Inv(Taken(h, i)) && Taken(h, i).cell.Keys == h.cell.Keys
  {
    TakenRing(h, i);
    TakenGapped(h, i);
    TakenTiled(h, i);
    hide Tiled, Gapped, Ascending;
  }

  lemma TakenTiled(h: Heap, i: nat)
    requires Inv(h) && 0 < i < |h.ring|
    ensures Tiled(Taken(h, i)) && Sizes(Taken(h, i))
  {
    TakenRing(h, i);
    var t := Taken(h, i);
    assert Sizes(t);
    hide Gapped, Ascending;
    forall u | u in t.cell ensures CellOk(t, u, t.cell[u]) {
      assert CellOk(h, u, h.cell[u]);
    }
    forall x, u | IsFree(t, x) && Inside(t, x, u) ensures u in t.cell && t.cell[u] == InFree(x) {
      assert IsFree(h, x) && Inside(h, x, u);
    }
    forall x, u | x in t.live && Inside(t, x, u) ensures u in t.cell && t.cell[u] == InLive(x) {
      assert Inside(h, x, u) && (x in h.live || IsFree(h, x));
    }
  }

  /** The last n units of free block p become live block q. */
  function Carved(h: Heap, p: nat, n: nat): (t: Heap)
    requires p in h.size && n < h.size[p]
  {
    var q := p + h.size[p] - n;
    Heap(h.ring, h.size[p := h.size[p] - n][q := n], h.live + {q},
         map u | u in h.cell :: if q <= u < q + n then InLive(q) else h.cell[u])
  }

  lemma CarvedHead(h: Heap, p: nat, n: nat)
    requires Inv(h) && IsFree(h, p) && p in h.size && 0 < n < h.size[p]
    ensures var q := p + h.size[p] - n; q !in h.ring && q !in h.live && q > p > BASE
  {
    var q := p + h.size[p] - n;
    assert Inside(h, p, q);
    assert h.cell[q] == InFree(p);
    assert q in h.live ==> Inside(h, q, q);
    assert IsFree(h, q) ==> Inside(h, q, q);
    var i :| 0 <= i < |h.ring| && h.ring[i] == p;
    assert h.ring[0] <= h.ring[i];
  }

  lemma CarvedSizes(h: Heap, p: nat, n: nat)
    requires Inv(h) && IsFree(h, p) && p in h.size && 0 < n < h.size[p]
    ensures Sizes(Carved(h, p, n)) && Gapped(Carved(h, p, n))
  {
    CarvedHead(h, p, n);
    hide Tiled, Ascending;
    var t := Carved(h, p, n);
    forall k: nat | k + 1 < |t.ring| ensures Gap(t, t.ring[k], t.ring[k + 1]) {
      assert Gap(h, h.ring[k], h.ring[k + 1]);
      assert h.ring[k] in h.ring;
    }
  }

  lemma CarvedUnits(h: Heap, p: nat, n: nat)
    requires Inv(h) && IsFree(h, p) && p in h.size && 0 < n < h.size[p]
    ensures forall u: nat :: p + h.size[p] - n <= u < p + h.size[p] ==> u in h.cell && h.cell[u] == InFree(p)
  {
    forall u: nat | p + h.size[p] - n <= u < p + h.size[p] ensures u in h.cell && h.cell[u] == InFree(p) {
      assert Inside(h, p, u);
    }
  }

  lemma CarvedCells(h: Heap, p: nat, n: nat)
    requires Inv(h) && IsFree(h, p) && p in h.size && 0 < n < h.size[p]
    ensures var t := Carved(h, p, n); forall u :: u in t.cell ==> CellOk(t, u, t.cell[u])
  {
    hide Inv, CellOk;
    var t := Carved(h, p, n);
    forall u | u in t.cell ensures CellOk(t, u, t.cell[u]) {
      CarvedCell(h, p, n, u);
    }
  }

  lemma CarvedCell(h: Heap, p: nat, n: nat, u: nat)
    requires Inv(h) && IsFree(h, p) && p in h.size && 0 < n < h.size[p] && u in h.cell
    ensures CellOk(Carved(h, p, n), u, Carved(h, p, n).cell[u])
  {
    CarvedHead(h, p, n);
    assert CellOk(h, u, h.cell[u]);
    hide Inv;
  }

  lemma CarvedTiled(h: Heap, p: nat, n: nat)
    requires Inv(h) && IsFree(h, p) && p in h.size && 0 < n < h.size[p]
    ensures Tiled(Carved(h, p, n))
  {
    CarvedHead(h, p, n);
    CarvedUnits(h, p, n);
    CarvedCells(h, p, n);
    var t, q := Carved(h, p, n), p + h.size[p] - n;
    hide Gapped, Ascending, Sizes, CellOk;
    forall x, u | IsFree(t, x) && Inside(t, x, u) ensures u in t.cell && t.cell[u] == InFree(x) {
      assert IsFree(h, x) && Inside(h, x, u);
    }
    forall x, u | x in t.live && Inside(t, x, u) ensures u in t.cell && t.cell[u] == InLive(x) {
      if x != q {
        CarvedOther(h, p, n, x, u);
      }
    }
  }

  lemma CarvedOther(h: Heap, p: nat, n: nat, x: nat, u: nat)
    requires Inv(h) && IsFree(h, p) && p in h.size && 0 < n < h.size[p] && x in h.live && x != p + h.size[p] - n
    requires Inside(Carved(h, p, n), x, u)
    ensures u in h.cell && h.cell[u] == InLive(x)
  {
    assert Inside(h, p, p) && h.cell[p] == InFree(p);
    assert x == p ==> Inside(h, x, x);
    hide Gapped, Ascending;
    assert Inside(h, x, u);
  }

  /** Handing out the tail of a free block. */
  lemma CarveKeepsInv(h: Heap, p: nat, n: nat)
    requires Inv(h) && IsFree(h, p) && p in h.size && 0 < n < h.size[p]
    ensures Inv(Carved(h, p, n)) && Carved(h, p, n).cell.Keys == h.cell.Keys
  {
    CarvedSizes(h, p, n);
    CarvedTiled(h, p, n);
    hide Tiled, Gapped, Sizes;
  }

  // ---- more memory ----

  /** n units from `from` on, all of one live block. */
  function Region(from: nat, n: nat): (m: map<nat, Cell>)
    ensures forall u: nat :: u in m <==> from <= u < from + n
    ensures forall u :: u in m ==> m[u] == InLive(from)
  {
    map u | u in Units(from, n) :: InLive(from)
  }

  function Units(from: nat, n: nat): (s: set<nat>)
    ensures forall u: nat :: u in s <==> from <= u < from + n
  {
    if n == 0 then {} else Units(from, n - 1) + {from + n - 1}
  }

  /** sbrk's new units as one live block, about to be freed by morecore. */
  function Grown(h: Heap, brk: nat, n: nat): (t: Heap)
  {
    Heap(h.ring, h.size[brk := n], h.live + {brk}, h.cell + Region(brk, n))
  }

  lemma GrowKeepsInv(h: Heap, brk: nat, n: nat)
    requires Inv(h) && n > 0 && brk > BASE && forall u :: u in h.cell ==> u < brk
    ensures Inv(Grown(h, brk, n)) && brk !in h.live
  {
    var t := Grown(h, brk, n);
    BrkIsNew(h, brk);
    GrownTiled(h, brk, n);
    hide Tiled, Ascending;
    forall k: nat | k + 1 < |t.ring| ensures Gap(t, t.ring[k], t.ring[k + 1]) {
      assert Gap(h, h.ring[k], h.ring[k + 1]);
      assert h.ring[k] in h.ring;
    }
  }

  lemma BrkIsNew(h: Heap, brk: nat)
    requires Inv(h) && brk > BASE && forall u :: u in h.cell ==> u < brk
    ensures brk !in h.ring && brk !in h.live
  {
    assert brk in h.live || IsFree(h, brk) ==> Inside(h, brk, brk);
  }

  lemma GrownTiled(h: Heap, brk: nat, n: nat)
    requires Inv(h) && n > 0 && brk > BASE && forall u :: u in h.cell ==> u < brk
    requires brk !in h.ring && brk !in h.live
    ensures Tiled(Grown(h, brk, n))
  {
    var t := Grown(h, brk, n);
    hide Gapped, Ascending, Sizes, Region;
    forall u | u in t.cell ensures CellOk(t, u, t.cell[u]) {
      if u in h.cell {
        assert CellOk(h, u, h.cell[u]);
      }
    }
    forall x, u | IsFree(t, x) && Inside(t, x, u) ensures u in t.cell && t.cell[u] == InFree(x) {
      assert IsFree(h, x) && Inside(h, x, u);
    }
    forall x, u | x in t.live && Inside(t, x, u) ensures u in t.cell && t.cell[u] == InLive(x) {
      if x != brk {
        assert x in h.live && Inside(h, x, u);
      }
    }
  }
}
