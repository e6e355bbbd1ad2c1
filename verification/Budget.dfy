/**
 How many distinct blocks one transaction logs: a filewrite chunk (file.c) and the write of one
 swapped page (swap.c).
 */
module Budget {
  import opened Common
  import opened BlockData
  import opened FileBlocks
  import opened FileContents
  import opened InodeCalls

  function NBitmaps(g: Geometry): nat
    requires g.size > 0
  {
    (g.size - 1) / BPB + 1
  }

  lemma {:induction false} ElementsFit(q: seq<nat>)
    ensures |Elements(q)| <= |q|
    decreases |q|
  {
    if q != [] {
      var r := q[..|q| - 1];
      ElementsFit(r);
      assert Elements(q) == Elements(r) + {q[|q| - 1]};
    }
  }

  lemma {:induction false} BitmapsFit(g: Geometry, allocs: seq<nat>)
    ensures |Bitmaps(g, allocs)| <= |allocs|
    decreases |allocs|
  {
    if allocs != [] {
      BitmapsFit(g, allocs[..|allocs| - 1]);
    }
  }

  /** The block numbers [from, from + n). */
  function Range(from: nat, n: nat): (s: set<nat>)
    ensures |s| == n && forall x: nat :: x in s <==> from <= x < from + n
  {
    if n == 0 then {} else Range(from, n - 1) + {from + n - 1}
  }

  lemma {:induction false} BitmapsInside(g: Geometry, allocs: seq<nat>)
    requires g.size > 0 && forall b :: b in allocs ==> b < g.size
    ensures Bitmaps(g, allocs) <= Range(g.bmapstart, NBitmaps(g))
    decreases |allocs|
  {
    if allocs != [] {
      var r, b := allocs[..|allocs| - 1], allocs[|allocs| - 1];
      assert b in allocs && forall x :: x in r ==> x in allocs;
      BitmapsInside(g, r);
      assert b / BPB <= (g.size - 1) / BPB;
    }
  }

  lemma SubsetFits(a: set<nat>, b: set<nat>)
    requires a <= b
    ensures |a| <= |b|
  {
    if a != b {
      assert b == a + (b - a);
    }
  }

  lemma UnionFits(a: set<nat>, b: set<nat>)
    ensures |a + b| <= |a| + |b|
  {
    assert a + b == a + (b - a);
    SubsetFits(b - a, b);
  }

  /** Distinct bitmap blocks: no more than allocations, no more than there are. */
  lemma BitmapCost(g: Geometry, allocs: seq<nat>)
    requires g.size > 0 && forall b :: b in allocs ==> b < g.size
    ensures |Bitmaps(g, allocs)| <= |allocs| && |Bitmaps(g, allocs)| <= NBitmaps(g)
  {
    BitmapsFit(g, allocs);
    BitmapsInside(g, allocs);
    SubsetFits(Bitmaps(g, allocs), Range(g.bmapstart, NBitmaps(g)));
  }

  /** A write logs its bitmap blocks, its data blocks, at most one indirect block and the inode block. */
  lemma WriteCost(g: Geometry, s: Fs, t: Fs, i: nat, added: seq<nat>, written: seq<nat>, entry: set<nat>,
                  logged: set<nat>, allocs: seq<nat>, iblock: nat)
    requires Spent(s, t, i, added, written, entry)
    requires Logs(g, {}, logged, [], allocs, added, entry + Elements(written) + {iblock})
    ensures |logged| <= |Bitmaps(g, added)| + |written| + 2
  {
    var x := t.inodes[i].addrs[NDIRECT];
    var all := Bitmaps(g, added) + Elements(written) + ({x} + {iblock});
    assert logged <= all;
    SubsetFits(logged, all);
    UnionFits(Bitmaps(g, added) + Elements(written), {x} + {iblock});
    UnionFits(Bitmaps(g, added), Elements(written));
    UnionFits({x}, {iblock});
    ElementsFit(written);
  }

  /** New data blocks: a write that starts inside a block finds that block there. */
  lemma NewBlocks(s: Fs, t: Fs, i: nat, off: nat, n: nat)
    requires AllSettled(s) && AllSettled(t) && i < |s.inodes| && i < |t.inodes| && off <= s.inodes[i].size
    requires t.inodes[i].size == if off + n < s.inodes[i].size then s.inodes[i].size else off + n
    ensures n > 0 ==> t.count[i] - s.count[i] <= if off % BSIZE == 0 then Spanned(off, n) else Spanned(off, n) - 1
    ensures n == 0 ==> t.count[i] == s.count[i]
  {
    assert Settled(s.inodes[i], s.count[i]) && Settled(t.inodes[i], t.count[i]);
    hide AllSettled;
    var m := s.inodes[i].size;
    assert Ceil(off) <= Ceil(m);
    if n > 0 {
      assert Ceil(off + n) == (off + n - 1) / BSIZE + 1;
    }
  }

  /** What Writei promises about one transaction, from an empty log. */
  ghost predicate OneWrite(g: Geometry, s: Fs, t: Fs, i: nat, off: nat, n: nat, logged: set<nat>, allocs: seq<nat>,
                           added: seq<nat>, written: seq<nat>, entry: set<nat>)
  {
    && g.size > 0 && AllSettled(s) && AllSettled(t) && i < |s.inodes| && i < |t.inodes| && off <= s.inodes[i].size
    && t.inodes[i].size == (if off + n < s.inodes[i].size then s.inodes[i].size else off + n)
    && |written| == Spanned(off, n) && Spent(s, t, i, added, written, entry)
    && Logs(g, {}, logged, [], allocs, added, entry + Elements(written) + {IBlock(g, i)})
  }

  /** Blocks touched and blocks allocated, in terms of the offset alone. */
  lemma WriteBound(g: Geometry, s: Fs, t: Fs, i: nat, off: nat, n: nat, logged: set<nat>, allocs: seq<nat>,
                   added: seq<nat>, written: seq<nat>, entry: set<nat>)
    requires OneWrite(g, s, t, i, off, n, logged, allocs, added, written, entry)
    ensures var news := if n == 0 then 0 else if off % BSIZE == 0 then Spanned(off, n) else Spanned(off, n) - 1;
      |logged| <= Spanned(off, n) + 2 + (if news + 1 < NBitmaps(g) then news + 1 else NBitmaps(g))
  {
    NewBlocks(s, t, i, off, n);
    WriteCost(g, s, t, i, added, written, entry, logged, allocs, IBlock(g, i));
    BitmapCost(g, added);
    hide Logs, AllSettled, Bitmaps, Elements;
  }

  /** filewrite's chunk: three blocks' worth of bytes at any offset fit in a transaction. */
  lemma ChunkWithinBudget(g: Geometry, s: Fs, t: Fs, i: nat, off: nat, n: nat, logged: set<nat>, allocs: seq<nat>,
                          added: seq<nat>, written: seq<nat>, entry: set<nat>)
    requires OneWrite(g, s, t, i, off, n, logged, allocs, added, written, entry)
    requires n <= (MAXOPBLOCKS - 1 - 1 - 2) / 2 * BSIZE
    ensures |logged| <= MAXOPBLOCKS
    ensures NBitmaps(g) == 1 ==> |logged| <= 7
  {
    WriteBound(g, s, t, i, off, n, logged, allocs, added, written, entry);
    hide OneWrite;
    assert Spanned(off, n) <= if off % BSIZE == 0 then 3 else 4;
  }

  /** A swapped page: four aligned blocks. It fits whenever the bitmap has at most four blocks. */
  lemma SwapWithinBudget(g: Geometry, s: Fs, t: Fs, i: nat, slot: nat, n: nat, logged: set<nat>, allocs: seq<nat>,
                         added: seq<nat>, written: seq<nat>, entry: set<nat>)
    requires OneWrite(g, s, t, i, slot * PGSIZE, n, logged, allocs, added, written, entry) && n <= PGSIZE
    ensures |logged| <= MAXOPBLOCKS + 1
    ensures NBitmaps(g) <= 4 ==> |logged| <= MAXOPBLOCKS
    ensures NBitmaps(g) == 1 ==> |logged| <= 7
  {
    WriteBound(g, s, t, i, slot * PGSIZE, n, logged, allocs, added, written, entry);
    hide OneWrite;
    assert slot * PGSIZE % BSIZE == 0;
    assert Spanned(slot * PGSIZE, n) <= 4;
  }

  /**
   With five bitmap blocks or more the bound is not kept: a swapped page whose indirect block and
   four data blocks come from five different bitmap blocks logs eleven blocks.
   */
  lemma SwapOverBudget(g: Geometry, all: seq<nat>, iblock: nat)
    requires GeometryOk(g) && |all| == 5 && iblock < g.bmapstart
    requires forall b :: b in all ==> g.datastart <= b < g.size
    requires Scattered(g, all)
    ensures NBitmaps(g) >= 5
    ensures |Bitmaps(g, all) + Elements(all) + {iblock}| == MAXOPBLOCKS + 1
  {
    ScatteredBitmaps(g, all);
    ScatteredElements(g, all);
    BitmapCost(g, all);
    BitmapsInside(g, all);
    hide Bitmaps, Range, Elements;
    var bm, el := Bitmaps(g, all), Elements(all);
    assert forall b :: b in bm ==> g.bmapstart <= b < g.datastart;
    assert forall b :: b in el ==> g.datastart <= b;
    DisjointUnion(bm, el, iblock);
  }

  lemma DisjointUnion(a: set<nat>, b: set<nat>, x: nat)
    requires a !! b && x !in a && x !in b
    ensures |a + b + {x}| == |a| + |b| + 1
  {
  }

  /** No two of the blocks share a bitmap block. */
  ghost predicate Scattered(g: Geometry, q: seq<nat>)
  {
    forall i, j :: 0 <= i < j < |q| ==> BBlock(g, q[i]) != BBlock(g, q[j])
  }

  lemma {:induction false} ScatteredBitmaps(g: Geometry, q: seq<nat>)
    requires Scattered(g, q)
    ensures |Bitmaps(g, q)| == |q| && forall x :: x in Bitmaps(g, q) ==> exists i :: 0 <= i < |q| && BBlock(g, q[i]) == x
    decreases |q|
  {
    if q != [] {
      var r := q[..|q| - 1];
      ScatteredBitmaps(g, r);
      forall x | x in Bitmaps(g, q) ensures exists i :: 0 <= i < |q| && BBlock(g, q[i]) == x {
        if x in Bitmaps(g, r) {
          var i :| 0 <= i < |r| && BBlock(g, r[i]) == x;
          assert BBlock(g, q[i]) == x;
        }
      }
    }
  }

  lemma {:induction false} ScatteredElements(g: Geometry, q: seq<nat>)
    requires Scattered(g, q)
    ensures |Elements(q)| == |q|
    decreases |q|
  {
    if q != [] {
      var r := q[..|q| - 1];
      ScatteredElements(g, r);
      assert Elements(q) == Elements(r) + {q[|q| - 1]};
    }
  }
}
