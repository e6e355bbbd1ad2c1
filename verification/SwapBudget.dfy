/**
 When the write of a swapped page (swap.c) logs more blocks than begin_op reserves: an exact condition
 on the disk before the write, and a disk that meets it.
 */
module SwapBudget {
  import opened Common
  import opened BlockData
  import opened FileBlocks
  import opened FileContents
  import opened InodeCalls
  import opened InodeCode
  import opened Budget
  import opened FileWrite

  /** The blocks an allocator taking the lowest free block each time will take next. */
  ghost predicate NextFree(g: Geometry, owned: set<nat>, q: seq<nat>)
  {
    forall k :: 0 <= k < |q| ==> g.datastart <= q[k] < g.size && Lowest(g, owned, q[..k], q[k])
  }

  lemma {:induction false} TakesNext(g: Geometry, owned: set<nat>, allocs: seq<nat>, q: seq<nat>, n: nat)
    requires NextFree(g, owned, q) && n <= |q| && n <= |allocs|
    requires forall k :: 0 <= k < |allocs| ==> g.datastart <= allocs[k] && Lowest(g, owned, allocs[..k], allocs[k])
    ensures allocs[..n] == q[..n]
    decreases n
  {
    if n > 0 {
      TakesNext(g, owned, allocs, q, n - 1);
      assert Lowest(g, owned, allocs[..n - 1], allocs[n - 1]) && Lowest(g, owned, q[..n - 1], q[n - 1]);
      assert allocs[..n] == allocs[..n - 1] + [allocs[n - 1]] && q[..n] == q[..n - 1] + [q[n - 1]];
    }
  }

  lemma SubsetOfSize(a: set<nat>, b: set<nat>)
    requires a <= b && |b| <= |a|
    ensures a == b
  {
    if a != b {
      var x :| x in b && x !in a;
      SubsetFits(a, b - {x});
    }
  }

  /** Five allocations for four data blocks and the first indirect block: they are what the write logs. */
  lemma AllFive(g: Geometry, s: Fs, t: Fs, i: nat, n: nat, added: seq<nat>, written: seq<nat>, entry: set<nat>,
                logged: set<nat>, allocs: seq<nat>)
    requires OneWrite(g, s, t, i, 3 * PGSIZE, n, logged, allocs, added, written, entry)
    requires |added| == 5 && Scattered(g, added) && n <= PGSIZE
    ensures logged == Bitmaps(g, added) + Elements(added) + {IBlock(g, i)}
  {
    var x := t.inodes[i].addrs[NDIRECT];
    ScatteredElements(g, added);
    ElementsFit(written);
    UnionFits(Elements(written), {x});
    assert |written| <= 4;
    hide AllSettled, Elements;
    SubsetOfSize(Elements(added), Elements(written) + {x});
  }

  /** A fourth swapped page whose next five free blocks lie in five bitmap blocks logs eleven blocks. */
  lemma SwapLogsEleven(g: Geometry, s: Fs, t: Fs, i: nat, n: nat, added: seq<nat>, written: seq<nat>, entry: set<nat>,
                       logged: set<nat>, allocs: seq<nat>, five: seq<nat>)
    requires Inv(g, t) && OneWrite(g, s, t, i, 3 * PGSIZE, n, logged, allocs, added, written, entry)
    requires s.inodes[i].size == 3 * PGSIZE && s.inodes[i].addrs[NDIRECT] == 0 && n <= PGSIZE
    requires FirstFit(g, s.owner.Keys, t.owner.Keys, added) && (n < PGSIZE ==> Full(g, t.owner))
    requires |five| == 5 && NextFree(g, s.owner.Keys, five) && Scattered(g, five) && IBlock(g, i) < g.bmapstart
    ensures |logged| == MAXOPBLOCKS + 1
  {
    hide FirstFit, InvBut, NextFree, Scattered, Full, Elements, Bitmaps, OneWrite;
    FiveAdded(g, s, t, i, n, added, written, entry, logged, allocs, five);
    AddedAreNext(g, s.owner.Keys, t, added, five);
    AllFive(g, s, t, i, n, added, written, entry, logged, allocs);
    SwapOverBudget(g, added, IBlock(g, i));
  }

  lemma AddedAreNext(g: Geometry, owned: set<nat>, t: Fs, added: seq<nat>, five: seq<nat>)
    requires Inv(g, t) && FirstFit(g, owned, t.owner.Keys, added) && NextFree(g, owned, five) && |added| == |five|
    requires forall b :: b in added ==> b in t.owner
    ensures GeometryOk(g) && added == five && forall b :: b in added ==> g.datastart <= b < g.size
  {
    hide InvBut, Elements;
    InDataArea(g, t, added);
    TakesNext(g, owned, added, five, |five|);
    assert added[..|five|] == added && five[..|five|] == five;
  }

  lemma InDataArea(g: Geometry, t: Fs, added: seq<nat>)
    requires Inv(g, t) && forall b :: b in added ==> b in t.owner
    ensures GeometryOk(g) && forall k :: 0 <= k < |added| ==> g.datastart <= added[k]
  {
    forall k | 0 <= k < |added| ensures g.datastart <= added[k] {
      assert added[k] in added;
    }
  }

  lemma FiveAdded(g: Geometry, s: Fs, t: Fs, i: nat, n: nat, added: seq<nat>, written: seq<nat>, entry: set<nat>,
                  logged: set<nat>, allocs: seq<nat>, five: seq<nat>)
    requires Inv(g, t) && OneWrite(g, s, t, i, 3 * PGSIZE, n, logged, allocs, added, written, entry)
    requires s.inodes[i].size == 3 * PGSIZE && s.inodes[i].addrs[NDIRECT] == 0 && n <= PGSIZE
    requires FirstFit(g, s.owner.Keys, t.owner.Keys, added) && (n < PGSIZE ==> Full(g, t.owner))
    requires |five| == 5 && NextFree(g, s.owner.Keys, five) && Scattered(g, five)
    ensures |added| == 5 && forall b :: b in added ==> b in t.owner
  {
    assert Settled(s.inodes[i], s.count[i]) && Settled(t.inodes[i], t.count[i]);
    hide AllSettled, Logs;
    if n == PGSIZE {
      OwnAddr(g, t, i, NDIRECT, -1);
    } else {
      FullTakesFive(g, s.owner.Keys, t.owner, added, five);
    }
  }

  /** Filling the disk takes at least the next five free blocks. */
  lemma FullTakesFive(g: Geometry, owned: set<nat>, owner: map<nat, Use>, added: seq<nat>, five: seq<nat>)
    requires FirstFit(g, owned, owner.Keys, added) && Full(g, owner) && NextFree(g, owned, five) && Scattered(g, five)
    ensures |five| <= |added|
  {
    forall x | x in Elements(five) ensures x in Elements(added) {
      var k :| 0 <= k < |five| && five[k] == x;
      assert Lowest(g, owned, five[..k], five[k]);
      assert x in owner;
    }
    ScatteredElements(g, five);
    SubsetFits(Elements(five), Elements(added));
    ElementsFit(added);
  }

  // ---- and only there ----

  /** Allocations that touch as many bitmap blocks as there are of them touch a different one each. */
  lemma {:induction false} ManyBitmaps(g: Geometry, q: seq<nat>)
    requires |Bitmaps(g, q)| == |q|
    ensures Scattered(g, q)
    decreases |q|
  {
    if q != [] {
      var r, b := q[..|q| - 1], BBlock(g, q[|q| - 1]);
      BitmapsFit(g, r);
      assert Bitmaps(g, q) == Bitmaps(g, r) + {b};
      ManyBitmaps(g, r);
      forall k | 0 <= k < |r| ensures BBlock(g, r[k]) != b {
        HasBitmap(g, r, k);
      }
    }
  }

  lemma {:induction false} HasBitmap(g: Geometry, q: seq<nat>, k: nat)
    requires k < |q|
    ensures BBlock(g, q[k]) in Bitmaps(g, q)
    decreases |q|
  {
    if k < |q| - 1 {
      HasBitmap(g, q[..|q| - 1], k);
    }
  }

  /** More than MAXOPBLOCKS blocks: five allocations under five bitmap blocks, the first indirect block among them. */
  lemma OverTakesFive(g: Geometry, s: Fs, t: Fs, i: nat, slot: nat, n: nat, added: seq<nat>, written: seq<nat>,
                      entry: set<nat>, logged: set<nat>, allocs: seq<nat>)
    requires OneWrite(g, s, t, i, slot * PGSIZE, n, logged, allocs, added, written, entry) && n <= PGSIZE
    requires |logged| > MAXOPBLOCKS
    ensures |added| == 5 && |Bitmaps(g, added)| == 5 && i < |s.inodes| && i < |t.inodes| && i < |s.count| && i < |t.count|
    ensures t.count[i] == s.count[i] + 4 && |s.inodes[i].addrs| == |t.inodes[i].addrs| == NDIRECT + 1
    ensures s.inodes[i].addrs[NDIRECT] == 0 != t.inodes[i].addrs[NDIRECT]
  {
    hide OneWrite, Bitmaps, Elements;
    PageBlocks(g, s, t, i, slot, n, added, written, entry, logged, allocs);
    PageCost(g, s, t, i, slot, n, added, written, entry, logged, allocs);
    BitmapsFit(g, added);
  }

  lemma PageCost(g: Geometry, s: Fs, t: Fs, i: nat, slot: nat, n: nat, added: seq<nat>, written: seq<nat>,
                 entry: set<nat>, logged: set<nat>, allocs: seq<nat>)
    requires OneWrite(g, s, t, i, slot * PGSIZE, n, logged, allocs, added, written, entry)
    ensures |logged| <= |Bitmaps(g, added)| + |written| + 2
  {
    hide Spent, Logs, AllSettled, Bitmaps, Elements;
    WriteCost(g, s, t, i, added, written, entry, logged, allocs, IBlock(g, i));
  }

  /** A page spans four blocks; at most four of its file are new, and perhaps the indirect block. */
  lemma PageBlocks(g: Geometry, s: Fs, t: Fs, i: nat, slot: nat, n: nat, added: seq<nat>, written: seq<nat>,
                   entry: set<nat>, logged: set<nat>, allocs: seq<nat>)
    requires OneWrite(g, s, t, i, slot * PGSIZE, n, logged, allocs, added, written, entry) && n <= PGSIZE
    ensures |written| <= 4 && i < |s.inodes| && i < |t.inodes| && i < |s.count| && i < |t.count|
    ensures |s.inodes[i].addrs| == |t.inodes[i].addrs| == NDIRECT + 1
    ensures t.count[i] <= s.count[i] + 4
    ensures var x0, x := s.inodes[i].addrs[NDIRECT], t.inodes[i].addrs[NDIRECT];
      |added| + s.count[i] == t.count[i] + (if x0 == 0 && x != 0 then 1 else 0)
  {
    hide Logs, AllSettled, Elements, Spent, Spanned;
    SpentCount(s, t, i, added, written, entry);
    PageSpan(slot, n);
    NewBlocks(s, t, i, slot * PGSIZE, n);
  }

  lemma PageSpan(slot: nat, n: nat)
    requires n <= PGSIZE
    ensures slot * PGSIZE % BSIZE == 0 && Spanned(slot * PGSIZE, n) <= 4
  {
  }

  lemma SpentCount(s: Fs, t: Fs, i: nat, added: seq<nat>, written: seq<nat>, entry: set<nat>)
    requires Spent(s, t, i, added, written, entry)
    ensures i < |s.inodes| && i < |t.inodes| && i < |s.count| && i < |t.count|
    ensures |s.inodes[i].addrs| == |t.inodes[i].addrs| == NDIRECT + 1
    ensures var x0, x := s.inodes[i].addrs[NDIRECT], t.inodes[i].addrs[NDIRECT];
      |added| + s.count[i] == t.count[i] + (if x0 == 0 && x != 0 then 1 else 0)
  {
    hide Elements;
  }

  /** Four new blocks for one page: the file ended where the page begins. */
  lemma FourNew(s: Fs, t: Fs, i: nat, slot: nat, n: nat)
    requires AllSettled(s) && AllSettled(t) && i < |s.inodes| && i < |t.inodes| && slot * PGSIZE <= s.inodes[i].size
    requires t.inodes[i].size == (if slot * PGSIZE + n < s.inodes[i].size then s.inodes[i].size else slot * PGSIZE + n)
    requires n <= PGSIZE && t.count[i] == s.count[i] + 4
    ensures s.inodes[i].size == slot * PGSIZE && s.count[i] == 4 * slot
  {
    assert Settled(s.inodes[i], s.count[i]) && Settled(t.inodes[i], t.count[i]);
    hide AllSettled;
  }

  lemma NoIndirect(g: Geometry, s: Fs, i: nat)
    requires Inv(g, s) && i < |s.inodes| && |s.inodes[i].addrs| == NDIRECT + 1 && s.inodes[i].addrs[NDIRECT] == 0
    ensures i < |s.count| && s.count[i] <= NDIRECT
  {
    assert FileOk(s.blocks, s.inodes[i], s.owner, i, s.count[i]);
    assert AddrOk(s.blocks, s.inodes[i], s.owner, i, s.count[i], NDIRECT);
  }

  /**
   The state in which writing a page at off is too much for one transaction: it is the fourth page, the
   file has no indirect block yet, and the next five free blocks lie under five bitmap blocks.
   */
  ghost predicate TooMuch(g: Geometry, s: Fs, i: nat, off: nat)
  {
    && i < |s.inodes| && |s.inodes[i].addrs| == NDIRECT + 1
    && off == s.inodes[i].size == 3 * PGSIZE && s.inodes[i].addrs[NDIRECT] == 0
    && exists five: seq<nat> :: FiveApart(g, s.owner.Keys, five)
  }

  ghost predicate FiveApart(g: Geometry, owned: set<nat>, five: seq<nat>)
  {
    |five| == 5 && NextFree(g, owned, five) && Scattered(g, five)
  }

  lemma TakenAreNext(g: Geometry, owned: set<nat>, t: Fs, added: seq<nat>)
    requires Inv(g, t) && FirstFit(g, owned, t.owner.Keys, added)
    ensures NextFree(g, owned, added)
  {
    assert forall b :: b in added ==> b in Elements(added);
    assert forall b :: b in added ==> b in t.owner;
    InDataArea(g, t, added);
    assert forall k :: 0 <= k < |added| ==> added[k] in added;
    hide Files, Found, Blocks;
  }

  /** The condition is necessary. */
  lemma OverMeansTooMuch(g: Geometry, s: Fs, t: Fs, i: nat, slot: nat, n: nat, added: seq<nat>, written: seq<nat>,
                         entry: set<nat>, logged: set<nat>, allocs: seq<nat>)
    requires Inv(g, s) && Inv(g, t) && OneWrite(g, s, t, i, slot * PGSIZE, n, logged, allocs, added, written, entry)
    requires DirectOnly(s, t, i, slot * PGSIZE + PGSIZE) && FirstFit(g, s.owner.Keys, t.owner.Keys, added)
    requires n <= PGSIZE && |logged| > MAXOPBLOCKS
    ensures TooMuch(g, s, i, slot * PGSIZE)
  {
    hide InvBut, FirstFit, NextFree, Bitmaps, Elements, Scattered, Logs, AllSettled;
    OverTakesFive(g, s, t, i, slot, n, added, written, entry, logged, allocs);
    FourNew(s, t, i, slot, n);
    NoIndirect(g, s, i);
    assert slot == 3;
    ManyBitmaps(g, added);
    TakenAreNext(g, s.owner.Keys, t, added);
    assert FiveApart(g, s.owner.Keys, added);
  }

  /** The condition is sufficient. */
  lemma TooMuchMeansOver(g: Geometry, s: Fs, t: Fs, i: nat, n: nat, added: seq<nat>, written: seq<nat>,
                         entry: set<nat>, logged: set<nat>, allocs: seq<nat>)
    requires Inv(g, t) && OneWrite(g, s, t, i, 3 * PGSIZE, n, logged, allocs, added, written, entry)
    requires TooMuch(g, s, i, 3 * PGSIZE) && n <= PGSIZE && IBlock(g, i) < g.bmapstart
    requires FirstFit(g, s.owner.Keys, t.owner.Keys, added) && (n < PGSIZE ==> Full(g, t.owner))
    ensures |logged| == MAXOPBLOCKS + 1
  {
    hide InvBut, FirstFit, NextFree, Full, Scattered, OneWrite;
    var five :| FiveApart(g, s.owner.Keys, five);
    SwapLogsEleven(g, s, t, i, n, added, written, entry, logged, allocs, five);
  }

  /**
   The transaction of proc_swapout_page. It logs more than MAXOPBLOCKS blocks exactly in the states of
   TooMuch, and then one more.
   */
  method SwapWrite(fs: FileSystem, i: nat, slot: nat, page: seq<byte>) returns (r: int, ghost cost: nat)
    requires fs.Valid() && NoLoose(fs.owner) && AllSettled(fs.S()) && i < |fs.inodes| && |page| == PGSIZE
    requires slot * PGSIZE < WORD && IBlock(fs.g, i) < fs.g.bmapstart
    modifies fs
    ensures fs.Valid() && NoLoose(fs.owner) && AllSettled(fs.S()) && SameOthers(old(fs.S()), fs.S(), i)
    ensures -1 <= r <= PGSIZE && (0 <= r < PGSIZE ==> Full(fs.g, fs.owner))
    ensures r == -1 <==> slot * PGSIZE > old(fs.inodes[i]).size || slot > 66
    ensures PutAt(old(Contents(fs.S(), i)), slot * PGSIZE, page[..if r > 0 then r else 0], Contents(fs.S(), i))
    ensures cost > MAXOPBLOCKS <==> TooMuch(fs.g, old(fs.S()), i, slot * PGSIZE)
    ensures cost <= MAXOPBLOCKS + 1
  {
    hide FirstFit, InvBut, NoLoose, AllSettled, Contents, Patched, Full, Spent, Logs, Elements, OneWrite, SameOthers, FiveApart;
    SizePositive(fs.g, fs.S());
    fs.logged, fs.allocs, fs.before := {}, [], fs.owner.Keys;
    NothingTaken(fs.g, fs.before);
    ghost var s, off := fs.S(), slot * PGSIZE;
    ghost var added, written, entry;
    r, added, written, entry := fs.Writei(i, slot * PGSIZE, page);
    cost := |fs.logged|;
    ghost var t := fs.S();
    Others(s, t, i);
    PutNothing(Contents(s, i), off);
    assert page[..0] == [];
    if r >= 0 {
      assert page[..PGSIZE] == page;
      IsOneWrite(fs.g, s, t, i, off, r, page[..r], fs.logged, fs.allocs, added, written, entry);
      AllocsAre(fs.g, {}, fs.logged, [], fs.allocs, added, entry + Elements(written) + {IBlock(fs.g, i)});
      SwapWithinBudget(fs.g, s, t, i, slot, r, fs.logged, fs.allocs, added, written, entry);
      if cost > MAXOPBLOCKS {
        OverMeansTooMuch(fs.g, s, t, i, slot, r, added, written, entry, fs.logged, fs.allocs);
      } else if TooMuch(fs.g, s, i, off) {
        TooMuchMeansOver(fs.g, s, t, i, r, added, written, entry, fs.logged, fs.allocs);
      }
    }
  }

  lemma Others(s: Fs, t: Fs, i: nat)
    requires |t.inodes| == |s.inodes| && forall j: nat :: j < |t.inodes| && j != i ==> Contents(t, j) == Contents(s, j)
    ensures SameOthers(s, t, i)
  {
  }

  lemma AllocsAre(g: Geometry, l0: set<nat>, l1: set<nat>, a0: seq<nat>, a1: seq<nat>, added: seq<nat>, extra: set<nat>)
    requires Logs(g, l0, l1, a0, a1, added, extra) && a0 == []
    ensures a1 == added
  {
  }
}
