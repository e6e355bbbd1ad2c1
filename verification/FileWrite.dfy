/** filewrite's chunking (file.c) and the write of a swapped page (swap.c), one transaction at a time. */
module FileWrite {
  import opened Common
  import opened BlockData
  import opened FileBlocks
  import opened FileContents
  import opened InodeCalls
  import opened InodeCode
  import opened Budget

  /** Writing b right after a is writing a and b together. */
  lemma PatchedOn(c: seq<byte>, off: nat, a: seq<byte>, b: seq<byte>)
    requires off <= |c|
    ensures Patched(Patched(c, off, a), off + |a|, b) == Patched(c, off, a + b)
  {
    var p := Patched(c, off, a);
    var l, r := Patched(p, off + |a|, b), Patched(c, off, a + b);
    forall k: nat | k < |l| ensures l[k] == r[k] {
    }
  }

  /** Every file but i reads the same. */
  ghost predicate SameOthers(s: Fs, t: Fs, i: nat)
  {
    |t.inodes| == |s.inodes| && forall j: nat :: j < |s.inodes| && j != i ==> Contents(t, j) == Contents(s, j)
  }

  lemma SameOthersTwice(s: Fs, t: Fs, u: Fs, i: nat)
    requires SameOthers(s, t, i) && SameOthers(t, u, i)
    ensures SameOthers(s, u, i)
  {
    hide Contents;
    forall j: nat | j < |s.inodes| && j != i ensures Contents(u, j) == Contents(s, j) {
      assert Contents(t, j) == Contents(s, j);
    }
  }

  /** d went in at off; past the end of the file nothing can. */
  ghost predicate PutAt(c: seq<byte>, off: nat, d: seq<byte>, c': seq<byte>)
  {
    if off <= |c| then c' == Patched(c, off, d) else d == [] && c' == c
  }

  lemma PutMore(c: seq<byte>, off: nat, src: seq<byte>, n: nat, r: nat, c1: seq<byte>, c2: seq<byte>)
    requires n + r <= |src| && PutAt(c, off, src[..n], c1) && PutAt(c1, off + n, src[n..n + r], c2)
    ensures PutAt(c, off, src[..n + r], c2)
  {
    assert src[..n] + src[n..n + r] == src[..n + r];
    if off <= |c| {
      PatchedOn(c, off, src[..n], src[n..n + r]);
    }
  }

  lemma PutNothing(c: seq<byte>, off: nat)
    ensures PutAt(c, off, [], c)
  {
  }

  /**
   One transaction around writei: what writei promises, and the number of blocks it logs.
   */
  method Transaction(fs: FileSystem, i: nat, off: nat, src: seq<byte>) returns (r: int, ghost cost: nat)
    requires fs.Valid() && NoLoose(fs.owner) && AllSettled(fs.S()) && i < |fs.inodes| && off < WORD && |src| < WORD
    modifies fs
    ensures fs.Valid() && NoLoose(fs.owner) && AllSettled(fs.S()) && |fs.inodes| == |old(fs.inodes)|
    ensures r == -1 <==> off > old(fs.inodes[i]).size || off + |src| >= WORD || off + |src| > MAXFILE * BSIZE
    ensures -1 <= r <= |src| && (r == -1 ==> fs.S() == old(fs.S())) && (0 <= r < |src| ==> Full(fs.g, fs.owner))
    ensures r >= 0 ==> Contents(fs.S(), i) == Patched(old(Contents(fs.S(), i)), off, src[..r])
    ensures SameOthers(old(fs.S()), fs.S(), i)
    ensures |src| <= (MAXOPBLOCKS - 1 - 1 - 2) / 2 * BSIZE ==> cost <= MAXOPBLOCKS
    ensures off % PGSIZE == 0 && |src| <= PGSIZE && NBitmaps(fs.g) <= 4 ==> cost <= MAXOPBLOCKS
    ensures off % PGSIZE == 0 && |src| <= PGSIZE ==> cost <= MAXOPBLOCKS + 1
    ensures NBitmaps(fs.g) == 1 && (|src| <= (MAXOPBLOCKS - 1 - 1 - 2) / 2 * BSIZE || (off % PGSIZE == 0 && |src| <= PGSIZE)) ==>
      cost <= 7
  {
    hide FirstFit, InvBut, NoLoose, AllSettled, Contents, Patched, Full, Spent, Logs, Elements, OneWrite;
    SizePositive(fs.g, fs.S());
    fs.logged, fs.allocs, fs.before := {}, [], fs.owner.Keys;
    NothingTaken(fs.g, fs.before);
    ghost var s := fs.S();
    ghost var added, written, entry;
    r, added, written, entry := fs.Writei(i, off, src);
    cost := |fs.logged|;
    if r >= 0 {
      ghost var t := fs.S();
      IsOneWrite(fs.g, s, t, i, off, r, src[..r], fs.logged, fs.allocs, added, written, entry);
      if |src| <= (MAXOPBLOCKS - 1 - 1 - 2) / 2 * BSIZE {
        ChunkWithinBudget(fs.g, s, t, i, off, r, fs.logged, fs.allocs, added, written, entry);
      }
      if off % PGSIZE == 0 && |src| <= PGSIZE {
        assert off == off / PGSIZE * PGSIZE;
        SwapWithinBudget(fs.g, s, t, i, off / PGSIZE, r, fs.logged, fs.allocs, added, written, entry);
      }
    }
  }

  lemma SizePositive(g: Geometry, s: Fs)
    requires Inv(g, s)
    ensures g.size > 0
  {
  }

  lemma IsOneWrite(g: Geometry, s: Fs, t: Fs, i: nat, off: nat, n: nat, d: seq<byte>, logged: set<nat>, allocs: seq<nat>,
                   added: seq<nat>, written: seq<nat>, entry: set<nat>)
    requires g.size > 0 && AllSettled(s) && AllSettled(t) && i < |s.inodes| && i < |t.inodes|
    requires off <= s.inodes[i].size && n == |d|
    requires Contents(t, i) == Patched(Contents(s, i), off, d)
    requires |written| == Spanned(off, n) && Spent(s, t, i, added, written, entry)
    requires Logs(g, {}, logged, [], allocs, added, entry + Elements(written) + {IBlock(g, i)})
    ensures OneWrite(g, s, t, i, off, n, logged, allocs, added, written, entry)
  {
    hide AllSettled, Spent, Logs, Elements;
    assert |Contents(t, i)| == t.inodes[i].size && |Contents(s, i)| == s.inodes[i].size;
  }

  /**
   filewrite on an inode: chunks of three blocks, each its own transaction of at most MAXOPBLOCKS
   logged blocks. It reports success exactly when every byte of src is in the file.
   */
  method Filewrite(fs: FileSystem, i: nat, off: nat, src: seq<byte>) returns (ret: int, end: nat, ghost peak: nat)
    requires fs.Valid() && NoLoose(fs.owner) && AllSettled(fs.S()) && i < |fs.inodes| && off < WORD && |src| < WORD
    modifies fs
    ensures fs.Valid() && NoLoose(fs.owner) && AllSettled(fs.S()) && SameOthers(old(fs.S()), fs.S(), i)
    ensures off <= end <= off + |src| && ret == if end == off + |src| then |src| else -1
    ensures PutAt(old(Contents(fs.S(), i)), off, src[..end - off], Contents(fs.S(), i))
    ensures peak <= MAXOPBLOCKS
  {
    hide FirstFit, Inv, NoLoose, AllSettled, Contents, Patched, Full, NBitmaps, SameOthers, PutAt;
    var max := (MAXOPBLOCKS - 1 - 1 - 2) / 2 * BSIZE;
    var n := 0;
    ghost var s, c := fs.S(), Contents(fs.S(), i);
    peak := 0;
    PutNothing(c, off);
    assert src[..0] == [];
    NothingElse(s, i);
    end := off;
    while n < |src|
      invariant 0 <= n <= |src| && end == off + n < WORD && peak <= MAXOPBLOCKS
      invariant fs.Valid() && NoLoose(fs.owner) && AllSettled(fs.S()) && i < |fs.inodes| && SameOthers(s, fs.S(), i)
      invariant PutAt(c, off, src[..n], Contents(fs.S(), i))
      decreases |src| - n
    {
      var n1 := if |src| - n > max then max else |src| - n;
      ghost var t, before := fs.S(), Contents(fs.S(), i);
      var r;
      ghost var cost;
      r, cost := ChunkTransaction(fs, i, end, src[n..n + n1]);
      peak := if cost > peak then cost else peak;
      SameOthersTwice(s, t, fs.S(), i);
      assert src[n..n + n1][..if r > 0 then r else 0] == src[n..n + if r > 0 then r else 0];
      PutMore(c, off, src, n, if r > 0 then r else 0, before, Contents(fs.S(), i));
      if r > 0 {
        end := end + r;
      }
      if r != n1 {
        break;
      }
      n := n + r;
    }
    ret := if n == |src| then |src| else -1;
  }

  lemma NothingElse(s: Fs, i: nat)
    ensures SameOthers(s, s, i)
  {
  }

  /** A chunk as filewrite sees it. */
  method ChunkTransaction(fs: FileSystem, i: nat, off: nat, src: seq<byte>) returns (r: int, ghost cost: nat)
    requires fs.Valid() && NoLoose(fs.owner) && AllSettled(fs.S()) && i < |fs.inodes| && off < WORD
    requires |src| <= (MAXOPBLOCKS - 1 - 1 - 2) / 2 * BSIZE
    modifies fs
    ensures fs.Valid() && NoLoose(fs.owner) && AllSettled(fs.S()) && i < |fs.inodes| && SameOthers(old(fs.S()), fs.S(), i)
    ensures -1 <= r <= |src| && (r > 0 ==> off + r < WORD) && cost <= MAXOPBLOCKS
    ensures PutAt(old(Contents(fs.S(), i)), off, src[..if r > 0 then r else 0], Contents(fs.S(), i))
  {
    hide FirstFit, Inv, NoLoose, AllSettled, Contents, Patched, Full, NBitmaps, SameOthers;
    ghost var c := Contents(fs.S(), i);
    r, cost := Transaction(fs, i, off, src);
    PutNothing(c, off);
    assert src[..0] == [];
  }
}
