/** What the calls of fs.c promise, and the lemmas that add their stores up. */
module InodeCalls {
  import opened Common
  import opened BlockData
  import opened FileBlocks
  import opened FileContents

  /** The bitmap blocks written by a list of allocations. */
  function Bitmaps(g: Geometry, allocs: seq<nat>): (s: set<nat>)
  {
    if allocs == [] then {} else Bitmaps(g, allocs[..|allocs| - 1]) + {BBlock(g, allocs[|allocs| - 1])}
  }

  ghost predicate Full(g: Geometry, owner: map<nat, Use>)
  {
    forall b: nat :: g.datastart <= b < g.size ==> b in owner
  }

  ghost predicate NoLoose(owner: map<nat, Use>)
  {
    forall b :: b in owner ==> owner[b] != Loose
  }

  lemma FreeBlock(g: Geometry, s: Fs, b: nat)
    requires Inv(g, s) && b < g.size && !Used(g, s.blocks, b)
    requires forall x: nat :: x < b && x < g.size ==> Used(g, s.blocks, x)
    ensures g.datastart <= b && 0 < b && b !in s.owner && !Full(g, s.owner)
    ensures forall x: nat :: g.datastart <= x < b ==> x in s.owner
  {
  }

  lemma NothingFree(g: Geometry, s: Fs)
    requires Inv(g, s) && forall x: nat :: x < g.size ==> Used(g, s.blocks, x)
    ensures Full(g, s.owner)
  {
    forall b: nat | g.datastart <= b < g.size ensures b in s.owner {
      assert Used(g, s.blocks, b);
    }
  }

  lemma PreservedSelf(g: Geometry, s: Fs)
    requires Inv(g, s)
    ensures Preserved(s, s, -1)
  {
  }

  lemma AllocatedIs(g: Geometry, s: Fs, b: nat)
    requires Inv(g, s) && g.datastart <= b < g.size && !Used(g, s.blocks, b)
    ensures BBlock(g, b) < |s.blocks| && IsBlock(s.blocks[BBlock(g, b)]) && !Bit(s.blocks[BBlock(g, b)], b % BPB)
    ensures b < |s.blocks| && BBlock(g, b) != b
    ensures Allocated(g, s, b) ==
      Fs(s.blocks[BBlock(g, b) := SetBit(s.blocks[BBlock(g, b)], b % BPB)][b := ZeroBlock()],
         s.inodes, s.owner[b := Loose], s.count)
  {
    OwnedIsNotBitmap(g, b, b);
  }

  // ---- contracts of bmap ----

  /** Block bn of file i is at addr, zeroed if it is new; addr 0 means that nothing was added. */
  ghost predicate BlockMapped(s: Fs, t: Fs, i: nat, bn: nat, addr: nat)
  {
    && Preserved(s, t, -1) && i < |s.inodes| && bn <= s.count[i]
    && (forall j: nat :: j < |s.count| && j != i ==> t.count[j] == s.count[j])
    && (addr == 0 ==> bn == s.count[i] && t.count[i] == bn)
    && (addr != 0 ==>
      && t.count[i] == (if bn < s.count[i] then s.count[i] else bn + 1)
      && addr == Addr(t.blocks, t.inodes[i], bn)
      && (bn == s.count[i] ==> BlockOf(t, i, bn) == ZeroBlock()))
  }

  ghost function Elements(q: seq<nat>): set<nat>
  {
    set x | x in q
  }

  /** What was logged: each allocation's bitmap block and zeroed block, and extra. */
  ghost predicate Logs(g: Geometry, l0: set<nat>, l1: set<nat>, a0: seq<nat>, a1: seq<nat>, added: seq<nat>, extra: set<nat>)
  {
    && a1 == a0 + added && l1 == l0 + Bitmaps(g, added) + Elements(added) + extra
    && forall b :: b in added ==> b < g.size
  }

  lemma NoLogs(g: Geometry, l: set<nat>, a: seq<nat>)
    ensures Logs(g, l, l, a, a, [], {})
  {
  }

  lemma OneAlloc(g: Geometry, l: set<nat>, a: seq<nat>, b: nat)
    requires b < g.size
    ensures Logs(g, l, l + {BBlock(g, b), b}, a, a + [b], [b], {})
  {
    assert [b][..0] == [];
    assert Elements([b]) == {b};
  }

  lemma DirectAddr(g: Geometry, s: Fs, i: nat, bn: nat)
    requires Inv(g, s) && i < |s.inodes| && bn < NDIRECT && bn <= s.count[i]
    ensures |s.count| == |s.inodes|
    ensures |s.inodes[i].addrs| == NDIRECT + 1 && (s.inodes[i].addrs[bn] != 0 <==> bn < s.count[i])
  {
    assert FileOk(s.blocks, s.inodes[i], s.owner, i, s.count[i]);
    assert AddrOk(s.blocks, s.inodes[i], s.owner, i, s.count[i], bn);
  }

  lemma AlreadyThere(g: Geometry, s: Fs, i: nat, bn: nat)
    requires Inv(g, s) && i < |s.inodes| && bn < s.count[i]
    ensures BlockMapped(s, s, i, bn, Addr(s.blocks, s.inodes[i], bn))
    ensures Addr(s.blocks, s.inodes[i], bn) != 0
  {
    OwnAddr(g, s, i, bn, -1);
  }

  lemma NotGrown(g: Geometry, s: Fs, i: nat, bn: nat)
    requires Inv(g, s) && i < |s.inodes| && bn == s.count[i]
    ensures BlockMapped(s, s, i, bn, 0)
  {
  }

  lemma DirectGrown(g: Geometry, s: Fs, t: Fs, i: nat, bn: nat, b: nat)
    requires Inv(g, s) && i < |s.inodes| && bn == s.count[i] < NDIRECT && Preserved(s, t, -1) && NoLoose(s.owner)
    requires t.inodes == s.inodes && t.count == s.count && t.owner == s.owner[b := Loose]
    requires 0 < b < |t.blocks| && t.blocks[b] == ZeroBlock()
    requires |t.inodes[i].addrs| == NDIRECT + 1 && Preserved(t, LinkedDirect(t, i, bn, b), -1)
    requires BlockOf(LinkedDirect(t, i, bn, b), i, bn) == t.blocks[b]
    ensures BlockMapped(s, LinkedDirect(t, i, bn, b), i, bn, b) && NoLoose(LinkedDirect(t, i, bn, b).owner)
  {
    var u := LinkedDirect(t, i, bn, b);
    PreservedTwice(s, t, u, -1);
    hide InvBut, Preserved;
    assert Addr(u.blocks, u.inodes[i], bn) == b;
  }

  lemma IndirectAddr(g: Geometry, s: Fs, i: nat)
    requires Inv(g, s) && i < |s.inodes| && NDIRECT <= s.count[i]
    ensures |s.inodes[i].addrs| == NDIRECT + 1 && |s.count| == |s.inodes|
    ensures s.inodes[i].addrs[NDIRECT] == 0 ==> s.count[i] == NDIRECT
  {
    assert FileOk(s.blocks, s.inodes[i], s.owner, i, s.count[i]);
    assert AddrOk(s.blocks, s.inodes[i], s.owner, i, s.count[i], NDIRECT);
  }

  lemma StillNoLoose(owner: map<nat, Use>, b: nat, u: Use)
    requires NoLoose(owner) && u != Loose
    ensures NoLoose(owner[b := Loose][b := u])
  {
  }

  lemma EntryAddr(g: Geometry, s: Fs, i: nat, bn: nat)
    requires Inv(g, s) && i < |s.inodes| && NDIRECT <= bn < MAXFILE && bn <= s.count[i]
    requires |s.inodes[i].addrs| == NDIRECT + 1 && s.inodes[i].addrs[NDIRECT] != 0
    ensures |s.count| == |s.inodes|
    ensures var x := s.inodes[i].addrs[NDIRECT];
      && x < |s.blocks| && IsBlock(s.blocks[x])
      && Addr(s.blocks, s.inodes[i], bn) == Word(s.blocks[x], bn - NDIRECT)
      && (Word(s.blocks[x], bn - NDIRECT) != 0 <==> bn < s.count[i])
  {
    assert FileOk(s.blocks, s.inodes[i], s.owner, i, s.count[i]);
    assert AddrOk(s.blocks, s.inodes[i], s.owner, i, s.count[i], bn);
    assert s.inodes[i].addrs[NDIRECT] in s.owner;
  }

  lemma OneAllocAnd(g: Geometry, l: set<nat>, a: seq<nat>, b: nat, x: nat)
    requires b < g.size
    ensures Logs(g, l, l + {BBlock(g, b), b} + {x}, a, a + [b], [b], {x})
  {
    OneAlloc(g, l, a, b);
  }

  lemma EntryGrown(g: Geometry, s: Fs, t: Fs, i: nat, bn: nat, b: nat)
    requires Inv(g, s) && i < |s.inodes| && NDIRECT <= bn == s.count[i] < MAXFILE && Preserved(s, t, -1) && NoLoose(s.owner)
    requires t.inodes == s.inodes && t.count == s.count && t.owner == s.owner[b := Loose]
    requires 0 < b < |t.blocks| && t.blocks[b] == ZeroBlock()
    requires |t.inodes[i].addrs| == NDIRECT + 1 && 0 < t.inodes[i].addrs[NDIRECT] < |t.blocks| && b < WORD
    requires IsBlock(t.blocks[t.inodes[i].addrs[NDIRECT]]) && Preserved(t, LinkedEntry(t, i, bn, b), -1)
    requires BlockOf(LinkedEntry(t, i, bn, b), i, bn) == t.blocks[b]
    ensures BlockMapped(s, LinkedEntry(t, i, bn, b), i, bn, b) && NoLoose(LinkedEntry(t, i, bn, b).owner)
  {
    var u := LinkedEntry(t, i, bn, b);
    PreservedTwice(s, t, u, -1);
    hide InvBut, Preserved, Word, SetWord;
    assert Addr(u.blocks, u.inodes[i], bn) == b;
  }

  /** The blocks bmap allocated: a first indirect block, then the data block. */
  ghost predicate Added(s: Fs, t: Fs, i: nat, bn: nat, addr: nat, added: seq<nat>)
  {
    && i < |s.inodes| && i < |t.inodes| && i < |s.count| && |s.inodes[i].addrs| == |t.inodes[i].addrs| == NDIRECT + 1
    && var x0, x := s.inodes[i].addrs[NDIRECT], t.inodes[i].addrs[NDIRECT];
      && (bn < NDIRECT || x0 != 0 ==> x == x0)
      && added == (if x != x0 then [x] else []) + (if bn == s.count[i] && addr != 0 then [addr] else [])
  }

  /** A new entry is logged with the indirect block that holds it. */
  ghost function EntryLogged(s: Fs, t: Fs, i: nat, bn: nat, addr: nat): set<nat>
  {
    if i < |t.inodes| && i < |s.count| && |t.inodes[i].addrs| == NDIRECT + 1 && bn >= NDIRECT && bn == s.count[i] && addr != 0
    then {t.inodes[i].addrs[NDIRECT]} else {}
  }

  lemma SizesAgree(g: Geometry, s: Fs)
    requires Inv(g, s)
    ensures |s.count| == |s.inodes| && forall i: nat :: i < |s.inodes| ==> |s.inodes[i].addrs| == NDIRECT + 1
  {
    forall i: nat | i < |s.inodes| ensures |s.inodes[i].addrs| == NDIRECT + 1 {
      assert FileOk(s.blocks, s.inodes[i], s.owner, i, s.count[i]);
    }
  }

  lemma FullAtIndirect(g: Geometry, s: Fs, i: nat, bn: nat)
    requires Inv(g, s) && i < |s.inodes| && NDIRECT <= bn <= s.count[i] && bn < MAXFILE
    requires |s.inodes[i].addrs| == NDIRECT + 1 && s.inodes[i].addrs[NDIRECT] == 0
    ensures bn == s.count[i] && BlockMapped(s, s, i, bn, 0)
  {
    assert FileOk(s.blocks, s.inodes[i], s.owner, i, s.count[i]);
    assert AddrOk(s.blocks, s.inodes[i], s.owner, i, s.count[i], NDIRECT);
  }

  lemma MappedAfter(s: Fs, t: Fs, u: Fs, i: nat, bn: nat, addr: nat)
    requires Preserved(s, t, -1) && t.count == s.count && BlockMapped(t, u, i, bn, addr)
    ensures BlockMapped(s, u, i, bn, addr)
  {
    PreservedTwice(s, t, u, -1);
    hide Preserved, BlockOf;
  }

  lemma {:induction false} BitmapsConcat(g: Geometry, a: seq<nat>, b: seq<nat>)
    ensures Bitmaps(g, a + b) == Bitmaps(g, a) + Bitmaps(g, b)
    decreases |b|
  {
    if b == [] {
      assert a + b == a;
    } else {
      BitmapsConcat(g, a, b[..|b| - 1]);
      assert (a + b)[..|a + b| - 1] == a + b[..|b| - 1];
    }
  }

  lemma LogsOn(g: Geometry, l0: set<nat>, l1: set<nat>, l2: set<nat>, a0: seq<nat>, a1: seq<nat>, a2: seq<nat>,
               p: seq<nat>, q: seq<nat>, x: set<nat>, y: set<nat>)
    requires Logs(g, l0, l1, a0, a1, p, x) && Logs(g, l1, l2, a1, a2, q, y)
    ensures Logs(g, l0, l2, a0, a2, p + q, x + y)
  {
    BitmapsConcat(g, p, q);
    assert Elements(p + q) == Elements(p) + Elements(q);
    assert a0 + p + q == a0 + (p + q);
  }

  // ---- contracts of writei ----

  /** The bytes [off, off + |d|) of file i are d; all its other bytes and all other files are as before. */
  ghost predicate ChunkWritten(s: Fs, t: Fs, i: nat, off: nat, d: seq<byte>)
  {
    && Preserved(s, t, i) && i < |s.inodes| && t.inodes[i].size == s.inodes[i].size
    && (forall j: nat :: j < |s.count| && j != i ==> t.count[j] == s.count[j])
    && t.count[i] == (if off / BSIZE < s.count[i] then s.count[i] else off / BSIZE + 1)
    && (forall k: nat :: k / BSIZE < s.count[i] || off <= k < off + |d| ==>
      ByteAt(t, i, k) == if off <= k < off + |d| then d[k - off] else ByteAt(s, i, k))
  }

  /** What was allocated was written or is the file's indirect block. */
  ghost predicate Spent(s: Fs, t: Fs, i: nat, added: seq<nat>, written: seq<nat>, entry: set<nat>)
  {
    && i < |s.inodes| && i < |t.inodes| && i < |s.count| && i < |t.count|
    && |s.inodes[i].addrs| == |t.inodes[i].addrs| == NDIRECT + 1
    && var x0, x := s.inodes[i].addrs[NDIRECT], t.inodes[i].addrs[NDIRECT];
      && (x0 != 0 ==> x == x0)
      && (x == 0 ==> Elements(added) <= Elements(written) && entry == {})
      && Elements(added) <= Elements(written) + {x} && entry <= {x}
      && |added| + s.count[i] == t.count[i] + (if x != x0 then 1 else 0)
  }

  /** Writing no further than the direct blocks leaves the indirect block as it is. */
  ghost predicate DirectOnly(s: Fs, t: Fs, i: nat, end: nat)
  {
    end <= NDIRECT * BSIZE ==>
      && i < |s.inodes| && i < |t.inodes| && |s.inodes[i].addrs| == |t.inodes[i].addrs| == NDIRECT + 1
      && t.inodes[i].addrs[NDIRECT] == s.inodes[i].addrs[NDIRECT]
  }

  lemma DirectAlong(s: Fs, t: Fs, u: Fs, i: nat, e: nat, end: nat)
    requires DirectOnly(s, t, i, end) && DirectOnly(t, u, i, e) && e <= end
    ensures DirectOnly(s, u, i, end)
  {
  }

  lemma DirectStart(g: Geometry, s: Fs, i: nat, end: nat)
    requires Inv(g, s) && i < |s.inodes|
    ensures DirectOnly(s, s, i, end)
  {
    SizesAgree(g, s);
  }

  lemma DirectResized(s: Fs, t: Fs, u: Fs, i: nat, end: nat)
    requires DirectOnly(s, t, i, end) && i < |t.inodes| && i < |u.inodes| && u.inodes[i].addrs == t.inodes[i].addrs
    ensures DirectOnly(s, u, i, end)
  {
  }

  lemma ElementsOne(x: nat)
    ensures Elements([]) == {} && Elements([x]) == {x}
  {
  }

  lemma SpentByMap(g: Geometry, s: Fs, t: Fs, i: nat, bn: nat, addr: nat, added: seq<nat>)
    requires BlockMapped(s, t, i, bn, addr) && Added(s, t, i, bn, addr, added)
    ensures addr == 0 ==> Spent(s, t, i, added, [], EntryLogged(s, t, i, bn, addr))
    ensures addr != 0 ==> Spent(s, t, i, added, [addr], EntryLogged(s, t, i, bn, addr))
  {
    hide BlockOf;
  }

  lemma NothingMapped(s: Fs, t: Fs, i: nat, bn: nat)
    requires BlockMapped(s, t, i, bn, 0)
    ensures Preserved(s, t, -1) && t.count == s.count
  {
    hide BlockOf;
  }

  lemma MappedCount(g: Geometry, s: Fs, t: Fs, i: nat, bn: nat, addr: nat)
    requires BlockMapped(s, t, i, bn, addr) && addr != 0 && Inv(g, t)
    ensures i < |t.inodes| && bn < t.count[i] && addr == Addr(t.blocks, t.inodes[i], bn)
    ensures addr < |t.blocks| && IsBlock(t.blocks[addr])
  {
    OwnAddr(g, t, i, bn, -1);
  }

  lemma LogMore(g: Geometry, l0: set<nat>, l1: set<nat>, a0: seq<nat>, a1: seq<nat>, added: seq<nat>, entry: set<nat>, x: nat)
    requires Logs(g, l0, l1, a0, a1, added, entry)
    ensures Logs(g, l0, l1 + {x}, a0, a1, added, entry + Elements([x]))
  {
    ElementsOne(x);
  }

  lemma ChunkBytes(s: Fs, t: Fs, u: Fs, i: nat, off: nat, d: seq<byte>, addr: nat, k: nat)
    requires BlockMapped(s, t, i, off / BSIZE, addr) && addr != 0 && off % BSIZE + |d| <= BSIZE
    requires addr < |t.blocks| && BlockOf(t, i, off / BSIZE) == t.blocks[addr]
    requires IsBlock(t.blocks[addr]) && off / BSIZE < t.count[i]
    requires Wrote(t, u, i, off / BSIZE, Overlay(t.blocks[addr], off % BSIZE, d))
    requires k / BSIZE < s.count[i] || off <= k < off + |d|
    ensures ByteAt(u, i, k) == if off <= k < off + |d| then d[k - off] else ByteAt(s, i, k)
  {
    var bn := off / BSIZE;
    if off <= k < off + |d| {
      assert k / BSIZE == bn && k % BSIZE == off % BSIZE + (k - off);
    }
    if k / BSIZE == bn {
      assert BlockOf(u, i, bn) == Overlay(t.blocks[addr], off % BSIZE, d);
      assert k == bn * BSIZE + k % BSIZE && off == bn * BSIZE + off % BSIZE;
    }
    hide Addr, Overlay;
  }

  lemma ChunkDone(g: Geometry, s: Fs, t: Fs, u: Fs, i: nat, off: nat, d: seq<byte>, addr: nat)
    requires BlockMapped(s, t, i, off / BSIZE, addr) && addr != 0 && off % BSIZE + |d| <= BSIZE && Inv(g, t)
    requires addr < |t.blocks| && IsBlock(t.blocks[addr])
    requires addr == Addr(t.blocks, t.inodes[i], off / BSIZE) && off / BSIZE < t.count[i]
    requires Wrote(t, u, i, off / BSIZE, Overlay(t.blocks[addr], off % BSIZE, d))
    ensures ChunkWritten(s, u, i, off, d)
  {
    hide InvBut;
    assert BlockOf(t, i, off / BSIZE) == t.blocks[addr];
    forall k: nat | k / BSIZE < s.count[i] || off <= k < off + |d|
      ensures ByteAt(u, i, k) == if off <= k < off + |d| then d[k - off] else ByteAt(s, i, k)
    {
      ChunkBytes(s, t, u, i, off, d, addr, k);
    }
    OthersKept(s, t, u, i, off / BSIZE, Overlay(t.blocks[addr], off % BSIZE, d));
    hide BlockOf, ByteAt, Overlay;
  }

  lemma OthersKept(s: Fs, t: Fs, u: Fs, i: nat, bn: nat, data: seq<byte>)
    requires Preserved(s, t, -1) && Wrote(t, u, i, bn, data)
    ensures Preserved(s, u, i)
  {
    hide BlockOf;
    forall j: nat, n: nat | j < |s.inodes| && j != i && n < s.count[j] ensures BlockOf(u, j, n) == BlockOf(s, j, n) {
      assert BlockOf(t, j, n) == BlockOf(s, j, n);
    }
  }

  /** Data blocks a file of sz bytes has. */
  function Ceil(sz: nat): nat
  {
    (sz + BSIZE - 1) / BSIZE
  }

  /** Between calls, every file has the blocks its size asks for. */
  ghost predicate AllSettled(s: Fs)
  {
    |s.count| == |s.inodes| && forall i: nat :: i < |s.inodes| ==> Settled(s.inodes[i], s.count[i])
  }

  predicate Settled(ino: Inode, count: nat)
  {
    ino.size <= MAXFILE * BSIZE && count == Ceil(ino.size)
  }

  /** c with d written over it from off on. */
  function Patched(c: seq<byte>, off: nat, d: seq<byte>): (p: seq<byte>)
    requires off <= |c|
    ensures |p| == if off + |d| < |c| then |c| else off + |d|
    ensures p[off..off + |d|] == d && p[..off] == c[..off]
    ensures off + |d| < |c| ==> p[off + |d|..] == c[off + |d|..]
  {
    c[..off] + d + (if off + |d| < |c| then c[off + |d|..] else [])
  }

  /** How many blocks the bytes [off, off + n) touch. */
  function Spanned(off: nat, n: nat): nat
  {
    if n == 0 then 0 else (off + n - 1) / BSIZE - off / BSIZE + 1
  }

  lemma SpannedNext(off: nat, tot: nat, m: nat)
    requires m > 0 && (off + tot) % BSIZE + m <= BSIZE && (tot == 0 || (off + tot) % BSIZE == 0)
    ensures Spanned(off, tot + m) == Spanned(off, tot) + 1
  {
    var x := off + tot;
    assert (x + m - 1) / BSIZE == x / BSIZE;
  }

  /** Like ChunkWritten, over any number of blocks. */
  ghost predicate RangeWritten(s: Fs, t: Fs, i: nat, off: nat, d: seq<byte>)
  {
    && Preserved(s, t, i) && i < |s.inodes| && t.inodes[i].size == s.inodes[i].size
    && (forall j: nat :: j < |s.count| && j != i ==> t.count[j] == s.count[j])
    && Settled(s.inodes[i], s.count[i]) && off <= s.inodes[i].size
    && t.count[i] == (if d == [] || Ceil(off + |d|) < s.count[i] then s.count[i] else Ceil(off + |d|))
    && (forall k: nat :: k / BSIZE < s.count[i] || off <= k < off + |d| ==>
      ByteAt(t, i, k) == if off <= k < off + |d| then d[k - off] else ByteAt(s, i, k))
  }

  lemma StartWriting(g: Geometry, s: Fs, i: nat, off: nat)
    requires Inv(g, s) && AllSettled(s) && i < |s.inodes| && off <= s.inodes[i].size
    ensures RangeWritten(s, s, i, off, [])
  {
    hide BlockOf, ByteAt;
  }

  lemma NothingSpent(s: Fs, i: nat, l: set<nat>, a: seq<nat>, g: Geometry)
    requires Inv(g, s) && i < |s.inodes|
    ensures Spent(s, s, i, [], [], {}) && Logs(g, l, l, a, a, [], {} + Elements([]))
  {
    SizesAgree(g, s);
    NoLogs(g, l, a);
    ElementsOne(0);
    hide InvBut;
  }

  lemma NextChunk(s: Fs, t: Fs, i: nat, off: nat, d: seq<byte>, m: nat, n: nat)
    requires RangeWritten(s, t, i, off, d) && off + n <= MAXFILE * BSIZE && |d| < n
    ensures i < |t.inodes| && i < |t.count| && (off + |d|) / BSIZE <= t.count[i] && (off + |d|) / BSIZE < MAXFILE
  {
    hide BlockOf, ByteAt;
  }

  lemma SpentOn(s: Fs, t: Fs, u: Fs, i: nat, a1: seq<nat>, w1: seq<nat>, e1: set<nat>, a2: seq<nat>, w2: seq<nat>, e2: set<nat>)
    requires Spent(s, t, i, a1, w1, e1) && Spent(t, u, i, a2, w2, e2)
    ensures Spent(s, u, i, a1 + a2, w1 + w2, e1 + e2)
  {
    assert Elements(a1 + a2) == Elements(a1) + Elements(a2);
    assert Elements(w1 + w2) == Elements(w1) + Elements(w2);
    hide Elements;
  }

  lemma SpentSame(s: Fs, t: Fs, u: Fs, i: nat, added: seq<nat>, written: seq<nat>, entry: set<nat>)
    requires Spent(s, t, i, added, written, entry) && |u.inodes| == |t.inodes| && u.count == t.count
    requires u.inodes[i].addrs == t.inodes[i].addrs
    ensures Spent(s, u, i, added, written, entry)
  {
    hide Elements;
  }

  lemma LogsAlong(g: Geometry, l0: set<nat>, l1: set<nat>, l2: set<nat>, a0: seq<nat>, a1: seq<nat>, a2: seq<nat>,
                  p: seq<nat>, w: seq<nat>, e: set<nat>, p2: seq<nat>, w2: seq<nat>, e2: set<nat>)
    requires Logs(g, l0, l1, a0, a1, p, e + Elements(w)) && Logs(g, l1, l2, a1, a2, p2, e2 + Elements(w2))
    ensures Logs(g, l0, l2, a0, a2, p + p2, e + e2 + Elements(w + w2))
  {
    LogsOn(g, l0, l1, l2, a0, a1, a2, p, p2, e + Elements(w), e2 + Elements(w2));
    assert Elements(w + w2) == Elements(w) + Elements(w2);
    assert e + Elements(w) + (e2 + Elements(w2)) == e + e2 + Elements(w + w2);
    hide Logs;
  }

  lemma LogInode(g: Geometry, l0: set<nat>, l1: set<nat>, a0: seq<nat>, a1: seq<nat>, p: seq<nat>, x: set<nat>, b: nat)
    requires Logs(g, l0, l1, a0, a1, p, x)
    ensures Logs(g, l0, l1 + {b}, a0, a1, p, x + {b})
  {
  }

  lemma RangeKept(s: Fs, t: Fs, u: Fs, i: nat, off: nat, d: seq<byte>)
    requires RangeWritten(s, t, i, off, d) && Preserved(t, u, -1) && u.count == t.count
    ensures RangeWritten(s, u, i, off, d)
  {
    OthersKeptToo(s, t, u, i);
    forall k: nat | k / BSIZE < s.count[i] || off <= k < off + |d| ensures ByteAt(u, i, k) == ByteAt(t, i, k) {
      assert k / BSIZE < t.count[i];
      assert BlockOf(u, i, k / BSIZE) == BlockOf(t, i, k / BSIZE);
    }
    hide BlockOf, ByteAt;
  }

  lemma OthersKeptToo(s: Fs, t: Fs, u: Fs, i: nat)
    requires Preserved(s, t, i) && Preserved(t, u, -1)
    ensures Preserved(s, u, i)
  {
    hide BlockOf;
    forall j: nat, n: nat | j < |s.inodes| && j != i && n < s.count[j] ensures BlockOf(u, j, n) == BlockOf(s, j, n) {
      assert BlockOf(t, j, n) == BlockOf(s, j, n);
    }
  }

  lemma RangeOn(s: Fs, t: Fs, u: Fs, i: nat, off: nat, d: seq<byte>, e: seq<byte>)
    requires RangeWritten(s, t, i, off, d) && ChunkWritten(t, u, i, off + |d|, e)
    requires e != [] && (off + |d|) % BSIZE + |e| <= BSIZE
    ensures RangeWritten(s, u, i, off, d + e)
  {
    PreservedTwice(s, t, u, i);
    RangeCount(s, t, u, i, off, d, e);
    hide BlockOf, Preserved;
    forall k: nat | k / BSIZE < s.count[i] || off <= k < off + |d + e|
      ensures ByteAt(u, i, k) == if off <= k < off + |d + e| then (d + e)[k - off] else ByteAt(s, i, k)
    {
      RangeByte(s, t, u, i, off, d, e, k);
    }
  }

  lemma RangeCount(s: Fs, t: Fs, u: Fs, i: nat, off: nat, d: seq<byte>, e: seq<byte>)
    requires RangeWritten(s, t, i, off, d) && ChunkWritten(t, u, i, off + |d|, e)
    requires e != [] && (off + |d|) % BSIZE + |e| <= BSIZE
    ensures i < |u.count| && u.count[i] == if Ceil(off + |d + e|) < s.count[i] then s.count[i] else Ceil(off + |d + e|)
  {
    hide BlockOf, ByteAt;
    var x := off + |d|;
    assert Ceil(x + |e|) == x / BSIZE + 1;
  }

  lemma RangeByte(s: Fs, t: Fs, u: Fs, i: nat, off: nat, d: seq<byte>, e: seq<byte>, k: nat)
    requires RangeWritten(s, t, i, off, d) && ChunkWritten(t, u, i, off + |d|, e)
    requires k / BSIZE < s.count[i] || off <= k < off + |d + e|
    ensures i < |u.inodes| && i < |s.inodes|
    ensures ByteAt(u, i, k) == if off <= k < off + |d + e| then (d + e)[k - off] else ByteAt(s, i, k)
  {
    hide BlockOf, ByteAt;
    if off <= k < off + |d| {
      assert k / BSIZE < t.count[i];
    }
  }

  lemma RangeThere(s: Fs, t: Fs, i: nat, off: nat, d: seq<byte>)
    requires RangeWritten(s, t, i, off, d)
    ensures i < |t.inodes| && |t.inodes| == |s.inodes|
  {
    hide BlockOf, ByteAt;
  }

  lemma SizeSet(g: Geometry, s: Fs, t: Fs, u: Fs, i: nat, off: nat, d: seq<byte>)
    requires RangeWritten(s, t, i, off, d) && Inv(g, t) && AllSettled(s) && off + |d| <= MAXFILE * BSIZE
    requires u == t.(inodes := u.inodes) && i < |t.inodes|
    requires u.inodes == if off + |d| > t.inodes[i].size then t.inodes[i := t.inodes[i].(size := off + |d|)] else t.inodes
    ensures Inv(g, u) && AllSettled(u) && |u.inodes| == |s.inodes|
    ensures Contents(u, i) == Patched(Contents(s, i), off, d)
    ensures forall j: nat :: j < |s.inodes| && j != i ==> Contents(u, j) == Contents(s, j)
  {
    Resized(g, t, u, i);
    PatchedContents(s, t, u, i, off, d);
    forall j: nat | j < |s.inodes| && j != i ensures Contents(u, j) == Contents(s, j) {
      SameContents(s, t, u, i, j);
    }
    NowSettled(s, t, u, i, off, d);
    hide InvBut, Contents, Patched;
  }

  /** The invariant does not speak of sizes. */
  lemma Resized(g: Geometry, t: Fs, u: Fs, i: nat)
    requires Inv(g, t) && i < |t.inodes| && u == t.(inodes := u.inodes) && |u.inodes| == |t.inodes|
    requires forall j: nat :: j < |t.inodes| ==> u.inodes[j].addrs == t.inodes[j].addrs
    ensures Inv(g, u)
  {
    forall j: nat | j < |u.inodes| ensures FileOk(u.blocks, u.inodes[j], u.owner, j, u.count[j]) {
      assert FileOk(t.blocks, t.inodes[j], t.owner, j, t.count[j]);
      forall n: nat | n < MAXFILE ensures AddrOk(u.blocks, u.inodes[j], u.owner, j, u.count[j], n) {
        assert AddrOk(t.blocks, t.inodes[j], t.owner, j, t.count[j], n);
      }
    }
  }

  lemma PatchedContents(s: Fs, t: Fs, u: Fs, i: nat, off: nat, d: seq<byte>)
    requires RangeWritten(s, t, i, off, d) && i < |t.inodes| && u == t.(inodes := u.inodes)
    requires u.inodes == if off + |d| > t.inodes[i].size then t.inodes[i := t.inodes[i].(size := off + |d|)] else t.inodes
    ensures Contents(u, i) == Patched(Contents(s, i), off, d)
  {
    var c, p := Contents(u, i), Patched(Contents(s, i), off, d);
    forall k: nat | k < |c| ensures c[k] == p[k] {
      assert ByteAt(u, i, k) == ByteAt(t, i, k);
      hide ByteAt, BlockOf, Preserved;
      assert k < s.inodes[i].size ==> k / BSIZE < s.count[i];
    }
  }

  lemma SameContents(s: Fs, t: Fs, u: Fs, i: nat, j: nat)
    requires Preserved(s, t, i) && j < |s.inodes| && j != i && AllSettled(s)
    requires u.blocks == t.blocks && j < |u.inodes| && u.inodes[j] == t.inodes[j]
    ensures Contents(u, j) == Contents(s, j)
  {
    forall k: nat | k < s.inodes[j].size ensures ByteAt(u, j, k) == ByteAt(s, j, k) {
      assert Settled(s.inodes[j], s.count[j]);
      assert BlockOf(t, j, k / BSIZE) == BlockOf(s, j, k / BSIZE);
    }
  }

  lemma NowSettled(s: Fs, t: Fs, u: Fs, i: nat, off: nat, d: seq<byte>)
    requires RangeWritten(s, t, i, off, d) && AllSettled(s) && off + |d| <= MAXFILE * BSIZE
    requires u == t.(inodes := u.inodes) && i < |t.inodes|
    requires u.inodes == if off + |d| > t.inodes[i].size then t.inodes[i := t.inodes[i].(size := off + |d|)] else t.inodes
    ensures AllSettled(u)
  {
    hide ByteAt, BlockOf;
    forall j: nat | j < |u.inodes| ensures Settled(u.inodes[j], u.count[j]) {
      assert Settled(s.inodes[j], s.count[j]);
    }
  }

  lemma SpannedNone(off: nat)
    ensures Spanned(off, 0) == 0
  {
  }

  // ---- contracts of readi and itrunc ----

  lemma InFile(g: Geometry, s: Fs, i: nat, x: nat)
    requires Inv(g, s) && AllSettled(s) && i < |s.inodes| && x < s.inodes[i].size
    ensures |s.count| == |s.inodes| && x / BSIZE < s.count[i] && x / BSIZE < MAXFILE
  {
    assert Settled(s.inodes[i], s.count[i]);
    hide InvBut;
  }

  lemma NoLogsMade(g: Geometry, l1: set<nat>, l0: set<nat>, a1: seq<nat>, a0: seq<nat>, s: Fs, i: nat, bn: nat, addr: nat)
    requires Inv(g, s) && i < |s.inodes| && bn < s.count[i] && Logs(g, l0, l1, a0, a1, [], EntryLogged(s, s, i, bn, addr))
    ensures l1 == l0 && a1 == a0
  {
    hide InvBut;
  }

  lemma ReadSlice(g: Geometry, s: Fs, i: nat, x: nat, m: nat, addr: nat)
    requires Inv(g, s) && i < |s.inodes| && x / BSIZE < s.count[i] && BlockMapped(s, s, i, x / BSIZE, addr)
    requires x % BSIZE + m <= BSIZE && x + m <= s.inodes[i].size
    ensures addr < |s.blocks| && IsBlock(s.blocks[addr])
    ensures Contents(s, i)[x..x + m] == s.blocks[addr][x % BSIZE..x % BSIZE + m]
  {
    hide InvBut, Preserved;
    OwnAddr(g, s, i, x / BSIZE, -1);
    hide Addr;
    var c, d := Contents(s, i)[x..x + m], s.blocks[addr][x % BSIZE..x % BSIZE + m];
    forall k: nat | k < m ensures c[k] == d[k] {
      assert (x + k) / BSIZE == x / BSIZE && (x + k) % BSIZE == x % BSIZE + k;
      assert c[k] == ByteAt(s, i, x + k);
    }
  }

  lemma FreedPreserves(g: Geometry, s: Fs, b: nat, but: int)
    requires InvBut(g, s, but) && b in s.owner && b < g.size && Used(g, s.blocks, b)
    ensures Preserved(s, Freed(g, s, b), but)
  {
    OwnedIsNotBitmap(g, b, g.datastart);
    var bm := ClearBit(s.blocks[BBlock(g, b)], b % BPB);
    var t := Freed(g, s, b);
    forall i: nat, n: nat | i < |s.inodes| && i != but && n < s.count[i] ensures BlockOf(t, i, n) == BlockOf(s, i, n) {
      RewriteElsewhere(g, s, BBlock(g, b), bm, i, n, but);
      SameFile(s.(blocks := s.blocks[BBlock(g, b) := bm]), t, i, n);
    }
    hide BlockOf, Used;
  }

  predicate Mine(u: Use, i: nat)
  {
    (u.Data? || u.Indirect?) && u.ino == i
  }

  /** The owners once blocks below k of file i are free and its other blocks are loose. */
  function Stripped(owner: map<nat, Use>, i: nat, k: nat): map<nat, Use>
  {
    map b | b in owner && !(owner[b].Data? && owner[b].ino == i && owner[b].bn < k) ::
      if Mine(owner[b], i) then Loose else owner[b]
  }

  /** The owners without file i. */
  function Without(owner: map<nat, Use>, i: nat): map<nat, Use>
  {
    map b | b in owner && !Mine(owner[b], i) :: owner[b]
  }

  lemma Loosen(g: Geometry, s: Fs, i: nat)
    requires Inv(g, s) && i < |s.inodes|
    ensures InvBut(g, s.(owner := Stripped(s.owner, i, 0)), i)
  {
    var t := s.(owner := Stripped(s.owner, i, 0));
    assert t.owner.Keys == s.owner.Keys;
    assert Mapped(g, t);
    hide Mapped, Blocks;
    forall j: nat | j < |s.inodes| && j != i ensures FileOk(t.blocks, t.inodes[j], t.owner, j, t.count[j]) {
      assert FileOk(s.blocks, s.inodes[j], s.owner, j, s.count[j]);
      forall n: nat | n < MAXFILE ensures AddrOk(t.blocks, t.inodes[j], t.owner, j, t.count[j], n) {
        assert AddrOk(s.blocks, s.inodes[j], s.owner, j, s.count[j], n);
      }
    }
  }

  /** Dropping block k of the file from the owners. */
  lemma StripNext(g: Geometry, s: Fs, i: nat, k: nat)
    requires Inv(g, s) && i < |s.inodes| && k < MAXFILE
    ensures var a := Addr(s.blocks, s.inodes[i], k);
      if a == 0 then Stripped(s.owner, i, k + 1) == Stripped(s.owner, i, k)
      else
        && a in Stripped(s.owner, i, k) && Stripped(s.owner, i, k)[a] == Loose && g.datastart <= a
        && Stripped(s.owner, i, k + 1) == Stripped(s.owner, i, k) - {a}
  {
    var a := Addr(s.blocks, s.inodes[i], k);
    assert FileOk(s.blocks, s.inodes[i], s.owner, i, s.count[i]);
    assert AddrOk(s.blocks, s.inodes[i], s.owner, i, s.count[i], k);
    forall b | b in s.owner && s.owner[b] == Data(i, k) ensures b == a && b > 0 {
      assert BelongsTo(s.blocks, s.inodes, b, s.owner[b]);
    }
    hide Files, Found, Blocks, FileOk, Addr;
  }

  /** itrunc has freed the first k blocks of file i; everything else of s is in place. */
  ghost predicate Truncating(g: Geometry, s: Fs, t: Fs, i: nat, k: nat)
  {
    && Inv(g, s) && InvBut(g, t, i) && i < |s.inodes| && |t.inodes| == |s.inodes| && t.count == s.count
    && t.owner == Stripped(s.owner, i, k) && Preserved(s, t, i)
    && |s.inodes[i].addrs| == |t.inodes[i].addrs| == NDIRECT + 1
    && (forall j: nat :: j < |s.inodes| && j != i ==> t.inodes[j] == s.inodes[j])
    && (forall j: nat :: j <= NDIRECT ==>
      t.inodes[i].addrs[j] == if j < k && j < NDIRECT then 0 else s.inodes[i].addrs[j])
    && |t.blocks| == |s.blocks| && (forall x: nat :: g.datastart <= x < |s.blocks| ==> t.blocks[x] == s.blocks[x])
  }

  lemma NotTheBitmap(g: Geometry, s: Fs, t: Fs, i: nat, k: nat, a: nat)
    requires Truncating(g, s, t, i, k) && a in t.owner && t.owner[a] == Loose
    ensures !IndirectAt(t.inodes[i], BBlock(g, a))
  {
    assert FileOk(s.blocks, s.inodes[i], s.owner, i, s.count[i]);
    assert g.datastart <= a < g.size;
    OwnedIsNotBitmap(g, a, g.datastart);
    hide Files, Found, Used, Preserved, Stripped;
  }

  lemma StillPreserved(s: Fs, t: Fs, u: Fs, i: nat)
    requires Preserved(s, t, i) && Preserved(t, u, i)
    ensures Preserved(s, u, i)
  {
    PreservedTwice(s, t, u, i);
  }

  lemma NoneMine(owner: map<nat, Use>, i: nat, k: nat)
    ensures forall b :: b in Stripped(owner, i, k) ==> !Mine(Stripped(owner, i, k)[b], i)
  {
  }

  /** A file none of whose blocks are marked as its own may change its addresses freely. */
  lemma EditInode(g: Geometry, s: Fs, i: nat, ino: Inode)
    requires InvBut(g, s, i) && i < |s.inodes| && forall b :: b in s.owner ==> !Mine(s.owner[b], i)
    ensures InvBut(g, s.(inodes := s.inodes[i := ino]), i)
  {
    var t := s.(inodes := s.inodes[i := ino]);
    hide FileOk, Addr;
    assert Files(t, i);
    hide Files;
    forall b | b in t.owner ensures BelongsTo(t.blocks, t.inodes, b, t.owner[b]) {
      assert BelongsTo(s.blocks, s.inodes, b, s.owner[b]);
    }
  }

  lemma EditPreserved(s: Fs, t: Fs, u: Fs, i: nat)
    requires Preserved(s, t, i) && i < |t.inodes| && u.blocks == t.blocks && u.count == t.count
    requires |u.inodes| == |t.inodes| && forall j: nat :: j < |t.inodes| && j != i ==> u.inodes[j] == t.inodes[j]
    ensures Preserved(s, u, i)
  {
    forall j: nat, n: nat | j < |s.inodes| && j != i && n < s.count[j] ensures BlockOf(u, j, n) == BlockOf(s, j, n) {
      assert BlockOf(t, j, n) == BlockOf(s, j, n);
    }
    hide BlockOf;
  }

  lemma DirectIs(s: Fs, i: nat, k: nat)
    requires i < |s.inodes| && |s.inodes[i].addrs| == NDIRECT + 1
    ensures k < NDIRECT ==> Addr(s.blocks, s.inodes[i], k) == s.inodes[i].addrs[k]
  {
  }

  lemma IndirectKept(g: Geometry, s: Fs, t: Fs, i: nat)
    requires Truncating(g, s, t, i, NDIRECT) && t.inodes[i].addrs[NDIRECT] != 0
    ensures var x := t.inodes[i].addrs[NDIRECT];
      x == s.inodes[i].addrs[NDIRECT] && 0 < x < |t.blocks| && t.blocks[x] == s.blocks[x] && IsBlock(s.blocks[x])
  {
    assert FileOk(s.blocks, s.inodes[i], s.owner, i, s.count[i]);
    assert g.datastart <= s.inodes[i].addrs[NDIRECT] < g.size;
    hide Files, Found, Used, Preserved, Stripped;
  }

  lemma EntryIs(s: Fs, i: nat, j: nat)
    requires i < |s.inodes| && |s.inodes[i].addrs| == NDIRECT + 1 && j < NINDIRECT
    requires 0 < s.inodes[i].addrs[NDIRECT] < |s.blocks| && IsBlock(s.blocks[s.inodes[i].addrs[NDIRECT]])
    ensures Addr(s.blocks, s.inodes[i], NDIRECT + j) == Word(s.blocks[s.inodes[i].addrs[NDIRECT]], j)
  {
  }

  lemma StartTruncating(g: Geometry, s: Fs, i: nat)
    requires Inv(g, s) && i < |s.inodes|
    ensures Truncating(g, s, s.(owner := Stripped(s.owner, i, 0)), i, 0) && Stripped(s.owner, i, 0).Keys == s.owner.Keys
  {
    assert Stripped(s.owner, i, 0).Keys == s.owner.Keys;
    Loosen(g, s, i);
    SizesAgree(g, s);
    hide InvBut, Stripped;
  }

  lemma AddressLeft(g: Geometry, s: Fs, t: Fs, i: nat, k: nat)
    requires Truncating(g, s, t, i, k)
    ensures i < |t.inodes| && |t.inodes[i].addrs| == NDIRECT + 1 && |t.count| == |t.inodes| && InvBut(g, t, i)
    ensures t.inodes[i].addrs[NDIRECT] == s.inodes[i].addrs[NDIRECT]
    ensures k < NDIRECT ==> t.inodes[i].addrs[k] == Addr(s.blocks, s.inodes[i], k)
  {
    hide Blocks, Mapped, Found, FileOk, Preserved, Stripped;
  }

  lemma IndirectLoose(g: Geometry, s: Fs, t: Fs, i: nat)
    requires Truncating(g, s, t, i, MAXFILE) && t.inodes[i].addrs[NDIRECT] != 0
    ensures var x := t.inodes[i].addrs[NDIRECT];
      x in t.owner && t.owner[x] == Loose && !IndirectAt(t.inodes[i], BBlock(g, x))
  {
    var x := t.inodes[i].addrs[NDIRECT];
    assert FileOk(s.blocks, s.inodes[i], s.owner, i, s.count[i]);
    assert x in t.owner && t.owner[x] == Loose;
    NotTheBitmap(g, s, t, i, MAXFILE, x);
    hide InvBut, FileOk, Stripped, Preserved;
  }

  /** The bitmap blocks of a set of blocks. */
  ghost function BitmapsOf(g: Geometry, bs: set<nat>): set<nat>
  {
    set b | b in bs :: BBlock(g, b)
  }

  /** Since owned, the blocks in use shrank to now, and exactly their bitmap blocks were logged. */
  ghost predicate Noted(g: Geometry, l0: set<nat>, l1: set<nat>, owned: set<nat>, now: set<nat>)
  {
    now <= owned && l1 == l0 + BitmapsOf(g, owned - now)
  }

  lemma NotedNone(g: Geometry, l: set<nat>, owned: set<nat>)
    ensures Noted(g, l, l, owned, owned)
  {
    assert owned - owned == {};
  }

  lemma NotedAll(g: Geometry, l0: set<nat>, l1: set<nat>, owned: set<nat>, now: set<nat>)
    requires Noted(g, l0, l1, owned, now)
    ensures l1 == l0 + BitmapsOf(g, owned - now)
  {
  }

  lemma NotedOne(g: Geometry, l0: set<nat>, l1: set<nat>, owned: set<nat>, now: set<nat>, b: nat)
    requires Noted(g, l0, l1, owned, now) && b in now
    ensures Noted(g, l0, l1 + {BBlock(g, b)}, owned, now - {b})
  {
    hide BBlock;
    assert owned - (now - {b}) == (owned - now) + {b};
    assert BitmapsOf(g, (owned - now) + {b}) == BitmapsOf(g, owned - now) + {BBlock(g, b)};
  }

  /** All blocks are free and the addresses are 0; only the size is left to reset. */
  ghost predicate Emptied(g: Geometry, s: Fs, t: Fs, i: nat)
  {
    && InvBut(g, t, i) && i < |s.inodes| && |t.inodes| == |s.inodes| && t.count == s.count && |s.count| == |s.inodes|
    && t.owner == Without(s.owner, i) && Preserved(s, t, i)
    && |t.inodes[i].addrs| == NDIRECT + 1 && (forall j: nat :: j <= NDIRECT ==> t.inodes[i].addrs[j] == 0)
    && (forall j: nat :: j < |s.inodes| && j != i ==> t.inodes[j] == s.inodes[j])
  }

  lemma StrippedAll(g: Geometry, s: Fs, i: nat, x: nat)
    requires Inv(g, s) && i < |s.inodes| && IndirectAt(s.inodes[i], x)
    ensures Stripped(s.owner, i, MAXFILE) - {x} == Without(s.owner, i)
    ensures x == 0 ==> Stripped(s.owner, i, NDIRECT) == Without(s.owner, i)
  {
    assert FileOk(s.blocks, s.inodes[i], s.owner, i, s.count[i]);
    assert 0 !in s.owner;
    forall b | b in s.owner && Mine(s.owner[b], i)
      ensures s.owner[b].Indirect? ==> b == x
      ensures s.owner[b].Data? ==> s.owner[b].bn < MAXFILE && (x == 0 ==> s.owner[b].bn < NDIRECT)
    {
      assert BelongsTo(s.blocks, s.inodes, b, s.owner[b]);
    }
    hide InvBut, FileOk;
  }

  lemma LastBlock(g: Geometry, s: Fs, t: Fs, u: Fs, i: nat)
    requires Truncating(g, s, t, i, MAXFILE) && t.inodes[i].addrs[NDIRECT] != 0
    requires InvBut(g, u, i) && u.owner == t.owner - {t.inodes[i].addrs[NDIRECT]} && u.inodes == t.inodes && u.count == t.count
    requires Preserved(t, u, i)
    ensures |u.inodes[i].addrs| == NDIRECT + 1
    ensures Emptied(g, s, u.(inodes := u.inodes[i := u.inodes[i].(addrs := u.inodes[i].addrs[NDIRECT := 0])]), i)
  {
    var v := u.(inodes := u.inodes[i := u.inodes[i].(addrs := u.inodes[i].addrs[NDIRECT := 0])]);
    StrippedAll(g, s, i, s.inodes[i].addrs[NDIRECT]);
    PreservedTwice(s, t, u, i);
    EditPreserved(s, u, v, i);
    assert forall b :: b in u.owner ==> !Mine(u.owner[b], i);
    EditInode(g, u, i, v.inodes[i]);
    SizesAgree(g, s);
    hide InvBut, Preserved, Stripped, Without;
  }

  lemma NoIndirect(g: Geometry, s: Fs, t: Fs, i: nat)
    requires Truncating(g, s, t, i, NDIRECT) && t.inodes[i].addrs[NDIRECT] == 0
    ensures Emptied(g, s, t, i)
  {
    StrippedAll(g, s, i, 0);
    SizesAgree(g, s);
    hide InvBut, Preserved, Stripped, Without;
  }

  lemma EmptyFile(g: Geometry, t: Fs, u: Fs, i: nat)
    requires InvBut(g, t, i) && i < |t.inodes| && |t.count| == |t.inodes|
    requires |t.inodes[i].addrs| == NDIRECT + 1 && forall j: nat :: j <= NDIRECT ==> t.inodes[i].addrs[j] == 0
    requires forall b :: b in t.owner ==> !Mine(t.owner[b], i)
    requires u == t.(inodes := t.inodes[i := t.inodes[i].(size := 0)], count := t.count[i := 0])
    ensures Inv(g, u)
  {
    EditInode(g, t, i, t.inodes[i].(size := 0));
    var v := t.(inodes := t.inodes[i := t.inodes[i].(size := 0)]);
    assert FileOk(u.blocks, u.inodes[i], u.owner, i, 0);
    hide FileOk;
    forall j: nat | j < |u.inodes| ensures FileOk(u.blocks, u.inodes[j], u.owner, j, u.count[j]) {
      if j != i {
        assert FileOk(v.blocks, v.inodes[j], v.owner, j, v.count[j]);
      }
    }
  }

  lemma Truncated(g: Geometry, s: Fs, t: Fs, u: Fs, i: nat)
    requires Emptied(g, s, t, i) && AllSettled(s) && NoLoose(s.owner)
    requires u == t.(inodes := t.inodes[i := t.inodes[i].(size := 0)], count := t.count[i := 0])
    ensures Inv(g, u) && AllSettled(u) && NoLoose(u.owner) && Contents(u, i) == []
    ensures |u.inodes| == |s.inodes| && forall j: nat :: j < |s.inodes| && j != i ==> Contents(u, j) == Contents(s, j)
  {
    EmptyFile(g, t, u, i);
    forall j: nat | j < |s.inodes| && j != i ensures Contents(u, j) == Contents(s, j) {
      SameContents(s, t, u, i, j);
    }
    hide InvBut, Preserved, Contents;
    forall j: nat | j < |u.inodes| ensures Settled(u.inodes[j], u.count[j]) {
      assert Settled(s.inodes[j], s.count[j]);
    }
  }

  // ---- which blocks are taken ----

  /** From the blocks in use before, every allocation took the lowest free block of its time. */
  ghost predicate FirstFit(g: Geometry, before: set<nat>, now: set<nat>, allocs: seq<nat>)
  {
    && now == before + Elements(allocs)
    && forall k :: 0 <= k < |allocs| ==> Lowest(g, before, allocs[..k], allocs[k])
  }

  /** b is the lowest data block neither in use before nor allocated since. */
  ghost predicate Lowest(g: Geometry, before: set<nat>, since: seq<nat>, b: nat)
  {
    b !in before && b !in since && forall x: nat :: g.datastart <= x < b ==> x in before || x in since
  }

  lemma NothingTaken(g: Geometry, before: set<nat>)
    ensures FirstFit(g, before, before, [])
  {
  }

  lemma TakeLowest(g: Geometry, before: set<nat>, owner: map<nat, Use>, allocs: seq<nat>, b: nat)
    requires FirstFit(g, before, owner.Keys, allocs) && b !in owner
    requires forall x: nat :: g.datastart <= x < b ==> x in owner
    ensures FirstFit(g, before, owner[b := Loose].Keys, allocs + [b])
  {
    var more := allocs + [b];
    assert Elements(more) == Elements(allocs) + {b};
    forall k | 0 <= k < |more| ensures Lowest(g, before, more[..k], more[k]) {
      if k < |allocs| {
        assert more[..k] == allocs[..k];
        assert Lowest(g, before, allocs[..k], allocs[k]);
      } else {
        assert more[..k] == allocs;
      }
    }
  }

  lemma SameKeys(owner: map<nat, Use>, b: nat, u: Use)
    requires b in owner
    ensures owner[b := u].Keys == owner.Keys
  {
  }

  lemma EmptyFiles(g: Geometry, s: Fs)
    requires GeometryOk(g) && Blocks(g, s) && Mapped(g, s) && s.owner == map[] && |s.count| == |s.inodes|
    requires forall i: nat :: i < |s.inodes| ==> s.inodes[i].size == 0 && s.count[i] == 0 && |s.inodes[i].addrs| == NDIRECT + 1
    requires forall i: nat, j: nat :: i < |s.inodes| && j <= NDIRECT ==> s.inodes[i].addrs[j] == 0
    ensures Inv(g, s) && NoLoose(s.owner) && AllSettled(s)
  {
    forall i: nat | i < |s.inodes| ensures FileOk(s.blocks, s.inodes[i], s.owner, i, s.count[i]) {
    }
    forall i: nat | i < |s.inodes| ensures Settled(s.inodes[i], s.count[i]) {
    }
  }
}
