/** balloc, bfree, bmap, readi, writei and itrunc (fs.c). */
module InodeCode {
  import opened Common
  import opened BlockData
  import opened FileBlocks
  import opened FileContents
  import opened InodeCalls

  class FileSystem {
    const g: Geometry
    var blocks: seq<seq<byte>>
    var inodes: seq<Inode>
    ghost var owner: map<nat, Use>
    ghost var count: seq<nat>
    ghost var logged: set<nat>    // blocks given to log_write in this transaction
    ghost var allocs: seq<nat>    // blocks allocated in this transaction
    ghost var before: set<nat>    // blocks in use when it began

    ghost function S(): Fs
      reads this
    {
      Fs(blocks, inodes, owner, count)
    }

    ghost predicate Valid()
      reads this
    {
      Inv(g, S()) && FirstFit(g, before, owner.Keys, allocs)
    }

    /** A file system as mkfs leaves it, with empty files: the bitmap marks the metadata blocks only. */
    constructor (g: Geometry, blocks: seq<seq<byte>>, n: nat)
      requires GeometryOk(g) && |blocks| == g.size && forall b :: 0 <= b < |blocks| ==> IsBlock(blocks[b])
      requires forall b: nat :: b < g.size ==> (Used(g, blocks, b) <==> b < g.datastart)
      ensures Valid() && NoLoose(owner) && AllSettled(S()) && owner == map[] && |inodes| == n
      ensures this.g == g && this.blocks == blocks && forall i :: 0 <= i < n ==> inodes[i].size == 0
    {
      this.g, this.blocks := g, blocks;
      inodes := seq(n, _ => Inode(seq(NDIRECT + 1, _ => 0), 0));
      owner, count := map[], seq(n, _ => 0);
      logged, allocs, before := {}, [], {};
      new;
      hide Used, Word;
      NothingTaken(g, before);
      EmptyFiles(g, S());
    }

    /** Any disk that is in order. */
    constructor Mount(g: Geometry, blocks: seq<seq<byte>>, inodes: seq<Inode>, ghost owner: map<nat, Use>,
                      ghost count: seq<nat>)
      requires Inv(g, Fs(blocks, inodes, owner, count))
      ensures Valid() && this.g == g && S() == Fs(blocks, inodes, owner, count)
    {
      this.g, this.blocks, this.inodes, this.owner, this.count := g, blocks, inodes, owner, count;
      logged, allocs, before := {}, [], owner.Keys;
      new;
      hide InvBut;
      NothingTaken(g, before);
    }

    /** The lowest free block among the bits of one bitmap block, or none. */
    method ScanBitmap(b: nat) returns (found: bool, bi: nat)
      requires Valid() && b % BPB == 0 && b < g.size
      ensures found ==> bi < BPB && b + bi < g.size && !Used(g, blocks, b + bi)
      ensures forall x: nat :: b <= x < b + bi && x < g.size ==> Used(g, blocks, x)
      ensures !found ==> bi == BPB || b + bi >= g.size
    {
      hide FirstFit, Mapped, Files, Found, Bit;
      bi := 0;
      while bi < BPB && b + bi < g.size
        invariant bi <= BPB
        invariant forall x: nat :: b <= x < b + bi && x < g.size ==> Used(g, blocks, x)
      {
        OwnedIsNotBitmap(g, b + bi, g.datastart);
        assert BBlock(g, b + bi) == BBlock(g, b) && (b + bi) % BPB == bi;
        var bp := blocks[BBlock(g, b)];
        if !Bit(bp, bi) {
          return true, bi;
        }
        bi := bi + 1;
      }
      found := false;
    }

    /** balloc: the lowest free block, marked and zeroed; 0 exactly when the disk is full. */
    method Balloc() returns (b: nat)
      requires Valid()
      modifies this`blocks, this`owner, this`logged, this`allocs
      ensures Valid() && Preserved(old(S()), S(), -1)
      ensures b == 0 <==> Full(g, old(owner))
      ensures b == 0 ==> S() == old(S()) && logged == old(logged) && allocs == old(allocs)
      ensures b != 0 ==> b !in old(owner) && owner == old(owner)[b := Loose] && g.datastart <= b < g.size
      ensures b != 0 ==> b < |blocks| && blocks[b] == ZeroBlock()
      ensures b != 0 ==> logged == old(logged) + {BBlock(g, b), b} && allocs == old(allocs) + [b]
      ensures b != 0 ==> forall x: nat :: g.datastart <= x < b ==> x in old(owner)
    {
      hide FirstFit, Files, Found, Mapped, Blocks, Used, Preserved;
      ghost var s := S();
      var base := 0;
      while base < g.size
        invariant base % BPB == 0 && S() == s && logged == old(logged) && allocs == old(allocs)
        invariant forall x: nat :: x < base && x < g.size ==> Used(g, blocks, x)
      {
        var found, bi := ScanBitmap(base);
        if found {
          b := base + bi;
          FreeBlock(g, s, b);
          AllocateKeepsInv(g, s, b);
          AllocatePreserves(g, s, b);
          AllocatedIs(g, s, b);
          TakeLowest(g, before, owner, allocs, b);
          blocks := blocks[BBlock(g, b) := SetBit(blocks[BBlock(g, b)], b % BPB)];
          blocks := blocks[b := ZeroBlock()];
          owner := owner[b := Loose];
          logged := logged + {BBlock(g, b), b};
          allocs := allocs + [b];
          return;
        }
        base := base + BPB;
      }
      NothingFree(g, s);
      PreservedSelf(g, s);
      b := 0;
    }

    /** bmap below NDIRECT. */
    method BmapDirect(i: nat, bn: nat) returns (addr: nat, ghost added: seq<nat>)
      requires Valid() && i < |inodes| && bn < NDIRECT && bn <= count[i] && NoLoose(owner)
      modifies this`blocks, this`inodes, this`owner, this`count, this`logged, this`allocs
      ensures Valid() && NoLoose(owner) && BlockMapped(old(S()), S(), i, bn, addr)
      ensures addr == 0 ==> Full(g, owner)
      ensures bn < old(count[i]) ==> S() == old(S())
      ensures Logs(g, old(logged), logged, old(allocs), allocs, added, {})
      ensures added == if bn < old(count[i]) || addr == 0 then [] else [addr]
      ensures |inodes| == |old(inodes)| && |inodes[i].addrs| == NDIRECT + 1
      ensures inodes[i].addrs[NDIRECT] == old(inodes[i].addrs[NDIRECT])
    {
      hide FirstFit, Files, Found, Mapped, Blocks, Preserved, BlockMapped, Logs, NoLoose, Full, BlockOf;
      ghost var s := S();
      DirectAddr(g, s, i, bn);
      addr := inodes[i].addrs[bn];
      added := [];
      NoLogs(g, logged, allocs);
      if addr == 0 {
        addr := Balloc();
        ghost var t := S();
        if addr == 0 {
          NotGrown(g, s, i, bn);
          return;
        }
        added := [addr];
        OneAlloc(g, old(logged), old(allocs), addr);
        LinkDirectKeepsInv(g, t, i, bn, addr);
        LinkDirectPreserves(g, t, i, bn, addr);
        DirectGrown(g, s, t, i, bn, addr);
        inodes := inodes[i := inodes[i].(addrs := inodes[i].addrs[bn := addr])];
        SameKeys(owner, addr, Data(i, bn));
        owner := owner[addr := Data(i, bn)];
        count := count[i := bn + 1];
      } else {
        AlreadyThere(g, s, i, bn);
      }
    }

    /** The indirect block of a file, allocated if it has none yet; 0 when the disk is full. */
    method IndirectBlock(i: nat) returns (x: nat, ghost added: seq<nat>)
      requires Valid() && i < |inodes| && NDIRECT <= count[i] && NoLoose(owner)
      modifies this`blocks, this`inodes, this`owner, this`count, this`logged, this`allocs
      ensures Valid() && NoLoose(owner) && count == old(count) && Preserved(old(S()), S(), -1)
      ensures x == 0 ==> S() == old(S()) && Full(g, owner)
      ensures |inodes| == |old(inodes)| && |inodes[i].addrs| == NDIRECT + 1 && x == inodes[i].addrs[NDIRECT]
      ensures old(inodes[i].addrs[NDIRECT]) != 0 ==> S() == old(S())
      ensures Logs(g, old(logged), logged, old(allocs), allocs, added, {})
      ensures added == if x == 0 || old(inodes[i].addrs[NDIRECT]) != 0 then [] else [x]
    {
      hide FirstFit, Files, Found, Mapped, Blocks, Preserved, Logs, NoLoose, Full, BlockOf;
      ghost var s := S();
      IndirectAddr(g, s, i);
      PreservedSelf(g, s);
      x := inodes[i].addrs[NDIRECT];
      added := [];
      NoLogs(g, logged, allocs);
      if x == 0 {
        x := Balloc();
        ghost var t := S();
        if x == 0 {
          return;
        }
        added := [x];
        OneAlloc(g, old(logged), old(allocs), x);
        LinkIndirectKeepsInv(g, t, i, x);
        LinkIndirectPreserves(g, t, i, x);
        PreservedTwice(s, t, LinkedIndirect(t, i, x), -1);
        StillNoLoose(s.owner, x, Indirect(i));
        inodes := inodes[i := inodes[i].(addrs := inodes[i].addrs[NDIRECT := x])];
        SameKeys(owner, x, Indirect(i));
        owner := owner[x := Indirect(i)];
      }
    }

    /** bmap at and above NDIRECT, once the indirect block is there. */
    method BmapEntry(i: nat, bn: nat) returns (addr: nat, ghost added: seq<nat>)
      requires Valid() && i < |inodes| && NDIRECT <= bn < MAXFILE && bn <= count[i] && NoLoose(owner)
      requires |inodes[i].addrs| == NDIRECT + 1 && inodes[i].addrs[NDIRECT] != 0
      modifies this`blocks, this`inodes, this`owner, this`count, this`logged, this`allocs
      ensures Valid() && NoLoose(owner) && BlockMapped(old(S()), S(), i, bn, addr)
      ensures addr == 0 ==> S() == old(S()) && Full(g, owner)
      ensures inodes == old(inodes) && (bn < old(count[i]) ==> S() == old(S()))
      ensures added == if bn < old(count[i]) || addr == 0 then [] else [addr]
      ensures Logs(g, old(logged), logged, old(allocs), allocs, added, if added == [] then {} else {inodes[i].addrs[NDIRECT]})
    {
      hide FirstFit, Files, Found, Mapped, Blocks, Preserved, BlockMapped, Logs, NoLoose, Full, BlockOf, Word;
      ghost var s := S();
      EntryAddr(g, s, i, bn);
      var x := inodes[i].addrs[NDIRECT];
      addr := Word(blocks[x], bn - NDIRECT);
      added := [];
      NoLogs(g, logged, allocs);
      if addr == 0 {
        addr := Balloc();
        ghost var t := S();
        if addr == 0 {
          NotGrown(g, s, i, bn);
          return;
        }
        added := [addr];
        OneAllocAnd(g, old(logged), old(allocs), addr, x);
        LinkEntryKeepsInv(g, t, i, bn, addr);
        LinkEntryPreserves(g, t, i, bn, addr);
        EntryGrown(g, s, t, i, bn, addr);
        blocks := blocks[x := SetWord(blocks[x], bn - NDIRECT, addr)];
        SameKeys(owner, addr, Data(i, bn));
        owner := owner[addr := Data(i, bn)];
        count := count[i := bn + 1];
        logged := logged + {x};
      } else {
        AlreadyThere(g, s, i, bn);
      }
    }

    /**
     bmap: the address of block bn, which is in the file or the next one after it. 0 means that the
     disk is full; the file then has the blocks it had.
     */
    method Bmap(i: nat, bn: nat) returns (addr: nat, ghost added: seq<nat>)
      requires Valid() && i < |inodes| && bn < MAXFILE && bn <= count[i] && NoLoose(owner)
      modifies this`blocks, this`inodes, this`owner, this`count, this`logged, this`allocs
      ensures Valid() && NoLoose(owner) && BlockMapped(old(S()), S(), i, bn, addr)
      ensures addr == 0 ==> Full(g, owner)
      ensures bn < old(count[i]) ==> S() == old(S()) && added == []
      ensures Added(old(S()), S(), i, bn, addr, added)
      ensures Logs(g, old(logged), logged, old(allocs), allocs, added, EntryLogged(old(S()), S(), i, bn, addr))
    {
      hide FirstFit, Files, Found, Mapped, Blocks, Preserved, BlockMapped, Logs, NoLoose, Full, BlockOf, Word;
      ghost var s := S();
      SizesAgree(g, s);
      if bn < NDIRECT {
        addr, added := BmapDirect(i, bn);
        return;
      }
      if bn < count[i] {
        OwnAddr(g, s, i, bn, -1);
      }
      var x;
      x, added := IndirectBlock(i);
      ghost var t, l, a := S(), logged, allocs;
      if x == 0 {
        FullAtIndirect(g, s, i, bn);
        addr := 0;
        return;
      }
      ghost var more;
      addr, more := BmapEntry(i, bn);
      MappedAfter(s, t, S(), i, bn, addr);
      LogsOn(g, old(logged), l, logged, old(allocs), a, allocs, added, more, {}, if more == [] then {} else {x});
      added := added + more;
      assert {} + (if more == [] then {} else {x}) == EntryLogged(s, S(), i, bn, addr);
    }

    /** One round of writei's loop: bytes d into one block of file i. */
    method WriteChunk(i: nat, off: nat, d: seq<byte>)
      returns (ok: bool, ghost added: seq<nat>, ghost written: seq<nat>, ghost entry: set<nat>)
      requires Valid() && NoLoose(owner) && i < |inodes| && d != [] && off % BSIZE + |d| <= BSIZE
      requires off / BSIZE <= count[i] && off / BSIZE < MAXFILE
      modifies this`blocks, this`inodes, this`owner, this`count, this`logged, this`allocs
      ensures Valid() && NoLoose(owner)
      ensures ok ==> ChunkWritten(old(S()), S(), i, off, d)
      ensures !ok ==> Preserved(old(S()), S(), -1) && count == old(count) && Full(g, owner)
      ensures |written| == if ok then 1 else 0
      ensures Spent(old(S()), S(), i, added, written, entry) && DirectOnly(old(S()), S(), i, off + |d|)
      ensures Logs(g, old(logged), logged, old(allocs), allocs, added, entry + Elements(written))
    {
      hide FirstFit, Files, Found, Mapped, Blocks, Preserved, BlockMapped, Logs, NoLoose, Full, BlockOf, Word, Overlay;
      hide ChunkWritten, Elements;
      ghost var s := S();
      SizesAgree(g, s);
      var addr;
      addr, added := Bmap(i, off / BSIZE);
      ghost var t := S();
      written := [];
      entry := EntryLogged(s, t, i, off / BSIZE, addr);
      SpentByMap(g, s, t, i, off / BSIZE, addr, added);
      if addr == 0 {
        NothingMapped(s, t, i, off / BSIZE);
        assert Elements([]) == {} by { ElementsOne(0); }
        assert entry + {} == entry;
        return false, added, written, entry;
      }
      ok := true;
      MappedCount(g, s, t, i, off / BSIZE, addr);
      var data := Overlay(blocks[addr], off % BSIZE, d);
      WriteData(g, t, i, off / BSIZE, data);
      ChunkDone(g, s, t, t.(blocks := t.blocks[addr := data]), i, off, d, addr);
      LogMore(g, old(logged), logged, old(allocs), allocs, added, entry, addr);
      blocks := blocks[addr := data];
      logged := logged + {addr};
      written := [addr];
      ElementsOne(addr);
    }

    /** The loop of writei; it stops early only when the disk is full. */
    method WriteBlocks(i: nat, off: nat, src: seq<byte>)
      returns (tot: nat, ghost added: seq<nat>, ghost written: seq<nat>, ghost entry: set<nat>)
      requires Valid() && NoLoose(owner) && AllSettled(S()) && i < |inodes|
      requires off <= inodes[i].size && off + |src| <= MAXFILE * BSIZE
      modifies this`blocks, this`inodes, this`owner, this`count, this`logged, this`allocs
      ensures Valid() && NoLoose(owner) && tot <= |src| && RangeWritten(old(S()), S(), i, off, src[..tot])
      ensures tot < |src| ==> Full(g, owner)
      ensures |written| == Spanned(off, tot) && Spent(old(S()), S(), i, added, written, entry)
      ensures DirectOnly(old(S()), S(), i, off + |src|)
      ensures Logs(g, old(logged), logged, old(allocs), allocs, added, entry + Elements(written))
    {
      hide FirstFit, Inv, ChunkWritten, RangeWritten, Logs, NoLoose, Full, Spent, Elements, AllSettled, Spanned, DirectOnly;
      ghost var s := S();
      StartWriting(g, s, i, off);
      NothingSpent(s, i, old(logged), old(allocs), g);
      DirectStart(g, s, i, off + |src|);
      SpannedNone(off);
      added, written, entry, tot := [], [], {}, 0;
      while tot < |src|
        invariant 0 <= tot <= |src| && Valid() && NoLoose(owner)
        invariant RangeWritten(s, S(), i, off, src[..tot])
        invariant tot == 0 || tot == |src| || (off + tot) % BSIZE == 0
        invariant |written| == Spanned(off, tot)
        invariant Spent(s, S(), i, added, written, entry) && DirectOnly(s, S(), i, off + |src|)
        invariant Logs(g, old(logged), logged, old(allocs), allocs, added, entry + Elements(written))
        decreases |src| - tot
      {
        var m := if |src| - tot < BSIZE - (off + tot) % BSIZE then |src| - tot else BSIZE - (off + tot) % BSIZE;
        ghost var t, l, a := S(), logged, allocs;
        NextChunk(s, t, i, off, src[..tot], m, |src|);
        var ok;
        ghost var a2, w2, e2;
        ok, a2, w2, e2 := WriteChunk(i, off + tot, src[tot..tot + m]);
        SpentOn(s, t, S(), i, added, written, entry, a2, w2, e2);
        DirectAlong(s, t, S(), i, off + tot + m, off + |src|);
        LogsAlong(g, old(logged), l, logged, old(allocs), a, allocs, added, written, entry, a2, w2, e2);
        added, written, entry := added + a2, written + w2, entry + e2;
        if !ok {
          RangeKept(s, t, S(), i, off, src[..tot]);
          break;
        }
        RangeOn(s, t, S(), i, off, src[..tot], src[tot..tot + m]);
        assert src[..tot] + src[tot..tot + m] == src[..tot + m];
        SpannedNext(off, tot, m);
        tot := tot + m;
      }
    }

    /**
     writei from a kernel buffer: src replaces or extends the bytes of the file from off on. A count
     below |src| means that the disk filled up; -1 that off lies past the end or the file would grow
     beyond MAXFILE blocks.
     */
    method Writei(i: nat, off: nat, src: seq<byte>)
      returns (r: int, ghost added: seq<nat>, ghost written: seq<nat>, ghost entry: set<nat>)
      requires Valid() && NoLoose(owner) && AllSettled(S()) && i < |inodes|
      requires off < WORD && |src| < WORD
      modifies this`blocks, this`inodes, this`owner, this`count, this`logged, this`allocs
      ensures Valid() && NoLoose(owner) && AllSettled(S()) && |inodes| == |old(inodes)|
      ensures r == -1 <==> off > old(inodes[i]).size || off + |src| >= WORD || off + |src| > MAXFILE * BSIZE
      ensures -1 <= r <= |src|
      ensures r == -1 ==> S() == old(S()) && logged == old(logged)
      ensures 0 <= r < |src| ==> Full(g, owner)
      ensures r >= 0 ==> Contents(S(), i) == Patched(old(Contents(S(), i)), off, src[..r])
      ensures forall j: nat :: j < |inodes| && j != i ==> Contents(S(), j) == old(Contents(S(), j))
      ensures r >= 0 ==> |written| == Spanned(off, r) && Spent(old(S()), S(), i, added, written, entry)
      ensures r >= 0 ==> DirectOnly(old(S()), S(), i, off + |src|)
      ensures r >= 0 ==> Logs(g, old(logged), logged, old(allocs), allocs, added, entry + Elements(written) + {IBlock(g, i)})
    {
      hide FirstFit, Inv, RangeWritten, Logs, NoLoose, Full, Spent, Elements, AllSettled, Spanned, Contents, Patched, IBlock;
      hide DirectOnly;
      added, written, entry := [], [], {};
      if off > inodes[i].size || off + |src| >= WORD || off + |src| > MAXFILE * BSIZE {
        return -1, added, written, entry;
      }
      ghost var s := S();
      var tot;
      tot, added, written, entry := WriteBlocks(i, off, src);
      ghost var t := S();
      RangeThere(s, t, i, off, src[..tot]);
      if off + tot > inodes[i].size {
        inodes := inodes[i := inodes[i].(size := off + tot)];
      }
      SizeSet(g, s, t, S(), i, off, src[..tot]);
      SpentSame(s, t, S(), i, added, written, entry);
      DirectResized(s, t, S(), i, off + |src|);
      LogInode(g, old(logged), logged, old(allocs), allocs, added, entry + Elements(written), IBlock(g, i));
      logged := logged + {IBlock(g, i)};
      r := tot;
    }

    /** readi into a kernel buffer: the slice of the file, cut at its end. Reading allocates nothing. */
    method Readi(i: nat, off: nat, n: nat) returns (d: seq<byte>)
      requires Valid() && NoLoose(owner) && AllSettled(S()) && i < |inodes| && off < WORD && n < WORD
      modifies this`blocks, this`inodes, this`owner, this`count, this`logged, this`allocs
      ensures Valid() && S() == old(S()) && logged == old(logged) && allocs == old(allocs)
      ensures d == if off > inodes[i].size || off + n >= WORD then []
                   else Contents(S(), i)[off..if off + n > inodes[i].size then inodes[i].size else off + n]
    {
      hide FirstFit, Inv, NoLoose, AllSettled, Contents, BlockMapped, Logs, Full, Added, EntryLogged;
      d := [];
      if off > inodes[i].size || off + n >= WORD {
        return;
      }
      var len := if off + n > inodes[i].size then inodes[i].size - off else n;
      ghost var s := S();
      while |d| < len
        invariant |d| <= len && Valid() && S() == s && logged == old(logged) && allocs == old(allocs)
        invariant d == Contents(s, i)[off..off + |d|]
      {
        var x := off + |d|;
        InFile(g, s, i, x);
        var addr;
        ghost var added;
        addr, added := Bmap(i, x / BSIZE);
        NoLogsMade(g, logged, old(logged), allocs, old(allocs), s, i, x / BSIZE, addr);
        var m := if len - |d| < BSIZE - x % BSIZE then len - |d| else BSIZE - x % BSIZE;
        ReadSlice(g, s, i, x, m, addr);
        d := d + blocks[addr][x % BSIZE..x % BSIZE + m];
      }
    }

    /** bfree: a block that belongs to no file any more. */
    method Bfree(b: nat, ghost but: int)
      requires InvBut(g, S(), but) && b in owner && owner[b] == Loose
      requires 0 <= but < |inodes| ==> !IndirectAt(inodes[but], BBlock(g, b))
      modifies this`blocks, this`owner, this`logged
      ensures InvBut(g, S(), but) && owner == old(owner) - {b} && logged == old(logged) + {BBlock(g, b)}
      ensures Preserved(old(S()), S(), but)
      ensures |blocks| == |old(blocks)| && forall x: nat :: g.datastart <= x < |blocks| ==> blocks[x] == old(blocks)[x]
    {
      hide FirstFit, Files, Found, Mapped, Preserved;
      ghost var s := S();
      FreeKeepsInv(g, s, b, but);
      FreedPreserves(g, s, b, but);
      var bi := b % BPB;
      assert Bit(blocks[BBlock(g, b)], bi);
      blocks := blocks[BBlock(g, b) := ClearBit(blocks[BBlock(g, b)], bi)];
      owner := owner - {b};
      logged := logged + {BBlock(g, b)};
      hide Blocks, Used;
    }

    /** Free block k of the file, whose address a was read from the inode or the indirect block. */
    method FreeNext(i: nat, k: nat, a: nat, ghost s: Fs, ghost l0: set<nat>)
      requires Truncating(g, s, S(), i, k) && k < MAXFILE && a == Addr(s.blocks, s.inodes[i], k)
      requires Noted(g, l0, logged, s.owner.Keys, owner.Keys)
      modifies this`blocks, this`inodes, this`owner, this`logged
      ensures Truncating(g, s, S(), i, k + 1) && Noted(g, l0, logged, s.owner.Keys, owner.Keys)
    {
      hide FirstFit, Inv, InvBut, Preserved, Stripped, Addr, Noted;
      StripNext(g, s, i, k);
      ghost var t := S();
      if a != 0 {
        NotTheBitmap(g, s, t, i, k, a);
        NotedOne(g, l0, logged, s.owner.Keys, owner.Keys, a);
        Bfree(a, i);
        StillPreserved(s, t, S(), i);
      }
      ghost var u := S();
      NoneMine(s.owner, i, k + 1);
      if k < NDIRECT && a != 0 {
        EditInode(g, u, i, u.inodes[i].(addrs := u.inodes[i].addrs[k := 0]));
        inodes := inodes[i := inodes[i].(addrs := inodes[i].addrs[k := 0])];
        EditPreserved(s, u, S(), i);
      }
      DirectIs(s, i, k);
    }

    /** The blocks behind the indirect block, then the indirect block itself. */
    method TruncIndirect(i: nat, ghost s: Fs, ghost l0: set<nat>)
      requires Truncating(g, s, S(), i, NDIRECT) && inodes[i].addrs[NDIRECT] != 0
      requires Noted(g, l0, logged, s.owner.Keys, owner.Keys)
      modifies this`blocks, this`inodes, this`owner, this`logged
      ensures Truncating(g, s, S(), i, MAXFILE) && Noted(g, l0, logged, s.owner.Keys, owner.Keys)
    {
      hide FirstFit, Inv, InvBut, Preserved, Stripped, Addr, Word, Noted;
      IndirectKept(g, s, S(), i);
      var x := inodes[i].addrs[NDIRECT];
      var bp := blocks[x];
      var j := 0;
      while j < NINDIRECT
        invariant j <= NINDIRECT && Truncating(g, s, S(), i, NDIRECT + j)
        invariant Noted(g, l0, logged, s.owner.Keys, owner.Keys)
      {
        EntryIs(s, i, j);
        FreeNext(i, NDIRECT + j, Word(bp, j), s, l0);
        j := j + 1;
      }
    }

    /**
     itrunc: exactly the blocks of the file become free, and it is empty. Their bitmap blocks and the
     inode block are logged.
     */
    method Itrunc(i: nat)
      requires Valid() && NoLoose(owner) && AllSettled(S()) && i < |inodes|
      modifies this
      ensures Valid() && NoLoose(owner) && AllSettled(S()) && |inodes| == |old(inodes)|
      ensures owner == Without(old(owner), i) && inodes[i].size == 0 && Contents(S(), i) == []
      ensures forall j: nat :: j < |inodes| && j != i ==> Contents(S(), j) == old(Contents(S(), j))
      ensures logged == old(logged) + BitmapsOf(g, old(owner).Keys - owner.Keys) + {IBlock(g, i)}
    {
      hide FirstFit, Inv, InvBut, Preserved, Stripped, Addr, Without, NoLoose, AllSettled, Contents, Truncating, Noted;
      ghost var s, l0 := S(), logged;
      StartTruncating(g, s, i);
      NotedNone(g, l0, owner.Keys);
      owner := Stripped(owner, i, 0);
      var k := 0;
      while k < NDIRECT
        invariant k <= NDIRECT && Truncating(g, s, S(), i, k) && Noted(g, l0, logged, s.owner.Keys, owner.Keys)
      {
        AddressLeft(g, s, S(), i, k);
        FreeNext(i, k, inodes[i].addrs[k], s, l0);
        k := k + 1;
      }
      AddressLeft(g, s, S(), i, NDIRECT);
      if inodes[i].addrs[NDIRECT] != 0 {
        TruncIndirect(i, s, l0);
        ghost var t := S();
        AddressLeft(g, s, t, i, MAXFILE);
        IndirectLoose(g, s, t, i);
        NotedOne(g, l0, logged, s.owner.Keys, owner.Keys, inodes[i].addrs[NDIRECT]);
        Bfree(inodes[i].addrs[NDIRECT], i);
        LastBlock(g, s, t, S(), i);
        inodes := inodes[i := inodes[i].(addrs := inodes[i].addrs[NDIRECT := 0])];
      } else {
        NoIndirect(g, s, S(), i);
      }
      ghost var t := S();
      inodes := inodes[i := inodes[i].(size := 0)];
      count := count[i := 0];
      Truncated(g, s, t, S(), i);
      NotedAll(g, l0, logged, s.owner.Keys, owner.Keys);
      logged := logged + {IBlock(g, i)};
      before, allocs := owner.Keys, [];
      NothingTaken(g, before);
    }
  }
}
