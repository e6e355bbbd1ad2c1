/** What each store of fs.c does to the contents of files. */
module FileContents {
  import opened Common
  import opened BlockData
  import opened FileBlocks

  lemma PreservedTwice(s: Fs, t: Fs, u: Fs, but: int)
    requires Preserved(s, t, but) && Preserved(t, u, but)
    ensures Preserved(s, u, but)
  {
    forall i: nat, bn: nat | i < |s.inodes| && i != but && bn < s.count[i] ensures BlockOf(u, i, bn) == BlockOf(s, i, bn) {
      assert BlockOf(t, i, bn) == BlockOf(s, i, bn);
    }
  }

  lemma OwnAddr(g: Geometry, s: Fs, i: nat, bn: nat, but: int)
    requires InvBut(g, s, but) && i < |s.inodes| && i != but && bn < s.count[i]
    ensures bn < MAXFILE && |s.inodes[i].addrs| == NDIRECT + 1
    ensures var a := Addr(s.blocks, s.inodes[i], bn);
      g.datastart <= a < |s.blocks| && IsBlock(s.blocks[a]) && a in s.owner && s.owner[a] == Data(i, bn)
    ensures var x := s.inodes[i].addrs[NDIRECT];
      x != 0 ==> g.datastart <= x < |s.blocks| && x in s.owner && s.owner[x] == Indirect(i)
    ensures bn >= NDIRECT ==> s.inodes[i].addrs[NDIRECT] != 0
  {
    assert FileOk(s.blocks, s.inodes[i], s.owner, i, s.count[i]);
    assert AddrOk(s.blocks, s.inodes[i], s.owner, i, s.count[i], bn);
  }

  /** Rewriting a block outside file i leaves the file's blocks alone. */
  lemma RewriteElsewhere(g: Geometry, s: Fs, b: nat, data: seq<byte>, i: nat, bn: nat, but: int)
    requires InvBut(g, s, but) && i < |s.inodes| && i != but && bn < s.count[i] && b < |s.blocks| && IsBlock(data)
    requires b !in s.owner || (s.owner[b] != Data(i, bn) && s.owner[b] != Indirect(i))
    ensures BlockOf(s.(blocks := s.blocks[b := data]), i, bn) == BlockOf(s, i, bn)
  {
    OwnAddr(g, s, i, bn, but);
    hide InvBut;
    var t := s.(blocks := s.blocks[b := data]);
    assert Addr(t.blocks, t.inodes[i], bn) == Addr(s.blocks, s.inodes[i], bn);
  }

  lemma AllocatePreserves(g: Geometry, s: Fs, b: nat)
    requires Inv(g, s) && g.datastart <= b < g.size && !Used(g, s.blocks, b)
    ensures Preserved(s, Allocated(g, s, b), -1)
  {
    AllocateKeepsInv(g, s, b);
    OwnedIsNotBitmap(g, b, b);
    var t := Allocated(g, s, b);
    forall i: nat, bn: nat | i < |s.inodes| && bn < s.count[i] ensures BlockOf(t, i, bn) == BlockOf(s, i, bn) {
      AllocatedBlock(g, s, b, i, bn);
    }
    hide Allocated;
    AllocatedSame(g, s, b);
  }

  lemma AllocatedSame(g: Geometry, s: Fs, b: nat)
    requires GeometryOk(g) && Blocks(g, s) && b < g.size && !Used(g, s.blocks, b)
    ensures Allocated(g, s, b).inodes == s.inodes && Allocated(g, s, b).count == s.count
  {
  }

  lemma AllocatedBlock(g: Geometry, s: Fs, b: nat, i: nat, bn: nat)
    requires Inv(g, s) && g.datastart <= b < g.size && !Used(g, s.blocks, b) && i < |s.inodes| && bn < s.count[i]
    ensures BlockOf(Allocated(g, s, b), i, bn) == BlockOf(s, i, bn)
  {
    OwnAddr(g, s, i, bn, -1);
    assert b !in s.owner;
    OwnedIsNotBitmap(g, b, g.datastart);
    var bm := SetBit(s.blocks[BBlock(g, b)], b % BPB);
    hide Files, Found, Mapped, Blocks, Used, SetBit, ZeroBlock, BlockOf;
    TwoRewrites(s, BBlock(g, b), bm, b, ZeroBlock(), i, bn);
    SameFile(s.(blocks := s.blocks[BBlock(g, b) := bm][b := ZeroBlock()]), Allocated(g, s, b), i, bn);
  }

  lemma SameFile(s: Fs, t: Fs, i: nat, bn: nat)
    requires t.blocks == s.blocks && t.inodes == s.inodes && i < |s.inodes|
    ensures BlockOf(t, i, bn) == BlockOf(s, i, bn)
  {
  }

  lemma TwoRewrites(s: Fs, p: nat, x: seq<byte>, q: nat, y: seq<byte>, i: nat, bn: nat)
    requires i < |s.inodes| && p < |s.blocks| && q < |s.blocks| && |s.inodes[i].addrs| == NDIRECT + 1
    requires p != Addr(s.blocks, s.inodes[i], bn) && q != Addr(s.blocks, s.inodes[i], bn)
    requires p != s.inodes[i].addrs[NDIRECT] && q != s.inodes[i].addrs[NDIRECT]
    ensures BlockOf(s.(blocks := s.blocks[p := x][q := y]), i, bn) == BlockOf(s, i, bn)
  {
  }

  lemma LinkDirectPreserves(g: Geometry, s: Fs, i: nat, bn: nat, b: nat)
    requires Inv(g, s) && i < |s.inodes| && s.count[i] == bn < NDIRECT < |s.inodes[i].addrs| && b < |s.blocks|
    ensures Preserved(s, LinkedDirect(s, i, bn, b), -1) && BlockOf(LinkedDirect(s, i, bn, b), i, bn) == s.blocks[b]
  {
    assert FileOk(s.blocks, s.inodes[i], s.owner, i, s.count[i]);
    hide FileOk, Found, Mapped, Blocks;
    var t := LinkedDirect(s, i, bn, b);
    forall j: nat, n: nat | j < |s.inodes| && n < s.count[j] ensures BlockOf(t, j, n) == BlockOf(s, j, n) {
      assert j == i ==> n != bn;
    }
  }

  lemma LinkIndirectPreserves(g: Geometry, s: Fs, i: nat, b: nat)
    requires Inv(g, s) && i < |s.inodes| && s.count[i] <= NDIRECT < |s.inodes[i].addrs|
    ensures Preserved(s, LinkedIndirect(s, i, b), -1)
  {
    assert FileOk(s.blocks, s.inodes[i], s.owner, i, s.count[i]);
    hide FileOk, Found, Mapped, Blocks;
  }

  lemma LinkEntryPreserves(g: Geometry, s: Fs, i: nat, bn: nat, b: nat)
    requires Inv(g, s) && i < |s.inodes| && NDIRECT <= s.count[i] == bn < MAXFILE && b in s.owner && s.owner[b] == Loose
    requires |s.inodes[i].addrs| == NDIRECT + 1 && s.inodes[i].addrs[NDIRECT] != 0
    ensures s.inodes[i].addrs[NDIRECT] < |s.blocks| && IsBlock(s.blocks[s.inodes[i].addrs[NDIRECT]]) && b < WORD && b < |s.blocks|
    ensures Preserved(s, LinkedEntry(s, i, bn, b), -1) && BlockOf(LinkedEntry(s, i, bn, b), i, bn) == s.blocks[b]
  {
    LinkEntryKeepsInv(g, s, i, bn, b);
    assert FileOk(s.blocks, s.inodes[i], s.owner, i, s.count[i]);
    assert g.datastart <= b < g.size;
    assert |s.blocks| == g.size;
    assert |s.count| == |s.inodes|;
    hide Blocks, Mapped, Files, Found, FileOk, SetWord, BlockOf, GeometryOk;
    var t := LinkedEntry(s, i, bn, b);
    forall j: nat, n: nat | j < |s.inodes| && n < s.count[j] ensures BlockOf(t, j, n) == BlockOf(s, j, n) {
      LinkEntryBlock(g, s, i, bn, b, j, n);
    }
    NewEntry(s, i, bn, b);
  }

  lemma NewEntry(s: Fs, i: nat, bn: nat, b: nat)
    requires i < |s.inodes| && i < |s.count| && |s.inodes[i].addrs| == NDIRECT + 1 && NDIRECT <= bn < MAXFILE && b < WORD
    requires 0 < s.inodes[i].addrs[NDIRECT] < |s.blocks| && IsBlock(s.blocks[s.inodes[i].addrs[NDIRECT]])
    requires b < |s.blocks| && b != s.inodes[i].addrs[NDIRECT]
    ensures BlockOf(LinkedEntry(s, i, bn, b), i, bn) == s.blocks[b]
  {
  }

  lemma LinkEntryBlock(g: Geometry, s: Fs, i: nat, bn: nat, b: nat, j: nat, n: nat)
    requires Inv(g, s) && i < |s.inodes| && NDIRECT <= s.count[i] == bn < MAXFILE && b < WORD
    requires |s.inodes[i].addrs| == NDIRECT + 1 && j < |s.inodes| && n < s.count[j]
    requires var x := s.inodes[i].addrs[NDIRECT];
      0 < x < |s.blocks| && IsBlock(s.blocks[x]) && x in s.owner && s.owner[x] == Indirect(i)
    ensures BlockOf(LinkedEntry(s, i, bn, b), j, n) == BlockOf(s, j, n)
  {
    OwnAddr(g, s, j, n, -1);
    hide InvBut;
    var t := LinkedEntry(s, i, bn, b);
    assert Addr(t.blocks, t.inodes[j], n) == Addr(s.blocks, s.inodes[j], n);
  }

  /** One block of one file is replaced. */
  ghost predicate Wrote(s: Fs, t: Fs, i: nat, bn: nat, data: seq<byte>)
  {
    && t.inodes == s.inodes && t.count == s.count && |s.count| == |s.inodes|
    && forall j: nat, n: nat :: j < |s.inodes| && n < s.count[j] ==>
      BlockOf(t, j, n) == if j == i && n == bn then data else BlockOf(s, j, n)
  }

  lemma WriteData(g: Geometry, s: Fs, i: nat, bn: nat, data: seq<byte>)
    requires Inv(g, s) && i < |s.inodes| && bn < s.count[i] && IsBlock(data)
    ensures var a := Addr(s.blocks, s.inodes[i], bn);
      && a < |s.blocks| && a in s.owner && s.owner[a] == Data(i, bn) && IsBlock(s.blocks[a])
      && Inv(g, s.(blocks := s.blocks[a := data])) && Wrote(s, s.(blocks := s.blocks[a := data]), i, bn, data)
  {
    OwnAddr(g, s, i, bn, -1);
    var a := Addr(s.blocks, s.inodes[i], bn);
    WriteKeepsInv(g, s, a, data);
    var t := s.(blocks := s.blocks[a := data]);
    forall j: nat, n: nat | j < |s.inodes| && n < s.count[j]
      ensures BlockOf(t, j, n) == if j == i && n == bn then data else BlockOf(s, j, n)
    {
      if j == i && n == bn {
        SameAddr(s, a, data, i, bn);
      } else {
        RewriteElsewhere(g, s, a, data, j, n, -1);
      }
    }
    hide InvBut;
  }
}
