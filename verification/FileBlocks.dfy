/** Inodes, the blocks they own and the free bitmap: the invariant of fs.c and how each store moves it. */
module FileBlocks {
  import opened Common
  import opened BlockData

  const BPB: nat := 8192

  /** In-memory copy of an inode: block addresses (0 for none) and size in bytes. */
  datatype Inode = Inode(addrs: seq<nat>, size: nat)

  datatype Use =
    | Data(ino: nat, bn: nat)   // block bn of a file
    | Indirect(ino: nat)        // the block of a file's indirect addresses
    | Loose                     // allocated, not yet or no longer part of a file

  /** Superblock: total blocks, first inode block, first bitmap block, first data block. */
  datatype Geometry = Geometry(size: nat, inodestart: nat, bmapstart: nat, datastart: nat)

  predicate GeometryOk(g: Geometry)
  {
    0 < g.size < WORD && 0 < g.bmapstart && g.datastart <= g.size && g.bmapstart + (g.size - 1) / BPB < g.datastart
  }

  function BBlock(g: Geometry, b: nat): nat
  {
    b / BPB + g.bmapstart
  }

  function IBlock(g: Geometry, inum: nat): nat
  {
    inum / 16 + g.inodestart
  }

  /** The disk, the inodes, what each block is used for and how many data blocks each file has. */
  datatype Fs = Fs(blocks: seq<seq<byte>>, inodes: seq<Inode>, owner: map<nat, Use>, count: seq<nat>)

  // ---- the invariant ----

  ghost predicate Blocks(g: Geometry, s: Fs)
  {
    |s.blocks| == g.size && forall b :: 0 <= b < |s.blocks| ==> IsBlock(s.blocks[b])
  }

  predicate Used(g: Geometry, blocks: seq<seq<byte>>, b: nat)
  {
    BBlock(g, b) < |blocks| && IsBlock(blocks[BBlock(g, b)]) && Bit(blocks[BBlock(g, b)], b % BPB)
  }

  /** The bitmap marks the metadata blocks and the owned blocks, and no others. */
  ghost predicate Mapped(g: Geometry, s: Fs)
  {
    && (forall b: nat :: b < g.size ==> (Used(g, s.blocks, b) <==> b < g.datastart || b in s.owner))
    && (forall b :: b in s.owner ==> g.datastart <= b < g.size)
  }

  /** The block address of block bn of a file, 0 when it has none. */
  function Addr(blocks: seq<seq<byte>>, ino: Inode, bn: nat): nat
  {
    if |ino.addrs| != NDIRECT + 1 then 0
    else if bn < NDIRECT then ino.addrs[bn]
    else
      var a := ino.addrs[NDIRECT];
      if bn < MAXFILE && 0 < a < |blocks| && IsBlock(blocks[a]) then Word(blocks[a], bn - NDIRECT) else 0
  }

  predicate AddrOk(blocks: seq<seq<byte>>, ino: Inode, owner: map<nat, Use>, i: nat, count: nat, bn: nat)
  {
    var a := Addr(blocks, ino, bn);
    (a != 0 <==> bn < count) && (a != 0 ==> a in owner && owner[a] == Data(i, bn))
  }

  /** A file has exactly its first count blocks, each owned by it, and owns its indirect block. */
  ghost predicate FileOk(blocks: seq<seq<byte>>, ino: Inode, owner: map<nat, Use>, i: nat, count: nat)
  {
    && |ino.addrs| == NDIRECT + 1 && count <= MAXFILE
    && (forall bn: nat :: bn < MAXFILE ==> AddrOk(blocks, ino, owner, i, count, bn))
    && (ino.addrs[NDIRECT] != 0 ==> ino.addrs[NDIRECT] in owner && owner[ino.addrs[NDIRECT]] == Indirect(i))
  }

  ghost predicate Files(s: Fs, but: int)
  {
    && |s.count| == |s.inodes|
    && forall i: nat :: i < |s.inodes| && i != but ==> FileOk(s.blocks, s.inodes[i], s.owner, i, s.count[i])
  }

  predicate BelongsTo(blocks: seq<seq<byte>>, inodes: seq<Inode>, b: nat, u: Use)
  {
    match u
    case Data(i, bn) => i < |inodes| && bn < MAXFILE && Addr(blocks, inodes[i], bn) == b
    case Indirect(i) => i < |inodes| && IndirectAt(inodes[i], b)
    case Loose => true
  }

  /** Every owned block is where its owner looks for it. */
  ghost predicate Found(s: Fs)
  {
    forall b :: b in s.owner ==> BelongsTo(s.blocks, s.inodes, b, s.owner[b])
  }

  ghost predicate InvBut(g: Geometry, s: Fs, but: int)
  {
    GeometryOk(g) && Blocks(g, s) && Mapped(g, s) && Files(s, but) && Found(s)
  }

  ghost predicate Inv(g: Geometry, s: Fs)
  {
    InvBut(g, s, -1)
  }

  // ---- contents ----

  /** The bytes of block bn of file i. */
  function BlockOf(s: Fs, i: nat, bn: nat): seq<byte>
    requires i < |s.inodes|
  {
    var a := Addr(s.blocks, s.inodes[i], bn);
    if a < |s.blocks| then s.blocks[a] else []
  }

  function ByteAt(s: Fs, i: nat, k: nat): byte
    requires i < |s.inodes|
  {
    var b := BlockOf(s, i, k / BSIZE);
    if k % BSIZE < |b| then b[k % BSIZE] else 0
  }

  /** A file as a byte sequence. */
  function Contents(s: Fs, i: nat): (c: seq<byte>)
    requires i < |s.inodes|
    ensures |c| == s.inodes[i].size
  {
    seq(s.inodes[i].size, k requires 0 <= k => ByteAt(s, i, k))
  }

  /** Every file keeps its size and the contents of the blocks it has; blocks may be added. */
  ghost predicate Preserved(s: Fs, t: Fs, but: int)
  {
    && |t.inodes| == |s.inodes| && |t.count| == |s.count| == |s.inodes|
    && (forall i: nat :: i < |s.inodes| && i != but ==> t.inodes[i].size == s.inodes[i].size && t.count[i] >= s.count[i])
    && (forall i: nat, bn: nat :: i < |s.inodes| && i != but && bn < s.count[i] ==> BlockOf(t, i, bn) == BlockOf(s, i, bn))
  }

  // ---- stores that leave the address maps alone ----

  /** Changing a block that holds no addresses changes no address. */
  lemma SameAddr(s: Fs, b: nat, data: seq<byte>, i: nat, bn: nat)
    requires b < |s.blocks| && IsBlock(data) && IsBlock(s.blocks[b]) && i < |s.inodes|
    requires !IndirectAt(s.inodes[i], b)
    ensures Addr(s.blocks[b := data], s.inodes[i], bn) == Addr(s.blocks, s.inodes[i], bn)
  {
  }

  /** b is not the indirect block of any file. */
  ghost predicate NoAddresses(s: Fs, b: nat)
  {
    forall i: nat :: i < |s.inodes| ==> !IndirectAt(s.inodes[i], b)
  }

  predicate IndirectAt(ino: Inode, b: nat)
  {
    |ino.addrs| == NDIRECT + 1 && ino.addrs[NDIRECT] == b
  }

  lemma RewriteFiles(s: Fs, b: nat, data: seq<byte>, but: int)
    requires b < |s.blocks| && IsBlock(data) && IsBlock(s.blocks[b]) && NoAddresses(s, b) && Files(s, but) && Found(s)
    ensures Files(s.(blocks := s.blocks[b := data]), but) && Found(s.(blocks := s.blocks[b := data]))
  {
    var t := s.(blocks := s.blocks[b := data]);
    forall i: nat | i < |s.inodes| && i != but ensures FileOk(t.blocks, t.inodes[i], t.owner, i, t.count[i]) {
      RewriteFile(s, b, data, i);
    }
    forall x | x in t.owner ensures BelongsTo(t.blocks, t.inodes, x, t.owner[x]) {
      if t.owner[x].Data? {
        SameAddr(s, b, data, t.owner[x].ino, t.owner[x].bn);
      }
    }
  }

  lemma RewriteFile(s: Fs, b: nat, data: seq<byte>, i: nat)
    requires b < |s.blocks| && IsBlock(data) && IsBlock(s.blocks[b]) && NoAddresses(s, b) && i < |s.inodes| && i < |s.count|
    requires FileOk(s.blocks, s.inodes[i], s.owner, i, s.count[i])
    ensures FileOk(s.blocks[b := data], s.inodes[i], s.owner, i, s.count[i])
  {
    var blocks := s.blocks[b := data];
    forall bn: nat | bn < MAXFILE ensures AddrOk(blocks, s.inodes[i], s.owner, i, s.count[i], bn) {
      SameAddr(s, b, data, i, bn);
      assert AddrOk(s.blocks, s.inodes[i], s.owner, i, s.count[i], bn);
    }
  }

  lemma OwnedIsNotBitmap(g: Geometry, b: nat, x: nat)
    requires GeometryOk(g) && b < g.size && g.datastart <= x
    ensures BBlock(g, b) < g.datastart && BBlock(g, b) != x
  {
    assert b / BPB <= (g.size - 1) / BPB;
  }

  lemma RewriteMapped(g: Geometry, s: Fs, b: nat, data: seq<byte>)
    requires GeometryOk(g) && Blocks(g, s) && Mapped(g, s) && g.datastart <= b < g.size && IsBlock(data)
    ensures Mapped(g, s.(blocks := s.blocks[b := data])) && Blocks(g, s.(blocks := s.blocks[b := data]))
  {
    var t := s.(blocks := s.blocks[b := data]);
    forall x: nat | x < g.size ensures Used(g, t.blocks, x) <==> Used(g, s.blocks, x) {
      OwnedIsNotBitmap(g, x, b);
    }
  }

  lemma NotIndirect(g: Geometry, s: Fs, b: nat)
    requires Inv(g, s) && (b !in s.owner || !s.owner[b].Indirect?) && b > 0
    ensures NoAddresses(s, b)
  {
    forall i: nat | i < |s.inodes| ensures !IndirectAt(s.inodes[i], b) {
      assert FileOk(s.blocks, s.inodes[i], s.owner, i, s.count[i]);
    }
  }

  /** Overwriting a data block keeps the invariant. */
  lemma WriteKeepsInv(g: Geometry, s: Fs, b: nat, data: seq<byte>)
    requires Inv(g, s) && b in s.owner && !s.owner[b].Indirect? && IsBlock(data)
    ensures b < |s.blocks| && Inv(g, s.(blocks := s.blocks[b := data]))
  {
    assert g.datastart <= b < g.size;
    hide Files, Found;
    NotIndirect(g, s, b);
    RewriteMapped(g, s, b, data);
    RewriteFiles(s, b, data, -1);
    hide Mapped, Blocks;
  }

  // ---- allocation ----

  function Allocated(g: Geometry, s: Fs, b: nat): (t: Fs)
    requires GeometryOk(g) && Blocks(g, s) && b < g.size && !Used(g, s.blocks, b)
  {
    OwnedIsNotBitmap(g, b, g.datastart);
    s.(blocks := s.blocks[BBlock(g, b) := SetBit(s.blocks[BBlock(g, b)], b % BPB)][b := ZeroBlock()],
       owner := s.owner[b := Loose])
  }

  lemma MarkBit(g: Geometry, blocks: seq<seq<byte>>, b: nat, x: nat, bm: seq<byte>)
    requires GeometryOk(g) && b < g.size && x < g.size && BBlock(g, b) < |blocks| && IsBlock(blocks[BBlock(g, b)]) && IsBlock(bm)
    requires BBlock(g, x) < |blocks| && IsBlock(blocks[BBlock(g, x)])
    requires BBlock(g, x) == BBlock(g, b) && x != b ==> Bit(bm, x % BPB) == Bit(blocks[BBlock(g, b)], x % BPB)
    ensures x != b ==> (Used(g, blocks[BBlock(g, b) := bm], x) <==> Used(g, blocks, x))
  {
  }

  lemma SameDigit(g: Geometry, b: nat, x: nat)
    requires BBlock(g, x) == BBlock(g, b) && x % BPB == b % BPB
    ensures x == b
  {
    assert x == x / BPB * BPB + x % BPB && b == b / BPB * BPB + b % BPB;
  }

  /** Setting one bit of the bitmap. */
  lemma SetMapped(g: Geometry, s: Fs, b: nat)
    requires GeometryOk(g) && Blocks(g, s) && Mapped(g, s) && g.datastart <= b < g.size && !Used(g, s.blocks, b)
    ensures BBlock(g, b) < g.datastart
    ensures var t := s.(blocks := s.blocks[BBlock(g, b) := SetBit(s.blocks[BBlock(g, b)], b % BPB)],
                        owner := s.owner[b := Loose]);
      Mapped(g, t) && Blocks(g, t)
  {
    OwnedIsNotBitmap(g, b, g.datastart);
    var bm := SetBit(s.blocks[BBlock(g, b)], b % BPB);
    var t := s.(blocks := s.blocks[BBlock(g, b) := bm], owner := s.owner[b := Loose]);
    forall x: nat | x < g.size ensures Used(g, t.blocks, x) <==> x < g.datastart || x in t.owner {
      OwnedIsNotBitmap(g, x, g.datastart);
      if BBlock(g, x) == BBlock(g, b) && x % BPB == b % BPB {
        SameDigit(g, b, x);
      }
      MarkBit(g, s.blocks, b, x, bm);
    }
  }

  lemma ClearMapped(g: Geometry, s: Fs, b: nat)
    requires GeometryOk(g) && Blocks(g, s) && Mapped(g, s) && b in s.owner
    ensures b < g.size && BBlock(g, b) < g.datastart && Used(g, s.blocks, b)
    ensures var t := s.(blocks := s.blocks[BBlock(g, b) := ClearBit(s.blocks[BBlock(g, b)], b % BPB)], owner := s.owner - {b});
      Mapped(g, t) && Blocks(g, t)
  {
    OwnedIsNotBitmap(g, b, g.datastart);
    assert Used(g, s.blocks, b);
    var bm := ClearBit(s.blocks[BBlock(g, b)], b % BPB);
    var t := s.(blocks := s.blocks[BBlock(g, b) := bm], owner := s.owner - {b});
    forall x: nat | x < g.size ensures Used(g, t.blocks, x) <==> x < g.datastart || x in t.owner {
      OwnedIsNotBitmap(g, x, g.datastart);
      if BBlock(g, x) == BBlock(g, b) && x % BPB == b % BPB {
        SameDigit(g, b, x);
      }
      MarkBit(g, s.blocks, b, x, bm);
    }
  }

  /** Loose blocks may come and go without any file noticing. */
  lemma LooseFiles(s: Fs, owner: map<nat, Use>, but: int)
    requires Files(s, but) && Found(s)
    requires forall b :: b in s.owner && s.owner[b] != Loose ==> b in owner && owner[b] == s.owner[b]
    requires forall b :: b in owner && owner[b] != Loose ==> b in s.owner && owner[b] == s.owner[b]
    ensures Files(s.(owner := owner), but) && Found(s.(owner := owner))
  {
    forall i: nat | i < |s.inodes| && i != but ensures FileOk(s.blocks, s.inodes[i], owner, i, s.count[i]) {
      assert FileOk(s.blocks, s.inodes[i], s.owner, i, s.count[i]);
      forall bn: nat | bn < MAXFILE ensures AddrOk(s.blocks, s.inodes[i], owner, i, s.count[i], bn) {
        assert AddrOk(s.blocks, s.inodes[i], s.owner, i, s.count[i], bn);
      }
    }
  }

  /** Below datastart there are no indirect blocks. */
  lemma MetadataHoldsNoAddresses(g: Geometry, s: Fs, b: nat, but: int)
    requires InvBut(g, s, but) && 0 <= b < g.datastart && (0 <= but < |s.inodes| ==> !IndirectAt(s.inodes[but], b))
    ensures b > 0 ==> NoAddresses(s, b)
  {
    if b > 0 {
      forall i: nat | i < |s.inodes| ensures !IndirectAt(s.inodes[i], b) {
        if i != but {
          assert FileOk(s.blocks, s.inodes[i], s.owner, i, s.count[i]);
        }
      }
    }
  }

  /** balloc's stores: the bit, and the zeroed block. */
  lemma AllocateKeepsInv(g: Geometry, s: Fs, b: nat)
    requires Inv(g, s) && g.datastart <= b < g.size && !Used(g, s.blocks, b)
    ensures Inv(g, Allocated(g, s, b)) && b !in s.owner
  {
    assert b !in s.owner;
    OwnedIsNotBitmap(g, b, g.datastart);
    hide Files, Found, Used;
    var bm := SetBit(s.blocks[BBlock(g, b)], b % BPB);
    SetMapped(g, s, b);
    MetadataHoldsNoAddresses(g, s, BBlock(g, b), -1);
    RewriteFiles(s, BBlock(g, b), bm, -1);
    var s1 := s.(blocks := s.blocks[BBlock(g, b) := bm]);
    LooseFiles(s1, s.owner[b := Loose], -1);
    var s2 := s1.(owner := s.owner[b := Loose]);
    assert Inv(g, s2);
    hide Mapped, Blocks;
    WriteKeepsInv(g, s2, b, ZeroBlock());
  }

  function Freed(g: Geometry, s: Fs, b: nat): (t: Fs)
    requires GeometryOk(g) && Blocks(g, s) && b < g.size && Used(g, s.blocks, b)
  {
    s.(blocks := s.blocks[BBlock(g, b) := ClearBit(s.blocks[BBlock(g, b)], b % BPB)], owner := s.owner - {b})
  }

  /** bfree's store. Only a block outside every file may go. */
  lemma FreeKeepsInv(g: Geometry, s: Fs, b: nat, but: int)
    requires InvBut(g, s, but) && b in s.owner && s.owner[b] == Loose
    requires 0 <= but < |s.inodes| ==> !IndirectAt(s.inodes[but], BBlock(g, b))
    ensures b < g.size && Used(g, s.blocks, b) && InvBut(g, Freed(g, s, b), but)
  {
    assert g.datastart <= b < g.size;
    OwnedIsNotBitmap(g, b, g.datastart);
    hide Files, Found;
    ClearMapped(g, s, b);
    hide Used;
    var bm := ClearBit(s.blocks[BBlock(g, b)], b % BPB);
    MetadataHoldsNoAddresses(g, s, BBlock(g, b), but);
    RewriteFiles(s, BBlock(g, b), bm, but);
    var s1 := s.(blocks := s.blocks[BBlock(g, b) := bm]);
    LooseFiles(s1, s.owner - {b}, but);
    hide Mapped, Blocks;
  }

  // ---- linking a block into a file ----

  function LinkedDirect(s: Fs, i: nat, bn: nat, b: nat): (t: Fs)
    requires i < |s.inodes| && i < |s.count| && bn < NDIRECT < |s.inodes[i].addrs|
  {
    s.(inodes := s.inodes[i := s.inodes[i].(addrs := s.inodes[i].addrs[bn := b])],
       owner := s.owner[b := Data(i, bn)], count := s.count[i := bn + 1])
  }

  lemma LinkDirectFile(s: Fs, i: nat, bn: nat, b: nat)
    requires i < |s.inodes| && i < |s.count| && FileOk(s.blocks, s.inodes[i], s.owner, i, s.count[i])
    requires s.count[i] == bn < NDIRECT && b in s.owner && s.owner[b] == Loose && b > 0
    ensures var t := LinkedDirect(s, i, bn, b); FileOk(t.blocks, t.inodes[i], t.owner, i, bn + 1)
  {
    var t, c := LinkedDirect(s, i, bn, b), bn + 1;
    forall n: nat | n < MAXFILE ensures AddrOk(t.blocks, t.inodes[i], t.owner, i, c, n) {
      assert AddrOk(s.blocks, s.inodes[i], s.owner, i, s.count[i], n);
    }
  }

  /** Relabelling a loose block disturbs no other file. */
  lemma OtherFile(s: Fs, j: nat, b: nat, u: Use)
    requires j < |s.inodes| && j < |s.count| && FileOk(s.blocks, s.inodes[j], s.owner, j, s.count[j])
    requires b in s.owner && s.owner[b] == Loose
    ensures FileOk(s.blocks, s.inodes[j], s.owner[b := u], j, s.count[j])
  {
    var owner := s.owner[b := u];
    forall n: nat | n < MAXFILE ensures AddrOk(s.blocks, s.inodes[j], owner, j, s.count[j], n) {
      assert AddrOk(s.blocks, s.inodes[j], s.owner, j, s.count[j], n);
    }
  }

  lemma LinkDirectKeepsInv(g: Geometry, s: Fs, i: nat, bn: nat, b: nat)
    requires Inv(g, s) && i < |s.inodes| && s.count[i] == bn < NDIRECT && b in s.owner && s.owner[b] == Loose
    ensures |s.inodes[i].addrs| == NDIRECT + 1 && Inv(g, LinkedDirect(s, i, bn, b))
  {
    assert FileOk(s.blocks, s.inodes[i], s.owner, i, s.count[i]);
    assert AddrOk(s.blocks, s.inodes[i], s.owner, i, s.count[i], bn);
    var t := LinkedDirect(s, i, bn, b);
    LinkDirectFile(s, i, bn, b);
    forall j: nat | j < |t.inodes| ensures FileOk(t.blocks, t.inodes[j], t.owner, j, t.count[j]) {
      if j != i {
        OtherFile(s, j, b, Data(i, bn));
      }
    }
    hide FileOk;
    assert Found(t);
    assert Mapped(g, t);
  }

  function LinkedIndirect(s: Fs, i: nat, b: nat): (t: Fs)
    requires i < |s.inodes| && NDIRECT < |s.inodes[i].addrs|
  {
    s.(inodes := s.inodes[i := s.inodes[i].(addrs := s.inodes[i].addrs[NDIRECT := b])], owner := s.owner[b := Indirect(i)])
  }

  lemma LinkIndirectFile(s: Fs, i: nat, b: nat)
    requires i < |s.inodes| && i < |s.count| && FileOk(s.blocks, s.inodes[i], s.owner, i, s.count[i])
    requires s.count[i] <= NDIRECT && s.inodes[i].addrs[NDIRECT] == 0
    requires b in s.owner && s.owner[b] == Loose && 0 < b < |s.blocks| && s.blocks[b] == ZeroBlock()
    ensures var t := LinkedIndirect(s, i, b); FileOk(t.blocks, t.inodes[i], t.owner, i, t.count[i])
  {
    var t := LinkedIndirect(s, i, b);
    forall n: nat | n < MAXFILE ensures AddrOk(t.blocks, t.inodes[i], t.owner, i, t.count[i], n) {
      assert AddrOk(s.blocks, s.inodes[i], s.owner, i, s.count[i], n);
      assert n >= NDIRECT ==> Word(ZeroBlock(), n - NDIRECT) == 0;
    }
  }

  lemma LinkIndirectKeepsInv(g: Geometry, s: Fs, i: nat, b: nat)
    requires Inv(g, s) && i < |s.inodes| && s.count[i] <= NDIRECT
    requires NDIRECT < |s.inodes[i].addrs| && s.inodes[i].addrs[NDIRECT] == 0
    requires b in s.owner && s.owner[b] == Loose && b < |s.blocks| && s.blocks[b] == ZeroBlock()
    ensures Inv(g, LinkedIndirect(s, i, b))
  {
    assert FileOk(s.blocks, s.inodes[i], s.owner, i, s.count[i]);
    var t := LinkedIndirect(s, i, b);
    LinkIndirectFile(s, i, b);
    forall j: nat | j < |t.inodes| ensures FileOk(t.blocks, t.inodes[j], t.owner, j, t.count[j]) {
      if j != i {
        OtherFile(s, j, b, Indirect(i));
      }
    }
    LinkIndirectFound(s, i, b);
    hide FileOk, Found;
    assert Mapped(g, t);
  }

  lemma LinkIndirectFound(s: Fs, i: nat, b: nat)
    requires Found(s) && i < |s.inodes| && i < |s.count| && FileOk(s.blocks, s.inodes[i], s.owner, i, s.count[i])
    requires s.count[i] <= NDIRECT && s.inodes[i].addrs[NDIRECT] == 0 && 0 !in s.owner
    ensures Found(LinkedIndirect(s, i, b))
  {
    var t := LinkedIndirect(s, i, b);
    forall x | x in t.owner ensures BelongsTo(t.blocks, t.inodes, x, t.owner[x]) {
      if x != b {
        assert BelongsTo(s.blocks, s.inodes, x, s.owner[x]);
      }
    }
  }

  function LinkedEntry(s: Fs, i: nat, bn: nat, b: nat): (t: Fs)
    requires i < |s.inodes| && i < |s.count| && |s.inodes[i].addrs| == NDIRECT + 1 && NDIRECT <= bn < MAXFILE && b < WORD
    requires s.inodes[i].addrs[NDIRECT] < |s.blocks| && IsBlock(s.blocks[s.inodes[i].addrs[NDIRECT]])
  {
    var x := s.inodes[i].addrs[NDIRECT];
    s.(blocks := s.blocks[x := SetWord(s.blocks[x], bn - NDIRECT, b)],
       owner := s.owner[b := Data(i, bn)], count := s.count[i := bn + 1])
  }

  lemma LinkEntryFile(s: Fs, i: nat, bn: nat, b: nat)
    requires i < |s.inodes| && i < |s.count| && FileOk(s.blocks, s.inodes[i], s.owner, i, s.count[i])
    requires NDIRECT <= s.count[i] == bn < MAXFILE && b in s.owner && s.owner[b] == Loose && 0 < b < WORD
    requires 0 < s.inodes[i].addrs[NDIRECT] < |s.blocks| && IsBlock(s.blocks[s.inodes[i].addrs[NDIRECT]])
    ensures var t := LinkedEntry(s, i, bn, b); FileOk(t.blocks, t.inodes[i], t.owner, i, bn + 1)
  {
    var t, c := LinkedEntry(s, i, bn, b), bn + 1;
    forall n: nat | n < MAXFILE ensures AddrOk(t.blocks, t.inodes[i], t.owner, i, c, n) {
      assert AddrOk(s.blocks, s.inodes[i], s.owner, i, s.count[i], n);
    }
  }

  /** Another file keeps its addresses when the entry is stored in i's indirect block. */
  lemma LinkEntryOther(s: Fs, i: nat, bn: nat, b: nat, j: nat)
    requires i < |s.inodes| && i < |s.count| && FileOk(s.blocks, s.inodes[i], s.owner, i, s.count[i])
    requires NDIRECT <= bn < MAXFILE && b in s.owner && s.owner[b] == Loose && 0 < b < WORD
    requires 0 < s.inodes[i].addrs[NDIRECT] < |s.blocks| && IsBlock(s.blocks[s.inodes[i].addrs[NDIRECT]])
    requires j < |s.inodes| && j < |s.count| && j != i && FileOk(s.blocks, s.inodes[j], s.owner, j, s.count[j])
    ensures var t := LinkedEntry(s, i, bn, b); FileOk(t.blocks, t.inodes[j], t.owner, j, t.count[j])
  {
    var t := LinkedEntry(s, i, bn, b);
    forall n: nat | n < MAXFILE ensures AddrOk(t.blocks, t.inodes[j], t.owner, j, t.count[j], n) {
      assert AddrOk(s.blocks, s.inodes[j], s.owner, j, s.count[j], n);
    }
  }

  lemma LinkEntryFound(s: Fs, i: nat, bn: nat, b: nat)
    requires i < |s.inodes| && Files(s, -1) && Found(s) && 0 !in s.owner
    requires NDIRECT <= s.count[i] == bn < MAXFILE && b in s.owner && s.owner[b] == Loose && 0 < b < WORD
    requires |s.inodes[i].addrs| == NDIRECT + 1
    requires 0 < s.inodes[i].addrs[NDIRECT] < |s.blocks| && IsBlock(s.blocks[s.inodes[i].addrs[NDIRECT]])
    ensures Found(LinkedEntry(s, i, bn, b))
  {
    var t, a := LinkedEntry(s, i, bn, b), s.inodes[i].addrs[NDIRECT];
    assert FileOk(s.blocks, s.inodes[i], s.owner, i, s.count[i]);
    assert AddrOk(s.blocks, s.inodes[i], s.owner, i, s.count[i], bn);
    forall x | x in t.owner ensures BelongsTo(t.blocks, t.inodes, x, t.owner[x]) {
      if x != b && t.owner[x].Data? {
        assert BelongsTo(s.blocks, s.inodes, x, s.owner[x]);
        var j := t.owner[x].ino;
        assert FileOk(s.blocks, s.inodes[j], s.owner, j, s.count[j]);
      }
    }
  }

  lemma LinkEntryFiles(s: Fs, i: nat, bn: nat, b: nat)
    requires i < |s.inodes| && Files(s, -1) && |s.inodes[i].addrs| == NDIRECT + 1
    requires NDIRECT <= s.count[i] == bn < MAXFILE && b in s.owner && s.owner[b] == Loose && 0 < b < WORD
    requires 0 < s.inodes[i].addrs[NDIRECT] < |s.blocks| && IsBlock(s.blocks[s.inodes[i].addrs[NDIRECT]])
    ensures Files(LinkedEntry(s, i, bn, b), -1)
  {
    var t := LinkedEntry(s, i, bn, b);
    assert FileOk(s.blocks, s.inodes[i], s.owner, i, s.count[i]);
    LinkEntryFile(s, i, bn, b);
    hide FileOk;
    forall j: nat | j < |t.inodes| ensures FileOk(t.blocks, t.inodes[j], t.owner, j, t.count[j]) {
      if j != i {
        assert FileOk(s.blocks, s.inodes[j], s.owner, j, s.count[j]);
        LinkEntryOther(s, i, bn, b, j);
      }
    }
  }

  lemma LinkEntryMapped(g: Geometry, s: Fs, i: nat, bn: nat, b: nat)
    requires GeometryOk(g) && Blocks(g, s) && Mapped(g, s)
    requires i < |s.inodes| && i < |s.count| && |s.inodes[i].addrs| == NDIRECT + 1
    requires NDIRECT <= bn < MAXFILE && b in s.owner && s.inodes[i].addrs[NDIRECT] in s.owner
    ensures g.datastart <= s.inodes[i].addrs[NDIRECT] < |s.blocks| && IsBlock(s.blocks[s.inodes[i].addrs[NDIRECT]])
    ensures 0 < b < WORD && 0 !in s.owner && Mapped(g, LinkedEntry(s, i, bn, b)) && Blocks(g, LinkedEntry(s, i, bn, b))
  {
    var a := s.inodes[i].addrs[NDIRECT];
    RewriteMapped(g, s, a, SetWord(s.blocks[a], bn - NDIRECT, b));
    hide Used, SetWord;
  }

  lemma LinkEntryKeepsInv(g: Geometry, s: Fs, i: nat, bn: nat, b: nat)
    requires Inv(g, s) && i < |s.inodes| && NDIRECT <= s.count[i] == bn < MAXFILE && b in s.owner && s.owner[b] == Loose
    requires |s.inodes[i].addrs| == NDIRECT + 1 && s.inodes[i].addrs[NDIRECT] != 0
    ensures s.inodes[i].addrs[NDIRECT] < |s.blocks| && IsBlock(s.blocks[s.inodes[i].addrs[NDIRECT]]) && b < WORD
    ensures Inv(g, LinkedEntry(s, i, bn, b))
  {
    assert FileOk(s.blocks, s.inodes[i], s.owner, i, s.count[i]);
    hide FileOk, Found, Files, Mapped, Blocks, LinkedEntry;
    LinkEntryMapped(g, s, i, bn, b);
    LinkEntryFiles(s, i, bn, b);
    LinkEntryFound(s, i, bn, b);
  }
}
