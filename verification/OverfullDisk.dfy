/**
 A disk on which the write of a swapped page needs one log block too many. Six bitmap blocks; block
 numbers 0 to 8191 hold the log, the inodes and the bitmap itself. From there on every run of 8192
 blocks is cut into files of twelve blocks, a last one of seven, and one free block at its end.
 */
module OverfullDisk {
  import opened Common
  import opened BlockData
  import opened FileBlocks
  import opened FileContents
  import opened InodeCalls
  import opened InodeCode
  import opened Budget
  import opened SwapBudget

  const SIZE: nat := 6 * BPB
  const RUN: nat := 683                      // files in a run of BPB blocks
  const NINODES: nat := (8186 - 33) * 16

  /** As mkfs lays a disk of this size with this many inodes out: log, inodes, bitmap, data. */
  function G(): Geometry
  {
    Geometry(SIZE, 33, 8186, 8192)
  }

  function FileOf(b: nat): nat
    requires BPB <= b
  {
    (b / BPB - 1) * RUN + b % BPB / NDIRECT
  }

  /** The first block of file i. */
  function Start(i: nat): nat
  {
    (i / RUN + 1) * BPB + i % RUN * NDIRECT
  }

  function CountOf(i: nat): nat
  {
    if i >= 5 * RUN then 0 else if i % RUN == RUN - 1 then 7 else NDIRECT
  }

  function AddrAt(i: nat, k: nat): nat
  {
    if k < CountOf(i) then Start(i) + k else 0
  }

  function InodeOf(i: nat): Inode
  {
    Inode(seq(NDIRECT + 1, k requires k >= 0 => AddrAt(i, k)), CountOf(i) * BSIZE)
  }

  /** A byte of bitmap block m: all bits set, but for the last of a run of files. */
  function MapByte(m: nat, k: nat): byte
  {
    if m > 0 && k == BSIZE - 1 then 127 else 255
  }

  function BlockAt(b: nat): seq<byte>
  {
    if 8186 <= b < 8192 then seq(BSIZE, k requires k >= 0 => MapByte(b - 8186, k)) else ZeroBlock()
  }

  ghost predicate InFileArea(b: nat)
  {
    BPB <= b < SIZE && b % BPB != BPB - 1
  }

  ghost function Owners(): map<nat, Use>
  {
    map b: nat | b < SIZE && InFileArea(b) :: Data(FileOf(b), b % BPB % NDIRECT)
  }

  ghost function Counts(): seq<nat>
  {
    seq(NINODES, i requires i >= 0 => CountOf(i))
  }

  function Disk(): seq<seq<byte>>
  {
    seq(SIZE, b requires b >= 0 => BlockAt(b))
  }

  function Inodes(): seq<Inode>
  {
    seq(NINODES, i requires i >= 0 => InodeOf(i))
  }

  ghost function D(): Fs
  {
    Fs(Disk(), Inodes(), Owners(), Counts())
  }

  // ---- it is in order ----

  /** The bits of 2^n - 1. */
  lemma {:induction false} Ones(n: nat, k: nat)
    ensures BitOf(Mask(n) - 1, k) <==> k < n
    decreases k
  {
    if n == 0 {
      NoBits(k);
    } else if k > 0 {
      assert (Mask(n) - 1) / 2 == Mask(n - 1) - 1;
      Ones(n - 1, k - 1);
    }
  }

  lemma {:induction false} NoBits(k: nat)
    ensures !BitOf(0, k)
    decreases k
  {
    if k > 0 {
      NoBits(k - 1);
    }
  }

  lemma ByteBits(k: nat)
    requires k < 8
    ensures BitOf(255, k) && (BitOf(127, k) <==> k != 7)
  {
    MaskByte();
    assert Mask(8) == 2 * Mask(7);
    Ones(8, k);
    Ones(7, k);
  }

  /** A block belongs to exactly one place of one file. */
  lemma Placed(b: nat)
    requires InFileArea(b)
    ensures var i, k := FileOf(b), b % BPB % NDIRECT;
      i < 5 * RUN && k < CountOf(i) && Start(i) + k == b
  {
    var q, o := b / BPB - 1, b % BPB;
    assert o / NDIRECT < RUN;
    assert FileOf(b) / RUN == q && FileOf(b) % RUN == o / NDIRECT;
  }

  lemma Placing(i: nat, k: nat)
    requires i < 5 * RUN && k < CountOf(i)
    ensures InFileArea(Start(i) + k) && FileOf(Start(i) + k) == i && (Start(i) + k) % BPB % NDIRECT == k
  {
    var b := Start(i) + k;
    assert i % RUN * NDIRECT + k < BPB - 1;
    assert b / BPB == i / RUN + 1 && b % BPB == i % RUN * NDIRECT + k;
  }

  lemma MarkedUsed(b: nat)
    requires b < SIZE
    ensures Used(G(), Disk(), b) <==> b < BPB || InFileArea(b)
  {
    var m, n := b / BPB, b % BPB;
    var blk := BlockAt(8186 + m);
    assert Disk()[8186 + m] == blk && BBlock(G(), b) == 8186 + m;
    assert blk[n / 8] == MapByte(m, n / 8);
    ByteBits(n % 8);
  }

  lemma FileInOrder(i: nat)
    requires i < NINODES
    ensures FileOk(Disk(), Inodes()[i], Owners(), i, CountOf(i))
  {
    var ino := InodeOf(i);
    assert Inodes()[i] == ino && |ino.addrs| == NDIRECT + 1 && ino.addrs[NDIRECT] == 0;
    forall bn: nat | bn < MAXFILE ensures AddrOk(Disk(), ino, Owners(), i, CountOf(i), bn) {
      if bn < CountOf(i) {
        Placing(i, bn);
        assert Addr(Disk(), ino, bn) == Start(i) + bn;
      }
    }
  }

  lemma InOrder()
    ensures Inv(G(), D()) && NoLoose(Owners())
  {
    hide Used, FileOk, Addr, BlockAt;
    forall b: nat | b < SIZE ensures Used(G(), Disk(), b) <==> b < BPB || b in Owners() {
      MarkedUsed(b);
    }
    forall i: nat | i < NINODES ensures FileOk(Disk(), Inodes()[i], Owners(), i, Counts()[i]) {
      FileInOrder(i);
    }
    forall b | b in Owners() ensures BelongsTo(Disk(), Inodes(), b, Owners()[b]) {
      OwnedFound(b);
    }
    forall b | 0 <= b < SIZE ensures IsBlock(Disk()[b]) {
      BlockLength(b);
    }
  }

  lemma BlockLength(b: nat)
    ensures IsBlock(BlockAt(b))
  {
  }

  lemma OwnedFound(b: nat)
    requires b in Owners()
    ensures BelongsTo(Disk(), Inodes(), b, Owners()[b])
  {
    Placed(b);
    var i := FileOf(b);
    assert Inodes()[i] == InodeOf(i);
  }

  lemma Sized()
    ensures AllSettled(D())
  {
    forall i: nat | i < NINODES ensures Settled(Inodes()[i], Counts()[i]) {
      assert Inodes()[i] == InodeOf(i) && Counts()[i] == CountOf(i);
    }
  }

  // ---- the next five free blocks ----

  function Five(): seq<nat>
  {
    [2 * BPB - 1, 3 * BPB - 1, 4 * BPB - 1, 5 * BPB - 1, 6 * BPB - 1]
  }

  lemma FiveAt(k: nat)
    requires k < 5
    ensures |Five()| == 5 && Five()[k] == (k + 2) * BPB - 1 && BBlock(G(), Five()[k]) == 8187 + k
  {
  }

  lemma FiveNext()
    ensures FiveApart(G(), Owners().Keys, Five())
  {
    hide Owners, Five, BBlock, Lowest;
    FiveAt(0);
    forall k | 0 <= k < 5
      ensures Lowest(G(), Owners().Keys, Five()[..k], Five()[k]) && G().datastart <= Five()[k] < G().size
      ensures BBlock(G(), Five()[k]) == 8187 + k
    {
      FiveAt(k);
      NextIs(k);
    }
  }

  lemma NextIs(k: nat)
    requires k < 5
    ensures Lowest(G(), Owners().Keys, Five()[..k], Five()[k])
  {
    var since := Five()[..k];
    assert Five()[k] == (k + 2) * BPB - 1;
    assert forall j :: 0 <= j < k ==> since[j] == Five()[j] == (j + 2) * BPB - 1;
    forall x: nat | BPB <= x < Five()[k] ensures x in Owners() || x in since {
      if !InFileArea(x) {
        assert since[x / BPB - 1] == x;
      }
    }
  }

  /** Swapping out a fourth page to file 0 of this disk takes eleven log blocks. */
  method FourthPage(page: seq<byte>) returns (ghost cost: nat)
    requires |page| == PGSIZE
    ensures cost == MAXOPBLOCKS + 1
  {
    hide InvBut, AllSettled, NoLoose, FiveApart;
    InOrder();
    Sized();
    FiveNext();
    assert Inodes()[0] == InodeOf(0);
    var fs := new FileSystem.Mount(G(), Disk(), Inodes(), Owners(), Counts());
    assert TooMuch(fs.g, fs.S(), 0, 3 * PGSIZE);
    var _, c := SwapWrite(fs, 0, 3, page);
    cost := c;
  }
}
