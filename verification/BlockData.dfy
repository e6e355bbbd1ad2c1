/** A disk block read as bytes, as bitmap bits and as 32-bit words. */
module BlockData {
  import opened Common

  /** 1 << k */
  function Mask(k: nat): (m: nat)
    ensures 0 < m
  {
    if k == 0 then 1 else 2 * Mask(k - 1)
  }

  predicate BitOf(x: nat, k: nat)
  {
    if k == 0 then x % 2 == 1 else BitOf(x / 2, k - 1)
  }

  /** Adding the mask of a clear bit sets that bit and no other. */
  lemma {:induction false} SetBitOf(x: nat, k: nat, j: nat)
    requires !BitOf(x, k)
    ensures BitOf(x + Mask(k), j) <==> j == k || BitOf(x, j)
    decreases k
  {
    if k > 0 {
      assert (x + Mask(k)) / 2 == x / 2 + Mask(k - 1);
      if j > 0 {
        SetBitOf(x / 2, k - 1, j - 1);
      }
    } else if j > 0 {
      assert (x + 1) / 2 == x / 2;
    }
  }

  lemma {:induction false} ClearBitOf(x: nat, k: nat, j: nat)
    requires BitOf(x, k)
    ensures x >= Mask(k) && (BitOf(x - Mask(k), j) <==> j != k && BitOf(x, j))
    decreases k
  {
    if k > 0 {
      ClearBitOf(x / 2, k - 1, if j > 0 then j - 1 else 0);
      assert (x - Mask(k)) / 2 == x / 2 - Mask(k - 1);
    } else if j > 0 {
      assert (x - 1) / 2 == x / 2;
    }
  }

  lemma {:induction false} SetStaysBelow(x: nat, k: nat, n: nat)
    requires x < Mask(n) && k < n && !BitOf(x, k)
    ensures x + Mask(k) < Mask(n)
    decreases n
  {
    if k > 0 {
      SetStaysBelow(x / 2, k - 1, n - 1);
      hide BitOf;
      assert Mask(n) == 2 * Mask(n - 1) && Mask(k) == 2 * Mask(k - 1);
    }
  }

  // ---- bitmap bits ----

  predicate IsBlock(b: seq<byte>)
  {
    |b| == BSIZE
  }

  predicate Bit(b: seq<byte>, n: nat)
    requires IsBlock(b) && n < 8 * BSIZE
  {
    BitOf(b[n / 8], n % 8)
  }

  /** data[n/8] |= 1 << n%8, on a clear bit */
  function SetBit(b: seq<byte>, n: nat): (c: seq<byte>)
    requires IsBlock(b) && n < 8 * BSIZE && !Bit(b, n)
    ensures IsBlock(c)
    ensures forall m: nat :: m < 8 * BSIZE ==> (Bit(c, m) <==> m == n || Bit(b, m))
  {
    MaskByte();
    SetStaysBelow(b[n / 8], n % 8, 8);
    var c := b[n / 8 := b[n / 8] + Mask(n % 8)];
    SetBits(b, n, c);
    c
  }

  lemma MaskByte()
    ensures Mask(8) == 256
  {
    assert Mask(2) == 4 && Mask(4) == 16 && Mask(6) == 64;
  }

  lemma SetBits(b: seq<byte>, n: nat, c: seq<byte>)
    requires IsBlock(b) && n < 8 * BSIZE && !Bit(b, n) && b[n / 8] + Mask(n % 8) < 256
    requires c == b[n / 8 := b[n / 8] + Mask(n % 8)]
    ensures forall m: nat :: m < 8 * BSIZE ==> (Bit(c, m) <==> m == n || Bit(b, m))
  {
    forall m: nat | m < 8 * BSIZE ensures Bit(c, m) <==> m == n || Bit(b, m) {
      if m / 8 == n / 8 {
        SetBitOf(b[n / 8], n % 8, m % 8);
      }
    }
  }

  /** data[n/8] &= ~(1 << n%8), on a set bit */
  function ClearBit(b: seq<byte>, n: nat): (c: seq<byte>)
    requires IsBlock(b) && n < 8 * BSIZE && Bit(b, n)
    ensures IsBlock(c)
    ensures forall m: nat :: m < 8 * BSIZE ==> (Bit(c, m) <==> m != n && Bit(b, m))
  {
    ClearBitOf(b[n / 8], n % 8, 0);
    var c := b[n / 8 := b[n / 8] - Mask(n % 8)];
    ClearBits(b, n, c);
    c
  }

  lemma ClearBits(b: seq<byte>, n: nat, c: seq<byte>)
    requires IsBlock(b) && n < 8 * BSIZE && Bit(b, n) && b[n / 8] >= Mask(n % 8)
    requires c == b[n / 8 := b[n / 8] - Mask(n % 8)]
    ensures forall m: nat :: m < 8 * BSIZE ==> (Bit(c, m) <==> m != n && Bit(b, m))
  {
    forall m: nat | m < 8 * BSIZE ensures Bit(c, m) <==> m != n && Bit(b, m) {
      if m / 8 == n / 8 {
        ClearBitOf(b[n / 8], n % 8, m % 8);
      }
    }
  }

  // ---- words ----

  const WORD: nat := 0x1_0000_0000

  /** ((uint*)data)[i], little-endian */
  function Word(b: seq<byte>, i: nat): (w: nat)
    requires IsBlock(b) && i < BSIZE / 4
    ensures w < WORD
  {
    var b0: int, b1: int, b2: int, b3: int := b[4 * i], b[4 * i + 1], b[4 * i + 2], b[4 * i + 3];
    b0 + 0x100 * b1 + 0x1_0000 * b2 + 0x100_0000 * b3
  }

  function SetWord(b: seq<byte>, i: nat, w: nat): (c: seq<byte>)
    requires IsBlock(b) && i < BSIZE / 4 && w < WORD
    ensures IsBlock(c)
    ensures forall j: nat :: j < BSIZE / 4 ==> Word(c, j) == if j == i then w else Word(b, j)
  {
    var c := b[4 * i := w % 0x100][4 * i + 1 := w / 0x100 % 0x100]
              [4 * i + 2 := w / 0x1_0000 % 0x100][4 * i + 3 := w / 0x100_0000];
    WordDigits(w);
    OtherWords(b, i, c);
    c
  }

  lemma WordDigits(w: nat)
    ensures w == w % 0x100 + 0x100 * (w / 0x100 % 0x100) + 0x1_0000 * (w / 0x1_0000 % 0x100) + 0x100_0000 * (w / 0x100_0000)
  {
    assert w / 0x1_0000 == w / 0x100 / 0x100 && w / 0x100_0000 == w / 0x1_0000 / 0x100;
  }

  lemma OtherWords(b: seq<byte>, i: nat, c: seq<byte>)
    requires IsBlock(b) && IsBlock(c) && i < BSIZE / 4
    requires forall k :: 0 <= k < BSIZE && (k < 4 * i || k >= 4 * i + 4) ==> c[k] == b[k]
    ensures forall j: nat :: j < BSIZE / 4 && j != i ==> Word(c, j) == Word(b, j)
  {
  }

  function ZeroBlock(): (b: seq<byte>)
    ensures IsBlock(b) && forall i :: 0 <= i < BSIZE ==> b[i] == 0
    ensures forall i: nat :: i < BSIZE / 4 ==> Word(b, i) == 0
  {
    seq(BSIZE, _ => 0)
  }

  /** memmove of d into a block at offset at. */
  function Overlay(b: seq<byte>, at: nat, d: seq<byte>): (c: seq<byte>)
    requires IsBlock(b) && at + |d| <= BSIZE
    ensures IsBlock(c)
    ensures forall k: nat :: k < BSIZE ==> c[k] == if at <= k < at + |d| then d[k - at] else b[k]
  {
    b[..at] + d + b[at + |d|..]
  }
}
