/**
 The on-disk layout of the redo log and what a disk image means.

 A disk is a sequence of blocks.  Blocks `start .. start + LOGBLOCKS` are the log:
 a header block, whose first word counts the logged blocks and whose next words name
 their home locations, followed by one slot per logged block.  Every other block is a
 home block.
 */
module LogFormat {
  import opened Common

  const LOGBLOCKS: nat := 30
  const WORDS: nat := 256

  /** A block of BSIZE bytes seen as 32-bit words, the unit the log header is made of. */
  type Block = b: seq<int> | |b| == WORDS witness seq(WORDS, i => 0)

  type Disk = seq<Block>

  datatype Write = Write(at: nat, data: Block)

  predicate IsHome(size: nat, start: nat, b: int)
  {
    0 <= b < size && !(start <= b <= start + LOGBLOCKS)
  }

  /** Block lists a log header may hold: distinct home blocks that fit in the log. */
  predicate LegalTargets(size: nat, start: nat, ts: seq<int>)
  {
    |ts| <= LOGBLOCKS && Distinct(ts) && AllHome(size, start, ts)
  }

  predicate AllHome(size: nat, start: nat, ts: seq<int>)
  {
    forall i :: 0 <= i < |ts| ==> IsHome(size, start, ts[i])
  }

  /** write_head overwrites the count and the first |ts| names; later words keep what they held. */
  function Header(ts: seq<int>, stale: Block): (h: Block)
    requires |ts| <= LOGBLOCKS
    ensures Names(h) == ts
  {
    var h := [|ts|] + ts + stale[|ts| + 1..];
    assert h[1..1 + |ts|] == ts;
    h
  }

  /** read_head: the list of home blocks a header block names. */
  function Names(h: Block): (ts: seq<int>)
  {
    if 0 <= h[0] <= LOGBLOCKS then h[1..1 + h[0]] else []
  }

  /** The log lies inside the disk, after the boot block, and its header is legal. */
  ghost predicate WellFormed(d: Disk, start: nat)
  {
    && 0 < start && start + LOGBLOCKS < |d|
    && 0 <= d[start][0] <= LOGBLOCKS
    && LegalTargets(|d|, start, Names(d[start]))
  }

  ghost function IndexOf(ts: seq<int>, t: int): (i: nat)
    requires t in ts
    ensures i < |ts| && ts[i] == t
  {
    var i :| 0 <= i < |ts| && ts[i] == t;
    i
  }

  /** What a completed recovery of disk `d` must leave in home block `b`. */
  ghost function Owed(d: Disk, start: nat, b: int): Block
    requires WellFormed(d, start) && IsHome(|d|, start, b)
  {
    var ts := Names(d[start]);
    if b in ts then d[start + 1 + IndexOf(ts, b)] else d[b]
  }

  lemma OwedTarget(d: Disk, start: nat, i: nat)
    requires WellFormed(d, start) && i < |Names(d[start])|
    ensures Owed(d, start, Names(d[start])[i]) == d[start + 1 + i]
  {
  }

  /** The whole recovered file system agrees with `v`. */
  ghost predicate RecoversTo(d: Disk, start: nat, v: Disk)
  {
    && WellFormed(d, start)
    && |v| == |d|
    && forall b :: IsHome(|d|, start, b) ==> Owed(d, start, b) == v[b]
  }

  function Apply(d: Disk, w: Write): (d': Disk)
    requires w.at < |d|
  {
    d[w.at := w.data]
  }

  ghost predicate InRange(d: Disk, ws: seq<Write>)
  {
    forall i :: 0 <= i < |ws| ==> ws[i].at < |d|
  }

  /** The disk after a prefix of block writes reached the platter. */
  function ApplyAll(d: Disk, ws: seq<Write>): (d': Disk)
    requires InRange(d, ws)
    ensures |d'| == |d|
    decreases |ws|
  {
    if ws == [] then d else Apply(ApplyAll(d, ws[..|ws| - 1]), ws[|ws| - 1])
  }

  lemma {:induction false} ApplyAllAppend(d: Disk, ws: seq<Write>, vs: seq<Write>)
    requires InRange(d, ws) && InRange(d, vs)
    ensures InRange(d, ws + vs)
    ensures ApplyAll(d, ws + vs) == ApplyAll(ApplyAll(d, ws), vs)
    decreases |vs|
  {
    if vs == [] {
      assert ws + vs == ws;
    } else {
      ApplyAllAppend(d, ws, vs[..|vs| - 1]);
      assert (ws + vs)[..|ws + vs| - 1] == ws + vs[..|vs| - 1];
    }
  }

  lemma {:induction false} Untouched(d: Disk, ws: seq<Write>, b: int)
    requires InRange(d, ws) && 0 <= b < |d|
    requires forall i :: 0 <= i < |ws| ==> ws[i].at != b
    ensures ApplyAll(d, ws)[b] == d[b]
    decreases |ws|
  {
    if ws != [] {
      Untouched(d, ws[..|ws| - 1], b);
    }
  }

  /** A block written exactly once ends up with that write's data. */
  lemma {:induction false} Written(d: Disk, ws: seq<Write>, k: nat)
    requires InRange(d, ws) && k < |ws|
    requires forall i :: k < i < |ws| ==> ws[i].at != ws[k].at
    ensures ApplyAll(d, ws)[ws[k].at] == ws[k].data
    decreases |ws|
  {
    if k < |ws| - 1 {
      Written(d, ws[..|ws| - 1], k);
    }
  }

  /** One more write. */
  lemma ApplyNext(d: Disk, ws: seq<Write>, k: nat)
    requires InRange(d, ws) && k < |ws|
    ensures ApplyAll(d, ws[..k + 1]) == Apply(ApplyAll(d, ws[..k]), ws[k])
    ensures ws[..k + 1] == ws[..k] + [ws[k]]
  {
    assert ws[..k + 1][..k] == ws[..k];
  }

  lemma ApplyOne(d: Disk, ws: seq<Write>, w: Write)
    requires InRange(d, ws) && w.at < |d|
    ensures InRange(d, ws + [w])
    ensures ApplyAll(d, ws + [w]) == Apply(ApplyAll(d, ws), w)
  {
    assert (ws + [w])[..|ws|] == ws;
  }
}
