/**
 log.c's commit, recovery and log_write as code over a disk and a buffer cache.

 `writes` records every block write the code has issued, in order, so that the state of the
 disk at each write boundary is `ApplyAll` of a prefix of it.
 */
module LogCode {
  import opened Common
  import opened LogFormat
  import opened LogPlan

  class Log {
    const start: nat
    var disk: Disk
    var buf: Disk              // what a read through the buffer cache returns
    var pins: int              // buffers bpin holds in the cache for the log
    var n: int                 // log.lh.n
    const block: array<int>    // log.lh.block
    ghost var writes: seq<Write>

    ghost predicate Valid()
      reads this, block
    {
      && block.Length == LOGBLOCKS
      && 0 <= n <= LOGBLOCKS
      && |buf| == |disk|
      && start + LOGBLOCKS < |disk|
      && AllHome(|disk|, start, block[..n])
    }

    /** Boot: nothing is cached, so a read goes to the disk. */
    constructor (start: nat, disk: Disk)
      requires start + LOGBLOCKS < |disk|
      ensures Valid() && this.start == start && this.disk == this.buf == disk
      ensures pins == 0 && n == 0 && writes == []
      ensures fresh(block)
    {
      this.start := start;
      this.disk, this.buf := disk, disk;
      pins, n, writes := 0, 0, [];
      block := new int[LOGBLOCKS](i => 0);
    }

    /** Fill block b's buffer and write it to disk. */
    method Bwrite(b: nat, data: Block)
      requires b < |disk| == |buf|
      modifies this`buf, this`disk, this`writes
      ensures disk == Apply(old(disk), Write(b, data))
      ensures buf == Apply(old(buf), Write(b, data))
      ensures writes == old(writes) + [Write(b, data)]
    {
      buf := buf[b := data];
      disk := disk[b := data];
      writes := writes + [Write(b, data)];
    }

    /**
     The caller changed block b in its buffer: record b, unless it is recorded already. Both panics come
     before any change; `outstanding` counts the running operations.
     */
    method LogWrite(b: nat, data: Block, outstanding: int) returns (ok: bool)
      requires Valid() && IsHome(|disk|, start, b) && Distinct(block[..n])
      modifies this`buf, this`pins, this`n, block
      ensures Valid() && Distinct(block[..n])
      ensures ok <==> old(n) < LOGBLOCKS && outstanding >= 1
      ensures !ok ==> block[..n] == old(block[..n]) && pins == old(pins) && buf == old(buf)
      ensures ok ==> buf == old(buf)[b := data]
      ensures ok ==> block[..n] == if b in old(block[..n]) then old(block[..n]) else old(block[..n]) + [b]
      ensures ok ==> pins == if b in old(block[..n]) then old(pins) else old(pins) + 1
    {
      if n >= LOGBLOCKS {
        return false;  // panic: too big a transaction
      }
      if outstanding < 1 {
        return false;  // panic: log_write outside of trans
      }
      buf := buf[b := data];
      var i := 0;
      while i < n
        invariant 0 <= i <= n
        invariant forall j :: 0 <= j < i ==> block[j] != b
      {
        if block[i] == b {
          break;
        }
        i := i + 1;
      }
      ghost var ts := block[..n];
      block[i] := b;
      if i == n {
        pins := pins + 1;
        n := n + 1;
        assert block[..n] == ts + [b];
      } else {
        assert block[..n] == ts;
      }
      return true;
    }

    /** Copy the logged blocks from the cache to the log. */
    method WriteLog(ghost vals: seq<Block>)
      requires Valid() && |vals| == n
      requires forall i :: 0 <= i < n ==> buf[block[..n][i]] == vals[i]
      modifies this`buf, this`disk, this`writes
      ensures Valid()
      ensures InRange(old(disk), Copies(start, vals))
      ensures writes == old(writes) + Copies(start, vals)
      ensures disk == ApplyAll(old(disk), Copies(start, vals))
      ensures buf == ApplyAll(old(buf), Copies(start, vals))
    {
      ghost var ts := block[..n];
      ghost var ws := Copies(start, vals);
      var tail := 0;
      while tail < n
        invariant 0 <= tail <= n && |disk| == |buf| == |old(disk)|
        invariant writes == old(writes) + ws[..tail]
        invariant disk == ApplyAll(old(disk), ws[..tail])
        invariant buf == ApplyAll(old(buf), ws[..tail])
      {
        assert block[tail] == ts[tail];
        Untouched(old(buf), ws[..tail], ts[tail]);
        ApplyNext(old(buf), ws, tail);
        ApplyNext(old(disk), ws, tail);
        Bwrite(start + tail + 1, buf[block[tail]]);
        tail := tail + 1;
      }
      assert ws[..tail] == ws;
    }

    /** Copy committed blocks from the log to their home locations. */
    method InstallTrans(recovering: bool, ghost vals: seq<Block>)
      requires Valid() && |vals| == n
      requires forall i :: 0 <= i < n ==> buf[start + 1 + i] == vals[i]
      modifies this`buf, this`disk, this`writes, this`pins
      ensures Valid()
      ensures InRange(old(disk), Installs(block[..n], vals))
      ensures writes == old(writes) + Installs(block[..n], vals)
      ensures disk == ApplyAll(old(disk), Installs(block[..n], vals))
      ensures buf == ApplyAll(old(buf), Installs(block[..n], vals))
      ensures pins == old(pins) - (if recovering then 0 else n)
    {
      hide Installs, ApplyAll, InRange;
      ghost var ts := block[..n];
      ghost var ws := Installs(ts, vals);
      InstallsHome(disk, start, ts, vals);
      InstallsHome(buf, start, ts, vals);
      hide AllHome;
      var tail := 0;
      assert writes == writes + ws[..0];
      while tail < n
        invariant 0 <= tail <= n && |disk| == |buf| == |old(disk)|
        invariant writes == old(writes) + ws[..tail]
        invariant InRange(old(disk), ws[..tail]) && disk == ApplyAll(old(disk), ws[..tail])
        invariant InRange(old(buf), ws[..tail]) && buf == ApplyAll(old(buf), ws[..tail])
        invariant pins == old(pins) - (if recovering then 0 else tail)
      {
        assert block[tail] == ts[tail];
        InstallSlot(old(buf), start, ts, vals, tail);
        InstallNext(old(buf), start, ts, vals, tail);
        InstallNext(old(disk), start, ts, vals, tail);
        Bwrite(block[tail], buf[start + tail + 1]);
        pins := if recovering then pins else pins - 1;  // bunpin
        assert old(writes) + ws[..tail + 1] == old(writes) + ws[..tail] + [ws[tail]];
        tail := tail + 1;
      }
    }

    /** Write the in-memory header to disk, over whatever the header block holds. */
    method WriteHead()
      requires Valid()
      modifies this`buf, this`disk, this`writes
      ensures Valid()
      ensures disk == Apply(old(disk), Write(start, Header(block[..n], old(buf[start]))))
      ensures buf == Apply(old(buf), Write(start, Header(block[..n], old(buf[start]))))
      ensures writes == old(writes) + [Write(start, Header(block[..n], old(buf[start])))]
    {
      var hb: Block := buf[start][0 := n];
      var i := 0;
      while i < n
        invariant 0 <= i <= n
        invariant hb == [n] + block[..i] + old(buf[start])[i + 1..]
      {
        hb := hb[1 + i := block[i]];
        i := i + 1;
      }
      Bwrite(start, hb);
    }

    /** Read the header from disk into memory. */
    method ReadHead()
      requires block.Length == LOGBLOCKS && |buf| == |disk| && WellFormed(buf, start)
      modifies this`n, block
      ensures Valid() && block[..n] == Names(buf[start])
    {
      var lh := buf[start];
      n := lh[0];
      var i := 0;
      while i < n
        invariant 0 <= i <= n <= LOGBLOCKS && n == lh[0]
        invariant block[..i] == lh[1..1 + i]
      {
        block[i] := lh[1 + i];
        i := i + 1;
      }
    }

    /** Commit the transaction: every block write it issues, in order, is one of CommitWrites. */
    method Commit(ghost vals: seq<Block>) returns (ghost ws: seq<Write>)
      requires Valid() && |vals| == n && buf[start] == disk[start]
      requires forall i :: 0 <= i < n ==> buf[block[..n][i]] == vals[i]
      modifies this`buf, this`disk, this`writes, this`pins, this`n
      ensures Valid() && n == 0 && pins == old(pins) - old(n)
      ensures ws == CommitWrites(start, old(block[..n]), vals, old(disk[start]))
      ensures writes == old(writes) + ws
      ensures InRange(old(disk), ws) && |old(buf)| == |old(disk)|
      ensures disk == ApplyAll(old(disk), ws) && buf == ApplyAll(old(buf), ws)
    {
      hide Copies, Installs, ApplyAll, Header, InRange;
      ghost var ts := block[..n];
      ghost var head := disk[start];
      ws := CommitWrites(start, ts, vals, head);
      if n > 0 {
        ghost var w1 := Write(start, Header(ts, head));
        ghost var w2 := Write(start, Header([], w1.data));
        Regroup(writes, Copies(start, vals), [w1], Installs(ts, vals), [w2]);
        AfterCopies(buf, start, vals);
        WriteLog(vals);
        WriteHead();
        AfterInstalls(buf, start, ts, vals);
        InstallTrans(false, vals);
        n := 0;
        assert block[..0] == [];
        NothingHome(|disk|, start);
        WriteHead();
        Staged(old(disk), Copies(start, vals), w1, Installs(ts, vals), w2);
        Staged(old(buf), Copies(start, vals), w1, Installs(ts, vals), w2);
      } else {
        NoWrites(disk);
        NoWrites(buf);
      }
    }

    /** Boot-time recovery: replay the committed transaction, if any, and clear the log. */
    method RecoverFromLog()
      requires block.Length == LOGBLOCKS && buf == disk && WellFormed(disk, start)
      modifies this`buf, this`disk, this`writes, this`n, this`pins, block
      ensures Valid() && n == 0 && buf == disk && pins == old(pins)
      ensures writes == old(writes) + RecoveryWrites(old(disk), start)
      ensures disk == ApplyAll(old(disk), RecoveryWrites(old(disk), start))
    {
      hide Installs, ApplyAll, InRange, Header;
      ReadHead();
      ghost var ts := block[..n];
      ghost var vals := Slots(disk, start, n);
      InstallTrans(true, vals);
      AfterInstalls(old(disk), start, ts, vals);
      n := 0;
      ApplyOne(old(disk), Installs(ts, vals), Write(start, Header([], old(disk)[start])));
      WriteHead();
    }
  }
}
