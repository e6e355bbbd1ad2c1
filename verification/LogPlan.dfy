/**
 The block writes of a commit and of a recovery, in order, and what a crash after any prefix of
 them leaves behind.
 */
module LogPlan {
  import opened LogFormat

  /** The block writes of write_log, in order. */
  function Copies(start: nat, vals: seq<Block>): (ws: seq<Write>)
    ensures |ws| == |vals| && forall i :: 0 <= i < |ws| ==> ws[i] == Write(start + 1 + i, vals[i])
  {
    seq(|vals|, i requires 0 <= i < |vals| => Write(start + 1 + i, vals[i]))
  }

  /** The block writes of install_trans, in order. */
  function Installs(ts: seq<int>, vals: seq<Block>): (ws: seq<Write>)
    requires |ts| == |vals| && forall i :: 0 <= i < |ts| ==> 0 <= ts[i]
    ensures |ws| == |ts| && forall i :: 0 <= i < |ws| ==> ws[i] == Write(ts[i], vals[i])
  {
    seq(|ts|, i requires 0 <= i < |ts| => Write(ts[i], vals[i]))
  }

  /** The block writes of commit for logged blocks `ts` with contents `vals`, over header block `head`. */
  function CommitWrites(start: nat, ts: seq<int>, vals: seq<Block>, head: Block): (ws: seq<Write>)
    requires |ts| == |vals| <= LOGBLOCKS && forall i :: 0 <= i < |ts| ==> 0 <= ts[i]
  {
    if ts == [] then [] else
      Copies(start, vals) + [Write(start, Header(ts, head))]
      + Installs(ts, vals) + [Write(start, Header([], Header(ts, head)))]
  }

  ghost function Slots(d: Disk, start: nat, n: nat): (vals: seq<Block>)
    requires start + n < |d|
  {
    d[start + 1..start + 1 + n]
  }

  /** The block writes of recover_from_log on disk `d`. */
  ghost function RecoveryWrites(d: Disk, start: nat): (ws: seq<Write>)
    requires WellFormed(d, start)
    ensures InRange(d, ws)
  {
    var ts := Names(d[start]);
    Installs(ts, Slots(d, start, |ts|)) + [Write(start, Header([], d[start]))]
  }

  /** Copying into the log slots touches nothing else. */
  lemma AfterCopies(d: Disk, start: nat, vals: seq<Block>)
    requires start + |vals| < |d|
    ensures InRange(d, Copies(start, vals))
    ensures ApplyAll(d, Copies(start, vals))[start] == d[start]
    ensures forall i :: 0 <= i < |vals| ==> ApplyAll(d, Copies(start, vals))[start + 1 + i] == vals[i]
  {
    var ws := Copies(start, vals);
    Untouched(d, ws, start);
    forall i | 0 <= i < |vals| ensures ApplyAll(d, ws)[start + 1 + i] == vals[i] {
      Written(d, ws, i);
    }
  }

  lemma AfterInstalls(d: Disk, start: nat, ts: seq<int>, vals: seq<Block>)
    requires start + LOGBLOCKS < |d| && AllHome(|d|, start, ts) && |ts| == |vals|
    ensures InRange(d, Installs(ts, vals))
    ensures ApplyAll(d, Installs(ts, vals))[start] == d[start]
  {
    var ws := Installs(ts, vals);
    assert forall i :: 0 <= i < |ws| ==> IsHome(|d|, start, ts[i]);
    Untouched(d, ws, start);
  }

  /** Installing in order: the next slot is still as it was. */
  lemma InstallSlot(d: Disk, start: nat, ts: seq<int>, vals: seq<Block>, k: nat)
    requires start + LOGBLOCKS < |d| && AllHome(|d|, start, ts) && |ts| == |vals| <= LOGBLOCKS && k < |ts|
    ensures InRange(d, Installs(ts, vals)[..k])
    ensures ApplyAll(d, Installs(ts, vals)[..k])[start + 1 + k] == d[start + 1 + k]
  {
    hide Installs, ApplyAll;
    InstallsAway(d, start, ts, vals, k);
    PrefixUntouched(d, Installs(ts, vals), k, start + 1 + k);
  }

  lemma PrefixUntouched(d: Disk, ws: seq<Write>, k: nat, b: int)
    requires InRange(d, ws) && k <= |ws| && 0 <= b < |d| && forall i :: 0 <= i < k ==> ws[i].at != b
    ensures InRange(d, ws[..k]) && ApplyAll(d, ws[..k])[b] == d[b]
  {
    Untouched(d, ws[..k], b);
  }

  /** The next write is the next target's. */
  lemma InstallNext(d: Disk, start: nat, ts: seq<int>, vals: seq<Block>, k: nat)
    requires AllHome(|d|, start, ts) && |ts| == |vals| <= LOGBLOCKS && k < |ts|
    ensures Installs(ts, vals)[k] == Write(ts[k], vals[k]) && ts[k] < |d|
    ensures InRange(d, Installs(ts, vals)[..k]) && InRange(d, Installs(ts, vals)[..k + 1])
    ensures ApplyAll(d, Installs(ts, vals)[..k + 1]) == Apply(ApplyAll(d, Installs(ts, vals)[..k]), Write(ts[k], vals[k]))
  {
    InstallsAway(d, start, ts, vals, k);
    ApplyNext(d, Installs(ts, vals), k);
    hide ApplyAll, InRange;
  }

  lemma InstallsAway(d: Disk, start: nat, ts: seq<int>, vals: seq<Block>, k: nat)
    requires AllHome(|d|, start, ts) && |ts| == |vals| <= LOGBLOCKS && k < |ts|
    ensures InRange(d, Installs(ts, vals)) && Installs(ts, vals)[k] == Write(ts[k], vals[k])
    ensures InRange(d, Installs(ts, vals)[..k]) && InRange(d, Installs(ts, vals)[..k + 1])
    ensures forall i :: 0 <= i < k ==> Installs(ts, vals)[i].at != start + 1 + k
  {
    var ws := Installs(ts, vals);
    hide Installs;
    forall i | 0 <= i < |ws| ensures ws[i].at < |d| && !(start <= ws[i].at <= start + LOGBLOCKS) {
      assert IsHome(|d|, start, ts[i]);
    }
  }

  lemma InstallsHome(d: Disk, start: nat, ts: seq<int>, vals: seq<Block>)
    requires AllHome(|d|, start, ts) && |ts| == |vals|
    ensures InRange(d, Installs(ts, vals)) && InRange(d, Installs(ts, vals)[..0])
    ensures ApplyAll(d, Installs(ts, vals)[..0]) == d
    ensures Installs(ts, vals)[..|ts|] == Installs(ts, vals)
  {
    var ws := Installs(ts, vals);
    assert forall i :: 0 <= i < |ws| ==> IsHome(|d|, start, ts[i]);
  }

  lemma NoWrites(d: Disk)
    ensures InRange(d, []) && ApplyAll(d, []) == d
  {
  }

  lemma NothingHome(size: nat, start: nat)
    ensures AllHome(size, start, [])
  {
  }

  lemma Staged(d: Disk, a: seq<Write>, w1: Write, b: seq<Write>, w2: Write)
    requires InRange(d, a) && InRange(d, b) && w1.at < |d| && w2.at < |d|
    ensures InRange(d, a + [w1] + b + [w2])
    ensures ApplyAll(d, a + [w1] + b + [w2]) == Apply(ApplyAll(Apply(ApplyAll(d, a), w1), b), w2)
  {
    ApplyOne(d, a, w1);
    ApplyAllAppend(d, a + [w1], b);
    ApplyOne(d, a + [w1] + b, w2);
  }

  lemma Regroup(w: seq<Write>, a: seq<Write>, b: seq<Write>, c: seq<Write>, d: seq<Write>)
    ensures w + a + b + c + d == w + (a + b + c + d)
  {
  }

  /** A disk and memory from which a commit of `ts` may start: the log is empty and memory differs only on `ts`. */
  ghost predicate Ready(d: Disk, start: nat, ts: seq<int>, view: Disk)
  {
    && WellFormed(d, start) && Names(d[start]) == []
    && LegalTargets(|d|, start, ts)
    && |view| == |d|
    && forall b :: IsHome(|d|, start, b) && b !in ts ==> d[b] == view[b]
  }

  ghost function Contents(view: Disk, ts: seq<int>): (vals: seq<Block>)
    requires forall i :: 0 <= i < |ts| ==> 0 <= ts[i] < |view|
    ensures |vals| == |ts| && forall i :: 0 <= i < |vals| ==> vals[i] == view[ts[i]]
  {
    seq(|ts|, i requires 0 <= i < |ts| => view[ts[i]])
  }

  /** Copying to the log leaves header and home blocks alone. */
  lemma CopyPrefix(d: Disk, start: nat, vals: seq<Block>, k: nat, b: int)
    requires WellFormed(d, start) && Names(d[start]) == [] && |vals| <= LOGBLOCKS && k <= |vals|
    requires IsHome(|d|, start, b)
    ensures InRange(d, Copies(start, vals)[..k])
    ensures WellFormed(ApplyAll(d, Copies(start, vals)[..k]), start)
    ensures var d' := ApplyAll(d, Copies(start, vals)[..k]);
      d'[start] == d[start] && d'[b] == d[b] && Owed(d', start, b) == d[b]
  {
    var ws := Copies(start, vals)[..k];
    Untouched(d, ws, start);
    Untouched(d, ws, b);
  }

  /** Installing writes only the named home blocks. */
  lemma InstallFrame(d: Disk, start: nat, ts: seq<int>, vals: seq<Block>, k: nat, c: int)
    requires AllHome(|d|, start, ts) && |vals| == |ts| && k <= |ts| && 0 <= c < |d|
    requires start <= c <= start + LOGBLOCKS || c !in ts
    ensures InRange(d, Installs(ts, vals)[..k])
    ensures ApplyAll(d, Installs(ts, vals)[..k])[c] == d[c]
  {
    var ws := Installs(ts, vals)[..k];
    assert forall i :: 0 <= i < |ws| ==> IsHome(|d|, start, ws[i].at) && ws[i].at != c;
    Untouched(d, ws, c);
  }

  /** Installing any prefix of the committed blocks changes nothing that recovery owes. */
  lemma InstallPrefix(d: Disk, start: nat, ts: seq<int>, vals: seq<Block>, k: nat, b: int)
    requires WellFormed(d, start) && Names(d[start]) == ts && |vals| == |ts| && k <= |ts|
    requires IsHome(|d|, start, b)
    ensures InRange(d, Installs(ts, vals)[..k])
    ensures var d' := ApplyAll(d, Installs(ts, vals)[..k]);
      d'[start] == d[start] && WellFormed(d', start) && Owed(d', start, b) == Owed(d, start, b)
  {
    hide Names, Installs;
    InstallFrame(d, start, ts, vals, k, start);
    if b in ts {
      InstallFrame(d, start, ts, vals, k, start + 1 + IndexOf(ts, b));
    } else {
      InstallFrame(d, start, ts, vals, k, b);
    }
  }

  /** Once every block is installed the header may be cleared. */
  lemma ClearInstalled(d: Disk, start: nat, ts: seq<int>, vals: seq<Block>, b: int)
    requires WellFormed(d, start) && Names(d[start]) == ts && |vals| == |ts|
    requires forall i :: 0 <= i < |ts| ==> vals[i] == d[start + 1 + i]
    requires IsHome(|d|, start, b)
    ensures InRange(d, Installs(ts, vals))
    ensures var d' := Apply(ApplyAll(d, Installs(ts, vals)), Write(start, Header([], d[start])));
      WellFormed(d', start) && Names(d'[start]) == [] && d'[b] == Owed(d, start, b)
  {
    var ws := Installs(ts, vals);
    assert forall i :: 0 <= i < |ws| ==> IsHome(|d|, start, ws[i].at);
    if b in ts {
      var i :| 0 <= i < |ts| && ts[i] == b;
      Written(d, ws, i);
      OwedTarget(d, start, i);
    } else {
      Untouched(d, ws, b);
    }
  }

  lemma EmptyLogOwes(d: Disk, start: nat, b: int)
    requires WellFormed(d, start) && Names(d[start]) == [] && IsHome(|d|, start, b)
    ensures Owed(d, start, b) == d[b]
  {
  }

  /** Writing the header makes the log slots count: this is the commit. */
  lemma HeaderCommits(d: Disk, start: nat, ts: seq<int>, view: Disk, b: int)
    requires WellFormed(d, start) && |view| == |d| && LegalTargets(|d|, start, ts) && IsHome(|d|, start, b)
    requires forall i :: 0 <= i < |ts| ==> d[start + 1 + i] == view[ts[i]]
    requires b !in ts ==> d[b] == view[b]
    ensures var d' := d[start := Header(ts, d[start])];
      WellFormed(d', start) && Names(d'[start]) == ts && Owed(d', start, b) == view[b]
  {
    var d' := d[start := Header(ts, d[start])];
    if b in ts {
      var i :| 0 <= i < |ts| && ts[i] == b;
      OwedTarget(d', start, i);
    }
  }

  /** The disk once the header of the transaction is written. */
  lemma Committed(d: Disk, start: nat, ts: seq<int>, view: Disk, b: int)
    requires Ready(d, start, ts, view) && IsHome(|d|, start, b)
    ensures InRange(d, Copies(start, Contents(view, ts)))
    ensures var d' := Apply(ApplyAll(d, Copies(start, Contents(view, ts))), Write(start, Header(ts, d[start])));
      && WellFormed(d', start) && Names(d'[start]) == ts && Owed(d', start, b) == view[b]
      && d'[start] == Header(ts, d[start])
      && forall i :: 0 <= i < |ts| ==> view[ts[i]] == d'[start + 1 + i]
  {
    hide Names, Header, Owed;
    var vals := Contents(view, ts);
    AfterCopies(d, start, vals);
    var d1 := ApplyAll(d, Copies(start, vals));
    assert Copies(start, vals)[..|vals|] == Copies(start, vals);
    CopyPrefix(d, start, vals, |vals|, b);
    forall i | 0 <= i < |ts| ensures d1[start + 1 + i] == view[ts[i]] {
      assert vals[i] == view[ts[i]];
    }
    HeaderCommits(d1, start, ts, view, b);
  }

  /** The first k of a commit's writes, by stage. */
  lemma PlanPrefix(start: nat, ts: seq<int>, vals: seq<Block>, head: Block, k: nat)
    requires |ts| == |vals| <= LOGBLOCKS && ts != [] && forall i :: 0 <= i < |ts| ==> 0 <= ts[i]
    ensures var ws := CommitWrites(start, ts, vals, head);
      && |ws| == 2 * |ts| + 2
      && (k <= |ts| ==> ws[..k] == Copies(start, vals)[..k])
      && (|ts| < k <= 2 * |ts| + 1 ==>
            ws[..k] == Copies(start, vals) + [Write(start, Header(ts, head))] + Installs(ts, vals)[..k - |ts| - 1])
  {
    hide Header, Copies, Installs;
  }

  lemma CrashWhileInstalling(d: Disk, start: nat, ts: seq<int>, view: Disk, j: nat, b: int)
    requires Ready(d, start, ts, view) && IsHome(|d|, start, b) && j <= |ts|
    ensures var ws := Copies(start, Contents(view, ts)) + [Write(start, Header(ts, d[start]))]
                      + Installs(ts, Contents(view, ts))[..j];
      && InRange(d, ws) && WellFormed(ApplyAll(d, ws), start) && Owed(ApplyAll(d, ws), start, b) == view[b]
  {
    hide Names, Header, Owed, Copies, Installs;
    var vals := Contents(view, ts);
    var a, w1 := Copies(start, vals), Write(start, Header(ts, d[start]));
    Committed(d, start, ts, view, b);
    ApplyOne(d, a, w1);
    InstallPrefix(ApplyAll(d, a + [w1]), start, ts, vals, j, b);
    ApplyAllAppend(d, a + [w1], Installs(ts, vals)[..j]);
  }

  lemma CommitCompletes(d: Disk, start: nat, ts: seq<int>, view: Disk, b: int)
    requires Ready(d, start, ts, view) && IsHome(|d|, start, b) && ts != []
    ensures var ws := CommitWrites(start, ts, Contents(view, ts), d[start]);
      && InRange(d, ws) && WellFormed(ApplyAll(d, ws), start)
      && Names(ApplyAll(d, ws)[start]) == [] && ApplyAll(d, ws)[b] == view[b]
  {
    hide Names, Header, Owed, Copies, Installs;
    var vals := Contents(view, ts);
    var w1 := Write(start, Header(ts, d[start]));
    Committed(d, start, ts, view, b);
    var d1 := Apply(ApplyAll(d, Copies(start, vals)), w1);
    forall i | 0 <= i < |ts| ensures vals[i] == d1[start + 1 + i] {
      assert view[ts[i]] == d1[start + 1 + i];
    }
    ClearInstalled(d1, start, ts, vals, b);
    Staged(d, Copies(start, vals), w1, Installs(ts, vals), Write(start, Header([], w1.data)));
  }

  lemma ReadyFacts(d: Disk, start: nat, ts: seq<int>, view: Disk)
    requires Ready(d, start, ts, view)
    ensures WellFormed(d, start) && Names(d[start]) == [] && |ts| <= LOGBLOCKS && |view| == |d|
    ensures forall i :: 0 <= i < |ts| ==> 0 <= ts[i] < |view|
  {
  }

  /**
   Crash between any two block writes of a commit: recovery owes the old contents of every block
   until the header is written, and the new contents of every block from then on.
   */
  lemma CrashDuringCommit(d: Disk, start: nat, ts: seq<int>, view: Disk, ws: seq<Write>, k: nat, b: int)
    requires Ready(d, start, ts, view) && IsHome(|d|, start, b) && ts != []
    requires ws == CommitWrites(start, ts, Contents(view, ts), d[start]) && k <= |ws|
    ensures |ws| == 2 * |ts| + 2 && InRange(d, ws)
    ensures WellFormed(ApplyAll(d, ws[..k]), start)
    ensures Owed(ApplyAll(d, ws[..k]), start, b) == if k <= |ts| then d[b] else view[b]
    ensures k == |ws| ==> Names(ApplyAll(d, ws)[start]) == [] && ApplyAll(d, ws)[b] == view[b]
  {
    hide Names, Header, Owed, Copies, Installs, CommitWrites, Ready, LegalTargets, Contents, ApplyAll, InRange, WellFormed;
    ReadyFacts(d, start, ts, view);
    var vals := Contents(view, ts);
    PlanPrefix(start, ts, vals, d[start], k);
    CommitCompletes(d, start, ts, view, b);
    if k <= |ts| {
      CopyPrefix(d, start, vals, k, b);
    } else if k <= 2 * |ts| + 1 {
      CrashWhileInstalling(d, start, ts, view, k - |ts| - 1, b);
    } else {
      assert ws[..k] == ws;
      EmptyLogOwes(ApplyAll(d, ws), start, b);
    }
  }

  /** One recovery, cut after k block writes, or completed. */
  lemma CrashDuringRecovery(d: Disk, start: nat, k: nat, b: int)
    requires WellFormed(d, start) && k <= |RecoveryWrites(d, start)| && IsHome(|d|, start, b)
    ensures var d' := ApplyAll(d, RecoveryWrites(d, start)[..k]);
      && WellFormed(d', start) && Owed(d', start, b) == Owed(d, start, b)
      && (k == |RecoveryWrites(d, start)| ==> Names(d'[start]) == [] && d'[b] == Owed(d, start, b))
  {
    var ts := Names(d[start]);
    var vals := Slots(d, start, |ts|);
    var ws := RecoveryWrites(d, start);
    if k <= |ts| {
      assert ws[..k] == Installs(ts, vals)[..k];
      InstallPrefix(d, start, ts, vals, k, b);
    } else {
      assert ws[..k] == Installs(ts, vals) + [Write(start, Header([], d[start]))];
      ClearInstalled(d, start, ts, vals, b);
      ApplyOne(d, Installs(ts, vals), Write(start, Header([], d[start])));
    }
  }

  /** Disk `d'` results from `d` by recoveries cut short, the i-th after cuts[i] block writes. */
  ghost predicate CutShort(d: Disk, start: nat, cuts: seq<nat>, d': Disk)
    decreases |cuts|
  {
    && WellFormed(d, start)
    && if cuts == [] then d' == d else
       && cuts[0] <= |RecoveryWrites(d, start)|
       && CutShort(ApplyAll(d, RecoveryWrites(d, start)[..cuts[0]]), start, cuts[1..], d')
  }

  /**
   Recovery may itself crash, at any block write and any number of times: the recovery that finally
   completes leaves in every home block what the first crashed disk owed, and an empty log.
   */
  lemma {:induction false} RecoverySurvivesCrashes(d: Disk, start: nat, cuts: seq<nat>, d': Disk, b: int)
    requires CutShort(d, start, cuts, d') && IsHome(|d|, start, b)
    ensures WellFormed(d', start) && |d'| == |d|
    ensures ApplyAll(d', RecoveryWrites(d', start))[b] == Owed(d, start, b)
    ensures Names(ApplyAll(d', RecoveryWrites(d', start))[start]) == []
    decreases |cuts|
  {
    if cuts == [] {
      var ws := RecoveryWrites(d, start);
      assert ws[..|ws|] == ws;
      CrashDuringRecovery(d, start, |ws|, b);
    } else {
      CrashDuringRecovery(d, start, cuts[0], b);
      RecoverySurvivesCrashes(ApplyAll(d, RecoveryWrites(d, start)[..cuts[0]]), start, cuts[1..], d', b);
    }
  }
}
