/**
 virtio_disk.c: the driver's descriptor table and rings, run against a device that may complete
 the requests it has taken in any order.
 */
module Virtio {
  import opened Common

  const NUM: nat := 8
  const WRAP: nat := 0x1_0000

  /** What a descriptor points at. */
  datatype Target = Nothing | Command(i: nat) | Data(buf: nat) | StatusByte(i: nat)

  datatype Desc = Desc(target: Target, next: nat, hasNext: bool, deviceWrites: bool)

  const CLEARED: Desc := Desc(Nothing, 0, false, false)
  const NO_BUF: int := -1

  /** A request in flight: its three descriptors and what it asks for. */
  datatype Chain = Chain(d1: nat, d2: nat, buf: nat, write: bool, sector: nat)

  datatype Phase =
    | Queued     // in the avail ring, not yet taken by the device
    | Taken      // being processed by the device
    | Completed  // in the used ring, not yet seen by the driver
    | Seen       // the interrupt handler has released the buffer

  datatype Info = Info(buf: int, status: int)

  datatype Op = Op(write: bool, sector: nat)

  /** The ring slot of a running 16-bit index. */
  function Slot(idx: nat): (s: nat)
    ensures s < NUM
  {
    idx % NUM
  }

  function Index(total: nat): (idx: nat)
    ensures idx < WRAP
  {
    total % WRAP
  }

  /** Sixteen-bit indices may wrap: the ring size divides 2^16. */
  lemma IndexWraps(total: nat)
    ensures Slot(Index(total)) == Slot(total)
    ensures Index(Index(total) + 1) == Index(total + 1)
  {
    var q := total / WRAP;
    assert total == (q * (WRAP / NUM)) * NUM + total % WRAP;
  }

  lemma SlotsDistinct(i: nat, j: nat)
    requires i < j < i + NUM
    ensures Slot(i) != Slot(j)
  {
  }

  lemma IndexDistinct(i: nat, j: nat)
    requires i < j < i + WRAP
    ensures Index(i) != Index(j)
  {
  }

  function CountFree(free: seq<bool>): (n: nat)
  {
    if free == [] then 0 else (if free[0] then 1 else 0) + CountFree(free[1..])
  }

  lemma {:induction false} CountFreeUpdate(free: seq<bool>, i: nat, b: bool)
    requires i < |free|
    ensures CountFree(free[i := b]) == CountFree(free) - (if free[i] then 1 else 0) + (if b then 1 else 0)
    decreases |free|
  {
    if i == 0 {
      assert free[i := b][1..] == free[1..];
    } else {
      CountFreeUpdate(free[1..], i - 1, b);
      assert free[i := b][1..] == free[1..][i - 1 := b];
    }
  }

  lemma {:induction false} NoneFree(free: seq<bool>)
    requires forall i :: 0 <= i < |free| ==> !free[i]
    ensures CountFree(free) == 0
    decreases |free|
  {
    if free != [] {
      NoneFree(free[1..]);
    }
  }

  lemma {:induction false} AllFree(free: seq<bool>)
    requires forall i :: 0 <= i < |free| ==> free[i]
    ensures CountFree(free) == |free|
    decreases |free|
  {
    if free != [] {
      AllFree(free[1..]);
    }
  }

  /** Entries starting at running index `from` of a ring spell out `q`. */
  ghost predicate Spells(ring: seq<nat>, from: nat, q: seq<nat>)
  {
    |ring| == NUM && forall i :: 0 <= i < |q| ==> ring[Slot(from + i)] == q[i]
  }

  /** The entries between two 16-bit indices of a ring are exactly q. */
  ghost predicate Pending(ring: seq<nat>, from: nat, q: seq<nat>, tail: nat, head: nat)
  {
    Spells(ring, from, q) && tail == Index(from) && head == Index(from + |q|)
  }

  /** Appending to a ring that is not full overwrites no pending entry. */
  lemma SpellsPush(ring: seq<nat>, from: nat, q: seq<nat>, x: nat)
    requires Spells(ring, from, q) && |q| < NUM
    ensures Spells(ring[Slot(from + |q|) := x], from, q + [x])
  {
    var ring' := ring[Slot(from + |q|) := x];
    forall i | 0 <= i < |q + [x]| ensures ring'[Slot(from + i)] == (q + [x])[i] {
      if i < |q| {
        SlotsDistinct(from + i, from + |q|);
      }
    }
  }

  lemma SpellsPop(ring: seq<nat>, from: nat, q: seq<nat>)
    requires Spells(ring, from, q) && q != []
    ensures Spells(ring, from + 1, q[1..]) && ring[Slot(from)] == q[0]
  {
    assert ring[Slot(from + 0)] == q[0];
    forall i | 0 <= i < |q[1..]| ensures ring[Slot(from + 1 + i)] == q[1..][i] {
      assert ring[Slot(from + (i + 1))] == q[i + 1];
    }
  }

  lemma {:induction false} DistinctFits(q: seq<nat>, s: set<nat>)
    requires Distinct(q) && forall x :: x in q ==> x in s
    ensures |q| <= |s|
    decreases |q|
  {
    if q != [] {
      assert q[0] in s && q[0] !in q[1..];
      DistinctFits(q[1..], s - {q[0]});
    }
  }

  /** Chain h occupies three descriptors linked as section 5.2 of VIRTIO 1.1 wants a block request. */
  ghost predicate Laid(h: nat, c: Chain, owner: seq<nat>, desc: seq<Desc>)
  {
    && |owner| == |desc| == NUM
    && h < NUM && c.d1 < NUM && c.d2 < NUM && h != c.d1 && h != c.d2 && c.d1 != c.d2
    && owner[h] == h && owner[c.d1] == h && owner[c.d2] == h
    && desc[h] == Desc(Command(h), c.d1, true, false)
    && desc[c.d1] == Desc(Data(c.buf), c.d2, true, !c.write)
    && desc[c.d2] == Desc(StatusByte(h), 0, false, true)
  }

  predicate PartOf(i: nat, h: nat, c: Chain)
  {
    i == h || i == c.d1 || i == c.d2
  }

  /** A free descriptor belongs to no chain and is zeroed. */
  ghost predicate Flags(owner: seq<nat>, free: seq<bool>, desc: seq<Desc>)
  {
    && |owner| == |free| == |desc| == NUM
    && (forall i :: 0 <= i < NUM ==> (free[i] <==> owner[i] == NUM))
    && (forall i :: 0 <= i < NUM && free[i] ==> desc[i] == CLEARED)
  }

  /** Every descriptor in use is one of the three of its owner. */
  ghost predicate Owners(chains: map<nat, Chain>, owner: seq<nat>)
  {
    |owner| == NUM
    && forall i :: 0 <= i < NUM && owner[i] != NUM ==> owner[i] in chains && PartOf(i, owner[i], chains[owner[i]])
  }

  ghost predicate LaidOut(chains: map<nat, Chain>, owner: seq<nat>, desc: seq<Desc>)
  {
    |owner| == |desc| == NUM && forall h :: h in chains ==> Laid(h, chains[h], owner, desc)
  }

  /** The descriptors split into free ones and disjoint chains of three. */
  ghost predicate Split(chains: map<nat, Chain>, owner: seq<nat>, free: seq<bool>, desc: seq<Desc>)
  {
    && Flags(owner, free, desc)
    && Owners(chains, owner)
    && LaidOut(chains, owner, desc)
    && CountFree(free) + 3 * |chains| == NUM
  }

  /** Both queues list exactly the chains in their phase. */
  ghost predicate Phased(chains: map<nat, Chain>, phase: map<nat, Phase>, queue: seq<nat>, done: seq<nat>)
  {
    && phase.Keys == chains.Keys
    && Distinct(queue) && Distinct(done)
    && (forall h :: h in queue <==> h in phase && phase[h] == Queued)
    && (forall h :: h in done <==> h in phase && phase[h] == Completed)
  }

  /** b is the buffer of a request the device has completed. */
  ghost predicate Released(chains: map<nat, Chain>, phase: map<nat, Phase>, b: nat)
  {
    exists h :: h in chains && h in phase && phase[h] == Completed && chains[h].buf == b
  }

  /** Each chain's bookkeeping names its own buffer, which is busy until the interrupt handler has seen it. */
  ghost predicate Booked(chains: map<nat, Chain>, phase: map<nat, Phase>, info: seq<Info>, ops: seq<Op>, busy: set<nat>)
  {
    && |info| == |ops| == NUM
    && (forall h :: h in chains ==> h < NUM && info[h].buf == chains[h].buf && ops[h] == Op(chains[h].write, chains[h].sector))
    && (forall h :: h in chains && h in phase ==> (chains[h].buf in busy <==> phase[h] != Seen))
    && (forall h :: h in chains && h in phase && phase[h] == Seen ==> info[h].status == 0)
    && (forall h, g :: h in chains && g in chains && h != g ==> chains[h].buf != chains[g].buf)
  }

  function Owned(owner: seq<nat>, h: nat, c: Chain, who: nat): seq<nat>
    requires |owner| == NUM && h < NUM && c.d1 < NUM && c.d2 < NUM
  {
    owner[h := who][c.d1 := who][c.d2 := who]
  }

  function Marked(free: seq<bool>, h: nat, c: Chain, b: bool): seq<bool>
    requires |free| == NUM && h < NUM && c.d1 < NUM && c.d2 < NUM
  {
    free[h := b][c.d1 := b][c.d2 := b]
  }

  /** The free flags once the descriptors in idx are taken. */
  function Took(was: seq<bool>, idx: seq<nat>): (free: seq<bool>)
    ensures |free| == |was|
  {
    seq(|was|, k requires 0 <= k < |was| => was[k] && k !in idx)
  }

  function Linked(desc: seq<Desc>, h: nat, c: Chain): seq<Desc>
    requires |desc| == NUM && h < NUM && c.d1 < NUM && c.d2 < NUM
  {
    desc[h := Desc(Command(h), c.d1, true, false)]
        [c.d1 := Desc(Data(c.buf), c.d2, true, !c.write)]
        [c.d2 := Desc(StatusByte(h), 0, false, true)]
  }

  function Cleared(desc: seq<Desc>, h: nat, c: Chain): seq<Desc>
    requires |desc| == NUM && h < NUM && c.d1 < NUM && c.d2 < NUM
  {
    desc[h := CLEARED][c.d1 := CLEARED][c.d2 := CLEARED]
  }

  /** The 512-byte sector of a 1024-byte block, in 32-bit arithmetic. */
  function Sector(blockno: nat): (s: nat)
    ensures blockno < 0x8000_0000 ==> s == 2 * blockno
  {
    blockno * 2 % 0x1_0000_0000
  }

  lemma TakeStep(chains: map<nat, Chain>, phase: map<nat, Phase>, queue: seq<nat>, done: seq<nat>,
                 info: seq<Info>, ops: seq<Op>, busy: set<nat>)
    requires Phased(chains, phase, queue, done) && Booked(chains, phase, info, ops, busy) && queue != []
    ensures queue[0] in chains && queue[0] in phase && phase[queue[0]] == Queued
    ensures Phased(chains, phase[queue[0] := Taken], queue[1..], done)
    ensures Booked(chains, phase[queue[0] := Taken], info, ops, busy)
  {
    hide Booked;
    TakePhased(chains, phase, queue, done);
    TakeBooked(chains, phase, queue[0], info, ops, busy);
  }

  lemma TakePhased(chains: map<nat, Chain>, phase: map<nat, Phase>, queue: seq<nat>, done: seq<nat>)
    requires Phased(chains, phase, queue, done) && queue != []
    ensures queue[0] in chains && queue[0] in phase && phase[queue[0]] == Queued
    ensures Phased(chains, phase[queue[0] := Taken], queue[1..], done)
  {
    var h0 := queue[0];
    assert queue == [h0] + queue[1..];
    forall h ensures h in queue[1..] <==> h in queue && h != h0 {
      if h in queue[1..] {
        var i :| 0 <= i < |queue| - 1 && queue[1..][i] == h;
        assert queue[i + 1] == h;
      }
    }
  }

  lemma TakeBooked(chains: map<nat, Chain>, phase: map<nat, Phase>, h: nat, info: seq<Info>, ops: seq<Op>, busy: set<nat>)
    requires Booked(chains, phase, info, ops, busy) && h in phase && phase[h] == Queued
    ensures Booked(chains, phase[h := Taken], info, ops, busy)
  {
  }

  lemma CompleteStep(chains: map<nat, Chain>, phase: map<nat, Phase>, queue: seq<nat>, done: seq<nat>,
                     info: seq<Info>, ops: seq<Op>, busy: set<nat>, h: nat, status: nat)
    requires Phased(chains, phase, queue, done) && Booked(chains, phase, info, ops, busy)
    requires h in phase && phase[h] == Taken
    ensures h < NUM && h in chains
    ensures Phased(chains, phase[h := Completed], queue, done + [h])
    ensures Booked(chains, phase[h := Completed], info[h := info[h].(status := status)], ops, busy)
  {
  }

  lemma SeenStep(chains: map<nat, Chain>, phase: map<nat, Phase>, queue: seq<nat>, done: seq<nat>,
                 info: seq<Info>, ops: seq<Op>, busy: set<nat>)
    requires Phased(chains, phase, queue, done) && Booked(chains, phase, info, ops, busy) && done != []
    ensures var h := done[0];
      && h in chains && h in phase && phase[h] == Completed && h < NUM
      && info[h].buf == chains[h].buf && chains[h].buf in busy
      && Phased(chains, phase[h := Seen], queue, done[1..])
      && (info[h].status == 0 ==> Booked(chains, phase[h := Seen], info, ops, busy - {chains[h].buf}))
  {
    assert done == [done[0]] + done[1..];
  }

  ghost predicate Three(h: nat, c: Chain)
  {
    h < NUM && c.d1 < NUM && c.d2 < NUM && h != c.d1 && h != c.d2 && c.d1 != c.d2
  }

  lemma CountMarked(free: seq<bool>, h: nat, c: Chain, b: bool)
    requires |free| == NUM && Three(h, c) && free[h] != b && free[c.d1] != b && free[c.d2] != b
    ensures CountFree(Marked(free, h, c, b)) == CountFree(free) + if b then 3 else -3
  {
    hide CountFree;
    CountFreeUpdate(free, h, b);
    CountFreeUpdate(free[h := b], c.d1, b);
    CountFreeUpdate(free[h := b][c.d1 := b], c.d2, b);
  }

  lemma SubmitFlags(owner: seq<nat>, free: seq<bool>, desc: seq<Desc>, h: nat, c: Chain)
    requires Flags(owner, free, desc) && Three(h, c)
    ensures Flags(Owned(owner, h, c, h), Marked(free, h, c, false), Linked(desc, h, c))
  {
  }

  lemma FinishFlags(owner: seq<nat>, free: seq<bool>, desc: seq<Desc>, h: nat, c: Chain)
    requires Flags(owner, free, desc) && Three(h, c)
    ensures Flags(Owned(owner, h, c, NUM), Marked(free, h, c, true), Cleared(desc, h, c))
  {
  }

  /** A chain none of whose descriptors are touched stays laid out. */
  lemma LaidElsewhere(g: nat, e: Chain, owner: seq<nat>, desc: seq<Desc>, owner': seq<nat>, desc': seq<Desc>)
    requires |owner| == |desc| == |owner'| == |desc'| == NUM
    requires Laid(g, e, owner, desc)
    requires forall i :: 0 <= i < NUM && owner[i] == g ==> owner'[i] == owner[i] && desc'[i] == desc[i]
    ensures Laid(g, e, owner', desc')
  {
  }

  lemma SubmitLaid(chains: map<nat, Chain>, owner: seq<nat>, desc: seq<Desc>, h: nat, c: Chain)
    requires LaidOut(chains, owner, desc) && Three(h, c)
    requires owner[h] == NUM && owner[c.d1] == NUM && owner[c.d2] == NUM
    ensures h !in chains
    ensures LaidOut(chains[h := c], Owned(owner, h, c, h), Linked(desc, h, c))
  {
    assert h in chains ==> Laid(h, chains[h], owner, desc);
    forall g | g in chains ensures Laid(g, chains[g], Owned(owner, h, c, h), Linked(desc, h, c)) {
      assert g < NUM by { assert Laid(g, chains[g], owner, desc); }
      LaidElsewhere(g, chains[g], owner, desc, Owned(owner, h, c, h), Linked(desc, h, c));
    }
    assert Laid(h, c, Owned(owner, h, c, h), Linked(desc, h, c));
  }

  lemma FinishLaid(chains: map<nat, Chain>, owner: seq<nat>, desc: seq<Desc>, h: nat)
    requires LaidOut(chains, owner, desc) && h in chains
    ensures Laid(h, chains[h], owner, desc) && Three(h, chains[h])
    ensures LaidOut(chains - {h}, Owned(owner, h, chains[h], NUM), Cleared(desc, h, chains[h]))
  {
    var c := chains[h];
    assert Laid(h, c, owner, desc);
    forall g | g in chains - {h} ensures Laid(g, chains[g], Owned(owner, h, c, NUM), Cleared(desc, h, c)) {
      assert g < NUM by { assert Laid(g, chains[g], owner, desc); }
      LaidElsewhere(g, chains[g], owner, desc, Owned(owner, h, c, NUM), Cleared(desc, h, c));
    }
  }

  lemma SubmitOwners(chains: map<nat, Chain>, owner: seq<nat>, h: nat, c: Chain)
    requires Owners(chains, owner) && Three(h, c) && h !in chains
    ensures Owners(chains[h := c], Owned(owner, h, c, h))
  {
  }

  lemma FinishOwners(chains: map<nat, Chain>, owner: seq<nat>, h: nat)
    requires Owners(chains, owner) && h in chains && Three(h, chains[h])
    ensures Owners(chains - {h}, Owned(owner, h, chains[h], NUM))
  {
  }

  /** Free descriptors belong to no chain. */
  lemma FreeUnowned(chains: map<nat, Chain>, owner: seq<nat>, free: seq<bool>, desc: seq<Desc>, h: nat, c: Chain)
    requires Flags(owner, free, desc) && Owners(chains, owner) && LaidOut(chains, owner, desc) && Three(h, c)
    requires free[h] && free[c.d1] && free[c.d2]
    ensures |free| == NUM && h !in chains && |owner| == NUM && owner[h] == NUM && owner[c.d1] == NUM && owner[c.d2] == NUM
  {
  }

  /** Laying out a new chain on three free descriptors leaves every other chain alone. */
  lemma SubmitSplits(chains: map<nat, Chain>, owner: seq<nat>, free: seq<bool>, desc: seq<Desc>, h: nat, c: Chain)
    requires Split(chains, owner, free, desc) && Three(h, c)
    requires free[h] && free[c.d1] && free[c.d2]
    ensures h !in chains && |owner| == NUM
    ensures Split(chains[h := c], Owned(owner, h, c, h), Marked(free, h, c, false), Linked(desc, h, c))
  {
    hide CountFree, Flags, Owners, LaidOut, Owned, Marked, Linked;
    FreeUnowned(chains, owner, free, desc, h, c);
    CountMarked(free, h, c, false);
    SubmitFlags(owner, free, desc, h, c);
    SubmitLaid(chains, owner, desc, h, c);
    SubmitOwners(chains, owner, h, c);
    assert chains[h := c].Keys == chains.Keys + {h};
  }

  /** Taking a chain apart frees exactly its three descriptors. */
  lemma FinishSplits(chains: map<nat, Chain>, owner: seq<nat>, free: seq<bool>, desc: seq<Desc>, h: nat)
    requires Split(chains, owner, free, desc) && h in chains
    ensures |owner| == |free| == |desc| == NUM
    ensures var c := chains[h];
      && Laid(h, c, owner, desc) && Three(h, c) && !free[h] && !free[c.d1] && !free[c.d2]
      && Split(chains - {h}, Owned(owner, h, c, NUM), Marked(free, h, c, true), Cleared(desc, h, c))
  {
    var c := chains[h];
    assert Laid(h, c, owner, desc) && !free[h] && !free[c.d1] && !free[c.d2];
    hide CountFree, Flags, Owners, LaidOut, Owned, Marked, Cleared;
    CountMarked(free, h, c, true);
    FinishFlags(owner, free, desc, h, c);
    FinishLaid(chains, owner, desc, h);
    FinishOwners(chains, owner, h);
    assert chains.Keys == (chains - {h}).Keys + {h};
  }

  lemma SubmitStep(chains: map<nat, Chain>, phase: map<nat, Phase>, queue: seq<nat>, done: seq<nat>,
                   info: seq<Info>, ops: seq<Op>, busy: set<nat>, h: nat, c: Chain)
    requires Phased(chains, phase, queue, done) && Booked(chains, phase, info, ops, busy)
    requires h !in chains && h < NUM && forall g :: g in chains ==> chains[g].buf != c.buf
    ensures Phased(chains[h := c], phase[h := Queued], queue + [h], done)
    ensures Booked(chains[h := c], phase[h := Queued], info[h := Info(c.buf, 0xff)],
                   ops[h := Op(c.write, c.sector)], busy + {c.buf})
  {
  }

  lemma FinishStep(chains: map<nat, Chain>, phase: map<nat, Phase>, queue: seq<nat>, done: seq<nat>,
                   info: seq<Info>, ops: seq<Op>, busy: set<nat>, h: nat)
    requires Phased(chains, phase, queue, done) && Booked(chains, phase, info, ops, busy)
    requires h in chains && chains[h].buf !in busy
    ensures h < NUM && h in phase && phase[h] == Seen
    ensures Phased(chains - {h}, phase - {h}, queue, done)
    ensures Booked(chains - {h}, phase - {h}, info[h := info[h].(buf := NO_BUF)], ops, busy)
  {
  }

  /** Three distinct free descriptors make a chain; taking them marks exactly those. */
  lemma ThreeTaken(free: seq<bool>, idx: seq<nat>, b: nat, write: bool, sector: nat)
    requires |free| == NUM && |idx| == 3 && Distinct(idx) && forall d :: d in idx ==> d < NUM && free[d]
    ensures Three(idx[0], Chain(idx[1], idx[2], b, write, sector))
    ensures free[idx[0]] && free[idx[1]] && free[idx[2]]
    ensures Took(free, idx) == Marked(free, idx[0], Chain(idx[1], idx[2], b, write, sector), false)
  {
    assert idx[0] in idx && idx[1] in idx && idx[2] in idx;
    assert idx == [idx[0], idx[1], idx[2]];
  }

  ghost function MarkedUpTo(free: seq<bool>, path: seq<nat>, k: nat): (r: seq<bool>)
    requires |free| == NUM && k <= |path| && forall i :: 0 <= i < |path| ==> path[i] < NUM
    ensures |r| == NUM
  {
    if k == 0 then free else MarkedUpTo(free, path, k - 1)[path[k - 1] := true]
  }

  ghost function ClearedUpTo(desc: seq<Desc>, path: seq<nat>, k: nat): (r: seq<Desc>)
    requires |desc| == NUM && k <= |path| && forall i :: 0 <= i < |path| ==> path[i] < NUM
    ensures |r| == NUM
  {
    if k == 0 then desc else ClearedUpTo(desc, path, k - 1)[path[k - 1] := CLEARED]
  }

  lemma UpToThree(free: seq<bool>, desc: seq<Desc>, h: nat, c: Chain)
    requires |free| == |desc| == NUM && Three(h, c)
    ensures MarkedUpTo(free, [h, c.d1, c.d2], 3) == Marked(free, h, c, true)
    ensures ClearedUpTo(desc, [h, c.d1, c.d2], 3) == Cleared(desc, h, c)
  {
    var path := [h, c.d1, c.d2];
    assert MarkedUpTo(free, path, 1) == free[h := true];
    assert ClearedUpTo(desc, path, 1) == desc[h := CLEARED];
  }

  lemma InitialState(owner: seq<nat>, free: seq<bool>, desc: seq<Desc>, info: seq<Info>, ops: seq<Op>,
                     avail: seq<nat>, used: seq<nat>)
    requires |owner| == |free| == |desc| == |info| == |ops| == |avail| == |used| == NUM
    requires forall i :: 0 <= i < NUM ==> owner[i] == NUM && free[i] && desc[i] == CLEARED
    ensures Split(map[], owner, free, desc) && Phased(map[], map[], [], [])
    ensures Booked(map[], map[], info, ops, {})
    ensures Pending(avail, 0, [], 0, 0) && Pending(used, 0, [], 0, 0)
  {
    hide CountFree;
    AllFree(free);
  }

  class Disk {
    const free: array<bool>
    const desc: array<Desc>
    const ops: array<Op>
    const info: array<Info>
    const avail: array<nat>
    const used: array<nat>
    var availIdx: nat    // written by the driver
    var usedSeen: nat    // disk.used_idx
    var usedIdx: nat     // written by the device
    var lastAvail: nat   // the device's own position in the avail ring
    var busy: set<nat>   // buffers b with b->disk == 1
    ghost var chains: map<nat, Chain>
    ghost var phase: map<nat, Phase>
    ghost var owner: seq<nat>
    ghost var queue: seq<nat>
    ghost var done: seq<nat>
    ghost var nTaken: nat
    ghost var nSeen: nat

    ghost predicate Rings()
      reads this, avail, used
    {
      && avail.Length == used.Length == NUM && avail != used
      && Pending(avail[..], nTaken, queue, lastAvail, availIdx)
      && Pending(used[..], nSeen, done, usedSeen, usedIdx)
    }

    ghost predicate Valid()
      reads this, free, desc, ops, info, avail, used
    {
      && free.Length == desc.Length == ops.Length == info.Length == NUM
      && Split(chains, owner, free[..], desc[..])
      && Phased(chains, phase, queue, done)
      && Booked(chains, phase, info[..], ops[..], busy)
      && Rings()
    }

    /** virtio_disk_init: every descriptor is free and both rings are empty. */
    constructor ()
      ensures Valid() && chains == map[] && busy == {} && fresh(free)
    {
      free := new bool[NUM](_ => true);
      desc := new Desc[NUM](_ => CLEARED);
      ops := new Op[NUM](_ => Op(false, 0));
      info := new Info[NUM](_ => Info(NO_BUF, 0));
      avail := new nat[NUM](_ => 0);
      used := new nat[NUM](_ => 0);
      availIdx, usedSeen, usedIdx, lastAvail := 0, 0, 0, 0;
      busy := {};
      chains, phase, queue, done, nTaken, nSeen := map[], map[], [], [], 0, 0;
      owner := seq(NUM, _ => NUM);
      new;
      hide Split, Phased, Booked, Pending, CountFree;
      InitialState(owner, free[..], desc[..], info[..], ops[..], avail[..], used[..]);
    }

    /** At most two requests are in flight, so neither ring is ever full. */
    lemma TwoInFlight()
      requires Valid()
      ensures |chains| <= 2 && |queue| <= 2 && |done| <= 2
    {
      forall h | h in queue ensures h in chains.Keys {
      }
      forall h | h in done ensures h in chains.Keys {
      }
      DistinctFits(queue, chains.Keys);
      DistinctFits(done, chains.Keys);
    }

    /** The device takes the next request: it is a live chain that nobody else works on. */
    method DeviceTake() returns (h: nat)
      requires Valid() && lastAvail != availIdx
      modifies this`lastAvail, this`phase, this`queue, this`nTaken
      ensures Valid()
      ensures old(queue) != [] && h == old(queue)[0] && h in chains && h in old(phase) && old(phase)[h] == Queued
      ensures phase == old(phase)[h := Taken]
    {
      hide Split, Phased, Booked, Spells, Slot, Index;
      IndexWraps(nTaken);
      assert queue != [];
      SpellsPop(avail[..], nTaken, queue);
      TakeStep(chains, phase, queue, done, info[..], ops[..], busy);
      h := avail[Slot(lastAvail)];
      lastAvail := Index(lastAvail + 1);
      phase := phase[h := Taken];
      queue := queue[1..];
      nTaken := nTaken + 1;
    }

    /** The device completes any request it has taken and reports how it went: 0 if well. */
    method DeviceComplete(h: nat, status: nat)
      requires Valid() && h in phase && phase[h] == Taken
      modifies this`usedIdx, this`phase, this`done, used, info
      ensures Valid() && phase == old(phase)[h := Completed] && done == old(done) + [h]
      ensures h < NUM && info[..] == old(info[..])[h := old(info[h]).(status := status)]
    {
      hide Split, Phased, Booked, Spells, Slot, Index, CountFree;
      TwoInFlight();
      ghost var ring, was := used[..], info[..];
      IndexWraps(nSeen + |done|);
      SpellsPush(ring, nSeen, done, h);
      CompleteStep(chains, phase, queue, done, was, ops[..], busy, h, status);
      info[h] := info[h].(status := status);
      assert info[..] == was[h := was[h].(status := status)];
      used[Slot(usedIdx)] := h;
      assert used[..] == ring[Slot(nSeen + |done|) := h];
      usedIdx := Index(usedIdx + 1);
      phase := phase[h := Completed];
      done := done + [h];
    }

    /**
     The interrupt handler: it panics exactly if the device reported a bad status for some completed
     request, having stopped at the first of them; otherwise every completed request releases its own
     buffer.
     */
    method Interrupt() returns (panicked: bool)
      requires Valid()
      modifies this`usedSeen, this`busy, this`phase, this`done, this`nSeen
      ensures Valid() && phase.Keys == old(phase).Keys
      ensures panicked <==> exists h :: h in old(phase) && old(phase)[h] == Completed && StatusOf(h) != 0
      ensures |done| <= |old(done)| && done == old(done)[|old(done)| - |done|..]
      ensures if panicked then done != [] && StatusOf(done[0]) != 0 else done == []
      ensures forall h :: h in phase ==>
        phase[h] == if old(phase)[h] == Completed && h !in done then Seen else old(phase)[h]
      ensures busy <= old(busy) && forall b :: b in old(busy) - busy ==> Released(chains, old(phase), b)
    {
      hide Split, Phased, Booked, Spells, Slot, Index;
      assert done == old(done)[0..];
      while usedSeen != usedIdx
        invariant Valid() && phase.Keys == old(phase).Keys
        invariant |done| <= |old(done)| && done == old(done)[|old(done)| - |done|..]
        invariant busy <= old(busy) && forall b :: b in old(busy) - busy ==> Released(chains, old(phase), b)
        invariant forall h :: h in phase ==>
          phase[h] == old(phase)[h] || (old(phase)[h] == Completed && phase[h] == Seen && StatusOf(h) == 0)
        decreases |done|
      {
        var h, bad := InterruptOne();
        if bad {
          InDone();
          return true;
        }
      }
      AllSeen();
      InDone();
      panicked := false;
    }

    /** The status byte of the request at descriptor h. */
    ghost function StatusOf(h: nat): int
      reads this, info
    {
      if h < info.Length then info[h].status else 0
    }

    lemma InDone()
      requires Valid()
      ensures forall h :: h in done <==> h in phase && phase[h] == Completed
    {
      hide Split, Booked, Rings;
    }

    /** Equal used indices mean that nothing is left to see. */
    lemma AllSeen()
      requires Valid() && usedSeen == usedIdx
      ensures done == [] && forall h :: h in phase ==> phase[h] != Completed
    {
      hide Split, Booked, Spells, Index, Slot, CountFree, Distinct;
      TwoInFlight();
      if done != [] {
        IndexDistinct(nSeen, nSeen + |done|);
      }
    }

    /** One round of the handler, on the request completed longest ago. */
    method InterruptOne() returns (h: nat, bad: bool)
      requires Valid() && usedSeen != usedIdx
      modifies this`usedSeen, this`busy, this`phase, this`done, this`nSeen
      ensures Valid() && old(done) != [] && h == old(done)[0] && h in chains
      ensures h in old(phase) && old(phase)[h] == Completed && (bad <==> StatusOf(h) != 0)
      ensures bad ==> done == old(done) && phase == old(phase) && busy == old(busy)
      ensures !bad ==> done == old(done)[1..] && phase == old(phase)[h := Seen] && busy == old(busy) - {chains[h].buf}
    {
      hide Split, Phased, Booked, Spells, Slot, Index;
      IndexWraps(nSeen);
      assert done != [];
      SpellsPop(used[..], nSeen, done);
      SeenStep(chains, phase, queue, done, info[..], ops[..], busy);
      h := used[Slot(usedSeen)];
      assert info[h] == info[..][h];
      bad := info[h].status != 0;
      if bad {
        return;
      }
      var b := info[h].buf;
      busy := busy - {b};
      usedSeen := Index(usedSeen + 1);
      phase := phase[h := Seen];
      done := done[1..];
      nSeen := nSeen + 1;
    }

    /** The lowest free descriptor, or -1 when none is free. */
    method AllocDesc() returns (i: int)
      requires free.Length == NUM
      modifies free
      ensures -1 <= i < NUM
      ensures i == -1 <==> forall k :: 0 <= k < NUM ==> !old(free[..])[k]
      ensures i == -1 ==> free[..] == old(free[..])
      ensures i >= 0 ==> old(free[..])[i] && free[..] == old(free[..])[i := false]
      ensures i >= 0 ==> forall k :: 0 <= k < i ==> !old(free[..])[k]
    {
      i := 0;
      while i < NUM
        invariant 0 <= i <= NUM
        invariant forall k :: 0 <= k < i ==> !free[k]
        invariant free[..] == old(free[..])
      {
        if free[i] {
          free[i] := false;
          return;
        }
        i := i + 1;
      }
      i := -1;
    }

    method FreeDesc(i: nat)
      requires free.Length == desc.Length == NUM && i < NUM && !free[i]
      modifies free, desc
      ensures free[..] == old(free[..])[i := true]
      ensures desc[..] == old(desc[..])[i := CLEARED]
    {
      desc[i] := CLEARED;
      free[i] := true;
    }

    /** Undo a partial allocation. */
    method PutBack(idx: seq<nat>, ghost was: seq<bool>)
      requires free.Length == desc.Length == NUM && |was| == NUM && free[..] == Took(was, idx)
      requires Distinct(idx) && forall d :: d in idx ==> d < NUM && was[d] && desc[d] == CLEARED
      modifies free, desc
      ensures free[..] == was && desc[..] == old(desc[..])
    {
      var j := 0;
      while j < |idx|
        invariant j <= |idx|
        invariant free[..] == Took(was, idx[j..]) && desc[..] == old(desc[..])
      {
        assert idx[j] in idx && idx[j..] == [idx[j]] + idx[j + 1..];
        FreeDesc(idx[j]);
        j := j + 1;
      }
    }

    /** Three descriptors or none: a failed attempt puts back what it took. */
    method Alloc3() returns (idx: seq<nat>)
      requires free.Length == desc.Length == NUM
      requires forall i :: 0 <= i < NUM && free[i] ==> desc[i] == CLEARED
      modifies free, desc
      ensures |idx| == 3 <==> CountFree(old(free[..])) >= 3
      ensures desc[..] == old(desc[..])
      ensures |idx| != 3 ==> free[..] == old(free[..])
      ensures |idx| == 3 ==> Distinct(idx) && forall d :: d in idx ==> d < NUM && old(free[..])[d]
      ensures |idx| == 3 ==> free[..] == Took(old(free[..]), idx)
    {
      hide CountFree;
      ghost var was := free[..];
      idx := [];
      var i := 0;
      while i < 3
        invariant |idx| == i <= 3 && free.Length == NUM
        invariant free[..] == Took(was, idx) && desc[..] == old(desc[..])
        invariant Distinct(idx) && forall d :: d in idx ==> d < NUM && was[d]
        invariant CountFree(free[..]) + i == CountFree(was)
      {
        ghost var before := free[..];
        var d := AllocDesc();
        if d < 0 {
          NoneFree(before);
          PutBack(idx, was);
          idx := [];
          return;
        }
        CountFreeUpdate(before, d, false);
        idx := idx + [d];
        i := i + 1;
      }
    }

    /** Fill in the three descriptors, the request header and the bookkeeping. */
    method Format(h: nat, c: Chain)
      requires free.Length == desc.Length == ops.Length == info.Length == NUM && Three(h, c)
      modifies desc, ops, info
      ensures desc[..] == Linked(old(desc[..]), h, c)
      ensures ops[..] == old(ops[..])[h := Op(c.write, c.sector)]
      ensures info[..] == old(info[..])[h := Info(c.buf, 0xff)]
    {
      ops[h] := Op(c.write, c.sector);
      desc[h] := Desc(Command(h), c.d1, true, false);
      desc[c.d1] := Desc(Data(c.buf), c.d2, true, !c.write);
      desc[c.d2] := Desc(StatusByte(h), 0, false, true);
      info[h] := Info(c.buf, 0xff);
    }

    /** Publish chain h: no entry the device has yet to take is overwritten. */
    method Publish(h: nat)
      requires Rings() && |queue| < NUM
      modifies this`availIdx, this`queue, avail
      ensures Rings() && queue == old(queue) + [h]
    {
      hide Spells, Slot, Index;
      ghost var ring := avail[..];
      IndexWraps(nTaken + |queue|);
      SpellsPush(ring, nTaken, queue, h);
      avail[Slot(availIdx)] := h;
      assert avail[..] == ring[Slot(nTaken + |queue|) := h];
      availIdx := Index(availIdx + 1);
      queue := queue + [h];
    }

    /**
     The first half of virtio_disk_rw, up to the wait for completion. No head means that fewer
     than three descriptors were free, and the caller sleeps with nothing changed.
     */
    method Submit(b: nat, blockno: nat, write: bool) returns (head: int)
      requires Valid() && forall g :: g in chains ==> chains[g].buf != b
      modifies this`availIdx, this`busy, this`chains, this`phase, this`owner, this`queue
      modifies free, desc, ops, info, avail
      ensures Valid()
      ensures head >= 0 <==> |old(chains)| < 2
      ensures head < 0 ==> chains == old(chains) && phase == old(phase) && busy == old(busy) && queue == old(queue)
      ensures head >= 0 ==> head !in old(chains) && head in chains && chains[head].buf == b
      ensures head >= 0 ==> chains[head].write == write && chains[head].sector == Sector(blockno)
      ensures head >= 0 ==> chains == old(chains)[head := chains[head]] && phase == old(phase)[head := Queued]
      ensures head >= 0 ==> busy == old(busy) + {b} && queue == old(queue) + [head]
    {
      hide Split, Phased, Booked, Spells, Slot, Index, CountFree, Linked, Took, Marked, Distinct, Three, Owned, Pending;
      ghost var wasFree, wasDesc, wasInfo, wasOps := free[..], desc[..], info[..], ops[..];
      TwoInFlight();
      SplitFacts();
      var idx := Alloc3();
      head := -1;
      if |idx| != 3 {
        return;
      }
      ThreeTaken(wasFree, idx, b, write, Sector(blockno));
      var h, c := idx[0], Chain(idx[1], idx[2], b, write, Sector(blockno));
      SubmitSplits(chains, owner, wasFree, wasDesc, h, c);
      SubmitStep(chains, phase, queue, done, wasInfo, wasOps, busy, h, c);
      Format(h, c);
      busy := busy + {b};
      Publish(h);
      phase := phase[h := Queued];
      owner := Owned(owner, h, c, h);
      chains := chains[h := c];
      head := h;
    }

    lemma SplitFacts()
      requires Valid()
      ensures forall i :: 0 <= i < NUM && free[i] ==> desc[i] == CLEARED
      ensures CountFree(free[..]) >= 3 <==> |chains| < 2
    {
      hide Phased, Booked, Rings, Owners, LaidOut, CountFree;
      forall i | 0 <= i < NUM && free[i] ensures desc[i] == CLEARED {
        assert free[..][i] && desc[..][i] == desc[i];
      }
    }

    /** Walk the next links from h, freeing as it goes: exactly the three descriptors of the chain. */
    method FreeChain(h: nat, ghost c: Chain)
      requires free.Length == desc.Length == NUM
      requires Laid(h, c, owner, desc[..]) && !free[h] && !free[c.d1] && !free[c.d2]
      modifies free, desc
      ensures free[..] == Marked(old(free[..]), h, c, true)
      ensures desc[..] == Cleared(old(desc[..]), h, c)
    {
      ghost var path, k := [h, c.d1, c.d2], 0;
      var i, more := h, true;
      while more
        invariant k <= 3 && (more <==> k < 3) && (k < 3 ==> i == path[k])
        invariant free[..] == MarkedUpTo(old(free[..]), path, k)
        invariant desc[..] == ClearedUpTo(old(desc[..]), path, k)
        decreases 3 - k
      {
        var d := desc[i];
        FreeDesc(i);
        more := d.hasNext;
        if more {
          i := d.next;
        }
        k := k + 1;
      }
      UpToThree(old(free[..]), old(desc[..]), h, c);
    }

    /**
     The rest of virtio_disk_rw: while the buffer is busy the caller sleeps; the call returns only
     once its own request has completed, and gives back exactly its own descriptors.
     */
    method TryFinish(h: nat, b: nat) returns (finished: bool)
      requires Valid() && h in chains && chains[h].buf == b
      modifies this`chains, this`phase, this`owner, free, desc, info
      ensures Valid()
      ensures finished <==> old(phase)[h] == Seen
      ensures finished ==> chains == old(chains) - {h} && phase == old(phase) - {h}
      ensures !finished ==> chains == old(chains) && phase == old(phase)
    {
      finished := b !in busy;
      hide Split, Phased, Booked, Spells, Slot, Index, CountFree, Marked, Cleared, Distinct, Laid, Owned;
      PhaseOf(h);
      if finished {
        ghost var wasFree, wasDesc, wasInfo := free[..], desc[..], info[..];
        FinishSplits(chains, owner, wasFree, wasDesc, h);
        FinishStep(chains, phase, queue, done, wasInfo, ops[..], busy, h);
        info[h] := info[h].(buf := NO_BUF);
        assert info[..] == wasInfo[h := wasInfo[h].(buf := NO_BUF)];
        assert free[..][h] == free[h];
        FreeChain(h, chains[h]);
        owner := Owned(owner, h, chains[h], NUM);
        phase := phase - {h};
        chains := chains - {h};
      }
    }

    lemma PhaseOf(h: nat)
      requires Valid() && h in chains
      ensures h in phase && (chains[h].buf in busy <==> phase[h] != Seen)
    {
      hide Split, Rings;
    }
  }
}
