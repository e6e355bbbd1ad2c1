/**
 bio.c: a fixed pool of buffers on a circular list in order of release, with reference counts.
 */
module BufferCache {
  import opened Common

  const NBUF: nat := 30

  /** The list head, which is not a buffer. */
  const HEAD: nat := NBUF

  type Block = seq<byte>

  datatype Key = Key(dev: nat, block: nat)

  datatype Buf = Buf(key: Key, valid: bool, refcnt: int, data: Block)

  /** The position after i on a circle of n. */
  function After(i: nat, n: nat): (j: nat)
    requires i < n
    ensures j < n
  {
    if i + 1 == n then 0 else i + 1
  }

  /** `c` lists the nodes of the ring once each, starting at the head; the links follow it both ways. */
  ghost predicate Ring(c: seq<nat>, next: seq<nat>, prev: seq<nat>)
  {
    && |next| == |prev| == NBUF + 1
    && |c| >= 1 && c[0] == HEAD
    && Distinct(c)
    && (forall i :: 0 <= i < |c| ==> c[i] <= NBUF)
    && forall i :: 0 <= i < |c| ==> Link(c, next, prev, i)
  }

  ghost predicate Link(c: seq<nat>, next: seq<nat>, prev: seq<nat>, i: nat)
    requires |next| == |prev| == NBUF + 1 && i < |c| && forall j :: 0 <= j < |c| ==> c[j] <= NBUF
  {
    next[c[i]] == c[After(i, |c|)] && prev[c[After(i, |c|)]] == c[i]
  }

  ghost function Without(c: seq<nat>, k: nat): seq<nat>
    requires k < |c|
  {
    c[..k] + c[k + 1..]
  }

  lemma UnlinkKeepsRing(c: seq<nat>, next: seq<nat>, prev: seq<nat>, k: nat)
    requires Ring(c, next, prev) && 0 < k < |c|
    ensures prev[c[k]] <= NBUF && next[c[k]] <= NBUF
    ensures Ring(Without(c, k), next[prev[c[k]] := next[c[k]]], prev[next[c[k]] := prev[c[k]]])
  {
    var b := c[k];
    assert Link(c, next, prev, k - 1) && Link(c, next, prev, k);
    var p, s := prev[b], next[b];
    var c' := Without(c, k);
    var next', prev' := next[p := s], prev[s := p];
    forall i | 0 <= i < |c'| ensures Link(c', next', prev', i) {
      var o := if i < k then i else i + 1;
      assert c'[i] == c[o];
      assert Link(c, next, prev, o);
      var j := After(i, |c'|);
      var oj := if j < k then j else j + 1;
      assert c'[j] == c[oj];
    }
  }

  lemma InsertKeepsRing(c: seq<nat>, next: seq<nat>, prev: seq<nat>, b: nat)
    requires Ring(c, next, prev) && b < NBUF && b !in c
    ensures next[HEAD] <= NBUF
    ensures Ring([HEAD, b] + c[1..], next[b := next[HEAD]][HEAD := b], prev[b := HEAD][next[HEAD] := b])
  {
    assert Link(c, next, prev, 0);
    var c' := [HEAD, b] + c[1..];
    var next', prev' := next[b := next[HEAD]][HEAD := b], prev[b := HEAD][next[HEAD] := b];
    forall i | 0 <= i < |c'| ensures Link(c', next', prev', i) {
      if i >= 2 {
        assert c'[i] == c[i - 1];
        assert Link(c, next, prev, i - 1);
      }
    }
  }

  /** The ring holds every buffer, most recently moved to the front first. */
  ghost predicate ByAge(c: seq<nat>, stamp: seq<nat>, clock: nat)
  {
    && |c| == NBUF + 1 && |stamp| == NBUF
    && (forall b :: 0 <= b <= NBUF ==> b in c)
    && (forall i :: 0 <= i < NBUF ==> stamp[i] < clock)
    && (forall i :: 1 <= i <= NBUF ==> c[i] < NBUF)
    && (forall i, j :: 1 <= i < j <= NBUF ==> stamp[c[i]] > stamp[c[j]])
  }

  lemma FirstAge(c: seq<nat>, stamp: seq<nat>)
    requires |c| == NBUF + 1 && c[0] == HEAD && forall i :: 1 <= i <= NBUF ==> c[i] == NBUF - i
    requires |stamp| == NBUF && forall i :: 0 <= i < NBUF ==> stamp[i] == i
    ensures ByAge(c, stamp, NBUF)
  {
    forall x | 0 <= x <= NBUF ensures x in c {
      assert c[if x == HEAD then 0 else NBUF - x] == x;
    }
  }

  /** The ring after its k-th entry moves to the front. */
  ghost function Moved(c: seq<nat>, k: nat): (r: seq<nat>)
    requires 1 <= k < |c|
    ensures |r| == |c| && r[0] == HEAD && r[1] == c[k]
    ensures forall i :: 2 <= i < |c| ==> r[i] == if i <= k then c[i - 1] else c[i]
  {
    [HEAD, c[k]] + Without(c, k)[1..]
  }

  lemma MovedHoldsAll(c: seq<nat>, k: nat, x: nat)
    requires 1 <= k < |c| && c[0] == HEAD && x in c
    ensures x in Moved(c, k)
  {
    var i :| 0 <= i < |c| && c[i] == x;
    assert Moved(c, k)[if i == 0 then 0 else if i == k then 1 else if i < k then i + 1 else i] == x;
  }

  lemma MovedOrder(c: seq<nat>, stamp: seq<nat>, clock: nat, k: nat, i: nat, j: nat)
    requires ByAge(c, stamp, clock) && Distinct(c) && 1 <= k <= NBUF && 1 <= i < j <= NBUF
    ensures var r := Moved(c, k);
      r[i] < NBUF && r[j] < NBUF && c[k] < NBUF && stamp[c[k] := clock][r[i]] > stamp[c[k] := clock][r[j]]
  {
    var r, oi, oj := Moved(c, k), if i <= k then i - 1 else i, if j <= k then j - 1 else j;
    assert r[j] == c[oj] && 1 <= oj <= NBUF && oj != k;
    if i >= 2 {
      assert r[i] == c[oi] && 1 <= oi < oj && oi != k;
    }
  }

  lemma MoveKeepsAge(c: seq<nat>, stamp: seq<nat>, clock: nat, k: nat)
    requires ByAge(c, stamp, clock) && Distinct(c) && c[0] == HEAD && 1 <= k <= NBUF
    ensures c[k] < NBUF
    ensures ByAge([HEAD, c[k]] + Without(c, k)[1..], stamp[c[k] := clock], clock + 1)
  {
    var r, stamp' := Moved(c, k), stamp[c[k] := clock];
    forall x | 0 <= x <= NBUF ensures x in r {
      MovedHoldsAll(c, k, x);
    }
    forall i, j | 1 <= i < j <= NBUF ensures stamp'[r[i]] > stamp'[r[j]] {
      MovedOrder(c, stamp, clock, k, i, j);
    }
    hide Distinct;
  }

  /** Buffer i holds block `key`. */
  predicate Holds(bufs: seq<Buf>, i: int, key: Key)
  {
    0 <= i < |bufs| && bufs[i].key == key
  }

  ghost predicate Cached(bufs: seq<Buf>, key: Key)
  {
    exists i :: Holds(bufs, i, key)
  }

  /** At most one buffer per block of a real device, and buffers never used yet are empty. */
  ghost predicate Unique(bufs: seq<Buf>)
  {
    && (forall i, j :: 0 <= i < j < |bufs| && bufs[i].key == bufs[j].key ==> bufs[i].key.dev == 0)
    && (forall i :: 0 <= i < |bufs| && bufs[i].key.dev == 0 ==> bufs[i].refcnt == 0 && !bufs[i].valid)
  }

  /** A buffer nobody references may be dropped without losing anything. */
  predicate Clean(b: Buf, disk: map<Key, Block>)
  {
    b.refcnt >= 0 && (b.valid && b.refcnt == 0 ==> b.key in disk && disk[b.key] == b.data)
  }

  /** The latest contents of a block: its valid buffer's if it has one, else the disk's. */
  ghost function Latest(bufs: seq<Buf>, disk: map<Key, Block>, key: Key): Block
    requires key in disk
  {
    if exists i :: Holds(bufs, i, key) && bufs[i].valid then
      var i :| Holds(bufs, i, key) && bufs[i].valid; bufs[i].data
    else disk[key]
  }

  lemma LatestOfValid(bufs: seq<Buf>, disk: map<Key, Block>, i: nat)
    requires Unique(bufs) && i < |bufs| && bufs[i].valid && bufs[i].key in disk
    ensures Latest(bufs, disk, bufs[i].key) == bufs[i].data
  {
    assert Holds(bufs, i, bufs[i].key);
  }

  lemma LatestOfUncached(bufs: seq<Buf>, disk: map<Key, Block>, key: Key)
    requires key in disk && forall i :: 0 <= i < |bufs| && bufs[i].key == key ==> !bufs[i].valid
    ensures Latest(bufs, disk, key) == disk[key]
  {
  }

  /** Replacing one buffer leaves the latest contents of every other block alone. */
  lemma LatestOfOther(bufs: seq<Buf>, disk: map<Key, Block>, i: nat, b: Buf, key: Key)
    requires i < |bufs| && Unique(bufs) && Unique(bufs[i := b]) && key in disk
    requires bufs[i].key == key ==> Clean(bufs[i], disk) && bufs[i].refcnt == 0
    requires b.key == key ==> !b.valid
    ensures Latest(bufs[i := b], disk, key) == Latest(bufs, disk, key)
  {
    var bufs' := bufs[i := b];
    if j :| Holds(bufs', j, key) && bufs'[j].valid {
      assert Holds(bufs, j, key) && bufs[j].valid;
      LatestOfValid(bufs, disk, j);
      LatestOfValid(bufs', disk, j);
    } else {
      if j :| Holds(bufs, j, key) && bufs[j].valid {
        assert j == i by {
          if j != i {
            assert Holds(bufs', j, key);
          }
        }
        LatestOfValid(bufs, disk, i);
      }
    }
  }

  /** A changed reference count changes no contents. */
  lemma LatestOfCount(bufs: seq<Buf>, disk: map<Key, Block>, i: nat, n: int, key: Key)
    requires i < |bufs| && Unique(bufs) && key in disk
    requires Unique(bufs[i := bufs[i].(refcnt := n)])
    ensures Latest(bufs[i := bufs[i].(refcnt := n)], disk, key) == Latest(bufs, disk, key)
  {
    var bufs' := bufs[i := bufs[i].(refcnt := n)];
    if j :| Holds(bufs, j, key) && bufs[j].valid {
      assert Holds(bufs', j, key) && bufs'[j].valid;
      LatestOfValid(bufs, disk, j);
      LatestOfValid(bufs', disk, j);
    } else {
      assert forall j :: Holds(bufs', j, key) ==> Holds(bufs, j, key);
    }
  }

  class Cache {
    const bufs: array<Buf>
    const prev: array<nat>
    const next: array<nat>
    var disk: map<Key, Block>
    ghost var ring: seq<nat>   // the head, then the buffers from most to least recently released
    ghost var stamp: seq<nat>  // when each buffer last moved to the front
    ghost var clock: nat

    ghost predicate Linked()
      reads this, prev, next
    {
      && prev.Length == next.Length == NBUF + 1 && prev != next
      && Ring(ring, next[..], prev[..])
      && ByAge(ring, stamp, clock)
    }

    ghost predicate Coherent()
      reads this, bufs
    {
      && bufs.Length == NBUF
      && Unique(bufs[..])
      && forall i :: 0 <= i < NBUF ==> Clean(bufs[i], disk)
    }

    ghost predicate Valid()
      reads this, bufs, prev, next
    {
      Linked() && Coherent()
    }

    /** binit: insert the buffers one by one after the head. */
    constructor (disk: map<Key, Block>)
      ensures Valid() && this.disk == disk
      ensures fresh(bufs) && fresh(prev) && fresh(next)
      ensures forall k :: k in disk ==> Latest(bufs[..], disk, k) == disk[k]
      ensures forall i :: 0 <= i < NBUF ==> bufs[i].refcnt == 0
    {
      this.disk := disk;
      bufs := new Buf[NBUF](i => Buf(Key(0, 0), false, 0, []));
      prev := new nat[NBUF + 1](i => HEAD);
      next := new nat[NBUF + 1](i => HEAD);
      ring, stamp, clock := [HEAD], seq(NBUF, i requires 0 <= i < NBUF => i), NBUF;
      new;
      assert Link(ring, next[..], prev[..], 0);
      var b: nat := 0;
      while b < NBUF
        invariant 0 <= b <= NBUF && |ring| == b + 1
        invariant Ring(ring, next[..], prev[..])
        invariant forall i :: 1 <= i <= b ==> ring[i] == b - i
        invariant forall i :: 0 <= i < NBUF ==> bufs[i] == Buf(Key(0, 0), false, 0, [])
        invariant this.disk == disk && clock == NBUF && |stamp| == NBUF && forall i :: 0 <= i < NBUF ==> stamp[i] == i
      {
        InsertFront(b);
        b := b + 1;
      }
      FirstAge(ring, stamp);
      forall k | k in disk ensures Latest(bufs[..], disk, k) == disk[k] {
        LatestOfUncached(bufs[..], disk, k);
      }
    }

    method InsertFront(b: nat)
      requires prev.Length == next.Length == NBUF + 1 && prev != next
      requires Ring(ring, next[..], prev[..]) && b < NBUF && b !in ring
      modifies this`ring, prev, next
      ensures ring == [HEAD, b] + old(ring)[1..] && Ring(ring, next[..], prev[..])
    {
      ghost var nx: seq<nat>, pv: seq<nat> := next[..], prev[..];
      InsertKeepsRing(ring, nx, pv, b);
      hide Ring;
      next[b] := next[HEAD];
      prev[b] := HEAD;
      prev[next[HEAD]] := b;
      next[HEAD] := b;
      ring := [HEAD, b] + ring[1..];
      assert next[..] == nx[b := nx[HEAD]][HEAD := b] && prev[..] == pv[b := HEAD][nx[HEAD] := b];
    }

    /** The buffer at ring position k, k > 0, is a buffer and not the head. */
    lemma RingBuffer(k: nat)
      requires Linked() && 0 < k <= NBUF
      ensures ring[k] < NBUF
    {
      assert ring[0] == HEAD;
    }

    lemma OnRing(b: nat) returns (j: nat)
      requires Linked() && b < NBUF
      ensures 1 <= j <= NBUF && ring[j] == b
    {
      assert b in ring;
      j :| 0 <= j < |ring| && ring[j] == b;
    }

    /** Walk the ring forward for a buffer holding `key`; HEAD if there is none. */
    method FindCached(key: Key) returns (b: nat)
      requires Valid()
      ensures b == HEAD <==> !Cached(bufs[..], key)
      ensures b != HEAD ==> Holds(bufs[..], b, key)
    {
      assert Link(ring, next[..], prev[..], 0);
      b := next[HEAD];
      ghost var k := 1;
      while b != HEAD
        invariant 1 <= k <= NBUF + 1
        invariant b == if k == NBUF + 1 then HEAD else ring[k]
        invariant forall j :: 1 <= j < k ==> ring[j] < NBUF && bufs[ring[j]].key != key
        decreases NBUF + 1 - k
      {
        RingBuffer(k);
        if bufs[b].key == key {
          assert Holds(bufs[..], b, key);
          return;
        }
        assert Link(ring, next[..], prev[..], k);
        b := next[b];
        k := k + 1;
      }
      forall i | 0 <= i < NBUF ensures bufs[i].key != key {
        var j := OnRing(i);
      }
    }

    /** Walk the ring backward for an unreferenced buffer: the one released longest ago; HEAD if there is none. */
    method FindFree() returns (b: nat)
      requires Valid()
      ensures b <= NBUF
      ensures b == HEAD <==> forall i :: 0 <= i < NBUF ==> bufs[i].refcnt != 0
      ensures b != HEAD ==> bufs[b].refcnt == 0
      ensures b != HEAD ==> forall i :: 0 <= i < NBUF && i != b && bufs[i].refcnt == 0 ==> stamp[b] < stamp[i]
    {
      assert Link(ring, next[..], prev[..], NBUF);
      b := prev[HEAD];
      ghost var k := NBUF;
      while b != HEAD
        invariant 0 <= k <= NBUF
        invariant b == ring[k]
        invariant forall j :: k < j <= NBUF ==> ring[j] < NBUF && bufs[ring[j]].refcnt != 0
        decreases k
      {
        RingBuffer(k);
        if bufs[b].refcnt == 0 {
          forall i | 0 <= i < NBUF && i != b && bufs[i].refcnt == 0 ensures stamp[b] < stamp[i] {
            var j := OnRing(i);
          }
          return;
        }
        assert Link(ring, next[..], prev[..], k - 1);
        b := prev[b];
        k := k - 1;
      }
      forall i | 0 <= i < NBUF ensures bufs[i].refcnt != 0 {
        var j := OnRing(i);
      }
    }

    /** What a read of block `key` must return. */
    ghost function Contents(key: Key): Block
      requires key in disk
      reads this, bufs
    {
      Latest(bufs[..], disk, key)
    }

    /** Change buffer b's reference count by d. */
    method Count(b: nat, d: int)
      requires Valid() && b < NBUF && bufs[b].refcnt + d >= 0 && bufs[b].key.dev != 0
      requires bufs[b].refcnt + d == 0 && bufs[b].valid ==> bufs[b].key in disk && disk[bufs[b].key] == bufs[b].data
      modifies bufs
      ensures Valid()
      ensures bufs[..] == old(bufs[..])[b := old(bufs[b]).(refcnt := old(bufs[b]).refcnt + d)]
      ensures forall key :: key in disk ==> Contents(key) == old(Contents(key))
    {
      hide Ring;
      ghost var was := bufs[..];
      bufs[b] := bufs[b].(refcnt := bufs[b].refcnt + d);
      assert bufs[..] == was[b := was[b].(refcnt := was[b].refcnt + d)];
      forall key | key in disk ensures Contents(key) == Latest(was, disk, key) {
        LatestOfCount(was, disk, b, was[b].refcnt + d, key);
      }
    }

    method Bpin(b: nat)
      requires Valid() && b < NBUF && bufs[b].refcnt > 0
      modifies bufs
      ensures Valid() && bufs[..] == old(bufs[..])[b := old(bufs[b]).(refcnt := old(bufs[b]).refcnt + 1)]
      ensures forall key :: key in disk ==> Contents(key) == old(Contents(key))
    {
      Count(b, 1);
    }

    /** The last reference may go only once the block is on disk. */
    method Bunpin(b: nat)
      requires Valid() && b < NBUF && bufs[b].refcnt > 0
      requires bufs[b].refcnt == 1 && bufs[b].valid ==> bufs[b].key in disk && disk[bufs[b].key] == bufs[b].data
      modifies bufs
      ensures Valid() && bufs[..] == old(bufs[..])[b := old(bufs[b]).(refcnt := old(bufs[b]).refcnt - 1)]
      ensures forall key :: key in disk ==> Contents(key) == old(Contents(key))
    {
      Count(b, -1);
    }

    /** Take over an unreferenced buffer for block `key`. */
    method Recycle(b: nat, key: Key)
      requires Valid() && b < NBUF && bufs[b].refcnt == 0 && key.dev != 0 && !Cached(bufs[..], key)
      modifies bufs
      ensures Valid()
      ensures bufs[..] == old(bufs[..])[b := Buf(key, false, 1, old(bufs[b]).data)]
      ensures forall k :: k in disk ==> Contents(k) == old(Contents(k))
    {
      hide Ring;
      ghost var was := bufs[..];
      bufs[b] := Buf(key, false, 1, bufs[b].data);
      ghost var e := bufs[b];
      assert bufs[..] == was[b := e];
      assert Unique(bufs[..]) by {
        forall i | 0 <= i < NBUF && i != b ensures bufs[i].key != key {
          assert !Holds(was, i, key);
        }
      }
      forall k | k in disk ensures Contents(k) == Latest(was, disk, k) {
        LatestOfOther(was, disk, b, e, k);
      }
    }

    /**
     bget: the buffer of block `key`, referenced once more.  If the block is not cached, the buffer
     released longest ago among the unreferenced ones is recycled; -1 (a panic) if all are referenced.
     */
    method Bget(key: Key) returns (b: int)
      requires Valid() && key.dev != 0
      modifies bufs
      ensures Valid()
      ensures forall k :: k in disk ==> Contents(k) == old(Contents(k))
      ensures b < 0 <==> !old(Cached(bufs[..], key)) && forall i :: 0 <= i < NBUF ==> old(bufs[..])[i].refcnt > 0
      ensures b < 0 ==> bufs[..] == old(bufs[..])
      ensures b >= 0 ==> b < NBUF && bufs[b].key == key && bufs[b].refcnt > 0
      ensures b >= 0 && old(Cached(bufs[..], key)) ==>
        old(Holds(bufs[..], b, key)) && bufs[..] == old(bufs[..])[b := old(bufs[..])[b].(refcnt := old(bufs[..])[b].refcnt + 1)]
      ensures b >= 0 && !old(Cached(bufs[..], key)) ==>
        && bufs[..] == old(bufs[..])[b := Buf(key, false, 1, old(bufs[..])[b].data)]
        && old(bufs[..])[b].refcnt == 0
        && forall i :: 0 <= i < NBUF && i != b && old(bufs[..])[i].refcnt == 0 ==> stamp[b] < stamp[i]
    {
      hide Ring, Unique, Latest;
      var c := FindCached(key);
      if c != HEAD {
        Count(c, 1);
        return c;
      }
      var f := FindFree();
      if f == HEAD {
        return -1;
      }
      Recycle(f, key);
      return f;
    }

    /** bread: a buffer with the latest contents of the block. */
    method Bread(key: Key) returns (b: int)
      requires Valid() && key.dev != 0 && key in disk
      modifies bufs
      ensures Valid()
      ensures forall k :: k in disk ==> Contents(k) == old(Contents(k))
      ensures b < 0 <==> !old(Cached(bufs[..], key)) && forall i :: 0 <= i < NBUF ==> old(bufs[..])[i].refcnt > 0
      ensures b >= 0 ==>
        b < NBUF && bufs[b].key == key && bufs[b].refcnt > 0 && bufs[b].valid && bufs[b].data == old(Contents(key))
      ensures b >= 0 ==> forall i :: 0 <= i < NBUF && i != b ==> bufs[i] == old(bufs[i])
      ensures b >= 0 ==> bufs[b].refcnt == old(bufs[b]).refcnt + 1
      ensures b >= 0 ==> if old(Cached(bufs[..], key)) then old(bufs[b]).key == key else old(bufs[b]).refcnt == 0
    {
      hide Ring;
      b := Bget(key);
      if b >= 0 {
        ghost var was := bufs[..];
        if !bufs[b].valid {
          bufs[b] := bufs[b].(valid := true, data := disk[key]);
          assert bufs[..] == was[b := was[b].(valid := true, data := disk[key])];
          forall k | k in disk ensures Contents(k) == Latest(was, disk, k) {
            LatestAfterRead(was, disk, b, k);
          }
        }
        LatestOfValid(bufs[..], disk, b);
      }
    }

    /** bwrite: the disk catches up with a held buffer. */
    method Bwrite(b: nat)
      requires Valid() && b < NBUF && bufs[b].refcnt > 0 && bufs[b].valid && bufs[b].key in disk
      modifies this`disk
      ensures Valid() && disk == old(disk)[bufs[b].key := bufs[b].data]
      ensures forall k :: k in old(disk) ==> Contents(k) == old(Contents(k))
    {
      hide Ring;
      ghost var was := disk;
      disk := disk[bufs[b].key := bufs[b].data];
      forall k | k in was ensures Contents(k) == Latest(bufs[..], was, k) {
        LatestAfterWrite(bufs[..], was, b, k);
      }
    }

    /** A holder changes a block in its buffer; only that block's contents change. */
    method Modify(b: nat, data: Block)
      requires Valid() && b < NBUF && bufs[b].refcnt > 0 && bufs[b].valid && bufs[b].key in disk
      modifies bufs
      ensures Valid() && bufs[..] == old(bufs[..])[b := old(bufs[b]).(data := data)]
      ensures forall k :: k in disk ==> Contents(k) == if k == bufs[b].key then data else old(Contents(k))
    {
      hide Ring;
      ghost var was := bufs[..];
      bufs[b] := bufs[b].(data := data);
      assert bufs[..] == was[b := was[b].(data := data)];
      forall k | k in disk ensures Contents(k) == if k == bufs[b].key then data else Latest(was, disk, k) {
        LatestAfterModify(was, disk, b, data, k);
      }
    }

    /**
     brelse: drop a reference; the last one out moves the buffer to the front of the ring.  The caller
     must have written or pinned what it modified.
     */
    method Brelse(b: nat)
      requires Valid() && b < NBUF && bufs[b].refcnt > 0
      requires bufs[b].refcnt == 1 && bufs[b].valid ==> bufs[b].key in disk && disk[bufs[b].key] == bufs[b].data
      modifies this`ring, this`stamp, this`clock, bufs, prev, next
      ensures Valid()
      ensures bufs[..] == old(bufs[..])[b := old(bufs[b]).(refcnt := old(bufs[b]).refcnt - 1)]
      ensures forall k :: k in disk ==> Contents(k) == old(Contents(k))
      ensures old(bufs[b]).refcnt > 1 ==> ring == old(ring) && stamp == old(stamp)
      ensures old(bufs[b]).refcnt == 1 ==> ring[1] == b && clock == old(clock) + 1
    {
      Count(b, -1);
      if bufs[b].refcnt == 0 {
        MoveToFront(b);
      }
    }

    method MoveToFront(b: nat)
      requires Linked() && b < NBUF
      modifies this`ring, this`stamp, this`clock, prev, next
      ensures Linked() && ring[1] == b && clock == old(clock) + 1 && stamp == old(stamp)[b := old(clock)]
      ensures forall i :: 0 <= i < bufs.Length ==> bufs[i] == old(bufs[i])
    {
      ghost var c, nx, pv := ring, next[..], prev[..];
      ghost var k := OnRing(b);
      MoveKeepsAge(c, stamp, clock, k);
      hide ByAge, Link;
      UnlinkKeepsRing(c, nx, pv, k);
      prev[next[b]] := prev[b];
      next[prev[b]] := next[b];
      ghost var c1, nx1, pv1 := Without(c, k), nx[pv[b] := nx[b]], pv[nx[b] := pv[b]];
      assert next[..] == nx1 && prev[..] == pv1;
      ring := c1;
      InsertFront(b);
      stamp := stamp[b := clock];
      clock := clock + 1;
    }
  }

  lemma LatestAfterRead(bufs: seq<Buf>, disk: map<Key, Block>, b: nat, key: Key)
    requires b < |bufs| && Unique(bufs) && !bufs[b].valid && bufs[b].key in disk && key in disk && bufs[b].key.dev != 0
    ensures Latest(bufs[b := bufs[b].(valid := true, data := disk[bufs[b].key])], disk, key) == Latest(bufs, disk, key)
  {
    var bufs' := bufs[b := bufs[b].(valid := true, data := disk[bufs[b].key])];
    if j :| Holds(bufs, j, key) && bufs[j].valid {
      assert Holds(bufs', j, key) && bufs'[j].valid;
      LatestOfValid(bufs, disk, j);
      LatestOfValid(bufs', disk, j);
    } else if key == bufs[b].key {
      LatestOfValid(bufs', disk, b);
    } else {
      assert forall j :: Holds(bufs', j, key) && bufs'[j].valid ==> Holds(bufs, j, key) && bufs[j].valid;
    }
  }

  lemma LatestAfterWrite(bufs: seq<Buf>, disk: map<Key, Block>, b: nat, key: Key)
    requires b < |bufs| && Unique(bufs) && bufs[b].valid && bufs[b].key in disk && key in disk
    ensures Latest(bufs, disk[bufs[b].key := bufs[b].data], key) == Latest(bufs, disk, key)
  {
    if key == bufs[b].key {
      LatestOfValid(bufs, disk, b);
      LatestOfValid(bufs, disk[bufs[b].key := bufs[b].data], b);
    }
  }

  lemma LatestAfterModify(bufs: seq<Buf>, disk: map<Key, Block>, b: nat, data: Block, key: Key)
    requires b < |bufs| && Unique(bufs) && bufs[b].valid && key in disk && bufs[b].key in disk && bufs[b].key.dev != 0
    ensures Latest(bufs[b := bufs[b].(data := data)], disk, key)
         == if key == bufs[b].key then data else Latest(bufs, disk, key)
  {
    var bufs' := bufs[b := bufs[b].(data := data)];
    if key == bufs[b].key {
      LatestOfValid(bufs', disk, b);
    } else if j :| Holds(bufs, j, key) && bufs[j].valid {
      assert Holds(bufs', j, key) && bufs'[j].valid;
      LatestOfValid(bufs, disk, j);
      LatestOfValid(bufs', disk, j);
    } else {
      assert forall j :: Holds(bufs', j, key) && bufs'[j].valid ==> Holds(bufs, j, key) && bufs[j].valid;
    }
  }
}
