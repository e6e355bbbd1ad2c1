/**
 write_log (log.c) against the buffer cache (bio.c): the log pins one buffer for each block it holds,
 other buffers may be in use besides, and there are as many buffers as blocks the log can hold.
 */
module CommitBuffers {
  import opened Common
  import opened BufferCache

  /** The buffers in use are exactly those the log has pinned, one for each logged block. */
  ghost predicate Pinned(bufs: seq<Buf>, keys: seq<Key>)
  {
    && (forall i :: 0 <= i < |bufs| && bufs[i].refcnt > 0 ==> bufs[i].key in keys)
    && (forall t :: t in keys ==> exists i :: Holds(bufs, i, t) && bufs[i].refcnt > 0)
  }

  ghost predicate AllDiffer(keys: seq<Key>)
  {
    forall i, j :: 0 <= i < j < |keys| ==> keys[i] != keys[j]
  }

  ghost function KeysOf(bufs: seq<Buf>): set<Key>
  {
    set i | 0 <= i < |bufs| :: bufs[i].key
  }

  ghost function SetOf(keys: seq<Key>): set<Key>
  {
    set t | t in keys
  }

  lemma {:induction false} DistinctCount(keys: seq<Key>)
    ensures |SetOf(keys)| <= |keys| && (AllDiffer(keys) ==> |SetOf(keys)| == |keys|)
    decreases |keys|
  {
    if keys != [] {
      var r, t := keys[..|keys| - 1], keys[|keys| - 1];
      DistinctCount(r);
      assert SetOf(keys) == SetOf(r) + {t};
    }
  }

  lemma {:induction false} BufferKeys(bufs: seq<Buf>)
    ensures |KeysOf(bufs)| <= |bufs|
    ensures (forall i, j :: 0 <= i < j < |bufs| ==> bufs[i].key != bufs[j].key) ==> |KeysOf(bufs)| == |bufs|
    decreases |bufs|
  {
    if bufs != [] {
      var r, b := bufs[..|bufs| - 1], bufs[|bufs| - 1];
      BufferKeys(r);
      assert KeysOf(bufs) == KeysOf(r) + {b.key} by {
        assert forall i :: 0 <= i < |r| ==> r[i] == bufs[i];
      }
    }
  }

  lemma Fewer(a: set<Key>, b: set<Key>)
    requires a <= b
    ensures |a| <= |b|
  {
    assert b == a + (b - a);
  }

  /** Every buffer is in use exactly when the log holds as many blocks as there are buffers. */
  lemma AllPinned(bufs: seq<Buf>, keys: seq<Key>)
    requires Unique(bufs) && Pinned(bufs, keys) && AllDiffer(keys)
    ensures |keys| <= |bufs|
    ensures (forall i :: 0 <= i < |bufs| ==> bufs[i].refcnt > 0) <==> |keys| == |bufs|
  {
    DistinctCount(keys);
    BufferKeys(bufs);
    KeysHeld(bufs, keys);
    Fewer(SetOf(keys), KeysOf(bufs));
    if forall i :: 0 <= i < |bufs| ==> bufs[i].refcnt > 0 {
      assert forall i, j :: 0 <= i < j < |bufs| ==> bufs[i].key != bufs[j].key;
      Fewer(KeysOf(bufs), SetOf(keys));
    } else {
      var k :| 0 <= k < |bufs| && bufs[k].refcnt <= 0;
      OneLess(bufs, keys, k);
    }
  }

  lemma KeysHeld(bufs: seq<Buf>, keys: seq<Key>)
    requires Pinned(bufs, keys)
    ensures SetOf(keys) <= KeysOf(bufs)
  {
    forall t | t in SetOf(keys) ensures t in KeysOf(bufs) {
      var i :| Holds(bufs, i, t) && bufs[i].refcnt > 0;
    }
  }

  lemma OneLess(bufs: seq<Buf>, keys: seq<Key>, k: nat)
    requires Pinned(bufs, keys) && AllDiffer(keys) && k < |bufs| && bufs[k].refcnt <= 0
    ensures |keys| < |bufs|
  {
    var rest := bufs[..k] + bufs[k + 1..];
    forall t | t in SetOf(keys) ensures t in KeysOf(rest) {
      var i :| Holds(bufs, i, t) && bufs[i].refcnt > 0;
      assert rest[if i < k then i else i - 1] == bufs[i];
    }
    DistinctCount(keys);
    BufferKeys(rest);
    Fewer(SetOf(keys), KeysOf(rest));
  }

  function LogKeys(dev: nat, targets: seq<nat>): seq<Key>
  {
    seq(|targets|, i requires 0 <= i < |targets| => Key(dev, targets[i]))
  }

  /** The logged blocks and their slots are on the disk, and no slot is logged itself. */
  ghost predicate OnDisk(disk: map<Key, Block>, dev: nat, start: nat, targets: seq<nat>)
  {
    forall i :: 0 <= i < |targets| ==>
      && Key(dev, targets[i]) in disk && Key(dev, start + 1 + i) in disk
      && !(start < targets[i] <= start + |targets|)
  }

  /** Every one of these blocks has a buffer in use. */
  ghost predicate Held(bufs: seq<Buf>, keys: seq<Key>)
  {
    forall t :: t in keys ==> exists i :: Holds(bufs, i, t) && bufs[i].refcnt > 0
  }

  ghost predicate SomeUnused(bufs: seq<Buf>)
  {
    exists i :: 0 <= i < |bufs| && bufs[i].refcnt <= 0
  }

  function SlotKey(dev: nat, start: nat, i: nat): Key
  {
    Key(dev, start + 1 + i)
  }

  ghost predicate SlotsCached(bufs: seq<Buf>, dev: nat, start: nat, n: nat)
  {
    forall i: nat :: i < n ==> Cached(bufs, SlotKey(dev, start, i))
  }

  /** The buffers are in use as before, those in use for the same blocks. */
  ghost predicate SameUse(a: seq<Buf>, b: seq<Buf>)
  {
    |a| == |b| && forall i :: 0 <= i < |a| ==> b[i].refcnt == a[i].refcnt && (a[i].refcnt > 0 ==> b[i].key == a[i].key)
  }

  lemma SameUseKeeps(a: seq<Buf>, b: seq<Buf>, keys: seq<Key>)
    requires SameUse(a, b)
    ensures Held(a, keys) ==> Held(b, keys)
    ensures SomeUnused(a) <==> SomeUnused(b)
    ensures !SomeUnused(a) ==> forall k :: Cached(a, k) <==> Cached(b, k)
  {
    if Held(a, keys) {
      forall t | t in keys ensures exists i :: Holds(b, i, t) && b[i].refcnt > 0 {
        var i :| Holds(a, i, t) && a[i].refcnt > 0;
        assert Holds(b, i, t);
      }
    }
    if !SomeUnused(a) {
      forall k ensures Cached(a, k) <==> Cached(b, k) {
        assert forall i :: Holds(a, i, k) <==> Holds(b, i, k);
      }
    }
  }

  lemma SameUseTwice(a: seq<Buf>, b: seq<Buf>, c: seq<Buf>)
    requires SameUse(a, b) && SameUse(b, c)
    ensures SameUse(a, c)
  {
  }

  /**
   write_log: it gets its buffers, and copies every logged block to its slot, exactly if some buffer is
   not in use or every slot is in the cache already. Otherwise bget panics.
   */
  method WriteLog(cache: Cache, dev: nat, start: nat, targets: seq<nat>) returns (ok: bool)
    requires cache.Valid() && dev != 0 && Distinct(targets)
    requires Held(cache.bufs[..], LogKeys(dev, targets))
    requires OnDisk(cache.disk, dev, start, targets)
    modifies cache, cache.bufs, cache.prev, cache.next
    ensures cache.Valid()
    ensures ok <==> old(SomeUnused(cache.bufs[..])) || old(SlotsCached(cache.bufs[..], dev, start, |targets|))
    ensures ok ==> SameUse(old(cache.bufs[..]), cache.bufs[..])
    ensures cache.disk.Keys == old(cache.disk).Keys
    ensures ok ==> forall i :: 0 <= i < |targets| ==>
      old(cache.Contents(Key(dev, targets[i]))) == cache.disk[Key(dev, start + 1 + i)]
  {
    hide Ring, ByAge, Unique, Latest, Held, LogKeys, SomeUnused, Cached, SameUse;
    ghost var keys, d0, b0 := LogKeys(dev, targets), cache.disk, cache.bufs[..];
    KeysDiffer(dev, targets);
    SameUseSelf(b0);
    var tail := 0;
    while tail < |targets|
      invariant 0 <= tail <= |targets| && cache.Valid() && SameUse(b0, cache.bufs[..])
      invariant cache.disk.Keys == d0.Keys && (SomeUnused(b0) || SlotsCached(b0, dev, start, tail))
      invariant OnDisk(d0, dev, start, targets)
      invariant forall i :: 0 <= i < |targets| ==>
        cache.Contents(Key(dev, targets[i])) == old(cache.Contents(Key(dev, targets[i])))
      invariant forall i :: 0 <= i < tail ==>
        old(cache.Contents(Key(dev, targets[i]))) == cache.disk[Key(dev, start + 1 + i)]
    {
      SameUseKeeps(b0, cache.bufs[..], keys);
      assert SlotKey(dev, start, tail) !in keys && keys[tail] in keys;
      ghost var b1 := cache.bufs[..];
      var got := CopyOne(cache, SlotKey(dev, start, tail), Key(dev, targets[tail]), keys);
      if !got {
        return false;
      }
      SameUseTwice(b0, b1, cache.bufs[..]);
      tail := tail + 1;
    }
    ok := true;
  }

  lemma SameUseSelf(a: seq<Buf>)
    ensures SameUse(a, a)
  {
  }

  lemma KeysDiffer(dev: nat, targets: seq<nat>)
    requires Distinct(targets)
    ensures |LogKeys(dev, targets)| == |targets| && AllDiffer(LogKeys(dev, targets))
    ensures forall i :: 0 <= i < |targets| ==> LogKeys(dev, targets)[i] == Key(dev, targets[i])
  {
  }

  lemma Counted(cache: Cache, keys: seq<Key>)
    requires cache.Valid() && Pinned(cache.bufs[..], keys) && AllDiffer(keys)
    ensures |keys| <= NBUF && ((forall i :: 0 <= i < NBUF ==> cache.bufs[..][i].refcnt > 0) <==> |keys| == NBUF)
  {
    hide Pinned, Ring, ByAge, AllDiffer;
    AllPinned(cache.bufs[..], keys);
  }

  /** One round: the log block's buffer, the home block's buffer, and both released again. */
  method CopyOne(cache: Cache, slot: Key, home: Key, ghost keys: seq<Key>) returns (got: bool)
    requires cache.Valid() && slot.dev != 0 && home.dev != 0 && slot in cache.disk && home in cache.disk
    requires Held(cache.bufs[..], keys) && home in keys && slot !in keys
    modifies cache, cache.bufs, cache.prev, cache.next
    ensures cache.Valid()
    ensures got <==> old(SomeUnused(cache.bufs[..])) || old(Cached(cache.bufs[..], slot))
    ensures !got ==> cache.disk == old(cache.disk)
    ensures got ==> SameUse(old(cache.bufs[..]), cache.bufs[..])
    ensures got ==> cache.disk == old(cache.disk)[slot := old(cache.Contents(home))]
    ensures got ==> forall k :: k in old(cache.disk) && k != slot ==> cache.Contents(k) == old(cache.Contents(k))
  {
    hide Ring, ByAge, Unique, Latest, Held, SomeUnused, Cached, SameUse;
    ghost var was := cache.bufs[..];
    var to, from := Fetch(cache, slot, home, keys);
    if to < 0 {
      return false;
    }
    cache.Modify(to, cache.bufs[from].data);
    cache.Bwrite(to);
    cache.Brelse(from);
    cache.Brelse(to);
    UsedAlike(was, cache.bufs[..], to, from);
    got := true;
  }

  lemma UsedAlike(a: seq<Buf>, b: seq<Buf>, to: nat, from: nat)
    requires |a| == |b| && to < |a| && from < |a| && b[to].refcnt == a[to].refcnt && b[from].refcnt == a[from].refcnt
    requires a[to].refcnt > 0 ==> b[to].key == a[to].key
    requires b[from].key == a[from].key && forall i :: 0 <= i < |a| && i != to && i != from ==> b[i] == a[i]
    ensures SameUse(a, b)
  {
  }

  /** Both buffers of a round: the log block's, cached or recycled, and the one the home block has in use. */
  method Fetch(cache: Cache, slot: Key, home: Key, ghost keys: seq<Key>) returns (to: int, from: int)
    requires cache.Valid() && slot.dev != 0 && home.dev != 0 && slot in cache.disk && home in cache.disk
    requires Held(cache.bufs[..], keys) && home in keys && slot !in keys
    modifies cache.bufs
    ensures cache.Valid() && forall k :: k in cache.disk ==> cache.Contents(k) == old(cache.Contents(k))
    ensures to >= 0 <==> old(SomeUnused(cache.bufs[..])) || old(Cached(cache.bufs[..], slot))
    ensures to >= 0 ==> to < NBUF && 0 <= from < NBUF && from != to
    ensures to >= 0 ==> cache.bufs[to].key == slot && cache.bufs[to].refcnt > 0 && cache.bufs[to].valid
    ensures to >= 0 ==> cache.bufs[from].valid && cache.bufs[from].data == old(cache.Contents(home))
    ensures to >= 0 ==> cache.bufs[to].refcnt == old(cache.bufs[to]).refcnt + 1 && old(cache.bufs[from]).refcnt > 0
    ensures to >= 0 && old(cache.bufs[to]).refcnt > 0 ==> old(cache.bufs[to]).key == slot
    ensures to >= 0 ==> cache.bufs[from].refcnt == old(cache.bufs[from]).refcnt + 1
    ensures to >= 0 ==> cache.bufs[from].key == old(cache.bufs[from]).key
    ensures to >= 0 ==> forall i :: 0 <= i < NBUF && i != to && i != from ==> cache.bufs[i] == old(cache.bufs[i])
  {
    hide Ring, ByAge, Unique, Latest, Held, SomeUnused, Cached;
    from := -1;
    ghost var was := cache.bufs[..];
    ghost var at := HomeHeld(was, home, keys);
    NoneUnused(was);
    assert forall i :: 0 <= i < NBUF ==> was[i] == cache.bufs[i];
    to := cache.Bread(slot);
    if to < 0 {
      return;
    }
    CachedAt(was, slot);
    ghost var mid := cache.bufs[..];
    assert Holds(mid, at, home);
    HeldIsCached(mid, at, home);
    from := cache.Bread(home);
    OneHolder(mid, at, from);
  }

  lemma NoneUnused(bufs: seq<Buf>)
    ensures !SomeUnused(bufs) <==> forall i :: 0 <= i < |bufs| ==> bufs[i].refcnt > 0
  {
  }

  lemma HeldIsCached(bufs: seq<Buf>, i: nat, key: Key)
    requires Holds(bufs, i, key)
    ensures Cached(bufs, key)
  {
  }

  lemma CachedAt(bufs: seq<Buf>, key: Key)
    ensures Cached(bufs, key) <==> exists i :: Holds(bufs, i, key)
  {
  }

  lemma OneHolder(bufs: seq<Buf>, i: nat, j: nat)
    requires Unique(bufs) && i < |bufs| && j < |bufs| && bufs[i].key == bufs[j].key && bufs[i].key.dev != 0
    ensures i == j
  {
  }

  lemma SlotUnused(bufs: seq<Buf>, slot: Key, keys: seq<Key>)
    requires Pinned(bufs, keys) && slot !in keys
    ensures forall i :: Holds(bufs, i, slot) ==> bufs[i].refcnt <= 0
  {
  }

  lemma HomeHeld(bufs: seq<Buf>, home: Key, keys: seq<Key>) returns (i: nat)
    requires Held(bufs, keys) && home in keys
    ensures Holds(bufs, i, home) && bufs[i].refcnt > 0
  {
    i :| Holds(bufs, i, home) && bufs[i].refcnt > 0;
  }

  // ---- a full log ----

  /** What log_write leaves in the cache for each block of an operation: read, pinned and released again. */
  method PinAll(cache: Cache, dev: nat, targets: seq<nat>)
    requires cache.Valid() && dev != 0 && Distinct(targets) && |targets| <= NBUF
    requires forall i :: 0 <= i < NBUF ==> cache.bufs[i].refcnt == 0
    requires forall i :: 0 <= i < |targets| ==> Key(dev, targets[i]) in cache.disk
    modifies cache, cache.bufs, cache.prev, cache.next
    ensures cache.Valid() && cache.disk == old(cache.disk) && Pinned(cache.bufs[..], LogKeys(dev, targets))
  {
    hide Ring, ByAge, Unique, Latest, Pinned, LogKeys;
    ghost var keys := LogKeys(dev, targets);
    KeysDiffer(dev, targets);
    NothingPinned(cache.bufs[..], keys);
    var n := 0;
    while n < |targets|
      invariant 0 <= n <= |targets| && cache.Valid() && cache.disk == old(cache.disk) && Pinned(cache.bufs[..], keys[..n])
    {
      Counted(cache, keys[..n]);
      PinOne(cache, Key(dev, targets[n]), keys[..n]);
      assert keys[..n + 1] == keys[..n] + [keys[n]];
      n := n + 1;
    }
    assert keys[..n] == keys;
  }

  method PinOne(cache: Cache, key: Key, ghost keys: seq<Key>)
    requires cache.Valid() && key.dev != 0 && key in cache.disk && key !in keys && Pinned(cache.bufs[..], keys)
    requires !(forall i :: 0 <= i < NBUF ==> cache.bufs[..][i].refcnt > 0)
    modifies cache, cache.bufs, cache.prev, cache.next
    ensures cache.Valid() && cache.disk == old(cache.disk) && Pinned(cache.bufs[..], keys + [key])
  {
    hide Ring, ByAge, Unique, Latest, Pinned;
    ghost var was := cache.bufs[..];
    SlotUnused(was, key, keys);
    assert forall i :: 0 <= i < NBUF ==> was[i] == cache.bufs[i];
    var b := cache.Bread(key);
    assert Holds(was, b, key) || was[b].refcnt == 0;
    cache.Bpin(b);
    cache.Brelse(b);
    PinsMore(was, cache.bufs[..], b, keys, key);
  }

  lemma NothingPinned(bufs: seq<Buf>, keys: seq<Key>)
    requires forall i :: 0 <= i < |bufs| ==> bufs[i].refcnt == 0
    ensures Pinned(bufs, keys[..0])
  {
  }

  lemma PinsMore(bufs: seq<Buf>, bufs': seq<Buf>, b: nat, keys: seq<Key>, key: Key)
    requires Pinned(bufs, keys) && |bufs'| == |bufs| && b < |bufs| && bufs[b].refcnt <= 0
    requires bufs'[b].key == key && bufs'[b].refcnt > 0
    requires forall i :: 0 <= i < |bufs| && i != b ==> bufs'[i] == bufs[i]
    ensures Pinned(bufs', keys + [key])
  {
    forall t | t in keys + [key] ensures exists i :: Holds(bufs', i, t) && bufs'[i].refcnt > 0 {
      if t == key {
        assert Holds(bufs', b, t);
      } else {
        var i :| Holds(bufs, i, t) && bufs[i].refcnt > 0;
        assert Holds(bufs', i, t);
      }
    }
  }

  /** When only the log uses buffers, its commit gets what it needs exactly if it holds fewer blocks than there are buffers. */
  lemma OnlyTheLog(bufs: seq<Buf>, dev: nat, start: nat, targets: seq<nat>)
    requires Unique(bufs) && |bufs| == NBUF && Pinned(bufs, LogKeys(dev, targets)) && Distinct(targets) && targets != []
    requires forall i :: 0 <= i < |targets| ==> !(start < targets[i] <= start + |targets|)
    ensures Held(bufs, LogKeys(dev, targets))
    ensures SomeUnused(bufs) || SlotsCached(bufs, dev, start, |targets|) <==> |targets| < NBUF
  {
    var keys := LogKeys(dev, targets);
    KeysDiffer(dev, targets);
    AllPinned(bufs, keys);
    NoneUnused(bufs);
    if !SomeUnused(bufs) {
      var slot := SlotKey(dev, start, 0);
      assert slot !in keys;
      forall i ensures !Holds(bufs, i, slot) {
        assert 0 <= i < |bufs| ==> bufs[i].key in keys;
      }
    }
  }

  /** Thirty blocks are logged: the commit cannot get a buffer for its first log block. */
  method FullLogCannotCommit(disk: map<Key, Block>, dev: nat, start: nat, targets: seq<nat>) returns (ok: bool)
    requires dev != 0 && |targets| == NBUF && Distinct(targets) && OnDisk(disk, dev, start, targets)
    ensures !ok
  {
    hide Ring, ByAge, Unique, Latest, Pinned, LogKeys, Held, SomeUnused, SlotsCached;
    var cache := new Cache(disk);
    PinAll(cache, dev, targets);
    OnlyTheLog(cache.bufs[..], dev, start, targets);
    ok := WriteLog(cache, dev, start, targets);
  }
}
