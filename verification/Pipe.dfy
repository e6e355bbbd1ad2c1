/**
 pipe.c: a ring of PIPESIZE bytes indexed by two 32-bit counters that are never reset and wrap.

 A process holds the pipe's lock from one sleep to the next, so each method below is one such
 stretch; a call that ends in `Sleep` is resumed later with the remaining bytes, and any number of
 readers and writers may run in between.  `sent` and `received` record all traffic so far.
 */
module Pipe {
  import opened Common

  const PIPESIZE: nat := 512
  const WRAP: nat := 0x1_0000_0000

  /** Why a stretch under the lock ended. */
  datatype Outcome = Done | Sleep | Refused | Fault

  /** A total byte count as the 32-bit counter holds it. */
  function Counter(total: nat): (c: nat)
  {
    total % WRAP
  }

  /** The ring slot a counter selects. */
  function Slot(counter: nat): (i: nat)
    ensures i < PIPESIZE
  {
    counter % PIPESIZE
  }

  /** C's nwrite == nread + PIPESIZE on unsigned 32-bit counters. */
  predicate FullTest(nread: nat, nwrite: nat)
  {
    nwrite == Counter(nread + PIPESIZE)
  }

  /** Counters that wrap still select the right ring slot, because the ring size divides 2^32. */
  lemma SlotSurvivesWrap(total: nat)
    ensures Slot(Counter(total)) == Slot(total)
    ensures Counter(Counter(total) + 1) == Counter(total + 1)
  {
    var q := total / WRAP;
    assert total == (q * (WRAP / PIPESIZE)) * PIPESIZE + total % WRAP;
  }

  /** With at most PIPESIZE bytes in flight the wrapped counters tell full and empty apart exactly. */
  lemma CountersDecide(r: nat, w: nat)
    requires r <= w <= r + PIPESIZE
    ensures FullTest(Counter(r), Counter(w)) <==> w == r + PIPESIZE
    ensures Counter(r) == Counter(w) <==> r == w
    ensures (Counter(w) - Counter(r)) % WRAP == w - r
  {
  }

  /** Bytes in flight occupy distinct slots. */
  lemma SlotsDistinct(i: nat, j: nat)
    requires i < j < i + PIPESIZE
    ensures Slot(i) != Slot(j)
  {
  }

  class Ring {
    const data: array<byte>
    var nread: nat
    var nwrite: nat
    var readopen: bool
    var writeopen: bool
    ghost var sent: seq<byte>
    ghost var received: seq<byte>

    ghost predicate Valid()
      reads this, data
    {
      && data.Length == PIPESIZE
      && received <= sent
      && |sent| - |received| <= PIPESIZE
      && nread == Counter(|received|)
      && nwrite == Counter(|sent|)
      && forall k :: |received| <= k < |sent| ==> data[Slot(k)] == sent[k]
    }

    constructor ()
      ensures Valid() && sent == [] && received == [] && readopen && writeopen
      ensures fresh(data)
    {
      data := new byte[PIPESIZE](i => 0);
      nread, nwrite, readopen, writeopen := 0, 0, true, true;
      sent, received := [], [];
    }

    /** One byte into the ring: pi->data[pi->nwrite++ % PIPESIZE] = ch. */
    method Put(ch: byte)
      requires Valid() && !FullTest(nread, nwrite)
      modifies this`nwrite, this`sent, data
      ensures Valid() && sent == old(sent) + [ch]
    {
      hide Slot, Counter, FullTest;
      CountersDecide(|received|, |sent|);
      SlotSurvivesWrap(|sent|);
      forall k | |received| <= k < |sent| ensures Slot(k) != Slot(nwrite) {
        SlotsDistinct(k, |sent|);
      }
      data[Slot(nwrite)] := ch;
      nwrite := Counter(nwrite + 1);
      sent := sent + [ch];
    }

    /** Fetch the oldest byte, and consume it only if it reached the reader. */
    method Get(lands: bool) returns (ch: byte)
      requires Valid() && |received| < |sent|
      modifies this`nread, this`received
      ensures Valid()
      ensures ch == sent[|old(received)|]
      ensures received == if lands then old(received) + [ch] else old(received)
    {
      hide Slot, Counter;
      SlotSurvivesWrap(|received|);
      ch := data[Slot(nread)];
      if lands {
        nread := Counter(nread + 1);
        received := received + [ch];
      }
    }

    /** The bytes still in the ring, oldest first. */
    ghost function InFlight(): (s: seq<byte>)
      requires Valid()
      reads this, data
    {
      sent[|received|..]
    }

    /**
     pipewrite from byte `start` on, up to the next sleep or return; `src[i]` is None where copyin fails,
     and `killed[i]` is what killed(pr) says on the turn for byte i.
     */
    method Write(src: seq<Option<byte>>, start: nat, killed: seq<bool>) returns (i: nat, why: Outcome)
      requires Valid() && start <= |src| == |killed|
      modifies this`nwrite, this`sent, data
      ensures Valid()
      ensures start <= i <= |src| && forall k :: start <= k < i ==> src[k].Some? && !killed[k]
      ensures sent == old(sent) + Bytes(src[start..i]) && (i > start ==> readopen)
      ensures why == Done <==> i == |src|
      ensures why == Refused <==> i < |src| && (!readopen || killed[i])
      ensures why == Sleep <==> i < |src| && readopen && !killed[i] && |InFlight()| == PIPESIZE
      ensures why == Fault <==> i < |src| && readopen && !killed[i] && |InFlight()| < PIPESIZE && src[i].None?
    {
      i := start;
      while i < |src|
        invariant Valid() && start <= i <= |src| && forall k :: start <= k < i ==> src[k].Some? && !killed[k]
        invariant sent == old(sent) + Bytes(src[start..i])
        invariant i > start ==> readopen
      {
        if !readopen || killed[i] {
          return i, Refused;
        }
        CountersDecide(|received|, |sent|);
        if FullTest(nread, nwrite) {
          return i, Sleep;
        }
        if src[i].None? {
          return i, Fault;
        }
        Put(src[i].value);
        assert src[start..i + 1] == src[start..i] + [src[i]];
        i := i + 1;
      }
      why := Done;
    }

    /** piperead of up to n bytes; `lands[k]` says whether copyout of the k-th byte succeeds. */
    method Read(lands: seq<bool>, killed: bool) returns (got: seq<byte>, why: Outcome)
      requires Valid()
      modifies this`nread, this`received
      ensures Valid()
      ensures received == old(received) + got
      ensures |got| <= |lands| && forall k :: 0 <= k < |got| ==> lands[k]
      ensures why == Sleep <==> old(InFlight()) == [] && writeopen && !killed
      ensures why == Refused <==> old(InFlight()) == [] && writeopen && killed
      ensures why == Fault <==> |got| < |lands| && !lands[|got|] && InFlight() != []
      ensures why == Done ==> |got| == |lands| || InFlight() == []
    {
      got := [];
      CountersDecide(|received|, |sent|);
      if nread == nwrite && writeopen {
        why := if killed then Refused else Sleep;
        return;
      }
      var i := 0;
      while i < |lands|
        invariant Valid() && |got| == i <= |lands|
        invariant received == old(received) + got
        invariant forall k :: 0 <= k < i ==> lands[k]
      {
        CountersDecide(|received|, |sent|);
        if nread == nwrite {
          break;
        }
        var ch := Get(lands[i]);
        if !lands[i] {
          return got, Fault;
        }
        got := got + [ch];
        i := i + 1;
      }
      why := Done;
    }

    /** Close one end; true when both are closed and the buffer is to be freed. */
    method Close(writable: bool) returns (last: bool)
      requires Valid()
      modifies this`readopen, this`writeopen
      ensures Valid()
      ensures readopen == (old(readopen) && writable) && writeopen == (old(writeopen) && !writable)
      ensures last <==> !readopen && !writeopen
    {
      if writable {
        writeopen := false;
      } else {
        readopen := false;
      }
      last := !readopen && !writeopen;
    }
  }

  ghost function Bytes(src: seq<Option<byte>>): (s: seq<byte>)
    requires forall k :: 0 <= k < |src| ==> src[k].Some?
    ensures |s| == |src| && forall k :: 0 <= k < |s| ==> s[k] == src[k].value
  {
    seq(|src|, k requires 0 <= k < |src| => src[k].value)
  }
}
