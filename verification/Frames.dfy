/** kalloc's list of free frames, threaded through the free pages themselves. */
module Frames {
  import opened Common
  import opened Sv39

  /** One past the last frame: PHYSTOP / PGSIZE. */
  const PHYS_FRAMES: nat := 0x8_8000

  datatype Slot = NoSlot | Slot(frame: nat, i: nat)

  /** How mapping a run of pages ends; Remap is the panic. */
  datatype Mapping = Mapped | NoFrame | Remap

  /** A page with every byte set to b. */
  function Filled(b: nat): (page: seq<nat>)
    ensures |page| == 512 && forall i :: 0 <= i < 512 ==> page[i] == b * 0x0101_0101_0101_0101
  {
    seq(512, _ => b * 0x0101_0101_0101_0101)
  }

  function AddressAt(free: seq<nat>, i: nat): nat
  {
    if i < |free| then free[i] * PGSIZE else 0
  }

  /** The listed frames are exactly the free ones, once each. */
  ghost predicate Lists(owner: map<nat, Owner>, free: seq<nat>)
  {
    && Distinct(free)
    && (forall f :: f in owner ==> 0 < f && (owner[f] == Free <==> f in free))
    && (forall i :: 0 <= i < |free| ==> free[i] in owner)
  }

  /** The list runs through the first words of the free pages. */
  ghost predicate Threaded(mem: map<nat, seq<nat>>, free: seq<nat>, head: nat)
  {
    && head == AddressAt(free, 0)
    && (forall i :: 0 <= i < |free| ==>
      free[i] in mem && |mem[free[i]]| == 512 && mem[free[i]][0] == AddressAt(free, i + 1))
  }

  ghost predicate FreeList(mem: map<nat, seq<nat>>, owner: map<nat, Owner>, free: seq<nat>, head: nat)
  {
    Lists(owner, free) && Threaded(mem, free, head)
  }

  lemma PopLists(owner: map<nat, Owner>, free: seq<nat>)
    requires Lists(owner, free) && free != []
    ensures free[0] in owner && 0 < free[0] && owner[free[0]] == Free && free[0] !in free[1..]
    ensures Lists(owner[free[0] := Held], free[1..])
  {
    assert free == [free[0]] + free[1..];
  }

  lemma PopThreaded(mem: map<nat, seq<nat>>, free: seq<nat>, head: nat, page: seq<nat>)
    requires Threaded(mem, free, head) && free != [] && free[0] !in free[1..]
    ensures head == free[0] * PGSIZE && free[0] in mem && |mem[free[0]]| == 512
    ensures Threaded(mem[free[0] := page], free[1..], mem[free[0]][0])
  {
    assert forall i :: 0 <= i < |free| ==> AddressAt(free[1..], i) == AddressAt(free, i + 1);
  }

  lemma PopFree(mem: map<nat, seq<nat>>, owner: map<nat, Owner>, free: seq<nat>, head: nat, page: seq<nat>)
    requires FreeList(mem, owner, free, head) && free != []
    ensures head == free[0] * PGSIZE && head != 0 && free[0] in owner && owner[free[0]] == Free && free[0] in mem
    ensures |mem[free[0]]| == 512
    ensures FreeList(mem[free[0] := page], owner[free[0] := Held], free[1..], mem[free[0]][0])
  {
    hide Lists, Threaded;
    PopLists(owner, free);
    PopThreaded(mem, free, head, page);
  }

  lemma PushFree(mem: map<nat, seq<nat>>, owner: map<nat, Owner>, free: seq<nat>, head: nat, f: nat, page: seq<nat>)
    requires FreeList(mem, owner, free, head) && f in owner && owner[f] != Free && |page| == 512 && page[0] == head
    ensures FreeList(mem[f := page], owner[f := Free], [f] + free, f * PGSIZE)
  {
    var free' := [f] + free;
    assert forall i :: 0 <= i <= |free| ==> AddressAt(free', i + 1) == AddressAt(free, i);
    assert f !in free;
  }

  /** Stores outside the free pages and changes of owner among non-free ones leave the list alone. */
  lemma KeepFree(mem: map<nat, seq<nat>>, owner: map<nat, Owner>, free: seq<nat>, head: nat,
                 mem': map<nat, seq<nat>>, owner': map<nat, Owner>)
    requires FreeList(mem, owner, free, head) && owner'.Keys == owner.Keys
    requires forall f :: f in owner ==> (owner'[f] == Free <==> owner[f] == Free)
    requires forall f :: f in owner && owner[f] == Free ==> f in mem' && f in mem && mem'[f] == mem[f]
    ensures FreeList(mem', owner', free, head)
  {
    forall i | 0 <= i < |free| ensures free[i] in owner && owner[free[i]] == Free {
      assert free[i] in free;
    }
  }

  lemma NullWhenEmpty(mem: map<nat, seq<nat>>, owner: map<nat, Owner>, free: seq<nat>, head: nat)
    requires FreeList(mem, owner, free, head)
    ensures head == 0 <==> free == []
  {
  }
}
