/** The mixed list: a doubly linked chain of 64-slot nodes, indexed from the
    nearer end, against one flat sequence of slots. */
module Collection {
  import opened Bytes

  const UNIT_LEN := 64
  const SIZE_MAX := 0x1_0000_0000_0000_0000

  class Node<T> {
    const data: array<T>
    var prev: Node?<T>
    var next: Node?<T>

    constructor (data: array<T>)
      requires data.Length == UNIT_LEN
      ensures this.data == data && prev == null && next == null
    {
      this.data := data;
      prev, next := null, null;
    }
  }

  /** The address of a slot. */
  datatype Slot<T> = Slot(node: Node<T>, offset: nat)

  /** What indexing yields: an address, no address, or the use of a null node,
      which is undefined behaviour in the source. */
  datatype Access<T> = NoSlot | At(slot: Slot<T>) | NullNode

  // ---- arithmetic of the walks ----

  /** `index > list->count - 1` with the subtraction in `size_t`. */
  predicate Rejected(count: nat, index: uint32)
    requires count < SIZE_MAX
  {
    index > (if count == 0 then SIZE_MAX - 1 else count - 1)
  }

  /** The bounds test rejects exactly the indices past the end, provided the
      list is not empty; on an empty list it rejects nothing. */
  lemma BoundsTestExact(count: nat)
    requires count < SIZE_MAX
    ensures (forall index: uint32 :: Rejected(count, index) <==> index >= count) <==> count > 0
  {
    assert !Rejected(0, 0);
  }

  predicate WalksForward(count: nat, index: uint32)
    requires count > 0
  {
    index < (count - 1) / 2
  }

  /** Hops of the loop, truncated to `uint` as in the source. */
  function Hops(count: nat, index: uint32): nat
    requires index < count
  {
    if WalksForward(count, index) then index / UNIT_LEN
    else (count - 1 - index) / UNIT_LEN % 0x1_0000_0000
  }

  /** The chain position the walk ends at. */
  function Reached(count: nat, index: uint32): int
    requires index < count
  {
    if WalksForward(count, index) then Hops(count, index)
    else (count - 1) / UNIT_LEN - Hops(count, index)
  }

  /** A backward walk never has enough hops for the truncation to matter. */
  lemma HopsNotTruncated(count: nat, index: uint32)
    requires index < count && !WalksForward(count, index)
    ensures Hops(count, index) == (count - 1 - index) / UNIT_LEN
  {
    assert count - 1 - index <= index + 1;
  }

  /** Neither walk leaves the chain, and it makes at most half the hops. */
  lemma WalkBounded(count: nat, index: uint32)
    requires index < count
    ensures 0 <= Reached(count, index) <= (count - 1) / UNIT_LEN
    ensures Hops(count, index) <= count / 2 / UNIT_LEN
  {
    if !WalksForward(count, index) {
      HopsNotTruncated(count, index);
    }
  }

  /** A backward walk ends at the node holding `index` if and only if the slot
      number is at most that of the last element; otherwise it stops exactly
      one node too far toward the tail. */
  lemma BackwardExact(count: nat, index: uint32)
    requires index < count && !WalksForward(count, index)
    ensures Reached(count, index) == index / UNIT_LEN <==> index % UNIT_LEN <= (count - 1) % UNIT_LEN
    ensures index % UNIT_LEN > (count - 1) % UNIT_LEN ==> Reached(count, index) == index / UNIT_LEN + 1
  {
    HopsNotTruncated(count, index);
    DivideDifference(count - 1, index);
  }

  lemma DivideDifference(a: nat, b: nat)
    requires b <= a
    ensures (a - b) / UNIT_LEN == a / UNIT_LEN - b / UNIT_LEN - if b % UNIT_LEN <= a % UNIT_LEN then 0 else 1
  {
    var d := a / UNIT_LEN - b / UNIT_LEN;
    var r := a % UNIT_LEN - b % UNIT_LEN;
    assert a - b == UNIT_LEN * d + r;
    assert -UNIT_LEN < r < UNIT_LEN;
  }

  /** The flat position of the slot returned for `index`. */
  function Position(count: nat, index: uint32): nat
    requires index < count
  {
    WalkBounded(count, index);
    Reached(count, index) * UNIT_LEN + index % UNIT_LEN
  }

  /** Forward walks are always exact; backward walks are exact or 64 slots off. */
  predicate Exact(count: nat, index: uint32)
    requires index < count
  {
    WalksForward(count, index) || index % UNIT_LEN <= (count - 1) % UNIT_LEN
  }

  /** In numbers: an index that walks from the tail and whose slot number exceeds
      that of the last element ends 64 places on, every other at its own place. */
  lemma PositionExact(count: nat, index: uint32)
    requires index < count
    ensures Position(count, index) == if index >= (count - 1) / 2 && index % 64 > (count - 1) % 64 then index + 64 else index
    ensures Position(count, index) == if Exact(count, index) then index else index + UNIT_LEN
    ensures Position(count, index) < UNIT_LEN * ((count - 1) / UNIT_LEN + 1)
  {
    WalkBounded(count, index);
    if !WalksForward(count, index) {
      BackwardExact(count, index);
    }
  }

  /** Every index reaches its own slot if and only if the list fits one node,
      its last node is full, or it is so long that no 32-bit index walks
      backward. */
  lemma AllExact(count: nat)
    requires 0 < count < SIZE_MAX
    ensures (forall index: uint32 :: index < count ==> Position(count, index) == index)
            <==> count <= UNIT_LEN || count % UNIT_LEN == 0 || count > 0x2_0000_0000
  {
    hide Position, Exact;
    forall index: uint32 | index < count
      ensures Position(count, index) == index <==> Exact(count, index)
    {
      PositionExact(count, index);
    }
    if count <= UNIT_LEN || count % UNIT_LEN == 0 || count > 0x2_0000_0000 {
      forall index: uint32 | index < count
        ensures Exact(count, index)
      {
        SlotWithin(count, index);
      }
    } else {
      InexactThere(count);
    }
  }

  lemma SlotWithin(count: nat, index: uint32)
    requires index < count && (count <= UNIT_LEN || count % UNIT_LEN == 0 || count > 0x2_0000_0000)
    ensures Exact(count, index)
  {
    if count <= UNIT_LEN {
      assert index % UNIT_LEN == index && (count - 1) % UNIT_LEN == count - 1;
    } else if count % UNIT_LEN == 0 {
      assert count == UNIT_LEN * (count / UNIT_LEN - 1) + UNIT_LEN;
    }
  }

  /** The last slot of the last full node, or the last index there is. */
  function Inexact(count: nat): (index: uint32)
    requires UNIT_LEN < count <= 0x2_0000_0000
    ensures index < count
  {
    if count <= 0x1_0000_0000 then UNIT_LEN * ((count - 1) / UNIT_LEN) - 1 else 0xFFFF_FFFF
  }

  lemma InexactThere(count: nat)
    requires UNIT_LEN < count <= 0x2_0000_0000 && count % UNIT_LEN != 0
    ensures !Exact(count, Inexact(count))
  {
    var q, r := (count - 1) / UNIT_LEN, (count - 1) % UNIT_LEN;
    assert count - 1 == UNIT_LEN * q + r;
    assert count % UNIT_LEN == if r == UNIT_LEN - 1 then 0 else r + 1;
    var before := if count <= 0x1_0000_0000 then q - 1 else 0x3FF_FFFF;
    assert Inexact(count) == UNIT_LEN * before + (UNIT_LEN - 1);
    assert Inexact(count) % UNIT_LEN == UNIT_LEN - 1;
    assert !WalksForward(count, Inexact(count));
  }

  /** Distinct indices reach distinct slots in every list, even where they do
      not reach their own. */
  lemma PositionInjective(count: nat, i: uint32, j: uint32)
    requires i < count && j < count && i != j
    ensures Position(count, i) != Position(count, j)
  {
    hide Position, Exact;
    PositionExact(count, i);
    PositionExact(count, j);
    NextNode(i);
    NextNode(j);
  }

  lemma NextNode(index: nat)
    ensures (index + 64) % 64 == index % 64
  {
  }

  lemma SlotNumbers(index: nat, onward: nat)
    ensures 64 * (index / 64 + onward) + index % 64 == index + 64 * onward
  {
  }

  lemma SlotOf(k: nat, i: nat, offset: nat)
    requires offset < UNIT_LEN
    ensures k == 64 * i + offset <==> k / UNIT_LEN == i && k % UNIT_LEN == offset
  {
    assert k == UNIT_LEN * (k / UNIT_LEN) + k % UNIT_LEN;
  }

  // ---- the list ----

  class MixedList<T> {
    var count: nat
    var head: Node?<T>
    var tail: Node?<T>
    ghost var nodes: seq<Node<T>>

    /** Just enough nodes for `count` elements, linked both ways, sharing
        neither nodes nor slots. */
    ghost predicate Valid()
      reads this, nodes
    {
      && count < SIZE_MAX
      && (count == 0 ==> nodes == [] && head == null && tail == null)
      && (count > 0 ==>
            && |nodes| == (count - 1) / UNIT_LEN + 1
            && head == nodes[0] && tail == nodes[|nodes| - 1])
      && (forall i :: 0 <= i < |nodes| ==> nodes[i].data.Length == UNIT_LEN)
      && (forall i :: 0 <= i < |nodes| - 1 ==> nodes[i].next == nodes[i + 1])
      && (forall i :: 1 <= i < |nodes| ==> nodes[i].prev == nodes[i - 1])
      && (forall i, j :: 0 <= i < j < |nodes| ==> nodes[i] != nodes[j] && nodes[i].data != nodes[j].data)
    }

    ghost function Arrays(): set<object>
      reads this
    {
      set i | 0 <= i < |nodes| :: nodes[i].data
    }

    /** All slots of the chain in order, the unused ones of the last node
        included. */
    ghost function Slots(): (s: seq<T>)
      requires Valid()
      reads this, nodes, Arrays()
      ensures |s| == UNIT_LEN * |nodes| && |s| >= count
    {
      seq(UNIT_LEN * |nodes|, k requires 0 <= k < UNIT_LEN * |nodes| && Valid() reads this, nodes, Arrays() =>
        nodes[k / UNIT_LEN].data[k % UNIT_LEN])
    }

    /** Returns the address of a slot, and none for a null list or an index past
        the end; but an empty list passes the bounds test and ends at its null
        head. */
    static method Index(list: MixedList?<T>, index: uint32) returns (access: Access<T>)
      requires list != null ==> list.Valid()
      ensures list == null ==> access == NoSlot
      ensures list != null && list.count == 0 ==> access == NullNode
      ensures list != null && 0 < list.count <= index ==> access == NoSlot
      ensures list != null && index < list.count ==>
                var onward := if index >= (list.count - 1) / 2 && index % 64 > (list.count - 1) % 64 then 1 else 0;
                && index / 64 + onward < |list.nodes|
                && access == At(Slot(list.nodes[index / 64 + onward], index % 64))
    {
      if list == null {
        return NoSlot;
      }
      var count := list.count;
      var last := if count == 0 then SIZE_MAX - 1 else count - 1;
      if index > last {
        return NoSlot;
      }
      var ptr: Node?<T>;
      if index < last / 2 {
        var unitSeq := index / UNIT_LEN;
        ptr := list.head;
        if ptr == null {
          return NullNode;
        }
        WalkBounded(count, index);
        for i := 0 to unitSeq
          invariant ptr == list.nodes[i]
        {
          ptr := ptr.next;
        }
      } else {
        WalkBounded(count, index);
        BackwardExact(count, index);
        var unitSeq := (last - index) / UNIT_LEN % 0x1_0000_0000;
        ptr := list.tail;
        for i := 0 to unitSeq
          invariant ptr == list.nodes[|list.nodes| - 1 - i]
        {
          ptr := ptr.prev;
        }
      }
      return At(Slot(ptr, index % UNIT_LEN));
    }

    /** Reads through the address; a null address would be dereferenced. */
    method Get(index: uint32) returns (x: T)
      requires Valid() && index < count
      ensures Position(count, index) < |Slots()| && x == Slots()[Position(count, index)]
      ensures x == Slots()[if index >= (count - 1) / 2 && index % 64 > (count - 1) % 64 then index + 64 else index]
    {
      hide Exact, Position, Valid, Slots;
      PositionExact(count, index);
      var access := Index(this, index);
      ghost var onward := if index >= (count - 1) / 2 && index % 64 > (count - 1) % 64 then 1 else 0;
      SlotNumbers(index, onward);
      x := Fetch(access.slot, index / 64 + onward);
    }

    method Fetch(slot: Slot<T>, ghost i: nat) returns (x: T)
      requires Valid() && i < |nodes| && slot.node == nodes[i] && slot.offset < 64
      ensures 64 * i + slot.offset < |Slots()| && x == Slots()[64 * i + slot.offset]
    {
      SlotOf(64 * i + slot.offset, i, slot.offset);
      x := slot.node.data[slot.offset];
    }

    /** Writing through a returned address changes exactly one slot: the one of
        that index if the walk is exact, and otherwise one 64 places on, which
        may lie past the end. */
    method WriteThroughIndex(index: uint32, x: T)
      requires Valid() && index < count
      modifies Arrays()
      ensures Valid() && count == old(count) && nodes == old(nodes)
      ensures var reached := if index >= (count - 1) / 2 && index % 64 > (count - 1) % 64 then index + 64 else index;
              reached < |old(Slots())| && Slots() == old(Slots())[reached := x]
    {
      hide Valid;
      var access := Index(this, index);
      ghost var onward := if index >= (count - 1) / 2 && index % 64 > (count - 1) % 64 then 1 else 0;
      SlotNumbers(index, onward);
      Assign(access.slot, index / 64 + onward, x);
    }

    /** A slot of node `i` of the chain is the flat slot at 64 times `i` plus its
        offset. */
    method Assign(slot: Slot<T>, ghost i: nat, x: T)
      requires Valid() && i < |nodes| && slot.node == nodes[i] && slot.offset < 64
      modifies Arrays()
      ensures Valid() && count == old(count) && nodes == old(nodes)
      ensures 64 * i + slot.offset < |old(Slots())| && Slots() == old(Slots())[64 * i + slot.offset := x]
    {
      slot.node.data[slot.offset] := x;
      forall k | 0 <= k < UNIT_LEN * |nodes|
        ensures Slots()[k] == if k == 64 * i + slot.offset then x else old(Slots())[k]
      {
        SlotOf(k, i, slot.offset);
        if k / UNIT_LEN != i {
          assert nodes[k / UNIT_LEN].data != slot.node.data;
        }
      }
    }
  }
}
