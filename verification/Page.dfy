/** Cache pages, and the pool of pages the engine pre-allocates. */
module Pages {
  import opened Posix
  import opened Overlay
  import opened Slots

  class Page {
    const nrSlots: nat
    const data: array<Byte>
    var owner: Option<Inode>
    var isDirty: bool
    var freeBlockIndexes: seq<nat>
    var allocatedBlocks: BlockOffsets

    ghost function State(): PageState
      reads this, data
    {
      PageState(owner, isDirty, data[..], freeBlockIndexes, allocatedBlocks)
    }

    ghost predicate Valid()
      reads this, data
    {
      SlotInv(nrSlots, State())
    }

    /** A page of `n` blocks; the configuration makes the page size a multiple of B. */
    constructor (n: nat)
      ensures Valid() && fresh(data) && nrSlots == n
      ensures State() == Blank(n, None)
    {
      nrSlots := n;
      data := new Byte[Start(n)](_ => 0);
      owner, isDirty := None, false;
      freeBlockIndexes := AllSlots(n);
      allocatedBlocks := BlockOffsets(map[], map[]);
      new;
      assert data[..] == Zeros(Start(n));
      BlankSlots(n, None);
    }

    predicate ContainsBlock(b: nat)
      reads this
    {
      b in allocatedBlocks.slots
    }

    predicate HasFreeSpace()
      reads this
    {
      freeBlockIndexes != []
    }

    method ChangeOwner(newOwner: Option<Inode>)
      requires Valid()
      modifies this`owner
      ensures Valid() && State() == old(State()).(owner := newOwner)
    {
      owner := newOwner;
    }

    method SetPageAsDirty(dirty: bool)
      requires Valid()
      modifies this`isDirty
      ensures Valid() && State() == old(State()).(dirty := dirty)
    {
      isDirty := dirty;
    }

    /** Clears the slots; the owner stays. */
    method Reset()
      requires Valid()
      modifies this, data
      ensures Valid() && State() == Blank(nrSlots, old(owner))
    {
      freeBlockIndexes := AllSlots(nrSlots);
      allocatedBlocks := BlockOffsets(map[], map[]);
      isDirty := false;
      forall i | 0 <= i < data.Length { data[i] := 0; }
      assert data[..] == Zeros(Start(nrSlots));
      BlankSlots(nrSlots, owner);
    }

    /** Gives the block the last free slot, or nothing when the page is full. */
    method GetAllocateFreeOffset(b: nat) returns (offset: Option<nat>)
      requires Valid() && !ContainsBlock(b)
      modifies this
      ensures Valid()
      ensures old(freeBlockIndexes) == [] ==> offset == None && State() == old(State())
      ensures old(freeBlockIndexes) != [] ==>
                && offset == Some(old(freeBlockIndexes)[|old(freeBlockIndexes)| - 1])
                && State() == Allocated(old(State()), b) && allocatedBlocks.readable[b] == -1
                && forall c | c in old(allocatedBlocks.slots) :: SameBlock(old(State()), State(), c)
    {
      if freeBlockIndexes == [] {
        return None;
      }
      AllocateSlot(nrSlots, State(), b);
      var last := freeBlockIndexes[|freeBlockIndexes| - 1];
      freeBlockIndexes := freeBlockIndexes[..|freeBlockIndexes| - 1];
      allocatedBlocks := BlockOffsets(allocatedBlocks.slots[b := last], allocatedBlocks.readable[b := -1]);
      offset := Some(last);
    }

    /** Writes inside the block's slot and dirties the page; false when the block is not here. */
    method UpdateBlockData(b: nat, bytes: Image, from: nat) returns (ok: bool)
      requires Valid() && from + |bytes| <= B
      modifies this`isDirty, data
      ensures Valid() && ok == ContainsBlock(b)
      ensures !ok ==> State() == old(State())
      ensures ok ==> allocatedBlocks.slots[b] + B <= data.Length && State() == Written(old(State()), b, bytes, from)
    {
      if !ContainsBlock(b) {
        return false;
      }
      ghost var was := State();
      WriteSlot(nrSlots, was, b, bytes, from);
      isDirty := true;
      assert data[..] == was.data;
      Memcpy(data, allocatedBlocks.slots[b] + from, bytes);
      assert State() == Written(was, b, bytes, from);
      return true;
    }

    /** Copies the block out. The source copies from the block's slot up to `readToMax` counted from the
        start of the page, a count that memcpy needs not to be negative: for a block in a later slot
        nothing is copied. */
    method GetBlockData(b: nat, buffer: array<Byte>, readToMax: nat)
      requires Valid() && ContainsBlock(b) && allocatedBlocks.slots[b] <= readToMax + 1
      requires readToMax < B && readToMax < buffer.Length && buffer != data
      modifies buffer
      ensures data.Length >= B && (allocatedBlocks.slots[b] == 0 || allocatedBlocks.slots[b] == B)
      ensures allocatedBlocks.slots[b] == 0 ==> buffer[..] == Overwrite(old(buffer[..]), 0, data[..readToMax + 1])
      ensures allocatedBlocks.slots[b] != 0 ==> buffer[..] == old(buffer[..])
    {
      var offMin := allocatedBlocks.slots[b];
      FirstSlots(nrSlots, offMin);
      Memcpy(buffer, 0, data[offMin..readToMax + 1]);
    }

    method MakeBlockReadableTo(b: nat, to: int)
      requires Valid() && ContainsBlock(b)
      modifies this`allocatedBlocks
      ensures Valid()
      ensures State() == old(State()).(blocks := old(allocatedBlocks).(readable := old(allocatedBlocks).readable[b := to]))
    {
      allocatedBlocks := allocatedBlocks.(readable := allocatedBlocks.readable[b := to]);
    }

    /** Zeroes the block from an index on, without dirtying the page. The source counts the bytes left from
        the start of the page: in a later slot nothing is zeroed. */
    method WriteNullFrom(b: nat, from: nat)
      requires Valid() && ContainsBlock(b) && allocatedBlocks.slots[b] + from <= B
      modifies data
      ensures Valid()
      ensures data.Length >= B && (allocatedBlocks.slots[b] == 0 || allocatedBlocks.slots[b] == B)
      ensures allocatedBlocks.slots[b] == 0 ==> State() == old(State()).(data := Overwrite(old(data[..]), from, Zeros(B - from)))
      ensures allocatedBlocks.slots[b] != 0 ==> State() == old(State())
    {
      ghost var was := State();
      var offFirst := allocatedBlocks.slots[b];
      FirstSlots(nrSlots, offFirst);
      if offFirst == 0 { WriteSlot(nrSlots, was, b, Zeros(B - from), from); }
      Memcpy(data, offFirst + from, Zeros(B - offFirst - from));
      if offFirst == 0 {
        assert State() == Written(was, b, Zeros(B - from), from).(dirty := was.dirty);
      } else {
        assert data[..] == was.data;
      }
    }

    method RemoveBlock(b: nat)
      requires Valid()
      modifies this, data
      ensures Valid()
      ensures old(ContainsBlock(b)) ==>
                old(allocatedBlocks.slots[b]) + B <= data.Length && State() == Removed(old(State()), b)
                && forall c | c in old(allocatedBlocks.slots) && c != b :: SameBlock(old(State()), State(), c)
      ensures !old(ContainsBlock(b)) ==>
                State() == old(State()).(dirty := old(allocatedBlocks.slots) != map[] && old(isDirty))
    {
      ghost var was := State();
      if ContainsBlock(b) {
        RemoveSlot(nrSlots, was, b);
        forall c | c in allocatedBlocks.slots && c != b { RemoveKeepsOthers(nrSlots, was, b, c); }
        var first := allocatedBlocks.slots[b];
        freeBlockIndexes := freeBlockIndexes + [first];
        allocatedBlocks := BlockOffsets(allocatedBlocks.slots - {b}, allocatedBlocks.readable - {b});
        Memcpy(data, first, Zeros(B));
      }
      if allocatedBlocks.slots == map[] {
        isDirty := false;
      }
    }
  }

  ghost predicate DistinctPages(pages: seq<Page>) {
    forall p, q | 0 <= p < q < |pages| :: pages[p] != pages[q] && pages[p].data != pages[q].data
  }

  ghost predicate PageHolds(page: Page, state: PageState, objects: set<object>)
    reads objects
  {
    page in objects && page.data in objects && page.nrSlots == 1 && page.Valid() && page.State() == state
  }

  /** The pages are distinct objects, of one block each, and `states` tells what they hold.
      `objects` are the pages and their buffers. */
  ghost predicate Pooled(pages: seq<Page>, states: seq<PageState>, objects: set<object>)
    reads objects
  {
    && DistinctPages(pages)
    && |states| == |pages|
    && forall p | 0 <= p < |pages| :: PageHolds(pages[p], states[p], objects)
  }

  lemma PoolAt(pages: seq<Page>, states: seq<PageState>, objects: set<object>, p: nat)
    requires Pooled(pages, states, objects) && p < |states|
    ensures |pages| == |states| && pages[p] in objects && pages[p].data in objects
    ensures pages[p].nrSlots == 1 && pages[p].Valid() && pages[p].State() == states[p]
  {}
}
