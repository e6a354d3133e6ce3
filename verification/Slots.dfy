/** The slots of a cache page: a byte buffer cut in block-sized slots with a stack of free ones. */
module Slots {
  import opened Posix
  import opened Overlay

  datatype Option<+T> = None | Some(value: T)

  /** Content owner ids are decimal inode numbers; `None` is the owner "none". */
  type Inode = nat

  /** First byte of each block's slot, and the last readable index of each block. */
  datatype BlockOffsets = BlockOffsets(slots: map<nat, nat>, readable: map<nat, int>)

  datatype PageState = PageState(owner: Option<Inode>, dirty: bool, data: Image, free: seq<nat>, blocks: BlockOffsets)

  /* ---------------------------------------------------------------- slot arithmetic */

  /** `f` is the first byte of one of the page's `n` slots. */
  ghost predicate IsSlot(n: nat, f: nat) {
    exists k: nat :: k < n && f == Start(k)
  }

  ghost predicate NoDuplicates<T>(s: seq<T>) {
    forall i, j | 0 <= i < j < |s| :: s[i] != s[j]
  }

  ghost predicate ZeroSlot(data: Image, f: nat) {
    f + B <= |data| && forall k | f <= k < f + B :: data[k] == 0
  }

  /** Free offsets and allocated slots partition the slots of the page. */
  ghost predicate Partition(n: nat, free: seq<nat>, slots: map<nat, nat>) {
    && NoDuplicates(free)
    && (forall f | f in free :: IsSlot(n, f))
    && (forall b | b in slots :: IsSlot(n, slots[b]) && slots[b] !in free)
    && (forall b, c | b in slots && c in slots && b != c :: slots[b] != slots[c])
    && (forall k: nat | k < n :: Start(k) in free || exists b :: b in slots && slots[b] == Start(k))
  }

  /** A well-formed page: the slots are partitioned and the free ones are zeroed. */
  ghost predicate SlotInv(n: nat, p: PageState) {
    && |p.data| == Start(n)
    && p.blocks.readable.Keys == p.blocks.slots.Keys
    && Partition(n, p.free, p.blocks.slots)
    && forall f | f in p.free :: ZeroSlot(p.data, f)
  }

  /** The bytes a page holds for block `b`. */
  ghost function SlotBytes(p: PageState, b: nat): Image
    requires b in p.blocks.slots && p.blocks.slots[b] + B <= |p.data|
  {
    p.data[p.blocks.slots[b]..p.blocks.slots[b] + B]
  }

  lemma SlotRoom(n: nat, f: nat)
    requires IsSlot(n, f)
    ensures f + B <= Start(n)
  {
    var k: nat :| k < n && f == Start(k);
    StartMonotone(k, n);
  }

  /** A slot that starts within the first block of the page is the first or the second. */
  lemma FirstSlots(n: nat, f: nat)
    requires IsSlot(n, f)
    ensures Start(n) >= B && f + B <= Start(n) && (f <= B ==> f == 0 || f == B)
  {
    SlotRoom(n, f);
    if 0 < f < B { Unique(f, 0); }
  }

  /** Distinct slots do not overlap. */
  lemma SlotsApart(n: nat, f: nat, g: nat)
    requires IsSlot(n, f) && IsSlot(n, g) && f != g
    ensures f + B <= g || g + B <= f
  {
    var k: nat :| k < n && f == Start(k);
    var l: nat :| l < n && g == Start(l);
    if k < l { StartMonotone(k, l); } else { StartMonotone(l, k); }
  }

  /* ---------------------------------------------------------------- page updates, on values */

  function Allocated(p: PageState, b: nat): PageState
    requires p.free != []
  {
    p.(free := p.free[..|p.free| - 1],
       blocks := BlockOffsets(p.blocks.slots[b := p.free[|p.free| - 1]], p.blocks.readable[b := -1]))
  }

  function Written(p: PageState, b: nat, bytes: Image, from: nat): PageState
    requires b in p.blocks.slots && p.blocks.slots[b] + from + |bytes| <= |p.data|
  {
    p.(dirty := true, data := Overwrite(p.data, p.blocks.slots[b] + from, bytes))
  }

  function Removed(p: PageState, b: nat): PageState
    requires b in p.blocks.slots && p.blocks.slots[b] + B <= |p.data|
  {
    var q := p.(free := p.free + [p.blocks.slots[b]],
                blocks := BlockOffsets(p.blocks.slots - {b}, p.blocks.readable - {b}),
                data := Overwrite(p.data, p.blocks.slots[b], Zeros(B)));
    q.(dirty := q.blocks.slots != map[] && q.dirty)
  }

  /** Every slot of a page, in the order `reset` stacks them. */
  function AllSlots(n: nat): (r: seq<nat>)
    ensures |r| == n && forall k | 0 <= k < n :: r[k] == Start(k)
  {
    seq(n, k requires 0 <= k => Start(k))
  }

  function Blank(n: nat, owner: Option<Inode>): PageState {
    PageState(owner, false, Zeros(Start(n)), AllSlots(n), BlockOffsets(map[], map[]))
  }

  /* ---------------------------------------------------------------- slot theorems */

  /** A blank page is clean, holds no block, and has every slot free. */
  lemma BlankSlots(n: nat, owner: Option<Inode>)
    ensures SlotInv(n, Blank(n, owner))
    ensures var p := Blank(n, owner);
            p.owner == owner && !p.dirty && p.blocks == BlockOffsets(map[], map[]) && forall k: nat | k < n :: Start(k) in p.free
  {
    var free := AllSlots(n);
    forall i, j | 0 <= i < j < n ensures free[i] != free[j] { StartMonotone(i, j); }
    forall f | f in free ensures IsSlot(n, f) && ZeroSlot(Zeros(Start(n)), f) {
      var k: nat :| k < n && free[k] == f;
      StartMonotone(k, n);
    }
    forall k: nat | k < n ensures Start(k) in free { assert free[k] == Start(k); }
    assert Partition(n, free, map[]);
  }

  lemma AllocatePartition(n: nat, free: seq<nat>, slots: map<nat, nat>, b: nat)
    requires Partition(n, free, slots) && free != [] && b !in slots
    ensures Partition(n, free[..|free| - 1], slots[b := free[|free| - 1]])
  {
    var last := |free| - 1;
    var free', slots' := free[..last], slots[b := free[last]];
    assert free[last] in free;
    assert forall g | g in free' :: g in free && g != free[last];
    forall k: nat | k < n ensures Start(k) in free' || exists c :: c in slots' && slots'[c] == Start(k) {
      if Start(k) in free {
        var i :| 0 <= i < |free| && free[i] == Start(k);
        if i < last { assert free'[i] == Start(k); } else { assert slots'[b] == Start(k); }
      } else {
        var c :| c in slots && slots[c] == Start(k);
        assert slots'[c] == Start(k);
      }
    }
  }

  lemma RemovePartition(n: nat, free: seq<nat>, slots: map<nat, nat>, b: nat)
    requires Partition(n, free, slots) && b in slots
    ensures Partition(n, free + [slots[b]], slots - {b})
  {
    var free', slots' := free + [slots[b]], slots - {b};
    forall f | f in free' ensures IsSlot(n, f) && (f in free || f == slots[b]) {}
    forall k: nat | k < n ensures Start(k) in free' || exists c :: c in slots' && slots'[c] == Start(k) {
      if Start(k) !in free {
        var c :| c in slots && slots[c] == Start(k);
        if c == b { assert free'[|free|] == Start(k); } else { assert c in slots' && slots'[c] == Start(k); }
      }
    }
  }

  /** Overwriting bytes inside one slot leaves every other slot alone. */
  lemma SlotWrite(n: nat, data: Image, f: nat, bytes: Image, from: nat, g: nat)
    requires IsSlot(n, f) && IsSlot(n, g) && f != g && |data| == Start(n) && from + |bytes| <= B
    ensures f + B <= |data| && g + B <= |data|
    ensures Overwrite(data, f + from, bytes)[g..g + B] == data[g..g + B]
    ensures ZeroSlot(data, g) ==> ZeroSlot(Overwrite(data, f + from, bytes), g)
  {
    SlotRoom(n, f);
    SlotRoom(n, g);
    SlotsApart(n, f, g);
  }

  lemma SlotsOf(n: nat, p: PageState, b: nat, c: nat)
    requires SlotInv(n, p) && b in p.blocks.slots && c in p.blocks.slots
    ensures |p.data| == Start(n) && IsSlot(n, p.blocks.slots[b]) && IsSlot(n, p.blocks.slots[c])
    ensures b != c ==> p.blocks.slots[b] != p.blocks.slots[c]
  {}

  lemma FreeSlots(n: nat, p: PageState, f: nat)
    requires SlotInv(n, p) && f in p.free
    ensures IsSlot(n, f) && ZeroSlot(p.data, f) && forall b | b in p.blocks.slots :: p.blocks.slots[b] != f
  {}

  lemma InvParts(n: nat, p: PageState)
    requires SlotInv(n, p)
    ensures |p.data| == Start(n) && p.blocks.readable.Keys == p.blocks.slots.Keys && Partition(n, p.free, p.blocks.slots)
    ensures forall f | f in p.free :: ZeroSlot(p.data, f)
  {}

  /** Block `c` has the same slot, readable end and bytes in both pages. */
  ghost predicate SameBlock(p: PageState, q: PageState, c: nat) {
    && c in p.blocks.slots && c in q.blocks.slots && q.blocks.slots[c] == p.blocks.slots[c]
    && c in p.blocks.readable && c in q.blocks.readable && q.blocks.readable[c] == p.blocks.readable[c]
    && p.blocks.slots[c] + B <= |p.data| && p.blocks.slots[c] + B <= |q.data| && SlotBytes(q, c) == SlotBytes(p, c)
  }

  lemma SlotAt(n: nat, p: PageState, c: nat)
    requires SlotInv(n, p) && c in p.blocks.slots
    ensures c in p.blocks.readable && p.blocks.slots[c] + B <= |p.data|
  {
    SlotRoom(n, p.blocks.slots[c]);
  }

  /** Allocation hands out a zeroed slot that was free and no other block has, of which nothing is readable
      yet, and keeps the partition, owner and dirtiness, and all there is of the blocks already in the page. */
  lemma AllocateSlot(n: nat, p: PageState, b: nat)
    requires SlotInv(n, p) && p.free != [] && b !in p.blocks.slots
    ensures var q := Allocated(p, b);
            && SlotInv(n, q) && q.blocks.slots.Keys == p.blocks.slots.Keys + {b}
            && q.blocks.slots[b] in p.free && ZeroSlot(q.data, q.blocks.slots[b]) && q.blocks.readable[b] == -1
            && q.owner == p.owner && q.dirty == p.dirty && forall c | c in p.blocks.slots :: SameBlock(p, q, c)
  {
    hide Partition, ZeroSlot, IsSlot;
    InvParts(n, p);
    forall c | c in p.blocks.slots ensures SameBlock(p, Allocated(p, b), c) { SlotAt(n, p, c); }
    assert p.free[|p.free| - 1] in p.free;
    AllocatePartition(n, p.free, p.blocks.slots, b);
    assert forall g | g in p.free[..|p.free| - 1] :: g in p.free;
  }

  /** Writing inside a block's slot keeps the page well formed. */
  lemma WriteSlot(n: nat, p: PageState, b: nat, bytes: Image, from: nat)
    requires SlotInv(n, p) && b in p.blocks.slots && from + |bytes| <= B
    ensures p.blocks.slots[b] + B <= |p.data|
    ensures SlotInv(n, Written(p, b, bytes, from))
  {
    hide Partition, ZeroSlot, IsSlot, Overwrite;
    InvParts(n, p);
    SlotsOf(n, p, b, b);
    var f := p.blocks.slots[b];
    SlotRoom(n, f);
    var q := Written(p, b, bytes, from);
    forall g | g in p.free ensures ZeroSlot(q.data, g) {
      FreeSlots(n, p, g);
      SlotWrite(n, p.data, f, bytes, from, g);
    }
  }

  lemma OverwriteSlice(data: Image, f: nat, bytes: Image, from: nat)
    requires f + B <= |data| && from + |bytes| <= B
    ensures Overwrite(data, f + from, bytes)[f..f + B] == Overwrite(data[f..f + B], from, bytes)
  {}

  /** It changes the bytes written, and no byte, slot or readable end of any other block. */
  lemma WriteChangesOnly(n: nat, p: PageState, b: nat, bytes: Image, from: nat, c: nat)
    requires SlotInv(n, p) && b in p.blocks.slots && c in p.blocks.slots && from + |bytes| <= B
    ensures p.blocks.slots[b] + B <= |p.data| && p.blocks.slots[c] + B <= |p.data|
    ensures SlotBytes(Written(p, b, bytes, from), c)
            == if c == b then Overwrite(SlotBytes(p, b), from, bytes) else SlotBytes(p, c)
    ensures c != b ==> SameBlock(p, Written(p, b, bytes, from), c)
    ensures var q := Written(p, b, bytes, from);
            q.dirty && q.owner == p.owner && q.free == p.free && q.blocks == p.blocks
  {
    hide Overwrite, SlotInv, IsSlot;
    SlotAt(n, p, c);
    SlotsOf(n, p, b, c);
    SlotRoom(n, p.blocks.slots[b]);
    SlotRoom(n, p.blocks.slots[c]);
    if c == b {
      OverwriteSlice(p.data, p.blocks.slots[b], bytes, from);
    } else {
      SlotWrite(n, p.data, p.blocks.slots[b], bytes, from, p.blocks.slots[c]);
    }
  }

  /** Removing a block zeroes its slot and gives it back. */
  lemma RemoveSlot(n: nat, p: PageState, b: nat)
    requires SlotInv(n, p) && b in p.blocks.slots
    ensures p.blocks.slots[b] + B <= |p.data|
    ensures SlotInv(n, Removed(p, b))
  {
    hide Partition, IsSlot;
    InvParts(n, p);
    SlotsOf(n, p, b, b);
    var f := p.blocks.slots[b];
    SlotRoom(n, f);
    var q := Removed(p, b);
    RemovePartition(n, p.free, p.blocks.slots, b);
    assert ZeroSlot(q.data, f);
    forall g | g in q.free ensures ZeroSlot(q.data, g) {
      if g != f {
        assert g in p.free;
        FreeSlots(n, p, g);
        SlotWrite(n, p.data, f, Zeros(B), 0, g);
      }
    }
  }

  /** The other blocks of the page keep their slots, bytes and readable ends; the block is gone and its slot
      free; and the page is dirty as before, until its last block goes. */
  lemma RemoveKeepsOthers(n: nat, p: PageState, b: nat, c: nat)
    requires SlotInv(n, p) && b in p.blocks.slots && c in p.blocks.slots && b != c
    ensures p.blocks.slots[b] + B <= |p.data| && p.blocks.slots[c] + B <= |p.data|
    ensures var q := Removed(p, b);
            && SameBlock(p, q, c) && q.blocks.slots.Keys == p.blocks.slots.Keys - {b}
            && p.blocks.slots[b] in q.free && q.owner == p.owner && q.dirty == p.dirty
  {
    hide Overwrite, SlotInv, IsSlot;
    SlotAt(n, p, c);
    SlotsOf(n, p, b, c);
    SlotRoom(n, p.blocks.slots[b]);
    SlotRoom(n, p.blocks.slots[c]);
    SlotWrite(n, p.data, p.blocks.slots[b], Zeros(B), 0, p.blocks.slots[c]);
  }
}
