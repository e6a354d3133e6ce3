/** Cached items: the block table and the metadata of one inode. */
module Items {
  import opened Posix
  import opened Overlay
  import opened Slots

  /** Where a block is cached and how far it can be read. */
  datatype BlockInfo = BlockInfo(page: nat, readableTo: int) {
    function MakeReadableTo(to: int): BlockInfo { this.(readableTo := Max(readableTo, to)) }

    function TruncateReadableTo(to: int): BlockInfo { this.(readableTo := to) }
  }

  type BlockTable = map<nat, BlockInfo>

  /** The size and link count; the timestamps are not modelled. */
  datatype Metadata = Metadata(size: nat, nlinks: nat)

  datatype ItemState = ItemState(blocks: BlockTable, meta: Metadata, synced: bool)

  /** The table after a truncation at byte `index` of block `at`. */
  function CutTable(t: BlockTable, at: nat, index: nat): BlockTable {
    map b | b in t && (b < at || (b == at && index > 0)) ::
      if b == at then t[b].TruncateReadableTo(index - 1) else t[b]
  }

  /** The table and the removed pages when only the entries in `done` have been visited. */
  ghost function CutTableIn(t: BlockTable, done: set<nat>, at: nat, index: nat): BlockTable {
    map b | b in t && (b !in done || b < at || (b == at && index > 0)) ::
      if b in done && b == at then t[b].TruncateReadableTo(index - 1) else t[b]
  }

  ghost function CutPagesIn(t: BlockTable, done: set<nat>, at: nat): map<nat, nat> {
    map b | b in t && b in done && at <= b :: t[b].page
  }

  lemma CutTableStep(t: BlockTable, done: set<nat>, b: nat, at: nat, index: nat)
    requires b in t && b !in done
    ensures CutTableIn(t, done + {b}, at, index) ==
            if b < at then CutTableIn(t, done, at, index)
            else if b == at && index > 0 then CutTableIn(t, done, at, index)[b := t[b].TruncateReadableTo(index - 1)]
            else CutTableIn(t, done, at, index) - {b}
    ensures CutPagesIn(t, done + {b}, at) ==
            if b < at then CutPagesIn(t, done, at) else CutPagesIn(t, done, at)[b := t[b].page]
  {}

  lemma CutTableEnds(t: BlockTable, at: nat, index: nat)
    ensures CutTableIn(t, {}, at, index) == t && CutPagesIn(t, {}, at) == map[]
    ensures CutTableIn(t, t.Keys, at, index) == CutTable(t, at, index)
    ensures CutPagesIn(t, t.Keys, at) == map b | b in t && at <= b :: t[b].page
  {}

  /** Entries before the cut are as they were, those past it are gone; the one at the cut is readable up to
      there, if anything of it is left. */
  lemma CutTableExactly(t: BlockTable, at: nat, index: nat)
    ensures var cut := CutTable(t, at, index);
            && (forall b :: b in cut <==> b in t && (b < at || (b == at && index > 0)))
            && forall b | b in cut :: cut[b].page == t[b].page && cut[b].readableTo == if b == at then index - 1 else t[b].readableTo
  {}

  class Data {
    var blocks: BlockTable

    constructor ()
      ensures blocks == map[]
    {
      blocks := map[];
    }

    function GetPageId(b: nat): int
      reads this
    {
      if b in blocks then blocks[b].page else -1
    }

    /** Records the page of a block; the readable end only ever grows here. A new entry starts
        readable to index 0. */
    method SetBlockPageId(b: nat, page: nat, to: int) returns (max: int)
      modifies this
      ensures max == Max(if b in old(blocks) then old(blocks)[b].readableTo else 0, to)
      ensures blocks == old(blocks)[b := BlockInfo(page, max)]
    {
      var info := if b in blocks then blocks[b] else BlockInfo(page, 0);
      info := info.(page := page).MakeReadableTo(to);
      blocks := blocks[b := info];
      max := info.readableTo;
    }

    method RemoveBlock(b: nat)
      modifies this
      ensures blocks == old(blocks) - {b}
    {
      if b in blocks {
        blocks := blocks - {b};
      }
    }

    method RemoveAllBlocks()
      modifies this
      ensures blocks == map[]
    {
      blocks := map[];
    }

    /** Erases the blocks past `at` while iterating, shortens block `at` itself, and returns the
        pages of all of them. */
    method TruncateBlocksAfter(at: nat, index: nat) returns (res: map<nat, nat>)
      modifies this
      ensures blocks == CutTable(old(blocks), at, index)
      ensures forall b :: b in blocks <==> b in old(blocks) && (b < at || (b == at && index > 0))
      ensures forall b | b in blocks ::
                blocks[b].page == old(blocks)[b].page && blocks[b].readableTo == if b == at then index - 1 else old(blocks)[b].readableTo
      ensures res == map b | b in old(blocks) && at <= b :: old(blocks)[b].page
    {
      hide CutTable, CutTableIn, CutPagesIn;
      ghost var was := blocks;
      var todo := blocks.Keys;
      ghost var done: set<nat> := {};
      res := map[];
      CutTableEnds(was, at, index);
      CutTableExactly(was, at, index);
      while todo != {}
        invariant done + todo == was.Keys && done !! todo
        invariant forall b | b in todo :: b in blocks && blocks[b] == was[b]
        invariant blocks == CutTableIn(was, done, at, index) && res == CutPagesIn(was, done, at)
        decreases todo
      {
        var b :| b in todo;
        CutTableStep(was, done, b, at, index);
        if at <= b {
          res := res[b := blocks[b].page];
          if at < b || index == 0 {
            blocks := blocks - {b};
          } else {
            blocks := blocks[b := blocks[b].TruncateReadableTo(index - 1)];
          }
        }
        todo, done := todo - {b}, done + {b};
      }
      assert done == was.Keys;
    }
  }

  class Item {
    const data: Data
    var metadata: Metadata
    var dataSynced: bool

    constructor ()
      ensures fresh(data) && State() == ItemState(map[], Metadata(0, 1), true)
    {
      data := new Data();
      metadata := Metadata(0, 1);
      dataSynced := true;
    }

    ghost function State(): ItemState
      reads this, data
    {
      ItemState(data.blocks, metadata, dataSynced)
    }

    /** Updates the fields named in `values`, one after the other. */
    method UpdateMetadata(newMeta: Metadata, values: seq<string>)
      modifies this`metadata
      ensures metadata.size == if "size" in values then newMeta.size else old(metadata.size)
      ensures metadata.nlinks == if "nlinks" in values then newMeta.nlinks else old(metadata.nlinks)
    {
      for i := 0 to |values|
        invariant metadata.size == if "size" in values[..i] then newMeta.size else old(metadata.size)
        invariant metadata.nlinks == if "nlinks" in values[..i] then newMeta.nlinks else old(metadata.nlinks)
      {
        if values[i] == "size" {
          metadata := metadata.(size := newMeta.size);
        } else if values[i] == "nlinks" {
          metadata := metadata.(nlinks := newMeta.nlinks);
        }
        assert values[..i + 1] == values[..i] + [values[i]];
      }
      assert values[..|values|] == values;
    }

    method SetDataSyncFlag(flag: bool)
      modifies this`dataSynced
      ensures dataSynced == flag
    {
      dataSynced := flag;
    }
  }

  ghost predicate DistinctItems(contents: map<Inode, Item>) {
    forall i, j | i in contents && j in contents && i != j ::
      contents[i] != contents[j] && contents[i].data != contents[j].data
  }

  ghost predicate ItemHolds(item: Item, state: ItemState, objects: set<object>)
    reads objects
  {
    item in objects && item.data in objects && item.State() == state
  }

  /** The items are distinct objects and `states` tells what they hold. `objects` are the items and
      their block tables. */
  ghost predicate Stored(contents: map<Inode, Item>, states: map<Inode, ItemState>, objects: set<object>)
    reads objects
  {
    && DistinctItems(contents)
    && contents.Keys == states.Keys
    && forall i | i in contents :: ItemHolds(contents[i], states[i], objects)
  }

  lemma StoredKeys(contents: map<Inode, Item>, states: map<Inode, ItemState>, objects: set<object>)
    requires Stored(contents, states, objects)
    ensures contents.Keys == states.Keys
  {}

  lemma StoredAt(contents: map<Inode, Item>, states: map<Inode, ItemState>, objects: set<object>, i: Inode)
    requires Stored(contents, states, objects)
    ensures i in contents <==> i in states
    ensures i in contents ==> contents[i] in objects && contents[i].data in objects && contents[i].State() == states[i]
  {}

  lemma StoredAdd(contents: map<Inode, Item>, states: map<Inode, ItemState>, objects: set<object>, i: Inode, item: Item)
    requires Stored(contents, states, objects) && i !in contents
    requires item !in objects && item.data !in objects
    ensures Stored(contents[i := item], states[i := item.State()], objects + {item, item.data})
  {
    forall j | j in contents ensures ItemHolds(contents[j], states[j], objects + {item, item.data}) {
      assert ItemHolds(contents[j], states[j], objects);
    }
  }
}
