/** The cache: items by inode over the engine's pages, and the paths mapped to each inode. */
module Caches {
  import opened Posix
  import opened Overlay
  import opened Slots
  import opened Disks
  import opened EngineStates
  import opened Engine
  import opened Items
  import opened CacheStates
  import opened FileStates

  class Cache {
    const engine: CustomCacheEngine
    var contents: map<Inode, Item>
    var fileInodeMapping: map<Path, Inode>

    // What each item holds, and the objects the items are made of.
    ghost var items: map<Inode, ItemState>
    ghost var itemObjects: set<object>

    /** Everything the cache may modify, the disk aside. */
    ghost function Footprint(): set<object>
      reads this
    {
      {this, engine} + itemObjects + engine.pageObjects
    }

    ghost predicate Wired()
      reads this`contents, this`items, this`itemObjects, itemObjects
    {
      && Stored(contents, items, itemObjects)
      && this !in itemObjects && engine !in itemObjects && engine.disk !in itemObjects
      && itemObjects !! engine.pageObjects
      && this !in engine.pageObjects
    }

    ghost predicate Valid()
      reads this, itemObjects, engine, engine.pageObjects
    {
      Wired() && engine.Valid() && IndexAgrees(items, engine.State())
    }

    constructor (engine: CustomCacheEngine)
      requires engine.Valid() && engine.ownerOrderedPages == map[]
      ensures Valid() && this.engine == engine && itemObjects == {}
      ensures contents == map[] && items == map[] && fileInodeMapping == map[]
    {
      this.engine := engine;
      contents, fileInodeMapping := map[], map[];
      items, itemObjects := map[], {};
    }

    /* -------------------------------------------------------------- item primitives */

    method CreateItem(i: Inode)
      requires Wired() && i !in items
      modifies this`contents, this`items, this`itemObjects
      ensures Wired() && items == old(items)[i := ItemState(map[], Metadata(0, 1), true)]
      ensures fresh(itemObjects - old(itemObjects)) && old(itemObjects) <= itemObjects
    {
      hide Stored, ItemHolds, DistinctItems;
      StoredKeys(contents, items, itemObjects);
      var item := new Item();
      StoredAdd(contents, items, itemObjects, i, item);
      contents := contents[i := item];
      items := items[i := item.State()];
      itemObjects := itemObjects + {item, item.data};
    }

    method DeleteItem(i: Inode)
      requires Wired()
      modifies this`contents, this`items
      ensures Wired() && items == old(items) - {i}
    {
      if i in contents {
        contents := contents - {i};
      }
      items := items - {i};
    }

    method SetBlock(i: Inode, b: nat, page: nat, to: int) returns (max: int)
      requires Wired() && i in items
      modifies itemObjects, this`items
      ensures Wired()
      ensures var was := old(items)[i];
              && max == Max(if b in was.blocks then was.blocks[b].readableTo else 0, to)
              && items == old(items)[i := was.(blocks := was.blocks[b := BlockInfo(page, max)])]
    {
      max := contents[i].data.SetBlockPageId(b, page, to);
      items := items[i := contents[i].State()];
    }

    method DropBlock(i: Inode, b: nat)
      requires Wired() && i in items
      modifies itemObjects, this`items
      ensures Wired()
      ensures items == old(items)[i := old(items)[i].(blocks := old(items)[i].blocks - {b})]
    {
      contents[i].data.RemoveBlock(b);
      items := items[i := contents[i].State()];
    }

    method DropBlocks(i: Inode)
      requires Wired() && i in items
      modifies itemObjects, this`items
      ensures Wired() && items == old(items)[i := old(items)[i].(blocks := map[])]
    {
      contents[i].data.RemoveAllBlocks();
      items := items[i := contents[i].State()];
    }

    method CutBlockTable(i: Inode, at: nat, index: nat) returns (res: map<nat, nat>)
      requires Wired() && i in items
      modifies itemObjects, this`items
      ensures Wired()
      ensures items == old(items)[i := old(items)[i].(blocks := CutTable(old(items)[i].blocks, at, index))]
      ensures res == map b | b in old(items)[i].blocks && at <= b :: old(items)[i].blocks[b].page
    {
      res := contents[i].data.TruncateBlocksAfter(at, index);
      items := items[i := contents[i].State()];
    }

    method SetSync(i: Inode, flag: bool)
      requires Wired() && i in items
      modifies itemObjects, this`items
      ensures Wired() && items == old(items)[i := old(items)[i].(synced := flag)]
    {
      contents[i].SetDataSyncFlag(flag);
      items := items[i := contents[i].State()];
    }

    method SetMetadata(i: Inode, meta: Metadata, values: seq<string>)
      requires Wired() && i in items
      modifies itemObjects, this`items
      ensures Wired()
      ensures i in items && items == old(items)[i := old(items)[i].(meta := items[i].meta)]
      ensures items[i].meta.size == if "size" in values then meta.size else old(items)[i].meta.size
      ensures items[i].meta.nlinks == if "nlinks" in values then meta.nlinks else old(items)[i].meta.nlinks
    {
      contents[i].UpdateMetadata(meta, values);
      items := items[i := contents[i].State()];
    }

    /* -------------------------------------------------------------- blocks */

    predicate HasContentCached(i: Inode)
      reads this
    {
      i in contents
    }

    method IsBlockCached(i: Inode, b: nat) returns (cached: bool)
      requires Valid()
      ensures cached <==> b in engine.Blocks(i)
    {
      hide EngineInv, Stored, IndexAgrees, Cached;
      ghost var es := engine.State();
      StoredAt(contents, items, itemObjects, i);
      CachedIsIndexed(es, i, b);
      TableAt(items, es, i, b);
      if !HasContentCached(i) {
        return false;
      }
      var page := contents[i].data.GetPageId(b);
      if page < 0 {
        return false;
      }
      OwnedIsIndexed(es, i, b, page);
      engine.PageView(page);
      cached := engine.OwnsBlock(i, page, b);
    }

    /** put_data_blocks with no block: makes sure the inode has an item. */
    method EnsureItem(i: Inode)
      requires Valid()
      modifies Footprint()
      ensures Valid() && fresh(Footprint() - old(Footprint())) && contents.Keys == old(contents).Keys + {i}
      ensures MetasKept(old(items), items, i) && engine.State() == old(engine.State()) && fileInodeMapping == old(fileInodeMapping)
      ensures items == if i in old(items) then old(items) else old(items)[i := ItemState(map[], Metadata(0, 1), true)]
    {
      hide EngineInv, IndexAgrees, Cached, Stored;
      ghost var before, es := items, engine.State();
      StoredKeys(contents, items, itemObjects);
      if !HasContentCached(i) {
        CreateItem(i);
        AgreeNew(before, es, i);
      }
      StoredKeys(contents, items, itemObjects);
    }

    /** Records the page that took a block and moves its readable end, on both levels. */
    method RecordPut(i: Inode, b: nat, page: nat, to: int)
      requires Wired() && engine.Valid() && i in items
      requires b in engine.Blocks(i) && engine.Blocks(i)[b].page == page
      modifies Footprint()
      ensures Wired() && engine.Valid() && itemObjects == old(itemObjects) && fileInodeMapping == old(fileInodeMapping)
      ensures engine.freePages == old(engine.freePages) && OthersKept(old(engine.State()), engine.State(), i)
      ensures var was := old(items)[i];
              var max := Max(if b in was.blocks then was.blocks[b].readableTo else 0, to);
              && items == old(items)[i := ItemState(was.blocks[b := BlockInfo(page, max)], was.meta, false)]
              && engine.Blocks(i) == old(engine.Blocks(i))[b := old(engine.Blocks(i))[b].(to := max)]
    {
      hide EngineInv, Cached, Stored, OthersKept;
      var max := SetBlock(i, b, page, to);
      engine.MakeBlockReadableToOffset(i, page, b, max);
      SetSync(i, false);
    }

    /** The engine found a page: what is left of a put. */
    method PutPlaced(i: Inode, b: nat, from: nat, bytes: Image, page: nat, ghost before: map<Inode, ItemState>, ghost es: EngineState)
      requires Wired() && engine.Valid() && i in items && items == before && IndexAgrees(before, es) && OthersKept(es, engine.State(), i)
      requires |bytes| > 0 && from + |bytes| <= B
      requires if b in Cached(es, i) then
                 && page == Cached(es, i)[b].page && |Cached(es, i)[b].bytes| == B
                 && engine.Blocks(i) == Cached(es, i)[b := CBlock(page, Overwrite(Cached(es, i)[b].bytes, from, bytes), Cached(es, i)[b].to, true)]
               else engine.Blocks(i) == Cached(es, i)[b := CBlock(page, Overwrite(Zeros(B), from, bytes), -1, true)]
      modifies Footprint()
      ensures Valid() && itemObjects == old(itemObjects) && fileInodeMapping == old(fileInodeMapping)
      ensures MetasKept(before, items, i) && OthersKept(es, engine.State(), i) && engine.freePages == old(engine.freePages)
      ensures b in engine.Blocks(i)
      ensures engine.Blocks(i) == Cached(es, i)[b := if b in Cached(es, i) then Updated(Cached(es, i)[b], from, bytes) else Fresh(page, from, bytes)]
    {
      hide EngineInv, IndexAgrees, Cached, Stored, ItemAgrees, OthersKept, MetasKept;
      ghost var es1 := engine.State();
      ItemAt(before, es, i);
      RecordPut(i, b, page, from + |bytes| - 1);
      PutAgrees(before[i], Cached(es, i), Cached(es1, i), b, from, bytes, page, items[i].blocks[b].readableTo);
      OthersTrans(es, es1, engine.State(), i);
      AgreeStep(before, es, items, engine.State(), i);
      MetaKept(before, i, items[i]);
    }

    /** No page could be had. */
    method PutRefused(i: Inode, b: nat, ghost es: EngineState)
      requires Valid() && i in items && engine.State() == es && b !in engine.Blocks(i)
      modifies Footprint()
      ensures Valid() && itemObjects == old(itemObjects) && fileInodeMapping == old(fileInodeMapping)
      ensures items == old(items) && engine.State() == es && MetasKept(old(items), items, i)
    {
      hide EngineInv, IndexAgrees, Cached, Stored, MetasKept;
      ghost var before := items;
      ItemAt(items, es, i);
      TableAt(items, es, i, b);
      DropBlock(i, b);
      assert before[i].blocks - {b} == before[i].blocks;
      assert items == before[i := before[i]] == before;
      MetaKept(before, i, before[i]);
    }

    method PutInItem(i: Inode, b: nat, bytes: Image, from: nat, operation: Operation) returns (ok: bool)
      requires Valid() && |bytes| > 0 && from + |bytes| <= B && i in items
      modifies Footprint()
      ensures Valid() && itemObjects == old(itemObjects) && fileInodeMapping == old(fileInodeMapping)
      ensures MetasKept(old(items), items, i) && OthersKept(old(engine.State()), engine.State(), i)
      ensures PutOutcome(old(engine.Blocks(i)), engine.Blocks(i), b, from, bytes, |old(engine.freePages)|, |engine.freePages|, ok)
    {
      hide EngineInv, IndexAgrees, Cached, Stored, ItemAgrees, OthersKept, MetasKept;
      ghost var before, es := items, engine.State();
      StoredAt(contents, items, itemObjects, i);
      ItemAt(items, es, i);
      TableAt(items, es, i, b);
      CachedIsIndexed(es, i, b);
      var pageId := contents[i].data.GetPageId(b);
      var page := engine.AllocateBlock(i, b, pageId, bytes, from, operation);
      if page >= 0 {
        PutPlaced(i, b, from, bytes, page, before, es);
        ok := true;
      } else {
        PutRefused(i, b, es);
        OthersSame(es, i);
        ok := false;
      }
    }

    /** Puts bytes at index `from` of a block, in the page that holds it or a free one. */
    method PutDataBlock(i: Inode, b: nat, bytes: Image, from: nat, operation: Operation) returns (ok: bool)
      requires Valid() && |bytes| > 0 && from + |bytes| <= B
      modifies Footprint()
      ensures Valid() && fresh(Footprint() - old(Footprint())) && fileInodeMapping == old(fileInodeMapping)
      ensures MetasKept(old(items), items, i) && OthersKept(old(engine.State()), engine.State(), i)
      ensures PutOutcome(old(engine.Blocks(i)), engine.Blocks(i), b, from, bytes, |old(engine.freePages)|, |engine.freePages|, ok)
    {
      hide EngineInv, IndexAgrees, Cached, Stored, OthersKept, PutOutcome;
      EnsureItem(i);
      ok := PutInItem(i, b, bytes, from, operation);
    }

    /** Copies a resident block out; the second result is its readable end. */
    method GetDataBlock(i: Inode, b: nat, buffer: array<Byte>) returns (found: bool, readableTo: int)
      requires Valid() && buffer.Length == B && buffer !in engine.pageObjects
      modifies buffer
      ensures found <==> b in engine.Blocks(i)
      ensures found ==> |engine.Blocks(i)[b].bytes| == B && readableTo == engine.Blocks(i)[b].to
                        && buffer[..] == engine.Blocks(i)[b].bytes
    {
      hide EngineInv, IndexAgrees, Cached, Stored;
      ghost var es := engine.State();
      StoredAt(contents, items, itemObjects, i);
      ItemAt(items, es, i);
      TableAt(items, es, i, b);
      CachedIsIndexed(es, i, b);
      found, readableTo := false, 0;
      if HasContentCached(i) && b in contents[i].data.blocks {
        found := engine.GetBlock(i, contents[i].data.GetPageId(b), b, buffer, B - 1);
        readableTo := contents[i].data.blocks[b].readableTo;
        WholeCopy(engine.Blocks(i), b, old(buffer[..]), buffer[..]);
      }
    }

    method UpdateContentMetadata(i: Inode, meta: Metadata, values: seq<string>) returns (updated: bool)
      requires Valid()
      modifies Footprint()
      ensures Valid() && updated == (i in old(items)) && engine.State() == old(engine.State())
      ensures contents == old(contents) && fileInodeMapping == old(fileInodeMapping) && itemObjects == old(itemObjects)
      ensures items.Keys == old(items).Keys && forall j | j in items && j != i :: items[j] == old(items)[j]
      ensures updated ==>
                && items[i].meta.size == (if "size" in values then meta.size else old(items)[i].meta.size)
                && items[i].meta.nlinks == (if "nlinks" in values then meta.nlinks else old(items)[i].meta.nlinks)
                && items[i] == old(items)[i].(meta := items[i].meta)
    {
      hide EngineInv, Cached, Stored, IndexAgrees;
      ghost var before := items;
      StoredAt(contents, items, itemObjects, i);
      if !HasContentCached(i) {
        return false;
      }
      SetMetadata(i, meta, values);
      AgreeMeta(before, engine.State(), i, items[i].meta);
      return true;
    }

    /* -------------------------------------------------------------- truncation and sync */

    /** Drops what lies past `size` from the cache, if the inode has an item. */
    method TruncateItem(i: Inode, size: nat) returns (found: bool)
      requires Valid()
      modifies Footprint()
      ensures Valid() && found == (i in old(items)) && itemObjects == old(itemObjects) && fileInodeMapping == old(fileInodeMapping)
      ensures forall j | j in old(items) && j != i :: j in items && items[j] == old(items)[j]
      ensures found ==> i in items && items[i].synced == (size == 0 && old(items)[i].synced)
      ensures items.Keys == old(items).Keys && forall j | j in items :: items[j].meta == old(items)[j].meta
      ensures OthersKept(old(engine.State()), engine.State(), i)
      ensures CutOutcome(old(engine.Blocks(i)), engine.Blocks(i), size)
    {
      hide EngineInv, Cached, Stored, IndexAgrees, OthersKept, CutBlocks, ItemAgrees, CutTable;
      ghost var before, es := items, engine.State();
      StoredAt(contents, items, itemObjects, i);
      ItemAt(items, es, i);
      Locate(size);
      TableAt(items, es, i, BlockOf(size));
      CachedIsIndexed(es, i, BlockOf(size));
      CutNone(BlockOf(size), Within(size));
      OthersSame(es, i);
      found := HasContentCached(i);
      if found {
        if size == 0 {
          TruncateToNothing(i);
        } else {
          TruncateBlocks(i, size);
        }
      }
    }

    method TruncateToNothing(i: Inode)
      requires Valid() && i in items
      modifies Footprint()
      ensures i in items && items[i].synced == old(items)[i].synced
      ensures forall j | j in old(items) && j != i :: j in items && items[j] == old(items)[j]
      ensures Valid() && itemObjects == old(itemObjects) && fileInodeMapping == old(fileInodeMapping)
      ensures items.Keys == old(items).Keys && forall j | j in items :: items[j].meta == old(items)[j].meta
      ensures OthersKept(old(engine.State()), engine.State(), i)
      ensures CutOutcome(old(engine.Blocks(i)), engine.Blocks(i), 0)
    {
      hide EngineInv, Cached, Stored, IndexAgrees, OthersKept, ItemAgrees;
      ghost var before, es := items, engine.State();
      StoredAt(contents, items, itemObjects, i);
      ItemAt(items, es, i);
      CutToNothing(before[i], Cached(es, i));
      CachedIsIndexed(es, i, BlockOf(0));
      Locate(0);
      OthersSame(es, i);
      if |contents[i].data.blocks| > 0 {
        engine.RemoveCachedBlocks(i);
        DropBlocks(i);
        EmptyAgrees(items[i].meta, items[i].synced);
        AgreeStep(before, es, items, engine.State(), i);
      }
    }

    method TruncateBlocks(i: Inode, size: nat)
      requires Valid() && i in items && size > 0
      modifies Footprint()
      ensures i in items && !items[i].synced
      ensures forall j | j in old(items) && j != i :: j in items && items[j] == old(items)[j]
      ensures Valid() && itemObjects == old(itemObjects) && fileInodeMapping == old(fileInodeMapping)
      ensures items.Keys == old(items).Keys && forall j | j in items :: items[j].meta == old(items)[j].meta
      ensures OthersKept(old(engine.State()), engine.State(), i)
      ensures CutOutcome(old(engine.Blocks(i)), engine.Blocks(i), size)
    {
      hide EngineInv, Cached, Stored, IndexAgrees, OthersKept, CutBlocks, ItemAgrees, CutTable;
      ghost var before, es := items, engine.State();
      var at, index := BlockOf(size), Within(size);
      Locate(size);
      ItemAt(items, es, i);
      ItemPages(before[i], Cached(es, i));
      var pages := CutBlockTable(i, at, index);
      engine.TruncateCachedBlocks(i, pages, at, index);
      SetSync(i, false);
      CutAgrees(before[i], Cached(es, i), at, index);
      AgreeStep(before, es, items, engine.State(), i);
    }

    /** Flushes the inode's dirty blocks to the file at `path`, cuts it at the cached size, and marks the item
        synced. */
    method SyncOwner(i: Inode, path: Path) returns (res: int)
      requires Valid() && engine.disk.Valid() && path in engine.disk.names
      requires i in items ==> Inv(ViewOf(items, engine.State(), engine.disk.files, i, engine.disk.names[path]))
      modifies Footprint(), engine.disk`files
      ensures Valid() && engine.disk.Valid() && itemObjects == old(itemObjects) && engine.freePages == old(engine.freePages)
      ensures contents == old(contents) && fileInodeMapping == old(fileInodeMapping)
      ensures items.Keys == old(items).Keys && forall j | j in items :: items[j].meta == old(items)[j].meta
      ensures items == if i in old(items) then old(items)[i := old(items)[i].(synced := true)] else old(items)
      ensures OthersKept(old(engine.State()), engine.State(), i)
      ensures res == if i in old(items) then 0 else -1
      ensures i !in old(items) ==> engine.disk.files == old(engine.disk.files) && engine.Blocks(i) == old(engine.Blocks(i))
      ensures i in old(items) ==>
                SyncOutcome(old(ViewOf(items, engine.State(), engine.disk.files, i, engine.disk.names[path])), engine.disk.names[path],
                            old(engine.disk.files), engine.disk.files, engine.Blocks(i))
    {
      hide EngineInv, Cached, Stored, IndexAgrees, OthersKept, AllClean, ItemAgrees, Inv, Logical, Ascending, Batched;
      ghost var before, es := items, engine.State();
      StoredAt(contents, items, itemObjects, i);
      OthersSame(es, i);
      if !HasContentCached(i) {
        return -1;
      }
      ItemAt(items, es, i);
      var lastSize := contents[i].metadata.size;
      ghost var dirty, batches := engine.SyncPages(i, lastSize, path);
      SetSync(i, true);
      CleanAgrees(before[i], Cached(es, i));
      AgreeStep(before, es, items, engine.State(), i);
      res := 0;
    }

    /** For each inode not marked synced, the blocks a crash would lose. */
    method ReportUnsyncedData() returns (report: map<Inode, seq<(nat, int, nat)>>)
      requires Valid()
      ensures forall i | i in report :: i in items && report[i] == DirtyInfo(engine.Blocks(i), Sorted(engine.Blocks(i).Keys))
      ensures forall i :: i in report <==> i in items && !items[i].synced
      ensures forall i, b | b in engine.Blocks(i) && engine.Blocks(i)[b].dirty :: i in report
    {
      hide EngineInv, Cached, Stored, IndexAgrees, DirtyInfo;
      ghost var es := engine.State();
      StoredKeys(contents, items, itemObjects);
      report := map[];
      var todo := contents.Keys;
      while todo != {}
        invariant todo <= contents.Keys
        invariant forall i | i in report :: i in items && !items[i].synced && report[i] == DirtyInfo(engine.Blocks(i), Sorted(engine.Blocks(i).Keys))
        invariant forall i | i in contents && i !in todo && !items[i].synced :: i in report
        decreases todo
      {
        var i :| i in todo;
        StoredAt(contents, items, itemObjects, i);
        if !contents[i].dataSynced {
          var info := engine.GetDirtyBlocksInfo(i);
          report := report[i := info];
        }
        todo := todo - {i};
      }
      forall i, b | b in Cached(es, i) && Cached(es, i)[b].dirty ensures i in report {
        ItemAt(items, es, i);
      }
    }

    /* -------------------------------------------------------------- names, removal, clear, checkpoint */

    function GetOriginalInode(path: Path): Option<Inode>
      reads this
    {
      if path in fileInodeMapping then Some(fileInodeMapping[path]) else None
    }

    /** Maps a path to an inode; a new hard link adds to the cached link count. */
    method InsertInodeMapping(path: Path, i: Inode, increase: bool)
      requires Valid()
      modifies Footprint()
      ensures Valid() && contents == old(contents) && itemObjects == old(itemObjects) && engine.State() == old(engine.State())
      ensures fileInodeMapping == old(fileInodeMapping)[path := i]
      ensures items == if increase && i in old(items)
                       then old(items)[i := old(items)[i].(meta := Metadata(old(items)[i].meta.size, old(items)[i].meta.nlinks + 1))]
                       else old(items)
    {
      hide EngineInv, Cached, Stored, IndexAgrees;
      StoredAt(contents, items, itemObjects, i);
      fileInodeMapping := fileInodeMapping[path := i];
      if increase && i in contents {
        ghost var before := items;
        var nlinks := contents[i].metadata.nlinks + 1;
        SetMetadata(i, Metadata(0, nlinks), ["nlinks"]);
        AgreeMeta(before, engine.State(), i, items[i].meta);
      }
    }

    /** Forgets an inode: its pages are freed and its item deleted, unsynced or not. */
    method Forget(i: Inode)
      requires Valid()
      modifies Footprint()
      ensures Valid() && items == old(items) - {i} && itemObjects == old(itemObjects) && fileInodeMapping == old(fileInodeMapping)
      ensures engine.Blocks(i) == map[] && OthersKept(old(engine.State()), engine.State(), i)
    {
      hide EngineInv, Cached, Stored, IndexAgrees, OthersKept;
      ghost var before, es := items, engine.State();
      engine.RemoveCachedBlocks(i);
      DeleteItem(i);
      AgreeStep(before, es, items, engine.State(), i);
    }

    /** Removes one name of the inode. The item goes too when the name was the last one, or when the
        cache is being cleared. */
    method RemoveCachedItem(i: Inode, path: Path, isFromCache: bool) returns (removed: bool)
      requires Valid()
      modifies Footprint()
      ensures Valid() && itemObjects == old(itemObjects)
      ensures removed == (i in old(items) && (isFromCache || old(items)[i].meta.nlinks <= 1))
      ensures fileInodeMapping == if i in old(items) then old(fileInodeMapping) - {path} else old(fileInodeMapping)
      ensures removed ==>
                items == old(items) - {i} && engine.Blocks(i) == map[] && OthersKept(old(engine.State()), engine.State(), i)
      ensures !removed ==> engine.State() == old(engine.State())
                           && items == if i in old(items)
                                       then old(items)[i := old(items)[i].(meta := Metadata(old(items)[i].meta.size, old(items)[i].meta.nlinks - 1))]
                                       else old(items)
    {
      hide EngineInv, Cached, Stored, IndexAgrees, OthersKept;
      StoredAt(contents, items, itemObjects, i);
      if !HasContentCached(i) {
        return false;
      }
      fileInodeMapping := fileInodeMapping - {path};
      ghost var before := items;
      var beforeNlinks := contents[i].metadata.nlinks;
      SetMetadata(i, Metadata(0, if beforeNlinks > 2 then beforeNlinks - 1 else 1), ["nlinks"]);
      AgreeMeta(before, engine.State(), i, items[i].meta);
      if !isFromCache && beforeNlinks > 1 {
        return false;
      }
      assert items - {i} == before - {i};
      Forget(i);
      removed := true;
    }

    /** Moves a name from one inode to another name; the inode that had the target name loses one. */
    method RenameItem(from: Path, to: Path) returns (ok: bool)
      requires Valid()
      modifies Footprint()
      ensures Valid() && ok && itemObjects == old(itemObjects)
      ensures from !in old(fileInodeMapping) ==>
                items == old(items) && fileInodeMapping == old(fileInodeMapping) && engine.State() == old(engine.State())
      ensures from in old(fileInodeMapping) ==>
                var i := old(fileInodeMapping)[from];
                && fileInodeMapping == (old(fileInodeMapping) - {from})[to := i]
                && (to !in old(fileInodeMapping) || old(fileInodeMapping)[to] !in old(items) ==>
                      items == old(items) && engine.State() == old(engine.State()))
                && (to in old(fileInodeMapping) && old(fileInodeMapping)[to] in old(items) ==>
                      var j := old(fileInodeMapping)[to];
                      var was := old(items)[j];
                      if was.meta.nlinks > 1
                      then items == old(items)[j := was.(meta := Metadata(was.meta.size, was.meta.nlinks - 1))]
                           && engine.State() == old(engine.State())
                      else items == old(items) - {j} && engine.Blocks(j) == map[]
                           && OthersKept(old(engine.State()), engine.State(), j))
    {
      hide EngineInv, Cached, Stored, IndexAgrees, OthersKept;
      ok := true;
      if from !in fileInodeMapping {
        return;
      }
      var i := fileInodeMapping[from];
      var target := GetOriginalInode(to);
      fileInodeMapping := (fileInodeMapping - {from})[to := i];
      if target.Some? {
        var j := target.value;
        StoredAt(contents, items, itemObjects, j);
        if HasContentCached(j) {
          ghost var before := items;
          var beforeNlinks := contents[j].metadata.nlinks;
          SetMetadata(j, Metadata(0, if beforeNlinks > 2 then beforeNlinks - 1 else 1), ["nlinks"]);
          AgreeMeta(before, engine.State(), j, items[j].meta);
          if beforeNlinks > 1 {
            return;
          }
          assert items - {j} == before - {j};
          Forget(j);
        }
      }
    }

    /** Drops every item, whatever is unsynced. Of several paths on one inode only the first met loses its
        mapping; the items and pages are all gone all the same. */
    method ClearAllCache()
      requires Valid()
      modifies Footprint()
      ensures Valid() && contents == map[] && items == map[] && itemObjects == old(itemObjects)
      ensures OneNameGone(old(items), old(fileInodeMapping), fileInodeMapping)
      ensures NoDuplicates(engine.freePages) && forall p: nat :: p in engine.freePages <==> p < |engine.pageStates|
    {
      hide EngineInv, Cached, Stored, IndexAgrees;
      ghost var mapping, items0 := fileInodeMapping, items;
      ghost var gone: map<Inode, Path> := map[];
      var names := fileInodeMapping;
      var todo := names.Keys;
      while todo != {}
        invariant Valid() && itemObjects == old(itemObjects) && todo <= names.Keys
        invariant NamesErased(items0, mapping, fileInodeMapping, gone) && items.Keys == items0.Keys - gone.Keys
        invariant forall p | p in mapping && p !in todo && mapping[p] in items0 :: mapping[p] in gone
        decreases todo
      {
        var p :| p in todo;
        if names[p] in items {
          EraseMore(items0, mapping, fileInodeMapping, gone, p);
          gone := gone[names[p] := p];
        }
        var _ := RemoveCachedItem(names[p], p, true);
        todo := todo - {p};
      }
      StoredKeys(contents, items, itemObjects);
      var buckets := contents.Keys;
      while buckets != {}
        invariant Valid() && itemObjects == old(itemObjects) && items.Keys <= buckets
        invariant NamesErased(items0, mapping, fileInodeMapping, gone)
        decreases buckets
      {
        var i :| i in buckets;
        Forget(i);
        buckets := buckets - {i};
      }
      assert items == map[];
      StoredKeys(contents, items, itemObjects);
      assert contents == map[];
      AllFree(items, engine.State());
    }
  }

  /** The cache is well formed over this disk, and the paths it knows lead where the disk says. */
  ghost predicate Mounted(cache: Cache, disk: Disk)
    reads cache, disk, cache.itemObjects, cache.engine, cache.engine.pageObjects
  {
    && cache.Valid()
    && cache.engine.disk == disk && disk.Valid() && disk !in cache.Footprint()
    && Coherent(cache.fileInodeMapping, disk.names)
  }

  lemma MountedApart(cache: Cache, disk: Disk)
    requires Mounted(cache, disk)
    ensures disk !in cache.Footprint() && cache.engine.disk == disk && cache.Valid()
  {}
}
