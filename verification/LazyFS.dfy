/** The file operations LazyFS answers: write, read, truncate, fsync, clear and checkpoint. */
module LazyFSOps {
  import opened Posix
  import opened Overlay
  import opened Slots
  import opened Disks
  import opened EngineStates
  import opened Engine
  import opened Items
  import opened CacheStates
  import opened FileStates
  import opened Caches
  import opened WriteSteps
  import opened ReadSteps

  /** The cache has been cut at the new end of file: the blocks past it are gone and the one it falls into is
      zero from there on. So a read stops at it, unless that block is read from a disk file that is longer. */
  ghost predicate StopsAt(was: map<nat, CBlock>, v: View) {
    && BlocksCut(was, v.blocks, BlockOf(v.size), Within(v.size))
    && (Trails(v) <==> Within(v.size) > 0 && BlockOf(v.size) !in was && v.size < |v.disk|)
  }

  /** What shrinking leaves of the cached blocks: nothing comes in or turns dirty, and all is as it was unless
      the cache is asked for the inode. */
  ghost predicate Shrunk(was: map<nat, CBlock>, v: View, byInode: bool) {
    && Dirtied(was, v.blocks, {})
    && if byInode then v.blocks.Keys == Before(was.Keys, v.size) && StopsAt(was, v) else v.blocks == was
  }

  /** How the marks move when the cache is cut at `size`. */
  lemma CutMarks(items: map<Inode, ItemState>, items': map<Inode, ItemState>, i: Inode, size: nat)
    requires i in items && items'.Keys == items.Keys && (forall j | j in items :: items'[j].meta == items[j].meta)
    requires forall j | j in items && j != i :: items'[j] == items[j]
    requires items'[i].synced == (size == 0 && items[i].synced)
    ensures Flagged(items') == Flagged(items) + (if size > 0 then {i} else {}) && MetasKept(items, items', i)
  {}

  lemma MarksEnd(a: map<Inode, ItemState>, b: map<Inode, ItemState>, c: map<Inode, ItemState>, d: map<Inode, ItemState>, i: Inode, more: set<Inode>)
    requires Flagged(b) == Flagged(a) && (c == b || MarksMove(b, c, i)) && Flagged(d) == Flagged(c) + more && more <= {i}
    ensures MarksMove(a, d, i)
  {}

  lemma MarksWrite(a: map<Inode, ItemState>, b: map<Inode, ItemState>, c: map<Inode, ItemState>, d: map<Inode, ItemState>, i: Inode)
    requires Flagged(b) == Flagged(a) && (c == b || MarksMove(b, c, i)) && MarksMove(c, d, i)
    ensures MarksMove(a, d, i)
  {}

  /** Cutting a file, with what lies past the new end dropped from the cache or not. */
  lemma EndStep(v: View, v': View, cut: bool)
    requires Inv(v) && v'.size <= v.size && v'.disk == v.disk
    requires if cut then CutOutcome(v.blocks, v'.blocks, v'.size) else v'.blocks == v.blocks
    ensures Inv(v') && Logical(v') == Ftruncate(Logical(v), v'.size) && Shrunk(v.blocks, v', cut)
  {
    hide Inv, Logical, Ftruncate, Dirtied, Before, CutBlocks;
    Locate(v'.size);
    CutStep(v, v'.size);
    KeepStep(v, v'.size);
    CutDirt(v.blocks, BlockOf(v'.size), Within(v'.size));
    CutKeys(v.blocks, v'.size);
    assert v' == View(v'.size, v.disk, v'.blocks);
  }

  lemma Fields()
    ensures "size" in ["size", "mtime", "ctime"] && "nlinks" !in ["size", "mtime", "ctime"]
    ensures "size" in ["size", "mtime"] && "nlinks" !in ["size", "mtime"]
  {
    assert ["size", "mtime", "ctime"][0] == "size" == ["size", "mtime"][0];
    assert "nlinks"[0] == 'n' && "size"[0] == 's' && "mtime"[0] == 'm' && "ctime"[0] == 'c';
  }

  class LazyFS {
    const cache: Cache
    const disk: Disk

    ghost predicate Valid()
      reads cache, disk, cache.itemObjects, cache.engine, cache.engine.pageObjects
    {
      Mounted(cache, disk) && FilesInv(cache.items, cache.engine.State(), disk.files)
    }

    /** What readers see of an inode. */
    ghost function Volatile(i: Inode): Image
      reads cache, cache.engine, disk
    {
      VolatileOf(cache.items, cache.engine.State(), disk.files, i)
    }

    /** What the disk holds of it. */
    ghost function Durable(i: Inode): Image
      reads disk
    {
      ImageOf(disk.files, i)
    }

    constructor (cache: Cache, disk: Disk)
      requires cache.Valid() && cache.engine.disk == disk && disk.Valid() && disk !in cache.Footprint()
      requires cache.items == map[] && cache.fileInodeMapping == map[]
      ensures Valid() && this.cache == cache && this.disk == disk
      ensures forall i :: Volatile(i) == Durable(i)
    {
      this.cache := cache;
      this.disk := disk;
    }

    /** lstat's link count. */
    function LinkCount(i: Inode): nat {
      |set p | p in disk.names && disk.names[p] == i|
    }

    /** The link count of an inode as LazyFS has it, or will at first sight. */
    ghost function Links(i: Inode): nat
      reads cache
    {
      if i in cache.items then cache.items[i].meta.nlinks else LinkCount(i)
    }

    /** The size part of getattr: caches the inode and its size on first sight, and answers the
        cached size afterwards. */
    method GetAttr(path: Path) returns (i: Inode, size: nat)
      requires Valid() && path in disk.names
      modifies cache.Footprint()
      ensures Valid() && fresh(cache.Footprint() - old(cache.Footprint()))
      ensures i == disk.names[path] && i in disk.files && i in cache.items && size == cache.items[i].meta.size
      ensures Volatile(i) == old(Volatile(i)) && |Volatile(i)| == size
      ensures OnlyTouches(old(cache.items), old(cache.engine.State()), disk.files, cache.items, cache.engine.State(), disk.files, i)
      ensures cache.engine.State() == old(cache.engine.State()) && Links(i) == old(Links(i)) && Flagged(cache.items) == old(Flagged(cache.items))
      ensures cache.fileInodeMapping == old(cache.fileInodeMapping)[path := i]
    {
      hide EngineInv, Cached, Inv, FilesInv, VolatileOf, FilesInvBut, FileInv;
      ghost var before, es := cache.items, cache.engine.State();
      disk.NamedFile(path);
      i := Lookup(path);
      StoredAt(cache.contents, cache.items, cache.itemObjects, i);
      if cache.HasContentCached(i) {
        FileAt(before, es, disk.files, i);
        size := cache.contents[i].metadata.size;
        OthersSame(es, i);
        TouchesOnly(before, es, disk.files, before, es, disk.files, i);
      } else {
        size := Admit(i);
      }
    }

    /** First sight of a file: an item with the size and link count lstat gives. */
    method Admit(i: Inode) returns (size: nat)
      requires Valid() && i in disk.files && i !in cache.items
      modifies cache.Footprint()
      ensures Valid() && fresh(cache.Footprint() - old(cache.Footprint()))
      ensures i in cache.items && size == cache.items[i].meta.size
      ensures Volatile(i) == old(Volatile(i)) && |Volatile(i)| == size
      ensures OnlyTouches(old(cache.items), old(cache.engine.State()), disk.files, cache.items, cache.engine.State(), disk.files, i)
      ensures cache.engine.State() == old(cache.engine.State()) && Links(i) == old(Links(i)) && Flagged(cache.items) == old(Flagged(cache.items))
      ensures cache.fileInodeMapping == old(cache.fileInodeMapping)
    {
      hide EngineInv, Cached, Inv, FilesInv, VolatileOf, FilesInvBut, FileInv, OnlyTouches, IndexAgrees, Coherent, Mounted;
      ghost var before, es := cache.items, cache.engine.State();
      size := |disk.files[i]|;
      MountedApart(cache, disk);
      AdmitItem(i, size);
      InvSplit(before, es, disk.files, i);
      NewItem(before, es, disk.files, cache.items, i);
      OthersSame(es, i);
      TouchesOnly(before, es, disk.files, cache.items, es, disk.files, i);
      Rejoin(before, es, disk.files, cache.items, es, disk.files, i);
      FileAt(cache.items, es, disk.files, i);
    }

    /** The item itself. */
    method AdmitItem(i: Inode, size: nat)
      requires Mounted(cache, disk) && i !in cache.items
      modifies cache.Footprint()
      ensures Mounted(cache, disk) && fresh(cache.Footprint() - old(cache.Footprint())) && cache.engine.State() == old(cache.engine.State())
      ensures cache.items.Keys == old(cache.items).Keys + {i} && cache.items[i].meta == Metadata(size, LinkCount(i))
      ensures cache.fileInodeMapping == old(cache.fileInodeMapping) && Flagged(cache.items) == old(Flagged(cache.items))
      ensures forall j | j in old(cache.items) :: cache.items[j].meta == old(cache.items)[j].meta
    {
      hide EngineInv, Cached, IndexAgrees, Coherent, MetasKept;
      ghost var before := cache.items;
      cache.EnsureItem(i);
      ghost var ensured := cache.items;
      KeptHas(before, ensured, i);
      var _ := cache.UpdateContentMetadata(i, Metadata(size, LinkCount(i)), ["size", "atime", "ctime", "mtime", "nlinks"]);
      Admitted(before, ensured, cache.items, i);
    }

    /** The inode of a path, from the cached mapping or from the file system. */
    method Lookup(path: Path) returns (i: Inode)
      requires Valid() && path in disk.names
      modifies cache.Footprint()
      ensures Valid() && cache.Footprint() == old(cache.Footprint()) && i == disk.names[path]
      ensures cache.fileInodeMapping == old(cache.fileInodeMapping)[path := i]
      ensures cache.items == old(cache.items) && cache.engine.State() == old(cache.engine.State()) && cache.contents == old(cache.contents)
    {
      hide EngineInv, Cached, Inv, FilesInv, Coherent;
      if path in cache.fileInodeMapping { CoherentAt(cache.fileInodeMapping, disk.names, path); }
      var known := cache.GetOriginalInode(path);
      if known.Some? {
        i := known.value;
      } else {
        i := disk.names[path];
        PathAdded(cache.fileInodeMapping, disk.names, path);
        cache.InsertInodeMapping(path, i, false);
      }
    }

    /* -------------------------------------------------------------- write */

    ghost function FileView(i: Inode, size: nat): View
      reads cache.engine, disk
    {
      View(size, ImageOf(disk.files, i), cache.engine.Blocks(i))
    }

    /** Merges a piece with the bytes read from disk, in the block-sized caching buffer. */
    method MergeBuffer(read: Image, from: nat, piece: Image) returns (merged: Image)
      requires |read| <= B && from + |piece| <= B
      ensures merged == Merged(read, from, piece)
    {
      var buffer := new Byte[B];
      Memcpy(buffer, 0, read);
      Memcpy(buffer, from, piece);
      if from > |read| {
        Memcpy(buffer, |read|, Zeros(from - |read|));
      }
      merged := buffer[..Max(|read|, from + |piece|)];
    }

    /** One turn of the block loop of write. `fsb` is the file size before the call, `size` the size
        the file has reached by now. */
    method WriteBlock(i: Inode, b: nat, from: nat, piece: Image, fsb: nat, cacheFull: bool, ghost size: nat)
      requires Mounted(cache, disk) && i in cache.items && i in disk.files
      requires Inv(FileView(i, size)) && PieceFits(FileView(i, size), b, from, piece) && fsb <= size
      requires cacheFull ==> cache.engine.freePages == []
      requires b !in cache.engine.Blocks(i) && cache.engine.freePages != [] && fsb <= Start(b) ==> from == 0 && size <= Start(b)
      modifies cache.Footprint(), disk`files
      ensures Mounted(cache, disk) && fresh(cache.Footprint() - old(cache.Footprint())) && cache.fileInodeMapping == old(cache.fileInodeMapping)
      ensures MetasKept(old(cache.items), cache.items, i) && OthersKept(old(cache.engine.State()), cache.engine.State(), i)
      ensures i in disk.files && disk.files == old(disk.files)[i := disk.files[i]]
      ensures BlockWritten(old(FileView(i, size)), FileView(i, Grown(old(FileView(i, size)), b, from, piece)), b, from, piece,
                           |old(cache.engine.freePages)|, |cache.engine.freePages|)
    {
      hide EngineInv, Cached, Inv, OthersKept, BlockWritten, Start, MetasKept, FilesInv, Mounted;
      MountedApart(cache, disk);
      var cached := cache.IsBlockCached(i, b);
      if cached {
        WriteResident(i, b, from, piece, size);
      } else {
        var needsPread := fsb > Start(b) && !cacheFull;
        var read: Image := [];
        if needsPread {
          read := disk.ReadAt(i, B, Start(b));
          ReadSome(FileView(i, size), b);
        }
        if !needsPread || |read| == 0 {
          WriteUncached(i, b, from, piece, from, piece, cacheFull, false, size);
        } else {
          var merged := MergeBuffer(read, from, piece);
          WriteUncached(i, b, from, piece, 0, merged, cacheFull, true, size);
        }
      }
    }

    /** A put into the cache, of an inode that has its item. */
    method Put(i: Inode, b: nat, bytes: Image, from: nat) returns (put: bool)
      requires Mounted(cache, disk) && i in cache.items && i in disk.files && |bytes| > 0 && from + |bytes| <= B
      modifies cache.Footprint()
      ensures Mounted(cache, disk) && fresh(cache.Footprint() - old(cache.Footprint())) && cache.fileInodeMapping == old(cache.fileInodeMapping) && disk.files == old(disk.files)
      ensures MetasKept(old(cache.items), cache.items, i) && OthersKept(old(cache.engine.State()), cache.engine.State(), i)
      ensures PutOutcome(old(cache.engine.Blocks(i)), cache.engine.Blocks(i), b, from, bytes,
                         |old(cache.engine.freePages)|, |cache.engine.freePages|, put)
    {
      hide EngineInv, Cached, OthersKept, MetasKept, Coherent, PutOutcome, IndexAgrees;
      ghost var items0 := cache.items;
      put := cache.PutDataBlock(i, b, bytes, from, OpWrite);
      ItemsKept(items0, cache.items, i);
    }

    /** The disk part of write. */
    method Through(i: Inode, bytes: Image, at: nat)
      requires Mounted(cache, disk) && i in disk.files
      modifies disk`files
      ensures Mounted(cache, disk) && disk.files == old(disk.files)[i := Pwrite(old(disk.files)[i], bytes, at)]
    {
      hide EngineInv, Cached, IndexAgrees, Coherent;
      var _ := disk.WriteAt(i, bytes, at);
    }

    method WriteResident(i: Inode, b: nat, from: nat, piece: Image, ghost size: nat)
      requires Mounted(cache, disk) && i in cache.items && i in disk.files
      requires Inv(FileView(i, size)) && PieceFits(FileView(i, size), b, from, piece)
      requires b in cache.engine.Blocks(i)
      modifies cache.Footprint(), disk`files
      ensures Mounted(cache, disk) && fresh(cache.Footprint() - old(cache.Footprint())) && cache.fileInodeMapping == old(cache.fileInodeMapping)
      ensures MetasKept(old(cache.items), cache.items, i) && OthersKept(old(cache.engine.State()), cache.engine.State(), i)
      ensures disk.files == old(disk.files)
      ensures BlockWritten(old(FileView(i, size)), FileView(i, Grown(old(FileView(i, size)), b, from, piece)), b, from, piece,
                           |old(cache.engine.freePages)|, |cache.engine.freePages|)
    {
      hide EngineInv, Cached, Inv, OthersKept, BlockWritten, Start, MetasKept, Mounted;
      ghost var v := FileView(i, size);
      var put := Put(i, b, piece, from);
      WroteResident(v, cache.engine.Blocks(i), b, from, piece, |cache.engine.freePages|);
      if !put {
        assert false;
      }
    }

    /** Puts `data` at index `at` of a block that is not resident, or writes it through to disk when
        no page can be had. */
    method PutOrThrough(i: Inode, b: nat, at: nat, data: Image, cacheFull: bool, ghost size: nat)
      requires Mounted(cache, disk) && i in cache.items && i in disk.files
      requires |data| > 0 && at + |data| <= B
      requires b !in cache.engine.Blocks(i) && (cacheFull ==> cache.engine.freePages == [])
      modifies cache.Footprint(), disk`files
      ensures Mounted(cache, disk) && fresh(cache.Footprint() - old(cache.Footprint())) && cache.fileInodeMapping == old(cache.fileInodeMapping)
      ensures MetasKept(old(cache.items), cache.items, i) && OthersKept(old(cache.engine.State()), cache.engine.State(), i)
      ensures i in disk.files && disk.files == old(disk.files)[i := disk.files[i]]
      ensures Placed(old(FileView(i, size)), FileView(i, size), b, at, data, |old(cache.engine.freePages)|, |cache.engine.freePages|)
    {
      hide EngineInv, Cached, OthersKept, Start, MetasKept, Fresh, Mounted;
      var put := false;
      OthersSame(cache.engine.State(), i);
      MetaSame(cache.items, i);
      MountedApart(cache, disk);
      if !cacheFull {
        put := Put(i, b, data, at);
      }
      if !put {
        Through(i, data, Start(b) + at);
      }
    }

    /** A block that is not resident. `data` is the piece itself or the piece merged with what the
        disk holds of the block. */
    method WriteUncached(i: Inode, b: nat, ghost from: nat, ghost piece: Image, at: nat, data: Image, cacheFull: bool,
                         ghost merged: bool, ghost size: nat)
      requires Mounted(cache, disk) && i in cache.items && i in disk.files
      requires Inv(FileView(i, size)) && PieceFits(FileView(i, size), b, from, piece)
      requires b !in cache.engine.Blocks(i) && (cacheFull ==> cache.engine.freePages == [])
      requires if merged then at == 0 && data == MergedBlock(FileView(i, size), b, from, piece)
               else at == from && data == piece && (cache.engine.freePages != [] ==> from == 0 && size <= Start(b))
      modifies cache.Footprint(), disk`files
      ensures Mounted(cache, disk) && fresh(cache.Footprint() - old(cache.Footprint())) && cache.fileInodeMapping == old(cache.fileInodeMapping)
      ensures MetasKept(old(cache.items), cache.items, i) && OthersKept(old(cache.engine.State()), cache.engine.State(), i)
      ensures i in disk.files && disk.files == old(disk.files)[i := disk.files[i]]
      ensures BlockWritten(old(FileView(i, size)), FileView(i, Grown(old(FileView(i, size)), b, from, piece)), b, from, piece,
                           |old(cache.engine.freePages)|, |cache.engine.freePages|)
    {
      hide EngineInv, Cached, Inv, OthersKept, BlockWritten, Start, MetasKept, Mounted, MergedBlock;
      ghost var v, free := FileView(i, size), |cache.engine.freePages|;
      MergedSize(v, b, from, piece);
      PutOrThrough(i, b, at, data, cacheFull, size);
      WroteUncached(v, FileView(i, Grown(v, b, from, piece)), b, from, piece, at, data, merged, free, |cache.engine.freePages|);
    }

    /** The block loop of write. */
    method WriteBlocks(i: Inode, buf: Image, offset: nat, fsb: nat, cacheFull: bool, ghost size: nat, ghost touched: set<nat>)
      requires Mounted(cache, disk) && i in cache.items && i in disk.files && |buf| > 0
      requires Inv(FileView(i, size)) && offset <= size && fsb <= size
      requires cacheFull ==> cache.engine.freePages == []
      requires cache.engine.freePages != [] ==> FreshReady(fsb, size, offset, cache.engine.Blocks(i))
      requires Extent(offset, offset + |buf|) <= touched
      modifies cache.Footprint(), disk`files
      ensures Mounted(cache, disk) && fresh(cache.Footprint() - old(cache.Footprint())) && cache.fileInodeMapping == old(cache.fileInodeMapping)
      ensures MetasKept(old(cache.items), cache.items, i) && OthersKept(old(cache.engine.State()), cache.engine.State(), i)
      ensures i in disk.files && disk.files == old(disk.files)[i := disk.files[i]]
      ensures Wrote(old(FileView(i, size)), FileView(i, Extended(size, offset, |buf|)), offset, buf, touched,
                    |old(cache.engine.freePages)|, |cache.engine.freePages|)
      ensures cache.engine.freePages != [] ==>
                Extent(offset, offset + |buf|) <= cache.engine.Blocks(i).Keys
    {
      hide EngineInv, Cached, Inv, OthersKept, Start, BlockOf, Within, MetasKept, Mounted, Wrote, BlockWritten, PieceFrom,
           PieceTo, Extent, FreshReady, Progress, PieceFits, Grown;
      var high := BlockOf(offset + |buf| - 1);
      var it: nat, b := 0, BlockOf(offset);
      ghost var v0, items0, es0, free0 := FileView(i, size), cache.items, cache.engine.State(), |cache.engine.freePages|;
      ProgressStart(v0, offset, buf, fsb, touched, free0);
      OthersSame(es0, i);
      MetaSame(items0, i);
      while b <= high
        invariant BlockOf(offset) <= b
        invariant Mounted(cache, disk) && fresh(cache.Footprint() - old(cache.Footprint())) && cache.fileInodeMapping == old(cache.fileInodeMapping)
        invariant i in cache.items && i in disk.files && disk.files == old(disk.files)[i := disk.files[i]]
        invariant MetasKept(items0, cache.items, i) && OthersKept(es0, cache.engine.State(), i)
        invariant cacheFull ==> cache.engine.freePages == []
        invariant Progress(v0, FileView(i, Extended(size, offset, it)), offset, buf, it, b, fsb, touched, free0, |cache.engine.freePages|)
      {
        ghost var v, free := FileView(i, Extended(size, offset, it)), |cache.engine.freePages|;
        ghost var items1, es1 := cache.items, cache.engine.State();
        ProgressReady(v0, v, offset, buf, it, b, fsb, touched, free0, free);
        var from, to := PieceFrom(offset, |buf|, b), PieceTo(offset, |buf|, b, it);
        var piece := buf[it..it + (to + 1 - from)];
        WriteBlock(i, b, from, piece, fsb, cacheFull, Extended(size, offset, it));
        WrittenKeys(v, FileView(i, Grown(v, b, from, piece)), b, from, piece, free, |cache.engine.freePages|);
        ProgressStep(v0, v, FileView(i, Grown(v, b, from, piece)), offset, buf, it, b, fsb, touched, free0, free, |cache.engine.freePages|);
        MetasTrans(items0, items1, cache.items, i);
        OthersTrans(es0, es1, cache.engine.State(), i);
        it, b := it + (to + 1 - from), b + 1;
      }
      ProgressEnd(v0, FileView(i, Extended(size, offset, it)), offset, buf, it, b, fsb, touched, free0, |cache.engine.freePages|);
    }

    method SetSize(i: Inode, size: nat, values: seq<string>)
      requires Mounted(cache, disk) && i in cache.items && "size" in values && "nlinks" !in values
      modifies cache.Footprint()
      ensures Mounted(cache, disk) && cache.Footprint() == old(cache.Footprint()) && cache.engine.State() == old(cache.engine.State())
      ensures cache.fileInodeMapping == old(cache.fileInodeMapping) && SizeSet(old(cache.items), cache.items, i, size)
    {
      hide EngineInv, Cached;
      var _ := cache.UpdateContentMetadata(i, Metadata(size, 0), values);
    }

    /** From the size check on: the block loop, then the new size. `fsb` is the size read at the
        start of the call, which a zero fill does not refresh. */
    method WriteSized(i: Inode, buf: Image, offset: nat, fsb: nat, ghost touched: set<nat>)
      requires Valid() && i in cache.items && i in disk.files && |buf| > 0
      requires offset <= cache.items[i].meta.size && fsb <= cache.items[i].meta.size == Max(fsb, offset)
      requires cache.engine.freePages != [] ==> FreshReady(fsb, cache.items[i].meta.size, offset, cache.engine.Blocks(i))
      requires Extent(offset, offset + |buf|) <= touched
      modifies cache.Footprint(), disk`files
      ensures Valid() && fresh(cache.Footprint() - old(cache.Footprint()))
      ensures Volatile(i) == Pwrite(old(Volatile(i)), buf, offset)
      ensures i in cache.items && i in disk.files && cache.items[i].meta.size == Max(fsb, offset + |buf|)
      ensures Links(i) == old(Links(i)) && MarksMove(old(cache.items), cache.items, i) && cache.fileInodeMapping == old(cache.fileInodeMapping)
      ensures OnlyTouches(old(cache.items), old(cache.engine.State()), old(disk.files), cache.items, cache.engine.State(), disk.files, i)
      ensures Landed(old(Durable(i)), old(cache.engine.Blocks(i)), |old(cache.engine.freePages)|, Volatile(i), Durable(i),
                     cache.engine.Blocks(i), |cache.engine.freePages|, offset, offset + |buf|, touched)
    {
      hide EngineInv, Cached, Inv, OthersKept, Start, BlockOf, Within, Wrote, Extent, FreshReady, FilesInv, FilesInvBut, Landed,
           OnlyTouches, Logical, Pwrite, MetasKept, Mounted, SizeSet, IndexAgrees;
      ghost var items0, es0, files0 := cache.items, cache.engine.State(), disk.files;
      ghost var v0, free0 := FileView(i, cache.items[i].meta.size), |cache.engine.freePages|;
      FileAt(items0, es0, files0, i);
      var cacheFull := |cache.engine.pages| > 0 && cache.engine.freePages == [];
      WriteBlocks(i, buf, offset, fsb, cacheFull, v0.size, touched);
      ghost var items1, v1 := cache.items, FileView(i, Max(v0.size, offset + |buf|));
      WroteLanded(v0, v1, offset, buf, touched, free0, |cache.engine.freePages|);
      MetasSizes(items0, items1, i);
      MarksMoved(items0, items1, i);
      var newSize := Max(fsb, offset + |buf|);
      MountedApart(cache, disk);
      Fields();
      SetSize(i, newSize, if newSize > fsb then ["size", "mtime", "ctime"] else ["size", "mtime"]);
      SizeOnly(items1, cache.items, i, newSize);
      FileReplaced(items0, es0, files0, items1, cache.items, cache.engine.State(), disk.files, i, v1);
    }

    /** write. Past end of file, with an open file, the hole is written with zeros first. `touched`
        stands for any set that covers the blocks from the old end of file, or the offset, on. */
    method LfsWrite(path: Path, buf: Image, offset: nat, openFile: bool, ghost touched: set<nat>) returns (res: nat)
      requires Valid() && path in disk.names && |buf| > 0
      requires openFile || offset <= |Volatile(disk.names[path])|
      requires Extent(Min(|Volatile(disk.names[path])|, offset), offset + |buf|) <= touched
      modifies cache.Footprint(), disk`files
      ensures Valid() && fresh(cache.Footprint() - old(cache.Footprint())) && res == |buf|
      ensures var i := disk.names[path];
              && i in cache.items && i in disk.files
              && Volatile(i) == Pwrite(old(Volatile(i)), buf, offset)
              && cache.items[i].meta.size == Max(|old(Volatile(i))|, offset + |buf|)
              && OnlyTouches(old(cache.items), old(cache.engine.State()), old(disk.files), cache.items, cache.engine.State(), disk.files, i)
              && Landed(old(Durable(i)), old(cache.engine.Blocks(i)), |old(cache.engine.freePages)|, Volatile(i), Durable(i),
                        cache.engine.Blocks(i), |cache.engine.freePages|, Min(|old(Volatile(i))|, offset), offset + |buf|, touched)
              && Links(i) == old(Links(i)) && MarksMove(old(cache.items), cache.items, i) && cache.fileInodeMapping == old(cache.fileInodeMapping)[path := i]
      decreases openFile, 0
    {
      hide EngineInv, Cached, Inv, OthersKept, Start, BlockOf, Within, Extent, FreshReady, FilesInv, FilesInvBut, Landed,
           OnlyTouches, Logical, Pwrite, Mounted, VolatileOf, FileInv, IndexAgrees, Ftruncate, Fits, Dirtied, Torn, Stored, Flagged, MarksMove;
      ghost var items0, es0, files0 := cache.items, cache.engine.State(), disk.files;
      MountedApart(cache, disk);
      var i, fsb := GetAttr(path);
      TouchedParts(fsb, offset, |buf|);
      ghost var items1, es1, vol := cache.items, cache.engine.State(), Volatile(i);
      ghost var dur, blocks, free := Durable(i), cache.engine.Blocks(i), |cache.engine.freePages|;
      if openFile && fsb < offset {
        FillHole(i, path, fsb, offset, touched);
        SparsePwrite(vol, buf, offset);
        TouchesTrans(items0, es0, files0, items1, es1, files0, cache.items, cache.engine.State(), disk.files, i);
      } else {
        if cache.engine.freePages != [] { InPlaceReady(fsb, offset, cache.engine.Blocks(i)); }
      }
      ghost var items2, es2, files2 := cache.items, cache.engine.State(), disk.files;
      ghost var vol2, dur2, blocks2, free2 := Volatile(i), Durable(i), cache.engine.Blocks(i), |cache.engine.freePages|;
      WriteSized(i, buf, offset, fsb, touched);
      if openFile && fsb < offset {
        LandedTwice(dur, blocks, free, vol2, dur2, blocks2, free2,
                    Volatile(i), Durable(i), cache.engine.Blocks(i), |cache.engine.freePages|, fsb, offset, offset + |buf|, buf, touched);
      }
      TouchesTrans(items0, es0, files0, items2, es2, files2, cache.items, cache.engine.State(), disk.files, i);
      MarksWrite(items0, items1, items2, cache.items, i);
      res := |buf|;
    }

    /** Zeros from the end of file to where a sparse write starts. */
    method FillHole(i: Inode, path: Path, fsb: nat, offset: nat, ghost touched: set<nat>)
      requires Valid() && path in disk.names && i == disk.names[path] && fsb == |Volatile(i)| < offset
      requires path in cache.fileInodeMapping && cache.fileInodeMapping[path] == i && Extent(fsb, offset) <= touched
      modifies cache.Footprint(), disk`files
      ensures Valid() && fresh(cache.Footprint() - old(cache.Footprint()))
      ensures i in cache.items && i in disk.files && cache.items[i].meta.size == offset
      ensures Volatile(i) == Pwrite(old(Volatile(i)), Zeros(offset - fsb), fsb)
      ensures OnlyTouches(old(cache.items), old(cache.engine.State()), old(disk.files), cache.items, cache.engine.State(), disk.files, i)
      ensures Landed(old(Durable(i)), old(cache.engine.Blocks(i)), |old(cache.engine.freePages)|, Volatile(i), Durable(i),
                     cache.engine.Blocks(i), |cache.engine.freePages|, fsb, offset, touched)
      ensures cache.engine.freePages != [] ==> FreshReady(fsb, offset, offset, cache.engine.Blocks(i))
      ensures Links(i) == old(Links(i)) && MarksMove(old(cache.items), cache.items, i) && cache.fileInodeMapping == old(cache.fileInodeMapping)
      decreases false, 1
    {
      hide EngineInv, Cached, Inv, OthersKept, Start, BlockOf, Within, Extent, FreshReady, FilesInv, FilesInvBut, Landed,
           OnlyTouches, Logical, Pwrite, Mounted, VolatileOf, FileInv, IndexAgrees, Ftruncate, Fits, Dirtied, Torn, Stored, Flagged, MarksMove;
      ghost var dur, blocks, free := Durable(i), cache.engine.Blocks(i), |cache.engine.freePages|;
      var zeros := Zeros(offset - fsb);
      var _ := LfsWrite(path, zeros, fsb, false, touched);
      LandedIn(dur, blocks, free, Volatile(i), Durable(i), cache.engine.Blocks(i), |cache.engine.freePages|, fsb, offset, touched);
      if cache.engine.freePages != [] { SparseReady(fsb, offset, cache.engine.Blocks(i)); }
    }

    /* -------------------------------------------------------------- read */

    /** The disk part of read: the delayed pread, if any, into the caller's buffer. */
    method ReadDelayedRun(i: Inode, buf: array<Byte>, at: nat, chunk: nat, chunkOffset: nat, ghost off: nat) returns (got: nat)
      requires i in disk.files && at + chunk <= buf.Length && (chunk > 0 ==> chunkOffset == off)
      modifies buf
      ensures got == |Pread(disk.files[i], chunk, off)| <= chunk
      ensures buf[..at + got] == old(buf[..at]) + Pread(disk.files[i], chunk, off)
    {
      got := 0;
      if chunk > 0 {
        var bytes := disk.ReadAt(i, chunk, chunkOffset);
        Memcpy(buf, at, bytes);
        got := |bytes|;
      }
    }

    /** The cached part of read: the asked for piece of a resident block, up to its readable end. */
    method ReadCached(i: Inode, b: nat, buf: array<Byte>, at: nat, from: nat, to: nat, ghost c: CBlock) returns (got: nat)
      requires cache.Valid() && buf !in cache.Footprint()
      requires b in cache.engine.Blocks(i) && cache.engine.Blocks(i)[b] == c
      requires |c.bytes| == B && from <= Min(c.to, to) < B && at + (Min(c.to, to) + 1 - from) <= buf.Length
      modifies buf
      ensures got == Min(c.to, to) + 1 - from && buf[..at + got] == old(buf[..at]) + c.bytes[from..Min(c.to, to) + 1]
    {
      hide EngineInv, Cached;
      var readBuffer := new Byte[B];
      var found, maxReadable := cache.GetDataBlock(i, b, readBuffer);
      if !found {
        assert false;
      }
      var readTo := Min(maxReadable, to);
      Memcpy(buf, at, readBuffer[from..readTo + 1]);
      got := readTo + 1 - from;
    }

    /** A resident block: the run read late so far, then the block's own piece. */
    method ReadResidentBlock(i: Inode, b: nat, buf: array<Byte>, it: nat, chunk: nat, chunkOffset: nat, from: nat, to: nat,
                             ghost v: View, ghost offset: nat, ghost len: nat, ghost handled: nat)
      returns (run: nat, got: nat)
      requires cache.Valid() && buf !in cache.Footprint() && i in disk.files && FileView(i, v.size) == v
      requires Inv(v) && b in v.blocks && 0 < len <= buf.Length && it <= len && Turn(v, offset, len, b, buf[..it], chunk, chunkOffset)
      requires b <= BlockOf(offset + len - 1) && Start(b) <= v.size
      requires from == PieceFrom(offset, len, b) && to == PieceTo(offset, len, b, handled) && it + chunk < len
      modifies buf
      ensures run == chunk && got == Min(v.blocks[b].to, to) + 1 - from && v.blocks[b].to < B
      ensures it + run + got <= len && Reading(v, offset, len, b + 1, buf[..it + run + got], 0)
      ensures b < BlockOf(offset + len - 1) && Start(b + 1) <= v.size ==> offset + it + run + got == Start(b + 1)
    {
      hide EngineInv, Cached, Inv, Start, BlockOf, Within, Reading, PieceFrom, PieceTo, Turn, Pread;
      TurnParts(v, offset, len, b, buf[..it], chunk, chunkOffset);
      FlushReads(v, offset, len, b, buf[..it], chunk);
      run := ReadDelayedRun(i, buf, it, chunk, chunkOffset, offset + it);
      var bytesLeft := len - it - run;
      if bytesLeft <= 0 {
        assert false;
      }
      ReadResident(v, offset, len, b, buf[..it + run], handled, Min(v.blocks[b].to, to));
      got := ReadCached(i, b, buf, it + run, from, to, v.blocks[b]);
    }

    /** One turn of the block loop of read. */
    method ReadBlock(i: Inode, b: nat, buf: array<Byte>, it: nat, chunk: nat, chunkOffset: nat, handled: nat,
                     offset: nat, len: nat, size: nat, ghost v: View)
      returns (it': nat, chunk': nat, chunkOffset': nat, handled': nat)
      requires cache.Valid() && buf !in cache.Footprint() && i in disk.files && FileView(i, size) == v && v.size == size
      requires Inv(v) && 0 < len <= buf.Length && it <= len && Turn(v, offset, len, b, buf[..it], chunk, chunkOffset)
      requires b <= BlockOf(offset + len - 1) && Start(b) <= size
      modifies buf
      ensures it' <= len && Turn(v, offset, len, b + 1, buf[..it'], chunk', chunkOffset')
    {
      hide EngineInv, Cached, Inv, Start, BlockOf, Within, Reading, ReadSteps.Reached, Ending, PieceFrom, PieceTo, Logical;
      ReadingNext(v, offset, len, b, buf[..it], chunk, handled);
      var from, to := PieceFrom(offset, len, b), PieceTo(offset, len, b, handled);
      var resident := cache.IsBlockCached(i, b);
      if resident {
        var run, got := ReadResidentBlock(i, b, buf, it, chunk, chunkOffset, from, to, v, offset, len, handled);
        EndingResident(v, offset, len, b, offset + it + chunk, handled, Min(v.blocks[b].to, to));
        chunkOffset' := if chunk > 0 || b < BlockOf(offset + len - 1) then Start(b + 1) else chunkOffset;
        it', handled', chunk' := it + run + got, handled + got, 0;
      } else {
        ReadDelayed(v, offset, len, b, buf[..it], chunk, handled);
        EndingDelayed(v, offset, len, b, it, chunk, handled);
        it', handled', chunkOffset' := it, handled + (to - from + 1), chunkOffset;
        chunk' := if size > Start(b) then chunk + (to - from + 1) else chunk;
      }
    }

    /** The block loop of read, over a file of `size` bytes. Blocks that are not resident are read in
        runs, by one pread when a resident block or the end is met. */
    method ReadBlocks(i: Inode, buf: array<Byte>, offset: nat, len: nat, size: nat) returns (res: nat)
      requires cache.Valid() && i in disk.files && buf !in cache.Footprint()
      requires 0 < len <= buf.Length && offset < size && Inv(FileView(i, size))
      modifies buf
      ensures ReadDone(FileView(i, size), offset, len, buf[..], res) && Answers(Logical(FileView(i, size)), offset, len, buf[..], res)
      ensures res == Min(len, size - offset) <==> offset + len <= size || !Trails(FileView(i, size))
    {
      hide EngineInv, Cached, Inv, Start, BlockOf, Within, Reading, PieceFrom, PieceTo, Logical, Turn, ReadDone, Answers, Trails;
      var high := BlockOf(offset + len - 1);
      var it: nat, handled: nat, b := 0, 0, BlockOf(offset);
      var chunk: nat, chunkOffset := 0, offset;
      ghost var v := FileView(i, size);
      ReadingStart(v, offset, len);
      while b <= high
        invariant cache.Valid() && FileView(i, size) == v
        invariant it <= len && Turn(v, offset, len, b, buf[..it], chunk, chunkOffset)
      {
        if Start(b) > size { break; }
        it, chunk, chunkOffset, handled := ReadBlock(i, b, buf, it, chunk, chunkOffset, handled, offset, len, size, v);
        b := b + 1;
      }
      res := ReadRest(i, b, buf, it, chunk, chunkOffset, offset, len, v);
      DoneAnswers(v, offset, len, buf[..], res);
    }

    /** After the block loop of read: the run left to be read. */
    method ReadRest(i: Inode, ghost b: nat, buf: array<Byte>, it: nat, chunk: nat, chunkOffset: nat, ghost offset: nat,
                    ghost len: nat, ghost v: View)
      returns (res: nat)
      requires i in disk.files && disk.files[i] == v.disk && Inv(v) && 0 < len <= buf.Length && offset < v.size && it <= len
      requires Turn(v, offset, len, b, buf[..it], chunk, chunkOffset) && (b > BlockOf(offset + len - 1) || Start(b) > v.size)
      modifies buf
      ensures ReadDone(v, offset, len, buf[..], res)
    {
      hide Inv, Start, BlockOf, Turn, ReadDone;
      TurnsEnd(v, offset, len, b, buf[..it], chunk, chunkOffset);
      var got := ReadDelayedRun(i, buf, it, chunk, chunkOffset, offset + it);
      res := it + got;
      assert buf[..it + got] <= buf[..];
    }

    /** read. Nothing at or past the end of file; otherwise the file's bytes, as many as there are
        below the end of file. Read does not clamp to the size: it hands over what the overlay has up to
        `ReadEnd`, and the count stops at the size exactly when no byte trails it. */
    method LfsRead(path: Path, buf: array<Byte>, len: nat, offset: nat) returns (res: nat)
      requires Valid() && path in disk.names && buf !in cache.Footprint() && 0 < len <= buf.Length
      modifies cache.Footprint(), buf
      ensures Valid() && fresh(cache.Footprint() - old(cache.Footprint()))
      ensures var i := disk.names[path];
              && OnlyTouches(old(cache.items), old(cache.engine.State()), disk.files, cache.items, cache.engine.State(), disk.files, i)
              && Volatile(i) == old(Volatile(i)) && cache.engine.State() == old(cache.engine.State())
              && Links(i) == old(Links(i)) && Flagged(cache.items) == old(Flagged(cache.items)) && cache.fileInodeMapping == old(cache.fileInodeMapping)[path := i]
      ensures Answers(old(Volatile(disk.names[path])), offset, len, buf[..], res)
      ensures var i, size := disk.names[path], |old(Volatile(disk.names[path]))|;
              offset < size ==>
                && ReadDone(FileView(i, size), offset, len, buf[..], res)
                && (res == Min(len, size - offset) <==> offset + len <= size || !Trails(FileView(i, size)))
    {
      hide EngineInv, Cached, Inv, FilesInv, FilesInvBut, Logical, OnlyTouches, Trails, ReadDone, Mounted;
      MountedApart(cache, disk);
      var i, size := GetAttr(path);
      MountedApart(cache, disk);
      FileAt(cache.items, cache.engine.State(), disk.files, i);
      res := 0;
      if offset < size {
        res := ReadBlocks(i, buf, offset, len, size);
      }
    }

    /* -------------------------------------------------------------- truncate */

    /** truncate. Growth writes zeros from the old end of file; shrinking drops what lies past the
        new end from the cache. The source asks the cache to truncate the path, under which nothing
        is cached, where it means the inode: `byInode` chooses between the two, and the result is
        the same either way. */
    method LfsTruncate(path: Path, size: nat, openFile: bool, byInode: bool, ghost touched: set<nat>) returns (res: int)
      requires Valid() && path in disk.names
      requires Extent(|Volatile(disk.names[path])|, size) <= touched
      modifies cache.Footprint(), disk`files
      ensures Valid() && fresh(cache.Footprint() - old(cache.Footprint())) && res == 0
      ensures var i := disk.names[path];
              && i in cache.items && i in disk.files
              && Volatile(i) == Ftruncate(old(Volatile(i)), size)
              && OnlyTouches(old(cache.items), old(cache.engine.State()), old(disk.files), cache.items, cache.engine.State(), disk.files, i)
              && (if size < |old(Volatile(i))|
                  then Durable(i) == old(Durable(i)) && Shrunk(old(cache.engine.Blocks(i)), FileView(i, size), byInode)
                       && Flagged(cache.items) == old(Flagged(cache.items)) + (if byInode && size > 0 then {i} else {})
                  else Landed(old(Durable(i)), old(cache.engine.Blocks(i)), |old(cache.engine.freePages)|, Volatile(i), Durable(i),
                              cache.engine.Blocks(i), |cache.engine.freePages|, |old(Volatile(i))|, size, touched))
              && Links(i) == old(Links(i)) && MarksMove(old(cache.items), cache.items, i) && cache.fileInodeMapping == old(cache.fileInodeMapping)[path := i]
    {
      hide EngineInv, Cached, Inv, OthersKept, Start, BlockOf, Within, Extent, Dirtied, FilesInv, FilesInvBut, Landed,
           OnlyTouches, Logical, Pwrite, Ftruncate, Mounted, VolatileOf, SizeSet, Shrunk, IndexAgrees, FileInv, Flagged, MarksMove;
      ghost var items0, es0, files0 := cache.items, cache.engine.State(), disk.files;
      MountedApart(cache, disk);
      var i, previous := GetAttr(path);
      ghost var items1, es1, vol := cache.items, cache.engine.State(), Volatile(i);
      LandedNothing(Durable(i), cache.engine.Blocks(i), |cache.engine.freePages|, Ftruncate(vol, size), size, touched);
      if size > previous {
        GrowIsWrite(vol, size);
        var r := LfsWrite(path, Zeros(size - previous), previous, openFile, touched);
      }
      ghost var items2, es2, files2 := cache.items, cache.engine.State(), disk.files;
      SetEnd(i, size, byInode && size < previous);
      MarksEnd(items0, items1, items2, cache.items, i, if byInode && size < previous && size > 0 then {i} else {});
      FtruncateTwice(vol, size);
      TouchesTrans(items0, es0, files0, items1, es1, files0, items2, es2, files2, i);
      TouchesTrans(items0, es0, files0, items2, es2, files2, cache.items, cache.engine.State(), disk.files, i);
      res := 0;
    }

    /** The end of truncate: what lies past the new end is dropped from the cache, if the cache is
        asked for the inode, and the size is set. */
    method SetEnd(i: Inode, size: nat, byInode: bool)
      requires Valid() && i in cache.items && i in disk.files && size <= cache.items[i].meta.size
      modifies cache.Footprint()
      ensures Valid() && fresh(cache.Footprint() - old(cache.Footprint()))
      ensures i in cache.items && Volatile(i) == Ftruncate(old(Volatile(i)), size)
      ensures Flagged(cache.items) == old(Flagged(cache.items)) + (if byInode && size > 0 then {i} else {})
      ensures Links(i) == old(Links(i)) && cache.fileInodeMapping == old(cache.fileInodeMapping)
      ensures Shrunk(old(cache.engine.Blocks(i)), FileView(i, size), byInode)
      ensures !byInode ==> cache.engine.State() == old(cache.engine.State())
      ensures OnlyTouches(old(cache.items), old(cache.engine.State()), disk.files, cache.items, cache.engine.State(), disk.files, i)
    {
      hide EngineInv, Cached, Inv, OthersKept, Start, BlockOf, Within, Dirtied, FilesInv, FilesInvBut, OnlyTouches, Logical, SizeSet,
           MetasKept, Mounted, CutBlocks, CutOutcome, Coherent, Shrunk, IndexAgrees, Ftruncate, Flagged;
      ghost var items0, es0, v0 := cache.items, cache.engine.State(), FileView(i, cache.items[i].meta.size);
      FileAt(items0, es0, disk.files, i);
      MountedApart(cache, disk);
      OthersSame(es0, i);
      if byInode {
        TruncateByInode(i, size);
      }
      ghost var items1 := cache.items;
      EndStep(v0, FileView(i, size), byInode);
      if !byInode { MetaSame(items0, i); }
      MetasSizes(items0, items1, i);
      MountedApart(cache, disk);
      Fields();
      SetSize(i, size, ["size", "mtime"]);
      SizeOnly(items1, cache.items, i, size);
      FileReplaced(items0, es0, disk.files, items1, cache.items, cache.engine.State(), disk.files, i, FileView(i, size));
    }

    method TruncateByInode(i: Inode, size: nat)
      requires Mounted(cache, disk) && i in cache.items
      modifies cache.Footprint()
      ensures Mounted(cache, disk) && cache.Footprint() == old(cache.Footprint()) && OthersKept(old(cache.engine.State()), cache.engine.State(), i)
      ensures cache.items.Keys == old(cache.items).Keys && forall j | j in cache.items :: cache.items[j].meta == old(cache.items)[j].meta
      ensures cache.fileInodeMapping == old(cache.fileInodeMapping)
      ensures Flagged(cache.items) == old(Flagged(cache.items)) + (if size > 0 then {i} else {}) && MetasKept(old(cache.items), cache.items, i)
      ensures CutOutcome(old(cache.engine.Blocks(i)), cache.engine.Blocks(i), size)
    {
      hide EngineInv, Cached, OthersKept, CutOutcome, IndexAgrees, MetasKept, Flagged;
      Locate(size);
      ghost var items := cache.items;
      var _ := cache.TruncateItem(i, size);
      CutMarks(items, cache.items, i, size);
    }

    /* -------------------------------------------------------------- fsync, clear, checkpoint */

    /** fsync and fdatasync: the disk file becomes what readers see. */
    method LfsFsync(path: Path) returns (res: int)
      requires Valid() && path in disk.names
      modifies cache.Footprint(), disk`files
      ensures Valid() && fresh(cache.Footprint() - old(cache.Footprint())) && res == 0
      ensures var i := disk.names[path];
              && Durable(i) == Volatile(i) == old(Volatile(i))
              && OnlyTouches(old(cache.items), old(cache.engine.State()), old(disk.files), cache.items, cache.engine.State(), disk.files, i)
              && cache.engine.Blocks(i) == AllClean(old(cache.engine.Blocks(i)))
              && Links(i) == old(Links(i)) && Flagged(cache.items) == old(Flagged(cache.items)) - {i} && cache.fileInodeMapping == old(cache.fileInodeMapping)[path := i]
    {
      hide EngineInv, Cached, Inv, OthersKept, FilesInv, FilesInvBut, OnlyTouches, Logical, VolatileOf, AllClean, SyncOutcome, IndexAgrees;
      ghost var items0, es0, files0 := cache.items, cache.engine.State(), disk.files;
      MountedApart(cache, disk);
      var i, size := GetAttr(path);
      ghost var items1, es1 := cache.items, cache.engine.State();
      FileAt(items1, es1, files0, i);
      res := cache.SyncOwner(i, path);
      SyncedBlocks(ViewOf(items1, es1, files0, i, i), i, files0, disk.files, Cached(cache.engine.State(), i));
      SyncStep(items1, es1, files0, cache.items, cache.engine.State(), disk.files, i);
      TouchesTrans(items0, es0, files0, items1, es1, files0, cache.items, cache.engine.State(), disk.files, i);
    }

    /** The clear-cache fault: every file is again what the disk holds, and every page is free. */
    method CommandFaultClearCache()
      requires Valid()
      modifies cache.Footprint()
      ensures Valid() && cache.Footprint() == old(cache.Footprint())
      ensures cache.contents == map[] && cache.items == map[] && disk.files == old(disk.files)
      ensures OneNameGone(old(cache.items), old(cache.fileInodeMapping), cache.fileInodeMapping)
      ensures cache.fileInodeMapping.Values <= old(cache.fileInodeMapping).Values
      ensures forall i :: Volatile(i) == Durable(i)
      ensures NoDuplicates(cache.engine.freePages) && forall p: nat :: p in cache.engine.freePages <==> p < |cache.engine.pageStates|
    {
      hide EngineInv, Cached, Inv, OthersKept, FilesInv, Logical;
      ghost var items, mapping := cache.items, cache.fileInodeMapping;
      cache.ClearAllCache();
      NamesLeft(items, mapping, cache.fileInodeMapping, disk.names);
      Cleared(cache.engine.State(), disk.files);
    }

    /** The checkpoint command: the disk file of each inode some known path leads to becomes what readers
        see, and no other changes. So it saves every file exactly when such a path leads to each that
        differs from disk. */
    method CommandCheckpoint()
      requires Valid()
      modifies cache.Footprint(), disk`files
      ensures Valid() && cache.Footprint() == old(cache.Footprint()) && cache.fileInodeMapping == old(cache.fileInodeMapping)
      ensures forall i :: Volatile(i) == old(Volatile(i))
      ensures forall i :: Durable(i) == if i in cache.fileInodeMapping.Values then old(Volatile(i)) else old(Durable(i))
      ensures (forall i :: Durable(i) == Volatile(i)) <==> forall i | old(Volatile(i)) != old(Durable(i)) :: i in cache.fileInodeMapping.Values
      ensures disk.files.Keys == old(disk.files).Keys && cache.items.Keys == old(cache.items).Keys
      ensures Flagged(cache.items) == old(Flagged(cache.items)) - cache.fileInodeMapping.Values
      ensures forall i :: cache.engine.Blocks(i) ==
                          if i in cache.fileInodeMapping.Values then AllClean(old(cache.engine.Blocks(i))) else old(cache.engine.Blocks(i))
    {
      hide EngineInv, Cached, Inv, OthersKept, FilesInv, FilesInvBut, OnlyTouches, Logical, VolatileOf, Flushed, SyncOutcome, Flagged, AllClean, IndexAgrees, Coherent;
      ghost var items0, es0, files0 := cache.items, cache.engine.State(), disk.files;
      var mapping := cache.fileInodeMapping;
      var todo := mapping.Keys;
      ghost var synced: set<Inode> := {};
      FlushedNone(items0, es0, files0);
      while todo != {}
        invariant Valid() && cache.Footprint() == old(cache.Footprint()) && cache.fileInodeMapping == mapping && todo <= mapping.Keys
        invariant Flushed(items0, es0, files0, cache.items, cache.engine.State(), disk.files, synced)
        invariant synced == set p | p in mapping && p !in todo :: mapping[p]
        decreases todo
      {
        var p :| p in todo;
        var i := mapping[p];
        ghost var items1, es1, files1 := cache.items, cache.engine.State(), disk.files;
        CheckpointOne(i, p);
        FlushedMore(items0, es0, files0, items1, es1, files1, cache.items, cache.engine.State(), disk.files, synced, i);
        todo, synced := todo - {p}, synced + {i};
      }
      MappedIn(mapping, todo, synced);
      FlushedAll(items0, es0, files0, cache.items, cache.engine.State(), disk.files, synced);
      FlushedParts(items0, es0, files0, cache.items, cache.engine.State(), disk.files, synced);
    }

    method CheckpointOne(i: Inode, p: Path)
      requires Valid() && p in cache.fileInodeMapping && cache.fileInodeMapping[p] == i
      modifies cache.Footprint(), disk`files
      ensures Valid() && cache.Footprint() == old(cache.Footprint()) && cache.fileInodeMapping == old(cache.fileInodeMapping)
      ensures OnlyTouches(old(cache.items), old(cache.engine.State()), old(disk.files), cache.items, cache.engine.State(), disk.files, i)
      ensures cache.items.Keys == old(cache.items).Keys && Flagged(cache.items) == old(Flagged(cache.items)) - {i}
      ensures Durable(i) == old(Volatile(i)) == Volatile(i)
      ensures cache.engine.Blocks(i) == AllClean(old(cache.engine.Blocks(i)))
    {
      hide EngineInv, Cached, Inv, OthersKept, FilesInv, FilesInvBut, OnlyTouches, Logical, VolatileOf, SyncOutcome, AllClean;
      ghost var items1, es1, files1 := cache.items, cache.engine.State(), disk.files;
      if i in cache.items { FileAt(items1, es1, files1, i); }
      var _ := cache.SyncOwner(i, p);
      if i in items1 {
        SyncedBlocks(ViewOf(items1, es1, files1, i, i), i, files1, disk.files, Cached(cache.engine.State(), i));
        SyncStep(items1, es1, files1, cache.items, cache.engine.State(), disk.files, i);
      } else {
        AbsentClean(items1, es1, i);
        SyncAbsent(items1, es1, files1, cache.items, cache.engine.State(), i);
      }
    }

    /** The report of unsynced data: the items not marked synced, each with its dirty blocks. It finds that all
        is synced exactly when no item lacks the mark. Names to leave out are not modelled. */
    method CommandUnsyncedDataReport() returns (report: map<Inode, seq<(nat, int, nat)>>, allSynced: bool)
      requires Valid()
      ensures report.Keys == Flagged(cache.items) && (allSynced <==> Flagged(cache.items) == {})
      ensures forall i | i in report :: report[i] == DirtyInfo(cache.engine.Blocks(i), Sorted(cache.engine.Blocks(i).Keys))
      ensures forall i, b | b in cache.engine.Blocks(i) && cache.engine.Blocks(i)[b].dirty :: i in report
    {
      hide EngineInv, Cached, FilesInv, IndexAgrees, DirtyInfo, Coherent;
      report := cache.ReportUnsyncedData();
      allSynced := report == map[];
      assert allSynced <==> report.Keys == {};
    }
  }
}
