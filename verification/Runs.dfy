/** Runs of calls against LazyFS, step by step and as a whole. */
module Runs {
  import opened Posix
  import opened Overlay
  import opened Slots
  import opened Disks
  import opened EngineStates
  import opened Engine
  import opened Counting
  import opened Items
  import opened CacheStates
  import opened FileStates
  import opened Caches
  import opened WriteSteps
  import opened ReadSteps
  import opened TwoCopies
  import opened LazyFSOps
  import Links

  ghost function CopiesOf(items: map<Inode, ItemState>, es: EngineState, files: Files): Copies {
    Copies(map i | i in files :: VolatileOf(items, es, files, i), files)
  }

  ghost function ShotOf(items: map<Inode, ItemState>, es: EngineState, files: Files, mapped: set<Inode>): Shot {
    Shot(CopiesOf(items, es, files), Held(es.ordered), Unsynced(es.ordered), |es.free|, mapped, Flagged(items))
  }

  ghost function Now(fs: LazyFS): Shot
    reads fs, fs.cache, fs.cache.engine, fs.disk
  {
    ShotOf(fs.cache.items, fs.cache.engine.State(), fs.disk.files, fs.cache.fileInodeMapping.Values)
  }

  /** The blocks held are the blocks the owners see. */
  lemma HeldIsCached(es: EngineState)
    requires EngineInv(es)
    ensures forall i: Inode, b: nat :: (i, b) in Held(es.ordered) <==> b in Cached(es, i)
  {
    hide EngineInv, Cached, Held;
    forall i: Inode, b: nat ensures (i, b) in Held(es.ordered) <==> b in Cached(es, i) {
      CachedIsIndexed(es, i, b);
      assert (i, b) in Held(es.ordered) <==> InIndex(es.ordered, i, b);
    }
  }

  /** A block is marked unsynced exactly when it is in the cache and dirty. */
  lemma UnsyncedIsDirty(es: EngineState)
    requires EngineInv(es)
    ensures forall i: Inode, b: nat :: (i, b) in Unsynced(es.ordered) <==> b in Cached(es, i) && Cached(es, i)[b].dirty
  {
    hide EngineInv, Cached, Unsynced;
    forall i: Inode, b: nat ensures (i, b) in Unsynced(es.ordered) <==> b in Cached(es, i) && Cached(es, i)[b].dirty {
      CachedIsIndexed(es, i, b);
      assert (i, b) in Unsynced(es.ordered) <==> InIndex(es.ordered, i, b) && !es.ordered[i][b].synced;
      if InIndex(es.ordered, i, b) { UnsyncedIffDirty(es, i, b); }
    }
  }

  /** An inode with an unsynced block has an item not marked synced. */
  lemma UnsyncedFlagged(items: map<Inode, ItemState>, es: EngineState)
    requires EngineInv(es) && IndexAgrees(items, es)
    ensures AllListed(Unsynced(es.ordered), Flagged(items))
  {
    hide EngineInv, Cached, Unsynced, IndexAgrees;
    UnsyncedIsDirty(es);
    forall x: (Inode, nat) | x in Unsynced(es.ordered) ensures x.0 in Flagged(items) {
      assert x == (x.0, x.1);
      ItemAt(items, es, x.0);
    }
  }

  /** The report on an inode lists exactly its blocks marked unsynced. */
  lemma ReportedIffUnsynced(es: EngineState, i: Inode, b: nat)
    requires EngineInv(es)
    ensures Reports(DirtyInfo(Cached(es, i), Sorted(Cached(es, i).Keys)), b) <==> (i, b) in Unsynced(es.ordered)
  {
    hide EngineInv, Cached, Unsynced, DirtyInfo;
    UnsyncedIsDirty(es);
    ReportsDirty(Cached(es, i), Sorted(Cached(es, i).Keys), b);
  }

  lemma WellFormed(fs: LazyFS)
    requires fs.Valid()
    ensures EngineInv(fs.cache.engine.State()) && FilesInv(fs.cache.items, fs.cache.engine.State(), fs.disk.files)
    ensures Counted(Now(fs), |fs.cache.engine.pages|) && Named(fs.disk.names, Now(fs).copies)
    ensures Now(fs).unsynced <= Now(fs).held && Now(fs).mapped <= Now(fs).copies.vol.Keys
    ensures Coherent(fs.cache.fileInodeMapping, fs.disk.names)
    ensures AllListed(Now(fs).unsynced, Now(fs).listed)
  {
    hide EngineInv, Cached, FilesInv, IndexAgrees, VolatileOf;
    Conservation(fs.cache.engine.State());
    UnsyncedFlagged(fs.cache.items, fs.cache.engine.State());
  }

  /** The blocks held, in the words of one inode's. */
  lemma HeldMoves(es: EngineState, es': EngineState, o: Inode, gone: set<nat>, blocks: set<nat>)
    requires EngineInv(es) && EngineInv(es')
    requires Cached(es, o).Keys - gone <= Cached(es', o).Keys <= Cached(es, o).Keys - gone + blocks
    requires forall i | i != o :: Cached(es', i).Keys == Cached(es, i).Keys
    requires |es'.free| > 0 ==> blocks <= Cached(es', o).Keys
    ensures Held(es.ordered) - Of(o, gone) <= Held(es'.ordered) <= Held(es.ordered) - Of(o, gone) + Of(o, blocks)
    ensures |es'.free| > 0 ==> Of(o, blocks) <= Held(es'.ordered)
  {
    hide EngineInv, Held, Cached;
    HeldIsCached(es);
    HeldIsCached(es');
    forall x: (Inode, nat)
      ensures x in Held(es.ordered) - Of(o, gone) ==> x in Held(es'.ordered)
      ensures x in Held(es'.ordered) ==> x in Held(es.ordered) - Of(o, gone) + Of(o, blocks)
      ensures |es'.free| > 0 && x in Of(o, blocks) ==> x in Held(es'.ordered)
    {
      assert x == (x.0, x.1);
    }
  }

  /** A cut drops the blocks past the new end. */
  lemma CutHeld(es: EngineState, o: Inode, size: nat)
    requires EngineInv(es)
    ensures Held(es.ordered) - Past(Held(es.ordered), o, size) == Held(es.ordered) - Of(o, Cached(es, o).Keys - Before(Cached(es, o).Keys, size))
    ensures Cached(es, o).Keys - (Cached(es, o).Keys - Before(Cached(es, o).Keys, size)) == Before(Cached(es, o).Keys, size)
  {
    hide EngineInv, Held, Cached, Start;
    HeldIsCached(es);
    forall x: (Inode, nat) ensures x in Past(Held(es.ordered), o, size) <==> x in Of(o, Cached(es, o).Keys - Before(Cached(es, o).Keys, size)) {
      assert x == (x.0, x.1);
    }
  }

  /** How the unsynced blocks follow a call on inode `o`: an fsync saves its blocks, any other call adds
      those it writes. */
  lemma UnsyncedMoves(names: map<Path, Inode>, reached: set<Inode>, es: EngineState, es': EngineState, op: Op, o: Inode, blocks: set<nat>)
    requires EngineInv(es) && EngineInv(es') && !op.Clear? && !op.Checkpoint? && Apt(names, op) && names[op.path] == o
    requires forall i | i != o :: Cached(es', i) == Cached(es, i)
    requires if op.Fsync? then Cached(es', o) == AllClean(Cached(es, o)) && blocks == {} else Dirtied(Cached(es, o), Cached(es', o), blocks)
    ensures Unsynced(es'.ordered) == Held(es'.ordered) * (StillUnsaved(names, reached, op, Unsynced(es.ordered)) + Of(o, blocks))
  {
    hide EngineInv, Held, Cached, Unsynced, StillUnsaved, Of;
    HeldIsCached(es');
    UnsyncedIsDirty(es);
    UnsyncedIsDirty(es');
    forall x: (Inode, nat)
      ensures x in Unsynced(es'.ordered) <==>
              x in Held(es'.ordered) && x in StillUnsaved(names, reached, op, Unsynced(es.ordered)) + Of(o, blocks)
    {
      assert x == (x.0, x.1);
      assert x in Unsynced(es'.ordered) <==> x.1 in Cached(es', x.0) && Cached(es', x.0)[x.1].dirty;
      assert x in Unsynced(es.ordered) <==> x.1 in Cached(es, x.0) && Cached(es, x.0)[x.1].dirty;
      assert x in Held(es'.ordered) <==> x.1 in Cached(es', x.0);
    }
  }

  lemma CopiesMove(items: map<Inode, ItemState>, es: EngineState, files: Files,
                   items': map<Inode, ItemState>, es': EngineState, files': Files, o: Inode)
    requires OnlyTouches(items, es, files, items', es', files', o) && o in files
    ensures var c := CopiesOf(items, es, files);
            CopiesOf(items', es', files') == Copies(c.vol[o := VolatileOf(items', es', files', o)], c.dur[o := ImageOf(files', o)])
  {
    hide VolatileOf;
    forall i | i in files && i != o
      ensures VolatileOf(items', es', files', i) == VolatileOf(items, es, files, i) && files'[i] == files[i]
    {
      Untouched(items, es, files, items', es', files', o, i);
    }
  }

  /** What a call on inode `o` does to the blocks in its pages: it drops `gone`, and writes `blocks`. */
  ghost predicate BlocksMove(op: Op, was: map<nat, CBlock>, now: map<nat, CBlock>, gone: set<nat>, blocks: set<nat>, free': nat) {
    && was.Keys - gone <= now.Keys <= was.Keys - gone + blocks && (free' > 0 ==> blocks <= now.Keys)
    && if op.Fsync? then now == AllClean(was) && blocks == {} else Dirtied(was, now, blocks)
  }

  lemma BlocksStay(op: Op, blocks: map<nat, CBlock>, free: nat)
    requires !op.Fsync?
    ensures BlocksMove(op, blocks, blocks, {}, {}, free)
  {
    SameDirt(blocks);
  }

  /** A call on one inode moves its two copies, and brings in none but its own blocks. */
  lemma OneMoved(names: map<Path, Inode>, items: map<Inode, ItemState>, es: EngineState, files: Files, mapped: set<Inode>,
                 items': map<Inode, ItemState>, es': EngineState, files': Files, op: Op, o: Inode, gone: set<nat>, blocks: set<nat>)
    requires EngineInv(es) && EngineInv(es') && o in files
    requires OnlyTouches(items, es, files, items', es', files', o)
    requires !op.Clear? && !op.Checkpoint? && Apt(names, op) && names[op.path] == o
    requires BlocksMove(op, Cached(es, o), Cached(es', o), gone, blocks, |es'.free|)
    ensures Moved(ShotOf(items, es, files, mapped), ShotOf(items', es', files', mapped + {o}), o, gone, blocks,
                  VolatileOf(items', es', files', o), ImageOf(files', o), StillUnsaved(names, mapped, op, Unsynced(es.ordered)))
  {
    hide EngineInv, Held, VolatileOf, Cached, Of, Unsynced, StillUnsaved;
    CopiesMove(items, es, files, items', es', files', o);
    forall i | i != o ensures Cached(es', i) == Cached(es, i) {
      assert ViewOf(items', es', files', i, i) == ViewOf(items, es, files, i, i);
    }
    HeldMoves(es, es', o, gone, blocks);
    UnsyncedMoves(names, mapped, es, es', op, o, blocks);
  }

  /** Room, in the words of one inode's blocks. */
  lemma RoomIsFits(es: EngineState, o: Inode, touched: set<nat>)
    requires EngineInv(es)
    ensures |Of(o, touched) - Held(es.ordered)| == |touched - Cached(es, o).Keys|
  {
    hide EngineInv, Held, Cached;
    HeldIsCached(es);
    var added := touched - Cached(es, o).Keys;
    OfSize(o, added);
    assert Of(o, touched) - Held(es.ordered) == Of(o, added);
  }

  lemma {:induction false} OfSize(o: Inode, blocks: set<nat>)
    ensures |Of(o, blocks)| == |blocks|
  {
    if blocks != {} {
      var b :| b in blocks;
      OfSize(o, blocks - {b});
      assert Of(o, blocks) == Of(o, blocks - {b}) + {(o, b)};
    }
  }

  /** A call on inode `o` that leaves it with copies `vol` and, room provided, `dur`. */
  lemma TouchSteps(names: map<Path, Inode>, items: map<Inode, ItemState>, es: EngineState, files: Files, mapping: map<Path, Inode>,
                   items': map<Inode, ItemState>, es': EngineState, files': Files, mapping': map<Path, Inode>,
                   op: Op, o: Inode, gone: set<nat>, blocks: set<nat>, dur: Image, out: Output)
    requires EngineInv(es) && EngineInv(es') && o in files && Coherent(mapping, names)
    requires OnlyTouches(items, es, files, items', es', files', o)
    requires BlocksMove(op, Cached(es, o), Cached(es', o), gone, blocks, |es'.free|)
    requires !op.Clear? && !op.Checkpoint? && Apt(names, op) && names[op.path] == o && mapping' == mapping[op.path := o]
    requires Named(names, CopiesOf(items, es, files)) && Answered(names, CopiesOf(items, es, files), op, out)
    requires var c := CopiesOf(items, es, files);
             && After(names, c, op) == Copies(c.vol[o := VolatileOf(items', es', files', o)], c.dur[o := dur])
             && Spread(names, c, op) == Of(o, blocks) && Kept(names, c, Held(es.ordered), op) == Held(es.ordered) - Of(o, gone)
             && if Writes(names, op, o)
                then Torn(files[o], ImageOf(files', o), VolatileOf(items', es', files', o), WrittenFrom(names, c, op), WrittenTo(op))
                else blocks == {}
    requires |blocks - Cached(es, o).Keys| <= |es.free| ==> ImageOf(files', o) == dur
    requires Lists(names, mapping.Values, op, Flagged(items), Flagged(items'), Unsynced(es'.ordered))
    ensures Steps(names, ShotOf(items, es, files, mapping.Values), op, ShotOf(items', es', files', mapping'.Values), out)
  {
    hide EngineInv, Held, VolatileOf, OnlyTouches, Cached, After, Spread, Answered, Of, Steps, CopiesOf, Moved, Unsynced, StillUnsaved,
         BlocksMove, Kept, Torn, WrittenFrom, WrittenTo, Writes, Coherent, Flagged, Lists;
    PathAdded(mapping, names, op.path);
    DurOf(items, es, files);
    OneMoved(names, items, es, files, mapping.Values, items', es', files', op, o, gone, blocks);
    RoomIsFits(es, o, blocks);
    MovedSteps(names, ShotOf(items, es, files, mapping.Values), op, ShotOf(items', es', files', mapping'.Values), out, o, gone, blocks,
               VolatileOf(items', es', files', o), dur, ImageOf(files', o));
  }

  /** No block is dropped but by a clear or a cut. */
  lemma NoneGone(names: map<Path, Inode>, c: Copies, held: set<(Inode, nat)>, op: Op, o: Inode)
    requires Named(names, c) && Apt(names, op) && !op.Clear? && (op.Truncate? ==> op.size >= |c.vol[names[op.path]]| || !op.byInode)
    ensures Kept(names, c, held, op) == held - Of(o, {})
  {
    EmptyOf(o);
  }

  lemma VolOf(items: map<Inode, ItemState>, es: EngineState, files: Files, names: map<Path, Inode>, p: Path)
    requires Named(names, CopiesOf(items, es, files)) && p in names
    ensures names[p] in files && ImageOf(files, names[p]) == files[names[p]]
    ensures names[p] in CopiesOf(items, es, files).vol && CopiesOf(items, es, files).vol[names[p]] == VolatileOf(items, es, files, names[p])
    ensures CopiesOf(items, es, files).dur == files
  {}

  lemma LandedMoves(op: Op, dur: Image, blocks: map<nat, CBlock>, free: nat, vol': Image, dur': Image, blocks': map<nat, CBlock>, free': nat,
                    from: nat, end: nat, touched: set<nat>)
    requires Landed(dur, blocks, free, vol', dur', blocks', free', from, end, touched) && !op.Fsync?
    ensures BlocksMove(op, blocks, blocks', {}, Extent(from, end), free') && Torn(dur, dur', vol', from, end)
    ensures |touched - blocks.Keys| <= free ==> dur' == dur
  {
    hide Torn, Extent;
  }

  /** How the report follows a write, a read or an fsync of inode `o`. */
  lemma ListsMove(names: map<Path, Inode>, reached: set<Inode>, items: map<Inode, ItemState>, items': map<Inode, ItemState>,
                  op: Op, o: Inode, unsynced': set<(Inode, nat)>)
    requires Apt(names, op) && !op.Clear? && !op.Checkpoint? && names[op.path] == o
    requires if op.Fsync? then Flagged(items') == Flagged(items) - {o}
             else if op.Read? then Flagged(items') == Flagged(items) else MarksMove(items, items', o)
    requires AllListed(unsynced', Flagged(items'))
    ensures Lists(names, reached, op, Flagged(items), Flagged(items'), unsynced')
  {
    hide Flagged;
  }

  method DoWrite(fs: LazyFS, p: Path, buf: Image, offset: nat) returns (out: Output)
    requires fs.Valid() && p in fs.disk.names && |buf| > 0
    modifies fs.cache.Footprint(), fs.disk`files
    ensures fs.Valid() && fresh(fs.cache.Footprint() - old(fs.cache.Footprint()))
    ensures Stepped(fs.disk.names, old(Now(fs)), Write(p, buf, offset), Now(fs), out)
  {
    hide EngineInv, Cached, Held, VolatileOf, OnlyTouches, Steps, FilesInv, After, Spread, CopiesOf, Pwrite, Extent, Named, Answered,
         Unsynced, Landed, BlocksMove, Torn, Kept, WrittenFrom, WrittenTo, Flagged, MarksMove, Lists, AllListed, Coherent;
    ghost var items, es, files, mapping := fs.cache.items, fs.cache.engine.State(), fs.disk.files, fs.cache.fileInodeMapping;
    ghost var names, op, o := fs.disk.names, Write(p, buf, offset), fs.disk.names[p];
    WellFormed(fs);
    VolOf(items, es, files, names, p);
    ghost var c := CopiesOf(items, es, files);
    ghost var from, end := Min(|c.vol[o]|, offset), offset + |buf|;
    ghost var blocks := Extent(from, end);
    var _ := fs.LfsWrite(p, buf, offset, true, blocks);
    out := Done;
    WellFormed(fs);
    AfterWrite(names, c, p, buf, offset);
    NothingToAnswer(names, c, op, out);
    NoneGone(names, c, Held(es.ordered), op, o);
    LandedMoves(op, files[o], Cached(es, o), |es.free|, fs.Volatile(o), fs.Durable(o), fs.cache.engine.Blocks(o),
                |fs.cache.engine.freePages|, from, end, blocks);
    assert After(names, c, op) == Copies(c.vol[o := fs.Volatile(o)], c.dur[o := files[o]]);
    assert WrittenFrom(names, c, op) == from && WrittenTo(op) == end && Spread(names, c, op) == Of(o, blocks);
    ListsMove(names, mapping.Values, items, fs.cache.items, op, o, Unsynced(fs.cache.engine.State().ordered));
    TouchSteps(names, items, es, files, mapping, fs.cache.items, fs.cache.engine.State(), fs.disk.files, fs.cache.fileInodeMapping,
               op, o, {}, blocks, files[o], out);
  }

  /** The blocks a truncate drops. */
  ghost function CutOff(keys: set<nat>, previous: nat, size: nat, byInode: bool): set<nat> {
    if byInode && size < previous then keys - Before(keys, size) else {}
  }

  lemma CutKept(names: map<Path, Inode>, c: Copies, es: EngineState, op: Op, o: Inode)
    requires EngineInv(es) && Named(names, c) && Apt(names, op) && op.Truncate? && o == names[op.path]
    ensures Kept(names, c, Held(es.ordered), op) ==
            Held(es.ordered) - Of(o, CutOff(Cached(es, o).Keys, |c.vol[o]|, op.size, op.byInode))
  {
    hide EngineInv, Held, Cached, Of, Past, Before;
    CutHeld(es, o, op.size);
    EmptyOf(o);
  }

  lemma CutMoves(op: Op, was: map<nat, CBlock>, v: View, previous: nat, byInode: bool, free': nat)
    requires v.size < previous && Shrunk(was, v, byInode) && !op.Fsync?
    ensures BlocksMove(op, was, v.blocks, CutOff(was.Keys, previous, v.size, byInode), {}, free')
  {
    hide StopsAt;
  }

  method DoTruncate(fs: LazyFS, p: Path, size: nat, byInode: bool) returns (out: Output)
    requires fs.Valid() && p in fs.disk.names
    modifies fs.cache.Footprint(), fs.disk`files
    ensures fs.Valid() && fresh(fs.cache.Footprint() - old(fs.cache.Footprint()))
    ensures Stepped(fs.disk.names, old(Now(fs)), Truncate(p, size, byInode), Now(fs), out)
  {
    hide EngineInv, Cached, Held, VolatileOf, OnlyTouches, Steps, FilesInv, After, Spread, CopiesOf, Ftruncate, Extent, Named, Answered,
         Unsynced, Landed, BlocksMove, Torn, Kept, WrittenFrom, WrittenTo, Flagged, MarksMove, Lists, AllListed, Coherent, Shrunk;
    ghost var items, es, files, mapping := fs.cache.items, fs.cache.engine.State(), fs.disk.files, fs.cache.fileInodeMapping;
    ghost var names, op, o := fs.disk.names, Truncate(p, size, byInode), fs.disk.names[p];
    WellFormed(fs);
    VolOf(items, es, files, names, p);
    ghost var c := CopiesOf(items, es, files);
    ghost var previous := |c.vol[o]|;
    ghost var blocks := Extent(previous, size);
    ExtentEmpty(previous, size);
    var _ := fs.LfsTruncate(p, size, true, byInode, blocks);
    out := Done;
    WellFormed(fs);
    AfterTruncate(names, c, p, size, byInode);
    NothingToAnswer(names, c, op, out);
    CutKept(names, c, es, op, o);
    ghost var gone := CutOff(Cached(es, o).Keys, previous, size, byInode);
    if size < previous {
      CutMoves(op, Cached(es, o), fs.FileView(o, size), previous, byInode, |fs.cache.engine.freePages|);
      TornNot(files[o], fs.Volatile(o), previous, size);
    } else {
      LandedMoves(op, files[o], Cached(es, o), |es.free|, fs.Volatile(o), fs.Durable(o), fs.cache.engine.Blocks(o),
                  |fs.cache.engine.freePages|, previous, size, blocks);
    }
    ListsMove(names, mapping.Values, items, fs.cache.items, op, o, Unsynced(fs.cache.engine.State().ordered));
    TouchSteps(names, items, es, files, mapping, fs.cache.items, fs.cache.engine.State(), fs.disk.files, fs.cache.fileInodeMapping,
               op, o, gone, blocks, files[o], out);
  }

  method DoRead(fs: LazyFS, p: Path, len: nat, offset: nat) returns (out: Output)
    requires fs.Valid() && p in fs.disk.names && len > 0
    modifies fs.cache.Footprint(), fs.disk`files
    ensures fs.Valid() && fresh(fs.cache.Footprint() - old(fs.cache.Footprint()))
    ensures Stepped(fs.disk.names, old(Now(fs)), Read(p, len, offset), Now(fs), out)
  {
    hide EngineInv, Cached, Held, VolatileOf, OnlyTouches, Steps, FilesInv, After, Spread, CopiesOf, Named, Answered, Answers, Unsynced,
         BlocksMove, Kept, Flagged, MarksMove, Lists, AllListed, Coherent;
    ghost var items, es, files, mapping := fs.cache.items, fs.cache.engine.State(), fs.disk.files, fs.cache.fileInodeMapping;
    ghost var names, op, o := fs.disk.names, Read(p, len, offset), fs.disk.names[p];
    WellFormed(fs);
    VolOf(items, es, files, names, p);
    ghost var c := CopiesOf(items, es, files);
    var buf := new Byte[len];
    var res := fs.LfsRead(p, buf, len, offset);
    out := Bytes(buf[..], res);
    WellFormed(fs);
    AfterRead(names, c, p, len, offset);
    ReadAnswered(names, c, p, len, offset, out);
    NoneGone(names, c, Held(es.ordered), op, o);
    BlocksStay(op, Cached(es, o), |es.free|);
    ListsMove(names, mapping.Values, items, fs.cache.items, op, o, Unsynced(fs.cache.engine.State().ordered));
    TouchSteps(names, items, es, files, mapping, fs.cache.items, fs.cache.engine.State(), fs.disk.files, fs.cache.fileInodeMapping,
               op, o, {}, {}, files[o], out);
  }

  lemma SyncMoves(op: Op, blocks: map<nat, CBlock>, free: nat)
    requires op.Fsync?
    ensures BlocksMove(op, blocks, AllClean(blocks), {}, {}, free)
  {}

  method DoFsync(fs: LazyFS, p: Path) returns (out: Output)
    requires fs.Valid() && p in fs.disk.names
    modifies fs.cache.Footprint(), fs.disk`files
    ensures fs.Valid() && fresh(fs.cache.Footprint() - old(fs.cache.Footprint()))
    ensures Stepped(fs.disk.names, old(Now(fs)), Fsync(p), Now(fs), out)
  {
    hide EngineInv, Cached, Held, VolatileOf, OnlyTouches, Steps, FilesInv, After, Spread, CopiesOf, Named, Answered, AllClean, Unsynced,
         BlocksMove, Kept, Flagged, MarksMove, Lists, AllListed, Coherent;
    ghost var items, es, files, mapping := fs.cache.items, fs.cache.engine.State(), fs.disk.files, fs.cache.fileInodeMapping;
    ghost var names, op, o := fs.disk.names, Fsync(p), fs.disk.names[p];
    WellFormed(fs);
    VolOf(items, es, files, names, p);
    ghost var c := CopiesOf(items, es, files);
    var _ := fs.LfsFsync(p);
    out := Done;
    WellFormed(fs);
    AfterFsync(names, c, p);
    NothingToAnswer(names, c, op, out);
    NoneGone(names, c, Held(es.ordered), op, o);
    SyncMoves(op, Cached(es, o), |fs.cache.engine.freePages|);
    ListsMove(names, mapping.Values, items, fs.cache.items, op, o, Unsynced(fs.cache.engine.State().ordered));
    TouchSteps(names, items, es, files, mapping, fs.cache.items, fs.cache.engine.State(), fs.disk.files, fs.cache.fileInodeMapping,
               op, o, {}, {}, c.vol[o], out);
  }

  lemma ClearSteps(names: map<Path, Inode>, s: Shot, s': Shot)
    requires Named(names, s.copies) && s'.copies == Copies(s.copies.dur, s.copies.dur) && s'.held == {} && s'.unsynced == {}
    requires s'.mapped <= s.mapped && s'.listed == {}
    ensures Stepped(names, s, Clear, s', Done)
  {
    NothingToAnswer(names, s.copies, Clear, Done);
  }

  /** With no item, what readers see is the disk. */
  lemma ClearCopies(es: EngineState, files: Files)
    ensures CopiesOf(map[], es, files) == Copies(files, files)
  {}

  method DoClear(fs: LazyFS) returns (out: Output)
    requires fs.Valid()
    modifies fs.cache.Footprint(), fs.disk`files
    ensures fs.Valid() && fresh(fs.cache.Footprint() - old(fs.cache.Footprint()))
    ensures Stepped(fs.disk.names, old(Now(fs)), Clear, Now(fs), out)
  {
    hide EngineInv, Cached, Held, VolatileOf, FilesInv, NoDuplicates, CopiesOf, Stepped, Unsynced;
    ghost var s, items, es, files := Now(fs), fs.cache.items, fs.cache.engine.State(), fs.disk.files;
    WellFormed(fs);
    DurOf(items, es, files);
    fs.CommandFaultClearCache();
    out := Done;
    NothingHeld(fs);
    ClearCopies(fs.cache.engine.State(), files);
    ClearSteps(fs.disk.names, s, Now(fs));
  }

  lemma DurOf(items: map<Inode, ItemState>, es: EngineState, files: Files)
    ensures CopiesOf(items, es, files).dur == files
  {}

  lemma NothingHeld(fs: LazyFS)
    requires fs.Valid() && fs.cache.items == map[]
    ensures Held(fs.cache.engine.State().ordered) == {} == Unsynced(fs.cache.engine.State().ordered)
  {
    hide EngineInv, Cached, FilesInv;
    var es := fs.cache.engine.State();
    HeldIsCached(es);
    forall x: (Inode, nat) ensures x !in Held(es.ordered) {
      ItemAt(fs.cache.items, es, x.0);
      assert x == (x.0, x.1);
    }
  }

  lemma ListsCheckpoint(names: map<Path, Inode>, reached: set<Inode>, was: set<Inode>, now: set<Inode>, unsynced': set<(Inode, nat)>)
    requires now == was - reached && AllListed(unsynced', now)
    ensures Lists(names, reached, Checkpoint, was, now, unsynced')
  {}

  /** What a checkpoint does to inode `i`. */
  ghost predicate Checkpointed(items: map<Inode, ItemState>, es: EngineState, files: Files,
                               items': map<Inode, ItemState>, es': EngineState, files': Files, mapped: set<Inode>, i: Inode)
  {
    && VolatileOf(items', es', files', i) == VolatileOf(items, es, files, i)
    && ImageOf(files', i) == (if i in mapped then VolatileOf(items, es, files, i) else ImageOf(files, i))
    && Cached(es', i) == if i in mapped then AllClean(Cached(es, i)) else Cached(es, i)
  }

  lemma CheckpointSteps(names: map<Path, Inode>, items: map<Inode, ItemState>, es: EngineState, files: Files, mapped: set<Inode>,
                        items': map<Inode, ItemState>, es': EngineState, files': Files)
    requires EngineInv(es) && EngineInv(es') && files'.Keys == files.Keys
    requires Named(names, CopiesOf(items, es, files))
    requires forall i :: Checkpointed(items, es, files, items', es', files', mapped, i)
    requires Lists(names, mapped, Checkpoint, Flagged(items), Flagged(items'), Unsynced(es'.ordered))
    ensures Steps(names, ShotOf(items, es, files, mapped), Checkpoint, ShotOf(items', es', files', mapped), Done)
  {
    hide EngineInv, Cached, Held, VolatileOf, CopiesOf, Unsynced, Checkpointed, Steps, StillUnsaved, Flagged, Lists;
    CheckpointCopies(items, es, files, mapped, items', es', files');
    CheckpointHeld(items, es, files, mapped, items', es', files');
    CheckpointUnsynced(names, items, es, files, mapped, items', es', files');
    CheckpointMoved(names, ShotOf(items, es, files, mapped), ShotOf(items', es', files', mapped));
  }

  lemma CheckpointHeld(items: map<Inode, ItemState>, es: EngineState, files: Files, mapped: set<Inode>,
                       items': map<Inode, ItemState>, es': EngineState, files': Files)
    requires EngineInv(es) && EngineInv(es')
    requires forall i :: Checkpointed(items, es, files, items', es', files', mapped, i)
    ensures Held(es'.ordered) == Held(es.ordered)
  {
    hide EngineInv, Cached, Held, VolatileOf, AllClean, Checkpointed;
    HeldIsCached(es);
    HeldIsCached(es');
    forall x: (Inode, nat) ensures x in Held(es'.ordered) <==> x in Held(es.ordered) {
      assert x == (x.0, x.1);
      CheckpointAt(items, es, files, mapped, items', es', files', x.0);
    }
  }

  lemma CheckpointAt(items: map<Inode, ItemState>, es: EngineState, files: Files, mapped: set<Inode>,
                     items': map<Inode, ItemState>, es': EngineState, files': Files, i: Inode)
    requires Checkpointed(items, es, files, items', es', files', mapped, i)
    ensures Cached(es', i).Keys == Cached(es, i).Keys
    ensures forall b | b in Cached(es', i) :: Cached(es', i)[b].dirty <==> Cached(es, i)[b].dirty && i !in mapped
  {
    hide VolatileOf, Cached;
  }

  lemma CheckpointUnsynced(names: map<Path, Inode>, items: map<Inode, ItemState>, es: EngineState, files: Files, mapped: set<Inode>,
                           items': map<Inode, ItemState>, es': EngineState, files': Files)
    requires EngineInv(es) && EngineInv(es')
    requires forall i :: Checkpointed(items, es, files, items', es', files', mapped, i)
    ensures Unsynced(es'.ordered) == Held(es'.ordered) * StillUnsaved(names, mapped, Checkpoint, Unsynced(es.ordered))
  {
    hide EngineInv, Cached, Held, Unsynced, Checkpointed;
    UnsyncedIsDirty(es);
    UnsyncedIsDirty(es');
    HeldIsCached(es');
    forall x: (Inode, nat)
      ensures x in Unsynced(es'.ordered) <==> x in Held(es'.ordered) && x in StillUnsaved(names, mapped, Checkpoint, Unsynced(es.ordered))
    {
      assert x == (x.0, x.1);
      CheckpointAt(items, es, files, mapped, items', es', files', x.0);
    }
  }

  lemma CheckpointCopies(items: map<Inode, ItemState>, es: EngineState, files: Files, mapped: set<Inode>,
                         items': map<Inode, ItemState>, es': EngineState, files': Files)
    requires files'.Keys == files.Keys
    requires forall i :: Checkpointed(items, es, files, items', es', files', mapped, i)
    ensures var c, c' := CopiesOf(items, es, files), CopiesOf(items', es', files');
            && c'.vol == c.vol && c.dur.Keys == c.vol.Keys
            && c'.dur == map i | i in c.dur :: if i in mapped then c.vol[i] else c.dur[i]
  {
    hide VolatileOf, Cached, AllClean;
    forall i | i in files
      ensures VolatileOf(items', es', files', i) == VolatileOf(items, es, files, i)
      ensures files'[i] == if i in mapped then VolatileOf(items, es, files, i) else files[i]
    {
      assert Checkpointed(items, es, files, items', es', files', mapped, i);
    }
  }

  method DoCheckpoint(fs: LazyFS) returns (out: Output)
    requires fs.Valid()
    modifies fs.cache.Footprint(), fs.disk`files
    ensures fs.Valid() && fresh(fs.cache.Footprint() - old(fs.cache.Footprint()))
    ensures Stepped(fs.disk.names, old(Now(fs)), Checkpoint, Now(fs), out)
  {
    hide EngineInv, Cached, Held, VolatileOf, FilesInv, Steps, CopiesOf, Named, AllClean, Unsynced, Flagged, Coherent, Lists, AllListed;
    ghost var items, es, files, mapped := fs.cache.items, fs.cache.engine.State(), fs.disk.files, fs.cache.fileInodeMapping.Values;
    WellFormed(fs);
    fs.CommandCheckpoint();
    out := Done;
    WellFormed(fs);
    ghost var items', es', files' := fs.cache.items, fs.cache.engine.State(), fs.disk.files;
    forall i ensures Checkpointed(items, es, files, items', es', files', mapped, i) {
      assert fs.Durable(i) == if i in mapped then old(fs.Volatile(i)) else old(fs.Durable(i));
      assert fs.Volatile(i) == old(fs.Volatile(i));
      assert fs.cache.engine.Blocks(i) == if i in mapped then AllClean(old(fs.cache.engine.Blocks(i))) else old(fs.cache.engine.Blocks(i));
    }
    ListsCheckpoint(fs.disk.names, mapped, Flagged(items), Flagged(items'), Unsynced(es'.ordered));
    CheckpointSteps(fs.disk.names, items, es, files, mapped, items', es', files');
  }

  method Perform(fs: LazyFS, op: Op) returns (out: Output)
    requires fs.Valid() && Apt(fs.disk.names, op)
    modifies fs.cache.Footprint(), fs.disk`files
    ensures fs.Valid() && fresh(fs.cache.Footprint() - old(fs.cache.Footprint()))
    ensures Stepped(fs.disk.names, old(Now(fs)), op, Now(fs), out)
  {
    hide EngineInv, Cached, Held, VolatileOf, FilesInv, Stepped, Now;
    match op
    case Write(p, buf, offset) => out := DoWrite(fs, p, buf, offset);
    case Read(p, len, offset) => out := DoRead(fs, p, len, offset);
    case Truncate(p, size, byInode) => out := DoTruncate(fs, p, size, byInode);
    case Fsync(p) => out := DoFsync(fs, p);
    case Clear => out := DoClear(fs);
    case Checkpoint => out := DoCheckpoint(fs);
  }

  /** Any run of calls, as tests/lfscheck drives LazyFS. What happens is a run of the two-copy file. When
      each call finds room at its own time it is the only possible one, and file by file so when the calls
      that write the file do; `Roomy` tells beforehand. Without a crash readers are answered right in any
      case, and with one no byte comes back that was not saved or seen since. */
  method Drive(fs: LazyFS, ops: seq<Op>) returns (outs: seq<Output>, ghost shots: seq<Shot>)
    requires fs.Valid() && forall op | op in ops :: Apt(fs.disk.names, op)
    modifies fs.cache.Footprint(), fs.disk`files
    ensures fs.Valid() && Happened(fs.disk.names, |fs.cache.engine.pages|, shots, ops, outs)
    ensures Sound(fs.disk.names, shots, ops) && |outs| == |ops| && shots[0] == old(Now(fs)) && shots[|ops|] == Now(fs)
    ensures Traceable(shots[0]) && AllRoom(fs.disk.names, shots, ops) ==> Refines(fs.disk.names, shots, ops, outs)
    ensures Traceable(shots[0]) ==>
              (AllRoom(fs.disk.names, shots, ops) <==> Roomy(fs.disk.names, |fs.cache.engine.pages|, shots[0].held, shots[0].copies, ops))
    ensures (forall op | op in ops :: !op.Clear?) ==> ReadersRefine(fs.disk.names, shots, ops, outs)
    ensures FilesRefine(fs.disk.names, shots, ops) && DurablesKept(fs.disk.names, shots, ops) && DurablesMixed(fs.disk.names, shots, ops)
    ensures Now(fs).unsynced == Now(fs).held * UnsavedBy(fs.disk.names, shots, shots[0].unsynced, ops, |ops|)
    ensures ReportRight(fs.disk.names, shots, ops)
  {
    hide EngineInv, Cached, Held, VolatileOf, FilesInv, Stepped, Named, Now, Happened, Sound, AllRoom, Refines, Roomy, ReadersRefine,
         FilesRefine, DurablesKept, DurablesMixed, UnsavedBy, Traceable, ReportRight;
    ghost var names, pages := fs.disk.names, |fs.cache.engine.pages|;
    outs, shots := [], [Now(fs)];
    WellFormed(fs);
    HappenedNone(names, pages, Now(fs));
    for k := 0 to |ops|
      invariant fs.Valid() && fresh(fs.cache.Footprint() - old(fs.cache.Footprint()))
      invariant |outs| == k && |shots| == k + 1 && shots[0] == old(Now(fs)) && shots[k] == Now(fs)
      invariant Happened(names, pages, shots, ops[..k], outs)
    {
      var out := Perform(fs, ops[k]);
      WellFormed(fs);
      HappenedMore(names, pages, shots, ops[..k], outs, ops[k], Now(fs), out);
      outs, shots := outs + [out], shots + [Now(fs)];
      assert ops[..k + 1] == ops[..k] + [ops[k]];
    }
    assert ops[..|ops|] == ops;
    HappenedKeeps(names, pages, shots, ops, outs);
  }

  /** A fresh LazyFS over any disk: nothing cached, readers see the disk. */
  method Mount(names: map<Path, Inode>, files: Files, nrPages: nat) returns (fs: LazyFS)
    requires forall p | p in names :: names[p] in files
    ensures fresh(fs) && fresh(fs.disk) && fresh(fs.cache.Footprint()) && fs.Valid() && fs.disk.names == names && fs.disk.files == files
    ensures fs.cache.items == map[] && |fs.cache.engine.pages| == nrPages
    ensures Now(fs) == Shot(Copies(files, files), {}, {}, nrPages, {}, {})
  {
    hide EngineInv, Cached, Held, VolatileOf, FilesInv, Unsynced;
    var disk := new Disk(names, files);
    var engine := new CustomCacheEngine(disk, nrPages);
    var cache := new Cache(engine);
    fs := new LazyFS(cache, disk);
    NothingHeld(fs);
    forall i | i in files ensures VolatileOf(cache.items, engine.State(), files, i) == files[i] {
      assert fs.Volatile(i) == fs.Durable(i);
    }
    assert Now(fs).copies == Copies(files, files);
  }

  /** From mounting on: a run on a fresh LazyFS over any disk. */
  method MountAndDrive(names: map<Path, Inode>, files: Files, nrPages: nat, ops: seq<Op>)
    returns (fs: LazyFS, outs: seq<Output>, ghost shots: seq<Shot>)
    requires (forall p | p in names :: names[p] in files) && forall op | op in ops :: Apt(names, op)
    ensures Happened(names, nrPages, shots, ops, outs) && fs.Valid() && fs.disk.names == names
    ensures Sound(names, shots, ops) && |outs| == |ops| && shots[0] == Shot(Copies(files, files), {}, {}, nrPages, {}, {}) && shots[|ops|] == Now(fs)
    ensures AllRoom(names, shots, ops) ==> Refines(names, shots, ops, outs)
    ensures AllRoom(names, shots, ops) <==> Roomy(names, nrPages, {}, Copies(files, files), ops)
    ensures (forall op | op in ops :: !op.Clear?) ==> ReadersRefine(names, shots, ops, outs)
    ensures FilesRefine(names, shots, ops) && DurablesKept(names, shots, ops) && DurablesMixed(names, shots, ops)
    ensures Now(fs).unsynced == Now(fs).held * UnsavedBy(names, shots, {}, ops, |ops|) && ReportRight(names, shots, ops)
  {
    hide EngineInv, Cached, FilesInv, Happened, Sound, AllRoom, Refines, Roomy, ReadersRefine, FilesRefine, DurablesKept, DurablesMixed,
         UnsavedBy, Now, ReportRight;
    fs := Mount(names, files, nrPages);
    outs, shots := Drive(fs, ops);
  }

  /** A file of two bytes, mounted and cut to one byte: nothing is cached, and the disk file is as it was. */
  method CutFile(byInode: bool) returns (fs: LazyFS)
    ensures fresh(fs) && fresh(fs.disk) && fresh(fs.cache.Footprint()) && fs.Valid() && fs.disk.names == map["f" := 1]
    ensures |fs.Volatile(1)| == 1 && fs.FileView(1, 1) == View(1, [7, 9], map[])
  {
    hide EngineInv, Cached, FilesInv, OnlyTouches, Shrunk, Landed, Flagged, MarksMove, IndexAgrees, Coherent, VolatileOf;
    fs := TwoByteFile();
    ExtentEmpty(2, 1);
    ghost var blocks := fs.cache.engine.Blocks(1);
    var _ := fs.LfsTruncate("f", 1, true, byInode, {});
    StillEmpty(blocks, fs.FileView(1, 1), byInode);
    assert fs.Durable(1) == [7, 9];
  }

  method TwoByteFile() returns (fs: LazyFS)
    ensures fresh(fs) && fresh(fs.disk) && fresh(fs.cache.Footprint()) && fs.Valid() && fs.disk.names == map["f" := 1]
    ensures fs.Volatile(1) == fs.Durable(1) == [7, 9] && fs.cache.engine.Blocks(1) == map[]
  {
    hide EngineInv, Cached, FilesInv, Held, Unsynced, IndexAgrees, Coherent, Flagged;
    fs := Mount(map["f" := 1], map[1 := [7, 9]], 1);
    NoBlocks(fs, 1);
    assert fs.Volatile(1) == Now(fs).copies.vol[1] == [7, 9];
  }

  lemma NoBlocks(fs: LazyFS, i: Inode)
    requires fs.Valid() && i !in fs.cache.items
    ensures fs.cache.engine.Blocks(i) == map[]
  {
    hide EngineInv, Cached, FilesInv;
    ItemAt(fs.cache.items, fs.cache.engine.State(), i);
  }

  lemma StillEmpty(blocks: map<nat, CBlock>, v: View, byInode: bool)
    requires blocks == map[] && Shrunk(blocks, v, byInode)
    ensures v.blocks == map[]
  {
    assert v.blocks.Keys == {};
  }

  /** Read for two bytes, it answers the byte cut off too. */
  method CutFileTrails(byInode: bool) returns (res: nat, answer: Image)
    ensures res == 2 && answer == [7, 9]
  {
    hide EngineInv, Cached, FilesInv, Inv, Trails, ReadDone, OnlyTouches, Answers, VolatileOf, IndexAgrees, Coherent;
    var fs := CutFile(byInode);
    ghost var es, files := fs.cache.engine.State(), fs.disk.files;
    var buf := new Byte[2];
    res := fs.LfsRead("f", buf, 2, 0);
    answer := buf[..];
    assert fs.FileView(1, 1) == View(1, [7, 9], map[]);
    CutFileRead(answer, res);
  }

  lemma FirstBlock(blocks: map<nat, CBlock>)
    requires blocks == map[]
    ensures Extent(0, 2) == {0} && Fits(Extent(0, 2), blocks, 1)
  {
    Unique(0, 0);
    Unique(1, 0);
    assert Extent(0, 2) == {0};
    assert Extent(0, 2) - blocks.Keys == {0};
  }

  method EmptyFile() returns (fs: LazyFS)
    ensures fresh(fs) && fresh(fs.disk) && fresh(fs.cache.Footprint()) && fs.Valid() && fs.disk.names == map["f" := 1]
    ensures fs.Volatile(1) == [] && Fits(Extent(0, 2), fs.cache.engine.Blocks(1), |fs.cache.engine.freePages|)
  {
    hide EngineInv, Cached, FilesInv, Extent, Fits, Held, Unsynced, IndexAgrees, Coherent, Flagged;
    fs := Mount(map["f" := 1], map[1 := []], 1);
    NoBlocks(fs, 1);
    assert fs.Volatile(1) == Now(fs).copies.vol[1] == [];
    FirstBlock(fs.cache.engine.Blocks(1));
  }

  /** Two bytes written to an empty file, in the cache alone. */
  method WriteTwo(fs: LazyFS)
    requires fs.Valid() && fs.disk.names == map["f" := 1] && fs.Volatile(1) == []
    requires Fits(Extent(0, 2), fs.cache.engine.Blocks(1), |fs.cache.engine.freePages|)
    modifies fs.cache.Footprint(), fs.disk`files
    ensures fs.Valid() && fresh(fs.cache.Footprint() - old(fs.cache.Footprint()))
    ensures fs.Volatile(1) == [7, 9] && 1 in fs.cache.items && 0 in fs.cache.engine.Blocks(1)
  {
    hide EngineInv, Cached, FilesInv, OnlyTouches, Landed, Extent, Fits, IndexAgrees, Coherent, Flagged, MarksMove, VolatileOf;
    FirstBlock(map[]);
    ghost var dur, blocks, free := fs.Durable(1), fs.cache.engine.Blocks(1), |fs.cache.engine.freePages|;
    var bytes: Image := [7, 9];
    assert Min(0, 0) == 0 && 0 + |bytes| == 2;
    var _ := fs.LfsWrite("f", bytes, 0, true, Extent(0, 2));
    LandedAll(dur, blocks, free, fs.Volatile(1), fs.Durable(1), fs.cache.engine.Blocks(1), |fs.cache.engine.freePages|, Min(0, 0), 0 + |bytes|);
  }

  /** What is known of the one block of that file. */
  lemma CachedBytes(v: View)
    requires Inv(v) && v.size == 2 && Logical(v) == [7, 9] && 0 in v.blocks
    ensures |v.blocks[0].bytes| == B && v.blocks[0].bytes[0] == 7 && v.blocks[0].bytes[1] == 9 && v.blocks[0].to >= 1
  {
    Unique(0, 0);
    Unique(1, 0);
    assert BlockOk(v.size, 0, v.blocks[0]);
    assert Logical(v)[0] == ByteAt(v, 0) && Logical(v)[1] == ByteAt(v, 1);
  }

  lemma CachedCut(was: map<nat, CBlock>, v: View, byInode: bool, buf: Image, res: nat)
    requires 0 in was && |was[0].bytes| == B && was[0].bytes[0] == 7 && was[0].bytes[1] == 9 && was[0].to >= 1
    requires v.size == 1 && Shrunk(was, v, byInode) && |buf| == 2 && ReadDone(v, 0, 2, buf, res)
    ensures if byInode then res == 1 && buf[0] == 7 else res == 2 && buf == [7, 9]
  {
    Unique(0, 0);
    Unique(1, 0);
    if byInode {
      assert CutFrom(was[0], v.blocks[0], 1);
      assert buf[..1][0] == ByteAt(v, 0);
    } else {
      assert buf[..2][0] == ByteAt(v, 0) && buf[..2][1] == ByteAt(v, 1);
    }
  }

  /** Cut to one byte and read for two: asked for the inode, the cache gives up the byte cut off, and the read
      stops at the new end; asked for the path, it keeps it, and the read answers it too. */
  method CutCachedFile(byInode: bool) returns (res: nat, answer: Image)
    ensures if byInode then res == 1 && |answer| == 2 && answer[0] == 7 else res == 2 && answer == [7, 9]
  {
    hide EngineInv, Cached, FilesInv, Shrunk, IndexAgrees, Coherent, Extent, Fits, VolatileOf;
    var fs := EmptyFile();
    WriteTwo(fs);
    ghost var was := CutToOne(fs, byInode);
    res, answer := ReadTwo(fs, byInode, was);
  }

  method ReadTwo(fs: LazyFS, byInode: bool, ghost was: map<nat, CBlock>) returns (res: nat, answer: Image)
    requires fs.Valid() && fs.disk.names == map["f" := 1] && |fs.Volatile(1)| == 1
    requires 0 in was && |was[0].bytes| == B && was[0].bytes[0] == 7 && was[0].bytes[1] == 9 && was[0].to >= 1
    requires Shrunk(was, fs.FileView(1, 1), byInode)
    modifies fs.cache.Footprint()
    ensures if byInode then res == 1 && |answer| == 2 && answer[0] == 7 else res == 2 && answer == [7, 9]
  {
    hide EngineInv, Cached, FilesInv, Inv, OnlyTouches, Shrunk, IndexAgrees, Coherent, ReadDone, Answers, Trails, VolatileOf;
    ghost var v := fs.FileView(1, 1);
    var buf := new Byte[2];
    res := fs.LfsRead("f", buf, 2, 0);
    answer := buf[..];
    CachedCut(was, v, byInode, answer, res);
  }

  method CutToOne(fs: LazyFS, byInode: bool) returns (ghost was: map<nat, CBlock>)
    requires fs.Valid() && fs.disk.names == map["f" := 1]
    requires fs.Volatile(1) == [7, 9] && 1 in fs.cache.items && 0 in fs.cache.engine.Blocks(1)
    modifies fs.cache.Footprint(), fs.disk`files
    ensures fs.Valid() && fresh(fs.cache.Footprint() - old(fs.cache.Footprint())) && |fs.Volatile(1)| == 1
    ensures 0 in was && |was[0].bytes| == B && was[0].bytes[0] == 7 && was[0].bytes[1] == 9 && was[0].to >= 1
    ensures Shrunk(was, fs.FileView(1, 1), byInode)
  {
    hide EngineInv, Cached, FilesInv, Inv, OnlyTouches, Shrunk, IndexAgrees, Coherent, Flagged, MarksMove, Logical, Landed;
    was := fs.cache.engine.Blocks(1);
    FileAt(fs.cache.items, fs.cache.engine.State(), fs.disk.files, 1);
    CachedBytes(fs.FileView(1, 2));
    ExtentEmpty(2, 1);
    var _ := fs.LfsTruncate("f", 1, true, byInode, {});
  }

  /* ---------------------------------------------------------------- a checkpoint that misses a file */

  /** The first item, once admitted with the link count of the file system, is in step with the names. */
  lemma FirstLinked(items: map<Inode, ItemState>, items': map<Inode, ItemState>, es: EngineState, files: Files, es': EngineState, files': Files,
                    names: map<Path, Inode>, p: Path)
    requires p in names && OnlyTouches(items, es, files, items', es', files', names[p]) && items == map[] && names[p] in items'
    requires items'[names[p]].meta.nlinks == |Links.NamesOf(names, names[p])|
    ensures Links.Linked(items', map[p := names[p]], names)
  {
    assert p in Links.NamesOf(names, names[p]);
    forall i | i in items' ensures Links.Counts(items', names, i) {
      assert i == names[p];
    }
  }

  lemma CountedNames(fs: LazyFS, i: Inode)
    ensures fs.LinkCount(i) == |Links.NamesOf(fs.disk.names, i)|
  {
    assert (set p | p in fs.disk.names && fs.disk.names[p] == i) == Links.NamesOf(fs.disk.names, i);
  }

  /** Changing the link count of an item changes nothing else. */
  lemma CountOnly(items: map<Inode, ItemState>, es: EngineState, files: Files, i: Inode, count: nat)
    requires FilesInv(items, es, files) && i in items
    ensures FilesInv(Links.WithCount(items, i, count), es, files)
    ensures forall j :: VolatileOf(Links.WithCount(items, i, count), es, files, j) == VolatileOf(items, es, files, j)
  {
    var items' := Links.WithCount(items, i, count);
    forall j ensures ViewOf(items', es, files, j, j) == ViewOf(items, es, files, j, j) {}
    forall j | j in items' ensures FileInv(items', es, files, j) {
      assert FileInv(items, es, files, j);
    }
  }

  lemma TwoNamesCount()
    ensures |Links.NamesOf(map["a" := 1, "b" := 1], 1)| == 2
  {
    assert Links.NamesOf(map["a" := 1, "b" := 1], 1) == {"a", "b"};
    assert "a"[0] == 'a' && "b"[0] == 'b';
  }

  lemma WroteOver(blocks: map<nat, CBlock>)
    requires blocks == map[]
    ensures Fits(Extent(0, 1), blocks, 1) && Min(1, 0) == 0
  {
    assert BlockOf(0) == BlockOf(0);
    assert Extent(0, 1) == {BlockOf(0)};
    assert Extent(0, 1) - blocks.Keys == {BlockOf(0)};
  }

  method MountTwoNames() returns (fs: LazyFS, links: Links.LinkFS)
    ensures fresh(fs) && fresh(fs.disk) && fresh(fs.cache.Footprint()) && fresh(links) && links !in fs.cache.Footprint()
    ensures fs.Valid() && links.cache == fs.cache && links.names == fs.disk.names == map["a" := 1, "b" := 1]
    ensures fs.cache.items == map[] && fs.cache.fileInodeMapping == map[] && 1 in fs.disk.files
    ensures fs.Volatile(1) == [7] && fs.Durable(1) == [7]
    ensures Fits(Extent(0, 1), fs.cache.engine.Blocks(1), |fs.cache.engine.freePages|)
  {
    hide EngineInv, Cached, FilesInv, Held, Unsynced, Links.NamesOf, IndexAgrees, Extent, Fits;
    fs := Mount(map["a" := 1, "b" := 1], map[1 := [7]], 1);
    links := new Links.LinkFS(fs.cache, fs.disk.names);
    NoBlocks(fs, 1);
    assert fs.Volatile(1) == Now(fs).copies.vol[1] == [7];
    WroteOver(fs.cache.engine.Blocks(1));
  }

  /** The one byte of a file is written over, with a page free for it: the disk keeps the old one. */
  method WriteByte(fs: LazyFS, p: Path, byte: Byte)
    requires fs.Valid() && p in fs.disk.names && |fs.Volatile(fs.disk.names[p])| == 1
    requires Fits(Extent(0, 1), fs.cache.engine.Blocks(fs.disk.names[p]), |fs.cache.engine.freePages|)
    modifies fs.cache.Footprint(), fs.disk`files
    ensures fs.Valid() && fresh(fs.cache.Footprint() - old(fs.cache.Footprint()))
    ensures var i := fs.disk.names[p];
            && fs.Volatile(i) == [byte] && fs.Durable(i) == old(fs.Durable(i)) && i in fs.cache.items && fs.Links(i) == old(fs.Links(i))
            && fs.cache.fileInodeMapping == old(fs.cache.fileInodeMapping)[p := i]
            && OnlyTouches(old(fs.cache.items), old(fs.cache.engine.State()), old(fs.disk.files),
                           fs.cache.items, fs.cache.engine.State(), fs.disk.files, i)
  {
    hide EngineInv, Cached, FilesInv, OnlyTouches, Landed, Extent, Fits, VolatileOf, IndexAgrees, Coherent;
    ghost var i := fs.disk.names[p];
    var bytes: Image := [byte];
    ghost var vol, dur, blocks, free := fs.Volatile(i), fs.Durable(i), fs.cache.engine.Blocks(i), |fs.cache.engine.freePages|;
    assert Min(|vol|, 0) == 0 && 0 + |bytes| == 1;
    var _ := fs.LfsWrite(p, bytes, 0, true, Extent(0, 1));
    LandedRoom(dur, blocks, free, fs.Volatile(i), fs.Durable(i), fs.cache.engine.Blocks(i), |fs.cache.engine.freePages|,
               Min(|vol|, 0), 0 + |bytes|, Extent(0, 1));
  }

  /** A file of two names, looked up and written by one of them. */
  method WrittenByOneName() returns (fs: LazyFS, links: Links.LinkFS)
    ensures fresh(fs) && fresh(fs.disk) && fresh(fs.cache.Footprint()) && fresh(links) && links !in fs.cache.Footprint()
    ensures fs.Valid() && links.Valid() && links.cache == fs.cache && links.names == fs.disk.names == map["a" := 1, "b" := 1]
    ensures fs.Volatile(1) == [9] && fs.Durable(1) == [7] && fs.cache.fileInodeMapping == map["a" := 1]
    ensures 1 in fs.cache.items && fs.cache.items[1].meta.nlinks == 2
  {
    hide EngineInv, Cached, FilesInv, OnlyTouches, Landed, Extent, Fits, Links.NamesOf, IndexAgrees, VolatileOf, Links.Linked, Coherent,
         Dirtied, Torn, Pwrite;
    fs, links := MountTwoNames();
    CountedNames(fs, 1);
    TwoNamesCount();
    ghost var items, es, files := fs.cache.items, fs.cache.engine.State(), fs.disk.files;
    WriteByte(fs, "a", 9);
    FirstLinked(items, fs.cache.items, es, files, fs.cache.engine.State(), fs.disk.files, links.names, "a");
  }

  /** The name is unlinked, and not used again: the file stays, with what was written, but no known path
      leads to it. */
  method UnlinkedOneName() returns (fs: LazyFS)
    ensures fresh(fs) && fresh(fs.disk) && fresh(fs.cache.Footprint())
    ensures fs.Valid() && fs.disk.names == map["a" := 1, "b" := 1]
    ensures fs.Volatile(1) == [9] && fs.Durable(1) == [7] && fs.cache.fileInodeMapping == map[]
  {
    hide EngineInv, Cached, FilesInv, Links.NamesOf, IndexAgrees, VolatileOf, Links.Linked;
    var links;
    fs, links := WrittenByOneName();
    ghost var items, es := fs.cache.items, fs.cache.engine.State();
    var _ := links.LfsUnlink("a");
    CountOnly(items, es, fs.disk.files, 1, 1);
  }

  method MissedAndCleared() returns (fs: LazyFS, ghost seen: Image, ghost saved: Image)
    ensures fresh(fs) && fresh(fs.disk) && fresh(fs.cache.Footprint()) && fs.Valid() && "b" in fs.disk.names && fs.disk.names["b"] == 1
    ensures seen == [9] && saved == [7] && fs.Volatile(1) == [7]
  {
    hide EngineInv, Cached, FilesInv, IndexAgrees, VolatileOf, NoDuplicates, AllClean, Coherent;
    fs := UnlinkedOneName();
    fs.CommandCheckpoint();
    seen, saved := fs.Volatile(1), fs.Durable(1);
    fs.CommandFaultClearCache();
    assert fs.Volatile(1) == fs.Durable(1);
  }

  /** A file of two names is looked up and written by one, which is then unlinked. A checkpoint does not
      save it, and after a clear the other name reads the old byte. */
  method CheckpointMisses() returns (ghost seen: Image, ghost saved: Image, answer: Image)
    ensures seen == [9] && saved == [7] && answer == [7]
  {
    hide EngineInv, Cached, FilesInv, IndexAgrees, VolatileOf, OnlyTouches, Answers, ReadDone, Trails, Coherent;
    var fs;
    fs, seen, saved := MissedAndCleared();
    var buf := new Byte[1];
    var res := fs.LfsRead("b", buf, 1, 0);
    AnsweredByte([7], buf[..], res);
    answer := buf[..];
  }

  lemma AnsweredByte(file: Image, buf: Image, res: nat)
    requires |file| == 1 && |buf| == 1 && Answers(file, 0, 1, buf, res)
    ensures buf == file
  {}
}
