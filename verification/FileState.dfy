/** The two copies of every file: what readers see, and what the disk holds. */
module FileStates {
  import opened Posix
  import opened Overlay
  import opened Slots
  import opened Disks
  import opened EngineStates
  import opened Items
  import opened CacheStates

  type Files = map<Inode, Image>

  ghost predicate FileInv(items: map<Inode, ItemState>, es: EngineState, files: Files, i: Inode) {
    i in files && Inv(ViewOf(items, es, files, i, i))
  }

  /** Every cached file is on disk and its overlay is well formed; `o` is excepted. */
  ghost predicate FilesInvBut(items: map<Inode, ItemState>, es: EngineState, files: Files, o: Inode) {
    forall i | i in items && i != o :: FileInv(items, es, files, i)
  }

  ghost predicate FilesInv(items: map<Inode, ItemState>, es: EngineState, files: Files) {
    forall i | i in items :: FileInv(items, es, files, i)
  }

  /** The bytes readers of inode `i` see: its overlay, or the disk file when it has no item. */
  ghost function VolatileOf(items: map<Inode, ItemState>, es: EngineState, files: Files, i: Inode): Image {
    if i in items then Logical(ViewOf(items, es, files, i, i)) else ImageOf(files, i)
  }

  /** No inode but `o` can tell the two states apart. */
  ghost predicate OnlyTouches(items: map<Inode, ItemState>, es: EngineState, files: Files,
                              items': map<Inode, ItemState>, es': EngineState, files': Files, o: Inode)
  {
    && files'.Keys == files.Keys
    && forall i | i != o ::
         && (i in items' <==> i in items)
         && ViewOf(items', es', files', i, i) == ViewOf(items, es, files, i, i)
         && ImageOf(files', i) == ImageOf(files, i)
  }

  lemma TouchesOnly(items: map<Inode, ItemState>, es: EngineState, files: Files,
                    items': map<Inode, ItemState>, es': EngineState, files': Files, o: Inode)
    requires o in files && o in files' && files' == files[o := files'[o]]
    requires forall i | i != o :: (i in items' <==> i in items) && (i in items ==> items'[i].meta.size == items[i].meta.size)
    requires OthersKept(es, es', o)
    ensures OnlyTouches(items, es, files, items', es', files', o)
  {
    forall i | i != o ensures ViewOf(items', es', files', i, i) == ViewOf(items, es, files, i, i) {
      assert Cached(es', i) == Cached(es, i);
    }
  }

  lemma TouchesTrans(items: map<Inode, ItemState>, es: EngineState, files: Files,
                     items1: map<Inode, ItemState>, es1: EngineState, files1: Files,
                     items2: map<Inode, ItemState>, es2: EngineState, files2: Files, o: Inode)
    requires OnlyTouches(items, es, files, items1, es1, files1, o)
    requires OnlyTouches(items1, es1, files1, items2, es2, files2, o)
    ensures OnlyTouches(items, es, files, items2, es2, files2, o)
  {}

  /** An inode the step does not touch keeps both its copies, and its overlay stays well formed. */
  lemma Untouched(items: map<Inode, ItemState>, es: EngineState, files: Files,
                  items': map<Inode, ItemState>, es': EngineState, files': Files, o: Inode, i: Inode)
    requires OnlyTouches(items, es, files, items', es', files', o) && i != o
    ensures VolatileOf(items', es', files', i) == VolatileOf(items, es, files, i)
    ensures ImageOf(files', i) == ImageOf(files, i)
    ensures FileInv(items, es, files, i) ==> FileInv(items', es', files', i)
  {}

  lemma ButKept(items: map<Inode, ItemState>, es: EngineState, files: Files,
                items': map<Inode, ItemState>, es': EngineState, files': Files, o: Inode)
    requires FilesInvBut(items, es, files, o) && OnlyTouches(items, es, files, items', es', files', o)
    ensures FilesInvBut(items', es', files', o)
  {
    forall i | i in items' && i != o ensures FileInv(items', es', files', i) {
      assert FileInv(items, es, files, i);
      Untouched(items, es, files, items', es', files', o, i);
    }
  }

  lemma InvSplit(items: map<Inode, ItemState>, es: EngineState, files: Files, o: Inode)
    ensures FilesInv(items, es, files) <==>
            FilesInvBut(items, es, files, o) && (o in items ==> FileInv(items, es, files, o))
  {}

  /** Syncing one item makes its disk file the bytes readers see and changes no byte they see. */
  lemma SyncStep(items: map<Inode, ItemState>, es: EngineState, files: Files,
                 items': map<Inode, ItemState>, es': EngineState, files': Files, o: Inode)
    requires FilesInv(items, es, files) && o in items
    requires items'.Keys == items.Keys && forall i | i in items :: items'[i].meta == items[i].meta
    requires OthersKept(es, es', o)
    requires SyncOutcome(ViewOf(items, es, files, o, o), o, files, files', Cached(es', o))
    ensures FilesInv(items', es', files') && files'.Keys == files.Keys
    ensures ImageOf(files', o) == VolatileOf(items, es, files, o) == VolatileOf(items', es', files', o)
    ensures OnlyTouches(items, es, files, items', es', files', o)
  {
    assert FileInv(items, es, files, o);
    var v := ViewOf(items, es, files, o, o);
    assert ViewOf(items', es', files', o, o) == View(v.size, Logical(v), AllClean(v.blocks));
    SyncedView(v);
    TouchesOnly(items, es, files, items', es', files', o);
    InvSplit(items, es, files, o);
    ButKept(items, es, files, items', es', files', o);
    InvSplit(items', es', files', o);
  }

  lemma SyncedView(v: View)
    requires Inv(v)
    ensures var v' := View(v.size, Logical(v), AllClean(v.blocks)); Inv(v') && Logical(v') == Logical(v)
  {
    var v' := View(v.size, Logical(v), AllClean(v.blocks));
    forall i: nat | i < v.size ensures ByteAt(v', i) == ByteAt(v, i) {}
    forall b | b in v'.blocks ensures BlockOk(v.size, b, v'.blocks[b]) {
      assert BlockOk(v.size, b, v.blocks[b]);
    }
  }

  /** The paths the cache knows lead where the file system says. An item may have no such path: unlinking
      the one looked up, of two, leaves it none. */
  ghost predicate Coherent(mapping: map<Path, Inode>, names: map<Path, Inode>) {
    forall p | p in mapping :: p in names && mapping[p] == names[p]
  }

  lemma CoherentAt(mapping: map<Path, Inode>, names: map<Path, Inode>, p: Path)
    requires Coherent(mapping, names) && p in mapping
    ensures p in names && mapping[p] == names[p] && mapping[p := names[p]] == mapping
  {}

  lemma PathAdded(mapping: map<Path, Inode>, names: map<Path, Inode>, p: Path)
    requires Coherent(mapping, names) && p in names
    ensures Coherent(mapping[p := names[p]], names)
    ensures mapping[p := names[p]].Values == mapping.Values + {names[p]}
  {
    var mapping' := mapping[p := names[p]];
    forall i | i in mapping.Values ensures i in mapping'.Values {
      var q :| q in mapping && mapping[q] == i;
      assert mapping'[q] == i;
    }
    assert mapping'[p] == names[p];
  }

  /** After a clear the names still mapped lead where they did. */
  lemma NamesLeft(items: map<Inode, ItemState>, mapping: map<Path, Inode>, mapping': map<Path, Inode>, names: map<Path, Inode>)
    requires OneNameGone(items, mapping, mapping') && Coherent(mapping, names)
    ensures Coherent(mapping', names) && mapping'.Values <= mapping.Values
  {}

  /** The inodes some known path leads to. */
  lemma MappedIn(mapping: map<Path, Inode>, todo: set<Path>, synced: set<Inode>)
    requires todo == {} && synced == set p | p in mapping && p !in todo :: mapping[p]
    ensures synced == mapping.Values
  {}

  lemma ItemsKept(items: map<Inode, ItemState>, items': map<Inode, ItemState>, o: Inode)
    requires MetasKept(items, items', o) && o in items
    ensures items'.Keys == items.Keys
  {}

  /** An item created with the size of its disk file shows the disk file. */
  lemma NewItem(items: map<Inode, ItemState>, es: EngineState, files: Files, items': map<Inode, ItemState>, o: Inode)
    requires IndexAgrees(items, es) && o !in items && o in files && o in items'
    requires items'[o].meta.size == |files[o]|
    ensures FileInv(items', es, files, o) && VolatileOf(items', es, files, o) == VolatileOf(items, es, files, o)
  {
    ItemAt(items, es, o);
    Uncached(files[o]);
  }

  /** Re-assembles the invariant after a step on one inode. */
  lemma Rejoin(items: map<Inode, ItemState>, es: EngineState, files: Files,
               items': map<Inode, ItemState>, es': EngineState, files': Files, o: Inode)
    requires FilesInvBut(items, es, files, o) && OnlyTouches(items, es, files, items', es', files', o)
    requires o in items' ==> FileInv(items', es', files', o)
    ensures FilesInv(items', es', files')
  {
    ButKept(items, es, files, items', es', files', o);
    InvSplit(items', es', files', o);
  }

  lemma FileAt(items: map<Inode, ItemState>, es: EngineState, files: Files, o: Inode)
    requires FilesInv(items, es, files) && o in items
    ensures FileInv(items, es, files, o) && FilesInvBut(items, es, files, o)
    ensures |VolatileOf(items, es, files, o)| == items[o].meta.size
  {}

  /** The size of one item is set; everything else about the items is kept but for that item. */
  ghost predicate SizeSet(items: map<Inode, ItemState>, items': map<Inode, ItemState>, o: Inode, size: nat) {
    && items'.Keys == items.Keys && o in items && items'[o] == items[o].(meta := Metadata(size, items[o].meta.nlinks))
    && forall i | i in items && i != o :: items'[i] == items[i]
  }

  lemma SizeOnly(items: map<Inode, ItemState>, items': map<Inode, ItemState>, o: Inode, size: nat)
    requires SizeSet(items, items', o, size)
    ensures o in items' && items'[o].meta.nlinks == items[o].meta.nlinks && items'[o].meta.size == size
    ensures Flagged(items') == Flagged(items)
  {}

  /** A step that leaves inode `o` with a well-formed overlay leaves the whole state well formed. */
  lemma FileReplaced(items: map<Inode, ItemState>, es: EngineState, files: Files,
                     items1: map<Inode, ItemState>, items': map<Inode, ItemState>, es': EngineState, files': Files,
                     o: Inode, v': View)
    requires FilesInv(items, es, files) && o in items && MetasKept(items, items1, o) && SizeSet(items1, items', o, v'.size)
    requires OthersKept(es, es', o) && o in files' && files' == files[o := files'[o]]
    requires Inv(v') && v'.disk == files'[o] && v'.blocks == Cached(es', o)
    ensures FilesInv(items', es', files') && o in items'
    ensures OnlyTouches(items, es, files, items', es', files', o)
    ensures VolatileOf(items', es', files', o) == Logical(v')
  {
    FileAt(items, es, files, o);
    MetasSizes(items, items1, o);
    TouchesOnly(items, es, files, items', es', files', o);
    assert ViewOf(items', es', files', o, o) == v';
    Rejoin(items, es, files, items', es', files', o);
  }

  /** Nothing cached: readers see the disk. */
  lemma Cleared(es: EngineState, files: Files)
    ensures FilesInv(map[], es, files) && forall i :: VolatileOf(map[], es, files, i) == ImageOf(files, i)
  {}

  /** After flushing the inodes in `synced`: no byte readers see has changed, and those inodes, and no
      other, have clean blocks only, items marked synced and disk files that hold what readers see. */
  ghost predicate Flushed(items: map<Inode, ItemState>, es: EngineState, files: Files,
                          items': map<Inode, ItemState>, es': EngineState, files': Files, synced: set<Inode>)
  {
    && files'.Keys == files.Keys && items'.Keys == items.Keys && Flagged(items') == Flagged(items) - synced
    && forall i ::
         && VolatileOf(items', es', files', i) == VolatileOf(items, es, files, i)
         && ImageOf(files', i) == (if i in synced then VolatileOf(items, es, files, i) else ImageOf(files, i))
         && Cached(es', i) == if i in synced then AllClean(Cached(es, i)) else Cached(es, i)
  }

  lemma FlushedNone(items: map<Inode, ItemState>, es: EngineState, files: Files)
    ensures Flushed(items, es, files, items, es, files, {})
  {}

  lemma FlushedMore(items: map<Inode, ItemState>, es: EngineState, files: Files,
                    items1: map<Inode, ItemState>, es1: EngineState, files1: Files,
                    items2: map<Inode, ItemState>, es2: EngineState, files2: Files, synced: set<Inode>, o: Inode)
    requires Flushed(items, es, files, items1, es1, files1, synced)
    requires OnlyTouches(items1, es1, files1, items2, es2, files2, o) && items2.Keys == items1.Keys
    requires ImageOf(files2, o) == VolatileOf(items1, es1, files1, o) == VolatileOf(items2, es2, files2, o)
    requires Cached(es2, o) == AllClean(Cached(es1, o)) && Flagged(items2) == Flagged(items1) - {o}
    ensures Flushed(items, es, files, items2, es2, files2, synced + {o})
  {
    hide VolatileOf, Cached, AllClean, Flagged;
    forall i
      ensures VolatileOf(items2, es2, files2, i) == VolatileOf(items, es, files, i)
      ensures ImageOf(files2, i) == if i in synced + {o} then VolatileOf(items, es, files, i) else ImageOf(files, i)
      ensures Cached(es2, i) == if i in synced + {o} then AllClean(Cached(es, i)) else Cached(es, i)
    {
      CleanTwice(Cached(es, i));
      if i != o {
        Untouched(items1, es1, files1, items2, es2, files2, o, i);
        TouchesView(items1, es1, files1, items2, es2, files2, o, i);
      }
    }
  }

  lemma TouchesView(items: map<Inode, ItemState>, es: EngineState, files: Files,
                    items': map<Inode, ItemState>, es': EngineState, files': Files, o: Inode, i: Inode)
    requires OnlyTouches(items, es, files, items', es', files', o) && i != o
    ensures Cached(es', i) == Cached(es, i)
  {
    assert ViewOf(items', es', files', i, i) == ViewOf(items, es, files, i, i);
  }

  lemma CleanTwice(blocks: map<nat, CBlock>)
    ensures AllClean(AllClean(blocks)) == AllClean(blocks)
  {}

  lemma FlushedParts(items: map<Inode, ItemState>, es: EngineState, files: Files,
                     items': map<Inode, ItemState>, es': EngineState, files': Files, synced: set<Inode>)
    requires Flushed(items, es, files, items', es', files', synced)
    ensures files'.Keys == files.Keys && items'.Keys == items.Keys && Flagged(items') == Flagged(items) - synced
    ensures forall i :: VolatileOf(items', es', files', i) == VolatileOf(items, es, files, i)
    ensures forall i :: ImageOf(files', i) == if i in synced then VolatileOf(items, es, files, i) else ImageOf(files, i)
    ensures forall i :: Cached(es', i) == if i in synced then AllClean(Cached(es, i)) else Cached(es, i)
  {}

  /** Flushing makes every disk file what readers see exactly when it reaches each file that differs. */
  lemma FlushedAll(items: map<Inode, ItemState>, es: EngineState, files: Files,
                   items': map<Inode, ItemState>, es': EngineState, files': Files, synced: set<Inode>)
    requires Flushed(items, es, files, items', es', files', synced)
    ensures (forall i :: ImageOf(files', i) == VolatileOf(items', es', files', i))
            <==> forall i | VolatileOf(items, es, files, i) != ImageOf(files, i) :: i in synced
  {
    hide VolatileOf, Cached, AllClean;
    if forall i :: ImageOf(files', i) == VolatileOf(items', es', files', i) {
      forall i | VolatileOf(items, es, files, i) != ImageOf(files, i) ensures i in synced {
        assert ImageOf(files', i) == VolatileOf(items', es', files', i);
      }
    }
  }

  /** Syncing an inode that has no item does nothing, and nothing is needed. */
  lemma SyncAbsent(items: map<Inode, ItemState>, es: EngineState, files: Files,
                   items': map<Inode, ItemState>, es': EngineState, o: Inode)
    requires o !in items && items'.Keys == items.Keys && forall i | i in items :: items'[i].meta == items[i].meta
    requires OthersKept(es, es', o) && Cached(es', o) == Cached(es, o) && FilesInv(items, es, files)
    ensures OnlyTouches(items, es, files, items', es', files, o)
    ensures ImageOf(files, o) == VolatileOf(items, es, files, o) == VolatileOf(items', es', files, o)
    ensures FilesInv(items', es', files)
  {
    InvSplit(items, es, files, o);
    forall i | i != o ensures ViewOf(items', es', files, i, i) == ViewOf(items, es, files, i, i) {
      assert Cached(es', i) == Cached(es, i);
    }
    Rejoin(items, es, files, items', es', files, o);
  }
}
