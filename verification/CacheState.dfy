/** The agreement between the cache's block tables and the engine's pages. */
module CacheStates {
  import opened Posix
  import opened Overlay
  import opened Slots
  import opened EngineStates
  import opened Items
  import opened Disks

  /** A block is in the table exactly when the engine holds it, in the same page and readable to
      the same index; an item marked synced has no dirty block. */
  ghost predicate ItemAgrees(item: ItemState, blocks: map<nat, CBlock>) {
    && item.blocks.Keys == blocks.Keys
    && (forall b | b in blocks :: item.blocks[b] == BlockInfo(blocks[b].page, blocks[b].to))
    && (item.synced ==> forall b | b in blocks :: !blocks[b].dirty)
  }

  ghost predicate IndexAgrees(items: map<Inode, ItemState>, es: EngineState) {
    forall i :: if i in items then ItemAgrees(items[i], Cached(es, i)) else Cached(es, i) == map[]
  }

  /** A step on one inode keeps the agreement for all. */
  lemma AgreeStep(items: map<Inode, ItemState>, es: EngineState, items': map<Inode, ItemState>, es': EngineState, o: Inode)
    requires IndexAgrees(items, es) && OthersKept(es, es', o)
    requires forall i | i != o :: (i in items <==> i in items') && (i in items ==> items'[i] == items[i])
    requires if o in items' then ItemAgrees(items'[o], Cached(es', o)) else Cached(es', o) == map[]
    ensures IndexAgrees(items', es')
  {
    forall i ensures if i in items' then ItemAgrees(items'[i], Cached(es', i)) else Cached(es', i) == map[] {
      if i != o { assert Cached(es', i) == Cached(es, i); }
    }
  }

  lemma TableAt(items: map<Inode, ItemState>, es: EngineState, o: Inode, b: nat)
    requires IndexAgrees(items, es) && EngineInv(es)
    ensures o in items ==> (b in items[o].blocks <==> IsCached(es, o, b))
    ensures o !in items ==> !IsCached(es, o, b)
    ensures o in items && b in items[o].blocks ==>
              && es.ordered[o][b].page == items[o].blocks[b].page < |es.pages|
              && b in Cached(es, o) && Cached(es, o)[b].page == items[o].blocks[b].page
              && Cached(es, o)[b].to == items[o].blocks[b].readableTo
  {
    CachedIsIndexed(es, o, b);
    assert if o in items then ItemAgrees(items[o], Cached(es, o)) else Cached(es, o) == map[];
  }

  /** What a put of `bytes` at index `from` of block `b` does to the blocks of its inode. */
  ghost predicate PutOutcome(was: map<nat, CBlock>, now: map<nat, CBlock>, b: nat, from: nat, bytes: Image,
                             freeBefore: nat, freeAfter: nat, ok: bool)
  {
    from + |bytes| <= B
    && if b in was then ok && |was[b].bytes| == B && now == was[b := Updated(was[b], from, bytes)] && freeAfter == freeBefore
       else if freeBefore > 0 then ok && b in now && now == was[b := Fresh(now[b].page, from, bytes)] && freeAfter == freeBefore - 1
       else !ok && now == was && freeAfter == 0
  }

  /** The resident blocks of a file cut at `size`. */
  ghost predicate CutOutcome(was: map<nat, CBlock>, now: map<nat, CBlock>, size: nat) {
    && (BlockOf(size) in was ==> |was[BlockOf(size)].bytes| == B)
    && Within(size) < B && now == CutBlocks(was, BlockOf(size), Within(size)) && BlocksCut(was, now, BlockOf(size), Within(size))
  }

  /** The inodes whose item is not marked synced: those the unsynced-data report lists. */
  ghost function Flagged(items: map<Inode, ItemState>): (r: set<Inode>)
    ensures forall i :: i in r <==> i in items && !items[i].synced
  {
    set i | i in items && !items[i].synced
  }

  /** Sizes and link counts stay; item `o` may be new, with size 0. No item but `o` gets another mark, and
      that is not marked synced if it was not before. */
  ghost predicate MetasKept(items: map<Inode, ItemState>, items': map<Inode, ItemState>, o: Inode) {
    && items'.Keys == items.Keys + {o}
    && (forall i | i in items :: items'[i].meta == items[i].meta)
    && (o !in items ==> items'[o].meta == Metadata(0, 1))
    && (forall i | i in items && i != o :: items'[i].synced == items[i].synced)
    && (o in items && !items[o].synced ==> !items'[o].synced)
  }

  /** So the marks move. */
  ghost predicate MarksMove(items: map<Inode, ItemState>, items': map<Inode, ItemState>, o: Inode) {
    Flagged(items) <= Flagged(items') <= Flagged(items) + {o}
  }

  lemma MarksMoved(items: map<Inode, ItemState>, items': map<Inode, ItemState>, o: Inode)
    requires MetasKept(items, items', o) && o in items
    ensures MarksMove(items, items', o)
  {}

  /** The table entry that records a put, and the block the engine then holds. */
  lemma PutAgrees(item: ItemState, was: map<nat, CBlock>, placed: map<nat, CBlock>, b: nat, from: nat, bytes: Image, page: nat, to: int)
    requires ItemAgrees(item, was)
    requires |bytes| > 0 && from + |bytes| <= B
    requires to == Max(if b in item.blocks then item.blocks[b].readableTo else 0, from + |bytes| - 1)
    requires if b in was
             then page == was[b].page && |was[b].bytes| == B
                  && placed == was[b := CBlock(page, Overwrite(was[b].bytes, from, bytes), was[b].to, true)]
             else placed == was[b := CBlock(page, Overwrite(Zeros(B), from, bytes), -1, true)]
    ensures var now := placed[b := placed[b].(to := to)];
            && now == was[b := if b in was then Updated(was[b], from, bytes) else Fresh(page, from, bytes)]
            && ItemAgrees(ItemState(item.blocks[b := BlockInfo(page, to)], item.meta, false), now)
  {}

  lemma CutAgrees(item: ItemState, blocks: map<nat, CBlock>, at: nat, index: nat)
    requires ItemAgrees(item, blocks) && (at in blocks ==> index <= |blocks[at].bytes|)
    ensures ItemAgrees(ItemState(CutTable(item.blocks, at, index), item.meta, false), CutBlocks(blocks, at, index))
  {}

  lemma EmptyAgrees(meta: Metadata, synced: bool)
    ensures ItemAgrees(ItemState(map[], meta, synced), map[])
  {}

  lemma CleanAgrees(item: ItemState, blocks: map<nat, CBlock>)
    requires ItemAgrees(item, blocks)
    ensures ItemAgrees(item.(synced := true), AllClean(blocks))
  {}

  lemma OthersTrans(a: EngineState, b: EngineState, c: EngineState, o: Inode)
    requires OthersKept(a, b, o) && OthersKept(b, c, o)
    ensures OthersKept(a, c, o)
  {}

  lemma AgreeNew(items: map<Inode, ItemState>, es: EngineState, o: Inode)
    requires IndexAgrees(items, es) && o !in items
    ensures IndexAgrees(items[o := ItemState(map[], Metadata(0, 1), true)], es)
  {
    assert Cached(es, o) == map[];
  }

  lemma ItemAt(items: map<Inode, ItemState>, es: EngineState, o: Inode)
    requires IndexAgrees(items, es)
    ensures if o in items then ItemAgrees(items[o], Cached(es, o)) else Cached(es, o) == map[]
  {}

  lemma AbsentClean(items: map<Inode, ItemState>, es: EngineState, o: Inode)
    requires IndexAgrees(items, es) && o !in items
    ensures Cached(es, o) == AllClean(Cached(es, o))
  {
    ItemAt(items, es, o);
  }

  lemma OthersSame(es: EngineState, o: Inode)
    ensures OthersKept(es, es, o)
  {}

  lemma MetaKept(items: map<Inode, ItemState>, o: Inode, item: ItemState)
    requires o in items && item.meta == items[o].meta && (item.synced ==> items[o].synced)
    ensures MetasKept(items, items[o := item], o)
  {}

  lemma WholeCopy(blocks: map<nat, CBlock>, b: nat, before: Image, after: Image)
    requires CopiedOut(blocks, b, B, before, after) && |before| == B
    ensures after == blocks[b].bytes
  {}

  lemma AgreeMeta(items: map<Inode, ItemState>, es: EngineState, o: Inode, meta: Metadata)
    requires IndexAgrees(items, es) && o in items
    ensures IndexAgrees(items[o := items[o].(meta := meta)], es)
  {
    assert ItemAgrees(items[o], Cached(es, o));
    forall i | i in items && i != o ensures ItemAgrees(items[i], Cached(es, i)) {}
    forall i | i !in items ensures Cached(es, i) == map[] {}
  }

  lemma CutNone(at: nat, index: nat)
    ensures CutBlocks(map[], at, index) == map[]
  {}

  lemma CutToNothing(item: ItemState, blocks: map<nat, CBlock>)
    requires ItemAgrees(item, blocks)
    ensures CutBlocks(blocks, BlockOf(0), Within(0)) == map[]
    ensures |item.blocks| == 0 ==> blocks == map[]
  {
    Locate(0);
    Unique(0, 0);
    if |item.blocks| == 0 {
      assert item.blocks == map[];
      assert blocks.Keys == {};
    }
  }

  lemma ItemPages(item: ItemState, blocks: map<nat, CBlock>)
    requires ItemAgrees(item, blocks)
    ensures forall b :: b in item.blocks <==> b in blocks
    ensures forall b | b in blocks :: item.blocks[b].page == blocks[b].page
  {}

  ghost function SizeOf(items: map<Inode, ItemState>, i: Inode): nat {
    if i in items then items[i].meta.size else 0
  }

  ghost function ImageOf(files: map<Inode, Image>, i: Inode): Image {
    if i in files then files[i] else []
  }

  /** The file of inode `i` as LazyFS sees it, over the disk file `fd`. */
  ghost function ViewOf(items: map<Inode, ItemState>, es: EngineState, files: map<Inode, Image>, i: Inode, fd: Inode): View {
    View(SizeOf(items, i), ImageOf(files, fd), Cached(es, i))
  }

  /** Syncing inode `i` to file `fd` makes the disk file the logical file and every block clean. */
  ghost predicate SyncOutcome(v: View, fd: Inode, files: map<Inode, Image>, files': map<Inode, Image>, now: map<nat, CBlock>) {
    files' == files[fd := Logical(v)] && now == AllClean(v.blocks)
  }

  /* ---------------------------------------------------------------- clear */

  /** `gone` are the names erased so far, one for each inode whose item was dropped on its account. */
  ghost predicate NamesErased(items: map<Inode, ItemState>, mapping: map<Path, Inode>, mapping': map<Path, Inode>, gone: map<Inode, Path>) {
    && (forall i | i in gone :: i in items && gone[i] in mapping && mapping[gone[i]] == i)
    && (forall p :: p in mapping' <==> p in mapping && !(mapping[p] in gone && gone[mapping[p]] == p))
    && forall p | p in mapping' :: mapping'[p] == mapping[p]
  }

  /** Clearing erases exactly one name of each inode that has an item and a name the cache knows, and no
      other: the other names of those inodes stay, and so do the names of inodes without item. */
  ghost predicate OneNameGone(items: map<Inode, ItemState>, mapping: map<Path, Inode>, mapping': map<Path, Inode>) {
    exists gone: map<Inode, Path> ::
      && NamesErased(items, mapping, mapping', gone)
      && forall p | p in mapping && mapping[p] in items :: mapping[p] in gone
  }

  /** A name that is alone on its inode goes; of two names one stays. */
  lemma ErasedNames(items: map<Inode, ItemState>, mapping: map<Path, Inode>, mapping': map<Path, Inode>, p: Path)
    requires OneNameGone(items, mapping, mapping') && p in mapping && mapping[p] in items
    ensures (forall q | q in mapping && mapping[q] == mapping[p] :: q == p) ==> p !in mapping'
    ensures forall q | q in mapping && mapping[q] == mapping[p] && q != p :: p in mapping' || q in mapping'
  {
    var gone: map<Inode, Path> :| NamesErased(items, mapping, mapping', gone) && forall p | p in mapping && mapping[p] in items :: mapping[p] in gone;
    assert gone[mapping[p]] in mapping && mapping[gone[mapping[p]]] == mapping[p];
  }

  lemma EraseMore(items: map<Inode, ItemState>, mapping: map<Path, Inode>, now: map<Path, Inode>, gone: map<Inode, Path>, p: Path)
    requires NamesErased(items, mapping, now, gone) && p in mapping && mapping[p] in items && mapping[p] !in gone
    ensures NamesErased(items, mapping, now - {p}, gone[mapping[p] := p])
  {}

  /** With nothing cached every page is on the free list, once. */
  lemma AllFree(items: map<Inode, ItemState>, es: EngineState)
    requires EngineInv(es) && IndexAgrees(items, es) && items == map[]
    ensures NoDuplicates(es.free) && forall p: nat :: p in es.free <==> p < |es.pages|
  {
    forall p: nat | p < |es.pages| ensures p in es.free {
      if p !in es.free {
        assert Indexed(es.ordered, p);
        var o, b :| InIndex(es.ordered, o, b) && es.ordered[o][b].page == p;
        CachedIsIndexed(es, o, b);
        ItemAt(items, es, o);
        assert false;
      }
    }
  }

  lemma KeptHas(items: map<Inode, ItemState>, items': map<Inode, ItemState>, o: Inode)
    requires MetasKept(items, items', o)
    ensures o in items'
  {}

  /** A new item, once its metadata is set. */
  lemma Admitted(items: map<Inode, ItemState>, items1: map<Inode, ItemState>, items2: map<Inode, ItemState>, o: Inode)
    requires MetasKept(items, items1, o) && o !in items && items2.Keys == items1.Keys
    requires (forall j | j in items2 && j != o :: items2[j] == items1[j]) && items2[o].synced
    ensures items2.Keys == items.Keys + {o} && forall j | j in items :: items2[j].meta == items[j].meta
    ensures Flagged(items2) == Flagged(items)
  {}

  lemma MetaSame(items: map<Inode, ItemState>, o: Inode)
    requires o in items
    ensures MetasKept(items, items, o)
  {}

  lemma MetasTrans(a: map<Inode, ItemState>, b: map<Inode, ItemState>, c: map<Inode, ItemState>, o: Inode)
    requires o in a && MetasKept(a, b, o) && MetasKept(b, c, o)
    ensures MetasKept(a, c, o) && o in c && c[o].meta == a[o].meta
  {}

  lemma MetasSizes(items: map<Inode, ItemState>, items': map<Inode, ItemState>, o: Inode)
    requires MetasKept(items, items', o) && o in items
    ensures items'.Keys == items.Keys && forall i | i in items :: items'[i].meta == items[i].meta
  {}

  lemma SyncedBlocks(v: View, fd: Inode, files: map<Inode, Image>, files': map<Inode, Image>, now: map<nat, CBlock>)
    requires SyncOutcome(v, fd, files, files', now)
    ensures now == AllClean(v.blocks) && now.Keys == v.blocks.Keys && fd in files'
  {}
}
