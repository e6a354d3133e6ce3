/** The page-cache engine: owner indexes over a pool of pages, and the coalesced write-back. */
module Engine {
  import opened Posix
  import opened Overlay
  import opened Slots
  import opened Pages
  import opened Disks
  import opened EngineStates

  datatype Operation = OpRead | OpWrite | OpPassthrough

  class CustomCacheEngine {
    const disk: Disk
    const pages: seq<Page>
    var freePages: seq<nat>
    var ownerFreePages: map<Inode, seq<nat>>
    var ownerPages: map<Inode, set<nat>>
    var ownerOrderedPages: map<Inode, map<nat, Slot>>

    // What each page holds, and the objects the pages are made of.
    ghost var pageStates: seq<PageState>
    ghost const pageObjects: set<object>

    ghost function State(): EngineState
      reads this
    {
      EngineState(pageStates, freePages, ownerFreePages, ownerPages, ownerOrderedPages)
    }

    /** `pageStates` tells what the pool holds. */
    ghost predicate Wired()
      reads this`pageStates, pageObjects
    {
      Pooled(pages, pageStates, pageObjects) && this !in pageObjects && disk !in pageObjects
    }

    ghost predicate Valid()
      reads this, pageObjects
    {
      Wired() && EngineInv(State())
    }

    /** The resident blocks of an owner. */
    ghost function Blocks(o: Inode): map<nat, CBlock>
      reads this
    {
      Cached(State(), o)
    }

    constructor (disk: Disk, nrPages: nat)
      ensures Valid() && fresh(pageObjects) && this.disk == disk && |pages| == nrPages
      ensures freePages == seq(nrPages, i => i)
      ensures ownerOrderedPages == map[]
    {
      var pool: seq<Page> := [];
      ghost var objects: set<object> := {};
      for i := 0 to nrPages
        invariant |pool| == i
        invariant fresh(objects)
        invariant disk !in objects
        invariant forall p | 0 <= p < i ::
                    pool[p] in objects && pool[p].data in objects && pool[p].nrSlots == 1
                    && pool[p].Valid() && pool[p].State() == Blank(1, None)
        invariant forall p, q | 0 <= p < q < i :: pool[p] != pool[q] && pool[p].data != pool[q].data
      {
        var p := new Page(1);
        pool := pool + [p];
        objects := objects + {p, p.data};
      }
      this.disk := disk;
      pages := pool;
      pageObjects := objects;
      freePages := seq(nrPages, i => i);
      ownerFreePages, ownerPages, ownerOrderedPages := map[], map[], map[];
      pageStates := seq(nrPages, _ => Blank(1, None));
      new;
      assert Blank(1, None) == BlankPage() by { assert Start(1) == B; assert AllSlots(1) == [0]; }
      forall p: nat | p < nrPages ensures p in freePages { assert freePages[p] == p; }
    }

    predicate OwnsBlock(o: Inode, p: nat, b: nat)
      requires p < |pages|
      reads pages[p]
    {
      pages[p].owner == Some(o) && pages[p].ContainsBlock(b)
    }

    lemma PageView(p: nat)
      requires Wired() && p < |pageStates|
      ensures p < |pages| && pages[p].State() == pageStates[p]
    {
      PoolAt(pages, pageStates, pageObjects, p);
    }

    /* -------------------------------------------------------------- page primitives */

    method WritePage(p: nat, b: nat, bytes: Image, from: nat)
      requires Wired() && p < |pageStates| && b in pageStates[p].blocks.slots && from + |bytes| <= B
      modifies pageObjects, this`pageStates
      ensures Wired() && old(pageStates[p].blocks.slots[b]) + B <= |old(pageStates[p].data)|
      ensures pageStates == old(pageStates)[p := Written(old(pageStates[p]), b, bytes, from)]
    {
      var _ := pages[p].UpdateBlockData(b, bytes, from);
      pageStates := pageStates[p := pages[p].State()];
    }

    method TakeSlot(p: nat, b: nat)
      requires Wired() && p < |pageStates| && pageStates[p].free != [] && b !in pageStates[p].blocks.slots
      modifies pageObjects, this`pageStates
      ensures Wired() && pageStates == old(pageStates)[p := Allocated(old(pageStates[p]), b)]
    {
      var offset := pages[p].GetAllocateFreeOffset(b);
      pageStates := pageStates[p := pages[p].State()];
    }

    method RemoveFromPage(p: nat, b: nat)
      requires Wired() && p < |pageStates| && pageStates[p].blocks.slots == map[b := 0]
      modifies pageObjects, this`pageStates
      ensures Wired() && |pageStates| == |old(pageStates)| && !pageStates[p].dirty
      ensures pageStates == old(pageStates)[p := pageStates[p]]
    {
      pages[p].RemoveBlock(b);
      assert map[b := 0] - {b} == map[];
      pageStates := pageStates[p := pages[p].State()];
    }

    method OwnPage(p: nat, o: Inode)
      requires Wired() && p < |pageStates|
      modifies pageObjects, this`pageStates
      ensures Wired() && pageStates == old(pageStates)[p := old(pageStates[p]).(owner := Some(o))]
    {
      pages[p].ChangeOwner(Some(o));
      pageStates := pageStates[p := pages[p].State()];
    }

    method MarkPage(p: nat, dirty: bool)
      requires Wired() && p < |pageStates|
      modifies pageObjects, this`pageStates
      ensures Wired() && pageStates == old(pageStates)[p := old(pageStates[p]).(dirty := dirty)]
    {
      pages[p].SetPageAsDirty(dirty);
      pageStates := pageStates[p := pages[p].State()];
    }

    method BlankOut(p: nat)
      requires Wired() && p < |pageStates|
      modifies pageObjects, this`pageStates
      ensures Wired() && pageStates == old(pageStates)[p := BlankPage()]
    {
      pages[p].Reset();
      pages[p].ChangeOwner(None);
      pageStates := pageStates[p := pages[p].State()];
      assert Blank(1, None) == BlankPage() by { assert Start(1) == B; assert AllSlots(1) == [0]; }
    }

    /** Zeroes the block of the page from an index on and moves its readable end there. */
    method CutPage(p: nat, b: nat, index: nat)
      requires Wired() && p < |pageStates| && pageStates[p].blocks.slots == map[b := 0]
      requires b in pageStates[p].blocks.readable && |pageStates[p].data| == B && 0 < index <= B
      modifies pageObjects, this`pageStates
      ensures Wired()
      ensures var was := old(pageStates[p]);
              pageStates == old(pageStates)[p :=
                was.(data := Overwrite(was.data, index, Zeros(B - index)),
                     blocks := was.blocks.(readable := was.blocks.readable[b := index - 1]))]
    {
      pages[p].MakeBlockReadableTo(b, index - 1);
      pages[p].WriteNullFrom(b, index);
      pageStates := pageStates[p := pages[p].State()];
    }

    method SetReadable(p: nat, b: nat, to: int)
      requires Wired() && p < |pageStates| && b in pageStates[p].blocks.slots
      modifies pageObjects, this`pageStates
      ensures Wired()
      ensures var was := old(pageStates[p]);
              pageStates == old(pageStates)[p := was.(blocks := was.blocks.(readable := was.blocks.readable[b := to]))]
    {
      pages[p].MakeBlockReadableTo(b, to);
      pageStates := pageStates[p := pages[p].State()];
    }

    /** A blank page takes the block in its only slot. */
    method FillPage(p: nat, b: nat, bytes: Image, from: nat, operation: Operation)
      requires Wired() && p < |pageStates| && pageStates[p] == BlankPage() && from + |bytes| <= B
      modifies pageObjects, this`pageStates
      ensures Wired()
      ensures pageStates == old(pageStates)[p :=
                PageState(None, true, Overwrite(Zeros(B), from, bytes), [], BlockOffsets(map[b := 0], map[b := -1]))]
    {
      hide Pooled;
      TakeSlot(p, b);
      WritePage(p, b, bytes, from);
      if operation == OpWrite {
        MarkPage(p, true);
      }
    }

    /* -------------------------------------------------------------- allocation and lookup */

    /** The last page of the free list, or -1. Pages of the owner with room for another block come
        first in the source; with one block per page there are none. */
    method GetNextFreePage(o: Inode) returns (page: int)
      requires Valid()
      modifies this`freePages
      ensures old(freePages) == [] ==> page == -1 && freePages == []
      ensures old(freePages) != [] ==>
                page == old(freePages)[|old(freePages)| - 1] && freePages == old(freePages)[..|old(freePages)| - 1]
    {
      if o in ownerPages && ownerFreePages[o] != [] {
        assert false;
      }
      if freePages == [] {
        return -1;
      }
      page := freePages[|freePages| - 1];
      freePages := freePages[..|freePages| - 1];
    }

    method UpdateOwnerPages(o: Inode, p: nat, b: nat, offset: nat)
      requires Wired() && p < |pageStates| && pageStates[p].owner == None && pageStates[p].free == []
      requires ownerFreePages.Keys == ownerOrderedPages.Keys == ownerPages.Keys
      requires o in ownerFreePages ==> ownerFreePages[o] == [] && b !in ownerOrderedPages[o]
      modifies this`ownerFreePages, this`ownerPages, this`ownerOrderedPages, pageObjects, this`pageStates
      ensures Wired() && pageStates == old(pageStates)[p := old(pageStates[p]).(owner := Some(o))]
      ensures ownerFreePages == old(ownerFreePages)[o := []]
      ensures ownerPages == old(ownerPages)[o := (if o in old(ownerPages) then old(ownerPages)[o] else {}) + {p}]
      ensures ownerOrderedPages == old(ownerOrderedPages)[o := IndexOf(old(ownerOrderedPages), o)[b := Slot(p, offset, false)]]
    {
      hide Pooled;
      OwnPage(p, o);
      if o in ownerPages {
        ownerPages := ownerPages[o := ownerPages[o] + {p}];
        var index: map<nat, Slot> := ownerOrderedPages[o][b := Slot(p, offset, false)];
        ownerOrderedPages := ownerOrderedPages[o := index];
        assert ownerFreePages == ownerFreePages[o := []];
      } else {
        ownerPages := ownerPages[o := {p}];
        ownerFreePages := ownerFreePages[o := []];
        ownerOrderedPages := ownerOrderedPages[o := map[b := Slot(p, offset, false)]];
        assert {} + {p} == {p};
      }
      PoolAt(pages, pageStates, pageObjects, p);
      if pages[p].HasFreeSpace() {
        assert false;
      }
    }

    /** The caller's page holds the block: write it in place and mark the block unsynced. */
    method UpdateInPlace(o: Inode, b: nat, p: nat, bytes: Image, from: nat)
      requires Valid() && from + |bytes| <= B
      requires IsCached(State(), o, b) && p == ownerOrderedPages[o][b].page
      modifies this, pageObjects
      ensures Wired() && State() == Rewritten(old(State()), o, b, bytes, from)
    {
      hide EngineInv, Pooled, Cached;
      CachedIsIndexed(State(), o, b);
      WritePage(p, b, bytes, from);
      var index: map<nat, Slot> := ownerOrderedPages[o][b := ownerOrderedPages[o][b].(synced := false)];
      ownerOrderedPages := ownerOrderedPages[o := index];
    }

    /** The block takes page `p`, just popped off the free list. */
    method PlaceBlock(o: Inode, b: nat, p: nat, bytes: Image, from: nat, operation: Operation)
      requires Wired() && p < |pageStates| && pageStates[p] == BlankPage() && from + |bytes| <= B
      requires OwnersOk(ownerFreePages, ownerPages, ownerOrderedPages)
      requires !IsCached(State(), o, b)
      modifies this, pageObjects
      ensures Wired() && State() == Put(old(State()), o, b, p, NewPage(o, b, bytes, from), old(freePages))
    {
      FillPage(p, b, bytes, from, operation);
      UpdateOwnerPages(o, p, b, 0);
    }

    /** Writes a block: in place when the caller's page holds it, otherwise in a free page; -1 when
        there is none. */
    method AllocateBlock(o: Inode, b: nat, pageId: int, bytes: Image, from: nat, operation: Operation) returns (page: int)
      requires Valid() && from + |bytes| <= B
      requires if b in Blocks(o) then pageId == Blocks(o)[b].page else pageId < |pageStates|
      modifies this, pageObjects
      ensures Valid()
      ensures OthersKept(old(State()), State(), o)
      ensures b in old(Blocks(o)) ==>
                var was := old(Blocks(o))[b];
                && page == was.page && freePages == old(freePages) && |was.bytes| == B
                && Blocks(o) == old(Blocks(o))[b := CBlock(was.page, Overwrite(was.bytes, from, bytes), was.to, true)]
      ensures b !in old(Blocks(o)) && old(freePages) != [] ==>
                && page == old(freePages)[|old(freePages)| - 1] && freePages == old(freePages)[..|old(freePages)| - 1]
                && Blocks(o) == old(Blocks(o))[b := CBlock(page, Overwrite(Zeros(B), from, bytes), -1, true)]
      ensures b !in old(Blocks(o)) && old(freePages) == [] ==> page == -1 && State() == old(State())
    {
      hide EngineInv, Pooled, Cached;
      ghost var es := State();
      CachedIsIndexed(es, o, b);
      if pageId >= 0 {
        OwnedIsIndexed(es, o, b, pageId);
        PoolAt(pages, pageStates, pageObjects, pageId);
        if OwnsBlock(o, pageId, b) {
          RewriteStep(es, o, b, bytes, from);
          UpdateInPlace(o, b, pageId, bytes, from);
          return pageId;
        }
      }
      page := GetNextFreePage(o);
      if page >= 0 {
        LastFree(es);
        NewBlockStep(es, o, b, bytes, from);
        PlaceBlock(o, b, page, bytes, from, operation);
      }
    }

    method GetBlock(o: Inode, page: int, b: nat, buffer: array<Byte>, readToMax: nat) returns (found: bool)
      requires Valid() && page < |pageStates| && readToMax < B && readToMax < buffer.Length && buffer !in pageObjects
      modifies buffer
      ensures found <==> b in Blocks(o) && Blocks(o)[b].page == page
      ensures found ==> CopiedOut(Blocks(o), b, readToMax + 1, old(buffer[..]), buffer[..])
    {
      hide EngineInv, Pooled, Cached, SlotInv;
      CachedIsIndexed(State(), o, b);
      if page < 0 {
        return false;
      }
      OwnedIsIndexed(State(), o, b, page);
      PoolAt(pages, pageStates, pageObjects, page);
      if !OwnsBlock(o, page, b) {
        return false;
      }
      pages[page].GetBlockData(b, buffer, readToMax);
      return true;
    }

    method MakeBlockReadableToOffset(o: Inode, page: nat, b: nat, to: int)
      requires Valid() && b in Blocks(o) && Blocks(o)[b].page == page
      modifies this, pageObjects
      ensures Valid() && freePages == old(freePages)
      ensures Blocks(o) == old(Blocks(o))[b := old(Blocks(o))[b].(to := to)]
      ensures OthersKept(old(State()), State(), o)
    {
      hide EngineInv, Pooled, OthersKept, Cached;
      ghost var es := State();
      CachedIsIndexed(es, o, b);
      ReachStep(es, o, b, to);
      PoolAt(pages, pageStates, pageObjects, page);
      if pages[page].owner == Some(o) {
        SetReadable(page, b, to);
      }
      assert State() == Reached(es, o, b, to);
    }

    /* -------------------------------------------------------------- dropping blocks */

    /** Drops or cuts the blocks of `toRemove` at byte `index` of block `from`. */
    method TruncateCachedBlocks(o: Inode, toRemove: map<nat, nat>, from: nat, index: nat)
      requires Valid() && index < B
      requires forall b :: b in toRemove <==> b in Blocks(o) && from <= b
      requires forall b | b in toRemove :: toRemove[b] == Blocks(o)[b].page
      modifies this, pageObjects
      ensures Valid()
      ensures from in old(Blocks(o)) ==> |old(Blocks(o))[from].bytes| == B
      ensures Blocks(o) == CutBlocks(old(Blocks(o)), from, index) && BlocksCut(old(Blocks(o)), Blocks(o), from, index)
      ensures OthersKept(old(State()), State(), o)
    {
      hide EngineInv, Pooled, Cached;
      ghost var es := State();
      if from in Blocks(o) { CachedIsIndexed(es, o, from); }
      var todo := toRemove.Keys;
      ghost var done: set<nat> := {};
      while todo != {}
        invariant Valid() && OthersKept(es, State(), o)
        invariant done + todo == toRemove.Keys && done !! todo
        invariant Blocks(o) == CutOnly(Cached(es, o), done, from, index)
        decreases todo
      {
        var b :| b in todo;
        var p := toRemove[b];
        assert b in Blocks(o) && Blocks(o)[b] == Cached(es, o)[b];
        CachedIsIndexed(State(), o, b);
        TruncateOne(o, b, p, from, index);
        CutOnlyStep(Cached(es, o), done, b, from, index);
        todo, done := todo - {b}, done + {b};
      }
      assert done == toRemove.Keys;
      CutOnlyAll(Cached(es, o), done, from, index);
      CutExactly(Cached(es, o), from, index);
    }

    method TruncateOne(o: Inode, b: nat, p: nat, from: nat, index: nat)
      requires Valid() && index < B
      requires IsCached(State(), o, b) && p == ownerOrderedPages[o][b].page
      modifies this, pageObjects
      ensures Valid() && OthersKept(old(State()), State(), o)
      ensures b in old(Blocks(o)) && |old(Blocks(o))[b].bytes| == B
      ensures Blocks(o) == if b == from && index > 0
                           then old(Blocks(o))[b := Cut(old(Blocks(o))[b], index)] else old(Blocks(o)) - {b}
    {
      hide EngineInv, Pooled, Cached, OthersKept;
      ghost var es := State();
      CachedIsIndexed(es, o, b);
      KeysAgree(es);
      OwnedIsIndexed(es, o, b, p);
      PoolAt(pages, pageStates, pageObjects, p);
      if pages[p].owner == Some(o) {
        if b == from && index > 0 {
          CutAtStep(es, o, b, index);
          if pages[p].ContainsBlock(from) {
            CutPage(p, from, index);
          }
          assert State() == CutAt(es, o, b, index);
        } else {
          DropStep(es, o, b);
          FreeBlock(o, b, p);
          assert State() == Dropped(es, o, b);
        }
      }
    }

    method FreeBlock(o: Inode, b: nat, p: nat)
      requires Wired() && IsCached(State(), o, b) && p < |pageStates| && Holds(pageStates[p], o, b)
      requires o in ownerPages && p == ownerOrderedPages[o][b].page
      modifies this, pageObjects
      ensures Wired() && State() == Dropped(old(State()), o, b)
    {
      hide Pooled;
      RemoveFromPage(p, b);
      ownerPages := ownerPages[o := ownerPages[o] - {p}];
      var index: map<nat, Slot> := ownerOrderedPages[o] - {b};
      ownerOrderedPages := ownerOrderedPages[o := index];
      PoolAt(pages, pageStates, pageObjects, p);
      if !pages[p].isDirty {
        freePages := freePages + [p];
        BlankOut(p);
      }
    }

    /** Forgets the owner; its pages go back to the free list. */
    method RemoveCachedBlocks(o: Inode)
      requires Valid()
      modifies this, pageObjects
      ensures Valid() && Blocks(o) == map[] && OthersKept(old(State()), State(), o)
      ensures |old(freePages)| <= |freePages|
    {
      hide EngineInv, Pooled, Cached, OthersKept, FreeOk, SlotsOk, Accounted;
      ghost var es := State();
      KeysAgree(es);
      if o in ownerFreePages {
        ownerFreePages := ownerFreePages - {o};
      }
      if o in ownerPages {
        OwnPages(es, o);
        ghost var back := BlankAll(ownerPages[o]);
        ownerPages := ownerPages - {o};
        ownerOrderedPages := ownerOrderedPages - {o};
        ForgetStep(es, o, back);
        assert State() == EngineState(BlankPages(es.pages, es.ownerPages[o]), es.free + back,
                                      es.ownerFree - {o}, es.ownerPages - {o}, es.ordered - {o});
      } else {
        NotOwner(es, o);
        assert State() == es;
      }
    }

    /** Blanks the pages and pushes each on the free list once, in some order. */
    method BlankAll(ps: set<nat>) returns (ghost back: seq<nat>)
      requires Wired() && forall p | p in ps :: p < |pageStates|
      modifies this`freePages, this`pageStates, pageObjects
      ensures Wired() && pageStates == BlankPages(old(pageStates), ps)
      ensures NoDuplicates(back) && Elements(back) == ps && freePages == old(freePages) + back
    {
      hide Pooled;
      var todo := ps;
      back := [];
      while todo != {}
        invariant Wired() && todo <= ps && |pageStates| == |old(pageStates)|
        invariant Elements(back) == ps - todo && NoDuplicates(back)
        invariant freePages == old(freePages) + back
        invariant pageStates == BlankPages(old(pageStates), ps - todo)
        decreases todo
      {
        var p :| p in todo;
        freePages := freePages + [p];
        BlankOut(p);
        assert p !in Elements(back);
        assert Elements(back + [p]) == Elements(back) + {p};
        assert ps - (todo - {p}) == (ps - todo) + {p};
        todo := todo - {p};
        back := back + [p];
      }
      assert ps - todo == ps;
    }

    /* -------------------------------------------------------------- write-back */

    /** The owner's dirty blocks in ascending order; their pages are marked clean. */
    method CollectDirty(o: Inode) returns (dirty: seq<nat>)
      requires Valid() && o in ownerOrderedPages
      modifies this`pageStates, pageObjects
      ensures Wired() && o in ownerPages && pageStates == CleanPages(old(pageStates), ownerPages[o])
      ensures Ascending(dirty)
      ensures forall b :: b in dirty <==> b in old(Blocks(o)) && old(Blocks(o))[b].dirty
    {
      hide EngineInv, Pooled, Cached, CleanPages, PagesAt, DirtyAmong;
      ghost var es := State();
      KeysAgree(es);
      OwnPages(es, o);
      CleanNone(es.pages, ownerOrderedPages[o]);
      var index := ownerOrderedPages[o];
      var keys := Sorted(index.Keys);
      dirty := [];
      assert DirtyAmong(dirty, keys[..0], Cached(es, o)) by { NoneDirty(keys, Cached(es, o)); }
      for i := 0 to |keys|
        invariant Wired() && |pageStates| == |es.pages|
        invariant pageStates == CleanPages(es.pages, PagesAt(index, keys[..i]))
        invariant DirtyAmong(dirty, keys[..i], Cached(es, o))
      {
        var b := keys[i];
        var p := index[b].page;
        CollectOne(es, o, index, keys, i);
        DirtyMore(dirty, keys, i, Cached(es, o));
        CleanMore(es.pages, PagesAt(index, keys[..i]), p);
        PoolAt(pages, pageStates, pageObjects, p);
        if pages[p].isDirty {
          dirty := dirty + [b];
          MarkPage(p, false);
        }
      }
      assert keys[..|keys|] == keys;
      DirtyAll(es, o, dirty, keys);
    }

    /** The block's bytes, whole or up to the readable end. */
    method OneVector(entry: Slot, b: nat, whole: bool, ghost index: map<nat, Slot>, ghost blocks: map<nat, CBlock>) returns (v: Image)
      requires Wired() && Carried(pageStates, index, blocks, b) && |blocks[b].bytes| == B && 0 <= blocks[b].to < B
      requires entry.page == index[b].page && entry.offset == index[b].offset
      ensures v == if whole then blocks[b].bytes else blocks[b].bytes[..blocks[b].to + 1]
    {
      PoolAt(pages, pageStates, pageObjects, entry.page);
      hide Pooled;
      var page := pages[entry.page];
      var len := if whole then B else page.allocatedBlocks.readable[b] + 1;
      v := page.data[entry.offset..entry.offset + len];
    }

    /** The vectors of one pwritev: `chunk` holds the entries of consecutive blocks ending at
        `current`. Each block is marked synced as its vector is filled in. */
    method BuildVectors(o: Inode, chunk: seq<Slot>, current: nat, ghost lo: nat, ghost blocks: map<nat, CBlock>) returns (iov: seq<Image>)
      requires Wired() && o in ownerOrderedPages && current + 1 == lo + |chunk|
      requires forall k | 0 <= k < |chunk| :: ReadyAt(pageStates, ownerOrderedPages[o], blocks, chunk, lo, k)
      requires Resident(blocks, lo, |chunk|)
      modifies this`ownerOrderedPages
      ensures iov == Vectors(blocks, lo, |chunk|)
      ensures ownerOrderedPages == old(ownerOrderedPages)[o := SyncedRun(old(ownerOrderedPages)[o], lo, |chunk|)]
    {
      hide Pooled, SyncedRun, Carried;
      ghost var index := ownerOrderedPages[o];
      ghost var want := Vectors(blocks, lo, |chunk|);
      iov := [];
      SyncedRunBase(index, lo);
      for id := 0 to |chunk|
        invariant o in ownerOrderedPages && ownerOrderedPages == old(ownerOrderedPages)[o := SyncedRun(index, lo, id)]
        invariant iov == want[..id]
      {
        var b := current - |chunk| + id + 1;
        assert ReadyAt(pageStates, index, blocks, chunk, lo, id) && b == lo + id;
        SyncedRunStep(index, lo, id);
        var v := OneVector(chunk[id], b, id != |chunk| - 1, index, blocks);
        iov := iov + [v];
        var entries: map<nat, Slot> := ownerOrderedPages[o][b := ownerOrderedPages[o][b].(synced := true)];
        ownerOrderedPages := ownerOrderedPages[o := entries];
      }
    }

    /** One pwritev: the run `dirty[from..from + |chunk|]`, whose entries are `chunk`. */
    method FlushRun(o: Inode, ghost dirty: seq<nat>, ghost from: nat, chunk: seq<Slot>, current: nat, ino: Inode,
                    ghost size: nat, ghost blocks: map<nat, CBlock>, ghost index: map<nat, Slot>)
      requires Wired() && o in ownerOrderedPages && Ascending(dirty)
      requires 0 < |chunk| <= IOV_MAX && ChunkOf(index, dirty, from, chunk) && current == dirty[from + |chunk| - 1]
      requires forall b | b in dirty :: Carried(pageStates, index, blocks, b)
      requires ownerOrderedPages[o] == SyncedIn(index, dirty[..from])
      requires ino in disk.files && Inv(View(size, disk.files[ino], CleanIn(blocks, dirty[..from])))
      modifies this`ownerOrderedPages, disk`files
      ensures ownerOrderedPages == old(ownerOrderedPages)[o := SyncedIn(index, dirty[..from + |chunk|])]
      ensures ino in disk.files && disk.files == old(disk.files)[ino := disk.files[ino]]
      ensures var v := View(size, disk.files[ino], CleanIn(blocks, dirty[..from + |chunk|]));
              Inv(v) && Logical(v) == Logical(View(size, old(disk.files[ino]), CleanIn(blocks, dirty[..from])))
    {
      hide Pooled, Inv, Logical, Vectors, Pwritev, Carried, SyncedIn, SyncedRun, CleanIn;
      RunReady(pageStates, index, blocks, dirty, from, chunk);
      BatchStep(size, disk.files[ino], blocks, dirty, from, |chunk|);
      SyncedStep(index, dirty, from, |chunk|);
      var iov := BuildVectors(o, chunk, current, dirty[from], blocks);
      disk.GatherAt(ino, iov, Start(current - |chunk| + 1));
    }

    /** Writes the dirty blocks back, one pwritev for each run of consecutive blocks of at most
        IOV_MAX vectors. */
    method FlushDirty(o: Inode, dirty: seq<nat>, ino: Inode, ghost size: nat, ghost blocks: map<nat, CBlock>)
      returns (ghost batches: seq<nat>)
      requires Wired() && o in ownerOrderedPages && Ascending(dirty)
      requires forall b | b in dirty :: Carried(pageStates, ownerOrderedPages[o], blocks, b)
      requires ino in disk.files && Inv(View(size, disk.files[ino], blocks))
      modifies this`ownerOrderedPages, disk`files
      ensures ownerOrderedPages == old(ownerOrderedPages)[o := SyncedIn(old(ownerOrderedPages)[o], dirty)]
      ensures ino in disk.files && disk.files == old(disk.files)[ino := disk.files[ino]]
      ensures var v := View(size, disk.files[ino], CleanIn(blocks, dirty));
              Inv(v) && Logical(v) == Logical(View(size, old(disk.files[ino]), blocks))
      ensures Batched(batches, dirty, |dirty|)
    {
      hide Pooled, Inv, Logical, Carried, ChunkOf, SyncedIn, CleanIn, Consecutive, Ascending;
      var index := ownerOrderedPages[o];
      ghost var first := disk.files[ino];
      batches := [];
      var chunk: seq<Slot> := [];
      ghost var from: nat := 0;
      FlushNone(index, blocks);
      NoChunk(index, dirty, 0);
      for it := 0 to |dirty|
        invariant from + |chunk| == it && |chunk| < IOV_MAX && (it == |dirty| ==> chunk == [])
        invariant ChunkOf(index, dirty, from, chunk)
        invariant chunk != [] ==> dirty[it] == dirty[it - 1] + 1
        invariant o in ownerOrderedPages && ownerOrderedPages == old(ownerOrderedPages)[o := SyncedIn(index, dirty[..from])]
        invariant ino in disk.files && disk.files == old(disk.files)[ino := disk.files[ino]]
        invariant Inv(View(size, disk.files[ino], CleanIn(blocks, dirty[..from])))
        invariant Logical(View(size, disk.files[ino], CleanIn(blocks, dirty[..from]))) == Logical(View(size, first, blocks))
        invariant Batched(batches, dirty, from)
      {
        var current := dirty[it];
        assert current in dirty;
        CarriedSynced(pageStates, index, blocks, current, []);
        ChunkGrows(index, dirty, from, chunk);
        var accumulate := |chunk| < IOV_MAX - 1 && it != |dirty| - 1 && current + 1 == dirty[it + 1];
        chunk := chunk + [index[current]];
        if !accumulate {
          ghost var n := |chunk|;
          FlushRun(o, dirty, from, chunk, current, ino, size, blocks, index);
          BatchedStep(batches, index, dirty, from, chunk);
          batches, from, chunk := batches + [n], from + n, [];
          NoChunk(index, dirty, from);
        }
      }
      assert dirty[..|dirty|] == dirty;
    }

    /** Writes the owner's dirty blocks to `fd` in coalesced batches. */
    method FlushOwner(o: Inode, fd: Inode, ghost size: nat) returns (ghost dirty: seq<nat>, ghost batches: seq<nat>)
      requires Valid() && o in ownerPages
      requires fd in disk.files && Inv(View(size, disk.files[fd], Blocks(o)))
      modifies this, pageObjects, disk`files
      ensures Valid() && freePages == old(freePages)
      ensures Blocks(o) == AllClean(old(Blocks(o))) && OthersKept(old(State()), State(), o)
      ensures fd in disk.files && disk.files == old(disk.files)[fd := disk.files[fd]]
      ensures var v := View(size, disk.files[fd], AllClean(old(Blocks(o))));
              Inv(v) && Logical(v) == Logical(View(size, old(disk.files[fd]), old(Blocks(o))))
      ensures Ascending(dirty) && Batched(batches, dirty, |dirty|)
      ensures forall b :: b in dirty <==> b in old(Blocks(o)) && old(Blocks(o))[b].dirty
    {
      hide EngineInv, Pooled, Cached, OthersKept, Carried, SyncedIn, CleanIn, Inv, Logical, AllClean, AllSynced, Batched, Ascending;
      ghost var es := State();
      ghost var blocks := Blocks(o);
      KeysAgree(es);
      var list := CollectDirty(o);
      forall b | b in list ensures Carried(pageStates, ownerOrderedPages[o], blocks, b) { DirtyCarried(es, o, b); }
      batches := FlushDirty(o, list, fd, size, blocks);
      dirty := list;
      AllFlushed(es, o, list);
      CleanStep(es, o);
      assert State() == es.(pages := CleanPages(es.pages, es.ownerPages[o]), ordered := es.ordered[o := AllSynced(es.ordered[o])]);
    }

    /** Writes the owner's dirty blocks to the file at `path` and cuts the file at `size`: the
        file on disk becomes what readers see, and nothing of the owner is dirty any more. */
    method SyncPages(o: Inode, size: nat, path: Path) returns (ghost dirty: seq<nat>, ghost batches: seq<nat>)
      requires Valid() && disk.Valid() && path in disk.names
      requires Inv(View(size, disk.files[disk.names[path]], Blocks(o)))
      modifies this, pageObjects, disk`files
      ensures Valid() && disk.Valid()
      ensures disk.files == old(disk.files)[disk.names[path] := Logical(View(size, old(disk.files[disk.names[path]]), old(Blocks(o))))]
      ensures Blocks(o) == AllClean(old(Blocks(o))) && OthersKept(old(State()), State(), o)
      ensures freePages == old(freePages)
      ensures Ascending(dirty) && Batched(batches, dirty, |dirty|)
      ensures forall b :: b in dirty <==> b in old(Blocks(o)) && old(Blocks(o))[b].dirty
      ensures disk.files[disk.names[path]] == Ftruncate(Blockwise(old(disk.files[disk.names[path]]), old(Blocks(o)), dirty), size)
    {
      hide EngineInv, Pooled, Cached, OthersKept, Inv, Logical, AllClean, Batched, Ascending, Blockwise;
      ghost var blocks := Blocks(o);
      var fd := disk.names[path];
      ghost var first := disk.files[fd];
      if o in ownerPages {
        dirty, batches := FlushOwner(o, fd, size);
      } else {
        NothingCached(State(), o);
        dirty, batches := [], [];
        NothingDirty(blocks);
      }
      SyncEnd(size, disk.files[fd], blocks);
      BlockwiseIsLogical(View(size, first, blocks), dirty);
      disk.Truncate(fd, size);
    }

    /** The blocks a crash would lose: for each, its id, readable end and page, in block order. */
    method GetDirtyBlocksInfo(o: Inode) returns (res: seq<(nat, int, nat)>)
      requires Valid()
      ensures res == DirtyInfo(Blocks(o), Sorted(Blocks(o).Keys))
    {
      hide EngineInv, Pooled, Cached, Ascending, DirtyInfo;
      ghost var es := State();
      forall b ensures b in Blocks(o) <==> IsCached(es, o, b) { CachedIsIndexed(es, o, b); }
      DirtyInfoNone(Blocks(o));
      res := [];
      if o in ownerOrderedPages {
        var index := ownerOrderedPages[o];
        assert index.Keys == Blocks(o).Keys;
        var keys := Sorted(index.Keys);
        for i := 0 to |keys|
          invariant res == DirtyInfo(Blocks(o), keys[..i])
        {
          var b := keys[i];
          CachedIsIndexed(es, o, b);
          DirtyInfoStep(Blocks(o), keys, i);
          var p := index[b].page;
          PoolAt(pages, pageStates, pageObjects, p);
          if !index[b].synced {
            res := res + [(b, pages[p].allocatedBlocks.readable[b], p)];
          }
        }
        assert keys[..|keys|] == keys;
      } else {
        assert Blocks(o).Keys == {};
      }
    }
  }
}
