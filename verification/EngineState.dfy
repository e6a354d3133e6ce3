/** The state of the page-cache engine and what every step keeps: one block per page, no eviction. */
module EngineStates {
  import opened Posix
  import opened Overlay
  import opened Slots

  /** An entry of an owner's ordered index: the page, the block's offset inside it, the synced flag. */
  datatype Slot = Slot(page: nat, offset: nat, synced: bool)

  datatype EngineState = EngineState(
    pages: seq<PageState>,
    free: seq<nat>,
    ownerFree: map<Inode, seq<nat>>,
    ownerPages: map<Inode, set<nat>>,
    ordered: map<Inode, map<nat, Slot>>)

  ghost function PagesOf(index: map<nat, Slot>): set<nat> {
    set b | b in index :: index[b].page
  }

  /** A page straight from the free list. */
  ghost function BlankPage(): PageState {
    PageState(None, false, Zeros(B), [0], BlockOffsets(map[], map[]))
  }

  /** The page holds exactly block `b` of owner `o`. */
  ghost predicate Holds(p: PageState, o: Inode, b: nat) {
    && p.owner == Some(o)
    && |p.data| == B
    && p.free == []
    && p.blocks.slots == map[b := 0]
    && p.blocks.readable.Keys == {b}
  }

  ghost predicate SlotOk(pages: seq<PageState>, o: Inode, b: nat, s: Slot) {
    s.page < |pages| && s.offset == 0 && Holds(pages[s.page], o, b) && s.synced == !pages[s.page].dirty
  }

  ghost predicate InIndex(ordered: map<Inode, map<nat, Slot>>, o: Inode, b: nat) {
    o in ordered && b in ordered[o]
  }

  /** Pages of the free list occur once in it and are blank. */
  ghost predicate FreeOk(pages: seq<PageState>, free: seq<nat>) {
    && NoDuplicates(free)
    && forall k | 0 <= k < |free| :: free[k] < |pages| && pages[free[k]] == BlankPage()
  }

  /** Each indexed block is alone in its page, which its owner owns; synced means clean. */
  ghost predicate SlotsOk(pages: seq<PageState>, ordered: map<Inode, map<nat, Slot>>) {
    forall o, b | InIndex(ordered, o, b) :: SlotOk(pages, o, b, ordered[o][b])
  }

  ghost predicate Indexed(ordered: map<Inode, map<nat, Slot>>, p: nat) {
    exists o, b :: InIndex(ordered, o, b) && ordered[o][b].page == p
  }

  /** Every page is free or indexed. */
  ghost predicate Accounted(n: nat, free: seq<nat>, ordered: map<Inode, map<nat, Slot>>) {
    forall p: nat | p < n :: p in free || Indexed(ordered, p)
  }

  /** The three owner indexes agree; no page has room for a second block. */
  ghost predicate OwnersOk(ownerFree: map<Inode, seq<nat>>, ownerPages: map<Inode, set<nat>>,
                           ordered: map<Inode, map<nat, Slot>>) {
    && ownerFree.Keys == ordered.Keys
    && ownerPages.Keys == ordered.Keys
    && forall o | o in ordered :: ownerFree[o] == [] && ownerPages[o] == PagesOf(ordered[o])
  }

  ghost predicate EngineInv(es: EngineState) {
    && FreeOk(es.pages, es.free)
    && OwnersOk(es.ownerFree, es.ownerPages, es.ordered)
    && SlotsOk(es.pages, es.ordered)
    && Accounted(|es.pages|, es.free, es.ordered)
  }

  ghost predicate IsCached(es: EngineState, o: Inode, b: nat) {
    InIndex(es.ordered, o, b)
  }

  ghost function IndexOf(ordered: map<Inode, map<nat, Slot>>, o: Inode): map<nat, Slot> {
    if o in ordered then ordered[o] else map[]
  }

  ghost function BlockIn(p: PageState, page: nat, b: nat): CBlock {
    CBlock(page, p.data, if b in p.blocks.readable then p.blocks.readable[b] else -1, p.dirty)
  }

  ghost function BlocksOf(pages: seq<PageState>, index: map<nat, Slot>): map<nat, CBlock> {
    map b | b in index && index[b].page < |pages| :: BlockIn(pages[index[b].page], index[b].page, b)
  }

  /** The blocks the engine holds for an owner. */
  ghost function Cached(es: EngineState, o: Inode): map<nat, CBlock> {
    BlocksOf(es.pages, IndexOf(es.ordered, o))
  }

  lemma CachedIsIndexed(es: EngineState, o: Inode, b: nat)
    requires EngineInv(es)
    ensures b in Cached(es, o) <==> IsCached(es, o, b)
    ensures IsCached(es, o, b) ==>
              var s := es.ordered[o][b];
              SlotOk(es.pages, o, b, s) && Cached(es, o)[b] == BlockIn(es.pages[s.page], s.page, b)
  {
    if IsCached(es, o, b) { assert SlotOk(es.pages, o, b, es.ordered[o][b]); }
  }

  /** Only owner `o` may see a difference between two engine states. */
  ghost predicate OthersKept(es: EngineState, es': EngineState, o: Inode) {
    forall i | i != o :: Cached(es', i) == Cached(es, i)
  }

  /* ---------------------------------------------------------------- consequences of the invariant */

  /** No page is held twice, and no held page is free. */
  lemma PagesExclusive(es: EngineState, o: Inode, b: nat, i: Inode, c: nat)
    requires FreeOk(es.pages, es.free) && SlotsOk(es.pages, es.ordered)
    requires IsCached(es, o, b) && IsCached(es, i, c)
    ensures es.ordered[o][b].page !in es.free
    ensures es.ordered[o][b].page == es.ordered[i][c].page ==> o == i && b == c
  {
    var p, q := es.ordered[o][b].page, es.ordered[i][c].page;
    assert SlotOk(es.pages, o, b, es.ordered[o][b]);
    assert SlotOk(es.pages, i, c, es.ordered[i][c]);
    if p == q {
      assert b in es.pages[p].blocks.slots && c in es.pages[p].blocks.slots;
    }
  }

  /** A block is reported unsynced exactly when its page is dirty. */
  lemma UnsyncedIffDirty(es: EngineState, o: Inode, b: nat)
    requires EngineInv(es) && IsCached(es, o, b)
    ensures b in Cached(es, o) && (!es.ordered[o][b].synced <==> Cached(es, o)[b].dirty)
  {
    CachedIsIndexed(es, o, b);
  }

  /* ---------------------------------------------------------------- replacing one page and its entry */

  /** No other block than `b` of `o` sits in page `p`. */
  ghost predicate Apart(ordered: map<Inode, map<nat, Slot>>, p: nat, o: Inode, b: nat) {
    forall i, c | InIndex(ordered, i, c) && (i != o || c != b) :: ordered[i][c].page != p
  }

  lemma HeldApart(es: EngineState, o: Inode, b: nat)
    requires FreeOk(es.pages, es.free) && SlotsOk(es.pages, es.ordered) && IsCached(es, o, b)
    ensures Apart(es.ordered, es.ordered[o][b].page, o, b)
  {
    forall i, c | InIndex(es.ordered, i, c) && (i != o || c != b) ensures es.ordered[i][c].page != es.ordered[o][b].page {
      PagesExclusive(es, o, b, i, c);
    }
  }

  lemma FreeApart(es: EngineState, p: nat, o: Inode, b: nat)
    requires FreeOk(es.pages, es.free) && SlotsOk(es.pages, es.ordered) && p in es.free
    ensures Apart(es.ordered, p, o, b)
  {
    forall i, c | InIndex(es.ordered, i, c) && (i != o || c != b) ensures es.ordered[i][c].page != p {
      PagesExclusive(es, i, c, i, c);
    }
  }

  lemma PutSlots(pages: seq<PageState>, ordered: map<Inode, map<nat, Slot>>, o: Inode, b: nat, p: nat, page: PageState)
    requires SlotsOk(pages, ordered) && Apart(ordered, p, o, b)
    requires p < |pages| && Holds(page, o, b)
    ensures SlotsOk(pages[p := page], ordered[o := IndexOf(ordered, o)[b := Slot(p, 0, !page.dirty)]])
  {
    var pages', ordered' := pages[p := page], ordered[o := IndexOf(ordered, o)[b := Slot(p, 0, !page.dirty)]];
    forall i, c | InIndex(ordered', i, c) ensures SlotOk(pages', i, c, ordered'[i][c]) {
      if i != o || c != b {
        assert InIndex(ordered, i, c) && ordered'[i][c] == ordered[i][c];
        assert SlotOk(pages, i, c, ordered[i][c]);
      }
    }
  }

  lemma DropSlots(pages: seq<PageState>, ordered: map<Inode, map<nat, Slot>>, o: Inode, b: nat, p: nat, page: PageState)
    requires SlotsOk(pages, ordered) && Apart(ordered, p, o, b)
    requires p < |pages| && o in ordered
    ensures SlotsOk(pages[p := page], ordered[o := ordered[o] - {b}])
  {
    var pages', ordered' := pages[p := page], ordered[o := ordered[o] - {b}];
    forall i, c | InIndex(ordered', i, c) ensures SlotOk(pages', i, c, ordered'[i][c]) {
      assert InIndex(ordered, i, c) && ordered'[i][c] == ordered[i][c];
      assert SlotOk(pages, i, c, ordered[i][c]);
    }
  }

  lemma PutOwners(ownerFree: map<Inode, seq<nat>>, ownerPages: map<Inode, set<nat>>, ordered: map<Inode, map<nat, Slot>>,
                  o: Inode, b: nat, s: Slot)
    requires OwnersOk(ownerFree, ownerPages, ordered)
    requires InIndex(ordered, o, b) ==> ordered[o][b].page == s.page
    ensures OwnersOk(ownerFree[o := []],
                     ownerPages[o := (if o in ownerPages then ownerPages[o] else {}) + {s.page}],
                     ordered[o := IndexOf(ordered, o)[b := s]])
  {
    var index := IndexOf(ordered, o);
    var index' := index[b := s];
    assert PagesOf(index') == PagesOf(index) + {s.page} by {
      assert index'[b].page == s.page;
      forall q | q in PagesOf(index) ensures q in PagesOf(index') {
        var c :| c in index && index[c].page == q;
        assert c in index' && index'[c].page == q;
      }
    }
  }

  lemma DropOwners(ownerFree: map<Inode, seq<nat>>, ownerPages: map<Inode, set<nat>>, ordered: map<Inode, map<nat, Slot>>,
                   o: Inode, b: nat)
    requires OwnersOk(ownerFree, ownerPages, ordered)
    requires InIndex(ordered, o, b) && Apart(ordered, ordered[o][b].page, o, b)
    ensures OwnersOk(ownerFree, ownerPages[o := ownerPages[o] - {ordered[o][b].page}], ordered[o := ordered[o] - {b}])
  {
    var index := ordered[o];
    var index', p := index - {b}, index[b].page;
    assert PagesOf(index') == PagesOf(index) - {p} by {
      forall c | c in index' ensures index'[c].page != p {
        assert InIndex(ordered, o, c);
      }
      forall q | q in PagesOf(index) - {p} ensures q in PagesOf(index') {
        var c :| c in index && index[c].page == q;
        assert c in index' && index'[c].page == q;
      }
    }
  }

  /** `o` sees block `b` in page `p`; nobody else sees a change. */
  lemma PutSeen(pages: seq<PageState>, ordered: map<Inode, map<nat, Slot>>, o: Inode, b: nat, p: nat, page: PageState, i: Inode)
    requires SlotsOk(pages, ordered) && Apart(ordered, p, o, b) && p < |pages|
    ensures var ordered' := ordered[o := IndexOf(ordered, o)[b := Slot(p, 0, !page.dirty)]];
            BlocksOf(pages[p := page], IndexOf(ordered', i)) ==
            if i == o then BlocksOf(pages, IndexOf(ordered, o))[b := BlockIn(page, p, b)] else BlocksOf(pages, IndexOf(ordered, i))
  {
    forall c | c in IndexOf(ordered, i) && (i != o || c != b) ensures ordered[i][c].page != p && ordered[i][c].page < |pages| {
      assert InIndex(ordered, i, c);
      assert SlotOk(pages, i, c, ordered[i][c]);
    }
  }

  lemma DropSeen(pages: seq<PageState>, ordered: map<Inode, map<nat, Slot>>, o: Inode, b: nat, p: nat, page: PageState, i: Inode)
    requires SlotsOk(pages, ordered) && Apart(ordered, p, o, b) && p < |pages| && o in ordered
    ensures var ordered' := ordered[o := ordered[o] - {b}];
            BlocksOf(pages[p := page], IndexOf(ordered', i)) ==
            if i == o then BlocksOf(pages, ordered[o]) - {b} else BlocksOf(pages, IndexOf(ordered, i))
  {
    forall c | c in IndexOf(ordered, i) && (i != o || c != b) ensures ordered[i][c].page != p && ordered[i][c].page < |pages| {
      assert InIndex(ordered, i, c);
      assert SlotOk(pages, i, c, ordered[i][c]);
    }
  }

  /* ---------------------------------------------------------------- engine steps */

  ghost function OwnedPages(es: EngineState, o: Inode): set<nat> {
    if o in es.ownerPages then es.ownerPages[o] else {}
  }

  /** Page `p` carries block `b` of `o` from now on. */
  ghost function Put(es: EngineState, o: Inode, b: nat, p: nat, page: PageState, free: seq<nat>): EngineState
    requires p < |es.pages|
  {
    EngineState(es.pages[p := page], free, es.ownerFree[o := []],
                es.ownerPages[o := OwnedPages(es, o) + {p}],
                es.ordered[o := IndexOf(es.ordered, o)[b := Slot(p, 0, !page.dirty)]])
  }

  ghost predicate SeenAs(es: EngineState, es': EngineState, o: Inode, blocks: map<nat, CBlock>) {
    Cached(es', o) == blocks && OthersKept(es, es', o)
  }

  lemma PutSeenAs(es: EngineState, o: Inode, b: nat, p: nat, page: PageState, free: seq<nat>)
    requires SlotsOk(es.pages, es.ordered) && Apart(es.ordered, p, o, b) && p < |es.pages|
    ensures SeenAs(es, Put(es, o, b, p, page, free), o, Cached(es, o)[b := BlockIn(page, p, b)])
  {
    var es' := Put(es, o, b, p, page, free);
    forall i ensures Cached(es', i) == if i == o then Cached(es, o)[b := BlockIn(page, p, b)] else Cached(es, i) {
      PutSeen(es.pages, es.ordered, o, b, p, page, i);
    }
  }

  lemma PutAccounted(n: nat, free: seq<nat>, ordered: map<Inode, map<nat, Slot>>, o: Inode, b: nat, s: Slot, free': seq<nat>)
    requires Accounted(n, free, ordered)
    requires InIndex(ordered, o, b) ==> ordered[o][b].page == s.page
    requires forall q | q in free :: q in free' || q == s.page
    ensures Accounted(n, free', ordered[o := IndexOf(ordered, o)[b := s]])
  {
    var ordered' := ordered[o := IndexOf(ordered, o)[b := s]];
    assert InIndex(ordered', o, b) && ordered'[o][b] == s;
    forall q: nat | q < n ensures q in free' || Indexed(ordered', q) {
      if q !in free {
        var i, c :| InIndex(ordered, i, c) && ordered[i][c].page == q;
        assert InIndex(ordered', i, c) && ordered'[i][c].page == q;
      }
    }
  }

  lemma FreeTaken(pages: seq<PageState>, free: seq<nat>, page: PageState)
    requires FreeOk(pages, free) && free != []
    ensures free[|free| - 1] < |pages|
    ensures FreeOk(pages[free[|free| - 1] := page], free[..|free| - 1])
    ensures forall q | q in free :: q in free[..|free| - 1] || q == free[|free| - 1]
  {
    forall q | q in free && q != free[|free| - 1] ensures q in free[..|free| - 1] {
      var k :| 0 <= k < |free| && free[k] == q;
      assert free[..|free| - 1][k] == q;
    }
  }

  /** Putting a new block in the last free page. */
  lemma FillStep(es: EngineState, o: Inode, b: nat, page: PageState)
    requires EngineInv(es) && es.free != [] && !IsCached(es, o, b) && Holds(page, o, b)
    ensures var last := |es.free| - 1;
            && es.free[last] < |es.pages|
            && var es' := Put(es, o, b, es.free[last], page, es.free[..last]);
            EngineInv(es') && SeenAs(es, es', o, Cached(es, o)[b := BlockIn(page, es.free[last], b)])
  {
    var last := |es.free| - 1;
    var p, free' := es.free[last], es.free[..last];
    var s := Slot(p, 0, !page.dirty);
    assert p in es.free;
    FreeApart(es, p, o, b);
    FreeTaken(es.pages, es.free, page);
    PutSlots(es.pages, es.ordered, o, b, p, page);
    PutOwners(es.ownerFree, es.ownerPages, es.ordered, o, b, s);
    PutAccounted(|es.pages|, es.free, es.ordered, o, b, s, free');
    PutSeenAs(es, o, b, p, page, free');
  }

  lemma FreeUntouched(pages: seq<PageState>, free: seq<nat>, p: nat, page: PageState)
    requires FreeOk(pages, free) && p < |pages| && p !in free
    ensures FreeOk(pages[p := page], free)
  {
    assert forall k | 0 <= k < |free| :: free[k] in free;
  }

  /** Changing the content of the page of a resident block. */
  lemma ChangeStep(es: EngineState, o: Inode, b: nat, page: PageState)
    requires EngineInv(es) && IsCached(es, o, b) && Holds(page, o, b)
    ensures var s := es.ordered[o][b];
            && s.page < |es.pages|
            && var es' := es.(pages := es.pages[s.page := page],
                              ordered := es.ordered[o := IndexOf(es.ordered, o)[b := s.(synced := !page.dirty)]]);
            EngineInv(es') && SeenAs(es, es', o, Cached(es, o)[b := BlockIn(page, s.page, b)])
  {
    hide SlotsOk, FreeOk, Accounted, OwnersOk, PagesOf, Holds, Cached, SeenAs, BlockIn, Apart;
    var s := es.ordered[o][b];
    HeldFacts(es, o, b);
    var s' := Slot(s.page, 0, !page.dirty);
    HeldApart(es, o, b);
    PagesExclusive(es, o, b, o, b);
    FreeUntouched(es.pages, es.free, s.page, page);
    PutSlots(es.pages, es.ordered, o, b, s.page, page);
    PutOwners(es.ownerFree, es.ownerPages, es.ordered, o, b, s');
    PutAccounted(|es.pages|, es.free, es.ordered, o, b, s', es.free);
    PutSeenAs(es, o, b, s.page, page, es.free);
    assert es.ownerFree[o := []] == es.ownerFree;
    assert OwnedPages(es, o) + {s.page} == OwnedPages(es, o);
    assert es.ownerPages[o := OwnedPages(es, o)] == es.ownerPages;
  }

  /** What the invariant says of one held block and its owner. */
  lemma HeldFacts(es: EngineState, o: Inode, b: nat)
    requires EngineInv(es) && IsCached(es, o, b)
    ensures o in es.ownerFree && es.ownerFree[o] == [] && o in es.ownerPages
    ensures var s := es.ordered[o][b];
            && s.page < |es.pages| && s.offset == 0 && s.synced == !es.pages[s.page].dirty && Holds(es.pages[s.page], o, b)
            && s.page in es.ownerPages[o] && es.ownerPages[o] == PagesOf(es.ordered[o])
  {
    assert SlotOk(es.pages, o, b, es.ordered[o][b]);
  }

  /** Asking a page who owns it and what it contains is asking the owner's index. */
  lemma OwnedIsIndexed(es: EngineState, o: Inode, b: nat, p: nat)
    requires EngineInv(es) && p < |es.pages|
    ensures es.pages[p].owner == Some(o) && b in es.pages[p].blocks.slots
            <==> IsCached(es, o, b) && es.ordered[o][b].page == p
  {
    if es.pages[p].owner == Some(o) && b in es.pages[p].blocks.slots {
      assert p !in es.free;
      assert Indexed(es.ordered, p);
      var i, c :| InIndex(es.ordered, i, c) && es.ordered[i][c].page == p;
      assert SlotOk(es.pages, i, c, es.ordered[i][c]);
    }
    if IsCached(es, o, b) { assert SlotOk(es.pages, o, b, es.ordered[o][b]); }
  }

  lemma LastFree(es: EngineState)
    requires EngineInv(es) && es.free != []
    ensures var p := es.free[|es.free| - 1]; p < |es.pages| && es.pages[p] == BlankPage()
    ensures OwnersOk(es.ownerFree, es.ownerPages, es.ordered)
  {}

  /** The state after writing into a resident block: page dirty, entry unsynced. */
  ghost function Rewritten(es: EngineState, o: Inode, b: nat, bytes: Image, from: nat): EngineState
    requires EngineInv(es) && IsCached(es, o, b) && from + |bytes| <= B
  {
    CachedIsIndexed(es, o, b);
    var s := es.ordered[o][b];
    es.(pages := es.pages[s.page := Written(es.pages[s.page], b, bytes, from)],
        ordered := es.ordered[o := IndexOf(es.ordered, o)[b := s.(synced := false)]])
  }

  lemma RewriteStep(es: EngineState, o: Inode, b: nat, bytes: Image, from: nat)
    requires EngineInv(es) && IsCached(es, o, b) && from + |bytes| <= B
    ensures b in Cached(es, o) && |Cached(es, o)[b].bytes| == B
    ensures var es' := Rewritten(es, o, b, bytes, from);
            var was := Cached(es, o)[b];
            EngineInv(es') && SeenAs(es, es', o, Cached(es, o)[b := CBlock(was.page, Overwrite(was.bytes, from, bytes), was.to, true)])
  {
    hide EngineInv, SeenAs, Cached;
    CachedIsIndexed(es, o, b);
    HeldFacts(es, o, b);
    var s := es.ordered[o][b];
    ChangeStep(es, o, b, Written(es.pages[s.page], b, bytes, from));
  }

  /** A new block in the last free page. */
  ghost function Filled(es: EngineState, o: Inode, b: nat, bytes: Image, from: nat): EngineState
    requires EngineInv(es) && es.free != [] && from + |bytes| <= B
  {
    var last := |es.free| - 1;
    Put(es, o, b, es.free[last], NewPage(o, b, bytes, from), es.free[..last])
  }

  ghost function NewPage(o: Inode, b: nat, bytes: Image, from: nat): PageState
    requires from + |bytes| <= B
  {
    PageState(Some(o), true, Overwrite(Zeros(B), from, bytes), [], BlockOffsets(map[b := 0], map[b := -1]))
  }

  lemma NewBlockStep(es: EngineState, o: Inode, b: nat, bytes: Image, from: nat)
    requires EngineInv(es) && !IsCached(es, o, b) && es.free != [] && from + |bytes| <= B
    ensures var es' := Filled(es, o, b, bytes, from);
            EngineInv(es')
            && SeenAs(es, es', o, Cached(es, o)[b := CBlock(es.free[|es.free| - 1], Overwrite(Zeros(B), from, bytes), -1, true)])
  {
    FillStep(es, o, b, NewPage(o, b, bytes, from));
  }

  /** The state after moving a resident block's readable end. */
  ghost function Reached(es: EngineState, o: Inode, b: nat, to: int): EngineState
    requires EngineInv(es) && IsCached(es, o, b)
  {
    CachedIsIndexed(es, o, b);
    var p := es.ordered[o][b].page;
    var was := es.pages[p];
    es.(pages := es.pages[p := was.(blocks := was.blocks.(readable := was.blocks.readable[b := to]))])
  }

  lemma ReachStep(es: EngineState, o: Inode, b: nat, to: int)
    requires EngineInv(es) && IsCached(es, o, b)
    ensures b in Cached(es, o)
    ensures var es' := Reached(es, o, b, to);
            EngineInv(es') && SeenAs(es, es', o, Cached(es, o)[b := Cached(es, o)[b].(to := to)])
  {
    hide EngineInv, SeenAs, Cached;
    CachedIsIndexed(es, o, b);
    HeldFacts(es, o, b);
    var s := es.ordered[o][b];
    var was := es.pages[s.page];
    ChangeStep(es, o, b, was.(blocks := was.blocks.(readable := was.blocks.readable[b := to])));
    assert IndexOf(es.ordered, o)[b := s.(synced := !was.dirty)] == es.ordered[o];
    assert es.ordered[o := es.ordered[o]] == es.ordered;
  }

  /** The state after zeroing a resident block from an index on; its page is not dirtied. */
  ghost function CutAt(es: EngineState, o: Inode, b: nat, index: nat): EngineState
    requires EngineInv(es) && IsCached(es, o, b) && index <= B
  {
    CachedIsIndexed(es, o, b);
    var p := es.ordered[o][b].page;
    var was := es.pages[p];
    es.(pages := es.pages[p := was.(data := Overwrite(was.data, index, Zeros(B - index)),
                                    blocks := was.blocks.(readable := was.blocks.readable[b := index - 1]))])
  }

  lemma CutAtStep(es: EngineState, o: Inode, b: nat, index: nat)
    requires EngineInv(es) && IsCached(es, o, b) && index <= B
    ensures b in Cached(es, o) && |Cached(es, o)[b].bytes| == B
    ensures var es' := CutAt(es, o, b, index);
            EngineInv(es') && SeenAs(es, es', o, Cached(es, o)[b := Cut(Cached(es, o)[b], index)])
  {
    hide EngineInv, SeenAs, Cached;
    CachedIsIndexed(es, o, b);
    HeldFacts(es, o, b);
    var s := es.ordered[o][b];
    var was := es.pages[s.page];
    var q := was.(data := Overwrite(was.data, index, Zeros(B - index)),
                  blocks := was.blocks.(readable := was.blocks.readable[b := index - 1]));
    ChangeStep(es, o, b, q);
    assert IndexOf(es.ordered, o)[b := s.(synced := !was.dirty)] == es.ordered[o];
    assert es.ordered[o := es.ordered[o]] == es.ordered;
    assert q.data == Cut(Cached(es, o)[b], index).bytes;
  }

  /** Block `b` of `o` leaves the cache and its page goes back to the free list, blank. */
  ghost function Dropped(es: EngineState, o: Inode, b: nat): EngineState
    requires IsCached(es, o, b) && o in es.ownerPages && es.ordered[o][b].page < |es.pages|
  {
    var p := es.ordered[o][b].page;
    EngineState(es.pages[p := BlankPage()], es.free + [p], es.ownerFree,
                es.ownerPages[o := es.ownerPages[o] - {p}], es.ordered[o := es.ordered[o] - {b}])
  }

  lemma DropFree(pages: seq<PageState>, free: seq<nat>, p: nat)
    requires FreeOk(pages, free) && p < |pages| && p !in free
    ensures FreeOk(pages[p := BlankPage()], free + [p])
  {}

  lemma DropAccounted(n: nat, free: seq<nat>, ordered: map<Inode, map<nat, Slot>>, o: Inode, b: nat)
    requires Accounted(n, free, ordered) && InIndex(ordered, o, b)
    ensures Accounted(n, free + [ordered[o][b].page], ordered[o := ordered[o] - {b}])
  {
    var p, ordered' := ordered[o][b].page, ordered[o := ordered[o] - {b}];
    forall q: nat | q < n ensures q in free + [p] || Indexed(ordered', q) {
      if q !in free && q != p {
        assert Indexed(ordered, q);
        var i, c :| InIndex(ordered, i, c) && ordered[i][c].page == q;
        assert InIndex(ordered', i, c) && ordered'[i][c].page == q;
      }
    }
  }

  lemma DropSeenAs(es: EngineState, o: Inode, b: nat)
    requires SlotsOk(es.pages, es.ordered) && IsCached(es, o, b) && o in es.ownerPages && es.ordered[o][b].page < |es.pages|
    requires Apart(es.ordered, es.ordered[o][b].page, o, b)
    ensures SeenAs(es, Dropped(es, o, b), o, Cached(es, o) - {b})
  {
    var es' := Dropped(es, o, b);
    forall i ensures Cached(es', i) == if i == o then Cached(es, o) - {b} else Cached(es, i) {
      DropSeen(es.pages, es.ordered, o, b, es.ordered[o][b].page, BlankPage(), i);
    }
  }

  lemma DropStep(es: EngineState, o: Inode, b: nat)
    requires EngineInv(es) && IsCached(es, o, b)
    ensures es.ordered[o][b].page < |es.pages|
    ensures var es' := Dropped(es, o, b); EngineInv(es') && SeenAs(es, es', o, Cached(es, o) - {b})
  {
    hide SlotsOk, FreeOk, Accounted, OwnersOk, PagesOf, Holds, Cached, SeenAs, Apart, BlankPage;
    var p := es.ordered[o][b].page;
    HeldFacts(es, o, b);
    HeldApart(es, o, b);
    PagesExclusive(es, o, b, o, b);
    DropSlots(es.pages, es.ordered, o, b, p, BlankPage());
    DropOwners(es.ownerFree, es.ownerPages, es.ordered, o, b);
    DropFree(es.pages, es.free, p);
    DropAccounted(|es.pages|, es.free, es.ordered, o, b);
    DropSeenAs(es, o, b);
  }

  /* ---------------------------------------------------------------- whole-owner steps */

  ghost function CleanPages(pages: seq<PageState>, ps: set<nat>): (r: seq<PageState>)
    ensures |r| == |pages|
  {
    seq(|pages|, p requires 0 <= p < |pages| => if p in ps then pages[p].(dirty := false) else pages[p])
  }

  ghost function AllSynced(index: map<nat, Slot>): map<nat, Slot> {
    map b | b in index :: index[b].(synced := true)
  }

  ghost function AllClean(blocks: map<nat, CBlock>): map<nat, CBlock> {
    map b | b in blocks :: Clean(blocks[b])
  }

  /** The pages of owner `o` are held by no other owner and are not free. */
  lemma OwnPages(es: EngineState, o: Inode)
    requires EngineInv(es) && o in es.ordered
    ensures forall p | p in es.ownerPages[o] :: p < |es.pages| && p !in es.free
    ensures forall i, c | InIndex(es.ordered, i, c) :: es.ordered[i][c].page in es.ownerPages[o] <==> i == o
  {
    forall p | p in es.ownerPages[o] ensures p < |es.pages| && p !in es.free {
      var b :| b in es.ordered[o] && es.ordered[o][b].page == p;
      assert SlotOk(es.pages, o, b, es.ordered[o][b]);
      PagesExclusive(es, o, b, o, b);
    }
    forall i, c | InIndex(es.ordered, i, c) ensures es.ordered[i][c].page in es.ownerPages[o] <==> i == o {
      if i != o && es.ordered[i][c].page in es.ownerPages[o] {
        var b :| b in es.ordered[o] && es.ordered[o][b].page == es.ordered[i][c].page;
        PagesExclusive(es, o, b, i, c);
      }
    }
  }

  lemma SyncedOwners(ownerFree: map<Inode, seq<nat>>, ownerPages: map<Inode, set<nat>>, ordered: map<Inode, map<nat, Slot>>,
                     o: Inode)
    requires OwnersOk(ownerFree, ownerPages, ordered) && o in ordered
    ensures OwnersOk(ownerFree, ownerPages, ordered[o := AllSynced(ordered[o])])
  {
    var index' := AllSynced(ordered[o]);
    assert PagesOf(index') == PagesOf(ordered[o]) by {
      forall q | q in PagesOf(ordered[o]) ensures q in PagesOf(index') {
        var c :| c in ordered[o] && ordered[o][c].page == q;
        assert c in index' && index'[c].page == q;
      }
    }
  }

  lemma SyncedAccounted(n: nat, free: seq<nat>, ordered: map<Inode, map<nat, Slot>>, o: Inode)
    requires Accounted(n, free, ordered) && o in ordered
    ensures Accounted(n, free, ordered[o := AllSynced(ordered[o])])
  {
    var ordered' := ordered[o := AllSynced(ordered[o])];
    forall q: nat | q < n ensures q in free || Indexed(ordered', q) {
      if q !in free {
        var i, c :| InIndex(ordered, i, c) && ordered[i][c].page == q;
        assert InIndex(ordered', i, c) && ordered'[i][c].page == q;
      }
    }
  }

  /** Every page of the owner is clean and every block of it is marked synced. */
  lemma CleanStep(es: EngineState, o: Inode)
    requires EngineInv(es) && o in es.ordered
    ensures var es' := es.(pages := CleanPages(es.pages, es.ownerPages[o]), ordered := es.ordered[o := AllSynced(es.ordered[o])]);
            EngineInv(es') && SeenAs(es, es', o, AllClean(Cached(es, o)))
  {
    var ps := es.ownerPages[o];
    var es' := es.(pages := CleanPages(es.pages, ps), ordered := es.ordered[o := AllSynced(es.ordered[o])]);
    OwnPages(es, o);
    SyncedOwners(es.ownerFree, es.ownerPages, es.ordered, o);
    SyncedAccounted(|es.pages|, es.free, es.ordered, o);
    forall i, c | InIndex(es'.ordered, i, c) ensures SlotOk(es'.pages, i, c, es'.ordered[i][c]) {
      assert InIndex(es.ordered, i, c) && SlotOk(es.pages, i, c, es.ordered[i][c]);
    }
    forall k | 0 <= k < |es.free| ensures es'.pages[es.free[k]] == BlankPage() {
      assert es.free[k] in es.free;
    }
    CleanSeen(es, o);
  }

  lemma CleanSeenBy(pages: seq<PageState>, index: map<nat, Slot>, ps: set<nat>, own: bool)
    requires forall c | c in index :: index[c].page < |pages| && (index[c].page in ps <==> own)
    ensures BlocksOf(CleanPages(pages, ps), if own then AllSynced(index) else index)
            == if own then AllClean(BlocksOf(pages, index)) else BlocksOf(pages, index)
  {}

  lemma CleanSeen(es: EngineState, o: Inode)
    requires EngineInv(es) && o in es.ordered
    ensures var es' := es.(pages := CleanPages(es.pages, es.ownerPages[o]), ordered := es.ordered[o := AllSynced(es.ordered[o])]);
            SeenAs(es, es', o, AllClean(Cached(es, o)))
  {
    var es' := es.(pages := CleanPages(es.pages, es.ownerPages[o]), ordered := es.ordered[o := AllSynced(es.ordered[o])]);
    OwnPages(es, o);
    forall i ensures Cached(es', i) == if i == o then AllClean(Cached(es, o)) else Cached(es, i) {
      forall c | c in IndexOf(es.ordered, i) ensures InIndex(es.ordered, i, c) && SlotOk(es.pages, i, c, es.ordered[i][c]) {
        assert InIndex(es.ordered, i, c);
      }
      CleanSeenBy(es.pages, IndexOf(es.ordered, i), es.ownerPages[o], i == o);
    }
  }

  ghost function BlankPages(pages: seq<PageState>, ps: set<nat>): (r: seq<PageState>)
    ensures |r| == |pages|
  {
    seq(|pages|, p requires 0 <= p < |pages| => if p in ps then BlankPage() else pages[p])
  }

  ghost function Elements(s: seq<nat>): set<nat> { set x | x in s }

  lemma BlankFree(pages: seq<PageState>, free: seq<nat>, back: seq<nat>, ps: set<nat>)
    requires FreeOk(pages, free) && NoDuplicates(back) && Elements(back) == ps
    requires forall p | p in ps :: p < |pages| && p !in free
    ensures FreeOk(BlankPages(pages, ps), free + back)
  {
    forall k | 0 <= k < |back| ensures back[k] in ps { assert back[k] in Elements(back); }
    forall k | 0 <= k < |free| ensures free[k] !in ps { assert free[k] in free; }
  }

  lemma ForgetAccounted(n: nat, free: seq<nat>, back: seq<nat>, ordered: map<Inode, map<nat, Slot>>, o: Inode)
    requires Accounted(n, free, ordered) && o in ordered && Elements(back) == PagesOf(ordered[o])
    ensures Accounted(n, free + back, ordered - {o})
  {
    forall q: nat | q < n ensures q in free + back || Indexed(ordered - {o}, q) {
      if q !in free && q !in Elements(back) {
        var i, c :| InIndex(ordered, i, c) && ordered[i][c].page == q;
        assert i != o;
        assert InIndex(ordered - {o}, i, c) && (ordered - {o})[i][c].page == q;
      }
    }
  }

  /** The owner disappears; its pages join the free list in some order. */
  lemma ForgetStep(es: EngineState, o: Inode, back: seq<nat>)
    requires EngineInv(es) && o in es.ordered
    requires NoDuplicates(back) && Elements(back) == es.ownerPages[o]
    ensures var es' := EngineState(BlankPages(es.pages, es.ownerPages[o]), es.free + back,
                                   es.ownerFree - {o}, es.ownerPages - {o}, es.ordered - {o});
            EngineInv(es') && SeenAs(es, es', o, map[])
  {
    var ps := es.ownerPages[o];
    var es' := EngineState(BlankPages(es.pages, ps), es.free + back, es.ownerFree - {o}, es.ownerPages - {o}, es.ordered - {o});
    OwnPages(es, o);
    BlankFree(es.pages, es.free, back, ps);
    ForgetAccounted(|es.pages|, es.free, back, es.ordered, o);
    forall i, c | InIndex(es'.ordered, i, c)
      ensures SlotOk(es'.pages, i, c, es'.ordered[i][c])
      ensures es'.pages[es'.ordered[i][c].page] == es.pages[es'.ordered[i][c].page]
    {
      assert InIndex(es.ordered, i, c) && SlotOk(es.pages, i, c, es.ordered[i][c]);
    }
    forall i | i != o ensures Cached(es', i) == Cached(es, i) {
      forall c | c in IndexOf(es.ordered, i) ensures InIndex(es'.ordered, i, c) {}
    }
  }

  lemma KeysAgree(es: EngineState)
    requires EngineInv(es)
    ensures es.ownerFree.Keys == es.ordered.Keys && es.ownerPages.Keys == es.ordered.Keys
    ensures forall o :: o in es.ordered <==> o in es.ownerPages
    ensures forall o | o in es.ordered :: es.ownerPages[o] == PagesOf(es.ordered[o])
  {}

  lemma NotOwner(es: EngineState, o: Inode)
    requires EngineInv(es) && o !in es.ordered
    ensures EngineInv(es) && SeenAs(es, es, o, map[])
    ensures es.ownerFree - {o} == es.ownerFree
  {
    assert BlocksOf(es.pages, map[]) == map[];
  }

  /** The blocks left when only those in `done` have been truncated yet. */
  ghost function CutOnly(blocks: map<nat, CBlock>, done: set<nat>, at: nat, index: nat): map<nat, CBlock>
    requires at in blocks ==> index <= |blocks[at].bytes|
  {
    map b | b in blocks && (b !in done || (b == at && index > 0)) :: if b in done then Cut(blocks[b], index) else blocks[b]
  }

  lemma CutOnlyStep(blocks: map<nat, CBlock>, done: set<nat>, b: nat, at: nat, index: nat)
    requires at in blocks ==> index <= |blocks[at].bytes|
    requires b in blocks && b !in done
    ensures CutOnly(blocks, done + {b}, at, index) ==
            if b == at && index > 0 then CutOnly(blocks, done, at, index)[b := Cut(blocks[b], index)]
            else CutOnly(blocks, done, at, index) - {b}
  {}

  lemma CutOnlyAll(blocks: map<nat, CBlock>, done: set<nat>, at: nat, index: nat)
    requires at in blocks ==> index <= |blocks[at].bytes|
    requires forall b :: b in done <==> b in blocks && at <= b
    ensures CutOnly(blocks, done, at, index) == CutBlocks(blocks, at, index)
  {}

  /* ---------------------------------------------------------------- write-back */

  /** UIO_MAXIOV: the most vectors one pwritev takes. */
  const IOV_MAX: nat := 1024

  ghost predicate Ascending(s: seq<nat>) {
    forall i, j | 0 <= i < j < |s| :: s[i] < s[j]
  }

  predicate Least(m: nat, s: set<nat>) {
    m in s && forall x | x in s :: m <= x
  }

  lemma {:induction false} SmallestExists(s: set<nat>)
    requires s != {}
    ensures exists m :: Least(m, s)
  {
    var m :| m in s;
    var rest := s - {m};
    assert forall x :: x in s <==> x == m || x in rest;
    if rest == {} {
      assert Least(m, s);
    } else {
      SmallestExists(rest);
      var k :| Least(k, rest);
      assert Least(if k <= m then k else m, s);
    }
  }

  /** The keys of an ordered map, in iteration order. */
  function Sorted(s: set<nat>): (r: seq<nat>)
    ensures Ascending(r)
    ensures forall x :: x in r <==> x in s
  {
    if s == {} then []
    else
      SmallestExists(s);
      var m :| Least(m, s);
      [m] + Sorted(s - {m})
  }

  ghost function PagesAt(index: map<nat, Slot>, keys: seq<nat>): set<nat> {
    set b | b in keys && b in index :: index[b].page
  }

  ghost function CleanIn(blocks: map<nat, CBlock>, flushed: seq<nat>): map<nat, CBlock> {
    map b | b in blocks :: if b in flushed then Clean(blocks[b]) else blocks[b]
  }

  ghost function SyncedIn(index: map<nat, Slot>, flushed: seq<nat>): map<nat, Slot> {
    map b | b in index :: if b in flushed then index[b].(synced := true) else index[b]
  }

  /** The page behind index entry `b` carries block `b` as `blocks` has it, dirtiness aside. */
  ghost predicate Carried(pages: seq<PageState>, index: map<nat, Slot>, blocks: map<nat, CBlock>, b: nat) {
    && b in index && b in blocks
    && index[b].page < |pages| && index[b].offset == 0
    && var p := pages[index[b].page];
    && p.data == blocks[b].bytes
    && b in p.blocks.readable && p.blocks.readable[b] == blocks[b].to
  }

  /** `dirty[from..from + n]` are consecutive block ids. */
  ghost predicate Consecutive(dirty: seq<nat>, from: nat, n: nat) {
    from + n <= |dirty| && forall k | from <= k < from + n :: dirty[k] == dirty[from] + (k - from)
  }

  /** No run of `dirty` goes on at `k`: it is the end, or there is a gap. */
  ghost predicate RunEnds(dirty: seq<nat>, k: nat) {
    k == 0 || k >= |dirty| || dirty[k] != dirty[k - 1] + 1
  }

  /** The flushes cut the dirty blocks in runs of consecutive blocks of at most 1024 vectors, so each dirty
      block is written exactly once; and in no more runs than needed: each ends where no block follows, or
      is full. */
  ghost predicate Batched(batches: seq<nat>, dirty: seq<nat>, flushed: nat)
    decreases |batches|
  {
    if batches == [] then flushed == 0
    else
      var n := batches[|batches| - 1];
      && 0 < n <= 1024 && n <= flushed && (n == 1024 || RunEnds(dirty, flushed))
      && Consecutive(dirty, flushed - n, n)
      && Batched(batches[..|batches| - 1], dirty, flushed - n)
  }

  /** Flushing the next run of dirty blocks changes nothing a reader sees. */
  lemma BatchStep(size: nat, disk: Image, blocks: map<nat, CBlock>, dirty: seq<nat>, flushed: nat, n: nat)
    requires Consecutive(dirty, flushed, n) && 0 < n <= 1024 && Ascending(dirty)
    requires forall b | b in dirty :: b in blocks
    requires Inv(View(size, disk, CleanIn(blocks, dirty[..flushed])))
    ensures var lo := dirty[flushed];
            && Resident(blocks, lo, n)
            && var v := View(size, disk, CleanIn(blocks, dirty[..flushed]));
            var v' := View(size, Pwritev(disk, Vectors(blocks, lo, n), Start(lo)), CleanIn(blocks, dirty[..flushed + n]));
            Inv(v') && Logical(v') == Logical(v)
  {
    hide Inv, Logical, Pwritev, Ascending;
    var lo := dirty[flushed];
    var was := CleanIn(blocks, dirty[..flushed]);
    RunMembers(dirty, flushed, n);
    FlushStep(View(size, disk, was), lo, n);
    forall b: nat | lo <= b < lo + n ensures b in blocks && was[b].bytes == blocks[b].bytes && was[b].to == blocks[b].to {
      assert b in was;
    }
    assert Vectors(was, lo, n) == Vectors(blocks, lo, n);
    assert MarkClean(was, lo, n) == CleanIn(blocks, dirty[..flushed + n]);
  }

  /** The blocks of a run are its id range. */
  lemma RunMembers(dirty: seq<nat>, flushed: nat, n: nat)
    requires Consecutive(dirty, flushed, n) && n > 0
    ensures forall b: nat | dirty[flushed] <= b < dirty[flushed] + n :: b in dirty
    ensures forall b: nat :: b in dirty[..flushed + n] <==> b in dirty[..flushed] || dirty[flushed] <= b < dirty[flushed] + n
  {
    var lo, upto := dirty[flushed], dirty[..flushed + n];
    forall b: nat | lo <= b < lo + n ensures b in dirty && b in upto {
      var k := flushed + (b - lo);
      assert dirty[k] == b && upto[k] == b;
    }
    forall b: nat | b in upto ensures b in dirty[..flushed] || lo <= b < lo + n {
      var k :| 0 <= k < flushed + n && upto[k] == b;
      assert dirty[k] == b;
      if k < flushed { assert dirty[..flushed][k] == b; }
    }
    forall b: nat | b in dirty[..flushed] ensures b in upto {
      var k :| 0 <= k < flushed && dirty[..flushed][k] == b;
      assert upto[k] == b;
    }
  }

  lemma CleanNone(pages: seq<PageState>, index: map<nat, Slot>)
    ensures CleanPages(pages, PagesAt(index, [])) == pages
    ensures forall keys: seq<nat> | (forall b :: b in keys <==> b in index) :: PagesAt(index, keys) == PagesOf(index)
  {}

  lemma CleanMore(pages: seq<PageState>, ps: set<nat>, p: nat)
    requires p < |pages|
    ensures CleanPages(pages, ps + {p}) == CleanPages(pages, ps)[p := CleanPages(pages, ps)[p].(dirty := false)]
    ensures !pages[p].dirty ==> CleanPages(pages, ps + {p}) == CleanPages(pages, ps)
    ensures p !in ps ==> CleanPages(pages, ps)[p] == pages[p]
  {}

  /** One step of collecting dirty pages: the page of the next key is seen as it was. */
  lemma CollectOne(es: EngineState, o: Inode, index: map<nat, Slot>, keys: seq<nat>, i: nat)
    requires EngineInv(es) && o in es.ordered && index == es.ordered[o]
    requires Ascending(keys) && i < |keys| && keys[i] in index
    ensures var p := index[keys[i]].page;
            && p < |es.pages| && p !in PagesAt(index, keys[..i])
            && keys[i] in Cached(es, o) && Cached(es, o)[keys[i]].dirty == es.pages[p].dirty
            && PagesAt(index, keys[..i + 1]) == PagesAt(index, keys[..i]) + {p}
  {
    var b := keys[i];
    CachedIsIndexed(es, o, b);
    assert keys[..i + 1] == keys[..i] + [b];
    var p := index[b].page;
    if p in PagesAt(index, keys[..i]) {
      var c :| c in keys[..i] && c in index && index[c].page == p;
      PagesExclusive(es, o, b, o, c);
    }
  }

  /** The dirty blocks among `keys`, in ascending order. */
  ghost predicate DirtyAmong(dirty: seq<nat>, keys: seq<nat>, blocks: map<nat, CBlock>) {
    Ascending(dirty) && forall b :: b in dirty <==> b in keys && b in blocks && blocks[b].dirty
  }

  lemma NoneDirty(keys: seq<nat>, blocks: map<nat, CBlock>)
    ensures DirtyAmong([], keys[..0], blocks)
  {}

  lemma DirtyAll(es: EngineState, o: Inode, dirty: seq<nat>, keys: seq<nat>)
    requires EngineInv(es) && o in es.ordered && DirtyAmong(dirty, keys, Cached(es, o))
    requires forall b :: b in keys <==> b in es.ordered[o]
    ensures Ascending(dirty) && forall b :: b in dirty <==> b in Cached(es, o) && Cached(es, o)[b].dirty
  {
    hide EngineInv, Cached;
    forall b | b in Cached(es, o) ensures b in keys { CachedIsIndexed(es, o, b); }
  }

  lemma DirtyMore(dirty: seq<nat>, keys: seq<nat>, i: nat, blocks: map<nat, CBlock>)
    requires Ascending(keys) && i < |keys| && keys[i] in blocks && DirtyAmong(dirty, keys[..i], blocks)
    ensures DirtyAmong(if blocks[keys[i]].dirty then dirty + [keys[i]] else dirty, keys[..i + 1], blocks)
  {
    var b := keys[i];
    assert keys[..i + 1] == keys[..i] + [b];
    forall k | 0 <= k < |dirty| ensures dirty[k] < b {
      assert dirty[k] in keys[..i];
    }
  }

  ghost function SyncedRun(index: map<nat, Slot>, lo: nat, n: nat): map<nat, Slot> {
    map b | b in index :: if lo <= b < lo + n then index[b].(synced := true) else index[b]
  }

  lemma CarriedSynced(pages: seq<PageState>, index: map<nat, Slot>, blocks: map<nat, CBlock>, b: nat, flushed: seq<nat>)
    requires Carried(pages, index, blocks, b)
    ensures b in index && b in blocks && b in SyncedIn(index, flushed)
    ensures SyncedIn(index, flushed)[b].page == index[b].page && SyncedIn(index, flushed)[b].offset == index[b].offset
    ensures Carried(pages, SyncedIn(index, flushed), blocks, b)
  {}

  lemma SyncedStep(index: map<nat, Slot>, dirty: seq<nat>, from: nat, n: nat)
    requires Consecutive(dirty, from, n) && n > 0
    ensures SyncedRun(SyncedIn(index, dirty[..from]), dirty[from], n) == SyncedIn(index, dirty[..from + n])
  {
    RunMembers(dirty, from, n);
  }

  lemma FlushNone(index: map<nat, Slot>, blocks: map<nat, CBlock>)
    ensures SyncedIn(index, []) == index && CleanIn(blocks, []) == blocks
  {}

  /** Entry `k` of a run starting at block `lo` stands for block `lo + k`. */
  ghost predicate ReadyAt(pages: seq<PageState>, index: map<nat, Slot>, blocks: map<nat, CBlock>, chunk: seq<Slot>, lo: nat, k: nat)
    requires k < |chunk|
  {
    && lo + k in index
    && chunk[k].page == index[lo + k].page && chunk[k].offset == index[lo + k].offset
    && Carried(pages, index, blocks, lo + k)
  }

  ghost predicate EntryAt(index: map<nat, Slot>, b: nat, s: Slot) {
    b in index && index[b] == s
  }

  /** `chunk` holds the entries of the consecutive dirty blocks from `dirty[from]` on. */
  ghost predicate ChunkOf(index: map<nat, Slot>, dirty: seq<nat>, from: nat, chunk: seq<Slot>) {
    && Consecutive(dirty, from, |chunk|)
    && forall k | 0 <= k < |chunk| :: EntryAt(index, dirty[from + k], chunk[k])
  }

  lemma ChunkGrows(index: map<nat, Slot>, dirty: seq<nat>, from: nat, chunk: seq<Slot>)
    requires ChunkOf(index, dirty, from, chunk) && from + |chunk| < |dirty| && dirty[from + |chunk|] in index
    requires chunk != [] ==> dirty[from + |chunk|] == dirty[from + |chunk| - 1] + 1
    ensures ChunkOf(index, dirty, from, chunk + [index[dirty[from + |chunk|]]])
  {
    var n := |chunk|;
    forall k | from <= k < from + n + 1 ensures dirty[k] == dirty[from] + (k - from) {
      if k == from + n && n > 0 { assert dirty[from + n - 1] == dirty[from] + (n - 1); }
    }
    var grown := chunk + [index[dirty[from + n]]];
    forall k | 0 <= k < n + 1 ensures EntryAt(index, dirty[from + k], grown[k]) {
      if k < n { assert grown[k] == chunk[k]; }
    }
  }

  lemma RunReady(pages: seq<PageState>, index: map<nat, Slot>, blocks: map<nat, CBlock>, dirty: seq<nat>, from: nat, chunk: seq<Slot>)
    requires chunk != [] && ChunkOf(index, dirty, from, chunk)
    requires forall b | b in dirty :: Carried(pages, index, blocks, b)
    ensures forall k | 0 <= k < |chunk| :: ReadyAt(pages, SyncedIn(index, dirty[..from]), blocks, chunk, dirty[from], k)
    ensures forall b | b in dirty :: b in blocks
  {
    forall k | 0 <= k < |chunk| ensures ReadyAt(pages, SyncedIn(index, dirty[..from]), blocks, chunk, dirty[from], k) {
      var b := dirty[from + k];
      assert b == dirty[from] + k && Carried(pages, index, blocks, b) && EntryAt(index, b, chunk[k]);
      CarriedSynced(pages, index, blocks, b, dirty[..from]);
    }
  }

  lemma SyncedRunStep(index: map<nat, Slot>, lo: nat, n: nat)
    requires lo + n in index
    ensures lo + n in SyncedRun(index, lo, n)
    ensures SyncedRun(index, lo, n)[lo + n := SyncedRun(index, lo, n)[lo + n].(synced := true)] == SyncedRun(index, lo, n + 1)
  {}

  lemma SyncedRunBase(index: map<nat, Slot>, lo: nat)
    ensures SyncedRun(index, lo, 0) == index
  {}

  lemma NoChunk(index: map<nat, Slot>, dirty: seq<nat>, from: nat)
    requires from <= |dirty|
    ensures ChunkOf(index, dirty, from, [])
  {}

  lemma BatchedStep(batches: seq<nat>, index: map<nat, Slot>, dirty: seq<nat>, from: nat, chunk: seq<Slot>)
    requires Batched(batches, dirty, from) && ChunkOf(index, dirty, from, chunk) && 0 < |chunk| <= 1024
    requires |chunk| == 1024 || RunEnds(dirty, from + |chunk|)
    ensures Batched(batches + [|chunk|], dirty, from + |chunk|)
  {
    assert (batches + [|chunk|])[..|batches|] == batches;
  }

  /** The dirty blocks are carried by their pages, whose dirty flags are already cleared. */
  lemma DirtyCarried(es: EngineState, o: Inode, b: nat)
    requires EngineInv(es) && o in es.ordered && b in Cached(es, o)
    ensures o in es.ownerPages
    ensures Carried(CleanPages(es.pages, es.ownerPages[o]), es.ordered[o], Cached(es, o), b)
  {
    CachedIsIndexed(es, o, b);
  }

  /** Once the dirty blocks are flushed every block is clean and marked synced. */
  lemma AllFlushed(es: EngineState, o: Inode, dirty: seq<nat>)
    requires EngineInv(es) && o in es.ordered
    requires forall b :: b in dirty <==> b in Cached(es, o) && Cached(es, o)[b].dirty
    ensures CleanIn(Cached(es, o), dirty) == AllClean(Cached(es, o))
    ensures SyncedIn(es.ordered[o], dirty) == AllSynced(es.ordered[o])
  {
    hide EngineInv, Cached;
    forall b | b in es.ordered[o] && b !in dirty ensures es.ordered[o][b].synced {
      CachedIsIndexed(es, o, b);
    }
    CleanRest(Cached(es, o), dirty);
    SyncedRest(es.ordered[o], dirty);
  }

  lemma CleanRest(blocks: map<nat, CBlock>, dirty: seq<nat>)
    requires forall b | b in blocks && b !in dirty :: !blocks[b].dirty
    ensures CleanIn(blocks, dirty) == AllClean(blocks)
  {}

  lemma SyncedRest(index: map<nat, Slot>, dirty: seq<nat>)
    requires forall b | b in index && b !in dirty :: index[b].synced
    ensures SyncedIn(index, dirty) == AllSynced(index)
  {}

  lemma NothingCached(es: EngineState, o: Inode)
    requires EngineInv(es) && o !in es.ownerPages
    ensures o !in es.ordered && Cached(es, o) == map[] && AllClean(Cached(es, o)) == Cached(es, o)
    ensures OthersKept(es, es, o)
  {}

  /** Cutting the file at the cached size finishes a flush. */
  lemma SyncEnd(size: nat, disk: Image, blocks: map<nat, CBlock>)
    requires Inv(View(size, disk, AllClean(blocks)))
    ensures Ftruncate(disk, size) == Logical(View(size, disk, AllClean(blocks)))
  {
    SyncedDisk(View(size, disk, AllClean(blocks)));
  }

  lemma NothingDirty(blocks: map<nat, CBlock>)
    ensures Ascending([]) && Batched([], [], 0)
  {}

  /* ---------------------------------------------------------------- one write per block, for comparison */

  /** A block up to its readable end. */
  ghost function Readout(blocks: map<nat, CBlock>, b: nat): Image {
    if Resident(blocks, b, 1) then blocks[b].bytes[..blocks[b].to + 1] else []
  }

  /** The simple way to sync: each dirty block on its own, up to its readable end. */
  ghost function Blockwise(disk: Image, blocks: map<nat, CBlock>, dirty: seq<nat>): Image {
    if dirty == [] then disk else
      var b := dirty[|dirty| - 1];
      Pwrite(Blockwise(disk, blocks, dirty[..|dirty| - 1]), Readout(blocks, b), Start(b))
  }

  /** Flushing one block is a pwrite of its readable bytes. */
  lemma OneVectorWrite(disk: Image, blocks: map<nat, CBlock>, b: nat)
    requires Resident(blocks, b, 1)
    ensures Pwritev(disk, Vectors(blocks, b, 1), Start(b)) == Pwrite(disk, Readout(blocks, b), Start(b))
  {
    var piece := Readout(blocks, b);
    assert Vectors(blocks, b, 1) == [piece];
    assert Concat([]) == [] && [piece][..0] == [];
  }

  lemma ReadoutIn(blocks: map<nat, CBlock>, init: seq<nat>, b: nat)
    ensures Readout(CleanIn(blocks, init), b) == Readout(blocks, b)
    ensures MarkClean(CleanIn(blocks, init), b, 1) == CleanIn(blocks, init + [b])
  {}

  lemma BlockwiseStep(size: nat, disk: Image, blocks: map<nat, CBlock>, init: seq<nat>, b: nat)
    requires Inv(View(size, disk, CleanIn(blocks, init))) && b in blocks
    ensures var v' := View(size, Pwrite(disk, Readout(blocks, b), Start(b)), CleanIn(blocks, init + [b]));
            Inv(v') && Logical(v') == Logical(View(size, disk, CleanIn(blocks, init)))
  {
    hide Inv, Logical, Pwrite, Pwritev, Readout, Vectors, MarkClean;
    var was := CleanIn(blocks, init);
    FlushStep(View(size, disk, was), b, 1);
    OneVectorWrite(disk, was, b);
    ReadoutIn(blocks, init, b);
  }

  lemma {:induction false} BlockwiseKeeps(v: View, dirty: seq<nat>)
    requires Inv(v) && forall b | b in dirty :: b in v.blocks
    ensures var v' := View(v.size, Blockwise(v.disk, v.blocks, dirty), CleanIn(v.blocks, dirty));
            Inv(v') && Logical(v') == Logical(v)
  {
    hide Inv, Logical, CleanIn, Pwrite, Readout;
    if dirty == [] {
      CleanInNone(v.blocks);
    } else {
      var init, b := dirty[..|dirty| - 1], dirty[|dirty| - 1];
      BlockwiseKeeps(v, init);
      BlockwiseStep(v.size, Blockwise(v.disk, v.blocks, init), v.blocks, init, b);
      assert dirty == init + [b];
    }
  }

  lemma CleanInNone(blocks: map<nat, CBlock>)
    ensures CleanIn(blocks, []) == blocks
  {}

  /** Writing block by block and cutting the file leaves the logical file: what the batches leave. */
  lemma BlockwiseIsLogical(v: View, dirty: seq<nat>)
    requires Inv(v) && forall b :: b in dirty <==> b in v.blocks && v.blocks[b].dirty
    ensures Ftruncate(Blockwise(v.disk, v.blocks, dirty), v.size) == Logical(v)
  {
    hide Inv, Logical;
    BlockwiseKeeps(v, dirty);
    SyncedDisk(View(v.size, Blockwise(v.disk, v.blocks, dirty), CleanIn(v.blocks, dirty)));
  }

  /* ---------------------------------------------------------------- copying out, reporting */

  /** The first `n` bytes of block `b` replace those of a buffer. */
  ghost predicate CopiedOut(blocks: map<nat, CBlock>, b: nat, n: nat, before: Image, after: Image) {
    && b in blocks && |blocks[b].bytes| == B && n <= B && n <= |before|
    && after == Overwrite(before, 0, blocks[b].bytes[..n])
  }

  /** For each dirty block among `keys`: its id, readable end and page. */
  ghost function DirtyInfo(blocks: map<nat, CBlock>, keys: seq<nat>): seq<(nat, int, nat)> {
    if keys == [] then []
    else
      var b := keys[|keys| - 1];
      DirtyInfo(blocks, keys[..|keys| - 1]) + if b in blocks && blocks[b].dirty then [(b, blocks[b].to, blocks[b].page)] else []
  }

  /** The report lists the dirty blocks, all of them, once each and in block order. */
  lemma {:induction false} DirtyInfoExact(blocks: map<nat, CBlock>, keys: seq<nat>)
    requires Ascending(keys)
    ensures forall i, j | 0 <= i < j < |DirtyInfo(blocks, keys)| :: DirtyInfo(blocks, keys)[i].0 < DirtyInfo(blocks, keys)[j].0
    ensures forall i | 0 <= i < |DirtyInfo(blocks, keys)| ::
              var (b, to, p) := DirtyInfo(blocks, keys)[i];
              b in keys && b in blocks && blocks[b].dirty && to == blocks[b].to && p == blocks[b].page
    ensures forall b | b in keys && b in blocks && blocks[b].dirty :: (b, blocks[b].to, blocks[b].page) in DirtyInfo(blocks, keys)
  {
    if keys != [] {
      var init, last := keys[..|keys| - 1], keys[|keys| - 1];
      var r0, r := DirtyInfo(blocks, init), DirtyInfo(blocks, keys);
      DirtyInfoExact(blocks, init);
      assert keys == init + [last];
      forall b | b in init ensures b < last { var k :| 0 <= k < |init| && init[k] == b; assert keys[k] == b; }
      forall i | 0 <= i < |r| ensures if i < |r0| then r[i] == r0[i] && r[i].0 in init else r[i].0 == last {}
    }
  }

  ghost predicate Reports(info: seq<(nat, int, nat)>, b: nat) {
    exists k :: 0 <= k < |info| && info[k].0 == b
  }

  lemma ReportsDirty(blocks: map<nat, CBlock>, keys: seq<nat>, b: nat)
    requires Ascending(keys)
    ensures Reports(DirtyInfo(blocks, keys), b) <==> b in keys && b in blocks && blocks[b].dirty
  {
    hide DirtyInfo, Ascending;
    var info := DirtyInfo(blocks, keys);
    DirtyInfoExact(blocks, keys);
    if b in keys && b in blocks && blocks[b].dirty { Reported(info, (b, blocks[b].to, blocks[b].page)); }
    if Reports(info, b) {
      var k :| 0 <= k < |info| && info[k].0 == b;
      assert info[k].0 in keys && info[k].0 in blocks && blocks[info[k].0].dirty;
    }
  }

  lemma Reported(info: seq<(nat, int, nat)>, x: (nat, int, nat))
    requires x in info
    ensures Reports(info, x.0)
  {
    var k :| 0 <= k < |info| && info[k] == x;
    assert info[k].0 == x.0;
  }

  lemma DirtyInfoNone(blocks: map<nat, CBlock>)
    ensures DirtyInfo(blocks, []) == []
  {}

  lemma DirtyInfoStep(blocks: map<nat, CBlock>, keys: seq<nat>, i: nat)
    requires i < |keys|
    ensures DirtyInfo(blocks, keys[..i + 1]) ==
            DirtyInfo(blocks, keys[..i])
            + if keys[i] in blocks && blocks[keys[i]].dirty then [(keys[i], blocks[keys[i]].to, blocks[keys[i]].page)] else []
  {
    assert keys[..i + 1][..i] == keys[..i];
  }
}
