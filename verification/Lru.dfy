/** Page replacement: with eviction on and one block per page, the recency list of the engine. */
module Lru {
  import opened Overlay
  import opened Slots
  import opened Counting

  /** An element of the list. Iterators stay valid while others come and go, so an element has an
      identity apart from its place. */
  datatype Node = Node(id: nat, page: nat)

  /** Pages before, in the list, were visited after. */
  ghost predicate Recent(list: seq<Node>, visited: map<nat, nat>) {
    forall j, k | 0 <= j < k < |list| ::
      list[j].page in visited && list[k].page in visited && visited[list[j].page] > visited[list[k].page]
  }

  /** The position map leads to the element of each page, and to nothing else. */
  ghost predicate Positioned(list: seq<Node>, order: map<nat, nat>) {
    && (forall k | 0 <= k < |list| :: list[k].page in order && order[list[k].page] == list[k].id)
    && (forall p | p in order :: InList(list, p))
    && (forall j, k | 0 <= j < k < |list| :: list[j].id != list[k].id)
  }

  ghost predicate InList(list: seq<Node>, p: nat) {
    exists k :: 0 <= k < |list| && list[k].page == p
  }

  /** The list and its position map agree, and the list runs from the last page visited to the first.
      `clock` is later than every visit, `next` no element has as identity. */
  ghost predicate LruOk(list: seq<Node>, order: map<nat, nat>, visited: map<nat, nat>, clock: nat, next: nat) {
    && Positioned(list, order) && Recent(list, visited)
    && visited.Keys == order.Keys
    && (forall p | p in visited :: visited[p] < clock)
    && (forall k | 0 <= k < |list| :: list[k].id < next)
  }

  /** list::erase. */
  function Without(list: seq<Node>, id: nat): seq<Node> {
    if list == [] then [] else if list[0].id == id then list[1..] else [list[0]] + Without(list[1..], id)
  }

  lemma {:induction false} WithoutAt(list: seq<Node>, k: nat)
    requires k < |list| && forall j | 0 <= j < k :: list[j].id != list[k].id
    ensures Without(list, list[k].id) == list[..k] + list[k + 1..]
  {
    if k > 0 {
      WithoutAt(list[1..], k - 1);
      assert list[1..][..k - 1] == list[1..k];
    }
  }

  function Skip(k: nat, j: nat): nat { if j < k then j else j + 1 }

  lemma RestAt(list: seq<Node>, k: nat)
    requires k < |list|
    ensures var rest := list[..k] + list[k + 1..];
            |rest| == |list| - 1 && forall j | 0 <= j < |rest| :: rest[j] == list[Skip(k, j)]
  {}

  lemma DropRecent(list: seq<Node>, rest: seq<Node>, visited: map<nat, nat>, k: nat)
    requires Recent(list, visited) && k < |list| && |rest| == |list| - 1
    requires forall j | 0 <= j < |rest| :: rest[j] == list[Skip(k, j)]
    ensures Recent(rest, visited - {list[k].page}) && !InList(rest, list[k].page)
  {
    forall j | 0 <= j < |rest| ensures rest[j].page != list[k].page {
      var i := Skip(k, j);
      assert if i < k then visited[list[i].page] > visited[list[k].page] else visited[list[k].page] > visited[list[i].page];
    }
    forall i, j | 0 <= i < j < |rest| ensures visited[rest[i].page] > visited[rest[j].page] {
      assert Skip(k, i) < Skip(k, j);
    }
  }

  lemma DropPositioned(list: seq<Node>, rest: seq<Node>, order: map<nat, nat>, k: nat)
    requires Positioned(list, order) && k < |list| && |rest| == |list| - 1
    requires forall j | 0 <= j < |rest| :: rest[j] == list[Skip(k, j)]
    requires !InList(rest, list[k].page)
    ensures Positioned(rest, order - {list[k].page})
  {
    forall i, j | 0 <= i < j < |rest| ensures rest[i].id != rest[j].id {
      assert Skip(k, i) < Skip(k, j);
    }
    forall j | 0 <= j < |rest| ensures rest[j].page in order - {list[k].page} && order[rest[j].page] == rest[j].id {
      assert rest[j] == list[Skip(k, j)];
    }
    forall q | q in order - {list[k].page} ensures InList(rest, q) {
      assert InList(list, q);
      var i :| 0 <= i < |list| && list[i].page == q;
      assert rest[if i < k then i else i - 1].page == q;
    }
  }

  lemma ElementOf(list: seq<Node>, order: map<nat, nat>, p: nat) returns (k: nat)
    requires Positioned(list, order) && p in order
    ensures k < |list| && list[k].page == p && Without(list, order[p]) == list[..k] + list[k + 1..]
  {
    assert InList(list, p);
    k :| 0 <= k < |list| && list[k].page == p;
    WithoutAt(list, k);
  }

  /** Erasing the element of a page leaves a list in order without that page. */
  lemma DropKeeps(list: seq<Node>, order: map<nat, nat>, visited: map<nat, nat>, clock: nat, next: nat, p: nat)
    requires LruOk(list, order, visited, clock, next) && p in order
    ensures LruOk(Without(list, order[p]), order - {p}, visited - {p}, clock, next)
  {
    hide Positioned, Recent;
    var k := ElementOf(list, order, p);
    RestAt(list, k);
    var rest := list[..k] + list[k + 1..];
    DropRecent(list, rest, visited, k);
    DropPositioned(list, rest, order, k);
  }

  /** Putting a page that is not in the list at its head. */
  lemma PushKeeps(list: seq<Node>, order: map<nat, nat>, visited: map<nat, nat>, clock: nat, next: nat, p: nat)
    requires LruOk(list, order, visited, clock, next) && p !in order
    ensures LruOk([Node(next, p)] + list, order[p := next], visited[p := clock], clock + 1, next + 1)
  {
    var list' := [Node(next, p)] + list;
    forall q | q in order[p := next] ensures InList(list', q) {
      if q == p {
        assert list'[0].page == p;
      } else {
        var i :| 0 <= i < |list| && list[i].page == q;
        assert list'[i + 1].page == q;
      }
    }
  }

  /** The victim: the last of the list, visited before all others. */
  lemma LastIsOldest(list: seq<Node>, order: map<nat, nat>, visited: map<nat, nat>, clock: nat, next: nat)
    requires LruOk(list, order, visited, clock, next) && list != []
    ensures var victim := list[|list| - 1].page;
            victim in visited && forall p | p in visited && p != victim :: visited[victim] < visited[p]
  {
    var victim := list[|list| - 1].page;
    forall p | p in visited && p != victim ensures visited[victim] < visited[p] {
      var i :| 0 <= i < |list| && list[i].page == p;
    }
  }

  lemma DropLast(list: seq<Node>, order: map<nat, nat>, visited: map<nat, nat>, clock: nat, next: nat)
    requires LruOk(list, order, visited, clock, next) && list != []
    ensures var victim := list[|list| - 1].page;
            victim in order && LruOk(list[..|list| - 1], order - {victim}, visited - {victim}, clock, next)
  {
    var n := |list| - 1;
    DropKeeps(list, order, visited, clock, next, list[n].page);
    WithoutAt(list, n);
    assert list[..n] + list[n + 1..] == list[..n];
  }

  lemma SameLast(list: seq<Node>, order: map<nat, nat>, clock: nat, next: nat,
                 other: seq<Node>, order': map<nat, nat>, clock': nat, next': nat, visited: map<nat, nat>)
    requires LruOk(list, order, visited, clock, next) && LruOk(other, order', visited, clock', next') && list != []
    ensures other != [] && list[|list| - 1].page == other[|other| - 1].page
  {
    assert InList(other, list[|list| - 1].page);
    LastIsOldest(list, order, visited, clock, next);
    LastIsOldest(other, order', visited, clock', next');
  }

  /** The order of the pages in the list follows from the visits alone. */
  lemma {:induction false} OrderIsUnique(list: seq<Node>, order: map<nat, nat>, clock: nat, next: nat,
                                         other: seq<Node>, order': map<nat, nat>, clock': nat, next': nat, visited: map<nat, nat>)
    requires LruOk(list, order, visited, clock, next) && LruOk(other, order', visited, clock', next')
    ensures |list| == |other| && forall k | 0 <= k < |list| :: list[k].page == other[k].page
    decreases |list|
  {
    hide LruOk;
    if list != [] {
      SameLast(list, order, clock, next, other, order', clock', next', visited);
      DropLast(list, order, visited, clock, next);
      DropLast(other, order', visited, clock', next');
      var n, m := |list| - 1, |other| - 1;
      OrderIsUnique(list[..n], order - {list[n].page}, clock, next, other[..m], order' - {other[m].page}, clock', next', visited - {list[n].page});
      forall k | 0 <= k < n ensures list[k].page == other[k].page { assert list[..n][k] == list[k] && other[..m][k] == other[k]; }
    } else if other != [] {
      SameLast(other, order', clock', next', list, order, clock, next, visited);
    }
  }

  /* ---------------------------------------------------------------- who owns which page */

  /** A page is on the free list once and nobody's, or in the list and in the set of its one owner. */
  ghost predicate OwnOk(free: seq<nat>, owners: seq<Option<Inode>>, ownerPages: map<Inode, set<nat>>, listed: set<nat>) {
    && NoDuplicates(free)
    && (forall p | p in free :: p < |owners| && owners[p] == None)
    && (forall p: nat | p < |owners| && p !in free :: owners[p].Some? && Owns(ownerPages, owners[p].value, p))
    && (forall o: Inode, p: nat | Owns(ownerPages, o, p) :: p < |owners| && owners[p] == Some(o))
    && (forall p: nat :: p in listed <==> p < |owners| && p !in free)
  }

  ghost predicate Owns(ownerPages: map<Inode, set<nat>>, o: Inode, p: nat) {
    o in ownerPages && p in ownerPages[o]
  }

  /** `_update_owner_pages`: the page goes to its new owner, and an owner left without pages goes. */
  function Reassigned(ownerPages: map<Inode, set<nat>>, was: Option<Inode>, o: Inode, p: nat): map<Inode, set<nat>> {
    var left := if was.Some? && was.value != o && was.value in ownerPages then
                  (if ownerPages[was.value] - {p} == {} then ownerPages - {was.value}
                   else ownerPages[was.value := ownerPages[was.value] - {p}])
                else ownerPages;
    left[o := (if o in left then left[o] else {}) + {p}]
  }

  lemma TakeKeeps(free: seq<nat>, owners: seq<Option<Inode>>, ownerPages: map<Inode, set<nat>>, listed: set<nat>, o: Inode)
    requires OwnOk(free, owners, ownerPages, listed) && free != []
    ensures var n := |free| - 1;
            var p := free[n];
            && p < |owners| && p !in listed
            && OwnOk(free[..n], owners[p := Some(o)], Reassigned(ownerPages, owners[p], o, p), listed + {p})
  {
    var n := |free| - 1;
    var p, init := free[n], free[..n];
    assert p in free && p !in init;
    forall q | q in free && q != p ensures q in init {
      var k :| 0 <= k < |free| && free[k] == q;
      assert init[k] == q;
    }
    assert free == init + [p];
    var owners', pages' := owners[p := Some(o)], Reassigned(ownerPages, owners[p], o, p);
    forall i: Inode, q: nat ensures Owns(pages', i, q) <==> Owns(ownerPages, i, q) || (i == o && q == p) {}
    forall q: nat | q < |owners'| && q !in init ensures owners'[q].Some? && Owns(pages', owners'[q].value, q) {
      if q == p { assert Owns(pages', o, p); }
    }
    forall q | q in init ensures q < |owners'| && owners'[q] == None {
      assert q in free;
    }
  }

  lemma EvictKeeps(free: seq<nat>, owners: seq<Option<Inode>>, ownerPages: map<Inode, set<nat>>, listed: set<nat>, o: Inode, p: nat)
    requires OwnOk(free, owners, ownerPages, listed) && p in listed && p < |owners| && owners[p].Some?
    requires owners[p].value in ownerPages
    ensures var was := owners[p].value;
            OwnOk(free, owners[p := Some(o)], Reassigned(ownerPages[was := ownerPages[was] - {p}], owners[p], o, p), listed)
  {
    var was := owners[p].value;
    var left := ownerPages[was := ownerPages[was] - {p}];
    var owners', pages' := owners[p := Some(o)], Reassigned(left, owners[p], o, p);
    forall i: Inode, q: nat ensures Owns(pages', i, q) <==> (Owns(ownerPages, i, q) && q != p) || (i == o && q == p) {
      if Owns(ownerPages, i, p) { assert owners[p] == Some(i); }
    }
  }

  /** One page of an owner going back to the free list. */
  lemma GiveBackKeeps(free: seq<nat>, owners: seq<Option<Inode>>, ownerPages: map<Inode, set<nat>>, listed: set<nat>, o: Inode, p: nat)
    requires OwnOk(free, owners, ownerPages, listed) && Owns(ownerPages, o, p)
    ensures p < |owners| && p in listed && OwnOk(free + [p], owners[p := None], ownerPages[o := ownerPages[o] - {p}], listed - {p})
  {
    assert owners[p] == Some(o);
    var pages' := ownerPages[o := ownerPages[o] - {p}];
    forall i: Inode, q: nat ensures Owns(pages', i, q) <==> Owns(ownerPages, i, q) && q != p {
      if Owns(ownerPages, i, q) && q == p { assert owners[p] == Some(i); }
    }
  }

  /* ---------------------------------------------------------------- the engine, as far as replacement goes */

  lemma ListedNotEmpty(list: seq<Node>, order: map<nat, nat>, visited: map<nat, nat>, clock: nat, next: nat, p: nat)
    requires LruOk(list, order, visited, clock, next) && p in order
    ensures list != []
  {
    assert InList(list, p);
  }

  /** An owner with no page left may go. */
  lemma EmptyOwner(free: seq<nat>, owners: seq<Option<Inode>>, ownerPages: map<Inode, set<nat>>, listed: set<nat>, o: Inode)
    requires OwnOk(free, owners, ownerPages, listed) && o in ownerPages && ownerPages[o] == {}
    ensures OwnOk(free, owners, ownerPages - {o}, listed)
  {
    forall i: Inode, q: nat ensures Owns(ownerPages - {o}, i, q) <==> Owns(ownerPages, i, q) {}
  }

  lemma OwnedPages(free: seq<nat>, owners: seq<Option<Inode>>, ownerPages: map<Inode, set<nat>>, listed: set<nat>, o: Inode, p: nat)
    requires OwnOk(free, owners, ownerPages, listed)
    ensures Owns(ownerPages, o, p) <==> p < |owners| && owners[p] == Some(o)
  {}

  lemma ListedFit(order: map<nat, nat>, n: nat)
    requires forall p | p in order :: p < n
    ensures |order| <= n
  {
    assert Below(n) == order.Keys + (Below(n) - order.Keys);
    assert |order| == |order.Keys|;
  }

  lemma ListedBelow(free: seq<nat>, owners: seq<Option<Inode>>, ownerPages: map<Inode, set<nat>>, listed: set<nat>)
    requires OwnOk(free, owners, ownerPages, listed)
    ensures forall p | p in listed :: p < |owners|
    ensures forall p | p in free :: p < |owners| && p !in listed
  {}

  lemma OwnedListed(free: seq<nat>, owners: seq<Option<Inode>>, ownerPages: map<Inode, set<nat>>, listed: set<nat>, p: nat)
    requires OwnOk(free, owners, ownerPages, listed) && p < |owners| && owners[p].Some?
    ensures p in listed && listed + {p} == listed
  {}

  class LruEngine {
    const nrPages: nat
    var freePages: seq<nat>
    var owners: seq<Option<Inode>>
    var pageBlocks: seq<Option<nat>>
    var ownerPages: map<Inode, set<nat>>
    var lru: seq<Node>
    var order: map<nat, nat>
    var nextId: nat

    // When each listed page was last allocated or read, and what comes next.
    ghost var visited: map<nat, nat>
    ghost var clock: nat

    ghost predicate Valid()
      reads this
    {
      && |owners| == nrPages && |pageBlocks| == nrPages
      && OwnOk(freePages, owners, ownerPages, order.Keys)
      && LruOk(lru, order, visited, clock, nextId)
    }

    constructor (nrPages: nat)
      ensures Valid() && this.nrPages == nrPages && visited == map[]
      ensures owners == seq(nrPages, _ => None) && pageBlocks == seq(nrPages, _ => None)
    {
      this.nrPages := nrPages;
      freePages := seq(nrPages, i => i);
      owners, pageBlocks := seq(nrPages, _ => None), seq(nrPages, _ => None);
      ownerPages, lru, order, nextId := map[], [], map[], 0;
      visited, clock := map[], 0;
      new;
      forall p: nat | p < nrPages ensures p in freePages { assert freePages[p] == p; }
    }

    predicate HoldsBlock(o: Inode, b: nat, pageId: int)
      reads this
    {
      0 <= pageId < |owners| && pageId < |pageBlocks| && owners[pageId] == Some(o) && pageBlocks[pageId] == Some(b)
    }

    method Push(p: nat)
      requires LruOk(lru, order, visited, clock, nextId) && p !in order
      modifies this`lru, this`order, this`nextId, this`visited, this`clock
      ensures LruOk(lru, order, visited, clock, nextId)
      ensures order.Keys == old(order).Keys + {p} && visited == old(visited)[p := old(clock)] && clock == old(clock) + 1 && lru[1..] == old(lru) && |lru| > 0
    {
      PushKeeps(lru, order, visited, clock, nextId, p);
      lru := [Node(nextId, p)] + lru;
      order := order[p := nextId];
      visited, clock, nextId := visited[p := clock], clock + 1, nextId + 1;
    }

    method Erase(p: nat)
      requires LruOk(lru, order, visited, clock, nextId) && p in order
      modifies this`lru, this`order, this`visited
      ensures LruOk(lru, order, visited, clock, nextId)
      ensures order == old(order) - {p} && visited == old(visited) - {p}
    {
      DropKeeps(lru, order, visited, clock, nextId, p);
      lru := Without(lru, order[p]);
      order, visited := order - {p}, visited - {p};
    }

    /** A page was allocated. The list never outgrows the pool, so nothing falls off its end. */
    method VisitOnWrite(p: nat)
      requires LruOk(lru, order, visited, clock, nextId) && p < nrPages && forall q | q in order :: q < nrPages
      modifies this`lru, this`order, this`nextId, this`visited, this`clock
      ensures LruOk(lru, order, visited, clock, nextId)
      ensures order.Keys == old(order).Keys + {p} && visited == old(visited)[p := old(clock)] && clock == old(clock) + 1
    {
      hide LruOk;
      if p !in order {
        Push(p);
        ListedFit(order, nrPages);
        if |order| > nrPages {
          assert false;
        }
      } else {
        Erase(p);
        Push(p);
      }
    }

    /** A page was read. */
    method VisitOnRead(p: nat)
      requires LruOk(lru, order, visited, clock, nextId)
      modifies this`lru, this`order, this`nextId, this`visited, this`clock
      ensures LruOk(lru, order, visited, clock, nextId)
      ensures order.Keys == old(order).Keys + {p} && visited == old(visited)[p := old(clock)] && clock == old(clock) + 1
    {
      hide LruOk;
      if p in order {
        Erase(p);
      }
      Push(p);
    }

    /** A free page, or else the page at the end of the list, taken from its owner. */
    method GetNextFreePage() returns (p: nat)
      requires Valid() && nrPages > 0
      modifies this`freePages, this`ownerPages, this`pageBlocks
      ensures p < nrPages && |pageBlocks| == nrPages && forall q | 0 <= q < nrPages && q != p :: pageBlocks[q] == old(pageBlocks)[q]
      ensures old(freePages) != [] ==>
                p == old(freePages)[|old(freePages)| - 1] && freePages == old(freePages)[..|old(freePages)| - 1] && ownerPages == old(ownerPages)
      ensures old(freePages) == [] ==>
                && freePages == [] && p in order && p in visited && owners[p].Some? && owners[p].value in old(ownerPages)
                && ownerPages == old(ownerPages)[owners[p].value := old(ownerPages)[owners[p].value] - {p}]
                && forall q | q in visited && q != p :: visited[p] < visited[q]
    {
      hide Positioned, Recent;
      if |freePages| > 0 {
        assert freePages[|freePages| - 1] in freePages;
        p := freePages[|freePages| - 1];
        freePages := freePages[..|freePages| - 1];
      } else {
        assert 0 in order;
        ListedNotEmpty(lru, order, visited, clock, nextId, 0);
        LastIsOldest(lru, order, visited, clock, nextId);
        p := lru[|lru| - 1].page;
        assert Owns(ownerPages, owners[p].value, p);
        if owners[p].Some? && owners[p].value in ownerPages {
          ownerPages := ownerPages[owners[p].value := ownerPages[owners[p].value] - {p}];
        }
        pageBlocks := pageBlocks[p := None];
      }
    }

    /** allocate_blocks, for one block: in place when the page asked for holds it; otherwise a page is
        always found, and if it is taken from someone it is the one visited longest ago. */
    method AllocateBlock(o: Inode, b: nat, pageId: int) returns (page: nat)
      requires Valid() && nrPages > 0
      modifies this
      ensures Valid() && HoldsBlock(o, b, page)
      ensures old(HoldsBlock(o, b, pageId)) ==>
                page == pageId && visited == old(visited) && clock == old(clock) && lru == old(lru) && owners == old(owners) && freePages == old(freePages)
                && ownerPages == old(ownerPages) && pageBlocks == old(pageBlocks)
      ensures !old(HoldsBlock(o, b, pageId)) ==>
                && visited == old(visited)[page := old(clock)] && owners == old(owners)[page := Some(o)]
                && clock == old(clock) + 1
                && (forall q | 0 <= q < nrPages && q != page :: pageBlocks[q] == old(pageBlocks)[q])
                && if old(freePages) != [] then page in old(freePages)
                   else page in old(visited) && forall q | q in old(visited) && q != page :: old(visited)[page] < old(visited)[q]
    {
      hide OwnOk, LruOk, Reassigned;
      if HoldsBlock(o, b, pageId) {
        return pageId;
      }
      ghost var free0, pages0 := freePages, ownerPages;
      ListedBelow(free0, owners, pages0, order.Keys);
      page := GetNextFreePage();
      if free0 != [] {
        TakeKeeps(free0, owners, pages0, order.Keys, o);
      } else {
        EvictKeeps(free0, owners, pages0, order.Keys, o, page);
        assert order.Keys + {page} == order.Keys;
      }
      pageBlocks := pageBlocks[page := Some(b)];
      VisitOnWrite(page);
      ownerPages := Reassigned(ownerPages, owners[page], o, page);
      owners := owners[page := Some(o)];
    }

    /** get_blocks, for one block: only a hit counts as a visit. */
    method GetBlock(o: Inode, b: nat, pageId: int) returns (found: bool)
      requires Valid()
      modifies this`lru, this`order, this`nextId, this`visited, this`clock
      ensures Valid() && found == HoldsBlock(o, b, pageId)
      ensures visited == if found then old(visited)[pageId := old(clock)] else old(visited)
      ensures clock == if found then old(clock) + 1 else old(clock)
    {
      hide OwnOk, LruOk;
      found := HoldsBlock(o, b, pageId);
      if found {
        OwnedListed(freePages, owners, ownerPages, order.Keys, pageId);
        VisitOnRead(pageId);
      }
    }

    method GiveBack(o: Inode, p: nat)
      requires Valid() && Owns(ownerPages, o, p)
      modifies this
      ensures Valid() && p < nrPages && owners == old(owners)[p := None] && visited == old(visited) - {p} && clock == old(clock)
      ensures ownerPages == old(ownerPages)[o := old(ownerPages)[o] - {p}] && pageBlocks == old(pageBlocks)[p := None]
    {
      hide OwnOk, LruOk;
      GiveBackKeeps(freePages, owners, ownerPages, order.Keys, o, p);
      freePages := freePages + [p];
      Erase(p);
      pageBlocks, owners := pageBlocks[p := None], owners[p := None];
      ownerPages := ownerPages[o := ownerPages[o] - {p}];
    }

    /** remove_cached_blocks: the owner's pages leave the list and are free and empty again; the rest stays
        as it is, in the same order. */
    method RemoveCachedBlocks(o: Inode)
      requires Valid()
      modifies this
      ensures Valid() && o !in ownerPages && clock == old(clock)
      ensures forall p | 0 <= p < nrPages :: owners[p] == if old(owners)[p] == Some(o) then None else old(owners)[p]
      ensures forall p | 0 <= p < nrPages :: pageBlocks[p] == if old(owners)[p] == Some(o) then None else old(pageBlocks)[p]
      ensures visited == old(visited) - (if o in old(ownerPages) then old(ownerPages)[o] else {})
    {
      hide OwnOk, LruOk;
      ghost var owners0, blocks0, visited0 := owners, pageBlocks, visited;
      forall p: nat ensures Owns(ownerPages, o, p) <==> p < |owners| && owners[p] == Some(o) {
        OwnedPages(freePages, owners, ownerPages, order.Keys, o, p);
      }
      if o in ownerPages {
        var pages := ownerPages[o];
        var todo := pages;
        while todo != {}
          invariant Valid() && clock == old(clock) && todo <= pages && o in ownerPages && ownerPages[o] == todo
          invariant visited == visited0 - (pages - todo)
          invariant forall p | 0 <= p < nrPages :: owners[p] == if p in pages && p !in todo then None else owners0[p]
          invariant forall p | 0 <= p < nrPages :: pageBlocks[p] == if p in pages && p !in todo then None else blocks0[p]
          decreases todo
        {
          var p :| p in todo;
          GiveBack(o, p);
          todo := todo - {p};
        }
        EmptyOwner(freePages, owners, ownerPages, order.Keys, o);
        ownerPages := ownerPages - {o};
        assert forall p: nat | p < nrPages :: p in pages <==> Owns(old(ownerPages), o, p);
      }
    }
  }

  /* ---------------------------------------------------------------- runs */

  datatype Call = Allocate(owner: Inode, block: nat, pageId: int) | Fetch(owner: Inode, block: nat, pageId: int) | Remove(owner: Inode)

  /** What a call did to the pages: visited one, freed some, or neither. */
  datatype Mark = Visited(page: nat) | Freed(pages: set<nat>) | Untouched

  /** Who owns each page, and the block in it. */
  datatype Pool = Pool(owners: seq<Option<Inode>>, blocks: seq<Option<nat>>)

  /** When the page was last visited, if it was and has not been freed since. */
  ghost function LastVisit(marks: seq<Mark>, p: nat): (r: Option<nat>)
    ensures r.Some? ==> r.value < |marks|
  {
    if marks == [] then None else
      var k := |marks| - 1;
      Marked(LastVisit(marks[..k], p), marks[k], k, p)
  }

  ghost function Marked(last: Option<nat>, mark: Mark, k: nat, p: nat): Option<nat> {
    if mark.Visited? && mark.page == p then Some(k)
    else if mark.Freed? && p in mark.pages then None
    else last
  }

  ghost predicate In(s: Pool, o: Inode, b: nat, pageId: int) {
    0 <= pageId < |s.owners| && pageId < |s.blocks| && s.owners[pageId] == Some(o) && s.blocks[pageId] == Some(b)
  }

  ghost function OwnedBy(s: Pool, o: Inode): (r: set<nat>)
    ensures forall p: nat :: p in r <==> p < |s.owners| && s.owners[p] == Some(o)
  {
    set p: nat | p < |s.owners| && s.owners[p] == Some(o)
  }

  /** The page is free, or no page is and every other was visited after it. */
  ghost predicate Replaceable(s: Pool, marks: seq<Mark>, page: nat) {
    page < |s.owners|
    && if s.owners[page] == None then true
       else forall q: nat | q < |s.owners| && q != page ::
              s.owners[q].Some? && LastVisit(marks, page).Some? && LastVisit(marks, q).Some?
              && LastVisit(marks, page).value < LastVisit(marks, q).value
  }

  /** One call by the book: a hit is a visit of the page and changes nothing; a block that is nowhere takes a
      page that may be replaced; a removal frees exactly the pages of the owner. */
  ghost predicate LruStep(s: Pool, marks: seq<Mark>, call: Call, s': Pool, mark: Mark) {
    && |s'.owners| == |s.owners| && |s'.blocks| == |s.blocks|
    && match call
       case Allocate(o, b, pageId) =>
         if In(s, o, b, pageId) then mark == Untouched && s' == s
         else mark.Visited? && Replaceable(s, marks, mark.page) && mark.page < |s.blocks|
              && s' == Pool(s.owners[mark.page := Some(o)], s.blocks[mark.page := Some(b)])
       case Fetch(o, b, pageId) => s' == s && mark == if In(s, o, b, pageId) then Visited(pageId) else Untouched
       case Remove(o) =>
         && mark == Freed(OwnedBy(s, o))
         && forall p | 0 <= p < |s.owners| && p < |s.blocks| ::
              (s'.owners[p], s'.blocks[p]) == if s.owners[p] == Some(o) then (None, None) else (s.owners[p], s.blocks[p])
  }

  /** The page a call answers: the one asked for if it holds the block; otherwise a fetch finds none, and an
      allocation answers the page it took. */
  ghost predicate Found(s: Pool, call: Call, page: int, mark: Mark)
    requires !call.Remove?
  {
    if In(s, call.owner, call.block, call.pageId) then page == call.pageId
    else if call.Fetch? then page == -1
    else mark.Visited? && page == mark.page
  }

  /** The engine's visits are those of the trace, in the same order. */
  ghost predicate Tracks(visited: map<nat, nat>, clock: nat, marks: seq<Mark>) {
    && (forall p: nat :: p in visited <==> LastVisit(marks, p).Some?)
    && (forall p | p in visited :: visited[p] < clock)
    && forall p, q | p in visited && q in visited :: visited[p] < visited[q] <==> LastVisit(marks, p).value < LastVisit(marks, q).value
  }

  /** The list holds the pages in use, from the last visited to the first. */
  ghost predicate LatestFirst(list: seq<Node>, marks: seq<Mark>) {
    && (forall p: nat :: InList(list, p) <==> LastVisit(marks, p).Some?)
    && forall j, k | 0 <= j < k < |list| ::
         LastVisit(marks, list[j].page).Some? && LastVisit(marks, list[k].page).Some?
         && LastVisit(marks, list[j].page).value > LastVisit(marks, list[k].page).value
  }

  lemma LastVisitMore(marks: seq<Mark>, mark: Mark, p: nat)
    ensures LastVisit(marks + [mark], p) == Marked(LastVisit(marks, p), mark, |marks|, p)
  {
    assert (marks + [mark])[..|marks|] == marks;
  }

  lemma TracksMore(visited: map<nat, nat>, clock: nat, marks: seq<Mark>, mark: Mark)
    requires Tracks(visited, clock, marks)
    ensures mark.Visited? ==> Tracks(visited[mark.page := clock], clock + 1, marks + [mark])
    ensures mark.Freed? ==> Tracks(visited - mark.pages, clock, marks + [mark])
    ensures mark.Untouched? ==> Tracks(visited, clock, marks + [mark])
  {
    forall p: nat ensures LastVisit(marks + [mark], p) == Marked(LastVisit(marks, p), mark, |marks|, p) {
      LastVisitMore(marks, mark, p);
    }
  }

  ghost function PoolOf(e: LruEngine): Pool
    reads e
  {
    Pool(e.owners, e.pageBlocks)
  }

  /** The owned pages are the visited ones. */
  lemma OwnedVisited(e: LruEngine)
    requires e.Valid()
    ensures forall p: nat | p < e.nrPages :: e.owners[p].Some? <==> p in e.visited
    ensures forall p | p in e.visited :: p < e.nrPages
    ensures forall p | p in e.freePages :: p < e.nrPages && p !in e.visited
    ensures e.freePages == [] ==> forall p: nat | p < e.nrPages :: p in e.visited
  {
    ListedBelow(e.freePages, e.owners, e.ownerPages, e.order.Keys);
    forall p: nat | p < e.nrPages ensures e.owners[p].Some? <==> p in e.visited {
      assert p in e.order.Keys <==> p !in e.freePages;
    }
  }

  method Perform(e: LruEngine, call: Call, ghost marks: seq<Mark>) returns (page: int, ghost mark: Mark)
    requires e.Valid() && e.nrPages > 0 && Tracks(e.visited, e.clock, marks)
    modifies e
    ensures e.Valid() && Tracks(e.visited, e.clock, marks + [mark])
    ensures LruStep(old(PoolOf(e)), marks, call, PoolOf(e), mark)
    ensures !call.Remove? ==> Found(old(PoolOf(e)), call, page, mark)
    ensures call.Allocate? ==> 0 <= page < e.nrPages && In(PoolOf(e), call.owner, call.block, page)
  {
    hide LruOk, OwnOk, Tracks, LruStep;
    page := -1;
    match call {
      case Allocate(o, b, pageId) =>
        page, mark := PerformAllocate(e, o, b, pageId, marks);
      case Fetch(o, b, pageId) =>
        page, mark := PerformFetch(e, o, b, pageId, marks);
      case Remove(o) =>
        mark := PerformRemove(e, o, marks);
    }
  }

  lemma RemovedVisits(e: LruEngine, o: Inode)
    requires e.Valid()
    ensures (if o in e.ownerPages then e.ownerPages[o] else {}) == OwnedBy(PoolOf(e), o)
  {
    forall p: nat ensures Owns(e.ownerPages, o, p) <==> p in OwnedBy(PoolOf(e), o) {
      OwnedPages(e.freePages, e.owners, e.ownerPages, e.order.Keys, o, p);
    }
  }

  method PerformAllocate(e: LruEngine, o: Inode, b: nat, pageId: int, ghost marks: seq<Mark>) returns (page: nat, ghost mark: Mark)
    requires e.Valid() && e.nrPages > 0 && Tracks(e.visited, e.clock, marks)
    modifies e
    ensures e.Valid() && Tracks(e.visited, e.clock, marks + [mark])
    ensures LruStep(old(PoolOf(e)), marks, Allocate(o, b, pageId), PoolOf(e), mark)
    ensures Found(old(PoolOf(e)), Allocate(o, b, pageId), page, mark)
    ensures page < e.nrPages && In(PoolOf(e), o, b, page)
  {
    hide LruOk, OwnOk, Tracks;
    ghost var s, visited, clock := PoolOf(e), e.visited, e.clock;
    OwnedVisited(e);
    page := e.AllocateBlock(o, b, pageId);
    mark := if In(s, o, b, pageId) then Untouched else Visited(page);
    TracksMore(visited, clock, marks, mark);
    if mark.Visited? { OldestReplaceable(s, visited, clock, marks, page); }
  }

  lemma OldestReplaceable(s: Pool, visited: map<nat, nat>, clock: nat, marks: seq<Mark>, page: nat)
    requires Tracks(visited, clock, marks) && page < |s.owners|
    requires forall q: nat | q < |s.owners| :: s.owners[q].Some? <==> q in visited
    requires page in visited ==> forall q: nat | q < |s.owners| && q != page :: q in visited && visited[page] < visited[q]
    ensures Replaceable(s, marks, page)
  {}

  method PerformFetch(e: LruEngine, o: Inode, b: nat, pageId: int, ghost marks: seq<Mark>) returns (page: int, ghost mark: Mark)
    requires e.Valid() && Tracks(e.visited, e.clock, marks)
    modifies e`lru, e`order, e`nextId, e`visited, e`clock
    ensures e.Valid() && Tracks(e.visited, e.clock, marks + [mark])
    ensures LruStep(old(PoolOf(e)), marks, Fetch(o, b, pageId), PoolOf(e), mark)
    ensures Found(old(PoolOf(e)), Fetch(o, b, pageId), page, mark)
  {
    hide LruOk, OwnOk, Tracks;
    ghost var visited, clock := e.visited, e.clock;
    var found := e.GetBlock(o, b, pageId);
    mark := if found then Visited(pageId) else Untouched;
    page := if found then pageId else -1;
    TracksMore(visited, clock, marks, mark);
  }

  method PerformRemove(e: LruEngine, o: Inode, ghost marks: seq<Mark>) returns (ghost mark: Mark)
    requires e.Valid() && Tracks(e.visited, e.clock, marks)
    modifies e
    ensures e.Valid() && Tracks(e.visited, e.clock, marks + [mark])
    ensures LruStep(old(PoolOf(e)), marks, Remove(o), PoolOf(e), mark)
  {
    hide LruOk, OwnOk, Tracks;
    ghost var s, visited, clock := PoolOf(e), e.visited, e.clock;
    RemovedVisits(e, o);
    e.RemoveCachedBlocks(o);
    mark := Freed(OwnedBy(s, o));
    TracksMore(visited, clock, marks, mark);
  }

  /** Any run of allocations, reads and removals: each call is by the book, the list is the pages in use from the
      last visited to the first, and a page is always found. */
  method DriveLru(nrPages: nat, calls: seq<Call>) returns (e: LruEngine, pages: seq<int>, ghost pools: seq<Pool>, ghost marks: seq<Mark>)
    requires nrPages > 0
    ensures e.Valid() && |pages| == |calls| && |marks| == |calls| && |pools| == |calls| + 1 && pools[|calls|] == PoolOf(e)
    ensures pools[0] == Pool(seq(nrPages, _ => None), seq(nrPages, _ => None))
    ensures forall k | 0 <= k < |calls| :: LruStep(pools[k], marks[..k], calls[k], pools[k + 1], marks[k])
    ensures forall k | 0 <= k < |calls| && calls[k].Allocate? ::
              0 <= pages[k] < nrPages && In(pools[k + 1], calls[k].owner, calls[k].block, pages[k])
    ensures forall k | 0 <= k < |calls| && !calls[k].Remove? :: Found(pools[k], calls[k], pages[k], marks[k])
    ensures LatestFirst(e.lru, marks)
  {
    hide LruOk, OwnOk, LruStep, Tracks, In, LatestFirst;
    e := new LruEngine(nrPages);
    NothingVisited(e.clock);
    pages, pools, marks := [], [PoolOf(e)], [];
    for i := 0 to |calls|
      invariant fresh(e) && e.Valid() && e.nrPages == nrPages && |pages| == i && |marks| == i && |pools| == i + 1
      invariant pools[i] == PoolOf(e) && pools[0] == Pool(seq(nrPages, _ => None), seq(nrPages, _ => None))
      invariant Tracks(e.visited, e.clock, marks)
      invariant forall k | 0 <= k < i :: LruStep(pools[k], marks[..k], calls[k], pools[k + 1], marks[k])
      invariant forall k | 0 <= k < i && calls[k].Allocate? ::
                  0 <= pages[k] < nrPages && In(pools[k + 1], calls[k].owner, calls[k].block, pages[k])
      invariant forall k | 0 <= k < i && !calls[k].Remove? :: Found(pools[k], calls[k], pages[k], marks[k])
    {
      ghost var mark;
      var page;
      page, mark := Perform(e, calls[i], marks);
      assert forall k | 0 <= k <= i :: (marks + [mark])[..k] == marks[..k];
      pages, pools, marks := pages + [page], pools + [PoolOf(e)], marks + [mark];
    }
    Listing(e, marks);
  }

  lemma NothingVisited(clock: nat)
    ensures Tracks(map[], clock, [])
  {}

  lemma Listing(e: LruEngine, marks: seq<Mark>)
    requires e.Valid() && Tracks(e.visited, e.clock, marks)
    ensures LatestFirst(e.lru, marks)
  {
    hide OwnOk;
    forall p: nat ensures InList(e.lru, p) <==> p in e.visited {
      if InList(e.lru, p) {
        var k :| 0 <= k < |e.lru| && e.lru[k].page == p;
      }
    }
    forall j, k | 0 <= j < k < |e.lru| ensures e.lru[j].page in e.visited && e.lru[k].page in e.visited && e.visited[e.lru[j].page] > e.visited[e.lru[k].page] {}
  }
}
