/** Hard links: the cached link count and the names of an inode, over link, unlink and rename. */
module Links {
  import opened Posix
  import opened Overlay
  import opened Slots
  import opened Disks
  import opened EngineStates
  import opened Engine
  import opened Items
  import opened CacheStates
  import opened Caches

  /** The names that reach an inode. */
  function NamesOf(names: map<Path, Inode>, i: Inode): set<Path> {
    set p | p in names && names[p] == i
  }

  /** The cache knows no name that is gone, and counts the names of each inode it has an item for. */
  ghost predicate Linked(items: map<Inode, ItemState>, mapping: map<Path, Inode>, names: map<Path, Inode>) {
    && (forall p | p in mapping :: p in names && mapping[p] == names[p])
    && (forall i | i in items :: Counts(items, names, i))
  }

  ghost predicate Counts(items: map<Inode, ItemState>, names: map<Path, Inode>, i: Inode)
    requires i in items
  {
    items[i].meta.nlinks == |NamesOf(names, i)| && items[i].meta.nlinks >= 1
  }

  lemma NameAdded(names: map<Path, Inode>, p: Path, i: Inode, j: Inode)
    requires p !in names
    ensures NamesOf(names[p := i], j) == NamesOf(names, j) + (if j == i then {p} else {}) && p !in NamesOf(names, j)
    ensures |NamesOf(names[p := i], j)| == |NamesOf(names, j)| + if j == i then 1 else 0
  {
    assert NamesOf(names[p := i], j) == NamesOf(names, j) + (if j == i then {p} else {});
  }

  lemma NameGone(names: map<Path, Inode>, p: Path, j: Inode)
    requires p in names
    ensures |NamesOf(names - {p}, j)| == |NamesOf(names, j)| - if j == names[p] then 1 else 0
  {
    assert NamesOf(names - {p}, j) == NamesOf(names, j) - {p};
    assert p in NamesOf(names, names[p]);
  }

  /** A rename takes a name from one inode to another name, and a name from who had that. */
  lemma NameMoved(names: map<Path, Inode>, from: Path, to: Path, j: Inode)
    requires from in names && from != to
    ensures |NamesOf((names - {from})[to := names[from]], j)| ==
            |NamesOf(names, j)| - if to in names && j == names[to] then 1 else 0
  {
    var rest := names - {from};
    NameGone(names, from, j);
    if to in names {
      NameGone(rest, to, j);
      assert (rest - {to})[to := names[from]] == rest[to := names[from]];
      NameAdded(rest - {to}, to, names[from], j);
    } else {
      NameAdded(rest, to, names[from], j);
    }
  }

  /* ---------------------------------------------------------------- what each call does to the counts */

  lemma LinkedAt(items: map<Inode, ItemState>, mapping: map<Path, Inode>, names: map<Path, Inode>, p: Path)
    requires Linked(items, mapping, names) && p in mapping
    ensures p in names && mapping[p] == names[p]
    ensures mapping[p] in items ==> Counts(items, names, mapping[p])
  {}

  lemma LinkedNamed(items: map<Inode, ItemState>, mapping: map<Path, Inode>, names: map<Path, Inode>, p: Path)
    requires Linked(items, mapping, names) && p in names
    ensures Linked(items, mapping[p := names[p]], names)
  {}

  lemma LinkedNew(items: map<Inode, ItemState>, items': map<Inode, ItemState>, mapping: map<Path, Inode>, names: map<Path, Inode>, p: Path)
    requires Linked(items, mapping, names) && p in names && items'.Keys == items.Keys + {names[p]}
    requires forall j | j in items && j != names[p] :: items'[j].meta == items[j].meta
    requires items'[names[p]].meta.nlinks == |NamesOf(names, names[p])|
    ensures Linked(items', mapping, names)
  {
    assert p in NamesOf(names, names[p]);
    forall j | j in items' ensures Counts(items', names, j) {
      if j != names[p] { assert Counts(items, names, j); }
    }
  }

  function WithCount(items: map<Inode, ItemState>, i: Inode, count: nat): map<Inode, ItemState>
    requires i in items
  {
    items[i := items[i].(meta := Metadata(items[i].meta.size, count))]
  }

  /** What taking one name from an inode that has an item leaves of the items. */
  function Discounted(items: map<Inode, ItemState>, i: Inode): map<Inode, ItemState>
    requires i in items
  {
    if items[i].meta.nlinks <= 1 then items - {i} else WithCount(items, i, items[i].meta.nlinks - 1)
  }

  /** The name is known to the cache, and so is the item it led to when it was looked up. */
  predicate Found(items: map<Inode, ItemState>, mapping: map<Path, Inode>, p: Path) {
    p in mapping && mapping[p] in items
  }

  function LinkedItems(items: map<Inode, ItemState>, mapping: map<Path, Inode>, from: Path): map<Inode, ItemState> {
    if Found(items, mapping, from) then WithCount(items, mapping[from], items[mapping[from]].meta.nlinks + 1) else items
  }

  function LinkedMapping(mapping: map<Path, Inode>, from: Path, to: Path): map<Path, Inode> {
    if from in mapping then mapping[to := mapping[from]] else mapping
  }

  /** The items once name `p` is taken from who has it, as far as the cache knows. */
  function UnlinkedItems(items: map<Inode, ItemState>, mapping: map<Path, Inode>, p: Path): map<Inode, ItemState> {
    if Found(items, mapping, p) then Discounted(items, mapping[p]) else items
  }

  function UnlinkedMapping(items: map<Inode, ItemState>, mapping: map<Path, Inode>, p: Path): map<Path, Inode> {
    if Found(items, mapping, p) then mapping - {p} else mapping
  }

  function MovedMapping(mapping: map<Path, Inode>, from: Path, to: Path): map<Path, Inode> {
    if from in mapping then (mapping - {from})[to := mapping[from]] else mapping
  }

  /** The items once `from` is renamed to `to`: of a name the cache does not know, nothing changes. */
  function MovedItems(items: map<Inode, ItemState>, mapping: map<Path, Inode>, from: Path, to: Path): map<Inode, ItemState> {
    if from in mapping then UnlinkedItems(items, mapping, to) else items
  }

  /** rename of the file system: between names of one file it does nothing. */
  function MovedNames(names: map<Path, Inode>, from: Path, to: Path): map<Path, Inode> {
    if from !in names || (to in names && names[to] == names[from]) then names else (names - {from})[to := names[from]]
  }

  /** A link leaves counts and names in step exactly when the cache knows the old name, or no item counts. */
  lemma LinkedLink(items: map<Inode, ItemState>, mapping: map<Path, Inode>, names: map<Path, Inode>, from: Path, to: Path)
    requires Linked(items, mapping, names) && from in names && to !in names
    ensures Linked(LinkedItems(items, mapping, from), LinkedMapping(mapping, from, to), names[to := names[from]])
            <==> from in mapping || names[from] !in items
  {
    var items', names' := LinkedItems(items, mapping, from), names[to := names[from]];
    forall j | j in items ensures |NamesOf(names', j)| == items[j].meta.nlinks + (if j == names[from] then 1 else 0) && items[j].meta.nlinks >= 1 {
      assert Counts(items, names, j);
      NameAdded(names, to, names[from], j);
    }
    if from !in mapping && names[from] in items { assert !Counts(items', names', names[from]); }
    if from in mapping || names[from] !in items {
      forall j | j in items' ensures Counts(items', names', j) {}
    }
  }

  /** So does an unlink exactly when the name was found in the cache, or no item counts it and the cache
      does not know it either. */
  lemma LinkedUnlink(items: map<Inode, ItemState>, mapping: map<Path, Inode>, names: map<Path, Inode>, p: Path)
    requires Linked(items, mapping, names) && p in names
    ensures Linked(UnlinkedItems(items, mapping, p), UnlinkedMapping(items, mapping, p), names - {p})
            <==> (p in mapping <==> names[p] in items)
    ensures names[p] in items && p in mapping ==> (names[p] !in UnlinkedItems(items, mapping, p) <==> NamesOf(names - {p}, names[p]) == {})
  {
    var items', mapping', names' := UnlinkedItems(items, mapping, p), UnlinkedMapping(items, mapping, p), names - {p};
    forall j | j in items ensures |NamesOf(names', j)| == items[j].meta.nlinks - (if j == names[p] then 1 else 0) && items[j].meta.nlinks >= 1 {
      assert Counts(items, names, j);
      NameGone(names, p, j);
    }
    if p !in mapping && names[p] in items { assert !Counts(items', names', names[p]); }
    if p in mapping && names[p] !in items { assert p in mapping'; }
    if p in mapping <==> names[p] in items {
      forall j | j in items' ensures Counts(items', names', j) {}
    }
  }

  /** When a rename leaves counts and names in step. A name of another file that is replaced must be known
      to the cache, or counted by no item, and not known either when the cache does not know the old name; a
      name of the same file must not be taken, for it stays. */
  predicate RenameSafe(items: map<Inode, ItemState>, mapping: map<Path, Inode>, names: map<Path, Inode>, from: Path, to: Path)
    requires from in names
  {
    to !in names ||
    if names[to] == names[from] then !(from in mapping && Found(items, mapping, to) && items[mapping[to]].meta.nlinks > 1)
    else if from in mapping then to in mapping || names[to] !in items
    else to !in mapping && names[to] !in items
  }

  lemma LinkedRename(items: map<Inode, ItemState>, mapping: map<Path, Inode>, names: map<Path, Inode>, from: Path, to: Path)
    requires Linked(items, mapping, names) && from in names
    ensures Linked(MovedItems(items, mapping, from, to), MovedMapping(mapping, from, to), MovedNames(names, from, to))
            <==> RenameSafe(items, mapping, names, from, to)
    ensures from in mapping && to in names && names[to] != names[from] && Found(items, mapping, to) ==>
              (names[to] !in MovedItems(items, mapping, from, to) <==> NamesOf(MovedNames(names, from, to), names[to]) == {})
  {
    if to in names && names[to] == names[from] {
      if from in mapping { RenameSame(items, mapping, names, from, to); }
    } else if from in mapping {
      RenameOther(items, mapping, names, from, to);
    } else {
      RenameUnknown(items, mapping, names, from, to);
    }
  }

  lemma RenameUnknown(items: map<Inode, ItemState>, mapping: map<Path, Inode>, names: map<Path, Inode>, from: Path, to: Path)
    requires Linked(items, mapping, names) && from !in mapping && from in names && (to in names ==> names[to] != names[from])
    ensures Linked(items, mapping, MovedNames(names, from, to)) <==> to !in names || (to !in mapping && names[to] !in items)
  {
    var names' := MovedNames(names, from, to);
    assert from != to;
    forall j | j in items
      ensures |NamesOf(names', j)| == items[j].meta.nlinks - (if to in names && j == names[to] then 1 else 0) && items[j].meta.nlinks >= 1
    {
      assert Counts(items, names, j);
      NameMoved(names, from, to, j);
    }
    if to in names && names[to] in items {
      assert !Counts(items, names', names[to]);
    } else {
      forall j | j in items ensures Counts(items, names', j) {}
    }
  }

  lemma RenameSame(items: map<Inode, ItemState>, mapping: map<Path, Inode>, names: map<Path, Inode>, from: Path, to: Path)
    requires Linked(items, mapping, names) && from in mapping && from in names && to in names && names[to] == names[from]
    ensures Linked(UnlinkedItems(items, mapping, to), MovedMapping(mapping, from, to), names)
            <==> !(Found(items, mapping, to) && items[mapping[to]].meta.nlinks > 1)
  {
    var items' := UnlinkedItems(items, mapping, to);
    forall j | j in items ensures |NamesOf(names, j)| == items[j].meta.nlinks && items[j].meta.nlinks >= 1 { assert Counts(items, names, j); }
    if Found(items, mapping, to) && items[mapping[to]].meta.nlinks > 1 {
      assert !Counts(items', names, mapping[to]);
    } else {
      forall j | j in items' ensures Counts(items', names, j) {}
    }
  }

  lemma RenameOther(items: map<Inode, ItemState>, mapping: map<Path, Inode>, names: map<Path, Inode>, from: Path, to: Path)
    requires Linked(items, mapping, names) && from in mapping && from in names && (to in names ==> names[to] != names[from])
    ensures Linked(UnlinkedItems(items, mapping, to), MovedMapping(mapping, from, to), MovedNames(names, from, to))
            <==> to !in names || to in mapping || names[to] !in items
    ensures to in names && Found(items, mapping, to) ==>
              (names[to] !in UnlinkedItems(items, mapping, to) <==> NamesOf(MovedNames(names, from, to), names[to]) == {})
  {
    var items', names' := UnlinkedItems(items, mapping, to), MovedNames(names, from, to);
    assert from != to;
    forall j | j in items
      ensures |NamesOf(names', j)| == items[j].meta.nlinks - (if to in names && j == names[to] then 1 else 0) && items[j].meta.nlinks >= 1
    {
      assert Counts(items, names, j);
      NameMoved(names, from, to, j);
    }
    if to in names && to !in mapping && names[to] in items {
      assert !Counts(items', names', names[to]);
    } else {
      forall j | j in items' ensures Counts(items', names', j) {}
    }
  }

  /** The pages of an inode go with its item, and no others. */
  ghost predicate PagesFollow(items: map<Inode, ItemState>, items': map<Inode, ItemState>, es: EngineState, es': EngineState, i: Inode) {
    if i in items && i !in items' then Cached(es', i) == map[] && OthersKept(es, es', i) else es' == es
  }

  /* ---------------------------------------------------------------- LazyFS, as far as names go */

  class LinkFS {
    const cache: Cache
    var names: map<Path, Inode>

    /** The engine's own part aside, all that names need. */
    ghost predicate Sound()
      reads this, cache, cache.itemObjects, cache.engine, cache.engine.pageObjects
    {
      cache.Valid() && this !in cache.Footprint()
    }

    /** Names, mapping and link counts are in step. */
    ghost predicate InStep()
      reads this, cache
    {
      Linked(cache.items, cache.fileInodeMapping, names)
    }

    ghost predicate Valid()
      reads this, cache, cache.itemObjects, cache.engine, cache.engine.pageObjects
    {
      Sound() && InStep()
    }

    constructor (cache: Cache, names: map<Path, Inode>)
      requires cache.Valid() && cache.items == map[] && cache.fileInodeMapping == map[]
      ensures Valid() && this.cache == cache && this.names == names
    {
      this.cache, this.names := cache, names;
    }

    /** The name has been looked up, and the item that made is still there. */
    ghost predicate LookedUp(p: Path)
      reads cache
    {
      Found(cache.items, cache.fileInodeMapping, p)
    }

    /** getattr, as far as names go: nothing for a name that is not there; otherwise the mapping, and an
        item with the link count of the file system if there is none. */
    method GetAttr(p: Path, size: nat) returns (i: Option<Inode>)
      requires Valid()
      modifies cache.Footprint()
      ensures Valid() && names == old(names) && fresh(cache.Footprint() - old(cache.Footprint()))
      ensures i == (if p in names then Some(names[p]) else None) && cache.engine.State() == old(cache.engine.State())
      ensures p !in names ==> cache.items == old(cache.items) && cache.fileInodeMapping == old(cache.fileInodeMapping)
      ensures p in names ==>
                && LookedUp(p) && cache.fileInodeMapping == old(cache.fileInodeMapping)[p := names[p]]
                && (names[p] in old(cache.items) ==> cache.items == old(cache.items))
                && (names[p] !in old(cache.items) ==>
                      && cache.items.Keys == old(cache.items).Keys + {names[p]}
                      && cache.items[names[p]].meta == Metadata(size, |NamesOf(names, names[p])|)
                      && forall j | j in old(cache.items) :: cache.items[j].meta == old(cache.items)[j].meta)
    {
      hide EngineInv, Cached, Linked, IndexAgrees, Stored;
      if p !in names {
        return None;
      }
      StoredAt(cache.contents, cache.items, cache.itemObjects, names[p]);
      LinkedNamed(cache.items, cache.fileInodeMapping, names, p);
      var known := cache.GetOriginalInode(p);
      if known.Some? {
        LinkedAt(cache.items, cache.fileInodeMapping, names, p);
        assert cache.fileInodeMapping[p := names[p]] == cache.fileInodeMapping;
      } else {
        cache.InsertInodeMapping(p, names[p], false);
      }
      if !cache.HasContentCached(names[p]) {
        Admit(names[p], p, size);
      }
      i := Some(names[p]);
    }

    method Admit(i: Inode, ghost p: Path, size: nat)
      requires Valid() && p in names && i == names[p] && i !in cache.items
      modifies cache.Footprint()
      ensures Valid() && fresh(cache.Footprint() - old(cache.Footprint()))
      ensures cache.items.Keys == old(cache.items).Keys + {i} && cache.items[i].meta == Metadata(size, |NamesOf(names, i)|)
      ensures forall j | j in old(cache.items) :: cache.items[j].meta == old(cache.items)[j].meta
      ensures cache.engine.State() == old(cache.engine.State()) && cache.fileInodeMapping == old(cache.fileInodeMapping)
    {
      hide EngineInv, Cached, Linked, IndexAgrees, Stored;
      ghost var items0 := cache.items;
      cache.EnsureItem(i);
      var _ := cache.UpdateContentMetadata(i, Metadata(size, |NamesOf(names, i)|), ["size", "atime", "ctime", "mtime", "nlinks"]);
      LinkedNew(items0, cache.items, cache.fileInodeMapping, names, p);
    }

    /** link. Fails if there is no old name or if the new one exists. A link of a name that the cache does
        not know is not counted. */
    method LfsLink(from: Path, to: Path) returns (res: int)
      requires Valid()
      modifies this`names, cache.Footprint()
      ensures Sound() && cache.Footprint() == old(cache.Footprint()) && cache.engine.State() == old(cache.engine.State())
      ensures res == if from in old(names) && to !in old(names) then 0 else -1
      ensures res == -1 ==>
                Valid() && names == old(names) && cache.items == old(cache.items) && cache.fileInodeMapping == old(cache.fileInodeMapping)
      ensures res == 0 ==>
                && names == old(names)[to := old(names)[from]]
                && cache.items == LinkedItems(old(cache.items), old(cache.fileInodeMapping), from)
                && cache.fileInodeMapping == LinkedMapping(old(cache.fileInodeMapping), from, to)
                && (Valid() <==> from in old(cache.fileInodeMapping) || old(names)[from] !in old(cache.items))
    {
      hide EngineInv, Cached, Linked, IndexAgrees, Stored;
      if from !in names || to in names {
        return -1;
      }
      LinkedLink(cache.items, cache.fileInodeMapping, names, from, to);
      names := names[to := names[from]];
      var inode := cache.GetOriginalInode(from);
      if inode.Some? {
        cache.InsertInodeMapping(to, inode.value, true);
      }
      res := 0;
    }

    /** unlink. Fails if there is no such name. The count follows and the item goes with the last name; but
        a name that the cache knows and whose item is gone stays in the mapping, and one it does not know
        is not discounted. */
    method LfsUnlink(p: Path) returns (res: int)
      requires Valid()
      modifies this`names, cache.Footprint()
      ensures Sound() && cache.Footprint() == old(cache.Footprint())
      ensures res == (if p in old(names) then 0 else -1) && names == old(names) - {p}
      ensures cache.items == UnlinkedItems(old(cache.items), old(cache.fileInodeMapping), p)
      ensures cache.fileInodeMapping == UnlinkedMapping(old(cache.items), old(cache.fileInodeMapping), p)
      ensures p in old(names) ==>
                && (Valid() <==> (p in old(cache.fileInodeMapping) <==> old(names)[p] in old(cache.items)))
                && PagesFollow(old(cache.items), cache.items, old(cache.engine.State()), cache.engine.State(), old(names)[p])
                && (old(LookedUp(p)) ==> (old(names)[p] !in cache.items <==> NamesOf(names, old(names)[p]) == {}))
      ensures p !in old(names) ==> Valid() && cache.engine.State() == old(cache.engine.State())
    {
      hide EngineInv, Cached, Linked, IndexAgrees, Stored, OthersKept, NamesOf;
      ghost var items0 := cache.items;
      if p in cache.fileInodeMapping { LinkedAt(cache.items, cache.fileInodeMapping, names, p); }
      if p in names { LinkedUnlink(cache.items, cache.fileInodeMapping, names, p); }
      var inode := cache.GetOriginalInode(p);
      if inode.Some? {
        var _ := cache.RemoveCachedItem(inode.value, p, false);
      }
      res := if p in names then 0 else -1;
      assert p !in names ==> names - {p} == names;
      names := names - {p};
    }

    /** rename. Fails if there is no such name. Of a name that the cache knows, the inode that had the target
        name loses it, and its item with its last; of another name the source takes it for a directory, finds
        no file in it, and leaves the cache alone. */
    method LfsRename(from: Path, to: Path) returns (res: int)
      requires Valid()
      modifies this`names, cache.Footprint()
      ensures Sound() && cache.Footprint() == old(cache.Footprint())
      ensures res == (if from in old(names) then 0 else -1) && names == MovedNames(old(names), from, to)
      ensures cache.items == MovedItems(old(cache.items), old(cache.fileInodeMapping), from, to)
      ensures cache.fileInodeMapping == MovedMapping(old(cache.fileInodeMapping), from, to)
      ensures if from in old(names) then Valid() <==> RenameSafe(old(cache.items), old(cache.fileInodeMapping), old(names), from, to) else Valid()
      ensures if from in old(cache.fileInodeMapping) && to in old(names)
              then PagesFollow(old(cache.items), cache.items, old(cache.engine.State()), cache.engine.State(), old(names)[to])
              else cache.engine.State() == old(cache.engine.State())
      ensures from in old(cache.fileInodeMapping) && to in old(names) && old(names)[to] != old(names)[from] && old(LookedUp(to)) ==>
                (old(names)[to] !in cache.items <==> NamesOf(names, old(names)[to]) == {})
    {
      hide EngineInv, Cached, Linked, IndexAgrees, Stored, OthersKept, NamesOf;
      if from in cache.fileInodeMapping { LinkedAt(cache.items, cache.fileInodeMapping, names, from); }
      if to in cache.fileInodeMapping { LinkedAt(cache.items, cache.fileInodeMapping, names, to); }
      if from in names { LinkedRename(cache.items, cache.fileInodeMapping, names, from, to); }
      var inode := cache.GetOriginalInode(from);
      if inode.Some? {
        var _ := cache.RenameItem(from, to);
      }
      res := if from in names then 0 else -1;
      names := if from !in names || (to in names && names[to] == names[from]) then names else (names - {from})[to := names[from]];
    }

    /** The clear-cache fault keeps names and mapping in step, but not the items behind them: one name of each
        cached inode is forgotten, the others stay mapped. */
    method ClearCache()
      requires Valid()
      modifies cache.Footprint()
      ensures Valid() && names == old(names) && cache.Footprint() == old(cache.Footprint()) && cache.items == map[]
      ensures OneNameGone(old(cache.items), old(cache.fileInodeMapping), cache.fileInodeMapping)
    {
      hide EngineInv, Cached, IndexAgrees, Stored;
      cache.ClearAllCache();
    }
  }

  /** A fresh mount. */
  method MountNames(names: map<Path, Inode>, files: map<Inode, Image>) returns (fs: LinkFS)
    requires forall p | p in names :: names[p] in files
    ensures fresh(fs) && fresh(fs.cache.Footprint()) && fs.Valid() && fs.names == names && fs.cache.fileInodeMapping == map[]
  {
    hide EngineInv, Cached, IndexAgrees, Stored;
    var disk := new Disk(names, files);
    var engine := new CustomCacheEngine(disk, 1);
    var cache := new Cache(engine);
    fs := new LinkFS(cache, names);
  }

  /** Both names looked up. */
  method TwoNames() returns (fs: LinkFS)
    ensures fresh(fs) && fresh(fs.cache.Footprint()) && fs.Valid() && fs.names == map["a" := 1, "b" := 1]
    ensures fs.cache.fileInodeMapping == map["a" := 1, "b" := 1] && 1 in fs.cache.items
  {
    hide EngineInv, Cached, IndexAgrees, Stored, Linked;
    fs := MountNames(map["a" := 1, "b" := 1], map[1 := []]);
    var _ := fs.GetAttr("a", 0);
    var _ := fs.GetAttr("b", 0);
  }

  /** The cache is cleared, and the name still mapped is unlinked: it stays mapped to nothing. */
  method StaleAfterClear() returns (fs: LinkFS, survivor: Path)
    ensures fs.Sound() && survivor in fs.cache.fileInodeMapping && survivor !in fs.names && !fs.Valid()
  {
    hide EngineInv, Cached, IndexAgrees, Stored, OneNameGone, Linked;
    fs := TwoNames();
    ghost var items, mapping := fs.cache.items, fs.cache.fileInodeMapping;
    fs.ClearCache();
    ErasedNames(items, mapping, fs.cache.fileInodeMapping, "a");
    assert mapping["b"] == mapping["a"];
    survivor := if "a" in fs.cache.fileInodeMapping then "a" else "b";
    LinkedAt(fs.cache.items, fs.cache.fileInodeMapping, fs.names, survivor);
    var _ := fs.LfsUnlink(survivor);
  }

  /** A name looked up is replaced by renaming one that was not: it goes on leading to the file it had. */
  method StaleAfterRename() returns (fs: LinkFS)
    ensures fs.Sound() && "b" in fs.names && fs.names["b"] == 1 && !fs.Valid()
    ensures "b" in fs.cache.fileInodeMapping && fs.cache.fileInodeMapping["b"] == 2
  {
    hide EngineInv, Cached, IndexAgrees, Stored, Linked;
    fs := MountNames(map["a" := 1, "b" := 2], map[1 := [], 2 := []]);
    var _ := fs.GetAttr("b", 0);
    var _ := fs.LfsRename("a", "b");
  }

  /* ---------------------------------------------------------------- runs */

  datatype Call =
    | Lookup(path: Path, size: nat)
    | Link(from: Path, to: Path)
    | Unlink(path: Path)
    | Rename(from: Path, to: Path)
    | ClearAll

  /** The names of the file system; those of them that have been looked up since the last clear, and the
      inodes that have been and still have a name; the names that may be mapped from before it. */
  datatype Tree = Tree(names: map<Path, Inode>, seen: set<Path>, known: set<Inode>, stale: set<Path>)

  ghost predicate TreeOk(t: Tree) {
    && (forall p | p in t.seen :: p in t.names && t.names[p] in t.known)
    && forall i | i in t.known :: NamesOf(t.names, i) != {}
  }

  /** Whoever calls has looked up, since the last clear, the names the call uses that exist, and does not
      rename between names of one file; `RenameSafe` tells what such a rename does. */
  predicate Careful(t: Tree, call: Call) {
    match call
    case Lookup(_, _) => true
    case Link(from, to) => (from in t.names ==> from in t.seen) && (to in t.names ==> to in t.seen)
    case Unlink(p) => p in t.names ==> p in t.seen
    case Rename(from, to) => from in t.seen && from in t.names && (to in t.names ==> to in t.seen && t.names[to] != t.names[from])
    case ClearAll => true
  }

  ghost function StillNamed(names: map<Path, Inode>, known: set<Inode>): set<Inode> {
    set i | i in known && NamesOf(names, i) != {}
  }

  /** What a call makes of the tree. */
  ghost function AfterCall(t: Tree, call: Call): Tree {
    match call
    case Lookup(p, _) => if p in t.names then Tree(t.names, t.seen + {p}, t.known + {t.names[p]}, t.stale) else t
    case Link(from, to) =>
      if from in t.names && to !in t.names then Tree(t.names[to := t.names[from]], t.seen + {to}, t.known, t.stale) else t
    case Unlink(p) =>
      if p in t.names then Tree(t.names - {p}, t.seen - {p}, StillNamed(t.names - {p}, t.known), t.stale - {p}) else t
    case Rename(from, to) =>
      if from in t.names then
        var names' := MovedNames(t.names, from, to);
        Tree(names', t.seen - {from} + {to}, StillNamed(names', t.known), t.stale - {from})
      else t
    case ClearAll => Tree(t.names, {}, {}, t.seen + t.stale)
  }

  /** The tree after the first `k` calls. */
  ghost function AfterCalls(t: Tree, calls: seq<Call>, k: nat): Tree
    requires k <= |calls|
  {
    if k == 0 then t else AfterCall(AfterCalls(t, calls, k - 1), calls[k - 1])
  }

  ghost predicate AllCareful(t: Tree, calls: seq<Call>) {
    forall k | 0 <= k < |calls| :: Careful(AfterCalls(t, calls, k), calls[k])
  }

  /** The cache knows the names seen, and no others but stale ones, and has items for exactly the inodes known. */
  ghost predicate Knows(items: map<Inode, ItemState>, mapping: map<Path, Inode>, names: map<Path, Inode>, t: Tree) {
    Linked(items, mapping, names) && names == t.names && t.seen <= mapping.Keys <= t.seen + t.stale && items.Keys == t.known && TreeOk(t)
  }

  lemma NamesOther(names: map<Path, Inode>, names': map<Path, Inode>, i: Inode)
    requires forall p :: (p in names && names[p] == i) <==> (p in names' && names'[p] == i)
    ensures NamesOf(names', i) == NamesOf(names, i)
  {}

  lemma KnowsAt(items: map<Inode, ItemState>, mapping: map<Path, Inode>, names: map<Path, Inode>, t: Tree)
    requires Knows(items, mapping, names, t)
    ensures Linked(items, mapping, names) && names == t.names && t.seen <= mapping.Keys <= t.seen + t.stale && items.Keys == t.known && TreeOk(t)
    ensures forall p | p in t.seen :: Found(items, mapping, p)
  {}

  lemma KnowsStart(items: map<Inode, ItemState>, mapping: map<Path, Inode>, names: map<Path, Inode>)
    requires Linked(items, mapping, names) && forall p | p in mapping :: Found(items, mapping, p)
    ensures Knows(items, mapping, names, Tree(names, mapping.Keys, items.Keys, {}))
  {
    forall i | i in items ensures NamesOf(names, i) != {} { assert Counts(items, names, i); }
  }

  lemma KnowsLookup(items: map<Inode, ItemState>, items': map<Inode, ItemState>, mapping: map<Path, Inode>, names: map<Path, Inode>,
                    t: Tree, p: Path)
    requires Knows(items, mapping, names, t) && p in names && items'.Keys == items.Keys + {names[p]}
    requires Linked(items', mapping[p := names[p]], names)
    ensures Knows(items', mapping[p := names[p]], names, AfterCall(t, Lookup(p, 0)))
  {
    assert p in NamesOf(names, names[p]);
  }

  lemma KnowsLink(items: map<Inode, ItemState>, mapping: map<Path, Inode>, names: map<Path, Inode>, t: Tree, from: Path, to: Path)
    requires Knows(items, mapping, names, t) && Careful(t, Link(from, to)) && from in names && to !in names
    ensures Knows(LinkedItems(items, mapping, from), LinkedMapping(mapping, from, to), names[to := names[from]], AfterCall(t, Link(from, to)))
  {
    LinkedAt(items, mapping, names, from);
    LinkedLink(items, mapping, names, from, to);
    var names' := names[to := names[from]];
    forall i | i in t.known ensures NamesOf(names', i) != {} {
      var p :| p in NamesOf(names, i);
      assert p in NamesOf(names', i);
    }
  }

  lemma KnowsUnlink(items: map<Inode, ItemState>, mapping: map<Path, Inode>, names: map<Path, Inode>, t: Tree, p: Path)
    requires Knows(items, mapping, names, t) && Careful(t, Unlink(p)) && p in names
    ensures Knows(UnlinkedItems(items, mapping, p), UnlinkedMapping(items, mapping, p), names - {p}, AfterCall(t, Unlink(p)))
  {
    LinkedAt(items, mapping, names, p);
    LinkedUnlink(items, mapping, names, p);
    var names' := names - {p};
    forall i | i in t.known && i != names[p] ensures NamesOf(names', i) != {} { NamesOther(names, names', i); }
    forall q | q in t.seen - {p} ensures names'[q] in StillNamed(names', t.known) { assert q in NamesOf(names', names'[q]); }
  }

  /** Of the inodes that had a name, a rename leaves all one, but whoever had only the target. */
  lemma StillNamedMoved(names: map<Path, Inode>, from: Path, to: Path, i: Inode)
    requires from in names && (to in names ==> names[to] != names[from]) && NamesOf(names, i) != {} && !(to in names && i == names[to])
    ensures NamesOf(MovedNames(names, from, to), i) != {}
  {
    var names' := MovedNames(names, from, to);
    if i == names[from] { assert to in NamesOf(names', i); } else { NamesOther(names, names', i); }
  }

  lemma TreeMoved(t: Tree, from: Path, to: Path)
    requires TreeOk(t) && Careful(t, Rename(from, to))
    ensures TreeOk(AfterCall(t, Rename(from, to)))
    ensures forall i :: i in StillNamed(MovedNames(t.names, from, to), t.known) <==>
                        i in t.known && !(to in t.names && i == t.names[to] && NamesOf(MovedNames(t.names, from, to), i) == {})
  {
    var names' := MovedNames(t.names, from, to);
    forall i | i in t.known && !(to in t.names && i == t.names[to]) ensures NamesOf(names', i) != {} { StillNamedMoved(t.names, from, to, i); }
    forall q | q in t.seen - {from} + {to} ensures q in names' && names'[q] in StillNamed(names', t.known) {
      assert q in NamesOf(names', names'[q]);
    }
  }

  lemma KnowsRename(items: map<Inode, ItemState>, mapping: map<Path, Inode>, names: map<Path, Inode>, t: Tree, from: Path, to: Path)
    requires Knows(items, mapping, names, t) && Careful(t, Rename(from, to))
    ensures Knows(MovedItems(items, mapping, from, to), MovedMapping(mapping, from, to), MovedNames(names, from, to), AfterCall(t, Rename(from, to)))
  {
    hide Linked, TreeOk, NamesOf, MovedNames, StillNamed;
    LinkedAt(items, mapping, names, from);
    if to in mapping { LinkedAt(items, mapping, names, to); }
    LinkedRename(items, mapping, names, from, to);
    TreeMoved(t, from, to);
    assert MovedMapping(mapping, from, to).Keys == mapping.Keys - {from} + {to};
    assert MovedItems(items, mapping, from, to).Keys == StillNamed(MovedNames(names, from, to), t.known);
  }

  lemma KnowsClear(items: map<Inode, ItemState>, mapping: map<Path, Inode>, mapping': map<Path, Inode>, names: map<Path, Inode>, t: Tree)
    requires Knows(items, mapping, names, t) && OneNameGone(items, mapping, mapping')
    ensures Knows(map[], mapping', names, AfterCall(t, ClearAll))
  {}

  /* ---------------------------------------------------------------- what runs keep */

  lemma TreeStep(t: Tree, call: Call)
    requires TreeOk(t) && Careful(t, call)
    ensures TreeOk(AfterCall(t, call))
    ensures !call.ClearAll? ==> forall i | i in t.known :: i !in AfterCall(t, call).known <==> NamesOf(AfterCall(t, call).names, i) == {}
    ensures forall i | NamesOf(t.names, i) == {} :: NamesOf(AfterCall(t, call).names, i) == {}
    ensures !call.ClearAll? ==> AfterCall(t, call).stale <= t.stale && forall p | p in t.seen || p !in t.names :: p in AfterCall(t, call).seen || p !in AfterCall(t, call).names
  {
    var t' := AfterCall(t, call);
    forall i | NamesOf(t.names, i) == {} ensures NamesOf(t'.names, i) == {} { NamelessStays(t, call, i); }
    match call
    case Lookup(p, _) => if p in t.names { assert p in NamesOf(t.names, t.names[p]); }
    case Link(from, to) => TreeLinked(t, from, to);
    case Unlink(p) => TreeUnlinked(t, p);
    case Rename(from, to) => TreeMoved(t, from, to);
    case ClearAll =>
  }

  lemma NamelessStays(t: Tree, call: Call, i: Inode)
    requires NamesOf(t.names, i) == {}
    ensures NamesOf(AfterCall(t, call).names, i) == {}
  {
    forall p | p in AfterCall(t, call).names ensures AfterCall(t, call).names[p] != i {
      assert forall q | q in t.names :: q !in NamesOf(t.names, i);
    }
  }

  lemma TreeLinked(t: Tree, from: Path, to: Path)
    requires TreeOk(t) && Careful(t, Link(from, to))
    ensures TreeOk(AfterCall(t, Link(from, to)))
  {
    forall i | i in t.known ensures NamesOf(AfterCall(t, Link(from, to)).names, i) != {} {
      var p :| p in NamesOf(t.names, i);
      assert p in NamesOf(AfterCall(t, Link(from, to)).names, i);
    }
  }

  lemma TreeUnlinked(t: Tree, p: Path)
    requires TreeOk(t) && Careful(t, Unlink(p))
    ensures TreeOk(AfterCall(t, Unlink(p)))
  {
    var names' := t.names - {p};
    forall q | q in t.seen - {p} ensures q in names' && names'[q] in StillNamed(names', t.known) { assert q in NamesOf(names', names'[q]); }
  }

  lemma {:induction false} TreeAt(t: Tree, calls: seq<Call>, k: nat)
    requires TreeOk(t) && AllCareful(t, calls) && k <= |calls|
    ensures TreeOk(AfterCalls(t, calls, k))
  {
    hide TreeOk, Careful, AfterCall;
    if k > 0 {
      TreeAt(t, calls, k - 1);
      TreeStep(AfterCalls(t, calls, k - 1), calls[k - 1]);
    }
  }

  /** A name once seen is known to the cache whenever it exists, removed and made anew or not, up to the next
      clear. */
  lemma {:induction false} SeenStays(t: Tree, calls: seq<Call>, p: Path, k: nat, m: nat)
    requires TreeOk(t) && AllCareful(t, calls) && k <= m <= |calls| && p in AfterCalls(t, calls, k).seen
    requires forall j | k <= j < m :: !calls[j].ClearAll?
    ensures p in AfterCalls(t, calls, m).names ==> p in AfterCalls(t, calls, m).seen
    decreases m
  {
    hide TreeOk, Careful, AfterCall;
    if k < m {
      SeenStays(t, calls, p, k, m - 1);
      TreeAt(t, calls, m - 1);
      TreeStep(AfterCalls(t, calls, m - 1), calls[m - 1]);
    }
  }

  /** An inode is known from when it is looked up to the very call that takes its last name, or a clear. */
  lemma KnownGoes(t: Tree, calls: seq<Call>, i: Inode, k: nat)
    requires TreeOk(t) && AllCareful(t, calls) && k < |calls| && i in AfterCalls(t, calls, k).known && !calls[k].ClearAll?
    ensures i !in AfterCalls(t, calls, k + 1).known <==> NamesOf(AfterCalls(t, calls, k + 1).names, i) == {}
  {
    hide TreeOk, Careful, AfterCall;
    TreeAt(t, calls, k);
    TreeStep(AfterCalls(t, calls, k), calls[k]);
  }

  /* ---------------------------------------------------------------- the driver */

  /** The pages and the size of an inode stay while it is known; its pages go with it. */
  ghost predicate ContentsFollow(items: map<Inode, ItemState>, items': map<Inode, ItemState>, es: EngineState, es': EngineState) {
    && (forall i :: Cached(es', i) == if i in items && i !in items' then map[] else Cached(es, i))
    && (forall i | i in items && i in items' :: items'[i].meta.size == items[i].meta.size)
  }

  lemma FollowOne(items: map<Inode, ItemState>, items': map<Inode, ItemState>, es: EngineState, es': EngineState, i: Inode)
    requires PagesFollow(items, items', es, es', i)
    requires forall j | j in items && j != i :: j in items'
    requires forall j | j in items && j in items' :: items'[j].meta.size == items[j].meta.size
    ensures ContentsFollow(items, items', es, es')
  {}

  lemma FollowNone(items: map<Inode, ItemState>, items': map<Inode, ItemState>, es: EngineState)
    requires items.Keys <= items'.Keys && forall j | j in items :: items'[j].meta.size == items[j].meta.size
    ensures ContentsFollow(items, items', es, es)
  {}

  lemma FollowClear(items: map<Inode, ItemState>, es: EngineState, es': EngineState)
    requires (forall i :: Cached(es', i) == map[]) && forall i | i !in items :: Cached(es, i) == map[]
    ensures ContentsFollow(items, map[], es, es')
  {
    hide Cached;
  }

  method Perform(fs: LinkFS, call: Call, ghost t: Tree)
    requires fs.Sound() && Knows(fs.cache.items, fs.cache.fileInodeMapping, fs.names, t) && Careful(t, call)
    modifies fs`names, fs.cache.Footprint()
    ensures fs.Sound() && fresh(fs.cache.Footprint() - old(fs.cache.Footprint()))
    ensures Knows(fs.cache.items, fs.cache.fileInodeMapping, fs.names, AfterCall(t, call))
    ensures ContentsFollow(old(fs.cache.items), fs.cache.items, old(fs.cache.engine.State()), fs.cache.engine.State())
  {
    hide EngineInv, Cached, IndexAgrees, Stored, Linked, TreeOk, Knows, ContentsFollow, PagesFollow, AfterCall, NamesOf, OthersKept;
    ghost var items, mapping, names, es := fs.cache.items, fs.cache.fileInodeMapping, fs.names, fs.cache.engine.State();
    KnowsAt(items, mapping, names, t);
    match call
    case Lookup(p, size) =>
      var i := fs.GetAttr(p, size);
      FollowNone(items, fs.cache.items, es);
      LookupDone(items, fs.cache.items, mapping, names, t, p, size);
    case Link(from, to) =>
      var res := fs.LfsLink(from, to);
      FollowNone(items, fs.cache.items, es);
      if res == 0 { KnowsLink(items, mapping, names, t, from, to); } else { LinkRefused(items, mapping, names, t, from, to); }
    case Unlink(p) =>
      var res := fs.LfsUnlink(p);
      if res == 0 {
        KnowsUnlink(items, mapping, names, t, p);
        FollowOne(items, fs.cache.items, es, fs.cache.engine.State(), names[p]);
      } else {
        UnlinkRefused(items, mapping, names, t, p);
        FollowNone(items, fs.cache.items, es);
      }
    case Rename(from, to) =>
      var _ := fs.LfsRename(from, to);
      KnowsRename(items, mapping, names, t, from, to);
      LinkedAt(items, mapping, names, from);
      if to in names { FollowOne(items, fs.cache.items, es, fs.cache.engine.State(), names[to]); } else { FollowNone(items, fs.cache.items, es); }
    case ClearAll =>
      PerformClear(fs, t);
  }

  method PerformClear(fs: LinkFS, ghost t: Tree)
    requires fs.Sound() && Knows(fs.cache.items, fs.cache.fileInodeMapping, fs.names, t)
    modifies fs.cache.Footprint()
    ensures fs.Sound() && fs.cache.Footprint() == old(fs.cache.Footprint()) && fs.names == old(fs.names)
    ensures Knows(fs.cache.items, fs.cache.fileInodeMapping, fs.names, AfterCall(t, ClearAll))
    ensures ContentsFollow(old(fs.cache.items), fs.cache.items, old(fs.cache.engine.State()), fs.cache.engine.State())
  {
    hide EngineInv, Cached, IndexAgrees, Stored, Linked, TreeOk, Knows, ContentsFollow, AfterCall, NamesOf, OneNameGone;
    ghost var items, mapping, names, es := fs.cache.items, fs.cache.fileInodeMapping, fs.names, fs.cache.engine.State();
    KnowsAt(items, mapping, names, t);
    forall i | i !in items ensures Cached(es, i) == map[] { NoItemNoBlocks(fs, i); }
    fs.ClearCache();
    forall i ensures Cached(fs.cache.engine.State(), i) == map[] { NoItemNoBlocks(fs, i); }
    KnowsClear(items, mapping, fs.cache.fileInodeMapping, names, t);
    FollowClear(items, es, fs.cache.engine.State());
  }

  lemma LookupDone(items: map<Inode, ItemState>, items': map<Inode, ItemState>, mapping: map<Path, Inode>, names: map<Path, Inode>,
                   t: Tree, p: Path, size: nat)
    requires Knows(items, mapping, names, t)
    requires if p in names then items'.Keys == items.Keys + {names[p]} && Linked(items', mapping[p := names[p]], names) else items' == items
    ensures Knows(items', if p in names then mapping[p := names[p]] else mapping, names, AfterCall(t, Lookup(p, size)))
  {
    hide Linked, TreeOk;
    if p in names { KnowsLookup(items, items', mapping, names, t, p); }
  }

  lemma LinkRefused(items: map<Inode, ItemState>, mapping: map<Path, Inode>, names: map<Path, Inode>, t: Tree, from: Path, to: Path)
    requires Knows(items, mapping, names, t) && (from !in names || to in names)
    ensures AfterCall(t, Link(from, to)) == t
  {}

  lemma UnlinkRefused(items: map<Inode, ItemState>, mapping: map<Path, Inode>, names: map<Path, Inode>, t: Tree, p: Path)
    requires Knows(items, mapping, names, t) && p !in names
    ensures names - {p} == names && UnlinkedItems(items, mapping, p) == items && UnlinkedMapping(items, mapping, p) == mapping
    ensures AfterCall(t, Unlink(p)) == t
  {
    assert t.names - {p} == t.names;
  }

  lemma NoItemNoBlocks(fs: LinkFS, i: Inode)
    requires fs.Sound() && i !in fs.cache.items
    ensures fs.cache.engine.Blocks(i) == map[]
  {
    hide EngineInv, Cached, Stored;
    ItemAt(fs.cache.items, fs.cache.engine.State(), i);
  }

  lemma FollowTrans(items: map<Inode, ItemState>, es: EngineState, items1: map<Inode, ItemState>, es1: EngineState,
                    items2: map<Inode, ItemState>, es2: EngineState)
    requires ContentsFollow(items, items1, es, es1) && ContentsFollow(items1, items2, es1, es2)
    requires forall i | i !in items :: Cached(es, i) == map[]
    requires forall i | i in items && i !in items1 :: i !in items2
    ensures ContentsFollow(items, items2, es, es2)
  {
    hide Cached;
  }

  /** What a run without a clear has kept: contents follow items, the items gone have no name, nothing is stale. */
  ghost predicate Followed(items: map<Inode, ItemState>, es: EngineState, items': map<Inode, ItemState>, es': EngineState, t: Tree) {
    && ContentsFollow(items, items', es, es') && t.stale == {}
    && (forall i | i !in items :: Cached(es, i) == map[])
    && forall i | i in items && i !in items' :: NamesOf(t.names, i) == {}
  }

  lemma FollowedNone(items: map<Inode, ItemState>, es: EngineState, t: Tree)
    requires t.stale == {} && forall i | i !in items :: Cached(es, i) == map[]
    ensures Followed(items, es, items, es, t)
  {
    hide Cached;
    FollowNone(items, items, es);
  }

  lemma FollowedAt(items: map<Inode, ItemState>, es: EngineState, items': map<Inode, ItemState>, es': EngineState, t: Tree)
    requires Followed(items, es, items', es', t)
    ensures ContentsFollow(items, items', es, es') && t.stale == {}
  {}

  lemma FollowedMore(items: map<Inode, ItemState>, es: EngineState, items1: map<Inode, ItemState>, es1: EngineState,
                     items2: map<Inode, ItemState>, es2: EngineState, t: Tree, call: Call)
    requires Followed(items, es, items1, es1, t) && ContentsFollow(items1, items2, es1, es2)
    requires TreeOk(t) && Careful(t, call) && !call.ClearAll? && items1.Keys == t.known && items2.Keys == AfterCall(t, call).known
    ensures Followed(items, es, items2, es2, AfterCall(t, call))
  {
    hide Cached, ContentsFollow, AfterCall, NamesOf, TreeOk, Careful;
    TreeStep(t, call);
    KnownNamed(AfterCall(t, call));
    FollowTrans(items, es, items1, es1, items2, es2);
  }

  /** Any run of lookups, links, unlinks, renames and clears, by a careful caller. The cache ends up with items for
      exactly the inodes that were looked up since the last clear and still have a name, counts their names right,
      and knows the names that were looked up since; without a clear it knows no others, and has kept item, size
      and pages of every inode up to the call that took its last name. */
  method DriveNames(fs: LinkFS, calls: seq<Call>)
    requires fs.Valid() && forall p | p in fs.cache.fileInodeMapping :: fs.LookedUp(p)
    requires AllCareful(Tree(fs.names, fs.cache.fileInodeMapping.Keys, fs.cache.items.Keys, {}), calls)
    modifies fs`names, fs.cache.Footprint()
    ensures fs.Valid()
    ensures var t := AfterCalls(Tree(old(fs.names), old(fs.cache.fileInodeMapping).Keys, old(fs.cache.items).Keys, {}), calls, |calls|);
            && fs.names == t.names && t.seen <= fs.cache.fileInodeMapping.Keys <= t.seen + t.stale && fs.cache.items.Keys == t.known
            && (forall p | p in t.seen :: fs.LookedUp(p))
            && forall i | i in t.known :: fs.cache.items[i].meta.nlinks == |NamesOf(fs.names, i)| >= 1
    ensures (forall call | call in calls :: !call.ClearAll?) ==>
              && AfterCalls(Tree(old(fs.names), old(fs.cache.fileInodeMapping).Keys, old(fs.cache.items).Keys, {}), calls, |calls|).stale == {}
              && ContentsFollow(old(fs.cache.items), fs.cache.items, old(fs.cache.engine.State()), fs.cache.engine.State())
  {
    hide EngineInv, Cached, IndexAgrees, Stored, Linked, TreeOk, Knows, ContentsFollow, AfterCall, NamesOf, Followed;
    ghost var items, es := fs.cache.items, fs.cache.engine.State();
    ghost var t := Tree(fs.names, fs.cache.fileInodeMapping.Keys, fs.cache.items.Keys, {});
    ghost var calm := forall call | call in calls :: !call.ClearAll?;
    forall i | i !in items ensures Cached(es, i) == map[] { NoItemNoBlocks(fs, i); }
    KnowsStart(items, fs.cache.fileInodeMapping, fs.names);
    KnowsAt(items, fs.cache.fileInodeMapping, fs.names, t);
    FollowedNone(items, es, t);
    for k := 0 to |calls|
      invariant fs.Sound() && fresh(fs.cache.Footprint() - old(fs.cache.Footprint()))
      invariant Knows(fs.cache.items, fs.cache.fileInodeMapping, fs.names, AfterCalls(t, calls, k))
      invariant calm ==> Followed(items, es, fs.cache.items, fs.cache.engine.State(), AfterCalls(t, calls, k))
    {
      ghost var now, items1, es1 := AfterCalls(t, calls, k), fs.cache.items, fs.cache.engine.State();
      KnowsAt(items1, fs.cache.fileInodeMapping, fs.names, now);
      Perform(fs, calls[k], now);
      KnowsAt(fs.cache.items, fs.cache.fileInodeMapping, fs.names, AfterCall(now, calls[k]));
      if calm { FollowedMore(items, es, items1, es1, fs.cache.items, fs.cache.engine.State(), now, calls[k]); }
    }
    KnowsAt(fs.cache.items, fs.cache.fileInodeMapping, fs.names, AfterCalls(t, calls, |calls|));
    if calm { FollowedAt(items, es, fs.cache.items, fs.cache.engine.State(), AfterCalls(t, calls, |calls|)); }
    forall i | i in fs.cache.items ensures fs.cache.items[i].meta.nlinks == |NamesOf(fs.names, i)| >= 1 {
      CountsAt(fs.cache.items, fs.cache.fileInodeMapping, fs.names, i);
    }
  }

  lemma KnownNamed(t: Tree)
    requires TreeOk(t)
    ensures forall i | NamesOf(t.names, i) == {} :: i !in t.known
  {}

  lemma CountsAt(items: map<Inode, ItemState>, mapping: map<Path, Inode>, names: map<Path, Inode>, i: Inode)
    requires Linked(items, mapping, names) && i in items
    ensures items[i].meta.nlinks == |NamesOf(names, i)| >= 1
  {
    assert Counts(items, names, i);
  }
}
