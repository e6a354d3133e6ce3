/** Every page is either free or carries exactly one block: the count. */
module Counting {
  import opened Overlay
  import opened Slots
  import opened EngineStates

  /** The blocks held in some page, with their owners. */
  ghost function Held(ordered: map<Inode, map<nat, Slot>>): (r: set<(Inode, nat)>)
    ensures forall o: Inode, b: nat :: (o, b) in r <==> InIndex(ordered, o, b)
  {
    set o, b | o in ordered && b in ordered[o] :: (o, b)
  }

  /** The blocks whose index entry says that they are not synced. */
  ghost function Unsynced(ordered: map<Inode, map<nat, Slot>>): (r: set<(Inode, nat)>)
    ensures forall o: Inode, b: nat :: (o, b) in r <==> InIndex(ordered, o, b) && !ordered[o][b].synced
  {
    set o, b | o in ordered && b in ordered[o] && !ordered[o][b].synced :: (o, b)
  }

  ghost function PageUnder(ordered: map<Inode, map<nat, Slot>>, x: (Inode, nat)): nat {
    if InIndex(ordered, x.0, x.1) then ordered[x.0][x.1].page else 0
  }

  ghost function Below(n: nat): (r: set<nat>)
    ensures |r| == n && forall p: nat :: p in r <==> p < n
  {
    if n == 0 then {} else Below(n - 1) + {n - 1}
  }

  ghost function Listed(s: seq<nat>): (r: set<nat>)
    requires NoDuplicates(s)
    ensures |r| == |s| && forall p: nat :: p in r <==> p in s
  {
    if s == [] then {} else
      assert s == s[..|s| - 1] + [s[|s| - 1]];
      assert s[|s| - 1] !in s[..|s| - 1];
      Listed(s[..|s| - 1]) + {s[|s| - 1]}
  }

  lemma {:induction false} PagesSize(ordered: map<Inode, map<nat, Slot>>, held: set<(Inode, nat)>)
    requires forall x, y | x in held && y in held && PageUnder(ordered, x) == PageUnder(ordered, y) :: x == y
    ensures |set x | x in held :: PageUnder(ordered, x)| == |held|
  {
    if held != {} {
      var x :| x in held;
      var rest := held - {x};
      PagesSize(ordered, rest);
      assert (set y | y in held :: PageUnder(ordered, y)) == (set y | y in rest :: PageUnder(ordered, y)) + {PageUnder(ordered, x)};
    }
  }

  ghost function Taken(ordered: map<Inode, map<nat, Slot>>): set<nat> {
    set x | x in Held(ordered) :: PageUnder(ordered, x)
  }

  lemma HeldApart(es: EngineState, x: (Inode, nat), y: (Inode, nat))
    requires EngineInv(es) && x in Held(es.ordered) && y in Held(es.ordered)
    ensures PageUnder(es.ordered, x) == PageUnder(es.ordered, y) ==> x == y
    ensures PageUnder(es.ordered, x) < |es.pages| && PageUnder(es.ordered, x) !in es.free
  {
    PagesExclusive(es, x.0, x.1, y.0, y.1);
    assert SlotOk(es.pages, x.0, x.1, es.ordered[x.0][x.1]);
  }

  lemma Covered(es: EngineState, p: nat)
    requires EngineInv(es) && p < |es.pages| && p !in es.free
    ensures p in Taken(es.ordered)
  {
    var o: Inode, b: nat :| InIndex(es.ordered, o, b) && es.ordered[o][b].page == p;
    assert (o, b) in Held(es.ordered) && PageUnder(es.ordered, (o, b)) == p;
  }

  lemma HeldPages(es: EngineState)
    requires EngineInv(es) && NoDuplicates(es.free) && forall p | p in es.free :: p < |es.pages|
    ensures var taken := Taken(es.ordered);
            |taken| == |Held(es.ordered)| && taken !! Listed(es.free) && taken + Listed(es.free) == Below(|es.pages|)
  {
    hide EngineInv, PageUnder, NoDuplicates;
    var held := Held(es.ordered);
    forall x, y | x in held && y in held
      ensures PageUnder(es.ordered, x) == PageUnder(es.ordered, y) ==> x == y
      ensures PageUnder(es.ordered, x) < |es.pages| && PageUnder(es.ordered, x) !in es.free
    {
      HeldApart(es, x, y);
    }
    PagesSize(es.ordered, held);
    forall p: nat | p < |es.pages| && p !in es.free ensures p in Taken(es.ordered) {
      Covered(es, p);
    }
  }

  /** Conservation of pages: in every reachable state, blocks held and pages free add up to the pool. */
  lemma Conservation(es: EngineState)
    requires EngineInv(es)
    ensures |Held(es.ordered)| + |es.free| == |es.pages|
  {
    hide EngineInv, Held, PageUnder, Taken, NoDuplicates;
    FreeList(es);
    HeldPages(es);
    var taken, free := Taken(es.ordered), Listed(es.free);
    assert |taken + free| == |taken| + |free|;
  }

  lemma FreeList(es: EngineState)
    requires EngineInv(es)
    ensures NoDuplicates(es.free) && forall p | p in es.free :: p < |es.pages|
  {}
}
