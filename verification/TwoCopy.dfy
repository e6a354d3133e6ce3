/** What LazyFS promises: a file is a volatile copy that readers see and a durable copy that a crash
    leaves. The calls, their effect on the copies, and runs of calls. */
module TwoCopies {
  import opened Posix
  import opened Overlay
  import opened Slots
  import opened Disks
  import opened WriteSteps
  import opened ReadSteps

  /** For a truncate, also whether the cache is asked for the inode, as the source means to, or for the path,
      as it does. */
  datatype Op =
    | Write(path: Path, buf: Image, offset: nat)
    | Read(path: Path, len: nat, offset: nat)
    | Truncate(path: Path, size: nat, byInode: bool)
    | Fsync(path: Path)
    | Clear
    | Checkpoint

  /** What a call hands back: for a read, the caller's buffer and the byte count. */
  datatype Output = Done | Bytes(buf: Image, res: nat)

  datatype Copies = Copies(vol: map<Inode, Image>, dur: map<Inode, Image>)

  ghost predicate Named(names: map<Path, Inode>, c: Copies) {
    c.vol.Keys == c.dur.Keys && forall p | p in names :: names[p] in c.vol
  }

  predicate Apt(names: map<Path, Inode>, op: Op) {
    match op
    case Write(p, buf, _) => p in names && |buf| > 0
    case Read(p, len, _) => p in names && len > 0
    case Truncate(p, _, _) => p in names
    case Fsync(p) => p in names
    case Clear => true
    case Checkpoint => true
  }

  /** The two copies after a call. */
  ghost function After(names: map<Path, Inode>, c: Copies, op: Op): (r: Copies)
    requires Named(names, c) && Apt(names, op)
    ensures Named(names, r) && r.vol.Keys == c.vol.Keys
  {
    match op
    case Write(p, buf, offset) => c.(vol := c.vol[names[p] := Pwrite(c.vol[names[p]], buf, offset)])
    case Read(_, _, _) => c
    case Truncate(p, size, _) => c.(vol := c.vol[names[p] := Ftruncate(c.vol[names[p]], size)])
    case Fsync(p) => c.(dur := c.dur[names[p] := c.vol[names[p]]])
    case Clear => c.(vol := c.dur)
    case Checkpoint => c.(dur := c.vol)
  }

  /** The two copies after the first `k` calls. */
  ghost function Run(names: map<Path, Inode>, c: Copies, ops: seq<Op>, k: nat): (r: Copies)
    requires Named(names, c) && k <= |ops| && forall op | op in ops :: Apt(names, op)
    ensures Named(names, r) && r.vol.Keys == c.vol.Keys
  {
    if k == 0 then c else After(names, Run(names, c, ops, k - 1), ops[k - 1])
  }

  /** A read answers what the volatile copy holds. */
  ghost predicate Answered(names: map<Path, Inode>, c: Copies, op: Op, out: Output)
    requires Named(names, c) && Apt(names, op)
  {
    op.Read? ==> out.Bytes? && Answers(c.vol[names[op.path]], op.offset, op.len, out.buf, out.res)
  }

  lemma NothingToAnswer(names: map<Path, Inode>, c: Copies, op: Op, out: Output)
    requires Named(names, c) && Apt(names, op) && !op.Read?
    ensures Answered(names, c, op, out)
  {}

  lemma ReadAnswered(names: map<Path, Inode>, c: Copies, p: Path, len: nat, offset: nat, out: Output)
    requires Named(names, c) && Apt(names, Read(p, len, offset))
    requires out.Bytes? && Answers(c.vol[names[p]], offset, len, out.buf, out.res)
    ensures Answered(names, c, Read(p, len, offset), out)
  {}

  ghost predicate AllAnswered(names: map<Path, Inode>, c: Copies, ops: seq<Op>, outs: seq<Output>)
    requires Named(names, c) && |outs| == |ops| && forall op | op in ops :: Apt(names, op)
  {
    forall k | 0 <= k < |ops| :: Answered(names, Run(names, c, ops, k), ops[k], outs[k])
  }

  /** The calls that copy inode `i` to disk; a checkpoint does so for the inodes it reaches. */
  predicate Saves(names: map<Path, Inode>, reached: set<Inode>, op: Op, i: Inode) {
    (op.Checkpoint? && i in reached) || (op.Fsync? && op.path in names && names[op.path] == i)
  }

  /** The calls that change what readers of inode `i` see, crashes aside. */
  predicate Writes(names: map<Path, Inode>, op: Op, i: Inode) {
    (op.Write? || op.Truncate?) && op.path in names && names[op.path] == i
  }

  /* ---------------------------------------------------------------- LazyFS against its promise */

  /** A state of LazyFS as far as runs go: the two copies, the blocks held in pages, those of them
      marked unsynced, the free pages, the inodes some known path leads to, and those the unsynced-data
      report lists. */
  datatype Shot = Shot(copies: Copies, held: set<(Inode, nat)>, unsynced: set<(Inode, nat)>, free: nat, mapped: set<Inode>, listed: set<Inode>)

  ghost function Of(i: Inode, blocks: set<nat>): (r: set<(Inode, nat)>)
    ensures forall x: (Inode, nat) :: x in r <==> x.0 == i && x.1 in blocks
  {
    set b | b in blocks :: (i, b)
  }

  lemma EmptyOf(i: Inode)
    ensures Of(i, {}) == {}
  {}

  /** The bytes a call that writes gives a value: from the old end of file, or where it starts, on. */
  ghost function WrittenFrom(names: map<Path, Inode>, c: Copies, op: Op): nat
    requires Named(names, c) && Apt(names, op) && (op.Write? || op.Truncate?)
  {
    if op.Write? then Min(|c.vol[names[op.path]]|, op.offset) else |c.vol[names[op.path]]|
  }

  ghost function WrittenTo(op: Op): nat
    requires op.Write? || op.Truncate?
  {
    if op.Write? then op.offset + |op.buf| else op.size
  }

  /** The blocks a call may want in the cache. */
  ghost function Spread(names: map<Path, Inode>, c: Copies, op: Op): set<(Inode, nat)>
    requires Named(names, c) && Apt(names, op)
  {
    if op.Write? || op.Truncate? then Of(names[op.path], Extent(WrittenFrom(names, c, op), WrittenTo(op))) else {}
  }

  /** The new blocks of the call fit in the free pages. */
  ghost predicate Room(names: map<Path, Inode>, s: Shot, op: Op)
    requires Named(names, s.copies) && Apt(names, op)
  {
    |Spread(names, s.copies, op) - s.held| <= s.free
  }

  /** The blocks of inode `o` that start at or past `size`. */
  ghost function Past(held: set<(Inode, nat)>, o: Inode, size: nat): (r: set<(Inode, nat)>)
    ensures forall x :: x in r <==> x in held && x.0 == o && Start(x.1) >= size
  {
    set x | x in held && x.0 == o && Start(x.1) >= size
  }

  /** Of the blocks held, those a call leaves in their pages: a clear none, a shrinking truncate by inode
      those before the new end. */
  ghost function Kept(names: map<Path, Inode>, c: Copies, held: set<(Inode, nat)>, op: Op): set<(Inode, nat)>
    requires Named(names, c) && Apt(names, op)
  {
    if op.Clear? then {}
    else if op.Truncate? && op.byInode && op.size < |c.vol[names[op.path]]| then held - Past(held, names[op.path], op.size)
    else held
  }

  /** Of the blocks in `was`, those the call does not save or drop. */
  ghost function StillUnsaved(names: map<Path, Inode>, reached: set<Inode>, op: Op, was: set<(Inode, nat)>): (r: set<(Inode, nat)>)
    ensures forall x :: x in r <==> x in was && !op.Clear? && !Saves(names, reached, op, x.0)
  {
    set x | x in was && !op.Clear? && !Saves(names, reached, op, x.0)
  }

  /** The durable copies a call with room leaves: as they should be, but that a checkpoint reaches only the
      inodes some known path leads to. */
  ghost function Settled(names: map<Path, Inode>, s: Shot, op: Op): map<Inode, Image>
    requires Named(names, s.copies) && Apt(names, op)
  {
    if op.Checkpoint? then map i | i in s.copies.dur :: if i in s.mapped then s.copies.vol[i] else s.copies.dur[i]
    else After(names, s.copies, op).dur
  }

  /** The paths a call makes known, and the clear forgets. */
  ghost predicate Maps(names: map<Path, Inode>, mapped: set<Inode>, op: Op, mapped': set<Inode>)
    requires Apt(names, op)
  {
    if op.Clear? then mapped' <= mapped
    else if op.Checkpoint? then mapped' == mapped
    else mapped' == mapped + {names[op.path]}
  }

  ghost predicate AllListed(unsynced: set<(Inode, nat)>, listed: set<Inode>) {
    forall x | x in unsynced :: x.0 in listed
  }

  /** Which inodes the report lists after a call: those with an unsynced block, and none but the ones it listed
      before, without those the call saves or drops, and the one it writes. */
  ghost predicate Lists(names: map<Path, Inode>, reached: set<Inode>, op: Op, was: set<Inode>, now: set<Inode>, unsynced': set<(Inode, nat)>) {
    && (forall i | i in was && !op.Clear? && !Saves(names, reached, op, i) :: i in now)
    && (forall i | i in now :: (i in was && !op.Clear? && !Saves(names, reached, op, i)) || Writes(names, op, i))
    && AllListed(unsynced', now)
  }

  /** What one call may do. Only a write or a growing truncate that finds no room may touch the durable
      copy of its file, and then with no byte but those readers now see there; readers cannot tell. A page
      is left only if all the blocks the call wants are in. */
  ghost predicate Steps(names: map<Path, Inode>, s: Shot, op: Op, s': Shot, out: Output)
    requires Named(names, s.copies) && Apt(names, op)
  {
    && Named(names, s'.copies) && Answered(names, s.copies, op, out)
    && s'.copies.vol == After(names, s.copies, op).vol
    && s'.copies.dur.Keys == s.copies.dur.Keys
    && (Room(names, s, op) ==> s'.copies.dur == Settled(names, s, op))
    && (forall j | j in s.copies.dur :: if Writes(names, op, j)
          then Torn(s.copies.dur[j], s'.copies.dur[j], s'.copies.vol[j], WrittenFrom(names, s.copies, op), WrittenTo(op))
          else Room(names, s, op) || s'.copies.dur[j] == s.copies.dur[j])
    && Kept(names, s.copies, s.held, op) <= s'.held <= Kept(names, s.copies, s.held, op) + Spread(names, s.copies, op)
    && (s'.free > 0 ==> Spread(names, s.copies, op) <= s'.held)
    && s'.unsynced == s'.held * (StillUnsaved(names, s.mapped, op, s.unsynced) + Spread(names, s.copies, op))
    && Maps(names, s.mapped, op, s'.mapped) && Lists(names, s.mapped, op, s.listed, s'.listed, s'.unsynced)
  }

  /** The same, of any two states. */
  ghost predicate Stepped(names: map<Path, Inode>, s: Shot, op: Op, s': Shot, out: Output) {
    Named(names, s.copies) && Apt(names, op) && Steps(names, s, op, s', out)
  }

  ghost predicate Counted(s: Shot, pages: nat) {
    |s.held| + s.free == pages
  }

  /** A run as it happened: the states between the calls and what each call handed back. */
  ghost predicate Happened(names: map<Path, Inode>, pages: nat, shots: seq<Shot>, ops: seq<Op>, outs: seq<Output>)
  {
    && |shots| == |ops| + 1 && |outs| == |ops|
    && (forall op | op in ops :: Apt(names, op))
    && (forall k | 0 <= k < |shots| :: Named(names, shots[k].copies) && Counted(shots[k], pages))
    && forall k | 0 <= k < |ops| :: Steps(names, shots[k], ops[k], shots[k + 1], outs[k])
  }

  /** How the states before and after a call on inode `o`, that drops `gone` and wants `blocks`, compare. */
  ghost predicate Moved(s: Shot, s': Shot, o: Inode, gone: set<nat>, blocks: set<nat>, vol: Image, dur: Image, unsaved: set<(Inode, nat)>) {
    && o in s.copies.vol && s'.copies == Copies(s.copies.vol[o := vol], s.copies.dur[o := dur])
    && s.held - Of(o, gone) <= s'.held <= s.held - Of(o, gone) + Of(o, blocks) && (s'.free > 0 ==> Of(o, blocks) <= s'.held)
    && s'.unsynced == s'.held * (unsaved + Of(o, blocks)) && s'.mapped == s.mapped + {o}
  }

  lemma MovedSteps(names: map<Path, Inode>, s: Shot, op: Op, s': Shot, out: Output, o: Inode, gone: set<nat>, blocks: set<nat>,
                   vol: Image, dur: Image, dur': Image)
    requires Named(names, s.copies) && Apt(names, op) && !op.Clear? && !op.Checkpoint? && names[op.path] == o
    requires Answered(names, s.copies, op, out)
    requires Moved(s, s', o, gone, blocks, vol, dur', StillUnsaved(names, s.mapped, op, s.unsynced))
    requires Lists(names, s.mapped, op, s.listed, s'.listed, s'.unsynced)
    requires After(names, s.copies, op) == Copies(s.copies.vol[o := vol], s.copies.dur[o := dur])
    requires Spread(names, s.copies, op) == Of(o, blocks) && Kept(names, s.copies, s.held, op) == s.held - Of(o, gone)
    requires |Of(o, blocks) - s.held| <= s.free ==> dur' == dur
    requires if Writes(names, op, o) then Torn(s.copies.dur[o], dur', vol, WrittenFrom(names, s.copies, op), WrittenTo(op)) else blocks == {}
    ensures Steps(names, s, op, s', out)
  {
    hide Answered, Spread, After, Of, StillUnsaved, Kept, Torn, WrittenFrom, WrittenTo, Writes, Room, Settled, Named, Lists;
    MovedNamed(names, s.copies, o, vol, dur');
    MovedDurables(names, s, op, s'.copies.vol, s'.copies.dur, o, blocks, dur, dur');
    SettledPlain(names, s, op);
  }

  lemma MovedNamed(names: map<Path, Inode>, c: Copies, o: Inode, vol: Image, dur: Image)
    requires Named(names, c) && o in c.vol
    ensures Named(names, Copies(c.vol[o := vol], c.dur[o := dur]))
    ensures o in c.dur && c.vol.Keys == c.vol[o := vol].Keys && c.dur.Keys == c.dur[o := dur].Keys
  {}

  lemma SettledPlain(names: map<Path, Inode>, s: Shot, op: Op)
    requires Named(names, s.copies) && Apt(names, op) && !op.Checkpoint?
    ensures Settled(names, s, op) == After(names, s.copies, op).dur
  {}

  lemma MovedDurables(names: map<Path, Inode>, s: Shot, op: Op, vol': map<Inode, Image>, durs': map<Inode, Image>, o: Inode,
                      blocks: set<nat>, dur: Image, dur': Image)
    requires Named(names, s.copies) && Apt(names, op) && !op.Clear? && !op.Checkpoint? && names[op.path] == o
    requires o in vol' && vol'.Keys == s.copies.vol.Keys && durs' == s.copies.dur[o := dur']
    requires Spread(names, s.copies, op) == Of(o, blocks) && (|Of(o, blocks) - s.held| <= s.free ==> dur' == dur)
    requires if Writes(names, op, o) then Torn(s.copies.dur[o], dur', vol'[o], WrittenFrom(names, s.copies, op), WrittenTo(op)) else blocks == {}
    ensures Room(names, s, op) ==> durs' == s.copies.dur[o := dur]
    ensures forall j | j in s.copies.dur :: if Writes(names, op, j)
              then Torn(s.copies.dur[j], durs'[j], vol'[j], WrittenFrom(names, s.copies, op), WrittenTo(op))
              else Room(names, s, op) || durs'[j] == s.copies.dur[j]
  {
    hide Spread, Of, Torn, WrittenFrom, WrittenTo;
    if !Writes(names, op, o) { assert Of(o, blocks) == {} && Of(o, blocks) - s.held == {} by { EmptyOf(o); } }
    forall j | j in s.copies.dur && j != o ensures !Writes(names, op, j) {}
  }

  lemma CheckpointPlain(names: map<Path, Inode>, s: Shot)
    requires Named(names, s.copies)
    ensures Kept(names, s.copies, s.held, Checkpoint) == s.held && Spread(names, s.copies, Checkpoint) == {}
    ensures After(names, s.copies, Checkpoint) == Copies(s.copies.vol, s.copies.vol)
  {}

  lemma CheckpointMoved(names: map<Path, Inode>, s: Shot, s': Shot)
    requires Named(names, s.copies) && s'.copies.vol == s.copies.vol
    requires s'.copies.dur == map i | i in s.copies.dur :: if i in s.mapped then s.copies.vol[i] else s.copies.dur[i]
    requires s'.held == s.held && s'.unsynced == s'.held * StillUnsaved(names, s.mapped, Checkpoint, s.unsynced) && s'.mapped == s.mapped
    requires Lists(names, s.mapped, Checkpoint, s.listed, s'.listed, s'.unsynced)
    ensures Steps(names, s, Checkpoint, s', Done)
  {
    hide Lists, StillUnsaved, Answered, Torn, Room, Spread, Kept, After;
    NothingToAnswer(names, s.copies, Checkpoint, Done);
    NoSpread(names, s, Checkpoint);
    CheckpointPlain(names, s);
  }

  /** The calls on one inode, in the terms of that inode. */
  lemma AfterWrite(names: map<Path, Inode>, c: Copies, p: Path, buf: Image, offset: nat)
    requires Named(names, c) && Apt(names, Write(p, buf, offset))
    ensures var o, op := names[p], Write(p, buf, offset);
            && After(names, c, op) == Copies(c.vol[o := Pwrite(c.vol[o], buf, offset)], c.dur[o := c.dur[o]])
            && WrittenFrom(names, c, op) == Min(|c.vol[o]|, offset) && WrittenTo(op) == offset + |buf|
            && Spread(names, c, op) == Of(o, Extent(Min(|c.vol[o]|, offset), offset + |buf|))
  {
    assert c.dur[names[p] := c.dur[names[p]]] == c.dur;
  }

  lemma AfterTruncate(names: map<Path, Inode>, c: Copies, p: Path, size: nat, byInode: bool)
    requires Named(names, c) && Apt(names, Truncate(p, size, byInode))
    ensures var o, op := names[p], Truncate(p, size, byInode);
            && After(names, c, op) == Copies(c.vol[o := Ftruncate(c.vol[o], size)], c.dur[o := c.dur[o]])
            && WrittenFrom(names, c, op) == |c.vol[o]| && WrittenTo(op) == size
            && Spread(names, c, op) == Of(o, Extent(|c.vol[o]|, size))
  {
    assert c.dur[names[p] := c.dur[names[p]]] == c.dur;
  }

  lemma AfterRead(names: map<Path, Inode>, c: Copies, p: Path, len: nat, offset: nat)
    requires Named(names, c) && Apt(names, Read(p, len, offset))
    ensures var o := names[p];
            && After(names, c, Read(p, len, offset)) == Copies(c.vol[o := c.vol[o]], c.dur[o := c.dur[o]])
            && Spread(names, c, Read(p, len, offset)) == Of(o, {})
  {
    var o := names[p];
    assert c.vol[o := c.vol[o]] == c.vol && c.dur[o := c.dur[o]] == c.dur;
    assert Of(o, {}) == {};
  }

  lemma AfterFsync(names: map<Path, Inode>, c: Copies, p: Path)
    requires Named(names, c) && Apt(names, Fsync(p))
    ensures var o := names[p];
            && After(names, c, Fsync(p)) == Copies(c.vol[o := c.vol[o]], c.dur[o := c.vol[o]])
            && Spread(names, c, Fsync(p)) == Of(o, {})
  {
    var o := names[p];
    assert c.vol[o := c.vol[o]] == c.vol;
    assert Of(o, {}) == {};
  }

  /** A call has room exactly when the blocks held and those it wants fit in the pool together. */
  lemma RoomCount(names: map<Path, Inode>, pages: nat, s: Shot, op: Op)
    requires Named(names, s.copies) && Apt(names, op) && Counted(s, pages)
    ensures Room(names, s, op) <==> |s.held + Spread(names, s.copies, op)| <= pages
  {
    hide Spread;
    var added := Spread(names, s.copies, op) - s.held;
    assert s.held + Spread(names, s.copies, op) == s.held + added;
    assert |s.held + added| == |s.held| + |added|;
  }

  /** With room, the blocks held after a call are those it keeps and those it wants; without, no page is
      left. */
  lemma HeldExact(names: map<Path, Inode>, pages: nat, s: Shot, op: Op, s': Shot, out: Output)
    requires Named(names, s.copies) && Apt(names, op) && Steps(names, s, op, s', out) && Counted(s, pages) && Counted(s', pages)
    ensures Room(names, s, op) ==> s'.held == Kept(names, s.copies, s.held, op) + Spread(names, s.copies, op)
    ensures !Room(names, s, op) ==> s'.free == 0
  {
    hide Spread, Kept, Answered, StillUnsaved, Torn, After, Settled;
    var kept, spread := Kept(names, s.copies, s.held, op), Spread(names, s.copies, op);
    RoomCount(names, pages, s, op);
    KeptAll(names, s, op);
    if s'.free == 0 {
      if spread != {} && Room(names, s, op) { SameSize(s'.held, s.held + spread); }
    } else {
      assert s'.held == kept + spread;
      if spread == {} { NoneWanted(names, s, op); }
    }
  }

  lemma KeptAll(names: map<Path, Inode>, s: Shot, op: Op)
    requires Named(names, s.copies) && Apt(names, op)
    ensures Spread(names, s.copies, op) != {} ==> Kept(names, s.copies, s.held, op) == s.held
  {
    if op.Truncate? { ExtentEmpty(|s.copies.vol[names[op.path]]|, op.size); }
  }

  lemma NoneWanted(names: map<Path, Inode>, s: Shot, op: Op)
    requires Named(names, s.copies) && Apt(names, op) && Spread(names, s.copies, op) == {}
    ensures Room(names, s, op)
  {
    assert Spread(names, s.copies, op) - s.held == {};
  }

  lemma SameSize<T>(a: set<T>, b: set<T>)
    requires a <= b && |b| <= |a|
    ensures a == b
  {
    assert b == a + (b - a);
  }

  lemma HappenedNone(names: map<Path, Inode>, pages: nat, s: Shot)
    requires Named(names, s.copies) && Counted(s, pages)
    ensures Happened(names, pages, [s], [], [])
  {}

  lemma HappenedMore(names: map<Path, Inode>, pages: nat, shots: seq<Shot>, ops: seq<Op>, outs: seq<Output>, op: Op, s: Shot, out: Output)
    requires Happened(names, pages, shots, ops, outs) && Apt(names, op) && Named(names, s.copies) && Counted(s, pages)
    requires Stepped(names, shots[|ops|], op, s, out)
    ensures Happened(names, pages, shots + [s], ops + [op], outs + [out])
  {
    hide Steps, Named, Counted;
    var shots', ops', outs' := shots + [s], ops + [op], outs + [out];
    forall k | 0 <= k < |ops'|
      ensures Apt(names, ops'[k]) && Named(names, shots'[k].copies) && Steps(names, shots'[k], ops'[k], shots'[k + 1], outs'[k])
    {
      if k < |ops| { assert Steps(names, shots[k], ops[k], shots[k + 1], outs[k]); }
    }
  }

  /* ---------------------------------------------------------------- runs that find room */

  /** The shots and calls of a run fit together; what `Happened` says besides is left out. */
  ghost predicate Sound(names: map<Path, Inode>, shots: seq<Shot>, ops: seq<Op>) {
    && |shots| == |ops| + 1 && (forall op | op in ops :: Apt(names, op))
    && forall k | 0 <= k < |shots| :: Named(names, shots[k].copies) && shots[k].copies.vol.Keys == shots[0].copies.vol.Keys
  }

  lemma {:induction false} KeysStay(names: map<Path, Inode>, pages: nat, shots: seq<Shot>, ops: seq<Op>, outs: seq<Output>, k: nat)
    requires Happened(names, pages, shots, ops, outs) && k <= |ops|
    ensures shots[k].copies.vol.Keys == shots[0].copies.vol.Keys
  {
    hide Steps, Torn, Counted;
    if k > 0 {
      KeysStay(names, pages, shots, ops, outs, k - 1);
      assert Steps(names, shots[k - 1], ops[k - 1], shots[k - 1 + 1], outs[k - 1]);
      StepShape(names, shots[k - 1], ops[k - 1], shots[k], outs[k - 1]);
    }
  }

  lemma HappenedSound(names: map<Path, Inode>, pages: nat, shots: seq<Shot>, ops: seq<Op>, outs: seq<Output>)
    requires Happened(names, pages, shots, ops, outs)
    ensures Sound(names, shots, ops) && |outs| == |ops|
  {
    forall k | 0 <= k < |shots| ensures shots[k].copies.vol.Keys == shots[0].copies.vol.Keys {
      KeysStay(names, pages, shots, ops, outs, k);
    }
  }

  lemma StepAt(names: map<Path, Inode>, pages: nat, shots: seq<Shot>, ops: seq<Op>, outs: seq<Output>, k: nat)
    requires Happened(names, pages, shots, ops, outs) && k < |ops|
    ensures Sound(names, shots, ops) && |outs| == |ops| && Counted(shots[k], pages)
    ensures Apt(names, ops[k]) && Named(names, shots[k].copies) && Steps(names, shots[k], ops[k], shots[k + 1], outs[k])
  {
    HappenedSound(names, pages, shots, ops, outs);
  }

  lemma StepShape(names: map<Path, Inode>, s: Shot, op: Op, s': Shot, out: Output)
    requires Named(names, s.copies) && Apt(names, op) && Steps(names, s, op, s', out)
    ensures s'.copies.vol == After(names, s.copies, op).vol && Maps(names, s.mapped, op, s'.mapped)
    ensures Lists(names, s.mapped, op, s.listed, s'.listed, s'.unsynced)
    ensures s'.held <= s.held + Spread(names, s.copies, op)
    ensures s'.unsynced == s'.held * (StillUnsaved(names, s.mapped, op, s.unsynced) + Spread(names, s.copies, op))
  {
    hide Torn, Answered, Room, Settled, Spread, After, StillUnsaved, Lists;
  }

  /** Every call of the run finds room at its own time. */
  ghost predicate AllRoom(names: map<Path, Inode>, shots: seq<Shot>, ops: seq<Op>)
    requires Sound(names, shots, ops)
  {
    forall k | 0 <= k < |ops| :: Room(names, shots[k], ops[k])
  }

  /** Every call from `m` to `n - 1` that writes inode `i` finds room; the others may not. */
  ghost predicate OwnRoom(names: map<Path, Inode>, shots: seq<Shot>, ops: seq<Op>, i: Inode, m: nat, n: nat)
    requires Sound(names, shots, ops) && n <= |ops|
  {
    forall k | m <= k < n && Writes(names, ops[k], i) :: Room(names, shots[k], ops[k])
  }

  ghost predicate SameFile(c: Copies, d: Copies, i: Inode) {
    i in c.vol && i in d.vol && i in c.dur && i in d.dur && c.vol[i] == d.vol[i] && c.dur[i] == d.dur[i]
  }

  /** What a call does to one file depends on that file alone. */
  lemma AfterAlone(names: map<Path, Inode>, c: Copies, d: Copies, op: Op, i: Inode)
    requires Named(names, c) && Named(names, d) && Apt(names, op) && SameFile(c, d, i)
    ensures SameFile(After(names, c, op), After(names, d, op), i)
  {}

  /** If the two copies of a file differ, some known path leads to it. */
  ghost predicate Traced(s: Shot, i: Inode) {
    i in s.copies.vol && i in s.copies.dur && (s.copies.vol[i] != s.copies.dur[i] ==> i in s.mapped)
  }

  /** The same of all files and of all unsynced blocks. So it is from mount on as long as no name is removed. */
  ghost predicate Traceable(s: Shot) {
    && (forall i | i in s.copies.vol :: Traced(s, i)) && s.mapped <= s.copies.vol.Keys
    && forall x | x in s.unsynced :: x.0 in s.mapped
  }

  lemma TracedStep(names: map<Path, Inode>, s: Shot, op: Op, s': Shot, out: Output, i: Inode)
    requires Named(names, s.copies) && Apt(names, op) && Steps(names, s, op, s', out) && Traced(s, i)
    ensures Traced(s', i)
  {
    NoSpread(names, s, op);
  }

  lemma TraceableStep(names: map<Path, Inode>, s: Shot, op: Op, s': Shot, out: Output)
    requires Named(names, s.copies) && Apt(names, op) && Steps(names, s, op, s', out) && Traceable(s)
    ensures Traceable(s')
  {
    hide Torn, Answered, Room;
    forall i | i in s'.copies.vol ensures Traced(s', i) {
      assert Traced(s, i);
      TracedStep(names, s, op, s', out, i);
    }
  }

  lemma {:induction false} TraceableTo(names: map<Path, Inode>, pages: nat, shots: seq<Shot>, ops: seq<Op>, outs: seq<Output>, k: nat)
    requires Happened(names, pages, shots, ops, outs) && k <= |ops| && Traceable(shots[0])
    ensures Traceable(shots[k])
  {
    hide Happened, Steps, Traceable;
    if k > 0 {
      TraceableTo(names, pages, shots, ops, outs, k - 1);
      StepAt(names, pages, shots, ops, outs, k - 1);
      TraceableStep(names, shots[k - 1], ops[k - 1], shots[k], outs[k - 1]);
    }
  }

  /** A step is what it should be for every file, but the one it writes without room and those a checkpoint
      does not reach. */
  lemma StepFile(names: map<Path, Inode>, s: Shot, op: Op, s': Shot, out: Output, i: Inode)
    requires Named(names, s.copies) && Apt(names, op) && Steps(names, s, op, s', out) && Traced(s, i)
    requires Writes(names, op, i) ==> Room(names, s, op)
    ensures SameFile(s'.copies, After(names, s.copies, op), i)
  {
    hide Torn;
    if !Room(names, s, op) {
      assert op.Write? || op.Truncate? by { NoSpread(names, s, op); }
    }
  }

  /** What a step does to a durable copy it does not save, and to one it does. */
  lemma StepDurable(names: map<Path, Inode>, s: Shot, op: Op, s': Shot, out: Output, i: Inode)
    requires Named(names, s.copies) && Apt(names, op) && Steps(names, s, op, s', out) && i in s.copies.vol
    ensures i in s.copies.dur && i in s'.copies.dur && i in s'.copies.vol
    ensures !Saves(names, s.mapped, op, i) && (Writes(names, op, i) ==> Room(names, s, op)) ==> s'.copies.dur[i] == s.copies.dur[i]
    ensures Saves(names, s.mapped, op, i) ==> s'.copies.dur[i] == s.copies.vol[i] == s'.copies.vol[i]
    ensures op.Clear? ==> s'.copies.vol[i] == s.copies.dur[i] == s'.copies.dur[i]
    ensures Writes(names, op, i) ==>
              Torn(s.copies.dur[i], s'.copies.dur[i], s'.copies.vol[i], WrittenFrom(names, s.copies, op), WrittenTo(op))
  {
    hide Torn;
    NoSpread(names, s, op);
  }

  /** A call that wants no block has room. */
  lemma NoSpread(names: map<Path, Inode>, s: Shot, op: Op)
    requires Named(names, s.copies) && Apt(names, op)
    ensures !op.Write? && !op.Truncate? ==> Room(names, s, op)
  {
    if !op.Write? && !op.Truncate? { assert Spread(names, s.copies, op) - s.held == {}; }
  }

  /** Crash refinement, file by file: as long as the calls that write inode `i` find room, its two copies
      are what they should be, however full the cache is for others, given that a path leads to it if they
      differ at the start. */
  lemma {:induction false} FileRefines(names: map<Path, Inode>, pages: nat, shots: seq<Shot>, ops: seq<Op>, outs: seq<Output>, i: Inode, k: nat)
    requires Happened(names, pages, shots, ops, outs) && k <= |ops| && Sound(names, shots, ops)
    requires Traced(shots[0], i) && OwnRoom(names, shots, ops, i, 0, k)
    ensures SameFile(shots[k].copies, Run(names, shots[0].copies, ops, k), i) && Traced(shots[k], i)
  {
    hide Happened, Steps, Room, After, Writes;
    if k > 0 {
      FileRefines(names, pages, shots, ops, outs, i, k - 1);
      StepAt(names, pages, shots, ops, outs, k - 1);
      StepFile(names, shots[k - 1], ops[k - 1], shots[k], outs[k - 1], i);
      TracedStep(names, shots[k - 1], ops[k - 1], shots[k], outs[k - 1], i);
      AfterAlone(names, shots[k - 1].copies, Run(names, shots[0].copies, ops, k - 1), ops[k - 1], i);
    }
  }

  lemma NamedAt(names: map<Path, Inode>, c: Copies, i: Inode)
    requires Named(names, c) && i in c.vol
    ensures i in c.dur
  {}

  lemma SameCopies(names: map<Path, Inode>, c: Copies, d: Copies)
    requires Named(names, c) && Named(names, d) && c.vol.Keys == d.vol.Keys
    requires forall i | i in c.vol :: SameFile(c, d, i)
    ensures c == d
  {
    forall i | i in c.vol ensures c.vol[i] == d.vol[i] && c.dur[i] == d.dur[i] { assert SameFile(c, d, i); }
  }

  /** When every call finds room at its own time, both copies of every file are what they should be. */
  lemma CopiesRefine(names: map<Path, Inode>, pages: nat, shots: seq<Shot>, ops: seq<Op>, outs: seq<Output>, k: nat)
    requires Happened(names, pages, shots, ops, outs) && k <= |ops| && Sound(names, shots, ops) && Traceable(shots[0])
    requires forall j | 0 <= j < k :: Room(names, shots[j], ops[j])
    ensures shots[k].copies == Run(names, shots[0].copies, ops, k)
  {
    hide Happened, Room, Run, SameFile, Traced;
    forall i | i in shots[0].copies.vol ensures SameFile(shots[k].copies, Run(names, shots[0].copies, ops, k), i) {
      FileRefines(names, pages, shots, ops, outs, i, k);
    }
    SameCopies(names, shots[k].copies, Run(names, shots[0].copies, ops, k));
  }

  /** What a call that is no crash does to readers depends on what they see alone. */
  lemma AfterReaders(names: map<Path, Inode>, c: Copies, d: Copies, op: Op)
    requires Named(names, c) && Named(names, d) && Apt(names, op) && c.vol == d.vol && !op.Clear?
    ensures After(names, c, op).vol == After(names, d, op).vol
  {}

  /** Without a crash, room does not matter to readers. */
  lemma {:induction false} VolatileRefines(names: map<Path, Inode>, pages: nat, shots: seq<Shot>, ops: seq<Op>, outs: seq<Output>, k: nat)
    requires Happened(names, pages, shots, ops, outs) && k <= |ops| && Sound(names, shots, ops)
    requires forall j | 0 <= j < k :: !ops[j].Clear?
    ensures shots[k].copies.vol == Run(names, shots[0].copies, ops, k).vol
  {
    hide Happened, Steps, After;
    if k > 0 {
      VolatileRefines(names, pages, shots, ops, outs, k - 1);
      StepAt(names, pages, shots, ops, outs, k - 1);
      StepShape(names, shots[k - 1], ops[k - 1], shots[k], outs[k - 1]);
      AfterReaders(names, shots[k - 1].copies, Run(names, shots[0].copies, ops, k - 1), ops[k - 1]);
    }
  }

  /** Every answer is right when the volatile copies are. */
  lemma AnswersRefine(names: map<Path, Inode>, pages: nat, shots: seq<Shot>, ops: seq<Op>, outs: seq<Output>)
    requires Happened(names, pages, shots, ops, outs) && Sound(names, shots, ops) && |outs| == |ops|
    requires forall k | 0 <= k < |ops| :: shots[k].copies.vol == Run(names, shots[0].copies, ops, k).vol
    ensures AllAnswered(names, shots[0].copies, ops, outs)
  {
    hide Run;
    forall k | 0 <= k < |ops| ensures Answered(names, Run(names, shots[0].copies, ops, k), ops[k], outs[k]) {
      StepAt(names, pages, shots, ops, outs, k);
    }
  }

  /* ---------------------------------------------------------------- unsynced blocks */

  /** The blocks written by the first `k` calls, since they were last saved or the cache was cleared. */
  ghost function Unsaved(names: map<Path, Inode>, c: Copies, was: set<(Inode, nat)>, ops: seq<Op>, k: nat): set<(Inode, nat)>
    requires Named(names, c) && k <= |ops| && forall op | op in ops :: Apt(names, op)
  {
    if k == 0 then was else
      StillUnsaved(names, c.vol.Keys, ops[k - 1], Unsaved(names, c, was, ops, k - 1)) + Spread(names, Run(names, c, ops, k - 1), ops[k - 1])
  }

  /** The same, with the sizes the files had when it happened. */
  ghost function UnsavedBy(names: map<Path, Inode>, shots: seq<Shot>, was: set<(Inode, nat)>, ops: seq<Op>, k: nat): set<(Inode, nat)>
    requires Sound(names, shots, ops) && k <= |ops|
  {
    if k == 0 then was else
      StillUnsaved(names, shots[k - 1].mapped, ops[k - 1], UnsavedBy(names, shots, was, ops, k - 1)) + Spread(names, shots[k - 1].copies, ops[k - 1])
  }

  /** In any run, room or not, the blocks marked unsynced are those held that were written and not saved
      since. */
  lemma {:induction false} UnsyncedTo(names: map<Path, Inode>, pages: nat, shots: seq<Shot>, ops: seq<Op>, outs: seq<Output>,
                                      was: set<(Inode, nat)>, k: nat)
    requires Happened(names, pages, shots, ops, outs) && k <= |ops| && Sound(names, shots, ops)
    requires shots[0].unsynced == shots[0].held * was
    ensures shots[k].unsynced == shots[k].held * UnsavedBy(names, shots, was, ops, k)
  {
    hide Happened, Spread, Steps;
    if k > 0 {
      UnsyncedTo(names, pages, shots, ops, outs, was, k - 1);
      StepAt(names, pages, shots, ops, outs, k - 1);
      StepShape(names, shots[k - 1], ops[k - 1], shots[k], outs[k - 1]);
    }
  }

  lemma SpreadAlone(names: map<Path, Inode>, c: Copies, d: Copies, op: Op)
    requires Named(names, c) && Named(names, d) && Apt(names, op) && c.vol == d.vol
    ensures Spread(names, c, op) == Spread(names, d, op)
  {}

  /** Some known path leads to each inode that is not saved. */
  lemma {:induction false} UnsavedMapped(names: map<Path, Inode>, pages: nat, shots: seq<Shot>, ops: seq<Op>, outs: seq<Output>,
                                         was: set<(Inode, nat)>, k: nat)
    requires Happened(names, pages, shots, ops, outs) && k <= |ops| && Sound(names, shots, ops)
    requires Traceable(shots[0]) && forall x | x in was :: x.0 in shots[0].mapped
    ensures forall x | x in UnsavedBy(names, shots, was, ops, k) :: x.0 in shots[k].mapped
  {
    hide Happened, Steps, Traceable, Spread, StillUnsaved;
    if k > 0 {
      UnsavedMapped(names, pages, shots, ops, outs, was, k - 1);
      StepAt(names, pages, shots, ops, outs, k - 1);
      StepShape(names, shots[k - 1], ops[k - 1], shots[k], outs[k - 1]);
      MappedStep(names, shots[k - 1], ops[k - 1], shots[k].mapped, UnsavedBy(names, shots, was, ops, k - 1));
    }
  }

  lemma MappedStep(names: map<Path, Inode>, s: Shot, op: Op, mapped': set<Inode>, was: set<(Inode, nat)>)
    requires Named(names, s.copies) && Apt(names, op) && Maps(names, s.mapped, op, mapped') && forall x | x in was :: x.0 in s.mapped
    ensures forall x | x in StillUnsaved(names, s.mapped, op, was) + Spread(names, s.copies, op) :: x.0 in mapped'
  {}

  lemma {:induction false} UnsavedSame(names: map<Path, Inode>, pages: nat, shots: seq<Shot>, ops: seq<Op>, outs: seq<Output>,
                                       was: set<(Inode, nat)>, k: nat)
    requires Happened(names, pages, shots, ops, outs) && k <= |ops| && Sound(names, shots, ops)
    requires Traceable(shots[0]) && forall x | x in was :: x.0 in shots[0].mapped
    requires forall j | 0 <= j < k :: shots[j].copies.vol == Run(names, shots[0].copies, ops, j).vol
    ensures UnsavedBy(names, shots, was, ops, k) == Unsaved(names, shots[0].copies, was, ops, k)
  {
    hide Happened, Run, Spread, StillUnsaved, Named, Apt, Traceable, Steps;
    if k > 0 {
      UnsavedSame(names, pages, shots, ops, outs, was, k - 1);
      UnsavedMapped(names, pages, shots, ops, outs, was, k - 1);
      TraceableTo(names, pages, shots, ops, outs, k - 1);
      ReachedAll(names, shots[k - 1], shots[0].copies.vol.Keys, ops[k - 1], UnsavedBy(names, shots, was, ops, k - 1));
      SpreadAlone(names, shots[k - 1].copies, Run(names, shots[0].copies, ops, k - 1), ops[k - 1]);
    }
  }

  lemma ReachedAll(names: map<Path, Inode>, s: Shot, all: set<Inode>, op: Op, was: set<(Inode, nat)>)
    requires Traceable(s) && s.copies.vol.Keys == all && forall x | x in was :: x.0 in s.mapped
    ensures StillUnsaved(names, s.mapped, op, was) == StillUnsaved(names, all, op, was)
  {}

  /* ---------------------------------------------------------------- the report */

  /** Call `m` saves inode `i` or clears the cache, and none after it up to `n - 1` writes the inode. */
  ghost predicate SavedAt(names: map<Path, Inode>, shots: seq<Shot>, ops: seq<Op>, i: Inode, m: nat, n: nat)
    requires m < n <= |ops| < |shots|
  {
    && (Saves(names, shots[m].mapped, ops[m], i) || ops[m].Clear?)
    && forall k | m < k < n :: !Writes(names, ops[k], i)
  }

  /** Call `m` writes inode `i`, with room, and none after it up to `n - 1` saves the inode or clears the cache. */
  ghost predicate WrittenAt(names: map<Path, Inode>, shots: seq<Shot>, ops: seq<Op>, i: Inode, m: nat, n: nat)
    requires Sound(names, shots, ops) && m < n <= |ops|
  {
    && ops[m].Write? && Writes(names, ops[m], i) && Room(names, shots[m], ops[m])
    && forall k | m < k < n :: !Saves(names, shots[k].mapped, ops[k], i) && !ops[k].Clear?
  }

  /** A file that was saved, or dropped by a clear, and not written since is not in the report. */
  lemma {:induction false} SavedNotListed(names: map<Path, Inode>, pages: nat, shots: seq<Shot>, ops: seq<Op>, outs: seq<Output>,
                                          i: Inode, save: nat, n: nat)
    requires Happened(names, pages, shots, ops, outs) && Sound(names, shots, ops) && save < n <= |ops|
    requires SavedAt(names, shots, ops, i, save, n)
    ensures i !in shots[n].listed
    decreases n
  {
    hide Happened, Steps, Spread;
    if n > save + 1 { SavedNotListed(names, pages, shots, ops, outs, i, save, n - 1); }
    StepAt(names, pages, shots, ops, outs, n - 1);
    StepShape(names, shots[n - 1], ops[n - 1], shots[n], outs[n - 1]);
  }

  /** What a write with room brings in is unsynced, so its file is in the report. */
  lemma WriteLists(names: map<Path, Inode>, pages: nat, s: Shot, op: Op, s': Shot, out: Output)
    requires Named(names, s.copies) && Apt(names, op) && Steps(names, s, op, s', out) && Counted(s, pages) && Counted(s', pages)
    requires op.Write? && Room(names, s, op)
    ensures names[op.path] in s'.listed
  {
    hide Steps, Room, Kept, StillUnsaved;
    HeldExact(names, pages, s, op, s', out);
    StepShape(names, s, op, s', out);
    var from, end := WrittenFrom(names, s.copies, op), WrittenTo(op);
    BlockOfMonotone(from, end - 1);
    assert (names[op.path], BlockOf(from)) in Spread(names, s.copies, op);
    assert (names[op.path], BlockOf(from)) in s'.unsynced;
  }

  /** A file that was written with room is in the report until it is saved or the cache is cleared. */
  lemma {:induction false} WrittenListed(names: map<Path, Inode>, pages: nat, shots: seq<Shot>, ops: seq<Op>, outs: seq<Output>,
                                         i: Inode, write: nat, n: nat)
    requires Happened(names, pages, shots, ops, outs) && Sound(names, shots, ops) && write < n <= |ops|
    requires WrittenAt(names, shots, ops, i, write, n)
    ensures i in shots[n].listed
    decreases n
  {
    hide Happened, Steps, Spread, Room;
    StepAt(names, pages, shots, ops, outs, n - 1);
    if n > write + 1 {
      WrittenListed(names, pages, shots, ops, outs, i, write, n - 1);
      StepShape(names, shots[n - 1], ops[n - 1], shots[n], outs[n - 1]);
    } else {
      CountedAt(names, pages, shots, ops, outs, n);
      WriteLists(names, pages, shots[write], ops[write], shots[n], outs[write]);
    }
  }

  /* ---------------------------------------------------------------- a condition to check before the run */

  /** The blocks held after the first `k` calls, from those held before, when each call finds room. */
  ghost function HeldBy(names: map<Path, Inode>, held: set<(Inode, nat)>, c: Copies, ops: seq<Op>, k: nat): set<(Inode, nat)>
    requires Named(names, c) && k <= |ops| && forall op | op in ops :: Apt(names, op)
  {
    if k == 0 then held else
      var d := Run(names, c, ops, k - 1);
      Kept(names, d, HeldBy(names, held, c, ops, k - 1), ops[k - 1]) + Spread(names, d, ops[k - 1])
  }

  /** The blocks held and those wanted fit in the cache at each call: a condition on the calls, the sizes
      of the files and the blocks held at the start. */
  ghost predicate Roomy(names: map<Path, Inode>, pages: nat, held: set<(Inode, nat)>, c: Copies, ops: seq<Op>)
    requires Named(names, c) && forall op | op in ops :: Apt(names, op)
  {
    forall k | 0 <= k < |ops| :: FitsAt(names, pages, held, c, ops, k)
  }

  ghost predicate FitsAt(names: map<Path, Inode>, pages: nat, held: set<(Inode, nat)>, c: Copies, ops: seq<Op>, k: nat)
    requires Named(names, c) && k < |ops| && forall op | op in ops :: Apt(names, op)
  {
    |HeldBy(names, held, c, ops, k) + Spread(names, Run(names, c, ops, k), ops[k])| <= pages
  }

  /** The blocks held are known as long as each call finds room. */
  lemma {:induction false} HeldTo(names: map<Path, Inode>, pages: nat, shots: seq<Shot>, ops: seq<Op>, outs: seq<Output>, k: nat)
    requires Happened(names, pages, shots, ops, outs) && k <= |ops| && Sound(names, shots, ops) && Traceable(shots[0])
    requires forall j | 0 <= j < k :: Room(names, shots[j], ops[j])
    ensures shots[k].held == HeldBy(names, shots[0].held, shots[0].copies, ops, k)
  {
    hide Happened, Room, Spread, Kept, Run, Steps, Counted, Traceable;
    if k > 0 {
      HeldTo(names, pages, shots, ops, outs, k - 1);
      CopiesRefine(names, pages, shots, ops, outs, k - 1);
      StepAt(names, pages, shots, ops, outs, k - 1);
      CountedAt(names, pages, shots, ops, outs, k);
      HeldExact(names, pages, shots[k - 1], ops[k - 1], shots[k], outs[k - 1]);
    }
  }

  lemma CountedAt(names: map<Path, Inode>, pages: nat, shots: seq<Shot>, ops: seq<Op>, outs: seq<Output>, k: nat)
    requires Happened(names, pages, shots, ops, outs) && k <= |ops|
    ensures Counted(shots[k], pages)
  {}

  lemma FitsIsRoom(names: map<Path, Inode>, pages: nat, shots: seq<Shot>, ops: seq<Op>, outs: seq<Output>, k: nat)
    requires Happened(names, pages, shots, ops, outs) && k < |ops| && Sound(names, shots, ops) && Traceable(shots[0])
    requires forall j | 0 <= j < k :: Room(names, shots[j], ops[j])
    ensures Room(names, shots[k], ops[k]) <==> FitsAt(names, pages, shots[0].held, shots[0].copies, ops, k)
  {
    hide Happened, Room, Spread, Run, Counted, HeldBy, Traceable, Named;
    HeldTo(names, pages, shots, ops, outs, k);
    CopiesRefine(names, pages, shots, ops, outs, k);
    CountedAt(names, pages, shots, ops, outs, k);
    RoomCount(names, pages, shots[k], ops[k]);
  }

  lemma {:induction false} RoomyTo(names: map<Path, Inode>, pages: nat, shots: seq<Shot>, ops: seq<Op>, outs: seq<Output>, k: nat)
    requires Happened(names, pages, shots, ops, outs) && k <= |ops| && Sound(names, shots, ops) && Traceable(shots[0])
    requires Roomy(names, pages, shots[0].held, shots[0].copies, ops)
    ensures forall j | 0 <= j < k :: Room(names, shots[j], ops[j])
  {
    hide Happened, Room, FitsAt, Traceable;
    if k > 0 {
      RoomyTo(names, pages, shots, ops, outs, k - 1);
      FitsIsRoom(names, pages, shots, ops, outs, k - 1);
    }
  }

  /** Whether every call finds room can be told before the run. */
  lemma RoomyIsRoom(names: map<Path, Inode>, pages: nat, shots: seq<Shot>, ops: seq<Op>, outs: seq<Output>)
    requires Happened(names, pages, shots, ops, outs) && Sound(names, shots, ops) && Traceable(shots[0])
    ensures Roomy(names, pages, shots[0].held, shots[0].copies, ops) <==> AllRoom(names, shots, ops)
  {
    hide Happened, Room, FitsAt, Traceable;
    if Roomy(names, pages, shots[0].held, shots[0].copies, ops) { RoomyTo(names, pages, shots, ops, outs, |ops|); }
    if AllRoom(names, shots, ops) {
      forall k | 0 <= k < |ops| ensures FitsAt(names, pages, shots[0].held, shots[0].copies, ops, k) {
        FitsIsRoom(names, pages, shots, ops, outs, k);
      }
    }
  }

  /* ---------------------------------------------------------------- what runs promise */

  /** No call from `m` to `n - 1` saves inode `i`. */
  ghost predicate Unsaving(names: map<Path, Inode>, shots: seq<Shot>, ops: seq<Op>, i: Inode, m: nat, n: nat)
    requires Sound(names, shots, ops) && n <= |ops|
  {
    forall k | m <= k < n :: !Saves(names, shots[k].mapped, ops[k], i)
  }

  /** No call from `m` to `n - 1` saves inode `i`, and those that write it find room. */
  ghost predicate Undisturbed(names: map<Path, Inode>, shots: seq<Shot>, ops: seq<Op>, i: Inode, m: nat, n: nat)
    requires Sound(names, shots, ops) && n <= |ops|
  {
    OwnRoom(names, shots, ops, i, m, n) && Unsaving(names, shots, ops, i, m, n)
  }

  /** Nothing but a save of inode `i`, or a write of it that finds no room, touches its durable copy. */
  lemma {:induction false} DurableKept(names: map<Path, Inode>, pages: nat, shots: seq<Shot>, ops: seq<Op>, outs: seq<Output>,
                                       i: Inode, m: nat, n: nat)
    requires Happened(names, pages, shots, ops, outs) && Sound(names, shots, ops) && m <= n <= |ops|
    requires i in shots[0].copies.vol && Undisturbed(names, shots, ops, i, m, n)
    ensures i in shots[m].copies.dur && i in shots[n].copies.dur && shots[n].copies.dur[i] == shots[m].copies.dur[i]
    decreases n
  {
    hide Happened, Steps, Room;
    NamedAt(names, shots[m].copies, i);
    if m < n {
      DurableKept(names, pages, shots, ops, outs, i, m, n - 1);
      StepAt(names, pages, shots, ops, outs, n - 1);
      StepDurable(names, shots[n - 1], ops[n - 1], shots[n], outs[n - 1], i);
    }
  }

  /** Whatever happens after a save, short of another save of that file or a write of it without room, a
      crash brings back exactly what readers saw when it was saved. */
  lemma CrashRestoresLastSync(names: map<Path, Inode>, pages: nat, shots: seq<Shot>, ops: seq<Op>, outs: seq<Output>,
                              i: Inode, save: nat, crash: nat)
    requires Happened(names, pages, shots, ops, outs) && Sound(names, shots, ops) && save < crash < |ops|
    requires i in shots[0].copies.vol && Saves(names, shots[save].mapped, ops[save], i) && ops[crash].Clear?
    requires Undisturbed(names, shots, ops, i, save + 1, crash)
    ensures i in shots[save].copies.vol && i in shots[crash + 1].copies.vol
    ensures shots[crash + 1].copies.vol[i] == shots[save].copies.vol[i]
  {
    hide Happened, Steps, Room, OwnRoom;
    StepAt(names, pages, shots, ops, outs, save);
    StepDurable(names, shots[save], ops[save], shots[save + 1], outs[save], i);
    DurableKept(names, pages, shots, ops, outs, i, save + 1, crash);
    StepAt(names, pages, shots, ops, outs, crash);
    StepDurable(names, shots[crash], ops[crash], shots[crash + 1], outs[crash], i);
  }

  /** Readers saw this byte at `p` at some moment from `m` to `n`. */
  ghost predicate SeenAt(shots: seq<Shot>, i: Inode, m: nat, n: nat, p: nat, byte: Byte)
    requires n < |shots|
  {
    exists j :: m <= j <= n && i in shots[j].copies.vol && p < |shots[j].copies.vol[i]| && shots[j].copies.vol[i][p] == byte
  }

  /** The durable copy, room or not, when nothing saves the file from `m` on: it is no shorter, and each byte
      is as it was at `m`, zero past the end of then, or one that readers saw there since. */
  ghost predicate Mixed(shots: seq<Shot>, i: Inode, m: nat, n: nat)
    requires m <= n < |shots|
  {
    && i in shots[m].copies.dur && i in shots[n].copies.dur && |shots[m].copies.dur[i]| <= |shots[n].copies.dur[i]|
    && var was, now := shots[m].copies.dur[i], shots[n].copies.dur[i];
       forall p: nat | p < |now| :: now[p] == (if p < |was| then was[p] else 0) || SeenAt(shots, i, m + 1, n, p, now[p])
  }

  lemma MixedTorn(shots: seq<Shot>, i: Inode, m: nat, n: nat, from: nat, end: nat)
    requires m <= n < |shots| - 1 && Mixed(shots, i, m, n) && i in shots[n + 1].copies.vol && i in shots[n + 1].copies.dur
    requires Torn(shots[n].copies.dur[i], shots[n + 1].copies.dur[i], shots[n + 1].copies.vol[i], from, end)
    ensures Mixed(shots, i, m, n + 1)
  {
    var was, before, now := shots[m].copies.dur[i], shots[n].copies.dur[i], shots[n + 1].copies.dur[i];
    forall p: nat | p < |now| ensures now[p] == (if p < |was| then was[p] else 0) || SeenAt(shots, i, m + 1, n + 1, p, now[p]) {
      if p < |before| && now[p] == before[p] {
        if SeenAt(shots, i, m + 1, n, p, before[p]) {
          var j :| m + 1 <= j <= n && i in shots[j].copies.vol && p < |shots[j].copies.vol[i]| && shots[j].copies.vol[i][p] == before[p];
        }
      } else if p < |before| || now[p] != 0 {
        assert shots[n + 1].copies.vol[i][p] == now[p];
      }
    }
  }

  /** Writes that find no room do no more harm than this. */
  lemma {:induction false} DurableMixed(names: map<Path, Inode>, pages: nat, shots: seq<Shot>, ops: seq<Op>, outs: seq<Output>,
                                        i: Inode, m: nat, n: nat)
    requires Happened(names, pages, shots, ops, outs) && Sound(names, shots, ops) && m <= n <= |ops|
    requires i in shots[0].copies.vol && Unsaving(names, shots, ops, i, m, n)
    ensures Mixed(shots, i, m, n)
    decreases n
  {
    hide Happened, Steps, Room, Torn;
    NamedAt(names, shots[m].copies, i);
    if m < n {
      DurableMixed(names, pages, shots, ops, outs, i, m, n - 1);
      StepAt(names, pages, shots, ops, outs, n - 1);
      StepDurable(names, shots[n - 1], ops[n - 1], shots[n], outs[n - 1], i);
      if Writes(names, ops[n - 1], i) {
        MixedTorn(shots, i, m, n - 1, WrittenFrom(names, shots[n - 1].copies, ops[n - 1]), WrittenTo(ops[n - 1]));
      } else {
        TornNot(shots[n].copies.dur[i], shots[n].copies.vol[i], 0, 0);
        MixedTorn(shots, i, m, n - 1, 0, 0);
      }
    }
  }

  /** So after a save and a crash, however full the cache was, every byte is as it was saved or one that
      readers saw there since, with zeros in a hole; and the file is no shorter. */
  lemma CrashMixes(names: map<Path, Inode>, pages: nat, shots: seq<Shot>, ops: seq<Op>, outs: seq<Output>,
                   i: Inode, save: nat, crash: nat)
    requires Happened(names, pages, shots, ops, outs) && Sound(names, shots, ops) && save < crash < |ops|
    requires i in shots[0].copies.vol && Saves(names, shots[save].mapped, ops[save], i) && ops[crash].Clear?
    requires Unsaving(names, shots, ops, i, save + 1, crash)
    ensures i in shots[save].copies.vol && i in shots[crash + 1].copies.vol
    ensures var saved, left := shots[save].copies.vol[i], shots[crash + 1].copies.vol[i];
            && |saved| <= |left|
            && forall p: nat | p < |left| ::
                 left[p] == (if p < |saved| then saved[p] else 0) || SeenAt(shots, i, save + 2, crash, p, left[p])
  {
    hide Happened, Steps, Room, Unsaving;
    StepAt(names, pages, shots, ops, outs, save);
    StepDurable(names, shots[save], ops[save], shots[save + 1], outs[save], i);
    DurableMixed(names, pages, shots, ops, outs, i, save + 1, crash);
    StepAt(names, pages, shots, ops, outs, crash);
    StepDurable(names, shots[crash], ops[crash], shots[crash + 1], outs[crash], i);
  }

  /** The call leaves what readers of inode `i` see alone: it does not write it, and is no crash unless
      the durable copy is the same. */
  ghost predicate Spares(names: map<Path, Inode>, s: Shot, op: Op, i: Inode)
    requires i in s.copies.vol && i in s.copies.dur
  {
    !Writes(names, op, i) && (op.Clear? ==> s.copies.dur[i] == s.copies.vol[i])
  }

  ghost predicate SparedBetween(names: map<Path, Inode>, shots: seq<Shot>, ops: seq<Op>, i: Inode, m: nat, n: nat)
    requires Sound(names, shots, ops) && n <= |ops| && i in shots[0].copies.vol
  {
    forall k | m <= k < n :: i in shots[k].copies.vol && i in shots[k].copies.dur && Spares(names, shots[k], ops[k], i)
  }

  lemma AfterSpares(names: map<Path, Inode>, s: Shot, op: Op, i: Inode)
    requires Named(names, s.copies) && Apt(names, op) && i in s.copies.vol && i in s.copies.dur && Spares(names, s, op, i)
    ensures i in After(names, s.copies, op).vol && After(names, s.copies, op).vol[i] == s.copies.vol[i]
  {}

  lemma {:induction false} VolatileKept(names: map<Path, Inode>, pages: nat, shots: seq<Shot>, ops: seq<Op>, outs: seq<Output>,
                                        i: Inode, m: nat, n: nat)
    requires Happened(names, pages, shots, ops, outs) && Sound(names, shots, ops) && m <= n <= |ops|
    requires i in shots[0].copies.vol && SparedBetween(names, shots, ops, i, m, n)
    ensures i in shots[m].copies.vol && i in shots[n].copies.vol && shots[n].copies.vol[i] == shots[m].copies.vol[i]
    decreases n
  {
    hide Happened, Steps, After, Spares;
    if m < n {
      VolatileKept(names, pages, shots, ops, outs, i, m, n - 1);
      StepAt(names, pages, shots, ops, outs, n - 1);
      StepShape(names, shots[n - 1], ops[n - 1], shots[n], outs[n - 1]);
      AfterSpares(names, shots[n - 1], ops[n - 1], i);
    }
  }

  /** Where a call that grows the file starts to write. */
  function GrowsFrom(op: Op): nat
    requires op.Write? || op.Truncate?
  {
    if op.Write? then op.offset else op.size
  }

  /** Up to where the call starts to write the file is as before, zeros past its old end. */
  lemma AfterGrows(names: map<Path, Inode>, c: Copies, op: Op, i: Inode)
    requires Named(names, c) && Apt(names, op) && Writes(names, op, i)
    ensures i in c.vol && i in After(names, c, op).vol
    ensures var file, file', start := c.vol[i], After(names, c, op).vol[i], GrowsFrom(op);
            |file'| >= start && forall k | 0 <= k < start :: file'[k] == if k < |file| then file[k] else 0
  {}

  /** Shrinking a file and growing it later, by write or by truncate, with any syncs in between and a
      full cache or not, reads as zeros from the cut to where the growth starts: the bytes cut off never
      come back. */
  lemma ShrinkThenGrow(names: map<Path, Inode>, pages: nat, shots: seq<Shot>, ops: seq<Op>, outs: seq<Output>,
                       i: Inode, cut: nat, grow: nat)
    requires Happened(names, pages, shots, ops, outs) && Sound(names, shots, ops) && cut < grow < |ops|
    requires i in shots[0].copies.vol && Writes(names, ops[cut], i) && Writes(names, ops[grow], i) && ops[cut].Truncate?
    requires GrowsFrom(ops[grow]) >= ops[cut].size && SparedBetween(names, shots, ops, i, cut + 1, grow)
    ensures i in shots[cut].copies.vol && i in shots[grow + 1].copies.vol
    ensures var file, file' := shots[cut].copies.vol[i], shots[grow + 1].copies.vol[i];
            && |file'| >= GrowsFrom(ops[grow])
            && forall k | 0 <= k < GrowsFrom(ops[grow]) :: file'[k] == if k < Min(ops[cut].size, |file|) then file[k] else 0
  {
    hide Happened, Steps, After, SparedBetween, Spread, StillUnsaved, Maps;
    StepAt(names, pages, shots, ops, outs, cut);
    StepShape(names, shots[cut], ops[cut], shots[cut + 1], outs[cut]);
    AfterTruncate(names, shots[cut].copies, ops[cut].path, ops[cut].size, ops[cut].byInode);
    VolatileKept(names, pages, shots, ops, outs, i, cut + 1, grow);
    StepAt(names, pages, shots, ops, outs, grow);
    StepShape(names, shots[grow], ops[grow], shots[grow + 1], outs[grow]);
    AfterGrows(names, shots[grow].copies, ops[grow], i);
  }

  /** Checkpoint then crash: a file some known path leads to keeps what readers saw, any other is as it was
      on disk. So no file changes for its readers exactly when such a path leads to each that differs; and
      that is so in every run from mount. */
  lemma CheckpointThenClear(names: map<Path, Inode>, pages: nat, shots: seq<Shot>, ops: seq<Op>, outs: seq<Output>, k: nat)
    requires Happened(names, pages, shots, ops, outs) && k + 1 < |ops| && ops[k].Checkpoint? && ops[k + 1].Clear?
    ensures shots[k + 2].copies.vol.Keys == shots[k].copies.vol.Keys == shots[k].copies.dur.Keys
    ensures forall i | i in shots[k].copies.vol ::
              shots[k + 2].copies.vol[i] == if i in shots[k].mapped then shots[k].copies.vol[i] else shots[k].copies.dur[i]
    ensures shots[k + 2].copies.dur == shots[k + 2].copies.vol
    ensures shots[k + 2].copies.vol == shots[k].copies.vol <==> forall i | i in shots[k].copies.vol :: Traced(shots[k], i)
    ensures Traceable(shots[0]) ==> shots[k + 2].copies.vol == shots[k].copies.vol
  {
    hide Happened, Room, Answered, Steps, Traceable, Traced, Settled;
    StepAt(names, pages, shots, ops, outs, k);
    StepAt(names, pages, shots, ops, outs, k + 1);
    CheckpointStep(names, shots[k], ops[k], shots[k + 1], outs[k]);
    ClearStep(names, shots[k + 1], ops[k + 1], shots[k + 2], outs[k + 1]);
    SettledAll(names, shots[k], ops[k]);
    if Traceable(shots[0]) {
      TraceableTo(names, pages, shots, ops, outs, k);
      TraceableAll(shots[k]);
    }
  }

  lemma TraceableAll(s: Shot)
    requires Traceable(s)
    ensures forall i | i in s.copies.vol :: Traced(s, i)
  {}

  lemma CheckpointStep(names: map<Path, Inode>, s: Shot, op: Op, s': Shot, out: Output)
    requires op.Checkpoint? && Named(names, s.copies) && Steps(names, s, op, s', out)
    ensures s'.copies.vol == s.copies.vol && s'.copies.dur == Settled(names, s, op)
  {
    hide Torn, Answered, Settled;
    NoSpread(names, s, op);
  }

  lemma ClearStep(names: map<Path, Inode>, s: Shot, op: Op, s': Shot, out: Output)
    requires op.Clear? && Named(names, s.copies) && Steps(names, s, op, s', out)
    ensures s'.copies.vol == s'.copies.dur == s.copies.dur
  {
    hide Torn, Answered;
    NoSpread(names, s, op);
  }

  lemma SettledAll(names: map<Path, Inode>, s: Shot, op: Op)
    requires op.Checkpoint? && Named(names, s.copies)
    ensures Settled(names, s, op).Keys == s.copies.vol.Keys == s.copies.dur.Keys
    ensures forall i | i in s.copies.vol :: Settled(names, s, op)[i] == if i in s.mapped then s.copies.vol[i] else s.copies.dur[i]
    ensures Settled(names, s, op) == s.copies.vol <==> forall i | i in s.copies.vol :: Traced(s, i)
  {
    var all := Settled(names, s, op);
    if all == s.copies.vol {
      forall i | i in s.copies.vol ensures Traced(s, i) { assert all[i] == s.copies.vol[i]; }
    }
    if forall i | i in s.copies.vol :: Traced(s, i) {
      forall i | i in s.copies.vol ensures all[i] == s.copies.vol[i] { assert Traced(s, i); }
    }
  }

  /* ---------------------------------------------------------------- the whole of it */

  /** The whole run is the run promised: both copies, every answer, and the unsynced blocks. */
  ghost predicate Refines(names: map<Path, Inode>, shots: seq<Shot>, ops: seq<Op>, outs: seq<Output>)
    requires Sound(names, shots, ops) && |outs| == |ops|
  {
    && (forall k | 0 <= k <= |ops| :: shots[k].copies == Run(names, shots[0].copies, ops, k))
    && AllAnswered(names, shots[0].copies, ops, outs)
    && shots[|ops|].unsynced == shots[|ops|].held * Unsaved(names, shots[0].copies, shots[0].unsynced, ops, |ops|)
  }

  /** The same for what readers see. */
  ghost predicate ReadersRefine(names: map<Path, Inode>, shots: seq<Shot>, ops: seq<Op>, outs: seq<Output>)
    requires Sound(names, shots, ops) && |outs| == |ops|
  {
    && (forall k | 0 <= k <= |ops| :: shots[k].copies.vol == Run(names, shots[0].copies, ops, k).vol)
    && AllAnswered(names, shots[0].copies, ops, outs)
    && (Traceable(shots[0]) ==>
          shots[|ops|].unsynced == shots[|ops|].held * Unsaved(names, shots[0].copies, shots[0].unsynced, ops, |ops|))
  }

  /** Each file whose own writes find room is what it should be. */
  ghost predicate FilesRefine(names: map<Path, Inode>, shots: seq<Shot>, ops: seq<Op>)
    requires Sound(names, shots, ops)
  {
    forall i, k: nat | Traced(shots[0], i) && k <= |ops| && OwnRoom(names, shots, ops, i, 0, k) ::
      SameFile(shots[k].copies, Run(names, shots[0].copies, ops, k), i)
  }

  /** Each durable copy stays as long as its file is undisturbed. */
  ghost predicate DurablesKept(names: map<Path, Inode>, shots: seq<Shot>, ops: seq<Op>)
    requires Sound(names, shots, ops)
  {
    forall i, m: nat, n: nat | i in shots[0].copies.vol && m <= n <= |ops| && Undisturbed(names, shots, ops, i, m, n) ::
      i in shots[m].copies.dur && i in shots[n].copies.dur && shots[n].copies.dur[i] == shots[m].copies.dur[i]
  }

  /** The report lists no file saved and not written since, and each written with room and not saved since. */
  ghost predicate ReportRight(names: map<Path, Inode>, shots: seq<Shot>, ops: seq<Op>)
    requires Sound(names, shots, ops)
  {
    && (forall i, m: nat, n: nat | m < n <= |ops| && SavedAt(names, shots, ops, i, m, n) :: i !in shots[n].listed)
    && forall i, m: nat, n: nat | m < n <= |ops| && WrittenAt(names, shots, ops, i, m, n) :: i in shots[n].listed
  }

  lemma RunReports(names: map<Path, Inode>, pages: nat, shots: seq<Shot>, ops: seq<Op>, outs: seq<Output>)
    requires Happened(names, pages, shots, ops, outs) && Sound(names, shots, ops)
    ensures ReportRight(names, shots, ops)
  {
    hide Happened, SavedAt, WrittenAt;
    forall i, m: nat, n: nat | m < n <= |ops| && SavedAt(names, shots, ops, i, m, n) ensures i !in shots[n].listed {
      SavedNotListed(names, pages, shots, ops, outs, i, m, n);
    }
    forall i, m: nat, n: nat | m < n <= |ops| && WrittenAt(names, shots, ops, i, m, n) ensures i in shots[n].listed {
      WrittenListed(names, pages, shots, ops, outs, i, m, n);
    }
  }

  /** Room or not, each durable copy has no byte but those it had and those readers saw since. */
  ghost predicate DurablesMixed(names: map<Path, Inode>, shots: seq<Shot>, ops: seq<Op>)
    requires Sound(names, shots, ops)
  {
    forall i, m: nat, n: nat | i in shots[0].copies.vol && m <= n <= |ops| && Unsaving(names, shots, ops, i, m, n) :: Mixed(shots, i, m, n)
  }

  lemma RunReaders(names: map<Path, Inode>, pages: nat, shots: seq<Shot>, ops: seq<Op>, outs: seq<Output>)
    requires Happened(names, pages, shots, ops, outs) && Sound(names, shots, ops) && |outs| == |ops|
    requires forall k | 0 <= k <= |ops| :: shots[k].copies.vol == Run(names, shots[0].copies, ops, k).vol
    requires shots[0].unsynced <= shots[0].held
    ensures ReadersRefine(names, shots, ops, outs)
  {
    hide Happened, Run, AllAnswered, Unsaved, UnsavedBy, Traceable;
    AnswersRefine(names, pages, shots, ops, outs);
    assert shots[0].unsynced == shots[0].held * shots[0].unsynced;
    UnsyncedTo(names, pages, shots, ops, outs, shots[0].unsynced, |ops|);
    if Traceable(shots[0]) {
      TracedUnsynced(shots[0]);
      UnsavedSame(names, pages, shots, ops, outs, shots[0].unsynced, |ops|);
    }
  }

  lemma TracedUnsynced(s: Shot)
    requires Traceable(s)
    ensures forall x | x in s.unsynced :: x.0 in s.mapped
  {}

  /** Crash refinement: a run in which each call finds room at its own time does to the two copies
      exactly what it should, every read answers the volatile copy of its moment, and the blocks marked
      unsynced are those in the cache that the run wrote and did not save. */
  lemma RunRefines(names: map<Path, Inode>, pages: nat, shots: seq<Shot>, ops: seq<Op>, outs: seq<Output>)
    requires Happened(names, pages, shots, ops, outs) && Sound(names, shots, ops) && |outs| == |ops|
    requires AllRoom(names, shots, ops) && shots[0].unsynced <= shots[0].held && Traceable(shots[0])
    ensures Refines(names, shots, ops, outs)
  {
    hide Happened, Run, AllAnswered, Unsaved, Room, Traceable;
    forall k | 0 <= k <= |ops| ensures shots[k].copies == Run(names, shots[0].copies, ops, k) {
      CopiesRefine(names, pages, shots, ops, outs, k);
    }
    RunReaders(names, pages, shots, ops, outs);
  }

  /** With no crash in the run, room does not matter: readers are answered right, and the unsynced blocks
      are known, even when the cache is full and writes go through to disk. */
  lemma ReadersNeverTell(names: map<Path, Inode>, pages: nat, shots: seq<Shot>, ops: seq<Op>, outs: seq<Output>)
    requires Happened(names, pages, shots, ops, outs) && Sound(names, shots, ops) && |outs| == |ops|
    requires (forall op | op in ops :: !op.Clear?) && shots[0].unsynced <= shots[0].held
    ensures ReadersRefine(names, shots, ops, outs)
  {
    hide Happened, Run, AllAnswered, Unsaved;
    forall k | 0 <= k <= |ops| ensures shots[k].copies.vol == Run(names, shots[0].copies, ops, k).vol {
      VolatileRefines(names, pages, shots, ops, outs, k);
    }
    RunReaders(names, pages, shots, ops, outs);
  }

  /** All that is known of a run. */
  lemma HappenedKeeps(names: map<Path, Inode>, pages: nat, shots: seq<Shot>, ops: seq<Op>, outs: seq<Output>)
    requires Happened(names, pages, shots, ops, outs) && shots[0].unsynced <= shots[0].held
    ensures Sound(names, shots, ops) && |outs| == |ops|
    ensures Traceable(shots[0]) ==> (AllRoom(names, shots, ops) <==> Roomy(names, pages, shots[0].held, shots[0].copies, ops))
    ensures Traceable(shots[0]) && AllRoom(names, shots, ops) ==> Refines(names, shots, ops, outs)
    ensures (forall op | op in ops :: !op.Clear?) ==> ReadersRefine(names, shots, ops, outs)
    ensures FilesRefine(names, shots, ops) && DurablesKept(names, shots, ops) && DurablesMixed(names, shots, ops)
    ensures ReportRight(names, shots, ops)
    ensures shots[|ops|].unsynced == shots[|ops|].held * UnsavedBy(names, shots, shots[0].unsynced, ops, |ops|)
  {
    hide Happened, Roomy, AllRoom, Refines, ReadersRefine, UnsavedBy, OwnRoom, Undisturbed, Run, SameFile, Traceable, Traced, Mixed, ReportRight;
    HappenedSound(names, pages, shots, ops, outs);
    RunReports(names, pages, shots, ops, outs);
    if Traceable(shots[0]) { RoomyIsRoom(names, pages, shots, ops, outs); }
    if Traceable(shots[0]) && AllRoom(names, shots, ops) { RunRefines(names, pages, shots, ops, outs); }
    if forall op | op in ops :: !op.Clear? { ReadersNeverTell(names, pages, shots, ops, outs); }
    forall i, k: nat | Traced(shots[0], i) && k <= |ops| && OwnRoom(names, shots, ops, i, 0, k)
      ensures SameFile(shots[k].copies, Run(names, shots[0].copies, ops, k), i)
    {
      FileRefines(names, pages, shots, ops, outs, i, k);
    }
    forall i, m: nat, n: nat | i in shots[0].copies.vol && m <= n <= |ops| && Undisturbed(names, shots, ops, i, m, n)
      ensures i in shots[m].copies.dur && i in shots[n].copies.dur && shots[n].copies.dur[i] == shots[m].copies.dur[i]
    {
      DurableKept(names, pages, shots, ops, outs, i, m, n);
    }
    forall i, m: nat, n: nat | i in shots[0].copies.vol && m <= n <= |ops| && Unsaving(names, shots, ops, i, m, n) ensures Mixed(shots, i, m, n) {
      DurableMixed(names, pages, shots, ops, outs, i, m, n);
    }
    assert shots[0].unsynced == shots[0].held * shots[0].unsynced;
    UnsyncedTo(names, pages, shots, ops, outs, shots[0].unsynced, |ops|);
  }
}
