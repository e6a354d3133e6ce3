/** What a write does to a file's overlay, block by block and as a whole. */
module WriteSteps {
  import opened Posix
  import opened Overlay

  /** The outcome of writing one piece of block `b`, with `free` pages free before and `free'` after:
      the logical file is written, the block is cached if a page can be had, and the disk is left
      alone unless none can. */
  ghost predicate BlockWritten(v: View, v': View, b: nat, from: nat, piece: Image, free: nat, free': nat) {
    && Inv(v') && v'.size == Grown(v, b, from, piece)
    && Logical(v') == Pwrite(Logical(v), piece, Start(b) + from)
    && v'.blocks.Keys == v.blocks.Keys + (if free > 0 then {b} else {})
    && (b in v.blocks || free > 0 ==> v'.disk == v.disk)
    && Dirtied(v.blocks, v'.blocks, {b})
    && free' == (if b in v.blocks || free == 0 then free else free - 1)
    && Torn(v.disk, v'.disk, Logical(v'), Start(b) + from, Start(b) + from + |piece|)
  }

  /** A disk file that a write may have reached, or not, or in part: each byte is as it was, zero past the
      old end, or, between `from` and `end`, what readers now see there. */
  ghost predicate Torn(was: Image, now: Image, vol: Image, from: nat, end: nat) {
    && |was| <= |now| <= Max(|was|, end)
    && forall k | 0 <= k < |now| ::
         now[k] == (if k < |was| then was[k] else 0) || (from <= k < end && k < |vol| && now[k] == vol[k])
  }

  lemma TornNot(disk: Image, vol: Image, from: nat, end: nat)
    ensures Torn(disk, disk, vol, from, end)
  {}

  lemma TornWhole(disk: Image, file: Image, piece: Image, at: nat)
    ensures Torn(disk, Pwrite(disk, piece, at), Pwrite(file, piece, at), at, at + |piece|)
  {}

  /** Rewriting the block around the piece with the bytes read from disk tears nothing else. */
  lemma TornMerged(disk: Image, file: Image, start: nat, from: nat, piece: Image)
    requires |piece| > 0 && from + |piece| <= B
    ensures Torn(disk, Pwrite(disk, Merged(Pread(disk, B, start), from, piece), start), Pwrite(file, piece, start + from),
                 start + from, start + from + |piece|)
  {}

  /** Of two writes that meet, each may have reached the disk or not. */
  lemma TornMore(disk: Image, disk1: Image, disk2: Image, vol1: Image, vol2: Image, from: nat, mid: nat, end: nat, piece: Image)
    requires Torn(disk, disk1, vol1, from, mid) && Torn(disk1, disk2, vol2, mid, end) && from <= mid <= end
    requires vol2 == Pwrite(vol1, piece, mid)
    ensures Torn(disk, disk2, vol2, from, end)
  {
    forall k | 0 <= k < |disk2|
      ensures disk2[k] == (if k < |disk| then disk[k] else 0) || (from <= k < end && k < |vol2| && disk2[k] == vol2[k])
    {
      if k < |disk1| && disk2[k] == disk1[k] {
        assert disk1[k] == (if k < |disk| then disk[k] else 0) || (from <= k < mid && k < |vol1| && disk1[k] == vol1[k]);
      }
    }
  }

  /** Only the written blocks may be new to the cache, and a resident block is dirty exactly when it
      was before or is one of them. */
  ghost predicate Dirtied(blocks: map<nat, CBlock>, blocks': map<nat, CBlock>, written: set<nat>) {
    && blocks'.Keys <= blocks.Keys + written
    && forall c | c in blocks' :: blocks'[c].dirty <==> c in written || (c in blocks && blocks[c].dirty)
  }

  lemma DirtiedTrans(a: map<nat, CBlock>, b: map<nat, CBlock>, c: map<nat, CBlock>, first: set<nat>, second: set<nat>)
    requires Dirtied(a, b, first) && Dirtied(b, c, second) && a.Keys <= b.Keys
    ensures Dirtied(a, c, first + second)
  {}

  /** Cutting a file dirties nothing and brings nothing in; nor does leaving it alone. */
  lemma CutDirt(blocks: map<nat, CBlock>, at: nat, index: nat)
    requires at in blocks ==> index <= |blocks[at].bytes|
    ensures Dirtied(blocks, CutBlocks(blocks, at, index), {}) && Dirtied(blocks, blocks, {})
  {}

  lemma SameDirt(blocks: map<nat, CBlock>)
    ensures Dirtied(blocks, blocks, {})
  {}

  /** The blocks `lo` to `hi`. */
  ghost function BlockRange(lo: nat, hi: nat): (r: set<nat>)
    ensures forall b: nat :: b in r <==> lo <= b <= hi
    decreases hi + 1 - lo
  {
    if lo > hi then {} else {lo} + BlockRange(lo + 1, hi)
  }

  /** The size of a file written at `off`. */
  ghost function Extended(size: nat, off: nat, len: nat): nat { Max(size, off + len) }

  /** The blocks that hold the bytes `from` to `end - 1`. */
  ghost function Extent(from: nat, end: nat): set<nat> {
    if from < end then BlockRange(BlockOf(from), BlockOf(end - 1)) else {}
  }

  /** The next piece of a range brings in its own block. */
  lemma ExtentMore(off: nat, it: nat, len: nat, b: nat, from: nat)
    requires len > 0 && from + len <= B && Start(b) + from == off + it && (it > 0 ==> from == 0)
    ensures Extent(off, off + it) + {b} == Extent(off, off + it + len)
  {
    Unique(off + it, b);
    Unique(off + it + len - 1, b);
    if it > 0 {
      Locate(off);
      Locate(off + it - 1);
      assert BlockOf(off + it - 1) == b - 1 by {
        assert Start(b) == Start(b - 1) + B;
        Unique(off + it - 1, b - 1);
      }
      BlockOfMonotone(off, off + it - 1);
    }
  }

  /** Two ranges that meet. */
  lemma ExtentJoin(a: nat, m: nat, e: nat)
    requires a <= m <= e
    ensures Extent(a, m) + Extent(m, e) == Extent(a, e)
  {
    if a < m < e {
      BlockOfMonotone(a, m - 1);
      BlockOfMonotone(m, e - 1);
      BlockOfMonotone(m - 1, m);
      Locate(m - 1);
      Locate(m);
      assert BlockOf(m) <= BlockOf(m - 1) + 1 by {
        if BlockOf(m) > BlockOf(m - 1) + 1 { StartMonotone(BlockOf(m - 1) + 1, BlockOf(m)); StartMonotone(BlockOf(m - 1), BlockOf(m - 1) + 1); }
      }
    }
  }

  lemma ExtentEmpty(from: nat, end: nat)
    ensures from >= end ==> Extent(from, end) == {}
  {}

  /** The new blocks among `touched` fit in the free pages. */
  ghost predicate Fits(touched: set<nat>, blocks: map<nat, CBlock>, free: nat) {
    |touched - blocks.Keys| <= free
  }

  /** `data` has been written at `off`. When the blocks of `touched` not yet cached fit in the free
      pages the disk has not been used, and those still missing fit in the pages still free. */
  ghost predicate Wrote(v: View, v': View, off: nat, data: Image, touched: set<nat>, free: nat, free': nat) {
    && Inv(v') && v'.size == Max(v.size, off + |data|)
    && Logical(v') == Pwrite(Logical(v), data, off)
    && v.blocks.Keys <= v'.blocks.Keys && free' <= free
    && Dirtied(v.blocks, v'.blocks, Extent(off, off + |data|))
    && (Fits(touched, v.blocks, free) ==> v'.disk == v.disk && Fits(touched, v'.blocks, free'))
    && Torn(v.disk, v'.disk, Logical(v'), off, off + |data|)
  }

  lemma PwriteMore(f: Image, data: Image, off: nat, it: nat, len: nat)
    requires it + len <= |data|
    ensures Pwrite(Pwrite(f, data[..it], off), data[it..it + len], off + it) == Pwrite(f, data[..it + len], off)
  {}

  /** One page taken makes one block less to place. */
  lemma FitsOne(touched: set<nat>, blocks: map<nat, CBlock>, blocks': map<nat, CBlock>, b: nat, free: nat)
    requires Fits(touched, blocks, free) && b in touched && b !in blocks
    requires blocks'.Keys == blocks.Keys + {b}
    ensures free > 0 && Fits(touched, blocks', free - 1)
  {
    assert b in touched - blocks.Keys;
    assert touched - blocks'.Keys == (touched - blocks.Keys) - {b};
  }

  /** Writing one block keeps the rest fitting, and leaves the disk alone when all fits. */
  lemma BlockFits(v: View, v': View, b: nat, from: nat, piece: Image, touched: set<nat>, free: nat, free': nat)
    requires BlockWritten(v, v', b, from, piece, free, free') && Fits(touched, v.blocks, free) && b in touched
    ensures v'.disk == v.disk && Fits(touched, v'.blocks, free')
  {
    hide Inv, Logical, Pwrite;
    if b !in v.blocks {
      assert b in touched - v.blocks.Keys;
      FitsOne(touched, v.blocks, v'.blocks, b, free);
    } else {
      assert v'.blocks.Keys == v.blocks.Keys;
    }
  }

  /** Writing the next piece extends what has been written. */
  lemma WriteMore(v0: View, v: View, v': View, off: nat, data: Image, it: nat, b: nat, from: nat, len: nat,
                  touched: set<nat>, free0: nat, free: nat, free': nat)
    requires it + len <= |data| && off <= v0.size
    requires Wrote(v0, v, off, data[..it], touched, free0, free)
    requires BlockWritten(v, v', b, from, data[it..it + len], free, free')
    requires Start(b) + from == off + it && b in touched && len > 0 && from + len <= B && (it > 0 ==> from == 0)
    ensures Wrote(v0, v', off, data[..it + len], touched, free0, free')
  {
    hide Inv, Logical, Pwrite, Fits, Extent, Dirtied, Torn;
    ExtentMore(off, it, len, b, from);
    DirtiedTrans(v0.blocks, v.blocks, v'.blocks, Extent(off, off + it), {b});
    if Fits(touched, v0.blocks, free0) {
      BlockFits(v, v', b, from, data[it..it + len], touched, free, free');
    }
    PwriteMore(Logical(v0), data, off, it, len);
    TornMore(v0.disk, v.disk, v'.disk, Logical(v), Logical(v'), off, off + it, off + it + len, data[it..it + len]);
  }

  lemma WroteNothing(v: View, off: nat, data: Image, touched: set<nat>, free: nat)
    requires Inv(v) && off <= v.size
    ensures Wrote(v, v, off, data[..0], touched, free, free)
  {
    TornNot(v.disk, Logical(v), off, off);
  }

  /** Filling the hole with zeros first and writing then is one write past end of file. */
  lemma SparsePwrite(f: Image, data: Image, off: nat)
    requires |f| < off && |data| > 0
    ensures Pwrite(Pwrite(f, Zeros(off - |f|), |f|), data, off) == Pwrite(f, data, off)
  {}

  /* ---------------------------------------------------------------- the paths of one block write */

  /** The block was resident. */
  lemma WroteResident(v: View, blocks': map<nat, CBlock>, b: nat, from: nat, piece: Image, free: nat)
    requires Inv(v) && PieceFits(v, b, from, piece) && b in v.blocks && |v.blocks[b].bytes| == B
    requires blocks' == v.blocks[b := Updated(v.blocks[b], from, piece)]
    ensures BlockWritten(v, View(Grown(v, b, from, piece), v.disk, blocks'), b, from, piece, free, free)
  {
    hide Torn;
    UpdateStep(v, b, from, piece);
    TornNot(v.disk, Logical(View(Grown(v, b, from, piece), v.disk, blocks')), Start(b) + from, Start(b) + from + |piece|);
  }

  /** A page was found for a block wholly past end of file. */
  lemma WroteFresh(v: View, blocks': map<nat, CBlock>, b: nat, piece: Image, page: nat, free: nat)
    requires Inv(v) && PieceFits(v, b, 0, piece) && b !in v.blocks && v.size <= Start(b) && free > 0
    requires blocks' == v.blocks[b := Fresh(page, 0, piece)]
    ensures BlockWritten(v, View(Grown(v, b, 0, piece), v.disk, blocks'), b, 0, piece, free, free - 1)
  {
    hide Torn;
    FreshStep(v, b, piece, page);
    TornNot(v.disk, Logical(View(Grown(v, b, 0, piece), v.disk, blocks')), Start(b), Start(b) + |piece|);
  }

  /** A page was found for a block merged with its bytes on disk. */
  lemma WroteMerged(v: View, blocks': map<nat, CBlock>, b: nat, from: nat, piece: Image, page: nat, free: nat)
    requires Inv(v) && PieceFits(v, b, from, piece) && b !in v.blocks && free > 0
    requires |MergedBlock(v, b, from, piece)| <= B
    requires blocks' == v.blocks[b := Fresh(page, 0, MergedBlock(v, b, from, piece))]
    ensures BlockWritten(v, View(Grown(v, b, from, piece), v.disk, blocks'), b, from, piece, free, free - 1)
  {
    hide Torn;
    MergeStep(v, b, from, piece, page);
    TornNot(v.disk, Logical(View(Grown(v, b, from, piece), v.disk, blocks')), Start(b) + from, Start(b) + from + |piece|);
  }

  /** No page: the piece alone went to disk. */
  lemma WroteThrough(v: View, b: nat, from: nat, piece: Image)
    requires Inv(v) && PieceFits(v, b, from, piece) && b !in v.blocks
    ensures BlockWritten(v, View(Grown(v, b, from, piece), Pwrite(v.disk, piece, Start(b) + from), v.blocks), b, from, piece, 0, 0)
  {
    hide Torn;
    ThroughStep(v, b, from, piece, from, piece);
    TornWhole(v.disk, Logical(v), piece, Start(b) + from);
  }

  /** No page: the merged block went to disk. */
  lemma WroteMergedThrough(v: View, b: nat, from: nat, piece: Image)
    requires Inv(v) && PieceFits(v, b, from, piece) && b !in v.blocks
    ensures BlockWritten(v, View(Grown(v, b, from, piece), Pwrite(v.disk, MergedBlock(v, b, from, piece), Start(b)), v.blocks),
                         b, from, piece, 0, 0)
  {
    hide Torn;
    MergeThroughStep(v, b, from, piece);
    TornMerged(v.disk, Logical(v), Start(b), from, piece);
  }

  /** A read of an uncached block the file reaches returns something. */
  lemma ReadSome(v: View, b: nat)
    requires Inv(v) && b !in v.blocks && v.size > Start(b)
    ensures |Pread(v.disk, B, Start(b))| > 0
  {
    ReadReaches(v, b);
  }

  lemma MergedSize(v: View, b: nat, from: nat, piece: Image)
    requires Inv(v) && PieceFits(v, b, from, piece) && b !in v.blocks
    ensures 0 < |MergedBlock(v, b, from, piece)| <= B
  {
    MergedAgrees(v, b, from, piece);
  }

  /** `data` at index `at` of a block that was not resident went to a free page, or to disk. */
  ghost predicate Placed(v: View, v': View, b: nat, at: nat, data: Image, free: nat, free': nat) {
    at + |data| <= B
    && if free > 0
       then v'.disk == v.disk && b in v'.blocks && v'.blocks == v.blocks[b := Fresh(v'.blocks[b].page, at, data)] && free' == free - 1
       else v'.disk == Pwrite(v.disk, data, Start(b) + at) && v'.blocks == v.blocks && free' == 0
  }

  /** A block that was not resident: cached if a page is free, written through otherwise. */
  lemma WroteUncached(v: View, v': View, b: nat, from: nat, piece: Image, at: nat, data: Image, merged: bool, free: nat, free': nat)
    requires Inv(v) && PieceFits(v, b, from, piece) && b !in v.blocks && at + |data| <= B
    requires if merged then at == 0 && data == MergedBlock(v, b, from, piece)
             else at == from && data == piece && (free > 0 ==> from == 0 && v.size <= Start(b))
    requires v'.size == Grown(v, b, from, piece) && Placed(v, v', b, at, data, free, free')
    ensures BlockWritten(v, v', b, from, piece, free, free')
  {
    hide Inv, Logical, Pwrite, BlockWritten, Fresh, MergedBlock, Start;
    if free > 0 {
      if merged {
        WroteMerged(v, v'.blocks, b, from, piece, v'.blocks[b].page, free);
      } else {
        WroteFresh(v, v'.blocks, b, piece, v'.blocks[b].page, free);
      }
    } else {
      if merged {
        WroteMergedThrough(v, b, from, piece);
      } else {
        WroteThrough(v, b, from, piece);
      }
    }
  }

  /* ---------------------------------------------------------------- splitting a range in blocks */

  /** First and last index, inside block `b`, of the bytes `off` to `off + len - 1`, as the block
      loops of read and write compute them. `dataAllocated` is the number of bytes already handled. */
  function PieceFrom(off: nat, len: nat, b: nat): int
  {
    if b == BlockOf(off) then Within(off) else 0
  }

  function PieceTo(off: nat, len: nat, b: nat, dataAllocated: nat): int
    requires len > 0
  {
    var low, high := BlockOf(off), BlockOf(off + len - 1);
    if b == high then Within(off + len - 1)
    else if b == low && off + len - 1 < B then off + len - 1
    else if b < high then B - 1
    else len - dataAllocated - 1
  }

  /** The pieces of the blocks from first to last tile the range without gap or overlap. */
  lemma PiecesTile(off: nat, len: nat, b: nat, it: nat)
    requires len > 0 && BlockOf(off) <= b <= BlockOf(off + len - 1)
    requires if b == BlockOf(off) then it == 0 else off + it == Start(b)
    ensures var from, to := PieceFrom(off, len, b), PieceTo(off, len, b, it);
            && 0 <= from <= to < B && Start(b) + from == off + it
            && it + (to + 1 - from) <= len
            && (b == BlockOf(off + len - 1) ==> it + (to + 1 - from) == len)
            && (b < BlockOf(off + len - 1) ==> off + it + (to + 1 - from) == Start(b + 1))
  {
    Locate(off);
    Locate(off + len - 1);
    if b < BlockOf(off + len - 1) { StartMonotone(b, BlockOf(off + len - 1)); }
    assert Start(b + 1) == Start(b) + B;
    if b == BlockOf(off) && off + len - 1 < B { Unique(off + len - 1, 0); Unique(off, 0); }
  }

  lemma RangeOrdered(off: nat, len: nat)
    requires len > 0
    ensures BlockOf(off) <= BlockOf(off + len - 1)
  {
    Locate(off);
    Locate(off + len - 1);
    if BlockOf(off + len - 1) < BlockOf(off) { StartMonotone(BlockOf(off + len - 1), BlockOf(off)); }
  }

  /** A block past end of file starts exactly where the write has come to, unless its page is
      already there: what justifies caching it without reading the disk. */
  ghost predicate FreshReady(fsb: nat, size: nat, off: nat, blocks: map<nat, CBlock>) {
    fsb == size || (size == off && (Within(off) == 0 || BlockOf(off) in blocks))
  }

  lemma FreshWhole(fsb: nat, size: nat, off: nat, len: nat, b: nat, it: nat, blocks: map<nat, CBlock>)
    requires len > 0 && off <= size && fsb <= size && FreshReady(fsb, size, off, blocks)
    requires BlockOf(off) <= b <= BlockOf(off + len - 1) && b !in blocks && fsb <= Start(b)
    requires if b == BlockOf(off) then it == 0 else off + it == Start(b)
    ensures PieceFrom(off, len, b) == 0 && Max(size, off + it) <= Start(b)
  {
    Locate(off);
    if b > BlockOf(off) { StartMonotone(BlockOf(off), b); }
  }

  lemma WrittenKeys(v: View, v': View, b: nat, from: nat, piece: Image, free: nat, free': nat)
    requires BlockWritten(v, v', b, from, piece, free, free')
    ensures v.blocks.Keys <= v'.blocks.Keys && free' <= free
    ensures free' > 0 ==> b in v'.blocks
    ensures Inv(v') && v'.size == Grown(v, b, from, piece)
  {}

  lemma WroteSize(v: View, v': View, off: nat, data: Image, touched: set<nat>, free: nat, free': nat)
    requires Wrote(v, v', off, data, touched, free, free')
    ensures Inv(v') && v'.size == Max(v.size, off + |data|)
  {}

  lemma FreshKept(fsb: nat, size: nat, off: nat, blocks: map<nat, CBlock>, blocks': map<nat, CBlock>)
    requires FreshReady(fsb, size, off, blocks) && blocks.Keys <= blocks'.Keys
    ensures FreshReady(fsb, size, off, blocks')
  {}

  /** The state of the block loop before block `b`: `it` bytes are written; as long as pages are
      free every block so far is resident. */
  ghost predicate Progress(v0: View, v: View, off: nat, data: Image, it: nat, b: nat, fsb: nat, touched: set<nat>,
                           free0: nat, free: nat)
    requires |data| > 0
  {
    && it <= |data| && off <= v0.size && fsb <= v0.size
    && BlockOf(off) <= b <= BlockOf(off + |data| - 1) + 1
    && (if b == BlockOf(off) then it == 0 else if b <= BlockOf(off + |data| - 1) then off + it == Start(b) else it == |data|)
    && Wrote(v0, v, off, data[..it], touched, free0, free)
    && (free > 0 ==> FreshReady(fsb, v0.size, off, v.blocks) && forall c: nat | BlockOf(off) <= c < b :: c in v.blocks)
  }

  lemma ProgressStart(v0: View, off: nat, data: Image, fsb: nat, touched: set<nat>, free: nat)
    requires |data| > 0 && Inv(v0) && off <= v0.size && fsb <= v0.size
    requires free > 0 ==> FreshReady(fsb, v0.size, off, v0.blocks)
    ensures Progress(v0, v0, off, data, 0, BlockOf(off), fsb, touched, free, free)
  {
    WroteNothing(v0, off, data, touched, free);
    RangeOrdered(off, |data|);
  }

  lemma FromZero(off: nat, len: nat, b: nat, it: nat)
    requires b == BlockOf(off) ==> it == 0
    ensures it > 0 ==> PieceFrom(off, len, b) == 0
  {}

  /** What the loop knows is what writing block `b` needs. */
  lemma ProgressReady(v0: View, v: View, off: nat, data: Image, it: nat, b: nat, fsb: nat, touched: set<nat>, free0: nat, free: nat)
    requires |data| > 0 && Progress(v0, v, off, data, it, b, fsb, touched, free0, free)
    requires b <= BlockOf(off + |data| - 1)
    ensures Inv(v) && v.size == Max(v0.size, off + it) && fsb <= v.size
    ensures var from, to := PieceFrom(off, |data|, b), PieceTo(off, |data|, b, it);
            && 0 <= from <= to < B && it + (to + 1 - from) <= |data|
            && PieceFits(v, b, from, data[it..it + (to + 1 - from)])
            && Start(b) + from == off + it
            && Grown(v, b, from, data[it..it + (to + 1 - from)]) == Max(v0.size, off + it + (to + 1 - from))
            && (b !in v.blocks && free > 0 && fsb <= Start(b) ==> from == 0 && v.size <= Start(b))
    ensures b in Extent(off, off + |data|)
  {
    hide Wrote, Inv, FreshReady, Start, PieceFrom, PieceTo;
    WroteSize(v0, v, off, data[..it], touched, free0, free);
    PiecesTile(off, |data|, b, it);
    if b !in v.blocks && free > 0 && fsb <= Start(b) {
      FreshWhole(fsb, v0.size, off, |data|, b, it, v.blocks);
    }
  }

  lemma ProgressStep(v0: View, v: View, v': View, off: nat, data: Image, it: nat, b: nat, fsb: nat, touched: set<nat>,
                     free0: nat, free: nat, free': nat)
    requires |data| > 0 && Progress(v0, v, off, data, it, b, fsb, touched, free0, free)
    requires b <= BlockOf(off + |data| - 1) && b in touched
    requires var from, to := PieceFrom(off, |data|, b), PieceTo(off, |data|, b, it);
             && 0 <= from <= to && it + (to + 1 - from) <= |data|
             && BlockWritten(v, v', b, from, data[it..it + (to + 1 - from)], free, free')
    ensures Progress(v0, v', off, data, it + (PieceTo(off, |data|, b, it) + 1 - PieceFrom(off, |data|, b)), b + 1, fsb, touched, free0, free')
  {
    hide Wrote, BlockWritten, FreshReady, PieceFrom, PieceTo;
    var from, to := PieceFrom(off, |data|, b), PieceTo(off, |data|, b, it);
    PiecesTile(off, |data|, b, it);
    WrittenKeys(v, v', b, from, data[it..it + (to + 1 - from)], free, free');
    FromZero(off, |data|, b, it);
    WriteMore(v0, v, v', off, data, it, b, from, to + 1 - from, touched, free0, free, free');
    if free' > 0 { FreshKept(fsb, v0.size, off, v.blocks, v'.blocks); }
  }

  lemma ProgressEnd(v0: View, v: View, off: nat, data: Image, it: nat, b: nat, fsb: nat, touched: set<nat>, free0: nat, free: nat)
    requires |data| > 0 && Progress(v0, v, off, data, it, b, fsb, touched, free0, free)
    requires b > BlockOf(off + |data| - 1)
    ensures it == |data| && Wrote(v0, v, off, data, touched, free0, free)
    ensures free > 0 ==> Extent(off, off + |data|) <= v.blocks.Keys
  {
    RangeOrdered(off, |data|);
    assert data[..|data|] == data;
  }

  /** A sparse write finds the block it starts in already cached by the zero fill. */
  lemma SparseReady(fsb: nat, off: nat, blocks: map<nat, CBlock>)
    requires fsb < off && Extent(fsb, off) <= blocks.Keys
    ensures FreshReady(fsb, off, off, blocks)
  {
    Locate(off);
    Locate(fsb);
    if Within(off) > 0 {
      Unique(off - 1, BlockOf(off));
      if BlockOf(off) < BlockOf(fsb) { StartMonotone(BlockOf(off), BlockOf(fsb)); }
      assert BlockOf(off) in Extent(fsb, off);
    }
  }

  lemma BlockOfMonotone(i: nat, j: nat)
    requires i <= j
    ensures BlockOf(i) <= BlockOf(j)
  {
    Locate(i);
    Locate(j);
    if BlockOf(j) < BlockOf(i) { StartMonotone(BlockOf(j), BlockOf(i)); }
  }

  /** The blocks a write may touch include those of the zero fill and those of the write proper. */
  lemma TouchedParts(size: nat, off: nat, len: nat)
    requires len > 0
    ensures Extent(off, off + len) <= Extent(Min(size, off), off + len)
    ensures size < off ==> Extent(size, off) <= Extent(Min(size, off), off + len)
  {
    BlockOfMonotone(Min(size, off), off);
    if size < off { BlockOfMonotone(off - 1, off + len - 1); }
  }

  /** A cut drops the blocks that start at or past the new end. */
  lemma CutKeys(blocks: map<nat, CBlock>, size: nat)
    requires BlockOf(size) in blocks ==> Within(size) <= |blocks[BlockOf(size)].bytes|
    ensures CutBlocks(blocks, BlockOf(size), Within(size)).Keys == Before(blocks.Keys, size)
  {
    Locate(size);
    forall b | b in blocks ensures b in CutBlocks(blocks, BlockOf(size), Within(size)) <==> Start(b) < size {
      if b < BlockOf(size) { StartMonotone(b, BlockOf(size)); }
      if b > BlockOf(size) { StartMonotone(BlockOf(size), b); }
    }
  }

  /** The blocks that start before `size`. */
  ghost function Before(blocks: set<nat>, size: nat): set<nat> {
    set b | b in blocks && Start(b) < size
  }

  /** How a write of the bytes `from` to `end - 1` leaves a file: no block is dropped, only those written
      come in and turn dirty, and while a page is left they are all in. If they fit the disk is as it was;
      in any case it has no byte but old ones and those readers now see there. `touched` stands for any
      blocks among which those written are. */
  ghost predicate Landed(dur: Image, blocks: map<nat, CBlock>, free: nat, vol': Image, dur': Image, blocks': map<nat, CBlock>, free': nat,
                         from: nat, end: nat, touched: set<nat>)
  {
    && blocks.Keys <= blocks'.Keys && free' <= free && Dirtied(blocks, blocks', Extent(from, end))
    && (free' > 0 ==> Extent(from, end) <= blocks'.Keys)
    && (Fits(touched, blocks, free) ==> dur' == dur && Fits(touched, blocks', free'))
    && Torn(dur, dur', vol', from, end)
  }

  lemma LandedTwice(dur: Image, blocks: map<nat, CBlock>, free: nat, vol1: Image, dur1: Image, blocks1: map<nat, CBlock>, free1: nat,
                    vol2: Image, dur2: Image, blocks2: map<nat, CBlock>, free2: nat, from: nat, mid: nat, end: nat,
                    piece: Image, touched: set<nat>)
    requires Landed(dur, blocks, free, vol1, dur1, blocks1, free1, from, mid, touched)
    requires Landed(dur1, blocks1, free1, vol2, dur2, blocks2, free2, mid, end, touched)
    requires from <= mid <= end && vol2 == Pwrite(vol1, piece, mid)
    ensures Landed(dur, blocks, free, vol2, dur2, blocks2, free2, from, end, touched)
  {
    hide Torn, Dirtied, Extent, Fits, Pwrite;
    ExtentJoin(from, mid, end);
    DirtiedTrans(blocks, blocks1, blocks2, Extent(from, mid), Extent(mid, end));
    TornMore(dur, dur1, dur2, vol1, vol2, from, mid, end, piece);
  }

  lemma LandedNothing(dur: Image, blocks: map<nat, CBlock>, free: nat, vol: Image, from: nat, touched: set<nat>)
    ensures Landed(dur, blocks, free, vol, dur, blocks, free, from, from, touched)
  {
    TornNot(dur, vol, from, from);
    SameDirt(blocks);
  }

  /** What a whole write guarantees. */
  lemma WroteLanded(v: View, v': View, off: nat, data: Image, touched: set<nat>, free: nat, free': nat)
    requires Wrote(v, v', off, data, touched, free, free') && (free' > 0 ==> Extent(off, off + |data|) <= v'.blocks.Keys)
    ensures Inv(v') && Logical(v') == Pwrite(Logical(v), data, off)
    ensures Landed(v.disk, v.blocks, free, Logical(v'), v'.disk, v'.blocks, free', off, off + |data|, touched)
  {}

  lemma LandedIn(dur: Image, blocks: map<nat, CBlock>, free: nat, vol': Image, dur': Image, blocks': map<nat, CBlock>, free': nat,
                 from: nat, end: nat, touched: set<nat>)
    ensures Landed(dur, blocks, free, vol', dur', blocks', free', from, end, touched) && free' > 0 ==> Extent(from, end) <= blocks'.Keys
  {}

  /** If they fit, all the blocks written are in. */
  lemma LandedAll(dur: Image, blocks: map<nat, CBlock>, free: nat, vol': Image, dur': Image, blocks': map<nat, CBlock>, free': nat,
                  from: nat, end: nat)
    ensures Landed(dur, blocks, free, vol', dur', blocks', free', from, end, Extent(from, end)) && Fits(Extent(from, end), blocks, free) ==>
              Extent(from, end) <= blocks'.Keys
  {}

  lemma LandedRoom(dur: Image, blocks: map<nat, CBlock>, free: nat, vol': Image, dur': Image, blocks': map<nat, CBlock>, free': nat,
                   from: nat, end: nat, touched: set<nat>)
    ensures Landed(dur, blocks, free, vol', dur', blocks', free', from, end, touched) && Fits(touched, blocks, free) ==> dur' == dur
  {}

  lemma InPlaceReady(fsb: nat, off: nat, blocks: map<nat, CBlock>)
    ensures FreshReady(fsb, fsb, off, blocks)
  {}

  /** Cutting a file that already ends there changes nothing. */
  lemma FtruncateTwice(f: Image, size: nat)
    ensures Ftruncate(Ftruncate(f, size), size) == Ftruncate(f, size)
  {}

  /** Growing a file is writing zeros at its end. */
  lemma GrowIsWrite(f: Image, size: nat)
    requires |f| < size
    ensures Pwrite(f, Zeros(size - |f|), |f|) == Ftruncate(f, size)
  {}
}
