/** One file seen through the cache: cached blocks laid over the disk image. */
module Overlay {
  import opened Posix

  /** IO_BLOCK_SIZE, fixed at mount time. Nothing but B >= 2 is known of it. */
  type BlockSize = n: nat | n >= 2 witness 2
  const B: BlockSize

  /* ---------------------------------------------------------------- block arithmetic */

  function Start(b: nat): nat { b * B }

  function BlockOf(i: nat): nat { i / B }

  function Within(i: nat): nat { i % B }

  lemma StartMonotone(b: nat, c: nat)
    requires b < c
    ensures Start(b) + B <= Start(c)
  {
    assert c * B == (c - b - 1) * B + b * B + B;
    assert (c - b - 1) * B >= 0;
  }

  lemma Locate(i: nat)
    ensures Start(BlockOf(i)) <= i < Start(BlockOf(i)) + B
    ensures Within(i) == i - Start(BlockOf(i))
    ensures 0 <= Within(i) < B
  {}

  lemma Unique(i: nat, b: nat)
    requires Start(b) <= i < Start(b) + B
    ensures BlockOf(i) == b && Within(i) == i - Start(b)
  {
    Locate(i);
    if BlockOf(i) < b { StartMonotone(BlockOf(i), b); }
    if BlockOf(i) > b { StartMonotone(b, BlockOf(i)); }
  }

  /* ---------------------------------------------------------------- the overlay */

  /** A resident block: the page that holds it, the page's bytes, the last readable index
      and the page's dirty flag. */
  datatype CBlock = CBlock(page: nat, bytes: Image, to: int, dirty: bool)

  /** A file as LazyFS sees it: cached size, disk image, resident blocks. */
  datatype View = View(size: nat, disk: Image, blocks: map<nat, CBlock>)

  ghost predicate DirtyAt(v: View, i: nat) {
    BlockOf(i) in v.blocks && v.blocks[BlockOf(i)].dirty
  }

  ghost function ByteAt(v: View, i: nat): Byte {
    if BlockOf(i) in v.blocks && Within(i) < |v.blocks[BlockOf(i)].bytes| then v.blocks[BlockOf(i)].bytes[Within(i)]
    else if i < |v.disk| then v.disk[i]
    else 0
  }

  /** The bytes a reader of the mounted file system must see. */
  ghost function Logical(v: View): (r: Image)
    ensures |r| == v.size
    ensures forall i | 0 <= i < v.size :: r[i] == ByteAt(v, i)
  {
    seq(v.size, i requires 0 <= i => ByteAt(v, i))
  }

  ghost predicate BlockOk(size: nat, b: nat, c: CBlock) {
    |c.bytes| == B && 0 <= c.to < B && (c.to == B - 1 || size <= Start(b) + c.to + 1)
  }

  /** Every resident block is readable up to the end of the block or of the file. */
  ghost predicate Readable(v: View) {
    forall b | b in v.blocks :: BlockOk(v.size, b, v.blocks[b])
  }

  /** Whatever is not dirty in the cache is on disk, with the bytes readers see. */
  ghost predicate Backed(v: View) {
    forall i: nat | i < v.size && !DirtyAt(v, i) :: i < |v.disk| && v.disk[i] == ByteAt(v, i)
  }

  ghost predicate Inv(v: View) {
    Readable(v) && Backed(v)
  }

  /* ---------------------------------------------------------------- write steps */

  ghost predicate InPiece(i: nat, pos: nat, piece: Image) {
    pos <= i < pos + |piece|
  }

  /** The byte at `i` once `piece` is written at `pos`. */
  ghost function Want(v: View, pos: nat, piece: Image, i: nat): Byte {
    if InPiece(i, pos, piece) then piece[i - pos] else ByteAt(v, i)
  }

  lemma LogicalPwrite(v: View, v': View, pos: nat, piece: Image)
    requires pos <= v.size && |piece| > 0
    requires v'.size == Max(v.size, pos + |piece|)
    requires forall i: nat | i < v'.size :: ByteAt(v', i) == Want(v, pos, piece, i)
    ensures Logical(v') == Pwrite(Logical(v), piece, pos)
  {}

  /** The write position `from` of block `b` is reached by the file, and the piece fits. */
  ghost predicate PieceFits(v: View, b: nat, from: nat, piece: Image) {
    |piece| > 0 && from + |piece| <= B && Start(b) + from <= v.size
  }

  ghost function Grown(v: View, b: nat, from: nat, piece: Image): nat {
    Max(v.size, Start(b) + from + |piece|)
  }

  /** `bytes`, laid at index `at` of block `b`, agrees with the written file where it reaches it. */
  ghost predicate Agrees(v: View, b: nat, from: nat, piece: Image, at: nat, bytes: Image) {
    forall k: nat | k < |bytes| && Start(b) + at + k < Grown(v, b, from, piece) ::
      bytes[k] == Want(v, Start(b) + from, piece, Start(b) + at + k)
  }

  /** Positions of other blocks are not moved by a step inside block `b`. */
  lemma OtherBlock(v: View, b: nat, from: nat, piece: Image, i: nat)
    requires PieceFits(v, b, from, piece)
    requires BlockOf(i) != b && i < Grown(v, b, from, piece)
    ensures !InPiece(i, Start(b) + from, piece)
    ensures i < v.size
    ensures i < Start(b) || i >= Start(b) + B
  {
    if Start(b) <= i < Start(b) + B { Unique(i, b); }
  }

  /** Blocks other than `b` stay readable when a piece of block `b` grows the file. */
  lemma GrowReadable(v: View, b: nat, from: nat, piece: Image, d: nat)
    requires PieceFits(v, b, from, piece)
    requires d in v.blocks && d != b && BlockOk(v.size, d, v.blocks[d])
    ensures BlockOk(Grown(v, b, from, piece), d, v.blocks[d])
  {
    if d < b { StartMonotone(d, b); } else { StartMonotone(b, d); }
  }

  /** Byte `i` of the file is as it must be once `piece` is written at `pos`. */
  ghost predicate ByteDone(v: View, v': View, pos: nat, piece: Image, i: nat) {
    && ByteAt(v', i) == Want(v, pos, piece, i)
    && (!DirtyAt(v', i) ==> i < |v'.disk| && v'.disk[i] == ByteAt(v', i))
  }

  lemma BytesDone(v: View, v': View, pos: nat, piece: Image)
    requires pos <= v.size && |piece| > 0 && v'.size == Max(v.size, pos + |piece|) && Readable(v')
    requires forall i: nat | i < v'.size :: ByteDone(v, v', pos, piece, i)
    ensures Inv(v') && Logical(v') == Pwrite(Logical(v), piece, pos)
  {
    hide ByteAt, Want, DirtyAt, Readable;
    forall i: nat | i < v'.size
      ensures ByteAt(v', i) == Want(v, pos, piece, i)
      ensures !DirtyAt(v', i) ==> i < |v'.disk| && v'.disk[i] == ByteAt(v', i)
    {
      assert ByteDone(v, v', pos, piece, i);
    }
    LogicalPwrite(v, v', pos, piece);
  }

  lemma PutByte(v: View, b: nat, from: nat, piece: Image, c: CBlock, i: nat)
    requires Backed(v) && PieceFits(v, b, from, piece) && i < Grown(v, b, from, piece)
    requires Agrees(v, b, from, piece, 0, c.bytes) && c.dirty && |c.bytes| == B
    ensures ByteDone(v, View(Grown(v, b, from, piece), v.disk, v.blocks[b := c]), Start(b) + from, piece, i)
  {
    var v' := View(Grown(v, b, from, piece), v.disk, v.blocks[b := c]);
    Locate(i);
    if BlockOf(i) != b {
      OtherBlock(v, b, from, piece, i);
      assert DirtyAt(v', i) <==> DirtyAt(v, i);
    } else {
      assert c.bytes[i - Start(b)] == Want(v, Start(b) + from, piece, i);
    }
  }

  /** A dirty block put in the cache, in place or fresh, is a write of the logical file. */
  lemma PutStep(v: View, b: nat, from: nat, piece: Image, c: CBlock)
    requires Inv(v) && PieceFits(v, b, from, piece)
    requires Agrees(v, b, from, piece, 0, c.bytes)
    requires c.dirty && BlockOk(Grown(v, b, from, piece), b, c)
    ensures var v' := View(Grown(v, b, from, piece), v.disk, v.blocks[b := c]);
            Inv(v') && Logical(v') == Pwrite(Logical(v), piece, Start(b) + from)
  {
    hide Backed, Agrees, ByteDone, Start, Logical, Pwrite;
    var v', pos := View(Grown(v, b, from, piece), v.disk, v.blocks[b := c]), Start(b) + from;
    forall i: nat | i < v'.size ensures ByteDone(v, v', pos, piece, i) { PutByte(v, b, from, piece, c, i); }
    forall d | d in v'.blocks ensures BlockOk(v'.size, d, v'.blocks[d]) {
      if d != b { GrowReadable(v, b, from, piece, d); }
    }
    BytesDone(v, v', pos, piece);
  }

  lemma ThroughByte(v: View, b: nat, from: nat, piece: Image, at: nat, data: Image, i: nat)
    requires Backed(v) && PieceFits(v, b, from, piece) && b !in v.blocks && i < Grown(v, b, from, piece)
    requires at + |data| <= B && at <= from && from + |piece| <= at + |data|
    requires Agrees(v, b, from, piece, at, data)
    ensures ByteDone(v, View(Grown(v, b, from, piece), Pwrite(v.disk, data, Start(b) + at), v.blocks), Start(b) + from, piece, i)
  {
    var v' := View(Grown(v, b, from, piece), Pwrite(v.disk, data, Start(b) + at), v.blocks);
    Locate(i);
    assert DirtyAt(v', i) <==> DirtyAt(v, i);
    if BlockOf(i) != b {
      OtherBlock(v, b, from, piece, i);
    } else if Start(b) + at <= i < Start(b) + at + |data| {
      assert data[i - Start(b) - at] == Want(v, Start(b) + from, piece, i);
    }
  }

  /** Writing a piece of a block that is not resident straight to disk is a write of the
      logical file. `data` may also rewrite bytes of the block around the piece. */
  lemma ThroughStep(v: View, b: nat, from: nat, piece: Image, at: nat, data: Image)
    requires Inv(v) && PieceFits(v, b, from, piece)
    requires b !in v.blocks
    requires at + |data| <= B && at <= from && from + |piece| <= at + |data|
    requires Agrees(v, b, from, piece, at, data)
    ensures var v' := View(Grown(v, b, from, piece), Pwrite(v.disk, data, Start(b) + at), v.blocks);
            Inv(v') && Logical(v') == Pwrite(Logical(v), piece, Start(b) + from)
  {
    hide Backed, Agrees, ByteDone, Start, Logical, Pwrite;
    var v', pos := View(Grown(v, b, from, piece), Pwrite(v.disk, data, Start(b) + at), v.blocks), Start(b) + from;
    forall i: nat | i < v'.size ensures ByteDone(v, v', pos, piece, i) { ThroughByte(v, b, from, piece, at, data, i); }
    forall d | d in v'.blocks ensures BlockOk(v'.size, d, v'.blocks[d]) {
      GrowReadable(v, b, from, piece, d);
    }
    BytesDone(v, v', pos, piece);
  }

  /** The block image a partial write of an uncached block puts in the cache: the bytes `read`
      from disk, zeros up to `from`, then the piece. */
  function Merged(read: Image, from: nat, piece: Image): (r: Image)
    ensures |r| == Max(|read|, from + |piece|)
    ensures forall k: nat | k < |r| ::
              r[k] == if from <= k < from + |piece| then piece[k - from] else if k < |read| then read[k] else 0
  {
    Overwrite(Ftruncate(read, Max(|read|, from + |piece|)), from, piece)
  }

  /** What a put leaves in a resident block. */
  function Updated(c: CBlock, from: nat, piece: Image): CBlock
    requires from + |piece| <= |c.bytes|
  {
    CBlock(c.page, Overwrite(c.bytes, from, piece), Max(c.to, from + |piece| - 1), true)
  }

  /** What a put leaves in a page taken from the free list. */
  function Fresh(page: nat, from: nat, data: Image): CBlock
    requires from + |data| <= B
  {
    CBlock(page, Overwrite(Zeros(B), from, data), from + |data| - 1, true)
  }

  lemma UpdateStep(v: View, b: nat, from: nat, piece: Image)
    requires Inv(v) && PieceFits(v, b, from, piece) && b in v.blocks
    ensures var v' := View(Grown(v, b, from, piece), v.disk, v.blocks[b := Updated(v.blocks[b], from, piece)]);
            Inv(v') && Logical(v') == Pwrite(Logical(v), piece, Start(b) + from)
  {
    var c := Updated(v.blocks[b], from, piece);
    forall k: nat | k < B && Start(b) + k < Grown(v, b, from, piece)
      ensures c.bytes[k] == Want(v, Start(b) + from, piece, Start(b) + k)
    {
      Unique(Start(b) + k, b);
    }
    PutStep(v, b, from, piece, c);
  }

  /** A block wholly past end of file is cached without reading the disk. */
  lemma FreshStep(v: View, b: nat, piece: Image, page: nat)
    requires Inv(v) && PieceFits(v, b, 0, piece) && v.size <= Start(b)
    ensures var v' := View(Grown(v, b, 0, piece), v.disk, v.blocks[b := Fresh(page, 0, piece)]);
            Inv(v') && Logical(v') == Pwrite(Logical(v), piece, Start(b))
  {
    PutStep(v, b, 0, piece, Fresh(page, 0, piece));
  }

  /** What an uncached partial write makes of block `b`. */
  ghost function MergedBlock(v: View, b: nat, from: nat, piece: Image): Image {
    Merged(Pread(v.disk, B, Start(b)), from, piece)
  }

  /** Whatever of an uncached block the file reaches is on disk. */
  lemma ReadReaches(v: View, b: nat)
    requires Inv(v) && b !in v.blocks
    ensures var read := Pread(v.disk, B, Start(b));
            && (v.size <= Start(b) || Min(v.size - Start(b), B) <= |read|)
            && forall k: nat | k < B && Start(b) + k < v.size :: read[k] == ByteAt(v, Start(b) + k)
  {
    var read := Pread(v.disk, B, Start(b));
    if v.size > Start(b) {
      var last := Min(v.size, Start(b) + B) - 1;
      Unique(last, b);
      assert !DirtyAt(v, last);
    }
    forall k: nat | k < B && Start(b) + k < v.size ensures read[k] == ByteAt(v, Start(b) + k) {
      Unique(Start(b) + k, b);
      assert !DirtyAt(v, Start(b) + k);
    }
  }

  lemma MergedAgrees(v: View, b: nat, from: nat, piece: Image)
    requires Inv(v) && PieceFits(v, b, from, piece) && b !in v.blocks
    ensures var m := MergedBlock(v, b, from, piece);
            && |m| <= B && (|m| == B || Grown(v, b, from, piece) <= Start(b) + |m|)
            && Agrees(v, b, from, piece, 0, m)
  {
    hide Inv, Start, ByteAt, Pread, Merged;
    ReadReaches(v, b);
  }

  lemma MergeStep(v: View, b: nat, from: nat, piece: Image, page: nat)
    requires Inv(v) && PieceFits(v, b, from, piece) && b !in v.blocks
    ensures |MergedBlock(v, b, from, piece)| <= B
    ensures var v' := View(Grown(v, b, from, piece), v.disk, v.blocks[b := Fresh(page, 0, MergedBlock(v, b, from, piece))]);
            Inv(v') && Logical(v') == Pwrite(Logical(v), piece, Start(b) + from)
  {
    hide Inv, Logical, Start, ByteAt, MergedBlock;
    MergedAgrees(v, b, from, piece);
    PutStep(v, b, from, piece, Fresh(page, 0, MergedBlock(v, b, from, piece)));
  }

  /** No page could be had: the merged block goes to disk instead. */
  lemma MergeThroughStep(v: View, b: nat, from: nat, piece: Image)
    requires Inv(v) && PieceFits(v, b, from, piece) && b !in v.blocks
    ensures var v' := View(Grown(v, b, from, piece), Pwrite(v.disk, MergedBlock(v, b, from, piece), Start(b)), v.blocks);
            Inv(v') && Logical(v') == Pwrite(Logical(v), piece, Start(b) + from)
  {
    hide Inv, Logical, Start, ByteAt;
    MergedAgrees(v, b, from, piece);
    ThroughStep(v, b, from, piece, 0, MergedBlock(v, b, from, piece));
  }

  /* ---------------------------------------------------------------- truncation */

  function Cut(c: CBlock, index: nat): CBlock
    requires index <= |c.bytes|
  {
    CBlock(c.page, c.bytes[..index] + Zeros(|c.bytes| - index), index - 1, c.dirty)
  }

  /** The resident blocks left by a truncation at byte `index` of block `at`. */
  ghost function CutBlocks(blocks: map<nat, CBlock>, at: nat, index: nat): map<nat, CBlock>
    requires at in blocks ==> index <= |blocks[at].bytes|
  {
    map b | b in blocks && (b < at || (b == at && index > 0)) :: if b == at then Cut(blocks[b], index) else blocks[b]
  }

  /** The block at the cut keeps its page, its dirtiness and its bytes before `index`; it is zero from there
      on, and readable up to there. */
  ghost predicate CutFrom(was: CBlock, now: CBlock, index: nat) {
    && now.page == was.page && now.dirty == was.dirty && now.to == index - 1 && |now.bytes| == |was.bytes|
    && forall k | 0 <= k < |now.bytes| :: now.bytes[k] == if k < index then was.bytes[k] else 0
  }

  /** Blocks before the cut are as they were, those past it are gone, and so is the one at the cut if nothing
      of it is left. */
  ghost predicate BlocksCut(was: map<nat, CBlock>, now: map<nat, CBlock>, at: nat, index: nat) {
    && (forall b :: b in now <==> b in was && (b < at || (b == at && index > 0)))
    && (forall b | b in now && b < at :: now[b] == was[b])
    && (at in now ==> CutFrom(was[at], now[at], index))
  }

  lemma CutExactly(blocks: map<nat, CBlock>, at: nat, index: nat)
    requires at in blocks ==> index <= |blocks[at].bytes|
    ensures BlocksCut(blocks, CutBlocks(blocks, at, index), at, index)
  {}

  lemma CutStep(v: View, n: nat)
    requires Inv(v) && n <= v.size
    ensures BlockOf(n) in v.blocks ==> Within(n) <= |v.blocks[BlockOf(n)].bytes|
    ensures var v' := View(n, v.disk, CutBlocks(v.blocks, BlockOf(n), Within(n)));
            Inv(v') && Logical(v') == Ftruncate(Logical(v), n)
  {
    Locate(n);
    var at, index := BlockOf(n), Within(n);
    var v' := View(n, v.disk, CutBlocks(v.blocks, at, index));
    forall i: nat | i < n
      ensures ByteAt(v', i) == ByteAt(v, i) && (DirtyAt(v', i) <==> DirtyAt(v, i))
    {
      Locate(i);
      if BlockOf(i) > at { StartMonotone(at, BlockOf(i)); }
    }
    forall b | b in v'.blocks ensures BlockOk(n, b, v'.blocks[b]) {
      assert BlockOk(v.size, b, v.blocks[b]);
    }
  }

  /** Dropping no block at all is just as good: what lies past the new size is never shown. */
  lemma KeepStep(v: View, n: nat)
    requires Inv(v) && n <= v.size
    ensures var v' := View(n, v.disk, v.blocks);
            Inv(v') && Logical(v') == Ftruncate(Logical(v), n)
  {
    var v' := View(n, v.disk, v.blocks);
    forall i: nat | i < n
      ensures ByteAt(v', i) == ByteAt(v, i) && (DirtyAt(v', i) <==> DirtyAt(v, i))
    {}
    forall b | b in v'.blocks ensures BlockOk(n, b, v'.blocks[b]) {
      assert BlockOk(v.size, b, v.blocks[b]);
    }
  }

  /* ---------------------------------------------------------------- flushing */

  function Clean(c: CBlock): CBlock { c.(dirty := false) }

  ghost function MarkClean(blocks: map<nat, CBlock>, lo: nat, n: nat): map<nat, CBlock> {
    map b | b in blocks :: if lo <= b < lo + n then Clean(blocks[b]) else blocks[b]
  }

  ghost predicate Resident(blocks: map<nat, CBlock>, lo: nat, n: nat) {
    forall b: nat | lo <= b < lo + n :: b in blocks && |blocks[b].bytes| == B && 0 <= blocks[b].to < B
  }

  /** The vectors of one pwritev: whole blocks, the last one up to its readable end. */
  ghost function Vectors(blocks: map<nat, CBlock>, lo: nat, n: nat): (r: seq<Image>)
    requires Resident(blocks, lo, n)
    ensures |r| == n
  {
    seq(n, k requires 0 <= k < n =>
      if k == n - 1 then blocks[lo + k].bytes[..blocks[lo + k].to + 1] else blocks[lo + k].bytes)
  }

  ghost function WholeBlocks(blocks: map<nat, CBlock>, lo: nat, n: nat): (r: seq<Image>)
    requires Resident(blocks, lo, n)
    ensures |r| == n
  {
    seq(n, k requires 0 <= k < n => blocks[lo + k].bytes)
  }

  lemma {:induction false} WholeConcat(blocks: map<nat, CBlock>, lo: nat, n: nat)
    requires Resident(blocks, lo, n)
    ensures Start(lo) + |Concat(WholeBlocks(blocks, lo, n))| == Start(lo + n)
    ensures forall i: nat | Start(lo) <= i < Start(lo + n) ::
              lo <= BlockOf(i) < lo + n &&
              Concat(WholeBlocks(blocks, lo, n))[i - Start(lo)] == blocks[BlockOf(i)].bytes[Within(i)]
  {
    if n > 0 {
      WholeConcat(blocks, lo, n - 1);
      var all, init := WholeBlocks(blocks, lo, n), WholeBlocks(blocks, lo, n - 1);
      assert all[..n - 1] == init;
      assert Start(lo + n) == Start(lo + n - 1) + B;
      forall i: nat | Start(lo + n - 1) <= i < Start(lo + n)
        ensures BlockOf(i) == lo + n - 1
        ensures Concat(all)[i - Start(lo)] == blocks[BlockOf(i)].bytes[Within(i)]
      {
        Unique(i, lo + n - 1);
      }
    }
  }

  /** The gathered bytes put each block at its place. */
  lemma VectorsConcat(blocks: map<nat, CBlock>, lo: nat, n: nat)
    requires n > 0 && Resident(blocks, lo, n)
    ensures Start(lo) + |Concat(Vectors(blocks, lo, n))| == Start(lo + n - 1) + blocks[lo + n - 1].to + 1
    ensures forall i: nat | Start(lo) <= i < Start(lo) + |Concat(Vectors(blocks, lo, n))| ::
              lo <= BlockOf(i) < lo + n &&
              Concat(Vectors(blocks, lo, n))[i - Start(lo)] == blocks[BlockOf(i)].bytes[Within(i)]
  {
    WholeConcat(blocks, lo, n - 1);
    var all, init := Vectors(blocks, lo, n), WholeBlocks(blocks, lo, n - 1);
    assert all[..n - 1] == init;
    forall i: nat | Start(lo + n - 1) <= i < Start(lo) + |Concat(all)|
      ensures BlockOf(i) == lo + n - 1
      ensures Concat(all)[i - Start(lo)] == blocks[BlockOf(i)].bytes[Within(i)]
    {
      Unique(i, lo + n - 1);
    }
  }

  lemma FlushByte(v: View, lo: nat, n: nat, i: nat)
    requires Readable(v) && n > 0 && i < v.size
    requires forall b: nat | lo <= b < lo + n :: b in v.blocks
    requires Resident(v.blocks, lo, n)
    ensures var end := Start(lo) + |Concat(Vectors(v.blocks, lo, n))|;
            lo <= BlockOf(i) < lo + n <==> Start(lo) <= i < end
  {
    VectorsConcat(v.blocks, lo, n);
    Locate(i);
    if lo <= BlockOf(i) < lo + n {
      var last := lo + n - 1;
      assert BlockOk(v.size, last, v.blocks[last]);
      if BlockOf(i) < last { StartMonotone(BlockOf(i), last); }
      if lo < BlockOf(i) { StartMonotone(lo, BlockOf(i)); }
    }
  }

  lemma FlushedByte(v: View, lo: nat, n: nat, i: nat)
    requires Inv(v) && 0 < n <= 1024 && i < v.size && Resident(v.blocks, lo, n)
    ensures var v' := View(v.size, Pwritev(v.disk, Vectors(v.blocks, lo, n), Start(lo)), MarkClean(v.blocks, lo, n));
            ByteAt(v', i) == ByteAt(v, i) && (!DirtyAt(v', i) ==> i < |v'.disk| && v'.disk[i] == ByteAt(v', i))
  {
    hide Vectors, Readable, Concat;
    var v' := View(v.size, Pwritev(v.disk, Vectors(v.blocks, lo, n), Start(lo)), MarkClean(v.blocks, lo, n));
    VectorsConcat(v.blocks, lo, n);
    FlushByte(v, lo, n, i);
    if lo <= BlockOf(i) < lo + n {
      assert v'.disk[i] == v.blocks[BlockOf(i)].bytes[Within(i)];
      Locate(i);
    } else {
      assert DirtyAt(v', i) <==> DirtyAt(v, i);
    }
  }

  /** One pwritev of consecutive resident blocks changes nothing a reader sees. */
  lemma FlushStep(v: View, lo: nat, n: nat)
    requires Inv(v) && 0 < n <= 1024
    requires forall b: nat | lo <= b < lo + n :: b in v.blocks
    ensures Resident(v.blocks, lo, n)
    ensures var v' := View(v.size, Pwritev(v.disk, Vectors(v.blocks, lo, n), Start(lo)), MarkClean(v.blocks, lo, n));
            Inv(v') && Logical(v') == Logical(v)
  {
    hide Vectors, Pwritev, Start, ByteAt, DirtyAt;
    forall b: nat | lo <= b < lo + n ensures BlockOk(v.size, b, v.blocks[b]) {}
    var v' := View(v.size, Pwritev(v.disk, Vectors(v.blocks, lo, n), Start(lo)), MarkClean(v.blocks, lo, n));
    forall i: nat | i < v.size
      ensures ByteAt(v', i) == ByteAt(v, i) && (!DirtyAt(v', i) ==> i < |v'.disk| && v'.disk[i] == ByteAt(v', i))
    {
      FlushedByte(v, lo, n, i);
    }
    forall b | b in v'.blocks ensures BlockOk(v.size, b, v'.blocks[b]) {
      assert BlockOk(v.size, b, v.blocks[b]);
    }
  }

  /** With every block clean, cutting the disk file at the cached size makes it the logical file. */
  lemma SyncedDisk(v: View)
    requires Inv(v) && forall b | b in v.blocks :: !v.blocks[b].dirty
    ensures Ftruncate(v.disk, v.size) == Logical(v)
    ensures var v' := v.(disk := Ftruncate(v.disk, v.size)); Inv(v') && Logical(v') == Logical(v)
  {
    forall i: nat | i < v.size ensures i < |v.disk| && v.disk[i] == ByteAt(v, i) {
      assert !DirtyAt(v, i);
    }
    var v' := v.(disk := Ftruncate(v.disk, v.size));
    forall i: nat | i < v.size ensures ByteAt(v', i) == ByteAt(v, i) {}
    forall b | b in v'.blocks ensures BlockOk(v.size, b, v'.blocks[b]) {
      assert BlockOk(v.size, b, v.blocks[b]);
    }
  }

  /** A file with nothing cached is its disk image. */
  lemma Uncached(disk: Image)
    ensures var v := View(|disk|, disk, map[]); Inv(v) && Logical(v) == disk
  {}
}
