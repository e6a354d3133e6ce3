/** How read assembles its answer from resident blocks and delayed reads of the disk. */
module ReadSteps {
  import opened Posix
  import opened Overlay
  import opened WriteSteps

  /** The first `res` bytes of the buffer answer a read of `len` bytes at `off`: they hold what the
      file has there. What comes after the end of file is not specified. */
  ghost predicate Answers(file: Image, off: nat, len: nat, buf: Image, res: nat) {
    if off >= |file| then res == 0
    else Min(len, |file| - off) <= res <= Min(len, |buf|) &&
         buf[..Min(len, |file| - off)] == file[off..off + Min(len, |file| - off)]
  }

  /** Where the bytes handled before block `b` must reach. */
  ghost function Frontier(off: nat, len: nat, b: nat): nat
    requires len > 0
  {
    if b <= BlockOf(off) then off else if b <= BlockOf(off + len - 1) then Start(b) else off + len
  }

  /** Before block `b`, the bytes up to `at` have been handled: all that were asked for, or all there
      are below the end of file. */
  ghost predicate Reached(size: nat, off: nat, len: nat, b: nat, at: nat)
    requires len > 0
  {
    && off < size && BlockOf(off) <= b <= BlockOf(off + len - 1) + 1 && off <= at <= off + len
    && Min(Frontier(off, len, b), size) <= at
    && (b <= BlockOf(off + len - 1) && Start(b) <= size ==> at == Frontier(off, len, b))
  }

  /** What is in the caller's buffer is what the overlay has there, past the end of file too. */
  ghost predicate Right(v: View, off: nat, got: Image) {
    forall k: nat | k < |got| :: got[k] == ByteAt(v, off + k)
  }

  /** Byte `i` comes from disk, and is there if the file goes that far. */
  ghost predicate FromDisk(v: View, i: nat) {
    BlockOf(i) !in v.blocks && (i < v.size ==> i < |v.disk|)
  }

  ghost predicate OnDisk(v: View, at: nat, len: nat) {
    forall i: nat | at <= i < at + len :: FromDisk(v, i)
  }

  /** The block loop of read before block `b`: `got` is in the caller's buffer and the `chunk` bytes
      after it are left to be read from disk. */
  ghost predicate Reading(v: View, off: nat, len: nat, b: nat, got: Image, chunk: nat)
    requires len > 0
  {
    Reached(v.size, off, len, b, off + |got| + chunk) && Right(v, off, got) && OnDisk(v, off + |got|, chunk)
  }

  /* ---------------------------------------------------------------- past the end of file */

  /** The byte just past the end of file is there to be read: in the readable part of a resident block,
      or on disk in a block that is read because the file reaches into it. */
  ghost predicate Trails(v: View) {
    var e := BlockOf(v.size);
    if e in v.blocks then Within(v.size) <= v.blocks[e].to else Within(v.size) > 0 && v.size < |v.disk|
  }

  /** What is known once the block of the end of file is handled: `n` bytes are in the buffer. */
  ghost predicate PastEnd(v: View, off: nat, len: nat, n: nat, chunk: nat) {
    var e := BlockOf(v.size);
    if e in v.blocks then chunk == 0 && off + n == Min(off + len, Start(e) + v.blocks[e].to + 1)
    else if Within(v.size) == 0 then off + n + chunk == v.size
    else off + n < v.size && off + n + chunk == Min(off + len, Start(e) + B)
  }

  /** Where a read stops: where it was asked to, or at the last readable byte of the block of the end of
      file, or at the end of the disk file if that block is read from disk. */
  ghost function ReadEnd(v: View, off: nat, len: nat): int {
    var e := BlockOf(v.size);
    if off + len <= v.size then off + len
    else if e in v.blocks then Min(off + len, Start(e) + v.blocks[e].to + 1)
    else if Within(v.size) == 0 then v.size
    else Min(Min(off + len, Start(e) + B), |v.disk|)
  }

  /** The block loop ends with the block of the end of file, if it is asked for more. */
  ghost predicate Ending(v: View, off: nat, len: nat, b: nat, n: nat, chunk: nat) {
    off + len > v.size ==> b <= BlockOf(v.size) + 1 && (b == BlockOf(v.size) + 1 ==> PastEnd(v, off, len, n, chunk))
  }

  lemma EndingLater(v: View, off: nat, len: nat, b: nat, n: nat, chunk: nat)
    requires Start(b) <= v.size && (b == BlockOf(v.size) ==> off + len > v.size ==> PastEnd(v, off, len, n, chunk))
    ensures Ending(v, off, len, b + 1, n, chunk)
  {
    Locate(v.size);
    if b > BlockOf(v.size) { StartMonotone(BlockOf(v.size), b); }
  }

  /** The piece of the block of the end of file goes past it, when the read does. */
  lemma PieceAtEnd(size: nat, off: nat, len: nat, b: nat, at: nat, handled: nat)
    requires len > 0 && Reached(size, off, len, b, at) && b == BlockOf(size) <= BlockOf(off + len - 1) && off + len > size
    ensures var from, to := PieceFrom(off, len, b), PieceTo(off, len, b, handled);
            && 0 <= from <= to < B && Start(b) + from == at <= size == Start(b) + Within(size) && Within(size) <= to
            && (Within(size) > 0 ==> at < size)
            && Start(b) + to + 1 == Min(off + len, Start(b) + B)
  {
    Locate(size);
    Locate(off + len - 1);
    ReadingPiece(size, off, len, b, at, handled);
    if b < BlockOf(off + len - 1) { StartMonotone(b, BlockOf(off + len - 1)); }
  }

  lemma EndingResident(v: View, off: nat, len: nat, b: nat, at: nat, handled: nat, readTo: int)
    requires len > 0 && Reached(v.size, off, len, b, at) && b <= BlockOf(off + len - 1) && Start(b) <= v.size
    requires b in v.blocks && readTo == Min(v.blocks[b].to, PieceTo(off, len, b, handled)) && PieceFrom(off, len, b) <= readTo + 1
    requires v.blocks[b].to < B
    ensures at - off + (readTo + 1 - PieceFrom(off, len, b)) >= 0
    ensures Ending(v, off, len, b + 1, at - off + (readTo + 1 - PieceFrom(off, len, b)), 0)
  {
    hide Reached, PieceFrom, PieceTo, Start, BlockOf, Within;
    ReachedAfter(v.size, off, len, b, at);
    if b == BlockOf(v.size) && off + len > v.size { PieceAtEnd(v.size, off, len, b, at, handled); }
    EndingLater(v, off, len, b, at - off + (readTo + 1 - PieceFrom(off, len, b)), 0);
  }

  lemma ReachedAfter(size: nat, off: nat, len: nat, b: nat, at: nat)
    requires len > 0 && Reached(size, off, len, b, at)
    ensures off <= at
  {}

  lemma EndingDelayed(v: View, off: nat, len: nat, b: nat, n: nat, chunk: nat, handled: nat)
    requires len > 0 && Reached(v.size, off, len, b, off + n + chunk) && b <= BlockOf(off + len - 1) && Start(b) <= v.size
    requires b !in v.blocks && PieceFrom(off, len, b) <= PieceTo(off, len, b, handled)
    ensures var chunk' := if v.size > Start(b) then chunk + (PieceTo(off, len, b, handled) - PieceFrom(off, len, b) + 1) else chunk;
            Ending(v, off, len, b + 1, n, chunk')
  {
    hide Reached, PieceFrom, PieceTo, Start, BlockOf, Within;
    var from, to := PieceFrom(off, len, b), PieceTo(off, len, b, handled);
    if b == BlockOf(v.size) && off + len > v.size { PieceAtEnd(v.size, off, len, b, off + n + chunk, handled); }
    EndingLater(v, off, len, b, n, if v.size > Start(b) then chunk + (to - from + 1) else chunk);
  }

  /** The same, with the place on disk where the delayed read is to start. */
  ghost predicate Turn(v: View, off: nat, len: nat, b: nat, got: Image, chunk: nat, chunkOffset: nat)
    requires len > 0
  {
    && |got| + chunk <= len && Reading(v, off, len, b, got, chunk) && Ending(v, off, len, b, |got|, chunk)
    && (chunk > 0 || (b <= BlockOf(off + len - 1) && Start(b) <= v.size) ==> chunkOffset == off + |got|)
  }

  lemma TurnParts(v: View, off: nat, len: nat, b: nat, got: Image, chunk: nat, chunkOffset: nat)
    requires len > 0 && Turn(v, off, len, b, got, chunk, chunkOffset)
    ensures |got| + chunk <= len && Reading(v, off, len, b, got, chunk) && (chunk > 0 ==> chunkOffset == off + |got|)
  {}

  lemma ReadingStart(v: View, off: nat, len: nat)
    requires len > 0 && off < v.size
    ensures Turn(v, off, len, BlockOf(off), [], 0, off)
    ensures BlockOf(off) <= BlockOf(off + len - 1) && Start(BlockOf(off)) <= v.size
  {
    RangeOrdered(off, len);
    Locate(off);
    BlockOfMonotone(off, v.size);
  }

  /** The part of block `b` asked for starts where the bytes handled end. */
  lemma ReadingPiece(size: nat, off: nat, len: nat, b: nat, at: nat, handled: nat)
    requires len > 0 && Reached(size, off, len, b, at)
    requires b <= BlockOf(off + len - 1) && Start(b) <= size
    ensures var from, to := PieceFrom(off, len, b), PieceTo(off, len, b, handled);
            && 0 <= from <= to < B && Start(b) + from == at && Start(b) + to + 1 == Frontier(off, len, b + 1)
            && at + (to + 1 - from) <= off + len
            && (b < BlockOf(off + len - 1) ==> to == B - 1)
            && (from == 0 || Start(b) + from < size)
            && Reached(size, off, len, b + 1, at + (to + 1 - from))
  {
    PiecesTile(off, len, b, at - off);
    assert PieceTo(off, len, b, handled) == PieceTo(off, len, b, at - off);
    if b < BlockOf(off + len - 1) { assert Start(b + 1) == Start(b) + B; }
  }

  /** Before block `b` is looked at: its piece lies inside the block, and bytes are left to hand over. */
  lemma ReadingNext(v: View, off: nat, len: nat, b: nat, got: Image, chunk: nat, handled: nat)
    requires len > 0 && Reading(v, off, len, b, got, chunk)
    requires b <= BlockOf(off + len - 1) && Start(b) <= v.size
    ensures 0 <= PieceFrom(off, len, b) <= PieceTo(off, len, b, handled) < B
    ensures |got| + chunk < len && Reached(v.size, off, len, b, off + |got| + chunk)
  {
    hide Right, OnDisk;
    ReadingPiece(v.size, off, len, b, off + |got| + chunk, handled);
  }

  lemma OnDiskReads(v: View, at: nat, len: nat, k: nat)
    requires OnDisk(v, at, len) && k < len
    ensures at + k < v.size ==> k < |Pread(v.disk, len, at)|
    ensures k < |Pread(v.disk, len, at)| ==> Pread(v.disk, len, at)[k] == ByteAt(v, at + k)
  {
    assert FromDisk(v, at + k);
  }

  /** What a delayed read returns is right. */
  lemma ReadRight(v: View, off: nat, got: Image, chunk: nat)
    requires Right(v, off, got) && OnDisk(v, off + |got|, chunk)
    ensures Right(v, off, got + Pread(v.disk, chunk, off + |got|))
    ensures Min(chunk, v.size - off - |got|) <= |Pread(v.disk, chunk, off + |got|)|
  {
    hide OnDisk, ByteAt;
    var read := Pread(v.disk, chunk, off + |got|);
    forall k: nat | k < |got + read| ensures (got + read)[k] == ByteAt(v, off + k) {
      if k >= |got| { OnDiskReads(v, off + |got|, chunk, k - |got|); }
    }
    var last := Min(chunk, v.size - off - |got|) - 1;
    if last >= 0 { OnDiskReads(v, off + |got|, chunk, last); }
  }

  /** A delayed read before a resident block returns every byte asked for. */
  lemma FlushReads(v: View, off: nat, len: nat, b: nat, got: Image, chunk: nat)
    requires len > 0 && Reading(v, off, len, b, got, chunk)
    requires b <= BlockOf(off + len - 1) && Start(b) <= v.size
    ensures |Pread(v.disk, chunk, off + |got|)| == chunk
    ensures Reading(v, off, len, b, got + Pread(v.disk, chunk, off + |got|), 0)
  {
    hide Right;
    ReadRight(v, off, got, chunk);
    Locate(off);
  }

  lemma ResidentRight(v: View, off: nat, b: nat, got: Image, from: nat, to: nat)
    requires b in v.blocks && |v.blocks[b].bytes| == B && from <= to < B
    requires Right(v, off, got) && off + |got| == Start(b) + from
    ensures Right(v, off, got + v.blocks[b].bytes[from..to + 1])
  {
    var got' := got + v.blocks[b].bytes[from..to + 1];
    forall k: nat | k < |got'| ensures got'[k] == ByteAt(v, off + k) {
      if k >= |got| { Unique(off + k, b); }
    }
  }

  /** A resident block gives its readable bytes, fewer than asked for only at the end of file. */
  lemma ReadResident(v: View, off: nat, len: nat, b: nat, got: Image, handled: nat, readTo: int)
    requires Inv(v) && len > 0 && Reading(v, off, len, b, got, 0) && b in v.blocks
    requires b <= BlockOf(off + len - 1) && Start(b) <= v.size
    requires readTo == Min(v.blocks[b].to, PieceTo(off, len, b, handled))
    ensures |v.blocks[b].bytes| == B && 0 <= PieceFrom(off, len, b) <= readTo < B && v.blocks[b].to < B
    ensures |got| + (readTo + 1 - PieceFrom(off, len, b)) <= len
    ensures Reading(v, off, len, b + 1, got + v.blocks[b].bytes[PieceFrom(off, len, b)..readTo + 1], 0)
    ensures b < BlockOf(off + len - 1) && Start(b + 1) <= v.size ==>
              off + |got| + (readTo + 1 - PieceFrom(off, len, b)) == Start(b + 1)
  {
    hide Right, PieceFrom, PieceTo, Frontier, Reached, Start, BlockOf, Backed;
    var c, from, to, at := v.blocks[b], PieceFrom(off, len, b), PieceTo(off, len, b, handled), off + |got|;
    assert BlockOk(v.size, b, c);
    ReadingPiece(v.size, off, len, b, at, handled);
    ResidentRight(v, off, b, got, from, readTo);
    ReachedNext(v.size, off, len, b, at, handled, readTo);
  }

  lemma ReachedNext(size: nat, off: nat, len: nat, b: nat, at: nat, handled: nat, readTo: int)
    requires len > 0 && Reached(size, off, len, b, at)
    requires b <= BlockOf(off + len - 1) && Start(b) <= size
    requires PieceFrom(off, len, b) <= readTo <= PieceTo(off, len, b, handled)
    requires readTo == PieceTo(off, len, b, handled) || size <= Start(b) + readTo + 1
    ensures Reached(size, off, len, b + 1, at + (readTo + 1 - PieceFrom(off, len, b)))
    ensures b < BlockOf(off + len - 1) && Start(b + 1) <= size ==> at + (readTo + 1 - PieceFrom(off, len, b)) == Start(b + 1)
  {
    var to := PieceTo(off, len, b, handled);
    ReadingPiece(size, off, len, b, at, handled);
    assert Start(b + 1) == Start(b) + B;
  }

  lemma DelayedOnDisk(v: View, b: nat, at: nat, chunk: nat, n: nat)
    requires Inv(v) && b !in v.blocks && OnDisk(v, at, chunk)
    requires Start(b) <= at + chunk && at + chunk + n <= Start(b) + B
    ensures OnDisk(v, at, chunk + n)
  {
    forall i: nat | at <= i < at + chunk + n ensures FromDisk(v, i) {
      if i >= at + chunk {
        Unique(i, b);
        assert !DirtyAt(v, i);
      }
    }
  }

  /** A block that is not resident only makes the delayed read longer, or ends the file. */
  lemma ReadDelayed(v: View, off: nat, len: nat, b: nat, got: Image, chunk: nat, handled: nat)
    requires Inv(v) && len > 0 && Reading(v, off, len, b, got, chunk) && b !in v.blocks
    requires b <= BlockOf(off + len - 1) && Start(b) <= v.size
    ensures 0 <= PieceFrom(off, len, b) <= PieceTo(off, len, b, handled)
    ensures var chunk' := if v.size > Start(b) then chunk + (PieceTo(off, len, b, handled) - PieceFrom(off, len, b) + 1) else chunk;
            && |got| + chunk' <= len && Reading(v, off, len, b + 1, got, chunk')
            && (v.size == Start(b) ==> Start(b + 1) > v.size)
  {
    hide Right, PieceFrom, PieceTo, Frontier, Reached, Start, BlockOf, Inv, OnDisk;
    var from, to, at := PieceFrom(off, len, b), PieceTo(off, len, b, handled), off + |got| + chunk;
    ReadingPiece(v.size, off, len, b, at, handled);
    if v.size > Start(b) {
      DelayedOnDisk(v, b, off + |got|, chunk, to + 1 - from);
    } else {
      ReachedAll(v.size, off, len, b, at);
    }
    StartMonotone(b, b + 1);
  }

  lemma ReachedAll(size: nat, off: nat, len: nat, b: nat, at: nat)
    requires len > 0 && Reached(size, off, len, b, at)
    requires b <= BlockOf(off + len - 1) && Start(b) == size
    ensures Reached(size, off, len, b + 1, at)
  {
    Locate(off);
    assert Start(b + 1) == Start(b) + B;
  }

  lemma ReachedEnd(size: nat, off: nat, len: nat, b: nat, at: nat)
    requires len > 0 && Reached(size, off, len, b, at)
    requires b > BlockOf(off + len - 1) || Start(b) > size
    ensures off + Min(len, size - off) <= at <= off + len
  {
    Locate(off);
  }

  /** Once the loop is over, the last delayed read completes the answer, and the answer stops at
      `ReadEnd`. */
  lemma ReadingEnd(v: View, off: nat, len: nat, b: nat, got: Image, chunk: nat)
    requires Inv(v) && len > 0 && off < v.size && Reading(v, off, len, b, got, chunk) && Ending(v, off, len, b, |got|, chunk)
    requires b > BlockOf(off + len - 1) || Start(b) > v.size
    ensures off + |got| + |Pread(v.disk, chunk, off + |got|)| == ReadEnd(v, off, len)
    ensures Right(v, off, got + Pread(v.disk, chunk, off + |got|))
  {
    hide Start, BlockOf, Within, Reached, OnDisk, Right, Inv;
    ReadRight(v, off, got, chunk);
    ReachedEnd(v.size, off, len, b, off + |got| + chunk);
    if off + len > v.size { AtLast(v.size, off, len, b); }
  }

  lemma AtLast(size: nat, off: nat, len: nat, b: nat)
    requires len > 0 && off + len > size && (b > BlockOf(off + len - 1) || Start(b) > size)
    ensures b > BlockOf(size)
  {
    Locate(size);
    BlockOfMonotone(size, off + len - 1);
    if b < BlockOf(size) { StartMonotone(b, BlockOf(size)); }
  }

  /** What a read has done: the bytes handed over are those of the overlay, and stop at `ReadEnd`. */
  ghost predicate ReadDone(v: View, off: nat, len: nat, buf: Image, res: nat) {
    off + res == ReadEnd(v, off, len) && res <= |buf| && Right(v, off, buf[..res])
  }

  lemma TurnsEnd(v: View, off: nat, len: nat, b: nat, got: Image, chunk: nat, chunkOffset: nat)
    requires Inv(v) && len > 0 && off < v.size && Turn(v, off, len, b, got, chunk, chunkOffset)
    requires b > BlockOf(off + len - 1) || Start(b) > v.size
    ensures |got| + chunk <= len && (chunk > 0 ==> chunkOffset == off + |got|)
    ensures var answer := got + Pread(v.disk, chunk, off + |got|);
            forall buf: Image | answer <= buf :: ReadDone(v, off, len, buf, |answer|)
  {
    hide Inv, Reading, Ending, ReadEnd, Right, Start, BlockOf;
    ReadingEnd(v, off, len, b, got, chunk);
    var answer := got + Pread(v.disk, chunk, off + |got|);
    forall buf: Image | answer <= buf ensures ReadDone(v, off, len, buf, |answer|) {
      assert buf[..|answer|] == answer;
    }
  }

  lemma EndBounds(v: View, off: nat, len: nat)
    requires Inv(v) && off < v.size
    ensures off + Min(len, v.size - off) <= ReadEnd(v, off, len) <= off + len
    ensures ReadEnd(v, off, len) == off + Min(len, v.size - off) <==> off + len <= v.size || !Trails(v)
  {
    var e := BlockOf(v.size);
    Locate(v.size);
    if e in v.blocks {
      assert BlockOk(v.size, e, v.blocks[e]);
    } else if Within(v.size) > 0 {
      Unique(v.size - 1, e);
      assert !DirtyAt(v, v.size - 1);
    }
  }

  /** Below the end of file the answer is the file's, and it goes past the end exactly when it was asked to
      and a byte trails there. */
  lemma DoneAnswers(v: View, off: nat, len: nat, buf: Image, res: nat)
    requires Inv(v) && off < v.size && ReadDone(v, off, len, buf, res)
    ensures Answers(Logical(v), off, len, buf, res)
    ensures res == Min(len, v.size - off) <==> off + len <= v.size || !Trails(v)
  {
    hide Inv, ReadEnd, Trails, ByteAt;
    EndBounds(v, off, len);
    var asked := Min(len, v.size - off);
    forall k: nat | k < asked ensures buf[k] == Logical(v)[off + k] {
      assert buf[..res][k] == ByteAt(v, off + k);
    }
  }

  /** A file of two bytes on disk, cut to one and not synced: a read of two bytes answers both. */
  lemma CutFileRead(buf: Image, res: nat)
    requires |buf| == 2 && ReadDone(View(1, [7, 9], map[]), 0, 2, buf, res)
    ensures res == 2 && buf == [7, 9]
  {
    var v := View(1, [7, 9], map[]);
    Unique(1, 0);
    assert ByteAt(v, 0) == 7 && ByteAt(v, 1) == 9;
    assert buf[..2] == buf;
  }
}
