/** The torn-op fault: a write is split in parts, the listed parts go to disk, and the process is killed. */
module TornOp {
  import opened Posix

  /** What one pwrite of the fault takes from the buffer, and where it puts it. */
  datatype Piece = Piece(from: int, len: int, at: int)

  /** The parameters of a fault: `parts` equal parts, or, when `parts` is -1, parts of the sizes in
      `partsBytes`; the numbers, from 1, of the parts to persist; the write it is about. */
  datatype Setting = Setting(occurrence: int, persist: seq<int>, parts: int, partsBytes: seq<int>)

  function PartCount(s: Setting): int {
    if s.parts == -1 then |s.partsBytes| else s.parts
  }

  /** What validate accepts. */
  predicate Validated(s: Setting) {
    && s.occurrence > 0
    && (s.parts == -1 || s.parts > 0)
    && (forall k | 0 <= k < |s.partsBytes| :: s.partsBytes[k] > 0)
    && (forall k | 0 <= k < |s.persist| :: 0 < s.persist[k] <= PartCount(s))
  }

  /** The bytes of the first `n` parts. */
  function Sum(partsBytes: seq<int>, n: nat): int
    requires n <= |partsBytes|
  {
    if n == 0 then 0 else Sum(partsBytes, n - 1) + partsBytes[n - 1]
  }

  /** The parts add up to the write. */
  predicate Splits(s: Setting, size: nat) {
    s.parts == -1 ==> Sum(s.partsBytes, |s.partsBytes|) == size
  }

  /** Where part `p` starts. */
  function PartStart(s: Setting, size: nat, p: int): int
    requires Validated(s) && 1 <= p <= PartCount(s) + 1
  {
    if s.parts == -1 then Sum(s.partsBytes, p - 1) else (p - 1) * (size / s.parts)
  }

  /** What is left over when equal parts do not divide the write. */
  function Extra(s: Setting, size: nat): nat
    requires Validated(s)
  {
    if s.parts == -1 then 0 else size % s.parts
  }

  /** The piece for the `k`-th part of the list; the last one listed takes what is left over. */
  function PieceAt(s: Setting, size: nat, offset: nat, k: nat): Piece
    requires Validated(s) && k < |s.persist|
  {
    var p := s.persist[k];
    Piece(PartStart(s, size, p),
          PartStart(s, size, p + 1) - PartStart(s, size, p) + if k == |s.persist| - 1 then Extra(s, size) else 0,
          offset + PartStart(s, size, p))
  }

  function Pieces(s: Setting, size: nat, offset: nat): (r: seq<Piece>)
    requires Validated(s)
    ensures |r| == |s.persist|
  {
    seq(|s.persist|, k requires 0 <= k < |s.persist| => PieceAt(s, size, offset, k))
  }

  /* ---------------------------------------------------------------- which bytes a listed part has */

  /** Where the parts start, from the first byte on, and where the last one ends: each has its given size, or
      an equal share. */
  ghost predicate Divided(s: Setting, size: nat, starts: seq<int>)
    requires Validated(s)
  {
    && |starts| == PartCount(s) + 1 && starts[0] == 0
    && forall p | 1 <= p <= PartCount(s) :: starts[p] - starts[p - 1] == if s.parts == -1 then s.partsBytes[p - 1] else size / s.parts
  }

  /** One piece for each part listed, in list order: the bytes of that part, and with the last one of equal
      parts those left over. */
  ghost predicate TakesListed(s: Setting, size: nat, offset: nat, starts: seq<int>, info: seq<Piece>)
    requires Validated(s) && |starts| == PartCount(s) + 1
  {
    && |info| == |s.persist|
    && forall k | 0 <= k < |info| ::
         && info[k].from == starts[s.persist[k] - 1] && info[k].at == offset + info[k].from
         && info[k].len == (if s.parts == -1 then s.partsBytes[s.persist[k] - 1]
                            else size / s.parts + if k == |info| - 1 then size % s.parts else 0)
  }

  ghost function Starts(s: Setting, size: nat): (r: seq<int>)
    requires Validated(s)
    ensures |r| == PartCount(s) + 1
  {
    seq(PartCount(s) + 1, p requires 0 <= p <= PartCount(s) => PartStart(s, size, p + 1))
  }

  /** A part of given size starts where the one before it ends. */
  lemma NextSized(s: Setting, size: nat, p: int)
    requires Validated(s) && 1 <= p <= PartCount(s) && s.parts == -1
    ensures PartStart(s, size, p + 1) == PartStart(s, size, p) + s.partsBytes[p - 1]
  {}

  /** The parts divide the write as given. */
  lemma PartsDivide(s: Setting, size: nat)
    requires Validated(s)
    ensures Divided(s, size, Starts(s, size))
  {
    NoneBefore(s, size);
    forall p | 1 <= p <= PartCount(s)
      ensures Starts(s, size)[p] - Starts(s, size)[p - 1] == if s.parts == -1 then s.partsBytes[p - 1] else size / s.parts
    {
      if s.parts == -1 { NextSized(s, size, p); } else { NextPart(s, size, p); }
    }
  }

  /** The pieces are those of the parts listed. */
  lemma PiecesListed(s: Setting, size: nat, offset: nat)
    requires Validated(s)
    ensures TakesListed(s, size, offset, Starts(s, size), Pieces(s, size, offset))
  {
    forall k | 0 <= k < |s.persist|
      ensures PieceAt(s, size, offset, k).len ==
              if s.parts == -1 then s.partsBytes[s.persist[k] - 1]
              else size / s.parts + if k == |s.persist| - 1 then size % s.parts else 0
    {
      if s.parts == -1 { NextSized(s, size, s.persist[k]); } else { NextPart(s, size, s.persist[k]); }
    }
  }

  /** Lists without the last part: of sizes 3 and 7 the first, and of three equal parts of ten bytes the first
      two, the second of which takes the byte left over. */
  lemma ListedWithoutLast(offset: nat)
    ensures var s := Setting(1, [1], -1, [3, 7]);
            Validated(s) && Splits(s, 10) && Pieces(s, 10, offset) == [Piece(0, 3, offset)]
    ensures var s := Setting(1, [1, 2], 3, []);
            Validated(s) && Pieces(s, 10, offset) == [Piece(0, 3, offset), Piece(3, 4, offset + 3)]
  {
    var s, t := Setting(1, [1], -1, [3, 7]), Setting(1, [1, 2], 3, []);
    assert Sum([3, 7], 2) == Sum([3, 7], 1) + 7;
    NextSized(s, 10, 1);
    assert PieceAt(s, 10, offset, 0) == Piece(0, 3, offset);
    assert PieceAt(t, 10, offset, 0) == Piece(0, 3, offset) && PieceAt(t, 10, offset, 1) == Piece(3, 4, offset + 3);
  }

  /* ---------------------------------------------------------------- the pieces are inside and apart */

  lemma PartNext(s: Setting, size: nat, p: int)
    requires Validated(s) && 1 <= p <= PartCount(s)
    ensures PartStart(s, size, 1) == 0 && PartStart(s, size, p) <= PartStart(s, size, p + 1)
    ensures s.parts == -1 ==> PartStart(s, size, p) < PartStart(s, size, p + 1)
  {
    if s.parts != -1 { NextPart(s, size, p); }
  }

  lemma {:induction false} PartsRise(s: Setting, size: nat, p: int, p': int)
    requires Validated(s) && 1 <= p <= p' <= PartCount(s) + 1
    ensures PartStart(s, size, p) <= PartStart(s, size, p')
    ensures s.parts == -1 && p < p' ==> PartStart(s, size, p) < PartStart(s, size, p')
    decreases p'
  {
    hide PartStart;
    if p < p' {
      PartsRise(s, size, p, p' - 1);
      PartNext(s, size, p' - 1);
    }
  }

  lemma PartsOrdered(s: Setting, size: nat, p: int, p': int)
    requires Validated(s) && 1 <= p <= p' <= PartCount(s) + 1
    ensures 0 <= PartStart(s, size, p) <= PartStart(s, size, p')
    ensures s.parts == -1 && p < p' ==> PartStart(s, size, p) < PartStart(s, size, p')
  {
    hide PartStart;
    PartsRise(s, size, 1, p);
    PartsRise(s, size, p, p');
    NoneBefore(s, size);
  }

  lemma NextPart(s: Setting, size: nat, p: int)
    requires Validated(s) && 1 <= p <= PartCount(s) && s.parts != -1
    ensures PartStart(s, size, p + 1) == PartStart(s, size, p) + size / s.parts
  {
    var q := size / s.parts;
    assert p * q == (p - 1) * q + q;
  }

  /** The parts and what is left over make the write. */
  lemma PartsWhole(s: Setting, size: nat)
    requires Validated(s) && Splits(s, size)
    ensures PartStart(s, size, PartCount(s) + 1) + Extra(s, size) == size
  {}

  predicate Inside(piece: Piece, size: nat, offset: nat) {
    0 <= piece.from && 0 <= piece.len && piece.from + piece.len <= size && piece.at == offset + piece.from
  }

  /** Every piece lies inside the write, and puts byte `i` of the buffer at `offset + i`. */
  lemma PieceInside(s: Setting, size: nat, offset: nat, k: nat)
    requires Validated(s) && Splits(s, size) && k < |s.persist|
    ensures Inside(PieceAt(s, size, offset, k), size, offset)
  {
    var p := s.persist[k];
    PartsOrdered(s, size, 1, p);
    PartsOrdered(s, size, p, p + 1);
    PartsOrdered(s, size, p + 1, PartCount(s) + 1);
    PartsWhole(s, size);
  }

  predicate Increasing(persist: seq<int>) {
    forall j, k | 0 <= j < k < |persist| :: persist[j] < persist[k]
  }

  /** With the list in increasing order no two pieces overlap. */
  lemma PiecesDisjoint(s: Setting, size: nat, offset: nat, j: nat, k: nat)
    requires Validated(s) && Splits(s, size) && Increasing(s.persist) && j < k < |s.persist|
    ensures PieceAt(s, size, offset, j).from + PieceAt(s, size, offset, j).len <= PieceAt(s, size, offset, k).from
  {
    PartsOrdered(s, size, s.persist[j] + 1, s.persist[k]);
  }

  /* ---------------------------------------------------------------- what reaches the disk */

  ghost predicate AllInside(pieces: seq<Piece>, size: nat, offset: nat) {
    forall k | 0 <= k < |pieces| :: Inside(pieces[k], size, offset)
  }

  /** The file once the pieces are written, one by one. */
  ghost function Laid(file: Image, buf: Image, offset: nat, pieces: seq<Piece>): Image
    requires AllInside(pieces, |buf|, offset)
  {
    if pieces == [] then file else
      var last := pieces[|pieces| - 1];
      assert Inside(last, |buf|, offset);
      Pwrite(Laid(file, buf, offset, pieces[..|pieces| - 1]), buf[last.from..last.from + last.len], last.at)
  }

  predicate Covers(piece: Piece, i: int) {
    piece.from <= i < piece.from + piece.len
  }

  /** Byte `i` of the write is in some piece. */
  ghost predicate Covered(pieces: seq<Piece>, i: int) {
    exists k :: 0 <= k < |pieces| && Covers(pieces[k], i)
  }

  /** The disk gets the covered bytes of the write, each at its place, and nothing else. */
  ghost predicate TornWrite(file: Image, file': Image, buf: Image, offset: nat, pieces: seq<Piece>) {
    && |file| <= |file'| <= Max(|file|, offset + |buf|)
    && (forall i: nat | i < |buf| && Covered(pieces, i) :: offset + i < |file'|)
    && (forall j: nat | j < |file'| ::
          file'[j] == if offset <= j < offset + |buf| && Covered(pieces, j - offset) then buf[j - offset]
                      else if j < |file| then file[j] else 0)
  }

  lemma CoveredMore(pieces: seq<Piece>, i: int)
    requires |pieces| > 0
    ensures Covered(pieces, i) <==> Covered(pieces[..|pieces| - 1], i) || Covers(pieces[|pieces| - 1], i)
  {
    var init := pieces[..|pieces| - 1];
    if Covered(init, i) {
      var k :| 0 <= k < |init| && Covers(init[k], i);
      assert Covers(pieces[k], i);
    }
    if Covered(pieces, i) && !Covers(pieces[|pieces| - 1], i) {
      var k :| 0 <= k < |pieces| && Covers(pieces[k], i);
      assert Covers(init[k], i);
    }
  }

  lemma {:induction false} LaidIsTorn(file: Image, buf: Image, offset: nat, pieces: seq<Piece>)
    requires AllInside(pieces, |buf|, offset)
    ensures TornWrite(file, Laid(file, buf, offset, pieces), buf, offset, pieces)
  {
    if pieces != [] {
      var init, last := pieces[..|pieces| - 1], pieces[|pieces| - 1];
      assert Inside(last, |buf|, offset);
      LaidIsTorn(file, buf, offset, init);
      TornMore(file, Laid(file, buf, offset, init), buf, offset, pieces);
    }
  }

  lemma TornMore(file: Image, mid: Image, buf: Image, offset: nat, pieces: seq<Piece>)
    requires |pieces| > 0 && Inside(pieces[|pieces| - 1], |buf|, offset)
    requires TornWrite(file, mid, buf, offset, pieces[..|pieces| - 1])
    ensures var last := pieces[|pieces| - 1];
            TornWrite(file, Pwrite(mid, buf[last.from..last.from + last.len], last.at), buf, offset, pieces)
  {
    hide Covered, Laid;
    var last := pieces[|pieces| - 1];
    forall i: int ensures Covered(pieces, i) <==> Covered(pieces[..|pieces| - 1], i) || Covers(last, i) {
      CoveredMore(pieces, i);
    }
  }

  /* ---------------------------------------------------------------- when the whole write survives */

  /** Every part is listed, and what is left over goes with the last part. With more parts than bytes
      all parts are empty and what is left over is the write. */
  predicate Complete(s: Setting, size: nat)
    requires Validated(s)
  {
    if s.parts != -1 && size < s.parts then s.persist != []
    else (forall p | 1 <= p <= PartCount(s) :: p in s.persist)
         && (Extra(s, size) == 0 || (s.persist != [] && s.persist[|s.persist| - 1] == PartCount(s)))
  }

  lemma {:induction false} FindPart(s: Setting, size: nat, n: int, i: nat) returns (p: int)
    requires Validated(s) && 0 <= n <= PartCount(s) && i < PartStart(s, size, n + 1)
    ensures 1 <= p <= n && PartStart(s, size, p) <= i < PartStart(s, size, p + 1)
    decreases n
  {
    NoneBefore(s, size);
    if PartStart(s, size, n) <= i { return n; }
    p := FindPart(s, size, n - 1, i);
  }

  lemma NoneBefore(s: Setting, size: nat)
    requires Validated(s)
    ensures PartStart(s, size, 1) == 0
  {}

  /** A byte of a listed part is covered. */
  lemma PartCovered(s: Setting, size: nat, offset: nat, p: int, i: nat)
    requires Validated(s) && p in s.persist && 1 <= p <= PartCount(s)
    requires PartStart(s, size, p) <= i < PartStart(s, size, p + 1)
    ensures Covered(Pieces(s, size, offset), i)
  {
    hide PartStart, Extra;
    var k :| 0 <= k < |s.persist| && s.persist[k] == p;
    assert Covers(Pieces(s, size, offset)[k], i);
  }

  /** So is a byte that is left over, when it goes with the last part or there are no others. */
  lemma RestCovered(s: Setting, size: nat, offset: nat, i: nat)
    requires Validated(s) && Splits(s, size) && s.persist != [] && PartStart(s, size, PartCount(s) + 1) <= i < size
    requires s.persist[|s.persist| - 1] == PartCount(s) || PartStart(s, size, s.persist[|s.persist| - 1] + 1) == PartStart(s, size, PartCount(s) + 1)
    ensures Covered(Pieces(s, size, offset), i)
  {
    var last := |s.persist| - 1;
    PartsWhole(s, size);
    PartsOrdered(s, size, s.persist[last], s.persist[last] + 1);
    hide PartStart, Extra;
    assert Covers(Pieces(s, size, offset)[last], i);
  }

  lemma MorePartsThanBytes(s: Setting, size: nat, p: int)
    requires Validated(s) && s.parts != -1 && 1 <= p <= PartCount(s) + 1
    ensures size < s.parts ==> PartStart(s, size, p) == 0 && Extra(s, size) == size
    ensures size >= s.parts && p <= PartCount(s) ==> PartStart(s, size, p) < PartStart(s, size, p + 1)
  {
    if size < s.parts {
      assert size / s.parts == 0;
    } else {
      assert size / s.parts > 0;
      if p <= PartCount(s) { NextPart(s, size, p); }
    }
  }

  lemma CompleteCovers(s: Setting, size: nat, offset: nat, i: nat)
    requires Validated(s) && Splits(s, size) && Complete(s, size) && i < size
    ensures Covered(Pieces(s, size, offset), i)
  {
    hide PartStart, Extra, Covered;
    var n := PartCount(s);
    PartsWhole(s, size);
    if s.parts != -1 && size < s.parts {
      MorePartsThanBytes(s, size, n + 1);
      MorePartsThanBytes(s, size, s.persist[|s.persist| - 1] + 1);
      RestCovered(s, size, offset, i);
    } else if i < PartStart(s, size, n + 1) {
      var p := FindPart(s, size, n, i);
      PartCovered(s, size, offset, p, i);
    } else {
      RestCovered(s, size, offset, i);
    }
  }

  /** When the first byte of every part and the last byte of the write are covered, nothing is missing. */
  lemma CoversComplete(s: Setting, size: nat, offset: nat)
    requires Validated(s) && Splits(s, size) && size > 0
    requires forall i | 0 <= i < size :: Covered(Pieces(s, size, offset), i)
    ensures Complete(s, size)
  {
    hide PartStart, Covered;
    var _ := SomeCovers(s, size, offset, size - 1);
    if s.parts == -1 || size >= s.parts {
      if Extra(s, size) > 0 { LastListed(s, size, offset); }
      forall p | 1 <= p <= PartCount(s) ensures p in s.persist { EachListed(s, size, offset, p); }
    }
  }

  lemma SomeCovers(s: Setting, size: nat, offset: nat, i: nat) returns (k: nat)
    requires Validated(s) && Covered(Pieces(s, size, offset), i)
    ensures k < |s.persist| && PartStart(s, size, s.persist[k]) <= i
    ensures i < PartStart(s, size, s.persist[k] + 1) + if k == |s.persist| - 1 then Extra(s, size) else 0
  {
    hide PartStart, Extra;
    k :| 0 <= k < |Pieces(s, size, offset)| && Covers(Pieces(s, size, offset)[k], i);
  }

  lemma LastListed(s: Setting, size: nat, offset: nat)
    requires Validated(s) && Splits(s, size) && size > 0 && s.parts != -1 && size >= s.parts && Extra(s, size) > 0
    requires Covered(Pieces(s, size, offset), size - 1)
    ensures s.persist != [] && s.persist[|s.persist| - 1] == PartCount(s)
  {
    hide PartStart, Covered, Extra;
    var k := SomeCovers(s, size, offset, size - 1);
    PartsWhole(s, size);
    var p := s.persist[k];
    PartsOrdered(s, size, p + 1, PartCount(s) + 1);
    if p < PartCount(s) {
      MorePartsThanBytes(s, size, PartCount(s));
      PartsOrdered(s, size, p + 1, PartCount(s));
    }
  }

  lemma EachListed(s: Setting, size: nat, offset: nat, p: int)
    requires Validated(s) && Splits(s, size) && size > 0 && (s.parts == -1 || size >= s.parts) && 1 <= p <= PartCount(s)
    requires forall i | 0 <= i < size :: Covered(Pieces(s, size, offset), i)
    requires Extra(s, size) > 0 ==> s.persist != [] && s.persist[|s.persist| - 1] == PartCount(s)
    ensures p in s.persist
  {
    hide PartStart, Covered, Extra;
    PartsWhole(s, size);
    PartsOrdered(s, size, 1, p);
    PartsOrdered(s, size, p, p + 1);
    PartsOrdered(s, size, p + 1, PartCount(s) + 1);
    if s.parts != -1 { MorePartsThanBytes(s, size, p); }
    var i := PartStart(s, size, p);
    var k := SomeCovers(s, size, offset, i);
    var p' := s.persist[k];
    if p' < p {
      PartsOrdered(s, size, p' + 1, p);
    } else if p' > p {
      PartsOrdered(s, size, p + 1, p');
    }
  }

  /** Persisting is the whole write, whatever the file and the bytes, exactly when the list is complete. */
  lemma WholeWriteExactly(s: Setting, size: nat, offset: nat)
    requires Validated(s) && Splits(s, size) && size > 0
    ensures AllInside(Pieces(s, size, offset), size, offset)
    ensures (forall file: Image, buf: Image | |buf| == size :: Laid(file, buf, offset, Pieces(s, size, offset)) == Pwrite(file, buf, offset))
            <==> Complete(s, size)
  {
    var pieces := Pieces(s, size, offset);
    forall k | 0 <= k < |pieces| ensures Inside(pieces[k], size, offset) { PieceInside(s, size, offset, k); }
    if Complete(s, size) {
      forall file: Image, buf: Image | |buf| == size ensures Laid(file, buf, offset, pieces) == Pwrite(file, buf, offset) {
        forall i: nat | i < size ensures Covered(pieces, i) { CompleteCovers(s, size, offset, i); }
        LaidIsTorn(file, buf, offset, pieces);
        TornWhole(file, Laid(file, buf, offset, pieces), buf, offset, pieces);
      }
    } else {
      NotWhole(s, size, offset);
    }
  }

  lemma TornWhole(file: Image, file': Image, buf: Image, offset: nat, pieces: seq<Piece>)
    requires TornWrite(file, file', buf, offset, pieces) && |buf| > 0 && forall i: nat | i < |buf| :: Covered(pieces, i)
    ensures file' == Pwrite(file, buf, offset)
  {
    hide Covered;
    assert Covered(pieces, |buf| - 1);
  }

  lemma NotWhole(s: Setting, size: nat, offset: nat)
    requires Validated(s) && Splits(s, size) && size > 0 && !Complete(s, size)
    requires AllInside(Pieces(s, size, offset), size, offset)
    ensures exists file: Image, buf: Image :: |buf| == size && Laid(file, buf, offset, Pieces(s, size, offset)) != Pwrite(file, buf, offset)
  {
    hide Complete, Covered, Laid, PartStart;
    var pieces := Pieces(s, size, offset);
    if forall i | 0 <= i < size :: Covered(pieces, i) { CoversComplete(s, size, offset); }
    var i :| 0 <= i < size && !Covered(pieces, i);
    var file: Image, buf: Image := [], seq(size, _ => 1 as Byte);
    LaidIsTorn(file, buf, offset, pieces);
    assert Pwrite(file, buf, offset)[offset + i] == 1;
    assert offset + i < |Laid(file, buf, offset, pieces)| ==> Laid(file, buf, offset, pieces)[offset + i] == 0;
  }

  /** Three equal parts of a write of ten bytes, listed as 3, 1, 2: the last part listed takes the byte left
      over, and the last byte of the write is in no piece. */
  lemma ListedOutOfOrder(offset: nat)
    ensures var s := Setting(1, [3, 1, 2], 3, []);
            Validated(s) && Splits(s, 10) && !Complete(s, 10) && !Covered(Pieces(s, 10, offset), 9)
            && Pieces(s, 10, offset) == [Piece(6, 3, offset + 6), Piece(0, 3, offset), Piece(3, 4, offset + 3)]
  {
    var s := Setting(1, [3, 1, 2], 3, []);
    assert PieceAt(s, 10, offset, 0) == Piece(6, 3, offset + 6);
    assert PieceAt(s, 10, offset, 1) == Piece(0, 3, offset);
    assert PieceAt(s, 10, offset, 2) == Piece(3, 4, offset + 3);
  }

  /* ---------------------------------------------------------------- the fault itself */

  /** One torn-op fault and its file on disk. `armed`: the process dies when the current write returns. */
  class SplitWriteFault {
    const setting: Setting
    var counter: nat
    var armed: bool
    var file: Image

    constructor (setting: Setting, file: Image)
      ensures this.setting == setting && this.file == file && counter == 0 && !armed
    {
      this.setting, this.file, counter, armed := setting, file, 0, false;
    }

    /** The sum of the part sizes, and of those before part `p`. */
    method Measure(p: int) returns (sum: int, from: int)
      requires Validated(setting) && setting.parts == -1 && 1 <= p <= |setting.partsBytes|
      ensures sum == Sum(setting.partsBytes, |setting.partsBytes|) && from == PartStart(setting, 0, p)
    {
      sum, from := 0, 0;
      for i := 0 to |setting.partsBytes|
        invariant sum == Sum(setting.partsBytes, i)
        invariant from == Sum(setting.partsBytes, if i < p - 1 then i else p - 1)
      {
        sum := sum + setting.partsBytes[i];
        if i < p - 1 {
          from := from + setting.partsBytes[i];
        }
      }
    }

    /** Parts of given sizes. Sizes that do not add up to the write are found out part by part. */
    method PlanSized(size: nat, offset: nat) returns (ok: bool, info: seq<Piece>)
      requires Validated(setting) && setting.parts == -1
      ensures ok == (setting.persist == [] || Splits(setting, size))
      ensures ok ==> info == Pieces(setting, size, offset) && Divided(setting, size, Starts(setting, size))
                     && TakesListed(setting, size, offset, Starts(setting, size), info)
    {
      hide Divided, TakesListed, Sum;
      PartsDivide(setting, size);
      PiecesListed(setting, size, offset);
      info := [];
      for k := 0 to |setting.persist|
        invariant k > 0 ==> Splits(setting, size)
        invariant info == Pieces(setting, size, offset)[..k]
      {
        var p := setting.persist[k];
        var sum, from := Measure(p);
        NextSized(setting, size, p);
        if sum != size {
          return false, info;
        }
        info := info + [Piece(from, setting.partsBytes[p - 1], offset + from)];
      }
      ok := true;
    }

    /** Equal parts. */
    method PlanEqual(size: nat, offset: nat) returns (info: seq<Piece>)
      requires Validated(setting) && setting.parts != -1
      ensures info == Pieces(setting, size, offset) && Divided(setting, size, Starts(setting, size))
      ensures TakesListed(setting, size, offset, Starts(setting, size), info)
    {
      PartsDivide(setting, size);
      PiecesListed(setting, size, offset);
      var sizeToPersist, extra := size / setting.parts, size % setting.parts;
      info := [];
      for k := 0 to |setting.persist|
        invariant info == Pieces(setting, size, offset)[..k]
      {
        var p := setting.persist[k];
        NextPart(setting, size, p);
        var from, len := (p - 1) * sizeToPersist, sizeToPersist;
        if extra > 0 && k == |setting.persist| - 1 {
          len := len + extra;
        }
        info := info + [Piece(from, len, offset + from)];
      }
    }

    method PersistPieces(buf: Image, offset: nat, info: seq<Piece>)
      requires AllInside(info, |buf|, offset)
      modifies this`file
      ensures file == Laid(old(file), buf, offset, info)
    {
      for k := 0 to |info|
        invariant file == Laid(old(file), buf, offset, info[..k])
      {
        var piece := info[k];
        assert Inside(piece, |buf|, offset);
        assert info[..k + 1][..k] == info[..k];
        file := Pwrite(file, buf[piece.from..piece.from + piece.len], piece.at);
      }
      assert info[..|info|] == info;
    }

    /** split_write. The write the fault is about reaches the disk in its listed parts only, each with the
        bytes between where it and the next one start, and the crash is armed; but sizes that do not add up to the write, with something listed, do nothing. */
    method SplitWrite(buf: Image, offset: nat) returns (crashAdded: bool, ghost starts: seq<int>, ghost info: seq<Piece>)
      requires Validated(setting) && |buf| > 0
      modifies this
      ensures counter == old(counter) + 1 && armed == (old(armed) || crashAdded)
      ensures crashAdded == (counter == setting.occurrence && (setting.persist == [] || Splits(setting, |buf|)))
      ensures !crashAdded ==> file == old(file)
      ensures crashAdded ==>
                && Divided(setting, |buf|, starts) && TakesListed(setting, |buf|, offset, starts, info)
                && TornWrite(old(file), file, buf, offset, info)
      ensures crashAdded && Splits(setting, |buf|) && Complete(setting, |buf|) ==> file == Pwrite(old(file), buf, offset)
    {
      crashAdded, starts, info := false, Starts(setting, |buf|), Pieces(setting, |buf|, offset);
      PartsDivide(setting, |buf|);
      PiecesListed(setting, |buf|, offset);
      counter := counter + 1;
      if counter == setting.occurrence {
        var pieces: seq<Piece>;
        if setting.parts == -1 {
          var ok;
          ok, pieces := PlanSized(|buf|, offset);
          if !ok {
            return;
          }
        } else {
          pieces := PlanEqual(|buf|, offset);
        }
        forall k | 0 <= k < |pieces| ensures Inside(pieces[k], |buf|, offset) {
          PieceInside(setting, |buf|, offset, k);
        }
        LaidIsTorn(file, buf, offset, pieces);
        if Splits(setting, |buf|) { WholeWriteExactly(setting, |buf|, offset); }
        PersistPieces(buf, offset, pieces);
        armed, crashAdded := true, true;
      }
    }
  }
}
