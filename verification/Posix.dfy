/** Bytes, file images and the file-system calls LazyFS issues on the underlying disk.

    `Pread`, `Pwrite` and `Ftruncate` have the meaning given to the calls of the same name in
    chapter 3, System Interfaces volume, of IEEE Std 1003.1-2017, for calls that succeed and
    transfer every byte they can. */
module Posix {

  newtype Byte = n: int | 0 <= n < 256

  /** The bytes of a regular file; its length is the file size. */
  type Image = seq<Byte>

  function Min(a: int, b: int): int { if a <= b then a else b }

  function Max(a: int, b: int): int { if a <= b then b else a }

  /** calloc, memset to zero, and the bytes of a hole. */
  function Zeros(n: nat): (r: Image)
    ensures |r| == n && forall k | 0 <= k < n :: r[k] == 0
  {
    seq(n, _ => 0 as Byte)
  }

  /** Replaces `|piece|` bytes from index `from`: memcpy into a buffer. */
  function Overwrite(bytes: Image, from: nat, piece: Image): (r: Image)
    requires from + |piece| <= |bytes|
    ensures |r| == |bytes|
    ensures forall k | 0 <= k < |r| ::
              r[k] == if from <= k < from + |piece| then piece[k - from] else bytes[k]
  {
    bytes[..from] + piece + bytes[from + |piece|..]
  }

  /** The bytes a read of `len` bytes at `off` returns: short at end of file. */
  function Pread(f: Image, len: nat, off: nat): (r: Image)
    ensures |r| == if off >= |f| then 0 else Min(len, |f| - off)
    ensures forall k | 0 <= k < |r| :: r[k] == f[off + k]
  {
    if off >= |f| then [] else f[off..Min(off + len, |f|)]
  }

  function Ftruncate(f: Image, n: nat): (r: Image)
    ensures |r| == n
    ensures forall k | 0 <= k < n :: r[k] == if k < |f| then f[k] else 0
  {
    if n <= |f| then f[..n] else f + Zeros(n - |f|)
  }

  /** A write past end of file leaves zeros in the gap; a write of no bytes changes nothing. */
  function Pwrite(f: Image, buf: Image, off: nat): (r: Image)
    ensures |r| == if |buf| == 0 then |f| else Max(|f|, off + |buf|)
    ensures forall k | 0 <= k < |r| ::
              r[k] == if off <= k < off + |buf| then buf[k - off] else if k < |f| then f[k] else 0
  {
    if |buf| == 0 then f
    else Overwrite(Ftruncate(f, Max(|f|, off + |buf|)), off, buf)
  }

  function Concat(iov: seq<Image>): Image {
    if iov == [] then [] else Concat(iov[..|iov| - 1]) + iov[|iov| - 1]
  }

  /** The gathering write: the vectors in order, as one write. The call takes at most UIO_MAXIOV of them,
      and fails with EINVAL on more. */
  function Pwritev(f: Image, iov: seq<Image>, off: nat): Image
    requires |iov| <= 1024
  {
    Pwrite(f, Concat(iov), off)
  }

  /** memcpy and, with zeros as the source, memset. */
  method Memcpy(dst: array<Byte>, at: nat, src: Image)
    requires at + |src| <= dst.Length
    modifies dst
    ensures dst[..] == Overwrite(old(dst[..]), at, src)
  {
    forall i | 0 <= i < |src| { dst[at + i] := src[i]; }
    assert dst[..] == Overwrite(old(dst[..]), at, src);
  }
}
