/** The underlying file system: the image of each inode, and the names that reach it. */
module Disks {
  import opened Posix
  import opened Slots

  type Path = string

  class Disk {
    var files: map<Inode, Image>
    const names: map<Path, Inode>

    constructor (names: map<Path, Inode>, files: map<Inode, Image>)
      requires forall p | p in names :: names[p] in files
      ensures Valid() && this.names == names && this.files == files
    {
      this.names := names;
      this.files := files;
    }

    ghost predicate Valid()
      reads this
    {
      forall p | p in names :: names[p] in files
    }

    lemma NamedFile(p: Path)
      requires Valid() && p in names
      ensures names[p] in files
    {}

    method ReadAt(ino: Inode, len: nat, off: nat) returns (r: Image)
      requires ino in files
      ensures r == Pread(files[ino], len, off)
    {
      r := Pread(files[ino], len, off);
    }

    method WriteAt(ino: Inode, buf: Image, off: nat) returns (written: nat)
      requires ino in files
      modifies this`files
      ensures written == |buf| && files == old(files)[ino := Pwrite(old(files)[ino], buf, off)]
    {
      files := files[ino := Pwrite(files[ino], buf, off)];
      written := |buf|;
    }

    method GatherAt(ino: Inode, iov: seq<Image>, off: nat)
      requires ino in files && |iov| <= 1024
      modifies this`files
      ensures files == old(files)[ino := Pwritev(old(files)[ino], iov, off)]
    {
      files := files[ino := Pwritev(files[ino], iov, off)];
    }

    method Truncate(ino: Inode, size: nat)
      requires ino in files
      modifies this`files
      ensures files == old(files)[ino := Ftruncate(old(files)[ino], size)]
    {
      files := files[ino := Ftruncate(files[ino], size)];
    }
  }
}
