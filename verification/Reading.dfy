/** What the bytes of an image say about its directories: they can be read in one way only.

    An image is well formed if its directory blocks can be read as chains of entries that make it one.
    Which blocks are directory blocks, and what is in them, follows from the inodes and the bytes.  So
    an image can be shown not to be well formed without looking for another way to read it.
 */
module Readings {
  import opened Dirents
  import opened DirBlocks
  import opened FileSystems
  import opened Disks
  import opened Images
  import opened Links
  import opened LinkCounts
  import opened Trees

  /** The inodes, bitmaps and counters of an image, and its bytes, are as they should be. */
  ghost predicate WellFormed(fs: Fs, d: seq<Byte>) {
    exists owner: Owners, dirs: Dirs :: Image(fs, owner, dirs) && DirsHold(d, fs.blockUsed, dirs)
  }

  // ---------------------------------------------------------------- one reading

  /** Block n is in slot j of directory a. */
  ghost predicate InSlot(fs: Fs, n: int, a: int, j: int) {
    n != 0 && LiveDirectory(fs, a) && 0 <= j < INDIRECT1_INDEX && Slots(fs, a)[j] == n
  }

  /** The directory blocks are those in a slot of a directory. */
  lemma DirBlockIs(fs: Fs, owner: Owners, dirs: Dirs, n: int)
    requires Consistent(fs, owner) && DirBlocksOk(fs, owner, dirs)
    ensures n in dirs <==> exists a: int, j: int :: InSlot(fs, n, a, j)
  {
    assert DirBlockOk(fs, owner, dirs, n) && OwnerOk(fs, owner, n);
    if n in dirs {
      assert InSlot(fs, n, owner[n].0, owner[n].1);
    }
    if a: int, j: int :| InSlot(fs, n, a, j) {
      assert SlotOk(fs, owner, a, j);
    }
  }

  /** No directory block has changed. */
  ghost predicate DirBytesKept(d: seq<Byte>, d': seq<Byte>, dirs: Dirs) {
    forall n: int {:trigger SameBlock(d, d', n)} :: n in dirs ==> SameBlock(d, d', n)
  }

  lemma SameKeys(fs: Fs, owner: Owners, dirs: Dirs, fs': Fs, owner': Owners, dirs': Dirs)
    requires Consistent(fs, owner) && DirBlocksOk(fs, owner, dirs)
    requires Consistent(fs', owner') && DirBlocksOk(fs', owner', dirs') && SameDirectories(fs, fs')
    ensures dirs'.Keys == dirs.Keys
  {
    forall n: int ensures n in dirs' <==> n in dirs {
      DirBlockIs(fs, owner, dirs, n);
      DirBlockIs(fs', owner', dirs', n);
      forall a: int, j: int ensures InSlot(fs', n, a, j) == InSlot(fs, n, a, j) {
        assert LiveDirectory(fs', a) == LiveDirectory(fs, a);
      }
    }
  }

  /** While directories keep their blocks, and those their bytes, their entries are what they were, however the rest
      of the image may be read. */
  lemma SameReading(fs: Fs, owner: Owners, dirs: Dirs, d: seq<Byte>, fs': Fs, owner': Owners, dirs': Dirs,
                    d': seq<Byte>)
    requires Consistent(fs, owner) && DirBlocksOk(fs, owner, dirs) && DirsHold(d, fs.blockUsed, dirs)
    requires Consistent(fs', owner') && DirBlocksOk(fs', owner', dirs') && DirsHold(d', fs'.blockUsed, dirs')
    requires SameDirectories(fs, fs') && DirBytesKept(d, d', dirs)
    ensures dirs' == dirs
  {
    SameKeys(fs, owner, dirs, fs', owner', dirs');
    forall n | n in dirs ensures dirs'[n] == dirs[n] {
      assert DirHolds(d, fs.blockUsed, dirs, n) && DirHolds(d', fs'.blockUsed, dirs', n) && SameBlock(d, d', n);
      HoldsDepends(d, d', BlockStart(n), BlockStart(n) + BLOCK_SIZE, dirs[n]);
      ChainUnique(d', BlockStart(n), BlockStart(n) + BLOCK_SIZE, dirs[n], dirs'[n]);
    }
  }

  // ---------------------------------------------------------------- images that are not well formed

  lemma SpoiltIsIll(fs: Fs, d: seq<Byte>)
    requires Spoilt(fs)
    ensures !WellFormed(fs, d)
  {
  }

  lemma CountIsRight(fs: Fs, owner: Owners, dirs: Dirs, x: int)
    requires Image(fs, owner, dirs) && LiveFile(fs, x)
    ensures fs.inodes[x - 1].links == NameCount(dirs, x, |fs.blockUsed|)
  {
    assert LinkOk(fs, dirs, 0, 0, x);
  }

  /** A file whose link count is not the number of its names: no other reading of the image gives it a name. */
  lemma WrongCountIsIll(fs: Fs, owner: Owners, dirs: Dirs, d: seq<Byte>, fs': Fs, d': seq<Byte>, x: int)
    requires Image(fs, owner, dirs) && DirsHold(d, fs.blockUsed, dirs)
    requires SameDirectories(fs, fs') && DirBytesKept(d, d', dirs)
    requires LiveFile(fs', x) && fs'.inodes[x - 1].links != NameCount(dirs, x, |fs.blockUsed|)
    ensures !WellFormed(fs', d')
  {
    if WellFormed(fs', d') {
      var owner': Owners, dirs': Dirs :| Image(fs', owner', dirs') && DirsHold(d', fs'.blockUsed, dirs');
      SameReading(fs, owner, dirs, d, fs', owner', dirs', d');
      CountIsRight(fs', owner', dirs', x);
      assert false;
    }
  }

  /** A file that has got a link without a name. */
  lemma ExtraLinkIsIll(fs: Fs, owner: Owners, dirs: Dirs, d: seq<Byte>, fs': Fs, d': seq<Byte>, x: int)
    requires Image(fs, owner, dirs) && DirsHold(d, fs.blockUsed, dirs)
    requires SameDirectories(fs, fs') && DirBytesKept(d, d', dirs)
    requires LiveFile(fs, x) && LiveFile(fs', x) && fs'.inodes[x - 1].links == fs.inodes[x - 1].links + 1
    ensures !WellFormed(fs', d')
  {
    CountIsRight(fs, owner, dirs, x);
    WrongCountIsIll(fs, owner, dirs, d, fs', d', x);
  }

  /** An inode that has been taken, with a link, and has no name. */
  lemma LeakIsIll(fs: Fs, owner: Owners, dirs: Dirs, d: seq<Byte>, fs': Fs, d': seq<Byte>, x: int)
    requires Image(fs, owner, dirs) && DirsHold(d, fs.blockUsed, dirs)
    requires SameDirectories(fs, fs') && DirBytesKept(d, d', dirs)
    requires !fs.InUse(x) && LiveFile(fs', x) && fs'.inodes[x - 1].links > 0
    ensures !WellFormed(fs', d')
  {
    FreeIsNameless(fs, dirs, x, |fs.blockUsed|);
    WrongCountIsIll(fs, owner, dirs, d, fs', d', x);
  }

  lemma SlotHolds(fs: Fs, owner: Owners, dirs: Dirs, d: seq<Byte>, a: int, j: nat)
    requires Image(fs, owner, dirs) && DirsHold(d, fs.blockUsed, dirs)
    requires LiveDirectory(fs, a) && j < INDIRECT1_INDEX && Slots(fs, a)[j] >= 1
    ensures Slots(fs, a)[j] in dirs && IsDirBlock(d, BlockStart(Slots(fs, a)[j]), dirs[Slots(fs, a)[j]])
  {
    var n := Slots(fs, a)[j];
    assert InSlot(fs, n, a, j);
    DirBlockIs(fs, owner, dirs, n);
    assert DirHolds(d, fs.blockUsed, dirs, n);
  }

  /** The block of a directory whose bytes are no chain of entries. */
  lemma BrokenIsIll(fs: Fs, d: seq<Byte>, a: int, j: nat)
    requires LiveDirectory(fs, a) && j < INDIRECT1_INDEX && Slots(fs, a)[j] >= 1
    requires forall es :: !IsDirBlock(d, BlockStart(Slots(fs, a)[j]), es)
    ensures !WellFormed(fs, d)
  {
    if WellFormed(fs, d) {
      var owner: Owners, dirs: Dirs :| Image(fs, owner, dirs) && DirsHold(d, fs.blockUsed, dirs);
      SlotHolds(fs, owner, dirs, d, a, j);
      assert false;
    }
  }
}
