/** What putting an entry into an inode does to an image, from its bytes (make_entry_in_inode in a3/ext2_helper.h).

    The function does not ask whether the inode is a directory, and not whether a record is shorter than it
    takes records to be.  There are three cases.  In a directory without a short record in the way the
    directory blocks hold one entry more.  Where a short record is in the way, a block of the directory no
    longer holds a chain of entries.  In a file, nothing that directories hold changes.
 */
module Placements {
  import opened Dirents
  import opened DirBlocks
  import opened RawBlocks
  import opened ShortRecords
  import opened FileSystems
  import opened Disks
  import opened Links
  import opened LinkCounts
  import opened Trees
  import opened Readings

  /** make_entry_in_inode can be called on inode a. */
  ghost predicate Placeable(fs: Fs, dirs: Dirs, a: nat, name: Name) {
    && Shaped(fs) && 1 <= a <= |fs.inodes| && IsDirInode(fs, dirs, a) && DirsInRange(dirs, |fs.blockUsed|)
    && (!HasRoomFor(fs, dirs, a, name) ==> NextBlock(fs) <= |fs.blockUsed|)
  }

  /** make_entry_in_inode does not run out of blocks. */
  ghost predicate HasSpace(fs: Fs, dirs: Dirs, a: nat, name: Name)
    requires Shaped(fs) && 1 <= a <= |fs.inodes|
  {
    HasRoomFor(fs, dirs, a, name) || fs.freeBlocks.super > 0
  }

  /** The entry does not go beyond block n. */
  predicate EndsIn(d: seq<Byte>, n: int, name: Name) {
    var o := Stop(d, BlockStart(n), BlockStart(n) + BLOCK_SIZE, TotalEntryLength(|name|));
    o == -1 || (IsHeader(d, o) && o + MinLenAt(d, o) + HEADER + |name| <= BlockStart(n + 1))
  }

  /** If the entry goes beyond the block in which there seems to be room, it does not get into a directory block. */
  ghost predicate StaysOff(s: seq<int>, d: seq<Byte>, dirs: Dirs, name: Name) {
    var j := FirstRoom(s, d, name, 0);
    j < |s| ==> EndsIn(d, s[j], name) || s[j] + 1 !in dirs
  }

  // ---------------------------------------------------------------- in a directory

  lemma FreeIsNoDir(fs: Fs, dirs: Dirs, d: seq<Byte>)
    requires Shaped(fs) && DirsHold(d, fs.blockUsed, dirs) && NextBlock(fs) <= |fs.blockUsed|
    ensures NextBlock(fs) !in dirs
  {
    assert DirHolds(d, fs.blockUsed, dirs, NextBlock(fs));
  }

  /** A new block with an entry, and all others as they were. */
  lemma GrownHolds(fs: Fs, dirs: Dirs, d: seq<Byte>, d': seq<Byte>, a: nat, i: nat, e: Dirent)
    requires Shaped(fs) && 1 <= a <= |fs.inodes| && DirsHold(d, fs.blockUsed, dirs) && NextBlock(fs) <= |fs.blockUsed|
    requires IsNewBlock(d, d', NextBlock(fs), e)
    ensures DirsHold(d', Attached(fs, a, i).blockUsed, dirs[NextBlock(fs) := [e]])
  {
    var n, used, used' := NextBlock(fs), fs.blockUsed, Attached(fs, a, i).blockUsed;
    forall m: int ensures DirHolds(d, used', dirs, m) {
      assert DirHolds(d, used, dirs, m);
    }
    DirsUpdated(d, d', used', dirs, n, [e]);
  }

  /** Without a short record in the way: what the step on directories says, and the blocks hold it. */
  lemma {:induction false} PutOrderly(fs: Fs, dirs: Dirs, d: seq<Byte>, a: nat, child: int, name: Name, fileType: Byte,
                                      made: bool, fs': Fs, d': seq<Byte>)
    requires OrderlyIn(fs, dirs, a, name) && DirsHold(d, fs.blockUsed, dirs) && DirsInRange(dirs, |fs.blockUsed|)
    requires EntryPut(fs, d, a, child, name, fileType, made, fs', d')
    ensures made == HasSpace(fs, dirs, a, name) && (!made ==> (fs', d') == (fs, d))
    ensures made ==>
              && Placeable(fs, dirs, a, name) && fs' == EntryMade(fs, dirs, a, child, name, fileType).0
              && DirsHold(d', fs'.blockUsed, EntryMade(fs, dirs, a, child, name, fileType).1)
  {
    RoomIsRoomy(Slots(fs, a), d, fs.blockUsed, dirs, name);
    if FirstRoom(Slots(fs, a), d, name, 0) < INDIRECT1_INDEX {
      PlacedHolds(fs, dirs, d, d', a, child, name, fileType);
    } else if made {
      GrownHolds(fs, dirs, d, d', a, EmptySlot(Slots(fs, a), 0), Dirent(child, BLOCK_SIZE, name, fileType));
    }
  }

  /** With one in the way, the search stops in the first block that has one before it comes to room. */
  lemma {:induction false} FirstShort(s: seq<int>, d: seq<Byte>, used: seq<bool>, dirs: Dirs, name: Name)
    returns (j: nat)
    requires DirsHold(d, used, dirs) && InDirs(s, dirs) && !Clean(s, dirs, TotalEntryLength(|name|)) && 0 !in dirs
    ensures j == FirstRoom(s, d, name, 0) < |s| && s[j] in dirs && Clobbers(dirs[s[j]], TotalEntryLength(|name|))
  {
    var needed := TotalEntryLength(|name|);
    j := FirstRoom(s, d, name, 0);
    var i :| 0 <= i < RoomySlot(s, dirs, needed, 0) && s[i] in dirs && Clobbers(dirs[s[i]], needed);
    assert DirHolds(d, used, dirs, s[i]);
    RoomInDir(d, used, dirs, s[i], name);
    assert j <= i;
    assert DirHolds(d, used, dirs, s[j]);
    RoomInDir(d, used, dirs, s[j], name);
  }

  /** Then that block no longer holds a chain. */
  lemma {:induction false} PutClobbers(fs: Fs, dirs: Dirs, d: seq<Byte>, a: nat, child: int, name: Name, fileType: Byte,
                                       made: bool, fs': Fs, d': seq<Byte>) returns (j: nat)
    requires LiveDirectory(fs, a) && IsDirInode(fs, dirs, a) && DirsHold(d, fs.blockUsed, dirs) && 0 !in dirs
    requires !Clean(Slots(fs, a), dirs, TotalEntryLength(|name|))
    requires EntryPut(fs, d, a, child, name, fileType, made, fs', d')
    ensures made && fs' == fs
    ensures j < INDIRECT1_INDEX && Slots(fs, a)[j] >= 1
    ensures forall es :: !IsDirBlock(d', BlockStart(Slots(fs, a)[j]), es)
  {
    j := FirstShort(Slots(fs, a), d, fs.blockUsed, dirs, name);
    var n := Slots(fs, a)[j];
    assert DirHolds(d, fs.blockUsed, dirs, n);
    RawIsMade(d, BlockStart(n), dirs[n], child, name, fileType);
    forall es ensures !IsDirBlock(d', BlockStart(n), es) {
      ClobberedIsNoBlock(d, BlockStart(n), dirs[n], child, name, fileType, es);
    }
  }

  /** The block of a directory can be searched, unless it is the last one and a short record is in the way. */
  lemma {:induction false} DirBlockSearchable(d: seq<Byte>, used: seq<bool>, dirs: Dirs, n: int, name: Name)
    requires DirHolds(d, used, dirs, n) && n in dirs && |name| <= NAME_LEN
    requires !Clobbers(dirs[n], TotalEntryLength(|name|)) || BlockStart(n + 2) <= |d|
    ensures BlockSearchable(d, n, name)
  {
    var es, needed, start := dirs[n], TotalEntryLength(|name|), BlockStart(n);
    StopOnChain(d, start, es, needed, 0);
    assert Offset(es, start, 0) == start;
    if Clobbers(es, needed) {
      HeaderOf(d, start, es, FirstFit(es, needed));
      FitBounds(d, start, es, FirstFit(es, needed), needed);
    } else {
      MakesInMemory(d, start, es, name);
    }
  }

  /** So a directory can be searched. */
  lemma {:induction false} DirectorySearchable(fs: Fs, dirs: Dirs, d: seq<Byte>, a: nat, name: Name)
    requires IsDirInode(fs, dirs, a) && DirsHold(d, fs.blockUsed, dirs) && 0 !in dirs && |name| <= NAME_LEN
    requires Clean(Slots(fs, a), dirs, TotalEntryLength(|name|)) || forall n :: n in dirs ==> BlockStart(n + 2) <= |d|
    ensures Searchable(Slots(fs, a), d, name)
  {
    var s, needed := Slots(fs, a), TotalEntryLength(|name|);
    if Clean(s, dirs, needed) {
      RoomIsRoomy(s, d, fs.blockUsed, dirs, name);
    }
    forall j | 0 <= j < |s| && j <= FirstRoom(s, d, name, 0) && s[j] != 0 ensures BlockSearchable(d, s[j], name) {
      assert DirHolds(d, fs.blockUsed, dirs, s[j]);
      if Clean(s, dirs, needed) && j < RoomySlot(s, dirs, needed, 0) {
        CleanAt(s, dirs, needed, j);
      }
      DirBlockSearchable(d, fs.blockUsed, dirs, s[j], name);
    }
  }

  // ---------------------------------------------------------------- in a file

  lemma RawStaysOff(d: seq<Byte>, dirs: Dirs, n: int, child: int, name: Name, fileType: Byte)
    requires 1 <= n && n !in dirs && InMemory(d, BlockStart(n), name) && 0 <= child < 0x1_0000_0000
             && |name| <= NAME_LEN
    requires EndsIn(d, n, name) || n + 1 !in dirs
    ensures DirBytesKept(d, RawMade(d, BlockStart(n), child, name, fileType), dirs)
  {
    var d' := RawMade(d, BlockStart(n), child, name, fileType);
    RawKept(d, BlockStart(n), child, name, fileType);
    forall m: int | m in dirs ensures SameBlock(d, d', m) {
      assert m < n || m == n + 1 || m > n + 1;
    }
  }

  lemma NewBlockOff(d: seq<Byte>, d': seq<Byte>, dirs: Dirs, n: int)
    requires 0 <= n && n !in dirs && OnlyBlock(d, d', BlockStart(n))
    ensures DirBytesKept(d, d', dirs)
  {
    forall m: int | m in dirs ensures SameBlock(d, d', m) {
      assert m < n || m > n;
    }
  }

  lemma FileAttachedSame(fs: Fs, a: nat, i: nat)
    requires Shaped(fs) && 1 <= a <= |fs.inodes| && !IsDirectory(fs, a) && NextBlock(fs) <= |fs.blockUsed|
    ensures SameDirectories(fs, Attached(fs, a, i))
  {
    var fs' := Attached(fs, a, i);
    forall b: int ensures LiveDirectory(fs', b) == LiveDirectory(fs, b)
        && (LiveDirectory(fs, b) ==> Slots(fs', b) == Slots(fs, b)) {
      if 1 <= b <= |fs.inodes| && b != a {
        assert fs'.inodes[b - 1] == fs.inodes[b - 1];
      }
    }
  }

  /** In a file the entry is no name of a directory. */
  lemma {:induction false} PutInFile(fs: Fs, owner: Owners, dirs: Dirs, d: seq<Byte>, a: nat, child: int, name: Name,
                                     fileType: Byte, made: bool, fs': Fs, d': seq<Byte>)
    requires Consistent(fs, owner) && DirBlocksOk(fs, owner, dirs) && DirsInRange(dirs, |fs.blockUsed|)
    requires LiveFile(fs, a) && DirsHold(d, fs.blockUsed, dirs)
    requires Searchable(Slots(fs, a), d, name) && StaysOff(Slots(fs, a), d, dirs, name)
    requires EntryPut(fs, d, a, child, name, fileType, made, fs', d')
    ensures SameDirectories(fs, fs') && DirBytesKept(d, d', dirs) && |fs'.inodes| == |fs.inodes|
    ensures fs'.inodeUsed == fs.inodeUsed && forall b {:trigger fs'.inodes[b]} :: 0 <= b < |fs.inodes| ==>
              fs'.inodes[b].isDir == fs.inodes[b].isDir && fs'.inodes[b].links == fs.inodes[b].links
  {
    FileBlocks(fs, owner, dirs, a);
    var s := Slots(fs, a);
    var j := FirstRoom(s, d, name, 0);
    if j < INDIRECT1_INDEX {
      RawStaysOff(d, dirs, s[j], child, name, fileType);
    } else if made {
      FreeIsNoDir(fs, dirs, d);
      NewBlockOff(d, d', dirs, NextBlock(fs));
      FileAttachedSame(fs, a, EmptySlot(s, 0));
    }
  }

  // ---------------------------------------------------------------- on other bytes

  /** The search goes the same way while the blocks of the inode keep their bytes. */
  lemma SearchDepends(s: seq<int>, d: seq<Byte>, d': seq<Byte>, dirs: Dirs, name: Name)
    requires Searchable(s, d, name) && |d'| == |d|
    requires forall j {:trigger s[j]} :: 0 <= j < |s| && s[j] != 0 ==> SameBlock(d, d', s[j])
    ensures Searchable(s, d', name) && FirstRoom(s, d', name, 0) == FirstRoom(s, d, name, 0)
    ensures StaysOff(s, d, dirs, name) ==> StaysOff(s, d', dirs, name)
  {
    forall j | 0 <= j < |s| && j <= FirstRoom(s, d, name, 0) && s[j] != 0
      ensures BlockSearchable(d', s[j], name) && RoomIn(d', s[j], name) == RoomIn(d, s[j], name)
      ensures EndsIn(d, s[j], name) ==> EndsIn(d', s[j], name)
    {
      BlockDepends(d, d', s[j], name);
    }
    FirstRoomIs(s, d', name, FirstRoom(s, d, name, 0));
  }

  lemma BlockDepends(d: seq<Byte>, d': seq<Byte>, n: int, name: Name)
    requires BlockSearchable(d, n, name) && SameBlock(d, d', n)
    ensures BlockSearchable(d', n, name) && RoomIn(d', n, name) == RoomIn(d, n, name)
    ensures EndsIn(d, n, name) ==> EndsIn(d', n, name)
  {
    var start, needed := BlockStart(n), TotalEntryLength(|name|);
    StopDepends(d, d', start, start + BLOCK_SIZE, needed);
    StopInside(d, start, start + BLOCK_SIZE, needed);
  }
}
