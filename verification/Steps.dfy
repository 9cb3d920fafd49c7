/** No command gets stuck: from every well-formed image there is a step of each command that fits. */
module Steps {
  import opened Dirents
  import opened DirBlocks
  import opened DirMaps
  import opened RawBlocks
  import opened FileSystems
  import opened Disks
  import opened Links
  import opened LinkCounts
  import opened Trees
  import opened Readings
  import opened Placements
  import opened Commands
  import opened Runs

  /** The bytes are those of all the blocks, and inode numbers have 4 bytes. */
  predicate Whole(fs: Fs, d: seq<Byte>) {
    |d| == BlockStart(|fs.blockUsed| + 1) && |fs.inodes| < 0x1_0000_0000
  }

  // ---------------------------------------------------------------- bytes

  /** A new block with one entry. */
  lemma NewBlockExists(d: seq<Byte>, n: nat, e: Dirent) returns (d': seq<Byte>)
    requires Encodable(e) && e.recLen == BLOCK_SIZE && BlockStart(n + 1) <= |d|
    ensures |d'| == |d| && IsNewBlock(d, d', n, e)
  {
    d' := PutEntry(d, BlockStart(n), e);
    HoldsOne(d', BlockStart(n), BlockStart(n) + BLOCK_SIZE, e);
  }

  lemma TextExists(d: seq<Byte>, n: nat, text: Name) returns (d': seq<Byte>)
    requires |text| < BLOCK_SIZE && BlockStart(n + 1) <= |d|
    ensures |d'| == |d| && TextWritten(d, d', n, text)
  {
    d' := d[..BlockStart(n)] + text + [0] + d[BlockStart(n) + |text| + 1..];
  }

  /** A block without entry k. */
  lemma DeletedExists(d: seq<Byte>, start: nat, es: seq<Dirent>, k: nat) returns (d': seq<Byte>)
    requires IsDirBlock(d, start, es) && k < |es|
    ensures |d'| == |d| && IsDirBlock(d', start, Deleted(es, k)) && OnlyBlock(d, d', start)
  {
    if k == 0 {
      EntryBounds(d, start, start + BLOCK_SIZE, es, 0);
      UnnamedBytes(d, start, es);
      d' := d[start + 6 := 0];
    } else {
      MergedBytes(d, start, es, k);
      d' := PutRecLen(d, Offset(es, start, k - 1), es[k - 1].recLen + es[k].recLen);
    }
  }

  // ---------------------------------------------------------------- ln

  /** An entry can be put into any inode that can be searched, unless all blocks are used. */
  lemma PutExists(fs: Fs, d: seq<Byte>, a: nat, child: nat, name: Name, fileType: Byte)
      returns (made: bool, fs': Fs, d': seq<Byte>)
    requires Shaped(fs) && 1 <= a <= |fs.inodes| && child < 0x1_0000_0000 && |name| <= NAME_LEN
    requires Searchable(Slots(fs, a), d, name) && Whole(fs, d)
    requires fs.freeBlocks.super > 0 ==> NextBlock(fs) <= |fs.blockUsed|
    ensures EntryPut(fs, d, a, child, name, fileType, made, fs', d') && Shaped(fs') && |fs'.inodes| == |fs.inodes|
    ensures !made ==> (fs', d') == (fs, d)
  {
    var s, j := Slots(fs, a), FirstRoom(Slots(fs, a), d, name, 0);
    made, fs', d' := true, fs, d;
    if j < INDIRECT1_INDEX {
      SearchableAt(s, d, name, j);
      d' := RawMade(d, BlockStart(s[j]), child, name, fileType);
    } else if fs.freeBlocks.super <= 0 {
      made := false;
    } else {
      fs' := Attached(fs, a, EmptySlot(s, 0));
      d' := NewBlockExists(d, NextBlock(fs), Dirent(child, BLOCK_SIZE, name, fileType));
    }
  }

  lemma LinkPlacedExists(fs: Fs, d: seq<Byte>, a: nat, x: nat, name: Name)
      returns (status: Status, fs': Fs, d': seq<Byte>)
    requires Shaped(fs) && 1 <= a <= |fs.inodes| && 1 <= x <= |fs.inodes| && |name| <= NAME_LEN
    requires Searchable(Slots(fs, a), d, name) && Whole(fs, d)
    requires fs.freeBlocks.super > 0 ==> NextBlock(fs) <= |fs.blockUsed|
    ensures LinkPlaced(fs, d, a, x, name, status, fs', d')
  {
    var made, fs1;
    made, fs1, d' := PutExists(fs, d, a, x, name, EXT2_FT_REG_FILE);
    status, fs' := NoBlock, fs;
    if made {
      status, fs' := Success, Relinked(fs1, x, fs1.inodes[x - 1].links + 1);
      assert LinkAdded(fs, d, a, x, name, fs1, fs', d');
    }
  }

  lemma LinkStepExists(fs: Fs, owner: Owners, dirs: Dirs, d: seq<Byte>, source: Path, dest: Path)
      returns (status: Status, fs': Fs, d': seq<Byte>)
    requires Image(fs, owner, dirs) && Fits(fs, d, dirs, Link(source, dest)) && Whole(fs, d)
    ensures LinkStep(fs, d, dirs, source, dest, status, fs', d')
  {
    status, fs', d' := LinkCheck(fs, dirs, source, dest), fs, d;
    if status == Success {
      var p, x := NewPath(fs, owner, dirs, source, dest);
      if fs.freeBlocks.super > 0 {
        BlockAvailable(fs, owner);
      }
      status, fs', d' := LinkPlacedExists(fs, d, p.inode, x, Last(dest));
    }
  }

  /** A destination in a directory without a short record in the way: ln fails exactly when it needs a block and
      there is none. */
  lemma {:induction false} LinkInDirectoryExists(fs: Fs, owner: Owners, dirs: Dirs, d: seq<Byte>, source: Path,
                                                 dest: Path, a: int) returns (status: Status, fs': Fs, d': seq<Byte>)
    requires Image(fs, owner, dirs) && DirsHold(d, fs.blockUsed, dirs) && Whole(fs, d) && IsPath(source) && IsPath(dest)
    requires LinkCheck(fs, dirs, source, dest) == Success
             && Resolve(fs, dirs, dest[..|dest| - 1]) == Some(Target(a, EXT2_FT_DIR))
             && InOrder(fs, dirs, a, Last(dest))
    ensures LinkStep(fs, d, dirs, source, dest, status, fs', d')
    ensures status == Success <==> HasSpace(fs, dirs, a, Last(dest))
    ensures WellFormed(fs', d') <==>
            (fs.freeBlocks.super > 0 ==> Fitting(fs, dirs, a, Last(dest), fs.freeBlocks.super))
  {
    var p, x := NewPath(fs, owner, dirs, source, dest);
    DirectoryBlocks(fs, owner, dirs, a);
    FitsInDirectory(fs, owner, dirs, d, Link(source, dest), a);
    status, fs', d' := LinkStepExists(fs, owner, dirs, d, source, dest);
    LinkStatus(fs, dirs, d, a, x, Last(dest), status, fs', d');
    var dirs' := LinkKeeps(fs, owner, dirs, d, source, dest, status, fs', d');
  }

  lemma {:induction false} LinkStatus(fs: Fs, dirs: Dirs, d: seq<Byte>, a: nat, x: nat, name: Name, status: Status,
                                      fs': Fs, d': seq<Byte>)
    requires OrderlyIn(fs, dirs, a, name) && DirsHold(d, fs.blockUsed, dirs) && DirsInRange(dirs, |fs.blockUsed|)
    requires LinkPlaced(fs, d, a, x, name, status, fs', d')
    ensures status == Success <==> HasSpace(fs, dirs, a, name)
  {
    if status == Success {
      var fs1 :| LinkAdded(fs, d, a, x, name, fs1, fs', d');
      PutOrderly(fs, dirs, d, a, x, name, EXT2_FT_REG_FILE, true, fs1, d');
    } else {
      PutOrderly(fs, dirs, d, a, x, name, EXT2_FT_REG_FILE, false, fs, d);
    }
  }

  /** A destination below a file: ln fails exactly when nothing can be put into the file, and only then leaves a
      well-formed image. */
  lemma {:induction false} LinkBelowFileExists(fs: Fs, owner: Owners, dirs: Dirs, d: seq<Byte>, source: Path,
                                               dest: Path, a: int) returns (status: Status, fs': Fs, d': seq<Byte>)
    requires Image(fs, owner, dirs) && DirsHold(d, fs.blockUsed, dirs) && Whole(fs, d)
    requires IsPath(source) && IsPath(dest) && BelowFile(fs, dirs, dest) && DestinationOk(fs, d, dirs, dest)
             && Resolve(fs, dirs, dest[..|dest| - 1]).value.inode == a
    requires Resolve(fs, dirs, source).Some? && Resolve(fs, dirs, source).value.fileType != EXT2_FT_DIR
    ensures LinkStep(fs, d, dirs, source, dest, status, fs', d')
    ensures status == Success <==> !NothingPut(fs, d, a, Last(dest))
    ensures WellFormed(fs', d') <==> NothingPut(fs, d, a, Last(dest))
  {
    status, fs', d' := LinkStepExists(fs, owner, dirs, d, source, dest);
    LinkBelowFile(fs, owner, dirs, d, source, dest, status, fs', d');
  }

  // ---------------------------------------------------------------- ln -s

  lemma SymlinkEndExists(fs: Fs, owner: Owners, dirs: Dirs, d: seq<Byte>, a: nat, name: Name, text: Name)
      returns (status: Status, fs': Fs, d': seq<Byte>)
    requires Image(fs, owner, dirs) && fs.InUse(a) && a <= |fs.inodes| && |name| <= NAME_LEN && |text| < BLOCK_SIZE
    requires fs.freeInodes.super > 0 && fs.freeBlocks.super > 0 && Searchable(Slots(fs, a), d, name) && Whole(fs, d)
    ensures NextInode(fs) <= |fs.inodes| && NextBlock(SymlinkTaken(fs)) <= |fs.blockUsed|
    ensures SymlinkEnd(SymlinkFilled(fs), d, NextBlock(SymlinkTaken(fs)), a, NextInode(fs), name, text, status, fs', d')
  {
    SymlinkFilledImage(fs, owner, dirs, ROOT);
    FileTakenImage(fs, owner, dirs, 1);
    SymlinkFilledSlots(fs, a);
    var x, n, fs2, owner2 := NextInode(fs), NextBlock(SymlinkTaken(fs)), SymlinkFilled(fs),
                             owner[NextBlock(SymlinkTaken(fs)) := (NextInode(fs), 0)];
    if fs2.freeBlocks.super > 0 {
      BlockAvailable(fs2, owner2);
    }
    FreeIsUnowned(fs, owner);
    var d1 := TextExists(d, n, text);
    TextElsewhere(fs, owner, dirs, d, d1, a, name, n);
    var made;
    made, fs', d' := PutExists(fs2, d1, a, x, name, EXT2_FT_SYMLINK);
    status := if made then Success else NoBlock;
    assert SymlinkNamed(fs2, d1, a, x, name, status, fs', d');
  }

  lemma SymlinkWorkExists(fs: Fs, owner: Owners, dirs: Dirs, d: seq<Byte>, a: nat, name: Name, text: Name)
      returns (status: Status, fs': Fs, d': seq<Byte>)
    requires Image(fs, owner, dirs) && fs.InUse(a) && a <= |fs.inodes| && |name| <= NAME_LEN
    requires Searchable(Slots(fs, a), d, name) && Whole(fs, d)
    ensures SymlinkWork(fs, d, a, name, text, status, fs', d')
  {
    if fs.freeInodes.super == 0 {
      status, fs', d' := NoInode, fs, d;
    } else {
      FileTakenImage(fs, owner, dirs, 1);
      status, fs', d' := if |text| >= BLOCK_SIZE then NameTooLong else NoBlock, SymlinkTaken(fs), d;
      if |text| < BLOCK_SIZE && fs.freeBlocks.super > 0 {
        status, fs', d' := SymlinkEndExists(fs, owner, dirs, d, a, name, text);
      }
    }
  }

  lemma SymlinkStepExists(fs: Fs, owner: Owners, dirs: Dirs, d: seq<Byte>, source: Path, dest: Path, text: Name)
      returns (status: Status, fs': Fs, d': seq<Byte>)
    requires Image(fs, owner, dirs) && Fits(fs, d, dirs, Symlink(source, dest, text)) && Whole(fs, d)
    ensures SymlinkStep(fs, d, dirs, source, dest, text, status, fs', d')
  {
    status, fs', d' := LinkCheck(fs, dirs, source, dest), fs, d;
    if status == Success {
      var p, x := NewPath(fs, owner, dirs, source, dest);
      status, fs', d' := SymlinkWorkExists(fs, owner, dirs, d, p.inode, Last(dest), text);
    }
  }

  // ---------------------------------------------------------------- rm

  lemma EntryDeletedExists(fs: Fs, dirs: Dirs, d: seq<Byte>, a: nat, name: Name) returns (d': seq<Byte>)
    requires Shaped(fs) && 1 <= a <= |fs.inodes| && DirsInRange(dirs, |fs.blockUsed|) && DirsHold(d, fs.blockUsed, dirs)
    ensures var (fs', dirs') := EntryDeleted(fs, dirs, a, name);
            |d'| == |d| && DirsHold(d', fs'.blockUsed, dirs') && DirsInRange(dirs', |fs'.blockUsed|)
  {
    d' := d;
    var i := NamedSlot(Slots(fs, a), dirs, name, 0);
    if i < INDIRECT1_INDEX {
      var n := Slots(fs, a)[i];
      var k := FirstNamed(dirs[n], name);
      assert DirHolds(d, fs.blockUsed, dirs, n);
      d' := DeletedExists(d, BlockStart(n), dirs[n], k);
      var es := Deleted(dirs[n], k);
      DirsUpdated(d, d', fs.blockUsed, dirs, n, es);
      if IsEmpty(es) {
        DirsWithout(d', fs.blockUsed, dirs[n := es], n, Detached(fs, a, i).blockUsed);
        assert dirs[n := es] - {n} == dirs - {n};
      }
    }
  }

  /** Without a block, its bit no longer matters. */
  lemma DirsWithout(d: seq<Byte>, used: seq<bool>, dirs: Dirs, n: int, used': seq<bool>)
    requires DirsHold(d, used, dirs) && 1 <= n <= |used| && used' == used[n - 1 := false]
    ensures DirsHold(d, used', dirs - {n})
  {
    forall m: int ensures DirHolds(d, used', dirs - {n}, m) {
      assert DirHolds(d, used, dirs, m);
    }
  }

  lemma {:induction false} SlotsFreedUsed(fs: Fs, a: nat, i: nat, n: int)
    requires Shaped(fs) && 1 <= a <= |fs.inodes| && i <= INDIRECT1_INDEX && SlotsInRange(fs, a)
    requires 1 <= n <= |fs.blockUsed| && fs.blockUsed[n - 1] && forall j :: 0 <= j < i ==> Slots(fs, a)[j] != n
    ensures SlotsFreed(fs, a, i).blockUsed[n - 1]
    decreases i
  {
    if i > 0 {
      SlotsFreedUsed(SlotFreed(fs, a, i - 1), a, i - 1, n);
    }
  }

  lemma {:induction false} InodeFreedUsed(fs: Fs, x: nat, n: int)
    requires Shaped(fs) && 1 <= x <= |fs.inodes| && SlotsInRange(fs, x)
    requires 1 <= n <= |fs.blockUsed| && fs.blockUsed[n - 1]
             && forall j :: 0 <= j < INDIRECT1_INDEX ==> Slots(fs, x)[j] != n
    ensures n <= |InodeFreed(fs, x).blockUsed| && InodeFreed(fs, x).blockUsed[n - 1]
  {
    SlotsFreedUsed(InodeMarked(fs, x, false), x, |Slots(fs, x)|, n);
  }

  lemma {:induction false} UnlinkedUsed(fs: Fs, x: nat, n: int)
    requires Shaped(fs) && 1 <= x <= |fs.inodes| && SlotsInRange(fs, x)
    requires 1 <= n <= |fs.blockUsed| && fs.blockUsed[n - 1]
             && forall j :: 0 <= j < INDIRECT1_INDEX ==> Slots(fs, x)[j] != n
    ensures n <= |Unlinked(fs, x).blockUsed| && Unlinked(fs, x).blockUsed[n - 1]
  {
    var fs2 := Relinked(fs, x, fs.inodes[x - 1].links - 1);
    assert Slots(fs2, x) == Slots(fs, x);
    UnlinkedIs(fs, x, fs2);
    if fs2.inodes[x - 1].links <= 0 {
      InodeFreedUsed(fs2, x, n);
    }
  }

  /** Freeing the blocks of a file leaves those of directories used. */
  lemma {:induction false} UnlinkedHolds(fs: Fs, dirs: Dirs, d: seq<Byte>, x: nat)
    requires Shaped(fs) && 1 <= x <= |fs.inodes| && SlotsInRange(fs, x) && DirsHold(d, fs.blockUsed, dirs)
    requires NotDirs(Slots(fs, x), INDIRECT1_INDEX, dirs)
    ensures DirsHold(d, Unlinked(fs, x).blockUsed, dirs)
  {
    forall n: int ensures DirHolds(d, Unlinked(fs, x).blockUsed, dirs, n) {
      assert DirHolds(d, fs.blockUsed, dirs, n);
      if n in dirs {
        UnlinkedUsed(fs, x, n);
      }
    }
  }

  /** What deleting a name leaves of the blocks of another inode. */
  lemma StillNotDirs(fs: Fs, dirs: Dirs, a: nat, x: nat, name: Name)
    requires Shaped(fs) && 1 <= a <= |fs.inodes| && DirsInRange(dirs, |fs.blockUsed|) && 1 <= x <= |fs.inodes|
    requires NotDirs(Slots(fs, x), INDIRECT1_INDEX, dirs)
    ensures NotDirs(Slots(fs, x), INDIRECT1_INDEX, EntryDeleted(fs, dirs, a, name).1)
  {
  }

  lemma RemoveStepExists(fs: Fs, owner: Owners, dirs: Dirs, d: seq<Byte>, path: Path)
      returns (status: Status, fs': Fs, d': seq<Byte>, dirs': Dirs)
    requires Image(fs, owner, dirs) && DirsHold(d, fs.blockUsed, dirs) && IsPath(path)
    ensures RemoveTree(fs, dirs, path, status, fs', dirs') && RemoveStep(fs, d, dirs, path, status, fs', d')
  {
    status, fs', d', dirs' := RemoveCheck(fs, dirs, path), fs, d, dirs;
    if status == Success {
      ResolveLive(fs, owner, dirs, path);
      var a, x := Parent(fs, dirs, path).value, Resolve(fs, dirs, path).value.inode;
      SlotsAreInRange(fs, owner, x);
      FileBlocks(fs, owner, dirs, x);
      RemovedIs(fs, dirs, a, x, Last(path));
      StillNotDirs(fs, dirs, a, x, Last(path));
      d' := EntryDeletedExists(fs, dirs, d, a, Last(path));
      var (fs1, dirs1) := EntryDeleted(fs, dirs, a, Last(path));
      UnlinkedHolds(fs1, dirs1, d', x);
      fs', dirs' := Unlinked(fs1, x), dirs1;
    }
  }

  /** So StepKeeps speaks of something for every command. */
  lemma StepExists(fs: Fs, d: seq<Byte>, dirs: Dirs, c: Command) returns (status: Status, fs': Fs, d': seq<Byte>)
    requires Shaped(fs) && Reading(fs, d, dirs) && Fits(fs, d, dirs, c) && Whole(fs, d)
    ensures Step(fs, d, dirs, c, status, fs', d')
  {
    var owner :| Image(fs, owner, dirs);
    match c
    case Link(source, dest) => status, fs', d' := LinkStepExists(fs, owner, dirs, d, source, dest);
    case Symlink(source, dest, text) =>
      status, fs', d' := SymlinkStepExists(fs, owner, dirs, d, source, dest, text);
    case Remove(path) =>
      var dirs';
      status, fs', d', dirs' := RemoveStepExists(fs, owner, dirs, d, path);
  }
}
