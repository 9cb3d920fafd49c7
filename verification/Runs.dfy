/** What the commands ln, ln -s and rm keep: an image stays one exactly when the command is harmless,
    and then the tree of names has changed in the one place that the command names. */
module Runs {
  import opened Dirents
  import opened DirBlocks
  import opened DirMaps
  import opened FileSystems
  import opened Disks
  import opened Images
  import opened Links
  import opened LinkCounts
  import opened Trees
  import opened Readings
  import opened Placements
  import opened Commands

  // ---------------------------------------------------------------- parts of the invariant

  lemma FilesKept(fs: Fs, fs': Fs, a: int)
    requires SameInodes(fs, fs', a) && IsDirectory(fs, a) && FilesOk(fs)
    ensures FilesOk(fs')
  {
    forall x | LiveFile(fs', x) ensures OwnsUnreserved(fs', x) {
      DirectorySame(fs, fs', a, x);
      assert fs'.inodes[x - 1].block == fs.inodes[x - 1].block && LiveFile(fs, x);
    }
  }

  lemma EntryMadeSame(fs: Fs, dirs: Dirs, a: nat, x: int, name: Name, fileType: Byte)
    requires Placeable(fs, dirs, a, name)
    ensures SameInodes(fs, EntryMade(fs, dirs, a, x, name, fileType).0, a)
  {
    if !HasRoomFor(fs, dirs, a, name) && CanGrow(fs, a) {
      AttachedSame(fs, a, EmptySlot(Slots(fs, a), 0));
    }
  }

  lemma EntryDeletedSame(fs: Fs, dirs: Dirs, a: nat, name: Name)
    requires Shaped(fs) && 1 <= a <= |fs.inodes| && DirsInRange(dirs, |fs.blockUsed|)
    ensures SameInodes(fs, EntryDeleted(fs, dirs, a, name).0, a)
  {
    var i := NamedSlot(Slots(fs, a), dirs, name, 0);
    if i < INDIRECT1_INDEX {
      DetachedSame(fs, a, i);
    }
  }

  lemma FilesRelinked(fs: Fs, x: nat, k: int)
    requires FilesOk(fs) && 1 <= x <= |fs.inodes|
    ensures FilesOk(Relinked(fs, x, k))
  {
    var fs' := Relinked(fs, x, k);
    forall b | LiveFile(fs', b) ensures OwnsUnreserved(fs', b) {
      assert LiveFile(fs, b);
    }
  }

  /** The change of a name followed by a change of files only. */
  lemma ThenSame(fs: Fs, dirs: Dirs, fs1: Fs, dirs': Dirs, fs': Fs, a: int)
    requires OthersSame(fs, dirs, fs1, dirs', a) && LiveDirectory(fs1, a) && NamesOk(fs1, dirs')
             && SameDirectories(fs1, fs')
    ensures OthersSame(fs, dirs, fs', dirs', a) && LiveDirectory(fs', a)
            && DirView(fs', dirs', a) == DirView(fs1, dirs', a)
  {
    SameViews(fs1, fs', dirs', a);
  }

  lemma RootKept(fs: Fs, dirs: Dirs, fs': Fs, dirs': Dirs, a: int, name: Name)
    requires RootOk(fs, dirs) && Rebound(fs, dirs, fs', dirs', a, name)
    ensures RootOk(fs', dirs')
  {
    assert LiveDirectory(fs, ROOT);
    if (ROOT, DOT) == (a, name) {
      assert false;
    } else {
      OtherName(fs, dirs, fs', dirs', a, name, ROOT, DOT);
    }
  }

  lemma AddedRebound(fs: Fs, dirs: Dirs, fs': Fs, dirs': Dirs, a: int, name: Name, t: Target)
    requires NameAdded(fs, dirs, fs', dirs', a, name, t) && name !in DirView(fs, dirs, a) && t.fileType != EXT2_FT_DIR
    requires |fs'.inodes| == |fs.inodes|
    ensures Rebound(fs, dirs, fs', dirs', a, name) && Lookup(fs', dirs', a, name) == Some(t)
  {
  }

  lemma RemovedRebound(fs: Fs, dirs: Dirs, fs': Fs, dirs': Dirs, a: int, name: Name)
    requires NameRemoved(fs, dirs, fs', dirs', a, name) && NotDirectory(Lookup(fs, dirs, a, name))
             && |fs'.inodes| == |fs.inodes|
    ensures Rebound(fs, dirs, fs', dirs', a, name) && Lookup(fs', dirs', a, name) == None
  {
  }

  // ---------------------------------------------------------------- ln

  ghost predicate OneMoreLink(fs: Fs, fs': Fs, x: int) {
    && 1 <= x <= |fs.inodes| == |fs'.inodes|
    && fs'.inodes[x - 1].links == fs.inodes[x - 1].links + 1 && fs'.inodeUsed == fs.inodeUsed
  }

  /** A hard link: file x gets a name in directory a and the link that goes with it. */
  lemma {:induction false} HardLinkedImage(fs: Fs, owner: Owners, dirs: Dirs, a: nat, x: nat, name: Name)
    requires Image(fs, owner, dirs) && LiveDirectory(fs, a) && LiveFile(fs, x) && name != []
             && name !in DirView(fs, dirs, a)
    requires HasRoomFor(fs, dirs, a, name) || (fs.freeBlocks.super > 0 && CanGrow(fs, a))
    ensures Placeable(fs, dirs, a, name)
    ensures var (fs', dirs') := HardLinked(fs, dirs, a, x, name);
            && Image(fs', OwnerMade(fs, owner, dirs, a, name), dirs') && Rebound(fs, dirs, fs', dirs', a, name)
            && Lookup(fs', dirs', a, name) == Some(Target(x, EXT2_FT_REG_FILE))
            && OneMoreLink(fs, fs', x)
  {
    Settled(fs, owner, dirs, x);
    EntryMadeImage(fs, owner, dirs, x, 0, -1, a, name, EXT2_FT_REG_FILE);
    EntryMadeSame(fs, dirs, a, x, name, EXT2_FT_REG_FILE);
    var (fs1, dirs') := EntryMade(fs, dirs, a, x, name, EXT2_FT_REG_FILE);
    var owner', k := OwnerMade(fs, owner, dirs, a, name), fs.inodes[x - 1].links + 1;
    FilesKept(fs, fs1, a);
    DirectorySame(fs, fs1, a, x);
    assert fs1.inodes[x - 1].links == fs.inodes[x - 1].links;
    assert LinkOk(fs, dirs, x, 0, x);
    RelinkedStep(fs, dirs, fs1, owner', dirs', a, x, name, Target(x, EXT2_FT_REG_FILE), k);
  }

  lemma {:induction false} RelinkedStep(fs: Fs, dirs: Dirs, fs1: Fs, owner': Owners, dirs': Dirs, a: nat, x: nat,
                                        name: Name, t: Target, k: int)
    requires IsImage(fs1, owner', dirs', x, -1) && FilesOk(fs1) && RootOk(fs, dirs)
             && NameAdded(fs, dirs, fs1, dirs', a, name, t)
    requires LiveFile(fs1, x) && k == fs1.inodes[x - 1].links + 1 && k > 0
    requires name !in DirView(fs, dirs, a) && t.fileType != EXT2_FT_DIR && |fs1.inodes| == |fs.inodes|
    ensures var fs' := Relinked(fs1, x, k);
            Image(fs', owner', dirs') && Rebound(fs, dirs, fs', dirs', a, name)
                && Lookup(fs', dirs', a, name) == Some(t)
  {
    var fs' := Relinked(fs1, x, k);
    RelinkedImage(fs1, owner', dirs', x, -1, k, 0);
    ThenSame(fs, dirs, fs1, dirs', fs', a);
    FilesRelinked(fs1, x, k);
    Settled(fs', owner', dirs', x);
    AddedRebound(fs, dirs, fs', dirs', a, name, t);
    RootKept(fs, dirs, fs', dirs', a, name);
  }

  // ---------------------------------------------------------------- ln -s

  lemma FilesAfterSymlink(fs: Fs)
    requires FilesOk(fs) && LAST_RESERVED_INODE < NextInode(fs) <= |fs.inodes|
    requires LAST_RESERVED_BLOCK < NextBlock(SymlinkTaken(fs)) <= |fs.blockUsed|
    ensures FilesOk(SymlinkFilled(fs))
  {
    var x, fs2 := NextInode(fs), SymlinkFilled(fs);
    forall b | LiveFile(fs2, b) ensures OwnsUnreserved(fs2, b) {
      if b != x {
        assert LiveFile(fs, b);
      }
    }
  }

  /** fs2 is fs with a new file x, which has one link and no name yet. */
  ghost predicate SymlinkReady(fs: Fs, dirs: Dirs, fs2: Fs, owner2: Owners, a: int, x: int) {
    && IsImage(fs2, owner2, dirs, x, 1) && FilesOk(fs2) && |fs2.inodes| == |fs.inodes|
       && |fs2.blockUsed| == |fs.blockUsed|
    && LiveFile(fs2, x) && fs2.inodes[x - 1].links == 1 && Shaped(fs) && !fs.InUse(x)
       && fs2.inodeUsed == fs.inodeUsed[x - 1 := true]
    && OthersSame(fs, dirs, fs2, dirs, a) && LiveDirectory(fs, a) && LiveDirectory(fs2, a)
       && Slots(fs2, a) == Slots(fs, a) && SameDirectories(fs, fs2)
  }

  /** The new file x has got a name in directory a, and nothing else has changed. */
  ghost predicate SymlinkMade(fs: Fs, dirs: Dirs, a: int, x: int, name: Name, fs': Fs, dirs': Dirs) {
    && Rebound(fs, dirs, fs', dirs', a, name) && Lookup(fs', dirs', a, name) == Some(Target(x, EXT2_FT_SYMLINK))
    && 1 <= x <= |fs.inodes| && !fs.InUse(x) && LiveFile(fs', x) && fs'.inodes[x - 1].links == 1
    && fs'.inodeUsed == fs.inodeUsed[x - 1 := true]
  }

  /** So it is when the symbolic link has its inode and its block. */
  lemma {:induction false} SymlinkFilledImage(fs: Fs, owner: Owners, dirs: Dirs, a: int)
    requires Image(fs, owner, dirs) && fs.freeInodes.super > 0 && fs.freeBlocks.super > 0 && LiveDirectory(fs, a)
    ensures NextInode(fs) <= |fs.inodes| && NextBlock(SymlinkTaken(fs)) <= |fs.blockUsed|
    ensures var fs2, x := SymlinkFilled(fs), NextInode(fs);
            && SymlinkReady(fs, dirs, fs2, owner[NextBlock(SymlinkTaken(fs)) := (x, 0)], a, x)
            && fs2.freeBlocks.super == fs.freeBlocks.super - 1
  {
    FileTakenImage(fs, owner, dirs, 1);
    var fs1, x := SymlinkTaken(fs), NextInode(fs);
    BlockAvailable(fs1, owner);
    FileGrownImage(fs1, owner, dirs, x, 1, 0);
    FilesAfterSymlink(fs);
    SameViews(fs, fs1, dirs, a);
    SameViews(fs1, SymlinkFilled(fs), dirs, a);
    SameTwice(fs, fs1, SymlinkFilled(fs));
  }

  lemma SameThen(fs: Fs, dirs: Dirs, fs2: Fs, fs': Fs, dirs': Dirs, a: int, name: Name, t: Target)
    requires OthersSame(fs, dirs, fs2, dirs, a) && LiveDirectory(fs, a) && LiveDirectory(fs2, a)
             && Slots(fs2, a) == Slots(fs, a)
    requires NameAdded(fs2, dirs, fs', dirs', a, name, t)
    ensures NameAdded(fs, dirs, fs', dirs', a, name, t)
  {
  }

  /** A symbolic link: the new file gets a name in directory a. */
  lemma {:induction false} SymlinkedImage(fs: Fs, dirs: Dirs, fs2: Fs, owner2: Owners, a: nat, x: nat, name: Name)
    requires RootOk(fs, dirs) && SymlinkReady(fs, dirs, fs2, owner2, a, x) && name != []
             && name !in DirView(fs, dirs, a)
    requires HasRoomFor(fs2, dirs, a, name) || (fs2.freeBlocks.super > 0 && CanGrow(fs2, a))
    ensures Placeable(fs2, dirs, a, name)
    ensures var (fs', dirs') := EntryMade(fs2, dirs, a, x, name, EXT2_FT_SYMLINK);
            Image(fs', OwnerMade(fs2, owner2, dirs, a, name), dirs') && SymlinkMade(fs, dirs, a, x, name, fs', dirs')
  {
    EntryMadeImage(fs2, owner2, dirs, x, 1, 0, a, name, EXT2_FT_SYMLINK);
    EntryMadeSame(fs2, dirs, a, x, name, EXT2_FT_SYMLINK);
    var (fs', dirs') := EntryMade(fs2, dirs, a, x, name, EXT2_FT_SYMLINK);
    FilesKept(fs2, fs', a);
    DirectorySame(fs2, fs', a, x);
    assert fs'.inodes[x - 1].links == fs2.inodes[x - 1].links;
    Settled(fs', OwnerMade(fs2, owner2, dirs, a, name), dirs', x);
    SameThen(fs, dirs, fs2, fs', dirs', a, name, Target(x, EXT2_FT_SYMLINK));
    AddedRebound(fs, dirs, fs', dirs', a, name, Target(x, EXT2_FT_SYMLINK));
    RootKept(fs, dirs, fs', dirs', a, name);
  }

  // ---------------------------------------------------------------- rm

  lemma FilesAfterFree(fs: Fs, x: nat)
    requires FilesOk(fs) && LiveFile(fs, x) && SlotsInRange(fs, x)
    ensures FilesOk(InodeFreed(fs, x))
  {
    var fs1, fs' := InodeMarked(fs, x, false), InodeFreed(fs, x);
    SlotsFreedSame(fs1, x, |Slots(fs, x)|);
    forall b | LiveFile(fs', b) ensures OwnsUnreserved(fs', b) {
      DirectorySame(fs1, fs', x, b);
      assert fs'.inodes[b - 1].block == fs1.inodes[b - 1].block && LiveFile(fs, b);
    }
  }

  /** The last part of rm: one link less, and the inode freed when none is left. */
  ghost function Unlinked(fs: Fs, x: nat): (fs': Fs)
    requires Shaped(fs) && 1 <= x <= |fs.inodes| && SlotsInRange(fs, x)
    ensures Shaped(fs')
  {
    var fs2 := Relinked(fs, x, fs.inodes[x - 1].links - 1);
    if fs2.inodes[x - 1].links <= 0 then InodeFreed(fs2, x) else fs2
  }

  lemma {:induction false} UnlinkedIs(fs: Fs, x: nat, fs2: Fs)
    requires Shaped(fs) && 1 <= x <= |fs.inodes| && SlotsInRange(fs, x)
    requires fs2 == Relinked(fs, x, fs.inodes[x - 1].links - 1)
    ensures SlotsInRange(fs2, x) && Unlinked(fs, x) == if fs2.inodes[x - 1].links <= 0 then InodeFreed(fs2, x) else fs2
  {
  }

  ghost function OwnerUnlinked(fs: Fs, owner: Owners, x: nat): Owners
    requires Shaped(fs) && 1 <= x <= |fs.inodes|
  {
    if fs.inodes[x - 1].links - 1 <= 0 then owner - BlocksIn(Slots(fs, x), INDIRECT1_INDEX) else owner
  }

  /** A file that has one link more than names loses the link; it is freed when it has no name. */
  lemma {:induction false} UnlinkedImage(fs: Fs, owner: Owners, dirs: Dirs, x: nat)
    requires IsImage(fs, owner, dirs, x, 1) && FilesOk(fs) && LiveFile(fs, x)
    ensures SlotsInRange(fs, x)
    ensures var fs' := Unlinked(fs, x);
            && IsImage(fs', OwnerUnlinked(fs, owner, x), dirs, 0, 0) && FilesOk(fs') && SameDirectories(fs, fs')
            && fs'.InUse(x) == (NameCount(dirs, x, |fs.blockUsed|) > 0)
  {
    assert LinkOk(fs, dirs, x, 1, x);
    var k := fs.inodes[x - 1].links - 1;
    var fs2 := Relinked(fs, x, k);
    SlotsAreInRange(fs, owner, x);
    RelinkedImage(fs, owner, dirs, x, 1, k, 0);
    FilesRelinked(fs, x, k);
    if k == 0 {
      FileFreedImage(fs2, owner, dirs, x);
      FilesAfterFree(fs2, x);
    } else {
      Settled(fs2, owner, dirs, x);
    }
  }

  lemma RemovedIs(fs: Fs, dirs: Dirs, a: nat, x: nat, name: Name)
    requires Shaped(fs) && 1 <= a <= |fs.inodes| && DirsInRange(dirs, |fs.blockUsed|)
    requires 1 <= x <= |fs.inodes| && x != a && SlotsInRange(fs, x)
    ensures var (fs1, dirs1) := EntryDeleted(fs, dirs, a, name);
            && SameInodes(fs, fs1, a) && SlotsInRange(fs1, x) && Slots(fs1, x) == Slots(fs, x)
            && fs1.inodes[x - 1].links == fs.inodes[x - 1].links
               && Removed(fs, dirs, a, x, name) == (Unlinked(fs1, x), dirs1)
  {
    EntryDeletedSame(fs, dirs, a, name);
    assert EntryDeleted(fs, dirs, a, name).0.inodes[x - 1].block == fs.inodes[x - 1].block;
  }

  /** rm takes a name away and frees the file exactly when that was its last name. */
  lemma {:induction false} RemovedImage(fs: Fs, owner: Owners, dirs: Dirs, a: nat, x: nat, name: Name)
    requires Image(fs, owner, dirs) && LiveDirectory(fs, a) && LiveFile(fs, x) && name != [] && SlotsInRange(fs, x)
    requires name in DirView(fs, dirs, a) && DirView(fs, dirs, a)[name].inode == x
             && DirView(fs, dirs, a)[name].fileType != EXT2_FT_DIR
    requires !EmptiesReserved(fs, dirs, a, name)
    ensures var (fs', dirs') := Removed(fs, dirs, a, x, name);
            && (exists owner' :: Image(fs', owner', dirs')) && Rebound(fs, dirs, fs', dirs', a, name)
            && Lookup(fs', dirs', a, name) == None && fs'.InUse(x) == (NameCount(dirs', x, |fs.blockUsed|) > 0)
  {
    Settled(fs, owner, dirs, x);
    RemovedIs(fs, dirs, a, x, name);
    EntryDeletedImage(fs, owner, dirs, x, 0, 1, a, name);
    var (fs1, dirs') := EntryDeleted(fs, dirs, a, name);
    FilesKept(fs, fs1, a);
    DirectorySame(fs, fs1, a, x);
    var owner1 := OwnerDeleted(fs, owner, dirs, a, name);
    UnlinkedStep(fs, dirs, fs1, owner1, dirs', a, x, name);
  }

  lemma {:induction false} UnlinkedStep(fs: Fs, dirs: Dirs, fs1: Fs, owner1: Owners, dirs': Dirs, a: nat, x: nat,
                                        name: Name)
    requires RootOk(fs, dirs) && IsImage(fs1, owner1, dirs', x, 1) && FilesOk(fs1) && LiveFile(fs1, x)
             && |fs1.inodes| == |fs.inodes|
    requires NameRemoved(fs, dirs, fs1, dirs', a, name) && NotDirectory(Lookup(fs, dirs, a, name))
    ensures SlotsInRange(fs1, x)
    ensures var fs' := Unlinked(fs1, x);
            && Image(fs', OwnerUnlinked(fs1, owner1, x), dirs') && Rebound(fs, dirs, fs', dirs', a, name)
            && Lookup(fs', dirs', a, name) == None && fs'.InUse(x) == (NameCount(dirs', x, |fs1.blockUsed|) > 0)
  {
    UnlinkedImage(fs1, owner1, dirs', x);
    var fs' := Unlinked(fs1, x);
    ThenSame(fs, dirs, fs1, dirs', fs', a);
    RemovedRebound(fs, dirs, fs', dirs', a, name);
    RootKept(fs, dirs, fs', dirs', a, name);
  }

  lemma {:induction false} SlotsFreedClear(fs: Fs, a: nat, i: nat, n: int)
    requires Shaped(fs) && 1 <= a <= |fs.inodes| && i <= INDIRECT1_INDEX && SlotsInRange(fs, a)
    requires 1 <= n <= |fs.blockUsed| && !fs.blockUsed[n - 1]
    ensures !SlotsFreed(fs, a, i).blockUsed[n - 1]
    decreases i
  {
    if i > 0 {
      SlotsFreedClear(SlotFreed(fs, a, i - 1), a, i - 1, n);
    }
  }

  lemma {:induction false} InodeFreedClear(fs: Fs, x: nat, n: int)
    requires Shaped(fs) && 1 <= x <= |fs.inodes| && SlotsInRange(fs, x)
    requires 1 <= n <= |fs.blockUsed| && !fs.blockUsed[n - 1]
    ensures n <= |InodeFreed(fs, x).blockUsed| && !InodeFreed(fs, x).blockUsed[n - 1]
  {
    SlotsFreedClear(InodeMarked(fs, x, false), x, |Slots(fs, x)|, n);
  }

  lemma {:induction false} UnlinkedClear(fs: Fs, x: nat, n: int)
    requires Shaped(fs) && 1 <= x <= |fs.inodes| && SlotsInRange(fs, x)
    requires 1 <= n <= |fs.blockUsed| && !fs.blockUsed[n - 1]
    ensures n <= |Unlinked(fs, x).blockUsed| && !Unlinked(fs, x).blockUsed[n - 1]
  {
    var fs2 := Relinked(fs, x, fs.inodes[x - 1].links - 1);
    UnlinkedIs(fs, x, fs2);
    if fs2.inodes[x - 1].links <= 0 {
      InodeFreedClear(fs2, x, n);
    }
  }

  /** If the deletion frees a reserved block, no image comes of it. */
  lemma {:induction false} RemovedLost(fs: Fs, owner: Owners, dirs: Dirs, a: nat, x: nat, name: Name)
    requires Image(fs, owner, dirs) && LiveDirectory(fs, a) && 1 <= x <= |fs.inodes| && x != a && SlotsInRange(fs, x)
    requires EmptiesReserved(fs, dirs, a, name)
    ensures Shaped(Removed(fs, dirs, a, x, name).0) && Spoilt(Removed(fs, dirs, a, x, name).0)
  {
    EntryDeletedLost(fs, owner, dirs, a, name);
    RemovedIs(fs, dirs, a, x, name);
    var fs1 := EntryDeleted(fs, dirs, a, name).0;
    var n := Slots(fs, a)[NamedSlot(Slots(fs, a), dirs, name, 0)];
    UnlinkedClear(fs1, x, n);
    ReservedClear(Unlinked(fs1, x), n);
  }

  // ---------------------------------------------------------------- commands

  ghost predicate Sound(fs: Fs, dirs: Dirs) {
    exists owner :: Image(fs, owner, dirs)
  }

  /** The image is well formed, and this is what its directories hold. */
  ghost predicate Reading(fs: Fs, d: seq<Byte>, dirs: Dirs) {
    Sound(fs, dirs) && DirsHold(d, fs.blockUsed, dirs)
  }

  predicate PathsOk(c: Command) {
    match c
    case Link(source, dest) => IsPath(source) && IsPath(dest)
    case Symlink(source, dest, text) => IsPath(source) && IsPath(dest)
    case Remove(path) => IsPath(path)
  }

  /** The command fits the model: its paths are paths, and if its checks pass, then its destination can be searched
      for room. */
  ghost predicate Fits(fs: Fs, d: seq<Byte>, dirs: Dirs, c: Command)
    requires Shaped(fs)
  {
    && PathsOk(c)
    && (!c.Remove? && LinkCheck(fs, dirs, c.source, c.dest) == Success ==> DestinationOk(fs, d, dirs, c.dest))
  }

  ghost predicate Step(fs: Fs, d: seq<Byte>, dirs: Dirs, c: Command, status: Status, fs': Fs, d': seq<Byte>)
    requires Shaped(fs) && PathsOk(c)
  {
    match c
    case Link(source, dest) => LinkStep(fs, d, dirs, source, dest, status, fs', d')
    case Symlink(source, dest, text) => SymlinkStep(fs, d, dirs, source, dest, text, status, fs', d')
    case Remove(path) => RemoveStep(fs, d, dirs, path, status, fs', d')
  }

  /** A new name has somewhere to go: a block with room, or a free block and a direct slot for it. */
  ghost predicate Fitting(fs: Fs, dirs: Dirs, a: int, name: Name, free: int)
    requires Shaped(fs)
  {
    1 <= a <= |fs.inodes| && (HasRoomFor(fs, dirs, a, name) || (free > 0 && CanGrow(fs, a)))
  }

  /** The search for room does not come to a short record before it comes to room. */
  ghost predicate InOrder(fs: Fs, dirs: Dirs, a: int, name: Name)
    requires Shaped(fs)
  {
    1 <= a <= |fs.inodes| && Clean(Slots(fs, a), dirs, TotalEntryLength(|name|))
  }

  /** Nothing can be put into inode a: no block of it seems to have room, and no block is free. */
  ghost predicate NothingPut(fs: Fs, d: seq<Byte>, a: int, name: Name)
    requires Shaped(fs)
  {
    1 <= a <= |fs.inodes| && fs.freeBlocks.super <= 0 && FirstRoom(Slots(fs, a), d, name, 0) == INDIRECT1_INDEX
  }

  /** An entry with the name, put into what p stands for, and a link more do no harm. */
  ghost predicate LinkHarmless(fs: Fs, d: seq<Byte>, dirs: Dirs, p: Target, name: Name)
    requires Shaped(fs)
  {
    if p.fileType == EXT2_FT_DIR then
      && InOrder(fs, dirs, p.inode, name)
      && (fs.freeBlocks.super > 0 ==> Fitting(fs, dirs, p.inode, name, fs.freeBlocks.super))
    else NothingPut(fs, d, p.inode, name)
  }

  /** Nor do a new inode for the text, a block for it, and an entry with the name. */
  ghost predicate SymlinkHarmless(fs: Fs, dirs: Dirs, p: Target, name: Name, text: Name)
    requires Shaped(fs)
  {
    && p.fileType == EXT2_FT_DIR && |text| < BLOCK_SIZE && fs.freeBlocks.super > 0
    && InOrder(fs, dirs, p.inode, name) && Fitting(fs, dirs, p.inode, name, fs.freeBlocks.super - 1)
  }

  /** The command does no harm.  A hard link does when a short record is in the way, and when all direct slots of a
      full directory are taken, and a block is lost; a symbolic link also when it stops after its inode has been
      taken; both when their destination is below a file, if anything is written; and rm when it empties a
      reserved block. */
  ghost predicate Harmless(fs: Fs, d: seq<Byte>, dirs: Dirs, c: Command)
    requires Shaped(fs) && PathsOk(c)
  {
    match c
    case Link(source, dest) =>
      LinkCheck(fs, dirs, source, dest) == Success ==>
        LinkHarmless(fs, d, dirs, Resolve(fs, dirs, dest[..|dest| - 1]).value, Last(dest))
    case Symlink(source, dest, text) =>
      LinkCheck(fs, dirs, source, dest) == Success && fs.freeInodes.super != 0 ==>
        SymlinkHarmless(fs, dirs, Resolve(fs, dirs, dest[..|dest| - 1]).value, Last(dest), text)
    case Remove(path) =>
      RemoveCheck(fs, dirs, path) == Success && Parent(fs, dirs, path).Some? ==>
        !EmptiesReserved(fs, dirs, Parent(fs, dirs, path).value, Last(path))
  }

  /** The command has done what it is for: exactly one name in one directory has changed. */
  ghost predicate Done(fs: Fs, dirs: Dirs, c: Command, fs': Fs, dirs': Dirs)
    requires Shaped(fs) && PathsOk(c)
  {
    match c
    case Link(source, dest) =>
      && Parent(fs, dirs, dest).Some? && Rebound(fs, dirs, fs', dirs', Parent(fs, dirs, dest).value, Last(dest))
      && Resolve(fs, dirs, source).Some?
      && var x := Resolve(fs, dirs, source).value.inode;
         Resolve(fs', dirs', dest) == Some(Target(x, EXT2_FT_REG_FILE)) && OneMoreLink(fs, fs', x)
    case Symlink(source, dest, text) =>
      && Parent(fs, dirs, dest).Some? && Rebound(fs, dirs, fs', dirs', Parent(fs, dirs, dest).value, Last(dest))
      && var x := NextInode(fs);
         && Resolve(fs', dirs', dest) == Some(Target(x, EXT2_FT_SYMLINK)) && x <= |fs.inodes|
         && !fs.InUse(x) && LiveFile(fs', x) && fs'.inodes[x - 1].links == 1
            && fs'.inodeUsed == fs.inodeUsed[x - 1 := true]
    case Remove(path) =>
      && Parent(fs, dirs, path).Some? && Rebound(fs, dirs, fs', dirs', Parent(fs, dirs, path).value, Last(path))
      && Resolve(fs', dirs', path) == None && Resolve(fs, dirs, path).Some?
      && var x := Resolve(fs, dirs, path).value.inode;
         fs'.InUse(x) == (NameCount(dirs', x, |fs.blockUsed|) > 0)
  }

  lemma IsWellFormed(fs: Fs, d: seq<Byte>, dirs: Dirs)
    requires Reading(fs, d, dirs)
    ensures WellFormed(fs, d)
  {
    var owner :| Image(fs, owner, dirs);
    assert Image(fs, owner, dirs) && DirsHold(d, fs.blockUsed, dirs);
  }

  /** What the checks of ln leave: a file, and a fresh name in a directory, or below a file. */
  lemma {:induction false} NewPath(fs: Fs, owner: Owners, dirs: Dirs, source: Path, dest: Path)
      returns (p: Target, x: int)
    requires Image(fs, owner, dirs) && IsPath(source) && IsPath(dest) && LinkCheck(fs, dirs, source, dest) == Success
    ensures Resolve(fs, dirs, dest[..|dest| - 1]) == Some(p)
    ensures Resolve(fs, dirs, source).Some? && x == Resolve(fs, dirs, source).value.inode && LiveFile(fs, x)
    ensures if p.fileType == EXT2_FT_DIR then
              && Parent(fs, dirs, dest) == Some(p.inode) && LiveDirectory(fs, p.inode)
              && Last(dest) !in DirView(fs, dirs, p.inode)
            else LiveFile(fs, p.inode)
  {
    ResolveLive(fs, owner, dirs, dest[..|dest| - 1]);
    ResolveLive(fs, owner, dirs, source);
    assert |dest| > 1;
    p, x := Resolve(fs, dirs, dest[..|dest| - 1]).value, Resolve(fs, dirs, source).value.inode;
  }

  // ---------------------------------------------------------------- ln in a directory

  /** Then the destination leads to the file that the source leads to. */
  lemma {:induction false} LinkDone(fs: Fs, owner: Owners, dirs: Dirs, source: Path, dest: Path, a: nat, x: nat,
                                    fs': Fs, dirs': Dirs)
    requires Image(fs, owner, dirs) && PathsOk(Link(source, dest)) && Parent(fs, dirs, dest) == Some(a)
    requires Resolve(fs, dirs, source).Some? && Resolve(fs, dirs, source).value.inode == x && OneMoreLink(fs, fs', x)
    requires Rebound(fs, dirs, fs', dirs', a, Last(dest))
             && Lookup(fs', dirs', a, Last(dest)) == Some(Target(x, EXT2_FT_REG_FILE))
    ensures Done(fs, dirs, Link(source, dest), fs', dirs')
  {
    var r := PathRebound(fs, owner, dirs, fs', dirs', a, dest);
  }

  lemma HardLinkedIs(fs: Fs, dirs: Dirs, a: nat, x: nat, name: Name) returns (fs1: Fs)
    requires Placeable(fs, dirs, a, name) && 1 <= x <= |fs.inodes|
    ensures fs1 == EntryMade(fs, dirs, a, x, name, EXT2_FT_REG_FILE).0 && Shaped(fs1) && x <= |fs1.inodes|
    ensures HardLinked(fs, dirs, a, x, name).0 == Relinked(fs1, x, fs1.inodes[x - 1].links + 1)
  {
    EntryMadeSame(fs, dirs, a, x, name, EXT2_FT_REG_FILE);
    fs1 := EntryMade(fs, dirs, a, x, name, EXT2_FT_REG_FILE).0;
  }

  lemma HardLinkLost(fs: Fs, owner: Owners, dirs: Dirs, a: nat, x: nat, name: Name)
    requires Image(fs, owner, dirs) && LiveDirectory(fs, a) && LiveFile(fs, x) && fs.freeBlocks.super > 0
    requires !HasRoomFor(fs, dirs, a, name) && !CanGrow(fs, a)
    ensures Placeable(fs, dirs, a, name)
    ensures Shaped(HardLinked(fs, dirs, a, x, name).0) && Spoilt(HardLinked(fs, dirs, a, x, name).0)
  {
    EntryMadeLost(fs, owner, dirs, a, x, name, EXT2_FT_REG_FILE);
    var fs1 := HardLinkedIs(fs, dirs, a, x, name);
    SpoiltRelinked(fs1, x, fs1.inodes[x - 1].links + 1);
  }

  lemma SpoiltRelinked(fs: Fs, x: nat, k: int)
    requires Shaped(fs) && 1 <= x <= |fs.inodes| && Spoilt(fs)
    ensures Spoilt(Relinked(fs, x, k))
  {
    var fs', links := Relinked(fs, x, k), fs.inodes[x - 1].links;
    assert Relinked(fs', x, links) == fs;
    forall owner: Owners ensures !Consistent(fs', owner) {
      if Consistent(fs', owner) {
        RelinkedConsistent(fs', owner, x, links);
        assert false;
      }
    }
  }

  /** A hard link in a directory leaves a well-formed image if it fits; if not, a block is lost. */
  lemma {:induction false} HardLinkKeeps(fs: Fs, owner: Owners, dirs: Dirs, a: nat, x: nat, name: Name, fs': Fs,
                                         dirs': Dirs, d': seq<Byte>)
    requires Image(fs, owner, dirs) && LiveDirectory(fs, a) && LiveFile(fs, x) && name != []
             && name !in DirView(fs, dirs, a)
    requires HasSpace(fs, dirs, a, name) && Placeable(fs, dirs, a, name)
    requires (fs', dirs') == HardLinked(fs, dirs, a, x, name) && DirsHold(d', fs'.blockUsed, dirs')
    ensures Shaped(fs') && (WellFormed(fs', d') <==> Fitting(fs, dirs, a, name, fs.freeBlocks.super))
    ensures WellFormed(fs', d') ==>
              && Reading(fs', d', dirs') && Rebound(fs, dirs, fs', dirs', a, name) && OneMoreLink(fs, fs', x)
              && Lookup(fs', dirs', a, name) == Some(Target(x, EXT2_FT_REG_FILE))
  {
    if Fitting(fs, dirs, a, name, fs.freeBlocks.super) {
      HardLinkedImage(fs, owner, dirs, a, x, name);
      IsWellFormed(fs', d', dirs');
    } else {
      HardLinkLost(fs, owner, dirs, a, x, name);
      SpoiltIsIll(fs', d');
    }
  }

  lemma HardLinkedBytes(fs: Fs, dirs: Dirs, d: seq<Byte>, a: nat, x: nat, name: Name, fs1: Fs, fs': Fs, d': seq<Byte>)
      returns (dirs': Dirs)
    requires OrderlyIn(fs, dirs, a, name) && DirsHold(d, fs.blockUsed, dirs) && DirsInRange(dirs, |fs.blockUsed|)
    requires 1 <= x <= |fs.inodes| && LinkAdded(fs, d, a, x, name, fs1, fs', d')
    ensures HasSpace(fs, dirs, a, name) && Placeable(fs, dirs, a, name)
    ensures (fs', dirs') == HardLinked(fs, dirs, a, x, name) && DirsHold(d', fs'.blockUsed, dirs')
  {
    PutOrderly(fs, dirs, d, a, x, name, EXT2_FT_REG_FILE, true, fs1, d');
    dirs' := HardLinked(fs, dirs, a, x, name).1;
  }

  /** A link to a file in a directory with a short record in the way. */
  lemma {:induction false} LinkClobbers(fs: Fs, dirs: Dirs, d: seq<Byte>, a: nat, x: nat, name: Name, fs1: Fs, fs': Fs,
                                        d': seq<Byte>)
    requires LiveDirectory(fs, a) && IsDirInode(fs, dirs, a) && DirsHold(d, fs.blockUsed, dirs) && 0 !in dirs
    requires !InOrder(fs, dirs, a, name) && LiveFile(fs, x) && LinkAdded(fs, d, a, x, name, fs1, fs', d')
    ensures Shaped(fs') && !WellFormed(fs', d')
  {
    var j := PutClobbers(fs, dirs, d, a, x, name, EXT2_FT_REG_FILE, true, fs1, d');
    RelinkedDirectory(fs, x, fs.inodes[x - 1].links + 1, a);
    BrokenIsIll(fs', d', a, j);
  }

  lemma RelinkedDirectory(fs: Fs, x: nat, k: int, a: nat)
    requires LiveDirectory(fs, a) && LiveFile(fs, x)
    ensures LiveDirectory(Relinked(fs, x, k), a) && Slots(Relinked(fs, x, k), a) == Slots(fs, a)
  {
  }

  /** The end of ln, in a directory that does not have the name. */
  lemma {:induction false} LinkPlacedKeeps(fs: Fs, owner: Owners, dirs: Dirs, d: seq<Byte>, a: nat, x: nat, name: Name,
                                           status: Status, fs': Fs, d': seq<Byte>) returns (dirs': Dirs)
    requires Image(fs, owner, dirs) && DirsHold(d, fs.blockUsed, dirs) && LiveDirectory(fs, a) && LiveFile(fs, x)
    requires name != [] && name !in DirView(fs, dirs, a) && LinkPlaced(fs, d, a, x, name, status, fs', d')
    ensures Shaped(fs')
    ensures WellFormed(fs', d') <==>
              && InOrder(fs, dirs, a, name)
              && (fs.freeBlocks.super > 0 ==> Fitting(fs, dirs, a, name, fs.freeBlocks.super))
    ensures WellFormed(fs', d') ==> Reading(fs', d', dirs')
    ensures status != Success ==> (fs', d', dirs') == (fs, d, dirs)
    ensures status == Success && WellFormed(fs', d') ==>
              && Rebound(fs, dirs, fs', dirs', a, name) && OneMoreLink(fs, fs', x)
              && Lookup(fs', dirs', a, name) == Some(Target(x, EXT2_FT_REG_FILE))
  {
    dirs' := dirs;
    DirectoryBlocks(fs, owner, dirs, a);
    if status == Success {
      var fs1 :| LinkAdded(fs, d, a, x, name, fs1, fs', d');
      if InOrder(fs, dirs, a, name) {
        dirs' := HardLinkedBytes(fs, dirs, d, a, x, name, fs1, fs', d');
        HardLinkKeeps(fs, owner, dirs, a, x, name, fs', dirs', d');
      } else {
        LinkClobbers(fs, dirs, d, a, x, name, fs1, fs', d');
      }
    } else {
      LinkRefused(fs, dirs, d, a, x, name);
      assert Reading(fs, d, dirs);
      IsWellFormed(fs, d, dirs);
    }
  }

  /** Nothing is put into a directory only if it has no room, no short record in the way, and no block is free. */
  lemma LinkRefused(fs: Fs, dirs: Dirs, d: seq<Byte>, a: nat, x: int, name: Name)
    requires LiveDirectory(fs, a) && IsDirInode(fs, dirs, a) && DirsHold(d, fs.blockUsed, dirs)
    requires DirsInRange(dirs, |fs.blockUsed|)
    requires EntryPut(fs, d, a, x, name, EXT2_FT_REG_FILE, false, fs, d)
    ensures InOrder(fs, dirs, a, name) && fs.freeBlocks.super <= 0
  {
    if InOrder(fs, dirs, a, name) {
      PutOrderly(fs, dirs, d, a, x, name, EXT2_FT_REG_FILE, false, fs, d);
    } else {
      var j := PutClobbers(fs, dirs, d, a, x, name, EXT2_FT_REG_FILE, false, fs, d);
    }
  }

  // ---------------------------------------------------------------- ln below a file

  lemma SameTwice(fs: Fs, fs1: Fs, fs2: Fs)
    requires SameDirectories(fs, fs1) && SameDirectories(fs1, fs2)
    ensures SameDirectories(fs, fs2)
  {
    forall b: int ensures LiveDirectory(fs2, b) == LiveDirectory(fs, b)
        && (LiveDirectory(fs, b) ==> Slots(fs2, b) == Slots(fs, b)) {
      assert LiveDirectory(fs1, b) == LiveDirectory(fs, b);
    }
  }

  lemma RelinkedFile(fs: Fs, fs1: Fs, x: nat)
    requires LiveFile(fs, x) && Shaped(fs) && Shaped(fs1) && |fs1.inodes| == |fs.inodes|
             && fs1.inodeUsed == fs.inodeUsed
    requires forall b {:trigger fs1.inodes[b]} :: 0 <= b < |fs.inodes| ==>
               fs1.inodes[b].isDir == fs.inodes[b].isDir && fs1.inodes[b].links == fs.inodes[b].links
    ensures var fs' := Relinked(fs1, x, fs1.inodes[x - 1].links + 1);
            && SameDirectories(fs1, fs') && LiveFile(fs', x)
            && fs'.inodes[x - 1].links == fs.inodes[x - 1].links + 1
  {
    assert fs1.inodes[x - 1].isDir == fs.inodes[x - 1].isDir;
  }

  /** Below a file the link is one without a name. */
  lemma {:induction false} LinkAddedBelowFile(fs: Fs, owner: Owners, dirs: Dirs, d: seq<Byte>, a: nat, x: nat,
                                              name: Name, fs1: Fs, fs': Fs, d': seq<Byte>)
    requires Image(fs, owner, dirs) && DirsHold(d, fs.blockUsed, dirs) && LiveFile(fs, a) && LiveFile(fs, x)
    requires Searchable(Slots(fs, a), d, name) && StaysOff(Slots(fs, a), d, dirs, name)
    requires LinkAdded(fs, d, a, x, name, fs1, fs', d')
    ensures Shaped(fs') && !WellFormed(fs', d')
  {
    PutInFile(fs, owner, dirs, d, a, x, name, EXT2_FT_REG_FILE, true, fs1, d');
    RelinkedFile(fs, fs1, x);
    SameTwice(fs, fs1, fs');
    ExtraLinkIsIll(fs, owner, dirs, d, fs', d', x);
  }

  /** The end of ln below a file. */
  lemma {:induction false} LinkPlacedBelowFile(fs: Fs, owner: Owners, dirs: Dirs, d: seq<Byte>, a: nat, x: nat,
                                               name: Name, status: Status, fs': Fs, d': seq<Byte>)
    requires Image(fs, owner, dirs) && DirsHold(d, fs.blockUsed, dirs) && LiveFile(fs, a) && LiveFile(fs, x)
    requires Searchable(Slots(fs, a), d, name) && StaysOff(Slots(fs, a), d, dirs, name)
    requires LinkPlaced(fs, d, a, x, name, status, fs', d')
    ensures Shaped(fs') && (WellFormed(fs', d') <==> NothingPut(fs, d, a, name))
    ensures WellFormed(fs', d') ==> status == NoBlock && (fs', d') == (fs, d)
  {
    if status == Success {
      var fs1 :| LinkAdded(fs, d, a, x, name, fs1, fs', d');
      LinkAddedBelowFile(fs, owner, dirs, d, a, x, name, fs1, fs', d');
    } else {
      assert Reading(fs, d, dirs);
      IsWellFormed(fs, d, dirs);
    }
  }

  // ---------------------------------------------------------------- ln, all in all

  /** ln into a directory that does not have the name. */
  lemma {:induction false} LinkInDirectory(fs: Fs, owner: Owners, dirs: Dirs, d: seq<Byte>, source: Path, dest: Path,
                                           a: nat, x: nat, status: Status, fs': Fs, d': seq<Byte>)
      returns (dirs': Dirs)
    requires Image(fs, owner, dirs) && DirsHold(d, fs.blockUsed, dirs) && PathsOk(Link(source, dest))
    requires Parent(fs, dirs, dest) == Some(a) && LiveDirectory(fs, a) && Last(dest) !in DirView(fs, dirs, a)
    requires LiveFile(fs, x) && Resolve(fs, dirs, source).Some? && Resolve(fs, dirs, source).value.inode == x
    requires LinkPlaced(fs, d, a, x, Last(dest), status, fs', d')
    ensures Shaped(fs')
    ensures WellFormed(fs', d') <==>
              && InOrder(fs, dirs, a, Last(dest))
              && (fs.freeBlocks.super > 0 ==> Fitting(fs, dirs, a, Last(dest), fs.freeBlocks.super))
    ensures WellFormed(fs', d') ==>
              && Reading(fs', d', dirs')
              && if status == Success then Done(fs, dirs, Link(source, dest), fs', dirs')
                 else (fs', d', dirs') == (fs, d, dirs)
  {
    dirs' := LinkPlacedKeeps(fs, owner, dirs, d, a, x, Last(dest), status, fs', d');
    if status == Success && WellFormed(fs', d') {
      LinkDone(fs, owner, dirs, source, dest, a, x, fs', dirs');
    }
  }

  /** ln when its checks pass. */
  lemma {:induction false} LinkChecked(fs: Fs, owner: Owners, dirs: Dirs, d: seq<Byte>, source: Path, dest: Path,
                                       p: Target, x: int, status: Status, fs': Fs, d': seq<Byte>)
      returns (dirs': Dirs)
    requires Image(fs, owner, dirs) && DirsHold(d, fs.blockUsed, dirs)
    requires PathsOk(Link(source, dest)) && DestinationOk(fs, d, dirs, dest)
    requires LinkCheck(fs, dirs, source, dest) == Success && x == Resolve(fs, dirs, source).value.inode
    requires Resolve(fs, dirs, dest[..|dest| - 1]) == Some(p)
             && LinkPlaced(fs, d, p.inode, x, Last(dest), status, fs', d')
    ensures Shaped(fs')
    ensures WellFormed(fs', d') <==> LinkHarmless(fs, d, dirs, p, Last(dest))
    ensures WellFormed(fs', d') ==>
              && Reading(fs', d', dirs')
              && if status == Success then Done(fs, dirs, Link(source, dest), fs', dirs')
                 else (fs', d', dirs') == (fs, d, dirs)
  {
    dirs' := dirs;
    assert Reading(fs, d, dirs);
    var p', x' := NewPath(fs, owner, dirs, source, dest);
    if p.fileType != EXT2_FT_DIR {
      LinkPlacedBelowFile(fs, owner, dirs, d, p.inode, x, Last(dest), status, fs', d');
    } else {
      dirs' := LinkInDirectory(fs, owner, dirs, d, source, dest, p.inode, x, status, fs', d');
    }
  }

  lemma LinkFinds(fs: Fs, dirs: Dirs, source: Path, dest: Path)
    requires Shaped(fs) && dest != [] && LinkCheck(fs, dirs, source, dest) == Success
    ensures Resolve(fs, dirs, source).Some? && Resolve(fs, dirs, dest[..|dest| - 1]).Some?
  {
  }

  /** What is left to do when the checks pass. */
  lemma {:induction false} LinkPasses(fs: Fs, dirs: Dirs, d: seq<Byte>, source: Path, dest: Path, status: Status,
                                      fs': Fs, d': seq<Byte>) returns (p: Target, x: int)
    requires Shaped(fs) && PathsOk(Link(source, dest)) && LinkStep(fs, d, dirs, source, dest, status, fs', d')
    requires LinkCheck(fs, dirs, source, dest) == Success
    ensures Resolve(fs, dirs, dest[..|dest| - 1]) == Some(p) && Resolve(fs, dirs, source).Some?
    ensures x == Resolve(fs, dirs, source).value.inode && LinkPlaced(fs, d, p.inode, x, Last(dest), status, fs', d')
    ensures Harmless(fs, d, dirs, Link(source, dest)) == LinkHarmless(fs, d, dirs, p, Last(dest))
  {
    LinkFinds(fs, dirs, source, dest);
    p, x := Resolve(fs, dirs, dest[..|dest| - 1]).value, Resolve(fs, dirs, source).value.inode;
  }

  lemma {:induction false} LinkStops(fs: Fs, dirs: Dirs, d: seq<Byte>, source: Path, dest: Path, status: Status,
                                     fs': Fs, d': seq<Byte>)
    requires Shaped(fs) && PathsOk(Link(source, dest)) && LinkStep(fs, d, dirs, source, dest, status, fs', d')
    requires LinkCheck(fs, dirs, source, dest) != Success
    ensures status != Success && (fs', d') == (fs, d) && Harmless(fs, d, dirs, Link(source, dest))
  {
  }

  lemma {:induction false} LinkKeeps(fs: Fs, owner: Owners, dirs: Dirs, d: seq<Byte>, source: Path, dest: Path,
                                     status: Status, fs': Fs, d': seq<Byte>) returns (dirs': Dirs)
    requires Image(fs, owner, dirs) && DirsHold(d, fs.blockUsed, dirs) && Fits(fs, d, dirs, Link(source, dest))
    requires LinkStep(fs, d, dirs, source, dest, status, fs', d')
    ensures Shaped(fs') && (WellFormed(fs', d') <==> Harmless(fs, d, dirs, Link(source, dest)))
    ensures WellFormed(fs', d') ==>
              && Reading(fs', d', dirs')
              && if status == Success then Done(fs, dirs, Link(source, dest), fs', dirs')
                 else (fs', d', dirs') == (fs, d, dirs)
  {
    dirs' := dirs;
    assert Reading(fs, d, dirs);
    IsWellFormed(fs, d, dirs);
    if LinkCheck(fs, dirs, source, dest) == Success {
      var p, x := LinkPasses(fs, dirs, d, source, dest, status, fs', d');
      dirs' := LinkChecked(fs, owner, dirs, d, source, dest, p, x, status, fs', d');
    } else {
      LinkStops(fs, dirs, d, source, dest, status, fs', d');
    }
  }

  // ---------------------------------------------------------------- ln -s in a directory

  lemma {:induction false} SymlinkDone(fs: Fs, owner: Owners, dirs: Dirs, source: Path, dest: Path, text: Name, a: nat,
                                       fs': Fs, dirs': Dirs)
    requires Image(fs, owner, dirs) && PathsOk(Symlink(source, dest, text)) && Parent(fs, dirs, dest) == Some(a)
    requires SymlinkMade(fs, dirs, a, NextInode(fs), Last(dest), fs', dirs')
    ensures Done(fs, dirs, Symlink(source, dest, text), fs', dirs')
  {
    var r := PathRebound(fs, owner, dirs, fs', dirs', a, dest);
  }

  /** The directories of fs, read from bytes where they are the same; all blocks in use before are in use still. */
  lemma HoldsStill(d: seq<Byte>, used: seq<bool>, dirs: Dirs, d': seq<Byte>, used': seq<bool>)
    requires DirsHold(d, used, dirs) && DirBytesKept(d, d', dirs) && |used'| == |used|
    requires forall i :: 0 <= i < |used| && used[i] ==> used'[i]
    ensures DirsHold(d', used', dirs)
  {
    forall n: int ensures DirHolds(d', used', dirs, n) {
      assert DirHolds(d, used, dirs, n);
      if n in dirs {
        assert SameBlock(d, d', n);
        HoldsDepends(d, d', BlockStart(n), BlockStart(n) + BLOCK_SIZE, dirs[n]);
      }
    }
  }

  /** When the symbolic link has its inode, its block and its text, all directories are as they were. */
  lemma {:induction false} TextHolds(fs: Fs, dirs: Dirs, d: seq<Byte>, d1: seq<Byte>, text: Name)
    requires Shaped(fs) && DirsHold(d, fs.blockUsed, dirs) && NextInode(fs) <= |fs.inodes|
             && NextBlock(SymlinkTaken(fs)) <= |fs.blockUsed|
    requires TextWritten(d, d1, NextBlock(SymlinkTaken(fs)), text)
    ensures DirBytesKept(d, d1, dirs) && DirsHold(d1, SymlinkFilled(fs).blockUsed, dirs)
  {
    var n := NextBlock(SymlinkTaken(fs));
    assert DirHolds(d, fs.blockUsed, dirs, n);
    NewBlockOff(d, d1, dirs, n);
    HoldsStill(d, fs.blockUsed, dirs, d1, SymlinkFilled(fs).blockUsed);
  }

  /** The name of a symbolic link in a directory: the image is well formed if it fits; if not, a block is lost. */
  lemma {:induction false} SymlinkFitsOrNot(fs: Fs, dirs: Dirs, fs2: Fs, owner2: Owners, a: nat, x: nat, name: Name,
                                            fs': Fs, dirs': Dirs, d': seq<Byte>)
    requires RootOk(fs, dirs) && SymlinkReady(fs, dirs, fs2, owner2, a, x)
    requires name != [] && name !in DirView(fs, dirs, a) && HasSpace(fs2, dirs, a, name)
             && Placeable(fs2, dirs, a, name)
    requires (fs', dirs') == EntryMade(fs2, dirs, a, x, name, EXT2_FT_SYMLINK) && DirsHold(d', fs'.blockUsed, dirs')
    ensures WellFormed(fs', d') <==> Fitting(fs2, dirs, a, name, fs2.freeBlocks.super)
    ensures WellFormed(fs', d') ==> Reading(fs', d', dirs') && SymlinkMade(fs, dirs, a, x, name, fs', dirs')
  {
    if Fitting(fs2, dirs, a, name, fs2.freeBlocks.super) {
      SymlinkedImage(fs, dirs, fs2, owner2, a, x, name);
      IsWellFormed(fs', d', dirs');
    } else {
      EntryMadeLost(fs2, owner2, dirs, a, x, name, EXT2_FT_SYMLINK);
      SpoiltIsIll(fs', d');
    }
  }

  lemma {:induction false} SymlinkClobbers(fs: Fs, dirs: Dirs, d: seq<Byte>, a: nat, x: nat, name: Name,
                                           status: Status, fs': Fs, d': seq<Byte>)
    requires LiveDirectory(fs, a) && IsDirInode(fs, dirs, a) && DirsHold(d, fs.blockUsed, dirs) && 0 !in dirs
    requires !InOrder(fs, dirs, a, name) && SymlinkNamed(fs, d, a, x, name, status, fs', d')
    ensures Shaped(fs') && !WellFormed(fs', d')
  {
    var j := PutClobbers(fs, dirs, d, a, x, name, EXT2_FT_SYMLINK, status == Success, fs', d');
    BrokenIsIll(fs', d', a, j);
  }

  lemma SymlinkNamedBytes(fs: Fs, dirs: Dirs, d: seq<Byte>, a: nat, x: nat, name: Name, status: Status, fs': Fs,
                          d': seq<Byte>) returns (dirs': Dirs)
    requires OrderlyIn(fs, dirs, a, name) && DirsHold(d, fs.blockUsed, dirs) && DirsInRange(dirs, |fs.blockUsed|)
    requires SymlinkNamed(fs, d, a, x, name, status, fs', d')
    ensures status == (if HasSpace(fs, dirs, a, name) then Success else NoBlock)
    ensures if HasSpace(fs, dirs, a, name) then
              && Placeable(fs, dirs, a, name)
              && (fs', dirs') == EntryMade(fs, dirs, a, x, name, EXT2_FT_SYMLINK)
              && DirsHold(d', fs'.blockUsed, dirs')
            else (fs', d', dirs') == (fs, d, dirs)
  {
    PutOrderly(fs, dirs, d, a, x, name, EXT2_FT_SYMLINK, status == Success, fs', d');
    dirs' := dirs;
    if status == Success {
      dirs' := EntryMade(fs, dirs, a, x, name, EXT2_FT_SYMLINK).1;
    }
  }

  /** The end of ln -s in a directory, from the state where the link has its inode, its block and its text. */
  lemma {:induction false} SymlinkNamedKeeps(fs: Fs, owner: Owners, dirs: Dirs, d: seq<Byte>, fs2: Fs, owner2: Owners,
                                             d1: seq<Byte>, a: nat, x: nat, name: Name, status: Status, fs': Fs,
                                             d': seq<Byte>) returns (dirs': Dirs)
    requires Image(fs, owner, dirs) && DirsHold(d, fs.blockUsed, dirs) && SymlinkReady(fs, dirs, fs2, owner2, a, x)
    requires DirBytesKept(d, d1, dirs) && DirsHold(d1, fs2.blockUsed, dirs)
    requires name != [] && name !in DirView(fs, dirs, a) && SymlinkNamed(fs2, d1, a, x, name, status, fs', d')
    ensures Shaped(fs')
    ensures WellFormed(fs', d') <==> InOrder(fs2, dirs, a, name) && Fitting(fs2, dirs, a, name, fs2.freeBlocks.super)
    ensures WellFormed(fs', d') ==>
              status == Success && Reading(fs', d', dirs') && SymlinkMade(fs, dirs, a, x, name, fs', dirs')
  {
    dirs' := dirs;
    DirectoryBlocks(fs2, owner2, dirs, a);
    if !InOrder(fs2, dirs, a, name) {
      SymlinkClobbers(fs2, dirs, d1, a, x, name, status, fs', d');
    } else {
      dirs' := SymlinkNamedBytes(fs2, dirs, d1, a, x, name, status, fs', d');
      if HasSpace(fs2, dirs, a, name) {
        SymlinkFitsOrNot(fs, dirs, fs2, owner2, a, x, name, fs', dirs', d');
      } else {
        LeakIsIll(fs, owner, dirs, d, fs2, d1, x);
      }
    }
  }

  /** What is said of the directory before the link has its inode and block holds after. */
  lemma FilledFits(fs: Fs, dirs: Dirs, a: nat, name: Name)
    requires Shaped(fs) && fs.InUse(a) && NextInode(fs) <= |fs.inodes| && !fs.InUse(NextInode(fs))
    requires NextBlock(SymlinkTaken(fs)) <= |fs.blockUsed|
    ensures InOrder(SymlinkFilled(fs), dirs, a, name) == InOrder(fs, dirs, a, name)
    ensures Fitting(SymlinkFilled(fs), dirs, a, name, SymlinkFilled(fs).freeBlocks.super) ==
            Fitting(fs, dirs, a, name, fs.freeBlocks.super - 1)
  {
    SymlinkFilledSlots(fs, a);
  }

  lemma {:induction false} SymlinkProceeds(fs: Fs, owner: Owners, dirs: Dirs, d: seq<Byte>, a: nat, name: Name,
                                           text: Name, status: Status, fs': Fs, d': seq<Byte>) returns (dirs': Dirs)
    requires Image(fs, owner, dirs) && DirsHold(d, fs.blockUsed, dirs) && LiveDirectory(fs, a)
    requires name != [] && name !in DirView(fs, dirs, a) && fs.freeInodes.super > 0 && fs.freeBlocks.super > 0
    requires NextInode(fs) <= |fs.inodes| && NextBlock(SymlinkTaken(fs)) <= |fs.blockUsed|
    requires SymlinkEnd(SymlinkFilled(fs), d, NextBlock(SymlinkTaken(fs)), a, NextInode(fs), name, text, status, fs',
                        d')
    ensures Shaped(fs')
    ensures WellFormed(fs', d') <==>
              InOrder(fs, dirs, a, name) && Fitting(fs, dirs, a, name, fs.freeBlocks.super - 1)
    ensures WellFormed(fs', d') ==>
              && status == Success && Reading(fs', d', dirs')
              && SymlinkMade(fs, dirs, a, NextInode(fs), name, fs', dirs')
  {
    var x, fs2, n := NextInode(fs), SymlinkFilled(fs), NextBlock(SymlinkTaken(fs));
    var d1 :| TextWritten(d, d1, n, text) && SymlinkNamed(fs2, d1, a, x, name, status, fs', d');
    SymlinkFilledImage(fs, owner, dirs, a);
    TextHolds(fs, dirs, d, d1, text);
    InodeAvailable(fs, owner);
    FilledFits(fs, dirs, a, name);
    dirs' := SymlinkNamedKeeps(fs, owner, dirs, d, fs2, owner[n := (x, 0)], d1, a, x, name, status, fs', d');
  }

  /** An exit after the inode has been taken. */
  lemma {:induction false} SymlinkExits(fs: Fs, owner: Owners, dirs: Dirs, d: seq<Byte>)
    requires Image(fs, owner, dirs) && DirsHold(d, fs.blockUsed, dirs) && fs.freeInodes.super > 0
    ensures NextInode(fs) <= |fs.inodes| && !WellFormed(SymlinkTaken(fs), d)
  {
    FileTakenImage(fs, owner, dirs, 1);
    LeakIsIll(fs, owner, dirs, d, SymlinkTaken(fs), d, NextInode(fs));
  }

  lemma {:induction false} SymlinkWorkKeeps(fs: Fs, owner: Owners, dirs: Dirs, d: seq<Byte>, a: nat, name: Name,
                                            text: Name, status: Status, fs': Fs, d': seq<Byte>) returns (dirs': Dirs)
    requires Image(fs, owner, dirs) && DirsHold(d, fs.blockUsed, dirs) && LiveDirectory(fs, a)
    requires name != [] && name !in DirView(fs, dirs, a)
    requires fs.freeInodes.super != 0 && SymlinkWork(fs, d, a, name, text, status, fs', d')
    ensures Shaped(fs')
    ensures WellFormed(fs', d') <==>
              && |text| < BLOCK_SIZE && fs.freeBlocks.super > 0
              && InOrder(fs, dirs, a, name) && Fitting(fs, dirs, a, name, fs.freeBlocks.super - 1)
    ensures WellFormed(fs', d') ==>
              && status == Success && Reading(fs', d', dirs')
              && SymlinkMade(fs, dirs, a, NextInode(fs), name, fs', dirs')
  {
    dirs' := dirs;
    if |text| >= BLOCK_SIZE || fs.freeBlocks.super <= 0 {
      SymlinkExits(fs, owner, dirs, d);
    } else {
      dirs' := SymlinkProceeds(fs, owner, dirs, d, a, name, text, status, fs', d');
    }
  }

  // ---------------------------------------------------------------- ln -s below a file

  /** The blocks of the other inodes are not touched while a symbolic link gets its inode and its block. */
  lemma SymlinkFilledSlots(fs: Fs, a: nat)
    requires Shaped(fs) && fs.InUse(a) && NextInode(fs) <= |fs.inodes| && !fs.InUse(NextInode(fs))
    requires NextBlock(SymlinkTaken(fs)) <= |fs.blockUsed|
    ensures SymlinkFilled(fs).InUse(a) && Slots(SymlinkFilled(fs), a) == Slots(fs, a)
    ensures IsDirectory(SymlinkFilled(fs), a) == IsDirectory(fs, a)
  {
  }

  /** The text is not in a block of another inode, so that the search for room goes as it would have gone before. */
  lemma TextElsewhere(fs: Fs, owner: Owners, dirs: Dirs, d: seq<Byte>, d1: seq<Byte>, a: nat, name: Name, n: nat)
    requires Consistent(fs, owner) && fs.InUse(a) && a <= |fs.inodes| && n !in owner && OnlyBlock(d, d1, BlockStart(n))
    requires Searchable(Slots(fs, a), d, name)
    ensures Searchable(Slots(fs, a), d1, name)
            && FirstRoom(Slots(fs, a), d1, name, 0) == FirstRoom(Slots(fs, a), d, name, 0)
    ensures StaysOff(Slots(fs, a), d, dirs, name) ==> StaysOff(Slots(fs, a), d1, dirs, name)
  {
    var s := Slots(fs, a);
    forall j | 0 <= j < |s| && s[j] != 0 ensures SameBlock(d, d1, s[j]) {
      assert SlotOk(fs, owner, a, j);
      assert s[j] < n || s[j] > n;
    }
    SearchDepends(s, d, d1, dirs, name);
  }

  /** Once an inode has been taken, no well-formed image comes of it. */
  lemma {:induction false} SymlinkNamedBelowFile(fs: Fs, owner: Owners, dirs: Dirs, d: seq<Byte>, fs2: Fs,
                                                 owner2: Owners, d1: seq<Byte>, a: nat, x: nat, name: Name,
                                                 status: Status, fs': Fs, d': seq<Byte>)
    requires Image(fs, owner, dirs) && DirsHold(d, fs.blockUsed, dirs) && SymlinkReady(fs, dirs, fs2, owner2, ROOT, x)
    requires DirBytesKept(d, d1, dirs) && DirsHold(d1, fs2.blockUsed, dirs) && LiveFile(fs2, a)
    requires Searchable(Slots(fs2, a), d1, name) && StaysOff(Slots(fs2, a), d1, dirs, name)
    requires SymlinkNamed(fs2, d1, a, x, name, status, fs', d')
    ensures Shaped(fs') && !WellFormed(fs', d')
  {
    PutInFile(fs2, owner2, dirs, d1, a, x, name, EXT2_FT_SYMLINK, status == Success, fs', d');
    assert fs'.inodes[x - 1].isDir == fs2.inodes[x - 1].isDir;
    SameTwice(fs, fs2, fs');
    BytesTwice(d, d1, d', dirs);
    LeakIsIll(fs, owner, dirs, d, fs', d', x);
  }

  lemma BytesTwice(d: seq<Byte>, d1: seq<Byte>, d2: seq<Byte>, dirs: Dirs)
    requires DirBytesKept(d, d1, dirs) && DirBytesKept(d1, d2, dirs)
    ensures DirBytesKept(d, d2, dirs)
  {
    forall n: int | n in dirs ensures SameBlock(d, d2, n) {
      assert SameBlock(d, d1, n) && SameBlock(d1, d2, n);
    }
  }

  /** Where the text goes is in no slot. */
  lemma FreeIsUnowned(fs: Fs, owner: Owners)
    requires Consistent(fs, owner) && NextInode(fs) <= |fs.inodes| && NextBlock(SymlinkTaken(fs)) <= |fs.blockUsed|
    ensures NextBlock(SymlinkTaken(fs)) !in owner
  {
    assert OwnerOk(fs, owner, NextBlock(fs)) && BitOk(fs, owner, NextBlock(fs));
  }

  lemma {:induction false} SymlinkEndBelowFile(fs: Fs, owner: Owners, dirs: Dirs, d: seq<Byte>, a: nat, name: Name,
                                               text: Name, status: Status, fs': Fs, d': seq<Byte>)
    requires Image(fs, owner, dirs) && DirsHold(d, fs.blockUsed, dirs) && LiveFile(fs, a)
    requires Searchable(Slots(fs, a), d, name) && StaysOff(Slots(fs, a), d, dirs, name)
    requires fs.freeInodes.super > 0 && fs.freeBlocks.super > 0
    requires NextInode(fs) <= |fs.inodes| && NextBlock(SymlinkTaken(fs)) <= |fs.blockUsed|
    requires SymlinkEnd(SymlinkFilled(fs), d, NextBlock(SymlinkTaken(fs)), a, NextInode(fs), name, text, status, fs',
                        d')
    ensures Shaped(fs') && !WellFormed(fs', d')
  {
    var x, fs2, n := NextInode(fs), SymlinkFilled(fs), NextBlock(SymlinkTaken(fs));
    var d1 :| TextWritten(d, d1, n, text) && SymlinkNamed(fs2, d1, a, x, name, status, fs', d');
    SymlinkFilledImage(fs, owner, dirs, ROOT);
    TextHolds(fs, dirs, d, d1, text);
    InodeAvailable(fs, owner);
    SymlinkFilledSlots(fs, a);
    FreeIsUnowned(fs, owner);
    TextElsewhere(fs, owner, dirs, d, d1, a, name, n);
    SymlinkNamedBelowFile(fs, owner, dirs, d, fs2, owner[n := (x, 0)], d1, a, x, name, status, fs', d');
  }

  lemma {:induction false} SymlinkWorkBelowFile(fs: Fs, owner: Owners, dirs: Dirs, d: seq<Byte>, a: nat, name: Name,
                                                text: Name, status: Status, fs': Fs, d': seq<Byte>)
    requires Image(fs, owner, dirs) && DirsHold(d, fs.blockUsed, dirs) && LiveFile(fs, a)
    requires Searchable(Slots(fs, a), d, name) && StaysOff(Slots(fs, a), d, dirs, name)
    requires fs.freeInodes.super != 0 && SymlinkWork(fs, d, a, name, text, status, fs', d')
    ensures Shaped(fs') && !WellFormed(fs', d')
  {
    if |text| >= BLOCK_SIZE || fs.freeBlocks.super <= 0 {
      SymlinkExits(fs, owner, dirs, d);
    } else {
      SymlinkEndBelowFile(fs, owner, dirs, d, a, name, text, status, fs', d');
    }
  }

  // ---------------------------------------------------------------- ln -s, all in all

  /** ln -s into a directory that does not have the name. */
  lemma {:induction false} SymlinkInDirectory(fs: Fs, owner: Owners, dirs: Dirs, d: seq<Byte>, source: Path, dest: Path,
                                              text: Name, a: nat, status: Status, fs': Fs, d': seq<Byte>)
      returns (dirs': Dirs)
    requires Image(fs, owner, dirs) && DirsHold(d, fs.blockUsed, dirs) && PathsOk(Symlink(source, dest, text))
    requires Parent(fs, dirs, dest) == Some(a) && LiveDirectory(fs, a) && Last(dest) !in DirView(fs, dirs, a)
    requires fs.freeInodes.super != 0 && SymlinkWork(fs, d, a, Last(dest), text, status, fs', d')
    ensures Shaped(fs')
    ensures WellFormed(fs', d') <==>
              && |text| < BLOCK_SIZE && fs.freeBlocks.super > 0
              && InOrder(fs, dirs, a, Last(dest)) && Fitting(fs, dirs, a, Last(dest), fs.freeBlocks.super - 1)
    ensures WellFormed(fs', d') ==>
              && status == Success && Reading(fs', d', dirs')
              && Done(fs, dirs, Symlink(source, dest, text), fs', dirs')
  {
    dirs' := SymlinkWorkKeeps(fs, owner, dirs, d, a, Last(dest), text, status, fs', d');
    if WellFormed(fs', d') {
      SymlinkDone(fs, owner, dirs, source, dest, text, a, fs', dirs');
    }
  }

  /** ln -s when its checks pass and there is an inode for it. */
  lemma {:induction false} SymlinkChecked(fs: Fs, owner: Owners, dirs: Dirs, d: seq<Byte>, source: Path, dest: Path,
                                          text: Name, p: Target, status: Status, fs': Fs, d': seq<Byte>)
      returns (dirs': Dirs)
    requires Image(fs, owner, dirs) && DirsHold(d, fs.blockUsed, dirs)
    requires PathsOk(Symlink(source, dest, text)) && DestinationOk(fs, d, dirs, dest)
    requires LinkCheck(fs, dirs, source, dest) == Success && fs.freeInodes.super != 0
    requires Resolve(fs, dirs, dest[..|dest| - 1]) == Some(p)
             && SymlinkWork(fs, d, p.inode, Last(dest), text, status, fs', d')
    ensures Shaped(fs')
    ensures WellFormed(fs', d') <==> SymlinkHarmless(fs, dirs, p, Last(dest), text)
    ensures WellFormed(fs', d') ==>
              && status == Success && Reading(fs', d', dirs')
              && Done(fs, dirs, Symlink(source, dest, text), fs', dirs')
  {
    dirs' := dirs;
    var p', x := NewPath(fs, owner, dirs, source, dest);
    if p.fileType != EXT2_FT_DIR {
      SymlinkWorkBelowFile(fs, owner, dirs, d, p.inode, Last(dest), text, status, fs', d');
    } else {
      dirs' := SymlinkInDirectory(fs, owner, dirs, d, source, dest, text, p.inode, status, fs', d');
    }
  }

  /** What is left to do when the checks pass and there is an inode. */
  lemma {:induction false} SymlinkPasses(fs: Fs, dirs: Dirs, d: seq<Byte>, source: Path, dest: Path, text: Name,
                                         status: Status, fs': Fs, d': seq<Byte>) returns (p: Target)
    requires Shaped(fs) && PathsOk(Symlink(source, dest, text))
             && SymlinkStep(fs, d, dirs, source, dest, text, status, fs', d')
    requires LinkCheck(fs, dirs, source, dest) == Success && fs.freeInodes.super != 0
    ensures Resolve(fs, dirs, dest[..|dest| - 1]) == Some(p)
    ensures SymlinkWork(fs, d, p.inode, Last(dest), text, status, fs', d')
    ensures Harmless(fs, d, dirs, Symlink(source, dest, text)) == SymlinkHarmless(fs, dirs, p, Last(dest), text)
  {
    LinkFinds(fs, dirs, source, dest);
    p := Resolve(fs, dirs, dest[..|dest| - 1]).value;
  }

  lemma {:induction false} SymlinkStops(fs: Fs, dirs: Dirs, d: seq<Byte>, source: Path, dest: Path, text: Name,
                                        status: Status, fs': Fs, d': seq<Byte>)
    requires Shaped(fs) && PathsOk(Symlink(source, dest, text))
             && SymlinkStep(fs, d, dirs, source, dest, text, status, fs', d')
    requires LinkCheck(fs, dirs, source, dest) != Success || fs.freeInodes.super == 0
    ensures status != Success && (fs', d') == (fs, d) && Harmless(fs, d, dirs, Symlink(source, dest, text))
  {
  }

  lemma {:induction false} SymlinkKeeps(fs: Fs, owner: Owners, dirs: Dirs, d: seq<Byte>, source: Path, dest: Path,
                                        text: Name, status: Status, fs': Fs, d': seq<Byte>) returns (dirs': Dirs)
    requires Image(fs, owner, dirs) && DirsHold(d, fs.blockUsed, dirs)
    requires Fits(fs, d, dirs, Symlink(source, dest, text))
             && SymlinkStep(fs, d, dirs, source, dest, text, status, fs', d')
    ensures Shaped(fs') && (WellFormed(fs', d') <==> Harmless(fs, d, dirs, Symlink(source, dest, text)))
    ensures WellFormed(fs', d') ==>
              && Reading(fs', d', dirs')
              && if status == Success then Done(fs, dirs, Symlink(source, dest, text), fs', dirs')
                 else (fs', d', dirs') == (fs, d, dirs)
  {
    dirs' := dirs;
    assert Reading(fs, d, dirs);
    IsWellFormed(fs, d, dirs);
    if LinkCheck(fs, dirs, source, dest) == Success && fs.freeInodes.super != 0 {
      var p := SymlinkPasses(fs, dirs, d, source, dest, text, status, fs', d');
      dirs' := SymlinkChecked(fs, owner, dirs, d, source, dest, text, p, status, fs', d');
    } else {
      SymlinkStops(fs, dirs, d, source, dest, text, status, fs', d');
    }
  }

  // ---------------------------------------------------------------- destinations in a directory

  /** There every ln and ln -s fits, unless a short record is in the way and the last block is a directory's. */
  lemma {:induction false} FitsInDirectory(fs: Fs, owner: Owners, dirs: Dirs, d: seq<Byte>, c: Command, a: int)
    requires Image(fs, owner, dirs) && DirsHold(d, fs.blockUsed, dirs) && PathsOk(c) && !c.Remove?
    requires Resolve(fs, dirs, c.dest[..|c.dest| - 1]) == Some(Target(a, EXT2_FT_DIR))
    requires InOrder(fs, dirs, a, Last(c.dest)) || forall n :: n in dirs ==> BlockStart(n + 2) <= |d|
    ensures Fits(fs, d, dirs, c)
  {
    ResolveLive(fs, owner, dirs, c.dest[..|c.dest| - 1]);
    DirectoryBlocks(fs, owner, dirs, a);
    DirectorySearchable(fs, dirs, d, a, Last(c.dest));
  }

  // ---------------------------------------------------------------- destinations below a file

  /** The parent of the destination is a file. */
  ghost predicate BelowFile(fs: Fs, dirs: Dirs, dest: Path)
    requires Shaped(fs) && dest != []
  {
    var p := Resolve(fs, dirs, dest[..|dest| - 1]);
    p.Some? && p.value.fileType != EXT2_FT_DIR
  }

  lemma BelowFileChecks(fs: Fs, owner: Owners, dirs: Dirs, source: Path, dest: Path)
    requires Image(fs, owner, dirs) && IsPath(source) && IsPath(dest) && BelowFile(fs, dirs, dest)
    requires Resolve(fs, dirs, source).Some? && Resolve(fs, dirs, source).value.fileType != EXT2_FT_DIR
    ensures LinkCheck(fs, dirs, source, dest) == Success
  {
    assert |dest| > 1;
    assert Parent(fs, dirs, dest) == None;
  }

  /** ext2_ln does not refuse a destination below a file.  The link that is added then is one without a name: no
      well-formed image comes of it, unless there is neither what seems to be room in the data of the file
      nor a free block. */
  lemma {:induction false} LinkBelowFile(fs: Fs, owner: Owners, dirs: Dirs, d: seq<Byte>, source: Path, dest: Path,
                                         status: Status, fs': Fs, d': seq<Byte>)
    requires Image(fs, owner, dirs) && DirsHold(d, fs.blockUsed, dirs)
    requires IsPath(source) && IsPath(dest) && BelowFile(fs, dirs, dest)
    requires Resolve(fs, dirs, source).Some? && Resolve(fs, dirs, source).value.fileType != EXT2_FT_DIR
    ensures LinkCheck(fs, dirs, source, dest) == Success
    ensures DestinationOk(fs, d, dirs, dest) && LinkStep(fs, d, dirs, source, dest, status, fs', d') ==>
              (WellFormed(fs', d') <==>
                 NothingPut(fs, d, Resolve(fs, dirs, dest[..|dest| - 1]).value.inode, Last(dest)))
  {
    BelowFileChecks(fs, owner, dirs, source, dest);
    if DestinationOk(fs, d, dirs, dest) && LinkStep(fs, d, dirs, source, dest, status, fs', d') {
      var dirs' := LinkKeeps(fs, owner, dirs, d, source, dest, status, fs', d');
    }
  }

  /** The same for ln -s: it is not refused, and leaves a well-formed image only if there is no inode to be had. */
  lemma {:induction false} SymlinkBelowFile(fs: Fs, owner: Owners, dirs: Dirs, d: seq<Byte>, source: Path, dest: Path,
                                            text: Name, status: Status, fs': Fs, d': seq<Byte>)
    requires Image(fs, owner, dirs) && DirsHold(d, fs.blockUsed, dirs)
    requires IsPath(source) && IsPath(dest) && BelowFile(fs, dirs, dest)
    requires Resolve(fs, dirs, source).Some? && Resolve(fs, dirs, source).value.fileType != EXT2_FT_DIR
    ensures LinkCheck(fs, dirs, source, dest) == Success
    ensures DestinationOk(fs, d, dirs, dest) && SymlinkStep(fs, d, dirs, source, dest, text, status, fs', d') ==>
              (WellFormed(fs', d') <==> fs.freeInodes.super == 0)
  {
    BelowFileChecks(fs, owner, dirs, source, dest);
    if DestinationOk(fs, d, dirs, dest) && SymlinkStep(fs, d, dirs, source, dest, text, status, fs', d') {
      var dirs' := SymlinkKeeps(fs, owner, dirs, d, source, dest, text, status, fs', d');
    }
  }

  // ---------------------------------------------------------------- rm, all in all

  lemma {:induction false} RemoveDone(fs: Fs, owner: Owners, dirs: Dirs, path: Path, a: nat, x: nat, fs': Fs,
                                      dirs': Dirs)
    requires Image(fs, owner, dirs) && IsPath(path) && Parent(fs, dirs, path) == Some(a)
    requires Resolve(fs, dirs, path).Some? && Resolve(fs, dirs, path).value.inode == x
    requires Rebound(fs, dirs, fs', dirs', a, Last(path)) && Lookup(fs', dirs', a, Last(path)) == None
    requires fs'.InUse(x) == (NameCount(dirs', x, |fs.blockUsed|) > 0)
    ensures Done(fs, dirs, Remove(path), fs', dirs')
  {
    var r := PathRebound(fs, owner, dirs, fs', dirs', a, path);
  }

  lemma {:induction false} RemoveTreeKeeps(fs: Fs, owner: Owners, dirs: Dirs, path: Path, status: Status, fs': Fs,
                                           dirs': Dirs)
    requires Image(fs, owner, dirs) && IsPath(path) && RemoveTree(fs, dirs, path, status, fs', dirs')
    ensures Shaped(fs') && (if Harmless(fs, [], dirs, Remove(path)) then Sound(fs', dirs') else Spoilt(fs'))
    ensures Sound(fs', dirs') ==> if status == Success then Done(fs, dirs, Remove(path), fs', dirs')
            else (fs', dirs') == (fs, dirs)
  {
    if status == Success {
      ResolveLive(fs, owner, dirs, path);
      var a, x := Parent(fs, dirs, path).value, Resolve(fs, dirs, path).value.inode;
      if EmptiesReserved(fs, dirs, a, Last(path)) {
        RemovedLost(fs, owner, dirs, a, x, Last(path));
      } else {
        RemovedImage(fs, owner, dirs, a, x, Last(path));
        RemoveDone(fs, owner, dirs, path, a, x, fs', dirs');
      }
    }
  }

  lemma {:induction false} RemoveKeeps(fs: Fs, owner: Owners, dirs: Dirs, d: seq<Byte>, path: Path, status: Status,
                                       fs': Fs, d': seq<Byte>) returns (dirs': Dirs)
    requires Image(fs, owner, dirs) && IsPath(path) && RemoveStep(fs, d, dirs, path, status, fs', d')
    ensures Shaped(fs') && (WellFormed(fs', d') <==> Harmless(fs, d, dirs, Remove(path)))
    ensures WellFormed(fs', d') ==>
              && Reading(fs', d', dirs')
              && if status == Success then Done(fs, dirs, Remove(path), fs', dirs')
                 else (fs', d', dirs') == (fs, d, dirs)
  {
    dirs' :| RemoveTree(fs, dirs, path, status, fs', dirs') && DirsHold(d', fs'.blockUsed, dirs');
    RemoveTreeKeeps(fs, owner, dirs, path, status, fs', dirs');
    if Harmless(fs, d, dirs, Remove(path)) {
      IsWellFormed(fs', d', dirs');
    } else {
      SpoiltIsIll(fs', d');
    }
  }

  // ---------------------------------------------------------------- any run of commands

  /** A command leaves a well-formed image exactly when it is harmless; then it has either done what it
      is for, or changed nothing. */
  lemma {:induction false} StepKeeps(fs: Fs, d: seq<Byte>, dirs: Dirs, c: Command, status: Status, fs': Fs,
                                     d': seq<Byte>) returns (dirs': Dirs)
    requires Shaped(fs) && Reading(fs, d, dirs) && Fits(fs, d, dirs, c) && Step(fs, d, dirs, c, status, fs', d')
    ensures Shaped(fs') && (WellFormed(fs', d') <==> Harmless(fs, d, dirs, c))
    ensures Harmless(fs, d, dirs, c) ==>
              && Reading(fs', d', dirs')
              && if status == Success then Done(fs, dirs, c, fs', dirs') else (fs', d', dirs') == (fs, d, dirs)
  {
    var owner :| Image(fs, owner, dirs);
    match c
    case Link(source, dest) => dirs' := LinkKeeps(fs, owner, dirs, d, source, dest, status, fs', d');
    case Symlink(source, dest, text) =>
      dirs' := SymlinkKeeps(fs, owner, dirs, d, source, dest, text, status, fs', d');
    case Remove(path) => dirs' := RemoveKeeps(fs, owner, dirs, d, path, status, fs', d');
  }

  datatype State = State(fs: Fs, d: seq<Byte>)

  /** With these directories the command leads from s to s', and is harmless. */
  ghost predicate AdvancesFrom(s: State, dirs: Dirs, c: Command, s': State) {
    && Shaped(s.fs) && Fits(s.fs, s.d, dirs, c) && Harmless(s.fs, s.d, dirs, c)
    && exists status :: Step(s.fs, s.d, dirs, c, status, s'.fs, s'.d)
  }

  /** The command leads from s to s', and is harmless, with the directories that s has. */
  ghost predicate Advances(s: State, c: Command, s': State) {
    forall dirs {:trigger Reading(s.fs, s.d, dirs)} :: Reading(s.fs, s.d, dirs) ==> AdvancesFrom(s, dirs, c, s')
  }

  ghost predicate IsRun(s: State, cs: seq<Command>, s': State)
    decreases |cs|
  {
    if cs == [] then s' == s
    else
      var init, c := cs[..|cs| - 1], cs[|cs| - 1];
      exists s1 :: IsRun(s, init, s1) && Advances(s1, c, s')
  }

  /** The link count of every file is the number of its names, and is not 0. */
  ghost predicate LinksAreNames(fs: Fs, dirs: Dirs) {
    forall x {:trigger LiveFile(fs, x)} :: LiveFile(fs, x) ==>
      fs.inodes[x - 1].links == NameCount(dirs, x, |fs.blockUsed|) && fs.inodes[x - 1].links > 0
  }

  lemma ImageCounts(fs: Fs, owner: Owners, dirs: Dirs)
    requires Image(fs, owner, dirs)
    ensures LinksAreNames(fs, dirs)
  {
    forall x | LiveFile(fs, x) ensures fs.inodes[x - 1].links == NameCount(dirs, x, |fs.blockUsed|)
        && fs.inodes[x - 1].links > 0 {
      assert LinkOk(fs, dirs, 0, 0, x);
    }
  }

  /** Through any run, the image stays well formed, and in particular every link count is right. */
  lemma {:induction false} RunKeeps(s: State, cs: seq<Command>, s': State) returns (dirs': Dirs)
    requires WellFormed(s.fs, s.d) && IsRun(s, cs, s')
    ensures WellFormed(s'.fs, s'.d) && Reading(s'.fs, s'.d, dirs') && LinksAreNames(s'.fs, dirs')
    decreases |cs|
  {
    if cs == [] {
      var owner: Owners, dirs: Dirs :| Image(s.fs, owner, dirs) && DirsHold(s.d, s.fs.blockUsed, dirs);
      assert Sound(s.fs, dirs);
      dirs' := dirs;
    } else {
      var init, c := cs[..|cs| - 1], cs[|cs| - 1];
      var s1 :| IsRun(s, init, s1) && Advances(s1, c, s');
      var dirs := RunKeeps(s, init, s1);
      assert AdvancesFrom(s1, dirs, c, s');
      var status :| Step(s1.fs, s1.d, dirs, c, status, s'.fs, s'.d);
      dirs' := StepKeeps(s1.fs, s1.d, dirs, c, status, s'.fs, s'.d);
    }
    var owner' :| Image(s'.fs, owner', dirs');
    ImageCounts(s'.fs, owner', dirs');
  }
}
