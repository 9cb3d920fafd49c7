/** rm of the destination takes back what ln or ln -s has done (a3/ext2_rm.c against a3/ext2_ln.c). */
module Undoing {
  // A deletion merges an entry into the one before, and so gives back the record that the insertion split.  What is
  // not given back is a block of the directory in which no entry had a name: rm frees it, as it frees every block
  // that has become empty.

  import opened Dirents
  import opened DirBlocks
  import opened DirMaps
  import opened FileSystems
  import opened Disks
  import opened Links
  import opened LinkCounts
  import opened Trees
  import opened Readings
  import opened Placements
  import opened Commands
  import opened Runs

  // ---------------------------------------------------------------- in a block

  lemma MergedParts(es: seq<Dirent>, k: nat, e: Dirent, f: Dirent, es': seq<Dirent>)
    requires k < |es| && es' == es[..k] + [e, f] + es[k + 1..] && es[k] == e.(recLen := e.recLen + f.recLen)
    ensures Deleted(es', k + 1) == es
  {
    assert es'[..k] == es[..k] && es'[k] == e && es'[k + 1] == f && es'[k + 2..] == es[k + 1..];
    assert es == es[..k] + [es[k]] + es[k + 1..];
  }

  lemma InsertedName(es: seq<Dirent>, k: nat, e: Dirent, f: Dirent, es': seq<Dirent>)
    requires k < |es| && es' == es[..k] + [e, f] + es[k + 1..] && e.name == es[k].name
             && FirstNamed(es, f.name) == |es|
    ensures FirstNamed(es', f.name) == k + 1
  {
    forall i | 0 <= i <= k ensures es'[i].name != f.name {
      assert es'[i].name == es[i].name;
    }
    FirstNamedIs(es', f.name, k + 1);
  }

  /** An entry that is inserted and deleted leaves the chain as it was. */
  lemma InsertedBack(es: seq<Dirent>, k: nat, inode: int, name: Name, fileType: Byte)
    requires k < |es| && es[k].recLen >= MinRecLen(es[k]) && FirstNamed(es, name) == |es|
    ensures FirstNamed(Inserted(es, k, inode, name, fileType), name) == k + 1
    ensures Deleted(Inserted(es, k, inode, name, fileType), k + 1) == es
  {
    var e, f := es[k].(recLen := MinRecLen(es[k])), Added(es[k], inode, name, fileType);
    InsertedName(es, k, e, f, Inserted(es, k, inode, name, fileType));
    MergedParts(es, k, e, f, Inserted(es, k, inode, name, fileType));
  }

  // ---------------------------------------------------------------- in a directory

  /** The name would go into a block in which no entry has a name. */
  ghost predicate FillsEmpty(fs: Fs, dirs: Dirs, a: nat, name: Name)
    requires Shaped(fs) && 1 <= a <= |fs.inodes|
  {
    var s := Slots(fs, a);
    var j := RoomySlot(s, dirs, TotalEntryLength(|name|), 0);
    j < INDIRECT1_INDEX && IsEmpty(dirs[s[j]])
  }

  lemma NamedSlotIs(s: seq<int>, dirs: Dirs, name: Name, j: nat)
    requires j < |s| && HasNamed(dirs, s[j], name) && forall i :: 0 <= i < j ==> !HasNamed(dirs, s[i], name)
    ensures NamedSlot(s, dirs, name, 0) == j
  {
  }

  lemma SlotsApart(fs: Fs, owner: Owners, a: nat, i: nat, j: nat)
    requires Consistent(fs, owner) && fs.InUse(a) && a <= |fs.inodes| && i < j < INDIRECT1_INDEX
    ensures Slots(fs, a)[i] != 0 ==> Slots(fs, a)[i] != Slots(fs, a)[j]
  {
    assert SlotOk(fs, owner, a, i) && SlotOk(fs, owner, a, j);
  }

  /** The name is found in the block that it went to. */
  lemma {:induction false} FoundInserted(fs: Fs, owner: Owners, dirs: Dirs, a: nat, j: nat, es: seq<Dirent>, name: Name)
    requires Consistent(fs, owner) && LiveDirectory(fs, a) && j < INDIRECT1_INDEX && Slots(fs, a)[j] in dirs
    requires 0 !in dirs && name != [] && Lookup(fs, dirs, a, name) == None && FirstNamed(es, name) < |es|
    ensures NamedSlot(Slots(fs, a), dirs[Slots(fs, a)[j] := es], name, 0) == j
    ensures !HasNamed(dirs, Slots(fs, a)[j], name)
  {
    var s, dirs1 := Slots(fs, a), dirs[Slots(fs, a)[j] := es];
    SearchIsLookup(fs, dirs, a, name);
    assert !HasNamed(dirs, s[j], name);
    forall i | 0 <= i < j ensures !HasNamed(dirs1, s[i], name) {
      SlotsApart(fs, owner, a, i, j);
      assert !HasNamed(dirs, s[i], name);
    }
    NamedSlotIs(s, dirs1, name, j);
  }

  /** What deleting a name from a known place does. */
  lemma DeletedFrom(fs: Fs, dirs: Dirs, a: nat, j: nat, k: nat, name: Name, es: seq<Dirent>)
    requires Shaped(fs) && 1 <= a <= |fs.inodes| && DirsInRange(dirs, |fs.blockUsed|) && j < INDIRECT1_INDEX
    requires NamedSlot(Slots(fs, a), dirs, name, 0) == j && Slots(fs, a)[j] in dirs
             && FirstNamed(dirs[Slots(fs, a)[j]], name) == k < |dirs[Slots(fs, a)[j]]|
             && Deleted(dirs[Slots(fs, a)[j]], k) == es
    ensures EmptiesReserved(fs, dirs, a, name) <==> Slots(fs, a)[j] <= LAST_RESERVED_BLOCK && IsEmpty(es)
    ensures !IsEmpty(es) ==> EntryDeleted(fs, dirs, a, name) == (fs, dirs[Slots(fs, a)[j] := es])
  {
  }

  /** An entry put into an existing block of the directory. */
  lemma {:induction false} InsertedEntryBack(fs: Fs, owner: Owners, dirs: Dirs, a: nat, x: int, name: Name,
                                             fileType: Byte)
    requires Consistent(fs, owner) && LiveDirectory(fs, a) && IsDirInode(fs, dirs, a) && 0 !in dirs
             && DirsInRange(dirs, |fs.blockUsed|)
    requires HasRoomFor(fs, dirs, a, name) && name != [] && Lookup(fs, dirs, a, name) == None
    ensures var (fs1, dirs1) := EntryMade(fs, dirs, a, x, name, fileType);
            var n := Slots(fs, a)[RoomySlot(Slots(fs, a), dirs, TotalEntryLength(|name|), 0)];
            && fs1 == fs && DirsInRange(dirs1, |fs1.blockUsed|)
            && (EmptiesReserved(fs1, dirs1, a, name) <==> n <= LAST_RESERVED_BLOCK && IsEmpty(dirs[n]))
            && (!IsEmpty(dirs[n]) ==> EntryDeleted(fs1, dirs1, a, name) == (fs, dirs))
  {
    var s, needed := Slots(fs, a), TotalEntryLength(|name|);
    var j := RoomySlot(s, dirs, needed, 0);
    var n, k := s[j], FirstFit(dirs[s[j]], needed);
    var es' := Inserted(dirs[n], k, x, name, fileType);
    assert EntryMade(fs, dirs, a, x, name, fileType) == (fs, dirs[n := es']);
    SearchIsLookup(fs, dirs, a, name);
    assert !HasNamed(dirs, n, name);
    InsertedBack(dirs[n], k, x, name, fileType);
    FoundInserted(fs, owner, dirs, a, j, es', name);
    DeletedFrom(fs, dirs[n := es'], a, j, k + 1, name, dirs[n]);
    assert dirs[n := es'][n := dirs[n]] == dirs;
  }

  /** An entry put into a new block. */
  lemma {:induction false} GrownEntryBack(fs: Fs, owner: Owners, dirs: Dirs, a: nat, x: int, name: Name,
                                          fileType: Byte)
    requires Consistent(fs, owner) && LiveDirectory(fs, a) && IsDirInode(fs, dirs, a) && 0 !in dirs
             && DirsInRange(dirs, |fs.blockUsed|) && DirBlocksOk(fs, owner, dirs)
    requires !HasRoomFor(fs, dirs, a, name) && CanGrow(fs, a) && LAST_RESERVED_BLOCK < NextBlock(fs) <= |fs.blockUsed|
             && !fs.blockUsed[NextBlock(fs) - 1]
    requires name != [] && Lookup(fs, dirs, a, name) == None
    ensures var (fs1, dirs1) := EntryMade(fs, dirs, a, x, name, fileType);
            && DirsInRange(dirs1, |fs1.blockUsed|) && !EmptiesReserved(fs1, dirs1, a, name)
            && EntryDeleted(fs1, dirs1, a, name) == (fs, dirs)
  {
    var s, i, n := Slots(fs, a), EmptySlot(Slots(fs, a), 0), NextBlock(fs);
    var (fs1, dirs1) := EntryMade(fs, dirs, a, x, name, fileType);
    var e := Dirent(x, BLOCK_SIZE, name, fileType);
    assert DirBlockOk(fs, owner, dirs, n) && OwnerOk(fs, owner, n) && BitOk(fs, owner, n);
    assert Slots(fs1, a) == s[i := n] && dirs1 == dirs[n := [e]];
    SearchIsLookup(fs, dirs, a, name);
    var s1 := s[i := n];
    forall m | 0 <= m < i ensures !HasNamed(dirs1, s1[m], name) {
      assert SlotOk(fs, owner, a, m);
      assert !HasNamed(dirs, s[m], name);
    }
    NamedSlotIs(s1, dirs1, name, i);
    assert Deleted([e], 0) == [e.(name := [])];
    AttachedBack(fs, a, i);
    assert dirs1 - {n} == dirs;
  }

  /** A block that is allocated and freed leaves all as it was. */
  lemma AttachedBack(fs: Fs, a: nat, i: nat)
    requires Shaped(fs) && 1 <= a <= |fs.inodes| && i < INDIRECT1_INDEX && Slots(fs, a)[i] == 0
    requires NextBlock(fs) <= |fs.blockUsed| && !fs.blockUsed[NextBlock(fs) - 1]
    ensures BlockNumber(Attached(fs, a, i), a, i) == NextBlock(fs) && Detached(Attached(fs, a, i), a, i) == fs
  {
    var fs' := Detached(Attached(fs, a, i), a, i);
    assert fs'.blockUsed == fs.blockUsed;
    assert fs'.inodes[a - 1].block == fs.inodes[a - 1].block;
    assert fs'.inodes == fs.inodes;
  }

  /** The block that the name went to is a reserved one in which no other entry has a name. */
  ghost predicate FillsReserved(fs: Fs, dirs: Dirs, a: nat, name: Name)
    requires Shaped(fs) && 1 <= a <= |fs.inodes|
  {
    var s := Slots(fs, a);
    FillsEmpty(fs, dirs, a, name)
      && s[RoomySlot(s, dirs, TotalEntryLength(|name|), 0)] <= LAST_RESERVED_BLOCK
  }

  /** What make_entry_in_inode has done, delete_child_entry takes back. */
  lemma {:induction false} EntryBack(fs: Fs, owner: Owners, dirs: Dirs, a: nat, x: int, name: Name, fileType: Byte)
    requires Consistent(fs, owner) && LiveDirectory(fs, a) && DirsInRange(dirs, |fs.blockUsed|)
             && DirBlocksOk(fs, owner, dirs)
    requires Fitting(fs, dirs, a, name, fs.freeBlocks.super) && name != [] && Lookup(fs, dirs, a, name) == None
    ensures Placeable(fs, dirs, a, name)
    ensures var (fs1, dirs1) := EntryMade(fs, dirs, a, x, name, fileType);
            && Shaped(fs1) && a <= |fs1.inodes| && DirsInRange(dirs1, |fs1.blockUsed|)
            && (EmptiesReserved(fs1, dirs1, a, name) <==> FillsReserved(fs, dirs, a, name))
            && (!FillsEmpty(fs, dirs, a, name) ==> EntryDeleted(fs1, dirs1, a, name) == (fs, dirs))
  {
    DirectoryBlocks(fs, owner, dirs, a);
    if HasRoomFor(fs, dirs, a, name) {
      InsertedEntryBack(fs, owner, dirs, a, x, name, fileType);
    } else {
      BlockAvailable(fs, owner);
      GrownEntryBack(fs, owner, dirs, a, x, name, fileType);
    }
  }

  // ---------------------------------------------------------------- ln and rm

  /** The link count of a file does not matter for the deletion of a name. */
  lemma DeletedRelinked(fs: Fs, dirs: Dirs, a: nat, x: nat, k: int, name: Name)
    requires Shaped(fs) && 1 <= a <= |fs.inodes| && 1 <= x <= |fs.inodes| && x != a && DirsInRange(dirs, |fs.blockUsed|)
    ensures EmptiesReserved(Relinked(fs, x, k), dirs, a, name) == EmptiesReserved(fs, dirs, a, name)
    ensures var (fs1, dirs1) := EntryDeleted(fs, dirs, a, name);
            && Shaped(fs1) && |fs1.inodes| == |fs.inodes|
            && EntryDeleted(Relinked(fs, x, k), dirs, a, name) == (Relinked(fs1, x, k), dirs1)
  {
    var fs', s := Relinked(fs, x, k), Slots(fs, a);
    assert Slots(fs', a) == s;
    var i := NamedSlot(s, dirs, name, 0);
    if i < INDIRECT1_INDEX {
      assert Detached(fs', a, i).inodes == Relinked(Detached(fs, a, i), x, k).inodes;
    }
  }

  lemma RelinkedTwice(fs: Fs, x: nat, k: int)
    requires Shaped(fs) && 1 <= x <= |fs.inodes|
    ensures Relinked(Relinked(fs, x, k), x, fs.inodes[x - 1].links) == fs
  {
    var fs' := Relinked(Relinked(fs, x, k), x, fs.inodes[x - 1].links);
    assert fs'.inodes == fs.inodes;
  }

  /** One link more and one less. */
  lemma {:induction false} LinkTakenBack(fs: Fs, x: nat)
    requires Shaped(fs) && 1 <= x <= |fs.inodes| && SlotsInRange(fs, x) && fs.inodes[x - 1].links > 0
    ensures var fs1 := Relinked(fs, x, fs.inodes[x - 1].links + 1);
            SlotsInRange(fs1, x) && Unlinked(fs1, x) == fs
  {
    var k := fs.inodes[x - 1].links;
    RelinkedTwice(fs, x, k + 1);
    UnlinkedIs(Relinked(fs, x, k + 1), x, fs);
  }

  lemma {:induction false} RelinkedBack(fs: Fs, dirs: Dirs, fs0: Fs, dirs1: Dirs, a: nat, x: nat, name: Name)
    requires Shaped(fs) && 1 <= x <= |fs.inodes| && SlotsInRange(fs, x) && fs.inodes[x - 1].links > 0 && x != a
    requires Shaped(fs0) && 1 <= a <= |fs0.inodes| && x <= |fs0.inodes| && DirsInRange(dirs1, |fs0.blockUsed|)
             && SlotsInRange(fs0, x)
    requires EntryDeleted(fs0, dirs1, a, name) == (fs, dirs)
    ensures Removed(Relinked(fs0, x, fs.inodes[x - 1].links + 1), dirs1, a, x, name) == (fs, dirs)
  {
    var k := fs.inodes[x - 1].links;
    DeletedRelinked(fs0, dirs1, a, x, k + 1, name);
    RemovedIs(Relinked(fs0, x, k + 1), dirs1, a, x, name);
    LinkTakenBack(fs, x);
  }

  /** What a hard link leaves of a file: its blocks, and its links but for the one. */
  lemma {:induction false} HardLinkParts(fs: Fs, owner: Owners, dirs: Dirs, a: nat, x: nat, name: Name)
    requires Image(fs, owner, dirs) && LiveDirectory(fs, a) && LiveFile(fs, x) && Placeable(fs, dirs, a, name)
    ensures var fs0 := EntryMade(fs, dirs, a, x, name, EXT2_FT_REG_FILE).0;
            && Shaped(fs0) && a <= |fs0.inodes| && x <= |fs0.inodes| && SlotsInRange(fs, x) && SlotsInRange(fs0, x)
            && fs.inodes[x - 1].links > 0 && x != a
            && HardLinked(fs, dirs, a, x, name) ==
               (Relinked(fs0, x, fs.inodes[x - 1].links + 1), EntryMade(fs, dirs, a, x, name, EXT2_FT_REG_FILE).1)
  {
    EntryMadeSame(fs, dirs, a, x, name, EXT2_FT_REG_FILE);
    var fs0 := EntryMade(fs, dirs, a, x, name, EXT2_FT_REG_FILE).0;
    DirectorySame(fs, fs0, a, x);
    SlotsAreInRange(fs, owner, x);
    assert fs0.inodes[x - 1].block == fs.inodes[x - 1].block;
    assert LinkOk(fs, dirs, 0, 0, x);
  }

  /** rm of a hard link gives back the inodes, the bitmaps, the counters and the directories. */
  lemma {:induction false} HardLinkBack(fs: Fs, owner: Owners, dirs: Dirs, a: nat, x: nat, name: Name)
    requires Image(fs, owner, dirs) && LiveDirectory(fs, a) && LiveFile(fs, x)
    requires Fitting(fs, dirs, a, name, fs.freeBlocks.super) && name != [] && Lookup(fs, dirs, a, name) == None
    ensures Placeable(fs, dirs, a, name)
    ensures var (fs1, dirs1) := HardLinked(fs, dirs, a, x, name);
            && Shaped(fs1) && a <= |fs1.inodes| && x <= |fs1.inodes| && x != a && DirsInRange(dirs1, |fs1.blockUsed|)
            && (EmptiesReserved(fs1, dirs1, a, name) <==> FillsReserved(fs, dirs, a, name))
            && SlotsInRange(fs1, x)
            && (!FillsEmpty(fs, dirs, a, name) ==> Removed(fs1, dirs1, a, x, name) == (fs, dirs))
  {
    EntryBack(fs, owner, dirs, a, x, name, EXT2_FT_REG_FILE);
    HardLinkParts(fs, owner, dirs, a, x, name);
    var (fs0, dirs1) := EntryMade(fs, dirs, a, x, name, EXT2_FT_REG_FILE);
    DeletedRelinked(fs0, dirs1, a, x, fs.inodes[x - 1].links + 1, name);
    if !FillsEmpty(fs, dirs, a, name) {
      RelinkedBack(fs, dirs, fs0, dirs1, a, x, name);
    }
  }

  // ---------------------------------------------------------------- ln -s and rm

  lemma {:induction false} SlotsFreedOne(fs: Fs, a: nat, i: nat)
    requires Shaped(fs) && 1 <= a <= |fs.inodes| && 1 <= i <= INDIRECT1_INDEX && SlotsInRange(fs, a)
    requires forall j :: 1 <= j < i ==> Slots(fs, a)[j] == 0
    ensures SlotsFreed(fs, a, i) == SlotFreed(fs, a, 0)
    decreases i
  {
    if i > 1 {
      assert SlotFreed(fs, a, i - 1) == fs;
      SlotsFreedOne(fs, a, i - 1);
    } else {
      assert SlotsFreed(SlotFreed(fs, a, 0), a, 0) == SlotFreed(fs, a, 0);
    }
  }

  lemma {:induction false} InodeFreedOne(fs: Fs, x: nat)
    requires Shaped(fs) && 1 <= x <= |fs.inodes| && SlotsInRange(fs, x)
    requires forall j :: 1 <= j < INDIRECT1_INDEX ==> Slots(fs, x)[j] == 0
    ensures SlotsInRange(InodeMarked(fs, x, false), x)
    ensures InodeFreed(fs, x) == SlotFreed(InodeMarked(fs, x, false), x, 0)
  {
    SlotsFreedOne(InodeMarked(fs, x, false), x, |Slots(fs, x)|);
  }

  /** Inode x is as an inode that has been freed is left: no links, and no blocks. */
  function Forgotten(fs: Fs, x: nat): Fs
    requires Shaped(fs) && 1 <= x <= |fs.inodes|
  {
    fs.(inodes := fs.inodes[x - 1 := Inode(false, 0, NoBlocks())])
  }

  lemma {:induction false} SymlinkFreed(fs: Fs, fs2: Fs, x: nat)
    requires Shaped(fs) && x == NextInode(fs) <= |fs.inodes| && !fs.InUse(x)
    requires NextBlock(SymlinkTaken(fs)) <= |fs.blockUsed| && !fs.blockUsed[NextBlock(fs) - 1]
    requires fs2 == SymlinkFilled(fs)
    ensures SlotsInRange(fs2, x) && fs2.inodes[x - 1].links == 1 && Unlinked(fs2, x) == Forgotten(fs, x)
  {
    var n := NextBlock(fs);
    assert Slots(fs2, x) == NoBlocks()[0 := n];
    var g := Relinked(fs2, x, 0);
    InodeFreedOne(g, x);
    UnlinkedIs(fs2, x, g);
    SlotForgotten(fs, g, x, n);
  }

  lemma SlotForgotten(fs: Fs, g: Fs, x: nat, n: nat)
    requires Shaped(fs) && 1 <= x <= |fs.inodes| && !fs.InUse(x) && 1 <= n <= |fs.blockUsed| && !fs.blockUsed[n - 1]
    requires Shaped(g) && g.inodes == fs.inodes[x - 1 := Inode(false, 0, NoBlocks()[0 := n])]
    requires g.inodeUsed == fs.inodeUsed[x - 1 := true] && g.blockUsed == fs.blockUsed[n - 1 := true]
    requires g.freeBlocks == Increased(fs.freeBlocks, -1) && g.freeInodes == Increased(fs.freeInodes, -1)
    requires SlotsInRange(InodeMarked(g, x, false), x)
    ensures SlotFreed(InodeMarked(g, x, false), x, 0) == Forgotten(fs, x)
  {
    var h := SlotFreed(InodeMarked(g, x, false), x, 0);
    assert h.blockUsed == fs.blockUsed && h.inodeUsed == fs.inodeUsed;
    assert h.inodes[x - 1].block == NoBlocks();
    assert h.inodes == Forgotten(fs, x).inodes;
  }

  /** The name of a symbolic link, made and deleted. */
  lemma {:induction false} SymlinkNameBack(fs: Fs, owner: Owners, dirs: Dirs, a: nat, name: Name, fs2: Fs, x: nat)
    requires Image(fs, owner, dirs) && LiveDirectory(fs, a) && fs.freeInodes.super > 0 && fs.freeBlocks.super > 0
    requires Fitting(fs, dirs, a, name, fs.freeBlocks.super - 1) && name != [] && Lookup(fs, dirs, a, name) == None
    requires x == NextInode(fs) <= |fs.inodes| && NextBlock(SymlinkTaken(fs)) <= |fs.blockUsed|
             && fs2 == SymlinkFilled(fs)
    ensures Placeable(fs2, dirs, a, name) && x != a && LiveFile(fs2, x)
    ensures var (fs1, dirs1) := EntryMade(fs2, dirs, a, x, name, EXT2_FT_SYMLINK);
            && Shaped(fs1) && a <= |fs1.inodes| && x <= |fs1.inodes| && DirsInRange(dirs1, |fs1.blockUsed|)
            && (EmptiesReserved(fs1, dirs1, a, name) <==> FillsReserved(fs, dirs, a, name))
            && (!FillsEmpty(fs, dirs, a, name) ==> EntryDeleted(fs1, dirs1, a, name) == (fs2, dirs))
  {
    SymlinkFilledImage(fs, owner, dirs, a);
    var owner2 := owner[NextBlock(SymlinkTaken(fs)) := (x, 0)];
    FilledFits(fs, dirs, a, name);
    EntryBack(fs2, owner2, dirs, a, x, name, EXT2_FT_SYMLINK);
    EntryMadeSame(fs2, dirs, a, x, name, EXT2_FT_SYMLINK);
  }

  /** rm of a symbolic link gives back all but what the free inode holds. */
  lemma {:induction false} SymlinkBack(fs: Fs, owner: Owners, dirs: Dirs, a: nat, name: Name, x: nat)
    requires Image(fs, owner, dirs) && LiveDirectory(fs, a) && fs.freeInodes.super > 0 && fs.freeBlocks.super > 0
    requires Fitting(fs, dirs, a, name, fs.freeBlocks.super - 1) && name != [] && Lookup(fs, dirs, a, name) == None
    requires x == NextInode(fs) <= |fs.inodes| && NextBlock(SymlinkTaken(fs)) <= |fs.blockUsed|
    ensures Placeable(SymlinkFilled(fs), dirs, a, name) && x != a
    ensures var (fs1, dirs1) := EntryMade(SymlinkFilled(fs), dirs, a, x, name, EXT2_FT_SYMLINK);
            && Shaped(fs1) && a <= |fs1.inodes| && x <= |fs1.inodes| && DirsInRange(dirs1, |fs1.blockUsed|)
            && (EmptiesReserved(fs1, dirs1, a, name) <==> FillsReserved(fs, dirs, a, name))
            && (!FillsEmpty(fs, dirs, a, name) && SlotsInRange(fs1, x) ==>
                  Removed(fs1, dirs1, a, x, name) == (Forgotten(fs, x), dirs))
  {
    var fs2 := SymlinkFilled(fs);
    SymlinkNameBack(fs, owner, dirs, a, name, fs2, x);
    var (fs1, dirs1) := EntryMade(fs2, dirs, a, x, name, EXT2_FT_SYMLINK);
    if !FillsEmpty(fs, dirs, a, name) && SlotsInRange(fs1, x) {
      RemovedIs(fs1, dirs1, a, x, name);
      InodeAvailable(fs, owner);
      BlockAvailable(fs, owner);
      SymlinkFreed(fs, fs2, x);
    }
  }

  // ---------------------------------------------------------------- from the bytes of an image

  /** A harmless ln that succeeds, in detail; its image can be read in no other way. */
  lemma {:induction false} LinkInDetail(fs: Fs, owner: Owners, dirs: Dirs, d: seq<Byte>, source: Path, dest: Path,
                                        fs1: Fs, d1: seq<Byte>, dirs1: Dirs) returns (a: nat, x: nat)
    requires Image(fs, owner, dirs) && DirsHold(d, fs.blockUsed, dirs) && PathsOk(Link(source, dest))
    requires LinkStep(fs, d, dirs, source, dest, Success, fs1, d1) && Harmless(fs, d, dirs, Link(source, dest))
    requires Shaped(fs1) && Reading(fs1, d1, dirs1)
    ensures Parent(fs, dirs, dest) == Some(a) && LiveDirectory(fs, a) && LiveFile(fs, x)
            && Lookup(fs, dirs, a, Last(dest)) == None && Fitting(fs, dirs, a, Last(dest), fs.freeBlocks.super)
    ensures Placeable(fs, dirs, a, Last(dest)) && (fs1, dirs1) == HardLinked(fs, dirs, a, x, Last(dest))
            && Rebound(fs, dirs, fs1, dirs1, a, Last(dest))
            && Lookup(fs1, dirs1, a, Last(dest)) == Some(Target(x, EXT2_FT_REG_FILE))
  {
    var p, y := LinkPasses(fs, dirs, d, source, dest, Success, fs1, d1);
    var p', y' := NewPath(fs, owner, dirs, source, dest);
    a, x := p.inode, y;
    var fs0 :| LinkAdded(fs, d, a, x, Last(dest), fs0, fs1, d1);
    assert p.fileType == EXT2_FT_DIR;
    DirectoryBlocks(fs, owner, dirs, a);
    var dirs2 := HardLinkedBytes(fs, dirs, d, a, x, Last(dest), fs0, fs1, d1);
    HardLinkedImage(fs, owner, dirs, a, x, Last(dest));
    OneReading(fs1, d1, dirs1, OwnerMade(fs, owner, dirs, a, Last(dest)), dirs2);
  }

  lemma OneReading(fs: Fs, d: seq<Byte>, dirs: Dirs, owner': Owners, dirs': Dirs)
    requires Reading(fs, d, dirs) && Image(fs, owner', dirs') && DirsHold(d, fs.blockUsed, dirs')
    ensures dirs' == dirs
  {
    var owner :| Image(fs, owner, dirs);
    SameReading(fs, owner, dirs, d, fs, owner', dirs', d);
  }

  /** A harmless ln -s that succeeds. */
  lemma {:induction false} SymlinkInDetail(fs: Fs, owner: Owners, dirs: Dirs, d: seq<Byte>, source: Path, dest: Path,
                                           text: Name, fs1: Fs, d1: seq<Byte>, dirs1: Dirs) returns (a: nat, x: nat)
    requires Image(fs, owner, dirs) && DirsHold(d, fs.blockUsed, dirs) && PathsOk(Symlink(source, dest, text))
    requires SymlinkStep(fs, d, dirs, source, dest, text, Success, fs1, d1)
             && Harmless(fs, d, dirs, Symlink(source, dest, text))
    requires Shaped(fs1) && Reading(fs1, d1, dirs1)
    ensures Parent(fs, dirs, dest) == Some(a) && LiveDirectory(fs, a)
            && Lookup(fs, dirs, a, Last(dest)) == None && Fitting(fs, dirs, a, Last(dest), fs.freeBlocks.super - 1)
            && fs.freeInodes.super > 0 && fs.freeBlocks.super > 0
    ensures x == NextInode(fs) <= |fs.inodes| && NextBlock(SymlinkTaken(fs)) <= |fs.blockUsed|
    ensures Placeable(SymlinkFilled(fs), dirs, a, Last(dest))
            && (fs1, dirs1) == EntryMade(SymlinkFilled(fs), dirs, a, x, Last(dest), EXT2_FT_SYMLINK)
            && SymlinkMade(fs, dirs, a, x, Last(dest), fs1, dirs1)
  {
    var p := SymlinkPasses(fs, dirs, d, source, dest, text, Success, fs1, d1);
    var p', y' := NewPath(fs, owner, dirs, source, dest);
    a, x := p.inode, NextInode(fs);
    SymlinkFilledImage(fs, owner, dirs, a);
    InodeAvailable(fs, owner);
    FilledFits(fs, dirs, a, Last(dest));
    var n, fs2, owner2 := NextBlock(SymlinkTaken(fs)), SymlinkFilled(fs), owner[NextBlock(SymlinkTaken(fs)) := (x, 0)];
    var d0 :| TextWritten(d, d0, n, text) && SymlinkNamed(fs2, d0, a, x, Last(dest), Success, fs1, d1);
    TextHolds(fs, dirs, d, d0, text);
    DirectoryBlocks(fs2, owner2, dirs, a);
    var dirs2 := SymlinkNamedBytes(fs2, dirs, d0, a, x, Last(dest), Success, fs1, d1);
    SymlinkedImage(fs, dirs, fs2, owner2, a, x, Last(dest));
    OneReading(fs1, d1, dirs1, OwnerMade(fs2, owner2, dirs, a, Last(dest)), dirs2);
  }

  // ---------------------------------------------------------------- all is as it was

  /** The directories are the same, by what they map names to. */
  ghost predicate ViewsBack(fs: Fs, dirs: Dirs, fs': Fs, dirs': Dirs) {
    && Shaped(fs) && Shaped(fs') && |fs'.inodes| == |fs.inodes|
    && forall b {:trigger LiveDirectory(fs', b)} {:trigger LiveDirectory(fs, b)} ::
         && LiveDirectory(fs', b) == LiveDirectory(fs, b)
         && (LiveDirectory(fs, b) ==> DirView(fs', dirs', b) == DirView(fs, dirs, b))
  }

  lemma SameParent(fs: Fs, dirs: Dirs, fs': Fs, dirs': Dirs, path: Path)
    requires Shaped(fs) && Shaped(fs') && |fs'.inodes| == |fs.inodes| && path != []
    requires |path| > 1 ==> Resolve(fs', dirs', path[..|path| - 1]) == Resolve(fs, dirs, path[..|path| - 1])
    ensures Parent(fs', dirs', path) == Parent(fs, dirs, path)
  {
  }

  /** So every path leads where it led. */
  lemma {:induction false} SamePaths(fs: Fs, owner: Owners, dirs: Dirs, fs': Fs, dirs': Dirs, path: Path)
    requires Image(fs, owner, dirs) && ViewsBack(fs, dirs, fs', dirs')
    ensures Resolve(fs', dirs', path) == Resolve(fs, dirs, path)
    decreases |path|
  {
    if path != [] {
      if |path| > 1 {
        SamePaths(fs, owner, dirs, fs', dirs', path[..|path| - 1]);
      }
      SameParent(fs, dirs, fs', dirs', path);
      ResolveLive(fs, owner, dirs, path);
      var p := Parent(fs, dirs, path);
      if p.Some? {
        assert LiveDirectory(fs, p.value);
        assert Lookup(fs', dirs', p.value, path[|path| - 1]) == Lookup(fs, dirs, p.value, path[|path| - 1]);
      }
    }
  }

  /** A name that came and went. */
  lemma {:induction false} ReboundBack(fs: Fs, dirs: Dirs, fs1: Fs, dirs1: Dirs, fs2: Fs, dirs2: Dirs, a: int,
                                       name: Name)
    requires Shaped(fs) && Shaped(fs2)
    requires Rebound(fs, dirs, fs1, dirs1, a, name) && Rebound(fs1, dirs1, fs2, dirs2, a, name)
    requires Lookup(fs, dirs, a, name) == None && Lookup(fs2, dirs2, a, name) == None
    ensures ViewsBack(fs, dirs, fs2, dirs2)
  {
    assert DirView(fs, dirs, a) - {name} == DirView(fs, dirs, a);
    assert DirView(fs2, dirs2, a) - {name} == DirView(fs2, dirs2, a);
    forall b ensures LiveDirectory(fs2, b) == LiveDirectory(fs, b)
        && (LiveDirectory(fs, b) ==> DirView(fs2, dirs2, b) == DirView(fs, dirs, b)) {
      assert LiveDirectory(fs1, b) == LiveDirectory(fs, b);
      assert LiveDirectory(fs2, b) == LiveDirectory(fs1, b);
    }
  }

  // ---------------------------------------------------------------- rm undoes ln

  /** Which inodes are in use after rm. */
  lemma RemovedInodes(fs: Fs, dirs: Dirs, a: nat, x: nat, name: Name)
    requires Shaped(fs) && 1 <= a <= |fs.inodes| && DirsInRange(dirs, |fs.blockUsed|)
    requires 1 <= x <= |fs.inodes| && x != a && SlotsInRange(fs, x)
    ensures Removed(fs, dirs, a, x, name).0.inodeUsed ==
            if fs.inodes[x - 1].links <= 1 then fs.inodeUsed[x - 1 := false] else fs.inodeUsed
  {
    RemovedIs(fs, dirs, a, x, name);
    UnlinkedInodes(EntryDeleted(fs, dirs, a, name).0, x);
  }

  lemma {:induction false} UnlinkedInodes(fs: Fs, x: nat)
    requires Shaped(fs) && 1 <= x <= |fs.inodes| && SlotsInRange(fs, x)
    ensures Unlinked(fs, x).inodeUsed ==
            if fs.inodes[x - 1].links <= 1 then fs.inodeUsed[x - 1 := false] else fs.inodeUsed
  {
    var fs2 := Relinked(fs, x, fs.inodes[x - 1].links - 1);
    UnlinkedIs(fs, x, fs2);
    if fs2.inodes[x - 1].links <= 0 {
      InodeFreedInodes(fs2, x);
    }
  }

  lemma {:induction false} InodeFreedInodes(fs: Fs, x: nat)
    requires Shaped(fs) && 1 <= x <= |fs.inodes| && SlotsInRange(fs, x)
    ensures InodeFreed(fs, x).inodeUsed == fs.inodeUsed[x - 1 := false]
  {
    SlotsFreedSame(InodeMarked(fs, x, false), x, |Slots(fs, x)|);
  }

  /** rm of a path that leads to a file x in directory a: it succeeds, as a step on directories. */
  lemma {:induction false} RemovalOf(fs: Fs, d: seq<Byte>, dirs: Dirs, path: Path, a: nat, x: int, status: Status,
                                     fs': Fs, d': seq<Byte>) returns (dirs': Dirs)
    requires Shaped(fs) && Reading(fs, d, dirs) && IsPath(path) && RemoveStep(fs, d, dirs, path, status, fs', d')
    requires Parent(fs, dirs, path) == Some(a) && Resolve(fs, dirs, path).Some?
             && Resolve(fs, dirs, path).value.fileType != EXT2_FT_DIR && Resolve(fs, dirs, path).value.inode == x
    ensures status == Success && Shaped(fs')
    ensures DirsInRange(dirs, |fs.blockUsed|) && 1 <= x <= |fs.inodes| && x != a && SlotsInRange(fs, x)
            && (fs', dirs') == Removed(fs, dirs, a, x, Last(path))
    ensures WellFormed(fs', d') <==> !EmptiesReserved(fs, dirs, a, Last(path))
    ensures WellFormed(fs', d') ==>
              && Reading(fs', d', dirs') && Rebound(fs, dirs, fs', dirs', a, Last(path))
              && Lookup(fs', dirs', a, Last(path)) == None
  {
    var owner :| Image(fs, owner, dirs);
    dirs' :| RemoveTree(fs, dirs, path, status, fs', dirs') && DirsHold(d', fs'.blockUsed, dirs');
    var dirs2 := RemoveKeeps(fs, owner, dirs, d, path, status, fs', d');
    if WellFormed(fs', d') {
      ResolveLive(fs, owner, dirs, path);
      SearchIsLookup(fs, dirs, a, Last(path));
      RemovedImage(fs, owner, dirs, a, x, Last(path));
    }
  }

  /** Every path leads where it led. */
  ghost predicate PathsBack(fs: Fs, dirs: Dirs, fs': Fs, dirs': Dirs)
    requires Shaped(fs) && Shaped(fs')
  {
    forall path: Path {:trigger Resolve(fs', dirs', path)} :: Resolve(fs', dirs', path) == Resolve(fs, dirs, path)
  }

  lemma {:induction false} CameAndWent(fs: Fs, owner: Owners, dirs: Dirs, fs1: Fs, dirs1: Dirs, fs2: Fs, dirs2: Dirs,
                                       a: int, name: Name)
    requires Image(fs, owner, dirs) && Shaped(fs2)
    requires Rebound(fs, dirs, fs1, dirs1, a, name) && Rebound(fs1, dirs1, fs2, dirs2, a, name)
    requires Lookup(fs, dirs, a, name) == None && Lookup(fs2, dirs2, a, name) == None
    ensures ViewsBack(fs, dirs, fs2, dirs2) && PathsBack(fs, dirs, fs2, dirs2)
  {
    ReboundBack(fs, dirs, fs1, dirs1, fs2, dirs2, a, name);
    forall path: Path ensures Resolve(fs2, dirs2, path) == Resolve(fs, dirs, path) {
      SamePaths(fs, owner, dirs, fs2, dirs2, path);
    }
  }

  lemma InodeCameAndWent(fs: Fs, fs1: Fs, fs2: Fs, x: int)
    requires Shaped(fs) && 1 <= x <= |fs.inodes| && !fs.InUse(x)
    requires fs1.inodeUsed == fs.inodeUsed[x - 1 := true] && fs2.inodeUsed == fs1.inodeUsed[x - 1 := false]
    ensures fs2.inodeUsed == fs.inodeUsed && !fs2.InUse(x)
  {
  }

  /** After a harmless ln, rm of the destination succeeds.  What it leaves is well formed, unless the name had gone into
      a reserved block without any other name; and then every path leads where it led, and the same inodes are in use.
      Unless the name had gone into a block without any other name, even the inodes, bitmaps, counters and
      the entries of all directories are as they were. */
  lemma {:induction false} RemoveUndoesLink(fs: Fs, d: seq<Byte>, dirs: Dirs, source: Path, dest: Path, fs1: Fs,
                                            d1: seq<Byte>, dirs1: Dirs, status: Status, fs2: Fs, d2: seq<Byte>)
      returns (dirs2: Dirs)
    requires Shaped(fs) && Reading(fs, d, dirs) && PathsOk(Link(source, dest))
    requires LinkStep(fs, d, dirs, source, dest, Success, fs1, d1) && Harmless(fs, d, dirs, Link(source, dest))
    requires Shaped(fs1) && Reading(fs1, d1, dirs1) && RemoveStep(fs1, d1, dirs1, dest, status, fs2, d2)
    ensures status == Success && Shaped(fs2) && Parent(fs, dirs, dest).Some?
    ensures WellFormed(fs2, d2) <==> !FillsReserved(fs, dirs, Parent(fs, dirs, dest).value, Last(dest))
    ensures WellFormed(fs2, d2) ==>
              && Reading(fs2, d2, dirs2) && ViewsBack(fs, dirs, fs2, dirs2) && fs2.inodeUsed == fs.inodeUsed
              && PathsBack(fs, dirs, fs2, dirs2)
    ensures !FillsEmpty(fs, dirs, Parent(fs, dirs, dest).value, Last(dest)) ==> (fs2, dirs2) == (fs, dirs)
  {
    var owner :| Image(fs, owner, dirs);
    var a, x := LinkInDetail(fs, owner, dirs, d, source, dest, fs1, d1, dirs1);
    PathsRebound(fs, owner, dirs, fs1, dirs1, a, Last(dest), dest);
    HardLinkBack(fs, owner, dirs, a, x, Last(dest));
    HardLinkParts(fs, owner, dirs, a, x, Last(dest));
    dirs2 := RemovalOf(fs1, d1, dirs1, dest, a, x, status, fs2, d2);
    if WellFormed(fs2, d2) {
      CameAndWent(fs, owner, dirs, fs1, dirs1, fs2, dirs2, a, Last(dest));
      RemovedInodes(fs1, dirs1, a, x, Last(dest));
    }
  }

  /** The same after ln -s; the inode of the symbolic link is free again, and only what it holds has changed. */
  lemma {:induction false} RemoveUndoesSymlink(fs: Fs, d: seq<Byte>, dirs: Dirs, source: Path, dest: Path, text: Name,
                                               fs1: Fs, d1: seq<Byte>, dirs1: Dirs, status: Status, fs2: Fs,
                                               d2: seq<Byte>) returns (dirs2: Dirs)
    requires Shaped(fs) && Reading(fs, d, dirs) && PathsOk(Symlink(source, dest, text))
    requires SymlinkStep(fs, d, dirs, source, dest, text, Success, fs1, d1)
             && Harmless(fs, d, dirs, Symlink(source, dest, text))
    requires Shaped(fs1) && Reading(fs1, d1, dirs1) && RemoveStep(fs1, d1, dirs1, dest, status, fs2, d2)
    ensures status == Success && Shaped(fs2) && Parent(fs, dirs, dest).Some? && NextInode(fs) <= |fs.inodes|
    ensures WellFormed(fs2, d2) <==> !FillsReserved(fs, dirs, Parent(fs, dirs, dest).value, Last(dest))
    ensures WellFormed(fs2, d2) ==>
              && Reading(fs2, d2, dirs2) && ViewsBack(fs, dirs, fs2, dirs2) && fs2.inodeUsed == fs.inodeUsed
              && !fs2.InUse(NextInode(fs))
              && PathsBack(fs, dirs, fs2, dirs2)
    ensures !FillsEmpty(fs, dirs, Parent(fs, dirs, dest).value, Last(dest)) ==>
              (fs2, dirs2) == (Forgotten(fs, NextInode(fs)), dirs)
  {
    var owner :| Image(fs, owner, dirs);
    var a, x := SymlinkInDetail(fs, owner, dirs, d, source, dest, text, fs1, d1, dirs1);
    PathsRebound(fs, owner, dirs, fs1, dirs1, a, Last(dest), dest);
    SymlinkBack(fs, owner, dirs, a, Last(dest), x);
    dirs2 := RemovalOf(fs1, d1, dirs1, dest, a, x, status, fs2, d2);
    if WellFormed(fs2, d2) {
      CameAndWent(fs, owner, dirs, fs1, dirs1, fs2, dirs2, a, Last(dest));
      RemovedInodes(fs1, dirs1, a, x, Last(dest));
      InodeCameAndWent(fs, fs1, fs2, x);
    }
  }
}
