/** The directories of an image as a tree of maps: looking names and paths up, adding and deleting
    names (find_matching_entry, traverse_path, make_entry_in_inode, delete_child_entry in a3/ext2_helper.h). */
module Trees {
  import opened Dirents
  import opened DirBlocks
  import opened DirMaps
  import opened FileSystems
  import opened Disks
  import opened Images
  import opened Links
  const ROOT := 2
  const DOT := [46]

  /** A path, split at the slashes; the first part is ".". */
  type Path = seq<Name>

  // ---------------------------------------------------------------- one directory

  lemma {:induction false} FirstNamedConcat(es: seq<Dirent>, fs: seq<Dirent>, name: Name)
    ensures FirstNamed(es + fs, name) ==
            if FirstNamed(es, name) < |es| then FirstNamed(es, name) else |es| + FirstNamed(fs, name)
  {
    var k := if FirstNamed(es, name) < |es| then FirstNamed(es, name) else |es| + FirstNamed(fs, name);
    FirstNamedIs(es + fs, name, k);
  }

  /** The entry that a search through the blocks of a directory comes to first. */
  ghost function FoundEntry(s: seq<int>, dirs: Dirs, name: Name): (e: Dirent)
    requires NamedSlot(s, dirs, name, 0) < |s|
    ensures e.name == name
  {
    var n := s[NamedSlot(s, dirs, name, 0)];
    dirs[n][FirstNamed(dirs[n], name)]
  }

  /** The search comes to the last slot only if the name is in no other. */
  lemma {:induction false} NamedSlotLast(init: seq<int>, n: int, dirs: Dirs, name: Name, i: nat)
    requires i <= |init|
    ensures var j := NamedSlot(init, dirs, name, i);
            NamedSlot(init + [n], dirs, name, i) == if j < |init| || HasNamed(dirs, n, name) then j else |init| + 1
    decreases |init| - i
  {
    var s := init + [n];
    if i < |init| && !HasNamed(dirs, s[i], name) {
      NamedSlotLast(init, n, dirs, name, i + 1);
    }
  }

  ghost predicate FoundFirst(s: seq<int>, dirs: Dirs, name: Name, all: seq<Dirent>) {
    if NamedSlot(s, dirs, name, 0) < |s|
      then FirstNamed(all, name) < |all| && FoundEntry(s, dirs, name) == all[FirstNamed(all, name)]
    else FirstNamed(all, name) == |all|
  }

  /** One more slot: the search goes on there if it has not come to the name. */
  lemma FoundLast(init: seq<int>, n: int, dirs: Dirs, name: Name, all: seq<Dirent>, es: seq<Dirent>)
    requires FoundFirst(init, dirs, name, all) && es == EntriesIn(dirs, n)
    ensures FoundFirst(init + [n], dirs, name, all + es)
  {
    NamedSlotLast(init, n, dirs, name, 0);
    FirstNamedConcat(all, es, name);
  }

  lemma {:induction false} FoundInListing(s: seq<int>, dirs: Dirs, name: Name)
    ensures FoundFirst(s, dirs, name, Listing(s, dirs))
  {
    if s != [] {
      var init, n := s[..|s| - 1], s[|s| - 1];
      FoundInListing(init, dirs, name);
      assert s == init + [n];
      FoundLast(init, n, dirs, name, Listing(init, dirs), EntriesIn(dirs, n));
    }
  }

  ghost function Lookup(fs: Fs, dirs: Dirs, a: int, name: Name): Option<Target>
    requires Shaped(fs) && 1 <= a <= |fs.inodes|
  {
    if name in DirView(fs, dirs, a) then Some(DirView(fs, dirs, a)[name]) else None
  }

  /** Searching the blocks of a directory for a name is looking it up in the map. */
  lemma SearchIsLookup(fs: Fs, dirs: Dirs, a: int, name: Name)
    requires Shaped(fs) && 1 <= a <= |fs.inodes| && name != []
    ensures Lookup(fs, dirs, a, name) == if NamedSlot(Slots(fs, a), dirs, name, 0) == INDIRECT1_INDEX then None
                                         else Some(TargetOf(FoundEntry(Slots(fs, a), dirs, name)))
  {
    FoundInListing(Slots(fs, a), dirs, name);
    LookupView(Listing(Slots(fs, a), dirs), name);
  }

  // ---------------------------------------------------------------- paths

  /** What a path stands for, following the parts from the root. */
  ghost function Resolve(fs: Fs, dirs: Dirs, path: Path): Option<Target>
    requires Shaped(fs)
    decreases |path|, 1
  {
    if path == [] then None
    else
      match Parent(fs, dirs, path)
      case Some(a) => Lookup(fs, dirs, a, path[|path| - 1])
      case None => None
  }

  /** The directory in which the last part of a path is looked up. */
  ghost function Parent(fs: Fs, dirs: Dirs, path: Path): (a: Option<int>)
    requires Shaped(fs) && path != []
    ensures a.Some? ==> 1 <= a.value <= |fs.inodes|
    decreases |path|, 0
  {
    if |path| == 1 then Some(ROOT)
    else
      match Resolve(fs, dirs, path[..|path| - 1])
      case Some(t) => if t.fileType == EXT2_FT_DIR && 1 <= t.inode <= |fs.inodes| then Some(t.inode) else None
      case None => None
  }

  /** A path with a single part after ".". */
  lemma RootPath(fs: Fs, dirs: Dirs, name: Name)
    requires Shaped(fs) && Lookup(fs, dirs, ROOT, DOT) == Some(Target(ROOT, EXT2_FT_DIR))
    ensures Resolve(fs, dirs, [DOT, name][..1]) == Some(Target(ROOT, EXT2_FT_DIR))
    ensures Parent(fs, dirs, [DOT, name]) == Some(ROOT)
    ensures Resolve(fs, dirs, [DOT, name]) == Lookup(fs, dirs, ROOT, name)
  {
    assert [DOT, name][..1] == [DOT];
    assert Resolve(fs, dirs, [DOT]) == Some(Target(ROOT, EXT2_FT_DIR));
  }

  // ---------------------------------------------------------------- well-formed images

  /** The last part of the image invariant: files own no reserved blocks, and "." in the root is a directory. */
  ghost predicate FilesOk(fs: Fs) {
    Shaped(fs) && forall x {:trigger LiveFile(fs, x)} :: LiveFile(fs, x) ==> OwnsUnreserved(fs, x)
  }

  ghost predicate RootOk(fs: Fs, dirs: Dirs) {
    LiveDirectory(fs, ROOT) && DOT in DirView(fs, dirs, ROOT) && DirView(fs, dirs, ROOT)[DOT].fileType == EXT2_FT_DIR
  }

  ghost predicate Image(fs: Fs, owner: Owners, dirs: Dirs) {
    IsImage(fs, owner, dirs, 0, 0) && FilesOk(fs) && RootOk(fs, dirs)
  }

  /** What a name in a directory stands for is an inode in use, and a directory if the entry says so. */
  lemma LookupLive(fs: Fs, owner: Owners, dirs: Dirs, x: int, d: int, a: int, name: Name)
    requires IsImage(fs, owner, dirs, x, d) && LiveDirectory(fs, a) && Lookup(fs, dirs, a, name).Some?
    ensures var t := Lookup(fs, dirs, a, name).value;
            if t.fileType == EXT2_FT_DIR then LiveDirectory(fs, t.inode) else LiveFile(fs, t.inode)
  {
    NoEmptyName(Listing(Slots(fs, a), dirs));
    SearchIsLookup(fs, dirs, a, name);
    var s := Slots(fs, a);
    var n := s[NamedSlot(s, dirs, name, 0)];
    assert EntriesOk(fs, EntriesIn(dirs, n));
    assert EntryOk(fs, FoundEntry(s, dirs, name));
  }

  /** Then so does every path. */
  lemma {:induction false} ResolveLive(fs: Fs, owner: Owners, dirs: Dirs, path: Path)
    requires Image(fs, owner, dirs) && path != []
    ensures Parent(fs, dirs, path).Some? ==> LiveDirectory(fs, Parent(fs, dirs, path).value)
    ensures Resolve(fs, dirs, path).Some? ==>
              var t := Resolve(fs, dirs, path).value;
              if t.fileType == EXT2_FT_DIR then LiveDirectory(fs, t.inode) else LiveFile(fs, t.inode)
    decreases |path|
  {
    if |path| > 1 {
      ResolveLive(fs, owner, dirs, path[..|path| - 1]);
    }
    var p := Parent(fs, dirs, path);
    if p.Some? && Lookup(fs, dirs, p.value, path[|path| - 1]).Some? {
      LookupLive(fs, owner, dirs, 0, 0, p.value, path[|path| - 1]);
    }
  }

  // ---------------------------------------------------------------- adding a name

  /** There is room in a block of the directory for an entry with the name. */
  ghost predicate HasRoomFor(fs: Fs, dirs: Dirs, a: nat, name: Name)
    requires Shaped(fs) && 1 <= a <= |fs.inodes|
  {
    RoomySlot(Slots(fs, a), dirs, TotalEntryLength(|name|), 0) < INDIRECT1_INDEX
  }

  /** One of the direct slots is empty. */
  predicate CanGrow(fs: Fs, a: nat)
    requires Shaped(fs) && 1 <= a <= |fs.inodes|
  {
    EmptySlot(Slots(fs, a), 0) < INDIRECT1_INDEX
  }

  /** Who owns what after make_entry_in_inode. */
  ghost function OwnerMade(fs: Fs, owner: Owners, dirs: Dirs, a: nat, name: Name): Owners
    requires Shaped(fs) && 1 <= a <= |fs.inodes|
  {
    if HasRoomFor(fs, dirs, a, name) then owner else owner[NextBlock(fs) := (a, EmptySlot(Slots(fs, a), 0))]
  }

  /** Directory a has come to map name to t, and nothing else about names has changed. */
  ghost predicate NameAdded(fs: Fs, dirs: Dirs, fs': Fs, dirs': Dirs, a: int, name: Name, t: Target) {
    && OthersSame(fs, dirs, fs', dirs', a) && LiveDirectory(fs, a) && LiveDirectory(fs', a)
    && DirView(fs', dirs', a) == DirView(fs, dirs, a)[name := t]
  }

  /** make_entry_in_inode with a fresh name adds its binding, provided that a direct slot can be had. */
  lemma {:induction false} EntryMadeImage(fs: Fs, owner: Owners, dirs: Dirs, x: int, d: int, d': int, a: nat,
                                          name: Name, fileType: Byte)
    requires IsImage(fs, owner, dirs, x, d) && LiveDirectory(fs, a) && d' == d - 1
    requires name != [] && name !in DirView(fs, dirs, a) && EntryOk(fs, Dirent(x, 0, name, fileType))
    requires HasRoomFor(fs, dirs, a, name) || (fs.freeBlocks.super > 0 && CanGrow(fs, a))
    ensures IsDirInode(fs, dirs, a) && (!HasRoomFor(fs, dirs, a, name) ==> NextBlock(fs) <= |fs.blockUsed|)
    ensures var (fs', dirs') := EntryMade(fs, dirs, a, x, name, fileType);
            && IsImage(fs', OwnerMade(fs, owner, dirs, a, name), dirs', x, d')
            && NameAdded(fs, dirs, fs', dirs', a, name, Target(x, fileType))
  {
    DirectoryBlocks(fs, owner, dirs, a);
    var s, needed := Slots(fs, a), TotalEntryLength(|name|);
    if HasRoomFor(fs, dirs, a, name) {
      var j := RoomySlot(s, dirs, needed, 0);
      InsertedImage(fs, owner, dirs, x, d, a, j, FirstFit(dirs[s[j]], needed), name, fileType);
    } else {
      var e := Dirent(x, BLOCK_SIZE, name, fileType);
      assert EntryOk(fs, e);
      GrownImage(fs, owner, dirs, d, a, EmptySlot(s, 0), e);
    }
  }

  /** No ownership of blocks makes this an image. */
  ghost predicate Spoilt(fs: Fs) {
    forall owner: Owners {:trigger Consistent(fs, owner)} :: !Consistent(fs, owner)
  }

  /** It is not so when all direct slots are taken: then the block that is allocated belongs to nobody. */
  lemma EntryMadeLost(fs: Fs, owner: Owners, dirs: Dirs, a: nat, x: int, name: Name, fileType: Byte)
    requires Consistent(fs, owner) && DirsInRange(dirs, |fs.blockUsed|) && DirBlocksOk(fs, owner, dirs)
             && LiveDirectory(fs, a)
    requires !HasRoomFor(fs, dirs, a, name) && fs.freeBlocks.super > 0 && !CanGrow(fs, a)
    ensures IsDirInode(fs, dirs, a) && NextBlock(fs) <= |fs.blockUsed|
    ensures Spoilt(EntryMade(fs, dirs, a, x, name, fileType).0)
  {
    DirectoryBlocks(fs, owner, dirs, a);
    BlockAvailable(fs, owner);
    var fs' := Attached(fs, a, INDIRECT1_INDEX);
    forall owner': Owners ensures !Consistent(fs', owner') {
      IndirectLost(fs, owner, a, INDIRECT1_INDEX, owner');
    }
  }

  // ---------------------------------------------------------------- deleting a name

  /** Deleting the name would free a block that is reserved. */
  ghost predicate EmptiesReserved(fs: Fs, dirs: Dirs, a: nat, name: Name)
    requires Shaped(fs) && 1 <= a <= |fs.inodes|
  {
    var s := Slots(fs, a);
    var i := NamedSlot(s, dirs, name, 0);
    i < INDIRECT1_INDEX && s[i] <= LAST_RESERVED_BLOCK && IsEmpty(Deleted(dirs[s[i]], FirstNamed(dirs[s[i]], name)))
  }

  /** Who owns what after delete_child_entry. */
  ghost function OwnerDeleted(fs: Fs, owner: Owners, dirs: Dirs, a: nat, name: Name): Owners
    requires Shaped(fs) && 1 <= a <= |fs.inodes|
  {
    var s := Slots(fs, a);
    var i := NamedSlot(s, dirs, name, 0);
    if i < INDIRECT1_INDEX && IsEmpty(Deleted(dirs[s[i]], FirstNamed(dirs[s[i]], name))) then owner - {s[i]} else owner
  }

  /** Directory a has lost name, and nothing else about names has changed. */
  ghost predicate NameRemoved(fs: Fs, dirs: Dirs, fs': Fs, dirs': Dirs, a: int, name: Name) {
    && OthersSame(fs, dirs, fs', dirs', a) && LiveDirectory(fs, a) && LiveDirectory(fs', a)
    && DirView(fs', dirs', a) == DirView(fs, dirs, a) - {name}
  }

  /** delete_child_entry removes the binding of the name, provided that it frees no reserved block. */
  lemma {:induction false} EntryDeletedImage(fs: Fs, owner: Owners, dirs: Dirs, x: int, d: int, d': int, a: nat,
                                             name: Name)
    requires IsImage(fs, owner, dirs, x, d) && LiveDirectory(fs, a) && name != [] && d' == d + 1
    requires name in DirView(fs, dirs, a) && DirView(fs, dirs, a)[name].inode == x
             && !EmptiesReserved(fs, dirs, a, name)
    ensures var (fs', dirs') := EntryDeleted(fs, dirs, a, name);
            && IsImage(fs', OwnerDeleted(fs, owner, dirs, a, name), dirs', x, d')
            && NameRemoved(fs, dirs, fs', dirs', a, name)
  {
    SearchIsLookup(fs, dirs, a, name);
    var s := Slots(fs, a);
    var i := NamedSlot(s, dirs, name, 0);
    var n := s[i];
    var es := Deleted(dirs[n], FirstNamed(dirs[n], name));
    DeletedImage(fs, owner, dirs, x, d, a, i, name);
    if IsEmpty(es) {
      DroppedImage(fs, owner, dirs[n := es], x, d + 1, a, i);
      assert dirs[n := es] - {n} == dirs - {n};
    }
  }

  /** If it does, the block that it frees is a reserved one whose bit is then clear. */
  lemma EntryDeletedLost(fs: Fs, owner: Owners, dirs: Dirs, a: nat, name: Name)
    requires Consistent(fs, owner) && DirsInRange(dirs, |fs.blockUsed|) && LiveDirectory(fs, a)
             && EmptiesReserved(fs, dirs, a, name)
    ensures var n := Slots(fs, a)[NamedSlot(Slots(fs, a), dirs, name, 0)];
            1 <= n <= LAST_RESERVED_BLOCK && !EntryDeleted(fs, dirs, a, name).0.blockUsed[n - 1]
  {
  }

  /** No image has a reserved block whose bit is clear. */
  lemma ReservedClear(fs: Fs, n: int)
    requires Shaped(fs) && 1 <= n <= LAST_RESERVED_BLOCK && !fs.blockUsed[n - 1]
    ensures Spoilt(fs)
  {
    forall owner: Owners ensures !Consistent(fs, owner) {
      assert !BitOk(fs, owner, n);
    }
  }
}
