/** Small images, which show that well-formed images exist and that each command can spoil one. */
module Witnesses {
  // The root directory has the names "." and ".." in block 9, as mke2fs leaves them, and the file "a" in
  // a second block, alone.  Removing "a" empties that block.

  import opened Dirents
  import opened DirBlocks
  import opened DirMaps
  import opened FileSystems
  import opened Disks
  import opened Images
  import opened Trees
  import opened Readings
  import opened Commands
  import opened Runs
  import opened Steps
  import opened ImageBytes

  const ROOT_BLOCK := 9
  const BLOCKS := 23
  const FILE := 12
  const FILE_NAME: Name := [97]
  const FILE_PATH: Path := [DOT, FILE_NAME]
  const OTHER_NAME: Name := [98]

  /** "./b", and "./a/b" below the file. */
  const OTHER_PATH: Path := [DOT, OTHER_NAME]
  const PATH_BELOW: Path := [DOT, FILE_NAME, OTHER_NAME]

  function RootSlots(n: int): (s: seq<int>)
    ensures |s| == INDIRECT1_INDEX && s[0] == ROOT_BLOCK && s[1] == n && forall i :: 2 <= i < |s| ==> s[i] == 0
  {
    NoBlocks()[0 := ROOT_BLOCK][1 := n]
  }

  /** How many inodes there are: file 12 is the last in use, and there may be another one. */
  function Inodes(spare: bool): nat {
    if spare then FILE + 1 else FILE
  }

  /** 23 blocks, and 12 or 13 inodes; the root is inode 2, and file 12 has no blocks and one name, in block n. */
  function SmallFs(n: int, spare: bool): (fs: Fs)
    ensures Shaped(fs) && |fs.inodes| == Inodes(spare) && |fs.blockUsed| == BLOCKS
    ensures Slots(fs, ROOT) == RootSlots(n) && Slots(fs, FILE) == NoBlocks()
  {
    var free, left := if n == BLOCKS then 0 else 1, if spare then 1 else 0;
    var inodes := seq(Inodes(spare), _ => Inode(false, 1, NoBlocks()))[ROOT - 1 := Inode(true, 2, RootSlots(n))];
    assert forall a :: 0 <= a < Inodes(spare) ==> |inodes[a].block| == INDIRECT1_INDEX;
    Fs(seq(LAST_RESERVED_BLOCK, _ => true) + [n == BLOCKS],
       seq(FILE, _ => true) + if spare then [false] else [], inodes, Count(free, free), Count(left, left))
  }

  function RootEntries(): seq<Dirent> {
    [Dirent(ROOT, 12, DOT, EXT2_FT_DIR), Dirent(ROOT, BLOCK_SIZE - 12, DOT + DOT, EXT2_FT_DIR)]
  }

  function FileEntry(): Dirent {
    Dirent(FILE, BLOCK_SIZE, FILE_NAME, EXT2_FT_REG_FILE)
  }

  function SmallDirs(n: int): Dirs {
    map[ROOT_BLOCK := RootEntries(), n := [FileEntry()]]
  }

  function SmallOwner(n: int): Owners {
    map[ROOT_BLOCK := (ROOT, 0), n := (ROOT, 1)]
  }

  lemma SmallOwned(n: int, spare: bool)
    requires ROOT_BLOCK < n <= BLOCKS
    ensures Owned(SmallFs(n, spare), SmallOwner(n))
  {
    var fs, owner := SmallFs(n, spare), SmallOwner(n);
    forall a, i | 1 <= a <= |fs.inodes| && 0 <= i < INDIRECT1_INDEX ensures SlotOk(fs, owner, a, i) {
      assert Slots(fs, a) == if a == ROOT then RootSlots(n) else NoBlocks();
    }
    forall m: int ensures OwnerOk(fs, owner, m) {
      assert BlockNumber(fs, ROOT, 0) == ROOT_BLOCK && BlockNumber(fs, ROOT, 1) == n;
    }
  }

  lemma SmallConsistent(n: int, spare: bool)
    requires ROOT_BLOCK < n <= BLOCKS
    ensures Consistent(SmallFs(n, spare), SmallOwner(n))
  {
    var fs := SmallFs(n, spare);
    SmallOwned(n, spare);
    assert fs.blockUsed[..LAST_RESERVED_BLOCK] == seq(LAST_RESERVED_BLOCK, _ => true);
    NoneClear(fs.blockUsed[..LAST_RESERVED_BLOCK]);
    assert fs.inodeUsed[..FILE] == seq(FILE, _ => true);
    NoneClear(fs.inodeUsed[..FILE]);
    assert !spare ==> fs.inodeUsed[..FILE] == fs.inodeUsed;
  }

  /** The listing of the root, and what it means. */
  lemma RootListing(n: int)
    requires ROOT_BLOCK < n <= BLOCKS
    ensures Listing(RootSlots(n), SmallDirs(n)) == RootEntries() + [FileEntry()]
    ensures DistinctNames(RootEntries() + [FileEntry()])
    ensures View(RootEntries() + [FileEntry()]) ==
            map[DOT := Target(ROOT, EXT2_FT_DIR), DOT + DOT := Target(ROOT, EXT2_FT_DIR),
                FILE_NAME := Target(FILE, EXT2_FT_REG_FILE)]
  {
    var s, dirs, es := RootSlots(n), SmallDirs(n), RootEntries();
    EmptyTail(s, dirs, 2);
    assert s[..2] == [] + [ROOT_BLOCK] + [n];
    ListingConcat([] + [ROOT_BLOCK], [n], dirs);
    assert [ROOT_BLOCK][..0] == [] && [n][..0] == [];
    ViewLast([es[0]], [], es[0]);
    ViewLast(es, [es[0]], es[1]);
    ViewLast(es + [FileEntry()], es, FileEntry());
  }

  lemma {:induction false} FileNames(n: int, last: nat)
    requires ROOT_BLOCK < n
    ensures NameCount(SmallDirs(n), FILE, last) == if last >= n then 1 else 0
  {
    if last > 0 {
      FileNames(n, last - 1);
      NamesOne(FileEntry(), FILE);
      NamesTwo(RootEntries()[0], RootEntries()[1], FILE);
    }
  }

  lemma SmallIsImage(n: int, spare: bool)
    requires ROOT_BLOCK < n <= BLOCKS
    ensures Image(SmallFs(n, spare), SmallOwner(n), SmallDirs(n))
  {
    SmallConsistent(n, spare);
    RootListing(n);
    FileNames(n, BLOCKS);
  }

  lemma SmallFills(n: int)
    requires ROOT_BLOCK < n <= BLOCKS
    ensures forall m :: m in SmallDirs(n) ==> 1 <= m <= BLOCKS && SmallFs(n, false).blockUsed[m - 1]
                                              && Fills(SmallDirs(n)[m])
  {
    var es := RootEntries();
    assert Offset(es, 0, 0) == 0 && Offset(es, 0, 1) == 12;
    assert Offset([FileEntry()], 0, 0) == 0;
  }

  /** Well-formed images exist. */
  lemma SmallImage(n: int, spare: bool) returns (d: seq<Byte>)
    requires ROOT_BLOCK < n <= BLOCKS
    ensures Image(SmallFs(n, spare), SmallOwner(n), SmallDirs(n)) && Whole(SmallFs(n, spare), d)
    ensures Reading(SmallFs(n, spare), d, SmallDirs(n)) && WellFormed(SmallFs(n, spare), d)
  {
    var fs := SmallFs(n, spare);
    SmallIsImage(n, spare);
    SmallFills(n);
    d := BytesExist(fs.blockUsed, SmallDirs(n));
  }

  // ---------------------------------------------------------------- paths

  /** The path of the file leads to it, and its name is found in block n. */
  lemma FilePath(n: int, spare: bool)
    requires ROOT_BLOCK < n <= BLOCKS
    ensures var fs, dirs := SmallFs(n, spare), SmallDirs(n);
            && Parent(fs, dirs, FILE_PATH) == Some(ROOT)
               && Resolve(fs, dirs, FILE_PATH) == Some(Target(FILE, EXT2_FT_REG_FILE))
            && NamedSlot(Slots(fs, ROOT), dirs, FILE_NAME, 0) == 1 && FirstNamed(dirs[n], FILE_NAME) == 0
  {
    var fs, dirs := SmallFs(n, spare), SmallDirs(n);
    RootListing(n);
    assert FILE_PATH[..1] == [DOT];
    assert Resolve(fs, dirs, [DOT]) == Some(Target(ROOT, EXT2_FT_DIR));
    assert !HasNamed(dirs, ROOT_BLOCK, FILE_NAME) && HasNamed(dirs, n, FILE_NAME);
  }

  /** The name "b" is free in the root. */
  lemma OtherPath(n: int, spare: bool)
    requires ROOT_BLOCK < n <= BLOCKS
    ensures var fs, dirs := SmallFs(n, spare), SmallDirs(n);
            && Resolve(fs, dirs, OTHER_PATH[..1]) == Some(Target(ROOT, EXT2_FT_DIR))
            && LinkCheck(fs, dirs, FILE_PATH, OTHER_PATH) == Success
  {
    var fs, dirs := SmallFs(n, spare), SmallDirs(n);
    FilePath(n, spare);
    RootListing(n);
    assert OTHER_PATH[..1] == [DOT];
    assert Resolve(fs, dirs, [DOT]) == Some(Target(ROOT, EXT2_FT_DIR));
    assert OTHER_NAME[0] != FILE_NAME[0] && OTHER_NAME[0] != DOT[0] && OTHER_NAME[0] != (DOT + DOT)[0];
    assert Parent(fs, dirs, OTHER_PATH) == Some(ROOT) && Lookup(fs, dirs, ROOT, OTHER_NAME) == None;
  }

  lemma PathBelow(n: int, spare: bool)
    requires ROOT_BLOCK < n <= BLOCKS
    ensures var fs, dirs := SmallFs(n, spare), SmallDirs(n);
            && BelowFile(fs, dirs, PATH_BELOW)
            && Resolve(fs, dirs, PATH_BELOW[..2]) == Some(Target(FILE, EXT2_FT_REG_FILE))
  {
    FilePath(n, spare);
    assert PATH_BELOW[..2] == FILE_PATH;
  }

  // ---------------------------------------------------------------- rm

  lemma FileRemoval(n: int, d: seq<Byte>)
    requires ROOT_BLOCK < n <= BLOCKS
    ensures var fs, dirs := SmallFs(n, false), SmallDirs(n);
            && RemoveCheck(fs, dirs, FILE_PATH) == Success
            && (Harmless(fs, d, dirs, Remove(FILE_PATH)) <==> n > LAST_RESERVED_BLOCK)
  {
    FilePath(n, false);
    var es := Deleted(SmallDirs(n)[n], 0);
    assert es == [FileEntry().(name := [])];
  }

  /** Two images that differ in the number of one block only: from one, rm of the only file makes a well-formed
      image, and from the other, one that can be read in no way as well formed. */
  lemma RemovalSpoils(n: int) returns (d: seq<Byte>, fs': Fs, d': seq<Byte>)
    requires ROOT_BLOCK < n <= BLOCKS
    ensures WellFormed(SmallFs(n, false), d)
            && RemoveStep(SmallFs(n, false), d, SmallDirs(n), FILE_PATH, Success, fs', d')
    ensures WellFormed(fs', d') <==> n > LAST_RESERVED_BLOCK
  {
    d := SmallImage(n, false);
    FileRemoval(n, d);
    var fs, owner, dirs := SmallFs(n, false), SmallOwner(n), SmallDirs(n);
    var status, dirs1;
    status, fs', d', dirs1 := RemoveStepExists(fs, owner, dirs, d, FILE_PATH);
    var dirs' := RemoveKeeps(fs, owner, dirs, d, FILE_PATH, status, fs', d');
  }

  // ---------------------------------------------------------------- a destination below a file

  lemma BelowFits(n: int, spare: bool, d: seq<Byte>)
    requires ROOT_BLOCK < n <= BLOCKS
    ensures var fs, dirs := SmallFs(n, spare), SmallDirs(n);
            && DestinationOk(fs, d, dirs, PATH_BELOW)
            && (NothingPut(fs, d, FILE, OTHER_NAME) <==> n == BLOCKS)
  {
    PathBelow(n, spare);
    assert FirstRoom(NoBlocks(), d, OTHER_NAME, 0) == INDIRECT1_INDEX;
  }

  /** ln ./a ./a/b passes all checks, although a is a file.  If there is a block for it, ln claims success and leaves
      an image that is not well formed. */
  lemma LinkSpoils(n: int) returns (d: seq<Byte>, status: Status, fs': Fs, d': seq<Byte>)
    requires ROOT_BLOCK < n <= BLOCKS
    ensures WellFormed(SmallFs(n, false), d) && BelowFile(SmallFs(n, false), SmallDirs(n), PATH_BELOW)
    ensures LinkStep(SmallFs(n, false), d, SmallDirs(n), FILE_PATH, PATH_BELOW, status, fs', d')
    ensures (status == Success <==> n < BLOCKS) && (WellFormed(fs', d') <==> n == BLOCKS)
  {
    var fs, owner, dirs := SmallFs(n, false), SmallOwner(n), SmallDirs(n);
    d := SmallImage(n, false);
    FilePath(n, false);
    PathBelow(n, false);
    BelowFits(n, false, d);
    status, fs', d' := LinkBelowFileExists(fs, owner, dirs, d, FILE_PATH, PATH_BELOW, FILE);
  }

  // ---------------------------------------------------------------- a symbolic link that stops half way

  lemma RootHasRoom(n: int)
    requires ROOT_BLOCK < n <= BLOCKS
    ensures var fs, dirs := SmallFs(n, true), SmallDirs(n);
            InOrder(fs, dirs, ROOT, OTHER_NAME) && HasRoomFor(fs, dirs, ROOT, OTHER_NAME)
  {
    var dirs, es, needed := SmallDirs(n), RootEntries(), TotalEntryLength(1);
    assert !HasSlack(es[0], needed) && HasSlack(es[1], needed);
    assert FirstFit(es, needed) == 1;
    assert HasRoom(dirs, ROOT_BLOCK, needed);
    assert RoomySlot(RootSlots(n), dirs, needed, 0) == 0;
  }

  /** ln -s ./a ./b takes the last inode first.  If the text is too long, or there is no block for it, it exits and
      leaves an inode with a link and without a name. */
  lemma SymlinkSpoils(n: int, text: Name) returns (d: seq<Byte>, status: Status, fs': Fs, d': seq<Byte>)
    requires ROOT_BLOCK < n <= BLOCKS
    ensures WellFormed(SmallFs(n, true), d)
    ensures SymlinkStep(SmallFs(n, true), d, SmallDirs(n), FILE_PATH, OTHER_PATH, text, status, fs', d')
    ensures WellFormed(fs', d') <==> |text| < BLOCK_SIZE && n < BLOCKS
    ensures status == if |text| >= BLOCK_SIZE then NameTooLong else if n == BLOCKS then NoBlock else Success
  {
    var fs, owner, dirs := SmallFs(n, true), SmallOwner(n), SmallDirs(n);
    d := SmallImage(n, true);
    OtherPath(n, true);
    RootHasRoom(n);
    FitsInDirectory(fs, owner, dirs, d, Symlink(FILE_PATH, OTHER_PATH, text), ROOT);
    status, fs', d' := SymlinkStepExists(fs, owner, dirs, d, FILE_PATH, OTHER_PATH, text);
    var dirs' := SymlinkKeeps(fs, owner, dirs, d, FILE_PATH, OTHER_PATH, text, status, fs', d');
  }
}
