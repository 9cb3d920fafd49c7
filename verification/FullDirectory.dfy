/** A directory that has no room for another long name, in any number of its direct blocks.

    While a direct slot is left, ln takes a new block for the name.  With all twelve taken it does so
    too, but the block gets into no slot: get_inode_block_number says 0 for slot 12, and
    set_inode_block_number does not know it.
 */
module FullDirectories {
  import opened Dirents
  import opened DirBlocks
  import opened DirMaps
  import opened FileSystems
  import opened Disks
  import opened Images
  import opened Links
  import opened Trees
  import opened Readings
  import opened Commands
  import opened Runs
  import opened Steps
  import opened ImageBytes

  const FIRST_BLOCK := 9
  const BLOCKS := 23
  const FILE := 12
  const FIRST_LETTER := 65

  // ---------------------------------------------------------------- the directory

  /** A name of 255 bytes. */
  function LongName(i: nat): (name: Name)
    ensures |name| == NAME_LEN && name[0] == FIRST_LETTER + i
  {
    [FIRST_LETTER + i] + seq(NAME_LEN - 1, _ => 97)
  }

  function LongEntry(i: nat, recLen: nat): Dirent {
    Dirent(FILE, recLen, LongName(i), EXT2_FT_REG_FILE)
  }

  /** Block j of the directory: two long names, after "." and ".." in the first. */
  function BlockEntries(j: nat): seq<Dirent> {
    if j == 0 then
      [Dirent(ROOT, 12, DOT, EXT2_FT_DIR), Dirent(ROOT, 12, DOT + DOT, EXT2_FT_DIR), LongEntry(0, 500),
       LongEntry(1, 500)]
    else [LongEntry(2 * j, 512), LongEntry(2 * j + 1, 512)]
  }

  function FullSlots(k: nat): (s: seq<int>)
    ensures |s| == INDIRECT1_INDEX && forall i :: 0 <= i < |s| ==> s[i] == if i < k then FIRST_BLOCK + i else 0
  {
    seq(INDIRECT1_INDEX, i => if i < k then FIRST_BLOCK + i else 0)
  }

  /** The root has k full blocks, and all names in it are names of file 12.  Block 23 is free. */
  function FullFs(k: nat): (fs: Fs)
    ensures Shaped(fs) && |fs.inodes| == FILE && |fs.blockUsed| == BLOCKS
    ensures Slots(fs, ROOT) == FullSlots(k) && Slots(fs, FILE) == NoBlocks()
    ensures forall a: int {:trigger fs.InUse(a)} {:trigger IsDirectory(fs, a)} :: 1 <= a <= FILE ==>
              fs.InUse(a) && IsDirectory(fs, a) == (a == ROOT)
  {
    var inodes := seq(FILE, _ => Inode(false, 2 * k, NoBlocks()))[ROOT - 1 := Inode(true, 2, FullSlots(k))];
    assert forall a :: 0 <= a < FILE ==> |inodes[a].block| == INDIRECT1_INDEX;
    Fs(seq(LAST_RESERVED_BLOCK, _ => true) + [false], seq(FILE, _ => true), inodes, Count(1, 1), Count(0, 0))
  }

  function FullDirs(k: nat): (dirs: Dirs)
    ensures forall n :: n in dirs <==> FIRST_BLOCK <= n < FIRST_BLOCK + k
    ensures forall n :: n in dirs ==> dirs[n] == BlockEntries(n - FIRST_BLOCK)
  {
    if k == 0 then map[] else FullDirs(k - 1)[FIRST_BLOCK + k - 1 := BlockEntries(k - 1)]
  }

  function FullOwner(k: nat): (owner: Owners)
    ensures forall n :: n in owner <==> FIRST_BLOCK <= n < FIRST_BLOCK + k
    ensures forall n :: n in owner ==> owner[n] == (ROOT, n - FIRST_BLOCK)
  {
    if k == 0 then map[] else FullOwner(k - 1)[FIRST_BLOCK + k - 1 := (ROOT, k - 1)]
  }

  // ---------------------------------------------------------------- it is a well-formed image

  lemma FullConsistent(k: nat)
    requires 1 <= k <= INDIRECT1_INDEX
    ensures Consistent(FullFs(k), FullOwner(k))
  {
    var fs, owner := FullFs(k), FullOwner(k);
    forall a, i | 1 <= a <= |fs.inodes| && 0 <= i < INDIRECT1_INDEX ensures SlotOk(fs, owner, a, i) {
      assert Slots(fs, a) == if a == ROOT then FullSlots(k) else NoBlocks();
    }
    forall m: int ensures OwnerOk(fs, owner, m) {
      assert m in owner ==> BlockNumber(fs, ROOT, m - FIRST_BLOCK) == m;
    }
    assert fs.blockUsed[..LAST_RESERVED_BLOCK] == seq(LAST_RESERVED_BLOCK, _ => true);
    NoneClear(fs.blockUsed[..LAST_RESERVED_BLOCK]);
    NoneClear(fs.inodeUsed);
  }

  /** Only "." and "..", and long names with one of the first c letters. */
  ghost predicate LongNames(m: Bindings, c: nat) {
    && (forall name :: name in m ==> name == DOT || name == DOT + DOT
                                     || (|name| == NAME_LEN && FIRST_LETTER <= name[0] < FIRST_LETTER + c))
    && DOT in m && m[DOT] == Target(ROOT, EXT2_FT_DIR)
    && LongName(0) in m && m[LongName(0)] == Target(FILE, EXT2_FT_REG_FILE)
  }

  ghost predicate Lists(es: seq<Dirent>, c: nat) {
    DistinctNames(es) && LongNames(View(es), c)
  }

  predicate IsLong(e: Dirent, i: nat) {
    e.inode == FILE && e.fileType == EXT2_FT_REG_FILE && |e.name| == NAME_LEN && e.name[0] == FIRST_LETTER + i
  }

  lemma NameMore(es: seq<Dirent>, e: Dirent, i: nat)
    requires 0 < i && Lists(es, i) && IsLong(e, i)
    ensures Lists(es + [e], i + 1)
  {
    ViewLast(es + [e], es, e);
  }

  /** Two long names more. */
  lemma NamesMore(es: seq<Dirent>, e: Dirent, f: Dirent, i: nat, es': seq<Dirent>)
    requires 0 < i && Lists(es, i) && IsLong(e, i) && IsLong(f, i + 1) && es' == es + [e, f]
    ensures Lists(es', i + 2)
  {
    NameMore(es, e, i);
    NameMore(es + [e], f, i + 1);
    assert es' == es + [e] + [f];
  }

  lemma FirstNames()
    ensures Lists(BlockEntries(0), 2)
  {
    var es := BlockEntries(0);
    ViewLast([es[0]], [], es[0]);
    ViewLast([es[0], es[1]], [es[0]], es[1]);
    ViewLast([es[0], es[1], es[2]], [es[0], es[1]], es[2]);
    ViewLast(es, [es[0], es[1], es[2]], es[3]);
  }

  lemma ListingNext(k: nat, t: nat)
    requires t < k <= INDIRECT1_INDEX
    ensures Listing(FullSlots(k)[..t + 1], FullDirs(k)) == Listing(FullSlots(k)[..t], FullDirs(k)) + BlockEntries(t)
  {
    assert FullSlots(k)[..t + 1][..t] == FullSlots(k)[..t];
  }

  lemma {:induction false} FullListing(k: nat, t: nat)
    requires 1 <= t <= k <= INDIRECT1_INDEX
    ensures Lists(Listing(FullSlots(k)[..t], FullDirs(k)), 2 * t)
  {
    ListingNext(k, t - 1);
    if t == 1 {
      FirstNames();
      assert [] + BlockEntries(0) == BlockEntries(0);
    } else {
      FullListing(k, t - 1);
      var es, i := BlockEntries(t - 1), 2 * (t - 1);
      NamesMore(Listing(FullSlots(k)[..t - 1], FullDirs(k)), es[0], es[1], i, Listing(FullSlots(k)[..t], FullDirs(k)));
    }
  }

  lemma BlockNames(j: nat)
    ensures NamesFor(BlockEntries(j), FILE) == 2
  {
    var es := BlockEntries(j);
    if j == 0 {
      assert es == [es[0], es[1]] + [es[2], es[3]];
      NamesConcat([es[0], es[1]], [es[2], es[3]], FILE);
      NamesTwo(es[0], es[1], FILE);
      NamesTwo(es[2], es[3], FILE);
    } else {
      NamesTwo(es[0], es[1], FILE);
    }
  }

  lemma NamesIn(k: nat, n: nat)
    ensures NamesFor(EntriesIn(FullDirs(k), n), FILE) == if FIRST_BLOCK <= n < FIRST_BLOCK + k then 2 else 0
  {
    if FIRST_BLOCK <= n < FIRST_BLOCK + k {
      BlockNames(n - FIRST_BLOCK);
    }
  }

  lemma {:induction false} FullNames(k: nat, last: nat)
    ensures NameCount(FullDirs(k), FILE, last) ==
            if last < FIRST_BLOCK then 0 else if last < FIRST_BLOCK + k then 2 * (last - FIRST_BLOCK + 1) else 2 * k
  {
    if last > 0 {
      FullNames(k, last - 1);
      NamesIn(k, last);
    }
  }

  lemma FullRoot(k: nat)
    requires 1 <= k <= INDIRECT1_INDEX
    ensures Lists(Listing(Slots(FullFs(k), ROOT), FullDirs(k)), 2 * k)
  {
    FullListing(k, k);
    EmptyTail(FullSlots(k), FullDirs(k), k);
  }

  lemma FullBlocks(k: nat)
    requires 1 <= k <= INDIRECT1_INDEX
    ensures BlocksOk(FullFs(k), FullDirs(k)) && DirBlocksOk(FullFs(k), FullOwner(k), FullDirs(k))
  {
    var fs, dirs := FullFs(k), FullDirs(k);
    forall n: int ensures EntriesOk(fs, EntriesIn(dirs, n)) {
      var es := EntriesIn(dirs, n);
      forall i | 0 <= i < |es| ensures EntryOk(fs, es[i]) {
        assert fs.InUse(FILE) && fs.InUse(ROOT);
      }
    }
  }

  lemma FullLinks(k: nat)
    requires 1 <= k <= INDIRECT1_INDEX
    ensures LinksOk(FullFs(k), FullDirs(k), 0, 0) && FilesOk(FullFs(k))
  {
    var fs, dirs := FullFs(k), FullDirs(k);
    FullNames(k, BLOCKS);
    forall a: int ensures LinkOk(fs, dirs, 0, 0, a) {
    }
  }

  lemma FullNamesOk(k: nat)
    requires 1 <= k <= INDIRECT1_INDEX
    ensures NamesOk(FullFs(k), FullDirs(k)) && RootOk(FullFs(k), FullDirs(k))
  {
    FullRoot(k);
    assert FullFs(k).InUse(ROOT);
  }

  lemma FullIsImage(k: nat)
    requires 1 <= k <= INDIRECT1_INDEX
    ensures Image(FullFs(k), FullOwner(k), FullDirs(k))
  {
    FullConsistent(k);
    FullBlocks(k);
    FullNamesOk(k);
    FullLinks(k);
  }

  lemma BlockFills(j: nat)
    ensures Fills(BlockEntries(j))
  {
    var es := BlockEntries(j);
    assert Offset(es, 0, 0) == 0;
    assert Offset(es, 0, 1) == es[0].recLen && Offset(es, 0, 2) == es[0].recLen + es[1].recLen;
    if j == 0 {
      assert Offset(es, 0, 3) == 524;
    }
  }

  lemma FullImage(k: nat) returns (d: seq<Byte>)
    requires 1 <= k <= INDIRECT1_INDEX
    ensures Image(FullFs(k), FullOwner(k), FullDirs(k)) && Whole(FullFs(k), d)
    ensures Reading(FullFs(k), d, FullDirs(k)) && WellFormed(FullFs(k), d)
  {
    FullIsImage(k);
    forall j: nat ensures Fills(BlockEntries(j)) {
      BlockFills(j);
    }
    d := BytesExist(FullFs(k).blockUsed, FullDirs(k));
  }

  // ---------------------------------------------------------------- and it has no room

  /** 500 bytes for a name of 255 leave 236, and 512 leave 248. */
  lemma EntryFull(e: Dirent)
    requires (|e.name| <= 2 && e.recLen == 12) || (|e.name| == NAME_LEN && e.recLen <= 512)
    requires e.recLen >= MinRecLen(e)
    ensures !HasSlack(e, TotalEntryLength(NAME_LEN))
  {
  }

  lemma BlockFull(j: nat)
    ensures var es, needed := BlockEntries(j), TotalEntryLength(NAME_LEN);
            !Makes(es, needed) && !Clobbers(es, needed)
  {
    var es, needed := BlockEntries(j), TotalEntryLength(NAME_LEN);
    forall i | 0 <= i < |es| ensures !HasSlack(es[i], needed) {
      EntryFull(es[i]);
    }
    assert FirstFit(es, needed) == |es|;
  }

  lemma FullHasNoRoom(k: nat)
    requires 1 <= k <= INDIRECT1_INDEX
    ensures var fs, dirs, name := FullFs(k), FullDirs(k), LongName(24);
            && InOrder(fs, dirs, ROOT, name) && !HasRoomFor(fs, dirs, ROOT, name)
            && (CanGrow(fs, ROOT) <==> k < INDIRECT1_INDEX)
  {
    forall j: nat ensures !Makes(BlockEntries(j), TotalEntryLength(NAME_LEN))
        && !Clobbers(BlockEntries(j), TotalEntryLength(NAME_LEN)) {
      BlockFull(j);
    }
    var i := EmptySlot(FullSlots(k), 0);
    assert k < INDIRECT1_INDEX ==> FullSlots(k)[k] == 0;
  }

  /** A long name, and one that is not there yet. */
  const OLD_PATH: Path := [DOT, LongName(0)]
  const NEW_PATH: Path := [DOT, LongName(24)]

  lemma ArePaths()
    ensures IsPath(OLD_PATH) && IsPath(NEW_PATH)
  {
  }

  /** In the root, a name for what another name stands for. */
  lemma CheckPasses(fs: Fs, dirs: Dirs, known: Name, name: Name)
    requires Shaped(fs) && Lookup(fs, dirs, ROOT, DOT) == Some(Target(ROOT, EXT2_FT_DIR))
    requires Lookup(fs, dirs, ROOT, known).Some? && Lookup(fs, dirs, ROOT, known).value.fileType != EXT2_FT_DIR
    requires Lookup(fs, dirs, ROOT, name) == None
    ensures Resolve(fs, dirs, [DOT, name][..1]) == Some(Target(ROOT, EXT2_FT_DIR))
    ensures LinkCheck(fs, dirs, [DOT, known], [DOT, name]) == Success
  {
    RootPath(fs, dirs, known);
    RootPath(fs, dirs, name);
  }

  lemma FullPaths(k: nat)
    requires 1 <= k <= INDIRECT1_INDEX
    ensures var fs, dirs := FullFs(k), FullDirs(k);
            && Resolve(fs, dirs, NEW_PATH[..1]) == Some(Target(ROOT, EXT2_FT_DIR))
            && LinkCheck(fs, dirs, OLD_PATH, NEW_PATH) == Success
  {
    FullRoot(k);
    NotListed(DirView(FullFs(k), FullDirs(k), ROOT), 2 * k);
    CheckPasses(FullFs(k), FullDirs(k), LongName(0), LongName(24));
  }

  lemma NotListed(m: Bindings, c: nat)
    requires LongNames(m, c) && c <= 24
    ensures LongName(24) !in m
  {
  }

  /** From a well-formed image ln makes another one if a direct slot is left, and none if all are taken.  In both
      cases it claims success. */
  lemma LinkLosesBlock(k: nat) returns (d: seq<Byte>, fs': Fs, d': seq<Byte>)
    requires 1 <= k <= INDIRECT1_INDEX
    ensures WellFormed(FullFs(k), d)
            && LinkStep(FullFs(k), d, FullDirs(k), OLD_PATH, NEW_PATH, Success, fs', d')
    ensures WellFormed(fs', d') <==> k < INDIRECT1_INDEX
  {
    d := FullImage(k);
    ArePaths();
    FullPaths(k);
    FullHasNoRoom(k);
    var status;
    status, fs', d' := LinkInDirectoryExists(FullFs(k), FullOwner(k), FullDirs(k), d, OLD_PATH, NEW_PATH, ROOT);
  }
}
