/** The invariant of an ext2 image, and what adding and removing names does to it.

    The directory blocks are those that directories own; names in a directory are distinct; an entry
    with a name stands for an inode in use, of the kind that it says; and the link count of a file
    is the number of its names.

    One block of one directory changes at a time.  The general lemma DirReplaced says what remains
    to be shown about the new entries of the block, and the others apply it to an insertion, a
    deletion, a block that is dropped and a block that is new.
 */
module Links {
  import opened Dirents
  import opened DirBlocks
  import opened DirMaps
  import opened FileSystems
  import opened Disks
  import opened Images

  ghost predicate IsDirectory(fs: Fs, a: int) {
    1 <= a <= |fs.inodes| && fs.inodes[a - 1].isDir
  }

  // ---------------------------------------------------------------- the invariant

  /** The directory blocks are the blocks owned by directories. */
  ghost predicate DirBlockOk(fs: Fs, owner: Owners, dirs: Dirs, n: int) {
    n in dirs <==> n in owner && IsDirectory(fs, owner[n].0)
  }

  ghost predicate DirBlocksOk(fs: Fs, owner: Owners, dirs: Dirs) {
    forall n: int {:trigger DirBlockOk(fs, owner, dirs, n)} :: DirBlockOk(fs, owner, dirs, n)
  }

  /** An entry with a name stands for an inode in use, of the right kind. */
  ghost predicate EntryOk(fs: Fs, e: Dirent) {
    e.name != [] ==>
      && fs.InUse(e.inode) && (e.fileType == EXT2_FT_DIR <==> IsDirectory(fs, e.inode))
      && (e.fileType != EXT2_FT_DIR ==> e.inode > LAST_RESERVED_INODE)
  }

  ghost predicate EntriesOk(fs: Fs, es: seq<Dirent>) {
    forall k {:trigger es[k]} :: 0 <= k < |es| ==> EntryOk(fs, es[k])
  }

  ghost predicate BlocksOk(fs: Fs, dirs: Dirs) {
    forall n: int {:trigger EntriesIn(dirs, n)} :: EntriesOk(fs, EntriesIn(dirs, n))
  }

  ghost predicate LiveDirectory(fs: Fs, a: int) {
    Shaped(fs) && fs.InUse(a) && IsDirectory(fs, a)
  }

  /** No name occurs twice in a directory. */
  ghost predicate NamesOk(fs: Fs, dirs: Dirs) {
    forall a: int {:trigger LiveDirectory(fs, a)} :: LiveDirectory(fs, a) ==> DistinctNames(Listing(Slots(fs, a), dirs))
  }

  /** The link count of an inode that is not a directory is the number of its names, except that
      the count of inode x may be d more for the moment. */
  ghost predicate LinkOk(fs: Fs, dirs: Dirs, x: int, d: int, a: int) {
    LiveFile(fs, a) ==>
      && fs.inodes[a - 1].links == NameCount(dirs, a, |fs.blockUsed|) + (if a == x then d else 0)
      && (a != x ==> fs.inodes[a - 1].links > 0)
  }

  ghost predicate LiveFile(fs: Fs, a: int) {
    fs.InUse(a) && a <= |fs.inodes| && !IsDirectory(fs, a) && a > LAST_RESERVED_INODE
  }

  ghost predicate LinksOk(fs: Fs, dirs: Dirs, x: int, d: int) {
    forall a: int {:trigger LinkOk(fs, dirs, x, d, a)} :: LinkOk(fs, dirs, x, d, a)
  }

  ghost predicate IsImage(fs: Fs, owner: Owners, dirs: Dirs, x: int, d: int) {
    && Consistent(fs, owner) && DirsInRange(dirs, |fs.blockUsed|)
    && DirBlocksOk(fs, owner, dirs) && BlocksOk(fs, dirs) && NamesOk(fs, dirs) && LinksOk(fs, dirs, x, d)
  }

  /** The directory as a map. */
  ghost function DirView(fs: Fs, dirs: Dirs, a: int): Bindings
    requires Shaped(fs) && 1 <= a <= |fs.inodes|
  {
    View(Listing(Slots(fs, a), dirs))
  }

  /** Every block of a directory is a directory block. */
  lemma DirectoryBlocks(fs: Fs, owner: Owners, dirs: Dirs, a: nat)
    requires Consistent(fs, owner) && DirBlocksOk(fs, owner, dirs) && LiveDirectory(fs, a)
    ensures IsDirInode(fs, dirs, a)
  {
    forall j | 0 <= j < INDIRECT1_INDEX ensures Slots(fs, a)[j] == 0 || Slots(fs, a)[j] in dirs {
      assert SlotOk(fs, owner, a, j) && DirBlockOk(fs, owner, dirs, BlockNumber(fs, a, j));
    }
  }

  /** No block of another inode is a directory block. */
  lemma FileBlocks(fs: Fs, owner: Owners, dirs: Dirs, a: nat)
    requires Consistent(fs, owner) && DirBlocksOk(fs, owner, dirs) && DirsInRange(dirs, |fs.blockUsed|)
    requires fs.InUse(a) && a <= |fs.inodes| && !IsDirectory(fs, a)
    ensures NotDirs(Slots(fs, a), INDIRECT1_INDEX, dirs)
  {
    forall j | 0 <= j < INDIRECT1_INDEX ensures Slots(fs, a)[j] !in dirs {
      assert SlotOk(fs, owner, a, j) && DirBlockOk(fs, owner, dirs, BlockNumber(fs, a, j));
    }
  }

  // ---------------------------------------------------------------- where a block is

  /** Block n is in no slot of an inode in use but slot j of inode a. */
  ghost predicate OnlyAt(fs: Fs, n: int, a: int, j: int)
    requires Shaped(fs)
  {
    forall b, i :: 1 <= b <= |fs.inodes| && fs.InUse(b) && 0 <= i < INDIRECT1_INDEX && (b, i) != (a, j) ==>
        Slots(fs, b)[i] != n
  }

  lemma OwnedOnlyThere(fs: Fs, owner: Owners, a: nat, j: nat)
    requires Consistent(fs, owner) && fs.InUse(a) && j < INDIRECT1_INDEX && Slots(fs, a)[j] != 0
    ensures OnlyAt(fs, Slots(fs, a)[j], a, j)
  {
    forall b, i | 1 <= b <= |fs.inodes| && fs.InUse(b) && 0 <= i < INDIRECT1_INDEX && (b, i) != (a, j)
      ensures Slots(fs, b)[i] != Slots(fs, a)[j]
    {
      if Slots(fs, b)[i] == Slots(fs, a)[j] {
        OneOwner(fs, owner, a, j, b, i);
      }
    }
  }

  lemma FreeNowhere(fs: Fs, owner: Owners, n: int, a: int, j: int)
    requires Consistent(fs, owner) && n !in owner && n != 0
    ensures OnlyAt(fs, n, a, j)
  {
    forall b, i | 1 <= b <= |fs.inodes| && fs.InUse(b) && 0 <= i < INDIRECT1_INDEX ensures Slots(fs, b)[i] != n {
      assert SlotOk(fs, owner, b, i);
    }
  }

  // ---------------------------------------------------------------- changing one block of one directory

  /** Nothing about inodes has changed but the slots of inode a. */
  ghost predicate SameInodes(fs: Fs, fs': Fs, a: int) {
    && Shaped(fs) && Shaped(fs') && fs'.inodeUsed == fs.inodeUsed && |fs'.blockUsed| == |fs.blockUsed|
    && (forall b {:trigger fs'.inodes[b]} {:trigger fs.inodes[b]} :: 0 <= b < |fs.inodes| ==>
          && fs'.inodes[b].isDir == fs.inodes[b].isDir && fs'.inodes[b].links == fs.inodes[b].links
          && (b != a - 1 ==> fs'.inodes[b].block == fs.inodes[b].block))
  }

  lemma DetachedSame(fs: Fs, a: nat, j: nat)
    requires Shaped(fs) && 1 <= a <= |fs.inodes| && j < INDIRECT1_INDEX && 1 <= BlockNumber(fs, a, j) <= |fs.blockUsed|
    ensures SameInodes(fs, Detached(fs, a, j), a) && Slots(Detached(fs, a, j), a) == Slots(fs, a)[j := 0]
  {
  }

  lemma AttachedSame(fs: Fs, a: nat, j: nat)
    requires Shaped(fs) && 1 <= a <= |fs.inodes| && j < INDIRECT1_INDEX && NextBlock(fs) <= |fs.blockUsed|
    ensures SameInodes(fs, Attached(fs, a, j), a) && Slots(Attached(fs, a, j), a) == Slots(fs, a)[j := NextBlock(fs)]
  {
  }

  /** Only block n changes. */
  ghost predicate OnlyDir(dirs: Dirs, dirs': Dirs, n: int) {
    forall m {:trigger EntriesIn(dirs', m)} :: m != n ==> EntriesIn(dirs', m) == EntriesIn(dirs, m)
  }

  /** The listing of a directory that does not have block n does not change with it. */
  lemma OtherListing(fs: Fs, dirs: Dirs, fs': Fs, dirs': Dirs, n: int, a: int, j: int, b: int)
    requires SameInodes(fs, fs', a) && OnlyAt(fs, n, a, j) && OnlyDir(dirs, dirs', n)
    requires fs.InUse(b) && b != a
    ensures Listing(Slots(fs', b), dirs') == Listing(Slots(fs, b), dirs)
  {
    assert fs'.inodes[b - 1].block == fs.inodes[b - 1].block;
    forall i | 0 <= i < INDIRECT1_INDEX ensures EntriesIn(dirs', Slots(fs, b)[i]) == EntriesIn(dirs, Slots(fs, b)[i]) {
      assert (b, i) != (a, j);
    }
    ListingSame(Slots(fs, b), dirs, dirs');
  }

  /** All other directories are as they were. */
  ghost predicate OthersSame(fs: Fs, dirs: Dirs, fs': Fs, dirs': Dirs, a: int) {
    forall b {:trigger LiveDirectory(fs', b)} {:trigger LiveDirectory(fs, b)} ::
      LiveDirectory(fs', b) == LiveDirectory(fs, b)
          && (LiveDirectory(fs, b) && b != a ==> DirView(fs', dirs', b) == DirView(fs, dirs, b))
  }

  lemma {:induction false} NamesKept(fs: Fs, dirs: Dirs, fs': Fs, dirs': Dirs, n: int, a: int, j: int)
    requires SameInodes(fs, fs', a) && OnlyAt(fs, n, a, j) && OnlyDir(dirs, dirs', n) && LiveDirectory(fs, a)
    requires NamesOk(fs, dirs) && DistinctNames(Listing(Slots(fs', a), dirs'))
    ensures NamesOk(fs', dirs') && OthersSame(fs, dirs, fs', dirs', a)
  {
    forall b: int ensures LiveDirectory(fs', b) == LiveDirectory(fs, b) {
      if 1 <= b <= |fs.inodes| {
        assert fs'.inodes[b - 1].isDir == fs.inodes[b - 1].isDir;
      }
    }
    forall b | LiveDirectory(fs, b) && b != a ensures Listing(Slots(fs', b), dirs') == Listing(Slots(fs, b), dirs) {
      OtherListing(fs, dirs, fs', dirs', n, a, j, b);
    }
  }

  lemma EntryOkSame(fs: Fs, fs': Fs, a: int, e: Dirent)
    requires SameInodes(fs, fs', a)
    ensures EntryOk(fs', e) == EntryOk(fs, e)
  {
    if 1 <= e.inode <= |fs.inodes| {
      assert fs'.inodes[e.inode - 1].isDir == fs.inodes[e.inode - 1].isDir;
    }
  }

  lemma EntriesOkSame(fs: Fs, fs': Fs, a: int, es: seq<Dirent>)
    requires SameInodes(fs, fs', a) && EntriesOk(fs, es)
    ensures EntriesOk(fs', es)
  {
    forall k | 0 <= k < |es| ensures EntryOk(fs', es[k]) {
      EntryOkSame(fs, fs', a, es[k]);
    }
  }

  lemma BlocksKept(fs: Fs, dirs: Dirs, fs': Fs, dirs': Dirs, n: int, a: int)
    requires SameInodes(fs, fs', a) && OnlyDir(dirs, dirs', n) && BlocksOk(fs, dirs)
             && EntriesOk(fs, EntriesIn(dirs', n))
    ensures BlocksOk(fs', dirs')
  {
    forall m: int ensures EntriesOk(fs', EntriesIn(dirs', m)) {
      assert EntriesOk(fs, EntriesIn(dirs, m));
      EntriesOkSame(fs, fs', a, EntriesIn(dirs', m));
    }
  }

  /** The names that es' has more than es are names of inode x; there are c of them. */
  ghost predicate MoreNames(es: seq<Dirent>, es': seq<Dirent>, x: int, c: int) {
    forall b: int {:trigger NamesFor(es', b)} :: NamesFor(es', b) == NamesFor(es, b) + if b == x then c else 0
  }

  lemma LinkFollows(fs: Fs, dirs: Dirs, fs': Fs, dirs': Dirs, a: int, n: int, x: int, d: int, c: int, b: int)
    requires SameInodes(fs, fs', a) && OnlyDir(dirs, dirs', n) && 1 <= n <= |fs.blockUsed|
    requires MoreNames(EntriesIn(dirs, n), EntriesIn(dirs', n), x, c) && LinkOk(fs, dirs, x, d, b)
    ensures LinkOk(fs', dirs', x, d - c, b)
  {
    NameCountChanged(dirs, dirs', b, |fs.blockUsed|, n);
    assert NamesFor(EntriesIn(dirs', n), b) == NamesFor(EntriesIn(dirs, n), b) + if b == x then c else 0;
    if 1 <= b <= |fs.inodes| {
      assert fs'.inodes[b - 1].links == fs.inodes[b - 1].links;
    }
  }

  lemma LinksFollow(fs: Fs, dirs: Dirs, fs': Fs, dirs': Dirs, a: int, n: int, x: int, d: int, c: int, d': int)
    requires d' == d - c && SameInodes(fs, fs', a) && OnlyDir(dirs, dirs', n) && 1 <= n <= |fs.blockUsed|
    requires MoreNames(EntriesIn(dirs, n), EntriesIn(dirs', n), x, c) && LinksOk(fs, dirs, x, d)
    ensures LinksOk(fs', dirs', x, d')
  {
    forall b: int ensures LinkOk(fs', dirs', x, d', b) {
      assert LinkOk(fs, dirs, x, d, b);
      LinkFollows(fs, dirs, fs', dirs', a, n, x, d, c, b);
    }
  }

  lemma InsertedEntriesOk(fs: Fs, es: seq<Dirent>, k: nat, inode: int, name: Name, fileType: Byte)
    requires EntriesOk(fs, es) && k < |es| && es[k].recLen >= MinRecLen(es[k])
    requires EntryOk(fs, Dirent(inode, 0, name, fileType))
    ensures EntriesOk(fs, Inserted(es, k, inode, name, fileType))
  {
    var es' := Inserted(es, k, inode, name, fileType);
    forall i | 0 <= i < |es'| ensures EntryOk(fs, es'[i]) {
      if i != k + 1 {
        assert EntryOk(fs, es[if i <= k then i else i - 1]);
      }
    }
  }

  lemma DeletedEntriesOk(fs: Fs, es: seq<Dirent>, k: nat)
    requires EntriesOk(fs, es) && k < |es|
    ensures EntriesOk(fs, Deleted(es, k))
  {
    var es' := Deleted(es, k);
    forall i | 0 <= i < |es'| ensures EntryOk(fs, es'[i]) {
      assert EntryOk(fs, es[if i < k || k == 0 then i else i + 1]);
    }
  }

  /** Block n, in no slot but slot j of directory a, gets other entries: fs', owner' and dirs' are as they
      should be, provided that no name occurs twice. */
  lemma {:induction false} DirReplaced(fs: Fs, owner: Owners, dirs: Dirs, fs': Fs, owner': Owners, dirs': Dirs,
                                       a: nat, j: nat, n: int, x: int, d: int, c: int, d': int)
    requires IsImage(fs, owner, dirs, x, d) && LiveDirectory(fs, a) && OnlyAt(fs, n, a, j) && d' == d - c
    requires SameInodes(fs, fs', a) && OnlyDir(dirs, dirs', n) && Consistent(fs', owner')
    requires 1 <= n <= |fs.blockUsed| && DirsInRange(dirs', |fs.blockUsed|) && DirBlocksOk(fs', owner', dirs')
    requires EntriesOk(fs, EntriesIn(dirs', n)) && MoreNames(EntriesIn(dirs, n), EntriesIn(dirs', n), x, c)
    requires DistinctNames(Listing(Slots(fs', a), dirs'))
    ensures IsImage(fs', owner', dirs', x, d') && OthersSame(fs, dirs, fs', dirs', a)
  {
    NamesKept(fs, dirs, fs', dirs', n, a, j);
    BlocksKept(fs, dirs, fs', dirs', n, a);
    LinksFollow(fs, dirs, fs', dirs', a, n, x, d, c, d');
  }

  lemma ListingAt(s: seq<int>, j: nat, dirs: Dirs, s': seq<int>, dirs': Dirs)
    requires j < |s| == |s'| && s' == s[j := s'[j]]
    requires forall i :: 0 <= i < |s| && i != j ==> EntriesIn(dirs', s[i]) == EntriesIn(dirs, s[i])
    ensures Listing(s, dirs) == Listing(s[..j], dirs) + EntriesIn(dirs, s[j]) + Listing(s[j + 1..], dirs)
    ensures Listing(s', dirs') == Listing(s[..j], dirs) + EntriesIn(dirs', s'[j]) + Listing(s[j + 1..], dirs)
  {
    ListingSplit(s, j, dirs);
    assert s'[..j] == s[..j] && s'[j + 1..] == s[j + 1..];
    ListingChanged(s, s', j, dirs, dirs');
  }

  /** The listing of the directory whose slot j is the only one with block n, before and after. */
  lemma DirListing(fs: Fs, dirs: Dirs, a: nat, j: nat, n: int, s': seq<int>, dirs': Dirs)
    requires LiveDirectory(fs, a) && j < INDIRECT1_INDEX && OnlyAt(fs, n, a, j) && OnlyDir(dirs, dirs', n)
    requires |s'| == INDIRECT1_INDEX && s' == Slots(fs, a)[j := s'[j]]
    ensures var s := Slots(fs, a);
            && Listing(s, dirs) == Listing(s[..j], dirs) + EntriesIn(dirs, s[j]) + Listing(s[j + 1..], dirs)
            && Listing(s', dirs') == Listing(s[..j], dirs) + EntriesIn(dirs', s'[j]) + Listing(s[j + 1..], dirs)
  {
    var s := Slots(fs, a);
    forall i | 0 <= i < |s| && i != j ensures EntriesIn(dirs', s[i]) == EntriesIn(dirs, s[i]) {
      assert (a, i) != (a, j);
    }
    ListingAt(s, j, dirs, s', dirs');
  }

  lemma DirectorySame(fs: Fs, fs': Fs, a: int, b: int)
    requires SameInodes(fs, fs', a)
    ensures IsDirectory(fs', b) == IsDirectory(fs, b)
  {
    if 1 <= b <= |fs.inodes| {
      assert fs'.inodes[b - 1].isDir == fs.inodes[b - 1].isDir;
    }
  }

  lemma DirBlocksDropped(fs: Fs, fs': Fs, a: int, owner: Owners, dirs: Dirs, n: int)
    requires SameInodes(fs, fs', a) && DirBlocksOk(fs, owner, dirs)
    ensures DirBlocksOk(fs', owner - {n}, dirs - {n})
  {
    var owner', dirs' := owner - {n}, dirs - {n};
    forall m: int ensures DirBlockOk(fs', owner', dirs', m) {
      assert DirBlockOk(fs, owner, dirs, m);
      if m in owner {
        DirectorySame(fs, fs', a, owner[m].0);
      }
    }
  }

  lemma DirBlocksGrown(fs: Fs, fs': Fs, a: nat, j: nat, owner: Owners, dirs: Dirs, n: int, es: seq<Dirent>)
    requires SameInodes(fs, fs', a) && DirBlocksOk(fs, owner, dirs) && IsDirectory(fs, a)
    ensures DirBlocksOk(fs', owner[n := (a, j)], dirs[n := es])
  {
    var owner', dirs' := owner[n := (a, j)], dirs[n := es];
    DirectorySame(fs, fs', a, a);
    forall m: int ensures DirBlockOk(fs', owner', dirs', m) {
      assert DirBlockOk(fs, owner, dirs, m);
      if m in owner {
        DirectorySame(fs, fs', a, owner[m].0);
      }
    }
  }

  lemma OneInserted(es: seq<Dirent>, k: nat, x: int, name: Name, fileType: Byte)
    requires k < |es| && es[k].recLen >= MinRecLen(es[k]) && name != []
    ensures MoreNames(es, Inserted(es, k, x, name, fileType), x, 1)
  {
    var es' := Inserted(es, k, x, name, fileType);
    forall b: int ensures NamesFor(es', b) == NamesFor(es, b) + if b == x then 1 else 0 {
      NamesInserted(es, k, x, name, fileType, b);
    }
  }

  lemma OneDeleted(es: seq<Dirent>, k: nat, x: int)
    requires k < |es| && es[k].name != [] && es[k].inode == x
    ensures MoreNames(es, Deleted(es, k), x, -1)
  {
    var es' := Deleted(es, k);
    forall b: int ensures NamesFor(es', b) == NamesFor(es, b) + if b == x then -1 else 0 {
      NamesDeleted(es, k, b);
    }
  }

  lemma OneAlone(e: Dirent)
    requires e.name != []
    ensures MoreNames([], [e], e.inode, 1)
  {
    forall b: int ensures NamesFor([e], b) == NamesFor([], b) + if b == e.inode then 1 else 0 {
      NamesOne(e, b);
    }
  }

  lemma NoneDropped(es: seq<Dirent>, x: int)
    requires IsEmpty(es)
    ensures MoreNames(es, [], x, 0)
  {
    var none: seq<Dirent> := [];
    forall b: int ensures NamesFor(none, b) == NamesFor(es, b) + if b == x then 0 else 0 {
      NoNames(es, b);
    }
  }

  lemma DirBlocksKept(fs: Fs, owner: Owners, dirs: Dirs, n: int, es': seq<Dirent>)
    requires DirBlocksOk(fs, owner, dirs) && n in dirs
    ensures DirBlocksOk(fs, owner, dirs[n := es'])
  {
    var dirs' := dirs[n := es'];
    forall m: int ensures DirBlockOk(fs, owner, dirs', m) {
      assert DirBlockOk(fs, owner, dirs, m);
    }
  }

  /** A name of inode x is put into an existing block: the directory maps it to x, nothing else changes,
      and x has one name more. */
  lemma {:induction false} InsertedImage(fs: Fs, owner: Owners, dirs: Dirs, x: int, d: int, a: nat, j: nat, k: nat,
                                         name: Name, fileType: Byte)
    requires IsImage(fs, owner, dirs, x, d) && LiveDirectory(fs, a) && j < INDIRECT1_INDEX && Slots(fs, a)[j] in dirs
    requires k < |dirs[Slots(fs, a)[j]]| && dirs[Slots(fs, a)[j]][k].recLen >= MinRecLen(dirs[Slots(fs, a)[j]][k])
    requires name != [] && name !in DirView(fs, dirs, a) && EntryOk(fs, Dirent(x, 0, name, fileType))
    ensures var n := Slots(fs, a)[j]; var dirs' := dirs[n := Inserted(dirs[n], k, x, name, fileType)];
            && IsImage(fs, owner, dirs', x, d - 1) && OthersSame(fs, dirs, fs, dirs', a)
            && DirView(fs, dirs', a) == DirView(fs, dirs, a)[name := Target(x, fileType)]
  {
    var s, n := Slots(fs, a), Slots(fs, a)[j];
    var es' := Inserted(dirs[n], k, x, name, fileType);
    var dirs' := dirs[n := es'];
    OwnedOnlyThere(fs, owner, a, j);
    DirListing(fs, dirs, a, j, n, s, dirs');
    InsertedView(Listing(s[..j], dirs), dirs[n], Listing(s[j + 1..], dirs), k, x, name, fileType);
    assert EntriesOk(fs, EntriesIn(dirs, n));
    InsertedEntriesOk(fs, dirs[n], k, x, name, fileType);
    DirBlocksKept(fs, owner, dirs, n, es');
    OneInserted(dirs[n], k, x, name, fileType);
    DirReplaced(fs, owner, dirs, fs, owner, dirs', a, j, n, x, d, 1, d - 1);
  }

  /** A name of inode x is deleted from a block: the directory loses it, nothing else changes, and x
      has one name less. */
  lemma {:induction false} DeletedImage(fs: Fs, owner: Owners, dirs: Dirs, x: int, d: int, a: nat, j: nat, name: Name)
    requires IsImage(fs, owner, dirs, x, d) && LiveDirectory(fs, a) && j < INDIRECT1_INDEX
             && HasNamed(dirs, Slots(fs, a)[j], name)
    requires name != [] && dirs[Slots(fs, a)[j]][FirstNamed(dirs[Slots(fs, a)[j]], name)].inode == x
    ensures var n := Slots(fs, a)[j]; var dirs' := dirs[n := Deleted(dirs[n], FirstNamed(dirs[n], name))];
            && IsImage(fs, owner, dirs', x, d + 1) && OthersSame(fs, dirs, fs, dirs', a)
            && DirView(fs, dirs', a) == DirView(fs, dirs, a) - {name}
  {
    var s, n := Slots(fs, a), Slots(fs, a)[j];
    var k := FirstNamed(dirs[n], name);
    var es' := Deleted(dirs[n], k);
    var dirs' := dirs[n := es'];
    OwnedOnlyThere(fs, owner, a, j);
    DirListing(fs, dirs, a, j, n, s, dirs');
    DeletedView(Listing(s[..j], dirs), dirs[n], Listing(s[j + 1..], dirs), name);
    assert EntriesOk(fs, EntriesIn(dirs, n));
    DeletedEntriesOk(fs, dirs[n], k);
    DirBlocksKept(fs, owner, dirs, n, es');
    OneDeleted(dirs[n], k, x);
    DirReplaced(fs, owner, dirs, fs, owner, dirs', a, j, n, x, d, -1, d + 1);
  }

  lemma NothingBetween(pre: seq<Dirent>, post: seq<Dirent>)
    ensures pre + [] + post == pre + post
  {
  }

  lemma {:induction false} DroppedListing(pre: seq<Dirent>, mid: seq<Dirent>, post: seq<Dirent>)
    requires DistinctNames(pre + mid + post) && IsEmpty(mid)
    ensures DistinctNames(pre + [] + post) && View(pre + [] + post) == View(pre + mid + post)
  {
    UnnamedDropped(pre, mid, post);
    NothingBetween(pre, post);
  }

  lemma {:induction false} GrownListing(pre: seq<Dirent>, e: Dirent, post: seq<Dirent>)
    requires DistinctNames(pre + [] + post) && e.name != [] && e.name !in View(pre + [] + post)
    ensures DistinctNames(pre + [e] + post) && View(pre + [e] + post) == View(pre + [] + post)[e.name := TargetOf(e)]
  {
    NothingBetween(pre, post);
    WithView(pre + post, |pre|, e);
    assert With(pre + post, |pre|, e) == pre + [e] + post;
  }

  /** Without a block that has no names, a directory means the same. */
  lemma {:induction false} DroppedView(fs: Fs, dirs: Dirs, a: nat, j: nat, n: int, s': seq<int>, dirs': Dirs)
    requires LiveDirectory(fs, a) && j < INDIRECT1_INDEX && Slots(fs, a)[j] == n && OnlyAt(fs, n, a, j) && 0 !in dirs
    requires n in dirs && IsEmpty(dirs[n]) && dirs' == dirs - {n} && s' == Slots(fs, a)[j := 0]
    requires DistinctNames(Listing(Slots(fs, a), dirs))
    ensures DistinctNames(Listing(s', dirs')) && View(Listing(s', dirs')) == DirView(fs, dirs, a)
  {
    var s := Slots(fs, a);
    DirListing(fs, dirs, a, j, n, s', dirs');
    DroppedListing(Listing(s[..j], dirs), dirs[n], Listing(s[j + 1..], dirs));
  }

  lemma DirRemoved(fs: Fs, dirs: Dirs, n: int)
    requires DirsInRange(dirs, |fs.blockUsed|) && n in dirs
    ensures 1 <= n <= |fs.blockUsed| && 0 !in dirs && DirsInRange(dirs - {n}, |fs.blockUsed|)
            && OnlyDir(dirs, dirs - {n}, n)
    ensures EntriesIn(dirs, n) == dirs[n] && EntriesIn(dirs - {n}, n) == [] && EntriesOk(fs, EntriesIn(dirs - {n}, n))
  {
  }

  lemma {:induction false} Dropped(fs: Fs, owner: Owners, dirs: Dirs, fs': Fs, a: nat, j: nat, n: int, x: int, d: int)
    requires IsImage(fs, owner, dirs, x, d) && LiveDirectory(fs, a) && j < INDIRECT1_INDEX && Slots(fs, a)[j] == n
             && n in dirs
    requires SameInodes(fs, fs', a) && Slots(fs', a) == Slots(fs, a)[j := 0] && Consistent(fs', owner - {n})
             && IsEmpty(dirs[n])
    ensures var dirs' := dirs - {n};
            && IsImage(fs', owner - {n}, dirs', x, d) && OthersSame(fs, dirs, fs', dirs', a)
            && DirView(fs', dirs', a) == DirView(fs, dirs, a)
  {
    var dirs' := dirs - {n};
    OwnedOnlyThere(fs, owner, a, j);
    DirRemoved(fs, dirs, n);
    DroppedView(fs, dirs, a, j, n, Slots(fs', a), dirs');
    DirBlocksDropped(fs, fs', a, owner, dirs, n);
    NoneDropped(dirs[n], x);
    DirReplaced(fs, owner, dirs, fs', owner - {n}, dirs', a, j, n, x, d, 0, d);
  }

  /** A block without names is taken out of a directory. */
  lemma {:induction false} DroppedImage(fs: Fs, owner: Owners, dirs: Dirs, x: int, d: int, a: nat, j: nat)
    requires IsImage(fs, owner, dirs, x, d) && LiveDirectory(fs, a) && j < INDIRECT1_INDEX && Slots(fs, a)[j] in dirs
    requires Slots(fs, a)[j] > LAST_RESERVED_BLOCK && IsEmpty(dirs[Slots(fs, a)[j]])
    ensures var n := Slots(fs, a)[j]; var fs', dirs' := Detached(fs, a, j), dirs - {n};
            && IsImage(fs', owner - {n}, dirs', x, d) && OthersSame(fs, dirs, fs', dirs', a)
            && DirView(fs', dirs', a) == DirView(fs, dirs, a)
  {
    DetachedConsistent(fs, owner, a, j);
    DetachedSame(fs, a, j);
    Dropped(fs, owner, dirs, Detached(fs, a, j), a, j, Slots(fs, a)[j], x, d);
  }

  /** With a new block for a fresh name, a directory means one binding more. */
  lemma {:induction false} GrownView(fs: Fs, dirs: Dirs, a: nat, j: nat, n: int, s': seq<int>, dirs': Dirs, e: Dirent)
    requires LiveDirectory(fs, a) && j < INDIRECT1_INDEX && Slots(fs, a)[j] == 0 && OnlyAt(fs, n, a, j) && 0 !in dirs
    requires OnlyDir(dirs, dirs', n) && EntriesIn(dirs', n) == [e] && s' == Slots(fs, a)[j := n]
    requires DistinctNames(Listing(Slots(fs, a), dirs)) && e.name != [] && e.name !in DirView(fs, dirs, a)
    ensures DistinctNames(Listing(s', dirs')) && View(Listing(s', dirs')) == DirView(fs, dirs, a)[e.name := TargetOf(e)]
  {
    var s := Slots(fs, a);
    DirListing(fs, dirs, a, j, n, s', dirs');
    GrownListing(Listing(s[..j], dirs), e, Listing(s[j + 1..], dirs));
  }

  lemma DirAdded(fs: Fs, owner: Owners, dirs: Dirs, n: int, e: Dirent)
    requires DirsInRange(dirs, |fs.blockUsed|) && DirBlocksOk(fs, owner, dirs) && n !in owner && EntryOk(fs, e)
    requires 1 <= n <= |fs.blockUsed|
    ensures 0 !in dirs && DirsInRange(dirs[n := [e]], |fs.blockUsed|) && OnlyDir(dirs, dirs[n := [e]], n)
    ensures EntriesIn(dirs, n) == [] && EntriesIn(dirs[n := [e]], n) == [e]
    ensures EntriesOk(fs, EntriesIn(dirs[n := [e]], n))
  {
    assert DirBlockOk(fs, owner, dirs, n);
  }

  lemma {:induction false} Grown(fs: Fs, owner: Owners, dirs: Dirs, fs': Fs, a: nat, j: nat, n: int, d: int, e: Dirent)
    requires IsImage(fs, owner, dirs, e.inode, d) && LiveDirectory(fs, a) && j < INDIRECT1_INDEX && Slots(fs, a)[j] == 0
    requires SameInodes(fs, fs', a) && Slots(fs', a) == Slots(fs, a)[j := n] && Consistent(fs', owner[n := (a, j)])
    requires 1 <= n <= |fs.blockUsed| && n !in owner && e.name != [] && e.name !in DirView(fs, dirs, a)
             && EntryOk(fs, e)
    ensures var dirs' := dirs[n := [e]];
            && IsImage(fs', owner[n := (a, j)], dirs', e.inode, d - 1) && OthersSame(fs, dirs, fs', dirs', a)
            && DirView(fs', dirs', a) == DirView(fs, dirs, a)[e.name := TargetOf(e)]
  {
    var dirs' := dirs[n := [e]];
    FreeNowhere(fs, owner, n, a, j);
    DirAdded(fs, owner, dirs, n, e);
    GrownView(fs, dirs, a, j, n, Slots(fs', a), dirs', e);
    DirBlocksGrown(fs, fs', a, j, owner, dirs, n, [e]);
    OneAlone(e);
    DirReplaced(fs, owner, dirs, fs', owner[n := (a, j)], dirs', a, j, n, e.inode, d, 1, d - 1);
  }

  /** A name is put into a new block in an empty slot of a directory. */
  lemma {:induction false} GrownImage(fs: Fs, owner: Owners, dirs: Dirs, d: int, a: nat, j: nat, e: Dirent)
    requires IsImage(fs, owner, dirs, e.inode, d) && LiveDirectory(fs, a) && j < INDIRECT1_INDEX && Slots(fs, a)[j] == 0
    requires fs.freeBlocks.super > 0 && e.name != [] && e.name !in DirView(fs, dirs, a) && EntryOk(fs, e)
    ensures NextBlock(fs) <= |fs.blockUsed|
    ensures var n := NextBlock(fs); var fs', dirs' := Attached(fs, a, j), dirs[n := [e]];
            && IsImage(fs', owner[n := (a, j)], dirs', e.inode, d - 1) && OthersSame(fs, dirs, fs', dirs', a)
            && DirView(fs', dirs', a) == DirView(fs, dirs, a)[e.name := TargetOf(e)]
  {
    BlockAvailable(fs, owner);
    AttachedConsistent(fs, owner, a, j);
    AttachedSame(fs, a, j);
    Grown(fs, owner, dirs, Attached(fs, a, j), a, j, NextBlock(fs), d, e);
  }
}
