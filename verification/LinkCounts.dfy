/** Giving an inode a link count, taking and freeing inodes: what becomes of the image.

    None of this changes a directory.  A command gets from one well-formed image to the next in
    several such steps, and in between one inode has a link count that differs from the number of
    its names.  The image is said to be in order but for that inode and that difference.

    A new file starts with a link and no name; deleting a name leaves a link too many; and a file
    may be freed when it has neither.
 */
module LinkCounts {
  import opened Dirents
  import opened FileSystems
  import opened Disks
  import opened Images
  import opened Links

  /** The directories have the blocks that they had. */
  ghost predicate SameDirectories(fs: Fs, fs': Fs) {
    && Shaped(fs) && Shaped(fs') && |fs'.blockUsed| == |fs.blockUsed|
    && (forall b: int {:trigger LiveDirectory(fs', b)} {:trigger LiveDirectory(fs, b)} ::
          && LiveDirectory(fs', b) == LiveDirectory(fs, b)
          && (LiveDirectory(fs, b) ==> Slots(fs', b) == Slots(fs, b)))
  }

  /** Then they hold the names that they held. */
  lemma SameViews(fs: Fs, fs': Fs, dirs: Dirs, a: int)
    requires SameDirectories(fs, fs') && NamesOk(fs, dirs)
    ensures NamesOk(fs', dirs) && OthersSame(fs, dirs, fs', dirs, a)
    ensures LiveDirectory(fs, a) ==> LiveDirectory(fs', a) && DirView(fs', dirs, a) == DirView(fs, dirs, a)
  {
  }

  // ---------------------------------------------------------------- changing a link count

  function Relinked(fs: Fs, x: nat, k: int): (fs': Fs)
    requires Shaped(fs) && 1 <= x <= |fs.inodes|
    ensures Shaped(fs')
  {
    fs.(inodes := fs.inodes[x - 1 := fs.inodes[x - 1].(links := k)])
  }

  lemma RelinkedConsistent(fs: Fs, owner: Owners, x: nat, k: int)
    requires Consistent(fs, owner) && 1 <= x <= |fs.inodes|
    ensures Consistent(Relinked(fs, x, k), owner)
  {
    var fs' := Relinked(fs, x, k);
    forall b, j | 1 <= b <= |fs.inodes| && 0 <= j < INDIRECT1_INDEX ensures SlotOk(fs', owner, b, j) {
      assert SlotOk(fs, owner, b, j);
    }
    forall m: int ensures OwnerOk(fs', owner, m) {
      assert OwnerOk(fs, owner, m);
    }
    forall m | 1 <= m <= |fs.blockUsed| ensures BitOk(fs', owner, m) {
      assert BitOk(fs, owner, m);
    }
  }

  /** The link count of x, which is d more than its names, becomes d' more than its names. */
  lemma {:induction false} RelinkedImage(fs: Fs, owner: Owners, dirs: Dirs, x: nat, d: int, k: int, d': int)
    requires IsImage(fs, owner, dirs, x, d) && LiveFile(fs, x) && d' == d + k - fs.inodes[x - 1].links
    ensures IsImage(Relinked(fs, x, k), owner, dirs, x, d') && SameDirectories(fs, Relinked(fs, x, k))
  {
    var fs' := Relinked(fs, x, k);
    RelinkedConsistent(fs, owner, x, k);
    SameViews(fs, fs', dirs, x);
    forall n: int ensures DirBlockOk(fs', owner, dirs, n) {
      assert DirBlockOk(fs, owner, dirs, n);
    }
    forall n: int ensures EntriesOk(fs', EntriesIn(dirs, n)) {
      EntriesStayOk(fs, fs', EntriesIn(dirs, n));
    }
    forall b: int ensures LinkOk(fs', dirs, x, d', b) {
      assert LinkOk(fs, dirs, x, d, b);
    }
  }

  /** Entries that are right stay right while the inodes that they name stay what they are. */
  lemma EntriesStayOk(fs: Fs, fs': Fs, es: seq<Dirent>)
    requires EntriesOk(fs, es) && |fs'.inodes| == |fs.inodes|
    requires forall k {:trigger es[k]} :: 0 <= k < |es| && es[k].name != [] ==>
               (fs.InUse(es[k].inode) ==> fs'.InUse(es[k].inode))
                   && IsDirectory(fs', es[k].inode) == IsDirectory(fs, es[k].inode)
    ensures EntriesOk(fs', es)
  {
    forall k | 0 <= k < |es| ensures EntryOk(fs', es[k]) {
      assert EntryOk(fs, es[k]);
    }
  }

  /** Nothing is in transit when the inode said to be has a name for every link, and some. */
  lemma Settled(fs: Fs, owner: Owners, dirs: Dirs, x: int)
    ensures IsImage(fs, owner, dirs, 0, 0) <==>
            IsImage(fs, owner, dirs, x, 0) && (LiveFile(fs, x) ==> fs.inodes[x - 1].links > 0)
  {
    if IsImage(fs, owner, dirs, 0, 0) {
      forall b: int ensures LinkOk(fs, dirs, x, 0, b) {
        assert LinkOk(fs, dirs, 0, 0, b);
      }
      assert LinkOk(fs, dirs, 0, 0, x);
    } else if IsImage(fs, owner, dirs, x, 0) && (LiveFile(fs, x) ==> fs.inodes[x - 1].links > 0) {
      forall b: int ensures LinkOk(fs, dirs, 0, 0, b) {
        assert LinkOk(fs, dirs, x, 0, b);
      }
    }
  }

  // ---------------------------------------------------------------- a block for a file

  /** A file, here a symbolic link, gets a block. */
  lemma {:induction false} FileGrown(fs: Fs, owner: Owners, dirs: Dirs, fs': Fs, x: nat, d: int, j: nat, n: int)
    requires IsImage(fs, owner, dirs, x, d) && LiveFile(fs, x) && SameInodes(fs, fs', x)
    requires n !in owner && Consistent(fs', owner[n := (x, j)])
    ensures IsImage(fs', owner[n := (x, j)], dirs, x, d) && SameDirectories(fs, fs')
  {
    var owner' := owner[n := (x, j)];
    forall b: int ensures LiveDirectory(fs', b) == LiveDirectory(fs, b) {
      DirectorySame(fs, fs', x, b);
    }
    forall b: int | LiveDirectory(fs, b) ensures Slots(fs', b) == Slots(fs, b) {
      assert b != x && fs'.inodes[b - 1].block == fs.inodes[b - 1].block;
    }
    SameViews(fs, fs', dirs, x);
    BlocksKept(fs, dirs, fs', dirs, 0, x);
    FileBlockOk(fs, fs', x, owner, dirs, n, j);
    forall b: int ensures LinkOk(fs', dirs, x, d, b) {
      LinkStays(fs, dirs, fs', x, x, d, b);
    }
  }

  lemma FileBlockOk(fs: Fs, fs': Fs, x: nat, owner: Owners, dirs: Dirs, n: int, j: nat)
    requires SameInodes(fs, fs', x) && DirBlocksOk(fs, owner, dirs) && !IsDirectory(fs, x) && n !in owner
    ensures DirBlocksOk(fs', owner[n := (x, j)], dirs)
  {
    var owner' := owner[n := (x, j)];
    DirectorySame(fs, fs', x, x);
    forall m: int ensures DirBlockOk(fs', owner', dirs, m) {
      assert DirBlockOk(fs, owner, dirs, m);
      if m in owner {
        DirectorySame(fs, fs', x, owner[m].0);
      }
    }
  }

  lemma LinkStays(fs: Fs, dirs: Dirs, fs': Fs, a: int, x: int, d: int, b: int)
    requires SameInodes(fs, fs', a) && LinkOk(fs, dirs, x, d, b)
    ensures LinkOk(fs', dirs, x, d, b)
  {
    if 1 <= b <= |fs.inodes| {
      assert fs'.inodes[b - 1].links == fs.inodes[b - 1].links;
    }
  }

  lemma FileGrownImage(fs: Fs, owner: Owners, dirs: Dirs, x: nat, d: int, j: nat)
    requires IsImage(fs, owner, dirs, x, d) && LiveFile(fs, x) && j < INDIRECT1_INDEX && Slots(fs, x)[j] == 0
             && fs.freeBlocks.super > 0
    ensures NextBlock(fs) <= |fs.blockUsed| && IsImage(Attached(fs, x, j), owner[NextBlock(fs) := (x, j)], dirs, x, d)
    ensures SameDirectories(fs, Attached(fs, x, j))
  {
    BlockAvailable(fs, owner);
    AttachedConsistent(fs, owner, x, j);
    AttachedSame(fs, x, j);
    FileGrown(fs, owner, dirs, Attached(fs, x, j), x, d, j, NextBlock(fs));
  }

  // ---------------------------------------------------------------- a new inode

  lemma {:induction false} NoNamesOfFree(fs: Fs, es: seq<Dirent>, x: int)
    requires EntriesOk(fs, es) && !fs.InUse(x)
    ensures NamesFor(es, x) == 0
  {
    if es != [] {
      var init := es[..|es| - 1];
      assert EntryOk(fs, es[|es| - 1]);
      forall k | 0 <= k < |init| ensures EntryOk(fs, init[k]) {
        assert EntryOk(fs, es[k]);
      }
      NoNamesOfFree(fs, init, x);
    }
  }

  /** An inode that is not in use has no names. */
  lemma {:induction false} FreeIsNameless(fs: Fs, dirs: Dirs, x: int, last: nat)
    requires BlocksOk(fs, dirs) && !fs.InUse(x)
    ensures NameCount(dirs, x, last) == 0
  {
    if last > 0 {
      FreeIsNameless(fs, dirs, x, last - 1);
      assert EntriesOk(fs, EntriesIn(dirs, last));
      NoNamesOfFree(fs, EntriesIn(dirs, last), x);
    }
  }

  /** Inode x, formerly free, has become a file with no blocks; all other inodes are as they were. */
  ghost predicate NewFile(fs: Fs, fs': Fs, x: int, links: int) {
    && Shaped(fs) && Shaped(fs') && 1 <= x <= |fs.inodes| && !fs.InUse(x) && fs'.blockUsed == fs.blockUsed
    && fs'.inodeUsed == fs.inodeUsed[x - 1 := true] && fs'.inodes == fs.inodes[x - 1 := Inode(false, links, NoBlocks())]
  }

  lemma {:induction false} FileTaken(fs: Fs, owner: Owners, dirs: Dirs, fs': Fs, x: nat, links: int)
    requires IsImage(fs, owner, dirs, 0, 0) && NewFile(fs, fs', x, links) && Consistent(fs', owner)
    ensures IsImage(fs', owner, dirs, x, links) && SameDirectories(fs, fs')
  {
    SameViews(fs, fs', dirs, x);
    FreeIsNameless(fs, dirs, x, |fs.blockUsed|);
    forall n: int ensures DirBlockOk(fs', owner, dirs, n) {
      assert DirBlockOk(fs, owner, dirs, n) && OwnerOk(fs, owner, n);
    }
    forall n: int ensures EntriesOk(fs', EntriesIn(dirs, n)) {
      assert EntriesOk(fs, EntriesIn(dirs, n));
      forall k | 0 <= k < |EntriesIn(dirs, n)| ensures EntryOk(fs', EntriesIn(dirs, n)[k]) {
        assert EntryOk(fs, EntriesIn(dirs, n)[k]);
      }
    }
    forall b: int ensures LinkOk(fs', dirs, x, links, b) {
      assert LinkOk(fs, dirs, 0, 0, b);
    }
  }

  /** A new file has links, but no names yet. */
  lemma FileTakenImage(fs: Fs, owner: Owners, dirs: Dirs, links: int)
    requires IsImage(fs, owner, dirs, 0, 0) && fs.freeInodes.super > 0
    ensures LAST_RESERVED_INODE < NextInode(fs) <= |fs.inodes| && !fs.InUse(NextInode(fs))
    ensures IsImage(InodeTaken(fs, false, links), owner, dirs, NextInode(fs), links)
    ensures SameDirectories(fs, InodeTaken(fs, false, links))
  {
    InodeAvailable(fs, owner);
    InodeTakenConsistent(fs, owner, false, links);
    FileTaken(fs, owner, dirs, InodeTaken(fs, false, links), NextInode(fs), links);
  }

  // ---------------------------------------------------------------- freeing an inode

  lemma {:induction false} NotNamed(es: seq<Dirent>, x: int, k: nat)
    requires NamesFor(es, x) == 0 && k < |es| && es[k].name != []
    ensures es[k].inode != x
  {
    if k < |es| - 1 {
      NotNamed(es[..|es| - 1], x, k);
    }
  }

  lemma {:induction false} NotNamedIn(dirs: Dirs, x: int, last: nat, n: int)
    requires NameCount(dirs, x, last) == 0 && 1 <= n <= last
    ensures NamesFor(EntriesIn(dirs, n), x) == 0
  {
    if n < last {
      NotNamedIn(dirs, x, last - 1, n);
    }
  }

  lemma {:induction false} SlotsFreedSame(fs: Fs, a: nat, i: nat)
    requires Shaped(fs) && 1 <= a <= |fs.inodes| && i <= INDIRECT1_INDEX && SlotsInRange(fs, a)
    ensures SameInodes(fs, SlotsFreed(fs, a, i), a)
    decreases i
  {
    if i > 0 {
      SlotsFreedSame(SlotFreed(fs, a, i - 1), a, i - 1);
    }
  }

  lemma {:induction false} BlocksInOwned(fs: Fs, owner: Owners, x: nat, i: nat, n: int)
    requires Consistent(fs, owner) && fs.InUse(x) && i <= INDIRECT1_INDEX && n in BlocksIn(Slots(fs, x), i)
    ensures n in owner && owner[n].0 == x
  {
    if n == Slots(fs, x)[i - 1] && n != 0 {
      assert SlotOk(fs, owner, x, i - 1);
    } else {
      BlocksInOwned(fs, owner, x, i - 1, n);
    }
  }

  /** Inode x is no longer in use; nothing else about inodes has changed but its slots. */
  ghost predicate FileGone(fs: Fs, fs': Fs, x: int) {
    Shaped(fs) && 1 <= x <= |fs.inodes| && SameInodes(InodeMarked(fs, x, false), fs', x)
  }

  lemma {:induction false} FileFreed(fs: Fs, owner: Owners, dirs: Dirs, fs': Fs, owner': Owners, x: nat)
    requires IsImage(fs, owner, dirs, x, 0) && LiveFile(fs, x) && fs.inodes[x - 1].links == 0 && FileGone(fs, fs', x)
    requires Consistent(fs', owner') && owner' == owner - BlocksIn(Slots(fs, x), INDIRECT1_INDEX)
    ensures IsImage(fs', owner', dirs, 0, 0) && SameDirectories(fs, fs')
  {
    assert LinkOk(fs, dirs, x, 0, x);
    FreedSame(fs, fs', x);
    SameViews(fs, fs', dirs, x);
    FreedBlocksOk(fs, owner, dirs, fs', owner', x);
    FreedEntriesOk(fs, dirs, fs', x);
    FreedLinksOk(fs, dirs, fs', x);
  }

  lemma FreedSame(fs: Fs, fs': Fs, x: nat)
    requires LiveFile(fs, x) && FileGone(fs, fs', x)
    ensures SameDirectories(fs, fs')
  {
    var fs1 := InodeMarked(fs, x, false);
    forall b: int ensures LiveDirectory(fs', b) == LiveDirectory(fs, b) {
      DirectorySame(fs1, fs', x, b);
    }
    forall b: int | LiveDirectory(fs, b) ensures Slots(fs', b) == Slots(fs, b) {
      assert b != x && fs'.inodes[b - 1].block == fs1.inodes[b - 1].block;
    }
  }

  lemma FreedLinksOk(fs: Fs, dirs: Dirs, fs': Fs, x: nat)
    requires LiveFile(fs, x) && FileGone(fs, fs', x) && LinksOk(fs, dirs, x, 0)
    ensures LinksOk(fs', dirs, 0, 0)
  {
    forall b: int ensures LinkOk(fs', dirs, 0, 0, b) {
      assert LinkOk(fs, dirs, x, 0, b);
      assert 1 <= b <= |fs.inodes| ==> fs'.inodes[b - 1].links == InodeMarked(fs, x, false).inodes[b - 1].links;
    }
  }

  lemma {:induction false} FreedBlocksOk(fs: Fs, owner: Owners, dirs: Dirs, fs': Fs, owner': Owners, x: nat)
    requires Consistent(fs, owner) && DirBlocksOk(fs, owner, dirs) && LiveFile(fs, x) && FileGone(fs, fs', x)
    requires owner' == owner - BlocksIn(Slots(fs, x), INDIRECT1_INDEX)
    ensures DirBlocksOk(fs', owner', dirs)
  {
    forall n: int ensures DirBlockOk(fs', owner', dirs, n) {
      assert DirBlockOk(fs, owner, dirs, n);
      if n in owner {
        DirectorySame(InodeMarked(fs, x, false), fs', x, owner[n].0);
      }
      if n in BlocksIn(Slots(fs, x), INDIRECT1_INDEX) {
        BlocksInOwned(fs, owner, x, INDIRECT1_INDEX, n);
      }
    }
  }

  lemma {:induction false} FreedEntriesOk(fs: Fs, dirs: Dirs, fs': Fs, x: nat)
    requires BlocksOk(fs, dirs) && DirsInRange(dirs, |fs.blockUsed|) && NameCount(dirs, x, |fs.blockUsed|) == 0
             && FileGone(fs, fs', x)
    ensures BlocksOk(fs', dirs)
  {
    forall n: int ensures EntriesOk(fs', EntriesIn(dirs, n)) {
      var es := EntriesIn(dirs, n);
      assert EntriesOk(fs, es);
      forall k | 0 <= k < |es| ensures EntryOk(fs', es[k]) {
        assert EntryOk(fs, es[k]);
        NotNamedIn(dirs, x, |fs.blockUsed|, n);
        if es[k].name != [] {
          NotNamed(es, x, k);
        }
        DirectorySame(InodeMarked(fs, x, false), fs', x, es[k].inode);
      }
    }
  }

  /** A file with no names left is freed. */
  lemma {:induction false} FileFreedImage(fs: Fs, owner: Owners, dirs: Dirs, x: nat)
    requires IsImage(fs, owner, dirs, x, 0) && LiveFile(fs, x) && fs.inodes[x - 1].links == 0 && OwnsUnreserved(fs, x)
    ensures SlotsInRange(fs, x)
    ensures IsImage(InodeFreed(fs, x), owner - BlocksIn(Slots(fs, x), INDIRECT1_INDEX), dirs, 0, 0)
    ensures SameDirectories(fs, InodeFreed(fs, x)) && !InodeFreed(fs, x).InUse(x)
  {
    InodeFreedConsistent(fs, owner, x);
    SlotsFreedSame(InodeMarked(fs, x, false), x, |Slots(fs, x)|);
    FileFreed(fs, owner, dirs, InodeFreed(fs, x), owner - BlocksIn(Slots(fs, x), INDIRECT1_INDEX), x);
  }
}
