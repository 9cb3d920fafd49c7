/** What ln, ln -s and rm answer, said of where their paths lead (a3/ext2_ln.c, a3/ext2_rm.c).

    In a well-formed image a path leads nowhere, to a directory or to a file.  Which error a command gives, and
    whether it succeeds, follows from that and from what is free.
 */
module Answers {
  import opened Dirents
  import opened DirBlocks
  import opened BlockRuns
  import opened FileSystems
  import opened Disks
  import opened Links
  import opened Trees
  import opened Commands
  import opened Runs

  // ---------------------------------------------------------------- where paths lead

  ghost predicate LeadsNowhere(fs: Fs, dirs: Dirs, path: Path)
    requires Shaped(fs)
  {
    Resolve(fs, dirs, path) == None
  }

  ghost predicate LeadsToDirectory(fs: Fs, dirs: Dirs, path: Path)
    requires Shaped(fs)
  {
    var r := Resolve(fs, dirs, path);
    r.Some? && LiveDirectory(fs, r.value.inode)
  }

  ghost predicate LeadsToFile(fs: Fs, dirs: Dirs, path: Path)
    requires Shaped(fs)
  {
    var r := Resolve(fs, dirs, path);
    r.Some? && LiveFile(fs, r.value.inode)
  }

  /** A path leads nowhere, to a directory or to a file, and its entry says which. */
  lemma LeadsSomehow(fs: Fs, owner: Owners, dirs: Dirs, path: Path)
    requires Image(fs, owner, dirs) && path != []
    ensures LeadsToDirectory(fs, dirs, path) <==>
            Resolve(fs, dirs, path).Some? && Resolve(fs, dirs, path).value.fileType == EXT2_FT_DIR
    ensures LeadsToFile(fs, dirs, path) <==>
            Resolve(fs, dirs, path).Some? && Resolve(fs, dirs, path).value.fileType != EXT2_FT_DIR
  {
    ResolveLive(fs, owner, dirs, path);
  }

  // ---------------------------------------------------------------- ln

  /** The errors of ext2_ln. */
  ghost predicate LinkAnswer(fs: Fs, dirs: Dirs, source: Path, dest: Path, status: Status)
    requires Shaped(fs) && dest != []
  {
    && (status == NoSuchFile <==> LeadsNowhere(fs, dirs, source))
    && (status == IsADirectory <==>
          || LeadsToDirectory(fs, dirs, source)
          || (LeadsToFile(fs, dirs, source) && LeadsToDirectory(fs, dirs, dest)))
    && (status == AlreadyExists <==> LeadsToFile(fs, dirs, source) && LeadsToFile(fs, dirs, dest))
    && (status == NoSuchParent <==>
          && LeadsToFile(fs, dirs, source) && LeadsNowhere(fs, dirs, dest)
          && LeadsNowhere(fs, dirs, dest[..|dest| - 1]))
  }

  /** There is none of these errors. */
  ghost predicate Linkable(fs: Fs, dirs: Dirs, source: Path, dest: Path)
    requires Shaped(fs) && dest != []
  {
    && LeadsToFile(fs, dirs, source) && LeadsNowhere(fs, dirs, dest)
    && !LeadsNowhere(fs, dirs, dest[..|dest| - 1])
  }

  lemma {:induction false} ChecksAnswer(fs: Fs, owner: Owners, dirs: Dirs, source: Path, dest: Path, status: Status)
    requires Image(fs, owner, dirs) && IsPath(source) && IsPath(dest)
    requires LinkCheck(fs, dirs, source, dest) != Success ==> status == LinkCheck(fs, dirs, source, dest)
    requires LinkCheck(fs, dirs, source, dest) == Success ==> status in {Success, NoInode, NoBlock, NameTooLong}
    ensures LinkAnswer(fs, dirs, source, dest, status)
    ensures LinkCheck(fs, dirs, source, dest) == Success <==> Linkable(fs, dirs, source, dest)
  {
    LeadsSomehow(fs, owner, dirs, source);
    LeadsSomehow(fs, owner, dirs, dest);
  }

  /** An entry with the name seems to fit into a block of inode a, or into one of the free ones. */
  ghost predicate SpaceIn(fs: Fs, d: seq<Byte>, a: int, name: Name, free: int)
    requires Shaped(fs)
  {
    1 <= a <= |fs.inodes| && (FirstRoom(Slots(fs, a), d, name, 0) < INDIRECT1_INDEX || free > 0)
  }

  /** What ln answers then. */
  ghost function LinkResult(fs: Fs, d: seq<Byte>, dirs: Dirs, dest: Path): Status
    requires Shaped(fs) && dest != [] && !LeadsNowhere(fs, dirs, dest[..|dest| - 1])
  {
    if SpaceIn(fs, d, Resolve(fs, dirs, dest[..|dest| - 1]).value.inode, Last(dest), fs.freeBlocks.super) then Success
    else NoBlock
  }

  /** ln gives one of these errors, or it succeeds exactly if there is room for the name, or a block. */
  lemma {:induction false} LinkAnswers(fs: Fs, owner: Owners, dirs: Dirs, d: seq<Byte>, source: Path, dest: Path,
                                       status: Status, fs': Fs, d': seq<Byte>)
    requires Image(fs, owner, dirs) && IsPath(source) && IsPath(dest)
             && LinkStep(fs, d, dirs, source, dest, status, fs', d')
    ensures LinkAnswer(fs, dirs, source, dest, status)
    ensures Linkable(fs, dirs, source, dest) ==>
              status == LinkResult(fs, d, dirs, dest)
    ensures status != Success ==> (fs', d') == (fs, d)
  {
    ChecksAnswer(fs, owner, dirs, source, dest, status);
  }

  /** Some record of a block of directory a has room for the name. */
  ghost predicate RoomSomewhere(fs: Fs, dirs: Dirs, a: int, name: Name)
    requires Shaped(fs)
  {
    && 1 <= a <= |fs.inodes|
    && exists j {:trigger Slots(fs, a)[j]} :: 0 <= j < INDIRECT1_INDEX && Slots(fs, a)[j] in dirs
                                           && HasPlace(dirs[Slots(fs, a)[j]], TotalEntryLength(|name|))
  }

  lemma {:induction false} PlaceInBlock(d: seq<Byte>, used: seq<bool>, dirs: Dirs, n: int, needed: nat)
    requires DirHolds(d, used, dirs, n) && n in dirs
    ensures HasRoom(dirs, n, needed) ==> HasPlace(dirs[n], needed)
    ensures !Clobbers(dirs[n], needed) && HasPlace(dirs[n], needed) ==> HasRoom(dirs, n, needed)
  {
    BlockTiles(d, BlockStart(n), dirs[n]);
    if !Clobbers(dirs[n], needed) {
      PlaceIsFound(dirs[n], needed);
    }
  }

  /** In a directory without a short record in the way, the search finds room if there is any. */
  lemma {:induction false} SpaceIsRoom(fs: Fs, owner: Owners, dirs: Dirs, d: seq<Byte>, a: nat, name: Name,
                                    free: int)
    requires Image(fs, owner, dirs) && DirsHold(d, fs.blockUsed, dirs) && LiveDirectory(fs, a)
             && InOrder(fs, dirs, a, name)
    ensures SpaceIn(fs, d, a, name, free) <==> RoomSomewhere(fs, dirs, a, name) || free > 0
  {
    DirectoryBlocks(fs, owner, dirs, a);
    var s, needed := Slots(fs, a), TotalEntryLength(|name|);
    RoomIsRoomy(s, d, fs.blockUsed, dirs, name);
    var i := RoomySlot(s, dirs, needed, 0);
    if i < |s| {
      assert DirHolds(d, fs.blockUsed, dirs, s[i]);
      PlaceInBlock(d, fs.blockUsed, dirs, s[i], needed);
    }
    if j :| 0 <= j < INDIRECT1_INDEX && s[j] in dirs && HasPlace(dirs[s[j]], needed) && i == |s| {
      assert DirHolds(d, fs.blockUsed, dirs, s[j]);
      CleanAt(s, dirs, needed, j);
      PlaceInBlock(d, fs.blockUsed, dirs, s[j], needed);
    }
  }

  // ---------------------------------------------------------------- ln -s

  /** What the last step of ln -s answers. */
  lemma {:induction false} SymlinkEnds(fs: Fs, owner: Owners, dirs: Dirs, d: seq<Byte>, a: nat, name: Name, text: Name,
                                       status: Status, fs': Fs, d': seq<Byte>)
    requires Image(fs, owner, dirs) && fs.InUse(a) && a <= |fs.inodes| && Searchable(Slots(fs, a), d, name)
    requires fs.freeInodes.super != 0 && |text| < BLOCK_SIZE && fs.freeBlocks.super > 0
    requires SymlinkWork(fs, d, a, name, text, status, fs', d')
    ensures status == if SpaceIn(fs, d, a, name, fs.freeBlocks.super - 1) then Success else NoBlock
  {
    var n, x, fs2 := NextBlock(SymlinkTaken(fs)), NextInode(fs), SymlinkFilled(fs);
    InodeAvailable(fs, owner);
    FreeIsUnowned(fs, owner);
    SymlinkFilledSlots(fs, a);
    var d1 :| TextWritten(d, d1, n, text) && SymlinkNamed(fs2, d1, a, x, name, status, fs', d');
    TextElsewhere(fs, owner, dirs, d, d1, a, name, n);
  }

  /** What ln -s answers when there is none of the errors that it shares with ln. */
  ghost function SymlinkResult(fs: Fs, d: seq<Byte>, dirs: Dirs, dest: Path, text: Name): Status
    requires Shaped(fs) && dest != [] && !LeadsNowhere(fs, dirs, dest[..|dest| - 1])
  {
    if fs.freeInodes.super == 0 then NoInode
    else if |text| >= BLOCK_SIZE then NameTooLong
    else if fs.freeBlocks.super <= 0 then NoBlock
    else if SpaceIn(fs, d, Resolve(fs, dirs, dest[..|dest| - 1]).value.inode, Last(dest), fs.freeBlocks.super - 1)
      then Success
    else NoBlock
  }

  /** ln -s: the same errors, and then those for want of an inode, for a text that does not fit a block, and for want
      of a block for the text or one for the name. */
  lemma {:induction false} SymlinkAnswers(fs: Fs, owner: Owners, dirs: Dirs, d: seq<Byte>, source: Path, dest: Path,
                                          text: Name, status: Status, fs': Fs, d': seq<Byte>)
    requires Image(fs, owner, dirs) && Fits(fs, d, dirs, Symlink(source, dest, text))
             && SymlinkStep(fs, d, dirs, source, dest, text, status, fs', d')
    ensures LinkAnswer(fs, dirs, source, dest, status)
    ensures Linkable(fs, dirs, source, dest) ==>
              status == SymlinkResult(fs, d, dirs, dest, text)
    ensures !Linkable(fs, dirs, source, dest) || fs.freeInodes.super == 0 ==> (fs', d') == (fs, d)
  {
    ChecksAnswer(fs, owner, dirs, source, dest, status);
    if Linkable(fs, dirs, source, dest) && fs.freeInodes.super != 0 && |text| < BLOCK_SIZE && fs.freeBlocks.super > 0 {
      var p, x := NewPath(fs, owner, dirs, source, dest);
      SymlinkEnds(fs, owner, dirs, d, p.inode, Last(dest), text, status, fs', d');
    }
  }

  // ---------------------------------------------------------------- rm

  /** The errors of ext2_rm; it succeeds for every file, be it a symbolic link or not. */
  ghost predicate RemoveAnswer(fs: Fs, dirs: Dirs, path: Path, status: Status)
    requires Shaped(fs)
  {
    && (status == NoSuchFile <==> LeadsNowhere(fs, dirs, path))
    && (status == IsADirectory <==> LeadsToDirectory(fs, dirs, path))
    && (status == Success <==> LeadsToFile(fs, dirs, path))
  }

  lemma {:induction false} RemoveAnswers(fs: Fs, owner: Owners, dirs: Dirs, d: seq<Byte>, path: Path, status: Status,
                                         fs': Fs, d': seq<Byte>)
    requires Image(fs, owner, dirs) && IsPath(path) && RemoveStep(fs, d, dirs, path, status, fs', d')
    ensures RemoveAnswer(fs, dirs, path, status)
    ensures status != Success ==> (fs', d') == (fs, d)
  {
    LeadsSomehow(fs, owner, dirs, path);
  }
}
