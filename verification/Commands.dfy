/** The commands ln, ln -s and rm on an ext2 image, as steps from image to image (a3/ext2_ln.c, a3/ext2_rm.c).

    An image is its bitmaps, counters and inodes, fs, and its bytes, d.  Before a command it can be read
    as directories, dirs, and this says where paths lead.  What the command leaves is again fs and d.
 */
module Commands {
  import opened Dirents
  import opened DirBlocks
  import opened DirMaps
  import opened FileSystems
  import opened Disks
  import opened Links
  import opened LinkCounts
  import opened Trees
  import opened Placements

  datatype Status = Success | NoSuchFile | IsADirectory | AlreadyExists | NoSuchParent | NoInode | NoBlock | NameTooLong

  datatype Command =
    | Link(source: Path, dest: Path)
    | Symlink(source: Path, dest: Path, text: Name)
    | Remove(path: Path)

  /** split_path puts "." before the parts, none of which is empty. */
  predicate IsPath(path: Path) {
    path != [] && path[0] == DOT && forall i :: 0 <= i < |path| ==> 0 < |path[i]| <= NAME_LEN
  }

  function Last(path: Path): Name
    requires path != []
  {
    path[|path| - 1]
  }

  // ---------------------------------------------------------------- ln

  /** The checks of ext2_ln, in its order. */
  ghost function LinkCheck(fs: Fs, dirs: Dirs, source: Path, dest: Path): Status
    requires Shaped(fs) && dest != []
  {
    var src, dst := Resolve(fs, dirs, source), Resolve(fs, dirs, dest);
    if src == None then NoSuchFile
    else if src.value.fileType == EXT2_FT_DIR then IsADirectory
    else if dst.Some? && dst.value.fileType == EXT2_FT_DIR then IsADirectory
    else if dst.Some? then AlreadyExists
    else if Resolve(fs, dirs, dest[..|dest| - 1]) == None then NoSuchParent
    else Success
  }

  /** The code does not check that the parent of a destination is a directory.  Whatever it is, its blocks can be
      searched for room within the image; and the data of a file do not make the entry run into a directory. */
  ghost predicate DestinationOk(fs: Fs, d: seq<Byte>, dirs: Dirs, dest: Path)
    requires Shaped(fs) && dest != []
  {
    var p := Resolve(fs, dirs, dest[..|dest| - 1]);
    p.Some? && 1 <= p.value.inode <= |fs.inodes| ==>
      && Searchable(Slots(fs, p.value.inode), d, Last(dest))
      && (p.value.fileType != EXT2_FT_DIR ==> StaysOff(Slots(fs, p.value.inode), d, dirs, Last(dest)))
  }

  /** A new name for inode x in directory a, and one more link. */
  ghost function HardLinked(fs: Fs, dirs: Dirs, a: nat, x: nat, name: Name): (Fs, Dirs)
    requires Placeable(fs, dirs, a, name) && 1 <= x <= |fs.inodes|
  {
    var (fs', dirs') := EntryMade(fs, dirs, a, x, name, EXT2_FT_REG_FILE);
    (Relinked(fs', x, fs'.inodes[x - 1].links + 1), dirs')
  }

  /** The last step of ln: an entry for inode x in inode a, and a link more, unless there is no block for it. */
  ghost predicate LinkPlaced(fs: Fs, d: seq<Byte>, a: int, x: int, name: Name, status: Status, fs': Fs, d': seq<Byte>)
    requires Shaped(fs)
  {
    && 1 <= a <= |fs.inodes| && 1 <= x <= |fs.inodes|
    && if status == Success then exists fs1 :: LinkAdded(fs, d, a, x, name, fs1, fs', d')
       else status == NoBlock && (fs', d') == (fs, d) && EntryPut(fs, d, a, x, name, EXT2_FT_REG_FILE, false, fs, d)
  }

  ghost predicate LinkAdded(fs: Fs, d: seq<Byte>, a: nat, x: nat, name: Name, fs1: Fs, fs': Fs, d': seq<Byte>) {
    && EntryPut(fs, d, a, x, name, EXT2_FT_REG_FILE, true, fs1, d') && Shaped(fs1) && 1 <= x <= |fs1.inodes|
    && fs' == Relinked(fs1, x, fs1.inodes[x - 1].links + 1)
  }

  ghost predicate LinkStep(fs: Fs, d: seq<Byte>, dirs: Dirs, source: Path, dest: Path, status: Status, fs': Fs,
                           d': seq<Byte>)
    requires Shaped(fs) && dest != []
  {
    if LinkCheck(fs, dirs, source, dest) != Success then
      status == LinkCheck(fs, dirs, source, dest) && (fs', d') == (fs, d)
    else
      var a, x := Resolve(fs, dirs, dest[..|dest| - 1]).value.inode, Resolve(fs, dirs, source).value.inode;
      LinkPlaced(fs, d, a, x, Last(dest), status, fs', d')
  }

  // ---------------------------------------------------------------- ln -s

  /** The inode of the symbolic link has been taken, and is in no directory yet. */
  ghost function SymlinkTaken(fs: Fs): (fs': Fs)
    requires Shaped(fs) && NextInode(fs) <= |fs.inodes|
    ensures Shaped(fs')
  {
    InodeTaken(fs, false, 1)
  }

  /** It has also got a block. */
  ghost function SymlinkFilled(fs: Fs): (fs': Fs)
    requires Shaped(fs) && NextInode(fs) <= |fs.inodes| && NextBlock(SymlinkTaken(fs)) <= |fs.blockUsed|
    ensures Shaped(fs')
  {
    Attached(SymlinkTaken(fs), NextInode(fs), 0)
  }

  /** Block n starts with the text and a 0 byte. */
  ghost predicate HoldsText(d: seq<Byte>, n: int, text: Name) {
    && 0 <= BlockStart(n) && BlockStart(n) + |text| < |d|
    && (forall i :: 0 <= i < |text| ==> d[BlockStart(n) + i] == text[i]) && d[BlockStart(n) + |text|] == 0
  }

  /** The text has been written to block n. */
  ghost predicate TextWritten(d: seq<Byte>, d': seq<Byte>, n: nat, text: Name) {
    OnlyBlock(d, d', BlockStart(n)) && HoldsText(d', n, text)
  }

  /** The last step: an entry for the symbolic link in inode a. */
  ghost predicate SymlinkNamed(fs: Fs, d: seq<Byte>, a: int, x: nat, name: Name, status: Status, fs': Fs, d': seq<Byte>)
  {
    && 1 <= a
    && if status == Success then EntryPut(fs, d, a, x, name, EXT2_FT_SYMLINK, true, fs', d')
       else status == NoBlock && EntryPut(fs, d, a, x, name, EXT2_FT_SYMLINK, false, fs', d')
  }

  /** From when the symbolic link has its inode and its block: the text, and the entry. */
  ghost predicate SymlinkEnd(fs: Fs, d: seq<Byte>, n: nat, a: int, x: nat, name: Name, text: Name, status: Status,
                             fs': Fs, d': seq<Byte>)
  {
    exists d1 :: TextWritten(d, d1, n, text) && SymlinkNamed(fs, d1, a, x, name, status, fs', d')
  }

  /** ln -s after the checks: an inode, a block for the text, and an entry in inode a. */
  ghost predicate SymlinkWork(fs: Fs, d: seq<Byte>, a: int, name: Name, text: Name, status: Status, fs': Fs,
                              d': seq<Byte>)
    requires Shaped(fs)
  {
    if fs.freeInodes.super == 0 then
      status == NoInode && (fs', d') == (fs, d)
    else
      && NextInode(fs) <= |fs.inodes|
      && if |text| >= BLOCK_SIZE then status == NameTooLong && (fs', d') == (SymlinkTaken(fs), d)
         else if fs.freeBlocks.super <= 0 then status == NoBlock && (fs', d') == (SymlinkTaken(fs), d)
         else
           && NextBlock(SymlinkTaken(fs)) <= |fs.blockUsed|
           && SymlinkEnd(SymlinkFilled(fs), d, NextBlock(SymlinkTaken(fs)), a, NextInode(fs), name, text, status,
                         fs', d')
  }

  ghost predicate SymlinkStep(fs: Fs, d: seq<Byte>, dirs: Dirs, source: Path, dest: Path, text: Name, status: Status,
                              fs': Fs, d': seq<Byte>)
    requires Shaped(fs) && dest != []
  {
    if LinkCheck(fs, dirs, source, dest) != Success then
      status == LinkCheck(fs, dirs, source, dest) && (fs', d') == (fs, d)
    else
      SymlinkWork(fs, d, Resolve(fs, dirs, dest[..|dest| - 1]).value.inode, Last(dest), text, status, fs', d')
  }

  // ---------------------------------------------------------------- rm

  ghost function RemoveCheck(fs: Fs, dirs: Dirs, path: Path): Status
    requires Shaped(fs)
  {
    var r := Resolve(fs, dirs, path);
    if r == None then NoSuchFile else if r.value.fileType == EXT2_FT_DIR then IsADirectory else Success
  }

  /** A name of inode x in directory a is deleted, and x has one link less; without links it is freed. */
  ghost function Removed(fs: Fs, dirs: Dirs, a: nat, x: nat, name: Name): (Fs, Dirs)
    requires Shaped(fs) && 1 <= a <= |fs.inodes| && DirsInRange(dirs, |fs.blockUsed|)
    requires 1 <= x <= |fs.inodes| && x != a && SlotsInRange(fs, x)
  {
    var (fs1, dirs') := EntryDeleted(fs, dirs, a, name);
    var fs2 := Relinked(fs1, x, fs1.inodes[x - 1].links - 1);
    (if fs2.inodes[x - 1].links <= 0 then InodeFreed(fs2, x) else fs2, dirs')
  }

  /** rm, as a step on directories. */
  ghost predicate RemoveTree(fs: Fs, dirs: Dirs, path: Path, status: Status, fs': Fs, dirs': Dirs)
    requires Shaped(fs) && path != []
  {
    && status == RemoveCheck(fs, dirs, path)
    && if status != Success then (fs', dirs') == (fs, dirs)
       else
         var x := Resolve(fs, dirs, path).value.inode;
         && Parent(fs, dirs, path).Some? && DirsInRange(dirs, |fs.blockUsed|)
         && var a := Parent(fs, dirs, path).value;
         && 1 <= x <= |fs.inodes| && x != a && SlotsInRange(fs, x)
         && (fs', dirs') == Removed(fs, dirs, a, x, Last(path))
  }

  /** rm leaves directory blocks that hold what that step says. */
  ghost predicate RemoveStep(fs: Fs, d: seq<Byte>, dirs: Dirs, path: Path, status: Status, fs': Fs, d': seq<Byte>)
    requires Shaped(fs) && path != []
  {
    && (status != Success ==> d' == d)
    && exists dirs' :: RemoveTree(fs, dirs, path, status, fs', dirs') && DirsHold(d', fs'.blockUsed, dirs')
  }

  // ---------------------------------------------------------------- what becomes of paths

  /** Directory a maps name to something else now, or no longer; no other binding has changed, and
      no directory has come or gone. */
  ghost predicate Rebound(fs: Fs, dirs: Dirs, fs': Fs, dirs': Dirs, a: int, name: Name) {
    && OthersSame(fs, dirs, fs', dirs', a) && LiveDirectory(fs, a) && LiveDirectory(fs', a)
       && |fs'.inodes| == |fs.inodes|
    && DirView(fs', dirs', a) - {name} == DirView(fs, dirs, a) - {name}
    && NotDirectory(Lookup(fs, dirs, a, name)) && NotDirectory(Lookup(fs', dirs', a, name))
  }

  ghost predicate NotDirectory(r: Option<Target>) {
    r.Some? ==> r.value.fileType != EXT2_FT_DIR
  }

  lemma OtherName(fs: Fs, dirs: Dirs, fs': Fs, dirs': Dirs, a: int, name: Name, b: int, other: Name)
    requires Rebound(fs, dirs, fs', dirs', a, name) && LiveDirectory(fs, b) && (b, other) != (a, name)
    ensures Lookup(fs', dirs', b, other) == Lookup(fs, dirs, b, other)
  {
    if b == a {
      assert other in DirView(fs', dirs', a) <==> other in DirView(fs', dirs', a) - {name};
      assert other in DirView(fs, dirs, a) <==> other in DirView(fs, dirs, a) - {name};
      if other in DirView(fs, dirs, a) {
        assert (DirView(fs', dirs', a) - {name})[other] == (DirView(fs, dirs, a) - {name})[other];
      }
    } else {
      assert DirView(fs', dirs', b) == DirView(fs, dirs, b);
    }
  }

  /** Then a path leads where it led, unless it is that name in that directory. */
  lemma {:induction false} PathsRebound(fs: Fs, owner: Owners, dirs: Dirs, fs': Fs, dirs': Dirs, a: int, name: Name,
                                        path: Path)
    requires Image(fs, owner, dirs) && Rebound(fs, dirs, fs', dirs', a, name) && path != []
    ensures Parent(fs', dirs', path) == Parent(fs, dirs, path)
    ensures Resolve(fs', dirs', path) ==
            if Parent(fs, dirs, path) == Some(a) && Last(path) == name then Lookup(fs', dirs', a, name)
                else Resolve(fs, dirs, path)
    decreases |path|
  {
    if |path| > 1 {
      PathsRebound(fs, owner, dirs, fs', dirs', a, name, path[..|path| - 1]);
    }
    ResolveLive(fs, owner, dirs, path);
    var p := Parent(fs, dirs, path);
    if p.Some? && (p.value, Last(path)) != (a, name) {
      OtherName(fs, dirs, fs', dirs', a, name, p.value, Last(path));
    }
  }

  /** The path to the name itself leads to what the name stands for now. */
  lemma PathRebound(fs: Fs, owner: Owners, dirs: Dirs, fs': Fs, dirs': Dirs, a: int, path: Path)
      returns (r: Option<Target>)
    requires Image(fs, owner, dirs) && path != [] && Parent(fs, dirs, path) == Some(a)
    requires Rebound(fs, dirs, fs', dirs', a, Last(path))
    ensures r == Resolve(fs', dirs', path) == Lookup(fs', dirs', a, Last(path))
  {
    PathsRebound(fs, owner, dirs, fs', dirs', a, Last(path), path);
    r := Resolve(fs', dirs', path);
  }
}
