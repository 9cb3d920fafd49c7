/** The programs ext2_ln and ext2_rm, in place on an image in memory (a3/ext2_ln.c, a3/ext2_rm.c).

    Each is proved to take the image through the step of the same name in Commands.  A path has
    been split into its parts already.  Where the program exits, the method returns the reason,
    and the image is as it was at that point.

    An image is handed over with its owners, the ghost map that says which slot of which inode
    each block is in; the methods ask for it to know that the image is a well-formed one.
 */
module Ext2 {
  import opened Dirents
  import opened DirBlocks
  import opened DirMaps
  import opened FileSystems
  import opened Disks
  import opened Links
  import opened LinkCounts
  import opened Trees
  import opened Placements
  import opened Commands
  import opened Runs
  import opened Answers

  // ---------------------------------------------------------------- looking things up

  method ReadTarget(disk: array<Byte>, o: int) returns (t: Target)
    requires 0 <= o && o + HEADER <= disk.Length
    ensures t == Target(InodeAt(disk[..], o), disk[o + 7])
  {
    var inode := Word(disk[o], disk[o + 1]) + 0x1_0000 * Word(disk[o + 2], disk[o + 3]);
    t := Target(inode, disk[o + 7]);
  }

  /** find_matching_entry */
  method FindMatchingEntry(d: Disk, a: nat, name: Name) returns (r: Option<Target>)
    requires d.Valid() && IsDirInode(d.Fs(), d.dirs, a) && name != []
    ensures r == Lookup(d.Fs(), d.dirs, a, name)
  {
    SearchIsLookup(d.Fs(), d.dirs, a, name);
    var found, slot, prev, cur := d.FindMatchingPair(a, name);
    if !found {
      return None;
    }
    ghost var n := Slots(d.Fs(), a)[slot];
    assert DirHolds(d.disk[..], d.Fs().blockUsed, d.dirs, n);
    EntryBounds(d.disk[..], BlockStart(n), BlockStart(n) + BLOCK_SIZE, d.dirs[n], FirstNamed(d.dirs[n], name));
    var t := ReadTarget(d.disk, cur);
    r := Some(t);
  }

  /** When a part of a path is not there, or is not a directory, then what follows is not there either. */
  lemma {:induction false} ResolveBroken(fs: Fs, dirs: Dirs, path: Path, k: nat)
    requires Shaped(fs) && 0 < k <= |path|
    requires Resolve(fs, dirs, path[..k]) == None || (k < |path| && NotDirectory(Resolve(fs, dirs, path[..k])))
    ensures Resolve(fs, dirs, path) == None
    decreases |path|
  {
    var init := path[..|path| - 1];
    if k == |path| {
      assert path[..k] == path;
    } else if k < |init| {
      assert init[..k] == path[..k];
      ResolveBroken(fs, dirs, init, k);
    } else {
      assert init == path[..k];
    }
  }

  lemma ResolveExtended(fs: Fs, dirs: Dirs, path: Path, init: Path, a: int)
    requires Shaped(fs) && path != [] && init == path[..|path| - 1] && 1 <= a <= |fs.inodes|
    requires if init == [] then a == ROOT else Resolve(fs, dirs, init) == Some(Target(a, EXT2_FT_DIR))
    ensures Resolve(fs, dirs, path) == Lookup(fs, dirs, a, path[|path| - 1])
  {
  }

  lemma ResolveNext(fs: Fs, owner: Owners, dirs: Dirs, path: Path, k: nat, a: int)
    requires Image(fs, owner, dirs) && k < |path|
    requires if k == 0 then a == ROOT
             else Resolve(fs, dirs, path[..k]).Some? && Resolve(fs, dirs, path[..k]).value == Target(a, EXT2_FT_DIR)
    ensures LiveDirectory(fs, a) && IsDirInode(fs, dirs, a)
            && Resolve(fs, dirs, path[..k + 1]) == Lookup(fs, dirs, a, path[k])
  {
    if k > 0 {
      ResolveLive(fs, owner, dirs, path[..k]);
    }
    ResolveExtended(fs, dirs, path[..k + 1], path[..k], a);
    DirectoryBlocks(fs, owner, dirs, a);
  }

  /** Where the walk stops early, or at the end. */
  lemma ResolveStops(fs: Fs, dirs: Dirs, path: Path, k: nat)
    requires Shaped(fs) && 0 < k <= |path|
    ensures k == |path| ==> path[..k] == path
    ensures Resolve(fs, dirs, path[..k]) == None ==> Resolve(fs, dirs, path) == None
    ensures NotDirectory(Resolve(fs, dirs, path[..k])) && k < |path| ==> Resolve(fs, dirs, path) == None
  {
    if Resolve(fs, dirs, path[..k]) == None || (k < |path| && NotDirectory(Resolve(fs, dirs, path[..k]))) {
      ResolveBroken(fs, dirs, path, k);
    }
  }

  /** After k parts, all of them directories, the walk is in directory a. */
  ghost predicate Walking(fs: Fs, dirs: Dirs, path: Path, k: nat, entry: Option<Target>, a: int)
    requires Shaped(fs) && k <= |path|
  {
    && entry == Resolve(fs, dirs, path[..k])
    && if k == 0 then a == ROOT else entry == Some(Target(a, EXT2_FT_DIR))
  }

  lemma WalkEnds(fs: Fs, dirs: Dirs, path: Path, entry: Option<Target>, a: int)
    requires Shaped(fs) && Walking(fs, dirs, path, |path|, entry, a)
    ensures entry == Resolve(fs, dirs, path)
  {
    assert path[..|path|] == path;
  }

  /** One part of a path more. */
  method FollowPart(d: Disk, path: Path, ind: nat, a: nat, ghost before: Option<Target>, ghost owner: Owners)
      returns (entry: Option<Target>)
    requires d.Valid() && Image(d.Fs(), owner, d.dirs) && ind < |path| && path[ind] != []
    requires Walking(d.Fs(), d.dirs, path, ind, before, a)
    ensures entry == Resolve(d.Fs(), d.dirs, path[..ind + 1])
    ensures entry == None ==> Resolve(d.Fs(), d.dirs, path) == None
    ensures entry.Some? && entry.value.fileType != EXT2_FT_DIR ==>
              Resolve(d.Fs(), d.dirs, path) == if ind == |path| - 1 then entry else None
    ensures entry.Some? && entry.value.fileType == EXT2_FT_DIR ==> entry.value.inode >= 0
  {
    ResolveNext(d.Fs(), owner, d.dirs, path, ind, a);
    entry := FindMatchingEntry(d, a, path[ind]);
    ResolveStops(d.Fs(), d.dirs, path, ind + 1);
    ResolveLive(d.Fs(), owner, d.dirs, path[..ind + 1]);
  }

  /** traverse_path */
  method TraversePath(d: Disk, path: Path, ghost owner: Owners) returns (entry: Option<Target>)
    requires d.Valid() && Image(d.Fs(), owner, d.dirs) && forall i :: 0 <= i < |path| ==> path[i] != []
    ensures entry == Resolve(d.Fs(), d.dirs, path)
  {
    ghost var fs, dirs := d.Fs(), d.dirs;
    entry := None;
    var a: nat := ROOT;
    for ind := 0 to |path|
      invariant Walking(fs, dirs, path, ind, entry, a)
    {
      entry := FollowPart(d, path, ind, a, entry, owner);
      if entry == None {
        return;
      }
      if entry.value.fileType != EXT2_FT_DIR {
        entry := if ind == |path| - 1 then entry else None;
        return;
      }
      a := entry.value.inode;
    }
    WalkEnds(fs, dirs, path, entry, a);
  }

  // ---------------------------------------------------------------- ln

  /** The checks of ext2_ln, and what the source and the parent of the destination lead to. */
  method CheckLink(d: Disk, source: Path, dest: Path, ghost owner: Owners)
      returns (status: Status, src: Target, parent: Target)
    requires d.Valid() && Image(d.Fs(), owner, d.dirs) && IsPath(source) && IsPath(dest)
    ensures status == LinkCheck(d.Fs(), d.dirs, source, dest)
    ensures status == Success ==>
              && Resolve(d.Fs(), d.dirs, source) == Some(src)
              && Resolve(d.Fs(), d.dirs, dest[..|dest| - 1]) == Some(parent)
  {
    src, parent := Target(0, 0), Target(0, 0);
    var s := TraversePath(d, source, owner);
    var t := TraversePath(d, dest, owner);
    if s == None {
      return NoSuchFile, src, parent;
    }
    src := s.value;
    if src.fileType == EXT2_FT_DIR {
      return IsADirectory, src, parent;
    }
    if t.Some? && t.value.fileType == EXT2_FT_DIR {
      return IsADirectory, src, parent;
    }
    if t.Some? {
      return AlreadyExists, src, parent;
    }
    var p := TraversePath(d, dest[..|dest| - 1], owner);
    if p == None {
      return NoSuchParent, src, parent;
    }
    return Success, src, p.value;
  }

  method SetLinks(d: Disk, x: nat, k: int)
    requires d.Sized() && 1 <= x <= d.inodesCount
    modifies d.inodes
    ensures d.Sized() && d.Fs() == Relinked(old(d.Fs()), x, k) && (old(d.Valid()) ==> d.Valid())
  {
    d.inodes[x - 1] := d.inodes[x - 1].(links := k);
  }

  lemma BlocksAreCounted(fs: Fs, owner: Owners)
    requires Consistent(fs, owner)
    ensures BlocksCounted(fs)
  {
    ReservedBlocksUsed(fs, owner);
  }

  /** make_entry_in_inode can be called on inode a. */
  ghost predicate Writable(fs: Fs, d: seq<Byte>, a: int, name: Name) {
    BlocksCounted(fs) && 1 <= a <= |fs.inodes| && Searchable(Slots(fs, a), d, name)
  }

  lemma DestinationWritable(fs: Fs, owner: Owners, dirs: Dirs, d: seq<Byte>, source: Path, dest: Path)
    requires Image(fs, owner, dirs) && IsPath(source) && IsPath(dest) && DestinationOk(fs, d, dirs, dest)
    requires LinkCheck(fs, dirs, source, dest) == Success
    ensures var a, x := Resolve(fs, dirs, dest[..|dest| - 1]).value.inode, Resolve(fs, dirs, source).value.inode;
            fs.InUse(a) && Writable(fs, d, a, Last(dest)) && 1 <= x <= |fs.inodes|
  {
    var p, x := NewPath(fs, owner, dirs, source, dest);
    BlocksAreCounted(fs, owner);
  }

  /** What make_entry_in_inode does in a directory without a short record in the way. */
  ghost predicate EntryOrderly(fs: Fs, dirs: Dirs, d: seq<Byte>, a: nat, child: nat, name: Name, fileType: Byte,
                               status: Status, fs': Fs, dirs': Dirs, d': seq<Byte>)
  {
    && DataKept(d, d', fs.blockUsed, dirs)
    && (status == Success ==>
          Placeable(fs, dirs, a, name) && (fs', dirs') == EntryMade(fs, dirs, a, child, name, fileType))
  }

  /** make_entry_in_inode, which exits when it needs a block and there is none. */
  method MakeEntry(d: Disk, a: nat, child: nat, name: Name, fileType: Byte) returns (status: Status)
    requires d.Valid() && Writable(d.Fs(), d.disk[..], a, name) && child < 0x1_0000_0000 && |name| <= NAME_LEN
    modifies d`superFreeBlocks, d`groupFreeBlocks, d.blockBitmap, d.blockBitmap.v, d.disk, d.inodes, d`dirs
    ensures d.Sized() && status in {Success, NoBlock}
    ensures EntryPut(old(d.Fs()), old(d.disk[..]), a, child, name, fileType, status == Success, d.Fs(), d.disk[..])
    ensures status != Success ==> d.Valid() && d.dirs == old(d.dirs)
    ensures OrderlyIn(old(d.Fs()), old(d.dirs), a, name) ==>
              d.Valid() && EntryOrderly(old(d.Fs()), old(d.dirs), old(d.disk[..]), a, child, name, fileType, status,
                                        d.Fs(), d.dirs, d.disk[..])
  {
    var ok := d.MakeEntryInInode(a, child, name, fileType);
    status := if ok then Success else NoBlock;
  }

  ghost predicate LinkMore(fs: Fs, x: nat, fs': Fs) {
    Shaped(fs) && 1 <= x <= |fs.inodes| && fs' == Relinked(fs, x, fs.inodes[x - 1].links + 1)
  }

  method AddLink(d: Disk, x: nat)
    requires d.Sized() && 1 <= x <= d.inodesCount
    modifies d.inodes
    ensures d.Sized() && LinkMore(old(d.Fs()), x, d.Fs()) && (old(d.Valid()) ==> d.Valid())
  {
    SetLinks(d, x, d.inodes[x - 1].links + 1);
  }

  /** What ln leaves in a directory without a short record in the way. */
  ghost predicate LinkOrderly(fs: Fs, dirs: Dirs, d: seq<Byte>, a: nat, x: nat, name: Name, status: Status,
                              fs': Fs, dirs': Dirs, d': seq<Byte>)
  {
    && DataKept(d, d', fs.blockUsed, dirs)
    && (status == Success ==>
          && Placeable(fs, dirs, a, name) && 1 <= x <= |fs.inodes|
          && (fs', dirs') == HardLinked(fs, dirs, a, x, name))
  }

  /** The link is added after the name. */
  lemma LinkEnds(fs: Fs, d: seq<Byte>, a: nat, x: nat, name: Name, status: Status, fs1: Fs, fs': Fs, d': seq<Byte>)
    requires Shaped(fs) && status in {Success, NoBlock} && 1 <= x <= |fs.inodes|
    requires EntryPut(fs, d, a, x, name, EXT2_FT_REG_FILE, status == Success, fs1, d')
    requires if status == Success then LinkMore(fs1, x, fs') else fs' == fs1
    ensures LinkPlaced(fs, d, a, x, name, status, fs', d')
  {
    if status == Success {
      assert LinkAdded(fs, d, a, x, name, fs1, fs', d');
    }
  }

  lemma LinkedOrderly(fs: Fs, dirs: Dirs, d: seq<Byte>, a: nat, x: nat, name: Name, fs1: Fs, fs': Fs, dirs': Dirs,
                      d': seq<Byte>)
    requires EntryOrderly(fs, dirs, d, a, x, name, EXT2_FT_REG_FILE, Success, fs1, dirs', d')
    requires 1 <= x <= |fs.inodes| && LinkMore(fs1, x, fs')
    ensures LinkOrderly(fs, dirs, d, a, x, name, Success, fs', dirs', d')
  {
  }

  /** ext2_ln after its checks, without the option. */
  method LinkTo(d: Disk, a: nat, x: nat, name: Name) returns (status: Status)
    requires d.Valid() && Writable(d.Fs(), d.disk[..], a, name) && 1 <= x <= d.inodesCount < 0x1_0000_0000
             && |name| <= NAME_LEN
    modifies d`superFreeBlocks, d`groupFreeBlocks, d.blockBitmap, d.blockBitmap.v, d.disk, d.inodes, d`dirs
    ensures d.Sized() && LinkPlaced(old(d.Fs()), old(d.disk[..]), a, x, name, status, d.Fs(), d.disk[..])
    ensures status != Success ==> d.Valid() && d.dirs == old(d.dirs)
    ensures OrderlyIn(old(d.Fs()), old(d.dirs), a, name) ==>
              d.Valid() && LinkOrderly(old(d.Fs()), old(d.dirs), old(d.disk[..]), a, x, name, status, d.Fs(), d.dirs,
                                       d.disk[..])
  {
    ghost var fs, was, dirs := d.Fs(), d.disk[..], d.dirs;
    status := MakeEntry(d, a, x, name, EXT2_FT_REG_FILE);
    ghost var fs1 := d.Fs();
    if status == Success {
      AddLink(d, x);
      if OrderlyIn(fs, dirs, a, name) {
        LinkedOrderly(fs, dirs, was, a, x, name, fs1, d.Fs(), d.dirs, d.disk[..]);
      }
    }
    LinkEnds(fs, was, a, x, name, status, fs1, d.Fs(), d.disk[..]);
  }

  /** The directory that the destination is in, if there is one, has no short record in the way. */
  ghost predicate OrderlyAt(fs: Fs, dirs: Dirs, dest: Path)
    requires Shaped(fs) && dest != []
  {
    var p := Resolve(fs, dirs, dest[..|dest| - 1]);
    p.Some? ==> p.value.inode >= 0 && OrderlyIn(fs, dirs, p.value.inode, Last(dest))
  }

  /** What a harmless command leaves: these directories, which it has changed as it should, and the same data. */
  ghost predicate Leaves(fs: Fs, dirs: Dirs, d: seq<Byte>, c: Command, status: Status, fs': Fs, dirs': Dirs,
                         d': seq<Byte>)
    requires Shaped(fs) && PathsOk(c)
  {
    && Reading(fs', d', dirs') && DataKept(d, d', fs.blockUsed, dirs)
    && if status == Success then Done(fs, dirs, c, fs', dirs') else dirs' == dirs
  }

  lemma LeavesAll(fs: Fs, owner: Owners, dirs: Dirs, d: seq<Byte>, c: Command, status: Status)
    requires Image(fs, owner, dirs) && DirsHold(d, fs.blockUsed, dirs) && PathsOk(c) && status != Success
    ensures Leaves(fs, dirs, d, c, status, fs, dirs, d)
  {
  }

  /** A harmless ln leaves the directories as it should. */
  lemma {:induction false} LinkReads(fs: Fs, owner: Owners, dirs: Dirs, d: seq<Byte>, source: Path, dest: Path,
                                     p: Target, x: int, status: Status, fs': Fs, d': seq<Byte>, dirs': Dirs)
    requires Image(fs, owner, dirs) && DirsHold(d, fs.blockUsed, dirs) && PathsOk(Link(source, dest))
    requires LinkCheck(fs, dirs, source, dest) == Success && Resolve(fs, dirs, dest[..|dest| - 1]) == Some(p)
             && x == Resolve(fs, dirs, source).value.inode
    requires LinkPlaced(fs, d, p.inode, x, Last(dest), status, fs', d') && LinkHarmless(fs, d, dirs, p, Last(dest))
    requires status != Success ==> dirs' == dirs
    requires OrderlyIn(fs, dirs, p.inode, Last(dest)) ==>
               && LinkOrderly(fs, dirs, d, p.inode, x, Last(dest), status, fs', dirs', d')
               && DirsHold(d', fs'.blockUsed, dirs')
    ensures status == Success ==> OrderlyIn(fs, dirs, p.inode, Last(dest))
    ensures Leaves(fs, dirs, d, Link(source, dest), status, fs', dirs', d')
  {
    var p', x' := NewPath(fs, owner, dirs, source, dest);
    if status == Success {
      var fs1 :| LinkAdded(fs, d, p.inode, x, Last(dest), fs1, fs', d');
      DirectoryBlocks(fs, owner, dirs, p.inode);
      var dirs1 := HardLinkedBytes(fs, dirs, d, p.inode, x, Last(dest), fs1, fs', d');
      HardLinkKeeps(fs, owner, dirs, p.inode, x, Last(dest), fs', dirs', d');
      LinkDone(fs, owner, dirs, source, dest, p.inode, x, fs', dirs');
    } else {
      LeavesAll(fs, owner, dirs, d, Link(source, dest), status);
    }
  }

  /** ln when its checks pass. */
  lemma {:induction false} LnPasses(fs: Fs, owner: Owners, dirs: Dirs, d: seq<Byte>, source: Path, dest: Path,
                                    p: Target, x: int, status: Status, fs': Fs, d': seq<Byte>, dirs': Dirs)
    requires Image(fs, owner, dirs) && DirsHold(d, fs.blockUsed, dirs) && PathsOk(Link(source, dest))
    requires LinkCheck(fs, dirs, source, dest) == Success && Resolve(fs, dirs, dest[..|dest| - 1]) == Some(p)
             && Resolve(fs, dirs, source).Some? && x == Resolve(fs, dirs, source).value.inode
    requires LinkPlaced(fs, d, p.inode, x, Last(dest), status, fs', d')
    requires status != Success ==> dirs' == dirs
    requires OrderlyIn(fs, dirs, p.inode, Last(dest)) ==>
               && LinkOrderly(fs, dirs, d, p.inode, x, Last(dest), status, fs', dirs', d')
               && DirsHold(d', fs'.blockUsed, dirs')
    ensures LinkStep(fs, d, dirs, source, dest, status, fs', d')
    ensures OrderlyAt(fs, dirs, dest) ==>
              OrderlyIn(fs, dirs, p.inode, Last(dest)) && DataKept(d, d', fs.blockUsed, dirs)
    ensures Harmless(fs, d, dirs, Link(source, dest)) ==>
              && (status == Success ==> OrderlyIn(fs, dirs, p.inode, Last(dest)))
              && Leaves(fs, dirs, d, Link(source, dest), status, fs', dirs', d')
  {
    if Harmless(fs, d, dirs, Link(source, dest)) {
      LinkReads(fs, owner, dirs, d, source, dest, p, x, status, fs', d', dirs');
    }
  }

  lemma LnRefuses(fs: Fs, owner: Owners, dirs: Dirs, d: seq<Byte>, source: Path, dest: Path)
    requires Image(fs, owner, dirs) && DirsHold(d, fs.blockUsed, dirs) && PathsOk(Link(source, dest))
    requires LinkCheck(fs, dirs, source, dest) != Success
    ensures LinkStep(fs, d, dirs, source, dest, LinkCheck(fs, dirs, source, dest), fs, d)
    ensures Leaves(fs, dirs, d, Link(source, dest), LinkCheck(fs, dirs, source, dest), fs, dirs, d)
  {
    LeavesAll(fs, owner, dirs, d, Link(source, dest), LinkCheck(fs, dirs, source, dest));
  }

  /** ext2_ln without the option.  It is the step on the bytes of the image, whatever the destination is; and if
      it is harmless the directories hold what they should. */
  method Ln(d: Disk, source: Path, dest: Path, ghost owner: Owners) returns (status: Status)
    requires d.Valid() && Image(d.Fs(), owner, d.dirs) && Fits(d.Fs(), d.disk[..], d.dirs, Link(source, dest))
             && d.inodesCount < 0x1_0000_0000
    modifies d`superFreeBlocks, d`groupFreeBlocks, d.blockBitmap, d.blockBitmap.v, d.disk, d.inodes, d`dirs
    ensures d.Sized()
    ensures LinkStep(old(d.Fs()), old(d.disk[..]), old(d.dirs), source, dest, status, d.Fs(), d.disk[..])
    ensures LinkAnswer(old(d.Fs()), old(d.dirs), source, dest, status)
    ensures Linkable(old(d.Fs()), old(d.dirs), source, dest) ==>
              status == LinkResult(old(d.Fs()), old(d.disk[..]), old(d.dirs), dest)
    ensures OrderlyAt(old(d.Fs()), old(d.dirs), dest) ==>
              d.Valid() && DataKept(old(d.disk[..]), d.disk[..], old(d.Fs()).blockUsed, old(d.dirs))
    ensures Harmless(old(d.Fs()), old(d.disk[..]), old(d.dirs), Link(source, dest)) ==>
              d.Valid() && Leaves(old(d.Fs()), old(d.dirs), old(d.disk[..]), Link(source, dest), status, d.Fs(), d.dirs,
                                  d.disk[..])
  {
    ghost var fs, was, dirs := d.Fs(), d.disk[..], d.dirs;
    var src, parent;
    status, src, parent := CheckLink(d, source, dest, owner);
    if status != Success {
      LnRefuses(fs, owner, dirs, was, source, dest);
      LinkAnswers(fs, owner, dirs, was, source, dest, status, fs, was);
      return;
    }
    DestinationWritable(fs, owner, dirs, was, source, dest);
    status := LinkTo(d, parent.inode, src.inode, dest[|dest| - 1]);
    LnPasses(fs, owner, dirs, was, source, dest, parent, src.inode, status, d.Fs(), d.disk[..], d.dirs);
    LinkAnswers(fs, owner, dirs, was, source, dest, status, d.Fs(), d.disk[..]);
  }

  // ---------------------------------------------------------------- ln -s

  /** allocate_link_inode: a new inode with one link, or None when there is none. */
  method AllocateLinkInode(d: Disk) returns (r: Option<nat>)
    requires d.Valid() && InodesCounted(d.Fs())
    modifies d`superFreeInodes, d`groupFreeInodes, d.inodeBitmap, d.inodeBitmap.v, d.inodes
    ensures d.Valid()
    ensures if old(d.Fs()).freeInodes.super == 0 then r == None && d.Fs() == old(d.Fs())
            else
              && r == Some(NextInode(old(d.Fs()))) && NextInode(old(d.Fs())) <= d.inodesCount
              && d.Fs() == SymlinkTaken(old(d.Fs()))
  {
    r := d.AllocateInode();
    if r.Some? {
      MakeLinkInode(d, r.value);
    }
  }

  method MakeLinkInode(d: Disk, x: nat)
    requires d.Valid() && 1 <= x <= d.inodesCount
    modifies d.inodes
    ensures d.Valid()
    ensures d.Fs() == old(d.Fs()).(inodes := old(d.Fs()).inodes[x - 1 := Inode(false, 1,
                                                                               old(d.Fs()).inodes[x - 1].block)])
  {
    d.inodes[x - 1] := d.inodes[x - 1].(isDir := false, links := 1);
  }

  /** strcpy to the start of a block */
  method CopyText(d: Disk, n: int, text: Name)
    requires d.Valid() && 1 <= n <= d.lastBlock && n !in d.dirs && |text| < BLOCK_SIZE
    modifies d.disk
    ensures d.Valid() && HoldsText(d.disk[..], n, text)
    ensures OnlyBlock(old(d.disk[..]), d.disk[..], BlockStart(n))
  {
    ghost var was := d.disk[..];
    forall i | 0 <= i < |text| {
      d.disk[BlockStart(n) + i] := text[i];
    }
    d.disk[BlockStart(n) + |text|] := 0;
    forall m: int ensures DirHolds(d.disk[..], d.Fs().blockUsed, d.dirs, m) {
      assert DirHolds(was, d.Fs().blockUsed, d.dirs, m);
      if m in d.dirs {
        HoldsDepends(was, d.disk[..], BlockStart(m), BlockStart(m) + BLOCK_SIZE, d.dirs[m]);
      }
    }
  }

  lemma OnlyTwice(d: seq<Byte>, d1: seq<Byte>, d2: seq<Byte>, start: nat)
    requires OnlyBlock(d, d1, start) && OnlyBlock(d1, d2, start)
    ensures OnlyBlock(d, d2, start)
  {
  }

  /** write_path_to_symlink_inode, which exits when the text is too long or there is no block. */
  method WritePathToSymlinkInode(d: Disk, x: nat, text: Name) returns (status: Status)
    requires d.Valid() && BlocksCounted(d.Fs()) && 1 <= x <= d.inodesCount && BlockNumber(d.Fs(), x, 0) == 0
    modifies d`superFreeBlocks, d`groupFreeBlocks, d.blockBitmap, d.blockBitmap.v, d.disk, d.inodes
    ensures d.Valid()
    ensures if |text| >= BLOCK_SIZE then status == NameTooLong && d.Fs() == old(d.Fs())
            else if old(d.Fs()).freeBlocks.super <= 0 then status == NoBlock && d.Fs() == old(d.Fs())
            else
              && status == Success && NextBlock(old(d.Fs())) <= d.lastBlock && d.Fs() == Attached(old(d.Fs()), x, 0)
              && !old(d.Fs()).blockUsed[NextBlock(old(d.Fs())) - 1] && NextBlock(old(d.Fs())) !in d.dirs
              && TextWritten(old(d.disk[..]), d.disk[..], NextBlock(old(d.Fs())), text)
    ensures status != Success ==> d.disk[..] == old(d.disk[..])
  {
    if |text| >= BLOCK_SIZE {
      return NameTooLong;
    }
    ghost var used := d.Fs().blockUsed;
    ghost var was := d.disk[..];
    var r := d.AllocateBlockOnInode(x, 0);
    if r == None {
      return NoBlock;
    }
    assert DirHolds(was, used, d.dirs, r.value);
    ghost var cleared := d.disk[..];
    CopyText(d, r.value, text);
    ClearedOnly(was, cleared, r.value);
    OnlyTwice(was, cleared, d.disk[..], BlockStart(r.value));
    status := Success;
  }

  /** With its inode taken, the symbolic link can get its block and its name. */
  lemma SymlinkTakenWritable(fs: Fs, owner: Owners, dirs: Dirs, a: nat) returns (fs1: Fs, x: nat)
    requires Image(fs, owner, dirs) && fs.InUse(a) && a <= |fs.inodes| && fs.freeInodes.super > 0
    ensures x == NextInode(fs) && 1 <= x <= |fs.inodes| && fs1 == SymlinkTaken(fs) && BlocksCounted(fs1)
            && Slots(fs1, x) == NoBlocks() && NextBlock(fs1) == NextBlock(fs)
            && fs1.freeBlocks.super == fs.freeBlocks.super
    ensures fs1.freeBlocks.super > 0 ==>
              && NextBlock(fs1) <= |fs1.blockUsed| && NextBlock(fs1) !in owner && BlocksCounted(Attached(fs1, x, 0))
              && Slots(Attached(fs1, x, 0), a) == Slots(fs, a)
  {
    FileTakenImage(fs, owner, dirs, 1);
    x, fs1 := NextInode(fs), SymlinkTaken(fs);
    BlocksAreCounted(fs1, owner);
    if fs.freeBlocks.super > 0 {
      SymlinkFilledImage(fs, owner, dirs, ROOT);
      BlocksAreCounted(SymlinkFilled(fs), owner[NextBlock(SymlinkTaken(fs)) := (NextInode(fs), 0)]);
      SymlinkFilledSlots(fs, a);
      FreeIsUnowned(fs, owner);
    }
  }

  lemma TextKept(d: seq<Byte>, d': seq<Byte>, used: seq<bool>, dirs: Dirs, n: int, text: Name)
    requires DataKept(d, d', used, dirs) && 1 <= n <= |used| && used[n - 1] && n !in dirs && HoldsText(d, n, text)
    requires |text| < BLOCK_SIZE
    ensures HoldsText(d', n, text)
  {
    assert SameBlock(d, d', n);
  }

  /** What ln -s leaves in a directory without a short record in the way. */
  ghost predicate SymlinkOrderly(fs: Fs, dirs: Dirs, d: seq<Byte>, a: nat, name: Name, text: Name, status: Status,
                                 fs': Fs, dirs': Dirs, d': seq<Byte>)
  {
    && DataKept(d, d', fs.blockUsed, dirs)
    && (status == Success ==>
          && Shaped(fs) && NextInode(fs) <= |fs.inodes| && NextBlock(SymlinkTaken(fs)) <= |fs.blockUsed|
          && HoldsText(d', NextBlock(SymlinkTaken(fs)), text)
          && Placeable(SymlinkFilled(fs), dirs, a, name)
          && (fs', dirs') == EntryMade(SymlinkFilled(fs), dirs, a, NextInode(fs), name, EXT2_FT_SYMLINK))
  }

  /** The text is in a block that was free, and stays there while the name is written. */
  lemma NewTextKept(d: seq<Byte>, d1: seq<Byte>, d2: seq<Byte>, used: seq<bool>, used1: seq<bool>, dirs: Dirs, n: nat,
                    text: Name)
    requires 1 <= n <= |used| && !used[n - 1] && n !in dirs && used1 == used[n - 1 := true] && |text| < BLOCK_SIZE
    requires TextWritten(d, d1, n, text) && DataKept(d1, d2, used1, dirs)
    ensures DataKept(d, d2, used, dirs) && HoldsText(d2, n, text)
  {
    DataKeptBut(d, d1, used, dirs, n);
    DataKeptBoth(d, d1, d2, used, dirs, used1, dirs);
    TextKept(d1, d2, used1, dirs, n, text);
  }

  /** The name of the symbolic link, when its text has been written to block n. */
  method NameSymlink(d: Disk, a: nat, x: nat, name: Name, text: Name, ghost n: nat, ghost was: seq<Byte>,
                     ghost used: seq<bool>) returns (status: Status)
    requires d.Valid() && Writable(d.Fs(), d.disk[..], a, name) && x < 0x1_0000_0000 && |name| <= NAME_LEN
    requires 1 <= n <= |used| && !used[n - 1] && n !in d.dirs && d.Fs().blockUsed == used[n - 1 := true]
    requires |text| < BLOCK_SIZE && TextWritten(was, d.disk[..], n, text)
    modifies d`superFreeBlocks, d`groupFreeBlocks, d.blockBitmap, d.blockBitmap.v, d.disk, d.inodes, d`dirs
    ensures d.Sized()
    ensures SymlinkEnd(old(d.Fs()), was, n, a, x, name, text, status, d.Fs(), d.disk[..])
    ensures status != Success ==> d.Valid() && d.dirs == old(d.dirs)
    ensures OrderlyIn(old(d.Fs()), old(d.dirs), a, name) ==>
              && d.Valid() && DataKept(was, d.disk[..], used, old(d.dirs)) && HoldsText(d.disk[..], n, text)
              && EntryOrderly(old(d.Fs()), old(d.dirs), old(d.disk[..]), a, x, name, EXT2_FT_SYMLINK, status,
                              d.Fs(), d.dirs, d.disk[..])
  {
    ghost var fs, d1, dirs := d.Fs(), d.disk[..], d.dirs;
    status := MakeEntry(d, a, x, name, EXT2_FT_SYMLINK);
    assert SymlinkNamed(fs, d1, a, x, name, status, d.Fs(), d.disk[..]);
    if OrderlyIn(fs, dirs, a, name) {
      NewTextKept(was, d1, d.disk[..], used, fs.blockUsed, dirs, n, text);
    }
  }

  /** The block of the symbolic link, and its name, when it has its inode. */
  method FillSymlink(d: Disk, a: nat, x: nat, name: Name, text: Name, ghost owner: Owners, ghost fs: Fs)
      returns (status: Status)
    requires d.Valid() && Image(fs, owner, d.dirs) && fs.InUse(a) && Writable(fs, d.disk[..], a, name)
    requires fs.freeInodes.super > 0 && x == NextInode(fs) <= |fs.inodes| && d.Fs() == SymlinkTaken(fs)
    requires d.inodesCount < 0x1_0000_0000 && |name| <= NAME_LEN
    modifies d`superFreeBlocks, d`groupFreeBlocks, d.blockBitmap, d.blockBitmap.v, d.disk, d.inodes, d`dirs
    ensures d.Sized()
    ensures SymlinkWork(fs, old(d.disk[..]), a, name, text, status, d.Fs(), d.disk[..])
    ensures status != Success ==> d.Valid() && d.dirs == old(d.dirs)
    ensures OrderlyIn(fs, old(d.dirs), a, name) ==>
              d.Valid() && SymlinkOrderly(fs, old(d.dirs), old(d.disk[..]), a, name, text, status, d.Fs(), d.dirs,
                                          d.disk[..])
  {
    ghost var was, dirs := d.disk[..], d.dirs;
    ghost var fs1, x1 := SymlinkTakenWritable(fs, owner, dirs, a);
    status := WritePathToSymlinkInode(d, x, text);
    if status == Success {
      ghost var n, d1, fs2 := NextBlock(fs1), d.disk[..], d.Fs();
      TextElsewhere(fs, owner, dirs, was, d1, a, name, n);
      assert Slots(fs2, a) == Slots(fs, a);
      status := NameSymlink(d, a, x, name, text, n, was, fs.blockUsed);
    }
  }

  /** ext2_ln after its checks, with the option. */
  method MakeSymlink(d: Disk, a: nat, name: Name, text: Name, ghost owner: Owners) returns (status: Status)
    requires d.Valid() && Image(d.Fs(), owner, d.dirs) && d.Fs().InUse(a) && Writable(d.Fs(), d.disk[..], a, name)
    requires d.inodesCount < 0x1_0000_0000 && |name| <= NAME_LEN
    modifies d`superFreeBlocks, d`groupFreeBlocks, d.blockBitmap, d.blockBitmap.v, d.disk, d.inodes, d`dirs
    modifies d`superFreeInodes, d`groupFreeInodes, d.inodeBitmap, d.inodeBitmap.v
    ensures d.Sized()
    ensures SymlinkWork(old(d.Fs()), old(d.disk[..]), a, name, text, status, d.Fs(), d.disk[..])
    ensures status != Success ==> d.Valid() && d.dirs == old(d.dirs)
    ensures OrderlyIn(old(d.Fs()), old(d.dirs), a, name) ==>
              d.Valid() && SymlinkOrderly(old(d.Fs()), old(d.dirs), old(d.disk[..]), a, name, text, status, d.Fs(),
                                          d.dirs, d.disk[..])
  {
    ghost var fs := d.Fs();
    var r := AllocateLinkInode(d);
    if r == None {
      return NoInode;
    }
    status := FillSymlink(d, a, r.value, name, text, owner, fs);
  }

  /** A harmless ln -s leaves the directories as it should. */
  lemma {:induction false} SymlinkReads(fs: Fs, owner: Owners, dirs: Dirs, d: seq<Byte>, source: Path, dest: Path,
                                        text: Name, p: Target, status: Status, fs': Fs, d': seq<Byte>, dirs': Dirs)
    requires Image(fs, owner, dirs) && DirsHold(d, fs.blockUsed, dirs) && PathsOk(Symlink(source, dest, text))
    requires LinkCheck(fs, dirs, source, dest) == Success && Resolve(fs, dirs, dest[..|dest| - 1]) == Some(p)
    requires fs.freeInodes.super != 0 && SymlinkWork(fs, d, p.inode, Last(dest), text, status, fs', d')
             && SymlinkHarmless(fs, dirs, p, Last(dest), text)
    requires p.inode >= 0 && OrderlyIn(fs, dirs, p.inode, Last(dest)) ==>
               && SymlinkOrderly(fs, dirs, d, p.inode, Last(dest), text, status, fs', dirs', d')
               && DirsHold(d', fs'.blockUsed, dirs')
    ensures status == Success && OrderlyIn(fs, dirs, p.inode, Last(dest))
    ensures Leaves(fs, dirs, d, Symlink(source, dest, text), status, fs', dirs', d')
  {
    var p', x' := NewPath(fs, owner, dirs, source, dest);
    DirectoryBlocks(fs, owner, dirs, p.inode);
    var dirs1 := SymlinkWorkKeeps(fs, owner, dirs, d, p.inode, Last(dest), text, status, fs', d');
    SymlinkFilledImage(fs, owner, dirs, p.inode);
    InodeAvailable(fs, owner);
    FilledFits(fs, dirs, p.inode, Last(dest));
    SymlinkFitsOrNot(fs, dirs, SymlinkFilled(fs), owner[NextBlock(SymlinkTaken(fs)) := (NextInode(fs), 0)], p.inode,
                     NextInode(fs), Last(dest), fs', dirs', d');
    SymlinkDone(fs, owner, dirs, source, dest, text, p.inode, fs', dirs');
  }

  lemma {:induction false} LnSymbolicSteps(fs: Fs, owner: Owners, dirs: Dirs, d: seq<Byte>, source: Path, dest: Path,
                                           text: Name, p: Target, status: Status, fs': Fs, d': seq<Byte>, dirs': Dirs)
    requires Image(fs, owner, dirs) && Fits(fs, d, dirs, Symlink(source, dest, text))
    requires LinkCheck(fs, dirs, source, dest) == Success && Resolve(fs, dirs, dest[..|dest| - 1]) == Some(p)
    requires SymlinkWork(fs, d, p.inode, Last(dest), text, status, fs', d')
    requires p.inode >= 0 && OrderlyIn(fs, dirs, p.inode, Last(dest)) ==>
               SymlinkOrderly(fs, dirs, d, p.inode, Last(dest), text, status, fs', dirs', d')
    ensures SymlinkStep(fs, d, dirs, source, dest, text, status, fs', d')
    ensures LinkAnswer(fs, dirs, source, dest, status)
            && (Linkable(fs, dirs, source, dest) ==> status == SymlinkResult(fs, d, dirs, dest, text))
    ensures OrderlyAt(fs, dirs, dest) ==>
              && OrderlyIn(fs, dirs, p.inode, Last(dest)) && DataKept(d, d', fs.blockUsed, dirs)
              && (status == Success ==> HoldsText(d', NextBlock(fs), text))
  {
    SymlinkAnswers(fs, owner, dirs, d, source, dest, text, status, fs', d');
  }

  /** Without an inode nothing has happened. */
  lemma NoInodeLeaves(fs: Fs, owner: Owners, dirs: Dirs, d: seq<Byte>, c: Command, a: int, name: Name, text: Name,
                      status: Status, fs': Fs, d': seq<Byte>)
    requires Image(fs, owner, dirs) && DirsHold(d, fs.blockUsed, dirs) && PathsOk(c)
    requires fs.freeInodes.super == 0 && SymlinkWork(fs, d, a, name, text, status, fs', d')
    ensures status != Success && Leaves(fs, dirs, d, c, status, fs', dirs, d')
  {
    LeavesAll(fs, owner, dirs, d, c, status);
  }

  lemma {:induction false} HarmlessSymlink(fs: Fs, d: seq<Byte>, dirs: Dirs, source: Path, dest: Path, text: Name,
                                           p: Target)
    requires Shaped(fs) && PathsOk(Symlink(source, dest, text)) && fs.freeInodes.super != 0
    requires LinkCheck(fs, dirs, source, dest) == Success && Resolve(fs, dirs, dest[..|dest| - 1]) == Some(p)
    ensures Harmless(fs, d, dirs, Symlink(source, dest, text)) == SymlinkHarmless(fs, dirs, p, Last(dest), text)
  {
  }

  /** ln -s when its checks pass. */
  lemma {:induction false} LnSymbolicPasses(fs: Fs, owner: Owners, dirs: Dirs, d: seq<Byte>, source: Path, dest: Path,
                                            text: Name, p: Target, status: Status, fs': Fs, d': seq<Byte>, dirs': Dirs)
    requires Image(fs, owner, dirs) && DirsHold(d, fs.blockUsed, dirs) && PathsOk(Symlink(source, dest, text))
    requires LinkCheck(fs, dirs, source, dest) == Success && Resolve(fs, dirs, dest[..|dest| - 1]) == Some(p)
    requires SymlinkWork(fs, d, p.inode, Last(dest), text, status, fs', d')
    requires status != Success ==> dirs' == dirs
    requires p.inode >= 0 && OrderlyIn(fs, dirs, p.inode, Last(dest)) ==>
               && SymlinkOrderly(fs, dirs, d, p.inode, Last(dest), text, status, fs', dirs', d')
               && DirsHold(d', fs'.blockUsed, dirs')
    ensures Harmless(fs, d, dirs, Symlink(source, dest, text)) ==>
              && (status == Success ==> OrderlyIn(fs, dirs, p.inode, Last(dest)))
              && Leaves(fs, dirs, d, Symlink(source, dest, text), status, fs', dirs', d')
  {
    if fs.freeInodes.super == 0 {
      NoInodeLeaves(fs, owner, dirs, d, Symlink(source, dest, text), p.inode, Last(dest), text, status, fs', d');
    } else {
      HarmlessSymlink(fs, d, dirs, source, dest, text, p);
      if SymlinkHarmless(fs, dirs, p, Last(dest), text) {
        SymlinkReads(fs, owner, dirs, d, source, dest, text, p, status, fs', d', dirs');
      }
    }
  }

  lemma LnSymbolicRefuses(fs: Fs, owner: Owners, dirs: Dirs, d: seq<Byte>, source: Path, dest: Path, text: Name)
    requires Image(fs, owner, dirs) && DirsHold(d, fs.blockUsed, dirs) && Fits(fs, d, dirs, Symlink(source, dest, text))
    requires LinkCheck(fs, dirs, source, dest) != Success
    ensures SymlinkStep(fs, d, dirs, source, dest, text, LinkCheck(fs, dirs, source, dest), fs, d)
    ensures LinkAnswer(fs, dirs, source, dest, LinkCheck(fs, dirs, source, dest)) && !Linkable(fs, dirs, source, dest)
    ensures Leaves(fs, dirs, d, Symlink(source, dest, text), LinkCheck(fs, dirs, source, dest), fs, dirs, d)
  {
    SymlinkAnswers(fs, owner, dirs, d, source, dest, text, LinkCheck(fs, dirs, source, dest), fs, d);
    LeavesAll(fs, owner, dirs, d, Symlink(source, dest, text), LinkCheck(fs, dirs, source, dest));
  }

  /** ext2_ln with the option. */
  method LnSymbolic(d: Disk, source: Path, dest: Path, text: Name, ghost owner: Owners) returns (status: Status)
    requires d.Valid() && Image(d.Fs(), owner, d.dirs)
             && Fits(d.Fs(), d.disk[..], d.dirs, Symlink(source, dest, text)) && d.inodesCount < 0x1_0000_0000
    modifies d`superFreeBlocks, d`groupFreeBlocks, d.blockBitmap, d.blockBitmap.v, d.disk, d.inodes, d`dirs
    modifies d`superFreeInodes, d`groupFreeInodes, d.inodeBitmap, d.inodeBitmap.v
    ensures d.Sized()
    ensures SymlinkStep(old(d.Fs()), old(d.disk[..]), old(d.dirs), source, dest, text, status, d.Fs(), d.disk[..])
    ensures LinkAnswer(old(d.Fs()), old(d.dirs), source, dest, status)
    ensures Linkable(old(d.Fs()), old(d.dirs), source, dest) ==>
              status == SymlinkResult(old(d.Fs()), old(d.disk[..]), old(d.dirs), dest, text)
    ensures OrderlyAt(old(d.Fs()), old(d.dirs), dest) ==>
              && d.Valid() && DataKept(old(d.disk[..]), d.disk[..], old(d.Fs()).blockUsed, old(d.dirs))
              && (status == Success ==> HoldsText(d.disk[..], NextBlock(old(d.Fs())), text))
    ensures Harmless(old(d.Fs()), old(d.disk[..]), old(d.dirs), Symlink(source, dest, text)) ==>
              d.Valid() && Leaves(old(d.Fs()), old(d.dirs), old(d.disk[..]), Symlink(source, dest, text), status,
                                  d.Fs(), d.dirs, d.disk[..])
  {
    ghost var fs, was, dirs := d.Fs(), d.disk[..], d.dirs;
    var src, parent;
    status, src, parent := CheckLink(d, source, dest, owner);
    if status != Success {
      LnSymbolicRefuses(fs, owner, dirs, was, source, dest, text);
      return;
    }
    DestinationWritable(fs, owner, dirs, was, source, dest);
    status := MakeSymlink(d, parent.inode, dest[|dest| - 1], text, owner);
    LnSymbolicSteps(fs, owner, dirs, was, source, dest, text, parent, status, d.Fs(), d.disk[..], d.dirs);
    LnSymbolicPasses(fs, owner, dirs, was, source, dest, text, parent, status, d.Fs(), d.disk[..], d.dirs);
  }

  // ---------------------------------------------------------------- rm

  /** One link less, and the inode freed when that was the last. */
  method Unlink(d: Disk, x: nat)
    requires d.Valid() && 1 <= x <= d.inodesCount && SlotsInRange(d.Fs(), x)
             && NotDirs(Slots(d.Fs(), x), INDIRECT1_INDEX, d.dirs)
    modifies d`superFreeBlocks, d`groupFreeBlocks, d.blockBitmap, d.blockBitmap.v
    modifies d`superFreeInodes, d`groupFreeInodes, d.inodeBitmap, d.inodeBitmap.v, d.inodes
    ensures d.Valid() && d.Fs() == Unlinked(old(d.Fs()), x)
  {
    var k := DropLink(d, x);
    if k <= 0 {
      d.FreeInode(x);
    }
  }

  method DropLink(d: Disk, x: nat) returns (k: int)
    requires d.Valid() && 1 <= x <= d.inodesCount
    modifies d.inodes
    ensures d.Valid() && k == old(d.Fs()).inodes[x - 1].links - 1 && d.Fs() == Relinked(old(d.Fs()), x, k)
    ensures Slots(d.Fs(), x) == Slots(old(d.Fs()), x) && d.Fs().inodes[x - 1].links == k
  {
    k := d.inodes[x - 1].links - 1;
    SetLinks(d, x, k);
  }

  /** What deleting a name in directory a leaves of file x. */
  lemma FileUntouched(fs: Fs, owner: Owners, dirs: Dirs, a: nat, x: nat, name: Name)
    requires Consistent(fs, owner) && DirBlocksOk(fs, owner, dirs) && DirsInRange(dirs, |fs.blockUsed|)
    requires LiveDirectory(fs, a) && LiveFile(fs, x)
    ensures IsDirInode(fs, dirs, a) && x != a && SlotsInRange(fs, x)
    ensures var (fs1, dirs1) := EntryDeleted(fs, dirs, a, name);
            && Shaped(fs1) && x <= |fs1.inodes| && SlotsInRange(fs1, x)
               && NotDirs(Slots(fs1, x), INDIRECT1_INDEX, dirs1)
            && Removed(fs, dirs, a, x, name) == (Unlinked(fs1, x), dirs1)
  {
    DirectoryBlocks(fs, owner, dirs, a);
    FileBlocks(fs, owner, dirs, x);
    SlotsAreInRange(fs, owner, x);
    RemovedIs(fs, dirs, a, x, name);
  }

  /** ext2_rm after its checks. */
  method RemovePath(d: Disk, path: Path, x: nat, ghost owner: Owners)
    requires d.Valid() && Image(d.Fs(), owner, d.dirs) && IsPath(path)
    requires RemoveCheck(d.Fs(), d.dirs, path) == Success && Resolve(d.Fs(), d.dirs, path).value.inode == x
    modifies d`superFreeBlocks, d`groupFreeBlocks, d.blockBitmap, d.blockBitmap.v, d.disk, d`dirs
    modifies d`superFreeInodes, d`groupFreeInodes, d.inodeBitmap, d.inodeBitmap.v, d.inodes
    ensures d.Valid() && RemoveTree(old(d.Fs()), old(d.dirs), path, Success, d.Fs(), d.dirs)
    ensures DataKept(old(d.disk[..]), d.disk[..], old(d.Fs()).blockUsed, old(d.dirs))
  {
    ResolveLive(d.Fs(), owner, d.dirs, path);
    RootIsNoFile(d.Fs(), d.dirs, path);
    var parent := TraversePath(d, path[..|path| - 1], owner);
    FileUntouched(d.Fs(), owner, d.dirs, parent.value.inode, x, Last(path));
    RemoveFrom(d, parent.value.inode, x, path[|path| - 1]);
  }

  /** The checks of ext2_rm, and the inode that the path leads to. */
  method CheckRemove(d: Disk, path: Path, ghost owner: Owners) returns (status: Status, x: nat)
    requires d.Valid() && Image(d.Fs(), owner, d.dirs) && IsPath(path)
    ensures status == RemoveCheck(d.Fs(), d.dirs, path)
    ensures status == Success ==> Resolve(d.Fs(), d.dirs, path).value.inode == x
  {
    var entry := TraversePath(d, path, owner);
    if entry == None {
      return NoSuchFile, 0;
    }
    if entry.value.fileType == EXT2_FT_DIR {
      return IsADirectory, 0;
    }
    ResolveLive(d.Fs(), owner, d.dirs, path);
    return Success, entry.value.inode;
  }

  lemma {:induction false} RmEnds(fs: Fs, owner: Owners, dirs: Dirs, d: seq<Byte>, path: Path, status: Status,
                                  fs': Fs, d': seq<Byte>, dirs': Dirs)
    requires Image(fs, owner, dirs) && DirsHold(d, fs.blockUsed, dirs) && IsPath(path)
    requires RemoveTree(fs, dirs, path, status, fs', dirs') && DirsHold(d', fs'.blockUsed, dirs')
    requires DataKept(d, d', fs.blockUsed, dirs) && (status != Success ==> d' == d)
    ensures RemoveStep(fs, d, dirs, path, status, fs', d')
    ensures Harmless(fs, d, dirs, Remove(path)) ==> Leaves(fs, dirs, d, Remove(path), status, fs', dirs', d')
  {
    RemoveTreeKeeps(fs, owner, dirs, path, status, fs', dirs');
  }

  /** ext2_rm */
  method Rm(d: Disk, path: Path, ghost owner: Owners) returns (status: Status)
    requires d.Valid() && Image(d.Fs(), owner, d.dirs) && IsPath(path)
    modifies d`superFreeBlocks, d`groupFreeBlocks, d.blockBitmap, d.blockBitmap.v, d.disk, d`dirs
    modifies d`superFreeInodes, d`groupFreeInodes, d.inodeBitmap, d.inodeBitmap.v, d.inodes
    ensures d.Valid()
    ensures RemoveStep(old(d.Fs()), old(d.disk[..]), old(d.dirs), path, status, d.Fs(), d.disk[..])
    ensures RemoveAnswer(old(d.Fs()), old(d.dirs), path, status)
    ensures DataKept(old(d.disk[..]), d.disk[..], old(d.Fs()).blockUsed, old(d.dirs))
    ensures Harmless(old(d.Fs()), old(d.disk[..]), old(d.dirs), Remove(path)) ==>
              Leaves(old(d.Fs()), old(d.dirs), old(d.disk[..]), Remove(path), status, d.Fs(), d.dirs, d.disk[..])
  {
    ghost var fs, was, dirs := d.Fs(), d.disk[..], d.dirs;
    var x;
    status, x := CheckRemove(d, path, owner);
    if status == Success {
      RemovePath(d, path, x, owner);
    }
    RmEnds(fs, owner, dirs, was, path, status, d.Fs(), d.disk[..], d.dirs);
    RemoveAnswers(fs, owner, dirs, was, path, status, d.Fs(), d.disk[..]);
  }

  /** A path to a file has at least two parts, and what is before the last is a directory. */
  lemma RootIsNoFile(fs: Fs, dirs: Dirs, path: Path)
    requires RootOk(fs, dirs) && IsPath(path) && Resolve(fs, dirs, path).Some? && NotDirectory(Resolve(fs, dirs, path))
    ensures |path| > 1 && Resolve(fs, dirs, path[..|path| - 1]).Some? && Parent(fs, dirs, path).Some?
    ensures Resolve(fs, dirs, path[..|path| - 1]).value.inode == Parent(fs, dirs, path).value
  {
  }

  method RemoveFrom(d: Disk, a: nat, x: nat, name: Name)
    requires d.Valid() && IsDirInode(d.Fs(), d.dirs, a) && 1 <= x <= d.inodesCount && x != a && SlotsInRange(d.Fs(), x)
    requires var (fs1, dirs1) := EntryDeleted(d.Fs(), d.dirs, a, name);
             Shaped(fs1) && x <= |fs1.inodes| && SlotsInRange(fs1, x) && NotDirs(Slots(fs1, x), INDIRECT1_INDEX, dirs1)
    modifies d`superFreeBlocks, d`groupFreeBlocks, d.blockBitmap, d.blockBitmap.v, d.disk, d`dirs
    modifies d`superFreeInodes, d`groupFreeInodes, d.inodeBitmap, d.inodeBitmap.v, d.inodes
    ensures d.Valid()
    ensures d.Fs() == Unlinked(EntryDeleted(old(d.Fs()), old(d.dirs), a, name).0, x)
    ensures d.dirs == EntryDeleted(old(d.Fs()), old(d.dirs), a, name).1
    ensures DataKept(old(d.disk[..]), d.disk[..], old(d.Fs()).blockUsed, old(d.dirs))
  {
    d.DeleteChildEntry(a, name);
    Unlink(d, x);
  }
}
