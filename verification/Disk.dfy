/** An ext2 image in memory, in place: allocating and freeing blocks and inodes, and the entries of
    directories (a3/ext2_helper.h).

    Fs() is the value that bitmaps, counters and inodes stand for, and dirs says what each directory
    block holds.  Every method is tied to a step on these.

    Where the source exits because nothing is left to allocate, the method returns None, or is not
    ok, and nothing has changed.
 */
module Disks {
  import opened Dirents
  import opened DirBlocks
  import opened RawBlocks
  import opened ByteMaps
  import opened FileSystems

  datatype Option<T> = None | Some(value: T)

  /** What each directory block holds, by block number. */
  type Dirs = map<int, seq<Dirent>>

  /** get_block */
  function BlockStart(n: int): int {
    n * BLOCK_SIZE
  }

  ghost predicate SameBlock(d: seq<Byte>, d': seq<Byte>, n: int) {
    Agree(d, d', BlockStart(n), BlockStart(n + 1))
  }

  ghost predicate ZeroBlock(d: seq<Byte>, n: int) {
    forall x :: 0 <= x < |d| && BlockStart(n) <= x < BlockStart(n + 1) ==> d[x] == 0
  }

  /** The given blocks have been cleared, and no others have changed. */
  ghost predicate Cleared(d: seq<Byte>, d': seq<Byte>, ns: seq<int>) {
    && |d'| == |d|
    && (forall i :: 0 <= i < |ns| ==> ZeroBlock(d', ns[i]))
    && (forall n: int {:trigger SameBlock(d, d', n)} :: (forall i :: 0 <= i < |ns| ==> ns[i] != n) ==>
        SameBlock(d, d', n))
  }

  /** No block changes that is in use and is not a directory block. */
  ghost predicate DataKept(d: seq<Byte>, d': seq<Byte>, used: seq<bool>, dirs: Dirs) {
    && |d'| == |d|
    && (forall n: int {:trigger SameBlock(d, d', n)} :: 1 <= n <= |used| && used[n - 1] && n !in dirs ==>
        SameBlock(d, d', n))
  }

  lemma DataKeptBut(d: seq<Byte>, d': seq<Byte>, used: seq<bool>, dirs: Dirs, n: int)
    requires 0 <= n && OnlyBlock(d, d', BlockStart(n)) && (n in dirs || (1 <= n <= |used| && !used[n - 1]))
    ensures DataKept(d, d', used, dirs)
  {
    forall m: int | 1 <= m <= |used| && used[m - 1] && m !in dirs ensures SameBlock(d, d', m) {
      assert BlockStart(m) <= BlockStart(n) - BLOCK_SIZE || BlockStart(m) >= BlockStart(n) + BLOCK_SIZE;
    }
  }

  /** One change after the other; the blocks in use stay so, and only new ones become directory blocks. */
  lemma DataKeptBoth(d: seq<Byte>, d1: seq<Byte>, d2: seq<Byte>, used: seq<bool>, dirs: Dirs, used1: seq<bool>,
                     dirs1: Dirs)
    requires DataKept(d, d1, used, dirs) && DataKept(d1, d2, used1, dirs1) && |used1| == |used|
    requires forall n: int {:trigger n in dirs1} :: 1 <= n <= |used| && used[n - 1] && n !in dirs ==>
               used1[n - 1] && n !in dirs1
    ensures DataKept(d, d2, used, dirs)
  {
    forall n: int | 1 <= n <= |used| && used[n - 1] && n !in dirs ensures SameBlock(d, d2, n) {
      assert n !in dirs1;
      assert SameBlock(d, d1, n) && SameBlock(d1, d2, n);
    }
  }

  lemma ClearedOne(d: seq<Byte>, d': seq<Byte>, n: int)
    requires |d'| == |d| && ZeroBlock(d', n)
    requires Agree(d, d', 0, BlockStart(n)) && Agree(d, d', BlockStart(n + 1), |d|)
    ensures Cleared(d, d', [n])
  {
    forall m: int | [n][0] != m ensures SameBlock(d, d', m) {
    }
  }

  lemma ClearedMore(d: seq<Byte>, d1: seq<Byte>, d2: seq<Byte>, ns: seq<int>, n: int)
    requires Cleared(d, d1, ns) && Cleared(d1, d2, [n]) && forall i :: 0 <= i < |ns| ==> ns[i] != n
    ensures Cleared(d, d2, ns + [n])
  {
    var ms := ns + [n];
    forall i | 0 <= i < |ms| ensures ZeroBlock(d2, ms[i]) {
      if i < |ns| {
        assert ms[i] == ns[i] && [n][0] != ns[i];
        assert SameBlock(d1, d2, ns[i]);
      } else {
        assert ZeroBlock(d2, [n][0]);
      }
    }
    forall m: int | forall i :: 0 <= i < |ms| ==> ms[i] != m ensures SameBlock(d, d2, m) {
      assert forall i :: 0 <= i < |ns| ==> ns[i] == ms[i];
      assert ms[|ns|] != m;
      assert SameBlock(d, d1, m) && SameBlock(d1, d2, m);
    }
  }

  /** Block n is a used block and holds the entries said. */
  ghost predicate DirHolds(d: seq<Byte>, used: seq<bool>, dirs: Dirs, n: int) {
    n in dirs ==> 1 <= n <= |used| && used[n - 1] && IsDirBlock(d, BlockStart(n), dirs[n])
  }

  ghost predicate DirsHold(d: seq<Byte>, used: seq<bool>, dirs: Dirs) {
    forall n: int {:trigger DirHolds(d, used, dirs, n)} :: DirHolds(d, used, dirs, n)
  }

  ghost predicate DirsInRange(dirs: Dirs, last: nat) {
    forall n :: n in dirs ==> 1 <= n <= last
  }

  ghost function UpTo(s: seq<bool>, n: nat): seq<bool> {
    if n <= |s| then s[..n] else s
  }

  class Disk {
    const lastBlock: nat
    const inodesCount: nat
    const disk: array<Byte>
    const blockBitmap: ByteMap
    const inodeBitmap: ByteMap
    const inodes: array<Inode>
    var superFreeBlocks: int
    var groupFreeBlocks: int
    var superFreeInodes: int
    var groupFreeInodes: int
    ghost var dirs: Dirs

    /** All but that the directory blocks hold what dirs says. */
    ghost predicate Sized()
      reads this, disk, blockBitmap, blockBitmap.v, inodeBitmap, inodeBitmap.v, inodes
      ensures Sized() ==> Shaped(Fs()) && |Fs().blockUsed| == lastBlock && |Fs().inodes| == inodesCount
    {
      && blockBitmap != inodeBitmap && blockBitmap.v != inodeBitmap.v
      && disk as object != blockBitmap.v && disk as object != inodeBitmap.v
      && blockBitmap.Valid() && inodeBitmap.Valid()
      && lastBlock <= |blockBitmap.used| && inodesCount <= |inodeBitmap.used| && inodes.Length == inodesCount
      && disk.Length == BlockStart(lastBlock + 1)
      && Shaped(Fs())
    }

    ghost predicate Valid()
      reads this, disk, blockBitmap, blockBitmap.v, inodeBitmap, inodeBitmap.v, inodes
      ensures Valid() ==> Shaped(Fs()) && |Fs().blockUsed| == lastBlock && |Fs().inodes| == inodesCount
    {
      Sized() && DirsHold(disk[..], Fs().blockUsed, dirs) && DirsInRange(dirs, lastBlock)
    }

    ghost function Fs(): Fs
      reads this, blockBitmap, inodeBitmap, inodes
    {
      FileSystems.Fs(UpTo(blockBitmap.used, lastBlock), UpTo(inodeBitmap.used, inodesCount), inodes[..],
                     Count(superFreeBlocks, groupFreeBlocks), Count(superFreeInodes, groupFreeInodes))
    }

    /** The parts of an image that has been mapped into memory. */
    constructor (lastBlock: nat, inodesCount: nat, disk: array<Byte>, blockBitmap: ByteMap, inodeBitmap: ByteMap,
                 inodes: array<Inode>, freeBlocks: Count, freeInodes: Count, ghost dirs: Dirs)
      requires blockBitmap != inodeBitmap && blockBitmap.v != inodeBitmap.v
      requires disk as object != blockBitmap.v && disk as object != inodeBitmap.v
      requires blockBitmap.Valid() && inodeBitmap.Valid()
      requires lastBlock <= |blockBitmap.used| && inodesCount <= |inodeBitmap.used| && inodes.Length == inodesCount
      requires disk.Length == BlockStart(lastBlock + 1) && DirsHold(disk[..], blockBitmap.used[..lastBlock], dirs)
      requires DirsInRange(dirs, lastBlock)
      requires Shaped(FileSystems.Fs(blockBitmap.used[..lastBlock], inodeBitmap.used[..inodesCount], inodes[..],
                                     freeBlocks, freeInodes))
      ensures Valid() && this.disk == disk && this.dirs == dirs
      ensures Fs() == FileSystems.Fs(blockBitmap.used[..lastBlock], inodeBitmap.used[..inodesCount], inodes[..],
                                     freeBlocks, freeInodes)
    {
      this.lastBlock, this.inodesCount, this.disk, this.inodes := lastBlock, inodesCount, disk, inodes;
      this.blockBitmap, this.inodeBitmap, this.dirs := blockBitmap, inodeBitmap, dirs;
      superFreeBlocks, groupFreeBlocks := freeBlocks.super, freeBlocks.group;
      superFreeInodes, groupFreeInodes := freeInodes.super, freeInodes.group;
    }

    // -------------------------------------------------------------- blocks

    method GetBlockUsage(n: int) returns (b: bool)
      requires Valid() && 1 <= n <= lastBlock
      ensures b == Fs().blockUsed[n - 1]
    {
      b := blockBitmap.Get(n - 1);
    }

    method SetBlockUsage(n: int, b: bool)
      requires Valid() && 1 <= n <= lastBlock && (!b ==> n !in dirs)
      modifies blockBitmap, blockBitmap.v
      ensures Valid() && Fs() == old(Fs()).(blockUsed := old(Fs()).blockUsed[n - 1 := b])
    {
      blockBitmap.Set(n - 1, b);
      assert UpTo(blockBitmap.used, lastBlock) == old(UpTo(blockBitmap.used, lastBlock))[n - 1 := b];
      forall m: int ensures DirHolds(disk[..], Fs().blockUsed, dirs, m) {
        assert DirHolds(old(disk[..]), old(Fs()).blockUsed, dirs, m);
      }
    }

    method IncreaseFreeBlocksCount(count: int)
      requires Valid()
      modifies `superFreeBlocks, `groupFreeBlocks
      ensures Valid() && Fs() == old(Fs()).(freeBlocks := Increased(old(Fs()).freeBlocks, count))
    {
      superFreeBlocks := superFreeBlocks + count;
      groupFreeBlocks := groupFreeBlocks + count;
    }

    /** memset(get_block(disk, n), 0, EXT2_BLOCK_SIZE) */
    method ClearBlock(n: int)
      requires Valid() && 1 <= n <= lastBlock && n !in dirs
      modifies disk
      ensures Valid() && Cleared(old(disk[..]), disk[..], [n])
    {
      ghost var was := disk[..];
      forall x | BlockStart(n) <= x < BlockStart(n + 1) {
        disk[x] := 0;
      }
      ClearedOne(was, disk[..], n);
      forall m: int ensures DirHolds(disk[..], Fs().blockUsed, dirs, m) {
        assert DirHolds(was, Fs().blockUsed, dirs, m);
        if m in dirs {
          HoldsDepends(was, disk[..], BlockStart(m), BlockStart(m) + BLOCK_SIZE, dirs[m]);
        }
      }
    }

    /** Block n, which is free, is taken: its bit is set and its bytes are cleared. */
    method TakeBlock(n: int)
      requires Valid() && 1 <= n <= lastBlock && !Fs().blockUsed[n - 1]
      modifies blockBitmap, blockBitmap.v, disk
      ensures Valid() && Fs() == old(Fs()).(blockUsed := old(Fs()).blockUsed[n - 1 := true])
      ensures Cleared(old(disk[..]), disk[..], [n])
    {
      assert DirHolds(disk[..], Fs().blockUsed, dirs, n);
      SetBlockUsage(n, true);
      ClearBlock(n);
    }

    /** allocate_blocks: num free blocks, or None when the counter says that there are not so many.  The
        scan is not bounded, but it stops in range because the counter agrees with the bitmap. */
    method AllocateBlocks(num: nat) returns (r: Option<seq<int>>)
      requires Valid() && BlocksCounted(Fs())
      modifies `superFreeBlocks, `groupFreeBlocks, blockBitmap, blockBitmap.v, disk
      ensures Valid()
      ensures if num > old(Fs()).freeBlocks.super then r == None && Fs() == old(Fs()) && disk[..] == old(disk[..])
              else r == Some(FirstBlocks(old(Fs()).blockUsed, num))
                   && Fs() == old(Fs()).(blockUsed := AllMarked(old(Fs()).blockUsed, r.value),
                                         freeBlocks := Increased(old(Fs()).freeBlocks, 0 - num))
                   && Cleared(old(disk[..]), disk[..], r.value)
    {
      if num > superFreeBlocks {
        return None;
      }
      ghost var used0 := Fs().blockUsed;
      IncreaseFreeBlocksCount(0 - num);
      var ret: seq<int> := [];
      var blockNum := LAST_RESERVED_BLOCK + 1;
      ScanStarts(used0, num);
      while |ret| < num
        invariant Valid() && blockNum <= lastBlock + 1
        invariant Scanning(used0, Fs().blockUsed, num, ret, blockNum)
        invariant Fs() == old(Fs()).(blockUsed := Fs().blockUsed,
                                     freeBlocks := Increased(old(Fs()).freeBlocks, 0 - num))
        invariant Cleared(old(disk[..]), disk[..], ret)
        decreases lastBlock + 1 - blockNum
      {
        ScanInRange(used0, Fs().blockUsed, num, ret, blockNum);
        ret := ScanBlock(blockNum, num, ret, used0, old(disk[..]));
        blockNum := blockNum + 1;
      }
      ScanDone(used0, Fs().blockUsed, num, ret, blockNum);
      r := Some(ret);
    }

    /** One round of the loop of AllocateBlocks. */
    method ScanBlock(n: int, num: nat, ret: seq<int>, ghost used0: seq<bool>, ghost d0: seq<Byte>)
        returns (ret': seq<int>)
      requires Valid() && 1 <= n <= lastBlock && |ret| < num
      requires Scanning(used0, Fs().blockUsed, num, ret, n) && Cleared(d0, disk[..], ret)
      modifies blockBitmap, blockBitmap.v, disk
      ensures Valid() && Fs() == old(Fs()).(blockUsed := Fs().blockUsed)
      ensures Scanning(used0, Fs().blockUsed, num, ret', n + 1) && Cleared(d0, disk[..], ret')
    {
      ghost var used, d := Fs().blockUsed, disk[..];
      ret' := ret;
      var taken := TakeIfFree(n);
      ScanStep(used0, used, num, ret, n);
      if taken {
        ClearedMore(d0, d, disk[..], ret, n);
        ret' := ret + [n];
      }
    }

    method TakeIfFree(n: int) returns (taken: bool)
      requires Valid() && 1 <= n <= lastBlock
      modifies blockBitmap, blockBitmap.v, disk
      ensures Valid() && taken == !old(Fs()).blockUsed[n - 1]
      ensures if taken then Fs() == old(Fs()).(blockUsed := old(Fs()).blockUsed[n - 1 := true])
              && Cleared(old(disk[..]), disk[..], [n])
              else Fs() == old(Fs()) && disk[..] == old(disk[..])
    {
      var inUse := GetBlockUsage(n);
      taken := !inUse;
      if taken {
        TakeBlock(n);
      }
    }

    /** free_block */
    method FreeBlock(n: int)
      requires Valid() && 1 <= n <= lastBlock && n !in dirs
      modifies `superFreeBlocks, `groupFreeBlocks, blockBitmap, blockBitmap.v
      ensures Valid() && Fs() == BlockMarked(old(Fs()), n, false)
    {
      IncreaseFreeBlocksCount(1);
      SetBlockUsage(n, false);
    }

    // -------------------------------------------------------------- inodes

    method GetBlockNumber(a: nat, i: nat) returns (n: int)
      requires Valid() && 1 <= a <= inodesCount
      ensures n == BlockNumber(Fs(), a, i)
    {
      if i < INDIRECT1_INDEX {
        n := inodes[a - 1].block[i];
      } else {
        n := 0;
      }
    }

    method SetBlockNumber(a: nat, i: nat, n: int)
      requires Valid() && 1 <= a <= inodesCount
      modifies inodes
      ensures Valid() && Fs() == WithBlock(old(Fs()), a, i, n)
    {
      if i < INDIRECT1_INDEX {
        inodes[a - 1] := inodes[a - 1].(block := inodes[a - 1].block[i := n]);
      }
    }

    method GetInodeUsage(a: nat) returns (b: bool)
      requires Valid() && 1 <= a <= inodesCount
      ensures b == Fs().inodeUsed[a - 1]
    {
      b := inodeBitmap.Get(a - 1);
    }

    method SetInodeUsage(a: nat, b: bool)
      requires Valid() && 1 <= a <= inodesCount
      modifies inodeBitmap, inodeBitmap.v
      ensures Valid() && Fs() == old(Fs()).(inodeUsed := old(Fs()).inodeUsed[a - 1 := b])
    {
      inodeBitmap.Set(a - 1, b);
      assert UpTo(inodeBitmap.used, inodesCount) == old(UpTo(inodeBitmap.used, inodesCount))[a - 1 := b];
    }

    method IncreaseFreeInodesCount(count: int)
      requires Valid()
      modifies `superFreeInodes, `groupFreeInodes
      ensures Valid() && Fs() == old(Fs()).(freeInodes := Increased(old(Fs()).freeInodes, count))
    {
      superFreeInodes := superFreeInodes + count;
      groupFreeInodes := groupFreeInodes + count;
    }

    /** Zeroes the block numbers of an inode. */
    method ClearSlots(a: nat)
      requires Valid() && 1 <= a <= inodesCount
      modifies inodes
      ensures Valid() && Fs() == WithSlots(old(Fs()), a, NoBlocks())
    {
      for i := 0 to INODE_BLOCK_LIMIT
        invariant Valid() && Fs() == WithSlots(old(Fs()), a, Slots(Fs(), a)) && ZeroBelow(Slots(Fs(), a), i)
      {
        SetBlockNumber(a, i, 0);
      }
      assert Slots(Fs(), a) == NoBlocks();
    }

    method UseInode(a: nat)
      requires Valid() && 1 <= a <= inodesCount
      modifies inodeBitmap, inodeBitmap.v, inodes
      ensures Valid() && Fs() == WithSlots(old(Fs()).(inodeUsed := old(Fs()).inodeUsed[a - 1 := true]), a, NoBlocks())
    {
      SetInodeUsage(a, true);
      ClearSlots(a);
    }

    /** allocate_inode: the least free inode that is not reserved, or None when the counter is 0. */
    method AllocateInode() returns (r: Option<nat>)
      requires Valid() && InodesCounted(Fs())
      modifies `superFreeInodes, `groupFreeInodes, inodeBitmap, inodeBitmap.v, inodes
      ensures Valid()
      ensures if old(Fs()).freeInodes.super == 0 then r == None && Fs() == old(Fs())
              else r == Some(NextInode(old(Fs()))) && NextInode(old(Fs())) <= inodesCount
                   && Fs() == WithSlots(InodeMarked(old(Fs()), NextInode(old(Fs())), true), NextInode(old(Fs())),
                                        NoBlocks())
    {
      if superFreeInodes == 0 {
        return None;
      }
      ghost var fs, next := Fs(), NextInode(Fs());
      SomeClear(fs.inodeUsed, LAST_RESERVED_INODE);
      IncreaseFreeInodesCount(-1);
      var a := LAST_RESERVED_INODE + 1;
      while a <= inodesCount
        invariant Valid() && Fs() == fs.(freeInodes := Increased(fs.freeInodes, -1))
        invariant LAST_RESERVED_INODE < a <= next
        decreases inodesCount - a
      {
        var inUse := GetInodeUsage(a);
        if !inUse {
          UseInode(a);
          return Some(a);
        }
        a := a + 1;
      }
      assert false;  // the counter says that some inode is free
    }

    /** What free_inode does with one slot. */
    method FreeSlot(a: nat, i: nat)
      requires Valid() && 1 <= a <= inodesCount && SlotsInRange(Fs(), a)
      requires i < INDIRECT1_INDEX ==> Slots(Fs(), a)[i] !in dirs
      modifies `superFreeBlocks, `groupFreeBlocks, blockBitmap, blockBitmap.v, inodes
      ensures Valid() && Fs() == if i < INDIRECT1_INDEX then SlotFreed(old(Fs()), a, i) else old(Fs())
    {
      var n := GetBlockNumber(a, i);
      if n != 0 {
        FreeBlock(n);
        SetBlockNumber(a, i, 0);
      }
    }

    method FreeNextSlot(a: nat, i: nat, ghost target: Fs)
      requires Valid() && 1 <= a <= inodesCount && i < INODE_BLOCK_LIMIT && Freeing(target, Fs(), a, i + 1, dirs)
      modifies `superFreeBlocks, `groupFreeBlocks, blockBitmap, blockBitmap.v, inodes
      ensures Valid() && Freeing(target, Fs(), a, i, dirs)
    {
      FreeingStep(target, Fs(), a, i, dirs);
      FreeSlot(a, i);
    }

    /** The start of free_inode. */
    method MarkInodeFree(a: nat)
      requires Valid() && 1 <= a <= inodesCount
      modifies `superFreeInodes, `groupFreeInodes, inodeBitmap, inodeBitmap.v
      ensures Valid() && Fs() == InodeMarked(old(Fs()), a, false)
    {
      IncreaseFreeInodesCount(1);
      SetInodeUsage(a, false);
    }

    /** free_inode */
    method FreeInode(a: nat)
      requires Valid() && 1 <= a <= inodesCount && SlotsInRange(Fs(), a)
               && NotDirs(Slots(Fs(), a), INDIRECT1_INDEX, dirs)
      modifies `superFreeBlocks, `groupFreeBlocks, blockBitmap, blockBitmap.v
      modifies `superFreeInodes, `groupFreeInodes, inodeBitmap, inodeBitmap.v, inodes
      ensures Valid() && Fs() == InodeFreed(old(Fs()), a)
    {
      ghost var target := InodeFreed(Fs(), a);
      FreeingStarts(Fs(), a, dirs);
      MarkInodeFree(a);
      for i := INODE_BLOCK_LIMIT downto 0
        invariant Valid() && Freeing(target, Fs(), a, i, dirs)
      {
        FreeNextSlot(a, i, target);
      }
    }

    /** allocate_block_on_inode: 0 if the slot is occupied, None if no block is free. */
    method AllocateBlockOnInode(a: nat, i: nat) returns (r: Option<int>)
      requires Valid() && BlocksCounted(Fs()) && 1 <= a <= inodesCount
      modifies `superFreeBlocks, `groupFreeBlocks, blockBitmap, blockBitmap.v, disk, inodes
      ensures Valid()
      ensures BlockNumber(old(Fs()), a, i) != 0 ==> r == Some(0) && Fs() == old(Fs()) && disk[..] == old(disk[..])
      ensures BlockNumber(old(Fs()), a, i) == 0 && old(Fs()).freeBlocks.super <= 0 ==>
                r == None && Fs() == old(Fs()) && disk[..] == old(disk[..])
      ensures BlockNumber(old(Fs()), a, i) == 0 && old(Fs()).freeBlocks.super > 0 ==>
                && r == Some(NextBlock(old(Fs()))) && NextBlock(old(Fs())) <= lastBlock
                   && !old(Fs()).blockUsed[NextBlock(old(Fs())) - 1]
                && Fs() == Attached(old(Fs()), a, i) && Cleared(old(disk[..]), disk[..], [NextBlock(old(Fs()))])
    {
      var n := GetBlockNumber(a, i);
      if n != 0 {
        return Some(0);
      }
      OneBlock(Fs());
      var arr := AllocateBlocks(1);
      if arr == None {
        return None;
      }
      SetBlockNumber(a, i, arr.value[0]);
      r := Some(arr.value[0]);
    }

    // -------------------------------------------------------------- directories

    /** Whether block n has an entry of the given name, and where. */
    method LookInBlock(n: int, name: Name) returns (found: bool, prev: int, cur: int)
      requires Valid() && n in dirs
      ensures found == HasNamed(dirs, n, name)
      ensures At(BlockStart(n), dirs[n], FirstNamed(dirs[n], name), cur)
      ensures if FirstNamed(dirs[n], name) == 0 then prev == -1
              else At(BlockStart(n), dirs[n], FirstNamed(dirs[n], name) - 1, prev)
    {
      assert DirHolds(disk[..], Fs().blockUsed, dirs, n);
      found, prev, cur := BlockMatchingPair(disk, BlockStart(n), dirs[n], name);
    }

    /** find_matching_pair: the first slot of the directory whose block has an entry of the given name. */
    method FindMatchingPair(a: nat, name: Name) returns (found: bool, slot: nat, prev: int, cur: int)
      requires Valid() && IsDirInode(Fs(), dirs, a)
      ensures slot == NamedSlot(Slots(Fs(), a), dirs, name, 0) || !found
      ensures found == (NamedSlot(Slots(Fs(), a), dirs, name, 0) < INDIRECT1_INDEX)
      ensures found ==> var n := Slots(Fs(), a)[slot];
              && At(BlockStart(n), dirs[n], FirstNamed(dirs[n], name), cur)
              && if FirstNamed(dirs[n], name) == 0 then prev == -1
                 else At(BlockStart(n), dirs[n], FirstNamed(dirs[n], name) - 1, prev)
    {
      ghost var s := Slots(Fs(), a);
      slot, prev, cur := 0, -1, 0;
      for i := 0 to INODE_BLOCK_LIMIT
        invariant NamedSlot(s, dirs, name, 0) == NamedSlot(s, dirs, name, DirectBelow(i))
      {
        var n := GetBlockNumber(a, i);
        if n != 0 {
          found, prev, cur := LookInBlock(n, name);
          if found {
            slot := i;
            return;
          }
        }
      }
      found := false;
    }

    /** Puts an entry into block n, if there seems to be room. */
    method PutInBlock(n: int, child: int, name: Name, fileType: Byte) returns (made: bool)
      requires Valid() && 1 <= n <= lastBlock && BlockSearchable(disk[..], n, name) && 0 <= child < 0x1_0000_0000
               && |name| <= NAME_LEN
      modifies disk
      ensures Sized() && Fs() == old(Fs()) && made == RoomIn(old(disk[..]), n, name)
      ensures disk[..] == RawMade(old(disk[..]), BlockStart(n), child, name, fileType)
    {
      ghost var d := disk[..];
      RoomIsStop(d, n, name);
      var ret := MakeEntryInExistingBlock(disk, BlockStart(n), child, name, fileType);
      made := ret != -1;
    }

    /** The first entry of a new block takes all of it. */
    method PutFirst(n: int, child: int, name: Name, fileType: Byte)
      requires Valid() && 1 <= n <= lastBlock && Fs().blockUsed[n - 1] && n !in dirs
      requires 0 <= child < 0x1_0000_0000 && |name| <= NAME_LEN
      modifies disk, `dirs
      ensures Valid() && Fs() == old(Fs()) && dirs == old(dirs)[n := [Dirent(child, BLOCK_SIZE, name, fileType)]]
      ensures OnlyBlock(old(disk[..]), disk[..], BlockStart(n))
    {
      ghost var d, e := disk[..], Dirent(child, BLOCK_SIZE, name, fileType);
      WriteEntry(disk, BlockStart(n), child, BLOCK_SIZE, name, fileType);
      HoldsOne(disk[..], BlockStart(n), BlockStart(n) + BLOCK_SIZE, e);
      DirsUpdated(d, disk[..], Fs().blockUsed, dirs, n, [e]);
      dirs := dirs[n := [e]];
    }

    /** The same for a block that was free, and has been cleared. */
    method PutInNewBlock(n: int, child: int, name: Name, fileType: Byte, ghost d0: seq<Byte>)
      requires Valid() && 1 <= n <= lastBlock && Fs().blockUsed[n - 1] && n !in dirs
      requires Cleared(d0, disk[..], [n]) && 0 <= child < 0x1_0000_0000 && |name| <= NAME_LEN
      modifies disk, `dirs
      ensures Valid() && Fs() == old(Fs()) && dirs == old(dirs)[n := [Dirent(child, BLOCK_SIZE, name, fileType)]]
      ensures IsNewBlock(d0, disk[..], n, Dirent(child, BLOCK_SIZE, name, fileType))
    {
      ghost var cleared := disk[..];
      PutFirst(n, child, name, fileType);
      ClearedOnly(d0, cleared, n);
      assert DirHolds(disk[..], Fs().blockUsed, dirs, n);
    }

    /** One round of the first loop: the block in slot i, if there is one. */
    method SqueezeIntoSlot(a: nat, i: nat, child: int, name: Name, fileType: Byte) returns (made: bool)
      requires Valid() && 1 <= a <= inodesCount && 0 <= child < 0x1_0000_0000 && |name| <= NAME_LEN
      requires BlockNumber(Fs(), a, i) != 0 ==> BlockSearchable(disk[..], BlockNumber(Fs(), a, i), name)
      modifies disk
      ensures Sized() && Fs() == old(Fs()) && made == RoomIn(old(disk[..]), BlockNumber(old(Fs()), a, i), name)
      ensures if made then
                disk[..] == RawMade(old(disk[..]), BlockStart(BlockNumber(old(Fs()), a, i)), child, name, fileType)
              else Valid() && disk[..] == old(disk[..])
    {
      made := false;
      ghost var d := disk[..];
      var n := GetBlockNumber(a, i);
      if n != 0 {
        made := PutInBlock(n, child, name, fileType);
        if !made {
          RawUnmade(d, BlockStart(n), child, name, fileType);
        }
      }
    }

    /** The first loop of make_entry_in_inode: an existing block that seems to have room. */
    method SqueezeIn(a: nat, child: int, name: Name, fileType: Byte) returns (made: bool)
      requires Valid() && 1 <= a <= inodesCount && 0 <= child < 0x1_0000_0000 && |name| <= NAME_LEN
      requires Searchable(Slots(Fs(), a), disk[..], name)
      modifies disk
      ensures Sized() && Fs() == old(Fs())
      ensures made == (FirstRoom(Slots(old(Fs()), a), old(disk[..]), name, 0) < INDIRECT1_INDEX)
      ensures if made then
                var n := Slots(old(Fs()), a)[FirstRoom(Slots(old(Fs()), a), old(disk[..]), name, 0)];
                disk[..] == RawMade(old(disk[..]), BlockStart(n), child, name, fileType)
              else Valid() && disk[..] == old(disk[..])
    {
      ghost var s, d := Slots(Fs(), a), disk[..];
      for i := 0 to INODE_BLOCK_LIMIT
        invariant Valid() && Fs() == old(Fs()) && disk[..] == d
        invariant FirstRoom(s, d, name, 0) == FirstRoom(s, d, name, DirectBelow(i))
      {
        if BlockNumber(Fs(), a, i) != 0 {
          SearchableAt(s, d, name, i);
        }
        made := SqueezeIntoSlot(a, i, child, name, fileType);
        if made {
          return;
        }
      }
      made := false;
    }

    /** One round of the second loop: if slot i is empty, the entry goes into a new block there. */
    method GrowInode(a: nat, i: nat, child: int, name: Name, fileType: Byte) returns (grown: Option<bool>)
      requires Valid() && BlocksCounted(Fs()) && 1 <= a <= inodesCount && 0 <= child < 0x1_0000_0000
               && |name| <= NAME_LEN
      modifies `superFreeBlocks, `groupFreeBlocks, blockBitmap, blockBitmap.v, disk, inodes, `dirs
      ensures Valid()
      ensures grown == if BlockNumber(old(Fs()), a, i) != 0 then Some(false)
                       else if old(Fs()).freeBlocks.super <= 0 then None else Some(true)
      ensures grown != Some(true) ==> Fs() == old(Fs()) && dirs == old(dirs) && disk[..] == old(disk[..])
      ensures grown == Some(true) ==>
                && NextBlock(old(Fs())) <= lastBlock && !old(Fs()).blockUsed[NextBlock(old(Fs())) - 1]
                && Fs() == Attached(old(Fs()), a, i)
                && IsNewBlock(old(disk[..]), disk[..], NextBlock(old(Fs())), Dirent(child, BLOCK_SIZE, name, fileType))
                && dirs == old(dirs)[NextBlock(old(Fs())) := [Dirent(child, BLOCK_SIZE, name, fileType)]]
    {
      ghost var fs, was, d := Fs(), dirs, disk[..];
      var r := AllocateBlockOnInode(a, i);
      if r == None {
        return None;
      }
      if r.value != 0 {
        assert DirHolds(d, fs.blockUsed, was, r.value);
        PutInNewBlock(r.value, child, name, fileType, d);
      }
      grown := Some(r.value != 0);
    }

    /** The second loop of make_entry_in_inode: a new block in the first empty slot. */
    method GrowSomewhere(a: nat, child: int, name: Name, fileType: Byte) returns (ok: bool)
      requires Valid() && BlocksCounted(Fs()) && 1 <= a <= inodesCount && 0 <= child < 0x1_0000_0000
               && |name| <= NAME_LEN
      modifies `superFreeBlocks, `groupFreeBlocks, blockBitmap, blockBitmap.v, disk, inodes, `dirs
      ensures Valid() && ok == (old(Fs()).freeBlocks.super > 0)
      ensures !ok ==> (Fs(), dirs) == (old(Fs()), old(dirs)) && disk[..] == old(disk[..])
      ensures ok ==>
                && NextBlock(old(Fs())) <= lastBlock && !old(Fs()).blockUsed[NextBlock(old(Fs())) - 1]
                && Fs() == Attached(old(Fs()), a, EmptySlot(Slots(old(Fs()), a), 0))
                && IsNewBlock(old(disk[..]), disk[..], NextBlock(old(Fs())), Dirent(child, BLOCK_SIZE, name, fileType))
                && dirs == old(dirs)[NextBlock(old(Fs())) := [Dirent(child, BLOCK_SIZE, name, fileType)]]
    {
      ghost var fs, was, d := Fs(), dirs, disk[..];
      for i := 0 to INODE_BLOCK_LIMIT
        invariant Valid() && Fs() == fs && dirs == was && disk[..] == d && i <= INDIRECT1_INDEX
        invariant EmptySlot(Slots(fs, a), 0) == EmptySlot(Slots(fs, a), i)
      {
        var grown := GrowInode(a, i, child, name, fileType);
        if grown == None {
          return false;
        }
        if grown.value {
          return true;
        }
      }
    }

    /** make_entry_in_inode; not ok when a block is needed and none is free.  It does not ask whether the inode is
        a directory; if it is one, and the search for room does not come to a short record, the directory blocks
        are as they should be. */
    method MakeEntryInInode(a: nat, child: int, name: Name, fileType: Byte) returns (ok: bool)
      requires Valid() && BlocksCounted(Fs()) && 1 <= a <= inodesCount && 0 <= child < 0x1_0000_0000
               && |name| <= NAME_LEN
      requires Searchable(Slots(Fs(), a), disk[..], name)
      modifies `superFreeBlocks, `groupFreeBlocks, blockBitmap, blockBitmap.v, disk, inodes, `dirs
      ensures Sized() && EntryPut(old(Fs()), old(disk[..]), a, child, name, fileType, ok, Fs(), disk[..])
      ensures !ok ==> Valid() && dirs == old(dirs)
      ensures OrderlyIn(old(Fs()), old(dirs), a, name) ==>
                && Valid() && DataKept(old(disk[..]), disk[..], old(Fs()).blockUsed, old(dirs))
                && (ok ==> EntryMadeDefined(old(Fs()), old(dirs), a, name)
                           && (Fs(), dirs) == EntryMade(old(Fs()), old(dirs), a, child, name, fileType))
    {
      ghost var fs, was, d := Fs(), dirs, disk[..];
      ok := SqueezeIn(a, child, name, fileType);
      if ok {
        if OrderlyIn(fs, was, a, name) {
          PlacedHolds(fs, was, d, disk[..], a, child, name, fileType);
          dirs := EntryMade(fs, was, a, child, name, fileType).1;
        }
        return;
      }
      ok := GrowSomewhere(a, child, name, fileType);
      if OrderlyIn(fs, was, a, name) {
        RoomIsRoomy(Slots(fs, a), d, fs.blockUsed, was, name);
        if ok {
          NewBlockKept(d, disk[..], fs.blockUsed, was, NextBlock(fs), Dirent(child, BLOCK_SIZE, name, fileType));
        }
      }
    }

    /** Entry number k of block n is deleted. */
    method DeleteInBlock(n: int, ghost k: nat, prev: int, cur: int) returns (empty: bool)
      requires Valid() && n in dirs && k < |dirs[n]| && At(BlockStart(n), dirs[n], k, cur)
      requires if k == 0 then prev == -1 else At(BlockStart(n), dirs[n], k - 1, prev)
      modifies disk, `dirs
      ensures Valid() && Fs() == old(Fs()) && dirs == old(dirs)[n := Deleted(old(dirs)[n], k)]
      ensures empty == IsEmpty(dirs[n]) && DataKept(old(disk[..]), disk[..], Fs().blockUsed, old(dirs))
    {
      ghost var d, es := disk[..], Deleted(dirs[n], k);
      assert DirHolds(d, Fs().blockUsed, dirs, n);
      DeletePair(disk, BlockStart(n), dirs[n], k, prev, cur);
      DirsUpdated(d, disk[..], Fs().blockUsed, dirs, n, es);
      DataKeptBut(d, disk[..], Fs().blockUsed, dirs, n);
      empty := IsEntryBlockEmpty(disk, BlockStart(n), es);
      dirs := dirs[n := es];
    }

    /** The block in a slot of a directory is taken out of it and freed. */
    method DropBlock(a: nat, i: nat)
      requires Valid() && 1 <= a <= inodesCount && i < INDIRECT1_INDEX && Slots(Fs(), a)[i] in dirs
      modifies `superFreeBlocks, `groupFreeBlocks, blockBitmap, blockBitmap.v, inodes, `dirs
      ensures Valid() && dirs == old(dirs) - {Slots(old(Fs()), a)[i]}
      ensures 1 <= BlockNumber(old(Fs()), a, i) <= lastBlock && Fs() == Detached(old(Fs()), a, i)
    {
      ghost var was := dirs;
      var n := GetBlockNumber(a, i);
      assert DirHolds(disk[..], Fs().blockUsed, dirs, n);
      dirs := dirs - {n};
      forall m: int ensures DirHolds(disk[..], Fs().blockUsed, dirs, m) {
        assert DirHolds(disk[..], Fs().blockUsed, was, m);
      }
      SetBlockNumber(a, i, 0);
      FreeBlock(n);
    }

    /** delete_child_entry */
    method DeleteChildEntry(a: nat, name: Name)
      requires Valid() && IsDirInode(Fs(), dirs, a)
      modifies disk, `dirs, `superFreeBlocks, `groupFreeBlocks, blockBitmap, blockBitmap.v, inodes
      ensures Valid() && (Fs(), dirs) == EntryDeleted(old(Fs()), old(dirs), a, name)
      ensures DataKept(old(disk[..]), disk[..], old(Fs()).blockUsed, old(dirs))
    {
      var found, i, prev, cur := FindMatchingPair(a, name);
      if found {
        var n := GetBlockNumber(a, i);
        assert DirHolds(disk[..], Fs().blockUsed, dirs, n);
        var empty := DeleteInBlock(n, FirstNamed(dirs[n], name), prev, cur);
        if empty {
          DropBlock(a, i);
          assert dirs == old(dirs) - {n};
        }
      }
    }
  }

  /** Allocating one block takes the next free one. */
  lemma OneBlock(fs: Fs)
    requires BlocksCounted(fs)
    ensures fs.freeBlocks.super > 0 ==>
              && LAST_RESERVED_BLOCK < NextBlock(fs) <= |fs.blockUsed| && !fs.blockUsed[NextBlock(fs) - 1]
              && FirstBlocks(fs.blockUsed, 1) == [NextBlock(fs)]
              && AllMarked(fs.blockUsed, [NextBlock(fs)]) == fs.blockUsed[NextBlock(fs) - 1 := true]
  {
    if fs.freeBlocks.super > 0 {
      SomeClear(fs.blockUsed, LAST_RESERVED_BLOCK);
      assert FirstBlocks(fs.blockUsed[NextBlock(fs) - 1 := true], 0) == [];
      MarkFirst(fs.blockUsed, NextBlock(fs) - 1, []);
      assert [NextBlock(fs)] + [] == [NextBlock(fs)];
    }
  }

  /** The counter agrees with the bitmap, and no reserved inode is free. */
  ghost predicate InodesCounted(fs: Fs) {
    && Shaped(fs) && ReservedUsed(fs.inodeUsed, LAST_RESERVED_INODE) && fs.freeInodes.super == CountClear(fs.inodeUsed)
  }

  // ---------------------------------------------------------------- directories

  /** Block n is a directory block with an entry of the given name. */
  ghost predicate HasNamed(dirs: Dirs, n: int, name: Name) {
    n in dirs && FirstNamed(dirs[n], name) < |dirs[n]|
  }

  /** Block n is a directory block with room for an entry that needs that many bytes. */
  ghost predicate HasRoom(dirs: Dirs, n: int, needed: int) {
    n in dirs && Makes(dirs[n], needed)
  }

  /** The first slot from i on whose block has an entry of the given name, or |s|. */
  ghost function NamedSlot(s: seq<int>, dirs: Dirs, name: Name, i: nat): (j: nat)
    requires i <= |s|
    ensures i <= j <= |s| && (j < |s| ==> HasNamed(dirs, s[j], name))
    ensures forall x :: i <= x < j ==> !HasNamed(dirs, s[x], name)
    decreases |s| - i
  {
    if i == |s| || HasNamed(dirs, s[i], name) then i else NamedSlot(s, dirs, name, i + 1)
  }

  /** The first slot from i on whose block has room, or |s|. */
  ghost function RoomySlot(s: seq<int>, dirs: Dirs, needed: int, i: nat): (j: nat)
    requires i <= |s|
    ensures i <= j <= |s| && (j < |s| ==> HasRoom(dirs, s[j], needed))
    ensures forall x :: i <= x < j ==> !HasRoom(dirs, s[x], needed)
    decreases |s| - i
  {
    if i == |s| || HasRoom(dirs, s[i], needed) then i else RoomySlot(s, dirs, needed, i + 1)
  }

  /** No block that the search for room passes has a record that it would write over. */
  ghost predicate Clean(s: seq<int>, dirs: Dirs, needed: int) {
    forall j {:trigger s[j]} :: 0 <= j < RoomySlot(s, dirs, needed, 0) && s[j] in dirs ==> !Clobbers(dirs[s[j]], needed)
  }

  lemma CleanAt(s: seq<int>, dirs: Dirs, needed: int, i: nat)
    requires Clean(s, dirs, needed) && i <= RoomySlot(s, dirs, needed, 0) && i < |s| && s[i] in dirs
    ensures !Clobbers(dirs[s[i]], needed)
  {
    if i == RoomySlot(s, dirs, needed, 0) {
      assert HasRoom(dirs, s[i], needed);
    }
  }

  // ---------------------------------------------------------------- make_entry_in_inode, on bytes

  /** The search for room can be made in block n: the headers it reads are in the block, and the space it finds
      is in memory. */
  predicate BlockSearchable(d: seq<Byte>, n: int, name: Name) {
    && 1 <= n && Reads(d, BlockStart(n), BlockStart(n) + BLOCK_SIZE, TotalEntryLength(|name|))
    && InMemory(d, BlockStart(n), name)
  }

  /** So are all blocks of the slots that the search comes to. */
  predicate Searchable(s: seq<int>, d: seq<Byte>, name: Name) {
    forall j {:trigger s[j]} :: 0 <= j < |s| && j <= FirstRoom(s, d, name, 0) && s[j] != 0 ==>
      BlockSearchable(d, s[j], name)
  }

  lemma SearchableAt(s: seq<int>, d: seq<Byte>, name: Name, i: nat)
    requires Searchable(s, d, name) && i < |s| && s[i] != 0 && FirstRoom(s, d, name, 0) == FirstRoom(s, d, name, i)
    ensures BlockSearchable(d, s[i], name) && BlockStart(s[i]) < |d|
  {
  }

  /** Block n seems to have room for an entry with the name. */
  predicate RoomIn(d: seq<Byte>, n: int, name: Name) {
    n != 0 && Stop(d, BlockStart(n), BlockStart(n) + BLOCK_SIZE, TotalEntryLength(|name|)) != -1
  }

  lemma RoomIsStop(d: seq<Byte>, n: int, name: Name)
    requires n != 0
    ensures RoomIn(d, n, name) <==>
            !(Stop(d, BlockStart(n), BlockStart(n) + BLOCK_SIZE, TotalEntryLength(|name|)) == -1)
  {
  }

  /** The first slot from i on whose block seems to have room, or |s|. */
  function FirstRoom(s: seq<int>, d: seq<Byte>, name: Name, i: nat): (j: nat)
    requires i <= |s|
    ensures i <= j <= |s| && (j < |s| ==> RoomIn(d, s[j], name))
    ensures forall x :: i <= x < j ==> !RoomIn(d, s[x], name)
    decreases |s| - i
  {
    if i == |s| || RoomIn(d, s[i], name) then i else FirstRoom(s, d, name, i + 1)
  }

  /** Only block n has changed, and the entry fills it. */
  ghost predicate IsNewBlock(d: seq<Byte>, d': seq<Byte>, n: int, e: Dirent) {
    0 <= n && OnlyBlock(d, d', BlockStart(n)) && IsDirBlock(d', BlockStart(n), [e])
  }

  /** What make_entry_in_inode does to inode a, whatever its blocks hold: the entry goes into the first block that
      seems to have room for it, or else into a new block in the first empty slot.  (With all direct slots taken,
      slot 12 looks empty.) */
  ghost predicate EntryPut(fs: Fs, d: seq<Byte>, a: nat, child: int, name: Name, fileType: Byte, made: bool, fs': Fs,
                           d': seq<Byte>)
  {
    && Shaped(fs) && 1 <= a <= |fs.inodes| && 0 <= child < 0x1_0000_0000 && |name| <= NAME_LEN
    && var s := Slots(fs, a); var j := FirstRoom(s, d, name, 0);
       if j < INDIRECT1_INDEX then
         && made && fs' == fs && InMemory(d, BlockStart(s[j]), name)
         && d' == RawMade(d, BlockStart(s[j]), child, name, fileType)
       else if fs.freeBlocks.super <= 0 then !made && (fs', d') == (fs, d)
       else
         && made && NextBlock(fs) <= |fs.blockUsed| && fs' == Attached(fs, a, EmptySlot(s, 0))
         && IsNewBlock(d, d', NextBlock(fs), Dirent(child, BLOCK_SIZE, name, fileType))
  }

  lemma ClearedOnly(d: seq<Byte>, d': seq<Byte>, n: int)
    requires Cleared(d, d', [n]) && 0 <= n
    ensures OnlyBlock(d, d', BlockStart(n))
  {
    forall x | 0 <= x < |d| && !(BlockStart(n) <= x < BlockStart(n) + BLOCK_SIZE) ensures d[x] == d'[x] {
      var m := x / BLOCK_SIZE;
      assert BlockStart(m) <= x < BlockStart(m + 1) && m != [n][0];
      assert SameBlock(d, d', m);
    }
  }

  // ---------------------------------------------------------------- and on directories

  /** Inode a is a directory, and the search for room for the name does not come to a record that it would
      write over. */
  ghost predicate OrderlyIn(fs: Fs, dirs: Dirs, a: nat, name: Name) {
    IsDirInode(fs, dirs, a) && Clean(Slots(fs, a), dirs, TotalEntryLength(|name|))
  }

  /** In the block of a directory there seems to be room if there is, or if the search stops at a short record. */
  lemma RoomInDir(d: seq<Byte>, used: seq<bool>, dirs: Dirs, n: int, name: Name)
    requires DirHolds(d, used, dirs, n) && n in dirs
    ensures RoomIn(d, n, name) <==> HasRoom(dirs, n, TotalEntryLength(|name|))
                                    || Clobbers(dirs[n], TotalEntryLength(|name|))
  {
    StopOnChain(d, BlockStart(n), dirs[n], TotalEntryLength(|name|), 0);
    OffsetInBlock(d, BlockStart(n), dirs[n], FirstFit(dirs[n], TotalEntryLength(|name|)));
    assert Offset(dirs[n], BlockStart(n), 0) == BlockStart(n);
  }

  lemma {:induction false} RoomIsRoomy(s: seq<int>, d: seq<Byte>, used: seq<bool>, dirs: Dirs, name: Name)
    requires DirsHold(d, used, dirs) && InDirs(s, dirs) && Clean(s, dirs, TotalEntryLength(|name|)) && 0 !in dirs
    ensures FirstRoom(s, d, name, 0) == RoomySlot(s, dirs, TotalEntryLength(|name|), 0)
  {
    var needed := TotalEntryLength(|name|);
    var j := RoomySlot(s, dirs, needed, 0);
    forall x | 0 <= x < |s| && x <= j ensures RoomIn(d, s[x], name) <==> x == j {
      if s[x] in dirs {
        assert DirHolds(d, used, dirs, s[x]);
        RoomInDir(d, used, dirs, s[x], name);
        if x < j {
          CleanAt(s, dirs, needed, x);
        }
      }
    }
    FirstRoomIs(s, d, name, j);
  }

  lemma FirstRoomIs(s: seq<int>, d: seq<Byte>, name: Name, j: nat)
    requires j <= |s| && (j < |s| ==> RoomIn(d, s[j], name)) && forall x :: 0 <= x < j ==> !RoomIn(d, s[x], name)
    ensures FirstRoom(s, d, name, 0) == j
  {
  }

  /** The entry goes into a block of a directory: all directory blocks hold what they should. */
  lemma {:induction false} PlacedBlock(d: seq<Byte>, used: seq<bool>, dirs: Dirs, n: int, child: int, name: Name,
                                       fileType: Byte)
    requires DirsHold(d, used, dirs) && HasRoom(dirs, n, TotalEntryLength(|name|)) && InMemory(d, BlockStart(n), name)
    requires 0 <= child < 0x1_0000_0000 && |name| <= NAME_LEN
    ensures var d' := RawMade(d, BlockStart(n), child, name, fileType);
            && DirsHold(d', used, dirs[n := Inserted(dirs[n], FirstFit(dirs[n], TotalEntryLength(|name|)), child,
                                                     name, fileType)])
            && DataKept(d, d', used, dirs)
  {
    var es, d' := dirs[n], RawMade(d, BlockStart(n), child, name, fileType);
    assert DirHolds(d, used, dirs, n);
    RawIsMade(d, BlockStart(n), es, child, name, fileType);
    MadeBytesHold(d, BlockStart(n), es, child, name, fileType);
    DataKeptBut(d, d', used, dirs, n);
    DirsUpdated(d, d', used, dirs, n, Inserted(es, FirstFit(es, TotalEntryLength(|name|)), child, name, fileType));
  }

  lemma {:induction false} PlacedHolds(fs: Fs, dirs: Dirs, d: seq<Byte>, d': seq<Byte>, a: nat, child: int, name: Name,
                                       fileType: Byte)
    requires OrderlyIn(fs, dirs, a, name) && DirsHold(d, fs.blockUsed, dirs) && DirsInRange(dirs, |fs.blockUsed|)
    requires FirstRoom(Slots(fs, a), d, name, 0) < INDIRECT1_INDEX
             && EntryPut(fs, d, a, child, name, fileType, true, fs, d')
    ensures EntryMadeDefined(fs, dirs, a, name) && EntryMade(fs, dirs, a, child, name, fileType).0 == fs
    ensures var dirs' := EntryMade(fs, dirs, a, child, name, fileType).1;
            && DirsHold(d', fs.blockUsed, dirs') && DirsInRange(dirs', |fs.blockUsed|)
            && DataKept(d, d', fs.blockUsed, dirs)
  {
    RoomIsRoomy(Slots(fs, a), d, fs.blockUsed, dirs, name);
    PlacedBlock(d, fs.blockUsed, dirs, Slots(fs, a)[FirstRoom(Slots(fs, a), d, name, 0)], child, name, fileType);
  }

  /** A new block takes no data away. */
  lemma NewBlockKept(d: seq<Byte>, d': seq<Byte>, used: seq<bool>, dirs: Dirs, n: int, e: Dirent)
    requires 1 <= n <= |used| && !used[n - 1] && IsNewBlock(d, d', n, e)
    ensures DataKept(d, d', used, dirs)
  {
    DataKeptBut(d, d', used, dirs, n);
  }

  /** There is a block for the entry. */
  ghost predicate EntryMadeDefined(fs: Fs, dirs: Dirs, a: nat, name: Name) {
    && IsDirInode(fs, dirs, a) && DirsInRange(dirs, |fs.blockUsed|)
    && (RoomySlot(Slots(fs, a), dirs, TotalEntryLength(|name|), 0) == INDIRECT1_INDEX ==>
          NextBlock(fs) <= |fs.blockUsed|)
  }

  /** What make_entry_in_inode leaves: the entry is in the first block with room for it, or else in a new
      block in the first empty slot.  (With all direct slots taken, slot 12 looks empty.) */
  ghost function EntryMade(fs: Fs, dirs: Dirs, a: nat, child: int, name: Name, fileType: Byte): (r: (Fs, Dirs))
    requires IsDirInode(fs, dirs, a) && DirsInRange(dirs, |fs.blockUsed|)
    requires RoomySlot(Slots(fs, a), dirs, TotalEntryLength(|name|), 0) == INDIRECT1_INDEX ==>
               NextBlock(fs) <= |fs.blockUsed|
  {
    var j := RoomySlot(Slots(fs, a), dirs, TotalEntryLength(|name|), 0);
    if j < INDIRECT1_INDEX then
      var n := Slots(fs, a)[j];
      (fs, dirs[n := Inserted(dirs[n], FirstFit(dirs[n], TotalEntryLength(|name|)), child, name, fileType)])
    else
      (Attached(fs, a, EmptySlot(Slots(fs, a), 0)), dirs[NextBlock(fs) := [Dirent(child, BLOCK_SIZE, name, fileType)]])
  }

  /** What delete_child_entry leaves: the entry is gone, and so is its block if no name is left in it. */
  ghost function EntryDeleted(fs: Fs, dirs: Dirs, a: nat, name: Name): (r: (Fs, Dirs))
    requires Shaped(fs) && 1 <= a <= |fs.inodes| && DirsInRange(dirs, |fs.blockUsed|)
  {
    var i := NamedSlot(Slots(fs, a), dirs, name, 0);
    if i == INDIRECT1_INDEX then (fs, dirs)
    else
      var n := Slots(fs, a)[i];
      var es := Deleted(dirs[n], FirstNamed(dirs[n], name));
      if IsEmpty(es) then (Detached(fs, a, i), dirs - {n}) else (fs, dirs[n := es])
  }

  /** The first empty slot from i on, or |s|. */
  function EmptySlot(s: seq<int>, i: nat): (j: nat)
    requires i <= |s|
    ensures i <= j <= |s| && (j < |s| ==> s[j] == 0)
    ensures forall x :: i <= x < j ==> s[x] != 0
    decreases |s| - i
  {
    if i == |s| || s[i] == 0 then i else EmptySlot(s, i + 1)
  }

  /** Inode a is a directory: all its blocks are directory blocks. */
  ghost predicate IsDirInode(fs: Fs, dirs: Dirs, a: nat) {
    Shaped(fs) && 1 <= a <= |fs.inodes| && InDirs(Slots(fs, a), dirs)
  }

  ghost predicate InDirs(s: seq<int>, dirs: Dirs) {
    forall j :: 0 <= j < |s| ==> s[j] == 0 || s[j] in dirs
  }

  lemma DirsUpdated(d: seq<Byte>, d': seq<Byte>, used: seq<bool>, dirs: Dirs, n: int, es: seq<Dirent>)
    requires DirsHold(d, used, dirs) && 1 <= n <= |used| && used[n - 1]
    requires OnlyBlock(d, d', BlockStart(n)) && IsDirBlock(d', BlockStart(n), es)
    ensures DirsHold(d', used, dirs[n := es])
  {
    var dirs' := dirs[n := es];
    forall m: int ensures DirHolds(d', used, dirs', m) {
      assert DirHolds(d, used, dirs, m);
      if m in dirs && m != n {
        HoldsDepends(d, d', BlockStart(m), BlockStart(m) + BLOCK_SIZE, dirs[m]);
      }
    }
  }

  ghost predicate ZeroBelow(s: seq<int>, i: nat) {
    forall j :: 0 <= j < i && j < |s| ==> s[j] == 0
  }

  function DirectBelow(i: nat): nat {
    if i < INDIRECT1_INDEX then i else INDIRECT1_INDEX
  }

  /** In the middle of free_inode: emptying the slots below i as well will lead to fs'. */
  ghost predicate Freeing(fs': Fs, fs: Fs, a: nat, i: nat, dirs: Dirs) {
    && Shaped(fs) && 1 <= a <= |fs.inodes| && SlotsInRange(fs, a)
    && NotDirs(Slots(fs, a), DirectBelow(i), dirs) && SlotsFreed(fs, a, DirectBelow(i)) == fs'
  }

  lemma FreeingStarts(fs: Fs, a: nat, dirs: Dirs)
    requires Shaped(fs) && 1 <= a <= |fs.inodes| && SlotsInRange(fs, a) && NotDirs(Slots(fs, a), INDIRECT1_INDEX, dirs)
    ensures Freeing(InodeFreed(fs, a), InodeMarked(fs, a, false), a, INODE_BLOCK_LIMIT, dirs)
  {
  }

  lemma FreeingStep(fs': Fs, fs: Fs, a: nat, i: nat, dirs: Dirs)
    requires Freeing(fs', fs, a, i + 1, dirs)
    ensures Freeing(fs', if i < INDIRECT1_INDEX then SlotFreed(fs, a, i) else fs, a, i, dirs)
    ensures i < INDIRECT1_INDEX ==> Slots(fs, a)[i] !in dirs
  {
  }

  /** The first n slots hold no directory blocks. */
  ghost predicate NotDirs(s: seq<int>, n: nat, dirs: Dirs) {
    forall j :: 0 <= j < n && j < |s| ==> s[j] !in dirs
  }

  /** The counter agrees with the bitmap, and no reserved block is free. */
  ghost predicate BlocksCounted(fs: Fs) {
    && Shaped(fs) && ReservedUsed(fs.blockUsed, LAST_RESERVED_BLOCK) && fs.freeBlocks.super == CountClear(fs.blockUsed)
  }

  /** In the middle of the scan: ret has been found, all blocks before blockNum are in use by now. */
  ghost predicate Scanning(used0: seq<bool>, used: seq<bool>, num: nat, ret: seq<int>, blockNum: int) {
    && LAST_RESERVED_BLOCK < blockNum && |ret| <= num && |used| == |used0| && ReservedUsed(used, LAST_RESERVED_BLOCK)
    && num - |ret| <= CountClear(used)
    && (forall i :: 0 <= i < blockNum - 1 && i < |used| ==> used[i])
    && (forall i :: 0 <= i < |ret| ==> ret[i] < blockNum)
    && FirstBlocks(used0, num) == ret + FirstBlocks(used, num - |ret|)
    && AllMarked(used0, FirstBlocks(used0, num)) == AllMarked(used, FirstBlocks(used, num - |ret|))
  }

  lemma ScanStarts(used0: seq<bool>, num: nat)
    requires ReservedUsed(used0, LAST_RESERVED_BLOCK) && num <= CountClear(used0)
    ensures Scanning(used0, used0, num, [], LAST_RESERVED_BLOCK + 1)
  {
    assert [] + FirstBlocks(used0, num) == FirstBlocks(used0, num);
  }

  lemma ScanDone(used0: seq<bool>, used: seq<bool>, num: nat, ret: seq<int>, blockNum: int)
    requires Scanning(used0, used, num, ret, blockNum) && |ret| == num
    ensures FirstBlocks(used0, num) == ret && used == AllMarked(used0, ret)
  {
    assert ret + [] == ret;
  }

  lemma ScanInRange(used0: seq<bool>, used: seq<bool>, num: nat, ret: seq<int>, blockNum: int)
    requires Scanning(used0, used, num, ret, blockNum) && |ret| < num && blockNum <= |used| + 1
    ensures blockNum <= |used|
  {
    SomeClear(used, blockNum - 1);
  }

  lemma Appended(ret: seq<int>, n: int, rest: seq<int>)
    ensures ret + ([n] + rest) == (ret + [n]) + rest
  {
  }

  lemma {:induction false} ScanTaken(used0: seq<bool>, used: seq<bool>, num: nat, ret: seq<int>, blockNum: int,
                                     used': seq<bool>, left: nat, rest: seq<int>)
    requires Scanning(used0, used, num, ret, blockNum) && |ret| < num && blockNum <= |used| && left == num - |ret| - 1
    requires used' == used[blockNum - 1 := true] && left <= CountClear(used')
             && ReservedUsed(used', LAST_RESERVED_BLOCK)
    requires FirstBlocks(used, left + 1) == [blockNum] + rest && FirstBlocks(used', left) == rest
    requires AllMarked(used, [blockNum] + rest) == AllMarked(used', rest)
    ensures Scanning(used0, used', num, ret + [blockNum], blockNum + 1)
  {
    Appended(ret, blockNum, rest);
  }

  lemma {:induction false} ScanStep(used0: seq<bool>, used: seq<bool>, num: nat, ret: seq<int>, blockNum: int)
    requires Scanning(used0, used, num, ret, blockNum) && |ret| < num && blockNum <= |used|
    ensures if used[blockNum - 1] then Scanning(used0, used, num, ret, blockNum + 1)
            else Scanning(used0, used[blockNum - 1 := true], num, ret + [blockNum], blockNum + 1)
  {
    if !used[blockNum - 1] {
      var left := num - |ret| - 1;
      var f, used' := FirstBlocksStep(used, left + 1);
      assert f == blockNum - 1;
      var rest := FirstBlocks(used', left);
      MarkFirst(used, f, rest);
      ScanTaken(used0, used, num, ret, blockNum, used', left, rest);
    }
  }
}
