/** Blocks and inodes of an ext2 image: who owns what, as values (a3/ext2_helper.h).

    Block and inode numbers start at 1; number n is bit n - 1 of its bitmap.  Only the direct block
    slots of an inode are used: i_block[12] is 0, so that reading a slot from 12 on gives 0 and
    writing one has no effect.

    The steps are functions from one state to the next.  What they keep is that every block has at
    most one owner, and that the bitmaps and all counters say which blocks and inodes are in use.
 */
module FileSystems {
  import opened Swaps

  const LAST_RESERVED_BLOCK := 22
  const LAST_RESERVED_INODE := 11
  const INDIRECT1_INDEX := 12
  const INODE_BLOCK_LIMIT := INDIRECT1_INDEX + 256

  /** i_mode says whether it is a directory; i_links_count; i_block[0..12]. */
  datatype Inode = Inode(isDir: bool, links: int, block: seq<int>)

  /** A count kept twice, in the superblock and in the group descriptor. */
  datatype Count = Count(super: int, group: int)

  datatype Fs = Fs(blockUsed: seq<bool>, inodeUsed: seq<bool>, inodes: seq<Inode>, freeBlocks: Count, freeInodes: Count)
  {
    predicate InUse(a: int) {
      1 <= a <= |inodeUsed| && inodeUsed[a - 1]
    }
  }

  function Increased(c: Count, d: int): Count {
    Count(c.super + d, c.group + d)
  }

  // ---------------------------------------------------------------- counting

  function CountClear(used: seq<bool>): nat {
    if used == [] then 0 else CountClear(used[..|used| - 1]) + if used[|used| - 1] then 0 else 1
  }

  lemma {:induction false} CountClearSet(used: seq<bool>, i: nat, b: bool)
    requires i < |used|
    ensures CountClear(used[i := b]) == CountClear(used) + (if used[i] then 1 else 0) - (if b then 1 else 0)
  {
    var used', n := used[i := b], |used| - 1;
    if i == n {
      assert used'[..n] == used[..n];
    } else {
      assert used'[..n] == used[..n][i := b];
      CountClearSet(used[..n], i, b);
    }
  }

  lemma {:induction false} NoneClear(used: seq<bool>)
    requires forall i :: 0 <= i < |used| ==> used[i]
    ensures CountClear(used) == 0
  {
    if used != [] {
      NoneClear(used[..|used| - 1]);
    }
  }

  /** If something is clear, and nothing before lo, a scan from lo finds it. */
  lemma SomeClear(used: seq<bool>, lo: nat)
    requires CountClear(used) > 0 && lo <= |used| && forall i :: 0 <= i < lo ==> used[i]
    ensures FirstFree(used, lo) < |used|
  {
    if FirstFree(used, lo) == |used| {
      NoneClear(used);
    }
  }

  // ---------------------------------------------------------------- several blocks at once

  /** The first num free blocks that are not reserved. */
  ghost function FirstBlocks(used: seq<bool>, num: nat): seq<int>
    requires LAST_RESERVED_BLOCK <= |used|
    decreases num
  {
    if num == 0 then []
    else
      var f := FirstFree(used, LAST_RESERVED_BLOCK);
      if f == |used| then [] else [f + 1] + FirstBlocks(used[f := true], num - 1)
  }

  /** The bits of all the given blocks are set. */
  ghost function AllMarked(used: seq<bool>, ns: seq<int>): (used': seq<bool>)
    ensures |used'| == |used|
    decreases |ns|
  {
    if ns == [] then used
    else AllMarked(if 1 <= ns[0] <= |used| then used[ns[0] - 1 := true] else used, ns[1..])
  }

  lemma {:induction false} AllMarkedAt(used: seq<bool>, ns: seq<int>, n: int)
    requires 1 <= n <= |used|
    ensures AllMarked(used, ns)[n - 1] == (used[n - 1] || n in ns)
    decreases |ns|
  {
    if ns != [] {
      AllMarkedAt(if 1 <= ns[0] <= |used| then used[ns[0] - 1 := true] else used, ns[1..], n);
    }
  }

  lemma MarkFirst(used: seq<bool>, f: nat, rest: seq<int>)
    requires f < |used|
    ensures AllMarked(used, [f + 1] + rest) == AllMarked(used[f := true], rest)
  {
    assert ([f + 1] + rest)[1..] == rest;
  }

  /** Free blocks beyond the reserved ones, in increasing order. */
  ghost predicate FreeAscending(used: seq<bool>, ns: seq<int>) {
    && (forall i :: 0 <= i < |ns| ==> LAST_RESERVED_BLOCK < ns[i] <= |used| && !used[ns[i] - 1])
    && (forall i, j :: 0 <= i < j < |ns| ==> ns[i] < ns[j])
  }

  lemma FreeAscendingCons(used: seq<bool>, f: nat, rest: seq<int>)
    requires LAST_RESERVED_BLOCK <= f < |used| && !used[f] && forall i :: LAST_RESERVED_BLOCK <= i < f ==> used[i]
    requires FreeAscending(used[f := true], rest)
    ensures FreeAscending(used, [f + 1] + rest)
  {
    var ns := [f + 1] + rest;
    forall i | 0 <= i < |rest| ensures f + 1 < rest[i] <= |used| && !used[rest[i] - 1] {
      assert !used[f := true][rest[i] - 1];
    }
    assert forall i :: 1 <= i < |ns| ==> ns[i] == rest[i - 1];
  }

  lemma {:induction false} FirstBlocksStep(used: seq<bool>, num: nat) returns (f: nat, used': seq<bool>)
    requires ReservedUsed(used, LAST_RESERVED_BLOCK) && 0 < num <= CountClear(used)
    ensures LAST_RESERVED_BLOCK <= f < |used| && !used[f] && forall i :: LAST_RESERVED_BLOCK <= i < f ==> used[i]
    ensures used' == used[f := true] && CountClear(used') == CountClear(used) - 1
            && ReservedUsed(used', LAST_RESERVED_BLOCK)
    ensures FirstBlocks(used, num) == [f + 1] + FirstBlocks(used', num - 1)
  {
    SomeClear(used, LAST_RESERVED_BLOCK);
    f := FirstFree(used, LAST_RESERVED_BLOCK);
    used' := used[f := true];
    CountClearSet(used, f, true);
  }

  /** Taking num blocks when that many are free: they are different blocks, formerly free, none of
      them reserved, and as many fewer are free afterwards. */
  lemma {:induction false} FirstBlocksAreFree(used: seq<bool>, num: nat)
    requires ReservedUsed(used, LAST_RESERVED_BLOCK) && num <= CountClear(used)
    ensures |FirstBlocks(used, num)| == num && FreeAscending(used, FirstBlocks(used, num))
    ensures CountClear(AllMarked(used, FirstBlocks(used, num))) == CountClear(used) - num
    decreases num
  {
    if num > 0 {
      var f, used' := FirstBlocksStep(used, num);
      var rest := FirstBlocks(used', num - 1);
      FirstBlocksAreFree(used', num - 1);
      MarkFirst(used, f, rest);
      FreeAscendingCons(used, f, rest);
    }
  }

  // ---------------------------------------------------------------- steps

  function NoBlocks(): (z: seq<int>)
    ensures |z| == INDIRECT1_INDEX && forall i :: 0 <= i < |z| ==> z[i] == 0
  {
    seq(INDIRECT1_INDEX, _ => 0)
  }

  predicate Shaped(fs: Fs) {
    && |fs.inodes| == |fs.inodeUsed|
    && LAST_RESERVED_BLOCK <= |fs.blockUsed| && LAST_RESERVED_INODE <= |fs.inodeUsed|
    && forall a {:trigger fs.inodes[a]} :: 0 <= a < |fs.inodes| ==> |fs.inodes[a].block| == INDIRECT1_INDEX
  }

  /** The direct slots of inode a. */
  function Slots(fs: Fs, a: nat): seq<int>
    requires Shaped(fs) && 1 <= a <= |fs.inodes|
  {
    fs.inodes[a - 1].block
  }

  /** get_inode_block_number */
  function BlockNumber(fs: Fs, a: nat, i: nat): int
    requires Shaped(fs) && 1 <= a <= |fs.inodes|
  {
    if i < INDIRECT1_INDEX then fs.inodes[a - 1].block[i] else 0
  }

  /** set_inode_block_number */
  function WithBlock(fs: Fs, a: nat, i: nat, n: int): (fs': Fs)
    requires Shaped(fs) && 1 <= a <= |fs.inodes|
    ensures Shaped(fs')
  {
    if i < INDIRECT1_INDEX then
      fs.(inodes := fs.inodes[a - 1 := fs.inodes[a - 1].(block := fs.inodes[a - 1].block[i := n])])
    else fs
  }

  function BlockMarked(fs: Fs, n: int, b: bool): (fs': Fs)
    requires Shaped(fs) && 1 <= n <= |fs.blockUsed|
    ensures Shaped(fs')
  {
    fs.(blockUsed := fs.blockUsed[n - 1 := b], freeBlocks := Increased(fs.freeBlocks, if b then -1 else 1))
  }

  /** The least free block that is not reserved. */
  function NextBlock(fs: Fs): nat
    requires Shaped(fs)
  {
    FirstFree(fs.blockUsed, LAST_RESERVED_BLOCK) + 1
  }

  /** allocate_block_on_inode on an empty slot: the next free block goes there. */
  function Attached(fs: Fs, a: nat, i: nat): (fs': Fs)
    requires Shaped(fs) && 1 <= a <= |fs.inodes| && NextBlock(fs) <= |fs.blockUsed|
    ensures Shaped(fs')
  {
    WithBlock(BlockMarked(fs, NextBlock(fs), true), a, i, NextBlock(fs))
  }

  /** The block in a slot is freed and the slot emptied. */
  function Detached(fs: Fs, a: nat, i: nat): (fs': Fs)
    requires Shaped(fs) && 1 <= a <= |fs.inodes| && i < INDIRECT1_INDEX && 1 <= BlockNumber(fs, a, i) <= |fs.blockUsed|
    ensures Shaped(fs')
  {
    WithBlock(BlockMarked(fs, BlockNumber(fs, a, i), false), a, i, 0)
  }

  function InodeMarked(fs: Fs, a: nat, b: bool): (fs': Fs)
    requires Shaped(fs) && 1 <= a <= |fs.inodes|
    ensures Shaped(fs')
  {
    fs.(inodeUsed := fs.inodeUsed[a - 1 := b], freeInodes := Increased(fs.freeInodes, if b then -1 else 1))
  }

  function WithSlots(fs: Fs, a: nat, s: seq<int>): (fs': Fs)
    requires Shaped(fs) && 1 <= a <= |fs.inodes| && |s| == INDIRECT1_INDEX
    ensures Shaped(fs')
  {
    fs.(inodes := fs.inodes[a - 1 := fs.inodes[a - 1].(block := s)])
  }

  function NextInode(fs: Fs): nat
    requires Shaped(fs)
  {
    FirstFree(fs.inodeUsed, LAST_RESERVED_INODE) + 1
  }

  /** allocate_inode, and what its callers put into the inode. */
  function InodeTaken(fs: Fs, isDir: bool, links: int): (fs': Fs)
    requires Shaped(fs) && NextInode(fs) <= |fs.inodes|
    ensures Shaped(fs')
  {
    var a := NextInode(fs);
    InodeMarked(fs, a, true).(inodes := fs.inodes[a - 1 := Inode(isDir, links, NoBlocks())])
  }

  predicate SlotsInRange(fs: Fs, a: nat)
    requires Shaped(fs) && 1 <= a <= |fs.inodes|
  {
    AtMost(Slots(fs, a), |fs.blockUsed|)
  }

  predicate AtMost(s: seq<int>, n: nat) {
    forall j :: 0 <= j < |s| ==> 0 <= s[j] <= n
  }

  /** Slot i is emptied, if it is not empty already. */
  function SlotFreed(fs: Fs, a: nat, i: nat): (fs': Fs)
    requires Shaped(fs) && 1 <= a <= |fs.inodes| && i < INDIRECT1_INDEX && SlotsInRange(fs, a)
    ensures Shaped(fs') && |fs'.blockUsed| == |fs.blockUsed| && |fs'.inodes| == |fs.inodes| && SlotsInRange(fs', a)
    ensures fs'.inodes == fs.inodes[a - 1 := fs.inodes[a - 1].(block := fs.inodes[a - 1].block[i := 0])]
  {
    if BlockNumber(fs, a, i) == 0 then
      assert fs.inodes[a - 1].block[i := 0] == fs.inodes[a - 1].block;
      fs
    else Detached(fs, a, i)
  }

  /** The slots of inode a from i - 1 down to 0 are emptied and their blocks freed. */
  function SlotsFreed(fs: Fs, a: nat, i: nat): (fs': Fs)
    requires Shaped(fs) && 1 <= a <= |fs.inodes| && i <= INDIRECT1_INDEX && SlotsInRange(fs, a)
    ensures Shaped(fs') && |fs'.blockUsed| == |fs.blockUsed| && |fs'.inodes| == |fs.inodes|
    decreases i
  {
    if i == 0 then fs else SlotsFreed(SlotFreed(fs, a, i - 1), a, i - 1)
  }

  /** free_inode */
  function InodeFreed(fs: Fs, a: nat): (fs': Fs)
    requires Shaped(fs) && 1 <= a <= |fs.inodes| && SlotsInRange(fs, a)
    ensures Shaped(fs')
  {
    SlotsFreed(InodeMarked(fs, a, false), a, |Slots(fs, a)|)
  }

  // ---------------------------------------------------------------- consistency

  /** owner maps each block that is in some slot of an inode in use to that inode and slot. */
  type Owners = map<int, (nat, nat)>

  /** Slot i of inode a is empty, or a owns the block in it. */
  ghost predicate SlotOk(fs: Fs, owner: Owners, a: nat, i: nat)
    requires Shaped(fs) && 1 <= a <= |fs.inodes|
  {
    fs.InUse(a) && BlockNumber(fs, a, i) != 0 ==>
      BlockNumber(fs, a, i) in owner && owner[BlockNumber(fs, a, i)] == (a, i)
  }

  /** Block n, if owned, is in the slot of an inode in use that it is said to be in. */
  ghost predicate OwnerOk(fs: Fs, owner: Owners, n: int)
    requires Shaped(fs)
  {
    n in owner ==>
      && 1 <= n <= |fs.blockUsed| && fs.InUse(owner[n].0) && owner[n].1 < INDIRECT1_INDEX
      && BlockNumber(fs, owner[n].0, owner[n].1) == n
  }

  /** The bit of block n is set exactly when the block is reserved or owned. */
  ghost predicate BitOk(fs: Fs, owner: Owners, n: int)
    requires 1 <= n <= |fs.blockUsed|
  {
    fs.blockUsed[n - 1] == (n <= LAST_RESERVED_BLOCK || n in owner)
  }

  ghost predicate Owned(fs: Fs, owner: Owners) {
    && Shaped(fs)
    && (forall a, i {:trigger SlotOk(fs, owner, a, i)} :: 1 <= a <= |fs.inodes| && 0 <= i < INDIRECT1_INDEX ==>
        SlotOk(fs, owner, a, i))
    && (forall n: int {:trigger OwnerOk(fs, owner, n)} :: OwnerOk(fs, owner, n))
    && (forall n {:trigger BitOk(fs, owner, n)} :: 1 <= n <= |fs.blockUsed| ==> BitOk(fs, owner, n))
  }

  ghost predicate ReservedUsed(used: seq<bool>, reserved: nat) {
    reserved <= |used| && forall i :: 0 <= i < reserved ==> used[i]
  }

  /** Every block has at most one owner, its bit says whether it has one, and all counters
      agree with the bitmaps. */
  ghost predicate Consistent(fs: Fs, owner: Owners) {
    && Owned(fs, owner)
    && ReservedUsed(fs.inodeUsed, LAST_RESERVED_INODE)
    && fs.freeBlocks.super == fs.freeBlocks.group == CountClear(fs.blockUsed)
    && fs.freeInodes.super == fs.freeInodes.group == CountClear(fs.inodeUsed)
  }

  /** No two slots hold the same block. */
  lemma OneOwner(fs: Fs, owner: Owners, a: nat, i: nat, a': nat, i': nat)
    requires Consistent(fs, owner) && fs.InUse(a) && fs.InUse(a') && i < INDIRECT1_INDEX && i' < INDIRECT1_INDEX
    requires BlockNumber(fs, a, i) == BlockNumber(fs, a', i') != 0
    ensures a == a' && i == i'
  {
    assert SlotOk(fs, owner, a, i) && SlotOk(fs, owner, a', i');
  }

  lemma ReservedBlocksUsed(fs: Fs, owner: Owners)
    requires Owned(fs, owner)
    ensures ReservedUsed(fs.blockUsed, LAST_RESERVED_BLOCK)
  {
    forall i | 0 <= i < LAST_RESERVED_BLOCK ensures fs.blockUsed[i] {
      assert BitOk(fs, owner, i + 1);
    }
  }

  /** While the counter says so there is a free block, beyond the reserved ones. */
  lemma BlockAvailable(fs: Fs, owner: Owners)
    requires Consistent(fs, owner) && fs.freeBlocks.super > 0
    ensures LAST_RESERVED_BLOCK < NextBlock(fs) <= |fs.blockUsed| && !fs.blockUsed[NextBlock(fs) - 1]
            && NextBlock(fs) !in owner
  {
    ReservedBlocksUsed(fs, owner);
    SomeClear(fs.blockUsed, LAST_RESERVED_BLOCK);
    assert BitOk(fs, owner, NextBlock(fs));
  }

  lemma InodeAvailable(fs: Fs, owner: Owners)
    requires Consistent(fs, owner) && fs.freeInodes.super > 0
    ensures LAST_RESERVED_INODE < NextInode(fs) <= |fs.inodes| && !fs.InUse(NextInode(fs))
  {
    SomeClear(fs.inodeUsed, LAST_RESERVED_INODE);
  }

  /** Putting a free block into an empty direct slot keeps the image consistent. */
  lemma {:induction false} AttachedConsistent(fs: Fs, owner: Owners, a: nat, i: nat)
    requires Consistent(fs, owner) && fs.InUse(a) && i < INDIRECT1_INDEX && BlockNumber(fs, a, i) == 0
    requires fs.freeBlocks.super > 0
    ensures NextBlock(fs) <= |fs.blockUsed| && Consistent(Attached(fs, a, i), owner[NextBlock(fs) := (a, i)])
  {
    BlockAvailable(fs, owner);
    var n := NextBlock(fs);
    var fs', owner' := Attached(fs, a, i), owner[n := (a, i)];
    forall b, j | 1 <= b <= |fs.inodes| && 0 <= j < INDIRECT1_INDEX ensures SlotOk(fs', owner', b, j) {
      assert SlotOk(fs, owner, b, j);
    }
    forall m: int ensures OwnerOk(fs', owner', m) {
      assert OwnerOk(fs, owner, m);
    }
    forall m | 1 <= m <= |fs.blockUsed| ensures BitOk(fs', owner', m) {
      assert BitOk(fs, owner, m);
    }
    CountClearSet(fs.blockUsed, n - 1, true);
  }

  /** Emptying a slot keeps the image consistent if its block is not a reserved one. */
  lemma {:induction false} DetachedConsistent(fs: Fs, owner: Owners, a: nat, i: nat)
    requires Consistent(fs, owner) && fs.InUse(a) && i < INDIRECT1_INDEX && BlockNumber(fs, a, i) > LAST_RESERVED_BLOCK
    ensures BlockNumber(fs, a, i) <= |fs.blockUsed| && Consistent(Detached(fs, a, i), owner - {BlockNumber(fs, a, i)})
  {
    var n := BlockNumber(fs, a, i);
    assert SlotOk(fs, owner, a, i) && OwnerOk(fs, owner, n) && BitOk(fs, owner, n);
    var fs', owner' := Detached(fs, a, i), owner - {n};
    forall b, j | 1 <= b <= |fs.inodes| && 0 <= j < INDIRECT1_INDEX ensures SlotOk(fs', owner', b, j) {
      assert SlotOk(fs, owner, b, j);
    }
    forall m: int ensures OwnerOk(fs', owner', m) {
      assert OwnerOk(fs, owner, m);
    }
    forall m | 1 <= m <= |fs.blockUsed| ensures BitOk(fs', owner', m) {
      assert BitOk(fs, owner, m);
    }
    CountClearSet(fs.blockUsed, n - 1, false);
  }

  /** A new inode owns nothing. */
  lemma {:induction false} InodeTakenConsistent(fs: Fs, owner: Owners, isDir: bool, links: int)
    requires Consistent(fs, owner) && fs.freeInodes.super > 0
    ensures NextInode(fs) <= |fs.inodes| && Consistent(InodeTaken(fs, isDir, links), owner)
  {
    InodeAvailable(fs, owner);
    var a, fs' := NextInode(fs), InodeTaken(fs, isDir, links);
    forall b, j | 1 <= b <= |fs.inodes| && 0 <= j < INDIRECT1_INDEX ensures SlotOk(fs', owner, b, j) {
      assert SlotOk(fs, owner, b, j);
    }
    forall m: int ensures OwnerOk(fs', owner, m) {
      assert OwnerOk(fs, owner, m);
    }
    forall m | 1 <= m <= |fs.blockUsed| ensures BitOk(fs', owner, m) {
      assert BitOk(fs, owner, m);
    }
    CountClearSet(fs.inodeUsed, a - 1, true);
  }

  /** The blocks in the first i slots. */
  ghost function BlocksIn(s: seq<int>, i: nat): set<int>
    requires i <= |s|
  {
    if i == 0 then {} else BlocksIn(s, i - 1) + if s[i - 1] == 0 then {} else {s[i - 1]}
  }

  lemma {:induction false} BlocksInSame(s: seq<int>, s': seq<int>, i: nat)
    requires i <= |s| && i <= |s'| && s[..i] == s'[..i]
    ensures BlocksIn(s, i) == BlocksIn(s', i)
  {
    if i > 0 {
      assert s[i - 1] == s[..i][i - 1] && s'[i - 1] == s'[..i][i - 1];
      assert s[..i - 1] == s[..i][..i - 1] && s'[..i - 1] == s'[..i][..i - 1];
      BlocksInSame(s, s', i - 1);
    }
  }

  /** Inode a owns no reserved block. */
  ghost predicate OwnsUnreserved(fs: Fs, a: nat)
    requires Shaped(fs) && 1 <= a <= |fs.inodes|
  {
    Unreserved(Slots(fs, a))
  }

  ghost predicate Unreserved(s: seq<int>) {
    forall j :: 0 <= j < |s| ==> s[j] == 0 || s[j] > LAST_RESERVED_BLOCK
  }

  /** The first i slots are empty, and the others as they were. */
  ghost predicate EmptiedBelow(s: seq<int>, s': seq<int>, i: nat) {
    && |s'| == |s|
    && (forall j :: 0 <= j < i && j < |s| ==> s'[j] == 0)
    && (forall j :: i <= j < |s| ==> s'[j] == s[j])
  }

  lemma SlotsAreInRange(fs: Fs, owner: Owners, a: nat)
    requires Owned(fs, owner) && fs.InUse(a) && a <= |fs.inodes|
    ensures SlotsInRange(fs, a)
  {
    forall j | 0 <= j < INDIRECT1_INDEX ensures 0 <= Slots(fs, a)[j] <= |fs.blockUsed| {
      assert SlotOk(fs, owner, a, j) && OwnerOk(fs, owner, BlockNumber(fs, a, j));
    }
  }

  lemma {:induction false} SlotFreedConsistent(fs: Fs, owner: Owners, a: nat, i: nat)
    requires Consistent(fs, owner) && fs.InUse(a) && i < INDIRECT1_INDEX && OwnsUnreserved(fs, a) && SlotsInRange(fs, a)
    ensures var fs' := SlotFreed(fs, a, i);
            && Consistent(fs', if Slots(fs, a)[i] == 0 then owner else owner - {Slots(fs, a)[i]})
            && fs'.inodeUsed == fs.inodeUsed && Slots(fs', a) == Slots(fs, a)[i := 0] && OwnsUnreserved(fs', a)
  {
    if Slots(fs, a)[i] != 0 {
      DetachedConsistent(fs, owner, a, i);
    }
  }

  lemma {:induction false} SlotsFreedEmpty(fs: Fs, a: nat, i: nat)
    requires Shaped(fs) && 1 <= a <= |fs.inodes| && i <= INDIRECT1_INDEX && SlotsInRange(fs, a)
    ensures SlotsFreed(fs, a, i).inodeUsed == fs.inodeUsed
    ensures EmptiedBelow(Slots(fs, a), Slots(SlotsFreed(fs, a, i), a), i)
    decreases i
  {
    if i > 0 {
      SlotsFreedEmpty(SlotFreed(fs, a, i - 1), a, i - 1);
    }
  }

  lemma BlocksInLast(s: seq<int>, i: nat, owner: Owners, owner1: Owners)
    requires 0 < i <= |s| && owner1 == if s[i - 1] == 0 then owner else owner - {s[i - 1]}
    ensures owner - BlocksIn(s, i) == owner1 - BlocksIn(s[i - 1 := 0], i - 1)
  {
    BlocksInSame(s, s[i - 1 := 0], i - 1);
  }

  /** Emptying the slots of an inode one by one gives back exactly its blocks. */
  lemma {:induction false} SlotsFreedConsistent(fs: Fs, owner: Owners, a: nat, i: nat)
    requires Consistent(fs, owner) && fs.InUse(a) && i <= INDIRECT1_INDEX && OwnsUnreserved(fs, a)
    ensures SlotsInRange(fs, a) && Consistent(SlotsFreed(fs, a, i), owner - BlocksIn(Slots(fs, a), i))
    decreases i
  {
    SlotsAreInRange(fs, owner, a);
    if i == 0 {
      assert owner - {} == owner;
    } else {
      var n := Slots(fs, a)[i - 1];
      var fs1, owner1 := SlotFreed(fs, a, i - 1), if n == 0 then owner else owner - {n};
      SlotFreedConsistent(fs, owner, a, i - 1);
      SlotsFreedConsistent(fs1, owner1, a, i - 1);
      BlocksInLast(Slots(fs, a), i, owner, owner1);
      assert SlotsFreed(fs, a, i) == SlotsFreed(fs1, a, i - 1) && Slots(fs1, a) == Slots(fs, a)[i - 1 := 0];
    }
  }

  /** An inode without blocks can be marked free. */
  lemma {:induction false} InodeMarkedConsistent(fs: Fs, owner: Owners, a: nat)
    requires Consistent(fs, owner) && fs.InUse(a) && a > LAST_RESERVED_INODE
    requires EmptiedBelow(Slots(fs, a), Slots(fs, a), INDIRECT1_INDEX)
    ensures Consistent(InodeMarked(fs, a, false), owner)
  {
    var fs' := InodeMarked(fs, a, false);
    assert forall j :: 0 <= j < INDIRECT1_INDEX ==> BlockNumber(fs, a, j) == 0;
    forall b, j | 1 <= b <= |fs.inodes| && 0 <= j < INDIRECT1_INDEX ensures SlotOk(fs', owner, b, j) {
      assert SlotOk(fs, owner, b, j);
    }
    forall m: int ensures OwnerOk(fs', owner, m) {
      assert OwnerOk(fs, owner, m);
    }
    forall m | 1 <= m <= |fs.blockUsed| ensures BitOk(fs', owner, m) {
      assert BitOk(fs, owner, m);
    }
    CountClearSet(fs.inodeUsed, a - 1, false);
  }

  /** free_inode gives back the inode and its blocks, and the image stays consistent. */
  lemma {:induction false} InodeFreedConsistent(fs: Fs, owner: Owners, a: nat)
    requires Consistent(fs, owner) && fs.InUse(a) && a > LAST_RESERVED_INODE && OwnsUnreserved(fs, a)
    ensures SlotsInRange(fs, a) && Consistent(InodeFreed(fs, a), owner - BlocksIn(Slots(fs, a), INDIRECT1_INDEX))
    ensures !InodeFreed(fs, a).InUse(a)
  {
    SlotsFreedConsistent(fs, owner, a, |Slots(fs, a)|);
    SlotsFreedEmpty(fs, a, |Slots(fs, a)|);
    MarkLater(fs, a, |Slots(fs, a)|);
    InodeMarkedConsistent(SlotsFreed(fs, a, |Slots(fs, a)|), owner - BlocksIn(Slots(fs, a), |Slots(fs, a)|), a);
  }

  /** The inode can as well be marked free after its slots have been emptied. */
  lemma {:induction false} MarkLater(fs: Fs, a: nat, i: nat)
    requires Shaped(fs) && 1 <= a <= |fs.inodes| && i <= INDIRECT1_INDEX && SlotsInRange(fs, a)
    ensures SlotsFreed(InodeMarked(fs, a, false), a, i) == InodeMarked(SlotsFreed(fs, a, i), a, false)
    decreases i
  {
    if i > 0 {
      assert SlotFreed(InodeMarked(fs, a, false), a, i - 1) == InodeMarked(SlotFreed(fs, a, i - 1), a, false);
      MarkLater(SlotFreed(fs, a, i - 1), a, i - 1);
    }
  }

  // ---------------------------------------------------------------- where the code does not keep it

  /** Emptying a slot that holds a reserved block leaves an image that no ownership makes consistent,
      so DetachedConsistent holds for the other blocks only. */
  lemma ReservedDetached(fs: Fs, owner: Owners, a: nat, i: nat, owner': Owners)
    requires Consistent(fs, owner) && fs.InUse(a) && i < INDIRECT1_INDEX
             && 1 <= BlockNumber(fs, a, i) <= LAST_RESERVED_BLOCK
    ensures !Consistent(Detached(fs, a, i), owner')
  {
    assert Consistent(Detached(fs, a, i), owner') ==> BitOk(Detached(fs, a, i), owner', BlockNumber(fs, a, i));
  }

  lemma NotInSlot(fs: Fs, owner: Owners, a: nat, i: nat, n: int)
    requires Owned(fs, owner) && fs.InUse(a) && a <= |fs.inodes| && n !in owner && n != 0
    ensures BlockNumber(fs, a, i) != n
  {
    assert i < INDIRECT1_INDEX ==> SlotOk(fs, owner, a, i);
  }

  /** A block allocated for a slot that is not a direct one belongs to nobody. */
  lemma IndirectLost(fs: Fs, owner: Owners, a: nat, i: nat, owner': Owners)
    requires Consistent(fs, owner) && fs.InUse(a) && i >= INDIRECT1_INDEX && fs.freeBlocks.super > 0
    ensures NextBlock(fs) <= |fs.blockUsed| && !Consistent(Attached(fs, a, i), owner')
  {
    BlockAvailable(fs, owner);
    var fs', n := Attached(fs, a, i), NextBlock(fs);
    if Consistent(fs', owner') {
      assert BitOk(fs', owner', n) && OwnerOk(fs', owner', n);
      NotInSlot(fs, owner, owner'[n].0, owner'[n].1, n);
    }
  }
}
