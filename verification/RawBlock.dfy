/** make_entry_in_existing_block on the bytes of a block, whatever they are (a3/ext2_helper.h).

    The function does not know whether the block belongs to a directory.  It takes the bytes at the
    start of the block for a directory entry, and goes on from one to the next until it comes to one
    that seems to leave enough space, or to the end.  On the block of a directory this is the search
    along the chain of entries.
 */
module RawBlocks {
  import opened Dirents
  import opened DirBlocks

  /** The bytes at o are read as the header of an entry.  (They are bytes, so that the lengths are in range.) */
  predicate IsHeader(d: seq<Byte>, o: int) {
    0 <= o && o + HEADER <= |d| && 0 <= RecLenAt(d, o) < 0x1_0000 && 0 <= NameLenAt(d, o) <= BLOCK_SIZE
  }

  /** min_rec_len */
  function MinLenAt(d: seq<Byte>, o: int): (n: int)
    requires IsHeader(d, o)
    ensures HEADER < n < 0x1_0000
  {
    TotalEntryLength(NameLenAt(d, o))
  }

  /** The test on space_left, an unsigned short. */
  predicate SeemsToFit(d: seq<Byte>, o: int, needed: int)
    requires IsHeader(d, o)
  {
    (RecLenAt(d, o) - MinLenAt(d, o)) % 0x1_0000 >= needed
  }

  /** Where the search that stands at o finds space, or -1: the record length is 0, the space would begin beyond
      the end of the block, or the end is reached. */
  function Stop(d: seq<Byte>, o: int, end: int, needed: int): (r: int)
    ensures r == -1 || (o <= r < end && IsHeader(d, r) && SeemsToFit(d, r, needed) && r + MinLenAt(d, r) < end)
    decreases end - o
  {
    if o >= end || !IsHeader(d, o) || RecLenAt(d, o) == 0 then -1
    else if SeemsToFit(d, o, needed) then if o + MinLenAt(d, o) < end then o else -1
    else Stop(d, o + RecLenAt(d, o), end, needed)
  }

  /** Every header that the search comes to lies before end. */
  predicate Reads(d: seq<Byte>, o: int, end: int, needed: int)
    decreases end - o
  {
    o < end ==>
      && o + HEADER <= end && IsHeader(d, o)
      && (RecLenAt(d, o) != 0 && !SeemsToFit(d, o, needed) ==> Reads(d, o + RecLenAt(d, o), end, needed))
  }

  /** What is written where the search has stopped: the record length is an unsigned short. */
  function Taken(d: seq<Byte>, o: int, inode: int, name: Name, fileType: Byte): Dirent
    requires IsHeader(d, o)
  {
    Dirent(inode, (RecLenAt(d, o) - MinLenAt(d, o)) % 0x1_0000, name, fileType)
  }

  /** The space found is within memory, though it need not be within the block. */
  predicate InMemory(d: seq<Byte>, start: int, name: Name) {
    var o := Stop(d, start, start + BLOCK_SIZE, TotalEntryLength(|name|));
    o != -1 ==> 0 <= o && o + MinLenAt(d, o) + HEADER + |name| <= |d|
  }

  /** The bytes afterwards. */
  ghost function RawMade(d: seq<Byte>, start: int, inode: int, name: Name, fileType: Byte): (d': seq<Byte>)
    requires InMemory(d, start, name) && 0 <= inode < 0x1_0000_0000 && |name| <= NAME_LEN
    ensures |d'| == |d|
  {
    var o := Stop(d, start, start + BLOCK_SIZE, TotalEntryLength(|name|));
    if o == -1 then d else WithEntry(d, o, MinLenAt(d, o), Taken(d, o, inode, name, fileType))
  }

  // ---------------------------------------------------------------- in place

  method GetMinRecLen(disk: array<Byte>, o: int) returns (n: int)
    requires IsHeader(disk[..], o)
    ensures n == MinLenAt(disk[..], o)
  {
    n := TotalEntryLength(disk[o + 6]);
  }

  /** The entry at cur is cut off after its name, and the bytes from ret on become the new entry. */
  method PutAfter(disk: array<Byte>, cur: int, ret: int, inode: int, name: Name, fileType: Byte)
    requires IsHeader(disk[..], cur) && ret == cur + MinLenAt(disk[..], cur) && ret + HEADER + |name| <= disk.Length
    requires 0 <= inode < 0x1_0000_0000 && |name| <= NAME_LEN
    modifies disk
    ensures disk[..] == WithEntry(old(disk[..]), cur, MinLenAt(old(disk[..]), cur),
                                  Taken(old(disk[..]), cur, inode, name, fileType))
  {
    var oldRecLen := GetRecLen(disk, cur);
    SetRecLen(disk, cur, ret - cur);
    WriteEntry(disk, ret, inode, (oldRecLen - (ret - cur)) % 0x1_0000, name, fileType);
  }

  /** make_entry_in_existing_block: puts an entry after the first one that seems to leave enough space; -1 if
      there is none, or if that space begins beyond the end of the block. */
  method MakeEntryInExistingBlock(disk: array<Byte>, start: nat, inode: int, name: Name, fileType: Byte)
      returns (ret: int)
    requires Reads(disk[..], start, start + BLOCK_SIZE, TotalEntryLength(|name|)) && InMemory(disk[..], start, name)
    requires 0 <= inode < 0x1_0000_0000 && |name| <= NAME_LEN
    modifies disk
    ensures disk[..] == RawMade(old(disk[..]), start, inode, name, fileType)
    ensures ret == -1 <==> Stop(old(disk[..]), start, start + BLOCK_SIZE, TotalEntryLength(|name|)) == -1
  {
    var spaceNeeded := TotalEntryLength(|name|);
    var cur: int := start;
    var recLen := if cur - start < BLOCK_SIZE then Word(disk[cur + 4], disk[cur + 5]) else 0;
    while cur - start < BLOCK_SIZE && recLen > 0
      invariant start <= cur && disk[..] == old(disk[..]) && Reads(disk[..], cur, start + BLOCK_SIZE, spaceNeeded)
      invariant cur < start + BLOCK_SIZE ==> recLen == RecLenAt(disk[..], cur)
      invariant Stop(disk[..], cur, start + BLOCK_SIZE, spaceNeeded) ==
                Stop(disk[..], start, start + BLOCK_SIZE, spaceNeeded)
      decreases start + BLOCK_SIZE - cur
    {
      var curMinRecLen := GetMinRecLen(disk, cur);
      if (recLen - curMinRecLen) % 0x1_0000 >= spaceNeeded {
        ret := cur + curMinRecLen;
        if ret - start >= BLOCK_SIZE {
          return -1;
        }
        PutAfter(disk, cur, ret, inode, name, fileType);
        return;
      }
      cur := cur + recLen;
      recLen := if cur - start < BLOCK_SIZE then Word(disk[cur + 4], disk[cur + 5]) else 0;
    }
    return -1;
  }

  // ---------------------------------------------------------------- on the block of a directory

  lemma HeaderOf(d: seq<Byte>, start: nat, es: seq<Dirent>, k: nat)
    requires IsDirBlock(d, start, es) && k < |es|
    ensures var o := Offset(es, start, k);
            && start <= o && o + HEADER <= start + BLOCK_SIZE && IsHeader(d, o)
            && RecLenAt(d, o) == es[k].recLen > 0 && MinLenAt(d, o) == MinRecLen(es[k])
  {
    EntryBounds(d, start, start + BLOCK_SIZE, es, k);
  }

  /** There the search goes along the chain. */
  lemma {:induction false} StopOnChain(d: seq<Byte>, start: nat, es: seq<Dirent>, needed: int, k: nat)
    requires IsDirBlock(d, start, es) && 0 < needed && k <= FirstFit(es, needed)
    ensures Reads(d, Offset(es, start, k), start + BLOCK_SIZE, needed)
    ensures Stop(d, Offset(es, start, k), start + BLOCK_SIZE, needed) ==
            if Makes(es, needed) || Clobbers(es, needed) then Offset(es, start, FirstFit(es, needed)) else -1
    decreases |es| - k
  {
    OffsetInBlock(d, start, es, k);
    if k < |es| {
      HeaderOf(d, start, es, k);
      if k < FirstFit(es, needed) {
        assert !HasSlack(es[k], needed);
        StopOnChain(d, start, es, needed, k + 1);
      } else {
        StopHere(d, start, es, needed, k);
      }
    }
  }

  lemma StopHere(d: seq<Byte>, start: nat, es: seq<Dirent>, needed: int, k: nat)
    requires IsDirBlock(d, start, es) && 0 < needed && k == FirstFit(es, needed) < |es|
    ensures Reads(d, Offset(es, start, k), start + BLOCK_SIZE, needed)
    ensures Stop(d, Offset(es, start, k), start + BLOCK_SIZE, needed) ==
            if Makes(es, needed) || Clobbers(es, needed) then Offset(es, start, k) else -1
  {
    HeaderOf(d, start, es, k);
    FitBounds(d, start, es, k, needed);
  }

  lemma SqueezedIs(d: seq<Byte>, start: nat, es: seq<Dirent>, k: nat, o: int, inode: int, name: Name, fileType: Byte)
    requires IsDirBlock(d, start, es) && k < |es| && o == Offset(es, start, k)
    ensures IsHeader(d, o) && MinLenAt(d, o) == MinRecLen(es[k])
    ensures Taken(d, o, inode, name, fileType) == Squeezed(es[k], inode, name, fileType)
  {
    HeaderOf(d, start, es, k);
  }

  lemma {:induction false} MadeIs(d: seq<Byte>, start: nat, es: seq<Dirent>, inode: int, name: Name, fileType: Byte,
                                  k: nat, o: int)
    requires IsDirBlock(d, start, es) && WritesInside(|d|, start, es, name) && 0 <= inode < 0x1_0000_0000
             && |name| <= NAME_LEN
    requires Makes(es, TotalEntryLength(|name|)) || Clobbers(es, TotalEntryLength(|name|))
    requires k == FirstFit(es, TotalEntryLength(|name|)) && o == Offset(es, start, k)
    requires IsHeader(d, o) && MinLenAt(d, o) == MinRecLen(es[k])
    requires Taken(d, o, inode, name, fileType) == Squeezed(es[k], inode, name, fileType)
    ensures o + MinLenAt(d, o) + HEADER + |name| <= |d|
    ensures WithEntry(d, o, MinLenAt(d, o), Taken(d, o, inode, name, fileType)) ==
            MadeBytes(d, start, es, inode, name, fileType)
  {
    FitBounds(d, start, es, k, TotalEntryLength(|name|));
  }

  /** So on a directory's block the bytes become those that the chain says. */
  lemma {:induction false} RawIsMade(d: seq<Byte>, start: nat, es: seq<Dirent>, inode: int, name: Name, fileType: Byte)
    requires IsDirBlock(d, start, es) && 0 <= inode < 0x1_0000_0000 && |name| <= NAME_LEN
    requires InMemory(d, start, name)
    ensures WritesInside(|d|, start, es, name)
    ensures RawMade(d, start, inode, name, fileType) == MadeBytes(d, start, es, inode, name, fileType)
  {
    var needed := TotalEntryLength(|name|);
    var k := FirstFit(es, needed);
    StopOnChain(d, start, es, needed, 0);
    if Makes(es, needed) || Clobbers(es, needed) {
      SqueezedIs(d, start, es, k, Offset(es, start, k), inode, name, fileType);
      MadeIs(d, start, es, inode, name, fileType, k, Offset(es, start, k));
    }
  }

  /** Where the search does not stop at a short record, it stays within the block. */
  lemma {:induction false} MakesInMemory(d: seq<Byte>, start: nat, es: seq<Dirent>, name: Name)
    requires IsDirBlock(d, start, es) && !Clobbers(es, TotalEntryLength(|name|))
    ensures InMemory(d, start, name)
  {
    var needed := TotalEntryLength(|name|);
    var k := FirstFit(es, needed);
    StopOnChain(d, start, es, needed, 0);
    if Makes(es, needed) {
      HeaderOf(d, start, es, k);
      FitBounds(d, start, es, k, needed);
    }
  }

  // ---------------------------------------------------------------- what it depends on, and what it changes

  /** The search depends on the bytes of the block only. */
  lemma {:induction false} StopDepends(d: seq<Byte>, d': seq<Byte>, o: int, end: int, needed: int)
    requires Reads(d, o, end, needed) && 0 <= o && Agree(d, d', o, end)
    ensures Reads(d', o, end, needed) && Stop(d', o, end, needed) == Stop(d, o, end, needed)
    decreases end - o
  {
    if o < end && RecLenAt(d, o) != 0 && !SeemsToFit(d, o, needed) {
      StopDepends(d, d', o + RecLenAt(d, o), end, needed);
    }
  }

  /** The header at which it stops lies before the end. */
  lemma {:induction false} StopInside(d: seq<Byte>, o: int, end: int, needed: int)
    requires Reads(d, o, end, needed)
    ensures Stop(d, o, end, needed) != -1 ==> Stop(d, o, end, needed) + HEADER <= end
    decreases end - o
  {
    if o < end && RecLenAt(d, o) != 0 && !SeemsToFit(d, o, needed) {
      StopInside(d, o + RecLenAt(d, o), end, needed);
    }
  }

  /** Only bytes from the start of the block to where the new entry ends change. */
  lemma RawKept(d: seq<Byte>, start: int, inode: int, name: Name, fileType: Byte)
    requires InMemory(d, start, name) && 0 <= start && 0 <= inode < 0x1_0000_0000 && |name| <= NAME_LEN
    ensures var o, d' := Stop(d, start, start + BLOCK_SIZE, TotalEntryLength(|name|)),
                         RawMade(d, start, inode, name, fileType);
            if o == -1 then d' == d
            else Agree(d, d', 0, start) && Agree(d, d', o + MinLenAt(d, o) + HEADER + |name|, |d|)
  {
  }

  lemma RawUnmade(d: seq<Byte>, start: int, inode: int, name: Name, fileType: Byte)
    requires InMemory(d, start, name) && 0 <= inode < 0x1_0000_0000 && |name| <= NAME_LEN
    requires Stop(d, start, start + BLOCK_SIZE, TotalEntryLength(|name|)) == -1
    ensures RawMade(d, start, inode, name, fileType) == d
  {
  }
}
