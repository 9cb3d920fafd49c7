/** Directory records that are too short for the padding of total_entry_length, and what inserting a name
    does to a block that has one (a3/ext2_helper.h). */
module ShortRecords {
  // The format asks for a record length of 8 bytes and the name, rounded up to a multiple of 4.
  // total_entry_length pads a name whose length is a multiple of 4 by 4 bytes more.  For a record of
  // the shorter length the difference space_left is negative, and as an unsigned short very large.

  import opened Dirents
  import opened DirBlocks
  import opened DirMaps
  import opened BlockRuns

  lemma WithEntryAt(d: seq<Byte>, o: int, n: int, added: Dirent)
    requires HEADER <= n < 0x1_0000 && Encodable(added) && 0 <= o && o + n + HEADER + |added.name| <= |d|
    ensures var d' := WithEntry(d, o, n, added);
            RecLenAt(d', o) == n && RecLenAt(d', o + n) == added.recLen && Agree(d, d', 0, o)
  {
  }

  /** The length of what is written after a short record, as an unsigned short. */
  lemma Underflow(e: Dirent, inode: int, name: Name, fileType: Byte)
    requires IsShort(e) && e.recLen >= HEADER + |e.name|
    ensures Squeezed(e, inode, name, fileType).recLen >= 0x1_0000 - 4
  {
  }

  /** Where a record within the block is followed by one that runs out of it, the block does not hold a chain. */
  lemma {:induction false} RunsOut(d: seq<Byte>, d': seq<Byte>, start: nat, es: seq<Dirent>, k: nat, n: int,
                                   es': seq<Dirent>)
    requires IsDirBlock(d, start, es) && k <= |es| && Agree(d, d', start, Offset(es, start, k))
    requires 0 <= Offset(es, start, k) && 0 < n && Offset(es, start, k) + n < start + BLOCK_SIZE
    requires Offset(es, start, k) + n + HEADER <= |d'| && RecLenAt(d', Offset(es, start, k)) == n
    requires RecLenAt(d', Offset(es, start, k) + n) > BLOCK_SIZE
    ensures !IsDirBlock(d', start, es')
  {
    if IsDirBlock(d', start, es') {
      PrefixUnique(d, d', start, start + BLOCK_SIZE, es, es', k);
      OffsetPrefix(es, es', start, k);
      StandsAt(d', start, es', k, n);
      EntryBounds(d', start, start + BLOCK_SIZE, es', k + 1);
      assert false;
    }
  }

  /** So it is after an insertion that has written over a record. */
  lemma {:induction false} ClobberedIsNoBlock(d: seq<Byte>, start: nat, es: seq<Dirent>, inode: int, name: Name,
                                              fileType: Byte,
                                              es': seq<Dirent>)
    requires IsDirBlock(d, start, es) && WritesInside(|d|, start, es, name) && 0 <= inode < 0x1_0000_0000
             && |name| <= NAME_LEN
    requires Clobbers(es, TotalEntryLength(|name|))
    ensures !IsDirBlock(MadeBytes(d, start, es, inode, name, fileType), start, es')
  {
    var needed := TotalEntryLength(|name|);
    var k := FirstFit(es, needed);
    FitBounds(d, start, es, k, needed);
    EntryBounds(d, start, start + BLOCK_SIZE, es, k);
    Underflow(es[k], inode, name, fileType);
    WithEntryAt(d, Offset(es, start, k), MinRecLen(es[k]), Squeezed(es[k], inode, name, fileType));
    RunsOut(d, MadeBytes(d, start, es, inode, name, fileType), start, es, k, MinRecLen(es[k]), es');
  }

  /** If the record at entry k ends within the block, there is another one after it. */
  lemma StandsAt(d: seq<Byte>, start: nat, es: seq<Dirent>, k: nat, n: int)
    requires IsDirBlock(d, start, es) && k <= |es| && 0 < n && 0 <= Offset(es, start, k)
    requires Offset(es, start, k) + HEADER <= |d| && RecLenAt(d, Offset(es, start, k)) == n
             && Offset(es, start, k) + n < start + BLOCK_SIZE
    ensures k + 1 < |es| && Offset(es, start, k + 1) == Offset(es, start, k) + n
  {
    OffsetInBlock(d, start, es, k);
    EntryBounds(d, start, start + BLOCK_SIZE, es, k);
    OffsetInBlock(d, start, es, k + 1);
  }

  /** The block holds entries that mean the map m. */
  ghost predicate Means(d: seq<Byte>, start: nat, m: Bindings) {
    exists es :: IsDirBlock(d, start, es) && DistinctNames(es) && View(es) == m
  }

  /** Exactly when make_entry_in_existing_block does what it is for: the first record that seems to have
      space left must not be a short one. */
  lemma {:induction false} InsertionIsSound(d: seq<Byte>, start: nat, es: seq<Dirent>, inode: int, name: Name,
                                            fileType: Byte)
    requires IsDirBlock(d, start, es) && WritesInside(|d|, start, es, name) && 0 <= inode < 0x1_0000_0000
             && |name| <= NAME_LEN
    requires DistinctNames(es) && name != [] && name !in View(es)
    ensures Means(MadeBytes(d, start, es, inode, name, fileType), start, View(es)[name := Target(inode, fileType)])
            <==> Makes(es, TotalEntryLength(|name|))
  {
    var d', m' := MadeBytes(d, start, es, inode, name, fileType), View(es)[name := Target(inode, fileType)];
    var needed := TotalEntryLength(|name|);
    if Makes(es, needed) {
      BlockTiles(d, start, es);
      PlaceIsFound(es, needed);
      InsertIs(es, FirstFit(es, needed), inode, name, fileType);
      MadeBytesHold(d, start, es, inode, name, fileType);
    } else if Means(d', start, m') {
      var es' :| IsDirBlock(d', start, es') && DistinctNames(es') && View(es') == m';
      if Clobbers(es, needed) {
        ClobberedIsNoBlock(d, start, es, inode, name, fileType, es');
      } else {
        ChainUnique(d, start, start + BLOCK_SIZE, es, es');
      }
      assert false;
    }
  }

  // ---------------------------------------------------------------- an example

  /** Two records: "abcd" in 12 bytes, which is what the format asks for, and "e" in the rest. */
  function TwoRecords(): (es: seq<Dirent>)
    ensures |es| == 2
  {
    [Dirent(12, 12, [97, 98, 99, 100], EXT2_FT_REG_FILE), Dirent(13, BLOCK_SIZE - 12, [101], EXT2_FT_REG_FILE)]
  }

  lemma TwoRecordsBlock() returns (d: seq<Byte>)
    ensures |d| == BLOCK_SIZE && IsDirBlock(d, 0, TwoRecords())
  {
    var es, zeros := TwoRecords(), seq(BLOCK_SIZE, _ => 0);
    var d1 := PutEntry(zeros, 0, es[0]);
    d := PutEntry(d1, 12, es[1]);
    assert d[HEADER..HEADER + 4] == d1[HEADER..HEADER + 4];
    HoldsTwo(d, 0, BLOCK_SIZE, es[0], es[1]);
    assert es == [es[0], es[1]];
  }

  lemma TwoNames(es: seq<Dirent>)
    requires es == TwoRecords()
    ensures DistinctNames(es) && [102] !in View(es)
  {
    ViewLast([es[0]], [], es[0]);
    ViewLast(es, [es[0]], es[1]);
    assert es[0].name[0] != es[1].name[0] && [102][0] != es[0].name[0] && [102][0] != es[1].name[0];
  }

  lemma FirstIsShort(es: seq<Dirent>)
    requires es == TwoRecords()
    ensures FirstFit(es, TotalEntryLength(1)) == 0 && Clobbers(es, TotalEntryLength(1))
            && HasPlace(es, TotalEntryLength(1))
  {
    assert es[1].recLen >= MinRecLen(es[1]) + TotalEntryLength(1);
  }

  /** There is a block with these records, and room for ever so many names after the second; but inserting
      "f" writes over it. */
  lemma {:induction false} ShortRecordIsClobbered() returns (d: seq<Byte>)
    ensures IsDirBlock(d, 0, TwoRecords()) && WritesInside(|d|, 0, TwoRecords(), [102])
    ensures HasPlace(TwoRecords(), TotalEntryLength(1)) && Clobbers(TwoRecords(), TotalEntryLength(1))
    ensures !Means(MadeBytes(d, 0, TwoRecords(), 14, [102], EXT2_FT_REG_FILE), 0,
                   View(TwoRecords())[[102] := Target(14, EXT2_FT_REG_FILE)])
  {
    d := TwoRecordsBlock();
    FirstIsShort(TwoRecords());
    TwoNames(TwoRecords());
    assert Offset(TwoRecords(), 0, 0) == 0;
    InsertionIsSound(d, 0, TwoRecords(), 14, [102], EXT2_FT_REG_FILE);
  }
}
