/** Any chains of entries that fill blocks are the contents of some image: the bytes can be written. */
module ImageBytes {
  import opened Dirents
  import opened DirBlocks
  import opened Disks
  import opened BlockRuns

  /** The entries can be written one after the other, and fill a block. */
  ghost predicate Fills(es: seq<Dirent>) {
    && (forall k :: 0 <= k < |es| ==> Encodable(es[k]) && es[k].recLen >= HEADER + |es[k].name|)
    && Offset(es, 0, |es|) == BLOCK_SIZE
  }

  lemma EntryInBlock(es: seq<Dirent>, o: int, k: nat)
    requires Fills(es) && k < |es|
    ensures o <= Offset(es, o, k) && Offset(es, o, k) + es[k].recLen == Offset(es, o, k + 1) <= o + BLOCK_SIZE
  {
    OffsetGrows(es, o, 0, k);
    OffsetGrows(es, o, k + 1, |es|);
    OffsetShifted(es, o, |es|);
  }

  /** The first k entries are there. */
  ghost predicate WrittenTo(d: seq<Byte>, o: int, es: seq<Dirent>, k: nat) {
    && 0 <= o && o + BLOCK_SIZE <= |d| && k <= |es|
    && forall i {:trigger EntryThere(d, o, o + BLOCK_SIZE, es, i)} :: 0 <= i < k ==>
         EntryThere(d, o, o + BLOCK_SIZE, es, i)
  }

  lemma WrittenNext(d: seq<Byte>, d': seq<Byte>, o: int, es: seq<Dirent>, k: nat)
    requires Fills(es) && WrittenTo(d, o, es, k) && k < |es| && Offset(es, o, k) >= 0
             && Offset(es, o, k) + HEADER + |es[k].name| <= |d|
    requires d' == PutEntry(d, Offset(es, o, k), es[k])
    ensures WrittenTo(d', o, es, k + 1)
  {
    var end := o + BLOCK_SIZE;
    EntryInBlock(es, o, k);
    forall i | 0 <= i < k + 1 ensures EntryThere(d', o, end, es, i) {
      if i < k {
        assert EntryThere(d, o, end, es, i);
        OffsetGrows(es, o, i + 1, k);
        EntryDepends(d, d', Offset(es, o, i), end);
      }
    }
  }

  lemma {:induction false} ChainWritten(d: seq<Byte>, o: nat, es: seq<Dirent>, k: nat) returns (d': seq<Byte>)
    requires Fills(es) && o + BLOCK_SIZE <= |d| && k <= |es|
    ensures WrittenTo(d', o, es, k) && OnlyBlock(d, d', o)
    decreases k
  {
    d' := d;
    if k > 0 {
      var d1 := ChainWritten(d, o, es, k - 1);
      EntryInBlock(es, o, k - 1);
      d' := PutEntry(d1, Offset(es, o, k - 1), es[k - 1]);
      WrittenNext(d1, d', o, es, k - 1);
    }
  }

  lemma BlockWritten(d: seq<Byte>, n: nat, es: seq<Dirent>) returns (d': seq<Byte>)
    requires Fills(es) && BlockStart(n + 1) <= |d|
    ensures IsDirBlock(d', BlockStart(n), es) && OnlyBlock(d, d', BlockStart(n))
  {
    d' := ChainWritten(d, BlockStart(n), es, |es|);
    OffsetShifted(es, BlockStart(n), |es|);
  }

  /** Every block up to last holds what it should. */
  ghost predicate HoldUpTo(d: seq<Byte>, dirs: Dirs, last: int) {
    forall n: int {:trigger n in dirs} :: n in dirs && 0 <= n <= last ==> IsDirBlock(d, BlockStart(n), dirs[n])
  }

  lemma {:induction false} BlocksWritten(dirs: Dirs, blocks: nat, last: nat) returns (d: seq<Byte>)
    requires last <= blocks && forall n :: n in dirs ==> 1 <= n && Fills(dirs[n])
    ensures |d| == BlockStart(blocks + 1) && HoldUpTo(d, dirs, last)
    decreases last
  {
    if last == 0 {
      d := seq(BlockStart(blocks + 1), _ => 0);
    } else {
      d := BlocksWritten(dirs, blocks, last - 1);
      if last in dirs {
        var d1 := BlockWritten(d, last, dirs[last]);
        forall n: int | n in dirs && 0 <= n <= last ensures IsDirBlock(d1, BlockStart(n), dirs[n]) {
          if n < last {
            HoldsDepends(d, d1, BlockStart(n), BlockStart(n) + BLOCK_SIZE, dirs[n]);
          }
        }
        d := d1;
      }
    }
  }

  /** There are bytes for directory blocks with any entries that fill them. */
  lemma BytesExist(used: seq<bool>, dirs: Dirs) returns (d: seq<Byte>)
    requires forall n :: n in dirs ==> 1 <= n <= |used| && used[n - 1] && Fills(dirs[n])
    ensures |d| == BlockStart(|used| + 1) && DirsHold(d, used, dirs)
  {
    d := BlocksWritten(dirs, |used|, |used|);
    forall n: int ensures DirHolds(d, used, dirs, n) {
    }
  }
}
