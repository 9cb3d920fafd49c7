/** Directory entries as bytes: the linked-list directory format of ext2 (a3/ext2.h, a3/ext2_helper.h).

    A directory block is a chain of entries.  Each starts with its inode number (4 bytes), its
    record length (2), the length of its name (1) and its file type (1); the name follows.  The
    next entry starts rec_len bytes further, and the last one ends where the block ends.

    A chain is told by its bytes, and a change of some of them changes the entries there only.
 */
module Dirents {
  /** The contents of an unsigned char.  (That they are below 256 matters only for what is written.) */
  type Byte = int
  type Name = seq<Byte>

  const BLOCK_SIZE := 1024
  const HEADER := 8
  const NAME_LEN := 255

  const EXT2_FT_REG_FILE := 1
  const EXT2_FT_DIR := 2
  const EXT2_FT_SYMLINK := 7

  datatype Dirent = Dirent(inode: int, recLen: nat, name: Name, fileType: Byte)

  /** total_entry_length: room for the header and the name, padded by 1 to 4 bytes. */
  function TotalEntryLength(nameLen: int): (total: int)
    ensures HEADER + nameLen < total <= HEADER + nameLen + 4 && total % 4 == 0
  {
    var raw := HEADER + nameLen;
    raw + (4 - raw % 4)
  }

  function MinRecLen(e: Dirent): int {
    TotalEntryLength(|e.name|)
  }

  // ---------------------------------------------------------------- fields

  /** Two bytes, the lower one first. */
  function Word(lo: int, hi: int): int {
    lo + 0x100 * hi
  }

  function InodeAt(d: seq<Byte>, o: int): int
    requires 0 <= o && o + HEADER <= |d|
  {
    Word(d[o], d[o + 1]) + 0x1_0000 * Word(d[o + 2], d[o + 3])
  }

  function RecLenAt(d: seq<Byte>, o: int): int
    requires 0 <= o && o + HEADER <= |d|
  {
    Word(d[o + 4], d[o + 5])
  }

  function NameLenAt(d: seq<Byte>, o: int): int
    requires 0 <= o && o + HEADER <= |d|
  {
    d[o + 6]
  }

  function EntryAt(d: seq<Byte>, o: int): Dirent
    requires 0 <= o && o + HEADER <= |d| && 0 <= RecLenAt(d, o)
    requires 0 <= NameLenAt(d, o) && o + HEADER + NameLenAt(d, o) <= |d|
  {
    Dirent(InodeAt(d, o), RecLenAt(d, o), d[o + HEADER..o + HEADER + NameLenAt(d, o)], d[o + 7])
  }

  // ---------------------------------------------------------------- chains

  /** The entry at o has room for its name, and ends no later than end. */
  predicate EntryFits(d: seq<Byte>, o: int, end: int)
    requires end <= |d|
  {
    && 0 <= o && o + HEADER <= end && 0 <= NameLenAt(d, o)
    && RecLenAt(d, o) >= HEADER + NameLenAt(d, o)
    && o + RecLenAt(d, o) <= end
  }

  /** Where entry number k starts, in a chain of entries that starts at o. */
  ghost function Offset(es: seq<Dirent>, o: int, k: nat): int
    requires k <= |es|
  {
    if k == 0 then o else Offset(es, o, k - 1) + es[k - 1].recLen
  }

  /** Entry number k is where it should be. */
  ghost predicate EntryThere(d: seq<Byte>, o: int, end: int, es: seq<Dirent>, k: nat)
    requires end <= |d| && k < |es|
  {
    var p := Offset(es, o, k);
    EntryFits(d, p, end) && EntryAt(d, p) == es[k]
  }

  /** The bytes from o to end are the given entries, one after the other. */
  ghost predicate Holds(d: seq<Byte>, o: int, end: int, es: seq<Dirent>) {
    && end <= |d|
    && (forall k {:trigger EntryThere(d, o, end, es, k)} :: 0 <= k < |es| ==> EntryThere(d, o, end, es, k))
    && Offset(es, o, |es|) == end
  }

  lemma {:induction false} OffsetPrefix(es: seq<Dirent>, es': seq<Dirent>, o: int, k: nat)
    requires k <= |es| && k <= |es'| && es[..k] == es'[..k]
    ensures Offset(es, o, k) == Offset(es', o, k)
  {
    if k > 0 {
      assert es[k - 1] == es[..k][k - 1] && es'[k - 1] == es'[..k][k - 1];
      assert es[..k - 1] == es[..k][..k - 1] && es'[..k - 1] == es'[..k][..k - 1];
      OffsetPrefix(es, es', o, k - 1);
    }
  }

  /** Equal stretches of entries are equally long. */
  lemma {:induction false} OffsetSuffix(es: seq<Dirent>, es': seq<Dirent>, o: int, i: nat, i': nat, n: nat)
    requires i + n <= |es| && i' + n <= |es'| && Offset(es, o, i) == Offset(es', o, i')
    requires es[i..i + n] == es'[i'..i' + n]
    ensures Offset(es, o, i + n) == Offset(es', o, i' + n)
  {
    if n > 0 {
      var m := n - 1;
      assert es[i..i + n][m] == es[i + m] && es'[i'..i' + n][m] == es'[i' + m];
      assert es[i..i + m] == es[i..i + n][..m] && es'[i'..i' + m] == es'[i'..i' + n][..m];
      OffsetSuffix(es, es', o, i, i', m);
    }
  }

  lemma {:induction false} OffsetGrows(es: seq<Dirent>, o: int, i: nat, k: nat)
    requires i <= k <= |es|
    ensures Offset(es, o, i) <= Offset(es, o, k)
    ensures i < k ==> Offset(es, o, i) + es[i].recLen <= Offset(es, o, k)
  {
    if i < k {
      OffsetGrows(es, o, i, k - 1);
    }
  }

  /** Entries have positive lengths, and lie between o and end. */
  lemma EntryBounds(d: seq<Byte>, o: int, end: int, es: seq<Dirent>, k: nat)
    requires Holds(d, o, end, es) && k < |es|
    ensures var p := Offset(es, o, k);
            && o <= p && EntryFits(d, p, end) && EntryAt(d, p) == es[k] && RecLenAt(d, p) == es[k].recLen
            && es[k].recLen >= HEADER + |es[k].name|
            && p + es[k].recLen == Offset(es, o, k + 1) <= end
  {
    assert EntryThere(d, o, end, es, k);
    OffsetGrows(es, o, 0, k);
    OffsetGrows(es, o, k + 1, |es|);
  }

  // ---------------------------------------------------------------- what the bytes matter for

  /** d and d' agree from lo to hi. */
  ghost predicate Agree(d: seq<Byte>, d': seq<Byte>, lo: int, hi: int) {
    |d| == |d'| && forall x :: 0 <= x < |d| && lo <= x < hi ==> d[x] == d'[x]
  }

  /** An entry depends on its own bytes only. */
  lemma EntryDepends(d: seq<Byte>, d': seq<Byte>, o: int, end: int)
    requires end <= |d| && EntryFits(d, o, end) && Agree(d, d', o, o + RecLenAt(d, o))
    ensures EntryFits(d', o, end) && EntryAt(d', o) == EntryAt(d, o) && RecLenAt(d', o) == RecLenAt(d, o)
  {
    var n := NameLenAt(d, o);
    assert forall x :: o <= x < o + HEADER + n ==> d'[x] == d[x];
    assert d'[o + HEADER..o + HEADER + n] == d[o + HEADER..o + HEADER + n];
  }

  /** Chains in bytes that agree up to entry k have the same first k entries. */
  lemma {:induction false} PrefixUnique(d: seq<Byte>, d': seq<Byte>, o: int, end: int, es: seq<Dirent>,
                                        es': seq<Dirent>, k: nat)
    requires Holds(d, o, end, es) && Holds(d', o, end, es') && k <= |es| && Agree(d, d', o, Offset(es, o, k))
    ensures k <= |es'| && es'[..k] == es[..k]
  {
    if k > 0 {
      EntryBounds(d, o, end, es, k - 1);
      PrefixUnique(d, d', o, end, es, es', k - 1);
      OffsetPrefix(es, es', o, k - 1);
      EntryDepends(d, d', Offset(es, o, k - 1), end);
      if k - 1 < |es'| {
        EntryBounds(d', o, end, es', k - 1);
        assert es[..k] == es[..k - 1] + [es[k - 1]] && es'[..k] == es'[..k - 1] + [es'[k - 1]];
      }
    }
  }

  /** Bytes can be read as a chain of entries in one way only. */
  lemma ChainUnique(d: seq<Byte>, o: int, end: int, es: seq<Dirent>, es': seq<Dirent>)
    requires Holds(d, o, end, es) && Holds(d, o, end, es')
    ensures es == es'
  {
    PrefixUnique(d, d, o, end, es, es', |es|);
    PrefixUnique(d, d, o, end, es', es, |es'|);
    assert es == es[..|es|] && es' == es'[..|es'|];
  }

  /** A chain depends on its own bytes only. */
  lemma HoldsDepends(d: seq<Byte>, d': seq<Byte>, o: int, end: int, es: seq<Dirent>)
    requires Holds(d, o, end, es) && Agree(d, d', o, end)
    ensures Holds(d', o, end, es)
  {
    forall k | 0 <= k < |es| ensures EntryThere(d', o, end, es, k) {
      EntryBounds(d, o, end, es, k);
      EntryDepends(d, d', Offset(es, o, k), end);
    }
  }

  /** Replacing entries i to i + n by others of the same total length. */
  ghost function Spliced(es: seq<Dirent>, i: nat, n: nat, mid: seq<Dirent>): seq<Dirent>
    requires i + n <= |es|
  {
    es[..i] + mid + es[i + n..]
  }

  lemma SplicedParts(es: seq<Dirent>, i: nat, n: nat, mid: seq<Dirent>, es': seq<Dirent>)
    requires i + n <= |es| && es' == Spliced(es, i, n, mid)
    ensures |es'| == |es| - n + |mid| && es'[..i] == es[..i] && es'[i + |mid|..] == es[i + n..]
  {
  }

  lemma {:induction false} SplicedBefore(d: seq<Byte>, d': seq<Byte>, o: int, end: int, es: seq<Dirent>, i: nat,
                                         es': seq<Dirent>, k: nat)
    requires Holds(d, o, end, es) && k < i <= |es| && i <= |es'| && es'[..i] == es[..i] && |d'| == |d|
    requires Agree(d, d', o, Offset(es, o, i))
    ensures EntryThere(d', o, end, es', k)
  {
    assert es'[k] == es'[..i][k] && es[k] == es[..i][k];
    assert es'[..k] == es'[..i][..k] && es[..k] == es[..i][..k];
    OffsetPrefix(es, es', o, k);
    EntryBounds(d, o, end, es, k);
    OffsetGrows(es, o, k + 1, i);
    EntryDepends(d, d', Offset(es, o, k), end);
  }

  lemma {:induction false} SplicedAfter(d: seq<Byte>, d': seq<Byte>, o: int, end: int, es: seq<Dirent>, i: nat,
                                        es': seq<Dirent>, i': nat, j: nat)
    requires Holds(d, o, end, es) && i + j < |es| && i' + j < |es'| && es'[i'..] == es[i..] && |d'| == |d|
    requires Offset(es', o, i') == Offset(es, o, i) && Agree(d, d', Offset(es, o, i), end)
    ensures EntryThere(d', o, end, es', i' + j)
  {
    assert es'[i' + j] == es'[i'..][j] && es[i + j] == es[i..][j];
    assert es'[i'..i' + j] == es'[i'..][..j] && es[i..i + j] == es[i..][..j];
    OffsetSuffix(es, es', o, i, i', j);
    EntryBounds(d, o, end, es, i + j);
    OffsetGrows(es, o, i, i + j);
    EntryDepends(d, d', Offset(es, o, i + j), end);
  }

  lemma {:induction false} SplicedOffsets(es: seq<Dirent>, es': seq<Dirent>, o: int, i: nat, n: nat, mid: seq<Dirent>,
                                          k: nat)
    requires i + n <= |es| && es' == Spliced(es, i, n, mid) && k <= |mid|
    ensures Offset(es', o, i + k) == Offset(mid, Offset(es, o, i), k)
  {
    if k == 0 {
      assert es'[..i] == es[..i];
      OffsetPrefix(es, es', o, i);
    } else {
      SplicedOffsets(es, es', o, i, n, mid, k - 1);
    }
  }

  /** The entries of mid stand in the longer chain where they stand in their own. */
  lemma {:induction false} SplicedMid(d': seq<Byte>, o: int, end: int, es: seq<Dirent>, i: nat, n: nat,
                                      mid: seq<Dirent>,
                                      es': seq<Dirent>, j: nat)
    requires i + n <= |es| && es' == Spliced(es, i, n, mid) && j < |mid| && Offset(es, o, i + n) <= end <= |d'|
    requires EntryThere(d', Offset(es, o, i), Offset(es, o, i + n), mid, j)
    ensures EntryThere(d', o, end, es', i + j)
  {
    SplicedOffsets(es, es', o, i, n, mid, j);
  }

  lemma {:induction false} SplicedAt(d: seq<Byte>, d': seq<Byte>, o: int, end: int, es: seq<Dirent>, i: nat, n: nat,
                                     mid: seq<Dirent>,
                                     es': seq<Dirent>, k: nat)
    requires Holds(d, o, end, es) && i + n <= |es| && es' == Spliced(es, i, n, mid) && k < |es'|
    requires Agree(d, d', o, Offset(es, o, i)) && Agree(d, d', Offset(es, o, i + n), end)
    requires Offset(es, o, i + n) <= end && Holds(d', Offset(es, o, i), Offset(es, o, i + n), mid)
    ensures EntryThere(d', o, end, es', k)
  {
    SplicedParts(es, i, n, mid, es');
    if k < i {
      SplicedBefore(d, d', o, end, es, i, es', k);
    } else if k < i + |mid| {
      SplicedMid(d', o, end, es, i, n, mid, es', k - i);
    } else {
      SplicedOffsets(es, es', o, i, n, mid, |mid|);
      SplicedAfter(d, d', o, end, es, i + n, es', i + |mid|, k - i - |mid|);
    }
  }

  lemma {:induction false} SplicedEnd(es: seq<Dirent>, es': seq<Dirent>, o: int, i: nat, n: nat, mid: seq<Dirent>)
    requires i + n <= |es| && es' == Spliced(es, i, n, mid)
    requires Offset(mid, Offset(es, o, i), |mid|) == Offset(es, o, i + n)
    ensures Offset(es', o, |es'|) == Offset(es, o, |es|)
  {
    var i', rest := i + |mid|, |es| - i - n;
    SplicedOffsets(es, es', o, i, n, mid, |mid|);
    assert es'[i'..i' + rest] == es[i + n..i + n + rest];
    OffsetSuffix(es, es', o, i + n, i', rest);
  }

  /** If the bytes of entries i to i + n become those of mid, the chain changes there and nowhere else. */
  lemma {:induction false} HoldsSpliced(d: seq<Byte>, d': seq<Byte>, o: int, end: int, es: seq<Dirent>, i: nat, n: nat,
                                        mid: seq<Dirent>)
    requires Holds(d, o, end, es) && i + n <= |es|
    requires Agree(d, d', o, Offset(es, o, i)) && Agree(d, d', Offset(es, o, i + n), end)
    requires Holds(d', Offset(es, o, i), Offset(es, o, i + n), mid)
    ensures Holds(d', o, end, Spliced(es, i, n, mid))
  {
    var es' := Spliced(es, i, n, mid);
    OffsetGrows(es, o, i + n, |es|);
    forall k | 0 <= k < |es'| ensures EntryThere(d', o, end, es', k) {
      SplicedAt(d, d', o, end, es, i, n, mid, es', k);
    }
    SplicedEnd(es, es', o, i, n, mid);
  }

  // ---------------------------------------------------------------- writing entries

  function PutRecLen(d: seq<Byte>, o: int, n: int): (d': seq<Byte>)
    requires 0 <= o && o + HEADER <= |d| && 0 <= n < 0x1_0000
    ensures |d'| == |d| && RecLenAt(d', o) == n
    ensures forall x :: 0 <= x < |d| && x != o + 4 && x != o + 5 ==> d'[x] == d[x]
  {
    d[o + 4 := n % 0x100][o + 5 := n / 0x100]
  }

  predicate Encodable(e: Dirent) {
    0 <= e.inode < 0x1_0000_0000 && 0 <= e.recLen < 0x1_0000 && |e.name| <= NAME_LEN
  }

  /** The bytes of an entry. */
  function Bytes(e: Dirent): (b: seq<Byte>)
    requires Encodable(e)
    ensures |b| == HEADER + |e.name|
  {
    var (lo, hi) := (e.inode % 0x1_0000, e.inode / 0x1_0000);
    [lo % 0x100, lo / 0x100, hi % 0x100, hi / 0x100,
     e.recLen % 0x100, e.recLen / 0x100, |e.name|, e.fileType] + e.name
  }

  /** The bytes read back give the entry. */
  lemma BytesRoundTrip(e: Dirent)
    requires Encodable(e)
    ensures NameLenAt(Bytes(e), 0) == |e.name| && RecLenAt(Bytes(e), 0) == e.recLen && EntryAt(Bytes(e), 0) == e
  {
    var b := Bytes(e);
    assert b[6] == |e.name|;
    assert b[HEADER..] == e.name;
    assert InodeAt(b, 0) == e.inode && RecLenAt(b, 0) == e.recLen;
  }

  /** The layout: all numbers have their lower bytes first. */
  lemma Layout(d: seq<Byte>)
    requires |d| == 9 && d == [0x04, 0x03, 0x02, 0x01, 0x06, 0x05, 1, EXT2_FT_SYMLINK, 46]
    ensures Bytes(Dirent(0x0102_0304, 0x0506, [46], EXT2_FT_SYMLINK)) == d
    ensures InodeAt(d, 0) == 0x0102_0304 && RecLenAt(d, 0) == 0x0506 && NameLenAt(d, 0) == 1
    ensures EntryAt(d, 0) == Dirent(0x0102_0304, 0x0506, [46], EXT2_FT_SYMLINK)
  {
    var e := Dirent(0x0102_0304, 0x0506, [46], EXT2_FT_SYMLINK);
    assert Bytes(e) == d;
    BytesRoundTrip(e);
  }

  /** What is written for an entry is in the range of an unsigned char. */
  lemma BytesInRange(e: Dirent)
    requires Encodable(e) && 0 <= e.fileType < 0x100 && forall i :: 0 <= i < |e.name| ==> 0 <= e.name[i] < 0x100
    ensures forall i :: 0 <= i < |Bytes(e)| ==> 0 <= Bytes(e)[i] < 0x100
  {
    var b := Bytes(e);
    forall i | 0 <= i < |b| ensures 0 <= b[i] < 0x100 {
      if i >= HEADER {
        assert b[i] == e.name[i - HEADER];
      }
    }
  }

  /** An entry reads the same wherever its bytes are. */
  lemma EntryMoved(b: seq<Byte>, d: seq<Byte>, o: int)
    requires 0 <= o && HEADER <= |b| && HEADER + NameLenAt(b, 0) == |b| && 0 <= RecLenAt(b, 0)
    requires o + |b| <= |d| && d[o..o + |b|] == b
    ensures NameLenAt(d, o) == NameLenAt(b, 0) && RecLenAt(d, o) == RecLenAt(b, 0) && EntryAt(d, o) == EntryAt(b, 0)
  {
    assert forall x :: o <= x < o + |b| ==> d[x] == d[o..o + |b|][x - o];
    assert d[o + HEADER..o + |b|] == b[HEADER..];
  }

  /** The entry is written over what is at o. */
  function PutEntry(d: seq<Byte>, o: int, e: Dirent): (d': seq<Byte>)
    requires Encodable(e) && 0 <= o && o + HEADER + |e.name| <= |d|
    ensures |d'| == |d| && NameLenAt(d', o) == |e.name| && RecLenAt(d', o) == e.recLen && EntryAt(d', o) == e
    ensures forall x :: 0 <= x < |d| && !(o <= x < o + HEADER + |e.name|) ==> d'[x] == d[x]
  {
    var b := Bytes(e);
    var d' := d[..o] + b + d[o + |b|..];
    assert d'[o..o + |b|] == b;
    BytesRoundTrip(e);
    EntryMoved(b, d', o);
    d'
  }

  /** What PutEntry gives, byte by byte. */
  lemma PutEntryIs(d: seq<Byte>, o: int, e: Dirent, d': seq<Byte>)
    requires Encodable(e) && 0 <= o && o + HEADER + |e.name| <= |d| == |d'|
    requires forall x :: 0 <= x < |d| && !(o <= x < o + HEADER + |e.name|) ==> d'[x] == d[x]
    requires forall x :: o <= x < o + HEADER + |e.name| ==> d'[x] == Bytes(e)[x - o]
    ensures d' == PutEntry(d, o, e)
  {
    var b := Bytes(e);
    assert d'[..o] == d[..o] && d'[o..o + |b|] == b && d'[o + |b|..] == d[o + |b|..];
    assert d' == d'[..o] + d'[o..o + |b|] + d'[o + |b|..];
  }
}
