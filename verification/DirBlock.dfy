/** Looking up, adding and deleting entries in one directory block, in place (a3/ext2_helper.h).

    The functions on chains say what is found and what is changed; the methods walk over the bytes
    of the block as the source does.  A walk is described by the number of entries that it has
    passed.

    An entry is added by cutting another one off after its name, and deleted by making the one before
    it longer.  Only a first entry that is deleted stays, without a name.
 */
module DirBlocks {
  import opened Dirents

  // ---------------------------------------------------------------- on chains

  /** The index of the first entry with the given name, or |es|. */
  function FirstNamed(es: seq<Dirent>, name: Name): (k: nat)
    ensures k <= |es| && (k < |es| ==> es[k].name == name)
    ensures forall i :: 0 <= i < k ==> es[i].name != name
  {
    if es == [] then 0
    else if es[0].name == name then 0
    else
      var k := FirstNamed(es[1..], name);
      assert forall i :: 1 <= i < k + 1 ==> es[i] == es[1..][i - 1];
      k + 1
  }

  /** The test on space_left.  It is an unsigned short, so a record that is shorter than min_rec_len
      seems to have plenty of space left. */
  predicate HasSlack(e: Dirent, needed: int) {
    (e.recLen - MinRecLen(e)) % 0x1_0000 >= needed
  }

  /** The record has no room for the padding that total_entry_length adds to a name. */
  predicate IsShort(e: Dirent) {
    e.recLen < MinRecLen(e)
  }

  /** The index of the first entry with enough unused bytes after its name, or |es|. */
  function FirstFit(es: seq<Dirent>, needed: int): (k: nat)
    ensures k <= |es| && (k < |es| ==> HasSlack(es[k], needed))
    ensures forall i :: 0 <= i < k ==> !HasSlack(es[i], needed)
  {
    if es == [] then 0
    else if HasSlack(es[0], needed) then 0
    else
      var k := FirstFit(es[1..], needed);
      assert forall i :: 1 <= i < k + 1 ==> es[i] == es[1..][i - 1];
      k + 1
  }

  /** There is an entry after which the new one fits, and the search comes to it. */
  predicate Makes(es: seq<Dirent>, needed: int) {
    var k := FirstFit(es, needed);
    k < |es| && !IsShort(es[k])
  }

  /** The search stops at a short record that is not the last one: what is written after its name is
      written over the next record. */
  predicate Clobbers(es: seq<Dirent>, needed: int) {
    var k := FirstFit(es, needed);
    k + 1 < |es| && IsShort(es[k])
  }

  /** The entry that takes the unused bytes of e. */
  function Added(e: Dirent, inode: int, name: Name, fileType: Byte): Dirent
    requires e.recLen >= MinRecLen(e)
  {
    Dirent(inode, e.recLen - MinRecLen(e), name, fileType)
  }

  /** Entry k is cut down to its name, and a new entry takes the bytes after it. */
  function Inserted(es: seq<Dirent>, k: nat, inode: int, name: Name, fileType: Byte): seq<Dirent>
    requires k < |es| && es[k].recLen >= MinRecLen(es[k])
  {
    es[..k] + [es[k].(recLen := MinRecLen(es[k])), Added(es[k], inode, name, fileType)] + es[k + 1..]
  }

  /** Entry k is merged into the one before; the first entry only loses its name. */
  function Deleted(es: seq<Dirent>, k: nat): seq<Dirent>
    requires k < |es|
  {
    if k == 0 then [es[0].(name := [])] + es[1..]
    else es[..k - 1] + [es[k - 1].(recLen := es[k - 1].recLen + es[k].recLen)] + es[k + 1..]
  }

  /** No entry has a name. */
  ghost predicate IsEmpty(es: seq<Dirent>) {
    forall i :: 0 <= i < |es| ==> es[i].name == []
  }

  // ---------------------------------------------------------------- on blocks

  /** The block that starts at start holds the given entries. */
  ghost predicate IsDirBlock(d: seq<Byte>, start: nat, es: seq<Dirent>) {
    start + BLOCK_SIZE <= |d| && Holds(d, start, start + BLOCK_SIZE, es)
  }

  /** A walk that has passed k entries stands at offset o. */
  ghost predicate At(start: int, es: seq<Dirent>, k: nat, o: int) {
    k <= |es| && o == Offset(es, start, k)
  }

  lemma OffsetInBlock(d: seq<Byte>, start: nat, es: seq<Dirent>, k: nat)
    requires IsDirBlock(d, start, es) && k <= |es|
    ensures start <= Offset(es, start, k) <= start + BLOCK_SIZE
    ensures Offset(es, start, k) == start + BLOCK_SIZE <==> k == |es|
  {
    OffsetGrows(es, start, 0, k);
    OffsetGrows(es, start, k, |es|);
    if k < |es| {
      EntryBounds(d, start, start + BLOCK_SIZE, es, k);
    }
  }

  /** entry_name_comparison */
  method NameMatches(disk: array<Byte>, o: int, name: Name) returns (b: bool)
    requires 0 <= o && o + HEADER <= disk.Length && 0 <= NameLenAt(disk[..], o) && 0 <= RecLenAt(disk[..], o)
    requires o + HEADER + NameLenAt(disk[..], o) <= disk.Length
    ensures b == (EntryAt(disk[..], o).name == name)
  {
    var n := disk[o + 6];
    if n != |name| {
      return false;
    }
    for i := 0 to n
      invariant forall j :: 0 <= j < i ==> disk[o + HEADER + j] == name[j]
    {
      if disk[o + HEADER + i] != name[i] {
        assert EntryAt(disk[..], o).name[i] != name[i];
        return false;
      }
    }
    assert EntryAt(disk[..], o).name == name;
    return true;
  }

  method GetRecLen(disk: array<Byte>, o: int) returns (n: int)
    requires 0 <= o && o + HEADER <= disk.Length
    ensures n == RecLenAt(disk[..], o)
  {
    n := Word(disk[o + 4], disk[o + 5]);
  }

  /** is_valid_dir_entry: the walk stops at the end of the block. */
  method IsValidDirEntry(disk: array<Byte>, start: nat, ghost es: seq<Dirent>, ghost k: nat, o: int) returns (b: bool)
    requires IsDirBlock(disk[..], start, es) && At(start, es, k, o)
    ensures b == (k < |es|)
  {
    OffsetInBlock(disk[..], start, es, k);
    if o - start < BLOCK_SIZE {
      EntryBounds(disk[..], start, start + BLOCK_SIZE, es, k);
      var n := GetRecLen(disk, o);
      b := n > 0;
    } else {
      b := false;
    }
  }

  /** get_next_dir_entry */
  method NextEntry(disk: array<Byte>, start: nat, ghost es: seq<Dirent>, ghost k: nat, o: int) returns (next: int)
    requires IsDirBlock(disk[..], start, es) && At(start, es, k, o) && k < |es|
    ensures At(start, es, k + 1, next)
  {
    EntryBounds(disk[..], start, start + BLOCK_SIZE, es, k);
    var n := GetRecLen(disk, o);
    next := o + n;
  }

  method HasName(disk: array<Byte>, start: nat, ghost es: seq<Dirent>, ghost k: nat, o: int, name: Name)
      returns (b: bool)
    requires IsDirBlock(disk[..], start, es) && At(start, es, k, o) && k < |es|
    ensures b == (es[k].name == name)
  {
    EntryBounds(disk[..], start, start + BLOCK_SIZE, es, k);
    b := NameMatches(disk, o, name);
  }

  /** The name of entry n is the first that matches. */
  lemma FirstNamedIs(es: seq<Dirent>, name: Name, n: nat)
    requires n <= |es| && (n < |es| ==> es[n].name == name) && forall i :: 0 <= i < n ==> es[i].name != name
    ensures FirstNamed(es, name) == n
  {
  }

  /** block_matching_pair: where the first entry with the given name is, and the one before it (-1 for none). */
  method BlockMatchingPair(disk: array<Byte>, start: nat, ghost es: seq<Dirent>, name: Name)
      returns (found: bool, prev: int, cur: int)
    requires IsDirBlock(disk[..], start, es)
    ensures var k := FirstNamed(es, name);
            && found == (k < |es|) && At(start, es, k, cur)
            && if k == 0 then prev == -1 else At(start, es, k - 1, prev)
  {
    ghost var k := 0;
    prev, cur := -1, start;
    var valid := IsValidDirEntry(disk, start, es, 0, start);
    while valid
      invariant At(start, es, k, cur) && (if k == 0 then prev == -1 else At(start, es, k - 1, prev))
                && valid == (k < |es|)
      invariant forall i :: 0 <= i < k ==> es[i].name != name
      decreases |es| - k
    {
      found := HasName(disk, start, es, k, cur, name);
      if found {
        FirstNamedIs(es, name, k);
        return;
      }
      prev := cur;
      cur := NextEntry(disk, start, es, k, cur);
      k := k + 1;
      valid := IsValidDirEntry(disk, start, es, k, cur);
    }
    FirstNamedIs(es, name, k);
    found := false;
  }

  /** is_entry_block_empty: no entry of the block has a name. */
  method IsEntryBlockEmpty(disk: array<Byte>, start: nat, ghost es: seq<Dirent>) returns (empty: bool)
    requires IsDirBlock(disk[..], start, es)
    ensures empty == IsEmpty(es)
  {
    ghost var k := 0;
    var cur := start;
    var valid := IsValidDirEntry(disk, start, es, 0, start);
    while valid
      invariant At(start, es, k, cur) && valid == (k < |es|)
      invariant forall i :: 0 <= i < k ==> es[i].name == []
      decreases |es| - k
    {
      EntryBounds(disk[..], start, start + BLOCK_SIZE, es, k);
      if disk[cur + 6] > 0 {
        assert |es[k].name| > 0;
        return false;
      }
      cur := NextEntry(disk, start, es, k, cur);
      k := k + 1;
      valid := IsValidDirEntry(disk, start, es, k, cur);
    }
    return true;
  }

  // ---------------------------------------------------------------- changing a block

  /** Nothing outside the block that starts at start has changed. */
  ghost predicate OnlyBlock(d: seq<Byte>, d': seq<Byte>, start: nat) {
    Agree(d, d', 0, start) && Agree(d, d', start + BLOCK_SIZE, |d|)
  }

  lemma HoldsOne(d: seq<Byte>, o: int, end: int, e: Dirent)
    requires end <= |d| && EntryFits(d, o, end) && EntryAt(d, o) == e && o + e.recLen == end
    ensures Holds(d, o, end, [e])
  {
    assert Offset([e], o, 0) == o;
    assert EntryThere(d, o, end, [e], 0);
  }

  lemma HoldsTwo(d: seq<Byte>, o: int, end: int, e: Dirent, f: Dirent)
    requires end <= |d| && EntryFits(d, o, end) && EntryAt(d, o) == e
    requires EntryFits(d, o + e.recLen, end) && EntryAt(d, o + e.recLen) == f && o + e.recLen + f.recLen == end
    ensures Holds(d, o, end, [e, f])
  {
    assert Offset([e, f], o, 0) == o && Offset([e, f], o, 1) == o + e.recLen;
    forall k | 0 <= k < 2 ensures EntryThere(d, o, end, [e, f], k) {
    }
  }

  /** The record at o is cut off after n bytes, and a new entry is written there. */
  ghost function WithEntry(d: seq<Byte>, o: int, n: int, added: Dirent): (d': seq<Byte>)
    requires HEADER <= n < 0x1_0000 && Encodable(added) && 0 <= o && o + n + HEADER + |added.name| <= |d|
    ensures |d'| == |d|
  {
    PutEntry(PutRecLen(d, o, n), o + n, added)
  }

  /** An entry with enough slack is split in two. */
  lemma SplitEntry(d: seq<Byte>, o: int, end: int, e: Dirent, added: Dirent)
    requires end <= |d| && EntryFits(d, o, end) && EntryAt(d, o) == e && o + e.recLen == end
    requires e.recLen < 0x1_0000 && Encodable(added) && e.recLen >= MinRecLen(e) + MinRecLen(added)
             && added.recLen == e.recLen - MinRecLen(e)
    ensures Holds(WithEntry(d, o, MinRecLen(e), added), o, end, [e.(recLen := MinRecLen(e)), added])
    ensures Agree(d, WithEntry(d, o, MinRecLen(e), added), 0, o)
            && Agree(d, WithEntry(d, o, MinRecLen(e), added), end, |d|)
  {
    var d' := WithEntry(d, o, MinRecLen(e), added);
    assert d'[o + HEADER..o + HEADER + |e.name|] == e.name;
    HoldsTwo(d', o, end, e.(recLen := MinRecLen(e)), added);
  }

  lemma SplitIs(es: seq<Dirent>, k: nat, added: Dirent)
    requires k < |es| && es[k].recLen >= MinRecLen(es[k])
    requires added == Added(es[k], added.inode, added.name, added.fileType)
    ensures Spliced(es, k, 1, [es[k].(recLen := MinRecLen(es[k])), added]) ==
            Inserted(es, k, added.inode, added.name, added.fileType)
  {
  }

  lemma AgreeWithin(d: seq<Byte>, d': seq<Byte>, start: nat, o: int, end: int)
    requires start <= o <= end <= start + BLOCK_SIZE <= |d| && Agree(d, d', 0, o) && Agree(d, d', end, |d|)
    ensures Agree(d, d', start, o) && Agree(d, d', end, start + BLOCK_SIZE) && OnlyBlock(d, d', start)
  {
  }

  /** Entry k has its place within the block. */
  lemma EntryPlace(d: seq<Byte>, start: nat, es: seq<Dirent>, k: nat, o: int)
    requires IsDirBlock(d, start, es) && k < |es| && o == Offset(es, start, k)
    ensures start <= o <= o + es[k].recLen <= start + BLOCK_SIZE && EntryFits(d, o, o + es[k].recLen)
            && EntryAt(d, o) == es[k]
  {
    EntryBounds(d, start, start + BLOCK_SIZE, es, k);
    EntryShorter(d, o, start + BLOCK_SIZE);
  }

  lemma {:induction false} SplitHolds(d: seq<Byte>, d': seq<Byte>, start: nat, es: seq<Dirent>, k: nat, o: int,
                                      end: int,
                                      added: Dirent)
    requires IsDirBlock(d, start, es) && k < |es| && es[k].recLen >= MinRecLen(es[k])
    requires start <= o == Offset(es, start, k) && end == o + es[k].recLen <= start + BLOCK_SIZE
    requires Agree(d, d', 0, o) && Agree(d, d', end, |d|)
    requires added == Added(es[k], added.inode, added.name, added.fileType)
    requires Holds(d', o, end, [es[k].(recLen := MinRecLen(es[k])), added])
    ensures IsDirBlock(d', start, Inserted(es, k, added.inode, added.name, added.fileType)) && OnlyBlock(d, d', start)
  {
    SplitIs(es, k, added);
    AgreeWithin(d, d', start, o, end);
    HoldsSpliced(d, d', start, start + BLOCK_SIZE, es, k, 1, [es[k].(recLen := MinRecLen(es[k])), added]);
  }

  /** Adding an entry after entry k changes the chain accordingly. */
  lemma {:induction false} InsertedBytes(d: seq<Byte>, start: nat, es: seq<Dirent>, k: nat, inode: int, name: Name,
                                         fileType: Byte)
    requires IsDirBlock(d, start, es) && k < |es| && es[k].recLen >= MinRecLen(es[k]) + TotalEntryLength(|name|)
    requires 0 <= inode < 0x1_0000_0000 && |name| <= NAME_LEN
    ensures start <= Offset(es, start, k) && Offset(es, start, k) + es[k].recLen <= start + BLOCK_SIZE
    ensures var d' := WithEntry(d, Offset(es, start, k), MinRecLen(es[k]), Added(es[k], inode, name, fileType));
            IsDirBlock(d', start, Inserted(es, k, inode, name, fileType)) && OnlyBlock(d, d', start)
  {
    var o, added := Offset(es, start, k), Added(es[k], inode, name, fileType);
    EntryPlace(d, start, es, k, o);
    var end := o + es[k].recLen;
    SplitEntry(d, o, end, es[k], added);
    SplitHolds(d, WithEntry(d, o, MinRecLen(es[k]), added), start, es, k, o, end, added);
  }

  lemma EntryShorter(d: seq<Byte>, o: int, end: int)
    requires end <= |d| && EntryFits(d, o, end)
    ensures EntryFits(d, o, o + RecLenAt(d, o))
  {
  }

  /** The first entry of the block loses its name, and nothing else. */
  lemma {:induction false} UnnamedBytes(d: seq<Byte>, start: nat, es: seq<Dirent>)
    requires IsDirBlock(d, start, es) && es != []
    ensures IsDirBlock(d[start + 6 := 0], start, Deleted(es, 0)) && OnlyBlock(d, d[start + 6 := 0], start)
  {
    var d', end, e := d[start + 6 := 0], start + BLOCK_SIZE, es[0].(name := []);
    EntryBounds(d, start, end, es, 0);
    EntryShorter(d, start, end);
    HoldsOne(d', start, start + e.recLen, e);
    assert Spliced(es, 0, 1, [e]) == Deleted(es, 0);
    HoldsSpliced(d, d', start, end, es, 0, 1, [e]);
  }

  /** A record that gets longer still holds the same entry. */
  lemma LongerEntry(d: seq<Byte>, o: int, n: int, e: Dirent)
    requires 0 <= n < 0x1_0000 && 0 <= o && o + n <= |d| && o + e.recLen <= o + n
    requires EntryFits(d, o, o + n) && EntryAt(d, o) == e
    ensures Holds(PutRecLen(d, o, n), o, o + n, [e.(recLen := n)])
  {
    var d' := PutRecLen(d, o, n);
    assert d'[o + HEADER..o + HEADER + |e.name|] == e.name;
    HoldsOne(d', o, o + n, e.(recLen := n));
  }

  lemma MergedIs(es: seq<Dirent>, start: nat, k: nat, n: int)
    requires 0 < k < |es| && n == es[k - 1].recLen + es[k].recLen
    ensures Offset(es, start, k + 1) == Offset(es, start, k - 1) + n
    ensures Spliced(es, k - 1, 2, [es[k - 1].(recLen := n)]) == Deleted(es, k)
  {
  }

  lemma PutRecLenThere(d: seq<Byte>, o: int, n: int, start: nat)
    requires start <= o && o + HEADER <= o + n <= start + BLOCK_SIZE <= |d| && n < 0x1_0000
    ensures var d' := PutRecLen(d, o, n);
            Agree(d, d', start, o) && Agree(d, d', o + n, start + BLOCK_SIZE) && OnlyBlock(d, d', start)
  {
  }

  /** The two entries take n bytes from offset o on. */
  lemma {:induction false} MergedPlace(d: seq<Byte>, start: nat, es: seq<Dirent>, k: nat, o: int, n: int)
    requires IsDirBlock(d, start, es) && 0 < k < |es|
    requires o == Offset(es, start, k - 1) && n == es[k - 1].recLen + es[k].recLen
    ensures start <= o && o + n == Offset(es, start, k + 1) <= start + BLOCK_SIZE && HEADER <= es[k - 1].recLen <= n
    ensures EntryFits(d, o, o + n) && EntryAt(d, o) == es[k - 1]
  {
    EntryBounds(d, start, start + BLOCK_SIZE, es, k - 1);
    EntryBounds(d, start, start + BLOCK_SIZE, es, k);
  }

  lemma {:induction false} MergedHolds(d: seq<Byte>, d': seq<Byte>, start: nat, es: seq<Dirent>, k: nat, o: int, n: int)
    requires IsDirBlock(d, start, es) && 0 < k < |es| && n == es[k - 1].recLen + es[k].recLen
             && start + BLOCK_SIZE <= |d'|
    requires o == Offset(es, start, k - 1) && Agree(d, d', start, o) && Agree(d, d', o + n, start + BLOCK_SIZE)
    requires Holds(d', o, o + n, [es[k - 1].(recLen := n)])
    ensures IsDirBlock(d', start, Deleted(es, k))
  {
    MergedIs(es, start, k, n);
    HoldsSpliced(d, d', start, start + BLOCK_SIZE, es, k - 1, 2, [es[k - 1].(recLen := n)]);
  }

  /** Entry k is merged into the one before. */
  lemma {:induction false} MergedBytes(d: seq<Byte>, start: nat, es: seq<Dirent>, k: nat)
    requires IsDirBlock(d, start, es) && 0 < k < |es|
    ensures 0 <= Offset(es, start, k - 1) <= |d| - HEADER && es[k - 1].recLen + es[k].recLen <= BLOCK_SIZE
    ensures var d' := PutRecLen(d, Offset(es, start, k - 1), es[k - 1].recLen + es[k].recLen);
            IsDirBlock(d', start, Deleted(es, k)) && OnlyBlock(d, d', start)
  {
    var o, n := Offset(es, start, k - 1), es[k - 1].recLen + es[k].recLen;
    MergedPlace(d, start, es, k, o, n);
    LongerEntry(d, o, n, es[k - 1]);
    PutRecLenThere(d, o, n, start);
    MergedHolds(d, PutRecLen(d, o, n), start, es, k, o, n);
  }

  method SetRecLen(disk: array<Byte>, o: int, n: int)
    requires 0 <= o && o + HEADER <= disk.Length && 0 <= n < 0x1_0000
    modifies disk
    ensures disk[..] == PutRecLen(old(disk[..]), o, n)
  {
    disk[o + 4] := n % 0x100;
    disk[o + 5] := n / 0x100;
  }

  method WriteName(disk: array<Byte>, o: int, name: Name)
    requires 0 <= o && o + |name| <= disk.Length
    modifies disk
    ensures forall x :: 0 <= x < disk.Length && !(o <= x < o + |name|) ==> disk[x] == old(disk[x])
    ensures forall x :: o <= x < o + |name| ==> disk[x] == name[x - o]
  {
    for i := 0 to |name|
      invariant forall x :: 0 <= x < disk.Length && !(o <= x < o + i) ==> disk[x] == old(disk[x])
      invariant forall x :: o <= x < o + i ==> disk[x] == name[x - o]
    {
      disk[o + i] := name[i];
    }
  }

  method WriteHeader(disk: array<Byte>, o: int, inode: int, recLen: int, nameLen: int, fileType: Byte)
    requires 0 <= o && o + HEADER <= disk.Length && 0 <= inode < 0x1_0000_0000 && 0 <= recLen < 0x1_0000
    modifies disk
    ensures disk[..] ==
            old(disk[..])[o + 6 := nameLen][o + 4 := recLen % 0x100][o + 5 := recLen / 0x100][o + 7 := fileType]
                          [o := inode % 0x1_0000 % 0x100][o + 1 := inode % 0x1_0000 / 0x100]
                          [o + 2 := inode / 0x1_0000 % 0x100][o + 3 := inode / 0x1_0000 / 0x100]
  {
    disk[o + 6] := nameLen;
    disk[o + 4] := recLen % 0x100;
    disk[o + 5] := recLen / 0x100;
    disk[o + 7] := fileType;
    disk[o] := inode % 0x1_0000 % 0x100;
    disk[o + 1] := inode % 0x1_0000 / 0x100;
    disk[o + 2] := inode / 0x1_0000 % 0x100;
    disk[o + 3] := inode / 0x1_0000 / 0x100;
  }

  method WriteEntry(disk: array<Byte>, o: int, inode: int, recLen: int, name: Name, fileType: Byte)
    requires 0 <= recLen && Encodable(Dirent(inode, recLen, name, fileType)) && 0 <= o
             && o + HEADER + |name| <= disk.Length
    modifies disk
    ensures disk[..] == PutEntry(old(disk[..]), o, Dirent(inode, recLen, name, fileType))
  {
    WriteName(disk, o + HEADER, name);
    WriteHeader(disk, o, inode, recLen, |name|, fileType);
    PutEntryIs(old(disk[..]), o, Dirent(inode, recLen, name, fileType), disk[..]);
  }

  /** What is written after an entry: the record length is an unsigned short. */
  function Squeezed(e: Dirent, inode: int, name: Name, fileType: Byte): Dirent {
    Dirent(inode, (e.recLen - MinRecLen(e)) % 0x1_0000, name, fileType)
  }

  /** make_entry_in_existing_block, on bytes. */
  ghost function MadeBytes(d: seq<Byte>, start: nat, es: seq<Dirent>, inode: int, name: Name,
                           fileType: Byte): (d': seq<Byte>)
    requires IsDirBlock(d, start, es) && WritesInside(|d|, start, es, name) && 0 <= inode < 0x1_0000_0000
             && |name| <= NAME_LEN
    ensures |d'| == |d|
  {
    var needed := TotalEntryLength(|name|);
    var k := FirstFit(es, needed);
    if Makes(es, needed) || Clobbers(es, needed) then
      FitBounds(d, start, es, k, needed);
      WithEntry(d, Offset(es, start, k), MinRecLen(es[k]), Squeezed(es[k], inode, name, fileType))
    else d
  }

  /** Writing over the next record, the program may run out of the block, but not out of memory. */
  ghost predicate WritesInside(length: nat, start: nat, es: seq<Dirent>, name: Name) {
    Clobbers(es, TotalEntryLength(|name|)) ==>
      var k := FirstFit(es, TotalEntryLength(|name|));
      Offset(es, start, k) + MinRecLen(es[k]) + HEADER + |name| <= length
  }

  /** Where entry k ends and its name, padded, ends. */
  lemma FitBounds(d: seq<Byte>, start: nat, es: seq<Dirent>, k: nat, needed: int)
    requires IsDirBlock(d, start, es) && k < |es| && HasSlack(es[k], needed) && 0 < needed
    ensures 0 <= Offset(es, start, k) && |es[k].name| <= BLOCK_SIZE && MinRecLen(es[k]) < 0x1_0000
    ensures var ret := Offset(es, start, k) + MinRecLen(es[k]);
            && start < ret && (ret - start < BLOCK_SIZE <==> !IsShort(es[k]) || k + 1 < |es|)
            && (!IsShort(es[k]) ==> es[k].recLen >= MinRecLen(es[k]) + needed && ret + needed <= start + BLOCK_SIZE)
  {
    EntryBounds(d, start, start + BLOCK_SIZE, es, k);
    if k + 1 < |es| {
      EntryBounds(d, start, start + BLOCK_SIZE, es, k + 1);
    }
  }

  /** If there is a record with room, the block holds the new chain afterwards, and nothing else has changed. */
  lemma {:induction false} MadeBytesHold(d: seq<Byte>, start: nat, es: seq<Dirent>, inode: int, name: Name,
                                         fileType: Byte)
    requires IsDirBlock(d, start, es) && Makes(es, TotalEntryLength(|name|)) && 0 <= inode < 0x1_0000_0000
             && |name| <= NAME_LEN
    ensures var d' := MadeBytes(d, start, es, inode, name, fileType);
            IsDirBlock(d', start, Inserted(es, FirstFit(es, TotalEntryLength(|name|)), inode, name, fileType))
                && OnlyBlock(d, d', start)
  {
    var k := FirstFit(es, TotalEntryLength(|name|));
    FitBounds(d, start, es, k, TotalEntryLength(|name|));
    EntryBounds(d, start, start + BLOCK_SIZE, es, k);
    assert Squeezed(es[k], inode, name, fileType) == Added(es[k], inode, name, fileType);
    InsertedBytes(d, start, es, k, inode, name, fileType);
  }

  /** The first entry of a block is only marked as unused. */
  method Unname(disk: array<Byte>, start: nat, ghost es: seq<Dirent>)
    requires IsDirBlock(disk[..], start, es) && es != []
    modifies disk
    ensures IsDirBlock(disk[..], start, Deleted(es, 0)) && OnlyBlock(old(disk[..]), disk[..], start)
  {
    UnnamedBytes(disk[..], start, es);
    disk[start + 6] := 0;
  }

  /** Any other entry is merged into the one before. */
  method Merge(disk: array<Byte>, start: nat, ghost es: seq<Dirent>, ghost k: nat, prev: int, cur: int)
    requires IsDirBlock(disk[..], start, es) && 0 < k < |es| && At(start, es, k, cur) && At(start, es, k - 1, prev)
    modifies disk
    ensures IsDirBlock(disk[..], start, Deleted(es, k)) && OnlyBlock(old(disk[..]), disk[..], start)
  {
    MergedBytes(disk[..], start, es, k);
    var prevLen := LengthAt(disk, start, es, k - 1, prev);
    var curLen := LengthAt(disk, start, es, k, cur);
    SetRecLen(disk, prev, prevLen + curLen);
  }

  method LengthAt(disk: array<Byte>, start: nat, ghost es: seq<Dirent>, ghost k: nat, o: int) returns (n: int)
    requires IsDirBlock(disk[..], start, es) && At(start, es, k, o) && k < |es|
    ensures n == es[k].recLen
  {
    EntryBounds(disk[..], start, start + BLOCK_SIZE, es, k);
    n := GetRecLen(disk, o);
  }

  /** The first half of what delete_child_entry does with a matching pair. */
  method DeletePair(disk: array<Byte>, start: nat, ghost es: seq<Dirent>, ghost k: nat, prev: int, cur: int)
    requires IsDirBlock(disk[..], start, es) && At(start, es, k, cur) && k < |es|
    requires if k == 0 then prev == -1 else At(start, es, k - 1, prev)
    modifies disk
    ensures IsDirBlock(disk[..], start, Deleted(es, k)) && OnlyBlock(old(disk[..]), disk[..], start)
  {
    if k > 0 {
      OffsetInBlock(disk[..], start, es, k - 1);
    }
    if prev == -1 {
      Unname(disk, start, es);
    } else {
      Merge(disk, start, es, k, prev, cur);
    }
  }
}
