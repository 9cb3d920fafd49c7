/** A directory block through any sequence of insertions and deletions: it stays a tiling of the block
    and behaves as a map from names to inodes (a3/ext2_helper.h). */
module BlockRuns {
  import opened Dirents
  import opened DirBlocks
  import opened DirMaps

  datatype BlockOp = Insert(inode: int, name: Name, fileType: Byte) | Delete(name: Name)

  /** The entries fill the block, and each has room for its name. */
  ghost predicate Tiles(es: seq<Dirent>) {
    && Offset(es, 0, |es|) == BLOCK_SIZE
    && forall k {:trigger es[k]} :: 0 <= k < |es| ==> HEADER + |es[k].name| <= es[k].recLen
  }

  /** The entries of a directory block do that. */
  lemma BlockTiles(d: seq<Byte>, start: nat, es: seq<Dirent>)
    requires IsDirBlock(d, start, es)
    ensures Tiles(es)
  {
    forall k | 0 <= k < |es| ensures HEADER + |es[k].name| <= es[k].recLen {
      EntryBounds(d, start, start + BLOCK_SIZE, es, k);
    }
    OffsetShifted(es, start, |es|);
  }

  /** No record is a short one. */
  ghost predicate Roomy(es: seq<Dirent>) {
    forall k {:trigger es[k]} :: 0 <= k < |es| ==> !IsShort(es[k])
  }

  lemma {:induction false} OffsetShifted(es: seq<Dirent>, o: int, k: nat)
    requires k <= |es|
    ensures Offset(es, o, k) == o + Offset(es, 0, k)
  {
    if k > 0 {
      OffsetShifted(es, o, k - 1);
    }
  }

  /** Whether the operation finds what it needs: enough slack after some name, or the name. */
  predicate Succeeds(es: seq<Dirent>, op: BlockOp) {
    match op
    case Insert(inode, name, fileType) => Makes(es, TotalEntryLength(|name|))
    case Delete(name) => FirstNamed(es, name) < |es|
  }

  /** make_entry_in_existing_block, or block_matching_pair and what delete_child_entry does then. */
  function Applied(es: seq<Dirent>, op: BlockOp): seq<Dirent> {
    match op
    case Insert(inode, name, fileType) =>
      if Makes(es, TotalEntryLength(|name|)) then
          Inserted(es, FirstFit(es, TotalEntryLength(|name|)), inode, name, fileType)
      else es
    case Delete(name) =>
      var k := FirstNamed(es, name);
      if k < |es| then Deleted(es, k) else es
  }

  /** The name is not empty, and an insertion is of a fresh name. */
  predicate Fit(m: Bindings, op: BlockOp) {
    op.name != [] && (op.Insert? ==> op.name !in m)
  }

  /** Besides, it does not write over a record. */
  predicate Proper(m: Bindings, es: seq<Dirent>, op: BlockOp) {
    Fit(m, op) && (op.Insert? ==> !Clobbers(es, TotalEntryLength(|op.name|)))
  }

  function MapApplied(m: Bindings, op: BlockOp): Bindings {
    match op
    case Insert(inode, name, fileType) => m[name := Target(inode, fileType)]
    case Delete(name) => m - {name}
  }

  lemma OffsetOne(e: Dirent, o: int)
    ensures Offset([e], o, 1) == o + e.recLen
  {
    assert Offset([e], o, 0) == o;
  }

  lemma OffsetTwo(e: Dirent, f: Dirent, o: int)
    ensures Offset([e, f], o, 2) == o + e.recLen + f.recLen
  {
    assert Offset([e, f], o, 1) == Offset([e, f], o, 0) + e.recLen;
  }

  lemma {:induction false} InsertedTiles(es: seq<Dirent>, k: nat, inode: int, name: Name, fileType: Byte)
    requires Tiles(es) && k < |es| && es[k].recLen >= MinRecLen(es[k]) + TotalEntryLength(|name|)
    ensures Tiles(Inserted(es, k, inode, name, fileType))
  {
    var cut, e, es' := es[k].(recLen := MinRecLen(es[k])), Added(es[k], inode, name, fileType),
        Inserted(es, k, inode, name, fileType);
    assert es' == Spliced(es, k, 1, [cut, e]);
    OffsetTwo(cut, e, Offset(es, 0, k));
    SplicedEnd(es, es', 0, k, 1, [cut, e]);
    forall i | 0 <= i < |es'| ensures HEADER + |es'[i].name| <= es'[i].recLen {
      assert i > k + 1 ==> es'[i] == es[i - 1];
    }
  }

  lemma {:induction false} DeletedTiles(es: seq<Dirent>, k: nat)
    requires Tiles(es) && k < |es|
    ensures Tiles(Deleted(es, k))
  {
    var es' := Deleted(es, k);
    if k == 0 {
      var e := es[0].(name := []);
      assert es' == Spliced(es, 0, 1, [e]);
      OffsetOne(e, Offset(es, 0, 0));
      SplicedEnd(es, es', 0, 0, 1, [e]);
    } else {
      var e := es[k - 1].(recLen := es[k - 1].recLen + es[k].recLen);
      assert es' == Spliced(es, k - 1, 2, [e]);
      OffsetOne(e, Offset(es, 0, k - 1));
      SplicedEnd(es, es', 0, k - 1, 2, [e]);
    }
    forall i | 0 <= i < |es'| ensures HEADER + |es'[i].name| <= es'[i].recLen {
      if k > 0 && i >= k {
        assert es'[i] == es[i + 1];
      } else {
        assert HEADER + |es[i].name| <= es[i].recLen;
      }
    }
  }

  lemma Alone(es: seq<Dirent>)
    ensures [] + es + [] == es
  {
  }

  lemma {:induction false} InsertIs(es: seq<Dirent>, k: nat, inode: int, name: Name, fileType: Byte)
    requires Tiles(es) && DistinctNames(es) && k < |es| && es[k].recLen >= MinRecLen(es[k]) + TotalEntryLength(|name|)
             && name != [] && name !in View(es)
    ensures var es' := Inserted(es, k, inode, name, fileType);
            Tiles(es') && DistinctNames(es') && View(es') == View(es)[name := Target(inode, fileType)]
  {
    Alone(es);
    Alone(Inserted(es, k, inode, name, fileType));
    InsertedTiles(es, k, inode, name, fileType);
    InsertedView([], es, [], k, inode, name, fileType);
  }

  lemma {:induction false} DeleteIs(es: seq<Dirent>, name: Name)
    requires Tiles(es) && DistinctNames(es) && FirstNamed(es, name) < |es| && name != []
    ensures var es' := Deleted(es, FirstNamed(es, name));
            Tiles(es') && DistinctNames(es') && View(es') == View(es) - {name}
  {
    Alone(es);
    Alone(Deleted(es, FirstNamed(es, name)));
    DeletedTiles(es, FirstNamed(es, name));
    DeletedView([], es, [], name);
  }

  /** Some record has room for another entry. */
  ghost predicate HasPlace(es: seq<Dirent>, needed: int) {
    exists k :: 0 <= k < |es| && es[k].recLen >= MinRecLen(es[k]) + needed
  }

  lemma RecordInBlock(es: seq<Dirent>, k: nat)
    requires Tiles(es) && k < |es|
    ensures es[k].recLen <= BLOCK_SIZE
  {
    OffsetGrows(es, 0, 0, k);
    OffsetGrows(es, 0, k, |es|);
  }

  lemma RoomIsSlack(e: Dirent, needed: nat)
    requires e.recLen <= BLOCK_SIZE && !IsShort(e)
    ensures HasSlack(e, needed) <==> e.recLen >= MinRecLen(e) + needed
  {
  }

  /** Then the search finds such a record, if it does not stop at a short one before. */
  lemma PlaceIsFound(es: seq<Dirent>, needed: nat)
    requires Tiles(es) && !Clobbers(es, needed)
    ensures Makes(es, needed) <==> HasPlace(es, needed)
    ensures Makes(es, needed) ==> es[FirstFit(es, needed)].recLen >= MinRecLen(es[FirstFit(es, needed)]) + needed
  {
    var k := FirstFit(es, needed);
    if HasPlace(es, needed) {
      var j :| 0 <= j < |es| && es[j].recLen >= MinRecLen(es[j]) + needed;
      RecordInBlock(es, j);
      RoomIsSlack(es[j], needed);
    }
    if Makes(es, needed) {
      RecordInBlock(es, k);
      RoomIsSlack(es[k], needed);
    }
  }

  /** One operation: an insertion fails only when no entry has enough slack, a deletion only when the name
      is not there; an operation that succeeds does to the map what it is for. */
  lemma {:induction false} AppliedIs(es: seq<Dirent>, op: BlockOp)
    requires Tiles(es) && DistinctNames(es) && Proper(View(es), es, op)
    ensures Tiles(Applied(es, op)) && DistinctNames(Applied(es, op))
    ensures View(Applied(es, op)) == if Succeeds(es, op) then MapApplied(View(es), op) else View(es)
    ensures op.Delete? ==> (Succeeds(es, op) <==> op.name in View(es))
    ensures op.Insert? ==> (Succeeds(es, op) <==> HasPlace(es, TotalEntryLength(|op.name|)))
  {
    match op
    case Insert(inode, name, fileType) =>
      PlaceIsFound(es, TotalEntryLength(|name|));
      if Makes(es, TotalEntryLength(|name|)) {
        InsertIs(es, FirstFit(es, TotalEntryLength(|name|)), inode, name, fileType);
      }
    case Delete(name) =>
      LookupView(es, name);
      if FirstNamed(es, name) < |es| {
        DeleteIs(es, name);
      }
  }

  // ---------------------------------------------------------------- sequences

  /** The entries after some operations. */
  function AllApplied(es: seq<Dirent>, ops: seq<BlockOp>): seq<Dirent> {
    if ops == [] then es else Applied(AllApplied(es, ops[..|ops| - 1]), ops[|ops| - 1])
  }

  /** The map after those that have succeeded. */
  function MapAllApplied(m: Bindings, es: seq<Dirent>, ops: seq<BlockOp>): Bindings {
    if ops == [] then m
    else
      var init, op := ops[..|ops| - 1], ops[|ops| - 1];
      var m1 := MapAllApplied(m, es, init);
      if Succeeds(AllApplied(es, init), op) then MapApplied(m1, op) else m1
  }

  /** Every operation is proper for the map as it then is. */
  predicate AllProper(m: Bindings, es: seq<Dirent>, ops: seq<BlockOp>) {
    ops == [] ||
      (AllProper(m, es, ops[..|ops| - 1]) && Proper(MapAllApplied(m, es, ops[..|ops| - 1]),
                                                    AllApplied(es, ops[..|ops| - 1]), ops[|ops| - 1]))
  }

  /** After any sequence of operations the entries tile the block, no name is there twice, and the block
      means the map that the successful operations make of the one before. */
  lemma {:induction false} BlockRefinesMap(es: seq<Dirent>, ops: seq<BlockOp>)
    requires Tiles(es) && DistinctNames(es) && AllProper(View(es), es, ops)
    ensures Tiles(AllApplied(es, ops)) && DistinctNames(AllApplied(es, ops))
    ensures View(AllApplied(es, ops)) == MapAllApplied(View(es), es, ops)
  {
    if ops != [] {
      BlockRefinesMap(es, ops[..|ops| - 1]);
      AppliedIs(AllApplied(es, ops[..|ops| - 1]), ops[|ops| - 1]);
    }
  }

  // ---------------------------------------------------------------- without short records

  lemma InsertedRoomy(es: seq<Dirent>, k: nat, inode: int, name: Name, fileType: Byte)
    requires Roomy(es) && k < |es| && es[k].recLen >= MinRecLen(es[k]) + TotalEntryLength(|name|)
    ensures Roomy(Inserted(es, k, inode, name, fileType))
  {
    var es' := Inserted(es, k, inode, name, fileType);
    forall i | 0 <= i < |es'| ensures !IsShort(es'[i]) {
      assert i != k && i != k + 1 ==> !IsShort(es[if i < k then i else i - 1]);
    }
  }

  lemma DeletedRoomy(es: seq<Dirent>, k: nat)
    requires Roomy(es) && k < |es|
    ensures Roomy(Deleted(es, k))
  {
    var es' := Deleted(es, k);
    forall i | 0 <= i < |es'| ensures !IsShort(es'[i]) {
      assert !IsShort(es[if i < k || k == 0 then i else i + 1]);
    }
  }

  /** Where no record is short, no insertion writes over a record, and none becomes short. */
  lemma {:induction false} RoomyKept(es: seq<Dirent>, op: BlockOp)
    requires Tiles(es) && Roomy(es)
    ensures Roomy(Applied(es, op)) && (op.Insert? ==> !Clobbers(es, TotalEntryLength(|op.name|)))
  {
    match op
    case Insert(inode, name, fileType) =>
      var needed := TotalEntryLength(|name|);
      var k := FirstFit(es, needed);
      assert k < |es| ==> !IsShort(es[k]);
      PlaceIsFound(es, needed);
      if k < |es| {
        InsertedRoomy(es, k, inode, name, fileType);
      }
    case Delete(name) =>
      if FirstNamed(es, name) < |es| {
        DeletedRoomy(es, FirstNamed(es, name));
      }
  }

  predicate AllFit(m: Bindings, es: seq<Dirent>, ops: seq<BlockOp>) {
    ops == [] || (AllFit(m, es, ops[..|ops| - 1]) && Fit(MapAllApplied(m, es, ops[..|ops| - 1]), ops[|ops| - 1]))
  }

  /** A block that starts without short records never has one, so that every sequence of operations on it
      is proper. */
  lemma {:induction false} RoomyRuns(es: seq<Dirent>, ops: seq<BlockOp>)
    requires Tiles(es) && DistinctNames(es) && Roomy(es) && AllFit(View(es), es, ops)
    ensures AllProper(View(es), es, ops) && Roomy(AllApplied(es, ops))
  {
    if ops != [] {
      var init := ops[..|ops| - 1];
      RoomyRuns(es, init);
      BlockRefinesMap(es, init);
      RoomyKept(AllApplied(es, init), ops[|ops| - 1]);
    }
  }
}
