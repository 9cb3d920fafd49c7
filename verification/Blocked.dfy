/** Blocked matrix multiplication (a2/starter/traceprogs/blocked.c). */
module Blocks {
  // A matrix of order n = nb * b can be stored in blocks of order b, one after the other, each
  // row by row. Converting to that form and back loses nothing, and multiplying block by block
  // adds the same products in the same order as the plain algorithm.

  import opened Places
  // ---------------------------------------------------------------- storage

  /** nb * b: the order of a matrix of nb by nb blocks of order b. */
  function Order(nb: nat, b: nat): nat {
    Place(nb, b, 0)
  }

  /** Where blocked storage keeps entry (i, j) of block (ib, jb). */
  function InBlocks(nb: nat, b: nat, ib: nat, jb: nat, i: nat, j: nat): nat {
    Place(Place(Place(ib, nb, jb), b, i), b, j)
  }

  /** Where row-major storage keeps it. */
  function InRows(nb: nat, b: nat, ib: nat, jb: nat, i: nat, j: nat): nat {
    Place(Place(ib, b, i), Order(nb, b), Place(jb, b, j))
  }

  /** The place in row-major storage of what blocked storage keeps at place t. */
  function RowPlace(nb: nat, b: nat, t: nat): nat {
    var block := Stretch(Stretch(t, b), b);
    InRows(nb, b, Stretch(block, nb), Within(block, nb), Within(Stretch(t, b), b), Within(t, b))
  }

  /** The place in blocked storage of what row-major storage keeps at place x. */
  function BlockPlace(nb: nat, b: nat, x: nat): nat {
    var (r, c) := (Stretch(x, Order(nb, b)), Within(x, Order(nb, b)));
    InBlocks(nb, b, Stretch(r, b), Stretch(c, b), Within(r, b), Within(c, b))
  }

  /** The two formulas: blocks one after the other, row of blocks after row of blocks, and each block row by row;
      and the rows of the whole matrix one after the other. */
  lemma PlacesAre(nb: nat, b: nat, ib: nat, jb: nat, i: nat, j: nat)
    ensures InBlocks(nb, b, ib, jb, i, j) == ((ib * nb + jb) * b + i) * b + j
    ensures InRows(nb, b, ib, jb, i, j) == (ib * b + i) * (nb * b) + (jb * b + j)
  {
    PlaceIs(ib, nb, jb);
    PlaceIs(ib * nb + jb, b, i);
    PlaceIs((ib * nb + jb) * b + i, b, j);
    PlaceIs(nb, b, 0);
    PlaceIs(ib, b, i);
    PlaceIs(jb, b, j);
    PlaceIs(ib * b + i, nb * b, jb * b + j);
  }

  /** Blocked storage takes as many places as row-major storage. */
  lemma SameSize(nb: nat, b: nat)
    ensures InBlocks(nb, b, nb, 0, 0, 0) == Square(Order(nb, b))
  {
    PlaceIs(nb, b, 0);
    PlaceIs(Order(nb, b), Order(nb, b), 0);
    PlaceIs(nb, nb, 0);
    PlaceIs(nb * nb, b, 0);
    PlaceIs(nb * nb * b, b, 0);
    Regroup(nb, b);
  }

  lemma Regroup(x: nat, y: nat)
    ensures x * x * y * y == (x * y) * (x * y)
  {
  }

  /** An entry of a block has a place in each, and the two places belong together. */
  lemma EntryPlaces(nb: nat, b: nat, ib: nat, jb: nat, i: nat, j: nat)
    requires ib < nb && jb < nb && i < b && j < b
    ensures InBlocks(nb, b, ib, jb, i, j) < Square(Order(nb, b)) && InRows(nb, b, ib, jb, i, j) < Square(Order(nb, b))
    ensures RowPlace(nb, b, InBlocks(nb, b, ib, jb, i, j)) == InRows(nb, b, ib, jb, i, j)
    ensures BlockPlace(nb, b, InRows(nb, b, ib, jb, i, j)) == InBlocks(nb, b, ib, jb, i, j)
  {
    SameSize(nb, b);
    PlaceInRange(ib, nb, jb, nb);
    PlaceInRange(Place(ib, nb, jb), b, i, Place(nb, nb, 0));
    PlaceInRange(Place(Place(ib, nb, jb), b, i), b, j, Place(Place(nb, nb, 0), b, 0));
    PlaceInverse(ib, nb, jb);
    PlaceInverse(Place(ib, nb, jb), b, i);
    PlaceInverse(Place(Place(ib, nb, jb), b, i), b, j);
    PlaceInRange(ib, b, i, nb);
    PlaceInRange(jb, b, j, nb);
    PlaceInverse(ib, b, i);
    PlaceInverse(jb, b, j);
    PlaceInRange(Place(ib, b, i), Order(nb, b), Place(jb, b, j), Order(nb, b));
    PlaceInverse(Place(ib, b, i), Order(nb, b), Place(jb, b, j));
  }

  /** Each place of blocked storage belongs to an entry of a block. */
  lemma BlockedEntry(nb: nat, b: nat, t: nat) returns (ib: nat, jb: nat, i: nat, j: nat)
    requires t < Square(Order(nb, b))
    ensures ib < nb && jb < nb && i < b && j < b && t == InBlocks(nb, b, ib, jb, i, j)
  {
    SameSize(nb, b);
    PlaceOf(t, b, Place(Place(nb, nb, 0), b, 0));
    PlaceOf(Stretch(t, b), b, Place(nb, nb, 0));
    var block := Stretch(Stretch(t, b), b);
    PlaceOf(block, nb, nb);
    ib, jb, i, j := Stretch(block, nb), Within(block, nb), Within(Stretch(t, b), b), Within(t, b);
  }

  /** Each place of row-major storage belongs to an entry of a block. */
  lemma RowEntry(nb: nat, b: nat, x: nat) returns (ib: nat, jb: nat, i: nat, j: nat)
    requires x < Square(Order(nb, b))
    ensures ib < nb && jb < nb && i < b && j < b && x == InRows(nb, b, ib, jb, i, j)
  {
    PlaceOf(x, Order(nb, b), Order(nb, b));
    var (r, c) := (Stretch(x, Order(nb, b)), Within(x, Order(nb, b)));
    PlaceOf(r, b, nb);
    PlaceOf(c, b, nb);
    ib, jb, i, j := Stretch(r, b), Stretch(c, b), Within(r, b), Within(c, b);
  }

  /** The two places correspond one to one. */
  lemma RowPlaceInverse(nb: nat, b: nat, t: nat)
    requires t < Square(Order(nb, b))
    ensures RowPlace(nb, b, t) < Square(Order(nb, b)) && BlockPlace(nb, b, RowPlace(nb, b, t)) == t
  {
    var ib, jb, i, j := BlockedEntry(nb, b, t);
    EntryPlaces(nb, b, ib, jb, i, j);
  }

  lemma BlockPlaceInverse(nb: nat, b: nat, x: nat)
    requires x < Square(Order(nb, b))
    ensures BlockPlace(nb, b, x) < Square(Order(nb, b)) && RowPlace(nb, b, BlockPlace(nb, b, x)) == x
  {
    var ib, jb, i, j := RowEntry(nb, b, x);
    EntryPlaces(nb, b, ib, jb, i, j);
  }

  lemma PlacesInRange(nb: nat, b: nat)
    ensures forall x :: 0 <= x < Square(Order(nb, b)) ==> RowPlace(nb, b, x) < Square(Order(nb, b))
    ensures forall x :: 0 <= x < Square(Order(nb, b)) ==> BlockPlace(nb, b, x) < Square(Order(nb, b))
  {
    forall x | 0 <= x < Square(Order(nb, b))
      ensures RowPlace(nb, b, x) < Square(Order(nb, b)) && BlockPlace(nb, b, x) < Square(Order(nb, b))
    {
      RowPlaceInverse(nb, b, x);
      BlockPlaceInverse(nb, b, x);
    }
  }

  /** A square matrix of nb by nb blocks of order b. */
  ghost predicate IsMatrix<T>(s: seq<T>, nb: nat, b: nat) {
    |s| == Square(Order(nb, b))
  }

  /** The matrix in blocked storage. */
  ghost function Blocked<T>(s: seq<T>, nb: nat, b: nat): (t: seq<T>)
    requires IsMatrix(s, nb, b)
    ensures |t| == |s| && forall x :: 0 <= x < |s| ==> RowPlace(nb, b, x) < |s| && t[x] == s[RowPlace(nb, b, x)]
  {
    PlacesInRange(nb, b);
    seq(|s|, x requires 0 <= x < |s| => s[RowPlace(nb, b, x)])
  }

  /** The matrix back in row-major storage. */
  ghost function Unblocked<T>(s: seq<T>, nb: nat, b: nat): (t: seq<T>)
    requires IsMatrix(s, nb, b)
    ensures |t| == |s| && forall x :: 0 <= x < |s| ==> BlockPlace(nb, b, x) < |s| && t[x] == s[BlockPlace(nb, b, x)]
  {
    PlacesInRange(nb, b);
    seq(|s|, x requires 0 <= x < |s| => s[BlockPlace(nb, b, x)])
  }

  /** To blocked storage and back, and back and forth, nothing changes. */
  lemma StorageRoundTrip<T>(s: seq<T>, nb: nat, b: nat)
    requires IsMatrix(s, nb, b)
    ensures Unblocked(Blocked(s, nb, b), nb, b) == s && Blocked(Unblocked(s, nb, b), nb, b) == s
  {
    var blocked, unblocked := Blocked(s, nb, b), Unblocked(s, nb, b);
    forall x | 0 <= x < |s| ensures Unblocked(blocked, nb, b)[x] == s[x] && Blocked(unblocked, nb, b)[x] == s[x] {
      BlockPlaceInverse(nb, b, x);
      RowPlaceInverse(nb, b, x);
    }
  }

  // ---------------------------------------------------------------- running cursors

  /** Where a cursor through blocked storage stands after a row of a block, a block, a row of
      blocks, and all of them. */
  lemma BlockCursor(nb: nat, b: nat, ib: nat, jb: nat, i: nat, j: nat)
    ensures InBlocks(nb, b, ib, jb, i, j + 1) == InBlocks(nb, b, ib, jb, i, j) + 1
    ensures InBlocks(nb, b, ib, jb, i, b) == InBlocks(nb, b, ib, jb, i + 1, 0)
    ensures InBlocks(nb, b, ib, jb, b, 0) == InBlocks(nb, b, ib, jb + 1, 0, 0)
    ensures InBlocks(nb, b, ib, nb, 0, 0) == InBlocks(nb, b, ib + 1, 0, 0, 0)
    ensures InBlocks(nb, b, 0, 0, 0, 0) == 0
    ensures InBlocks(nb, b, nb, 0, 0, 0) == Square(Order(nb, b))
  {
    var block := Place(ib, nb, jb);
    SameSize(nb, b);
  }

  /** Where a cursor through row-major storage starts in a block. */
  lemma RowStart(nb: nat, b: nat, ib: nat, jb: nat)
    ensures InRows(nb, b, ib, jb, 0, 0) == ib * b * Order(nb, b) + jb * b
  {
    PlaceIs(ib, b, 0);
    PlaceIs(jb, b, 0);
    PlaceIs(ib * b, Order(nb, b), jb * b);
  }

  /** And where it stands after an entry, and after a row of the block. */
  lemma RowCursor(nb: nat, b: nat, ib: nat, jb: nat, i: nat, j: nat)
    ensures InRows(nb, b, ib, jb, i, j + 1) == InRows(nb, b, ib, jb, i, j) + 1
    ensures InRows(nb, b, ib, jb, i + 1, 0) == InRows(nb, b, ib, jb, i, b) + (Order(nb, b) - b)
  {
  }

  /** A matrix of order n has n / b blocks in a row. */
  lemma BlockCount(n: nat, b: nat)
    requires 0 < b && n % b == 0
    ensures Order(n / b, b) == n && n * n == Square(n)
  {
    PlaceIs(n / b, b, 0);
    PlaceIs(n, n, 0);
  }

  /** A + (i_bar * b * n + j_bar * b) */
  method Corner(n: nat, b: nat, ib: nat, jb: nat) returns (p: nat)
    requires 0 < b && n % b == 0
    ensures p == InRows(n / b, b, ib, jb, 0, 0)
  {
    BlockCount(n, b);
    RowStart(n / b, b, ib, jb);
    p := ib * b * n + jb * b;
  }

  ghost predicate SameBefore<T>(s: seq<T>, t: seq<T>, n: nat) {
    |s| == |t| && forall x :: 0 <= x < n && x < |s| ==> s[x] == t[x]
  }

  /** The last loop of both conversions. */
  method CopyBack<T>(t: array<T>, a: array<T>)
    requires t.Length == a.Length
    modifies a
    ensures a[..] == old(t[..])
  {
    forall x | 0 <= x < a.Length {
      a[x] := t[x];
    }
  }

  /** Converts a matrix of order n to storage in blocks of order b. */
  method ToBlocked<T(0)>(a: array<T>, n: nat, b: nat)
    requires 0 < b && n % b == 0 && a.Length == n * n
    modifies a
    ensures IsMatrix(old(a[..]), n / b, b) && a[..] == Blocked(old(a[..]), n / b, b)
  {
    BlockCount(n, b);
    var nb := n / b;
    ghost var blocked := Blocked(a[..], nb, b);
    var t := new T[n * n];
    var tp := 0;
    BlockCursor(nb, b, 0, 0, 0, 0);
    for ib := 0 to nb
      modifies t
      invariant tp == InBlocks(nb, b, ib, 0, 0, 0)
      invariant SameBefore(t[..], blocked, tp)
    {
      for jb := 0 to nb
        modifies t
        invariant tp == InBlocks(nb, b, ib, jb, 0, 0)
        invariant SameBefore(t[..], blocked, tp)
      {
        var ap := Corner(n, b, ib, jb);
        for i := 0 to b
          modifies t
          invariant tp == InBlocks(nb, b, ib, jb, i, 0) && ap == InRows(nb, b, ib, jb, i, 0)
          invariant SameBefore(t[..], blocked, tp)
        {
          for j := 0 to b
            modifies t
            invariant tp == InBlocks(nb, b, ib, jb, i, j) && ap == InRows(nb, b, ib, jb, i, j)
            invariant SameBefore(t[..], blocked, tp)
          {
            EntryPlaces(nb, b, ib, jb, i, j);
            BlockCursor(nb, b, ib, jb, i, j);
            RowCursor(nb, b, ib, jb, i, j);
            assert blocked[tp] == a[ap];
            t[tp] := a[ap];
            tp := tp + 1;
            ap := ap + 1;
          }
          BlockCursor(nb, b, ib, jb, i, 0);
          RowCursor(nb, b, ib, jb, i, 0);
          ap := ap + (n - b);
        }
        BlockCursor(nb, b, ib, jb, 0, 0);
      }
      BlockCursor(nb, b, ib, 0, 0, 0);
    }
    CopyBack(t, a);
  }

  /** The first n places of blocked storage have been put where row-major storage keeps them. */
  ghost predicate SpreadBefore<T>(t: seq<T>, c: seq<T>, nb: nat, b: nat, n: nat) {
    && |t| == |c| == Square(Order(nb, b))
    && forall x {:trigger RowPlace(nb, b, x)} :: 0 <= x < n && x < |c| ==>
         RowPlace(nb, b, x) < |t| && t[RowPlace(nb, b, x)] == c[x]
  }

  /** Writing one more entry disturbs none of those written before. */
  lemma SpreadOne<T>(t: seq<T>, c: seq<T>, nb: nat, b: nat, n: nat, x: nat)
    requires SpreadBefore(t, c, nb, b, n) && n < |c| && x == RowPlace(nb, b, n)
    ensures x < |t| && SpreadBefore(t[x := c[n]], c, nb, b, n + 1)
  {
    RowPlaceInverse(nb, b, n);
    forall y | 0 <= y < n ensures RowPlace(nb, b, y) != x {
      RowPlaceInverse(nb, b, y);
    }
  }

  /** Once all are written, the matrix is in row-major storage. */
  lemma SpreadAll<T>(t: seq<T>, c: seq<T>, nb: nat, b: nat)
    requires SpreadBefore(t, c, nb, b, |c|)
    ensures t == Unblocked(c, nb, b)
  {
    forall x | 0 <= x < |t| ensures t[x] == Unblocked(c, nb, b)[x] {
      BlockPlaceInverse(nb, b, x);
      assert t[RowPlace(nb, b, BlockPlace(nb, b, x))] == c[BlockPlace(nb, b, x)];
    }
  }

  /** The innermost loop: row i of block (ib, jb). */
  method SpreadRow<T>(t: array<T>, c: array<T>, nb: nat, b: nat, ghost ib: nat, ghost jb: nat, ghost i: nat, tp0: nat,
                      cp0: nat)
      returns (tp: nat, cp: nat)
    requires t != c && ib < nb && jb < nb && i < b
    requires cp0 == InBlocks(nb, b, ib, jb, i, 0) && tp0 == InRows(nb, b, ib, jb, i, 0)
    requires SpreadBefore(t[..], c[..], nb, b, cp0)
    modifies t
    ensures cp == InBlocks(nb, b, ib, jb, i, b) && tp == InRows(nb, b, ib, jb, i, b)
    ensures SpreadBefore(t[..], c[..], nb, b, cp)
  {
    tp, cp := tp0, cp0;
    for j := 0 to b
      invariant cp == InBlocks(nb, b, ib, jb, i, j) && tp == InRows(nb, b, ib, jb, i, j)
      invariant SpreadBefore(t[..], c[..], nb, b, cp)
    {
      EntryPlaces(nb, b, ib, jb, i, j);
      BlockCursor(nb, b, ib, jb, i, j);
      RowCursor(nb, b, ib, jb, i, j);
      SpreadOne(t[..], c[..], nb, b, cp, tp);
      ghost var t' := t[..][tp := c[cp]];
      t[tp] := c[cp];
      assert t[..] == t';
      tp := tp + 1;
      cp := cp + 1;
    }
  }

  /** Converts a matrix of order n from storage in blocks of order b. */
  method FromBlocked<T(0)>(c: array<T>, n: nat, b: nat)
    requires 0 < b && n % b == 0 && c.Length == n * n
    modifies c
    ensures IsMatrix(old(c[..]), n / b, b) && c[..] == Unblocked(old(c[..]), n / b, b)
  {
    BlockCount(n, b);
    var nb := n / b;
    var t := new T[n * n];
    var cp := 0;
    BlockCursor(nb, b, 0, 0, 0, 0);
    for ib := 0 to nb
      modifies t
      invariant cp == InBlocks(nb, b, ib, 0, 0, 0)
      invariant SpreadBefore(t[..], c[..], nb, b, cp)
    {
      for jb := 0 to nb
        modifies t
        invariant cp == InBlocks(nb, b, ib, jb, 0, 0)
        invariant SpreadBefore(t[..], c[..], nb, b, cp)
      {
        var tp := Corner(n, b, ib, jb);
        for i := 0 to b
          modifies t
          invariant cp == InBlocks(nb, b, ib, jb, i, 0) && tp == InRows(nb, b, ib, jb, i, 0)
          invariant SpreadBefore(t[..], c[..], nb, b, cp)
        {
          tp, cp := SpreadRow(t, c, nb, b, ib, jb, i, tp, cp);
          BlockCursor(nb, b, ib, jb, i, 0);
          RowCursor(nb, b, ib, jb, i, 0);
          tp := tp + (n - b);
        }
        BlockCursor(nb, b, ib, jb, 0, 0);
      }
      BlockCursor(nb, b, ib, 0, 0, 0);
    }
    SpreadAll(t[..], c[..], nb, b);
    CopyBack(t, c);
  }
}
