/** Multiplication block by block (a2/starter/traceprogs/blocked.c): on blocked storage it computes
    what the plain algorithm computes on row-major storage. */
module BlockedMultiplication {
  import opened Places
  import opened Matrices
  import opened Blocks

  /** The entry of the product that blocked storage keeps at place t, counting m terms only;
      left and right are in blocked storage. */
  ghost function BlockPartial<T>(ops: Ops<T>, left: seq<T>, right: seq<T>, nb: nat, b: nat, t: nat, m: nat): T
    requires IsMatrix(left, nb, b) && IsMatrix(right, nb, b) && t < |left| && m <= Order(nb, b)
  {
    RowPlaceInverse(nb, b, t);
    Partial(ops, Unblocked(left, nb, b), Unblocked(right, nb, b), Order(nb, b), RowPlace(nb, b, t), m)
  }

  /** The entries of c from lo to hi count m terms. */
  ghost predicate Counting<T>(ops: Ops<T>, left: seq<T>, right: seq<T>, c: seq<T>, nb: nat, b: nat, lo: nat, hi: nat,
                              m: nat)
    requires IsMatrix(left, nb, b) && IsMatrix(right, nb, b) && IsMatrix(c, nb, b) && m <= Order(nb, b)
  {
    forall t :: lo <= t < hi && t < |c| ==> c[t] == BlockPartial(ops, left, right, nb, b, t, m)
  }

  /** The address of an entry in its block, as the code computes it. */
  lemma BlockAddress(nb: nat, b: nat, ib: nat, jb: nat, i: nat, j: nat)
    ensures InBlocks(nb, b, ib, jb, i, j) == InBlocks(nb, b, ib, jb, 0, 0) + i * b + j
  {
    EntryAddress(Place(ib, nb, jb), b, i, j);
    EntryAddress(Place(ib, nb, jb), b, 0, 0);
  }

  lemma EntryAddress(block: nat, b: nat, i: nat, j: nat)
    ensures Place(Place(block, b, i), b, j) == block * (b * b) + i * b + j
  {
    PlaceIs(block, b, i);
    PlaceIs(block * b + i, b, j);
    Distribute(block, b, i);
  }

  lemma Distribute(x: nat, b: nat, i: nat)
    ensures (x * b + i) * b == x * (b * b) + i * b
  {
  }

  /** A + (i_bar * n_bar + j_bar) * b_sqr */
  method BlockStart(nb: nat, b: nat, ib: nat, jb: nat) returns (p: nat)
    ensures p == InBlocks(nb, b, ib, jb, 0, 0)
  {
    PlaceIs(ib, nb, jb);
    EntryAddress(Place(ib, nb, jb), b, 0, 0);
    p := (ib * nb + jb) * (b * b);
  }

  /** A block lies within the matrix. */
  lemma BlockInRange(nb: nat, b: nat, ib: nat, jb: nat)
    requires ib < nb && jb < nb && 0 < b
    ensures InBlocks(nb, b, ib, jb, b, 0) <= Square(Order(nb, b))
    ensures InBlocks(nb, b, ib, jb, b, 0) == InBlocks(nb, b, ib, jb, 0, 0) + b * b
  {
    EntryPlaces(nb, b, ib, jb, b - 1, b - 1);
    BlockCursor(nb, b, ib, jb, b - 1, b - 1);
    BlockAddress(nb, b, ib, jb, b, 0);
  }

  /** The places of a block lie between those of its first entry and of the next block. */
  lemma {:induction false} PlacesInOrder(nb: nat, b: nat, ib: nat, jb: nat, i: nat, j: nat)
    requires i < b && j < b
    ensures InBlocks(nb, b, ib, jb, 0, 0) <= InBlocks(nb, b, ib, jb, i, j) < InBlocks(nb, b, ib, jb, b, 0)
  {
    var row := Place(Place(ib, nb, jb), b, i);
    TimesGrow(Place(Place(ib, nb, jb), b, 0), row, b);
    TimesGrow(row + 1, Place(Place(ib, nb, jb), b, b), b);
  }

  /** No terms yet. */
  lemma NoTerms<T>(ops: Ops<T>, left: seq<T>, right: seq<T>, nb: nat, b: nat, t: nat)
    requires IsMatrix(left, nb, b) && IsMatrix(right, nb, b) && t < |left|
    ensures BlockPartial(ops, left, right, nb, b, t, 0) == ops.zero
  {
    RowPlaceInverse(nb, b, t);
  }

  /** The next term of an entry is the product of two entries of the blocks at hand. */
  lemma NextTerm<T>(ops: Ops<T>, left: seq<T>, right: seq<T>, nb: nat, b: nat, ib: nat, jb: nat, kb: nat, i: nat,
                    j: nat, k: nat)
    requires IsMatrix(left, nb, b) && IsMatrix(right, nb, b)
    requires ib < nb && jb < nb && kb < nb && i < b && j < b && k < b
    ensures InBlocks(nb, b, ib, kb, i, k) < |left| && InBlocks(nb, b, kb, jb, k, j) < |right|
    ensures Place(kb, b, k) < Order(nb, b) && InBlocks(nb, b, ib, jb, i, j) < |left|
    ensures Place(kb, b, k + 1) == Place(kb, b, k) + 1
    ensures BlockPartial(ops, left, right, nb, b, InBlocks(nb, b, ib, jb, i, j), Place(kb, b, k) + 1) ==
            ops.add(BlockPartial(ops, left, right, nb, b, InBlocks(nb, b, ib, jb, i, j), Place(kb, b, k)),
                    ops.mul(left[InBlocks(nb, b, ib, kb, i, k)], right[InBlocks(nb, b, kb, jb, k, j)]))
  {
    EntryPlaces(nb, b, ib, jb, i, j);
    EntryPlaces(nb, b, ib, kb, i, k);
    EntryPlaces(nb, b, kb, jb, k, j);
    PlaceInRange(kb, b, k, nb);
    PlaceInRange(jb, b, j, nb);
    PlaceInRange(ib, b, i, nb);
    PlaceInverse(Place(ib, b, i), Order(nb, b), Place(jb, b, j));
  }

  /** The current block of c is cleared; its place is returned. */
  method ZeroC<T>(ops: Ops<T>, c: array<T>, nb: nat, b: nat, ib: nat, jb: nat) returns (cp: nat)
    requires c.Length == Square(Order(nb, b)) && 0 < b && ib < nb && jb < nb
    modifies c
    ensures cp == InBlocks(nb, b, ib, jb, 0, 0)
    ensures InBlocks(nb, b, ib, jb, b, 0) <= c.Length
    ensures forall t :: cp <= t < InBlocks(nb, b, ib, jb, b, 0) ==> c[t] == ops.zero
    ensures SameOutside(c[..], old(c[..]), cp, InBlocks(nb, b, ib, jb, b, 0))
  {
    BlockInRange(nb, b, ib, jb);
    cp := BlockStart(nb, b, ib, jb);
    forall t | cp <= t < cp + b * b {
      c[t] := ops.zero;
    }
  }

  /** Outside the places from lo to hi, c is as it was. */
  ghost predicate SameOutside<T>(c: seq<T>, was: seq<T>, lo: nat, hi: nat) {
    |c| == |was| && forall t :: 0 <= t < |c| && !(lo <= t < hi) ==> c[t] == was[t]
  }

  /** The entry at place t has got its terms. */
  lemma OneCounted<T>(ops: Ops<T>, left: seq<T>, right: seq<T>, was: seq<T>, c: seq<T>, nb: nat, b: nat,
                      lo: nat, t: nat, hi: nat, m: nat, m': nat)
    requires IsMatrix(left, nb, b) && IsMatrix(right, nb, b) && IsMatrix(was, nb, b) && m <= Order(nb, b)
             && m' <= Order(nb, b)
    requires Counting(ops, left, right, was, nb, b, lo, t, m') && Counting(ops, left, right, was, nb, b, t, hi, m)
    requires lo <= t < hi && t < |was| && c == was[t := BlockPartial(ops, left, right, nb, b, t, m')]
    ensures IsMatrix(c, nb, b)
    ensures Counting(ops, left, right, c, nb, b, lo, t + 1, m') && Counting(ops, left, right, c, nb, b, t + 1, hi, m)
  {
  }

  /** The product of block (ib, kb) of left and block (kb, jb) of right is added to block (ib, jb) of c. */
  method MultAdd<T>(ops: Ops<T>, left: array<T>, right: array<T>, c: array<T>, nb: nat, b: nat,
                    cp: nat, ib: nat, jb: nat, kb: nat)
    requires IsMatrix(left[..], nb, b) && IsMatrix(right[..], nb, b) && IsMatrix(c[..], nb, b) && c != left
             && c != right
    requires 0 < b && ib < nb && jb < nb && kb < nb && cp == InBlocks(nb, b, ib, jb, 0, 0)
    requires Place(kb, b, 0) <= Order(nb, b) && Place(kb + 1, b, 0) <= Order(nb, b)
    requires Counting(ops, left[..], right[..], c[..], nb, b, cp, InBlocks(nb, b, ib, jb, b, 0), Place(kb, b, 0))
    modifies c
    ensures Counting(ops, left[..], right[..], c[..], nb, b, cp, InBlocks(nb, b, ib, jb, b, 0), Place(kb + 1, b, 0))
    ensures SameOutside(c[..], old(c[..]), cp, InBlocks(nb, b, ib, jb, b, 0))
  {
    ghost var end, m, m' := InBlocks(nb, b, ib, jb, b, 0), Place(kb, b, 0), Place(kb + 1, b, 0);
    var ap := BlockStart(nb, b, ib, kb);
    var bp := BlockStart(nb, b, kb, jb);
    for i := 0 to b
      invariant Counting(ops, left[..], right[..], c[..], nb, b, cp, InBlocks(nb, b, ib, jb, i, 0), m')
      invariant Counting(ops, left[..], right[..], c[..], nb, b, InBlocks(nb, b, ib, jb, i, 0), end, m)
      invariant SameOutside(c[..], old(c[..]), cp, end)
    {
      for j := 0 to b
        invariant Counting(ops, left[..], right[..], c[..], nb, b, cp, InBlocks(nb, b, ib, jb, i, j), m')
        invariant Counting(ops, left[..], right[..], c[..], nb, b, InBlocks(nb, b, ib, jb, i, j), end, m)
        invariant SameOutside(c[..], old(c[..]), cp, end)
      {
        ghost var was, t := c[..], InBlocks(nb, b, ib, jb, i, j);
        EntryPlaces(nb, b, ib, jb, i, j);
        PlacesInOrder(nb, b, ib, jb, i, j);
        AddTerms(ops, left, right, c, nb, b, cp, ap, bp, ib, jb, kb, i, j);
        OneCounted(ops, left[..], right[..], was, c[..], nb, b, cp, t, end, m, m');
        BlockCursor(nb, b, ib, jb, i, j);
      }
      BlockCursor(nb, b, ib, jb, i, 0);
    }
  }

  /** One entry of the block gets its next b terms. */
  method AddTerms<T>(ops: Ops<T>, left: array<T>, right: array<T>, c: array<T>, nb: nat, b: nat,
                     cp: nat, ap: nat, bp: nat, ib: nat, jb: nat, kb: nat, i: nat, j: nat)
    requires IsMatrix(left[..], nb, b) && IsMatrix(right[..], nb, b) && IsMatrix(c[..], nb, b) && c != left
             && c != right
    requires ib < nb && jb < nb && kb < nb && i < b && j < b
    requires cp == InBlocks(nb, b, ib, jb, 0, 0)
    requires ap == InBlocks(nb, b, ib, kb, 0, 0) && bp == InBlocks(nb, b, kb, jb, 0, 0)
    requires InBlocks(nb, b, ib, jb, i, j) < c.Length && Place(kb, b, 0) <= Order(nb, b)
             && Place(kb + 1, b, 0) <= Order(nb, b)
    requires c[InBlocks(nb, b, ib, jb, i, j)] ==
             BlockPartial(ops, left[..], right[..], nb, b, InBlocks(nb, b, ib, jb, i, j), Place(kb, b, 0))
    modifies c
    ensures c[..] == old(c[..])[InBlocks(nb, b, ib, jb, i, j) :=
                       BlockPartial(ops, left[..], right[..], nb, b, InBlocks(nb, b, ib, jb, i, j),
                                    Place(kb + 1, b, 0))]
  {
    BlockAddress(nb, b, ib, jb, i, j);
    for k := 0 to b
      invariant Place(kb, b, k) <= Order(nb, b)
      invariant c[InBlocks(nb, b, ib, jb, i, j)] ==
                BlockPartial(ops, left[..], right[..], nb, b, InBlocks(nb, b, ib, jb, i, j), Place(kb, b, k))
      invariant forall t :: 0 <= t < c.Length && t != InBlocks(nb, b, ib, jb, i, j) ==> c[t] == old(c[t])
    {
      BlockAddress(nb, b, ib, kb, i, k);
      BlockAddress(nb, b, kb, jb, k, j);
      NextTerm(ops, left[..], right[..], nb, b, ib, jb, kb, i, j, k);
      c[cp + i * b + j] := ops.add(c[cp + i * b + j], ops.mul(left[ap + i * b + k], right[bp + k * b + j]));
    }
  }

  /** c becomes the product, in blocked storage like the factors. */
  method BlockedMatMult<T>(ops: Ops<T>, left: array<T>, right: array<T>, c: array<T>, nb: nat, b: nat)
    requires IsMatrix(left[..], nb, b) && IsMatrix(right[..], nb, b) && IsMatrix(c[..], nb, b) && c != left
             && c != right
    requires 0 < b
    modifies c
    ensures c[..] == Blocked(Product(ops, Unblocked(left[..], nb, b), Unblocked(right[..], nb, b), Order(nb, b)), nb, b)
  {
    BlockCursor(nb, b, 0, 0, 0, 0);
    for ib := 0 to nb
      invariant Counting(ops, left[..], right[..], c[..], nb, b, 0, InBlocks(nb, b, ib, 0, 0, 0), Order(nb, b))
    {
      for jb := 0 to nb
        invariant Counting(ops, left[..], right[..], c[..], nb, b, 0, InBlocks(nb, b, ib, jb, 0, 0), Order(nb, b))
      {
        MultBlock(ops, left, right, c, nb, b, ib, jb);
        BlockCursor(nb, b, ib, jb, 0, 0);
      }
      BlockCursor(nb, b, ib, 0, 0, 0);
    }
    AllCounted(ops, left[..], right[..], c[..], nb, b);
  }

  /** One block of the product. */
  method MultBlock<T>(ops: Ops<T>, left: array<T>, right: array<T>, c: array<T>, nb: nat, b: nat, ib: nat, jb: nat)
    requires IsMatrix(left[..], nb, b) && IsMatrix(right[..], nb, b) && IsMatrix(c[..], nb, b) && c != left
             && c != right
    requires 0 < b && ib < nb && jb < nb
    requires Counting(ops, left[..], right[..], c[..], nb, b, 0, InBlocks(nb, b, ib, jb, 0, 0), Order(nb, b))
    modifies c
    ensures Counting(ops, left[..], right[..], c[..], nb, b, 0, InBlocks(nb, b, ib, jb, b, 0), Order(nb, b))
  {
    ghost var end := InBlocks(nb, b, ib, jb, b, 0);
    var cp := ZeroC(ops, c, nb, b, ib, jb);
    forall t | cp <= t < end ensures c[t] == BlockPartial(ops, left[..], right[..], nb, b, t, 0) {
      NoTerms(ops, left[..], right[..], nb, b, t);
    }
    for kb := 0 to nb
      invariant Place(kb, b, 0) <= Order(nb, b)
      invariant Counting(ops, left[..], right[..], c[..], nb, b, cp, end, Place(kb, b, 0))
      invariant SameOutside(c[..], old(c[..]), cp, end)
    {
      TimesGrow(kb + 1, nb, b);
      MultAdd(ops, left, right, c, nb, b, cp, ib, jb, kb);
    }
  }

  lemma AllCounted<T>(ops: Ops<T>, left: seq<T>, right: seq<T>, c: seq<T>, nb: nat, b: nat)
    requires IsMatrix(left, nb, b) && IsMatrix(right, nb, b) && IsMatrix(c, nb, b)
    requires Counting(ops, left, right, c, nb, b, 0, |c|, Order(nb, b))
    ensures c == Blocked(Product(ops, Unblocked(left, nb, b), Unblocked(right, nb, b), Order(nb, b)), nb, b)
  {
    var p := Product(ops, Unblocked(left, nb, b), Unblocked(right, nb, b), Order(nb, b));
    forall t | 0 <= t < |c| ensures c[t] == Blocked(p, nb, b)[t] {
      RowPlaceInverse(nb, b, t);
    }
  }

  /** The program as run with DEBUG: the factors are converted, multiplied block by block, and the
      product is converted back.  That gives what MatMult gives. */
  method BlockedProduct<T(0)>(ops: Ops<T>, left: array<T>, right: array<T>, c: array<T>, n: nat, b: nat)
    requires 0 < b && n % b == 0 && left.Length == right.Length == c.Length == n * n
    requires left != right && c != left && c != right
    modifies left, right, c
    ensures n * n == Square(n) && c[..] == Product(ops, old(left[..]), old(right[..]), n)
  {
    BlockCount(n, b);
    ToBlocked(left, n, b);
    ToBlocked(right, n, b);
    StorageRoundTrip(old(left[..]), n / b, b);
    StorageRoundTrip(old(right[..]), n / b, b);
    BlockedMatMult(ops, left, right, c, n / b, b);
    StorageRoundTrip(Product(ops, old(left[..]), old(right[..]), n), n / b, b);
    FromBlocked(c, n, b);
  }
}
