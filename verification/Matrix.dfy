/** Matrix multiplication over any addition and multiplication (a2/starter/traceprogs/matmul.c). */
module Matrices {
  // Nothing is assumed of the operations, so equal products mean that the same terms are
  // added in the same order.

  import opened Places

  datatype Ops<!T> = Ops(zero: T, add: (T, T) -> T, mul: (T, T) -> T)

  /** The first m terms of row r of a times column c of b, added up from the left, starting at zero. */
  ghost function Dot<T>(ops: Ops<T>, a: seq<T>, b: seq<T>, n: nat, r: nat, c: nat, m: nat): T
    requires |a| == |b| == Square(n) && r < n && c < n && m <= n
  {
    if m == 0 then ops.zero
    else
      PlaceInRange(r, n, m - 1, n);
      PlaceInRange(m - 1, n, c, n);
      ops.add(Dot(ops, a, b, n, r, c, m - 1), ops.mul(a[Place(r, n, m - 1)], b[Place(m - 1, n, c)]))
  }

  /** The entry at place x of the product, counting its first m terms only. */
  ghost function Partial<T>(ops: Ops<T>, a: seq<T>, b: seq<T>, n: nat, x: nat, m: nat): T
    requires |a| == |b| == Square(n) && x < Square(n) && m <= n
  {
    RowAndColumn(x, n);
    Dot(ops, a, b, n, Stretch(x, n), Within(x, n), m)
  }

  lemma RowAndColumn(x: nat, n: nat)
    requires x < Square(n)
    ensures 0 < n && Stretch(x, n) < n && Within(x, n) < n
  {
    PlaceOf(x, n, n);
  }

  /** The product, row by row. */
  ghost function Product<T>(ops: Ops<T>, a: seq<T>, b: seq<T>, n: nat): (c: seq<T>)
    requires |a| == |b| == Square(n)
    ensures |c| == Square(n) && forall x :: 0 <= x < Square(n) ==> c[x] == Partial(ops, a, b, n, x, n)
  {
    seq(Square(n), x requires 0 <= x < Square(n) => Partial(ops, a, b, n, x, n))
  }

  /** The entries of c before place x are those of the product. */
  ghost predicate DoneBefore<T>(ops: Ops<T>, a: seq<T>, b: seq<T>, c: seq<T>, n: nat, x: nat)
    requires |a| == |b| == |c| == Square(n)
  {
    forall y :: 0 <= y < x && y < Square(n) ==> c[y] == Partial(ops, a, b, n, y, n)
  }

  /** The innermost loop: one entry of c, added up term by term. */
  method AddUp<T>(ops: Ops<T>, a: array<T>, b: array<T>, c: array<T>, n: nat, i: nat, j: nat)
    requires a.Length == b.Length == c.Length == n * n == Square(n) && c != a && c != b && i < n && j < n
    modifies c
    ensures 0 <= Place(i, n, j) < Square(n)
    ensures c[..] == old(c[..])[Place(i, n, j) := Partial(ops, a[..], b[..], n, Place(i, n, j), n)]
  {
    PlaceIs(i, n, j);
    PlaceInRange(i, n, j, n);
    PlaceInverse(i, n, j);
    ghost var x := Place(i, n, j);
    c[i * n + j] := ops.zero;
    for k := 0 to n
      invariant c[..] == old(c[..])[x := Partial(ops, a[..], b[..], n, x, k)]
    {
      PlaceIs(i, n, k);
      PlaceIs(k, n, j);
      PlaceInRange(i, n, k, n);
      PlaceInRange(k, n, j, n);
      c[i * n + j] := ops.add(c[i * n + j], ops.mul(a[i * n + k], b[k * n + j]));
    }
  }

  method MatMult<T>(ops: Ops<T>, a: array<T>, b: array<T>, c: array<T>, n: nat)
    requires a.Length == b.Length == c.Length == n * n && c != a && c != b
    modifies c
    ensures n * n == Square(n) && c[..] == Product(ops, a[..], b[..], n)
  {
    PlaceIs(n, n, 0);
    for i := 0 to n
      invariant DoneBefore(ops, a[..], b[..], c[..], n, Place(i, n, 0))
    {
      for j := 0 to n
        invariant DoneBefore(ops, a[..], b[..], c[..], n, Place(i, n, j))
      {
        AddUp(ops, a, b, c, n, i, j);
      }
    }
  }
}
