/** Places in nested stretches: place r of stretch q, when every stretch has b places. */
module Places {
  // Row-major and blocked storage of a matrix are both built from this one step, so that all
  // reasoning about products and remainders is here.

  /** q * b, by repeated addition */
  function Times(q: nat, b: nat): nat {
    if q == 0 then 0 else b + Times(q - 1, b)
  }

  function Place(q: nat, b: nat, r: nat): nat {
    Times(q, b) + r
  }

  /** x / b, for b > 0 */
  function Stretch(x: nat, b: nat): nat {
    if b == 0 || x < b then 0 else 1 + Stretch(x - b, b)
  }

  /** x % b, for b > 0 */
  function Within(x: nat, b: nat): nat {
    if b == 0 || x < b then x else Within(x - b, b)
  }

  lemma {:induction false} TimesIs(q: nat, b: nat)
    ensures Times(q, b) == q * b
  {
    if q > 0 {
      TimesIs(q - 1, b);
      assert q * b == (q - 1) * b + b;
    }
  }

  lemma PlaceIs(q: nat, b: nat, r: nat)
    ensures Place(q, b, r) == q * b + r
  {
    TimesIs(q, b);
  }

  lemma {:induction false} TimesGrow(q: nat, m: nat, b: nat)
    requires q <= m
    ensures Times(q, b) <= Times(m, b)
  {
    if q > 0 {
      TimesGrow(q - 1, m - 1, b);
    }
  }

  /** A place gives back its stretch and its position there. */
  lemma {:induction false} PlaceInverse(q: nat, b: nat, r: nat)
    requires r < b
    ensures Stretch(Place(q, b, r), b) == q && Within(Place(q, b, r), b) == r
  {
    if q > 0 {
      PlaceInverse(q - 1, b, r);
    }
  }

  /** m stretches have Place(m, b, 0) places. */
  lemma {:induction false} PlaceInRange(q: nat, b: nat, r: nat, m: nat)
    requires r < b && q < m
    ensures Place(q, b, r) < Place(m, b, 0)
  {
    if q > 0 {
      PlaceInRange(q - 1, b, r, m - 1);
    }
  }

  /** Every place is in a stretch. */
  lemma {:induction false} PlaceOf(x: nat, b: nat, m: nat)
    requires x < Place(m, b, 0)
    ensures Stretch(x, b) < m && Within(x, b) < b && x == Place(Stretch(x, b), b, Within(x, b))
  {
    if b == 0 {
      NoPlaces(m);
    }
    if x >= b {
      PlaceOf(x - b, b, m - 1);
    }
  }

  lemma {:induction false} NoPlaces(m: nat)
    ensures Place(m, 0, 0) == 0
  {
    if m > 0 {
      NoPlaces(m - 1);
    }
  }

  /** n * n */
  function Square(n: nat): nat {
    Place(n, n, 0)
  }
}
