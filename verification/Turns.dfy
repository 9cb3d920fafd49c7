/** Going round a ring of k places: x steps from place 0 lead to place x % k. */
module Turns {
  function Turn(x: nat, k: nat): (r: nat)
    requires 0 < k
    ensures r < k
  {
    if x < k then x else Turn(x - k, k)
  }

  lemma MulNext(k: nat, a: nat)
    ensures k * (a + 1) == k * a + k
  {
  }

  lemma {:induction false} MulOrder(k: nat, a: nat, b: nat)
    requires a < b
    ensures k * a + k <= k * b
    decreases b
  {
    MulNext(k, b - 1);
    if a < b - 1 {
      MulOrder(k, a, b - 1);
    }
  }

  /** Quotient and remainder are unique. */
  lemma DivUnique(k: nat, q: nat, r: nat, q': nat, r': nat)
    requires r < k && r' < k && k * q + r == k * q' + r'
    ensures r == r'
  {
    if q < q' {
      MulOrder(k, q, q');
    } else if q' < q {
      MulOrder(k, q', q);
    }
  }

  lemma Division(x: nat, k: nat) returns (q: nat, r: nat)
    requires 0 < k
    ensures x == k * q + r && r < k && r == x % k
  {
    q, r := x / k, x % k;
  }

  lemma ModOnce(x: nat, k: nat)
    requires 0 < k <= x
    ensures (x - k) % k == x % k
  {
    var q, r := Division(x, k);
    var q', r' := Division(x - k, k);
    MulNext(k, q');
    DivUnique(k, q, r, q' + 1, r');
  }

  lemma ModSmall(x: nat, k: nat)
    requires x < k
    ensures x % k == x
  {
    var q, r := Division(x, k);
    DivUnique(k, q, r, 0, x);
  }

  lemma {:induction false} TurnIsMod(x: nat, k: nat)
    requires 0 < k
    ensures Turn(x, k) == x % k
  {
    if x < k {
      ModSmall(x, k);
    } else {
      TurnIsMod(x - k, k);
      ModOnce(x, k);
    }
  }

  /** Steps add up. */
  lemma {:induction false} TurnOn(x: nat, j: nat, k: nat)
    requires 0 < k
    ensures Turn(Turn(x, k) + j, k) == Turn(x + j, k)
  {
    if x >= k {
      TurnOn(x - k, j, k);
    }
  }

  /** Starting from the place after f, the k places come in the same order, with f itself last. */
  lemma TurnNext(f: nat, j: nat, k: nat)
    requires f < k && j < k
    ensures Turn(Turn(f + 1, k) + j, k) == if j == k - 1 then f else Turn(f + (j + 1), k)
    ensures j < k - 1 ==> Turn(f + (j + 1), k) != f
  {
    TurnOn(f + 1, j, k);
    assert f + 1 + j == f + (j + 1);
    if j == k - 1 {
      assert f + (j + 1) == f + k;
    }
  }
}
