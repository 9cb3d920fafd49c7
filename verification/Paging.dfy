/** Demand paging, abstractly. */
module Paging {
  // A run is the sequence of resident sets rs[0], rs[1], ... that a simulator with
  // k frames goes through while it serves a sequence of page references. A page that
  // is resident is a hit and changes nothing; a missing page is loaded, into a free
  // frame when there is one, and otherwise in place of one resident page (the victim).
  // Which victim is left open: every replacement policy is a way of choosing it.

  type Page = nat

  /** The resident set after v made way for p. */
  ghost function Swap(r: set<Page>, v: Page, p: Page): set<Page> {
    r - {v} + {p}
  }

  /** One reference to p, from resident set r to resident set r'. */
  ghost predicate Step(k: nat, r: set<Page>, p: Page, r': set<Page>) {
    if p in r then r' == r
    else if |r| < k then r' == r + {p}
    else exists v {:trigger Swap(r, v, p)} :: v in r && r' == Swap(r, v, p)
  }

  ghost predicate Run(k: nat, tr: seq<Page>, rs: seq<set<Page>>) {
    && |rs| == |tr| + 1
    && rs[0] == {}
    && forall i {:trigger Step(k, rs[i], tr[i], rs[i + 1])} :: 0 <= i < |tr| ==> Step(k, rs[i], tr[i], rs[i + 1])
  }

  /** The number of references in tr[i..j] that miss. */
  ghost function MissesIn(tr: seq<Page>, rs: seq<set<Page>>, i: nat, j: nat): nat
    requires i <= j <= |tr| && j <= |rs|
    decreases j
  {
    if i == j then 0
    else MissesIn(tr, rs, i, j - 1) + if tr[j - 1] in rs[j - 1] then 0 else 1
  }

  ghost function Misses(tr: seq<Page>, rs: seq<set<Page>>): nat
    requires |tr| <= |rs|
  {
    MissesIn(tr, rs, 0, |tr|)
  }

  /** The distinct pages referenced in tr[i..j]. */
  ghost function Seen(tr: seq<Page>, i: nat, j: nat): set<Page>
    requires i <= j <= |tr|
    decreases j
  {
    if i == j then {} else Seen(tr, i, j - 1) + {tr[j - 1]}
  }

  lemma {:induction false} SeenHas(tr: seq<Page>, i: nat, j: nat, p: Page)
    requires i <= j <= |tr|
    ensures p in Seen(tr, i, j) <==> exists t :: i <= t < j && tr[t] == p
    decreases j
  {
    if i < j {
      SeenHas(tr, i, j - 1, p);
      if p in Seen(tr, i, j) && p != tr[j - 1] {
        var t :| i <= t < j - 1 && tr[t] == p;
      }
    }
  }

  lemma {:induction false} SeenSplit(tr: seq<Page>, i: nat, m: nat, j: nat)
    requires i <= m <= j <= |tr|
    ensures Seen(tr, i, j) == Seen(tr, i, m) + Seen(tr, m, j)
    decreases j
  {
    if m < j {
      SeenSplit(tr, i, m, j - 1);
    }
  }

  lemma SeenHead(tr: seq<Page>, i: nat, j: nat)
    requires i < j <= |tr|
    ensures Seen(tr, i, j) == {tr[i]} + Seen(tr, i + 1, j)
  {
    SeenSplit(tr, i, i + 1, j);
    assert Seen(tr, i, i) == {};
  }

  lemma SubsetSize(a: set<Page>, b: set<Page>)
    requires a <= b
    ensures |a| <= |b|
  {
    assert b == a + (b - a);
  }

  lemma {:induction false} MissesSplit(tr: seq<Page>, rs: seq<set<Page>>, i: nat, m: nat, j: nat)
    requires i <= m <= j <= |tr| <= |rs|
    ensures MissesIn(tr, rs, i, j) == MissesIn(tr, rs, i, m) + MissesIn(tr, rs, m, j)
    decreases j
  {
    if m < j {
      MissesSplit(tr, rs, i, m, j - 1);
    }
  }

  /** The first reference of a stretch can be counted separately. */
  lemma MissesHead(tr: seq<Page>, rs: seq<set<Page>>, i: nat, j: nat)
    requires i < j <= |tr| <= |rs|
    ensures MissesIn(tr, rs, i, j) == (if tr[i] in rs[i] then 0 else 1) + MissesIn(tr, rs, i + 1, j)
  {
    MissesSplit(tr, rs, i, i + 1, j);
    assert MissesIn(tr, rs, i, i) == 0;
  }

  /** Misses depend only on the run so far. */
  lemma {:induction false} MissesPrefix(tr: seq<Page>, rs: seq<set<Page>>, r: set<Page>, i: nat, j: nat)
    requires i <= j <= |tr| && j <= |rs|
    ensures MissesIn(tr, rs + [r], i, j) == MissesIn(tr, rs, i, j)
    decreases j
  {
    if i < j {
      MissesPrefix(tr, rs, r, i, j - 1);
    }
  }

  /** The last step of a run of length i. */
  lemma RunStep(k: nat, tr: seq<Page>, rs: seq<set<Page>>, i: nat)
    requires Run(k, tr, rs) && 0 < i <= |tr|
    ensures Step(k, rs[i - 1], tr[i - 1], rs[i])
  {
    var j := i - 1;
    assert Step(k, rs[j], tr[j], rs[j + 1]);
  }

  /** A resident set never outgrows the memory, and holds only pages already referenced. */
  lemma {:induction false} RunBounds(k: nat, tr: seq<Page>, rs: seq<set<Page>>, i: nat)
    requires 0 < k && Run(k, tr, rs) && i <= |tr|
    ensures |rs[i]| <= k
    ensures rs[i] <= Seen(tr, 0, i)
  {
    if i > 0 {
      RunBounds(k, tr, rs, i - 1);
      RunStep(k, tr, rs, i);
    }
  }

  /** The page just referenced is resident. */
  lemma ReferencedIsResident(k: nat, tr: seq<Page>, rs: seq<set<Page>>, i: nat)
    requires Run(k, tr, rs) && i < |tr|
    ensures tr[i] in rs[i + 1]
  {
    assert Step(k, rs[i], tr[i], rs[i + 1]);
  }

  /** Frames fill up one per miss and are never given back, so the number of resident
      pages is the number of misses, capped at the number of frames. */
  lemma {:induction false} ResidentCount(k: nat, tr: seq<Page>, rs: seq<set<Page>>, i: nat)
    requires 0 < k && Run(k, tr, rs) && i <= |tr|
    ensures |rs[i]| == if MissesIn(tr, rs, 0, i) <= k then MissesIn(tr, rs, 0, i) else k
  {
    if i > 0 {
      ResidentCount(k, tr, rs, i - 1);
      RunBounds(k, tr, rs, i - 1);
      RunStep(k, tr, rs, i);
    }
  }
}
