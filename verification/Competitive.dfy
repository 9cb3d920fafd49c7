/** Policies that miss at most k times on k distinct pages are k-competitive. */
module Competitive {
  // A stretch of the trace with at most k distinct pages is a phase. A conservative
  // policy misses at most k times in every phase; every policy must miss once between
  // the second reference of a phase and the first reference of the next one.

  import opened Paging

  /** At most k misses in every stretch with at most k distinct pages. */
  ghost predicate Conservative(k: nat, tr: seq<Page>, rs: seq<set<Page>>)
    requires |tr| <= |rs|
  {
    forall i, j :: 0 <= i <= j <= |tr| ==> PhaseBound(k, tr, rs, i, j)
  }

  ghost predicate PhaseBound(k: nat, tr: seq<Page>, rs: seq<set<Page>>, i: nat, j: nat)
    requires i <= j <= |tr| <= |rs|
  {
    |Seen(tr, i, j)| <= k ==> MissesIn(tr, rs, i, j) <= k
  }

  /** The pages loaded while tr[i..j] is served. */
  ghost function Loaded(tr: seq<Page>, rs: seq<set<Page>>, i: nat, j: nat): (l: set<Page>)
    requires i <= j <= |tr| <= |rs|
    ensures l <= Seen(tr, i, j)
    decreases j
  {
    if i == j then {}
    else
      Loaded(tr, rs, i, j - 1) + if tr[j - 1] in rs[j - 1] then {} else {tr[j - 1]}
  }

  /** Nothing loaded in the stretch so far has left the memory again. */
  ghost predicate Keeps(tr: seq<Page>, rs: seq<set<Page>>, i: nat, j: nat)
    requires i <= j <= |tr| < |rs|
  {
    Loaded(tr, rs, i, j) <= rs[j]
  }

  /** A page that is never evicted in the stretch it was loaded in is loaded there once. */
  lemma {:induction false} LoadedOnce(tr: seq<Page>, rs: seq<set<Page>>, i: nat, j: nat)
    requires i <= j <= |tr| < |rs|
    requires forall m :: i <= m < j ==> Keeps(tr, rs, i, m)
    ensures MissesIn(tr, rs, i, j) == |Loaded(tr, rs, i, j)| <= |Seen(tr, i, j)|
    decreases j
  {
    SubsetSize(Loaded(tr, rs, i, j), Seen(tr, i, j));
    if i < j {
      LoadedOnce(tr, rs, i, j - 1);
      assert Keeps(tr, rs, i, j - 1);
    }
  }

  /** A stretch only has more distinct pages than its beginning. */
  lemma SeenMonotone(tr: seq<Page>, i: nat, m: nat, j: nat)
    requires i <= m <= j <= |tr|
    ensures Seen(tr, i, m) <= Seen(tr, i, j)
    ensures |Seen(tr, i, m)| <= |Seen(tr, i, j)|
  {
    SeenSplit(tr, i, m, j);
    SubsetSize(Seen(tr, i, m), Seen(tr, i, j));
  }

  /** Keeping what was loaded, as long as the stretch has at most k distinct pages, makes a policy conservative. */
  lemma {:induction false} KeepsIsConservative(k: nat, tr: seq<Page>, rs: seq<set<Page>>)
    requires |tr| < |rs|
    requires forall i, j :: 0 <= i <= j <= |tr| && |Seen(tr, i, j)| <= k ==> Keeps(tr, rs, i, j)
    ensures Conservative(k, tr, rs)
  {
    forall i, j | 0 <= i <= j <= |tr| && |Seen(tr, i, j)| <= k
      ensures PhaseBound(k, tr, rs, i, j)
    {
      forall m | i <= m < j ensures Keeps(tr, rs, i, m) {
        SeenMonotone(tr, i, m, j);
      }
      LoadedOnce(tr, rs, i, j);
    }
  }

  /** The end of the longest phase that starts at i, scanning from e. */
  ghost function PhaseEnd(k: nat, tr: seq<Page>, i: nat, e: nat): (end: nat)
    requires i <= e <= |tr| && |Seen(tr, i, e)| <= k
    ensures e <= end <= |tr| && |Seen(tr, i, end)| <= k
    ensures end < |tr| ==> |Seen(tr, i, end + 1)| > k
    decreases |tr| - e
  {
    if e < |tr| && |Seen(tr, i, e + 1)| <= k then PhaseEnd(k, tr, i, e + 1) else e
  }

  /** Every page seen that was not resident at the beginning (they are absent) costs a miss when it is first
      referenced, since only pages seen become resident. */
  lemma {:induction false} AbsentMiss(h: nat, tr: seq<Page>, rs: seq<set<Page>>, i: nat, j: nat)
    returns (seen: set<Page>, absent: set<Page>)
    requires Run(h, tr, rs) && i <= j <= |tr|
    ensures seen == Seen(tr, i, j) && seen <= rs[i] + absent && rs[j] <= rs[i] + seen
    ensures |absent| <= MissesIn(tr, rs, i, j)
    decreases j
  {
    if i == j {
      seen, absent := {}, {};
    } else {
      seen, absent := AbsentMiss(h, tr, rs, i, j - 1);
      RunStep(h, tr, rs, j);
      seen, absent := Absorb(h, seen, rs[i], rs[j - 1], rs[j], absent, tr[j - 1]);
    }
  }

  lemma Absorb(h: nat, seen: set<Page>, first: set<Page>, last: set<Page>, next: set<Page>, absent: set<Page>, p: Page)
    returns (seen': set<Page>, absent': set<Page>)
    requires seen <= first + absent && last <= first + seen && Step(h, last, p, next)
    ensures seen' == seen + {p} && seen' <= first + absent' && next <= first + seen'
    ensures |absent'| <= |absent| + if p in last then 0 else 1
  {
    seen' := seen + {p};
    absent' := if p in last then absent else absent + {p};
  }

  /** A set is not larger than two that cover it. */
  lemma CoverSize(a: set<Page>, b: set<Page>, c: set<Page>)
    requires a <= b + c
    ensures |a| <= |b| + |c|
  {
    SubsetSize(a, b + c);
  }

  lemma PhaseSize(k: nat, h: nat, p: Page, all: set<Page>, seen: set<Page>, first: set<Page>, absent: set<Page>)
    requires all == {p} + seen && seen <= first + absent && p in first && |first| <= h <= k < |all|
    ensures |absent| > k - h
  {
    CoverSize(all, first, absent);
  }

  /** Whatever the policy, with h frames a phase and the first reference after it cost k - h + 1 misses
      beyond the phase's first reference. */
  lemma {:induction false} PhaseCost(k: nat, h: nat, tr: seq<Page>, rs: seq<set<Page>>, i: nat, e: nat)
    requires 0 < h <= k && Run(h, tr, rs) && i < e < |tr|
    requires |Seen(tr, i, e + 1)| > k
    ensures MissesIn(tr, rs, i + 1, e + 1) > k - h
  {
    RunBounds(h, tr, rs, i + 1);
    ReferencedIsResident(h, tr, rs, i);
    SeenHead(tr, i, e + 1);
    var seen, absent := AbsentMiss(h, tr, rs, i + 1, e + 1);
    PhaseSize(k, h, tr[i], Seen(tr, i, e + 1), seen, rs[i + 1], absent);
  }

  lemma {:induction false} NextPhase(k: nat, tr: seq<Page>, rs: seq<set<Page>>, i: nat) returns (e: nat)
    requires 0 < k && i < |tr| < |rs| && Conservative(k, tr, rs)
    ensures i < e <= |tr| && MissesIn(tr, rs, i, e) <= k
    ensures e < |tr| ==> |Seen(tr, i, e + 1)| > k
  {
    assert Seen(tr, i, i + 1) == Seen(tr, i, i) + {tr[i]};
    e := PhaseEnd(k, tr, i, i + 1);
    assert PhaseBound(k, tr, rs, i, e);
  }

  /** The trace from i on splits into phases; each costs the conservative policy at most k misses, and
      each but the last costs any other policy with h frames at least c = k - h + 1. */
  lemma {:induction false} CountPhases(k: nat, h: nat, c: nat, tr: seq<Page>, rs: seq<set<Page>>,
                                       other: seq<set<Page>>, i: nat)
    returns (phases: nat)
    requires 0 < h <= k && c == k - h + 1 && i < |tr| < |rs|
    requires Conservative(k, tr, rs) && Run(h, tr, other)
    ensures MissesIn(tr, rs, i, |tr|) <= k * phases
    ensures c * phases <= MissesIn(tr, other, i + 1, |tr|) + c
    decreases |tr| - i
  {
    var e := NextPhase(k, tr, rs, i);
    if e < |tr| {
      phases := CountPhases(k, h, c, tr, rs, other, e);
      PhaseCost(k, h, tr, other, i, e);
      MissesSplit(tr, rs, i, e, |tr|);
      MissesSplit(tr, other, i + 1, e + 1, |tr|);
      OneMore(k, phases);
      OneMore(c, phases);
      phases := phases + 1;
    } else {
      phases := 1;
    }
  }

  lemma OneMore(k: nat, n: nat)
    ensures k * (n + 1) == k * n + k
  {
  }

  /** A conservative policy with k frames against any policy with h frames, on every trace: the ratio of
      their misses is at most k / (k - h + 1), but for a constant.  With as many frames for both it is at
      most k, without a constant. */
  lemma ConservativeIsCompetitive(k: nat, h: nat, tr: seq<Page>, rs: seq<set<Page>>, other: seq<set<Page>>)
    requires 0 < h <= k && |tr| < |rs|
    requires Conservative(k, tr, rs) && Run(h, tr, other)
    ensures (k - h + 1) * Misses(tr, rs) <= k * Misses(tr, other) + k * (k - h)
  {
    if tr == [] {
      assert (k - h + 1) * 0 == 0 && k * 0 == 0;
    } else {
      var c := k - h + 1;
      var phases := CountPhases(k, h, c, tr, rs, other, 0);
      MissesHead(tr, other, 0, |tr|);
      Combine(k, c, phases, Misses(tr, rs), Misses(tr, other));
    }
  }

  lemma Scale(k: nat, a: nat, b: nat)
    requires a <= b
    ensures k * a <= k * b
  {
  }

  lemma Combine(k: nat, c: nat, phases: nat, m: nat, o: nat)
    requires 0 < c && m <= k * phases && c * phases + 1 <= o + c
    ensures c * m <= k * o + k * (c - 1)
  {
    Scale(c, m, k * phases);
    assert c * (k * phases) == k * (c * phases);
    Scale(k, c * phases, o + (c - 1));
    assert k * (o + (c - 1)) == k * o + k * (c - 1);
  }
}
