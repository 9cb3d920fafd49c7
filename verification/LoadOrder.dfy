/** First in, first out (the policy of a2/starter/fifo.c). */
module LoadOrder {
  import opened Paging
  import opened Competitive

  /** The time before i when p was last loaded, or -1. */
  ghost function LoadTime(tr: seq<Page>, rs: seq<set<Page>>, i: nat, p: Page): (t: int)
    requires i <= |tr| && i <= |rs|
    ensures -1 <= t < i
    ensures t >= 0 ==> tr[t] == p && p !in rs[t]
    ensures forall u :: t < u < i && tr[u] == p ==> p in rs[u]
  {
    if i == 0 then -1
    else if tr[i - 1] == p && p !in rs[i - 1] then i - 1
    else LoadTime(tr, rs, i - 1, p)
  }

  /** v is a resident page that was loaded before all others. */
  ghost predicate LongestResident(tr: seq<Page>, rs: seq<set<Page>>, i: nat, v: Page)
    requires i <= |tr| && i < |rs|
  {
    v in rs[i] && forall u :: u in rs[i] ==> LoadTime(tr, rs, i, v) <= LoadTime(tr, rs, i, u)
  }

  ghost predicate FifoStep(tr: seq<Page>, rs: seq<set<Page>>, i: nat)
    requires i < |tr| && i + 1 < |rs|
  {
    exists v :: LongestResident(tr, rs, i, v) && rs[i + 1] == Swap(rs[i], v, tr[i])
  }

  /** A run of k frames in which every eviction takes the longest resident page. */
  ghost predicate FifoRun(k: nat, tr: seq<Page>, rs: seq<set<Page>>) {
    && Run(k, tr, rs)
    && forall i :: 0 <= i < |tr| && tr[i] !in rs[i] && |rs[i]| >= k ==> FifoStep(tr, rs, i)
  }

  /** Load times depend only on the run so far. */
  lemma {:induction false} LoadTimePrefix(tr: seq<Page>, rs: seq<set<Page>>, rs': seq<set<Page>>, i: nat, p: Page)
    requires i <= |tr| && i <= |rs| <= |rs'| && rs'[..|rs|] == rs
    ensures LoadTime(tr, rs', i, p) == LoadTime(tr, rs, i, p)
  {
    if i > 0 {
      assert rs'[..|rs|][i - 1] == rs[i - 1];
      LoadTimePrefix(tr, rs, rs', i - 1, p);
    }
  }

  /** The pages loaded in a stretch are those whose last load lies in it. */
  lemma {:induction false} LoadedHas(tr: seq<Page>, rs: seq<set<Page>>, i: nat, j: nat, p: Page)
    requires i <= j <= |tr| <= |rs|
    ensures p in Loaded(tr, rs, i, j) <==> LoadTime(tr, rs, j, p) >= i
    decreases j
  {
    if i < j {
      LoadedHas(tr, rs, i, j - 1, p);
    }
  }

  lemma TooMany(k: nat, r: set<Page>, p: Page, l: set<Page>, seen: set<Page>)
    requires r <= l <= seen && p in seen && p !in r && |r| >= k
    ensures |seen| > k
  {
    SubsetSize(r + {p}, seen);
  }

  /** The victim was not loaded in a stretch with at most k distinct pages: else all k resident pages were,
      and there is one page more. */
  lemma {:induction false} FifoEvicts(k: nat, tr: seq<Page>, rs: seq<set<Page>>, i: nat, m: nat)
    requires i <= m < |tr| < |rs| && Keeps(tr, rs, i, m) && FifoStep(tr, rs, m)
    requires tr[m] !in rs[m] && |rs[m]| >= k && |Seen(tr, i, m + 1)| <= k
    ensures Loaded(tr, rs, i, m) + {tr[m]} <= rs[m + 1]
  {
    var v :| LongestResident(tr, rs, m, v) && rs[m + 1] == Swap(rs[m], v, tr[m]);
    var l := Loaded(tr, rs, i, m);
    if v in l {
      LoadedHas(tr, rs, i, m, v);
      forall u | u in rs[m] ensures u in l {
        LoadedHas(tr, rs, i, m, u);
      }
      TooMany(k, rs[m], tr[m], l, Seen(tr, i, m + 1));
    }
  }

  /** A page loaded in a stretch with at most k distinct pages stays resident to its end. */
  lemma {:induction false} FifoKeeps(k: nat, tr: seq<Page>, rs: seq<set<Page>>, i: nat, j: nat)
    requires 0 < k && FifoRun(k, tr, rs) && i <= j <= |tr| && |Seen(tr, i, j)| <= k
    ensures Keeps(tr, rs, i, j)
    decreases j
  {
    if i < j {
      SeenMonotone(tr, i, j - 1, j);
      FifoKeeps(k, tr, rs, i, j - 1);
      if tr[j - 1] !in rs[j - 1] && |rs[j - 1]| >= k {
        FifoEvicts(k, tr, rs, i, j - 1);
      } else {
        RunStep(k, tr, rs, j);
      }
    }
  }

  lemma FifoConservative(k: nat, tr: seq<Page>, rs: seq<set<Page>>)
    requires 0 < k && FifoRun(k, tr, rs)
    ensures Conservative(k, tr, rs)
  {
    forall i, j | 0 <= i <= j <= |tr| && |Seen(tr, i, j)| <= k ensures Keeps(tr, rs, i, j) {
      FifoKeeps(k, tr, rs, i, j);
    }
    KeepsIsConservative(k, tr, rs);
  }
}
