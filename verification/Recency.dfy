/** Least recently used (the policy of a2/starter/lru.c). */
module Recency {
  import opened Paging
  import opened Competitive

  /** The time before i when p was last referenced, or -1. */
  ghost function LastUse(tr: seq<Page>, i: nat, p: Page): (t: int)
    requires i <= |tr|
    ensures -1 <= t < i
    ensures t >= 0 ==> tr[t] == p
    ensures forall u :: t < u < i ==> tr[u] != p
  {
    if i == 0 then -1
    else if tr[i - 1] == p then i - 1
    else LastUse(tr, i - 1, p)
  }

  /** v is a resident page whose last use lies furthest in the past. */
  ghost predicate Oldest(tr: seq<Page>, i: nat, r: set<Page>, v: Page)
    requires i <= |tr|
  {
    v in r && forall u :: u in r ==> LastUse(tr, i, v) <= LastUse(tr, i, u)
  }

  ghost predicate LruStep(tr: seq<Page>, rs: seq<set<Page>>, i: nat)
    requires i < |tr| && i + 1 < |rs|
  {
    exists v :: Oldest(tr, i, rs[i], v) && rs[i + 1] == Swap(rs[i], v, tr[i])
  }

  /** A run of k frames in which every eviction takes the least recently used page. */
  ghost predicate LruRun(k: nat, tr: seq<Page>, rs: seq<set<Page>>) {
    && Run(k, tr, rs)
    && forall i :: 0 <= i < |tr| && tr[i] !in rs[i] && |rs[i]| >= k ==> LruStep(tr, rs, i)
  }

  /** The distinct pages referenced after the last use of p: all that are more recent than p. */
  ghost function Newer(tr: seq<Page>, i: nat, p: Page): set<Page>
    requires i <= |tr|
  {
    Seen(tr, LastUse(tr, i, p) + 1, i)
  }

  /** The k most recently used pages: those with fewer than k newer ones. */
  ghost function MostRecent(k: nat, tr: seq<Page>, i: nat): set<Page>
    requires i <= |tr|
  {
    set p | p in Seen(tr, 0, i) && |Newer(tr, i, p)| < k
  }

  lemma NewerHas(tr: seq<Page>, i: nat, p: Page, q: Page)
    requires i <= |tr|
    ensures q in Newer(tr, i, p) <==> LastUse(tr, i, p) < LastUse(tr, i, q)
    ensures p in Seen(tr, 0, i) <==> LastUse(tr, i, p) >= 0
  {
    SeenHas(tr, LastUse(tr, i, p) + 1, i, q);
    SeenHas(tr, 0, i, p);
  }

  /** Being newer is transitive, so newer pages have fewer newer ones. */
  lemma NewerNests(tr: seq<Page>, i: nat, a: Page, b: Page)
    requires i <= |tr| && LastUse(tr, i, a) < LastUse(tr, i, b)
    ensures Newer(tr, i, b) + {b} <= Newer(tr, i, a)
    ensures |Newer(tr, i, b)| < |Newer(tr, i, a)|
  {
    forall q | q in Newer(tr, i, b) + {b} ensures q in Newer(tr, i, a) {
      NewerHas(tr, i, a, q);
      NewerHas(tr, i, b, q);
    }
    NewerHas(tr, i, b, b);
    SubsetSize(Newer(tr, i, b) + {b}, Newer(tr, i, a));
  }

  /** After a reference to tr[i], that page is newest and joins the newer pages of all others. */
  lemma NewerStep(tr: seq<Page>, i: nat, q: Page)
    requires i < |tr|
    ensures Newer(tr, i + 1, q) == if q == tr[i] then {} else Newer(tr, i, q) + {tr[i]}
  {
    assert LastUse(tr, i + 1, q) == if q == tr[i] then i else LastUse(tr, i, q);
  }

  /** The most recent pages are closed under being more recent. */
  lemma MostRecentClosed(k: nat, tr: seq<Page>, i: nat, a: Page, b: Page)
    requires i <= |tr| && a in MostRecent(k, tr, i)
    requires LastUse(tr, i, a) <= LastUse(tr, i, b)
    ensures b in MostRecent(k, tr, i)
  {
    NewerHas(tr, i, a, a);
    NewerHas(tr, i, b, b);
    if LastUse(tr, i, a) < LastUse(tr, i, b) {
      NewerNests(tr, i, a, b);
    }
  }

  /** A newest page of a nonempty set. */
  lemma {:induction false} NewestOutside(k: nat, tr: seq<Page>, i: nat, s: set<Page>) returns (q: Page)
    requires i <= |tr| && s != {}
    ensures q in s && forall u :: u in s ==> LastUse(tr, i, u) <= LastUse(tr, i, q)
    decreases s
  {
    q :| q in s;
    if s != {q} {
      assert s - {q} != {};
      var r := NewestOutside(k, tr, i, s - {q});
      if LastUse(tr, i, q) < LastUse(tr, i, r) {
        q := r;
      }
    }
  }

  /** When fewer than k pages qualify, no page has been left out. */
  lemma MostRecentFew(k: nat, tr: seq<Page>, i: nat)
    requires i <= |tr| && |MostRecent(k, tr, i)| < k
    ensures MostRecent(k, tr, i) == Seen(tr, 0, i)
  {
    var outside := Seen(tr, 0, i) - MostRecent(k, tr, i);
    if outside != {} {
      var q := NewestOutside(k, tr, i, outside);
      forall r | r in Newer(tr, i, q) ensures r in MostRecent(k, tr, i) {
        NewerHas(tr, i, q, r);
        NewerHas(tr, i, r, r);
      }
      SubsetSize(Newer(tr, i, q), MostRecent(k, tr, i));
    }
  }

  /** A hit among the most recent pages only reorders them. */
  lemma MostRecentHit(k: nat, tr: seq<Page>, i: nat)
    requires i < |tr| && tr[i] in MostRecent(k, tr, i)
    ensures MostRecent(k, tr, i + 1) == MostRecent(k, tr, i)
  {
    forall q ensures q in MostRecent(k, tr, i + 1) <==> q in MostRecent(k, tr, i) {
      NewerStep(tr, i, q);
      NewerHas(tr, i, q, tr[i]);
      if q != tr[i] && tr[i] in Newer(tr, i, q) {
        assert Newer(tr, i, q) + {tr[i]} == Newer(tr, i, q);
      } else if q != tr[i] {
        SubsetSize(Newer(tr, i, q), Newer(tr, i, q) + {tr[i]});
        NewerHas(tr, i, q, q);
        NewerHas(tr, i, tr[i], tr[i]);
        if LastUse(tr, i, tr[i]) < LastUse(tr, i, q) {
          NewerNests(tr, i, tr[i], q);
        }
      }
    }
  }

  /** A miss while fewer than k pages have been seen adds one. */
  lemma MostRecentFill(k: nat, tr: seq<Page>, i: nat)
    requires i < |tr| && tr[i] !in MostRecent(k, tr, i) && |MostRecent(k, tr, i)| < k
    ensures MostRecent(k, tr, i + 1) == MostRecent(k, tr, i) + {tr[i]}
  {
    MostRecentFew(k, tr, i);
    forall q ensures q in MostRecent(k, tr, i + 1) <==> q in MostRecent(k, tr, i) + {tr[i]} {
      NewerStep(tr, i, q);
      if q in Seen(tr, 0, i) {
        NewerHas(tr, i, q, q);
        forall r | r in Newer(tr, i, q) ensures r in Seen(tr, 0, i) {
          NewerHas(tr, i, q, r);
          NewerHas(tr, i, r, r);
        }
        SubsetSize(Newer(tr, i, q) + {q}, Seen(tr, 0, i));
      }
    }
  }

  /** A miss with k pages resident drops exactly the oldest of them. */
  lemma MostRecentEvict(k: nat, tr: seq<Page>, i: nat, v: Page)
    requires i < |tr| && tr[i] !in MostRecent(k, tr, i) && |MostRecent(k, tr, i)| == k
    requires Oldest(tr, i, MostRecent(k, tr, i), v)
    ensures MostRecent(k, tr, i + 1) == Swap(MostRecent(k, tr, i), v, tr[i])
  {
    var r, p := MostRecent(k, tr, i), tr[i];
    if p in Newer(tr, i, v) {
      NewerHas(tr, i, v, p);
      MostRecentClosed(k, tr, i, v, p);
    }
    forall q | q in r - {v} ensures q in Newer(tr, i, v) && |Newer(tr, i, q)| < |Newer(tr, i, v)| {
      NewerHas(tr, i, v, q);
      NewerHas(tr, i, v, v);
      NewerHas(tr, i, q, q);
      assert LastUse(tr, i, v) <= LastUse(tr, i, q);
      assert LastUse(tr, i, v) != LastUse(tr, i, q);
      NewerNests(tr, i, v, q);
    }
    SubsetSize(r - {v}, Newer(tr, i, v));
    forall q ensures q in MostRecent(k, tr, i + 1) <==> q in Swap(r, v, p) {
      NewerStep(tr, i, q);
      SubsetSize(Newer(tr, i, q), Newer(tr, i, q) + {p});
    }
  }

  /** Under LRU the resident pages are the k most recently used ones, after every prefix of the trace. */
  lemma {:induction false} LruResident(k: nat, tr: seq<Page>, rs: seq<set<Page>>, i: nat)
    requires 0 < k && LruRun(k, tr, rs) && i <= |tr|
    ensures rs[i] == MostRecent(k, tr, i)
  {
    if i == 0 {
      assert Seen(tr, 0, 0) == {};
    } else {
      LruResident(k, tr, rs, i - 1);
      RunBounds(k, tr, rs, i - 1);
      RunStep(k, tr, rs, i);
      if tr[i - 1] in rs[i - 1] {
        MostRecentHit(k, tr, i - 1);
      } else if |rs[i - 1]| < k {
        MostRecentFill(k, tr, i - 1);
      } else {
        assert LruStep(tr, rs, i - 1);
        var v :| Oldest(tr, i - 1, rs[i - 1], v) && rs[i] == Swap(rs[i - 1], v, tr[i - 1]);
        MostRecentEvict(k, tr, i - 1, v);
      }
    }
  }

  /** The stack property: the resident pages are as many as fit of the pages seen, and each of
      them was used more recently than every page seen that is not resident. */
  lemma LruStack(k: nat, tr: seq<Page>, rs: seq<set<Page>>, i: nat)
    requires 0 < k && LruRun(k, tr, rs) && i <= |tr|
    ensures rs[i] <= Seen(tr, 0, i)
    ensures |rs[i]| == if |Seen(tr, 0, i)| < k then |Seen(tr, 0, i)| else k
    ensures forall a, b :: a in rs[i] && b in Seen(tr, 0, i) - rs[i] ==> LastUse(tr, i, b) < LastUse(tr, i, a)
  {
    LruResident(k, tr, rs, i);
    RunBounds(k, tr, rs, i);
    SubsetSize(rs[i], Seen(tr, 0, i));
    if |rs[i]| < k {
      MostRecentFew(k, tr, i);
    }
    forall a, b | a in rs[i] && b in Seen(tr, 0, i) - rs[i]
      ensures LastUse(tr, i, b) < LastUse(tr, i, a)
    {
      if LastUse(tr, i, a) <= LastUse(tr, i, b) {
        MostRecentClosed(k, tr, i, a, b);
      }
    }
  }

  /** Inclusion: more memory keeps every page that less memory keeps. */
  lemma LruInclusion(k: nat, k': nat, tr: seq<Page>, rs: seq<set<Page>>, rs': seq<set<Page>>, i: nat)
    requires 0 < k <= k' && LruRun(k, tr, rs) && LruRun(k', tr, rs') && i <= |tr|
    ensures rs[i] <= rs'[i]
  {
    LruResident(k, tr, rs, i);
    LruResident(k', tr, rs', i);
  }

  /** No Belady anomaly: LRU never misses more often when memory grows. */
  lemma {:induction false} LruMonotone(k: nat, k': nat, tr: seq<Page>, rs: seq<set<Page>>, rs': seq<set<Page>>, j: nat)
    requires 0 < k <= k' && LruRun(k, tr, rs) && LruRun(k', tr, rs') && j <= |tr|
    ensures MissesIn(tr, rs', 0, j) <= MissesIn(tr, rs, 0, j)
  {
    if j > 0 {
      LruMonotone(k, k', tr, rs, rs', j - 1);
      LruInclusion(k, k', tr, rs, rs', j - 1);
    }
  }

  lemma SmallerSet(a: set<Page>, p: Page, b: set<Page>)
    requires a + {p} <= b && p !in a
    ensures |a| < |b|
  {
    SubsetSize(a + {p}, b);
  }

  /** The pages newer than one used in a stretch were used there too. */
  lemma FewNewer(tr: seq<Page>, i: nat, j: nat, p: Page)
    requires i <= j <= |tr| && p in Seen(tr, i, j)
    ensures |Newer(tr, j, p)| < |Seen(tr, i, j)|
  {
    SeenHas(tr, i, j, p);
    var t :| i <= t < j && tr[t] == p;
    SeenSplit(tr, i, LastUse(tr, j, p) + 1, j);
    NewerHas(tr, j, p, p);
    SmallerSet(Newer(tr, j, p), p, Seen(tr, i, j));
  }

  /** A page used in a stretch with at most k distinct pages stays resident to its end. */
  lemma {:induction false} LruKeeps(k: nat, tr: seq<Page>, rs: seq<set<Page>>, i: nat, j: nat)
    requires 0 < k && LruRun(k, tr, rs) && i <= j <= |tr| && |Seen(tr, i, j)| <= k
    ensures Keeps(tr, rs, i, j)
  {
    LruResident(k, tr, rs, j);
    SeenSplit(tr, 0, i, j);
    forall p | p in Seen(tr, i, j) ensures p in rs[j] {
      FewNewer(tr, i, j, p);
    }
  }

  lemma LruConservative(k: nat, tr: seq<Page>, rs: seq<set<Page>>)
    requires 0 < k && LruRun(k, tr, rs)
    ensures Conservative(k, tr, rs)
  {
    forall i, j | 0 <= i <= j <= |tr| && |Seen(tr, i, j)| <= k ensures Keeps(tr, rs, i, j) {
      LruKeeps(k, tr, rs, i, j);
    }
    KeepsIsConservative(k, tr, rs);
  }
}
