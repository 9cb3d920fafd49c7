/** Second chance: first in, first out, except that a page referenced since the arm last
    passed it goes to the back of the queue instead of out (the policy of a2/starter/clock.c). */
module SecondChance {
  import opened Paging
  import opened Competitive
  import opened Turns

  /** A resident page and its reference bit. */
  datatype Slot = Slot(page: Page, ref: bool)

  ghost function Pages(q: seq<Slot>): set<Page> {
    set s | s in q :: s.page
  }

  ghost predicate DistinctPages(q: seq<Slot>) {
    forall x, y :: 0 <= x < y < |q| ==> q[x].page != q[y].page
  }

  /** The number of slots with the reference bit set. */
  ghost function Chances(q: seq<Slot>): nat {
    if q == [] then 0 else (if q[0].ref then 1 else 0) + Chances(q[1..])
  }

  /** The front slot loses its chance and goes to the back. */
  ghost function Pass(q: seq<Slot>): (r: seq<Slot>)
    requires q != []
    ensures |r| == |q| && r[|q| - 1] == q[0].(ref := false) && forall j :: 0 <= j < |q| - 1 ==> r[j] == q[j + 1]
  {
    q[1..] + [q[0].(ref := false)]
  }

  lemma {:induction false} ChancesAppend(q: seq<Slot>, s: Slot)
    ensures Chances(q + [s]) == Chances(q) + if s.ref then 1 else 0
  {
    if q == [] {
      assert q + [s] == [s];
    } else {
      assert (q + [s])[1..] == q[1..] + [s];
      ChancesAppend(q[1..], s);
    }
  }

  lemma PassUsesChance(q: seq<Slot>)
    requires q != [] && q[0].ref
    ensures Chances(Pass(q)) < Chances(q)
  {
    ChancesAppend(q[1..], q[0].(ref := false));
  }

  /** The queue once the arm has found a page without a second chance. */
  ghost function Sweep(q: seq<Slot>): (r: seq<Slot>)
    requires q != []
    ensures |r| == |q| && !r[0].ref
    decreases Chances(q)
  {
    if q[0].ref then PassUsesChance(q); Sweep(Pass(q)) else q
  }

  /** The first slot without the reference bit; |q| if all have it. */
  ghost function FirstWithout(q: seq<Slot>): (s: nat)
    ensures s <= |q|
    ensures forall x :: 0 <= x < s ==> q[x].ref
    ensures s < |q| ==> !q[s].ref
  {
    if q == [] || !q[0].ref then 0 else 1 + FirstWithout(q[1..])
  }

  ghost function Cleared(q: seq<Slot>): seq<Slot> {
    seq(|q|, x requires 0 <= x < |q| => q[x].(ref := false))
  }

  /** The arm passes the slots before the first one without the bit, clearing each, and stops
      there; when all have the bit it goes round once and stops where it started. */
  lemma SweepStops(q: seq<Slot>)
    requires q != []
    ensures Sweep(q) == q[FirstWithout(q)..] + Cleared(q[..FirstWithout(q)])
  {
    SweepFrom(q, FirstWithout(q), 0);
    assert q[0..] + Cleared(q[..0]) == q;
  }

  lemma {:induction false} SweepFrom(q: seq<Slot>, s: nat, x: nat)
    requires q != [] && s == FirstWithout(q) && x <= s
    ensures Sweep(q[x..] + Cleared(q[..x])) == q[s..] + Cleared(q[..s])
    decreases s - x
  {
    var r := q[x..] + Cleared(q[..x]);
    if x < s {
      assert r[0] == q[x];
      assert Pass(r) == q[x + 1..] + Cleared(q[..x + 1]);
      SweepFrom(q, s, x + 1);
    } else if s < |q| {
      assert r[0] == q[s];
    } else {
      assert r[0] == Cleared(q)[0];
    }
  }

  /** Going round the ring of slots from the arm on, the first n make up the queue q. */
  ghost predicate RingView(q: seq<Slot>, slots: seq<Slot>, arm: nat, n: nat) {
    && 0 < |slots| && |q| == n <= |slots|
    && forall j {:trigger q[j]} :: 0 <= j < n ==> q[j] == slots[Turn(arm + j, |slots|)]
  }

  lemma {:induction false} RingPass(q: seq<Slot>, slots: seq<Slot>, slots': seq<Slot>, arm: nat, arm': nat)
    requires arm < |slots| && RingView(q, slots, arm, |slots|)
    requires slots' == slots[arm := slots[arm].(ref := false)] && arm' == Turn(arm + 1, |slots|)
    ensures RingView(Pass(q), slots', arm', |slots|)
  {
    var r := Pass(q);
    assert |r| == |slots|;
    forall j | 0 <= j < |slots| ensures r[j] == slots'[Turn(arm' + j, |slots|)] {
      RingPassAt(q, slots, slots', arm, j);
    }
  }

  lemma RingPassAt(q: seq<Slot>, slots: seq<Slot>, slots': seq<Slot>, arm: nat, j: nat)
    requires arm < |slots| && RingView(q, slots, arm, |slots|) && j < |slots|
    requires slots' == slots[arm := slots[arm].(ref := false)]
    ensures Pass(q)[j] == slots'[Turn(Turn(arm + 1, |slots|) + j, |slots|)]
  {
    TurnNext(arm, j, |slots|);
    assert q[0] == slots[Turn(arm + 0, |slots|)];
  }

  /** The slot of p gets its reference bit. */
  ghost function Mark(q: seq<Slot>, p: Page): seq<Slot> {
    seq(|q|, x requires 0 <= x < |q| => if q[x].page == p then Slot(p, true) else q[x])
  }

  ghost function Serve(k: nat, q: seq<Slot>, p: Page): seq<Slot>
    requires 0 < k
  {
    if p in Pages(q) then Mark(q, p)
    else if |q| < k then q + [Slot(p, true)]
    else Sweep(q)[1..] + [Slot(p, true)]
  }

  /** The queues qs[0], qs[1], ... that serving tr goes through, and their pages. */
  ghost predicate Queues(k: nat, tr: seq<Page>, rs: seq<set<Page>>, qs: seq<seq<Slot>>) {
    && 0 < k
    && |rs| == |qs| == |tr| + 1
    && qs[0] == []
    && (forall i {:trigger qs[i]} :: 0 <= i <= |tr| ==> rs[i] == Pages(qs[i]))
    && forall i {:trigger tr[i]} :: 0 <= i < |tr| ==> qs[i + 1] == Serve(k, qs[i], tr[i])
  }

  /** A run of k frames whose resident pages are those of the second-chance queue. */
  ghost predicate ClockRun(k: nat, tr: seq<Page>, rs: seq<set<Page>>) {
    Run(k, tr, rs) && exists qs :: Queues(k, tr, rs, qs)
  }

  /** Where the slot of a page loaded in the current stretch stands, with seen the pages of the
      stretch: either the arm has not passed it since the load, and what lies behind it was
      passed or loaded in between; or the arm has passed it, and what lies before it has lost
      its old chances. */
  ghost predicate Safe(q: seq<Slot>, seen: set<Page>, x: nat)
    requires x < |q|
  {
    || (q[x].ref && forall y :: x < y < |q| && q[y].ref ==> q[y].page in seen)
    || ((forall y :: 0 <= y < x && q[y].ref ==> q[y].page in seen)
        && forall y :: x < y < |q| ==> q[y].page in seen)
  }

  ghost predicate AllSafe(q: seq<Slot>, loaded: set<Page>, seen: set<Page>) {
    forall x :: 0 <= x < |q| && q[x].page in loaded ==> Safe(q, seen, x)
  }

  lemma PassSafe(q: seq<Slot>, loaded: set<Page>, seen: set<Page>)
    requires q != [] && q[0].ref && DistinctPages(q)
    requires AllSafe(q, loaded, seen)
    ensures AllSafe(Pass(q), loaded, seen)
    ensures Pages(Pass(q)) == Pages(q) && DistinctPages(Pass(q))
  {
    var r, n := Pass(q), |q| - 1;
    assert r[n] == q[0].(ref := false);
    assert forall x :: 0 <= x < n ==> r[x] == q[x + 1];
    forall x | 0 <= x < |r| && r[x].page in loaded ensures Safe(r, seen, x) {
      assert Safe(q, seen, if x == n then 0 else x + 1);
    }
    forall p ensures p in Pages(r) <==> p in Pages(q) {
      if p in Pages(q) {
        var x :| 0 <= x < |q| && q[x].page == p;
        assert r[if x == 0 then n else x - 1].page == p;
      }
    }
  }

  lemma {:induction false} SweepSafe(q: seq<Slot>, loaded: set<Page>, seen: set<Page>)
    requires q != [] && DistinctPages(q) && AllSafe(q, loaded, seen)
    ensures AllSafe(Sweep(q), loaded, seen)
    ensures Pages(Sweep(q)) == Pages(q) && DistinctPages(Sweep(q))
    decreases Chances(q)
  {
    if q[0].ref {
      PassUsesChance(q);
      PassSafe(q, loaded, seen);
      SweepSafe(Pass(q), loaded, seen);
    }
  }

  lemma {:induction false} PagesCount(q: seq<Slot>)
    requires DistinctPages(q)
    ensures |Pages(q)| == |q|
  {
    if q != [] {
      var n := |q| - 1;
      PagesCount(q[..n]);
      assert q == q[..n] + [q[n]];
      assert Pages(q) == Pages(q[..n]) + {q[n].page};
    }
  }

  lemma MarkSafe(q: seq<Slot>, p: Page, loaded: set<Page>, seen: set<Page>)
    requires DistinctPages(q) && AllSafe(q, loaded, seen)
    ensures AllSafe(Mark(q, p), loaded, seen + {p})
    ensures Pages(Mark(q, p)) == Pages(q) && DistinctPages(Mark(q, p))
  {
    var r := Mark(q, p);
    forall x | 0 <= x < |r| && r[x].page in loaded ensures Safe(r, seen + {p}, x) {
      assert Safe(q, seen, x);
    }
    forall u ensures u in Pages(r) <==> u in Pages(q) {
      if u in Pages(q) {
        var x :| 0 <= x < |q| && q[x].page == u;
        assert r[x].page == u;
      }
    }
  }

  /** Loading p at the back, with the front slots gone, keeps the other slots safe. */
  lemma AppendSafe(q: seq<Slot>, from: nat, p: Page, loaded: set<Page>, seen: set<Page>)
    requires from <= |q| && DistinctPages(q) && p !in Pages(q) && AllSafe(q, loaded, seen)
    requires forall x :: 0 <= x < from ==> q[x].page !in loaded
    requires loaded <= Pages(q)
    ensures var r := q[from..] + [Slot(p, true)];
            && AllSafe(r, loaded + {p}, seen + {p})
            && DistinctPages(r) && loaded + {p} <= Pages(r)
            && Pages(r) == Pages(q[from..]) + {p}
  {
    var r := q[from..] + [Slot(p, true)];
    var n := |q| - from;
    assert forall x :: 0 <= x < n ==> r[x] == q[x + from];
    assert r[n].page == p;
    forall x | 0 <= x < |r| && r[x].page in loaded + {p} ensures Safe(r, seen + {p}, x) {
      if x < n {
        assert q[x + from].page in Pages(q);
        assert Safe(q, seen, x + from);
      }
    }
    forall u | u in loaded ensures u in Pages(r) {
      var x :| 0 <= x < |q| && q[x].page == u;
      assert r[x - from].page == u;
    }
    forall u ensures u in Pages(r) <==> u in Pages(q[from..]) + {p} {
      if u in Pages(q[from..]) {
        var x :| 0 <= x < n && q[from..][x].page == u;
        assert r[x].page == u;
      }
    }
    forall x, y | 0 <= x < y < |r| ensures r[x].page != r[y].page {
      assert q[x + from].page in Pages(q);
    }
  }

  /** A page loaded in the stretch is not the one the arm stops at: the k pages in the queue
      would all belong to the stretch, and p is one more. */
  lemma VictimIsOld(k: nat, q: seq<Slot>, p: Page, loaded: set<Page>, seen: set<Page>)
    requires q != [] && |q| == k && DistinctPages(q) && !q[0].ref && p !in Pages(q)
    requires AllSafe(q, loaded, seen) && loaded <= seen && |seen + {p}| <= k
    ensures q[0].page !in loaded
  {
    if q[0].page in loaded {
      assert Safe(q, seen, 0);
      assert Pages(q) <= seen;
      PagesCount(q);
      SubsetSize(Pages(q) + {p}, seen + {p});
    }
  }

  /** What one reference does within a stretch of at most k distinct pages. */
  lemma ServeSafe(k: nat, q: seq<Slot>, p: Page, loaded: set<Page>, seen: set<Page>)
    requires 0 < k && |q| <= k && DistinctPages(q)
    requires AllSafe(q, loaded, seen) && loaded <= seen * Pages(q) && |seen + {p}| <= k
    ensures var loaded' := if p in Pages(q) then loaded else loaded + {p};
            && AllSafe(Serve(k, q, p), loaded', seen + {p})
            && loaded' <= Pages(Serve(k, q, p))
  {
    if p in Pages(q) {
      MarkSafe(q, p, loaded, seen);
    } else if |q| < k {
      AppendSafe(q, 0, p, loaded, seen);
      assert q[0..] == q;
    } else {
      SweepSafe(q, loaded, seen);
      VictimIsOld(k, Sweep(q), p, loaded, seen);
      AppendSafe(Sweep(q), 1, p, loaded, seen);
    }
  }

  /** The queue never outgrows the memory and holds each page once. */
  lemma {:induction false} QueueShape(k: nat, tr: seq<Page>, rs: seq<set<Page>>, qs: seq<seq<Slot>>, i: nat)
    requires Queues(k, tr, rs, qs) && i <= |tr|
    ensures |qs[i]| <= k && DistinctPages(qs[i])
  {
    if i > 0 {
      QueueShape(k, tr, rs, qs, i - 1);
      ServeShape(k, qs[i - 1], tr[i - 1]);
    }
  }

  lemma ServeShape(k: nat, q: seq<Slot>, p: Page)
    requires 0 < k && |q| <= k && DistinctPages(q)
    ensures |Serve(k, q, p)| <= k && DistinctPages(Serve(k, q, p))
  {
    if p in Pages(q) {
      MarkSafe(q, p, {}, {});
    } else if |q| < k {
      AppendSafe(q, 0, p, {}, {});
      assert q[0..] == q;
    } else {
      SweepSafe(q, {}, {});
      AppendSafe(Sweep(q), 1, p, {}, {});
    }
  }

  lemma {:induction false} ClockKeeps(k: nat, tr: seq<Page>, rs: seq<set<Page>>, qs: seq<seq<Slot>>, i: nat, j: nat)
    requires Queues(k, tr, rs, qs) && i <= j <= |tr| && |Seen(tr, i, j)| <= k
    ensures AllSafe(qs[j], Loaded(tr, rs, i, j), Seen(tr, i, j))
    ensures Keeps(tr, rs, i, j)
    decreases j
  {
    if i < j {
      var h := j - 1;
      SeenMonotone(tr, i, h, j);
      ClockKeeps(k, tr, rs, qs, i, h);
      QueueShape(k, tr, rs, qs, h);
      assert qs[h + 1] == Serve(k, qs[h], tr[h]);
      assert rs[h] == Pages(qs[h]) && rs[h + 1] == Pages(qs[h + 1]);
      ServeSafe(k, qs[h], tr[h], Loaded(tr, rs, i, h), Seen(tr, i, h));
    }
  }

  lemma ClockConservative(k: nat, tr: seq<Page>, rs: seq<set<Page>>)
    requires ClockRun(k, tr, rs)
    ensures Conservative(k, tr, rs)
  {
    var qs :| Queues(k, tr, rs, qs);
    forall i, j | 0 <= i <= j <= |tr| && |Seen(tr, i, j)| <= k ensures Keeps(tr, rs, i, j) {
      ClockKeeps(k, tr, rs, qs, i, j);
    }
    KeepsIsConservative(k, tr, rs);
  }
}
