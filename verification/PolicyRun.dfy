/** The runs of the policies that a simulator can be in the middle of.

    The theorems about a policy speak of whole traces.  Except for OPT, whose choices depend on what is
    still to come, the part of a run that has been made is a run over the part of the trace that has
    been read, so they hold at every point.
 */
module PolicyRuns {
  import opened Paging
  import opened Policies
  import opened Competitive
  import Belady
  import Recency
  import LoadOrder
  import SecondChance

  /** rs is the run of the abstract policy with k frames. */
  ghost predicate RunOf(alg: Algorithm, k: nat, plan: seq<Page>, rs: seq<set<Page>>) {
    && Run(k, plan, rs)
    && match alg
       case Rand => true
       case Lru => Recency.LruRun(k, plan, rs)
       case Fifo => LoadOrder.FifoRun(k, plan, rs)
       case Clock => SecondChance.ClockRun(k, plan, rs)
       case Opt => Belady.BeladyRun(k, plan, rs)
  }

  lemma PolicyRun(alg: Algorithm, k: nat, plan: seq<Page>, rs: seq<set<Page>>, qs: seq<seq<SecondChance.Slot>>)
    requires RunSoFar(alg, k, plan, rs, qs, |plan|)
    ensures RunOf(alg, k, plan, rs)
  {
    forall j | 0 <= j < |plan| ensures Step(k, rs[j], plan[j], rs[j + 1]) && PolicyStep(alg, k, plan, rs, j) {
      assert plan[j] == plan[j];
    }
    if alg.Clock? {
      assert SecondChance.Queues(k, plan, rs, qs);
    }
  }

  // ---------------------------------------------------------------- what has been read

  lemma {:induction false} LastUsePrefix(tr: seq<Page>, i: nat, j: nat, p: Page)
    requires j <= i <= |tr|
    ensures Recency.LastUse(tr[..i], j, p) == Recency.LastUse(tr, j, p)
  {
    if j > 0 {
      LastUsePrefix(tr, i, j - 1, p);
    }
  }

  lemma {:induction false} SeenPrefix(tr: seq<Page>, i: nat, h: nat, j: nat)
    requires h <= j <= i <= |tr|
    ensures Seen(tr[..i], h, j) == Seen(tr, h, j)
    decreases j
  {
    if h < j {
      SeenPrefix(tr, i, h, j - 1);
    }
  }

  lemma {:induction false} LoadTimePrefix(tr: seq<Page>, rs: seq<set<Page>>, i: nat, j: nat, p: Page)
    requires j <= i <= |tr| && j <= |rs|
    ensures LoadOrder.LoadTime(tr[..i], rs, j, p) == LoadOrder.LoadTime(tr, rs, j, p)
  {
    if j > 0 {
      LoadTimePrefix(tr, rs, i, j - 1, p);
    }
  }

  lemma {:induction false} MissesRead(tr: seq<Page>, rs: seq<set<Page>>, i: nat, h: nat, j: nat)
    requires h <= j <= i <= |tr| && j <= |rs|
    ensures MissesIn(tr[..i], rs, h, j) == MissesIn(tr, rs, h, j)
    decreases j
  {
    if h < j {
      MissesRead(tr, rs, i, h, j - 1);
    }
  }

  lemma NewerPrefix(tr: seq<Page>, i: nat, j: nat, p: Page)
    requires j <= i <= |tr|
    ensures Recency.Newer(tr[..i], j, p) == Recency.Newer(tr, j, p)
  {
    LastUsePrefix(tr, i, j, p);
    SeenPrefix(tr, i, Recency.LastUse(tr, j, p) + 1, j);
  }

  lemma MostRecentPrefix(k: nat, tr: seq<Page>, i: nat, j: nat)
    requires j <= i <= |tr|
    ensures Recency.MostRecent(k, tr[..i], j) == Recency.MostRecent(k, tr, j)
  {
    SeenPrefix(tr, i, 0, j);
    forall p ensures |Recency.Newer(tr[..i], j, p)| == |Recency.Newer(tr, j, p)| {
      NewerPrefix(tr, i, j, p);
    }
  }

  lemma StepRead(alg: Algorithm, k: nat, plan: seq<Page>, rs: seq<set<Page>>, i: nat, j: nat)
    requires !alg.Opt? && j < i <= |plan| && j + 1 < |rs| && PolicyStep(alg, k, plan, rs, j)
    ensures PolicyStep(alg, k, plan[..i], rs, j)
  {
    if plan[j] !in rs[j] && |rs[j]| >= k {
      match alg
      case Rand =>
      case Clock =>
      case Lru =>
        var v :| Recency.Oldest(plan, j, rs[j], v) && rs[j + 1] == Swap(rs[j], v, plan[j]);
        forall u ensures Recency.LastUse(plan[..i], j, u) == Recency.LastUse(plan, j, u) {
          LastUsePrefix(plan, i, j, u);
        }
        assert Recency.Oldest(plan[..i], j, rs[j], v);
      case Fifo =>
        var v :| LoadOrder.LongestResident(plan, rs, j, v) && rs[j + 1] == Swap(rs[j], v, plan[j]);
        forall u ensures LoadOrder.LoadTime(plan[..i], rs, j, u) == LoadOrder.LoadTime(plan, rs, j, u) {
          LoadTimePrefix(plan, rs, i, j, u);
        }
        assert LoadOrder.LongestResident(plan[..i], rs, j, v);
    }
  }

  lemma ClockRead(k: nat, plan: seq<Page>, rs: seq<set<Page>>, qs: seq<seq<SecondChance.Slot>>, i: nat)
    requires ClockSteps(k, plan, rs, qs, i)
    ensures ClockSteps(k, plan[..i], rs, qs, i)
  {
    forall j | 0 <= j < i ensures qs[j + 1] == SecondChance.Serve(k, qs[j], plan[..i][j]) {
      assert plan[..i][j] == plan[j];
    }
  }

  /** What has been made of a run is a run over what has been read. */
  lemma RunRead(alg: Algorithm, k: nat, plan: seq<Page>, rs: seq<set<Page>>, qs: seq<seq<SecondChance.Slot>>, i: nat)
    requires !alg.Opt? && RunSoFar(alg, k, plan, rs, qs, i)
    ensures RunOf(alg, k, plan[..i], rs)
  {
    var read := plan[..i];
    forall j | 0 <= j < i ensures Step(k, rs[j], read[j], rs[j + 1]) && PolicyStep(alg, k, read, rs, j) {
      assert read[j] == plan[j];
      StepRead(alg, k, plan, rs, i, j);
    }
    if alg.Clock? {
      ClockRead(k, plan, rs, qs, i);
    }
    PolicyRun(alg, k, read, rs, qs);
  }

  /** LRU: at every point the k most recently used pages are resident. */
  lemma ResidentRead(k: nat, plan: seq<Page>, rs: seq<set<Page>>, qs: seq<seq<SecondChance.Slot>>, i: nat, j: nat)
    requires RunSoFar(Lru, k, plan, rs, qs, i) && j <= i
    ensures rs[j] == Recency.MostRecent(k, plan, j)
  {
    RunRead(Lru, k, plan, rs, qs, i);
    Recency.LruResident(k, plan[..i], rs, j);
    MostRecentPrefix(k, plan, i, j);
  }

  lemma RunIsConservative(alg: Algorithm, k: nat, plan: seq<Page>, rs: seq<set<Page>>)
    requires alg in {Lru, Fifo, Clock} && 0 < k && RunOf(alg, k, plan, rs)
    ensures Conservative(k, plan, rs)
  {
    match alg {
      case Lru => Recency.LruConservative(k, plan, rs);
      case Fifo => LoadOrder.FifoConservative(k, plan, rs);
      case Clock => SecondChance.ClockConservative(k, plan, rs);
    }
  }

  /** LRU, FIFO and CLOCK: at most k misses in any stretch with at most k distinct pages. */
  lemma ConservativeRead(alg: Algorithm, k: nat, plan: seq<Page>, rs: seq<set<Page>>,
                         qs: seq<seq<SecondChance.Slot>>, i: nat, h: nat)
    requires alg in {Lru, Fifo, Clock} && RunSoFar(alg, k, plan, rs, qs, i)
    requires h <= i && |Seen(plan, h, i)| <= k
    ensures MissesIn(plan, rs, h, i) <= k
  {
    RunRead(alg, k, plan, rs, qs, i);
    RunIsConservative(alg, k, plan[..i], rs);
    SeenPrefix(plan, i, h, i);
    MissesRead(plan, rs, i, h, i);
    assert PhaseBound(k, plan[..i], rs, h, i);
  }

  /** So the number of misses goes up by k at most. */
  lemma StretchRead(alg: Algorithm, k: nat, plan: seq<Page>, rs: seq<set<Page>>, qs: seq<seq<SecondChance.Slot>>,
                    i: nat, h: nat)
    requires alg in {Lru, Fifo, Clock} && RunSoFar(alg, k, plan, rs, qs, i)
    requires h <= i && |Seen(plan, h, i)| <= k
    ensures MissesIn(plan, rs, 0, i) <= MissesIn(plan, rs, 0, h) + k
  {
    ConservativeRead(alg, k, plan, rs, qs, i, h);
    MissesRead(plan, rs, i, 0, i);
    MissesRead(plan, rs, i, 0, h);
    MissesRead(plan, rs, i, h, i);
    MissesSplit(plan[..i], rs, 0, h, i);
  }

  // ---------------------------------------------------------------- runs that are determined

  /** A resident page has been loaded. */
  lemma {:induction false} ResidentLoaded(k: nat, plan: seq<Page>, rs: seq<set<Page>>, i: nat, p: Page)
    requires i <= |plan| && i < |rs| && rs[0] == {} && p in rs[i]
    requires forall j {:trigger plan[j]} :: 0 <= j < i ==> Step(k, rs[j], plan[j], rs[j + 1])
    ensures LoadOrder.LoadTime(plan, rs, i, p) >= 0
  {
    if i > 0 {
      var j := i - 1;
      assert Step(k, rs[j], plan[j], rs[j + 1]);
      if p in rs[j] {
        ResidentLoaded(k, plan, rs, j, p);
      }
    }
  }

  lemma SameLoadTime(plan: seq<Page>, rs: seq<set<Page>>, rs': seq<set<Page>>, j: nat, p: Page)
    requires j <= |plan| && j < |rs| && j < |rs'| && rs[..j + 1] == rs'[..j + 1]
    ensures LoadOrder.LoadTime(plan, rs, j, p) == LoadOrder.LoadTime(plan, rs', j, p)
  {
    LoadOrder.LoadTimePrefix(plan, rs[..j + 1], rs, j, p);
    LoadOrder.LoadTimePrefix(plan, rs'[..j + 1], rs', j, p);
  }

  /** Two resident pages cannot both have been there longest. */
  lemma OneLongest(k: nat, plan: seq<Page>, rs: seq<set<Page>>, j: nat, v: Page, u: Page)
    requires j <= |plan| && j < |rs| && rs[0] == {}
    requires forall i {:trigger plan[i]} :: 0 <= i < j ==> Step(k, rs[i], plan[i], rs[i + 1])
    requires LoadOrder.LongestResident(plan, rs, j, v) && LoadOrder.LongestResident(plan, rs, j, u)
    ensures v == u
  {
    ResidentLoaded(k, plan, rs, j, v);
    assert LoadOrder.LoadTime(plan, rs, j, v) == LoadOrder.LoadTime(plan, rs, j, u);
  }

  /** What FIFO evicts is determined by the run so far. */
  lemma {:induction false} SameFifoStep(k: nat, plan: seq<Page>, rs: seq<set<Page>>, rs': seq<set<Page>>, j: nat)
    requires j < |plan| && j + 1 < |rs| && j + 1 < |rs'| && rs[..j + 1] == rs'[..j + 1] && rs[0] == {}
    requires rs[j] == rs'[j]
    requires forall i {:trigger plan[i]} :: 0 <= i < j ==> Step(k, rs[i], plan[i], rs[i + 1])
    requires LoadOrder.FifoStep(plan, rs, j) && LoadOrder.FifoStep(plan, rs', j)
    ensures rs[j + 1] == rs'[j + 1]
  {
    var v :| LoadOrder.LongestResident(plan, rs, j, v) && rs[j + 1] == Swap(rs[j], v, plan[j]);
    var u :| LoadOrder.LongestResident(plan, rs', j, u) && rs'[j + 1] == Swap(rs'[j], u, plan[j]);
    forall w ensures LoadOrder.LoadTime(plan, rs, j, w) == LoadOrder.LoadTime(plan, rs', j, w) {
      SameLoadTime(plan, rs, rs', j, w);
    }
    assert LoadOrder.LongestResident(plan, rs, j, u);
    OneLongest(k, plan, rs, j, v, u);
  }

  lemma SameClockStep(k: nat, plan: seq<Page>, rs: seq<set<Page>>, qs: seq<seq<SecondChance.Slot>>, i: nat,
                      rs': seq<set<Page>>, qs': seq<seq<SecondChance.Slot>>, i': nat, j: nat)
    requires ClockSteps(k, plan, rs, qs, i) && ClockSteps(k, plan, rs', qs', i') && j < i && j < i' && qs[j] == qs'[j]
    ensures qs[j + 1] == qs'[j + 1] && rs[j + 1] == rs'[j + 1]
  {
    assert qs[j + 1] == SecondChance.Serve(k, qs[j], plan[j]);
    assert qs'[j + 1] == SecondChance.Serve(k, qs'[j], plan[j]);
  }

  lemma RunStarts(alg: Algorithm, k: nat, plan: seq<Page>, rs: seq<set<Page>>, qs: seq<seq<SecondChance.Slot>>, i: nat)
    requires RunSoFar(alg, k, plan, rs, qs, i)
    ensures rs[0] == {}
    ensures forall j {:trigger plan[j]} :: 0 <= j < i ==> Step(k, rs[j], plan[j], rs[j + 1])
  {
  }

  lemma StepThen(alg: Algorithm, k: nat, plan: seq<Page>, rs: seq<set<Page>>, qs: seq<seq<SecondChance.Slot>>, i: nat,
                 j: nat)
    requires RunSoFar(alg, k, plan, rs, qs, i) && j < i
    ensures Step(k, rs[j], plan[j], rs[j + 1]) && PolicyStep(alg, k, plan, rs, j)
  {
  }

  lemma FirstQueue(k: nat, plan: seq<Page>, rs: seq<set<Page>>, qs: seq<seq<SecondChance.Slot>>, i: nat)
    requires ClockSteps(k, plan, rs, qs, i)
    ensures qs[0] == []
  {
  }

  lemma {:induction false} SameFifo(k: nat, plan: seq<Page>, rs: seq<set<Page>>, qs: seq<seq<SecondChance.Slot>>,
                                    i: nat,
                                    rs': seq<set<Page>>, qs': seq<seq<SecondChance.Slot>>, i': nat, h: nat)
    requires RunSoFar(Fifo, k, plan, rs, qs, i) && RunSoFar(Fifo, k, plan, rs', qs', i')
    requires h < i && h < i' && rs[..h + 1] == rs'[..h + 1]
    ensures rs[h + 1] == rs'[h + 1]
  {
    assert rs[h] == rs[..h + 1][h] && rs'[h] == rs'[..h + 1][h];
    StepThen(Fifo, k, plan, rs, qs, i, h);
    StepThen(Fifo, k, plan, rs', qs', i', h);
    if plan[h] !in rs[h] && |rs[h]| >= k {
      RunStarts(Fifo, k, plan, rs, qs, i);
      SameFifoStep(k, plan, rs, rs', h);
    }
  }

  lemma {:induction false} SameLru(k: nat, plan: seq<Page>, rs: seq<set<Page>>, qs: seq<seq<SecondChance.Slot>>,
                                   i: nat,
                                   rs': seq<set<Page>>, qs': seq<seq<SecondChance.Slot>>, i': nat, j: nat)
    requires RunSoFar(Lru, k, plan, rs, qs, i) && RunSoFar(Lru, k, plan, rs', qs', i') && j <= i && j <= i'
    ensures rs[j] == rs'[j]
  {
    ResidentRead(k, plan, rs, qs, i, j);
    ResidentRead(k, plan, rs', qs', i', j);
  }

  lemma {:induction false} SameClock(k: nat, plan: seq<Page>, rs: seq<set<Page>>, qs: seq<seq<SecondChance.Slot>>,
                                     i: nat,
                                     rs': seq<set<Page>>, qs': seq<seq<SecondChance.Slot>>, i': nat, j: nat)
    requires RunSoFar(Clock, k, plan, rs, qs, i) && RunSoFar(Clock, k, plan, rs', qs', i') && j < i && j < i'
    requires qs[j] == qs'[j]
    ensures qs[j + 1] == qs'[j + 1] && rs[j + 1] == rs'[j + 1]
  {
    SameClockStep(k, plan, rs, qs, i, rs', qs', i', j);
  }

  lemma {:induction false} SameStep(alg: Algorithm, k: nat, plan: seq<Page>,
                                    rs: seq<set<Page>>, qs: seq<seq<SecondChance.Slot>>, i: nat,
                                    rs': seq<set<Page>>, qs': seq<seq<SecondChance.Slot>>, i': nat, h: nat)
    requires alg in {Lru, Fifo, Clock} && RunSoFar(alg, k, plan, rs, qs, i) && RunSoFar(alg, k, plan, rs', qs', i')
    requires h < i && h < i' && rs[..h + 1] == rs'[..h + 1] && (alg.Clock? ==> qs[h] == qs'[h])
    ensures rs[h + 1] == rs'[h + 1] && (alg.Clock? ==> qs[h + 1] == qs'[h + 1])
  {
    match alg
    case Lru => SameLru(k, plan, rs, qs, i, rs', qs', i', h + 1);
    case Clock => SameClock(k, plan, rs, qs, i, rs', qs', i', h);
    case Fifo => SameFifo(k, plan, rs, qs, i, rs', qs', i', h);
  }

  /** The runs of LRU, FIFO and CLOCK are determined by the trace. */
  lemma {:induction false} RunsAgree(alg: Algorithm, k: nat, plan: seq<Page>,
                                     rs: seq<set<Page>>, qs: seq<seq<SecondChance.Slot>>, i: nat,
                                     rs': seq<set<Page>>, qs': seq<seq<SecondChance.Slot>>, i': nat, j: nat)
    requires alg in {Lru, Fifo, Clock} && RunSoFar(alg, k, plan, rs, qs, i) && RunSoFar(alg, k, plan, rs', qs', i')
    requires j <= i && j <= i'
    ensures rs[..j + 1] == rs'[..j + 1] && (alg.Clock? ==> qs[j] == qs'[j])
  {
    if j > 0 {
      RunsAgree(alg, k, plan, rs, qs, i, rs', qs', i', j - 1);
      SameStep(alg, k, plan, rs, qs, i, rs', qs', i', j - 1);
      assert rs[..j + 1] == rs[..j] + [rs[j]] && rs'[..j + 1] == rs'[..j] + [rs'[j]];
    } else if alg.Clock? {
      FirstQueue(k, plan, rs, qs, i);
      FirstQueue(k, plan, rs', qs', i');
    }
  }
}
