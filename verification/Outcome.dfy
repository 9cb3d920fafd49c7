/** What the simulator reports for a trace, and what that says about the policies. */
module Outcomes {
  import opened Paging
  import opened PageTables
  import opened Machines
  import opened Policies
  import opened Replays
  import opened Competitive
  import opened PolicyRuns
  import opened SwapSpaces
  import opened Writebacks
  import Belady
  import Recency
  import SecondChance

  // ---------------------------------------------------------------- one access

  /** One access of the simulator: its run goes on, and the address it finds is the one that flat memory holds. */
  lemma {:induction false} AccessStep(alg: Algorithm, k: nat, plan: seq<Page>, swapsize: nat, h: History, a: Access,
                                      t: Passage, g: nat, m': Machine, h': History)
    requires Ok(alg, k, plan, h, t.m, t.pol) && SwapOk(swapsize, plan, h, t.m) && WrittenBack(h, t.m)
    requires h.i < |plan| && a.Page() == plan[h.i] < PAGES && !Lost(t.m, plan[h.i])
    requires IsTranslation(alg, plan, Queue(h), h.n, a, t)
    requires g == Marked(Served(t.m1, t.f, a), a).ptes[a.Page()].frame
    requires Sized(t.m3) && g < |t.m3.physmem| && m' == Bumped(t.m3, g, a) && h' == Next(alg, h, a, t.m, m')
    ensures Ok(alg, k, plan, h', m', t.pol3) && SwapOk(swapsize, plan, h', m') && WrittenBack(h', m')
  {
    TranslationIsTransition(alg, plan, Queue(h), h.n, a, t, g);
    SimStep(alg, k, plan, h, a, t.(m3 := m'));
    SwapStep(alg, plan, swapsize, h, a, t.(m3 := m'), h');
    WritebackStep(alg, plan, h, a, t.(m3 := m'), h');
  }

  /** The address found is the one that flat memory holds. */
  lemma {:induction false} AddressFound(alg: Algorithm, plan: seq<Page>, q: seq<SecondChance.Slot>, n: nat, a: Access,
                                        t: Passage, g: nat,
                                        flat': map<Page, Content>, n': nat)
    requires IsTranslation(alg, plan, q, n, a, t)
    requires g == Marked(Served(t.m1, t.f, a), a).ptes[a.Page()].frame
    requires Sized(t.m3) && g < |t.m3.physmem| && Inv(Bumped(t.m3, g, a), flat', n')
    ensures t.m3.ptes[a.Page()].frame == g
    ensures a.Page() in flat' && t.m3.physmem[g].vaddr == flat'[a.Page()].vaddr
  {
    var m2 := CountedRef(Marked(Served(t.m1, t.f, a), a));
    ReferenceMarks(alg, plan, m2, t.pol1, a.Page(), t.m3, t.pol3);
    assert PageOk(Bumped(t.m3, g, a), flat', a.Page());
  }

  // ---------------------------------------------------------------- the start

  const START := History(0, [{}], [[]], map[], 0, [])

  lemma InitialMachine(m: Machine, k: nat, swapsize: nat, plan: seq<Page>)
    requires IsInitial(m, k, swapsize)
    ensures |m.coremap| == k && Mapped(m) && Evictions(m) == 0 && SwapOk(swapsize, plan, START, m)
    ensures WrittenBack(START, m)
  {
    forall f | 0 <= f < k ensures m.coremap[f] == Frame(false, 0, 0) {
    }
    forall p | 0 <= p < PAGES ensures m.ptes[p] == UNTOUCHED {
    }
    assert Swapped(m) == {} && LostPages(m) == {};
  }

  lemma InitialPolicyOk(alg: Algorithm, k: nat, plan: seq<Page>, m: Machine, pol: Policy)
    requires 0 < k == |m.coremap| && Mapped(m) && Evictions(m) == 0 && pol == InitialPolicy(k)
    requires alg.Lru? ==> |plan| <= TIMESTAMPS
    ensures PolicyOk(alg, plan, START.rs, START.qs, 0, m, 0, pol) && RunSoFar(alg, k, plan, START.rs, START.qs, 0)
  {
  }

  /** Before the first reference. */
  lemma {:induction false} InitialOk(alg: Algorithm, k: nat, swapsize: nat, plan: seq<Page>, m: Machine, pol: Policy)
    requires 0 < k && IsInitial(m, k, swapsize) && (alg.Lru? ==> |plan| <= TIMESTAMPS)
    requires pol == InitialPolicy(k)
    ensures Ok(alg, k, plan, START, m, pol) && SwapOk(swapsize, plan, START, m) && WrittenBack(START, m)
  {
    InitialInv(m, k, swapsize);
    InitialMachine(m, k, swapsize, plan);
    InitialPolicyOk(alg, k, plan, m, pol);
  }

  // ---------------------------------------------------------------- outcomes

  /** The counters printed at the end, and how often the check in access_mem complained; or
      the number of references served when a page could not be brought back from swap. */
  datatype Outcome = Completed(counters: Counters, mismatches: nat) | Aborted(served: nat)

  /** rs is the run of the abstract policy with k frames over the first i references of plan. */
  ghost predicate RunTo(alg: Algorithm, k: nat, plan: seq<Page>, rs: seq<set<Page>>, i: nat) {
    exists qs :: RunSoFar(alg, k, plan, rs, qs, i)
  }

  /** Reference i is the first one to a page that has been lost. */
  ghost predicate MissedFirst(swapsize: nat, plan: seq<Page>, rs: seq<set<Page>>, i: nat)
    requires i < |plan| && i < |rs|
  {
    NoneMissed(swapsize, plan, rs, i) && plan[i] in PagesLost(swapsize, rs, i)
  }

  /** The misses and the evictions of the run, of pages that swap does not have as they are and of others. */
  ghost predicate CountsOf(log: seq<Access>, rs: seq<set<Page>>, c: Counters) {
    && |rs| == |log| + 1 && c.misses == Misses(PagesOf(log), rs)
    && c.dirty == DirtyEvictions(log, rs, |log|) && c.clean == CleanEvictions(log, rs, |log|)
  }

  /** What the simulator may report for a trace: it gives up exactly at the first reference of the policy's run
      to a page that was evicted when no slot of the swap file was left for it; if there is none it runs to
      the end, and its counters are those of the run. */
  ghost predicate IsOutcome(alg: Algorithm, k: nat, swapsize: nat, log: seq<Access>, out: Outcome) {
    match out
    case Completed(c, mismatches) =>
      && (exists rs :: RunTo(alg, k, PagesOf(log), rs, |log|) && NoneMissed(swapsize, PagesOf(log), rs, |log|)
                       && CountsOf(log, rs, c))
      && c.refs == |log| && c.hits + c.misses == c.refs
      && c.clean + c.dirty == (if c.misses <= k then 0 else c.misses - k)
      && mismatches == Mismatches(log, |log|)
    case Aborted(served) =>
      && served < |log|
      && exists rs :: RunTo(alg, k, PagesOf(log), rs, served) && MissedFirst(swapsize, PagesOf(log), rs, served)
  }

  lemma RunOfRunTo(alg: Algorithm, k: nat, plan: seq<Page>, rs: seq<set<Page>>)
    requires RunTo(alg, k, plan, rs, |plan|)
    ensures RunOf(alg, k, plan, rs)
  {
    var qs :| RunSoFar(alg, k, plan, rs, qs, |plan|);
    PolicyRun(alg, k, plan, rs, qs);
  }

  /** The run of the policy behind a completed outcome. */
  lemma OutcomeRun(alg: Algorithm, k: nat, swapsize: nat, log: seq<Access>, out: Outcome) returns (rs: seq<set<Page>>)
    requires IsOutcome(alg, k, swapsize, log, out) && out.Completed?
    ensures RunOf(alg, k, PagesOf(log), rs) && out.counters.misses == Misses(PagesOf(log), rs)
    ensures RunTo(alg, k, PagesOf(log), rs, |log|) && NoneMissed(swapsize, PagesOf(log), rs, |log|)
            && CountsOf(log, rs, out.counters)
  {
    rs :| RunTo(alg, k, PagesOf(log), rs, |log|) && NoneMissed(swapsize, PagesOf(log), rs, |log|)
          && CountsOf(log, rs, out.counters);
    RunOfRunTo(alg, k, PagesOf(log), rs);
  }

  /** At the end of the trace, the history of the run gives the outcome. */
  lemma {:induction false} RunIsOutcome(alg: Algorithm, k: nat, swapsize: nat, log: seq<Access>, rs: seq<set<Page>>,
                                        m: Machine, n: nat)
    requires 0 < k && RunTo(alg, k, PagesOf(log), rs, |log|) && NoneMissed(swapsize, PagesOf(log), rs, |log|)
    requires Counted(m, n) && |rs[|log|]| == n
    requires m.counters.refs == |log| && CountsOf(log, rs, m.counters)
    ensures IsOutcome(alg, k, swapsize, log, Completed(m.counters, Mismatches(log, |log|)))
  {
    RunOfRunTo(alg, k, PagesOf(log), rs);
    ResidentCount(k, PagesOf(log), rs, |log|);
  }

  lemma {:induction false} CompletedIsOutcome(alg: Algorithm, k: nat, swapsize: nat, log: seq<Access>, h: History,
                                              m: Machine, pol: Policy)
    requires Ok(alg, k, PagesOf(log), h, m, pol) && SwapOk(swapsize, PagesOf(log), h, m) && h.i == |log|
    requires WrittenBack(h, m) && h.log == log
    ensures IsOutcome(alg, k, swapsize, log, Completed(m.counters, Mismatches(log, |log|)))
  {
    assert RunTo(alg, k, PagesOf(log), h.rs, |log|);
    ResidentsAreFrames(m, h.flat, h.n);
    RunIsOutcome(alg, k, swapsize, log, h.rs, m, h.n);
  }

  /** The simulator in the middle of a trace, with the number of complaints so far. */
  ghost predicate Running(alg: Algorithm, k: nat, swapsize: nat, log: seq<Access>, h: History, mismatches: nat,
                          m: Machine, pol: Policy) {
    && Ok(alg, k, PagesOf(log), h, m, pol) && SwapOk(swapsize, PagesOf(log), h, m) && WrittenBack(h, m)
    && h.i <= |log| && h.log == log[..h.i] && FlatIs(h.flat, log, h.i) && mismatches == Mismatches(log, h.i)
  }

  /** The simulator has served i lines of the trace: some history explains its state.  The condition
      says so for every u with Unfold(u): the loop of replay_trace carries it without looking inside. */
  ghost predicate AtLine(alg: Algorithm, k: nat, swapsize: nat, log: seq<Access>, i: nat, mismatches: nat, m: Machine,
                         pol: Policy) {
    forall u: nat {:trigger Unfold(u)} :: Unfold(u) ==>
      exists h: History :: h.i == i && Running(alg, k, swapsize, log, h, mismatches, m, pol)
  }

  ghost predicate Unfold(u: nat) {
    true
  }

  lemma HistoryOf(alg: Algorithm, k: nat, swapsize: nat, log: seq<Access>, i: nat, mismatches: nat, m: Machine,
                  pol: Policy)
    returns (h: History)
    requires AtLine(alg, k, swapsize, log, i, mismatches, m, pol)
    ensures h.i == i && Running(alg, k, swapsize, log, h, mismatches, m, pol)
  {
    assert Unfold(0);
    h :| h.i == i && Running(alg, k, swapsize, log, h, mismatches, m, pol);
  }

  /** One access further. */
  lemma {:induction false} RunningStep(alg: Algorithm, k: nat, swapsize: nat, log: seq<Access>, h: History,
                                       mismatches: nat,
                        h': History, m': Machine, pol': Policy, matches: bool)
    requires h.i < |log| && h.log == log[..h.i] && FlatIs(h.flat, log, h.i) && mismatches == Mismatches(log, h.i)
    requires Ok(alg, k, PagesOf(log), h', m', pol') && SwapOk(swapsize, PagesOf(log), h', m') && WrittenBack(h', m')
    requires h'.i == h.i + 1 && h'.flat == FlatStep(h.flat, log[h.i]) && h'.log == h.log + [log[h.i]]
    requires matches == (h'.flat[log[h.i].Page()].vaddr == log[h.i].vaddr)
    ensures AtLine(alg, k, swapsize, log, h'.i, if matches then mismatches else mismatches + 1, m', pol')
  {
    MatchesFollow(log, h, h', mismatches, matches);
    NowAtLine(alg, k, swapsize, log, h', if matches then mismatches else mismatches + 1, m', pol');
  }

  lemma LogRead(log: seq<Access>, i: nat)
    requires i < |log|
    ensures log[..i] + [log[i]] == log[..i + 1]
  {
  }

  /** The same, seen from flat memory and the count of complaints. */
  lemma MatchesFollow(log: seq<Access>, h: History, h': History, mismatches: nat, matches: bool)
    requires h.i < |log| && FlatIs(h.flat, log, h.i) && mismatches == Mismatches(log, h.i) && h.log == log[..h.i]
    requires h'.i == h.i + 1 && h'.flat == FlatStep(h.flat, log[h.i]) && h'.log == h.log + [log[h.i]]
    requires matches == (h'.flat[log[h.i].Page()].vaddr == log[h.i].vaddr)
    ensures FlatIs(h'.flat, log, h'.i) && h'.log == log[..h'.i]
    ensures Mismatches(log, h'.i) == if matches then mismatches else mismatches + 1
  {
    FlatFollows(h.flat, log, h.i);
    LogRead(log, h.i);
  }

  lemma NowAtLine(alg: Algorithm, k: nat, swapsize: nat, log: seq<Access>, h: History, mismatches: nat, m: Machine,
                  pol: Policy)
    requires Ok(alg, k, PagesOf(log), h, m, pol) && SwapOk(swapsize, PagesOf(log), h, m) && WrittenBack(h, m)
    requires h.i <= |log| && h.log == log[..h.i] && FlatIs(h.flat, log, h.i) && mismatches == Mismatches(log, h.i)
    ensures AtLine(alg, k, swapsize, log, h.i, mismatches, m, pol)
  {
    assert Running(alg, k, swapsize, log, h, mismatches, m, pol);
  }

  lemma AtStart(alg: Algorithm, k: nat, swapsize: nat, log: seq<Access>, m: Machine, pol: Policy)
    requires Ok(alg, k, PagesOf(log), START, m, pol) && SwapOk(swapsize, PagesOf(log), START, m)
             && WrittenBack(START, m)
    ensures AtLine(alg, k, swapsize, log, 0, 0, m, pol)
  {
    NowAtLine(alg, k, swapsize, log, START, 0, m, pol);
  }

  /** Before the first line. */
  lemma {:induction false} AtFirstLine(alg: Algorithm, k: nat, swapsize: nat, log: seq<Access>, m: Machine, pol: Policy)
    requires 0 < k && IsInitial(m, k, swapsize) && (alg.Lru? ==> |log| <= TIMESTAMPS)
    requires pol == InitialPolicy(k)
    ensures AtLine(alg, k, swapsize, log, 0, 0, m, pol)
  {
    InitialOk(alg, k, swapsize, PagesOf(log), m, pol);
    AtStart(alg, k, swapsize, log, m, pol);
  }

  /** An access that is refused is the first one to a page that has been lost. */
  lemma {:induction false} AbortedIsOutcome(alg: Algorithm, k: nat, swapsize: nat, log: seq<Access>, h: History,
                                            m: Machine, pol: Policy)
    requires Ok(alg, k, PagesOf(log), h, m, pol) && SwapOk(swapsize, PagesOf(log), h, m)
    requires h.i < |log| && log[h.i].Page() < PAGES && Lost(m, log[h.i].Page())
    ensures IsOutcome(alg, k, swapsize, log, Aborted(h.i))
  {
    assert RunTo(alg, k, PagesOf(log), h.rs, h.i);
    assert log[h.i].Page() in LostPages(m);
    assert MissedFirst(swapsize, PagesOf(log), h.rs, h.i);
  }

  // ---------------------------------------------------------------- what the outcomes say

  /** OPT misses least: no other policy, and no other choice of victims, misses less often with as many
      frames or fewer.  (So OPT itself never misses more often with more frames.) */
  lemma OptIsOptimal(alg: Algorithm, k: nat, h: nat, swapsize: nat, swapsize': nat, log: seq<Access>, opt: Outcome,
                     other: Outcome)
    requires 0 < k && h <= k && IsOutcome(Opt, k, swapsize, log, opt) && IsOutcome(alg, h, swapsize', log, other)
    requires opt.Completed? && other.Completed?
    ensures opt.counters.misses <= other.counters.misses
  {
    var rs := OutcomeRun(Opt, k, swapsize, log, opt);
    var os := OutcomeRun(alg, h, swapsize', log, other);
    Belady.BeladyOptimal(k, h, PagesOf(log), rs, os);
  }

  /** With more memory LRU never misses more often. */
  lemma LruGainsFromMemory(k: nat, k': nat, swapsize: nat, swapsize': nat, log: seq<Access>, less: Outcome,
                           more: Outcome)
    requires 0 < k <= k' && IsOutcome(Lru, k, swapsize, log, less) && IsOutcome(Lru, k', swapsize', log, more)
    requires less.Completed? && more.Completed?
    ensures more.counters.misses <= less.counters.misses
  {
    var rs := OutcomeRun(Lru, k, swapsize, log, less);
    var rs' := OutcomeRun(Lru, k', swapsize', log, more);
    Recency.LruMonotone(k, k', PagesOf(log), rs, rs', |log|);
  }

  /** LRU, FIFO and CLOCK with k frames against any policy with h: the ratio of their misses is at most
      k / (k - h + 1), but for a constant, and at most k when they have as many frames. */
  lemma OthersAreCompetitive(alg: Algorithm, any: Algorithm, k: nat, h: nat, swapsize: nat, swapsize': nat,
                             log: seq<Access>, out: Outcome, other: Outcome)
    requires 0 < h <= k && alg in {Lru, Fifo, Clock}
    requires IsOutcome(alg, k, swapsize, log, out) && IsOutcome(any, h, swapsize', log, other)
    requires out.Completed? && other.Completed?
    ensures (k - h + 1) * out.counters.misses <= k * other.counters.misses + k * (k - h)
    ensures h == k ==> out.counters.misses <= k * other.counters.misses
  {
    var plan := PagesOf(log);
    var rs := OutcomeRun(alg, k, swapsize, log, out);
    var os := OutcomeRun(any, h, swapsize', log, other);
    RunIsConservative(alg, k, plan, rs);
    ConservativeIsCompetitive(k, h, plan, rs, os);
    assert k * 0 == 0 && 1 * out.counters.misses == out.counters.misses;
  }

  /** When there is nothing left open about the run, there is nothing left open about where it ends: the simulator
      runs to the end exactly when no reference of the run is to a page that has been lost, and gives up
      exactly at the first one. */
  lemma {:induction false} OutcomeIsDetermined(alg: Algorithm, k: nat, swapsize: nat, log: seq<Access>,
                                               rs: seq<set<Page>>, out: Outcome)
    requires alg in {Lru, Fifo, Clock} && RunTo(alg, k, PagesOf(log), rs, |log|)
    requires IsOutcome(alg, k, swapsize, log, out)
    ensures out.Completed? <==> NoneMissed(swapsize, PagesOf(log), rs, |log|)
    ensures forall i :: 0 <= i < |log| ==> (out == Aborted(i) <==> MissedFirst(swapsize, PagesOf(log), rs, i))
  {
    var plan := PagesOf(log);
    if out.Completed? {
      CompletedRun(alg, k, swapsize, log, rs, out);
    } else {
      AbortedRun(alg, k, swapsize, log, rs, out);
    }
    forall i, j | 0 <= i < |log| && 0 <= j < |log| && MissedFirst(swapsize, plan, rs, i)
      ensures !NoneMissed(swapsize, plan, rs, |log|) && (MissedFirst(swapsize, plan, rs, j) ==> i == j)
    {
      OneFirst(swapsize, plan, rs, i, j);
    }
  }

  lemma OneFirst(swapsize: nat, plan: seq<Page>, rs: seq<set<Page>>, i: nat, j: nat)
    requires i < |plan| < |rs| && j < |plan| && MissedFirst(swapsize, plan, rs, i)
    ensures !NoneMissed(swapsize, plan, rs, |plan|) && (MissedFirst(swapsize, plan, rs, j) ==> i == j)
  {
    assert plan[i] in PagesLost(swapsize, rs, i) && (plan[j] in PagesLost(swapsize, rs, j) || i <= j || j < i);
  }

  lemma {:induction false} CompletedRun(alg: Algorithm, k: nat, swapsize: nat, log: seq<Access>, rs: seq<set<Page>>,
                                        out: Outcome)
    requires alg in {Lru, Fifo, Clock} && RunTo(alg, k, PagesOf(log), rs, |log|)
    requires IsOutcome(alg, k, swapsize, log, out) && out.Completed?
    ensures |log| < |rs| && NoneMissed(swapsize, PagesOf(log), rs, |log|)
  {
    var rs' := OutcomeRun(alg, k, swapsize, log, out);
    SameRun(alg, k, PagesOf(log), rs, |log|, rs', |log|, |log|);
    SameLost(swapsize, PagesOf(log), rs, rs', |log|);
  }

  lemma {:induction false} AbortedRun(alg: Algorithm, k: nat, swapsize: nat, log: seq<Access>, rs: seq<set<Page>>,
                                      out: Outcome)
    requires alg in {Lru, Fifo, Clock} && RunTo(alg, k, PagesOf(log), rs, |log|)
    requires IsOutcome(alg, k, swapsize, log, out) && out.Aborted?
    ensures |log| < |rs| && out.served < |log| && MissedFirst(swapsize, PagesOf(log), rs, out.served)
  {
    var plan, i := PagesOf(log), out.served;
    var rs' :| RunTo(alg, k, plan, rs', i) && MissedFirst(swapsize, plan, rs', i);
    SameRun(alg, k, plan, rs, |log|, rs', i, i);
    SameLost(swapsize, plan, rs, rs', i);
  }

  lemma SameRun(alg: Algorithm, k: nat, plan: seq<Page>, rs: seq<set<Page>>, i: nat, rs': seq<set<Page>>, i': nat,
                j: nat)
    requires alg in {Lru, Fifo, Clock} && RunTo(alg, k, plan, rs, i) && RunTo(alg, k, plan, rs', i')
    requires j <= i && j <= i'
    ensures j < |rs| && j < |rs'| && rs[..j + 1] == rs'[..j + 1]
  {
    var qs :| RunSoFar(alg, k, plan, rs, qs, i);
    var qs' :| RunSoFar(alg, k, plan, rs', qs', i');
    RunsAgree(alg, k, plan, rs, qs, i, rs', qs', i', j);
  }

  /** With as many swap slots as pages in the trace, or as many frames, the simulator always runs to the end. */
  lemma {:induction false} EnoughSwap(alg: Algorithm, k: nat, swapsize: nat, log: seq<Access>, out: Outcome)
    requires IsOutcome(alg, k, swapsize, log, out)
    requires |Seen(PagesOf(log), 0, |log|)| <= swapsize || |Seen(PagesOf(log), 0, |log|)| <= k
    ensures out.Completed?
  {
    if out.Aborted? {
      var plan, i := PagesOf(log), out.served;
      var rs :| RunTo(alg, k, plan, rs, i) && MissedFirst(swapsize, plan, rs, i);
      var qs :| RunSoFar(alg, k, plan, rs, qs, i);
      LostIsEvicted(swapsize, rs, i);
      EvictedWereSeen(k, plan, rs, i);
      SubsetSize(EverEvicted(rs, i), Seen(plan, 0, i));
      SeenMonotone(plan, 0, i, |log|);
    }
  }

  /** Without that it may not: with one frame and no slot, three references to two pages in turn are one too
      many, whatever the policy. */
  lemma {:induction false} NoSlotAborts(alg: Algorithm, log: seq<Access>, out: Outcome)
    requires |log| == 3 && log[0].Page() == log[2].Page() != log[1].Page()
    requires IsOutcome(alg, 1, 0, log, out)
    ensures out == Aborted(2)
  {
    var plan := PagesOf(log);
    if out.Completed? {
      var rs := OutcomeRun(alg, 1, 0, log, out);
      OneFrame(alg, plan, rs, 3);
    } else {
      var rs :| RunTo(alg, 1, plan, rs, out.served) && MissedFirst(0, plan, rs, out.served);
      OneFrame(alg, plan, rs, out.served);
    }
  }

  /** With one frame, the page resident is the last one referenced, and without slots all others are lost. */
  lemma {:induction false} OneFrame(alg: Algorithm, plan: seq<Page>, rs: seq<set<Page>>, i: nat)
    requires |plan| == 3 && plan[0] == plan[2] != plan[1] && RunTo(alg, 1, plan, rs, i)
    ensures PagesLost(0, rs, 0) == {} && (i >= 1 ==> PagesLost(0, rs, 1) == {})
    ensures i >= 2 ==> PagesLost(0, rs, 2) == {plan[0]}
  {
    var qs :| RunSoFar(alg, 1, plan, rs, qs, i);
    assert i >= 1 ==> Step(1, rs[0], plan[0], rs[1]);
    assert i >= 2 ==> Step(1, rs[1], plan[1], rs[2]);
  }

  /** The whole report is determined, then: two runs of the simulator that complete report the same counters and
      complaints. */
  lemma {:induction false} OutcomesAgree(alg: Algorithm, k: nat, swapsize: nat, swapsize': nat, log: seq<Access>,
                                         out: Outcome, out': Outcome)
    requires alg in {Lru, Fifo, Clock} && out.Completed? && out'.Completed?
    requires IsOutcome(alg, k, swapsize, log, out) && IsOutcome(alg, k, swapsize', log, out')
    ensures out == out'
  {
    var rs := OutcomeRun(alg, k, swapsize, log, out);
    var rs' := OutcomeRun(alg, k, swapsize', log, out');
    OneRun(alg, k, PagesOf(log), rs, rs');
    SameCounters(log, rs, out.counters, out'.counters);
  }

  lemma {:induction false} OneRun(alg: Algorithm, k: nat, plan: seq<Page>, rs: seq<set<Page>>, rs': seq<set<Page>>)
    requires alg in {Lru, Fifo, Clock} && RunTo(alg, k, plan, rs, |plan|) && RunTo(alg, k, plan, rs', |plan|)
    requires |rs| == |rs'| == |plan| + 1
    ensures rs == rs'
  {
    SameRun(alg, k, plan, rs, |plan|, rs', |plan|, |plan|);
    WholeRun(rs, rs', |plan| + 1);
  }

  lemma WholeRun(rs: seq<set<Page>>, rs': seq<set<Page>>, n: nat)
    requires |rs| == |rs'| == n && rs[..n] == rs'[..n]
    ensures rs == rs'
  {
    assert rs[..n] == rs && rs'[..n] == rs';
  }

  lemma SameCounters(log: seq<Access>, rs: seq<set<Page>>, c: Counters, c': Counters)
    requires CountsOf(log, rs, c) && CountsOf(log, rs, c')
    requires c.refs == c'.refs && c.hits + c.misses == c.refs && c'.hits + c'.misses == c'.refs
    ensures c == c'
  {
  }

  // ---------------------------------------------------------------- what memory and the dirty bits hold

  /** In the middle of any run: the frame of a page in memory holds as its version how many stores and
      modifications have been made to the page, and its first address. */
  lemma {:induction false} VersionIsWrites(alg: Algorithm, k: nat, swapsize: nat, log: seq<Access>, h: History,
                                           mismatches: nat, m: Machine, pol: Policy, p: Page)
    requires Running(alg, k, swapsize, log, h, mismatches, m, pol) && p < PAGES && m.ptes[p].valid
    ensures m.ptes[p].frame < |m.physmem|
            && m.physmem[m.ptes[p].frame] == Content(|WritesTo(log, h.i, p)|, FirstAddr(log, h.i, p))
  {
    assert PageOk(m, h.flat, p);
    WritesAre(log, h.i, p);
  }

  /** And a page in memory is marked dirty exactly if it has never been evicted, or has been stored to or
      modified since it was last brought in. */
  lemma DirtyIsUnsaved(alg: Algorithm, k: nat, swapsize: nat, log: seq<Access>, h: History, mismatches: nat, m: Machine,
                       pol: Policy, p: Page)
    requires Running(alg, k, swapsize, log, h, mismatches, m, pol) && p < PAGES && m.ptes[p].valid
    ensures m.ptes[p].dirty <==> p !in EverEvicted(h.rs, h.i) || WrittenSince(log, h.rs, h.i, p)
  {
    assert EntryOk(h, m, p);
    WrittenRead(log, h.rs, h.i, p);
  }

  // ---------------------------------------------------------------- LRU, FIFO and CLOCK in the simulator

  /** Under LRU the pages in memory are, after every reference, the most recently used ones. */
  lemma LruHolds(k: nat, plan: seq<Page>, h: History, m: Machine, pol: Policy)
    requires Ok(Lru, k, plan, h, m, pol)
    ensures Residents(m) == Recency.MostRecent(k, plan, h.i)
  {
    ResidentRead(k, plan, h.rs, h.qs, h.i, h.i);
  }

  /** Under LRU, FIFO and CLOCK the count of misses goes up by k at most while at most k distinct pages
      are referenced. */
  lemma {:induction false} StretchMisses(alg: Algorithm, k: nat, plan: seq<Page>, h: History, m: Machine, pol: Policy,
                                         h': History, m': Machine, pol': Policy)
    requires alg in {Lru, Fifo, Clock} && Ok(alg, k, plan, h, m, pol) && Ok(alg, k, plan, h', m', pol')
    requires h.i <= h'.i && |Seen(plan, h.i, h'.i)| <= k
    ensures m'.counters.misses <= m.counters.misses + k
  {
    StretchRead(alg, k, plan, h'.rs, h'.qs, h'.i, h.i);
    RunsAgree(alg, k, plan, h.rs, h.qs, h.i, h'.rs, h'.qs, h'.i, h.i);
    SameMisses(plan, h.rs, h'.rs, h.i);
  }

  lemma {:induction false} SameMisses(plan: seq<Page>, rs: seq<set<Page>>, rs': seq<set<Page>>, i: nat)
    requires i <= |plan| && i < |rs| && i < |rs'| && rs[..i + 1] == rs'[..i + 1]
    ensures MissesIn(plan, rs, 0, i) == MissesIn(plan, rs', 0, i)
  {
    if i > 0 {
      assert rs[i - 1] == rs[..i + 1][i - 1] && rs'[i - 1] == rs'[..i + 1][i - 1];
      assert rs[..i] == rs[..i + 1][..i] && rs'[..i] == rs'[..i + 1][..i];
      SameMisses(plan, rs, rs', i - 1);
    }
  }

  /** On a page-aligned trace the check in access_mem never complains. */
  lemma AlignedNeverComplains(alg: Algorithm, k: nat, swapsize: nat, log: seq<Access>, out: Outcome)
    requires IsOutcome(alg, k, swapsize, log, out) && out.Completed?
    requires forall j :: 0 <= j < |log| ==> log[j].vaddr % PAGE_SIZE == 0
    ensures out.mismatches == 0
  {
    AlignedMatches(log, |log|);
  }
}