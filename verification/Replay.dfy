/** Whole runs of the simulator: what replaying a trace amounts to (a2/starter/sim.c).

    A history says what has been referenced so far, which pages were resident after each reference,
    and what flat memory would hold now.  The state of the simulator agrees with its history, and
    every access takes it to a state that agrees with the history one reference on.

    The proof falls into two halves that hardly touch: the machine, which loses nothing and counts
    right, and the policy, whose choices are those of the abstract policy.
 */
module Replays {
  import opened Paging
  import opened PageTables
  import opened Machines
  import opened Policies
  import Belady
  import Recency
  import LoadOrder
  import SecondChance
  import Turns

  ghost function PagesOf(log: seq<Access>): (plan: seq<Page>)
    ensures |plan| == |log| && forall j :: 0 <= j < |log| ==> plan[j] == log[j].Page()
  {
    seq(|log|, j requires 0 <= j < |log| => log[j].Page())
  }

  // ---------------------------------------------------------------- flat memory over a trace

  /** The address of the first of the accesses log[..i] to page p, if there is one. */
  ghost function FirstAddr(log: seq<Access>, i: nat, p: Page): nat
    requires i <= |log|
  {
    if i == 0 then 0
    else if p in Seen(PagesOf(log), 0, i - 1) then FirstAddr(log, i - 1, p)
    else log[i - 1].vaddr
  }

  /** How many of the accesses log[..i] write to page p. */
  ghost function Writes(log: seq<Access>, i: nat, p: Page): nat
    requires i <= |log|
  {
    if i == 0 then 0
    else Writes(log, i - 1, p) +
         if log[i - 1].Page() == p && (log[i - 1].kind == 'S' || log[i - 1].kind == 'M') then 1 else 0
  }

  /** The same, counted as a set: the stores and the modifications among them. */
  lemma {:induction false} WritesAre(log: seq<Access>, i: nat, p: Page)
    requires i <= |log|
    ensures Writes(log, i, p) == |WritesTo(log, i, p)|
  {
    if i > 0 {
      WritesAre(log, i - 1, p);
      var before, now := WritesTo(log, i - 1, p), WritesTo(log, i, p);
      if log[i - 1].Page() == p && (log[i - 1].kind == 'S' || log[i - 1].kind == 'M') {
        assert now == before + {i - 1};
      } else {
        assert now == before;
      }
    }
  }

  ghost function WritesTo(log: seq<Access>, i: nat, p: Page): set<int>
    requires i <= |log|
  {
    set j | 0 <= j < i && log[j].Page() == p && (log[j].kind == 'S' || log[j].kind == 'M')
  }

  /** Flat memory after the accesses log[..i]: each page holds the address of the first access
      to it and the number of writes made to it. */
  ghost predicate FlatIs(flat: map<Page, Content>, log: seq<Access>, i: nat)
    requires i <= |log|
  {
    && flat.Keys == Seen(PagesOf(log), 0, i)
    && forall p :: p in flat ==> flat[p] == Content(Writes(log, i, p), FirstAddr(log, i, p))
  }

  lemma FlatFollows(flat: map<Page, Content>, log: seq<Access>, i: nat)
    requires i < |log| && FlatIs(flat, log, i)
    ensures FlatIs(FlatStep(flat, log[i]), log, i + 1)
  {
    if log[i].Page() !in flat {
      NoWrites(log, i, log[i].Page());
    }
  }

  lemma {:induction false} NoWrites(log: seq<Access>, i: nat, p: Page)
    requires i <= |log| && p !in Seen(PagesOf(log), 0, i)
    ensures Writes(log, i, p) == 0
  {
    if i > 0 {
      NoWrites(log, i - 1, p);
    }
  }

  /** The check in access_mem compares the address with the one stored at the first access. */
  ghost predicate Matches(log: seq<Access>, i: nat)
    requires i < |log|
  {
    FirstAddr(log, i + 1, log[i].Page()) == log[i].vaddr
  }

  /** How many of the accesses log[..i] fail that check. */
  ghost function Mismatches(log: seq<Access>, i: nat): nat
    requires i <= |log|
  {
    if i == 0 then 0 else Mismatches(log, i - 1) + if Matches(log, i - 1) then 0 else 1
  }

  /** In a page-aligned trace the check never fails. */
  lemma {:induction false} AlignedMatches(log: seq<Access>, i: nat)
    requires i <= |log| && forall j :: 0 <= j < |log| ==> log[j].vaddr % PAGE_SIZE == 0
    ensures Mismatches(log, i) == 0
  {
    if i > 0 {
      AlignedMatches(log, i - 1);
      FirstAddrOnPage(log, i, log[i - 1].Page());
    }
  }

  lemma {:induction false} FirstAddrOnPage(log: seq<Access>, i: nat, p: Page)
    requires i <= |log| && p in Seen(PagesOf(log), 0, i)
    ensures exists j :: 0 <= j < i && log[j].vaddr == FirstAddr(log, i, p) && log[j].Page() == p
  {
    if p in Seen(PagesOf(log), 0, i - 1) {
      FirstAddrOnPage(log, i - 1, p);
    } else {
      assert log[i - 1].Page() == p;
    }
  }

  // ---------------------------------------------------------------- the run

  /** How many references have been served; the resident sets so far, and for the clock the queues;
      what flat memory holds; how many frames are in use; and the accesses that have been made. */
  datatype History = History(
    i: nat, rs: seq<set<Page>>, qs: seq<seq<SecondChance.Slot>>, flat: map<Page, Content>, n: nat, log: seq<Access>)

  /** The resident pages and the policy are where the history says. */
  ghost predicate Followed(alg: Algorithm, plan: seq<Page>, h: History, m: Machine, pol: Policy) {
    && RunSoFar(alg, |m.coremap|, plan, h.rs, h.qs, h.i) && h.rs[h.i] == Residents(m)
    && PolicyOk(alg, plan, h.rs, h.qs, h.i, m, h.n, pol)
  }

  /** The machine holds what flat memory would hold, and has counted the references. */
  ghost predicate Balanced(plan: seq<Page>, h: History, m: Machine) {
    && Inv(m, h.flat, h.n) && Mapped(m) && Counted(m, h.n)
    && h.i <= |plan| && h.i < |h.rs|
    && m.counters.refs == h.i && m.counters.misses == MissesIn(plan, h.rs, 0, h.i)
  }

  /** The state of the simulator after h.i references: the machine agrees with flat memory, the
      policy with its history h.rs (and h.qs, for the clock), and the counters with both. */
  ghost predicate Ok(alg: Algorithm, k: nat, plan: seq<Page>, h: History, m: Machine, pol: Policy) {
    k == |m.coremap| && Followed(alg, plan, h, m, pol) && Balanced(plan, h, m)
  }

  ghost function Queue(h: History): seq<SecondChance.Slot> {
    if h.i < |h.qs| then h.qs[h.i] else []
  }

  /** The policy chooses frame f when a page is missing and no frame is free. */
  ghost predicate Choice(alg: Algorithm, plan: seq<Page>, q: seq<SecondChance.Slot>, m: Machine, pol: Policy, n: nat,
                         f: nat, p: Page, m1: Machine, pol1: Policy)
    requires p < |m.ptes|
  {
    if !m.ptes[p].valid && n == |m.coremap| then Chosen(alg, plan, q, m, pol, m1, pol1, f) else m1 == m && pol1 == pol
  }

  /** The states that an access goes through: before it, once the policy has chosen frame f if it must (m1, pol1),
      and at its end, when the policy has been told (m3, pol3). */
  datatype Passage = Passage(m: Machine, pol: Policy, f: nat, m1: Machine, pol1: Policy, m3: Machine, pol3: Policy)

  /** One access: the policy chooses frame f if it must (m1, pol1), the access takes place, and
      the policy is told (m3, pol3). */
  ghost predicate Transition(alg: Algorithm, plan: seq<Page>, q: seq<SecondChance.Slot>, n: nat, a: Access, t: Passage)
  {
    && a.Page() < |t.m.ptes| == |t.m1.ptes|
    && Choice(alg, plan, q, t.m, t.pol, n, t.f, a.Page(), t.m1, t.pol1)
    && (!t.m.ptes[a.Page()].valid && n < |t.m.coremap| ==> t.f == n)
    && AccessDefined(t.m1, t.f, a)
    && Referenced(alg, plan, Accessed(t.m1, t.f, a), t.pol1, a.Page(), t.m3, t.pol3)
  }

  /** The queue of the clock after one more reference. */
  ghost function NextQueue(alg: Algorithm, k: nat, q: seq<SecondChance.Slot>, p: Page): seq<SecondChance.Slot>
    requires 0 < k
  {
    if alg.Clock? then SecondChance.Serve(k, q, p) else []
  }

  /** The history grows by one reference. */
  lemma RunExtends(alg: Algorithm, k: nat, plan: seq<Page>, rs: seq<set<Page>>, qs: seq<seq<SecondChance.Slot>>, i: nat,
                   r: set<Page>, q: seq<SecondChance.Slot>)
    requires RunSoFar(alg, k, plan, rs, qs, i) && i < |plan|
    requires Step(k, rs[i], plan[i], r) && PolicyStep(alg, k, plan, rs + [r], i)
    requires alg.Clock? ==> q == SecondChance.Serve(k, qs[i], plan[i]) && r == SecondChance.Pages(q)
    ensures RunSoFar(alg, k, plan, rs + [r], qs + [q], i + 1)
  {
    var rs' := rs + [r];
    forall j | 0 <= j < i ensures PolicyStep(alg, k, plan, rs', j) {
      assert PolicyStep(alg, k, plan, rs, j);
      assert rs'[j] == rs[j] && rs'[j + 1] == rs[j + 1];
      PolicyStepPrefix(alg, k, plan, rs, rs', j);
    }
    if alg.Clock? {
      ClockExtends(k, plan, rs, qs, i, r, q);
    }
  }

  lemma ClockExtends(k: nat, plan: seq<Page>, rs: seq<set<Page>>, qs: seq<seq<SecondChance.Slot>>, i: nat,
                     r: set<Page>, q: seq<SecondChance.Slot>)
    requires ClockSteps(k, plan, rs, qs, i) && i < |plan| && |rs| == |qs| == i + 1
    requires q == SecondChance.Serve(k, qs[i], plan[i]) && r == SecondChance.Pages(q)
    ensures ClockSteps(k, plan, rs + [r], qs + [q], i + 1)
  {
    var rs', qs' := rs + [r], qs + [q];
    assert qs'[0] == qs[0];
    forall j | 0 <= j <= i + 1 ensures rs'[j] == SecondChance.Pages(qs'[j]) {
      assert j <= i ==> qs'[j] == qs[j] && rs'[j] == rs[j];
    }
    forall j | 0 <= j < i + 1 ensures qs'[j + 1] == SecondChance.Serve(k, qs'[j], plan[j]) {
      assert j < i ==> qs'[j + 1] == qs[j + 1] && qs'[j] == qs[j];
    }
  }

  lemma PolicyStepPrefix(alg: Algorithm, k: nat, plan: seq<Page>, rs: seq<set<Page>>, rs': seq<set<Page>>, j: nat)
    requires j < |plan| && j + 1 < |rs| <= |rs'| && rs'[..|rs|] == rs
    requires PolicyStep(alg, k, plan, rs, j)
    ensures PolicyStep(alg, k, plan, rs', j)
  {
    assert rs'[..|rs|][j] == rs[j] && rs'[..|rs|][j + 1] == rs[j + 1];
    if plan[j] !in rs[j] && |rs[j]| >= k {
      match alg
      case Rand =>
      case Clock =>
      case Lru =>
        var v :| Recency.Oldest(plan, j, rs[j], v) && rs[j + 1] == Swap(rs[j], v, plan[j]);
        assert Recency.Oldest(plan, j, rs'[j], v);
      case Fifo =>
        forall u ensures LoadOrder.LoadTime(plan, rs', j, u) == LoadOrder.LoadTime(plan, rs, j, u) {
          assert rs'[..j] == rs[..j];
          LoadOrder.LoadTimePrefix(plan, rs, rs', j, u);
        }
        var v :| LoadOrder.LongestResident(plan, rs, j, v) && rs[j + 1] == Swap(rs[j], v, plan[j]);
        assert LoadOrder.LongestResident(plan, rs', j, v);
      case Opt =>
        var v :| Belady.Furthest(plan, j, rs[j], v) && rs[j + 1] == Swap(rs[j], v, plan[j]);
        assert Belady.Furthest(plan, j, rs'[j], v);
    }
  }

  /** Telling the policy changes nothing the invariant depends on. */
  lemma ReferenceMarks(alg: Algorithm, plan: seq<Page>, m2: Machine, pol: Policy, p: Page, m3: Machine, pol3: Policy)
    requires p < |m2.ptes| && Referenced(alg, plan, m2, pol, p, m3, pol3)
    ensures SameButMarks(m2, m3) && m3.counters == m2.counters && m3.ptes == m2.ptes
  {
  }

  lemma ChoiceMarks(alg: Algorithm, plan: seq<Page>, q: seq<SecondChance.Slot>, m: Machine, pol: Policy, m1: Machine,
                    pol1: Policy, f: nat)
    requires Chosen(alg, plan, q, m, pol, m1, pol1, f)
    ensures SameButMarks(m, m1) && m1.counters == m.counters && m1.coremap == m.coremap
  {
  }

  lemma MappedFollows(m1: Machine, n: nat, f: nat, p: Page, m2: Machine, n2: nat, m3: Machine)
    requires Mapped(m1) && p < |m1.ptes| && Accesses(m1, n, f, p, m2, n2) && SameButMarks(m2, m3)
    ensures Mapped(m2) && Mapped(m3)
  {
  }

  /** The policy keeps up with one more reference. */
  lemma PolicyFollows(alg: Algorithm, plan: seq<Page>, rs: seq<set<Page>>, qs: seq<seq<SecondChance.Slot>>, i: nat,
                      n: nat, t: Passage,
                      m2: Machine, n2: nat)
    requires i < |plan| && plan[i] < |t.m.ptes| && |rs| == |qs| == i + 1 && rs[i] == Residents(t.m) && 0 < |t.m.coremap|
    requires PolicyOk(alg, plan, rs, qs, i, t.m, n, t.pol) && FramesApart(t.m, n) && FramesApart(m2, n2)
    requires alg.Clock? ==> Mapped(m2) && SecondChance.Pages(qs[i]) == Residents(t.m)
    requires Choice(alg, plan, qs[i], t.m, t.pol, n, t.f, plan[i], t.m1, t.pol1)
    requires Accesses(t.m1, n, t.f, plan[i], m2, n2)
    requires Referenced(alg, plan, m2, t.pol1, plan[i], t.m3, t.pol3)
    ensures PolicyOk(alg, plan, rs + [Residents(t.m3)], qs + [NextQueue(alg, |t.m.coremap|, qs[i], plan[i])], i + 1,
                     t.m3, n2, t.pol3)
  {
    match alg
    case Rand =>
    case Lru => LruFollows(plan, i, t.m, n, t.pol, t.f, m2, n2, t.m3, t.pol3);
    case Fifo => FifoFollows(plan, rs, Residents(t.m3), i, t.m, n, t.pol, t.pol1, t.f, m2, n2, t.m3, t.pol3);
    case Clock =>
      assert Mapped(t.m1);
      ClockFollows(plan, i, qs[i], t.m, n, t.pol, t.m1, t.pol1, t.f, m2, n2);
    case Opt => OptFollows(plan, i, t.m, n, t.pol, t.f, m2, n2, t.m3, t.pol3);
  }

  /** What the access has done to the machine, seen from the policy: m2 is the machine before the policy is told. */
  ghost predicate Moved(alg: Algorithm, plan: seq<Page>, q: seq<SecondChance.Slot>, flat: map<Page, Content>, n: nat,
                        a: Access, t: Passage, m2: Machine, n2: nat)
  {
    && a.Page() < PAGES && Sized(t.m) && Sized(t.m1) && Sized(m2) && Sized(t.m3)
    && Choice(alg, plan, q, t.m, t.pol, n, t.f, a.Page(), t.m1, t.pol1)
    && Referenced(alg, plan, m2, t.pol1, a.Page(), t.m3, t.pol3)
    && Inv(m2, FlatStep(flat, a), n2) && Inv(t.m3, FlatStep(flat, a), n2) && |t.m3.coremap| == |t.m.coremap|
    && Accesses(t.m1, n, t.f, a.Page(), m2, n2) && t.m1.coremap == t.m.coremap && t.m3.ptes[a.Page()].valid
    && Step(|t.m.coremap|, Residents(t.m), a.Page(), Residents(t.m3))
    && (a.Page() !in Residents(t.m) && n == |t.m.coremap| ==>
          t.f < n && Residents(t.m3) == Swap(Residents(t.m), t.m.coremap[t.f].pte, a.Page()))
  }

  /** One transition, seen from the machine: the invariant is kept, and the resident pages
      make one step of a paging run. */
  lemma {:induction false} MachineFollows(alg: Algorithm, plan: seq<Page>, q: seq<SecondChance.Slot>,
                                          flat: map<Page, Content>,
                                          n: nat, a: Access, t: Passage, m2: Machine, n2: nat)
    requires Inv(t.m, flat, n) && Counted(t.m, n) && a.Page() < PAGES && !Lost(t.m, a.Page())
    requires Transition(alg, plan, q, n, a, t)
    requires m2 == Accessed(t.m1, t.f, a) && n2 == InUse(t.m, n, a.Page())
    ensures Moved(alg, plan, q, flat, n, a, t, m2, n2) && Counted(t.m3, n2)
            && t.m3.counters.refs == t.m.counters.refs + 1
    ensures t.m3.counters.misses == t.m.counters.misses + (if a.Page() in Residents(t.m) then 0 else 1)
  {
    var p := a.Page();
    ChoiceKeeps(alg, plan, q, flat, n, t.m, t.pol, t.f, p, t.m1, t.pol1);
    AccessMoves(flat, n, t.m1, t.f, a, m2, n2);
    ReferenceMarks(alg, plan, m2, t.pol1, p, t.m3, t.pol3);
    MarksApart(m2, FlatStep(flat, a), n2, t.m3);
  }

  lemma {:induction false} ChoiceKeeps(alg: Algorithm, plan: seq<Page>, q: seq<SecondChance.Slot>,
                                       flat: map<Page, Content>,
                    n: nat, m: Machine, pol: Policy, f: nat, p: Page, m1: Machine, pol1: Policy)
    requires Inv(m, flat, n) && p < PAGES
    requires Choice(alg, plan, q, m, pol, n, f, p, m1, pol1)
    ensures Inv(m1, flat, n) && Residents(m1) == Residents(m) && m1.coremap == m.coremap && m1.counters == m.counters
    ensures m1.ptes[p] == m.ptes[p].(ref := m1.ptes[p].ref)
  {
    if !m.ptes[p].valid && n == |m.coremap| {
      ChoiceMarks(alg, plan, q, m, pol, m1, pol1, f);
      MarksApart(m, flat, n, m1);
    }
  }

  lemma {:induction false} AccessMoves(flat: map<Page, Content>, n: nat, m: Machine, f: nat, a: Access, m2: Machine,
                                       n2: nat)
    requires Inv(m, flat, n) && Counted(m, n) && AccessDefined(m, f, a)
    requires !m.ptes[a.Page()].valid ==> Choosable(m, n, f)
    requires m2 == Accessed(m, f, a) && n2 == InUse(m, n, a.Page())
    ensures Inv(m2, FlatStep(flat, a), n2) && Counted(m2, n2) && Accesses(m, n, f, a.Page(), m2, n2)
    ensures m2.counters.refs == m.counters.refs + 1
    ensures m2.counters.misses == m.counters.misses + (if a.Page() in Residents(m) then 0 else 1)
    ensures Step(|m.coremap|, Residents(m), a.Page(), Residents(m2)) && m2.ptes[a.Page()].valid
    ensures a.Page() !in Residents(m) && n == |m.coremap| ==>
              Residents(m2) == Swap(Residents(m), m.coremap[f].pte, a.Page())
  {
    AccessKeeps(m, flat, n, f, a);
    AccessSteps(m, flat, n, f, a);
    AccessFrames(m, flat, n, f, a);
    AccessCounts(m, flat, n, f, a);
  }

  /** The pages in the clock's queue are the resident ones. */
  lemma ViewPages(q: seq<SecondChance.Slot>, m: Machine, flat: map<Page, Content>, arm: nat, n: nat)
    requires Inv(m, flat, n) && IsView(q, m, arm, n) && arm < |m.coremap| && (n < |m.coremap| ==> arm == 0)
    ensures SecondChance.Pages(q) == Residents(m)
  {
    ResidentsAreFrames(m, flat, n);
    var k := |m.coremap|;
    forall p ensures p in SecondChance.Pages(q) <==> p in Residents(m) {
      if p in SecondChance.Pages(q) {
        var j :| 0 <= j < n && q[j].page == p;
        assert Turns.Turn(arm + j, k) < n;
      }
      if p in Residents(m) {
        var h :| 0 <= h < n && m.coremap[h].pte == p;
        var j := if arm <= h then h - arm else h + k - arm;
        assert Turns.Turn(arm + j, k) == h;
        assert q[j].page == p;
      }
    }
  }

  lemma MissesStep(plan: seq<Page>, rs: seq<set<Page>>, r: set<Page>, i: nat)
    requires i < |plan| && |rs| == i + 1
    ensures MissesIn(plan, rs + [r], 0, i + 1) == MissesIn(plan, rs, 0, i) + if plan[i] in rs[i] then 0 else 1
  {
    MissesPrefix(plan, rs, r, 0, i);
  }

  lemma ClockPages(k: nat, plan: seq<Page>, rs: seq<set<Page>>, qs: seq<seq<SecondChance.Slot>>, i: nat)
    requires ClockSteps(k, plan, rs, qs, i)
    ensures SecondChance.Pages(qs[i]) == rs[i]
  {
  }

  /** One transition, seen from the policy: its run goes on. */
  lemma {:induction false} RunFollows(alg: Algorithm, plan: seq<Page>, h: History, t: Passage,
                                      r: set<Page>, q': seq<SecondChance.Slot>, rs': seq<set<Page>>,
                                          qs': seq<seq<SecondChance.Slot>>)
    requires Followed(alg, plan, h, t.m, t.pol) && Inv(t.m, h.flat, h.n) && h.i < |plan| && plan[h.i] < |t.m.ptes|
    requires Choice(alg, plan, h.qs[h.i], t.m, t.pol, h.n, t.f, plan[h.i], t.m1, t.pol1)
    requires Step(|t.m.coremap|, h.rs[h.i], plan[h.i], r)
    requires plan[h.i] !in h.rs[h.i] && h.n == |t.m.coremap| ==>
               t.f < h.n && r == Swap(h.rs[h.i], t.m.coremap[t.f].pte, plan[h.i])
    requires q' == NextQueue(alg, |t.m.coremap|, h.qs[h.i], plan[h.i]) && (alg.Clock? ==> r == SecondChance.Pages(q'))
    requires rs' == h.rs + [r] && qs' == h.qs + [q']
    ensures RunSoFar(alg, |t.m.coremap|, plan, rs', qs', h.i + 1)
  {
    assert rs'[h.i] == h.rs[h.i];
    ResidentsAreFrames(t.m, h.flat, h.n);
    if plan[h.i] !in h.rs[h.i] && h.n == |t.m.coremap| {
      VictimIsRight(alg, plan, h.rs, h.qs, h.i, t.m, h.flat, h.n, t.pol, t.m1, t.pol1, t.f, r);
    }
    RunExtends(alg, |t.m.coremap|, plan, h.rs, h.qs, h.i, r, q');
  }

  lemma MappedStep(alg: Algorithm, plan: seq<Page>, q: seq<SecondChance.Slot>, flat: map<Page, Content>, n: nat,
                   a: Access, t: Passage, m2: Machine, n2: nat)
    requires Mapped(t.m) && Moved(alg, plan, q, flat, n, a, t, m2, n2)
    ensures Mapped(t.m1) && Mapped(m2) && Mapped(t.m3)
  {
    ReferenceMarks(alg, plan, m2, t.pol1, a.Page(), t.m3, t.pol3);
    MappedFollows(t.m1, n, t.f, a.Page(), m2, n2, t.m3);
  }

  /** One transition, seen from the policy's state. */
  lemma {:induction false} StateFollows(alg: Algorithm, plan: seq<Page>, h: History, a: Access, t: Passage,
                                        m2: Machine, n2: nat, q': seq<SecondChance.Slot>)
    requires Inv(t.m, h.flat, h.n) && Mapped(t.m) && FollowedBy(alg, plan, h, t.m, t.pol) && h.i < |plan|
    requires a.Page() == plan[h.i] < PAGES && Moved(alg, plan, h.qs[h.i], h.flat, h.n, a, t, m2, n2)
    requires q' == NextQueue(alg, |t.m.coremap|, h.qs[h.i], plan[h.i])
    ensures Mapped(t.m3) && PolicyOk(alg, plan, h.rs + [Residents(t.m3)], h.qs + [q'], h.i + 1, t.m3, n2, t.pol3)
  {
    InvFramesApart(t.m, h.flat, h.n);
    InvFramesApart(m2, FlatStep(h.flat, a), n2);
    MappedStep(alg, plan, h.qs[h.i], h.flat, h.n, a, t, m2, n2);
    PolicyFollows(alg, plan, h.rs, h.qs, h.i, h.n, t, m2, n2);
  }

  /** What there is to know of the history so far for that. */
  ghost predicate FollowedBy(alg: Algorithm, plan: seq<Page>, h: History, m: Machine, pol: Policy) {
    && |h.rs| == |h.qs| == h.i + 1 && h.rs[h.i] == Residents(m) && 0 < |m.coremap|
    && PolicyOk(alg, plan, h.rs, h.qs, h.i, m, h.n, pol)
    && (alg.Clock? ==> SecondChance.Pages(h.qs[h.i]) == Residents(m))
  }

  lemma FollowedParts(alg: Algorithm, plan: seq<Page>, h: History, m: Machine, pol: Policy)
    requires Followed(alg, plan, h, m, pol) && 0 < |m.coremap|
    ensures FollowedBy(alg, plan, h, m, pol)
  {
    if alg.Clock? {
      ClockPages(|m.coremap|, plan, h.rs, h.qs, h.i);
    }
  }

  lemma ClockView(alg: Algorithm, plan: seq<Page>, rs: seq<set<Page>>, qs: seq<seq<SecondChance.Slot>>, i: nat,
                  m: Machine, flat: map<Page, Content>, n: nat, pol: Policy)
    requires PolicyOk(alg, plan, rs, qs, i, m, n, pol) && Inv(m, flat, n)
    ensures alg.Clock? ==> SecondChance.Pages(qs[i]) == Residents(m)
  {
    if alg.Clock? {
      ViewPages(qs[i], m, flat, pol.arm, n);
    }
  }

  lemma LastOf<T>(s: seq<T>, x: T, i: nat)
    requires |s| == i + 1
    ensures (s + [x])[i + 1] == x
  {
  }

  /** One transition, seen from the policy. */
  lemma {:induction false} HistoryFollows(alg: Algorithm, plan: seq<Page>, h: History, a: Access, t: Passage,
                                          m2: Machine, n2: nat)
    requires Inv(t.m, h.flat, h.n) && Mapped(t.m) && Followed(alg, plan, h, t.m, t.pol) && 0 < |t.m.coremap|
    requires h.i < |plan| && a.Page() == plan[h.i] < PAGES && n2 == InUse(t.m, h.n, a.Page())
    requires Moved(alg, plan, Queue(h), h.flat, h.n, a, t, m2, n2)
    ensures Followed(alg, plan, Next(alg, h, a, t.m, t.m3), t.m3, t.pol3)
  {
    FollowedParts(alg, plan, h, t.m, t.pol);
    var r, q' := Residents(t.m3), NextQueue(alg, |t.m.coremap|, h.qs[h.i], plan[h.i]);
    var rs', qs' := h.rs + [r], h.qs + [q'];
    LastOf(h.rs, r, h.i);
    LastOf(h.qs, q', h.i);
    StateFollows(alg, plan, h, a, t, m2, n2, q');
    ClockView(alg, plan, rs', qs', h.i + 1, t.m3, FlatStep(h.flat, a), n2, t.pol3);
    RunFollows(alg, plan, h, t, r, q', rs', qs');
  }

  // ---------------------------------------------------------------- one step of a run

  ghost function Next(alg: Algorithm, h: History, a: Access, m: Machine, m': Machine): History
    requires 0 < |m.coremap| && a.Page() < |m.ptes|
  {
    History(h.i + 1, h.rs + [Residents(m')], h.qs + [NextQueue(alg, |m.coremap|, Queue(h), a.Page())],
            FlatStep(h.flat, a), InUse(m, h.n, a.Page()), h.log + [a])
  }

  /** One transition, seen from the machine alone. */
  lemma {:induction false} BalancedNext(alg: Algorithm, plan: seq<Page>, h: History, a: Access, t: Passage,
                                        m2: Machine, n2: nat)
    requires Balanced(plan, h, t.m) && |h.rs| == h.i + 1 && h.rs[h.i] == Residents(t.m)
    requires h.i < |plan| && a.Page() == plan[h.i] < PAGES && 0 < |t.m.coremap| && n2 == InUse(t.m, h.n, a.Page())
    requires Moved(alg, plan, Queue(h), h.flat, h.n, a, t, m2, n2)
    requires Counted(t.m3, n2) && t.m3.counters.refs == t.m.counters.refs + 1
    requires t.m3.counters.misses == t.m.counters.misses + (if a.Page() in Residents(t.m) then 0 else 1)
    ensures Balanced(plan, Next(alg, h, a, t.m, t.m3), t.m3)
  {
    MissesStep(plan, h.rs, Residents(t.m3), h.i);
    MappedStep(alg, plan, Queue(h), h.flat, h.n, a, t, m2, n2);
  }

  lemma {:induction false} BalancedStep(alg: Algorithm, plan: seq<Page>, h: History, a: Access, t: Passage)
    requires Balanced(plan, h, t.m) && |h.rs| == h.i + 1 && h.rs[h.i] == Residents(t.m)
    requires h.i < |plan| && a.Page() == plan[h.i] < PAGES && !Lost(t.m, a.Page()) && 0 < |t.m.coremap|
    requires Transition(alg, plan, Queue(h), h.n, a, t)
    ensures |t.m3.coremap| == |t.m.coremap| && Balanced(plan, Next(alg, h, a, t.m, t.m3), t.m3)
  {
    var m2, n2 := Accessed(t.m1, t.f, a), InUse(t.m, h.n, a.Page());
    MachineFollows(alg, plan, Queue(h), h.flat, h.n, a, t, m2, n2);
    BalancedNext(alg, plan, h, a, t, m2, n2);
  }

  /** One transition, seen from the policy. */
  lemma {:induction false} FollowedStep(alg: Algorithm, plan: seq<Page>, h: History, a: Access, t: Passage)
    requires Balanced(plan, h, t.m) && Followed(alg, plan, h, t.m, t.pol)
    requires h.i < |plan| && a.Page() == plan[h.i] < PAGES && !Lost(t.m, a.Page())
    requires Transition(alg, plan, Queue(h), h.n, a, t)
    ensures Followed(alg, plan, Next(alg, h, a, t.m, t.m3), t.m3, t.pol3)
  {
    var m2, n2 := Accessed(t.m1, t.f, a), InUse(t.m, h.n, a.Page());
    MachineFollows(alg, plan, Queue(h), h.flat, h.n, a, t, m2, n2);
    HistoryFollows(alg, plan, h, a, t, m2, n2);
  }

  /** The invariant of a run is kept by every access to a page that is not lost. */
  lemma {:induction false} SimStep(alg: Algorithm, k: nat, plan: seq<Page>, h: History, a: Access, t: Passage)
    requires Ok(alg, k, plan, h, t.m, t.pol)
    requires h.i < |plan| && a.Page() == plan[h.i] < PAGES && !Lost(t.m, plan[h.i])
    requires Transition(alg, plan, Queue(h), h.n, a, t)
    ensures Ok(alg, k, plan, Next(alg, h, a, t.m, t.m3), t.m3, t.pol3)
  {
    BalancedStep(alg, plan, h, a, t);
    FollowedStep(alg, plan, h, a, t);
  }

  /** With all frames in use, the policy can choose. */
  lemma ReadyToEvict(alg: Algorithm, k: nat, plan: seq<Page>, h: History, m: Machine, pol: Policy)
    requires Ok(alg, k, plan, h, m, pol) && h.n == k
    ensures EvictReady(alg, plan, Queue(h), m, pol)
  {
    InvFramesApart(m, h.flat, h.n);
    forall f | 0 <= f < k ensures m.ptes[m.coremap[f].pte].frame == f {
      assert FrameOk(m, h.n, f);
    }
  }

  /** Once the page is in a frame, the policy can be told. */
  lemma ReadyToRef(alg: Algorithm, k: nat, plan: seq<Page>, h: History, m: Machine, pol: Policy,
                   f: nat, p: Page, m1: Machine, pol1: Policy, m2: Machine, n2: nat)
    requires Ok(alg, k, plan, h, m, pol) && h.i < |plan| && p == plan[h.i] < |m.ptes|
    requires Choice(alg, plan, Queue(h), m, pol, h.n, f, p, m1, pol1)
    requires Accesses(m1, h.n, f, p, m2, n2)
    ensures RefReady(alg, plan, m2, pol1, p)
  {
  }

  /** What find_physpage does: the policy chooses frame f if it must (m1, pol1), the page is
      brought in and its entry marked, and the policy is told (m3, pol3). */
  ghost predicate IsTranslation(alg: Algorithm, plan: seq<Page>, q: seq<SecondChance.Slot>, n: nat, a: Access,
                                t: Passage)
  {
    && a.Page() < |t.m.ptes| == |t.m1.ptes| && a.Page() < PAGES
    && Choice(alg, plan, q, t.m, t.pol, n, t.f, a.Page(), t.m1, t.pol1)
    && (!t.m.ptes[a.Page()].valid && n < |t.m.coremap| ==> t.f == n)
    && AccessDefined(t.m1, t.f, a)
    && Referenced(alg, plan, CountedRef(Marked(Served(t.m1, t.f, a), a)), t.pol1, a.Page(), t.m3, t.pol3)
  }

  /** Before ref_fcn is called, all is ready for it. */
  lemma {:induction false} ReadyToTell(alg: Algorithm, k: nat, plan: seq<Page>, h: History, m: Machine, pol: Policy,
                    f: nat, a: Access, m1: Machine, pol1: Policy)
    requires Ok(alg, k, plan, h, m, pol) && h.i < |plan| && a.Page() == plan[h.i] < PAGES
    requires Choice(alg, plan, Queue(h), m, pol, h.n, f, a.Page(), m1, pol1) && AccessDefined(m1, f, a)
    requires !m.ptes[a.Page()].valid && h.n < k ==> f == h.n
    ensures RefReady(alg, plan, Marked(Served(m1, f, a), a), pol1, a.Page())
  {
    ChoiceKeeps(alg, plan, Queue(h), h.flat, h.n, m, pol, f, a.Page(), m1, pol1);
    AccessFrames(m1, h.flat, h.n, f, a);
    ReadyToRef(alg, k, plan, h, m, pol, f, a.Page(), m1, pol1, Accessed(m1, f, a), InUse(m1, h.n, a.Page()));
    assert Marked(Served(m1, f, a), a).ptes == Accessed(m1, f, a).ptes;
  }

  /** The source tells the policy of the reference before it counts it; the order makes no difference. */
  lemma CountCommutes(alg: Algorithm, plan: seq<Page>, m: Machine, pol: Policy, p: Page, m3: Machine, pol3: Policy)
    requires p < |m.ptes| && Referenced(alg, plan, m, pol, p, m3, pol3)
    ensures Referenced(alg, plan, CountedRef(m), pol, p, CountedRef(m3), pol3)
  {
  }

  /** Nor does it matter that the page is changed after that. */
  lemma BumpCommutes(alg: Algorithm, plan: seq<Page>, m: Machine, pol: Policy, p: Page, g: nat, a: Access, m3: Machine,
                     pol3: Policy)
    requires Sized(m) && p < PAGES && g < |m.coremap|
    requires Referenced(alg, plan, m, pol, p, m3, pol3)
    ensures Sized(m3) && Referenced(alg, plan, Bumped(m, g, a), pol, p, Bumped(m3, g, a), pol3)
  {
  }

  /** find_physpage and the change of the page make one transition. */
  lemma TranslationIsTransition(alg: Algorithm, plan: seq<Page>, q: seq<SecondChance.Slot>, n: nat, a: Access,
                                t: Passage, g: nat)
    requires IsTranslation(alg, plan, q, n, a, t)
    requires g == Marked(Served(t.m1, t.f, a), a).ptes[a.Page()].frame
    ensures Sized(t.m3) && g < |t.m3.physmem|
    ensures Transition(alg, plan, q, n, a, t.(m3 := Bumped(t.m3, g, a)))
  {
    var m2 := CountedRef(Marked(Served(t.m1, t.f, a), a));
    BumpCommutes(alg, plan, m2, t.pol1, a.Page(), g, a, t.m3, t.pol3);
    assert Accessed(t.m1, t.f, a) == Bumped(m2, g, a);
  }
}
