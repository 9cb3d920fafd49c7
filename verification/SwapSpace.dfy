/** Swap space over a whole run: which pages own a slot, and which pages have been lost
    (a2/starter/swap.c, a2/starter/pagetable.c).

    A slot is handed out when a page is evicted for the first time, and is never given back.  So the
    pages that own one are the first that were ever evicted, as many as there are slots, and the
    contents of the others are gone.
 */
module SwapSpaces {
  import opened Paging
  import opened PageTables
  import opened Machines
  import opened Policies
  import opened Replays
  import SecondChance

  // ---------------------------------------------------------------- evictions in a paging run

  /** The pages evicted in the first i references. */
  ghost function EverEvicted(rs: seq<set<Page>>, i: nat): set<Page>
    requires i < |rs|
  {
    if i == 0 then {} else EverEvicted(rs, i - 1) + (rs[i - 1] - rs[i])
  }

  /** Those of them that had not been evicted before when swapsize other pages had. */
  ghost function PagesLost(swapsize: nat, rs: seq<set<Page>>, i: nat): set<Page>
    requires i < |rs|
  {
    if i == 0 then {}
    else PagesLost(swapsize, rs, i - 1) + if |EverEvicted(rs, i - 1)| < swapsize then {}
                                          else rs[i - 1] - rs[i] - EverEvicted(rs, i - 1)
  }

  /** None of the first i references is to a page that has been lost. */
  ghost predicate NoneMissed(swapsize: nat, plan: seq<Page>, rs: seq<set<Page>>, i: nat)
    requires i <= |plan| && i <= |rs|
  {
    forall j {:trigger plan[j]} :: 0 <= j < i ==> plan[j] !in PagesLost(swapsize, rs, j)
  }

  /** Both depend on the run so far only. */
  lemma {:induction false} EvictedPrefix(swapsize: nat, rs: seq<set<Page>>, r: set<Page>, i: nat)
    requires i < |rs|
    ensures EverEvicted(rs + [r], i) == EverEvicted(rs, i)
    ensures PagesLost(swapsize, rs + [r], i) == PagesLost(swapsize, rs, i)
  {
    if i > 0 {
      EvictedPrefix(swapsize, rs, r, i - 1);
    }
  }

  /** One more step adds the pages that it evicts. */
  lemma EvictedStep(swapsize: nat, rs: seq<set<Page>>, r: set<Page>, i: nat)
    requires |rs| == i + 1
    ensures EverEvicted(rs + [r], i + 1) == EverEvicted(rs, i) + (rs[i] - r)
    ensures PagesLost(swapsize, rs + [r], i + 1) ==
            PagesLost(swapsize, rs, i) + if |EverEvicted(rs, i)| < swapsize then {} else rs[i] - r - EverEvicted(rs, i)
  {
    EvictedPrefix(swapsize, rs, r, i);
  }

  lemma NoneMissedStep(swapsize: nat, plan: seq<Page>, rs: seq<set<Page>>, r: set<Page>, i: nat)
    requires |rs| == i + 1 && i < |plan| && NoneMissed(swapsize, plan, rs, i)
             && plan[i] !in PagesLost(swapsize, rs, i)
    ensures NoneMissed(swapsize, plan, rs + [r], i + 1)
  {
    forall j | 0 <= j < i + 1 ensures plan[j] !in PagesLost(swapsize, rs + [r], j) {
      EvictedPrefix(swapsize, rs, r, j);
    }
  }

  /** What is lost depends on the run so far. */
  lemma {:induction false} SameEvicted(swapsize: nat, rs: seq<set<Page>>, rs': seq<set<Page>>, n: nat, i: nat)
    requires i <= n < |rs| && n < |rs'| && rs[..n + 1] == rs'[..n + 1]
    ensures EverEvicted(rs, i) == EverEvicted(rs', i) && PagesLost(swapsize, rs, i) == PagesLost(swapsize, rs', i)
  {
    assert rs[i] == rs[..n + 1][i] && rs'[i] == rs'[..n + 1][i];
    if i > 0 {
      SameEvicted(swapsize, rs, rs', n, i - 1);
      assert rs[i - 1] == rs[..n + 1][i - 1] && rs'[i - 1] == rs'[..n + 1][i - 1];
    }
  }

  lemma SameLost(swapsize: nat, plan: seq<Page>, rs: seq<set<Page>>, rs': seq<set<Page>>, i: nat)
    requires i <= |plan| && i < |rs| && i < |rs'| && rs[..i + 1] == rs'[..i + 1]
    ensures PagesLost(swapsize, rs, i) == PagesLost(swapsize, rs', i)
    ensures NoneMissed(swapsize, plan, rs, i) == NoneMissed(swapsize, plan, rs', i)
  {
    forall j | 0 <= j <= i ensures PagesLost(swapsize, rs, j) == PagesLost(swapsize, rs', j) {
      SameEvicted(swapsize, rs, rs', i, j);
    }
  }

  /** A page that is lost has been evicted, after more pages than there are slots. */
  lemma {:induction false} LostIsEvicted(swapsize: nat, rs: seq<set<Page>>, i: nat)
    requires i < |rs|
    ensures PagesLost(swapsize, rs, i) <= EverEvicted(rs, i)
    ensures PagesLost(swapsize, rs, i) != {} ==> |EverEvicted(rs, i)| > swapsize
  {
    if i > 0 {
      LostIsEvicted(swapsize, rs, i - 1);
      var before, ever := EverEvicted(rs, i - 1), EverEvicted(rs, i);
      SubsetSize(before, ever);
      var first := rs[i - 1] - rs[i] - before;
      if first != {} {
        var p :| p in first;
        SubsetSize(before + {p}, ever);
      }
    }
  }

  // ---------------------------------------------------------------- the state of the swap file

  function Least(a: nat, b: nat): nat {
    if a <= b then a else b
  }

  /** The pages that own a slot are those ever evicted and not lost; they are as many as there are slots, or all. */
  ghost predicate SlotsAre(swapsize: nat, ever: set<Page>, lost: set<Page>, slots: set<Page>) {
    lost <= ever && slots == ever - lost && |slots| == Least(swapsize, |ever|)
  }

  /** The swap file after the references of the history, none of which was to a page that had been lost. */
  ghost predicate SwapOk(swapsize: nat, plan: seq<Page>, h: History, m: Machine) {
    && Sized(m) && (forall p :: p in h.flat ==> p < PAGES) && h.i < |h.rs| && h.i <= |plan|
    && |m.swap.used| == swapsize
    && LostPages(m) == PagesLost(swapsize, h.rs, h.i)
    && SlotsAre(swapsize, EverEvicted(h.rs, h.i), LostPages(m), Swapped(m))
    && NoneMissed(swapsize, plan, h.rs, h.i)
  }

  /** In every such state: as many slots are used as pages have been evicted, until all are; the pages
      that have been evicted beyond that are lost; so none is lost as long as no more pages have been
      evicted than there are slots. */
  lemma SlotsUsed(swapsize: nat, plan: seq<Page>, h: History, m: Machine)
    requires SwapOk(swapsize, plan, h, m) && PagesOk(m, h.flat)
    ensures var evicted := |EverEvicted(h.rs, h.i)|;
            && UsedCount(m.swap.used, swapsize) == Least(swapsize, evicted)
            && |LostPages(m)| == evicted - Least(swapsize, evicted)
            && (LostPages(m) == {} <==> evicted <= swapsize)
  {
    SlotsCounted(m, h.flat, swapsize);
    var ever, lost := EverEvicted(h.rs, h.i), LostPages(m);
    assert ever == (ever - lost) + lost;
  }

  // ---------------------------------------------------------------- one access

  /** Pages leave memory, one at most: while a slot is free, those without one get it. */
  lemma SlotsGrow(swapsize: nat, ever: set<Page>, lost: set<Page>, slots: set<Page>, out: set<Page>)
    requires SlotsAre(swapsize, ever, lost, slots) && |out| <= 1 && |slots| < swapsize
    ensures |ever| < swapsize && SlotsAre(swapsize, ever + out, lost, slots + out)
  {
    AllOwn(ever, slots);
    assert lost == {};
    assert |ever + out| == |ever| + |out - ever|;
    SubsetSize(out - ever, out);
  }

  lemma AllOwn(ever: set<Page>, slots: set<Page>)
    requires slots <= ever && |slots| == |ever|
    ensures slots == ever
  {
    assert ever == slots + (ever - slots);
  }

  /** Once all slots are used, those without one are lost. */
  lemma SlotsStay(swapsize: nat, ever: set<Page>, lost: set<Page>, slots: set<Page>, out: set<Page>)
    requires SlotsAre(swapsize, ever, lost, slots) && out !! lost && |slots| == swapsize
    ensures |ever| >= swapsize && out - slots == out - ever
    ensures SlotsAre(swapsize, ever + out, lost + (out - slots), slots)
  {
    SubsetSize(ever, ever + out);
    forall p ensures p in ever + out - (lost + (out - slots)) <==> p in slots {
    }
  }

  /** The access and the reference, seen from the swap file. */
  lemma {:induction false} SwapMoves(flat: map<Page, Content>, n: nat, m: Machine, f: nat, a: Access, m3: Machine)
    requires Inv(m, flat, n) && AccessDefined(m, f, a)
    requires !m.ptes[a.Page()].valid ==> Choosable(m, n, f)
    requires SameButMarks(Accessed(m, f, a), m3) && m3.ptes == Accessed(m, f, a).ptes
    ensures Sized(m3) && SwapMoved(m, m3)
  {
    AccessSlots(m, flat, n, f, a);
    FullIsOwned(m, flat);
  }

  /** At most one page leaves memory; pages that do get a slot, or are lost when all are used. */
  ghost predicate SwapMoved(m: Machine, m': Machine)
    requires Sized(m) && Sized(m')
  {
    var out, full := Residents(m) - Residents(m'), |Swapped(m)| == |m.swap.used|;
    && |m'.swap.used| == |m.swap.used| && |out| <= 1
    && Swapped(m') == (if full then Swapped(m) else Swapped(m) + out)
    && LostPages(m') == (if full then LostPages(m) + (out - Swapped(m)) else LostPages(m))
  }

  /** Choosing a victim changes neither what is lost nor who owns a slot. */
  lemma {:induction false} ChoiceSwapped(alg: Algorithm, plan: seq<Page>, q: seq<SecondChance.Slot>, n: nat, m: Machine,
                                         pol: Policy, f: nat, p: Page, m1: Machine, pol1: Policy)
    requires Sized(m) && p < PAGES && Choice(alg, plan, q, m, pol, n, f, p, m1, pol1)
    ensures Sized(m1) && Swapped(m1) == Swapped(m) && LostPages(m1) == LostPages(m) && m1.swap == m.swap
  {
    if !m.ptes[p].valid && n == |m.coremap| {
      ChoiceMarks(alg, plan, q, m, pol, m1, pol1, f);
      assert forall u :: 0 <= u < PAGES ==> Lost(m1, u) == Lost(m, u);
    }
  }

  /** One transition, seen from the swap file. */
  lemma {:induction false} SwapTransition(alg: Algorithm, plan: seq<Page>, q: seq<SecondChance.Slot>,
                                          flat: map<Page, Content>, n: nat, a: Access, t: Passage)
    requires Inv(t.m, flat, n) && a.Page() < PAGES && Transition(alg, plan, q, n, a, t)
    ensures Sized(t.m3) && SwapMoved(t.m, t.m3) && !Lost(t.m, a.Page())
  {
    ChoiceKeeps(alg, plan, q, flat, n, t.m, t.pol, t.f, a.Page(), t.m1, t.pol1);
    ChoiceSwapped(alg, plan, q, n, t.m, t.pol, t.f, a.Page(), t.m1, t.pol1);
    ReferenceMarks(alg, plan, Accessed(t.m1, t.f, a), t.pol1, a.Page(), t.m3, t.pol3);
    SwapMoves(flat, n, t.m1, t.f, a, t.m3);
    assert Lost(t.m1, a.Page()) == Lost(t.m, a.Page());
  }

  /** The pages that own a slot, and those that are lost, follow the pages evicted. */
  lemma SlotsFollow(swapsize: nat, ever: set<Page>, m: Machine, m': Machine)
    requires Sized(m) && Sized(m') && SwapMoved(m, m') && |m.swap.used| == swapsize
    requires SlotsAre(swapsize, ever, LostPages(m), Swapped(m))
    ensures var out := Residents(m) - Residents(m');
            && SlotsAre(swapsize, ever + out, LostPages(m'), Swapped(m'))
            && LostPages(m') == LostPages(m) + if |ever| < swapsize then {} else out - ever
  {
    var out := Residents(m) - Residents(m');
    if |Swapped(m)| == swapsize {
      SlotsStay(swapsize, ever, LostPages(m), Swapped(m), out);
    } else {
      SlotsGrow(swapsize, ever, LostPages(m), Swapped(m), out);
    }
  }

  lemma FlatPages(flat: map<Page, Content>, a: Access)
    requires (forall p :: p in flat ==> p < PAGES) && a.Page() < PAGES
    ensures forall p :: p in FlatStep(flat, a) ==> p < PAGES
  {
  }

  lemma NextIs(alg: Algorithm, h: History, a: Access, m: Machine, m': Machine)
    requires 0 < |m.coremap| && a.Page() < |m.ptes|
    ensures var h' := Next(alg, h, a, m, m');
            h'.i == h.i + 1 && h'.rs == h.rs + [Residents(m')] && h'.flat == FlatStep(h.flat, a)
  {
  }

  /** The history grows by one reference. */
  lemma {:induction false} SwapNext(swapsize: nat, plan: seq<Page>, h: History, a: Access, m: Machine, m': Machine,
                                    h': History)
    requires SwapOk(swapsize, plan, h, m) && h.rs[h.i] == Residents(m) && |h.rs| == h.i + 1
    requires h.i < |plan| && a.Page() == plan[h.i] < PAGES && !Lost(m, a.Page())
    requires Sized(m') && SwapMoved(m, m')
    requires h'.i == h.i + 1 && h'.rs == h.rs + [Residents(m')] && h'.flat == FlatStep(h.flat, a)
    ensures SwapOk(swapsize, plan, h', m')
  {
    EvictedStep(swapsize, h.rs, Residents(m'), h.i);
    NoneMissedStep(swapsize, plan, h.rs, Residents(m'), h.i);
    SlotsFollow(swapsize, EverEvicted(h.rs, h.i), m, m');
    FlatPages(h.flat, a);
  }

  /** One access leaves the swap file in order. */
  lemma {:induction false} SwapStep(alg: Algorithm, plan: seq<Page>, swapsize: nat, h: History, a: Access, t: Passage,
                                    h': History)
    requires SwapOk(swapsize, plan, h, t.m) && Inv(t.m, h.flat, h.n) && h.rs[h.i] == Residents(t.m)
             && |h.rs| == h.i + 1 && 0 < |t.m.coremap|
    requires h.i < |plan| && a.Page() == plan[h.i] < PAGES && Transition(alg, plan, Queue(h), h.n, a, t)
    requires h' == Next(alg, h, a, t.m, t.m3)
    ensures SwapOk(swapsize, plan, h', t.m3)
  {
    SwapTransition(alg, plan, Queue(h), h.flat, h.n, a, t);
    NextIs(alg, h, a, t.m, t.m3);
    SwapNext(swapsize, plan, h, a, t.m, t.m3, h');
  }

  // ---------------------------------------------------------------- enough swap

  /** Only pages that have been referenced are evicted, and none before as many have been as there are frames. */
  lemma {:induction false} EvictedWereSeen(k: nat, plan: seq<Page>, rs: seq<set<Page>>, i: nat)
    requires 0 < k && i <= |plan| && i < |rs| && rs[0] == {}
    requires forall j {:trigger plan[j]} :: 0 <= j < i ==> Step(k, rs[j], plan[j], rs[j + 1])
    ensures EverEvicted(rs, i) + rs[i] <= Seen(plan, 0, i)
    ensures EverEvicted(rs, i) != {} ==> |Seen(plan, 0, i)| > k
  {
    if i > 0 {
      var j := i - 1;
      EvictedWereSeen(k, plan, rs, j);
      assert Step(k, rs[j], plan[j], rs[j + 1]);
      SubsetSize(Seen(plan, 0, j), Seen(plan, 0, i));
      if EverEvicted(rs, j) == {} && rs[j] - rs[i] != {} {
        SubsetSize(rs[j] + {plan[j]}, Seen(plan, 0, i));
      }
    }
  }
}
