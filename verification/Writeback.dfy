/** Which pages are dirty, and how many evictions have written one to swap (a2/starter/pagetable.c).

    A page is dirty while it is in memory if swap does not have what it holds: because it has never been
    evicted, or because it has been written to (access S or M) since it was last brought in.  The simulator has
    a bit for this in the page table entry, and counts the evictions of dirty pages and of clean ones.  Here
    both are said in terms of the run of resident sets and of the trace.
 */
module Writebacks {
  import opened Paging
  import opened PageTables
  import opened Machines
  import opened Policies
  import opened Replays
  import opened SwapSpaces
  import SecondChance

  // ---------------------------------------------------------------- in a paging run

  /** Page p has been written to in one of the first i references, and has been in memory ever since. */
  ghost predicate WrittenSince(log: seq<Access>, rs: seq<set<Page>>, i: nat, p: Page)
    requires i <= |log| && i < |rs|
  {
    exists t {:trigger log[t]} :: 0 <= t < i && log[t].Page() == p && (log[t].kind == 'S' || log[t].kind == 'M')
                                  && forall u :: t < u <= i ==> p in rs[u]
  }

  /** Swap does not have what page p holds. */
  ghost predicate Unsaved(log: seq<Access>, rs: seq<set<Page>>, i: nat, p: Page)
    requires i <= |log| && i < |rs|
  {
    p !in EverEvicted(rs, i) || WrittenSince(log, rs, i, p)
  }

  ghost function UnsavedOf(out: set<Page>, log: seq<Access>, rs: seq<set<Page>>, i: nat): set<Page>
    requires i <= |log| && i < |rs|
  {
    set v | v in out && Unsaved(log, rs, i, v)
  }

  /** How many of the first i references have evicted such a page. */
  ghost function DirtyEvictions(log: seq<Access>, rs: seq<set<Page>>, i: nat): nat
    requires i <= |log| && i < |rs|
  {
    if i == 0 then 0
    else DirtyEvictions(log, rs, i - 1) + |UnsavedOf(rs[i - 1] - rs[i], log, rs, i - 1)|
  }

  /** How many have evicted another one. */
  ghost function CleanEvictions(log: seq<Access>, rs: seq<set<Page>>, i: nat): nat
    requires i <= |log| && i < |rs|
  {
    if i == 0 then 0
    else CleanEvictions(log, rs, i - 1) + |rs[i - 1] - rs[i] - UnsavedOf(rs[i - 1] - rs[i], log, rs, i - 1)|
  }

  /** All this depends on the run so far only. */
  lemma {:induction false} WrittenPrefix(log: seq<Access>, rs: seq<set<Page>>, a: Access, r: set<Page>, i: nat, p: Page)
    requires i <= |log| && i < |rs|
    ensures WrittenSince(log + [a], rs + [r], i, p) == WrittenSince(log, rs, i, p)
  {
    var log', rs' := log + [a], rs + [r];
    assert forall t :: 0 <= t < i ==> log'[t] == log[t];
    assert forall u :: 0 <= u <= i ==> rs'[u] == rs[u];
  }

  lemma {:induction false} EvictionsPrefix(log: seq<Access>, rs: seq<set<Page>>, a: Access, r: set<Page>, i: nat)
    requires i <= |log| && i < |rs|
    ensures DirtyEvictions(log + [a], rs + [r], i) == DirtyEvictions(log, rs, i)
    ensures CleanEvictions(log + [a], rs + [r], i) == CleanEvictions(log, rs, i)
  {
    if i > 0 {
      EvictionsPrefix(log, rs, a, r, i - 1);
      UnsavedPrefix(log, rs, a, r, i - 1);
      var rs' := rs + [r];
      assert rs'[i - 1] == rs[i - 1] && rs'[i] == rs[i];
      SameCounts(rs[i - 1] - rs[i], log, rs, log + [a], rs', i - 1);
    }
  }

  lemma UnsavedPrefix(log: seq<Access>, rs: seq<set<Page>>, a: Access, r: set<Page>, i: nat)
    requires i <= |log| && i < |rs|
    ensures forall p :: Unsaved(log + [a], rs + [r], i, p) == Unsaved(log, rs, i, p)
  {
    EvictedPrefix(0, rs, r, i);
    forall p ensures Unsaved(log + [a], rs + [r], i, p) == Unsaved(log, rs, i, p) {
      WrittenPrefix(log, rs, a, r, i, p);
    }
  }

  lemma SameCounts(out: set<Page>, log: seq<Access>, rs: seq<set<Page>>, log': seq<Access>, rs': seq<set<Page>>, i: nat)
    requires i <= |log| && i < |rs| && i <= |log'| && i < |rs'|
    requires forall p :: Unsaved(log', rs', i, p) == Unsaved(log, rs, i, p)
    ensures UnsavedOf(out, log', rs', i) == UnsavedOf(out, log, rs, i)
  {
  }

  /** One reference more: a page that stays in memory has been written to since if it had, or if this writes to it. */
  lemma {:induction false} WrittenStep(log: seq<Access>, rs: seq<set<Page>>, a: Access, r: set<Page>, i: nat, p: Page)
    requires i == |log| && |rs| == i + 1
    ensures WrittenSince(log + [a], rs + [r], i + 1, p) <==>
            p in r && (WrittenSince(log, rs, i, p) || (a.Page() == p && (a.kind == 'S' || a.kind == 'M')))
  {
    var log', rs' := log + [a], rs + [r];
    assert log'[i] == a && rs'[i + 1] == r;
    assert forall t :: 0 <= t < i ==> log'[t] == log[t];
    assert forall u :: 0 <= u <= i ==> rs'[u] == rs[u];
    if WrittenSince(log, rs, i, p) && p in r {
      var t :| 0 <= t < i && log[t].Page() == p && (log[t].kind == 'S' || log[t].kind == 'M')
               && forall u :: t < u <= i ==> p in rs[u];
      assert log'[t] == log[t];
      assert forall u :: t < u <= i + 1 ==> p in rs'[u];
    }
    if WrittenSince(log', rs', i + 1, p) {
      var t :| 0 <= t < i + 1 && log'[t].Page() == p && (log'[t].kind == 'S' || log'[t].kind == 'M')
               && forall u :: t < u <= i + 1 ==> p in rs'[u];
      assert p in rs'[i + 1];
      if t < i {
        assert log[t] == log'[t];
        assert forall u :: t < u <= i ==> p in rs[u];
      }
    }
  }

  /** The accesses still to come do not matter. */
  lemma WrittenRead(log: seq<Access>, rs: seq<set<Page>>, i: nat, p: Page)
    requires i <= |log| && i < |rs|
    ensures WrittenSince(log[..i], rs, i, p) == WrittenSince(log, rs, i, p)
  {
    assert forall t :: 0 <= t < i ==> log[..i][t] == log[t];
  }

  /** A page that is not in memory has not been written to since it was. */
  lemma WrittenIsResident(log: seq<Access>, rs: seq<set<Page>>, i: nat, p: Page)
    requires i <= |log| && i < |rs|
    ensures WrittenSince(log, rs, i, p) ==> p in rs[i]
  {
  }

  /** The counts after one more reference. */
  lemma EvictionsStep(log: seq<Access>, rs: seq<set<Page>>, a: Access, r: set<Page>, i: nat)
    requires i == |log| && |rs| == i + 1
    ensures DirtyEvictions(log + [a], rs + [r], i + 1) ==
            DirtyEvictions(log, rs, i) + |UnsavedOf(rs[i] - r, log, rs, i)|
    ensures CleanEvictions(log + [a], rs + [r], i + 1) ==
            CleanEvictions(log, rs, i) + |rs[i] - r - UnsavedOf(rs[i] - r, log, rs, i)|
  {
    EvictionsPrefix(log, rs, a, r, i);
    UnsavedPrefix(log, rs, a, r, i);
    var rs' := rs + [r];
    assert rs'[i] == rs[i] && rs'[i + 1] == r;
    SameCounts(rs[i] - r, log, rs, log + [a], rs', i);
  }

  // ---------------------------------------------------------------- the bit in the entry

  /** A valid page is dirty if swap does not have what it holds; one that is not valid is on swap if it has been
      evicted. */
  ghost predicate EntryOk(h: History, m: Machine, p: Page)
    requires h.i <= |h.log| && h.i < |h.rs| && p < |m.ptes|
  {
    if m.ptes[p].valid then m.ptes[p].dirty == Unsaved(h.log, h.rs, h.i, p)
    else m.ptes[p].onSwap == (p in EverEvicted(h.rs, h.i))
  }

  /** The dirty bits and the counts of evictions are those of the run. */
  ghost predicate WrittenBack(h: History, m: Machine) {
    && Sized(m) && |h.log| == h.i && |h.rs| == h.i + 1
    && (forall p {:trigger EntryOk(h, m, p)} :: 0 <= p < PAGES ==> EntryOk(h, m, p))
    && m.counters.dirty == DirtyEvictions(h.log, h.rs, h.i)
    && m.counters.clean == CleanEvictions(h.log, h.rs, h.i)
  }

  // ---------------------------------------------------------------- one access

  /** What an access does to the entries, seen from the dirty bits. */
  ghost predicate BitsMoved(m: Machine, m': Machine, a: Access)
    requires Sized(m) && Sized(m')
  {
    var p, out := a.Page(), Residents(m) - Residents(m');
    && p < PAGES && m'.ptes[p].valid
    && m'.ptes[p].dirty == ((if m.ptes[p].valid then m.ptes[p].dirty else !m.ptes[p].onSwap)
                            || a.kind == 'S' || a.kind == 'M')
    && (forall v :: v in out ==> m'.ptes[v].onSwap)
    && (forall q {:trigger m'.ptes[q]} :: 0 <= q < PAGES && q != p && q !in out ==>
          m'.ptes[q].valid == m.ptes[q].valid && m'.ptes[q].dirty == m.ptes[q].dirty
          && m'.ptes[q].onSwap == m.ptes[q].onSwap)
  }

  ghost function DirtyOf(out: set<Page>, m: Machine): set<Page> {
    set v | v in out && v < |m.ptes| && m.ptes[v].dirty
  }

  /** And to the counts. */
  ghost predicate EvictionsCounted(m: Machine, m': Machine)
    requires Sized(m) && Sized(m')
  {
    var out := Residents(m) - Residents(m');
    && m'.counters.dirty == m.counters.dirty + |DirtyOf(out, m)|
    && m'.counters.clean == m.counters.clean + |out - DirtyOf(out, m)|
  }

  /** A page that is missing is brought in: it is dirty if it is new, or if the access writes to it. */
  lemma FetchedBits(m: Machine, flat: map<Page, Content>, n: nat, f: nat, a: Access)
    requires Inv(m, flat, n) && AccessDefined(m, f, a)
    requires !m.ptes[a.Page()].valid ==> Choosable(m, n, f)
    ensures var p, m' := a.Page(), Accessed(m, f, a);
            && m'.ptes[p].valid
            && m'.ptes[p].dirty == ((if m.ptes[p].valid then m.ptes[p].dirty else !m.ptes[p].onSwap)
                                    || a.kind == 'S' || a.kind == 'M')
  {
    var p := a.Page();
    assert PageOk(m, flat, p);
    if !m.ptes[p].valid && f < n {
      assert FrameOk(m, n, f);
      assert Evicted(m, f).ptes[p] == m.ptes[p];
    }
  }

  lemma OneOut(m: Machine, v: Page)
    requires v < |m.ptes|
    ensures DirtyOf({v}, m) == (if m.ptes[v].dirty then {v} else {})
    ensures {v} - DirtyOf({v}, m) == (if m.ptes[v].dirty then {} else {v})
  {
  }

  /** The counter of the eviction is the one for the page's bit. */
  lemma CountedEviction(m: Machine, f: nat, a: Access)
    requires AccessDefined(m, f, a)
    ensures var e, c, c' := !m.ptes[a.Page()].valid && m.coremap[f].inUse, m.counters, Accessed(m, f, a).counters;
            && c'.dirty == c.dirty + (if e && m.ptes[m.coremap[f].pte].dirty then 1 else 0)
            && c'.clean == c.clean + (if e && !m.ptes[m.coremap[f].pte].dirty then 1 else 0)
  {
  }

  lemma {:induction false} AccessWrites(m: Machine, flat: map<Page, Content>, n: nat, f: nat, a: Access)
    requires Inv(m, flat, n) && AccessDefined(m, f, a)
    requires !m.ptes[a.Page()].valid ==> Choosable(m, n, f)
    ensures BitsMoved(m, Accessed(m, f, a), a) && EvictionsCounted(m, Accessed(m, f, a))
  {
    var m', p := Accessed(m, f, a), a.Page();
    FetchedBits(m, flat, n, f, a);
    CountedEviction(m, f, a);
    if !m.ptes[p].valid && f < n {
      var v := m.coremap[f].pte;
      assert FrameOk(m, n, f);
      EvictedSlot(m, flat, n, f, a);
      AccessedOthers(m, flat, n, f, a, v);
      OneLeaves(m, m', p, v);
      OneOut(m, v);
    } else {
      assert !m.ptes[p].valid ==> FrameOk(m, n, f);
      AccessedOthers(m, flat, n, f, a, p);
      NoneLeaves(m, m', p);
    }
  }

  /** One transition of the simulator: choosing a victim and telling the policy change neither. */
  lemma {:induction false} TransitionWrites(alg: Algorithm, plan: seq<Page>, q: seq<SecondChance.Slot>,
                                            flat: map<Page, Content>, n: nat, a: Access, t: Passage)
    requires Inv(t.m, flat, n) && a.Page() < PAGES && Transition(alg, plan, q, n, a, t)
    ensures Sized(t.m3) && BitsMoved(t.m, t.m3, a) && EvictionsCounted(t.m, t.m3)
  {
    var m2 := Accessed(t.m1, t.f, a);
    ChoiceKeeps(alg, plan, q, flat, n, t.m, t.pol, t.f, a.Page(), t.m1, t.pol1);
    ChoiceBits(alg, plan, q, n, t.m, t.pol, t.f, a.Page(), t.m1, t.pol1);
    ReferenceMarks(alg, plan, m2, t.pol1, a.Page(), t.m3, t.pol3);
    AccessWrites(t.m1, flat, n, t.f, a);
    BitsThrough(t.m, t.m1, m2, t.m3, a);
  }

  /** The entries but for their reference bits, and the counts, are the same. */
  ghost predicate SameBits(m: Machine, m': Machine)
    requires Sized(m) && Sized(m')
  {
    && m'.counters == m.counters && Residents(m') == Residents(m)
    && forall q {:trigger m'.ptes[q]} :: 0 <= q < PAGES ==>
         m'.ptes[q].valid == m.ptes[q].valid && m'.ptes[q].dirty == m.ptes[q].dirty
         && m'.ptes[q].onSwap == m.ptes[q].onSwap
  }

  lemma {:induction false} ChoiceBits(alg: Algorithm, plan: seq<Page>, q: seq<SecondChance.Slot>, n: nat, m: Machine,
                                      pol: Policy, f: nat, p: Page, m1: Machine, pol1: Policy)
    requires Sized(m) && p < PAGES && Choice(alg, plan, q, m, pol, n, f, p, m1, pol1)
    ensures Sized(m1) && SameBits(m, m1)
  {
    if !m.ptes[p].valid && n == |m.coremap| {
      ChoiceMarks(alg, plan, q, m, pol, m1, pol1, f);
      assert forall u :: 0 <= u < PAGES ==> m1.ptes[u].valid == m.ptes[u].valid;
    }
  }

  lemma {:induction false} BitsThrough(m: Machine, m1: Machine, m2: Machine, m3: Machine, a: Access)
    requires Sized(m) && Sized(m1) && Sized(m2) && Sized(m3) && SameBits(m, m1)
    requires m3.ptes == m2.ptes && m3.counters == m2.counters
    requires BitsMoved(m1, m2, a) && EvictionsCounted(m1, m2)
    ensures BitsMoved(m, m3, a) && EvictionsCounted(m, m3)
  {
    assert Residents(m3) == Residents(m2);
    var out := Residents(m) - Residents(m3);
    assert DirtyOf(out, m1) == DirtyOf(out, m);
  }

  /** One entry before and after a reference: mine says whether it is that of the page referenced, write whether it is
      written to, and out whether it is evicted; ever, whether it has been evicted so far, and since, whether it
      has been written to since it was brought in. */
  lemma BitFollows(e: Pte, e': Pte, mine: bool, write: bool, out: bool, ever: bool, ever': bool, since: bool,
                   since': bool)
    requires if e.valid then e.dirty == (!ever || since) else e.onSwap == ever
    requires mine ==> e'.valid && e'.dirty == ((if e.valid then e.dirty else !e.onSwap) || write)
    requires out <==> e.valid && !e'.valid
    requires out ==> e'.onSwap
    requires !mine && !out ==> e'.valid == e.valid && e'.dirty == e.dirty && e'.onSwap == e.onSwap
    requires ever' == (ever || out) && since' == (e'.valid && (since || (mine && write))) && (since ==> e.valid)
    ensures if e'.valid then e'.dirty == (!ever' || since') else e'.onSwap == ever'
  {
  }

  /** The entries agree with the run of one more reference. */
  lemma {:induction false} EntryFollows(h: History, a: Access, m: Machine, m': Machine, h': History, p: Page)
    requires WrittenBack(h, m) && h.rs[h.i] == Residents(m) && Sized(m') && BitsMoved(m, m', a)
    requires h'.i == h.i + 1 && h'.rs == h.rs + [Residents(m')] && h'.log == h.log + [a] && p < PAGES
    ensures EntryOk(h', m', p)
  {
    assert EntryOk(h, m, p);
    EvictedStep(0, h.rs, Residents(m'), h.i);
    WrittenStep(h.log, h.rs, a, Residents(m'), h.i, p);
    WrittenIsResident(h.log, h.rs, h.i, p);
    var out := p in Residents(m) - Residents(m');
    assert out <==> m.ptes[p].valid && !m'.ptes[p].valid;
    BitFollows(m.ptes[p], m'.ptes[p], p == a.Page(), a.kind == 'S' || a.kind == 'M', out,
               p in EverEvicted(h.rs, h.i), p in EverEvicted(h'.rs, h'.i),
               WrittenSince(h.log, h.rs, h.i, p), WrittenSince(h'.log, h'.rs, h'.i, p));
  }

  lemma DirtyAreUnsaved(h: History, m: Machine, out: set<Page>)
    requires WrittenBack(h, m) && out <= Residents(m)
    ensures DirtyOf(out, m) == UnsavedOf(out, h.log, h.rs, h.i)
  {
    forall v | v in out ensures m.ptes[v].dirty == Unsaved(h.log, h.rs, h.i, v) {
      assert EntryOk(h, m, v);
    }
  }

  /** One access keeps the dirty bits and the counts of evictions right. */
  lemma {:induction false} WritebackStep(alg: Algorithm, plan: seq<Page>, h: History, a: Access, t: Passage,
                                         h': History)
    requires WrittenBack(h, t.m) && Inv(t.m, h.flat, h.n) && h.rs[h.i] == Residents(t.m) && 0 < |t.m.coremap|
    requires a.Page() < PAGES && Transition(alg, plan, Queue(h), h.n, a, t)
    requires h' == Next(alg, h, a, t.m, t.m3)
    ensures WrittenBack(h', t.m3)
  {
    TransitionWrites(alg, plan, Queue(h), h.flat, h.n, a, t);
    DirtyAreUnsaved(h, t.m, Residents(t.m) - Residents(t.m3));
    EvictionsStep(h.log, h.rs, a, Residents(t.m3), h.i);
    forall p | 0 <= p < PAGES ensures EntryOk(h', t.m3, p) {
      EntryFollows(h, a, t.m, t.m3, h', p);
    }
  }
}
