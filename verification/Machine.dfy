/** The state of the simulated machine and what one memory access does to it, as values
    (a2/starter/pagetable.c and a2/starter/sim.c). */
module Machines {
  // The class Simulator carries these steps out in place. Here they are functions of the
  // old state and of the frame chosen, and the invariant of every run is proved about
  // them: paging and swapping are invisible, whatever frames are chosen.

  import opened Paging
  import opened PageTables
  import opened Swaps

  /** A line of the trace: the kind of access ('I', 'L', 'S' or 'M') and the address. */
  datatype Access = Access(kind: char, vaddr: nat)
  {
    function Page(): Page { PageOf(vaddr) }

    predicate IsWrite() { kind == 'S' || kind == 'M' }
  }

  /** The bytes of a simulated page that are used: a version number, and an address. */
  datatype Content = Content(version: nat, vaddr: nat)

  /** An entry of the coremap. */
  datatype Frame = Frame(inUse: bool, pte: Page, page: Page)

  datatype Counters = Counters(hits: nat, misses: nat, refs: nat, clean: nat, dirty: nat)

  datatype Machine = Machine(
    ptes: seq<Pte>, coremap: seq<Frame>, physmem: seq<Content>, swap: SwapState<Content>, counters: Counters)

  // ---------------------------------------------------------------- the steps

  predicate Sized(m: Machine) {
    && |m.ptes| == PAGES
    && |m.physmem| == |m.coremap|
    && |m.swap.file| == |m.swap.used|
  }

  predicate SlotInFile(m: Machine, p: Page)
    requires Sized(m)
  {
    p < PAGES && (m.ptes[p].swapOff != INVALID_SWAP ==>
      0 <= m.ptes[p].swapOff && m.ptes[p].swapOff / SIMPAGESIZE < |m.swap.file|)
  }

  /** The page in frame f goes to swap: a dirty page is written, a clean one is not. */
  function Evicted(m: Machine, f: nat): (m': Machine)
    requires Sized(m) && f < |m.coremap| && SlotInFile(m, m.coremap[f].pte)
    ensures Sized(m')
  {
    var p := m.coremap[f].pte;
    var e := m.ptes[p];
    var (swap, off) := if e.dirty then WriteOut(m.swap, m.physmem[f], e.swapOff) else (m.swap, e.swapOff);
    m.(swap := swap,
       ptes := m.ptes[p := e.(valid := false, ref := false, onSwap := true, swapOff := off)],
       counters := if e.dirty then m.counters.(dirty := m.counters.dirty + 1)
                   else m.counters.(clean := m.counters.clean + 1))
  }

  /** Frame f is recorded as holding page p. */
  function Claimed(m: Machine, f: nat, p: Page): (m': Machine)
    requires Sized(m) && f < |m.coremap|
    ensures Sized(m')
  {
    m.(coremap := m.coremap[f := m.coremap[f].(inUse := true, pte := p)])
  }

  /** The contents of the accessed page arrive in frame f: from swap, or fresh. */
  function Fetched(m: Machine, f: nat, a: Access): (m': Machine)
    requires Sized(m) && f < |m.coremap| && SlotInFile(m, a.Page())
    requires m.ptes[a.Page()].onSwap ==> m.ptes[a.Page()].swapOff != INVALID_SWAP
    ensures Sized(m')
  {
    var e := m.ptes[a.Page()];
    if e.onSwap then
      m.(physmem := m.physmem[f := m.swap.file[e.swapOff / SIMPAGESIZE]],
         ptes := m.ptes[a.Page() := Pte(f, false, false, false, false, e.swapOff)])
    else
      m.(physmem := m.physmem[f := Content(0, a.vaddr)],
         ptes := m.ptes[a.Page() := Pte(f, false, true, false, false, INVALID_SWAP)])
  }

  /** The entry is marked valid and referenced, and dirty if the access will write. */
  function Marked(m: Machine, a: Access): (m': Machine)
    requires Sized(m) && a.Page() < PAGES
    ensures Sized(m')
  {
    var e := m.ptes[a.Page()];
    m.(ptes := m.ptes[a.Page() := e.(valid := true, ref := true, dirty := e.dirty || a.IsWrite())])
  }

  /** A write increments the version of the page in frame g. */
  function Bumped(m: Machine, g: nat, a: Access): (m': Machine)
    requires Sized(m) && g < |m.physmem|
    ensures Sized(m')
  {
    var c := m.physmem[g];
    m.(physmem := m.physmem[g := if a.IsWrite() then c.(version := c.version + 1) else c])
  }

  /** The entry is marked and, for a write, the page is changed. */
  function Touched(m: Machine, a: Access): (m': Machine)
    requires Sized(m) && a.Page() < PAGES && m.ptes[a.Page()].frame < |m.physmem|
    ensures Sized(m')
  {
    Bumped(Marked(m, a), m.ptes[a.Page()].frame, a)
  }

  // ---------------------------------------------------------------- flat memory

  /** What a memory without frames or swap would hold after one more access: the first
      access to a page stores its address there, and each write increments its version. */
  function FlatStep(flat: map<Page, Content>, a: Access): map<Page, Content> {
    var c := if a.Page() in flat then flat[a.Page()] else Content(0, a.vaddr);
    flat[a.Page() := if a.IsWrite() then c.(version := c.version + 1) else c]
  }

  function FlatFetch(flat: map<Page, Content>, a: Access): map<Page, Content> {
    if a.Page() in flat then flat else flat[a.Page() := Content(0, a.vaddr)]
  }

  // ---------------------------------------------------------------- the invariant

  /** Page p is where its entry says, and a valid page that is not dirty equals its swap copy. */
  ghost predicate PageOk(m: Machine, flat: map<Page, Content>, p: Page)
    requires Sized(m)
  {
    && SlotInFile(m, p)
    && var e := m.ptes[p];
    && (p !in flat ==> e == UNTOUCHED)
    && (p in flat ==> e.valid || e.onSwap)
    && (e.valid ==>
          && e.frame < |m.coremap| && m.coremap[e.frame].inUse && m.coremap[e.frame].pte == p
          && m.physmem[e.frame] == flat[p]
          && (e.swapOff == INVALID_SWAP ==> e.dirty))
    && (e.swapOff != INVALID_SWAP ==>
          && e.swapOff % SIMPAGESIZE == 0 && m.swap.used[e.swapOff / SIMPAGESIZE]
          && (!e.valid || !e.dirty ==> m.swap.file[e.swapOff / SIMPAGESIZE] == flat[p]))
  }

  /** Frame f holds a page, whose entry points back, exactly when it is one of the first n. */
  ghost predicate FrameOk(m: Machine, n: nat, f: nat)
    requires Sized(m) && f < |m.coremap|
  {
    && m.coremap[f].inUse == (f < n)
    && (f < n ==> m.coremap[f].pte < PAGES && m.ptes[m.coremap[f].pte].valid && m.ptes[m.coremap[f].pte].frame == f)
  }

  ghost predicate SlotApart(m: Machine, p: Page, q: Page)
    requires p < |m.ptes| && q < |m.ptes|
  {
    m.ptes[p].swapOff != INVALID_SWAP ==> m.ptes[p].swapOff != m.ptes[q].swapOff
  }

  /** No two pages share a slot. */
  ghost predicate SlotsApart(m: Machine)
    requires Sized(m)
  {
    forall p, q {:trigger SlotApart(m, p, q)} :: 0 <= p < q < PAGES ==> SlotApart(m, p, q)
  }

  ghost predicate SlotOwned(m: Machine, i: nat)
    requires Sized(m) && i < |m.swap.used|
  {
    m.swap.used[i] ==> exists p :: 0 <= p < PAGES && m.ptes[p].swapOff == i * SIMPAGESIZE
  }

  /** Every used slot belongs to some page. */
  ghost predicate SlotsOwned(m: Machine)
    requires Sized(m)
  {
    forall i {:trigger SlotOwned(m, i)} :: 0 <= i < |m.swap.used| ==> SlotOwned(m, i)
  }

  ghost predicate PagesOk(m: Machine, flat: map<Page, Content>) {
    && Sized(m)
    && (forall p :: p in flat ==> p < PAGES)
    && (forall p :: 0 <= p < PAGES ==> PageOk(m, flat, p))
    && SlotsApart(m)
    && SlotsOwned(m)
  }

  /** The invariant between two accesses, with n frames in use. */
  ghost predicate Inv(m: Machine, flat: map<Page, Content>, n: nat) {
    && PagesOk(m, flat)
    && n <= |m.coremap|
    && (forall f :: 0 <= f < |m.coremap| ==> FrameOk(m, n, f))
  }

  /** The same, while frame f has been taken from its page, or is the first free one. */
  ghost predicate Vacant(m: Machine, flat: map<Page, Content>, n: nat, f: nat) {
    && PagesOk(m, flat)
    && f <= n <= |m.coremap| && f < |m.coremap|
    && (forall p :: 0 <= p < PAGES && m.ptes[p].valid ==> m.ptes[p].frame != f)
    && (forall g :: 0 <= g < |m.coremap| && g != f ==> FrameOk(m, n, g))
  }

  /** The page has been evicted while the swap file was full: its contents are gone. */
  predicate Lost(m: Machine, p: Page)
    requires Sized(m) && p < PAGES
  {
    !m.ptes[p].valid && m.ptes[p].onSwap && m.ptes[p].swapOff == INVALID_SWAP
  }

  /** The slots stay apart and owned while no page gets or gives back one. */
  lemma SlotsKept(m: Machine, m': Machine)
    requires Sized(m) && Sized(m') && SlotsApart(m) && SlotsOwned(m)
    requires forall q :: 0 <= q < PAGES ==> m'.ptes[q].swapOff == m.ptes[q].swapOff
    requires m'.swap == m.swap
    ensures SlotsApart(m') && SlotsOwned(m')
  {
    forall p, q | 0 <= p < q < PAGES ensures SlotApart(m', p, q) {
      assert SlotApart(m, p, q);
    }
    forall i | 0 <= i < |m.swap.used| ensures SlotOwned(m', i) {
      assert SlotOwned(m, i);
      if m.swap.used[i] {
        var p :| 0 <= p < PAGES && m.ptes[p].swapOff == i * SIMPAGESIZE;
        assert m'.ptes[p].swapOff == i * SIMPAGESIZE;
      }
    }
  }

  lemma EvictVacates(m: Machine, flat: map<Page, Content>, n: nat, f: nat)
    requires Inv(m, flat, n) && f < n
    ensures PageOk(m, flat, m.coremap[f].pte) && Vacant(Evicted(m, f), flat, n, f)
  {
    assert FrameOk(m, n, f);
    var v := m.coremap[f].pte;
    assert PageOk(m, flat, v);
    var m' := Evicted(m, f);
    forall p | 0 <= p < PAGES ensures PageOk(m', flat, p) {
      assert PageOk(m, flat, p);
      assert p < v ==> SlotApart(m, p, v);
      assert v < p ==> SlotApart(m, v, p);
    }
    forall p | 0 <= p < PAGES && m'.ptes[p].valid ensures m'.ptes[p].frame != f {
      assert PageOk(m, flat, p);
    }
    forall g | 0 <= g < |m.coremap| && g != f ensures FrameOk(m', n, g) {
      assert FrameOk(m, n, g);
    }
    EvictSlots(m, flat, f);
  }

  /** Evicting hands out at most one free slot. */
  lemma EvictSlots(m: Machine, flat: map<Page, Content>, f: nat)
    requires PagesOk(m, flat) && f < |m.coremap| && PageOk(m, flat, m.coremap[f].pte)
    ensures SlotsApart(Evicted(m, f)) && SlotsOwned(Evicted(m, f))
  {
    var v := m.coremap[f].pte;
    var m' := Evicted(m, f);
    forall p, q | 0 <= p < q < PAGES ensures SlotApart(m', p, q) {
      assert SlotApart(m, p, q) && PageOk(m, flat, p) && PageOk(m, flat, q);
    }
    forall i | 0 <= i < |m'.swap.used| ensures SlotOwned(m', i) {
      assert SlotOwned(m, i);
      if m.swap.used[i] {
        var p :| 0 <= p < PAGES && m.ptes[p].swapOff == i * SIMPAGESIZE;
        assert m'.ptes[p].swapOff == i * SIMPAGESIZE;
      } else if m'.swap.used[i] {
        assert m'.ptes[v].swapOff == i * SIMPAGESIZE;
      }
    }
  }

  lemma FreeIsVacant(m: Machine, flat: map<Page, Content>, n: nat)
    requires Inv(m, flat, n) && n < |m.coremap|
    ensures Vacant(m, flat, n, n)
  {
    forall p | 0 <= p < PAGES && m.ptes[p].valid ensures m.ptes[p].frame != n {
      assert PageOk(m, flat, p);
      assert FrameOk(m, n, n);
    }
  }

  /** Loading a page that is not lost into a vacant frame brings back what it last held. */
  lemma FetchFills(m: Machine, flat: map<Page, Content>, n: nat, f: nat, a: Access)
    requires Vacant(m, flat, n, f) && a.Page() < PAGES
    requires !m.ptes[a.Page()].valid && !Lost(m, a.Page())
    ensures PageOk(m, flat, a.Page())
    ensures var m' := Touched(Fetched(Claimed(m, f, a.Page()), f, a), a.(kind := 'L'));
            Inv(m', FlatFetch(flat, a), if f < n then n else n + 1) && m'.ptes[a.Page()].valid
  {
    var p := a.Page();
    assert PageOk(m, flat, p);
    var m' := Touched(Fetched(Claimed(m, f, p), f, a), a.(kind := 'L'));
    var flat', n' := FlatFetch(flat, a), if f < n then n else n + 1;
    forall q | 0 <= q < PAGES ensures PageOk(m', flat', q) {
      assert PageOk(m, flat, q);
    }
    forall g | 0 <= g < |m.coremap| ensures FrameOk(m', n', g) {
      assert g != f ==> FrameOk(m, n, g);
    }
    SlotsKept(m, m');
  }

  /** Touching a valid page keeps the invariant, for reads and for writes. */
  lemma TouchKeeps(m: Machine, flat: map<Page, Content>, n: nat, a: Access)
    requires Inv(m, flat, n) && a.Page() < PAGES && m.ptes[a.Page()].valid
    ensures PageOk(m, flat, a.Page()) && Inv(Touched(m, a), FlatStep(flat, a), n)
  {
    var p := a.Page();
    assert PageOk(m, flat, p);
    var m' := Touched(m, a);
    var flat' := FlatStep(flat, a);
    forall q | 0 <= q < PAGES ensures PageOk(m', flat', q) {
      assert PageOk(m, flat, q);
    }
    forall g | 0 <= g < |m.coremap| ensures FrameOk(m', n, g) {
      assert FrameOk(m, n, g);
    }
    SlotsKept(m, m');
  }

  /** Before the first access: no frame is in use, no page has been touched, no slot is taken. */
  ghost predicate IsInitial(m: Machine, k: nat, swapsize: nat) {
    && m.ptes == seq(PAGES, _ => UNTOUCHED)
    && m.coremap == seq(k, _ => Frame(false, 0, 0)) && |m.physmem| == k
    && m.swap.used == seq(swapsize, _ => false) && |m.swap.file| == swapsize
    && m.counters == Counters(0, 0, 0, 0, 0)
  }

  lemma InitialInv(m: Machine, k: nat, swapsize: nat)
    requires IsInitial(m, k, swapsize)
    ensures Inv(m, map[], 0) && Counted(m, 0) && Residents(m) == {}
  {
    forall p | 0 <= p < PAGES ensures PageOk(m, map[], p) {
      assert m.ptes[p] == UNTOUCHED;
    }
    forall f | 0 <= f < k ensures FrameOk(m, 0, f) {
      assert m.coremap[f] == Frame(false, 0, 0);
    }
    forall p, q | 0 <= p < q < PAGES ensures SlotApart(m, p, q) {
      assert m.ptes[p] == UNTOUCHED;
    }
    assert forall i :: 0 <= i < |m.swap.used| ==> SlotOwned(m, i);
  }

  // ---------------------------------------------------------------- one access as a whole

  function CountedMiss(m: Machine): (m': Machine)
    ensures Sized(m) ==> Sized(m')
  {
    m.(counters := m.counters.(misses := m.counters.misses + 1))
  }

  /** What a page fault does before the entry is marked: frame f is emptied, claimed and filled. */
  function Faulted(m: Machine, f: nat, a: Access): (m': Machine)
    requires Sized(m) && SlotInFile(m, a.Page()) && !Lost(m, a.Page()) && !m.ptes[a.Page()].valid
    requires f < |m.coremap| && (m.coremap[f].inUse ==> SlotInFile(m, m.coremap[f].pte) && m.coremap[f].pte != a.Page())
    ensures Sized(m')
  {
    var m1 := if m.coremap[f].inUse then Evicted(m, f) else m;
    CountedMiss(Fetched(Claimed(m1, f, a.Page()), f, a))
  }

  function CountedHit(m: Machine): (m': Machine)
    ensures Sized(m) ==> Sized(m')
  {
    m.(counters := m.counters.(hits := m.counters.hits + 1))
  }

  function CountedRef(m: Machine): (m': Machine)
    ensures Sized(m) ==> Sized(m')
  {
    m.(counters := m.counters.(refs := m.counters.refs + 1))
  }

  /** A hit changes nothing but a counter; otherwise there is a page fault. */
  function Served(m: Machine, f: nat, a: Access): (m': Machine)
    requires Sized(m) && SlotInFile(m, a.Page()) && !Lost(m, a.Page())
    requires m.ptes[a.Page()].valid ==> m.ptes[a.Page()].frame < |m.coremap|
    requires !m.ptes[a.Page()].valid ==> f < |m.coremap| && (m.coremap[f].inUse ==>
               SlotInFile(m, m.coremap[f].pte) && m.coremap[f].pte != a.Page())
    ensures Sized(m') && m'.ptes[a.Page()].frame < |m.coremap| == |m'.coremap|
  {
    if m.ptes[a.Page()].valid then CountedHit(m) else Faulted(m, f, a)
  }

  /** What an access does, once frame f has been chosen in case the page is not valid. */
  function Accessed(m: Machine, f: nat, a: Access): (m': Machine)
    requires Sized(m) && SlotInFile(m, a.Page()) && !Lost(m, a.Page())
    requires m.ptes[a.Page()].valid ==> m.ptes[a.Page()].frame < |m.coremap|
    requires !m.ptes[a.Page()].valid ==> f < |m.coremap| && (m.coremap[f].inUse ==>
               SlotInFile(m, m.coremap[f].pte) && m.coremap[f].pte != a.Page())
    ensures Sized(m')
  {
    CountedRef(Touched(Served(m, f, a), a))
  }

  /** A frame that may be chosen: the first free one, or any frame when all are in use. */
  ghost predicate Choosable(m: Machine, n: nat, f: nat) {
    f < |m.coremap| && (n < |m.coremap| ==> f == n)
  }

  /** Paging is invisible: after the access the machine holds what flat memory would hold. */
  lemma AccessKeeps(m: Machine, flat: map<Page, Content>, n: nat, f: nat, a: Access)
    requires Inv(m, flat, n) && a.Page() < PAGES && !Lost(m, a.Page())
    requires !m.ptes[a.Page()].valid ==> Choosable(m, n, f)
    ensures AccessDefined(m, f, a)
    ensures Inv(Accessed(m, f, a), FlatStep(flat, a), if m.ptes[a.Page()].valid || n == |m.coremap| then n else n + 1)
    ensures Accessed(m, f, a).ptes[a.Page()].valid
  {
    var p := a.Page();
    assert PageOk(m, flat, p);
    if m.ptes[p].valid {
      var m1 := CountedHit(m);
      CountersApart(m, flat, n, m1);
      TouchKeeps(m1, flat, n, a);
      CountersApart(Touched(m1, a), FlatStep(flat, a), n, Accessed(m, f, a));
    } else {
      var n' := if f < n then n else n + 1;
      FaultKeeps(m, flat, n, f, a);
      var m1 := Faulted(m, f, a);
      TouchKeeps(Touched(m1, a.(kind := 'L')), FlatFetch(flat, a), n', a);
      TouchTwice(m1, a);
      assert FlatStep(FlatFetch(flat, a), a) == FlatStep(flat, a);
      CountersApart(Touched(m1, a), FlatStep(flat, a), n', Accessed(m, f, a));
    }
  }

  /** A page fault, followed by a read, brings the page back as it was. */
  lemma FaultKeeps(m: Machine, flat: map<Page, Content>, n: nat, f: nat, a: Access)
    requires Inv(m, flat, n) && a.Page() < PAGES && !Lost(m, a.Page()) && !m.ptes[a.Page()].valid && Choosable(m, n, f)
    ensures AccessDefined(m, f, a)
    ensures var m' := Touched(Faulted(m, f, a), a.(kind := 'L'));
            Inv(m', FlatFetch(flat, a), if f < n then n else n + 1) && m'.ptes[a.Page()].valid
  {
    var p := a.Page();
    assert PageOk(m, flat, p) && FrameOk(m, n, f);
    var m1 := m;
    if f < n {
      EvictVacates(m, flat, n, f);
      m1 := Evicted(m, f);
    } else {
      FreeIsVacant(m, flat, n);
    }
    FetchFills(m1, flat, n, f, a);
    var m2 := Fetched(Claimed(m1, f, p), f, a);
    CountersApart(Touched(m2, a.(kind := 'L')), FlatFetch(flat, a), if f < n then n else n + 1,
                  Touched(Faulted(m, f, a), a.(kind := 'L')));
  }

  /** The access meets the preconditions of Accessed. */
  ghost predicate AccessDefined(m: Machine, f: nat, a: Access) {
    && Sized(m) && SlotInFile(m, a.Page()) && !Lost(m, a.Page())
    && (m.ptes[a.Page()].valid ==> m.ptes[a.Page()].frame < |m.coremap|)
    && (!m.ptes[a.Page()].valid ==> f < |m.coremap| && (m.coremap[f].inUse ==>
          SlotInFile(m, m.coremap[f].pte) && m.coremap[f].pte != a.Page()))
  }

  lemma TouchTwice(m: Machine, a: Access)
    requires Sized(m) && a.Page() < PAGES && m.ptes[a.Page()].frame < |m.physmem|
    ensures Touched(Touched(m, a.(kind := 'L')), a) == Touched(m, a)
  {
    var p, f := a.Page(), m.ptes[a.Page()].frame;
    var once := Touched(m, a.(kind := 'L'));
    assert once.physmem == m.physmem;
    assert Touched(once, a).ptes == Touched(m, a).ptes;
  }

  /** The invariant does not depend on the counters. */
  lemma CountersApart(m: Machine, flat: map<Page, Content>, n: nat, m': Machine)
    requires Inv(m, flat, n) && m' == m.(counters := m'.counters)
    ensures Inv(m', flat, n)
  {
    forall p | 0 <= p < PAGES ensures PageOk(m', flat, p) {
      assert PageOk(m, flat, p);
    }
    forall f | 0 <= f < |m.coremap| ensures FrameOk(m', n, f) {
      assert FrameOk(m, n, f);
    }
    SlotsKept(m, m');
  }

  /** Policies may change reference bits, and the page field of frames, but nothing else. */
  ghost predicate SameButMarks(m: Machine, m': Machine) {
    && m' == m.(ptes := m'.ptes, coremap := m'.coremap)
    && |m'.ptes| == |m.ptes| && |m'.coremap| == |m.coremap|
    && (forall p :: 0 <= p < |m.ptes| ==> m'.ptes[p] == m.ptes[p].(ref := m'.ptes[p].ref))
    && (forall p :: 0 <= p < |m.ptes| && !m.ptes[p].valid ==> m'.ptes[p] == m.ptes[p])
    && (forall f :: 0 <= f < |m.coremap| ==> m'.coremap[f] == m.coremap[f].(page := m'.coremap[f].page))
  }

  lemma MarksApart(m: Machine, flat: map<Page, Content>, n: nat, m': Machine)
    requires Inv(m, flat, n) && SameButMarks(m, m')
    ensures Inv(m', flat, n) && Residents(m') == Residents(m)
  {
    forall p | 0 <= p < PAGES ensures PageOk(m', flat, p) {
      assert PageOk(m, flat, p);
    }
    forall f | 0 <= f < |m.coremap| ensures FrameOk(m', n, f) {
      assert FrameOk(m, n, f);
    }
    SlotsKept(m, m');
  }

  // ---------------------------------------------------------------- resident pages

  /** The valid pages. */
  ghost function Residents(m: Machine): set<Page> {
    set p | 0 <= p < |m.ptes| && m.ptes[p].valid
  }

  ghost function FramePages(m: Machine, n: nat): set<Page>
    requires n <= |m.coremap|
  {
    if n == 0 then {} else FramePages(m, n - 1) + {m.coremap[n - 1].pte}
  }

  /** Frames in use and valid entries correspond one to one. */
  lemma {:induction false} ResidentsAreFrames(m: Machine, flat: map<Page, Content>, n: nat)
    requires Inv(m, flat, n)
    ensures |Residents(m)| == n
    ensures forall p :: p in Residents(m) <==> exists f :: 0 <= f < n && m.coremap[f].pte == p
    ensures forall f, g :: 0 <= f < g < n ==> m.coremap[f].pte != m.coremap[g].pte
  {
    forall f, g | 0 <= f < g < n ensures m.coremap[f].pte != m.coremap[g].pte {
      assert FrameOk(m, n, f) && FrameOk(m, n, g);
    }
    forall p ensures p in Residents(m) <==> exists f :: 0 <= f < n && m.coremap[f].pte == p {
      if p in Residents(m) {
        assert PageOk(m, flat, p);
        assert FrameOk(m, n, m.ptes[p].frame);
      }
      if f :| 0 <= f < n && m.coremap[f].pte == p {
        assert FrameOk(m, n, f);
      }
    }
    CountFramePages(m, n);
    forall p ensures p in Residents(m) <==> p in FramePages(m, n) {
      FramePagesHas(m, n, p);
    }
    assert Residents(m) == FramePages(m, n);
  }

  lemma {:induction false} FramePagesHas(m: Machine, n: nat, p: Page)
    requires n <= |m.coremap|
    ensures p in FramePages(m, n) <==> exists f :: 0 <= f < n && m.coremap[f].pte == p
  {
    if n > 0 {
      FramePagesHas(m, n - 1, p);
    }
  }

  lemma {:induction false} CountFramePages(m: Machine, n: nat)
    requires n <= |m.coremap|
    requires forall f, g :: 0 <= f < g < n ==> m.coremap[f].pte != m.coremap[g].pte
    ensures |FramePages(m, n)| == n
  {
    if n > 0 {
      CountFramePages(m, n - 1);
      FramePagesHas(m, n - 1, m.coremap[n - 1].pte);
    }
  }

  /** What the access does to the set of resident pages. */
  lemma AccessResidents(m: Machine, flat: map<Page, Content>, n: nat, f: nat, a: Access)
    requires Inv(m, flat, n) && a.Page() < PAGES && !Lost(m, a.Page())
    requires !m.ptes[a.Page()].valid ==> Choosable(m, n, f)
    requires AccessDefined(m, f, a)
    ensures var r, p := Residents(m), a.Page();
            && Residents(Accessed(m, f, a)) ==
                 (if p in r then r else if n < |m.coremap| then r + {p} else Paging.Swap(r, m.coremap[f].pte, p))
            && (n == |m.coremap| && p !in r ==> m.coremap[f].pte in r)
  {
    var m', r, p := Accessed(m, f, a), Residents(m), a.Page();
    if p !in r {
      assert FrameOk(m, n, f);
      if n == |m.coremap| {
        assert m.coremap[f].pte in r;
        assert Residents(m') == Paging.Swap(r, m.coremap[f].pte, p);
      } else {
        assert Residents(m') == r + {p};
      }
    } else {
      assert Residents(m') == r;
    }
  }

  /** It is one step of a paging run. */
  lemma AccessSteps(m: Machine, flat: map<Page, Content>, n: nat, f: nat, a: Access)
    requires Inv(m, flat, n) && a.Page() < PAGES && !Lost(m, a.Page())
    requires !m.ptes[a.Page()].valid ==> Choosable(m, n, f)
    requires AccessDefined(m, f, a)
    ensures var r, p := Residents(m), a.Page();
            && Residents(Accessed(m, f, a)) ==
                 (if p in r then r else if n < |m.coremap| then r + {p} else Paging.Swap(r, m.coremap[f].pte, p))
            && (n == |m.coremap| && p !in r ==> m.coremap[f].pte in r)
            && Paging.Step(|m.coremap|, r, p, Residents(Accessed(m, f, a)))
  {
    ResidentsAreFrames(m, flat, n);
    AccessResidents(m, flat, n, f, a);
  }

  /** hits + misses = references; every miss took a free frame or evicted a page. */
  ghost predicate Counted(m: Machine, n: nat) {
    && m.counters.hits + m.counters.misses == m.counters.refs
    && m.counters.clean + m.counters.dirty + n == m.counters.misses
  }

  lemma AccessCounts(m: Machine, flat: map<Page, Content>, n: nat, f: nat, a: Access)
    requires Inv(m, flat, n) && Counted(m, n) && AccessDefined(m, f, a)
    requires !m.ptes[a.Page()].valid ==> Choosable(m, n, f)
    ensures Counted(Accessed(m, f, a), if m.ptes[a.Page()].valid || n == |m.coremap| then n else n + 1)
  {
    if !m.ptes[a.Page()].valid {
      assert FrameOk(m, n, f);
    }
  }

  // ---------------------------------------------------------------- swap space

  /** The pages whose contents are gone. */
  ghost function LostPages(m: Machine): set<Page>
    requires Sized(m)
  {
    set p | 0 <= p < PAGES && Lost(m, p)
  }

  /** The pages that own a slot. */
  ghost function Swapped(m: Machine): set<Page> {
    set p | 0 <= p < |m.ptes| && m.ptes[p].swapOff != INVALID_SWAP
  }

  /** All slots are used. */
  predicate SwapFull(m: Machine) {
    FirstFree(m.swap.used, 0) == |m.swap.used|
  }

  /** When all slots from i on are used, at least that many pages own one. */
  lemma {:induction false} UsedSlots(m: Machine, flat: map<Page, Content>, i: nat) returns (owners: set<Page>)
    requires PagesOk(m, flat) && i <= |m.swap.used|
    requires forall j :: i <= j < |m.swap.used| ==> m.swap.used[j]
    ensures |owners| == |m.swap.used| - i && owners <= Swapped(m)
    ensures forall p :: p in owners ==> m.ptes[p].swapOff >= i * SIMPAGESIZE
    decreases |m.swap.used| - i
  {
    owners := {};
    if i < |m.swap.used| {
      var rest := UsedSlots(m, flat, i + 1);
      assert SlotOwned(m, i);
      var p :| 0 <= p < PAGES && m.ptes[p].swapOff == i * SIMPAGESIZE;
      owners := rest + {p};
    }
  }

  /** While some page without a slot is in memory, and there are as many slots as pages
      touched, a slot is free. */
  lemma SlotFree(m: Machine, flat: map<Page, Content>, v: Page)
    requires PagesOk(m, flat) && |flat| <= |m.swap.used|
    requires v in flat && m.ptes[v].swapOff == INVALID_SWAP
    ensures !SwapFull(m)
  {
    if SwapFull(m) {
      var owners := UsedSlots(m, flat, 0);
      forall p | p in owners ensures p in flat.Keys - {v} {
        assert PageOk(m, flat, p);
      }
      SubsetSize(owners, flat.Keys - {v});
    }
  }

  /** The access leaves alone the entries of all pages but the one accessed and the one evicted. */
  lemma OthersKept(m: Machine, f: nat, a: Access, q: Page)
    requires AccessDefined(m, f, a) && q < PAGES && q != a.Page()
    requires !m.ptes[a.Page()].valid && m.coremap[f].inUse ==> q != m.coremap[f].pte
    ensures Accessed(m, f, a).ptes[q] == m.ptes[q]
  {
  }

  /** The page evicted keeps its slot, or gets one; without a slot it is lost exactly when none is free. */
  lemma EvictedSlot(m: Machine, flat: map<Page, Content>, n: nat, f: nat, a: Access)
    requires Inv(m, flat, n) && f < n
    requires AccessDefined(m, f, a) && !m.ptes[a.Page()].valid
    ensures var v, m' := m.coremap[f].pte, Accessed(m, f, a);
            && v < PAGES && v != a.Page() && m.ptes[v].valid && !m'.ptes[v].valid && m'.ptes[v].onSwap
            && m'.ptes[v].swapOff == if m.ptes[v].swapOff != INVALID_SWAP then m.ptes[v].swapOff
                                     else if SwapFull(m) then INVALID_SWAP
                                     else FirstFree(m.swap.used, 0) * SIMPAGESIZE
  {
    assert FrameOk(m, n, f);
    var v := m.coremap[f].pte;
    assert PageOk(m, flat, v);
    assert Accessed(m, f, a).ptes[v] == Evicted(m, f).ptes[v];
  }

  /** The page accessed is valid then, and owns the slot that it owned. */
  lemma AccessedSlot(m: Machine, flat: map<Page, Content>, n: nat, f: nat, a: Access)
    requires Inv(m, flat, n) && AccessDefined(m, f, a)
    ensures var p, m' := a.Page(), Accessed(m, f, a); m'.ptes[p].valid && m'.ptes[p].swapOff == m.ptes[p].swapOff
  {
    assert PageOk(m, flat, a.Page());
    assert !m.ptes[a.Page()].valid && m.coremap[f].inUse ==>
        Accessed(m, f, a).ptes[a.Page()].swapOff == Evicted(m, f).ptes[a.Page()].swapOff;
  }

  /** All entries but that of the page accessed, and of v, are as they were. */
  ghost predicate OnlyEntries(m: Machine, m': Machine, p: Page, v: Page)
    requires Sized(m) && Sized(m')
  {
    && p < PAGES && !Lost(m, p) && m'.ptes[p].valid && m'.ptes[p].swapOff == m.ptes[p].swapOff
    && forall q {:trigger m'.ptes[q]} :: 0 <= q < PAGES && q != p && q != v ==> m'.ptes[q] == m.ptes[q]
  }

  lemma NoneLeaves(m: Machine, m': Machine, p: Page)
    requires Sized(m) && Sized(m') && OnlyEntries(m, m', p, p)
    ensures Residents(m) - Residents(m') == {} && Swapped(m') == Swapped(m) && LostPages(m') == LostPages(m)
  {
    assert forall q :: 0 <= q < PAGES && q != p ==> Lost(m', q) == Lost(m, q);
  }

  lemma OneLeaves(m: Machine, m': Machine, p: Page, v: Page)
    requires Sized(m) && Sized(m') && OnlyEntries(m, m', p, v) && v < PAGES && v != p
    requires m.ptes[v].valid && !m'.ptes[v].valid && m'.ptes[v].onSwap
    requires m.ptes[v].swapOff != INVALID_SWAP ==> m'.ptes[v].swapOff != INVALID_SWAP
    ensures Residents(m) - Residents(m') == {v}
    ensures Swapped(m') == if m'.ptes[v].swapOff == INVALID_SWAP then Swapped(m) else Swapped(m) + {v}
    ensures LostPages(m') == if m'.ptes[v].swapOff == INVALID_SWAP then LostPages(m) + {v} else LostPages(m)
  {
    assert forall q :: 0 <= q < PAGES && q != p && q != v ==> Lost(m', q) == Lost(m, q);
  }

  lemma AccessedOthers(m: Machine, flat: map<Page, Content>, n: nat, f: nat, a: Access, v: Page)
    requires Inv(m, flat, n) && AccessDefined(m, f, a)
    requires !m.ptes[a.Page()].valid && m.coremap[f].inUse ==> v == m.coremap[f].pte
    ensures OnlyEntries(m, Accessed(m, f, a), a.Page(), v)
  {
    AccessedSlot(m, flat, n, f, a);
    var m' := Accessed(m, f, a);
    forall q | 0 <= q < PAGES && q != a.Page() && q != v ensures m'.ptes[q] == m.ptes[q] {
      OthersKept(m, f, a, q);
    }
  }

  /** What the access does to swap: of the pages that leave memory, one at most, those without a slot get one,
      or are lost, exactly when no slot is free; no page ever changes or gives back its slot, and a page that is
      lost stays so. */
  lemma {:induction false} AccessSlots(m: Machine, flat: map<Page, Content>, n: nat, f: nat, a: Access)
    requires Inv(m, flat, n) && AccessDefined(m, f, a)
    requires !m.ptes[a.Page()].valid ==> Choosable(m, n, f)
    ensures var m' := Accessed(m, f, a); var out := Residents(m) - Residents(m');
            && |out| <= 1
            && Swapped(m') == (if SwapFull(m) then Swapped(m) else Swapped(m) + out)
            && LostPages(m') == (if SwapFull(m) then LostPages(m) + (out - Swapped(m)) else LostPages(m))
  {
    var m' := Accessed(m, f, a);
    if !m.ptes[a.Page()].valid && f < n {
      var v := m.coremap[f].pte;
      EvictedSlot(m, flat, n, f, a);
      AccessedOthers(m, flat, n, f, a, v);
      OneLeaves(m, m', a.Page(), v);
    } else {
      assert !m.ptes[a.Page()].valid ==> FrameOk(m, n, f);
      AccessedOthers(m, flat, n, f, a, a.Page());
      NoneLeaves(m, m', a.Page());
    }
  }

  /** A page keeps its slot for ever. */
  lemma {:induction false} SlotKept(m: Machine, flat: map<Page, Content>, n: nat, f: nat, a: Access, q: Page)
    requires Inv(m, flat, n) && AccessDefined(m, f, a) && q in Swapped(m)
    requires !m.ptes[a.Page()].valid ==> Choosable(m, n, f)
    ensures Accessed(m, f, a).ptes[q].swapOff == m.ptes[q].swapOff
  {
    if q == a.Page() {
      AccessedSlot(m, flat, n, f, a);
    } else if !m.ptes[a.Page()].valid && f < n && q == m.coremap[f].pte {
      EvictedSlot(m, flat, n, f, a);
    } else {
      assert !m.ptes[a.Page()].valid ==> FrameOk(m, n, f);
      OthersKept(m, f, a, q);
    }
  }

  /** With a slot for every page touched, an access loses no page, and is not refused. */
  lemma AccessLosesNothing(m: Machine, flat: map<Page, Content>, n: nat, f: nat, a: Access)
    requires Inv(m, flat, n) && LostPages(m) == {} && a.Page() < PAGES
    requires !m.ptes[a.Page()].valid ==> Choosable(m, n, f)
    requires |flat| <= |m.swap.used|
    ensures AccessDefined(m, f, a) && LostPages(Accessed(m, f, a)) == {}
  {
    assert a.Page() !in LostPages(m);
    AccessKeeps(m, flat, n, f, a);
    AccessSlots(m, flat, n, f, a);
    var out := Residents(m) - Residents(Accessed(m, f, a));
    if v :| v in out && v !in Swapped(m) {
      assert PageOk(m, flat, v);
      SlotFree(m, flat, v);
    }
  }

  /** The number of used slots below i. */
  ghost function UsedCount(used: seq<bool>, i: nat): nat
    requires i <= |used|
  {
    if i == 0 then 0 else UsedCount(used, i - 1) + if used[i - 1] then 1 else 0
  }

  ghost function SwappedBelow(m: Machine, i: nat): set<Page> {
    set p | 0 <= p < |m.ptes| && m.ptes[p].swapOff != INVALID_SWAP && m.ptes[p].swapOff < i * SIMPAGESIZE
  }

  lemma NoSharedSlot(m: Machine, flat: map<Page, Content>, p: Page, q: Page)
    requires PagesOk(m, flat) && p < q < PAGES && m.ptes[p].swapOff != INVALID_SWAP
    ensures m.ptes[p].swapOff != m.ptes[q].swapOff
  {
    assert SlotApart(m, p, q);
  }

  /** Slot i is used exactly when one page more owns a slot below i + 1. */
  lemma {:induction false} OneMoreSwapped(m: Machine, flat: map<Page, Content>, i: nat)
    requires PagesOk(m, flat) && i < |m.swap.used|
    ensures if m.swap.used[i]
            then exists p :: p !in SwappedBelow(m, i) && SwappedBelow(m, i + 1) == SwappedBelow(m, i) + {p}
            else SwappedBelow(m, i + 1) == SwappedBelow(m, i)
  {
    forall p | p in SwappedBelow(m, i + 1) && p !in SwappedBelow(m, i)
      ensures m.swap.used[i] && m.ptes[p].swapOff == i * SIMPAGESIZE
    {
      assert PageOk(m, flat, p);
    }
    if m.swap.used[i] {
      assert SlotOwned(m, i);
      var owner :| 0 <= owner < PAGES && m.ptes[owner].swapOff == i * SIMPAGESIZE;
      forall p | p in SwappedBelow(m, i + 1) && p !in SwappedBelow(m, i) ensures p == owner {
        if p < owner {
          NoSharedSlot(m, flat, p, owner);
        } else if owner < p {
          NoSharedSlot(m, flat, owner, p);
        }
      }
      assert owner !in SwappedBelow(m, i) && SwappedBelow(m, i + 1) == SwappedBelow(m, i) + {owner};
    }
  }

  /** There are as many used slots as pages that own one. */
  lemma {:induction false} SlotsCounted(m: Machine, flat: map<Page, Content>, i: nat)
    requires PagesOk(m, flat) && i <= |m.swap.used|
    ensures |SwappedBelow(m, i)| == UsedCount(m.swap.used, i)
    ensures i == |m.swap.used| ==> SwappedBelow(m, i) == Swapped(m)
  {
    forall p | p in Swapped(m) ensures 0 <= m.ptes[p].swapOff < |m.swap.used| * SIMPAGESIZE {
      assert PageOk(m, flat, p);
    }
    if i > 0 {
      SlotsCounted(m, flat, i - 1);
      OneMoreSwapped(m, flat, i - 1);
    } else {
      assert SwappedBelow(m, 0) == {};
    }
  }

  lemma {:induction false} UsedCountAll(used: seq<bool>, i: nat)
    requires i <= |used|
    ensures UsedCount(used, i) <= i
    ensures UsedCount(used, i) == i <==> forall j :: 0 <= j < i ==> used[j]
  {
    if i > 0 {
      UsedCountAll(used, i - 1);
    }
  }

  /** All slots are used exactly when as many pages own one. */
  lemma FullIsOwned(m: Machine, flat: map<Page, Content>)
    requires PagesOk(m, flat)
    ensures |Swapped(m)| <= |m.swap.used| && (SwapFull(m) <==> |Swapped(m)| == |m.swap.used|)
  {
    SlotsCounted(m, flat, |m.swap.used|);
    UsedCountAll(m.swap.used, |m.swap.used|);
  }
}
