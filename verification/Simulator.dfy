/** The simulator: evict_fcn and ref_fcn of the five policies, find_physpage, access_mem and
    replay_trace (a2/starter: rand.c, lru.c, fifo.c, clock.c, opt.c, pagetable.c, sim.c). */
module Simulators {
  import opened Paging
  import opened PageTables
  import opened Machines
  import opened Policies
  import opened Replays
  import opened RefTimes
  import opened Turns
  import opened Memories
  import opened Outcomes
  import opened Swaps
  import opened SwapSpaces
  import opened Writebacks
  import opened PolicyStates
  import SecondChance
  import Belady

  class Simulator {
    const alg: Algorithm
    const memsize: nat
    const trace: seq<Access>  // the contents of the trace file
    const mem: Memory
    const pol: PolicyState
    ghost const plan: seq<Page>
    ghost var Repr: set<object>

    ghost predicate Valid()
      reads this, Repr
      ensures Valid() ==> this in Repr && Sized(mem.Mem()) && |mem.Mem().coremap| == memsize
    {
      && this in Repr && mem in Repr && mem.Repr <= Repr && pol in Repr && pol.Repr <= Repr
      && this !in mem.Repr && this !in pol.Repr && mem.Repr !! pol.Repr
      && mem.Valid() && pol.Valid()
      && mem.memsize == pol.memsize == memsize && pol.alg == alg && pol.plan == plan == PagesOf(trace)
    }

    constructor (mem: Memory, pol: PolicyState, trace: seq<Access>)
      requires mem.Valid() && pol.Valid() && mem.Repr !! pol.Repr
      requires mem.memsize == pol.memsize && pol.plan == PagesOf(trace)
      ensures Valid() && Repr == {this} + mem.Repr + pol.Repr
      ensures this.mem == mem && this.pol == pol && this.trace == trace && alg == pol.alg && memsize == mem.memsize
    {
      this.alg, this.memsize, this.trace, plan := pol.alg, mem.memsize, trace, PagesOf(trace);
      this.mem, this.pol := mem, pol;
      Repr := {this} + mem.Repr + pol.Repr;
      new;
    }

    // -------------------------------------------------------------- evict_fcn

    /** Exact LRU: the frame with the least timestamp. */
    method LruEvict() returns (f: nat)
      requires Valid() && EvictReady(Lru, plan, [], mem.Mem(), pol.Pol())
      ensures Chosen(Lru, plan, [], mem.Mem(), pol.Pol(), mem.Mem(), pol.Pol(), f)
    {
      var oldest := 0;
      for i := 0 to memsize
        invariant oldest < memsize
        invariant forall g :: 0 <= g < i ==> pol.timestampList[oldest] <= pol.timestampList[g]
      {
        var cur := mem.EntryFrame(i);
        var best := mem.EntryFrame(oldest);
        if pol.timestampList[cur] < pol.timestampList[best] {
          oldest := i;
        }
      }
      f := mem.EntryFrame(oldest);
    }

    /** The first frame from the arm on whose page has no reference bit; the bits on the way are cleared. */
    method ClockEvict(ghost q: seq<SecondChance.Slot>) returns (f: nat)
      requires Valid() && EvictReady(Clock, plan, q, mem.Mem(), pol.Pol())
      modifies pol`clockArm, mem.pt.Repr
      ensures Valid() && mem.SameTables(old(mem.pt.tables), old(mem.pt.Repr))
      ensures Chosen(Clock, plan, q, old(mem.Mem()), old(pol.Pol()), mem.Mem(), pol.Pol(), f)
    {
      SweepMemIsSweep(q, mem.Mem(), pol.clockArm);
      f := ClockSweep(mem, pol.clockArm, q);
      pol.SetClockArm(f);
    }

    /** When the page in frame i is referenced next, or -1. */
    method PeekFrame(i: nat) returns (t: int)
      requires Valid() && i < memsize && alg.Opt? && pol.curRef <= |plan|
      ensures IsNextRef(plan, pol.curRef, mem.coremap[i].page, t)
    {
      t := pol.belady.PeekNextRefTime(mem.coremap[i].page);
      PeekForetells(pol.belady.times, plan, pol.curRef, mem.coremap[i].page);
    }

    /** A frame whose page is not used for the longest time. */
    method OptEvict() returns (f: nat)
      requires Valid() && alg.Opt? && EvictReady(Opt, plan, [], mem.Mem(), pol.Pol())
      ensures Chosen(Opt, plan, [], mem.Mem(), pol.Pol(), mem.Mem(), pol.Pol(), f)
    {
      var victim := 0;
      var maxRefTime := -1;
      ghost var times: seq<int> := [];
      ghost var frames := mem.coremap[..];
      for i := 0 to memsize
        invariant victim < memsize && |times| == i
        invariant if i == 0 then maxRefTime == -1 else victim < i && times[victim] == maxRefTime
        invariant forall g :: 0 <= g < i ==> 0 <= times[g] <= maxRefTime
        invariant forall g :: 0 <= g < i ==> IsNextRef(plan, pol.curRef, frames[g].page, times[g])
      {
        var nextRefTime := PeekFrame(i);
        if nextRefTime == -1 {
          OptNever(plan, pol.curRef, frames, i);
          return i;
        }
        times := times + [nextRefTime];
        if maxRefTime < nextRefTime {
          victim := i;
          maxRefTime := nextRefTime;
        }
      }
      OptChoice(plan, pol.curRef, frames, times, victim);
      return victim;
    }

    /** The frame that has been in the ring longest. */
    method FifoEvict() returns (f: nat)
      requires Valid() && EvictReady(Fifo, plan, [], mem.Mem(), pol.Pol())
      modifies pol.queue, pol.queue.contents
      ensures Valid() && Repr == old(Repr) && mem.SameTables(old(mem.pt.tables), old(mem.pt.Repr))
      ensures Chosen(Fifo, plan, [], old(mem.Mem()), old(pol.Pol()), mem.Mem(), pol.Pol(), f)
    {
      f := pol.FifoEvict();
    }

    method EvictFcn(random: nat, ghost q: seq<SecondChance.Slot>) returns (f: nat)
      requires Valid() && EvictReady(alg, plan, q, mem.Mem(), pol.Pol())
      modifies pol`clockArm, pol.queue, pol.queue.contents, mem.pt.Repr
      ensures Valid() && Repr == old(Repr) && mem.SameTables(old(mem.pt.tables), old(mem.pt.Repr))
      ensures Chosen(alg, plan, q, old(mem.Mem()), old(pol.Pol()), mem.Mem(), pol.Pol(), f)
      ensures alg.Rand? ==> f == random % memsize
    {
      match alg
      case Rand => f := random % memsize;
      case Lru => f := LruEvict();
      case Fifo => f := FifoEvict();
      case Clock => f := ClockEvict(q);
      case Opt => f := OptEvict();
    }

    // -------------------------------------------------------------- ref_fcn

    /** The frame of the entry remembers the page. */
    method RememberPage(g: nat, page: Page)
      requires Valid() && g < memsize
      modifies mem.coremap
      ensures Valid() && Repr == old(Repr) && mem.SameTables(old(mem.pt.tables), old(mem.pt.Repr))
              && pol.Pol() == old(pol.Pol())
      ensures mem.Mem() ==
              old(mem.Mem()).(coremap := old(mem.Mem()).coremap[g := old(mem.Mem()).coremap[g].(page := page)])
    {
      mem.SetPage(g, page);
    }

    /** lru_ref: the frame is stamped. */
    method LruRef(p: Page)
      requires Valid() && alg.Lru? && mem.pt.Present(p) && RefReady(Lru, plan, mem.Mem(), pol.Pol(), p)
      modifies pol.timestampList, pol`timestamp
      ensures Valid() && Repr == old(Repr) && mem.SameTables(old(mem.pt.tables), old(mem.pt.Repr))
      ensures Referenced(Lru, plan, old(mem.Mem()), old(pol.Pol()), p, mem.Mem(), pol.Pol())
    {
      var g := mem.pt.FrameOf(p);
      pol.SetTimestamp(g);
    }

    /** fifo_ref: a frame that is new goes to the back of the ring. */
    method FifoRef(p: Page)
      requires Valid() && alg.Fifo? && mem.pt.Present(p) && RefReady(Fifo, plan, mem.Mem(), pol.Pol(), p)
      modifies pol.queue, pol.queue.contents
      ensures Valid() && Repr == old(Repr) && mem.SameTables(old(mem.pt.tables), old(mem.pt.Repr))
      ensures Referenced(Fifo, plan, old(mem.Mem()), old(pol.Pol()), p, mem.Mem(), pol.Pol())
    {
      var g := mem.pt.FrameOf(p);
      pol.FifoRef(g);
    }

    /** opt_ref: the time of the reference is taken off, and the frame remembers its page. */
    method OptRef(p: Page)
      requires Valid() && alg.Opt? && mem.pt.Present(p) && RefReady(Opt, plan, mem.Mem(), pol.Pol(), p)
      modifies pol`curRef, pol.belady.Repr, mem.coremap
      ensures Valid() && Repr == old(Repr) && mem.SameTables(old(mem.pt.tables), old(mem.pt.Repr))
      ensures Referenced(Opt, plan, old(mem.Mem()), old(pol.Pol()), p, mem.Mem(), pol.Pol())
    {
      var g := mem.pt.FrameOf(p);
      var page := pol.OptRef();
      RememberPage(g, page);
    }

    method RefFcn(p: Page)
      requires Valid() && mem.pt.Present(p) && RefReady(alg, plan, mem.Mem(), pol.Pol(), p)
      modifies pol.Repr, mem.coremap
      ensures Valid() && Repr == old(Repr) && mem.SameTables(old(mem.pt.tables), old(mem.pt.Repr))
      ensures Referenced(alg, plan, old(mem.Mem()), old(pol.Pol()), p, mem.Mem(), pol.Pol())
    {
      match alg
      case Rand =>
      case Lru => LruRef(p);
      case Fifo => FifoRef(p);
      case Clock =>
      case Opt => OptRef(p);
    }

    // -------------------------------------------------------------- find_physpage

    /** The page in frame f is evicted, if need be, and f is recorded as holding page p. */
    method TakeFrame(f: nat, p: Page, evict: bool)
      requires Valid() && f < memsize
      requires evict ==>
                 SlotInFile(mem.Mem(), mem.Mem().coremap[f].pte) && mem.Mem().ptes[mem.Mem().coremap[f].pte].valid
      modifies mem`clean, mem`dirty, mem.coremap, mem.pt.Repr, mem.swap.Repr
      ensures Valid() && Repr == old(Repr) && mem.SameTables(old(mem.pt.tables), old(mem.pt.Repr))
              && pol.Pol() == old(pol.Pol())
      ensures mem.Mem() == Claimed(if evict then Evicted(old(mem.Mem()), f) else old(mem.Mem()), f, p)
    {
      if evict {
        mem.pt.TouchedIsPresent(mem.coremap[f].pte);
        mem.EvictPage(f);
      }
      mem.Claim(f, p);
    }

    /** A frame for page p: the first free one, or else the one the policy chooses, whose page is evicted. */
    method AllocateFrame(p: Page, random: nat, ghost q: seq<SecondChance.Slot>, ghost flat: map<Page, Content>,
                         ghost n: nat)
      returns (f: nat, ghost m1: Machine)
      requires Valid() && mem.pt.Present(p) && Inv(mem.Mem(), flat, n) && !mem.Mem().ptes[p].valid
      requires n == memsize ==> EvictReady(alg, plan, q, mem.Mem(), pol.Pol())
      modifies pol`clockArm, pol.queue, pol.queue.contents, mem`clean, mem`dirty, mem.coremap, mem.pt.Repr,
          mem.swap.Repr
      ensures Valid() && Repr == old(Repr) && mem.SameTables(old(mem.pt.tables), old(mem.pt.Repr))
      ensures Choice(alg, plan, q, old(mem.Mem()), old(pol.Pol()), n, f, p, m1, pol.Pol()) && Choosable(m1, n, f)
      ensures Inv(m1, flat, n) && (f < n ==> SlotInFile(m1, m1.coremap[f].pte) && m1.coremap[f].pte != p)
      ensures mem.Mem() == Claimed(if f < n then Evicted(m1, f) else m1, f, p)
    {
      f := mem.FindFreeFrame();
      FirstFreeFrame(mem.Mem(), flat, n, f);
      var full := f == memsize;
      if full {
        f := EvictFcn(random, q);
        ChoiceKeeps(alg, plan, q, flat, n, old(mem.Mem()), old(pol.Pol()), f, p, mem.Mem(), pol.Pol());
        VictimIsPresent(mem.Mem(), flat, n, f);
      }
      m1 := mem.Mem();
      TakeFrame(f, p, full);
    }

    /** The page arrives in frame f; the policy is not concerned. */
    method FetchPage(f: nat, a: Access, isSwapped: bool) returns (ok: bool)
      requires Valid() && f < memsize && SlotInFile(mem.Mem(), a.Page()) && mem.pt.Present(a.Page())
      requires isSwapped == mem.Mem().ptes[a.Page()].onSwap
      modifies mem`misses, mem.physmem, mem.pt.Repr
      ensures Valid() && Repr == old(Repr) && mem.SameTables(old(mem.pt.tables), old(mem.pt.Repr))
              && pol.Pol() == old(pol.Pol())
      ensures ok == !(isSwapped && old(mem.Mem()).ptes[a.Page()].swapOff == INVALID_SWAP)
      ensures ok ==> mem.Mem() == CountedMiss(Fetched(old(mem.Mem()), f, a))
    {
      ok := mem.Fetch(f, a, isSwapped);
    }

    /** Brings page a.Page() into a frame, unless it has been lost. */
    method PageFault(a: Access, random: nat, ghost q: seq<SecondChance.Slot>, ghost flat: map<Page, Content>,
                     ghost n: nat)
      returns (ok: bool, f: nat, ghost m1: Machine)
      requires Valid() && mem.pt.Present(a.Page()) && Inv(mem.Mem(), flat, n) && !mem.Mem().ptes[a.Page()].valid
      requires n == memsize ==> EvictReady(alg, plan, q, mem.Mem(), pol.Pol())
      modifies pol`clockArm, pol.queue, pol.queue.contents
      modifies mem`misses, mem`clean, mem`dirty, mem.coremap, mem.physmem, mem.pt.Repr, mem.swap.Repr
      ensures Valid() && Repr == old(Repr) && mem.SameTables(old(mem.pt.tables), old(mem.pt.Repr))
      ensures ok == !Lost(old(mem.Mem()), a.Page())
      ensures Choice(alg, plan, q, old(mem.Mem()), old(pol.Pol()), n, f, a.Page(), m1, pol.Pol()) && Choosable(m1, n, f)
      ensures ok ==> AccessDefined(m1, f, a) && mem.Mem() == Served(m1, f, a)
    {
      var isSwapped := mem.pt.TestFlag(a.Page(), PG_ONSWAP);
      f, m1 := AllocateFrame(a.Page(), random, q, flat, n);
      FaultDefined(m1, flat, n, f, a);
      ok := FetchPage(f, a, isSwapped);
    }

    /** Makes sure that there is an entry for page p. */
    method PrepareTable(p: Page)
      requires Valid() && p < PAGES
      modifies `Repr, mem`Repr, mem.pt.Repr
      ensures Valid() && fresh(Repr - old(Repr))
      ensures mem.Mem() == old(mem.Mem()) && pol.Pol() == old(pol.Pol()) && mem.pt.Present(p)
    {
      mem.InitSecondLevel(p);
      Repr := Repr + mem.Repr;
    }

    /** A hit, or a page fault. */
    method Serve(a: Access, random: nat, ghost q: seq<SecondChance.Slot>, ghost flat: map<Page, Content>, ghost n: nat)
      returns (ok: bool, ghost f: nat, ghost m1: Machine)
      requires Valid() && mem.pt.Present(a.Page()) && Inv(mem.Mem(), flat, n)
      requires n == memsize ==> EvictReady(alg, plan, q, mem.Mem(), pol.Pol())
      modifies pol`clockArm, pol.queue, pol.queue.contents
      modifies mem`hits, mem`misses, mem`clean, mem`dirty, mem.coremap, mem.physmem, mem.pt.Repr, mem.swap.Repr
      ensures Valid() && Repr == old(Repr) && mem.SameTables(old(mem.pt.tables), old(mem.pt.Repr))
      ensures ok == !Lost(old(mem.Mem()), a.Page())
      ensures Choice(alg, plan, q, old(mem.Mem()), old(pol.Pol()), n, f, a.Page(), m1, pol.Pol())
      ensures !old(mem.Mem()).ptes[a.Page()].valid && n < memsize ==> f == n
      ensures ok ==> AccessDefined(m1, f, a) && mem.Mem() == Served(m1, f, a)
    {
      var isValid := mem.pt.TestFlag(a.Page(), PG_VALID);
      if isValid {
        m1, f, ok := mem.Mem(), 0, true;
        HitDefined(m1, flat, n, a);
        CountHit();
      } else {
        ok, f, m1 := PageFault(a, random, q, flat, n);
      }
    }

    /** The frame of the page accessed, once its entry is marked, the policy told and the reference
        counted; not ok when the page has been lost. */
    method FindPhyspage(a: Access, random: nat, ghost h: History)
      returns (ok: bool, g: nat, ghost t: Passage)
      requires Valid() && Ok(alg, memsize, plan, h, mem.Mem(), pol.Pol())
      requires h.i < |plan| && a.Page() == plan[h.i] < PAGES
      modifies Repr
      ensures Valid() && fresh(Repr - old(Repr))
      ensures ok == !Lost(old(mem.Mem()), a.Page())
      ensures ok ==> (t.m, t.pol, t.m3, t.pol3) == (old(mem.Mem()), old(pol.Pol()), mem.Mem(), pol.Pol())
      ensures ok ==> IsTranslation(alg, plan, Queue(h), h.n, a, t)
      ensures ok ==> g == Marked(Served(t.m1, t.f, a), a).ptes[a.Page()].frame < memsize
    {
      PrepareTable(a.Page());
      if h.n == memsize {
        ReadyToEvict(alg, memsize, plan, h, mem.Mem(), pol.Pol());
      }
      ghost var f, m1;
      ok, f, m1 := Serve(a, random, Queue(h), h.flat, h.n);
      ghost var pol1 := pol.Pol();
      g := 0;
      if ok {
        ReadyToTell(alg, memsize, plan, h, old(mem.Mem()), old(pol.Pol()), f, a, m1, pol1);
        g := TouchAndCount(a);
      }
      t := Passage(old(mem.Mem()), old(pol.Pol()), f, m1, pol1, mem.Mem(), pol.Pol());
    }

    method MarkPage(a: Access) returns (g: nat)
      requires Valid() && mem.pt.Present(a.Page())
      modifies mem.pt.Repr
      ensures Valid() && Repr == old(Repr) && mem.SameTables(old(mem.pt.tables), old(mem.pt.Repr))
              && pol.Pol() == old(pol.Pol())
      ensures mem.Mem() == Marked(old(mem.Mem()), a) && g == mem.Mem().ptes[a.Page()].frame
    {
      mem.Mark(a);
      g := mem.pt.FrameOf(a.Page());
    }

    /** The entry is marked and the policy told. */
    method Touch(a: Access) returns (g: nat)
      requires Valid() && mem.pt.Present(a.Page())
      requires RefReady(alg, plan, Marked(mem.Mem(), a), pol.Pol(), a.Page())
      modifies pol.Repr, mem.coremap, mem.pt.Repr
      ensures Valid() && Repr == old(Repr) && mem.SameTables(old(mem.pt.tables), old(mem.pt.Repr))
      ensures Referenced(alg, plan, Marked(old(mem.Mem()), a), old(pol.Pol()), a.Page(), mem.Mem(), pol.Pol())
      ensures g == Marked(old(mem.Mem()), a).ptes[a.Page()].frame
    {
      g := MarkPage(a);
      RefFcn(a.Page());
    }

    method CountRef()
      requires Valid()
      modifies mem`refs
      ensures Valid() && Repr == old(Repr) && mem.SameTables(old(mem.pt.tables), old(mem.pt.Repr))
              && pol.Pol() == old(pol.Pol())
      ensures mem.Mem() == CountedRef(old(mem.Mem()))
    {
      mem.CountRef();
    }

    /** The same, and the reference is counted. */
    method TouchAndCount(a: Access) returns (g: nat)
      requires Valid() && mem.pt.Present(a.Page())
      requires RefReady(alg, plan, Marked(mem.Mem(), a), pol.Pol(), a.Page())
      modifies pol.Repr, mem.coremap, mem.pt.Repr, mem`refs
      ensures Valid() && Repr == old(Repr) && mem.SameTables(old(mem.pt.tables), old(mem.pt.Repr))
      ensures Referenced(alg, plan, CountedRef(Marked(old(mem.Mem()), a)), old(pol.Pol()), a.Page(), mem.Mem(),
                         pol.Pol())
      ensures g == Marked(old(mem.Mem()), a).ptes[a.Page()].frame
    {
      g := Touch(a);
      CountCommutes(alg, plan, Marked(old(mem.Mem()), a), old(pol.Pol()), a.Page(), mem.Mem(), pol.Pol());
      CountRef();
    }

    // -------------------------------------------------------------- access_mem and replay_trace

    /** Whether the address found in the page is the one accessed; a write then makes a new version. */
    method CheckPage(g: nat, a: Access) returns (matches: bool)
      requires Valid() && g < memsize
      modifies mem.physmem
      ensures Valid() && Repr == old(Repr) && pol.Pol() == old(pol.Pol())
      ensures mem.Mem() == Bumped(old(mem.Mem()), g, a) && matches == (old(mem.Mem()).physmem[g].vaddr == a.vaddr)
    {
      matches := mem.physmem[g].vaddr == a.vaddr;
      mem.Bump(g, a);
    }

    /** One access: matches says whether the address found in the page is the one accessed. */
    method AccessMem(a: Access, random: nat, ghost swapsize: nat, ghost h: History)
      returns (ok: bool, matches: bool, ghost h': History)
      requires Valid() && Ok(alg, memsize, plan, h, mem.Mem(), pol.Pol()) && SwapOk(swapsize, plan, h, mem.Mem())
               && WrittenBack(h, mem.Mem())
      requires h.i < |plan| && a.Page() == plan[h.i] < PAGES
      modifies Repr
      ensures Valid() && fresh(Repr - old(Repr))
      ensures ok == !Lost(old(mem.Mem()), a.Page())
      ensures ok ==> Ok(alg, memsize, plan, h', mem.Mem(), pol.Pol()) && SwapOk(swapsize, plan, h', mem.Mem())
                     && WrittenBack(h', mem.Mem())
      ensures ok ==> h'.i == h.i + 1 && h'.flat == FlatStep(h.flat, a) && h'.log == h.log + [a]
      ensures ok ==> matches == (FlatStep(h.flat, a)[a.Page()].vaddr == a.vaddr)
    {
      matches, h' := false, h;
      var g;
      ghost var t;
      ok, g, t := FindPhyspage(a, random, h);
      if !ok {
        return;
      }
      h' := Next(alg, h, a, t.m, Bumped(t.m3, g, a));
      AccessStep(alg, memsize, plan, swapsize, h, a, t, g, Bumped(t.m3, g, a), h');
      AddressFound(alg, plan, Queue(h), h.n, a, t, g, h'.flat, h'.n);
      matches := CheckPage(g, a);
    }

    /** Replays one line of the trace. */
    method ReplayLine(i: nat, mismatches: nat, random: nat, ghost swapsize: nat) returns (ok: bool, mismatches': nat)
      requires Valid() && AtLine(alg, memsize, swapsize, trace, i, mismatches, mem.Mem(), pol.Pol())
      requires i < |trace| && trace[i].vaddr < ADDRESSES
      modifies Repr
      ensures Valid() && fresh(Repr - old(Repr))
      ensures if ok then AtLine(alg, memsize, swapsize, trace, i + 1, mismatches', mem.Mem(), pol.Pol())
              else IsOutcome(alg, memsize, swapsize, trace, Aborted(i))
    {
      AddressesSelectPages(trace[i].vaddr, trace[i].vaddr);
      ghost var h := HistoryOf(alg, memsize, swapsize, trace, i, mismatches, mem.Mem(), pol.Pol());
      var matches;
      ghost var h';
      ok, matches, h' := AccessMem(trace[i], random, swapsize, h);
      mismatches' := if matches then mismatches else mismatches + 1;
      if ok {
        RunningStep(alg, memsize, swapsize, trace, h, mismatches, h', mem.Mem(), pol.Pol(), matches);
      } else {
        AbortedIsOutcome(alg, memsize, swapsize, trace, h, old(mem.Mem()), old(pol.Pol()));
      }
    }

    /** What there is to say when served lines of the trace have been replayed: the counters that main prints, or that a
        page was lost. */
    method Report(served: nat, mismatches: nat, ghost swapsize: nat) returns (out: Outcome)
      requires Valid() && served <= |trace|
      requires if served < |trace| then IsOutcome(alg, memsize, swapsize, trace, Aborted(served))
               else AtLine(alg, memsize, swapsize, trace, |trace|, mismatches, mem.Mem(), pol.Pol())
      ensures IsOutcome(alg, memsize, swapsize, trace, out)
      ensures out == if served < |trace| then Aborted(served) else Completed(mem.Mem().counters, mismatches)
    {
      if served < |trace| {
        return Aborted(served);
      }
      out := Completed(Counters(mem.hits, mem.misses, mem.refs, mem.clean, mem.dirty), mismatches);
      ghost var h := HistoryOf(alg, memsize, swapsize, trace, |trace|, mismatches, mem.Mem(), pol.Pol());
      CompletedIsOutcome(alg, memsize, swapsize, trace, h, mem.Mem(), pol.Pol());
    }

    /** The loop of replay_trace: line after line, until one is refused. */
    method ReplayLines(random: nat -> nat, ghost swapsize: nat) returns (served: nat, mismatches: nat)
      requires Valid() && AtLine(alg, memsize, swapsize, trace, 0, 0, mem.Mem(), pol.Pol())
      requires forall j :: 0 <= j < |trace| ==> trace[j].vaddr < ADDRESSES
      modifies Repr
      ensures Valid() && served <= |trace|
      ensures if served < |trace| then IsOutcome(alg, memsize, swapsize, trace, Aborted(served))
              else AtLine(alg, memsize, swapsize, trace, |trace|, mismatches, mem.Mem(), pol.Pol())
    {
      served, mismatches := 0, 0;
      while served < |trace|
        invariant Valid() && fresh(Repr - old(Repr))
        invariant served <= |trace| && AtLine(alg, memsize, swapsize, trace, served, mismatches, mem.Mem(), pol.Pol())
      {
        var ok;
        ok, mismatches := ReplayLine(served, mismatches, random(served), swapsize);
        if !ok {
          return;
        }
        served := served + 1;
      }
    }

    /** Replays the trace; random(i) is the number that rand_evict would draw at reference i. */
    method ReplayTrace(random: nat -> nat, ghost swapsize: nat) returns (out: Outcome)
      requires Valid() && 0 < memsize && (alg.Lru? ==> |trace| <= TIMESTAMPS)
      requires IsInitial(mem.Mem(), memsize, swapsize) && pol.Pol() == InitialPolicy(memsize)
      requires forall j :: 0 <= j < |trace| ==> trace[j].vaddr < ADDRESSES
      modifies Repr
      ensures Valid() && IsOutcome(alg, memsize, swapsize, trace, out)
      ensures out.Completed? ==> AtLine(alg, memsize, swapsize, trace, |trace|, out.mismatches, mem.Mem(), pol.Pol())
    {
      AtFirstLine(alg, memsize, swapsize, trace, mem.Mem(), pol.Pol());
      var served, mismatches := ReplayLines(random, swapsize);
      out := Report(served, mismatches, swapsize);
    }

    method CountHit()
      requires Valid()
      modifies mem`hits
      ensures Valid() && Repr == old(Repr) && mem.SameTables(old(mem.pt.tables), old(mem.pt.Repr))
              && pol.Pol() == old(pol.Pol())
      ensures mem.Mem() == CountedHit(old(mem.Mem()))
    {
      mem.CountHit();
    }
  }

  /** main: a run of the simulator on a trace. */
  method Simulate(alg: Algorithm, memsize: nat, swapsize: nat, trace: seq<Access>, random: nat -> nat)
      returns (out: Outcome)
    requires 0 < memsize <= FRAMES && (alg.Opt? ==> memsize >= BUCKET_SHARE) && (alg.Lru? ==> |trace| <= TIMESTAMPS)
    requires forall j :: 0 <= j < |trace| ==> trace[j].vaddr < ADDRESSES
    ensures IsOutcome(alg, memsize, swapsize, trace, out)
  {
    var mem := new Memory(memsize, swapsize);
    var pol := new PolicyState(alg, memsize, trace);
    var sim := new Simulator(mem, pol, trace);
    out := sim.ReplayTrace(random, swapsize);
  }

  lemma HitDefined(m: Machine, flat: map<Page, Content>, n: nat, a: Access)
    requires Inv(m, flat, n) && a.Page() < PAGES && m.ptes[a.Page()].valid
    ensures AccessDefined(m, 0, a)
  {
    assert PageOk(m, flat, a.Page());
  }

  /** A page fault finds what it needs, unless the page has been lost. */
  lemma FaultDefined(m: Machine, flat: map<Page, Content>, n: nat, f: nat, a: Access)
    requires Inv(m, flat, n) && a.Page() < PAGES && !m.ptes[a.Page()].valid && Choosable(m, n, f)
    ensures SlotInFile(m, a.Page()) && m.coremap[f].inUse == (f < n)
    ensures !Lost(m, a.Page()) ==> AccessDefined(m, f, a)
  {
    assert PageOk(m, flat, a.Page()) && FrameOk(m, n, f);
    if f < n {
      assert PageOk(m, flat, m.coremap[f].pte);
    }
  }

  /** The free frames are those from n on. */
  lemma FirstFreeFrame(m: Machine, flat: map<Page, Content>, n: nat, f: nat)
    requires Inv(m, flat, n) && f <= |m.coremap|
    requires f < |m.coremap| ==> !m.coremap[f].inUse
    requires forall g :: 0 <= g < f ==> m.coremap[g].inUse
    ensures f == n
  {
    assert f < |m.coremap| ==> FrameOk(m, n, f);
    assert n < |m.coremap| ==> FrameOk(m, n, n);
  }

  lemma VictimIsPresent(m: Machine, flat: map<Page, Content>, n: nat, f: nat)
    requires Inv(m, flat, n) && f < n
    ensures SlotInFile(m, m.coremap[f].pte) && m.ptes[m.coremap[f].pte].valid
  {
    assert FrameOk(m, n, f);
    assert PageOk(m, flat, m.coremap[f].pte);
  }

  /** The loop of clock_evict: passes the frames whose pages have been referenced. */
  method ClockSweep(mem: Memory, arm: nat, ghost q: seq<SecondChance.Slot>) returns (arm': nat)
    requires mem.Valid() && Filled(mem.Mem()) && arm < mem.memsize && IsView(q, mem.Mem(), arm, mem.memsize)
    modifies mem.pt.Repr
    ensures mem.Valid() && mem.SameTables(old(mem.pt.tables), old(mem.pt.Repr))
    ensures (mem.Mem(), arm') == SweepMem(q, old(mem.Mem()), arm)
  {
    arm' := arm;
    ghost var q' := q;
    var referenced := mem.IsReferenced(arm');
    while referenced
      invariant mem.Valid() && mem.SameTables(old(mem.pt.tables), old(mem.pt.Repr))
      invariant Filled(mem.Mem()) && arm' < mem.memsize && IsView(q', mem.Mem(), arm', mem.memsize)
      invariant SweepMem(q', mem.Mem(), arm') == SweepMem(q, old(mem.Mem()), arm)
      invariant referenced == ViewSlot(mem.Mem(), arm').ref
      decreases SecondChance.Chances(q')
    {
      PassKeeps(q', mem.Mem(), arm');
      q' := SecondChance.Pass(q');
      mem.TurnOffReference(arm');
      TurnIsMod(arm' + 1, mem.memsize);
      arm' := (arm' + 1) % mem.memsize;
      referenced := mem.IsReferenced(arm');
    }
  }

  /** A frame whose page is never used again holds a page used furthest in the future. */
  lemma OptNever(plan: seq<Page>, i: nat, coremap: seq<Frame>, victim: nat)
    requires i <= |plan| && victim < |coremap| && IsNextRef(plan, i, coremap[victim].page, -1)
    ensures forall g :: 0 <= g < |coremap| ==>
              Belady.NextUse(plan[i..], coremap[g].page) <= Belady.NextUse(plan[i..], coremap[victim].page)
  {
    NextRefIsNextUse(plan, i, coremap[victim].page, -1);
  }

  /** The frame with the latest next reference holds the page used furthest in the future. */
  lemma OptChoice(plan: seq<Page>, i: nat, coremap: seq<Frame>, times: seq<int>, victim: nat)
    requires i <= |plan| && |times| == |coremap| && victim < |times|
    requires forall g :: 0 <= g < |times| ==> 0 <= times[g] <= times[victim]
    requires forall g :: 0 <= g < |times| ==> IsNextRef(plan, i, coremap[g].page, times[g])
    ensures forall g :: 0 <= g < |times| ==>
              Belady.NextUse(plan[i..], coremap[g].page) <= Belady.NextUse(plan[i..], coremap[victim].page)
  {
    NextRefIsNextUse(plan, i, coremap[victim].page, times[victim]);
    forall g | 0 <= g < |times|
      ensures Belady.NextUse(plan[i..], coremap[g].page) <= Belady.NextUse(plan[i..], coremap[victim].page)
    {
      NextRefIsNextUse(plan, i, coremap[g].page, times[g]);
    }
  }
}
