/** The replacement policies, as steps on their own state, and what they amount to. */
module Policies {
  // Each policy keeps some state beside the machine: timestamps per frame (lru.c), a ring
  // of frames (fifo.c), an arm (clock.c), the time in the trace (opt.c). The invariants
  // here say what that state means in terms of the references made so far; from them it
  // follows that every run is a run of the abstract policy of the same name.

  import opened Paging
  import opened PageTables
  import opened Machines
  import opened Belady
  import opened Recency
  import opened LoadOrder
  import opened SecondChance
  import opened Turns

  datatype Algorithm = Rand | Lru | Fifo | Clock | Opt

  /** Timestamps and the next one (lru.c); the queue of frames (fifo.c); the arm (clock.c);
      the index of the current reference (opt.c). */
  datatype Policy = Policy(stamps: seq<nat>, timestamp: nat, ring: seq<nat>, arm: nat, curRef: nat)

  const TIMESTAMPS := 0x1_0000_0000

  /** The state that the init functions leave, with k frames. */
  function InitialPolicy(k: nat): Policy {
    Policy(seq(k, _ => 0), 0, [], 0, 0)
  }

  // ---------------------------------------------------------------- the steps

  /** Read from the arm on, the n frames in use are the second-chance queue q. */
  ghost predicate IsView(q: seq<Slot>, m: Machine, arm: nat, n: nat) {
    Mapped(m) && RingView(q, Slots(m), arm, n)
  }

  ghost function Slots(m: Machine): (s: seq<Slot>)
    requires Mapped(m)
    ensures |s| == |m.coremap| && forall f :: 0 <= f < |s| ==> s[f] == ViewSlot(m, f)
  {
    seq(|m.coremap|, f requires 0 <= f < |m.coremap| => ViewSlot(m, f))
  }

  ghost function ViewSlot(m: Machine, f: nat): Slot
    requires f < |m.coremap| && m.coremap[f].pte < |m.ptes|
  {
    Slot(m.coremap[f].pte, m.ptes[m.coremap[f].pte].ref)
  }

  ghost predicate Mapped(m: Machine) {
    forall f :: 0 <= f < |m.coremap| ==> m.coremap[f].pte < |m.ptes|
  }

  /** Only reference bits of valid entries have changed. */
  ghost predicate OnlyRefs(m: Machine, m': Machine) {
    && m' == m.(ptes := m'.ptes) && |m'.ptes| == |m.ptes|
    && (forall p :: 0 <= p < |m.ptes| ==> m'.ptes[p] == m.ptes[p].(ref := m'.ptes[p].ref))
    && (forall p :: 0 <= p < |m.ptes| && !m.ptes[p].valid ==> m'.ptes[p] == m.ptes[p])
  }

  /** evict_fcn: with all frames in use, the policy takes m and pol to m' and pol' and chooses f.
      For the clock, q is its queue. */
  ghost predicate Chosen(alg: Algorithm, plan: seq<Page>, q: seq<Slot>, m: Machine, pol: Policy,
                         m': Machine, pol': Policy, f: nat)
  {
    && f < |m.coremap|
    && match alg
       case Rand => m' == m && pol' == pol
       case Lru =>
         && m' == m && pol' == pol && |pol.stamps| == |m.coremap|
         && forall g :: 0 <= g < |m.coremap| ==> pol.stamps[f] <= pol.stamps[g]
       case Fifo => m' == m && pol.ring != [] && f == pol.ring[0] && pol' == pol.(ring := pol.ring[1..])
       case Clock =>
         && OnlyRefs(m, m')
         && q != [] && IsView(Sweep(q), m', f, |m.coremap|)
         && pol' == pol.(arm := Turn(f + 1, |m.coremap|))
       case Opt =>
         && m' == m && pol' == pol && pol.curRef <= |plan|
         && forall g :: 0 <= g < |m.coremap| ==>
              NextUse(plan[pol.curRef..], m.coremap[g].page) <= NextUse(plan[pol.curRef..], m.coremap[f].page)
  }

  /** ref_fcn: the policy is told of a reference to page p. */
  ghost predicate Referenced(alg: Algorithm, plan: seq<Page>, m: Machine, pol: Policy, p: Page, m': Machine,
                             pol': Policy)
    requires p < |m.ptes|
  {
    var g := m.ptes[p].frame;
    && g < |m.coremap|
    && match alg
       case Rand => m' == m && pol' == pol
       case Lru =>
         && m' == m && g < |pol.stamps|
         && pol' == pol.(stamps := pol.stamps[g := pol.timestamp], timestamp := (pol.timestamp + 1) % TIMESTAMPS)
       case Fifo => m' == m && pol' == pol.(ring := if g in pol.ring then pol.ring else pol.ring + [g])
       case Clock => m' == m && pol' == pol
       case Opt =>
         && pol.curRef < |plan|
         && m' == m.(coremap := m.coremap[g := m.coremap[g].(page := plan[pol.curRef])])
         && pol' == pol.(curRef := pol.curRef + 1)
  }

  // ---------------------------------------------------------------- what the state means

  /** Reference j, if it had to evict, evicted what the policy promises. */
  ghost predicate PolicyStep(alg: Algorithm, k: nat, plan: seq<Page>, rs: seq<set<Page>>, j: nat)
    requires j < |plan| && j + 1 < |rs|
  {
    plan[j] !in rs[j] && |rs[j]| >= k ==>
      match alg
      case Rand => true
      case Lru => LruStep(plan, rs, j)
      case Fifo => FifoStep(plan, rs, j)
      case Clock => true
      case Opt => BeladyStep(plan, rs, j)
  }

  ghost predicate ClockSteps(k: nat, plan: seq<Page>, rs: seq<set<Page>>, qs: seq<seq<Slot>>, i: nat) {
    && 0 < k && i <= |plan| && i < |rs| && i < |qs|
    && qs[0] == []
    && (forall j {:trigger qs[j]} :: 0 <= j <= i ==> rs[j] == Pages(qs[j]))
    && (forall j {:trigger plan[j]} :: 0 <= j < i ==> qs[j + 1] == Serve(k, qs[j], plan[j]))
  }

  /** rs are the resident sets of the first i references of plan, served by the given policy;
      for the clock, qs are its queues. */
  ghost predicate RunSoFar(alg: Algorithm, k: nat, plan: seq<Page>, rs: seq<set<Page>>, qs: seq<seq<Slot>>, i: nat) {
    && 0 < k && i <= |plan| && |rs| == |qs| == i + 1
    && rs[0] == {}
    && (forall j {:trigger plan[j]} :: 0 <= j < i ==> Step(k, rs[j], plan[j], rs[j + 1]))
    && (forall j {:trigger plan[j]} :: 0 <= j < i ==> PolicyStep(alg, k, plan, rs, j))
    && (alg.Clock? ==> ClockSteps(k, plan, rs, qs, i))
  }

  /** Frame f was last referenced when its timestamp says. */
  ghost predicate LruOk(plan: seq<Page>, i: nat, m: Machine, n: nat, pol: Policy) {
    && i <= |plan| <= TIMESTAMPS && n <= |m.coremap|
    && |pol.stamps| == |m.coremap| && pol.timestamp == i % TIMESTAMPS
    && forall f :: 0 <= f < n ==> pol.stamps[f] == LastUse(plan, i, m.coremap[f].pte)
  }

  /** The ring holds each of the n frames in use once; after e evictions it starts with frame
      e modulo k, so that the frames come up for eviction in turn. */
  ghost predicate RingOk(ring: seq<nat>, n: nat, k: nat, e: nat) {
    && n <= k && |ring| == n && 0 < k
    && (forall a :: 0 <= a < n ==> ring[a] < n)
    && (forall f :: 0 <= f < n ==> f in ring)
    && (forall a, b :: 0 <= a < b < n ==> ring[a] != ring[b])
    && (n < k ==> e == 0)
    && (forall a :: 0 <= a < n ==> ring[a] == Turn(e + a, k))
  }

  /** When the pages in the frames in use were loaded. */
  ghost function LoadTimes(plan: seq<Page>, rs: seq<set<Page>>, i: nat, m: Machine, n: nat): (t: seq<int>)
    requires i <= |plan| && i <= |rs| && n <= |m.coremap|
    ensures |t| == n && forall f :: 0 <= f < n ==> t[f] < i
  {
    seq(n, f requires 0 <= f < n => LoadTime(plan, rs, i, m.coremap[f].pte))
  }

  /** The frames in the ring are ordered by time. */
  ghost predicate InOrder(ring: seq<nat>, times: seq<int>) {
    && (forall a :: 0 <= a < |ring| ==> ring[a] < |times|)
    && (forall a, b :: 0 <= a < b < |ring| ==> times[ring[a]] < times[ring[b]])
  }

  /** The ring is in the order in which the pages were loaded. */
  ghost predicate FifoOk(plan: seq<Page>, rs: seq<set<Page>>, i: nat, m: Machine, n: nat, pol: Policy) {
    && i <= |plan| && i <= |rs|
    && RingOk(pol.ring, n, |m.coremap|, Evictions(m))
    && InOrder(pol.ring, LoadTimes(plan, rs, i, m, n))
  }

  /** Read from the arm on, the frames are the second-chance queue. */
  ghost predicate ClockOk(q: seq<Slot>, m: Machine, n: nat, pol: Policy) {
    && n <= |m.coremap| && pol.arm < |m.coremap| && (n < |m.coremap| ==> pol.arm == 0)
    && IsView(q, m, pol.arm, n)
  }

  /** Every frame in use knows its page. */
  ghost predicate OptOk(i: nat, m: Machine, n: nat, pol: Policy) {
    && n <= |m.coremap| && pol.curRef == i
    && forall f :: 0 <= f < n ==> m.coremap[f].page == m.coremap[f].pte
  }

  ghost predicate PolicyOk(alg: Algorithm, plan: seq<Page>, rs: seq<set<Page>>, qs: seq<seq<Slot>>, i: nat,
                           m: Machine, n: nat, pol: Policy)
  {
    && i < |rs| && i < |qs|
    && match alg
       case Rand => true
       case Lru => LruOk(plan, i, m, n, pol)
       case Fifo => FifoOk(plan, rs, i, m, n, pol)
       case Clock => ClockOk(qs[i], m, n, pol)
       case Opt => OptOk(i, m, n, pol)
  }

  /** All frames hold different valid pages, whose entries point back. */
  ghost predicate Filled(m: Machine) {
    && FramesApart(m, |m.coremap|) && Mapped(m) && 0 < |m.coremap|
    && forall f :: 0 <= f < |m.coremap| ==> m.ptes[m.coremap[f].pte].frame == f
  }

  /** What evict_fcn relies on when all frames are in use. */
  ghost predicate EvictReady(alg: Algorithm, plan: seq<Page>, q: seq<Slot>, m: Machine, pol: Policy) {
    && Filled(m)
    && match alg
       case Rand => true
       case Lru => |pol.stamps| == |m.coremap|
       case Fifo => pol.ring != [] && pol.ring[0] < |m.coremap|
       case Clock => pol.arm < |m.coremap| && IsView(q, m, pol.arm, |m.coremap|)
       case Opt => pol.curRef <= |plan|
  }

  /** What ref_fcn relies on. */
  ghost predicate RefReady(alg: Algorithm, plan: seq<Page>, m: Machine, pol: Policy, p: Page) {
    && p < |m.ptes| && m.ptes[p].frame < |m.coremap|
    && match alg
       case Rand => true
       case Lru => |pol.stamps| == |m.coremap|
       case Fifo => m.ptes[p].frame !in pol.ring ==> |pol.ring| < |m.coremap|
       case Clock => true
       case Opt => pol.curRef < |plan| && plan[pol.curRef] == p
  }

  /** The reference bit of the page in frame f is set to b. */
  ghost function WithRef(m: Machine, f: nat, b: bool): Machine
    requires f < |m.coremap| && m.coremap[f].pte < |m.ptes|
  {
    m.(ptes := m.ptes[m.coremap[f].pte := m.ptes[m.coremap[f].pte].(ref := b)])
  }

  /** Clearing the bit of the page in frame arm changes the slot of that frame only. */
  lemma SlotsPassed(m: Machine, arm: nat, m': Machine)
    requires FramesApart(m, |m.coremap|) && Mapped(m) && arm < |m.coremap|
    requires m' == WithRef(m, arm, false)
    ensures Mapped(m') && Slots(m') == Slots(m)[arm := Slots(m)[arm].(ref := false)]
  {
    forall h | 0 <= h < |m.coremap| ensures Slots(m')[h] == Slots(m)[arm := Slots(m)[arm].(ref := false)][h] {
      assert h != arm ==> m.coremap[h].pte != m.coremap[arm].pte;
    }
  }

  /** Passing a referenced frame and clearing its bit rotates the queue. */
  lemma ViewPass(q: seq<Slot>, m: Machine, arm: nat, m': Machine)
    requires FramesApart(m, |m.coremap|) && arm < |m.coremap| && IsView(q, m, arm, |m.coremap|)
    requires m' == WithRef(m, arm, false)
    ensures IsView(Pass(q), m', Turn(arm + 1, |m.coremap|), |m.coremap|)
  {
    SlotsPassed(m, arm, m');
    RingPass(q, Slots(m), Slots(m'), arm, Turn(arm + 1, |m.coremap|));
  }

  /** The slot under the arm is the head of the queue. */
  lemma HeadSlot(q: seq<Slot>, m: Machine, arm: nat)
    requires IsView(q, m, arm, |m.coremap|) && arm < |m.coremap|
    ensures q != [] && q[0] == ViewSlot(m, arm)
  {
    assert q[0] == Slots(m)[Turn(arm + 0, |m.coremap|)];
  }

  /** What one pass of the arm leaves: the bit under it cleared, and the queue rotated. */
  lemma PassKeeps(q: seq<Slot>, m: Machine, arm: nat)
    requires Filled(m) && arm < |m.coremap| && IsView(q, m, arm, |m.coremap|) && ViewSlot(m, arm).ref
    ensures var m' := WithRef(m, arm, false);
            Filled(m') && OnlyRefs(m, m') && IsView(Pass(q), m', Turn(arm + 1, |m.coremap|), |m.coremap|)
    ensures q[0].ref && Chances(Pass(q)) < Chances(q)
  {
    HeadSlot(q, m, arm);
    PassUsesChance(q);
    ViewPass(q, m, arm, WithRef(m, arm, false));
  }

  /** The machine, and the arm, when the arm has found a frame whose page has no reference bit. */
  ghost function SweepMem(q: seq<Slot>, m: Machine, arm: nat): (Machine, nat)
    requires Filled(m) && arm < |m.coremap| && IsView(q, m, arm, |m.coremap|)
    decreases Chances(q)
  {
    if ViewSlot(m, arm).ref then
      PassKeeps(q, m, arm);
      SweepMem(Pass(q), WithRef(m, arm, false), Turn(arm + 1, |m.coremap|))
    else (m, arm)
  }

  /** That is the second-chance sweep. */
  lemma {:induction false} SweepMemIsSweep(q: seq<Slot>, m: Machine, arm: nat)
    requires Filled(m) && arm < |m.coremap| && IsView(q, m, arm, |m.coremap|)
    ensures var (m', f) := SweepMem(q, m, arm);
            q != [] && OnlyRefs(m, m') && f < |m.coremap| && IsView(Sweep(q), m', f, |m.coremap|)
    decreases Chances(q)
  {
    HeadSlot(q, m, arm);
    if ViewSlot(m, arm).ref {
      PassKeeps(q, m, arm);
      SweepMemIsSweep(Pass(q), WithRef(m, arm, false), Turn(arm + 1, |m.coremap|));
    }
  }

  // ---------------------------------------------------------------- victims

  lemma LruVictim(plan: seq<Page>, i: nat, m: Machine, flat: map<Page, Content>, n: nat, pol: Policy, f: nat)
    requires Inv(m, flat, n) && n == |m.coremap| && LruOk(plan, i, m, n, pol)
    requires Chosen(Lru, plan, [], m, pol, m, pol, f)
    ensures Oldest(plan, i, Residents(m), m.coremap[f].pte)
  {
    ResidentsAreFrames(m, flat, n);
    forall u | u in Residents(m) ensures LastUse(plan, i, m.coremap[f].pte) <= LastUse(plan, i, u) {
      var g :| 0 <= g < n && m.coremap[g].pte == u;
      assert pol.stamps[f] <= pol.stamps[g];
    }
  }

  lemma FifoVictim(plan: seq<Page>, rs: seq<set<Page>>, i: nat, m: Machine, flat: map<Page, Content>, n: nat,
                   pol: Policy, pol': Policy, f: nat)
    requires Inv(m, flat, n) && n == |m.coremap| && FifoOk(plan, rs, i, m, n, pol) && i < |rs| && rs[i] == Residents(m)
    requires Chosen(Fifo, plan, [], m, pol, m, pol', f)
    ensures LongestResident(plan, rs, i, m.coremap[f].pte) && f == Evictions(m) % |m.coremap|
  {
    TurnIsMod(Evictions(m), |m.coremap|);
    ResidentsAreFrames(m, flat, n);
    var times := LoadTimes(plan, rs, i, m, n);
    forall u | u in rs[i] ensures LoadTime(plan, rs, i, m.coremap[f].pte) <= LoadTime(plan, rs, i, u) {
      var g :| 0 <= g < n && m.coremap[g].pte == u;
      assert g in pol.ring;
      var b :| 0 <= b < n && pol.ring[b] == g;
      assert times[pol.ring[0]] <= times[pol.ring[b]];
    }
  }

  lemma OptVictim(plan: seq<Page>, i: nat, m: Machine, flat: map<Page, Content>, n: nat, pol: Policy, f: nat)
    requires Inv(m, flat, n) && n == |m.coremap| && OptOk(i, m, n, pol) && i <= |plan|
    requires Chosen(Opt, plan, [], m, pol, m, pol, f)
    ensures Furthest(plan, i, Residents(m), m.coremap[f].pte)
  {
    ResidentsAreFrames(m, flat, n);
    forall u | u in Residents(m) ensures NextUse(plan[i..], u) <= NextUse(plan[i..], m.coremap[f].pte) {
      var g :| 0 <= g < n && m.coremap[g].pte == u;
      assert m.coremap[g].page == u && m.coremap[f].page == m.coremap[f].pte;
    }
  }

  /** Whatever the policy, the page it evicts is the one the abstract policy would evict. */
  lemma VictimIsRight(alg: Algorithm, plan: seq<Page>, rs: seq<set<Page>>, qs: seq<seq<Slot>>, i: nat,
                      m: Machine, flat: map<Page, Content>, n: nat, pol: Policy, m': Machine, pol': Policy, f: nat,
                      r': set<Page>)
    requires Inv(m, flat, n) && n == |m.coremap| && PolicyOk(alg, plan, rs, qs, i, m, n, pol)
    requires i < |plan| && |rs| == i + 1 && rs[i] == Residents(m)
    requires Chosen(alg, plan, qs[i], m, pol, m', pol', f)
    requires r' == Swap(rs[i], m.coremap[f].pte, plan[i])
    ensures PolicyStep(alg, |m.coremap|, plan, rs + [r'], i)
  {
    var rs' := rs + [r'];
    assert rs'[i] == rs[i] && rs'[i + 1] == r';
    var v := m.coremap[f].pte;
    match alg
    case Rand =>
    case Clock =>
    case Lru =>
      LruVictim(plan, i, m, flat, n, pol, f);
      assert Oldest(plan, i, rs'[i], v);
    case Fifo =>
      FifoVictim(plan, rs, i, m, flat, n, pol, pol', f);
      forall u ensures LoadTime(plan, rs', i, u) == LoadTime(plan, rs, i, u) {
        LoadTimePrefix(plan, rs, rs', i, u);
      }
      assert LongestResident(plan, rs', i, v);
    case Opt =>
      OptVictim(plan, i, m, flat, n, pol, f);
      assert Furthest(plan, i, rs'[i], v);
  }

  // ---------------------------------------------------------------- the policies keep up

  /** What an access to page p does to the frames, of which n were in use and n' are now. */
  ghost predicate Accesses(m: Machine, n: nat, f: nat, p: Page, m': Machine, n': nat)
    requires p < |m.ptes|
  {
    && |m'.ptes| == |m.ptes| && n <= |m.coremap| == |m'.coremap|
    && m'.ptes[p].ref && m'.ptes[p].frame < n' <= |m.coremap|
    && (forall q :: 0 <= q < |m.ptes| && q != p && m'.ptes[q].valid ==> m'.ptes[q] == m.ptes[q])
    && if m.ptes[p].valid then
         && n' == n && m'.coremap == m.coremap && m.coremap[m'.ptes[p].frame].pte == p
         && Evictions(m') == Evictions(m)
       else
         && f <= n && n' == (if f < n then n else n + 1) && (n < |m.coremap| ==> f == n)
         && m'.ptes[p].frame == f && m'.coremap == m.coremap[f := m.coremap[f].(inUse := true, pte := p)]
         && Evictions(m') == Evictions(m) + if f < n then 1 else 0
  }

  ghost function Evictions(m: Machine): nat {
    m.counters.clean + m.counters.dirty
  }

  ghost function InUse(m: Machine, n: nat, p: Page): nat
    requires p < |m.ptes|
  {
    if m.ptes[p].valid || n == |m.coremap| then n else n + 1
  }

  lemma AccessFrames(m: Machine, flat: map<Page, Content>, n: nat, f: nat, a: Access)
    requires Inv(m, flat, n) && a.Page() < PAGES && AccessDefined(m, f, a)
    requires !m.ptes[a.Page()].valid ==> Choosable(m, n, f)
    ensures Accesses(m, n, f, a.Page(), Accessed(m, f, a), InUse(m, n, a.Page()))
  {
    assert PageOk(m, flat, a.Page());
    if m.ptes[a.Page()].valid {
      assert FrameOk(m, n, m.ptes[a.Page()].frame);
    } else {
      assert FrameOk(m, n, f);
    }
  }

  /** The n frames in use hold different pages, all valid. */
  ghost predicate FramesApart(m: Machine, n: nat) {
    && n <= |m.coremap|
    && (forall f :: 0 <= f < n ==> m.coremap[f].pte < |m.ptes| && m.ptes[m.coremap[f].pte].valid)
    && (forall f, g :: 0 <= f < g < n ==> m.coremap[f].pte != m.coremap[g].pte)
  }

  lemma InvFramesApart(m: Machine, flat: map<Page, Content>, n: nat)
    requires Inv(m, flat, n)
    ensures FramesApart(m, n)
  {
    ResidentsAreFrames(m, flat, n);
    forall f | 0 <= f < n ensures m.coremap[f].pte < |m.ptes| && m.ptes[m.coremap[f].pte].valid {
      assert FrameOk(m, n, f);
    }
  }

  lemma LruFollows(plan: seq<Page>, i: nat, m: Machine, n: nat, pol: Policy, f: nat,
                   m2: Machine, n2: nat, m3: Machine, pol3: Policy)
    requires i < |plan| && plan[i] < |m.ptes|
    requires LruOk(plan, i, m, n, pol) && FramesApart(m, n) && Accesses(m, n, f, plan[i], m2, n2)
    requires Referenced(Lru, plan, m2, pol, plan[i], m3, pol3)
    ensures LruOk(plan, i + 1, m3, n2, pol3)
  {
    forall h | 0 <= h < n2 ensures pol3.stamps[h] == LastUse(plan, i + 1, m3.coremap[h].pte) {
      if h != m3.ptes[plan[i]].frame {
        assert m.coremap[h].pte != plan[i];
      }
    }
  }

  lemma OptFollows(plan: seq<Page>, i: nat, m: Machine, n: nat, pol: Policy, f: nat,
                   m2: Machine, n2: nat, m3: Machine, pol3: Policy)
    requires i < |plan| && plan[i] < |m.ptes|
    requires OptOk(i, m, n, pol) && Accesses(m, n, f, plan[i], m2, n2)
    requires Referenced(Opt, plan, m2, pol, plan[i], m3, pol3)
    ensures OptOk(i + 1, m3, n2, pol3)
  {
  }

  lemma {:induction false} FifoFollows(plan: seq<Page>, rs: seq<set<Page>>, r': set<Page>, i: nat, m: Machine, n: nat,
                    pol: Policy, pol1: Policy, f: nat, m2: Machine, n2: nat, m3: Machine, pol3: Policy)
    requires i < |plan| && plan[i] < |m.ptes| && |rs| == i + 1 && rs[i] == Residents(m)
    requires FifoOk(plan, rs, i, m, n, pol) && FramesApart(m, n) && Accesses(m, n, f, plan[i], m2, n2)
    requires if !m.ptes[plan[i]].valid && n == |m.coremap| then Chosen(Fifo, plan, [], m, pol, m, pol1, f)
             else pol1 == pol
    requires Referenced(Fifo, plan, m2, pol1, plan[i], m3, pol3)
    ensures FifoOk(plan, rs + [r'], i + 1, m3, n2, pol3)
  {
    var times, times' := LoadTimes(plan, rs, i, m, n), LoadTimes(plan, rs + [r'], i + 1, m3, n2);
    LoadTimesStep(plan, rs, r', i, m, n, f, m2, n2);
    RingStep(pol.ring, times, i, m2.ptes[plan[i]].frame, m.ptes[plan[i]].valid, n, |m.coremap|, Evictions(m),
             pol3.ring, times', n2, Evictions(m3));
  }

  /** A hit changes no load time; a miss makes the page just loaded the latest. */
  lemma LoadTimesStep(plan: seq<Page>, rs: seq<set<Page>>, r': set<Page>, i: nat, m: Machine, n: nat, f: nat,
                      m2: Machine, n2: nat)
    requires i < |plan| && plan[i] < |m.ptes| && |rs| == i + 1 && rs[i] == Residents(m)
    requires FramesApart(m, n) && Accesses(m, n, f, plan[i], m2, n2)
    ensures var times := LoadTimes(plan, rs, i, m, n);
            LoadTimes(plan, rs + [r'], i + 1, m2, n2) ==
              if m.ptes[plan[i]].valid then times else if f < n then times[f := i] else times + [i]
  {
    var rs' := rs + [r'];
    assert rs'[i] == rs[i];
    var times' := LoadTimes(plan, rs', i + 1, m2, n2);
    forall h | 0 <= h < n2 && (m.ptes[plan[i]].valid || h != f)
      ensures times'[h] == LoadTime(plan, rs, i, m.coremap[h].pte)
    {
      assert m2.coremap[h] == m.coremap[h];
      assert m.coremap[h].pte in Residents(m);
      LoadTimePrefix(plan, rs, rs', i, m.coremap[h].pte);
    }
  }

  lemma FillRing(ring: seq<nat>, n: nat, k: nat)
    requires RingOk(ring, n, k, 0) && n < k
    ensures RingOk(ring + [n], n + 1, k, 0)
  {
    var r := ring + [n];
    forall f | 0 <= f < n + 1 ensures f in r {
      if f < n {
        assert f in ring;
        var a :| 0 <= a < n && ring[a] == f;
        assert r[a] == f;
      } else {
        assert r[n] == f;
      }
    }
  }

  lemma TurnRing(ring: seq<nat>, k: nat, e: nat)
    requires RingOk(ring, k, k, e) && 0 < k
    ensures RingOk(ring[1..] + [ring[0]], k, k, e + 1)
  {
    var r := ring[1..] + [ring[0]];
    forall f | 0 <= f < k ensures f in r {
      assert f in ring;
      var a :| 0 <= a < k && ring[a] == f;
      assert r[if a == 0 then k - 1 else a - 1] == f;
    }
    forall a | 0 <= a < k ensures r[a] == Turn(e + 1 + a, k) {
      if a == k - 1 {
        assert e + 1 + a == e + k && Turn(e + k, k) == Turn(e, k);
      } else {
        assert r[a] == ring[a + 1] && e + 1 + a == e + (a + 1);
      }
    }
  }

  lemma FillOrder(ring: seq<nat>, times: seq<int>, i: nat)
    requires InOrder(ring, times) && forall f :: 0 <= f < |times| ==> times[f] < i
    ensures InOrder(ring + [|times|], times + [i])
  {
  }

  lemma TurnOrder(ring: seq<nat>, times: seq<int>, i: nat)
    requires ring != [] && InOrder(ring, times) && forall f :: 0 <= f < |times| ==> times[f] < i
    ensures InOrder(ring[1..] + [ring[0]], times[ring[0] := i])
  {
    var r, t := ring[1..] + [ring[0]], times[ring[0] := i];
    forall a, b | 0 <= a < b < |r| ensures t[r[a]] < t[r[b]] {
      assert r[a] == ring[a + 1] && t[r[a]] == times[ring[a + 1]];
      assert b < |r| - 1 ==> r[b] == ring[b + 1] && t[r[b]] == times[ring[b + 1]];
    }
  }

  /** The ring after a reference to the page in frame g. */
  ghost function RingAfter(ring: seq<nat>, g: nat, hit: bool, full: bool): seq<nat> {
    var ring1 := if !hit && full && ring != [] then ring[1..] else ring;
    if g in ring1 then ring1 else ring1 + [g]
  }

  lemma RingStep(ring: seq<nat>, times: seq<int>, i: nat, g: nat, hit: bool, n: nat, k: nat, e: nat,
                 ring': seq<nat>, times': seq<int>, n': nat, e': nat)
    requires RingOk(ring, n, k, e) && |times| == n && InOrder(ring, times)
    requires forall f :: 0 <= f < n ==> times[f] < i
    requires if hit then g < n else if n < k then g == n else g == ring[0]
    requires ring' == RingAfter(ring, g, hit, n == k)
    requires n' == (if hit || n == k then n else n + 1) && e' == if !hit && n == k then e + 1 else e
    requires times' == if hit then times else if n < k then times + [i] else times[g := i]
    ensures RingOk(ring', n', k, e') && InOrder(ring', times')
  {
    if hit {
      assert g in ring;
    } else if n < k {
      FillRing(ring, n, k);
      FillOrder(ring, times, i);
    } else {
      TurnRing(ring, k, e);
      TurnOrder(ring, times, i);
    }
  }

  /** A frame other than the one just filled shows the same slot, unless it holds p. */
  lemma SlotKept(m: Machine, n: nat, f: nat, p: Page, m2: Machine, n2: nat, h: nat)
    requires p < |m.ptes| && Mapped(m) && Mapped(m2) && h < n2
    requires FramesApart(m2, n2) && Accesses(m, n, f, p, m2, n2)
    requires !m.ptes[p].valid ==> h != f
    ensures h < n && ViewSlot(m2, h) == if m.coremap[h].pte == p then Slot(p, true) else ViewSlot(m, h)
    ensures !m.ptes[p].valid ==> m.coremap[h].pte != p
  {
    assert m2.coremap[h] == m.coremap[h];
    assert m2.ptes[m2.coremap[h].pte].valid;
    if !m.ptes[p].valid {
      assert m2.coremap[f].pte == p;
    }
  }

  lemma ClockHit(q: seq<Slot>, m: Machine, arm: nat, n: nat, f: nat, p: Page, m2: Machine)
    requires p < |m.ptes| && m.ptes[p].valid && IsView(q, m, arm, n) && Mapped(m2)
    requires FramesApart(m2, n) && Accesses(m, n, f, p, m2, n)
    requires 0 < |m.coremap| && (n < |m.coremap| ==> arm == 0)
    ensures IsView(Mark(q, p), m2, arm, n)
  {
    forall j | 0 <= j < n ensures Mark(q, p)[j] == Slots(m2)[Turn(arm + j, |m.coremap|)] {
      SlotKept(m, n, f, p, m2, n, Turn(arm + j, |m.coremap|));
    }
  }

  lemma ClockFill(q: seq<Slot>, m: Machine, n: nat, f: nat, p: Page, m2: Machine)
    requires p < |m.ptes| && !m.ptes[p].valid && IsView(q, m, 0, n) && Mapped(m2) && n < |m.coremap|
    requires FramesApart(m2, n + 1) && Accesses(m, n, f, p, m2, n + 1)
    ensures IsView(q + [Slot(p, true)], m2, 0, n + 1)
  {
    forall j | 0 <= j < n + 1 ensures (q + [Slot(p, true)])[j] == Slots(m2)[Turn(0 + j, |m.coremap|)] {
      if j < n {
        SlotKept(m, n, f, p, m2, n + 1, j);
      }
    }
  }

  lemma ClockEvict(q: seq<Slot>, m: Machine, f: nat, p: Page, m2: Machine)
    requires p < |m.ptes| && !m.ptes[p].valid && f < |m.coremap| && IsView(q, m, f, |m.coremap|) && Mapped(m2)
    requires FramesApart(m2, |m.coremap|) && Accesses(m, |m.coremap|, f, p, m2, |m.coremap|)
    ensures IsView(q[1..] + [Slot(p, true)], m2, Turn(f + 1, |m.coremap|), |m.coremap|)
  {
    var k := |m.coremap|;
    forall j | 0 <= j < k
      ensures (q[1..] + [Slot(p, true)])[j] == Slots(m2)[Turn(Turn(f + 1, k) + j, k)]
    {
      TurnNext(f, j, k);
      if j < k - 1 {
        SlotKept(m, k, f, p, m2, k, Turn(f + (j + 1), k));
      }
    }
  }

  lemma ClockFollows(plan: seq<Page>, i: nat, q: seq<Slot>, m: Machine, n: nat, pol: Policy, m1: Machine, pol1: Policy,
                     f: nat, m2: Machine, n2: nat)
    requires i < |plan| && plan[i] < |m.ptes| && Pages(q) == Residents(m)
    requires ClockOk(q, m, n, pol) && FramesApart(m2, n2) && Mapped(m2)
    requires if !m.ptes[plan[i]].valid && n == |m.coremap| then Chosen(Clock, plan, q, m, pol, m1, pol1, f)
             else m1 == m && pol1 == pol
    requires Accesses(m1, n, f, plan[i], m2, n2)
    ensures ClockOk(Serve(|m.coremap|, q, plan[i]), m2, n2, pol1)
  {
    assert plan[i] in Pages(q) <==> m.ptes[plan[i]].valid;
    if m.ptes[plan[i]].valid {
      ClockHit(q, m, pol.arm, n, f, plan[i], m2);
    } else if n < |m.coremap| {
      ClockFill(q, m, n, f, plan[i], m2);
    } else {
      assert !m1.ptes[plan[i]].valid;
      ClockEvict(Sweep(q), m1, f, plan[i], m2);
    }
  }
}
