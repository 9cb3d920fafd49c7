/** The data of the replacement policies, updated in place: timestamps (lru.c), the queue of frames
    (fifo.c), the arm (clock.c), and the page list with the table of reference times (opt.c). */
module PolicyStates {
  import opened Paging
  import opened PageTables
  import opened Machines
  import opened Policies
  import opened Replays
  import opened Lists
  import opened Queues
  import opened RefTimes
  import opened Turns
  /** The page numbers of the trace, one per reference. */
  method MakePageList(trace: seq<Access>) returns (list: List<nat>)
    ensures list.Valid() && fresh(list) && fresh(list.contents)
    ensures list.items == PagesOf(trace)
  {
    list := new List<nat>(INIT_LIST_SIZE);
    for i := 0 to |trace|
      invariant list.Valid() && fresh(list) && fresh(list.contents)
      invariant list.items == PagesOf(trace)[..i]
    {
      list.Append(PageOf(trace[i].vaddr));
    }
  }

  /** opt_init, when opt is the chosen policy. */
  method OptInit(alg: Algorithm, memsize: nat, trace: seq<Access>) returns (list: List<nat>, table: BeladyTable)
    requires alg.Opt? ==> memsize >= BUCKET_SHARE
    ensures list.Valid() && table.Valid() && fresh(list) && fresh(list.contents) && fresh(table.Repr)
    ensures list !in table.Repr && list.contents !in table.Repr
    ensures alg.Opt? ==> list.items == PagesOf(trace) && Foretells(table.times, PagesOf(trace), 0)
  {
    if alg.Opt? {
      list := MakePageList(trace);
      table := MakeBeladyTable(list, memsize);
    } else {
      list := new List<nat>(INIT_LIST_SIZE);
      table := new BeladyTable.Empty(1);
    }
  }

  class PolicyState {
    const alg: Algorithm
    const memsize: nat
    const timestampList: array<nat>  // lru.c
    var timestamp: nat
    const queue: Queue               // fifo.c
    var clockArm: nat                // clock.c
    const pageList: List<nat>        // opt.c
    const belady: BeladyTable
    var curRef: nat
    ghost const plan: seq<Page>
    ghost const Repr: set<object>

    ghost predicate Valid()
      reads this, Repr
      ensures Valid() ==> this in Repr
    {
      && this in Repr && timestampList in Repr && queue in Repr && queue.contents in Repr
      && timestampList.Length == queue.size == memsize > 0
      && queue.contents as object != timestampList
      && queue.Valid()
      && belady in Repr && pageList in Repr && pageList.contents in Repr
      && belady.Repr <= Repr && {this, timestampList, queue, queue.contents, pageList, pageList.contents} !! belady.Repr
      && queue.contents as object != pageList.contents && timestampList as object != pageList.contents
      && pageList.Valid() && belady.Valid()
      && (alg.Opt? ==> pageList.items == plan && curRef <= |plan| && Foretells(belady.times, plan, curRef))
    }

    ghost function Pol(): Policy
      reads this, timestampList, queue
    {
      Policy(timestampList[..], timestamp, queue.items, clockArm, curRef)
    }

    /** init_fcn: all counters start at 0. */
    constructor (alg: Algorithm, memsize: nat, trace: seq<Access>)
      requires 0 < memsize && (alg.Opt? ==> memsize >= BUCKET_SHARE)
      ensures Valid() && fresh(Repr) && this.alg == alg && this.memsize == memsize && plan == PagesOf(trace)
      ensures Pol() == InitialPolicy(memsize)
    {
      this.alg, this.memsize, plan := alg, memsize, PagesOf(trace);
      var t := new nat[memsize](_ => 0);
      var q := new Queue(memsize);
      var list, table := OptInit(alg, memsize, trace);
      timestampList, queue, pageList, belady := t, q, list, table;
      timestamp, clockArm, curRef := 0, 0, 0;
      Repr := {this, t, q, q.contents, list, list.contents} + table.Repr;
      new;
    }

    /** lru_ref: the frame is stamped with the time, and time passes (it is an unsigned int). */
    method SetTimestamp(g: nat)
      requires Valid() && g < memsize
      modifies timestampList, `timestamp
      ensures Valid()
      ensures Pol() == old(Pol()).(stamps := old(Pol()).stamps[g := old(timestamp)],
                                   timestamp := (old(timestamp) + 1) % TIMESTAMPS)
    {
      timestampList[g] := timestamp;
      timestamp := (timestamp + 1) % TIMESTAMPS;
    }

    /** fifo_ref: a frame that is not in the queue yet goes to its back. */
    method FifoRef(g: nat)
      requires Valid() && (g !in Pol().ring ==> |Pol().ring| < memsize)
      modifies queue, queue.contents
      ensures Valid()
      ensures Pol() == old(Pol()).(ring := if g in old(Pol()).ring then old(Pol()).ring else old(Pol()).ring + [g])
    {
      var there := queue.Contains(g);
      if !there {
        queue.Enqueue(g);
      }
    }

    method FifoEvict() returns (f: nat)
      requires Valid() && Pol().ring != []
      modifies queue, queue.contents
      ensures Valid()
      ensures f == old(Pol()).ring[0] && Pol() == old(Pol()).(ring := old(Pol()).ring[1..])
    {
      f := queue.Dequeue();
    }

    /** opt_ref: the time popped for the current page is the current time, which then passes. */
    method OptRef() returns (page: Page)
      requires Valid() && alg.Opt? && curRef < |plan|
      modifies `curRef, belady.Repr
      ensures Valid()
      ensures page == plan[old(curRef)] && Pol() == old(Pol()).(curRef := old(curRef) + 1)
    {
      page := pageList.contents[curRef].value;
      PopForetells(belady.times, plan, curRef);
      var popped := belady.PopNextRefTime(page);
      assert popped == curRef;
      curRef := curRef + 1;
    }

    /** clock_evict leaves the arm at the frame after its victim. */
    method SetClockArm(f: nat)
      requires Valid()
      modifies `clockArm
      ensures Valid() && Pol() == old(Pol()).(arm := Turn(f + 1, memsize))
    {
      TurnIsMod(f + 1, memsize);
      clockArm := (f + 1) % memsize;
    }
  }
}
