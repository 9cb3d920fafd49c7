/** What my_syscall answers to whom, in the terms of its documentation (a1/starter_code/starter_code/interceptor.c).

    The requests are 1 to intercept a call, 2 to release it, 3 to start monitoring a process for it and 4 to stop;
    process 0 stands for all of them.  The answers are 0, or -1 for a caller without permission, -12 for want of
    memory, -16 if it is so already, and -22 for a request that makes no sense.
 */
module Requests {
  import opened Monitoring
  import opened Interception
  import InterceptionRuns

  // ---------------------------------------------------------------- the answers

  /** -1 is the answer to a request that makes sense by itself, from a caller who is not root, unless it is to start or
      stop monitoring a single process of the caller's own. */
  lemma {:induction false} DeniedExactly(k: State, orig: seq<Handler>, exitGroup: int, q: Request)
    requires Inv(k, orig, exitGroup)
    ensures Handle(k, q).1 == -1 <==>
            && 1 <= q.cmd <= 4 && 0 < q.syscall < |k.rows| && (q.pid == 0 || (q.pid > 0 && q.pid in q.env.exist))
            && !q.env.root && !((q.cmd == 3 || q.cmd == 4) && q.pid != 0 && q.pid in q.env.owned)
  {
    HandleIs(k, orig, exitGroup, q);
  }

  /** -22 is the answer when the request is none of the four, when there is no such call or it is the module's own,
      when there is no such process; and, if the caller has permission, to a request to release a call that is not
      intercepted, and to one to stop monitoring who is not monitored, or a process for a call not intercepted. */
  lemma {:induction false} InvalidExactly(k: State, orig: seq<Handler>, exitGroup: int, q: Request)
    requires Inv(k, orig, exitGroup)
    ensures Handle(k, q).1 == -22 <==>
            || q.cmd < 1 || q.cmd > 4 || q.syscall < 0 || q.syscall >= |k.rows| || q.syscall == 0
            || q.pid < 0 || (q.pid > 0 && q.pid !in q.env.exist)
            || ((q.env.root || ((q.cmd == 3 || q.cmd == 4) && q.pid != 0 && q.pid in q.env.owned))
                && var row := k.rows[q.syscall];
                   || (q.cmd == 2 && !row.intercepted)
                   || (q.cmd == 4 && q.pid == 0 && Watched(row) == Only({}))
                   || (q.cmd == 4 && q.pid != 0 && (!Has(Watched(row), q.pid) || !row.intercepted)))
  {
    HandleIs(k, orig, exitGroup, q);
  }

  /** -16 is the answer to a request with permission to intercept a call that is intercepted, to monitor a process
      that is monitored, and to monitor all when all or all but some are. */
  lemma {:induction false} BusyExactly(k: State, orig: seq<Handler>, exitGroup: int, q: Request)
    requires Inv(k, orig, exitGroup)
    ensures Handle(k, q).1 == -16 <==>
            && 0 < q.syscall < |k.rows| && (q.pid == 0 || (q.pid > 0 && q.pid in q.env.exist))
            && (q.env.root || (q.cmd == 3 && q.pid != 0 && q.pid in q.env.owned))
            && var row := k.rows[q.syscall];
               || (q.cmd == 1 && row.intercepted)
               || (q.cmd == 3 && if q.pid == 0 then Watched(row).AllBut? else Has(Watched(row), q.pid))
  {
    HandleIs(k, orig, exitGroup, q);
  }

  /** -12 is the answer when there is no memory for a pid that is to be listed: one to be monitored among those
      listed, or to be excluded from all. */
  lemma {:induction false} NoMemoryExactly(k: State, orig: seq<Handler>, exitGroup: int, q: Request)
    requires Inv(k, orig, exitGroup)
    ensures Handle(k, q).1 == -12 <==>
            && 0 < q.syscall < |k.rows| && q.pid > 0 && q.pid in q.env.exist && !q.env.memory
            && (q.env.root || q.pid in q.env.owned)
            && var row := k.rows[q.syscall];
               || (q.cmd == 3 && Watched(row).Only? && !Has(Watched(row), q.pid))
               || (q.cmd == 4 && Watched(row).AllBut? && Has(Watched(row), q.pid) && row.intercepted)
  {
    HandleIs(k, orig, exitGroup, q);
  }

  /** There are no other answers; all but 0 mean that nothing has changed, and 0 that what was asked for is so: the
      call is intercepted or not, all processes are monitored or none, or the one process is or is not and no other
      differs. */
  lemma {:induction false} DoneExactly(k: State, orig: seq<Handler>, exitGroup: int, q: Request)
    requires Inv(k, orig, exitGroup)
    ensures Handle(k, q).1 in {0, -1, -12, -16, -22}
    ensures Handle(k, q).1 != 0 ==> Handle(k, q).0 == k
    ensures Handle(k, q).1 == 0 ==>
              var k', s := Handle(k, q).0, q.syscall;
              && 0 < s < |k.rows| && 1 <= q.cmd <= 4
              && (forall t :: 0 <= t < |k.rows| && t != s ==> k'.rows[t] == k.rows[t] && k'.sys[t] == k.sys[t])
              && (q.cmd <= 2 ==> Watched(k'.rows[s]) == Watched(k.rows[s]))
              && (q.cmd >= 3 ==> k'.sys == k.sys && k'.rows[s].intercepted == k.rows[s].intercepted)
              && (q.cmd == 1 ==> k'.rows[s].intercepted && k'.sys[s] == Interceptor)
              && (q.cmd == 2 ==> !k'.rows[s].intercepted && k'.sys[s] == Loaded(orig, exitGroup)[s])
              && (q.cmd == 3 && q.pid == 0 ==> forall p :: Has(Watched(k'.rows[s]), p))
              && (q.cmd == 4 && q.pid == 0 ==> forall p :: !Has(Watched(k'.rows[s]), p))
              && (q.cmd >= 3 && q.pid != 0 ==>
                    forall p :: Has(Watched(k'.rows[s]), p) <==>
                                if p == q.pid then q.cmd == 3 else Has(Watched(k.rows[s]), p))
  {
    HandleIs(k, orig, exitGroup, q);
    var k', result := Handle(k, q).0, Handle(k, q).1;
    if result == 0 {
      var s := q.syscall;
      assert Meanings(k'.rows)[s] == Meaning(k'.rows[s]) && Meanings(k.rows)[s] == Meaning(k.rows[s]);
      assert CallOk(k, orig, exitGroup, s) && CallOk(k', orig, exitGroup, s);
    }
  }

  // ---------------------------------------------------------------- what users can do

  /** The event is no request of root, and none of a user who owns process p; nor does p exit. */
  predicate LeavesAlone(e: Event, p: int) {
    match e
    case Command(q) => !q.env.root && p !in q.env.owned
    case Exit(pid) => pid != p
  }

  /** The same calls are intercepted, through the same functions, and process p is monitored for the same ones. */
  ghost predicate SameFor(k: State, k': State, p: int) {
    && k'.sys == k.sys && |k'.rows| == |k.rows|
    && forall s {:trigger k'.rows[s]} :: 0 <= s < |k.rows| ==>
         && k'.rows[s].intercepted == k.rows[s].intercepted
         && Has(Watched(k'.rows[s]), p) == Has(Watched(k.rows[s]), p)
  }

  lemma {:induction false} ForgetsOthers(k: State, orig: seq<Handler>, exitGroup: int, pid: int, p: int)
    requires Inv(k, orig, exitGroup) && pid != p
    ensures SameFor(k, k.(rows := Purged(k.rows, pid)), p)
  {
    var k' := k.(rows := Purged(k.rows, pid));
    forall s | 0 <= s < |k.rows| ensures k'.rows[s].intercepted == k.rows[s].intercepted
        && Has(Watched(k'.rows[s]), p) == Has(Watched(k.rows[s]), p) {
      assert RowOk(k.rows[s]);
      DeletedWatched(k.rows[s], pid);
    }
  }

  /** A user who is not root changes neither the system call table nor which calls are intercepted, nor for which a
      process of another user is monitored. */
  lemma {:induction false} UserChangesOwn(k: State, orig: seq<Handler>, exitGroup: int, e: Event, p: int)
    requires Inv(k, orig, exitGroup) && LeavesAlone(e, p)
    ensures SameFor(k, Step(k, e).0, p)
  {
    match e
    case Command(q) =>
      DeniedExactly(k, orig, exitGroup, q);
      InvalidExactly(k, orig, exitGroup, q);
      DoneExactly(k, orig, exitGroup, q);
    case Exit(pid) => ForgetsOthers(k, orig, exitGroup, pid, p);
  }

  /** Nor do any number of users, whatever has happened before. */
  lemma {:induction false} UsersChangeOwn(sys: seq<Handler>, exitGroup: int, before: seq<Event>, es: seq<Event>, p: int)
    requires 0 < exitGroup < |sys| && forall i :: 0 <= i < |es| ==> LeavesAlone(es[i], p)
    ensures SameFor(Run(Init(sys, exitGroup), before).0, Run(Init(sys, exitGroup), before + es).0, p)
    decreases |es|
  {
    if es == [] {
      assert before + es == before;
    } else {
      var init, e := es[..|es| - 1], es[|es| - 1];
      UsersChangeOwn(sys, exitGroup, before, init, p);
      assert before + es == before + init + [e];
      InterceptionRuns.RunOneMore(Init(sys, exitGroup), before + init, e);
      InitIs(sys, exitGroup);
      RunRefines(Init(sys, exitGroup), sys, exitGroup, before + init);
      UserChangesOwn(Run(Init(sys, exitGroup), before + init).0, sys, exitGroup, e, p);
    }
  }
}
