/** The interceptor as a state machine: commands and exits of processes, between loading and unloading
    (my_syscall, my_exit_group, init_function and exit_function in a1/starter_code/starter_code/interceptor.c). */
module Interception {
  import opened Monitoring

  /** The system call table, the rows, and the two calls that loading replaces. */
  datatype State = State(sys: seq<Handler>, rows: seq<Row>, origCustom: Handler, origExit: Handler)

  datatype Request = Request(cmd: int, syscall: int, pid: int, env: Env)

  datatype Event = Command(request: Request) | Exit(pid: int)

  // ---------------------------------------------------------------- the checks of my_syscall

  predicate IsValidCmd(cmd: int) {
    REQUEST_SYSCALL_INTERCEPT <= cmd <= REQUEST_STOP_MONITORING
  }

  /** Row number last is the last one; call 0 is the module's own. */
  predicate IsValidSyscall(syscall: int, last: int) {
    0 <= syscall <= last && syscall != MY_CUSTOM_SYSCALL
  }

  predicate IsValidPid(pid: int, env: Env) {
    pid == 0 || (pid > 0 && pid in env.exist)
  }

  predicate IsMonitoring(cmd: int) {
    cmd == REQUEST_START_MONITORING || cmd == REQUEST_STOP_MONITORING
  }

  predicate HasPermissions(cmd: int, pid: int, env: Env) {
    env.root || (IsMonitoring(cmd) && pid != 0 && pid in env.owned)
  }

  predicate IsContextCorrect(row: Row, cmd: int, pid: int) {
    if cmd == REQUEST_SYSCALL_RELEASE then row.intercepted
    else if cmd == REQUEST_STOP_MONITORING then
      if pid == 0 then row.monitored != 0 else Monitors(row, pid) && row.intercepted
    else true
  }

  predicate IsBusy(row: Row, cmd: int, pid: int) {
    if cmd == REQUEST_SYSCALL_INTERCEPT then row.intercepted
    else if cmd == REQUEST_START_MONITORING then
        (pid == 0 && row.monitored == 2 && row.listcount == 0) || Monitors(row, pid)
    else false
  }

  // ---------------------------------------------------------------- the handlers

  function Intercepted(k: State, s: int): (State, int)
    requires 0 <= s < |k.rows| == |k.sys|
  {
    (k.(rows := k.rows[s := k.rows[s].(intercepted := true, f := k.sys[s])], sys := k.sys[s := Interceptor]), 0)
  }

  function Released(k: State, s: int): (State, int)
    requires 0 <= s < |k.rows| == |k.sys|
  {
    (k.(rows := k.rows[s := k.rows[s].(intercepted := false)], sys := k.sys[s := k.rows[s].f]), 0)
  }

  /** handle_start_monitoring on a row. */
  function Started(row: Row, pid: int, memory: bool): (Row, int) {
    if pid == 0 then (Destroyed(row).(monitored := 2), 0)
    else if row.monitored == 2 then (Deleted(row, pid), if Find(row.pids, pid) < |row.pids| then 0 else -EINVAL)
    else if !memory then (row, -ENOMEM)
    else (Added(row, pid).(monitored := 1), 0)
  }

  /** handle_stop_monitoring on a row. */
  function Stopped(row: Row, pid: int, memory: bool): (Row, int) {
    if pid == 0 then (Destroyed(row), 0)
    else if row.monitored == 2 then
      if memory then (Added(row, pid), 0) else (row, -ENOMEM)
    else (Deleted(row, pid), if Find(row.pids, pid) < |row.pids| then 0 else -EINVAL)
  }

  function WithRow(k: State, s: int, r: (Row, int)): (State, int)
    requires 0 <= s < |k.rows|
  {
    (k.(rows := k.rows[s := r.0]), r.1)
  }

  /** my_syscall */
  function Handle(k: State, q: Request): (State, int)
    requires |k.rows| == |k.sys|
  {
    if !IsValidCmd(q.cmd) || !IsValidSyscall(q.syscall, |k.rows| - 1) || !IsValidPid(q.pid, q.env) then (k, -EINVAL)
    else if !HasPermissions(q.cmd, q.pid, q.env) then (k, -EPERM)
    else if !IsContextCorrect(k.rows[q.syscall], q.cmd, q.pid) then (k, -EINVAL)
    else if IsBusy(k.rows[q.syscall], q.cmd, q.pid) then (k, -EBUSY)
    else if q.cmd == REQUEST_SYSCALL_INTERCEPT then Intercepted(k, q.syscall)
    else if q.cmd == REQUEST_SYSCALL_RELEASE then Released(k, q.syscall)
    else if q.cmd == REQUEST_START_MONITORING then
        WithRow(k, q.syscall, Started(k.rows[q.syscall], q.pid, q.env.memory))
    else WithRow(k, q.syscall, Stopped(k.rows[q.syscall], q.pid, q.env.memory))
  }

  /** del_pid: the rows from 1 to the last but one lose the pid. */
  function Purged(rows: seq<Row>, pid: int): (r: seq<Row>)
    ensures |r| == |rows|
  {
    seq(|rows|, s requires 0 <= s < |rows| => if 1 <= s < |rows| - 1 then Deleted(rows[s], pid) else rows[s])
  }

  function Step(k: State, e: Event): (r: (State, int))
    requires |k.rows| == |k.sys|
    ensures |r.0.rows| == |r.0.sys| == |k.sys|
  {
    match e
    case Command(q) => Handle(k, q)
    case Exit(pid) => (k.(rows := Purged(k.rows, pid)), 0)
  }

  // ---------------------------------------------------------------- what it all stands for

  /** For each call: is it intercepted, and who is monitored. */
  datatype Watch = Watch(on: bool, pids: Pids)

  ghost function Meaning(row: Row): Watch {
    Watch(row.intercepted, Watched(row))
  }

  ghost function Meanings(rows: seq<Row>): (w: seq<Watch>)
    ensures |w| == |rows| && forall s :: 0 <= s < |rows| ==> w[s] == Meaning(rows[s])
  {
    seq(|rows|, s requires 0 <= s < |rows| => Meaning(rows[s]))
  }

  function WatchAllowed(w: Watch, q: Request): int {
    if q.cmd == REQUEST_SYSCALL_INTERCEPT then if w.on then -EBUSY else 0
    else if q.cmd == REQUEST_SYSCALL_RELEASE then if w.on then 0 else -EINVAL
    else if q.cmd == REQUEST_START_MONITORING then
      if q.pid == 0 then if w.pids.AllBut? then -EBUSY else 0
      else if Has(w.pids, q.pid) then -EBUSY
      else if w.pids.Only? && !q.env.memory then -ENOMEM else 0
    else
      if q.pid == 0 then if w.pids == Only({}) then -EINVAL else 0
      else if !Has(w.pids, q.pid) || !w.on then -EINVAL
      else if w.pids.AllBut? && !q.env.memory then -ENOMEM else 0
  }

  /** What a request that is allowed does: start and stop are insertion and removal, of one or of all. */
  function WatchDone(w: Watch, q: Request): Watch {
    if q.cmd == REQUEST_SYSCALL_INTERCEPT then w.(on := true)
    else if q.cmd == REQUEST_SYSCALL_RELEASE then w.(on := false)
    else if q.cmd == REQUEST_START_MONITORING then w.(pids := if q.pid == 0 then AllBut({}) else Insert(w.pids, q.pid))
    else w.(pids := if q.pid == 0 then Only({}) else Without(w.pids, q.pid))
  }

  function WatchHandle(w: seq<Watch>, q: Request): (r: (seq<Watch>, int))
    ensures |r.0| == |w|
  {
    if !IsValidCmd(q.cmd) || !IsValidSyscall(q.syscall, |w| - 1) || !IsValidPid(q.pid, q.env) then (w, -EINVAL)
    else if !HasPermissions(q.cmd, q.pid, q.env) then (w, -EPERM)
    else
      var result := WatchAllowed(w[q.syscall], q);
      (if result == 0 then w[q.syscall := WatchDone(w[q.syscall], q)] else w, result)
  }

  function WatchExit(w: seq<Watch>, pid: int): (r: seq<Watch>)
    ensures |r| == |w|
    ensures forall s :: 0 <= s < |w| ==> r[s] == if 1 <= s < |w| - 1 then w[s].(pids := Forget(w[s].pids, pid))
            else w[s]
  {
    seq(|w|, s requires 0 <= s < |w| => if 1 <= s < |w| - 1 then w[s].(pids := Forget(w[s].pids, pid)) else w[s])
  }

  function WatchStep(w: seq<Watch>, e: Event): (r: (seq<Watch>, int))
    ensures |r.0| == |w|
  {
    match e
    case Command(q) => WatchHandle(w, q)
    case Exit(pid) => (WatchExit(w, pid), 0)
  }

  // ---------------------------------------------------------------- the invariant

  ghost predicate RowsOk(rows: seq<Row>) {
    forall s {:trigger rows[s]} :: 0 <= s < |rows| ==> RowOk(rows[s])
  }

  /** The table as it is without interception, once the module is loaded. */
  function Loaded(orig: seq<Handler>, exitGroup: int): (t: seq<Handler>)
    requires 0 < exitGroup < |orig|
    ensures |t| == |orig|
  {
    orig[MY_CUSTOM_SYSCALL := MySyscall][exitGroup := MyExitGroup]
  }

  /** Row and call number s: the original call is kept in the row, and it is in the table unless it is
      intercepted. */
  ghost predicate CallOk(k: State, orig: seq<Handler>, exitGroup: int, s: int)
    requires 0 < exitGroup < |orig| == |k.rows| == |k.sys| && 0 <= s < |orig|
  {
    && k.rows[s].f == Loaded(orig, exitGroup)[s]
    && k.sys[s] == (if k.rows[s].intercepted then Interceptor else k.rows[s].f)
  }

  ghost predicate CallsOk(k: State, orig: seq<Handler>, exitGroup: int) {
    && 0 < exitGroup < |orig| == |k.rows| == |k.sys|
    && k.origCustom == orig[MY_CUSTOM_SYSCALL] && k.origExit == orig[exitGroup]
    && !k.rows[MY_CUSTOM_SYSCALL].intercepted && k.rows[MY_CUSTOM_SYSCALL].pids == []
    && (forall s {:trigger CallOk(k, orig, exitGroup, s)} :: 0 <= s < |orig| ==> CallOk(k, orig, exitGroup, s))
  }

  /** The invariant of the loaded module; orig is the table before it was loaded. */
  ghost predicate Inv(k: State, orig: seq<Handler>, exitGroup: int) {
    CallsOk(k, orig, exitGroup) && RowsOk(k.rows)
  }

  // ---------------------------------------------------------------- one step

  /** On one row, the code decides as the sets say, and does to the set what the request asks for. */
  lemma {:induction false} RowDecides(row: Row, q: Request)
    requires RowOk(row) && IsValidCmd(q.cmd) && q.pid >= 0
    ensures var w := Meaning(row);
            && (!IsContextCorrect(row, q.cmd, q.pid) ==> WatchAllowed(w, q) == -EINVAL)
            && (IsContextCorrect(row, q.cmd, q.pid) && IsBusy(row, q.cmd, q.pid) ==> WatchAllowed(w, q) == -EBUSY)
            && (IsContextCorrect(row, q.cmd, q.pid) && !IsBusy(row, q.cmd, q.pid) ==>
                WatchAllowed(w, q) == 0 || WatchAllowed(w, q) == -ENOMEM)
  {
    MonitorsIsHas(row, q.pid);
    assert |row.pids| > 0 ==> row.pids[0] in SetOf(row.pids);
  }

  lemma {:induction false} StartedIs(row: Row, q: Request)
    requires RowOk(row) && q.cmd == REQUEST_START_MONITORING && q.pid >= 0 && !IsBusy(row, q.cmd, q.pid)
    ensures var (row', result) := Started(row, q.pid, q.env.memory);
            && RowOk(row') && result == WatchAllowed(Meaning(row), q) && row'.f == row.f
               && row'.intercepted == row.intercepted
            && Meaning(row') == if result == 0 then WatchDone(Meaning(row), q) else Meaning(row)
  {
    MonitorsIsHas(row, q.pid);
    assert SetOf([]) == {};
    if q.pid != 0 {
      if row.monitored == 2 {
        DeletedWatched(row, q.pid);
      } else {
        AddedWatched(row, q.pid);
      }
    }
  }

  lemma {:induction false} StoppedIs(row: Row, q: Request)
    requires RowOk(row) && q.cmd == REQUEST_STOP_MONITORING && q.pid >= 0 && IsContextCorrect(row, q.cmd, q.pid)
    ensures var (row', result) := Stopped(row, q.pid, q.env.memory);
            && RowOk(row') && result == WatchAllowed(Meaning(row), q) && row'.f == row.f
               && row'.intercepted == row.intercepted
            && Meaning(row') == if result == 0 then WatchDone(Meaning(row), q) else Meaning(row)
  {
    MonitorsIsHas(row, q.pid);
    assert |row.pids| > 0 ==> row.pids[0] in SetOf(row.pids);
    if q.pid != 0 {
      if row.monitored == 2 {
        AddedWatched(row, q.pid);
      } else {
        DeletedWatched(row, q.pid);
      }
    }
  }

  /** A row is replaced by another for the same call. */
  lemma RowReplaced(k: State, orig: seq<Handler>, exitGroup: int, s: nat, row: Row)
    requires Inv(k, orig, exitGroup) && MY_CUSTOM_SYSCALL < s < |k.rows| && RowOk(row)
    requires row.f == k.rows[s].f && row.intercepted == k.rows[s].intercepted
    ensures Inv(k.(rows := k.rows[s := row]), orig, exitGroup)
    ensures Meanings(k.rows[s := row]) == Meanings(k.rows)[s := Meaning(row)]
  {
    var k' := k.(rows := k.rows[s := row]);
    forall t | 0 <= t < |orig| ensures CallOk(k', orig, exitGroup, t) {
      assert CallOk(k, orig, exitGroup, t);
    }
  }

  lemma InterceptedIs(k: State, orig: seq<Handler>, exitGroup: int, s: nat)
    requires Inv(k, orig, exitGroup) && MY_CUSTOM_SYSCALL < s < |k.rows| && !k.rows[s].intercepted
    ensures var (k', result) := Intercepted(k, s);
            result == 0 && Inv(k', orig, exitGroup)
                && Meanings(k'.rows) == Meanings(k.rows)[s := Meaning(k.rows[s]).(on := true)]
  {
    var (k', result) := Intercepted(k, s);
    assert RowOk(k.rows[s]);
    forall t | 0 <= t < |orig| ensures CallOk(k', orig, exitGroup, t) {
      assert CallOk(k, orig, exitGroup, t);
    }
  }

  lemma ReleasedIs(k: State, orig: seq<Handler>, exitGroup: int, s: nat)
    requires Inv(k, orig, exitGroup) && MY_CUSTOM_SYSCALL < s < |k.rows|
    ensures var (k', result) := Released(k, s);
            result == 0 && Inv(k', orig, exitGroup)
                && Meanings(k'.rows) == Meanings(k.rows)[s := Meaning(k.rows[s]).(on := false)]
  {
    var (k', result) := Released(k, s);
    assert RowOk(k.rows[s]);
    forall t | 0 <= t < |orig| ensures CallOk(k', orig, exitGroup, t) {
      assert CallOk(k, orig, exitGroup, t);
    }
  }

  /** A request keeps the invariant, answers as the sets say, and does to them what it asks for. */
  lemma {:induction false} HandleIs(k: State, orig: seq<Handler>, exitGroup: int, q: Request)
    requires Inv(k, orig, exitGroup)
    ensures var (k', result) := Handle(k, q);
            Inv(k', orig, exitGroup) && (Meanings(k'.rows), result) == WatchHandle(Meanings(k.rows), q)
  {
    if IsValidCmd(q.cmd) && IsValidSyscall(q.syscall, |k.rows| - 1) && IsValidPid(q.pid, q.env)
        && HasPermissions(q.cmd, q.pid, q.env) {
      var s, row := q.syscall, k.rows[q.syscall];
      assert RowOk(row);
      RowDecides(row, q);
      assert Meanings(k.rows)[s := Meaning(row)] == Meanings(k.rows);
      if IsContextCorrect(row, q.cmd, q.pid) && !IsBusy(row, q.cmd, q.pid) {
        if q.cmd == REQUEST_SYSCALL_INTERCEPT {
          InterceptedIs(k, orig, exitGroup, s);
        } else if q.cmd == REQUEST_SYSCALL_RELEASE {
          ReleasedIs(k, orig, exitGroup, s);
        } else if q.cmd == REQUEST_START_MONITORING {
          StartedIs(row, q);
          RowReplaced(k, orig, exitGroup, s, Started(row, q.pid, q.env.memory).0);
        } else {
          StoppedIs(row, q);
          RowReplaced(k, orig, exitGroup, s, Stopped(row, q.pid, q.env.memory).0);
        }
      }
    }
  }

  lemma {:induction false} ExitIs(k: State, orig: seq<Handler>, exitGroup: int, pid: int)
    requires Inv(k, orig, exitGroup)
    ensures Inv(k.(rows := Purged(k.rows, pid)), orig, exitGroup)
            && Meanings(Purged(k.rows, pid)) == WatchExit(Meanings(k.rows), pid)
  {
    var k' := k.(rows := Purged(k.rows, pid));
    forall s | 0 <= s < |k.rows| ensures RowOk(k'.rows[s]) && CallOk(k', orig, exitGroup, s)
        && Meaning(k'.rows[s]) == WatchExit(Meanings(k.rows), pid)[s] {
      assert RowOk(k.rows[s]) && CallOk(k, orig, exitGroup, s);
      DeletedWatched(k.rows[s], pid);
    }
  }

  // ---------------------------------------------------------------- whole runs

  /** The state and the answers after some events. */
  function Run(k: State, es: seq<Event>): (r: (State, seq<int>))
    requires |k.rows| == |k.sys|
    ensures |r.0.rows| == |r.0.sys| == |k.sys|
  {
    if es == [] then (k, [])
    else
      var (k1, results) := Run(k, es[..|es| - 1]);
      var (k', result) := Step(k1, es[|es| - 1]);
      (k', results + [result])
  }

  function WatchRun(w: seq<Watch>, es: seq<Event>): (seq<Watch>, seq<int>) {
    if es == [] then (w, [])
    else
      var (w1, results) := WatchRun(w, es[..|es| - 1]);
      var (w', result) := WatchStep(w1, es[|es| - 1]);
      (w', results + [result])
  }

  /** Through any run of commands and exits the invariant holds, and the rows mean what the sets of
      processes have become; every answer is the one that the sets call for. */
  lemma {:induction false} RunRefines(k: State, orig: seq<Handler>, exitGroup: int, es: seq<Event>)
    requires Inv(k, orig, exitGroup)
    ensures var (k', results) := Run(k, es);
            Inv(k', orig, exitGroup) && (Meanings(k'.rows), results) == WatchRun(Meanings(k.rows), es)
  {
    if es != [] {
      RunRefines(k, orig, exitGroup, es[..|es| - 1]);
      var k1 := Run(k, es[..|es| - 1]).0;
      match es[|es| - 1]
      case Command(q) => HandleIs(k1, orig, exitGroup, q);
      case Exit(pid) => ExitIs(k1, orig, exitGroup, pid);
    }
  }

  /** init_function */
  function Init(sys: seq<Handler>, exitGroup: int): (k: State)
    requires 0 < exitGroup < |sys|
    ensures |k.rows| == |k.sys|
  {
    var t := Loaded(sys, exitGroup);
    State(t, seq(|t|, s requires 0 <= s < |t| => Row(t[s], false, 0, 0, [])), sys[MY_CUSTOM_SYSCALL], sys[exitGroup])
  }

  /** exit_function */
  function Unload(k: State, exitGroup: int): (k': State)
    requires 0 < exitGroup < |k.rows| == |k.sys|
    ensures |k'.rows| == |k'.sys|
  {
    var saved := seq(|k.sys|, s requires 0 <= s < |k.sys| => k.rows[s].f);
    k.(sys := saved[MY_CUSTOM_SYSCALL := k.origCustom][exitGroup := k.origExit],
       rows := seq(|k.rows|, s requires 0 <= s < |k.rows| => Destroyed(k.rows[s])))
  }

  lemma InitIs(sys: seq<Handler>, exitGroup: int)
    requires 0 < exitGroup < |sys|
    ensures Inv(Init(sys, exitGroup), sys, exitGroup)
    ensures forall s :: 0 <= s < |sys| ==> Meanings(Init(sys, exitGroup).rows)[s] == Watch(false, Only({}))
  {
    var k := Init(sys, exitGroup);
    assert SetOf([]) == {};
    forall s | 0 <= s < |sys| ensures CallOk(k, sys, exitGroup, s) && RowOk(k.rows[s]) {
    }
  }

  lemma UnloadIs(k: State, orig: seq<Handler>, exitGroup: int)
    requires Inv(k, orig, exitGroup)
    ensures Unload(k, exitGroup).sys == orig
  {
    forall s | 0 <= s < |orig| ensures Unload(k, exitGroup).sys[s] == orig[s] {
      assert CallOk(k, orig, exitGroup, s);
    }
  }

  /** Loading, anything at all, and unloading leaves the system call table as it was. */
  lemma {:induction false} TableRestored(sys: seq<Handler>, exitGroup: int, es: seq<Event>)
    requires 0 < exitGroup < |sys|
    ensures Unload(Run(Init(sys, exitGroup), es).0, exitGroup).sys == sys
  {
    InitIs(sys, exitGroup);
    RunRefines(Init(sys, exitGroup), sys, exitGroup, es);
    UnloadIs(Run(Init(sys, exitGroup), es).0, sys, exitGroup);
  }

  // ---------------------------------------------------------------- calls go where they went

  /** The function that a system call ends up in. */
  function Reached(k: State, s: int): Handler
    requires 0 <= s < |k.rows| == |k.sys|
  {
    if k.sys[s] == Interceptor then k.rows[s].f else k.sys[s]
  }

  /** Interception is transparent: while the module is loaded every call but its own two reaches the kernel's
      function. */
  lemma {:induction false} CallsReachKernel(sys: seq<Handler>, exitGroup: int, es: seq<Event>, s: int)
    requires 0 < exitGroup < |sys| && 0 <= s < |sys|
    ensures Reached(Run(Init(sys, exitGroup), es).0, s) ==
            if s == exitGroup then MyExitGroup else if s == MY_CUSTOM_SYSCALL then MySyscall else sys[s]
  {
    InitIs(sys, exitGroup);
    RunRefines(Init(sys, exitGroup), sys, exitGroup, es);
    assert CallOk(Run(Init(sys, exitGroup), es).0, sys, exitGroup, s);
  }

  // ---------------------------------------------------------------- where the code does something else

  /** A request to monitor all processes is meant to be busy only when all are monitored.  The code also
      says busy when some are excluded, because it asks whether process 0 is: its answer is the one meant
      except when monitoring is on for all but some. */
  lemma {:induction false} StartAllBusy(row: Row)
    requires RowOk(row)
    ensures IsBusy(row, REQUEST_START_MONITORING, 0) <==> Watched(row).AllBut?
    ensures (IsBusy(row, REQUEST_START_MONITORING, 0) <==> Watched(row) == AllBut({})) <==>
            !(row.monitored == 2 && row.listcount > 0)
  {
    MonitorsIsHas(row, 0);
    assert |row.pids| > 0 ==> row.pids[0] in SetOf(row.pids);
  }

  /** After the exit of a process no list has its pid, except perhaps the last one: the code stops one row short. */
  lemma {:induction false} ExitForgets(k: State, orig: seq<Handler>, exitGroup: int, pid: int)
    requires Inv(k, orig, exitGroup)
    ensures (forall s {:trigger Purged(k.rows, pid)[s]} :: 0 <= s < |k.rows| ==>
             pid !in SetOf(Purged(k.rows, pid)[s].pids))
            <==> pid !in SetOf(k.rows[|k.rows| - 1].pids)
  {
    var rows := Purged(k.rows, pid);
    assert rows[|rows| - 1] == k.rows[|k.rows| - 1] && SetOf([]) == {};
    forall s | 1 <= s < |rows| - 1 ensures pid !in SetOf(rows[s].pids) {
      assert RowOk(k.rows[s]);
      DeletedWatched(k.rows[s], pid);
    }
  }
}
