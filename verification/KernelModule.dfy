/** The kernel module itself, updating its rows and the system call table in place
    (a1/starter_code/starter_code/interceptor.c). */
module KernelModules {
  import opened Monitoring
  import opened Interception

  class KernelModule {
    const exitGroup: int
    const sysCallTable: array<Handler>
    const table: array<Row>
    var origCustomSyscall: Handler
    var origExitGroup: Handler

    ghost predicate Valid()
      reads this, sysCallTable, table
      ensures Valid() ==> |K().rows| == |K().sys| && 0 < exitGroup < |K().rows|
    {
      sysCallTable.Length == table.Length && 0 < exitGroup < table.Length
    }

    ghost function K(): State
      reads this, sysCallTable, table
    {
      State(sysCallTable[..], table[..], origCustomSyscall, origExitGroup)
    }

    /** init_function */
    constructor (sys: array<Handler>, exitGroup: int)
      requires 0 < exitGroup < sys.Length
      modifies sys
      ensures Valid() && fresh(table) && sysCallTable == sys && this.exitGroup == exitGroup
      ensures K() == Init(old(sys[..]), exitGroup)
    {
      this.exitGroup, sysCallTable, table :=
          exitGroup, sys, new Row[sys.Length](_ => Row(Interceptor, false, 0, 0, []));
      origCustomSyscall, origExitGroup := sys[MY_CUSTOM_SYSCALL], sys[exitGroup];
      new;
      ghost var orig := sys[..];
      sys[MY_CUSTOM_SYSCALL] := MySyscall;
      sys[exitGroup] := MyExitGroup;
      for i := 0 to table.Length
        invariant sys[..] == Loaded(orig, exitGroup)
        invariant origCustomSyscall == orig[MY_CUSTOM_SYSCALL] && origExitGroup == orig[exitGroup]
        invariant forall s :: 0 <= s < i ==> table[s] == Row(sys[s], false, 0, 0, [])
      {
        table[i] := Row(sys[i], false, 0, 0, []);
      }
      assert table[..] == Init(orig, exitGroup).rows;
    }

    // -------------------------------------------------------------- lists

    /** Looks for a pid in the list of a row. */
    method FindPid(s: nat, pid: int) returns (i: nat)
      requires Valid() && s < table.Length
      ensures i == Find(table[s].pids, pid)
    {
      i := 0;
      while i < |table[s].pids| && table[s].pids[i] != pid
        invariant i <= |table[s].pids| && forall j :: 0 <= j < i ==> table[s].pids[j] != pid
      {
        i := i + 1;
      }
    }

    /** check_pid_monitored */
    method CheckPidMonitored(s: nat, pid: int) returns (b: bool)
      requires Valid() && s < table.Length
      ensures b == (Find(table[s].pids, pid) < |table[s].pids|)
    {
      var i := FindPid(s, pid);
      b := i < |table[s].pids|;
    }

    /** is_pid_monitored */
    method IsPidMonitored(pid: int, s: nat) returns (b: bool)
      requires Valid() && s < table.Length
      ensures b == Monitors(table[s], pid)
    {
      b := false;
      if table[s].monitored == 1 {
        b := CheckPidMonitored(s, pid);
      } else if table[s].monitored == 2 {
        b := CheckPidMonitored(s, pid);
        b := !b;
      }
    }

    /** add_pid_sysc */
    method AddPidSysc(pid: int, s: nat, memory: bool) returns (result: int)
      requires Valid() && s < table.Length
      modifies table
      ensures Valid() && result == if memory then 0 else -ENOMEM
      ensures K() == if memory then old(K()).(rows := old(K()).rows[s := Added(old(table[s]), pid)]) else old(K())
    {
      if !memory {
        return -ENOMEM;
      }
      table[s] := table[s].(pids := [pid] + table[s].pids);
      table[s] := table[s].(listcount := table[s].listcount + 1);
      result := 0;
    }

    /** What both deletions do with an element that they have found. */
    method Drop(s: nat, i: nat)
      requires Valid() && s < table.Length && i < |table[s].pids|
      modifies table
      ensures Valid() && K() == old(K()).(rows := old(K()).rows[s := Dropped(old(table[s]), i)])
    {
      table[s] := table[s].(pids := Cut(table[s].pids, i));
      table[s] := table[s].(listcount := table[s].listcount - 1);
      if table[s].listcount == 0 && table[s].monitored == 1 {
        table[s] := table[s].(monitored := 0);
      }
    }

    /** del_pid_sysc */
    method DelPidSysc(pid: int, s: nat) returns (result: int)
      requires Valid() && s < table.Length
      modifies table
      ensures Valid() && K() == old(K()).(rows := old(K()).rows[s := Deleted(old(table[s]), pid)])
      ensures result == if Find(old(table[s]).pids, pid) < |old(table[s]).pids| then 0 else -EINVAL
    {
      var i := FindPid(s, pid);
      if i < |table[s].pids| {
        Drop(s, i);
        return 0;
      }
      assert table[..] == old(table[..])[s := old(table[s])];
      result := -EINVAL;
    }

    /** The inner loop of del_pid, which goes on after it has found the pid. */
    method PurgeRow(s: nat, pid: int) returns (found: bool)
      requires Valid() && s < table.Length && Distinct(table[s].pids)
      modifies table
      ensures Valid() && K() == old(K()).(rows := old(K()).rows[s := Deleted(old(table[s]), pid)])
      ensures found == (Find(old(table[s]).pids, pid) < |old(table[s]).pids|)
    {
      ghost var row := table[s];
      found := false;
      var i := 0;
      while i < |table[s].pids|
        invariant Valid() && i <= |table[s].pids|
        invariant K() == old(K()).(rows := old(K()).rows[s := if found then Deleted(row, pid) else row])
        invariant found ==> Find(row.pids, pid) < |row.pids| && forall j :: i <= j < |table[s].pids| ==>
                    table[s].pids[j] != pid
        invariant !found ==> forall j :: 0 <= j < i ==> row.pids[j] != pid
        decreases |table[s].pids| - i
      {
        if table[s].pids[i] == pid {
          FoundAt(row.pids, pid, i);
          Drop(s, i);
          found := true;
        } else {
          i := i + 1;
        }
      }
      if !found {
        NotFound(row.pids, pid);
      }
    }

    /** del_pid */
    method DelPid(pid: int) returns (result: int)
      requires Valid() && RowsOk(table[..])
      modifies table
      ensures Valid() && K() == old(K()).(rows := Purged(old(K()).rows, pid))
      ensures result == -1 <==> forall s :: 1 <= s < table.Length - 1 ==>
                Find(old(K()).rows[s].pids, pid) == |old(K()).rows[s].pids|
    {
      ghost var rows := table[..];
      var isPid := false;
      for s := 1 to table.Length - 1
        invariant Valid() && K() == old(K()).(rows := table[..])
        invariant forall t :: 0 <= t < table.Length ==> table[t] == if 1 <= t < s then Deleted(rows[t], pid)
                  else rows[t]
        invariant isPid <==> exists t :: 1 <= t < s && Find(rows[t].pids, pid) < |rows[t].pids|
      {
        assert RowOk(rows[s]);
        var found := PurgeRow(s, pid);
        isPid := isPid || found;
      }
      assert table[..] == Purged(rows, pid);
      result := if isPid then 0 else -1;
    }

    /** destroy_list */
    method DestroyList(s: nat)
      requires Valid() && s < table.Length
      modifies table
      ensures Valid() && K() == old(K()).(rows := old(K()).rows[s := Destroyed(old(table[s]))])
    {
      while table[s].pids != []
        invariant Valid() && K() == old(K()).(rows := old(K()).rows[s := old(table[s]).(pids := table[s].pids)])
        decreases |table[s].pids|
      {
        table[s] := table[s].(pids := Cut(table[s].pids, 0));
      }
      table[s] := table[s].(listcount := 0, monitored := 0);
    }

    // -------------------------------------------------------------- commands

    method HandleSyscallIntercept(s: nat) returns (result: int)
      requires Valid() && s < table.Length
      modifies table, sysCallTable
      ensures Valid() && (K(), result) == Intercepted(old(K()), s)
    {
      table[s] := table[s].(intercepted := true);
      table[s] := table[s].(f := sysCallTable[s]);
      sysCallTable[s] := Interceptor;
      assert table[..] == Intercepted(old(K()), s).0.rows;
      result := 0;
    }

    method HandleSyscallRelease(s: nat) returns (result: int)
      requires Valid() && s < table.Length
      modifies table, sysCallTable
      ensures Valid() && (K(), result) == Released(old(K()), s)
    {
      table[s] := table[s].(intercepted := false);
      sysCallTable[s] := table[s].f;
      result := 0;
    }

    method HandleStartMonitoring(s: nat, pid: int, memory: bool) returns (result: int)
      requires Valid() && s < table.Length && 0 <= table[s].monitored <= 2
      modifies table
      ensures Valid() && (K(), result) == WithRow(old(K()), s, Started(old(table[s]), pid, memory))
    {
      if pid == 0 {
        DestroyList(s);
        table[s] := table[s].(monitored := 2);
        assert table[..] == old(table[..])[s := table[s]];
        return 0;
      } else if table[s].monitored == 2 {
        result := DelPidSysc(pid, s);
      } else {
        result := AddPidSysc(pid, s, memory);
        if result == 0 {
          table[s] := table[s].(monitored := 1);
        }
        assert memory ==> table[..] == old(table[..])[s := table[s]];
        assert memory || table[..] == old(table[..])[s := old(table[s])];
      }
    }

    method HandleStopMonitoring(s: nat, pid: int, memory: bool) returns (result: int)
      requires Valid() && s < table.Length
      modifies table
      ensures Valid() && (K(), result) == WithRow(old(K()), s, Stopped(old(table[s]), pid, memory))
    {
      if pid == 0 {
        DestroyList(s);
        table[s] := table[s].(monitored := 0);
        result := 0;
      } else if table[s].monitored == 2 {
        result := AddPidSysc(pid, s, memory);
        assert memory || table[..] == old(table[..])[s := old(table[s])];
      } else {
        result := DelPidSysc(pid, s);
      }
    }

    method CheckContext(s: nat, cmd: int, pid: int) returns (b: bool)
      requires Valid() && s < table.Length
      ensures b == IsContextCorrect(table[s], cmd, pid)
    {
      if cmd == REQUEST_SYSCALL_RELEASE && !table[s].intercepted {
        return false;
      }
      if cmd == REQUEST_STOP_MONITORING {
        if pid == 0 {
          return table[s].monitored != 0;
        }
        b := IsPidMonitored(pid, s);
        if !b {
          return false;
        }
        if !table[s].intercepted {
          return false;
        }
      }
      b := true;
    }

    method CheckBusy(s: nat, cmd: int, pid: int) returns (b: bool)
      requires Valid() && s < table.Length
      ensures b == IsBusy(table[s], cmd, pid)
    {
      if cmd == REQUEST_SYSCALL_INTERCEPT && table[s].intercepted {
        return true;
      }
      if cmd == REQUEST_START_MONITORING {
        if pid == 0 && table[s].monitored == 2 && table[s].listcount == 0 {
          return true;
        }
        b := IsPidMonitored(pid, s);
        return;
      }
      b := false;
    }

    /** my_syscall */
    method HandleRequest(q: Request) returns (result: int)
      requires Valid() && RowsOk(K().rows)
      modifies table, sysCallTable
      ensures Valid() && (K(), result) == Handle(old(K()), q)
    {
      if !IsValidCmd(q.cmd) || !IsValidSyscall(q.syscall, table.Length - 1) || !IsValidPid(q.pid, q.env) {
        return -EINVAL;
      }
      if !HasPermissions(q.cmd, q.pid, q.env) {
        return -EPERM;
      }
      var s := q.syscall;
      assert RowOk(K().rows[s]);
      var correct := CheckContext(s, q.cmd, q.pid);
      if !correct {
        return -EINVAL;
      }
      var busy := CheckBusy(s, q.cmd, q.pid);
      if busy {
        return -EBUSY;
      }
      if q.cmd == REQUEST_SYSCALL_INTERCEPT {
        result := HandleSyscallIntercept(s);
      } else if q.cmd == REQUEST_SYSCALL_RELEASE {
        result := HandleSyscallRelease(s);
      } else if q.cmd == REQUEST_START_MONITORING {
        result := HandleStartMonitoring(s, q.pid, q.env.memory);
      } else {
        result := HandleStopMonitoring(s, q.pid, q.env.memory);
      }
    }

    /** my_exit_group: the handler that it calls in the end is returned. */
    method ExitGroup(pid: int) returns (next: Handler)
      requires Valid() && RowsOk(K().rows)
      modifies table
      ensures Valid() && K() == Step(old(K()), Exit(pid)).0 && next == old(K()).origExit
    {
      var result := DelPid(pid);
      next := origExitGroup;
    }

    /** interceptor: whether the call is logged, and the handler that it goes on to. */
    method Intercept(s: nat, pid: int) returns (logged: bool, next: Handler)
      requires Valid() && s < table.Length && RowsOk(K().rows)
      ensures logged == Has(Watched(K().rows[s]), pid) && next == K().rows[s].f
    {
      assert RowOk(K().rows[s]);
      MonitorsIsHas(table[s], pid);
      logged := IsPidMonitored(pid, s);
      next := table[s].f;
    }

    /** exit_function */
    method ExitFunction()
      requires Valid()
      modifies table, sysCallTable
      ensures Valid() && K() == Unload(old(K()), exitGroup)
    {
      ghost var k := K();
      for i := 0 to table.Length
        invariant Valid() && K().origCustom == k.origCustom && K().origExit == k.origExit
        invariant forall s :: 0 <= s < table.Length ==> table[s] == if s < i then Destroyed(k.rows[s]) else k.rows[s]
        invariant forall s :: 0 <= s < i ==> sysCallTable[s] == k.rows[s].f
      {
        sysCallTable[i] := table[i].f;
        DestroyList(i);
      }
      sysCallTable[MY_CUSTOM_SYSCALL] := origCustomSyscall;
      sysCallTable[exitGroup] := origExitGroup;
      assert table[..] == Unload(k, exitGroup).rows;
      assert sysCallTable[..] == Unload(k, exitGroup).sys;
    }
  }

  lemma NotFound(pids: seq<int>, p: int)
    requires forall j :: 0 <= j < |pids| ==> pids[j] != p
    ensures Find(pids, p) == |pids|
  {
  }

  /** In a list without duplicates, the place where p is found is the only one. */
  lemma FoundAt(pids: seq<int>, p: int, i: nat)
    requires i < |pids| && pids[i] == p && Distinct(pids)
    ensures Find(pids, p) == i && forall j :: 0 <= j < |pids| - 1 ==> Cut(pids, i)[j] != p
  {
  }
}
