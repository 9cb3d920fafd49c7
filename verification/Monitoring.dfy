/** The bookkeeping of the system-call interceptor: which calls are intercepted, and which processes are
    monitored for each of them (a1/starter_code/starter_code/interceptor.c). */
module Monitoring {
  const REQUEST_SYSCALL_INTERCEPT := 1
  const REQUEST_SYSCALL_RELEASE := 2
  const REQUEST_START_MONITORING := 3
  const REQUEST_STOP_MONITORING := 4
  const MY_CUSTOM_SYSCALL := 0

  const EPERM := 1
  const ENOMEM := 12
  const EBUSY := 16
  const EINVAL := 22

  /** What a slot of the system call table can hold. */
  datatype Handler = Kernel(id: int) | MySyscall | MyExitGroup | Interceptor

  /** A row of the table: the original call, whether it is intercepted, and the pids: a list of the
      monitored ones when monitored is 1, of the ones that are not when it is 2. */
  datatype Row = Row(f: Handler, intercepted: bool, monitored: int, listcount: int, pids: seq<int>)

  /** What the kernel says: which pids exist, whether the caller is root, which pids belong to the
      caller's user, and whether there is memory. */
  datatype Env = Env(exist: set<int>, root: bool, owned: set<int>, memory: bool)

  // ---------------------------------------------------------------- sets of processes

  /** A set of processes, or all but some. */
  datatype Pids = Only(s: set<int>) | AllBut(s: set<int>)

  predicate Has(m: Pids, p: int) {
    if m.Only? then p in m.s else p !in m.s
  }

  function Insert(m: Pids, p: int): (r: Pids)
    ensures forall q :: Has(r, q) <==> q == p || Has(m, q)
  {
    if m.Only? then Only(m.s + {p}) else AllBut(m.s - {p})
  }

  function Without(m: Pids, p: int): (r: Pids)
    ensures forall q :: Has(r, q) <==> q != p && Has(m, q)
  {
    if m.Only? then Only(m.s - {p}) else AllBut(m.s + {p})
  }

  /** No member of the list is p: whatever p is to m, it is not so because it is listed. */
  function Forget(m: Pids, p: int): Pids {
    if m.Only? then Only(m.s - {p}) else AllBut(m.s - {p})
  }

  // ---------------------------------------------------------------- lists

  predicate Distinct(pids: seq<int>) {
    forall i, j :: 0 <= i < j < |pids| ==> pids[i] != pids[j]
  }

  ghost function SetOf(pids: seq<int>): (s: set<int>)
    ensures forall p :: p in s <==> exists i :: 0 <= i < |pids| && pids[i] == p
  {
    set i | 0 <= i < |pids| :: pids[i]
  }

  /** The first place of p, or the length. */
  function Find(pids: seq<int>, p: int): (i: nat)
    ensures i <= |pids| && (i < |pids| ==> pids[i] == p)
    ensures forall j :: 0 <= j < i ==> pids[j] != p
    ensures i < |pids| <==> p in SetOf(pids)
  {
    if pids == [] then 0
    else if pids[0] == p then 0
    else
      var i := Find(pids[1..], p);
      assert forall j :: 1 <= j < i + 1 ==> pids[j] == pids[1..][j - 1];
      assert forall j :: 1 <= j < |pids| ==> pids[j] == pids[1..][j - 1];
      1 + i
  }

  function Cut(pids: seq<int>, i: nat): seq<int>
    requires i < |pids|
  {
    pids[..i] + pids[i + 1..]
  }

  lemma CutIs(pids: seq<int>, i: nat)
    requires i < |pids| && Distinct(pids)
    ensures Distinct(Cut(pids, i)) && SetOf(Cut(pids, i)) == SetOf(pids) - {pids[i]}
  {
    var c := Cut(pids, i);
    forall p | p in SetOf(pids) && p != pids[i] ensures p in SetOf(c) {
      var j :| 0 <= j < |pids| && pids[j] == p;
      assert c[if j < i then j else j - 1] == p;
    }
  }

  lemma ConsIs(p: int, pids: seq<int>)
    requires p !in SetOf(pids) && Distinct(pids)
    ensures Distinct([p] + pids) && SetOf([p] + pids) == SetOf(pids) + {p}
  {
    var c := [p] + pids;
    forall q | q in SetOf(pids) ensures q in SetOf(c) {
      var j :| 0 <= j < |pids| && pids[j] == q;
      assert c[j + 1] == q;
    }
    assert c[0] == p;
  }

  // ---------------------------------------------------------------- rows

  /** What every row keeps to. */
  ghost predicate RowOk(row: Row) {
    && 0 <= row.monitored <= 2 && row.listcount == |row.pids| && Distinct(row.pids)
    && (row.monitored == 0 ==> row.pids == []) && (row.monitored == 1 ==> row.pids != [])
    && 0 !in SetOf(row.pids)
  }

  /** The processes that a row monitors. */
  ghost function Watched(row: Row): Pids {
    if row.monitored == 2 then AllBut(SetOf(row.pids)) else Only(SetOf(row.pids))
  }

  /** is_pid_monitored */
  function Monitors(row: Row, p: int): bool {
    if row.monitored == 1 then Find(row.pids, p) < |row.pids|
    else if row.monitored == 2 then Find(row.pids, p) == |row.pids|
    else false
  }

  lemma MonitorsIsHas(row: Row, p: int)
    requires RowOk(row)
    ensures Monitors(row, p) == Has(Watched(row), p)
  {
  }

  /** add_pid_sysc */
  function Added(row: Row, p: int): Row {
    row.(pids := [p] + row.pids, listcount := row.listcount + 1)
  }

  /** Element i of the list is deleted; a row that monitored only it stops monitoring. */
  function Dropped(row: Row, i: nat): Row
    requires i < |row.pids|
  {
    var n := row.listcount - 1;
    row.(pids := Cut(row.pids, i), listcount := n,
         monitored := if n == 0 && row.monitored == 1 then 0 else row.monitored)
  }

  /** del_pid_sysc */
  function Deleted(row: Row, p: int): Row {
    var i := Find(row.pids, p);
    if i < |row.pids| then Dropped(row, i) else row
  }

  /** destroy_list */
  function Destroyed(row: Row): Row {
    row.(pids := [], listcount := 0, monitored := 0)
  }

  /** Adding to a list inserts into the set that it lists, and so takes out of its complement. */
  lemma AddedWatched(row: Row, p: int)
    requires RowOk(row) && p != 0 && p !in SetOf(row.pids)
    ensures RowOk(Added(row, p).(monitored := if row.monitored == 2 then 2 else 1))
    ensures Watched(Added(row, p).(monitored := if row.monitored == 2 then 2 else 1)) ==
            if row.monitored == 2 then Without(Watched(row), p) else Insert(Watched(row), p)
  {
    ConsIs(p, row.pids);
  }

  lemma DeletedWatched(row: Row, p: int)
    requires RowOk(row)
    ensures RowOk(Deleted(row, p)) && Watched(Deleted(row, p)) == Forget(Watched(row), p)
  {
    var i := Find(row.pids, p);
    if i < |row.pids| {
      CutIs(row.pids, i);
    }
  }
}
