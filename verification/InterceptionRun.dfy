/** Runs of the interceptor, from loading on, in which it does something else than what it is meant to do
    (a1/starter_code/starter_code/interceptor.c). */
module InterceptionRuns {
  import opened Monitoring
  import opened Interception

  /** A request of root about process p, which exists, or about all of them if p is 0. */
  function Asked(cmd: int, s: int, p: int): Event {
    Command(Request(cmd, s, p, Env({p}, true, {}, true)))
  }

  lemma RunOneMore(k: Interception.State, es: seq<Event>, e: Event)
    requires |k.rows| == |k.sys|
    ensures var (k1, results) := Run(k, es);
            var (k', result) := Step(k1, e);
            Run(k, es + [e]) == (k', results + [result])
  {
    assert (es + [e])[..|es|] == es;
  }

  lemma FirstStep(k: Interception.State, e: Event)
    requires |k.rows| == |k.sys|
    ensures Run(k, [e]) == (Step(k, e).0, [Step(k, e).1])
  {
    RunOneMore(k, [], e);
    assert [] + [e] == [e] && [] + [Step(k, e).1] == [Step(k, e).1];
  }

  // ---------------------------------------------------------------- stopping

  /** Stopping is meant to need an intercepted call.  The code asks for one except when all are to be stopped:
      the request is in order for a call that is not intercepted exactly if that is so and somebody is monitored. */
  lemma StopUnintercepted(row: Row, p: int)
    ensures (IsContextCorrect(row, REQUEST_STOP_MONITORING, p) ==> row.intercepted) <==>
            !(p == 0 && row.monitored != 0 && !row.intercepted)
  {
  }

  /** That happens: monitoring of all processes can be started and stopped without ever intercepting the call. */
  lemma {:induction false} StopsUnintercepted(sys: seq<Handler>, exitGroup: int, s: int)
    requires 0 < exitGroup < |sys| && 0 < s < |sys|
    ensures var start, stop := Asked(REQUEST_START_MONITORING, s, 0), Asked(REQUEST_STOP_MONITORING, s, 0);
            && !Run(Init(sys, exitGroup), [start]).0.rows[s].intercepted
            && Run(Init(sys, exitGroup), [start, stop]).1 == [0, 0]
  {
    var k, start, stop := Init(sys, exitGroup), Asked(REQUEST_START_MONITORING, s, 0),
        Asked(REQUEST_STOP_MONITORING, s, 0);
    FirstStep(k, start);
    RunOneMore(k, [start], stop);
    assert [start] + [stop] == [start, stop];
  }

  // ---------------------------------------------------------------- monitoring all

  /** A request to monitor all is refused as busy while a process is excluded: all are monitored, p no
      longer, and then all again, please. */
  lemma {:induction false} ExcludedStaysExcluded(sys: seq<Handler>, exitGroup: int, s: int, p: int)
    requires 0 < exitGroup < |sys| && 0 < s < |sys| && p > 0
    ensures var es := [Asked(REQUEST_SYSCALL_INTERCEPT, s, 0), Asked(REQUEST_START_MONITORING, s, 0),
                       Asked(REQUEST_STOP_MONITORING, s, p)];
            var again := Asked(REQUEST_START_MONITORING, s, 0);
            && Run(Init(sys, exitGroup), es).1 == [0, 0, 0]
            && Watched(Run(Init(sys, exitGroup), es).0.rows[s]) == AllBut({p})
            && Run(Init(sys, exitGroup), es + [again]).1 == [0, 0, 0, -EBUSY]
  {
    var k, e0, e1, e2 := Init(sys, exitGroup), Asked(REQUEST_SYSCALL_INTERCEPT, s, 0),
        Asked(REQUEST_START_MONITORING, s, 0), Asked(REQUEST_STOP_MONITORING, s, p);
    FirstStep(k, e0);
    RunOneMore(k, [e0], e1);
    assert [e0] + [e1] == [e0, e1];
    RunOneMore(k, [e0, e1], e2);
    assert [e0, e1] + [e2] == [e0, e1, e2];
    RunOneMore(k, [e0, e1, e2], e1);
    var row := Run(k, [e0, e1, e2]).0.rows[s];
    assert row.pids == [p];
    assert SetOf([p]) == {p};
  }

  // ---------------------------------------------------------------- exits

  /** A process that is monitored for one call, and exits, is forgotten, unless it is the last call of the table. */
  lemma {:induction false} LastRowRemembers(sys: seq<Handler>, exitGroup: int, s: int, p: int)
    requires 0 < exitGroup < |sys| && 0 < s < |sys| && p > 0
    ensures var (k', results) := Run(Init(sys, exitGroup), [Asked(REQUEST_START_MONITORING, s, p), Exit(p)]);
            results == [0, 0] && (p in SetOf(k'.rows[s].pids) <==> s == |sys| - 1)
  {
    var k, start := Init(sys, exitGroup), Asked(REQUEST_START_MONITORING, s, p);
    FirstStep(k, start);
    RunOneMore(k, [start], Exit(p));
    assert [start] + [Exit(p)] == [start, Exit(p)];
    var k1 := Run(k, [start]).0;
    assert k1.rows[s].pids == [p];
    assert SetOf([p]) == {p} && SetOf([]) == {};
    assert Find([p], p) == 0;
  }
}
