/** Process-control system calls: exit, yield and the clock read. The
    clock is a parameter; the store through the user pointer is the
    returned time value. */
module Process {
  import opened Task

  const MICROS_PER_SEC: nat := 1000000

  /** The pair `sys_get_time` writes back to the caller. */
  datatype TimeVal = TimeVal(sec: nat, usec: nat)

  /** A microsecond count as whole seconds plus the remaining microseconds. */
  function SplitMicros(us: nat): (tv: TimeVal)
    ensures tv.sec * MICROS_PER_SEC + tv.usec == us
    ensures tv.usec < MICROS_PER_SEC
  {
    TimeVal(us / MICROS_PER_SEC, us % MICROS_PER_SEC)
  }

  /** The microsecond count a time value stands for. */
  function JoinMicros(tv: TimeVal): nat
  {
    tv.sec * MICROS_PER_SEC + tv.usec
  }

  /** Splitting is the inverse of joining on well-formed time values. */
  lemma SplitJoin(tv: TimeVal)
    requires tv.usec < MICROS_PER_SEC
    ensures SplitMicros(JoinMicros(tv)) == tv
  {
  }

  /** `sys_get_time` with the clock reading `nowUs`: always returns 0 and
      the time value it stores. */
  method SysGetTime(nowUs: nat) returns (ret: int, tv: TimeVal)
    ensures ret == 0
    ensures tv.sec * MICROS_PER_SEC + tv.usec == nowUs && tv.usec < MICROS_PER_SEC
    ensures tv.sec == nowUs / MICROS_PER_SEC
  {
    tv := SplitMicros(nowUs);
    ret := 0;
  }

  /** `sys_yield`: suspend the caller, dispatch the next task, return 0 to
      the caller once it is resumed. */
  method SysYield(tm: TaskManager) returns (ret: int, d: Dispatch)
    requires tm.Valid()
    modifies tm.tasks, tm`currentTask
    ensures tm.Valid()
    ensures ret == 0
    ensures YieldSpec(old(tm.tasks[..]), tm.numApp, old(tm.currentTask), d, tm.tasks[..], tm.currentTask)
    ensures d.SwitchTo? ==> tm.tasks[tm.currentTask].status == Running
    ensures old(tm.tasks[tm.currentTask].status) == Running ==> ExitedStay(old(tm.tasks[..]), tm.tasks[..])
    ensures old(tm.RunningOnlyCurrent()) ==> tm.RunningOnlyCurrent()
  {
    d := SuspendCurrentAndRunNext(tm);
    ret := 0;
  }

  /** `sys_exit`: the caller's slot is Exited for good and is never the
      task switched to; the exit code is only logged. */
  method SysExit(tm: TaskManager, exitCode: int) returns (d: Dispatch)
    requires tm.Valid()
    modifies tm.tasks, tm`currentTask
    ensures tm.Valid()
    ensures ExitSpec(old(tm.tasks[..]), tm.numApp, old(tm.currentTask), d, tm.tasks[..], tm.currentTask)
    ensures tm.tasks[old(tm.currentTask)].status == Exited
    ensures d.SwitchTo? ==> d.next != old(tm.currentTask)
    ensures d.SwitchTo? ==> tm.tasks[tm.currentTask].status == Running
    ensures ExitedStay(old(tm.tasks[..]), tm.tasks[..])
    ensures old(tm.RunningOnlyCurrent()) ==> tm.RunningOnlyCurrent()
  {
    d := ExitCurrentAndRunNext(tm);
  }
}
