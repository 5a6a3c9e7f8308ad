/** The task manager of the batch kernel: a fixed table of task control
    blocks, a cursor on the running task, stride scheduling with per-task
    priority, the suspend/exit transitions and the user-buffer bounds check.
    The context switch itself, the loader and the task contexts are not
    modelled; see README.md. */
module Task {

  datatype Option<T> = None | Some(value: T)

  /** Scheduling state of one application slot. */
  datatype TaskStatus = UnInit | Ready | Running | Exited

  /** One task control block; the saved-context pointer is left out. */
  datatype TaskControlBlock = TaskControlBlock(
    status: TaskStatus,
    stride: int,
    priority: int,
    startNum: nat)

  /** Where the current application lives, as the loader reports it. */
  datatype AppLayout = AppLayout(appStart: nat, appEnd: nat, userStackTop: nat)

  /** What `run_next_task` does after choosing: switch from `prev` to `next`,
      or stop the kernel because no task is left to run. */
  datatype Dispatch = SwitchTo(prev: nat, next: nat) | AllCompleted

  const BIG_STRIDE: int := 151200
  /** Initial value of the running minimum in the selection scan. */
  const STRIDE_SENTINEL: int := 2147483647
  /** A task suspended while its counter is above this is forced to exit. */
  const SUSPEND_LIMIT: nat := 1000
  const DEFAULT_PRIORITY: int := 16
  const MIN_PRIORITY: int := 2
  const USER_STACK_SIZE: nat := 0x1000

  /** The block every slot starts with before the loader fills it in. */
  const UNINIT_TCB: TaskControlBlock := TaskControlBlock(UnInit, 0, DEFAULT_PRIORITY, 0)

  // ---------------------------------------------------------------------
  // Transitions of a single control block

  /** The block of the current task after it asks to be suspended. */
  function Suspended(t: TaskControlBlock): TaskControlBlock
  {
    if t.startNum > SUSPEND_LIMIT then t.(status := Exited)
    else t.(status := Ready, startNum := t.startNum + 1)
  }

  /** The block of a task chosen to run: it pays for this turn up front. */
  function Dispatched(t: TaskControlBlock): TaskControlBlock
    requires t.priority >= MIN_PRIORITY
  {
    t.(status := Running, stride := t.stride + BIG_STRIDE / t.priority)
  }

  /** Dispatch runs the task and never lowers its stride; a higher
      priority is charged a smaller increment. */
  lemma DispatchCharge(t: TaskControlBlock, higher: int)
    requires MIN_PRIORITY <= t.priority <= higher
    ensures Dispatched(t).status == Running
    ensures t.stride <= Dispatched(t).stride
    ensures Dispatched(t).stride - t.stride >= BIG_STRIDE / higher
  {
    var q := BIG_STRIDE / higher;
    assert q * t.priority <= q * higher <= BIG_STRIDE;
    DivisionLowerBound(BIG_STRIDE, t.priority, q);
  }

  /** `q` is at most `x / d` whenever `q * d` does not exceed `x`. */
  lemma DivisionLowerBound(x: nat, d: nat, q: nat)
    requires 0 < d && q * d <= x
    ensures q <= x / d
  {
    var m := x / d;
    assert x < (m + 1) * d;
    assert q * d < (m + 1) * d;
    MulCancelLess(q, m + 1, d);
  }

  lemma MulCancelLess(a: int, b: int, d: nat)
    requires d > 0 && a * d < b * d
    ensures a < b
  {
  }

  /** `k` suspensions in a row of the same task. */
  function SuspendedTimes(t: TaskControlBlock, k: nat): TaskControlBlock
  {
    if k == 0 then t else Suspended(SuspendedTimes(t, k - 1))
  }

  /** Every suspension up to the 1001st hands the slot back as Ready and
      counts; from the 1002nd on the task is Exited and the counter stays
      at 1001, because the limit is tested before the increment and the
      counter is never reset. */
  lemma {:induction false} SuspendCap(t: TaskControlBlock, k: nat)
    requires t.startNum == 0
    ensures SuspendedTimes(t, k).startNum == if k <= SUSPEND_LIMIT + 1 then k else SUSPEND_LIMIT + 1
    ensures SuspendedTimes(t, k).status ==
              if k == 0 then t.status else if k <= SUSPEND_LIMIT + 1 then Ready else Exited
    ensures SuspendedTimes(t, k).stride == t.stride && SuspendedTimes(t, k).priority == t.priority
  {
    if k > 0 {
      SuspendCap(t, k - 1);
    }
  }

  // ---------------------------------------------------------------------
  // Stride-scheduling selection, as a specification

  /** The slot visited at step `k` of the scan that starts just after
      `cur` and wraps modulo `n`. */
  function ScanAt(n: nat, cur: nat, k: nat): (slot: nat)
    requires n > 0
    ensures slot < n
  {
    (cur + 1 + k) % n
  }

  /** The step at which the scan visits `slot`. */
  function ScanStepOf(n: nat, cur: nat, slot: nat): (k: nat)
    requires cur < n && slot < n
    ensures k < n
  {
    if slot > cur then slot - cur - 1 else slot + n - cur - 1
  }

  /** The scan over one full cycle visits every slot `0..n`. */
  lemma ScanCovers(n: nat, cur: nat, slot: nat)
    requires cur < n && slot < n
    ensures ScanAt(n, cur, ScanStepOf(n, cur, slot)) == slot
  {
  }

  /** A slot that can win the scan: Ready, and below the initial minimum. */
  predicate Eligible(t: TaskControlBlock)
  {
    t.status == Ready && t.stride < STRIDE_SENTINEL
  }

  /** `r` is what `find_next_task` may return on the first `n` slots of `s`
      with the cursor at `cur`: None exactly when no slot is eligible;
      otherwise an eligible slot whose stride is minimal among the Ready
      slots and which the scan reaches before every other Ready slot of
      equal stride (the comparison is strict). */
  ghost predicate IsSelection(s: seq<TaskControlBlock>, n: nat, cur: nat, r: Option<nat>)
    requires n <= |s| && (n > 0 ==> cur < n)
  {
    match r
    case None =>
      forall j :: 0 <= j < n ==> !Eligible(s[j])
    case Some(next) =>
      && next < n
      && Eligible(s[next])
      && (forall j :: 0 <= j < n && s[j].status == Ready ==> s[next].stride <= s[j].stride)
      && exists k :: 0 <= k < n && ScanAt(n, cur, k) == next
           && forall k' :: 0 <= k' < k ==>
                !(s[ScanAt(n, cur, k')].status == Ready && s[ScanAt(n, cur, k')].stride <= s[next].stride)
  }

  /** The selection is determined by the table and the cursor. */
  lemma SelectionUnique(s: seq<TaskControlBlock>, n: nat, cur: nat, r1: Option<nat>, r2: Option<nat>)
    requires n <= |s| && (n > 0 ==> cur < n)
    requires IsSelection(s, n, cur, r1) && IsSelection(s, n, cur, r2)
    ensures r1 == r2
  {
  }

  /** Equal strides: from cursor 0 the scan order is 1, 2, 0, so slot 1
      wins over slot 0 although both are Ready with stride 10. */
  lemma TieGoesToFirstScanned(r: Option<nat>)
    requires IsSelection([TaskControlBlock(Ready, 10, 16, 0),
                          TaskControlBlock(Ready, 10, 16, 0),
                          TaskControlBlock(Ready, 20, 16, 0)], 3, 0, r)
    ensures r == Some(1)
  {
    var s := [TaskControlBlock(Ready, 10, 16, 0),
              TaskControlBlock(Ready, 10, 16, 0),
              TaskControlBlock(Ready, 20, 16, 0)];
    assert ScanAt(3, 0, 0) == 1;
    assert IsSelection(s, 3, 0, Some(1));
    SelectionUnique(s, 3, 0, r, Some(1));
  }

  /** The state `run_next_task` leaves behind: on a selection it runs the
      chosen slot, charges its stride and moves the cursor; when nothing is
      selectable the kernel halts with the table untouched. */
  ghost predicate RunNextSpec(s: seq<TaskControlBlock>, n: nat, cur: nat, d: Dispatch,
                              s': seq<TaskControlBlock>, cur': nat)
    requires n <= |s| && (n > 0 ==> cur < n)
    requires forall i :: 0 <= i < |s| ==> s[i].priority >= MIN_PRIORITY
  {
    match d
    case AllCompleted =>
      IsSelection(s, n, cur, None) && s' == s && cur' == cur
    case SwitchTo(prev, next) =>
      prev == cur && IsSelection(s, n, cur, Some(next))
      && s' == s[next := Dispatched(s[next])] && cur' == next
  }

  /** Structural invariant of the table: priorities never drop below the
      floor (so the stride division is defined) and strides stay >= 0. */
  ghost predicate ValidTasks(s: seq<TaskControlBlock>)
  {
    forall i :: 0 <= i < |s| ==> s[i].priority >= MIN_PRIORITY && s[i].stride >= 0
  }

  /** No slot that had exited runs again or becomes Ready. */
  ghost predicate ExitedStay(s: seq<TaskControlBlock>, s': seq<TaskControlBlock>)
  {
    |s| == |s'| && forall i :: 0 <= i < |s| && s[i].status == Exited ==> s'[i].status == Exited
  }

  /** No stride went down. */
  ghost predicate StridesNoLess(s: seq<TaskControlBlock>, s': seq<TaskControlBlock>)
  {
    |s| == |s'| && forall i :: 0 <= i < |s| ==> s[i].stride <= s'[i].stride
  }

  // ---------------------------------------------------------------------
  // The bounds check on user buffers

  function StackBottom(l: AppLayout): int
  {
    l.userStackTop - USER_STACK_SIZE
  }

  /** The byte at `a` belongs to the application image. */
  predicate InImage(l: AppLayout, a: int)
  {
    l.appStart <= a < l.appEnd
  }

  /** The byte at `a` belongs to the 4 KiB user stack. */
  predicate InUserStack(l: AppLayout, a: int)
  {
    StackBottom(l) <= a < l.userStackTop
  }

  /** The test `check_read_slice` performs on `[addr, addr + len)`. */
  predicate SliceAccepted(l: AppLayout, addr: nat, len: nat)
  {
    (l.appStart <= addr && addr + len <= l.appEnd)
    || (StackBottom(l) <= addr && addr + len <= l.userStackTop)
  }

  /** For a non-empty buffer the test accepts exactly the buffers whose
      every byte lies in the image, or whose every byte lies in the stack. */
  lemma SliceAcceptedBytewise(l: AppLayout, addr: nat, len: nat)
    requires len > 0
    ensures SliceAccepted(l, addr, len) <==>
              (forall a :: addr <= a < addr + len ==> InImage(l, a))
              || (forall a :: addr <= a < addr + len ==> InUserStack(l, a))
  {
    if forall a :: addr <= a < addr + len ==> InImage(l, a) {
      assert InImage(l, addr) && InImage(l, addr + len - 1);
    }
    if forall a :: addr <= a < addr + len ==> InUserStack(l, a) {
      assert InUserStack(l, addr) && InUserStack(l, addr + len - 1);
    }
  }

  /** A buffer with one byte outside the stack and one byte outside the
      image (one straddling the two regions, say) is rejected. */
  lemma StraddleRejected(l: AppLayout, addr: nat, len: nat, a1: int, a2: int)
    requires addr <= a1 < addr + len && !InUserStack(l, a1)
    requires addr <= a2 < addr + len && !InImage(l, a2)
    ensures !SliceAccepted(l, addr, len)
  {
  }

  // ---------------------------------------------------------------------
  // The task manager

  class TaskManager {
    /** Number of loaded applications. */
    const numApp: nat
    /** The fixed table of MAX_APP_NUM control blocks. */
    const tasks: array<TaskControlBlock>
    /** Index of the task that runs (or ran last). */
    var currentTask: nat

    ghost predicate Valid()
      reads this, tasks
    {
      && 0 < tasks.Length
      && numApp <= tasks.Length
      && (if numApp > 0 then currentTask < numApp else currentTask == 0)
      && ValidTasks(tasks[..])
    }

    /** At most one slot runs, and it is the current one. */
    ghost predicate RunningOnlyCurrent()
      reads this, tasks
    {
      forall i :: 0 <= i < tasks.Length && tasks[i].status == Running ==> i == currentTask
    }

    ghost predicate NoneRunning()
      reads this, tasks
    {
      forall i :: 0 <= i < tasks.Length ==> tasks[i].status != Running
    }

    /** Boot-time initialisation: every slot UnInit with stride 0,
        priority 16 and counter 0, then the loaded slots made Ready. */
    constructor (maxAppNum: nat, appCount: nat)
      requires 0 < maxAppNum && appCount <= maxAppNum
      ensures Valid() && fresh(tasks) && NoneRunning()
      ensures numApp == appCount && currentTask == 0 && tasks.Length == maxAppNum
      ensures forall i :: 0 <= i < tasks.Length ==>
                tasks[i] == UNINIT_TCB.(status := if i < appCount then Ready else UnInit)
    {
      var table := new TaskControlBlock[maxAppNum](_ => UNINIT_TCB);
      for i := 0 to appCount
        invariant forall j :: 0 <= j < table.Length ==>
                    table[j] == UNINIT_TCB.(status := if j < i then Ready else UnInit)
      {
        table[i] := table[i].(status := Ready);
      }
      numApp := appCount;
      tasks := table;
      currentTask := 0;
    }

    /** Marks slot 0 Running before the first switch. */
    method RunFirstTask()
      requires Valid()
      modifies tasks
      ensures Valid()
      ensures tasks[..] == old(tasks[..])[0 := old(tasks[0]).(status := Running)]
      ensures old(NoneRunning()) && currentTask == 0 ==> RunningOnlyCurrent()
    {
      tasks[0] := tasks[0].(status := Running);
    }

    /** Hands the current slot back as Ready and counts the suspension,
        or forces it to exit once the counter is above the limit. */
    method MarkCurrentSuspended()
      requires Valid()
      modifies tasks
      ensures Valid() && currentTask == old(currentTask)
      ensures tasks[..] == old(tasks[..])[currentTask := Suspended(old(tasks[currentTask]))]
      ensures old(tasks[currentTask].startNum) > SUSPEND_LIMIT ==>
                tasks[currentTask].status == Exited
                && tasks[currentTask].startNum == old(tasks[currentTask].startNum)
      ensures old(tasks[currentTask].startNum) <= SUSPEND_LIMIT ==>
                tasks[currentTask].status == Ready
                && tasks[currentTask].startNum == old(tasks[currentTask].startNum) + 1
      ensures old(RunningOnlyCurrent()) ==> NoneRunning()
    {
      var current := currentTask;
      tasks[current] := tasks[current].(status := Ready);
      if tasks[current].startNum > SUSPEND_LIMIT {
        tasks[current] := tasks[current].(status := Exited);
      } else {
        tasks[current] := tasks[current].(startNum := tasks[current].startNum + 1);
      }
    }

    /** Marks the current slot Exited; nothing else changes. */
    method MarkCurrentExited()
      requires Valid()
      modifies tasks
      ensures Valid() && currentTask == old(currentTask)
      ensures tasks[..] == old(tasks[..])[currentTask := old(tasks[currentTask]).(status := Exited)]
      ensures ExitedStay(old(tasks[..]), tasks[..])
      ensures old(RunningOnlyCurrent()) ==> NoneRunning()
    {
      var current := currentTask;
      tasks[current] := tasks[current].(status := Exited);
    }

    /** Stride-scheduling choice of the next task. */
    method FindNextTask() returns (r: Option<nat>)
      requires Valid()
      ensures IsSelection(tasks[..], numApp, currentTask, r)
    {
      var current := currentTask;
      var next := numApp;
      var minStride := STRIDE_SENTINEL;
      ghost var pos: nat := 0;
      var id := current + 1;
      while id < current + numApp + 1
        invariant current + 1 <= id <= current + numApp + 1
        invariant next == numApp ==>
                    minStride == STRIDE_SENTINEL
                    && forall k :: 0 <= k < id - current - 1 ==> !Eligible(tasks[ScanAt(numApp, current, k)])
        invariant next != numApp ==>
                    && next < numApp && pos < id - current - 1
                    && ScanAt(numApp, current, pos) == next
                    && Eligible(tasks[next]) && minStride == tasks[next].stride
                    && (forall k :: 0 <= k < pos ==>
                          !(tasks[ScanAt(numApp, current, k)].status == Ready
                            && tasks[ScanAt(numApp, current, k)].stride <= minStride))
                    && (forall k :: 0 <= k < id - current - 1 && tasks[ScanAt(numApp, current, k)].status == Ready ==>
                          minStride <= tasks[ScanAt(numApp, current, k)].stride)
      {
        var slot := id % numApp;
        assert slot == ScanAt(numApp, current, id - current - 1);
        if tasks[slot].status == Ready && tasks[slot].stride < minStride {
          next := slot;
          minStride := tasks[slot].stride;
          pos := id - current - 1;
        }
        id := id + 1;
      }
      if next == numApp {
        forall j | 0 <= j < numApp
          ensures !Eligible(tasks[j])
        {
          ScanCovers(numApp, current, j);
        }
        r := None;
      } else {
        forall j | 0 <= j < numApp && tasks[j].status == Ready
          ensures tasks[next].stride <= tasks[j].stride
        {
          ScanCovers(numApp, current, j);
        }
        r := Some(next);
      }
    }

    /** Chooses the next task and records the switch to it; the switch
        itself is the caller's. */
    method RunNextTask() returns (d: Dispatch)
      requires Valid()
      modifies tasks, this`currentTask
      ensures Valid()
      ensures RunNextSpec(old(tasks[..]), numApp, old(currentTask), d, tasks[..], currentTask)
      ensures StridesNoLess(old(tasks[..]), tasks[..])
      ensures ExitedStay(old(tasks[..]), tasks[..])
      ensures old(NoneRunning()) ==> RunningOnlyCurrent()
    {
      var r := FindNextTask();
      match r
      case None =>
        d := AllCompleted;
      case Some(next) =>
        var current := currentTask;
        tasks[next] := Dispatched(tasks[next]);
        currentTask := next;
        d := SwitchTo(current, next);
    }

    /** Sets the current task's priority; values below 2 are refused. */
    method SetCurrentPriority(prio: int) returns (r: int)
      requires Valid()
      modifies tasks
      ensures Valid() && currentTask == old(currentTask)
      ensures prio < MIN_PRIORITY ==> r == -1 && tasks[..] == old(tasks[..])
      ensures prio >= MIN_PRIORITY ==>
                r == prio
                && tasks[..] == old(tasks[..])[currentTask := old(tasks[currentTask]).(priority := prio)]
    {
      if prio < MIN_PRIORITY {
        r := -1;
      } else {
        var current := currentTask;
        tasks[current] := tasks[current].(priority := prio);
        r := prio;
      }
    }

    /** Whether the current task may hand the kernel `[buf, buf + len)`;
        `userInfo` is the loader's report of each task's layout. */
    method CheckReadSlice(userInfo: nat -> AppLayout, buf: nat, len: nat) returns (ok: bool)
      requires Valid()
      requires userInfo(currentTask).userStackTop >= USER_STACK_SIZE
      ensures ok <==> SliceAccepted(userInfo(currentTask), buf, len)
      ensures ok && len > 0 ==>
                (forall a :: buf <= a < buf + len ==> InImage(userInfo(currentTask), a))
                || (forall a :: buf <= a < buf + len ==> InUserStack(userInfo(currentTask), a))
    {
      var current := currentTask;
      var layout := userInfo(current);
      var userStackBottom: nat := layout.userStackTop - USER_STACK_SIZE;
      ok := (layout.appStart <= buf && buf + len <= layout.appEnd)
         || (userStackBottom <= buf && buf + len <= layout.userStackTop);
      if ok && len > 0 {
        SliceAcceptedBytewise(layout, buf, len);
      }
    }
  }

  // ---------------------------------------------------------------------
  // The two compositions the syscalls use

  /** The table after a yield: suspension of the current slot, then dispatch. */
  ghost predicate YieldSpec(s: seq<TaskControlBlock>, n: nat, cur: nat, d: Dispatch,
                            s': seq<TaskControlBlock>, cur': nat)
    requires cur < |s| && n <= |s| && (n > 0 ==> cur < n)
    requires forall i :: 0 <= i < |s| ==> s[i].priority >= MIN_PRIORITY
  {
    RunNextSpec(s[cur := Suspended(s[cur])], n, cur, d, s', cur')
  }

  /** The table after an exit: the current slot Exited, then dispatch. */
  ghost predicate ExitSpec(s: seq<TaskControlBlock>, n: nat, cur: nat, d: Dispatch,
                           s': seq<TaskControlBlock>, cur': nat)
    requires cur < |s| && n <= |s| && (n > 0 ==> cur < n)
    requires forall i :: 0 <= i < |s| ==> s[i].priority >= MIN_PRIORITY
  {
    RunNextSpec(s[cur := s[cur].(status := Exited)], n, cur, d, s', cur')
  }

  method SuspendCurrentAndRunNext(tm: TaskManager) returns (d: Dispatch)
    requires tm.Valid()
    modifies tm.tasks, tm`currentTask
    ensures tm.Valid()
    ensures YieldSpec(old(tm.tasks[..]), tm.numApp, old(tm.currentTask), d, tm.tasks[..], tm.currentTask)
    ensures d.SwitchTo? ==> tm.tasks[tm.currentTask].status == Running
    ensures old(tm.tasks[tm.currentTask].status) == Running ==> ExitedStay(old(tm.tasks[..]), tm.tasks[..])
    ensures old(tm.RunningOnlyCurrent()) ==> tm.RunningOnlyCurrent()
  {
    tm.MarkCurrentSuspended();
    d := tm.RunNextTask();
  }

  method ExitCurrentAndRunNext(tm: TaskManager) returns (d: Dispatch)
    requires tm.Valid()
    modifies tm.tasks, tm`currentTask
    ensures tm.Valid()
    ensures ExitSpec(old(tm.tasks[..]), tm.numApp, old(tm.currentTask), d, tm.tasks[..], tm.currentTask)
    ensures tm.tasks[old(tm.currentTask)].status == Exited
    ensures d.SwitchTo? ==> d.next != old(tm.currentTask)
    ensures d.SwitchTo? ==> tm.tasks[tm.currentTask].status == Running
    ensures ExitedStay(old(tm.tasks[..]), tm.tasks[..])
    ensures old(tm.RunningOnlyCurrent()) ==> tm.RunningOnlyCurrent()
  {
    tm.MarkCurrentExited();
    d := tm.RunNextTask();
  }
}
