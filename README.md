# Stride-scheduling task manager of a batch kernel, in Dafny

This project models the task-scheduling core of a small single-core teaching
kernel written in Rust. The kernel keeps a fixed table of task control blocks
(one per loaded application), each with a status (`UnInit`, `Ready`,
`Running`, `Exited`), an accumulated `stride`, a `priority` and a suspension
counter `start_num`, plus a cursor on the current task. It picks the next task
by stride scheduling, and it exposes four system calls on top of that: `exit`,
`yield`, `get_time` and `write`.

- `task.dfy`, module `Task`. It models `os/src/task/mod.rs`. The class
  `TaskManager` holds the table as an `array<TaskControlBlock>`, the
  application count and the cursor. Its methods update the table in place, as
  the Rust methods do through `borrow_mut()`.
  - `FindNextTask` is the round-robin scan, with its loop and its invariants.
    It is proved against the ghost predicate `IsSelection`, which says:
    - the result is `None` exactly when no slot in `0..num_app` is Ready with
      a stride below 2147483647;
    - otherwise the result is such a slot;
    - its stride is minimal among the Ready slots;
    - among Ready slots of equal stride, it is the first one the scan reaches
      (the scan starts just after the cursor and ends on the cursor itself).

    `SelectionUnique` shows that these conditions fix the result.
  - `RunNextTask` returns a `Dispatch`. `SwitchTo(prev, next)` is the switch
    the kernel would perform. `AllCompleted` is the "All applications
    completed!" halt.
  - The two compositions `SuspendCurrentAndRunNext` and `ExitCurrentAndRunNext`
    are module-level methods over the manager object.
- `process.dfy`, module `Process`. It models `os/src/syscall/process.rs`:
  - the split of a microsecond count into seconds and microseconds;
  - `sys_yield` and `sys_exit` as sequences of task-manager transitions.
- `fs.dfy`, module `Fs`. It models the return value of `sys_write` in
  `os/src/syscall/fs.rs`, and whether anything reaches the console. The
  bounds check comes first, then the file-descriptor check.

Collaborators the core only calls appear as parameters:
- The loader's application count is a constructor argument.
- Its per-task layout report (`get_user_info`) is a function
  `nat -> AppLayout` from task index to `(app_start, app_end, user_stack_top)`.
- The microsecond clock is an argument of `SysGetTime`.
- `MAX_APP_NUM` comes from a configuration file that is not part of this
  model, so it is a constructor argument too.

Three behaviours of the code are easy to misread:
- The suspension counter is tested against 1000 *before* it is incremented,
  and it is never reset. A task therefore survives 1001 suspensions and is
  forced to `Exited` on the 1002nd, not the 1001st (`SuspendCap`). The counter
  is cumulative, not "consecutive".
- The scan also passes over Ready tasks whose stride has reached 2147483647,
  because that is the starting minimum and the comparison is strict. Such
  tasks alone make the selection `None`.
- The bounds check compares the end of the range with `<=`. A zero-length
  buffer is therefore accepted at any address from the region's start up to
  its end inclusive (`SliceAcceptedBytewise` is stated for non-empty buffers).

## Model

| member | source | states |
|---|---|---|
| `Task.TaskManager.constructor` | os/src/task/mod.rs:28-47 | slots below `num_app` are Ready and the rest UnInit; every slot has stride 0, priority 16 and counter 0; the cursor is 0; no slot is Running |
| `Task.TaskManager.RunFirstTask` | os/src/task/mod.rs:50-51 | slot 0 becomes Running and nothing else changes; from the boot state, only the current slot runs |
| `Task.TaskManager.MarkCurrentSuspended` | os/src/task/mod.rs:62-72 | counter `<= 1000`: the current slot becomes Ready and its counter grows by 1; counter `> 1000`: it becomes Exited with the counter unchanged; no other slot changes; if only the current slot was running, none runs afterwards |
| `Task.SuspendCap` | os/src/task/mod.rs:62-71 | starting from counter 0, suspensions 1 to 1001 leave the task Ready with counter equal to the number of suspensions; from the 1002nd on it is Exited and the counter stays at 1001; stride and priority are untouched |
| `Task.TaskManager.MarkCurrentExited` | os/src/task/mod.rs:74-78 | only the current slot's status changes, to Exited; exited slots stay exited; afterwards no slot runs if only the current one did |
| `Task.TaskManager.FindNextTask` | os/src/task/mod.rs:80-103 | the result satisfies `IsSelection`: None iff no slot in `0..num_app` is Ready with stride `< 2147483647`; otherwise a Ready index `< num_app` whose stride is minimal among Ready slots and which the scan `current+1, current+2, … (mod num_app)` reaches before any other Ready slot of equal stride |
| `Task.ScanCovers` | os/src/task/mod.rs:90-91 | the scan `(current + 1 + k) % num_app` for `k < num_app` visits every slot, each at an explicitly computed step |
| `Task.SelectionUnique` | os/src/task/mod.rs:88-102 | two results that both meet the selection specification are equal: the minimum with its strict-`<` tie rule determines the choice |
| `Task.TieGoesToFirstScanned` | os/src/task/mod.rs:90-96 | example: with cursor 0 and slots 0 and 1 both Ready with stride 10, slot 1 is chosen, because the scan reaches slot 0 last |
| `Task.TaskManager.RunNextTask` | os/src/task/mod.rs:106-125 | on a selection, the chosen slot becomes Running, its stride grows by `151200 / priority`, the cursor moves to it, and no other slot changes; when nothing is selectable, the result is the halt and the state is untouched; priorities stay `>= 2`, strides never decrease, exited slots stay exited; if no slot was running, afterwards only the current one is |
| `Task.DispatchCharge` | os/src/task/mod.rs:111 | dispatch makes a task Running and never lowers its stride; a task of priority `p` is charged at least as much as one of any higher priority (`151200 / p >= 151200 / p'` for `p <= p'`) |
| `Task.TaskManager.SetCurrentPriority` | os/src/task/mod.rs:127-136 | `prio < 2`: returns -1 and the table is unchanged; otherwise the current slot's priority becomes `prio`, nothing else changes, and the result is `prio` |
| `Task.TaskManager.CheckReadSlice` | os/src/task/mod.rs:138-152 | true iff `app_start <= addr && addr+len <= app_end`, or `stack_top-0x1000 <= addr && addr+len <= stack_top`, for the current task's layout; an accepted non-empty buffer lies byte for byte in one region |
| `Task.SliceAcceptedBytewise` | os/src/task/mod.rs:144-151 | for `len > 0` the check accepts exactly the buffers whose every byte is in the application image or whose every byte is in the 4 KiB user stack |
| `Task.StraddleRejected` | os/src/task/mod.rs:147 | a buffer with one byte outside the stack and another outside the image (one straddling the two regions) is rejected |
| `Task.SuspendCurrentAndRunNext` | os/src/task/mod.rs:174-177 | the new state is the suspension of the current slot followed by dispatch from it (`YieldSpec`); after a switch the new current slot is Running; when the caller was the running task, exited slots stay exited; "only the current slot runs" is preserved |
| `Task.ExitCurrentAndRunNext` | os/src/task/mod.rs:179-182 | the new state is the exit of the current slot followed by dispatch (`ExitSpec`); the exited slot stays Exited and is not the one this dispatch switches to; after a switch the new current slot is Running; exited slots stay exited; "only the current slot runs" is preserved |
| `Process.SplitMicros` | os/src/syscall/process.rs:27-28 | `sec * 1000000 + usec == us` and `usec < 1000000` |
| `Process.SplitJoin` | os/src/syscall/process.rs:27-28 | splitting the microsecond count of a well-formed `(sec, usec)` gives back that pair |
| `Process.SysGetTime` | os/src/syscall/process.rs:23-31 | returns 0; the stored pair has `sec == us / 1000000`, `usec < 1000000` and `sec * 1000000 + usec == us` |
| `Process.SysYield` | os/src/syscall/process.rs:18-21 | returns 0 after suspending the current task and dispatching the next (`YieldSpec`); after a switch the new current slot is Running; when the caller was the running task, exited slots stay exited |
| `Process.SysExit` | os/src/syscall/process.rs:12-16 | exit of the current task then dispatch (`ExitSpec`); the exiting task is Exited and is not the task this dispatch switches to; after a switch the new current slot is Running; exited slots stay exited. Together with the `SysYield` row, an exited task never becomes Ready or Running again as long as only the running task yields |
| `Fs.SysWrite` | os/src/syscall/fs.rs:5-21 | buffer rejected by the bounds check: -1 and no console output, whatever `fd` is; accepted and `fd != 1`: -1 and no output; accepted and `fd == 1`: returns `len` and prints exactly the `len` bytes at `buf` |

## Left out

- The context switch (`__switch`), `TaskContext` and the per-task context pointer are not modelled. They save and restore registers and transfer control. `RunNextTask` stops at the state update and reports the switch as `SwitchTo(prev, next)`.
- The loader (`get_num_app`, `init_app_cx`, `get_user_info`) is not modelled. Its results are parameters.
- `MAX_APP_NUM` is not modelled; the table size is a parameter instead.
- `lazy_static!`, `RefCell` and `unsafe impl Sync` are not modelled. They only provide the global singleton and borrow checking, so the manager is one Dafny object.
- Task.TaskManager.constructor: requires `num_app <= MAX_APP_NUM`. The Rust initialisation loop would panic on an out-of-range index otherwise.
- Task.TaskManager.CheckReadSlice: requires `user_stack_top >= 0x1000`. In Rust, `user_stack_top - 0x1000` would underflow otherwise.
- `addr + len` overflowing `usize` is not modelled; addresses and lengths are unbounded naturals.
- Growth of the `isize` strides past the machine range is not modelled; strides are unbounded integers.
- Task.TaskManager.RunFirstTask: the one-way switch into slot 0 is not modelled. Only the status update is modelled.
- Fs.SysWrite: the console output is given as the `(buf, len)` range it prints. Memory contents are not modelled. The UTF-8 decoding with `unwrap()` is left out too; in Rust it panics on malformed text.
- Process.SysGetTime: the clock (`get_time_us`) is a parameter. The unchecked store through the user pointer is modelled as the returned pair.
- Process.SysExit: the log line with the exit code is not modelled. Neither is the final `panic!` that marks the code after the switch as unreachable. Instead, `ExitCurrentAndRunNext` shows that the exited slot is not the target of the dispatch, that exited slots stay exited, and that the new current slot is Running. With `SysYield`, which keeps exited slots exited when its caller is the running task, no exited task is switched to again.
- The long-run fairness of stride scheduling (selection frequencies proportional to priorities) is not proved. The model proves each selection step only.
