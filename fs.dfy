/** The `write` system call: the buffer is bounds-checked against the
    current task before anything else, and only standard output is served. */
module Fs {
  import opened Task

  const FD_STDOUT: nat := 1

  /** What reaches the console: nothing, or the `len` bytes at `buf`. */
  datatype ConsoleOutput = NoOutput | Printed(buf: nat, len: nat)

  /** `sys_write(fd, buf, len)` against the task manager `tm`. */
  method SysWrite(tm: TaskManager, userInfo: nat -> AppLayout, fd: nat, buf: nat, len: nat)
      returns (ret: int, out: ConsoleOutput)
    requires tm.Valid()
    requires userInfo(tm.currentTask).userStackTop >= USER_STACK_SIZE
    ensures !SliceAccepted(userInfo(tm.currentTask), buf, len) ==> ret == -1 && out == NoOutput
    ensures SliceAccepted(userInfo(tm.currentTask), buf, len) && fd != FD_STDOUT ==>
              ret == -1 && out == NoOutput
    ensures SliceAccepted(userInfo(tm.currentTask), buf, len) && fd == FD_STDOUT ==>
              ret == len && out == Printed(buf, len)
  {
    var ok := tm.CheckReadSlice(userInfo, buf, len);
    if !ok {
      return -1, NoOutput;
    }
    if fd == FD_STDOUT {
      ret, out := len, Printed(buf, len);
    } else {
      return -1, NoOutput;
    }
  }
}
