/** The kernel objects of the process life cycle: tasks, open files and pipes. */
module Tasks {
  import opened Basics
  import opened ProcessSpec

  const MAX_FDS: nat := 16

  class Pipe {
    var readRef: int
    var writeRef: int

    constructor ()
      ensures readRef == 1 && writeRef == 1
    {
      readRef, writeRef := 1, 1;
    }
  }

  class File {
    var refCount: int
    const pipe: Pipe?
    const pipeEnd: nat   // 0 reads, anything else writes

    constructor (pipe: Pipe?, pipeEnd: nat)
      ensures refCount == 1 && this.pipe == pipe && this.pipeEnd == pipeEnd
    {
      refCount, this.pipe, this.pipeEnd := 1, pipe, pipeEnd;
    }
  }

  class Task {
    const pid: nat
    var ppid: nat
    var state: State
    var exitCode: int
    var imgSize: nat
    var snapshot: Option<seq<byte>>
    var fds: seq<File?>
    var next: Task?

    constructor (pid: nat, ppid: nat)
      ensures this.pid == pid && this.ppid == ppid && state == Running && exitCode == 0
      ensures imgSize == 0 && snapshot == None && next == null
      ensures fds == seq(MAX_FDS, _ => null)
    {
      this.pid, this.ppid, state, exitCode := pid, ppid, Running, 0;
      imgSize, snapshot, next := 0, None, null;
      fds := seq(MAX_FDS, _ => null);
    }

    ghost function Proc(): Proc
      reads this`ppid, this`state, this`exitCode, this`imgSize, this`snapshot
    {
      ProcessSpec.Proc(pid, ppid, state, exitCode, imgSize, snapshot)
    }
  }
}
