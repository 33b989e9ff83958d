/** The interrupt gates: each system call, fault or timer tick as one atomic step of the
    machine, and what every step keeps. */
module Dispatch {
  import opened Basics
  import opened ProcessSpec
  import opened ProcessRuns
  import opened ImageRuns
  import opened Kernel

  method SysFork(m: Machine)
    requires m.Valid() && Enabled(m.Abs(), DoFork)
    modifies m, m.ring, m.ring.tasks, m.table, m.table.files`refCount
    ensures m.Valid() && m.Abs() == Next(old(m.Abs()), DoFork)
  {
    var pid := m.Fork();
    m.Schedule();
  }

  method SysExec(m: Machine, content: seq<byte>)
    requires m.Valid() && Enabled(m.Abs(), DoExec(content))
    modifies m.ring, m.ring.tasks, m.image
    ensures m.Valid() && m.Abs() == Next(old(m.Abs()), DoExec(content))
  {
    m.Exec(content);
  }

  method Store(m: Machine, at: nat, b: byte)
    requires m.Valid() && Enabled(m.Abs(), DoWrite(at, b))
    modifies m.image
    ensures m.Valid() && m.Abs() == Next(old(m.Abs()), DoWrite(at, b))
  {
    m.image[at] := b;
  }

  method SysExit(m: Machine, status: int, heap: seq<byte>)
    requires m.Valid() && Enabled(m.Abs(), DoExit(status, heap))
    modifies m, m.ring, m.ring.tasks, m.image, m.table, m.table.files`refCount, m.table.pipes
    ensures m.Valid() && m.Abs() == Next(old(m.Abs()), DoExit(status, heap))
  {
    m.Exit(status, heap);
    m.Schedule();
  }

  method SysKill(m: Machine, pid: nat, sig: nat, heap: seq<byte>) returns (r: int)
    requires m.Valid() && Enabled(m.Abs(), DoKill(pid, sig, heap))
    modifies m, m.ring, m.ring.tasks, m.image, m.table, m.table.files`refCount, m.table.pipes
    ensures m.Valid() && m.Abs() == Next(old(m.Abs()), DoKill(pid, sig, heap))
    ensures r == if Find(old(m.ring.procs), pid) == |old(m.ring.procs)| then -1 else 0
  {
    r := m.Kill(pid, sig, heap);
    if m.current.state == Zombie { m.Schedule(); }
  }

  method SysWait(m: Machine, pid: int, noHang: bool) returns (r: int, status: int)
    requires m.Valid() && Enabled(m.Abs(), DoWait(pid, noHang))
    modifies m, m.ring, m.ring.tasks, m.table
    ensures m.Valid() && m.Abs() == Next(old(m.Abs()), DoWait(pid, noHang))
    ensures r == Wait4(old(m.Abs()), pid, noHang).0
  {
    r, status := m.Wait4(pid, noHang);
    if r == -2 { m.Schedule(); }
  }

  method Tick(m: Machine)
    requires m.Valid() && Enabled(m.Abs(), DoTick)
    modifies m`current
    ensures m.Valid() && m.Abs() == Next(old(m.Abs()), DoTick)
  {
    m.Schedule();
  }

  /** One step: the machine follows the transition system, so it keeps the parent chain and,
      under the discipline, the image law. */
  method Step(m: Machine, step: Step, ghost c: seq<nat>)
    requires m.Valid() && Enabled(m.Abs(), step) && Inv(m.Abs(), c)
    modifies m, m.ring, m.ring.tasks, m.image, m.table, m.table.files`refCount, m.table.pipes
    ensures m.Valid() && m.Abs() == Next(old(m.Abs()), step)
    ensures Inv(m.Abs(), NextChain(old(m.Abs()), c, step))
    ensures Good(old(m.Abs()), c) && Disciplined(old(m.Abs()), c, step) ==>
      Good(m.Abs(), NextChain(old(m.Abs()), c, step))
  {
    NextKeeps(m.Abs(), c, step);
    if Good(m.Abs(), c) && Disciplined(m.Abs(), c, step) { NextGood(m.Abs(), c, step); }
    match step
    case DoFork => SysFork(m);
    case DoExec(content) => SysExec(m, content);
    case DoWrite(at, b) => Store(m, at, b);
    case DoExit(status, heap) => SysExit(m, status, heap);
    case DoKill(pid, sig, heap) => var r := SysKill(m, pid, sig, heap);
    case DoWait(pid, noHang) => var r, status := SysWait(m, pid, noHang);
    case DoTick => Tick(m);
  }
}
