/** The process table of the running kernel: the ring, the descriptor tables, the current task
    and the one user image. Every method is proved against the transition of the same name. */
module Kernel {
  import opened Basics
  import opened ProcessSpec
  import opened Tasks
  import opened TaskRing
  import opened FileTable

  /** Pids are positive, below the next one, and above the parent's; images fit the window. */
  ghost predicate Ordered(p: Proc, nextPid: nat) { p.ppid < p.pid < nextPid && p.imgSize <= WINDOW }

  ghost predicate DeadHoldNothing(tasks: seq<Task>)
    reads tasks`state, tasks`fds
  {
    forall i :: 0 <= i < |tasks| && tasks[i].state == Zombie ==> Empty(tasks[i])
  }

  /** Tasks whose value is dead have an empty table, task i aside. */
  ghost predicate EmptyWhenDead(tasks: seq<Task>, procs: seq<Proc>, i: nat)
    requires |tasks| == |procs|
    reads tasks`fds
  {
    forall k :: 0 <= k < |tasks| && k != i && procs[k].state == Zombie ==> Empty(tasks[k])
  }

  ghost predicate Empty(t: Task)
    reads t`fds
  {
    t.fds == seq(MAX_FDS, _ => null)
  }

  lemma StillHoldNothing(tasks: seq<Task>, k: nat)
    requires k < |tasks| && DeadHoldNothing(tasks)
    ensures DeadHoldNothing(Without(tasks, k))
  {
    forall t | t in Without(tasks, k) ensures t in tasks { }
  }

  lemma NoNewDeadTwice(a: seq<Proc>, b: seq<Proc>, c: seq<Proc>)
    requires |a| == |b| == |c|
    requires forall k :: 0 <= k < |a| ==> NoNewDead(a[k], b[k])
    requires forall k :: 0 <= k < |b| ==> NoNewDead(b[k], c[k])
    ensures forall k :: 0 <= k < |a| ==> NoNewDead(a[k], c[k])
  {
    forall k | 0 <= k < |a| ensures NoNewDead(a[k], c[k]) { assert NoNewDead(a[k], b[k]) && NoNewDead(b[k], c[k]); }
  }

  lemma Passed(ring: seq<Proc>, from: nat, to: nat)
    ensures |Reparent(ring, from, to)| == |ring|
    ensures forall k :: 0 <= k < |ring| ==> NoNewDead(ring[k], Reparent(ring, from, to)[k])
  {
  }

  lemma SnocUpdate(ring: seq<Proc>, p: Proc, i: nat, q: Proc)
    requires i < |ring|
    ensures (ring + [p])[i := q] == ring[i := q] + [p]
  {
  }

  ghost predicate OrderedRing(ring: seq<Proc>, nextPid: nat) {
    UniquePids(ring) && forall i :: 0 <= i < |ring| ==> Ordered(ring[i], nextPid)
  }

  lemma NewPid(ring: seq<Proc>, p: Proc, nextPid: nat)
    requires OrderedRing(ring, nextPid) && p.pid == nextPid && p.ppid < p.pid && p.imgSize == 0
    ensures OrderedRing(ring + [p], nextPid + 1)
  {
    assert forall i :: 0 <= i < |ring| ==> Ordered(ring[i], nextPid);
  }

  lemma FindStill(ring: seq<Proc>, p: Proc, pid: nat)
    requires Find(ring, pid) < |ring|
    ensures Find(ring + [p], pid) == Find(ring, pid)
  {
    assert (ring + [p])[Find(ring, pid)].pid == pid;
  }

  lemma SamePid(ring: seq<Proc>, i: nat, p: Proc, nextPid: nat)
    requires OrderedRing(ring, nextPid) && i < |ring| && p.pid == ring[i].pid && p.ppid == ring[i].ppid
      && p.imgSize <= WINDOW
    ensures OrderedRing(ring[i := p], nextPid)
  {
    assert Ordered(ring[i], nextPid);
  }

  lemma StillOrdered(ring: seq<Proc>, k: nat, nextPid: nat)
    requires OrderedRing(ring, nextPid) && k < |ring|
    ensures OrderedRing(Without(ring, k), nextPid)
  {
    RemoveUnique(ring, Without(ring, k), k);
    forall i | 0 <= i < |ring| - 1 ensures Ordered(Without(ring, k)[i], nextPid) {
      assert Ordered(ring[if i < k then i else i + 1], nextPid);
    }
  }

  lemma WakeOrdered(ring: seq<Proc>, pid: nat, nextPid: nat)
    requires OrderedRing(ring, nextPid)
    ensures OrderedRing(Unblock(ring, pid), nextPid) && |Unblock(ring, pid)| == |ring|
    ensures forall i :: 0 <= i < |ring| ==> SameButAwake(ring[i], Unblock(ring, pid)[i])
  {
    UnblockAt(ring, pid);
    forall i | 0 <= i < |ring| ensures Ordered(Unblock(ring, pid)[i], nextPid)
      && SameButAwake(ring[i], Unblock(ring, pid)[i]) {
      assert Ordered(ring[i], nextPid);
    }
  }

  ghost predicate SameButAwake(p: Proc, q: Proc) { q == p || q == p.(state := Running) }

  /** Pids stay put, and a zombie was one before. */
  ghost predicate NoNewDead(p: Proc, q: Proc) { q.pid == p.pid && (q.state == Zombie ==> p.state == Zombie) }

  lemma PassOrdered(ring: seq<Proc>, from: nat, to: nat, nextPid: nat)
    requires OrderedRing(ring, nextPid) && to < from
    ensures OrderedRing(Reparent(ring, from, to), nextPid)
  {
    forall i | 0 <= i < |ring| ensures Ordered(Reparent(ring, from, to)[i], nextPid) {
      assert Ordered(ring[i], nextPid);
    }
  }

  class Machine {
    const ring: Ring
    const table: Descriptors
    const image: array<byte>
    var current: Task?
    var nextPid: nat

    /** The ring, the current task and the numbering are in order. */
    ghost predicate Ringed()
      reads this, ring, ring.tasks`next, ring.tasks`ppid, ring.tasks`state, ring.tasks`exitCode, ring.tasks`imgSize,
        ring.tasks`snapshot
    {
      && ring.Valid() && image.Length == WINDOW && nextPid > 0
      && (current != null ==> current in ring.tasks) && OrderedRing(ring.procs, nextPid)
    }

    ghost predicate Linked()
      reads this, ring, ring.tasks`next, ring.tasks`ppid, ring.tasks`state, ring.tasks`exitCode, ring.tasks`imgSize,
        ring.tasks`snapshot
      reads table, table.owners`fds, table.files`refCount, table.pipes`readRef, table.pipes`writeRef
    {
      Ringed() && table.Valid() && table.owners == ring.tasks
    }

    ghost predicate Valid()
      reads this, ring, ring.tasks`next, ring.tasks`ppid, ring.tasks`state, ring.tasks`exitCode, ring.tasks`imgSize,
        ring.tasks`snapshot
      reads table, table.owners`fds, ring.tasks`fds, table.files`refCount, table.pipes`readRef, table.pipes`writeRef
    {
      Linked() && DeadHoldNothing(ring.tasks)
    }

    ghost function Abs(): (s: Sys)
      requires Linked()
      reads this, ring, ring.tasks`next, ring.tasks`ppid, ring.tasks`state, ring.tasks`exitCode, ring.tasks`imgSize,
        ring.tasks`snapshot
      reads table, table.owners`fds, table.files`refCount, table.pipes`readRef, table.pipes`writeRef
      reads image
      ensures s.cur == 0 <==> current == null
      ensures current != null ==>
        && HasCurrent(s) && Find(s.ring, s.cur) < |ring.tasks|
        && ring.tasks[Find(s.ring, s.cur)] == current
      ensures current != null ==> Cur(s) == current.Proc()
    {
      if current != null then Here(); Sys(ring.procs, current.pid, nextPid, image[..])
      else Sys(ring.procs, 0, nextPid, image[..])
    }

    /** The current task is the one in the ring that carries its pid. */
    lemma Here()
      requires Linked() && current != null
      ensures var i := Find(ring.procs, current.pid);
        i < |ring.tasks| && ring.tasks[i] == current && ring.procs[i] == current.Proc()
    {
      var i :| 0 <= i < |ring.tasks| && ring.tasks[i] == current;
      assert Mirrored(ring.tasks, ring.procs, i);
      FindIs(ring.procs, i);
    }

    constructor ()
      ensures Valid() && fresh(ring) && fresh(table) && fresh(image)
      ensures Abs().ring == [] && Abs().cur == 0 && Abs().nextPid == 1
    {
      ring := new Ring();
      table := new Descriptors();
      image := new byte[WINDOW];
      current, nextPid := null, 1;
    }

    method Schedule()
      requires Valid()
      modifies this`current
      ensures Valid() && Abs() == ProcessSpec.Schedule(old(Abs()))
    {
      if ring.readyQueue == null { return; }
      if current == null {
        assert LinkedAt(ring.tasks, |ring.tasks| - 1) && Mirrored(ring.tasks, ring.procs, 0);
        current := ring.readyQueue.next;
        return;
      }
      ghost var i := Find(ring.procs, Abs().cur);
      assert Mirrored(ring.tasks, ring.procs, PickNext(ring.procs, i));
      current := ring.NextRunning(current, i);
    }

    /** fork: the child runs, sharing every open file; the parent is blocked. */
    method Fork() returns (pid: nat)
      requires Valid() && current != null
      modifies this`nextPid, ring, ring.tasks`next, current`state, table, table.files`refCount
      ensures Valid() && Abs() == ProcessSpec.Fork(old(Abs())) && pid == old(nextPid)
      ensures exists child :: fresh(child) && ring.tasks == old(ring.tasks) + [child] && child.fds == current.fds
    {
      var child := new Task(nextPid, current.pid);
      ForkInto(child);
      pid := child.pid;
    }

    method ForkInto(child: Task)
      requires Linked() && current != null && child !in ring.tasks
        && child.Proc() == Proc(nextPid, current.pid, Running, 0, 0, None)
      requires child.fds == seq(MAX_FDS, _ => null)
      modifies this`nextPid, ring, ring.tasks`next, current`state, child`fds, child`next, table, table.files`refCount
      ensures Linked() && nextPid == old(nextPid) + 1
      ensures ring.tasks == old(ring.tasks) + [child] && child.fds == current.fds && current.state == Blocked
      ensures var r, i := old(ring.procs), Find(old(ring.procs), current.pid);
        i < |r| && ring.procs == r[i := r[i].(state := Blocked)]
          + [Proc(old(nextPid), current.pid, Running, 0, 0, None)]
    {
      Here();
      FindStill(ring.procs, child.Proc(), current.pid);
      Join(child);
      ghost var i := Find(old(ring.procs), current.pid);
      SnocUpdate(old(ring.procs), child.Proc(), i, old(ring.procs)[i].(state := Blocked));
      Block();
    }

    method Join(child: Task)
      requires Linked() && current != null && child !in ring.tasks
        && child.Proc() == Proc(nextPid, current.pid, Running, 0, 0, None)
      requires child.fds == seq(MAX_FDS, _ => null)
      modifies this`nextPid, ring, ring.tasks`next, child`fds, child`next, table, table.files`refCount
      ensures Linked() && nextPid == old(nextPid) + 1
      ensures ring.tasks == old(ring.tasks) + [child] && child.fds == current.fds
      ensures ring.procs == old(ring.procs) + [child.Proc()] && child.Proc() == old(child.Proc())
    {
      Here();
      assert Ordered(current.Proc(), nextPid);
      ShareFiles(child);
      Enter(child);
    }

    /** The child gets the current task's descriptor table. */
    method ShareFiles(child: Task)
      requires Linked() && current != null && child !in ring.tasks && child.fds == seq(MAX_FDS, _ => null)
      modifies child`fds, table, table.files`refCount
      ensures Ringed() && table.Valid() && table.owners == ring.tasks + [child]
      ensures child.fds == current.fds && child.Proc() == old(child.Proc())
    {
      table.Share(current, child);
    }

    /** A new task with the next pid joins the ring; its descriptor table is known already. */
    method Enter(t: Task)
      requires Ringed() && table.Valid() && t !in ring.tasks && table.owners == ring.tasks + [t]
      requires t.pid == nextPid && t.ppid < t.pid && t.imgSize == 0
      modifies this`nextPid, ring, t`next, ring.tasks`next
      ensures Linked() && nextPid == old(nextPid) + 1 && t.Proc() == old(t.Proc())
      ensures ring.tasks == old(ring.tasks) + [t] && ring.procs == old(ring.procs) + [t.Proc()]
    {
      NewPid(ring.procs, t.Proc(), nextPid);
      nextPid := nextPid + 1;
      ring.AddTask(t);
    }

    /** A fresh root task with the three console files. */
    method CreateUserTask() returns (pid: nat)
      requires Valid()
      modifies this`nextPid, ring, ring.tasks`next, table
      ensures Valid() && Abs() == ProcessSpec.Respawn(old(Abs())) && pid == old(nextPid)
      ensures exists t :: fresh(t) && ring.tasks == old(ring.tasks) + [t] && FirstOpen(t.fds, 3)
    {
      var t := new Task(nextPid, 0);
      Launch(t);
      pid := t.pid;
    }

    method Launch(t: Task)
      requires Valid() && t !in ring.tasks && t.Proc() == Proc(nextPid, 0, Running, 0, 0, None)
      requires t.fds == seq(MAX_FDS, _ => null)
      modifies this`nextPid, ring, ring.tasks`next, t`fds, t`next, table
      ensures Valid() && Abs() == ProcessSpec.Respawn(old(Abs()))
      ensures ring.tasks == old(ring.tasks) + [t] && FirstOpen(t.fds, 3)
    {
      Boot(t);
    }

    method Boot(t: Task)
      requires Linked() && t !in ring.tasks && t.Proc() == Proc(nextPid, 0, Running, 0, 0, None)
      requires t.fds == seq(MAX_FDS, _ => null)
      modifies this`nextPid, ring, ring.tasks`next, t`fds, t`next, table
      ensures Linked() && nextPid == old(nextPid) + 1
      ensures ring.tasks == old(ring.tasks) + [t] && FirstOpen(t.fds, 3)
      ensures ring.procs == old(ring.procs) + [t.Proc()] && t.Proc() == old(t.Proc())
    {
      table.OpenConsole(t);
      assert Ringed();
      Enter(t);
    }

    // ---- exec ---------------------------------------------------------------------------

    /** The commit of exec: the parent's image is saved, then the window is overwritten. */
    method Exec(content: seq<byte>)
      requires Valid() && current != null && |content| <= WINDOW
      modifies ring`procs, current`imgSize, current`snapshot, image
      ensures Valid() && Abs() == ProcessSpec.Exec(old(Abs()), content)
    {
      ExecParts(Abs(), content);
      Snapshot();
      Load(content);
      Resize(|content|);
    }

    /** The snapshot, before anything is overwritten. */
    method Snapshot()
      requires Valid() && current != null
      modifies ring`procs, current`imgSize, current`snapshot
      ensures Valid() && Abs() == Snapped(old(Abs()))
    {
      Here();
      ghost var i := Find(ring.procs, current.pid);
      assert Ordered(ring.procs[i], nextPid);
      SaveParent(i);
      Refresh(i);
    }

    /** The size of the image that runs now. */
    method Resize(size: nat)
      requires Valid() && current != null && size <= WINDOW
      modifies ring`procs, current`imgSize
      ensures Valid() && Abs() == Resized(old(Abs()), size)
    {
      Here();
      ghost var i := Find(ring.procs, current.pid);
      current.imgSize := size;
      forall k | 0 <= k < |ring.tasks| && k != i ensures Mirrored(ring.tasks, ring.procs, k) {
        assert old(Mirrored(ring.tasks, ring.procs, k)) && ring.tasks[k] != current;
      }
      Refresh(i);
    }

    /** The image of a parent that has one, unless it was saved before. */
    method SaveParent(ghost i: nat)
      requires Linked() && current != null && i == Find(ring.procs, current.pid) < |ring.tasks|
      requires ring.tasks[i] == current && ring.procs[i] == current.Proc()
      modifies current`imgSize, current`snapshot
      ensures ring.Cyclic() && forall k :: 0 <= k < |ring.tasks| && k != i ==> Mirrored(ring.tasks, ring.procs, k)
      ensures current.imgSize <= WINDOW || current.imgSize == old(current.imgSize)
      ensures current.snapshot == Saved(old(Abs()))
      ensures current.imgSize == if current.snapshot == old(current.snapshot) then old(current.imgSize)
        else |current.snapshot.value|
    {
      if current.ppid != 0 && current.snapshot == None {
        var p := ring.FindTask(current.ppid);
        if p != null {
          assert Mirrored(ring.tasks, ring.procs, Find(ring.procs, current.ppid));
          if 0 < p.imgSize <= WINDOW {
            current.snapshot := Some(image[..p.imgSize]);
            current.imgSize := p.imgSize;
          }
        }
      }
      forall k | 0 <= k < |ring.tasks| && k != i ensures Mirrored(ring.tasks, ring.procs, k) {
        assert old(Mirrored(ring.tasks, ring.procs, k));
      }
    }

    method Load(content: seq<byte>)
      requires |content| <= image.Length
      modifies image
      ensures image[..] == content + old(image[..])[|content|..]
    {
      for k := 0 to |content|
        invariant image[..k] == content[..k] && forall j :: k <= j < image.Length ==> image[j] == old(image[j])
      {
        image[k] := content[k];
        assert content[..k + 1] == content[..k] + [content[k]];
        assert image[..k + 1] == image[..k] + [image[k]];
      }
    }

    // ---- exit ---------------------------------------------------------------------------

    /** The current task dies: its parent's image comes back, the parent wakes, its children
        pass on, its descriptors go. */
    method TaskExit(status: int, heap: seq<byte>)
      requires Valid() && current != null && |heap| == WINDOW
      modifies ring`procs, ring.tasks`state, ring.tasks`ppid, current, image, table, table.files`refCount, table.pipes
      ensures Valid() && Abs() == ProcessSpec.TaskExit(old(Abs()), status, heap)
    {
      Here();
      ghost var i := Find(ring.procs, current.pid);
      DeadByValue();
      Pass(status, heap, i);
      LetGo(old(ring.procs), i);
    }

    /** The dead current task gives up its descriptors. */
    method LetGo(ghost was: seq<Proc>, ghost i: nat)
      requires Linked() && i < |ring.tasks| == |was| && ring.tasks[i] == current && EmptyWhenDead(ring.tasks, was, i)
      requires forall k :: 0 <= k < |was| && k != i ==> NoNewDead(was[k], ring.procs[k])
      modifies current`fds, table`files, table`pipes, table`tables, table.files`refCount, table.pipes
      ensures Valid() && Abs() == old(Abs())
    {
      table.ReleaseAll(current);
      StillDead(was, i);
    }

    lemma DeadByValue()
      requires Valid()
      ensures EmptyWhenDead(ring.tasks, ring.procs, |ring.tasks|)
    {
      forall k | 0 <= k < |ring.tasks| && ring.procs[k].state == Zombie ensures Empty(ring.tasks[k]) {
        assert Mirrored(ring.tasks, ring.procs, k);
      }
    }

    lemma StillDead(was: seq<Proc>, i: nat)
      requires Linked() && i < |ring.tasks| == |was| && EmptyWhenDead(ring.tasks, was, i) && Empty(ring.tasks[i])
      requires forall k :: 0 <= k < |was| && k != i ==> NoNewDead(was[k], ring.procs[k])
      ensures DeadHoldNothing(ring.tasks)
    {
      forall k | 0 <= k < |ring.tasks| && ring.tasks[k].state == Zombie ensures Empty(ring.tasks[k]) {
        assert Mirrored(ring.tasks, ring.procs, k);
        assert NoNewDead(was[k], ring.procs[k]) || k == i;
      }
    }

    /** Everything about exiting but the descriptors. */
    method Pass(status: int, heap: seq<byte>, ghost i: nat)
      requires Linked() && current != null && |heap| == WINDOW && i == Find(ring.procs, current.pid) < |ring.tasks|
      requires ring.tasks[i] == current && ring.procs[i] == current.Proc()
      modifies ring`procs, ring.tasks`state, ring.tasks`ppid, current`exitCode, current`snapshot, image
      ensures Linked() && Abs() == ProcessSpec.TaskExit(old(Abs()), status, heap)
      ensures |old(ring.procs)| == |ring.procs|
      ensures forall k :: 0 <= k < |ring.procs| && k != i ==> NoNewDead(old(ring.procs)[k], ring.procs[k])
    {
      ghost var was := ring.procs;
      Die(status, heap, i);
      ghost var dead := ring.procs;
      Family();
      forall k | 0 <= k < |was| && k != i ensures NoNewDead(was[k], ring.procs[k]) {
        assert dead[k] == was[k] && NoNewDead(dead[k], ring.procs[k]);
      }
    }

    /** Zombie state, exit status, and the bytes of the snapshot back over the image. */
    method Die(status: int, heap: seq<byte>, ghost i: nat)
      requires Linked() && current != null && |heap| == WINDOW && i == Find(ring.procs, current.pid) < |ring.tasks|
      requires ring.tasks[i] == current && ring.procs[i] == current.Proc()
      modifies ring`procs, current`state, current`exitCode, current`snapshot, image
      ensures Linked()
      ensures var p := old(ring.procs)[i];
        && ring.procs == old(ring.procs)[i := p.(state := Zombie, exitCode := status, snapshot := None)]
        && image[..] == if p.snapshot.Some? then Restored(old(image[..]), p.snapshot.value, p.imgSize, heap)
          else old(image[..])
    {
      assert Ordered(current.Proc(), nextPid);
      current.state, current.exitCode := Zombie, status;
      if current.snapshot.Some? {
        CopyBack(current.snapshot.value, current.imgSize, heap);
        current.snapshot := None;
      }
      forall k | 0 <= k < |ring.tasks| && k != i ensures Mirrored(ring.tasks, ring.procs, k) {
        assert old(Mirrored(ring.tasks, ring.procs, k));
      }
      Refresh(i);
    }

    method CopyBack(snap: seq<byte>, n: nat, heap: seq<byte>)
      requires n <= image.Length == |heap|
      modifies image
      ensures image[..] == Restored(old(image[..]), snap, n, heap)
    {
      for k := 0 to n
        invariant forall j :: 0 <= j < image.Length ==>
          image[j] == if j >= k then old(image[j]) else if j < |snap| then snap[j] else heap[j]
      {
        image[k] := if k < |snap| then snap[k] else heap[k];
      }
    }

    /** The parent of the current task wakes up and adopts its children. */
    method Family()
      requires Linked() && current != null
      modifies ring`procs, ring.tasks`state, ring.tasks`ppid
      ensures Linked()
      ensures var r := old(ring.procs); var p := old(current.ppid);
        ring.procs == Reparent(if p == 0 then r else Unblock(r, p), current.pid, p)
      ensures |old(ring.procs)| == |ring.procs|
        && forall k :: 0 <= k < |ring.procs| ==> NoNewDead(old(ring.procs)[k], ring.procs[k])
    {
      Here();
      assert Ordered(current.Proc(), nextPid);
      var ppid := current.ppid;
      WakeParent(ppid);
      ghost var woken := ring.procs;
      PassOn(ppid);
      Passed(woken, current.pid, ppid);
      NoNewDeadTwice(old(ring.procs), woken, ring.procs);
    }

    method PassOn(ppid: nat)
      requires Linked() && current != null && ppid < current.pid
      modifies ring`procs, ring.tasks`ppid
      ensures Linked() && ring.procs == Reparent(old(ring.procs), current.pid, ppid)
    {
      PassOrdered(ring.procs, current.pid, ppid, nextPid);
      ring.PassChildren(current.pid, ppid);
    }

    method WakeParent(ppid: nat)
      requires Linked()
      modifies ring`procs, ring.tasks`state
      ensures Linked() && ring.procs == if ppid == 0 then old(ring.procs) else Unblock(old(ring.procs), ppid)
      ensures |old(ring.procs)| == |ring.procs|
        && forall k :: 0 <= k < |ring.procs| ==> NoNewDead(old(ring.procs)[k], ring.procs[k])
    {
      WakeOrdered(ring.procs, ppid, nextPid);
      if ppid != 0 { ring.Wake(ppid); }
    }

    /** exit and the fault handler: a dead root task is replaced at once. */
    method Exit(status: int, heap: seq<byte>)
      requires Valid() && current != null && |heap| == WINDOW
      modifies this`nextPid, ring, ring.tasks`next, ring.tasks`state, ring.tasks`ppid, current, image
      modifies table, table.files`refCount, table.pipes
      ensures Valid() && Abs() == ProcessSpec.Exit(old(Abs()), status, heap)
    {
      var ppid := current.ppid;
      TaskExit(status, heap);
      if ppid == 0 {
        var pid := CreateUserTask();
      }
    }

    // ---- wait4 --------------------------------------------------------------------------

    /** Reaps the first awaited zombie; its exit status goes to bits 15..8. */
    method Wait4(pid: int, noHang: bool) returns (r: int, status: int)
      requires Valid() && current != null
      modifies ring, ring.tasks`next, table`owners, table`tables
      ensures Valid() && (r, Abs()) == ProcessSpec.Wait4(old(Abs()), pid, noHang)
      ensures var k := FirstZombie(old(ring.procs), current.pid, pid, 0);
        r > 0 ==> k < |old(ring.procs)| && status == old(ring.procs)[k].exitCode % 256 * 256
    {
      status := 0;
      ghost var k := FirstZombie(ring.procs, current.pid, pid, 0);
      var has, found := ring.ScanChildren(current.pid, pid);
      if !has { return -1, 0; }
      if found == null { return if noHang then 0 else -2, 0; }
      assert ProcessSpec.Wait4(Abs(), pid, noHang) ==
        (ring.procs[k].pid as int, Abs().(ring := Without(ring.procs, k)));
      r, status := Collect(found, k);
    }

    method Collect(t: Task, ghost k: nat) returns (pid: nat, status: int)
      requires Valid() && current != null && k < |ring.tasks| && ring.tasks[k] == t
      requires ring.procs[k].state == Zombie && ring.procs[k].ppid == current.pid
      modifies ring, ring.tasks`next, table`owners, table`tables
      ensures Valid() && Abs() == old(Abs()).(ring := Without(old(ring.procs), k))
      ensures pid == old(ring.procs)[k].pid && status == old(ring.procs)[k].exitCode % 256 * 256
    {
      status := Reap(t, k);
      pid := t.pid;
    }

    /** A zombie child of the current task leaves the ring. */
    method Reap(t: Task, ghost k: nat) returns (status: int)
      requires Valid() && current != null && k < |ring.tasks| && ring.tasks[k] == t
      requires ring.procs[k].state == Zombie && ring.procs[k].ppid == current.pid
      modifies ring, ring.tasks`next, table`owners, table`tables
      ensures Valid() && ring.procs == Without(old(ring.procs), k)
      ensures old(ring.procs)[k].pid == t.pid && status == old(ring.procs)[k].exitCode % 256 * 256
    {
      assert Mirrored(ring.tasks, ring.procs, k) && Ordered(ring.procs[k], nextPid);
      StillOrdered(ring.procs, k, nextPid);
      status := t.exitCode % 256 * 256;
      StillHoldNothing(ring.tasks, k);
      CutOut(t, k);
    }

    /** Task k, whose table is empty, leaves ring and tables. */
    method CutOut(t: Task, ghost k: nat)
      requires Linked() && k < |ring.tasks| && ring.tasks[k] == t && Empty(t) && current != t
        && OrderedRing(Without(ring.procs, k), nextPid)
      modifies ring, ring.tasks`next, table`owners, table`tables
      ensures Linked() && ring.tasks == Without(old(ring.tasks), k) && ring.procs == Without(old(ring.procs), k)
    {
      ring.RemoveTask(t);
      table.Forget(t, k);
    }

    method Block()
      requires Linked() && current != null
      modifies ring`procs, current`state
      ensures Linked() && current.state == Blocked
      ensures var i := Find(old(ring.procs), current.pid);
        i < |old(ring.procs)| && ring.procs == old(ring.procs)[i := old(ring.procs)[i].(state := Blocked)]
    {
      Here();
      ghost var i := Find(ring.procs, current.pid);
      assert Ordered(current.Proc(), nextPid);
      current.state := Blocked;
      forall k | 0 <= k < |ring.tasks| && k != i ensures Mirrored(ring.tasks, ring.procs, k) {
        assert old(Mirrored(ring.tasks, ring.procs, k));
      }
      Refresh(i);
    }

    /** The fields of task i have changed, all but its pids. */
    ghost method Refresh(i: nat)
      requires ring.Cyclic() && |ring.procs| == |ring.tasks| && table.Valid() && table.owners == ring.tasks
      requires image.Length == WINDOW && nextPid > 0 && OrderedRing(ring.procs, nextPid)
      requires (current != null ==> current in ring.tasks) && i < |ring.tasks|
      requires var t := ring.tasks[i]; ring.procs[i].ppid == t.ppid && ring.procs[i].pid == t.pid && t.imgSize <= WINDOW
      requires forall k :: 0 <= k < |ring.tasks| && k != i ==> Mirrored(ring.tasks, ring.procs, k)
      modifies ring`procs
      ensures Linked() && ring.procs == old(ring.procs)[i := ring.tasks[i].Proc()]
    {
      SamePid(ring.procs, i, ring.tasks[i].Proc(), nextPid);
      ring.Note(i);
    }

    // ---- kill ---------------------------------------------------------------------------

    /** kill: -1 for no such task, nothing at all for signal 0, an exit for oneself. */
    method Kill(pid: nat, sig: nat, heap: seq<byte>) returns (r: int)
      requires Valid() && current != null && |heap| == WINDOW
      modifies ring`procs, ring.tasks`state, ring.tasks`exitCode, ring.tasks`ppid, current, image, table,
        table.files`refCount, table.pipes
      ensures Linked() && Abs() == ProcessSpec.Kill(old(Abs()), pid, sig, heap)
      ensures Harmless(old(Abs()), pid, sig) ==> Valid()
      ensures r == if Find(old(ring.procs), pid) == |old(ring.procs)| then -1 else 0
    {
      var target := ring.FindTask(pid);
      if target == null { return -1; }
      if sig != 0 { Strike(target, pid, sig, heap); }
      r := 0;
    }

    method Strike(target: Task, pid: nat, sig: nat, heap: seq<byte>)
      requires Valid() && current != null && |heap| == WINDOW && sig != 0
      requires Find(ring.procs, pid) < |ring.procs| && target == ring.tasks[Find(ring.procs, pid)]
      modifies ring`procs, ring.tasks`state, ring.tasks`exitCode, ring.tasks`ppid, current, image, table,
        table.files`refCount, table.pipes
      ensures Linked() && Abs() == ProcessSpec.Kill(old(Abs()), pid, sig, heap)
      ensures Harmless(old(Abs()), pid, sig) ==> Valid()
    {
      FindStays(pid);
      if target == current {
        TaskExit(128 + sig, heap);
      } else {
        MarkDead(target, sig, Find(ring.procs, pid));
      }
    }

    lemma FindStays(pid: nat)
      requires Linked() && current != null && Find(ring.procs, pid) < |ring.procs|
      ensures ring.tasks[Find(ring.procs, pid)] == current <==> pid == current.pid
    {
      Here();
      assert Mirrored(ring.tasks, ring.procs, Find(ring.procs, pid));
    }

    method MarkDead(t: Task, sig: nat, ghost i: nat)
      requires Valid() && i < |ring.tasks| && ring.tasks[i] == t
      modifies ring`procs, t`state, t`exitCode
      ensures Linked() && ring.procs ==
        old(ring.procs)[i := old(ring.procs)[i].(state := Zombie, exitCode := 128 + sig)]
      ensures old(ring.procs)[i].state == Zombie ==> Valid()
    {
      assert Mirrored(ring.tasks, ring.procs, i) && Ordered(ring.procs[i], nextPid);
      t.state, t.exitCode := Zombie, 128 + sig;
      forall k | 0 <= k < |ring.tasks| && k != i ensures Mirrored(ring.tasks, ring.procs, k) {
        assert old(Mirrored(ring.tasks, ring.procs, k)) && ring.tasks[k] != t;
      }
      Refresh(i);
    }
  }
}
