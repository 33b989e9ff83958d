/** The ready queue: a circular singly linked list of tasks entered through its last element. */
module TaskRing {
  import opened Basics
  import opened ProcessSpec
  import opened Tasks

  ghost predicate LinkedAt(tasks: seq<Task>, i: nat)
    requires i < |tasks|
    reads tasks`next
  {
    tasks[i].next == tasks[if i + 1 == |tasks| then 0 else i + 1]
  }

  ghost predicate Mirrored(tasks: seq<Task>, procs: seq<Proc>, i: nat)
    requires i < |tasks| == |procs|
    reads tasks`ppid, tasks`state, tasks`exitCode, tasks`imgSize, tasks`snapshot
  {
    tasks[i].Proc() == procs[i]
  }

  class Ring {
    var readyQueue: Task?
    ghost var tasks: seq<Task>   // head first
    ghost var procs: seq<Proc>   // their values

    ghost predicate Cyclic()
      reads this, tasks`next
    {
      && Distinct(tasks) && (readyQueue == null <==> tasks == [])
      && (tasks != [] ==> readyQueue == tasks[|tasks| - 1])
      && forall i :: 0 <= i < |tasks| ==> LinkedAt(tasks, i)
    }

    ghost predicate Valid()
      reads this, tasks`next, tasks`ppid, tasks`state, tasks`exitCode, tasks`imgSize, tasks`snapshot
    {
      Cyclic() && |procs| == |tasks| && forall i :: 0 <= i < |tasks| ==> Mirrored(tasks, procs, i)
    }

    constructor ()
      ensures Valid() && tasks == []
    {
      readyQueue, tasks, procs := null, [], [];
    }

    method AddTask(t: Task)
      requires Valid() && t !in tasks
      modifies this, t`next, tasks`next
      ensures Valid() && tasks == old(tasks) + [t] && procs == old(procs) + [t.Proc()]
    {
      if readyQueue == null {
        readyQueue := t;
        t.next := t;
      } else {
        assert LinkedAt(tasks, |tasks| - 1);
        t.next := readyQueue.next;
        readyQueue.next := t;
        readyQueue := t;
      }
      tasks, procs := tasks + [t], procs + [t.Proc()];
      forall i | 0 <= i < |tasks| - 2 ensures LinkedAt(tasks, i) { assert old(LinkedAt(tasks, i)); }
      forall i | 0 <= i < |tasks| - 1 ensures Mirrored(tasks, procs, i) { assert old(Mirrored(tasks, procs, i)); }
    }

    /** A task in the list is cut out of it; any other is ignored. */
    method RemoveTask(target: Task)
      requires Valid()
      modifies this, tasks`next
      ensures Valid()
      ensures target !in old(tasks) ==> tasks == old(tasks) && procs == old(procs)
      ensures forall i :: 0 <= i < |old(tasks)| && old(tasks)[i] == target ==>
                tasks == Without(old(tasks), i) && procs == Without(old(procs), i)
    {
      if readyQueue == null { return; }
      assert LinkedAt(tasks, |tasks| - 1);
      if readyQueue.next == readyQueue && readyQueue == target {
        OnlyOne();
        readyQueue := null;
        tasks, procs := [], [];
        return;
      }
      var prev := readyQueue;
      ghost var i := 0;   // prev.next is tasks[i]
      while true
        invariant Valid() && tasks == old(tasks) && procs == old(procs) && readyQueue == old(readyQueue)
          && prev in tasks
        invariant unchanged(this, tasks) && i < |tasks| && prev == tasks[if i == 0 then |tasks| - 1 else i - 1]
        invariant forall k :: 0 <= k < i ==> tasks[k] != target
        decreases |tasks| - i
      {
        assert LinkedAt(tasks, if i == 0 then |tasks| - 1 else i - 1);
        if prev.next == target {
          CutOut(prev, target, i);
          return;
        }
        prev := prev.next;
        i := i + 1;
        if prev == readyQueue { break; }
      }
    }

    lemma OnlyOne()
      requires Valid() && tasks != [] && readyQueue.next == readyQueue
      ensures |tasks| == 1
    {
      assert LinkedAt(tasks, |tasks| - 1);
    }

    method CutOut(prev: Task, target: Task, ghost i: nat)
      requires Valid() && i < |tasks| && target == tasks[i] && prev == tasks[if i == 0 then |tasks| - 1 else i - 1]
      requires |tasks| > 1
      modifies this, prev`next
      ensures Valid() && tasks == Without(old(tasks), i) && procs == Without(old(procs), i)
    {
      ghost var ring, p := tasks, if i == 0 then |tasks| - 1 else i - 1;
      assert LinkedAt(tasks, i) && LinkedAt(tasks, p);
      prev.next := target.next;
      if readyQueue == target { readyQueue := prev; }
      tasks, procs := Without(tasks, i), Without(procs, i);
      forall k | 0 <= k < |tasks| ensures LinkedAt(tasks, k) {
        var j := if k < i then k else k + 1;
        assert tasks[k] == ring[j] && old(LinkedAt(tasks, j));
        if j == p { assert tasks[k] == prev; } else { assert ring[j] != ring[p]; }
      }
      forall k | 0 <= k < |tasks| ensures Mirrored(tasks, procs, k) {
        assert old(Mirrored(tasks, procs, if k < i then k else k + 1));
      }
    }

    /** A change of one task's state shows in its value alone. */
    ghost method Note(i: nat)
      requires Cyclic() && |procs| == |tasks| && i < |tasks|
      requires forall k :: 0 <= k < |tasks| && k != i ==> Mirrored(tasks, procs, k)
      modifies this`procs
      ensures Valid() && procs == old(procs)[i := tasks[i].Proc()]
    {
      procs := procs[i := tasks[i].Proc()];
      forall k | 0 <= k < |tasks| ensures Mirrored(tasks, procs, k) {
        if k != i { assert old(Mirrored(tasks, procs, k)); }
      }
    }

    method FindTask(pid: nat) returns (t: Task?)
      requires Valid()
      ensures t == null <==> Find(procs, pid) == |procs|
      ensures t != null ==> t == tasks[Find(procs, pid)]
    {
      if readyQueue == null { return null; }
      assert LinkedAt(tasks, |tasks| - 1);
      t := readyQueue.next;
      ghost var i := 0;
      while true
        invariant i < |tasks| && t == tasks[i] && forall k :: 0 <= k < i ==> procs[k].pid != pid
        decreases |tasks| - i
      {
        assert Mirrored(tasks, procs, i) && LinkedAt(tasks, i);
        if t.pid == pid { return; }
        t := t.next;
        i := i + 1;
        if t == readyQueue.next { return null; }
      }
    }

    /** The first blocked task with this pid wakes up. */
    method Wake(pid: nat)
      requires Valid()
      modifies this`procs, tasks`state
      ensures Valid() && procs == Unblock(old(procs), pid)
    {
      if readyQueue == null { return; }
      assert LinkedAt(tasks, |tasks| - 1);
      var t := readyQueue.next;
      ghost var i := 0;
      while true
        invariant Valid() && procs == old(procs) && unchanged(tasks)
        invariant i < |tasks| && t == tasks[i] && forall k :: 0 <= k < i ==> !Wakes(procs[k], pid)
        decreases |tasks| - i
      {
        assert Mirrored(tasks, procs, i) && LinkedAt(tasks, i);
        if t.pid == pid && t.state == Blocked {
          UnblockFirst(procs, pid, i);
          t.state := Running;
          forall k | 0 <= k < |tasks| && k != i ensures Mirrored(tasks, procs, k) {
            assert old(Mirrored(tasks, procs, k));
          }
          Note(i);
          return;
        }
        t := t.next;
        i := i + 1;
        if t == readyQueue.next { break; }
      }
      UnblockNone(procs, pid);
    }

    /** Children of one task pass to another. */
    method PassChildren(from: nat, to: nat)
      requires Valid()
      modifies this`procs, tasks`ppid
      ensures Valid() && procs == Reparent(old(procs), from, to)
    {
      if readyQueue == null { return; }
      assert LinkedAt(tasks, |tasks| - 1);
      var t := readyQueue.next;
      ghost var i := 0;
      while true
        invariant Valid() && |procs| == |old(procs)|
        invariant i < |tasks| && t == tasks[i]
        invariant procs == Reparent(old(procs)[..i], from, to) + old(procs)[i..]
        decreases |tasks| - i
      {
        PassOne(t, i, from, to);
        ReparentNext(old(procs), from, to, i);
        assert LinkedAt(tasks, i);
        t := t.next;
        i := i + 1;
        if t == readyQueue.next { break; }
      }
    }

    method PassOne(t: Task, ghost i: nat, from: nat, to: nat)
      requires Valid() && i < |tasks| && tasks[i] == t
      modifies this`procs, t`ppid
      ensures Valid() && procs == old(procs)[i := Adopted(old(procs)[i], from, to)]
    {
      assert Mirrored(tasks, procs, i);
      if t.ppid == from { t.ppid := to; }
      forall k | 0 <= k < |tasks| && k != i ensures Mirrored(tasks, procs, k) {
        assert old(Mirrored(tasks, procs, k)) && tasks[k] != t;
      }
      Note(i);
    }

    /** The task schedule turns to when cur gives way. */
    method NextRunning(cur: Task, ghost c: nat) returns (next: Task)
      requires Valid() && c < |tasks| && tasks[c] == cur
      ensures next == tasks[PickNext(procs, c)]
    {
      assert LinkedAt(tasks, c);
      next := cur.next;
      var start := next;
      ghost var n, k := |tasks|, 1;
      while true
        invariant 1 <= k <= n && next == tasks[Ahead(n, c, k)] && Distance(procs, c, 1) == Distance(procs, c, k)
        decreases n - k
      {
        assert Mirrored(tasks, procs, Ahead(n, c, k)) && LinkedAt(tasks, Ahead(n, c, k));
        if next.state == Running { break; }
        next := next.next;
        AheadNext(n, c, k);
        if next == start { break; }
        k := k + 1;
      }
    }

    /** Is there an awaited child, and the first dead one if there is. */
    method ScanChildren(parent: nat, pid: int) returns (has: bool, found: Task?)
      requires Valid()
      ensures has <==> HasChild(procs, parent, pid)
      ensures var k := FirstZombie(procs, parent, pid, 0); if k < |procs| then found == tasks[k] else found == null
    {
      has, found := false, null;
      if readyQueue == null { return; }
      assert LinkedAt(tasks, |tasks| - 1);
      var t := readyQueue.next;
      ghost var i := 0;
      while true
        invariant i < |tasks| && t == tasks[i] && found == null
        invariant has <==> exists k :: 0 <= k < i && Awaited(procs[k], parent, pid)
        invariant FirstZombie(procs, parent, pid, 0) == FirstZombie(procs, parent, pid, i)
        decreases |tasks| - i
      {
        assert Mirrored(tasks, procs, i) && LinkedAt(tasks, i);
        if t.ppid == parent && (pid == -1 || pid == t.pid) {
          has := true;
          assert Awaited(procs[i], parent, pid);
          if t.state == Zombie {
            found := t;
            return;
          }
        }
        t := t.next;
        i := i + 1;
        if t == readyQueue.next { break; }
      }
    }
  }

  ghost predicate Wakes(p: Proc, pid: nat) { p.pid == pid && p.state == Blocked }

  lemma {:induction false} UnblockFirst(ring: seq<Proc>, pid: nat, i: nat)
    requires i < |ring| && Wakes(ring[i], pid) && forall k :: 0 <= k < i ==> !Wakes(ring[k], pid)
    ensures Unblock(ring, pid) == ring[i := ring[i].(state := Running)]
  {
    if i > 0 {
      assert !Wakes(ring[0], pid);
      UnblockFirst(ring[1..], pid, i - 1);
    }
  }

  lemma {:induction false} UnblockNone(ring: seq<Proc>, pid: nat)
    requires forall k :: 0 <= k < |ring| ==> !Wakes(ring[k], pid)
    ensures Unblock(ring, pid) == ring
  {
    if ring != [] {
      assert !Wakes(ring[0], pid);
      UnblockNone(ring[1..], pid);
    }
  }

  lemma ReparentNext(ring: seq<Proc>, from: nat, to: nat, i: nat)
    requires i < |ring|
    ensures (Reparent(ring[..i], from, to) + ring[i..])[i := Adopted(ring[i], from, to)] ==
      Reparent(ring[..i + 1], from, to) + ring[i + 1..]
    ensures Reparent(ring[..|ring|], from, to) + ring[|ring|..] == Reparent(ring, from, to)
  {
    assert ring[..|ring|] == ring;
  }

  lemma AheadNext(n: nat, c: nat, k: nat)
    requires c < n && 1 <= k <= n
    ensures var next := if Ahead(n, c, k) + 1 == n then 0 else Ahead(n, c, k) + 1;
      if k < n then next == Ahead(n, c, k + 1) && next != Ahead(n, c, 1) else next == Ahead(n, c, 1)
  {
  }
}
