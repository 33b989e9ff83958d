/** What fork, exec, exit, kill, wait4 and schedule do to every task, told task by task, and
    what one call makes of another: an exit is reported once, to the parent. */
module ProcessLaws {
  import opened Basics
  import opened ProcessSpec
  import opened ProcessRuns

  // ---- wait4 --------------------------------------------------------------------------------

  /** A child of the current task that a wait for pid is about; -1 waits for any. */
  ghost predicate MyChild(s: Sys, pid: int, p: Proc) { p.ppid == s.cur && (pid == -1 || pid == p.pid) }

  /** Task k is the first dead one of these in ring order. */
  ghost predicate FirstDead(s: Sys, pid: int, k: nat) {
    && k < |s.ring| && MyChild(s, pid, s.ring[k]) && s.ring[k].state == Zombie
    && forall j :: 0 <= j < k ==> !(MyChild(s, pid, s.ring[j]) && s.ring[j].state == Zombie)
  }

  /** wait4 reaps exactly the first dead child awaited: its pid is the result, it leaves the
      ring, all other tasks stay as they are and in their order, and nothing else changes. */
  lemma WaitReaps(s: Sys, pid: int, noHang: bool, k: nat)
    requires FirstDead(s, pid, k)
    ensures var (r, t) := Wait4(s, pid, noHang);
      && r == s.ring[k].pid && t.cur == s.cur && t.nextPid == s.nextPid && t.image == s.image
      && t.ring == s.ring[..k] + s.ring[k + 1..]
  {
    var j := FirstZombie(s.ring, s.cur, pid, 0);
    assert Awaited(s.ring[k], s.cur, pid);
  }

  /** Without a dead child awaited nothing changes: -1 when there is no such child at all, 0
      when the caller does not want to wait, and otherwise -2. */
  lemma WaitFails(s: Sys, pid: int, noHang: bool)
    requires forall k: nat :: !FirstDead(s, pid, k)
    ensures var (r, t) := Wait4(s, pid, noHang);
      t == s && r == if forall p :: p in s.ring ==> !MyChild(s, pid, p) then -1 else if noHang then 0 else -2
  {
    var k := FirstZombie(s.ring, s.cur, pid, 0);
    if k < |s.ring| {
      assert FirstDead(s, pid, k) by {
        forall j | 0 <= j < k ensures !(MyChild(s, pid, s.ring[j]) && s.ring[j].state == Zombie) {
          assert !(Awaited(s.ring[j], s.cur, pid) && s.ring[j].state == Zombie);
        }
      }
    }
    if HasChild(s.ring, s.cur, pid) {
      var i :| 0 <= i < |s.ring| && Awaited(s.ring[i], s.cur, pid);
      assert s.ring[i] in s.ring && MyChild(s, pid, s.ring[i]);
    } else {
      forall p | p in s.ring ensures !MyChild(s, pid, p) {
        var i :| 0 <= i < |s.ring| && s.ring[i] == p;
        assert !Awaited(s.ring[i], s.cur, pid);
      }
    }
  }

  /** A task is reaped once: waiting for it again gives -1. */
  lemma WaitOnce(s: Sys, pid: int, noHang: bool, k: nat, again: bool)
    requires UniquePids(s.ring) && FirstDead(s, pid, k)
    ensures var (r, t) := Wait4(s, pid, noHang);
      (forall p :: p in t.ring ==> p.pid != r) && Wait4(t, r, again) == (-1, t)
  {
    WaitReaps(s, pid, noHang, k);
    var (r, t) := Wait4(s, pid, noHang);
    if 0 < |s.ring| { Gone(s.ring, k); }
    forall j: nat ensures !FirstDead(t, r, j) { if j < |t.ring| { assert t.ring[j] in t.ring; } }
    WaitFails(t, r, again);
  }

  lemma Gone(ring: seq<Proc>, k: nat)
    requires UniquePids(ring) && k < |ring|
    ensures forall p :: p in ring[..k] + ring[k + 1..] ==> p.pid != ring[k].pid
  {
    forall p | p in ring[..k] + ring[k + 1..] ensures p.pid != ring[k].pid {
      var i :| 0 <= i < |ring| && i != k && ring[i] == p;
    }
  }

  // ---- exit ---------------------------------------------------------------------------------

  /** What an exit of the current task makes of every task: it is dead, with its status; its
      children have its parent for a parent; its parent, if it was waiting, runs; nothing else. */
  lemma ExitEffects(s: Sys, status: int, heap: seq<byte>, i: nat)
    requires HasCurrent(s) && |heap| == |s.image| && UniquePids(s.ring) && i < |s.ring|
    ensures |TaskExit(s, status, heap).ring| == |s.ring|
    ensures var p, q, parent := s.ring[i], TaskExit(s, status, heap).ring[i], Cur(s).ppid;
      && q.pid == p.pid && q.imgSize == p.imgSize
      && q.ppid == (if p.ppid == s.cur then parent else p.ppid)
      && (p.pid == s.cur ==> q.state == Zombie && q.exitCode == status && q.snapshot == None)
      && (p.pid != s.cur ==> q.exitCode == p.exitCode && q.snapshot == p.snapshot)
      && (p.pid != s.cur ==>
            q.state == if p.pid == parent && parent != 0 && p.state == Blocked then Running else p.state)
  {
    TaskExitAt(s, status, heap);
    FindIs(s.ring, Find(s.ring, s.cur));
    if s.ring[i].pid == s.cur { FindIs(s.ring, i); }
  }

  /** A root task that exits is replaced by a fresh one with the next pid; after any other exit the
      tasks are the same as before. */
  lemma RootIsReplaced(s: Sys, status: int, heap: seq<byte>)
    requires HasCurrent(s) && |heap| == |s.image| && UniquePids(s.ring)
    ensures var t, n := Exit(s, status, heap), |s.ring|;
      && t.cur == s.cur && t.image == TaskExit(s, status, heap).image && |t.ring| >= n
      && t.ring[..n] == TaskExit(s, status, heap).ring
      && (Cur(s).ppid != 0 ==> |t.ring| == n && t.nextPid == s.nextPid)
      && (Cur(s).ppid == 0 ==>
            && |t.ring| == n + 1 && t.nextPid == s.nextPid + 1
            && t.ring[n] == Proc(s.nextPid, 0, Running, 0, 0, None))
  {
    TaskExitAt(s, status, heap);
  }

  /** After a child's exit its parent runs, and the parent's wait for it finds exactly the status it
      left with, once. */
  lemma ExitIsReported(s: Sys, c: seq<nat>, status: int, heap: seq<byte>, noHang: bool, again: bool)
    requires Inv(s, c) && |c| > 1 && |s.image| == WINDOW == |heap|
    ensures Enabled(s, DoExit(status, heap))
    ensures var t := Next(s, DoExit(status, heap));
      && t.cur == c[|c| - 2]
      && exists k: nat :: FirstDead(t, s.cur, k) && t.ring[k].pid == s.cur && t.ring[k].exitCode == status
    ensures var (r, u) := Wait4(Next(s, DoExit(status, heap)), s.cur, noHang);
      r == s.cur && Wait4(u, s.cur, again) == (-1, u)
  {
    var n := |c|;
    assert c[n - 1] == s.cur;
    ScheduleStays(s, c);
    assert OnChain(Cur(s), c) && Linked(Cur(s), c, n - 1);
    ExitKeeps(s, c, status, heap);
    ReadySchedules(Exit(s, status, heap), ExitChain(s, c));
    var t := Next(s, DoExit(status, heap));
    var k := Find(s.ring, s.cur);
    assert t.ring == TaskExit(s, status, heap).ring;
    ExitEffects(s, status, heap, k);
    NextKeeps(s, c, DoExit(status, heap));
    assert MyChild(t, s.cur, t.ring[k]);
    forall j | 0 <= j < k ensures t.ring[j].pid != s.cur { ExitEffects(s, status, heap, j); }
    assert FirstDead(t, s.cur, k);
    WaitReaps(t, s.cur, noHang, k);
    WaitOnce(t, s.cur, noHang, k, again);
  }

  // ---- fork, exec, kill, schedule -------------------------------------------------------------

  /** fork adds one task at the end of the ring, the caller's child with the next pid, ready to
      run and without an image of its own; the caller sleeps; nothing else changes. */
  lemma ForkEffects(s: Sys, i: nat)
    requires HasCurrent(s) && UniquePids(s.ring)
    ensures var t := Fork(s);
      && |t.ring| == |s.ring| + 1 && t.nextPid == s.nextPid + 1 && t.image == s.image && t.cur == s.cur
      && (i < |s.ring| ==>
            t.ring[i] == if s.ring[i].pid == s.cur then s.ring[i].(state := Blocked) else s.ring[i])
      && var child := t.ring[|s.ring|];
      && child.pid == s.nextPid && child.ppid == s.cur && child.state == Running
      && child.imgSize == 0 && child.exitCode == 0 && child.snapshot == None
  {
    if i < |s.ring| && s.ring[i].pid == s.cur { FindIs(s.ring, i); }
  }

  /** exec puts the program at the start of the window and changes nothing above it and no
      other task. What it keeps of the parent's image is in ImageRuns. */
  lemma ExecEffects(s: Sys, content: seq<byte>, i: nat, k: nat)
    requires HasCurrent(s) && UniquePids(s.ring) && |content| <= |s.image| == WINDOW
    requires i < |s.ring| && k < WINDOW
    ensures var t := Exec(s, content);
      && |t.ring| == |s.ring| && t.nextPid == s.nextPid && t.cur == s.cur && |t.image| == WINDOW
      && t.image[k] == (if k < |content| then content[k] else s.image[k])
      && (s.ring[i].pid != s.cur ==> t.ring[i] == s.ring[i])
      && (s.ring[i].pid == s.cur ==>
            t.ring[i].imgSize == |content|
              && t.ring[i].(imgSize := 0, snapshot := None) == s.ring[i].(imgSize := 0, snapshot := None))
  {
    if s.ring[i].pid == s.cur { FindIs(s.ring, i); }
  }

  /** A kill of somebody else: the target is dead with status 128 + sig, as a shell expects. */
  lemma KillEffects(s: Sys, pid: nat, sig: nat, heap: seq<byte>, i: nat)
    requires HasCurrent(s) && |heap| == |s.image| && UniquePids(s.ring) && pid != s.cur && i < |s.ring|
    ensures var t, p := Kill(s, pid, sig, heap), s.ring[i];
      && |t.ring| == |s.ring| && t.cur == s.cur && t.image == s.image && t.nextPid == s.nextPid
      && t.ring[i] == if p.pid == pid && sig != 0 then p.(state := Zombie, exitCode := 128 + sig) else p
  {
    if s.ring[i].pid == pid { FindIs(s.ring, i); }
  }

  /** schedule: the head of the ring at the very first call, then the first RUNNING task past
      the current one, going round, or the very next one when nobody runs. */
  lemma SchedulePicks(s: Sys, k: nat)
    requires s.ring != [] && (s.cur == 0 || HasCurrent(s))
    ensures Schedule(s) == s.(cur := Schedule(s).cur)
    ensures s.cur == 0 ==> Schedule(s).cur == s.ring[0].pid
    ensures s.cur != 0 ==> var i := Find(s.ring, s.cur);
      && (FirstAhead(s.ring, i, k) ==> Schedule(s).cur == s.ring[(i + k) % |s.ring|].pid)
      && ((forall p :: p in s.ring ==> p.state != Running) ==> Schedule(s).cur == s.ring[(i + 1) % |s.ring|].pid)
  {
    if s.cur != 0 {
      var i := Find(s.ring, s.cur);
      PicksFirst(s.ring, i);
      if forall p :: p in s.ring ==> p.state != Running {
        forall m: nat ensures !FirstAhead(s.ring, i, m) { }
      }
      AheadIsMod(|s.ring|, i, 1);
      if k <= |s.ring| { AheadIsMod(|s.ring|, i, k); }
    }
  }

  lemma AheadIsMod(n: nat, i: nat, k: nat)
    requires i < n && k <= n
    ensures Ahead(n, i, k) == (i + k) % n
  {
    if i + k >= n { assert (i + k - n) + n == i + k; }
  }
}
