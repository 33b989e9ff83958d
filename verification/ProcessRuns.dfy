/** Whole runs of the process life cycle: the parent chain in every reachable state, what the
    kill system call does to it, and the shared user image coming back at every exit. */
module ProcessRuns {
  import opened Basics
  import opened ProcessSpec

  datatype Step =
    | DoFork
    | DoExec(content: seq<byte>)
    | DoWrite(at: nat, b: byte)
    | DoExit(status: int, heap: seq<byte>)
    | DoKill(target: nat, sig: nat, heap: seq<byte>)
    | DoWait(pid: int, noHang: bool)
    | DoTick

  /** What can happen next. A kill is part of a run when it is harmless; KillExactly says that
      no other one can be. */
  ghost predicate Enabled(s: Sys, step: Step) {
    && HasCurrent(s) && |s.image| == WINDOW
    && match step
       case DoExec(content) => |content| <= WINDOW
       case DoWrite(at, _) => at < WINDOW
       case DoExit(_, heap) => |heap| == WINDOW
       case DoKill(pid, sig, heap) => |heap| == WINDOW && Harmless(s, pid, sig)
       case _ => true
  }

  /** The system call dispatcher: leave a dead task at once, run a new child first, retry
      wait4 after giving up the processor. */
  ghost function Next(s: Sys, step: Step): Sys
    requires Enabled(s, step)
  {
    match step
    case DoFork => Resched(Fork(s))
    case DoExec(content) => Exec(s, content)
    case DoWrite(at, b) => Write(s, at, b)
    case DoExit(status, heap) => Resched(Exit(s, status, heap))
    case DoKill(pid, sig, heap) => LeaveDead(Kill(s, pid, sig, heap))
    case DoWait(pid, noHang) => var (r, t) := Wait4(s, pid, noHang); if r == -2 then Resched(t) else t
    case DoTick => Resched(s)
  }

  /** The frame of a dead current task is left at once. */
  ghost function LeaveDead(s: Sys): Sys { if HasCurrent(s) && Cur(s).state == Zombie then Resched(s) else s }

  /** The current task kills itself. */
  predicate Dies(s: Sys, pid: nat, sig: nat) { sig != 0 && pid == s.cur }

  ghost function Resched(s: Sys): Sys { if s.cur == 0 || HasCurrent(s) then Schedule(s) else s }

  ghost function NextChain(s: Sys, c: seq<nat>, step: Step): seq<nat>
    requires c != []
  {
    match step
    case DoFork => c + [s.nextPid]
    case DoExit(_, _) => ExitChain(s, c)
    case DoKill(pid, sig, _) => if Dies(s, pid, sig) then ExitChain(s, c) else c
    case _ => c
  }

  lemma ExecKeepsRing(s: Sys, content: seq<byte>, c: seq<nat>)
    requires Inv(s, c) && HasCurrent(s) && |s.image| == WINDOW && |content| <= WINDOW
    ensures Inv(Exec(s, content), c)
  {
    var t := Exec(s, content);
    forall k | 0 <= k < |c| ensures Find(t.ring, c[k]) < |t.ring| { StillThere(s.ring, t.ring, c[k]); }
    forall m | 0 <= m < |t.ring| ensures OnChain(t.ring[m], c) {
      assert OnChain(s.ring[m], c);
      forall k: nat | k < |c| ensures Linked(t.ring[m], c, k) { assert Linked(s.ring[m], c, k); }
    }
  }

  lemma RootIsAlone(s: Sys, c: seq<nat>)
    requires Inv(s, c)
    ensures HasCurrent(s) && (Cur(s).ppid == 0 <==> |c| == 1)
  {
    assert c[|c| - 1] == s.cur;
    assert OnChain(Cur(s), c) && Linked(Cur(s), c, |c| - 1);
  }

  ghost predicate ChainFollows(s: Sys, c: seq<nat>, step: Step)
    requires c != [] && Enabled(s, step)
  {
    Inv(Next(s, step), NextChain(s, c, step))
  }

  lemma ForkStep(s: Sys, c: seq<nat>)
    requires Inv(s, c) && Enabled(s, DoFork)
    ensures ChainFollows(s, c, DoFork)
  {
    ForkKeeps(s, c);
    ReadySchedules(Fork(s), c + [s.nextPid]);
  }

  lemma ExecStep(s: Sys, c: seq<nat>, content: seq<byte>)
    requires Inv(s, c) && Enabled(s, DoExec(content))
    ensures ChainFollows(s, c, DoExec(content))
  {
    ExecKeepsRing(s, content, c);
  }

  lemma WriteStep(s: Sys, c: seq<nat>, at: nat, b: byte)
    requires Inv(s, c) && Enabled(s, DoWrite(at, b))
    ensures ChainFollows(s, c, DoWrite(at, b))
  {
    ImageIrrelevant(s, Write(s, at, b).image, c);
  }

  lemma ExitStep(s: Sys, c: seq<nat>, status: int, heap: seq<byte>)
    requires Inv(s, c) && Enabled(s, DoExit(status, heap))
    ensures ChainFollows(s, c, DoExit(status, heap))
  {
    ExitKeeps(s, c, status, heap);
    ReadySchedules(Exit(s, status, heap), ExitChain(s, c));
  }

  /** A task with a parent that kills itself exits with status 128 + sig. */
  lemma KillIsExit(s: Sys, pid: nat, sig: nat, heap: seq<byte>)
    requires Enabled(s, DoKill(pid, sig, heap)) && UniquePids(s.ring) && Dies(s, pid, sig)
    ensures Enabled(s, DoExit(128 + sig, heap)) && Next(s, DoKill(pid, sig, heap)) == Next(s, DoExit(128 + sig, heap))
  {
    ExitedIsDead(s, 128 + sig, heap);
  }

  lemma ExitedIsDead(s: Sys, status: int, heap: seq<byte>)
    requires HasCurrent(s) && |heap| == |s.image| && UniquePids(s.ring)
    ensures var t := TaskExit(s, status, heap); HasCurrent(t) && Cur(t).state == Zombie
  {
    TaskExitAt(s, status, heap);
    var t := TaskExit(s, status, heap);
    var i := Find(s.ring, s.cur);
    assert Exited(s, t.ring, Cur(s).ppid, status);
    ExitedPids(s, t.ring, Cur(s).ppid, status);
    FindIs(t.ring, i);
  }

  lemma DyingStep(s: Sys, c: seq<nat>, pid: nat, sig: nat, heap: seq<byte>)
    requires Inv(s, c) && Enabled(s, DoKill(pid, sig, heap)) && Dies(s, pid, sig)
    ensures ChainFollows(s, c, DoKill(pid, sig, heap))
  {
    KillIsExit(s, pid, sig, heap);
    ExitStep(s, c, 128 + sig, heap);
  }

  lemma SparingStep(s: Sys, c: seq<nat>, pid: nat, sig: nat, heap: seq<byte>)
    requires Inv(s, c) && Enabled(s, DoKill(pid, sig, heap)) && !Dies(s, pid, sig)
    ensures ChainFollows(s, c, DoKill(pid, sig, heap)) && Next(s, DoKill(pid, sig, heap)) == Kill(s, pid, sig, heap)
  {
    KillKeeps(s, c, pid, sig, heap);
    ScheduleStays(Kill(s, pid, sig, heap), c);
  }

  lemma KillStep(s: Sys, c: seq<nat>, pid: nat, sig: nat, heap: seq<byte>)
    requires Inv(s, c) && Enabled(s, DoKill(pid, sig, heap))
    ensures ChainFollows(s, c, DoKill(pid, sig, heap))
  {
    if Dies(s, pid, sig) { DyingStep(s, c, pid, sig, heap); } else { SparingStep(s, c, pid, sig, heap); }
  }

  /** A harmless kill of anybody else at most changes a zombie's status. */
  lemma KillKeeps(s: Sys, c: seq<nat>, pid: nat, sig: nat, heap: seq<byte>)
    requires Inv(s, c) && HasCurrent(s) && |heap| == |s.image| && Harmless(s, pid, sig) && !Dies(s, pid, sig)
    ensures Inv(Kill(s, pid, sig, heap), c)
  {
    if Find(s.ring, pid) < |s.ring| && sig != 0 { KillZombie(s, c, pid, sig); }
  }

  lemma WaitStep(s: Sys, c: seq<nat>, pid: int, noHang: bool)
    requires Inv(s, c) && Enabled(s, DoWait(pid, noHang))
    ensures ChainFollows(s, c, DoWait(pid, noHang))
  {
    WaitKeeps(s, c, pid, noHang);
  }

  lemma TickStep(s: Sys, c: seq<nat>)
    requires Inv(s, c) && Enabled(s, DoTick)
    ensures ChainFollows(s, c, DoTick)
  {
    ScheduleStays(s, c);
  }

  /** Every step keeps the parent chain. */
  lemma NextKeeps(s: Sys, c: seq<nat>, step: Step)
    requires Inv(s, c) && Enabled(s, step)
    ensures ChainFollows(s, c, step)
  {
    match step
    case DoFork => ForkStep(s, c);
    case DoExec(content) => ExecStep(s, c, content);
    case DoWrite(at, b) => WriteStep(s, c, at, b);
    case DoExit(status, heap) => ExitStep(s, c, status, heap);
    case DoKill(pid, sig, heap) => KillStep(s, c, pid, sig, heap);
    case DoWait(pid, noHang) => WaitStep(s, c, pid, noHang);
    case DoTick => TickStep(s, c);
  }

  /** A run: every step enabled where it is taken. */
  ghost predicate Enables(s: Sys, steps: seq<Step>)
    decreases |steps|
  {
    steps == [] || (Enabled(s, steps[0]) && Enables(Next(s, steps[0]), steps[1..]))
  }

  ghost function Run(s: Sys, steps: seq<Step>): Sys
    requires Enables(s, steps)
    decreases |steps|
  {
    if steps == [] then s else Run(Next(s, steps[0]), steps[1..])
  }

  ghost function RunChain(s: Sys, c: seq<nat>, steps: seq<Step>): seq<nat>
    requires Enables(s, steps)
    decreases |steps|
  {
    if steps == [] || c == [] then c else RunChain(Next(s, steps[0]), NextChain(s, c, steps[0]), steps[1..])
  }

  /** In every reachable state the live tasks form one parent chain ending in the current,
      only runnable one. */
  lemma {:induction false} RunKeeps(s: Sys, c: seq<nat>, steps: seq<Step>)
    requires Inv(s, c) && Enables(s, steps)
    ensures Inv(Run(s, steps), RunChain(s, c, steps))
    decreases |steps|
  {
    if steps != [] {
      NextKeeps(s, c, steps[0]);
      RunKeeps(Next(s, steps[0]), NextChain(s, c, steps[0]), steps[1..]);
    }
  }

  /** The state right after boot and the first timer tick. */
  lemma BootGood(image: seq<byte>)
    requires |image| == WINDOW
    ensures Inv(Schedule(Sys([Proc(1, 0, Running, 0, 0, None)], 0, 2, image)), [1])
  {
    var p := Proc(1, 0, Running, 0, 0, None);
    assert Linked(p, [1], 0);
  }

  // ---- kill ----------------------------------------------------------------------------

  /** Some chain makes this a good state once schedule has chosen. */
  ghost predicate Recovers(t: Sys) { exists d :: Ready(t, d) }

  /** A kill can be recovered from exactly when it is harmless: no such task, signal 0, a dead
      target, or oneself with a parent to wake. A killed ancestor leaves its child without a
      parent that can be woken, and a root task killing itself leaves nothing to run. */
  lemma KillExactly(s: Sys, c: seq<nat>, pid: nat, sig: nat, heap: seq<byte>)
    requires Inv(s, c) && |heap| == |s.image|
    ensures HasCurrent(s)
    ensures Recovers(Kill(s, pid, sig, heap)) <==> Harmless(s, pid, sig)
  {
    RootIsAlone(s, c);
    if Find(s.ring, pid) == |s.ring| || sig == 0 {
      assert Ready(s, c);
    } else if pid == s.cur {
      KillSelf(s, c, sig, heap);
    } else if s.ring[Find(s.ring, pid)].state == Zombie {
      KillZombie(s, c, pid, sig);
      StillThere(s.ring, KillOther(s, pid, sig).ring, s.cur);
      assert Ready(KillOther(s, pid, sig), c);
    } else {
      forall d ensures !Ready(KillOther(s, pid, sig), d) { KillAncestor(s, c, pid, sig, d); }
    }
  }

  lemma KillSelf(s: Sys, c: seq<nat>, sig: nat, heap: seq<byte>)
    requires Inv(s, c) && |heap| == |s.image|
    ensures HasCurrent(s)
    ensures Recovers(TaskExit(s, 128 + sig, heap)) <==> Cur(s).ppid != 0
  {
    RootIsAlone(s, c);
    if |c| > 1 { ExitChild(s, c, 128 + sig, heap); } else { RootDead(s, c, sig, heap); }
  }

  lemma KillZombie(s: Sys, c: seq<nat>, pid: nat, sig: nat)
    requires Inv(s, c) && Find(s.ring, pid) < |s.ring| && s.ring[Find(s.ring, pid)].state == Zombie
    ensures Inv(KillOther(s, pid, sig), c)
  {
    SameShape(s, KillOther(s, pid, sig).ring, c);
  }

  /** p and q differ at most in a zombie's exit status. */
  ghost predicate SameButStatus(p: Proc, q: Proc) { q == p || (p.state == Zombie && q == p.(exitCode := q.exitCode)) }

  lemma SameShape(s: Sys, t: seq<Proc>, c: seq<nat>)
    requires Inv(s, c) && |t| == |s.ring| && forall m :: 0 <= m < |t| ==> SameButStatus(s.ring[m], t[m])
    ensures Inv(s.(ring := t), c)
  {
    assert forall m :: 0 <= m < |t| ==> SameButStatus(s.ring[m], t[m]) && t[m].pid == s.ring[m].pid;
    forall k | 0 <= k < |c| ensures Find(t, c[k]) < |t| { StillThere(s.ring, t, c[k]); }
    forall m | 0 <= m < |t| ensures OnChain(t[m], c) { StillOffChain(s.ring[m], t[m], c); }
  }

  lemma StillOffChain(p: Proc, q: Proc, c: seq<nat>)
    requires OnChain(p, c) && SameButStatus(p, q)
    ensures OnChain(q, c)
  {
    forall k: nat | k < |c| ensures Linked(q, c, k) { assert Linked(p, c, k); }
  }

  lemma KillAncestor(s: Sys, c: seq<nat>, pid: nat, sig: nat, d: seq<nat>)
    requires Inv(s, c) && pid != s.cur && Find(s.ring, pid) < |s.ring| && s.ring[Find(s.ring, pid)].state != Zombie
    ensures !Ready(KillOther(s, pid, sig), d)
  {
    var t := KillOther(s, pid, sig);
    var i := Find(s.ring, pid);
    assert OnChain(s.ring[i], c);
    var k :| 0 <= k < |c| && c[k] == pid;
    assert k != |c| - 1;
    var j := Find(s.ring, c[k + 1]);
    assert OnChain(s.ring[j], c) && Linked(s.ring[j], c, k + 1);
    if Ready(t, d) { Orphan(t.(cur := d[|d| - 1]), d, i, j); }
  }

  /** In a good state no live task has a dead parent. */
  lemma Orphan(t: Sys, d: seq<nat>, i: nat, j: nat)
    requires Inv(t, d) && i < |t.ring| && j < |t.ring|
    requires t.ring[j].state != Zombie && t.ring[j].ppid == t.ring[i].pid
    ensures t.ring[i].state != Zombie
  {
    var p := t.ring[j];
    assert OnChain(p, d) && OnChain(t.ring[i], d);
    var k :| 0 <= k < |d| && d[k] == p.pid;
    assert Linked(p, d, k);
  }

  lemma HasLive(t: Sys, d: seq<nat>)
    requires Ready(t, d)
    ensures exists p :: p in t.ring && p.state != Zombie
  {
    var i := Find(t.ring, d[0]);
    assert OnChain(t.ring[i], d);
  }

  lemma RootDead(s: Sys, c: seq<nat>, sig: nat, heap: seq<byte>)
    requires Inv(s, c) && |heap| == |s.image| && |c| == 1
    ensures HasCurrent(s) && !Recovers(TaskExit(s, 128 + sig, heap))
  {
    RootIsAlone(s, c);
    TaskExitAt(s, 128 + sig, heap);
    var t := TaskExit(s, 128 + sig, heap);
    forall i | 0 <= i < |t.ring| ensures t.ring[i].state == Zombie {
      assert OnChain(s.ring[i], c);
    }
    if Recovers(t) {
      var d :| Ready(t, d);
      HasLive(t, d);
    }
  }

  /** After its parent was killed, an exiting task wakes nobody: the machine stops. */
  lemma KilledParentStrands(s: Sys, c: seq<nat>, sig: nat, status: int, heap: seq<byte>)
    requires Inv(s, c) && |c| > 1 && |heap| == |s.image| && sig != 0
    ensures HasCurrent(s)
    ensures var k := Kill(s, c[|c| - 2], sig, heap);
      HasCurrent(k) && forall p :: p in TaskExit(k, status, heap).ring ==> p.state != Running
  {
    var n := |c|;
    assert c[n - 1] == s.cur && c[n - 2] < c[n - 1];
    ParentKilled(s, c, sig);
    var k := KillOther(s, c[n - 2], sig);
    TaskExitAt(k, status, heap);
    var t := TaskExit(k, status, heap);
    forall i | 0 <= i < |t.ring| ensures t.ring[i].state != Running {
      OnlyCurrentRuns(s, c, i);
      if s.ring[i].pid == c[n - 2] { FindIs(s.ring, i); }
    }
  }

  lemma ParentKilled(s: Sys, c: seq<nat>, sig: nat)
    requires Inv(s, c) && |c| > 1
    ensures HasCurrent(s) && Cur(s).ppid == c[|c| - 2] > 0 && Find(s.ring, c[|c| - 2]) < |s.ring|
    ensures var k := KillOther(s, c[|c| - 2], sig); HasCurrent(k) && UniquePids(k.ring) && Cur(k) == Cur(s)
  {
    var n := |c|;
    assert c[n - 1] == s.cur && c[n - 2] < c[n - 1];
    var k := KillOther(s, c[n - 2], sig);
    StillThere(s.ring, k.ring, s.cur);
    assert OnChain(Cur(s), c) && Linked(Cur(s), c, n - 1);
    FindIs(k.ring, Find(s.ring, s.cur));
  }
}
