/** The one user image over whole runs: who saves what, what comes back when a task exits, and
    exactly which sizes along the chain lose a parent's bytes. */
module ImageRuns {
  import opened Basics
  import opened ProcessSpec
  import opened ProcessRuns

  /** Image size and saved parent image of each task on the chain. */
  datatype Level = Level(size: nat, snap: Option<seq<byte>>)

  function LevelOf(ring: seq<Proc>, pid: nat): Level {
    var i := Find(ring, pid);
    if i < |ring| then Level(ring[i].imgSize, ring[i].snapshot) else Level(0, None)
  }

  function Levels(ring: seq<Proc>, c: seq<nat>): seq<Level> {
    seq(|c|, k requires 0 <= k < |c| => LevelOf(ring, c[k]))
  }

  // ---- what steps do to levels and image ------------------------------------------------------

  datatype Effect = Forks | Execs(content: seq<byte>) | Writes(at: nat, b: byte) | Exits(heap: seq<byte>) | Nothing

  function EffectOf(s: Sys, step: Step): Effect {
    match step
    case DoFork => Forks
    case DoExec(content) => Execs(content)
    case DoWrite(at, b) => Writes(at, b)
    case DoExit(_, heap) => Exits(heap)
    case DoKill(pid, sig, heap) => if Dies(s, pid, sig) then Exits(heap) else Nothing
    case _ => Nothing
  }

  ghost predicate Fits(e: Effect) {
    match e
    case Execs(content) => |content| <= WINDOW
    case Writes(at, _) => at < WINDOW
    case Exits(heap) => |heap| == WINDOW
    case _ => true
  }

  /** What exec makes of the last level: its first exec saves the parent's image, a later one
      keeps what was saved. */
  function ExecLevel(image: seq<byte>, lv: seq<Level>, n: nat): Level
    requires lv != [] && |image| == WINDOW
  {
    var k := |lv| - 1;
    if lv[k].snap == None && k > 0 && lv[k - 1].size <= WINDOW then Level(n, Some(image[..lv[k - 1].size]))
      else Level(n, lv[k].snap)
  }

  function NextLevels(image: seq<byte>, lv: seq<Level>, e: Effect): seq<Level>
    requires lv != [] && |image| == WINDOW
  {
    match e
    case Forks => lv + [Level(0, None)]
    case Execs(content) => lv[|lv| - 1 := ExecLevel(image, lv, |content|)]
    case Exits(_) => if |lv| > 1 then lv[..|lv| - 1] else [Level(0, None)]
    case _ => lv
  }

  function NextImage(image: seq<byte>, lv: seq<Level>, e: Effect): (r: seq<byte>)
    requires lv != [] && |image| == WINDOW && Fits(e)
    ensures |r| == WINDOW
  {
    match e
    case Execs(content) => content + image[|content|..]
    case Writes(at, b) => image[at := b]
    case Exits(heap) =>
      var last := lv[|lv| - 1];
      if last.snap.Some? then Restored(image, last.snap.value, last.size, heap) else image
    case _ => image
  }

  /** A level that has exec'd under a parent has saved exactly the parent's image; one that has
      not is the last. */
  ghost predicate LevelOk(lv: seq<Level>, k: nat)
    requires k < |lv|
  {
    && lv[k].size <= WINDOW
    && (lv[k].size == 0 ==> k == |lv| - 1 && lv[k].snap == None)
    && (k == 0 ==> lv[k].snap == None)
    && (k > 0 && lv[k].size > 0 ==> lv[k].snap.Some? && |lv[k].snap.value| == lv[k - 1].size)
  }

  ghost predicate LevelsOk(lv: seq<Level>) { lv != [] && forall k: nat :: k < |lv| ==> LevelOk(lv, k) }

  /** How far the current task may write: its own image, or, before it execs, its parent's. */
  function WriteLimit(lv: seq<Level>): nat
    requires lv != []
  {
    var n := |lv|;
    if lv[n - 1].size > 0 then lv[n - 1].size else if n > 1 then lv[n - 2].size else WINDOW
  }

  /** The discipline the shared image needs: fork only after exec, and write only inside what
      one owns. Sizes are free, and so is the number of execs. */
  ghost predicate Allowed(lv: seq<Level>, e: Effect)
    requires lv != []
  {
    match e
    case Forks => lv[|lv| - 1].size > 0
    case Execs(content) => 0 < |content|
    case Writes(at, _) => at < WriteLimit(lv)
    case _ => true
  }

  lemma LevelsKeep(image: seq<byte>, lv: seq<Level>, e: Effect)
    requires LevelsOk(lv) && |image| == WINDOW && Fits(e) && Allowed(lv, e)
    ensures LevelsOk(NextLevels(image, lv, e))
  {
    var t := NextLevels(image, lv, e);
    assert LevelOk(lv, |lv| - 1) && (|lv| > 1 ==> LevelOk(lv, |lv| - 2));
    forall k: nat | k < |t| ensures LevelOk(t, k) {
      if k < |lv| { assert LevelOk(lv, k); }
      if 0 < k <= |lv| { assert LevelOk(lv, k - 1); }
    }
  }

  // ---- levels follow the steps ----------------------------------------------------------------

  lemma LevelKept(r: seq<Proc>, t: seq<Proc>, pid: nat)
    requires UniquePids(t) && |r| <= |t| && Find(r, pid) < |r|
    requires forall i :: 0 <= i < |r| ==> t[i].pid == r[i].pid
    requires var i := Find(r, pid); t[i].imgSize == r[i].imgSize && t[i].snapshot == r[i].snapshot
    ensures LevelOf(t, pid) == LevelOf(r, pid)
  {
    FindIs(t, Find(r, pid));
  }

  lemma ForkLevelsAre(s: Sys, c: seq<nat>)
    requires Inv(s, c) && HasCurrent(s)
    ensures Levels(Fork(s).ring, c + [s.nextPid]) == Levels(s.ring, c) + [Level(0, None)]
  {
    var t, d := Fork(s), c + [s.nextPid];
    ForkKeeps(s, c);
    FindIs(t.ring, |s.ring|);
    forall k | 0 <= k < |c| ensures LevelOf(t.ring, d[k]) == LevelOf(s.ring, c[k]) { LevelKept(s.ring, t.ring, c[k]); }
  }

  lemma ExitLevelAt(s: Sys, t: seq<Proc>, ppid: nat, status: int, pid: nat)
    requires UniquePids(s.ring) && Exited(s, t, ppid, status) && pid != s.cur && Find(s.ring, pid) < |s.ring|
    ensures LevelOf(t, pid) == LevelOf(s.ring, pid)
  {
    ExitedPids(s, t, ppid, status);
    var i := Find(s.ring, pid);
    assert t[i] == AfterExit(s.ring[i], s.cur, ppid, status);
    LevelKept(s.ring, t, pid);
  }

  lemma ExitLevelsAre(s: Sys, c: seq<nat>, status: int, heap: seq<byte>)
    requires Inv(s, c) && HasCurrent(s) && |c| > 1 && |heap| == |s.image|
    ensures Levels(TaskExit(s, status, heap).ring, c[..|c| - 1]) == Levels(s.ring, c)[..|c| - 1]
  {
    var t := TaskExit(s, status, heap);
    TaskExitAt(s, status, heap);
    assert Exited(s, t.ring, Cur(s).ppid, status);
    forall k | 0 <= k < |c| - 1 ensures LevelOf(t.ring, c[k]) == LevelOf(s.ring, c[k]) {
      assert c[k] < c[|c| - 1] == s.cur;
      ExitLevelAt(s, t.ring, Cur(s).ppid, status, c[k]);
    }
  }

  lemma RootLevelsAre(s: Sys, c: seq<nat>, status: int, heap: seq<byte>)
    requires Inv(s, c) && HasCurrent(s) && |c| == 1 && |heap| == |s.image|
    ensures Levels(Respawn(TaskExit(s, status, heap)).ring, [s.nextPid]) == [Level(0, None)]
  {
    ExitRoot(s, c, status, heap);
    var t := Respawn(TaskExit(s, status, heap));
    FindIs(t.ring, |t.ring| - 1);
  }

  lemma WaitLevelsAre(s: Sys, c: seq<nat>, pid: int, noHang: bool)
    requires Inv(s, c)
    ensures Levels(Wait4(s, pid, noHang).1.ring, c) == Levels(s.ring, c) && Wait4(s, pid, noHang).1.image == s.image
  {
    var k := FirstZombie(s.ring, s.cur, pid, 0);
    if HasChild(s.ring, s.cur, pid) && k < |s.ring| {
      RemoveKeeps(s, c, k);
      var r := s.ring[..k] + s.ring[k + 1..];
      assert OnChain(s.ring[k], c);
      forall l | 0 <= l < |c| ensures LevelOf(r, c[l]) == LevelOf(s.ring, c[l]) {
        assert Find(s.ring, c[l]) != k;
        LevelWithout(s.ring, k, c[l]);
      }
    }
  }

  lemma LevelWithout(ring: seq<Proc>, k: nat, pid: nat)
    requires k < |ring| && Find(ring, pid) < |ring| && Find(ring, pid) != k && UniquePids(ring[..k] + ring[k + 1..])
    ensures LevelOf(ring[..k] + ring[k + 1..], pid) == LevelOf(ring, pid)
  {
    var r, m := ring[..k] + ring[k + 1..], Find(ring, pid);
    var n := if m < k then m else m - 1;
    assert r[n] == ring[m];
    FindIs(r, n);
  }

  lemma ExecedParent(s: Sys, c: seq<nat>)
    requires Inv(s, c) && HasCurrent(s)
    ensures Cur(s).ppid == if |c| > 1 then c[|c| - 2] else 0
    ensures |c| > 1 ==> c[|c| - 2] > 0 && Find(s.ring, c[|c| - 2]) < |s.ring|
  {
    assert c[|c| - 1] == s.cur;
    assert OnChain(Cur(s), c) && Linked(Cur(s), c, |c| - 1);
  }

  lemma SavedIs(s: Sys, c: seq<nat>, n: nat)
    requires Inv(s, c) && HasCurrent(s) && |s.image| == WINDOW && LevelsOk(Levels(s.ring, c))
    ensures Level(n, Saved(s)) == ExecLevel(s.image, Levels(s.ring, c), n)
  {
    var k, lv := |c| - 1, Levels(s.ring, c);
    LastIsCurrent(s, c);
    ExecedParent(s, c);
    if k > 0 {
      assert LevelOk(lv, k - 1) && lv[k - 1] == LevelOf(s.ring, c[k - 1]);
      SavesParent(s, c[k - 1], lv[k - 1].size);
    } else {
      SavesNothing(s);
    }
  }

  lemma SavesParent(s: Sys, ppid: nat, size: nat)
    requires HasCurrent(s) && |s.image| == WINDOW && Cur(s).ppid == ppid > 0
    requires Find(s.ring, ppid) < |s.ring| && s.ring[Find(s.ring, ppid)].imgSize == size && 0 < size <= WINDOW
    ensures Saved(s) == if Cur(s).snapshot == None then Some(s.image[..size]) else Cur(s).snapshot
  {
  }

  lemma SavesNothing(s: Sys)
    requires HasCurrent(s) && |s.image| == WINDOW && Cur(s).ppid == 0
    ensures Saved(s) == Cur(s).snapshot
  {
  }

  lemma ExecedLast(s: Sys, c: seq<nat>, content: seq<byte>)
    requires Inv(s, c) && HasCurrent(s) && |s.image| == WINDOW && |content| <= WINDOW
    requires LevelsOk(Levels(s.ring, c))
    ensures LevelOf(Exec(s, content).ring, s.cur) == ExecLevel(s.image, Levels(s.ring, c), |content|)
  {
    SavedIs(s, c, |content|);
    ExecedRing(s, content);
  }

  lemma ExecedRing(s: Sys, content: seq<byte>)
    requires UniquePids(s.ring) && HasCurrent(s) && |s.image| == WINDOW && |content| <= WINDOW
    ensures LevelOf(Exec(s, content).ring, s.cur) == Level(|content|, Saved(s))
  {
    FindIs(Exec(s, content).ring, Find(s.ring, s.cur));
  }

  lemma ExecedOther(s: Sys, c: seq<nat>, content: seq<byte>, pid: nat)
    requires Inv(s, c) && HasCurrent(s) && |s.image| == WINDOW && |content| <= WINDOW
    requires pid != s.cur && Find(s.ring, pid) < |s.ring|
    ensures LevelOf(Exec(s, content).ring, pid) == LevelOf(s.ring, pid)
  {
    LevelKept(s.ring, Exec(s, content).ring, pid);
  }

  lemma ExecLevelsAre(s: Sys, c: seq<nat>, content: seq<byte>)
    requires Inv(s, c) && HasCurrent(s) && |s.image| == WINDOW && |content| <= WINDOW
    requires LevelsOk(Levels(s.ring, c))
    ensures var lv := Levels(s.ring, c);
      Levels(Exec(s, content).ring, c) == lv[|c| - 1 := ExecLevel(s.image, lv, |content|)]
  {
    var n := |c|;
    assert c[n - 1] == s.cur;
    ExecedLast(s, c, content);
    forall k | 0 <= k < n - 1 ensures LevelOf(Exec(s, content).ring, c[k]) == LevelOf(s.ring, c[k]) {
      assert c[k] < c[n - 1];
      ExecedOther(s, c, content, c[k]);
    }
  }

  lemma ZombieLevelsAre(s: Sys, c: seq<nat>, pid: nat, sig: nat)
    requires Inv(s, c) && Find(s.ring, pid) < |s.ring| && s.ring[Find(s.ring, pid)].state == Zombie
    ensures Levels(KillOther(s, pid, sig).ring, c) == Levels(s.ring, c)
  {
    var t := KillOther(s, pid, sig).ring;
    KilledRing(s, pid, sig);
    forall k | 0 <= k < |c| ensures LevelOf(t, c[k]) == LevelOf(s.ring, c[k]) { LevelKept(s.ring, t, c[k]); }
  }

  lemma KilledRing(s: Sys, pid: nat, sig: nat)
    requires UniquePids(s.ring) && Find(s.ring, pid) < |s.ring|
    ensures var t := KillOther(s, pid, sig).ring;
      && |t| == |s.ring| && UniquePids(t)
      && forall i :: 0 <= i < |t| ==>
        t[i].pid == s.ring[i].pid && t[i].imgSize == s.ring[i].imgSize && t[i].snapshot == s.ring[i].snapshot
  {
  }

  ghost predicate Good(s: Sys, c: seq<nat>) { Inv(s, c) && LevelsOk(Levels(s.ring, c)) && |s.image| == WINDOW }

  ghost predicate Disciplined(s: Sys, c: seq<nat>, step: Step)
    requires c != []
  {
    Allowed(Levels(s.ring, c), EffectOf(s, step))
  }

  ghost predicate Follows(s: Sys, c: seq<nat>, step: Step)
    requires c != [] && Enabled(s, step)
  {
    var lv, e := Levels(s.ring, c), EffectOf(s, step);
    Levels(Next(s, step).ring, NextChain(s, c, step)) == NextLevels(s.image, lv, e)
      && Next(s, step).image == NextImage(s.image, lv, e)
  }

  lemma ForkFollows(s: Sys, c: seq<nat>)
    requires Good(s, c) && Enabled(s, DoFork)
    ensures Follows(s, c, DoFork)
  {
    ForkLevelsAre(s, c);
    ForkKeeps(s, c);
    ReadySchedules(Fork(s), c + [s.nextPid]);
  }

  lemma ExecFollows(s: Sys, c: seq<nat>, content: seq<byte>)
    requires Good(s, c) && Enabled(s, DoExec(content)) && Disciplined(s, c, DoExec(content))
    ensures Follows(s, c, DoExec(content))
  {
    ExecLevelsAre(s, c, content);
  }

  lemma ExitReschedules(s: Sys, c: seq<nat>, status: int, heap: seq<byte>)
    requires Good(s, c) && Enabled(s, DoExit(status, heap))
    ensures var t := Resched(Exit(s, status, heap));
      t.image == TaskExit(s, status, heap).image && t.ring == Exit(s, status, heap).ring
  {
    ExitKeeps(s, c, status, heap);
    ReadySchedules(Exit(s, status, heap), ExitChain(s, c));
  }

  lemma LastIsCurrent(s: Sys, c: seq<nat>)
    requires Inv(s, c)
    ensures HasCurrent(s) && Levels(s.ring, c)[|c| - 1] == Level(Cur(s).imgSize, Cur(s).snapshot)
  {
    assert c[|c| - 1] == s.cur;
  }

  lemma ExitFollows(s: Sys, c: seq<nat>, status: int, heap: seq<byte>)
    requires Good(s, c) && Enabled(s, DoExit(status, heap))
    ensures Follows(s, c, DoExit(status, heap))
  {
    ExitReschedules(s, c, status, heap);
    ExitLevelsFollow(s, c, status, heap);
    ExitImageFollows(s, c, status, heap);
  }

  lemma ExitLevelsFollow(s: Sys, c: seq<nat>, status: int, heap: seq<byte>)
    requires Good(s, c) && Enabled(s, DoExit(status, heap))
    ensures Levels(Exit(s, status, heap).ring, ExitChain(s, c)) == NextLevels(s.image, Levels(s.ring, c), Exits(heap))
  {
    RootIsAlone(s, c);
    if |c| > 1 { ExitLevelsAre(s, c, status, heap); } else { RootLevelsAre(s, c, status, heap); }
  }

  lemma ExitImageFollows(s: Sys, c: seq<nat>, status: int, heap: seq<byte>)
    requires Good(s, c) && Enabled(s, DoExit(status, heap))
    ensures TaskExit(s, status, heap).image == NextImage(s.image, Levels(s.ring, c), Exits(heap))
  {
    LastIsCurrent(s, c);
    TaskExitImage(s, status, heap);
    ExitsImage(s.image, Levels(s.ring, c), heap, Cur(s).imgSize, Cur(s).snapshot);
  }

  lemma ExitsImage(image: seq<byte>, lv: seq<Level>, heap: seq<byte>, size: nat, snap: Option<seq<byte>>)
    requires lv != [] && |image| == WINDOW == |heap| && lv[|lv| - 1] == Level(size, snap)
    ensures NextImage(image, lv, Exits(heap)) == if snap.Some? then Restored(image, snap.value, size, heap) else image
  {
  }

  lemma DyingFollows(s: Sys, c: seq<nat>, pid: nat, sig: nat, heap: seq<byte>)
    requires Good(s, c) && Enabled(s, DoKill(pid, sig, heap)) && Dies(s, pid, sig)
    ensures Follows(s, c, DoKill(pid, sig, heap))
  {
    KillIsExit(s, pid, sig, heap);
    ExitFollows(s, c, 128 + sig, heap);
  }

  /** A step that changes neither chain nor levels nor image. */
  lemma SameFollows(s: Sys, c: seq<nat>, step: Step, t: Sys)
    requires c != [] && |s.image| == WINDOW && Enabled(s, step) && Next(s, step) == t && NextChain(s, c, step) == c
    requires EffectOf(s, step) == Nothing && Levels(t.ring, c) == Levels(s.ring, c) && t.image == s.image
    ensures Follows(s, c, step)
  {
  }

  lemma SparingFollows(s: Sys, c: seq<nat>, pid: nat, sig: nat, heap: seq<byte>)
    requires Good(s, c) && Enabled(s, DoKill(pid, sig, heap)) && !Dies(s, pid, sig)
    ensures Follows(s, c, DoKill(pid, sig, heap))
  {
    SparingStep(s, c, pid, sig, heap);
    SparedLevels(s, c, pid, sig, heap);
    SameFollows(s, c, DoKill(pid, sig, heap), Kill(s, pid, sig, heap));
  }

  lemma SparedLevels(s: Sys, c: seq<nat>, pid: nat, sig: nat, heap: seq<byte>)
    requires Inv(s, c) && HasCurrent(s) && |heap| == |s.image| && Harmless(s, pid, sig) && !Dies(s, pid, sig)
    ensures var t := Kill(s, pid, sig, heap); Levels(t.ring, c) == Levels(s.ring, c) && t.image == s.image
  {
    if Find(s.ring, pid) < |s.ring| && sig != 0 { ZombieLevelsAre(s, c, pid, sig); }
  }

  lemma WaitFollows(s: Sys, c: seq<nat>, pid: int, noHang: bool)
    requires Good(s, c) && Enabled(s, DoWait(pid, noHang))
    ensures Follows(s, c, DoWait(pid, noHang))
  {
    WaitLevelsAre(s, c, pid, noHang);
    WaitKeeps(s, c, pid, noHang);
    SameFollows(s, c, DoWait(pid, noHang), Wait4(s, pid, noHang).1);
  }

  lemma WriteFollows(s: Sys, c: seq<nat>, at: nat, b: byte)
    requires Good(s, c) && Enabled(s, DoWrite(at, b))
    ensures Follows(s, c, DoWrite(at, b))
  {
  }

  lemma TickFollows(s: Sys, c: seq<nat>)
    requires Good(s, c) && Enabled(s, DoTick)
    ensures Follows(s, c, DoTick)
  {
    ScheduleStays(s, c);
    SameFollows(s, c, DoTick, s);
  }

  lemma KillFollows(s: Sys, c: seq<nat>, pid: nat, sig: nat, heap: seq<byte>)
    requires Good(s, c) && Enabled(s, DoKill(pid, sig, heap))
    ensures Follows(s, c, DoKill(pid, sig, heap))
  {
    if Dies(s, pid, sig) { DyingFollows(s, c, pid, sig, heap); } else { SparingFollows(s, c, pid, sig, heap); }
  }

  lemma NextFollows(s: Sys, c: seq<nat>, step: Step)
    requires Good(s, c) && Enabled(s, step) && Disciplined(s, c, step)
    ensures Follows(s, c, step)
  {
    match step
    case DoFork => ForkFollows(s, c);
    case DoExec(content) => ExecFollows(s, c, content);
    case DoWrite(at, b) => WriteFollows(s, c, at, b);
    case DoExit(status, heap) => ExitFollows(s, c, status, heap);
    case DoKill(pid, sig, heap) => KillFollows(s, c, pid, sig, heap);
    case DoWait(pid, noHang) => WaitFollows(s, c, pid, noHang);
    case DoTick => TickFollows(s, c);
  }

  lemma EffectFits(s: Sys, step: Step)
    requires Enabled(s, step)
    ensures Fits(EffectOf(s, step))
  {
  }

  /** Under the discipline every step keeps chain and snapshots. */
  lemma NextGood(s: Sys, c: seq<nat>, step: Step)
    requires Good(s, c) && Enabled(s, step) && Disciplined(s, c, step)
    ensures Good(Next(s, step), NextChain(s, c, step)) && Follows(s, c, step)
  {
    NextKeeps(s, c, step);
    NextFollows(s, c, step);
    EffectFits(s, step);
    LevelsKeep(s.image, Levels(s.ring, c), EffectOf(s, step));
  }

  // ---- the bytes of one parent ------------------------------------------------------------------

  /** Some task below level q has an image that reaches byte i. */
  ghost predicate Covered(lv: seq<Level>, q: nat, i: nat) { exists k :: q < k < |lv| && lv[k].size > i }

  /** Byte i of the image w that level q has saved, for i past level q's own image. Beyond m,
      the largest image exec'd at or below q so far, nobody has touched it. Short of m it is
      under somebody's image, or what was left there is wrong. */
  ghost predicate ByteOk(image: seq<byte>, lv: seq<Level>, q: nat, w: seq<byte>, m: nat, wrong: bool, i: nat)
    requires |image| == WINDOW && |w| <= WINDOW && i < |w|
  {
    && (m <= i ==> image[i] == w[i])
    && (wrong && i < m ==> Covered(lv, q, i) || image[i] != w[i])
  }

  ghost predicate Watched(image: seq<byte>, lv: seq<Level>, q: nat, w: seq<byte>, m: nat, wrong: bool) {
    && |image| == WINDOW && q < |lv| && |w| <= WINDOW && lv[q].size > 0 && lv[q].snap == Some(w)
    && (forall k :: q <= k < |lv| ==> lv[k].size <= m)
    && forall i :: lv[q].size <= i < |w| ==> ByteOk(image, lv, q, w, m, wrong, i)
  }

  function Larger(m: nat, e: Effect): nat { if e.Execs? && |e.content| > m then |e.content| else m }

  /** Heap bytes that are all wrong for w. */
  ghost predicate Differs(heap: seq<byte>, w: seq<byte>) {
    |w| <= |heap| && forall i :: 0 <= i < |w| ==> heap[i] != w[i]
  }

  /** What a step leaves where no image reaches any more is wrong for w: heap bytes past a
      snapshot's end, and the rest of a task's image when it execs a smaller one. */
  ghost predicate Tells(image: seq<byte>, lv: seq<Level>, e: Effect, w: seq<byte>)
    requires lv != [] && |image| == WINDOW
  {
    match e
    case Exits(heap) => Differs(heap, w)
    case Execs(content) => forall i :: |content| <= i < lv[|lv| - 1].size && i < |w| && i < WINDOW ==> image[i] != w[i]
    case _ => true
  }

  /** Level q stays on the chain, and what is left behind is never what was there. */
  ghost predicate Leaves(image: seq<byte>, lv: seq<Level>, q: nat, e: Effect, w: seq<byte>, wrong: bool)
    requires lv != [] && |image| == WINDOW
  {
    (e.Exits? ==> |lv| - 1 > q) && (wrong ==> Tells(image, lv, e, w))
  }

  lemma StillCovered(lv: seq<Level>, t: seq<Level>, q: nat, i: nat)
    requires Covered(lv, q, i) && |lv| <= |t| && forall k :: 0 <= k < |lv| ==> t[k].size >= lv[k].size
    ensures Covered(t, q, i)
  {
    var k :| q < k < |lv| && lv[k].size > i;
    assert t[k].size > i;
  }

  lemma ExecByte(image: seq<byte>, lv: seq<Level>, content: seq<byte>, q: nat, w: seq<byte>, m: nat, wrong: bool,
                 i: nat)
    requires LevelsOk(lv) && Watched(image, lv, q, w, m, wrong) && Fits(Execs(content)) && Allowed(lv, Execs(content))
    requires Leaves(image, lv, q, Execs(content), w, wrong)
    requires var t := NextLevels(image, lv, Execs(content)); t[q].size <= i < |w|
    ensures ByteOk(NextImage(image, lv, Execs(content)), NextLevels(image, lv, Execs(content)), q, w,
      Larger(m, Execs(content)), wrong, i)
  {
    var t := NextLevels(image, lv, Execs(content));
    var n := |lv|;
    assert t[n - 1].size == |content| && forall k :: 0 <= k < n - 1 ==> t[k] == lv[k];
    if lv[q].size <= i { assert ByteOk(image, lv, q, w, m, wrong, i); }
    if q < n - 1 && i < |content| {
      assert Covered(t, q, i);
    } else if Covered(lv, q, i) {
      var k :| q < k < n && lv[k].size > i;
      if k < n - 1 { assert Covered(t, q, i) by { assert t[k].size > i; } }
    }
  }

  lemma WriteByte(image: seq<byte>, lv: seq<Level>, at: nat, b: byte, q: nat, w: seq<byte>, m: nat, wrong: bool, i: nat)
    requires LevelsOk(lv) && Watched(image, lv, q, w, m, wrong) && Fits(Writes(at, b)) && Allowed(lv, Writes(at, b))
    requires lv[q].size <= i < |w|
    ensures ByteOk(NextImage(image, lv, Writes(at, b)), lv, q, w, m, wrong, i)
  {
    var n := |lv|;
    assert ByteOk(image, lv, q, w, m, wrong, i);
    if i == at {
      var k := if lv[n - 1].size > 0 then n - 1 else n - 2;
      assert lv[k].size > i && k != q;
      assert Covered(lv, q, i);
    }
  }

  lemma ExitByte(image: seq<byte>, lv: seq<Level>, heap: seq<byte>, q: nat, w: seq<byte>, m: nat, wrong: bool, i: nat)
    requires LevelsOk(lv) && Watched(image, lv, q, w, m, wrong) && Fits(Exits(heap))
      && Leaves(image, lv, q, Exits(heap), w, wrong)
    requires lv[q].size <= i < |w|
    ensures ByteOk(NextImage(image, lv, Exits(heap)), NextLevels(image, lv, Exits(heap)), q, w, m, wrong, i)
  {
    var n := |lv|;
    var t, image' := NextLevels(image, lv, Exits(heap)), NextImage(image, lv, Exits(heap));
    assert ByteOk(image, lv, q, w, m, wrong, i) && LevelOk(lv, n - 1);
    if i < lv[n - 1].size {
      assert image'[i] == if i < lv[n - 2].size then lv[n - 1].snap.value[i] else heap[i];
      if i < lv[n - 2].size {
        assert n - 2 != q && t[n - 2].size > i;
        assert Covered(t, q, i);
      }
    } else {
      assert image'[i] == image[i];
      if Covered(lv, q, i) {
        var k :| q < k < n && lv[k].size > i;
        assert k < n - 1 && t[k].size > i;
        assert Covered(t, q, i);
      }
    }
  }

  lemma WatchedStep(image: seq<byte>, lv: seq<Level>, e: Effect, q: nat, w: seq<byte>, m: nat, wrong: bool)
    requires LevelsOk(lv) && Watched(image, lv, q, w, m, wrong) && Fits(e) && Allowed(lv, e)
      && Leaves(image, lv, q, e, w, wrong)
    ensures Watched(NextImage(image, lv, e), NextLevels(image, lv, e), q, w, Larger(m, e), wrong)
  {
    var t := NextLevels(image, lv, e);
    var image', m' := NextImage(image, lv, e), Larger(m, e);
    forall i | t[q].size <= i < |w| ensures ByteOk(image', t, q, w, m', wrong, i) {
      match e
      case Forks =>
        assert ByteOk(image, lv, q, w, m, wrong, i);
        if Covered(lv, q, i) { StillCovered(lv, t, q, i); }
      case Execs(content) => ExecByte(image, lv, content, q, w, m, wrong, i);
      case Writes(at, b) => WriteByte(image, lv, at, b, q, w, m, wrong, i);
      case Exits(heap) => ExitByte(image, lv, heap, q, w, m, wrong, i);
      case Nothing => assert ByteOk(image, lv, q, w, m, wrong, i);
    }
  }

  /** The child's first exec starts the watch over its parent's bytes. */
  lemma WatchStarts(image: seq<byte>, lv: seq<Level>, content: seq<byte>, wrong: bool)
    requires LevelsOk(lv) && |lv| > 1 && |image| == WINDOW && Fits(Execs(content)) && Allowed(lv, Execs(content))
    requires lv[|lv| - 1].size == 0
    ensures lv[|lv| - 2].size <= WINDOW
    ensures var t, w := NextLevels(image, lv, Execs(content)), image[..lv[|lv| - 2].size];
      Watched(NextImage(image, lv, Execs(content)), t, |lv| - 1, w, |content|, wrong)
  {
    assert LevelOk(lv, |lv| - 2) && LevelOk(lv, |lv| - 1);
  }

  /** At the child's exit nothing covers its parent's bytes any more: they are back, all of
      them when no image exec'd by the child or below it was larger than the child's last one
      or that one covers the parent's, and otherwise not. */
  lemma WatchEnds(image: seq<byte>, lv: seq<Level>, heap: seq<byte>, w: seq<byte>, m: nat, wrong: bool)
    requires LevelsOk(lv) && lv != [] && Watched(image, lv, |lv| - 1, w, m, wrong) && Fits(Exits(heap))
    ensures var r, z := NextImage(image, lv, Exits(heap)), lv[|lv| - 1].size;
      && (m <= z || |w| <= z ==> r[..|w|] == w)
      && (wrong && !(m <= z || |w| <= z) ==> r[..|w|] != w)
  {
    var q := |lv| - 1;
    var r, z := NextImage(image, lv, Exits(heap)), lv[q].size;
    forall i | 0 <= i < |w| && (i < z || m <= i) ensures r[i] == w[i] {
      if i >= z { assert ByteOk(image, lv, q, w, m, wrong, i); }
    }
    if wrong && z < m && z < |w| {
      assert ByteOk(image, lv, q, w, m, wrong, z);
      assert r[..|w|][z] != w[z];
    }
  }

  // ---- the law over runs -------------------------------------------------------------------------

  ghost predicate AllDisciplined(s: Sys, c: seq<nat>, steps: seq<Step>)
    requires Enables(s, steps)
    decreases |steps|
  {
    steps == [] || c == []
    || (Disciplined(s, c, steps[0]) && AllDisciplined(Next(s, steps[0]), NextChain(s, c, steps[0]), steps[1..]))
  }

  /** The largest image exec'd in a run, at least m. */
  function Largest(steps: seq<Step>, m: nat): nat {
    if steps == [] then m
    else Largest(steps[1..], if steps[0].DoExec? && |steps[0].content| > m then |steps[0].content| else m)
  }

  /** Whatever the steps leave behind is nowhere what w holds. */
  ghost predicate Telling(s: Sys, c: seq<nat>, steps: seq<Step>, w: seq<byte>)
    requires Enables(s, steps)
    decreases |steps|
  {
    steps == [] || c == []
    || (Tells(s.image, Levels(s.ring, c), EffectOf(s, steps[0]), w)
      && Telling(Next(s, steps[0]), NextChain(s, c, steps[0]), steps[1..], w))
  }

  /** A task that has exec'd keeps its place on the chain for as long as it lives. */
  lemma StaysOnChain(s: Sys, c: seq<nat>, step: Step, q: nat)
    requires Inv(s, c) && Enabled(s, step) && q < |c| && c[q] in NextChain(s, c, step)
    ensures var d := NextChain(s, c, step); q < |d| && d[q] == c[q] && (EffectOf(s, step).Exits? ==> |c| - 1 > q)
  {
    var d := NextChain(s, c, step);
    assert c[q] < s.nextPid by { var i := Find(s.ring, c[q]); }
    var l :| 0 <= l < |d| && d[l] == c[q];
    if l < |c| { assert d[l] == c[l]; }
  }

  /** Pids are never reused. */
  lemma {:induction false} GoneForever(s: Sys, c: seq<nat>, steps: seq<Step>, pid: nat)
    requires Inv(s, c) && Enables(s, steps) && pid < s.nextPid && pid !in c
    ensures pid !in RunChain(s, c, steps)
    decreases |steps|
  {
    if steps != [] {
      NextKeeps(s, c, steps[0]);
      PidsGrow(s, steps[0]);
      GoneForever(Next(s, steps[0]), NextChain(s, c, steps[0]), steps[1..], pid);
    }
  }

  lemma PidsGrow(s: Sys, step: Step)
    requires Enabled(s, step)
    ensures Next(s, step).nextPid >= s.nextPid
  {
  }

  lemma LargestOne(s: Sys, step: Step, m: nat)
    ensures Largest([step], m) == Larger(m, EffectOf(s, step))
  {
    assert [step][1..] == [];
  }

  lemma NextWatched(s: Sys, c: seq<nat>, step: Step, q: nat, w: seq<byte>, m: nat, wrong: bool)
    requires Good(s, c) && Enabled(s, step) && Disciplined(s, c, step) && q < |c| && c[q] in NextChain(s, c, step)
    requires Watched(s.image, Levels(s.ring, c), q, w, m, wrong)
    requires wrong ==> Tells(s.image, Levels(s.ring, c), EffectOf(s, step), w)
    ensures var t, d := Next(s, step), NextChain(s, c, step);
      Good(t, d) && q < |d| && d[q] == c[q] && Watched(t.image, Levels(t.ring, d), q, w, Largest([step], m), wrong)
  {
    NextGood(s, c, step);
    StaysOnChain(s, c, step, q);
    EffectFits(s, step);
    LargestOne(s, step, m);
    WatchedStep(s.image, Levels(s.ring, c), EffectOf(s, step), q, w, m, wrong);
  }

  lemma {:induction false} RunWatched(s: Sys, c: seq<nat>, steps: seq<Step>, q: nat, w: seq<byte>, m: nat, wrong: bool)
    requires Good(s, c) && Enables(s, steps) && AllDisciplined(s, c, steps) && q < |c| && c[q] in RunChain(s, c, steps)
    requires Watched(s.image, Levels(s.ring, c), q, w, m, wrong) && (wrong ==> Telling(s, c, steps, w))
    ensures var t, d := Run(s, steps), RunChain(s, c, steps);
      Good(t, d) && q < |d| && d[q] == c[q] && Watched(t.image, Levels(t.ring, d), q, w, Largest(steps, m), wrong)
    decreases |steps|
  {
    if steps != [] {
      StaysThroughout(s, c, steps, q);
      NextWatched(s, c, steps[0], q, w, m, wrong);
      LargestFirst(steps[0], [], m);
      LargestFirst(steps[0], steps[1..], m);
      assert [steps[0]] + [] == [steps[0]] && [steps[0]] + steps[1..] == steps;
      RunWatched(Next(s, steps[0]), NextChain(s, c, steps[0]), steps[1..], q, w, Largest([steps[0]], m), wrong);
    }
  }

  /** Who is on the chain at the end of a run was on it all the time. */
  lemma StaysThroughout(s: Sys, c: seq<nat>, steps: seq<Step>, q: nat)
    requires Inv(s, c) && Enables(s, steps) && steps != [] && q < |c| && c[q] in RunChain(s, c, steps)
    ensures c[q] in NextChain(s, c, steps[0])
  {
    var t, d := Next(s, steps[0]), NextChain(s, c, steps[0]);
    NextKeeps(s, c, steps[0]);
    assert c[q] < s.nextPid by { var i := Find(s.ring, c[q]); }
    PidsGrow(s, steps[0]);
    if c[q] !in d { GoneForever(t, d, steps[1..], c[q]); }
  }

  /** A child execs for the first time, anything disciplined happens for as long as one likes,
      more execs and deeper forks included, and then the child is the current task again. */
  ghost predicate ChildRuns(s: Sys, c: seq<nat>, content: seq<byte>, steps: seq<Step>) {
    && Good(s, c) && |c| > 1 && Levels(s.ring, c)[|c| - 1].size == 0
    && Enabled(s, DoExec(content)) && Disciplined(s, c, DoExec(content))
    && var s1 := Next(s, DoExec(content));
    Enables(s1, steps) && AllDisciplined(s1, c, steps) && Run(s1, steps).cur == s.cur
  }

  function ParentSize(s: Sys, c: seq<nat>): nat
    requires |c| > 1
  {
    Levels(s.ring, c)[|c| - 2].size
  }

  /** The child's image size when it is current again: that of its last exec. */
  ghost function LastSize(s: Sys, content: seq<byte>, steps: seq<Step>): nat
    requires Enabled(s, DoExec(content)) && Enables(Next(s, DoExec(content)), steps)
  {
    LevelOf(Run(Next(s, DoExec(content)), steps).ring, s.cur).size
  }

  /** No image exec'd by the child or below it was larger than the child's last one, or that
      one covers its parent's. */
  ghost predicate SizesFit(s: Sys, c: seq<nat>, content: seq<byte>, steps: seq<Step>)
    requires |c| > 1 && Enabled(s, DoExec(content)) && Enables(Next(s, DoExec(content)), steps)
  {
    var z := LastSize(s, content, steps);
    Largest(steps, |content|) <= z || ParentSize(s, c) <= z
  }

  lemma ChildStarts(s: Sys, c: seq<nat>, content: seq<byte>, wrong: bool)
    requires Good(s, c) && |c| > 1 && Levels(s.ring, c)[|c| - 1].size == 0
    requires Enabled(s, DoExec(content)) && Disciplined(s, c, DoExec(content))
    ensures ParentSize(s, c) <= WINDOW == |s.image|
    ensures var t := Next(s, DoExec(content));
      Good(t, c) && Watched(t.image, Levels(t.ring, c), |c| - 1, s.image[..ParentSize(s, c)], |content|, wrong)
  {
    NextGood(s, c, DoExec(content));
    WatchStarts(s.image, Levels(s.ring, c), content, wrong);
  }

  /** Back at the task that ran first, it is still on the chain. */
  lemma BackOnChain(s: Sys, c: seq<nat>, steps: seq<Step>)
    requires Inv(s, c) && Enables(s, steps) && Run(s, steps).cur == c[|c| - 1]
    ensures c[|c| - 1] in RunChain(s, c, steps)
  {
    RunKeeps(s, c, steps);
    CurrentIsLast(Run(s, steps), RunChain(s, c, steps));
  }

  lemma CurrentIsLast(s: Sys, c: seq<nat>)
    requires Inv(s, c)
    ensures c != [] && c[|c| - 1] == s.cur && s.cur in c
  {
  }

  lemma WatchedReturns(s: Sys, c: seq<nat>, steps: seq<Step>, w: seq<byte>, m: nat, wrong: bool)
    requires Good(s, c) && Enables(s, steps) && AllDisciplined(s, c, steps) && Run(s, steps).cur == c[|c| - 1]
    requires Watched(s.image, Levels(s.ring, c), |c| - 1, w, m, wrong) && (wrong ==> Telling(s, c, steps, w))
    ensures var t, d := Run(s, steps), RunChain(s, c, steps);
      Good(t, d) && |d| == |c| && Watched(t.image, Levels(t.ring, d), |d| - 1, w, Largest(steps, m), wrong)
  {
    BackOnChain(s, c, steps);
    RunWatched(s, c, steps, |c| - 1, w, m, wrong);
    EndsAt(Run(s, steps), RunChain(s, c, steps), |c| - 1);
  }

  lemma EndsAt(t: Sys, d: seq<nat>, q: nat)
    requires Inv(t, d) && q < |d| && d[q] == t.cur
    ensures |d| == q + 1
  {
    CurrentIsLast(t, d);
  }

  /** Back at the child, its parent's bytes are still under watch. */
  lemma ChildReturns(s: Sys, c: seq<nat>, content: seq<byte>, steps: seq<Step>, wrong: bool)
    requires ChildRuns(s, c, content, steps)
    requires wrong ==>
      && ParentSize(s, c) <= |s.image|
      && Telling(Next(s, DoExec(content)), c, steps, s.image[..ParentSize(s, c)])
    ensures var s2, d := Run(Next(s, DoExec(content)), steps), RunChain(Next(s, DoExec(content)), c, steps);
      && Good(s2, d) && |d| > 1 && ParentSize(s, c) <= WINDOW == |s.image|
      && Levels(s2.ring, d)[|d| - 1].size == LastSize(s, content, steps)
      && Watched(s2.image, Levels(s2.ring, d), |d| - 1, s.image[..ParentSize(s, c)], Largest(steps, |content|), wrong)
  {
    ChildStarts(s, c, content, wrong);
    LastIs(Next(s, DoExec(content)), c);
    LastIs(s, c);
    WatchedReturns(Next(s, DoExec(content)), c, steps, s.image[..ParentSize(s, c)], |content|, wrong);
    LastIs(Run(Next(s, DoExec(content)), steps), RunChain(Next(s, DoExec(content)), c, steps));
  }

  /** The image a child's exit leaves. */
  lemma ExitImage(s: Sys, d: seq<nat>, status: int, heap: seq<byte>)
    requires Good(s, d) && |heap| == WINDOW
    ensures HasCurrent(s) && Exit(s, status, heap).image == NextImage(s.image, Levels(s.ring, d), Exits(heap))
  {
    LastIsCurrent(s, d);
    ExitImageFollows(s, d, status, heap);
    RespawnImage(s, status, heap);
  }

  lemma RespawnImage(s: Sys, status: int, heap: seq<byte>)
    requires HasCurrent(s) && |heap| == |s.image|
    ensures Exit(s, status, heap).image == TaskExit(s, status, heap).image
  {
  }

  /** What a watched child's exit leaves of its parent's bytes. */
  lemma Outcome(s: Sys, d: seq<nat>, status: int, heap: seq<byte>, w: seq<byte>, m: nat, wrong: bool)
    requires Good(s, d) && |heap| == WINDOW && Watched(s.image, Levels(s.ring, d), |d| - 1, w, m, wrong)
    ensures HasCurrent(s) && |Exit(s, status, heap).image| == WINDOW && |w| <= WINDOW
    ensures var r, z := Exit(s, status, heap).image, Levels(s.ring, d)[|d| - 1].size;
      && (m <= z || |w| <= z ==> r[..|w|] == w)
      && (wrong && z < m && z < |w| ==> r[..|w|] != w)
  {
    ExitImage(s, d, status, heap);
    WatchEnds(s.image, Levels(s.ring, d), heap, w, m, wrong);
  }

  /** The law: when the child exits, its parent's image holds byte for byte what it held when
      the child first exec'd, at any nesting depth, as long as the sizes fit. */
  lemma RestoreLaw(s: Sys, c: seq<nat>, content: seq<byte>, steps: seq<Step>, status: int, heap: seq<byte>)
    requires ChildRuns(s, c, content, steps) && |heap| == WINDOW && SizesFit(s, c, content, steps)
    ensures var s2, z := Run(Next(s, DoExec(content)), steps), ParentSize(s, c);
      && HasCurrent(s2) && |s2.image| == WINDOW && z <= WINDOW == |Exit(s2, status, heap).image|
      && Exit(s2, status, heap).image[..z] == s.image[..z]
  {
    ChildReturns(s, c, content, steps, false);
    var s2, d := Run(Next(s, DoExec(content)), steps), RunChain(Next(s, DoExec(content)), c, steps);
    Outcome(s2, d, status, heap, s.image[..ParentSize(s, c)], Largest(steps, |content|), false);
  }

  /** And exactly then: once some image of the child or below it outgrew the child's last one,
      what was left behind there stands in the parent's image. */
  lemma RestoreExactly(s: Sys, c: seq<nat>, content: seq<byte>, steps: seq<Step>, status: int, heap: seq<byte>)
    requires ChildRuns(s, c, content, steps) && |heap| == WINDOW
    requires ParentSize(s, c) <= |s.image| && Telling(Next(s, DoExec(content)), c, steps, s.image[..ParentSize(s, c)])
    ensures var s2, z := Run(Next(s, DoExec(content)), steps), ParentSize(s, c);
      && HasCurrent(s2) && |s2.image| == WINDOW && z <= WINDOW == |Exit(s2, status, heap).image|
      && (Exit(s2, status, heap).image[..z] == s.image[..z] <==> SizesFit(s, c, content, steps))
  {
    ChildReturns(s, c, content, steps, true);
    var s2, d := Run(Next(s, DoExec(content)), steps), RunChain(Next(s, DoExec(content)), c, steps);
    Outcome(s2, d, status, heap, s.image[..ParentSize(s, c)], Largest(steps, |content|), true);
  }

  // ---- runs that lose a byte ---------------------------------------------------------------------

  function Deeper(large: seq<byte>, heap: seq<byte>): seq<Step> {
    [DoFork] + ([DoExec(large)] + ([DoExit(0, heap)] + []))
  }

  function Once(step: Step): seq<Step> { [step] + [] }

  lemma ForkGood(s: Sys, c: seq<nat>)
    requires Good(s, c) && Levels(s.ring, c)[|c| - 1].size > 0
    ensures Enabled(s, DoFork) && Disciplined(s, c, DoFork)
    ensures var t, d := Next(s, DoFork), c + [s.nextPid];
      Good(t, d) && t.image == s.image && Levels(t.ring, d) == Levels(s.ring, c) + [Level(0, None)] && t.cur == d[|c|]
  {
    ScheduleStays(s, c);
    NextGood(s, c, DoFork);
  }

  lemma ExecGood(s: Sys, c: seq<nat>, content: seq<byte>)
    requires Good(s, c) && 0 < |content| <= WINDOW
    ensures Enabled(s, DoExec(content)) && Disciplined(s, c, DoExec(content))
    ensures var t, lv := Next(s, DoExec(content)), Levels(s.ring, c);
      && Good(t, c) && t.cur == s.cur && t.image == content + s.image[|content|..]
      && Levels(t.ring, c) == lv[|c| - 1 := ExecLevel(s.image, lv, |content|)]
  {
    ScheduleStays(s, c);
    NextGood(s, c, DoExec(content));
  }

  /** A run by its first step. */
  lemma StepFirst(s: Sys, c: seq<nat>, step: Step, rest: seq<Step>, w: seq<byte>)
    requires c != [] && Enabled(s, step) && Disciplined(s, c, step)
      && Tells(s.image, Levels(s.ring, c), EffectOf(s, step), w)
    requires Enables(Next(s, step), rest) && AllDisciplined(Next(s, step), NextChain(s, c, step), rest)
    requires Telling(Next(s, step), NextChain(s, c, step), rest, w)
    ensures var steps := [step] + rest;
      && Enables(s, steps) && AllDisciplined(s, c, steps) && Telling(s, c, steps, w)
      && Run(s, steps) == Run(Next(s, step), rest)
  {
    assert ([step] + rest)[1..] == rest;
  }

  /** A task with an image forks, execs and exits: a run that comes back to its parent. */
  lemma DeeperRuns(s: Sys, c: seq<nat>, large: seq<byte>, heap: seq<byte>, w: seq<byte>)
    requires Good(s, c) && Levels(s.ring, c)[|c| - 1].size > 0 && 0 < |large| <= WINDOW == |heap| && Differs(heap, w)
    ensures var steps := Deeper(large, heap);
      && Enables(s, steps) && AllDisciplined(s, c, steps) && Telling(s, c, steps, w)
      && Run(s, steps).cur == c[|c| - 1] && Levels(Run(s, steps).ring, c) == Levels(s.ring, c)
  {
    ForkGood(s, c);
    var s1, d := Next(s, DoFork), c + [s.nextPid];
    ExecGood(s1, d, large);
    ExitBack(Next(s1, DoExec(large)), c, d, heap, w);
    StepFirst(s1, d, DoExec(large), Once(DoExit(0, heap)), w);
    StepFirst(s, c, DoFork, [DoExec(large)] + Once(DoExit(0, heap)), w);
    BackToLevels(Levels(s.ring, c), Level(0, None), ExecLevel(s1.image, Levels(s1.ring, d), |large|));
  }

  lemma BackToLevels(lv: seq<Level>, a: Level, b: Level)
    ensures (lv + [a])[|lv| := b][..|lv|] == lv
  {
  }

  lemma ExitBack(s: Sys, c: seq<nat>, d: seq<nat>, heap: seq<byte>, w: seq<byte>)
    requires c != [] && |d| == |c| + 1 && d[..|c|] == c && Good(s, d) && |heap| == WINDOW && Differs(heap, w)
    ensures var steps := Once(DoExit(0, heap));
      && Enables(s, steps) && AllDisciplined(s, d, steps) && Telling(s, d, steps, w)
      && Run(s, steps).cur == c[|c| - 1] && Levels(Run(s, steps).ring, c) == Levels(s.ring, d)[..|c|]
  {
    ExitGood(s, c, d, heap);
    RunNothing(Next(s, DoExit(0, heap)), c, w);
    StepFirst(s, d, DoExit(0, heap), [], w);
  }

  lemma ExitGood(s: Sys, c: seq<nat>, d: seq<nat>, heap: seq<byte>)
    requires c != [] && |d| == |c| + 1 && d[..|c|] == c && Good(s, d) && |heap| == WINDOW
    ensures Enabled(s, DoExit(0, heap)) && Disciplined(s, d, DoExit(0, heap)) && NextChain(s, d, DoExit(0, heap)) == c
    ensures Good(Next(s, DoExit(0, heap)), c) && Next(s, DoExit(0, heap)).cur == c[|c| - 1]
    ensures Levels(Next(s, DoExit(0, heap)).ring, c) == Levels(s.ring, d)[..|c|]
  {
    assert NextChain(s, d, DoExit(0, heap)) == c;
    ScheduleStays(s, d);
    NextGood(s, d, DoExit(0, heap));
    LastIs(Next(s, DoExit(0, heap)), c);
  }

  lemma LastIs(s: Sys, c: seq<nat>)
    requires Good(s, c)
    ensures c != [] && s.cur == c[|c| - 1] && Levels(s.ring, c)[|c| - 1] == LevelOf(s.ring, s.cur)
  {
  }

  lemma RunNothing(s: Sys, c: seq<nat>, w: seq<byte>)
    ensures Enables(s, []) && Run(s, []) == s && AllDisciplined(s, c, []) && Telling(s, c, [], w)
  {
  }

  lemma {:induction false} LargestFirst(step: Step, rest: seq<Step>, m: nat)
    ensures Largest([step] + rest, m) == Largest(rest, if step.DoExec? && |step.content| > m then |step.content| else m)
  {
    assert ([step] + rest)[1..] == rest;
  }

  /** A child with one byte under a parent with more, and a grandchild with two. */
  lemma ChildGoesDeeper(t: Sys, d: seq<nat>, small: seq<byte>, large: seq<byte>, heap: seq<byte>, w: seq<byte>)
    requires Good(t, d) && |d| > 1 && Levels(t.ring, d)[|d| - 1].size == 0
    requires |small| == 1 && |large| == 2 && |heap| == WINDOW && ParentSize(t, d) >= 2 && Differs(heap, w)
    ensures ChildRuns(t, d, small, Deeper(large, heap)) && !SizesFit(t, d, small, Deeper(large, heap))
    ensures Telling(Next(t, DoExec(small)), d, Deeper(large, heap), w)
  {
    ExecGood(t, d, small);
    LastIs(t, d);
    DeeperRuns(Next(t, DoExec(small)), d, large, heap, w);
    LevelAt(Run(Next(t, DoExec(small)), Deeper(large, heap)).ring, d);
    DeeperLargest(large, heap);
  }

  lemma LevelAt(ring: seq<Proc>, d: seq<nat>)
    requires d != []
    ensures Levels(ring, d)[|d| - 1] == LevelOf(ring, d[|d| - 1])
  {
  }

  lemma DeeperLargest(large: seq<byte>, heap: seq<byte>)
    requires |large| == 2
    ensures Largest(Deeper(large, heap), 1) == 2
  {
    LargestFirst(DoExit(0, heap), [], 2);
    LargestFirst(DoExec(large), Once(DoExit(0, heap)), 1);
    LargestFirst(DoFork, [DoExec(large)] + Once(DoExit(0, heap)), 1);
  }

  /** A child with two bytes that execs one of one byte: the other is left behind. */
  lemma ChildShrinks(t: Sys, d: seq<nat>, large: seq<byte>, small: seq<byte>, w: seq<byte>)
    requires Good(t, d) && |d| > 1 && Levels(t.ring, d)[|d| - 1].size == 0
    requires |large| == 2 && |small| == 1 && ParentSize(t, d) >= 2 && (|w| > 1 ==> large[1] != w[1])
    ensures ChildRuns(t, d, large, Once(DoExec(small))) && !SizesFit(t, d, large, Once(DoExec(small)))
    ensures Telling(Next(t, DoExec(large)), d, Once(DoExec(small)), w)
  {
    ExecGood(t, d, large);
    LastIs(t, d);
    var t1 := Next(t, DoExec(large));
    assert Levels(t1.ring, d)[|d| - 1].size == 2 && t1.image[1] == large[1];
    LastIs(t1, d);
    ShrinkRuns(t1, d, small, w);
    LargestFirst(DoExec(small), [], 2);
  }

  lemma ShrinkRuns(s: Sys, c: seq<nat>, small: seq<byte>, w: seq<byte>)
    requires Good(s, c) && |small| == 1 && Levels(s.ring, c)[|c| - 1].size == 2 && (|w| > 1 ==> s.image[1] != w[1])
    ensures var steps := Once(DoExec(small));
      && Enables(s, steps) && AllDisciplined(s, c, steps) && Telling(s, c, steps, w)
      && Run(s, steps).cur == s.cur && LevelOf(Run(s, steps).ring, s.cur).size == 1
  {
    ExecGood(s, c, small);
    var t := Next(s, DoExec(small));
    RunNothing(t, c, w);
    StepFirst(s, c, DoExec(small), [], w);
    LastIs(t, c);
  }

  ghost function Booted(image: seq<byte>): Sys { Schedule(Sys([Proc(1, 0, Running, 0, 0, None)], 0, 2, image)) }

  /** After boot the root task execs and forks. */
  lemma BootChild(image: seq<byte>, first: seq<byte>)
    requires |image| == WINDOW && 0 < |first| <= WINDOW
    ensures Enabled(Booted(image), DoExec(first)) && Enabled(Next(Booted(image), DoExec(first)), DoFork)
    ensures var t, d := Next(Next(Booted(image), DoExec(first)), DoFork), [1, 2];
      && Good(t, d) && Levels(t.ring, d)[1].size == 0 && ParentSize(t, d) == |first|
      && t.image == first + image[|first|..] && |t.image| == WINDOW
  {
    var b := Booted(image);
    BootGood(image);
    assert Levels(b.ring, [1]) == [Level(0, None)];
    assert LevelOk(Levels(b.ring, [1]), 0);
    ExecGood(b, [1], first);
    ForkGood(Next(b, DoExec(first)), [1]);
    assert [1] + [2] == [1, 2];
  }

  /** From boot, with images of three, one and two bytes on three levels: when the child exits
      the root task's image has lost a byte to the heap. */
  lemma BootLosesByte(image: seq<byte>, first: seq<byte>, small: seq<byte>, large: seq<byte>, heap: seq<byte>,
                      status: int)
    requires |image| == WINDOW == |heap| && |first| == 3 && |small| == 1 && |large| == 2 && Differs(heap, first)
    ensures Enabled(Booted(image), DoExec(first)) && Enabled(Next(Booted(image), DoExec(first)), DoFork)
    ensures var t := Next(Next(Booted(image), DoExec(first)), DoFork);
      && ChildRuns(t, [1, 2], small, Deeper(large, heap)) && |t.image| == WINDOW && t.image[..3] == first
      && var t2 := Run(Next(t, DoExec(small)), Deeper(large, heap));
      HasCurrent(t2) && |t2.image| == WINDOW && |Exit(t2, status, heap).image| == WINDOW
        && Exit(t2, status, heap).image[..3] != first
  {
    BootChild(image, first);
    var t, d := Next(Next(Booted(image), DoExec(first)), DoFork), [1, 2];
    assert t.image[..3] == first;
    ChildGoesDeeper(t, d, small, large, heap, first);
    RestoreExactly(t, d, small, Deeper(large, heap), status, heap);
  }

  /** From boot, on two levels: a child that execs two bytes and then one leaves the second of
      the two in the root task's image, whatever the heap holds. */
  lemma ExecTwiceLosesByte(image: seq<byte>, first: seq<byte>, large: seq<byte>, small: seq<byte>, heap: seq<byte>,
                           status: int)
    requires |image| == WINDOW == |heap| && |first| == 3 && |large| == 2 && |small| == 1 && large[1] != first[1]
    ensures Enabled(Booted(image), DoExec(first)) && Enabled(Next(Booted(image), DoExec(first)), DoFork)
    ensures var t := Next(Next(Booted(image), DoExec(first)), DoFork);
      && ChildRuns(t, [1, 2], large, Once(DoExec(small))) && |t.image| == WINDOW && t.image[..3] == first
      && var t2 := Run(Next(t, DoExec(large)), Once(DoExec(small)));
      HasCurrent(t2) && |t2.image| == WINDOW && |Exit(t2, status, heap).image| == WINDOW
        && Exit(t2, status, heap).image[..3] != first
  {
    BootChild(image, first);
    var t, d := Next(Next(Booted(image), DoExec(first)), DoFork), [1, 2];
    assert t.image[..3] == first;
    ChildShrinks(t, d, large, small, first);
    RestoreExactly(t, d, large, Once(DoExec(small)), status, heap);
  }
}
