/** The process life cycle as a transition system: the task ring, the vfork parent chain and
    the one user image everybody shares. Each step is one system call or interrupt. */
module ProcessSpec {
  import opened Basics

  const WINDOW: nat := 0x400000     // bytes at USER_LOAD_ADDR an image may use

  datatype State = Running | Blocked | Zombie

  datatype Proc = Proc(pid: nat, ppid: nat, state: State, exitCode: int, imgSize: nat, snapshot: Option<seq<byte>>)

  /** ring[0] is the head of the ready queue; cur is the pid of the current task, 0 for none. */
  datatype Sys = Sys(ring: seq<Proc>, cur: nat, nextPid: nat, image: seq<byte>)

  /** First task in ring order with this pid, |ring| when there is none. */
  function Find(ring: seq<Proc>, pid: nat): (i: nat)
    ensures i <= |ring| && (i < |ring| ==> ring[i].pid == pid)
    ensures forall j :: 0 <= j < i ==> ring[j].pid != pid
  {
    if ring == [] then 0
    else if ring[0].pid == pid then 0
    else
      var k := Find(ring[1..], pid);
      assert forall j :: 1 <= j < 1 + k ==> ring[j] == ring[1..][j - 1];
      1 + k
  }

  ghost predicate HasCurrent(s: Sys) { s.cur != 0 && Find(s.ring, s.cur) < |s.ring| }

  function Cur(s: Sys): Proc
    requires HasCurrent(s)
  {
    s.ring[Find(s.ring, s.cur)]
  }

  // ---- schedule -------------------------------------------------------------------

  /** Ring position k steps after i. */
  function Ahead(n: nat, i: nat, k: nat): (j: nat)
    requires i < n && k <= n
    ensures j < n
  {
    if i + k < n then i + k else i + k - n
  }

  /** Steps from position i to the first RUNNING task, at least `from`, at most n. */
  function Distance(ring: seq<Proc>, i: nat, from: nat): (k: nat)
    requires i < |ring| && 1 <= from <= |ring|
    ensures from <= k <= |ring|
    ensures k < |ring| ==> ring[Ahead(|ring|, i, k)].state == Running
    ensures forall j :: from <= j < k ==> ring[Ahead(|ring|, i, j)].state != Running
    decreases |ring| - from
  {
    if from == |ring| || ring[Ahead(|ring|, i, from)].state == Running then from
    else Distance(ring, i, from + 1)
  }

  /** The first RUNNING task after position i in ring order, i itself last; when nobody runs,
      the task right after i. */
  function PickNext(ring: seq<Proc>, i: nat): (j: nat)
    requires i < |ring|
    ensures j < |ring|
  {
    var n := |ring|;
    var k := Distance(ring, i, 1);
    if ring[Ahead(n, i, k)].state == Running then Ahead(n, i, k) else Ahead(n, i, 1)
  }

  /** The k-th task after position i is the first RUNNING one. */
  ghost predicate FirstAhead(ring: seq<Proc>, i: nat, k: nat)
    requires i < |ring|
  {
    1 <= k <= |ring| && ring[Ahead(|ring|, i, k)].state == Running
    && forall m :: 1 <= m < k ==> ring[Ahead(|ring|, i, m)].state != Running
  }

  /** Exactly the first RUNNING task ahead is picked; without one, whoever is next. */
  lemma PicksFirst(ring: seq<Proc>, i: nat)
    requires i < |ring|
    ensures forall k: nat :: FirstAhead(ring, i, k) ==> PickNext(ring, i) == Ahead(|ring|, i, k)
    ensures (forall k: nat :: !FirstAhead(ring, i, k)) ==>
              PickNext(ring, i) == Ahead(|ring|, i, 1)
                && forall m :: 1 <= m <= |ring| ==> ring[Ahead(|ring|, i, m)].state != Running
  {
    var d := Distance(ring, i, 1);
    if ring[Ahead(|ring|, i, d)].state == Running {
      assert FirstAhead(ring, i, d);
      forall k: nat | FirstAhead(ring, i, k) ensures k == d { }
    } else {
      assert d == |ring|;
    }
  }

  function Schedule(s: Sys): Sys
    requires s.cur == 0 || HasCurrent(s)
  {
    if s.ring == [] then s
    else if s.cur == 0 then s.(cur := s.ring[0].pid)
    else s.(cur := s.ring[PickNext(s.ring, Find(s.ring, s.cur))].pid)
  }

  // ---- fork, exec, exit, wait4 --------------------------------------------------------

  function Fork(s: Sys): Sys
    requires HasCurrent(s)
  {
    var i := Find(s.ring, s.cur);
    var child := Proc(s.nextPid, s.cur, Running, 0, 0, None);
    s.(ring := s.ring[i := s.ring[i].(state := Blocked)] + [child], nextPid := s.nextPid + 1)
  }

  /** The snapshot exec leaves: the parent's image, if the parent has one and nothing was
      saved before. */
  function Saved(s: Sys): Option<seq<byte>>
    requires HasCurrent(s) && |s.image| == WINDOW
  {
    var i := Find(s.ring, s.cur);
    var p := Find(s.ring, s.ring[i].ppid);
    var saves := s.ring[i].ppid != 0 && s.ring[i].snapshot == None && p < |s.ring| && 0 < s.ring[p].imgSize <= WINDOW;
    if saves then Some(s.image[..s.ring[p].imgSize]) else s.ring[i].snapshot
  }

  /** Commit of a successful exec: the parent's image is saved first, then the new image
      overlays the window. */
  function Exec(s: Sys, content: seq<byte>): Sys
    requires HasCurrent(s) && |s.image| == WINDOW && |content| <= WINDOW
  {
    var i := Find(s.ring, s.cur);
    s.(ring := s.ring[i := s.ring[i].(imgSize := |content|, snapshot := Saved(s))],
       image := content + s.image[|content|..])
  }

  /** exec's first change: the snapshot, with its length in the size field. */
  function Snapped(s: Sys): Sys
    requires HasCurrent(s) && |s.image| == WINDOW
  {
    var i := Find(s.ring, s.cur);
    var p, saved := s.ring[i], Saved(s);
    s.(ring := s.ring[i := p.(snapshot := saved, imgSize := if saved == p.snapshot then p.imgSize else |saved.value|)])
  }

  /** exec's last: the size of the image that runs now. */
  function Resized(s: Sys, n: nat): Sys {
    var i := Find(s.ring, s.cur);
    if i == |s.ring| then s else s.(ring := s.ring[i := s.ring[i].(imgSize := n)])
  }

  lemma {:induction false} SamePids(a: seq<Proc>, b: seq<Proc>, pid: nat)
    requires |a| == |b| && forall j :: 0 <= j < |a| ==> a[j].pid == b[j].pid
    ensures Find(a, pid) == Find(b, pid)
  {
    if a != [] { SamePids(a[1..], b[1..], pid); }
  }

  lemma SnappedCurrent(s: Sys, image: seq<byte>)
    requires HasCurrent(s) && |s.image| == WINDOW
    ensures HasCurrent(Snapped(s).(image := image)) && Find(Snapped(s).ring, s.cur) == Find(s.ring, s.cur)
  {
    var r := Snapped(s).ring;
    forall j | 0 <= j < |r| ensures r[j].pid == s.ring[j].pid { }
    SamePids(s.ring, r, s.cur);
  }

  /** The two, with the new image between them, are exec. */
  lemma ExecParts(s: Sys, content: seq<byte>)
    requires HasCurrent(s) && |s.image| == WINDOW && |content| <= WINDOW
    ensures Resized(Snapped(s).(image := content + s.image[|content|..]), |content|) == Exec(s, content)
  {
    SnappedCurrent(s, content + s.image[|content|..]);
  }

  /** A program's store into user memory. */
  function Write(s: Sys, at: nat, b: byte): Sys
    requires at < |s.image|
  {
    s.(image := s.image[at := b])
  }

  /** n bytes are copied back from a snapshot; past its end the copy reads whatever the heap
      holds there. */
  function Restored(image: seq<byte>, snap: seq<byte>, n: nat, heap: seq<byte>): seq<byte>
    requires |heap| == |image|
  {
    seq(|image|, i requires 0 <= i < |image| =>
      if i >= n then image[i] else if i < |snap| then snap[i] else heap[i])
  }

  function Unblock(ring: seq<Proc>, pid: nat): seq<Proc> {
    if ring == [] then []
    else if ring[0].pid == pid && ring[0].state == Blocked then [ring[0].(state := Running)] + ring[1..]
    else [ring[0]] + Unblock(ring[1..], pid)
  }

  function Adopted(p: Proc, from: nat, to: nat): Proc {
    if p.ppid == from then p.(ppid := to) else p
  }

  function Reparent(ring: seq<Proc>, from: nat, to: nat): seq<Proc> {
    seq(|ring|, i requires 0 <= i < |ring| => Adopted(ring[i], from, to))
  }

  /** task_exit: the current task becomes a zombie, its parent's image comes back, the parent
      wakes up, and its children pass to the grandparent. */
  function TaskExit(s: Sys, status: int, heap: seq<byte>): Sys
    requires HasCurrent(s) && |heap| == |s.image|
  {
    var i := Find(s.ring, s.cur);
    var p := s.ring[i];
    var r1 := s.ring[i := p.(state := Zombie, exitCode := status, snapshot := None)];
    var r2 := if p.ppid == 0 then r1 else Unblock(r1, p.ppid);
    s.(ring := Reparent(r2, s.cur, p.ppid),
       image := if p.snapshot.Some? then Restored(s.image, p.snapshot.value, p.imgSize, heap) else s.image)
  }

  function Respawn(s: Sys): Sys {
    s.(ring := s.ring + [Proc(s.nextPid, 0, Running, 0, 0, None)], nextPid := s.nextPid + 1)
  }

  /** sys_exit and the fault handler: a dead root task is replaced at once. */
  function Exit(s: Sys, status: int, heap: seq<byte>): Sys
    requires HasCurrent(s) && |heap| == |s.image|
  {
    var t := TaskExit(s, status, heap);
    if Cur(s).ppid == 0 then Respawn(t) else t
  }

  ghost predicate Awaited(t: Proc, parent: nat, pid: int) { t.ppid == parent && (pid == -1 || pid == t.pid) }

  /** First awaited zombie in ring order at or after i, |ring| when there is none. */
  ghost function FirstZombie(ring: seq<Proc>, parent: nat, pid: int, i: nat): (k: nat)
    requires i <= |ring|
    ensures i <= k <= |ring|
    ensures k < |ring| ==> Awaited(ring[k], parent, pid) && ring[k].state == Zombie
    ensures forall j :: i <= j < k ==> !(Awaited(ring[j], parent, pid) && ring[j].state == Zombie)
    decreases |ring| - i
  {
    if i == |ring| || (Awaited(ring[i], parent, pid) && ring[i].state == Zombie) then i
    else FirstZombie(ring, parent, pid, i + 1)
  }

  ghost predicate HasChild(ring: seq<Proc>, parent: nat, pid: int) {
    exists i :: 0 <= i < |ring| && Awaited(ring[i], parent, pid)
  }

  /** Result and successor state; -2 asks the caller to retry. */
  ghost function Wait4(s: Sys, pid: int, noHang: bool): (r: (int, Sys)) {
    var k := FirstZombie(s.ring, s.cur, pid, 0);
    if !HasChild(s.ring, s.cur, pid) then (-1, s)
    else if k < |s.ring| then (s.ring[k].pid as int, s.(ring := s.ring[..k] + s.ring[k + 1..]))
    else if noHang then (0, s)
    else (-2, s)
  }

  /** Killing another task marks it dead and does nothing else. */
  function KillOther(s: Sys, pid: nat, sig: nat): Sys {
    var i := Find(s.ring, pid);
    if i == |s.ring| then s else s.(ring := s.ring[i := s.ring[i].(state := Zombie, exitCode := 128 + sig)])
  }

  /** The kill system call: signal 0 only looks the target up, and killing oneself is an exit
      without the respawn. */
  function Kill(s: Sys, pid: nat, sig: nat, heap: seq<byte>): Sys
    requires HasCurrent(s) && |heap| == |s.image|
  {
    if Find(s.ring, pid) == |s.ring| || sig == 0 then s
    else if pid == s.cur then TaskExit(s, 128 + sig, heap)
    else KillOther(s, pid, sig)
  }

  /** What the target of a kill may be for the chain to survive it. */
  predicate Harmless(s: Sys, pid: nat, sig: nat) {
    var i := Find(s.ring, pid);
    i == |s.ring| || sig == 0 || (if pid == s.cur then s.ring[i].ppid != 0 else s.ring[i].state == Zombie)
  }

  // ---- the parent chain ----------------------------------------------------------------

  ghost predicate UniquePids(ring: seq<Proc>) {
    forall i, j :: 0 <= i < j < |ring| ==> ring[i].pid != ring[j].pid
  }

  /** If p is the k-th task of the chain: its parent is the one before, and it is blocked
      unless it is the last. */
  ghost predicate Linked(p: Proc, c: seq<nat>, k: nat)
    requires k < |c|
  {
    c[k] == p.pid ==>
      p.ppid == (if k == 0 then 0 else c[k - 1]) && p.state == if k == |c| - 1 then Running else Blocked
  }

  /** c lists the non-zombie pids from the root task down to the current one: everybody but
      the last is blocked waiting for the next, and zombies hang off members of the chain. */
  ghost predicate OnChain(p: Proc, c: seq<nat>) {
    && (p.state != Zombie <==> p.pid in c)
    && (p.state == Zombie ==> p.ppid == 0 || p.ppid in c)
    && (forall k: nat :: k < |c| ==> Linked(p, c, k))
  }

  ghost predicate Ascending(c: seq<nat>) { forall k, l :: 0 <= k < l < |c| ==> c[k] < c[l] }

  ghost predicate Inv(s: Sys, c: seq<nat>) {
    && UniquePids(s.ring) && (forall i :: 0 <= i < |s.ring| ==> 0 < s.ring[i].pid < s.nextPid)
    && c != [] && Ascending(c) && (forall k :: 0 <= k < |c| ==> 0 < c[k] && Find(s.ring, c[k]) < |s.ring|)
    && (forall i :: 0 <= i < |s.ring| ==> OnChain(s.ring[i], c))
    && s.cur == c[|c| - 1]
  }

  lemma FindIs(ring: seq<Proc>, i: nat)
    requires UniquePids(ring) && i < |ring|
    ensures Find(ring, ring[i].pid) == i
  {
  }

  /** Exactly the current task is runnable. */
  lemma OnlyCurrentRuns(s: Sys, c: seq<nat>, i: nat)
    requires Inv(s, c) && i < |s.ring|
    ensures s.ring[i].state == Running <==> s.ring[i].pid == s.cur
  {
    var p := s.ring[i];
    assert OnChain(p, c);
    if p.state != Zombie {
      var k :| 0 <= k < |c| && c[k] == p.pid;
      assert Linked(p, c, k);
    }
    assert Linked(p, c, |c| - 1);
  }

  lemma AheadReaches(n: nat, i: nat, j: nat) returns (k: nat)
    requires i < n && j < n
    ensures 1 <= k <= n && Ahead(n, i, k) == j && (i != j ==> k < n)
  {
    k := if j > i then j - i else j + n - i;
  }

  /** With one RUNNING task, schedule resumes it from wherever it is called. */
  lemma ScheduleUnique(s: Sys, j: nat)
    requires HasCurrent(s) && UniquePids(s.ring) && j < |s.ring|
    requires forall i :: 0 <= i < |s.ring| ==> (s.ring[i].state == Running <==> i == j)
    ensures Schedule(s) == s.(cur := s.ring[j].pid)
  {
    var n, i := |s.ring|, Find(s.ring, s.cur);
    var k := AheadReaches(n, i, j);
    var d := Distance(s.ring, i, 1);
    if d < k { assert s.ring[Ahead(n, i, d)].state == Running; }
    assert d <= k;
    assert s.ring[Ahead(n, i, d)].state == Running;
  }

  /** In a good state schedule returns to the current task: it never hands out the frame of a
      zombie or of a blocked task. */
  lemma ScheduleStays(s: Sys, c: seq<nat>)
    requires Inv(s, c)
    ensures HasCurrent(s) && Schedule(s) == s && Cur(s).state == Running
  {
    var j := Find(s.ring, s.cur);
    assert c[|c| - 1] == s.cur;
    forall i | 0 <= i < |s.ring| ensures s.ring[i].state == Running <==> i == j { OnlyCurrentRuns(s, c, i); }
    ScheduleUnique(s, j);
  }

  /** Everything about the invariant except who is current, which schedule then settles. */
  ghost predicate Ready(s: Sys, c: seq<nat>) {
    HasCurrent(s) && c != [] && Inv(s.(cur := c[|c| - 1]), c)
  }

  lemma ReadySchedules(s: Sys, c: seq<nat>)
    requires Ready(s, c)
    ensures Schedule(s) == s.(cur := c[|c| - 1]) && Inv(Schedule(s), c)
  {
    var t := s.(cur := c[|c| - 1]);
    var j := Find(s.ring, t.cur);
    forall i | 0 <= i < |s.ring| ensures s.ring[i].state == Running <==> i == j { OnlyCurrentRuns(t, c, i); }
    ScheduleUnique(s, j);
  }

  /** Pids that were in the ring still are, when every old position keeps its pid. */
  lemma StillThere(r: seq<Proc>, t: seq<Proc>, pid: nat)
    requires |r| <= |t| && forall i :: 0 <= i < |r| ==> t[i].pid == r[i].pid
    requires Find(r, pid) < |r|
    ensures Find(t, pid) < |t|
  {
    assert t[Find(r, pid)].pid == pid;
  }

  lemma ForkedOnChain(p: Proc, c: seq<nat>, next: nat)
    requires c != [] && Ascending(c) && OnChain(p, c) && p.pid < next && c[|c| - 1] < next
    ensures OnChain(if p.pid == c[|c| - 1] then p.(state := Blocked) else p, c + [next])
  {
    var d := c + [next];
    var q := if p.pid == c[|c| - 1] then p.(state := Blocked) else p;
    assert Linked(p, c, |c| - 1);
    forall k: nat | k < |d| ensures Linked(q, d, k) {
      if k < |c| { assert Linked(p, c, k); }
    }
  }

  lemma NewOnChain(c: seq<nat>, ppid: nat, next: nat)
    requires c != [] && Ascending(c) && c[|c| - 1] < next && ppid == c[|c| - 1]
    ensures OnChain(Proc(next, ppid, Running, 0, 0, None), c + [next])
  {
    var d := c + [next];
    forall k: nat | k < |d| ensures Linked(Proc(next, ppid, Running, 0, 0, None), d, k) { }
    assert d[|c|] == next;
  }

  lemma ForkPresent(s: Sys, c: seq<nat>, k: nat)
    requires Inv(s, c) && HasCurrent(s) && k <= |c|
    ensures 0 < (c + [s.nextPid])[k] && Find(Fork(s).ring, (c + [s.nextPid])[k]) < |s.ring| + 1
  {
    var t := Fork(s).ring;
    if k < |c| { StillThere(s.ring, t, c[k]); } else { assert t[|s.ring|].pid == s.nextPid; }
  }

  lemma ForkMember(s: Sys, c: seq<nat>, m: nat)
    requires Inv(s, c) && HasCurrent(s) && m <= |s.ring|
    ensures OnChain(Fork(s).ring[m], c + [s.nextPid])
  {
    assert c[|c| - 1] == s.cur;
    if m < |s.ring| {
      FindIs(s.ring, m);
      ForkedOnChain(s.ring[m], c, s.nextPid);
    } else {
      NewOnChain(c, s.cur, s.nextPid);
    }
  }

  /** fork: the child joins the end of the chain and runs next. */
  lemma ForkKeeps(s: Sys, c: seq<nat>)
    requires Inv(s, c)
    ensures HasCurrent(s) && Ready(Fork(s), c + [s.nextPid])
  {
    assert c[|c| - 1] == s.cur;
    var t, d := Fork(s), c + [s.nextPid];
    forall k | 0 <= k < |d| ensures 0 < d[k] && Find(t.ring, d[k]) < |t.ring| { ForkPresent(s, c, k); }
    forall m | 0 <= m < |t.ring| ensures OnChain(t.ring[m], d) { ForkMember(s, c, m); }
    StillThere(s.ring, t.ring, s.cur);
    ForkPids(s, c);
  }

  lemma ForkPids(s: Sys, c: seq<nat>)
    requires Inv(s, c) && HasCurrent(s)
    ensures UniquePids(Fork(s).ring) && Ascending(c + [s.nextPid])
    ensures forall i :: 0 <= i < |Fork(s).ring| ==> 0 < Fork(s).ring[i].pid < s.nextPid + 1
  {
    var t := Fork(s).ring;
    assert forall i :: 0 <= i < |s.ring| ==> t[i].pid == s.ring[i].pid;
    assert t[|s.ring|].pid == s.nextPid;
    assert c[|c| - 1] == s.cur < s.nextPid by { var i := Find(s.ring, s.cur); }
  }

  // ---- exit ----------------------------------------------------------------------------

  lemma {:induction false} UnblockAt(ring: seq<Proc>, pid: nat)
    requires UniquePids(ring)
    ensures |Unblock(ring, pid)| == |ring|
    ensures forall i :: 0 <= i < |ring| ==>
              Unblock(ring, pid)[i] == if ring[i].pid == pid && ring[i].state == Blocked then ring[i].(state := Running)
                else ring[i]
  {
    if ring != [] {
      UnblockAt(ring[1..], pid);
    }
  }

  /** What exiting does to one task of the ring. */
  function AfterExit(p: Proc, cur: nat, ppid: nat, status: int): Proc {
    if p.pid == cur then
      p.(state := Zombie, exitCode := status, snapshot := None, ppid := if p.ppid == cur then ppid else p.ppid)
    else Adopted(if ppid != 0 && p.pid == ppid && p.state == Blocked then p.(state := Running) else p, cur, ppid)
  }

  lemma TaskExitAt(s: Sys, status: int, heap: seq<byte>)
    requires HasCurrent(s) && |heap| == |s.image| && UniquePids(s.ring)
    ensures var t := TaskExit(s, status, heap);
      && |t.ring| == |s.ring| && t.cur == s.cur && t.nextPid == s.nextPid
      && forall i :: 0 <= i < |s.ring| ==> t.ring[i] == AfterExit(s.ring[i], s.cur, Cur(s).ppid, status)
  {
    var i := Find(s.ring, s.cur);
    var p := s.ring[i];
    var r1 := s.ring[i := p.(state := Zombie, exitCode := status, snapshot := None)];
    assert UniquePids(r1);
    UnblockAt(r1, p.ppid);
  }

  lemma TaskExitImage(s: Sys, status: int, heap: seq<byte>)
    requires HasCurrent(s) && |heap| == |s.image|
    ensures var p := Cur(s);
      TaskExit(s, status, heap).image == if p.snapshot.Some? then Restored(s.image, p.snapshot.value, p.imgSize, heap)
        else s.image
  {
  }

  /** t is the ring after the exit of s's current task. */
  ghost predicate Exited(s: Sys, t: seq<Proc>, ppid: nat, status: int) {
    |t| == |s.ring| && forall i :: 0 <= i < |t| ==> t[i] == AfterExit(s.ring[i], s.cur, ppid, status)
  }

  lemma ExitedPids(s: Sys, t: seq<Proc>, ppid: nat, status: int)
    requires Exited(s, t, ppid, status) && UniquePids(s.ring)
    ensures UniquePids(t) && forall i :: 0 <= i < |t| ==> t[i].pid == s.ring[i].pid
  {
    assert forall i :: 0 <= i < |t| ==> t[i].pid == s.ring[i].pid;
  }

  lemma ChildLeaves(s: Sys, t: seq<Proc>, c: seq<nat>, status: int)
    requires Inv(s, c) && |c| > 1 && Exited(s, t, c[|c| - 2], status)
    ensures Inv(s.(ring := t, cur := c[|c| - 2]), c[..|c| - 1])
  {
    var d := c[..|c| - 1];
    assert c[|c| - 1] == s.cur;
    ExitedPids(s, t, c[|c| - 2], status);
    forall k | 0 <= k < |d| ensures 0 < d[k] && Find(t, d[k]) < |t| { StillThere(s.ring, t, c[k]); }
    forall m | 0 <= m < |t| ensures OnChain(t[m], d) { ExitedOnChain(s.ring[m], c, status); }
  }

  lemma ExitChild(s: Sys, c: seq<nat>, status: int, heap: seq<byte>)
    requires Inv(s, c) && |c| > 1 && |heap| == |s.image|
    ensures HasCurrent(s) && Ready(TaskExit(s, status, heap), c[..|c| - 1]) && Cur(s).ppid == c[|c| - 2]
  {
    assert c[|c| - 1] == s.cur;
    assert OnChain(Cur(s), c) && Linked(Cur(s), c, |c| - 1);
    TaskExitAt(s, status, heap);
    var t := TaskExit(s, status, heap);
    assert Exited(s, t.ring, c[|c| - 2], status);
    ChildLeaves(s, t.ring, c, status);
    ExitedPids(s, t.ring, c[|c| - 2], status);
    StillThere(s.ring, t.ring, s.cur);
    ImageIrrelevant(s.(ring := t.ring, cur := c[|c| - 2]), t.image, c[..|c| - 1]);
  }

  lemma ImageIrrelevant(s: Sys, image: seq<byte>, c: seq<nat>)
    requires Inv(s, c)
    ensures Inv(s.(image := image), c)
  {
  }

  lemma ExitedOnChain(p: Proc, c: seq<nat>, status: int)
    requires |c| > 1 && Ascending(c) && (forall k :: 0 <= k < |c| ==> 0 < c[k]) && OnChain(p, c)
    ensures OnChain(AfterExit(p, c[|c| - 1], c[|c| - 2], status), c[..|c| - 1])
  {
    var n := |c|;
    var d := c[..n - 1];
    var q := AfterExit(p, c[n - 1], c[n - 2], status);
    assert forall x :: x in c <==> x in d || x == c[n - 1];
    assert forall k :: 0 <= k < n - 1 ==> d[k] == c[k] && c[k] < c[n - 1];
    assert d[n - 2] == c[n - 2];
    assert Linked(p, c, n - 1) && Linked(p, c, n - 2);
    forall k: nat | k < n - 1 ensures Linked(q, d, k) { assert Linked(p, c, k); }
    if p.state != Zombie && p.pid != c[n - 1] {
      var k :| 0 <= k < |d| && d[k] == p.pid;
      assert Linked(p, c, k);
    }
  }

  lemma RootExited(p: Proc, c: seq<nat>, status: int, next: nat)
    requires |c| == 1 && c[0] > 0 && OnChain(p, c) && p.pid < next
    ensures OnChain(AfterExit(p, c[0], 0, status), [next])
  {
    assert Linked(p, c, 0);
  }

  lemma RootLeaves(s: Sys, t: seq<Proc>, c: seq<nat>, status: int)
    requires Inv(s, c) && |c| == 1 && Exited(s, t, 0, status)
    ensures Inv(Respawn(s.(ring := t)).(cur := s.nextPid), [s.nextPid])
  {
    assert c[0] == s.cur;
    var r := t + [Proc(s.nextPid, 0, Running, 0, 0, None)];
    ExitedPids(s, t, 0, status);
    forall m | 0 <= m < |r| ensures OnChain(r[m], [s.nextPid]) {
      if m < |t| {
        RootExited(s.ring[m], c, status, s.nextPid);
      } else {
        assert Linked(r[m], [s.nextPid], 0);
      }
    }
    assert r[|t|].pid == s.nextPid;
  }

  lemma ExitRoot(s: Sys, c: seq<nat>, status: int, heap: seq<byte>)
    requires Inv(s, c) && |c| == 1 && |heap| == |s.image|
    ensures HasCurrent(s) && Cur(s).ppid == 0 && Ready(Respawn(TaskExit(s, status, heap)), [s.nextPid])
  {
    assert c[0] == s.cur;
    assert OnChain(Cur(s), c) && Linked(Cur(s), c, 0);
    TaskExitAt(s, status, heap);
    var t := TaskExit(s, status, heap);
    assert Exited(s, t.ring, 0, status);
    RootLeaves(s, t.ring, c, status);
    ImageIrrelevant(Respawn(s.(ring := t.ring)).(cur := s.nextPid), t.image, [s.nextPid]);
    ExitedPids(s, t.ring, 0, status);
    StillThere(s.ring, Respawn(t).ring, s.cur);
  }

  function ExitChain(s: Sys, c: seq<nat>): seq<nat>
    requires c != []
  {
    if |c| > 1 then c[..|c| - 1] else [s.nextPid]
  }

  /** exit or fault: the parent runs again, or a fresh root task does. */
  lemma ExitKeeps(s: Sys, c: seq<nat>, status: int, heap: seq<byte>)
    requires Inv(s, c) && |heap| == |s.image|
    ensures HasCurrent(s) && Ready(Exit(s, status, heap), ExitChain(s, c))
  {
    if |c| > 1 {
      ExitChild(s, c, status, heap);
      assert c[|c| - 2] > 0;
    } else {
      ExitRoot(s, c, status, heap);
    }
  }

  /** wait4 by the current task never has to retry, never reports a live child, and reaps only
      zombies: -1 exactly when there is no awaited child. */
  lemma WaitKeeps(s: Sys, c: seq<nat>, pid: int, noHang: bool)
    requires Inv(s, c)
    ensures var (r, t) := Wait4(s, pid, noHang);
      Inv(t, c) && (r == -1 || r > 0) && (r == -1 <==> !HasChild(s.ring, s.cur, pid))
  {
    forall i | 0 <= i < |s.ring| && s.ring[i].ppid == s.cur ensures s.ring[i].state == Zombie {
      OnlyZombieChildren(s, c, i);
    }
    var k := FirstZombie(s.ring, s.cur, pid, 0);
    if k < |s.ring| {
      RemoveKeeps(s, c, k);
    }
  }

  lemma OnlyZombieChildren(s: Sys, c: seq<nat>, i: nat)
    requires Inv(s, c) && i < |s.ring| && s.ring[i].ppid == s.cur
    ensures s.ring[i].state == Zombie
  {
    var p := s.ring[i];
    assert OnChain(p, c) && c[|c| - 1] == s.cur && c[|c| - 1] > 0;
    forall k: nat | k < |c| ensures c[k] != p.pid { NotBelowLast(p, c, k); }
  }

  lemma NotBelowLast(p: Proc, c: seq<nat>, k: nat)
    requires k < |c| && Ascending(c) && c[|c| - 1] > 0 && OnChain(p, c) && p.ppid == c[|c| - 1]
    ensures c[k] != p.pid
  {
    assert Linked(p, c, k);
  }

  lemma RemoveKeeps(s: Sys, c: seq<nat>, k: nat)
    requires Inv(s, c) && k < |s.ring| && s.ring[k].state == Zombie
    ensures Inv(s.(ring := s.ring[..k] + s.ring[k + 1..]), c)
  {
    var r := s.ring[..k] + s.ring[k + 1..];
    assert OnChain(s.ring[k], c);
    assert forall i :: 0 <= i < k ==> r[i] == s.ring[i];
    assert forall i :: k <= i < |r| ==> r[i] == s.ring[i + 1];
    forall l | 0 <= l < |c| ensures Find(r, c[l]) < |r| {
      var m := Find(s.ring, c[l]);
      assert m != k;
      assert r[if m < k then m else m - 1].pid == c[l];
    }
    RemoveUnique(s.ring, r, k);
  }

  lemma RemoveUnique(ring: seq<Proc>, r: seq<Proc>, k: nat)
    requires UniquePids(ring) && k < |ring| && |r| == |ring| - 1
    requires forall i :: 0 <= i < k ==> r[i] == ring[i]
    requires forall i :: k <= i < |r| ==> r[i] == ring[i + 1]
    ensures UniquePids(r)
  {
    forall i, j | 0 <= i < j < |r| ensures r[i].pid != r[j].pid {
      var i', j' := if i < k then i else i + 1, if j < k then j else j + 1;
      assert r[i] == ring[i'] && r[j] == ring[j'];
    }
  }
}
