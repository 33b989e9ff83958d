/** Descriptor tables of all tasks and the reference counts of the files and pipes behind them. */
module FileTable {
  import opened Basics
  import opened Tasks

  /** All slots of all tables, with multiplicity. */
  ghost function Held(tables: seq<seq<File?>>): multiset<File?> {
    if tables == [] then multiset{} else multiset(tables[0]) + Held(tables[1..])
  }

  lemma {:induction false} HeldConcat(a: seq<seq<File?>>, b: seq<seq<File?>>)
    ensures Held(a + b) == Held(a) + Held(b)
  {
    if a == [] {
      assert a + b == b;
    } else {
      assert (a + b)[1..] == a[1..] + b;
      HeldConcat(a[1..], b);
    }
  }

  lemma HeldSplit(tables: seq<seq<File?>>, i: nat)
    requires i < |tables|
    ensures Held(tables) == Held(tables[..i]) + multiset(tables[i]) + Held(tables[i + 1..])
  {
    assert tables == tables[..i] + tables[i..];
    HeldConcat(tables[..i], tables[i..]);
  }

  /** One slot changes hands. */
  lemma HeldUpdate(tables: seq<seq<File?>>, i: nat, k: nat, f: File?)
    requires i < |tables| && k < |tables[i]|
    ensures Held(tables[i := tables[i][k := f]]) == Held(tables) - multiset{tables[i][k]} + multiset{f}
  {
    var t := tables[i := tables[i][k := f]];
    HeldSplit(tables, i);
    HeldSplit(t, i);
    assert t[..i] == tables[..i] && t[i + 1..] == tables[i + 1..];
    assert tables[i][k] in multiset(tables[i]);
  }

  lemma {:induction false} HeldHas(tables: seq<seq<File?>>, f: File?)
    requires f in Held(tables)
    ensures exists i, k :: 0 <= i < |tables| && 0 <= k < |tables[i]| && tables[i][k] == f
  {
    if f in multiset(tables[0]) {
      var k :| 0 <= k < |tables[0]| && tables[0][k] == f;
    } else {
      HeldHas(tables[1..], f);
      var i, k :| 0 <= i < |tables[1..]| && 0 <= k < |tables[1..][i]| && tables[1..][i][k] == f;
      assert tables[i + 1][k] == f;
    }
  }

  ghost function SlotsIn(t: seq<File?>, f: File, i: nat): set<(nat, nat)> {
    set k: nat | k < |t| && t[k] == f :: (i, k)
  }

  /** The slots (task, descriptor) pointing to f. */
  ghost function Slots(tables: seq<seq<File?>>, f: File): set<(nat, nat)> {
    set i: nat, k: nat | i < |tables| && k < |tables[i]| && tables[i][k] == f :: (i, k)
  }

  lemma {:induction false} SlotsInCount(t: seq<File?>, f: File, i: nat)
    ensures |SlotsIn(t, f, i)| == multiset(t)[f]
  {
    if t != [] {
      var n := |t| - 1;
      SlotsInCount(t[..n], f, i);
      assert t == t[..n] + [t[n]];
      assert SlotsIn(t, f, i) == SlotsIn(t[..n], f, i) + if t[n] == f then {(i, n)} else {};
    }
  }

  /** A multiplicity is a number of slots. */
  lemma {:induction false} HeldCounts(tables: seq<seq<File?>>, f: File)
    ensures Held(tables)[f] == |Slots(tables, f)|
  {
    if tables != [] {
      var n := |tables| - 1;
      HeldCounts(tables[..n], f);
      assert tables == tables[..n] + [tables[n]];
      HeldConcat(tables[..n], [tables[n]]);
      assert Held([tables[n]][1..]) == multiset{};
      SlotsInCount(tables[n], f, n);
      assert Slots(tables, f) == Slots(tables[..n], f) + SlotsIn(tables[n], f, n);
    }
  }

  /** The open files that are one end of a pipe. */
  ghost function Ends(files: set<File>, p: Pipe, reading: bool): set<File> {
    set f | f in files && f.pipe == p && (f.pipeEnd == 0 <==> reading)
  }

  ghost predicate Counted(f: File, held: multiset<File?>, pipes: set<Pipe>)
    reads f`refCount
  {
    f.refCount == held[f] > 0 && (f.pipe != null ==> f.pipe in pipes)
  }

  /** The live files are those some slot holds, each counted exactly. */
  ghost predicate FilesOk(files: set<File>, held: multiset<File?>, pipes: set<Pipe>)
    reads files`refCount
  {
    (forall f :: f in held && f != null ==> f in files) && (forall f :: f in files ==> Counted(f, held, pipes))
  }

  ghost predicate PipeCounted(p: Pipe, files: set<File>)
    reads p`readRef, p`writeRef
  {
    p.readRef == |Ends(files, p, true)| && p.writeRef == |Ends(files, p, false)| && p.readRef + p.writeRef > 0
  }

  ghost predicate PipesOk(pipes: set<Pipe>, files: set<File>)
    reads pipes`readRef, pipes`writeRef
  {
    forall p :: p in pipes ==> PipeCounted(p, files)
  }

  /** tables is the descriptor table of each owner. */
  ghost predicate Mirrors(owners: seq<Task>, tables: seq<seq<File?>>)
    reads owners`fds
  {
    |tables| == |owners| && forall i :: 0 <= i < |owners| ==> owners[i].fds == tables[i] && |tables[i]| == MAX_FDS
  }

  /** Empty slots do not matter. */
  lemma SameRefs(files: set<File>, held: multiset<File?>, held': multiset<File?>, pipes: set<Pipe>)
    requires FilesOk(files, held, pipes) && forall f: File :: held[f] == held'[f]
    ensures FilesOk(files, held', pipes)
  {
    forall f: File? | f in held' && f != null ensures f in files { assert held[f] == held'[f]; }
    forall f | f in files ensures Counted(f, held', pipes) { assert Counted(f, held, pipes); }
  }

  lemma LastEnd(files: set<File>, f: File, p: Pipe)
    requires f in files && f.pipe == p
    ensures |Ends(files - {f}, p, true)| == |Ends(files, p, true)| - if f.pipeEnd == 0 then 1 else 0
    ensures |Ends(files - {f}, p, false)| == |Ends(files, p, false)| - if f.pipeEnd == 0 then 0 else 1
  {
    var r := f.pipeEnd == 0;
    assert f in Ends(files, p, r);
    assert Ends(files - {f}, p, r) == Ends(files, p, r) - {f};
    assert Ends(files - {f}, p, !r) == Ends(files, p, !r);
  }

  lemma OtherEnds(files: set<File>, f: File, p: Pipe)
    requires f.pipe != p
    ensures Ends(files - {f}, p, true) == Ends(files, p, true)
    ensures Ends(files - {f}, p, false) == Ends(files, p, false)
  {
  }

  lemma SlotCleared(files: set<File>, held: multiset<File?>, loose: multiset<File?>, f: File, pipes: set<Pipe>)
    requires FilesOk(files, held + loose - multiset{f}, pipes) && f in held
    ensures FilesOk(files, held - multiset{f} + multiset{null} + loose, pipes)
  {
    SameRefs(files, held + loose - multiset{f}, held - multiset{f} + multiset{null} + loose, pipes);
  }

  lemma SlotFilled(files: set<File>, held: multiset<File?>, loose: multiset<File?>, f: File, pipes: set<Pipe>)
    requires FilesOk(files, held + loose + multiset{f}, pipes)
    ensures FilesOk(files, held - multiset{null} + multiset{f} + loose, pipes)
  {
    SameRefs(files, held + loose + multiset{f}, held - multiset{null} + multiset{f} + loose, pipes);
  }

  lemma {:induction false} EmptySlots(t: seq<File?>)
    requires forall k :: 0 <= k < |t| ==> t[k] == null
    ensures forall f: File :: multiset(t)[f] == 0
  {
    if t != [] {
      assert t == [t[0]] + t[1..];
      EmptySlots(t[1..]);
    }
  }

  lemma EmptyTable(files: set<File>, refs: multiset<File?>, t: seq<File?>, pipes: set<Pipe>)
    requires FilesOk(files, refs, pipes) && t == seq(MAX_FDS, _ => null)
    ensures FilesOk(files, refs + multiset(t), pipes)
  {
    EmptySlots(t);
    SameRefs(files, refs, refs + multiset(t), pipes);
  }

  lemma EmptyTableGone(files: set<File>, refs: multiset<File?>, t: seq<File?>, pipes: set<Pipe>)
    requires FilesOk(files, refs + multiset(t), pipes) && t == seq(MAX_FDS, _ => null)
    ensures FilesOk(files, refs, pipes)
  {
    EmptySlots(t);
    SameRefs(files, refs + multiset(t), refs, pipes);
  }

  lemma HeldAdded(tables: seq<seq<File?>>, t: seq<File?>)
    ensures Held(tables + [t]) == Held(tables) + multiset(t)
  {
    HeldConcat(tables, [t]);
    assert Held([t][1..]) == multiset{};
  }

  lemma HeldRemoved(tables: seq<seq<File?>>, i: nat)
    requires i < |tables|
    ensures Held(tables) == Held(Without(tables, i)) + multiset(tables[i])
  {
    HeldSplit(tables, i);
    HeldConcat(tables[..i], tables[i + 1..]);
  }

  lemma StillMirrors(owners: seq<Task>, tables: seq<seq<File?>>, i: nat)
    requires i < |owners| && Distinct(owners) && Mirrors(owners, tables)
    ensures Distinct(Without(owners, i)) && Mirrors(Without(owners, i), Without(tables, i))
  {
  }

  /** A table copied up to slot i. */
  function Copied(fds: seq<File?>, i: nat): (r: seq<File?>)
    requires i <= |fds|
    ensures |r| == |fds|
  {
    fds[..i] + seq(|fds| - i, _ => null)
  }

  lemma NextSlot(fds: seq<File?>, i: nat)
    requires i < |fds|
    ensures Copied(fds, i)[i] == null && Copied(fds, i)[i := fds[i]] == Copied(fds, i + 1)
  {
  }

  lemma AllCopied(fds: seq<File?>)
    ensures Copied(fds, 0) == seq(|fds|, _ => null) && Copied(fds, |fds|) == fds
  {
  }

  lemma SlotTaken(files: set<File>, held: multiset<File?>, loose: multiset<File?>, f: File, pipes: set<Pipe>)
    requires FilesOk(files, held + loose, pipes) && f in loose
    ensures FilesOk(files, held - multiset{null} + multiset{f} + (loose - multiset{f}), pipes)
  {
    SameRefs(files, held + loose, held - multiset{null} + multiset{f} + (loose - multiset{f}), pipes);
  }

  lemma NewOther(files: set<File>, f: File, pipes: set<Pipe>)
    requires PipesOk(pipes, files) && f !in files && f.pipe == null
    ensures PipesOk(pipes, files + {f})
  {
    forall q | q in pipes ensures PipeCounted(q, files + {f}) {
      assert PipeCounted(q, files);
      assert files + {f} - {f} == files;
      OtherEnds(files + {f}, f, q);
    }
  }

  lemma NewPipe(files: set<File>, refs: multiset<File?>, pipes: set<Pipe>, p: Pipe, rf: File, wf: File)
    requires FilesOk(files, refs, pipes) && PipesOk(pipes, files) && p !in pipes && p.readRef == 1 && p.writeRef == 1
    requires rf !in files && wf !in files && rf != wf && rf.refCount == 1 && wf.refCount == 1
    requires rf.pipe == p && wf.pipe == p && rf.pipeEnd == 0 && wf.pipeEnd == 1
    ensures FilesOk(files + {rf, wf}, refs + multiset{rf, wf}, pipes + {p})
    ensures PipesOk(pipes + {p}, files + {rf, wf})
  {
    var all := files + {rf, wf};
    forall g | g in files ensures Counted(g, refs + multiset{rf, wf}, pipes + {p}) && g.pipe != p {
      assert Counted(g, refs, pipes);
    }
    assert Counted(rf, refs + multiset{rf, wf}, pipes + {p}) && Counted(wf, refs + multiset{rf, wf}, pipes + {p});
    assert Ends(all, p, true) == {rf} && Ends(all, p, false) == {wf};
    forall q | q in pipes ensures PipeCounted(q, all) {
      assert PipeCounted(q, files);
      assert Ends(all, q, true) == Ends(files, q, true) && Ends(all, q, false) == Ends(files, q, false);
    }
  }

  lemma FileGone(files: set<File>, refs: multiset<File?>, pipes: set<Pipe>, f: File)
    requires FilesOk(files, refs, pipes) && PipesOk(pipes, files) && f in files && f.refCount == 1 && f.pipe == null
    ensures FilesOk(files - {f}, refs - multiset{f}, pipes) && PipesOk(pipes, files - {f})
  {
    assert Counted(f, refs, pipes);
    forall g | g in files - {f} ensures Counted(g, refs - multiset{f}, pipes) { assert Counted(g, refs, pipes); }
    forall q | q in pipes ensures PipeCounted(q, files - {f}) {
      assert PipeCounted(q, files);
      OtherEnds(files, f, q);
    }
  }

  lemma NewFile(files: set<File>, held: multiset<File?>, pipes: set<Pipe>, f: File)
    requires FilesOk(files, held, pipes) && f !in files && f.refCount == 1 && (f.pipe != null ==> f.pipe in pipes)
    ensures FilesOk(files + {f}, held + multiset{f}, pipes)
  {
    forall g | g in files ensures Counted(g, held + multiset{f}, pipes) { assert Counted(g, held, pipes); }
  }

  /** An open descriptor number. */
  predicate Open(fds: seq<File?>, fd: int) { 0 <= fd < |fds| && fds[fd] != null }

  /** Exactly the first n descriptors are open. */
  ghost predicate FirstOpen(fds: seq<File?>, n: nat) {
    |fds| == MAX_FDS && forall k :: 0 <= k < MAX_FDS ==> (fds[k] != null <==> k < n)
  }

  /** The lowest empty slot from k on, -1 when there is none. */
  function FreeSlot(fds: seq<File?>, k: nat): (r: int)
    ensures r == -1 || (k <= r < |fds| && fds[r] == null)
    ensures forall j :: k <= j < |fds| && (r == -1 || j < r) ==> fds[j] != null
    decreases |fds| - k
  {
    if k >= |fds| then -1 else if fds[k] == null then k else FreeSlot(fds, k + 1)
  }

  /** At least two empty slots from 3 on. */
  predicate TwoFree(fds: seq<File?>) {
    var a := FreeSlot(fds, 3);
    a >= 0 && FreeSlot(fds, a + 1) >= 0
  }

  predicate IsPipe(rf: File?, wf: File?) {
    rf != null && wf != null && rf.pipe != null && rf.pipe == wf.pipe && rf.pipeEnd == 0 && wf.pipeEnd == 1
  }

  /** now is was with the two ends of one pipe in slots that were empty. */
  predicate PipePlaced(was: seq<File?>, now: seq<File?>, rfd: int, wfd: int) {
    && 3 <= rfd < wfd < |was| == |now| && was[rfd] == null == was[wfd]
    && now == was[rfd := now[rfd]][wfd := now[wfd]] && IsPipe(now[rfd], now[wfd])
  }

  /** Filling the first empty slot leaves the next one. */
  lemma FreeAfter(fds: seq<File?>, f: File)
    requires FreeSlot(fds, 3) >= 0
    ensures var a := FreeSlot(fds, 3);
      FreeSlot(fds[a := f], 3) == FreeSlot(fds, a + 1)
  {
    var a := FreeSlot(fds, 3);
    var b, c := FreeSlot(fds[a := f], 3), FreeSlot(fds, a + 1);
    if b >= 0 { assert fds[b] == null && b > a; }
    if c >= 0 { assert fds[a := f][c] == null; }
  }

  function Placed(fds: seq<File?>, f: File): seq<File?> {
    if FreeSlot(fds, 3) < 0 then fds else fds[FreeSlot(fds, 3) := f]
  }

  /** The lowest empty slot from 3 on takes the file, and no other changes. */
  lemma PlacedAt(fds: seq<File?>, f: File, k: nat)
    requires k < |fds|
    ensures |Placed(fds, f)| == |fds|
    ensures Placed(fds, f)[k] ==
      if k >= 3 && fds[k] == null && (forall j :: 3 <= j < k ==> fds[j] != null) then f else fds[k]
  {
  }

  /** Room for a pipe is two empty slots, wherever from 3 on. */
  lemma TwoFreeIs(fds: seq<File?>)
    ensures TwoFree(fds) <==> exists i, j :: 3 <= i < j < |fds| && fds[i] == null && fds[j] == null
  {
  }

  /** The loose references once f has been offered a slot. */
  ghost function Settled(loose: multiset<File?>, fd: int, f: File): multiset<File?> {
    if fd < 0 then loose else loose - multiset{f}
  }

  lemma StillLoose(loose: multiset<File?>, rf: File, wf: File, fd: int)
    requires wf in loose && rf != wf
    ensures wf in Settled(loose, fd, rf)
  {
  }

  lemma NoneLost(loose: multiset<File?>, rf: File, wf: File, rfd: int, wfd: int)
    ensures var l := Settled(Settled(loose + multiset{rf, wf}, rfd, rf), wfd, wf);
      if rfd >= 0 && wfd >= 0 then l == loose else l > loose
  {
    var l := Settled(Settled(loose + multiset{rf, wf}, rfd, rf), wfd, wf);
    assert rfd < 0 ==> l[rf] > loose[rf];
    assert wfd < 0 ==> l[wf] > loose[wf];
  }

  lemma TwoPlaced(fds: seq<File?>, rf: File, wf: File)
    requires IsPipe(rf, wf)
    ensures var x, a := Placed(fds, rf), FreeSlot(fds, 3);
      var b := FreeSlot(x, 3);
      && (TwoFree(fds) <==> a >= 0 && b >= 0)
      && (TwoFree(fds) ==> PipePlaced(fds, Placed(x, wf), a, b))
      && (!TwoFree(fds) ==> b < 0 && (if a < 0 then x else x[a := null]) == fds)
  {
    var x, a := Placed(fds, rf), FreeSlot(fds, 3);
    if a >= 0 {
      FreeAfter(fds, rf);
      assert x[a := null] == fds;
      var b := FreeSlot(x, 3);
      if b >= 0 { assert x[b := wf] == fds[a := rf][b := wf]; }
    }
  }

  class Descriptors {
    ghost var owners: seq<Task>          // the tasks of the ring
    ghost var tables: seq<seq<File?>>    // their descriptor tables
    ghost var files: set<File>           // allocated and not freed
    ghost var pipes: set<Pipe>
    ghost var loose: multiset<File?>     // references held outside every table

    ghost function Refs(): multiset<File?>
      reads this
    {
      Held(tables) + loose
    }

    ghost predicate Valid()
      reads this, owners`fds, files`refCount, pipes`readRef, pipes`writeRef
    {
      && Distinct(owners) && Mirrors(owners, tables)
      && FilesOk(files, Refs(), pipes)
      && PipesOk(pipes, files)
    }

    constructor ()
      ensures Valid() && owners == [] && files == {} && pipes == {} && loose == multiset{}
    {
      owners, tables, files, pipes, loose := [], [], {}, {}, multiset{};
    }

    ghost function Owner(t: Task): (i: nat)
      requires t in owners
      reads this
      ensures i < |owners| && owners[i] == t
    {
      var i :| 0 <= i < |owners| && owners[i] == t;
      i
    }

    /** Nothing live is out of reach, and no pipe outlives its ends. */
    lemma AllHeld()
      requires Valid()
      ensures forall f: File :: f in files <==> f in Refs()
      ensures forall p :: p in pipes ==> Ends(files, p, true) + Ends(files, p, false) != {}
    {
      forall f | f in files ensures f in Refs() { assert Counted(f, Refs(), pipes); }
      forall p | p in pipes ensures Ends(files, p, true) + Ends(files, p, false) != {} { assert PipeCounted(p, files); }
    }

    /** The conservation law: a count is exactly the number of slots over all tasks, plus what
        a failed pipe call lost. */
    lemma RefIsSlots(f: File)
      requires Valid() && f in files
      ensures f.refCount == |Slots(tables, f)| + loose[f]
    {
      assert Counted(f, Refs(), pipes);
      HeldCounts(tables, f);
    }

    /** With every table empty and nothing lost, no file and no pipe is left. */
    lemma NothingLeaks()
      requires Valid() && loose == multiset{}
        && forall i, k :: 0 <= i < |tables| && 0 <= k < |tables[i]| ==> tables[i][k] == null
      ensures files == {} && pipes == {}
    {
      AllHeld();
      forall f: File | f in files ensures false { HeldHas(tables, f); }
      assert forall p: Pipe :: Ends(files, p, true) + Ends(files, p, false) == {};
    }

    lemma SlotLive(i: nat, fd: nat)
      requires Valid() && i < |owners| && fd < MAX_FDS && owners[i].fds[fd] != null
      ensures var f := owners[i].fds[fd]; f in files && (f.pipe != null ==> f.pipe in pipes)
    {
      InHeld(i, fd);
      assert Counted(owners[i].fds[fd], Refs(), pipes);
    }

    /** Stores into a slot; the counts are the caller's business. */
    method Store(t: Task, fd: nat, f: File?, ghost i: nat)
      requires Distinct(owners) && Mirrors(owners, tables)
      requires i < |owners| && owners[i] == t && fd < MAX_FDS
      modifies t`fds, this`tables
      ensures t.fds == old(t.fds)[fd := f] && Mirrors(owners, tables)
      ensures Held(tables) == old(Held(tables)) - multiset{old(t.fds)[fd]} + multiset{f}
    {
      HeldUpdate(tables, i, fd, f);
      t.fds := t.fds[fd := f];
      tables := tables[i := tables[i][fd := f]];
    }

    // ---- release ------------------------------------------------------------------------

    /** Gives up one reference; the file goes with its last, the pipe with its last file. */
    method Unref(f: File, ghost held: multiset<File?>)
      requires f in files && FilesOk(files, held, pipes) && PipesOk(pipes, files)
      modifies this`files, this`pipes, f`refCount, f.pipe
      ensures FilesOk(files, held - multiset{f}, pipes) && PipesOk(pipes, files)
      ensures files == if held[f] == 1 then old(files) - {f} else old(files)
      ensures pipes == if f.pipe != null && Ends(files, f.pipe, true) + Ends(files, f.pipe, false) == {}
        then old(pipes) - {f.pipe} else old(pipes)
    {
      assert Counted(f, held, pipes);
      f.refCount := f.refCount - 1;
      if f.refCount <= 0 {
        if f.pipe != null {
          UnrefPipe(f);
        } else {
          forall q | q in pipes ensures PipeCounted(q, files - {f}) {
            assert PipeCounted(q, files);
            OtherEnds(files, f, q);
          }
        }
        files := files - {f};
      } else if f.pipe != null {
        assert f in Ends(files, f.pipe, f.pipeEnd == 0);
      }
    }

    method UnrefPipe(f: File)
      requires f in files && f.pipe != null && f.pipe in pipes && PipesOk(pipes, files)
      modifies this`pipes, f.pipe
      ensures PipesOk(pipes, files - {f})
      ensures pipes == if Ends(files - {f}, f.pipe, true) + Ends(files - {f}, f.pipe, false) == {}
        then old(pipes) - {f.pipe} else old(pipes)
    {
      var p := f.pipe;
      assert PipeCounted(p, files);
      LastEnd(files, f, p);
      if f.pipeEnd == 0 { p.readRef := p.readRef - 1; } else { p.writeRef := p.writeRef - 1; }
      if p.readRef <= 0 && p.writeRef <= 0 {
        pipes := pipes - {p};
      }
      forall q | q in pipes && q != p ensures PipeCounted(q, files - {f}) {
        assert old(PipeCounted(q, files));
        OtherEnds(files, f, q);
      }
    }

    /** Empties one slot; anything outside the table is ignored. */
    method Release(t: Task, fd: int)
      requires Valid() && t in owners
      modifies this`files, this`pipes, t`fds, this`tables, files`refCount, pipes
      ensures Valid()
      ensures t.fds == if 0 <= fd < MAX_FDS then old(t.fds)[fd := null] else old(t.fds)
      ensures files <= old(files) && pipes <= old(pipes)
      ensures forall f: File :: f in old(files) ==> (f in files <==> f in Refs())
      ensures forall p :: p in old(pipes) ==> (p in pipes <==> Ends(files, p, true) + Ends(files, p, false) != {})
    {
      ghost var i := Owner(t);
      if fd < 0 || fd >= MAX_FDS || t.fds[fd] == null {
        AllHeld();
        return;
      }
      Empty(t, fd, i);
      AllHeld();
    }

    method Empty(t: Task, fd: nat, ghost i: nat)
      requires Valid() && i < |owners| && owners[i] == t && fd < MAX_FDS && t.fds[fd] != null
      modifies this`files, this`pipes, t`fds, this`tables, files`refCount, pipes
      ensures Valid()
      ensures t.fds == old(t.fds)[fd := null]
      ensures files <= old(files) && pipes <= old(pipes)
      ensures forall p :: p in old(pipes) && p !in pipes ==> Ends(files, p, true) + Ends(files, p, false) == {}
    {
      SlotLive(i, fd);
      Unref(t.fds[fd], Refs());
      Clear(t, fd, i);
    }

    /** The file's count already lacks the slot that is being cleared. */
    method Clear(t: Task, fd: nat, ghost i: nat)
      requires Distinct(owners) && Mirrors(owners, tables) && PipesOk(pipes, files)
      requires i < |owners| && owners[i] == t && fd < MAX_FDS && t.fds[fd] != null
      requires FilesOk(files, Refs() - multiset{t.fds[fd]}, pipes)
      modifies t`fds, this`tables
      ensures Valid() && t.fds == old(t.fds)[fd := null]
    {
      ghost var held := Held(tables);
      var f := t.fds[fd];
      InHeld(i, fd);
      Store(t, fd, null, i);
      assert Refs() == held - multiset{f} + multiset{null} + loose;
      SlotCleared(files, held, loose, f, pipes);
    }

    lemma InHeld(i: nat, fd: nat)
      requires i < |owners| && Mirrors(owners, tables) && fd < MAX_FDS
      ensures owners[i].fds[fd] in Held(tables)
    {
      var was := tables;
      HeldSplit(was, i);
      assert was[i][fd] in multiset(was[i]);
    }

    /** task_exit gives up every slot. */
    method ReleaseAll(t: Task)
      requires Valid() && t in owners
      modifies this`files, this`pipes, t`fds, this`tables, files`refCount, pipes
      ensures Valid() && t.fds == seq(MAX_FDS, _ => null)
      ensures files <= old(files) && pipes <= old(pipes)
    {
      for i := 0 to MAX_FDS
        invariant Valid() && files <= old(files) && pipes <= old(pipes)
        invariant forall k :: 0 <= k < i ==> t.fds[k] == null
      {
        if t.fds[i] != null { Release(t, i); }
      }
    }

    // ---- acquire ------------------------------------------------------------------------

    /** One more reference to a live file. */
    method Ref(f: File, ghost refs: multiset<File?>)
      requires f in files && FilesOk(files, refs, pipes)
      modifies f`refCount
      ensures FilesOk(files, refs + multiset{f}, pipes)
    {
      assert forall g :: g in files ==> Counted(g, refs, pipes);
      f.refCount := f.refCount + 1;
    }

    /** An empty slot has just been filled with f, whose count is still one short. */
    method CountSlot(f: File, ghost held: multiset<File?>)
      requires Distinct(owners) && Mirrors(owners, tables) && PipesOk(pipes, files)
      requires f in files && FilesOk(files, held + loose, pipes)
      requires Held(tables) == held - multiset{null} + multiset{f}
      modifies f`refCount
      ensures Valid()
    {
      Ref(f, held + loose);
      assert Refs() == held - multiset{null} + multiset{f} + loose;
      SlotFilled(files, held, loose, f, pipes);
    }

    /** The first free slot from 3 on takes f; -1 when there is none. */
    method AllocFd(t: Task, f: File) returns (fd: int)
      requires Distinct(owners) && Mirrors(owners, tables) && t in owners
      modifies t`fds, this`tables
      ensures Mirrors(owners, tables) && fd == FreeSlot(old(t.fds), 3) && t.fds == Placed(old(t.fds), f)
      ensures fd < 0 ==> tables == old(tables)
      ensures fd >= 0 ==> Held(tables) == old(Held(tables)) - multiset{null} + multiset{f}
    {
      ghost var i := Owner(t);
      for k := 3 to MAX_FDS
        invariant t.fds == old(t.fds) && tables == old(tables) && Mirrors(owners, tables)
        invariant FreeSlot(old(t.fds), 3) == FreeSlot(old(t.fds), k)
      {
        if t.fds[k] == null {
          Store(t, k, f, i);
          return k;
        }
      }
      return -1;
    }

    method Close(t: Task, fd: int) returns (r: int)
      requires Valid() && t in owners
      modifies this`files, this`pipes, t`fds, this`tables, files`refCount, pipes
      ensures Valid() && files <= old(files) && pipes <= old(pipes)
      ensures r == if 0 <= fd < 16 && old(t.fds)[fd] != null then 0 else -1
      ensures t.fds == if Open(old(t.fds), fd) then old(t.fds)[fd := null] else old(t.fds)
    {
      if fd < 0 || fd >= MAX_FDS || t.fds[fd] == null { return -1; }
      Release(t, fd);
      return 0;
    }

    method Dup(t: Task, fd: int) returns (r: int)
      requires Valid() && t in owners
      modifies t`fds, this`tables, files`refCount
      ensures Valid()
      ensures r == if 0 <= fd < 16 && old(t.fds)[fd] != null then FreeSlot(old(t.fds), 3) else -1
      ensures t.fds == if Open(old(t.fds), fd) then Placed(old(t.fds), old(t.fds)[fd]) else old(t.fds)
    {
      if fd < 0 || fd >= MAX_FDS || t.fds[fd] == null { return -1; }
      SlotLive(Owner(t), fd);
      r := DupFile(t, t.fds[fd]);
    }

    /** One more slot for a live file. */
    method DupFile(t: Task, f: File) returns (r: int)
      requires Valid() && t in owners && f in files
      modifies t`fds, this`tables, files`refCount
      ensures Valid() && r == FreeSlot(old(t.fds), 3) && t.fds == Placed(old(t.fds), f)
    {
      ghost var held := Held(tables);
      r := AllocFd(t, f);
      if r >= 0 { CountSlot(f, held); }
    }

    /** dup2. Closing newfd first also closes oldfd when the two are equal: the slot ends up
        empty, the call still reports success, and the reference is counted through a null
        pointer, in a word of page 0, which is mapped and writable: stray. */
    method Dup2(t: Task, oldfd: int, newfd: int) returns (r: int, stray: bool)
      requires Valid() && t in owners
      modifies this`files, this`pipes, t`fds, this`tables, files`refCount, pipes
      ensures Valid()
      ensures stray <==> Open(old(t.fds), oldfd) && newfd == oldfd
      ensures r == if 0 <= oldfd < 16 && old(t.fds)[oldfd] != null && 0 <= newfd < 16 then newfd else -1
      ensures t.fds == if r < 0 then old(t.fds) else old(t.fds)[newfd := if stray then null else old(t.fds)[oldfd]]
    {
      if oldfd < 0 || oldfd >= MAX_FDS || t.fds[oldfd] == null { return -1, false; }
      if newfd < 0 || newfd >= MAX_FDS { return -1, false; }
      stray := Redirect(t, oldfd, newfd);
      r := newfd;
    }

    method Redirect(t: Task, oldfd: nat, newfd: nat) returns (stray: bool)
      requires Valid() && t in owners && oldfd < MAX_FDS && t.fds[oldfd] != null && newfd < MAX_FDS
      modifies this`files, this`pipes, t`fds, this`tables, files`refCount, pipes
      ensures Valid()
      ensures stray <==> newfd == oldfd
      ensures t.fds == old(t.fds)[newfd := if stray then null else old(t.fds)[oldfd]]
    {
      if t.fds[newfd] != null { Release(t, newfd); }
      stray := t.fds[oldfd] == null;
      if !stray { CopySlot(t, newfd, t, oldfd); }
    }

    /** Fills an empty slot with the file another slot holds. */
    method CopySlot(t: Task, fd: nat, u: Task, from: nat)
      requires Valid() && t in owners && fd < MAX_FDS && t.fds[fd] == null
      requires u in owners && from < MAX_FDS && u.fds[from] != null
      modifies t`fds, this`tables, files`refCount
      ensures Valid() && t.fds == old(t.fds)[fd := old(u.fds)[from]]
    {
      ghost var held := Held(tables);
      SlotLive(Owner(u), from);
      var f := u.fds[from];
      Store(t, fd, f, Owner(t));
      CountSlot(f, held);
    }

    /** A file just allocated: live, with one reference nobody's table holds yet. */
    ghost method Track(f: File)
      requires Valid() && f !in files && f.refCount == 1 && f.pipe == null
      modifies this`files, this`loose
      ensures Valid() && files == old(files) + {f} && loose == old(loose) + multiset{f}
    {
      NewFile(files, Refs(), pipes, f);
      NewOther(files, f, pipes);
      assert Held(tables) + (loose + multiset{f}) == Refs() + multiset{f};
      files, loose := files + {f}, loose + multiset{f};
    }

    /** A pipe and its two ends, just allocated. */
    ghost method TrackPipe(p: Pipe, rf: File, wf: File)
      requires Valid() && p !in pipes && p.readRef == 1 && p.writeRef == 1
      requires rf !in files && wf !in files && rf != wf && rf.refCount == 1 && wf.refCount == 1
      requires rf.pipe == p && wf.pipe == p && rf.pipeEnd == 0 && wf.pipeEnd == 1
      modifies this`files, this`pipes, this`loose
      ensures Valid() && files == old(files) + {rf, wf} && pipes == old(pipes) + {p}
      ensures loose == old(loose) + multiset{rf, wf}
    {
      NewPipe(files, Refs(), pipes, p, rf, wf);
      assert Held(tables) + (loose + multiset{rf, wf}) == Refs() + multiset{rf, wf};
      files, pipes, loose := files + {rf, wf}, pipes + {p}, loose + multiset{rf, wf};
    }

    /** A loose file is freed. */
    ghost method Untrack(f: File)
      requires Valid() && f in files && f.refCount == 1 && f.pipe == null && f in loose
      modifies this`files, this`loose
      ensures Valid() && files == old(files) - {f} && loose == old(loose) - multiset{f}
    {
      FileGone(files, Refs(), pipes, f);
      assert Held(tables) + (loose - multiset{f}) == Refs() - multiset{f};
      files, loose := files - {f}, loose - multiset{f};
    }

    /** A loose reference has just been stored into an empty slot. */
    ghost method Settle(f: File, held: multiset<File?>)
      requires Distinct(owners) && Mirrors(owners, tables) && PipesOk(pipes, files)
      requires f in loose && FilesOk(files, held + loose, pipes)
      requires Held(tables) == held - multiset{null} + multiset{f}
      modifies this`loose
      ensures Valid() && loose == old(loose) - multiset{f}
    {
      SlotTaken(files, held, loose, f, pipes);
      loose := loose - multiset{f};
      assert Refs() == held - multiset{null} + multiset{f} + loose;
    }

    /** The loose reference moves into the first free slot, if there is one. */
    method Place(t: Task, f: File) returns (fd: int)
      requires Valid() && t in owners && f in loose
      modifies this`tables, this`loose, t`fds
      ensures Valid() && fd == FreeSlot(old(t.fds), 3) && t.fds == Placed(old(t.fds), f)
      ensures loose == Settled(old(loose), fd, f)
    {
      ghost var held := Held(tables);
      fd := AllocFd(t, f);
      if fd >= 0 { Settle(f, held); }
    }

    /** open: without a free slot the new file is freed again. */
    method OpenFile(t: Task) returns (fd: int, f: File)
      requires Valid() && t in owners
      modifies this`tables, this`files, this`loose, t`fds
      ensures Valid() && fresh(f) && fd == FreeSlot(old(t.fds), 3) && loose == old(loose)
      ensures t.fds == Placed(old(t.fds), f) && files == if fd < 0 then old(files) else old(files) + {f}
    {
      f := new File(null, 0);
      Track(f);
      fd := PlaceOrFree(t, f);
      assert old(loose) + multiset{f} - multiset{f} == old(loose);
    }

    method PlaceOrFree(t: Task, f: File) returns (fd: int)
      requires Valid() && t in owners && f in files && f in loose && f.refCount == 1 && f.pipe == null
      modifies this`tables, this`files, this`loose, t`fds
      ensures Valid() && fd == FreeSlot(old(t.fds), 3) && loose == old(loose) - multiset{f}
      ensures t.fds == Placed(old(t.fds), f) && files == if fd < 0 then old(files) - {f} else old(files)
    {
      fd := Place(t, f);
      if fd < 0 { Untrack(f); }
    }

    /** pipe: the read end, then the write end. With fewer than two free slots the call fails
        and what it could not place is lost: no table will ever release it. */
    method PipeCall(t: Task) returns (r: int, rfd: int, wfd: int)
      requires Valid() && t in owners
      modifies this`tables, this`files, this`pipes, this`loose, t`fds, files`refCount, pipes
      ensures Valid()
      ensures r == (if TwoFree(old(t.fds)) then 0 else -1)
      ensures r == 0 ==> loose == old(loose) && PipePlaced(old(t.fds), t.fds, rfd, wfd)
      ensures r != 0 ==> t.fds == old(t.fds) && loose > old(loose)
    {
      var p := new Pipe();
      var rf := new File(p, 0);
      var wf := new File(p, 1);
      TrackPipe(p, rf, wf);
      r, rfd, wfd := PlaceEnds(t, rf, wf);
      NoneLost(old(loose), rf, wf, rfd, wfd);
    }

    method PlaceEnds(t: Task, rf: File, wf: File) returns (r: int, rfd: int, wfd: int)
      requires Valid() && t in owners && rf != wf && rf in files && rf in loose && wf in loose && IsPipe(rf, wf)
      modifies this`tables, this`files, this`pipes, this`loose, t`fds, files`refCount, pipes
      ensures Valid()
      ensures r == (if TwoFree(old(t.fds)) then 0 else -1)
      ensures loose == Settled(Settled(old(loose), rfd, rf), wfd, wf)
      ensures r == 0 ==> rfd >= 0 && wfd >= 0 && PipePlaced(old(t.fds), t.fds, rfd, wfd)
      ensures r != 0 ==> (rfd < 0 || wfd < 0) && t.fds == old(t.fds)
    {
      TwoPlaced(t.fds, rf, wf);
      ghost var both := loose;
      rfd := Place(t, rf);
      StillLoose(both, rf, wf, rfd);
      wfd := Place(t, wf);
      r := 0;
      if rfd < 0 || wfd < 0 {
        BackOut(t, rfd, wfd);
        r := -1;
      }
    }

    method BackOut(t: Task, rfd: int, wfd: int)
      requires Valid() && t in owners
      modifies this`tables, this`files, this`pipes, t`fds, files`refCount, pipes
      ensures Valid()
      ensures wfd < 0 ==> t.fds == if 0 <= rfd < MAX_FDS then old(t.fds)[rfd := null] else old(t.fds)
    {
      if rfd >= 0 { Release(t, rfd); }
      if wfd >= 0 { Release(t, wfd); }
    }

    /** A new user task starts with a console file in each of its first three slots. */
    method OpenConsole(t: Task)
      requires Valid() && t !in owners && t.fds == seq(MAX_FDS, _ => null)
      modifies this`owners, this`tables, this`files, this`loose, t`fds
      ensures Valid() && owners == old(owners) + [t] && loose == old(loose)
      ensures fresh(files - old(files)) && FirstOpen(t.fds, 3)
      ensures |t.fds| == 16 && forall k :: 0 <= k < 16 ==> (t.fds[k] != null <==> k in {0, 1, 2})
    {
      Adopt(t);
      for k := 0 to 3
        invariant Valid() && owners == old(owners) + [t] && loose == old(loose) && fresh(files - old(files))
        invariant FirstOpen(t.fds, k)
      {
        var f := OpenAt(t, k);
      }
    }

    method OpenAt(t: Task, k: nat) returns (f: File)
      requires Valid() && t in owners && k < MAX_FDS && t.fds[k] == null
      modifies this`tables, this`files, this`loose, t`fds
      ensures Valid() && loose == old(loose) && fresh(files - old(files))
      ensures t.fds == old(t.fds)[k := f]
    {
      f := new File(null, 0);
      Track(f);
      PutAt(t, k, f);
      assert old(loose) + multiset{f} - multiset{f} == old(loose);
    }

    method PutAt(t: Task, k: nat, f: File)
      requires Valid() && t in owners && k < MAX_FDS && t.fds[k] == null && f in loose
      modifies this`tables, this`loose, t`fds
      ensures Valid() && t.fds == old(t.fds)[k := f] && loose == old(loose) - multiset{f}
    {
      ghost var held := Held(tables);
      Store(t, k, f, Owner(t));
      Settle(f, held);
    }

    /** fork: the child's table becomes a copy of the parent's. */
    method Share(parent: Task, child: Task)
      requires Valid() && parent in owners && child !in owners && child.fds == seq(MAX_FDS, _ => null)
      modifies this`owners, this`tables, child`fds, files`refCount
      ensures Valid() && owners == old(owners) + [child] && child.fds == parent.fds
    {
      Adopt(child);
      CopyTable(parent, child);
    }

    method CopyTable(parent: Task, child: Task)
      requires Valid() && parent in owners && child in owners && parent != child && child.fds == seq(MAX_FDS, _ => null)
      modifies this`tables, child`fds, files`refCount
      ensures Valid() && child.fds == parent.fds
    {
      ghost var i0, fds := Owner(parent), parent.fds;
      AllCopied(fds);
      for i := 0 to MAX_FDS
        invariant Valid() && parent.fds == fds && |fds| == MAX_FDS && child.fds == Copied(fds, i)
      {
        NextSlot(fds, i);
        ShareSlot(parent, child, i);
      }
    }

    method ShareSlot(parent: Task, child: Task, i: nat)
      requires Valid() && parent in owners && child in owners && i < MAX_FDS && child.fds[i] == null
      modifies this`tables, child`fds, files`refCount
      ensures Valid() && child.fds == old(child.fds)[i := old(parent.fds)[i]]
    {
      if parent.fds[i] != null { CopySlot(child, i, parent, i); }
    }

    /** A task with an empty table joins. */
    ghost method Adopt(t: Task)
      requires Valid() && t !in owners && t.fds == seq(MAX_FDS, _ => null)
      modifies this`owners, this`tables
      ensures Valid() && owners == old(owners) + [t]
    {
      HeldAdded(tables, t.fds);
      EmptyTable(files, Refs(), t.fds, pipes);
      ghost var refs := Refs();
      owners, tables := owners + [t], tables + [t.fds];
      assert Refs() == refs + multiset(t.fds);
    }

    /** A task with an empty table leaves. */
    ghost method Forget(t: Task, i: nat)
      requires Valid() && i < |owners| && owners[i] == t && t.fds == seq(MAX_FDS, _ => null)
      modifies this`owners, this`tables
      ensures Valid() && owners == Without(old(owners), i)
    {
      HeldRemoved(tables, i);
      StillMirrors(owners, tables, i);
      ghost var rest := Held(Without(tables, i)) + loose;
      assert Refs() == rest + multiset(t.fds);
      EmptyTableGone(files, rest, t.fds, pipes);
      owners, tables := Without(owners, i), Without(tables, i);
      assert Refs() == rest;
    }
  }
}
