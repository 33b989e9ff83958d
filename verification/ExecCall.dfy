/** The execve system call: everything that can fail happens before anything is changed. */
module ExecCall {
  import opened Basics
  import opened ProcessSpec
  import opened ExecSpec
  import opened ExecStack
  import opened Script
  import opened Loader
  import opened Kernel

  // ---- scripts ---------------------------------------------------------------------------

  method PastBlanks(h: Text, i: nat) returns (j: nat)
    requires i <= |h|
    ensures j == SkipBlanks(h, i)
  {
    j := i;
    while j < |h| && Blank(h[j])
      invariant i <= j <= |h| && SkipBlanks(h, i) == SkipBlanks(h, j)
    {
      j := j + 1;
    }
  }

  method UpTo(h: Text, i: nat, word: bool) returns (j: nat)
    requires i <= |h|
    ensures j == SkipTo(h, i, word)
  {
    j := i;
    while j < |h| && !Ends(h[j]) && !(word && Blank(h[j]))
      invariant i <= j <= |h| && SkipTo(h, i, word) == SkipTo(h, j, word)
    {
      j := j + 1;
    }
  }

  method Trim(t: Text) returns (r: Text)
    ensures r == TrimEnd(t)
  {
    var n := |t|;
    assert t[..|t|] == t;
    while n > 0 && Blank(t[n - 1])
      invariant 0 <= n <= |t| && TrimEnd(t) == TrimEnd(t[..n])
    {
      assert t[..n][..n - 1] == t[..n - 1];
      n := n - 1;
    }
    r := t[..n];
  }

  method ReadLine(h: Text) returns (line: Line)
    requires IsScript(h)
    ensures line == ParseLine(h)
  {
    var a := PastBlanks(h, 2);
    var b := UpTo(h, a, true);
    var c := PastBlanks(h, b);
    var d := UpTo(h, c, false);
    var opt := Trim(h[c..d]);
    if a == b || b - a >= HEAD { return Bad; }
    line := Line(h[a..b], opt);
  }

  /** Buffers in front of a vector whose first one has been freed. */
  lemma AddedInFront(head: seq<Buf>, args: seq<Buf>, was: set<object>, mid: set<object>, now: set<object>)
    requires Added(args, was, mid) && Added(head, mid, now)
    ensures args == [] ==> Added(head, was, now)
    ensures args != [] ==> args[0] in now && Added(head + args[1..], was, now - {args[0]})
  {
    if args == [] {
      assert All(args) == {};
    } else {
      assert All(args) == {args[0]} + All(args[1..]) && args[0] !in args[1..];
      forall b | b in args ensures b in All(args) { }
      forall b | b in head ensures b in All(head) { }
      assert All(head + args[1..]) == All(head) + All(args[1..]);
      var r := head + args[1..];
      forall i, j | 0 <= i < j < |r| ensures r[i] != r[j] {
        if |head| <= i {
          assert r[i] == args[i - |head| + 1] && r[j] == args[j - |head| + 1];
        } else {
          assert head[i] in All(head);
          if |head| <= j { assert r[j] == args[j - |head| + 1] && r[j] in All(args); }
        }
      }
    }
  }

  method KeepHead(pool: Pool, interp: Text, opt: Text, path: Text) returns (head: seq<Buf>)
    modifies pool`live
    ensures Added(head, old(pool.live), pool.live)
      && Texts(head) == [interp] + (if opt == [] then [] else [opt]) + [path]
  {
    var ib := pool.Keep(interp);
    head := [ib];
    if opt != [] {
      var ob := pool.Keep(opt);
      head := head + [ob];
    }
    var pb := pool.Keep(path);
    head := head + [pb];
  }

  /** The copied vector with the interpreter in front; the buffer of the old first argument is
      freed. */
  method ExpandArgs(pool: Pool, args: seq<Buf>, interp: Text, opt: Text, path: Text, ghost was: set<object>)
    returns (r: seq<Buf>)
    requires Added(args, was, pool.live)
    modifies pool`live
    ensures Added(r, was, pool.live) && Texts(r) == Expand(Texts(args), interp, opt, path)
  {
    ghost var mid := pool.live;
    r := KeepHead(pool, interp, opt, path);
    AddedInFront(r, args, was, mid, pool.live);
    if args != [] {
      pool.Free(args[0]);
      r := r + args[1..];
    }
  }

  /** An open script is turned into its interpreter and the longer vector, or closed again. */
  method ReadScript(pool: Pool, h: Text, path: Text, args: seq<Buf>, ghost was: set<object>)
    returns (interp: Option<Text>, r: seq<Buf>)
    requires Added(args, was, pool.live)
    modifies pool
    ensures Added(r, was, pool.live)
    ensures var good := IsScript(h) && ParseLine(h).Line? && !Overflows(Texts(args), ParseLine(h).opt);
      if good then interp == Some(ParseLine(h).interp)
        && Texts(r) == Expand(Texts(args), ParseLine(h).interp, ParseLine(h).opt, path) && pool.opens == old(pool.opens)
      else interp == None && pool.opens == old(pool.opens) - 1
  {
    r := args;
    interp := None;
    if IsScript(h) {
      var line := ReadLine(h);
      if line.Line? && !Overflows(Texts(args), line.opt) {
        r := ExpandArgs(pool, args, line.interp, line.opt, path, was);
        return Some(line.interp), r;
      }
    }
    pool.Close();
  }

  datatype Visit = Failed | Found | Onward(interp: Text)

  /** One link of the chain: the file before is closed, the next one opened and looked at. */
  method Look(pool: Pool, files: Files, path: Text, args: seq<Buf>, open: bool, ghost was: set<object>)
    returns (v: Visit, r: seq<Buf>)
    requires Added(args, was, pool.live)
    modifies pool
    ensures Added(r, was, pool.live)
    ensures pool.opens == old(pool.opens) - (if open then 1 else 0) + if v.Failed? then 0 else 1
    ensures forall depth: nat, last: seq<byte> :: depth < DEPTH ==>
      Chase(files, path, Texts(args), depth, last) ==
        match v
        case Failed => None
        case Found => if path in files then Some(Target(files[path], Texts(r))) else None
        case Onward(interp) => if path in files then Chase(files, interp, Texts(r), depth + 1, files[path]) else None
    ensures !v.Failed? ==> path in files
  {
    if open { pool.Close(); }
    if path !in files { return Failed, args; }
    pool.Open();
    var h := HeadOf(files[path]);
    if IsElf(h) { return Found, args; }
    var interp;
    interp, r := ReadScript(pool, h, path, args, was);
    v := if interp == None then Failed else Onward(interp.value);
  }

  /** Opened files are closed again, whichever way the chain goes; only the last one stays
      open for the loader. */
  method Follow(pool: Pool, files: Files, path0: Text, args0: seq<Buf>, ghost was: set<object>)
    returns (target: Option<seq<byte>>, args: seq<Buf>)
    requires Added(args0, was, pool.live)
    modifies pool
    ensures Added(args, was, pool.live) && pool.opens == old(pool.opens) + if target.Some? then 1 else 0
    ensures var t := Chase(files, path0, Texts(args0), 0, []);
      if t == None then target == None else target == Some(t.value.file) && Texts(args) == t.value.argv
  {
    var path, last := path0, [];
    args := args0;
    ghost var end := Chase(files, path0, Texts(args0), 0, []);
    for depth := 0 to DEPTH
      invariant Added(args, was, pool.live) && pool.opens == old(pool.opens) + if depth > 0 then 1 else 0
      invariant end == Chase(files, path, Texts(args), depth, last)
    {
      var v;
      v, args := Look(pool, files, path, args, depth > 0, was);
      if v.Failed? { return None, args; }
      if v.Found? { return Some(files[path]), args; }
      path, last := v.interp, files[path];
    }
    target := Some(last);
  }

  // ---- headers and image ---------------------------------------------------------------------

  /** First pass: every program header is read, and the extent of the image found. */
  method Measure(f: seq<byte>, h: Header) returns (e: Option<nat>)
    ensures e == Extent(f, h, h.phnum)
  {
    var end := 0;
    for i := 0 to h.phnum
      invariant Extent(f, h, i) == Some(end)
    {
      var s := SegmentAt(f, h, i);
      if s == None {
        NoExtent(f, h, i, h.phnum);
        return None;
      }
      end := Reach(end, s.value);
    }
    e := Some(end);
  }

  lemma {:induction false} NoExtent(f: seq<byte>, h: Header, i: nat, n: nat)
    requires i < n && SegmentAt(f, h, i) == None
    ensures Extent(f, h, n) == None
    decreases n
  {
    if i < n - 1 { NoExtent(f, h, i, n - 1); }
  }

  /** Wipe and second pass, on the live window. Whether every header can be read is found out
      again; when not, the window is left as it is by then. */
  method LoadImage(window: array<byte>, f: seq<byte>, h: Header, size: nat) returns (ok: bool)
    requires size <= window.Length == WINDOW && forall i :: 0 <= i < h.phnum ==> SegmentFits(f, h, i)
    modifies window
    ensures ok <==> Extent(f, h, h.phnum).Some?
    ensures ok ==> window[..] == Live(old(window[..]), f, h, h.phnum, size)
  {
    Wipe(window, size);
    for i := 0 to h.phnum
      invariant Extent(f, h, i).Some? && window[..] == Live(old(window[..]), f, h, i, size)
    {
      var s := SegmentAt(f, h, i);
      if s == None {
        NoExtent(f, h, i, h.phnum);
        return false;
      }
      assert SegmentFits(f, h, i);
      ExtentNext(f, h, i);
      LoadOne(window, f, s.value);
    }
    ok := true;
  }

  method Wipe(window: array<byte>, size: nat)
    requires size <= window.Length
    modifies window
    ensures window[..] == seq<byte>(size, _ => 0) + old(window[..])[size..]
  {
    for k := 0 to size
      invariant forall j :: 0 <= j < window.Length ==> window[j] == if j < k then 0 else old(window[j])
    {
      window[k] := 0;
    }
  }

  method LoadOne(img: array<byte>, f: seq<byte>, s: Segment)
    requires s.kind == PT_LOAD ==> LOAD <= s.vaddr && s.filesz <= s.memsz && s.vaddr - LOAD + s.memsz <= img.Length
    modifies img
    ensures img[..] == Overlay(old(img[..]), f, s)
  {
    if s.kind == PT_LOAD { PutSegment(img, f, s); }
  }

  /** When the first pass went through, so does the second, and what it leaves is the image
      with the rest of the window untouched. */
  lemma SecondPass(window: seq<byte>, f: seq<byte>, h: Header, size: nat)
    requires Extent(f, h, h.phnum).Some? && size == Limited(Extent(f, h, h.phnum).value) && |window| == WINDOW
    requires forall i :: 0 <= i < h.phnum ==> SegmentFits(f, h, i)
    ensures Live(window, f, h, h.phnum, size) == Loaded(f, h, h.phnum, size) + window[size..]
  {
    forall i | 0 <= i < h.phnum ensures SegmentIn(f, h, i, size) {
      ExtentReads(f, h, h.phnum, i);
      assert SegmentFits(f, h, i);
    }
    LiveIs(window, f, h, h.phnum, size);
  }

  lemma ExtentNext(f: seq<byte>, h: Header, i: nat)
    requires Extent(f, h, i).Some? && SegmentAt(f, h, i).Some?
    ensures Extent(f, h, i + 1) == Some(Reach(Extent(f, h, i).value, SegmentAt(f, h, i).value))
  {
  }

  method PutSegment(img: array<byte>, f: seq<byte>, s: Segment)
    requires s.kind == PT_LOAD && LOAD <= s.vaddr && s.filesz <= s.memsz && s.vaddr - LOAD + s.memsz <= img.Length
    modifies img
    ensures img[..] == Overlay(old(img[..]), f, s)
  {
    var at := s.vaddr - LOAD;
    ghost var was := img[..];
    var j := 0;
    while j < s.filesz && s.offset + j < |f|
      invariant 0 <= j <= s.filesz && (j > 0 ==> s.offset + j <= |f|)
      invariant forall k :: 0 <= k < img.Length ==>
        img[k] == if at <= k < at + j then f[s.offset + (k - at)] else was[k]
    {
      img[at + j] := f[s.offset + j];
      j := j + 1;
    }
    ghost var n := j;
    for i := s.filesz to s.memsz
      invariant forall k :: 0 <= k < img.Length ==>
        img[k] == if at <= k < at + n then f[s.offset + (k - at)] else if at + s.filesz <= k < at + i then 0 else was[k]
    {
      img[at + i] := 0;
    }
    forall k | 0 <= k < img.Length ensures img[k] == OverlayAt(was, f, s, k) { }
  }

  // ---- the call --------------------------------------------------------------------------------

  class Frame {
    var eip: nat
    var esp: nat
    var useresp: nat
    var ebp: nat
    var eax: int

    ghost predicate Enters(entry: nat, sp: int)
      reads this
    {
      eip == entry && esp == useresp == sp && ebp == 0 && eax == 0
    }

    method Enter(entry: nat, sp: nat)
      modifies this
      ensures Enters(entry, sp)
    {
      eip, esp, useresp, ebp, eax := entry, sp, sp, 0, 0;
    }
  }

  /** The user stack block of each task. */
  class Stacks {
    var block: map<nat, array<byte>>
  }

  /** The stack a task leaves is freed unless its parent still uses it. */
  ghost predicate Discards(block: map<nat, array<byte>>, pid: nat, ppid: nat, hasParent: bool) {
    pid in block && !(ppid != 0 && hasParent && ppid in block && block[ppid] == block[pid])
  }

  ghost predicate HasParent(m: Machine)
    requires m.current != null
    reads m, m.ring, m.current
  {
    Find(m.ring.procs, m.current.ppid) < |m.ring.procs|
  }

  lemma AddedBoth(args: seq<Buf>, envs: seq<Buf>, was: set<object>, mid: set<object>, now: set<object>)
    requires Added(args, was, mid) && Added(envs, mid, now)
    ensures Held(args, envs, was, now)
  {
  }

  /** The ledger has grown by exactly the two vectors. */
  ghost predicate Held(args: seq<Buf>, envs: seq<Buf>, was: set<object>, now: set<object>) {
    Added(envs, was, was + All(envs)) && Added(args, was + All(envs), now)
  }

  /** The vectors copied, the budget checked, the file found: or nothing at all. */
  method Prepare(pool: Pool, files: Files, m: Memory, path: Text, au: nat, eu: nat)
    returns (file: Option<seq<byte>>, args: seq<Buf>, envs: seq<Buf>)
    modifies pool
    ensures var c := CheckedOf(files, m, path, au, eu);
      if c == None then file == None
      else file == Some(c.value.file) && Texts(args) == c.value.argv && Texts(envs) == c.value.envp
    ensures file == None ==> pool.live == old(pool.live) && pool.opens == old(pool.opens)
    ensures file != None ==> pool.opens == old(pool.opens) + 1 && Held(args, envs, old(pool.live), pool.live)
  {
    var a, argTotal := CopyVec(pool, m, au, MAX_ARGS);
    if a == None { return None, [], []; }
    ghost var mid := pool.live;
    var e, envTotal := CopyVec(pool, m, eu, MAX_ARGS);
    if e == None {
      pool.FreeAll(a.value);
      return None, [], [];
    }
    AddedBoth(a.value, e.value, old(pool.live), mid, pool.live);
    file, args, envs := FindFile(pool, files, path, a.value, e.value, argTotal, envTotal, old(pool.live));
  }

  method FindFile(pool: Pool, files: Files, path: Text, args0: seq<Buf>, envs0: seq<Buf>, argTotal: nat, envTotal: nat,
                  ghost was: set<object>)
    returns (file: Option<seq<byte>>, args: seq<Buf>, envs: seq<Buf>)
    requires Held(args0, envs0, was, pool.live)
    requires argTotal == |Flat(Texts(args0))| && envTotal == |Flat(Texts(envs0))|
    modifies pool
    ensures var c := CheckedFor(files, path, Texts(args0), Texts(envs0));
      if c == None then file == None
      else file == Some(c.value.file) && Texts(args) == c.value.argv && Texts(envs) == c.value.envp
    ensures file == None ==> pool.live == was && pool.opens == old(pool.opens)
    ensures file != None ==> pool.opens == old(pool.opens) + 1 && Held(args, envs, was, pool.live)
  {
    envs := envs0;
    if argTotal + envTotal + Words(Texts(args0), Texts(envs)) * 4 + 64 > STACK_SIZE - 128 {
      FreeBoth(pool, args0, envs, was);
      return None, [], [];
    }
    file, args := Follow(pool, files, path, args0, was + All(envs));
    if file == None {
      FreeBoth(pool, args, envs, was);
      return None, [], [];
    }
    if !WithinBudget(Texts(args), Texts(envs)) {
      pool.Close();
      FreeBoth(pool, args, envs, was);
      return None, [], [];
    }
  }

  method FreeBoth(pool: Pool, args: seq<Buf>, envs: seq<Buf>, ghost was: set<object>)
    requires Held(args, envs, was, pool.live)
    modifies pool`live
    ensures pool.live == was
  {
    pool.FreeAll(args);
    pool.FreeAll(envs);
  }

  /** The old stack goes, unless the parent still uses it; the new one takes its place. */
  method SwitchStack(pool: Pool, stacks: Stacks, pid: nat, ppid: nat, hasParent: bool, stack: array<byte>)
    requires stack in pool.live && forall p :: p in stacks.block ==> stacks.block[p] in pool.live
    modifies pool`live, stacks
    ensures stacks.block == old(stacks.block)[pid := stack]
    ensures pool.live == old(pool.live) - if Discards(old(stacks.block), pid, ppid, hasParent)
      then {old(stacks.block)[pid]} else {}
  {
    if pid in stacks.block {
      var shared := ppid != 0 && hasParent && ppid in stacks.block && stacks.block[ppid] == stacks.block[pid];
      if !shared { pool.Free(stacks.block[pid]); }
    }
    stacks.block := stacks.block[pid := stack];
  }

  /** The new stack is filled and the copied vectors are freed; -1 below the overflow line. */
  method Fill(pool: Pool, stack: array<byte>, base: nat, args: seq<Buf>, envs: seq<Buf>, ghost was: set<object>,
              ghost now: set<object>) returns (ok: bool, sp: int)
    requires stack.Length == STACK_SIZE && 0 < base && base + STACK_SIZE < U32
    requires Held(args, envs, was, now) && pool.live == now + {stack} && stack !in now
    requires Roomy(Texts(args), Texts(envs)) && AllNulFree(Texts(args)) && AllNulFree(Texts(envs))
    modifies pool`live, stack
    ensures sp == StackPointer(base, Texts(args), Texts(envs)) && (ok <==> sp >= base + 64)
    ensures ok ==> Finds(MemoryOf(base, stack[..]), sp, Texts(args), Texts(envs))
    ensures pool.live == was + {stack}
  {
    ok, sp := BuildStack(stack, base, Texts(args), Texts(envs));
    if ok { BuiltReadsBack(base, stack[..], Texts(args), Texts(envs)); }
    pool.FreeAll(args);
    pool.FreeAll(envs);
  }

  /** The last failure before anything changes gives everything back. */
  method Abort(pool: Pool, stack: array<byte>, args: seq<Buf>, envs: seq<Buf>, ghost was: set<object>,
               ghost now: set<object>)
    requires Held(args, envs, was, now) && pool.live == now + {stack} && stack !in now
    modifies pool
    ensures pool.live == was && pool.opens == old(pool.opens) - 1
  {
    pool.Close();
    pool.Free(stack);
    FreeBoth(pool, args, envs, was);
  }

  /** Window and stack of the new program. The checks that are still made here are the
      kernel's; Proceed shows that none of them fails. */
  method LoadAndFill(window: array<byte>, pool: Pool, stack: array<byte>, file: seq<byte>, h: Header, size: nat,
                     args: seq<Buf>, envs: seq<Buf>, base: nat, ghost was: set<object>, ghost now: set<object>)
    returns (ok: bool, sp: int)
    requires size <= window.Length == WINDOW && forall i :: 0 <= i < h.phnum ==> SegmentFits(file, h, i)
    requires stack.Length == STACK_SIZE && stack != window && 0 < base && base + STACK_SIZE < U32
    requires Held(args, envs, was, now) && pool.live == now + {stack} && stack !in now
    requires Roomy(Texts(args), Texts(envs)) && AllNulFree(Texts(args)) && AllNulFree(Texts(envs))
    modifies window, pool, stack
    ensures ok <==> Extent(file, h, h.phnum).Some? && StackPointer(base, Texts(args), Texts(envs)) >= base + 64
    ensures pool.opens == old(pool.opens) - 1 && pool.live == if ok then was + {stack} else was
    ensures ok ==> window[..] == Live(old(window[..]), file, h, h.phnum, size)
    ensures ok ==>
      && sp == StackPointer(base, Texts(args), Texts(envs))
      && Finds(MemoryOf(base, stack[..]), sp, Texts(args), Texts(envs))
  {
    ok := LoadImage(window, file, h, size);
    if !ok {
      Abort(pool, stack, args, envs, was, now);
      return false, 0;
    }
    pool.Close();
    ok, sp := Fill(pool, stack, base, args, envs, was, now);
    if !ok { pool.Free(stack); }
  }

  /** The same on the machine's window. */
  method FillWindow(m: Machine, pool: Pool, stack: array<byte>, file: seq<byte>, h: Header, size: nat,
                    args: seq<Buf>, envs: seq<Buf>, base: nat, ghost was: set<object>, ghost now: set<object>)
    returns (ok: bool, sp: int)
    requires m.Valid() && size <= WINDOW && forall i :: 0 <= i < h.phnum ==> SegmentFits(file, h, i)
    requires stack.Length == STACK_SIZE && stack != m.image && 0 < base && base + STACK_SIZE < U32
    requires Held(args, envs, was, now) && pool.live == now + {stack} && stack !in now
    requires Roomy(Texts(args), Texts(envs)) && AllNulFree(Texts(args)) && AllNulFree(Texts(envs))
    modifies m.image, pool, stack
    ensures ok <==> Extent(file, h, h.phnum).Some? && StackPointer(base, Texts(args), Texts(envs)) >= base + 64
    ensures pool.opens == old(pool.opens) - 1 && pool.live == if ok then was + {stack} else was
    ensures m.Valid()
    ensures ok ==> m.Abs() == old(m.Abs()).(image := Live(old(m.Abs()).image, file, h, h.phnum, size))
    ensures ok ==>
      && sp == StackPointer(base, Texts(args), Texts(envs))
      && Finds(MemoryOf(base, stack[..]), sp, Texts(args), Texts(envs))
  {
    ok, sp := LoadAndFill(m.image, pool, stack, file, h, size, args, envs, base, was, now);
  }

  /** The old stack given up, the frame set. */
  method Enter(m: Machine, pool: Pool, frame: Frame, stacks: Stacks, stack: array<byte>, entry: nat, sp: nat)
    requires m.Valid() && m.current != null && stack in pool.live
      && forall p :: p in stacks.block ==> stacks.block[p] in pool.live
    modifies pool`live, frame, stacks
    ensures m.Valid() && m.Abs() == old(m.Abs())
    ensures frame.Enters(entry, sp) && stacks.block == old(stacks.block)[m.current.pid := stack]
    ensures pool.live == old(pool.live) - Dropped(old(stacks.block), m)
  {
    TakeStack(m, pool, stacks, stack);
    SetFrame(m, frame, entry, sp);
  }

  method SetFrame(m: Machine, frame: Frame, entry: nat, sp: nat)
    requires m.Valid()
    modifies frame
    ensures m.Valid() && m.Abs() == old(m.Abs()) && frame.Enters(entry, sp)
  {
    frame.Enter(entry, sp);
  }

  /** From the snapshot on the task, the window and the heap change. */
  method Commit(m: Machine, pool: Pool, frame: Frame, stacks: Stacks, stack: array<byte>, file: seq<byte>, h: Header,
                size: nat, args: seq<Buf>, envs: seq<Buf>, base: nat, ghost was: set<object>, ghost now: set<object>)
    returns (r: int)
    requires m.Valid() && m.current != null && size <= WINDOW
      && forall i :: 0 <= i < h.phnum ==> SegmentFits(file, h, i)
    requires stack.Length == STACK_SIZE && stack != m.image && 0 < base && base + STACK_SIZE < U32
    requires Held(args, envs, was, now) && pool.live == now + {stack} && stack !in now
    requires Roomy(Texts(args), Texts(envs)) && AllNulFree(Texts(args)) && AllNulFree(Texts(envs))
    requires forall pid :: pid in stacks.block ==> stacks.block[pid] in was
    modifies m.ring`procs, m.current`imgSize, m.current`snapshot, m.image, pool, frame, stacks, stack
    ensures r == if Extent(file, h, h.phnum).Some? && StackPointer(base, Texts(args), Texts(envs)) >= base + 64
      then 0 else -1
    ensures m.Valid() && pool.opens == old(pool.opens) - 1
    ensures r == -1 ==> pool.live == was && unchanged(stacks, frame)
    ensures r == 0 ==>
      && m.Abs() == Resized(Snapped(old(m.Abs())).(image := Live(old(m.Abs()).image, file, h, h.phnum, size)), size)
      && Launched(frame, stack, h.entry, base, Texts(args), Texts(envs))
      && stacks.block == old(stacks.block)[m.current.pid := stack]
      && pool.live == was + {stack} - Dropped(old(stacks.block), m)
  {
    m.Snapshot();
    var ok, sp := FillWindow(m, pool, stack, file, h, size, args, envs, base, was, now);
    if !ok { return -1; }
    m.Resize(size);
    Enter(m, pool, frame, stacks, stack, h.entry, sp);
    r := 0;
  }

  /** The program runs next, on the stack it was given. */
  ghost predicate Launched(frame: Frame, stack: array<byte>, entry: nat, base: nat, argv: seq<Text>, envp: seq<Text>)
    reads frame, stack
  {
    frame.Enters(entry, StackPointer(base, argv, envp)) && Finds(MemoryOf(base, stack[..]), frame.esp, argv, envp)
  }

  method TakeStack(m: Machine, pool: Pool, stacks: Stacks, stack: array<byte>)
    requires m.Valid() && m.current != null && stack in pool.live
      && forall p :: p in stacks.block ==> stacks.block[p] in pool.live
    modifies pool`live, stacks
    ensures m.Valid() && m.Abs() == old(m.Abs())
    ensures stacks.block == old(stacks.block)[m.current.pid := stack]
    ensures pool.live == old(pool.live) - Dropped(old(stacks.block), m)
  {
    var parent := m.ring.FindTask(m.current.ppid);
    SwitchStack(pool, stacks, m.current.pid, m.current.ppid, parent != null, stack);
  }

  /** The stack block that goes when the current task takes a new one. */
  ghost function Dropped(block: map<nat, array<byte>>, m: Machine): set<object>
    requires m.current != null
    reads m, m.ring, m.current
  {
    if Discards(block, m.current.pid, m.current.ppid, HasParent(m)) then {block[m.current.pid]} else {}
  }

  /** From the open file on: headers, then the image. Once the first pass went through and the
      budget held, nothing after the point of no return can fail. */
  method Proceed(m: Machine, pool: Pool, frame: Frame, stacks: Stacks, file: seq<byte>, args: seq<Buf>, envs: seq<Buf>,
                 base: nat, ghost was: set<object>)
    returns (r: int, stack: array<byte>)
    requires m.Valid() && m.current != null && Loadable(file) && 0 < base && base + STACK_SIZE < U32
    requires Held(args, envs, was, pool.live)
    requires WithinBudget(Texts(args), Texts(envs)) && AllNulFree(Texts(args)) && AllNulFree(Texts(envs))
    requires forall pid :: pid in stacks.block ==> stacks.block[pid] in was
    modifies m.ring`procs, m.current`imgSize, m.current`snapshot, m.image, pool, frame, stacks
    ensures r == if ImageOf(file, Texts(args), Texts(envs)) == None then -1 else 0
    ensures m.Valid() && pool.opens == old(pool.opens) - 1
    ensures r == -1 ==> m.Abs() == old(m.Abs()) && pool.live == was && unchanged(stacks, frame)
    ensures r == 0 ==> var i := ImageOf(file, Texts(args), Texts(envs)).value;
      && m.Abs() == ProcessSpec.Exec(old(m.Abs()), i.content)
      && fresh(stack) && Launched(frame, stack, i.entry, base, i.argv, i.envp)
      && stacks.block == old(stacks.block)[m.current.pid := stack]
      && pool.live == was + {stack} - Dropped(old(stacks.block), m)
  {
    ghost var now := pool.live;
    var h, size;
    h, size, stack := FirstPass(pool, file, args, envs, was);
    if h == None { return -1, stack; }
    BudgetSuffices(base, Texts(args), Texts(envs));
    SecondPass(m.image[..], file, h.value, size);
    ExecParts(m.Abs(), Loaded(file, h.value, h.value.phnum, size));
    r := Commit(m, pool, frame, stacks, stack, file, h.value, size, args, envs, base, was, now);
  }

  /** The new stack block, the header, and the first look at every program header. */
  method FirstPass(pool: Pool, file: seq<byte>, args: seq<Buf>, envs: seq<Buf>, ghost was: set<object>)
    returns (h: Option<Header>, size: nat, stack: array<byte>)
    requires Held(args, envs, was, pool.live)
    modifies pool
    ensures fresh(stack) && stack.Length == STACK_SIZE && stack !in old(pool.live)
    ensures h == if Measured(file) then HeaderOf(file) else None
    ensures h == None ==> pool.live == was && pool.opens == old(pool.opens) - 1
    ensures h != None ==>
      && size == Limited(Extent(file, h.value, h.value.phnum).value)
      && pool.live == old(pool.live) + {stack} && pool.opens == old(pool.opens)
  {
    ghost var now := pool.live;
    stack := pool.KeepStack();
    h, size := HeaderOf(file), 0;
    if h != None {
      var e := Measure(file, h.value);
      if e != None && e.value != 0 { return h, Limited(e.value), stack; }
    }
    Abort(pool, stack, args, envs, was, now);
    h := None;
  }

  /** Preparation leaves the machine alone. */
  method PrepareFor(m: Machine, pool: Pool, files: Files, mem: Memory, path: Text, au: nat, eu: nat)
    returns (file: Option<seq<byte>>, args: seq<Buf>, envs: seq<Buf>)
    requires m.Valid()
    modifies pool
    ensures m.Valid() && m.Abs() == old(m.Abs())
    ensures var c := CheckedOf(files, mem, path, au, eu);
      if c == None then file == None
      else file == Some(c.value.file) && Texts(args) == c.value.argv && Texts(envs) == c.value.envp
    ensures file == None ==> pool.live == old(pool.live) && pool.opens == old(pool.opens)
    ensures file != None ==> pool.opens == old(pool.opens) + 1 && Held(args, envs, old(pool.live), pool.live)
  {
    file, args, envs := Prepare(pool, files, mem, path, au, eu);
  }

  /** execve. Either it fails and nothing has changed: not the image, not the task, not the
      frame, not the heap, not the open files. Or it succeeds, and the program starts on a
      stack that decodes to the vectors it was given. */
  method Execve(m: Machine, pool: Pool, frame: Frame, stacks: Stacks, files: Files, mem: Memory, path: Text, au: nat,
                eu: nat, base: nat)
    returns (r: int, stack: array<byte>)
    requires m.Valid() && m.current != null && NulFree(path) && 0 < base && base + STACK_SIZE < U32
    requires Loads(files, mem, path, au) && forall pid :: pid in stacks.block ==> stacks.block[pid] in pool.live
    modifies m.ring`procs, m.current`imgSize, m.current`snapshot, m.image, pool, frame, stacks
    ensures r == if Plan(files, mem, path, au, eu) == None then -1 else 0
    ensures m.Valid() && pool.opens == old(pool.opens)
    ensures r == -1 ==> m.Abs() == old(m.Abs()) && pool.live == old(pool.live) && unchanged(stacks, frame)
    ensures r == 0 ==> var i := Plan(files, mem, path, au, eu).value;
      && m.Abs() == ProcessSpec.Exec(old(m.Abs()), i.content)
      && fresh(stack) && Launched(frame, stack, i.entry, base, i.argv, i.envp)
      && stacks.block == old(stacks.block)[m.current.pid := stack]
      && pool.live == old(pool.live) + {stack} - Dropped(old(stacks.block), m)
  {
    CheckedIsSafe(files, mem, path, au, eu);
    var file, args, envs := PrepareFor(m, pool, files, mem, path, au, eu);
    if file == None { return -1, new byte[0]; }
    r, stack := Proceed(m, pool, frame, stacks, file.value, args, envs, base, old(pool.live));
  }
}
