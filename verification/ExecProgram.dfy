/** exec on the kernel's objects, of a file written as a program. */
module ExecProgram {
  import opened Basics
  import opened ProcessSpec
  import opened Kernel
  import opened ExecSpec
  import opened ExecStack
  import opened Loader
  import opened ExecCall
  import opened ProgramFile

  /** The window holds the program, and above it what was there before. */
  ghost predicate WindowHolds(window: seq<byte>, was: seq<byte>, p: Program) {
    && |window| == |was|
    && (forall i :: 0 <= i < |p.sections| ==> SectionLoaded(window, p.sections[i]))
    && forall k :: 0 <= k < |window| && (forall i :: 0 <= i < |p.sections| ==> Below(p.sections[i], k)) ==>
         window[k] == was[k]
  }

  /** Byte k of the window lies past the segment. */
  ghost predicate Below(s: Section, k: nat) { s.End() <= 0x8000000 + k }

  lemma WindowIs(s: Sys, content: seq<byte>, p: Program)
    requires HasCurrent(s) && |s.image| == WINDOW && |content| <= WINDOW && ImageIs(content, p)
    ensures WindowHolds(ProcessSpec.Exec(s, content).image, s.image, p)
  {
    var window := ProcessSpec.Exec(s, content).image;
    forall i | 0 <= i < |p.sections| ensures SectionLoaded(window, p.sections[i]) {
      assert SectionLoaded(content, p.sections[i]);
      forall j | 0 <= j < p.sections[i].memsz ensures ByteLoaded(window, p.sections[i], j) {
        assert ByteLoaded(content, p.sections[i], j);
      }
    }
    forall k | 0 <= k < |window| && (forall i :: 0 <= i < |p.sections| ==> Below(p.sections[i], k))
      ensures window[k] == s.image[k] {
      if |content| > 0 {
        var i :| 0 <= i < |p.sections| && EndsAt(p.sections[i], |content|);
        assert Below(p.sections[i], k);
      }
    }
  }

  /** The parent lives and has the same stack block. */
  ghost predicate StillUsed(blocks: map<nat, array<byte>>, me: nat, ppid: nat, ring: seq<Proc>) {
    me in blocks && ppid in blocks && blocks[ppid] == blocks[me] && ppid != 0 && exists p :: p in ring && p.pid == ppid
  }

  /** Of what was allocated at most the task's own stack block is gone. */
  ghost predicate OthersStay(blocks: map<nat, array<byte>>, was: set<object>, now: set<object>, me: nat) {
    forall o :: o in was && o !in now ==> me in blocks && o == blocks[me]
  }

  lemma FoundIs(ring: seq<Proc>, pid: nat)
    ensures Find(ring, pid) < |ring| <==> exists p :: p in ring && p.pid == pid
  {
    if Find(ring, pid) < |ring| { assert ring[Find(ring, pid)] in ring; }
  }

  lemma StackGoes(m: Machine, blocks: map<nat, array<byte>>, was: set<object>, now: set<object>, stack: array<byte>)
    requires m.Valid() && m.current != null && now == was + {stack} - Dropped(blocks, m) && stack !in was
    requires forall pid :: pid in blocks ==> blocks[pid] in was
    ensures var me := m.current.pid;
      && stack in now && OthersStay(blocks, was, now, me)
      && (me in blocks ==> (blocks[me] in now <==> StillUsed(blocks, me, m.current.ppid, m.Abs().ring)))
  {
    FoundIs(m.ring.procs, m.current.ppid);
  }

  /** exec of a program's file succeeds, and the program's segments are in memory, the frame enters
      it where it says, and it finds its vectors on its stack. */
  method Start(m: Machine, pool: Pool, frame: Frame, stacks: Stacks, files: Files, mem: ExecSpec.Memory, path: Text,
               au: nat, eu: nat, base: nat, ghost argv: seq<Text>, ghost envp: seq<Text>, ghost p: Program)
    returns (r: int, stack: array<byte>)
    requires m.Valid() && m.current != null && NulFree(path) && 0 < base && base + STACK_SIZE < U32
    requires forall pid :: pid in stacks.block ==> stacks.block[pid] in pool.live
    requires path in files && FileOf(files[path], p) && WellPlaced(p)
    requires Given(mem, au, argv) && Given(mem, eu, envp) && SmallEnough(argv, envp)
    modifies m.ring`procs, m.current`imgSize, m.current`snapshot, m.image, pool, frame, stacks
    ensures r == 0 && m.Valid()
    ensures WindowHolds(m.Abs().image, old(m.Abs().image), p)
    ensures frame.eip == p.entry && Finds(MemoryOf(base, stack[..]), frame.esp, argv, envp)
    ensures var me := m.current.pid;
      stack in pool.live && stacks.block == old(stacks.block)[me := stack]
        && OthersStay(old(stacks.block), old(pool.live), pool.live, me)
    ensures var me, blocks := m.current.pid, old(stacks.block);
      me in blocks ==> (blocks[me] in pool.live <==> StillUsed(blocks, me, m.current.ppid, m.Abs().ring))
  {
    ProgramRuns(files, mem, path, au, eu, argv, envp, p);
    ghost var was := m.Abs();
    r, stack := Execve(m, pool, frame, stacks, files, mem, path, au, eu, base);
    StackGoes(m, old(stacks.block), old(pool.live), pool.live, stack);
    WindowIs(was, Plan(files, mem, path, au, eu).value.content, p);
  }
}
