/** What exec takes from a file: the interpreter chain that leads to it, and the image its
    program headers describe. */
module Loader {
  import opened Basics
  import opened ProcessSpec
  import opened ExecSpec
  import opened Script

  const LOAD: nat := 0x8000000      // where user images start
  const PT_LOAD: nat := 1
  const DEPTH: nat := 5             // files opened before giving up on scripts

  type Files = map<Text, seq<byte>>

  function HeadOf(f: seq<byte>): Text { if |f| > HEAD then f[..HEAD] else f }

  // ---- the chain of interpreters -----------------------------------------------------------

  datatype Target = Target(file: seq<byte>, argv: seq<Text>)

  /** The file exec ends up loading and the arguments it passes. A script met at the last
      depth is handed to the loader as it is. */
  function Chase(files: Files, path: Text, argv: seq<Text>, depth: nat, last: seq<byte>): Option<Target>
    decreases DEPTH - depth
  {
    if depth >= DEPTH then Some(Target(last, argv))
    else if path !in files then None
    else
      var h := HeadOf(files[path]);
      if IsElf(h) then Some(Target(files[path], argv))
      else if !IsScript(h) then None
      else match ParseLine(h)
        case Bad => None
        case Line(interp, opt) =>
          if Overflows(argv, opt) then None
          else Chase(files, interp, Expand(argv, interp, opt, path), depth + 1, files[path])
  }

  ghost predicate AllNulFree(v: seq<Text>) { forall k :: 0 <= k < |v| ==> NulFree(v[k]) }

  lemma ParsedNulFree(h: Text)
    requires IsScript(h) && ParseLine(h).Line?
    ensures NulFree(ParseLine(h).interp) && NulFree(ParseLine(h).opt)
  {
    var a := SkipBlanks(h, 2);
    var b := SkipTo(h, a, true);
    var c := SkipBlanks(h, b);
    var d := SkipTo(h, c, false);
    forall k | 0 <= k < b - a ensures h[a..b][k] != 0 { assert !Ends(h[a + k]); }
    forall k | 0 <= k < d - c ensures h[c..d][k] != 0 { assert !Ends(h[c + k]); }
    forall k | 0 <= k < |TrimEnd(h[c..d])| ensures TrimEnd(h[c..d])[k] != 0 {
      assert TrimEnd(h[c..d])[k] == h[c..d][k];
    }
  }

  lemma ExpandNulFree(argv: seq<Text>, interp: Text, opt: Text, path: Text)
    requires AllNulFree(argv) && NulFree(interp) && NulFree(opt) && NulFree(path)
    ensures AllNulFree(Expand(argv, interp, opt, path))
  {
    var v := Expand(argv, interp, opt, path);
    forall k | 0 <= k < |v| ensures NulFree(v[k]) {
      var head := if opt == [] then 2 else 3;
      if k >= head { assert v[k] == argv[k - head + 1]; }
    }
  }

  /** The file is a script, and its line leads on. */
  predicate LeadsOn(files: Files, path: Text, argv: seq<Text>, depth: nat) {
    depth < DEPTH && path in files
    && var h := HeadOf(files[path]);
    !IsElf(h) && IsScript(h) && ParseLine(h).Line? && !Overflows(argv, ParseLine(h).opt)
  }

  lemma ChaseEnds(files: Files, path: Text, argv: seq<Text>, depth: nat, last: seq<byte>)
    requires !LeadsOn(files, path, argv, depth)
    ensures var t := Chase(files, path, argv, depth, last); t.Some? ==> t.value.argv == argv
  {
  }

  lemma ChaseGoes(files: Files, path: Text, argv: seq<Text>, depth: nat, last: seq<byte>)
    requires LeadsOn(files, path, argv, depth)
    ensures var line := ParseLine(HeadOf(files[path]));
      var longer := Expand(argv, line.interp, line.opt, path);
      Chase(files, path, argv, depth, last) == Chase(files, line.interp, longer, depth + 1, files[path])
  {
  }

  /** Whatever the chain, the arguments stay C strings and few enough. */
  lemma {:induction false} ChaseKeeps(files: Files, path: Text, argv: seq<Text>, depth: nat, last: seq<byte>)
    requires AllNulFree(argv) && NulFree(path) && |argv| <= MAX_ARGS
    ensures var t := Chase(files, path, argv, depth, last);
      t.Some? ==> AllNulFree(t.value.argv) && |t.value.argv| <= MAX_ARGS
    decreases DEPTH - depth
  {
    if LeadsOn(files, path, argv, depth) {
      var h := HeadOf(files[path]);
      var line := ParseLine(h);
      ParsedNulFree(h);
      ExpandNulFree(argv, line.interp, line.opt, path);
      ChaseKeeps(files, line.interp, Expand(argv, line.interp, line.opt, path), depth + 1, files[path]);
      ChaseGoes(files, path, argv, depth, last);
    } else {
      ChaseEnds(files, path, argv, depth, last);
    }
  }

  // ---- headers ---------------------------------------------------------------------------------

  datatype Header = Header(entry: nat, phoff: nat, phentsize: nat, phnum: nat)

  datatype Segment = Segment(kind: nat, offset: nat, vaddr: nat, filesz: nat, memsz: nat)

  function WordIn(b: seq<byte>, i: nat): nat
    requires i + 4 <= |b|
  {
    FromWord(b[i], b[i + 1], b[i + 2], b[i + 3])
  }

  function HeaderOf(f: seq<byte>): Option<Header> {
    if |f| < 52 then None
    else
      var phentsize, phnum := f[42] as int + 256 * f[43] as int, f[44] as int + 256 * f[45] as int;
      Some(Header(WordIn(f, 24), WordIn(f, 28), phentsize, phnum))
  }

  /** 32-bit wrap-around of a sum or a difference of words. */
  function Wrap(n: int): nat { if n >= U32 then n - U32 else if 0 <= n then n else if n + U32 >= 0 then n + U32 else 0 }

  /** Where program header i starts: i sizes past the first, in 32-bit arithmetic. */
  function OffsetAt(h: Header, i: nat): nat {
    if i == 0 then h.phoff else Wrap(OffsetAt(h, i - 1) + h.phentsize)
  }

  /** Program header i, if it can be read whole. */
  function SegmentAt(f: seq<byte>, h: Header, i: nat): Option<Segment> {
    var o := OffsetAt(h, i);
    if o + 32 > |f| then None
    else Some(Segment(WordIn(f, o), WordIn(f, o + 4), WordIn(f, o + 8), WordIn(f, o + 16), WordIn(f, o + 20)))
  }

  /** How far the first n segments reach into the window, in 32-bit arithmetic. */
  function Extent(f: seq<byte>, h: Header, n: nat): Option<nat> {
    if n == 0 then Some(0)
    else match Extent(f, h, n - 1)
      case None => None
      case Some(e) => match SegmentAt(f, h, n - 1)
        case None => None
        case Some(s) => Some(Reach(e, s))
  }

  function Reach(e: nat, s: Segment): nat {
    if s.kind != PT_LOAD then e
    else
      var end := Wrap(s.vaddr - LOAD + s.memsz);
      if end > e then end else e
  }

  /** A segment that lies in the load window. */
  predicate InWindow(s: Segment) {
    s.kind == PT_LOAD ==> LOAD <= s.vaddr && s.filesz <= s.memsz && s.vaddr - LOAD + s.memsz <= WINDOW
  }

  ghost predicate SegmentFits(f: seq<byte>, h: Header, i: nat) {
    match SegmentAt(f, h, i) case None => true case Some(s) => InWindow(s)
  }

  ghost predicate Loadable(f: seq<byte>) {
    match HeaderOf(f) case None => true case Some(h) => forall i :: 0 <= i < h.phnum ==> SegmentFits(f, h, i)
  }

  lemma {:induction false} ExtentReads(f: seq<byte>, h: Header, n: nat, i: nat)
    requires Extent(f, h, n).Some? && i < n
    ensures SegmentAt(f, h, i).Some? && Extent(f, h, i).Some?
    ensures Reach(Extent(f, h, i).value, SegmentAt(f, h, i).value) <= Extent(f, h, n).value
    decreases n
  {
    if i < n - 1 { ExtentReads(f, h, n - 1, i); }
  }

  // ---- the image ---------------------------------------------------------------------------------

  /** One segment over what is there: its bytes as far as the file has them, then zeros. */
  function Overlay(img: seq<byte>, f: seq<byte>, s: Segment): (r: seq<byte>)
    ensures |r| == |img|
  {
    if s.kind != PT_LOAD then img
    else seq<byte>(|img|, k requires 0 <= k < |img| => OverlayAt(img, f, s, k))
  }

  function OverlayAt(img: seq<byte>, f: seq<byte>, s: Segment, k: nat): byte
    requires k < |img|
  {
    var j := k + LOAD - s.vaddr;
    if 0 <= j < s.filesz && s.offset + j < |f| then f[s.offset + j]
    else if s.filesz <= j < s.memsz then 0
    else img[k]
  }

  function Loaded(f: seq<byte>, h: Header, n: nat, size: nat): (r: seq<byte>)
    requires Extent(f, h, n).Some?
    ensures |r| == size
  {
    if n == 0 then seq<byte>(size, _ => 0) else Overlay(Loaded(f, h, n - 1, size), f, SegmentAt(f, h, n - 1).value)
  }

  /** The live window after the wipe and the first n segments. */
  function Live(window: seq<byte>, f: seq<byte>, h: Header, n: nat, size: nat): (r: seq<byte>)
    requires Extent(f, h, n).Some? && size <= |window|
    ensures |r| == |window|
  {
    if n == 0 then seq<byte>(size, _ => 0) + window[size..]
      else Overlay(Live(window, f, h, n - 1, size), f, SegmentAt(f, h, n - 1).value)
  }

  /** A segment inside the measured part. */
  ghost predicate SegmentIn(f: seq<byte>, h: Header, i: nat, size: nat) {
    match SegmentAt(f, h, i)
    case None => true
    case Some(s) => s.kind == PT_LOAD ==> LOAD <= s.vaddr && s.filesz <= s.memsz && s.vaddr - LOAD + s.memsz <= size
  }

  /** The window is the image, and above it what was there before. */
  lemma {:induction false} LiveIs(window: seq<byte>, f: seq<byte>, h: Header, n: nat, size: nat)
    requires Extent(f, h, n).Some? && size <= |window| && forall i :: 0 <= i < n ==> SegmentIn(f, h, i, size)
    ensures Live(window, f, h, n, size) == Loaded(f, h, n, size) + window[size..]
    decreases n
  {
    if n > 0 {
      LiveIs(window, f, h, n - 1, size);
      assert SegmentIn(f, h, n - 1, size);
      OverlayLow(Loaded(f, h, n - 1, size), window[size..], f, SegmentAt(f, h, n - 1).value);
    }
  }

  lemma OverlayLow(img: seq<byte>, rest: seq<byte>, f: seq<byte>, s: Segment)
    requires s.kind == PT_LOAD ==> LOAD <= s.vaddr && s.filesz <= s.memsz && s.vaddr - LOAD + s.memsz <= |img|
    ensures Overlay(img + rest, f, s) == Overlay(img, f, s) + rest
  {
    var a, b := Overlay(img + rest, f, s), Overlay(img, f, s) + rest;
    forall k | 0 <= k < |a| ensures a[k] == b[k] {
      if s.kind == PT_LOAD { assert a[k] == OverlayAt(img + rest, f, s, k); }
    }
  }

  /** The bytes of a segment that no later one covers are those of the file. */
  lemma {:induction false} SegmentSurvives(f: seq<byte>, h: Header, n: nat, size: nat, i: nat, k: nat)
    requires Extent(f, h, n).Some? && i < n && k < size && SegmentAt(f, h, i).Some?
    requires var s := SegmentAt(f, h, i).value;
      s.kind == PT_LOAD && s.vaddr <= k + LOAD < s.vaddr + s.filesz && s.offset + (k + LOAD - s.vaddr) < |f|
    requires forall l :: i < l < n ==> Misses(f, h, l, k)
    ensures var s := SegmentAt(f, h, i).value; Loaded(f, h, n, size)[k] == f[s.offset + (k + LOAD - s.vaddr)]
    decreases n
  {
    if i < n - 1 {
      SegmentSurvives(f, h, n - 1, size, i, k);
      assert Misses(f, h, n - 1, k);
    }
  }

  /** The rest of a segment's memory, past what the file gives, is zero where no later segment
      covers it. */
  lemma {:induction false} BssIsZero(f: seq<byte>, h: Header, n: nat, size: nat, i: nat, k: nat)
    requires Extent(f, h, n).Some? && i < n && k < size && SegmentAt(f, h, i).Some?
    requires var s := SegmentAt(f, h, i).value; s.kind == PT_LOAD && s.vaddr + s.filesz <= k + LOAD < s.vaddr + s.memsz
    requires forall l :: i < l < n ==> Misses(f, h, l, k)
    ensures Loaded(f, h, n, size)[k] == 0
    decreases n
  {
    if i < n - 1 {
      BssIsZero(f, h, n - 1, size, i, k);
      assert Misses(f, h, n - 1, k);
    }
  }

  /** So is every byte of the image that no segment covers. */
  lemma {:induction false} GapIsZero(f: seq<byte>, h: Header, n: nat, size: nat, k: nat)
    requires Extent(f, h, n).Some? && k < size
    requires forall l :: 0 <= l < n ==> Misses(f, h, l, k)
    ensures Loaded(f, h, n, size)[k] == 0
    decreases n
  {
    if n > 0 {
      GapIsZero(f, h, n - 1, size, k);
      assert Misses(f, h, n - 1, k);
    }
  }

  ghost predicate Misses(f: seq<byte>, h: Header, l: nat, k: nat) {
    match SegmentAt(f, h, l)
    case None => true
    case Some(s) => s.kind == PT_LOAD ==> s.filesz <= s.memsz && (k + LOAD < s.vaddr || k + LOAD >= s.vaddr + s.memsz)
  }

  // ---- the whole call ------------------------------------------------------------------------------

  datatype Image = Image(argv: seq<Text>, envp: seq<Text>, content: seq<byte>, entry: nat)

  function Vector(m: Memory, u: nat): Option<seq<Text>> { if u == 0 then Some([]) else ReadVec(m, u, 0, MAX_ARGS, 0) }

  function Limited(e: nat): nat { if e > WINDOW then WINDOW else e }

  /** The headers are there, and something is to be loaded. */
  predicate Measured(f: seq<byte>) {
    var h := HeaderOf(f);
    h != None && var e := Extent(f, h.value, h.value.phnum); e != None && e.value != 0
  }

  function ImageOf(f: seq<byte>, argv: seq<Text>, envp: seq<Text>): Option<Image> {
    if !Measured(f) then None
    else
      var h := HeaderOf(f).value;
      Some(Image(argv, envp, Loaded(f, h, h.phnum, Limited(Extent(f, h, h.phnum).value)), h.entry))
  }

  /** The file and the vectors, once every check before the headers has passed. */
  datatype Checked = Checked(file: seq<byte>, argv: seq<Text>, envp: seq<Text>)

  function CheckedFor(files: Files, path: Text, argv: seq<Text>, envp: seq<Text>): Option<Checked> {
    if !WithinBudget(argv, envp) then None
    else match Chase(files, path, argv, 0, [])
      case None => None
      case Some(t) => if !WithinBudget(t.argv, envp) then None else Some(Checked(t.file, t.argv, envp))
  }

  function CheckedOf(files: Files, m: Memory, path: Text, au: nat, eu: nat): Option<Checked> {
    var argv, envp := Vector(m, au), Vector(m, eu);
    if argv == None || envp == None then None else CheckedFor(files, path, argv.value, envp.value)
  }

  /** What exec is going to install, and whether it succeeds at all. */
  function Plan(files: Files, m: Memory, path: Text, au: nat, eu: nat): Option<Image> {
    match CheckedOf(files, m, path, au, eu) case None => None case Some(c) => ImageOf(c.file, c.argv, c.envp)
  }

  lemma VectorNulFree(m: Memory, u: nat)
    ensures var v := Vector(m, u);
      v.Some? ==> AllNulFree(v.value) && |v.value| <= MAX_ARGS && Limits(v.value, MAX_ARGS, 0)
  {
    var v := Vector(m, u);
    if v.Some? && u != 0 {
      ReadVecExactly(m, u, MAX_ARGS, v.value);
      forall k | 0 <= k < |v.value| ensures NulFree(v.value[k]) { assert Slot(m, u, k, v.value[k]); }
    }
  }

  /** Every vector that passes the checks consists of C strings and fits the stack. */
  lemma CheckedIsSafe(files: Files, m: Memory, path: Text, au: nat, eu: nat)
    requires NulFree(path)
    ensures var c := CheckedOf(files, m, path, au, eu);
      c.Some? ==> WithinBudget(c.value.argv, c.value.envp) && AllNulFree(c.value.argv) && AllNulFree(c.value.envp)
  {
    VectorNulFree(m, au);
    VectorNulFree(m, eu);
    var argv := Vector(m, au);
    if argv.Some? { ChaseKeeps(files, path, argv.value, 0, []); }
  }

  /** The segments of the file that would be loaded lie in the window. */
  ghost predicate Loads(files: Files, m: Memory, path: Text, au: nat) {
    var argv := Vector(m, au);
    argv.Some? ==> var t := Chase(files, path, argv.value, 0, []); t.Some? ==> Loadable(t.value.file)
  }
}
