/** Programs as files: where an executable keeps its entry point and its segments, and that exec
    of a file written so starts exactly that program. */
module ProgramFile {
  import opened Basics
  import opened ProcessSpec
  import opened ExecSpec
  import opened Script
  import opened Loader

  // ---- a program and its file -------------------------------------------------------------------

  /** A loadable segment: where it goes, its bytes, and how many zeros up to memsz follow. */
  datatype Section = Section(vaddr: nat, data: seq<byte>, memsz: nat) {
    function End(): nat { vaddr + memsz }
  }

  /** A program, and where its file keeps the table of segments and their bytes. */
  datatype Program = Program(entry: nat, sections: seq<Section>, table: nat, stride: nat, places: seq<nat>)

  function HalfBytes(n: nat): seq<byte>
    requires n < 0x1_0000
  {
    [n % 256, n / 256]
  }

  ghost predicate Holds(f: seq<byte>, at: nat, b: seq<byte>) { at + |b| <= |f| && f[at..at + |b|] == b }

  function EntryPlace(p: Program, i: nat): nat {
    if i == 0 then p.table else EntryPlace(p, i - 1) + p.stride
  }

  /** Entry at o: loadable, with the segment's file place, address and sizes; its bytes are at
      that place. */
  ghost predicate EntryAt(f: seq<byte>, o: nat, s: Section, place: nat) {
    && o + 32 <= |f| && Holds(f, o, WordBytes(1)) && Holds(f, o + 4, WordBytes(place))
    && Holds(f, o + 8, WordBytes(s.vaddr))
    && Holds(f, o + 16, WordBytes(|s.data|)) && Holds(f, o + 20, WordBytes(s.memsz)) && Holds(f, place, s.data)
  }

  /** f is a file of program p: the magic number, entry point and table in their places of the
      52-byte header, then everything the table says. */
  ghost predicate FileOf(f: seq<byte>, p: Program) {
    && 52 <= |f| < U32 && |p.places| == |p.sections| < 0x1_0000 && p.stride < 0x1_0000 && p.entry < U32
    && Holds(f, 0, [0x7F, 'E' as int, 'L' as int, 'F' as int])
    && Holds(f, 24, WordBytes(p.entry)) && Holds(f, 28, WordBytes(p.table)) && p.table < U32
    && Holds(f, 42, HalfBytes(p.stride)) && Holds(f, 44, HalfBytes(|p.sections|))
    && forall i :: 0 <= i < |p.sections| ==> Described(f, p, i)
  }

  ghost predicate Described(f: seq<byte>, p: Program, i: nat)
    requires i < |p.sections| == |p.places|
  {
    p.sections[i].vaddr < U32 && p.sections[i].memsz < U32 && EntryAt(f, EntryPlace(p, i), p.sections[i], p.places[i])
  }

  /** The segments lie in the load window, one beside the other, and there is something to load. */
  ghost predicate WellPlaced(p: Program) {
    && (forall i :: 0 <= i < |p.sections| ==> InPlace(p.sections[i]))
    && (forall i, j :: 0 <= i < |p.sections| && 0 <= j < |p.sections| && i != j ==>
         Beside(p.sections[i], p.sections[j]))
    && exists i :: 0 <= i < |p.sections| && Occupies(p.sections[i])
  }

  ghost predicate Occupies(s: Section) { s.End() > 0x8000000 }

  ghost predicate NotPast(s: Section, e: nat) { s.End() <= 0x8000000 + e }

  ghost predicate EndsAt(s: Section, e: nat) { s.End() == 0x8000000 + e }

  ghost predicate InPlace(s: Section) { 0x8000000 <= s.vaddr && |s.data| <= s.memsz && s.End() <= 0x8400000 }

  ghost predicate Beside(a: Section, b: Section) { a.End() <= b.vaddr || b.End() <= a.vaddr }

  // ---- the loader reads what was written --------------------------------------------------------

  lemma WordHeld(f: seq<byte>, at: nat, n: nat)
    requires Holds(f, at, WordBytes(n)) && n < U32
    ensures WordIn(f, at) == n
  {
    var b := WordBytes(n);
    var w := f[at..at + 4];
    assert f[at] == w[0] && f[at + 1] == w[1] && f[at + 2] == w[2] && f[at + 3] == w[3];
    WordBack(n);
  }

  lemma HalfHeld(f: seq<byte>, at: nat, n: nat)
    requires n < 0x1_0000 && Holds(f, at, HalfBytes(n))
    ensures f[at] as int + 256 * f[at + 1] as int == n
  {
    var h := f[at..at + 2];
    assert f[at] == h[0] && f[at + 1] == h[1];
  }

  lemma MagicHeld(f: seq<byte>)
    requires |f| >= 52 && Holds(f, 0, [0x7F, 'E' as int, 'L' as int, 'F' as int])
    ensures IsElf(HeadOf(f))
  {
    var m := f[0..4];
    assert f[0] == m[0] && f[1] == m[1] && f[2] == m[2] && f[3] == m[3];
  }

  lemma HeaderReads(f: seq<byte>, p: Program)
    requires FileOf(f, p)
    ensures HeaderOf(f) == Some(Header(p.entry, p.table, p.stride, |p.sections|)) && IsElf(HeadOf(f))
  {
    WordHeld(f, 24, p.entry);
    WordHeld(f, 28, p.table);
    HalfHeld(f, 42, p.stride);
    HalfHeld(f, 44, |p.sections|);
    MagicHeld(f);
  }

  function Header0(p: Program): Header { Header(p.entry, p.table, p.stride, |p.sections|) }

  lemma {:induction false} OffsetIs(f: seq<byte>, p: Program, i: nat)
    requires FileOf(f, p) && i < |p.sections|
    ensures OffsetAt(Header0(p), i) == EntryPlace(p, i)
  {
    assert Described(f, p, i);
    if i > 0 { OffsetIs(f, p, i - 1); }
  }

  lemma SegmentReads(f: seq<byte>, p: Program, i: nat)
    requires FileOf(f, p) && i < |p.sections|
    ensures var s := p.sections[i];
      SegmentAt(f, Header0(p), i) == Some(Segment(1, p.places[i], s.vaddr, |s.data|, s.memsz))
  {
    OffsetIs(f, p, i);
    assert Described(f, p, i);
    var o := EntryPlace(p, i);
    WordHeld(f, o, 1);
    WordHeld(f, o + 4, p.places[i]);
    WordHeld(f, o + 8, p.sections[i].vaddr);
    WordHeld(f, o + 16, |p.sections[i].data|);
    WordHeld(f, o + 20, p.sections[i].memsz);
  }

  lemma FitsWindow(f: seq<byte>, p: Program)
    requires FileOf(f, p) && WellPlaced(p)
    ensures Loadable(f)
  {
    HeaderReads(f, p);
    AllFit(f, p);
    assert HeaderOf(f) == Some(Header0(p));
  }

  lemma AllFit(f: seq<byte>, p: Program)
    requires FileOf(f, p) && WellPlaced(p)
    ensures forall i :: 0 <= i < |p.sections| ==> SegmentFits(f, Header0(p), i)
  {
    forall i | 0 <= i < |p.sections| ensures SegmentFits(f, Header0(p), i) {
      assert InPlace(p.sections[i]);
      SectionFits(f, p, i);
    }
  }

  lemma SectionFits(f: seq<byte>, p: Program, i: nat)
    requires FileOf(f, p) && i < |p.sections| && InPlace(p.sections[i])
    ensures SegmentFits(f, Header0(p), i)
  {
    SegmentReads(f, p, i);
  }

  /** The image reaches as far as the first n segments, no further. */
  ghost predicate Reaches(p: Program, n: nat, e: nat) {
    && n <= |p.sections| && e <= 0x400000
    && (forall i :: 0 <= i < n ==> NotPast(p.sections[i], e))
    && (e > 0 ==> exists i :: 0 <= i < n && EndsAt(p.sections[i], e))
  }

  lemma {:induction false} ExtentReaches(f: seq<byte>, p: Program, n: nat)
    requires FileOf(f, p) && WellPlaced(p) && n <= |p.sections|
    ensures Extent(f, Header0(p), n).Some? && Reaches(p, n, Extent(f, Header0(p), n).value)
  {
    if n > 0 {
      ExtentReaches(f, p, n - 1);
      NextReaches(f, p, n - 1);
    }
  }

  lemma NextReaches(f: seq<byte>, p: Program, n: nat)
    requires FileOf(f, p) && n < |p.sections| && InPlace(p.sections[n])
    requires Extent(f, Header0(p), n).Some? && Reaches(p, n, Extent(f, Header0(p), n).value)
    ensures Extent(f, Header0(p), n + 1).Some? && Reaches(p, n + 1, Extent(f, Header0(p), n + 1).value)
  {
    SegmentReads(f, p, n);
    ExtentStep(f, Header0(p), n);
    ReachIs(p.sections[n], Extent(f, Header0(p), n).value, p.places[n]);
    ReachesOne(p, n, Extent(f, Header0(p), n).value);
  }

  lemma ExtentStep(f: seq<byte>, h: Header, n: nat)
    requires Extent(f, h, n).Some? && SegmentAt(f, h, n).Some?
    ensures Extent(f, h, n + 1) == Some(Reach(Extent(f, h, n).value, SegmentAt(f, h, n).value))
  {
  }

  lemma ReachIs(s: Section, e: nat, place: nat)
    requires InPlace(s)
    ensures var end := s.vaddr - LOAD + s.memsz;
      Reach(e, Segment(1, place, s.vaddr, |s.data|, s.memsz)) == if end > e then end else e
  {
  }

  /** One more segment: the image reaches to its end if that is further. */
  lemma ReachesOne(p: Program, n: nat, e: nat)
    requires n < |p.sections| && Reaches(p, n, e) && InPlace(p.sections[n])
    ensures Reaches(p, n + 1, var end := p.sections[n].vaddr - LOAD + p.sections[n].memsz; if end > e then end else e)
  {
    var s := p.sections[n];
    var end := s.vaddr - LOAD + s.memsz;
    if end > e {
      assert EndsAt(s, end);
      forall i | 0 <= i < n ensures NotPast(p.sections[i], end) { assert NotPast(p.sections[i], e); }
    } else if e > 0 {
      var i :| 0 <= i < n && EndsAt(p.sections[i], e);
    }
  }

  // ---- the image -----------------------------------------------------------------------------------

  /** What memory holds of section i, for an image from 0x8000000 on. */
  ghost predicate SectionLoaded(img: seq<byte>, s: Section) {
    && s.vaddr >= 0x8000000 && s.End() <= 0x8000000 + |img|
    && forall j :: 0 <= j < s.memsz ==> ByteLoaded(img, s, j)
  }

  /** Byte j of the segment: the file's, or zero behind them. */
  ghost predicate ByteLoaded(img: seq<byte>, s: Section, j: nat)
    requires 0x8000000 <= s.vaddr && s.End() <= 0x8000000 + |img| && j < s.memsz
  {
    img[s.vaddr - 0x8000000 + j] == if j < |s.data| then s.data[j] else 0
  }

  ghost predicate InSection(s: Section, a: nat) { s.vaddr <= a < s.End() }

  /** The image of a program: every segment in its place, zeros between them, nothing behind the
      last. */
  ghost predicate ImageIs(img: seq<byte>, p: Program) {
    && Reaches(p, |p.sections|, |img|)
    && (forall i :: 0 <= i < |p.sections| ==> SectionLoaded(img, p.sections[i]))
    && forall k :: 0 <= k < |img| && Between(p, k) ==> img[k] == 0
  }

  /** Byte k of the window belongs to no segment. */
  ghost predicate Between(p: Program, k: nat) {
    forall i :: 0 <= i < |p.sections| ==> !InSection(p.sections[i], 0x8000000 + k)
  }

  lemma OthersMiss(f: seq<byte>, p: Program, l: nat, k: nat)
    requires FileOf(f, p) && WellPlaced(p) && l < |p.sections| && !InSection(p.sections[l], LOAD + k)
    ensures Misses(f, Header0(p), l, k)
  {
    SegmentReads(f, p, l);
    assert InPlace(p.sections[l]);
  }

  lemma RestMisses(f: seq<byte>, p: Program, i: nat, k: nat)
    requires FileOf(f, p) && WellPlaced(p) && i < |p.sections| && InSection(p.sections[i], LOAD + k)
    ensures forall l :: i < l < |p.sections| ==> Misses(f, Header0(p), l, k)
  {
    forall l | i < l < |p.sections| ensures Misses(f, Header0(p), l, k) {
      assert Beside(p.sections[i], p.sections[l]);
      OthersMiss(f, p, l, k);
    }
  }

  lemma ByteLoads(f: seq<byte>, p: Program, size: nat, i: nat, j: nat)
    requires FileOf(f, p) && WellPlaced(p) && i < |p.sections| && j < p.sections[i].memsz
    requires NotPast(p.sections[i], size) && Extent(f, Header0(p), |p.sections|).Some?
    ensures var s := p.sections[i];
      s.vaddr >= LOAD && ByteLoaded(Loaded(f, Header0(p), |p.sections|, size), s, j)
  {
    assert InPlace(p.sections[i]);
    if j < |p.sections[i].data| { DataByteLoads(f, p, size, i, j); } else { ZeroByteLoads(f, p, size, i, j); }
  }

  lemma DataByteLoads(f: seq<byte>, p: Program, size: nat, i: nat, j: nat)
    requires FileOf(f, p) && WellPlaced(p) && i < |p.sections| && j < |p.sections[i].data| && InPlace(p.sections[i])
    requires NotPast(p.sections[i], size) && Extent(f, Header0(p), |p.sections|).Some?
    ensures Loaded(f, Header0(p), |p.sections|, size)[p.sections[i].vaddr - LOAD + j] == p.sections[i].data[j]
  {
    var k := p.sections[i].vaddr - LOAD + j;
    SegmentReads(f, p, i);
    RestMisses(f, p, i, k);
    DataHeld(f, p, i, j);
    SegmentSurvives(f, Header0(p), |p.sections|, size, i, k);
  }

  lemma ZeroByteLoads(f: seq<byte>, p: Program, size: nat, i: nat, j: nat)
    requires FileOf(f, p) && WellPlaced(p) && i < |p.sections| && InPlace(p.sections[i])
    requires |p.sections[i].data| <= j < p.sections[i].memsz
    requires NotPast(p.sections[i], size) && Extent(f, Header0(p), |p.sections|).Some?
    ensures Loaded(f, Header0(p), |p.sections|, size)[p.sections[i].vaddr - LOAD + j] == 0
  {
    var k := p.sections[i].vaddr - LOAD + j;
    SegmentReads(f, p, i);
    RestMisses(f, p, i, k);
    BssIsZero(f, Header0(p), |p.sections|, size, i, k);
  }

  lemma DataHeld(f: seq<byte>, p: Program, i: nat, j: nat)
    requires FileOf(f, p) && i < |p.sections| && j < |p.sections[i].data|
    ensures p.places[i] + j < |f| && f[p.places[i] + j] == p.sections[i].data[j]
  {
    assert Described(f, p, i);
    var at, d := p.places[i], p.sections[i].data;
    assert f[at..at + |d|][j] == d[j];
  }

  lemma SectionLoads(f: seq<byte>, p: Program, size: nat, i: nat)
    requires FileOf(f, p) && WellPlaced(p) && i < |p.sections|
    requires NotPast(p.sections[i], size) && Extent(f, Header0(p), |p.sections|).Some?
    ensures SectionLoaded(Loaded(f, Header0(p), |p.sections|, size), p.sections[i])
  {
    var s, img := p.sections[i], Loaded(f, Header0(p), |p.sections|, size);
    assert InPlace(s);
    forall j | 0 <= j < s.memsz ensures ByteLoaded(img, s, j) { ByteLoads(f, p, size, i, j); }
  }

  lemma GapLoads(f: seq<byte>, p: Program, size: nat, k: nat)
    requires FileOf(f, p) && WellPlaced(p) && k < size && Extent(f, Header0(p), |p.sections|).Some?
    requires Between(p, k)
    ensures Loaded(f, Header0(p), |p.sections|, size)[k] == 0
  {
    forall l | 0 <= l < |p.sections| ensures Misses(f, Header0(p), l, k) { OthersMiss(f, p, l, k); }
    GapIsZero(f, Header0(p), |p.sections|, size, k);
  }

  lemma ImageLoads(f: seq<byte>, p: Program)
    requires FileOf(f, p) && WellPlaced(p)
    ensures Measured(f)
    ensures Extent(f, Header0(p), |p.sections|).Some?
    ensures var size := Extent(f, Header0(p), |p.sections|).value;
      Limited(size) == size && ImageIs(Loaded(f, Header0(p), |p.sections|, size), p)
  {
    var n := |p.sections|;
    HeaderReads(f, p);
    ExtentReaches(f, p, n);
    var size := Extent(f, Header0(p), n).value;
    var one :| 0 <= one < n && Occupies(p.sections[one]);
    assert NotPast(p.sections[one], size);
    forall i | 0 <= i < n ensures SectionLoaded(Loaded(f, Header0(p), n, size), p.sections[i]) {
      SectionLoads(f, p, size, i);
    }
    forall k | 0 <= k < size && Between(p, k) ensures Loaded(f, Header0(p), n, size)[k] == 0 {
      GapLoads(f, p, size, k);
    }
  }

  // ---- exec of such a file ---------------------------------------------------------------------

  /** The vector the caller passes: none at all, or one within the limits. */
  ghost predicate Given(m: Memory, u: nat, v: seq<Text>) {
    if u == 0 then v == []
    else VecAt(m, u, v) && |v| <= 64 && |Flat(v)| <= 8192 && forall i :: 0 <= i < |v| ==> |v[i]| < 1024
  }

  lemma LimitsAre(v: seq<Text>)
    ensures Limits(v, 64, 0) <==> |v| <= 64 && |Flat(v)| <= 8192 && forall i :: 0 <= i < |v| ==> |v[i]| < 1024
  {
    if forall i :: 0 <= i < |v| ==> |v[i]| < 1024 { forall i | 0 <= i < |v| ensures Short(v[i]) { } }
    if Limits(v, 64, 0) { forall i | 0 <= i < |v| ensures |v[i]| < 1024 { assert Short(v[i]); } }
  }

  /** Strings, pointers and the count fit the stack, 192 bytes left over. */
  ghost predicate SmallEnough(argv: seq<Text>, envp: seq<Text>) {
    |Flat(argv)| + |Flat(envp)| + 4 * (|argv| + |envp| + 3) <= 16384 - 192
  }

  lemma VectorGiven(m: Memory, u: nat, v: seq<Text>)
    ensures Vector(m, u) == Some(v) <==> Given(m, u, v)
  {
    ReadVecExactly(m, u, MAX_ARGS, v);
    LimitsAre(v);
  }

  /** What exec makes of program p. */
  ghost predicate Starts(plan: Option<Image>, p: Program, argv: seq<Text>, envp: seq<Text>) {
    plan.Some? && plan.value.entry == p.entry && ImageIs(plan.value.content, p)
    && plan.value.argv == argv && plan.value.envp == envp
  }

  lemma FileStarts(f: seq<byte>, p: Program, argv: seq<Text>, envp: seq<Text>)
    requires FileOf(f, p) && WellPlaced(p)
    ensures Starts(ImageOf(f, argv, envp), p, argv, envp)
  {
    HeaderReads(f, p);
    ImageLoads(f, p);
  }

  lemma ElfEnds(files: Files, path: Text, argv: seq<Text>, depth: nat, last: seq<byte>)
    requires path in files && depth < DEPTH && IsElf(HeadOf(files[path]))
    ensures Chase(files, path, argv, depth, last) == Some(Target(files[path], argv))
  {
  }

  /** exec of a program's file starts exactly that program, at its entry point, with every segment
      in its place and the vectors as given. */
  lemma ProgramRuns(files: Files, m: Memory, path: Text, au: nat, eu: nat, argv: seq<Text>, envp: seq<Text>, p: Program)
    requires path in files && FileOf(files[path], p) && WellPlaced(p)
    requires Given(m, au, argv) && Given(m, eu, envp) && SmallEnough(argv, envp)
    ensures Starts(Plan(files, m, path, au, eu), p, argv, envp) && Loads(files, m, path, au)
  {
    VectorGiven(m, au, argv);
    VectorGiven(m, eu, envp);
    HeaderReads(files[path], p);
    FitsWindow(files[path], p);
    ElfEnds(files, path, argv, 0, []);
    FileStarts(files[path], p, argv, envp);
  }

  /** And it succeeds exactly when the vectors are within their limits and fit the stack. */
  lemma ProgramRunsExactly(files: Files, m: Memory, path: Text, au: nat, eu: nat, p: Program)
    requires path in files && FileOf(files[path], p) && WellPlaced(p)
    ensures Plan(files, m, path, au, eu).Some?
      <==> exists argv, envp :: Given(m, au, argv) && Given(m, eu, envp) && SmallEnough(argv, envp)
  {
    if exists argv, envp :: Given(m, au, argv) && Given(m, eu, envp) && SmallEnough(argv, envp) {
      var argv, envp :| Given(m, au, argv) && Given(m, eu, envp) && SmallEnough(argv, envp);
      ProgramRuns(files, m, path, au, eu, argv, envp, p);
    }
    if Plan(files, m, path, au, eu).Some? {
      VectorGiven(m, au, Vector(m, au).value);
      VectorGiven(m, eu, Vector(m, eu).value);
      assert SmallEnough(Vector(m, au).value, Vector(m, eu).value);
    }
  }

  /** What makes exec fail: no such file, a vector that is not one, vectors that are too large, a
      file that is neither program nor script, a program without a whole header, a program with
      nothing to load. */
  lemma NothingRuns(files: Files, m: Memory, path: Text, au: nat, eu: nat)
    requires || path !in files || (forall v :: !Given(m, au, v)) || (forall v :: !Given(m, eu, v))
             || (exists v, w :: Given(m, au, v) && Given(m, eu, w) && !SmallEnough(v, w))
             || (!IsElf(HeadOf(files[path])) && !IsScript(HeadOf(files[path])))
             || (IsElf(HeadOf(files[path])) && |files[path]| < 52)
             || exists p :: FileOf(files[path], p) && p.sections == []
    ensures Plan(files, m, path, au, eu) == None
  {
    if Plan(files, m, path, au, eu) != None {
      var v, w := Vector(m, au).value, Vector(m, eu).value;
      VectorGiven(m, au, v);
      VectorGiven(m, eu, w);
      if exists v', w' :: Given(m, au, v') && Given(m, eu, w') && !SmallEnough(v', w') {
        var v', w' :| Given(m, au, v') && Given(m, eu, w') && !SmallEnough(v', w');
        VectorGiven(m, au, v');
        VectorGiven(m, eu, w');
        assert false;
      }
      assert path in files;
      if exists p :: FileOf(files[path], p) && p.sections == [] {
        var p :| FileOf(files[path], p) && p.sections == [];
        HeaderReads(files[path], p);
        assert false;
      }
    }
  }

  // ---- scripts ---------------------------------------------------------------------------------

  /** The first line of file a names interpreter b with argument opt. */
  ghost predicate Names(files: Files, a: Text, b: Text, opt: Text) {
    a in files && exists b1: Text, b2: Text, b3: Text, rest: Text :: LineOf(HeadOf(files[a]), b1, b, b2, opt, b3, rest)
  }

  ghost predicate LineOf(h: Text, b1: Text, interp: Text, b2: Text, opt: Text, b3: Text, rest: Text) {
    && h == Written(b1, interp, b2, opt, b3, rest)
    && Spaces(b1) && interp != [] && |interp| < 128 && Inked(interp, true)
    && Spaces(b2) && Inked(opt, false) && Spaces(b3)
    && (opt != [] ==> b2 != [] && opt[0] !in {9, 32} && opt[|opt| - 1] !in {9, 32})
    && (opt == [] ==> b3 == []) && (rest != [] ==> rest[0] in {0, 10, 13})
  }

  /** Blanks and tabs. */
  ghost predicate Spaces(t: Text) { forall k :: 0 <= k < |t| ==> t[k] in {9, 32} }

  /** Neither the end of a line nor, in a word, a blank or a tab. */
  ghost predicate Inked(t: Text, word: bool) {
    forall k :: 0 <= k < |t| ==> t[k] !in {0, 10, 13} && (word ==> t[k] !in {9, 32})
  }

  /** The arguments a script's interpreter gets: itself, its argument if any, the script, and what
      the script was called with. */
  function ScriptArgs(argv: seq<Text>, interp: Text, opt: Text, path: Text): seq<Text> {
    (if opt == [] then [interp, path] else [interp, opt, path]) + (if argv == [] then [] else argv[1..])
  }

  lemma NamesRead(files: Files, path: Text, interp: Text, opt: Text)
    requires Names(files, path, interp, opt)
    ensures var h := HeadOf(files[path]); !IsElf(h) && IsScript(h) && ParseLine(h) == Line(interp, opt)
  {
    var h := HeadOf(files[path]);
    var b1: Text, b2: Text, b3: Text, rest: Text :| LineOf(h, b1, interp, b2, opt, b3, rest);
    SpacesBlank(b1);
    SpacesBlank(b2);
    SpacesBlank(b3);
    InkedIs(interp, opt);
    LineReads(b1, interp, b2, opt, b3, rest);
  }

  lemma SpacesBlank(t: Text)
    requires Spaces(t)
    ensures AllBlank(t)
  {
  }

  lemma InkedIs(interp: Text, opt: Text)
    requires interp != [] && Inked(interp, true) && Inked(opt, false)
    requires opt != [] ==> opt[0] !in {9, 32} && opt[|opt| - 1] !in {9, 32}
    ensures IsWord(interp) && IsOption(opt)
  {
  }

  lemma ArgsExpand(argv: seq<Text>, interp: Text, opt: Text, path: Text)
    ensures Expand(argv, interp, opt, path) == ScriptArgs(argv, interp, opt, path)
  {
  }

  lemma ChaseStops(files: Files, path: Text, argv: seq<Text>, depth: nat, last: seq<byte>)
    requires depth < DEPTH && path in files
    requires var h := HeadOf(files[path]);
      !IsElf(h) && IsScript(h) && ParseLine(h).Line? && Overflows(argv, ParseLine(h).opt)
    ensures Chase(files, path, argv, depth, last) == None
  {
  }

  lemma ScriptLeads(files: Files, path: Text, interp: Text, opt: Text, argv: seq<Text>, depth: nat, last: seq<byte>)
    requires Names(files, path, interp, opt) && depth < DEPTH
    ensures |argv| + (if opt == [] then 1 else 2) > 64 ==> Chase(files, path, argv, depth, last) == None
    ensures |argv| + (if opt == [] then 1 else 2) <= 64 ==>
              Chase(files, path, argv, depth, last)
              == Chase(files, interp, ScriptArgs(argv, interp, opt, path), depth + 1, files[path])
  {
    NamesRead(files, path, interp, opt);
    ArgsExpand(argv, interp, opt, path);
    if |argv| + (if opt == [] then 1 else 2) > 64 {
      ChaseStops(files, path, argv, depth, last);
    } else {
      ChaseGoes(files, path, argv, depth, last);
    }
  }

  /** The interpreter's program is what the script leads to. */
  lemma ScriptEnds(files: Files, path: Text, interp: Text, opt: Text, argv: seq<Text>, depth: nat, last: seq<byte>)
    requires Names(files, path, interp, opt) && depth + 1 < DEPTH && interp in files && IsElf(HeadOf(files[interp]))
    ensures Chase(files, path, argv, depth, last) ==
      if |argv| + (if opt == [] then 1 else 2) > 64 then None
      else Some(Target(files[interp], ScriptArgs(argv, interp, opt, path)))
  {
    ScriptLeads(files, path, interp, opt, argv, depth, last);
    ElfEnds(files, interp, ScriptArgs(argv, interp, opt, path), depth + 1, files[path]);
  }

  lemma PlanIs(files: Files, m: Memory, path: Text, au: nat, eu: nat, argv: seq<Text>, envp: seq<Text>,
               t: Option<Target>)
    requires Given(m, au, argv) && Given(m, eu, envp) && SmallEnough(argv, envp)
    requires Chase(files, path, argv, 0, []) == t
    ensures Plan(files, m, path, au, eu) ==
      if t.Some? && SmallEnough(t.value.argv, envp) then ImageOf(t.value.file, t.value.argv, envp) else None
    ensures t == None || Loadable(t.value.file) ==> Loads(files, m, path, au)
  {
    VectorGiven(m, au, argv);
    VectorGiven(m, eu, envp);
  }

  /** exec of a script whose interpreter is a program starts that program, on the script. */
  lemma ScriptRuns(files: Files, m: Memory, path: Text, au: nat, eu: nat, argv: seq<Text>, envp: seq<Text>,
                   interp: Text, opt: Text, p: Program)
    requires Names(files, path, interp, opt) && interp in files && FileOf(files[interp], p) && WellPlaced(p)
    requires Given(m, au, argv) && Given(m, eu, envp) && SmallEnough(argv, envp)
    ensures var args := ScriptArgs(argv, interp, opt, path);
      if |argv| + (if opt == [] then 1 else 2) <= 64 && SmallEnough(args, envp)
      then Starts(Plan(files, m, path, au, eu), p, args, envp) && Loads(files, m, path, au)
      else Plan(files, m, path, au, eu) == None
  {
    var args := ScriptArgs(argv, interp, opt, path);
    HeaderReads(files[interp], p);
    FitsWindow(files[interp], p);
    FileStarts(files[interp], p, args, envp);
    ScriptEnds(files, path, interp, opt, argv, 0, []);
    PlanIs(files, m, path, au, eu, argv, envp, Chase(files, path, argv, 0, []));
  }

  /** Scripts that interpret scripts: every file names the next. */
  ghost predicate Chain(files: Files, qs: seq<Text>) {
    forall j :: 0 <= j < |qs| - 1 ==> Names(files, qs[j], qs[j + 1], [])
  }

  function Backwards(qs: seq<Text>): seq<Text> { if qs == [] then [] else Backwards(qs[1..]) + [qs[0]] }

  function Rest(argv: seq<Text>): seq<Text> { if argv == [] then [] else argv[1..] }

  lemma BackwardsTwo(qs: seq<Text>, i: nat, argv: seq<Text>)
    requires i + 1 < |qs|
    ensures var args := ScriptArgs(argv, qs[i + 1], [], qs[i]);
      && |args| == 2 + |Rest(argv)| && Rest(args) == [qs[i]] + Rest(argv)
      && Backwards(qs[i..]) + Rest(argv) == Backwards(qs[i + 1..]) + Rest(args)
      && (i + 2 == |qs| ==> Backwards(qs[i..]) + Rest(argv) == args)
  {
    var args := ScriptArgs(argv, qs[i + 1], [], qs[i]);
    assert args == [qs[i + 1], qs[i]] + Rest(argv);
    assert qs[i..][1..] == qs[i + 1..];
    assert Backwards(qs[i + 1..]) + [qs[i]] + Rest(argv) == Backwards(qs[i + 1..]) + ([qs[i]] + Rest(argv));
    if i + 2 == |qs| {
      assert qs[i + 1..] == [qs[i + 1]] && qs[i + 1..][1..] == [];
      assert Backwards(qs[i + 1..]) == [qs[i + 1]];
    }
  }

  /** Up to four scripts lead to the program behind them, which gets all their names, last first. */
  lemma {:induction false} ChainRuns(files: Files, qs: seq<Text>, i: nat, argv: seq<Text>, last: seq<byte>)
    requires i < |qs| <= 5 && Chain(files, qs) && |argv| + |qs| - i <= 64
    requires qs[|qs| - 1] in files && IsElf(HeadOf(files[qs[|qs| - 1]]))
    ensures var args := if i == |qs| - 1 then argv else Backwards(qs[i..]) + Rest(argv);
      Chase(files, qs[i], argv, i, last) == Some(Target(files[qs[|qs| - 1]], args))
    decreases |qs| - i
  {
    if i == |qs| - 1 {
      ElfEnds(files, qs[i], argv, i, last);
    } else {
      assert Names(files, qs[i], qs[i + 1], []);
      ScriptLeads(files, qs[i], qs[i + 1], [], argv, i, last);
      BackwardsTwo(qs, i, argv);
      ChainRuns(files, qs, i + 1, ScriptArgs(argv, qs[i + 1], [], qs[i]), files[qs[i]]);
    }
  }

  lemma ChaseDeep(files: Files, path: Text, argv: seq<Text>, depth: nat, last: seq<byte>)
    requires depth >= DEPTH
    ensures Chase(files, path, argv, depth, last) == Some(Target(last, argv))
  {
  }

  /** With five, the fifth is taken for a program itself. */
  lemma {:induction false} ChainTooLong(files: Files, qs: seq<Text>, i: nat, argv: seq<Text>, last: seq<byte>)
    requires i <= DEPTH < |qs| && Chain(files, qs) && |Rest(argv)| + 1 + |qs| - i <= 64
    requires i > 0 ==> qs[i - 1] in files && last == files[qs[i - 1]]
    ensures qs[DEPTH - 1] in files
    ensures var t := Chase(files, qs[i], argv, i, last); t.Some? && t.value.file == files[qs[DEPTH - 1]]
    decreases DEPTH - i
  {
    if i == DEPTH {
      ChaseDeep(files, qs[i], argv, i, last);
    } else {
      assert Names(files, qs[i], qs[i + 1], []);
      ScriptLeads(files, qs[i], qs[i + 1], [], argv, i, last);
      BackwardsTwo(qs, i, argv);
      ChainTooLong(files, qs, i + 1, ScriptArgs(argv, qs[i + 1], [], qs[i]), files[qs[i]]);
    }
  }

  // ---- a file for every program -------------------------------------------------------------------

  function Zeroes(n: nat): seq<byte> { seq(n, _ => 0) }

  function HeaderBytes(entry: nat, n: nat): seq<byte>
    requires n < 0x1_0000
  {
    [0x7F, 'E' as int, 'L' as int, 'F' as int] + Zeroes(20) + WordBytes(entry) + WordBytes(52) + Zeroes(10)
    + HalfBytes(32) + HalfBytes(n) + Zeroes(6)
  }

  function EntryBytes(s: Section, place: nat): (b: seq<byte>)
    ensures |b| == 32
  {
    WordBytes(1) + WordBytes(place) + WordBytes(s.vaddr) + WordBytes(s.vaddr) + WordBytes(|s.data|) + WordBytes(s.memsz)
    + WordBytes(7) + WordBytes(4096)
  }

  /** Where the segments' bytes lie when they follow each other from `at` on. */
  function Places(ss: seq<Section>, at: nat): (r: seq<nat>)
    ensures |r| == |ss|
  {
    if ss == [] then [] else [at] + Places(ss[1..], at + |ss[0].data|)
  }

  function TableBytes(ss: seq<Section>, at: nat): (b: seq<byte>)
    ensures |b| == 32 * |ss|
  {
    if ss == [] then [] else EntryBytes(ss[0], at) + TableBytes(ss[1..], at + |ss[0].data|)
  }

  function DataBytes(ss: seq<Section>): seq<byte> { if ss == [] then [] else ss[0].data + DataBytes(ss[1..]) }

  function FileBytes(entry: nat, ss: seq<Section>): seq<byte>
    requires |ss| < 0x1_0000
  {
    HeaderBytes(entry, |ss|) + TableBytes(ss, 52 + 32 * |ss|) + DataBytes(ss)
  }

  lemma HeldInside(a: seq<byte>, b: seq<byte>, c: seq<byte>, k: nat, x: seq<byte>)
    requires Holds(b, k, x)
    ensures Holds(a + b + c, |a| + k, x)
  {
    var f := a + b + c;
    assert f[|a| + k..|a| + k + |x|] == b[k..k + |x|];
  }

  lemma EntryHolds(s: Section, place: nat)
    ensures var b := EntryBytes(s, place);
      && Holds(b, 0, WordBytes(1)) && Holds(b, 4, WordBytes(place)) && Holds(b, 8, WordBytes(s.vaddr))
      && Holds(b, 16, WordBytes(|s.data|)) && Holds(b, 20, WordBytes(s.memsz))
  {
  }

  lemma HeaderHolds(entry: nat, n: nat)
    requires n < 0x1_0000
    ensures var b := HeaderBytes(entry, n);
      && |b| == 52 && Holds(b, 0, [0x7F, 'E' as int, 'L' as int, 'F' as int]) && Holds(b, 24, WordBytes(entry))
      && Holds(b, 28, WordBytes(52)) && Holds(b, 42, HalfBytes(32)) && Holds(b, 44, HalfBytes(n))
  {
  }

  lemma {:induction false} TableHolds(ss: seq<Section>, at: nat, i: nat)
    requires i < |ss|
    ensures Holds(TableBytes(ss, at), 32 * i, EntryBytes(ss[i], Places(ss, at)[i]))
  {
    var head, rest := EntryBytes(ss[0], at), TableBytes(ss[1..], at + |ss[0].data|);
    if i == 0 {
      assert TableBytes(ss, at)[0..32] == head;
    } else {
      TableHolds(ss[1..], at + |ss[0].data|, i - 1);
      HeldInside(head, rest, [], 32 * (i - 1), EntryBytes(ss[i], Places(ss, at)[i]));
      assert head + rest + [] == TableBytes(ss, at);
    }
  }

  lemma {:induction false} DataHolds(ss: seq<Section>, at: nat, i: nat)
    requires i < |ss|
    ensures Places(ss, at)[i] >= at && Holds(DataBytes(ss), Places(ss, at)[i] - at, ss[i].data)
  {
    if i == 0 {
      assert DataBytes(ss)[0..|ss[0].data|] == ss[0].data;
    } else {
      var next := at + |ss[0].data|;
      DataHolds(ss[1..], next, i - 1);
      HeldInside(ss[0].data, DataBytes(ss[1..]), [], Places(ss, at)[i] - next, ss[i].data);
      assert ss[0].data + DataBytes(ss[1..]) + [] == DataBytes(ss);
    }
  }

  lemma HeldWithin(f: seq<byte>, o: nat, b: seq<byte>, k: nat, x: seq<byte>)
    requires Holds(f, o, b) && Holds(b, k, x)
    ensures Holds(f, o + k, x)
  {
    assert f == f[..o] + b + f[o + |b|..];
    HeldInside(f[..o], b, f[o + |b|..], k, x);
  }

  lemma {:induction false} StridePlace(p: Program, i: nat)
    requires p.table == 52 && p.stride == 32
    ensures EntryPlace(p, i) == 52 + 32 * i
  {
    if i > 0 { StridePlace(p, i - 1); }
  }

  /** Header, table and data in a row. */
  lemma PartsAre(f: seq<byte>, h: seq<byte>, t: seq<byte>, d: seq<byte>, entry: nat, ss: seq<Section>, places: seq<nat>)
    requires f == h + t + d && |h| == 52 && |t| == 32 * |ss| && |f| < U32 && |ss| < 0x1_0000 && entry < U32
    requires Holds(h, 0, [0x7F, 'E' as int, 'L' as int, 'F' as int]) && Holds(h, 24, WordBytes(entry))
    requires Holds(h, 28, WordBytes(52)) && Holds(h, 42, HalfBytes(32)) && Holds(h, 44, HalfBytes(|ss|))
    requires |places| == |ss| && forall i :: 0 <= i < |ss| ==> Described(f, Program(entry, ss, 52, 32, places), i)
    ensures FileOf(f, Program(entry, ss, 52, 32, places))
  {
    assert f[0..52] == h;
    HeldWithin(f, 0, h, 0, [0x7F, 'E' as int, 'L' as int, 'F' as int]);
    HeldWithin(f, 0, h, 24, WordBytes(entry));
    HeldWithin(f, 0, h, 28, WordBytes(52));
    HeldWithin(f, 0, h, 42, HalfBytes(32));
    HeldWithin(f, 0, h, 44, HalfBytes(|ss|));
  }

  lemma PartDescribed(f: seq<byte>, h: seq<byte>, t: seq<byte>, d: seq<byte>, entry: nat, ss: seq<Section>,
                      places: seq<nat>, i: nat)
    requires f == h + t + d && |h| == 52 && |t| == 32 * |ss| && i < |ss| == |places|
    requires ss[i].vaddr < U32 && ss[i].memsz < U32
    requires Holds(t, 32 * i, EntryBytes(ss[i], places[i]))
    requires places[i] >= 52 + |t| && Holds(d, places[i] - 52 - |t|, ss[i].data)
    ensures Described(f, Program(entry, ss, 52, 32, places), i)
  {
    var e := EntryBytes(ss[i], places[i]);
    StridePlace(Program(entry, ss, 52, 32, places), i);
    HeldInside(h, t, d, 32 * i, e);
    EntryInFile(f, 52 + 32 * i, ss[i], places[i]);
    HeldInside(h + t, d, [], places[i] - 52 - |t|, ss[i].data);
    assert h + t + d + [] == f;
  }

  lemma EntryInFile(f: seq<byte>, o: nat, s: Section, place: nat)
    requires Holds(f, o, EntryBytes(s, place))
    ensures o + 32 <= |f| && Holds(f, o, WordBytes(1)) && Holds(f, o + 4, WordBytes(place))
    ensures Holds(f, o + 8, WordBytes(s.vaddr)) && Holds(f, o + 16, WordBytes(|s.data|))
      && Holds(f, o + 20, WordBytes(s.memsz))
  {
    var e := EntryBytes(s, place);
    EntryHolds(s, place);
    HeldWithin(f, o, e, 0, WordBytes(1));
    HeldWithin(f, o, e, 4, WordBytes(place));
    HeldWithin(f, o, e, 8, WordBytes(s.vaddr));
    HeldWithin(f, o, e, 16, WordBytes(|s.data|));
    HeldWithin(f, o, e, 20, WordBytes(s.memsz));
  }

  lemma TableAll(ss: seq<Section>, at: nat)
    ensures forall i :: 0 <= i < |ss| ==> Holds(TableBytes(ss, at), 32 * i, EntryBytes(ss[i], Places(ss, at)[i]))
  {
    forall i | 0 <= i < |ss| ensures Holds(TableBytes(ss, at), 32 * i, EntryBytes(ss[i], Places(ss, at)[i])) {
      TableHolds(ss, at, i);
    }
  }

  ghost predicate DataIn(d: seq<byte>, places: seq<nat>, ss: seq<Section>, at: nat) {
    |places| == |ss| && forall i :: 0 <= i < |ss| ==> DataInAt(d, places, ss, at, i)
  }

  ghost predicate DataInAt(d: seq<byte>, places: seq<nat>, ss: seq<Section>, at: nat, i: nat)
    requires i < |ss| == |places|
  {
    places[i] >= at && Holds(d, places[i] - at, ss[i].data)
  }

  lemma DataAll(ss: seq<Section>, at: nat)
    ensures DataIn(DataBytes(ss), Places(ss, at), ss, at)
  {
    forall i | 0 <= i < |ss| ensures DataInAt(DataBytes(ss), Places(ss, at), ss, at, i) { DataHolds(ss, at, i); }
  }

  lemma AllDescribed(f: seq<byte>, h: seq<byte>, t: seq<byte>, d: seq<byte>, entry: nat, ss: seq<Section>,
                     places: seq<nat>)
    requires f == h + t + d && |h| == 52 && |t| == 32 * |ss| && DataIn(d, places, ss, 52 + |t|)
    requires forall i :: 0 <= i < |ss| ==> Holds(t, 32 * i, EntryBytes(ss[i], places[i]))
    requires forall i :: 0 <= i < |ss| ==> ss[i].vaddr < U32 && ss[i].memsz < U32
    ensures forall i :: 0 <= i < |ss| ==> Described(f, Program(entry, ss, 52, 32, places), i)
  {
    forall i | 0 <= i < |ss| ensures Described(f, Program(entry, ss, 52, 32, places), i) {
      assert DataInAt(d, places, ss, 52 + |t|, i);
      PartDescribed(f, h, t, d, entry, ss, places, i);
    }
  }

  lemma WholeFile(f: seq<byte>, h: seq<byte>, t: seq<byte>, d: seq<byte>, entry: nat, ss: seq<Section>,
                  places: seq<nat>)
    requires f == h + t + d && |h| == 52 && |t| == 32 * |ss| && |f| < U32 && |ss| < 0x1_0000 && entry < U32
    requires Holds(h, 0, [0x7F, 'E' as int, 'L' as int, 'F' as int]) && Holds(h, 24, WordBytes(entry))
    requires Holds(h, 28, WordBytes(52)) && Holds(h, 42, HalfBytes(32)) && Holds(h, 44, HalfBytes(|ss|))
    requires DataIn(d, places, ss, 52 + |t|)
    requires forall i :: 0 <= i < |ss| ==> Holds(t, 32 * i, EntryBytes(ss[i], places[i]))
    requires forall i :: 0 <= i < |ss| ==> ss[i].vaddr < U32 && ss[i].memsz < U32
    ensures FileOf(f, Program(entry, ss, 52, 32, places))
  {
    AllDescribed(f, h, t, d, entry, ss, places);
    PartsAre(f, h, t, d, entry, ss, places);
  }

  /** Every program has a file. */
  lemma FileBytesAre(entry: nat, ss: seq<Section>, at: nat)
    requires |ss| < 0x1_0000 && entry < U32 && |FileBytes(entry, ss)| < U32 && at == 52 + 32 * |ss|
    requires forall i :: 0 <= i < |ss| ==> ss[i].vaddr < U32 && ss[i].memsz < U32
    ensures FileOf(FileBytes(entry, ss), Program(entry, ss, 52, 32, Places(ss, at)))
  {
    var h, t, d, places := HeaderBytes(entry, |ss|), TableBytes(ss, at), DataBytes(ss), Places(ss, at);
    HeaderHolds(entry, |ss|);
    TableAll(ss, at);
    DataAll(ss, at);
    WholeFile(FileBytes(entry, ss), h, t, d, entry, ss, places);
  }
}
