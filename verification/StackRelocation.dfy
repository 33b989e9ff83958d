/** fork's private user stack: the copy, and the walk that relocates the chain of saved frame
    pointers in it. */
module StackRelocation {
  import opened Basics

  /** A stack region: base address, and `top` the highest address its owner calls its own. */
  datatype Region = Region(base: int, top: int, words: nat)

  ghost predicate ValidRegion(r: Region) {
    && 0 < r.base && r.base % 4 == 0 && r.base <= r.top
    && r.top < U32 - 4 && r.base + 4 * r.words < U32 - 4
  }

  function Index(r: Region, a: int): int { (a - r.base) / 4 }

  /** A whole word of the region starts at a. */
  predicate Inside(r: Region, a: int) { r.base <= a && a + 4 <= r.base + 4 * r.words }

  /** The value points into the stack, its one-past-the-end address included. */
  predicate Points(r: Region, v: int) { r.base <= v <= r.top }

  datatype Link = Stop | Frame(addr: int)

  /** Address of the k-th frame reached from frame pointer a by following saved frame
      pointers through the words s. */
  function Walk(r: Region, s: seq<int>, a: int, k: nat): Link
    requires |s| == r.words
  {
    if k == 0 then (if Inside(r, a) then Frame(a) else Stop)
    else match Walk(r, s, a, k - 1)
      case Stop => Stop
      case Frame(f) =>
        if Inside(r, f) && Points(r, s[Index(r, f)]) && Inside(r, s[Index(r, f)]) then Frame(s[Index(r, f)]) else Stop
  }

  /** Every frame on the chain is word aligned. */
  ghost predicate AlignedChain(r: Region, s: seq<int>, a: int)
    requires |s| == r.words
  {
    forall k: nat :: Walk(r, s, a, k).Frame? ==> Walk(r, s, a, k).addr % 4 == 0
  }

  /** Word i is the saved frame pointer of one of the first n frames. */
  ghost predicate Visited(r: Region, s: seq<int>, a: int, n: nat, i: int)
    requires |s| == r.words
  {
    exists k: nat :: k < n && Walk(r, s, a, k) == Frame(r.base + 4 * i)
  }

  ghost predicate OnChain(r: Region, s: seq<int>, a: int, i: int)
    requires |s| == r.words
  {
    exists k: nat :: Walk(r, s, a, k) == Frame(r.base + 4 * i)
  }

  lemma {:induction false} StopsForGood(r: Region, s: seq<int>, a: int, k: nat, m: nat)
    requires |s| == r.words && Walk(r, s, a, k) == Stop && k <= m
    ensures Walk(r, s, a, m) == Stop
    decreases m - k
  {
    if k < m { StopsForGood(r, s, a, k, m - 1); }
  }

  /** Once the chain comes back to a frame it has been at, it goes round the same frames. */
  lemma {:induction false} Cycles(r: Region, s: seq<int>, a: int, j: nat, k: nat, m: nat) returns (l: nat)
    requires |s| == r.words && j < k && Walk(r, s, a, j) == Walk(r, s, a, k)
    ensures l <= m && l < k && Walk(r, s, a, l) == Walk(r, s, a, m)
    decreases m
  {
    if m < k {
      l := m;
    } else if m == k {
      l := j;
    } else {
      l := Cycles(r, s, a, j, k, m - 1);
      if l + 1 < k { l := l + 1; } else { l := j; }
    }
  }

  /** When the walk can stop after n frames: the next one is missing, or has been visited. */
  lemma ChainComplete(r: Region, s: seq<int>, a: int, j: nat, n: nat, i: int)
    requires |s| == r.words && j <= n
    requires Walk(r, s, a, n) == Stop || (j < n && Walk(r, s, a, j) == Walk(r, s, a, n))
    ensures OnChain(r, s, a, i) <==> Visited(r, s, a, n, i)
  {
    if OnChain(r, s, a, i) {
      var m: nat :| Walk(r, s, a, m) == Frame(r.base + 4 * i);
      if Walk(r, s, a, n) == Stop {
        if n <= m { StopsForGood(r, s, a, n, m); }
      } else {
        var l := Cycles(r, s, a, j, n, m);
        assert Walk(r, s, a, l) == Frame(r.base + 4 * i);
      }
    }
  }

  /** The two regions hold disjoint addresses, one-past-the-end included: their heap blocks
      are separated by a header. */
  ghost predicate Apart(o: Region, c: Region) { o.top < c.base || c.top < o.base }

  /** What the walk leaves in word i. */
  function Relocated(o: Region, s: seq<int>, shift: int, onChain: bool, i: int): int
    requires 0 <= i < |s|
  {
    if onChain && Points(o, s[i]) then s[i] + shift else s[i]
  }

  function Upto(n: nat): (r: set<int>)
    ensures forall i :: i in r <==> 0 <= i < n
  {
    if n == 0 then {} else Upto(n - 1) + {n - 1}
  }

  /** The frame the walk begins at, as an address of the parent's stack: a frame pointer that
      already points into the child's stack is not moved, and the walk begins there. */
  function Entry(o: Region, c: Region, ebp: int): int {
    if Points(o, ebp) then ebp else ebp - c.base + o.base
  }

  /** The child's stack: a copy of the parent's in which exactly the saved frame pointers on
      the chain that pointed into the parent's stack are moved by the distance between the
      two. Terminates on every chain, cyclic ones included, and the parent's words are not
      written. */
  method ForkStack(parent: array<int>, o: Region, c: Region, ebp: int) returns (child: array<int>, childEbp: int)
    requires Twins(o, c) && o.words == parent.Length
    requires 0 <= ebp < U32 - 4 && AlignedChain(o, parent[..], Entry(o, c, ebp))
    ensures fresh(child) && child.Length == parent.Length
    ensures childEbp == if Points(o, ebp) then ebp + c.base - o.base else ebp
    ensures forall i :: 0 <= i < child.Length ==>
              child[i] == Relocated(o, parent[..], c.base - o.base, OnChain(o, parent[..], Entry(o, c, ebp), i), i)
  {
    child := new int[parent.Length];
    for i := 0 to parent.Length
      invariant forall k :: 0 <= k < i ==> child[k] == parent[k]
    {
      child[i] := parent[i];
    }
    var delta := Add32(c.base, -o.base);
    childEbp := ebp;
    if ebp >= o.base && ebp <= o.top {
      DeltaMoves(o, c, ebp);
      childEbp := Add32(ebp, delta);
    }
    assert child[..] == parent[..];
    Relocate(child, o, c, delta, childEbp, parent[..], Entry(o, c, ebp));
  }

  /** A frame pointer that points into neither stack leaves a plain copy. */
  lemma ElsewhereIsCopy(o: Region, c: Region, s: seq<int>, t: seq<int>, ebp: int)
    requires Twins(o, c) && o.words == |s| == |t| && !Points(o, ebp) && !Inside(c, ebp)
    requires forall i :: 0 <= i < |t| ==>
      t[i] == Relocated(o, s, c.base - o.base, OnChain(o, s, Entry(o, c, ebp), i), i)
    ensures t == s
  {
    var a := Entry(o, c, ebp);
    assert Walk(o, s, a, 0) == Stop;
    forall i ensures !OnChain(o, s, a, i) { ChainComplete(o, s, a, 0, 0, i); }
  }

  /** Same size, disjoint. */
  ghost predicate Twins(o: Region, c: Region) {
    ValidRegion(o) && ValidRegion(c) && o.words == c.words && c.top - c.base == o.top - o.base && Apart(o, c)
  }

  /** n frames are done: their words, and only theirs, are moved; cur is the next frame. */
  ghost predicate Halfway(t: seq<int>, o: Region, c: Region, s: seq<int>, ebp: int, cur: int, n: nat, seen: set<int>)
    requires |s| == o.words
  {
    && |t| == |s| && 0 <= cur < U32 - 4
    && Walk(o, s, ebp, n) == (if Inside(c, cur) then Frame(cur - c.base + o.base) else Stop)
    && seen <= Upto(|s|) && (forall i :: i in seen <==> Visited(o, s, ebp, n, i))
    && (forall i :: 0 <= i < |s| ==> t[i] == Relocated(o, s, c.base - o.base, i in seen, i))
  }

  lemma HalfwayStep(t: seq<int>, o: Region, c: Region, s: seq<int>, ebp: int, cur: int, n: nat, seen: set<int>, i: nat)
    requires Twins(o, c) && |s| == o.words && i < |s|
    requires Halfway(t, o, c, s, ebp, cur, n, seen) && Inside(c, cur)
    requires Walk(o, s, ebp, n) == Frame(o.base + 4 * i) && Points(o, t[i])
    ensures i !in seen
    ensures var v := t[i] + c.base - o.base; Halfway(t[i := v], o, c, s, ebp, v, n + 1, seen + {i})
  {
    FirstVisit(o, c, s, seen, i, t[i]);
    DeltaMoves(o, c, t[i]);
    VisitMore(o, s, ebp, n, i);
    assert Index(o, o.base + 4 * i) == i;
  }

  /** The loop over the saved frame pointers. */
  method Relocate(child: array<int>, o: Region, c: Region, delta: int, cur0: int, ghost s: seq<int>, ghost a: int)
    requires Twins(o, c) && o.words == |s| && child[..] == s && delta == Add32(c.base, -o.base)
    requires 0 <= cur0 < U32 - 4 && cur0 == a + c.base - o.base && AlignedChain(o, s, a)
    modifies child
    ensures forall i :: 0 <= i < child.Length ==> child[i] == Relocated(o, s, c.base - o.base, OnChain(o, s, a, i), i)
  {
    var cur := cur0;
    ghost var n, seen := 0, {};
    while cur >= c.base && Add32(cur, 4) <= c.base + 4 * c.words
      invariant Halfway(child[..], o, c, s, a, cur, n, seen)
      decreases Upto(|s|) - seen
    {
      var i := (cur - c.base) / 4;
      FrameIndex(o, c, s, a, cur, n);
      var moved, next := MoveFrame(child, o, c, delta, cur, s, a, n, seen, i);
      if !moved { return; }
      cur, n, seen := next, n + 1, seen + {i};
    }
    RelocateLeaves(child[..], o, c, s, a, cur, n, seen);
  }

  /** One frame: its saved frame pointer is moved and followed, or the chain ends here. */
  method MoveFrame(child: array<int>, o: Region, c: Region, delta: int, cur: int, ghost s: seq<int>, ghost a: int,
                   ghost n: nat, ghost seen: set<int>, i: nat) returns (moved: bool, next: int)
    requires Twins(o, c) && o.words == |s| && delta == Add32(c.base, -o.base)
    requires Halfway(child[..], o, c, s, a, cur, n, seen) && Inside(c, cur)
    requires i < |s| && Walk(o, s, a, n) == Frame(o.base + 4 * i)
    modifies child
    ensures moved ==> i !in seen && Halfway(child[..], o, c, s, a, next, n + 1, seen + {i})
    ensures !moved ==> forall j :: 0 <= j < |s| ==> child[j] == Relocated(o, s, c.base - o.base, OnChain(o, s, a, j), j)
  {
    ghost var t := child[..];
    var val := child[i];
    if val < o.base || val > o.top {
      RelocateStops(t, o, c, s, a, cur, n, seen, i);
      return false, cur;
    }
    HalfwayStep(t, o, c, s, a, cur, n, seen, i);
    DeltaMoves(o, c, val);
    next := Add32(val, delta);
    child[i] := next;
    assert child[..] == t[i := next];
    moved := true;
  }

  lemma RelocateLeaves(t: seq<int>, o: Region, c: Region, s: seq<int>, ebp: int, cur: int, n: nat, seen: set<int>)
    requires Twins(o, c) && |s| == o.words
    requires Halfway(t, o, c, s, ebp, cur, n, seen) && !Inside(c, cur)
    ensures forall j :: 0 <= j < |s| ==> t[j] == Relocated(o, s, c.base - o.base, OnChain(o, s, ebp, j), j)
  {
    forall j | 0 <= j < |s| ensures OnChain(o, s, ebp, j) <==> j in seen { ChainComplete(o, s, ebp, 0, n, j); }
  }

  lemma RelocateStops(t: seq<int>, o: Region, c: Region, s: seq<int>, ebp: int, cur: int, n: nat, seen: set<int>,
                      i: nat)
    requires Twins(o, c) && |s| == o.words && i < |s|
    requires Halfway(t, o, c, s, ebp, cur, n, seen)
    requires Walk(o, s, ebp, n) == Frame(o.base + 4 * i) && !Points(o, t[i])
    ensures forall j :: 0 <= j < |s| ==> t[j] == Relocated(o, s, c.base - o.base, OnChain(o, s, ebp, j), j)
  {
    WalkEnds(o, c, s, ebp, n, seen, i, t[i]);
    forall j | 0 <= j < |s| ensures t[j] == Relocated(o, s, c.base - o.base, OnChain(o, s, ebp, j), j) {
      ChainEnd(o, s, ebp, n, i, j, seen);
    }
  }

  lemma FrameIndex(o: Region, c: Region, s: seq<int>, ebp: int, cur: int, n: nat)
    requires ValidRegion(o) && ValidRegion(c) && o.words == c.words == |s| && AlignedChain(o, s, ebp)
    requires 0 <= cur < U32 - 4 && Inside(c, cur) && Walk(o, s, ebp, n) == Frame(cur - c.base + o.base)
    ensures var i := (cur - c.base) / 4;
      && 0 <= i < |s| && cur == c.base + 4 * i && Walk(o, s, ebp, n) == Frame(o.base + 4 * i)
      && Index(o, o.base + 4 * i) == i
  {
    assert Walk(o, s, ebp, n).addr % 4 == 0;
  }

  /** Adding the 32-bit delta is adding the distance, for addresses of the old stack. */
  lemma DeltaMoves(o: Region, c: Region, v: int)
    requires ValidRegion(o) && ValidRegion(c) && c.top - c.base == o.top - o.base && Points(o, v)
    ensures Add32(v, Add32(c.base, -o.base)) == v + c.base - o.base
    ensures Points(c, v + c.base - o.base)
  {
    var d := c.base - o.base;
    assert Add32(c.base, -o.base) == if d >= 0 then d else d + U32;
  }

  lemma FirstVisit(o: Region, c: Region, s: seq<int>, seen: set<int>, i: int, val: int)
    requires ValidRegion(o) && ValidRegion(c) && c.top - c.base == o.top - o.base && Apart(o, c)
    requires 0 <= i < |s| && val == Relocated(o, s, c.base - o.base, i in seen, i) && Points(o, val)
    ensures i !in seen && val == s[i]
  {
  }

  lemma VisitMore(r: Region, s: seq<int>, a: int, n: nat, i: int)
    requires |s| == r.words && Walk(r, s, a, n) == Frame(r.base + 4 * i)
    ensures forall j :: Visited(r, s, a, n + 1, j) <==> Visited(r, s, a, n, j) || j == i
  {
    forall j ensures Visited(r, s, a, n + 1, j) <==> Visited(r, s, a, n, j) || j == i {
      if Visited(r, s, a, n, j) {
        var k: nat :| k < n && Walk(r, s, a, k) == Frame(r.base + 4 * j);
        assert k < n + 1;
      }
    }
  }

  lemma WalkEnds(o: Region, c: Region, s: seq<int>, a: int, n: nat, seen: set<int>, i: int, val: int)
    requires ValidRegion(o) && ValidRegion(c) && c.top - c.base == o.top - o.base && Apart(o, c)
    requires |s| == o.words && 0 <= i < |s| && Walk(o, s, a, n) == Frame(o.base + 4 * i)
    requires val == Relocated(o, s, c.base - o.base, i in seen, i) && !Points(o, val)
    ensures i in seen || !Points(o, s[i])
  {
  }

  lemma ChainEnd(r: Region, s: seq<int>, a: int, n: nat, i: int, j: int, seen: set<int>)
    requires |s| == r.words && 0 <= i < |s| && 0 <= j < |s| && Walk(r, s, a, n) == Frame(r.base + 4 * i)
    requires i in seen || !Points(r, s[i])
    requires forall x :: x in seen <==> Visited(r, s, a, n, x)
    ensures OnChain(r, s, a, j) && Points(r, s[j]) <==> j in seen && Points(r, s[j])
  {
    if i in seen {
      var k: nat :| k < n && Walk(r, s, a, k) == Frame(r.base + 4 * i);
      ChainComplete(r, s, a, k, n, j);
    } else {
      assert Index(r, r.base + 4 * i) == i;
      assert Walk(r, s, a, n + 1) == Stop;
      ChainComplete(r, s, a, 0, n + 1, j);
      VisitMore(r, s, a, n, i);
    }
  }

  /** The child's chain is the parent's, frame for frame, moved by the same distance: leave
      and pop ebp stay on the child's own stack. */
  lemma {:induction false} ChainShifted(o: Region, c: Region, s: seq<int>, t: seq<int>, a: int, k: nat)
    requires Twins(o, c) && o.words == |s| == |t| && AlignedChain(o, s, a)
    requires forall i :: 0 <= i < |t| ==> t[i] == Relocated(o, s, c.base - o.base, OnChain(o, s, a, i), i)
    requires Walk(o, s, a, k).Frame?
    ensures Walk(c, t, a + c.base - o.base, k) == Frame(Walk(o, s, a, k).addr + c.base - o.base)
  {
    if k > 0 {
      var f := Walk(o, s, a, k - 1).addr;
      ChainShifted(o, c, s, t, a, k - 1);
      assert Walk(o, s, a, k - 1).Frame?;
      ShiftedLink(o, c, s, t, a, k - 1, f);
    }
  }

  lemma ShiftedLink(o: Region, c: Region, s: seq<int>, t: seq<int>, a: int, k: nat, f: int)
    requires Twins(o, c) && o.words == |s| == |t| && f % 4 == 0
    requires forall i :: 0 <= i < |t| ==> t[i] == Relocated(o, s, c.base - o.base, OnChain(o, s, a, i), i)
    requires Walk(o, s, a, k) == Frame(f) && Inside(o, f) && Points(o, s[Index(o, f)])
    ensures var d := c.base - o.base;
      Inside(c, f + d) && Index(c, f + d) == Index(o, f) && t[Index(o, f)] == s[Index(o, f)] + d
  {
    assert f == o.base + 4 * Index(o, f);
    assert OnChain(o, s, a, Index(o, f));
  }

  // ---- the chain, said without the walk -----------------------------------------------------

  /** Frames from address a on: each is a word of the stack, and each but the first is an address of
      the stack that the one before it holds. */
  ghost predicate Chain(o: Region, s: seq<int>, a: int, frames: seq<int>) {
    && (frames != [] ==> frames[0] == a)
    && (forall k :: 0 <= k < |frames| ==> o.base <= frames[k] <= o.base + 4 * |s| - 4)
    && (forall k :: 0 < k < |frames| ==>
          frames[k] == s[(frames[k - 1] - o.base) / 4] && o.base <= frames[k] <= o.top)
  }

  /** Such a chain ends in word i. */
  ghost predicate Ends(o: Region, s: seq<int>, a: int, frames: seq<int>, i: int) {
    frames != [] && Chain(o, s, a, frames) && frames[|frames| - 1] == o.base + 4 * i
  }

  /** fork in terms of that: a word of the child's stack is moved if and only if it lies on a chain from
      the frame pointer and holds an address of the parent's stack, both ends included. */
  lemma MovedExactly(o: Region, c: Region, s: seq<int>, t: seq<int>, ebp: int, i: nat)
    requires Twins(o, c) && o.words == |s| == |t| && i < |s|
    requires forall k :: 0 <= k < |t| ==>
      t[k] == Relocated(o, s, c.base - o.base, OnChain(o, s, Entry(o, c, ebp), k), k)
    ensures var a := if o.base <= ebp <= o.top then ebp else ebp - c.base + o.base;
      t[i] == if o.base <= s[i] <= o.top && exists frames :: Ends(o, s, a, frames, i)
              then s[i] + c.base - o.base else s[i]
  {
    var a := Entry(o, c, ebp);
    if OnChain(o, s, a, i) {
      var k: nat :| Walk(o, s, a, k) == Frame(o.base + 4 * i);
      var frames := ChainTo(o, s, a, k);
      assert Ends(o, s, a, frames, i);
    }
    if frames :| Ends(o, s, a, frames, i) { ChainWalks(o, s, a, frames, |frames| - 1); }
  }

  lemma {:induction false} ChainTo(o: Region, s: seq<int>, a: int, k: nat) returns (frames: seq<int>)
    requires |s| == o.words && Walk(o, s, a, k).Frame?
    ensures Chain(o, s, a, frames) && |frames| == k + 1 && frames[k] == Walk(o, s, a, k).addr
  {
    if k == 0 { return [a]; }
    frames := ChainTo(o, s, a, k - 1);
    frames := frames + [Walk(o, s, a, k).addr];
  }

  lemma {:induction false} ChainWalks(o: Region, s: seq<int>, a: int, frames: seq<int>, k: nat)
    requires |s| == o.words && Chain(o, s, a, frames) && k < |frames|
    ensures Walk(o, s, a, k) == Frame(frames[k])
  {
    if k > 0 { ChainWalks(o, s, a, frames, k - 1); }
  }
}
