/** The allocator itself: headers in the heap's own words, a singly linked free list and a
    byte counter, proved to do to memory what HeapSpec says happens to the blocks. */
module KernelHeap {
  import opened HeapSpec

  const ALLOCATED: int := 0x4C425344
  const FREED: int := 0x46524545
  const WORDS: int := HEAP_SIZE / 4

  /** A word-aligned address inside the heap window. */
  predicate InMem(a: int) {
    HEAP_START <= a < HEAP_END && a % 4 == 0
  }

  /** The word that holds each byte address of the window, 0 outside it. */
  type Memory = int -> int

  function Magic(free: bool): int { if free then FREED else ALLOCATED }

  function NextAddr(bs: seq<Block>, i: nat): int
    requires i <= |bs|
  {
    AddrAt(bs, NextFree(bs, i))
  }

  /** Block b's header words agree with the block; a free one points to `next`. */
  ghost predicate HeaderAt(m: Memory, b: Block, next: int) {
    && m(b.addr) == b.size
    && m(b.addr + 4) == Magic(b.free)
    && (b.free ==> m(b.addr + 8) == next)
  }

  ghost predicate Header(m: Memory, bs: seq<Block>, i: nat)
    requires i < |bs|
  {
    HeaderAt(m, bs[i], NextAddr(bs, i + 1))
  }

  ghost predicate Linked(m: Memory, head: int, bs: seq<Block>) {
    head == NextAddr(bs, 0) && forall i: nat :: i < |bs| ==> Header(m, bs, i)
  }

  /** a is one of the three words of some block's header. */
  ghost predicate InHeader(bs: seq<Block>, a: int) {
    exists i: nat :: i < |bs| && bs[i].addr <= a < bs[i].addr + HEADER
  }

  /** Only header words changed. */
  ghost predicate PayloadsKept(m0: Memory, m1: Memory, bs0: seq<Block>, bs1: seq<Block>) {
    forall a :: !InHeader(bs0, a) && !InHeader(bs1, a) ==> m1(a) == m0(a)
  }

  /** Outside [lo, lo + n), memory is unchanged. */
  ghost predicate SameBut(m0: Memory, m1: Memory, lo: int, n: int) {
    forall a :: !(lo <= a < lo + n) ==> m1(a) == m0(a)
  }

  ghost predicate SameButTwo(m0: Memory, m1: Memory, lo: int, n: int, lo': int, n': int) {
    forall a :: !(lo <= a < lo + n) && !(lo' <= a < lo' + n') ==> m1(a) == m0(a)
  }

  lemma HeaderInMem(bs: seq<Block>, i: nat)
    requires Tiled(bs) && i < |bs|
    ensures InMem(bs[i].addr) && InMem(bs[i].addr + 4) && InMem(bs[i].addr + 8)
    ensures bs[i].addr > 0 && bs[i].addr + HEADER + 4 <= bs[i].End() <= HEAP_END
  {
    assert Fits(bs, i);
    InRange(bs, i);
  }

  /** No word of a block's payload is a header word, so nobody's data is ever touched. */
  lemma PayloadClear(bs: seq<Block>, k: nat, a: int)
    requires Tiled(bs) && k < |bs| && bs[k].Payload() <= a < bs[k].End()
    ensures !InHeader(bs, a)
  {
    forall i: nat | i < |bs| ensures !(bs[i].addr <= a < bs[i].addr + HEADER) {
      HeaderInMem(bs, i);
      if i < k { Ordered(bs, i, k); }
      if k < i { Ordered(bs, k, i); }
    }
  }

  /** A block that is there before and after a call keeps every byte of its payload. */
  lemma PayloadKept(m0: Memory, m1: Memory, bs0: seq<Block>, bs1: seq<Block>, b: Block, a: int)
    requires Tiled(bs0) && Tiled(bs1) && PayloadsKept(m0, m1, bs0, bs1)
    requires b in bs0 && b in bs1 && b.Payload() <= a < b.End()
    ensures m1(a) == m0(a)
  {
    var j :| 0 <= j < |bs0| && bs0[j] == b;
    var k :| 0 <= k < |bs1| && bs1[k] == b;
    PayloadClear(bs0, j, a);
    PayloadClear(bs1, k, a);
  }

  // ---- how the free-list successor moves when blocks are cut or joined ----------

  lemma NextAfterTakeBelow(bs: seq<Block>, k: nat, req: int, i: nat)
    requires k < |bs| && bs[k].free && i <= k
    ensures var r, p := Take(bs, k, req), Pieces(bs[k], req);
      NextAddr(r, i) == if NextFree(bs, i) < k then NextAddr(bs, i)
                        else if |p| == 2 then p[1].addr else NextAddr(bs, k + 1)
  {
    var r, p := Take(bs, k, req), Pieces(bs[k], req);
    var n := NextFree(bs, i);
    if n < k {
      assert r[n] == bs[n];
    } else if |p| == 2 {
      assert r[k + 1] == p[1];
    } else {
      var n' := NextFree(bs, k + 1);
      assert forall j :: k < j < |bs| ==> r[j] == bs[j];
    }
  }

  lemma NextAfterTakeAbove(bs: seq<Block>, k: nat, req: int, i: nat)
    requires k < |bs| && k + 1 <= i <= |bs|
    ensures var r, d := Take(bs, k, req), |Pieces(bs[k], req)| - 1;
      i + d <= |r| && NextAddr(r, i + d) == NextAddr(bs, i)
  {
    var r, d := Take(bs, k, req), |Pieces(bs[k], req)| - 1;
    assert forall j :: k < j < |bs| ==> r[j + d] == bs[j];
    var n := NextFree(bs, i);
    var m := NextFree(r, i + d);
    if m < |r| { assert r[m] == bs[m - d]; }
  }

  lemma NextAfterMerge(bs: seq<Block>, x: nat, i: nat)
    requires x + 1 < |bs| && bs[x].free && i <= |bs| && i != x + 1
    ensures var r := Merge(bs, x);
      NextAddr(r, if i <= x then i else i - 1) == NextAddr(bs, i)
  {
    var r := Merge(bs, x);
    var n := NextFree(bs, i);
    if i <= x {
      assert forall j :: 0 <= j < x ==> r[j] == bs[j];
      assert r[x].free && r[x].addr == bs[x].addr;
      var m := NextFree(r, i);
    } else {
      assert forall j :: x + 1 < j < |bs| ==> r[j - 1] == bs[j];
      var m := NextFree(r, i - 1);
      if m < |r| { assert r[m] == bs[m + 1]; }
    }
  }

  lemma NextAfterMark(bs: seq<Block>, j: nat, i: nat)
    requires j < |bs| && i <= |bs|
    ensures NextAddr(MarkFree(bs, j), i) == if i <= j <= NextFree(bs, i) then bs[j].addr else NextAddr(bs, i)
  {
    var r := MarkFree(bs, j);
    var n, m := NextFree(bs, i), NextFree(r, i);
    if m < |r| && m != j { assert r[m] == bs[m]; }
    if n < |bs| && n != j { assert r[n] == bs[n]; }
    assert r[j].free;
  }

  lemma NextAfterAppend(bs: seq<Block>, b: Block, i: nat)
    requires i <= |bs| && !b.free
    ensures NextAddr(bs + [b], i) == NextAddr(bs, i)
  {
    var r := bs + [b];
    var n, m := NextFree(bs, i), NextFree(r, i);
    if m < |bs| { assert r[m] == bs[m]; }
    if n < |bs| { assert r[n] == bs[n]; }
  }

  // ---- memory after each kind of update agrees with the new blocks ----------------

  /** Free-list successor of whatever precedes block k once k is handed out. */
  function Succ(bs: seq<Block>, k: nat, req: int): int
    requires k < |bs|
  {
    if |Pieces(bs[k], req)| == 2 then Pieces(bs[k], req)[1].addr else NextAddr(bs, k + 1)
  }

  /** What handing out free block k writes, p being the free block before it. */
  ghost predicate Served(m0: Memory, h0: int, m1: Memory, h1: int, bs: seq<Block>, k: nat, p: int, req: int, rest: int)
    requires k < |bs| && -1 <= p < k
  {
    var b, q := bs[k], Pieces(bs[k], req);
    var succ := if |q| == 2 then q[1].addr else rest;
    && m1(b.addr) == q[0].size && m1(b.addr + 4) == ALLOCATED
    && (p == -1 ==> h1 == succ)
    && (p >= 0 ==> h1 == h0 && m1(bs[p].addr + 8) == succ)
    && (|q| == 2 ==> HeaderAt(m1, q[1], rest))
    && SameUntouched(m0, m1, bs, k, p, req)
  }

  /** The header of block k, the header of the tail split off it, and p's next word. */
  ghost predicate Touched(bs: seq<Block>, k: nat, p: int, req: int, a: int)
    requires k < |bs| && -1 <= p < k
  {
    var t := bs[k].addr + HEADER + req;
    || bs[k].addr <= a < bs[k].addr + HEADER
    || (p >= 0 && bs[p].addr + 8 <= a < bs[p].addr + HEADER)
    || (|Pieces(bs[k], req)| == 2 && t <= a < t + HEADER)
  }

  lemma ServedLinked(m0: Memory, h0: int, m1: Memory, h1: int, bs: seq<Block>, k: nat, p: int, req: int)
    requires Tiled(bs) && Linked(m0, h0, bs)
    requires k < |bs| && bs[k].free && bs[k].size >= req >= 4
    requires -1 <= p < k && (p >= 0 ==> bs[p].free) && NextFree(bs, p + 1) == k
    requires Served(m0, h0, m1, h1, bs, k, p, req, NextAddr(bs, k + 1))
    ensures Linked(m1, h1, Take(bs, k, req))
  {
    var r := Take(bs, k, req);
    assert h1 == NextAddr(r, 0) by {
      NextAfterTakeBelow(bs, k, req, 0);
      if p >= 0 { assert NextFree(bs, 0) <= p; }
    }
    forall j: nat | j < |r| ensures Header(m1, r, j) {
      if j < k {
        assert Header(m0, bs, j);
        BelowNext(bs, k, p, req, j);
        ServedBelow(m0, h0, m1, h1, bs, k, p, req, NextAddr(bs, k + 1), j, NextAddr(bs, j + 1), NextAddr(r, j + 1));
        assert r[j] == bs[j];
      } else {
        ServedAbove(m0, h0, m1, h1, bs, k, p, req, j);
      }
    }
  }

  /** Of the headers below block k only the predecessor's next word is written. */
  lemma BelowUntouched(bs: seq<Block>, k: nat, p: int, req: int, j: nat)
    requires Tiled(bs) && -1 <= p < k < |bs| && j < k && req >= 0
    ensures var a := bs[j].addr;
      && !Touched(bs, k, p, req, a) && !Touched(bs, k, p, req, a + 4)
      && (Touched(bs, k, p, req, a + 8) <==> j == p)
  {
    HeaderInMem(bs, j);
    Ordered(bs, j, k);
    if p >= 0 {
      HeaderInMem(bs, p);
      if j < p { Ordered(bs, j, p); }
      if p < j { Ordered(bs, p, j); }
    }
  }

  lemma AboveUntouched(bs: seq<Block>, k: nat, p: int, req: int, j: nat)
    requires Tiled(bs) && -1 <= p < k < j < |bs| && req >= 0 && bs[k].size >= req
    ensures forall a :: bs[j].addr <= a < bs[j].addr + HEADER ==> !Touched(bs, k, p, req, a)
  {
    HeaderInMem(bs, k);
    Ordered(bs, k, j);
    if p >= 0 { HeaderInMem(bs, p); Ordered(bs, p, j); }
  }

  ghost predicate SameUntouched(m0: Memory, m1: Memory, bs: seq<Block>, k: nat, p: int, req: int)
    requires k < |bs| && -1 <= p < k
  {
    forall a :: !Touched(bs, k, p, req, a) ==> m1(a) == m0(a)
  }

  lemma BelowNext(bs: seq<Block>, k: nat, p: int, req: int, j: nat)
    requires -1 <= p < k < |bs| && bs[k].free && (p >= 0 ==> bs[p].free) && NextFree(bs, p + 1) == k
    requires j < k
    ensures bs[j].free
            ==> NextAddr(Take(bs, k, req), j + 1) == if j == p then Succ(bs, k, req) else NextAddr(bs, j + 1)
  {
    NextAfterTakeBelow(bs, k, req, j + 1);
    if bs[j].free && j != p { assert NextFree(bs, j + 1) <= p; }
  }

  /** Word by word, what happens to the header of block j below k. */
  lemma BelowWords(m0: Memory, h0: int, m1: Memory, h1: int, bs: seq<Block>, k: nat, p: int, req: int, rest: int,
                   j: nat)
    requires Tiled(bs) && -1 <= p < k < |bs| && j < k && req >= 0
    requires Served(m0, h0, m1, h1, bs, k, p, req, rest)
    ensures var a, q := bs[j].addr, Pieces(bs[k], req);
      && m1(a) == m0(a) && m1(a + 4) == m0(a + 4)
      && m1(a + 8) == if j == p then (if |q| == 2 then q[1].addr else rest) else m0(a + 8)
  {
    BelowUntouched(bs, k, p, req, j);
  }

  /** One header across an update: `here` marks the block being freed, `before` the block
      whose successor changes to `succ`. */
  lemma HeaderStep(m0: Memory, m1: Memory, b: Block, here: bool, before: bool, next0: int, next1: int, mine: int,
                   succ: int)
    requires HeaderAt(m0, b, next0) && (here ==> !before)
    requires m1(b.addr) == m0(b.addr) && m1(b.addr + 4) == (if here then FREED else m0(b.addr + 4))
    requires m1(b.addr + 8) == if here then mine else if before then succ else m0(b.addr + 8)
    requires b.free || here ==> next1 == if before then succ else if here then mine else next0
    ensures HeaderAt(m1, if here then b.(free := true) else b, next1)
  {
  }

  lemma HeaderMoved(m0: Memory, m1: Memory, b: Block, next0: int, next1: int)
    requires HeaderAt(m0, b, next0)
    requires m1(b.addr) == m0(b.addr) && m1(b.addr + 4) == m0(b.addr + 4)
    requires b.free ==> m1(b.addr + 8) == next1
    ensures HeaderAt(m1, b, next1)
  {
  }

  lemma ServedBelow(m0: Memory, h0: int, m1: Memory, h1: int, bs: seq<Block>, k: nat, p: int, req: int, rest: int,
                    j: nat, next0: int, next1: int)
    requires Tiled(bs) && -1 <= p < k < |bs| && j < k && req >= 4
    requires HeaderAt(m0, bs[j], next0) && Served(m0, h0, m1, h1, bs, k, p, req, rest)
    requires var q := Pieces(bs[k], req);
      bs[j].free ==> next1 == if j != p then next0 else if |q| == 2 then q[1].addr else rest
    ensures HeaderAt(m1, bs[j], next1)
  {
    BelowWords(m0, h0, m1, h1, bs, k, p, req, rest, j);
  }

  lemma AboveWords(m0: Memory, h0: int, m1: Memory, h1: int, bs: seq<Block>, k: nat, p: int, req: int, rest: int,
                   j: nat)
    requires Tiled(bs) && -1 <= p < k < j < |bs| && 0 <= req <= bs[k].size
    requires Served(m0, h0, m1, h1, bs, k, p, req, rest)
    ensures var a := bs[j].addr; m1(a) == m0(a) && m1(a + 4) == m0(a + 4) && m1(a + 8) == m0(a + 8)
  {
    AboveUntouched(bs, k, p, req, j);
  }

  lemma ServedAbove(m0: Memory, h0: int, m1: Memory, h1: int, bs: seq<Block>, k: nat, p: int, req: int, j: nat)
    requires Tiled(bs) && Linked(m0, h0, bs)
    requires k < |bs| && bs[k].free && bs[k].size >= req >= 4
    requires -1 <= p < k && Served(m0, h0, m1, h1, bs, k, p, req, NextAddr(bs, k + 1))
    requires k <= j < |Take(bs, k, req)|
    ensures Header(m1, Take(bs, k, req), j)
  {
    var r, d := Take(bs, k, req), |Pieces(bs[k], req)| - 1;
    if j > k + d {
      assert Header(m0, bs, j - d);
      ServedFar(m0, h0, m1, h1, bs, k, p, req, j - d);
    } else {
      ServedNear(m0, h0, m1, h1, bs, k, p, req, j);
    }
  }

  lemma ServedNear(m0: Memory, h0: int, m1: Memory, h1: int, bs: seq<Block>, k: nat, p: int, req: int, j: nat)
    requires -1 <= p < k < |bs| && bs[k].free && bs[k].size >= req >= 4
    requires Served(m0, h0, m1, h1, bs, k, p, req, NextAddr(bs, k + 1))
    requires k <= j < k + |Pieces(bs[k], req)|
    ensures Header(m1, Take(bs, k, req), j)
  {
    NextAfterTakeAbove(bs, k, req, k + 1);
    assert Take(bs, k, req)[j] == Pieces(bs[k], req)[j - k];
  }

  lemma ServedFar(m0: Memory, h0: int, m1: Memory, h1: int, bs: seq<Block>, k: nat, p: int, req: int, i: nat)
    requires Tiled(bs) && k < i < |bs| && Header(m0, bs, i)
    requires bs[k].free && bs[k].size >= req >= 4
    requires -1 <= p < k && Served(m0, h0, m1, h1, bs, k, p, req, NextAddr(bs, k + 1))
    ensures Header(m1, Take(bs, k, req), i + |Pieces(bs[k], req)| - 1)
  {
    var r, j := Take(bs, k, req), i + |Pieces(bs[k], req)| - 1;
    AboveWords(m0, h0, m1, h1, bs, k, p, req, NextAddr(bs, k + 1), i);
    NextAfterTakeAbove(bs, k, req, i + 1);
    HeaderMoved(m0, m1, bs[i], NextAddr(bs, i + 1), NextAddr(r, j + 1));
    assert r[j] == bs[i];
  }

  lemma AppendedLinked(m0: Memory, h: int, m1: Memory, bs: seq<Block>, b: Block)
    requires Tiled(bs) && Tiled(bs + [b]) && Linked(m0, h, bs) && !b.free
    requires m1(b.addr) == b.size && m1(b.addr + 4) == ALLOCATED
    requires SameBut(m0, m1, b.addr, HEADER)
    ensures Linked(m1, h, bs + [b])
  {
    var r := bs + [b];
    NextAfterAppend(bs, b, 0);
    forall j: nat | j < |r| ensures Header(m1, r, j) {
      HeaderInMem(r, j);
      if j < |bs| {
        assert Header(m0, bs, j);
        Ordered(r, j, |bs|);
        NextAfterAppend(bs, b, j + 1);
      }
    }
  }

  // ---- freeing: insert in address order, then join with each side -----------------

  lemma MarkFreeTiled(bs: seq<Block>, j: nat)
    requires Tiled(bs) && j < |bs|
    ensures Tiled(MarkFree(bs, j)) && Top(MarkFree(bs, j)) == Top(bs)
  {
    var r := MarkFree(bs, j);
    forall i: nat | i < |r| ensures Fits(r, i) { assert Fits(bs, i); }
  }

  lemma MergeTiled(bs: seq<Block>, x: nat)
    requires Tiled(bs) && x + 1 < |bs|
    ensures Tiled(Merge(bs, x)) && Top(Merge(bs, x)) == Top(bs)
  {
    var r := Merge(bs, x);
    assert Fits(bs, x) && Fits(bs, x + 1);
    MergedSize(bs[x].size, bs[x + 1].size);
    assert forall i: nat :: i < |r| && i < x ==> r[i] == bs[i];
    assert forall i: nat :: i < |r| && i > x ==> r[i] == bs[i + 1];
    forall i: nat | i < |r| ensures Fits(r, i) {
      if i <= x { assert Fits(bs, i); } else { assert Fits(bs, i + 1); }
    }
  }

  lemma MergedSize(m: int, n: int)
    requires m % 4 == 0 && n % 4 == 0
    ensures (m + HEADER + n) % 4 == 0
  {
  }

  /** Addresses order blocks as indices do. */
  lemma AddrOrder(bs: seq<Block>, i: nat, j: nat)
    requires Tiled(bs) && i < |bs| && j < |bs|
    ensures bs[i].addr < bs[j].addr <==> i < j
    ensures i < j ==> bs[i].addr + HEADER + 4 <= bs[j].addr
  {
    if i < j { Ordered(bs, i, j); assert Fits(bs, i); }
    if j < i { Ordered(bs, j, i); assert Fits(bs, j); }
  }

  ghost predicate Inserted(m0: Memory, h0: int, m1: Memory, h1: int, bs: seq<Block>, j: nat, p: int, next: int)
    requires j < |bs| && -1 <= p < j
  {
    var a := bs[j].addr;
    && m1(a) == m0(a) && m1(a + 4) == FREED && m1(a + 8) == next
    && (p == -1 ==> h1 == a && SameBut(m0, m1, a, HEADER))
    && (p >= 0 ==> h1 == h0 && m1(bs[p].addr + 8) == a && SameButTwo(m0, m1, a, HEADER, bs[p].addr + 8, 4))
  }

  lemma InsertedLinked(m0: Memory, h0: int, m1: Memory, h1: int, bs: seq<Block>, j: nat, p: int)
    requires Tiled(bs) && Linked(m0, h0, bs)
    requires j < |bs| && !bs[j].free && -1 <= p < j
    requires (p >= 0 ==> bs[p].free) && NextFree(bs, p + 1) > j
    requires Inserted(m0, h0, m1, h1, bs, j, p, NextAddr(bs, j + 1))
    ensures Linked(m1, h1, MarkFree(bs, j))
  {
    var r := MarkFree(bs, j);
    NextAfterMark(bs, j, 0);
    if p >= 0 { assert NextFree(bs, 0) <= p; }
    forall x: nat | x < |r| ensures Header(m1, r, x) {
      assert Header(m0, bs, x);
      InsertedHeader(m0, h0, m1, h1, bs, j, p, x);
    }
  }

  lemma InsertedHeader(m0: Memory, h0: int, m1: Memory, h1: int, bs: seq<Block>, j: nat, p: int, x: nat)
    requires Tiled(bs) && j < |bs| && !bs[j].free && -1 <= p < j && x < |bs| && Header(m0, bs, x)
    requires (p >= 0 ==> bs[p].free) && NextFree(bs, p + 1) > j
    requires Inserted(m0, h0, m1, h1, bs, j, p, NextAddr(bs, j + 1))
    ensures Header(m1, MarkFree(bs, j), x)
  {
    InsertedWords(m0, h0, m1, h1, bs, j, p, NextAddr(bs, j + 1), x);
    InsertedNext(bs, j, p, x);
    HeaderStep(m0, m1, bs[x], x == j, x == p, NextAddr(bs, x + 1), NextAddr(MarkFree(bs, j), x + 1),
      NextAddr(bs, j + 1), bs[j].addr);
  }

  lemma InsertedWords(m0: Memory, h0: int, m1: Memory, h1: int, bs: seq<Block>, j: nat, p: int, next: int, x: nat)
    requires Tiled(bs) && j < |bs| && -1 <= p < j && x < |bs|
    requires Inserted(m0, h0, m1, h1, bs, j, p, next)
    ensures var a := bs[x].addr;
      && m1(a) == m0(a) && m1(a + 4) == (if x == j then FREED else m0(a + 4))
      && m1(a + 8) == if x == j then next else if x == p then bs[j].addr else m0(a + 8)
  {
    AddrOrder(bs, x, j);
    AddrOrder(bs, j, x);
    if p >= 0 { AddrOrder(bs, x, p); AddrOrder(bs, p, x); }
  }

  lemma InsertedNext(bs: seq<Block>, j: nat, p: int, x: nat)
    requires j < |bs| && !bs[j].free && -1 <= p < j && x < |bs|
    requires (p >= 0 ==> bs[p].free) && NextFree(bs, p + 1) > j
    ensures bs[x].free || x == j
            ==> NextAddr(MarkFree(bs, j), x + 1) == if x == p then bs[j].addr else NextAddr(bs, x + 1)
  {
    NextAfterMark(bs, j, x + 1);
    if x < p { assert NextFree(bs, x + 1) <= p; }
    if bs[x].free && p < x { assert x > j; }
  }

  /** Joining block x with block x+1 rewrites only x's header. */
  ghost predicate Joined(m0: Memory, m1: Memory, bs: seq<Block>, x: nat, next: int)
    requires x + 1 < |bs|
  {
    var a := bs[x].addr;
    && m1(a) == bs[x].size + HEADER + bs[x + 1].size && m1(a + 4) == FREED && m1(a + 8) == next
    && SameBut(m0, m1, a, HEADER)
  }

  lemma JoinedLinked(m0: Memory, h: int, m1: Memory, bs: seq<Block>, x: nat)
    requires Tiled(bs) && Linked(m0, h, bs)
    requires x + 1 < |bs| && bs[x].free && bs[x + 1].free && Joined(m0, m1, bs, x, NextAddr(bs, x + 2))
    ensures Linked(m1, h, Merge(bs, x))
  {
    var r := Merge(bs, x);
    NextAfterMerge(bs, x, 0);
    forall i: nat | i < |r| ensures Header(m1, r, i) {
      var o := if i <= x then i else i + 1;
      if i == x {
        NextAfterMerge(bs, x, x + 2);
      } else {
        assert Header(m0, bs, o);
        AddrOrder(bs, o, x);
        AddrOrder(bs, x, o);
        NextAfterMerge(bs, x, o + 1);
        HeaderMoved(m0, m1, bs[o], NextAddr(bs, o + 1), NextAddr(r, i + 1));
      }
    }
  }

  /** Free block i (or the end) is being looked at, p is the free block before it, and no
      free block below i is big enough. */
  ghost predicate Searching(bs: seq<Block>, req: int, i: nat, p: int) {
    && i <= |bs| && -1 <= p < i && i == NextFree(bs, p + 1)
    && (p >= 0 ==> bs[p].free)
    && FirstFit(bs, req, 0) >= i
  }

  lemma SearchStep(bs: seq<Block>, req: int, i: nat, p: int)
    requires Searching(bs, req, i, p) && i < |bs| && bs[i].size < req
    ensures Searching(bs, req, NextFree(bs, i + 1), i)
  {
  }

  class Heap {
    const mem: array<int>
    var heapBegin: int
    var freeList: int
    var heapUsed: int
    ghost var blocks: seq<Block>

    ghost predicate Valid()
      reads this, mem
    {
      && mem.Length == WORDS
      && WellFormed(blocks)
      && Linked(View(), freeList, blocks)
      && heapBegin == Top(blocks)
      && heapUsed == Bytes(blocks, false)
    }

    constructor ()
      ensures Valid() && blocks == [] && fresh(mem)
    {
      mem := new int[WORDS];
      heapBegin, freeList, heapUsed := HEAP_START, 0, 0;
      blocks := [];
    }

    ghost function View(): Memory
      requires mem.Length == WORDS
      reads this, mem
    {
      var words := mem[..];
      (a: int) => if HEAP_START <= a < HEAP_END then words[(a - HEAP_START) / 4] else 0
    }

    function Load(a: int): int
      requires mem.Length == WORDS && InMem(a)
      reads this, mem
      ensures Load(a) == View()(a)
    {
      mem[(a - HEAP_START) / 4]
    }

    method Store(a: int, v: int)
      requires mem.Length == WORDS && InMem(a)
      modifies mem
      ensures View()(a) == v
      ensures SameBut(old(View()), View(), a, 4)
    {
      mem[(a - HEAP_START) / 4] := v;
    }

    /** *link = v, where link 0 stands for the list head and any other link for the block
        whose next word it is. */
    method SetLink(link: int, v: int)
      requires mem.Length == WORDS
      requires link != 0 ==> InMem(link + 8)
      modifies this`freeList, mem
      ensures link == 0 ==> freeList == v && SameBut(old(View()), View(), 0, 0)
      ensures link != 0 ==> freeList == old(freeList) && View()(link + 8) == v
      ensures link != 0 ==> SameBut(old(View()), View(), link + 8, 4)
    {
      if link == 0 { freeList := v; } else { Store(link + 8, v); }
    }

    method WriteHeader(a: int, size: int, magic: int, next: int)
      requires mem.Length == WORDS && InMem(a) && InMem(a + 4) && InMem(a + 8)
      modifies mem
      ensures View()(a) == size && View()(a + 4) == magic && View()(a + 8) == next
      ensures SameBut(old(View()), View(), a, HEADER)
    {
      Store(a, size);
      Store(a + 4, magic);
      Store(a + 8, next);
    }

    method Kmalloc(size: nat) returns (r: Outcome)
      requires Valid()
      modifies this, mem
      ensures Valid()
      ensures r == Malloc(old(blocks), size).0
      ensures blocks == Malloc(old(blocks), size).1
      ensures PayloadsKept(old(View()), View(), old(blocks), blocks)
    {
      if size == 0 { return Returned(0); }
      if size > HEAP_SIZE - HEADER { return Halted; }
      var requested := Aligned(size);
      var link, block, i, p := FindFit(requested);
      if block != 0 {
        r := Serve(block, link, requested, i, p);
        return;
      }
      var total := HEADER + requested;
      if heapBegin > HEAP_END - total { return Halted; }
      r := Extend(requested, total);
    }

    /** The free-list walk: stops at the first block that is big enough, or at NULL. */
    method FindFit(requested: int) returns (link: int, block: int, ghost i: nat, ghost p: int)
      requires Valid()
      ensures i == FirstFit(blocks, requested, 0) && Searching(blocks, requested, i, p)
      ensures block == AddrAt(blocks, i) && (block == 0 <==> i == |blocks|)
      ensures link == if p == -1 then 0 else blocks[p].addr
    {
      link, block, i, p := 0, freeList, NextFree(blocks, 0), -1;
      while block != 0
        invariant Searching(blocks, requested, i, p)
        invariant block == AddrAt(blocks, i)
        invariant link == if p == -1 then 0 else blocks[p].addr
        decreases |blocks| - i
      {
        assert Header(View(), blocks, i);
        HeaderInMem(blocks, i);
        if Load(block) >= requested { return; }
        SearchStep(blocks, requested, i, p);
        link := block;
        block := Load(block + 8);
        p := i;
        i := NextFree(blocks, i + 1);
      }
      if i < |blocks| { HeaderInMem(blocks, i); }
    }

    /** Cut the block off the bottom of the untouched part of the window. */
    method Extend(requested: int, total: int) returns (r: Outcome)
      requires Valid()
      requires requested >= 4 && requested % 4 == 0 && total == HEADER + requested && heapBegin <= HEAP_END - total
      modifies this, mem
      ensures Valid()
      ensures r == Returned(Top(old(blocks)) + HEADER)
      ensures blocks == old(blocks) + [Block(Top(old(blocks)), requested, false)]
      ensures PayloadsKept(old(View()), View(), old(blocks), blocks)
    {
      var block := heapBegin;
      AppendKeeps(blocks, requested);
      ghost var bs := blocks;
      blocks := blocks + [Block(block, requested, false)];
      HeaderInMem(blocks, |bs|);
      heapBegin := heapBegin + total;
      WriteHeader(block, requested, ALLOCATED, 0);
      heapUsed := heapUsed + total;
      r := Returned(block + HEADER);
      AppendedLinked(old(View()), freeList, View(), bs, Block(block, requested, false));
      assert blocks[|bs|].addr == block;
    }

    /** Hand out free block i, whose free-list predecessor is block p (-1 for the head). */
    method Serve(block: int, link: int, requested: int, ghost i: nat, ghost p: int) returns (r: Outcome)
      requires Valid()
      requires i < |blocks| && blocks[i].free && block == blocks[i].addr
      requires -1 <= p < i && (p >= 0 ==> blocks[p].free) && i == NextFree(blocks, p + 1)
      requires link == if p == -1 then 0 else blocks[p].addr
      requires blocks[i].size >= requested >= 4 && requested % 4 == 0
      modifies this, mem
      ensures Valid()
      ensures r == Returned(old(blocks)[i].Payload()) && blocks == Take(old(blocks), i, requested)
      ensures PayloadsKept(old(View()), View(), old(blocks), blocks)
    {
      ghost var bs := blocks;
      HeaderInMem(bs, i);
      TakeKeeps(bs, i, requested);
      TakeBytes(bs, i, requested);
      WriteServed(block, link, requested, i, p);
      blocks := Take(bs, i, requested);
      ServedLinked(old(View()), old(freeList), View(), freeList, bs, i, p, requested);
      ServedInHeaders(bs, i, p, requested);
      heapUsed := heapUsed + HEADER + Load(block);
      r := Returned(block + HEADER);
    }

    /** The stores that hand out block i. */
    method WriteServed(block: int, link: int, requested: int, ghost i: nat, ghost p: int)
      requires mem.Length == WORDS && Tiled(blocks) && Linked(View(), freeList, blocks)
      requires i < |blocks| && blocks[i].free && block == blocks[i].addr
      requires -1 <= p < i && Tiled(Take(blocks, i, requested))
      requires link == if p == -1 then 0 else blocks[p].addr
      requires blocks[i].size >= requested >= 4 && requested % 4 == 0
      modifies this`freeList, mem
      ensures Served(old(View()), old(freeList), View(), freeList, blocks, i, p, requested, NextAddr(blocks, i + 1))
    {
      assert Header(View(), blocks, i);
      HeaderInMem(blocks, i);
      var size := Load(block);
      var next := Load(block + 8);
      if size >= requested + HEADER + MIN_TAIL {
        WriteSplit(block, link, requested, size, next, i, p);
      } else {
        Detach(block, link, size, next, i, p);
      }
    }

    method WriteSplit(block: int, link: int, requested: int, size: int, next: int, ghost i: nat, ghost p: int)
      requires mem.Length == WORDS && Tiled(blocks)
      requires i < |blocks| && block == blocks[i].addr && size == blocks[i].size && next == NextAddr(blocks, i + 1)
      requires -1 <= p < i && Tiled(Take(blocks, i, requested))
      requires link == if p == -1 then 0 else blocks[p].addr
      requires requested >= 4 && requested % 4 == 0 && size >= requested + HEADER + MIN_TAIL
      modifies this`freeList, mem
      ensures Served(old(View()), old(freeList), View(), freeList, blocks, i, p, requested, NextAddr(blocks, i + 1))
    {
      var tail := WriteTail(block, requested, size, next, i);
      ghost var mt := View();
      Detach(block, link, requested, tail, i, p);
      if p >= 0 { HeaderInMem(blocks, p); Ordered(blocks, p, i); }
      SplitServed(old(View()), old(freeList), mt, View(), freeList, blocks, i, p, requested);
    }

    /** The rest of block i becomes a free block of its own. */
    method WriteTail(block: int, requested: int, size: int, next: int, ghost i: nat) returns (tail: int)
      requires mem.Length == WORDS && Tiled(blocks)
      requires i < |blocks| && block == blocks[i].addr && size == blocks[i].size && Tiled(Take(blocks, i, requested))
      requires requested >= 4 && requested % 4 == 0 && size >= requested + HEADER + MIN_TAIL
      modifies mem
      ensures var q := Pieces(blocks[i], requested);
        && |q| == 2 && tail == q[1].addr
        && HeaderAt(View(), q[1], next) && SameBut(old(View()), View(), tail, HEADER)
    {
      tail := block + HEADER + requested;
      HeaderInMem(Take(blocks, i, requested), i + 1);
      WriteHeader(tail, size - requested - HEADER, FREED, next);
    }

    /** Unlink the block and mark it allocated. */
    method Detach(block: int, link: int, size: int, succ: int, ghost i: nat, ghost p: int)
      requires mem.Length == WORDS && Tiled(blocks)
      requires i < |blocks| && block == blocks[i].addr && -1 <= p < i
      requires link == if p == -1 then 0 else blocks[p].addr
      modifies this`freeList, mem
      ensures View()(block) == size && View()(block + 4) == ALLOCATED
      ensures p == -1 ==> freeList == succ
      ensures p >= 0 ==> freeList == old(freeList) && View()(blocks[p].addr + 8) == succ
      ensures p == -1 ==> SameBut(old(View()), View(), block, HEADER)
      ensures p >= 0 ==> SameButTwo(old(View()), View(), block, HEADER, blocks[p].addr + 8, 4)
    {
      HeaderInMem(blocks, i);
      if p >= 0 { HeaderInMem(blocks, p); Ordered(blocks, p, i); }
      SetLink(link, succ);
      WriteHeader(block, size, ALLOCATED, 0);
    }

    /** What kfree reads at any address: a word of the window, or whatever lies elsewhere. */
    function Peek(a: int, elsewhere: int -> int): int
      requires mem.Length == WORDS
      reads this, mem
    {
      if InMem(a) then Load(a) else elsewhere(a)
    }

    /** Only header words of the blocks as they were can change, and nothing happens unless
        ptr is the payload of a live block. */
    method Kfree(ptr: int, elsewhere: int -> int)
      requires Valid()
      requires ptr != 0 && Peek(ptr - 8, elsewhere) == ALLOCATED && HEAP_START <= ptr - HEADER < heapBegin
               ==> LiveIndex(blocks, ptr, 0) < |blocks|
      modifies this, mem
      ensures Valid()
      ensures blocks == Free(old(blocks), ptr)
      ensures PayloadsKept(old(View()), View(), old(blocks), blocks)
    {
      ghost var j := LiveIndex(blocks, ptr, 0);
      if j < |blocks| { HeaderInMem(blocks, j); InRange(blocks, j); assert Header(View(), blocks, j); }
      if ptr == 0 { return; }
      var block := ptr - HEADER;
      if Peek(block + 4, elsewhere) != ALLOCATED || block < HEAP_START || block >= heapBegin { return; }
      Giveback(block, j);
    }

    method Giveback(block: int, ghost j: nat)
      requires Valid()
      requires j < |blocks| && !blocks[j].free && block == blocks[j].addr
      modifies this, mem
      ensures Valid()
      ensures blocks == Release(old(blocks), j)
      ensures PayloadsKept(old(View()), View(), old(blocks), blocks)
    {
      ghost var bs := blocks;
      ReleaseKeeps(bs, j);
      ReleaseBytes(bs, j);
      HeaderInMem(bs, j);
      assert Header(View(), bs, j);
      heapUsed := heapUsed - (HEADER + Load(block));
      var link, next, p := FindPlace(block, j);
      Insert(block, link, next, j, p);
      InsertedLinked(old(View()), old(freeList), View(), freeList, bs, j, p);
      MarkFreeTiled(bs, j);
      blocks := MarkFree(bs, j);
      ghost var m1 := View();
      JoinNext(block, j);
      ghost var m2 := View();
      if link != 0 {
        AfterJoinNext(bs, j, p);
        JoinPrev(block, j, p);
      }
      FreedKept(old(View()), m1, m2, View(), bs, j, p);
    }

    /** Walk the free list to the last free block below `block`. */
    method FindPlace(block: int, ghost j: nat) returns (link: int, next: int, ghost p: int)
      requires mem.Length == WORDS && Tiled(blocks) && Linked(View(), freeList, blocks)
      requires j < |blocks| && !blocks[j].free && block == blocks[j].addr
      ensures -1 <= p < j && (p >= 0 ==> blocks[p].free) && NextFree(blocks, p + 1) > j
      ensures link == (if p == -1 then 0 else blocks[p].addr) && next == NextAddr(blocks, j + 1)
      ensures link == 0 <==> p == -1
    {
      link, next, p := 0, freeList, -1;
      ghost var i: nat := NextFree(blocks, 0);
      while next != 0 && next < block
        invariant -1 <= p < j && (p >= 0 ==> blocks[p].free) && i == NextFree(blocks, p + 1)
        invariant next == AddrAt(blocks, i) && link == if p == -1 then 0 else blocks[p].addr
        decreases |blocks| - i
      {
        AddrOrder(blocks, i, j);
        HeaderInMem(blocks, i);
        assert Header(View(), blocks, i);
        link, p := next, i;
        next := Load(next + 8);
        i := NextFree(blocks, i + 1);
      }
      if i < |blocks| { HeaderInMem(blocks, i); AddrOrder(blocks, i, j); }
      if p >= 0 { HeaderInMem(blocks, p); }
      assert i > j;
      assert NextFree(blocks, j + 1) == i;
    }

    method Insert(block: int, link: int, next: int, ghost j: nat, ghost p: int)
      requires mem.Length == WORDS && Tiled(blocks)
      requires j < |blocks| && block == blocks[j].addr && -1 <= p < j
      requires link == (if p == -1 then 0 else blocks[p].addr) && next == NextAddr(blocks, j + 1)
      modifies this`freeList, mem
      ensures Inserted(old(View()), old(freeList), View(), freeList, blocks, j, p, next)
    {
      HeaderInMem(blocks, j);
      if p >= 0 { HeaderInMem(blocks, p); AddrOrder(blocks, p, j); }
      WriteHeader(block, Load(block), FREED, next);
      SetLink(link, block);
    }

    method JoinNext(block: int, ghost j: nat)
      requires mem.Length == WORDS && Tiled(blocks) && Linked(View(), freeList, blocks)
      requires j < |blocks| && blocks[j].free && block == blocks[j].addr
      modifies this`blocks, mem
      ensures Tiled(blocks) && Linked(View(), freeList, blocks)
      ensures blocks == MergeNext(old(blocks), j) && SameBut(old(View()), View(), block, HEADER)
    {
      HeaderInMem(blocks, j);
      assert Header(View(), blocks, j);
      TryJoin(block, Load(block + 8), j);
    }

    /** Absorb the free block that starts where `block` ends. */
    method Join(block: int, next: int, ghost x: nat)
      requires mem.Length == WORDS && Tiled(blocks) && Linked(View(), freeList, blocks)
      requires x + 1 < |blocks| && blocks[x].free && blocks[x + 1].free
      requires block == blocks[x].addr && next == blocks[x + 1].addr
      modifies this`blocks, mem
      ensures Tiled(blocks) && Linked(View(), freeList, blocks)
      ensures blocks == Merge(old(blocks), x) && SameBut(old(View()), View(), block, HEADER)
    {
      ghost var bs, m0 := blocks, View();
      JoinHeaders(block, next, x);
      JoinedLinked(m0, freeList, View(), bs, x);
      MergeTiled(bs, x);
      blocks := Merge(bs, x);
    }

    method JoinHeaders(block: int, next: int, ghost x: nat)
      requires mem.Length == WORDS && Tiled(blocks) && Linked(View(), freeList, blocks)
      requires x + 1 < |blocks| && blocks[x].free && blocks[x + 1].free
      requires block == blocks[x].addr && next == blocks[x + 1].addr
      modifies mem
      ensures Joined(old(View()), View(), blocks, x, NextAddr(blocks, x + 2))
    {
      HeaderInMem(blocks, x);
      HeaderInMem(blocks, x + 1);
      assert Header(View(), blocks, x) && Header(View(), blocks, x + 1);
      var size, after := Load(next), Load(next + 8);
      assert size == blocks[x + 1].size && after == NextAddr(blocks, x + 2);
      Swallow(block, size, after);
    }

    method Swallow(block: int, size: int, next: int)
      requires mem.Length == WORDS && InMem(block) && InMem(block + 8)
      modifies mem
      ensures View()(block) == old(View())(block) + HEADER + size && View()(block + 8) == next
      ensures View()(block + 4) == old(View())(block + 4)
      ensures SameBut(old(View()), View(), block, HEADER)
    {
      Store(block, Load(block) + HEADER + size);
      Store(block + 8, next);
    }

    method JoinPrev(block: int, ghost j: nat, ghost p: nat)
      requires mem.Length == WORDS && Tiled(blocks) && Linked(View(), freeList, blocks)
      requires j < |blocks| && blocks[j].free && block == blocks[j].addr
      requires p < j && blocks[p].free && NextFree(blocks, p + 1) == j
      modifies this`blocks, mem
      ensures Tiled(blocks) && Linked(View(), freeList, blocks)
      ensures blocks == MergePrev(old(blocks), j) && SameBut(old(View()), View(), old(blocks)[p].addr, HEADER)
    {
      var previous := FindPrev(block, j, p);
      TryJoin(previous, block, p);
    }

    /** The walk to the free block before j. */
    method FindPrev(block: int, ghost j: nat, ghost p: nat) returns (previous: int)
      requires mem.Length == WORDS && Tiled(blocks) && Linked(View(), freeList, blocks)
      requires j < |blocks| && blocks[j].free && block == blocks[j].addr
      requires p < j && blocks[p].free && NextFree(blocks, p + 1) == j
      ensures previous == blocks[p].addr
    {
      previous := freeList;
      ghost var q: nat := NextFree(blocks, 0);
      assert q <= p;
      var next := NextOf(previous, q);
      while next != block
        invariant q <= p && blocks[q].free && previous == blocks[q].addr && next == NextAddr(blocks, q + 1)
        decreases p - q
      {
        assert q < p ==> NextFree(blocks, q + 1) <= p;
        previous, q := next, NextFree(blocks, q + 1);
        next := NextOf(previous, q);
      }
      LastFree(blocks, q, p, j);
    }

    method NextOf(block: int, ghost q: nat) returns (next: int)
      requires mem.Length == WORDS && Tiled(blocks) && Linked(View(), freeList, blocks)
      requires q < |blocks| && blocks[q].free && block == blocks[q].addr
      ensures next == NextAddr(blocks, q + 1)
    {
      HeaderInMem(blocks, q);
      assert Header(View(), blocks, q);
      next := Load(block + 8);
    }

    /** Join with the block above if it starts right where `previous` ends. */
    method TryJoin(previous: int, block: int, ghost p: nat)
      requires mem.Length == WORDS && Tiled(blocks) && Linked(View(), freeList, blocks)
      requires p < |blocks| && blocks[p].free && previous == blocks[p].addr
      requires block == NextAddr(blocks, p + 1)
      modifies this`blocks, mem
      ensures Tiled(blocks) && Linked(View(), freeList, blocks)
      ensures blocks == MergeNext(old(blocks), p) && SameBut(old(View()), View(), previous, HEADER)
    {
      HeaderInMem(blocks, p);
      assert Header(View(), blocks, p);
      NextTouches(blocks, p);
      if block != 0 && previous + HEADER + Load(previous) == block {
        Join(previous, block, p);
      }
    }
  }

  /** The next free block in the list touches block j exactly when it is block j+1. */
  lemma NextTouches(bs: seq<Block>, j: nat)
    requires Tiled(bs) && j < |bs|
    ensures (NextAddr(bs, j + 1) != 0 && bs[j].End() == NextAddr(bs, j + 1)) <==> (j + 1 < |bs| && bs[j + 1].free)
    ensures j + 1 < |bs| && bs[j + 1].free ==> NextFree(bs, j + 1) == j + 1
    ensures j + 1 < NextFree(bs, j + 1) ==> !bs[j + 1].free
  {
    var n := NextFree(bs, j + 1);
    HeaderInMem(bs, j);
    if n < |bs| {
      HeaderInMem(bs, n);
      assert Fits(bs, j + 1);
      if n > j + 1 { AddrOrder(bs, j + 1, n); }
    }
  }

  lemma LastFree(bs: seq<Block>, q: nat, p: nat, j: nat)
    requires Tiled(bs) && q <= p < j < |bs| && bs[p].free && NextFree(bs, p + 1) == j
    requires NextAddr(bs, q + 1) == bs[j].addr
    ensures q == p && MergeNext(bs, p) == MergePrev(bs, j)
  {
    if q < p {
      var n := NextFree(bs, q + 1);
      assert n <= p;
      AddrOrder(bs, n, j);
    }
    assert j < |bs| && bs[j].free;
    if p + 1 < j { assert !bs[j - 1].free && !bs[p + 1].free; }
  }

  lemma AfterJoinNext(bs: seq<Block>, j: nat, p: int)
    requires j < |bs| && 0 <= p < j && bs[p].free && NextFree(bs, p + 1) > j
    ensures var r := MergeNext(MarkFree(bs, j), j);
      && j < |r| && r[j].free && r[j].addr == bs[j].addr
      && r[p] == bs[p] && NextFree(r, p + 1) == j
  {
    var r := MergeNext(MarkFree(bs, j), j);
    assert forall i :: 0 <= i < j ==> r[i] == bs[i];
    assert r[j].free;
  }

  lemma FreedKept(m0: Memory, m1: Memory, m2: Memory, m3: Memory, bs: seq<Block>, j: nat, p: int)
    requires j < |bs| && -1 <= p < j
    requires p == -1 ==> SameBut(m0, m1, bs[j].addr, HEADER) && m3 == m2
    requires p >= 0 ==> SameButTwo(m0, m1, bs[j].addr, HEADER, bs[p].addr + 8, 4) && SameBut(m2, m3, bs[p].addr, HEADER)
    requires SameBut(m1, m2, bs[j].addr, HEADER)
    ensures forall a :: !InHeader(bs, a) ==> m3(a) == m0(a)
  {
  }

  lemma SplitServed(m0: Memory, h0: int, mt: Memory, m1: Memory, h1: int, bs: seq<Block>, k: nat, p: int, req: int)
    requires k < |bs| && -1 <= p < k && |Pieces(bs[k], req)| == 2 && req >= 0
    requires p >= 0 ==> bs[p].addr + HEADER <= bs[k].addr
    requires var q := Pieces(bs[k], req);
      && HeaderAt(mt, q[1], NextAddr(bs, k + 1)) && SameBut(m0, mt, q[1].addr, HEADER)
      && m1(bs[k].addr) == req && m1(bs[k].addr + 4) == ALLOCATED
      && (p == -1 ==> h1 == q[1].addr && SameBut(mt, m1, bs[k].addr, HEADER))
      && (p >= 0 ==> h1 == h0 && m1(bs[p].addr + 8) == q[1].addr
                     && SameButTwo(mt, m1, bs[k].addr, HEADER, bs[p].addr + 8, 4))
    ensures Served(m0, h0, m1, h1, bs, k, p, req, NextAddr(bs, k + 1))
  {
  }

  lemma ServedInHeaders(bs: seq<Block>, k: nat, p: int, req: int)
    requires k < |bs| && -1 <= p < k
    ensures forall a :: Touched(bs, k, p, req, a) ==> InHeader(bs, a) || InHeader(Take(bs, k, req), a)
  {
    var r := Take(bs, k, req);
    assert r[k].addr == bs[k].addr;
    if |Pieces(bs[k], req)| == 2 { assert r[k + 1].addr == bs[k].addr + HEADER + req; }
  }
}
