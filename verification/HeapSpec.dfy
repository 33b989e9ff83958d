/** The kernel heap as a list of blocks in address order: what kmalloc and kfree do to
    it, and the laws that hold of every sequence of calls. */
module HeapSpec {

  const HEAP_START: int := 0x400000
  const HEAP_SIZE: int := 0x1000000
  const HEAP_END: int := HEAP_START + HEAP_SIZE
  const HEADER: int := 12
  const MIN_TAIL: int := 16

  datatype Block = Block(addr: int, size: int, free: bool) {
    function End(): int { addr + HEADER + size }
    function Payload(): int { addr + HEADER }
  }

  /** `Halted` is the kernel panic: it never returns to the caller. */
  datatype Outcome = Halted | Returned(ptr: int)

  /** Address at which block i has to start for the blocks to leave no gap. */
  function Start(bs: seq<Block>, i: nat): int
    requires i <= |bs|
  {
    if i == 0 then HEAP_START else bs[i - 1].End()
  }

  function Top(bs: seq<Block>): int { Start(bs, |bs|) }

  /** Block i is aligned and starts where block i-1 ends. */
  ghost predicate Fits(bs: seq<Block>, i: nat)
    requires i < |bs|
  {
    bs[i].addr == Start(bs, i) && bs[i].addr % 4 == 0 && bs[i].size >= 4 && bs[i].size % 4 == 0
  }

  ghost predicate Apart(bs: seq<Block>, i: nat)
    requires i < |bs|
  {
    i > 0 ==> !(bs[i - 1].free && bs[i].free)
  }

  /** Blocks tile [HEAP_START, Top) with no gap and no overlap. */
  ghost predicate Tiled(bs: seq<Block>) {
    && (forall i: nat :: i < |bs| ==> Fits(bs, i))
    && Top(bs) <= HEAP_END
  }

  /** ... and no two free ones touch. */
  ghost predicate WellFormed(bs: seq<Block>) {
    Tiled(bs) && forall i: nat :: i < |bs| ==> Apart(bs, i)
  }

  /** Index of the first free block at or after i, |bs| when there is none. */
  function NextFree(bs: seq<Block>, i: nat): (k: nat)
    requires i <= |bs|
    ensures i <= k <= |bs|
    ensures k < |bs| ==> bs[k].free
    ensures forall j :: i <= j < k ==> !bs[j].free
    decreases |bs| - i
  {
    if i == |bs| || bs[i].free then i else NextFree(bs, i + 1)
  }

  /** Address of block k, NULL past the end. */
  function AddrAt(bs: seq<Block>, k: nat): int {
    if k < |bs| then bs[k].addr else 0
  }

  function Aligned(size: nat): int { (size + 3) / 4 * 4 }

  /** Index of the first free block at or after i that holds `req` bytes. */
  function FirstFit(bs: seq<Block>, req: int, i: nat): (k: nat)
    requires i <= |bs|
    ensures i <= k <= |bs|
    ensures k < |bs| ==> bs[k].free && bs[k].size >= req
    ensures forall j :: i <= j < k ==> !(bs[j].free && bs[j].size >= req)
    decreases |bs| - i
  {
    if i == |bs| || (bs[i].free && bs[i].size >= req) then i else FirstFit(bs, req, i + 1)
  }

  /** What free block b becomes when handed out: a tail is split off when the rest can
      hold one. */
  function Pieces(b: Block, req: int): seq<Block> {
    if b.size >= req + HEADER + MIN_TAIL then
      [Block(b.addr, req, false), Block(b.addr + HEADER + req, b.size - req - HEADER, true)]
    else
      [b.(free := false)]
  }

  function Take(bs: seq<Block>, k: nat, req: int): seq<Block>
    requires k < |bs|
  {
    bs[..k] + Pieces(bs[k], req) + bs[k + 1..]
  }

  function Malloc(bs: seq<Block>, size: nat): (Outcome, seq<Block>) {
    if size == 0 then (Returned(0), bs)
    else if size > HEAP_SIZE - HEADER then (Halted, bs)
    else
      var req := Aligned(size);
      var k := FirstFit(bs, req, 0);
      if k < |bs| then (Returned(bs[k].Payload()), Take(bs, k, req))
      else if Top(bs) > HEAP_END - (HEADER + req) then (Halted, bs)
      else (Returned(Top(bs) + HEADER), bs + [Block(Top(bs), req, false)])
  }

  /** Blocks i and i+1 become one. */
  function Merge(bs: seq<Block>, i: nat): seq<Block>
    requires i + 1 < |bs|
  {
    bs[..i] + [bs[i].(size := bs[i].size + HEADER + bs[i + 1].size)] + bs[i + 2..]
  }

  function MergeNext(bs: seq<Block>, j: nat): seq<Block>
    requires j < |bs|
  {
    if j + 1 < |bs| && bs[j + 1].free then Merge(bs, j) else bs
  }

  function MergePrev(bs: seq<Block>, j: nat): seq<Block>
    requires j < |bs|
  {
    if j > 0 && bs[j - 1].free then Merge(bs, j - 1) else bs
  }

  function MarkFree(bs: seq<Block>, j: nat): seq<Block>
    requires j < |bs|
  {
    bs[j := bs[j].(free := true)]
  }

  /** Block j goes back to the free list and joins its free neighbours. */
  function Release(bs: seq<Block>, j: nat): seq<Block>
    requires j < |bs|
  {
    MergePrev(MergeNext(MarkFree(bs, j), j), j)
  }

  /** Index of the live block whose payload starts at ptr, |bs| when there is none. */
  function LiveIndex(bs: seq<Block>, ptr: int, i: nat): (k: nat)
    requires i <= |bs|
    ensures i <= k <= |bs|
    ensures k < |bs| ==> bs[k].Payload() == ptr && !bs[k].free
    ensures forall j :: i <= j < k ==> !(bs[j].Payload() == ptr && !bs[j].free)
    decreases |bs| - i
  {
    if i == |bs| || (bs[i].Payload() == ptr && !bs[i].free) then i else LiveIndex(bs, ptr, i + 1)
  }

  function Free(bs: seq<Block>, ptr: int): seq<Block> {
    var j := LiveIndex(bs, ptr, 0);
    if j < |bs| then Release(bs, j) else bs
  }

  function Bytes(bs: seq<Block>, free: bool): int {
    if bs == [] then 0
    else Bytes(bs[..|bs| - 1], free)
         + (if bs[|bs| - 1].free == free then HEADER + bs[|bs| - 1].size else 0)
  }

  // ---- order and accounting -------------------------------------------------

  lemma {:induction false} Ordered(bs: seq<Block>, i: nat, j: nat)
    requires Tiled(bs)
    requires i < j < |bs|
    ensures bs[i].End() <= bs[j].addr
    decreases j - i
  {
    assert Fits(bs, j) && Fits(bs, j - 1);
    if i + 1 < j {
      Ordered(bs, i, j - 1);
    }
  }

  lemma {:induction false} InRange(bs: seq<Block>, i: nat)
    requires Tiled(bs)
    requires i < |bs|
    ensures HEAP_START <= bs[i].addr && bs[i].End() <= Top(bs)
  {
    if i > 0 { Ordered(bs, 0, i); }
    if i < |bs| - 1 { Ordered(bs, i, |bs| - 1); }
    assert Fits(bs, 0) && Fits(bs, |bs| - 1);
  }

  lemma {:induction false} BytesConcat(a: seq<Block>, b: seq<Block>, free: bool)
    ensures Bytes(a + b, free) == Bytes(a, free) + Bytes(b, free)
  {
    if b == [] {
      assert a + b == a;
    } else {
      assert (a + b)[..|a + b| - 1] == a + b[..|b| - 1];
      BytesConcat(a, b[..|b| - 1], free);
    }
  }

  lemma BytesOne(b: Block, free: bool)
    ensures Bytes([b], free) == if b.free == free then HEADER + b.size else 0
  {
    assert [b][..0] == [];
  }

  lemma BytesSplice(a: seq<Block>, m: seq<Block>, c: seq<Block>, free: bool)
    ensures Bytes(a + m + c, free) == Bytes(a, free) + Bytes(m, free) + Bytes(c, free)
  {
    BytesConcat(a + m, c, free);
    BytesConcat(a, m, free);
  }

  lemma BytesSwap(bs: seq<Block>, i: nat, j: nat, m: seq<Block>, free: bool)
    requires i <= j <= |bs|
    ensures Bytes(bs[..i] + m + bs[j..], free) == Bytes(bs, free) - Bytes(bs[i..j], free) + Bytes(m, free)
  {
    assert bs == bs[..i] + bs[i..j] + bs[j..];
    BytesSplice(bs[..i], bs[i..j], bs[j..], free);
    BytesSplice(bs[..i], m, bs[j..], free);
  }

  /** Conservation: handed-out bytes plus free bytes, headers included, are the whole
      grown heap. */
  lemma {:induction false} Conservation(bs: seq<Block>)
    requires Tiled(bs)
    ensures Bytes(bs, false) + Bytes(bs, true) == Top(bs) - HEAP_START
  {
    if bs != [] {
      var pre := bs[..|bs| - 1];
      assert Fits(bs, |pre|);
      assert forall i: nat :: i < |pre| ==> Fits(bs, i) ==> Fits(pre, i);
      if pre != [] { InRange(bs, |pre| - 1); }
      Conservation(pre);
    }
  }

  // ---- every operation keeps the heap well formed ---------------------------

  /** What may replace blocks [i, j): the same span of memory, cut differently. */
  ghost predicate Recut(bs: seq<Block>, i: nat, j: nat, m: seq<Block>)
    requires i < j <= |bs|
  {
    && m != [] && m[0].addr == Start(bs, i) && m[|m| - 1].End() == bs[j - 1].End()
    && m[0].addr % 4 == 0 && m[0].size >= 4 && m[0].size % 4 == 0
    && (forall k: nat :: 0 < k < |m| ==> Fits(m, k) && Apart(m, k))
    && (m[0].free && i > 0 ==> !bs[i - 1].free)
    && (m[|m| - 1].free && j < |bs| ==> !bs[j].free)
  }

  lemma RecutKeeps(bs: seq<Block>, i: nat, j: nat, m: seq<Block>)
    requires WellFormed(bs)
    requires i < j <= |bs|
    requires Recut(bs, i, j, m)
    ensures WellFormed(bs[..i] + m + bs[j..])
    ensures Top(bs[..i] + m + bs[j..]) == Top(bs)
  {
    var r := bs[..i] + m + bs[j..];
    forall k: nat | k < |r| ensures Fits(r, k) && Apart(r, k) {
      if k < i {
        assert Fits(bs, k) && Apart(bs, k);
      } else if k == i {
      } else if k < i + |m| {
        assert Fits(m, k - i) && Apart(m, k - i);
      } else {
        assert Fits(bs, k - |m| + (j - i)) && Apart(bs, k - |m| + (j - i));
      }
    }
  }

  lemma TakeKeeps(bs: seq<Block>, k: nat, req: int)
    requires WellFormed(bs)
    requires k < |bs| && bs[k].free && bs[k].size >= req >= 4 && req % 4 == 0
    ensures WellFormed(Take(bs, k, req)) && Top(Take(bs, k, req)) == Top(bs)
  {
    assert Fits(bs, k) && Apart(bs, k);
    assert k + 1 < |bs| ==> Fits(bs, k + 1) && Apart(bs, k + 1);
    RecutKeeps(bs, k, k + 1, Pieces(bs[k], req));
  }

  lemma TakeBytes(bs: seq<Block>, k: nat, req: int)
    requires k < |bs| && bs[k].free
    ensures Bytes(Take(bs, k, req), false) == Bytes(bs, false) + HEADER + Take(bs, k, req)[k].size
  {
    var m := Pieces(bs[k], req);
    BytesSwap(bs, k, k + 1, m, false);
    assert bs[k..k + 1] == [bs[k]];
    BytesOne(bs[k], false);
    BytesOne(m[0], false);
    if |m| == 2 {
      assert m == [m[0]] + [m[1]];
      BytesConcat([m[0]], [m[1]], false);
      BytesOne(m[1], false);
    } else {
      assert m == [m[0]];
    }
  }

  lemma MallocKeeps(bs: seq<Block>, size: nat)
    requires WellFormed(bs)
    ensures WellFormed(Malloc(bs, size).1)
  {
    if size != 0 && size <= HEAP_SIZE - HEADER {
      var req := Aligned(size);
      var k := FirstFit(bs, req, 0);
      if k < |bs| {
        TakeKeeps(bs, k, req);
      } else if Top(bs) <= HEAP_END - (HEADER + req) {
        AppendKeeps(bs, req);
      }
    }
  }

  lemma AppendKeeps(bs: seq<Block>, req: int)
    requires WellFormed(bs)
    requires req >= 4 && req % 4 == 0 && Top(bs) <= HEAP_END - (HEADER + req)
    ensures WellFormed(bs + [Block(Top(bs), req, false)])
    ensures Bytes(bs + [Block(Top(bs), req, false)], false) == Bytes(bs, false) + HEADER + req
  {
    var r := bs + [Block(Top(bs), req, false)];
    forall k: nat | k < |r| ensures Fits(r, k) && Apart(r, k) {
      if k < |bs| { assert Fits(bs, k) && Apart(bs, k); }
      else if bs != [] { assert Fits(bs, |bs| - 1); }
    }
    assert r[..|r| - 1] == bs;
  }

  /** Freeing live block j keeps the heap well formed. */
  lemma ReleaseKeeps(bs: seq<Block>, j: nat)
    requires WellFormed(bs)
    requires j < |bs| && !bs[j].free
    ensures WellFormed(Release(bs, j)) && Top(Release(bs, j)) == Top(bs)
  {
    var lo, hi := Low(bs, j), High(bs, j);
    SpanFits(bs, j);
    ReleaseIsSplice(bs, j);
    RecutKeeps(bs, lo, hi, [Span(bs, lo, hi)]);
  }

  /** First and one-past-last block that merge when block j is freed. */
  function Low(bs: seq<Block>, j: nat): nat
    requires j < |bs|
  {
    if j > 0 && bs[j - 1].free then j - 1 else j
  }

  function High(bs: seq<Block>, j: nat): nat
    requires j < |bs|
  {
    if j + 1 < |bs| && bs[j + 1].free then j + 2 else j + 1
  }

  function Span(bs: seq<Block>, lo: nat, hi: nat): Block
    requires lo < hi <= |bs|
  {
    Block(bs[lo].addr, bs[hi - 1].End() - bs[lo].addr - HEADER, true)
  }

  lemma SpanFits(bs: seq<Block>, j: nat)
    requires WellFormed(bs)
    requires j < |bs| && !bs[j].free
    ensures Recut(bs, Low(bs, j), High(bs, j), [Span(bs, Low(bs, j), High(bs, j))])
  {
    var lo, hi := Low(bs, j), High(bs, j);
    SpanSize(bs, lo, hi);
    if lo > 0 && lo < j { assert Apart(bs, lo); }
    if hi < |bs| && hi == j + 2 { assert Apart(bs, hi); }
  }

  lemma SpanSize(bs: seq<Block>, lo: nat, hi: nat)
    requires Tiled(bs)
    requires lo < hi <= |bs|
    ensures var s := Span(bs, lo, hi);
      s.addr == Start(bs, lo) && s.addr % 4 == 0 && s.size >= 4 && s.size % 4 == 0
  {
    assert Fits(bs, lo) && Fits(bs, hi - 1);
    AlignedGap(bs[hi - 1].addr, bs[hi - 1].size, bs[lo].addr);
    if lo < hi - 1 { Ordered(bs, lo, hi - 1); }
  }

  lemma AlignedGap(x: int, y: int, z: int)
    requires x % 4 == 0 && y % 4 == 0 && z % 4 == 0
    ensures (x + y - z) % 4 == 0
  {
  }

  lemma ReleaseBytes(bs: seq<Block>, j: nat)
    requires WellFormed(bs)
    requires j < |bs| && !bs[j].free
    ensures Bytes(Release(bs, j), false) == Bytes(bs, false) - HEADER - bs[j].size
  {
    var lo, hi := Low(bs, j), High(bs, j);
    ReleaseIsSplice(bs, j);
    BytesSwap(bs, lo, hi, [Span(bs, lo, hi)], false);
    BytesOne(Span(bs, lo, hi), false);
    OnlyLive(bs, lo, j, hi);
  }

  lemma MarkMergeIsSplice(bs: seq<Block>, j: nat)
    requires Tiled(bs)
    requires j < |bs|
    ensures MergeNext(MarkFree(bs, j), j) == bs[..j] + [Span(bs, j, High(bs, j))] + bs[High(bs, j)..]
  {
    var r := MarkFree(bs, j);
    assert r[..j] == bs[..j] && r[j + 1..] == bs[j + 1..];
    if High(bs, j) == j + 2 {
      assert Fits(bs, j + 1);
      assert r[j + 2..] == bs[j + 2..];
    }
  }

  lemma ReleaseIsSplice(bs: seq<Block>, j: nat)
    requires Tiled(bs)
    requires j < |bs|
    ensures var lo, hi := Low(bs, j), High(bs, j);
      Release(bs, j) == bs[..lo] + [Span(bs, lo, hi)] + bs[hi..]
  {
    var lo, hi := Low(bs, j), High(bs, j);
    MarkMergeIsSplice(bs, j);
    var s := Span(bs, j, hi);
    var r := bs[..j] + [s] + bs[hi..];
    assert r[j] == s;
    if lo + 1 == j {
      assert Fits(bs, j);
      assert r[j - 1] == bs[j - 1];
      assert r[j + 1..] == bs[hi..];
      assert r[..j - 1] == bs[..j - 1];
    }
  }

  lemma OnlyLive(bs: seq<Block>, lo: nat, j: nat, hi: nat)
    requires lo <= j < hi <= |bs| && j - 1 <= lo && hi <= j + 2
    requires !bs[j].free && (lo < j ==> bs[lo].free) && (j + 1 < hi ==> bs[j + 1].free)
    ensures Bytes(bs[lo..hi], false) == HEADER + bs[j].size
  {
    assert bs[lo..hi] == bs[lo..j] + [bs[j]] + bs[j + 1..hi];
    BytesSplice(bs[lo..j], [bs[j]], bs[j + 1..hi], false);
    BytesOne(bs[j], false);
    if lo < j { assert bs[lo..j] == [bs[lo]]; BytesOne(bs[lo], false); }
    if j + 1 < hi { assert bs[j + 1..hi] == [bs[j + 1]]; BytesOne(bs[j + 1], false); }
  }

  lemma FreeKeeps(bs: seq<Block>, ptr: int)
    requires WellFormed(bs)
    ensures WellFormed(Free(bs, ptr)) && Top(Free(bs, ptr)) == Top(bs)
  {
    var j := LiveIndex(bs, ptr, 0);
    if j < |bs| { ReleaseKeeps(bs, j); }
  }

  // ---- laws over whole runs --------------------------------------------------

  datatype Call = DoMalloc(size: nat) | DoFree(ptr: int)

  function Run(bs: seq<Block>, calls: seq<Call>): seq<Block>
    decreases |calls|
  {
    if calls == [] then bs
    else match calls[0]
      case DoMalloc(n) => Run(Malloc(bs, n).1, calls[1..])
      case DoFree(p) => Run(Free(bs, p), calls[1..])
  }

  /** From the empty heap, every sequence of calls leaves blocks that tile the grown heap
      with no two free ones adjacent, and the byte counts add up. */
  lemma {:induction false} RunKeeps(bs: seq<Block>, calls: seq<Call>)
    requires WellFormed(bs)
    ensures WellFormed(Run(bs, calls))
    ensures Bytes(Run(bs, calls), false) + Bytes(Run(bs, calls), true) == Top(Run(bs, calls)) - HEAP_START
    decreases |calls|
  {
    if calls == [] {
      Conservation(bs);
    } else {
      match calls[0]
      case DoMalloc(n) => MallocKeeps(bs, n); RunKeeps(Malloc(bs, n).1, calls[1..]);
      case DoFree(p) => FreeKeeps(bs, p); RunKeeps(Free(bs, p), calls[1..]);
    }
  }

  /** Index of the block a successful kmalloc hands out. */
  function Given(bs: seq<Block>, size: nat): nat { FirstFit(bs, Aligned(size), 0) }

  /** What a successful kmalloc promises: an aligned pointer to a live block of at least
      `size` bytes, inside the heap, that overlaps no other block. */
  lemma MallocPromise(bs: seq<Block>, size: nat)
    requires WellFormed(bs)
    requires size > 0 && Malloc(bs, size).0.Returned?
    ensures var r, k := Malloc(bs, size).1, Given(bs, size);
      && k < |r| && !r[k].free && r[k].Payload() == Malloc(bs, size).0.ptr
      && r[k].size >= size && r[k].Payload() % 4 == 0
      && HEAP_START < r[k].Payload() && r[k].End() <= HEAP_END
      && (forall i: nat :: i < |r| && i != k ==> r[i].End() <= r[k].addr || r[k].End() <= r[i].addr)
  {
    MallocKeeps(bs, size);
    var r, k := Malloc(bs, size).1, Given(bs, size);
    GivenBlock(bs, size);
    assert Fits(r, k);
    InRange(r, k);
    forall i: nat | i < |r| && i != k ensures r[i].End() <= r[k].addr || r[k].End() <= r[i].addr {
      if i < k { Ordered(r, i, k); } else { Ordered(r, k, i); }
    }
  }

  lemma GivenBlock(bs: seq<Block>, size: nat)
    requires WellFormed(bs)
    requires size > 0 && Malloc(bs, size).0.Returned?
    ensures var r, k := Malloc(bs, size).1, Given(bs, size);
      && k < |r| && !r[k].free && r[k].addr == Start(bs, k) && r[k].size >= size
      && r[k].Payload() == Malloc(bs, size).0.ptr
  {
    var k := Given(bs, size);
    if k < |bs| { assert Fits(bs, k); }
  }

  // ---- when kmalloc succeeds ----------------------------------------------------------------

  /** r is the request rounded up to the heap's alignment. */
  predicate RoundedUp(size: nat, r: int) { r % 4 == 0 && size <= r < size + 4 }

  /** Where the last block ends. */
  function LastEnd(bs: seq<Block>): int {
    if bs == [] then HEAP_START else bs[|bs| - 1].addr + HEADER + bs[|bs| - 1].size
  }

  ghost predicate SomeFits(bs: seq<Block>, r: int) { exists b :: b in bs && b.free && b.size >= r }

  lemma RoundedIs(size: nat, r: int)
    requires RoundedUp(size, r)
    ensures Aligned(size) == r
  {
  }

  lemma FitIs(bs: seq<Block>, r: int)
    ensures SomeFits(bs, r) <==> FirstFit(bs, r, 0) < |bs|
  {
    if SomeFits(bs, r) {
      var b :| b in bs && b.free && b.size >= r;
      var i :| 0 <= i < |bs| && bs[i] == b;
    }
  }

  /** kmalloc halts the machine exactly when the request is larger than the heap can ever be,
      or no free block holds it and there is no room for it behind the last block; the heap is
      as it was. Nothing is asked for exactly when NULL comes back. */
  lemma MallocHaltsExactly(bs: seq<Block>, size: nat, r: int)
    requires RoundedUp(size, r)
    ensures Malloc(bs, size).0 == Halted
      <==> size > 0x1000000 - 12 || (size > 0 && !SomeFits(bs, r) && 0x1400000 - LastEnd(bs) < 12 + r)
    ensures Malloc(bs, size).0 == Halted || size == 0 ==> Malloc(bs, size).1 == bs
    ensures WellFormed(bs) ==> (Malloc(bs, size).0 == Returned(0) <==> size == 0)
  {
    RoundedIs(size, r);
    FitIs(bs, r);
    if WellFormed(bs) && size > 0 && Malloc(bs, size).0.Returned? { MallocPromise(bs, size); }
  }

  /** No free block is large enough, but there is room: all blocks are kept, and one of exactly
      the rounded size is added behind them. */
  lemma MallocGrows(bs: seq<Block>, size: nat, r: int)
    requires 0 < size <= HEAP_SIZE - HEADER && RoundedUp(size, r)
    requires !SomeFits(bs, r) && HEAP_END - LastEnd(bs) >= HEADER + r
    ensures Malloc(bs, size) == (Returned(LastEnd(bs) + HEADER), bs + [Block(LastEnd(bs), r, false)])
  {
    RoundedIs(size, r);
    FitIs(bs, r);
  }

  /** Otherwise the lowest free block that is large enough is taken. What is left of it stays
      free behind it when that is room for a header and 16 bytes; no other block changes. */
  lemma MallocReuses(bs: seq<Block>, size: nat, r: int, k: nat)
    requires 0 < size <= HEAP_SIZE - HEADER && RoundedUp(size, r)
    requires k < |bs| && bs[k].free && bs[k].size >= r
    requires forall j :: 0 <= j < k ==> !(bs[j].free && bs[j].size >= r)
    ensures var (out, t) := Malloc(bs, size);
      && out == Returned(bs[k].addr + HEADER) && |t| >= |bs|
      && (forall i :: 0 <= i < k ==> t[i] == bs[i])
      && t[k].addr == bs[k].addr && !t[k].free
      && (forall i :: k < i < |bs| ==> t[i + |t| - |bs|] == bs[i])
      && (bs[k].size - r < HEADER + 16 ==> |t| == |bs| && t[k].size == bs[k].size)
      && (bs[k].size - r >= HEADER + 16 ==>
            && |t| == |bs| + 1 && t[k].size == r && t[k + 1].free && t[k + 1].addr == t[k].End()
            && t[k + 1].End() == bs[k].End())
  {
    RoundedIs(size, r);
  }

  /** Freeing what is not the payload of a live block changes nothing. */
  lemma FreeIgnores(bs: seq<Block>, ptr: int)
    requires forall b :: b in bs && !b.free ==> b.addr + HEADER != ptr
    ensures Free(bs, ptr) == bs
  {
  }

  /** The first call after boot. */
  lemma FirstCall(size: nat, r: int)
    requires 0 < size && RoundedUp(size, r) && r <= HEAP_SIZE - HEADER
    ensures Malloc([], size) == (Returned(0x40000C), [Block(0x400000, r, false)])
  {
    MallocGrows([], size, r);
    assert [] + [Block(0x400000, r, false)] == [Block(0x400000, r, false)];
  }

  /** No live block moves or changes size under kmalloc, and exactly one is added. */
  lemma MallocKeepsLive(bs: seq<Block>, size: nat)
    requires WellFormed(bs)
    requires size > 0 && Malloc(bs, size).0.Returned?
    ensures var r, k := Malloc(bs, size).1, Given(bs, size);
      && k < |r|
      && (forall b :: b in bs && !b.free ==> b in r)
      && (forall b :: b in r && !b.free && b != r[k] ==> b in bs)
  {
    var r, k := Malloc(bs, size).1, Given(bs, size);
    GivenBlock(bs, size);
    assert r[..k] == bs[..k];
    if k < |bs| {
      var p := Pieces(bs[k], Aligned(size));
      assert r[k + |p|..] == bs[k + 1..];
    }
    SameLive(bs, r, k);
  }

  lemma SameLive(bs: seq<Block>, r: seq<Block>, k: nat)
    requires k < |r| && k <= |bs| && r[..k] == bs[..k]
    requires k < |bs| ==> bs[k].free
    requires k == |bs| ==> |r| == k + 1
    requires k < |bs| ==>
               || r[k + 1..] == bs[k + 1..]
               || (k + 1 < |r| && r[k + 1].free && r[k + 2..] == bs[k + 1..])
    ensures forall b :: b in bs && !b.free ==> b in r
    ensures forall b :: b in r && !b.free && b != r[k] ==> b in bs
  {
    forall b | b in bs && !b.free ensures b in r {
      var i :| 0 <= i < |bs| && bs[i] == b;
      if i < k { assert b == bs[..k][i] == r[..k][i]; }
      else if r[k + 1..] == bs[k + 1..] { assert b == bs[k + 1..][i - k - 1] == r[k + 1..][i - k - 1]; }
      else { assert b == bs[k + 1..][i - k - 1] == r[k + 2..][i - k - 1]; }
    }
    forall b | b in r && !b.free && b != r[k] ensures b in bs {
      var i :| 0 <= i < |r| && r[i] == b;
      if i < k { assert b == r[..k][i] == bs[..k][i]; }
      else if r[k + 1..] == bs[k + 1..] { assert b == r[k + 1..][i - k - 1] == bs[k + 1..][i - k - 1]; }
      else { assert b == r[k + 2..][i - k - 2] == bs[k + 1..][i - k - 2]; }
    }
  }

  /** Freeing takes exactly that block out of the live ones; the others neither move nor
      change size. */
  lemma ReleaseKeepsLive(bs: seq<Block>, j: nat)
    requires WellFormed(bs)
    requires j < |bs| && !bs[j].free
    ensures forall b: Block :: !b.free ==> (b in Release(bs, j) <==> b in bs && b != bs[j])
  {
    forall b: Block | !b.free ensures b in Release(bs, j) <==> b in bs && b != bs[j] {
      if b in Release(bs, j) { StillLive(bs, j, b); }
      if b in bs && b != bs[j] { NotFreed(bs, j, b); }
    }
  }

  lemma StillLive(bs: seq<Block>, j: nat, b: Block)
    requires Tiled(bs) && j < |bs| && !bs[j].free && !b.free && b in Release(bs, j)
    ensures b in bs && b != bs[j]
  {
    ReleaseIsSplice(bs, j);
    var lo, hi := Low(bs, j), High(bs, j);
    assert b in bs[..lo] || b in bs[hi..];
    var i :| 0 <= i < |bs| && (i < lo || i >= hi) && bs[i] == b;
    assert Fits(bs, j) && Fits(bs, i);
    if i < j { Ordered(bs, i, j); } else { Ordered(bs, j, i); }
  }

  lemma NotFreed(bs: seq<Block>, j: nat, b: Block)
    requires Tiled(bs) && j < |bs| && !bs[j].free && !b.free && b in bs && b != bs[j]
    ensures b in Release(bs, j)
  {
    var i :| 0 <= i < |bs| && bs[i] == b;
    Spared(bs, j, i);
    ReleaseIsSplice(bs, j);
    InSplice(bs, Low(bs, j), High(bs, j), Span(bs, Low(bs, j), High(bs, j)), i);
  }

  lemma Spared(bs: seq<Block>, j: nat, i: nat)
    requires j < |bs| && i < |bs| && i != j && !bs[i].free
    ensures i < Low(bs, j) || High(bs, j) <= i
  {
  }

  lemma InSplice(bs: seq<Block>, lo: nat, hi: nat, s: Block, i: nat)
    requires lo <= hi <= |bs| && i < |bs| && (i < lo || hi <= i)
    ensures bs[i] in bs[..lo] + [s] + bs[hi..]
  {
    var r := bs[..lo] + [s] + bs[hi..];
    if i < lo { assert r[i] == bs[i]; } else { assert r[lo + 1 + (i - hi)] == bs[i]; }
  }

  /** The pointers handed out and not freed since, each with the size that was asked for. */
  function Ledger(bs: seq<Block>, held: map<int, nat>, calls: seq<Call>): map<int, nat>
    decreases |calls|
  {
    if calls == [] then held
    else match calls[0]
      case DoMalloc(n) =>
        var (out, t) := Malloc(bs, n);
        Ledger(t, if n > 0 && out.Returned? then held[out.ptr := n] else held, calls[1..])
      case DoFree(p) => Ledger(Free(bs, p), held - {p}, calls[1..])
  }

  ghost predicate Serves(bs: seq<Block>, p: int, n: nat) {
    exists b :: b in bs && !b.free && b.Payload() == p && b.size >= n
  }

  /** The live blocks are exactly those of the ledger, none smaller than was asked for. */
  ghost predicate Owed(bs: seq<Block>, held: map<int, nat>) {
    && (forall p :: p in held ==> Serves(bs, p, held[p]))
    && (forall b :: b in bs && !b.free ==> b.Payload() in held)
  }

  lemma MallocOwed(bs: seq<Block>, held: map<int, nat>, size: nat)
    requires WellFormed(bs) && Owed(bs, held) && size > 0 && Malloc(bs, size).0.Returned?
    ensures Owed(Malloc(bs, size).1, held[Malloc(bs, size).0.ptr := size])
  {
    var r, k := Malloc(bs, size).1, Given(bs, size);
    GivenBlock(bs, size);
    MallocKeepsLive(bs, size);
    var now := held[Malloc(bs, size).0.ptr := size];
    forall p | p in now ensures Serves(r, p, now[p]) {
      if p == r[k].Payload() {
        assert r[k] in r;
      } else {
        var b :| b in bs && !b.free && b.Payload() == p && b.size >= held[p];
        assert b in r;
      }
    }
  }

  lemma FreeOwed(bs: seq<Block>, held: map<int, nat>, ptr: int)
    requires WellFormed(bs) && Owed(bs, held)
    ensures Owed(Free(bs, ptr), held - {ptr})
  {
    var j, r := LiveIndex(bs, ptr, 0), Free(bs, ptr);
    if j < |bs| { ReleaseKeepsLive(bs, j); }
    forall b | b in r && !b.free ensures b.Payload() in held - {ptr} {
      var i :| 0 <= i < |bs| && bs[i] == b;
      if b.Payload() == ptr { LiveIs(bs, i); }
    }
    forall p | p in held && p != ptr ensures Serves(r, p, held[p]) {
      var b :| b in bs && !b.free && b.Payload() == p && b.size >= held[p];
      assert b in r;
    }
  }

  /** After any run the live blocks are exactly the pointers handed out and not freed since,
      each at least as large as was asked for: nothing is lost, reused or shrunk. */
  lemma {:induction false} RunOwed(bs: seq<Block>, held: map<int, nat>, calls: seq<Call>)
    requires WellFormed(bs) && Owed(bs, held)
    ensures Owed(Run(bs, calls), Ledger(bs, held, calls))
    decreases |calls|
  {
    if calls != [] {
      match calls[0]
      case DoMalloc(n) =>
        var (out, t) := Malloc(bs, n);
        MallocKeeps(bs, n);
        if n > 0 && out.Returned? { MallocOwed(bs, held, n); }
        RunOwed(t, if n > 0 && out.Returned? then held[out.ptr := n] else held, calls[1..]);
      case DoFree(p) =>
        FreeKeeps(bs, p);
        FreeOwed(bs, held, p);
        RunOwed(Free(bs, p), held - {p}, calls[1..]);
    }
  }

  /** A block served from the free list and freed at once leaves the heap exactly as it
      was: the split is undone. */
  lemma MallocThenFree(bs: seq<Block>, size: nat)
    requires WellFormed(bs)
    requires 0 < size <= HEAP_SIZE - HEADER && Given(bs, size) < |bs|
    ensures Free(Malloc(bs, size).1, Malloc(bs, size).0.ptr) == bs
  {
    var k := Given(bs, size);
    var r := Malloc(bs, size).1;
    GivenBlock(bs, size);
    MallocKeeps(bs, size);
    LiveIs(r, k);
    TakeThenRelease(bs, k, Aligned(size));
  }

  lemma TakeThenRelease(bs: seq<Block>, k: nat, req: int)
    requires k < |bs| && bs[k].free
    requires WellFormed(bs) && WellFormed(Take(bs, k, req))
    ensures Release(Take(bs, k, req), k) == bs
  {
    var r := Take(bs, k, req);
    ReleaseIsSplice(r, k);
    TakeSpan(bs, k, req);
    assert r[..k] == bs[..k] && r[High(r, k)..] == bs[k + 1..];
  }

  lemma TakeSpan(bs: seq<Block>, k: nat, req: int)
    requires WellFormed(bs)
    requires k < |bs| && bs[k].free
    ensures var r, p := Take(bs, k, req), Pieces(bs[k], req);
      Low(r, k) == k && High(r, k) == k + |p| && Span(r, k, k + |p|) == bs[k]
  {
    var r, p := Take(bs, k, req), Pieces(bs[k], req);
    assert Fits(bs, k) && Apart(bs, k);
    assert k + 1 < |bs| ==> Fits(bs, k + 1) && Apart(bs, k + 1) && r[k + |p|] == bs[k + 1];
    assert k > 0 ==> r[k - 1] == bs[k - 1];
  }

  lemma LiveIs(bs: seq<Block>, k: nat)
    requires Tiled(bs)
    requires k < |bs| && !bs[k].free
    ensures LiveIndex(bs, bs[k].Payload(), 0) == k
  {
    var j := LiveIndex(bs, bs[k].Payload(), 0);
    if j < k { assert Fits(bs, j); Ordered(bs, j, k); }
  }
}
