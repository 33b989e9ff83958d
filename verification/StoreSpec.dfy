/** The file store by value: what each name holds, and how names share data blobs. */
module StoreSpec {
  import opened Basics

  const HALF: nat := 0x8000_0000

  datatype Kind = Directory | Regular

  /** What one name shows: this is all a program can see of a node. */
  datatype Entry = Entry(path: string, kind: Kind, ino: nat, bytes: seq<byte>)

  ghost predicate UniquePaths(view: seq<Entry>) { forall i, j :: 0 <= i < j < |view| ==> view[i].path != view[j].path }

  /** Names are unique, and the root is not among them: it is a node of its own. */
  ghost predicate Names(view: seq<Entry>) { UniquePaths(view) && forall i :: 0 <= i < |view| ==> view[i].path != "/" }

  class Cell {
    var count: int

    constructor (n: int)
      ensures count == n
    {
      count := n;
    }
  }

  /** The fields of a node: its blob, how much of it is used, and the reference count the blob
      is shared through (none: the blob is private). */
  datatype Meta = Meta(path: string, kind: Kind, ino: nat, data: array?<byte>, size: nat, capacity: nat, cell: Cell?)

  /** The same bytes by count, whatever blob holds them. */
  ghost predicate Same(m: Meta, n: Meta) {
    m.path == n.path && m.kind == n.kind && m.size == n.size && m.capacity == n.capacity
  }

  // ---- the buffer that grows by doubling -------------------------------------------------

  function Cap(k: nat): (c: nat)
    ensures c >= 256
  {
    if k == 0 then 256 else 2 * Cap(k - 1)
  }

  ghost predicate IsCap(c: nat) { c == 0 || exists k :: 0 <= k <= 23 && c == Cap(k) }

  lemma CapZero()
    ensures IsCap(256)
  {
    assert Cap(0) == 256;
  }

  lemma {:induction false} CapGrows(k: nat, l: nat)
    requires k < l
    ensures 2 * Cap(k) <= Cap(l)
  {
    if k < l - 1 { CapGrows(k, l - 1); }
  }

  lemma TopCap()
    ensures Cap(23) == HALF
  {
    assert Cap(8) == 0x1_0000;
    assert Cap(16) == 0x100_0000;
  }

  /** Below a requirement of at most half the address space one doubling cannot wrap. */
  lemma DoublesSafely(c: nat, required: nat)
    requires c != 0 && IsCap(c) && c < required <= HALF
    ensures IsCap(2 * c) && 2 * c <= HALF
  {
    var k :| 0 <= k <= 23 && c == Cap(k);
    TopCap();
    if k < 23 { CapGrows(k, 23); assert 2 * c == Cap(k + 1); }
  }

  /** n doublings in 32-bit arithmetic. */
  function Doubled(c: nat, n: nat): nat { if n == 0 then c else Doubled(c, n - 1) * 2 % U32 }

  ghost predicate Reaches(c: nat, required: nat) { exists n: nat :: Doubled(c, n) >= required }

  lemma {:induction false} DoubledIs(k: nat, n: nat)
    requires k <= 23
    ensures Doubled(Cap(k), n) == if k + n <= 23 then Cap(k + n) else 0
  {
    TopCap();
    if n > 0 {
      DoubledIs(k, n - 1);
      if k + n <= 22 { CapGrows(k + n, 23); }
      if k + n < 23 { CapGrows(k + n - 1, 23); }
    }
  }

  /** The growth loop ends exactly when at most 2^31 bytes are asked for: beyond that the
      capacity wraps to zero and stays there. */
  lemma GrowthEndsExactly(c: nat, required: nat)
    requires c != 0 && IsCap(c) && 0 < required < U32
    ensures Reaches(c, required) <==> required <= HALF
  {
    var k :| 0 <= k <= 23 && c == Cap(k);
    TopCap();
    if required <= HALF {
      DoubledIs(k, 23 - k);
      assert Doubled(c, 23 - k) >= required;
    } else {
      forall n: nat ensures Doubled(c, n) < required {
        DoubledIs(k, n);
        if k + n < 23 { CapGrows(k + n, 23); }
      }
    }
  }

  // ---- sharing -----------------------------------------------------------------------------

  ghost predicate Wf(m: Meta) {
    && (m.data == null <==> m.capacity == 0) && (m.data != null ==> m.data.Length == m.capacity)
    && m.size <= m.capacity <= HALF && IsCap(m.capacity)
  }

  /** Two names share a blob exactly when they share a count, and then agree on it. */
  ghost predicate Agree(a: Meta, b: Meta) {
    && (a.cell != null && a.cell == b.cell ==> a.data == b.data && a.size == b.size && a.capacity == b.capacity)
    && (a.data != null && a.data == b.data ==> a.cell != null && a.cell == b.cell)
  }

  ghost predicate Consistent(metas: seq<Meta>) {
    && (forall i :: 0 <= i < |metas| ==> Wf(metas[i]))
    && (forall i, j {:trigger Agree(metas[i], metas[j])} :: 0 <= i < j < |metas| ==> Agree(metas[i], metas[j]))
  }

  ghost function CellSeq(metas: seq<Meta>): seq<Cell?> { seq(|metas|, i requires 0 <= i < |metas| => metas[i].cell) }

  /** How many names hold the blob counted by c. */
  ghost function Holders(metas: seq<Meta>, c: Cell): nat { multiset(CellSeq(metas))[c] }

  ghost function Cells(metas: seq<Meta>): set<Cell> { set m | m in metas && m.cell != null :: m.cell }

  ghost function Blobs(metas: seq<Meta>): set<array<byte>> { set m | m in metas && m.data != null :: m.data }

  /** Nobody else holds what name i holds. */
  ghost predicate Alone(metas: seq<Meta>, i: nat)
    requires i < |metas|
  {
    forall j :: 0 <= j < |metas| && j != i ==>
      (metas[i].cell != null ==> metas[j].cell != metas[i].cell)
        && (metas[i].data != null ==> metas[j].data != metas[i].data)
  }

  lemma CellSeqUpdate(metas: seq<Meta>, i: nat, m: Meta)
    requires i < |metas|
    ensures CellSeq(metas[i := m]) == CellSeq(metas)[i := m.cell]
    ensures multiset(CellSeq(metas[i := m])) == multiset(CellSeq(metas)) - multiset{metas[i].cell} + multiset{m.cell}
  {
  }

  lemma OneHolder(cells: seq<Cell?>, c: Cell, i: nat)
    requires i < |cells| && cells[i] == c && multiset(cells)[c] <= 1
    ensures forall j :: 0 <= j < |cells| && j != i ==> cells[j] != c
  {
    var rest := cells[..i] + cells[i + 1..];
    assert cells == cells[..i] + [c] + cells[i + 1..];
    assert multiset(cells) == multiset(rest) + multiset{c};
    forall j | 0 <= j < |cells| && j != i ensures cells[j] != c {
      assert cells[j] == rest[if j < i then j else j - 1];
      assert cells[j] in multiset(rest) && multiset(rest)[c] == 0;
    }
  }

  lemma OtherHolder(cells: seq<Cell?>, c: Cell, i: nat) returns (j: nat)
    requires i < |cells| && cells[i] == c && multiset(cells)[c] >= 2
    ensures j < |cells| && j != i && cells[j] == c
  {
    var rest := cells[..i] + cells[i + 1..];
    assert cells == cells[..i] + [c] + cells[i + 1..];
    assert multiset(cells) == multiset(rest) + multiset{c};
    var k :| 0 <= k < |rest| && rest[k] == c;
    j := if k < i then k else k + 1;
  }

  /** Alone means private or counted once. */
  lemma AloneWhen(metas: seq<Meta>, i: nat)
    requires Consistent(metas) && i < |metas|
    requires metas[i].cell == null || Holders(metas, metas[i].cell) <= 1
    ensures Alone(metas, i)
  {
    var c := metas[i].cell;
    if c != null { OneHolder(CellSeq(metas), c, i); }
    forall j | 0 <= j < |metas| && j != i
      ensures (c != null ==> metas[j].cell != c) && (metas[i].data != null ==> metas[j].data != metas[i].data)
    {
      assert c != null ==> CellSeq(metas)[j] != c;
      assert if i < j then Agree(metas[i], metas[j]) else Agree(metas[j], metas[i]);
    }
  }

  /** A name that is alone may change its blob, size and capacity. */
  lemma AloneChanges(metas: seq<Meta>, i: nat, m: Meta)
    requires Consistent(metas) && i < |metas| && Alone(metas, i) && Wf(m) && m.cell == metas[i].cell
    requires m.data == metas[i].data || m.data == null || m.data !in Blobs(metas)
    ensures var t := metas[i := m];
      && Consistent(t) && Alone(t, i) && CellSeq(t) == CellSeq(metas) && Cells(t) == Cells(metas)
      && Blobs(t) == Blobs(metas) - (if metas[i].data == null then {} else {metas[i].data})
        + (if m.data == null then {} else {m.data})
  {
    var t := metas[i := m];
    forall j | 0 <= j < |metas| ensures Wf(t[j]) && (metas[j].data != null ==> metas[j].data in Blobs(metas)) {
      assert Wf(metas[j]);
    }
    forall j, k | 0 <= j < k < |t| ensures Agree(t[j], t[k]) { assert Agree(metas[j], metas[k]); }
    AloneSets(metas, i, m);
  }

  lemma AloneSets(metas: seq<Meta>, i: nat, m: Meta)
    requires i < |metas| && Alone(metas, i) && m.cell == metas[i].cell
    ensures var t := metas[i := m];
      && Cells(t) == Cells(metas)
      && Blobs(t) == Blobs(metas) - (if metas[i].data == null then {} else {metas[i].data})
        + (if m.data == null then {} else {m.data})
  {
    var t := metas[i := m];
    assert forall j :: 0 <= j < |t| && j != i ==> t[j] == metas[j];
    assert t[i] == m;
    forall c | c in Cells(metas) ensures c in Cells(t) {
      var j :| 0 <= j < |metas| && metas[j].cell == c;
      assert t[j].cell == c;
    }
    forall b | b in Blobs(metas) && b != metas[i].data ensures b in Blobs(t) {
      var j :| 0 <= j < |metas| && metas[j].data == b;
      assert t[j].data == b;
    }
  }

  /** Copy on write: a name that shares gets a blob and a count of its own. */
  lemma Detaches(metas: seq<Meta>, i: nat, m: Meta)
    requires Consistent(metas) && i < |metas| && metas[i].cell != null && Holders(metas, metas[i].cell) >= 2
    requires Wf(m) && m.cell != null && m.cell !in Cells(metas) && (m.data == null || m.data !in Blobs(metas))
    ensures var t, c := metas[i := m], metas[i].cell;
      && Consistent(t) && Alone(t, i)
      && Cells(t) == Cells(metas) + {m.cell} && Blobs(t) == Blobs(metas) + (if m.data == null then {} else {m.data})
      && multiset(CellSeq(t)) == multiset(CellSeq(metas)) - multiset{c} + multiset{m.cell}
  {
    var t := metas[i := m];
    CellSeqUpdate(metas, i, m);
    forall j | 0 <= j < |metas|
      ensures Wf(t[j]) && (metas[j].cell != null ==> metas[j].cell in Cells(metas))
        && (metas[j].data != null ==> metas[j].data in Blobs(metas))
    { assert Wf(metas[j]); }
    forall j, k | 0 <= j < k < |t| ensures Agree(t[j], t[k]) { assert Agree(metas[j], metas[k]); }
    DetachSets(metas, i, m);
  }

  lemma DetachSets(metas: seq<Meta>, i: nat, m: Meta)
    requires Consistent(metas) && i < |metas| && metas[i].cell != null && Holders(metas, metas[i].cell) >= 2
      && m.cell != null
    ensures var t := metas[i := m];
      Cells(t) == Cells(metas) + {m.cell} && Blobs(t) == Blobs(metas) + (if m.data == null then {} else {m.data})
  {
    var t := metas[i := m];
    var o := OtherHolder(CellSeq(metas), metas[i].cell, i);
    assert Agree(metas[if i < o then i else o], metas[if i < o then o else i]);
    assert t[o] == metas[o] && t[i] == m;
    forall c | c in Cells(metas) ensures c in Cells(t) {
      var j :| 0 <= j < |metas| && metas[j].cell == c;
      assert t[if j == i then o else j].cell == c;
    }
    forall b | b in Blobs(metas) ensures b in Blobs(t) {
      var j :| 0 <= j < |metas| && metas[j].data == b;
      assert t[if j == i then o else j].data == b;
    }
  }

  /** The first link gives the target a count. */
  lemma Counts(metas: seq<Meta>, i: nat, c: Cell)
    requires Consistent(metas) && i < |metas| && metas[i].cell == null && c !in Cells(metas)
    ensures var t := metas[i := metas[i].(cell := c)];
      && Consistent(t) && Cells(t) == Cells(metas) + {c} && Blobs(t) == Blobs(metas)
      && multiset(CellSeq(t)) == multiset(CellSeq(metas)) - multiset{null} + multiset{c}
  {
    var m := metas[i].(cell := c);
    var t := metas[i := m];
    CellSeqUpdate(metas, i, m);
    AloneWhen(metas, i);
    forall j | 0 <= j < |metas| ensures Wf(t[j]) && (metas[j].cell != null ==> metas[j].cell in Cells(metas)) {
      assert Wf(metas[j]);
    }
    forall j, k | 0 <= j < k < |t| ensures Agree(t[j], t[k]) { assert Agree(metas[j], metas[k]); }
    assert forall j :: 0 <= j < |t| && j != i ==> t[j] == metas[j];
    assert t[i] == m;
    forall d | d in Cells(metas) ensures d in Cells(t) {
      var j :| 0 <= j < |metas| && metas[j].cell == d;
      assert t[j].cell == d;
    }
    forall b | b in Blobs(metas) ensures b in Blobs(t) {
      var j :| 0 <= j < |metas| && metas[j].data == b;
      assert t[j].data == b;
    }
  }

  /** A new path changes nothing about blobs and counts. */
  lemma PathChanges(metas: seq<Meta>, i: nat, path: string)
    requires Consistent(metas) && i < |metas|
    ensures var t := metas[i := metas[i].(path := path)];
      Consistent(t) && CellSeq(t) == CellSeq(metas) && Cells(t) == Cells(metas) && Blobs(t) == Blobs(metas)
  {
    var t := metas[i := metas[i].(path := path)];
    forall j | 0 <= j < |metas| ensures Wf(t[j]) && t[j].cell == metas[j].cell && t[j].data == metas[j].data {
      assert Wf(metas[j]);
    }
    forall j, k | 0 <= j < k < |t| ensures Agree(t[j], t[k]) { assert Agree(metas[j], metas[k]); }
    forall c | c in Cells(metas) ensures c in Cells(t) {
      var j :| 0 <= j < |metas| && metas[j].cell == c;
      assert t[j].cell == c;
    }
    forall b | b in Blobs(metas) ensures b in Blobs(t) {
      var j :| 0 <= j < |metas| && metas[j].data == b;
      assert t[j].data == b;
    }
  }

  /** A new name at the head that shares with name i, or holds nothing. */
  lemma Joins(metas: seq<Meta>, m: Meta)
    requires Consistent(metas) && Wf(m)
    requires (m.cell == null && m.data == null) || exists i :: 0 <= i < |metas| && Twin(m, metas[i])
    ensures var t := [m] + metas;
      && Consistent(t) && Cells(t) == Cells(metas) && Blobs(t) == Blobs(metas)
      && multiset(CellSeq(t)) == multiset(CellSeq(metas)) + multiset{m.cell}
  {
    var t := [m] + metas;
    assert CellSeq(t) == [m.cell] + CellSeq(metas);
    forall j, k | 0 <= j < k < |t| ensures Agree(t[j], t[k]) {
      if j > 0 { assert Agree(metas[j - 1], metas[k - 1]); } else { JoinAgrees(metas, m, k - 1); }
    }
    forall j | 0 <= j < |t| ensures Wf(t[j]) { if j > 0 { assert Wf(metas[j - 1]); } }
    JoinSets(metas, m);
  }

  lemma JoinSets(metas: seq<Meta>, m: Meta)
    requires (m.cell == null && m.data == null) || exists i :: 0 <= i < |metas| && Twin(m, metas[i])
    ensures Cells([m] + metas) == Cells(metas) && Blobs([m] + metas) == Blobs(metas)
  {
    assert forall x :: x in [m] + metas <==> x == m || x in metas;
  }

  ghost predicate Twin(m: Meta, n: Meta) {
    m.cell != null && m.cell == n.cell && m.data == n.data && m.size == n.size && m.capacity == n.capacity
  }

  lemma JoinAgrees(metas: seq<Meta>, m: Meta, k: nat)
    requires Consistent(metas) && k < |metas|
    requires (m.cell == null && m.data == null) || exists i :: 0 <= i < |metas| && Twin(m, metas[i])
    ensures Agree(m, metas[k])
  {
    if !(m.cell == null && m.data == null) {
      var i :| 0 <= i < |metas| && Twin(m, metas[i]);
      if i != k { assert Agree(metas[if i < k then i else k], metas[if i < k then k else i]); }
    }
  }

  /** A name goes; its blob goes with it when it was alone. */
  lemma Leaves(metas: seq<Meta>, i: nat)
    requires Consistent(metas) && i < |metas|
    ensures var t, m := Without(metas, i), metas[i];
      && Consistent(t)
      && multiset(CellSeq(t)) == multiset(CellSeq(metas)) - multiset{m.cell}
      && (Alone(metas, i) ==>
            && Cells(t) == Cells(metas) - (if m.cell == null then {} else {m.cell})
            && Blobs(t) == Blobs(metas) - (if m.data == null then {} else {m.data}))
      && (m.cell != null && Holders(metas, m.cell) >= 2 ==> Cells(t) == Cells(metas) && Blobs(t) == Blobs(metas))
  {
    var t := Without(metas, i);
    assert CellSeq(t) == CellSeq(metas)[..i] + CellSeq(metas)[i + 1..];
    assert CellSeq(metas) == CellSeq(metas)[..i] + [metas[i].cell] + CellSeq(metas)[i + 1..];
    forall j | 0 <= j < |t| ensures t[j] == metas[if j < i then j else j + 1] && Wf(t[j]) { }
    forall j, k | 0 <= j < k < |t| ensures Agree(t[j], t[k]) {
      assert Agree(metas[if j < i then j else j + 1], metas[if k < i then k else k + 1]);
    }
    LeaveSets(metas, i);
  }

  lemma Others(metas: seq<Meta>, i: nat)
    requires i < |metas|
    ensures forall j :: 0 <= j < |metas| && j != i ==> metas[j] in Without(metas, i)
    ensures forall k :: 0 <= k < |metas| - 1 ==> Without(metas, i)[k] == metas[if k < i then k else k + 1]
  {
    var t := Without(metas, i);
    forall j | 0 <= j < |metas| && j != i ensures metas[j] in t { assert t[if j < i then j else j - 1] == metas[j]; }
  }

  lemma LeaveAlone(metas: seq<Meta>, i: nat)
    requires i < |metas| && Alone(metas, i)
    ensures Cells(Without(metas, i)) == Cells(metas) - (if metas[i].cell == null then {} else {metas[i].cell})
    ensures Blobs(Without(metas, i)) == Blobs(metas) - (if metas[i].data == null then {} else {metas[i].data})
  {
    Others(metas, i);
  }

  lemma LeaveShared(metas: seq<Meta>, i: nat)
    requires Consistent(metas) && i < |metas| && metas[i].cell != null && Holders(metas, metas[i].cell) >= 2
    ensures Cells(Without(metas, i)) == Cells(metas) && Blobs(Without(metas, i)) == Blobs(metas)
  {
    var o := OtherHolder(CellSeq(metas), metas[i].cell, i);
    assert Agree(metas[if i < o then i else o], metas[if i < o then o else i]);
    Others(metas, i);
  }

  lemma LeaveSets(metas: seq<Meta>, i: nat)
    requires Consistent(metas) && i < |metas|
    ensures var t, m := Without(metas, i), metas[i];
      && (Alone(metas, i) ==>
            && Cells(t) == Cells(metas) - (if m.cell == null then {} else {m.cell})
            && Blobs(t) == Blobs(metas) - (if m.data == null then {} else {m.data}))
      && (m.cell != null && Holders(metas, m.cell) >= 2 ==> Cells(t) == Cells(metas) && Blobs(t) == Blobs(metas))
  {
    if Alone(metas, i) { LeaveAlone(metas, i); }
    if metas[i].cell != null && Holders(metas, metas[i].cell) >= 2 { LeaveShared(metas, i); }
  }

  // ---- what a write means --------------------------------------------------------------------

  /** Bytes after writing buf at offset: it is there, the rest is as before, and the end moves
      out to cover it. Bytes between an old end and a later offset are left open. */
  ghost predicate Written(was: seq<byte>, offset: nat, buf: seq<byte>, now: seq<byte>) {
    && |now| == (if offset + |buf| > |was| then offset + |buf| else |was|)
    && now[offset..offset + |buf|] == buf
    && forall k :: 0 <= k < |was| && !(offset <= k < offset + |buf|) ==> now[k] == was[k]
  }

  /** A copy into a blob is a write, with the size moved out to cover it. */
  lemma CopyIsWrite(was: seq<byte>, now: seq<byte>, used: nat, offset: nat, buf: seq<byte>)
    requires |was| == |now| && used <= |was| && offset + |buf| <= |was|
    requires forall k :: 0 <= k < |now| ==> now[k] == if offset <= k < offset + |buf| then buf[k - offset] else was[k]
    ensures Written(was[..used], offset, buf, now[..if offset + |buf| > used then offset + |buf| else used])
  {
  }

  /** Without a gap nothing is left open. */
  lemma WrittenExactly(was: seq<byte>, offset: nat, buf: seq<byte>, now: seq<byte>)
    requires offset <= |was|
    ensures Written(was, offset, buf, now) <==>
            now == was[..offset] + buf + (if offset + |buf| <= |was| then was[offset + |buf|..] else [])
  {
    var end := offset + |buf|;
    var rest := if end <= |was| then was[end..] else [];
    var x := was[..offset] + buf + rest;
    assert x[offset..end] == buf;
    if Written(was, offset, buf, now) {
      assert |now| == |x|;
      forall k | 0 <= k < |now| ensures now[k] == x[k] {
        if offset <= k < end { assert now[k] == now[offset..end][k - offset]; }
      }
    }
  }

  /** The overflow check catches exactly the sums that wrap. */
  lemma Wraps(offset: nat, count: nat)
    requires offset < U32 && count < U32
    ensures (offset + count) % U32 < offset <==> offset + count >= U32
    ensures offset + count < U32 ==> (offset + count) % U32 == offset + count
  {
  }

  /** An unsigned 32-bit count returned as int. */
  function ToInt(n: nat): int { if n >= HALF then n - U32 else n }

  /** Bytes after setting the length: cut, or extended with zeros. */
  function Truncated(was: seq<byte>, length: nat): seq<byte> {
    if length <= |was| then was[..length] else was + Zeros(length - |was|)
  }

  function Zeros(n: nat): seq<byte> { seq(n, _ => 0) }

  lemma ExtendIs(was: seq<byte>, length: nat, now: seq<byte>)
    requires length > |was| && Written(was, |was|, Zeros(length - |was|), now)
    ensures now == Truncated(was, length)
  {
    WrittenExactly(was, |was|, Zeros(length - |was|), now);
    assert was[..|was|] == was;
  }

  /** Cut or extended to a length: what was there as far as it goes, then zeros. */
  lemma TruncatedAt(was: seq<byte>, length: nat)
    ensures |Truncated(was, length)| == length
    ensures forall k :: 0 <= k < length ==> Truncated(was, length)[k] == if k < |was| then was[k] else 0
  {
  }

  // ---- names -----------------------------------------------------------------------------------

  /** The position of a name, |view| when there is none. */
  function FindName(view: seq<Entry>, path: string): (i: nat)
    ensures i <= |view| && (i < |view| ==> view[i].path == path)
    ensures forall j :: 0 <= j < i ==> view[j].path != path
  {
    if view == [] then 0
    else if view[0].path == path then 0
    else
      var k := FindName(view[1..], path);
      assert forall j :: 1 <= j < 1 + k ==> view[j] == view[1..][j - 1];
      1 + k
  }

  predicate Absolute(path: string) { path != "" && path[0] == '/' }

  /** The store as a map from names to what they hold. */
  function Lookup(view: seq<Entry>, path: string): Option<Entry> {
    var i := FindName(view, path);
    if i < |view| then Some(view[i]) else None
  }

  lemma FindIs(view: seq<Entry>, i: nat)
    requires UniquePaths(view) && i < |view|
    ensures FindName(view, view[i].path) == i
  {
  }

  lemma NoName(view: seq<Entry>, path: string)
    requires forall i :: 0 <= i < |view| ==> view[i].path != path
    ensures Lookup(view, path) == None
  {
  }

  /** Writing through one name changes that name only, however many names share its blob. */
  lemma WriteLookup(view: seq<Entry>, i: nat, bytes: seq<byte>, path: string)
    requires UniquePaths(view) && i < |view|
    ensures UniquePaths(view[i := view[i].(bytes := bytes)])
    ensures Lookup(view[i := view[i].(bytes := bytes)], path) ==
            if path == view[i].path then Some(view[i].(bytes := bytes)) else Lookup(view, path)
  {
    var t := view[i := view[i].(bytes := bytes)];
    assert forall j :: 0 <= j < |t| ==> t[j].path == view[j].path;
    assert UniquePaths(t);
    var j := FindName(view, path);
    if j < |view| {
      assert t[j].path == path;
      FindIs(t, j);
      FindIs(view, j);
    } else {
      NoName(t, path);
    }
  }

  /** A new name adds itself only. */
  lemma AddLookup(view: seq<Entry>, e: Entry, path: string)
    requires UniquePaths(view) && Lookup(view, e.path) == None
    ensures UniquePaths([e] + view)
    ensures Lookup([e] + view, path) == if path == e.path then Some(e) else Lookup(view, path)
  {
    var t := [e] + view;
    assert forall j :: 1 <= j < |t| ==> t[j] == view[j - 1];
    assert t[1..] == view;
  }

  /** Names stay in order when one is added, removed or written: only a rename can break them. */
  lemma NamesAdded(view: seq<Entry>, e: Entry)
    requires e.path != "/" && FindName(view, e.path) == |view|
    ensures Names(view) ==> Names([e] + view)
  {
    if Names(view) { AddLookup(view, e, e.path); }
  }

  lemma NamesRemoved(view: seq<Entry>, i: nat)
    requires i < |view|
    ensures Names(view) ==> Names(Without(view, i))
  {
    if Names(view) { RemoveLookup(view, i, ""); }
  }

  lemma NamesWritten(view: seq<Entry>, i: nat, bytes: seq<byte>)
    requires i < |view|
    ensures Names(view[i := view[i].(bytes := bytes)]) <==> Names(view)
  {
    var t := view[i := view[i].(bytes := bytes)];
    assert forall j :: 0 <= j < |t| ==> t[j].path == view[j].path;
  }

  /** Removing a name removes that name only. */
  lemma RemoveLookup(view: seq<Entry>, i: nat, path: string)
    requires UniquePaths(view) && i < |view|
    ensures UniquePaths(Without(view, i))
    ensures Lookup(Without(view, i), path) == if path == view[i].path then None else Lookup(view, path)
  {
    var t := Without(view, i);
    assert forall j :: 0 <= j < |t| ==> t[j] == view[if j < i then j else j + 1];
    assert UniquePaths(t);
    var j := FindName(view, path);
    if j == i || j == |view| {
      NoName(t, path);
    } else {
      var j' := if j < i then j else j - 1;
      assert t[j'] == view[j];
      FindIs(t, j');
    }
  }
}
