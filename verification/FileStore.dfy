/** The node list with shared, counted data blobs, and the operations that write through it.
    Every operation is proved against the plain list of names and bytes that users see. */
module FileStore {
  import opened Basics
  import opened StoreSpec

  class Node {
    var path: string
    const kind: Kind
    const ino: nat
    var data: array?<byte>
    var size: nat
    var capacity: nat
    var dataRefs: Cell?
    var next: Node?

    constructor (path: string, kind: Kind, ino: nat)
      ensures this.path == path && this.kind == kind && this.ino == ino && data == null && size == 0 && capacity == 0
        && dataRefs == null
    {
      this.path, this.kind, this.ino := path, kind, ino;
      data, size, capacity, dataRefs, next := null, 0, 0, null, null;
    }

    ghost function Meta(): Meta
      reads this`path, this`data, this`size, this`capacity, this`dataRefs
    {
      StoreSpec.Meta(path, kind, ino, data, size, capacity, dataRefs)
    }
  }

  ghost predicate Mirror(list: seq<Node>, metas: seq<Meta>, i: nat)
    requires i < |list| == |metas|
    reads list`path, list`data, list`size, list`capacity, list`dataRefs
  {
    list[i].Meta() == metas[i]
  }

  ghost predicate NextIs(list: seq<Node>, i: nat)
    requires i < |list|
    reads list`next
  {
    list[i].next == if i + 1 < |list| then list[i + 1] else null
  }

  ghost function Bytes(m: Meta): seq<byte>
    reads m.data
  {
    if m.data == null || m.size > m.data.Length then [] else m.data[..m.size]
  }

  ghost predicate Shows(m: Meta, e: Entry)
    reads m.data
  {
    e == Entry(m.path, m.kind, m.ino, Bytes(m))
  }

  ghost predicate AllShow(metas: seq<Meta>, view: seq<Entry>, blobs: set<array<byte>>)
    reads blobs
  {
    |view| == |metas| && forall i :: 0 <= i < |metas| ==>
      (metas[i].data != null ==> metas[i].data in blobs) && Shows(metas[i], view[i])
  }

  ghost predicate AllCounted(metas: seq<Meta>, cells: set<Cell>)
    reads cells
  {
    cells == Cells(metas) && forall c :: c in cells ==> c.count == multiset(CellSeq(metas))[c]
  }

  lemma NotHeld(metas: seq<Meta>, c: Cell)
    requires c !in Cells(metas)
    ensures c !in CellSeq(metas)
  {
    forall j | 0 <= j < |metas| ensures CellSeq(metas)[j] != c { assert metas[j] in metas; }
  }

  lemma Recounted(metas: seq<Meta>, i: nat, m: Meta, cells: set<Cell>)
    requires Consistent(metas) && i < |metas| && metas[i].cell != null && cells == Cells(metas)
    requires forall c :: c in cells ==> c.count + (if c == metas[i].cell then 1 else 0) == Holders(metas, c)
    requires m.cell != null && m.cell !in cells && m.cell.count == 1 && Cells(metas[i := m]) == cells + {m.cell}
    ensures AllCounted(metas[i := m], cells + {m.cell})
  {
    CellSeqUpdate(metas, i, m);
    NotHeld(metas, m.cell);
    assert metas[i].cell in CellSeq(metas) by { assert CellSeq(metas)[i] == metas[i].cell; }
  }

  /** Entry i changes with name i. */
  lemma ShownAt(metas: seq<Meta>, view: seq<Entry>, i: nat, m: Meta, e: Entry, blobs': set<array<byte>>)
    requires i < |metas| == |view| && Shows(m, e) && (m.data != null ==> m.data in blobs')
    requires forall j :: 0 <= j < |metas| && j != i ==>
      (metas[j].data != null ==> metas[j].data in blobs') && Shows(metas[j], view[j])
    ensures AllShow(metas[i := m], view[i := e], blobs')
  {
  }

  lemma ShownFirst(metas: seq<Meta>, view: seq<Entry>, m: Meta, e: Entry, blobs: set<array<byte>>)
    requires AllShow(metas, view, blobs) && Shows(m, e) && (m.data != null ==> m.data in blobs)
    ensures AllShow([m] + metas, [e] + view, blobs)
  {
  }

  lemma ShownWithout(metas: seq<Meta>, view: seq<Entry>, i: nat, blobs: set<array<byte>>, blobs': set<array<byte>>)
    requires i < |metas| && AllShow(metas, view, blobs) && blobs' == Blobs(Without(metas, i))
    ensures AllShow(Without(metas, i), Without(view, i), blobs')
  {
    var t := Without(metas, i);
    forall j | 0 <= j < |t| ensures (t[j].data != null ==> t[j].data in blobs') && Shows(t[j], Without(view, i)[j]) {
      assert t[j] in t;
      assert Shows(metas[if j < i then j else j + 1], view[if j < i then j else j + 1]);
    }
  }

  /** One more name holding the blob counted by m.cell, or none at all. */
  lemma CountedFirst(metas: seq<Meta>, m: Meta, cells: set<Cell>)
    requires cells == Cells(metas) == Cells([m] + metas)
    requires multiset(CellSeq([m] + metas)) == multiset(CellSeq(metas)) + multiset{m.cell}
    requires forall c :: c in cells ==> c.count == Holders(metas, c) + if c == m.cell then 1 else 0
    ensures AllCounted([m] + metas, cells)
  {
  }

  /** A holder that is not alone is one of at least two. */
  lemma NotAlone(metas: seq<Meta>, i: nat)
    requires Consistent(metas) && i < |metas|
    ensures metas[i].cell != null ==> Holders(metas, metas[i].cell) >= 1
    ensures Alone(metas, i) <==> metas[i].cell == null || Holders(metas, metas[i].cell) <= 1
  {
    var c := metas[i].cell;
    if c != null {
      assert CellSeq(metas)[i] == c;
      if Holders(metas, c) >= 2 { var j := OtherHolder(CellSeq(metas), c, i); }
    }
    if c == null || Holders(metas, c) <= 1 { AloneWhen(metas, i); }
  }

  /** What leaves with name i when its blob is counted. */
  ghost predicate Left(metas: seq<Meta>, i: nat)
    requires i < |metas|
  {
    var t, m := Without(metas, i), metas[i];
    && multiset(CellSeq(t)) == multiset(CellSeq(metas)) - multiset{m.cell}
    && (m.data != null ==> m.data in Blobs(metas))
    && (m.cell == null ==> Cells(t) == Cells(metas))
    && (m.cell != null ==>
          && m.cell in Cells(metas) && Holders(metas, m.cell) >= 1
          && Cells(t) == (if Holders(metas, m.cell) == 1 then Cells(metas) - {m.cell} else Cells(metas))
          && Blobs(t) == (if Holders(metas, m.cell) == 1 && m.data != null then Blobs(metas) - {m.data}
            else Blobs(metas)))
  }

  lemma Released(metas: seq<Meta>, i: nat)
    requires Consistent(metas) && i < |metas|
    ensures Consistent(Without(metas, i)) && Left(metas, i)
    ensures metas[i].cell == null ==>
      Blobs(Without(metas, i)) == Blobs(metas) - if metas[i].data == null then {} else {metas[i].data}
  {
    Leaves(metas, i);
    NotAlone(metas, i);
  }

  /** A blob goes exactly with its last name. */
  lemma FreedExactly(metas: seq<Meta>, i: nat)
    requires Consistent(metas) && i < |metas|
    ensures metas[i].data != null ==> (metas[i].data !in Blobs(Without(metas, i)) <==> Alone(metas, i))
  {
    Released(metas, i);
    NotAlone(metas, i);
  }

  /** One name less. */
  lemma CountedWithout(metas: seq<Meta>, i: nat, cells: set<Cell>, cells': set<Cell>)
    requires i < |metas| && cells == Cells(metas) && cells' == Cells(Without(metas, i)) && cells' <= cells
    requires multiset(CellSeq(Without(metas, i))) == multiset(CellSeq(metas)) - multiset{metas[i].cell}
    requires forall c :: c in cells' ==> c.count + (if c == metas[i].cell then 1 else 0) == Holders(metas, c)
    ensures AllCounted(Without(metas, i), cells')
  {
    assert metas[i].cell in CellSeq(metas) by { assert CellSeq(metas)[i] == metas[i].cell; }
  }

  /** The target of a first link gets a count of one. */
  lemma CountedNew(metas: seq<Meta>, i: nat, c: Cell, cells: set<Cell>)
    requires AllCounted(metas, cells) && i < |metas| && metas[i].cell == null && c !in cells && c.count == 1
    requires Cells(metas[i := metas[i].(cell := c)]) == cells + {c}
    ensures AllCounted(metas[i := metas[i].(cell := c)], cells + {c})
  {
    CellSeqUpdate(metas, i, metas[i].(cell := c));
    NotHeld(metas, c);
    assert null in CellSeq(metas) by { assert CellSeq(metas)[i] == null; }
  }

  class Store {
    const root: Node
    var nodes: Node?
    var nextIno: nat
    ghost var list: seq<Node>
    ghost var metas: seq<Meta>
    ghost var view: seq<Entry>             // what users see
    ghost var blobs: set<array<byte>>      // allocated and not freed
    ghost var cells: set<Cell>

    ghost predicate Chain()
      reads this, list`next
    {
      && Distinct(list) && root !in list && root.kind == Directory && root.ino == 1
      && nodes == (if list == [] then null else list[0])
      && forall i :: 0 <= i < |list| ==> NextIs(list, i)
    }

    ghost predicate Fields()
      reads this, list`path, list`data, list`size, list`capacity, list`dataRefs
    {
      |metas| == |list| && forall i :: 0 <= i < |list| ==> Mirror(list, metas, i)
    }

    /** The list, the counts and the blobs are in order, whatever the names: a rename can leave
        two of them equal. */
    ghost predicate Valid()
      reads this, list`next, list`path, list`data, list`size, list`capacity, list`dataRefs, blobs, cells
    {
      && Chain() && Fields() && Consistent(metas)
      && blobs == Blobs(metas) && AllCounted(metas, cells) && AllShow(metas, view, blobs)
    }

    constructor ()
      ensures Valid() && view == []
    {
      root := new Node("/", Directory, 1);
      nodes, nextIno := null, 2;
      list, metas, view, blobs, cells := [], [], [], {}, {};
    }

    // ---- copy on write --------------------------------------------------------------------

    /** Gives name i a blob nobody else holds. Users see nothing of it. */
    method DataCow(n: Node, ghost i: nat)
      requires Valid() && i < |list| && list[i] == n
      modifies this`metas, this`view, this`blobs, this`cells, n`data, n`size, n`capacity, n`dataRefs, cells
      ensures Valid() && view == old(view) && Alone(metas, i)
      ensures metas == old(metas)[i := metas[i]] && Same(metas[i], old(metas)[i])
      ensures fresh(blobs - old(blobs)) && fresh(cells - old(cells))
    {
      assert Mirror(list, metas, i);
      if n.dataRefs == null || n.dataRefs.count <= 1 {
        AloneWhen(metas, i);
        return;
      }
      n.dataRefs.count := n.dataRefs.count - 1;
      Detach(n, i);
    }

    /** The share is given up already: a blob with the same bytes, and a count of one. */
    method Detach(n: Node, ghost i: nat)
      requires Given(i) && list[i] == n
      modifies this`metas, this`view, this`blobs, this`cells, n`data, n`size, n`capacity, n`dataRefs
      ensures Valid() && view == old(view) && Alone(metas, i)
      ensures metas == old(metas)[i := metas[i]] && Same(metas[i], old(metas)[i])
      ensures fresh(blobs - old(blobs)) && fresh(cells - old(cells))
    {
      var data := CopyFor(n, i);
      var refs := Replace(n, i, data);
    }

    method CopyFor(n: Node, ghost i: nat) returns (data: array?<byte>)
      requires Given(i) && list[i] == n
      ensures Given(i) && (data != null ==> fresh(data))
      ensures Wf(metas[i].(data := data)) && Shows(metas[i].(data := data), view[i])
    {
      assert Mirror(list, metas, i) && Wf(metas[i]) && Shows(metas[i], view[i]);
      data := null;
      if n.capacity > 0 { data := CopyBlob(n.data, n.size, n.capacity); }
      assert Bytes(metas[i].(data := data)) == Bytes(metas[i]);
    }

    /** Name i has given up its share of the count, and nothing else has happened yet. */
    ghost predicate Given(i: nat)
      reads this, list`next, list`path, list`data, list`size, list`capacity, list`dataRefs, blobs, cells
    {
      && Chain() && Fields() && Consistent(metas) && i < |list|
      && blobs == Blobs(metas) && cells == Cells(metas) && AllShow(metas, view, blobs)
      && metas[i].cell != null && Holders(metas, metas[i].cell) >= 2
      && forall c :: c in cells ==> c.count + (if c == metas[i].cell then 1 else 0) == Holders(metas, c)
    }

    method Replace(n: Node, ghost i: nat, data: array?<byte>) returns (refs: Cell)
      requires Given(i) && list[i] == n && (data == null || data !in blobs)
      requires Wf(metas[i].(data := data)) && Shows(metas[i].(data := data), view[i])
      modifies this`metas, this`view, this`blobs, this`cells, n`data, n`size, n`capacity, n`dataRefs
      ensures Valid() && view == old(view) && Alone(metas, i)
      ensures metas == old(metas)[i := old(metas)[i].(data := data, cell := refs)]
      ensures blobs == old(blobs) + (if data == null then {} else {data}) && cells == old(cells) + {refs} && fresh(refs)
    {
      refs := NewCell(i);
      Swap(n, i, data, refs);
    }

    method NewCell(ghost i: nat) returns (refs: Cell)
      requires Given(i)
      ensures Given(i) && fresh(refs) && refs.count == 1
    {
      refs := new Cell(1);
    }

    method Swap(n: Node, ghost i: nat, data: array?<byte>, refs: Cell)
      requires Given(i) && list[i] == n && refs !in cells && refs.count == 1 && (data == null || data !in blobs)
      requires Wf(metas[i].(data := data)) && Shows(metas[i].(data := data), view[i])
      modifies this`metas, this`view, this`blobs, this`cells, n`data, n`size, n`capacity, n`dataRefs
      ensures Valid() && view == old(view) && Alone(metas, i)
      ensures metas == old(metas)[i := old(metas)[i].(data := data, cell := refs)]
      ensures blobs == old(blobs) + (if data == null then {} else {data}) && cells == old(cells) + {refs}
    {
      ReplaceFacts(i, data, refs);
      ghost var blobs' := blobs + if data == null then {} else {data};
      Substitute(n, i, data, refs, cells + {refs}, blobs');
      Settle(view, cells + {refs}, blobs');
    }

    /** Overwriting a node's data and count, with the facts about its new record. */
    method Substitute(n: Node, ghost i: nat, data: array?<byte>, refs: Cell, ghost cells': set<Cell>,
                      ghost blobs': set<array<byte>>)
      requires Chain() && Fields() && i < |list| && list[i] == n && n.size == metas[i].size
        && n.capacity == metas[i].capacity
      requires AllCounted(metas[i := metas[i].(data := data, cell := refs)], cells')
      requires AllShow(metas[i := metas[i].(data := data, cell := refs)], view, blobs')
      modifies this`metas, n`data, n`size, n`capacity, n`dataRefs
      ensures Chain() && Fields() && metas == old(metas)[i := old(metas)[i].(data := data, cell := refs)]
      ensures AllCounted(metas, cells') && AllShow(metas, view, blobs')
    {
      Install(n, i, data, n.size, n.capacity, refs);
    }

    lemma ReplaceFacts(i: nat, data: array?<byte>, refs: Cell)
      requires Given(i) && refs !in cells && refs.count == 1 && (data == null || data !in blobs)
      requires Wf(metas[i].(data := data)) && Shows(metas[i].(data := data), view[i])
      ensures var t := metas[i := metas[i].(data := data, cell := refs)];
        var blobs' := blobs + if data == null then {} else {data};
        && Consistent(t) && Alone(t, i) && blobs' == Blobs(t)
        && AllCounted(t, cells + {refs}) && AllShow(t, view, blobs')
      ensures list[i].size == metas[i].size && list[i].capacity == metas[i].capacity
    {
      var m := metas[i].(data := data, cell := refs);
      assert Mirror(list, metas, i);
      assert Wf(m) && Shows(m, view[i]);
      Detaches(metas, i, m);
      Recounted(metas, i, m, cells);
      ShownAt(metas, view, i, m, view[i], blobs + if data == null then {} else {data});
      assert view[i := view[i]] == view;
    }

    /** The books are brought up to date. */
    ghost method Settle(view': seq<Entry>, cells': set<Cell>, blobs': set<array<byte>>)
      requires Chain() && Fields() && Consistent(metas)
      requires blobs' == Blobs(metas) && AllCounted(metas, cells') && AllShow(metas, view', blobs')
      modifies this`view, this`cells, this`blobs
      ensures Valid() && view == view' && cells == cells' && blobs == blobs'
    {
      view, cells, blobs := view', cells', blobs';
    }

    /** The node's blob fields are overwritten. */
    method Install(n: Node, ghost i: nat, data: array?<byte>, size: nat, capacity: nat, refs: Cell?)
      requires Chain() && Fields() && i < |list| && list[i] == n
      modifies this`metas, n`data, n`size, n`capacity, n`dataRefs
      ensures Chain() && Fields()
      ensures metas == old(metas)[i := old(metas)[i].(data := data, size := size, capacity := capacity, cell := refs)]
    {
      n.data, n.size, n.capacity, n.dataRefs := data, size, capacity, refs;
      metas := metas[i := metas[i].(data := data, size := size, capacity := capacity, cell := refs)];
      forall j | 0 <= j < |list| ensures Mirror(list, metas, j) {
        assert old(Mirror(list, metas, j)) && (j != i ==> list[j] != list[i]);
      }
      forall j | 0 <= j < |list| ensures NextIs(list, j) { assert old(NextIs(list, j)); }
    }

    method CopyBlob(from: array?<byte>, size: nat, capacity: nat) returns (data: array<byte>)
      requires capacity > 0 && size <= capacity && if from == null then size == 0 else size <= from.Length
      ensures fresh(data) && data.Length == capacity && data[..size] == if from == null then [] else from[..size]
    {
      data := new byte[capacity];
      for k := 0 to size
        invariant forall j :: 0 <= j < k ==> data[j] == from[j]
      {
        data[k] := from[k];
      }
    }

    // ---- write and truncate ---------------------------------------------------------------

    /** At least `required` bytes of room; the bytes in use move along. */
    method Grow(n: Node, ghost i: nat, required: nat)
      requires Valid() && i < |list| && list[i] == n && Alone(metas, i) && n.capacity < required <= HALF
      modifies this`metas, this`view, this`blobs, this`cells, n`data, n`size, n`capacity, n`dataRefs
      ensures Valid() && view == old(view) && Alone(metas, i) && cells == old(cells)
      ensures metas == old(metas)[i := metas[i]]
      ensures metas[i].path == old(metas)[i].path && metas[i].kind == old(metas)[i].kind
        && metas[i].size == old(metas)[i].size
      ensures metas[i].cell == old(metas)[i].cell && metas[i].capacity >= required && fresh(metas[i].data)
      ensures blobs == old(blobs) - (if old(n.data) == null then {} else {old(n.data)}) + {metas[i].data}
    {
      assert Mirror(list, metas, i) && Wf(metas[i]) && Shows(metas[i], view[i]);
      var capacity := RoundUp(n.capacity, required);
      var data := CopyBlob(n.data, n.size, capacity);
      Exchange(n, i, data, n.size, capacity, view[i]);
    }

    method RoundUp(from: nat, required: nat) returns (capacity: nat)
      requires IsCap(from) && from < required <= HALF
      ensures IsCap(capacity) && required <= capacity <= HALF
    {
      TopCap();
      CapZero();
      capacity := if from == 0 then 256 else from;
      while capacity < required
        invariant capacity != 0 && IsCap(capacity) && capacity <= HALF
        decreases HALF - capacity
      {
        DoublesSafely(capacity, required);
        capacity := capacity * 2 % U32;
      }
    }

    /** A name that is alone exchanges its blob: the old one is freed, the new one already holds
        what users are to see. */
    method Exchange(n: Node, ghost i: nat, data: array<byte>, size: nat, capacity: nat, ghost e: Entry)
      requires Valid() && i < |list| && list[i] == n && Alone(metas, i) && data !in blobs
      requires var m := metas[i].(data := data, size := size, capacity := capacity); Wf(m) && Shows(m, e)
      requires e.path == view[i].path
      modifies this`metas, this`view, this`blobs, this`cells, n`data, n`size, n`capacity, n`dataRefs
      ensures Valid() && view == old(view)[i := e] && Alone(metas, i) && cells == old(cells)
      ensures metas == old(metas)[i := old(metas)[i].(data := data, size := size, capacity := capacity)]
      ensures blobs == old(blobs) - (if old(n.data) == null then {} else {old(n.data)}) + {data}
    {
      ghost var m, was := metas[i].(data := data, size := size, capacity := capacity), metas;
      assert Mirror(list, metas, i);
      AloneChanges(metas, i, m);
      ghost var blobs' := blobs - (if n.data == null then {} else {n.data}) + {data};
      assert forall j :: 0 <= j < |was| && j != i ==>
        Shows(was[j], view[j]) && (was[j].data != null ==> was[j].data in blobs');
      ShownAt(was, view, i, m, e, blobs');
      Install(n, i, data, size, capacity, n.dataRefs);
      Settle(view[i := e], cells, blobs');
    }

    /** Bytes go into the blob of a name that is alone; the size grows to cover them. */
    method Put(n: Node, ghost i: nat, offset: nat, buf: seq<byte>)
      requires Valid() && i < |list| && list[i] == n && Alone(metas, i) && offset + |buf| <= n.capacity
      modifies this`metas, this`view, this`blobs, this`cells, n`data, n`size, n`capacity, n`dataRefs, n.data
      ensures Valid() && blobs == old(blobs) && cells == old(cells) && Alone(metas, i)
      ensures view == old(view)[i := old(view)[i].(bytes := view[i].bytes)]
      ensures Written(old(view)[i].bytes, offset, buf, view[i].bytes)
    {
      assert Mirror(list, metas, i) && Wf(metas[i]) && Shows(metas[i], view[i]);
      Copy(n.data, offset, buf);
      forall j | 0 <= j < |metas| && j != i
        ensures Shows(metas[j], view[j]) && (metas[j].data != null ==> metas[j].data in blobs) {
        assert old(Shows(metas[j], view[j]));
      }
      if n.data != null { CopyIsWrite(old(n.data[..]), n.data[..], n.size, offset, buf); }
      var size := if offset + |buf| > n.size then offset + |buf| else n.size;
      Resize(n, i, size, view[i].(bytes := if n.data == null then [] else n.data[..size]));
    }

    /** The size of a name that is alone changes, and with it what users see. */
    method Resize(n: Node, ghost i: nat, size: nat, ghost e: Entry)
      requires Chain() && Fields() && Consistent(metas) && i < |list| && list[i] == n && Alone(metas, i)
      requires blobs == Blobs(metas) && AllCounted(metas, cells) && |view| == |metas|
      requires forall j :: 0 <= j < |metas| && j != i ==>
        Shows(metas[j], view[j]) && (metas[j].data != null ==> metas[j].data in blobs)
      requires var m := metas[i].(size := size); Wf(m) && Shows(m, e)
      requires e.path == view[i].path
      modifies this`metas, this`view, this`blobs, this`cells, n`data, n`size, n`capacity, n`dataRefs
      ensures Valid() && view == old(view)[i := e] && Alone(metas, i) && blobs == old(blobs) && cells == old(cells)
      ensures metas == old(metas)[i := old(metas)[i].(size := size)]
    {
      ghost var m, was := metas[i].(size := size), metas;
      assert Mirror(list, metas, i);
      AloneChanges(metas, i, m);
      ShownAt(was, view, i, m, e, blobs);
      Install(n, i, n.data, size, n.capacity, n.dataRefs);
      Settle(view[i := e], cells, blobs);
    }

    method Copy(data: array?<byte>, offset: nat, buf: seq<byte>)
      requires if data == null then offset + |buf| == 0 else offset + |buf| <= data.Length
      modifies data
      ensures data != null ==> forall k :: 0 <= k < data.Length ==>
                data[k] == if offset <= k < offset + |buf| then buf[k - offset] else old(data[k])
    {
      for k := 0 to |buf|
        invariant data != null ==> forall j :: 0 <= j < data.Length ==>
                    data[j] == if offset <= j < offset + k then buf[j - offset] else old(data[j])
      {
        data[offset + k] := buf[k];
      }
    }

    /** write: through a name the program holds open. */
    method Write(n: Node, ghost i: nat, offset: nat, buf: seq<byte>) returns (r: int)
      requires Valid() && i < |list| && list[i] == n && offset < U32 && |buf| < U32
      requires offset + |buf| <= HALF || offset + |buf| >= U32
      modifies this`metas, this`view, this`blobs, this`cells, n`data, n`size, n`capacity, n`dataRefs, cells, blobs
      ensures Valid() && list == old(list)
      ensures Names(old(view)) ==> Names(view)
      ensures r == if n.kind == Directory || offset + |buf| >= 0x1_0000_0000 then -1
                   else if |buf| < 0x8000_0000 then |buf| else |buf| - 0x1_0000_0000
      ensures n.kind == Directory || offset + |buf| >= U32 ==> view == old(view)
      ensures n.kind == Regular && offset + |buf| <= HALF ==>
                && view == old(view)[i := old(view)[i].(bytes := view[i].bytes)]
                && Written(old(view)[i].bytes, offset, buf, view[i].bytes)
    {
      Faces(i);
      if n.kind == Directory { return -1; }
      CowTwice(n, i);
      Faces(i);
      r := WriteAlone(n, i, offset, buf);
      NamesWritten(old(view), i, view[i].bytes);
    }

    method CowTwice(n: Node, ghost i: nat)
      requires Valid() && i < |list| && list[i] == n
      modifies this`metas, this`view, this`blobs, this`cells, n`data, n`size, n`capacity, n`dataRefs, cells
      ensures Valid() && view == old(view) && Alone(metas, i)
      ensures fresh(blobs - old(blobs)) && fresh(cells - old(cells))
    {
      DataCow(n, i);
      DataCow(n, i);
    }

    /** What a node's fields say about its value. */
    lemma Faces(i: nat)
      requires Valid() && i < |list|
      ensures list[i].Meta() == metas[i] && view[i] == Entry(list[i].path, list[i].kind, list[i].ino, Bytes(metas[i]))
      ensures list[i].data != null ==> list[i].data in blobs
    {
      assert Mirror(list, metas, i) && Shows(metas[i], view[i]);
    }

    method WriteAlone(n: Node, ghost i: nat, offset: nat, buf: seq<byte>) returns (r: int)
      requires Valid() && i < |list| && list[i] == n && Alone(metas, i) && offset < U32 && |buf| < U32
      requires offset + |buf| <= HALF || offset + |buf| >= U32
      modifies this`metas, this`view, this`blobs, this`cells, n`data, n`size, n`capacity, n`dataRefs, n.data
      ensures Valid() && cells == old(cells)
      ensures r == if offset + |buf| >= U32 then -1 else ToInt(|buf|)
      ensures offset + |buf| >= U32 ==> view == old(view)
      ensures offset + |buf| <= HALF ==>
                && view == old(view)[i := old(view)[i].(bytes := view[i].bytes)]
                && Written(old(view)[i].bytes, offset, buf, view[i].bytes)
    {
      var required := (offset + |buf|) % U32;
      Wraps(offset, |buf|);
      if required < offset { return -1; }
      MakeRoom(n, i, required);
      Put(n, i, offset, buf);
      r := ToInt(|buf|);
    }

    method Truncate(n: Node, ghost i: nat, length: nat) returns (r: int)
      requires Valid() && i < |list| && list[i] == n && length <= HALF
      modifies this`metas, this`view, this`blobs, this`cells, n`data, n`size, n`capacity, n`dataRefs, cells, blobs
      ensures Valid() && list == old(list)
      ensures Names(old(view)) ==> Names(view)
      ensures r == if n.kind == Directory then -1 else 0
      ensures view == if n.kind == Directory then old(view)
        else old(view)[i := old(view)[i].(bytes := Truncated(old(view)[i].bytes, length))]
    {
      Faces(i);
      if n.kind == Directory { return -1; }
      DataCow(n, i);
      Faces(i);
      NamesWritten(view, i, Truncated(view[i].bytes, length));
      TruncateAlone(n, i, length);
      r := 0;
    }

    method TruncateAlone(n: Node, ghost i: nat, length: nat)
      requires Valid() && i < |list| && list[i] == n && Alone(metas, i) && length <= HALF
      modifies this`metas, this`view, this`blobs, this`cells, n`data, n`size, n`capacity, n`dataRefs, n.data
      ensures Valid() && view == old(view)[i := old(view)[i].(bytes := Truncated(old(view)[i].bytes, length))]
    {
      Faces(i);
      if length < n.size {
        AllShown();
        Resize(n, i, length, view[i].(bytes := Truncated(view[i].bytes, length)));
        return;
      }
      if length == n.size {
        assert Truncated(view[i].bytes, length) == view[i].bytes;
        assert view == view[i := view[i]];
        return;
      }
      Extend(n, i, length);
    }

    method Extend(n: Node, ghost i: nat, length: nat)
      requires Valid() && i < |list| && list[i] == n && Alone(metas, i) && n.size < length <= HALF
      modifies this`metas, this`view, this`blobs, this`cells, n`data, n`size, n`capacity, n`dataRefs, n.data
      ensures Valid() && view == old(view)[i := old(view)[i].(bytes := Truncated(old(view)[i].bytes, length))]
    {
      Faces(i);
      assert Wf(metas[i]);
      ghost var was := view[i].bytes;
      var zeros := Zeros(length - n.size);
      MakeRoom(n, i, length);
      Put(n, i, n.size, zeros);
      ExtendIs(was, length, view[i].bytes);
    }

    method MakeRoom(n: Node, ghost i: nat, required: nat)
      requires Valid() && i < |list| && list[i] == n && Alone(metas, i) && required <= HALF
      modifies this`metas, this`view, this`blobs, this`cells, n`data, n`size, n`capacity, n`dataRefs
      ensures Valid() && view == old(view) && Alone(metas, i) && n.size == old(n.size) && n.capacity >= required
      ensures cells == old(cells)
      ensures n.data == old(n.data) || fresh(n.data)
    {
      if required > n.capacity {
        Faces(i);
        Grow(n, i, required);
        Faces(i);
      }
    }

    lemma AllShown()
      requires Valid()
      ensures forall j :: 0 <= j < |metas| ==>
        Shows(metas[j], view[j]) && (metas[j].data != null ==> metas[j].data in blobs)
    {
    }

    method Read(n: Node, ghost i: nat, offset: nat, count: nat) returns (r: int, bytes: seq<byte>)
      requires Valid() && i < |list| && list[i] == n
      ensures n.kind == Directory ==> r == -1 && bytes == []
      ensures n.kind == Regular ==>
                var was := view[i].bytes;
                bytes == (if offset >= |was| then []
                  else was[offset..if offset + count < |was| then offset + count else |was|])
                && r == (if |bytes| < 0x8000_0000 then |bytes| else |bytes| - 0x1_0000_0000)
    {
      Faces(i);
      assert Wf(metas[i]);
      if n.kind == Directory { return -1, []; }
      if offset >= n.size { return 0, []; }
      var available := n.size - offset;
      var some := if count > available then available else count;
      bytes := n.data[offset..offset + some];
      r := ToInt(some);
    }

    // ---- names -----------------------------------------------------------------------------

    method FindNode(path: string) returns (n: Node?)
      requires Valid()
      ensures path == "/" ==> n == root
      ensures path != "/" ==> var i := FindName(view, path); if i < |view| then n == list[i] else n == null
    {
      if path == "/" { return root; }
      n := nodes;
      ghost var i := 0;
      while n != null
        invariant i <= |list| && n == (if i < |list| then list[i] else null)
        invariant forall j :: 0 <= j < i ==> view[j].path != path
        decreases |list| - i
      {
        ShownPath(i);
        assert NextIs(list, i);
        if n.path == path { return; }
        n := n.next;
        i := i + 1;
      }
    }

    /** A node that holds nothing, or what name i holds, joins at the head. */
    method Prepend(n: Node, ghost e: Entry)
      requires Chain() && Fields() && Consistent(metas) && n !in list && n != root
      requires Consistent([n.Meta()] + metas) && blobs == Blobs([n.Meta()] + metas)
      requires AllCounted([n.Meta()] + metas, cells) && AllShow([n.Meta()] + metas, [e] + view, blobs)
      modifies this`nodes, this`list, this`metas, this`view, n`next
      ensures Valid() && view == [e] + old(view) && list == [n] + old(list)
    {
      n.next := nodes;
      nodes := n;
      ghost var was := list;
      list, metas, view := [n] + list, [n.Meta()] + metas, [e] + view;
      forall j | 0 <= j < |list| ensures Mirror(list, metas, j) {
        if j > 0 { assert old(Mirror(list, metas, j - 1)); }
      }
      forall j | 0 <= j < |list| ensures NextIs(list, j) {
        if j > 0 { assert old(NextIs(list, j - 1)); }
      }
    }

    /** A new name that holds nothing. */
    method AddEmpty(path: string, kind: Kind) returns (n: Node)
      requires Valid() && path != "/" && FindName(view, path) == |view|
      modifies this
      ensures Names(old(view)) ==> Names(view)
      ensures Valid() && fresh(n) && view == [Entry(path, kind, old(nextIno), [])] + old(view)
        && list == [n] + old(list)
    {
      n := new Node(path, kind, nextIno);
      ghost var e := Entry(path, kind, nextIno, []);
      NoneZero();
      Joins(metas, n.Meta());
      CountedFirst(metas, n.Meta(), cells);
      ShownFirst(metas, view, n.Meta(), e, blobs);
      NamesAdded(view, e);
      nextIno := nextIno + 1;
      Prepend(n, e);
    }

    /** open: an existing node, or a new empty file if asked for. */
    method Open(path: string, create: bool) returns (n: Node?)
      requires Valid()
      modifies this
      ensures Valid()
      ensures Names(old(view)) ==> Names(view)
      ensures path == "/" ==> n == root && view == old(view)
      ensures path != "/" && FindName(old(view), path) < |old(view)| ==>
        view == old(view) && n == list[FindName(old(view), path)]
      ensures path != "/" && FindName(old(view), path) == |old(view)| ==>
                if create && path != ""
                then view == [Entry(path, Regular, old(nextIno), [])] + old(view) && n == list[0]
                else view == old(view) && n == null
    {
      n := FindNode(path);
      if n != null { return; }
      if !create || path == "" { return; }
      n := AddEmpty(path, Regular);
    }

    method Mkdir(path: string) returns (r: int)
      requires Valid()
      modifies this
      ensures Valid()
      ensures Names(old(view)) ==> Names(view)
      ensures r == if path != "/" && FindName(old(view), path) == |old(view)| && path != "" && path[0] == '/'
                   then 0 else -1
      ensures view == if r == 0 then [Entry(path, Directory, old(nextIno), [])] + old(view) else old(view)
    {
      var n := FindNode(path);
      if n != null { return -1; }
      if path == "" || path[0] != '/' { return -1; }
      n := AddEmpty(path, Directory);
      r := 0;
    }

    /** link: the new name shares the target's blob. Users see a copy. */
    method Link(path: string, target: string) returns (r: int)
      requires Valid()
      modifies this, list`data, list`size, list`capacity, list`dataRefs, cells
      ensures Valid()
      ensures Names(old(view)) ==> Names(view)
      ensures var was := old(view); var i := FindName(was, target);
        && r == (if target != "/" && i < |was| && was[i].kind == Regular && path != "/" && FindName(was, path) == |was|
          && path != "" && path[0] == '/' then 0 else -1)
        && view == if r == 0 then [Entry(path, Regular, old(nextIno), was[i].bytes)] + was else was
    {
      var t := FindNode(target);
      ghost var i := FindName(view, target);
      if target != "/" && t != null { Faces(i); }
      if t == null || t.kind == Directory { return -1; }
      var n := FindNode(path);
      if n != null { return -1; }
      if path == "" || path[0] != '/' { return -1; }
      NamesAdded(view, Entry(path, Regular, nextIno, view[i].bytes));
      ShareAs(path, t, i);
      r := 0;
    }

    method ShareAs(path: string, t: Node, ghost i: nat)
      requires Valid() && i < |list| && list[i] == t && t.kind == Regular && path != "/"
        && FindName(view, path) == |view|
      modifies this, t`data, t`size, t`capacity, t`dataRefs, cells
      ensures Valid() && view == [Entry(path, Regular, old(nextIno), old(view)[i].bytes)] + old(view)
    {
      GiveCell(t, i);
      AddTwin(path, t, i);
    }

    method NewNode(path: string, kind: Kind) returns (n: Node)
      requires Valid()
      modifies this`nextIno
      ensures Valid() && fresh(n) && n.path == path && n.kind == kind && n.ino == old(nextIno)
    {
      n := new Node(path, kind, nextIno);
      nextIno := nextIno + 1;
    }

    method AddTwin(path: string, t: Node, ghost i: nat)
      requires Valid() && i < |list| && list[i] == t && t.kind == Regular && path != "/"
        && FindName(view, path) == |view|
      requires t.dataRefs != null
      modifies this, t.dataRefs
      ensures Valid() && view == [Entry(path, Regular, old(nextIno), old(view)[i].bytes)] + old(view)
    {
      var n := NewNode(path, t.kind);
      JoinShare(n, t, i);
    }

    /** A private blob gets a count, held once. */
    method GiveCell(t: Node, ghost i: nat)
      requires Valid() && i < |list| && list[i] == t
      modifies this`metas, this`view, this`blobs, this`cells, t`data, t`size, t`capacity, t`dataRefs
      ensures Valid() && view == old(view) && t.dataRefs != null && t.dataRefs in cells && fresh(cells - old(cells))
    {
      Faces(i);
      if t.dataRefs == null {
        var c := new Cell(1);
        Attach(t, i, c);
        Faces(i);
      }
      CellLive(i);
    }

    lemma CellLive(i: nat)
      requires Valid() && i < |list| && list[i].dataRefs != null
      ensures list[i].dataRefs in cells
    {
      assert Mirror(list, metas, i) && metas[i] in metas;
    }

    method Attach(t: Node, ghost i: nat, c: Cell)
      requires Valid() && i < |list| && list[i] == t && metas[i].cell == null && c !in cells && c.count == 1
      modifies this`metas, this`view, this`blobs, this`cells, t`data, t`size, t`capacity, t`dataRefs
      ensures Valid() && view == old(view) && cells == old(cells) + {c}
      ensures metas == old(metas)[i := old(metas)[i].(cell := c)]
    {
      Faces(i);
      ghost var m := metas[i].(cell := c);
      Counts(metas, i, c);
      CountedNew(metas, i, c, cells);
      ShownAt(metas, view, i, m, view[i], blobs);
      assert view[i := view[i]] == view;
      Install(t, i, t.data, t.size, t.capacity, c);
      Settle(view, cells + {c}, blobs);
    }

    method JoinShare(n: Node, t: Node, ghost i: nat)
      requires Valid() && i < |list| && list[i] == t && t.dataRefs != null && n !in list && n != root
      requires n.path != "/" && FindName(view, n.path) == |view| && n.kind == Regular
      modifies this, n, t.dataRefs
      ensures Valid() && view == [Entry(n.path, Regular, n.ino, old(view)[i].bytes)] + old(view)
      ensures n.path == old(n.path)
    {
      Faces(i);
      ghost var e, m := Entry(n.path, n.kind, n.ino, view[i].bytes),
        metas[i].(path := n.path, kind := n.kind, ino := n.ino);
      Twins(i, m, e);
      TakeShare(n, t, m, e);
      Prepend(n, e);
    }

    /** data_share: one more holder of the target's blob, about to join the list. */
    method TakeShare(n: Node, t: Node, ghost m: Meta, ghost e: Entry)
      requires Chain() && Fields() && t in list && n !in list && t.dataRefs != null && t.dataRefs in cells
      requires m == t.Meta().(path := n.path, kind := n.kind, ino := n.ino)
      requires AllShow([m] + metas, [e] + view, blobs)
      requires cells == Cells(metas) == Cells([m] + metas) && forall c :: c in cells ==> c.count == Holders(metas, c)
      requires multiset(CellSeq([m] + metas)) == multiset(CellSeq(metas)) + multiset{m.cell}
      modifies n`data, n`size, n`capacity, n`dataRefs, t.dataRefs
      ensures Chain() && Fields() && n.Meta() == m
      ensures AllCounted([m] + metas, cells) && AllShow([m] + metas, [e] + view, blobs)
    {
      t.dataRefs.count := t.dataRefs.count + 1;
      n.data, n.size, n.capacity, n.dataRefs := t.data, t.size, t.capacity, t.dataRefs;
      forall j | 0 <= j < |list| ensures Mirror(list, metas, j) { assert old(Mirror(list, metas, j)); }
      forall j | 0 <= j < |list| ensures NextIs(list, j) { assert old(NextIs(list, j)); }
      CountedFirst(metas, m, cells);
    }

    /** A name that holds what name i holds fits at the head. */
    lemma Twins(i: nat, m: Meta, e: Entry)
      requires Valid() && i < |list| && metas[i].cell != null
        && m == metas[i].(path := e.path, kind := e.kind, ino := e.ino)
      requires e.bytes == view[i].bytes && e.path != "/" && FindName(view, e.path) == |view|
      ensures Consistent([m] + metas) && blobs == Blobs([m] + metas)
        && AllShow([m] + metas, [e] + view, blobs)
      ensures cells == Cells(metas) == Cells([m] + metas) && forall c :: c in cells ==> c.count == Holders(metas, c)
      ensures multiset(CellSeq([m] + metas)) == multiset(CellSeq(metas)) + multiset{m.cell}
    {
      Faces(i);
      assert Wf(metas[i]) && Twin(m, metas[i]);
      Joins(metas, m);
      ShownFirst(metas, view, m, e, blobs);
      NoneZero();
    }

    lemma NoneZero()
      requires Valid()
      ensures IsCap(0) && forall c :: c in cells ==> c.count == Holders(metas, c)
    {
    }

    /** unlink: the name goes, and with the last name its blob. */
    method Unlink(path: string) returns (r: int)
      requires Valid()
      modifies this, list`next, list`data, list`dataRefs, cells
      ensures Valid()
      ensures Names(old(view)) ==> Names(view)
      ensures var i := FindName(old(view), path);
        if path != "/" && i < |old(view)| then r == 0 && view == Without(old(view), i) else r == -1 && view == old(view)
    {
      if path == "/" { return -1; }
      var prev: Node?, n := null, nodes;
      ghost var i := 0;
      while n != null
        invariant Valid() && unchanged(this)
        invariant i <= |list| && n == (if i < |list| then list[i] else null)
          && prev == (if i == 0 then null else list[i - 1])
        invariant forall j :: 0 <= j < i ==> view[j].path != path
        decreases |list| - i
      {
        Faces(i);
        assert NextIs(list, i);
        if n.path == path {
          NamesRemoved(view, i);
          Remove(prev, n, i);
          return 0;
        }
        prev := n;
        n := n.next;
        i := i + 1;
      }
      r := -1;
    }

    /** Node i goes: out of the list first, then its hold on the blob. */
    method Remove(prev: Node?, n: Node, ghost i: nat)
      requires Valid() && i < |list| && list[i] == n && prev == if i == 0 then null else list[i - 1]
      modifies this, list`next, n`data, n`dataRefs, n.dataRefs
      ensures Valid() && view == Without(old(view), i) && list == Without(old(list), i)
      ensures old(n.data) != null ==> (old(n.data) !in blobs <==> old(Alone(metas, i)))
    {
      ghost var was, shown, had := metas, view, blobs;
      Faces(i);
      FreedExactly(metas, i);
      Unchain(prev, n, i);
      LetGo(n, was, i);
      ShownWithout(was, shown, i, had, blobs);
      Settle(Without(shown, i), cells, blobs);
    }

    /** The hold of a node that has left the list. */
    method LetGo(n: Node, ghost was: seq<Meta>, ghost i: nat)
      requires Chain() && Fields() && n !in list && i < |was| && metas == Without(was, i) && n.Meta() == was[i]
      requires Consistent(was) && blobs == Blobs(was) && AllCounted(was, cells)
      modifies this`blobs, this`cells, n`data, n`dataRefs, n.dataRefs
      ensures Chain() && Fields() && Consistent(metas) && AllCounted(metas, cells) && blobs == Blobs(metas)
    {
      Released(was, i);
      var hadRefs, data := n.dataRefs != null, n.data;
      DataRelease(n, was, i);
      if !hadRefs && data != null { Free(data); }
    }

    method Unchain(prev: Node?, n: Node, ghost i: nat)
      requires Chain() && Fields() && i < |list| && list[i] == n && prev == if i == 0 then null else list[i - 1]
      modifies this`nodes, this`list, this`metas, list`next
      ensures Chain() && Fields() && list == Without(old(list), i) && metas == Without(old(metas), i)
      ensures n !in list
    {
      assert NextIs(list, i);
      if prev == null { nodes := n.next; } else { prev.next := n.next; }
      list, metas := Without(list, i), Without(metas, i);
      forall j | 0 <= j < |list| ensures NextIs(list, j) { assert old(NextIs(list, if j < i then j else j + 1)); }
      forall j | 0 <= j < |list| ensures Mirror(list, metas, j) {
        assert old(Mirror(list, metas, if j < i then j else j + 1));
      }
    }

    /** data_release: the last holder frees the blob and its count, each exactly once. */
    method DataRelease(n: Node, ghost was: seq<Meta>, ghost i: nat)
      requires i < |was| && n.Meta() == was[i] && Left(was, i) && blobs == Blobs(was) && AllCounted(was, cells)
      modifies this`blobs, this`cells, n`data, n`dataRefs, n.dataRefs
      ensures AllCounted(Without(was, i), cells)
        && blobs == if was[i].cell == null then Blobs(was) else Blobs(Without(was, i))
    {
      if n.dataRefs == null {
        CountedWithout(was, i, cells, cells);
        return;
      }
      GiveUp(n, was, i);
      n.data, n.dataRefs := null, null;
    }

    method GiveUp(n: Node, ghost was: seq<Meta>, ghost i: nat)
      requires i < |was| && n.Meta() == was[i] && n.dataRefs != null && Left(was, i) && blobs == Blobs(was)
        && AllCounted(was, cells)
      modifies this`blobs, this`cells, n.dataRefs
      ensures AllCounted(Without(was, i), cells) && blobs == Blobs(Without(was, i))
    {
      var c := n.dataRefs;
      c.count := c.count - 1;
      if c.count <= 0 {
        if n.data != null { Free(n.data); }
        FreeCell(c);
      }
      CountedWithout(was, i, Cells(was), cells);
    }

    /** kfree: only what is still allocated. */
    ghost method Free(data: array<byte>)
      requires data in blobs
      modifies this`blobs
      ensures blobs == old(blobs) - {data}
    {
      blobs := blobs - {data};
    }

    ghost method FreeCell(c: Cell)
      requires c in cells
      modifies this`cells
      ensures cells == old(cells) - {c}
    {
      cells := cells - {c};
    }

    // ---- rename ----------------------------------------------------------------------------

    lemma ShownPath(i: nat)
      requires Valid() && i < |list|
      ensures list[i].path == view[i].path && list[i].kind == view[i].kind && list[i].ino == view[i].ino
    {
      assert Mirror(list, metas, i) && Shows(metas[i], view[i]);
    }

    method SetPath(n: Node, ghost i: nat, path: string)
      requires Valid() && i < |list| && list[i] == n
      modifies this`metas, this`view, n`path
      ensures Valid() && view == old(view)[i := old(view)[i].(path := path)]
    {
      ghost var m := metas[i].(path := path);
      assert Shows(metas[i], view[i]) && Wf(metas[i]);
      PathChanges(metas, i, path);
      ShownAt(metas, view, i, m, view[i].(path := path), blobs);
      n.path := path;
      metas, view := metas[i := m], view[i := view[i].(path := path)];
      forall j | 0 <= j < |list| ensures Mirror(list, metas, j) {
        assert old(Mirror(list, metas, j)) && (j != i ==> list[j] != list[i]);
      }
      forall j | 0 <= j < |list| ensures NextIs(list, j) { assert old(NextIs(list, j)); }
    }
  }
}
