/** Directory listings: the records getdents packs into a buffer, and what a reader gets back. */
module Listing {
  import opened Basics
  import opened StoreSpec
  import opened FileStore
  import opened Renaming

  datatype Row = Row(ino: nat, name: string)

  // ---- one record ----------------------------------------------------------------------------

  function WordOf(b: seq<byte>): nat
    requires |b| == 4
  {
    FromWord(b[0], b[1], b[2], b[3])
  }

  /** Names are C strings of bytes. */
  ghost predicate CString(name: string) { forall k :: 0 <= k < |name| ==> 0 < name[k] as int < 256 }

  function ToBytes(name: string): (b: seq<byte>)
    ensures |b| == |name|
  {
    seq(|name|, k requires 0 <= k < |name| => name[k] as int % 256)
  }

  function FromBytes(b: seq<byte>): string { seq(|b|, k requires 0 <= k < |b| => b[k] as char) }

  lemma BytesBack(name: string)
    requires CString(name)
    ensures FromBytes(ToBytes(name)) == name
  {
  }

  function Reclen(name: string): nat { 4 + 4 + |name| + 1 }

  function Record(row: Row): (b: seq<byte>)
    ensures |b| == Reclen(row.name)
  {
    WordBytes(row.ino) + WordBytes(Reclen(row.name)) + ToBytes(row.name) + [0]
  }

  // ---- packing -----------------------------------------------------------------------------------

  /** The rows that fit: one that does not is skipped, and shorter ones may still follow. */
  function Kept(rows: seq<Row>, used: nat, size: nat): seq<Row> {
    if rows == [] then []
    else if used + Reclen(rows[0].name) <= size then [rows[0]] + Kept(rows[1..], used + Reclen(rows[0].name), size)
    else Kept(rows[1..], used, size)
  }

  function Pack(rows: seq<Row>): seq<byte> { if rows == [] then [] else Record(rows[0]) + Pack(rows[1..]) }

  /** What a reader makes of a buffer, hopping by record length. */
  function Unpack(b: seq<byte>): Option<seq<Row>>
    decreases |b|
  {
    if b == [] then Some([])
    else if |b| < 9 then None
    else
      var len := WordOf(b[4..8]);
      if len < 9 || len > |b| || b[len - 1] != 0 then None
      else match Unpack(b[len..])
        case None => None
        case Some(rest) => Some([Row(WordOf(b[..4]), FromBytes(b[8..len - 1]))] + rest)
  }

  ghost predicate RowOk(row: Row) { row.ino < U32 && CString(row.name) && |row.name| <= PATH_MAX }

  lemma RecordReads(row: Row, rest: seq<byte>)
    requires RowOk(row)
    ensures var b, len := Record(row) + rest, Reclen(row.name);
      && WordOf(b[4..8]) == len && b[len - 1] == 0 && b[len..] == rest
      && Row(WordOf(b[..4]), FromBytes(b[8..len - 1])) == row
  {
    var b, len := Record(row) + rest, Reclen(row.name);
    WordBack(row.ino);
    WordBack(len);
    BytesBack(row.name);
    assert b[..4] == WordBytes(row.ino) && b[4..8] == WordBytes(len) && b[8..len - 1] == ToBytes(row.name);
  }

  /** Every packed buffer reads back as its rows. */
  lemma {:induction false} UnpackPack(rows: seq<Row>)
    requires forall k :: 0 <= k < |rows| ==> RowOk(rows[k])
    ensures Unpack(Pack(rows)) == Some(rows)
  {
    if rows != [] {
      UnpackPack(rows[1..]);
      RecordReads(rows[0], Pack(rows[1..]));
      assert rows == [rows[0]] + rows[1..];
    }
  }

  lemma {:induction false} KeptFits(rows: seq<Row>, used: nat, size: nat)
    requires used <= size
    ensures used + |Pack(Kept(rows, used, size))| <= size
    ensures forall k :: 0 <= k < |Kept(rows, used, size)| ==> Kept(rows, used, size)[k] in rows
    ensures used + |Pack(rows)| <= size ==> Kept(rows, used, size) == rows
  {
    if rows != [] {
      var len := Reclen(rows[0].name);
      var rest := rows[1..];
      if used + len <= size {
        KeptFits(rest, used + len, size);
        var kept := Kept(rest, used + len, size);
        assert Kept(rows, used, size) == [rows[0]] + kept;
        assert ([rows[0]] + kept)[1..] == kept;
        assert rows == [rows[0]] + rest;
      } else {
        KeptFits(rest, used, size);
      }
    }
  }

  lemma {:induction false} PackConcat(a: seq<Row>, b: seq<Row>)
    ensures Pack(a + b) == Pack(a) + Pack(b)
  {
    if a == [] {
      assert a + b == b;
    } else {
      assert (a + b)[1..] == a[1..] + b;
      PackConcat(a[1..], b);
    }
  }

  lemma {:induction false} KeptConcat(a: seq<Row>, b: seq<Row>, used: nat, size: nat)
    ensures Kept(a + b, used, size) == Kept(a, used, size) + Kept(b, used + |Pack(Kept(a, used, size))|, size)
  {
    if a == [] {
      assert a + b == b;
    } else {
      assert (a + b)[1..] == a[1..] + b;
      var len := Reclen(a[0].name);
      KeptConcat(a[1..], b, if used + len <= size then used + len else used, size);
    }
  }

  // ---- the rows of a directory --------------------------------------------------------------------

  function Join(dir: string, name: string): string { if dir == "/" then "/" + name else dir + "/" + name }

  ghost predicate Component(name: string) { name != "" && '/' !in name }

  /** The name of a direct child, empty for anything else. */
  function ChildName(path: string, dir: string): string {
    var name := if dir == "/" then (if |path| > 1 && path[0] == '/' then path[1..] else "")
                else if Below(path, dir) then path[|dir| + 1..] else "";
    if '/' in name then "" else name
  }

  lemma ChildExactly(path: string, dir: string, name: string)
    requires name != ""
    ensures ChildName(path, dir) == name <==> Component(name) && path == Join(dir, name)
  {
    if dir != "/" && Below(path, dir) { assert path == dir + "/" + path[|dir| + 1..]; }
    if path == Join(dir, name) && dir != "/" { assert path[..|dir|] == dir && path[|dir| + 1..] == name; }
  }

  function Children(view: seq<Entry>, dir: string): seq<Row> {
    if view == [] then []
    else
      var name := ChildName(view[0].path, dir);
      (if name == "" then [] else [Row(view[0].ino, name)]) + Children(view[1..], dir)
  }

  /** Exactly the direct children: a row for each, and each row is one. */
  lemma {:induction false} ChildrenExactly(view: seq<Entry>, dir: string, row: Row)
    ensures row in Children(view, dir) <==>
            && Component(row.name)
            && exists j :: 0 <= j < |view| && view[j].path == Join(dir, row.name) && view[j].ino == row.ino
  {
    if view != [] {
      var name := ChildName(view[0].path, dir);
      ChildrenExactly(view[1..], dir, row);
      if row.name != "" { ChildExactly(view[0].path, dir, row.name); }
      if name != "" { ChildExactly(view[0].path, dir, name); }
      forall j | 1 <= j < |view| ensures view[j] == view[1..][j - 1] { }
    }
  }

  /** Each child once. */
  lemma {:induction false} ChildrenOnce(view: seq<Entry>, dir: string)
    requires UniquePaths(view)
    ensures forall a, b :: 0 <= a < b < |Children(view, dir)| ==>
      Children(view, dir)[a].name != Children(view, dir)[b].name
  {
    if view != [] {
      ChildrenOnce(view[1..], dir);
      var name := ChildName(view[0].path, dir);
      var rest := Children(view[1..], dir);
      if name != "" {
        forall b | 0 <= b < |rest| ensures rest[b].name != name {
          ChildrenExactly(view[1..], dir, rest[b]);
          ChildExactly(view[0].path, dir, name);
        }
      }
    }
  }

  /** The directory part of a path. */
  function ParentEnd(dir: string, pi: nat): (k: nat)
    requires pi <= |dir|
    ensures k <= pi
  {
    if pi > 1 && dir[pi - 1] != '/' then ParentEnd(dir, pi - 1) else if pi > 1 then pi - 1 else pi
  }

  function Parent(dir: string): string { dir[..ParentEnd(dir, |dir|)] }

  lemma {:induction false} ParentEndIs(dir: string, name: string, k: nat)
    requires '/' !in name && k <= |name| && dir != ""
    ensures ParentEnd(dir + "/" + name, |dir| + 1 + k) == |dir|
    decreases k
  {
    if k > 0 {
      assert (dir + "/" + name)[|dir| + k] == name[k - 1];
      ParentEndIs(dir, name, k - 1);
    }
  }

  lemma {:induction false} RootEndIs(name: string, k: nat)
    requires '/' !in name && k <= |name|
    ensures ParentEnd("/" + name, 1 + k) == 1
    decreases k
  {
    if k > 0 {
      assert ("/" + name)[k] == name[k - 1];
      RootEndIs(name, k - 1);
    }
  }

  /** ".." of a child is the directory it is in. */
  lemma ParentOfChild(dir: string, name: string)
    requires dir != "" && Component(name)
    ensures Parent(Join(dir, name)) == dir
  {
    if dir == "/" {
      RootEndIs(name, |name|);
      assert ("/" + name)[..1] == "/";
    } else {
      ParentEndIs(dir, name, |name|);
      assert (dir + "/" + name)[..|dir|] == dir;
    }
  }

  function InoOf(view: seq<Entry>, path: string): nat {
    if path == "/" then 1 else match Lookup(view, path) case None => 1 case Some(e) => e.ino
  }

  function Rows(view: seq<Entry>, dir: string): seq<Row> {
    [Row(InoOf(view, dir), "."), Row(InoOf(view, Parent(dir)), "..")] + Children(view, dir)
  }

  /** A listing begins with "." and "..": the directory's own inode number, 1 for the root, and that
      of the directory it is in; the root is in itself. */
  lemma DotRows(view: seq<Entry>, dir: string, name: string)
    requires dir != "" && Component(name)
    ensures var rows := Rows(view, Join(dir, name));
      && |rows| >= 2 && rows[0].name == "." && rows[1].name == ".."
      && (forall e :: Lookup(view, Join(dir, name)) == Some(e) ==> rows[0].ino == e.ino)
      && rows[1].ino == Rows(view, dir)[0].ino
    ensures Rows(view, "/")[0] == Row(1, ".") && Rows(view, "/")[1] == Row(1, "..")
  {
    ParentOfChild(dir, name);
    assert Join(dir, name) != "/" by { if dir != "/" { assert |Join(dir, name)| > 1; } }
    assert Parent("/") == "/";
  }

  predicate IsDirectory(view: seq<Entry>, dir: string) {
    dir == "/" || (Lookup(view, dir).Some? && Lookup(view, dir).value.kind == Directory)
  }

  /** What can be listed: the root, and what a name says is a directory. */
  lemma IsDirectoryIs(view: seq<Entry>, dir: string)
    requires Names(view)
    ensures IsDirectory(view, dir)
      <==> dir == "/" || exists j :: 0 <= j < |view| && view[j].path == dir && view[j].kind == Directory
  {
    forall j | 0 <= j < |view| && view[j].path == dir ensures FindName(view, dir) == j { FindIs(view, j); }
  }

  ghost predicate ViewOk(view: seq<Entry>) {
    forall j :: 0 <= j < |view| ==> view[j].ino < U32 && CString(view[j].path) && |view[j].path| <= PATH_MAX
  }

  lemma {:induction false} RowsOk(view: seq<Entry>, dir: string)
    requires ViewOk(view)
    ensures forall k :: 0 <= k < |Children(view, dir)| ==> RowOk(Children(view, dir)[k])
  {
    if view != [] {
      RowsOk(view[1..], dir);
      var name := ChildName(view[0].path, dir);
      if name != "" { ChildExactly(view[0].path, dir, name); assert RowOk(Row(view[0].ino, name)); }
    }
  }

  /** Whatever the size, the buffer reads back as rows of the listing; with room for all of
      them it reads back as the listing. */
  lemma ListingReadsBack(view: seq<Entry>, dir: string, size: nat)
    requires ViewOk(view)
    ensures var kept := Kept(Rows(view, dir), 0, size);
      && |Pack(kept)| <= size && Unpack(Pack(kept)) == Some(kept) && (forall r :: r in kept ==> r in Rows(view, dir))
      && (|Pack(Rows(view, dir))| <= size ==> kept == Rows(view, dir))
  {
    var rows := Rows(view, dir);
    RowsOk(view, dir);
    assert forall j :: 0 <= j < |view| ==> view[j].ino < U32;
    assert forall k :: 0 <= k < |rows| ==> RowOk(rows[k]);
    KeptFits(rows, 0, size);
    UnpackPack(Kept(rows, 0, size));
  }

  // ---- the operation -------------------------------------------------------------------------------

  /** One record goes into the buffer if it fits. */
  method Emit(buf: array<byte>, size: nat, written: nat, ino: nat, name: string) returns (now: nat)
    requires written <= size <= buf.Length
    modifies buf
    ensures written <= now <= size && buf[..written] == old(buf[..written])
    ensures buf[..now] == old(buf[..written]) + Pack(Kept([Row(ino, name)], written, size))
  {
    var reclen := 4 + 4 + |name| + 1;
    ghost var was := buf[..written];
    PackOne(Row(ino, name));
    if written + reclen > size { return written; }
    AppendWord(buf, written, ino);
    AppendWord(buf, written + 4, reclen);
    for i := 0 to |name|
      invariant buf[..written + 8 + i] == was + WordBytes(ino) + WordBytes(reclen) + ToBytes(name)[..i]
    {
      buf[written + 8 + i] := name[i] as int % 256;
      assert buf[..written + 8 + i + 1] == buf[..written + 8 + i] + [ToBytes(name)[i]];
    }
    buf[written + 8 + |name|] := 0;
    now := written + reclen;
    assert buf[..now] == buf[..written + 8 + |name|] + [0];
    assert buf[..now] == was + Record(Row(ino, name));
    assert buf[..written] == buf[..now][..written];
  }

  lemma PackOne(row: Row)
    ensures Pack([row]) == Record(row)
      && forall u: nat, n: nat :: Kept([row], u, n) == if u + Reclen(row.name) <= n then [row] else []
  {
    assert Pack([row][1..]) == [];
  }

  method AppendWord(buf: array<byte>, at: nat, n: nat)
    requires at + 4 <= buf.Length
    modifies buf
    ensures buf[..at + 4] == old(buf[..at]) + WordBytes(n)
  {
    ghost var was := buf[..at];
    PutWord(buf, at, n);
    assert buf[..at] == was && buf[..at + 4] == buf[..at] + buf[at..at + 4];
  }

  method FindParentEnd(dir: string) returns (pi: nat)
    requires dir != ""
    ensures pi == ParentEnd(dir, |dir|)
  {
    pi := |dir|;
    while pi > 1 && dir[pi - 1] != '/'
      invariant pi <= |dir| && ParentEnd(dir, pi) == ParentEnd(dir, |dir|)
    {
      pi := pi - 1;
    }
    if pi > 1 { pi := pi - 1; }
  }

  method NameIn(path: string, dir: string) returns (name: string)
    ensures name == ChildName(path, dir)
  {
    var start := 0;
    if dir == "/" {
      if |path| > 1 && path[0] == '/' { start := 1; }
    } else {
      var below := IsBelow(path, dir);
      if below { start := |dir| + 1; }
    }
    if start == 0 { return ""; }
    for i := start to |path|
      invariant '/' !in path[start..i]
    {
      if path[i] == '/' { return ""; }
      assert path[start..i + 1] == path[start..i] + [path[i]];
    }
    ToTheEnd(path, start);
    name := path[start..];
  }

  lemma ToTheEnd(s: string, k: nat)
    requires k <= |s|
    ensures s[k..|s|] == s[k..]
  {
  }

  /** getdents: -1 for anything but a directory, otherwise the bytes written. */
  method Getdents(s: Store, dir: string, buf: array<byte>, size: nat) returns (r: int)
    requires s.Valid() && size <= buf.Length && dir != "" && buf !in s.blobs
    modifies buf
    ensures r == if size == 0 || !IsDirectory(s.view, dir) then -1 else |Pack(Kept(Rows(s.view, dir), 0, size))|
    ensures r >= 0 ==> r <= size && buf[..r] == Pack(Kept(Rows(s.view, dir), 0, size))
  {
    if size == 0 { return -1; }
    var d, ino, parentIno := InspectBoth(s, dir);
    if !d { return -1; }
    r := EmitRows(s, dir, buf, size, ino, parentIno);
  }

  /** Whether the path names a directory, and its inode number, 1 without a node. */
  method Inspect(s: Store, path: string) returns (directory: bool, ino: nat)
    requires s.Valid()
    ensures directory == IsDirectory(s.view, path) && ino == InoOf(s.view, path)
  {
    var n := s.FindNode(path);
    Inode(s, path, n);
    directory := n != null && n.kind == Directory;
    ino := if n == null then 1 else n.ino;
  }

  method InspectBoth(s: Store, dir: string) returns (directory: bool, ino: nat, parentIno: nat)
    requires s.Valid() && dir != ""
    ensures directory == IsDirectory(s.view, dir) && ino == InoOf(s.view, dir)
    ensures directory ==> parentIno == InoOf(s.view, Parent(dir))
  {
    directory, ino := Inspect(s, dir);
    parentIno := 1;
    if directory {
      var pi := FindParentEnd(dir);
      var _, up := Inspect(s, dir[..pi]);
      parentIno := up;
    }
  }

  method EmitRows(s: Store, dir: string, buf: array<byte>, size: nat, ino: nat, parentIno: nat) returns (r: nat)
    requires s.Valid() && size <= buf.Length && buf !in s.blobs
    modifies buf
    ensures Holds(buf, size, r, [Row(ino, "."), Row(parentIno, "..")] + Children(s.view, dir))
  {
    r := EmitDots(buf, size, ino, parentIno);
    r := EmitChildren(s, dir, buf, size, r, [Row(ino, "."), Row(parentIno, "..")]);
  }

  lemma Inode(s: Store, path: string, n: Node?)
    requires s.Valid()
    requires if path == "/" then n == s.root else var i := FindName(s.view, path);
      n == if i < |s.view| then s.list[i] else null
    ensures n == null ==> InoOf(s.view, path) == 1 && !IsDirectory(s.view, path)
    ensures n != null ==> InoOf(s.view, path) == n.ino && (IsDirectory(s.view, path) <==> n.kind == Directory)
  {
    if path != "/" && n != null { s.Faces(FindName(s.view, path)); }
  }

  /** The buffer holds exactly what was kept of these rows. */
  ghost predicate Holds(buf: array<byte>, size: nat, written: nat, rows: seq<Row>)
    reads buf
  {
    written <= size <= buf.Length && buf[..written] == Pack(Kept(rows, 0, size))
  }

  lemma HoldsMore(rows: seq<Row>, row: Row, size: nat)
    ensures Pack(Kept(rows + [row], 0, size)) == Pack(Kept(rows, 0, size))
      + Pack(Kept([row], |Pack(Kept(rows, 0, size))|, size))
  {
    KeptConcat(rows, [row], 0, size);
    PackConcat(Kept(rows, 0, size), Kept([row], |Pack(Kept(rows, 0, size))|, size));
  }

  method EmitDots(buf: array<byte>, size: nat, ino: nat, parentIno: nat) returns (written: nat)
    requires size <= buf.Length
    modifies buf
    ensures Holds(buf, size, written, [Row(ino, "."), Row(parentIno, "..")])
  {
    HoldsMore([Row(ino, ".")], Row(parentIno, ".."), size);
    written := Emit(buf, size, 0, ino, ".");
    written := Emit(buf, size, written, parentIno, "..");
    assert [Row(ino, ".")] + [Row(parentIno, "..")] == [Row(ino, "."), Row(parentIno, "..")];
  }

  method EmitChildren(s: Store, dir: string, buf: array<byte>, size: nat, start: nat, ghost first: seq<Row>)
    returns (written: nat)
    requires s.Valid() && buf !in s.blobs && Holds(buf, size, start, first)
    modifies buf
    ensures Holds(buf, size, written, first + Children(s.view, dir))
  {
    written := start;
    var n := s.nodes;
    ghost var i := 0;
    assert first + Children(s.view[..0], dir) == first;
    while n != null
      invariant i <= |s.list| && n == (if i < |s.list| then s.list[i] else null)
      invariant s.Valid() && Holds(buf, size, written, first + Children(s.view[..i], dir))
      decreases |s.list| - i
    {
      written := EmitChild(s, dir, buf, size, written, n, i, first);
      assert NextIs(s.list, i);
      n := n.next;
      i := i + 1;
    }
    assert s.view[..|s.view|] == s.view;
  }

  method EmitChild(s: Store, dir: string, buf: array<byte>, size: nat, start: nat, n: Node, ghost i: nat,
                   ghost first: seq<Row>) returns (written: nat)
    requires s.Valid() && i < |s.list| && s.list[i] == n && Holds(buf, size, start, first + Children(s.view[..i], dir))
    requires buf !in s.blobs
    modifies buf
    ensures s.Valid() && Holds(buf, size, written, first + Children(s.view[..i + 1], dir))
  {
    s.Faces(i);
    ghost var rows := first + Children(s.view[..i], dir);
    var name := NameIn(n.path, dir);
    ChildrenNext(s.view, dir, i);
    if name == "" {
      assert first + Children(s.view[..i + 1], dir) == rows;
      return start;
    }
    written := EmitRow(s, buf, size, start, Row(n.ino, name), rows);
    assert first + Children(s.view[..i + 1], dir) == rows + [Row(n.ino, name)];
  }

  method EmitRow(s: Store, buf: array<byte>, size: nat, start: nat, row: Row, ghost rows: seq<Row>)
    returns (written: nat)
    requires s.Valid() && buf !in s.blobs && Holds(buf, size, start, rows)
    modifies buf
    ensures s.Valid() && Holds(buf, size, written, rows + [row])
  {
    HoldsMore(rows, row, size);
    written := Emit(buf, size, start, row.ino, row.name);
  }

  lemma {:induction false} ChildrenConcat(a: seq<Entry>, b: seq<Entry>, dir: string)
    ensures Children(a + b, dir) == Children(a, dir) + Children(b, dir)
  {
    if a == [] {
      assert a + b == b;
    } else {
      assert (a + b)[1..] == a[1..] + b;
      ChildrenConcat(a[1..], b, dir);
    }
  }

  lemma ChildrenNext(view: seq<Entry>, dir: string, i: nat)
    requires i < |view|
    ensures var name := ChildName(view[i].path, dir);
      Children(view[..i + 1], dir) == Children(view[..i], dir) + if name == "" then [] else [Row(view[i].ino, name)]
  {
    assert view[..i + 1] == view[..i] + [view[i]];
    ChildrenConcat(view[..i], [view[i]], dir);
    assert Children([view[i]][1..], dir) == [];
  }
}
