/** Directory rename: every name below the old path gets the new prefix. */
module Renaming {
  import opened Basics
  import opened StoreSpec
  import opened FileStore

  const PATH_MAX: nat := 255

  /** A proper descendant of dir, by name. */
  predicate Below(path: string, dir: string) {
    |path| > |dir| && path[..|dir|] == dir && path[|dir|] == '/'
  }

  /** Where a rename of its ancestor puts a name. */
  function Follow(path: string, from: string, to: string): string {
    if Below(path, from) then Cut(to + path[|from|..], PATH_MAX) else path
  }

  /** Node k gets the new name; with a directory, names below it follow. */
  function RenamedAt(view: seq<Entry>, k: nat, from: string, to: string, dir: bool): seq<Entry> {
    seq(|view|, j requires 0 <= j < |view| =>
      view[j].(path := if j == k then to else if dir then Follow(view[j].path, from, to) else view[j].path))
  }

  /** rename as users see it: result and view. */
  function RenameCall(view: seq<Entry>, from: string, to: string): (r: (int, seq<Entry>)) {
    var k := FindName(view, from);
    if from == "/" || to == "/" then (-1, view)
    else if from == to then (0, view)
    else if k == |view| || FindName(view, to) < |view| then (-1, view)
    else (0, RenamedAt(view, k, from, to, view[k].kind == Directory))
  }

  /** Where rename puts one name of many different ones. */
  function Move(path: string, from: string, to: string, dir: bool): string {
    if path == from then to else if dir then Follow(path, from, to) else path
  }

  function Renamed(view: seq<Entry>, from: string, to: string, dir: bool): seq<Entry> {
    seq(|view|, j requires 0 <= j < |view| => view[j].(path := Move(view[j].path, from, to, dir)))
  }

  lemma RenamedIs(view: seq<Entry>, k: nat, from: string, to: string, dir: bool)
    requires UniquePaths(view) && k < |view| && view[k].path == from
    ensures RenamedAt(view, k, from, to, dir) == Renamed(view, from, to, dir)
  {
  }

  ghost predicate FitsAt(p: string, from: string, to: string) { Below(p, from) ==> |to| + |p| - |from| <= PATH_MAX }

  ghost predicate Fits(view: seq<Entry>, from: string, to: string) {
    forall j :: 0 <= j < |view| ==> FitsAt(view[j].path, from, to)
  }

  /** A name that stays where it is, or moves. */
  ghost predicate ClearAt(p: string, from: string, to: string) { Below(p, to) ==> p == from || Below(p, from) }

  /** Nothing that stays lies below the new path. */
  ghost predicate Clear(view: seq<Entry>, from: string, to: string) {
    forall j :: 0 <= j < |view| ==> ClearAt(view[j].path, from, to)
  }

  /** What rename demands and finds out first: the old name exists, the new one does not. */
  ghost predicate Renames(view: seq<Entry>, from: string, to: string) {
    && Names(view) && from != to && from != "/" && to != "/" && Absolute(from) && Absolute(to) && |to| <= PATH_MAX
    && |from| <= PATH_MAX
    && FindName(view, from) < |view| && FindName(view, to) == |view|
    && forall j :: 0 <= j < |view| ==> |view[j].path| <= PATH_MAX
  }

  lemma BelowSplits(to: string, rest: string)
    requires rest != "" && rest[0] == '/'
    ensures Below(to + rest, to) && (to + rest)[|to|..] == rest
  {
  }

  /** One name comes back to where it was exactly when it fits and does not get swept along. */
  lemma MoveBack(p: string, from: string, to: string)
    requires from != to && p != to && |p| <= PATH_MAX && |to| <= PATH_MAX && |from| <= PATH_MAX
    ensures Move(Move(p, from, to, true), to, from, true) == p <==> FitsAt(p, from, to) && ClearAt(p, from, to)
  {
    if p != from && Below(p, from) {
      MovedBack(p, from, to);
    } else if p != from && Below(p, to) {
      SweptAlong(p, from, to);
    }
  }

  /** A name below the new path that did not come from the old one does not survive the way
      back, cut or not. */
  lemma SweptAlong(p: string, from: string, to: string)
    requires from != to && p != from && !Below(p, from) && Below(p, to) && |p| <= PATH_MAX && |from| <= PATH_MAX
    ensures Cut(from + p[|to|..], PATH_MAX) != p
  {
    var tail := p[|to|..];
    var q := Cut(from + tail, PATH_MAX);
    assert p == to + tail;
    assert q[..|from|] == from;
    if |from| == |to| {
      assert q[..|to|] != p[..|to|];
    } else if |from| < |q| {
      assert q[|from|] == tail[0];
      assert Below(q, from);
    }
  }

  lemma MovedBack(p: string, from: string, to: string)
    requires from != to && Below(p, from) && |p| <= PATH_MAX && |to| <= PATH_MAX
    ensures Move(Move(p, from, to, true), to, from, true) == p <==> FitsAt(p, from, to)
  {
    var rest := p[|from|..];
    var q := Cut(to + rest, PATH_MAX);
    assert p == from + rest;
    BelowSplits(to, rest);
    if FitsAt(p, from, to) {
      assert q == to + rest && q != to;
    } else if |to| < PATH_MAX {
      assert q[..|to|] == to && q[|to|] == '/';
      assert |Move(q, to, from, true)| < |p|;
    } else {
      assert q == to;
    }
  }

  /** A moved name lands on the old path itself. */
  ghost predicate Shadowed(view: seq<Entry>, from: string, to: string) {
    exists j :: 0 <= j < |view| && Shadows(view[j].path, from, to)
  }

  ghost predicate Shadows(p: string, from: string, to: string) { Below(p, from) && to + p[|from|..] == from }

  /** When everything fits, is clear and does not shadow the old path, the second call is
      accepted and finds the same node. */
  lemma BackAccepted(view: seq<Entry>, from: string, to: string)
    requires Renames(view, from, to) && Fits(view, from, to) && Clear(view, from, to) && !Shadowed(view, from, to)
    ensures var t, k := Renamed(view, from, to, true), FindName(view, from);
      Names(t) && FindName(t, to) == k && FindName(t, from) == |t| && Renamed(t, to, from, true) == view
  {
    var t, k := Renamed(view, from, to, true), FindName(view, from);
    ClearIsApart(view, from, to);
    NamesKept(view, from, to, true);
    assert t[k].path == to;
    FindIs(t, k);
    forall j | 0 <= j < |t| ensures t[j].path != from {
      assert FitsAt(view[j].path, from, to) && !Shadows(view[j].path, from, to);
    }
    AllBack(view, from, to);
  }

  lemma AllBack(view: seq<Entry>, from: string, to: string)
    requires Renames(view, from, to) && Fits(view, from, to) && Clear(view, from, to)
    ensures Renamed(Renamed(view, from, to, true), to, from, true) == view
  {
    var back := Renamed(Renamed(view, from, to, true), to, from, true);
    forall j | 0 <= j < |view| ensures back[j] == view[j] {
      assert FitsAt(view[j].path, from, to) && ClearAt(view[j].path, from, to) && view[j].path != to;
      MoveBack(view[j].path, from, to);
    }
  }

  /** Whatever the second call does, when it brings every name back then nothing was cut,
      nothing was swept along, and the old path was free. */
  lemma BackImplies(view: seq<Entry>, from: string, to: string)
    requires Renames(view, from, to)
    requires var t := Renamed(view, from, to, true);
      var k := FindName(t, to);
      k < |t| && FindName(t, from) == |t| && RenamedAt(t, k, to, from, t[k].kind == Directory) == view
    requires view[FindName(view, from)].kind == Directory
    ensures Fits(view, from, to) && Clear(view, from, to) && !Shadowed(view, from, to)
  {
    var t, i := Renamed(view, from, to, true), FindName(view, from);
    var k := FindName(t, to);
    assert view[k].path == from;
    FindIs(view, k);
    forall j | 0 <= j < |view| ensures FitsAt(view[j].path, from, to) && ClearAt(view[j].path, from, to)
      && !Shadows(view[j].path, from, to) {
      assert view[j].path != to && t[j].path != from;
      if j != k { NameBack(view, j, k, from, to); }
    }
  }

  lemma NameBack(view: seq<Entry>, j: nat, k: nat, from: string, to: string)
    requires Renames(view, from, to) && j < |view| && k < |view| && j != k && view[j].path != from && view[j].path != to
    requires RenamedAt(Renamed(view, from, to, true), k, to, from, true) == view
    ensures FitsAt(view[j].path, from, to) && ClearAt(view[j].path, from, to)
  {
    var p := view[j].path;
    var q := Move(p, from, to, true);
    assert Renamed(view, from, to, true)[j].path == q;
    assert RenamedAt(Renamed(view, from, to, true), k, to, from, true)[j].path == Follow(q, to, from) == p;
    MoveBack(p, from, to);
  }

  /** Renaming a directory and renaming it back: both calls succeed and every name is back
      where it was exactly when all moved names fit, nothing else lay below the new path, and
      no moved name landed on the old one. */
  lemma RestoresExactly(view: seq<Entry>, from: string, to: string)
    requires Renames(view, from, to) && view[FindName(view, from)].kind == Directory
    ensures RenameCall(view, from, to).0 == 0
    ensures RenameCall(RenameCall(view, from, to).1, to, from) == (0, view)
      <==> Fits(view, from, to) && Clear(view, from, to) && !Shadowed(view, from, to)
  {
    var k := FindName(view, from);
    RenamedIs(view, k, from, to, true);
    var t := Renamed(view, from, to, true);
    if Fits(view, from, to) && Clear(view, from, to) && !Shadowed(view, from, to) {
      BackAccepted(view, from, to);
      RenamedIs(t, k, to, from, true);
    }
    if RenameCall(t, to, from) == (0, view) { BackImplies(view, from, to); }
  }

  /** The third condition is needed: "/a/b" goes to "/a", its child takes its place, and the
      way back is refused. */
  lemma ShadowRefused(i: nat, j: nat, bytes: seq<byte>)
    ensures var view := [Entry("/a/b", Directory, i, []), Entry("/a/b/b", Regular, j, bytes)];
      && Renames(view, "/a/b", "/a") && Fits(view, "/a/b", "/a") && Clear(view, "/a/b", "/a")
      && Shadowed(view, "/a/b", "/a")
      && RenameCall(view, "/a/b", "/a").0 == 0
      && RenameCall(RenameCall(view, "/a/b", "/a").1, "/a", "/a/b").0 == -1
  {
    var view := [Entry("/a/b", Directory, i, []), Entry("/a/b/b", Regular, j, bytes)];
    assert view[0].path == "/a/b" && view[1].path == "/a/b/b";
    assert FindName(view, "/a/b") == 0;
    NoName(view, "/a");
    assert "/a" + view[1].path[|"/a/b"|..] == "/a/b";
    assert Shadows(view[1].path, "/a/b", "/a");
    var t := RenameCall(view, "/a/b", "/a").1;
    assert t == [Entry("/a", Directory, i, []), Entry("/a/b", Regular, j, bytes)];
    assert t[1].path == "/a/b" && t[0].path == "/a";
  }

  // ---- what one call does ----------------------------------------------------------------------

  /** A rename succeeds exactly when neither path is the root and they are equal, or the old name
      exists and the new one does not; otherwise nothing happens. */
  lemma RenameSucceedsExactly(view: seq<Entry>, from: string, to: string)
    ensures var (r, t) := RenameCall(view, from, to);
      && (r == 0 || r == -1) && (r == -1 || from == to ==> t == view)
      && (r == 0 <==> from != "/" && to != "/" && (from == to || (HasName(view, from) && !HasName(view, to))))
  {
  }

  ghost predicate HasName(view: seq<Entry>, path: string) { exists j :: 0 <= j < |view| && view[j].path == path }

  /** A file that is renamed is found under the new name, with all it holds, and no longer under
      the old one; no other name changes. */
  lemma FileRenamed(view: seq<Entry>, from: string, to: string, q: string)
    requires UniquePaths(view) && from != to && RenameCall(view, from, to).0 == 0
    requires Lookup(view, from).Some? && Lookup(view, from).value.kind == Regular
    ensures var t := RenameCall(view, from, to).1;
      && UniquePaths(t)
      && Lookup(t, q) == if q == to then Some(Lookup(view, from).value.(path := to))
                         else if q == from then None else Lookup(view, q)
  {
    var t, k := RenameCall(view, from, to).1, FindName(view, from);
    RenameSucceedsExactly(view, from, to);
    assert forall j :: 0 <= j < |view| ==> t[j] == if j == k then view[j].(path := to) else view[j];
    assert forall j :: 0 <= j < |view| && j != k ==> view[j].path != from && view[j].path != to;
    assert UniquePaths(t);
    if q == to {
      FindIs(t, k);
    } else if q == from {
      NoName(t, q);
    } else {
      var j := FindName(view, q);
      if j < |view| { FindIs(t, j); } else { NoName(t, q); }
    }
  }

  /** A directory takes along every name that is its own plus a slash and more, cut to 255
      characters, and no other. Nothing but names changes. */
  lemma DirectoryRenamed(view: seq<Entry>, from: string, to: string, j: nat)
    requires UniquePaths(view) && from != to && RenameCall(view, from, to).0 == 0 && j < |view|
    requires Lookup(view, from).Some? && Lookup(view, from).value.kind == Directory
    ensures var t := RenameCall(view, from, to).1;
      && |t| == |view| && t[j].(path := "") == view[j].(path := "")
      && (view[j].path == from ==> t[j].path == to)
      && (forall rest: string :: view[j].path == from + "/" + rest ==>
            var p := to + "/" + rest; t[j].path == if |p| <= 255 then p else p[..255])
      && (view[j].path != from && (forall rest: string :: view[j].path != from + "/" + rest) ==> t[j] == view[j])
  {
    var p := view[j].path;
    FindIs(view, j);
    forall rest: string | p == from + "/" + rest ensures Below(p, from) && to + p[|from|..] == to + "/" + rest {
      assert p[|from|..] == "/" + rest;
    }
    if Below(p, from) { assert p == from + "/" + p[|from| + 1..]; }
  }

  /** So the directory itself is found under the new name, and the old name is free unless a name
      that moved landed on it. */
  lemma DirectoryFound(view: seq<Entry>, from: string, to: string)
    requires Renames(view, from, to) && Fits(view, from, to) && Clear(view, from, to)
    requires Lookup(view, from).value.kind == Directory
    ensures RenameCall(view, from, to).0 == 0
    ensures var t := RenameCall(view, from, to).1;
      && Lookup(t, to) == Some(Lookup(view, from).value.(path := to))
      && (Lookup(t, from) == None <==> !Shadowed(view, from, to))
  {
    var k := FindName(view, from);
    var t := RenameCall(view, from, to).1;
    RenamedIs(view, k, from, to, true);
    ClearIsApart(view, from, to);
    NamesKept(view, from, to, true);
    assert t[k].path == to;
    FindIs(t, k);
    if Shadowed(view, from, to) {
      var j :| 0 <= j < |view| && Shadows(view[j].path, from, to);
      assert t[j].path == from;
    } else {
      forall j | 0 <= j < |t| ensures t[j].path != from { assert FitsAt(view[j].path, from, to); }
    }
  }

  /** The prefix law, of the call. */
  lemma DirectoryLookup(view: seq<Entry>, from: string, to: string, q: string)
    requires Renames(view, from, to) && Fits(view, from, to) && Clear(view, from, to)
    requires Lookup(view, from).value.kind == Directory
    ensures var t := RenameCall(view, from, to).1;
      && (forall rest: string :: q == to + "/" + rest ==>
            var was := Lookup(view, from + "/" + rest);
            Lookup(t, q) == if was.Some? then Some(was.value.(path := q)) else None)
      && (q != to && q != from && (forall rest: string :: q != to + "/" + rest && q != from + "/" + rest) ==>
            Lookup(t, q) == Lookup(view, q))
  {
    RenamedIs(view, FindName(view, from), from, to, true);
    RenamedLookup(view, from, to, q);
    if Below(q, to) { assert q == to + "/" + q[|to| + 1..]; }
    if Below(q, from) { assert q == from + "/" + q[|from| + 1..]; }
    forall rest: string | q == to + "/" + rest
      ensures Below(q, to) && Origin(q, from, to) == Some(from + "/" + rest) { OriginBelow(from, to, rest); }
  }

  lemma OriginBelow(from: string, to: string, rest: string)
    ensures var q := to + "/" + rest; Below(q, to) && Origin(q, from, to) == Some(from + "/" + rest)
  {
    var q := to + "/" + rest;
    assert q[|to|..] == "/" + rest && from + q[|to|..] == from + "/" + rest;
  }

  predicate Moves(p: string, from: string) { p == from || Below(p, from) }

  /** What survives of a moved name behind the new prefix. */
  function Kept(p: string, from: string, to: string): string
    requires Below(p, from) && |to| <= PATH_MAX
  {
    if |to| + |p| - |from| > PATH_MAX then p[|from|..][..PATH_MAX - |to|] else p[|from|..]
  }

  /** p moves to where q stays, or to where q moves as well. */
  ghost predicate Meets(p: string, q: string, from: string, to: string)
    requires |to| <= PATH_MAX
  {
    Below(p, from)
    && (if Below(q, from) then Kept(q, from, to) == Kept(p, from, to)
        else if q == from then Kept(p, from, to) == "" else q == to + Kept(p, from, to))
  }

  ghost predicate Clash(view: seq<Entry>, from: string, to: string)
    requires |to| <= PATH_MAX
  {
    exists i, j :: 0 <= i < |view| && 0 <= j < |view| && i != j && Meets(view[i].path, view[j].path, from, to)
  }

  lemma CutKeeps(p: string, from: string, to: string)
    requires Below(p, from) && |to| <= PATH_MAX
    ensures Cut(to + p[|from|..], PATH_MAX) == to + Kept(p, from, to)
  {
    if |to| + |p| - |from| > PATH_MAX { assert (to + p[|from|..])[..PATH_MAX] == to + p[|from|..][..PATH_MAX - |to|]; }
  }

  lemma SamePrefix(to: string, x: string, y: string)
    ensures to + x == to + y <==> x == y
    ensures to + x == to <==> x == ""
  {
    assert (to + x)[|to|..] == x && (to + y)[|to|..] == y;
  }

  /** Two names collide exactly when one meets the other. */
  lemma MoveApart(p: string, q: string, from: string, to: string)
    requires p != q && p != to && q != to && |to| <= PATH_MAX
    ensures Move(p, from, to, true) == Move(q, from, to, true) <==> Meets(p, q, from, to) || Meets(q, p, from, to)
  {
    if p != from && Below(p, from) {
      CutKeeps(p, from, to);
      SamePrefix(to, Kept(p, from, to), "");
    }
    if q != from && Below(q, from) {
      CutKeeps(q, from, to);
      SamePrefix(to, Kept(q, from, to), "");
    }
    if Below(p, from) && Below(q, from) { SamePrefix(to, Kept(p, from, to), Kept(q, from, to)); }
  }

  /** Names stay unique exactly when no two meet, cut or not. */
  lemma UniqueExactly(view: seq<Entry>, from: string, to: string)
    requires Renames(view, from, to)
    ensures UniquePaths(Renamed(view, from, to, true)) <==> !Clash(view, from, to)
  {
    var t := Renamed(view, from, to, true);
    assert forall j :: 0 <= j < |view| ==> view[j].path != to;
    forall i, j | 0 <= i < j < |t|
      ensures t[i].path == t[j].path <==>
        Meets(view[i].path, view[j].path, from, to) || Meets(view[j].path, view[i].path, from, to)
    {
      MoveApart(view[i].path, view[j].path, from, to);
    }
    if Clash(view, from, to) {
      var i, j :| 0 <= i < |view| && 0 <= j < |view| && i != j && Meets(view[i].path, view[j].path, from, to);
      assert t[i].path == t[j].path;
    }
  }

  /** A moved name lands on one that stays. */
  ghost predicate LandsOn(p: string, q: string, from: string, to: string) {
    Below(p, from) && !Moves(q, from) && q == to + p[|from|..]
  }

  /** When everything fits, meeting is landing on a name that stays. */
  lemma FittingMeets(p: string, q: string, from: string, to: string)
    requires p != q && |to| <= PATH_MAX && FitsAt(p, from, to) && FitsAt(q, from, to)
    ensures Meets(p, q, from, to) <==> LandsOn(p, q, from, to)
  {
    if Below(p, from) && Below(q, from) { assert p == from + p[|from|..] && q == from + q[|from|..]; }
  }

  /** Two names that do not fit can meet though nothing that stays is hit. */
  lemma CutsMeet(to: string, i: nat, j: nat, k: nat)
    requires Absolute(to) && |to| == PATH_MAX - 1
    ensures var view := [Entry("/a", Directory, i, []), Entry("/a/b", Regular, j, []), Entry("/a/c", Regular, k, [])];
      Renames(view, "/a", to) && Clash(view, "/a", to)
      && forall x, y :: 0 <= x < 3 && 0 <= y < 3 ==> !LandsOn(view[x].path, view[y].path, "/a", to)
  {
    var view := [Entry("/a", Directory, i, []), Entry("/a/b", Regular, j, []), Entry("/a/c", Regular, k, [])];
    assert view[0].path == "/a" && view[1].path == "/a/b" && view[2].path == "/a/c";
    assert FindName(view, "/a") == 0;
    NoName(view, to);
    assert "/a/b"[2..] == "/b" && "/a/c"[2..] == "/c" && "/b"[..1] == "/" == "/c"[..1];
    assert Meets(view[1].path, view[2].path, "/a", to);
  }

  lemma ClearIsApart(view: seq<Entry>, from: string, to: string)
    requires UniquePaths(view) && |to| <= PATH_MAX && Fits(view, from, to) && Clear(view, from, to)
    ensures !Clash(view, from, to)
  {
    forall i, j | 0 <= i < |view| && 0 <= j < |view| && i != j ensures !Meets(view[i].path, view[j].path, from, to) {
      assert FitsAt(view[i].path, from, to) && FitsAt(view[j].path, from, to) && ClearAt(view[j].path, from, to);
      FittingMeets(view[i].path, view[j].path, from, to);
      if Below(view[i].path, from) { BelowSplits(to, view[i].path[|from|..]); }
    }
  }

  lemma NamesKept(view: seq<Entry>, from: string, to: string, dir: bool)
    requires Renames(view, from, to) && (dir ==> !Clash(view, from, to))
    ensures Names(Renamed(view, from, to, dir))
  {
    var t := Renamed(view, from, to, dir);
    assert forall j :: 0 <= j < |view| ==> view[j].path != to;
    if dir { UniqueExactly(view, from, to); }
    forall j | 0 <= j < |t| ensures t[j].path != "/" {
      if dir && Below(view[j].path, from) {
        CutKeeps(view[j].path, from, to);
        if to + Kept(view[j].path, from, to) == "/" { SamePrefix(to, Kept(view[j].path, from, to), ""); }
      }
    }
  }

  /** Where a name after the rename came from. */
  function Origin(q: string, from: string, to: string): Option<string> {
    if Moves(q, to) then Some(from + q[|to|..]) else if Moves(q, from) then None else Some(q)
  }

  /** The renamed store, as a map: the old one with the prefix replaced, nothing else changed. */
  lemma RenamedLookup(view: seq<Entry>, from: string, to: string, q: string)
    requires Renames(view, from, to) && Fits(view, from, to) && Clear(view, from, to)
    ensures var was := match Origin(q, from, to) case None => None case Some(p) => Lookup(view, p);
      Lookup(Renamed(view, from, to, true), q) == if was.Some? then Some(was.value.(path := q)) else None
  {
    var t := Renamed(view, from, to, true);
    ClearIsApart(view, from, to);
    NamesKept(view, from, to, true);
    forall j | 0 <= j < |view| ensures t[j].path == q <==> Origin(q, from, to) == Some(view[j].path) {
      assert FitsAt(view[j].path, from, to) && ClearAt(view[j].path, from, to) && view[j].path != to;
      OriginIs(view[j].path, q, from, to);
    }
    var k := FindName(t, q);
    if k < |t| {
      FindIs(view, k);
    } else if Origin(q, from, to).Some? {
      NoName(view, Origin(q, from, to).value);
    }
  }

  lemma OriginIs(p: string, q: string, from: string, to: string)
    requires from != to && p != to && FitsAt(p, from, to) && ClearAt(p, from, to)
    ensures Move(p, from, to, true) == q <==> Origin(q, from, to) == Some(p)
  {
    if p != from && Below(p, from) { BelowSplits(to, p[|from|..]); assert p == from + p[|from|..]; }
    if Moves(q, to) {
      assert q == to + q[|to|..];
      var o := from + q[|to|..];
      if q == to { assert o == from; } else { BelowSplits(from, q[|to|..]); }
    }
  }

  // ---- the operation -------------------------------------------------------------------------

  method IsBelow(path: string, dir: string) returns (b: bool)
    ensures b <==> Below(path, dir)
  {
    for i := 0 to |dir|
      invariant i <= |path| && path[..i] == dir[..i]
    {
      if i == |path| || path[i] != dir[i] {
        Differs(path, dir, i);
        return false;
      }
      assert path[..i + 1] == path[..i] + [path[i]] && dir[..i + 1] == dir[..i] + [dir[i]];
    }
    b := |path| > |dir| && path[|dir|] == '/';
  }

  lemma Differs(path: string, dir: string, i: nat)
    requires i < |dir| && i <= |path| && (i == |path| || path[i] != dir[i])
    ensures !Below(path, dir)
  {
    if |path| > |dir| { assert path[..|dir|][i] == path[i]; }
  }

  /** The new path followed by the rest of the old one, in a buffer of 256 bytes. */
  method Rebuild(to: string, path: string, oldLen: nat) returns (tmp: string)
    requires |to| <= PATH_MAX && oldLen <= |path|
    ensures tmp == Cut(to + path[oldLen..], PATH_MAX)
  {
    tmp := to;
    var k := oldLen;
    while k < |path| && |tmp| < PATH_MAX
      invariant oldLen <= k <= |path| && tmp == to + path[oldLen..k] && |tmp| <= PATH_MAX
    {
      assert path[oldLen..k + 1] == path[oldLen..k] + [path[k]];
      tmp := tmp + [path[k]];
      k := k + 1;
    }
    assert (to + path[oldLen..])[..|tmp|] == tmp;
  }

  /** Names before i, and node k, have moved. */
  ghost predicate MovedTo(was: seq<Entry>, now: seq<Entry>, k: nat, i: nat, from: string, to: string) {
    |was| == |now| && forall j :: 0 <= j < |was| ==>
      now[j] == if j == k then was[j].(path := to)
        else if j < i then was[j].(path := Follow(was[j].path, from, to))
        else was[j]
  }

  /** Names below a moved directory follow it. */
  method MoveChildren(s: Store, node: Node, ghost k: nat, from: string, to: string, ghost was: seq<Entry>)
    requires s.Valid() && k < |s.list| && s.list[k] == node && |to| <= PATH_MAX && MovedTo(was, s.view, k, 0, from, to)
    modifies s`metas, s`view, s.list`path
    ensures s.Valid() && s.view == RenamedAt(was, k, from, to, true)
  {
    var n := s.nodes;
    ghost var i := 0;
    while n != null
      invariant s.Valid() && i <= |s.list| == |s.view| && n == (if i < |s.list| then s.list[i] else null)
      invariant s.list == old(s.list) && MovedTo(was, s.view, k, i, from, to)
      decreases |s.list| - i
    {
      MoveChild(s, node, k, n, i, from, to, was);
      assert NextIs(s.list, i);
      n := n.next;
      i := i + 1;
    }
    AllMoved(was, s.view, k, from, to);
  }

  lemma AllMoved(was: seq<Entry>, now: seq<Entry>, k: nat, from: string, to: string)
    requires MovedTo(was, now, k, |was|, from, to)
    ensures now == RenamedAt(was, k, from, to, true)
  {
  }

  method MoveChild(s: Store, node: Node, ghost k: nat, n: Node, ghost i: nat, from: string, to: string,
                   ghost was: seq<Entry>)
    requires s.Valid() && k < |s.list| && s.list[k] == node && i < |s.list| && s.list[i] == n
    requires |to| <= PATH_MAX && MovedTo(was, s.view, k, i, from, to)
    modifies s`metas, s`view, n`path
    ensures s.Valid() && MovedTo(was, s.view, k, i + 1, from, to)
  {
    s.ShownPath(i);
    if n != node {
      assert i != k && s.view[i] == was[i];
      var below := IsBelow(n.path, from);
      if below {
        var tmp := Rebuild(to, n.path, |from|);
        MovedNext(was, s.view, k, i, from, to);
        s.SetPath(n, i, tmp);
      }
    } else {
      SameNode(s, k, i);
    }
  }

  lemma SameNode(s: Store, k: nat, i: nat)
    requires s.Valid() && k < |s.list| && i < |s.list| && s.list[k] == s.list[i]
    ensures k == i
  {
  }

  lemma MovedNext(was: seq<Entry>, now: seq<Entry>, k: nat, i: nat, from: string, to: string)
    requires i < |was| && i != k && MovedTo(was, now, k, i, from, to)
    ensures MovedTo(was, now[i := was[i].(path := Follow(was[i].path, from, to))], k, i + 1, from, to)
  {
  }

  method Rename(s: Store, from: string, to: string) returns (r: int)
    requires s.Valid() && |to| <= PATH_MAX
    modifies s`metas, s`view, s.list`path
    ensures s.Valid() && (r, s.view) == RenameCall(old(s.view), from, to)
  {
    if from == "/" || to == "/" { return -1; }
    if from == to { return 0; }
    var node := s.FindNode(from);
    if node == null { return -1; }
    var other := s.FindNode(to);
    if other != null { return -1; }
    ghost var was, k := s.view, FindName(s.view, from);
    s.ShownPath(k);
    s.SetPath(node, k, to);
    if node.kind == Directory {
      MoveChildren(s, node, k, from, to, was);
    } else {
      assert s.view == RenamedAt(was, k, from, to, false);
    }
    r := 0;
  }

  /** The two calls of the law above. */
  method RenameAndBack(s: Store, from: string, to: string) returns (there: int, back: int)
    requires s.Valid() && Renames(s.view, from, to) && s.view[FindName(s.view, from)].kind == Directory
    modifies s`metas, s`view, s.list`path
    ensures s.Valid() && there == 0
    ensures back == 0 && s.view == old(s.view)
      <==> Fits(old(s.view), from, to) && Clear(old(s.view), from, to) && !Shadowed(old(s.view), from, to)
  {
    RestoresExactly(s.view, from, to);
    there := Rename(s, from, to);
    back := Rename(s, to, from);
  }
}
