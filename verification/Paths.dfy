/** vfs_resolve_path: the buffer algorithm against the component-stack meaning of a path. */
module Paths {
  import opened Basics

  const BUFFER: nat := 256     // sizeof(temp), and every caller's max_len
  const CAP: nat := 63         // most characters one component holds

  // ---- the reference: split into components, run them over a stack -------------------

  /** Length of the leading stretch without a slash. */
  function Run(p: string): (n: nat)
    ensures n <= |p| && (n < |p| ==> p[n] == '/') && '/' !in p[..n]
  {
    if p == "" || p[0] == '/' then 0 else 1 + Run(p[1..])
  }

  /** Nonempty components, cut at slashes and after at most `cap` characters. */
  function Split(p: string, cap: nat): seq<string>
    requires cap > 0
    decreases |p|
  {
    if p == "" then []
    else if p[0] == '/' then Split(p[1..], cap)
    else
      var n := if Run(p) < cap then Run(p) else cap;
      [p[..n]] + Split(p[n..], cap)
  }

  function Components(p: string): seq<string> { Split(p, |p| + 1) }

  /** "." stays, ".." pops and stops at the root, anything else is entered. */
  function Enter(stack: seq<string>, name: string): seq<string> {
    if name == "." then stack
    else if name == ".." then (if stack == [] then [] else stack[..|stack| - 1])
    else stack + [name]
  }

  function EnterAll(stack: seq<string>, names: seq<string>): seq<string>
    decreases |names|
  {
    if names == [] then stack else EnterAll(Enter(stack, names[0]), names[1..])
  }

  function Slashed(stack: seq<string>): string {
    if stack == [] then "" else Slashed(stack[..|stack| - 1]) + "/" + stack[|stack| - 1]
  }

  function Render(stack: seq<string>): string {
    if stack == [] then "/" else Slashed(stack)
  }

  ghost predicate Name(s: string) { s != "" && '/' !in s && s != "." && s != ".." }

  ghost predicate Clean(stack: seq<string>) { forall s :: s in stack ==> Name(s) }

  ghost predicate Canonical(path: string) { exists stack :: Clean(stack) && path == Render(stack) }

  function Base(cwd: string): seq<string> {
    if cwd == "" || cwd[0] != '/' then [] else Components(cwd)
  }

  /** What the code computes when nothing is truncated: the reference meaning, except that
      components are also cut every 63 characters. */
  function Resolve(cwd: string, path: string): string {
    if path == "" then (if cwd == "" then "/" else cwd)
    else Render(EnterAll(if path[0] == '/' then [] else Base(cwd), Split(path, CAP)))
  }

  /** The POSIX-style reference. */
  function Reference(cwd: string, path: string): string {
    if path == "" then (if cwd == "" then "/" else cwd)
    else Render(EnterAll(if path[0] == '/' then [] else Base(cwd), Components(path)))
  }

  // ---- laws of the split --------------------------------------------------------------

  lemma {:induction false} SplitNames(p: string, cap: nat)
    requires cap > 0
    ensures forall s :: s in Split(p, cap) ==> s != "" && '/' !in s && |s| <= cap
    decreases |p|
  {
    if p != "" {
      if p[0] == '/' {
        SplitNames(p[1..], cap);
      } else {
        var n := if Run(p) < cap then Run(p) else cap;
        assert p[..n] == p[..Run(p)][..n];
        SplitNames(p[n..], cap);
      }
    }
  }

  lemma {:induction false} RunConcat(p: string, q: string)
    ensures Run(p + "/" + q) == Run(p)
  {
    if p != "" && p[0] != '/' {
      assert (p + "/" + q)[1..] == p[1..] + "/" + q;
      RunConcat(p[1..], q);
    }
  }

  lemma {:induction false} SplitConcat(p: string, q: string, cap: nat)
    requires cap > 0
    ensures Split(p + "/" + q, cap) == Split(p, cap) + Split(q, cap)
    decreases |p|
  {
    if p == "" {
      assert (p + "/" + q)[1..] == q;
    } else if p[0] == '/' {
      assert (p + "/" + q)[1..] == p[1..] + "/" + q;
      SplitConcat(p[1..], q, cap);
    } else {
      var n := if Run(p) < cap then Run(p) else cap;
      SplitConcat(p[n..], q, cap);
      SplitStep(p, q, cap, n);
      Regroup([p[..n]], Split(p[n..], cap), Split(q, cap));
    }
  }

  lemma Regroup(a: seq<string>, b: seq<string>, c: seq<string>)
    ensures a + (b + c) == a + b + c
  {
  }

  lemma SplitStep(p: string, q: string, cap: nat, n: nat)
    requires p != "" && p[0] != '/' && cap > 0 && n == if Run(p) < cap then Run(p) else cap
    ensures Split(p + "/" + q, cap) == [p[..n]] + Split(p[n..] + "/" + q, cap)
  {
    RunConcat(p, q);
    var s := p + "/" + q;
    assert s[..n] == p[..n] && s[n..] == p[n..] + "/" + q;
  }

  lemma {:induction false} RunWhole(s: string)
    requires '/' !in s
    ensures Run(s) == |s|
  {
    if s != "" { RunWhole(s[1..]); }
  }

  lemma SplitOne(s: string, cap: nat)
    requires s != "" && '/' !in s && |s| <= cap
    ensures Split(s, cap) == [s]
  {
    RunWhole(s);
    assert s[..|s|] == s && s[|s|..] == "";
  }

  /** Every component short enough: then the cap changes nothing, and only then. */
  lemma {:induction false} CapHarmless(p: string, cap: nat, big: nat)
    requires 0 < cap < big && |p| < big
    ensures Split(p, cap) == Split(p, big) <==> forall s :: s in Split(p, big) ==> |s| <= cap
    decreases |p|
  {
    if p != "" {
      if p[0] == '/' {
        CapHarmless(p[1..], cap, big);
      } else {
        var n := Run(p);
        var rest := Split(p[n..], big);
        assert Split(p, big) == [p[..n]] + rest;
        if n <= cap {
          CapHarmless(p[n..], cap, big);
          assert Split(p, cap) == [p[..n]] + Split(p[n..], cap);
          assert Split(p, cap)[1..] == Split(p[n..], cap) && Split(p, big)[1..] == rest;
        } else {
          assert Split(p, cap)[0] == p[..cap] && Split(p, big)[0] == p[..n];
          assert p[..n] in Split(p, big);
        }
      }
    }
  }

  lemma {:induction false} SplitSlashed(stack: seq<string>, cap: nat)
    requires Clean(stack) && cap > 0 && forall s :: s in stack ==> |s| <= cap
    ensures Split(Slashed(stack), cap) == stack
  {
    if stack != [] {
      var init, last := stack[..|stack| - 1], stack[|stack| - 1];
      assert last in stack && Name(last);
      SplitSlashed(init, cap);
      SplitConcat(Slashed(init), last, cap);
      SplitOne(last, cap);
    }
  }

  lemma {:induction false} SlashedLong(stack: seq<string>)
    ensures forall s :: s in stack ==> |s| < |Slashed(stack)|
  {
    if stack != [] { SlashedLong(stack[..|stack| - 1]); }
  }

  /** A canonical path is parsed back to the stack it renders. */
  lemma ParseRender(stack: seq<string>)
    requires Clean(stack)
    ensures Components(Render(stack)) == stack && Base(Render(stack)) == stack
  {
    SlashedLong(stack);
    SplitSlashed(stack, |Render(stack)| + 1);
    if stack != [] { SlashedStart(stack); }
  }

  lemma {:induction false} SlashedStart(stack: seq<string>)
    requires stack != []
    ensures Slashed(stack) != "" && Slashed(stack)[0] == '/'
  {
    if |stack| > 1 { SlashedStart(stack[..|stack| - 1]); }
  }

  lemma {:induction false} EnterAllConcat(stack: seq<string>, a: seq<string>, b: seq<string>)
    ensures EnterAll(stack, a + b) == EnterAll(EnterAll(stack, a), b)
    decreases |a|
  {
    if a == [] {
      assert a + b == b;
    } else {
      assert (a + b)[1..] == a[1..] + b;
      EnterAllConcat(Enter(stack, a[0]), a[1..], b);
    }
  }

  lemma {:induction false} EnterAllClean(stack: seq<string>, names: seq<string>)
    requires Clean(stack) && forall s :: s in names ==> s != "" && '/' !in s
    ensures Clean(EnterAll(stack, names))
    decreases |names|
  {
    if names != [] {
      assert names[0] in names && forall s :: s in names[1..] ==> s in names;
      EnterClean(stack, names[0]);
      EnterAllClean(Enter(stack, names[0]), names[1..]);
    }
  }

  lemma EnterClean(stack: seq<string>, name: string)
    requires Clean(stack) && name != "" && '/' !in name
    ensures Clean(Enter(stack, name))
  {
    var r := Enter(stack, name);
    forall s | s in r ensures Name(s) { assert s in stack || s == name; }
  }

  lemma {:induction false} EnterAllNames(stack: seq<string>, names: seq<string>)
    requires Clean(names)
    ensures EnterAll(stack, names) == stack + names
    decreases |names|
  {
    if names != [] {
      assert names[0] in names && Name(names[0]);
      EnterAllNames(stack + [names[0]], names[1..]);
      assert stack + names == stack + [names[0]] + names[1..];
    } else {
      assert stack + names == stack;
    }
  }

  // ---- laws of resolution ----------------------------------------------------------------

  ghost predicate GoodCwd(cwd: string) { cwd == "" || cwd[0] != '/' || Canonical(cwd) }

  lemma BaseClean(cwd: string)
    requires GoodCwd(cwd)
    ensures Clean(Base(cwd))
  {
    if Canonical(cwd) {
      var st :| Clean(st) && cwd == Render(st);
      ParseRender(st);
    }
  }

  /** Results are canonical: rooted, no empty, "." or ".." component, no trailing slash. */
  lemma ResolveCanonical(cwd: string, path: string)
    requires GoodCwd(cwd) && path != ""
    ensures Canonical(Resolve(cwd, path))
  {
    BaseClean(cwd);
    SplitNames(path, CAP);
    EnterAllClean(if path[0] == '/' then [] else Base(cwd), Split(path, CAP));
  }

  /** The code sees the reference's components exactly when none is longer than 63. */
  lemma ComponentsExactly(path: string)
    ensures Split(path, CAP) == Components(path) <==> forall s :: s in Components(path) ==> |s| <= CAP
  {
    var big := |path| + CAP + 1;
    CapGrows(path, |path| + 1, big);
    CapHarmless(path, CAP, big);
  }

  lemma ResolveIsReference(cwd: string, path: string)
    requires forall s :: s in Components(path) ==> |s| <= CAP
    ensures Resolve(cwd, path) == Reference(cwd, path)
  {
    ComponentsExactly(path);
  }

  lemma {:induction false} CapGrows(p: string, a: nat, b: nat)
    requires |p| < a && |p| < b
    ensures Split(p, a) == Split(p, b)
    decreases |p|
  {
    if p != "" { CapGrows(if p[0] == '/' then p[1..] else p[Run(p)..], a, b); }
  }

  // What becomes of a name that is too long.

  /** What lies under h more components is popped by the names that follow. */
  predicate Sinks(names: seq<string>, h: nat)
    decreases |names|
  {
    if names == [] then false
    else if names[0] == "." then Sinks(names[1..], h)
    else if names[0] == ".." then h == 0 || Sinks(names[1..], h - 1)
    else Sinks(names[1..], h + 1)
  }

  /** The first name longer than 63 does not outlast the path: a later ".." pops it. */
  predicate FirstPopped(names: seq<string>)
    decreases |names|
  {
    names != [] && if |names[0]| > CAP then Sinks(names[1..], 0) else FirstPopped(names[1..])
  }

  lemma {:induction false} StaysUnder(stack: seq<string>, names: seq<string>, k: nat)
    requires k < |stack| && !Sinks(names, |stack| - 1 - k)
    ensures k < |EnterAll(stack, names)| && EnterAll(stack, names)[k] == stack[k]
    decreases |names|
  {
    if names != [] { StaysUnder(Enter(stack, names[0]), names[1..], k); }
  }

  /** The names of a list, each cut on its own. */
  function Chopped(names: seq<string>): seq<string>
    decreases |names|
  {
    if names == [] then [] else Split(names[0], CAP) + Chopped(names[1..])
  }

  lemma {:induction false} SplitIsChopped(p: string, big: nat)
    requires |p| < big
    ensures Split(p, CAP) == Chopped(Split(p, big))
    decreases |p|
  {
    if p != "" {
      if p[0] == '/' {
        SplitIsChopped(p[1..], big);
      } else {
        var n := Run(p);
        SplitIsChopped(p[n..], big);
        assert Split(p, big)[1..] == Split(p[n..], big);
        FirstRun(p, n);
      }
    }
  }

  lemma FirstRun(p: string, n: nat)
    requires p != "" && p[0] != '/' && n == Run(p)
    ensures Split(p, CAP) == Split(p[..n], CAP) + Split(p[n..], CAP)
  {
    if n < |p| {
      assert p == p[..n] + "/" + p[n + 1..] && p[n..][1..] == p[n + 1..];
      SplitConcat(p[..n], p[n + 1..], CAP);
    } else {
      assert p[..n] == p && p[n..] == "";
    }
  }

  lemma {:induction false} ChoppedShort(names: seq<string>)
    ensures forall s :: s in Chopped(names) ==> |s| <= CAP
    decreases |names|
  {
    if names != [] {
      SplitNames(names[0], CAP);
      ChoppedShort(names[1..]);
    }
  }

  /** A component too long for the cap can only be one of the directory's, at its place. */
  ghost predicate LongFrom(base: seq<string>, r: seq<string>) {
    forall k :: 0 <= k < |r| && |r[k]| > CAP ==> k < |base|
  }

  lemma {:induction false} CutStaysShort(base: seq<string>, stack: seq<string>, names: seq<string>)
    requires LongFrom(base, stack) && forall s :: s in names ==> |s| <= CAP
    ensures LongFrom(base, EnterAll(stack, names))
    decreases |names|
  {
    if names != [] {
      assert names[0] in names && forall s :: s in names[1..] ==> s in names;
      CutStaysShort(base, Enter(stack, names[0]), names[1..]);
    }
  }

  lemma RenderInjective(a: seq<string>, b: seq<string>)
    requires Clean(a) && Clean(b) && Render(a) == Render(b)
    ensures a == b
  {
    ParseRender(a);
    ParseRender(b);
  }

  /** Unless a ".." pops the first of its names that is too long, a path resolves to what it
      means exactly when it has no such name. */
  lemma ResolveExactly(cwd: string, path: string)
    requires GoodCwd(cwd) && path != "" && !FirstPopped(Components(path))
    ensures Resolve(cwd, path) == Reference(cwd, path) <==> forall s :: s in Components(path) ==> |s| <= CAP
  {
    if forall s :: s in Components(path) ==> |s| <= CAP {
      ComponentsExactly(path);
    } else {
      BaseClean(cwd);
      LongDiffers(if path[0] == '/' then [] else Base(cwd), path);
    }
  }

  lemma LongDiffers(base: seq<string>, path: string)
    requires Clean(base) && !FirstPopped(Components(path)) && exists s :: s in Components(path) && |s| > CAP
    ensures Render(EnterAll(base, Split(path, CAP))) != Render(EnterAll(base, Components(path)))
  {
    SplitNames(path, CAP);
    SplitNames(path, |path| + 1);
    SplitIsChopped(path, |path| + 1);
    EndsDiffer(base, Split(path, CAP), Components(path));
  }

  lemma EndsDiffer(base: seq<string>, cut: seq<string>, names: seq<string>)
    requires Clean(base) && cut == Chopped(names) && !FirstPopped(names) && exists s :: s in names && |s| > CAP
    requires forall s :: s in cut || s in names ==> s != "" && '/' !in s
    ensures Render(EnterAll(base, cut)) != Render(EnterAll(base, names))
  {
    EnterAllClean(base, cut);
    EnterAllClean(base, names);
    StacksDiffer(base, names);
    if Render(EnterAll(base, cut)) == Render(EnterAll(base, names)) {
      RenderInjective(EnterAll(base, cut), EnterAll(base, names));
    }
  }

  lemma {:induction false} StacksDiffer(stack: seq<string>, names: seq<string>)
    requires (forall s :: s in names ==> s != "" && '/' !in s) && !FirstPopped(names)
    requires exists s :: s in names && |s| > CAP
    ensures EnterAll(stack, Chopped(names)) != EnterAll(stack, names)
    decreases |names|
  {
    var first, rest := names[0], names[1..];
    assert first in names && forall s :: s in rest ==> s in names;
    if |first| <= CAP {
      SplitOne(first, CAP);
      assert Chopped(names) == [first] + Chopped(rest) && ([first] + Chopped(rest))[1..] == Chopped(rest);
      StacksDiffer(Enter(stack, first), rest);
    } else {
      StaysUnder(stack + [first], rest, |stack|);
      assert EnterAll(stack, names)[|stack|] == first;
      ChoppedShort(names);
      CutStaysShort(stack, stack, Chopped(names));
    }
  }

  /** In particular when the path does not climb at all. */
  lemma {:induction false} FlatStays(names: seq<string>, h: nat)
    requires ".." !in names
    ensures !Sinks(names, h) && !FirstPopped(names)
    decreases |names|
  {
    if names != [] {
      assert names[0] in names && forall s :: s in names[1..] ==> s in names;
      FlatStays(names[1..], h);
      FlatStays(names[1..], h + 1);
      FlatStays(names[1..], 0);
    }
  }

  const UP: string := ".."

  /** With "..", a long name may be gone again by the end: at the root both meanings agree. */
  lemma ClimbingHides(cwd: string, name: string)
    requires '/' !in name && CAP < |name| <= 2 * CAP && Name(name[CAP..])
    ensures var p := "/" + name + "/" + UP + "/" + UP; Resolve(cwd, p) == Reference(cwd, p) == "/"
  {
    var p := "/" + name;
    var path := p + "/" + UP + "/" + UP;
    assert path[0] == '/';
    TwoUp(p, CAP);
    TwoUp(p, |path| + 1);
    LongNameSplits(name, |path| + 1);
    EnterUp([name[..CAP], name[CAP..]]);
    EnterUp([name]);
  }

  /** ... and elsewhere they differ: one ".." takes away the tail only. */
  lemma ClimbingMisses(cwd: string, name: string)
    requires '/' !in name && CAP < |name| <= 2 * CAP && Name(name[CAP..])
    ensures var p := "/" + name + "/" + UP; Resolve(cwd, p) == "/" + name[..CAP] && Reference(cwd, p) == "/"
  {
    var p, head, tail := "/" + name, name[..CAP], name[CAP..];
    var path := p + "/" + UP;
    assert path[0] == '/';
    OneUp(p, CAP);
    OneUp(p, |path| + 1);
    LongNameSplits(name, |path| + 1);
    BackOnce(head, tail, name);
    RenderOne(head);
  }

  lemma BackOnce(head: string, tail: string, name: string)
    requires Name(head) && Name(tail) && Name(name)
    ensures EnterAll([], [head, tail] + [UP]) == [head] && EnterAll([], [name] + [UP]) == []
  {
    OneBack([], name);
    OneBack([head], tail);
    assert [] + [name] == [name] && [head] + [tail] == [head, tail];
  }

  lemma OneUp(p: string, cap: nat)
    requires cap >= 2
    ensures Split(p + "/" + UP, cap) == Split(p, cap) + [UP]
  {
    SplitConcat(p, UP, cap);
    SplitOne(UP, cap);
  }

  /** A last name that is popped at once. */
  lemma OneBack(names: seq<string>, last: string)
    requires Clean(names) && Name(last)
    ensures EnterAll([], names + [last] + [UP]) == names
  {
    assert Clean(names + [last]);
    EnterAllNames([], names + [last]);
    EnterAllConcat([], names + [last], [UP]);
    assert [] + (names + [last]) == names + [last] && [UP][1..] == [];
    assert (names + [last])[..|names|] == names;
  }

  lemma TwoUp(p: string, cap: nat)
    requires cap >= 2
    ensures Split(p + "/" + UP + "/" + UP, cap) == Split(p, cap) + [UP, UP]
  {
    SplitConcat(p + "/" + UP, UP, cap);
    SplitConcat(p, UP, cap);
    SplitOne(UP, cap);
  }

  lemma EnterUp(names: seq<string>)
    requires Clean(names) && |names| <= 2
    ensures EnterAll([], names + [UP, UP]) == []
  {
    EnterAllNames([], names);
    EnterAllConcat([], names, [UP, UP]);
    assert [] + names == names && [UP, UP][1..] == [UP];
    assert EnterAll(names, [UP, UP]) == EnterAll(Enter(names, UP), [UP]) == Enter(Enter(names, UP), UP);
  }

  lemma LongNameSplits(name: string, big: nat)
    requires '/' !in name && CAP < |name| <= 2 * CAP && |name| <= big
    ensures Split("/" + name, CAP) == [name[..CAP], name[CAP..]] && Split("/" + name, big) == [name]
  {
    var p := "/" + name;
    assert p[1..] == name;
    RunWhole(name);
    SplitOne(name, big);
    SplitOne(name[CAP..], CAP);
  }

  /** A name of 65 characters that ends in two dots names the directory it is looked up in. */
  lemma LongNameClimbs(cwd: string, name: string)
    requires GoodCwd(cwd) && '/' !in name && |name| == CAP + 2 && name[CAP..] == ".."
    ensures Resolve(cwd, name) == Render(Base(cwd))
    ensures Reference(cwd, name) == Render(Base(cwd) + [name])
  {
    var head := name[..CAP];
    RunWhole(name);
    SplitOne(UP, CAP);
    SplitOne(name, |name| + 1);
    assert Split(name, CAP) == [head] + [UP];
    Bounce(Base(cwd), head);
    assert EnterAll(Base(cwd), [name]) == Base(cwd) + [name];
  }

  lemma Bounce(base: seq<string>, head: string)
    requires head != "." && head != UP
    ensures EnterAll(base, [head] + [UP]) == base
  {
    EnterAllConcat(base, [head], [UP]);
    assert (base + [head])[..|base|] == base && [UP][1..] == [] && [head][1..] == [];
  }

  /** A longer name comes out as two components. */
  lemma LongNameIsCut(cwd: string, name: string)
    requires '/' !in name && CAP < |name| <= 2 * CAP && Name(name[CAP..])
    ensures Reference(cwd, "/" + name) == "/" + name
    ensures Resolve(cwd, "/" + name) == "/" + name[..CAP] + "/" + name[CAP..]
  {
    var head, tail := name[..CAP], name[CAP..];
    LongNameSplits(name, |"/" + name| + 1);
    assert Name(head) && Name(name);
    EnterAllNames([], [head, tail]);
    EnterAllNames([], [name]);
    assert [] + [head, tail] == [head, tail] && [] + [name] == [name];
    RenderTwo(head, tail);
    RenderOne(name);
  }

  lemma RenderOne(a: string)
    ensures Render([a]) == "/" + a
  {
    assert [a][..0] == [] && Slashed([a]) == Slashed([]) + "/" + a;
  }

  lemma RenderTwo(a: string, b: string)
    ensures Render([a, b]) == "/" + a + "/" + b
  {
    RenderOne(a);
    assert [a, b][..1] == [a];
  }

  /** Resolving a canonical path changes nothing, from any directory. */
  lemma ResolveIdempotent(cwd: string, path: string)
    requires Canonical(path) && forall s :: s in Components(path) ==> |s| <= CAP
    ensures Resolve(cwd, path) == path
  {
    var st :| Clean(st) && path == Render(st);
    ParseRender(st);
    SplitSlashed(st, CAP);
    if st != [] { SlashedStart(st); }
    EnterAllNames([], st);
    assert [] + st == st;
    assert Split(path, CAP) == st by { if st == [] { assert path[1..] == ""; } }
    assert path != "" && path[0] == '/';
  }

  const DOT: string := "."

  function Joined(cwd: string, name: string): string { if cwd == "/" then "/" + name else cwd + "/" + name }

  lemma RenderNext(stack: seq<string>, name: string)
    requires Clean(stack) && Name(name)
    ensures Clean(stack + [name]) && Render(stack + [name]) == Joined(Render(stack), name)
  {
    var next := stack + [name];
    assert next[..|stack|] == stack && next[|stack|] == name;
    assert Render(next) == Slashed(stack) + "/" + name;
    forall s | s in next ensures Name(s) { assert s in stack || s == name; }
    if stack != [] { RenderPop(stack); }
  }

  /** The moves a path is made of, from a directory the kernel could have set: a name leads below it,
      a dot stays, two dots lead back up, and stay at the root. */
  lemma ResolveSteps(cwd: string, stack: seq<string>, name: string)
    requires Clean(stack) && cwd == Render(stack) && Name(name) && |name| <= 63
    ensures Resolve(cwd, name) == Joined(cwd, name)
    ensures Resolve(cwd, DOT) == cwd
    ensures Resolve(Joined(cwd, name), UP) == cwd
    ensures stack == [] ==> Resolve(cwd, UP) == cwd
  {
    ParseRender(stack);
    RenderNext(stack, name);
    ParseRender(stack + [name]);
    OneName(stack, name);
    OneName(stack, DOT);
    OneName(stack + [name], UP);
    OneName(stack, UP);
    assert (stack + [name])[..|stack|] == stack;
  }

  /** A path of one component. */
  lemma OneName(stack: seq<string>, name: string)
    requires name != "" && '/' !in name && |name| <= 63
    ensures EnterAll(stack, Split(name, CAP)) == Enter(stack, name)
  {
    SplitOne(name, CAP);
    assert [name][1..] == [];
  }

  /** A leading slash makes the directory irrelevant. */
  lemma ResolveAbsolute(cwd: string, other: string, path: string)
    requires path != "" && path[0] == '/'
    ensures Resolve(cwd, path) == Resolve(other, path)
  {
  }

  /** Resolving p and then a relative q is resolving p/q. */
  lemma ResolveCompose(cwd: string, p: string, q: string)
    requires GoodCwd(cwd) && p != "" && (q == "" || q[0] != '/')
    ensures Resolve(Resolve(cwd, p), q) == Resolve(cwd, p + "/" + q)
  {
    var base := if p[0] == '/' then [] else Base(cwd);
    var mid := EnterAll(base, Split(p, CAP));
    SplitConcat(p, q, CAP);
    EnterAllConcat(base, Split(p, CAP), Split(q, CAP));
    BaseClean(cwd);
    SplitNames(p, CAP);
    EnterAllClean(base, Split(p, CAP));
    ParseRender(mid);
    if mid != [] { SlashedStart(mid); }
  }

  // ---- the buffer algorithm ----------------------------------------------------------------

  /** Every intermediate path fits the 256-byte buffer. */
  ghost predicate Fits(stack: seq<string>, names: seq<string>)
    decreases |names|
  {
    |Render(stack)| < BUFFER && (names == [] || Fits(Enter(stack, names[0]), names[1..]))
  }

  lemma {:induction false} RenderPop(stack: seq<string>)
    requires Clean(stack) && |stack| > 0
    ensures Render(stack) == Slashed(stack[..|stack| - 1]) + "/" + stack[|stack| - 1]
    ensures |stack| > 1 ==> Render(stack[..|stack| - 1]) == Slashed(stack[..|stack| - 1])
    ensures |Render(stack)| > 1 && Render(stack)[|Render(stack)| - 1] != '/'
  {
    assert stack[|stack| - 1] in stack;
  }

  lemma RenderEnter(stack: seq<string>, name: string)
    requires Clean(stack)
    ensures |Render(Enter(stack, name))| <= |Render(stack)| + 1 + |name|
  {
    var next := stack + [name];
    assert next[..|next| - 1] == stack && Slashed(next) == Slashed(stack) + "/" + name;
    if stack != [] { RenderPop(stack); }
  }

  /** The canonical result's length, a bound a caller can check: it fits when the directory,
      a slash and the path do. */
  lemma {:induction false} ShortFits(stack: seq<string>, names: seq<string>, budget: nat)
    requires Clean(stack) && forall s :: s in names ==> s != "" && '/' !in s
    requires |Render(stack)| + Weight(names) <= budget < BUFFER
    ensures Fits(stack, names)
    decreases |names|
  {
    if names != [] {
      var next := Enter(stack, names[0]);
      assert names[0] in names && forall s :: s in names[1..] ==> s in names;
      EnterClean(stack, names[0]);
      RenderEnter(stack, names[0]);
      ShortFits(next, names[1..], budget);
    }
  }

  function Weight(names: seq<string>): nat {
    if names == [] then 0 else 1 + |names[0]| + Weight(names[1..])
  }

  /** The text in the buffer is the rendering of `stack`. */
  ghost predicate Holds(temp: array<char>, len: nat, stack: seq<string>)
    reads temp
  {
    Clean(stack) && len <= temp.Length && temp[..len] == Render(stack)
  }

  /** Drop the last component of temp[..len]. */
  method Pop(temp: array<char>, len0: nat, ghost stack: seq<string>) returns (len: nat)
    requires temp.Length == BUFFER && 1 <= len0 < BUFFER
    modifies temp
    ensures 1 <= len <= len0
    ensures old(Holds(temp, len0, stack)) ==> Holds(temp, len, Enter(stack, ".."))
  {
    len := len0;
    if len > 1 {
      ghost var text := temp[..len0];
      if temp[len - 1] == '/' { len := len - 1; }
      while len > 1 && temp[len - 1] != '/'
        invariant 1 <= len <= len0
        invariant forall k :: len <= k < len0 - 1 ==> temp[k] != '/'
        invariant temp[len0 - 1] != '/' ==> forall k :: len <= k < len0 ==> temp[k] != '/'
      {
        len := len - 1;
      }
      ghost var cut := len;
      if len > 1 && temp[len - 1] == '/' { len := len - 1; }
      temp[len] := 0 as char;
      if old(Holds(temp, len0, stack)) {
        LastSlash(text, stack, cut);
        PopHolds(temp[..len], text, stack, len);
      }
    }
  }

  lemma LastSlash(text: string, stack: seq<string>, k: nat)
    requires Clean(stack) && text == Render(stack) && 1 < |text| && 1 <= k <= |text|
    requires k > 1 ==> text[k - 1] == '/'
    requires text[|text| - 1] != '/' ==> forall i :: k <= i < |text| ==> text[i] != '/'
    ensures stack != [] && k == |Slashed(stack[..|stack| - 1])| + 1
  {
    RenderPop(stack);
    var b, last := |Slashed(stack[..|stack| - 1])|, stack[|stack| - 1];
    assert last in stack && Name(last);
    assert text[b] == '/' && text[b + 1..] == last;
    assert forall i :: b < i < |text| ==> text[i] == last[i - b - 1];
  }

  lemma PopHolds(now: string, was: string, stack: seq<string>, len: nat)
    requires Clean(stack) && was == Render(stack) && len <= |was| && now == was[..len] && |was| > 1
    requires stack != [] && var init := Slashed(stack[..|stack| - 1]); len == if init == "" then 1 else |init|
    ensures now == Render(stack[..|stack| - 1])
  {
    RenderPop(stack);
    var init := stack[..|stack| - 1];
    if init != [] { SlashedStart(init); }
  }

  /** Append a component, with a slash unless the buffer already ends in one; what does not
      fit is cut off. */
  method Push(temp: array<char>, len0: nat, comp: string, ghost stack: seq<string>) returns (len: nat)
    requires temp.Length == BUFFER && 1 <= len0 < BUFFER && Name(comp)
    modifies temp
    ensures len0 <= len < BUFFER
    ensures old(Holds(temp, len0, stack)) && |Render(stack + [comp])| < BUFFER ==> Holds(temp, len, stack + [comp])
  {
    len := len0;
    if temp[len - 1] != '/' {
      if len < BUFFER - 1 {
        temp[len] := '/';
        len := len + 1;
      }
    }
    ghost var pre := temp[..len];
    len := Append(temp, len, comp);
    if old(Holds(temp, len0, stack)) && |Render(stack + [comp])| < BUFFER {
      ghost var text := old(temp[..len0]);
      assert pre == text + if text[|text| - 1] == '/' then "" else "/";
      Pushed(stack, comp, text, pre, temp[..len]);
    }
  }

  lemma Pushed(stack: seq<string>, comp: string, text: string, pre: string, now: string)
    requires Clean(stack) && Name(comp) && text == Render(stack) && text != "" && |Render(stack + [comp])| < BUFFER
    requires pre == text + if text[|text| - 1] == '/' then "" else "/"
    requires |pre| < BUFFER && |now| == (if |pre| + |comp| < BUFFER then |pre| + |comp| else BUFFER - 1)
    requires now == pre + comp[..|now| - |pre|]
    ensures Clean(stack + [comp]) && now == Render(stack + [comp])
  {
    PushRender(stack, comp, text);
    EnterClean(stack, comp);
    assert Enter(stack, comp) == stack + [comp];
    assert comp[..|comp|] == comp;
  }

  method Append(temp: array<char>, len0: nat, comp: string) returns (len: nat)
    requires temp.Length == BUFFER && len0 < BUFFER
    modifies temp
    ensures len == if len0 + |comp| < BUFFER then len0 + |comp| else BUFFER - 1
    ensures temp[..len] == old(temp[..len0]) + comp[..len - len0]
  {
    var i := 0;
    while i < |comp| && len0 + i < BUFFER - 1
      invariant i <= |comp| && len0 + i < BUFFER
      invariant forall k :: 0 <= k < len0 ==> temp[k] == old(temp[k])
      invariant forall k :: 0 <= k < i ==> temp[len0 + k] == comp[k]
    {
      temp[len0 + i] := comp[i];
      i := i + 1;
    }
    len := len0 + i;
    temp[len] := 0 as char;
  }

  lemma PushRender(stack: seq<string>, comp: string, text: string)
    requires Clean(stack) && Name(comp) && text == Render(stack)
    ensures Render(stack + [comp]) == text + (if text[|text| - 1] == '/' then "" else "/") + comp
  {
    var next := stack + [comp];
    assert next[..|next| - 1] == stack && Slashed(next) == Slashed(stack) + "/" + comp;
    if stack != [] { RenderPop(stack); }
  }

  /** vfs_resolve_path. Whatever the input, nothing is written outside the buffers and the
      result is terminated; when nothing is truncated on the way it is Resolve(cwd, path), cut
      to max_len - 1 characters. */
  method ResolvePath(cwd: string, path: string, out: array<char>, maxLen: nat) returns (n: nat)
    requires 2 <= maxLen <= out.Length
    modifies out
    ensures n < maxLen && out[n] == 0 as char
    ensures Untruncated(cwd, path) ==> out[..n] == Cut(Resolve(cwd, path), maxLen - 1)
  {
    if path == "" {
      n := CopyOut(if cwd == "" then "/" else cwd, out, maxLen);
      return;
    }
    var temp := new char[BUFFER](_ => 0 as char);
    var len := LoadBase(cwd, path, temp);
    len := Walk(path, temp, len, if path[0] == '/' then [] else Base(cwd));
    n := CopyOut(temp[..len], out, maxLen);
  }

  /** A current directory the kernel could have set, and room for every path on the way. */
  ghost predicate Untruncated(cwd: string, path: string) {
    path == "" || (path[0] == '/' && Fits([], Split(path, CAP)))
    || (path[0] != '/' && GoodCwd(cwd) && |cwd| <= BUFFER - 2 && Fits(Base(cwd), Split(path, CAP)))
  }

  /** The walk starts at the root or at as much of the current directory as fits. */
  method LoadBase(cwd: string, path: string, temp: array<char>) returns (len: nat)
    requires temp.Length == BUFFER && path != ""
    modifies temp
    ensures 1 <= len < BUFFER
    ensures path[0] == '/' ==> Holds(temp, len, [])
    ensures path[0] != '/' && GoodCwd(cwd) && |cwd| <= BUFFER - 2 ==> Holds(temp, len, Base(cwd))
  {
    if path[0] == '/' || cwd == "" || cwd[0] != '/' {
      temp[0] := '/';
      len := 1;
    } else {
      len := 0;
      while len < |cwd| && len < BUFFER - 2
        invariant len <= |cwd| && len <= BUFFER - 2 && temp[..len] == cwd[..len]
      {
        temp[len] := cwd[len];
        len := len + 1;
      }
      if GoodCwd(cwd) { CwdBase(cwd); BaseClean(cwd); }
    }
  }

  method CopyOut(s: string, out: array<char>, maxLen: nat) returns (n: nat)
    requires 2 <= maxLen <= out.Length
    modifies out
    ensures n < maxLen && out[n] == 0 as char && out[..n] == Cut(s, maxLen - 1)
  {
    n := 0;
    while n < |s| && n < maxLen - 1
      invariant n <= |s| && n <= maxLen - 1 && out[..n] == s[..n]
    {
      out[n] := s[n];
      n := n + 1;
    }
    out[n] := 0 as char;
  }

  lemma CwdBase(cwd: string)
    requires Canonical(cwd)
    ensures Render(Base(cwd)) == cwd
  {
    var st :| Clean(st) && cwd == Render(st);
    ParseRender(st);
  }

  /** The component loop. */
  method Walk(path: string, temp: array<char>, len0: nat, ghost base: seq<string>) returns (len: nat)
    requires temp.Length == BUFFER && 1 <= len0 < BUFFER
    modifies temp
    ensures 1 <= len < BUFFER
    ensures old(Holds(temp, len0, base)) && Fits(base, Split(path, CAP)) ==>
      temp[..len] == Render(EnterAll(base, Split(path, CAP)))
  {
    len := len0;
    var i := 0;
    ghost var stack, good := base, Holds(temp, len0, base) && Fits(base, Split(path, CAP));
    assert path[0..] == path;
    while i < |path|
      invariant i <= |path| && 1 <= len < BUFFER
      invariant good ==> Going(temp, len, stack, path, i)
      invariant EnterAll(stack, Split(path[i..], CAP)) == EnterAll(base, Split(path, CAP))
    {
      if path[i] == '/' {
        assert path[i..][1..] == path[i + 1..];
        i := i + 1;
      } else {
        len, i, stack := WalkOne(path, i, temp, len, stack);
      }
    }
  }

  ghost predicate Going(temp: array<char>, len: nat, stack: seq<string>, path: string, i: nat)
    requires i <= |path|
    reads temp
  {
    Holds(temp, len, stack) && Fits(stack, Split(path[i..], CAP))
  }

  /** One component. */
  method WalkOne(path: string, i: nat, temp: array<char>, len0: nat, ghost stack: seq<string>)
    returns (len: nat, next: nat, ghost now: seq<string>)
    requires temp.Length == BUFFER && 1 <= len0 < BUFFER && i < |path| && path[i] != '/'
    modifies temp
    ensures 1 <= len < BUFFER && i < next <= |path|
    ensures EnterAll(now, Split(path[next..], CAP)) == EnterAll(stack, Split(path[i..], CAP))
    ensures old(Going(temp, len0, stack, path, i)) ==> Going(temp, len, now, path, next)
  {
    var clen := NextComponent(path, i);
    next := i + clen;
    var comp := path[i..next];
    now := Enter(stack, comp);
    OneComponent(stack, path, i, clen, next, now);
    len := Apply(temp, len0, comp, stack);
  }

  lemma OneComponent(stack: seq<string>, path: string, i: nat, clen: nat, next: nat, now: seq<string>)
    requires i < |path| && path[i] != '/' && i + clen == next <= |path| && now == Enter(stack, path[i..next])
    requires clen == if Run(path[i..]) < CAP then Run(path[i..]) else CAP
    ensures '/' !in path[i..next] && path[i..next] != ""
    ensures EnterAll(now, Split(path[next..], CAP)) == EnterAll(stack, Split(path[i..], CAP))
    ensures Fits(stack, Split(path[i..], CAP)) ==> |Render(now)| < BUFFER && Fits(now, Split(path[next..], CAP))
  {
    ComponentStep(path, i, clen);
    EnterFirst(stack, Split(path[i..], CAP), path[i..next], Split(path[next..], CAP));
  }

  lemma EnterFirst(stack: seq<string>, names: seq<string>, name: string, rest: seq<string>)
    requires names == [name] + rest
    ensures EnterAll(stack, names) == EnterAll(Enter(stack, name), rest)
    ensures Fits(stack, names) ==> |Render(Enter(stack, name))| < BUFFER && Fits(Enter(stack, name), rest)
  {
    assert names[0] == name && names[1..] == rest;
    if Fits(stack, names) { assert Fits(Enter(stack, name), rest); }
  }

  method Apply(temp: array<char>, len0: nat, comp: string, ghost stack: seq<string>) returns (len: nat)
    requires temp.Length == BUFFER && 1 <= len0 < BUFFER && comp != "" && '/' !in comp
    modifies temp
    ensures 1 <= len < BUFFER
    ensures old(Holds(temp, len0, stack)) && |Render(Enter(stack, comp))| < BUFFER ==>
      Holds(temp, len, Enter(stack, comp))
  {
    if comp == "." {
      len := len0;
    } else if comp == ".." {
      len := Pop(temp, len0, stack);
    } else {
      len := Push(temp, len0, comp, stack);
    }
  }

  method NextComponent(path: string, i: nat) returns (clen: nat)
    requires i < |path| && path[i] != '/'
    ensures clen == if Run(path[i..]) < CAP then Run(path[i..]) else CAP
    ensures 0 < clen && i + clen <= |path|
  {
    clen := 0;
    while i + clen < |path| && path[i + clen] != '/' && clen < CAP
      invariant i + clen <= |path| && clen <= CAP && clen <= Run(path[i..])
    {
      RunGoesOn(path[i..], clen);
      clen := clen + 1;
    }
  }

  lemma RunGoesOn(p: string, k: nat)
    requires k < |p| && k <= Run(p) && p[k] != '/'
    ensures k < Run(p)
  {
  }

  lemma ComponentStep(path: string, i: nat, clen: nat)
    requires i < |path| && path[i] != '/' && i + clen <= |path|
    requires clen == if Run(path[i..]) < CAP then Run(path[i..]) else CAP
    ensures Split(path[i..], CAP) == [path[i..i + clen]] + Split(path[i + clen..], CAP)
    ensures '/' !in path[i..i + clen] && path[i..i + clen] != ""
  {
    var p := path[i..];
    assert p[..clen] == path[i..i + clen] && p[clen..] == path[i + clen..];
    assert p[..clen] == p[..Run(p)][..clen];
  }
}
