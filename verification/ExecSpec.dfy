/** Argument vectors in user memory: how exec reads them, and the stack it builds for the new
    program, which reads back as the same vectors. */
module ExecSpec {
  import opened Basics

  const MAX_ARGS: nat := 64
  const MAX_STRLEN: nat := 1024
  const MAX_TOTAL: nat := 8192
  const STACK_SIZE: nat := 16384

  type Text = seq<byte>

  /** User memory: the readable addresses and what they hold. */
  type Memory = map<nat, byte>

  function Word(m: Memory, a: nat): Option<nat> {
    if a in m && a + 1 in m && a + 2 in m && a + 3 in m then Some(FromWord(m[a], m[a + 1], m[a + 2], m[a + 3]))
    else None
  }

  // ---- strings and vectors in memory -----------------------------------------------------

  function Byte(m: Memory, a: nat): Option<byte> { if a in m then Some(m[a]) else None }

  function Peek(m: Memory, a: nat): byte { match Byte(m, a) case None => 0 case Some(c) => c }

  ghost predicate CharAt(m: Memory, a: nat, k: nat, c: byte) { Byte(m, a + k) == Some(c) }

  /** s, free of NULs, followed by a NUL. */
  ghost predicate StringAt(m: Memory, a: nat, s: Text) {
    CharAt(m, a, |s|, 0) && forall k :: 0 <= k < |s| ==> s[k] != 0 && CharAt(m, a, k, s[k])
  }

  ghost predicate PointsTo(m: Memory, p: nat, s: Text) {
    Word(m, p).Some? && Word(m, p).value != 0 && StringAt(m, Word(m, p).value, s)
  }

  /** Entry i of the pointer array at u. */
  ghost predicate Slot(m: Memory, u: nat, i: nat, s: Text) { PointsTo(m, u + 4 * i, s) }

  /** A NULL-terminated array of pointers to the strings v. */
  ghost predicate VecAt(m: Memory, u: nat, v: seq<Text>) {
    Word(m, u + 4 * |v|) == Some(0) && forall i :: 0 <= i < |v| ==> Slot(m, u, i, v[i])
  }

  function Flat(v: seq<Text>): seq<byte> { if v == [] then [] else v[0] + [0] + Flat(v[1..]) }

  ghost predicate Short(s: Text) { |s| < MAX_STRLEN }

  ghost predicate Limits(v: seq<Text>, max: nat, total: nat) {
    |v| <= max && total + |Flat(v)| <= MAX_TOTAL && forall i :: 0 <= i < |v| ==> Short(v[i])
  }

  // ---- how exec reads them ------------------------------------------------------------------

  /** The distance from a to the first NUL at or after p, below the limit. */
  function Scan(m: Memory, a: nat, p: nat): (r: Option<nat>)
    requires a <= p
    ensures r.Some? ==> p <= a + r.value < a + MAX_STRLEN
    decreases a + MAX_STRLEN - p
  {
    if p >= a + MAX_STRLEN then None
    else match Byte(m, p)
      case None => None
      case Some(c) => if c == 0 then Some(p - a) else Scan(m, a, p + 1)
  }

  function StrLen(m: Memory, a: nat): (r: Option<nat>)
    ensures r.Some? ==> r.value < MAX_STRLEN
  {
    Scan(m, a, a)
  }

  function TextAt(m: Memory, a: nat, len: nat): Text {
    seq<byte>(len, k requires 0 <= k < len => Peek(m, a + k))
  }

  /** The vector from entry i on, with `total` bytes read before it. */
  function ReadVec(m: Memory, u: nat, i: nat, max: nat, total: nat): Option<seq<Text>>
    requires i <= max
    decreases max - i
  {
    match Word(m, u + 4 * i)
    case None => None
    case Some(a) =>
      if a == 0 then Some([])
      else if i == max then None
      else match StrLen(m, a)
        case None => None
        case Some(len) =>
          if total + len + 1 > MAX_TOTAL then None
          else match ReadVec(m, u, i + 1, max, total + len + 1)
            case None => None
            case Some(rest) => Some([TextAt(m, a, len)] + rest)
  }

  lemma {:induction false} ScanIs(m: Memory, a: nat, i: nat, s: Text)
    requires i <= |s| < MAX_STRLEN && StringAt(m, a, s)
    ensures Scan(m, a, a + i) == Some(|s|)
    decreases |s| - i
  {
    if i < |s| {
      assert CharAt(m, a, i, s[i]);
      ScanIs(m, a, i + 1, s);
    }
  }

  lemma {:induction false} ScanReads(m: Memory, a: nat, i: nat)
    requires Scan(m, a, a + i).Some?
    ensures var n := Scan(m, a, a + i).value; CharAt(m, a, n, 0)
    ensures forall k :: i <= k < Scan(m, a, a + i).value ==> Letter(m, a, k)
    decreases MAX_STRLEN - i
  {
    if Byte(m, a + i) != Some(0) {
      assert Letter(m, a, i);
      ScanReads(m, a, i + 1);
    }
  }

  ghost predicate Letter(m: Memory, a: nat, k: nat) { Byte(m, a + k).Some? && Byte(m, a + k).value != 0 }

  lemma TextIs(m: Memory, a: nat, s: Text)
    requires StringAt(m, a, s)
    ensures TextAt(m, a, |s|) == s
  {
    forall k | 0 <= k < |s| ensures TextAt(m, a, |s|)[k] == s[k] {
      assert CharAt(m, a, k, s[k]) && Peek(m, a + k) == s[k];
    }
  }

  /** The vector from entry i on. */
  ghost predicate VecFrom(m: Memory, u: nat, i: nat, v: seq<Text>)
    decreases |v|
  {
    if v == [] then Word(m, u + 4 * i) == Some(0) else Slot(m, u, i, v[0]) && VecFrom(m, u, i + 1, v[1..])
  }

  lemma {:induction false} VecPoints(m: Memory, u: nat, i: nat, v: seq<Text>, k: nat)
    requires VecFrom(m, u, i, v) && k <= |v|
    ensures if k < |v| then Slot(m, u, i + k, v[k]) else Word(m, u + 4 * (i + k)) == Some(0)
    decreases k
  {
    if k > 0 { VecPoints(m, u, i + 1, v[1..], k - 1); }
  }

  lemma {:induction false} VecSuffix(m: Memory, u: nat, v: seq<Text>, i: nat)
    requires VecAt(m, u, v) && i <= |v|
    ensures VecFrom(m, u, i, v[i..])
    decreases |v| - i
  {
    if i < |v| {
      VecSuffix(m, u, v, i + 1);
      assert v[i..][1..] == v[i + 1..];
      assert Slot(m, u, i, v[i]);
    }
  }

  lemma LimitsTail(v: seq<Text>, room: nat, total: nat)
    requires v != [] && room > 0
    ensures Limits(v, room, total) <==> Short(v[0]) && Limits(v[1..], room - 1, total + |v[0]| + 1)
  {
    var t := v[1..];
    forall k | 0 <= k < |t| ensures t[k] == v[k + 1] { }
    if Short(v[0]) && Limits(t, room - 1, total + |v[0]| + 1) {
      forall k | 0 <= k < |v| ensures Short(v[k]) { if k > 0 { assert v[k] == t[k - 1]; } }
    }
  }

  /** Reading finds every vector that is there and within limits. */
  lemma {:induction false} ReadFinds(m: Memory, u: nat, i: nat, max: nat, total: nat, v: seq<Text>)
    requires i <= max && VecFrom(m, u, i, v) && Limits(v, max - i, total)
    ensures ReadVec(m, u, i, max, total) == Some(v)
    decreases |v|
  {
    if v != [] {
      LimitsTail(v, max - i, total);
      FirstReads(m, u, i, v[0]);
      ReadFinds(m, u, i + 1, max, total + |v[0]| + 1, v[1..]);
      assert v == [v[0]] + v[1..];
    }
  }

  lemma FirstReads(m: Memory, u: nat, i: nat, s: Text)
    requires Slot(m, u, i, s) && Short(s)
    ensures var w := Word(m, u + 4 * i);
      w.Some? && w.value != 0 && StrLen(m, w.value) == Some(|s|) && TextAt(m, w.value, |s|) == s
  {
    var a := Word(m, u + 4 * i).value;
    ScanIs(m, a, 0, s);
    TextIs(m, a, s);
  }

  lemma ReadsFirst(m: Memory, u: nat, i: nat, a: nat, len: nat)
    requires Word(m, u + 4 * i) == Some(a) && a != 0 && StrLen(m, a) == Some(len)
    ensures Slot(m, u, i, TextAt(m, a, len)) && Short(TextAt(m, a, len))
  {
    ScanReads(m, a, 0);
    var t := TextAt(m, a, len);
    forall k | 0 <= k < len ensures t[k] != 0 && CharAt(m, a, k, t[k]) {
      assert t[k] == Peek(m, a + k) && Letter(m, a, k);
    }
  }

  /** And finds nothing else. */
  lemma {:induction false} ReadOnly(m: Memory, u: nat, i: nat, max: nat, total: nat)
    requires i <= max && total <= MAX_TOTAL && ReadVec(m, u, i, max, total).Some?
    ensures var v := ReadVec(m, u, i, max, total).value; VecFrom(m, u, i, v) && Limits(v, max - i, total)
    decreases max - i
  {
    var v := ReadVec(m, u, i, max, total).value;
    if v != [] {
      var a := Word(m, u + 4 * i).value;
      var len := StrLen(m, a).value;
      ReadsFirst(m, u, i, a, len);
      ReadOnly(m, u, i + 1, max, total + len + 1);
      OneMore(m, u, i, max, total, TextAt(m, a, len), ReadVec(m, u, i + 1, max, total + len + 1).value);
    }
  }

  lemma OneMore(m: Memory, u: nat, i: nat, max: nat, total: nat, t: Text, rest: seq<Text>)
    requires i < max && Slot(m, u, i, t) && Short(t) && VecFrom(m, u, i + 1, rest)
      && Limits(rest, max - (i + 1), total + |t| + 1)
    ensures VecFrom(m, u, i, [t] + rest) && Limits([t] + rest, max - i, total)
  {
    assert ([t] + rest)[1..] == rest;
    LimitsTail([t] + rest, max - i, total);
  }

  /** exec accepts a vector exactly when it is there, whole and within the limits. */
  lemma ReadVecExactly(m: Memory, u: nat, max: nat, v: seq<Text>)
    ensures ReadVec(m, u, 0, max, 0) == Some(v) <==> VecAt(m, u, v) && Limits(v, max, 0)
  {
    if VecAt(m, u, v) && Limits(v, max, 0) {
      VecSuffix(m, u, v, 0);
      assert v[0..] == v;
      ReadFinds(m, u, 0, max, 0, v);
    }
    if ReadVec(m, u, 0, max, 0) == Some(v) {
      ReadOnly(m, u, 0, max, 0);
      VecPoints(m, u, 0, v, |v|);
      forall k | 0 <= k < |v| ensures Slot(m, u, k, v[k]) { VecPoints(m, u, 0, v, k); }
    }
  }

  // ---- the stack of the new program ---------------------------------------------------------

  function Down16(a: nat): nat { a - a % 16 }

  function Top(base: nat): nat { Down16(base + STACK_SIZE - 64) }

  function Words(argv: seq<Text>, envp: seq<Text>): nat { 1 + (|argv| + 1) + (|envp| + 1) }

  /** The check exec makes before it builds anything. */
  predicate WithinBudget(argv: seq<Text>, envp: seq<Text>) {
    |Flat(argv)| + |Flat(envp)| + Words(argv, envp) * 4 + 64 <= STACK_SIZE - 128
  }

  /** What the stores themselves need to stay inside the block. */
  predicate Roomy(argv: seq<Text>, envp: seq<Text>) {
    |Flat(argv)| + |Flat(envp)| + 4 * Words(argv, envp) <= STACK_SIZE - 128
  }

  /** Environment strings end where the argument strings begin, and those end at the top. */
  function StringsAt(base: nat, argv: seq<Text>, envp: seq<Text>): int { Top(base) - |Flat(argv)| - |Flat(envp)| }

  function StackPointer(base: nat, argv: seq<Text>, envp: seq<Text>): int {
    var a := StringsAt(base, argv, envp) - Words(argv, envp) * 4;
    a - a % 16
  }

  /** The bound behind the check: sp stays 64 bytes clear of the base, so the overflow branch
      is never taken. */
  lemma BudgetSuffices(base: nat, argv: seq<Text>, envp: seq<Text>)
    requires WithinBudget(argv, envp)
    ensures base + 64 <= StackPointer(base, argv, envp)
    ensures StackPointer(base, argv, envp) + Words(argv, envp) * 4 <= StringsAt(base, argv, envp)
    ensures StringsAt(base, argv, envp) <= Top(base) <= base + STACK_SIZE
  {
  }

  /** n is the largest multiple of 16 that is not above x. */
  ghost predicate Floor16(n: int, x: int) { n % 16 == 0 && n <= x < n + 16 }

  lemma FloorIs(x: int)
    ensures Floor16(x - x % 16, x)
  {
  }

  /** Where the new stack's parts lie, in numbers: the strings end 64 bytes below the block's end, at
      most 15 more, and take a byte each and one for every NUL; the stack pointer is the next multiple
      of 16 that leaves room for the count, the pointers and two NULLs. */
  lemma StackPlaces(base: nat, argv: seq<Text>, envp: seq<Text>)
    ensures Floor16(Top(base), base + 16384 - 64)
    ensures StringsAt(base, argv, envp) + |Flat(argv)| + |Flat(envp)| == Top(base)
    ensures Floor16(StackPointer(base, argv, envp), StringsAt(base, argv, envp) - 4 * (|argv| + |envp| + 3))
  {
    FloorIs(base + 16384 - 64);
    PointerIs(base, argv, envp, StringsAt(base, argv, envp) - 4 * (|argv| + |envp| + 3));
  }

  lemma PointerIs(base: nat, argv: seq<Text>, envp: seq<Text>, x: int)
    requires x == StringsAt(base, argv, envp) - 4 * (|argv| + |envp| + 3)
    ensures Floor16(StackPointer(base, argv, envp), x)
  {
    assert StackPointer(base, argv, envp) == x - x % 16;
    FloorIs(x);
  }

  function Addresses(at: nat, v: seq<Text>): (r: seq<nat>)
    ensures |r| == |v|
    decreases |v|
  {
    if v == [] then [] else [at] + Addresses(at + |v[0]| + 1, v[1..])
  }

  function Pointers(argv: seq<Text>, envp: seq<Text>, args: seq<nat>, envs: seq<nat>): seq<nat> {
    [|argv|] + args + [0] + envs + [0]
  }

  function FlatWords(ws: seq<nat>): (b: seq<byte>)
    ensures |b| == 4 * |ws|
  {
    if ws == [] then [] else WordBytes(ws[0]) + FlatWords(ws[1..])
  }

  /** The bytes of a block of memory at base. */
  function MemoryOf(base: nat, s: seq<byte>): Memory {
    map a: nat | base <= a < base + |s| && Inside(base, |s|, a) :: s[a - base]
  }

  predicate Inside(base: nat, n: nat, a: nat) { base <= a < base + n }

  lemma ByteOf(base: nat, s: seq<byte>, i: nat)
    requires i < |s|
    ensures var m := MemoryOf(base, s); base + i in m && m[base + i] == s[i] && Byte(m, base + i) == Some(s[i])
  {
    assert Inside(base, |s|, base + i);
  }

  /** A block holding the words at sp and the strings from `at` to top. */
  ghost predicate Laid(base: nat, s: seq<byte>, sp: int, at: int, top: int, argv: seq<Text>, envp: seq<Text>) {
    && base <= sp && sp + 4 * Words(argv, envp) <= at <= top <= base + |s|
    && s[at - base..top - base] == Flat(envp) + Flat(argv)
    && s[sp - base..sp - base + 4 * Words(argv, envp)]
       == FlatWords(Pointers(argv, envp, Addresses(at + |Flat(envp)|, argv), Addresses(at, envp)))
  }

  /** The stack block as exec leaves it. */
  ghost predicate Built(base: nat, s: seq<byte>, argv: seq<Text>, envp: seq<Text>) {
    && |s| == STACK_SIZE
    && Laid(base, s, StackPointer(base, argv, envp), StringsAt(base, argv, envp), Top(base), argv, envp)
  }

  lemma {:induction false} FlatWordsAt(ws: seq<nat>, k: nat)
    requires k < |ws|
    ensures FlatWords(ws)[4 * k..4 * k + 4] == WordBytes(ws[k])
  {
    if k > 0 {
      FlatWordsAt(ws[1..], k - 1);
      assert FlatWords(ws)[4 * k..4 * k + 4] == FlatWords(ws[1..])[4 * (k - 1)..4 * (k - 1) + 4];
    }
  }

  /** A word of a stored word array reads back. */
  lemma WordReads(base: nat, s: seq<byte>, at: nat, ws: seq<nat>, k: nat, p: nat)
    requires at + 4 * |ws| <= |s| && s[at..at + 4 * |ws|] == FlatWords(ws) && k < |ws| && ws[k] < U32
    requires p == base + at + 4 * k
    ensures Word(MemoryOf(base, s), p) == Some(ws[k])
  {
    FlatWordsAt(ws, k);
    WordOf(base, s, at, FlatWords(ws), 4 * k, ws[k], p);
  }

  lemma SubSlice<T>(s: seq<T>, at: nat, f: seq<T>, lo: nat, hi: nat)
    requires at + |f| <= |s| && s[at..at + |f|] == f && lo <= hi <= |f|
    ensures s[at + lo..at + hi] == f[lo..hi]
  {
    assert |s[at + lo..at + hi]| == hi - lo == |f[lo..hi]|;
    forall j | 0 <= j < hi - lo ensures s[at + lo..at + hi][j] == f[lo..hi][j] {
      assert f[lo..hi][j] == f[lo + j] == s[at..at + |f|][lo + j] == s[at + (lo + j)];
    }
  }

  lemma WordOf(base: nat, s: seq<byte>, at: nat, f: seq<byte>, i: nat, n: nat, p: nat)
    requires at + |f| <= |s| && s[at..at + |f|] == f && i + 4 <= |f| && f[i..i + 4] == WordBytes(n) && n < U32
    requires p == base + at + i
    ensures Word(MemoryOf(base, s), p) == Some(n)
  {
    SubSlice(s, at, f, i, i + 4);
    WordIs(base, s, at + i, n);
  }

  lemma WordIs(base: nat, s: seq<byte>, i: nat, n: nat)
    requires i + 4 <= |s| && s[i..i + 4] == WordBytes(n) && n < U32
    ensures Word(MemoryOf(base, s), base + i) == Some(n)
  {
    FourBytes(base, s, i, WordBytes(n));
    WordBack(n);
  }

  lemma FourBytes(base: nat, s: seq<byte>, i: nat, b: seq<byte>)
    requires i + 4 <= |s| && |b| == 4 && s[i..i + 4] == b
    ensures Word(MemoryOf(base, s), base + i) == Some(FromWord(b[0], b[1], b[2], b[3]))
  {
    ByteOf(base, s, i);
    ByteOf(base, s, i + 1);
    ByteOf(base, s, i + 2);
    ByteOf(base, s, i + 3);
    assert b[0] == s[i] && b[1] == s[i + 1] && b[2] == s[i + 2] && b[3] == s[i + 3];
  }

  ghost predicate NulFree(s: Text) { forall k :: 0 <= k < |s| ==> s[k] != 0 }

  /** String k of a flattened vector starts where Addresses says. */
  lemma {:induction false} StringReads(base: nat, s: seq<byte>, at: nat, a: nat, v: seq<Text>, k: nat)
    requires at + |Flat(v)| <= |s| && s[at..at + |Flat(v)|] == Flat(v) && k < |v| && NulFree(v[k]) && a == base + at
    ensures StringAt(MemoryOf(base, s), Addresses(a, v)[k], v[k]) && a <= Addresses(a, v)[k] < base + |s|
    decreases k
  {
    if k == 0 {
      FirstString(base, s, at, v);
    } else {
      var n := |v[0]| + 1;
      TailLies(s, at, v);
      StringReads(base, s, at + n, a + n, v[1..], k - 1);
      NextAddress(a, v, k);
    }
  }

  lemma NextAddress(a: nat, v: seq<Text>, k: nat)
    requires 0 < k < |v|
    ensures Addresses(a, v)[k] == Addresses(a + |v[0]| + 1, v[1..])[k - 1]
  {
  }

  lemma TailLies(s: seq<byte>, at: nat, v: seq<Text>)
    requires v != [] && at + |Flat(v)| <= |s| && s[at..at + |Flat(v)|] == Flat(v)
    ensures var n := |v[0]| + 1; at + n + |Flat(v[1..])| <= |s| && s[at + n..at + n + |Flat(v[1..])|] == Flat(v[1..])
  {
    var n := |v[0]| + 1;
    FlatTail(v);
    SubSlice(s, at, Flat(v), n, |Flat(v)|);
  }

  lemma FlatTail(v: seq<Text>)
    requires v != []
    ensures |Flat(v)| == |v[0]| + 1 + |Flat(v[1..])| && Flat(v)[|v[0]| + 1..|Flat(v)|] == Flat(v[1..])
  {
  }

  lemma FirstString(base: nat, s: seq<byte>, at: nat, v: seq<Text>)
    requires v != [] && at + |Flat(v)| <= |s| && s[at..at + |Flat(v)|] == Flat(v) && NulFree(v[0])
    ensures StringAt(MemoryOf(base, s), base + at, v[0])
  {
    var m := MemoryOf(base, s);
    var f := s[at..at + |Flat(v)|];
    forall k | 0 <= k < |v[0]| ensures CharAt(m, base + at, k, v[0][k]) {
      assert f[k] == v[0][k] == s[at + k];
      ByteOf(base, s, at + k);
    }
    assert f[|v[0]|] == 0 == s[at + |v[0]|];
    ByteOf(base, s, at + |v[0]|);
  }

  lemma {:induction false} FlatConcat(a: seq<Text>, b: seq<Text>)
    ensures Flat(a + b) == Flat(a) + Flat(b)
  {
    if a == [] {
      assert a + b == b;
    } else {
      assert (a + b)[1..] == a[1..] + b;
      FlatConcat(a[1..], b);
    }
  }

  // ---- the layout reads back ---------------------------------------------------------------

  lemma {:induction false} AddressesBelow(at: nat, v: seq<Text>, end: nat)
    requires at + |Flat(v)| <= end
    ensures forall k :: 0 <= k < |v| ==> at <= Addresses(at, v)[k] < end
    decreases |v|
  {
    if v != [] { AddressesBelow(at + |v[0]| + 1, v[1..], end); }
  }

  ghost predicate WordAt(m: Memory, u: nat, k: nat, n: nat) { Word(m, u + 4 * k) == Some(n) }

  /** The array of words at u. */
  ghost predicate WordsAt(m: Memory, u: nat, ws: seq<nat>) { forall k :: 0 <= k < |ws| ==> WordAt(m, u, k, ws[k]) }

  /** Each address, none of them NULL, is that of its string. */
  ghost predicate TextsAt(m: Memory, addresses: seq<nat>, v: seq<Text>) {
    |addresses| == |v| && forall k :: 0 <= k < |v| ==> TextHere(m, addresses[k], v[k])
  }

  ghost predicate TextHere(m: Memory, a: nat, t: Text) { a != 0 && StringAt(m, a, t) }

  lemma WordsRead(base: nat, s: seq<byte>, sp: nat, a: nat, ws: seq<nat>)
    requires a == base + sp && sp + 4 * |ws| <= |s| && s[sp..sp + 4 * |ws|] == FlatWords(ws) && AllWithin(ws, 0, U32)
    ensures WordsAt(MemoryOf(base, s), a, ws)
  {
    forall k | 0 <= k < |ws| ensures WordAt(MemoryOf(base, s), a, k, ws[k]) {
      WordReads(base, s, sp, ws, k, a + 4 * k);
    }
  }

  lemma TextsRead(base: nat, s: seq<byte>, at: nat, a: nat, v: seq<Text>)
    requires a == base + at && 0 < base && base + |s| < U32 && at + |Flat(v)| <= |s| && s[at..at + |Flat(v)|] == Flat(v)
    requires forall k :: 0 <= k < |v| ==> NulFree(v[k])
    ensures TextsAt(MemoryOf(base, s), Addresses(a, v), v) && AllWithin(Addresses(a, v), 0, U32)
  {
    var m, addresses := MemoryOf(base, s), Addresses(a, v);
    forall k | 0 <= k < |v| ensures TextHere(m, addresses[k], v[k]) && addresses[k] < U32 {
      StringReads(base, s, at, a, v, k);
    }
  }

  ghost predicate AllWithin(addresses: seq<nat>, from: int, to: int) {
    forall k :: 0 <= k < |addresses| ==> from <= addresses[k] < to
  }

  /** What the new program finds at its stack pointer. */
  ghost predicate Finds(m: Memory, sp: nat, argv: seq<Text>, envp: seq<Text>) {
    && Word(m, sp) == Some(|argv|)
    && VecAt(m, sp + 4, argv)
    && VecAt(m, sp + 4 + 4 * (|argv| + 1), envp)
  }

  lemma SplitBytes(s: seq<byte>, at: nat, top: nat, a: seq<byte>, b: seq<byte>)
    requires at <= top <= |s| && s[at..top] == a + b
    ensures at + |a| <= top && s[at..at + |a|] == a && at + |a| + |b| == top && s[at + |a|..at + |a| + |b|] == b
  {
    assert s[at..at + |a|] == s[at..top][..|a|];
    assert s[at + |a|..top] == s[at..top][|a|..];
  }

  /** Words at sp, strings at `at`: the layout decodes wherever it stands. */
  lemma LayoutReadsBack(base: nat, s: seq<byte>, sp: int, at: int, top: int, argv: seq<Text>, envp: seq<Text>)
    requires 0 < base && base + |s| < U32 && Laid(base, s, sp, at, top, argv, envp)
    requires forall k :: 0 <= k < |argv| ==> NulFree(argv[k])
    requires forall k :: 0 <= k < |envp| ==> NulFree(envp[k])
    ensures sp >= 0 && Finds(MemoryOf(base, s), sp, argv, envp)
  {
    PartsReadBack(base, s, sp - base, sp, at - base, top - base, at, argv, envp);
  }

  lemma PartsReadBack(base: nat, s: seq<byte>, sp: nat, a: nat, from: nat, to: nat, at: nat, argv: seq<Text>,
                      envp: seq<Text>)
    requires 0 < base && base + |s| < U32 && sp + 4 * Words(argv, envp) <= |s| && from <= to <= |s| && at == base + from
      && a == base + sp
    requires s[from..to] == Flat(envp) + Flat(argv)
    requires s[sp..sp + 4 * Words(argv, envp)]
          == FlatWords(Pointers(argv, envp, Addresses(at + |Flat(envp)|, argv), Addresses(at, envp)))
    requires forall k :: 0 <= k < |argv| ==> NulFree(argv[k])
    requires forall k :: 0 <= k < |envp| ==> NulFree(envp[k])
    ensures Finds(MemoryOf(base, s), a, argv, envp)
  {
    SplitBytes(s, from, to, Flat(envp), Flat(argv));
    TextsRead(base, s, from + |Flat(envp)|, at + |Flat(envp)|, argv);
    TextsRead(base, s, from, at, envp);
    BlockFinds(base, s, sp, a, argv, envp, Addresses(at + |Flat(envp)|, argv), Addresses(at, envp));
  }

  lemma BlockFinds(base: nat, s: seq<byte>, sp: nat, a: nat, argv: seq<Text>, envp: seq<Text>, args: seq<nat>,
                   envs: seq<nat>)
    requires sp + 4 * Words(argv, envp) <= |s| < U32 && |argv| < U32 && a == base + sp
    requires |args| == |argv| && |envs| == |envp| && AllWithin(args, 0, U32) && AllWithin(envs, 0, U32)
    requires s[sp..sp + 4 * Words(argv, envp)] == FlatWords(Pointers(argv, envp, args, envs))
    requires TextsAt(MemoryOf(base, s), args, argv) && TextsAt(MemoryOf(base, s), envs, envp)
    ensures Finds(MemoryOf(base, s), a, argv, envp)
  {
    PointerParts(argv, envp, args, envs);
    WordsRead(base, s, sp, a, Pointers(argv, envp, args, envs));
    PointersFind(MemoryOf(base, s), a, Pointers(argv, envp, args, envs), argv, envp, args, envs);
  }

  lemma PointerParts(argv: seq<Text>, envp: seq<Text>, args: seq<nat>, envs: seq<nat>)
    requires |args| == |argv| < U32 && |envs| == |envp| && AllWithin(args, 0, U32) && AllWithin(envs, 0, U32)
    ensures var ws := Pointers(argv, envp, args, envs);
      && |ws| == Words(argv, envp) && ws[0] == |argv| && AllWithin(ws, 0, U32)
      && ws[1..1 + |argv|] == args && ws[1 + |argv|] == 0
      && ws[|argv| + 2..|argv| + 2 + |envp|] == envs && ws[|argv| + 2 + |envp|] == 0
  {
  }

  lemma PointersFind(m: Memory, u: nat, ws: seq<nat>, argv: seq<Text>, envp: seq<Text>, args: seq<nat>, envs: seq<nat>)
    requires WordsAt(m, u, ws) && TextsAt(m, args, argv) && TextsAt(m, envs, envp)
    requires |ws| == Words(argv, envp) && ws[0] == |argv|
    requires ws[1..1 + |argv|] == args && ws[1 + |argv|] == 0
    requires ws[|argv| + 2..|argv| + 2 + |envp|] == envs && ws[|argv| + 2 + |envp|] == 0
    ensures Finds(m, u, argv, envp)
  {
    assert WordAt(m, u, 0, ws[0]);
    VecFound(m, u, ws, 1, args, argv);
    VecFound(m, u, ws, |argv| + 2, envs, envp);
  }

  lemma VecFound(m: Memory, u: nat, ws: seq<nat>, from: nat, addresses: seq<nat>, v: seq<Text>)
    requires WordsAt(m, u, ws) && TextsAt(m, addresses, v) && from + |v| < |ws| && ws[from + |v|] == 0
    requires ws[from..from + |v|] == addresses
    ensures VecAt(m, u + 4 * from, v)
  {
    assert WordAt(m, u, from + |v|, ws[from + |v|]);
    forall k | 0 <= k < |v| ensures Slot(m, u + 4 * from, k, v[k]) {
      assert ws[from + k] == ws[from..from + |v|][k] == addresses[k];
      assert TextHere(m, addresses[k], v[k]);
      assert WordAt(m, u, from + k, ws[from + k]);
    }
  }

  /** The stack exec builds decodes to exactly the vectors it was given. */
  lemma BuiltReadsBack(base: nat, s: seq<byte>, argv: seq<Text>, envp: seq<Text>)
    requires Built(base, s, argv, envp) && 0 < base && base + STACK_SIZE < U32
    requires forall k :: 0 <= k < |argv| ==> NulFree(argv[k])
    requires forall k :: 0 <= k < |envp| ==> NulFree(envp[k])
    ensures var sp := StackPointer(base, argv, envp); sp >= 0 && Finds(MemoryOf(base, s), sp, argv, envp)
  {
    LayoutReadsBack(base, s, StackPointer(base, argv, envp), StringsAt(base, argv, envp), Top(base), argv, envp);
  }

  /** Vectors exec accepted from the caller are read back, by the same rules, from the new
      program's stack. */
  lemma VectorsSurvive(m: Memory, au: nat, eu: nat, max: nat, base: nat, s: seq<byte>, sp: nat, argv: seq<Text>,
                       envp: seq<Text>)
    requires 0 < base && base + STACK_SIZE < U32 && Built(base, s, argv, envp) && sp == StackPointer(base, argv, envp)
    requires ReadVec(m, au, 0, max, 0) == Some(argv) && ReadVec(m, eu, 0, max, 0) == Some(envp)
    ensures ReadVec(MemoryOf(base, s), sp + 4, 0, max, 0) == Some(argv)
    ensures ReadVec(MemoryOf(base, s), sp + 4 + 4 * (|argv| + 1), 0, max, 0) == Some(envp)
  {
    ReadIsNulFree(m, au, max, argv);
    ReadIsNulFree(m, eu, max, envp);
    BuiltReadsBack(base, s, argv, envp);
    FoundReads(MemoryOf(base, s), sp, max, argv, envp);
  }

  lemma ReadIsNulFree(m: Memory, u: nat, max: nat, v: seq<Text>)
    requires ReadVec(m, u, 0, max, 0) == Some(v)
    ensures Limits(v, max, 0) && forall k :: 0 <= k < |v| ==> NulFree(v[k])
  {
    ReadVecExactly(m, u, max, v);
    forall k | 0 <= k < |v| ensures NulFree(v[k]) { assert Slot(m, u, k, v[k]); }
  }

  lemma FoundReads(m: Memory, sp: nat, max: nat, argv: seq<Text>, envp: seq<Text>)
    requires Finds(m, sp, argv, envp) && Limits(argv, max, 0) && Limits(envp, max, 0)
    ensures ReadVec(m, sp + 4, 0, max, 0) == Some(argv)
      && ReadVec(m, sp + 4 + 4 * (|argv| + 1), 0, max, 0) == Some(envp)
  {
    ReadVecExactly(m, sp + 4, max, argv);
    ReadVecExactly(m, sp + 4 + 4 * (|argv| + 1), max, envp);
  }

  /** Strings, pointers and the 64 spare bytes lie side by side and never overlap. */
  lemma NoOverlap(base: nat, argv: seq<Text>, envp: seq<Text>)
    requires WithinBudget(argv, envp)
    ensures var sp, at := StackPointer(base, argv, envp), StringsAt(base, argv, envp);
      && base + 64 <= sp && sp % 16 == 0 && sp + 4 * Words(argv, envp) <= at
      && AllWithin(Addresses(at, envp), at, at + |Flat(envp)|)
      && AllWithin(Addresses(at + |Flat(envp)|, argv), at + |Flat(envp)|, Top(base))
  {
    BudgetSuffices(base, argv, envp);
    var at := StringsAt(base, argv, envp);
    Align(at - Words(argv, envp) * 4);
    AddressesBelow(at, envp, at + |Flat(envp)|);
    AddressesBelow(at + |Flat(envp)|, argv, Top(base));
  }

  lemma Align(a: nat)
    ensures (a - a % 16) % 16 == 0
  {
  }
}
