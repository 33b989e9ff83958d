/** exec's buffers: the vectors copied out of user memory, and the stack block built for the new
    program. */
module ExecStack {
  import opened Basics
  import opened ExecSpec

  /** A kernel buffer holding a copied string. */
  class Buf {
    const text: Text

    constructor (text: Text)
      ensures this.text == text
    {
      this.text := text;
    }
  }

  function Texts(bufs: seq<Buf>): (v: seq<Text>)
    ensures |v| == |bufs|
  {
    seq(|bufs|, i requires 0 <= i < |bufs| => bufs[i].text)
  }

  ghost predicate Apart(bufs: seq<Buf>) { forall i, j :: 0 <= i < j < |bufs| ==> bufs[i] != bufs[j] }

  ghost function All(bufs: seq<Buf>): set<object> { set b | b in bufs }

  /** The ledger has grown by exactly these buffers. */
  ghost predicate Added(bufs: seq<Buf>, was: set<object>, now: set<object>) {
    Apart(bufs) && All(bufs) !! was && now == was + All(bufs)
  }

  lemma AddedNext(bufs: seq<Buf>, was: set<object>, now: set<object>, k: Buf)
    requires Added(bufs, was, now) && k !in now
    ensures Added(bufs + [k], was, now + {k})
  {
    assert forall b :: b in bufs ==> b in All(bufs);
  }

  /** The kernel heap as a ledger: what is allocated now. */
  class Pool {
    ghost var live: set<object>
    ghost var opens: int          // file nodes held open

    ghost method Open()
      modifies this`opens
      ensures opens == old(opens) + 1
    {
      opens := opens + 1;
    }

    ghost method Close()
      modifies this`opens
      ensures opens == old(opens) - 1
    {
      opens := opens - 1;
    }

    method Keep(text: Text) returns (b: Buf)
      modifies this`live
      ensures fresh(b) && b !in old(live) && b.text == text && live == old(live) + {b}
    {
      b := new Buf(text);
      live := live + {b};
    }

    /** kfree: only what is still allocated. */
    method Free(b: object)
      requires b in live
      modifies this`live
      ensures live == old(live) - {b}
    {
      live := live - {b};
    }

    method KeepStack() returns (stack: array<byte>)
      modifies this`live
      ensures fresh(stack) && stack !in old(live) && stack.Length == STACK_SIZE && live == old(live) + {stack}
    {
      stack := new byte[STACK_SIZE](_ => 0);
      live := live + {stack};
    }

    method FreeAll(bufs: seq<Buf>)
      requires Apart(bufs) && All(bufs) <= live
      modifies this`live
      ensures live == old(live) - All(bufs)
    {
      for i := 0 to |bufs|
        invariant live == old(live) - All(bufs[..i])
      {
        assert forall j :: 0 <= j < i ==> bufs[j] != bufs[i];
        assert bufs[i] in All(bufs) && bufs[i] !in All(bufs[..i]);
        Free(bufs[i]);
        assert bufs[..i + 1] == bufs[..i] + [bufs[i]];
      }
      assert bufs[..|bufs|] == bufs;
    }
  }

  // ---- reading a vector -------------------------------------------------------------------

  method UserStrLen(m: Memory, a: nat) returns (len: Option<nat>)
    ensures len == StrLen(m, a)
  {
    for i := 0 to MAX_STRLEN
      invariant StrLen(m, a) == Scan(m, a, a + i)
    {
      if a + i !in m { return None; }
      if m[a + i] == 0 { return Some(i); }
    }
    len := None;
  }

  function Prefixed(v: seq<Text>, rest: Option<seq<Text>>): Option<seq<Text>> {
    match rest case None => None case Some(w) => Some(v + w)
  }

  /** The buffers hold the first i entries, and the rest of the reading is still to come. */
  ghost predicate Copied(m: Memory, u: nat, max: nat, bufs: seq<Buf>, i: nat, total: nat) {
    && i == |bufs| <= max && total == |Flat(Texts(bufs))|
    && ReadVec(m, u, 0, max, 0) == Prefixed(Texts(bufs), ReadVec(m, u, i, max, total))
  }

  /** One copied buffer per string, or -1 with every buffer given back. */
  method CopyVec(pool: Pool, m: Memory, u: nat, max: nat) returns (r: Option<seq<Buf>>, total: nat)
    modifies pool`live
    ensures r.Some? <==> u == 0 || ReadVec(m, u, 0, max, 0).Some?
    ensures r.Some? ==> if u == 0 then r.value == [] else ReadVec(m, u, 0, max, 0) == Some(Texts(r.value))
    ensures r.Some? ==> total == |Flat(Texts(r.value))| && Added(r.value, old(pool.live), pool.live)
    ensures r.None? ==> pool.live == old(pool.live)
  {
    if u == 0 { return Some([]), 0; }
    var bufs: seq<Buf> := [];
    total := 0;
    var i := 0;
    CopiedNone(m, u, max);
    while true
      invariant Copied(m, u, max, bufs, i, total) && Added(bufs, old(pool.live), pool.live)
      decreases max - i
    {
      var w := Word(m, u + 4 * i);
      if w == None || (i == max && w.value != 0) { break; }
      if w.value == 0 {
        CopiedAll(m, u, max, bufs, i, total);
        return Some(bufs), total;
      }
      var len := UserStrLen(m, w.value);
      if len == None || total + len.value + 1 > MAX_TOTAL { break; }
      ghost var live := pool.live;
      var k := pool.Keep(TextAt(m, w.value, len.value));
      CopiedNext(m, u, max, bufs, i, total, k);
      AddedNext(bufs, old(pool.live), live, k);
      bufs, total, i := bufs + [k], total + len.value + 1, i + 1;
    }
    pool.FreeAll(bufs);
    r := None;
  }

  lemma CopiedAll(m: Memory, u: nat, max: nat, bufs: seq<Buf>, i: nat, total: nat)
    requires Copied(m, u, max, bufs, i, total) && Word(m, u + 4 * i) == Some(0)
    ensures ReadVec(m, u, 0, max, 0) == Some(Texts(bufs))
  {
    assert Texts(bufs) + [] == Texts(bufs);
  }

  lemma CopiedNone(m: Memory, u: nat, max: nat)
    ensures Copied(m, u, max, [], 0, 0)
  {
    assert Texts([]) == [];
    var rest := ReadVec(m, u, 0, max, 0);
    if rest.Some? { assert [] + rest.value == rest.value; }
  }

  lemma CopiedNext(m: Memory, u: nat, max: nat, bufs: seq<Buf>, i: nat, total: nat, k: Buf)
    requires Copied(m, u, max, bufs, i, total) && i < max
    requires Word(m, u + 4 * i).Some? && Word(m, u + 4 * i).value != 0
    requires var a := Word(m, u + 4 * i).value; var len := StrLen(m, a);
      len.Some? && total + len.value + 1 <= MAX_TOTAL && k.text == TextAt(m, a, len.value)
    ensures Copied(m, u, max, bufs + [k], i + 1, total + |k.text| + 1)
  {
    assert Texts(bufs + [k]) == Texts(bufs) + [k.text];
    FlatConcat(Texts(bufs), [k.text]);
    assert Flat([k.text][1..]) == [];
    var rest := ReadVec(m, u, i + 1, max, total + |k.text| + 1);
    if rest.Some? { assert Texts(bufs) + ([k.text] + rest.value) == (Texts(bufs) + [k.text]) + rest.value; }
  }

  // ---- building the stack ---------------------------------------------------------------------

  /** Strings go down from `sp`, the last one first; their addresses are noted. */
  method PushStrings(stack: array<byte>, base: nat, sp0: nat, v: seq<Text>) returns (sp: nat, addresses: seq<nat>)
    requires base + |Flat(v)| <= sp0 <= base + stack.Length
    modifies stack
    ensures sp == sp0 - |Flat(v)| && addresses == Addresses(sp, v)
    ensures stack[sp - base..sp0 - base] == Flat(v)
    ensures forall k :: 0 <= k < stack.Length && !(sp - base <= k < sp0 - base) ==> stack[k] == old(stack[k])
  {
    sp, addresses := sp0, [];
    var i := |v|;
    assert v[..|v|] == v && v[|v|..] == [];
    while i > 0
      invariant 0 <= i <= |v| && sp == sp0 - |Flat(v[i..])| && addresses == Addresses(sp, v[i..])
        && base + |Flat(v[..i])| <= sp
      invariant stack[sp - base..sp0 - base] == Flat(v[i..])
      invariant forall k :: 0 <= k < stack.Length && !(sp - base <= k < sp0 - base) ==> stack[k] == old(stack[k])
    {
      i := i - 1;
      LastOf(v, i);
      sp := sp - (|v[i]| + 1);
      PushOne(stack, sp - base, v[i], sp0 - base);
      addresses := [sp] + addresses;
    }
    assert v[0..] == v;
  }

  /** One string goes in front of what is there up to `end`. */
  method PushOne(stack: array<byte>, at: nat, s: Text, end: nat)
    requires at + |s| + 1 <= end <= stack.Length
    modifies stack
    ensures stack[at..end] == s + [0] + old(stack[at + |s| + 1..end])
    ensures forall k :: 0 <= k < stack.Length && !(at <= k < end) ==> stack[k] == old(stack[k])
  {
    ghost var was := stack[at + |s| + 1..end];
    PutString(stack, at, s);
    Halves(stack, at, at + |s| + 1, end);
    assert stack[at + |s| + 1..end] == was;
  }

  lemma Halves(stack: array<byte>, lo: nat, mid: nat, hi: nat)
    requires lo <= mid <= hi <= stack.Length
    ensures stack[lo..hi] == stack[lo..mid] + stack[mid..hi]
  {
  }

  lemma LastOf(v: seq<Text>, i: nat)
    requires i < |v|
    ensures Flat(v[i..]) == v[i] + [0] + Flat(v[i + 1..]) && |Flat(v[..i + 1])| == |Flat(v[..i])| + |v[i]| + 1
    ensures v[i..][0] == v[i] && v[i..][1..] == v[i + 1..]
  {
    assert v[..i + 1] == v[..i] + [v[i]];
    FlatConcat(v[..i], [v[i]]);
    assert Flat([v[i]][1..]) == [];
  }

  method PutString(stack: array<byte>, at: nat, s: Text)
    requires at + |s| + 1 <= stack.Length
    modifies stack
    ensures stack[at..at + |s| + 1] == s + [0]
    ensures forall k :: 0 <= k < stack.Length && !(at <= k <= at + |s|) ==> stack[k] == old(stack[k])
  {
    for j := 0 to |s|
      invariant forall k :: 0 <= k < stack.Length ==> stack[k] == if at <= k < at + j then s[k - at] else old(stack[k])
    {
      stack[at + j] := s[j];
    }
    stack[at + |s|] := 0;
  }

  method PutWords(stack: array<byte>, at: nat, ws: seq<nat>)
    requires at + 4 * |ws| <= stack.Length
    modifies stack
    ensures stack[at..at + 4 * |ws|] == FlatWords(ws)
    ensures forall k :: 0 <= k < stack.Length && !(at <= k < at + 4 * |ws|) ==> stack[k] == old(stack[k])
  {
    for i := 0 to |ws|
      invariant stack[at..at + 4 * i] == FlatWords(ws[..i])
      invariant forall k :: 0 <= k < stack.Length && !(at <= k < at + 4 * i) ==> stack[k] == old(stack[k])
    {
      WordsNext(ws, i);
      ghost var was := stack[at..at + 4 * i];
      PutWord(stack, at + 4 * i, ws[i]);
      assert stack[at..at + 4 * i] == was;
      Halves(stack, at, at + 4 * i, at + 4 * i + 4);
    }
    assert ws[..|ws|] == ws;
  }

  lemma {:induction false} WordsNext(ws: seq<nat>, i: nat)
    requires i < |ws|
    ensures FlatWords(ws[..i + 1]) == FlatWords(ws[..i]) + WordBytes(ws[i])
    decreases i
  {
    if i == 0 {
      assert ws[..1][1..] == [];
    } else {
      WordsNext(ws[1..], i - 1);
      assert ws[..i + 1][1..] == ws[1..][..i] && ws[..i][1..] == ws[1..][..i - 1];
    }
  }

  /** The stack of the new program; the overflow check at the end reads as in the kernel. */
  method BuildStack(stack: array<byte>, base: nat, argv: seq<Text>, envp: seq<Text>) returns (ok: bool, sp: int)
    requires stack.Length == STACK_SIZE && Roomy(argv, envp)
    modifies stack
    ensures sp == StackPointer(base, argv, envp) && (ok <==> sp >= base + 64)
    ensures ok ==> Built(base, stack[..], argv, envp)
  {
    var top := Top(base);
    var at, low, args, envs := PushBoth(stack, base, top, argv, envp);
    sp := low - 4 * Words(argv, envp);
    sp := sp - sp % 16;
    ok := sp >= base + 64;
    if ok { PlaceWords(stack, base, sp, low, top, argv, envp, args, envs); }
  }

  method PushBoth(stack: array<byte>, base: nat, top: nat, argv: seq<Text>, envp: seq<Text>)
    returns (at: nat, low: nat, args: seq<nat>, envs: seq<nat>)
    requires base + |Flat(argv)| + |Flat(envp)| <= top <= base + stack.Length
    modifies stack
    ensures low == top - |Flat(argv)| - |Flat(envp)| && at == low + |Flat(envp)|
    ensures args == Addresses(at, argv) && envs == Addresses(low, envp)
    ensures stack[low - base..top - base] == Flat(envp) + Flat(argv)
  {
    at, args := PushStrings(stack, base, top, argv);
    ghost var strings := stack[at - base..top - base];
    low, envs := PushStrings(stack, base, at, envp);
    assert stack[at - base..top - base] == strings;
    Halves(stack, low - base, at - base, top - base);
  }

  method PlaceWords(stack: array<byte>, base: nat, sp: nat, low: nat, top: nat, argv: seq<Text>, envp: seq<Text>,
                    args: seq<nat>, envs: seq<nat>)
    requires base <= sp && sp + 4 * Words(argv, envp) <= low <= top <= base + stack.Length
    requires stack[low - base..top - base] == Flat(envp) + Flat(argv)
    requires args == Addresses(low + |Flat(envp)|, argv) && envs == Addresses(low, envp)
    modifies stack
    ensures Laid(base, stack[..], sp, low, top, argv, envp)
  {
    ghost var strings := stack[low - base..top - base];
    var ws := Pointers(argv, envp, args, envs);
    PutWords(stack, sp - base, ws);
    assert stack[low - base..top - base] == strings;
    assert stack[..][low - base..top - base] == stack[low - base..top - base];
    assert stack[..][sp - base..sp - base + 4 * |ws|] == stack[sp - base..sp - base + 4 * |ws|];
  }
}
