/** Interpreter scripts: the "#!" line, and the argument vector it turns into. */
module Script {
  import opened Basics
  import opened ExecSpec

  const HEAD: nat := 128        // bytes of a file that are looked at

  datatype Line = Bad | Line(interp: Text, opt: Text)

  predicate Blank(c: byte) { c == 32 || c == 9 }

  predicate Ends(c: byte) { c == 10 || c == 13 || c == 0 }

  /** First position from i on past all blanks. */
  function SkipBlanks(h: Text, i: nat): (j: nat)
    requires i <= |h|
    ensures i <= j <= |h| && (j < |h| ==> !Blank(h[j])) && forall k :: i <= k < j ==> Blank(h[k])
    decreases |h| - i
  {
    if i < |h| && Blank(h[i]) then SkipBlanks(h, i + 1) else i
  }

  /** First position from i on that ends the line, or, for a word, a blank before that. */
  function SkipTo(h: Text, i: nat, word: bool): (j: nat)
    requires i <= |h|
    ensures i <= j <= |h| && (j < |h| ==> Ends(h[j]) || (word && Blank(h[j])))
    ensures forall k :: i <= k < j ==> !Ends(h[k]) && (word ==> !Blank(h[k]))
    decreases |h| - i
  {
    if i < |h| && !Ends(h[i]) && !(word && Blank(h[i])) then SkipTo(h, i + 1, word) else i
  }

  function TrimEnd(t: Text): (r: Text)
    ensures r <= t && (r != [] ==> !Blank(r[|r| - 1])) && forall k :: |r| <= k < |t| ==> Blank(t[k])
  {
    if t != [] && Blank(t[|t| - 1]) then TrimEnd(t[..|t| - 1]) else t
  }

  predicate IsScript(h: Text) { |h| >= 2 && h[0] == 35 && h[1] == 33 }

  predicate IsElf(h: Text) { |h| >= 4 && h[0] == 0x7F && h[1] == 69 && h[2] == 76 && h[3] == 70 }

  function ParseLine(h: Text): Line
    requires IsScript(h)
  {
    var a := SkipBlanks(h, 2);
    var b := SkipTo(h, a, true);
    var c := SkipBlanks(h, b);
    var d := SkipTo(h, c, false);
    if a == b || b - a >= HEAD then Bad else Line(h[a..b], TrimEnd(h[c..d]))
  }

  /** A word of an interpreter line, and an argument: what a script's author may write. */
  ghost predicate IsWord(t: Text) { t != [] && forall k :: 0 <= k < |t| ==> !Blank(t[k]) && !Ends(t[k]) }

  ghost predicate IsOption(t: Text) {
    (forall k :: 0 <= k < |t| ==> !Ends(t[k])) && (t != [] ==> !Blank(t[0]) && !Blank(t[|t| - 1]))
  }

  ghost predicate AllBlank(t: Text) { forall k :: 0 <= k < |t| ==> Blank(t[k]) }

  lemma {:induction false} SkipBlanksIs(h: Text, i: nat, j: nat)
    requires i <= j <= |h| && (forall k :: i <= k < j ==> Blank(h[k])) && (j < |h| ==> !Blank(h[j]))
    ensures SkipBlanks(h, i) == j
    decreases j - i
  {
    if i < j { SkipBlanksIs(h, i + 1, j); }
  }

  lemma {:induction false} SkipToIs(h: Text, i: nat, j: nat, word: bool)
    requires i <= j <= |h| && (forall k :: i <= k < j ==> !Ends(h[k]) && (word ==> !Blank(h[k])))
    requires j < |h| ==> Ends(h[j]) || (word && Blank(h[j]))
    ensures SkipTo(h, i, word) == j
    decreases j - i
  {
    if i < j { SkipToIs(h, i + 1, j, word); }
  }

  lemma {:induction false} TrimEndIs(t: Text, blanks: Text)
    requires AllBlank(blanks) && (t != [] ==> !Blank(t[|t| - 1]))
    ensures TrimEnd(t + blanks) == t
    decreases |blanks|
  {
    if blanks != [] {
      assert (t + blanks)[..|t + blanks| - 1] == t + blanks[..|blanks| - 1];
      TrimEndIs(t, blanks[..|blanks| - 1]);
    } else {
      assert t + blanks == t;
    }
  }

  /** A first line as written. */
  function Written(b1: Text, interp: Text, b2: Text, opt: Text, b3: Text, rest: Text): Text {
    [35, 33] + (b1 + (interp + (b2 + ((opt + b3) + rest))))
  }

  /** A written line reads as written, whatever blanks surround its two parts. */
  lemma LineReads(b1: Text, interp: Text, b2: Text, opt: Text, b3: Text, rest: Text)
    requires AllBlank(b1) && IsWord(interp) && |interp| < HEAD && AllBlank(b2) && IsOption(opt) && AllBlank(b3)
    requires opt != [] ==> b2 != []
    requires (opt == [] ==> b3 == []) && (rest != [] ==> Ends(rest[0]))
    ensures var h := Written(b1, interp, b2, opt, b3, rest); IsScript(h) && ParseLine(h) == Line(interp, opt)
  {
    var h := Written(b1, interp, b2, opt, b3, rest);
    var a := 2 + |b1|;
    var b := a + |interp|;
    var c := b + |b2|;
    var d := c + |opt + b3|;
    Peel(h, 0, [35, 33], b1 + (interp + (b2 + ((opt + b3) + rest))));
    Peel(h, 2, b1, interp + (b2 + ((opt + b3) + rest)));
    Peel(h, a, interp, b2 + ((opt + b3) + rest));
    Peel(h, b, b2, (opt + b3) + rest);
    Peel(h, c, opt + b3, rest);
    PiecesRead(h, a, b, c, d, b1, interp, b2, opt, b3, rest);
  }

  lemma Peel(h: Text, i: nat, x: Text, t: Text)
    requires i <= |h| && h[i..] == x + t
    ensures i + |x| <= |h| && h[i..i + |x|] == x && h[i + |x|..] == t
  {
    assert h[i..i + |x|] == h[i..][..|x|];
    assert h[i + |x|..] == h[i..][|x|..];
  }

  lemma PiecesRead(h: Text, a: nat, b: nat, c: nat, d: nat, b1: Text, interp: Text, b2: Text, opt: Text, b3: Text,
                   rest: Text)
    requires IsScript(h) && 2 <= a <= b <= c <= d <= |h| && h[2..a] == b1
    requires h[a..b] == interp && h[b..c] == b2 && h[c..d] == opt + b3 && h[d..] == rest
    requires AllBlank(b1) && IsWord(interp) && |interp| < HEAD && AllBlank(b2) && IsOption(opt) && AllBlank(b3)
    requires opt != [] ==> b2 != []
    requires (opt == [] ==> b3 == []) && (rest != [] ==> Ends(rest[0]))
    ensures ParseLine(h) == Line(interp, opt)
  {
    forall k | 2 <= k < a ensures Blank(h[k]) { assert h[k] == h[2..a][k - 2]; }
    Pieces(h, a, b, c, d, interp, b2, opt, b3, rest);
    Read(h, a, b, c, d, interp, opt, b3);
  }

  lemma Read(h: Text, a: nat, b: nat, c: nat, d: nat, interp: Text, opt: Text, b3: Text)
    requires IsScript(h) && 2 <= a <= b <= c <= d <= |h| && h[a..b] == interp && h[c..d] == opt + b3
    requires IsWord(interp) && |interp| < HEAD && IsOption(opt) && AllBlank(b3)
    requires forall k :: 2 <= k < a ==> Blank(h[k])
    requires forall k :: a <= k < b ==> !Blank(h[k]) && !Ends(h[k])
    requires forall k :: b <= k < c ==> Blank(h[k])
    requires forall k :: c <= k < d ==> !Ends(h[k])
    requires b < |h| ==> Blank(h[b]) || Ends(h[b])
    requires c < |h| ==> !Blank(h[c])
    requires d < |h| ==> Ends(h[d])
    ensures ParseLine(h) == Line(interp, opt)
  {
    SkipBlanksIs(h, 2, a);
    SkipToIs(h, a, b, true);
    SkipBlanksIs(h, b, c);
    SkipToIs(h, c, d, false);
    TrimEndIs(opt, b3);
  }

  lemma Pieces(h: Text, a: nat, b: nat, c: nat, d: nat, interp: Text, b2: Text, opt: Text, b3: Text, rest: Text)
    requires a <= b <= c <= d <= |h| && h[a..b] == interp && h[b..c] == b2 && h[c..d] == opt + b3 && h[d..] == rest
    requires IsWord(interp) && AllBlank(b2) && IsOption(opt) && AllBlank(b3) && (opt != [] ==> b2 != [])
    requires (opt == [] ==> b3 == []) && (rest != [] ==> Ends(rest[0]))
    ensures forall k :: a <= k < b ==> !Blank(h[k]) && !Ends(h[k])
    ensures forall k :: b <= k < c ==> Blank(h[k])
    ensures forall k :: c <= k < d ==> !Ends(h[k])
    ensures b < |h| ==> Blank(h[b]) || Ends(h[b])
    ensures c < |h| ==> !Blank(h[c])
    ensures d < |h| ==> Ends(h[d])
  {
    forall k | a <= k < b ensures !Blank(h[k]) && !Ends(h[k]) { assert h[k] == h[a..b][k - a]; }
    forall k | b <= k < c ensures Blank(h[k]) { assert h[k] == h[b..c][k - b]; }
    forall k | c <= k < d ensures !Ends(h[k]) {
      assert h[k] == h[c..d][k - c];
      assert k - c < |opt| || Blank(b3[k - c - |opt|]);
    }
    if d < |h| { assert h[d] == h[d..][0]; }
    if c < d { assert h[c] == h[c..d][0] == opt[0]; }
  }

  /** The new vector: interpreter, its argument if any, the script, then the old arguments
      after the first. */
  function Expand(argv: seq<Text>, interp: Text, opt: Text, path: Text): seq<Text> {
    [interp] + (if opt == [] then [] else [opt]) + [path] + (if argv == [] then [] else argv[1..])
  }

  predicate Overflows(argv: seq<Text>, opt: Text) { |argv| + 1 + (if opt == [] then 0 else 1) > MAX_ARGS }
}
