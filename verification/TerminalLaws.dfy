/** What users see: control sequences and control characters told by cell, cursor and colour,
    from the bytes of the sequence on. */
module TerminalLaws {
  import opened Basics
  import opened TerminalSpec

  // ---- sequences as programs write them -----------------------------------------------------

  /** What the parser can hold. */
  type Par = n: nat | n <= 999

  /** A parameter in decimal. */
  function Decimal(n: Par): seq<byte> {
    if n < 10 then ['0' as int + n] else Decimal(n / 10) + ['0' as int + n % 10]
  }

  /** Parameters with semicolons between them. */
  function Listed(ps: seq<Par>): seq<byte> {
    if ps == [] then []
    else if |ps| == 1 then Decimal(ps[0])
    else Decimal(ps[0]) + [';' as int] + Listed(ps[1..])
  }

  function Coloured(s: seq<byte>, color: byte): seq<(byte, byte)> {
    seq(|s|, i requires 0 <= i < |s| => (s[i], color))
  }

  /** The terminal after ESC [ parameters letter, with a question mark in front if `mark`. */
  ghost function Sent(t: Term, mark: bool, ps: seq<Par>, final: byte, color: byte): Term
    requires Ok(t) && |ps| <= 8
  {
    Run(t, Coloured([ESC, '[' as int] + (if mark then ['?' as int] else []) + Listed(ps) + [final], color))
  }

  /** The parameters as the parser keeps them. */
  function Kept(ps: seq<Par>): seq<int>
    requires |ps| <= 8
  {
    seq(8, i requires 0 <= i < 8 => if i < |ps| then ps[i] as int else 0)
  }

  /** Parameter i as written, zero when it is missing. */
  function Arg(ps: seq<Par>, i: nat): Par { if i < |ps| then ps[i] else 0 }

  lemma ColouredConcat(a: seq<byte>, b: seq<byte>, color: byte)
    ensures Coloured(a + b, color) == Coloured(a, color) + Coloured(b, color)
  {
  }

  lemma RunByte(t: Term, c: byte, color: byte)
    requires Ok(t)
    ensures Ok(Feed(t, c, color)) && Run(t, Coloured([c], color)) == Feed(t, c, color)
  {
    assert Coloured([c], color) == [(c, color)] + [];
    RunCons(t, (c, color), []);
  }

  lemma RunTwo(t: Term, a: seq<byte>, b: seq<byte>, color: byte)
    requires Ok(t)
    ensures Ok(Run(t, Coloured(a, color)))
    ensures Run(t, Coloured(a + b, color)) == Run(Run(t, Coloured(a, color)), Coloured(b, color))
  {
    ColouredConcat(a, b, color);
    RunConcat(t, Coloured(a, color), Coloured(b, color));
  }

  /** A state inside a control sequence: n parameters begun, the last holding v. */
  ghost predicate Reading(t: Term, n: nat, v: int) {
    Ok(t) && t.mode == Control && t.nparams == n < 8 && t.params[n] == v
  }

  lemma DigitRead(t: Term, n: nat, v: nat, d: nat, color: byte)
    requires Reading(t, n, v) && d <= 9 && v * 10 + d <= 999
    ensures Ok(t.(params := t.params[n := v * 10 + d]))
    ensures Run(t, Coloured(['0' as int + d], color)) == t.(params := t.params[n := v * 10 + d])
  {
    RunByte(t, '0' as int + d, color);
    assert InControl(t, '0' as int + d) == Digit(t, d);
  }

  lemma {:induction false} DecimalRead(t: Term, n: nat, p: Par, color: byte)
    requires Reading(t, n, 0)
    ensures Ok(t.(params := t.params[n := p]))
    ensures Run(t, Coloured(Decimal(p), color)) == t.(params := t.params[n := p])
  {
    if p < 10 {
      DigitRead(t, n, 0, p, color);
    } else {
      var q: Par := p / 10;
      DecimalRead(t, n, q, color);
      var t1 := t.(params := t.params[n := q]);
      DigitRead(t1, n, q, p % 10, color);
      RunTwo(t, Decimal(q), ['0' as int + p % 10], color);
    }
  }

  /** The parameter array with ps from place n on. */
  function Filled(params: seq<int>, n: nat, ps: seq<Par>): seq<int>
    requires |params| == 8
  {
    seq(8, i requires 0 <= i < 8 => if n <= i < n + |ps| then ps[i - n] as int else params[i])
  }

  lemma FilledNext(params: seq<int>, n: nat, ps: seq<Par>)
    requires |params| == 8 && ps != [] && n + |ps| <= 8
    ensures Filled(params, n, ps) == Filled(params[n := ps[0]], n + 1, ps[1..])
  {
  }

  /** The parser reads back the parameters that were written. */
  lemma {:induction false} ListRead(t: Term, n: nat, ps: seq<Par>, color: byte)
    requires Reading(t, n, 0) && ps != [] && n + |ps| <= 8
    requires forall i :: n <= i < 8 ==> t.params[i] == 0
    ensures var u := t.(nparams := n + |ps| - 1, params := Filled(t.params, n, ps));
      Ok(u) && Run(t, Coloured(Listed(ps), color)) == u
    decreases |ps|
  {
    DecimalRead(t, n, ps[0], color);
    FilledNext(t.params, n, ps);
    var t1 := t.(params := t.params[n := ps[0]]);
    if |ps| == 1 {
      assert Filled(t1.params, n + 1, []) == t1.params;
    } else {
      var semi: seq<byte> := [';' as int];
      SemicolonRead(t1, n, color);
      ListRead(t1.(nparams := n + 1), n + 1, ps[1..], color);
      RunTwo(t, Decimal(ps[0]), semi, color);
      RunTwo(t, Decimal(ps[0]) + semi, Listed(ps[1..]), color);
    }
  }

  lemma SemicolonRead(t: Term, n: nat, color: byte)
    requires Ok(t) && t.mode == Control && t.nparams == n < 7 && t.params[n + 1] == 0
    ensures Ok(t.(nparams := n + 1)) && Run(t, Coloured([';' as int], color)) == t.(nparams := n + 1)
  {
    RunByte(t, ';' as int, color);
    assert t.params[n + 1 := 0] == t.params;
  }

  /** The state the last byte of a sequence finds. */
  function Parsed(t: Term, mark: bool, ps: seq<Par>): Term
    requires |ps| <= 8
  {
    t.(mode := Control, priv := mark, params := Kept(ps), nparams := if ps == [] then 0 else |ps| - 1)
  }

  lemma PrefixRead(t: Term, mark: bool, color: byte)
    requires Ok(t) && t.mode == Text
    ensures var s := [ESC, '[' as int] + if mark then ['?' as int] else [];
      Ok(Parsed(t, mark, [])) && Run(t, Coloured(s, color)) == Parsed(t, mark, [])
  {
    var a: seq<byte>, b: seq<byte>, m: seq<byte> := [ESC], ['[' as int], if mark then ['?' as int] else [];
    assert seq(8, _ => 0) == Kept([]);
    RunByte(t, ESC, color);
    var t1 := Feed(t, ESC, color);
    RunByte(t1, '[' as int, color);
    var t2 := Feed(t1, '[' as int, color);
    assert t2 == Parsed(t, false, []);
    if mark { RunByte(t2, '?' as int, color); } else { assert Coloured(m, color) == []; }
    RunTwo(t, a, b, color);
    RunTwo(t, a + b, m, color);
    assert a + b == [ESC, '[' as int];
  }

  lemma ParametersRead(t: Term, mark: bool, ps: seq<Par>, color: byte)
    requires Ok(Parsed(t, mark, [])) && |ps| <= 8
    ensures Ok(Parsed(t, mark, ps)) && Run(Parsed(t, mark, []), Coloured(Listed(ps), color)) == Parsed(t, mark, ps)
  {
    if ps == [] {
      assert Coloured(Listed(ps), color) == [];
    } else {
      ListRead(Parsed(t, mark, []), 0, ps, color);
      assert Filled(Kept([]), 0, ps) == Kept(ps);
    }
  }

  /** So the letter finds exactly the parameters that were written. */
  lemma SentIs(t: Term, mark: bool, ps: seq<Par>, final: byte, color: byte)
    requires Ok(t) && t.mode == Text && |ps| <= 8
    ensures Ok(Parsed(t, mark, ps)) && Ok(Sent(t, mark, ps, final, color))
    ensures Sent(t, mark, ps, final, color) == Feed(Parsed(t, mark, ps), final, color)
  {
    var s := [ESC, '[' as int] + if mark then ['?' as int] else [];
    PrefixRead(t, mark, color);
    ParametersRead(t, mark, ps, color);
    RunTwo(t, s, Listed(ps), color);
    RunByte(Parsed(t, mark, ps), final, color);
    RunTwo(t, s + Listed(ps), [final], color);
  }

  // ---- what the sequences do -------------------------------------------------------------------

  /** Nothing but the parser's variables differs: same cells, cursor, colours and saved screen. */
  ghost predicate SameScreen(t: Term, u: Term) {
    u == t.(mode := u.mode, params := u.params, nparams := u.nparams, priv := u.priv)
  }

  function CellAt(t: Term, r: int, c: int): Cell
    requires |t.cells| == CELLS && 0 <= r < ROWS && 0 <= c < COLS
  {
    t.cells[r * COLS + c]
  }

  const ERASED: Cell := Cell(' ' as int, LIGHT_GREY)

  lemma FillAt(t: Term, r0: int, c0: int, r1: int, c1: int, r: int, c: int)
    requires |t.cells| == CELLS && 0 <= r < ROWS && 0 <= c < COLS
    ensures CellAt(Fill(t, r0, c0, r1, c1), r, c) == if r0 <= r < r1 && c0 <= c < c1 then ERASED else CellAt(t, r, c)
  {
    assert (r * COLS + c) / COLS == r && (r * COLS + c) % COLS == c;
  }

  /** ESC [ K blanks the cursor's row from the cursor on, with 2 all of it, and nothing else. */
  lemma EraseLine(t: Term, mark: bool, ps: seq<Par>, color: byte, r: int, c: int)
    requires Ok(t) && t.mode == Text && |ps| <= 8 && 0 <= r < ROWS && 0 <= c < COLS
    ensures var u := Sent(t, mark, ps, 'K' as int, color);
      && Ok(u) && u.mode == Text && SameScreen(t, u.(cells := t.cells))
      && CellAt(u, r, c) == if r == t.row && (c >= t.col || Arg(ps, 0) == 2) then ERASED else CellAt(t, r, c)
  {
    SentIs(t, mark, ps, 'K' as int, color);
    FillAt(t, t.row, 0, t.row + 1, COLS, r, c);
    FillAt(t, t.row, t.col, t.row + 1, COLS, r, c);
  }

  /** ESC [ J blanks with 2 the whole grid, and otherwise exactly the rectangle from the cursor to
      the lower right corner. */
  lemma EraseScreen(t: Term, mark: bool, ps: seq<Par>, color: byte, r: int, c: int)
    requires Ok(t) && t.mode == Text && |ps| <= 8 && 0 <= r < ROWS && 0 <= c < COLS
    ensures var u := Sent(t, mark, ps, 'J' as int, color);
      && Ok(u) && u.mode == Text && SameScreen(t, u.(cells := t.cells))
      && CellAt(u, r, c) == if (r >= t.row && c >= t.col) || Arg(ps, 0) == 2 then ERASED else CellAt(t, r, c)
  {
    SentIs(t, mark, ps, 'J' as int, color);
    FillAt(t, 0, 0, ROWS, COLS, r, c);
    FillAt(t, t.row, t.col, ROWS, COLS, r, c);
  }

  /** The documented ESC [ 1 K, erase to the start of the line, erases to its end. */
  lemma EraseToStartFails(t: Term, color: byte)
    requires Ok(t) && t.mode == Text
    ensures Sent(t, false, [1], 'K' as int, color).cells == Sent(t, false, [], 'K' as int, color).cells
  {
    var u, v := Sent(t, false, [1], 'K' as int, color), Sent(t, false, [], 'K' as int, color);
    EraseLine(t, false, [1], color, 0, 0);
    EraseLine(t, false, [], color, 0, 0);
    forall i | 0 <= i < CELLS ensures u.cells[i] == v.cells[i] {
      var r, c := i / COLS, i % COLS;
      EraseLine(t, false, [1], color, r, c);
      EraseLine(t, false, [], color, r, c);
      assert CellAt(u, r, c) == CellAt(v, r, c) && i == r * COLS + c;
    }
  }

  /** How far a cursor key goes: its parameter, one when there is none. */
  function Times(ps: seq<Par>): nat { if Arg(ps, 0) == 0 then 1 else Arg(ps, 0) }

  function AtMost(x: int, hi: int): int { if x < hi then x else hi }

  function AtLeast(x: int, lo: int): int { if x > lo then x else lo }

  /** A, B, C, D: up, down, right and left, as far as the grid goes. */
  lemma Moves(t: Term, mark: bool, ps: seq<Par>, color: byte)
    requires Ok(t) && t.mode == Text && |ps| <= 8
    ensures var u := Sent(t, mark, ps, 'A' as int, color);
      Ok(u) && u.mode == Text && SameScreen(t.(row := AtLeast(t.row - Times(ps), 0)), u)
    ensures var u := Sent(t, mark, ps, 'B' as int, color);
      Ok(u) && u.mode == Text && SameScreen(t.(row := AtMost(t.row + Times(ps), ROWS - 1)), u)
    ensures var u := Sent(t, mark, ps, 'C' as int, color);
      Ok(u) && u.mode == Text && SameScreen(t.(col := AtMost(t.col + Times(ps), COLS - 1)), u)
    ensures var u := Sent(t, mark, ps, 'D' as int, color);
      Ok(u) && u.mode == Text && SameScreen(t.(col := AtLeast(t.col - Times(ps), 0)), u)
  {
    SentIs(t, mark, ps, 'A' as int, color);
    SentIs(t, mark, ps, 'B' as int, color);
    SentIs(t, mark, ps, 'C' as int, color);
    SentIs(t, mark, ps, 'D' as int, color);
  }

  /** H and f: the row and column counted from one, the nearest on the grid. */
  lemma Goes(t: Term, mark: bool, ps: seq<Par>, final: byte, color: byte)
    requires Ok(t) && t.mode == Text && |ps| <= 8 && (final == 'H' as int || final == 'f' as int)
    ensures var u := Sent(t, mark, ps, final, color);
      && Ok(u) && u.mode == Text
      && SameScreen(t.(row := AtMost(AtLeast(Arg(ps, 0), 1), ROWS) - 1,
        col := AtMost(AtLeast(Arg(ps, 1), 1), COLS) - 1), u)
  {
    SentIs(t, mark, ps, final, color);
  }

  /** s and u: the cursor comes back to where it was saved, whatever was printed in between, as
      long as nothing else was saved. */
  lemma SaveRestore(t: Term, ps: seq<Par>, qs: seq<Par>, color: byte, v: Term)
    requires Ok(t) && t.mode == Text && |ps| <= 8 && |qs| <= 8
    ensures var u := Sent(t, false, ps, 's' as int, color);
      && Ok(u) && u.mode == Text && SameScreen(t, u.(savedRow := t.savedRow, savedCol := t.savedCol))
      && (Ok(v) && v.mode == Text && v.savedRow == u.savedRow && v.savedCol == u.savedCol ==>
            SameScreen(v.(row := t.row, col := t.col), Sent(v, false, qs, 'u' as int, color)))
  {
    SentIs(t, false, ps, 's' as int, color);
    if Ok(v) && v.mode == Text { SentIs(v, false, qs, 'u' as int, color); }
  }

  /** Text leaves the saved position alone. */
  lemma TypingKeepsSaved(t: Term, c: byte, color: byte)
    requires Ok(t) && t.mode == Text && c != ESC
    ensures var u := Feed(t, c, color); u.mode == Text && u.savedRow == t.savedRow && u.savedCol == t.savedCol
  {
    if c == TAB { SpacesKeepSaved(t, TabStop(t.col) - t.col, color); }
  }

  lemma {:induction false} SpacesKeepSaved(t: Term, n: nat, color: byte)
    requires Ok(t)
    ensures var u := Spaces(t, n, color); u.mode == t.mode && u.savedRow == t.savedRow && u.savedCol == t.savedCol
    decreases n
  {
    if n > 0 {
      PlainOk(t, ' ' as int, color);
      SpacesKeepSaved(Plain(t, ' ' as int, color), n - 1, color);
    }
  }

  predicate Known(c: byte) {
    c in {'A' as int, 'B' as int, 'C' as int, 'D' as int, 'H' as int, 'f' as int, 'J' as int, 'K' as int,
          'm' as int, 's' as int, 'u' as int}
  }

  /** Every other sequence leaves the screen alone, the switch of screens included; and so do m, s
      and u with a question mark. */
  lemma Unknown(t: Term, mark: bool, ps: seq<Par>, final: byte, color: byte)
    requires Ok(t) && t.mode == Text && |ps| <= 8 && IsLetter(final)
    requires !Known(final) || (mark && final in {'m' as int, 's' as int, 'u' as int})
    ensures var u := Sent(t, mark, ps, final, color); Ok(u) && u.mode == Text && SameScreen(t, u)
  {
    SentIs(t, mark, ps, final, color);
    if ps != [] { assert Kept(ps)[0] <= 999; }
  }

  /** ESC and a byte other than [ is swallowed: the documented ESC 7 and ESC 8 do nothing. */
  lemma EscapeIgnored(t: Term, c: byte, color: byte)
    requires Ok(t) && t.mode == Text && c != '[' as int
    ensures Run(t, Coloured([ESC, c], color)) == t
  {
    RunByte(t, ESC, color);
    RunByte(Feed(t, ESC, color), c, color);
    RunTwo(t, [ESC], [c], color);
    assert [ESC] + [c] == [ESC, c];
  }

  // ---- colours ---------------------------------------------------------------------------------

  /** v is the VGA colour with the red, green and blue bits of ANSI colour i. */
  predicate Coded(v: int, i: int, bright: bool) {
    && v / 4 % 2 == i % 2 && v / 2 % 2 == i / 2 % 2 && v % 2 == i / 4 % 2
    && v / 8 == if bright then 1 else 0
  }

  /** What one parameter of m makes of the colours; 38 and 48, for more colours, are ignored. */
  ghost predicate Styled(a: Style, p: int, b: Style) {
    && (p == 0 ==> b == Style(WHITE, BLACK, false, false))
    && (p == 1 || p == 22 ==> b == a.(bold := p == 1))
    && (p == 7 || p == 27 ==> b == a.(standout := p == 7))
    && (p == 39 ==> b == a.(fg := WHITE)) && (p == 49 ==> b == a.(bg := BLACK))
    && (30 <= p <= 37 ==> b == a.(fg := b.fg) && Coded(b.fg, p - 30, false))
    && (90 <= p <= 97 ==> b == a.(fg := b.fg) && Coded(b.fg, p - 90, true))
    && (40 <= p <= 47 ==> b == a.(bg := b.bg) && Coded(b.bg, p - 40, false))
    && (100 <= p <= 107 ==> b == a.(bg := b.bg) && Coded(b.bg, p - 100, true))
    && (!Styles(p) ==> b == a)
  }

  /** The parameters of m that are known. */
  predicate Styles(p: int) {
    p in {0, 1, 7, 22, 27, 39, 49} || 30 <= p <= 37 || 40 <= p <= 47 || 90 <= p <= 97 || 100 <= p <= 107
  }

  lemma ColourCoded(i: nat)
    requires i < 8
    ensures Coded(AnsiToVga(i), i, false) && Coded(Bright(AnsiToVga(i)), i, true)
  {
    var v := [0, 4, 2, 6, 1, 5, 3, 7][i];
    assert AnsiToVga(i) == v && Bright(v) == v + 8;
    assert forall k :: 0 <= k < 8 ==> Coded([0, 4, 2, 6, 1, 5, 3, 7][k], k, false);
  }

  lemma SgrStyled(a: Style, p: int)
    ensures Styled(a, p, Sgr(a, p))
  {
    if 30 <= p <= 37 { ColourCoded(p - 30); }
    if 40 <= p <= 47 { ColourCoded(p - 40); }
    if 90 <= p <= 97 { ColourCoded(p - 90); }
    if 100 <= p <= 107 { ColourCoded(p - 100); }
  }

  /** A sequence of colours, one for every parameter and the one before, takes a to b. */
  ghost predicate StyledAll(a: Style, ps: seq<Par>, b: Style, all: seq<Style>) {
    && |all| == |ps| + 1 && all[0] == a && all[|ps|] == b
    && forall i :: 0 <= i < |ps| ==> Styled(all[i], ps[i], all[i + 1])
  }

  lemma {:induction false} SgrAll(a: Style, params: seq<int>, n: int, i: nat) returns (all: seq<Style>)
    requires n < |params| && i <= n + 1
    ensures |all| == n + 2 - i && all[0] == a && all[n + 1 - i] == SgrFrom(a, params, n, i)
    ensures forall k :: 0 <= k < n + 1 - i ==> Styled(all[k], params[i + k], all[k + 1])
    decreases n + 1 - i
  {
    if i > n {
      all := [a];
    } else {
      var rest := SgrAll(Sgr(a, params[i]), params, n, i + 1);
      all := [a] + rest;
      SgrStyled(a, params[i]);
      forall k | 0 <= k < n + 1 - i ensures Styled(all[k], params[i + k], all[k + 1]) {
        if k > 0 { assert Styled(rest[k - 1], params[i + 1 + (k - 1)], rest[k]); }
      }
    }
  }

  /** m: the parameters one after the other, a reset when there is none; no cell changes. */
  lemma Colours(t: Term, ps: seq<Par>, color: byte) returns (all: seq<Style>)
    requires Ok(t) && t.mode == Text && |ps| <= 8
    ensures var u := Sent(t, false, ps, 'm' as int, color);
      && Ok(u) && u.mode == Text && SameScreen(t.(style := u.style), u)
      && StyledAll(t.style, if ps == [] then [0] else ps, u.style, all)
  {
    SentIs(t, false, ps, 'm' as int, color);
    var w := Parsed(t, false, ps);
    all := SgrAll(t.style, w.params, w.nparams, 0);
    var qs := if ps == [] then [0] else ps;
    forall i | 0 <= i < |qs| ensures Styled(all[i], qs[i], all[i + 1]) {
      assert Styled(all[i], w.params[0 + i], all[i + 1]);
    }
  }

  /** The documented 256-colour sequences set no colour: each number is read on its own, and from 108
      on means nothing. */
  lemma PaletteIgnored(t: Term, p: Par, n: Par, color: byte)
    requires Ok(t) && t.mode == Text && (p == 38 || p == 48) && 108 <= n
    ensures var u := Sent(t, false, [p, 5, n], 'm' as int, color); Ok(u) && SameScreen(t, u)
  {
    var ps: seq<Par> := [p, 5, n];
    var all := Colours(t, ps, color);
    assert Styled(all[0], ps[0], all[1]) && Styled(all[1], ps[1], all[2]) && Styled(all[2], ps[2], all[3]);
  }

  // ---- text --------------------------------------------------------------------------------------

  /** The colours a byte is printed in: the caller's when the program has set none, otherwise
      foreground in the low and background in the high four bits, the other way round in
      standout, with the bright bit set by bold. */
  ghost predicate Painted(s: Style, color: byte, attr: byte) {
    var plain := s.fg == WHITE && s.bg == BLACK && !s.bold;
    var fg := if s.bold && s.fg < 8 then s.fg + 8 else s.fg;
    if color != WHITE && plain then attr == color
    else if s.standout then attr / 16 == fg && attr % 16 == s.bg
    else attr % 16 == fg && attr / 16 == s.bg
  }

  lemma FinalPainted(s: Style, color: byte)
    requires StyleOk(s)
    ensures Painted(s, color, FinalColor(s, color))
  {
    var fg := if s.bold && s.fg < 8 then s.fg + 8 else s.fg;
    assert (if s.bold then Bright(s.fg) else s.fg) == fg;
    Nibbles(fg, s.bg);
    Nibbles(s.bg, fg);
  }

  lemma Nibbles(lo: nat, hi: nat)
    requires lo < 16 && hi < 16
    ensures (lo + 16 * hi) % 16 == lo && (lo + 16 * hi) / 16 == hi && lo % 16 == lo
  {
  }

  /** Row and column are at the lower right corner: the next advance scrolls. */
  predicate AtEnd(t: Term) { t.row == ROWS - 1 && t.col == COLS - 1 }

  /** A byte that shows: its cell, and only that, and the cursor is one further, at the start of
      the next row past the end of one. */
  lemma Prints(t: Term, c: byte, color: byte, r: int, k: int)
    requires Ok(t) && t.mode == Text && c !in {7, 8, 9, 10, 13, 27} && !AtEnd(t) && 0 <= r < ROWS && 0 <= k < COLS
    ensures var u := Feed(t, c, color);
      && u == t.(cells := u.cells, row := if t.col == COLS - 1 then t.row + 1 else t.row,
                 col := if t.col == COLS - 1 then 0 else t.col + 1)
      && |u.cells| == CELLS
      && if r == t.row && k == t.col then CellAt(u, r, k).ch == c && Painted(t.style, color, CellAt(u, r, k).attr)
         else CellAt(u, r, k) == CellAt(t, r, k)
  {
    FinalPainted(t.style, color);
    if r * COLS + k == t.row * COLS + t.col { assert r == t.row && k == t.col; }
  }

  /** All rows move up by one, and the last is blank. */
  lemma ScrollAt(t: Term, r: int, k: int)
    requires |t.cells| == CELLS && 0 <= r < ROWS && 0 <= k < COLS
    ensures |Scroll(t).cells| == CELLS
    ensures CellAt(Scroll(t), r, k) == if r < ROWS - 1 then CellAt(t, r + 1, k) else Cell(' ' as int, BLACK)
  {
  }

  /** At the lower right corner the byte is printed and everything moves up. */
  lemma PrintsLast(t: Term, c: byte, color: byte, r: int, k: int)
    requires Ok(t) && t.mode == Text && c !in {7, 8, 9, 10, 13, 27} && AtEnd(t) && 0 <= r < ROWS && 0 <= k < COLS
    ensures var u := Feed(t, c, color);
      && u == t.(cells := u.cells, col := 0) && |u.cells| == CELLS
      && if r == ROWS - 1 then CellAt(u, r, k) == Cell(' ' as int, BLACK)
         else if r == ROWS - 2 && k == COLS - 1
         then CellAt(u, r, k).ch == c && Painted(t.style, color, CellAt(u, r, k).attr)
         else CellAt(u, r, k) == CellAt(t, r + 1, k)
  {
    FinalPainted(t.style, color);
    var w := t.(cells := t.cells[t.row * COLS + t.col := Cell(c, FinalColor(t.style, color))]);
    assert Feed(t, c, color) == Scroll(w);
    ScrollAt(w, r, k);
    if r < ROWS - 1 && (r + 1) * COLS + k == t.row * COLS + t.col { assert r + 1 == t.row && k == t.col; }
  }

  /** Line feed: the start of the next row; at the bottom everything moves up instead. */
  lemma LineFeeds(t: Term, color: byte, r: int, k: int)
    requires Ok(t) && t.mode == Text && 0 <= r < ROWS && 0 <= k < COLS
    ensures var u := Feed(t, LF, color);
      && |u.cells| == CELLS
      && (t.row < ROWS - 1 ==> u == t.(row := t.row + 1, col := 0))
      && (t.row == ROWS - 1 ==>
            && u == t.(cells := u.cells, col := 0)
            && CellAt(u, r, k) == if r < ROWS - 1 then CellAt(t, r + 1, k) else Cell(' ' as int, BLACK))
  {
    if t.row == ROWS - 1 { ScrollAt(t, r, k); }
  }

  /** Carriage return, backspace and bell move the cursor at most: to the start of the row, back by
      one and over the row's start to the end of the one above, and nowhere. */
  lemma Returns(t: Term, color: byte)
    requires Ok(t) && t.mode == Text
    ensures Feed(t, CR, color) == t.(col := 0) && Feed(t, BEL, color) == t
    ensures t.col > 0 ==> Feed(t, BS, color) == t.(col := t.col - 1)
    ensures t.col == 0 && t.row > 0 ==> Feed(t, BS, color) == t.(row := t.row - 1, col := COLS - 1)
    ensures t.col == 0 && t.row == 0 ==> Feed(t, BS, color) == t
  {
  }

  lemma {:induction false} SpacesAt(t: Term, n: nat, color: byte, r: int, k: int)
    requires Ok(t) && t.col + n < COLS && 0 <= r < ROWS && 0 <= k < COLS
    ensures var u := Spaces(t, n, color);
      && u == t.(cells := u.cells, col := t.col + n) && |u.cells| == CELLS
      && if r == t.row && t.col <= k < t.col + n
         then CellAt(u, r, k).ch == ' ' as int && Painted(t.style, color, CellAt(u, r, k).attr)
         else CellAt(u, r, k) == CellAt(t, r, k)
    decreases n
  {
    if n > 0 {
      PlainOk(t, ' ' as int, color);
      SpacesAt(Plain(t, ' ' as int, color), n - 1, color, r, k);
      FinalPainted(t.style, color);
      if r * COLS + k == t.row * COLS + t.col { assert r == t.row && k == t.col; }
    }
  }

  /** Tab: blanks up to the next column that is a multiple of eight, or the last. */
  lemma Tabs(t: Term, color: byte, stop: int, r: int, k: int)
    requires Ok(t) && t.mode == Text && 0 <= r < ROWS && 0 <= k < COLS
    requires if t.col < COLS - 8 then stop % 8 == 0 && t.col < stop <= t.col + 8 else stop == COLS - 1
    ensures var u := Feed(t, TAB, color);
      && u == t.(cells := u.cells, col := stop) && |u.cells| == CELLS
      && if r == t.row && t.col <= k < stop
         then CellAt(u, r, k).ch == ' ' as int && Painted(t.style, color, CellAt(u, r, k).attr)
         else CellAt(u, r, k) == CellAt(t, r, k)
  {
    assert stop == TabStop(t.col);
    SpacesAt(t, stop - t.col, color, r, k);
  }

  // ---- whole screens -----------------------------------------------------------------------------

  /** A cleared screen: blank and black, the cursor at the top left, white on black; parser, saved
      position and saved screen are as before. */
  lemma Clears(t: Term, r: int, k: int)
    requires 0 <= r < ROWS && 0 <= k < COLS
    ensures var u := Clear(t);
      && |u.cells| == CELLS && CellAt(u, r, k) == Cell(' ' as int, BLACK)
      && u == t.(cells := u.cells, row := 0, col := 0, style := Style(WHITE, BLACK, false, false))
  {
  }

  /** The switch to the alternate screen shows a cleared one and keeps cells and cursor of the first;
      a second switch does nothing, and neither does a switch back from the first screen. */
  lemma Switches(t: Term)
    requires Ok(t)
    ensures t.alt.active ==> AltEnter(t) == t
    ensures !t.alt.active ==> AltExit(t) == t
    ensures !t.alt.active ==>
              var u := AltEnter(t);
              SameScreen(Clear(t).(alt := u.alt), u) && u.alt == Alt(true, t.cells, t.row, t.col)
    ensures t.alt.active ==>
              var u := AltExit(t);
              && u.cells == t.alt.cells && u.row == t.alt.row && u.col == t.alt.col && !u.alt.active
              && u.style == Style(WHITE, BLACK, false, false)
  {
  }
}
