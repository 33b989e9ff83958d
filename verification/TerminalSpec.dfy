/** The console's byte-stream state machine over a 48x128 grid, as values: what each byte
    does to the screen, and the laws over whole streams. */
module TerminalSpec {
  import opened Basics

  const ROWS: int := 48
  const COLS: int := 128
  const CELLS: int := ROWS * COLS

  const ESC: int := 27
  const BEL: int := 7
  const BS: int := 8
  const TAB: int := 9
  const LF: int := 10
  const CR: int := 13

  const BLACK: int := 0
  const LIGHT_GREY: int := 7
  const WHITE: int := 15

  datatype Cell = Cell(ch: byte, attr: byte)

  const BLANK: Cell := Cell(' ' as int, BLACK)

  /** Escape-sequence progress: plain text, after ESC, inside a control sequence. */
  datatype Mode = Text | Escape | Control

  datatype Style = Style(fg: int, bg: int, bold: bool, standout: bool)

  const PLAIN_STYLE: Style := Style(WHITE, BLACK, false, false)

  /** The alternate-screen switch and what it saved. */
  datatype Alt = Alt(active: bool, cells: seq<Cell>, row: int, col: int)

  datatype Term = Term(
    cells: seq<Cell>, row: int, col: int,
    mode: Mode, params: seq<int>, nparams: int, priv: bool,
    style: Style, savedRow: int, savedCol: int, alt: Alt)

  ghost predicate OnScreen(row: int, col: int) { 0 <= row < ROWS && 0 <= col < COLS }

  ghost predicate Capped(params: seq<int>) {
    forall i :: 0 <= i < |params| ==> 0 <= params[i] <= 999
  }

  /** Cursor on the grid, at most eight parameters of at most three digits, colours in range. */
  ghost predicate Ok(t: Term) {
    && |t.cells| == CELLS && OnScreen(t.row, t.col) && OnScreen(t.savedRow, t.savedCol)
    && 0 <= t.nparams < 8 && |t.params| == 8 && Capped(t.params)
    && StyleOk(t.style)
    && |t.alt.cells| == CELLS && OnScreen(t.alt.row, t.alt.col)
  }

  function Bright(c: int): (r: int)
    ensures 0 <= c < 16 ==> 8 <= r < 16
  {
    if c / 8 % 2 == 1 then c else c + 8
  }

  function FinalColor(s: Style, color: byte): byte {
    var fg := if s.bold then Bright(s.fg) else s.fg;
    if color != WHITE && s.fg == WHITE && s.bg == BLACK && !s.bold then color
    else if s.standout then s.bg % 16 + 16 * (fg % 16)
    else fg % 16 + 16 * (s.bg % 16)
  }

  function Scroll(t: Term): Term
    requires |t.cells| == CELLS
  {
    t.(cells := t.cells[COLS..] + seq(COLS, _ => BLANK), row := ROWS - 1, col := 0)
  }

  function NewLine(t: Term): Term
    requires |t.cells| == CELLS
  {
    if t.row + 1 >= ROWS then Scroll(t) else t.(row := t.row + 1, col := 0)
  }

  /** A printable byte: overwrite the cell, advance, wrap, scroll. */
  function Plain(t: Term, c: byte, color: byte): Term
    requires Ok(t)
  {
    var u := t.(cells := t.cells[t.row * COLS + t.col := Cell(c, FinalColor(t.style, color))]);
    if t.col + 1 >= COLS then NewLine(u) else u.(col := t.col + 1)
  }

  function Spaces(t: Term, n: nat, color: byte): Term
    requires Ok(t)
    decreases n
  {
    if n == 0 then t else PlainOk(t, ' ' as int, color); Spaces(Plain(t, ' ' as int, color), n - 1, color)
  }

  function TabStop(col: int): int {
    var next := (col + 8) / 8 * 8;
    if next >= COLS then COLS - 1 else next
  }

  function Typed(t: Term, c: byte, color: byte): Term
    requires Ok(t)
  {
    if c == TAB then Spaces(t, TabStop(t.col) - t.col, color)
    else if c == BS then
      if t.col > 0 then t.(col := t.col - 1)
      else if t.row > 0 then t.(row := t.row - 1, col := COLS - 1)
      else t
    else if c == CR then t.(col := 0)
    else if c == LF then NewLine(t)
    else Plain(t, c, color)
  }

  function InRect(i: nat, row0: int, col0: int, row1: int, col1: int): bool {
    row0 <= i / COLS < row1 && col0 <= i % COLS < col1
  }

  function Fill(t: Term, row0: int, col0: int, row1: int, col1: int): Term
    requires |t.cells| == CELLS
  {
    t.(cells := seq(CELLS, i requires 0 <= i < CELLS =>
         if InRect(i, row0, col0, row1, col1) then Cell(' ' as int, LIGHT_GREY) else t.cells[i]))
  }

  function Clear(t: Term): Term {
    t.(cells := seq(CELLS, _ => BLANK), row := 0, col := 0, style := PLAIN_STYLE)
  }

  function AltEnter(t: Term): Term {
    if t.alt.active then t
    else Clear(t.(alt := Alt(true, t.cells, t.row, t.col)))
  }

  function AltExit(t: Term): Term {
    if !t.alt.active then t
    else Clear(t).(cells := t.alt.cells, row := t.alt.row, col := t.alt.col, alt := t.alt.(active := false))
  }

  function Param(t: Term, idx: nat, def: int): int
    requires Ok(t)
  {
    if idx > t.nparams || t.params[if idx < 8 then idx else 0] <= 0 then def else t.params[if idx < 8 then idx else 0]
  }

  function Clamp(x: int, lo: int, hi: int): (r: int)
    ensures lo <= hi ==> lo <= r <= hi
  {
    if x < lo then lo else if x > hi then hi else x
  }

  /** ANSI colour order to VGA colour order. */
  function AnsiToVga(i: int): (r: int)
    requires 0 <= i < 8
    ensures 0 <= r < 8
  {
    [0, 4, 2, 6, 1, 5, 3, 7][i]
  }

  function SgrColor(s: Style, p: int): Style {
    if 30 <= p <= 37 then s.(fg := AnsiToVga(p - 30))
    else if p == 39 then s.(fg := WHITE)
    else if 90 <= p <= 97 then s.(fg := Bright(AnsiToVga(p - 90)))
    else if 40 <= p <= 47 then s.(bg := AnsiToVga(p - 40))
    else if p == 49 then s.(bg := BLACK)
    else if 100 <= p <= 107 then s.(bg := Bright(AnsiToVga(p - 100)))
    else s
  }

  function Sgr(s: Style, p: int): Style {
    if p == 0 then PLAIN_STYLE
    else if p == 1 then s.(bold := true)
    else if p == 22 then s.(bold := false)
    else if p == 7 then s.(standout := true)
    else if p == 27 then s.(standout := false)
    else SgrColor(s, p)
  }

  /** Parameters i..n of an `m` sequence, left to right. */
  function SgrFrom(s: Style, params: seq<int>, n: int, i: nat): Style
    requires n < |params|
    decreases |params| - i
  {
    if i > n then s else SgrFrom(Sgr(s, params[i]), params, n, i + 1)
  }

  /** H f A B C D: cursor addressing and moves, clamped to the grid. */
  function CsiMove(t: Term, final: byte): Term
    requires Ok(t)
  {
    var p0 := Param(t, 0, 0);
    var n := if p0 != 0 then p0 else 1;
    if final == 'H' as int || final == 'f' as int then
      t.(row := Clamp(Param(t, 0, 1), 1, ROWS) - 1, col := Clamp(Param(t, 1, 1), 1, COLS) - 1)
    else if final == 'A' as int then t.(row := Clamp(t.row - n, 0, ROWS - 1))
    else if final == 'B' as int then t.(row := Clamp(t.row + n, 0, ROWS - 1))
    else if final == 'C' as int then t.(col := Clamp(t.col + n, 0, COLS - 1))
    else if final == 'D' as int then t.(col := Clamp(t.col - n, 0, COLS - 1))
    else t
  }

  function CsiErase(t: Term, final: byte): Term
    requires Ok(t)
  {
    var whole := Param(t, 0, 0) == 2;
    if final == 'J' as int then
      if whole then Fill(t, 0, 0, ROWS, COLS) else Fill(t, t.row, t.col, ROWS, COLS)
    else if final == 'K' as int then
      if whole then Fill(t, t.row, 0, t.row + 1, COLS) else Fill(t, t.row, t.col, t.row + 1, COLS)
    else t
  }

  function CsiMode(t: Term, final: byte): Term
    requires Ok(t)
  {
    var p0 := Param(t, 0, 0);
    if final == 'm' as int then if t.priv then t else t.(style := SgrFrom(t.style, t.params, t.nparams, 0))
    else if final == 's' as int then if t.priv then t else t.(savedRow := t.row, savedCol := t.col)
    else if final == 'u' as int then if t.priv then t else t.(row := t.savedRow, col := t.savedCol)
    else if final == 'h' as int then if t.priv && p0 == 1049 then AltEnter(t) else t
    else if final == 'l' as int then if t.priv && p0 == 1049 then AltExit(t) else t
    else t
  }

  predicate IsMove(c: byte) { c == 'H' as int || c == 'f' as int || 'A' as int <= c <= 'D' as int }

  predicate IsErase(c: byte) { c == 'J' as int || c == 'K' as int }

  function Csi(t: Term, final: byte): Term
    requires Ok(t)
  {
    if IsMove(final) then CsiMove(t, final)
    else if IsErase(final) then CsiErase(t, final)
    else CsiMode(t, final)
  }

  predicate IsLetter(c: byte) { 'A' as int <= c <= 'Z' as int || 'a' as int <= c <= 'z' as int }

  function Digit(t: Term, d: int): Term
    requires Ok(t)
  {
    var v := t.params[t.nparams] * 10 + d;
    t.(params := t.params[t.nparams := if v > 999 then 999 else v])
  }

  function InControl(t: Term, c: byte): Term
    requires Ok(t)
  {
    if c == '?' as int && t.nparams == 0 && t.params[0] == 0 then t.(priv := true)
    else if '0' as int <= c <= '9' as int then Digit(t, c - '0' as int)
    else if c == ';' as int then
      if t.nparams < 7 then t.(nparams := t.nparams + 1, params := t.params[t.nparams + 1 := 0]) else t
    else
      var u := t.(mode := Text);
      if IsLetter(c) then Csi(u, c) else u
  }

  /** One byte of output. */
  function Feed(t: Term, c: byte, color: byte): Term
    requires Ok(t)
  {
    match t.mode
    case Text =>
      if c == ESC then t.(mode := Escape) else if c == BEL then t else Typed(t, c, color)
    case Escape =>
      if c == '[' as int then t.(mode := Control, nparams := 0, priv := false, params := seq(8, _ => 0))
      else t.(mode := Text)
    case Control => InControl(t, c)
  }

  // ---- bounds hold on every stream ---------------------------------------------------

  lemma PlainOk(t: Term, c: byte, color: byte)
    requires Ok(t)
    ensures Ok(Plain(t, c, color)) && Plain(t, c, color).alt == t.alt
  {
  }

  /** A run of blanks inside the row never wraps or scrolls: it only moves the cursor right. */
  lemma {:induction false} SpacesOk(t: Term, n: nat, color: byte)
    requires Ok(t) && t.col + n < COLS
    ensures var u := Spaces(t, n, color);
      Ok(u) && u.alt == t.alt && u.row == t.row && u.col == t.col + n && u.mode == t.mode
    decreases n
  {
    if n > 0 {
      PlainOk(t, ' ' as int, color);
      SpacesOk(Plain(t, ' ' as int, color), n - 1, color);
    }
  }

  ghost predicate StyleOk(s: Style) { 0 <= s.fg < 16 && 0 <= s.bg < 16 }

  lemma {:induction false} SgrOk(s: Style, params: seq<int>, n: int, i: nat)
    requires StyleOk(s) && n < |params|
    ensures StyleOk(SgrFrom(s, params, n, i))
    decreases |params| - i
  {
    if i <= n { SgrOk(Sgr(s, params[i]), params, n, i + 1); }
  }

  lemma ParamRange(t: Term, idx: nat, def: int)
    requires Ok(t) && 0 <= def <= 999
    ensures 0 <= Param(t, idx, def) <= 999
  {
  }

  lemma CsiMoveOk(t: Term, final: byte)
    requires Ok(t)
    ensures Ok(CsiMove(t, final)) && CsiMove(t, final).alt == t.alt
  {
    ParamRange(t, 0, 0);
  }

  lemma CsiEraseOk(t: Term, final: byte)
    requires Ok(t)
    ensures Ok(CsiErase(t, final)) && CsiErase(t, final).alt == t.alt
  {
  }

  /** Parameters are capped at 999, so the number 1049 never reaches the dispatcher. */
  lemma CsiModeOk(t: Term, final: byte)
    requires Ok(t)
    ensures Ok(CsiMode(t, final)) && CsiMode(t, final).alt == t.alt
  {
    ParamRange(t, 0, 0);
    SgrOk(t.style, t.params, t.nparams, 0);
  }

  lemma CsiOk(t: Term, final: byte)
    requires Ok(t)
    ensures Ok(Csi(t, final)) && Csi(t, final).alt == t.alt
  {
    if IsMove(final) { CsiMoveOk(t, final); }
    else if IsErase(final) { CsiEraseOk(t, final); }
    else { CsiModeOk(t, final); }
  }

  lemma DigitOk(t: Term, d: int)
    requires Ok(t) && 0 <= d <= 9
    ensures Ok(Digit(t, d)) && Digit(t, d).alt == t.alt
  {
  }

  lemma ControlOk(t: Term, c: byte)
    requires Ok(t)
    ensures Ok(InControl(t, c)) && InControl(t, c).alt == t.alt
  {
    if '0' as int <= c <= '9' as int { DigitOk(t, c - '0' as int); }
    if IsLetter(c) { CsiOk(t.(mode := Text), c); }
  }

  lemma TypedOk(t: Term, c: byte, color: byte)
    requires Ok(t)
    ensures Ok(Typed(t, c, color)) && Typed(t, c, color).alt == t.alt
  {
    if c == TAB { SpacesOk(t, TabStop(t.col) - t.col, color); }
    else if c != BS && c != CR && c != LF { PlainOk(t, c, color); }
  }

  lemma FeedOk(t: Term, c: byte, color: byte)
    requires Ok(t)
    ensures Ok(Feed(t, c, color)) && Feed(t, c, color).alt == t.alt
  {
    match t.mode
    case Text => TypedOk(t, c, color);
    case Escape =>
    case Control => ControlOk(t, c);
  }

  function Run(t: Term, s: seq<(byte, byte)>): Term
    requires Ok(t)
    decreases |s|
  {
    if s == [] then t else FeedOk(t, s[0].0, s[0].1); Run(Feed(t, s[0].0, s[0].1), s[1..])
  }

  /** For every byte stream the cursor and the parameter index stay in bounds, and no stream
      ever switches to or from the alternate screen. */
  lemma {:induction false} RunOk(t: Term, s: seq<(byte, byte)>)
    requires Ok(t)
    ensures Ok(Run(t, s)) && Run(t, s).alt == t.alt
    decreases |s|
  {
    if s != [] {
      FeedOk(t, s[0].0, s[0].1);
      RunOk(Feed(t, s[0].0, s[0].1), s[1..]);
    }
  }

  /** The switch itself restores exactly: enter, any stream, exit brings back every cell and
      the cursor. */
  lemma AltRoundTrip(t: Term, s: seq<(byte, byte)>)
    requires Ok(t) && !t.alt.active
    ensures Ok(AltEnter(t))
    ensures var u := AltExit(Run(AltEnter(t), s));
      u.cells == t.cells && u.row == t.row && u.col == t.col && !u.alt.active
  {
    RunOk(AltEnter(t), s);
  }

  // ---- the documented escape sequence does not reach the switch -----------------------

  /** ESC [ ? 1 0 4 9 and the final letter. */
  function AltSequence(final: byte, color: byte): seq<(byte, byte)> {
    [(ESC, color), ('[' as int, color), ('?' as int, color), ('1' as int, color), ('0' as int, color),
     ('4' as int, color), ('9' as int, color), (final, color)]
  }

  lemma {:induction false} RunConcat(t: Term, a: seq<(byte, byte)>, b: seq<(byte, byte)>)
    requires Ok(t)
    ensures Ok(Run(t, a)) && Run(t, a + b) == Run(Run(t, a), b)
    decreases |a|
  {
    RunOk(t, a);
    if a == [] {
      assert a + b == b;
    } else {
      assert (a + b)[1..] == a[1..] + b;
      FeedOk(t, a[0].0, a[0].1);
      RunConcat(Feed(t, a[0].0, a[0].1), a[1..], b);
    }
  }

  lemma RunCons(t: Term, x: (byte, byte), s: seq<(byte, byte)>)
    requires Ok(t)
    ensures Ok(Feed(t, x.0, x.1)) && Run(t, [x] + s) == Run(Feed(t, x.0, x.1), s)
  {
    FeedOk(t, x.0, x.1);
    assert ([x] + s)[1..] == s;
  }

  function Parsed(t: Term, mode: Mode, p0: int): Term {
    t.(mode := mode, nparams := 0, priv := true, params := [p0, 0, 0, 0, 0, 0, 0, 0])
  }

  lemma DigitStep(t: Term, p0: int, d: int, color: byte)
    requires Ok(t) && 0 <= p0 <= 999 && 0 <= d <= 9
    ensures var v := p0 * 10 + d;
      && Ok(Parsed(t, Control, p0))
      && Feed(Parsed(t, Control, p0), '0' as int + d, color) == Parsed(t, Control, if v > 999 then 999 else v)
  {
    var q := if p0 * 10 + d > 999 then 999 else p0 * 10 + d;
    assert [p0, 0, 0, 0, 0, 0, 0, 0][0 := q] == [q, 0, 0, 0, 0, 0, 0, 0];
  }

  lemma RunDigits(t: Term, s: seq<(byte, byte)>, k: byte)
    requires Ok(t) && s == [('1' as int, k), ('0' as int, k), ('4' as int, k), ('9' as int, k)]
    ensures Ok(Parsed(t, Control, 0)) && Run(Parsed(t, Control, 0), s) == Parsed(t, Control, 999)
  {
    DigitStep(t, 0, 1, k);
    DigitStep(t, 1, 0, k);
    DigitStep(t, 10, 4, k);
    DigitStep(t, 104, 9, k);
    DigitStep(t, 999, 0, k);
    assert s == [s[0]] + s[1..] && s[1..] == [s[1]] + s[2..] && s[2..] == [s[2]] + s[3..] && s[3..] == [s[3]] + [];
    RunCons(Parsed(t, Control, 0), s[0], s[1..]);
    RunCons(Parsed(t, Control, 1), s[1], s[2..]);
    RunCons(Parsed(t, Control, 10), s[2], s[3..]);
    RunCons(Parsed(t, Control, 104), s[3], []);
  }

  lemma RunPrefix(t: Term, s: seq<(byte, byte)>, k: byte)
    requires Ok(t) && t.mode == Text && s == [(ESC, k), ('[' as int, k), ('?' as int, k)]
    ensures Run(t, s) == Parsed(t, Control, 0)
  {
    assert s == [s[0]] + s[1..] && s[1..] == [s[1]] + s[2..] && s[2..] == [s[2]] + [];
    RunCons(t, s[0], s[1..]);
    var a := Feed(t, ESC, k);
    RunCons(a, s[1], s[2..]);
    RunCons(Feed(a, s[1].0, k), s[2], []);
  }

  /** The whole sequence, enter or exit, leaves screen, cursor and colours untouched: its
      number is read as 999. */
  lemma AltSequenceIgnored(t: Term, final: byte, color: byte)
    requires Ok(t) && t.mode == Text
    requires final == 'h' as int || final == 'l' as int
    ensures Run(t, AltSequence(final, color)) == Parsed(t, Text, 999)
  {
    var s := AltSequence(final, color);
    assert s == s[..3] + s[3..] && s[3..] == s[3..7] + s[7..] && s[7..] == [s[7]] + [];
    RunConcat(t, s[..3], s[3..]);
    RunPrefix(t, s[..3], color);
    RunDigits(t, s[3..7], color);
    RunConcat(Parsed(t, Control, 0), s[3..7], s[7..]);
    LastByte(t, final, color);
    RunCons(Parsed(t, Control, 999), s[7], []);
  }

  lemma LastByte(t: Term, final: byte, color: byte)
    requires Ok(t) && (final == 'h' as int || final == 'l' as int)
    ensures Ok(Parsed(t, Control, 999)) && Feed(Parsed(t, Control, 999), final, color) == Parsed(t, Text, 999)
  {
    assert Csi(Parsed(t, Text, 999), final) == Parsed(t, Text, 999);
  }

  /** Bytes that plain text puts into a cell. */
  predicate Printable(c: byte) { c !in {ESC, BEL, BS, TAB, LF, CR} }

  /** What the documented law speaks of: enter, one byte, exit. */
  function AltVisit(c: byte, color: byte): seq<(byte, byte)> {
    AltSequence('h' as int, color) + [(c, color)] + AltSequence('l' as int, color)
  }

  /** So the documented law, text written between enter and exit leaves no trace, fails on
      every screen and for every byte that shows: the cursor has moved, and unless that
      scrolled, the screen is as before only if its cell already held the byte. */
  lemma AltLawFails(t: Term, c: byte, color: byte)
    requires Ok(t) && t.mode == Text && Printable(c)
    ensures var u, k, cell := Run(t, AltVisit(c, color)), t.row * COLS + t.col, Cell(c, FinalColor(t.style, color));
      && (u.row, u.col) != (t.row, t.col)
      && u.cells == Plain(t, c, color).cells
      && (t.row + 1 < ROWS || t.col + 1 < COLS ==>
        u.cells == t.cells[k := cell] && (u.cells == t.cells <==> t.cells[k] == cell))
  {
    VisitTypes(t, c, color);
    PlainParsed(t, c, color);
    PlainMoves(t, c, color);
  }

  lemma VisitTypes(t: Term, c: byte, color: byte)
    requires Ok(t) && t.mode == Text && Printable(c)
    ensures Ok(Parsed(t, Text, 999))
      && Run(t, AltVisit(c, color)) == Parsed(Plain(Parsed(t, Text, 999), c, color), Text, 999)
  {
    var h, x, l := AltSequence('h' as int, color), [(c, color)], AltSequence('l' as int, color);
    RunConcat(t, h + x, l);
    RunConcat(t, h, x);
    AltSequenceIgnored(t, 'h' as int, color);
    assert x == [x[0]] + [];
    var u := Parsed(t, Text, 999);
    RunCons(u, x[0], []);
    assert Feed(u, c, color) == Plain(u, c, color);
    PlainOk(u, c, color);
    AltSequenceIgnored(Plain(u, c, color), 'l' as int, color);
  }

  lemma PlainParsed(t: Term, c: byte, color: byte)
    requires Ok(t)
    ensures Ok(Parsed(t, Text, 999))
    ensures var u, v := Plain(Parsed(t, Text, 999), c, color), Plain(t, c, color);
      u.cells == v.cells && u.row == v.row && u.col == v.col
  {
  }

  lemma PlainMoves(t: Term, c: byte, color: byte)
    requires Ok(t)
    ensures var u, k, cell := Plain(t, c, color), t.row * COLS + t.col, Cell(c, FinalColor(t.style, color));
      && (u.row, u.col) != (t.row, t.col)
      && (t.row + 1 < ROWS || t.col + 1 < COLS ==>
        u.cells == t.cells[k := cell] && (u.cells == t.cells <==> t.cells[k] == cell))
  {
  }
}
