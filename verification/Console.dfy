/** tty.c and fb.c: the shadow grid, the escape parser's variables and the pixel memory. Every
    byte fed to the console does what TerminalSpec says, and the pixels are always the
    rendering of the grid. */
module Console {
  import opened Basics
  import opened TerminalSpec

  const WIDTH: int := 1024
  const LINE: int := 16 * WIDTH        // pixels of one text row
  const PIXELS: int := ROWS * LINE

  function Palette(i: int): int
    requires 0 <= i < 16
  {
    [0x000000, 0x1E66F5, 0x20A020, 0x179299, 0xC02020, 0x8839EF, 0xB07020, 0xC0C0C0,
     0x555555, 0x4080FF, 0x40D040, 0x40D0E0, 0xFF4040, 0xE040FF, 0xFFE040, 0xFFFFFF][i]
  }

  /** Bit of a glyph row under pixel column x. */
  function Ink(bits: int, x: int): bool {
    var shift := [128, 64, 32, 16, 8, 4, 2, 1];
    if 0 <= x < 8 then bits / shift[x] % 2 == 1 else false
  }

  /** The colour of pixel (x, y) of a character cell. */
  function Shade(font: (int, int) -> int, ch: byte, attr: byte, y: int, x: int): int {
    if Ink(font(ch, y), x) then Palette(attr % 16) else Palette(attr / 16 % 16)
  }

  lemma ShadeIs(font: (int, int) -> int, ch: byte, attr: byte, y: int, x: int)
    requires 0 <= x < 8
    ensures var on := font(ch, y) / [128, 64, 32, 16, 8, 4, 2, 1][x] % 2 == 1;
      Shade(font, ch, attr, y, x) == Palette(if on then attr % 16 else attr / 16)
  {
  }

  // Pixel i lies in text cell CellOf(i), on line LineOf(i) of it.
  function CellOf(i: int): int { i / LINE * COLS + i % WIDTH / 8 }
  function LineOf(i: int): int { i / WIDTH % 16 }

  lemma CellInGrid(i: int)
    requires 0 <= i < PIXELS
    ensures 0 <= CellOf(i) < CELLS && 0 <= LineOf(i) < 16 && 0 <= i % 8 < 8
  {
  }

  /** Where line y of cell k starts. */
  function LineStart(k: int, y: int): int { (k / COLS * 16 + y) * WIDTH + k % COLS * 8 }

  lemma Split(i: int) returns (q: int, m: int)
    requires 0 <= i < PIXELS
    ensures i == q * WIDTH + m && 0 <= q < ROWS * 16 && 0 <= m < WIDTH
    ensures CellOf(i) == q / 16 * COLS + m / 8 && LineOf(i) == q % 16 && i % 8 == m % 8
  {
    q, m := i / WIDTH, i % WIDTH;
    assert i / LINE == q / 16;
  }

  lemma PixelCell(px: nat, py: nat)
    requires px < WIDTH && py < ROWS * 16
    ensures var i := py * WIDTH + px;
      i < PIXELS && CellOf(i) == py / 16 * COLS + px / 8 && LineOf(i) == py % 16 && i % 8 == px % 8
  {
    var i := py * WIDTH + px;
    var q, m := Split(i);
    assert q == py && m == px;
  }

  lemma LineBox(k: int, y: int, i: int)
    requires 0 <= k < CELLS && 0 <= y < 16 && 0 <= i < PIXELS
    ensures CellOf(i) == k && LineOf(i) == y <==> LineStart(k, y) <= i < LineStart(k, y) + 8
    ensures CellOf(i) == k && LineOf(i) == y ==> i % 8 == i - LineStart(k, y)
    ensures 0 <= LineStart(k, y) && LineStart(k, y) + 8 <= PIXELS
  {
    var q, m := Split(i);
    BoxSides(k / COLS, k % COLS, y, q, m);
    assert k == k / COLS * COLS + k % COLS;
  }

  lemma BoxSides(r: int, c: int, y: int, q: int, m: int)
    requires 0 <= r < ROWS && 0 <= c < COLS && 0 <= y < 16 && 0 <= q < ROWS * 16 && 0 <= m < WIDTH
    ensures q / 16 * COLS + m / 8 == r * COLS + c && q % 16 == y
            <==> (r * 16 + y) * WIDTH + c * 8 <= q * WIDTH + m < (r * 16 + y) * WIDTH + c * 8 + 8
    ensures q / 16 * COLS + m / 8 == r * COLS + c && q % 16 == y
            ==> m % 8 == q * WIDTH + m - ((r * 16 + y) * WIDTH + c * 8)
  {
    assert q / 16 * COLS + m / 8 == r * COLS + c <==> q / 16 == r && m / 8 == c;
    assert q / 16 == r && q % 16 == y <==> q == r * 16 + y;
    assert m / 8 == c <==> c * 8 <= m < c * 8 + 8;
  }

  lemma ShiftRow(i: int)
    requires 0 <= i < PIXELS - LINE
    ensures CellOf(i + LINE) == CellOf(i) + COLS && LineOf(i + LINE) == LineOf(i) && (i + LINE) % 8 == i % 8
    ensures CellOf(i) < CELLS - COLS
  {
    var q, m := Split(i);
    var q', m' := Split(i + LINE);
    assert q' == q + 16 && m' == m;
    assert (q + 16) / 16 == q / 16 + 1;
  }

  lemma BottomRow(i: int)
    requires PIXELS - LINE <= i < PIXELS
    ensures CELLS - COLS <= CellOf(i) < CELLS
  {
  }

  lemma RowCol(i: int)
    requires 0 <= i < CELLS
    ensures 0 <= i / COLS < ROWS && 0 <= i % COLS < COLS
  {
  }

  class Screen {
    const font: (int, int) -> int
    const text: array<byte>
    const color: array<byte>
    const altText: array<byte>
    const altColor: array<byte>
    const params: array<int>
    const fb: array<int>

    var row: int
    var col: int
    var mode: Mode
    var nparams: int
    var priv: bool
    var style: Style
    var savedRow: int
    var savedCol: int
    var altActive: bool
    var altRow: int
    var altCol: int

    ghost predicate Shape() {
      && text.Length == color.Length == altText.Length == altColor.Length == CELLS
      && text != color && text != altText && text != altColor
      && color != altText && color != altColor && altText != altColor
      && params.Length == 8 && fb.Length == PIXELS && params != fb
    }

    ghost function Grid(t: array<byte>, c: array<byte>): seq<Cell>
      requires t.Length == CELLS && c.Length == CELLS
      reads t, c
    {
      seq(CELLS, i requires 0 <= i < CELLS reads t, c => Cell(t[i], c[i]))
    }

    ghost function Abs(): Term
      requires Shape()
      reads this, text, color, altText, altColor, params
    {
      Term(Grid(text, color), row, col, mode, params[..], nparams, priv, style, savedRow, savedCol,
           Alt(altActive, Grid(altText, altColor), altRow, altCol))
    }

    /** Each pixel is the rendering of its grid cell. */
    ghost predicate Agrees()
      requires Shape()
      reads text, color, fb
    {
      forall i :: 0 <= i < PIXELS ==> PixelAgrees(i)
    }

    ghost predicate PixelAgrees(i: int)
      requires Shape() && 0 <= i < PIXELS
      reads text, color, fb
    {
      CellInGrid(i);
      fb[i] == Shade(font, text[CellOf(i)], color[CellOf(i)], LineOf(i), i % 8)
    }

    ghost predicate Valid()
      reads this, text, color, altText, altColor, params, fb
    {
      Shape() && Ok(Abs()) && Agrees()
    }

    /** Every pixel of the screen: column px and line py lie in an 8 by 16 cell, and where the glyph of
        that cell has a bit, leftmost highest, the pixel has the colour of the low four bits of the
        cell's attribute, elsewhere that of the high ones. */
    lemma PixelIs(px: nat, py: nat)
      requires Valid() && px < 1024 && py < 768
      ensures var k := py / 16 * 128 + px / 8;
        && k < CELLS
        && var bits, attr := font(text[k], py % 16), color[k];
        var on := bits / [128, 64, 32, 16, 8, 4, 2, 1][px % 8] % 2 == 1;
        fb[py * 1024 + px] == Palette(if on then attr % 16 else attr / 16)
    {
      var i := py * WIDTH + px;
      PixelCell(px, py);
      CellInGrid(i);
      assert PixelAgrees(i);
      ShadeIs(font, text[CellOf(i)], color[CellOf(i)], py % 16, px % 8);
    }

    constructor (font: (int, int) -> int)
      ensures Valid()
      ensures fresh(text) && fresh(color) && fresh(altText) && fresh(altColor) && fresh(params) && fresh(fb)
      ensures Abs().cells == seq(CELLS, _ => BLANK) && mode == Text && row == 0 && col == 0 && !altActive
    {
      this.font := font;
      text, color := new byte[CELLS], new byte[CELLS];
      altText, altColor := new byte[CELLS], new byte[CELLS];
      params := new int[8](_ => 0);
      fb := new int[PIXELS];
      mode, nparams, priv, style := Text, 0, false, PLAIN_STYLE;
      row, col, savedRow, savedCol := 0, 0, 0, 0;
      altActive, altRow, altCol := false, 0, 0;
      new;
      FirstClear();
    }

    method FirstClear()
      requires Shape() && Ok(Abs())
      modifies this, text, color, fb
      ensures Valid() && Abs() == TerminalSpec.Clear(old(Abs()))
    {
      Clear();
      assert TerminalSpec.Clear(old(Abs())).alt == old(Abs()).alt;
    }

    // ---- framebuffer ---------------------------------------------------------------

    method FbClear()
      requires Shape()
      modifies fb
      ensures forall i :: 0 <= i < PIXELS ==> fb[i] == 0
    {
      for i := 0 to PIXELS
        invariant forall j :: 0 <= j < i ==> fb[j] == 0
      {
        fb[i] := 0;
      }
    }

    /** fb_scroll_up(1): a forward block copy, then the last text row goes black. */
    method FbScrollUp()
      requires Shape()
      modifies fb
      ensures forall i :: 0 <= i < PIXELS - LINE ==> fb[i] == old(fb[i + LINE])
      ensures forall i :: PIXELS - LINE <= i < PIXELS ==> fb[i] == 0
    {
      for i := 0 to PIXELS - LINE
        invariant forall j :: 0 <= j < i ==> fb[j] == old(fb[j + LINE])
        invariant forall j :: i <= j < PIXELS ==> fb[j] == old(fb[j])
      {
        fb[i] := fb[i + LINE];
      }
      for i := PIXELS - LINE to PIXELS
        invariant forall j :: 0 <= j < PIXELS - LINE ==> fb[j] == old(fb[j + LINE])
        invariant forall j :: PIXELS - LINE <= j < i ==> fb[j] == 0
      {
        fb[i] := 0;
      }
    }

    /** The eight stores of one glyph row. */
    method DrawLine(base: int, bits: int, fg: int, bg: int)
      requires Shape() && 0 <= base && base + 8 <= PIXELS
      modifies fb
      ensures forall i :: 0 <= i < PIXELS ==>
                fb[i] == if base <= i < base + 8 then (if Ink(bits, i - base) then fg else bg) else old(fb[i])
    {
      for x := 0 to 8
        invariant forall i :: 0 <= i < PIXELS ==>
                    fb[i] == if base <= i < base + x then (if Ink(bits, i - base) then fg else bg) else old(fb[i])
      {
        fb[base + x] := if Ink(bits, x) then fg else bg;
      }
    }

    method DrawChar(c: byte, atCol: int, atRow: int, attr: byte)
      requires Shape() && OnScreen(atRow, atCol)
      modifies fb
      ensures forall i :: 0 <= i < PIXELS ==>
                fb[i] == if CellOf(i) == atRow * COLS + atCol then Shade(font, c, attr, LineOf(i), i % 8)
                  else old(fb[i])
    {
      var fg, bg := Palette(attr % 16), Palette(attr / 16 % 16);
      ghost var k := atRow * COLS + atCol;
      for y := 0 to 16
        invariant forall i :: 0 <= i < PIXELS ==>
                    fb[i] == if CellOf(i) == k && LineOf(i) < y then Shade(font, c, attr, LineOf(i), i % 8)
                      else old(fb[i])
      {
        var base := (atRow * 16 + y) * WIDTH + atCol * 8;
        assert base == LineStart(k, y);
        LineBox(k, y, 0);
        ghost var was := fb[..];
        DrawLine(base, font(c, y), fg, bg);
        forall i | 0 <= i < PIXELS
          ensures fb[i] == if CellOf(i) == k && LineOf(i) < y + 1 then Shade(font, c, attr, LineOf(i), i % 8)
            else old(fb[i])
        {
          LineBox(k, y, i);
          assert was[i] == if CellOf(i) == k && LineOf(i) < y then Shade(font, c, attr, LineOf(i), i % 8)
            else old(fb[i]);
        }
      }
      forall i | 0 <= i < PIXELS ensures LineOf(i) < 16 { CellInGrid(i); }
    }

    // ---- grid ------------------------------------------------------------------------

    /** A grid cell and its pixels change together. */
    method SetCell(atRow: int, atCol: int, c: byte, attr: byte)
      requires Shape() && OnScreen(atRow, atCol) && Agrees()
      modifies text, color, fb
      ensures Agrees()
      ensures text[..] == old(text[..])[atRow * COLS + atCol := c]
      ensures color[..] == old(color[..])[atRow * COLS + atCol := attr]
    {
      var k := atRow * COLS + atCol;
      text[k] := c;
      color[k] := attr;
      DrawChar(c, atCol, atRow, attr);
      forall i | 0 <= i < PIXELS ensures PixelAgrees(i) {
        CellInGrid(i);
        assert old(PixelAgrees(i));
      }
    }

    method Clear()
      requires Shape()
      modifies this, text, color, fb
      ensures Shape() && Agrees() && Abs() == TerminalSpec.Clear(old(Abs()))
    {
      FbClear();
      for i := 0 to CELLS
        invariant forall j :: 0 <= j < i ==> text[j] == ' ' as int && color[j] == BLACK
        invariant forall j :: 0 <= j < PIXELS ==> fb[j] == 0
        invariant unchanged(this)
      {
        text[i] := ' ' as int;
        color[i] := BLACK;
      }
      forall i | 0 <= i < PIXELS ensures PixelAgrees(i) { CellInGrid(i); }
      row, col, style := 0, 0, PLAIN_STYLE;
    }

    method ShiftGrid()
      requires Shape()
      modifies text, color
      ensures Grid(text, color) == old(Grid(text, color))[COLS..] + seq(COLS, _ => BLANK)
    {
      for i := 0 to CELLS - COLS
        invariant forall j :: 0 <= j < i ==> text[j] == old(text[j + COLS]) && color[j] == old(color[j + COLS])
        invariant forall j :: i <= j < CELLS ==> text[j] == old(text[j]) && color[j] == old(color[j])
      {
        text[i], color[i] := text[i + COLS], color[i + COLS];
      }
      for i := CELLS - COLS to CELLS
        invariant forall j :: 0 <= j < CELLS - COLS ==>
          text[j] == old(text[j + COLS]) && color[j] == old(color[j + COLS])
        invariant forall j :: CELLS - COLS <= j < i ==> text[j] == ' ' as int && color[j] == BLACK
      {
        text[i], color[i] := ' ' as int, BLACK;
      }
    }

    method ScrollScreen()
      requires Shape() && Agrees()
      modifies this`row, this`col, text, color, fb
      ensures Agrees() && Abs() == Scroll(old(Abs()))
    {
      ghost var was := Grid(text, color);
      FbScrollUp();
      ShiftGrid();
      row, col := ROWS - 1, 0;
      forall i | 0 <= i < PIXELS ensures PixelAgrees(i) {
        CellInGrid(i);
        var k := CellOf(i);
        assert Grid(text, color)[k] == Cell(text[k], color[k]);
        if i < PIXELS - LINE {
          ShiftRow(i);
          CellInGrid(i + LINE);
          assert old(PixelAgrees(i + LINE));
          assert was[k + COLS] == Grid(text, color)[k];
        } else {
          BottomRow(i);
          assert Grid(text, color)[k] == BLANK;
        }
      }
    }

    method AltEnter()
      requires Valid()
      modifies this, text, color, altText, altColor, fb
      ensures Valid() && Abs() == TerminalSpec.AltEnter(old(Abs()))
    {
      if altActive { return; }
      for i := 0 to CELLS
        invariant forall j :: 0 <= j < i ==> altText[j] == text[j] && altColor[j] == color[j]
        invariant unchanged(this) && unchanged(text) && unchanged(color) && unchanged(fb)
      {
        altText[i], altColor[i] := text[i], color[i];
      }
      assert Grid(altText, altColor) == old(Grid(text, color));
      altRow, altCol, altActive := row, col, true;
      Clear();
    }

    /** Put the saved grid back, cell by cell, redrawing each. */
    method Restore()
      requires Shape() && Agrees()
      modifies text, color, fb
      ensures Agrees() && Grid(text, color) == Grid(altText, altColor)
    {
      for r := 0 to ROWS
        invariant Agrees()
        invariant forall j :: 0 <= j < r * COLS ==> text[j] == altText[j] && color[j] == altColor[j]
      {
        for c := 0 to COLS
          invariant Agrees()
          invariant forall j :: 0 <= j < r * COLS + c ==> text[j] == altText[j] && color[j] == altColor[j]
        {
          var k := r * COLS + c;
          ghost var t, l := text[..], color[..];
          SetCell(r, c, altText[k], altColor[k]);
          assert forall j :: 0 <= j < k ==> text[..][j] == t[j] && color[..][j] == l[j];
          assert text[..][k] == altText[k] && color[..][k] == altColor[k];
        }
      }
    }

    method AltExit()
      requires Valid()
      modifies this, text, color, fb
      ensures Valid() && Abs() == TerminalSpec.AltExit(old(Abs()))
    {
      if !altActive { return; }
      Clear();
      Restore();
      row, col, altActive := altRow, altCol, false;
    }

    /** Fill a clamped rectangle with grey blanks; end row and column are exclusive. */
    method VgaFill(r0: int, c0: int, r1: int, c1: int)
      requires Shape() && Agrees()
      modifies text, color, fb
      ensures Agrees() && Abs() == Fill(old(Abs()), r0, c0, r1, c1)
    {
      var row0, col0 := if r0 < 0 then 0 else r0, if c0 < 0 then 0 else c0;
      var row1, col1 := if r1 > ROWS then ROWS else r1, if c1 > COLS then COLS else c1;
      ghost var was := Grid(text, color);
      var r := row0;
      while r < row1
        invariant Agrees() && row0 <= r && (if row0 <= row1 then r <= row1 else r == row0)
        invariant forall i :: 0 <= i < CELLS ==>
                    Cell(text[i], color[i]) == if InRect(i, row0, col0, r, col1) then Cell(' ' as int, LIGHT_GREY)
                      else was[i]
      {
        FillRow(r, col0, col1);
        r := r + 1;
      }
      forall i | 0 <= i < CELLS ensures InRect(i, row0, col0, r, col1) == InRect(i, r0, c0, r1, c1) { RowCol(i); }
    }

    method FillRow(r: int, col0: int, col1: int)
      requires Shape() && Agrees() && 0 <= r < ROWS && 0 <= col0 && col1 <= COLS
      modifies text, color, fb
      ensures Agrees()
      ensures forall i :: 0 <= i < CELLS ==>
                Cell(text[i], color[i]) == if InRect(i, r, col0, r + 1, col1) then Cell(' ' as int, LIGHT_GREY)
                                           else old(Cell(text[i], color[i]))
    {
      var c := col0;
      while c < col1
        invariant Agrees() && col0 <= c && (if col0 <= col1 then c <= col1 else c == col0)
        invariant forall i :: 0 <= i < CELLS ==>
                    Cell(text[i], color[i]) == if InRect(i, r, col0, r + 1, c) then Cell(' ' as int, LIGHT_GREY)
                                               else old(Cell(text[i], color[i]))
      {
        ghost var t, l := text[..], color[..];
        SetCell(r, c, ' ' as int, LIGHT_GREY);
        ghost var k := r * COLS + c;
        forall i | 0 <= i < CELLS
          ensures Cell(text[i], color[i]) == if InRect(i, r, col0, r + 1, c + 1) then Cell(' ' as int, LIGHT_GREY)
                                             else old(Cell(text[i], color[i]))
        {
          assert text[..][i] == (if i == k then ' ' as int else t[i])
            && color[..][i] == if i == k then LIGHT_GREY else l[i];
          assert i == k <==> i / COLS == r && i % COLS == c;
        }
        c := c + 1;
      }
    }

    // ---- the escape-sequence machine ------------------------------------------------------

    method AnsiParam(idx: nat, def: int) returns (v: int)
      requires Valid() && idx < 8
      ensures v == Param(Abs(), idx, def)
    {
      if idx > nparams { return def; }
      v := params[idx];
      if v <= 0 { v := def; }
    }

    method SelectGraphics()
      requires Valid()
      modifies this`style
      ensures Valid() && Abs() == old(Abs()).(style := SgrFrom(old(style), params[..], nparams, 0))
    {
      SgrOk(style, params[..], nparams, 0);
      for i := 0 to nparams + 1
        invariant SgrFrom(style, params[..], nparams, i) == SgrFrom(old(style), params[..], nparams, 0)
      {
        style := Sgr(style, params[i]);
      }
    }

    method MoveTo()
      requires Valid()
      modifies this`row, this`col
      ensures row == Clamp(Param(old(Abs()), 0, 1), 1, ROWS) - 1
      ensures col == Clamp(Param(old(Abs()), 1, 1), 1, COLS) - 1
    {
      var r := AnsiParam(0, 1);
      var c := AnsiParam(1, 1);
      if r < 1 { r := 1; }
      if r > ROWS { r := ROWS; }
      if c < 1 { c := 1; }
      if c > COLS { c := COLS; }
      row, col := r - 1, c - 1;
    }

    method Move(final: byte)
      requires Valid() && IsMove(final)
      modifies this`row, this`col
      ensures Valid() && Abs() == CsiMove(old(Abs()), final)
    {
      CsiMoveOk(Abs(), final);
      if final == 'H' as int || final == 'f' as int {
        MoveTo();
      } else {
        var p0 := AnsiParam(0, 0);
        MoveBy(final, if p0 != 0 then p0 else 1);
      }
    }

    method MoveBy(final: byte, n: int)
      requires Valid() && 'A' as int <= final <= 'D' as int && n > 0
      modifies this`row, this`col
      ensures row == if final == 'A' as int then Clamp(old(row) - n, 0, ROWS - 1)
                     else if final == 'B' as int then Clamp(old(row) + n, 0, ROWS - 1) else old(row)
      ensures col == if final == 'C' as int then Clamp(old(col) + n, 0, COLS - 1)
                     else if final == 'D' as int then Clamp(old(col) - n, 0, COLS - 1) else old(col)
    {
      if final == 'A' as int {
        row := row - n;
        if row < 0 { row := 0; }
      } else if final == 'B' as int {
        row := row + n;
        if row >= ROWS { row := ROWS - 1; }
      } else if final == 'C' as int {
        col := col + n;
        if col >= COLS { col := COLS - 1; }
      } else {
        col := col - n;
        if col < 0 { col := 0; }
      }
    }

    method Erase(final: byte)
      requires Valid() && IsErase(final)
      modifies text, color, fb
      ensures Valid() && Abs() == CsiErase(old(Abs()), final)
    {
      var p0 := AnsiParam(0, 0);
      if final == 'J' as int {
        if p0 == 2 { VgaFill(0, 0, ROWS, COLS); } else { VgaFill(row, col, ROWS, COLS); }
      } else {
        if p0 == 2 { VgaFill(row, 0, row + 1, COLS); } else { VgaFill(row, col, row + 1, COLS); }
      }
    }

    method AnsiCsi(final: byte)
      requires Valid()
      modifies this, text, color, altText, altColor, fb
      ensures Valid() && Abs() == Csi(old(Abs()), final)
    {
      CsiOk(Abs(), final);
      if IsMove(final) {
        Move(final);
      } else if IsErase(final) {
        Erase(final);
      } else if final == 'm' as int {
        if !priv { SelectGraphics(); }
      } else if final == 's' as int {
        if !priv { savedRow, savedCol := row, col; }
      } else if final == 'u' as int {
        if !priv { row, col := savedRow, savedCol; }
      } else if final == 'h' as int || final == 'l' as int {
        var p0 := AnsiParam(0, 0);
        PrivateMode(final, p0);
      }
    }

    /** Of the private modes only the alternate screen is dispatched on. */
    method PrivateMode(final: byte, p0: int)
      requires Valid()
      modifies this, text, color, altText, altColor, fb
      ensures Valid()
      ensures Abs() == if !(old(priv) && p0 == 1049) then old(Abs())
                       else if final == 'h' as int then TerminalSpec.AltEnter(old(Abs()))
                       else TerminalSpec.AltExit(old(Abs()))
    {
      if priv && p0 == 1049 {
        if final == 'h' as int { AltEnter(); } else { AltExit(); }
      }
    }

    method ResetParams()
      requires Shape()
      modifies params
      ensures params[..] == seq(8, _ => 0)
    {
      for i := 0 to 8
        invariant forall j :: 0 <= j < i ==> params[j] == 0
      {
        params[i] := 0;
      }
    }

    method ControlByte(c: byte)
      requires Valid()
      modifies this, text, color, altText, altColor, params, fb
      ensures Valid() && Abs() == InControl(old(Abs()), c)
    {
      ControlOk(Abs(), c);
      if c == '?' as int && nparams == 0 && params[0] == 0 {
        priv := true;
      } else if '0' as int <= c <= '9' as int {
        params[nparams] := params[nparams] * 10 + (c - '0' as int);
        if params[nparams] > 999 { params[nparams] := 999; }
      } else if c == ';' as int {
        if nparams < 7 {
          nparams := nparams + 1;
          params[nparams] := 0;
        }
      } else {
        mode := Text;
        if IsLetter(c) { AnsiCsi(c); }
      }
    }

    // ---- print_char ---------------------------------------------------------------------------

    method LineFeed()
      requires Valid()
      modifies this`row, this`col, text, color, fb
      ensures Valid() && Abs() == NewLine(old(Abs()))
    {
      col := 0;
      row := row + 1;
      if row >= ROWS { ScrollScreen(); }
    }

    method PutPlain(c: byte, attr: byte)
      requires Valid()
      modifies this`row, this`col, text, color, fb
      ensures Valid() && Abs() == Plain(old(Abs()), c, attr)
    {
      PlainOk(Abs(), c, attr);
      ghost var k := row * COLS + col;
      var final := FinalColor(style, attr);
      SetCell(row, col, c, final);
      assert Grid(text, color) == old(Grid(text, color))[k := Cell(c, final)] by {
        forall i | 0 <= i < CELLS ensures Cell(text[i], color[i]) == if i == k then Cell(c, final)
          else old(Grid(text, color))[i] {
          assert text[..][i] == (if i == k then c else old(text[..])[i]);
          assert color[..][i] == (if i == k then final else old(color[..])[i]);
        }
      }
      col := col + 1;
      if col >= COLS {
        col := 0;
        row := row + 1;
        if row >= ROWS { ScrollScreen(); }
      }
    }

    method PrintChar(c: byte, attr: byte)
      requires Valid()
      modifies this, text, color, altText, altColor, params, fb
      ensures Valid() && Abs() == Feed(old(Abs()), c, attr)
      decreases if c == TAB then 1 else 0, 1
    {
      FeedOk(Abs(), c, attr);
      if mode == Text {
        if c == ESC {
          mode := Escape;
          return;
        }
        if c == BEL { return; }
      } else if mode == Escape {
        if c == '[' as int {
          mode, nparams, priv := Control, 0, false;
          ResetParams();
          return;
        }
        mode := Text;
        return;
      } else {
        ControlByte(c);
        return;
      }

      TypeByte(c, attr);
    }

    /** Blanks up to the next tab stop. */
    method TypeTab(attr: byte)
      requires Valid() && mode == Text
      modifies this, text, color, altText, altColor, params, fb
      ensures Valid() && Abs() == Typed(old(Abs()), TAB, attr)
      decreases 0, 2
    {
      TypedOk(Abs(), TAB, attr);
      var nextStop := (col + 8) / 8 * 8;
      if nextStop >= COLS { nextStop := COLS - 1; }
      while col < nextStop
        invariant Valid() && mode == Text && col <= nextStop
        invariant Spaces(Abs(), nextStop - col, attr) == Typed(old(Abs()), TAB, attr)
        decreases nextStop - col
      {
        PlainOk(Abs(), ' ' as int, attr);
        PrintChar(' ' as int, attr);
      }
    }

    /** print_char past the escape machine. */
    method TypeByte(c: byte, attr: byte)
      requires Valid() && mode == Text
      modifies this, text, color, altText, altColor, params, fb
      ensures Valid() && Abs() == Typed(old(Abs()), c, attr)
      decreases if c == TAB then 1 else 0, 0
    {
      TypedOk(Abs(), c, attr);
      if c == TAB {
        TypeTab(attr);
        return;
      }
      if c == BS {
        if col > 0 {
          col := col - 1;
        } else if row > 0 {
          row, col := row - 1, COLS - 1;
        }
        return;
      }
      if c == CR {
        col := 0;
        return;
      }
      if c == LF {
        LineFeed();
        return;
      }
      PutPlain(c, attr);
    }

    /** A whole string: the machine runs, and pixels and grid agree at the end. */
    method Print(s: seq<(byte, byte)>)
      requires Valid()
      modifies this, text, color, altText, altColor, params, fb
      ensures Valid() && Abs() == Run(old(Abs()), s)
      ensures altActive == old(altActive)
    {
      RunOk(Abs(), s);
      for i := 0 to |s|
        invariant Valid() && Run(Abs(), s[i..]) == Run(old(Abs()), s)
      {
        assert s[i..][0] == s[i] && s[i..][1..] == s[i + 1..];
        PrintChar(s[i].0, s[i].1);
      }
    }
  }
}
