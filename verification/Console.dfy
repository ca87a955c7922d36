/** The text console of kernel/hw/gfx/output.cc: a back buffer that is a ring of text lines, and the frame buffer
    it is copied to.  What it shows is the end of an unbounded document. */
module Console {
  import opened Options
  import opened Arithmetic
  import opened Utf8

  /** The pixels of one text line. */
  type Line = seq<nat>

  const TAB_CELLS: nat := 8

  /** glyph(line, x, c, color): the line with c drawn at x, or None if the font has no glyph for c (ssfn_putc). */
  datatype Display = Display(width: nat, cellW: nat, blank: Line, glyph: (Line, nat, nat, nat) -> Option<Line>)

  predicate Usable(d: Display) {
    0 < d.cellW <= d.width
  }

  // ---------------------------------------------------------------- the document

  /** Everything written so far; the cursor is on the last line. */
  datatype Document = Document(lines: seq<Line>, x: nat)

  function Break(d: Display, doc: Document): (r: Document) {
    Document(doc.lines + [d.blank], 0)
  }

  /** The cursor moves to the next tab stop, or to a new line if no character fits there. */
  function Tab(d: Display, doc: Document): Document
    requires Usable(d)
  {
    var stop := d.cellW * TAB_CELLS;
    var x := (doc.x / stop + 1) * stop;
    if x + d.cellW > d.width then Break(d, doc) else doc.(x := x)
  }

  function Draw(d: Display, doc: Document, c: nat, color: nat): Document
    requires doc.lines != []
  {
    var last := |doc.lines| - 1;
    match d.glyph(doc.lines[last], doc.x, c, color)
    case None => doc
    case Some(line) => Document(doc.lines[last := line], doc.x + d.cellW)
  }

  /** One code point. */
  function Put(d: Display, doc: Document, c: nat, color: nat): (r: Document)
    requires Usable(d) && doc.lines != []
    ensures r.lines != []
  {
    if c == 13 then doc.(x := 0)
    else if c == 10 then Break(d, doc)
    else if c == 9 then Tab(d, doc)
    else Draw(d, if doc.x + d.cellW > d.width then Break(d, doc) else doc, c, color)
  }

  function Write(d: Display, doc: Document, text: seq<nat>, color: nat): (r: Document)
    requires Usable(d) && doc.lines != []
    ensures r.lines != []
    decreases |text|
  {
    if text == [] then doc else Write(d, Put(d, doc, text[0], color), text[1..], color)
  }

  /** The last n lines of the document, followed by blank lines if there are fewer. */
  function Screen(d: Display, doc: Document, n: nat): (s: seq<Line>)
    ensures |s| == n
  {
    seq(n, l requires 0 <= l < n =>
      if |doc.lines| > n then doc.lines[|doc.lines| - n + l] else if l < |doc.lines| then doc.lines[l] else d.blank)
  }

  /** The screen is the end of the document, filled up with blank lines. */
  lemma ScreenIsEnd(d: Display, doc: Document, n: nat)
    ensures Screen(d, doc, n) == if |doc.lines| >= n then doc.lines[|doc.lines| - n..]
                                 else doc.lines + seq(n - |doc.lines|, _ => d.blank)
  {
  }

  /** Carriage return goes back to the start of the line, line feed starts a new one. */
  lemma ControlCodes(d: Display, doc: Document, color: nat)
    requires Usable(d) && doc.lines != []
    ensures Put(d, doc, '\r' as int, color) == Document(doc.lines, 0)
    ensures Put(d, doc, '\n' as int, color) == Document(doc.lines + [d.blank], 0)
  {
  }

  /** Any other code point but the tab is drawn at the cursor if a cell is left on the line, and otherwise at the start of
      a new line; one without a glyph draws nothing. */
  lemma PutDraws(d: Display, doc: Document, c: nat, color: nat)
    requires Usable(d) && doc.lines != [] && c != '\t' as int && c != '\n' as int && c != '\r' as int
    ensures var room := doc.x + d.cellW <= d.width;
            var above := if room then doc.lines[..|doc.lines| - 1] else doc.lines;
            var line, x := if room then doc.lines[|doc.lines| - 1] else d.blank, if room then doc.x else 0;
            var drawn := d.glyph(line, x, c, color);
            Put(d, doc, c, color) == if drawn.Some? then Document(above + [drawn.value], x + d.cellW) else Document(above + [line], x)
  {
    hide Usable;
    if doc.x + d.cellW > d.width {
      assert (doc.lines + [d.blank])[..|doc.lines|] == doc.lines;
    }
  }

  /** The line with a text typed into it from x on, one cell for each character. */
  ghost function Typed(d: Display, line: Line, x: nat, text: seq<nat>, color: nat): Line
    decreases |text|
  {
    if text == [] then line
    else match d.glyph(line, x, text[0], color)
         case None => line
         case Some(drawn) => Typed(d, drawn, x + d.cellW, text[1..], color)
  }

  /** A text that fits the line is typed into it, cell after cell, and nothing else changes. */
  lemma {:induction false} TextIsTyped(d: Display, doc: Document, text: seq<nat>, color: nat)
    requires Usable(d) && doc.lines != [] && doc.x + |text| * d.cellW <= d.width && forall c | c in text :: Drawable(d, c)
    ensures var n := |doc.lines| - 1;
            Write(d, doc, text, color)
            == Document(doc.lines[..n] + [Typed(d, doc.lines[n], doc.x, text, color)], doc.x + |text| * d.cellW)
    decreases |text|
  {
    if text != [] {
      assert text[0] in text;
      assert |text| * d.cellW == d.cellW + |text[1..]| * d.cellW;
      PutDraws(d, doc, text[0], color);
      var r := Put(d, doc, text[0], color);
      var n := |doc.lines| - 1;
      hide Put, Usable;
      assert r.lines[..n] == doc.lines[..n];
      TextIsTyped(d, r, text[1..], color);
    }
  }

  lemma {:induction false} WriteConcat(d: Display, doc: Document, a: seq<nat>, b: seq<nat>, color: nat)
    requires Usable(d) && doc.lines != []
    ensures Write(d, doc, a + b, color) == Write(d, Write(d, doc, a, color), b, color)
    decreases |a|
  {
    if a == [] {
      assert a + b == b;
    } else {
      assert (a + b)[1..] == a[1..] + b;
      WriteConcat(d, Put(d, doc, a[0], color), a[1..], b, color);
    }
  }

  /** The cursor stays on the display, and lines above it are never changed again. */
  lemma {:induction false} WriteKeepsHistory(d: Display, doc: Document, text: seq<nat>, color: nat)
    requires Usable(d) && doc.lines != [] && doc.x <= d.width
    ensures var r := Write(d, doc, text, color);
            r.x <= d.width && |r.lines| >= |doc.lines| && r.lines[..|doc.lines| - 1] == doc.lines[..|doc.lines| - 1]
    decreases |text|
  {
    if text != [] {
      var p := Put(d, doc, text[0], color);
      assert p.x <= d.width && |p.lines| >= |doc.lines| && p.lines[..|doc.lines| - 1] == doc.lines[..|doc.lines| - 1];
      hide Put;
      WriteKeepsHistory(d, p, text[1..], color);
    }
  }

  /** A tab moves to the least multiple of eight cells ahead of the cursor, or breaks the line
      exactly when a character would not fit at any stop ahead. */
  lemma TabGoesToNextStop(d: Display, doc: Document, color: nat)
    requires Usable(d) && doc.lines != []
    ensures var r, stop := Put(d, doc, 9, color), d.cellW * TAB_CELLS;
            if r.lines == doc.lines then r.x % stop == 0 && doc.x < r.x <= doc.x + stop && r.x + d.cellW <= d.width
            else r == Document(doc.lines + [d.blank], 0) && forall x | x > doc.x && x % stop == 0 :: x + d.cellW > d.width
  {
    var stop := d.cellW * TAB_CELLS;
    var q := doc.x / stop;
    assert doc.x == q * stop + doc.x % stop;
    Distribute(q, 1, stop);
    DivMod((q + 1) * stop, stop, q + 1, 0);
    forall x | x > doc.x && x % stop == 0 ensures x >= (q + 1) * stop {
      assert x == x / stop * stop;
      if x / stop <= q {
        MulMonotone(x / stop, q, stop);
      } else {
        MulMonotone(q + 1, x / stop, stop);
      }
    }
    hide Usable;
    assert |Break(d, doc).lines| == |doc.lines| + 1;
  }

  /** The cells written to, counting every line before the last as full. */
  function Cells(d: Display, doc: Document): int
    requires Usable(d) && doc.lines != []
  {
    (|doc.lines| - 1) * (d.width / d.cellW) + doc.x / d.cellW
  }

  /** The font has a glyph for c. */
  ghost predicate Drawable(d: Display, c: nat) {
    c !in {9, 10, 13} && forall line, x, color :: d.glyph(line, x, c, color).Some?
  }

  /** The cursor is at a cell boundary. */
  predicate Aligned(d: Display, doc: Document)
    requires Usable(d)
  {
    doc.x % d.cellW == 0 && doc.x <= d.width
  }

  lemma PutFillsCell(d: Display, doc: Document, c: nat, color: nat)
    requires Usable(d) && doc.lines != [] && Aligned(d, doc) && Drawable(d, c)
    ensures Aligned(d, Put(d, doc, c, color)) && Cells(d, Put(d, doc, c, color)) == Cells(d, doc) + 1
  {
    var j, cols := doc.x / d.cellW, d.width / d.cellW;
    FullLine(j, d.cellW, d.width);
    DivMod(doc.x + d.cellW, d.cellW, j + 1, 0);
    DivMod(d.cellW, d.cellW, 1, 0);
    if j == cols {
      assert Put(d, doc, c, color).x == d.cellW && |Put(d, doc, c, color).lines| == |doc.lines| + 1;
    }
  }

  /** There is no room for another cell exactly after the last column. */
  lemma FullLine(j: nat, cell: nat, width: nat)
    requires cell > 0 && j * cell <= width
    ensures j <= width / cell && (j * cell + cell > width <==> j == width / cell)
  {
    var q := width / cell;
    assert width == q * cell + width % cell;
    Distribute(j, 1, cell);
    Distribute(q, 1, cell);
    if j > q {
      MulMonotone(q + 1, j, cell);
    }
    if j < q {
      MulMonotone(j + 1, q, cell);
    }
  }

  /** Text wraps after the last column and leaves no cell out: n characters fill n cells. */
  lemma {:induction false} TextFillsCells(d: Display, doc: Document, text: seq<nat>, color: nat)
    requires Usable(d) && doc.lines != [] && Aligned(d, doc) && forall c | c in text :: Drawable(d, c)
    ensures Aligned(d, Write(d, doc, text, color)) && Cells(d, Write(d, doc, text, color)) == Cells(d, doc) + |text|
    decreases |text|
  {
    hide Put, Cells, Drawable, Aligned;
    if text != [] {
      assert text[0] in text;
      PutFillsCell(d, doc, text[0], color);
      TextFillsCells(d, Put(d, doc, text[0], color), text[1..], color);
    }
  }

  // ---------------------------------------------------------------- the ring

  /** Physical line of on-screen line l. */
  function Physical(top: nat, n: nat, l: nat): (p: nat)
    requires top < n && l < n
    ensures p < n && p == if top + l < n then top + l else top + l - n
  {
    ModOnce(top + l, n);
    (top + l) % n
  }

  lemma ModOnce(x: nat, n: nat)
    requires 0 < n && x < 2 * n
    ensures x % n == if x < n then x else x - n
  {
  }

  /** The physical lines in the order in which they are on the screen. */
  function Unrolled(back: seq<Line>, top: nat): (s: seq<Line>)
    requires top < |back|
    ensures |s| == |back| && forall l | 0 <= l < |back| :: s[l] == back[Physical(top, |back|, l)]
  {
    back[top..] + back[..top]
  }

  lemma UnrolledUpdate(back: seq<Line>, top: nat, l: nat, line: Line)
    requires top < |back| && l < |back|
    ensures Unrolled(back[Physical(top, |back|, l) := line], top) == Unrolled(back, top)[l := line]
  {
  }

  /** The physical line after the top one. */
  function Advance(top: nat, n: nat): (p: nat)
    requires top < n
    ensures p == if top + 1 < n then top + 1 else 0
  {
    ModOnce(top + 1, n);
    (top + 1) % n
  }

  /** Replacing the top line and moving on by one line scrolls. */
  lemma UnrolledScroll(back: seq<Line>, top: nat, line: Line)
    requires top < |back|
    ensures Unrolled(back[top := line], Advance(top, |back|)) == Unrolled(back, top)[1..] + [line]
  {
    var r := back[top := line];
    if top + 1 < |back| {
      assert r[top + 1..] + r[..top + 1] == back[top + 1..] + back[..top] + [line];
    } else {
      assert r == back[..top] + [line];
    }
  }

  /** A new line scrolls a full screen and leaves any other as it is. */
  lemma ScreenBreak(d: Display, doc: Document, n: nat)
    requires n >= 1
    ensures Screen(d, Break(d, doc), n) == if |doc.lines| >= n then Screen(d, doc, n)[1..] + [d.blank] else Screen(d, doc, n)
  {
  }

  function CursorLine(doc: Document, n: nat): (l: nat)
    requires doc.lines != [] && n >= 1
    ensures l < n
  {
    (if |doc.lines| < n then |doc.lines| else n) - 1
  }

  lemma ScreenDraw(d: Display, doc: Document, n: nat, line: Line, x: nat)
    requires doc.lines != [] && n >= 1
    ensures Screen(d, doc, n)[CursorLine(doc, n)] == doc.lines[|doc.lines| - 1]
    ensures Screen(d, Document(doc.lines[|doc.lines| - 1 := line], x), n) == Screen(d, doc, n)[CursorLine(doc, n) := line]
  {
  }

  /** The frame buffer can differ from the screen only in lines that the next Present copies. */
  ghost predicate Tracked(fb: seq<Line>, screen: seq<Line>, lo: nat, hi: nat, all: bool)
    requires |fb| == |screen|
  {
    !all ==> forall l | 0 <= l < |fb| && !(lo <= l <= hi) :: fb[l] == screen[l]
  }

  lemma NothingTracked(fb: seq<Line>, screen: seq<Line>, lo: nat, hi: nat)
    requires |fb| == |screen|
    ensures Tracked(fb, screen, lo, hi, true)
  {
  }

  /** Replacing the top line by a blank one and moving on shows the document with a blank line added. */
  lemma ScrollsScreen(back: seq<Line>, top: nat, d: Display, doc: Document)
    requires top < |back| <= |doc.lines| && Unrolled(back, top) == Screen(d, doc, |back|)
    ensures Unrolled(back[top := d.blank], Advance(top, |back|)) == Screen(d, Break(d, doc), |back|)
  {
    hide Unrolled, Screen, Physical, Advance;
    UnrolledScroll(back, top, d.blank);
    ScreenBreak(d, doc, |back|);
  }

  class Buffers {
    const display: Display
    const nLines: nat
    const fb: array<Line>
    const back: array<Line>
    var top: nat
    var curLine: nat
    var curX: nat
    var dirtyLo: nat
    var dirtyHi: nat
    var allDirty: bool
    var color: nat
    ghost var doc: Document

    ghost predicate Shape()
      reads this
    {
      && Usable(display) && nLines >= 1 && back.Length == fb.Length == nLines && back != fb
      && top < nLines && curX <= display.width && dirtyHi < nLines
      && doc.lines != [] && curX == doc.x && curLine == CursorLine(doc, nLines)
    }

    ghost function View(): (s: seq<Line>)
      reads this
      ensures |s| == nLines
    {
      Screen(display, doc, nLines)
    }

    /** The physical lines in screen order are the screen, and the frame buffer is behind only where it is marked to be. */
    ghost predicate Valid()
      reads this, back, fb
    {
      Shape() && Unrolled(back[..], top) == View() && Tracked(fb[..], View(), dirtyLo, dirtyHi, allDirty)
    }

    /** Initialize: both buffers are cleared. */
    constructor (display: Display, n: nat, color: nat)
      requires Usable(display) && n >= 1
      ensures Valid() && doc == Document([display.blank], 0) && this.display == display && nLines == n
      ensures fb[..] == back[..] == seq(n, _ => display.blank)
      ensures fresh(fb) && fresh(back) && this.color == color
    {
      this.display, nLines, this.color := display, n, color;
      fb := new Line[n](_ => display.blank);
      back := new Line[n](_ => display.blank);
      top, curLine, curX := 0, 0, 0;
      allDirty, dirtyLo, dirtyHi := false, n, 0;
      doc := Document([display.blank], 0);
    }

    method SetColor(color: nat)
      requires Valid()
      modifies this`color
      ensures Valid() && this.color == color
    {
      this.color := color;
    }

    method MarkDirty(l: nat)
      requires Shape() && l < nLines
      modifies this`dirtyLo, this`dirtyHi
      ensures Shape() && dirtyLo == if l < old(dirtyLo) then l else old(dirtyLo)
      ensures dirtyHi == if l > old(dirtyHi) then l else old(dirtyHi)
    {
      if l < dirtyLo {
        dirtyLo := l;
      }
      if l > dirtyHi {
        dirtyHi := l;
      }
    }

    /** The cursor goes to the start of the next line; on the last one the ring moves on by a line. */
    method NewLine()
      requires Valid()
      modifies this`curX, this`curLine, this`top, this`allDirty, this`doc, back
      ensures Valid() && doc == Document(old(doc).lines + [display.blank], 0)
    {
      ScreenBreak(display, doc, nLines);
      if curLine + 1 < nLines {
        hide Unrolled, Screen;
        curX, curLine := 0, curLine + 1;
        doc := Break(display, doc);
      } else {
        Scroll();
      }
    }

    /** The oldest line becomes the new, empty bottom line. */
    method Scroll()
      requires Valid() && curLine + 1 == nLines
      modifies this`curX, this`top, this`allDirty, this`doc, back
      ensures Valid() && doc == Break(display, old(doc))
    {
      ScrollsScreen(back[..], top, display, doc);
      hide Unrolled, Screen, Physical, Advance, Tracked;
      SetLine(top, display.blank);
      top := Advance(top, nLines);
      curX, allDirty := 0, true;
      doc := Break(display, doc);
      NothingTracked(fb[..], View(), dirtyLo, dirtyHi);
    }

    method SetLine(p: nat, line: Line)
      requires p < back.Length
      modifies back
      ensures back[..] == old(back[..])[p := line]
    {
      back[p] := line;
    }

    /** Draws c at the cursor. */
    method DrawGlyph(c: nat)
      requires Valid() && curX + display.cellW <= display.width
      modifies this`curX, this`dirtyLo, this`dirtyHi, this`doc, back
      ensures Valid() && doc == Draw(display, old(doc), c, color)
    {
      hide Unrolled, Screen, Physical;
      var p := Physical(top, nLines, curLine);
      ghost var lines := back[..];
      ScreenDraw(display, doc, nLines, [], 0);
      assert back[p] == lines[p] == doc.lines[|doc.lines| - 1];
      match display.glyph(back[p], curX, c, color) {
        case None =>
        case Some(line) =>
          ScreenDraw(display, doc, nLines, line, doc.x + display.cellW);
          UnrolledUpdate(lines, top, curLine, line);
          doc := Draw(display, doc, c, color);
          SetLine(p, line);
          curX := curX + display.cellW;
          MarkDirty(curLine);
      }
    }

    method PutCodepoint(c: nat)
      requires Valid()
      modifies this`curX, this`curLine, this`top, this`allDirty, this`dirtyLo, this`dirtyHi, this`doc, back
      ensures Valid() && doc == Put(display, old(doc), c, color)
    {
      if c == 13 {
        curX := 0;
        doc := doc.(x := 0);
      } else if c == 10 {
        NewLine();
      } else if c == 9 {
        var stop := display.cellW * TAB_CELLS;
        var x := (curX / stop + 1) * stop;
        if x + display.cellW > display.width {
          NewLine();
        } else {
          curX := x;
          doc := doc.(x := x);
        }
      } else {
        if curX + display.cellW > display.width {
          NewLine();
        }
        DrawGlyph(c);
      }
    }

    /** The loop of Print: every code point of a NUL-terminated string, then one copy to the frame buffer. */
    method PutString(s: array<Byte>)
      requires Valid() && Terminated(s[..], 0)
      modifies this`curX, this`curLine, this`top, this`allDirty, this`dirtyLo, this`dirtyHi, this`doc, back, fb
      ensures Valid() && s[..] == old(s[..]) && doc == Write(display, old(doc), DecodeAll(s[..], 0), color) && fb[..] == View()
    {
      hide View, Tracked, Unrolled, Put, DecodeAt;
      var i := 0;
      while s[i] != 0
        invariant Valid() && Terminated(s[..], i) && doc.lines != [] && Usable(display)
        invariant Write(display, doc, DecodeAll(s[..], i), color) == Write(display, old(doc), DecodeAll(s[..], 0), color)
        decreases s.Length - i
      {
        var c, j := Decode(s, i);
        PutCodepoint(c);
        i := j;
      }
      Present();
    }

    method PutChar(c: Byte)
      requires Valid()
      modifies this`curX, this`curLine, this`top, this`allDirty, this`dirtyLo, this`dirtyHi, this`doc, back, fb
      ensures Valid() && (c != 0 ==> doc == Put(display, old(doc), c, color) && fb[..] == View())
      ensures c == 0 ==> doc == old(doc) && fb[..] == old(fb[..])
    {
      if c != 0 {
        PutCodepoint(c);
        Present();
      }
    }

    /** The back buffer read through PhysicalLine is the screen. */
    lemma PhysicalLineIsScreenLine(l: nat)
      requires Valid() && l < nLines
      ensures back[Physical(top, nLines, l)] == Screen(display, doc, nLines)[l]
    {
      hide Physical;
      assert Unrolled(back[..], top)[l] == back[..][Physical(top, nLines, l)];
    }

    /** Copies whole lines from the back buffer to the frame buffer. */
    method CopyLines(dst: nat, src: nat, lines: nat)
      requires dst + lines <= fb.Length && src + lines <= back.Length && fb != back
      modifies fb
      ensures forall k | 0 <= k < fb.Length :: fb[k] == if dst <= k < dst + lines then back[src + k - dst] else old(fb[k])
    {
      for i := 0 to lines
        invariant forall k | 0 <= k < fb.Length :: fb[k] == if dst <= k < dst + i then back[src + k - dst] else old(fb[k])
      {
        fb[dst + i] := back[src + i];
      }
    }

    /** Afterwards the frame buffer is the screen, whether everything is copied in two pieces or only the dirty lines. */
    method Present()
      requires Valid()
      modifies this`allDirty, this`dirtyLo, this`dirtyHi, fb
      ensures Valid() && fb[..] == View()
    {
      if allDirty {
        CopyAll();
      } else {
        CopyDirty();
      }
      allDirty, dirtyLo, dirtyHi := false, nLines, 0;
    }

    /** Physical lines [top, nLines) are the top of the screen, [0, top) the rest. */
    method CopyAll()
      requires Valid()
      modifies fb
      ensures back[..] == old(back[..]) && fb[..] == View()
    {
      hide Screen, Physical;
      var upper := nLines - top;
      CopyLines(0, top, upper);
      CopyLines(upper, 0, top);
      assert fb[..] == back[top..] + back[..top];
    }

    method CopyDirty()
      requires Valid() && !allDirty
      modifies fb
      ensures back[..] == old(back[..]) && fb[..] == View()
    {
      hide Screen, Unrolled, Physical;
      var line := dirtyLo;
      while line <= dirtyHi
        invariant dirtyLo <= line && back[..] == old(back[..])
        invariant forall l | 0 <= l < nLines && !(line <= l <= dirtyHi) :: fb[l] == View()[l]
      {
        assert back[..][Physical(top, nLines, line)] == View()[line];
        CopyLines(line, Physical(top, nLines, line), 1);
        line := line + 1;
      }
    }
  }
}
