/**
 The text terminal: pixels in a byte framebuffer, scrolled in place, against a rendering of the
 last lines of the wrapped text.
 */
module Terminal {
  type Byte = x: int | 0 <= x < 256 witness 0

  const CELL_HEIGHT := 16
  const CELL_WIDTH := 8
  const NEWLINE := 10

  /** Byte b of pixel row y. */
  ghost function Off(pitch: nat, y: nat, b: nat): nat {
    if y == 0 then b else pitch + Off(pitch, y - 1, b)
  }

  lemma {:induction false} OffIs(pitch: nat, y: nat, b: nat)
    ensures Off(pitch, y, b) == y * pitch + b
  {
    if y > 0 {
      OffIs(pitch, y - 1, b);
    }
  }

  lemma {:induction false} OffInjective(pitch: nat, y: nat, b: nat, z: nat, c: nat)
    requires b < pitch && c < pitch
    ensures Off(pitch, y, b) == Off(pitch, z, c) <==> y == z && b == c
  {
    if y > 0 && z > 0 {
      OffInjective(pitch, y - 1, b, z - 1, c);
    }
  }

  /** Rows below `height` lie below row `height`. */
  lemma {:induction false} OffBound(pitch: nat, y: nat, b: nat, height: nat)
    requires y < height && b < pitch
    ensures Off(pitch, y, b) < Off(pitch, height, 0)
    decreases height
  {
    if y > 0 {
      OffBound(pitch, y - 1, b, height - 1);
    }
  }

  lemma {:induction false} OffShift(pitch: nat, y: nat, b: nat, n: nat)
    ensures Off(pitch, y + n, b) == Off(pitch, y, b) + Off(pitch, n, 0)
    decreases n
  {
    if n > 0 {
      OffShift(pitch, y, b, n - 1);
      assert Off(pitch, y + n, b) == pitch + Off(pitch, y + n - 1, b);
    }
  }

  // The text.

  /** A text with its line breaks: the lines typed so far, the last one being the one with the cursor. */
  type Lines = s: seq<seq<nat>> | |s| > 0 witness [[]]

  /** One more character: a newline, or a character that first wraps if the line is full. */
  ghost function Type(lines: Lines, c: nat, columns: nat): Lines {
    var last := lines[|lines| - 1];
    if c == NEWLINE then lines + [[]]
    else if |last| >= columns then lines + [[c]]
    else lines[|lines| - 1 := last + [c]]
  }

  ghost function TypeAll(lines: Lines, text: seq<nat>, columns: nat): Lines
    decreases |text|
  {
    if text == [] then lines
    else Type(TypeAll(lines, text[..|text| - 1], columns), text[|text| - 1], columns)
  }

  /** A paragraph cut into full lines and a last one. */
  ghost function Paragraph(p: seq<nat>, columns: nat): Lines
    requires columns > 0
  {
    if |p| <= columns then [p] else [p[..columns]] + Paragraph(p[columns..], columns)
  }

  /** The position of the first newline, code 10, or the length of the text. */
  ghost function FirstNewline(text: seq<nat>): (n: nat)
    ensures n <= |text| && (n < |text| ==> text[n] == 10) && 10 !in text[..n]
  {
    if text == [] || text[0] == 10 then 0
    else
      var n := FirstNewline(text[1..]);
      assert text[..n + 1] == [text[0]] + text[1..][..n];
      n + 1
  }

  /** The whole text: each newline-free paragraph wrapped by itself. */
  ghost function Wrapped(text: seq<nat>, columns: nat): Lines
    requires columns > 0
    decreases |text|
  {
    var n := FirstNewline(text);
    if n == |text| then Paragraph(text, columns)
    else Paragraph(text[..n], columns) + Wrapped(text[n + 1..], columns)
  }

  lemma {:induction false} TypeAppend(lines: Lines, a: seq<nat>, b: seq<nat>, columns: nat)
    ensures TypeAll(lines, a + b, columns) == TypeAll(TypeAll(lines, a, columns), b, columns)
    decreases |b|
  {
    if b == [] {
      assert a + b == a;
    } else {
      var n := |b| - 1;
      assert (a + b)[..|a + b| - 1] == a + b[..n];
      TypeAppend(lines, a, b[..n], columns);
    }
  }

  lemma TypeFirst(lines: Lines, c: nat, rest: seq<nat>, columns: nat)
    ensures TypeAll(lines, [c] + rest, columns) == TypeAll(Type(lines, c, columns), rest, columns)
  {
    TypeAppend(lines, [c], rest, columns);
    assert TypeAll(lines, [c], columns) == Type(TypeAll(lines, [c][..0], columns), c, columns);
  }

  /** Characters that fit go to the end of the current line. */
  lemma {:induction false} TypeFits(before: seq<seq<nat>>, line: seq<nat>, p: seq<nat>, columns: nat)
    requires NEWLINE !in p && |line| + |p| <= columns
    ensures TypeAll(before + [line], p, columns) == before + [line + p]
    decreases |p|
  {
    if p == [] {
      assert line + p == line;
    } else {
      var n := |p| - 1;
      TypeFits(before, line, p[..n], columns);
      assert line + p == line + p[..n] + [p[n]];
      var mid := before + [line + p[..n]];
      assert p[n] != NEWLINE;
      assert mid[|mid| - 1 := line + p] == before + [line + p];
    }
  }

  /** After a full line the next character starts a new line by itself. */
  lemma FullLineBreaks(before: seq<seq<nat>>, line: seq<nat>, p: seq<nat>, columns: nat)
    requires |line| >= columns > 0 && p != [] && p[0] != NEWLINE
    ensures TypeAll(before + [line], p, columns) == TypeAll(before + [line] + [[]], p, columns)
  {
    var full := before + [line];
    var withEmpty := full + [[]];
    assert p == [p[0]] + p[1..];
    TypeFirst(full, p[0], p[1..], columns);
    TypeFirst(withEmpty, p[0], p[1..], columns);
    assert [] + [p[0]] == [p[0]];
    assert withEmpty[|withEmpty| - 1 := [p[0]]] == full + [[p[0]]];
  }

  lemma Associates(a: seq<seq<nat>>, b: seq<seq<nat>>, c: seq<seq<nat>>)
    ensures a + b + c == a + (b + c)
  {
  }

  /** Typing a paragraph on a new line wraps it. */
  lemma {:induction false} TypeParagraph(before: seq<seq<nat>>, p: seq<nat>, columns: nat)
    requires columns > 0 && NEWLINE !in p
    ensures TypeAll(before + [[]], p, columns) == before + Paragraph(p, columns)
    decreases |p|
  {
    if |p| <= columns {
      TypeFits(before, [], p, columns);
      assert [] + p == p;
    } else {
      var a, b := p[..columns], p[columns..];
      assert p == a + b && b[0] == p[columns];
      TypeAppend(before + [[]], a, b, columns);
      TypeFits(before, [], a, columns);
      assert [] + a == a;
      FullLineBreaks(before, a, b, columns);
      TypeParagraph(before + [a], b, columns);
      Associates(before, [a], Paragraph(b, columns));
    }
  }

  /** Typing a text character by character gives the text wrapped paragraph by paragraph. */
  lemma {:induction false} TypingWraps(before: seq<seq<nat>>, text: seq<nat>, columns: nat)
    requires columns > 0
    ensures TypeAll(before + [[]], text, columns) == before + Wrapped(text, columns)
    decreases |text|
  {
    var n := FirstNewline(text);
    var a := text[..n];
    TypeParagraph(before, a, columns);
    if n == |text| {
      assert a == text;
    } else {
      var b := text[n + 1..];
      SplitAt(text, n);
      TypeAppend(before + [[]], a, [NEWLINE] + b, columns);
      TypeFirst(before + Paragraph(a, columns), NEWLINE, b, columns);
      TypingWraps(before + Paragraph(a, columns), b, columns);
      Associates(before, Paragraph(a, columns), Wrapped(b, columns));
    }
  }

  lemma SplitAt(text: seq<nat>, n: nat)
    requires n < |text|
    ensures text == text[..n] + ([text[n]] + text[n + 1..])
  {
  }

  // The picture.

  /** A glyph table: 16 rows of 8 pixels for each ASCII code, the leftmost pixel in the top bit. */
  type Font = seq<seq<Byte>>

  ghost predicate GoodFont(font: Font) {
    |font| == 128 && forall c | 0 <= c < 128 :: |font[c]| == CELL_HEIGHT
  }

  /** `bit & (0x80 >> i) != 0` */
  predicate Lit(font: Font, c: nat, line: nat, i: nat)
    requires |font| == 128 && c < 128 && |font[c]| == CELL_HEIGHT && line < CELL_HEIGHT && i < CELL_WIDTH
  {
    font[c][line] / [128, 64, 32, 16, 8, 4, 2, 1][i] % 2 == 1
  }

  /** A glyph row is read from its top bit down: pixel i is lit exactly if bit 7 - i is set. */
  lemma LitBits(font: Font, c: nat, line: nat, i: nat, high: nat, lit: bool, low: nat)
    requires |font| == 128 && c < 128 && |font[c]| == CELL_HEIGHT && line < CELL_HEIGHT && i < CELL_WIDTH
    requires var bit := [128, 64, 32, 16, 8, 4, 2, 1][i];
             low < bit && font[c][line] == 2 * bit * high + (if lit then bit else 0) + low
    ensures Lit(font, c, line, i) == lit
  {
    RowBit(font[c][line], [128, 64, 32, 16, 8, 4, 2, 1][i], high, lit, low);
  }

  lemma RowBit(row: nat, bit: nat, high: nat, lit: bool, low: nat)
    requires bit in [128, 64, 32, 16, 8, 4, 2, 1] && low < bit
    requires row == 2 * bit * high + (if lit then bit else 0) + low
    ensures row / bit % 2 == 1 <==> lit
  {
    var q := 2 * high + (if lit then 1 else 0);
    BitRow(bit, high, lit);
    BitQuotient(bit, q, low);
  }

  lemma BitRow(bit: nat, high: nat, lit: bool)
    ensures 2 * bit * high + (if lit then bit else 0) == bit * (2 * high + (if lit then 1 else 0))
  {
  }

  lemma BitQuotient(bit: nat, q: nat, low: nat)
    requires bit in [128, 64, 32, 16, 8, 4, 2, 1] && low < bit
    ensures (bit * q + low) / bit == q
  {
    match bit
    case 128 => case 64 => case 32 => case 16 => case 8 => case 4 => case 2 => case 1 =>
  }

  ghost predicate Ascii(text: seq<nat>) {
    forall c | c in text :: c < 128
  }

  ghost predicate LitAt(font: Font, c: nat, line: nat, i: nat)
    requires GoodFont(font) && line < CELL_HEIGHT && i < CELL_WIDTH
  {
    c < 128 && Lit(font, c, line, i)
  }

  /** The pixel in row y and column x of a screen that shows these lines from its top. */
  ghost predicate PixelLit(font: Font, shown: seq<seq<nat>>, y: nat, x: nat)
    requires GoodFont(font) && forall l | l in shown :: Ascii(l)
  {
    var row, column := y / CELL_HEIGHT, x / CELL_WIDTH;
    row < |shown| && column < |shown[row]| && LitAt(font, shown[row][column], y % CELL_HEIGHT, x % CELL_WIDTH)
  }

  /** Byte b of a pixel row: white pixels are 0x00FFFFFF, everything else, padding included, is 0. */
  ghost function PixelByte(lit: bool, b: nat): Byte {
    if lit && b % 4 < 3 then 255 else 0
  }

  ghost predicate ByteShown(m: seq<Byte>, pitch: nat, height: nat, font: Font, shown: seq<seq<nat>>, y: nat, b: nat)
    requires GoodFont(font) && (forall l | l in shown :: Ascii(l)) && |m| == Off(pitch, height, 0) && y < height && b < pitch
  {
    OffBound(pitch, y, b, height);
    m[Off(pitch, y, b)] == PixelByte(PixelLit(font, shown, y, b / 4), b)
  }

  /** Every byte of the buffer, padding included, is that of the rendering. */
  ghost predicate Shows(m: seq<Byte>, pitch: nat, height: nat, font: Font, shown: seq<seq<nat>>)
    requires GoodFont(font) && (forall l | l in shown :: Ascii(l)) && |m| == Off(pitch, height, 0)
  {
    forall y: nat, b: nat | y < height && b < pitch :: ByteShown(m, pitch, height, font, shown, y, b)
  }

  /** The lines on the screen: the last `rows` ones. */
  ghost function Shown(lines: Lines, rows: nat): seq<seq<nat>>
    requires rows > 0
  {
    if |lines| <= rows then lines else lines[|lines| - rows..]
  }

  /** Memory after `scroll_framebuffer`: everything `n` bytes lower, and zeros at the end. */
  ghost function Scrolled(m: seq<Byte>, n: nat): seq<Byte>
    requires n <= |m|
  {
    m[n..] + seq(n, i => 0)
  }

  /** Scrolling a screen by one line of text shows the lines without the first. */
  lemma ScrollShows(m: seq<Byte>, pitch: nat, height: nat, font: Font, shown: seq<seq<nat>>)
    requires GoodFont(font) && (forall l | l in shown :: Ascii(l)) && |m| == Off(pitch, height, 0) && height >= CELL_HEIGHT
    requires Shows(m, pitch, height, font, shown)
    requires |shown| == height / CELL_HEIGHT
    ensures Off(pitch, CELL_HEIGHT, 0) <= |m|
    ensures forall l | l in shown[1..] :: Ascii(l)
    ensures var m' := Scrolled(m, Off(pitch, CELL_HEIGHT, 0));
            |m'| == |m| && Shows(m', pitch, height, font, shown[1..])
  {
    OffShift(pitch, height - CELL_HEIGHT, 0, CELL_HEIGHT);
    assert forall l | l in shown[1..] :: l in shown;
    var m' := Scrolled(m, Off(pitch, CELL_HEIGHT, 0));
    forall y: nat, b: nat | y < height && b < pitch
      ensures ByteShown(m', pitch, height, font, shown[1..], y, b)
    {
      if y + CELL_HEIGHT < height {
        ScrollUpper(m, pitch, height, font, shown, y, b);
      } else {
        ScrollLower(m, pitch, height, y, b);
        assert y / CELL_HEIGHT >= |shown| - 1;
        OffBound(pitch, y, b, height);
      }
    }
  }

  /** A byte that moved up by one line of text. */
  lemma ScrollUpper(m: seq<Byte>, pitch: nat, height: nat, font: Font, shown: seq<seq<nat>>, y: nat, b: nat)
    requires GoodFont(font) && (forall l | l in shown :: Ascii(l)) && |m| == Off(pitch, height, 0) && shown != []
    requires y + CELL_HEIGHT < height && b < pitch && Off(pitch, CELL_HEIGHT, 0) <= |m|
    requires Shows(m, pitch, height, font, shown)
    ensures forall l | l in shown[1..] :: Ascii(l)
    ensures ByteShown(Scrolled(m, Off(pitch, CELL_HEIGHT, 0)), pitch, height, font, shown[1..], y, b)
  {
    OffShift(pitch, y, b, CELL_HEIGHT);
    OffBound(pitch, y, b, height);
    OffBound(pitch, y + CELL_HEIGHT, b, height);
    assert ByteShown(m, pitch, height, font, shown, y + CELL_HEIGHT, b);
    RowUp(font, shown, y, b / 4);
  }

  /** A byte of the cleared strip. */
  lemma ScrollLower(m: seq<Byte>, pitch: nat, height: nat, y: nat, b: nat)
    requires |m| == Off(pitch, height, 0) && CELL_HEIGHT <= height <= y + CELL_HEIGHT && y < height && b < pitch
    requires Off(pitch, CELL_HEIGHT, 0) <= |m|
    ensures Off(pitch, y, b) < |m| && Scrolled(m, Off(pitch, CELL_HEIGHT, 0))[Off(pitch, y, b)] == 0
  {
    OffBound(pitch, y, b, height);
    OffShift(pitch, height - CELL_HEIGHT, 0, CELL_HEIGHT);
    OffAtLeast(pitch, y, b, height - CELL_HEIGHT);
  }

  lemma {:induction false} OffAtLeast(pitch: nat, y: nat, b: nat, z: nat)
    requires y >= z
    ensures Off(pitch, y, b) >= Off(pitch, z, 0)
    decreases z
  {
    if z > 0 {
      OffAtLeast(pitch, y - 1, b, z - 1);
    }
  }

  lemma RowUp(font: Font, shown: seq<seq<nat>>, y: nat, x: nat)
    requires GoodFont(font) && (forall l | l in shown :: Ascii(l)) && shown != []
    ensures forall l | l in shown[1..] :: Ascii(l)
    ensures PixelLit(font, shown[1..], y, x) <==> PixelLit(font, shown, y + CELL_HEIGHT, x)
  {
    assert (y + CELL_HEIGHT) / CELL_HEIGHT == y / CELL_HEIGHT + 1 && (y + CELL_HEIGHT) % CELL_HEIGHT == y % CELL_HEIGHT;
  }

  datatype Color = Color(r: Byte, g: Byte, b: Byte)

  const WHITE := Color(255, 255, 255)

  /** Byte j of the pixel word `r << 16 | g << 8 | b` in memory. */
  function ColorByte(c: Color, j: nat): Byte {
    if j == 0 then c.b else if j == 1 then c.g else if j == 2 then c.r else 0
  }

  /** The four bytes of a pixel, low byte first, are the word with red in bits 16 to 23, green in 8 to 15 and blue in 0 to 7. */
  lemma ColorWord(c: Color)
    ensures (ColorByte(c, 0) as int) + 0x100 * (ColorByte(c, 1) as int) + 0x1_0000 * (ColorByte(c, 2) as int) + 0x100_0000 * (ColorByte(c, 3) as int)
            == 0x1_0000 * (c.r as int) + 0x100 * (c.g as int) + (c.b as int)
  {
  }

  /** A rectangle of pixels, painted row by row up to column x of row y. */
  datatype Rect = Rect(fromX: nat, fromY: nat, toX: nat, toY: nat)

  predicate InPart(rect: Rect, y: nat, x: nat, row: nat, column: nat) {
    rect.fromY <= row && rect.fromX <= column < rect.toX && (row < y || (row == y && column < x))
  }

  ghost predicate BytePainted(m: seq<Byte>, m': seq<Byte>, pitch: nat, height: nat, rect: Rect, color: Color, y: nat, x: nat, row: nat, b: nat)
    requires |m| == |m'| == Off(pitch, height, 0) && row < height && b < pitch
  {
    OffBound(pitch, row, b, height);
    m'[Off(pitch, row, b)] == if InPart(rect, y, x, row, b / 4) then ColorByte(color, b % 4) else m[Off(pitch, row, b)]
  }

  ghost predicate Painted(m: seq<Byte>, m': seq<Byte>, pitch: nat, height: nat, rect: Rect, color: Color, y: nat, x: nat) {
    && |m| == |m'| == Off(pitch, height, 0)
    && forall row: nat, b: nat | row < height && b < pitch :: BytePainted(m, m', pitch, height, rect, color, y, x, row, b)
  }

  /** The four byte writes of one pixel. */
  ghost function PutPixel(m: seq<Byte>, o: nat, color: Color): seq<Byte>
    requires o + 4 <= |m|
  {
    m[o := ColorByte(color, 0)][o + 1 := ColorByte(color, 1)][o + 2 := ColorByte(color, 2)][o + 3 := ColorByte(color, 3)]
  }

  lemma PutPixelAt(m: seq<Byte>, o: nat, color: Color, k: nat)
    requires o + 4 <= |m| && k < |m|
    ensures PutPixel(m, o, color)[k] == if o <= k < o + 4 then ColorByte(color, k - o) else m[k]
  {
  }

  /** Which bytes lie among the four of a pixel. */
  lemma PixelBytes(pitch: nat, y: nat, x: nat, row: nat, b: nat)
    requires 4 * x + 4 <= pitch && b < pitch
    ensures Off(pitch, y, 4 * x) <= Off(pitch, row, b) < Off(pitch, y, 4 * x) + 4 <==> row == y && b / 4 == x
    ensures row == y && b / 4 == x ==> Off(pitch, row, b) - Off(pitch, y, 4 * x) == b % 4
  {
    OffNext(pitch, y, 4 * x);
    OffInjective(pitch, row, b, y, 4 * x);
    OffInjective(pitch, row, b, y, 4 * x + 1);
    OffInjective(pitch, row, b, y, 4 * x + 2);
    OffInjective(pitch, row, b, y, 4 * x + 3);
  }

  /** A pixel write reaches exactly its own four bytes. */
  lemma PutPixelByte(m: seq<Byte>, pitch: nat, height: nat, color: Color, y: nat, x: nat, row: nat, b: nat)
    requires |m| == Off(pitch, height, 0) && y < height && 4 * x + 4 <= pitch && row < height && b < pitch
    ensures Off(pitch, y, 4 * x) + 4 <= |m| && Off(pitch, row, b) < |m|
    ensures PutPixel(m, Off(pitch, y, 4 * x), color)[Off(pitch, row, b)] ==
              if row == y && b / 4 == x then ColorByte(color, b % 4) else m[Off(pitch, row, b)]
  {
    OffBound(pitch, row, b, height);
    OffBound(pitch, y, 4 * x + 3, height);
    OffNext(pitch, y, 4 * x);
    PixelBytes(pitch, y, x, row, b);
    PutPixelAt(m, Off(pitch, y, 4 * x), color, Off(pitch, row, b));
  }

  lemma {:induction false} OffNext(pitch: nat, y: nat, b: nat)
    ensures Off(pitch, y, b + 1) == Off(pitch, y, b) + 1
    ensures Off(pitch, y, b + 2) == Off(pitch, y, b) + 2
    ensures Off(pitch, y, b + 3) == Off(pitch, y, b) + 3
  {
    if y > 0 {
      OffNext(pitch, y - 1, b);
    }
  }

  /** One more pixel of the rectangle. */
  lemma PaintStep(m: seq<Byte>, m': seq<Byte>, pitch: nat, height: nat, rect: Rect, color: Color, y: nat, x: nat)
    requires Painted(m, m', pitch, height, rect, color, y, x)
    requires rect.fromY <= y < height && rect.fromX <= x < rect.toX && 4 * x + 4 <= pitch
    ensures Off(pitch, y, 4 * x) + 4 <= |m'|
    ensures Painted(m, PutPixel(m', Off(pitch, y, 4 * x), color), pitch, height, rect, color, y, x + 1)
  {
    PutPixelByte(m', pitch, height, color, y, x, y, 0);
    var m'' := PutPixel(m', Off(pitch, y, 4 * x), color);
    var next := x + 1;
    forall row: nat, b: nat | row < height && b < pitch
      ensures BytePainted(m, m'', pitch, height, rect, color, y, next, row, b)
    {
      assert BytePainted(m, m', pitch, height, rect, color, y, x, row, b);
      PutPixelByte(m', pitch, height, color, y, x, row, b);
    }
  }

  /** A finished row is the start of the next one. */
  lemma PaintRow(m: seq<Byte>, m': seq<Byte>, pitch: nat, height: nat, rect: Rect, color: Color, y: nat)
    requires Painted(m, m', pitch, height, rect, color, y, rect.toX)
    ensures Painted(m, m', pitch, height, rect, color, y + 1, rect.fromX)
  {
    var next := y + 1;
    forall row: nat, b: nat | row < height && b < pitch
      ensures BytePainted(m, m', pitch, height, rect, color, next, rect.fromX, row, b)
    {
      assert BytePainted(m, m', pitch, height, rect, color, y, rect.toX, row, b);
    }
  }

  lemma NothingPainted(m: seq<Byte>, pitch: nat, height: nat, rect: Rect, color: Color)
    requires |m| == Off(pitch, height, 0)
    ensures Painted(m, m, pitch, height, rect, color, rect.fromY, rect.fromX)
  {
  }

  /** The pixels of a glyph at (posX, posY) that precede pixel (line, i) in the drawing order and are lit. */
  ghost predicate GlyphPart(font: Font, c: nat, posX: nat, posY: nat, line: nat, i: nat, y: nat, x: nat)
    requires GoodFont(font) && c < 128
  {
    && posY <= y < posY + CELL_HEIGHT && posX <= x < posX + CELL_WIDTH
    && (y - posY < line || (y - posY == line && x - posX < i))
    && Lit(font, c, y - posY, x - posX)
  }

  ghost predicate GlyphByte(m: seq<Byte>, m': seq<Byte>, pitch: nat, height: nat, font: Font, c: nat, posX: nat, posY: nat, line: nat, i: nat, y: nat, b: nat)
    requires GoodFont(font) && c < 128 && |m| == |m'| == Off(pitch, height, 0) && y < height && b < pitch
  {
    OffBound(pitch, y, b, height);
    m'[Off(pitch, y, b)] == if GlyphPart(font, c, posX, posY, line, i, y, b / 4) then ColorByte(WHITE, b % 4) else m[Off(pitch, y, b)]
  }

  ghost predicate GlyphDrawn(m: seq<Byte>, m': seq<Byte>, pitch: nat, height: nat, font: Font, c: nat, posX: nat, posY: nat, line: nat, i: nat)
    requires GoodFont(font) && c < 128
  {
    && |m| == |m'| == Off(pitch, height, 0)
    && forall y: nat, b: nat | y < height && b < pitch :: GlyphByte(m, m', pitch, height, font, c, posX, posY, line, i, y, b)
  }

  /** One lit pixel of the glyph painted as a 1 by 1 rectangle. */
  lemma GlyphStep(m: seq<Byte>, m': seq<Byte>, m'': seq<Byte>, pitch: nat, height: nat, font: Font, c: nat, posX: nat, posY: nat, line: nat, i: nat)
    requires GoodFont(font) && c < 128 && line < CELL_HEIGHT && i < CELL_WIDTH
    requires GlyphDrawn(m, m', pitch, height, font, c, posX, posY, line, i)
    requires var rect := Rect(posX + i, posY + line, posX + i + 1, posY + line + 1);
             if Lit(font, c, line, i) then Painted(m', m'', pitch, height, rect, WHITE, rect.toY, rect.fromX) else m'' == m'
    ensures GlyphDrawn(m, m'', pitch, height, font, c, posX, posY, line, i + 1)
  {
    var next := i + 1;
    var rect := Rect(posX + i, posY + line, posX + i + 1, posY + line + 1);
    forall y: nat, b: nat | y < height && b < pitch
      ensures GlyphByte(m, m'', pitch, height, font, c, posX, posY, line, next, y, b)
    {
      assert GlyphByte(m, m', pitch, height, font, c, posX, posY, line, i, y, b);
      assert Lit(font, c, line, i) ==> BytePainted(m', m'', pitch, height, rect, WHITE, rect.toY, rect.fromX, y, b);
    }
  }

  lemma GlyphLine(m: seq<Byte>, m': seq<Byte>, pitch: nat, height: nat, font: Font, c: nat, posX: nat, posY: nat, line: nat)
    requires GoodFont(font) && c < 128 && GlyphDrawn(m, m', pitch, height, font, c, posX, posY, line, CELL_WIDTH)
    ensures GlyphDrawn(m, m', pitch, height, font, c, posX, posY, line + 1, 0)
  {
    var next := line + 1;
    forall y: nat, b: nat | y < height && b < pitch
      ensures GlyphByte(m, m', pitch, height, font, c, posX, posY, next, 0, y, b)
    {
      assert GlyphByte(m, m', pitch, height, font, c, posX, posY, line, CELL_WIDTH, y, b);
    }
  }

  /** The screen after one more character at the end of its last line. */
  ghost function WithChar(shown: seq<seq<nat>>, c: nat): seq<seq<nat>>
    requires shown != []
  {
    shown[|shown| - 1 := shown[|shown| - 1] + [c]]
  }

  lemma WithCharAscii(shown: seq<seq<nat>>, c: nat)
    requires (forall l | l in shown :: Ascii(l)) && shown != [] && c < 128
    ensures forall l | l in WithChar(shown, c) :: Ascii(l)
  {
    var last := shown[|shown| - 1];
    assert last in shown;
    forall l | l in WithChar(shown, c)
      ensures Ascii(l)
    {
      if l !in shown {
        assert l == last + [c];
        assert forall d | d in l :: d in last || d == c;
      }
    }
  }

  /** A glyph drawn in the cursor's cell shows the longer line. */
  lemma GlyphShows(m: seq<Byte>, m': seq<Byte>, pitch: nat, height: nat, font: Font, shown: seq<seq<nat>>, c: nat)
    requires GoodFont(font) && (forall l | l in shown :: Ascii(l)) && shown != [] && c < 128
    requires |m| == Off(pitch, height, 0) && Shows(m, pitch, height, font, shown)
    requires GlyphDrawn(m, m', pitch, height, font, c, CELL_WIDTH * |shown[|shown| - 1]|, CELL_HEIGHT * (|shown| - 1), CELL_HEIGHT, 0)
    ensures forall l | l in WithChar(shown, c) :: Ascii(l)
    ensures Shows(m', pitch, height, font, WithChar(shown, c))
  {
    var posX, posY := CELL_WIDTH * |shown[|shown| - 1]|, CELL_HEIGHT * (|shown| - 1);
    var after := WithChar(shown, c);
    WithCharAscii(shown, c);
    forall y: nat, b: nat | y < height && b < pitch
      ensures ByteShown(m', pitch, height, font, after, y, b)
    {
      assert ByteShown(m, pitch, height, font, shown, y, b);
      assert GlyphByte(m, m', pitch, height, font, c, posX, posY, CELL_HEIGHT, 0, y, b);
      CellPixel(font, shown, c, y, b / 4);
    }
  }

  /** A pixel is lit after the character exactly if it was before or is lit in the new glyph. */
  lemma CellPixel(font: Font, shown: seq<seq<nat>>, c: nat, y: nat, x: nat)
    requires GoodFont(font) && (forall l | l in shown :: Ascii(l)) && shown != [] && c < 128
    ensures forall l | l in WithChar(shown, c) :: Ascii(l)
    ensures var posX, posY := CELL_WIDTH * |shown[|shown| - 1]|, CELL_HEIGHT * (|shown| - 1);
            PixelLit(font, WithChar(shown, c), y, x) <==>
            PixelLit(font, shown, y, x) || GlyphPart(font, c, posX, posY, CELL_HEIGHT, 0, y, x)
  {
    var last := |shown| - 1;
    var after := WithChar(shown, c);
    WithCharAscii(shown, c);
    CellOf(y, x, CELL_WIDTH * |shown[last]|, CELL_HEIGHT * last);
  }

  /** The pixels of a cell. */
  lemma CellOf(y: nat, x: nat, posX: nat, posY: nat)
    requires posX % CELL_WIDTH == 0 && posY % CELL_HEIGHT == 0
    ensures posY <= y < posY + CELL_HEIGHT <==> y / CELL_HEIGHT == posY / CELL_HEIGHT
    ensures posX <= x < posX + CELL_WIDTH <==> x / CELL_WIDTH == posX / CELL_WIDTH
    ensures posY <= y < posY + CELL_HEIGHT ==> y - posY == y % CELL_HEIGHT
    ensures posX <= x < posX + CELL_WIDTH ==> x - posX == x % CELL_WIDTH
  {
  }

  /** Columns the code uses: a character needs 16 pixels to the right of its left edge. */
  function Columns(width: nat): nat {
    if width < 16 then 0 else width / CELL_WIDTH - 1
  }

  /** The framebuffer with the cursor that `terminal_print` keeps between calls. */
  class Screen {
    const fb: array<Byte>
    const width: nat
    const height: nat
    const pitch: nat
    const font: Font
    var posX: nat
    var posY: nat
    /** Everything printed so far, and its lines. */
    ghost var text: seq<nat>
    ghost var lines: Lines

    ghost predicate Fits()
      reads this
    {
      width >= 16 && height >= 16 && pitch >= 4 * width && GoodFont(font) && fb.Length == Off(pitch, height, 0)
    }

    ghost function OnScreen(): seq<seq<nat>>
      reads this
      requires height >= 16
    {
      Shown(lines, height / CELL_HEIGHT)
    }

    /** The cursor is behind the last line, the lines fit, and the pixels are their rendering. */
    ghost predicate Consistent()
      reads this, fb
    {
      && Fits()
      && (forall l | l in lines :: Ascii(l) && |l| <= Columns(width))
      && posX == CELL_WIDTH * |lines[|lines| - 1]|
      && posY == CELL_HEIGHT * (|OnScreen()| - 1)
      && (forall l | l in OnScreen() :: Ascii(l))
      && Shows(fb[..], pitch, height, font, OnScreen())
    }

    ghost predicate Valid()
      reads this, fb
    {
      Consistent() && lines == TypeAll([[]], text, Columns(width))
    }

    /** `write_pixel`: every index it writes lies in the buffer. */
    method WritePixel(rect: Rect, color: Color)
      requires Fits() && rect.toX <= width && rect.toY <= height && rect.fromX <= rect.toX && rect.fromY <= rect.toY
      modifies fb
      ensures Painted(old(fb[..]), fb[..], pitch, height, rect, color, rect.toY, rect.fromX)
    {
      ghost var m := fb[..];
      NothingPainted(m, pitch, height, rect, color);
      for y := rect.fromY to rect.toY
        invariant Painted(m, fb[..], pitch, height, rect, color, y, rect.fromX)
      {
        for x := rect.fromX to rect.toX
          invariant Painted(m, fb[..], pitch, height, rect, color, y, x)
        {
          PaintStep(m, fb[..], pitch, height, rect, color, y, x);
          OffIs(pitch, y, 4 * x);
          StorePixel(y * pitch + x * 4, color);
        }
        PaintRow(m, fb[..], pitch, height, rect, color, y);
      }
    }

    /** The 32-bit store of one pixel, low byte first. */
    method StorePixel(o: nat, color: Color)
      requires o + 4 <= fb.Length
      modifies fb
      ensures fb[..] == PutPixel(old(fb[..]), o, color)
    {
      fb[o] := ColorByte(color, 0);
      fb[o + 1] := ColorByte(color, 1);
      fb[o + 2] := ColorByte(color, 2);
      fb[o + 3] := ColorByte(color, 3);
    }

    /** `scroll_framebuffer`: a forward copy, then the cleared strip. */
    method ScrollFramebuffer(lineHeight: nat)
      requires fb.Length == Off(pitch, height, 0) && lineHeight <= height
      modifies fb
      ensures Off(pitch, lineHeight, 0) <= fb.Length
      ensures fb[..] == Scrolled(old(fb[..]), Off(pitch, lineHeight, 0))
    {
      OffIs(pitch, lineHeight, 0);
      OffIs(pitch, height, 0);
      OffAtLeast(pitch, height, 0, lineHeight);
      ghost var m := fb[..];
      var scroll := pitch * lineHeight;
      var total := pitch * height;
      var keep := total - scroll;
      for i := 0 to keep
        invariant forall j | 0 <= j < i :: fb[j] == m[j + scroll]
        invariant forall j | i <= j < total :: fb[j] == m[j]
      {
        fb[i] := fb[i + scroll];
      }
      for i := 0 to scroll
        invariant forall j | 0 <= j < keep :: fb[j] == m[j + scroll]
        invariant forall j | keep <= j < keep + i :: fb[j] == 0
      {
        fb[keep + i] := 0;
      }
      assert fb[..] == Scrolled(m, scroll);
    }

    /** The 16 by 8 loop that paints the lit pixels of a glyph. */
    method DrawGlyph(c: nat)
      requires Fits() && c < 128 && posX + 16 <= width && posY + CELL_HEIGHT <= height
      modifies fb
      ensures GlyphDrawn(old(fb[..]), fb[..], pitch, height, font, c, posX, posY, CELL_HEIGHT, 0)
    {
      ghost var m := fb[..];
      for line := 0 to CELL_HEIGHT
        invariant GlyphDrawn(m, fb[..], pitch, height, font, c, posX, posY, line, 0)
      {
        for i := 0 to CELL_WIDTH
          invariant GlyphDrawn(m, fb[..], pitch, height, font, c, posX, posY, line, i)
        {
          ghost var m' := fb[..];
          if Lit(font, c, line, i) {
            WritePixel(Rect(posX + i, posY + line, posX + i + 1, posY + line + 1), WHITE);
          }
          GlyphStep(m, m', fb[..], pitch, height, font, c, posX, posY, line, i);
        }
        GlyphLine(m, fb[..], pitch, height, font, c, posX, posY, line);
      }
    }

    /** A line break, scrolling if the cursor would leave the screen. */
    method NewLine()
      requires Consistent()
      modifies this`posX, this`posY, this`lines, fb
      ensures Consistent() && lines == old(lines) + [[]]
    {
      ghost var shown := OnScreen();
      NewLineShown(lines, height / CELL_HEIGHT);
      posY := posY + 16;
      posX := 0;
      if posY + 16 > height {
        ScrollShows(fb[..], pitch, height, font, shown);
        ScrollFramebuffer(16);
        posY := posY - 16;
        shown := shown[1..];
      }
      EmptyLineShows(fb[..], pitch, height, font, shown);
      lines := lines + [[]];
    }

    /** Draws a character in the cursor's cell and moves the cursor on. */
    method AppendChar(c: nat)
      requires Consistent() && c < 128 && posX + 16 <= width
      modifies this`posX, this`lines, fb
      ensures Consistent() && lines == WithChar(old(lines), c)
    {
      ghost var m := fb[..];
      CharShown(lines, height / CELL_HEIGHT, c);
      DrawGlyph(c);
      GlyphShows(m, fb[..], pitch, height, font, OnScreen(), c);
      LineFits(lines, c, width);
      posX := posX + 8;
      lines := WithChar(lines, c);
    }

    /** One character of `terminal_print`. */
    method PutChar(c: nat)
      requires Consistent() && c < 128
      modifies this`posX, this`posY, this`lines, fb
      ensures Consistent() && lines == Type(old(lines), c, Columns(width))
    {
      ghost var before := lines;
      assert before[|before| - 1] in before;
      if c == NEWLINE {
        NewLine();
        return;
      }
      if posX + 16 > width {
        NewLine();
        assert lines[|lines| - 1] == [];
        assert WithChar(lines, c) == before + [[] + [c]];
        assert [] + [c] == [c];
      }
      AppendChar(c);
    }

    /** One turn of the loop of `terminal_print`. */
    method PrintChar(c: nat)
      requires Valid() && c < 128
      modifies this, fb
      ensures Valid() && text == old(text) + [c]
    {
      ghost var before := text;
      PutChar(c);
      text := before + [c];
      assert text[..|text| - 1] == before;
    }

    /** `terminal_print` */
    method Print(chars: seq<nat>)
      requires Valid() && Ascii(chars)
      modifies this, fb
      ensures Valid() && text == old(text) + chars
    {
      ghost var before := text;
      for n := 0 to |chars|
        invariant Valid() && text == before + chars[..n]
      {
        assert chars[n] in chars;
        SnocText(before, chars, n);
        PrintChar(chars[n]);
      }
      assert chars[..|chars|] == chars;
    }

    /** Printing starts on a black framebuffer. */
    constructor (fb: array<Byte>, width: nat, height: nat, pitch: nat, font: Font)
      requires width >= 16 && height >= 16 && pitch >= 4 * width && GoodFont(font)
      requires fb.Length == pitch * height && forall i | 0 <= i < fb.Length :: fb[i] == 0
      ensures Valid() && text == [] && this.fb == fb
      ensures this.width == width && this.height == height && this.pitch == pitch && this.font == font
    {
      this.fb, this.width, this.height, this.pitch, this.font := fb, width, height, pitch, font;
      posX, posY, text, lines := 0, 0, [], [[]];
      new;
      OffIs(pitch, height, 0);
      forall y: nat, b: nat | y < height && b < pitch
        ensures ByteShown(fb[..], pitch, height, font, [[]], y, b)
      {
        OffBound(pitch, y, b, height);
      }
    }
  }

  lemma SnocText(before: seq<nat>, chars: seq<nat>, n: nat)
    requires n < |chars|
    ensures before + chars[..n] + [chars[n]] == before + chars[..n + 1]
  {
  }

  lemma LineFits(lines: Lines, c: nat, width: nat)
    requires width >= 16 && c < 128 && (forall l | l in lines :: Ascii(l) && |l| <= Columns(width))
    requires CELL_WIDTH * |lines[|lines| - 1]| + 16 <= width
    ensures forall l | l in WithChar(lines, c) :: Ascii(l) && |l| <= Columns(width)
  {
    WithCharAscii(lines, c);
  }

  /**
   What the screen shows after any sequence of prints: the last height / 16 lines of the printed
   text, each newline-free paragraph wrapped at the column limit by itself.
   */
  lemma ScreenShowsWrapped(screen: Screen)
    requires screen.Valid()
    ensures Columns(screen.width) > 0
    ensures var shown := Shown(Wrapped(screen.text, Columns(screen.width)), screen.height / CELL_HEIGHT);
            && (forall l | l in shown :: Ascii(l))
            && Shows(screen.fb[..], screen.pitch, screen.height, screen.font, shown)
  {
    var nothing: seq<seq<nat>> := [];
    TypingWraps(nothing, screen.text, Columns(screen.width));
    assert nothing + [[]] == [[]];
    assert nothing + Wrapped(screen.text, Columns(screen.width)) == Wrapped(screen.text, Columns(screen.width));
  }

  lemma NewLineShown(lines: Lines, rows: nat)
    requires rows > 0
    ensures Shown(lines + [[]], rows) == (if |Shown(lines, rows)| < rows then Shown(lines, rows) else Shown(lines, rows)[1..]) + [[]]
  {
  }

  lemma CharShown(lines: Lines, rows: nat, c: nat)
    requires rows > 0
    ensures Shown(WithChar(lines, c), rows) == WithChar(Shown(lines, rows), c)
  {
  }

  /** An empty line under the others lights no pixel. */
  lemma EmptyLineShows(m: seq<Byte>, pitch: nat, height: nat, font: Font, shown: seq<seq<nat>>)
    requires GoodFont(font) && (forall l | l in shown :: Ascii(l)) && |m| == Off(pitch, height, 0)
    requires Shows(m, pitch, height, font, shown)
    ensures forall l | l in shown + [[]] :: Ascii(l)
    ensures Shows(m, pitch, height, font, shown + [[]])
  {
    var after := shown + [[]];
    forall y: nat, b: nat | y < height && b < pitch
      ensures ByteShown(m, pitch, height, font, after, y, b)
    {
      assert ByteShown(m, pitch, height, font, shown, y, b);
    }
  }
}
