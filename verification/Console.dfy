/** src/drivers/vga.c: the text console, a window of fixed size onto a transcript without bounds. */
module Console {

  // A 16-bit word of the screen, and an 8-bit colour.
  type Cell = c: int | 0 <= c < 0x1_0000
  type Color = c: int | 0 <= c < 0x100

  const ERASE := 14
  const NEWLINE := 10

  // vga_entry: the character is cut to eight bits, the colour goes above it. An `or` of disjoint bits is a sum,
  // and a shift by eight bits a product.
  function Entry(ch: int, color: Color): Cell {
    ch % 0x100 + 0x100 * color
  }

  // The low byte of a cell is the character, the high byte the colour.
  predicate IsCell(c: Cell, ch: int, color: Color) {
    c % 256 == ch % 256 && c / 256 == color
  }

  lemma EntryIsTwoBytes(ch: int, color: Color)
    ensures IsCell(Entry(ch, color), ch, color)
  {
  }

  lemma BlankIs()
    ensures Entry(0, 7) == 0x0700 && Entry(0x20, 7) == 0x0720
  {
  }

  // ---------------------------------------------------------------------------------------------
  // The transcript

  // Every line ever begun, and the column of the cursor in the last of them.
  datatype Transcript = Transcript(lines: seq<seq<Cell>>, x: nat) {
    ghost predicate Valid(w: nat) {
      lines != [] && x < w && forall k :: 0 <= k < |lines| ==> |lines[k]| == w
    }
  }

  function Zeros(w: nat): (z: seq<Cell>)
    ensures |z| == w && forall i :: 0 <= i < w ==> z[i] == 0
  {
    seq(w, _ => 0)
  }

  // Line k before anything is written into it: what row k of the screen held at the beginning, or, if the
  // screen had no such row, the zeros that scrolling brings in.
  function Blank(background: seq<seq<Cell>>, w: nat, k: nat): seq<Cell> {
    if k < |background| then background[k] else Zeros(w)
  }

  function LineAt(t: Transcript, background: seq<seq<Cell>>, w: nat, k: nat): seq<Cell> {
    if k < |t.lines| then t.lines[k] else Blank(background, w, k)
  }

  function NewLine(t: Transcript, background: seq<seq<Cell>>, w: nat): Transcript {
    Transcript(t.lines + [Blank(background, w, |t.lines|)], 0)
  }

  function Put(t: Transcript, x: nat, c: Cell): Transcript
    requires t.lines != [] && x < |t.lines[|t.lines| - 1]|
  {
    var last := |t.lines| - 1;
    var line: seq<Cell> := t.lines[last][x := c];
    t.(lines := t.lines[last := line])
  }

  // One character: newline, the erase code, or anything else.
  function Typed(t: Transcript, background: seq<seq<Cell>>, w: nat, ch: int, color: Color): Transcript
    requires t.lines != [] && t.x < w == |t.lines[|t.lines| - 1]|
  {
    if ch == NEWLINE then NewLine(t, background, w)
    else if ch == ERASE then
      var x := if t.x > 0 then t.x - 1 else 0;
      Put(t, x, Entry(' ' as int, color)).(x := x)
    else
      var p := Put(t, t.x, Entry(ch, color));
      if t.x + 1 == w then NewLine(p, background, w) else p.(x := t.x + 1)
  }

  ghost predicate IsBackground(background: seq<seq<Cell>>, w: nat) {
    forall k :: 0 <= k < |background| ==> |background[k]| == w
  }

  lemma TypedIsValid(t: Transcript, background: seq<seq<Cell>>, w: nat, ch: int, color: Color)
    requires t.Valid(w) && IsBackground(background, w)
    ensures Typed(t, background, w, ch, color).Valid(w)
  {
  }

  // A line more, with the cursor at its start; the lines before it are as they were.
  ghost predicate LineBegun(t: Transcript, t': Transcript)
  {
    t'.x == 0 && |t'.lines| == |t.lines| + 1 && forall l :: 0 <= l < |t.lines| ==> t'.lines[l] == t.lines[l]
  }

  // Column x of the last line of t shows ch; every other cell of t is as it was.
  ghost predicate CellTyped(t: Transcript, t': Transcript, w: nat, x: nat, ch: int, color: Color)
    requires t.Valid(w) && t'.Valid(w) && |t.lines| <= |t'.lines|
  {
    && x < w && IsCell(t'.lines[|t.lines| - 1][x], ch, color)
    && forall l, c :: 0 <= l < |t.lines| && 0 <= c < w && !(l == |t.lines| - 1 && c == x) ==>
         t'.lines[l][c] == t.lines[l][c]
  }

  // What one character does: '\n' begins a line; 14 blanks the cell before the cursor, or that of the cursor at
  // the start of a line; any other one is shown and the cursor moves on, at the end of a line into the next.
  ghost predicate TypedAs(t: Transcript, t': Transcript, w: nat, ch: int, color: Color)
  {
    && t.Valid(w) && t'.Valid(w) && |t.lines| <= |t'.lines|
    && (ch == '\n' as int ==> LineBegun(t, t'))
    && (ch == 14 ==>
          && |t'.lines| == |t.lines| && t'.x == (if t.x == 0 then 0 else t.x - 1)
          && CellTyped(t, t', w, t'.x, 0x20, color))
    && (ch != '\n' as int && ch != 14 ==>
          && CellTyped(t, t', w, t.x, ch, color)
          && (|t'.lines| - 1, t'.x) == if t.x + 1 == w then (|t.lines|, 0) else (|t.lines| - 1, t.x + 1))
  }

  lemma TypedMeans(t: Transcript, background: seq<seq<Cell>>, w: nat, ch: int, color: Color)
    requires t.Valid(w) && IsBackground(background, w)
    ensures TypedAs(t, Typed(t, background, w, ch, color), w, ch, color)
  {
    hide Entry, IsCell;
    TypedIsValid(t, background, w, ch, color);
    EntryIsTwoBytes(ch, color);
    EntryIsTwoBytes(0x20, color);
  }

  // ---------------------------------------------------------------------------------------------
  // The screen

  function Row(buffer: seq<Cell>, w: nat, r: nat): seq<Cell>
    requires r * w + w <= |buffer|
  {
    buffer[r * w..r * w + w]
  }

  lemma {:induction false} TimesMonotone(a: nat, b: nat, w: nat)
    requires a <= b
    ensures a * w <= b * w
    decreases b
  {
    if a < b {
      TimesMonotone(a, b - 1, w);
      OneMoreRow(b - 1, w);
    }
  }

  lemma OneMoreRow(r: nat, w: nat)
    ensures (r + 1) * w == r * w + w
  {
  }

  lemma RowFits(w: nat, h: nat, r: nat)
    requires r < h
    ensures r * w + w <= h * w
    ensures r + 1 < h ==> (r + 1) * w == r * w + w && r * w + w + w <= h * w
  {
    OneMoreRow(r, w);
    TimesMonotone(r + 1, h, w);
    if r + 1 < h {
      OneMoreRow(r + 1, w);
      TimesMonotone(r + 2, h, w);
    }
  }

  // Row r of the screen is line `first + r` of the transcript, all the way down: below the cursor these are
  // lines not begun yet. The screen scrolls only when the cursor is in the last row but one.
  ghost predicate Shows(buffer: seq<Cell>, w: nat, h: nat, y: int, t: Transcript, background: seq<seq<Cell>>)
    requires |buffer| == h * w
  {
    && 0 <= y <= h - 2 && y < |t.lines| && (y < |t.lines| - 1 ==> y == h - 2)
    && ShowsFrom(buffer, w, h, t, background, |t.lines| - 1 - y)
  }

  ghost predicate ShowsFrom(buffer: seq<Cell>, w: nat, h: nat, t: Transcript, background: seq<seq<Cell>>, first: nat)
    requires |buffer| == h * w
  {
    forall r: nat :: r < h ==> ShowsAt(buffer, w, h, t, background, first, r)
  }

  ghost predicate ShowsAt(buffer: seq<Cell>, w: nat, h: nat, t: Transcript, background: seq<seq<Cell>>,
                          first: nat, r: nat)
    requires r < h && |buffer| == h * w
  {
    RowShows(buffer, w, h, r, LineAt(t, background, w, first + r))
  }

  ghost predicate RowShows(buffer: seq<Cell>, w: nat, h: nat, r: nat, line: seq<Cell>)
    requires r < h && |buffer| == h * w
  {
    RowFits(w, h, r);
    Row(buffer, w, r) == line
  }

  function Scrolled(buffer: seq<Cell>, w: nat): seq<Cell>
    requires w <= |buffer|
  {
    buffer[w..] + Zeros(w)
  }

  lemma SliceOfScrolled(buffer: seq<Cell>, w: nat, a: nat)
    requires a + w + w <= |buffer|
    ensures Scrolled(buffer, w)[a..a + w] == buffer[a + w..a + w + w]
  {
  }

  lemma ScrolledRow(buffer: seq<Cell>, w: nat, h: nat, r: nat, line: seq<Cell>)
    requires r < h && |buffer| == h * w && 0 < h
    requires w <= |buffer| && |Scrolled(buffer, w)| == h * w
    requires if r < h - 1 then RowShows(buffer, w, h, r + 1, line) else line == Zeros(w)
    ensures RowShows(Scrolled(buffer, w), w, h, r, line)
  {
    RowFits(w, h, r);
    var row := Row(Scrolled(buffer, w), w, r);
    if r < h - 1 {
      RowFits(w, h, r + 1);
      SliceOfScrolled(buffer, w, r * w);
    } else {
      assert h * w - w == r * w;
      assert row == Zeros(w);
    }
  }

  // A new line changes no line of the transcript that can be seen; if it scrolls, the window moves down.
  lemma NewLineShows(buffer: seq<Cell>, w: nat, h: nat, y: int, t: Transcript, background: seq<seq<Cell>>)
    requires |buffer| == h * w && Shows(buffer, w, h, y, t, background) && |background| <= h && 2 <= h
    requires w <= |buffer| && |Scrolled(buffer, w)| == h * w
    ensures var t' := NewLine(t, background, w);
            if y == h - 2 then Shows(Scrolled(buffer, w), w, h, h - 2, t', background)
            else Shows(buffer, w, h, y + 1, t', background)
  {
    hide RowShows, Scrolled, Zeros;
    var t' := NewLine(t, background, w);
    assert forall k: nat :: LineAt(t', background, w, k) == LineAt(t, background, w, k);
    if y == h - 2 {
      var first := |t'.lines| - 1 - y;
      forall r: nat | r < h
        ensures ShowsAt(Scrolled(buffer, w), w, h, t', background, first, r)
      {
        if r < h - 1 {
          assert ShowsAt(buffer, w, h, t, background, first - 1, r + 1);
        }
        ScrolledRow(buffer, w, h, r, LineAt(t', background, w, first + r));
      }
    } else {
      var first := |t.lines| - 1 - y;
      forall r: nat | r < h
        ensures ShowsAt(buffer, w, h, t', background, first, r)
      {
        assert ShowsAt(buffer, w, h, t, background, first, r);
      }
    }
  }

  // A character goes to one cell of the screen and to the same place of the transcript.
  lemma PutShows(buffer: seq<Cell>, w: nat, h: nat, y: int, t: Transcript, background: seq<seq<Cell>>, x: nat, c: Cell)
    requires |buffer| == h * w && Shows(buffer, w, h, y, t, background) && t.Valid(w)
        && IsBackground(background, w) && x < w
    requires 0 <= y * w + x < |buffer|
    ensures Shows(buffer[y * w + x := c], w, h, y, Put(t, x, c), background)
  {
    hide RowShows;
    var t' := Put(t, x, c);
    var first := |t.lines| - 1 - y;
    var after := buffer[y * w + x := c];
    forall r: nat | r < h
      ensures ShowsAt(after, w, h, t', background, first, r)
    {
      assert ShowsAt(buffer, w, h, t, background, first, r);
      PutRow(buffer, w, h, y, x, c, r, LineAt(t, background, w, first + r));
    }
  }

  lemma PutRow(buffer: seq<Cell>, w: nat, h: nat, y: nat, x: nat, c: Cell, r: nat, line: seq<Cell>)
    requires |buffer| == h * w && y < h && r < h && x < w && RowShows(buffer, w, h, r, line) && |line| == w
    requires y * w + x < |buffer|
    ensures RowShows(buffer[y * w + x := c], w, h, r, if r == y then line[x := c] else line)
  {
    RowFits(w, h, r);
    RowFits(w, h, y);
    Apart(w, r, y);
    var row := Row(buffer[y * w + x := c], w, r);
    if r == y {
      assert row == line[x := c];
    } else {
      assert row == line;
    }
  }

  lemma Apart(w: nat, r: nat, y: nat)
    ensures r < y ==> r * w + w <= y * w
    ensures y < r ==> y * w + w <= r * w
  {
    if r < y {
      OneMoreRow(r, w);
      TimesMonotone(r + 1, y, w);
    } else if y < r {
      OneMoreRow(y, w);
      TimesMonotone(y + 1, r, w);
    }
  }

  // ---------------------------------------------------------------------------------------------
  // Laws of the transcript

  function TypedAll(t: Transcript, background: seq<seq<Cell>>, w: nat, text: seq<int>, color: Color): Transcript
    requires TypedAllIsDefined(t, background, w, text, color)
    decreases |text|
  {
    if text == [] then t else TypedAll(Typed(t, background, w, text[0], color), background, w, text[1..], color)
  }

  predicate TypedAllIsDefined(t: Transcript, background: seq<seq<Cell>>, w: nat, text: seq<int>, color: Color)
    decreases |text|
  {
    text == [] ||
    (t.lines != [] && t.x < w == |t.lines[|t.lines| - 1]|
        && TypedAllIsDefined(Typed(t, background, w, text[0], color), background, w, text[1..], color))
  }

  lemma {:induction false} TypedAllIsValid(t: Transcript, background: seq<seq<Cell>>, w: nat,
                                           text: seq<int>, color: Color)
    requires t.Valid(w) && IsBackground(background, w)
    ensures TypedAllIsDefined(t, background, w, text, color) && TypedAll(t, background, w, text, color).Valid(w)
    decreases |text|
  {
    hide Typed;
    if text != [] {
      TypedIsValid(t, background, w, text[0], color);
      TypedAllIsValid(Typed(t, background, w, text[0], color), background, w, text[1..], color);
    }
  }

  predicate Plain(text: seq<int>) {
    NEWLINE !in text && ERASE !in text
  }

  // The line and column k characters further on, with lines of w characters.
  function Place(line: nat, x: nat, k: nat, w: nat): (p: (nat, nat))
    requires x < w
    ensures line <= p.0 && p.1 < w
    decreases k
  {
    if x + k < w then (line, x + k) else Place(line + 1, 0, k - (w - x), w)
  }

  lemma PlaceHere(line: nat, x: nat, w: nat)
    requires x < w
    ensures Place(line, x, 0, w) == (line, x)
  {
  }

  lemma PlaceStep(line: nat, x: nat, k: nat, w: nat)
    requires x < w && 0 < k
    ensures Place(line, x, k, w) == if x + 1 == w then Place(line + 1, 0, k - 1, w) else Place(line, x + 1, k - 1, w)
  {
  }

  // Text without newlines and erase codes never comes back to a cell before the cursor.
  lemma {:induction false} TextMovesOn(t: Transcript, background: seq<seq<Cell>>, w: nat, text: seq<int>, color: Color,
                                       l: nat, c: nat)
    requires t.Valid(w) && IsBackground(background, w) && Plain(text)
    requires (l < |t.lines| - 1 && c < w) || (l == |t.lines| - 1 && c < t.x)
    ensures TypedAllIsDefined(t, background, w, text, color)
    ensures var r := TypedAll(t, background, w, text, color);
            |t.lines| <= |r.lines| && r.Valid(w) && r.lines[l][c] == t.lines[l][c]
    decreases |text|
  {
    TypedAllIsValid(t, background, w, text, color);
    if text != [] {
      assert text[0] in text;
      TypedIsValid(t, background, w, text[0], color);
      TextMovesOn(Typed(t, background, w, text[0], color), background, w, text[1..], color, l, c);
    }
  }

  lemma TypedPlain(t: Transcript, background: seq<seq<Cell>>, w: nat, ch: int, color: Color)
    requires t.Valid(w) && IsBackground(background, w) && ch != NEWLINE && ch != ERASE
    ensures var r := Typed(t, background, w, ch, color);
            && r.Valid(w) && |t.lines| <= |r.lines| && r.lines[|t.lines| - 1][t.x] == Entry(ch, color)
            && (|r.lines| - 1, r.x) == if t.x + 1 == w then (|t.lines|, 0) else (|t.lines| - 1, t.x + 1)
  {
  }

  // Such text fills the transcript in reading order, w characters to a line, and leaves the cursor behind it.
  lemma {:induction false} TextWraps(t: Transcript, background: seq<seq<Cell>>, w: nat, text: seq<int>,
                                     color: Color, k: nat)
    requires t.Valid(w) && IsBackground(background, w) && Plain(text) && k < |text|
    ensures TypedAllIsDefined(t, background, w, text, color)
    ensures var r := TypedAll(t, background, w, text, color);
            var p := Place(|t.lines| - 1, t.x, k, w);
            && r.Valid(w) && p.0 < |r.lines| && r.lines[p.0][p.1] == Entry(text[k], color)
            && (|r.lines| - 1, r.x) == Place(|t.lines| - 1, t.x, |text|, w)
    decreases |text|
  {
    hide Entry, Typed, Place;
    assert text[0] in text;
    var t1 := Typed(t, background, w, text[0], color);
    TypedPlain(t, background, w, text[0], color);
    TypedAllIsValid(t, background, w, text, color);
    PlaceStep(|t.lines| - 1, t.x, |text|, w);
    PlaceHere(|t1.lines| - 1, t1.x, w);
    if k == 0 {
      PlaceHere(|t.lines| - 1, t.x, w);
      TextMovesOn(t1, background, w, text[1..], color, |t.lines| - 1, t.x);
      if |text| > 1 {
        TextWraps(t1, background, w, text[1..], color, 0);
      }
    } else {
      PlaceStep(|t.lines| - 1, t.x, k, w);
      TextWraps(t1, background, w, text[1..], color, k - 1);
    }
  }

  // The erase code takes back a character exactly if that did not fill its line: then only a space is left
  // where the character was. Otherwise the cursor stays in the new line.
  lemma EraseTakesBack(t: Transcript, background: seq<seq<Cell>>, w: nat, ch: int, color: Color)
    requires t.Valid(w) && IsBackground(background, w) && ch != NEWLINE && ch != ERASE
    ensures Typed(t, background, w, ch, color).Valid(w)
    ensures var back := Typed(Typed(t, background, w, ch, color), background, w, ERASE, color);
            && (back == Put(t, t.x, Entry(' ' as int, color)) <==> t.x + 1 < w)
            && (t.x + 1 == w ==> |back.lines| == |t.lines| + 1 && back.x == 0)
  {
    TypedIsValid(t, background, w, ch, color);
    var last := |t.lines| - 1;
    if t.x + 1 < w {
      var back := Typed(Typed(t, background, w, ch, color), background, w, ERASE, color);
      assert back.lines[last] == t.lines[last][t.x := Entry(' ' as int, color)];
      assert back.lines == Put(t, t.x, Entry(' ' as int, color)).lines;
    }
  }

  // ---------------------------------------------------------------------------------------------
  // The console

  class Vga {
    const width: nat
    const height: nat
    const buffer: array<Cell>
    var cursorX: int
    var cursorY: int
    var color: Color
    ghost var transcript: Transcript
    ghost var background: seq<seq<Cell>>

    // Width and height keep the cursor within 16 bits and the buffer index within 32.
    ghost predicate Shape()
      reads this
    {
      && 1 <= width < 0x8000 && 1 <= height < 0x8000 && buffer.Length == height * width
      && IsBackground(background, width) && |background| <= height
    }

    // The screen shows the end of the transcript.
    ghost predicate Showing()
      reads this, buffer
    {
      && Shape() && 2 <= height && transcript.Valid(width)
      && Shows(buffer[..], width, height, cursorY, transcript, background)
    }

    ghost predicate Valid()
      reads this, buffer
    {
      Showing() && cursorX == transcript.x
    }

    // Any screen with the cursor in its first cell shows an empty transcript.
    constructor (width: nat, height: nat, buffer: array<Cell>)
      requires 1 <= width < 0x8000 && 2 <= height < 0x8000 && buffer.Length == height * width
      ensures Valid() && cursorX == 0 && cursorY == 0 && color == 0
      ensures this.width == width && this.height == height && this.buffer == buffer
      ensures |background| == height && transcript == Transcript([background[0]], 0)
      ensures forall r: nat :: r < height ==> RowShows(buffer[..], width, height, r, background[r])
    {
      this.width, this.height, this.buffer := width, height, buffer;
      cursorX, cursorY, color := 0, 0, 0;
      background := Rows(buffer[..], width, height, height);
      transcript := Transcript([Rows(buffer[..], width, height, height)[0]], 0);
      new;
      assert ShowsFrom(buffer[..], width, height, transcript, background, 0);
    }

    method VgaClearScreen()
      requires Shape() && 2 <= height
      modifies buffer, this
      ensures Valid() && color == 7 && cursorY == 0
      ensures transcript == Transcript([Filled(width, Entry(0, 7))], 0)
      ensures |background| == height && forall k :: 0 <= k < height ==> background[k] == Filled(width, Entry(0, 7))
      ensures forall k :: 0 <= k < buffer.Length ==> buffer[k] == 0x0700
    {
      hide Entry;
      BlankIs();
      color := 7;
      var maxRows := height * width;
      var i := 0;
      while i < maxRows
        invariant 0 <= i <= maxRows && color == 7
        invariant forall k :: 0 <= k < i ==> buffer[k] == Entry(0, color)
      {
        buffer[i] := Entry(0, color);
        i := i + 1;
      }
      cursorX, cursorY := 0, 0;
      background := seq(height, _ => Filled(width, Entry(0, 7)));
      transcript := Transcript([Filled(width, Entry(0, 7))], 0);
      ClearedShows(buffer[..], width, height, transcript, background, Entry(0, 7));
    }

    method VgaScrollScreen()
      requires Shape()
      modifies buffer
      ensures width <= buffer.Length && buffer[..] == Scrolled(old(buffer[..]), width)
    {
      ghost var was := buffer[..];
      RowFits(width, height, height - 1);
      var maxRowMinusOne := width * height - width;
      var i := 0;
      while i < maxRowMinusOne
        invariant 0 <= i <= maxRowMinusOne
        invariant forall k :: 0 <= k < i ==> buffer[k] == was[k + width]
        invariant forall k :: i <= k < buffer.Length ==> buffer[k] == was[k]
      {
        buffer[i] := buffer[i + width];
        i := i + 1;
      }
      i := 0;
      while i < width
        invariant 0 <= i <= width
        invariant forall k :: 0 <= k < maxRowMinusOne ==> buffer[k] == was[k + width]
        invariant forall k :: maxRowMinusOne <= k < maxRowMinusOne + i ==> buffer[k] == 0
      {
        buffer[maxRowMinusOne + i] := 0;
        i := i + 1;
      }
      assert buffer[..] == Scrolled(was, width);
    }

    // Scrolls until the cursor is above the last row: once if it stood there. On a screen of one row it
    // leaves the screen, to row -1.
    method VgaCheckIfScrollNeeded()
      requires Shape()
      modifies buffer, this`cursorY
      ensures cursorY == if old(cursorY) >= height - 1 then height - 2 else old(cursorY)
      ensures width <= buffer.Length
      ensures old(cursorY) < height - 1 ==> buffer[..] == old(buffer[..])
      ensures old(cursorY) == height - 1 ==> buffer[..] == Scrolled(old(buffer[..]), width)
    {
      RowFits(width, height, height - 1);
      ghost var y, was := cursorY, buffer[..];
      while cursorY >= height - 1
        invariant cursorY <= y && (cursorY == y || height - 2 <= cursorY)
        invariant cursorY == y ==> buffer[..] == was
        invariant cursorY == y - 1 ==> buffer[..] == Scrolled(was, width)
        decreases cursorY
      {
        VgaScrollScreen();
        cursorY := cursorY - 1;
      }
    }

    method VgaNextLine()
      requires Showing()
      modifies buffer, this`cursorX, this`cursorY, this`transcript
      ensures Valid() && transcript == NewLine(old(transcript), background, width)
    {
      hide Shows, Scrolled;
      RowFits(width, height, height - 1);
      ShowsBounds(buffer[..], width, height, cursorY, transcript, background);
      ScrolledLength(buffer[..], width);
      NewLineShows(buffer[..], width, height, cursorY, transcript, background);
      transcript := NewLine(transcript, background, width);
      cursorX := 0;
      cursorY := cursorY + 1;
      VgaCheckIfScrollNeeded();
    }

    // vga_buffer[i] = c for the cell in column x of the cursor's row; the cursor goes to column next.
    method StoreCell(i: int, x: nat, c: Cell, next: nat)
      requires Showing() && i == cursorY * width + x && x < width && next < width
      modifies buffer, this`transcript
      ensures Showing() && transcript == Put(old(transcript), x, c).(x := next)
    {
      hide Shows;
      ShowsBounds(buffer[..], width, height, cursorY, transcript, background);
      RowFits(width, height, cursorY);
      PutShows(buffer[..], width, height, cursorY, transcript, background, x, c);
      AnyColumn(buffer[..][i := c], width, height, cursorY, Put(transcript, x, c), background, next);
      transcript := Put(transcript, x, c).(x := next);
      buffer[i] := c;
    }

    // The part of vga_write_char behind its two special codes.
    method ShowChar(ch: int, x: int, y: int)
      requires Valid() && x == cursorX && y == cursorY && ch != NEWLINE && ch != ERASE
      modifies buffer, this`cursorX, this`cursorY, this`transcript
      ensures Valid() && transcript == Typed(old(transcript), background, width, ch, color)
    {
      hide Shows, Entry, Put;
      ShowsBounds(buffer[..], width, height, cursorY, transcript, background);
      var i := y * width + x;
      RowFits(width, height, cursorY);
      Commutes(width, height);
      if i < width * height {
        StoreCell(i, cursorX, Entry(ch, color), if cursorX + 1 < width then cursorX + 1 else cursorX);
      }
      cursorX := cursorX + 1;
      if cursorX >= width {
        VgaNextLine();
      }
    }

    method VgaWriteChar(ch: int, x: int, y: int)
      requires Valid() && x == cursorX && y == cursorY
      modifies buffer, this`cursorX, this`cursorY, this`transcript
      ensures Valid() && transcript == Typed(old(transcript), background, width, ch, color)
      ensures TypedAs(old(transcript), transcript, width, ch, color)
    {
      hide Shows, Entry, Put, TypedAs;
      TypedMeans(transcript, background, width, ch, color);
      if ch == NEWLINE {
        VgaNextLine();
        return;
      }
      if ch == ERASE {
        if cursorX > 0 {
          cursorX := cursorX - 1;
        }
        var i := y * width + cursorX;
        ShowsBounds(buffer[..], width, height, cursorY, transcript, background);
        StoreCell(i, cursorX, Entry(' ' as int, color), cursorX);
        return;
      }
      ShowChar(ch, x, y);
    }

    method PutChar(ch: int) returns (r: int)
      requires Valid()
      modifies buffer, this`cursorX, this`cursorY, this`transcript
      ensures Valid() && transcript == Typed(old(transcript), background, width, ch, color) && r == ch
    {
      var x, y := cursorX, cursorY;
      VgaWriteChar(ch, x, y);
      r := ch;
    }

    // The characters of a string before its terminating zero.
    method PutStr(str: seq<int>)
      requires Valid()
      modifies buffer, this`cursorX, this`cursorY, this`transcript
      ensures Valid() && TypedAllIsDefined(old(transcript), background, width, str, color)
      ensures transcript == TypedAll(old(transcript), background, width, str, color)
    {
      hide Shows, Typed;
      TypedAllIsValid(transcript, background, width, str, color);
      var i := 0;
      while i < |str|
        invariant 0 <= i <= |str| && Valid() && color == old(color) && background == old(background)
        invariant TypedAllIsDefined(transcript, background, width, str[i..], color)
        invariant TypedAll(transcript, background, width, str[i..], color)
               == TypedAll(old(transcript), background, width, str, color)
      {
        assert str[i..][0] == str[i] && str[i..][1..] == str[i + 1..];
        var _ := PutChar(str[i]);
        i := i + 1;
      }
    }
  }

  lemma ClearedShows(buffer: seq<Cell>, w: nat, h: nat, t: Transcript, background: seq<seq<Cell>>, c: Cell)
    requires |buffer| == h * w && 2 <= h && (forall k :: 0 <= k < |buffer| ==> buffer[k] == c)
    requires |background| == h && forall k :: 0 <= k < h ==> background[k] == Filled(w, c)
    requires t.lines == [Filled(w, c)]
    ensures Shows(buffer, w, h, 0, t, background)
  {
    forall r: nat | r < h
      ensures ShowsAt(buffer, w, h, t, background, 0, r)
    {
      RowFits(w, h, r);
      assert Row(buffer, w, r) == Filled(w, c);
    }
  }

  function Filled(w: nat, c: Cell): (line: seq<Cell>)
    ensures |line| == w && forall i :: 0 <= i < w ==> line[i] == c
  {
    seq(w, _ => c)
  }

  lemma Commutes(a: nat, b: nat)
    ensures a * b == b * a
  {
  }

  lemma ShowsBounds(buffer: seq<Cell>, w: nat, h: nat, y: int, t: Transcript, background: seq<seq<Cell>>)
    requires |buffer| == h * w && Shows(buffer, w, h, y, t, background)
    ensures 0 <= y <= h - 2
  {
  }

  lemma ScrolledLength(buffer: seq<Cell>, w: nat)
    requires w <= |buffer|
    ensures |Scrolled(buffer, w)| == |buffer|
  {
  }

  // The column of the cursor is no matter of the screen.
  lemma AnyColumn(buffer: seq<Cell>, w: nat, h: nat, y: int, t: Transcript, background: seq<seq<Cell>>, x: nat)
    requires |buffer| == h * w && Shows(buffer, w, h, y, t, background)
    ensures Shows(buffer, w, h, y, t.(x := x), background)
  {
    hide RowShows;
    var t', first := t.(x := x), |t.lines| - 1 - y;
    forall r: nat | r < h
      ensures ShowsAt(buffer, w, h, t', background, first, r)
    {
      assert ShowsAt(buffer, w, h, t, background, first, r);
    }
  }

  // The first k rows of the screen.
  ghost function Rows(buffer: seq<Cell>, w: nat, h: nat, k: nat): (rows: seq<seq<Cell>>)
    requires |buffer| == h * w && k <= h
    ensures |rows| == k && forall r: nat :: r < k ==> |rows[r]| == w && RowShows(buffer, w, h, r, rows[r])
  {
    if k == 0 then [] else Rows(buffer, w, h, k - 1) + [LastRow(buffer, w, h, k)]
  }

  ghost function LastRow(buffer: seq<Cell>, w: nat, h: nat, k: nat): (row: seq<Cell>)
    requires |buffer| == h * w && 0 < k <= h
    ensures |row| == w && RowShows(buffer, w, h, k - 1, row)
  {
    RowFits(w, h, k - 1);
    Row(buffer, w, k - 1)
  }
}
