/** The text console as a value, and the terminal it stands for: a sheet of rows that only
    ever grows, of which the screen is the last 25. */
module Terminal {
  import opened Words

  const COLS: nat := 80
  const ROWS: nat := 25
  const CELLS: nat := 2000

  datatype Cell = Cell(glyph: byte, attr: byte)

  datatype Pen = Pen(fg: byte, bg: byte) {
    /** The attribute byte: low four bits of each colour, background in the high half. */
    function Attr(): byte {
      bg % 16 * 16 + fg % 16
    }
  }

  /** The high half of an attribute byte holds the low four bits of the background, the low half
      those of the foreground. */
  predicate Inked(attr: byte, fg: byte, bg: byte) {
    attr / 16 == bg % 16 && attr % 16 == fg % 16
  }

  lemma AttrInked(pen: Pen)
    ensures Inked(pen.Attr(), pen.fg, pen.bg)
  {
  }

  function Blanks(n: nat, pen: Pen): (s: seq<Cell>)
    ensures |s| == n && forall i :: 0 <= i < n ==> s[i] == Cell(SPACE, pen.Attr())
  {
    seq(n, _ => Cell(SPACE, pen.Attr()))
  }

  function RowStart(k: nat): nat {
    k / COLS * COLS
  }

  /** `(k + 8) & ~7`: the next multiple of eight. */
  function NextTab(k: nat): nat {
    (k + 8) / 8 * 8
  }

  /** Rows and tab stops line up however many whole rows lie above. */
  lemma Alignment(n: nat, k: nat)
    ensures RowStart(COLS * n + k) == COLS * n + RowStart(k)
    ensures NextTab(COLS * n + k) == COLS * n + NextTab(k)
    ensures RowStart(k) <= k < RowStart(k) + COLS
    ensures k < NextTab(k) <= k + 8
    ensures k < CELLS ==> RowStart(k) + COLS <= CELLS && NextTab(k) <= CELLS
  {
    assert (COLS * n + k) / COLS == n + k / COLS;
    assert (COLS * n + k + 8) / 8 == 10 * n + (k + 8) / 8;
  }

  // ------------------------------------------------------------------- the screen

  datatype ScreenData = ScreenData(cells: seq<Cell>, cursor: nat, pen: Pen)

  /** Between characters the cursor always addresses a cell. */
  type Screen = s: ScreenData | |s.cells| == CELLS && s.cursor < CELLS
    witness ScreenData(seq(CELLS, _ => Cell(SPACE, 15)), 0, Pen(15, 0))

  /** One character, before any scrolling: the cursor never passes one beyond the last cell. */
  function Advanced(s: Screen, c: byte): (r: ScreenData)
    ensures |r.cells| == CELLS && r.cursor <= CELLS && r.pen == s.pen
  {
    if c == NEWLINE then s.(cursor := RowStart(s.cursor) + COLS)
    else if c == RETURN then s.(cursor := RowStart(s.cursor))
    else if c == TAB then s.(cursor := NextTab(s.cursor))
    else if c == BACKSPACE then
      if s.cursor == 0 then s
      else s.(cursor := s.cursor - 1, cells := s.cells[s.cursor - 1 := Cell(SPACE, s.pen.Attr())])
    else s.(cursor := s.cursor + 1, cells := s.cells[s.cursor := Cell(c, s.pen.Attr())])
  }

  function Scrolled(s: ScreenData): Screen
    requires |s.cells| == CELLS
  {
    s.(cells := s.cells[COLS..] + Blanks(COLS, s.pen), cursor := CELLS - COLS)
  }

  function Put(s: Screen, c: byte): Screen {
    var a := Advanced(s, c);
    if a.cursor == CELLS then Scrolled(a) else a
  }

  function Cleared(s: Screen): Screen {
    s.(cells := Blanks(CELLS, s.pen), cursor := 0)
  }

  /** A screen whose rows have all moved up by one, with a blank last row and the cursor at its
      start. */
  predicate RowUp(s: ScreenData, t: Screen)
    requires |s.cells| == CELLS
  {
    && t.cursor == 1920 && t.pen == s.pen
    && (forall k :: 0 <= k < 1920 ==> t.cells[k] == s.cells[k + 80])
    && (forall k :: 1920 <= k < 2000 ==> t.cells[k] == Cell(32, s.pen.Attr()))
  }

  /** Moves that write nothing. Line feed (10) goes to the start of the next row, below the last
      row by scrolling; carriage return (13) to the start of this row; tab (9) to the next column
      divisible by 8, which after column 72 is the start of the next row. */
  lemma CursorCodes(s: Screen, row: nat, col: nat)
    requires s.cursor == 80 * row + col && col < 80
    ensures if row < 24 then Put(s, 10) == s.(cursor := 80 * (row + 1)) else RowUp(s, Put(s, 10))
    ensures Put(s, 13) == s.(cursor := 80 * row)
    ensures forall stop :: col < stop <= col + 8 && stop % 8 == 0 ==>
              if stop == 80 then Put(s, 9) == Put(s, 10) else Put(s, 9) == s.(cursor := 80 * row + stop)
  {
    hide Scrolled;
    assert RowStart(s.cursor) == 80 * row;
    if row == 24 {
      ScrolledUp(s.(cursor := CELLS));
    }
  }

  lemma ScrolledUp(s: ScreenData)
    requires |s.cells| == CELLS
    ensures RowUp(s, Scrolled(s))
  {
  }

  /** Codes that write one cell. Backspace (8) steps back and blanks the cell there, except in
      the first cell of the screen; any other byte is put at the cursor, which moves on, and
      scrolls after the last cell. */
  lemma WritingCodes(s: Screen, c: byte)
    requires c != 9 && c != 10 && c != 13
    ensures c == 8 && s.cursor == 0 ==> Put(s, c) == s
    ensures c == 8 && s.cursor > 0 ==>
              Put(s, c) == s.(cursor := s.cursor - 1, cells := s.cells[s.cursor - 1 := Cell(32, s.pen.Attr())])
    ensures c != 8 ==>
              var cells := s.cells[s.cursor := Cell(c, s.pen.Attr())];
              if s.cursor < 1999 then Put(s, c) == s.(cursor := s.cursor + 1, cells := cells)
              else RowUp(s.(cells := cells), Put(s, c))
  {
    hide Scrolled;
    ScrolledUp(Advanced(s, c));
  }

  // -------------------------------------------------------------------- the sheet

  /** `above` counts the rows that have left the screen at its top. */
  datatype SheetData = SheetData(tape: seq<Cell>, above: nat, cursor: nat, pen: Pen) {
    function Top(): nat {
      COLS * above
    }
  }

  /** The rows above plus a screenful, with the cursor in the last 25 rows. */
  type Sheet = p: SheetData | |p.tape| == p.Top() + CELLS && p.Top() <= p.cursor < |p.tape|
    witness SheetData(seq(CELLS, _ => Cell(SPACE, 15)), 0, 0, Pen(15, 0))

  /** One character on the sheet, before a row is added: nothing but the cell at the cursor
      changes, and backspace stops at the corner of the last 25 rows. */
  function Struck(p: Sheet, c: byte): (q: SheetData)
    ensures |q.tape| == |p.tape| && q.above == p.above && q.pen == p.pen
    ensures p.Top() <= q.cursor <= |p.tape|
    ensures q.tape[..p.Top()] == p.tape[..p.Top()]
  {
    Alignment(p.above, p.cursor - p.Top());
    if c == NEWLINE then p.(cursor := RowStart(p.cursor) + COLS)
    else if c == RETURN then p.(cursor := RowStart(p.cursor))
    else if c == TAB then p.(cursor := NextTab(p.cursor))
    else if c == BACKSPACE then
      if p.cursor == p.Top() then p
      else p.(cursor := p.cursor - 1, tape := p.tape[p.cursor - 1 := Cell(SPACE, p.pen.Attr())])
    else p.(cursor := p.cursor + 1, tape := p.tape[p.cursor := Cell(c, p.pen.Attr())])
  }

  /** One character: when the cursor leaves the last row, one more is added below it, blank
      in the pen of that moment. Nothing ever moves. */
  function Typed(p: Sheet, c: byte): Sheet {
    var q := Struck(p, c);
    if q.cursor == |q.tape| then q.(tape := q.tape + Blanks(COLS, q.pen), above := q.above + 1) else q
  }

  /** The last 25 rows of the sheet. */
  function Window(p: Sheet): Screen {
    ScreenData(p.tape[p.Top()..], p.cursor - p.Top(), p.pen)
  }

  lemma StruckIsAdvanced(p: Sheet, c: byte)
    ensures Struck(p, c).cursor == p.Top() + Advanced(Window(p), c).cursor
    ensures Struck(p, c).tape[p.Top()..] == Advanced(Window(p), c).cells
  {
    Alignment(p.above, p.cursor - p.Top());
    hide RowStart, NextTab;
  }

  lemma TypedIsPut(p: Sheet, c: byte)
    ensures Window(Typed(p, c)) == Put(Window(p), c)
    ensures Typed(p, c).above == p.above + if Advanced(Window(p), c).cursor == CELLS then 1 else 0
    ensures Typed(p, c).tape[..p.Top()] == p.tape[..p.Top()]
  {
    hide Struck, Advanced;
    StruckIsAdvanced(p, c);
    var q, r := Struck(p, c), Typed(p, c);
    if q.cursor == |q.tape| {
      assert r.tape[r.Top()..] == q.tape[p.Top()..][COLS..] + Blanks(COLS, q.pen);
      assert r.tape[..p.Top()] == q.tape[..p.Top()];
    }
  }

  /** Clearing leaves what was shown above and continues on 25 fresh rows. */
  function Turned(p: Sheet): Sheet {
    p.(tape := p.tape + Blanks(CELLS, p.pen), above := p.above + ROWS, cursor := |p.tape|)
  }

  lemma TurnedIsCleared(p: Sheet)
    ensures Window(Turned(p)) == Cleared(Window(p))
    ensures Turned(p).tape[..p.Top()] == p.tape[..p.Top()]
  {
    assert Turned(p).tape[Turned(p).Top()..] == Blanks(CELLS, p.pen);
  }

  // ------------------------------------------------------------------------- runs

  datatype Event = Char(c: byte) | Color(fg: byte, bg: byte) | Clear

  function ScreenAfter(s: Screen, events: seq<Event>): Screen
    decreases |events|
  {
    if events == [] then s
    else match events[0]
      case Char(c) => ScreenAfter(Put(s, c), events[1..])
      case Color(fg, bg) => ScreenAfter(s.(pen := Pen(fg, bg)), events[1..])
      case Clear => ScreenAfter(Cleared(s), events[1..])
  }

  function SheetAfter(p: Sheet, events: seq<Event>): Sheet
    decreases |events|
  {
    if events == [] then p
    else match events[0]
      case Char(c) => SheetAfter(Typed(p, c), events[1..])
      case Color(fg, bg) => SheetAfter(p.(pen := Pen(fg, bg)), events[1..])
      case Clear => SheetAfter(Turned(p), events[1..])
  }

  /** How many rows leave the screen at its top: one per scroll, and all 25 at a clear. */
  function Scrolls(s: Screen, events: seq<Event>): nat
    decreases |events|
  {
    if events == [] then 0
    else match events[0]
      case Char(c) =>
        (if Advanced(s, c).cursor == CELLS then 1 else 0) + Scrolls(Put(s, c), events[1..])
      case Color(fg, bg) => Scrolls(s.(pen := Pen(fg, bg)), events[1..])
      case Clear => ROWS + Scrolls(Cleared(s), events[1..])
  }

  /** The sheet that starts as exactly the given screen. */
  function Started(s: Screen): Sheet {
    SheetData(s.cells, 0, s.cursor, s.pen)
  }

  lemma PrefixOfPrefix(a: seq<Cell>, b: seq<Cell>, m: nat, n: nat)
    requires m <= n <= |a| && n <= |b| && a[..n] == b[..n]
    ensures a[..m] == b[..m]
  {
    assert a[..m] == a[..n][..m] && b[..m] == b[..n][..m];
  }

  /** Over every run of characters, colour changes and clears the screen is the last 25 rows of
      the sheet, the cursors differ by 80 per row that left, and such rows never change again. */
  lemma {:induction false} ScreenIsWindow(p: Sheet, events: seq<Event>)
    ensures Window(SheetAfter(p, events)) == ScreenAfter(Window(p), events)
    ensures SheetAfter(p, events).above == p.above + Scrolls(Window(p), events)
    ensures SheetAfter(p, events).tape[..p.Top()] == p.tape[..p.Top()]
    decreases |events|
  {
    if events == [] {
    } else {
      hide Typed, Put, Advanced, Turned, Cleared;
      match events[0]
      case Char(c) =>
        TypedIsPut(p, c);
        ScreenIsWindow(Typed(p, c), events[1..]);
        PrefixOfPrefix(SheetAfter(p, events).tape, Typed(p, c).tape, p.Top(), Typed(p, c).Top());
      case Color(fg, bg) =>
        assert Window(p.(pen := Pen(fg, bg))) == Window(p).(pen := Pen(fg, bg));
        ScreenIsWindow(p.(pen := Pen(fg, bg)), events[1..]);
      case Clear =>
        TurnedIsCleared(p);
        TurnedAbove(p);
        ScreenIsWindow(Turned(p), events[1..]);
        PrefixOfPrefix(SheetAfter(p, events).tape, Turned(p).tape, p.Top(), Turned(p).Top());
    }
  }

  lemma TurnedAbove(p: Sheet)
    ensures Turned(p).above == p.above + ROWS
  {
  }

  /** From a cleared screen: screen cursor plus 80 times the rows that left is the sheet's cursor. */
  lemma ClearedRun(s: Screen, events: seq<Event>)
    ensures var p := SheetAfter(Started(Cleared(s)), events);
            var r := ScreenAfter(Cleared(s), events);
            var n := Scrolls(Cleared(s), events);
            && p.above == n
            && r.cells == p.tape[COLS * p.above..]
            && r.cursor + COLS * n == p.cursor
  {
    var p := Started(Cleared(s));
    assert Window(p) == Cleared(s);
    ScreenIsWindow(p, events);
  }

  // ---------------------------------------------------------------------- colours

  predicate KeepsPen(events: seq<Event>) {
    forall i :: 0 <= i < |events| ==> !events[i].Color?
  }

  /** Cell `i` is the one `tape` had there, or is in the given colours. */
  predicate KeptOrInked(tape: seq<Cell>, tape': seq<Cell>, fg: byte, bg: byte, i: nat)
    requires i < |tape'|
  {
    (i < |tape| && tape'[i] == tape[i]) || Inked(tape'[i].attr, fg, bg)
  }

  ghost predicate Inks(p: Sheet, q: Sheet) {
    && q.pen == p.pen && |q.tape| >= |p.tape|
    && forall i :: 0 <= i < |q.tape| ==> KeptOrInked(p.tape, q.tape, p.pen.fg, p.pen.bg, i)
  }

  lemma StruckInks(p: Sheet, c: byte, i: nat)
    requires i < |p.tape|
    ensures Struck(p, c).tape[i] == p.tape[i] || Struck(p, c).tape[i].attr == p.pen.Attr()
  {
    hide RowStart, NextTab;
  }

  lemma TypedInks(p: Sheet, c: byte)
    ensures Inks(p, Typed(p, c))
  {
    hide Struck, Inked;
    AttrInked(p.pen);
    var q := Typed(p, c);
    forall i | 0 <= i < |q.tape|
      ensures KeptOrInked(p.tape, q.tape, p.pen.fg, p.pen.bg, i)
    {
      if i < |p.tape| {
        StruckInks(p, c, i);
      }
    }
  }

  lemma TurnedInks(p: Sheet)
    ensures Inks(p, Turned(p))
  {
    hide Inked;
    AttrInked(p.pen);
  }

  lemma InksTwice(p: Sheet, q: Sheet, r: Sheet)
    requires Inks(p, q) && Inks(q, r)
    ensures Inks(p, r)
  {
    hide Inked;
    forall i | 0 <= i < |r.tape|
      ensures KeptOrInked(p.tape, r.tape, p.pen.fg, p.pen.bg, i)
    {
      assert KeptOrInked(q.tape, r.tape, q.pen.fg, q.pen.bg, i);
      assert i < |q.tape| ==> KeptOrInked(p.tape, q.tape, p.pen.fg, p.pen.bg, i);
    }
  }

  lemma {:induction false} RunInks(p: Sheet, events: seq<Event>)
    requires KeepsPen(events)
    ensures Inks(p, SheetAfter(p, events))
    decreases |events|
  {
    if events == [] {
    } else {
      hide Typed, Turned, Inks;
      var p1 := if events[0].Clear? then Turned(p) else Typed(p, events[0].c);
      if events[0].Clear? {
        TurnedInks(p);
      } else {
        TypedInks(p, events[0].c);
      }
      RunInks(p1, events[1..]);
      InksTwice(p, p1, SheetAfter(p, events));
    }
  }

  /** Between colour changes, every cell is either the one that stood 80 cells further down per
      row that left the screen, untouched, or has the current background in the high half of
      its attribute and the current foreground in the low half. */
  lemma RunInksScreen(s: Screen, events: seq<Event>, k: nat)
    requires KeepsPen(events) && k < CELLS
    ensures var r, n := ScreenAfter(s, events), 80 * Scrolls(s, events);
            r.pen == s.pen && ((k + n < 2000 && r.cells[k] == s.cells[k + n]) || Inked(r.cells[k].attr, s.pen.fg, s.pen.bg))
  {
    hide Inked;
    var p := Started(s);
    assert Window(p) == s;
    ScreenIsWindow(p, events);
    RunInks(p, events);
    var q := SheetAfter(p, events);
    assert KeptOrInked(p.tape, q.tape, p.pen.fg, p.pen.bg, q.Top() + k);
  }

  /** After a change to colours `fg` and `bg`, and until the next one, every cell either only
      moved up or has the low bits of `bg` in the high half of its attribute and those of `fg`
      in the low half. */
  lemma RecolouredRun(s: Screen, fg: byte, bg: byte, events: seq<Event>, k: nat)
    requires KeepsPen(events) && k < CELLS
    ensures var run := [Color(fg, bg)] + events;
            var r, n := ScreenAfter(s, run), 80 * Scrolls(s, run);
            (k + n < 2000 && r.cells[k] == s.cells[k + n]) || Inked(r.cells[k].attr, fg, bg)
  {
    hide Inked, KeepsPen;
    assert ([Color(fg, bg)] + events)[1..] == events;
    RunInksScreen(s.(pen := Pen(fg, bg)), events, k);
  }

  // ------------------------------------------------------------------- plain text

  predicate Printable(c: byte) {
    c != NEWLINE && c != RETURN && c != TAB && c != BACKSPACE
  }

  function Typing(text: seq<byte>): seq<Event> {
    seq(|text|, i requires 0 <= i < |text| => Char(text[i]))
  }

  /** The scrolls that `n` printable characters cause on a cleared screen. */
  function ScrollsFor(n: nat): nat {
    if n < CELLS then 0 else n / COLS - (ROWS - 1)
  }

  ghost predicate Shows(p: Sheet, text: seq<byte>) {
    && p.cursor == |text|
    && p.above == ScrollsFor(|text|)
    && (forall i :: 0 <= i < |text| ==> p.tape[i] == Cell(text[i], p.pen.Attr()))
    && (forall i :: |text| <= i < |p.tape| ==> p.tape[i] == Cell(SPACE, p.pen.Attr()))
  }

  lemma {:induction false} TypingShows(p: Sheet, done: seq<byte>, text: seq<byte>)
    requires Shows(p, done) && forall i :: 0 <= i < |text| ==> Printable(text[i])
    ensures Shows(SheetAfter(p, Typing(text)), done + text)
    ensures SheetAfter(p, Typing(text)).pen == p.pen
    decreases |text|
  {
    if text == [] {
      assert done + text == done;
    } else {
      assert Shows(Typed(p, text[0]), done + [text[0]]);
      assert Typing(text)[1..] == Typing(text[1..]);
      assert done + text == (done + [text[0]]) + text[1..];
      TypingShows(Typed(p, text[0]), done + [text[0]], text[1..]);
    }
  }

  /** Printable text of any length on a cleared screen: cell `k` shows character `80 n + k`
      of the text and every cell past its end is blank, `n` being the scrolls it caused. */
  lemma PlainTextLayout(s: Screen, text: seq<byte>)
    requires forall i :: 0 <= i < |text| ==> Printable(text[i])
    ensures var r := ScreenAfter(Cleared(s), Typing(text));
            var n := ScrollsFor(|text|);
            && Scrolls(Cleared(s), Typing(text)) == n
            && r.cursor == |text| - COLS * n
            && forall k :: 0 <= k < CELLS ==>
                 r.cells[k] == Cell(if COLS * n + k < |text| then text[COLS * n + k] else SPACE, s.pen.Attr())
  {
    var p := Started(Cleared(s));
    assert Window(p) == Cleared(s);
    ScreenIsWindow(p, Typing(text));
    TypingShows(p, [], text);
    assert [] + text == text;
  }
}
