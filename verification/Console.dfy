/** The VGA text console driver: 4000 bytes of video memory, a cursor and two colours,
    changed in place. */
module Console {
  import opened Words
  import opened Terminal

  const BYTES: nat := 4000

  /** Video memory as cells: a character byte and an attribute byte each. */
  function CellsOf(b: seq<byte>): (cells: seq<Cell>)
    requires |b| == BYTES
    ensures |cells| == CELLS
    ensures forall i :: 0 <= i < CELLS ==> cells[i] == Cell(b[2 * i], b[2 * i + 1])
  {
    seq(CELLS, i requires 0 <= i < CELLS => Cell(b[2 * i], b[2 * i + 1]))
  }

  /** The byte that a blank cell has at offset `j`. */
  function BlankByte(j: nat, pen: Pen): byte {
    if j % 2 == 0 then SPACE else pen.Attr()
  }

  /** The two bytes of cell `k` either stood `rows` rows further down, or carry the colours. */
  predicate MovedOrInked(b: seq<byte>, b': seq<byte>, rows: nat, fg: byte, bg: byte, k: nat)
    requires |b| == |b'| == BYTES && k < CELLS
  {
    || Inked(b'[2 * k + 1], fg, bg)
    || var j := k + 80 * rows; j < 2000 && b'[2 * k] == b[2 * j] && b'[2 * k + 1] == b[2 * j + 1]
  }

  lemma StoreCell(b: seq<byte>, offset: nat, cell: Cell)
    requires |b| == BYTES && offset % 2 == 0 && offset < BYTES
    ensures CellsOf(b[offset := cell.glyph][offset + 1 := cell.attr]) == CellsOf(b)[offset / 2 := cell]
  {
  }

  lemma BlankCells(b: seq<byte>, pen: Pen)
    requires |b| == BYTES && forall j :: 0 <= j < BYTES ==> b[j] == BlankByte(j, pen)
    ensures CellsOf(b) == Blanks(CELLS, pen)
  {
  }

  lemma ShiftCells(b: seq<byte>, b': seq<byte>, pen: Pen)
    requires |b| == |b'| == BYTES
    requires forall j :: 0 <= j < BYTES ==> b'[j] == if j < 3840 then b[j + 160] else BlankByte(j, pen)
    ensures CellsOf(b') == CellsOf(b)[COLS..] + Blanks(COLS, pen)
  {
  }

  /** The casts back to 16 bits change no cursor position. */
  lemma CursorCasts(k: nat)
    requires k < CELLS
    ensures (k / COLS + 1) * COLS % 65536 == RowStart(k) + COLS <= CELLS
    ensures k / COLS * COLS % 65536 == RowStart(k) < CELLS
    ensures (k + 8) / 8 * 8 % 65536 == NextTab(k) <= CELLS
  {
  }

  class Framebuffer {
    const fb: array<byte>
    var cursorPos: nat
    var currentFg: byte
    var currentBg: byte

    ghost predicate Valid()
      reads this
    {
      fb.Length == BYTES && cursorPos < CELLS
    }

    /** Video memory, cursor and colours as Terminal sees them. */
    ghost function Raw(): ScreenData
      requires fb.Length == BYTES
      reads this, fb
    {
      ScreenData(CellsOf(fb[..]), cursorPos, Pen(currentFg, currentBg))
    }

    ghost function View(): Screen
      requires Valid()
      reads this, fb
    {
      Raw()
    }

    constructor (video: array<byte>)
      requires video.Length == BYTES
      ensures Valid() && fb == video
      ensures cursorPos == 0 && currentFg == 15 && currentBg == 0
    {
      fb := video;
      cursorPos := 0;
      currentFg := 15;
      currentBg := 0;
    }

    /** Writes the two bytes of the cell at byte offset `offset`. */
    method WriteCell(offset: nat, c: byte, fg: byte, bg: byte)
      requires fb.Length == BYTES && offset % 2 == 0 && offset < BYTES
      modifies fb
      ensures Raw() == old(Raw()).(cells := old(Raw()).cells[offset / 2 := Cell(c, Pen(fg, bg).Attr())])
      ensures fb[offset] == c && Inked(fb[offset + 1], fg, bg)
    {
      hide CellsOf;
      ghost var was: seq<byte> := fb[..];
      ghost var cell := Cell(c, Pen(fg, bg).Attr());
      fb[offset] := c;
      fb[offset + 1] := bg % 16 * 16 + fg % 16;
      StoreCell(was, offset, cell);
      assert fb[..] == was[offset := cell.glyph][offset + 1 := cell.attr];
    }

    /** Blanks the cells from byte offset `from` to the end of the screen. */
    method BlankFrom(from: nat)
      requires fb.Length == BYTES && from % 2 == 0 && from <= BYTES
      modifies fb
      ensures forall j :: 0 <= j < BYTES ==>
                fb[j] == if j < from then old(fb[j]) else BlankByte(j, Pen(currentFg, currentBg))
      ensures forall k :: from <= 2 * k < BYTES ==> fb[2 * k] == 32 && Inked(fb[2 * k + 1], currentFg, currentBg)
    {
      var i := from;
      while i < BYTES
        invariant from <= i <= BYTES && i % 2 == 0
        invariant forall j :: 0 <= j < BYTES ==>
                    fb[j] == if from <= j < i then BlankByte(j, Pen(currentFg, currentBg)) else old(fb[j])
      {
        fb[i] := SPACE;
        fb[i + 1] := currentBg % 16 * 16 + currentFg % 16;
        i := i + 2;
      }
      AttrInked(Pen(currentFg, currentBg));
    }

    /** The ascending byte-by-byte copy amounts to moving every row up at once. */
    method ShiftUp()
      requires fb.Length == BYTES
      modifies fb
      ensures forall j :: 0 <= j < BYTES ==> fb[j] == if j < 3840 then old(fb[j + 160]) else old(fb[j])
    {
      var moveBytes := (ROWS - 1) * COLS * 2;
      var i := 0;
      while i < moveBytes
        invariant 0 <= i <= moveBytes
        invariant forall j :: 0 <= j < i ==> fb[j] == old(fb[j + 160])
        invariant forall j :: i <= j < BYTES ==> fb[j] == old(fb[j])
      {
        fb[i] := fb[i + COLS * 2];
        i := i + 1;
      }
    }

    method Scroll()
      requires fb.Length == BYTES && cursorPos == CELLS
      modifies this, fb
      ensures Valid() && View() == Scrolled(old(Raw()))
    {
      hide CellsOf;
      ghost var was := fb[..];
      ShiftUp();
      BlankFrom((ROWS - 1) * COLS * 2);
      cursorPos := (ROWS - 1) * COLS;
      ShiftCells(was, fb[..], Pen(currentFg, currentBg));
    }

    method Clear()
      requires fb.Length == BYTES
      modifies this, fb
      ensures Valid()
      ensures View() == ScreenData(Blanks(CELLS, old(Raw()).pen), 0, old(Raw()).pen)
    {
      hide CellsOf;
      BlankFrom(0);
      cursorPos := 0;
      BlankCells(fb[..], Pen(currentFg, currentBg));
    }

    method SetColor(fg: byte, bg: byte)
      requires Valid()
      modifies this
      ensures Valid() && View() == old(View()).(pen := Pen(fg, bg))
    {
      currentFg := fg;
      currentBg := bg;
    }

    /** The branches of `fb_put_char`, up to the scroll test. */
    method Advance(c: byte)
      requires Valid()
      modifies this, fb
      ensures Raw() == Advanced(old(View()), c)
    {
      hide CellsOf, RowStart, NextTab;
      CursorCasts(cursorPos);
      if c == NEWLINE {
        cursorPos := (cursorPos / COLS + 1) * COLS % 65536;
      } else if c == RETURN {
        cursorPos := cursorPos / COLS * COLS % 65536;
      } else if c == TAB {
        cursorPos := (cursorPos + 8) / 8 * 8 % 65536;
      } else if c == BACKSPACE {
        if cursorPos > 0 {
          cursorPos := cursorPos - 1;
          WriteCell(cursorPos * 2, SPACE, currentFg, currentBg);
        }
      } else {
        WriteCell(cursorPos * 2, c, currentFg, currentBg);
        cursorPos := cursorPos + 1;
      }
    }

    method PutChar(c: byte)
      requires Valid()
      modifies this, fb
      ensures Valid() && View() == Put(old(View()), c)
    {
      hide Advanced, Scrolled, CellsOf;
      Advance(c);
      if cursorPos >= COLS * ROWS {
        Scroll();
      }
    }

    /** `fb_write`: the characters one after another. The attribute byte of every cell written or
        blanked on the way holds the current colours; the others only moved up. */
    method Write(buf: seq<byte>) returns (len: nat)
      requires Valid()
      modifies this, fb
      ensures Valid() && View() == ScreenAfter(old(View()), Typing(buf))
      ensures len == |buf| && currentFg == old(currentFg) && currentBg == old(currentBg)
      ensures forall k :: 0 <= k < CELLS ==>
                MovedOrInked(old(fb[..]), fb[..], Scrolls(old(View()), Typing(buf)), currentFg, currentBg, k)
    {
      hide CellsOf, Put, Inked;
      var i := 0;
      while i < |buf|
        invariant 0 <= i <= |buf|
        invariant Valid()
        invariant ScreenAfter(View(), Typing(buf[i..])) == ScreenAfter(old(View()), Typing(buf))
      {
        assert Typing(buf[i..])[1..] == Typing(buf[i + 1..]);
        PutChar(buf[i]);
        i := i + 1;
      }
      len := |buf|;
      assert Typing(buf[i..]) == [] && View() == ScreenAfter(old(View()), Typing(buf));
      RunInksScreen(old(View()), Typing(buf), 0);
      forall k | 0 <= k < CELLS
        ensures MovedOrInked(old(fb[..]), fb[..], Scrolls(old(View()), Typing(buf)), currentFg, currentBg, k)
      {
        RunInksScreen(old(View()), Typing(buf), k);
        assert View().cells[k] == Cell(fb[2 * k], fb[2 * k + 1]);
      }
    }
  }
}
