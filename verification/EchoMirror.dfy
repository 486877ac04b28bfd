/** The console during a read: the cells before the cursor show the line being typed. */
module EchoMirror {
  import opened Words
  import opened Terminal
  import opened LineEditor
  import opened SystemRead

  /** The cell `k + 1` before the cursor, if there is one, shows the byte `k + 1` from the
      line's end, if there is one. */
  predicate ShowsAt(s: Screen, line: seq<byte>, k: nat) {
    k < |line| && k < s.cursor ==> s.cells[s.cursor - 1 - k].glyph == line[|line| - 1 - k]
  }

  /** As many cells before the cursor as the line and the screen allow show the line's end. */
  ghost predicate Mirrors(s: Screen, line: seq<byte>) {
    forall k: nat :: ShowsAt(s, line, k)
  }

  ghost predicate NoTabGlyph(s: Screen) {
    forall i :: 0 <= i < CELLS ==> s.cells[i].glyph != TAB
  }

  lemma CharMirrors(s: Screen, line: seq<byte>, c: byte)
    requires Mirrors(s, line) && Printable(c)
    ensures Mirrors(Put(s, c), line + [c])
  {
    var t, more := Put(s, c), line + [c];
    forall k: nat
      ensures ShowsAt(t, more, k)
    {
      assert k > 0 ==> ShowsAt(s, line, k - 1);
    }
  }

  lemma EraseMirrors(s: Screen, line: seq<byte>)
    requires Mirrors(s, line) && line != []
    ensures Mirrors(Put(s, BACKSPACE), Init(line))
  {
    forall k: nat
      ensures ShowsAt(Put(s, BACKSPACE), Init(line), k)
    {
      assert ShowsAt(s, line, k + 1);
    }
  }

  lemma TabBreaks(s: Screen, line: seq<byte>)
    requires NoTabGlyph(s)
    ensures !Mirrors(Put(s, TAB), line + [TAB])
  {
    PutNoTabGlyph(s, TAB);
    Alignment(0, s.cursor);
    assert !ShowsAt(Put(s, TAB), line + [TAB], 0);
  }

  lemma PutNoTabGlyph(s: Screen, c: byte)
    requires NoTabGlyph(s)
    ensures NoTabGlyph(Put(s, c))
  {
  }

  lemma {:induction false} RunNoTabGlyph(s: Screen, events: seq<Event>)
    requires NoTabGlyph(s)
    ensures NoTabGlyph(ScreenAfter(s, events))
    decreases |events|
  {
    if events == [] {
    } else {
      match events[0]
      case Char(c) =>
        PutNoTabGlyph(s, c);
        RunNoTabGlyph(Put(s, c), events[1..]);
      case Color(fg, bg) => RunNoTabGlyph(s.(pen := Pen(fg, bg)), events[1..]);
      case Clear => RunNoTabGlyph(Cleared(s), events[1..]);
    }
  }

  function Echoed(s: Screen, line: seq<byte>, c: byte): Screen {
    ScreenAfter(s, Typing(EchoOf(line, c)))
  }

  lemma EchoedPut(s: Screen, line: seq<byte>, c: byte)
    ensures Echoed(s, line, c) == if EchoOf(line, c) == [] then s else Put(s, EchoOf(line, c)[0])
  {
    var e := EchoOf(line, c);
    if e != [] {
      assert Typing(e)[0] == Char(e[0]) && Typing(e)[1..] == [];
      assert ScreenAfter(Put(s, e[0]), []) == Put(s, e[0]);
    }
  }

  /** The mirror holds now and after every byte the read accepts before it ends. */
  ghost predicate AlwaysMirrors(s: Screen, line: seq<byte>, input: seq<byte>, room: nat)
    decreases |input|
  {
    && Mirrors(s, line)
    && (|line| < room && input != [] && !IsDelimiter(input[0]) ==>
          AlwaysMirrors(Echoed(s, line, input[0]), Edited(line, input[0]), input[1..], room))
  }

  /** The keystrokes the read uses include a tab. */
  predicate TabUsed(line: seq<byte>, input: seq<byte>, room: nat)
    decreases |input|
  {
    |line| < room && input != [] && !IsDelimiter(input[0])
    && (input[0] == TAB || TabUsed(Edited(line, input[0]), input[1..], room))
  }

  lemma {:induction false} MirrorFrom(s: Screen, line: seq<byte>, input: seq<byte>, room: nat)
    requires NoTabGlyph(s) && Mirrors(s, line)
    ensures AlwaysMirrors(s, line, input, room) <==> !TabUsed(line, input, room)
    decreases |input|
  {
    hide Mirrors, NoTabGlyph, Put, Echoed;
    if |line| < room && input != [] && !IsDelimiter(input[0]) {
      var c := input[0];
      EchoedPut(s, line, c);
      if c == TAB {
        TabBreaks(s, line);
      } else {
        if EchoOf(line, c) != [] {
          PutNoTabGlyph(s, EchoOf(line, c)[0]);
          if IsErase(c) {
            EraseMirrors(s, line);
          } else {
            CharMirrors(s, line, c);
          }
        }
        MirrorFrom(Echoed(s, line, c), Edited(line, c), input[1..], room);
      }
    }
  }

  lemma {:induction false} TabUsedIsInBody(line: seq<byte>, input: seq<byte>, room: nat)
    ensures var r := Read(line, input, room);
            (r.Line? ==> |r.rest| + Ending(r) <= |input|)
            && (TabUsed(line, input, room) <==> TAB in Body(input, r))
    decreases |input|
  {
    var r := Read(line, input, room);
    if |line| < room && input != [] && !IsDelimiter(input[0]) {
      TabUsedIsInBody(Edited(line, input[0]), input[1..], room);
      assert Body(input, r) == [input[0]] + Body(input[1..], r);
    } else {
      assert Body(input, r) == [];
    }
  }

  /** On any console written since it was cleared, a read keeps its line mirrored before the
      cursor at every moment, through scrolling and erasing, exactly when no tab is typed. */
  lemma EchoMirrorsLine(s: Screen, events: seq<Event>, input: seq<byte>, room: nat)
    ensures var screen := ScreenAfter(Cleared(s), events);
            var r := Read([], input, room);
            (r.Line? ==> |r.rest| + Ending(r) <= |input|)
            && (AlwaysMirrors(screen, [], input, room) <==> TAB !in Body(input, r))
  {
    RunNoTabGlyph(Cleared(s), events);
    MirrorFrom(ScreenAfter(Cleared(s), events), [], input, room);
    TabUsedIsInBody([], input, room);
  }

  /** One tab at the start of a line on a cleared screen: the cell before the cursor is blank. */
  lemma TabHidesLine(s: Screen)
    ensures !AlwaysMirrors(Cleared(s), [], [TAB], 127)
    ensures var t := Echoed(Cleared(s), [], TAB); t.cursor == 8 && t.cells[7].glyph == SPACE
  {
    EchoedPut(Cleared(s), [], TAB);
    MirrorFrom(Cleared(s), [], [TAB], 127);
  }

  // ------------------------------------------------------------- the serial echo

  /** A line of a serial terminal: backspace moves left, anything else overwrites. */
  datatype Tty = Tty(cells: seq<byte>, cursor: nat)

  function TtyPut(t: Tty, c: byte): Tty {
    if c == BACKSPACE then if t.cursor == 0 then t else t.(cursor := t.cursor - 1)
    else if t.cursor < |t.cells| then Tty(t.cells[t.cursor := c], t.cursor + 1)
    else Tty(t.cells + [c], t.cursor + 1)
  }

  function TtyAfter(t: Tty, bytes: seq<byte>): Tty
    decreases |bytes|
  {
    if bytes == [] then t else TtyAfter(TtyPut(t, bytes[0]), bytes[1..])
  }

  /** The line, the cursor after it, and only blanks beyond. */
  ghost predicate TtyShows(t: Tty, line: seq<byte>) {
    && t.cursor == |line| <= |t.cells| && t.cells[..t.cursor] == line
    && forall i :: t.cursor <= i < |t.cells| ==> t.cells[i] == SPACE
  }

  lemma {:induction false} TtyJoins(t: Tty, a: seq<byte>, b: seq<byte>)
    ensures TtyAfter(t, a + b) == TtyAfter(TtyAfter(t, a), b)
    decreases |a|
  {
    if a == [] {
      assert a + b == b;
    } else {
      assert (a + b)[1..] == a[1..] + b;
      TtyJoins(TtyPut(t, a[0]), a[1..], b);
    }
  }

  lemma TtyStep(t: Tty, line: seq<byte>, c: byte)
    requires TtyShows(t, line) && !IsDelimiter(c)
    ensures TtyShows(TtyAfter(t, SerialOf(line, c)), Edited(line, c))
  {
    if !IsErase(c) {
      assert TtyAfter(t, [c]) == TtyPut(t, c);
    } else if line != [] {
      var a := TtyPut(t, BACKSPACE);
      var b := TtyPut(a, SPACE);
      assert [BACKSPACE, SPACE, BACKSPACE][1..] == [SPACE, BACKSPACE] && [SPACE, BACKSPACE][1..] == [BACKSPACE];
      assert TtyAfter(b, [BACKSPACE]) == TtyPut(b, BACKSPACE);
      assert TtyAfter(t, SerialOf(line, c)) == TtyPut(b, BACKSPACE);
      assert TtyPut(b, BACKSPACE).cells == t.cells[|line| - 1 := SPACE];
    }
  }

  /** What the serial line is sent before a delimiter is answered. */
  function SerialBody(line: seq<byte>, input: seq<byte>, room: nat): seq<byte>
    decreases |input|
  {
    if |line| >= room || input == [] || IsDelimiter(input[0]) then []
    else SerialOf(line, input[0]) + SerialBody(Edited(line, input[0]), input[1..], room)
  }

  lemma {:induction false} SerialEchoEnds(line: seq<byte>, input: seq<byte>, room: nat)
    ensures SerialEcho(line, input, room) ==
            SerialBody(line, input, room) + if Ending(Read(line, input, room)) == 1 then [RETURN, NEWLINE] else []
    decreases |input|
  {
    hide SerialOf;
    if |line| < room && input != [] && !IsDelimiter(input[0]) {
      SerialEchoEnds(Edited(line, input[0]), input[1..], room);
    }
  }

  lemma {:induction false} SerialBodyShows(t: Tty, line: seq<byte>, input: seq<byte>, room: nat)
    requires TtyShows(t, line)
    ensures TtyShows(TtyAfter(t, SerialBody(line, input, room)), Read(line, input, room).line)
    decreases |input|
  {
    hide TtyShows, TtyAfter, SerialOf, Edited;
    if |line| < room && input != [] && !IsDelimiter(input[0]) {
      var c := input[0];
      TtyStep(t, line, c);
      SerialBodyShows(TtyAfter(t, SerialOf(line, c)), Edited(line, c), input[1..], room);
      TtyJoins(t, SerialOf(line, c), SerialBody(Edited(line, c), input[1..], room));
    } else {
      TtyNothing(t);
    }
  }

  lemma TtyNothing(t: Tty)
    ensures TtyAfter(t, []) == t
  {
  }

  /** The serial line, too, shows the line being typed: up to the carriage return and line feed
      that answer a delimiter, what was sent leaves exactly the line on the terminal. */
  lemma SerialShowsLine(input: seq<byte>, room: nat)
    ensures var r := Read([], input, room);
            var body := SerialBody([], input, room);
            && SerialEcho([], input, room) == body + (if Ending(r) == 1 then [RETURN, NEWLINE] else [])
            && TtyShows(TtyAfter(Tty([], 0), body), r.line)
  {
    SerialEchoEnds([], input, room);
    SerialBodyShows(Tty([], 0), [], input, room);
  }
}
