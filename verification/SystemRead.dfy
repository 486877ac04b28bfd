/** SYS_READ: the loop that gathers a line into the user's buffer and echoes it on the
    console and the serial line. */
module SystemRead {
  import opened Words
  import opened Terminal
  import opened LineEditor
  import Console

  /** What the console is sent for one byte that does not end the line. */
  function EchoOf(line: seq<byte>, c: byte): seq<byte> {
    if !IsErase(c) then [c] else if line == [] then [] else [BACKSPACE]
  }

  function SerialOf(line: seq<byte>, c: byte): seq<byte> {
    if !IsErase(c) then [c] else if line == [] then [] else [BACKSPACE, SPACE, BACKSPACE]
  }

  /** What the console is sent during a read. */
  function Echo(line: seq<byte>, input: seq<byte>, room: nat): seq<byte>
    decreases |input|
  {
    if |line| >= room || input == [] then []
    else if IsDelimiter(input[0]) then [NEWLINE]
    else EchoOf(line, input[0]) + Echo(Edited(line, input[0]), input[1..], room)
  }

  /** What the serial line is sent during a read. */
  function SerialEcho(line: seq<byte>, input: seq<byte>, room: nat): seq<byte>
    decreases |input|
  {
    if |line| >= room || input == [] then []
    else if IsDelimiter(input[0]) then [RETURN, NEWLINE]
    else SerialOf(line, input[0]) + SerialEcho(Edited(line, input[0]), input[1..], room)
  }

  datatype Effect = Effect(screen: Screen, serial: seq<byte>, outcome: Outcome)

  /** Everything a read does, from a point where `line` has been gathered and `sent` sent. */
  function ReadEffect(screen: Screen, sent: seq<byte>, line: seq<byte>, input: seq<byte>, room: nat): Effect {
    Effect(ScreenAfter(screen, Typing(Echo(line, input, room))),
           sent + SerialEcho(line, input, room),
           Read(line, input, room))
  }

  lemma {:induction false} TypingJoins(s: Screen, a: seq<byte>, b: seq<byte>)
    ensures ScreenAfter(s, Typing(a + b)) == ScreenAfter(ScreenAfter(s, Typing(a)), Typing(b))
    decreases |a|
  {
    if a == [] {
      assert a + b == b;
    } else {
      assert Typing(a + b)[1..] == Typing(a[1..] + b) by {
        assert (a + b)[1..] == a[1..] + b;
      }
      assert Typing(a)[1..] == Typing(a[1..]);
      TypingJoins(Put(s, a[0]), a[1..], b);
    }
  }

  lemma EffectStep(screen: Screen, sent: seq<byte>, line: seq<byte>, c: byte, more: seq<byte>, room: nat)
    requires |line| < room && !IsDelimiter(c)
    ensures ReadEffect(screen, sent, line, [c] + more, room) ==
            ReadEffect(ScreenAfter(screen, Typing(EchoOf(line, c))), sent + SerialOf(line, c), Edited(line, c), more, room)
  {
    hide ScreenAfter;
    assert ([c] + more)[1..] == more;
    TypingJoins(screen, EchoOf(line, c), Echo(Edited(line, c), more, room));
  }

  lemma EffectIgnored(screen: Screen, sent: seq<byte>, c: byte, more: seq<byte>, room: nat)
    requires 0 < room && IsErase(c)
    ensures ReadEffect(screen, sent, [], [c] + more, room) == ReadEffect(screen, sent, [], more, room)
  {
    EffectStep(screen, sent, [], c, more, room);
    assert sent + [] == sent;
  }

  lemma EffectEnd(screen: Screen, sent: seq<byte>, line: seq<byte>, c: byte, more: seq<byte>, room: nat)
    requires |line| < room && IsDelimiter(c)
    ensures ReadEffect(screen, sent, line, [c] + more, room) ==
            Effect(ScreenAfter(screen, Typing([NEWLINE])), sent + [RETURN, NEWLINE], Line(line, more, true))
  {
  }

  lemma EffectIdle(screen: Screen, sent: seq<byte>, line: seq<byte>, input: seq<byte>, room: nat)
    requires |line| >= room || input == []
    ensures ReadEffect(screen, sent, line, input, room) ==
            Effect(screen, sent, if |line| >= room then Line(line, input, false) else Pending(line))
  {
  }

  /** What one key does to a read in progress, by its code. 8 and 127 take back the last byte,
      sending the console a backspace and the serial line backspace, blank, backspace, and do
      nothing on an empty line; 0, 10 and 13 end the line, sending a line feed, and carriage
      return and line feed; any other byte is appended and sent to both. */
  lemma KeyEffects(screen: Screen, sent: seq<byte>, line: seq<byte>, c: byte, more: seq<byte>, room: nat)
    requires |line| < room
    ensures ReadEffect(screen, sent, line, [c] + more, room) ==
            if c == 8 || c == 127 then
              if line == [] then ReadEffect(screen, sent, [], more, room)
              else ReadEffect(Put(screen, 8), sent + [8, 32, 8], line[..|line| - 1], more, room)
            else if c == 0 || c == 10 || c == 13 then
              Effect(Put(screen, 10), sent + [13, 10], Line(line, more, true))
            else ReadEffect(Put(screen, c), sent + [c], line + [c], more, room)
  {
    hide ReadEffect, Put;
    TypingOne(screen, 8);
    TypingOne(screen, 10);
    TypingOne(screen, c);
    if c == 8 || c == 127 {
      if line == [] {
        EffectIgnored(screen, sent, c, more, room);
      } else {
        EffectStep(screen, sent, line, c, more, room);
      }
    } else if c == 0 || c == 10 || c == 13 {
      EffectEnd(screen, sent, line, c, more, room);
    } else {
      EffectStep(screen, sent, line, c, more, room);
    }
  }

  lemma TypingOne(screen: Screen, c: byte)
    ensures ScreenAfter(screen, Typing([c])) == Put(screen, c)
  {
    assert Typing([c])[1..] == [];
    assert ScreenAfter(Put(screen, c), []) == Put(screen, c);
  }

  predicate PollResult(c: int) {
    -1 <= c < 256
  }

  /** The whole branch. `polls` are the results of asking the keyboard, then the serial port;
      running out of them leaves the call waiting for an interrupt. */
  method SysRead(console: Console.Framebuffer, fd: u32, buf: array?<byte>, maxCount: u32, polls: seq<int>)
    returns (eax: u32, serial: seq<byte>, rest: seq<int>, finished: bool)
    requires console.Valid() && buf != console.fb
    requires buf != null ==> maxCount <= buf.Length
    requires forall i :: 0 <= i < |polls| ==> PollResult(polls[i])
    modifies console, console.fb, if buf == null then {} else {buf}
    ensures console.Valid()
    ensures fd != 0 || buf == null || maxCount <= 1 ==>
              finished && console.View() == old(console.View()) && rest == polls && serial == []
    ensures fd != 0 ==> eax == TWO32 - 1 && (buf != null ==> buf[..] == old(buf[..]))
    ensures fd == 0 && (buf == null || maxCount <= 1) ==> eax == 0
    ensures fd == 0 && buf != null && maxCount == 1 ==> buf[0] == NUL
    ensures buf != null ==> forall j :: maxCount <= j < buf.Length ==> buf[j] == old(buf[j])
    ensures fd == 0 && buf != null && maxCount >= 2 ==>
              var r := Read([], Bytes(polls), maxCount - 1);
              && finished == r.Line?
              && console.View() == ScreenAfter(old(console.View()), Typing(Echo([], Bytes(polls), maxCount - 1)))
              && serial == SerialEcho([], Bytes(polls), maxCount - 1)
              && (finished ==> Bytes(rest) == r.rest && eax == |r.line| < maxCount
                               && buf[..eax] == r.line && buf[eax] == NUL)
    ensures fd == 0 && buf != null && maxCount >= 2 && finished ==>
              IsLine(Bytes(polls), buf[..eax], Bytes(rest), maxCount - 1)
  {
    hide IsLine, Read, Echo, SerialEcho, Bytes, ScreenAfter, Typing, PollResult;
    eax, serial, rest, finished := 0, [], polls, true;
    if fd != 0 {
      eax := TWO32 - 1;
      return;
    }
    if buf == null || maxCount <= 1 {
      if buf != null && maxCount == 1 {
        buf[0] := NUL;
      }
      return;
    }
    eax, serial, rest, finished := Gather(console, buf, maxCount - 1, polls);
    if finished {
      buf[eax] := NUL;
      ReadIsLine(Bytes(polls), maxCount - 1);
    }
  }

  /** The loop of the read; `buf[..idx]` is the line so far. */
  method Gather(console: Console.Framebuffer, buf: array<byte>, room: nat, polls: seq<int>)
    returns (idx: u32, serial: seq<byte>, rest: seq<int>, finished: bool)
    requires console.Valid() && buf != console.fb && 0 < room < buf.Length && room < TWO32
    requires forall i :: 0 <= i < |polls| ==> PollResult(polls[i])
    modifies console, console.fb, buf
    ensures console.Valid() && idx <= room
    ensures ReadEffect(old(console.View()), [], [], Bytes(polls), room) ==
            Effect(console.View(), serial,
                   if finished then Line(buf[..idx], Bytes(rest), idx < room) else Pending(buf[..idx]))
    ensures forall j :: room < j < buf.Length ==> buf[j] == old(buf[j])
  {
    hide ReadEffect, Typing;
    var i := 0;
    idx, serial := 0, [];
    ghost var line := [];
    assert polls[0..] == polls;
    while idx < room
      invariant 0 <= i <= |polls| && idx == |line| <= room
      invariant console.Valid()
      invariant buf[..idx] == line
      invariant ReadEffect(console.View(), serial, line, Bytes(polls[i..]), room)
                == ReadEffect(old(console.View()), [], [], Bytes(polls), room)
      invariant forall j :: room < j < buf.Length ==> buf[j] == old(buf[j])
      decreases |polls| - i
    {
      if i == |polls| {
        EffectIdle(console.View(), serial, line, [], room);
        return idx, serial, [], false;
      }
      var c := polls[i];
      BytesSplit(polls, i);
      i := i + 1;
      if c == -1 {
        continue;
      }
      if IsDelimiter(c) {
        EffectEnd(console.View(), serial, line, c, Bytes(polls[i..]), room);
        var _ := console.Write([NEWLINE]);
        serial := serial + [RETURN, NEWLINE];
        return idx, serial, polls[i..], true;
      }
      if IsErase(c) {
        if idx > 0 {
          EffectStep(console.View(), serial, line, c, Bytes(polls[i..]), room);
          idx := idx - 1;
          line := line[..idx];
          var _ := console.Write([BACKSPACE]);
          serial := serial + [BACKSPACE, SPACE, BACKSPACE];
        } else {
          EffectIgnored(console.View(), serial, c, Bytes(polls[i..]), room);
        }
        continue;
      }
      EffectStep(console.View(), serial, line, c, Bytes(polls[i..]), room);
      buf[idx] := c;
      idx := idx + 1;
      line := line + [c];
      var _ := console.Write([c]);
      serial := serial + [c];
    }
    EffectIdle(console.View(), serial, line, Bytes(polls[i..]), room);
    rest, finished := polls[i..], true;
  }

  lemma BytesSplit(polls: seq<int>, i: nat)
    requires i < |polls| && PollResult(polls[i])
    ensures Bytes(polls[i..]) == if polls[i] == -1 then Bytes(polls[i + 1..]) else [polls[i]] + Bytes(polls[i + 1..])
  {
  }
}
