/** The canonical line editor of SYS_READ, as functions of the bytes it is given: what one
    read returns, how successive reads share the stream, and what the echo does. */
module LineEditor {
  import opened Words

  predicate IsDelimiter(c: byte) {
    c == NUL || c == NEWLINE || c == RETURN
  }

  predicate IsErase(c: byte) {
    c == BACKSPACE || c == DELETE
  }

  function Init<T>(s: seq<T>): seq<T> {
    if s == [] then [] else s[..|s| - 1]
  }

  /** One byte that does not end the line. */
  function Edited(line: seq<byte>, c: byte): seq<byte> {
    if IsErase(c) then Init(line) else line + [c]
  }

  /** A read in progress has used all its input; a finished one leaves `rest`, and says whether
      a delimiter ended it (and was used up) or the buffer was full. */
  datatype Outcome = Pending(line: seq<byte>) | Line(line: seq<byte>, rest: seq<byte>, delimited: bool)

  function Read(line: seq<byte>, input: seq<byte>, room: nat): Outcome
    decreases |input|
  {
    if |line| >= room then Line(line, input, false)
    else if input == [] then Pending(line)
    else if IsDelimiter(input[0]) then Line(line, input[1..], true)
    else Read(Edited(line, input[0]), input[1..], room)
  }

  // ------------------------------------------------ what the returned line is

  /** Bytes that survive editing, found from the right: a backspace (8) or delete (127) cancels
      the nearest byte to its left not already cancelled. `owed` counts those still to be
      matched. */
  function Survivors(s: seq<byte>, owed: nat): seq<byte> {
    if s == [] then []
    else
      var c := s[|s| - 1];
      if c == 8 || c == 127 then Survivors(Init(s), owed + 1)
      else if owed > 0 then Survivors(Init(s), owed - 1)
      else Survivors(Init(s), 0) + [c]
  }

  /** Left-to-right editing with no limit. */
  function Typeset(s: seq<byte>): seq<byte> {
    if s == [] then [] else Edited(Typeset(Init(s)), s[|s| - 1])
  }

  function Shortened(s: seq<byte>, n: nat): seq<byte> {
    if n <= |s| then s[..|s| - n] else []
  }

  /** The two directions agree: editing keystroke by keystroke leaves the survivors. */
  lemma {:induction false} TypesetIsSurvivors(s: seq<byte>, owed: nat)
    ensures Shortened(Typeset(s), owed) == Survivors(s, owed)
    decreases |s|
  {
    if s == [] {
    } else {
      var c := s[|s| - 1];
      if IsErase(c) {
        TypesetIsSurvivors(Init(s), owed + 1);
      } else if owed > 0 {
        TypesetIsSurvivors(Init(s), owed - 1);
      } else {
        TypesetIsSurvivors(Init(s), 0);
      }
    }
  }

  lemma {:induction false} TypesetAppends(s: seq<byte>, c: byte)
    ensures Typeset(s + [c]) == Edited(Typeset(s), c)
  {
  }

  function Ending(r: Outcome): nat {
    if r.Line? && r.delimited then 1 else 0
  }

  /** A finished read leaves an end piece of its input, after the delimiter if there was one. */
  lemma {:induction false} ReadSplits(line: seq<byte>, input: seq<byte>, room: nat)
    requires Read(line, input, room).Line?
    ensures var r := Read(line, input, room);
            && |r.rest| + Ending(r) <= |input|
            && r.rest == input[|input| - |r.rest|..]
            && (r.delimited ==> IsDelimiter(input[|input| - |r.rest| - 1]))
    decreases |input|
  {
    if |line| < room && !IsDelimiter(input[0]) {
      ReadSplits(Edited(line, input[0]), input[1..], room);
    }
  }

  /** The keystrokes a read used, without the delimiter. */
  function Body(input: seq<byte>, r: Outcome): seq<byte>
    requires r.Line? ==> |r.rest| + Ending(r) <= |input|
  {
    if r.Line? then input[..|input| - |r.rest| - Ending(r)] else input
  }

  /** NUL, line feed and carriage return. */
  predicate Ends(c: byte) {
    c == 0 || c == 10 || c == 13
  }

  /** Keystrokes of one line: none ends it, and no proper prefix already fills the buffer. */
  ghost predicate OneLine(s: seq<byte>, room: nat) {
    && (forall i :: 0 <= i < |s| ==> !Ends(s[i]))
    && (forall k :: 0 <= k < |s| ==> |Survivors(s[..k], 0)| < room)
  }

  lemma OneLineExtends(s: seq<byte>, c: byte, room: nat)
    requires OneLine(s, room) && !IsDelimiter(c) && |Typeset(s)| < room
    ensures OneLine(s + [c], room)
  {
    hide Survivors;
    TypesetIsSurvivors(s, 0);
    forall k | 0 <= k < |s + [c]|
      ensures |Survivors((s + [c])[..k], 0)| < room
    {
      if k < |s| {
        assert (s + [c])[..k] == s[..k];
      } else {
        assert (s + [c])[..k] == s;
      }
    }
  }

  /** `r` is what a read that has already used `done` makes of the whole `done + input`. */
  ghost predicate Explains(r: Outcome, done: seq<byte>, input: seq<byte>, room: nat)
    requires r.Line? ==> |r.rest| + Ending(r) <= |input|
  {
    var all := done + Body(input, r);
    && r.line == Typeset(all)
    && OneLine(all, room)
    && (if r.Line? && !r.delimited then |r.line| >= room else |r.line| < room)
  }

  lemma {:induction false} ReadFollows(done: seq<byte>, input: seq<byte>, room: nat)
    requires OneLine(done, room)
    ensures var r := Read(Typeset(done), input, room);
            (r.Line? ==> |r.rest| + Ending(r) <= |input|) && Explains(r, done, input, room)
    decreases |input|
  {
    hide Typeset, OneLine;
    var line := Typeset(done);
    var r := Read(line, input, room);
    if |line| >= room || input == [] || IsDelimiter(input[0]) {
      assert done + Body(input, r) == done;
    } else {
      var c := input[0];
      TypesetAppends(done, c);
      OneLineExtends(done, c, room);
      ReadFollows(done + [c], input[1..], room);
      assert (done + [c]) + Body(input[1..], r) == done + Body(input, r);
    }
  }

  /** What one key does to a read in progress, by its code: 8 and 127 take back the last byte
      (nothing, on an empty line), 0, 10 and 13 end the line and are used up, any other byte is
      appended. */
  lemma KeyEffect(line: seq<byte>, c: byte, more: seq<byte>, room: nat)
    requires |line| < room
    ensures Read(line, [c] + more, room) ==
            if c == 8 || c == 127 then Read(if line == [] then [] else line[..|line| - 1], more, room)
            else if c == 0 || c == 10 || c == 13 then Line(line, more, true)
            else Read(line + [c], more, room)
  {
    assert ([c] + more)[1..] == more;
  }

  /** So, with the one key as all the input, each effect belongs to its codes alone. */
  lemma KeyExactly(line: seq<byte>, c: byte, room: nat)
    requires line != [] && |line| < room
    ensures var r := Read(line, [c], room);
            && (r.line == line[..|line| - 1] <==> c == 8 || c == 127)
            && (r.Line? && r.delimited <==> c == 0 || c == 10 || c == 13)
            && (r.Line? && r.delimited ==> r.line == line && r.rest == [])
            && (r.line == line + [c] <==> c != 8 && c != 127 && c != 0 && c != 10 && c != 13)
  {
    KeyEffect(line, c, [], room);
    assert [c] + [] == [c];
  }

  /** `line` is one line of the input and `rest` what follows it: it is what survives of the
      keystrokes up to its end, which is either the first of 0, 10 and 13, or the moment at
      which the line fills the buffer. */
  ghost predicate IsLine(input: seq<byte>, line: seq<byte>, rest: seq<byte>, room: nat) {
    exists n: nat :: n <= |input| && EndsAt(input, line, rest, room, n)
  }

  ghost predicate EndsAt(input: seq<byte>, line: seq<byte>, rest: seq<byte>, room: nat, n: nat)
    requires n <= |input|
  {
    && OneLine(input[..n], room) && line == Survivors(input[..n], 0)
    && if |line| >= room then rest == input[n..]
       else n < |input| && Ends(input[n]) && rest == input[n + 1..]
  }

  /** A read from an empty line. Finished or not, the line is what survives of the keystrokes
      it used; they hold no delimiter and no proper prefix of them fills the buffer. A finished
      read used its keystrokes and at most one delimiter, and left the rest of the input; it
      needed no delimiter exactly when the line fills the buffer. */
  lemma ReadMeaning(input: seq<byte>, room: nat)
    requires room > 0
    ensures var r := Read([], input, room);
            && (r.Line? ==>
                  && |r.rest| + Ending(r) <= |input|
                  && r.rest == input[|input| - |r.rest|..]
                  && (r.delimited ==> Ends(input[|input| - |r.rest| - 1])))
            && r.line == Survivors(Body(input, r), 0)
            && OneLine(Body(input, r), room)
            && (if r.Line? && !r.delimited then |r.line| == room else |r.line| < room)
  {
    hide Read, Survivors;
    ReadFollows([], input, room);
    ReadFits([], input, room);
    var r := Read([], input, room);
    if r.Line? {
      ReadSplits([], input, room);
    }
    assert [] + Body(input, r) == Body(input, r);
    TypesetIsSurvivors(Body(input, r), 0);
  }

  lemma OneLineAt(body: seq<byte>, k: nat, room: nat)
    requires k < |body| && OneLine(body, room)
    ensures |Typeset(body[..k])| < room && !IsDelimiter(body[k])
    ensures Typeset(body[..k + 1]) == Edited(Typeset(body[..k]), body[k])
  {
    hide Typeset, Survivors;
    TypesetIsSurvivors(body[..k], 0);
    TypesetAppends(body[..k], body[k]);
    assert body[..k] + [body[k]] == body[..k + 1];
  }

  lemma {:induction false} ReadReaches(body: seq<byte>, k: nat, tail: seq<byte>, room: nat)
    requires k <= |body| && OneLine(body, room)
    ensures Read(Typeset(body[..k]), body[k..] + tail, room) == Read(Typeset(body), tail, room)
    decreases |body| - k
  {
    hide Typeset, OneLine;
    if k == |body| {
      assert body[..k] == body && body[k..] + tail == tail;
    } else {
      OneLineAt(body, k, room);
      assert (body[k..] + tail)[1..] == body[k + 1..] + tail;
      ReadReaches(body, k + 1, tail, room);
    }
  }

  /** Conversely, keystrokes of one line followed by a delimiter, or filling the buffer, are
      read as exactly that line, whatever follows. */
  lemma ReadDetermined(body: seq<byte>, delimiter: byte, tail: seq<byte>, room: nat)
    requires OneLine(body, room)
    ensures Ends(delimiter) && |Survivors(body, 0)| < room ==>
              Read([], body + [delimiter] + tail, room) == Line(Survivors(body, 0), tail, true)
    ensures |Survivors(body, 0)| >= room ==>
              Read([], body + tail, room) == Line(Survivors(body, 0), tail, false)
  {
    TypesetIsSurvivors(body, 0);
    ReadReaches(body, 0, tail, room);
    ReadReaches(body, 0, [delimiter] + tail, room);
    assert body[0..] == body && body[..0] == [];
    assert body + [delimiter] + tail == body + ([delimiter] + tail);
    assert ([delimiter] + tail)[1..] == tail;
  }

  lemma ReadIsLine(input: seq<byte>, room: nat)
    requires room > 0 && Read([], input, room).Line?
    ensures var r := Read([], input, room); IsLine(input, r.line, r.rest, room) && (r.delimited <==> |r.line| < room)
  {
    hide Survivors, OneLine, Read;
    ReadMeaning(input, room);
    var r := Read([], input, room);
    var n := |Body(input, r)|;
    assert input[..n] == Body(input, r);
    assert EndsAt(input, r.line, r.rest, room, n);
  }

  lemma LineIsRead(input: seq<byte>, line: seq<byte>, rest: seq<byte>, room: nat, n: nat)
    requires n <= |input| && EndsAt(input, line, rest, room, n)
    ensures Read([], input, room) == Line(line, rest, |line| < room)
  {
    hide Survivors, OneLine, Read;
    if |line| >= room {
      ReadDetermined(input[..n], 0, rest, room);
      assert input[..n] + rest == input;
    } else {
      ReadDetermined(input[..n], input[n], rest, room);
      assert input[..n] + [input[n]] + rest == input;
    }
  }

  /** A read finishes with a line exactly when it is one line of the input. */
  lemma ReadExactly(input: seq<byte>, room: nat, line: seq<byte>, rest: seq<byte>)
    requires room > 0
    ensures IsLine(input, line, rest, room) <==> Read([], input, room) == Line(line, rest, |line| < room)
  {
    hide Read, EndsAt;
    if IsLine(input, line, rest, room) {
      var n: nat :| n <= |input| && EndsAt(input, line, rest, room, n);
      LineIsRead(input, line, rest, room, n);
    }
    if Read([], input, room).Line? {
      ReadIsLine(input, room);
    }
  }

  lemma {:induction false} ReadFits(line: seq<byte>, input: seq<byte>, room: nat)
    requires |line| <= room
    ensures |Read(line, input, room).line| <= room
    decreases |input|
  {
    if |line| < room && input != [] && !IsDelimiter(input[0]) {
      ReadFits(Edited(line, input[0]), input[1..], room);
    }
  }

  // -------------------------------------------------------- successive reads

  /** Reads with the given rooms, one after another, on one stream; `Waiting` while any of them waits. */
  datatype Session = Waiting | Lines(lines: seq<seq<byte>>, rest: seq<byte>)

  function Reads(input: seq<byte>, rooms: seq<nat>): Session
    decreases |rooms|
  {
    if rooms == [] then Lines([], input)
    else match Read([], input, rooms[0])
      case Pending(_) => Waiting
      case Line(line, rest, _) =>
        match Reads(rest, rooms[1..])
        case Waiting => Waiting
        case Lines(lines, last) => Lines([line] + lines, last)
  }

  lemma {:induction false} MoreInput(line: seq<byte>, input: seq<byte>, more: seq<byte>, room: nat)
    requires Read(line, input, room).Line?
    ensures var r := Read(line, input, room);
            Read(line, input + more, room) == Line(r.line, r.rest + more, r.delimited)
    decreases |input|
  {
    if |line| < room && input != [] {
      assert (input + more)[1..] == input[1..] + more;
      if !IsDelimiter(input[0]) {
        MoreInput(Edited(line, input[0]), input[1..], more, room);
      }
    }
  }

  /** Lines already read do not depend on what is typed later. */
  lemma {:induction false} ReadsMoreInput(input: seq<byte>, more: seq<byte>, rooms: seq<nat>)
    requires Reads(input, rooms).Lines?
    ensures Reads(input + more, rooms) == Lines(Reads(input, rooms).lines, Reads(input, rooms).rest + more)
    decreases |rooms|
  {
    if rooms == [] {
    } else {
      MoreInput([], input, more, rooms[0]);
      ReadsMoreInput(Read([], input, rooms[0]).rest, more, rooms[1..]);
    }
  }

  /** The parts one after another, then the rest. */
  function Strung(parts: seq<seq<byte>>, rest: seq<byte>): seq<byte> {
    if parts == [] then rest else parts[0] + Strung(parts[1..], rest)
  }

  function Used(input: seq<byte>, rooms: seq<nat>): seq<seq<byte>>
    requires Reads(input, rooms).Lines?
    decreases |rooms|
  {
    if rooms == [] then []
    else
      var r := Read([], input, rooms[0]);
      ReadSplits([], input, rooms[0]);
      [input[..|input| - |r.rest|]] + Used(r.rest, rooms[1..])
  }

  /** Successive reads cut the stream into consecutive parts, one per line, and leave the rest. */
  lemma {:induction false} ReadsPartition(input: seq<byte>, rooms: seq<nat>)
    requires Reads(input, rooms).Lines?
    ensures Strung(Used(input, rooms), Reads(input, rooms).rest) == input
    ensures |Used(input, rooms)| == |Reads(input, rooms).lines| == |rooms|
    decreases |rooms|
  {
    if rooms == [] {
    } else {
      hide Read;
      var r := Read([], input, rooms[0]);
      ReadSplits([], input, rooms[0]);
      ReadsPartition(r.rest, rooms[1..]);
      assert Used(input, rooms)[1..] == Used(r.rest, rooms[1..]);
    }
  }
}
