/** From key presses to lines: scancode interrupts fall between any two statements of the
    reader, and SYS_READ edits what the reader returns. */
module InputPipeline {
  import opened Words
  import opened RingProtocol
  import opened Keyboard
  import opened LineEditor

  /** A scancode interrupt, or one statement of `keyboard_getchar`. */
  datatype Event = Key(code: byte) | Statement

  datatype Pipe = Pipe(shift: bool, state: State)

  function AfterEvent(p: Pipe, e: Event): Pipe {
    match e
    case Key(code) =>
      Pipe(ShiftNext(p.shift, code),
           if Typed(p.shift, code) == [] then p.state else AfterPut(p.state, Typed(p.shift, code)[0]))
    case Statement => p.(state := AfterReader(p.state))
  }

  function AfterEvents(p: Pipe, events: seq<Event>): Pipe {
    if events == [] then p else AfterEvent(AfterEvents(p, events[..|events| - 1]), events[|events| - 1])
  }

  function Boot(slots: seq<byte>): Pipe
    requires |slots| == SIZE
  {
    Pipe(false, Start(slots))
  }

  /** A key event does to shift flag and ring what the driver's interrupt handler does. */
  lemma KeyIsInterrupt(p: Pipe, code: byte)
    ensures AfterEvent(p, Key(code)).shift == ShiftNext(p.shift, code)
    ensures AfterEvent(p, Key(code)).state.ring == KeyRing(p.shift, p.state.ring, code)
  {
  }

  function Keys(events: seq<Event>): seq<byte> {
    if events == [] then []
    else
      var e := events[|events| - 1];
      Keys(events[..|events| - 1]) + if e.Key? then [e.code] else []
  }

  /** The event is not a key that types something while the ring is full. */
  predicate HasRoom(p: Pipe, e: Event) {
    e.Key? && Typed(p.shift, e.code) != [] ==> p.state.ring.count < SIZE
  }

  predicate NeverFull(p: Pipe, events: seq<Event>) {
    events == [] || (NeverFull(p, events[..|events| - 1])
                     && HasRoom(AfterEvents(p, events[..|events| - 1]), events[|events| - 1]))
  }

  lemma EventKeepsInv(p: Pipe, e: Event)
    requires Inv(p.state)
    ensures Inv(AfterEvent(p, e).state)
    ensures AfterEvent(p, e).state.accepted ==
            p.state.accepted + if e.Key? && HasRoom(p, e) then Typed(p.shift, e.code) else []
    ensures e.Statement? ==> AfterEvent(p, e).shift == p.shift
  {
    hide Queue, Bytes, Typed, Inv;
    match e
    case Key(code) =>
      if Typed(p.shift, code) != [] {
        assert Typed(p.shift, code) == [Typed(p.shift, code)[0]];
        PutRefines(p.state, Typed(p.shift, code)[0]);
      }
    case Statement =>
      ReaderRefines(p.state);
  }

  lemma KeysStep(init: seq<Event>, e: Event)
    ensures var k, k' := Keys(init), Keys(init + [e]);
            if e.Key? then
              && Decoded(false, k') == Decoded(false, k) + Typed(ShiftAfter(false, k), e.code)
              && ShiftAfter(false, k') == ShiftNext(ShiftAfter(false, k), e.code)
            else k' == k
  {
  }

  lemma AppendCompare(seen: seq<byte>, text: seq<byte>, more: seq<byte>, fits: bool)
    requires seen == text || |seen| < |text|
    requires !fits ==> more != []
    ensures var seen' := seen + if fits then more else [];
            && (seen' == text + more <==> seen == text && fits)
            && (seen' == text + more || |seen'| < |text + more|)
  {
  }

  lemma {:induction false} AcceptedIsTyped(slots: seq<byte>, events: seq<Event>)
    requires |slots| == SIZE
    ensures var p, text := AfterEvents(Boot(slots), events), Decoded(false, Keys(events));
            && Inv(p.state)
            && p.shift == ShiftAfter(false, Keys(events))
            && (p.state.accepted == text <==> NeverFull(Boot(slots), events))
            && (p.state.accepted == text || |p.state.accepted| < |text|)
    decreases |events|
  {
    if events == [] {
      StartInv(slots);
    } else {
      hide Inv, Typed, ShiftNext, Decoded, ShiftAfter, Keys, AfterReader;
      var init, e := events[..|events| - 1], events[|events| - 1];
      assert init + [e] == events;
      AcceptedIsTyped(slots, init);
      var p := AfterEvents(Boot(slots), init);
      EventKeepsInv(p, e);
      KeysStep(init, e);
      if e.Key? {
        AppendCompare(p.state.accepted, Decoded(false, Keys(init)), Typed(p.shift, e.code), HasRoom(p, e));
      } else {
        assert p.state.accepted + [] == p.state.accepted;
      }
    }
  }

  /** The bytes the reader has returned, the one it is returning and those still queued are,
      in order, the text typed, exactly when the ring was never full at a key press; otherwise
      they are fewer. This holds wherever between the reader's statements the keys fall. */
  lemma TypedIsDelivered(slots: seq<byte>, events: seq<Event>)
    requires |slots| == SIZE
    ensures var p, text := AfterEvents(Boot(slots), events), Decoded(false, Keys(events));
            var seen := Bytes(p.state.results) + InFlight(p.state) + Queue(p.state);
            && p.shift == ShiftAfter(false, Keys(events))
            && (seen == text <==> NeverFull(Boot(slots), events))
            && (seen == text || |seen| < |text|)
  {
    AcceptedIsTyped(slots, events);
  }

  /** Wherever between the reader's statements the keys fall, and however many polls came back
      empty, the lines that successive reads return are the lines the typed text edits to. */
  lemma KeystrokesToLines(slots: seq<byte>, events: seq<Event>, rooms: seq<nat>)
    requires |slots| == SIZE && NeverFull(Boot(slots), events)
    requires Reads(Bytes(AfterEvents(Boot(slots), events).state.results), rooms).Lines?
    ensures Reads(Decoded(false, Keys(events)), rooms).Lines?
    ensures Reads(Bytes(AfterEvents(Boot(slots), events).state.results), rooms).lines
            == Reads(Decoded(false, Keys(events)), rooms).lines
  {
    hide Reads, AfterEvents, Queue, Bytes, InFlight, Decoded, Keys, NeverFull, ShiftAfter;
    TypedIsDelivered(slots, events);
    var s := AfterEvents(Boot(slots), events).state;
    var more := InFlight(s) + Queue(s);
    assert Bytes(s.results) + more == Bytes(s.results) + InFlight(s) + Queue(s);
    ReadsMoreInput(Bytes(s.results), more, rooms);
  }

  // ------------------------------------------------------------------ a lost key

  /** `n` presses of the A key with no read. */
  function Presses(n: nat): seq<Event> {
    if n == 0 then [] else Presses(n - 1) + [Key(0x1E)]
  }

  lemma TypesA()
    ensures Typed(false, 0x1E) == [97] && !ShiftNext(false, 0x1E)
  {
    assert PlainRow(1)[14] == 97;
  }

  lemma PressCounts(p: Pipe)
    requires !p.shift && p.state.ring.count <= SIZE
    ensures var q := AfterEvent(p, Key(0x1E));
            !q.shift && q.state.ring.count == Min(p.state.ring.count + 1, SIZE)
  {
    hide Typed, ShiftNext;
    TypesA();
  }

  lemma NoPress(slots: seq<byte>)
    requires |slots| == SIZE
    ensures AfterEvents(Boot(slots), Presses(0)) == Boot(slots)
  {
  }

  lemma {:induction false} PressesFill(slots: seq<byte>, n: nat)
    requires |slots| == SIZE
    ensures var p := AfterEvents(Boot(slots), Presses(n));
            !p.shift && p.state.ring.count == Min(n, SIZE)
    decreases n
  {
    hide AfterEvents, Presses, AfterEvent;
    if n == 0 {
      NoPress(slots);
    } else {
      PressesFill(slots, n - 1);
      PressStep(slots, n);
      PressCounts(AfterEvents(Boot(slots), Presses(n - 1)));
    }
  }

  lemma PressStep(slots: seq<byte>, n: nat)
    requires |slots| == SIZE && n > 0
    ensures AfterEvents(Boot(slots), Presses(n)) == AfterEvent(AfterEvents(Boot(slots), Presses(n - 1)), Key(0x1E))
    ensures NeverFull(Boot(slots), Presses(n)) ==> HasRoom(AfterEvents(Boot(slots), Presses(n - 1)), Key(0x1E))
  {
    hide AfterEvent, HasRoom;
    assert Presses(n)[..|Presses(n)| - 1] == Presses(n - 1);
  }

  /** The 257th key pressed before any read is lost. */
  lemma KeyLost(slots: seq<byte>)
    requires |slots| == SIZE
    ensures !NeverFull(Boot(slots), Presses(SIZE + 1))
    ensures |AfterEvents(Boot(slots), Presses(SIZE + 1)).state.accepted| <
            |Decoded(false, Keys(Presses(SIZE + 1)))|
  {
    FullRingRefuses(slots, SIZE);
    AcceptedIsTyped(slots, Presses(SIZE + 1));
  }

  lemma FullRingRefuses(slots: seq<byte>, n: nat)
    requires |slots| == SIZE && n >= SIZE
    ensures !NeverFull(Boot(slots), Presses(n + 1))
  {
    hide Typed, AfterEvents, NeverFull, Presses;
    TypesA();
    PressesFill(slots, n);
    PressStep(slots, n + 1);
  }
}
