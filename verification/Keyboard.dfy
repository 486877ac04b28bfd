/** The PS/2 keyboard driver: scancode decoding with its shift flag, and the ring buffer it
    feeds, changed in place. */
module Keyboard {
  import opened Words
  import opened RingProtocol

  /** Scancode set 1 to ASCII, sixteen codes to a row; the C tables are zero past the last row. */
  function PlainRow(r: nat): (row: seq<byte>)
    ensures |row| == 16
  {
    if r == 0 then [0, 27, 49, 50, 51, 52, 53, 54, 55, 56, 57, 48, 45, 61, 8, 9]
    else if r == 1 then [113, 119, 101, 114, 116, 121, 117, 105, 111, 112, 91, 93, 10, 0, 97, 115]
    else if r == 2 then [100, 102, 103, 104, 106, 107, 108, 59, 39, 96, 0, 92, 122, 120, 99, 118]
    else if r == 3 then [98, 110, 109, 44, 46, 47, 0, 42, 0, 32, 0, 0, 0, 0, 0, 0]
    else if r == 4 then [0, 0, 0, 0, 0, 0, 0, 0, 0, 0, 45, 0, 0, 0, 43, 0]
    else [0, 0, 0, 0, 0, 0, 0, 0, 0, 0, 0, 0, 0, 0, 0, 0]
  }

  function ShiftedRow(r: nat): (row: seq<byte>)
    ensures |row| == 16
  {
    if r == 0 then [0, 27, 33, 64, 35, 36, 37, 94, 38, 42, 40, 41, 95, 43, 8, 9]
    else if r == 1 then [81, 87, 69, 82, 84, 89, 85, 73, 79, 80, 123, 125, 10, 0, 65, 83]
    else if r == 2 then [68, 70, 71, 72, 74, 75, 76, 58, 34, 126, 0, 124, 90, 88, 67, 86]
    else if r == 3 then [66, 78, 77, 60, 62, 63, 0, 42, 0, 32, 0, 0, 0, 0, 0, 0]
    else if r == 4 then [0, 0, 0, 0, 0, 0, 0, 0, 0, 0, 45, 0, 0, 0, 43, 0]
    else [0, 0, 0, 0, 0, 0, 0, 0, 0, 0, 0, 0, 0, 0, 0, 0]
  }

  function Ascii(shift: bool, code: byte): byte {
    (if shift then ShiftedRow(code / 16) else PlainRow(code / 16))[code % 16]
  }

  /** A letter is paired with its capital, and a key types something in both states or neither. */
  predicate Paired(plain: byte, shifted: byte) {
    && (97 <= plain <= 122 ==> shifted == plain - 32)
    && (65 <= shifted <= 90 ==> plain == shifted + 32)
    && (plain == 0 <==> shifted == 0)
  }

  lemma Row0Paired(k: nat)
    requires k < 16
    ensures Paired(PlainRow(0)[k], ShiftedRow(0)[k])
  {
  }

  lemma Row1Paired(k: nat)
    requires k < 16
    ensures Paired(PlainRow(1)[k], ShiftedRow(1)[k])
  {
  }

  lemma Row2Paired(k: nat)
    requires k < 16
    ensures Paired(PlainRow(2)[k], ShiftedRow(2)[k])
  {
  }

  lemma Row3Paired(k: nat)
    requires k < 16
    ensures Paired(PlainRow(3)[k], ShiftedRow(3)[k])
  {
  }

  lemma RowPaired(r: nat, k: nat)
    requires k < 16
    ensures Paired(PlainRow(r)[k], ShiftedRow(r)[k])
  {
    if r < 4 {
      hide PlainRow, ShiftedRow, Paired;
      if r == 0 {
        Row0Paired(k);
      } else if r == 1 {
        Row1Paired(k);
      } else if r == 2 {
        Row2Paired(k);
      } else {
        Row3Paired(k);
      }
    }
  }

  /** Shift turns every letter key into its capital and no other key into a letter. */
  lemma ShiftCapitalizes(code: byte)
    ensures Paired(Ascii(false, code), Ascii(true, code))
  {
    hide PlainRow, ShiftedRow, Paired;
    RowPaired(code / 16, code % 16);
  }

  predicate IsPress(code: byte) {
    code == 0x2A || code == 0x36
  }

  predicate IsRelease(code: byte) {
    code == 0xAA || code == 0xB6
  }

  function ShiftNext(shift: bool, code: byte): bool {
    if IsPress(code) then true else if IsRelease(code) then false else shift
  }

  /** The byte a scancode enqueues, if any: shift keys, key releases and unmapped keys none. */
  function Typed(shift: bool, code: byte): (r: seq<byte>)
    ensures |r| <= 1
  {
    if IsPress(code) || IsRelease(code) || code >= 0x80 || Ascii(shift, code) == 0 then []
    else [Ascii(shift, code)]
  }

  // ---------------------------------------------------------------- the keyboard

  /** The code of one character of a row of keys. */
  function Cap(row: string, k: int): byte {
    if 0 <= k < |row| && row[k] < 128 as char then row[k] as int else 0
  }

  /** What each key of a US keyboard types, row by row as the keys lie. */
  function Keycap(shift: bool, code: byte): seq<byte> {
    if 0x02 <= code <= 0x0D then [Cap(if shift then "!@#$%^&*()_+" else "1234567890-=", code - 0x02)]
    else if 0x10 <= code <= 0x1B then [Cap(if shift then "QWERTYUIOP{}" else "qwertyuiop[]", code - 0x10)]
    else if 0x1E <= code <= 0x29 then [Cap(if shift then "ASDFGHJKL:\"~" else "asdfghjkl;'`", code - 0x1E)]
    else if 0x2B <= code <= 0x35 then [Cap(if shift then "|ZXCVBNM<>?" else "\\zxcvbnm,./", code - 0x2B)]
    else if code == 0x01 then [27]
    else if code == 0x0E then [8]
    else if code == 0x0F then [9]
    else if code == 0x1C then [10]
    else if code == 0x37 then ['*' as int]
    else if code == 0x39 then [32]
    else if code == 0x4A then ['-' as int]
    else if code == 0x4E then ['+' as int]
    else []
  }

  lemma Row0Plain(code: byte)
    requires code / 16 == 0
    ensures Typed(false, code) == Keycap(false, code)
  {
    assert 0 <= code % 16 < 16;
  }

  lemma Row0Shifted(code: byte)
    requires code / 16 == 0
    ensures Typed(true, code) == Keycap(true, code)
  {
    assert 0 <= code % 16 < 16;
  }

  lemma Row1Plain(code: byte)
    requires code / 16 == 1
    ensures Typed(false, code) == Keycap(false, code)
  {
    assert 0 <= code % 16 < 16;
  }

  lemma Row1Shifted(code: byte)
    requires code / 16 == 1
    ensures Typed(true, code) == Keycap(true, code)
  {
    assert 0 <= code % 16 < 16;
  }

  lemma Row2Plain(code: byte)
    requires code / 16 == 2
    ensures Typed(false, code) == Keycap(false, code)
  {
    assert 0 <= code % 16 < 16;
  }

  lemma Row2Shifted(code: byte)
    requires code / 16 == 2
    ensures Typed(true, code) == Keycap(true, code)
  {
    assert 0 <= code % 16 < 16;
  }

  lemma Row3Plain(code: byte)
    requires code / 16 == 3
    ensures Typed(false, code) == Keycap(false, code)
  {
    assert 0 <= code % 16 < 16;
  }

  lemma Row3Shifted(code: byte)
    requires code / 16 == 3
    ensures Typed(true, code) == Keycap(true, code)
  {
    assert 0 <= code % 16 < 16;
  }

  lemma Row4Types(shift: bool, code: byte)
    requires code / 16 == 4
    ensures Typed(shift, code) == Keycap(shift, code)
  {
    assert 0 <= code % 16 < 16;
  }

  /** Every scancode, with and without shift, enqueues what its key says, and no other does. */
  lemma KeyTypes(shift: bool, code: byte)
    ensures Typed(shift, code) == Keycap(shift, code)
  {
    if code / 16 < 5 {
      hide Typed, Keycap;
      if code / 16 == 0 {
        if shift {
          Row0Shifted(code);
        } else {
          Row0Plain(code);
        }
      } else if code / 16 == 1 {
        if shift {
          Row1Shifted(code);
        } else {
          Row1Plain(code);
        }
      } else if code / 16 == 2 {
        if shift {
          Row2Shifted(code);
        } else {
          Row2Plain(code);
        }
      } else if code / 16 == 3 {
        if shift {
          Row3Shifted(code);
        } else {
          Row3Plain(code);
        }
      } else {
        Row4Types(shift, code);
      }
    } else {
      NoKey(shift, code);
    }
  }

  lemma NoKey(shift: bool, code: byte)
    requires code / 16 >= 5
    ensures Typed(shift, code) == Keycap(shift, code)
  {
  }

  /** The digit keys 1 to 9, and 0 after them. */
  lemma DigitKeys(d: nat)
    requires 1 <= d <= 10
    ensures Typed(false, d + 1) == [48 + d % 10]
  {
    hide Typed;
    KeyTypes(false, d + 1);
  }

  /** The ring after the interrupt handler has seen a scancode. */
  function KeyRing(shift: bool, r: Ring, code: byte): Ring {
    if Typed(shift, code) == [] then r else PutRing(r, Typed(shift, code)[0])
  }

  // ------------------------------------------------------------------------ traces

  function ShiftAfter(shift: bool, codes: seq<byte>): bool {
    if codes == [] then shift
    else ShiftNext(ShiftAfter(shift, codes[..|codes| - 1]), codes[|codes| - 1])
  }

  /** The text a scancode trace types. */
  function Decoded(shift: bool, codes: seq<byte>): seq<byte> {
    if codes == [] then []
    else
      var init := codes[..|codes| - 1];
      Decoded(shift, init) + Typed(ShiftAfter(shift, init), codes[|codes| - 1])
  }

  /** A shift key (0x2A left, 0x36 right) went down at `i` and none has come up since (0xAA, 0xB6). */
  predicate DownSince(codes: seq<byte>, i: nat)
    requires i < |codes|
  {
    && (codes[i] == 0x2A || codes[i] == 0x36)
    && forall j :: i < j < |codes| ==> codes[j] != 0xAA && codes[j] != 0xB6
  }

  predicate ShiftDown(codes: seq<byte>) {
    exists i :: 0 <= i < |codes| && DownSince(codes, i)
  }

  /** Shift is set exactly when a shift key went down and none has come up since. */
  lemma {:induction false} ShiftIsLastEvent(codes: seq<byte>)
    ensures ShiftAfter(false, codes) <==> ShiftDown(codes)
    decreases |codes|
  {
    if codes == [] {
    } else {
      var n := |codes| - 1;
      var init := codes[..n];
      ShiftIsLastEvent(init);
      if codes[n] == 0x2A || codes[n] == 0x36 {
        assert DownSince(codes, n);
      } else if ShiftDown(init) && codes[n] != 0xAA && codes[n] != 0xB6 {
        var i :| 0 <= i < n && DownSince(init, i);
        assert DownSince(codes, i);
      } else {
        forall i | 0 <= i < |codes|
          ensures !DownSince(codes, i)
        {
          assert i < n ==> !DownSince(init, i) || codes[n] == 0xAA || codes[n] == 0xB6;
        }
      }
    }
  }

  /** Each scancode of a trace adds what its key says, in capitals and upper symbols exactly
      while a shift key is down. */
  lemma DecodedKeys(codes: seq<byte>, code: byte)
    ensures Decoded(false, codes + [code]) == Decoded(false, codes) + Keycap(ShiftDown(codes), code)
  {
    hide Typed, Keycap, ShiftAfter, ShiftDown;
    assert (codes + [code])[..|codes|] == codes;
    ShiftIsLastEvent(codes);
    KeyTypes(ShiftDown(codes), code);
  }

  // ------------------------------------------------------------------------ driver

  class Driver {
    const buffer: array<byte>
    var head: nat
    var tail: nat
    var count: u32
    var shiftActive: bool

    ghost predicate Valid()
      reads this
    {
      && buffer.Length == SIZE && head < SIZE && tail < SIZE && count <= SIZE
      && tail == Slot(head, count)
    }

    /** The fields as RingProtocol sees them. */
    ghost function View(): Ring
      requires Valid()
      reads this, buffer
    {
      RingData(buffer[..], head, tail, count)
    }

    /** The bytes waiting, oldest first. */
    ghost function Waiting(): (q: seq<byte>)
      requires Valid()
      reads this, buffer
      ensures |q| == count
    {
      From(buffer[..], head, count)
    }

    constructor ()
      ensures Valid() && fresh(buffer) && Waiting() == [] && !shiftActive
    {
      buffer := new byte[SIZE](_ => 0);
      head, tail, count, shiftActive := 0, 0, 0, false;
    }

    method PutChar(c: byte)
      requires Valid()
      modifies this`tail, this`count, buffer
      ensures Valid() && View() == PutRing(old(View()), c)
      ensures Waiting() == if |old(Waiting())| < SIZE then old(Waiting()) + [c] else old(Waiting())
    {
      if count < SIZE {
        StoreAppends(View(), count, c);
        ghost var was := buffer[..];
        buffer[tail] := c;
        assert buffer[..] == was[tail := c];
        tail := (tail + 1) % SIZE;
        count := count + 1;
      }
    }

    method GetChar() returns (r: int)
      requires Valid()
      modifies this`head, this`count
      ensures Valid()
      ensures old(Waiting()) == [] ==> r == -1 && Waiting() == []
      ensures old(Waiting()) != [] ==> r == old(Waiting())[0] && Waiting() == old(Waiting())[1..]
      ensures View() == if old(Waiting()) == [] then old(View()) else TakeRing(old(View()))
    {
      if count == 0 {
        return -1;
      }
      AdvanceDrops(View(), count);
      var c := buffer[head];
      head := (head + 1) % SIZE;
      count := count - 1;
      return c;
    }

    /** The interrupt handler, given the scancode read from the port. */
    method Interrupt(code: byte)
      requires Valid()
      modifies this`tail, this`count, this`shiftActive, buffer
      ensures Valid() && shiftActive == ShiftNext(old(shiftActive), code)
      ensures View() == KeyRing(old(shiftActive), old(View()), code)
      ensures Waiting() == if |old(Waiting())| < 256 then old(Waiting()) + Keycap(old(shiftActive), code)
                           else old(Waiting())
      ensures shiftActive <==> code == 0x2A || code == 0x36 || (old(shiftActive) && code != 0xAA && code != 0xB6)
    {
      hide Keycap, Ascii;
      KeyTypes(shiftActive, code);
      if code == 0x2A || code == 0x36 {
        shiftActive := true;
        return;
      }
      if code == 0xAA || code == 0xB6 {
        shiftActive := false;
        return;
      }
      if code >= 0x80 {
        return;
      }
      var c := Ascii(shiftActive, code);
      if c != 0 {
        PutChar(c);
      }
    }
  }
}
