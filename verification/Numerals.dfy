/** Numbers as the C library prints them: digit strings in a base, and their values. */
module Numerals {
  import opened Words

  const MINUS: byte := 45

  type i32 = x: int | -0x8000_0000 <= x < 0x8000_0000

  predicate Base(b: int) {
    2 <= b <= 36
  }

  function Digit(d: nat): byte
    requires d < 36
  {
    if d < 10 then 48 + d else 97 + d - 10
  }

  /** The value of a digit, or -1. */
  function DigitValue(c: byte): int {
    if 48 <= c <= 57 then c - 48 else if 97 <= c <= 122 then c - 97 + 10 else -1
  }

  function Quot(n: nat, base: int): (q: nat)
    requires Base(base)
    ensures n >= base ==> 0 < q < n
    ensures n < base ==> q == 0
    ensures 2 * q <= n
  {
    QuotBounds(n, base);
    n / base
  }

  function Rem(n: nat, base: int): (r: nat)
    requires Base(base)
    ensures r < base
    ensures n < base ==> r == n
  {
    n % base
  }

  lemma QuotBounds(n: nat, base: int)
    requires Base(base)
    ensures 0 <= 2 * (n / base) <= n
    ensures n >= base ==> n / base > 0
  {
    var q := n / base;
    assert n == q * base + n % base;
    assert q >= 0;
    assert q * base >= q * 2;
  }

  lemma QuotRem(n: nat, base: int)
    requires Base(base)
    ensures n == Quot(n, base) * base + Rem(n, base)
  {
  }

  lemma QuotUnique(q: nat, r: nat, base: int)
    requires Base(base) && r < base
    ensures Quot(q * base + r, base) == q && Rem(q * base + r, base) == r
  {
    var n := q * base + r;
    QuotRem(n, base);
    NoMultiple(Quot(n, base) - q, r - Rem(n, base), base);
  }

  lemma NoMultiple(k: int, d: int, base: int)
    requires k * base == d && -base < d < base && base > 0
    ensures k == 0
  {
  }

  /** The digits of `n`, most significant first. */
  function Numeral(n: nat, base: int): (s: seq<byte>)
    requires Base(base)
    ensures s != []
    decreases n
  {
    if n < base then [Digit(n)] else Numeral(Quot(n, base), base) + [Digit(Rem(n, base))]
  }

  predicate IsNumeral(s: seq<byte>, base: int) {
    s != [] && forall i :: 0 <= i < |s| ==> 0 <= DigitValue(s[i]) < base
  }

  /** No leading zero, except in "0" itself. */
  predicate Canonical(s: seq<byte>, base: int) {
    IsNumeral(s, base) && (|s| > 1 ==> DigitValue(s[0]) != 0)
  }

  function ValueOf(s: seq<byte>, base: int): nat
    requires Base(base) && IsNumeral(s, base)
  {
    if |s| == 1 then DigitValue(s[0])
    else ValueOf(s[..|s| - 1], base) * base + DigitValue(s[|s| - 1])
  }

  lemma {:induction false} NumeralValue(n: nat, base: int)
    requires Base(base)
    ensures Canonical(Numeral(n, base), base)
    ensures ValueOf(Numeral(n, base), base) == n
    ensures n > 0 ==> DigitValue(Numeral(n, base)[0]) > 0
    decreases n
  {
    hide Quot, Rem;
    if n < base {
    } else {
      var q := Quot(n, base);
      NumeralValue(q, base);
      QuotRem(n, base);
      AppendDigit(Numeral(q, base), Rem(n, base), base);
    }
  }

  lemma AppendDigit(s: seq<byte>, d: nat, base: int)
    requires Base(base) && IsNumeral(s, base) && d < base
    ensures IsNumeral(s + [Digit(d)], base)
    ensures ValueOf(s + [Digit(d)], base) == ValueOf(s, base) * base + d
  {
  }

  /** A canonical numeral is the one printed for its value: printing and parsing are inverse. */
  lemma {:induction false} CanonicalUnique(s: seq<byte>, base: int)
    requires Base(base) && Canonical(s, base)
    ensures Numeral(ValueOf(s, base), base) == s
    ensures |s| > 1 || DigitValue(s[0]) > 0 ==> ValueOf(s, base) >= 1
    ensures |s| > 1 ==> ValueOf(s, base) >= base
    decreases |s|
  {
    hide Quot, Rem;
    var r := DigitValue(s[|s| - 1]);
    assert s[|s| - 1] == Digit(r);
    if |s| == 1 {
    } else {
      var init := s[..|s| - 1];
      CanonicalUnique(init, base);
      var q := ValueOf(init, base);
      Scaled(q, base);
      QuotUnique(q, r, base);
      assert s == init + [Digit(r)];
    }
  }

  lemma Scaled(q: nat, base: int)
    requires q >= 1 && base >= 1
    ensures q * base >= base
  {
  }

  function Pow2(k: nat): nat {
    if k == 0 then 1 else 2 * Pow2(k - 1)
  }

  lemma {:induction false} NumeralLength(n: nat, base: int, k: nat)
    requires Base(base) && k >= 1 && n < Pow2(k)
    ensures |Numeral(n, base)| <= k
    decreases k
  {
    if n < base {
    } else {
      NumeralLength(Quot(n, base), base, k - 1);
    }
  }

  // ------------------------------------------------------------ signed printing

  /** What `print_number` writes: a sign only in base 10, otherwise the 32-bit pattern. */
  function Printed(num: i32, base: int): seq<byte>
    requires Base(base)
  {
    if base == 10 && num < 0 then [MINUS] + Numeral(-(num as int), base) else Numeral(Wrap(num), base)
  }

  /** Parsing an optional sign and a numeral. */
  function SignedValue(s: seq<byte>, base: int): int
    requires Base(base) && (IsNumeral(s, base) || (s != [] && s[0] == MINUS && IsNumeral(s[1..], base)))
  {
    if s[0] == MINUS then -(ValueOf(s[1..], base) as int) else ValueOf(s, base)
  }

  /** Every 32-bit value, the minimum included: the decimal text parses back to the value and
      the hexadecimal text to its bit pattern, canonically and within 32 digits. */
  lemma PrintedRoundTrip(num: i32, base: int)
    requires Base(base)
    ensures var s := Printed(num, base);
            if base == 10 && num < 0 then
              s[0] == 45 && Canonical(s[1..], base) && ValueOf(s[1..], base) == -(num as int)
              && SignedValue(s, base) == num && |s[1..]| <= 32
            else
              Canonical(s, base) && ValueOf(s, base) == Wrap(num) && |s| <= 32
              && (num >= 0 ==> SignedValue(s, base) == num)
  {
    hide Numeral, IsNumeral, ValueOf, DigitValue;
    NumeralSummary(Wrap(num), base);
    if num < 0 {
      NumeralSummary(-(num as int), base);
      assert ([MINUS] + Numeral(-(num as int), base))[1..] == Numeral(-(num as int), base);
    }
  }

  lemma NumeralSummary(n: u32, base: int)
    requires Base(base)
    ensures Canonical(Numeral(n, base), base) && ValueOf(Numeral(n, base), base) == n
    ensures Numeral(n, base)[0] != MINUS && |Numeral(n, base)| <= 32
  {
    hide Numeral;
    NumeralValue(n, base);
    NumeralFits(n, base);
  }

  lemma NumeralFits(n: u32, base: int)
    requires Base(base)
    ensures |Numeral(n, base)| <= 32
  {
    assert Pow2(8) == 256;
    assert Pow2(16) == 0x1_0000;
    assert Pow2(24) == 0x100_0000;
    assert Pow2(32) == 0x1_0000_0000;
    NumeralLength(n, base, 32);
  }

  function Reversed(s: seq<byte>): seq<byte> {
    if s == [] then [] else Reversed(s[1..]) + [s[0]]
  }

  lemma {:induction false} ReversedAppend(s: seq<byte>, c: byte)
    ensures Reversed(s + [c]) == [c] + Reversed(s)
    decreases |s|
  {
    if s == [] {
      assert Reversed([c]) == [c];
    } else {
      assert (s + [c])[1..] == s[1..] + [c];
      ReversedAppend(s[1..], c);
    }
  }

  /** The generating loop of `print_number`: digits go in backwards. */
  method Generate(number: u32, base: int, buf: array<byte>) returns (i: nat)
    requires Base(base) && number > 0 && buf.Length == 32
    modifies buf
    ensures i <= 32 && Reversed(buf[..i]) == Numeral(number, base)
  {
    hide Quot, Rem;
    NumeralFits(number, base);
    var n: nat := number;
    i := 0;
    while n > 0
      invariant i <= 32
      invariant n > 0 ==> i + |Numeral(n, base)| <= 32
      invariant Numeral(number, base) == (if n > 0 then Numeral(n, base) else []) + Reversed(buf[..i])
      decreases n
    {
      var rem := Rem(n, base);
      ghost var was := buf[..i];
      buf[i] := Digit(rem);
      i := i + 1;
      assert buf[..i] == was + [Digit(rem)];
      ReversedAppend(was, Digit(rem));
      n := Quot(n, base);
    }
  }

  /** The draining loop of `print_number`. */
  method Drain(buf: array<byte>, count: nat) returns (out: seq<byte>)
    requires count <= buf.Length
    ensures out == Reversed(buf[..count])
  {
    var i := count;
    out := [];
    while i > 0
      invariant 0 <= i <= count
      invariant out + Reversed(buf[..i]) == Reversed(buf[..count])
    {
      i := i - 1;
      assert buf[..i + 1] == buf[..i] + [buf[i]];
      ReversedAppend(buf[..i], buf[i]);
      out := out + [buf[i]];
    }
  }

  /** `print_number`: digits are generated backwards into a 32-byte buffer, then drained. */
  method PrintNumber(num: i32, base: int) returns (out: seq<byte>)
    requires Base(base)
    ensures out == Printed(num, base)
  {
    hide Quot, Rem, Reversed;
    var sign, n := [], Wrap(num);
    if base == 10 && num < 0 {
      sign := [MINUS];
      n := Wrap(-(num as int));
    }
    if n == 0 {
      return sign + [48];
    }
    var buf := new byte[32];
    var i := Generate(n, base, buf);
    out := Drain(buf, i);
    out := sign + out;
  }
}
