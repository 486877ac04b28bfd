/** The C library's printf as an interpreter of its format. Texts, and formats in the
    specification functions, are byte sequences without their final NUL. */
module Stdio {
  import opened Words
  import opened Numerals

  const PERCENT: byte := 37

  datatype Arg = Int(value: i32) | Text(bytes: seq<byte>) | NullText

  /** "(null)" */
  const NULL_TEXT: seq<byte> := [40, 110, 117, 108, 108, 41]

  datatype Kind = Number(base: int) | Character | String | Plain

  /** What a directive byte asks for: c, s, d and i, x and p; anything else takes no argument. */
  function KindOf(d: byte): (k: Kind)
    ensures k.Number? ==> k.base == 10 || k.base == 16
  {
    if d == 99 then Character
    else if d == 115 then String
    else if d == 100 || d == 105 then Number(10)
    else if d == 120 || d == 112 then Number(16)
    else Plain
  }

  predicate Accepts(k: Kind, args: seq<Arg>) {
    match k
    case Plain => true
    case String => args != [] && !args[0].Int?
    case _ => args != [] && args[0].Int?
  }

  function Left(k: Kind, args: seq<Arg>): seq<Arg>
    requires Accepts(k, args)
  {
    if k.Plain? then args else args[1..]
  }

  /** The text one directive writes. An unknown directive is written as it stands. */
  function Shown(d: byte, args: seq<Arg>): seq<byte>
    requires Accepts(KindOf(d), args)
  {
    match KindOf(d)
    case Number(base) => Printed(args[0].value, base)
    case Character => [args[0].value % 256]
    case String => if args[0].NullText? then NULL_TEXT else args[0].bytes
    case Plain => if d == PERCENT then [PERCENT] else [PERCENT, d]
  }

  /** The byte after a leading percent sign: the terminating NUL when the percent sign is last. */
  function DirectiveOf(f: seq<byte>): byte
    requires f != []
  {
    if |f| > 1 then f[1] else NUL
  }

  /** What follows a leading directive. */
  function AfterDirective(f: seq<byte>): seq<byte>
    requires f != []
  {
    if |f| > 1 then f[2..] else []
  }

  /** Every directive finds an argument of its kind. */
  predicate Fits(f: seq<byte>, args: seq<Arg>)
    decreases |f|
  {
    if f == [] then true
    else if f[0] != PERCENT then Fits(f[1..], args)
    else
      var k := KindOf(DirectiveOf(f));
      Accepts(k, args) && Fits(AfterDirective(f), Left(k, args))
  }

  function Rendered(f: seq<byte>, args: seq<Arg>): seq<byte>
    requires Fits(f, args)
    decreases |f|
  {
    if f == [] then []
    else if f[0] != PERCENT then [f[0]] + Rendered(f[1..], args)
    else
      var d := DirectiveOf(f);
      Shown(d, args) + Rendered(AfterDirective(f), Left(KindOf(d), args))
  }

  /** Where the format pointer comes to rest, counted from the start of the format: a literal
      moves it by one and a directive by two. */
  function Stop(f: seq<byte>): nat
    decreases |f|
  {
    if f == [] then 0
    else if f[0] != PERCENT then 1 + Stop(f[1..])
    else 2 + Stop(AfterDirective(f))
  }

  /** A format in memory, with its terminating NUL. */
  predicate Terminated(buf: seq<byte>) {
    buf != [] && buf[|buf| - 1] == NUL && NUL !in buf[..|buf| - 1]
  }

  /** `printf`: steps a pointer through the format, emitting as it goes. `pos` is where the
      pointer ends up; beyond the buffer the code would read on, and the model stops. */
  method Printf(buf: seq<byte>, args: seq<Arg>) returns (out: seq<byte>, pos: nat)
    requires Terminated(buf) && Fits(buf[..|buf| - 1], args)
    ensures out == Rendered(buf[..|buf| - 1], args)
    ensures pos == Stop(buf[..|buf| - 1])
    ensures pos == if TrailingPercents(buf[..|buf| - 1]) % 2 == 0 then |buf| - 1 else |buf|
    ensures var pieces := PiecesOf(buf[..|buf| - 1]);
            && Supplied(pieces, args)
            && out == Output(pieces, args, |pieces|) + if pos < |buf| then [] else [37, 0]
  {
    hide Rendered, Fits, Unused, Stop, TrailingPercents, Shown, Accepts, Left, KindOf, Supplied, Output, PiecesOf;
    hide Ahead, DirectiveOf, AfterDirective;
    ghost var len := |buf| - 1;
    out, pos := [], 0;
    var left := args;
    AllAhead(buf);
    while pos < |buf| && buf[pos] != NUL
      invariant pos <= len + 1
      invariant Fits(Ahead(buf, pos), left)
      invariant out + Rendered(Ahead(buf, pos), left) == Rendered(buf[..len], args)
      invariant pos + Stop(Ahead(buf, pos)) == Stop(buf[..len])
      decreases len + 1 - pos
    {
      AheadStarts(buf, pos);
      FormatStep(Ahead(buf, pos), left);
      ghost var was := out;
      var text;
      if buf[pos] == PERCENT {
        pos := pos + 1;
        text, left := Emit(buf[pos], left);
      } else {
        text := [buf[pos]];
      }
      pos := pos + 1;
      out := out + text;
      Regroup(was, text, Rendered(Ahead(buf, pos), left));
    }
    NothingAhead(buf, pos);
    NothingRendered(left);
    SafeFormat(buf[..len]);
    RenderedInOrder(buf[..len], args);
  }

  /** The part of the format the pointer has not reached. */
  ghost function Ahead(buf: seq<byte>, pos: nat): seq<byte>
    requires buf != []
  {
    if pos < |buf| then buf[pos..|buf| - 1] else []
  }

  lemma AllAhead(buf: seq<byte>)
    requires buf != []
    ensures Ahead(buf, 0) == buf[..|buf| - 1]
  {
  }

  lemma NothingAhead(buf: seq<byte>, pos: nat)
    requires Terminated(buf) && (pos < |buf| ==> buf[pos] == NUL)
    ensures Ahead(buf, pos) == []
  {
    var f := buf[..|buf| - 1];
    assert forall i :: 0 <= i < |f| ==> f[i] == buf[i] != NUL;
  }

  lemma AheadStarts(buf: seq<byte>, pos: nat)
    requires Terminated(buf) && pos < |buf| && buf[pos] != NUL
    ensures pos + 1 < |buf| && Ahead(buf, pos) != [] && Ahead(buf, pos)[0] == buf[pos]
    ensures Ahead(buf, pos)[1..] == Ahead(buf, pos + 1)
    ensures DirectiveOf(Ahead(buf, pos)) == buf[pos + 1]
    ensures AfterDirective(Ahead(buf, pos)) == Ahead(buf, pos + 2)
  {
  }

  /** The switch on the directive byte. */
  method Emit(d: byte, args: seq<Arg>) returns (text: seq<byte>, left: seq<Arg>)
    requires Accepts(KindOf(d), args)
    ensures text == Shown(d, args) && left == Left(KindOf(d), args)
  {
    hide Printed;
    left := args;
    if d == 99 {
      text, left := [args[0].value % 256], args[1..];
    } else if d == 115 {
      text, left := if args[0].NullText? then NULL_TEXT else args[0].bytes, args[1..];
    } else if d == 100 || d == 105 {
      text := PrintNumber(args[0].value, 10);
      left := args[1..];
    } else if d == 120 || d == 112 {
      text := PrintNumber(args[0].value, 16);
      left := args[1..];
    } else if d == PERCENT {
      text := [PERCENT];
    } else {
      text := [PERCENT, d];
    }
  }

  // ----------------------------------------------------------------- properties

  /** The arguments a format leaves unused. */
  function Unused(f: seq<byte>, args: seq<Arg>): seq<Arg>
    requires Fits(f, args)
    decreases |f|
  {
    if f == [] then args
    else if f[0] != PERCENT then Unused(f[1..], args)
    else Unused(AfterDirective(f), Left(KindOf(DirectiveOf(f)), args))
  }

  /** Formats render piece by piece, each piece taking up the arguments where the last left off,
      as long as the first piece does not end in the middle of a directive. */
  lemma {:induction false} RenderedJoins(f: seq<byte>, g: seq<byte>, args: seq<Arg>)
    requires Stop(f) == |f|
    ensures Stop(f + g) == |f| + Stop(g)
    ensures Fits(f + g, args) <==> Fits(f, args) && Fits(g, Unused(f, args))
    ensures Fits(f + g, args) ==>
              && Rendered(f + g, args) == Rendered(f, args) + Rendered(g, Unused(f, args))
              && Unused(f + g, args) == Unused(g, Unused(f, args))
    decreases |f|
  {
    hide Rendered, Fits, Unused, Stop, Accepts, Left, KindOf;
    if f == [] {
      assert f + g == g;
      NothingRendered(args);
    } else {
      FormatStep(f, args);
      FormatStep(f + g, args);
      if f[0] != PERCENT {
        assert (f + g)[1..] == f[1..] + g;
        RenderedJoins(f[1..], g, args);
      } else {
        StopsInside(f);
        assert (f + g)[2..] == f[2..] + g;
        RenderedJoins(f[2..], g, if Accepts(KindOf(f[1]), args) then Left(KindOf(f[1]), args) else args);
      }
    }
  }

  lemma NothingRendered(args: seq<Arg>)
    ensures Stop([]) == 0 && Fits([], args) && Rendered([], args) == [] && Unused([], args) == args
  {
  }

  lemma StopsInside(f: seq<byte>)
    requires f != [] && f[0] == PERCENT && Stop(f) == |f|
    ensures |f| > 1
  {
  }

  /** What the first literal or directive of a format does. */
  lemma FormatStep(f: seq<byte>, args: seq<Arg>)
    requires f != []
    ensures f[0] != PERCENT ==>
              && Stop(f) == 1 + Stop(f[1..]) && (Fits(f, args) <==> Fits(f[1..], args))
              && (Fits(f, args) ==> Rendered(f, args) == [f[0]] + Rendered(f[1..], args)
                                    && Unused(f, args) == Unused(f[1..], args))
    ensures f[0] == PERCENT ==>
              var d, more := DirectiveOf(f), AfterDirective(f);
              && Stop(f) == 2 + Stop(more)
              && (Fits(f, args) <==> Accepts(KindOf(d), args) && Fits(more, Left(KindOf(d), args)))
              && (Fits(f, args) ==> Rendered(f, args) == Shown(d, args) + Rendered(more, Left(KindOf(d), args))
                                    && Unused(f, args) == Unused(more, Left(KindOf(d), args)))
  {
    hide Shown, Accepts, Left, KindOf;
  }

  /** `text` with every percent sign doubled. */
  function Doubled(text: seq<byte>): seq<byte> {
    if text == [] then []
    else (if text[0] == PERCENT then [PERCENT, PERCENT] else [text[0]]) + Doubled(text[1..])
  }

  /** Doubling the percent signs of any text makes a format that prints that text. */
  lemma {:induction false} DoubledPrintsText(text: seq<byte>)
    ensures Fits(Doubled(text), []) && Rendered(Doubled(text), []) == text
    decreases |text|
  {
    if text == [] {
    } else {
      DoubledPrintsText(text[1..]);
      var f := Doubled(text);
      if text[0] == PERCENT {
        assert f[2..] == Doubled(text[1..]);
      } else {
        assert f[1..] == Doubled(text[1..]);
      }
    }
  }

  /** A string argument is written verbatim, percent signs and all. */
  lemma StringVerbatim(bytes: seq<byte>)
    ensures Fits([PERCENT, 115], [Text(bytes)]) && Rendered([PERCENT, 115], [Text(bytes)]) == bytes
  {
  }

  /** "%d" and "%i" write the value's decimal text, "%x" and "%p" its bit pattern in hexadecimal:
      what was printed parses back. */
  lemma NumbersParseBack(d: byte, n: i32)
    requires d == 100 || d == 105 || d == 120 || d == 112
    ensures Fits([PERCENT, d], [Int(n)])
    ensures var s := Rendered([PERCENT, d], [Int(n)]);
            if d == 100 || d == 105 then
              (IsNumeral(s, 10) || (s != [] && s[0] == 45 && IsNumeral(s[1..], 10))) && SignedValue(s, 10) == n
            else
              IsNumeral(s, 16) && ValueOf(s, 16) == Wrap(n)
  {
    hide ValueOf, SignedValue, IsNumeral, Numeral;
    assert [PERCENT, d][2..] == [] && [Int(n)][1..] == [];
    assert Rendered([PERCENT, d], [Int(n)]) == Shown(d, [Int(n)]);
    PrintedRoundTrip(n, 10);
    PrintedRoundTrip(n, 16);
  }

  // ----------------------------------------------- which argument goes where

  /** A stretch of a format: characters to copy, or a percent sign and the byte after it. */
  datatype Piece = Chars(text: seq<byte>) | Percent(d: byte)

  function PieceFormat(p: Piece): seq<byte> {
    match p
    case Chars(text) => text
    case Percent(d) => [37, d]
  }

  function FormatOf(pieces: seq<Piece>): seq<byte> {
    if pieces == [] then [] else PieceFormat(pieces[0]) + FormatOf(pieces[1..])
  }

  /** %c, %s, %d, %i, %x and %p take an argument. */
  predicate Takes(p: Piece) {
    p.Percent? && (p.d == 99 || p.d == 115 || p.d == 100 || p.d == 105 || p.d == 120 || p.d == 112)
  }

  /** How many of the pieces take an argument. */
  function Takers(pieces: seq<Piece>): nat {
    if pieces == [] then 0
    else Takers(pieces[..|pieces| - 1]) + if Takes(pieces[|pieces| - 1]) then 1 else 0
  }

  predicate Suits(d: byte, arg: Arg) {
    arg.Int? <==> d != 115
  }

  /** The text of an argument: a string as it is, "(null)" for none, the low byte of a
      character, decimal for %d and %i, hexadecimal for %x and %p. */
  function ArgText(d: byte, arg: Arg): seq<byte>
    requires Suits(d, arg)
  {
    match arg
    case Text(bytes) => bytes
    case NullText => [40, 110, 117, 108, 108, 41]
    case Int(n) =>
      if d == 99 then [n % 256] else if d == 100 || d == 105 then Printed(n, 10) else Printed(n, 16)
  }

  /** The taker numbered k, counting from 0, finds an argument numbered k of its kind. */
  predicate SuppliedAt(pieces: seq<Piece>, args: seq<Arg>, i: nat)
    requires i < |pieces|
  {
    Takes(pieces[i]) ==>
      var k := Takers(pieces[..i]); k < |args| && Suits(pieces[i].d, args[k])
  }

  predicate SuppliedTo(pieces: seq<Piece>, args: seq<Arg>, n: nat)
    requires n <= |pieces|
  {
    forall i :: 0 <= i < n ==> SuppliedAt(pieces, args, i)
  }

  predicate Supplied(pieces: seq<Piece>, args: seq<Arg>) {
    SuppliedTo(pieces, args, |pieces|)
  }

  /** What piece `i` becomes: its characters, the text of its own argument, one percent sign for
      two, or an unknown directive as it stands. */
  function PieceText(pieces: seq<Piece>, args: seq<Arg>, i: nat): seq<byte>
    requires i < |pieces| && SuppliedAt(pieces, args, i)
  {
    match pieces[i]
    case Chars(text) => text
    case Percent(d) =>
      if Takes(pieces[i]) then ArgText(d, args[Takers(pieces[..i])])
      else if d == 37 then [37] else [37, d]
  }

  /** The first `n` pieces, written out one after another. */
  function Output(pieces: seq<Piece>, args: seq<Arg>, n: nat): seq<byte>
    requires n <= |pieces| && Supplied(pieces, args)
  {
    if n == 0 then [] else
      assert SuppliedAt(pieces, args, n - 1);
      Output(pieces, args, n - 1) + PieceText(pieces, args, n - 1)
  }

  predicate Proper(pieces: seq<Piece>) {
    forall i :: 0 <= i < |pieces| && pieces[i].Chars? ==> 37 !in pieces[i].text
  }

  lemma {:induction false} FormatExtends(pieces: seq<Piece>, n: nat)
    requires n < |pieces|
    ensures FormatOf(pieces[..n + 1]) == FormatOf(pieces[..n]) + PieceFormat(pieces[n])
    decreases n
  {
    hide PieceFormat;
    if n == 0 {
      assert pieces[..1][1..] == [];
    } else {
      FormatExtends(pieces[1..], n - 1);
      assert pieces[..n][1..] == pieces[1..][..n - 1];
      assert pieces[..n + 1][1..] == pieces[1..][..n];
    }
  }

  lemma {:induction false} CharsRendered(text: seq<byte>, args: seq<Arg>)
    requires 37 !in text
    ensures Fits(text, args) && Rendered(text, args) == text && Unused(text, args) == args && Stop(text) == |text|
    decreases |text|
  {
    if text == [] {
    } else {
      CharsRendered(text[1..], args);
    }
  }

  lemma PercentRendered(d: byte, args: seq<Arg>)
    ensures var f := [37, d];
            && Stop(f) == 2
            && (Fits(f, args) <==> (Takes(Percent(d)) ==> args != [] && Suits(d, args[0])))
            && (Fits(f, args) ==>
                  if Takes(Percent(d)) then Rendered(f, args) == ArgText(d, args[0]) && Unused(f, args) == args[1..]
                  else Rendered(f, args) == (if d == 37 then [37] else [37, d]) && Unused(f, args) == args)
  {
    hide Printed;
    assert AfterDirective([37, d]) == [];
  }

  /** One piece, given the arguments from its own onward. */
  lemma PieceRendered(pieces: seq<Piece>, args: seq<Arg>, i: nat)
    requires Proper(pieces) && i < |pieces| && Takers(pieces[..i]) <= |args|
    ensures var f, left := PieceFormat(pieces[i]), args[Takers(pieces[..i])..];
            && Stop(f) == |f|
            && (Fits(f, left) <==> SuppliedAt(pieces, args, i))
            && (Fits(f, left) ==>
                  && Rendered(f, left) == PieceText(pieces, args, i)
                  && Takers(pieces[..i + 1]) <= |args| && Unused(f, left) == args[Takers(pieces[..i + 1])..])
  {
    hide Rendered, Fits, Unused, Stop, ArgText, Suits;
    assert pieces[..i + 1][..i] == pieces[..i];
    match pieces[i]
    case Chars(text) => CharsRendered(text, args[Takers(pieces[..i])..]);
    case Percent(d) => PercentRendered(d, args[Takers(pieces[..i])..]);
  }

  /** After the first `n` pieces, the arguments from number Takers onward are left. */
  lemma {:induction false} PiecesSoFar(pieces: seq<Piece>, args: seq<Arg>, n: nat)
    requires Proper(pieces) && n <= |pieces|
    ensures var f := FormatOf(pieces[..n]);
            && Stop(f) == |f|
            && (Fits(f, args) <==> SuppliedTo(pieces, args, n))
            && (Fits(f, args) ==> Takers(pieces[..n]) <= |args| && Unused(f, args) == args[Takers(pieces[..n])..])
            && (Fits(f, args) && Supplied(pieces, args) ==> Rendered(f, args) == Output(pieces, args, n))
    decreases n
  {
    hide Rendered, Fits, Unused, Stop, SuppliedAt, PieceText, PieceFormat, Proper, Takers;
    if n == 0 {
      CharsRendered([], args);
      NoTakers();
      assert pieces[..0] == [];
    } else {
      var f := FormatOf(pieces[..n - 1]);
      PiecesSoFar(pieces, args, n - 1);
      FormatExtends(pieces, n - 1);
      RenderedJoins(f, PieceFormat(pieces[n - 1]), args);
      assert SuppliedTo(pieces, args, n) <==> SuppliedTo(pieces, args, n - 1) && SuppliedAt(pieces, args, n - 1);
      if Fits(f, args) {
        PieceRendered(pieces, args, n - 1);
      } else {
        PieceStops(pieces, n - 1);
      }
    }
  }

  lemma NoTakers()
    ensures Takers([]) == 0
  {
  }

  lemma PieceStops(pieces: seq<Piece>, i: nat)
    requires Proper(pieces) && i < |pieces|
    ensures Stop(PieceFormat(pieces[i])) == |PieceFormat(pieces[i])|
  {
    hide Stop;
    match pieces[i]
    case Chars(text) => CharsRendered(text, []);
    case Percent(d) => PercentRendered(d, []);
  }

  /** For every format of any number of pieces: it fits its arguments exactly when the k-th
      directive that takes one finds its kind at number k, and the output is then the pieces in
      order with the text of argument k at that directive. */
  lemma ArgumentsInOrder(pieces: seq<Piece>, args: seq<Arg>)
    requires Proper(pieces)
    ensures Fits(FormatOf(pieces), args) <==> Supplied(pieces, args)
    ensures Supplied(pieces, args) ==> Rendered(FormatOf(pieces), args) == Output(pieces, args, |pieces|)
  {
    hide Rendered, Fits, Output, Takers;
    PiecesSoFar(pieces, args, |pieces|);
    assert pieces[..|pieces|] == pieces;
  }

  /** The pieces of a format, without a percent sign that dangles at its end. */
  function PiecesOf(f: seq<byte>): seq<Piece>
    decreases |f|
  {
    if f == [] then []
    else if f[0] != 37 then [Chars([f[0]])] + PiecesOf(f[1..])
    else if |f| > 1 then [Percent(f[1])] + PiecesOf(f[2..])
    else []
  }

  lemma FormatStarts(p: Piece, pieces: seq<Piece>)
    ensures FormatOf([p] + pieces) == PieceFormat(p) + FormatOf(pieces)
  {
  }

  /** The percent sign that dangles at the end of a format, if one does. */
  function Dangling(f: seq<byte>): seq<byte> {
    if TrailingPercents(f) % 2 == 0 then [] else [37]
  }

  lemma DanglingStep(f: seq<byte>)
    requires f != []
    ensures f[0] != 37 ==> Dangling(f) == Dangling(f[1..])
    ensures f[0] == 37 && |f| > 1 ==> Dangling(f) == Dangling(f[2..])
    ensures f == [37] ==> Dangling(f) == [37]
  {
    hide TrailingPercents;
    FrontParity(f);
  }

  /** Every format is its pieces, and perhaps a dangling percent sign. */
  lemma {:induction false} EveryFormat(f: seq<byte>)
    ensures Proper(PiecesOf(f))
    ensures f == FormatOf(PiecesOf(f)) + Dangling(f)
    decreases |f|
  {
    hide Dangling, FormatOf;
    if f == [] {
      NoPercents();
      NoFormat();
    } else if f == [37] {
      DanglingStep(f);
      NoFormat();
    } else {
      var n, p := if f[0] == 37 then 2 else 1, if f[0] == 37 then Percent(f[1]) else Chars([f[0]]);
      EveryFormat(f[n..]);
      PieceOff(f, n, p);
    }
  }

  /** The first piece, taken off. */
  lemma PieceOff(f: seq<byte>, n: nat, p: Piece)
    requires f != [] && f != [37]
    requires n == (if f[0] == 37 then 2 else 1) && p == if f[0] == 37 then Percent(f[1]) else Chars([f[0]])
    requires Proper(PiecesOf(f[n..])) && f[n..] == FormatOf(PiecesOf(f[n..])) + Dangling(f[n..])
    ensures Proper(PiecesOf(f)) && f == FormatOf(PiecesOf(f)) + Dangling(f)
  {
    hide Dangling, FormatOf, PiecesOf;
    DanglingStep(f);
    PiecesStep(f, n, p);
    var rest := PiecesOf(f[n..]);
    FormatStarts(p, rest);
    Regroup(PieceFormat(p), FormatOf(rest), Dangling(f));
    assert f[..n] == PieceFormat(p) && f == f[..n] + f[n..];
  }

  lemma PiecesStep(f: seq<byte>, n: nat, p: Piece)
    requires f != [] && f != [37]
    requires n == (if f[0] == 37 then 2 else 1) && p == if f[0] == 37 then Percent(f[1]) else Chars([f[0]])
    ensures PiecesOf(f) == [p] + PiecesOf(f[n..])
  {
  }

  lemma Regroup(a: seq<byte>, b: seq<byte>, c: seq<byte>)
    ensures a + (b + c) == (a + b) + c
  {
  }

  /** So `printf` writes the pieces of its format with their arguments in order; a dangling
      percent sign is written with the NUL behind it. */
  lemma RenderedInOrder(f: seq<byte>, args: seq<Arg>)
    requires Fits(f, args)
    ensures Supplied(PiecesOf(f), args)
    ensures Rendered(f, args) == Output(PiecesOf(f), args, |PiecesOf(f)|)
                                 + if TrailingPercents(f) % 2 == 0 then [] else [37, 0]
  {
    hide TrailingPercents, Rendered, Fits, Output, Supplied, Stop, Unused, Proper;
    var pieces, dangling := PiecesOf(f), Dangling(f);
    EveryFormat(f);
    FormatStops(pieces);
    RenderedJoins(FormatOf(pieces), dangling, args);
    ArgumentsInOrder(pieces, args);
    if dangling == [] {
      CharsRendered([], Unused(FormatOf(pieces), args));
    } else {
      LonePercent(Unused(FormatOf(pieces), args));
    }
  }

  lemma FormatStops(pieces: seq<Piece>)
    requires Proper(pieces)
    ensures Stop(FormatOf(pieces)) == |FormatOf(pieces)|
  {
    PiecesSoFar(pieces, [], |pieces|);
    assert pieces[..|pieces|] == pieces;
  }

  /** The line of `help` for one command: "  %s\t\t- %s\n" writes the name, then the description. */
  lemma HelpLine(name: seq<byte>, description: seq<byte>)
    ensures var f := [32, 32] + [37, 115] + [9, 9, 45, 32] + [37, 115] + [10];
            && Fits(f, [Text(name), Text(description)])
            && Rendered(f, [Text(name), Text(description)]) == [32, 32] + name + [9, 9, 45, 32] + description + [10]
  {
    hide Rendered, Fits;
    var pieces := [Chars([32, 32]), Percent(115), Chars([9, 9, 45, 32]), Percent(115), Chars([10])];
    var args := [Text(name), Text(description)];
    HelpPieces(pieces);
    ArgumentsInOrder(pieces, args);
    assert Output(pieces, args, 0) == [];
    assert Output(pieces, args, 1) == [32, 32];
    assert Output(pieces, args, 2) == [32, 32] + name;
    assert Output(pieces, args, 3) == [32, 32] + name + [9, 9, 45, 32];
    assert Output(pieces, args, 4) == [32, 32] + name + [9, 9, 45, 32] + description;
  }

  lemma HelpPieces(pieces: seq<Piece>)
    requires pieces == [Chars([32, 32]), Percent(115), Chars([9, 9, 45, 32]), Percent(115), Chars([10])]
    ensures FormatOf(pieces) == [32, 32] + [37, 115] + [9, 9, 45, 32] + [37, 115] + [10]
    ensures Takers(pieces[..1]) == 0 && Takers(pieces[..3]) == 1
  {
    hide FormatOf;
    assert pieces[..1][..0] == [] && pieces[..2][..1] == pieces[..1] && pieces[..3][..2] == pieces[..2];
    assert Takers(pieces[..1]) == 0 && Takers(pieces[..2]) == 1;
    FormatExtends(pieces, 0);
    FormatExtends(pieces, 1);
    FormatExtends(pieces, 2);
    FormatExtends(pieces, 3);
    FormatExtends(pieces, 4);
    NoFormat();
    assert pieces[..0] == [] && pieces[..5] == pieces;
  }

  lemma NoFormat()
    ensures FormatOf([]) == []
  {
  }

  // ------------------------------------------------------- the dangling percent

  /** How many percent signs the format ends with. */
  function TrailingPercents(f: seq<byte>): nat {
    if f == [] || f[|f| - 1] != PERCENT then 0 else 1 + TrailingPercents(f[..|f| - 1])
  }

  lemma {:induction false} TrailingJoins(f: seq<byte>, g: seq<byte>)
    ensures TrailingPercents(f + g) ==
            if TrailingPercents(g) == |g| then TrailingPercents(f) + |g| else TrailingPercents(g)
    ensures TrailingPercents(g) <= |g|
    decreases |g|
  {
    if g == [] {
      assert f + g == f;
    } else {
      assert (f + g)[..|f + g| - 1] == f + g[..|g| - 1];
      TrailingJoins(f, g[..|g| - 1]);
    }
  }

  /** One literal or one directive off the front leaves the parity of the trailing run. */
  lemma ParityStep(head: seq<byte>, rest: seq<byte>)
    requires TrailingPercents(head) == 0 || TrailingPercents(head) == 2
    ensures TrailingPercents(head + rest) % 2 == TrailingPercents(rest) % 2
  {
    hide TrailingPercents;
    TrailingJoins(head, rest);
  }

  lemma FrontParity(f: seq<byte>)
    requires f != []
    ensures f[0] != PERCENT ==> TrailingPercents(f) % 2 == TrailingPercents(f[1..]) % 2
    ensures f[0] == PERCENT && |f| > 1 ==> TrailingPercents(f) % 2 == TrailingPercents(f[2..]) % 2
    ensures f == [PERCENT] ==> TrailingPercents(f) == 1
  {
    hide TrailingPercents;
    if f[0] != PERCENT {
      SingleParity(f[0]);
      ParityStep([f[0]], f[1..]);
      assert f == [f[0]] + f[1..];
    } else if |f| > 1 {
      PairParity(f[1]);
      ParityStep([PERCENT, f[1]], f[2..]);
      assert f == [PERCENT, f[1]] + f[2..];
    } else {
      SingleParity(PERCENT);
      assert f == [PERCENT];
    }
  }

  lemma SingleParity(c: byte)
    ensures TrailingPercents([c]) == if c == PERCENT then 1 else 0
  {
  }

  lemma PairParity(c: byte)
    ensures TrailingPercents([PERCENT, c]) == if c == PERCENT then 2 else 0
  {
    assert [PERCENT][..0] == [] && TrailingPercents([PERCENT]) == 1;
    assert [PERCENT, c][..1] == [PERCENT];
  }

  /** The format pointer of `printf` comes to rest on the terminating NUL exactly when the format
      ends in an even number of percent signs; with an odd number it passes the NUL by one. */
  lemma {:induction false} SafeFormat(f: seq<byte>)
    ensures Stop(f) == if TrailingPercents(f) % 2 == 0 then |f| else |f| + 1
    decreases |f|
  {
    hide TrailingPercents;
    if f == [] {
      NoPercents();
    } else {
      FrontParity(f);
      if f[0] != PERCENT {
        SafeFormat(f[1..]);
      } else if |f| > 1 {
        SafeFormat(f[2..]);
      } else {
        assert f == [PERCENT];
      }
    }
  }

  lemma NoPercents()
    ensures TrailingPercents([]) == 0 && Dangling([]) == []
  {
  }

  /** `printf("100%")` writes a percent sign and a NUL and steps over the terminator. */
  lemma DanglingPercent(args: seq<Arg>)
    ensures var f := [49, 48, 48, PERCENT];
            Fits(f, args) && Rendered(f, args) == f + [NUL] && Stop(f) == |f| + 1
  {
    var f := [49, 48, 48, PERCENT];
    assert f[1..] == [48, 48, PERCENT] && [48, 48, PERCENT][1..] == [48, PERCENT] && [48, PERCENT][1..] == [PERCENT];
    LonePercent(args);
    assert Rendered([48, PERCENT], args) == [48, PERCENT, NUL];
    assert Rendered([48, 48, PERCENT], args) == [48, 48, PERCENT, NUL];
    assert Stop([48, PERCENT]) == 3 && Stop([48, 48, PERCENT]) == 4;
  }

  lemma LonePercent(args: seq<Arg>)
    ensures Fits([PERCENT], args) && Rendered([PERCENT], args) == [PERCENT, NUL] && Stop([PERCENT]) == 2
  {
    assert [PERCENT, NUL] + [] == [PERCENT, NUL];
    assert Rendered([], args) == [];
  }
}
