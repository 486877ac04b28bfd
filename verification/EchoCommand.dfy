/** The `echo` builtin as the printer that the tokenizer inverts. */
module EchoCommand {
  import opened Words
  import opened Shell
  import opened Stdio

  /** "echo" */
  const ECHO: seq<byte> := [101, 99, 104, 111]

  /** The words with single blanks between them. */
  function Joined(words: seq<seq<byte>>): seq<byte> {
    if words == [] then []
    else if |words| == 1 then words[0]
    else words[0] + [SPACE] + Joined(words[1..])
  }

  /** What `echo` writes for an argument vector, command name first. */
  function Echoed(argv: seq<seq<byte>>): seq<byte> {
    Joined(if argv == [] then [] else argv[1..]) + [NEWLINE]
  }

  /** Where word `k` starts when every word is followed by one byte. */
  function Offset(words: seq<seq<byte>>, k: nat): nat
    requires k <= |words|
  {
    if k == 0 then 0 else |words[0]| + 1 + Offset(words[1..], k - 1)
  }

  /** Word `k` stands at its offset, followed by a blank, or by `end` if it is the last. */
  predicate StandsAt(out: seq<byte>, words: seq<seq<byte>>, end: byte, k: nat)
    requires k < |words|
  {
    var o, n := Offset(words, k), |words[k]|;
    && o + n < |out| && out[o..o + n] == words[k]
    && out[o + n] == if k + 1 < |words| then 32 else end
  }

  lemma {:induction false} JoinedLength(words: seq<seq<byte>>)
    requires words != []
    ensures |Joined(words)| + 1 == Offset(words, |words|)
    decreases |words|
  {
    if |words| == 1 {
    } else {
      JoinedLength(words[1..]);
    }
  }

  /** A word that stands somewhere in the rest stands as far behind the first word and its blank. */
  lemma StandsLater(words: seq<seq<byte>>, more: seq<byte>, end: byte, k: nat)
    requires 0 < k < |words| && StandsAt(more, words[1..], end, k - 1)
    ensures StandsAt(words[0] + [32] + more, words, end, k)
  {
    var out, n := words[0] + [32] + more, |words[0]| + 1;
    var o, m := Offset(words[1..], k - 1), |words[k]|;
    assert out[n..] == more && words[1..][k - 1] == words[k];
    assert out[n + o..n + o + m] == more[o..o + m];
    assert Offset(words, k) == n + o;
  }

  lemma {:induction false} JoinedStands(words: seq<seq<byte>>, end: byte, k: nat)
    requires k < |words|
    ensures StandsAt(Joined(words) + [end], words, end, k)
    decreases k
  {
    hide StandsAt;
    if |words| == 1 {
      LastStands(words[0], end);
      assert words == [words[0]];
    } else {
      var more := Joined(words[1..]) + [end];
      assert Joined(words) + [end] == words[0] + [32] + more;
      if k == 0 {
        FirstStands(words, more, end);
      } else {
        JoinedStands(words[1..], end, k - 1);
        StandsLater(words, more, end, k);
      }
    }
  }

  lemma LastStands(w: seq<byte>, end: byte)
    ensures StandsAt(w + [end], [w], end, 0)
  {
  }

  lemma FirstStands(words: seq<seq<byte>>, more: seq<byte>, end: byte)
    requires |words| > 1
    ensures StandsAt(words[0] + [32] + more, words, end, 0)
  {
  }

  /** The arguments after the first in order, a blank (32) after each but the last, a line feed
      (10) at the end, and nothing else. */
  ghost predicate LaidOut(argv: seq<seq<byte>>, out: seq<byte>) {
    if |argv| <= 1 then out == [10]
    else
      && |out| == Offset(argv[1..], |argv| - 1) && out[|out| - 1] == 10
      && forall k :: 0 <= k < |argv| - 1 ==> StandsAt(out, argv[1..], 10, k)
  }

  lemma EchoedLaidOut(argv: seq<seq<byte>>)
    ensures LaidOut(argv, Echoed(argv))
  {
    hide StandsAt, Offset;
    if |argv| > 1 {
      JoinedLength(argv[1..]);
      forall k | 0 <= k < |argv| - 1
        ensures StandsAt(Echoed(argv), argv[1..], 10, k)
      {
        JoinedStands(argv[1..], 10, k);
      }
    }
  }

  /** `printf("%s", text)`. */
  method PrintText(text: seq<byte>) returns (out: seq<byte>)
    ensures out == text
  {
    hide Rendered, Fits, Supplied, Output, PiecesOf;
    StringVerbatim(text);
    assert [PERCENT, 115, NUL][..2] == [PERCENT, 115];
    var rest;
    out, rest := Printf([PERCENT, 115, NUL], [Text(text)]);
  }

  /** `printf` of a format of one literal character. */
  method PrintLiteral(c: byte) returns (out: seq<byte>)
    requires c != PERCENT && c != NUL
    ensures out == [c]
  {
    hide Rendered, Fits, Supplied, Output, PiecesOf;
    Literal(c);
    assert [c, NUL][..1] == [c];
    var rest;
    out, rest := Printf([c, NUL], []);
  }

  lemma Literal(c: byte)
    requires c != PERCENT
    ensures Fits([c], []) && Rendered([c], []) == [c]
  {
  }

  lemma JoinedNext(words: seq<seq<byte>>, i: nat)
    requires i < |words|
    ensures Joined(words[i..]) == words[i] + (if i < |words| - 1 then [SPACE] else []) + Joined(words[i + 1..])
  {
    assert words[i..][1..] == words[i + 1..];
  }

  /** `cmd_echo`. */
  method CmdEcho(argv: seq<seq<byte>>) returns (out: seq<byte>)
    ensures out == Echoed(argv) && LaidOut(argv, out)
  {
    hide Joined, LaidOut;
    out := [];
    var i := 1;
    NothingJoined();
    while i < |argv|
      invariant 1 <= i && (i <= |argv| || argv == [])
      invariant out + Joined(if i <= |argv| then argv[i..] else []) == Joined(if argv == [] then [] else argv[1..])
    {
      JoinedNext(argv, i);
      var text := PrintText(argv[i]);
      out := out + text;
      if i < |argv| - 1 {
        var blank := PrintLiteral(SPACE);
        out := out + blank;
      }
      i := i + 1;
    }
    assert (if i <= |argv| then argv[i..] else []) == [];
    assert out + [] == out;
    var end := PrintLiteral(NEWLINE);
    out := out + end;
    EchoedLaidOut(argv);
  }

  lemma NothingJoined()
    ensures Joined([]) == []
  {
  }

  lemma JoinedFirst(words: seq<seq<byte>>, rest: seq<byte>)
    requires |words| > 1
    ensures Joined(words) + rest == words[0] + ([SPACE] + (Joined(words[1..]) + rest))
  {
  }

  lemma {:induction false} JoinedWords(words: seq<seq<byte>>, rest: seq<byte>)
    requires forall j :: 0 <= j < |words| ==> IsWord(words[j])
    requires rest != [] && IsSpace(rest[0])
    ensures WordsOf(Joined(words) + rest) == words + WordsOf(rest)
    decreases |words|
  {
    hide WordsOf;
    if words == [] {
      assert Joined(words) + rest == rest;
    } else if |words| == 1 {
      FirstWord(words[0], rest);
      assert words == [words[0]];
    } else {
      var more := Joined(words[1..]) + rest;
      JoinedWords(words[1..], rest);
      JoinedFirst(words, rest);
      FirstWord(words[0], [SPACE] + more);
      SpaceSkipped(SPACE, more);
      assert words + WordsOf(rest) == [words[0]] + (words[1..] + WordsOf(rest));
    }
  }

  lemma EchoedWords(argv: seq<seq<byte>>)
    requires argv != [] && forall j :: 0 <= j < |argv| ==> IsWord(argv[j])
    ensures WordsOf(ECHO + [SPACE] + Echoed(argv)) == [ECHO] + argv[1..]
  {
    var tail := Joined(argv[1..]) + [NEWLINE];
    JoinedWords(argv[1..], [NEWLINE]);
    SpaceSkipped(NEWLINE, []);
    assert [NEWLINE] + [] == [NEWLINE];
    FirstWord(ECHO, [SPACE] + tail);
    SpaceSkipped(SPACE, tail);
    assert ECHO + [SPACE] + Echoed(argv) == ECHO + ([SPACE] + tail);
  }

  /** Printer and parser undo each other: typing "echo" and then what `echo` printed for any
      tokenized line gives the same arguments after the command name. */
  lemma EchoRoundTrip(text: seq<byte>, maxArgs: int)
    requires NUL !in text && 0 < |WordsOf(text)| < maxArgs
    ensures var argv := WordsOf(text);
            var again := ECHO + [SPACE] + Echoed(argv);
            && Taken(text, maxArgs) == |argv| == Taken(again, maxArgs)
            && WordsOf(again) == [ECHO] + argv[1..]
  {
    WordsAreWords(text);
    EchoedWords(WordsOf(text));
  }
}
