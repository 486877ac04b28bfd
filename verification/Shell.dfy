/** The shell's tokenizer, which cuts a command line into words in place, and the words
    themselves as a function of the text. */
module Shell {
  import opened Words

  /** The null pointer that ends an argument vector; other pointers are indices into the line. */
  const NULL_ARG: int := -1

  predicate IsSpace(c: byte) {
    c == SPACE || c == TAB || c == NEWLINE || c == RETURN
  }

  // ------------------------------------------------------------------------- words

  /** The length of the run of non-space bytes that `s` starts with. */
  function WordLength(s: seq<byte>): (n: nat)
    ensures n <= |s|
    ensures n < |s| ==> IsSpace(s[n])
    ensures forall i :: 0 <= i < n ==> !IsSpace(s[i])
  {
    if s == [] || IsSpace(s[0]) then 0 else 1 + WordLength(s[1..])
  }

  function WordsOf(s: seq<byte>): seq<seq<byte>>
    decreases |s|
  {
    if s == [] then []
    else if IsSpace(s[0]) then WordsOf(s[1..])
    else [s[..WordLength(s)]] + WordsOf(s[WordLength(s)..])
  }

  /** Blank, tab, line feed and carriage return. */
  predicate Separates(c: byte) {
    c == 32 || c == 9 || c == 10 || c == 13
  }

  predicate IsWord(w: seq<byte>) {
    w != [] && forall i :: 0 <= i < |w| ==> !Separates(w[i]) && w[i] != 0
  }

  lemma WordLengthIs(w: seq<byte>, rest: seq<byte>)
    requires forall i :: 0 <= i < |w| ==> !IsSpace(w[i])
    requires rest == [] || IsSpace(rest[0])
    ensures WordLength(w + rest) == |w|
  {
    var s, n := w + rest, WordLength(w + rest);
    assert forall i :: 0 <= i < |w| ==> s[i] == w[i];
    assert rest != [] ==> s[|w|] == rest[0];
  }

  /** A word followed by nothing or by a space is the first word. */
  lemma FirstWord(w: seq<byte>, rest: seq<byte>)
    requires w != [] && forall i :: 0 <= i < |w| ==> !IsSpace(w[i])
    requires rest == [] || IsSpace(rest[0])
    ensures WordsOf(w + rest) == [w] + WordsOf(rest)
  {
    WordLengthIs(w, rest);
    assert (w + rest)[..|w|] == w && (w + rest)[|w|..] == rest;
  }

  lemma SpaceSkipped(c: byte, s: seq<byte>)
    requires IsSpace(c)
    ensures WordsOf([c] + s) == WordsOf(s)
  {
  }

  lemma {:induction false} WordsAreWords(s: seq<byte>)
    requires NUL !in s
    ensures forall j :: 0 <= j < |WordsOf(s)| ==> IsWord(WordsOf(s)[j])
    decreases |s|
  {
    if s == [] {
    } else {
      if IsSpace(s[0]) {
        WordsAreWords(s[1..]);
      } else {
        WordsAreWords(s[WordLength(s)..]);
      }
    }
  }

  /** Where the words of `s` start, counting from `o`. */
  function Starts(s: seq<byte>, o: nat): (r: seq<nat>)
    ensures |r| == |WordsOf(s)|
    decreases |s|
  {
    if s == [] then []
    else if IsSpace(s[0]) then Starts(s[1..], o + 1)
    else [o] + Starts(s[WordLength(s)..], o + WordLength(s))
  }

  predicate InWord(words: seq<seq<byte>>, starts: seq<nat>, j: nat, i: int)
    requires |starts| == |words|
  {
    j < |words| && starts[j] <= i < starts[j] + |words[j]|
  }

  ghost predicate InSome(words: seq<seq<byte>>, starts: seq<nat>, i: int)
    requires |starts| == |words|
  {
    exists j: nat :: InWord(words, starts, j, i)
  }

  predicate WordAt(text: seq<byte>, words: seq<seq<byte>>, starts: seq<nat>, j: nat)
    requires j < |words| == |starts|
  {
    && words[j] != [] && starts[j] + |words[j]| <= |text|
    && text[starts[j]..starts[j] + |words[j]|] == words[j]
    && (j + 1 < |words| ==> starts[j] + |words[j]| < starts[j + 1])
  }

  /** From index `o` on, the words stand at their starts, one after another with gaps between
      them, and the bytes in no word are exactly the separators. */
  ghost predicate Standing(text: seq<byte>, o: nat, words: seq<seq<byte>>, starts: seq<nat>) {
    && |starts| == |words|
    && (forall j :: 0 <= j < |words| ==> o <= starts[j] && WordAt(text, words, starts, j))
    && (forall i :: o <= i < |text| ==> (Separates(text[i]) <==> !InSome(words, starts, i)))
  }

  lemma StandingMore(text: seq<byte>, o: nat, n: nat, words: seq<seq<byte>>, starts: seq<nat>)
    requires 0 < n && o + n <= |text| && Standing(text, o + n, words, starts)
    requires forall i :: o <= i < o + n ==> !Separates(text[i])
    requires o + n < |text| ==> Separates(text[o + n])
    ensures Standing(text, o, [text[o..o + n]] + words, [o] + starts)
  {
    var ws, ss := [text[o..o + n]] + words, [o] + starts;
    forall j | 0 <= j < |ws|
      ensures o <= ss[j] && WordAt(text, ws, ss, j)
    {
      if j > 0 {
        assert WordAt(text, words, starts, j - 1);
      } else if |words| > 0 {
        assert WordAt(text, words, starts, 0);
        assert InWord(words, starts, 0, starts[0]);
        assert !Separates(text[starts[0]]);
      }
    }
    forall i | o <= i < |text|
      ensures Separates(text[i]) <==> !InSome(ws, ss, i)
    {
      InSomeShift(text[o..o + n], words, o, starts, i);
    }
  }

  lemma InSomeShift(w: seq<byte>, words: seq<seq<byte>>, o: nat, starts: seq<nat>, i: int)
    requires |starts| == |words|
    ensures InSome([w] + words, [o] + starts, i) <==> o <= i < o + |w| || InSome(words, starts, i)
  {
    if o <= i < o + |w| {
      assert InWord([w] + words, [o] + starts, 0, i);
    }
    if InSome(words, starts, i) {
      var j: nat :| InWord(words, starts, j, i);
      assert InWord([w] + words, [o] + starts, j + 1, i);
    }
    if InSome([w] + words, [o] + starts, i) {
      var j: nat :| InWord([w] + words, [o] + starts, j, i);
      assert j > 0 ==> InWord(words, starts, j - 1, i);
    }
  }

  /** The words are the maximal runs of bytes other than blank, tab, line feed and carriage
      return, in the order in which they stand. */
  lemma {:induction false} WordsAreRuns(text: seq<byte>, o: nat)
    requires o <= |text|
    ensures Standing(text, o, WordsOf(text[o..]), Starts(text[o..], o))
    decreases |text| - o
  {
    hide Standing, WordLength;
    var s := text[o..];
    if s == [] {
      NothingStands(text, o);
    } else if IsSpace(s[0]) {
      assert s[1..] == text[o + 1..];
      WordsAreRuns(text, o + 1);
      StandingSkips(text, o, WordsOf(s), Starts(s, o));
    } else {
      var n := WordLength(s);
      assert s[n..] == text[o + n..] && s[..n] == text[o..o + n];
      FirstRun(text, o);
      WordsAreRuns(text, o + n);
      StandingMore(text, o, n, WordsOf(s[n..]), Starts(s[n..], o + n));
    }
  }

  lemma FirstRun(text: seq<byte>, o: nat)
    requires o < |text|
    ensures var n := WordLength(text[o..]);
            && (forall i :: o <= i < o + n ==> !Separates(text[i]))
            && (o + n < |text| ==> Separates(text[o + n]))
  {
    var s := text[o..];
    assert forall i :: o <= i < o + WordLength(s) ==> text[i] == s[i - o];
  }

  lemma NothingStands(text: seq<byte>, o: nat)
    requires o >= |text|
    ensures Standing(text, o, [], [])
  {
  }

  lemma StandingSkips(text: seq<byte>, o: nat, words: seq<seq<byte>>, starts: seq<nat>)
    requires o < |text| && Separates(text[o]) && Standing(text, o + 1, words, starts)
    ensures Standing(text, o, words, starts)
  {
    assert !InSome(words, starts, o);
  }

  // --------------------------------------------------------------------- C strings

  /** The string a pointer to index `p` denotes: the bytes up to the first NUL. */
  function CString(buf: seq<byte>, p: nat): seq<byte>
    requires p <= |buf|
    decreases |buf| - p
  {
    if p == |buf| || buf[p] == NUL then [] else [buf[p]] + CString(buf, p + 1)
  }

  predicate Holds(buf: seq<byte>, p: nat, w: seq<byte>) {
    && p + |w| < |buf|
    && buf[p..p + |w|] == w
    && buf[p + |w|] == NUL
    && NUL !in w
  }

  lemma {:induction false} HeldString(buf: seq<byte>, p: nat, w: seq<byte>)
    requires Holds(buf, p, w)
    ensures CString(buf, p) == w
    decreases |w|
  {
    if w == [] {
    } else {
      assert buf[p] == w[0] by {
        assert buf[p..p + |w|][0] == buf[p];
      }
      assert buf[p + 1..p + |w|] == w[1..] by {
        assert buf[p..p + |w|][1..] == buf[p + 1..p + |w|];
      }
      assert NUL !in w[1..];
      HeldString(buf, p + 1, w[1..]);
    }
  }

  // --------------------------------------------------------------------- tokenize

  /** From `pos` the buffer holds text, up to the NUL at `len`. */
  ghost predicate Unread(buf: seq<byte>, pos: nat, len: nat) {
    pos <= len < |buf| && buf[len] == NUL && forall i :: pos <= i < len ==> buf[i] != NUL
  }

  /** The words a call returns: at most `maxArgs` of them. */
  function Taken(text: seq<byte>, maxArgs: int): nat {
    Min(if maxArgs < 0 then 0 else maxArgs, |WordsOf(text)|)
  }

  /** The inner loop that skips whitespace from `pos`. */
  method SkipSpaces(line: array<byte>, pos: nat, ghost len: nat) returns (p: nat)
    requires Unread(line[..], pos, len)
    ensures pos <= p <= len && !IsSpace(line[p])
    ensures WordsOf(line[p..len]) == WordsOf(line[pos..len])
  {
    p := pos;
    while line[p] == SPACE || line[p] == TAB || line[p] == NEWLINE || line[p] == RETURN
      invariant pos <= p <= len
      invariant WordsOf(line[p..len]) == WordsOf(line[pos..len])
      decreases len - p
    {
      assert line[p..len][1..] == line[p + 1..len];
      p := p + 1;
    }
  }

  /** The inner loop that scans to the end of the word at `pos`. */
  method ScanWord(line: array<byte>, pos: nat, ghost len: nat) returns (p: nat)
    requires Unread(line[..], pos, len) && pos < len && !IsSpace(line[pos])
    ensures pos < p <= len && (p < len ==> IsSpace(line[p]))
    ensures WordsOf(line[pos..len]) == [line[pos..p]] + WordsOf(line[p..len])
  {
    p := pos;
    while line[p] != NUL && line[p] != SPACE && line[p] != TAB && line[p] != NEWLINE && line[p] != RETURN
      invariant pos <= p <= len
      invariant forall i :: pos <= i < p ==> !IsSpace(line[i])
      decreases len - p
    {
      p := p + 1;
    }
    FirstWord(line[pos..p], line[p..len]);
    assert line[pos..p] + line[p..len] == line[pos..len];
  }

  /** The first `count` words are pointed at, complete and terminated before `pos`. */
  ghost predicate Cut(buf: seq<byte>, args: seq<int>, words: seq<seq<byte>>, count: nat, pos: nat, len: nat) {
    && count <= |args| && count <= |words| && len < |buf|
    && forall j :: 0 <= j < count ==>
         && 0 <= args[j] < len
         && Holds(buf, args[j], words[j])
         && (args[j] + |words[j]| < pos || args[j] + |words[j]| == len)
  }

  lemma CutStays(buf: seq<byte>, buf': seq<byte>, args: seq<int>, args': seq<int>, words: seq<seq<byte>>,
                 count: nat, pos: nat, pos': nat, len: nat)
    requires Cut(buf, args, words, count, pos, len) && pos <= pos' <= len + 1
    requires |buf'| == |buf| && count <= |args'| && args'[..count] == args[..count]
    requires forall i :: 0 <= i < |buf| && (i < pos || i == len) ==> buf'[i] == buf[i]
    requires forall j :: 0 <= j < count ==> args[j] + |words[j]| < pos
    ensures Cut(buf', args', words, count, pos', len)
  {
  }

  /** `now` is `was` with some of the whitespace before `pos` overwritten by NUL. */
  ghost predicate Blanked(was: seq<byte>, now: seq<byte>, pos: nat) {
    |now| == |was| && forall i :: 0 <= i < |was| ==>
      now[i] == was[i] || (i < pos && Separates(was[i]) && now[i] == 0)
  }

  /** Cuts the NUL-terminated line into words in place. The vector needs a slot for every word
      taken; `overrun` says that the terminator was stored one past its end. */
  method Tokenize(line: array<byte>, args: array<int>, maxArgs: int, ghost len: nat)
    returns (count: nat, overrun: bool)
    requires Unread(line[..], 0, len)
    requires Taken(line[..len], maxArgs) <= args.Length
    modifies line, args
    ensures count == Taken(old(line[..len]), maxArgs)
    ensures forall j :: 0 <= j < count ==>
              0 <= args[j] < len && CString(line[..], args[j]) == WordsOf(old(line[..len]))[j]
    ensures overrun <==> count == args.Length
    ensures !overrun ==> args[count] == NULL_ARG
    ensures Blanked(old(line[..]), line[..], len)
    ensures forall j :: count < j < args.Length ==> args[j] == old(args[j])
  {
    hide WordsOf, Holds, Blanked;
    ghost var words := WordsOf(line[..len]);
    count := CutWords(line, args, maxArgs, len);
    ghost var filled := args[..];
    overrun := count >= args.Length;
    if !overrun {
      args[count] := NULL_ARG;
    }
    forall j | 0 <= j < count
      ensures 0 <= args[j] < len && CString(line[..], args[j]) == words[j]
    {
      assert args[j] == filled[j];
      HeldString(line[..], filled[j], words[j]);
    }
  }

  /** What the outer loop keeps: the words cut so far are the first ones, the rest of the
      words are in the unread text, and only whitespace behind `pos` was overwritten. */
  ghost predicate Progress(was: seq<byte>, buf: seq<byte>, args: seq<int>, words: seq<seq<byte>>,
                           count: nat, pos: nat, len: nat)
  {
    && Unread(buf, pos, len)
    && count <= |words| && words == words[..count] + WordsOf(buf[pos..len])
    && Cut(buf, args, words, count, pos, len)
    && (buf[pos] != NUL ==> forall j :: 0 <= j < count ==> args[j] + |words[j]| < pos)
    && Blanked(was, buf, pos)
  }

  /** The outer loop of `tokenize`. */
  method CutWords(line: array<byte>, args: array<int>, maxArgs: int, ghost len: nat) returns (count: nat)
    requires Unread(line[..], 0, len)
    requires Taken(line[..len], maxArgs) <= args.Length
    modifies line, args
    ensures count == Taken(old(line[..len]), maxArgs)
    ensures Cut(line[..], args[..], WordsOf(old(line[..len])), count, len + 1, len)
    ensures Blanked(old(line[..]), line[..], len)
    ensures args[count..] == old(args[count..])
  {
    ghost var words := WordsOf(line[..len]);
    count := 0;
    var pos: nat, done := 0, false;
    StartProgress(line[..], args[..], len);
    hide WordsOf, Holds, Progress;
    while !done && line[pos] != NUL && count < maxArgs
      invariant pos <= len < line.Length && count <= Taken(old(line[..len]), maxArgs)
      invariant Progress(old(line[..]), line[..], args[..], words, count, pos, len)
      invariant done ==> line[pos] == NUL
      invariant args[count..] == old(args[count..])
      decreases !done, len - pos
    {
      count, pos, done := CutNext(line, args, count, pos, len, words, old(line[..]));
    }
    EndProgress(old(line[..]), line[..], args[..], words, count, pos, len);
  }

  lemma StartProgress(buf: seq<byte>, args: seq<int>, len: nat)
    requires Unread(buf, 0, len)
    ensures Progress(buf, buf, args, WordsOf(buf[..len]), 0, 0, len)
  {
  }

  lemma EndProgress(was: seq<byte>, buf: seq<byte>, args: seq<int>, words: seq<seq<byte>>,
                    count: nat, pos: nat, len: nat)
    requires Progress(was, buf, args, words, count, pos, len)
    ensures count <= |words| && Cut(buf, args, words, count, len + 1, len) && Blanked(was, buf, len)
    ensures buf[pos] == NUL ==> count == |words|
  {
  }

  /** One round of the outer loop: skip whitespace, stop at the end, or cut off a word. */
  method CutNext(line: array<byte>, args: array<int>, count: nat, pos: nat, ghost len: nat,
                 ghost words: seq<seq<byte>>, ghost was: seq<byte>)
    returns (count': nat, pos': nat, done: bool)
    requires Progress(was, line[..], args[..], words, count, pos, len) && line[pos] != NUL
    requires count < |words| ==> count < args.Length
    modifies line, args
    ensures Progress(was, line[..], args[..], words, count', pos', len)
    ensures if done then count' == count && line[pos'] == NUL else count' == count + 1 && pos < pos'
    ensures args[count'..] == old(args[count'..])
  {
    hide WordsOf, Holds;
    count', done := count, false;
    pos' := SkipSpaces(line, pos, len);
    CutStays(line[..], line[..], args[..], args[..], words, count, pos, pos', len);
    if line[pos'] == NUL {
      done := true;
      return;
    }
    var start := pos';
    pos' := ScanWord(line, start, len);
    ghost var left := WordsOf(line[pos'..len]);
    assert words == words[..count] + [line[start..pos']] + left;
    count', pos' := AddWord(line, args, count, start, pos', len, words);
    assert WordsOf(line[pos'..len]) == left;
  }

  /** Stores the pointer to the word `start..end` and cuts the line there. */
  method AddWord(line: array<byte>, args: array<int>, count: nat, start: nat, end: nat, ghost len: nat,
                 ghost words: seq<seq<byte>>) returns (count': nat, pos: nat)
    requires Cut(line[..], args[..], words, count, start, len)
    requires forall j :: 0 <= j < count ==> args[j] + |words[j]| < start
    requires start < end <= len && Unread(line[..], start, len) && count < args.Length && count < |words|
    requires end < len ==> IsSpace(line[end])
    requires words[count] == line[start..end]
    modifies line, args
    ensures count' == count + 1 && args[..] == old(args[..])[count := start]
    ensures end <= pos <= len && Unread(line[..], pos, len)
    ensures Cut(line[..], args[..], words, count', pos, len)
    ensures line[pos] != NUL ==> forall j :: 0 <= j < count' ==> args[j] + |words[j]| < pos
    ensures WordsOf(line[pos..len]) == old(WordsOf(line[end..len]))
    ensures line[..] == if end < len then old(line[..])[end := NUL] else old(line[..])
  {
    args[count] := start;
    count' := count + 1;
    pos := end;
    if line[pos] != NUL {
      assert line[end..len][1..] == line[end + 1..len];
      line[pos] := NUL;
      pos := pos + 1;
      assert line[pos..len] == old(line[end + 1..len]);
    }
    assert line[start..end] == words[count];
    assert Holds(line[..], start, words[count]) by {
      assert line[..][start..end] == words[count];
    }
    CutStays(old(line[..]), line[..], old(args[..]), args[..], words, count, start, pos, len);
  }

  // ------------------------------------------------------ the shell's own vector

  /** "a a ... a", `n` words. */
  function Letters(n: nat): seq<byte> {
    if n == 0 then [] else if n == 1 then [97] else [97, SPACE] + Letters(n - 1)
  }

  lemma {:induction false} LettersWords(n: nat)
    ensures |WordsOf(Letters(n))| == n && NUL !in Letters(n) && |Letters(n)| <= 2 * n
    decreases n
  {
    if n == 1 {
      FirstWord([97], []);
      assert [97] + [] == [97];
    } else if n > 1 {
      LettersWords(n - 1);
      FirstWord([97], [SPACE] + Letters(n - 1));
      SpaceSkipped(SPACE, Letters(n - 1));
      assert [97] + ([SPACE] + Letters(n - 1)) == Letters(n);
    }
  }

  const SHELL_ARGS: nat := 16
  const LINE_BYTES: nat := 128

  /** The shell's own call: a vector of 16 slots and a limit of 16 words. For every line the
      scan stops after min(16, words) words, and the terminator is stored past the vector, at
      index 16, exactly when the line has 16 words or more. */
  method ShellTokenize(line: array<byte>, argv: array<int>, ghost len: nat) returns (argc: nat, overrun: bool)
    requires Unread(line[..], 0, len) && argv.Length == SHELL_ARGS
    modifies line, argv
    ensures argc == Min(SHELL_ARGS, |WordsOf(old(line[..len]))|)
    ensures overrun <==> |WordsOf(old(line[..len]))| >= SHELL_ARGS
    ensures overrun ==> argc == SHELL_ARGS
    ensures !overrun ==> argv[argc] == NULL_ARG
    ensures forall j :: 0 <= j < argc ==>
              0 <= argv[j] < len && CString(line[..], argv[j]) == WordsOf(old(line[..len]))[j]
  {
    hide WordsOf;
    argc, overrun := Tokenize(line, argv, SHELL_ARGS, len);
  }

  /** The shell's line buffer holding a text. */
  method LineBuffer(text: seq<byte>) returns (line: array<byte>)
    requires |text| < LINE_BYTES && NUL !in text
    ensures fresh(line) && line.Length == LINE_BYTES
    ensures Unread(line[..], 0, |text|) && line[..|text|] == text
  {
    line := new byte[LINE_BYTES](i => if 0 <= i < |text| then text[i] else NUL);
    assert forall i :: 0 <= i < |text| ==> text[i] in text;
  }

  /** Such a line fits the buffer: at most 32 bytes with 16 one-letter words. */
  method SixteenWordsOverrun() returns (argc: nat, overrun: bool)
    ensures argc == SHELL_ARGS && overrun
  {
    hide WordsOf, Letters;
    var n: nat := SHELL_ARGS;
    LettersWords(n);
    var line := LineBuffer(Letters(n));
    var argv := new int[SHELL_ARGS];
    argc, overrun := ShellTokenize(line, argv, |Letters(n)|);
  }
}
