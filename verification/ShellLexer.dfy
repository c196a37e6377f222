/** The shell lexer of hack/verify-kubernetes-support.go: here-document bodies are blanked so
that what they hold cannot be mistaken for shell code, and a second scanner decides which
offsets of the blanked text lie inside a quote.

The specification reads the text token by token: a quoted string, a comment, an escape, an
opener and its delimiter word, a body. The code reads it byte by byte.
 */
module ShellLexer {
  import opened Results

  newtype byte = x: int | 0 <= x < 256

  const TAB: byte := 9
  const NEWLINE: byte := 10
  const RETURN: byte := 13
  const SPACE: byte := 32
  const DOUBLE: byte := 34
  const HASH: byte := 35
  const AMPERSAND: byte := 38
  const SINGLE: byte := 39
  const OPEN: byte := 40
  const CLOSE: byte := 41
  const DASH: byte := 45
  const SEMICOLON: byte := 59
  const LESS: byte := 60
  const GREATER: byte := 62
  const BACKSLASH: byte := 92
  const PIPE: byte := 124

  predicate IsBlank(b: byte) {
    b == SPACE || b == TAB
  }

  predicate EndsWord(b: byte) {
    || b == SPACE || b == TAB || b == RETURN || b == NEWLINE || b == SEMICOLON || b == PIPE
    || b == AMPERSAND || b == OPEN || b == CLOSE || b == LESS || b == GREATER
  }

  function CharOf(b: byte): char { (b as int) as char }

  /** The bytes, as the characters the shell gives a meaning. */
  lemma BytesAreCharacters(b: byte)
    ensures IsBlank(b) <==> CharOf(b) in " \t"
    ensures EndsWord(b) <==> CharOf(b) in " \t\r\n;|&()<>"
    ensures CharOf(SINGLE) == '\'' && CharOf(DOUBLE) == '"' && CharOf(BACKSLASH) == '\\'
    ensures CharOf(HASH) == '#' && CharOf(LESS) == '<' && CharOf(DASH) == '-' && CharOf(SPACE) == ' '
    ensures CharOf(TAB) == '\t' && CharOf(NEWLINE) == '\n' && CharOf(RETURN) == '\r'
  {
  }

  datatype State = Plain | InSingle | InDouble | InComment

  /** What the byte at an offset is read as: code in a quoting state, part of a here-document
      opener in the quoting state of its word, or part of a here-document. */
  datatype Label = Code(state: State) | Opener(state: State) | Body

  function StateOf(l: Label): State {
    match l
    case Code(s) => s
    case Opener(s) => s
    case Body => Plain
  }

  function Repeat(l: Label, n: nat): (r: seq<Label>) {
    seq(n, _ => l)
  }

  // ------------------------------------------------------------------- tokens

  /** The first single quote from i on, or the end of the text. */
  ghost function SingleEnd(c: seq<byte>, i: nat): (j: nat)
    requires i <= |c|
    ensures i <= j <= |c|
    decreases |c| - i
  {
    if i == |c| || c[i] == SINGLE then i else SingleEnd(c, i + 1)
  }

  /** The first unescaped double quote from i on, or the end of the text. */
  ghost function DoubleEnd(c: seq<byte>, i: nat): (j: nat)
    requires i <= |c|
    ensures i <= j <= |c|
    decreases |c| - i
  {
    if i == |c| || c[i] == DOUBLE then i
    else if c[i] == BACKSLASH && i + 1 < |c| then DoubleEnd(c, i + 2)
    else DoubleEnd(c, i + 1)
  }

  /** The first newline from i on, or the end of the text. */
  ghost function LineEnd(c: seq<byte>, i: nat): (j: nat)
    requires i <= |c|
    ensures i <= j <= |c|
    ensures j < |c| ==> c[j] == NEWLINE
    ensures forall k :: i <= k < j ==> c[k] != NEWLINE
    decreases |c| - i
  {
    if i == |c| || c[i] == NEWLINE then i else LineEnd(c, i + 1)
  }

  // ------------------------------------------------------------------ openers

  datatype Heredoc = Heredoc(delimiter: seq<byte>, stripLeadingTabs: bool)

  /** A delimiter word: where it ends, what it is without its quoting, and how its bytes read. */
  datatype Word = Word(end: nat, text: seq<byte>, labels: seq<Label>)

  ghost function Then(labels: seq<Label>, text: seq<byte>, rest: Option<Word>): Option<Word> {
    match rest
    case None => None
    case Some(w) => Some(Word(w.end, text + w.text, labels + w.labels))
  }

  /** The text of a double-quoted string up to its closing quote. A backslash quotes the byte
      after it, which a line break or the end of the text cannot be. */
  ghost function DoubleText(c: seq<byte>, i: nat): Option<seq<byte>>
    requires i <= |c|
    decreases |c| - i
  {
    if i == |c| then None
    else if c[i] == DOUBLE then Some([])
    else if c[i] == BACKSLASH then
      if i + 1 == |c| || c[i + 1] == NEWLINE then None
      else
        var rest := DoubleText(c, i + 2);
        if rest.None? then None else Some([c[i + 1]] + rest.value)
    else
      var rest := DoubleText(c, i + 1);
      if rest.None? then None else Some([c[i]] + rest.value)
  }

  lemma {:induction false} DoubleTextCloses(c: seq<byte>, i: nat)
    requires i <= |c| && DoubleText(c, i).Some?
    ensures DoubleEnd(c, i) < |c| && c[DoubleEnd(c, i)] == DOUBLE
    decreases |c| - i
  {
    if c[i] == DOUBLE {
    } else {
      DoubleTextCloses(c, if c[i] == BACKSLASH then i + 2 else i + 1);
    }
  }

  /** The rest of a word from an unquoted byte of it. */
  ghost function WordFrom(c: seq<byte>, i: nat): (w: Option<Word>)
    requires i <= |c|
    ensures w.Some? ==> i <= w.value.end <= |c| && |w.value.labels| == w.value.end - i
    decreases |c| - i
  {
    if i == |c| || EndsWord(c[i]) then Some(Word(i, [], []))
    else if c[i] == SINGLE then
      var j := SingleEnd(c, i + 1);
      if j == |c| then None
      else Then([Opener(Plain)] + Repeat(Opener(InSingle), j - i), c[i + 1..j], WordFrom(c, j + 1))
    else if c[i] == DOUBLE then
      var text := DoubleText(c, i + 1);
      if text.None? then None
      else
        DoubleTextCloses(c, i + 1);
        var j := DoubleEnd(c, i + 1);
        Then([Opener(Plain)] + Repeat(Opener(InDouble), j - i), text.value, WordFrom(c, j + 1))
    else if c[i] == BACKSLASH then
      if i + 1 == |c| || c[i + 1] == NEWLINE then None
      else Then([Opener(Plain), Opener(Plain)], [c[i + 1]], WordFrom(c, i + 2))
    else Then([Opener(Plain)], [c[i]], WordFrom(c, i + 1))
  }

  /** The first byte from i on that is not blank. */
  ghost function SkipBlanks(c: seq<byte>, i: nat): (j: nat)
    requires i <= |c|
    ensures i <= j <= |c|
    decreases |c| - i
  {
    if i < |c| && IsBlank(c[i]) then SkipBlanks(c, i + 1) else i
  }

  datatype Opening = Opening(heredoc: Heredoc, end: nat, labels: seq<Label>)

  /** Where the delimiter word of an opener at offset would begin. */
  ghost function WordStart(c: seq<byte>, offset: nat): (i: nat)
    requires offset + 1 < |c|
    ensures offset + 2 <= i <= |c|
  {
    SkipBlanks(c, if offset + 2 < |c| && c[offset + 2] == DASH then offset + 3 else offset + 2)
  }

  /** The opener at offset, if there is one: exactly two less-than signs and a word. */
  ghost function OpeningAt(c: seq<byte>, offset: nat): (o: Option<Opening>)
    requires offset < |c| && c[offset] == LESS
    ensures o.Some? ==> offset + 2 < o.value.end <= |c| && |o.value.labels| == o.value.end - offset
  {
    if offset + 1 >= |c| || c[offset + 1] != LESS || (offset > 0 && c[offset - 1] == LESS) ||
       (offset + 2 < |c| && c[offset + 2] == LESS) then None
    else
      var i := WordStart(c, offset);
      if i == |c| || EndsWord(c[i]) then None
      else
        match WordFrom(c, i)
        case None => None
        case Some(w) =>
          WordAdvances(c, i);
          Some(Opening(
            Heredoc(w.text, offset + 2 < |c| && c[offset + 2] == DASH),
            w.end,
            Repeat(Opener(Plain), i - offset) + w.labels))
  }

  predicate AllOpener(labels: seq<Label>) {
    forall k :: 0 <= k < |labels| ==> labels[k].Opener? && labels[k].state != InComment
  }

  lemma {:induction false} WordIsOpener(c: seq<byte>, i: nat)
    requires i <= |c| && WordFrom(c, i).Some?
    ensures AllOpener(WordFrom(c, i).value.labels)
    decreases |c| - i
  {
    if i == |c| || EndsWord(c[i]) {
    } else {
      WordIsOpener(c,
        if c[i] == SINGLE then SingleEnd(c, i + 1) + 1
        else if c[i] == DOUBLE then DoubleTextCloses(c, i + 1); DoubleEnd(c, i + 1) + 1
        else if c[i] == BACKSLASH then i + 2 else i + 1);
    }
  }

  lemma OpeningIsOpener(c: seq<byte>, offset: nat)
    requires offset < |c| && c[offset] == LESS && OpeningAt(c, offset).Some?
    ensures AllOpener(OpeningAt(c, offset).value.labels)
  {
    WordIsOpener(c, WordStart(c, offset));
  }

  lemma WordAdvances(c: seq<byte>, i: nat)
    requires i < |c| && !EndsWord(c[i]) && WordFrom(c, i).Some?
    ensures i < WordFrom(c, i).value.end
  {
  }

  // ----------------------------------------------------------- parseShellHeredoc

  /** What is left of a word when the code is at index, in a quote or outside any. */
  ghost function WordRest(c: seq<byte>, index: nat, quote: byte): (w: Option<Word>)
    requires index <= |c|
  {
    if quote == SINGLE then
      var j := SingleEnd(c, index);
      if j == |c| then None else Then(Repeat(Opener(InSingle), j - index + 1), c[index..j], WordFrom(c, j + 1))
    else if quote == DOUBLE then
      var text := DoubleText(c, index);
      if text.None? then None
      else
        DoubleTextCloses(c, index);
        var j := DoubleEnd(c, index);
        Then(Repeat(Opener(InDouble), j - index + 1), text.value, WordFrom(c, j + 1))
    else WordFrom(c, index)
  }

  lemma RepeatMore(l: Label, n: nat)
    ensures Repeat(l, n + 1) == [l] + Repeat(l, n) == Repeat(l, n) + [l]
  {
  }

  lemma ThenAgain(l: seq<Label>, t: seq<byte>, l': seq<Label>, t': seq<byte>, rest: Option<Word>)
    ensures Then(l, t, Then(l', t', rest)) == Then(l + l', t + t', rest)
  {
    if rest.Some? {
      assert t + (t' + rest.value.text) == t + t' + rest.value.text;
      assert l + (l' + rest.value.labels) == l + l' + rest.value.labels;
    }
  }

  lemma ThenNothing(rest: Option<Word>)
    ensures Then([], [], rest) == rest
  {
    if rest.Some? {
      assert [] + rest.value.text == rest.value.text && [] + rest.value.labels == rest.value.labels;
    }
  }

  /** One byte of a word read in a single quote. */
  lemma SingleStep(c: seq<byte>, index: nat)
    requires index < |c|
    ensures c[index] == SINGLE ==>
      WordRest(c, index, SINGLE) == Then([Opener(InSingle)], [], WordRest(c, index + 1, 0))
    ensures c[index] != SINGLE ==>
      WordRest(c, index, SINGLE) == Then([Opener(InSingle)], [c[index]], WordRest(c, index + 1, SINGLE))
  {
    var j := SingleEnd(c, index);
    if c[index] == SINGLE {
      assert Repeat(Opener(InSingle), 1) == [Opener(InSingle)];
      assert c[index..index] == [];
    } else if j < |c| {
      RepeatMore(Opener(InSingle), j - index);
      assert c[index..j] == [c[index]] + c[index + 1..j];
      ThenAgain([Opener(InSingle)], [c[index]], Repeat(Opener(InSingle), j - index), c[index + 1..j], WordFrom(c, j + 1));
    }
  }

  /** One step of a word read in a double quote. */
  lemma DoubleStep(c: seq<byte>, index: nat)
    requires index < |c|
    ensures c[index] == DOUBLE ==>
      WordRest(c, index, DOUBLE) == Then([Opener(InDouble)], [], WordRest(c, index + 1, 0))
    ensures c[index] == BACKSLASH && (index + 1 == |c| || c[index + 1] == NEWLINE) ==>
      WordRest(c, index, DOUBLE) == None
    ensures c[index] == BACKSLASH && index + 1 < |c| && c[index + 1] != NEWLINE ==>
      WordRest(c, index, DOUBLE) ==
      Then([Opener(InDouble), Opener(InDouble)], [c[index + 1]], WordRest(c, index + 2, DOUBLE))
    ensures c[index] != DOUBLE && c[index] != BACKSLASH ==>
      WordRest(c, index, DOUBLE) == Then([Opener(InDouble)], [c[index]], WordRest(c, index + 1, DOUBLE))
  {
    var text := DoubleText(c, index);
    if c[index] == DOUBLE {
      assert Repeat(Opener(InDouble), 1) == [Opener(InDouble)];
    } else if text.Some? {
      DoubleTextCloses(c, index);
      var j := DoubleEnd(c, index);
      var next := if c[index] == BACKSLASH then index + 2 else index + 1;
      RepeatMore(Opener(InDouble), j - index);
      var labels := Repeat(Opener(InDouble), j - next + 1);
      var first := if c[index] == BACKSLASH then [Opener(InDouble), Opener(InDouble)] else [Opener(InDouble)];
      assert Repeat(Opener(InDouble), j - index + 1) == first + labels;
      ThenAgain(first, [if c[index] == BACKSLASH then c[index + 1] else c[index]], labels, DoubleText(c, next).value, WordFrom(c, j + 1));
    }
  }

  /** A quote opens in a word. */
  lemma QuoteOpens(c: seq<byte>, index: nat, quote: byte)
    requires index < |c| && c[index] == quote && (quote == SINGLE || quote == DOUBLE)
    ensures WordRest(c, index, 0) == Then([Opener(Plain)], [], WordRest(c, index + 1, quote))
  {
    if quote == SINGLE {
      var j := SingleEnd(c, index + 1);
      if j < |c| {
        ThenOpens(Repeat(Opener(InSingle), j - index), c[index + 1..j], WordFrom(c, j + 1));
      }
    } else {
      var text := DoubleText(c, index + 1);
      if text.Some? {
        DoubleTextCloses(c, index + 1);
        var j := DoubleEnd(c, index + 1);
        ThenOpens(Repeat(Opener(InDouble), j - index), text.value, WordFrom(c, j + 1));
      }
    }
  }

  lemma ThenOpens(l: seq<Label>, t: seq<byte>, rest: Option<Word>)
    ensures Then([Opener(Plain)], [], Then(l, t, rest)) == Then([Opener(Plain)] + l, t, rest)
  {
    ThenAgain([Opener(Plain)], [], l, t, rest);
    assert [] + t == t;
  }

  /** One step of a word read outside any quote. */
  lemma PlainStep(c: seq<byte>, index: nat)
    requires index < |c| && !EndsWord(c[index]) && c[index] != SINGLE && c[index] != DOUBLE
    ensures c[index] == BACKSLASH && (index + 1 == |c| || c[index + 1] == NEWLINE) ==>
      WordRest(c, index, 0) == None
    ensures c[index] == BACKSLASH && index + 1 < |c| && c[index + 1] != NEWLINE ==>
      WordRest(c, index, 0) == Then([Opener(Plain), Opener(Plain)], [c[index + 1]], WordRest(c, index + 2, 0))
    ensures c[index] != BACKSLASH ==>
      WordRest(c, index, 0) == Then([Opener(Plain)], [c[index]], WordRest(c, index + 1, 0))
  {
  }

  const REFUSED := Heredoc([], false)

  /** The loop over the bytes of the word. */
  method ParseWord(c: seq<byte>, begin: nat) returns (delimiter: seq<byte>, end: nat, ok: bool)
    requires begin <= |c|
    ensures ok <==> begin < |c| && !EndsWord(c[begin]) && WordFrom(c, begin).Some?
    ensures ok ==> delimiter == WordFrom(c, begin).value.text && end == WordFrom(c, begin).value.end
  {
    ghost var labels: seq<Label> := [];
    var started := false;
    var quote: byte := 0;
    delimiter, end := [], begin;
    ThenNothing(WordFrom(c, begin));
    while end < |c|
      invariant begin <= end <= |c|
      invariant quote == 0 || quote == SINGLE || quote == DOUBLE
      invariant started <==> begin < end
      invariant quote != 0 ==> started
      invariant begin < end ==> !EndsWord(c[begin])
      invariant WordFrom(c, begin) == Then(labels, delimiter, WordRest(c, end, quote))
    {
      var current := c[end];
      if quote == 0 {
        if EndsWord(current) {
          return delimiter, end, started;
        }
        if current == SINGLE || current == DOUBLE {
          QuoteOpens(c, end, current);
          ThenAgain(labels, delimiter, [Opener(Plain)], [], WordRest(c, end + 1, current));
          started, quote, end, labels := true, current, end + 1, labels + [Opener(Plain)];
          assert delimiter + [] == delimiter;
          continue;
        }
        PlainStep(c, end);
        if current == BACKSLASH {
          if end + 1 >= |c| || c[end + 1] == NEWLINE {
            return delimiter, end, false;
          }
          ThenAgain(labels, delimiter, [Opener(Plain), Opener(Plain)], [c[end + 1]], WordRest(c, end + 2, 0));
          started, delimiter, labels := true, delimiter + [c[end + 1]], labels + [Opener(Plain), Opener(Plain)];
          end := end + 2;
          continue;
        }
      } else if current == quote {
        SingleStep(c, end);
        DoubleStep(c, end);
        ghost var state := if quote == SINGLE then InSingle else InDouble;
        ThenAgain(labels, delimiter, [Opener(state)], [], WordRest(c, end + 1, 0));
        labels := labels + [Opener(state)];
        assert delimiter + [] == delimiter;
        quote, end := 0, end + 1;
        continue;
      } else if quote == DOUBLE && current == BACKSLASH {
        DoubleStep(c, end);
        if end + 1 >= |c| || c[end + 1] == NEWLINE {
          return delimiter, end, false;
        }
        ThenAgain(labels, delimiter, [Opener(InDouble), Opener(InDouble)], [c[end + 1]], WordRest(c, end + 2, DOUBLE));
        delimiter, labels := delimiter + [c[end + 1]], labels + [Opener(InDouble), Opener(InDouble)];
        end := end + 2;
        continue;
      } else {
        SingleStep(c, end);
        DoubleStep(c, end);
      }
      ghost var state := if quote == 0 then Plain else if quote == SINGLE then InSingle else InDouble;
      ThenAgain(labels, delimiter, [Opener(state)], [current], WordRest(c, end + 1, quote));
      labels := labels + [Opener(state)];
      started := true;
      delimiter := delimiter + [current];
      end := end + 1;
    }
    ok := started && quote == 0;
  }

  method ParseShellHeredoc(c: seq<byte>, offset: nat) returns (heredoc: Heredoc, end: nat, ok: bool)
    requires offset < |c| && c[offset] == LESS
    ensures ok <==> OpeningAt(c, offset).Some?
    ensures ok ==> heredoc == OpeningAt(c, offset).value.heredoc && end == OpeningAt(c, offset).value.end
    ensures !ok ==> heredoc == REFUSED && end == offset
  {
    if offset + 1 >= |c| || c[offset + 1] != LESS || (offset > 0 && c[offset - 1] == LESS) ||
       (offset + 2 < |c| && c[offset + 2] == LESS)
    {
      return REFUSED, offset, false;
    }
    var index := offset + 2;
    var stripLeadingTabs := false;
    if index < |c| && c[index] == DASH {
      stripLeadingTabs := true;
      index := index + 1;
    }
    while index < |c| && IsBlank(c[index])
      invariant index <= |c| && SkipBlanks(c, index) == WordStart(c, offset)
    {
      index := index + 1;
    }
    var delimiter, wordEnd, parsed := ParseWord(c, index);
    if !parsed {
      return REFUSED, offset, false;
    }
    return Heredoc(delimiter, stripLeadingTabs), wordEnd, true;
  }

  // ---------------------------------------------------------------- the spec

  /** The line at i, without its line break, ends the here-document. */
  ghost predicate IsTerminator(c: seq<byte>, i: nat, h: Heredoc)
    requires i <= |c|
  {
    var line := WithoutReturn(c[i..LineEnd(c, i)]);
    (if h.stripLeadingTabs then TrimTabs(line) else line) == h.delimiter
  }

  function WithoutReturn(line: seq<byte>): seq<byte> {
    if |line| > 0 && line[|line| - 1] == RETURN then line[..|line| - 1] else line
  }

  function TrimTabs(line: seq<byte>): seq<byte> {
    if |line| > 0 && line[0] == TAB then TrimTabs(line[1..]) else line
  }

  function Tabs(n: nat): seq<byte> {
    seq(n, _ => TAB)
  }

  /** A terminator as it is written: tabs where they are stripped, the delimiter, and at most one
      carriage return. */
  ghost predicate IsWritten(line: seq<byte>, h: Heredoc, n: nat, r: seq<byte>) {
    && line == Tabs(n) + h.delimiter + r
    && (r == [RETURN] || (r == [] && (line == [] || line[|line| - 1] != RETURN)))
    && (0 < n ==> h.stripLeadingTabs)
    && (h.stripLeadingTabs ==> h.delimiter == [] || h.delimiter[0] != TAB)
  }

  ghost predicate IsDelimiterLine(line: seq<byte>, h: Heredoc) {
    exists n: nat, r :: IsWritten(line, h, n, r)
  }

  lemma {:induction false} TrimTabsOff(n: nat, rest: seq<byte>)
    requires rest == [] || rest[0] != TAB
    ensures TrimTabs(Tabs(n) + rest) == rest
  {
    var line := Tabs(n) + rest;
    if n == 0 {
      assert line == rest;
    } else {
      assert line[1..] == Tabs(n - 1) + rest;
      TrimTabsOff(n - 1, rest);
    }
  }

  lemma {:induction false} TrimTabsTo(line: seq<byte>) returns (n: nat)
    ensures line == Tabs(n) + TrimTabs(line) && (TrimTabs(line) == [] || TrimTabs(line)[0] != TAB)
  {
    if line == [] || line[0] != TAB {
      n := 0;
      assert Tabs(0) + line == line;
    } else {
      var m := TrimTabsTo(line[1..]);
      n := m + 1;
      assert line == [TAB] + line[1..] && Tabs(n) == [TAB] + Tabs(m);
    }
  }

  /** A line ends a here-document exactly when it is written as its delimiter. */
  lemma TerminatorIsWritten(c: seq<byte>, i: nat, h: Heredoc)
    requires i <= |c|
    ensures IsTerminator(c, i, h) <==> IsDelimiterLine(c[i..LineEnd(c, i)], h)
  {
    var line := c[i..LineEnd(c, i)];
    if IsTerminator(c, i, h) {
      WrittenOut(line, h);
    }
    if IsDelimiterLine(line, h) {
      var n: nat, r :| IsWritten(line, h, n, r);
      var text := Tabs(n) + h.delimiter;
      assert text + r == line;
      assert r == [] ==> text == line;
      assert WithoutReturn(line) == text;
      if h.stripLeadingTabs {
        TrimTabsOff(n, h.delimiter);
      } else {
        assert text == h.delimiter;
      }
    }
  }

  lemma WrittenOut(line: seq<byte>, h: Heredoc)
    requires (if h.stripLeadingTabs then TrimTabs(WithoutReturn(line)) else WithoutReturn(line)) == h.delimiter
    ensures IsDelimiterLine(line, h)
  {
    var text := WithoutReturn(line);
    var r := line[|text|..];
    assert line == text + r;
    var n := 0;
    if h.stripLeadingTabs {
      n := TrimTabsTo(text);
    } else {
      assert Tabs(0) + text == text;
    }
    assert IsWritten(line, h, n, r);
  }

  /** One past the line break of the first line from i on that ends the here-document, or the
      end of the text when none does. */
  ghost function HeredocEnd(c: seq<byte>, i: nat, h: Heredoc): (e: nat)
    requires i <= |c|
    ensures i <= e <= |c|
    ensures i < |c| ==> i < e
    ensures e < |c| ==> 0 < e && c[e - 1] == NEWLINE
    decreases |c| - i
  {
    var j := LineEnd(c, i);
    if j == |c| then j
    else if IsTerminator(c, i, h) then j + 1
    else HeredocEnd(c, j + 1, h)
  }

  predicate StartsComment(c: seq<byte>, i: nat)
    requires i < |c|
  {
    c[i] == HASH && (i == 0 || c[i - 1] == NEWLINE || IsBlank(c[i - 1]))
  }

  /** How the offsets from i to the end of the text read, from an unquoted byte of code and with
      the here-documents that are open: one label for each byte and one for the end. */
  ghost function Lex(c: seq<byte>, i: nat, pending: seq<Heredoc>): (labels: seq<Label>)
    requires i <= |c|
    ensures |labels| == |c| - i + 1
    decreases |c| - i, 1
  {
    if i == |c| then [Code(Plain)]
    else if c[i] == BACKSLASH && i + 1 < |c| then [Code(Plain), Code(Plain)] + Lex(c, i + 2, pending)
    else if c[i] == SINGLE then [Code(Plain)] + LexQuoted(c, i + 1, SingleEnd(c, i + 1), InSingle, pending)
    else if c[i] == DOUBLE then [Code(Plain)] + LexQuoted(c, i + 1, DoubleEnd(c, i + 1), InDouble, pending)
    else if StartsComment(c, i) then [Code(Plain)] + LexComment(c, i + 1, pending)
    else if c[i] == LESS && OpeningAt(c, i).Some? then
      var o := OpeningAt(c, i).value;
      o.labels + Lex(c, o.end, pending + [o.heredoc])
    else if c[i] == NEWLINE then [Code(Plain)] + LexLine(c, i + 1, pending)
    else [Code(Plain)] + Lex(c, i + 1, pending)
  }

  /** From inside a quote that closes at j, or never when j is the end of the text. */
  ghost function LexQuoted(c: seq<byte>, i: nat, j: nat, state: State, pending: seq<Heredoc>): (labels: seq<Label>)
    requires i <= j <= |c|
    ensures |labels| == |c| - i + 1
    decreases |c| - i, 2
  {
    if j == |c| then Repeat(Code(state), j - i + 1)
    else Repeat(Code(state), j - i + 1) + Lex(c, j + 1, pending)
  }

  /** From inside a comment, which its line break ends. */
  ghost function LexComment(c: seq<byte>, i: nat, pending: seq<Heredoc>): (labels: seq<Label>)
    requires i <= |c|
    ensures |labels| == |c| - i + 1
    decreases |c| - i, 3
  {
    var j := LineEnd(c, i);
    if j == |c| then Repeat(Code(InComment), j - i + 1)
    else Repeat(Code(InComment), j - i + 1) + LexLine(c, j + 1, pending)
  }

  /** From the start of a line of code or, when a here-document is open, of its body: the
      bodies follow one another in the order their openers came. */
  ghost function LexLine(c: seq<byte>, i: nat, pending: seq<Heredoc>): (labels: seq<Label>)
    requires i <= |c|
    ensures |labels| == |c| - i + 1
    decreases |c| - i, 2
  {
    if pending == [] || i == |c| then Lex(c, i, pending)
    else
      var e := HeredocEnd(c, i, pending[0]);
      Repeat(Body, e - i) + LexLine(c, e, pending[1..])
  }

  ghost function Labels(c: seq<byte>): (labels: seq<Label>)
    ensures |labels| == |c| + 1
  {
    Lex(c, 0, [])
  }

  function Blank(b: byte, l: Label): byte {
    if l == Body && b != NEWLINE then SPACE else b
  }

  /** The text with every byte of a here-document but its line breaks turned into a space. */
  ghost function Masked(c: seq<byte>): (m: seq<byte>)
    ensures |m| == |c|
  {
    seq(|c|, k requires 0 <= k < |c| => Blank(c[k], Labels(c)[k]))
  }

  // ------------------------------------------------------- maskShellHeredocBodies

  /** Where the code is in the text: the variables of its loop. */
  datatype Cursor = Cursor(index: nat, state: State, pending: seq<Heredoc>, reading: bool)

  /** How the text from index on reads when the code is there. */
  ghost function Rest(c: seq<byte>, index: nat, state: State, pending: seq<Heredoc>, reading: bool): (labels: seq<Label>)
    requires index <= |c|
    ensures |labels| == |c| - index + 1
  {
    if reading then LexLine(c, index, pending)
    else
      match state
      case Plain => Lex(c, index, pending)
      case InSingle => LexQuoted(c, index, SingleEnd(c, index), InSingle, pending)
      case InDouble => LexQuoted(c, index, DoubleEnd(c, index), InDouble, pending)
      case InComment => LexComment(c, index, pending)
  }

  ghost function RestAt(c: seq<byte>, at: Cursor): (labels: seq<Label>)
    requires at.index <= |c|
    ensures |labels| == |c| - at.index + 1
  {
    Rest(c, at.index, at.state, at.pending, at.reading)
  }

  /** One byte read inside quotes that close at j. */
  lemma QuotedStep(c: seq<byte>, i: nat, j: nat, state: State, pending: seq<Heredoc>, n: nat)
    requires i < j <= |c| && i + n <= j
    ensures LexQuoted(c, i, j, state, pending) ==
      Repeat(Code(state), n) + LexQuoted(c, i + n, j, state, pending)
  {
    assert Repeat(Code(state), j - i + 1) == Repeat(Code(state), n) + Repeat(Code(state), j - i - n + 1);
  }

  lemma SingleRest(c: seq<byte>, i: nat, pending: seq<Heredoc>)
    requires i < |c|
    ensures Rest(c, i, InSingle, pending, false) ==
      [Code(InSingle)] + Rest(c, i + 1, if c[i] == SINGLE then Plain else InSingle, pending, false)
  {
    assert Repeat(Code(InSingle), 1) == [Code(InSingle)];
    if c[i] != SINGLE {
      QuotedStep(c, i, SingleEnd(c, i), InSingle, pending, 1);
    }
  }

  lemma DoubleRest(c: seq<byte>, i: nat, pending: seq<Heredoc>)
    requires i < |c|
    ensures c[i] == BACKSLASH && i + 1 < |c| ==>
      Rest(c, i, InDouble, pending, false) ==
      [Code(InDouble), Code(InDouble)] + Rest(c, i + 2, InDouble, pending, false)
    ensures !(c[i] == BACKSLASH && i + 1 < |c|) ==>
      Rest(c, i, InDouble, pending, false) ==
      [Code(InDouble)] + Rest(c, i + 1, if c[i] == DOUBLE then Plain else InDouble, pending, false)
  {
    assert Repeat(Code(InDouble), 1) == [Code(InDouble)];
    assert Repeat(Code(InDouble), 2) == [Code(InDouble), Code(InDouble)];
    if c[i] == BACKSLASH && i + 1 < |c| {
      QuotedStep(c, i, DoubleEnd(c, i), InDouble, pending, 2);
    } else if c[i] != DOUBLE {
      QuotedStep(c, i, DoubleEnd(c, i), InDouble, pending, 1);
    }
  }

  lemma LineOfCode(c: seq<byte>, i: nat, pending: seq<Heredoc>)
    requires i <= |c|
    ensures pending == [] ==> LexLine(c, i, pending) == Lex(c, i, pending)
    ensures i == |c| ==> LexLine(c, i, pending) == Lex(c, i, pending) == [Code(Plain)]
  {
  }

  lemma CommentRest(c: seq<byte>, i: nat, pending: seq<Heredoc>)
    requires i < |c|
    ensures c[i] == NEWLINE ==>
      Rest(c, i, InComment, pending, false) == [Code(InComment)] + Rest(c, i + 1, Plain, pending, pending != [])
    ensures c[i] != NEWLINE ==>
      Rest(c, i, InComment, pending, false) == [Code(InComment)] + Rest(c, i + 1, InComment, pending, false)
  {
    hide Lex, LexLine, LexQuoted, HeredocEnd;
    var j := LineEnd(c, i);
    if c[i] == NEWLINE {
      assert Repeat(Code(InComment), 1) == [Code(InComment)];
      LineOfCode(c, i + 1, pending);
    } else {
      RepeatMore(Code(InComment), j - i);
      if j < |c| {
        assert [Code(InComment)] + Repeat(Code(InComment), j - i) + LexLine(c, j + 1, pending) ==
          [Code(InComment)] + (Repeat(Code(InComment), j - i) + LexLine(c, j + 1, pending));
      }
    }
  }

  lemma LineOfBody(c: seq<byte>, i: nat, pending: seq<Heredoc>)
    requires i < |c| && pending != []
    ensures LexLine(c, i, pending) ==
      Repeat(Body, HeredocEnd(c, i, pending[0]) - i) + LexLine(c, HeredocEnd(c, i, pending[0]), pending[1..])
  {
    hide Lex, LexQuoted, HeredocEnd;
  }

  /** The open here-documents once a line has been read. */
  ghost function PendingAfter(c: seq<byte>, i: nat, pending: seq<Heredoc>): seq<Heredoc>
    requires i <= |c| && pending != []
  {
    if IsTerminator(c, i, pending[0]) then pending[1..] else pending
  }

  /** A here-document from i to e, and how the text reads after it. */
  ghost function BodyTo(c: seq<byte>, i: nat, e: nat, next: seq<Heredoc>): seq<Label>
    requires i <= e <= |c|
  {
    Repeat(Body, e - i) + LexLine(c, e, next)
  }

  /** The here-document from the start of a line, that of the text's end included. */
  lemma LineInBody(c: seq<byte>, i: nat, pending: seq<Heredoc>)
    requires i <= |c| && pending != []
    ensures LexLine(c, i, pending) == BodyTo(c, i, HeredocEnd(c, i, pending[0]), pending[1..])
  {
    if i == |c| {
      BodyAtEnd(c, pending);
    }
  }

  lemma BodyToSplits(c: seq<byte>, i: nat, j: nat, e: nat, next: seq<Heredoc>)
    requires i <= j <= e <= |c|
    ensures BodyTo(c, i, e, next) == Repeat(Body, j - i) + BodyTo(c, j, e, next)
  {
    BodiesJoin(BodyTo(c, i, e, next), BodyTo(c, j, e, next), LexLine(c, e, next), j - i, e - j);
  }

  lemma HeredocContinues(c: seq<byte>, i: nat, h: Heredoc)
    requires i < |c| && LineEnd(c, i) < |c| && !IsTerminator(c, i, h)
    ensures HeredocEnd(c, i, h) == HeredocEnd(c, LineEnd(c, i) + 1, h)
  {
  }

  lemma BodySplits(c: seq<byte>, i: nat, next: nat, e: nat, pending: seq<Heredoc>)
    requires i <= next <= e <= |c| && pending != []
    requires LexLine(c, i, pending) == BodyTo(c, i, e, pending[1..])
    requires LexLine(c, next, pending) == BodyTo(c, next, e, pending[1..])
    ensures LexLine(c, i, pending) == Repeat(Body, next - i) + LexLine(c, next, pending)
  {
    BodyToSplits(c, i, next, e, pending[1..]);
  }

  /** A line of a here-document that does not end it, with a line break after it. */
  lemma BodyContinues(c: seq<byte>, i: nat, pending: seq<Heredoc>)
    requires i < |c| && pending != [] && LineEnd(c, i) < |c| && !IsTerminator(c, i, pending[0])
    ensures LexLine(c, i, pending) == Repeat(Body, LineEnd(c, i) + 1 - i) + LexLine(c, LineEnd(c, i) + 1, pending)
  {
    var next := LineEnd(c, i) + 1;
    var e := HeredocEnd(c, next, pending[0]);
    HeredocContinues(c, i, pending[0]);
    assert LexLine(c, i, pending) == BodyTo(c, i, e, pending[1..]) by { LineInBody(c, i, pending); }
    assert LexLine(c, next, pending) == BodyTo(c, next, e, pending[1..]) by { LineInBody(c, next, pending); }
    BodySplits(c, i, next, e, pending);
  }

  lemma HeredocTerminates(c: seq<byte>, i: nat, h: Heredoc)
    requires i < |c| && LineEnd(c, i) < |c| && IsTerminator(c, i, h)
    ensures HeredocEnd(c, i, h) == LineEnd(c, i) + 1
  {
  }

  lemma BodyTerminated(c: seq<byte>, i: nat, pending: seq<Heredoc>)
    requires i < |c| && pending != [] && LineEnd(c, i) < |c| && IsTerminator(c, i, pending[0])
    ensures LexLine(c, i, pending) == Repeat(Body, LineEnd(c, i) + 1 - i) + LexLine(c, LineEnd(c, i) + 1, pending[1..])
  {
    HeredocTerminates(c, i, pending[0]);
    LineInBody(c, i, pending);
  }

  lemma NextLine(c: seq<byte>, i: nat, pending: seq<Heredoc>)
    requires i <= |c|
    ensures Rest(c, i, Plain, pending, pending != []) == LexLine(c, i, pending)
  {
    LineOfCode(c, i, pending);
  }

  /** One line of a here-document: the last of the text, the last of the here-document, or another. */
  lemma BodyTurn(c: seq<byte>, i: nat, pending: seq<Heredoc>, next: seq<Heredoc>, end: nat)
    requires i < |c| && pending != []
    requires next == PendingAfter(c, i, pending)
    requires end == if LineEnd(c, i) == |c| then |c| else LineEnd(c, i) + 1
    ensures LexLine(c, i, pending) == Repeat(Body, end - i) + Rest(c, end, Plain, next, next != [])
  {
    NextLine(c, end, next);
    if LineEnd(c, i) == |c| {
      BodyToEnd(c, i, pending, next);
    } else if IsTerminator(c, i, pending[0]) {
      BodyTerminated(c, i, pending);
    } else {
      BodyContinues(c, i, pending);
    }
  }

  lemma BodyAtEnd(c: seq<byte>, pending: seq<Heredoc>)
    requires pending != []
    ensures Repeat(Body, 0) + LexLine(c, |c|, pending[1..]) == LexLine(c, |c|, pending) == [Code(Plain)]
  {
    LineOfCode(c, |c|, pending);
    LineOfCode(c, |c|, pending[1..]);
  }

  /** The last line of the text in a here-document. */
  lemma BodyToEnd(c: seq<byte>, i: nat, pending: seq<Heredoc>, next: seq<Heredoc>)
    requires i < |c| && pending != [] && LineEnd(c, i) == |c|
    ensures LexLine(c, i, pending) == Repeat(Body, |c| - i) + LexLine(c, |c|, next)
  {
    LineOfBody(c, i, pending);
    LineOfCode(c, |c|, pending[1..]);
    LineOfCode(c, |c|, next);
  }

  lemma BodiesJoin(whole: seq<Label>, tail: seq<Label>, last: seq<Label>, n: nat, m: nat)
    requires whole == Repeat(Body, n + m) + last && tail == Repeat(Body, m) + last
    ensures whole == Repeat(Body, n) + tail
  {
    assert Repeat(Body, n + m) == Repeat(Body, n) + Repeat(Body, m);
  }

  /** One token of code outside quotes and comments, as the code takes it: the opener whole, an
      escape as two bytes, and of anything else its first byte. */
  lemma PlainRest(c: seq<byte>, i: nat, pending: seq<Heredoc>)
    requires i < |c|
    ensures c[i] == BACKSLASH && i + 1 < |c| ==>
      Lex(c, i, pending) == [Code(Plain), Code(Plain)] + Rest(c, i + 2, Plain, pending, false)
    ensures c[i] == LESS && OpeningAt(c, i).Some? ==>
      var o := OpeningAt(c, i).value;
      Lex(c, i, pending) == o.labels + Rest(c, o.end, Plain, pending + [o.heredoc], false)
    ensures !(c[i] == BACKSLASH && i + 1 < |c|) && !(c[i] == LESS && OpeningAt(c, i).Some?) ==>
      var state := if c[i] == SINGLE then InSingle else if c[i] == DOUBLE then InDouble
                   else if StartsComment(c, i) then InComment else Plain;
      Lex(c, i, pending) == [Code(Plain)] + Rest(c, i + 1, state, pending, c[i] == NEWLINE && pending != [])
  {
    LineOfCode(c, i + 1, pending);
  }

  /** One turn of the loop in code: how far it moves, and how the bytes it passes read. */
  method StepCode(c: seq<byte>, at: Cursor) returns (next: Cursor, ghost step: seq<Label>)
    requires at.index < |c| && !at.reading
    ensures at.index < next.index <= |c|
    ensures next.reading ==> next.pending != [] && next.state == Plain
    ensures RestAt(c, at) == step + RestAt(c, next)
    ensures |step| == next.index - at.index && Body !in step
  {
    var index, pending := at.index, at.pending;
    var current := c[index];
    match at.state {
      case InComment =>
        CommentRest(c, index, pending);
        step := [Code(InComment)];
        if current == NEWLINE {
          return Cursor(index + 1, Plain, pending, |pending| > 0), step;
        }
        next := at.(index := index + 1);
      case InSingle =>
        SingleRest(c, index, pending);
        step := [Code(InSingle)];
        next := at.(index := index + 1, state := if current == SINGLE then Plain else InSingle);
      case InDouble =>
        DoubleRest(c, index, pending);
        if current == BACKSLASH && index + 1 < |c| {
          return at.(index := index + 2), [Code(InDouble), Code(InDouble)];
        }
        step := [Code(InDouble)];
        next := at.(index := index + 1, state := if current == DOUBLE then Plain else InDouble);
      case Plain =>
        next, step := StepPlain(c, at);
    }
  }

  method StepPlain(c: seq<byte>, at: Cursor) returns (next: Cursor, ghost step: seq<Label>)
    requires at.index < |c| && !at.reading && at.state == Plain
    ensures at.index < next.index <= |c|
    ensures next.reading ==> next.pending != [] && next.state == Plain
    ensures RestAt(c, at) == step + RestAt(c, next)
    ensures |step| == next.index - at.index && Body !in step
  {
    var index, pending := at.index, at.pending;
    var current := c[index];
    PlainRest(c, index, pending);
    if current == BACKSLASH && index + 1 < |c| {
      return at.(index := index + 2), [Code(Plain), Code(Plain)];
    }
    step := [Code(Plain)];
    next := at.(index := index + 1);
    if current == SINGLE {
      next := next.(state := InSingle);
    } else if current == DOUBLE {
      next := next.(state := InDouble);
    } else if current == HASH {
      if index == 0 || c[index - 1] == NEWLINE || c[index - 1] == SPACE || c[index - 1] == TAB {
        next := next.(state := InComment);
      }
    } else if current == LESS {
      var heredoc, end, ok := ParseShellHeredoc(c, index);
      if ok {
        step := OpeningAt(c, index).value.labels;
        OpeningIsOpener(c, index);
        next := at.(index := end, pending := pending + [heredoc]);
      }
    } else if current == NEWLINE {
      next := next.(reading := |pending| > 0);
    }
  }

  method FindLineEnd(c: seq<byte>, i: nat) returns (j: nat)
    requires i <= |c|
    ensures j == LineEnd(c, i)
  {
    j := i;
    while j < |c| && c[j] != NEWLINE
      invariant i <= j <= |c| && LineEnd(c, j) == LineEnd(c, i)
    {
      j := j + 1;
    }
  }

  method BlankLine(c: seq<byte>, buffer: array<byte>, from: nat, to: nat)
    requires from <= to <= |c| == buffer.Length
    requires forall k :: from <= k < |c| ==> buffer[k] == c[k]
    modifies buffer
    ensures forall k :: 0 <= k < from ==> buffer[k] == old(buffer[k])
    ensures forall k :: from <= k < to ==> buffer[k] == SPACE
    ensures forall k :: to <= k < |c| ==> buffer[k] == c[k]
  {
    for bodyIndex := from to to
      invariant forall k :: 0 <= k < from ==> buffer[k] == old(buffer[k])
      invariant forall k :: from <= k < bodyIndex ==> buffer[k] == SPACE
      invariant forall k :: bodyIndex <= k < |c| ==> buffer[k] == c[k]
    {
      buffer[bodyIndex] := SPACE;
    }
  }

  /** The open here-documents after a line of the first of them. */
  method CloseHeredoc(c: seq<byte>, index: nat, lineEnd: nat, pending: seq<Heredoc>) returns (next: seq<Heredoc>)
    requires index <= |c| && lineEnd == LineEnd(c, index) && pending != []
    ensures next == PendingAfter(c, index, pending)
  {
    var candidate := WithoutReturn(c[index..lineEnd]);
    if pending[0].stripLeadingTabs {
      candidate := TrimTabs(candidate);
    }
    next := if candidate == pending[0].delimiter then pending[1..] else pending;
  }

  /** Where the code is after a line of a here-document. */
  ghost function AfterBodyLine(c: seq<byte>, at: Cursor): (next: Cursor)
    requires at.index < |c| && at.pending != []
    ensures at.index < next.index <= |c|
  {
    var pending := PendingAfter(c, at.index, at.pending);
    Cursor(if LineEnd(c, at.index) == |c| then |c| else LineEnd(c, at.index) + 1, Plain, pending, pending != [])
  }

  lemma BodyLineReads(c: seq<byte>, at: Cursor)
    requires at.index < |c| && at.pending != [] && at.reading
    ensures var next := AfterBodyLine(c, at);
      RestAt(c, at) == Repeat(Body, next.index - at.index) + RestAt(c, next)
  {
    var next := AfterBodyLine(c, at);
    BodyTurn(c, at.index, at.pending, next.pending, next.index);
  }

  /** One turn of the loop on a line of a here-document, which it blanks. */
  method StepBody(c: seq<byte>, at: Cursor, buffer: array<byte>) returns (next: Cursor)
    requires at.index < |c| && at.reading && at.pending != []
    requires buffer.Length == |c| && forall k :: at.index <= k < |c| ==> buffer[k] == c[k]
    modifies buffer
    ensures next == AfterBodyLine(c, at)
    ensures forall k :: 0 <= k < at.index ==> buffer[k] == old(buffer[k])
    ensures forall k :: at.index <= k < next.index ==> buffer[k] == Blank(c[k], Body)
    ensures forall k :: next.index <= k < |c| ==> buffer[k] == c[k]
  {
    var lineEnd := FindLineEnd(c, at.index);
    var pending := CloseHeredoc(c, at.index, lineEnd, at.pending);
    BlankLine(c, buffer, at.index, lineEnd);
    next := Cursor(if lineEnd == |c| then |c| else lineEnd + 1, Plain, pending, |pending| > 0);
  }

  /** The labels of a step are those of the text where the step is taken. */
  lemma StepLabels(all: seq<Label>, i: nat, step: seq<Label>, rest: seq<Label>)
    requires i <= |all| && all[i..] == step + rest
    ensures i + |step| <= |all| && all[i + |step|..] == rest
    ensures forall k :: i <= k < i + |step| ==> all[k] == step[k - i]
  {
    assert forall k :: i <= k < i + |step| ==> all[k] == all[i..][k - i];
    assert all[i + |step|..] == all[i..][|step|..];
  }

  /** The text up to the code's place is blanked where it should be, and beyond it untouched. */
  ghost predicate MaskedUpTo(c: seq<byte>, all: seq<Label>, at: Cursor, buffer: seq<byte>) {
    && at.index <= |c| == |buffer| < |all|
    && RestAt(c, at) == all[at.index..]
    && (at.reading ==> at.pending != [] && at.state == Plain)
    && (forall k :: 0 <= k < at.index ==> buffer[k] == Blank(c[k], all[k]))
    && (forall k :: at.index <= k < |c| ==> buffer[k] == c[k])
  }

  lemma BlankedBy(c: seq<byte>, all: seq<Label>, at: Cursor, next: Cursor, step: seq<Label>, buffer: seq<byte>, blanked: seq<byte>)
    requires MaskedUpTo(c, all, at, buffer) && |blanked| == |c|
    requires at.index < next.index <= |c| && |step| == next.index - at.index
    requires next.reading ==> next.pending != [] && next.state == Plain
    requires RestAt(c, at) == step + RestAt(c, next)
    requires forall k :: 0 <= k < at.index ==> blanked[k] == buffer[k]
    requires forall k :: at.index <= k < next.index ==> blanked[k] == Blank(c[k], step[k - at.index])
    requires forall k :: next.index <= k < |c| ==> blanked[k] == c[k]
    ensures MaskedUpTo(c, all, next, blanked)
  {
    hide RestAt;
    StepLabels(all, at.index, step, RestAt(c, next));
  }

  lemma NothingMasked(c: seq<byte>)
    ensures MaskedUpTo(c, Labels(c), Cursor(0, Plain, [], false), c)
  {
    assert Labels(c)[0..] == Labels(c);
  }

  lemma AllMasked(c: seq<byte>, at: Cursor, buffer: seq<byte>)
    requires MaskedUpTo(c, Labels(c), at, buffer) && at.index == |c|
    ensures buffer == Masked(c)
  {
    hide RestAt, Labels;
  }

  /** One turn of the loop: on a line of a here-document, which it blanks, or in code. */
  method TurnInBody(c: seq<byte>, at: Cursor, buffer: array<byte>) returns (next: Cursor)
    requires buffer.Length == |c| && MaskedUpTo(c, Labels(c), at, buffer[..]) && at.index < |c| && at.reading
    modifies buffer
    ensures at.index < next.index && MaskedUpTo(c, Labels(c), next, buffer[..])
  {
    hide RestAt, Labels, PendingAfter;
    ghost var before := buffer[..];
    BodyLineReads(c, at);
    next := StepBody(c, at, buffer);
    BlankedBy(c, Labels(c), at, next, Repeat(Body, next.index - at.index), before, buffer[..]);
  }

  method TurnInCode(c: seq<byte>, at: Cursor, buffer: array<byte>) returns (next: Cursor)
    requires buffer.Length == |c| && MaskedUpTo(c, Labels(c), at, buffer[..]) && at.index < |c| && !at.reading
    ensures at.index < next.index && MaskedUpTo(c, Labels(c), next, buffer[..])
  {
    hide RestAt, Labels;
    ghost var step;
    next, step := StepCode(c, at);
    BlankedBy(c, Labels(c), at, next, step, buffer[..], buffer[..]);
  }

  method MaskShellHeredocBodies(c: seq<byte>) returns (masked: seq<byte>)
    ensures masked == Masked(c)
  {
    hide RestAt, Labels, Masked;
    var buffer := new byte[|c|](k requires 0 <= k < |c| => c[k]);
    var at := Cursor(0, Plain, [], false);
    assert buffer[..] == c;
    NothingMasked(c);
    while at.index < |c|
      invariant MaskedUpTo(c, Labels(c), at, buffer[..])
      decreases |c| - at.index
    {
      if at.reading {
        at := TurnInBody(c, at, buffer);
      } else {
        at := TurnInCode(c, at, buffer);
      }
    }
    masked := buffer[..];
    AllMasked(c, at, masked);
  }

  // ------------------------------------------------------ what the blanking keeps

  /** Lengths and line breaks stay, and only bytes of here-documents change, into spaces. */
  lemma MaskKeepsCode(c: seq<byte>, k: nat)
    requires k < |c|
    ensures Masked(c)[k] == NEWLINE <==> c[k] == NEWLINE
    ensures Masked(c)[k] != c[k] ==> Labels(c)[k] == Body && Masked(c)[k] == SPACE
    ensures Labels(c)[k] == Body && c[k] != NEWLINE ==> Masked(c)[k] == SPACE
  {
  }

  predicate IsLineStart(c: seq<byte>, i: nat, k: nat) {
    k == i || (0 < k <= |c| && c[k - 1] == NEWLINE)
  }

  /** A here-document runs to the first line that ends it, and to the end of the text when none does. */
  lemma {:induction false} HeredocEndIsFirst(c: seq<byte>, i: nat, h: Heredoc, k: nat)
    requires i <= k < |c| && IsLineStart(c, i, k)
    ensures k < HeredocEnd(c, i, h) && LineEnd(c, k) + 1 < HeredocEnd(c, i, h) ==> !IsTerminator(c, k, h)
    ensures k < HeredocEnd(c, i, h) && LineEnd(c, k) + 1 == HeredocEnd(c, i, h) < |c| ==> IsTerminator(c, k, h)
    decreases |c| - i
  {
    hide HeredocEnd, IsTerminator;
    var j := LineEnd(c, i);
    if j == |c| {
      HeredocRunsOut(c, i, h);
    } else if IsTerminator(c, i, h) {
      HeredocTerminates(c, i, h);
    } else {
      HeredocContinues(c, i, h);
      if i < k {
        HeredocEndIsFirst(c, j + 1, h, k);
      }
    }
  }

  lemma HeredocRunsOut(c: seq<byte>, i: nat, h: Heredoc)
    requires i <= |c| && LineEnd(c, i) == |c|
    ensures HeredocEnd(c, i, h) == |c|
  {
  }

  /** Quoting a word and taking its quotes away again leaves the word. */
  lemma {:induction false} QuotedWordIsItself(c: seq<byte>, i: nat, word: seq<byte>)
    requires SINGLE !in word
    requires i + |word| + 2 < |c| && c[i] == SINGLE && c[i + 1..i + 1 + |word|] == word
    requires c[i + 1 + |word|] == SINGLE && EndsWord(c[i + 2 + |word|])
    ensures WordFrom(c, i).Some? && WordFrom(c, i).value.text == word && WordFrom(c, i).value.end == i + |word| + 2
  {
    var j := i + 1 + |word|;
    SingleEndsAt(c, i + 1, j, word);
    assert WordFrom(c, j + 1) == Some(Word(j + 1, [], []));
    assert word + [] == word;
  }

  lemma {:induction false} SingleEndsAt(c: seq<byte>, i: nat, j: nat, word: seq<byte>)
    requires i <= j < |c| && c[j] == SINGLE && c[i..j] == word && SINGLE !in word
    ensures SingleEnd(c, i) == j
    decreases j - i
  {
    if i == j {
    } else {
      assert c[i] == word[0];
      assert c[i + 1..j] == word[1..];
      SingleEndsAt(c, i + 1, j, word[1..]);
    }
  }
}
