/** The scanner that decides which offsets of the blanked text lie inside a quote, and when it
agrees with the lexer that blanked it.
 */
module ShellQuoting {
  import opened Results
  import opened ShellLexer

  /** One byte, read in a state. */
  function ReadByte(m: seq<byte>, i: nat, s: State): State
    requires i < |m|
  {
    match s
    case InComment => if m[i] == NEWLINE then Plain else InComment
    case InSingle => if m[i] == SINGLE then Plain else InSingle
    case InDouble => if m[i] == DOUBLE then Plain else InDouble
    case Plain =>
      if m[i] == SINGLE then InSingle
      else if m[i] == DOUBLE then InDouble
      else if StartsComment(m, i) then InComment
      else Plain
  }

  predicate Escapes(m: seq<byte>, i: nat, s: State)
    requires i < |m|
  {
    m[i] == BACKSLASH && (s == Plain || s == InDouble)
  }

  /** The state at offset, read from i in a state. */
  function Walk(m: seq<byte>, i: nat, offset: nat, s: State): State
    requires i <= offset <= |m|
    decreases offset - i
  {
    if i == offset then s
    else if Escapes(m, i, s) then Walk(m, if i + 1 < offset then i + 2 else i + 1, offset, s)
    else Walk(m, i + 1, offset, ReadByte(m, i, s))
  }

  method InsideShellQuote(m: seq<byte>, offset: nat) returns (inside: bool)
    requires offset <= |m|
    ensures inside <==> Quoted(m, offset)
  {
    var state := Plain;
    var index := 0;
    while index < offset
      invariant index <= offset
      invariant Walk(m, index, offset, state) == Walk(m, 0, offset, Plain)
    {
      var current := m[index];
      ghost var before, at := state, index;
      match state {
        case InComment =>
          if current == NEWLINE {
            state := Plain;
          }
        case InSingle =>
          if current == SINGLE {
            state := Plain;
          }
        case InDouble =>
          if current == BACKSLASH {
            if index + 1 < offset {
              index := index + 1;
            }
          } else if current == DOUBLE {
            state := Plain;
          }
        case Plain =>
          if current == BACKSLASH {
            if index + 1 < offset {
              index := index + 1;
            }
          } else if current == SINGLE {
            state := InSingle;
          } else if current == DOUBLE {
            state := InDouble;
          } else if current == HASH {
            if index == 0 || m[index - 1] == NEWLINE || m[index - 1] == SPACE || m[index - 1] == TAB {
              state := InComment;
            }
          }
      }
      index := index + 1;
    }
    inside := state == InSingle || state == InDouble;
  }

  // ------------------------------------------------------- the lexer's own steps

  /** A turn of the lexer moves it along the text, and reads the bytes it passes. */
  ghost predicate IsTurn(c: seq<byte>, at: Cursor, next: Cursor, step: seq<Label>)
    requires at.index < |c|
  {
    && at.index < next.index <= |c|
    && |step| == next.index - at.index
    && RestAt(c, at) == step + RestAt(c, next)
    && Sound(c, next)
    && (next.reading ==> at.reading || c[at.index] == NEWLINE)
    && IsToken(c, at, next, step)
  }

  /** What a turn passes: a line of a here-document, an opener, an escape, or one byte. */
  ghost predicate IsToken(c: seq<byte>, at: Cursor, next: Cursor, step: seq<Label>)
    requires at.index < |c| && next.index <= |c|
  {
    || (at.reading && next.state == Plain && step == Repeat(Body, |step|) && AfterLine(c, next.index))
    || (IsOpening(c, at) && next.state == Plain && next.index == OpeningAt(c, at.index).value.end &&
        step == OpeningAt(c, at.index).value.labels)
    || (!at.reading && Escapes(c, at.index, at.state) && next.state == at.state &&
        ((step == [Code(at.state)] && next.index == |c|) || step == [Code(at.state), Code(at.state)]))
    || (!at.reading && !Escapes(c, at.index, at.state) && next.state == ReadByte(c, at.index, at.state) &&
        step == [Code(at.state)])
  }

  predicate AfterLine(c: seq<byte>, i: nat)
    requires i <= |c|
  {
    i < |c| ==> 0 < i && c[i - 1] == NEWLINE
  }

  ghost predicate IsOpening(c: seq<byte>, at: Cursor)
    requires at.index < |c|
  {
    !at.reading && at.state == Plain && c[at.index] == LESS && OpeningAt(c, at.index).Some?
  }

  ghost predicate Sound(c: seq<byte>, at: Cursor) {
    at.index <= |c| && (at.reading ==> at.pending != [] && at.state == Plain)
  }

  lemma Turn(c: seq<byte>, at: Cursor) returns (next: Cursor, step: seq<Label>)
    requires Sound(c, at) && at.index < |c|
    ensures IsTurn(c, at, next, step)
  {
    hide IsTurn;
    if at.reading {
      next, step := BodyLineTurn(c, at);
    } else {
      match at.state {
        case InComment => next, step := CommentTurn(c, at);
        case InSingle => next, step := SingleTurn(c, at);
        case InDouble => next, step := DoubleTurn(c, at);
        case Plain => next, step := PlainTurn(c, at);
      }
    }
  }

  lemma BodyLineTurn(c: seq<byte>, at: Cursor) returns (next: Cursor, step: seq<Label>)
    requires Sound(c, at) && at.index < |c| && at.reading
    ensures IsTurn(c, at, next, step)
  {
    hide RestAt;
    BodyLineReads(c, at);
    next := AfterBodyLine(c, at);
    step := Repeat(Body, next.index - at.index);
  }

  lemma CommentTurn(c: seq<byte>, at: Cursor) returns (next: Cursor, step: seq<Label>)
    requires Sound(c, at) && at.index < |c| && !at.reading && at.state == InComment
    ensures IsTurn(c, at, next, step)
  {
    var i, pending := at.index, at.pending;
    CommentRest(c, i, pending);
    next := Cursor(i + 1, ReadByte(c, i, InComment), pending, c[i] == NEWLINE && pending != []);
    step := [Code(InComment)];
  }

  lemma SingleTurn(c: seq<byte>, at: Cursor) returns (next: Cursor, step: seq<Label>)
    requires Sound(c, at) && at.index < |c| && !at.reading && at.state == InSingle
    ensures IsTurn(c, at, next, step)
  {
    SingleRest(c, at.index, at.pending);
    next := at.(index := at.index + 1, state := ReadByte(c, at.index, InSingle));
    step := [Code(InSingle)];
  }

  lemma DoubleTurn(c: seq<byte>, at: Cursor) returns (next: Cursor, step: seq<Label>)
    requires Sound(c, at) && at.index < |c| && !at.reading && at.state == InDouble
    ensures IsTurn(c, at, next, step)
  {
    DoubleRest(c, at.index, at.pending);
    if c[at.index] == BACKSLASH && at.index + 1 < |c| {
      return at.(index := at.index + 2), [Code(InDouble), Code(InDouble)];
    }
    next := at.(index := at.index + 1, state := ReadByte(c, at.index, InDouble));
    step := [Code(InDouble)];
  }

  lemma PlainTurn(c: seq<byte>, at: Cursor) returns (next: Cursor, step: seq<Label>)
    requires Sound(c, at) && at.index < |c| && !at.reading && at.state == Plain
    ensures IsTurn(c, at, next, step)
  {
    var i, pending := at.index, at.pending;
    PlainRest(c, i, pending);
    if c[i] == BACKSLASH && i + 1 < |c| {
      return Cursor(i + 2, Plain, pending, false), [Code(Plain), Code(Plain)];
    }
    if c[i] == LESS && OpeningAt(c, i).Some? {
      var o := OpeningAt(c, i).value;
      return Cursor(o.end, Plain, pending + [o.heredoc], false), o.labels;
    }
    next := Cursor(i + 1, ReadByte(c, i, Plain), pending, c[i] == NEWLINE && pending != []);
    step := [Code(Plain)];
  }

  /** The label at the lexer's own offset carries its state. */
  lemma HeadState(c: seq<byte>, at: Cursor)
    requires Sound(c, at)
    ensures StateOf(RestAt(c, at)[0]) == at.state
  {
    if at.index < |c| {
      var next, step := Turn(c, at);
    } else {
      LineOfCode(c, |c|, at.pending);
    }
  }

  // ----------------------------------------------------------- walking a turn

  /** The blanked text, as the labels of the text have it. */
  ghost predicate Matches(m: seq<byte>, c: seq<byte>, all: seq<Label>) {
    && |m| == |c| && |all| == |c| + 1
    && (forall k :: 0 <= k < |c| ==> m[k] == Blank(c[k], all[k]))
  }

  /** An unquoted # directly after a blank in the word of an opener. */
  predicate IsBlankHash(c: seq<byte>, k: nat, all: seq<Label>)
    requires k < |c| < |all|
  {
    0 < k && c[k] == HASH && IsBlank(c[k - 1]) && all[k] == Opener(Plain)
  }

  predicate NoBlankHash(c: seq<byte>, all: seq<Label>)
    requires |c| < |all|
  {
    forall k :: 0 <= k < |c| ==> !IsBlankHash(c, k, all)
  }

  predicate NoBlankHashIn(c: seq<byte>, all: seq<Label>, from: nat, to: nat)
    requires to <= |c| < |all|
  {
    forall k :: from <= k < to ==> !IsBlankHash(c, k, all)
  }

  lemma NoneFurther(c: seq<byte>, all: seq<Label>, from: nat, begin: nat, end: nat)
    requires from <= begin && end <= |c| < |all| && NoBlankHashIn(c, all, from, end)
    ensures NoBlankHashIn(c, all, begin, end)
  {
  }

  function Least(a: nat, b: nat): nat { if a < b then a else b }

  /** Blanks and line breaks leave an unquoted state alone. */
  lemma {:induction false} WalkBlanks(m: seq<byte>, i: nat, j: nat, o: nat)
    requires i <= j <= o <= |m|
    requires forall k :: i <= k < j ==> m[k] == SPACE || m[k] == NEWLINE
    ensures Walk(m, i, o, Plain) == Walk(m, j, o, Plain)
    decreases j - i
  {
    if i == j {
    } else {
      WalkBlanks(m, i + 1, j, o);
    }
  }

  function StateIn(quote: byte): State {
    if quote == SINGLE then InSingle else if quote == DOUBLE then InDouble else Plain
  }

  lemma WordRestEnds(c: seq<byte>, i: nat, quote: byte)
    requires i <= |c| && WordRest(c, i, quote).Some?
    ensures var w := WordRest(c, i, quote).value; i <= w.end <= |c| && |w.labels| == w.end - i
    ensures quote == SINGLE || quote == DOUBLE ==> i < WordRest(c, i, quote).value.end
  {
    if quote == DOUBLE {
      DoubleTextCloses(c, i);
    }
  }

  /** What is left of a word lies in the text as its labels say. */
  ghost predicate WordAt(c: seq<byte>, i: nat, quote: byte, all: seq<Label>, end: nat) {
    && 0 < i <= end <= |c| < |all|
    && WordRest(c, i, quote).Some?
    && WordRest(c, i, quote).value.end == end
    && WordRest(c, i, quote).value.labels == all[i..end]
  }

  /** The word behind a step of it. */
  lemma WordStep(c: seq<byte>, i: nat, quote: byte, all: seq<Label>, end: nat,
                 step: seq<Label>, text: seq<byte>, i': nat, quote': byte)
    requires WordAt(c, i, quote, all, end)
    requires i' == i + |step| <= |c|
    requires WordRest(c, i, quote) == Then(step, text, WordRest(c, i', quote'))
    ensures WordAt(c, i', quote', all, end)
    ensures forall k :: i <= k < i' ==> all[k] == step[k - i]
  {
    var w' := WordRest(c, i', quote').value;
    WordRestEnds(c, i', quote');
    assert all[i..end] == step + w'.labels;
    assert all[i'..end] == all[i..end][|step|..] == w'.labels;
    assert forall k :: i <= k < i' ==> all[k] == all[i..end][k - i];
  }

  /** A word, walked from inside it: the scanner is in the word's own state at every offset of
      it and unquoted at its end. */
  lemma {:induction false} WordWalks(m: seq<byte>, c: seq<byte>, all: seq<Label>, i: nat, quote: byte, end: nat, o: nat)
    requires |m| == |c| && WordAt(c, i, quote, all, end)
    requires quote == 0 || quote == SINGLE || quote == DOUBLE
    requires forall k :: i - 1 <= k < end ==> m[k] == c[k]
    requires quote == 0 ==> c[i - 1] != NEWLINE
    requires i <= o <= |c| && NoBlankHashIn(c, all, i, Least(o, end))
    ensures Walk(m, i, o, StateIn(quote)) == if o < end then StateOf(all[o]) else Walk(m, end, o, Plain)
    decreases end - i
  {
    hide WordRest;
    if i == end {
      if quote != 0 {
        WordRestEnds(c, i, quote);
      }
    } else {
      var step, text, i', quote' := WordTurn(c, i, quote, end);
      WordStep(c, i, quote, all, end, step, text, i', quote');
      assert all[i] == step[0];
      assert i < o ==> !IsBlankHash(c, i, all);
      assert m[i] == c[i] && m[i - 1] == c[i - 1];
      if i' <= o {
        assert Walk(m, i, o, StateIn(quote)) == Walk(m, i', o, StateIn(quote'));
        WordWalks(m, c, all, i', quote', end, o);
      }
    }
  }

  /** One step of a word, for the word and for the scanner. */
  lemma WordTurn(c: seq<byte>, i: nat, quote: byte, end: nat)
    returns (step: seq<Label>, text: seq<byte>, i': nat, quote': byte)
    requires i < |c| && WordRest(c, i, quote).Some? && i < WordRest(c, i, quote).value.end
    requires quote == 0 || quote == SINGLE || quote == DOUBLE
    ensures i < i' == i + |step| <= |c|
    ensures quote' == 0 || quote' == SINGLE || quote' == DOUBLE
    ensures WordRest(c, i, quote) == Then(step, text, WordRest(c, i', quote'))
    ensures quote' == 0 ==> c[i' - 1] != NEWLINE
    ensures Escapes(c, i, StateIn(quote)) ==> step == [Opener(StateIn(quote)), Opener(StateIn(quote))] && quote' == quote
    ensures !Escapes(c, i, StateIn(quote)) ==> step == [Opener(StateIn(quote))]
    ensures !Escapes(c, i, StateIn(quote)) && c[i] != HASH ==> StateIn(quote') == ReadByte(c, i, StateIn(quote))
    ensures c[i] == HASH ==> quote' == quote
    ensures quote == 0 ==> forall k :: i <= k < i' ==> c[k] != NEWLINE
  {
    if quote == SINGLE {
      SingleStep(c, i);
      return [Opener(InSingle)], if c[i] == SINGLE then [] else [c[i]], i + 1, if c[i] == SINGLE then 0 else SINGLE;
    } else if quote == DOUBLE {
      DoubleStep(c, i);
      if c[i] == BACKSLASH {
        return [Opener(InDouble), Opener(InDouble)], [c[i + 1]], i + 2, DOUBLE;
      }
      return [Opener(InDouble)], if c[i] == DOUBLE then [] else [c[i]], i + 1, if c[i] == DOUBLE then 0 else DOUBLE;
    } else if c[i] == SINGLE || c[i] == DOUBLE {
      QuoteOpens(c, i, c[i]);
      return [Opener(Plain)], [], i + 1, c[i];
    } else {
      PlainStep(c, i);
      if c[i] == BACKSLASH {
        return [Opener(Plain), Opener(Plain)], [c[i + 1]], i + 2, 0;
      }
      return [Opener(Plain)], [c[i]], i + 1, 0;
    }
  }

  /** The parts of an opener: what comes before its word, and the word. */
  lemma OpeningParts(c: seq<byte>, i: nat) returns (begin: nat, w: Word)
    requires i < |c| && c[i] == LESS && OpeningAt(c, i).Some?
    ensures i < begin < w.end == OpeningAt(c, i).value.end <= |c|
    ensures WordRest(c, begin, 0) == Some(w) && |w.labels| == w.end - begin && w.labels[0] == Opener(Plain)
    ensures OpeningAt(c, i).value.labels == Repeat(Opener(Plain), begin - i) + w.labels
    ensures forall k :: i <= k < begin ==> IsLead(c[k])
  {
    begin := WordStart(c, i);
    w := WordFrom(c, begin).value;
    WordAdvances(c, begin);
    LeadIsPlain(c, i);
  }

  /** An opener, walked from its first byte. */
  lemma {:induction false} OpeningWalks(m: seq<byte>, c: seq<byte>, all: seq<Label>, i: nat, o: nat)
    requires Matches(m, c, all)
    requires i < |c| && c[i] == LESS && OpeningAt(c, i).Some?
    requires var opening := OpeningAt(c, i).value;
      forall k :: i <= k < opening.end ==> all[k] == opening.labels[k - i]
    requires i <= o <= |c| && NoBlankHashIn(c, all, i, Least(o, OpeningAt(c, i).value.end))
    ensures var end := OpeningAt(c, i).value.end;
      Walk(m, i, o, Plain) == if o < end then StateOf(all[o]) else Walk(m, end, o, Plain)
  {
    hide OpeningAt, WordRest, NoBlankHashIn;
    var opening := OpeningAt(c, i).value;
    var begin, w := OpeningParts(c, i);
    OpeningIsOpener(c, i);
    assert forall k :: i <= k < opening.end ==> m[k] == c[k];
    assert forall k :: i <= k < begin ==> all[k] == Opener(Plain);
    assert all[begin..opening.end] == w.labels by {
      assert forall k :: begin <= k < opening.end ==> all[k] == w.labels[k - begin];
    }
    if o <= begin {
      WalkLead(m, i, o, o);
      assert all[begin] == w.labels[0];
    } else {
      WalkLead(m, i, begin, o);
      NoneFurther(c, all, i, begin, Least(o, opening.end));
      WordWalks(m, c, all, begin, 0, opening.end, o);
    }
  }

  /** What comes before the word of an opener is neither quoted nor a comment. */
  predicate IsLead(b: byte) {
    b == LESS || b == DASH || IsBlank(b)
  }

  lemma LeadIsPlain(c: seq<byte>, i: nat)
    requires i + 1 < |c| && c[i] == LESS && c[i + 1] == LESS
    ensures forall k :: i <= k < WordStart(c, i) ==> IsLead(c[k])
  {
    var j := if i + 2 < |c| && c[i + 2] == DASH then i + 3 else i + 2;
    BlanksSkipped(c, j);
  }

  lemma {:induction false} BlanksSkipped(c: seq<byte>, i: nat)
    requires i <= |c|
    ensures forall k :: i <= k < SkipBlanks(c, i) ==> IsBlank(c[k])
    decreases |c| - i
  {
    if i == |c| || !IsBlank(c[i]) {
    } else {
      BlanksSkipped(c, i + 1);
    }
  }

  lemma {:induction false} WalkLead(m: seq<byte>, i: nat, j: nat, o: nat)
    requires i <= j <= o <= |m|
    requires forall k :: i <= k < j ==> IsLead(m[k])
    ensures Walk(m, i, o, Plain) == Walk(m, j, o, Plain)
    decreases j - i
  {
    if i == j {
    } else {
      WalkLead(m, i + 1, j, o);
    }
  }

  // ------------------------------------------------------------- the agreement

  /** One turn of the lexer, walked: the scanner is in the lexer's state at every offset of the
      turn, and in its next state at the end of it. */
  lemma TurnWalks(m: seq<byte>, c: seq<byte>, all: seq<Label>, at: Cursor, next: Cursor, step: seq<Label>, o: nat)
    requires Matches(m, c, all)
    requires Sound(c, at) && at.index < |c| && IsTurn(c, at, next, step)
    requires 0 < at.index ==> m[at.index - 1] == c[at.index - 1]
    requires forall k :: at.index <= k < next.index ==> all[k] == step[k - at.index]
    requires at.index <= o <= |c| && NoBlankHashIn(c, all, at.index, Least(o, next.index))
    ensures Walk(m, at.index, o, at.state) ==
      if o < next.index then StateOf(all[o]) else Walk(m, next.index, o, next.state)
    ensures next.index < |c| ==> m[next.index - 1] == c[next.index - 1]
  {
    hide RestAt, OpeningAt;
    var i := at.index;
    if at.reading {
      assert forall k :: i <= k < next.index ==> m[k] == SPACE || m[k] == NEWLINE;
      WalkBlanks(m, i, if o < next.index then o else next.index, o);
    } else if IsOpening(c, at) && step == OpeningAt(c, i).value.labels {
      OpeningWalks(m, c, all, i, o);
      OpeningIsOpener(c, i);
    } else {
      assert all[i] == step[0] == Code(at.state);
      assert m[i] == c[i];
    }
  }

  lemma NoneIn(c: seq<byte>, all: seq<Label>, from: nat, to: nat)
    requires to <= |c| < |all| && NoBlankHash(c, all)
    ensures NoBlankHashIn(c, all, from, to)
  {
  }

  /** From any place the lexer comes to, the scanner agrees with it to the end of the text. */
  lemma {:induction false} AgreesFrom(m: seq<byte>, c: seq<byte>, all: seq<Label>, at: Cursor, o: nat)
    requires Matches(m, c, all) && NoBlankHash(c, all)
    requires Sound(c, at) && RestAt(c, at) == all[at.index..]
    requires 0 < at.index < |c| ==> m[at.index - 1] == c[at.index - 1]
    requires at.index <= o <= |c|
    ensures Walk(m, at.index, o, at.state) == StateOf(all[o])
    decreases |c| - at.index
  {
    hide RestAt, IsToken, NoBlankHash;
    if at.index == |c| {
      HeadState(c, at);
    } else {
      var next, step := Turn(c, at);
      StepLabels(all, at.index, step, RestAt(c, next));
      NoneIn(c, all, at.index, Least(o, next.index));
      TurnWalks(m, c, all, at, next, step, o);
      if next.index <= o {
        AgreesFrom(m, c, all, next, o);
      }
    }
  }

  /** The blanked text leads the scanner through the lexer's own states at every offset outside
      the bodies, unless some opener's word holds an unquoted # directly after a blank. */
  lemma ScannerAgrees(c: seq<byte>, o: nat)
    requires NoBlankHash(c, Labels(c)) && o <= |c|
    ensures Walk(Masked(c), 0, o, Plain) == StateOf(Labels(c)[o])
  {
    var at := Cursor(0, Plain, [], false);
    assert RestAt(c, at) == Labels(c) == Labels(c)[0..];
    AgreesFrom(Masked(c), c, Labels(c), at, o);
  }

  /** A byte after one that is no backslash is read on its own. */
  lemma {:induction false} WalkOneMore(m: seq<byte>, i: nat, k: nat, s: State)
    requires i <= k < |m| && m[k] != BACKSLASH
    requires i < k ==> m[k - 1] != BACKSLASH
    ensures Walk(m, i, k + 1, s) == ReadByte(m, k, Walk(m, i, k, s))
    decreases k - i
  {
    if i == k {
    } else {
      if Escapes(m, i, s) {
        WalkOneMore(m, i + 2, k, s);
      } else {
        WalkOneMore(m, i + 1, k, ReadByte(m, i, s));
      }
    }
  }

  /** No comment begins inside an opener, or right behind one. */
  lemma {:induction false} OpenerIsNoComment(c: seq<byte>, all: seq<Label>, at: Cursor, k: nat)
    requires |all| == |c| + 1 && Sound(c, at) && RestAt(c, at) == all[at.index..]
    requires at.index <= k < |c| && all[k].Opener?
    ensures StateOf(all[k + 1]) != InComment
    decreases |c| - at.index
  {
    hide RestAt, OpeningAt;
    var next, step := Turn(c, at);
    StepLabels(all, at.index, step, RestAt(c, next));
    if next.index <= k {
      OpenerIsNoComment(c, all, next, k);
    } else {
      assert all[k] == step[k - at.index];
      assert IsOpening(c, at) && step == OpeningAt(c, at.index).value.labels;
      OpeningIsOpener(c, at.index);
      if k + 1 == next.index {
        HeadState(c, next);
        assert all[next.index..][0] == all[next.index];
      } else {
        assert all[k + 1] == step[k + 1 - at.index];
      }
    }
  }

  /** The two scanners are in the same state at every offset if and only if no opener's word holds
      an unquoted # directly after a blank. */
  lemma ScannersAgreeExactly(c: seq<byte>)
    ensures (forall o :: 0 <= o <= |c| ==> Walk(Masked(c), 0, o, Plain) == StateOf(Labels(c)[o])) <==>
            NoBlankHash(c, Labels(c))
  {
    var all, m := Labels(c), Masked(c);
    if NoBlankHash(c, all) {
      forall o | 0 <= o <= |c| ensures Walk(m, 0, o, Plain) == StateOf(all[o]) {
        ScannerAgrees(c, o);
      }
    } else {
      var k :| 0 <= k < |c| && IsBlankHash(c, k, all);
      if Walk(m, 0, k, Plain) == StateOf(all[k]) {
        assert m[k] == c[k] && IsBlank(m[k - 1]);
        WalkOneMore(m, 0, k, Plain);
        var at := Cursor(0, Plain, [], false);
        assert RestAt(c, at) == all == all[0..];
        OpenerIsNoComment(c, all, at, k);
        assert Walk(m, 0, k + 1, Plain) != StateOf(all[k + 1]);
      }
    }
  }

  /** The text `<< # '`: the lexer takes the # for a delimiter and reads the end of the text inside
      the quote behind it; the scanner takes it for a comment, as section 2.3 of the POSIX Shell
      Command Language does. */
  lemma BlankHashDivides()
    ensures var c := [LESS, LESS, SPACE, HASH, SPACE, SINGLE];
      Labels(c)[6] == Code(InSingle) && Walk(Masked(c), 0, 6, Plain) == InComment
  {
    var c := [LESS, LESS, SPACE, HASH, SPACE, SINGLE];
    var all := Labels(c);
    assert WordFrom(c, 4) == Some(Word(4, [], []));
    assert [HASH] + [] == [HASH] && [Opener(Plain)] + [] == [Opener(Plain)];
    assert WordFrom(c, 3) == Some(Word(4, [HASH], [Opener(Plain)]));
    assert SkipBlanks(c, 3) == 3 && WordStart(c, 0) == 3;
    var o := OpeningAt(c, 0).value;
    assert o.end == 4 && o.labels == [Opener(Plain), Opener(Plain), Opener(Plain), Opener(Plain)];
    assert [] + [o.heredoc] == [o.heredoc];
    assert all == o.labels + Lex(c, 4, [o.heredoc]);
    assert Lex(c, 4, [o.heredoc]) == [Code(Plain)] + Lex(c, 5, [o.heredoc]);
    assert SingleEnd(c, 6) == 6;
    assert Lex(c, 5, [o.heredoc]) == [Code(Plain)] + Repeat(Code(InSingle), 1);
    var m := Masked(c);
    assert m == c;
    assert Walk(m, 3, 6, Plain) == Walk(m, 4, 6, InComment) == Walk(m, 5, 6, InComment) == InComment;
    assert Walk(m, 0, 6, Plain) == Walk(m, 1, 6, Plain) == Walk(m, 2, 6, Plain) == Walk(m, 3, 6, Plain);
  }

  // ----------------------------------------------------------------- the answers

  predicate IsQuote(s: State) {
    s == InSingle || s == InDouble
  }

  /** Nothing the lexer reads as quoted follows, on its line, an unquoted # directly after a blank
      in the word of an opener. */
  ghost predicate QuietAfterHash(c: seq<byte>, all: seq<Label>)
    requires |c| < |all|
  {
    forall k, o :: 0 <= k < |c| && IsBlankHash(c, k, all) && k < o <= LineEnd(c, k) ==> !IsQuote(StateOf(all[o]))
  }

  /** A walk can be cut behind any byte that is no backslash. */
  lemma {:induction false} WalkSplits(m: seq<byte>, i: nat, k: nat, o: nat, s: State)
    requires i <= k <= o <= |m| && (i < k ==> m[k - 1] != BACKSLASH)
    ensures Walk(m, i, o, s) == Walk(m, k, o, Walk(m, i, k, s))
    decreases k - i
  {
    if i == k {
    } else if Escapes(m, i, s) {
      WalkSplits(m, i + 2, k, o, s);
    } else {
      WalkSplits(m, i + 1, k, o, ReadByte(m, i, s));
    }
  }

  /** A comment lasts to the end of its line. */
  lemma {:induction false} CommentLasts(m: seq<byte>, i: nat, e: nat, o: nat)
    requires i <= e <= |m| && i <= o <= |m| && forall k :: i <= k < e ==> m[k] != NEWLINE
    ensures o <= e ==> Walk(m, i, o, InComment) == InComment
    ensures e < o && m[e] == NEWLINE ==> Walk(m, i, o, InComment) == Walk(m, e + 1, o, Plain)
    decreases e - i
  {
    if i == o || i == e {
    } else {
      CommentLasts(m, i + 1, e, o);
    }
  }

  /** The scanner, unquoted at such a #, takes the rest of the line for a comment. */
  lemma HashHides(m: seq<byte>, c: seq<byte>, all: seq<Label>, i: nat, s: State, k: nat, o: nat)
    requires Matches(m, c, all) && i <= k < o <= |c| && IsBlankHash(c, k, all)
    requires !IsQuote(Walk(m, i, k, s))
    ensures o <= LineEnd(c, k) ==> Walk(m, i, o, s) == InComment
    ensures LineEnd(c, k) < o ==> Walk(m, i, o, s) == Walk(m, LineEnd(c, k) + 1, o, Plain)
  {
    var e := LineEnd(c, k);
    assert m[k] == HASH && IsBlank(m[k - 1]);
    WalkSplits(m, i, k, o, s);
    assert Walk(m, k, o, Walk(m, i, k, s)) == Walk(m, k + 1, o, InComment);
    assert forall j :: 0 <= j < |c| ==> (m[j] == NEWLINE <==> c[j] == NEWLINE);
    CommentLasts(m, k + 1, e, o);
  }

  /** No byte of an opener that it reads as unquoted is a line break. */
  lemma {:induction false} WordHasNoBreak(c: seq<byte>, all: seq<Label>, i: nat, quote: byte, end: nat, k: nat)
    requires WordAt(c, i, quote, all, end) && i <= k < end && all[k] == Opener(Plain)
    requires quote == 0 || quote == SINGLE || quote == DOUBLE
    ensures c[k] != NEWLINE
    decreases end - i
  {
    var step, text, i', quote' := WordTurn(c, i, quote, end);
    WordStep(c, i, quote, all, end, step, text, i', quote');
    if k < i' {
      assert all[k] == step[k - i] && step[k - i] == Opener(StateIn(quote));
    } else {
      WordHasNoBreak(c, all, i', quote', end, k);
    }
  }

  lemma OpeningHasNoBreak(c: seq<byte>, all: seq<Label>, i: nat, k: nat)
    requires |all| == |c| + 1 && i < |c| && c[i] == LESS && OpeningAt(c, i).Some?
    requires var opening := OpeningAt(c, i).value;
      && i <= k < opening.end && forall j :: i <= j < opening.end ==> all[j] == opening.labels[j - i]
    ensures c[k] == NEWLINE ==> IsQuote(StateOf(all[k]))
  {
    hide OpeningAt, WordRest;
    var opening := OpeningAt(c, i).value;
    var begin, w := OpeningParts(c, i);
    OpeningIsOpener(c, i);
    assert all[k] == opening.labels[k - i];
    if begin <= k {
      assert all[begin..opening.end] == w.labels by {
        assert forall j :: begin <= j < opening.end ==> all[j] == w.labels[j - begin];
      }
      if all[k] == Opener(Plain) {
        WordHasNoBreak(c, all, begin, 0, opening.end, k);
      }
    }
  }

  /** From code the lexer comes to the end of its line unquoted, if it is unquoted to there. */
  lemma {:induction false} ToLineEnd(c: seq<byte>, all: seq<Label>, at: Cursor, e: nat) returns (next: Cursor)
    requires |all| == |c| + 1 && Sound(c, at) && RestAt(c, at) == all[at.index..] && !at.reading
    requires at.index <= e < |c| && c[e] == NEWLINE && forall k :: at.index <= k < e ==> c[k] != NEWLINE
    requires forall o :: at.index <= o <= e ==> !IsQuote(StateOf(all[o]))
    ensures next.index == e + 1 && next.state == Plain && Sound(c, next) && RestAt(c, next) == all[next.index..]
    decreases |c| - at.index
  {
    hide RestAt, OpeningAt;
    var turned, step := Turn(c, at);
    StepLabels(all, at.index, step, RestAt(c, turned));
    assert all[at.index] == step[0];
    if IsOpening(c, at) && step == OpeningAt(c, at.index).value.labels {
      if e < turned.index {
        OpeningHasNoBreak(c, all, at.index, e);
      }
      next := ToLineEnd(c, all, turned, e);
    } else if turned.index == e + 1 {
      next := turned;
    } else {
      next := ToLineEnd(c, all, turned, e);
    }
  }

  lemma {:induction false} FirstBlankHash(c: seq<byte>, all: seq<Label>, from: nat, end: nat) returns (k: nat)
    requires end <= |c| < |all| && !NoBlankHashIn(c, all, from, end)
    ensures from <= k < end && IsBlankHash(c, k, all) && NoBlankHashIn(c, all, from, k)
    decreases end
  {
    if NoBlankHashIn(c, all, from, end - 1) {
      k := end - 1;
    } else {
      k := FirstBlankHash(c, all, from, end - 1);
    }
  }

  /** A turn of the lexer over such a #, for the answers: the scanner is in a comment to the end of
      the line, and in the lexer's state behind it. */
  lemma AnswersPastHash(
    m: seq<byte>, c: seq<byte>, all: seq<Label>, at: Cursor, next: Cursor, step: seq<Label>, k: nat, o: nat)
    returns (after: Cursor)
    requires Matches(m, c, all) && QuietAfterHash(c, all)
    requires Sound(c, at) && at.index < |c| && IsTurn(c, at, next, step) && RestAt(c, next) == all[next.index..]
    requires 0 < at.index ==> m[at.index - 1] == c[at.index - 1]
    requires forall j :: at.index <= j < next.index ==> all[j] == step[j - at.index]
    requires at.index <= k < next.index && k < o <= |c|
    requires IsBlankHash(c, k, all) && NoBlankHashIn(c, all, at.index, k)
    ensures o <= LineEnd(c, k) ==> !IsQuote(Walk(m, at.index, o, at.state)) && !IsQuote(StateOf(all[o]))
    ensures LineEnd(c, k) < o ==>
      && at.index < after.index <= o && Sound(c, after) && RestAt(c, after) == all[after.index..]
      && m[after.index - 1] == c[after.index - 1]
      && Walk(m, at.index, o, at.state) == Walk(m, after.index, o, after.state)
  {
    hide RestAt, IsTurn, QuietAfterHash, NoBlankHashIn, Walk;
    assert IsTurn(c, at, next, step);
    assert Least(k, next.index) == k;
    TurnWalks(m, c, all, at, next, step, k);
    HashHides(m, c, all, at.index, at.state, k, o);
    var e := LineEnd(c, k);
    if o <= e {
      after := at;
      QuietAt(c, all, k, o);
    } else {
      after := AfterHashLine(c, all, at, next, step, k);
      KeepsBreak(m, c, all, e);
    }
  }

  lemma TurnMoves(c: seq<byte>, at: Cursor, next: Cursor, step: seq<Label>)
    requires at.index < |c| && IsTurn(c, at, next, step)
    ensures at.index < next.index <= |c| && |step| == next.index - at.index
    ensures RestAt(c, at) == step + RestAt(c, next) && Sound(c, next)
  {
  }

  /** From any place the lexer comes to, the scanner's answers are the lexer's to the end of the
      text, if the scanner is in its state there. */
  lemma {:induction false} AnswersFrom(m: seq<byte>, c: seq<byte>, all: seq<Label>, at: Cursor, o: nat)
    requires |m| == |c| && |all| == |c| + 1 && Matches(m, c, all) && QuietAfterHash(c, all)
    requires Sound(c, at) && RestAt(c, at) == all[at.index..]
    requires 0 < at.index < |c| ==> m[at.index - 1] == c[at.index - 1]
    requires at.index <= o <= |c|
    ensures IsQuote(Walk(m, at.index, o, at.state)) <==> IsQuote(StateOf(all[o]))
    decreases |c| - at.index
  {
    hide RestAt, IsTurn, QuietAfterHash, NoBlankHashIn, IsBlankHash, Matches;
    if at.index == |c| {
      HeadState(c, at);
    } else {
      hide Walk;
      var next, step := Turn(c, at);
      TurnMoves(c, at, next, step);
      StepLabels(all, at.index, step, RestAt(c, next));
      if NoBlankHashIn(c, all, at.index, Least(o, next.index)) {
        TurnWalks(m, c, all, at, next, step, o);
        if next.index <= o {
          AnswersFrom(m, c, all, next, o);
        }
      } else {
        var k := FirstBlankHash(c, all, at.index, Least(o, next.index));
        var after := AnswersPastHash(m, c, all, at, next, step, k, o);
        if LineEnd(c, k) < o {
          AnswersFrom(m, c, all, after, o);
        }
      }
    }
  }

  lemma QuietAt(c: seq<byte>, all: seq<Label>, k: nat, o: nat)
    requires |all| == |c| + 1 && QuietAfterHash(c, all) && k < |c| && IsBlankHash(c, k, all) && k < o <= LineEnd(c, k)
    ensures !IsQuote(StateOf(all[o]))
  {
  }

  lemma KeepsBreak(m: seq<byte>, c: seq<byte>, all: seq<Label>, e: nat)
    requires Matches(m, c, all) && e < |c| && c[e] == NEWLINE
    ensures m[e] == NEWLINE
  {
  }

  /** The lexer's place behind the line of such a #. */
  lemma AfterHashLine(c: seq<byte>, all: seq<Label>, at: Cursor, next: Cursor, step: seq<Label>, k: nat)
    returns (after: Cursor)
    requires |all| == |c| + 1 && QuietAfterHash(c, all)
    requires Sound(c, at) && at.index < |c| && IsTurn(c, at, next, step) && RestAt(c, next) == all[next.index..]
    requires forall j :: at.index <= j < next.index ==> all[j] == step[j - at.index]
    requires at.index <= k < next.index && IsBlankHash(c, k, all) && LineEnd(c, k) < |c|
    ensures after.index == LineEnd(c, k) + 1 && after.state == Plain && Sound(c, after)
    ensures RestAt(c, after) == all[after.index..]
  {
    hide RestAt, OpeningAt, QuietAfterHash;
    var e := LineEnd(c, k);
    assert all[k] == step[k - at.index] && all[k].Opener?;
    assert IsOpening(c, at) && step == OpeningAt(c, at.index).value.labels;
    forall o | k < o <= e ensures !IsQuote(StateOf(all[o])) {
      QuietAt(c, all, k, o);
    }
    if e < next.index {
      OpeningHasNoBreak(c, all, at.index, e);
    }
    after := ToLineEnd(c, all, next, e);
  }

  /** The exact condition for the answers: the second scanner, on the blanked text, says of every
      offset what the first one reads there if and only if nothing quoted follows, on its line, an
      unquoted # directly after a blank in the word of an opener. */
  lemma AnswersAgreeExactly(c: seq<byte>)
    ensures (forall o :: 0 <= o <= |c| ==> (Quoted(Masked(c), o) <==> IsQuote(StateOf(Labels(c)[o])))) <==>
            QuietAfterHash(c, Labels(c))
  {
    hide Labels, Masked;
    var all, m := Labels(c), Masked(c);
    MaskedMatches(c);
    if QuietAfterHash(c, all) {
      var at := Cursor(0, Plain, [], false);
      StartsAll(c);
      forall o | 0 <= o <= |c| ensures Quoted(m, o) <==> IsQuote(StateOf(all[o])) {
        AnswersFrom(m, c, all, at, o);
      }
    } else {
      var k, o :| 0 <= k < |c| && IsBlankHash(c, k, all) && k < o <= LineEnd(c, k) && IsQuote(StateOf(all[o]));
      if Quoted(m, k) <==> IsQuote(StateOf(all[k])) {
        HashHides(m, c, all, 0, Plain, k, o);
        assert !Quoted(m, o);
      }
    }
  }

  lemma MaskedMatches(c: seq<byte>)
    ensures Matches(Masked(c), c, Labels(c))
  {
  }

  lemma StartsAll(c: seq<byte>)
    ensures var at := Cursor(0, Plain, [], false);
      Sound(c, at) && RestAt(c, at) == Labels(c)[at.index..]
  {
  }

  /** The first match that does not begin inside a quote. */
  method FirstUnquotedShellMatch(m: seq<byte>, matches: seq<nat>) returns (found: Option<nat>)
    requires forall k :: 0 <= k < |matches| ==> matches[k] <= |m|
    ensures found.Some? ==> found.value < |matches| && !Quoted(m, matches[found.value])
    ensures forall k :: 0 <= k < (if found.Some? then found.value else |matches|) ==> Quoted(m, matches[k])
  {
    for k := 0 to |matches|
      invariant forall l :: 0 <= l < k ==> Quoted(m, matches[l])
    {
      var inside := InsideShellQuote(m, matches[k]);
      if !inside {
        return Some(k);
      }
    }
    found := None;
  }

  predicate Quoted(m: seq<byte>, offset: nat)
    requires offset <= |m|
  {
    Walk(m, 0, offset, Plain) in {InSingle, InDouble}
  }
}
