/** The delimiter of a here-document beside what the POSIX Shell Command Language (Issue 7) makes of
it. The code takes every backslash between double quotes away; section 2.2.3 keeps one in front of
any byte but a dollar sign, a backquote, a double quote, a backslash or a line break, and takes a
backslash away together with a line break after it. A # that begins a word begins a comment
(section 2.3), and what lies in a substitution is read on its own, whatever quotes surround it.

What a shell makes of a substitution, which may hold any program, is given.
 */
module DelimiterQuoting {
  import opened Results
  import opened ShellLexer

  const DOLLAR: byte := 36
  const BACKQUOTE: byte := 96
  const BRACE: byte := 123

  /** A piece of a word: where it ends, and what quote removal leaves of it. */
  datatype Removed = Removed(end: nat, text: seq<byte>)

  function Before(text: seq<byte>, rest: Option<Removed>): Option<Removed> {
    if rest.None? then None else Some(Removed(rest.value.end, text + rest.value.text))
  }

  /** Where a substitution ends and what is left of it, by where it begins in a text. */
  type Substitutions = (seq<byte>, nat) -> Option<Removed>

  /** A substitution begins: a backquote, or a dollar sign and a parenthesis or brace. */
  predicate Introduces(c: seq<byte>, i: nat)
    requires i < |c|
  {
    c[i] == BACKQUOTE || (c[i] == DOLLAR && i + 1 < |c| && (c[i + 1] == OPEN || c[i + 1] == BRACE))
  }

  lemma IntroducersAreCharacters(c: seq<byte>, i: nat)
    requires i < |c|
    ensures Introduces(c, i) <==>
      CharOf(c[i]) == '`' || (CharOf(c[i]) == '$' && i + 1 < |c| && (CharOf(c[i + 1]) == '(' || CharOf(c[i + 1]) == '{'))
  {
  }

  function Substituted(sub: Substitutions, c: seq<byte>, i: nat): (r: Option<Removed>)
    requires i < |c|
    ensures r.Some? ==> i < r.value.end <= |c|
  {
    var r := sub(c, i);
    if r.Some? && i < r.value.end <= |c| then r else None
  }

  /** The bytes a backslash escapes between double quotes (section 2.2.3). */
  predicate IsSpecial(b: byte) {
    b == DOLLAR || b == BACKQUOTE || b == DOUBLE || b == BACKSLASH
  }

  /** What quote removal leaves of a backslash between double quotes and the byte after it. */
  function Escaped(b: byte): seq<byte> {
    if b == NEWLINE then [] else if IsSpecial(b) then [b] else [BACKSLASH, b]
  }

  // ------------------------------------------------------------------- one string

  /** A double-quoted string by section 2.2.3, up to its closing quote. */
  ghost function PosixString(c: seq<byte>, i: nat, sub: Substitutions): (r: Option<Removed>)
    requires i <= |c|
    ensures r.Some? ==> i <= r.value.end < |c| && c[r.value.end] == DOUBLE
    decreases |c| - i
  {
    if i == |c| then None
    else if c[i] == DOUBLE then Some(Removed(i, []))
    else if c[i] == BACKSLASH then
      if i + 1 == |c| then None else Before(Escaped(c[i + 1]), PosixString(c, i + 2, sub))
    else if Introduces(c, i) then
      var s := Substituted(sub, c, i);
      if s.None? then None else Before(s.value.text, PosixString(c, s.value.end, sub))
    else Before([c[i]], PosixString(c, i + 1, sub))
  }

  /** A backslash and a line break are taken away together, as section 2.2.1 has it. */
  lemma LinesAreJoined(c: seq<byte>, i: nat, sub: Substitutions)
    requires i + 2 <= |c| && c[i] == BACKSLASH && c[i + 1] == NEWLINE
    ensures PosixString(c, i, sub) == PosixString(c, i + 2, sub)
  {
    if PosixString(c, i + 2, sub).Some? {
      assert [] + PosixString(c, i + 2, sub).value.text == PosixString(c, i + 2, sub).value.text;
    }
  }

  /** What the code makes of it. */
  ghost function CodeString(c: seq<byte>, i: nat): (r: Option<Removed>)
    requires i <= |c|
  {
    var text := DoubleText(c, i);
    if text.None? then None else Some(Removed(DoubleEnd(c, i), text.value))
  }

  ghost predicate StringIsPlain(c: seq<byte>, i: nat)
    requires i <= |c|
    decreases |c| - i
  {
    if i == |c| || c[i] == DOUBLE then true
    else if c[i] == BACKSLASH && i + 1 < |c| then StringIsPlain(c, i + 2)
    else !Introduces(c, i) && StringIsPlain(c, i + 1)
  }

  /** Every backslash of the string escapes a byte the standard lets it escape, and every
      substitution stays as it is and holds nothing the code takes for a quote. */
  ghost predicate StringComplies(c: seq<byte>, i: nat, sub: Substitutions)
    requires i <= |c|
    decreases |c| - i
  {
    if i == |c| || c[i] == DOUBLE then true
    else if c[i] == BACKSLASH && i + 1 < |c| then IsSpecial(c[i + 1]) && StringComplies(c, i + 2, sub)
    else if Introduces(c, i) then
      var s := Substituted(sub, c, i);
      && s.Some? && s.value.text == c[i..s.value.end]
      && (forall k :: i <= k < s.value.end ==> c[k] != DOUBLE && c[k] != BACKSLASH)
      && StringComplies(c, s.value.end, sub)
    else StringComplies(c, i + 1, sub)
  }

  /** One byte of a string the code reads as itself. */
  lemma CodeStringStep(c: seq<byte>, i: nat)
    requires i < |c|
    ensures c[i] != DOUBLE && c[i] != BACKSLASH ==> CodeString(c, i) == Before([c[i]], CodeString(c, i + 1))
    ensures c[i] == BACKSLASH && i + 1 < |c| && c[i + 1] != NEWLINE ==>
      CodeString(c, i) == Before([c[i + 1]], CodeString(c, i + 2))
  {
  }

  lemma {:induction false} CodeReadsRun(c: seq<byte>, i: nat, e: nat)
    requires i <= e <= |c| && forall k :: i <= k < e ==> c[k] != DOUBLE && c[k] != BACKSLASH
    ensures CodeString(c, i) == Before(c[i..e], CodeString(c, e))
    decreases e - i
  {
    if i == e {
      if CodeString(c, e).Some? {
        assert c[i..e] + CodeString(c, e).value.text == CodeString(c, e).value.text;
      }
    } else {
      CodeStringStep(c, i);
      CodeReadsRun(c, i + 1, e);
      assert c[i..e] == [c[i]] + c[i + 1..e];
      if CodeString(c, e).Some? {
        var rest := CodeString(c, e).value.text;
        assert [c[i]] + (c[i + 1..e] + rest) == c[i..e] + rest;
      }
    }
  }

  /** A string that complies is read as the standard reads it. */
  lemma {:induction false} CompliantStringIsPosix(c: seq<byte>, i: nat, sub: Substitutions)
    requires i <= |c| && StringComplies(c, i, sub)
    ensures CodeString(c, i) == PosixString(c, i, sub)
    decreases |c| - i
  {
    if i == |c| || c[i] == DOUBLE {
    } else if c[i] == BACKSLASH {
      if i + 1 < |c| {
        CompliantStringIsPosix(c, i + 2, sub);
        CodeStringStep(c, i);
      }
    } else if Introduces(c, i) {
      var e := Substituted(sub, c, i).value.end;
      CompliantStringIsPosix(c, e, sub);
      CodeReadsRun(c, i, e);
    } else {
      CompliantStringIsPosix(c, i + 1, sub);
      CodeStringStep(c, i);
    }
  }

  /** Without a substitution the code accepts no string the standard does not, closes it where the
      standard does, and its text is never the longer one. */
  lemma {:induction false} CodeStringIsShorter(c: seq<byte>, i: nat, sub: Substitutions)
    requires i <= |c| && StringIsPlain(c, i)
    ensures CodeString(c, i).Some? ==>
      && PosixString(c, i, sub).Some? && CodeString(c, i).value.end == PosixString(c, i, sub).value.end
      && |CodeString(c, i).value.text| <= |PosixString(c, i, sub).value.text|
    ensures PosixString(c, i, sub).Some? ==> PosixString(c, i, sub).value.end == DoubleEnd(c, i)
    decreases |c| - i
  {
    if i == |c| || c[i] == DOUBLE {
    } else if c[i] == BACKSLASH {
      if i + 1 < |c| {
        CodeStringIsShorter(c, i + 2, sub);
        CodeStringStep(c, i);
      }
    } else {
      CodeStringIsShorter(c, i + 1, sub);
      CodeStringStep(c, i);
    }
  }

  /** A string without substitutions that closes is read as the standard reads it if and only if every
      byte it escapes is one of the four. */
  lemma {:induction false} StringIsPosix(c: seq<byte>, i: nat, sub: Substitutions)
    requires i <= |c| && StringIsPlain(c, i) && PosixString(c, i, sub).Some?
    ensures CodeString(c, i) == PosixString(c, i, sub) <==> StringComplies(c, i, sub)
    decreases |c| - i
  {
    if StringComplies(c, i, sub) {
      CompliantStringIsPosix(c, i, sub);
    } else if c[i] == BACKSLASH {
      StringIsPosix(c, i + 2, sub);
      CodeStringIsShorter(c, i + 2, sub);
      if c[i + 1] != NEWLINE {
        CodeStringStep(c, i);
        PiecesAgree([c[i + 1]], Escaped(c[i + 1]), CodeString(c, i + 2), PosixString(c, i + 2, sub));
      }
    } else {
      StringIsPosix(c, i + 1, sub);
      CodeStringIsShorter(c, i + 1, sub);
      CodeStringStep(c, i);
      PiecesAgree([c[i]], [c[i]], CodeString(c, i + 1), PosixString(c, i + 1, sub));
    }
  }

  /** One piece in front of the rest of a word: the whole is equal exactly when the pieces and the
      rests are, as long as the code's are never the longer ones. */
  lemma PiecesAgree(mine: seq<byte>, posix: seq<byte>, rest: Option<Removed>, posixRest: Option<Removed>)
    requires |mine| <= |posix| && posixRest.Some?
    requires rest.Some? ==> |rest.value.text| <= |posixRest.value.text|
    ensures Before(mine, rest) == Before(posix, posixRest) <==> mine == posix && rest == posixRest
  {
    if rest.Some? && Before(mine, rest) == Before(posix, posixRest) {
      var whole := mine + rest.value.text;
      assert whole == posix + posixRest.value.text;
      assert |mine| == |posix|;
      assert mine == whole[..|mine|] == posix;
      assert rest.value.text == whole[|mine|..] == posixRest.value.text;
    }
  }

  // --------------------------------------------------------------------- the word

  /** The rest of a word by section 2.2, from a byte of it. */
  ghost function PosixWord(c: seq<byte>, i: nat, sub: Substitutions): (w: Option<Removed>)
    requires i <= |c|
    decreases |c| - i
  {
    if i == |c| || EndsWord(c[i]) then Some(Removed(i, []))
    else if c[i] == SINGLE then
      var j := SingleEnd(c, i + 1);
      if j == |c| then None else Before(c[i + 1..j], PosixWord(c, j + 1, sub))
    else if c[i] == DOUBLE then
      var s := PosixString(c, i + 1, sub);
      if s.None? then None else Before(s.value.text, PosixWord(c, s.value.end + 1, sub))
    else if c[i] == BACKSLASH then
      if i + 1 == |c| then None
      else Before(if c[i + 1] == NEWLINE then [] else [c[i + 1]], PosixWord(c, i + 2, sub))
    else if Introduces(c, i) then
      var s := Substituted(sub, c, i);
      if s.None? then None else Before(s.value.text, PosixWord(c, s.value.end, sub))
    else Before([c[i]], PosixWord(c, i + 1, sub))
  }

  /** What the code makes of it, without how its bytes are labelled. */
  ghost function CodeWord(c: seq<byte>, i: nat): (w: Option<Removed>)
    requires i <= |c|
  {
    var w := WordFrom(c, i);
    if w.None? then None else Some(Removed(w.value.end, w.value.text))
  }

  /** No substitution begins in the word, in double quotes or outside any. */
  ghost predicate IsPlain(c: seq<byte>, i: nat)
    requires i <= |c|
    decreases |c| - i
  {
    if i == |c| || EndsWord(c[i]) then true
    else if c[i] == SINGLE then
      var j := SingleEnd(c, i + 1);
      j < |c| ==> IsPlain(c, j + 1)
    else if c[i] == DOUBLE then
      var j := DoubleEnd(c, i + 1);
      StringIsPlain(c, i + 1) && (j < |c| ==> IsPlain(c, j + 1))
    else if c[i] == BACKSLASH && i + 1 < |c| then IsPlain(c, i + 2)
    else !Introduces(c, i) && IsPlain(c, i + 1)
  }

  predicate IsWordByte(b: byte) {
    !EndsWord(b) && b != SINGLE && b != DOUBLE && b != BACKSLASH
  }

  /** Its strings comply, no backslash outside quotes escapes a line break, and every substitution
      outside quotes stays as it is and holds nothing that ends a word or quotes. */
  ghost predicate Complies(c: seq<byte>, i: nat, sub: Substitutions)
    requires i <= |c|
    decreases |c| - i
  {
    if i == |c| || EndsWord(c[i]) then true
    else if c[i] == SINGLE then
      var j := SingleEnd(c, i + 1);
      j < |c| ==> Complies(c, j + 1, sub)
    else if c[i] == DOUBLE then
      var j := DoubleEnd(c, i + 1);
      StringComplies(c, i + 1, sub) && (j < |c| ==> Complies(c, j + 1, sub))
    else if c[i] == BACKSLASH && i + 1 < |c| then c[i + 1] != NEWLINE && Complies(c, i + 2, sub)
    else if Introduces(c, i) then
      var s := Substituted(sub, c, i);
      && s.Some? && s.value.text == c[i..s.value.end]
      && (forall k :: i <= k < s.value.end ==> IsWordByte(c[k]))
      && Complies(c, s.value.end, sub)
    else Complies(c, i + 1, sub)
  }

  /** A step of a word, for what the code makes of it. */
  lemma CodeWordStep(c: seq<byte>, i: nat)
    requires i < |c| && !EndsWord(c[i])
    ensures c[i] == SINGLE ==> var j := SingleEnd(c, i + 1);
      CodeWord(c, i) == if j == |c| then None else Before(c[i + 1..j], CodeWord(c, j + 1))
    ensures c[i] == DOUBLE ==> var s := CodeString(c, i + 1);
      && (s.Some? ==> s.value.end < |c|)
      && CodeWord(c, i) == if s.None? then None else Before(s.value.text, CodeWord(c, s.value.end + 1))
    ensures c[i] == BACKSLASH ==>
      CodeWord(c, i) == if i + 1 == |c| || c[i + 1] == NEWLINE then None else Before([c[i + 1]], CodeWord(c, i + 2))
    ensures IsWordByte(c[i]) ==> CodeWord(c, i) == Before([c[i]], CodeWord(c, i + 1))
  {
    if c[i] == DOUBLE && DoubleText(c, i + 1).Some? {
      DoubleTextCloses(c, i + 1);
    }
  }

  lemma {:induction false} CodeReadsBytes(c: seq<byte>, i: nat, e: nat)
    requires i <= e <= |c| && forall k :: i <= k < e ==> IsWordByte(c[k])
    ensures CodeWord(c, i) == Before(c[i..e], CodeWord(c, e))
    decreases e - i
  {
    if i == e {
      if CodeWord(c, e).Some? {
        assert c[i..e] + CodeWord(c, e).value.text == CodeWord(c, e).value.text;
      }
    } else {
      CodeWordStep(c, i);
      CodeReadsBytes(c, i + 1, e);
      assert c[i..e] == [c[i]] + c[i + 1..e];
      if CodeWord(c, e).Some? {
        var rest := CodeWord(c, e).value.text;
        assert [c[i]] + (c[i + 1..e] + rest) == c[i..e] + rest;
      }
    }
  }

  /** A word that complies is the one the standard reads: the same text, the same end, or refused by
      both. */
  lemma {:induction false} CompliantWordIsPosix(c: seq<byte>, i: nat, sub: Substitutions)
    requires i <= |c| && Complies(c, i, sub)
    ensures CodeWord(c, i) == PosixWord(c, i, sub)
    decreases |c| - i
  {
    hide WordFrom, CodeWord, DoubleText, StringComplies;
    if i == |c| || EndsWord(c[i]) {
      CodeWordEnds(c, i);
    } else {
      CodeWordStep(c, i);
      if c[i] == SINGLE {
        var j := SingleEnd(c, i + 1);
        if j < |c| {
          CompliantWordIsPosix(c, j + 1, sub);
        }
      } else if c[i] == DOUBLE {
        CompliantStringIsPosix(c, i + 1, sub);
        if CodeString(c, i + 1).Some? {
          CompliantWordIsPosix(c, DoubleEnd(c, i + 1) + 1, sub);
        }
      } else if c[i] == BACKSLASH {
        if i + 1 < |c| {
          CompliantWordIsPosix(c, i + 2, sub);
        }
      } else if Introduces(c, i) {
        var e := Substituted(sub, c, i).value.end;
        CompliantWordIsPosix(c, e, sub);
        CodeReadsBytes(c, i, e);
      } else {
        CompliantWordIsPosix(c, i + 1, sub);
      }
    }
  }

  lemma CodeWordEnds(c: seq<byte>, i: nat)
    requires i <= |c| && (i == |c| || EndsWord(c[i]))
    ensures CodeWord(c, i) == Some(Removed(i, []))
  {
  }

  /** Without a substitution a word the code accepts is one by the standard too, ends where it does,
      and is never longer. */
  lemma {:induction false} CodeWordIsShorter(c: seq<byte>, i: nat, sub: Substitutions)
    requires i <= |c| && IsPlain(c, i)
    ensures CodeWord(c, i).Some? ==>
      && PosixWord(c, i, sub).Some? && CodeWord(c, i).value.end == PosixWord(c, i, sub).value.end
      && |CodeWord(c, i).value.text| <= |PosixWord(c, i, sub).value.text|
    decreases |c| - i
  {
    hide WordFrom, CodeWord, DoubleText, StringIsPlain, PosixString;
    if i == |c| || EndsWord(c[i]) {
      CodeWordEnds(c, i);
    } else {
      CodeWordStep(c, i);
      if c[i] == SINGLE {
        var j := SingleEnd(c, i + 1);
        if j < |c| {
          CodeWordIsShorter(c, j + 1, sub);
        }
      } else if c[i] == DOUBLE {
        CodeStringIsShorter(c, i + 1, sub);
        if CodeString(c, i + 1).Some? {
          CodeWordIsShorter(c, DoubleEnd(c, i + 1) + 1, sub);
        }
      } else if c[i] == BACKSLASH {
        if i + 1 < |c| {
          CodeWordIsShorter(c, i + 2, sub);
        }
      } else {
        CodeWordIsShorter(c, i + 1, sub);
      }
    }
  }

  /** A word without substitutions has the text and end the standard gives it if and only if every
      backslash between double quotes escapes one of the four bytes and none outside quotes a line
      break. */
  lemma {:induction false} WordIsPosix(c: seq<byte>, i: nat, sub: Substitutions)
    requires i <= |c| && IsPlain(c, i) && PosixWord(c, i, sub).Some?
    ensures CodeWord(c, i) == PosixWord(c, i, sub) <==> Complies(c, i, sub)
    decreases |c| - i, 1
  {
    hide WordFrom, CodeWord, DoubleText, StringComplies, StringIsPlain, PosixString;
    if Complies(c, i, sub) {
      CompliantWordIsPosix(c, i, sub);
    } else {
      CodeWordStep(c, i);
      if c[i] == SINGLE {
        var j := SingleEnd(c, i + 1);
        WordIsPosix(c, j + 1, sub);
        CodeWordIsShorter(c, j + 1, sub);
        PiecesAgree(c[i + 1..j], c[i + 1..j], CodeWord(c, j + 1), PosixWord(c, j + 1, sub));
      } else if c[i] == DOUBLE {
        StringDeparts(c, i, sub);
      } else if c[i] == BACKSLASH {
        if c[i + 1] != NEWLINE {
          WordIsPosix(c, i + 2, sub);
          CodeWordIsShorter(c, i + 2, sub);
          PiecesAgree([c[i + 1]], [c[i + 1]], CodeWord(c, i + 2), PosixWord(c, i + 2, sub));
        }
      } else {
        WordIsPosix(c, i + 1, sub);
        CodeWordIsShorter(c, i + 1, sub);
        PiecesAgree([c[i]], [c[i]], CodeWord(c, i + 1), PosixWord(c, i + 1, sub));
      }
    }
  }

  lemma {:induction false} StringDeparts(c: seq<byte>, i: nat, sub: Substitutions)
    requires i < |c| && c[i] == DOUBLE && IsPlain(c, i) && PosixWord(c, i, sub).Some? && !Complies(c, i, sub)
    ensures CodeWord(c, i) != PosixWord(c, i, sub)
    decreases |c| - i, 0
  {
    hide WordFrom, CodeWord, DoubleText, StringComplies, StringIsPlain, PosixString, DoubleEnd;
    CodeWordStep(c, i);
    StringIsPosix(c, i + 1, sub);
    CodeStringIsShorter(c, i + 1, sub);
    var mine, posix := CodeString(c, i + 1), PosixString(c, i + 1, sub);
    var j := posix.value.end;
    WordIsPosix(c, j + 1, sub);
    CodeWordIsShorter(c, j + 1, sub);
    if mine.Some? {
      PiecesAgree(mine.value.text, posix.value.text, CodeWord(c, j + 1), PosixWord(c, j + 1, sub));
    }
  }

  // ------------------------------------------------------------------- the opening

  /** The delimiter the standard reads where a word would begin: none where nothing or a comment
      does. */
  ghost function PosixDelimiter(c: seq<byte>, i: nat, sub: Substitutions): Option<Removed>
    requires i <= |c|
  {
    if i == |c| || EndsWord(c[i]) || c[i] == HASH then None else PosixWord(c, i, sub)
  }

  /** An opener the code recognises has the standard's delimiter and end if its word complies and does
      not begin with a #, and without substitutions only if. */
  lemma OpeningIsPosix(c: seq<byte>, offset: nat, sub: Substitutions)
    requires offset < |c| && c[offset] == LESS && OpeningAt(c, offset).Some?
    ensures var i, o := WordStart(c, offset), OpeningAt(c, offset).value;
      var same := PosixDelimiter(c, i, sub) == Some(Removed(o.end, o.heredoc.delimiter));
      && i < |c|
      && (Complies(c, i, sub) && c[i] != HASH ==> same)
      && (IsPlain(c, i) ==> (same <==> Complies(c, i, sub) && c[i] != HASH))
  {
    var i := WordStart(c, offset);
    assert CodeWord(c, i) == Some(Removed(OpeningAt(c, offset).value.end, OpeningAt(c, offset).value.heredoc.delimiter));
    if Complies(c, i, sub) {
      CompliantWordIsPosix(c, i, sub);
    }
    if IsPlain(c, i) {
      CodeWordIsShorter(c, i, sub);
      WordIsPosix(c, i, sub);
    }
  }

  // -------------------------------------------------------------- where it departs

  /** The text `<<"a\b"`: the code waits for the line `ab`, a shell for the line `a\b`. */
  lemma KeptBackslash(sub: Substitutions)
    ensures var c: seq<byte> := [LESS, LESS, DOUBLE, 97, BACKSLASH, 98, DOUBLE];
      && OpeningAt(c, 0).Some? && OpeningAt(c, 0).value.heredoc.delimiter == [97, 98]
      && PosixDelimiter(c, 2, sub) == Some(Removed(7, [97, BACKSLASH, 98]))
  {
    var c: seq<byte> := [LESS, LESS, DOUBLE, 97, BACKSLASH, 98, DOUBLE];
    var a: byte, b: byte := 97, 98;
    assert [b] + [] == [b] && [a] + [b] == [a, b];
    assert DoubleText(c, 6) == Some([]);
    assert DoubleText(c, 4) == Some([b]);
    assert DoubleText(c, 3) == Some([a, b]);
    assert [BACKSLASH, b] + [] == [BACKSLASH, b] && [a] + [BACKSLASH, b] == [a, BACKSLASH, b];
    assert PosixString(c, 6, sub) == Some(Removed(6, []));
    assert PosixString(c, 4, sub) == Some(Removed(6, [BACKSLASH, b]));
    assert PosixString(c, 3, sub) == Some(Removed(6, [a, BACKSLASH, b]));
    assert DoubleEnd(c, 6) == 6 && DoubleEnd(c, 4) == 6 && DoubleEnd(c, 3) == 6;
    assert [a, b] + [] == [a, b] && [a, BACKSLASH, b] + [] == [a, BACKSLASH, b];
    assert WordFrom(c, 7) == Some(Word(7, [], [])) && PosixWord(c, 7, sub) == Some(Removed(7, []));
    assert WordStart(c, 0) == 2;
    assert WordFrom(c, 2).Some? && WordFrom(c, 2).value.text == [a, b];
  }

  /** The text `<<#E`: the code opens a body that ends at the line `#E`, and a shell reads a comment
      where the delimiter is missing. */
  lemma CommentIsTaken(sub: Substitutions)
    ensures var c: seq<byte> := [LESS, LESS, HASH, 69];
      && OpeningAt(c, 0).Some? && OpeningAt(c, 0).value.heredoc.delimiter == [HASH, 69]
      && Complies(c, 2, sub) && PosixDelimiter(c, 2, sub) == None
  {
    var c: seq<byte> := [LESS, LESS, HASH, 69];
    var e: byte := 69;
    assert [e] + [] == [e] && [HASH] + [e] == [HASH, e];
    assert WordFrom(c, 4) == Some(Word(4, [], []));
    assert WordFrom(c, 3).Some? && WordFrom(c, 3).value.text == [e];
    assert WordFrom(c, 2).Some? && WordFrom(c, 2).value.text == [HASH, e];
    assert WordStart(c, 0) == 2;
    assert Complies(c, 4, sub) && Complies(c, 3, sub);
  }

  /** The text `<<"$("b ")"`: a shell that reads the substitution to its parenthesis takes the whole
      for one word, and the code ends the word at the blank inside it. */
  lemma SubstitutionIsCut(sub: Substitutions)
    ensures var c: seq<byte> := [LESS, LESS, DOUBLE, DOLLAR, OPEN, DOUBLE, 98, SPACE, DOUBLE, CLOSE, DOUBLE];
      sub(c, 3) == Some(Removed(10, c[3..10])) ==>
        && PosixDelimiter(c, 2, sub) == Some(Removed(11, c[3..10]))
        && CodeWord(c, 2) == Some(Removed(7, [DOLLAR, OPEN, 98]))
  {
    var c: seq<byte> := [LESS, LESS, DOUBLE, DOLLAR, OPEN, DOUBLE, 98, SPACE, DOUBLE, CLOSE, DOUBLE];
    var b: byte := 98;
    if sub(c, 3) == Some(Removed(10, c[3..10])) {
      assert PosixString(c, 10, sub) == Some(Removed(10, []));
      assert c[3..10] + [] == c[3..10];
      assert PosixString(c, 3, sub) == Some(Removed(10, c[3..10]));
      assert PosixWord(c, 11, sub) == Some(Removed(11, []));
    }
    assert [OPEN] + [] == [OPEN] && [DOLLAR] + [OPEN] == [DOLLAR, OPEN];
    assert DoubleText(c, 5) == Some([]) && DoubleEnd(c, 5) == 5;
    assert DoubleText(c, 4) == Some([OPEN]) && DoubleEnd(c, 4) == 5;
    assert DoubleText(c, 3) == Some([DOLLAR, OPEN]) && DoubleEnd(c, 3) == 5;
    assert WordFrom(c, 7) == Some(Word(7, [], []));
    assert [b] + [] == [b] && [DOLLAR, OPEN] + [b] == [DOLLAR, OPEN, b];
    assert WordFrom(c, 6).Some? && WordFrom(c, 6).value.text == [b] && WordFrom(c, 6).value.end == 7;
    assert WordFrom(c, 2).Some? && WordFrom(c, 2).value.text == [DOLLAR, OPEN, b];
  }
}
