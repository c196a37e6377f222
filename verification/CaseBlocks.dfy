/** The audited case statements of hack/verify-kubernetes-support.go: the blocks between a case and
its esac, matched with a stack, and held one to one to the contracts that were audited.

A line comes classified as the start of a case, an esac, or neither, and the Kubernetes minors a
block names are given by a function of its lines.
 */
module CaseBlocks {
  import opened Results
  import opened E2ESuites

  datatype Kind = Case | Esac | Other

  datatype Line = Line(text: string, kind: Kind)

  datatype Problem = UnmatchedEsac | UnterminatedCase | InvalidContract | WrongCount | Differs | PrivateWindow

  type Block = seq<string>

  // ------------------------------------------------------------------- nesting

  function Step(l: Line): int {
    match l.kind
    case Case => 1
    case Esac => -1
    case Other => 0
  }

  /** How many more cases begin than end in the lines from i to j. */
  function Depth(lines: seq<Line>, i: nat, j: nat): int
    requires i <= j <= |lines|
  {
    if i == j then 0 else Depth(lines, i, j - 1) + Step(lines[j - 1])
  }

  /** The lines from i to j close every case they open and no other. */
  ghost predicate Balanced(lines: seq<Line>, i: nat, j: nat)
    requires i <= j <= |lines|
  {
    Depth(lines, i, j) == 0 && forall k :: i <= k <= j ==> 0 <= Depth(lines, i, k)
  }

  ghost predicate Nests(lines: seq<Line>) {
    Balanced(lines, 0, |lines|)
  }

  /** Somewhere more cases have ended than began. */
  ghost predicate Overcloses(lines: seq<Line>) {
    exists k: nat :: k <= |lines| && Depth(lines, 0, k) < 0
  }

  /** The case at i ends at the esac at j. */
  ghost predicate Matched(lines: seq<Line>, i: nat, j: nat) {
    i < j < |lines| && lines[i].kind == Case && lines[j].kind == Esac && Balanced(lines, i + 1, j)
  }

  lemma {:induction false} DepthAdds(lines: seq<Line>, i: nat, j: nat, k: nat)
    requires i <= j <= k <= |lines|
    ensures Depth(lines, i, k) == Depth(lines, i, j) + Depth(lines, j, k)
    decreases k
  {
    if j == k {
    } else {
      DepthAdds(lines, i, j, k - 1);
    }
  }

  /** An esac ends one case. */
  lemma MatchedOnce(lines: seq<Line>, i: nat, i': nat, j: nat)
    requires Matched(lines, i, j) && Matched(lines, i', j)
    ensures i == i'
  {
    if i < i' {
      InnerFirst(lines, i, i', j);
    } else if i' < i {
      InnerFirst(lines, i', i, j);
    }
  }

  /** An earlier case does not end where a later one does. */
  lemma InnerFirst(lines: seq<Line>, i: nat, i': nat, j: nat)
    requires i < i' && Matched(lines, i', j)
    ensures !Balanced(lines, i + 1, j)
  {
    DepthAdds(lines, i + 1, i', j);
    DepthAdds(lines, i', i' + 1, j);
    assert Depth(lines, i', i') == 0;
  }

  function Texts(lines: seq<Line>, i: nat, j: nat): (b: Block)
    requires i <= j <= |lines|
    ensures |b| == j - i
  {
    seq(j - i, k requires 0 <= k < j - i => lines[i + k].text)
  }

  ghost predicate AllMatched(lines: seq<Line>, n: nat) {
    n <= |lines| && forall j: nat :: j < n && lines[j].kind == Esac ==> exists i: nat :: Matched(lines, i, j)
  }

  /** The blocks that end before n, in the order they end, of those that name three minors or more. */
  ghost function Blocks(lines: seq<Line>, n: nat, minors: Block -> set<string>): seq<Block>
    requires AllMatched(lines, n)
  {
    if n == 0 then []
    else if lines[n - 1].kind != Esac then Blocks(lines, n - 1, minors)
    else
      var i: nat :| Matched(lines, i, n - 1);
      var block := Texts(lines, i, n);
      Blocks(lines, n - 1, minors) + if 3 <= |minors(block)| then [block] else []
  }

  // ------------------------------------------------------------------- the stack

  /** The frames on the stack at line n: each holds the lines since its case began, and between
      one frame's case and the next one's nothing is left open. */
  ghost predicate AreOpen(lines: seq<Line>, n: nat, opens: seq<nat>) {
    && n <= |lines|
    && (forall k :: 0 <= k < |opens| ==> opens[k] < n && lines[opens[k]].kind == Case)
    && (forall k :: 0 <= k < |opens| ==> Closed(lines, n, opens, k))
    && (opens == [] ==> Balanced(lines, 0, n))
    && (opens != [] ==> Balanced(lines, 0, opens[0]))
  }

  /** Between the case of frame k and that of the next frame, or line n, every case ends. */
  ghost predicate Closed(lines: seq<Line>, n: nat, opens: seq<nat>, k: nat)
    requires k < |opens| && n <= |lines|
  {
    var to := if k + 1 < |opens| then opens[k + 1] else n;
    opens[k] < to <= |lines| && Balanced(lines, opens[k] + 1, to)
  }

  lemma BalancedNext(lines: seq<Line>, i: nat, j: nat)
    requires i <= j < |lines| && lines[j].kind == Other && Balanced(lines, i, j)
    ensures Balanced(lines, i, j + 1)
  {
  }

  lemma BalancedPair(lines: seq<Line>, i: nat, m: nat, j: nat)
    requires i <= m < j < |lines| && Balanced(lines, i, m) && Matched(lines, m, j)
    ensures Balanced(lines, i, j + 1)
  {
    assert Depth(lines, m, m + 1) == 1 by { assert Depth(lines, m, m) == 0; }
    forall k | i <= k <= j + 1 ensures 0 <= Depth(lines, i, k) {
      if m < k <= j {
        DepthAdds(lines, i, m, k);
        DepthAdds(lines, m, m + 1, k);
      } else if k == j + 1 {
        DepthAdds(lines, i, m, j);
        DepthAdds(lines, m, m + 1, j);
      }
    }
    DepthAdds(lines, i, m, j);
    DepthAdds(lines, m, m + 1, j);
  }

  lemma OpenOther(lines: seq<Line>, n: nat, opens: seq<nat>)
    requires AreOpen(lines, n, opens) && n < |lines| && lines[n].kind == Other
    ensures AreOpen(lines, n + 1, opens)
  {
    if opens == [] {
      BalancedNext(lines, 0, n);
    } else {
      var next := n + 1;
      forall k | 0 <= k < |opens| ensures Closed(lines, next, opens, k) {
        assert Closed(lines, n, opens, k);
        if k + 1 == |opens| {
          BalancedNext(lines, opens[k] + 1, n);
        }
      }
    }
  }

  lemma OpenCase(lines: seq<Line>, n: nat, opens: seq<nat>)
    requires AreOpen(lines, n, opens) && n < |lines| && lines[n].kind == Case
    ensures AreOpen(lines, n + 1, opens + [n])
  {
    var pushed, next := opens + [n], n + 1;
    forall k | 0 <= k < |pushed| ensures Closed(lines, next, pushed, k) {
      if k < |opens| {
        assert Closed(lines, n, opens, k);
      }
    }
  }

  lemma OpenEsac(lines: seq<Line>, n: nat, opens: seq<nat>)
    requires AreOpen(lines, n, opens) && n < |lines| && lines[n].kind == Esac && opens != []
    ensures Matched(lines, opens[|opens| - 1], n)
    ensures AreOpen(lines, n + 1, opens[..|opens| - 1])
  {
    var last := |opens| - 1;
    var popped := opens[..last];
    assert Closed(lines, n, opens, last);
    if last == 0 {
      BalancedPair(lines, 0, opens[0], n);
    } else {
      var next := n + 1;
      forall k | 0 <= k < |popped| ensures Closed(lines, next, popped, k) {
        assert Closed(lines, n, opens, k);
        if k + 1 == last {
          BalancedPair(lines, opens[k] + 1, opens[last], n);
        }
      }
    }
  }

  /** An esac with nothing open ends more cases than began, and stays so however the lines go on. */
  lemma TooManyEsacs(lines: seq<Line>, n: nat)
    requires AreOpen(lines, n, []) && n < |lines| && lines[n].kind == Esac
    ensures !Nests(lines) && Overcloses(lines)
  {
    assert Depth(lines, 0, n + 1) == -1;
  }

  lemma {:induction false} OpenDepth(lines: seq<Line>, n: nat, opens: seq<nat>, k: nat)
    requires AreOpen(lines, n, opens) && k < |opens|
    ensures opens[k] <= |lines| && Depth(lines, 0, opens[k]) == k
  {
    if k == 0 {
    } else {
      OpenDepth(lines, n, opens, k - 1);
      assert Closed(lines, n, opens, k - 1);
      DepthAdds(lines, 0, opens[k - 1], opens[k]);
      DepthAdds(lines, opens[k - 1], opens[k - 1] + 1, opens[k]);
      assert Depth(lines, opens[k - 1], opens[k - 1]) == 0;
    }
  }

  /** A case still open at the end began and never ended. */
  lemma TooManyCases(lines: seq<Line>, opens: seq<nat>)
    requires AreOpen(lines, |lines|, opens) && opens != []
    ensures !Nests(lines) && 0 < Depth(lines, 0, |lines|)
  {
    var last := |opens| - 1;
    OpenDepth(lines, |lines|, opens, last);
    assert Closed(lines, |lines|, opens, last);
    DepthAdds(lines, 0, opens[last], |lines|);
    DepthAdds(lines, opens[last], opens[last] + 1, |lines|);
    assert Depth(lines, opens[last], opens[last]) == 0;
  }

  lemma {:induction false} OpenIsPositive(lines: seq<Line>, n: nat, opens: seq<nat>, k: nat)
    requires AreOpen(lines, n, opens) && k <= n
    ensures 0 <= Depth(lines, 0, k)
  {
    if opens == [] {
      assert Balanced(lines, 0, n);
    } else if k <= opens[0] {
      assert Balanced(lines, 0, opens[0]);
    } else {
      var j := LastOpenBefore(lines, n, opens, k, |opens|);
      OpenDepth(lines, n, opens, j);
      assert Closed(lines, n, opens, j);
      DepthAdds(lines, 0, opens[j], k);
      DepthAdds(lines, opens[j], opens[j] + 1, k);
      assert Depth(lines, opens[j], opens[j]) == 0;
    }
  }

  lemma {:induction false} LastOpenBefore(lines: seq<Line>, n: nat, opens: seq<nat>, k: nat, m: nat) returns (j: nat)
    requires AreOpen(lines, n, opens) && opens != [] && opens[0] < k <= n && 0 < m <= |opens|
    requires m < |opens| ==> k <= opens[m]
    ensures j < |opens| && opens[j] < k && (j + 1 < |opens| ==> k <= opens[j + 1])
  {
    if opens[m - 1] < k {
      j := m - 1;
    } else {
      j := LastOpenBefore(lines, n, opens, k, m - 1);
    }
  }

  /** As long as the parser goes on, no prefix has ended more cases than it began. */
  lemma NeverOvercloses(lines: seq<Line>, opens: seq<nat>)
    requires AreOpen(lines, |lines|, opens)
    ensures !Overcloses(lines)
  {
    forall k: nat | k <= |lines| ensures 0 <= Depth(lines, 0, k) {
      OpenIsPositive(lines, |lines|, opens, k);
    }
  }

  /** Lines nest exactly when no prefix ends too many cases and the whole ends as many as it began. */
  lemma NestsExactly(lines: seq<Line>)
    ensures Nests(lines) <==> !Overcloses(lines) && Depth(lines, 0, |lines|) == 0
  {
  }

  // ------------------------------------------------------------------ the parser

  /** Each frame holds the lines since its case. */
  ghost predicate Frames(lines: seq<Line>, n: nat, opens: seq<nat>, frames: seq<Block>) {
    && n <= |lines| && |frames| == |opens|
    && forall k :: 0 <= k < |frames| ==> opens[k] <= n && frames[k] == Texts(lines, opens[k], n)
  }

  method AppendToAll(frames: seq<Block>, text: string) returns (longer: seq<Block>)
    ensures |longer| == |frames| && forall k :: 0 <= k < |frames| ==> longer[k] == frames[k] + [text]
  {
    longer := [];
    for index := 0 to |frames|
      invariant |longer| == index && forall k :: 0 <= k < index ==> longer[k] == frames[k] + [text]
    {
      longer := longer + [frames[index] + [text]];
    }
  }

  lemma FramesGrow(lines: seq<Line>, n: nat, opens: seq<nat>, frames: seq<Block>, longer: seq<Block>)
    requires Frames(lines, n, opens, frames) && n < |lines| && |longer| == |frames|
    requires forall k :: 0 <= k < |frames| ==> longer[k] == frames[k] + [lines[n].text]
    ensures Frames(lines, n + 1, opens, longer)
  {
  }

  lemma MatchedIsAll(lines: seq<Line>, n: nat, minors: Block -> set<string>)
    requires AllMatched(lines, n) && n < |lines| && lines[n].kind != Esac
    ensures AllMatched(lines, n + 1) && Blocks(lines, n + 1, minors) == Blocks(lines, n, minors)
  {
  }

  lemma MatchedNext(lines: seq<Line>, n: nat, minors: Block -> set<string>, i: nat)
    requires AllMatched(lines, n) && Matched(lines, i, n)
    ensures AllMatched(lines, n + 1)
    ensures var block := Texts(lines, i, n + 1);
      Blocks(lines, n + 1, minors) == Blocks(lines, n, minors) + if 3 <= |minors(block)| then [block] else []
  {
    forall i': nat | Matched(lines, i', n) ensures i' == i {
      MatchedOnce(lines, i, i', n);
    }
  }

  /** What each refusal says of the lines. */
  ghost predicate DoesNotNest(lines: seq<Line>, problem: Problem) {
    || (problem == UnmatchedEsac && Overcloses(lines))
    || (problem == UnterminatedCase && 0 < Depth(lines, 0, |lines|))
  }

  method ParseKubernetesMinorCaseBlocks(lines: seq<Line>, minors: Block -> set<string>) returns (r: Result<seq<Block>, Problem>)
    ensures r.Success? <==> Nests(lines)
    ensures r.Failure? ==> DoesNotNest(lines, r.error)
    ensures r == Failure(UnmatchedEsac) <==> Overcloses(lines)
    ensures r.Success? ==> AllMatched(lines, |lines|) && r.value == Blocks(lines, |lines|, minors)
  {
    hide AreOpen, Nests, AllMatched, Blocks, Matched, Overcloses, Depth;
    var frames: seq<Block> := [];
    ghost var opens: seq<nat> := [];
    var blocks: seq<Block> := [];
    NothingOpen(lines, minors);
    for n := 0 to |lines|
      invariant AreOpen(lines, n, opens) && Frames(lines, n, opens, frames)
      invariant AllMatched(lines, n) && blocks == Blocks(lines, n, minors)
    {
      var longer := AppendToAll(frames, lines[n].text);
      FramesGrow(lines, n, opens, frames, longer);
      frames := longer;
      if lines[n].kind == Case {
        OpenCase(lines, n, opens);
        frames, opens := frames + [[lines[n].text]], opens + [n];
        assert Texts(lines, n, n + 1) == [lines[n].text];
      }
      if lines[n].kind != Esac {
        MatchedIsAll(lines, n, minors);
        if lines[n].kind == Other {
          OpenOther(lines, n, opens);
        }
        continue;
      }
      if |frames| == 0 {
        TooManyEsacs(lines, n);
        return Failure(UnmatchedEsac);
      }
      OpenEsac(lines, n, opens);
      MatchedNext(lines, n, minors, opens[|opens| - 1]);
      var block := frames[|frames| - 1];
      frames, opens := frames[..|frames| - 1], opens[..|opens| - 1];
      if 3 <= |minors(block)| {
        blocks := blocks + [block];
      }
    }
    NeverOvercloses(lines, opens);
    if |frames| != 0 {
      TooManyCases(lines, opens);
      return Failure(UnterminatedCase);
    }
    AllClosed(lines);
    r := Success(blocks);
  }

  lemma NothingOpen(lines: seq<Line>, minors: Block -> set<string>)
    ensures AreOpen(lines, 0, []) && AllMatched(lines, 0) && Blocks(lines, 0, minors) == []
  {
  }

  lemma AllClosed(lines: seq<Line>)
    requires AreOpen(lines, |lines|, [])
    ensures Nests(lines)
  {
  }

  /** The blocks are those of the matched cases that name three minors or more, and nothing else. */
  lemma {:induction false} BlocksAreMatched(lines: seq<Line>, n: nat, minors: Block -> set<string>, block: Block)
    requires AllMatched(lines, n)
    ensures block in Blocks(lines, n, minors) <==>
      exists i: nat, j: nat :: j < n && Matched(lines, i, j) && block == Texts(lines, i, j + 1) && 2 < |minors(block)|
  {
    hide Matched, Texts;
    if n == 0 {
    } else {
      var last := n - 1;
      BlocksAreMatched(lines, last, minors, block);
      MatchedIsEsac(lines);
      if lines[last].kind == Esac {
        var i: nat :| Matched(lines, i, last);
        MatchedNext(lines, last, minors, i);
        forall i': nat | Matched(lines, i', last) ensures i' == i {
          MatchedOnce(lines, i, i', last);
        }
      }
    }
  }

  lemma MatchedIsEsac(lines: seq<Line>)
    ensures forall i: nat, j: nat :: Matched(lines, i, j) ==> i < j < |lines| && lines[j].kind == Esac
  {
  }

  // ------------------------------------------------------------- held to contracts

  function TrimLeft(s: string): string {
    if s != [] && IsSpace(s[0]) then TrimLeft(s[1..]) else s
  }

  function TrimRight(s: string): string {
    if s != [] && IsSpace(s[|s| - 1]) then TrimRight(s[..|s| - 1]) else s
  }

  function TrimSpace(s: string): string { TrimRight(TrimLeft(s)) }

  /** What is left of a text between the blank space at its ends. */
  ghost predicate IsTrimmed(s: string, i: nat, j: nat) {
    && i <= j <= |s|
    && (forall k :: 0 <= k < i || j <= k < |s| ==> IsSpace(s[k]))
    && (i < j ==> !IsSpace(s[i]) && !IsSpace(s[j - 1]))
  }

  lemma {:induction false} TrimLeftTo(s: string) returns (i: nat)
    ensures i <= |s| && TrimLeft(s) == s[i..] && (forall k :: 0 <= k < i ==> IsSpace(s[k]))
    ensures i < |s| ==> !IsSpace(s[i])
  {
    if s == [] || !IsSpace(s[0]) {
      i := 0;
    } else {
      var rest := TrimLeftTo(s[1..]);
      i := rest + 1;
      assert forall k :: 0 < k < i ==> s[k] == s[1..][k - 1];
    }
  }

  lemma {:induction false} TrimRightTo(s: string) returns (j: nat)
    ensures j <= |s| && TrimRight(s) == s[..j] && (forall k :: j <= k < |s| ==> IsSpace(s[k]))
    ensures 0 < j ==> !IsSpace(s[j - 1])
  {
    if s == [] || !IsSpace(s[|s| - 1]) {
      j := |s|;
      assert s[..j] == s;
    } else {
      j := TrimRightTo(s[..|s| - 1]);
      assert s[..|s| - 1][..j] == s[..j];
    }
  }

  /** Trimming leaves the slice between the blank space at the ends, and there is only one. */
  lemma TrimSpaceIsSlice(s: string) returns (i: nat, j: nat)
    ensures IsTrimmed(s, i, j) && TrimSpace(s) == s[i..j]
    ensures forall i': nat, j': nat :: IsTrimmed(s, i', j') ==> s[i'..j'] == TrimSpace(s)
  {
    i := TrimLeftTo(s);
    var n := TrimRightTo(s[i..]);
    j := i + n;
    assert s[i..][..n] == s[i..j];
    if i < j {
      assert s[i..][n - 1] == s[j - 1];
    }
    forall k | j <= k < |s| ensures IsSpace(s[k]) {
      assert s[k] == s[i..][k - i];
    }
    forall i': nat, j': nat | IsTrimmed(s, i', j') ensures s[i'..j'] == TrimSpace(s) {
      if i < j {
        assert i' <= i && j <= j';
      }
    }
  }

  /** Nothing is left exactly of a text that says nothing. */
  lemma TrimSpaceIsEmpty(s: string)
    ensures TrimSpace(s) == "" <==> SaysNothing(s)
  {
    var i, j := TrimSpaceIsSlice(s);
    if i < j {
      assert !IsSpace(s[i]);
    }
  }

  /** The lines of a block that say something, in order. */
  ghost function Spoken(block: Block): seq<string> {
    if block == [] then []
    else if SaysNothing(block[0]) then Spoken(block[1..])
    else [block[0]] + Spoken(block[1..])
  }

  lemma {:induction false} SpokenAppend(block: Block, line: string)
    ensures Spoken(block + [line]) == Spoken(block) + if SaysNothing(line) then [] else [line]
  {
    hide SaysNothing;
    if block == [] {
      assert ([] + [line])[1..] == [];
    } else {
      assert (block + [line])[1..] == block[1..] + [line];
      SpokenAppend(block[1..], line);
    }
  }

  ghost predicate IsTrimOf(line: string, s: string) {
    exists i: nat, j: nat :: IsTrimmed(s, i, j) && line == s[i..j]
  }

  lemma TrimSpaceIsTrim(s: string)
    ensures IsTrimOf(TrimSpace(s), s)
  {
    var i, j := TrimSpaceIsSlice(s);
  }

  /** What normalising leaves: one line for each that says something, in order, without the blank
      space at its ends. */
  lemma {:induction false} NormalizedIsSpoken(block: Block)
    ensures |Normalized(block)| == |Spoken(block)|
    ensures forall k :: 0 <= k < |Spoken(block)| ==> IsTrimOf(Normalized(block)[k], Spoken(block)[k])
  {
    hide SaysNothing, TrimSpace, IsTrimOf, Spoken;
    if block == [] {
      NoneSpoken();
    } else {
      var last := |block| - 1;
      NormalizedIsSpoken(block[..last]);
      SpokenAppend(block[..last], block[last]);
      assert block == block[..last] + [block[last]];
      TrimSpaceIsEmpty(block[last]);
      TrimSpaceIsTrim(block[last]);
    }
  }

  lemma NoneSpoken()
    ensures Spoken([]) == []
  {
  }

  /** Two lines with the same text between the blank space at their ends. */
  ghost predicate AreAlike(a: string, b: string) {
    exists line :: IsTrimOf(line, a) && IsTrimOf(line, b)
  }

  lemma AlikeIsSame(x: string, y: string, a: string, b: string)
    requires IsTrimOf(x, a) && IsTrimOf(y, b)
    ensures x == y <==> AreAlike(a, b)
  {
    var i, j := TrimSpaceIsSlice(a);
    var k, l := TrimSpaceIsSlice(b);
  }

  /** Two blocks are held for the same exactly when the lines of each that say something are, one
      after another and without the blank space at their ends, the same. */
  lemma SameUpToBlanks(a: Block, b: Block)
    ensures Normalized(a) == Normalized(b) <==>
      |Spoken(a)| == |Spoken(b)| && forall k :: 0 <= k < |Spoken(a)| ==> AreAlike(Spoken(a)[k], Spoken(b)[k])
  {
    hide Normalized, Spoken, IsTrimOf, AreAlike;
    NormalizedIsSpoken(a);
    NormalizedIsSpoken(b);
    forall k | 0 <= k < |Spoken(a)| && k < |Spoken(b)|
      ensures Normalized(a)[k] == Normalized(b)[k] <==> AreAlike(Spoken(a)[k], Spoken(b)[k])
    {
      AlikeIsSame(Normalized(a)[k], Normalized(b)[k], Spoken(a)[k], Spoken(b)[k]);
    }
  }

  /** A block without its indentation and its empty lines. */
  function Normalized(block: Block): Block {
    if block == [] then []
    else
      var line := TrimSpace(block[|block| - 1]);
      Normalized(block[..|block| - 1]) + if line != "" then [line] else []
  }

  method NormalizedNonemptyLines(block: Block) returns (lines: Block)
    ensures lines == Normalized(block)
  {
    lines := [];
    for k := 0 to |block|
      invariant lines == Normalized(block[..k])
    {
      assert block[..k + 1][..k] == block[..k];
      var line := TrimSpace(block[k]);
      if line != "" {
        lines := lines + [line];
      }
    }
    assert block[..|block|] == block;
  }

  /** The expected blocks that have been matched, and those that have not. */
  ghost function Taken(expected: seq<Block>, matched: seq<bool>, want: bool): multiset<Block>
    requires |expected| == |matched|
  {
    if expected == [] then multiset{}
    else
      var last := |expected| - 1;
      Taken(expected[..last], matched[..last], want) + if matched[last] == want then multiset{expected[last]} else multiset{}
  }

  lemma {:induction false} TakenAll(expected: seq<Block>, matched: seq<bool>)
    requires |expected| == |matched|
    ensures Taken(expected, matched, true) + Taken(expected, matched, false) == multiset(expected)
  {
    if expected == [] {
    } else {
      var last := |expected| - 1;
      TakenAll(expected[..last], matched[..last]);
      assert expected == expected[..last] + [expected[last]];
    }
  }

  lemma {:induction false} TakeOne(expected: seq<Block>, matched: seq<bool>, i: nat)
    requires |expected| == |matched| && i < |matched| && !matched[i]
    ensures Taken(expected, matched[i := true], true) == Taken(expected, matched, true) + multiset{expected[i]}
  {
    var last := |expected| - 1;
    if i == last {
      assert matched[i := true][..last] == matched[..last];
    } else {
      TakeOne(expected[..last], matched[..last], i);
      assert matched[i := true][..last] == matched[..last][i := true];
    }
  }

  lemma {:induction false} NoneLeft(expected: seq<Block>, matched: seq<bool>, block: Block)
    requires |expected| == |matched|
    requires forall i :: 0 <= i < |expected| && !matched[i] ==> expected[i] != block
    ensures block !in Taken(expected, matched, false)
  {
    if expected == [] {
    } else {
      var last := |expected| - 1;
      NoneLeft(expected[..last], matched[..last], block);
    }
  }

  lemma {:induction false} NoneTaken(expected: seq<Block>, matched: seq<bool>)
    requires |expected| == |matched| && forall i :: 0 <= i < |matched| ==> !matched[i]
    ensures Taken(expected, matched, true) == multiset{}
  {
    if expected == [] {
    } else {
      var last := |expected| - 1;
      NoneTaken(expected[..last], matched[..last]);
    }
  }

  lemma OneMore(actual: seq<Block>, k: nat)
    requires k < |actual|
    ensures multiset(actual)[actual[k]] > multiset(actual[..k])[actual[k]]
  {
    assert actual == actual[..k] + [actual[k]] + actual[k + 1..];
  }

  /** A block that no contract is left for is one too many, whatever comes after it. */
  lemma {:induction false} NoContractLeft(actual: seq<Block>, expected: seq<Block>, matched: seq<bool>, k: nat)
    requires |expected| == |matched| && k < |actual|
    requires Taken(expected, matched, true) == multiset(actual[..k])
    requires forall i :: 0 <= i < |expected| && !matched[i] ==> expected[i] != actual[k]
    ensures multiset(actual) != multiset(expected)
  {
    hide Taken;
    NoneLeft(expected, matched, actual[k]);
    TakenAll(expected, matched);
    OneMore(actual, k);
  }

  lemma AllContractsMet(actual: seq<Block>, expected: seq<Block>, matched: seq<bool>)
    requires |expected| == |matched| == |actual| && Taken(expected, matched, true) == multiset(actual)
    ensures multiset(actual) == multiset(expected)
  {
    TakenAll(expected, matched);
    assert |multiset(expected)| == |expected| && |multiset(actual)| == |actual|;
    assert |Taken(expected, matched, false)| == 0;
  }

  /** Greedy matching with a flag for each contract: it succeeds exactly when the blocks are the
      contracts, each as often as it is written. */
  method MatchBlocks(actual: seq<Block>, expected: seq<Block>) returns (problem: Option<Problem>)
    ensures problem.None? <==> multiset(actual) == multiset(expected)
    ensures problem.Some? ==> problem.value == if |actual| == |expected| then Differs else WrongCount
  {
    hide Taken;
    if |actual| != |expected| {
      assert |multiset(expected)| == |expected| && |multiset(actual)| == |actual|;
      return Some(WrongCount);
    }
    var matched := seq(|expected|, _ => false);
    NoneTaken(expected, matched);
    for k := 0 to |actual|
      invariant |matched| == |expected| && Taken(expected, matched, true) == multiset(actual[..k])
    {
      var index := 0;
      while index < |expected| && (matched[index] || expected[index] != actual[k])
        invariant index <= |expected|
        invariant forall i :: 0 <= i < index && !matched[i] ==> expected[i] != actual[k]
      {
        index := index + 1;
      }
      if index == |expected| {
        NoContractLeft(actual, expected, matched, k);
        return Some(Differs);
      }
      TakeOne(expected, matched, index);
      matched := matched[index := true];
      assert actual[..k + 1] == actual[..k] + [actual[k]];
    }
    assert actual[..|actual|] == actual;
    AllContractsMet(actual, expected, matched);
    return None;
  }

  ghost predicate IsContract(source: seq<Line>, minors: Block -> set<string>) {
    Nests(source) && AllMatched(source, |source|) && |Blocks(source, |source|, minors)| == 1
  }

  ghost predicate AreContracts(sources: seq<seq<Line>>, minors: Block -> set<string>) {
    forall k :: 0 <= k < |sources| ==> IsContract(sources[k], minors)
  }

  function NormalizedAll(blocks: seq<Block>): (normalized: seq<Block>)
    ensures |normalized| == |blocks|
  {
    seq(|blocks|, k requires 0 <= k < |blocks| => Normalized(blocks[k]))
  }

  ghost function Contracts(sources: seq<seq<Line>>, minors: Block -> set<string>): (blocks: seq<Block>)
    requires AreContracts(sources, minors)
    ensures |blocks| == |sources|
  {
    seq(|sources|, k requires 0 <= k < |sources| && IsContract(sources[k], minors) =>
      Blocks(sources[k], |sources[k]|, minors)[0])
  }

  /** The stage of the audit that reads blocks: the case statements nest, and those that name three
      minors or more are the audited ones, one for one and written alike up to blank space. */
  ghost predicate BlocksAreAudited(lines: seq<Line>, sources: seq<seq<Line>>, minors: Block -> set<string>) {
    && Nests(lines) && AllMatched(lines, |lines|)
    && AreContracts(sources, minors)
    && multiset(NormalizedAll(Blocks(lines, |lines|, minors))) == multiset(NormalizedAll(Contracts(sources, minors)))
  }

  method NormalizeEach(blocks: seq<Block>) returns (normalized: seq<Block>)
    ensures normalized == NormalizedAll(blocks)
  {
    normalized := [];
    for k := 0 to |blocks|
      invariant |normalized| == k && forall i :: 0 <= i < k ==> normalized[i] == Normalized(blocks[i])
    {
      var lines := NormalizedNonemptyLines(blocks[k]);
      normalized := normalized + [lines];
    }
  }

  /** Whether the text greps for a private window is given. */
  method VerifyAuditedKubernetesMinorSelection(
    lines: seq<Line>, sources: seq<seq<Line>>, minors: Block -> set<string>, greps: bool)
    returns (problem: Option<Problem>)
    ensures problem.None? <==> BlocksAreAudited(lines, sources, minors) && !greps
    ensures problem == Some(PrivateWindow) <==> BlocksAreAudited(lines, sources, minors) && greps
    ensures problem == Some(UnmatchedEsac) <==> Overcloses(lines)
    ensures problem == Some(UnterminatedCase) <==> !Overcloses(lines) && 0 < Depth(lines, 0, |lines|)
    ensures problem == Some(InvalidContract) <==> Nests(lines) && !AreContracts(sources, minors)
    ensures problem == Some(WrongCount) <==>
      && Nests(lines) && AllMatched(lines, |lines|) && AreContracts(sources, minors)
      && |Blocks(lines, |lines|, minors)| != |sources|
    ensures problem == Some(Differs) <==>
      && Nests(lines) && AllMatched(lines, |lines|) && AreContracts(sources, minors)
      && |Blocks(lines, |lines|, minors)| == |sources| && !BlocksAreAudited(lines, sources, minors)
  {
    hide Nests, Overcloses, Depth, Blocks, AllMatched, Normalized;
    NestsExactly(lines);
    var actual := ParseKubernetesMinorCaseBlocks(lines, minors);
    if actual.Failure? { return Some(actual.error); }
    var expected: seq<Block> := [];
    for k := 0 to |sources|
      invariant |expected| == k && forall i :: 0 <= i < k ==>
        IsContract(sources[i], minors) && expected[i] == Blocks(sources[i], |sources[i]|, minors)[0]
    {
      var blocks := ParseKubernetesMinorCaseBlocks(sources[k], minors);
      if blocks.Failure? || |blocks.value| != 1 { return Some(InvalidContract); }
      expected := expected + [blocks.value[0]];
    }
    assert expected == Contracts(sources, minors);
    var found := NormalizeEach(actual.value);
    var wanted := NormalizeEach(expected);
    var unmet := MatchBlocks(found, wanted);
    if unmet.Some? { return unmet; }
    if greps { return Some(PrivateWindow); }
    return None;
  }
}
