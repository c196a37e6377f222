/** Two readings of the driver: hack/acceptancecoverage/catalog.go walks its lines forwards and
carries an engine to the call below it, hack/verify-kubernetes-support.go walks backwards from each
call over the assignments that prefix it.

A line comes classified by the expressions each reader matches it with.
 */
module DriverPhases {
  import opened Results

  const ENGINE := "E2E_ENGINE"

  datatype Call = Call(phase: string, script: string, goPhase: string)

  datatype Binding = Binding(name: string, value: string)

  /** What the forward reader sees - the engine a line names, the call it makes, whether it ends in
      a backslash - and what the backward reader sees: a call, and a backslash-continued assignment. */
  datatype Line = Line(
    engine: Option<string>, call: Option<Call>, continued: bool,
    invocation: Option<Call>, assignment: Option<Binding>)

  datatype DriverPhase = DriverPhase(call: Call, engine: string)

  // ------------------------------------------------------------------- forwards

  /** A line an engine named above it is carried over. */
  predicate Carries(l: Line) {
    l.engine.None? && l.call.None? && l.continued
  }

  /** The engine in front of line n: that of the nearest line above it, over lines that carry it. */
  function EngineAbove(lines: seq<Line>, n: nat): Option<string>
    requires n <= |lines|
  {
    if n == 0 then None
    else if lines[n - 1].engine.Some? then lines[n - 1].engine
    else if Carries(lines[n - 1]) then EngineAbove(lines, n - 1)
    else None
  }

  /** The engine line at e is in front of line n: nothing between them ends its block. */
  ghost predicate Reaches(lines: seq<Line>, e: nat, n: nat) {
    && e < n <= |lines| && lines[e].engine.Some?
    && forall k :: e < k < n ==> Carries(lines[k])
  }

  /** A call is given an engine exactly when an engine line reaches it, and then that line's. */
  lemma {:induction false} EngineReaches(lines: seq<Line>, n: nat, engine: string)
    requires n <= |lines|
    ensures EngineAbove(lines, n) == Some(engine) <==> exists e: nat :: Reaches(lines, e, n) && lines[e].engine == Some(engine)
  {
    if n == 0 {
    } else {
      var last := n - 1;
      if lines[last].engine.Some? {
        assert Reaches(lines, last, n);
        assert !Carries(lines[last]);
        assert forall e: nat :: Reaches(lines, e, n) ==> e == last;
      } else if Carries(lines[last]) {
        EngineReaches(lines, last, engine);
        assert forall e: nat :: Reaches(lines, e, n) <==> Reaches(lines, e, last);
      } else {
        assert forall e: nat :: !Reaches(lines, e, n);
      }
    }
  }

  /** An engine is handed to one call at most: the call itself ends its block. */
  lemma EngineDoesNotTravel(lines: seq<Line>, e: nat, c: nat, c': nat)
    requires c < c' && c < |lines| && lines[c].call.Some? && lines[c].engine.None?
    requires Reaches(lines, e, c)
    ensures !Reaches(lines, e, c')
  {
    assert !Carries(lines[c]);
  }

  function Text(engine: Option<string>): string {
    if engine.Some? then engine.value else ""
  }

  /** The calls of the first n lines, each with the engine in front of it. A line that names an
      engine is no call. */
  function Phases(lines: seq<Line>, n: nat): seq<DriverPhase>
    requires n <= |lines|
  {
    if n == 0 then []
    else if lines[n - 1].engine.Some? || lines[n - 1].call.None? then Phases(lines, n - 1)
    else Phases(lines, n - 1) + [DriverPhase(lines[n - 1].call.value, Text(EngineAbove(lines, n - 1)))]
  }

  method ParseDriverPhases(lines: seq<Line>) returns (phases: seq<DriverPhase>)
    ensures phases == Phases(lines, |lines|)
  {
    phases := [];
    var engine := "";
    for n := 0 to |lines|
      invariant phases == Phases(lines, n) && engine == Text(EngineAbove(lines, n))
    {
      var line := lines[n];
      if line.engine.Some? {
        engine := line.engine.value;
        continue;
      }
      if line.call.Some? {
        phases := phases + [DriverPhase(line.call.value, engine)];
        engine := "";
        continue;
      }
      if !line.continued {
        engine := "";
      }
    }
  }

  // ------------------------------------------------------------------ backwards

  /** The assignments in front of line n, up to the first line above it that is none. */
  function Bindings(lines: seq<Line>, n: nat): seq<Binding>
    requires n <= |lines|
  {
    if n == 0 || lines[n - 1].assignment.None? then []
    else Bindings(lines, n - 1) + [lines[n - 1].assignment.value]
  }

  datatype Invocation = Invocation(call: Call, bindings: seq<Binding>)

  function Invocations(lines: seq<Line>, n: nat): seq<Invocation>
    requires n <= |lines|
  {
    if n == 0 then []
    else if lines[n - 1].invocation.None? then Invocations(lines, n - 1)
    else Invocations(lines, n - 1) + [Invocation(lines[n - 1].invocation.value, Bindings(lines, n - 1))]
  }

  method FindPhaseInvocations(lines: seq<Line>) returns (invocations: seq<Invocation>)
    ensures invocations == Invocations(lines, |lines|)
  {
    invocations := [];
    for index := 0 to |lines|
      invariant invocations == Invocations(lines, index)
    {
      if lines[index].invocation.None? {
        continue;
      }
      var bindings := ReadPrefix(lines, index);
      invocations := invocations + [Invocation(lines[index].invocation.value, bindings)];
    }
  }

  method ReadPrefix(lines: seq<Line>, index: nat) returns (bindings: seq<Binding>)
    requires index <= |lines|
    ensures bindings == Bindings(lines, index)
  {
    bindings := [];
    var previous: nat := index;
    while 0 < previous && lines[previous - 1].assignment.Some?
      invariant previous <= index && Bindings(lines, index) == Bindings(lines, previous) + bindings
    {
      previous := previous - 1;
      ghost var rest := bindings;
      bindings := [lines[previous].assignment.value] + bindings;
      assert Bindings(lines, previous) + [lines[previous].assignment.value] + rest == Bindings(lines, previous) + bindings;
    }
    assert [] + bindings == bindings;
  }

  /** The engine the assignments in front of a call give it: the last, when there are several. */
  function LastEngine(bindings: seq<Binding>): Option<string> {
    if bindings == [] then None
    else
      var last := bindings[|bindings| - 1];
      if last.name == ENGINE then Some(last.value) else LastEngine(bindings[..|bindings| - 1])
  }

  /** The engine each phase is invoked with. */
  ghost predicate AreEngines(invocations: seq<Invocation>, engines: map<string, string>) {
    forall phase :: IsEngineOf(invocations, phase, if phase in engines then Some(engines[phase]) else None)
  }

  /** The last invocation of the phase that names an engine decides. */
  ghost predicate IsEngineOf(invocations: seq<Invocation>, phase: string, engine: Option<string>) {
    if invocations == [] then engine == None
    else
      var last := invocations[|invocations| - 1];
      if last.call.phase == phase && LastEngine(last.bindings).Some? then engine == LastEngine(last.bindings)
      else IsEngineOf(invocations[..|invocations| - 1], phase, engine)
  }

  method EnginesOf(invocations: seq<Invocation>) returns (engines: map<string, string>)
    ensures AreEngines(invocations, engines)
  {
    engines := map[];
    for n := 0 to |invocations|
      invariant AreEngines(invocations[..n], engines)
    {
      var invocation := invocations[n];
      var bindings := invocation.bindings;
      ghost var before := engines;
      for k := 0 to |bindings|
        invariant engines ==
          if LastEngine(bindings[..k]).Some? then before[invocation.call.phase := LastEngine(bindings[..k]).value] else before
      {
        assert bindings[..k + 1][..k] == bindings[..k];
        if bindings[k].name == ENGINE {
          engines := engines[invocation.call.phase := bindings[k].value];
        }
      }
      assert bindings[..|bindings|] == bindings;
      assert invocations[..n + 1][..n] == invocations[..n];
      EnginesNext(invocations[..n + 1], before, engines);
    }
    assert invocations[..|invocations|] == invocations;
  }

  lemma EnginesNext(invocations: seq<Invocation>, before: map<string, string>, engines: map<string, string>)
    requires invocations != [] && AreEngines(invocations[..|invocations| - 1], before)
    requires var last := invocations[|invocations| - 1];
      engines == if LastEngine(last.bindings).Some? then before[last.call.phase := LastEngine(last.bindings).value] else before
    ensures AreEngines(invocations, engines)
  {
    forall phase ensures IsEngineOf(invocations, phase, if phase in engines then Some(engines[phase]) else None) {
      assert IsEngineOf(invocations[..|invocations| - 1], phase, if phase in before then Some(before[phase]) else None);
    }
  }

  // ------------------------------------------------------------------- agreement

  /** The line at b binds the engine in front of line n: only assignments lie between them. */
  ghost predicate Binds(lines: seq<Line>, b: nat, n: nat) {
    && b < n <= |lines|
    && lines[b].assignment.Some? && lines[b].assignment.value.name == ENGINE
    && forall k :: b < k < n ==> lines[k].assignment.Some? && lines[k].assignment.value.name != ENGINE
  }

  /** The backward reader gives a call an engine exactly when a line binds it in front of the call. */
  lemma {:induction false} EngineIsBound(lines: seq<Line>, n: nat, engine: string)
    requires n <= |lines|
    ensures LastEngine(Bindings(lines, n)) == Some(engine) <==>
      exists b: nat :: Binds(lines, b, n) && lines[b].assignment.value.value == engine
  {
    if n == 0 || lines[n - 1].assignment.None? {
      assert forall b: nat :: !Binds(lines, b, n);
    } else {
      var last := n - 1;
      BindingsNext(lines, n);
      if lines[last].assignment.value.name == ENGINE {
        assert Binds(lines, last, n);
        assert forall b: nat :: Binds(lines, b, n) ==> b == last;
      } else {
        EngineIsBound(lines, last, engine);
        assert forall b: nat :: Binds(lines, b, n) <==> Binds(lines, b, last);
      }
    }
  }

  /** The nearest assignment decides if it binds the engine, and otherwise those above it. */
  lemma BindingsNext(lines: seq<Line>, n: nat)
    requires 0 < n <= |lines| && lines[n - 1].assignment.Some?
    ensures var last := lines[n - 1].assignment.value;
      LastEngine(Bindings(lines, n)) == if last.name == ENGINE then Some(last.value) else LastEngine(Bindings(lines, n - 1))
  {
    var bindings := Bindings(lines, n);
    assert bindings[..|bindings| - 1] == Bindings(lines, n - 1);
  }

  /** What the expressions guarantee of a line: one that names the engine at its left edge is an
      assignment of that engine. */
  predicate AsMatched(l: Line) {
    l.engine.Some? ==> l.assignment == Some(Binding(ENGINE, l.engine.value))
  }

  /** A continued assignment of another name: both readers go on over it. */
  predicate Passes(l: Line) {
    Carries(l) && l.assignment.Some? && l.assignment.value.name != ENGINE
  }

  /** The first line above line n that does not let both readers pass. */
  function Decider(lines: seq<Line>, n: nat): (e: Option<nat>)
    requires n <= |lines|
    ensures e.Some? ==> e.value < n && !Passes(lines[e.value])
  {
    if n == 0 then None
    else if Passes(lines[n - 1]) then Decider(lines, n - 1)
    else Some(n - 1)
  }

  /** The readers agree about the line that stopped one of them: it names the engine for both; it
      ends the forward reader's block, and the backward one finds no engine from it on; it is a
      continued line that is no assignment, and no engine reaches it; or it binds an engine only the
      backward reader sees, and the same engine reaches it. */
  ghost predicate AgreesAt(lines: seq<Line>, e: nat)
    requires e < |lines|
  {
    var l, below := lines[e], e + 1;
    if l.engine.Some? then true
    else if !Carries(l) then forall b: nat :: !Binds(lines, b, below)
    else if l.assignment.None? then forall f: nat :: !Reaches(lines, f, e)
    else exists f: nat :: Reaches(lines, f, e) && lines[f].engine == Some(l.assignment.value.value)
  }

  /** The two readers give a call the same engine if and only if they agree about the first line
      above it that is not a continued assignment of another name. */
  lemma {:induction false} ReadersAgree(lines: seq<Line>, n: nat)
    requires n <= |lines| && forall k :: 0 <= k < n ==> AsMatched(lines[k])
    ensures EngineAbove(lines, n) == LastEngine(Bindings(lines, n)) <==>
      (Decider(lines, n).Some? ==> AgreesAt(lines, Decider(lines, n).value))
  {
    hide AgreesAt;
    if n == 0 {
    } else if Passes(lines[n - 1]) {
      BindingsNext(lines, n);
      ReadersAgree(lines, n - 1);
    } else {
      AgreeAtDecider(lines, n - 1);
    }
  }

  lemma AgreeAtDecider(lines: seq<Line>, e: nat)
    requires e < |lines| && !Passes(lines[e]) && AsMatched(lines[e])
    ensures EngineAbove(lines, e + 1) == LastEngine(Bindings(lines, e + 1)) <==> AgreesAt(lines, e)
  {
    var l := lines[e];
    if l.assignment.Some? {
      BindingsNext(lines, e + 1);
    }
    if l.engine.Some? {
    } else if !Carries(l) {
      NoneBound(lines, e + 1);
    } else if l.assignment.None? {
      NoneReaches(lines, e);
    } else {
      EngineReaches(lines, e, l.assignment.value.value);
    }
  }

  lemma NoneBound(lines: seq<Line>, n: nat)
    requires n <= |lines|
    ensures LastEngine(Bindings(lines, n)) == None <==> forall b: nat :: !Binds(lines, b, n)
  {
    var engine := LastEngine(Bindings(lines, n));
    if engine.Some? {
      EngineIsBound(lines, n, engine.value);
    } else {
      forall b: nat ensures !Binds(lines, b, n) {
        if Binds(lines, b, n) {
          EngineIsBound(lines, n, lines[b].assignment.value.value);
        }
      }
    }
  }

  lemma NoneReaches(lines: seq<Line>, n: nat)
    requires n <= |lines|
    ensures EngineAbove(lines, n) == None <==> forall f: nat :: !Reaches(lines, f, n)
  {
    var engine := EngineAbove(lines, n);
    if engine.Some? {
      EngineReaches(lines, n, engine.value);
    } else {
      forall f: nat ensures !Reaches(lines, f, n) {
        if Reaches(lines, f, n) {
          EngineReaches(lines, n, lines[f].engine.value);
        }
      }
    }
  }

  /** The two readers take a line in front of a call for the same thing: a continued line is an
      assignment, and one of the engine is written where both see it. */
  predicate IsRegular(l: Line) {
    && AsMatched(l)
    && (l.assignment.Some? <==> l.engine.Some? || Carries(l))
    && (l.assignment.Some? && l.assignment.value.name == ENGINE <==> l.engine.Some?)
  }

  predicate InBlock(l: Line) {
    l.engine.Some? || Carries(l)
  }

  /** Every line of the block in front of line n, and the line that ends it, is regular. */
  predicate IsRegularAbove(lines: seq<Line>, n: nat)
    requires n <= |lines|
  {
    n == 0 || (IsRegular(lines[n - 1]) && (InBlock(lines[n - 1]) ==> IsRegularAbove(lines, n - 1)))
  }

  /** In particular the readers agree in front of a call whose block is written that way. */
  lemma {:induction false} RegularBlocksAgree(lines: seq<Line>, n: nat)
    requires n <= |lines| && IsRegularAbove(lines, n)
    ensures EngineAbove(lines, n) == LastEngine(Bindings(lines, n))
  {
    if n == 0 || lines[n - 1].assignment.None? {
    } else {
      BindingsNext(lines, n);
      if lines[n - 1].engine.None? {
        RegularBlocksAgree(lines, n - 1);
      }
    }
  }

  /** An engine that is indented is an assignment to the backward reader and a line like any other
      to the forward one, so the two disagree about the call below it. */
  lemma IndentedEngineIsLost(call: Call)
    ensures var indented := Line(None, None, true, None, Some(Binding(ENGINE, "mysql")));
      var lines := [indented, Line(None, Some(call), false, Some(call), None)];
      EngineAbove(lines, 1) == None && LastEngine(Bindings(lines, 1)) == Some("mysql")
  {
    var indented := Line(None, None, true, None, Some(Binding(ENGINE, "mysql")));
    var lines := [indented, Line(None, Some(call), false, Some(call), None)];
    assert EngineAbove(lines, 0) == None;
    assert Bindings(lines, 1) == [Binding(ENGINE, "mysql")];
  }
}
