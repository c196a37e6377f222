/** The driver's phases against the suites that run them, what a fully run phase requires, and the
acceptance matrix: every supported minor against every suite.
 */
module E2EMatrix {
  import opened Results
  import opened E2ESuites

  /** A phase as it is declared: how many of its scenarios make up its preparation mode, none
      meaning that it has no such mode, and the phases it needs run in full before it. */
  datatype Phase = Phase(name: string, preparation: int, requiresFull: seq<string>)

  // ------------------------------------------------------------------- coverage

  /** Every phase the driver runs is some suite's, and every suite's phase is one it runs. */
  ghost predicate Covers(suites: seq<Suite>, driver: seq<string>) {
    forall p :: p in driver <==> p in AllPhases(suites)
  }

  /** Where the driver calls a phase: its last call, when there are several. */
  ghost predicate IsOrder(driver: seq<string>, order: map<string, nat>) {
    && (forall p :: p in order <==> p in driver)
    && (forall p :: p in order ==>
          order[p] < |driver| && driver[order[p]] == p && p !in driver[order[p] + 1..])
  }

  ghost function OrderOf(driver: seq<string>): map<string, nat> {
    if driver == [] then map[] else OrderOf(driver[..|driver| - 1])[driver[|driver| - 1] := |driver| - 1]
  }

  /** A phase the driver calls is placed at its last call. */
  lemma {:induction false} OrderIsLastCall(driver: seq<string>)
    ensures IsOrder(driver, OrderOf(driver))
  {
    if driver == [] {
    } else {
      var last := |driver| - 1;
      OrderIsLastCall(driver[..last]);
      OrderNext(driver[..last], driver[last], OrderOf(driver[..last]));
      assert driver == driver[..last] + [driver[last]];
    }
  }

  method ReadDriver(driver: seq<string>) returns (order: map<string, nat>)
    ensures order == OrderOf(driver)
  {
    order := map[];
    for index := 0 to |driver|
      invariant order == OrderOf(driver[..index])
    {
      order := order[driver[index] := index];
      assert driver[..index + 1][..index] == driver[..index];
    }
    assert driver[..|driver|] == driver;
  }

  lemma OrderNext(driver: seq<string>, p: string, order: map<string, nat>)
    requires IsOrder(driver, order)
    ensures IsOrder(driver + [p], order[p := |driver|])
  {
    var longer := driver + [p];
    forall q | q in order && q != p ensures q !in longer[order[q] + 1..] {
      assert longer[order[q] + 1..] == driver[order[q] + 1..] + [p];
    }
    assert longer[|driver| + 1..] == [];
  }

  /** The phases the suites claim. */
  method Claimed(suites: seq<Suite>) returns (covered: set<string>)
    ensures forall p :: p in covered <==> p in AllPhases(suites)
  {
    covered := {};
    for k := 0 to |suites|
      invariant forall p :: p in covered <==> p in AllPhases(suites[..k])
    {
      AllPhasesNext(suites, k);
      covered := covered + set p | p in suites[k].phases;
    }
    assert suites[..|suites|] == suites;
  }

  /** What a refusal says of the driver beside the suites. */
  ghost predicate IsUncovered(suites: seq<Suite>, driver: seq<string>, refusal: Refusal) {
    match refusal
    case NoDriverPhase => driver == []
    case Missing(phases) => phases != {} && forall p :: p in phases <==> p in driver && p !in AllPhases(suites)
    case Unknown(phases) => phases != {} && forall p :: p in phases <==> p in AllPhases(suites) && p !in driver
    case _ => false
  }

  method VerifyE2ESuiteCoverage(suites: seq<Suite>, driver: seq<string>, declared: seq<Phase>)
    returns (refusal: Option<Refusal>)
    ensures refusal.None? <==>
      && driver != [] && Covers(suites, driver)
      && forall k :: 0 <= k < |suites| ==> Prepared(suites[k], declared, OrderOf(driver))
    ensures refusal.Some? ==>
      IsUncovered(suites, driver, refusal.value) || SomeUnprepared(suites, declared, OrderOf(driver), refusal.value)
  {
    hide Prepared, SomeUnprepared, OrderOf;
    var calls := ReadDriver(driver);
    OrderIsLastCall(driver);
    assert driver != [] ==> driver[0] in calls;
    if calls == map[] {
      return Some(NoDriverPhase);
    }
    assert driver != [];
    var covered := Claimed(suites);
    var missing := calls.Keys - covered;
    if missing != {} {
      return Some(Missing(missing));
    }
    var unknown := covered - calls.Keys;
    if unknown != {} {
      return Some(Unknown(unknown));
    }
    refusal := VerifyE2ESuitePrerequisites(suites, declared, calls);
    assert Covers(suites, driver) by {
      forall p ensures p in driver <==> p in AllPhases(suites) {
        assert p in calls.Keys <==> p in covered;
      }
    }
  }

  // -------------------------------------------------------------- prerequisites

  /** The declaration in force for each name: the last, when a name is declared twice. */
  function Definitions(declared: seq<Phase>): map<string, Phase> {
    if declared == [] then map[]
    else
      var last := declared[|declared| - 1];
      Definitions(declared[..|declared| - 1])[last.name := last]
  }

  /** The phases a suite runs in full: its own, and those it prepares with that have no shorter mode. */
  function FullyRun(s: Suite, definitions: map<string, Phase>): set<string> {
    (set p | p in s.phases) + (set p | p in s.prepare && p in definitions && definitions[p].preparation == 0)
  }

  ghost predicate IsSatisfied(full: set<string>, definitions: map<string, Phase>, order: map<string, nat>, name: string) {
    && name in definitions
    && forall k :: 0 <= k < |definitions[name].requiresFull| ==>
         IsBefore(full, order, definitions[name].requiresFull[k], name)
  }

  predicate IsBefore(full: set<string>, order: map<string, nat>, required: string, name: string) {
    required in full && required in order && name in order && order[required] < order[name]
  }

  /** What a refusal says of a phase a suite runs in full. */
  ghost predicate IsUnmet(
    suite: string, full: set<string>, definitions: map<string, Phase>, order: map<string, nat>, name: string, refusal: Refusal)
  {
    || (refusal == Undeclared(suite, name) && name !in definitions)
    || (&& refusal.Requires? && refusal == Requires(suite, name, refusal.required)
        && name in definitions && refusal.required in definitions[name].requiresFull
        && !IsBefore(full, order, refusal.required, name))
  }

  ghost predicate IsUnprepared(s: Suite, declared: seq<Phase>, order: map<string, nat>, refusal: Refusal) {
    var definitions := Definitions(declared);
    exists name :: name in FullyRun(s, definitions) &&
      IsUnmet(s.name, FullyRun(s, definitions), definitions, order, name, refusal)
  }

  ghost predicate SomeUnprepared(suites: seq<Suite>, declared: seq<Phase>, order: map<string, nat>, refusal: Refusal) {
    exists k :: 0 <= k < |suites| && IsUnprepared(suites[k], declared, order, refusal)
  }

  ghost predicate Prepared(s: Suite, declared: seq<Phase>, order: map<string, nat>) {
    var definitions := Definitions(declared);
    forall name :: name in FullyRun(s, definitions) ==> IsSatisfied(FullyRun(s, definitions), definitions, order, name)
  }

  method Define(declared: seq<Phase>) returns (definitions: map<string, Phase>)
    ensures definitions == Definitions(declared)
  {
    definitions := map[];
    for k := 0 to |declared|
      invariant definitions == Definitions(declared[..k])
    {
      definitions := definitions[declared[k].name := declared[k]];
      assert declared[..k + 1][..k] == declared[..k];
    }
    assert declared[..|declared|] == declared;
  }

  method CheckRequired(suite: string, full: set<string>, definitions: map<string, Phase>, order: map<string, nat>, name: string)
    returns (refusal: Option<Refusal>)
    ensures refusal.None? <==> IsSatisfied(full, definitions, order, name)
    ensures refusal.Some? ==> IsUnmet(suite, full, definitions, order, name, refusal.value)
  {
    if name !in definitions { return Some(Undeclared(suite, name)); }
    var required := definitions[name].requiresFull;
    for k := 0 to |required|
      invariant forall i :: 0 <= i < k ==> IsBefore(full, order, required[i], name)
    {
      if !IsBefore(full, order, required[k], name) {
        return Some(Requires(suite, name, required[k]));
      }
    }
    return None;
  }

  method VerifyE2ESuitePrerequisites(suites: seq<Suite>, declared: seq<Phase>, order: map<string, nat>)
    returns (refusal: Option<Refusal>)
    ensures refusal.None? <==> forall k :: 0 <= k < |suites| ==> Prepared(suites[k], declared, order)
    ensures refusal.Some? ==> SomeUnprepared(suites, declared, order, refusal.value)
  {
    hide IsSatisfied, FullyRun, IsUnmet;
    var definitions := Define(declared);
    for k := 0 to |suites|
      invariant forall i :: 0 <= i < k ==> Prepared(suites[i], declared, order)
    {
      var full := FullyRun(suites[k], definitions);
      var rest := full;
      while rest != {}
        invariant rest <= full
        invariant forall name :: name in full && name !in rest ==> IsSatisfied(full, definitions, order, name)
      {
        var name :| name in rest;
        var unmet := CheckRequired(suites[k].name, full, definitions, order, name);
        if unmet.Some? {
          assert IsUnprepared(suites[k], declared, order, unmet.value);
          return unmet;
        }
        rest := rest - {name};
      }
    }
    return None;
  }

  /** The last declaration of a name. */
  ghost predicate IsDeclared(declared: seq<Phase>, name: string, k: nat) {
    && k < |declared| && declared[k].name == name
    && forall l :: k < l < |declared| ==> declared[l].name != name
  }

  lemma {:induction false} DefinitionIsLast(declared: seq<Phase>, name: string)
    ensures name in Definitions(declared) <==> exists k: nat :: IsDeclared(declared, name, k)
    ensures forall k: nat :: IsDeclared(declared, name, k) ==> name in Definitions(declared) && Definitions(declared)[name] == declared[k]
  {
    if declared == [] {
    } else {
      var last := |declared| - 1;
      var before := declared[..last];
      DefinitionIsLast(before, name);
      if declared[last].name == name {
        assert IsDeclared(declared, name, last);
        assert forall k: nat :: IsDeclared(declared, name, k) ==> k == last;
      } else {
        assert forall k: nat :: k < last ==> before[k] == declared[k];
        assert forall k: nat :: IsDeclared(declared, name, k) <==> IsDeclared(before, name, k);
      }
    }
  }

  /** A suite runs a phase in full if it is one of its own, or one it prepares with that is declared
      without a shorter mode. */
  ghost predicate RunsInFull(s: Suite, declared: seq<Phase>, name: string) {
    || name in s.phases
    || (name in s.prepare && exists k: nat :: IsDeclared(declared, name, k) && declared[k].preparation == 0)
  }

  ghost predicate IsReady(s: Suite, declared: seq<Phase>, order: map<string, nat>, name: string) {
    exists k: nat :: IsDeclared(declared, name, k) && HasAll(s, declared, order, name, k)
  }

  ghost predicate HasAll(s: Suite, declared: seq<Phase>, order: map<string, nat>, name: string, k: nat)
    requires k < |declared|
  {
    forall r :: r in declared[k].requiresFull ==>
      RunsInFull(s, declared, r) && r in order && name in order && order[r] < order[name]
  }

  lemma FullyRunExactly(s: Suite, declared: seq<Phase>, name: string)
    ensures name in FullyRun(s, Definitions(declared)) <==> RunsInFull(s, declared, name)
  {
    DefinitionIsLast(declared, name);
  }

  lemma SatisfiedExactly(s: Suite, declared: seq<Phase>, order: map<string, nat>, name: string)
    ensures IsSatisfied(FullyRun(s, Definitions(declared)), Definitions(declared), order, name) <==> IsReady(s, declared, order, name)
  {
    hide FullyRun, Definitions, RunsInFull;
    var definitions := Definitions(declared);
    DefinitionIsLast(declared, name);
    forall r: string ensures r in FullyRun(s, definitions) <==> RunsInFull(s, declared, r) {
      FullyRunExactly(s, declared, r);
    }
    if IsSatisfied(FullyRun(s, definitions), definitions, order, name) {
      var k: nat :| IsDeclared(declared, name, k);
      forall r | r in declared[k].requiresFull
        ensures RunsInFull(s, declared, r) && r in order && name in order && order[r] < order[name]
      {
        var i :| 0 <= i < |declared[k].requiresFull| && declared[k].requiresFull[i] == r;
        assert IsBefore(FullyRun(s, definitions), order, definitions[name].requiresFull[i], name);
      }
      assert HasAll(s, declared, order, name, k);
    }
    if IsReady(s, declared, order, name) {
      var k: nat :| IsDeclared(declared, name, k) && HasAll(s, declared, order, name, k);
      var required := definitions[name].requiresFull;
      forall i | 0 <= i < |required| ensures IsBefore(FullyRun(s, definitions), order, required[i], name) {
        assert required[i] in declared[k].requiresFull;
      }
    }
  }

  /** What a suite owes, by what it and the declarations say: every phase it runs in full is declared,
      and all that declaration requires is run in full by the suite and called earlier. */
  lemma PreparedExactly(s: Suite, declared: seq<Phase>, order: map<string, nat>)
    ensures Prepared(s, declared, order) <==>
      forall name :: RunsInFull(s, declared, name) ==> IsReady(s, declared, order, name)
  {
    hide FullyRun, Definitions, IsSatisfied, RunsInFull, IsReady;
    forall name: string
      ensures name in FullyRun(s, Definitions(declared)) <==> RunsInFull(s, declared, name)
      ensures IsSatisfied(FullyRun(s, Definitions(declared)), Definitions(declared), order, name) <==>
        IsReady(s, declared, order, name)
    {
      FullyRunExactly(s, declared, name);
      SatisfiedExactly(s, declared, order, name);
    }
  }

  /** Each phase of the chain is required in full by the one before it. */
  ghost predicate IsRequirement(definitions: map<string, Phase>, chain: seq<string>) {
    && chain != []
    && forall k :: 0 <= k < |chain| - 1 ==> chain[k] in definitions && Needs(definitions, chain, k)
  }

  ghost predicate Needs(definitions: map<string, Phase>, chain: seq<string>, k: nat)
    requires k + 1 < |chain| && chain[k] in definitions
  {
    chain[k + 1] in definitions[chain[k]].requiresFull
  }

  /** Whatever a fully run phase requires, through however many others, is fully run in the same
      suite and earlier in the driver. */
  lemma {:induction false} RequirementsRunBefore(
    s: Suite, declared: seq<Phase>, order: map<string, nat>, chain: seq<string>, k: nat)
    requires Prepared(s, declared, order) && IsRequirement(Definitions(declared), chain)
    requires chain[0] in FullyRun(s, Definitions(declared)) && k < |chain|
    ensures chain[k] in FullyRun(s, Definitions(declared))
    ensures 0 < k ==> chain[k] in order && chain[0] in order && order[chain[k]] < order[chain[0]]
  {
    hide FullyRun, Definitions;
    if k == 0 {
    } else {
      RequirementsRunBefore(s, declared, order, chain, k - 1);
      var definitions := Definitions(declared);
      assert Needs(definitions, chain, k - 1);
      assert IsSatisfied(FullyRun(s, definitions), definitions, order, chain[k - 1]);
      var i :| 0 <= i < |definitions[chain[k - 1]].requiresFull| && definitions[chain[k - 1]].requiresFull[i] == chain[k];
      assert IsBefore(FullyRun(s, definitions), order, chain[k], chain[k - 1]);
    }
  }

  lemma RequirementsHaveNoCycle(s: Suite, declared: seq<Phase>, order: map<string, nat>, chain: seq<string>)
    requires Prepared(s, declared, order) && IsRequirement(Definitions(declared), chain)
    requires chain[0] in FullyRun(s, Definitions(declared)) && 1 < |chain|
    ensures chain[|chain| - 1] != chain[0]
  {
    hide FullyRun, Definitions, Prepared, IsRequirement;
    RequirementsRunBefore(s, declared, order, chain, |chain| - 1);
  }

  // ----------------------------------------------------------------- the matrix

  datatype Entry = Entry(
    minor: string, minorSlug: string, kubernetesVersion: string, nodeImage: string, kindVersion: string,
    postgresSourceImage: string, postgresImageCreated: string,
    suite: string, suiteSlug: string, suiteSummary: string)

  function Assigned(minor: Entry, s: Suite): Entry {
    minor.(suite := s.name, suiteSlug := s.slug, suiteSummary := s.summary)
  }

  /** The jobs of one minor. */
  function Row(minor: Entry, suites: seq<Suite>): seq<Entry> {
    if suites == [] then [] else Row(minor, suites[..|suites| - 1]) + [Assigned(minor, suites[|suites| - 1])]
  }

  function Matrix(minors: seq<Entry>, suites: seq<Suite>): seq<Entry> {
    if minors == [] then [] else Matrix(minors[..|minors| - 1], suites) + Row(minors[|minors| - 1], suites)
  }

  lemma {:induction false} RowAt(minor: Entry, suites: seq<Suite>, s: nat)
    requires s < |suites|
    ensures |Row(minor, suites)| == |suites| && Row(minor, suites)[s] == Assigned(minor, suites[s])
  {
    var last := |suites| - 1;
    if last == 0 {
      assert Row(minor, suites[..0]) == [];
    } else {
      RowAt(minor, suites[..last], if s < last then s else 0);
    }
  }

  /** Where a job stands: the suites of a minor lie together in their order, the minors in theirs, and
      a job is its minor with the suite's name, slug and summary. */
  lemma {:induction false} MatrixAt(minors: seq<Entry>, suites: seq<Suite>, m: nat, s: nat)
    requires m < |minors| && s < |suites|
    ensures |Matrix(minors, suites)| == |minors| * |suites|
    ensures 0 <= m * |suites| + s < |Matrix(minors, suites)|
    ensures var e, n := Matrix(minors, suites)[m * |suites| + s], minors[m];
      e == Entry(n.minor, n.minorSlug, n.kubernetesVersion, n.nodeImage, n.kindVersion, n.postgresSourceImage,
                 n.postgresImageCreated, suites[s].name, suites[s].slug, suites[s].summary)
  {
    var last := |minors| - 1;
    RowAt(minors[last], suites, s);
    Product(m, last, |suites|, s);
    if last == 0 {
      assert Matrix(minors[..0], suites) == [];
    } else {
      MatrixAt(minors[..last], suites, if m < last then m else 0, s);
    }
  }

  lemma {:induction false} Product(m: nat, last: nat, n: nat, s: nat)
    requires m <= last && s < n
    ensures last * n + n == (last + 1) * n && m * n <= last * n && (m < last ==> m * n + n <= last * n)
    decreases last
  {
    if m == last {
    } else {
      Product(m, last - 1, n, s);
      assert last * n == (last - 1) * n + n;
    }
  }

  method E2ESuiteMatrix(minors: seq<Entry>, suites: seq<Suite>) returns (entries: seq<Entry>)
    ensures entries == Matrix(minors, suites)
  {
    entries := [];
    for m := 0 to |minors|
      invariant entries == Matrix(minors[..m], suites)
    {
      ghost var before := entries;
      for s := 0 to |suites|
        invariant entries == before + Row(minors[m], suites[..s])
      {
        entries := entries + [Assigned(minors[m], suites[s])];
        assert suites[..s + 1][..s] == suites[..s];
      }
      assert suites[..|suites|] == suites;
      assert minors[..m + 1][..m] == minors[..m];
    }
    assert minors[..|minors|] == minors;
  }

  method E2ESuiteCoveredPhases(suites: seq<Suite>) returns (phases: nat)
    ensures phases == |AllPhases(suites)|
  {
    phases := 0;
    for k := 0 to |suites|
      invariant phases == |AllPhases(suites[..k])|
    {
      AllPhasesNext(suites, k);
      phases := phases + |suites[k].phases|;
    }
    assert suites[..|suites|] == suites;
  }

  /** How many entries a test holds of. */
  ghost function Count(entries: seq<Entry>, test: Entry -> bool): nat {
    if entries == [] then 0
    else Count(entries[..|entries| - 1], test) + if test(entries[|entries| - 1]) then 1 else 0
  }

  lemma {:induction false} CountAppend(a: seq<Entry>, b: seq<Entry>, test: Entry -> bool)
    ensures Count(a + b, test) == Count(a, test) + Count(b, test)
  {
    if b == [] {
      assert a + b == a;
    } else {
      assert (a + b)[..|a + b| - 1] == a + b[..|b| - 1];
      CountAppend(a, b[..|b| - 1], test);
    }
  }

  /** The suite a name belongs to runs the phase for its acceptance, beside any it prepares with. */
  ghost predicate Runs(suites: seq<Suite>, name: string, phase: string) {
    exists k :: 0 <= k < |suites| && suites[k].name == name && phase in suites[k].phases
  }

  /** In a sound catalog a phase has one suite. */
  lemma OneSuite(suites: seq<Suite>, phase: string, k: nat, l: nat)
    requires AreSound(suites) && k < |suites| && l < |suites|
    requires phase in suites[k].phases && Runs(suites, suites[l].name, phase)
    ensures k == l
  {
    var i :| 0 <= i < |suites| && suites[i].name == suites[l].name && phase in suites[i].phases;
    assert Names(suites)[i] == Names(suites)[l];
    OnePhase(suites, phase, k, l);
  }

  lemma {:induction false} OnePhase(suites: seq<Suite>, phase: string, k: nat, l: nat)
    requires Distinct(AllPhases(suites)) && k < |suites| && l < |suites|
    requires phase in suites[k].phases && phase in suites[l].phases
    ensures k == l
  {
    var last := |suites| - 1;
    DistinctAppend(AllPhases(suites[..last]), suites[last].phases);
    if k < last && l < last {
      OnePhase(suites[..last], phase, k, l);
    } else if k < last {
      PhaseOfSuite(suites[..last], k, phase);
    } else if l < last {
      PhaseOfSuite(suites[..last], l, phase);
    }
  }

  ghost function Test(suites: seq<Suite>, minor: string, phase: string): Entry -> bool {
    (e: Entry) => e.minor == minor && Runs(suites, e.suite, phase)
  }

  lemma {:induction false} CountRow(suites: seq<Suite>, minor: Entry, m: string, phase: string, k: nat, n: nat)
    requires AreSound(suites) && k < |suites| && phase in suites[k].phases && n <= |suites|
    ensures Count(Row(minor, suites[..n]), Test(suites, m, phase)) == if minor.minor == m && k < n then 1 else 0
  {
    hide AreSound, Runs;
    if n == 0 {
      assert suites[..0] == [];
    } else {
      CountRow(suites, minor, m, phase, k, n - 1);
      assert suites[..n][..n - 1] == suites[..n - 1];
      assert Runs(suites, suites[n - 1].name, phase) <==> k == n - 1 by {
        SuiteRuns(suites, k, phase);
        if Runs(suites, suites[n - 1].name, phase) {
          OneSuite(suites, phase, k, n - 1);
        }
      }
    }
  }

  lemma SuiteRuns(suites: seq<Suite>, k: nat, phase: string)
    requires k < |suites| && phase in suites[k].phases
    ensures Runs(suites, suites[k].name, phase)
  {
  }

  ghost predicate DistinctMinors(minors: seq<Entry>) {
    forall i, j :: 0 <= i < j < |minors| ==> minors[i].minor != minors[j].minor
  }

  ghost predicate HasMinor(minors: seq<Entry>, m: string) {
    exists i :: 0 <= i < |minors| && minors[i].minor == m
  }

  /** One more minor, which is not the one looked for if that was there already. */
  lemma MinorNext(minors: seq<Entry>, last: nat, m: string)
    requires last + 1 == |minors| && DistinctMinors(minors)
    ensures DistinctMinors(minors[..last])
    ensures HasMinor(minors, m) <==> HasMinor(minors[..last], m) || minors[last].minor == m
    ensures !(HasMinor(minors[..last], m) && minors[last].minor == m)
  {
    var before := minors[..last];
    assert forall i :: 0 <= i < last ==> before[i] == minors[i];
    if HasMinor(before, m) {
      var i :| 0 <= i < last && before[i].minor == m;
      assert minors[i].minor == m;
    }
    if HasMinor(minors, m) && minors[last].minor != m {
      var i :| 0 <= i < |minors| && minors[i].minor == m;
      assert before[i].minor == m;
    }
  }

  lemma {:induction false} CountMatrix(suites: seq<Suite>, minors: seq<Entry>, m: string, phase: string, k: nat)
    requires AreSound(suites) && k < |suites| && phase in suites[k].phases && DistinctMinors(minors)
    ensures Count(Matrix(minors, suites), Test(suites, m, phase)) == if HasMinor(minors, m) then 1 else 0
  {
    hide AreSound, Runs, Row, DistinctMinors;
    if minors == [] {
    } else {
      hide HasMinor;
      var last := |minors| - 1;
      MinorNext(minors, last, m);
      CountMatrix(suites, minors[..last], m, phase, k);
      CountAppend(Matrix(minors[..last], suites), Row(minors[last], suites), Test(suites, m, phase));
      assert suites[..|suites|] == suites;
      CountRow(suites, minors[last], m, phase, k, |suites|);
    }
  }

  /** Nothing is lost and nothing runs twice: for every minor, one job runs each of the driver's phases. */
  lemma ExactlyOneJob(suites: seq<Suite>, driver: seq<string>, minors: seq<Entry>, i: nat, phase: string)
    requires CatalogIsSound(suites) && Covers(suites, driver) && DistinctMinors(minors)
    requires i < |minors| && phase in driver
    ensures Count(Matrix(minors, suites), Test(suites, minors[i].minor, phase)) == 1
  {
    hide AreSound;
    var k := SuiteOfPhase(suites, phase);
    CountMatrix(suites, minors, minors[i].minor, phase, k);
  }

  lemma {:induction false} CountDistinct(s: seq<string>)
    requires Distinct(s)
    ensures |set x | x in s| == |s|
  {
    if s == [] {
    } else {
      var init, last := s[..|s| - 1], s[|s| - 1];
      CountDistinct(init);
      assert s == init + [last];
      assert (set x | x in s) == (set x | x in init) + {last};
      assert last !in init;
    }
  }

  /** The number the verifier reports is that of the driver's phases. */
  lemma CoveredPhasesCounted(suites: seq<Suite>, driver: seq<string>)
    requires AreSound(suites) && Covers(suites, driver)
    ensures |AllPhases(suites)| == |set p | p in driver|
  {
    CountDistinct(AllPhases(suites));
    assert (set p | p in driver) == set p | p in AllPhases(suites);
  }
}
