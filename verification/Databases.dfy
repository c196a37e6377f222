/** The database release lines of hack/verify-kubernetes-support.go: the catalog that declares them,
the suites a line may leave out, and the matrix that runs every added line.

What a regular expression or a date reads from a text is given: whether an image is pinned, the
PostgreSQL major its tag names, the day a date is.
 */
module Databases {
  import opened Results
  import opened Decimals
  import opened E2ESuites
  import opened E2EMatrix
  import opened SupportWindow

  datatype Line = Line(engine: string, line: string, image: string)
  datatype LeftOut = LeftOut(suite: string, reason: string)
  datatype AddedLine = AddedLine(
    base: Line, imageCreated: string, state: string, evidenceRun: string, leftOut: seq<LeftOut>)
  datatype Catalog = Catalog(schemaVersion: int, baseline: seq<Line>, added: seq<AddedLine>)

  datatype Reader = Reader(pinned: string -> bool, major: string -> Option<nat>, day: string -> Option<int>)

  datatype Refusal =
    | WrongSchema | NoBaseline | NoAdded
    | UnknownEngine(line: Line) | NoRelease(line: Line) | NotPinned(line: Line) | NoMajor(line: Line)
    | OtherMajor(line: Line) | AppearsTwice(line: Line)
    | NotPostgres(added: AddedLine) | NoDate(added: AddedLine) | TooYoung(added: AddedLine)
    | PendingWithRun(added: AddedLine) | SupportedWithoutRun(added: AddedLine) | NoState(added: AddedLine)
    | NoEngineNamed | NotASuite(leftOut: LeftOut) | LeftOutTwice(leftOut: LeftOut)
    | NoReason(leftOut: LeftOut) | CanRun(leftOut: LeftOut, phase: string)

  const POSTGRESQL := "postgresql"
  const MYSQL := "mysql"
  const MINIMUM_AGE_DAYS := 14

  // ----------------------------------------------------------------- the catalog

  predicate LineIsSound(read: Reader, l: Line) {
    && (l.engine == POSTGRESQL || l.engine == MYSQL)
    && !SaysNothing(l.line)
    && read.pinned(l.image)
    && (l.engine == POSTGRESQL ==>
          read.major(l.image).Some? && l.line == Itoa(read.major(l.image).value) + ".x")
  }

  /** ^[1-9][0-9]*$ */
  predicate IsRunNumber(s: string) {
    s != [] && '1' <= s[0] <= '9' && forall k :: 0 <= k < |s| ==> IsDigit(s[k])
  }

  /** A run is named by a positive number, written without leading zeros. */
  lemma RunNumberIsWritten(s: string)
    ensures IsRunNumber(s) <==> exists n: nat :: 0 < n && s == Itoa(n)
  {
    if IsRunNumber(s) {
      ItoaOfValue(s);
    }
    forall n: nat | 0 < n && s == Itoa(n) ensures IsRunNumber(s) {
      ItoaStarts(n);
    }
  }

  predicate AddedIsSound(read: Reader, now: int, a: AddedLine) {
    && a.base.engine == POSTGRESQL
    && read.day(a.imageCreated).Some?
    && MINIMUM_AGE_DAYS <= now - read.day(a.imageCreated).value
    && ((a.state == "pending" && a.evidenceRun == "") || (a.state == "supported" && IsRunNumber(a.evidenceRun)))
  }

  function Key(l: Line): string { l.engine + " " + l.line }

  /** Lines of known engines have one key exactly when they name one release of one engine. */
  lemma KeyIsEngineAndLine(a: Line, b: Line)
    requires a.engine in {"postgresql", "mysql"} && b.engine in {"postgresql", "mysql"}
    ensures Key(a) == Key(b) <==> a.engine == b.engine && a.line == b.line
  {
    if Key(a) == Key(b) {
      assert Key(a)[0] == a.engine[0] && Key(b)[0] == b.engine[0];
      assert a.engine == b.engine;
      assert a.line == Key(a)[|a.engine| + 1..] && b.line == Key(b)[|b.engine| + 1..];
    }
  }

  function Keys(baseline: seq<Line>, added: seq<AddedLine>): (keys: seq<string>)
    ensures |keys| == |baseline| + |added|
  {
    seq(|baseline|, k requires 0 <= k < |baseline| => Key(baseline[k])) +
    seq(|added|, k requires 0 <= k < |added| => Key(added[k].base))
  }

  ghost predicate CatalogIsSound(read: Reader, now: int, c: Catalog) {
    && c.schemaVersion == 1 && c.baseline != []
    && (forall k :: 0 <= k < |c.baseline| ==> LineIsSound(read, c.baseline[k]))
    && (forall k :: 0 <= k < |c.added| ==> LineIsSound(read, c.added[k].base) && AddedIsSound(read, now, c.added[k]))
    && Distinct(Keys(c.baseline, c.added))
  }

  /** What a refusal says of a line. */
  predicate SaysOfLine(read: Reader, l: Line, refusal: Refusal) {
    match refusal
    case UnknownEngine(line) => line == l && l.engine != POSTGRESQL && l.engine != MYSQL
    case NoRelease(line) => line == l && SaysNothing(l.line)
    case NotPinned(line) => line == l && !read.pinned(l.image)
    case NoMajor(line) => line == l && l.engine == POSTGRESQL && read.major(l.image).None?
    case OtherMajor(line) =>
      line == l && read.major(l.image).Some? && l.line != Itoa(read.major(l.image).value) + ".x"
    case _ => false
  }

  predicate SaysOfAdded(read: Reader, now: int, a: AddedLine, refusal: Refusal) {
    match refusal
    case NotPostgres(added) => added == a && a.base.engine != POSTGRESQL
    case NoDate(added) => added == a && read.day(a.imageCreated).None?
    case TooYoung(added) =>
      added == a && read.day(a.imageCreated).Some? && now < read.day(a.imageCreated).value + MINIMUM_AGE_DAYS
    case PendingWithRun(added) => added == a && a.state == "pending" && a.evidenceRun != ""
    case SupportedWithoutRun(added) => added == a && a.state == "supported" && !IsRunNumber(a.evidenceRun)
    case NoState(added) => added == a && a.state != "pending" && a.state != "supported"
    case _ => false
  }

  ghost predicate IsTrueOfLines(read: Reader, now: int, c: Catalog, refusal: Refusal) {
    || (refusal == WrongSchema && c.schemaVersion != 1)
    || (refusal == NoBaseline && c.baseline == [])
    || (refusal.AppearsTwice? && Repeats(Keys(c.baseline, c.added), Key(refusal.line)))
    || (exists k :: 0 <= k < |c.baseline| && SaysOfLine(read, c.baseline[k], refusal))
    || (exists k :: 0 <= k < |c.added| &&
          (SaysOfLine(read, c.added[k].base, refusal) || SaysOfAdded(read, now, c.added[k], refusal)))
  }

  method Claim(read: Reader, l: Line, seen: set<string>) returns (refusal: Option<Refusal>)
    ensures refusal.None? <==> LineIsSound(read, l) && Key(l) !in seen
    ensures refusal.Some? ==>
      SaysOfLine(read, l, refusal.value) || (refusal.value == AppearsTwice(l) && Key(l) in seen)
  {
    if l.engine != POSTGRESQL && l.engine != MYSQL { return Some(UnknownEngine(l)); }
    if SaysNothing(l.line) { return Some(NoRelease(l)); }
    if !read.pinned(l.image) { return Some(NotPinned(l)); }
    if l.engine == POSTGRESQL {
      var major := read.major(l.image);
      if major.None? { return Some(NoMajor(l)); }
      if l.line != Itoa(major.value) + ".x" { return Some(OtherMajor(l)); }
    }
    if Key(l) in seen { return Some(AppearsTwice(l)); }
    return None;
  }

  method ValidateAddedDatabaseLine(read: Reader, now: int, a: AddedLine) returns (refusal: Option<Refusal>)
    ensures refusal.None? <==> AddedIsSound(read, now, a)
    ensures refusal.Some? ==> SaysOfAdded(read, now, a, refusal.value)
  {
    if a.base.engine != POSTGRESQL { return Some(NotPostgres(a)); }
    var created := read.day(a.imageCreated);
    if created.None? { return Some(NoDate(a)); }
    if now - created.value < MINIMUM_AGE_DAYS { return Some(TooYoung(a)); }
    if a.state == "pending" {
      if a.evidenceRun != "" { return Some(PendingWithRun(a)); }
    } else if a.state == "supported" {
      if !IsRunNumber(a.evidenceRun) { return Some(SupportedWithoutRun(a)); }
    } else {
      return Some(NoState(a));
    }
    return None;
  }

  method LoadDatabaseCatalog(read: Reader, now: int, c: Catalog) returns (refusal: Option<Refusal>)
    ensures refusal.None? <==> CatalogIsSound(read, now, c)
    ensures refusal.Some? ==> IsTrueOfLines(read, now, c, refusal.value)
  {
    hide LineIsSound, AddedIsSound, Key, SaysOfLine, SaysOfAdded;
    if c.schemaVersion != 1 { return Some(WrongSchema); }
    if |c.baseline| == 0 { return Some(NoBaseline); }
    var n := |c.baseline|;
    ghost var keys := Keys(c.baseline, c.added);
    var seen: set<string> := {};
    for k := 0 to n
      invariant forall i :: 0 <= i < k ==> LineIsSound(read, c.baseline[i])
      invariant seen == set i | 0 <= i < k :: keys[i]
      invariant forall i, j :: 0 <= i < j < k ==> keys[i] != keys[j]
    {
      assert keys[k] == Key(c.baseline[k]);
      var refused := Claim(read, c.baseline[k], seen);
      assert refused.Some? ==> keys[k] in seen ==> Repeats(keys, keys[k]);
      if refused.Some? { return refused; }
      seen := seen + {Key(c.baseline[k])};
    }
    for k := 0 to |c.added|
      invariant forall i :: 0 <= i < k ==> LineIsSound(read, c.added[i].base) && AddedIsSound(read, now, c.added[i])
      invariant seen == set i | 0 <= i < n + k :: keys[i]
      invariant forall i, j :: 0 <= i < j < n + k ==> keys[i] != keys[j]
    {
      assert keys[n + k] == Key(c.added[k].base);
      var refused := Claim(read, c.added[k].base, seen);
      assert refused.Some? ==> keys[n + k] in seen ==> Repeats(keys, keys[n + k]);
      if refused.Some? { return refused; }
      seen := seen + {Key(c.added[k].base)};
      refused := ValidateAddedDatabaseLine(read, now, c.added[k]);
      if refused.Some? { return refused; }
    }
    return None;
  }

  /** Added lines of a sound catalog pin different PostgreSQL majors. */
  lemma MajorsDiffer(read: Reader, now: int, c: Catalog, i: nat, j: nat)
    requires CatalogIsSound(read, now, c) && i < j < |c.added|
    ensures read.major(c.added[i].base.image).Some? && read.major(c.added[j].base.image).Some?
    ensures read.major(c.added[i].base.image).value != read.major(c.added[j].base.image).value
  {
    var keys := Keys(c.baseline, c.added);
    var n := |c.baseline|;
    assert keys[n + i] == Key(c.added[i].base) && keys[n + j] == Key(c.added[j].base);
    assert keys[n + i] != keys[n + j];
  }

  // -------------------------------------------------------------- suites left out

  /** The suite of a name: the last, when a name is repeated. */
  ghost predicate IsNamed(suites: seq<Suite>, suite: string, k: nat) {
    && k < |suites| && suites[k].name == suite
    && forall l :: k < l < |suites| ==> suites[l].name != suite
  }

  /** A suite a line leaves out has every phase of it handed another engine. */
  ghost predicate OnOtherEngine(suites: seq<Suite>, engines: map<string, string>, engine: string, suite: string) {
    exists k: nat :: IsNamed(suites, suite, k) && AllOther(suites[k], engines, engine)
  }

  predicate AllOther(s: Suite, engines: map<string, string>, engine: string) {
    forall i :: 0 <= i < |s.phases| ==> s.phases[i] in engines && engines[s.phases[i]] != engine
  }

  ghost predicate LeavesOutSoundly(suites: seq<Suite>, engines: map<string, string>, a: AddedLine) {
    && (forall k :: 0 <= k < |a.leftOut| ==>
          OnOtherEngine(suites, engines, a.base.engine, a.leftOut[k].suite) && !SaysNothing(a.leftOut[k].reason))
    && (forall i, j :: 0 <= i < j < |a.leftOut| ==> a.leftOut[i].suite != a.leftOut[j].suite)
  }

  /** What a refusal says of a suite a line leaves out, after those in the set. */
  ghost predicate SaysOfLeftOut(
    suites: seq<Suite>, engines: map<string, string>, engine: string, l: LeftOut, seen: set<string>, refusal: Refusal)
  {
    match refusal
    case NotASuite(leftOut) => leftOut == l && l.suite !in Names(suites)
    case LeftOutTwice(leftOut) => leftOut == l && l.suite in seen
    case NoReason(leftOut) => leftOut == l && SaysNothing(l.reason)
    case CanRun(leftOut, phase) =>
      && leftOut == l && (phase !in engines || engines[phase] == engine)
      && exists k: nat :: IsNamed(suites, l.suite, k) && phase in suites[k].phases
    case _ => false
  }

  ghost predicate SaysOfLeftOutAt(
    suites: seq<Suite>, engines: map<string, string>, a: AddedLine, i: nat, refusal: Refusal)
    requires i < |a.leftOut|
  {
    SaysOfLeftOut(suites, engines, a.base.engine, a.leftOut[i], set j | 0 <= j < i :: a.leftOut[j].suite, refusal)
  }

  method CheckLeftOut(suites: seq<Suite>, engines: map<string, string>, engine: string, l: LeftOut, seen: set<string>)
    returns (refusal: Option<Refusal>)
    ensures refusal.None? <==>
      OnOtherEngine(suites, engines, engine, l.suite) && !SaysNothing(l.reason) && l.suite !in seen
    ensures refusal.Some? ==> SaysOfLeftOut(suites, engines, engine, l, seen, refusal.value)
  {
    var found: Option<nat> := None;
    for k := 0 to |suites|
      invariant found.None? ==> forall i :: 0 <= i < k ==> suites[i].name != l.suite
      invariant found.Some? ==> found.value < k && suites[found.value].name == l.suite
      invariant found.Some? ==> forall i :: found.value < i < k ==> suites[i].name != l.suite
    {
      if suites[k].name == l.suite {
        found := Some(k);
      }
    }
    if found.None? { return Some(NotASuite(l)); }
    var s := suites[found.value];
    assert IsNamed(suites, l.suite, found.value);
    assert forall k: nat :: IsNamed(suites, l.suite, k) ==> k == found.value;
    if l.suite in seen { return Some(LeftOutTwice(l)); }
    if SaysNothing(l.reason) { return Some(NoReason(l)); }
    for i := 0 to |s.phases|
      invariant forall j :: 0 <= j < i ==> s.phases[j] in engines && engines[s.phases[j]] != engine
    {
      if s.phases[i] !in engines || engines[s.phases[i]] == engine {
        return Some(CanRun(l, s.phases[i]));
      }
    }
    return None;
  }

  method VerifyDatabaseLeftOutSuites(added: seq<AddedLine>, suites: seq<Suite>, engines: map<string, string>)
    returns (refusal: Option<Refusal>)
    ensures refusal.None? <==>
      engines != map[] && forall k :: 0 <= k < |added| ==> LeavesOutSoundly(suites, engines, added[k])
    ensures refusal.Some? ==>
      || (refusal.value == NoEngineNamed && engines == map[])
      || exists k, i: nat :: 0 <= k < |added| && i < |added[k].leftOut| &&
           SaysOfLeftOutAt(suites, engines, added[k], i, refusal.value)
  {
    hide OnOtherEngine, SaysOfLeftOut;
    if engines == map[] { return Some(NoEngineNamed); }
    for k := 0 to |added|
      invariant forall i :: 0 <= i < k ==> LeavesOutSoundly(suites, engines, added[i])
    {
      var leftOut := added[k].leftOut;
      var seen: set<string> := {};
      for i := 0 to |leftOut|
        invariant seen == set j | 0 <= j < i :: leftOut[j].suite
        invariant forall j :: 0 <= j < i ==>
          OnOtherEngine(suites, engines, added[k].base.engine, leftOut[j].suite) && !SaysNothing(leftOut[j].reason)
        invariant forall j, l :: 0 <= j < l < i ==> leftOut[j].suite != leftOut[l].suite
      {
        var refused := CheckLeftOut(suites, engines, added[k].base.engine, leftOut[i], seen);
        if refused.Some? {
          assert SaysOfLeftOutAt(suites, engines, added[k], i, refused.value);
          return refused;
        }
        seen := seen + {leftOut[i].suite};
      }
    }
    return None;
  }

  // ----------------------------------------------------------------- the matrix

  function EngineName(engine: string): string {
    if engine == POSTGRESQL then "PostgreSQL" else if engine == MYSQL then "MySQL" else ""
  }

  /** The engines as the support page names them. */
  lemma EnginesAreNamed()
    ensures EngineName("postgresql") == "PostgreSQL" && EngineName("mysql") == "MySQL"
  {
  }

  function LineSlug(minorSlug: string, engine: string, major: nat): string {
    minorSlug + "-" + engine + "-" + Itoa(major)
  }

  function OnLine(e: Entry, a: AddedLine, major: nat): Entry {
    e.(minor := e.minor + " on " + EngineName(a.base.engine) + " " + Itoa(major),
       minorSlug := LineSlug(e.minorSlug, a.base.engine, major),
       postgresSourceImage := a.base.image,
       postgresImageCreated := a.imageCreated)
  }

  predicate IsLeftOut(a: AddedLine, suite: string) {
    exists k :: 0 <= k < |a.leftOut| && a.leftOut[k].suite == suite
  }

  /** The jobs of one line among those of the acceptance matrix. */
  function LineEntries(entries: seq<Entry>, a: AddedLine, major: nat): seq<Entry> {
    if entries == [] then []
    else
      var e := entries[|entries| - 1];
      LineEntries(entries[..|entries| - 1], a, major) + if IsLeftOut(a, e.suite) then [] else [OnLine(e, a, major)]
  }

  predicate AllNameMajors(read: Reader, added: seq<AddedLine>) {
    forall k :: 0 <= k < |added| ==> read.major(added[k].base.image).Some?
  }

  function LinesMatrix(read: Reader, minors: seq<Entry>, suites: seq<Suite>, added: seq<AddedLine>): seq<Entry>
    requires AllNameMajors(read, added)
  {
    if added == [] then []
    else
      var a := added[|added| - 1];
      LinesMatrix(read, minors, suites, added[..|added| - 1]) +
      LineEntries(Matrix(minors, suites), a, read.major(a.base.image).value)
  }

  method JobsOnLine(jobs: seq<Entry>, a: AddedLine, major: nat) returns (entries: seq<Entry>)
    ensures entries == LineEntries(jobs, a, major)
  {
    hide OnLine;
    var leftOut := set i | 0 <= i < |a.leftOut| :: a.leftOut[i].suite;
    entries := [];
    for j := 0 to |jobs|
      invariant entries == LineEntries(jobs[..j], a, major)
    {
      assert jobs[..j + 1][..j] == jobs[..j];
      assert jobs[j].suite in leftOut <==> IsLeftOut(a, jobs[j].suite);
      if jobs[j].suite in leftOut {
        assert entries + [] == entries;
        continue;
      }
      entries := entries + [OnLine(jobs[j], a, major)];
    }
    assert jobs[..|jobs|] == jobs;
  }

  method DatabaseLineMatrix(read: Reader, minors: seq<Entry>, suites: seq<Suite>, added: seq<AddedLine>)
    returns (r: Result<seq<Entry>, Refusal>)
    ensures r.Success? <==> added != [] && AllNameMajors(read, added)
    ensures r.Success? ==> r.value == LinesMatrix(read, minors, suites, added)
    ensures r == Failure(NoAdded) <==> added == []
    ensures r.Failure? && added != [] ==>
      exists k :: 0 <= k < |added| && read.major(added[k].base.image).None? && r.error == NoMajor(added[k].base)
  {
    hide LineEntries, Matrix;
    if |added| == 0 { return Failure(NoAdded); }
    var entries: seq<Entry> := [];
    for k := 0 to |added|
      invariant AllNameMajors(read, added[..k])
      invariant entries == LinesMatrix(read, minors, suites, added[..k])
    {
      var major := read.major(added[k].base.image);
      if major.None? { return Failure(NoMajor(added[k].base)); }
      assert added[..k + 1][..k] == added[..k];
      var jobs := E2ESuiteMatrix(minors, suites);
      var onLine := JobsOnLine(jobs, added[k], major.value);
      entries := entries + onLine;
    }
    assert added[..|added|] == added;
    r := Success(entries);
  }

  // ------------------------------------------------------------- what it promises

  /** Counting on a line is counting in the acceptance matrix, for a test that means the same of both. */
  lemma {:induction false} CountOnLine(
    entries: seq<Entry>, a: AddedLine, major: nat, onLine: Entry -> bool, inMatrix: Entry -> bool)
    requires forall k :: 0 <= k < |entries| ==>
      ((!IsLeftOut(a, entries[k].suite) && onLine(OnLine(entries[k], a, major))) <==> inMatrix(entries[k]))
    ensures Count(LineEntries(entries, a, major), onLine) == Count(entries, inMatrix)
  {
    hide IsLeftOut, OnLine;
    if entries == [] {
    } else {
      var init := entries[..|entries| - 1];
      CountOnLine(init, a, major, onLine, inMatrix);
      var e := entries[|entries| - 1];
      if !IsLeftOut(a, e.suite) {
        CountAppend(LineEntries(init, a, major), [OnLine(e, a, major)], onLine);
        CountOne(OnLine(e, a, major), onLine);
      } else {
        assert LineEntries(init, a, major) + [] == LineEntries(init, a, major);
      }
    }
  }

  lemma CountOne(e: Entry, test: Entry -> bool)
    ensures Count([e], test) == if test(e) then 1 else 0
  {
    assert [e][..0] == [];
  }

  /** Every job of the matrix is some minor's and some suite's. */
  lemma {:induction false} RowIsAssigned(minor: Entry, suites: seq<Suite>, e: Entry) returns (s: nat)
    requires e in Row(minor, suites)
    ensures s < |suites| && e == Assigned(minor, suites[s])
  {
    var last := |suites| - 1;
    if e == Assigned(minor, suites[last]) {
      s := last;
    } else {
      s := RowIsAssigned(minor, suites[..last], e);
    }
  }

  lemma {:induction false} MatrixIsAssigned(minors: seq<Entry>, suites: seq<Suite>, e: Entry) returns (m: nat, s: nat)
    requires e in Matrix(minors, suites)
    ensures m < |minors| && s < |suites| && e == Assigned(minors[m], suites[s])
  {
    var last := |minors| - 1;
    if e in Row(minors[last], suites) {
      m := last;
      s := RowIsAssigned(minors[last], suites, e);
    } else {
      m, s := MatrixIsAssigned(minors[..last], suites, e);
    }
  }

  /** The jobs that run a phase on one line and one minor. */
  ghost function RunsOn(suites: seq<Suite>, slug: string, phase: string): Entry -> bool {
    (e: Entry) => e.minorSlug == slug && Runs(suites, e.suite, phase)
  }

  /** A slug names its line's major behind its last dash and its minor before the engine. */
  lemma LineSlugInjective(slug: string, major: nat, slug': string, major': nat)
    requires LineSlug(slug, POSTGRESQL, major) == LineSlug(slug', POSTGRESQL, major')
    ensures slug == slug' && major == major'
  {
    var a, b := slug + "-" + POSTGRESQL, slug' + "-" + POSTGRESQL;
    assert LineSlug(slug, POSTGRESQL, major) == a + ['-'] + Itoa(major);
    assert LineSlug(slug', POSTGRESQL, major') == b + ['-'] + Itoa(major');
    SplitLast(a, Itoa(major), b, Itoa(major'), '-');
    ItoaInjective(major, major');
    assert slug == a[..|a| - |POSTGRESQL| - 1] == slug';
  }

  /** A suite that runs a phase this line can run is not left out. */
  lemma PhaseIsKept(suites: seq<Suite>, engines: map<string, string>, a: AddedLine, suite: string, phase: string)
    requires AreSound(suites) && LeavesOutSoundly(suites, engines, a)
    requires phase !in engines || engines[phase] == a.base.engine
    requires Runs(suites, suite, phase)
    ensures !IsLeftOut(a, suite)
  {
    hide OnOtherEngine, AllOther;
    var l :| 0 <= l < |suites| && suites[l].name == suite && phase in suites[l].phases;
    CanRunHere(suites[l], engines, a.base.engine, phase);
    forall i | 0 <= i < |a.leftOut| ensures a.leftOut[i].suite != suite {
      var k := OtherSuite(suites, engines, a.base.engine, a.leftOut[i].suite);
      assert Names(suites)[k] == a.leftOut[i].suite && Names(suites)[l] == suite;
    }
  }

  lemma CanRunHere(s: Suite, engines: map<string, string>, engine: string, phase: string)
    requires phase in s.phases && (phase !in engines || engines[phase] == engine)
    ensures !AllOther(s, engines, engine)
  {
  }

  lemma OtherSuite(suites: seq<Suite>, engines: map<string, string>, engine: string, suite: string) returns (k: nat)
    requires OnOtherEngine(suites, engines, engine, suite)
    ensures k < |suites| && suites[k].name == suite && AllOther(suites[k], engines, engine)
  {
    k :| IsNamed(suites, suite, k) && AllOther(suites[k], engines, engine);
  }

  /** What the checks establish of the lines before the matrix is built. */
  ghost predicate LinesAreSound(read: Reader, now: int, c: Catalog, suites: seq<Suite>, engines: map<string, string>) {
    && CatalogIsSound(read, now, c)
    && E2ESuites.CatalogIsSound(suites)
    && forall k :: 0 <= k < |c.added| ==> LeavesOutSoundly(suites, engines, c.added[k])
  }

  lemma SoundNamesMajors(read: Reader, now: int, c: Catalog)
    requires CatalogIsSound(read, now, c)
    ensures AllNameMajors(read, c.added)
    ensures forall k :: 0 <= k < |c.added| ==> c.added[k].base.engine == POSTGRESQL
  {
  }

  function MajorOf(read: Reader, a: AddedLine): nat
    requires read.major(a.base.image).Some?
  {
    read.major(a.base.image).value
  }

  /** On its own line, a phase the line can run is run once for a minor. */
  lemma OnceOnItsLine(
    suites: seq<Suite>, engines: map<string, string>, a: AddedLine, major: nat, minors: seq<Entry>, i: nat, phase: string)
    requires AreSound(suites) && LeavesOutSoundly(suites, engines, a) && a.base.engine == POSTGRESQL
    requires DistinctMinors(minors) && DistinctSlugs(minors) && i < |minors|
    requires phase in AllPhases(suites) && (phase !in engines || engines[phase] == POSTGRESQL)
    ensures Count(LineEntries(Matrix(minors, suites), a, major),
                  RunsOn(suites, LineSlug(minors[i].minorSlug, POSTGRESQL, major), phase)) == 1
  {
    var jobs := Matrix(minors, suites);
    var slug := LineSlug(minors[i].minorSlug, POSTGRESQL, major);
    forall k | 0 <= k < |jobs|
      ensures (!IsLeftOut(a, jobs[k].suite) && RunsOn(suites, slug, phase)(OnLine(jobs[k], a, major))) <==>
              Test(suites, minors[i].minor, phase)(jobs[k])
    {
      SameTest(suites, engines, a, major, minors, i, phase, jobs[k]);
    }
    CountOnLine(jobs, a, major, RunsOn(suites, slug, phase), Test(suites, minors[i].minor, phase));
    var k := SuiteOfPhase(suites, phase);
    CountMatrix(suites, minors, minors[i].minor, phase, k);
  }

  lemma SameTest(
    suites: seq<Suite>, engines: map<string, string>, a: AddedLine, major: nat, minors: seq<Entry>, i: nat,
    phase: string, e: Entry)
    requires AreSound(suites) && LeavesOutSoundly(suites, engines, a) && a.base.engine == POSTGRESQL
    requires DistinctMinors(minors) && DistinctSlugs(minors) && i < |minors|
    requires phase !in engines || engines[phase] == POSTGRESQL
    requires e in Matrix(minors, suites)
    ensures (!IsLeftOut(a, e.suite) &&
             RunsOn(suites, LineSlug(minors[i].minorSlug, POSTGRESQL, major), phase)(OnLine(e, a, major))) <==>
            Test(suites, minors[i].minor, phase)(e)
  {
    hide AreSound, LeavesOutSoundly, Matrix, IsLeftOut, Runs, LineSlug;
    var m, s := MatrixIsAssigned(minors, suites, e);
    if Runs(suites, e.suite, phase) {
      PhaseIsKept(suites, engines, a, e.suite, phase);
    }
    if LineSlug(e.minorSlug, POSTGRESQL, major) == LineSlug(minors[i].minorSlug, POSTGRESQL, major) {
      LineSlugInjective(e.minorSlug, major, minors[i].minorSlug, major);
    }
    assert e.minorSlug == minors[i].minorSlug <==> m == i;
    assert e.minor == minors[i].minor <==> m == i;
  }

  /** On another line, none of a line's jobs run. */
  lemma NeverOnAnother(suites: seq<Suite>, a: AddedLine, major: nat, entries: seq<Entry>, slug: string, other: nat, phase: string)
    requires a.base.engine == POSTGRESQL && major != other
    ensures Count(LineEntries(entries, a, major), RunsOn(suites, LineSlug(slug, POSTGRESQL, other), phase)) == 0
  {
    hide LineSlug, Runs, IsLeftOut;
    forall k | 0 <= k < |entries|
      ensures !RunsOn(suites, LineSlug(slug, POSTGRESQL, other), phase)(OnLine(entries[k], a, major))
    {
      if LineSlug(entries[k].minorSlug, POSTGRESQL, major) == LineSlug(slug, POSTGRESQL, other) {
        LineSlugInjective(entries[k].minorSlug, major, slug, other);
      }
    }
    CountOnLine(entries, a, major, RunsOn(suites, LineSlug(slug, POSTGRESQL, other), phase), (e: Entry) => false);
    CountsNone(entries);
  }

  lemma {:induction false} CountsNone(entries: seq<Entry>)
    ensures Count(entries, (e: Entry) => false) == 0
  {
    if entries == [] {
    } else {
      CountsNone(entries[..|entries| - 1]);
    }
  }

  lemma {:induction false} CountLines(
    read: Reader, now: int, c: Catalog, suites: seq<Suite>, engines: map<string, string>,
    minors: seq<Entry>, l: nat, i: nat, phase: string, n: nat)
    requires LinesAreSound(read, now, c, suites, engines)
    requires DistinctMinors(minors) && DistinctSlugs(minors) && i < |minors| && l < |c.added| && n <= |c.added|
    requires phase in AllPhases(suites) && (phase !in engines || engines[phase] == POSTGRESQL)
    requires AllNameMajors(read, c.added)
    ensures Count(LinesMatrix(read, minors, suites, c.added[..n]),
                  RunsOn(suites, LineSlug(minors[i].minorSlug, POSTGRESQL, MajorOf(read, c.added[l])), phase)) ==
            if l < n then 1 else 0
  {
    hide AreSound, LeavesOutSoundly, LineEntries, Matrix, LineSlug, Runs, CatalogIsSound;
    if n == 0 {
    } else {
      var a := c.added[n - 1];
      var test := RunsOn(suites, LineSlug(minors[i].minorSlug, POSTGRESQL, MajorOf(read, c.added[l])), phase);
      CountLines(read, now, c, suites, engines, minors, l, i, phase, n - 1);
      assert c.added[..n][..n - 1] == c.added[..n - 1];
      var onLine := LineEntries(Matrix(minors, suites), a, MajorOf(read, a));
      CountAppend(LinesMatrix(read, minors, suites, c.added[..n - 1]), onLine, test);
      SoundNamesMajors(read, now, c);
      if n - 1 == l {
        OnceOnItsLine(suites, engines, a, MajorOf(read, a), minors, i, phase);
      } else {
        MajorsDiffer(read, now, c, if n - 1 < l then n - 1 else l, if n - 1 < l then l else n - 1);
        NeverOnAnother(suites, a, MajorOf(read, a), Matrix(minors, suites), minors[i].minorSlug, MajorOf(read, c.added[l]), phase);
      }
    }
  }

  /** Every phase that can run on a line runs there once for every minor: one that names no engine,
      or the line's own. */
  lemma ExactlyOneJobOnLine(
    read: Reader, now: int, c: Catalog, suites: seq<Suite>, driver: seq<string>, engines: map<string, string>,
    minors: seq<Entry>, l: nat, i: nat, phase: string)
    requires LinesAreSound(read, now, c, suites, engines) && Covers(suites, driver)
    requires DistinctMinors(minors) && DistinctSlugs(minors) && i < |minors| && l < |c.added|
    requires phase in driver && (phase !in engines || engines[phase] == c.added[l].base.engine)
    ensures AllNameMajors(read, c.added)
    ensures Count(LinesMatrix(read, minors, suites, c.added),
                  RunsOn(suites, LineSlug(minors[i].minorSlug, POSTGRESQL, MajorOf(read, c.added[l])), phase)) == 1
  {
    hide CatalogIsSound, LeavesOutSoundly, LineSlug, Runs, LinesMatrix, AreSound;
    SoundNamesMajors(read, now, c);
    assert c.added[..|c.added|] == c.added;
    CountLines(read, now, c, suites, engines, minors, l, i, phase, |c.added|);
  }

  // ------------------------------------------------------------ how many jobs

  lemma {:induction false} LineEntriesAppend(x: seq<Entry>, y: seq<Entry>, a: AddedLine, major: nat)
    ensures LineEntries(x + y, a, major) == LineEntries(x, a, major) + LineEntries(y, a, major)
  {
    hide IsLeftOut, OnLine;
    if y == [] {
      assert x + y == x;
    } else {
      assert (x + y)[..|x + y| - 1] == x + y[..|y| - 1];
      LineEntriesAppend(x, y[..|y| - 1], a, major);
    }
  }

  /** The suites a line keeps, by name. */
  function Kept(suites: seq<Suite>, a: AddedLine): set<string> {
    set k | 0 <= k < |suites| && !IsLeftOut(a, suites[k].name) :: suites[k].name
  }

  lemma {:induction false} RowLength(minor: Entry, suites: seq<Suite>, a: AddedLine, major: nat, n: nat)
    requires Distinct(Names(suites)) && n <= |suites|
    ensures |LineEntries(Row(minor, suites[..n]), a, major)| == |Kept(suites[..n], a)|
  {
    hide IsLeftOut, OnLine;
    if n == 0 {
      assert suites[..0] == [];
    } else {
      RowLength(minor, suites, a, major, n - 1);
      assert suites[..n][..n - 1] == suites[..n - 1];
      var row := Row(minor, suites[..n]);
      assert row[..|row| - 1] == Row(minor, suites[..n - 1]);
      KeptNext(suites, a, n);
    }
  }

  lemma KeptNext(suites: seq<Suite>, a: AddedLine, n: nat)
    requires Distinct(Names(suites)) && 0 < n <= |suites|
    ensures suites[n - 1].name !in Kept(suites[..n - 1], a)
    ensures Kept(suites[..n], a) ==
      Kept(suites[..n - 1], a) + if IsLeftOut(a, suites[n - 1].name) then {} else {suites[n - 1].name}
  {
    hide IsLeftOut;
    forall k | 0 <= k < n - 1 ensures suites[k].name != suites[n - 1].name {
      assert Names(suites)[k] != Names(suites)[n - 1];
    }
    var before, after := suites[..n - 1], suites[..n];
    assert forall k :: 0 <= k < n - 1 ==> before[k] == after[k];
    forall x | x in Kept(before, a) ensures x in Kept(after, a) {
      var k :| 0 <= k < |before| && !IsLeftOut(a, before[k].name) && before[k].name == x;
      assert after[k].name == x;
    }
    assert after[n - 1] == suites[n - 1];
  }

  function LeftOutNames(a: AddedLine): (names: seq<string>) {
    seq(|a.leftOut|, k requires 0 <= k < |a.leftOut| => a.leftOut[k].suite)
  }

  lemma LeftOutIsNamed(a: AddedLine, name: string)
    ensures IsLeftOut(a, name) <==> name in LeftOutNames(a)
  {
    if IsLeftOut(a, name) {
      var k :| 0 <= k < |a.leftOut| && a.leftOut[k].suite == name;
      assert LeftOutNames(a)[k] == name;
    }
  }

  lemma LeftOutIsSuite(suites: seq<Suite>, engines: map<string, string>, a: AddedLine, name: string)
    requires LeavesOutSoundly(suites, engines, a) && name in LeftOutNames(a)
    ensures name in Names(suites)
  {
    hide AllOther;
    var k := OtherSuite(suites, engines, a.base.engine, name);
    assert Names(suites)[k] == name;
  }

  /** Each of a line's left-out suites is one suite fewer. */
  lemma KeptCount(suites: seq<Suite>, engines: map<string, string>, a: AddedLine)
    requires Distinct(Names(suites)) && LeavesOutSoundly(suites, engines, a)
    ensures |Kept(suites, a)| == |suites| - |a.leftOut|
  {
    var names, left := Names(suites), LeftOutNames(a);
    CountDistinct(names);
    CountDistinct(left);
    hide LeavesOutSoundly, Distinct, IsLeftOut, LeftOutNames, Names;
    var all, out := set n | n in names, set n | n in left;
    forall n | n in out ensures n in all {
      LeftOutIsSuite(suites, engines, a, n);
    }
    forall n: string ensures IsLeftOut(a, n) <==> n in out {
      LeftOutIsNamed(a, n);
    }
    assert Kept(suites, a) == all - out;
  }

  lemma {:induction false} LineLength(minors: seq<Entry>, suites: seq<Suite>, a: AddedLine, major: nat)
    requires Distinct(Names(suites))
    ensures |LineEntries(Matrix(minors, suites), a, major)| == |minors| * |Kept(suites, a)|
  {
    hide LineEntries, Kept, Row, Distinct;
    if minors == [] {
      NoEntries(a, major);
    } else {
      var last := |minors| - 1;
      LineLength(minors[..last], suites, a, major);
      assert suites[..|suites|] == suites;
      RowLength(minors[last], suites, a, major, |suites|);
      LineEntriesAppend(Matrix(minors[..last], suites), Row(minors[last], suites), a, major);
    }
  }

  lemma NoEntries(a: AddedLine, major: nat)
    ensures LineEntries([], a, major) == []
  {
  }

  /** The jobs of every line: its minors times the suites it does not leave out. */
  function Total(minors: nat, suites: nat, added: seq<AddedLine>): int {
    if added == [] then 0
    else Total(minors, suites, added[..|added| - 1]) + minors * (suites - |added[|added| - 1].leftOut|)
  }

  lemma {:induction false} MatrixLength(
    read: Reader, suites: seq<Suite>, engines: map<string, string>, minors: seq<Entry>, added: seq<AddedLine>)
    requires Distinct(Names(suites)) && AllNameMajors(read, added)
    requires forall k :: 0 <= k < |added| ==> LeavesOutSoundly(suites, engines, added[k])
    ensures |LinesMatrix(read, minors, suites, added)| == Total(|minors|, |suites|, added)
  {
    hide Distinct, LeavesOutSoundly, Kept, LineEntries, Matrix;
    if added == [] {
    } else {
      var a := added[|added| - 1];
      MatrixLength(read, suites, engines, minors, added[..|added| - 1]);
      LineLength(minors, suites, a, MajorOf(read, a));
      KeptCount(suites, engines, a);
    }
  }

  // ----------------------------------------------------------- names of their own

  ghost function Named(slug: string, suiteSlug: string): Entry -> bool {
    (e: Entry) => e.minorSlug == slug && e.suiteSlug == suiteSlug
  }

  lemma {:induction false} NamedInRow(minor: Entry, suites: seq<Suite>, slug: string, suiteSlug: string, n: nat)
    requires AreSound(suites) && n <= |suites|
    ensures Count(Row(minor, suites[..n]), Named(slug, suiteSlug)) <=
      if minor.minorSlug == slug && exists s :: 0 <= s < n && suites[s].slug == suiteSlug then 1 else 0
  {
    if n == 0 {
      assert suites[..0] == [];
    } else {
      NamedInRow(minor, suites, slug, suiteSlug, n - 1);
      assert suites[..n][..n - 1] == suites[..n - 1];
      var row := Row(minor, suites[..n]);
      assert row[..|row| - 1] == Row(minor, suites[..n - 1]);
      forall s | 0 <= s < n - 1 ensures suites[s].slug != suites[n - 1].slug {
        assert SuiteIsSound(suites[s]) && SuiteIsSound(suites[n - 1]);
        assert Names(suites)[s] != Names(suites)[n - 1];
      }
    }
  }

  lemma {:induction false} NamedInMatrix(minors: seq<Entry>, suites: seq<Suite>, slug: string, suiteSlug: string)
    requires AreSound(suites) && DistinctSlugs(minors)
    ensures Count(Matrix(minors, suites), Named(slug, suiteSlug)) <=
      if exists m :: 0 <= m < |minors| && minors[m].minorSlug == slug then 1 else 0
  {
    hide AreSound, Row;
    if minors == [] {
    } else {
      var last := |minors| - 1;
      var test := Named(slug, suiteSlug);
      NamedInMatrix(minors[..last], suites, slug, suiteSlug);
      CountAppend(Matrix(minors[..last], suites), Row(minors[last], suites), test);
      assert suites[..|suites|] == suites;
      NamedInRow(minors[last], suites, slug, suiteSlug, |suites|);
      if m :| 0 <= m < last && minors[..last][m].minorSlug == slug {
        assert minors[m].minorSlug == slug;
      }
    }
  }

  ghost predicate IsOfLine(slug: string, major: nat) {
    exists base :: LineSlug(base, POSTGRESQL, major) == slug
  }

  lemma {:induction false} CountLess(entries: seq<Entry>, p: Entry -> bool, q: Entry -> bool)
    requires forall e :: p(e) ==> q(e)
    ensures Count(entries, p) <= Count(entries, q)
  {
    if entries == [] {
    } else {
      CountLess(entries[..|entries| - 1], p, q);
    }
  }

  lemma NamedOnLine(
    minors: seq<Entry>, suites: seq<Suite>, a: AddedLine, major: nat, slug: string, suiteSlug: string)
    requires AreSound(suites) && DistinctSlugs(minors) && a.base.engine == POSTGRESQL
    ensures Count(LineEntries(Matrix(minors, suites), a, major), Named(slug, suiteSlug)) <=
      if IsOfLine(slug, major) then 1 else 0
  {
    hide AreSound, LineSlug, IsLeftOut;
    var jobs := Matrix(minors, suites);
    var inMatrix := (e: Entry) =>
      !IsLeftOut(a, e.suite) && LineSlug(e.minorSlug, POSTGRESQL, major) == slug && e.suiteSlug == suiteSlug;
    CountOnLine(jobs, a, major, Named(slug, suiteSlug), inMatrix);
    if base :| LineSlug(base, POSTGRESQL, major) == slug {
      forall e | inMatrix(e) ensures Named(base, suiteSlug)(e) {
        LineSlugInjective(e.minorSlug, major, base, major);
      }
      CountLess(jobs, inMatrix, Named(base, suiteSlug));
      NamedInMatrix(minors, suites, base, suiteSlug);
    } else {
      CountLess(jobs, inMatrix, (e: Entry) => false);
      CountsNone(jobs);
    }
  }

  lemma OneLine(slug: string, major: nat, other: nat)
    requires IsOfLine(slug, major) && IsOfLine(slug, other)
    ensures major == other
  {
    var a :| LineSlug(a, POSTGRESQL, major) == slug;
    var b :| LineSlug(b, POSTGRESQL, other) == slug;
    LineSlugInjective(a, major, b, other);
  }

  lemma {:induction false} NamedOnce(
    read: Reader, now: int, c: Catalog, suites: seq<Suite>, minors: seq<Entry>, slug: string, suiteSlug: string, n: nat)
    requires CatalogIsSound(read, now, c) && AreSound(suites) && DistinctSlugs(minors)
    requires AllNameMajors(read, c.added) && n <= |c.added|
    ensures Count(LinesMatrix(read, minors, suites, c.added[..n]), Named(slug, suiteSlug)) <=
      if exists l :: 0 <= l < n && IsOfLine(slug, MajorOf(read, c.added[l])) then 1 else 0
  {
    hide AreSound, LineEntries, Matrix, IsOfLine, CatalogIsSound, DistinctSlugs;
    if n == 0 {
    } else {
      var a := c.added[n - 1];
      NamedOnce(read, now, c, suites, minors, slug, suiteSlug, n - 1);
      assert c.added[..n][..n - 1] == c.added[..n - 1];
      SoundNamesMajors(read, now, c);
      CountAppend(LinesMatrix(read, minors, suites, c.added[..n - 1]),
                  LineEntries(Matrix(minors, suites), a, MajorOf(read, a)), Named(slug, suiteSlug));
      NamedOnLine(minors, suites, a, MajorOf(read, a), slug, suiteSlug);
      if l :| 0 <= l < n - 1 && IsOfLine(slug, MajorOf(read, c.added[l])) {
        MajorsDiffer(read, now, c, l, n - 1);
        if IsOfLine(slug, MajorOf(read, a)) {
          OneLine(slug, MajorOf(read, c.added[l]), MajorOf(read, a));
        }
      }
    }
  }

  lemma {:induction false} CountBoth(entries: seq<Entry>, test: Entry -> bool, i: nat, j: nat)
    requires i < j < |entries| && test(entries[i]) && test(entries[j])
    ensures 2 <= Count(entries, test)
  {
    var init := entries[..|entries| - 1];
    if j < |init| {
      CountBoth(init, test, i, j);
    } else {
      CountAtLeast(init, test, i);
    }
  }

  lemma {:induction false} CountAtLeast(entries: seq<Entry>, test: Entry -> bool, i: nat)
    requires i < |entries| && test(entries[i])
    ensures 1 <= Count(entries, test)
  {
    if i == |entries| - 1 {
    } else {
      CountAtLeast(entries[..|entries| - 1], test, i);
    }
  }

  /** No two jobs share the names their clusters and artifacts are made of, and there are as many
      as the lines, minors and kept suites make. */
  lemma LinesMatrixIsNamed(
    read: Reader, now: int, c: Catalog, suites: seq<Suite>, engines: map<string, string>, minors: seq<Entry>)
    requires LinesAreSound(read, now, c, suites, engines) && DistinctSlugs(minors)
    ensures AllNameMajors(read, c.added)
    ensures |LinesMatrix(read, minors, suites, c.added)| == Total(|minors|, |suites|, c.added)
    ensures var jobs := LinesMatrix(read, minors, suites, c.added);
      forall i, j :: 0 <= i < j < |jobs| ==> jobs[i].minorSlug != jobs[j].minorSlug || jobs[i].suiteSlug != jobs[j].suiteSlug
  {
    hide CatalogIsSound, LeavesOutSoundly, LinesMatrix, DistinctSlugs;
    SoundNamesMajors(read, now, c);
    MatrixLength(read, suites, engines, minors, c.added);
    var jobs := LinesMatrix(read, minors, suites, c.added);
    forall i, j | 0 <= i < j < |jobs|
      ensures jobs[i].minorSlug != jobs[j].minorSlug || jobs[i].suiteSlug != jobs[j].suiteSlug
    {
      assert c.added[..|c.added|] == c.added;
      NamedOnce(read, now, c, suites, minors, jobs[i].minorSlug, jobs[i].suiteSlug, |c.added|);
      if jobs[i].minorSlug == jobs[j].minorSlug && jobs[i].suiteSlug == jobs[j].suiteSlug {
        CountBoth(jobs, Named(jobs[i].minorSlug, jobs[i].suiteSlug), i, j);
      }
    }
  }

  // --------------------------------------------------------------- what a job carries

  /** The job of a line, minor and suite, field by field. */
  ghost predicate IsJob(e: Entry, a: AddedLine, major: nat, n: Entry, s: Suite) {
    && e.minor == n.minor + " on PostgreSQL " + Itoa(major) && e.minorSlug == n.minorSlug + "-postgresql-" + Itoa(major)
    && e.postgresSourceImage == a.base.image && e.postgresImageCreated == a.imageCreated
    && e.kubernetesVersion == n.kubernetesVersion && e.nodeImage == n.nodeImage && e.kindVersion == n.kindVersion
    && e.suite == s.name && e.suiteSlug == s.slug && e.suiteSummary == s.summary
  }

  lemma OnLineIsJob(a: AddedLine, major: nat, n: Entry, s: Suite)
    requires a.base.engine == "postgresql"
    ensures IsJob(OnLine(Assigned(n, s), a, major), a, major, n, s)
  {
    var e := OnLine(Assigned(n, s), a, major);
    assert EngineName(a.base.engine) == "PostgreSQL";
    assert n.minor + " on " + "PostgreSQL" + " " + Itoa(major) == n.minor + " on PostgreSQL " + Itoa(major) by {
      assert " on " + "PostgreSQL" + " " == " on PostgreSQL ";
      assert n.minor + " on " + "PostgreSQL" + " " == n.minor + (" on " + "PostgreSQL" + " ");
    }
    assert e.minorSlug == n.minorSlug + "-postgresql-" + Itoa(major) by {
      assert "-" + "postgresql" + "-" == "-postgresql-";
      assert n.minorSlug + "-" + "postgresql" + "-" == n.minorSlug + ("-" + "postgresql" + "-");
    }
  }

  lemma {:induction false} LineEntryIs(entries: seq<Entry>, a: AddedLine, major: nat, e: Entry) returns (k: nat)
    requires e in LineEntries(entries, a, major)
    ensures k < |entries| && e == OnLine(entries[k], a, major) && !IsLeftOut(a, entries[k].suite)
  {
    hide OnLine, IsLeftOut;
    var last := |entries| - 1;
    if e in LineEntries(entries[..last], a, major) {
      k := LineEntryIs(entries[..last], a, major, e);
    } else {
      k := last;
    }
  }

  /** Every job of the matrix runs a suite its line does not leave out, on the line's image, with a
      name that says so, and with all else its minor's. */
  lemma {:induction false} JobsCarryTheirLine(
    read: Reader, minors: seq<Entry>, suites: seq<Suite>, added: seq<AddedLine>, e: Entry)
    returns (l: nat, m: nat, s: nat)
    requires AllNameMajors(read, added) && e in LinesMatrix(read, minors, suites, added)
    requires forall k :: 0 <= k < |added| ==> added[k].base.engine == "postgresql"
    ensures l < |added| && m < |minors| && s < |suites|
    ensures IsJob(e, added[l], MajorOf(read, added[l]), minors[m], suites[s])
    ensures forall k :: 0 <= k < |added[l].leftOut| ==> added[l].leftOut[k].suite != suites[s].name
  {
    hide OnLine, LineEntries, IsJob;
    var last := |added| - 1;
    if e in LinesMatrix(read, minors, suites, added[..last]) {
      l, m, s := JobsCarryTheirLine(read, minors, suites, added[..last], e);
    } else {
      l := last;
      var major := MajorOf(read, added[l]);
      var jobs := Matrix(minors, suites);
      var k := LineEntryIs(jobs, added[l], major, e);
      m, s := MatrixIsAssigned(minors, suites, jobs[k]);
      OnLineIsJob(added[l], major, minors[m], suites[s]);
    }
  }
}
