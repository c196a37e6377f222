/** The acceptance suites of hack/verify-kubernetes-support.go: the catalog that gives each phase
of the driver to one suite, the checks that nothing is lost or run without what it needs, and the
matrix CI runs.

The driver's phases come as the names its calls were found with, in order.
 */
module E2ESuites {
  import opened Results

  datatype Suite = Suite(name: string, slug: string, summary: string, phases: seq<string>, prepare: seq<string>)

  datatype Refusal =
    | NoSuite
    | UnusableName(name: string)
    | SlugDiffers(name: string)
    | NoSummary(name: string)
    | Twice(name: string)
    | NoPhase(name: string)
    | ClaimedTwice(phase: string)
    | NotCovered(phase: string)
    | RunsAndPrepares(phase: string)
    | NoDriverPhase
    | Missing(phases: set<string>)
    | Unknown(phases: set<string>)
    | Undeclared(suite: string, phase: string)
    | Requires(suite: string, phase: string, required: string)

  // ---------------------------------------------------------------------- names

  predicate IsLower(c: char) { 'a' <= c <= 'z' }
  predicate IsLowerOrDigit(c: char) { IsLower(c) || '0' <= c <= '9' }

  /** ^[a-z]([a-z0-9-]{0,30}[a-z0-9])?$ */
  predicate IsUsable(name: string) {
    && 1 <= |name| <= 32
    && IsLower(name[0])
    && IsLowerOrDigit(name[|name| - 1])
    && forall k :: 0 <= k < |name| ==> IsLowerOrDigit(name[k]) || name[k] == '-'
  }

  predicate IsSpace(c: char) {
    || c in {'\t', '\n', ' ', '\r', '\U{0B}', '\U{0C}', '\U{85}', '\U{A0}', '\U{1680}'}
    || '\U{2000}' <= c <= '\U{200A}'
    || c in {'\U{2028}', '\U{2029}', '\U{202F}', '\U{205F}', '\U{3000}'}
  }

  /** A usable name, piece by piece: a letter, alone or followed by at most thirty letters, digits and
      dashes and one more letter or digit. */
  lemma UsableIsMatched(name: string)
    ensures IsUsable(name) <==>
      || (|name| == 1 && name[0] in LETTERS)
      || (&& 2 <= |name| && |name[1..|name| - 1]| <= 30 && name[0] in LETTERS
          && name[|name| - 1] in LETTERS + DIGITS
          && forall c :: c in name[1..|name| - 1] ==> c in LETTERS + DIGITS + "-")
  {
    LettersAreLower();
    if IsUsable(name) && 2 <= |name| {
      forall c | c in name[1..|name| - 1] ensures c in LETTERS + DIGITS + "-" {
        var k :| 0 < k < |name| - 1 && name[k] == c;
      }
    }
    if 2 <= |name| && forall c :: c in name[1..|name| - 1] ==> c in LETTERS + DIGITS + "-" {
      forall k | 0 < k < |name| - 1 ensures IsLowerOrDigit(name[k]) || name[k] == '-' {
        assert name[k] == name[1..|name| - 1][k - 1];
        assert name[k] in name[1..|name| - 1];
      }
    }
  }

  const LETTERS := "abcdefghijklmnopqrstuvwxyz"
  const DIGITS := "0123456789"

  lemma LettersAreLower()
    ensures forall c :: c in LETTERS <==> IsLower(c)
    ensures forall c :: c in LETTERS + DIGITS <==> IsLowerOrDigit(c)
    ensures forall c :: c in LETTERS + DIGITS + "-" <==> IsLowerOrDigit(c) || c == '-'
  {
    forall c | IsLower(c) ensures c in LETTERS {
      assert LETTERS[c as int - 'a' as int] == c;
    }
    forall c | '0' <= c <= '9' ensures c in DIGITS {
      assert DIGITS[c as int - '0' as int] == c;
    }
    forall c ensures c in LETTERS + DIGITS + "-" <==> c in LETTERS + DIGITS || c == '-' {
      assert "-"[0] == '-';
    }
  }

  /** Blank space is the 25 code points Unicode gives the property White_Space. */
  lemma SpacesAreWhiteSpace(c: char)
    ensures IsSpace(c) <==>
      var n := c as int;
      || 9 <= n <= 13 || n == 32 || n == 133 || n == 160 || n == 5760 || 8192 <= n <= 8202
      || n == 8232 || n == 8233 || n == 8239 || n == 8287 || n == 12288
  {
  }

  predicate SaysNothing(text: string) {
    forall k :: 0 <= k < |text| ==> IsSpace(text[k])
  }

  // ----------------------------------------------------------------- the catalog

  predicate SuiteIsSound(s: Suite) {
    && IsUsable(s.name) && s.slug == s.name && !SaysNothing(s.summary)
    && s.phases != []
    && forall k :: 0 <= k < |s.phases| ==> IsUsable(s.phases[k])
  }

  /** Every phase the suites run, suite by suite. */
  function AllPhases(suites: seq<Suite>): seq<string> {
    if suites == [] then [] else AllPhases(suites[..|suites| - 1]) + suites[|suites| - 1].phases
  }

  ghost predicate Distinct(s: seq<string>) {
    forall i, j :: 0 <= i < j < |s| ==> s[i] != s[j]
  }

  function Names(suites: seq<Suite>): (names: seq<string>)
    ensures |names| == |suites| && forall k :: 0 <= k < |suites| ==> names[k] == suites[k].name
  {
    seq(|suites|, k requires 0 <= k < |suites| => suites[k].name)
  }

  /** A suite prepares only with phases another suite runs for its acceptance. */
  ghost predicate PreparesSoundly(suites: seq<Suite>, s: Suite) {
    forall k :: 0 <= k < |s.prepare| ==>
      IsUsable(s.prepare[k]) && s.prepare[k] in AllPhases(suites) && s.prepare[k] !in s.phases
  }

  ghost predicate CatalogIsSound(suites: seq<Suite>) {
    && suites != []
    && AreSound(suites)
    && (forall k :: 0 <= k < |suites| ==> PreparesSoundly(suites, suites[k]))
  }

  /** Who owns each phase of the suites read so far. */
  ghost predicate Owns(suites: seq<Suite>, owner: map<string, string>) {
    && (forall p :: p in owner <==> p in AllPhases(suites))
    && (forall k, p :: 0 <= k < |suites| && p in suites[k].phases ==> p in owner && owner[p] == suites[k].name)
  }

  ghost predicate Repeats(s: seq<string>, x: string) {
    exists i, j :: 0 <= i < j < |s| && s[i] == x == s[j]
  }

  ghost predicate SharePhase(suites: seq<Suite>, p: string) {
    exists i, j :: 0 <= i < j < |suites| && p in suites[i].phases && p in suites[j].phases
  }

  /** What a refusal says of one suite of the catalog. */
  ghost predicate SaysOf(suites: seq<Suite>, s: Suite, refusal: Refusal) {
    match refusal
    case UnusableName(name) => !IsUsable(name) && (name == s.name || name in s.phases || name in s.prepare)
    case SlugDiffers(name) => s.name == name != s.slug
    case NoSummary(name) => s.name == name && SaysNothing(s.summary)
    case NoPhase(name) => s.name == name && s.phases == []
    case ClaimedTwice(phase) => Repeats(s.phases, phase)
    case NotCovered(phase) => phase in s.prepare && phase !in AllPhases(suites)
    case RunsAndPrepares(phase) => phase in s.prepare && phase in s.phases
    case _ => false
  }

  /** What a refusal says of the catalog. */
  ghost predicate IsTrue(suites: seq<Suite>, refusal: Refusal) {
    || (refusal == NoSuite && suites == [])
    || (refusal.Twice? && Repeats(Names(suites), refusal.name))
    || (refusal.ClaimedTwice? && SharePhase(suites, refusal.phase))
    || exists k :: 0 <= k < |suites| && SaysOf(suites, suites[k], refusal)
  }

  lemma AllPhasesNext(suites: seq<Suite>, k: nat)
    requires k < |suites|
    ensures AllPhases(suites[..k + 1]) == AllPhases(suites[..k]) + suites[k].phases
  {
    assert suites[..k + 1][..k] == suites[..k];
  }

  lemma {:induction false} PhaseOfSuite(suites: seq<Suite>, k: nat, p: string)
    requires k < |suites| && p in suites[k].phases
    ensures p in AllPhases(suites)
  {
    if k == |suites| - 1 {
    } else {
      PhaseOfSuite(suites[..|suites| - 1], k, p);
    }
  }

  lemma {:induction false} SuiteOfPhase(suites: seq<Suite>, p: string) returns (k: nat)
    requires p in AllPhases(suites)
    ensures k < |suites| && p in suites[k].phases
  {
    if p in suites[|suites| - 1].phases {
      k := |suites| - 1;
    } else {
      k := SuiteOfPhase(suites[..|suites| - 1], p);
    }
  }

  lemma DistinctAppend(a: seq<string>, b: seq<string>)
    ensures Distinct(a + b) <==> Distinct(a) && Distinct(b) && forall x :: x in b ==> x !in a
  {
    if Distinct(a + b) {
      assert forall i :: 0 <= i < |a| ==> (a + b)[i] == a[i];
      forall i, j | 0 <= i < j < |b| ensures b[i] != b[j] {
        assert (a + b)[|a| + i] == b[i] && (a + b)[|a| + j] == b[j];
      }
      forall x | x in b ensures x !in a {
        var j :| 0 <= j < |b| && b[j] == x;
        assert (a + b)[|a| + j] == x;
      }
    } else if Distinct(a) && Distinct(b) {
      var i, j :| 0 <= i < j < |a + b| && (a + b)[i] == (a + b)[j];
      assert i < |a| <= j;
      assert a[i] in a && b[j - |a|] in b;
    }
  }

  ghost predicate UnclaimedFor(s: Suite, owner: map<string, string>, refusal: Refusal) {
    match refusal
    case UnusableName(phase) => phase in s.phases && !IsUsable(phase)
    case ClaimedTwice(phase) => phase in s.phases && (phase in owner || Repeats(s.phases, phase))
    case _ => false
  }

  ghost predicate UnreadFor(s: Suite, names: set<string>, refusal: Refusal) {
    match refusal
    case UnusableName(name) => name == s.name && !IsUsable(name)
    case SlugDiffers(name) => s.name == name != s.slug
    case NoSummary(name) => s.name == name && SaysNothing(s.summary)
    case Twice(name) => s.name == name && name in names
    case NoPhase(name) => s.name == name && s.phases == []
    case _ => false
  }

  /** Claims the phases of one suite. The owners passed in are those of the suites before it. */
  method ClaimPhases(s: Suite, owner: map<string, string>) returns (r: Result<map<string, string>, Refusal>)
    ensures r.Success? <==>
      (forall k :: 0 <= k < |s.phases| ==> IsUsable(s.phases[k])) && Distinct(s.phases) &&
      forall p :: p in s.phases ==> p !in owner
    ensures r.Success? ==> forall p :: p in r.value <==> p in owner || p in s.phases
    ensures r.Success? ==> forall p :: p in s.phases ==> r.value[p] == s.name
    ensures r.Success? ==> forall p :: p in owner ==> r.value[p] == owner[p]
    ensures r.Failure? ==> UnclaimedFor(s, owner, r.error)
  {
    hide IsUsable, Repeats, ClaimedUpTo;
    var claimed := owner;
    assert ClaimedUpTo(s, 0, owner, claimed) by { NothingClaimed(s, owner); }
    for k := 0 to |s.phases|
      invariant ClaimedUpTo(s, k, owner, claimed)
    {
      var phase := s.phases[k];
      if !IsUsable(phase) {
        return Failure(UnusableName(phase));
      }
      if phase in claimed {
        ClaimedBefore(s, k, owner, claimed);
        return Failure(ClaimedTwice(phase));
      }
      ClaimNext(s, k, owner, claimed);
      claimed := claimed[phase := s.name];
    }
    AllClaimed(s, owner, claimed);
    r := Success(claimed);
  }

  ghost predicate ClaimedUpTo(s: Suite, k: nat, owner: map<string, string>, claimed: map<string, string>) {
    && k <= |s.phases|
    && (forall i :: 0 <= i < k ==> IsUsable(s.phases[i]) && s.phases[i] !in owner)
    && Distinct(s.phases[..k])
    && (forall p :: p in claimed <==> p in owner || p in s.phases[..k])
    && (forall p :: p in s.phases[..k] ==> claimed[p] == s.name)
    && (forall p :: p in owner ==> claimed[p] == owner[p])
  }

  lemma NothingClaimed(s: Suite, owner: map<string, string>)
    ensures ClaimedUpTo(s, 0, owner, owner)
  {
  }

  lemma ClaimNext(s: Suite, k: nat, owner: map<string, string>, claimed: map<string, string>)
    requires ClaimedUpTo(s, k, owner, claimed) && k < |s.phases|
    requires IsUsable(s.phases[k]) && s.phases[k] !in claimed
    ensures ClaimedUpTo(s, k + 1, owner, claimed[s.phases[k] := s.name])
  {
    hide IsUsable;
    assert s.phases[..k + 1] == s.phases[..k] + [s.phases[k]];
  }

  lemma ClaimedBefore(s: Suite, k: nat, owner: map<string, string>, claimed: map<string, string>)
    requires ClaimedUpTo(s, k, owner, claimed) && k < |s.phases| && s.phases[k] in claimed
    ensures s.phases[k] in owner || Repeats(s.phases, s.phases[k])
    ensures s.phases[k] in owner || !Distinct(s.phases)
  {
    hide IsUsable;
    if s.phases[k] !in owner {
      var i :| 0 <= i < k && s.phases[..k][i] == s.phases[k];
      assert s.phases[i] == s.phases[k];
    }
  }

  lemma AllClaimed(s: Suite, owner: map<string, string>, claimed: map<string, string>)
    requires ClaimedUpTo(s, |s.phases|, owner, claimed)
    ensures (forall k :: 0 <= k < |s.phases| ==> IsUsable(s.phases[k])) && Distinct(s.phases)
    ensures forall p :: p in s.phases ==> p !in owner && p in claimed && claimed[p] == s.name
    ensures forall p :: p in claimed <==> p in owner || p in s.phases
    ensures forall p :: p in owner ==> p in claimed && claimed[p] == owner[p]
  {
    hide IsUsable;
    assert s.phases[..|s.phases|] == s.phases;
  }

  /** The checks on a suite and its name before its phases are claimed. */
  method ReadSuite(s: Suite, names: set<string>) returns (refusal: Option<Refusal>)
    ensures refusal.None? <==>
      IsUsable(s.name) && s.slug == s.name && !SaysNothing(s.summary) && s.name !in names && s.phases != []
    ensures refusal.Some? ==> UnreadFor(s, names, refusal.value)
  {
    if !IsUsable(s.name) { return Some(UnusableName(s.name)); }
    if s.slug != s.name { return Some(SlugDiffers(s.name)); }
    if SaysNothing(s.summary) { return Some(NoSummary(s.name)); }
    if s.name in names { return Some(Twice(s.name)); }
    if |s.phases| == 0 { return Some(NoPhase(s.name)); }
    return None;
  }

  ghost predicate AreSound(suites: seq<Suite>) {
    && (forall k :: 0 <= k < |suites| ==> SuiteIsSound(suites[k]))
    && Distinct(Names(suites)) && Distinct(AllPhases(suites))
  }

  ghost predicate AreNames(suites: seq<Suite>, names: set<string>) {
    forall n :: n in names <==> n in Names(suites)
  }

  /** One more suite is sound beside those before it exactly when its checks pass. */
  lemma SoundNext(suites: seq<Suite>, k: nat, names: set<string>, owner: map<string, string>)
    requires k < |suites| && AreSound(suites[..k]) && AreNames(suites[..k], names) && Owns(suites[..k], owner)
    ensures AreSound(suites[..k + 1]) <==>
      SuiteIsSound(suites[k]) && suites[k].name !in names && Distinct(suites[k].phases) &&
      forall p :: p in suites[k].phases ==> p !in owner
    ensures AreNames(suites[..k + 1], names + {suites[k].name})
  {
    hide Distinct, SuiteIsSound;
    AllPhasesNext(suites, k);
    DistinctAppend(AllPhases(suites[..k]), suites[k].phases);
    var before, after := Names(suites[..k]), Names(suites[..k + 1]);
    assert after == before + [suites[k].name];
    DistinctAppend(before, [suites[k].name]);
    DistinctOne(suites[k].name);
    assert suites[..k + 1] == suites[..k] + [suites[k]];
  }

  lemma DistinctOne(x: string)
    ensures Distinct([x])
  {
  }

  lemma SoundPrefix(suites: seq<Suite>, k: nat)
    requires k <= |suites| && AreSound(suites)
    ensures AreSound(suites[..k])
  {
    DistinctPrefix(suites, k);
    var names := Names(suites[..k]);
    assert forall i :: 0 <= i < k ==> names[i] == Names(suites)[i];
  }

  /** The first pass over the catalog: every suite on its own, and who owns each phase. */
  method ReadSuites(suites: seq<Suite>) returns (r: Result<map<string, string>, Refusal>)
    ensures r.Success? <==> AreSound(suites)
    ensures r.Success? ==> Owns(suites, r.value)
    ensures r.Failure? ==> IsTrue(suites, r.error)
  {
    hide Distinct, Owns, AreNames, AreSound, IsTrue, UnreadFor, UnclaimedFor;
    var names: set<string> := {};
    var owner: map<string, string> := map[];
    NothingRead(suites);
    for k := 0 to |suites|
      invariant AreSound(suites[..k]) && AreNames(suites[..k], names) && Owns(suites[..k], owner)
    {
      var s := suites[k];
      SoundNext(suites, k, names, owner);
      if AreSound(suites) {
        SoundPrefix(suites, k + 1);
      }
      var refusal := ReadSuite(s, names);
      if refusal.Some? {
        UnreadIsTrue(suites, k, names, refusal.value);
        return Failure(refusal.value);
      }
      names := names + {s.name};
      var claimed := ClaimPhases(s, owner);
      if claimed.Failure? {
        UnclaimedIsTrue(suites, k, owner, claimed.error);
        return Failure(claimed.error);
      }
      OwnsNext(suites, k, owner, claimed.value);
      owner := claimed.value;
    }
    assert suites[..|suites|] == suites;
    r := Success(owner);
  }

  lemma UnreadIsTrue(suites: seq<Suite>, k: nat, names: set<string>, refusal: Refusal)
    requires k < |suites| && AreNames(suites[..k], names) && UnreadFor(suites[k], names, refusal)
    ensures IsTrue(suites, refusal)
  {
    if refusal.Twice? {
      var i :| 0 <= i < k && Names(suites[..k])[i] == refusal.name;
      assert Names(suites)[i] == refusal.name == Names(suites)[k];
    } else {
      assert SaysOf(suites, suites[k], refusal);
    }
  }

  lemma UnclaimedIsTrue(suites: seq<Suite>, k: nat, owner: map<string, string>, refusal: Refusal)
    requires k < |suites| && Owns(suites[..k], owner) && UnclaimedFor(suites[k], owner, refusal)
    ensures IsTrue(suites, refusal)
  {
    if refusal.ClaimedTwice? && refusal.phase in owner {
      var i := SuiteOfPhase(suites[..k], refusal.phase);
      assert refusal.phase in suites[i].phases && refusal.phase in suites[k].phases;
    } else {
      assert SaysOf(suites, suites[k], refusal);
    }
  }

  lemma NothingRead(suites: seq<Suite>)
    ensures AreSound(suites[..0]) && AreNames(suites[..0], {}) && Owns(suites[..0], map[])
  {
    assert suites[..0] == [];
  }

  lemma {:induction false} DistinctPrefix(suites: seq<Suite>, k: nat)
    requires k <= |suites|
    ensures Distinct(AllPhases(suites)) ==> Distinct(AllPhases(suites[..k]))
    decreases |suites|
  {
    if k < |suites| {
      var init := suites[..|suites| - 1];
      DistinctAppend(AllPhases(init), suites[|suites| - 1].phases);
      DistinctPrefix(init, k);
      assert init[..k] == suites[..k];
    } else {
      assert suites[..k] == suites;
    }
  }

  lemma OwnsNext(suites: seq<Suite>, k: nat, owner: map<string, string>, claimed: map<string, string>)
    requires k < |suites| && Owns(suites[..k], owner)
    requires forall p :: p in claimed <==> p in owner || p in suites[k].phases
    requires forall p :: p in suites[k].phases ==> p !in owner && claimed[p] == suites[k].name
    requires forall p :: p in owner ==> claimed[p] == owner[p]
    ensures Owns(suites[..k + 1], claimed)
  {
    AllPhasesNext(suites, k);
    var next := suites[..k + 1];
    forall i, p | 0 <= i < |next| && p in next[i].phases ensures p in claimed && claimed[p] == next[i].name {
      if i < k {
        assert suites[..k][i] == next[i];
      }
    }
  }

  /** The second pass: what each suite prepares with. */
  method CheckPreparation(suites: seq<Suite>, owner: map<string, string>, s: Suite) returns (refusal: Option<Refusal>)
    requires AreSound(suites) && Owns(suites, owner) && s in suites
    ensures refusal.None? <==> PreparesSoundly(suites, s)
    ensures refusal.Some? ==> SaysOf(suites, s, refusal.value)
  {
    for k := 0 to |s.prepare|
      invariant forall i :: 0 <= i < k ==>
        IsUsable(s.prepare[i]) && s.prepare[i] in AllPhases(suites) && s.prepare[i] !in s.phases
    {
      var phase := s.prepare[k];
      if !IsUsable(phase) { return Some(UnusableName(phase)); }
      if phase !in owner { return Some(NotCovered(phase)); }
      OwnerIsSuite(suites, owner, s, phase);
      if owner[phase] == s.name { return Some(RunsAndPrepares(phase)); }
    }
    return None;
  }

  /** The owner of a phase is the suite's name exactly when the suite runs the phase. */
  lemma OwnerIsSuite(suites: seq<Suite>, owner: map<string, string>, s: Suite, phase: string)
    requires AreSound(suites) && Owns(suites, owner) && s in suites && phase in owner
    ensures owner[phase] == s.name <==> phase in s.phases
  {
    var i :| 0 <= i < |suites| && suites[i] == s;
    var k := SuiteOfPhase(suites, phase);
    if suites[k].name == s.name {
      assert Names(suites)[k] == Names(suites)[i];
    }
  }

  method LoadE2ESuites(suites: seq<Suite>) returns (refusal: Option<Refusal>)
    ensures refusal.None? <==> CatalogIsSound(suites)
    ensures refusal.Some? ==> IsTrue(suites, refusal.value)
  {
    hide AreSound, Owns, PreparesSoundly, SaysOf;
    if |suites| == 0 { return Some(NoSuite); }
    var owner := ReadSuites(suites);
    if owner.Failure? { return Some(owner.error); }
    for k := 0 to |suites|
      invariant forall i :: 0 <= i < k ==> PreparesSoundly(suites, suites[i])
    {
      var unsound := CheckPreparation(suites, owner.value, suites[k]);
      if unsound.Some? { return unsound; }
    }
    return None;
  }
}
