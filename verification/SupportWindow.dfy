/** The support window of hack/verify-kubernetes-support.go: three consecutive Kubernetes minors, the
version range a chart declares for them, and the matrix entries they become.
 */
module SupportWindow {
  import opened Results
  import opened Decimals
  import opened E2EMatrix

  const WINDOW_SIZE := 3

  datatype Parsed = Parsed(text: string, major: nat, minor: nat)

  datatype Refusal = WrongSize | NotAMinor(index: nat) | NotSorted | NotConsecutive(index: nat)

  // ------------------------------------------------------------------ the window

  predicate AllDigits(s: string) {
    s != [] && forall k :: 0 <= k < |s| ==> IsDigit(s[k])
  }

  predicate SplitsAt(text: string, dot: nat) {
    dot < |text| && text[dot] == '.' && AllDigits(text[..dot]) && AllDigits(text[dot + 1..])
  }

  /** ^(\d+)\.(\d+)$ */
  ghost predicate IsMinor(text: string) {
    exists dot: nat :: SplitsAt(text, dot)
  }

  lemma NoDotBefore(text: string, i: nat, j: nat)
    requires SplitsAt(text, j) && i < |text| && text[i] == '.'
    ensures j <= i
  {
    assert forall k :: 0 <= k < j ==> text[k] == text[..j][k];
  }

  lemma OneDot(text: string, i: nat, j: nat)
    requires SplitsAt(text, i) && SplitsAt(text, j)
    ensures i == j
  {
    NoDotBefore(text, i, j);
    NoDotBefore(text, j, i);
  }

  ghost predicate Reads(text: string, p: Parsed) {
    exists dot: nat :: SplitsAt(text, dot) && p == Parsed(text, Value(text[..dot]), Value(text[dot + 1..]))
  }

  ghost predicate IsWindow(texts: seq<string>, parsed: seq<Parsed>) {
    && |texts| == |parsed| == WINDOW_SIZE
    && (forall k :: 0 <= k < |texts| ==> Reads(texts[k], parsed[k]))
    && Consecutive(parsed)
  }

  predicate Consecutive(parsed: seq<Parsed>) {
    forall k :: 0 < k < |parsed| ==> Follows(parsed, k)
  }

  predicate Follows(parsed: seq<Parsed>, k: nat)
    requires 0 < k < |parsed|
  {
    parsed[k].major == parsed[k - 1].major && parsed[k].minor == parsed[k - 1].minor + 1
  }

  predicate Before(a: Parsed, b: Parsed) {
    a.major < b.major || (a.major == b.major && a.minor < b.minor)
  }

  lemma DigitsTo(text: string, dot: nat)
    requires SplitsAt(text, dot)
    ensures forall k :: 0 <= k < dot ==> IsDigit(text[k])
  {
    assert forall k :: 0 <= k < dot ==> text[k] == text[..dot][k];
  }

  method ParseMinor(text: string) returns (p: Option<Parsed>)
    ensures p.Some? <==> IsMinor(text)
    ensures p.Some? ==> Reads(text, p.value)
  {
    var dot := 0;
    while dot < |text| && IsDigit(text[dot])
      invariant dot <= |text| && forall k :: 0 <= k < dot ==> IsDigit(text[k])
    {
      dot := dot + 1;
    }
    forall d: nat | SplitsAt(text, d) ensures d == dot {
      DigitsTo(text, d);
    }
    if dot == |text| || !SplitsAt(text, dot) {
      return None;
    }
    p := Some(Parsed(text, Value(text[..dot]), Value(text[dot + 1..])));
  }

  ghost predicate AreRead(texts: seq<string>, parsed: seq<Parsed>) {
    |parsed| == |texts| && forall k :: 0 <= k < |texts| ==> Reads(texts[k], parsed[k])
  }

  /** Somewhere an older release stands after a newer one. */
  ghost predicate Falls(parsed: seq<Parsed>) {
    exists k :: 0 < k < |parsed| && IsOlder(parsed, k)
  }

  ghost predicate IsOlder(parsed: seq<Parsed>, k: nat)
    requires 0 < k < |parsed|
  {
    || parsed[k].major < parsed[k - 1].major
    || (parsed[k].major == parsed[k - 1].major && parsed[k].minor < parsed[k - 1].minor)
  }

  /** What each refusal says of the minors. */
  ghost predicate IsRefused(texts: seq<string>, refusal: Refusal) {
    match refusal
    case WrongSize => |texts| != WINDOW_SIZE
    case NotAMinor(index) => index < |texts| && !IsMinor(texts[index])
    case NotSorted =>
      exists parsed :: AreRead(texts, parsed) && Falls(parsed)
    case NotConsecutive(index) =>
      exists parsed :: AreRead(texts, parsed) && !Falls(parsed) && 0 < index < |parsed| && !Follows(parsed, index)
  }

  /** The window checks of the manifest: its size, its minors, their order and that none is left out. */
  method ReadWindow(texts: seq<string>) returns (r: Result<seq<Parsed>, Refusal>)
    ensures r.Success? ==> IsWindow(texts, r.value)
    ensures r.Failure? ==> forall parsed :: !IsWindow(texts, parsed)
    ensures r.Failure? ==> IsRefused(texts, r.error)
  {
    if |texts| != WINDOW_SIZE { return Failure(WrongSize); }
    var parsed: seq<Parsed> := [];
    for index := 0 to |texts|
      invariant |parsed| == index && forall k :: 0 <= k < index ==> Reads(texts[k], parsed[k])
    {
      var p := ParseMinor(texts[index]);
      if p.None? {
        assert forall q :: !Reads(texts[index], q);
        return Failure(NotAMinor(index));
      }
      parsed := parsed + [p.value];
    }
    assert AreRead(texts, parsed);
    forall other | IsWindow(texts, other) ensures other == parsed {
      forall k | 0 <= k < |texts| ensures other[k] == parsed[k] {
        ReadsOnce(texts[k], other[k], parsed[k]);
      }
    }
    for index := 1 to |parsed|
      invariant forall k :: 0 < k < index ==> !IsOlder(parsed, k)
    {
      if Before(parsed[index], parsed[index - 1]) {
        assert !Follows(parsed, index) && IsOlder(parsed, index);
        return Failure(NotSorted);
      }
    }
    for index := 1 to |parsed|
      invariant forall k :: 0 < k < index ==> Follows(parsed, k)
    {
      if parsed[index].major != parsed[index - 1].major || parsed[index].minor != parsed[index - 1].minor + 1 {
        assert !Follows(parsed, index);
        return Failure(NotConsecutive(index));
      }
    }
    r := Success(parsed);
  }

  lemma ReadsOnce(text: string, p: Parsed, q: Parsed)
    requires Reads(text, p) && Reads(text, q)
    ensures p == q
  {
    var i: nat :| SplitsAt(text, i) && p == Parsed(text, Value(text[..i]), Value(text[i + 1..]));
    var j: nat :| SplitsAt(text, j) && q == Parsed(text, Value(text[..j]), Value(text[j + 1..]));
    OneDot(text, i, j);
  }

  lemma {:induction false} MinorsCountUp(parsed: seq<Parsed>, k: nat)
    requires Consecutive(parsed) && k < |parsed|
    ensures parsed[k].major == parsed[0].major && parsed[k].minor == parsed[0].minor + k
  {
    if k == 0 {
    } else {
      MinorsCountUp(parsed, k - 1);
      assert Follows(parsed, k);
    }
  }

  // ------------------------------------------------------------------- the range

  /** Section 9 of Semantic Versioning 2.0.0: a prerelease is a list of identifiers. */
  datatype Identifier = Numeric(n: nat) | Alphanumeric(text: string)

  datatype Version = Version(major: nat, minor: nat, patch: nat, prerelease: seq<Identifier>)

  predicate TextBefore(a: string, b: string) {
    b != [] && (a == [] || a[0] < b[0] || (a[0] == b[0] && TextBefore(a[1..], b[1..])))
  }

  predicate IdentifierBefore(a: Identifier, b: Identifier) {
    match a
    case Numeric(m) => (match b case Numeric(n) => m < n case Alphanumeric(_) => true)
    case Alphanumeric(s) => (match b case Numeric(_) => false case Alphanumeric(t) => TextBefore(s, t))
  }

  predicate ListBefore(a: seq<Identifier>, b: seq<Identifier>) {
    b != [] && (a == [] || IdentifierBefore(a[0], b[0]) || (a[0] == b[0] && ListBefore(a[1..], b[1..])))
  }

  /** Precedence, section 11: the numbers first, and a prerelease before its release. */
  predicate Precedes(v: Version, w: Version) {
    || v.major < w.major
    || (v.major == w.major && v.minor < w.minor)
    || (v.major == w.major && v.minor == w.minor && v.patch < w.patch)
    || (v.major == w.major && v.minor == w.minor && v.patch == w.patch &&
        v.prerelease != [] && (w.prerelease == [] || ListBefore(v.prerelease, w.prerelease)))
  }

  /** The prereleases of 1.0.0 in the example section 11 gives, each before the next, and 1.0.0 itself
      after them: alpha, alpha.1, alpha.beta, beta, beta.2, beta.11, rc.1. */
  function Example(k: nat): seq<Identifier>
    requires k <= 7
  {
    match k
    case 0 => [Alphanumeric("alpha")]
    case 1 => [Alphanumeric("alpha"), Numeric(1)]
    case 2 => [Alphanumeric("alpha"), Alphanumeric("beta")]
    case 3 => [Alphanumeric("beta")]
    case 4 => [Alphanumeric("beta"), Numeric(2)]
    case 5 => [Alphanumeric("beta"), Numeric(11)]
    case 6 => [Alphanumeric("rc"), Numeric(1)]
    case _ => []
  }

  predicate InOrder(a: seq<Identifier>, b: seq<Identifier>) {
    ListBefore(a, b) && !ListBefore(b, a)
  }

  /** Lists are told apart behind what they share. */
  lemma SharedHead(i: Identifier, a: seq<Identifier>, b: seq<Identifier>)
    requires InOrder(a, b) && !IdentifierBefore(i, i)
    ensures InOrder([i] + a, [i] + b)
  {
    assert ([i] + a)[1..] == a && ([i] + b)[1..] == b;
  }

  lemma OtherHead(i: Identifier, j: Identifier, a: seq<Identifier>, b: seq<Identifier>)
    requires IdentifierBefore(i, j) && !IdentifierBefore(j, i) && i != j
    ensures InOrder([i] + a, [j] + b)
  {
  }

  lemma ExampleIsInOrder(k: nat)
    requires k < 6
    ensures InOrder(Example(k), Example(k + 1))
  {
    hide ListBefore, InOrder;
    var alpha, beta, rc := Alphanumeric("alpha"), Alphanumeric("beta"), Alphanumeric("rc");
    TextIsNotBeforeItself("alpha");
    TextIsNotBeforeItself("beta");
    if k == 0 {
      ShorterFirst(Numeric(1));
      SharedHead(alpha, [], [Numeric(1)]);
      assert Example(0) == [alpha] + [] && Example(1) == [alpha] + [Numeric(1)];
    } else if k == 1 {
      OtherHead(Numeric(1), beta, [], []);
      assert [Numeric(1)] + [] == [Numeric(1)] && [beta] + [] == [beta];
      SharedHead(alpha, [Numeric(1)], [beta]);
      assert Example(1) == [alpha] + [Numeric(1)] && Example(2) == [alpha] + [beta];
    } else if k == 2 {
      OtherHead(alpha, beta, [beta], []);
      assert Example(2) == [alpha] + [beta] && Example(3) == [beta] + [];
    } else if k == 3 {
      ShorterFirst(Numeric(2));
      SharedHead(beta, [], [Numeric(2)]);
      assert Example(3) == [beta] + [] && Example(4) == [beta] + [Numeric(2)];
    } else if k == 4 {
      OtherHead(Numeric(2), Numeric(11), [], []);
      assert [Numeric(2)] + [] == [Numeric(2)] && [Numeric(11)] + [] == [Numeric(11)];
      SharedHead(beta, [Numeric(2)], [Numeric(11)]);
      assert Example(4) == [beta] + [Numeric(2)] && Example(5) == [beta] + [Numeric(11)];
    } else {
      OtherHead(beta, rc, [Numeric(11)], [Numeric(1)]);
      assert Example(5) == [beta] + [Numeric(11)] && Example(6) == [rc] + [Numeric(1)];
    }
  }

  lemma ShorterFirst(i: Identifier)
    ensures InOrder([], [i])
  {
  }

  lemma PrecedesAsInSection11(k: nat)
    requires k < 7
    ensures Precedes(Version(1, 0, 0, Example(k)), Version(1, 0, 0, Example(k + 1)))
    ensures !Precedes(Version(1, 0, 0, Example(k + 1)), Version(1, 0, 0, Example(k)))
  {
    hide ListBefore;
    if k < 6 {
      ExampleIsInOrder(k);
    }
  }

  /** A later patch, minor or major comes after, whatever prereleases the versions are. */
  lemma NumbersComeFirst(v: Version, w: Version)
    requires (v.major, v.minor, v.patch) != (w.major, w.minor, w.patch)
    ensures Precedes(v, w) <==>
      if v.major != w.major then v.major < w.major else if v.minor != w.minor then v.minor < w.minor else v.patch < w.patch
  {
  }

  lemma {:induction false} TextIsNotBeforeItself(a: string)
    ensures !TextBefore(a, a)
  {
    if a == [] {
    } else {
      TextIsNotBeforeItself(a[1..]);
    }
  }

  datatype Range = Range(from: Version, before: Version) {
    predicate Admits(v: Version) { !Precedes(v, from) && Precedes(v, before) }
  }

  /** The first version a minor can have: patch zero and prerelease 0. */
  function FirstOf(major: nat, minor: nat): Version {
    Version(major, minor, 0, [Numeric(0)])
  }

  function HelmRange(parsed: seq<Parsed>): Range
    requires parsed != []
  {
    var oldest, newest := parsed[0], parsed[|parsed| - 1];
    Range(FirstOf(oldest.major, oldest.minor), FirstOf(newest.major, newest.minor + 1))
  }

  /** Nothing of a minor, no prerelease of it either, comes before its first version. */
  lemma FirstIsLeast(v: Version, major: nat, minor: nat)
    ensures Precedes(v, FirstOf(major, minor)) <==> v.major < major || (v.major == major && v.minor < minor)
  {
    if v.prerelease != [] && ListBefore(v.prerelease, [Numeric(0)]) {
      assert ListBefore(v.prerelease[1..], [Numeric(0)][1..]);
    }
  }

  /** The range admits a version, prereleases included, exactly when its minor is one of the window's. */
  lemma RangeIsWindow(texts: seq<string>, parsed: seq<Parsed>, v: Version)
    requires IsWindow(texts, parsed)
    ensures HelmRange(parsed).Admits(v) <==>
      exists k :: 0 <= k < |parsed| && v.major == parsed[k].major && v.minor == parsed[k].minor
  {
    hide Precedes, Reads;
    var n := |parsed|;
    FirstIsLeast(v, parsed[0].major, parsed[0].minor);
    FirstIsLeast(v, parsed[n - 1].major, parsed[n - 1].minor + 1);
    MinorsCountUp(parsed, n - 1);
    if HelmRange(parsed).Admits(v) {
      var k := v.minor - parsed[0].minor;
      MinorsCountUp(parsed, k);
    }
    if exists k :: 0 <= k < |parsed| && v.major == parsed[k].major && v.minor == parsed[k].minor {
      var k :| 0 <= k < |parsed| && v.major == parsed[k].major && v.minor == parsed[k].minor;
      MinorsCountUp(parsed, k);
    }
  }

  // ------------------------------------------------------------- matrix entries

  /** strings.ReplaceAll(text, ".", "-") */
  function Slug(text: string): (slug: string)
    ensures |slug| == |text| && '.' !in slug
    ensures forall k :: 0 <= k < |text| && text[k] != '.' ==> slug[k] == text[k]
    ensures forall k :: 0 <= k < |text| && text[k] == '.' ==> slug[k] == '-'
  {
    seq(|text|, k requires 0 <= k < |text| => if text[k] == '.' then '-' else text[k])
  }

  /** A release of the manifest: its minor as it is parsed, its patch and the image it runs on. */
  datatype Release = Release(minor: Parsed, patch: nat, nodeImage: string)

  function MinorEntry(r: Release, kind: string): Entry {
    var version := Itoa(r.minor.major) + "." + Itoa(r.minor.minor) + "." + Itoa(r.patch);
    Entry(r.minor.text, Slug(r.minor.text), version, r.nodeImage, kind, "", "", "", "", "")
  }

  function Minors(releases: seq<Release>): (parsed: seq<Parsed>)
    ensures |parsed| == |releases|
  {
    seq(|releases|, k requires 0 <= k < |releases| => releases[k].minor)
  }

  /** The entries of a window, whatever versions and images they carry. */
  ghost predicate AreMinors(parsed: seq<Parsed>, minors: seq<Entry>) {
    && |minors| == |parsed|
    && forall k :: 0 <= k < |minors| ==> minors[k].minor == parsed[k].text && minors[k].minorSlug == Slug(parsed[k].text)
  }

  /** The entries of the minors of a window, before any suite is given to them. */
  method MinorEntries(ghost texts: seq<string>, releases: seq<Release>, kind: string) returns (minors: seq<Entry>)
    requires IsWindow(texts, Minors(releases))
    ensures AreMinors(Minors(releases), minors)
    ensures forall k :: 0 <= k < |minors| ==> minors[k] == MinorEntry(releases[k], kind)
    ensures DistinctMinors(minors) && DistinctSlugs(minors)
  {
    hide IsWindow, DistinctMinors, DistinctSlugs;
    minors := [];
    for k := 0 to |releases|
      invariant |minors| == k && forall i :: 0 <= i < k ==> minors[i] == MinorEntry(releases[i], kind)
    {
      minors := minors + [MinorEntry(releases[k], kind)];
    }
    WindowIsDistinct(texts, Minors(releases), minors);
  }

  lemma MinorHasNoDash(text: string)
    requires IsMinor(text)
    ensures '-' !in text
  {
    var dot: nat :| SplitsAt(text, dot);
    assert text == text[..dot] + ['.'] + text[dot + 1..];
  }

  lemma SlugInjective(a: string, b: string)
    requires '-' !in a && '-' !in b && Slug(a) == Slug(b)
    ensures a == b
  {
    forall k | 0 <= k < |a| ensures a[k] == b[k] {
      assert Slug(a)[k] == Slug(b)[k];
    }
  }

  ghost predicate DistinctSlugs(minors: seq<Entry>) {
    forall i, j :: 0 <= i < j < |minors| ==> minors[i].minorSlug != minors[j].minorSlug
  }

  /** The minors of a window have names and slugs of their own. */
  lemma WindowIsDistinct(texts: seq<string>, parsed: seq<Parsed>, minors: seq<Entry>)
    requires IsWindow(texts, parsed) && AreMinors(parsed, minors)
    ensures DistinctMinors(minors) && DistinctSlugs(minors)
  {
    hide Slug;
    forall i, j | 0 <= i < j < |minors|
      ensures minors[i].minor != minors[j].minor && minors[i].minorSlug != minors[j].minorSlug
    {
      MinorsCountUp(parsed, i);
      MinorsCountUp(parsed, j);
      assert Reads(texts[i], parsed[i]) && Reads(texts[j], parsed[j]);
      if parsed[i].text == parsed[j].text {
        ReadsOnce(texts[i], parsed[i], parsed[j]);
      }
      MinorHasNoDash(parsed[i].text);
      MinorHasNoDash(parsed[j].text);
      if minors[i].minorSlug == minors[j].minorSlug {
        SlugInjective(parsed[i].text, parsed[j].text);
      }
    }
  }
}
