/** The sliding-window API demand bound of hack/capacity/api_demand.go.

Several managers' request counters are scraped at uncertain instants: a reading
happened somewhere between its two bounds. Time and counters are reals, the zero
time is 0.0, and a map is walked in an arbitrary order, as Go walks it.
 */
module ApiDemand {
  import opened Results

  const WIDTH: real := 60.0
  const SOURCE_MANAGERS := "manager-metrics"

  datatype Reading = Reading(total: real, startedAt: real, finishedAt: real)

  datatype ProcessIdentity = ProcessIdentity(
    podUID: string, containerID: string, containerStartedAt: real, processStartedAt: real, restartCount: int)
  {
    predicate Complete() {
      podUID != "" && containerID != "" && containerStartedAt != 0.0 && processStartedAt > 0.0
    }
  }

  datatype Manager = Manager(apiRequests: Option<Reading>, identity: ProcessIdentity)

  datatype Sample = Sample(at: real, incomplete: seq<string>, managers: map<string, Manager>)

  datatype Window = Window(start: real, end: real)

  datatype Bound = Bound(
    startFrom: real, startThrough: real, counterFrom: real, counterThrough: real,
    requests: real, perSecondUpper: real)

  datatype Demand = Demand(windows: seq<Bound>, maxPerSecondUpper: real)

  datatype Problem =
    | TooFewSamples
    | IncompleteMetrics(sample: nat)
    | NoIdentity(sample: nat, name: string)
    | NonIncreasingTime(sample: nat)
    | LostManager(sample: nat, name: string)
    | ChangedIdentity(sample: nat, name: string)
    | AddedManager(sample: nat, name: string)

  datatype Refusal =
    | NoCompleteWindow
    | NotBracketed
    | NotContinuous(problems: seq<Problem>)
    | InvalidCounter(sample: nat)
    | LostCounters(sample: nat, name: string)
    | LastWindowUncovered
    | NothingMeasured

  // ---------------------------------------------------------------- readings

  predicate CounterContinues(before: real, after: real) {
    0.0 <= before <= after
  }

  predicate ValidReading(m: Manager) {
    && m.apiRequests.Some?
    && m.apiRequests.value.startedAt != 0.0
    && m.apiRequests.value.startedAt <= m.apiRequests.value.finishedAt
    && CounterContinues(0.0, m.apiRequests.value.total)
  }

  ghost predicate ValidReadings(s: Sample) {
    s.managers != map[] && forall name :: name in s.managers ==> ValidReading(s.managers[name])
  }

  /** The earliest start of any scrape in the sample. */
  ghost predicate IsFirst(s: Sample, first: real)
    requires ValidReadings(s)
  {
    && (exists name :: name in s.managers && s.managers[name].apiRequests.value.startedAt == first)
    && (forall name :: name in s.managers ==> first <= s.managers[name].apiRequests.value.startedAt)
  }

  /** The latest finish of any scrape in the sample. The search starts from the zero
      time, so finishes that all lie before it leave the zero time itself. */
  ghost predicate IsLast(s: Sample, last: real)
    requires ValidReadings(s)
  {
    && (last == 0.0 || exists name :: name in s.managers && s.managers[name].apiRequests.value.finishedAt == last)
    && 0.0 <= last
    && (forall name :: name in s.managers ==> s.managers[name].apiRequests.value.finishedAt <= last)
  }

  lemma BoundsExist(s: Sample)
    requires ValidReadings(s)
    ensures exists first :: IsFirst(s, first)
    ensures exists last :: IsLast(s, last)
  {
    var name :| name in s.managers;
    var first := s.managers[name].apiRequests.value.startedAt;
    var last := 0.0;
    var rest := s.managers.Keys;
    while rest != {}
      invariant rest <= s.managers.Keys
      invariant exists n :: n in s.managers && s.managers[n].apiRequests.value.startedAt == first
      invariant forall n :: n in s.managers.Keys - rest ==> first <= s.managers[n].apiRequests.value.startedAt
      invariant 0.0 <= last
      invariant last == 0.0 || exists n :: n in s.managers && s.managers[n].apiRequests.value.finishedAt == last
      invariant forall n :: n in s.managers.Keys - rest ==> s.managers[n].apiRequests.value.finishedAt <= last
    {
      var n :| n in rest;
      var r := s.managers[n].apiRequests.value;
      first := if r.startedAt < first then r.startedAt else first;
      last := if last < r.finishedAt then r.finishedAt else last;
      rest := rest - {n};
    }
    assert IsFirst(s, first) && IsLast(s, last);
  }

  ghost function First(s: Sample): real
    requires ValidReadings(s)
  {
    BoundsExist(s);
    var first :| IsFirst(s, first);
    first
  }

  ghost function Last(s: Sample): real
    requires ValidReadings(s)
  {
    BoundsExist(s);
    var last :| IsLast(s, last);
    last
  }

  lemma BoundsMean(s: Sample)
    requires ValidReadings(s)
    ensures IsFirst(s, First(s)) && IsLast(s, Last(s))
  {
    BoundsExist(s);
  }

  method RequestReadBounds(s: Sample) returns (first: real, last: real, valid: bool)
    ensures valid <==> ValidReadings(s)
    ensures valid ==> first == First(s) && last == Last(s)
  {
    first, last := 0.0, 0.0;
    if |s.managers| == 0 {
      assert s.managers == map[];
      return first, last, false;
    }
    var rest := s.managers.Keys;
    while rest != {}
      invariant rest <= s.managers.Keys
      invariant forall name :: name in s.managers.Keys - rest ==> ValidReading(s.managers[name])
      invariant first == 0.0 <==> rest == s.managers.Keys
      invariant rest != s.managers.Keys ==>
        exists name :: name in s.managers.Keys - rest && s.managers[name].apiRequests.value.startedAt == first
      invariant forall name :: name in s.managers.Keys - rest ==> first <= s.managers[name].apiRequests.value.startedAt
      invariant 0.0 <= last
      invariant last == 0.0 ||
        exists name :: name in s.managers.Keys - rest && s.managers[name].apiRequests.value.finishedAt == last
      invariant forall name :: name in s.managers.Keys - rest ==> s.managers[name].apiRequests.value.finishedAt <= last
    {
      var name :| name in rest;
      if !ValidReading(s.managers[name]) {
        return first, last, false;
      }
      var r := s.managers[name].apiRequests.value;
      if first == 0.0 || r.startedAt < first {
        first := r.startedAt;
      }
      if last < r.finishedAt {
        last := r.finishedAt;
      }
      ghost var seen := s.managers.Keys - rest;
      rest := rest - {name};
      assert s.managers.Keys - rest == seen + {name};
    }
    BoundsMean(s);
    valid := true;
  }

  // -------------------------------------------------------------- bracketing

  /** The last sample whose scrapes all finished by the scenario's start, or -1. */
  ghost predicate IsFrom(w: Window, samples: seq<Sample>, from: int) {
    && -1 <= from < |samples|
    && (0 <= from ==> ValidReadings(samples[from]) && Last(samples[from]) <= w.start)
    && (forall k :: from < k < |samples| && ValidReadings(samples[k]) ==> w.start < Last(samples[k]))
  }

  /** The first sample whose scrapes all started at or after the scenario's end, or -1. */
  ghost predicate IsThrough(w: Window, samples: seq<Sample>, through: int) {
    && -1 <= through < |samples|
    && (0 <= through ==> ValidReadings(samples[through]) && w.end <= First(samples[through]))
    && (forall k :: 0 <= k < (if through < 0 then |samples| else through) && ValidReadings(samples[k]) ==>
          First(samples[k]) < w.end)
  }

  method FindBracket(w: Window, samples: seq<Sample>) returns (from: int, through: int)
    ensures IsFrom(w, samples, from) && IsThrough(w, samples, through)
  {
    from, through := -1, -1;
    for i := 0 to |samples|
      invariant -1 <= from < i || from == -1
      invariant 0 <= from ==> ValidReadings(samples[from]) && Last(samples[from]) <= w.start
      invariant forall k :: from < k < i && ValidReadings(samples[k]) ==> w.start < Last(samples[k])
      invariant -1 <= through < i || through == -1
      invariant 0 <= through ==> ValidReadings(samples[through]) && w.end <= First(samples[through])
      invariant forall k :: 0 <= k < (if through < 0 then i else through) && ValidReadings(samples[k]) ==>
          First(samples[k]) < w.end
    {
      var _, last, finished := RequestReadBounds(samples[i]);
      if finished && last <= w.start {
        from := i;
      }
      var first, _, started := RequestReadBounds(samples[i]);
      if started && w.end <= first && through == -1 {
        through := i;
      }
    }
  }

  // -------------------------------------------------------------- continuity

  ghost predicate CompleteAt(samples: seq<Sample>, i: nat)
    requires i < |samples|
  {
    && samples[i].managers != map[]
    && SOURCE_MANAGERS !in samples[i].incomplete
    && forall name :: name in samples[i].managers ==> samples[i].managers[name].identity.Complete()
  }

  ghost predicate ContinuesAt(samples: seq<Sample>, i: nat)
    requires 0 < i < |samples|
  {
    && samples[i - 1].at < samples[i].at
    && samples[i - 1].managers.Keys == samples[i].managers.Keys
    && forall name :: name in samples[i].managers && name in samples[i - 1].managers ==>
         samples[i].managers[name].identity == samples[i - 1].managers[name].identity
  }

  /** One population of identified processes, seen whole in every sample. */
  ghost predicate ProcessContinuity(samples: seq<Sample>) {
    && 2 <= |samples|
    && (forall i :: 0 <= i < |samples| ==> CompleteAt(samples, i))
    && (forall i :: 0 < i < |samples| ==> ContinuesAt(samples, i))
  }

  /** What each problem says of one sample beside its predecessor. */
  ghost predicate IsProblemAt(samples: seq<Sample>, i: nat, p: Problem)
    requires i < |samples|
  {
    match p
    case TooFewSamples => false
    case IncompleteMetrics(sample) =>
      sample == i && (samples[i].managers == map[] || SOURCE_MANAGERS in samples[i].incomplete)
    case NoIdentity(sample, name) => sample == i && IsUnidentified(samples, i, name)
    case NonIncreasingTime(sample) => sample == i && 0 < i && samples[i].at <= samples[i - 1].at
    case LostManager(sample, name) => sample == i && 0 < i && IsLost(samples, i, name)
    case ChangedIdentity(sample, name) => sample == i && 0 < i && IsChanged(samples, i, name)
    case AddedManager(sample, name) => sample == i && 0 < i && IsAdded(samples, i, name)
  }

  /** The problems of the samples: the sample each names has it. */
  ghost predicate IsProblem(samples: seq<Sample>, p: Problem) {
    if |samples| < 2 then p == TooFewSamples
    else p != TooFewSamples && p.sample < |samples| && IsProblemAt(samples, p.sample, p)
  }

  ghost predicate IsUnidentified(samples: seq<Sample>, i: nat, name: string)
    requires i < |samples|
  {
    name in samples[i].managers && !samples[i].managers[name].identity.Complete()
  }

  ghost predicate IsLost(samples: seq<Sample>, i: nat, name: string)
    requires 0 < i < |samples|
  {
    name in samples[i - 1].managers && name !in samples[i].managers
  }

  ghost predicate IsAdded(samples: seq<Sample>, i: nat, name: string)
    requires 0 < i < |samples|
  {
    name in samples[i].managers && name !in samples[i - 1].managers
  }

  ghost predicate IsChanged(samples: seq<Sample>, i: nat, name: string)
    requires 0 < i < |samples|
  {
    && name in samples[i - 1].managers && name in samples[i].managers
    && samples[i - 1].managers[name].identity.Complete() && samples[i].managers[name].identity.Complete()
    && samples[i - 1].managers[name].identity != samples[i].managers[name].identity
  }

  /** Managers the sample lost, or whose process changed, since its predecessor. */
  method LostOrChanged(samples: seq<Sample>, i: nat) returns (problems: seq<Problem>)
    requires 0 < i < |samples|
    ensures problems == [] <==> forall name :: name in samples[i - 1].managers ==> Kept(samples, i, name)
    ensures forall p :: p in problems <==> (p.LostManager? || p.ChangedIdentity?) && IsProblemAt(samples, i, p)
  {
    problems := [];
    var earlier, s := samples[i - 1], samples[i];
    var rest := earlier.managers.Keys;
    while rest != {}
      invariant rest <= earlier.managers.Keys
      invariant problems == [] <==> forall name :: name in earlier.managers.Keys - rest ==> Kept(samples, i, name)
      invariant forall p :: p in problems <==>
        (p.LostManager? || p.ChangedIdentity?) && IsProblemAt(samples, i, p) && p.name !in rest
    {
      var name :| name in rest;
      ghost var seen := earlier.managers.Keys - rest;
      if name !in s.managers {
        problems := problems + [LostManager(i, name)];
      } else {
        var known := IsIdentified(earlier.managers[name].identity);
        var identified := IsIdentified(s.managers[name].identity);
        if known && identified && earlier.managers[name].identity != s.managers[name].identity {
          problems := problems + [ChangedIdentity(i, name)];
        }
      }
      rest := rest - {name};
      assert earlier.managers.Keys - rest == seen + {name};
    }
  }

  ghost predicate Kept(samples: seq<Sample>, i: nat, name: string)
    requires 0 < i < |samples| && name in samples[i - 1].managers
  {
    && name in samples[i].managers
    && (samples[i - 1].managers[name].identity.Complete() && samples[i].managers[name].identity.Complete() ==>
          samples[i - 1].managers[name].identity == samples[i].managers[name].identity)
  }

  /** Managers the sample has and its predecessor had not. */
  method Added(samples: seq<Sample>, i: nat) returns (problems: seq<Problem>)
    requires 0 < i < |samples|
    ensures problems == [] <==> samples[i].managers.Keys <= samples[i - 1].managers.Keys
    ensures forall p :: p in problems <==> p.AddedManager? && IsProblemAt(samples, i, p)
  {
    problems := [];
    var rest := samples[i].managers.Keys;
    while rest != {}
      invariant rest <= samples[i].managers.Keys
      invariant problems == [] <==> samples[i].managers.Keys - rest <= samples[i - 1].managers.Keys
      invariant forall p :: p in problems <==> p.AddedManager? && IsProblemAt(samples, i, p) && p.name !in rest
    {
      var name :| name in rest;
      ghost var seen := samples[i].managers.Keys - rest;
      if name !in samples[i - 1].managers {
        problems := problems + [AddedManager(i, name)];
      }
      rest := rest - {name};
      assert samples[i].managers.Keys - rest == seen + {name};
    }
  }

  /** Whether a manager's process is identified, as it is asked of each reading. */
  method IsIdentified(id: ProcessIdentity) returns (complete: bool)
    ensures complete <==> id.Complete()
  {
    complete := id.podUID != "" && id.containerID != "" && id.containerStartedAt != 0.0 && 0.0 < id.processStartedAt;
  }

  method Unidentified(samples: seq<Sample>, i: nat) returns (problems: seq<Problem>)
    requires i < |samples|
    ensures problems == [] <==>
      forall name :: name in samples[i].managers ==> samples[i].managers[name].identity.Complete()
    ensures forall p :: p in problems <==> p.NoIdentity? && IsProblemAt(samples, i, p)
  {
    problems := [];
    var managers := samples[i].managers;
    var rest := managers.Keys;
    while rest != {}
      invariant rest <= managers.Keys
      invariant problems == [] <==> forall name :: name in managers.Keys - rest ==> managers[name].identity.Complete()
      invariant forall p :: p in problems <==> p.NoIdentity? && IsProblemAt(samples, i, p) && p.name !in rest
    {
      var name :| name in rest;
      ghost var seen := managers.Keys - rest;
      var complete := IsIdentified(managers[name].identity);
      if !complete {
        problems := problems + [NoIdentity(i, name)];
      }
      rest := rest - {name};
      assert managers.Keys - rest == seen + {name};
    }
  }

  /** The problems of one sample beside its predecessor. */
  method SampleProblems(samples: seq<Sample>, i: nat) returns (problems: seq<Problem>)
    requires i < |samples|
    ensures problems == [] ==> CompleteAt(samples, i)
    ensures i == 0 ==> (problems == [] <==> CompleteAt(samples, i))
    ensures 0 < i && CompleteAt(samples, i - 1) ==>
      (problems == [] <==> CompleteAt(samples, i) && ContinuesAt(samples, i))
    ensures forall p :: p in problems <==> IsProblemAt(samples, i, p)
  {
    problems := [];
    var s := samples[i];
    assert |s.managers| == 0 <==> s.managers == map[];
    if |s.managers| == 0 || SOURCE_MANAGERS in s.incomplete {
      problems := [IncompleteMetrics(i)];
    }
    var unidentified := Unidentified(samples, i);
    problems := problems + unidentified;
    assert problems == [] <==> CompleteAt(samples, i);
    if i == 0 {
      return;
    }
    if s.at <= samples[i - 1].at {
      problems := problems + [NonIncreasingTime(i)];
    }
    var lost := LostOrChanged(samples, i);
    var added := Added(samples, i);
    problems := problems + lost + added;
    if CompleteAt(samples, i - 1) && CompleteAt(samples, i) {
      KeptMeansContinued(samples, i);
    }
  }

  lemma KeptMeansContinued(samples: seq<Sample>, i: nat)
    requires 0 < i < |samples|
    requires CompleteAt(samples, i - 1) && CompleteAt(samples, i)
    ensures ContinuesAt(samples, i) <==>
      && samples[i - 1].at < samples[i].at
      && (forall name :: name in samples[i - 1].managers ==> Kept(samples, i, name))
      && samples[i].managers.Keys <= samples[i - 1].managers.Keys
  {
    if forall name :: name in samples[i - 1].managers ==> Kept(samples, i, name) {
      forall name | name in samples[i - 1].managers.Keys ensures name in samples[i].managers.Keys {
        assert Kept(samples, i, name);
      }
      if samples[i].managers.Keys <= samples[i - 1].managers.Keys {
        assert samples[i - 1].managers.Keys == samples[i].managers.Keys;
        forall name | name in samples[i].managers
          ensures samples[i].managers[name].identity == samples[i - 1].managers[name].identity
        {
          assert name in samples[i - 1].managers.Keys;
          assert Kept(samples, i, name);
        }
      }
    }
  }

  method ManagerProcessContinuity(samples: seq<Sample>) returns (problems: seq<Problem>)
    ensures problems == [] <==> ProcessContinuity(samples)
    ensures forall p :: p in problems <==> IsProblem(samples, p)
  {
    if |samples| < 2 {
      return [TooFewSamples];
    }
    problems := [];
    for i := 0 to |samples|
      invariant problems == [] <==>
        && (forall k :: 0 <= k < i ==> CompleteAt(samples, k))
        && (forall k :: 0 < k < i ==> ContinuesAt(samples, k))
      invariant forall p :: p in problems <==> p != TooFewSamples && p.sample < i && IsProblemAt(samples, p.sample, p)
    {
      hide CompleteAt, ContinuesAt;
      var more := SampleProblems(samples, i);
      problems := problems + more;
    }
  }

  // ---------------------------------------------------------------- counters

  ghost predicate CounterKept(before: Manager, after: Manager)
    requires ValidReading(before) && ValidReading(after)
  {
    && before.apiRequests.value.finishedAt < after.apiRequests.value.startedAt
    && CounterContinues(before.apiRequests.value.total, after.apiRequests.value.total)
  }

  ghost predicate AllValid(inside: seq<Sample>) {
    forall i :: 0 <= i < |inside| ==> ValidReadings(inside[i])
  }

  ghost predicate SamePopulation(inside: seq<Sample>) {
    forall i :: 0 <= i < |inside| ==> inside[i].managers.Keys == inside[0].managers.Keys
  }

  ghost predicate PairKept(before: Sample, after: Sample)
    requires ValidReadings(before) && ValidReadings(after)
  {
    forall name :: name in after.managers && name in before.managers ==>
      CounterKept(before.managers[name], after.managers[name])
  }

  /** Each manager's scrapes follow one another and its counter never falls. */
  ghost predicate Loses(before: Sample, after: Sample, name: string) {
    && ValidReadings(before) && ValidReadings(after)
    && name in before.managers && name in after.managers
    && !CounterKept(before.managers[name], after.managers[name])
  }

  /** What each refusal of the bracketed samples says of them. */
  ghost predicate IsRefused(inside: seq<Sample>, refusal: Refusal) {
    match refusal
    case NotContinuous(problems) => problems != [] && forall p :: p in problems <==> IsProblem(inside, p)
    case InvalidCounter(i) => i < |inside| && !ValidReadings(inside[i])
    case LostCounters(i, name) => 0 < i < |inside| && Loses(inside[i - 1], inside[i], name)
    case _ => false
  }

  ghost predicate CountersKept(inside: seq<Sample>)
    requires AllValid(inside)
  {
    forall i :: 0 < i < |inside| ==> KeptAt(inside, i)
  }

  ghost predicate KeptAt(inside: seq<Sample>, i: nat)
    requires 0 < i < |inside| && ValidReadings(inside[i - 1]) && ValidReadings(inside[i])
  {
    PairKept(inside[i - 1], inside[i])
  }

  lemma ContinuityKeepsPopulation(inside: seq<Sample>, i: nat)
    requires ProcessContinuity(inside) && i < |inside|
    ensures inside[i].managers.Keys == inside[0].managers.Keys
  {
    if i == 0 {
    } else {
      ContinuityKeepsPopulation(inside, i - 1);
      assert ContinuesAt(inside, i);
    }
  }

  method CheckPair(before: Sample, after: Sample) returns (lost: Option<string>)
    requires ValidReadings(before) && ValidReadings(after)
    requires before.managers.Keys == after.managers.Keys
    ensures lost.None? <==> PairKept(before, after)
    ensures lost.Some? ==> Loses(before, after, lost.value)
  {
    var rest := after.managers.Keys;
    while rest != {}
      invariant rest <= after.managers.Keys
      invariant forall name :: name in after.managers.Keys - rest ==>
        CounterKept(before.managers[name], after.managers[name])
    {
      var name :| name in rest;
      assert name in before.managers.Keys;
      var earlier := before.managers[name].apiRequests.value;
      var later := after.managers[name].apiRequests.value;
      if later.startedAt <= earlier.finishedAt || !CounterContinues(earlier.total, later.total) {
        assert !CounterKept(before.managers[name], after.managers[name]);
        return Some(name);
      }
      rest := rest - {name};
    }
    lost := None;
  }

  /** What the windows are measured from: a sample's read bounds and its counters. */
  datatype Span = Span(first: real, last: real, totals: map<string, real>)

  function Totals(s: Sample): map<string, real> {
    map name | name in s.managers && s.managers[name].apiRequests.Some? :: s.managers[name].apiRequests.value.total
  }

  ghost predicate IsSpan(s: Sample, span: Span) {
    && ValidReadings(s)
    && span == Span(First(s), Last(s), Totals(s))
  }

  ghost predicate AreSpans(inside: seq<Sample>, spans: seq<Span>) {
    |spans| == |inside| && forall i :: 0 <= i < |inside| ==> IsSpan(inside[i], spans[i])
  }

  method ReadSpans(inside: seq<Sample>) returns (spans: seq<Span>)
    requires AllValid(inside)
    ensures AreSpans(inside, spans)
  {
    spans := [];
    for i := 0 to |inside|
      invariant |spans| == i && forall k :: 0 <= k < i ==> IsSpan(inside[k], spans[k])
    {
      var first, last, _ := RequestReadBounds(inside[i]);
      spans := spans + [Span(first, last, Totals(inside[i]))];
    }
  }

  method CheckCounters(inside: seq<Sample>) returns (refusal: Option<Refusal>)
    requires SamePopulation(inside)
    ensures refusal.None? <==> AllValid(inside) && CountersKept(inside)
    ensures refusal.Some? ==> IsRefused(inside, refusal.value)
  {
    hide ValidReadings, PairKept, Loses;
    for i := 0 to |inside|
      invariant forall k :: 0 <= k < i ==> ValidReadings(inside[k])
      invariant forall k :: 0 < k < i ==> KeptAt(inside, k)
    {
      var _, _, valid := RequestReadBounds(inside[i]);
      if !valid {
        return Some(InvalidCounter(i));
      }
      if 0 < i {
        var lost := CheckPair(inside[i - 1], inside[i]);
        if lost.Some? {
          assert !KeptAt(inside, i);
          return Some(LostCounters(i, lost.value));
        }
      }
    }
    refusal := None;
  }

  lemma LastRises(inside: seq<Sample>, k: nat)
    requires 0 < k < |inside| && AllValid(inside) && SamePopulation(inside) && CountersKept(inside)
    ensures Last(inside[k - 1]) <= Last(inside[k])
  {
    assert KeptAt(inside, k);
    BoundsMean(inside[k - 1]);
    BoundsMean(inside[k]);
    if Last(inside[k - 1]) != 0.0 {
      var name :| name in inside[k - 1].managers &&
        inside[k - 1].managers[name].apiRequests.value.finishedAt == Last(inside[k - 1]);
      assert name in inside[k].managers.Keys;
      assert CounterKept(inside[k - 1].managers[name], inside[k].managers[name]);
    }
  }

  lemma FirstBeforeLast(s: Sample)
    requires ValidReadings(s)
    ensures First(s) <= Last(s)
  {
    BoundsMean(s);
    var name :| name in s.managers && s.managers[name].apiRequests.value.startedAt == First(s);
    assert ValidReading(s.managers[name]);
  }

  // -------------------------------------------------------------- sums by name

  ghost function Sum(m: map<string, real>): real {
    if m == map[] then 0.0 else
      var name :| name in m;
      m[name] + Sum(m - {name})
  }

  lemma {:induction false} SumSplit(m: map<string, real>, name: string)
    requires name in m
    ensures Sum(m) == m[name] + Sum(m - {name})
    decreases |m|
  {
    var picked :| picked in m && Sum(m) == m[picked] + Sum(m - {picked});
    if picked == name {
    } else {
      SumSplit(m - {picked}, name);
      SumSplit(m - {name}, picked);
      assert m - {picked} - {name} == m - {name} - {picked};
    }
  }

  lemma {:induction false} SumMonotone(m: map<string, real>, n: map<string, real>)
    requires m.Keys == n.Keys
    requires forall name :: name in m ==> m[name] <= n[name]
    ensures Sum(m) <= Sum(n)
    decreases |m|
  {
    if m == map[] {
      assert n == map[] by { assert n.Keys == {}; }
    } else {
      var name :| name in m;
      SumSplit(m, name);
      SumSplit(n, name);
      SumMonotone(m - {name}, n - {name});
    }
  }

  /** What each manager's counter moved between two samples. */
  ghost function Deltas(before: map<string, real>, after: map<string, real>): map<string, real> {
    map name | name in before && name in after :: after[name] - before[name]
  }

  method SumRequests(before: map<string, real>, after: map<string, real>) returns (requests: real)
    requires before.Keys <= after.Keys
    ensures requests == Sum(Deltas(before, after))
  {
    requests := 0.0;
    ghost var left := Deltas(before, after);
    var rest := before.Keys;
    while rest != {}
      invariant rest <= before.Keys && left.Keys == rest
      invariant forall name :: name in left ==> left[name] == after[name] - before[name]
      invariant requests + Sum(left) == Sum(Deltas(before, after))
    {
      var name :| name in rest;
      SumSplit(left, name);
      requests := requests + after[name] - before[name];
      rest, left := rest - {name}, left - {name};
    }
    assert left == map[];
  }

  // ------------------------------------------------------------------ windows

  /** What the checks establish about the samples between from and through. */
  ghost predicate Bracketed(w: Window, spans: seq<Span>) {
    && WIDTH <= w.end - w.start
    && 2 <= |spans|
    && spans[0].last <= w.start
    && w.end <= spans[|spans| - 1].first <= spans[|spans| - 1].last
    && (forall k :: 0 < k < |spans| ==> w.start < spans[k].last)
    && (forall k :: 0 < k < |spans| ==> RisesAt(spans, k))
    && (forall k :: 0 <= k < |spans| ==> spans[k].totals.Keys == spans[0].totals.Keys)
  }

  ghost predicate RisesAt(spans: seq<Span>, k: nat)
    requires 0 < k < |spans|
  {
    spans[k - 1].last <= spans[k].last
  }

  function Min(x: real, y: real): real { if y < x then y else x }
  function Max(x: real, y: real): real { if x < y then y else x }

  /** The first sample from i on whose scrapes all began at end or later, or one past the last. */
  ghost function StartedBy(spans: seq<Span>, i: nat, end: real): nat
    requires i <= |spans|
    decreases |spans| - i
  {
    if i == |spans| || end <= spans[i].first then i else StartedBy(spans, i + 1, end)
  }

  lemma {:induction false} StartedByIsFirst(spans: seq<Span>, i: nat, end: real)
    requires i <= |spans|
    ensures i <= StartedBy(spans, i, end) <= |spans|
    ensures forall l :: i <= l < StartedBy(spans, i, end) ==> spans[l].first < end
    ensures StartedBy(spans, i, end) < |spans| ==> end <= spans[StartedBy(spans, i, end)].first
    decreases |spans| - i
  {
    if i == |spans| || end <= spans[i].first {
    } else {
      StartedByIsFirst(spans, i + 1, end);
    }
  }

  /** Window k runs from one sample's latest finish to the next one's, cut to the starts a
      60-second window of the scenario can have, and its counters span from sample k to the
      first later sample whose scrapes all began after the window's latest end. */
  ghost predicate IsBound(w: Window, spans: seq<Span>, k: nat, b: Bound)
    requires k + 1 < |spans|
  {
    var j := StartedBy(spans, k + 1, b.startThrough + WIDTH);
    && k < j < |spans|
    && b.startFrom == Max(spans[k].last, w.start)
    && b.startThrough == Min(spans[k + 1].last, w.end - WIDTH)
    && b.counterFrom == spans[k].first
    && b.counterThrough == spans[j].last
    && b.requests == Sum(Deltas(spans[k].totals, spans[j].totals))
    && b.perSecondUpper == b.requests / 60.0
  }

  ghost predicate AreBounds(w: Window, spans: seq<Span>, windows: seq<Bound>) {
    |windows| < |spans| && forall k :: 0 <= k < |windows| ==> IsBound(w, spans, k, windows[k])
  }

  /** The windows join end to end without a gap. */
  ghost predicate Joined(w: Window, windows: seq<Bound>) {
    && (windows != [] ==> windows[0].startFrom == w.start)
    && (forall k :: 0 <= k < |windows| ==> windows[k].startFrom <= windows[k].startThrough)
    && (forall k :: 0 < k < |windows| ==> JoinedAt(windows, k))
  }

  ghost predicate JoinedAt(windows: seq<Bound>, k: nat)
    requires 0 < k < |windows|
  {
    windows[k - 1].startThrough == windows[k].startFrom
  }

  lemma JoinNext(w: Window, windows: seq<Bound>, b: Bound)
    requires Joined(w, windows) && b.startFrom <= b.startThrough
    requires b.startFrom == if windows == [] then w.start else windows[|windows| - 1].startThrough
    ensures Joined(w, windows + [b])
  {
    var all := windows + [b];
    forall k | 0 < k < |all| ensures JoinedAt(all, k) {
      assert k < |windows| ==> JoinedAt(windows, k);
    }
  }

  /** The windows tile the starts of every 60-second window of the scenario. */
  ghost predicate Tiles(w: Window, windows: seq<Bound>) {
    windows != [] && Joined(w, windows) && windows[|windows| - 1].startThrough == w.end - WIDTH
  }

  ghost predicate IsPeak(windows: seq<Bound>, peak: real) {
    && (forall k :: 0 <= k < |windows| ==> windows[k].perSecondUpper <= peak)
    && 0.0 <= peak
    && (peak == 0.0 || exists k :: 0 <= k < |windows| && windows[k].perSecondUpper == peak)
  }

  method FindEnd(spans: seq<Span>, i: nat, end: real) returns (j: nat)
    requires i + 1 < |spans|
    ensures j == StartedBy(spans, i + 1, end)
  {
    j := i + 1;
    while j < |spans|
      invariant i < j <= |spans|
      invariant StartedBy(spans, j, end) == StartedBy(spans, i + 1, end)
    {
      if end <= spans[j].first {
        break;
      }
      j := j + 1;
    }
  }

  /** One window of the tiling: its predecessor always leaves it something to cover, and the
      counters always reach past its end. */
  method MeasureOne(w: Window, spans: seq<Span>, i: nat) returns (bound: Option<Bound>)
    requires Bracketed(w, spans) && i + 1 < |spans|
    requires spans[i].last <= w.end - WIDTH
    ensures bound.Some? && IsBound(w, spans, i, bound.value)
    ensures bound.value.startFrom == Max(spans[i].last, w.start)
    ensures bound.value.startThrough == Min(spans[i + 1].last, w.end - WIDTH)
    ensures bound.value.startFrom <= bound.value.startThrough
  {
    var lower := Max(spans[i].last, w.start);
    var upper := Min(spans[i + 1].last, w.end - WIDTH);
    assert RisesAt(spans, i + 1);
    if upper < lower {
      assert false;
      return None;
    }
    var j := FindEnd(spans, i, upper + WIDTH);
    StartedByIsFirst(spans, i + 1, upper + WIDTH);
    if j == |spans| {
      assert false;
      return None;
    }
    var requests := SumRequests(spans[i].totals, spans[j].totals);
    bound := Some(Bound(lower, upper, spans[i].first, spans[j].last, requests, requests / 60.0));
  }

  lemma NothingTiled(w: Window, spans: seq<Span>)
    requires 2 <= |spans|
    ensures Joined(w, []) && IsPeak([], 0.0) && AreBounds(w, spans, [])
  {
  }

  lemma NextBound(w: Window, spans: seq<Span>, windows: seq<Bound>, b: Bound)
    requires AreBounds(w, spans, windows) && |windows| + 1 < |spans| && IsBound(w, spans, |windows|, b)
    ensures AreBounds(w, spans, windows + [b])
  {
    hide IsBound;
  }

  method MeasureWindows(w: Window, spans: seq<Span>) returns (r: Result<Demand, Refusal>)
    requires Bracketed(w, spans)
    ensures r.Success?
    ensures AreBounds(w, spans, r.value.windows)
    ensures Tiles(w, r.value.windows)
    ensures IsPeak(r.value.windows, r.value.maxPerSecondUpper)
  {
    hide IsBound, AreBounds, Joined, IsPeak, RisesAt;
    var windows: seq<Bound> := [];
    var peak := 0.0;
    var lastStart := w.end - WIDTH;
    var i := 0;
    NothingTiled(w, spans);
    while i + 1 < |spans|
      invariant i < |spans| && |windows| == i
      invariant AreBounds(w, spans, windows) && Joined(w, windows) && IsPeak(windows, peak)
      invariant spans[i].last <= lastStart
      invariant windows != [] ==> windows[i - 1].startThrough == spans[i].last
    {
      var bound := MeasureOne(w, spans, i);
      peak := PeakWith(windows, peak, bound.value);
      JoinNext(w, windows, bound.value);
      NextBound(w, spans, windows, bound.value);
      windows := windows + [bound.value];
      if bound.value.startThrough == lastStart {
        return Success(Demand(windows, peak));
      }
      i := i + 1;
    }
    assert false;
    r := Failure(NothingMeasured);
  }

  function PeakWith(ghost windows: seq<Bound>, peak: real, b: Bound): (larger: real)
    requires IsPeak(windows, peak)
    ensures IsPeak(windows + [b], larger)
  {
    ghost var all := windows + [b];
    assert all[|windows|] == b;
    assert forall k :: 0 <= k < |windows| ==> all[k] == windows[k];
    Max(peak, b.perSecondUpper)
  }

  // ------------------------------------------------------------------ the bound

  /** The samples the counters are taken from: bracketing, continuous, and counting up. */
  ghost predicate Measurable(w: Window, samples: seq<Sample>, from: int, through: int) {
    && IsFrom(w, samples, from) && IsThrough(w, samples, through)
    && 0 <= from < through
    && ProcessContinuity(samples[from..through + 1])
    && AllValid(samples[from..through + 1])
    && CountersKept(samples[from..through + 1])
  }

  ghost predicate IsDemand(w: Window, inside: seq<Sample>, d: Demand) {
    exists spans ::
      && AreSpans(inside, spans)
      && Bracketed(w, spans)
      && AreBounds(w, spans, d.windows)
      && Tiles(w, d.windows)
      && IsPeak(d.windows, d.maxPerSecondUpper)
  }

  lemma BracketIsUnique(w: Window, samples: seq<Sample>, from: int, through: int, from': int, through': int)
    requires IsFrom(w, samples, from) && IsFrom(w, samples, from')
    requires IsThrough(w, samples, through) && IsThrough(w, samples, through')
    ensures from == from' && through == through'
  {
  }

  lemma SpansKeepPopulation(inside: seq<Sample>, spans: seq<Span>, k: nat)
    requires ProcessContinuity(inside) && AreSpans(inside, spans) && k < |inside|
    ensures inside[k].managers.Keys == inside[0].managers.Keys
    ensures spans[k].totals.Keys == spans[0].totals.Keys
  {
    ContinuityKeepsPopulation(inside, k);
    assert IsSpan(inside[0], spans[0]) && IsSpan(inside[k], spans[k]);
  }

  lemma SpansRise(inside: seq<Sample>, spans: seq<Span>, k: nat)
    requires ProcessContinuity(inside) && AllValid(inside) && CountersKept(inside) && AreSpans(inside, spans)
    requires 0 < k < |inside|
    ensures RisesAt(spans, k)
  {
    assert IsSpan(inside[k - 1], spans[k - 1]) && IsSpan(inside[k], spans[k]);
    forall i | 0 <= i < |inside| ensures inside[i].managers.Keys == inside[0].managers.Keys {
      ContinuityKeepsPopulation(inside, i);
    }
    LastRises(inside, k);
  }

  lemma SpanAt(w: Window, samples: seq<Sample>, from: int, through: int, spans: seq<Span>, k: nat)
    requires Measurable(w, samples, from, through)
    requires AreSpans(samples[from..through + 1], spans) && k < |spans|
    ensures k == 0 ==> spans[k].last <= w.start
    ensures k == |spans| - 1 ==> w.end <= spans[k].first <= spans[k].last
    ensures 0 < k ==> w.start < spans[k].last
  {
    var inside := samples[from..through + 1];
    assert IsSpan(inside[k], spans[k]);
    assert inside[k] == samples[from + k];
    FirstBeforeLast(inside[k]);
  }

  lemma MeasurableIsBracketed(w: Window, samples: seq<Sample>, from: int, through: int, spans: seq<Span>)
    requires WIDTH <= w.end - w.start
    requires Measurable(w, samples, from, through)
    requires AreSpans(samples[from..through + 1], spans)
    ensures Bracketed(w, spans)
  {
    hide ProcessContinuity, AllValid, CountersKept, IsSpan, RisesAt;
    var inside := samples[from..through + 1];
    SpanAt(w, samples, from, through, spans, 0);
    SpanAt(w, samples, from, through, spans, |spans| - 1);
    forall k | 0 <= k < |spans| ensures spans[k].totals.Keys == spans[0].totals.Keys {
      SpansKeepPopulation(inside, spans, k);
    }
    forall k | 0 < k < |spans| ensures RisesAt(spans, k) {
      SpansRise(inside, spans, k);
    }
    forall k | 0 < k < |spans| ensures w.start < spans[k].last {
      SpanAt(w, samples, from, through, spans, k);
    }
  }

  /** The checks on the samples the bracket selects, and the windows measured from them. */
  method MeasureInside(inside: seq<Sample>) returns (r: Result<seq<Span>, Refusal>)
    ensures r.Success? <==> ProcessContinuity(inside) && AllValid(inside) && CountersKept(inside)
    ensures r.Success? ==> AreSpans(inside, r.value)
    ensures r.Failure? ==> IsRefused(inside, r.error)
  {
    var problems := ManagerProcessContinuity(inside);
    if problems != [] {
      return Failure(NotContinuous(problems));
    }
    forall i | 0 <= i < |inside| ensures inside[i].managers.Keys == inside[0].managers.Keys {
      ContinuityKeepsPopulation(inside, i);
    }
    var refusal := CheckCounters(inside);
    if refusal.Some? {
      return Failure(refusal.value);
    }
    var spans := ReadSpans(inside);
    r := Success(spans);
  }

  /** The bracket is handed back for the contract; BracketIsUnique says there is only one. */
  method ManagerApiDemand(w: Window, samples: seq<Sample>)
    returns (r: Result<Demand, Refusal>, ghost from: int, ghost through: int)
    ensures IsFrom(w, samples, from) && IsThrough(w, samples, through)
    ensures r.Success? <==> WIDTH <= w.end - w.start && Measurable(w, samples, from, through)
    ensures r.Success? ==> IsDemand(w, samples[from..through + 1], r.value)
    ensures r == Failure(NoCompleteWindow) <==> w.end - w.start < WIDTH
    ensures r == Failure(NotBracketed) <==> WIDTH <= w.end - w.start && !(0 <= from < through)
    ensures r.Failure? && WIDTH <= w.end - w.start && 0 <= from < through ==>
      IsRefused(samples[from..through + 1], r.error)
    ensures r != Failure(LastWindowUncovered) && r != Failure(NothingMeasured)
  {
    hide ProcessContinuity, AllValid, CountersKept, Bracketed, AreBounds, Tiles, IsPeak, AreSpans;
    var first, last := FindBracket(w, samples);
    from, through := first, last;
    if w.end - w.start < WIDTH {
      return Failure(NoCompleteWindow), from, through;
    }
    if first < 0 || last <= first {
      return Failure(NotBracketed), from, through;
    }
    var spans := MeasureInside(samples[first..last + 1]);
    if spans.Failure? {
      return Failure(spans.error), from, through;
    }
    MeasurableIsBracketed(w, samples, from, through, spans.value);
    r := MeasureWindows(w, spans.value);
  }

  // ---------------------------------------------------- what the bound promises

  /** Every manager's counter over time. */
  type History = string -> real -> real

  ghost predicate NeverFalls(counter: real -> real) {
    forall t, u :: t <= u ==> counter(t) <= counter(u)
  }

  ghost predicate ReadWithin(counter: real -> real, r: Reading) {
    exists t :: r.startedAt <= t <= r.finishedAt && counter(t) == r.total
  }

  /** Every reading is its counter's value at some hidden instant of its scrape. */
  ghost predicate ConsistentWith(h: History, s: Sample)
    requires ValidReadings(s)
  {
    forall name :: name in s.managers ==>
      NeverFalls(h(name)) && ReadWithin(h(name), s.managers[name].apiRequests.value)
  }

  ghost predicate Consistent(h: History, inside: seq<Sample>)
    requires AllValid(inside)
  {
    forall i :: 0 <= i < |inside| ==> ConsistentWith(h, inside[i])
  }

  /** The requests the managers made after one instant and by another. */
  ghost function Moved(h: History, names: set<string>, from: real, through: real): real {
    Sum(Moves(h, names, from, through))
  }

  /** What a sample says of the counters, wherever in its scrape each was read. */
  ghost predicate Pins(h: History, span: Span, name: string)
    requires name in span.totals
  {
    && (forall t :: span.last <= t ==> span.totals[name] <= h(name)(t))
    && (forall t :: t <= span.first ==> h(name)(t) <= span.totals[name])
  }

  ghost predicate PinsAll(h: History, span: Span) {
    forall name :: name in span.totals ==> Pins(h, span, name)
  }

  lemma ReadingPins(h: History, s: Sample, span: Span)
    requires IsSpan(s, span) && ConsistentWith(h, s)
    ensures PinsAll(h, span)
  {
    BoundsMean(s);
    forall name | name in span.totals ensures Pins(h, span, name) {
      var r := s.managers[name].apiRequests.value;
      assert ReadWithin(h(name), r) && NeverFalls(h(name));
      var read :| r.startedAt <= read <= r.finishedAt && h(name)(read) == r.total;
    }
  }

  /** One manager's two readings bound what its counter moved in a window that lies between their
      scrapes, and what it moved over both bounds them. */
  lemma ReadingBounds(h: History, name: string, before: Span, after: Span, t: real, u: real)
    requires name in before.totals && name in after.totals && Pins(h, before, name) && Pins(h, after, name)
    requires before.first <= before.last <= t && u <= after.first <= after.last
    ensures h(name)(u) - h(name)(t) <= after.totals[name] - before.totals[name]
    ensures after.totals[name] - before.totals[name] <= h(name)(after.last) - h(name)(before.first)
  {
  }

  /** What each manager's counter moved after one instant and by another. */
  ghost function Moves(h: History, names: set<string>, from: real, through: real): (m: map<string, real>)
    ensures m.Keys == names
  {
    map name | name in names :: h(name)(through) - h(name)(from)
  }

  /** Two readings of the counters bound every window that lies between their scrapes, and
      never exceed what the counters moved over both. */
  lemma ReadingsBound(h: History, names: set<string>, before: Span, after: Span, t: real)
    requires PinsAll(h, before) && PinsAll(h, after)
    requires before.totals.Keys == names && after.totals.Keys == names
    requires before.first <= before.last <= t && t + WIDTH <= after.first <= after.last
    ensures Moved(h, names, t, t + WIDTH) <= Sum(Deltas(before.totals, after.totals))
    ensures Sum(Deltas(before.totals, after.totals)) <= Moved(h, names, before.first, after.last)
  {
    hide Pins, Sum;
    var deltas, u := Deltas(before.totals, after.totals), t + WIDTH;
    var window, whole := Moves(h, names, t, u), Moves(h, names, before.first, after.last);
    assert deltas.Keys == names;
    forall name | name in names ensures window[name] <= deltas[name] <= whole[name] {
      assert name in before.totals.Keys && name in after.totals.Keys;
      ReadingBounds(h, name, before, after, t, u);
    }
    SumMonotone(window, deltas);
    SumMonotone(deltas, whole);
  }

  lemma BoundSpans(w: Window, spans: seq<Span>, k: nat, b: Bound) returns (j: nat)
    requires Bracketed(w, spans) && k + 1 < |spans| && IsBound(w, spans, k, b)
    ensures k < j < |spans|
    ensures spans[k].last <= b.startFrom && b.startThrough + WIDTH <= spans[j].first
    ensures b.counterFrom == spans[k].first && b.counterThrough == spans[j].last
    ensures b.requests == Sum(Deltas(spans[k].totals, spans[j].totals))
    ensures spans[k].totals.Keys == spans[0].totals.Keys
    ensures spans[j].totals.Keys == spans[0].totals.Keys
  {
    j := StartedBy(spans, k + 1, b.startThrough + WIDTH);
    StartedByIsFirst(spans, k + 1, b.startThrough + WIDTH);
  }

  lemma BoundHolds(w: Window, spans: seq<Span>, k: nat, b: Bound, h: History, t: real)
    requires Bracketed(w, spans) && Ordered(spans)
    requires forall i :: 0 <= i < |spans| ==> PinsAll(h, spans[i])
    requires k + 1 < |spans| && IsBound(w, spans, k, b)
    requires b.startFrom <= t <= b.startThrough
    ensures Moved(h, spans[0].totals.Keys, t, t + WIDTH) <= b.requests
    ensures b.requests <= Moved(h, spans[0].totals.Keys, b.counterFrom, b.counterThrough)
    ensures b.perSecondUpper == b.requests / 60.0
  {
    var j := BoundSpans(w, spans, k, b);
    ReadingsBound(h, spans[0].totals.Keys, spans[k], spans[j], t);
  }

  ghost predicate Ordered(spans: seq<Span>) {
    forall i :: 0 <= i < |spans| ==> spans[i].first <= spans[i].last
  }

  lemma {:induction false} TileContains(w: Window, windows: seq<Bound>, t: real, n: nat) returns (k: nat)
    requires Joined(w, windows) && 0 < n <= |windows|
    requires w.start <= t <= windows[n - 1].startThrough
    ensures k < |windows| && windows[k].startFrom <= t <= windows[k].startThrough
  {
    if windows[n - 1].startFrom <= t {
      k := n - 1;
    } else {
      assert 1 < n ==> JoinedAt(windows, n - 1);
      k := TileContains(w, windows, t, n - 1);
    }
  }

  lemma SpansPin(h: History, inside: seq<Sample>, spans: seq<Span>)
    requires AllValid(inside) && AreSpans(inside, spans) && Consistent(h, inside)
    ensures Ordered(spans)
    ensures forall i :: 0 <= i < |spans| ==> PinsAll(h, spans[i])
    ensures inside != [] ==> spans[0].totals.Keys == inside[0].managers.Keys
  {
    forall i | 0 <= i < |spans| ensures spans[i].first <= spans[i].last && PinsAll(h, spans[i]) {
      assert IsSpan(inside[i], spans[i]);
      FirstBeforeLast(inside[i]);
      ReadingPins(h, inside[i], spans[i]);
    }
    if inside != [] {
      assert IsSpan(inside[0], spans[0]);
    }
  }

  /** The requests of some window that starts around t bound those of the 60 seconds after t. */
  ghost predicate BoundedAt(h: History, names: set<string>, d: Demand, t: real) {
    exists k ::
      && 0 <= k < |d.windows|
      && d.windows[k].startFrom <= t <= d.windows[k].startThrough
      && Moved(h, names, t, t + 60.0) <= d.windows[k].requests <= 60.0 * d.maxPerSecondUpper
      && d.windows[k].requests <= Moved(h, names, d.windows[k].counterFrom, d.windows[k].counterThrough)
  }

  lemma WindowBoundsAt(w: Window, spans: seq<Span>, d: Demand, h: History, t: real)
    requires Bracketed(w, spans) && Ordered(spans) && AreBounds(w, spans, d.windows) && Tiles(w, d.windows)
    requires IsPeak(d.windows, d.maxPerSecondUpper)
    requires forall i :: 0 <= i < |spans| ==> PinsAll(h, spans[i])
    requires w.start <= t <= w.end - WIDTH
    ensures BoundedAt(h, spans[0].totals.Keys, d, t)
  {
    hide Moved, Bracketed, Ordered, PinsAll, IsBound;
    var k := TileContains(w, d.windows, t, |d.windows|);
    assert IsBound(w, spans, k, d.windows[k]);
    BoundHolds(w, spans, k, d.windows[k], h, t);
  }

  /** The promise of the whole measurement, over every 60-second window of the scenario and
      every way the counters can have moved between their readings. */
  lemma DemandBoundsEveryWindow(w: Window, inside: seq<Sample>, d: Demand, h: History, t: real)
    requires inside != [] && AllValid(inside) && IsDemand(w, inside, d)
    requires Consistent(h, inside)
    requires w.start <= t <= w.end - 60.0
    ensures BoundedAt(h, inside[0].managers.Keys, d, t)
    ensures Moved(h, inside[0].managers.Keys, t, t + 60.0) <= 60.0 * d.maxPerSecondUpper
  {
    hide Moved, Bracketed, AreBounds, Tiles, IsPeak, AreSpans, AllValid, Consistent, Ordered, PinsAll;
    var spans :|
      && AreSpans(inside, spans)
      && Bracketed(w, spans)
      && AreBounds(w, spans, d.windows)
      && Tiles(w, d.windows)
      && IsPeak(d.windows, d.maxPerSecondUpper);
    SpansPin(h, inside, spans);
    WindowBoundsAt(w, spans, d, h, t);
  }

  // ------------------------------------------------------------ the bound is not empty

  ghost predicate StepsUp(rs: seq<Reading>, i: nat)
    requires 0 < i < |rs|
  {
    rs[i - 1].startedAt < rs[i].startedAt && rs[i - 1].total <= rs[i].total
  }

  ghost predicate AllStepUp(rs: seq<Reading>) {
    forall i: nat :: 0 < i < |rs| ==> StepsUp(rs, i)
  }

  /** A counter that jumps to each reading the moment its scrape starts. */
  ghost function Stepping(rs: seq<Reading>, t: real): real {
    if rs == [] then 0.0
    else if |rs| == 1 || rs[|rs| - 1].startedAt <= t then rs[|rs| - 1].total
    else Stepping(rs[..|rs| - 1], t)
  }

  lemma PrefixSteps(rs: seq<Reading>)
    requires AllStepUp(rs) && rs != []
    ensures AllStepUp(rs[..|rs| - 1])
  {
    var init := rs[..|rs| - 1];
    forall i: nat | 0 < i < |init| ensures StepsUp(init, i) {
      assert StepsUp(rs, i);
    }
  }

  lemma {:induction false} SteppingEndsAtLast(rs: seq<Reading>, t: real)
    requires AllStepUp(rs) && rs != []
    ensures Stepping(rs, t) <= rs[|rs| - 1].total
  {
    if |rs| == 1 || rs[|rs| - 1].startedAt <= t {
    } else {
      PrefixSteps(rs);
      SteppingEndsAtLast(rs[..|rs| - 1], t);
      assert StepsUp(rs, |rs| - 1);
    }
  }

  lemma {:induction false} SteppingNeverFalls(rs: seq<Reading>, t: real, u: real)
    requires AllStepUp(rs) && t <= u
    ensures Stepping(rs, t) <= Stepping(rs, u)
  {
    if |rs| <= 1 {
    } else {
      SteppingEndsAtLast(rs, t);
      PrefixSteps(rs);
      SteppingNeverFalls(rs[..|rs| - 1], t, u);
    }
  }

  lemma {:induction false} StartsRise(rs: seq<Reading>, i: nat, j: nat)
    requires AllStepUp(rs) && i < j < |rs|
    ensures rs[i].startedAt < rs[j].startedAt
    decreases j
  {
    assert StepsUp(rs, j);
    if i == j - 1 {
    } else {
      StartsRise(rs, i, j - 1);
    }
  }

  lemma {:induction false} SteppingReads(rs: seq<Reading>, i: nat)
    requires AllStepUp(rs) && i < |rs|
    ensures Stepping(rs, rs[i].startedAt) == rs[i].total
  {
    if i == |rs| - 1 {
    } else {
      StartsRise(rs, i, |rs| - 1);
      PrefixSteps(rs);
      SteppingReads(rs[..|rs| - 1], i);
    }
  }

  ghost function ReadingsOf(inside: seq<Sample>, name: string): (rs: seq<Reading>)
    ensures |rs| == |inside|
  {
    seq(|inside|, i requires 0 <= i < |inside| =>
      if name in inside[i].managers && inside[i].managers[name].apiRequests.Some?
      then inside[i].managers[name].apiRequests.value else Reading(0.0, 0.0, 0.0))
  }

  ghost function SteppingHistory(inside: seq<Sample>): History {
    name => t => Stepping(ReadingsOf(inside, name), t)
  }

  lemma ReadingsStepUp(inside: seq<Sample>, name: string)
    requires inside != [] && AllValid(inside) && SamePopulation(inside) && CountersKept(inside)
    requires name in inside[0].managers
    ensures AllStepUp(ReadingsOf(inside, name))
  {
    var rs := ReadingsOf(inside, name);
    forall i: nat | 0 < i < |rs| ensures StepsUp(rs, i) {
      assert KeptAt(inside, i);
      assert name in inside[0].managers.Keys;
      assert name in inside[i - 1].managers.Keys && name in inside[i].managers.Keys;
      assert CounterKept(inside[i - 1].managers[name], inside[i].managers[name]);
    }
  }

  lemma SteppingIsConsistent(inside: seq<Sample>, i: nat, name: string)
    requires inside != [] && AllValid(inside) && SamePopulation(inside) && CountersKept(inside)
    requires i < |inside| && name in inside[i].managers
    ensures var counter := SteppingHistory(inside)(name);
      NeverFalls(counter) && ReadWithin(counter, inside[i].managers[name].apiRequests.value)
  {
    var rs := ReadingsOf(inside, name);
    var counter := SteppingHistory(inside)(name);
    assert name in inside[i].managers.Keys;
    ReadingsStepUp(inside, name);
    forall t, u | t <= u ensures counter(t) <= counter(u) {
      SteppingNeverFalls(rs, t, u);
    }
    SteppingReads(rs, i);
    var r := inside[i].managers[name].apiRequests.value;
    assert rs[i] == r;
    assert ValidReading(inside[i].managers[name]);
    assert counter(r.startedAt) == r.total;
  }

  /** Whatever was measured, some history of the counters gives just those readings: the bounds
      are never about nothing. */
  lemma MeasuredHasHistory(w: Window, samples: seq<Sample>, from: int, through: int) returns (h: History)
    requires Measurable(w, samples, from, through)
    ensures Consistent(h, samples[from..through + 1])
  {
    var inside := samples[from..through + 1];
    h := SteppingHistory(inside);
    forall i | 0 <= i < |inside| ensures inside[i].managers.Keys == inside[0].managers.Keys {
      ContinuityKeepsPopulation(inside, i);
    }
    hide AllValid, CountersKept, ProcessContinuity, NeverFalls, ReadWithin, SteppingHistory;
    forall i, name | 0 <= i < |inside| && name in inside[i].managers
      ensures ValidReadings(inside[i]) && NeverFalls(h(name)) &&
        ReadWithin(h(name), inside[i].managers[name].apiRequests.value)
    {
      assert AllValid(inside);
      SteppingIsConsistent(inside, i, name);
      ValidAt(inside, i);
    }
  }

  lemma ValidAt(inside: seq<Sample>, i: nat)
    requires AllValid(inside) && i < |inside|
    ensures ValidReadings(inside[i])
  {
  }

  // ------------------------------------------------------- which readings are accepted

  ghost predicate NeverNegative(counter: real -> real) {
    forall t :: 0.0 <= counter(t)
  }

  /** The scrapes of a manager as the clock alone shows them: begun, and ended no earlier. */
  ghost predicate WasScraped(m: Manager) {
    m.apiRequests.Some? && m.apiRequests.value.startedAt != 0.0 &&
    m.apiRequests.value.startedAt <= m.apiRequests.value.finishedAt
  }

  /** A counter that starts at nothing or more, never falls, and was read in the scrape. */
  ghost predicate Explains(counter: real -> real, m: Manager)
    requires WasScraped(m)
  {
    NeverNegative(counter) && NeverFalls(counter) && ReadWithin(counter, m.apiRequests.value)
  }

  /** Two scrapes, one after the other, of a counter that never falls are accepted, whatever it
      reads: nothing yet, or the same twice. */
  lemma ExplainedIsKept(counter: real -> real, before: Manager, after: Manager)
    requires WasScraped(before) && WasScraped(after) && Explains(counter, before) && Explains(counter, after)
    requires before.apiRequests.value.finishedAt < after.apiRequests.value.startedAt
    ensures ValidReading(before) && ValidReading(after) && CounterKept(before, after)
  {
  }

  /** Every manager of every sample was scraped, and no scrape of one overlaps the next. */
  ghost predicate AllScraped(inside: seq<Sample>) {
    && (forall i, name :: 0 <= i < |inside| && name in inside[i].managers ==> WasScraped(inside[i].managers[name]))
    && (forall i: nat :: 0 < i < |inside| ==> Apart(inside, i))
  }

  ghost predicate Apart(inside: seq<Sample>, i: nat)
    requires 0 < i < |inside|
  {
    forall name :: name in inside[i].managers && name in inside[i - 1].managers ==>
      && inside[i - 1].managers[name].apiRequests.Some? && inside[i].managers[name].apiRequests.Some?
      && inside[i - 1].managers[name].apiRequests.value.finishedAt < inside[i].managers[name].apiRequests.value.startedAt
  }

  ghost predicate AllExplained(h: History, inside: seq<Sample>)
    requires AllScraped(inside)
  {
    forall i, name :: 0 <= i < |inside| && name in inside[i].managers ==> Explains(h(name), inside[i].managers[name])
  }

  ghost predicate AreExplained(inside: seq<Sample>)
    requires AllScraped(inside)
  {
    exists h :: AllExplained(h, inside)
  }

  lemma ExplainedSampleIsValid(h: History, inside: seq<Sample>, i: nat)
    requires AllScraped(inside) && AllExplained(h, inside) && i < |inside| && inside[i].managers != map[]
    ensures ValidReadings(inside[i])
  {
    forall name | name in inside[i].managers ensures ValidReading(inside[i].managers[name]) {
      assert Explains(h(name), inside[i].managers[name]);
    }
  }

  lemma ExplainedPairIsKept(h: History, inside: seq<Sample>, i: nat)
    requires AllScraped(inside) && AllExplained(h, inside) && 0 < i < |inside|
    requires ValidReadings(inside[i - 1]) && ValidReadings(inside[i])
    ensures KeptAt(inside, i)
  {
    assert Apart(inside, i);
    forall name | name in inside[i].managers && name in inside[i - 1].managers
      ensures CounterKept(inside[i - 1].managers[name], inside[i].managers[name])
    {
      assert Explains(h(name), inside[i - 1].managers[name]) && Explains(h(name), inside[i].managers[name]);
      ExplainedIsKept(h(name), inside[i - 1].managers[name], inside[i].managers[name]);
    }
  }

  lemma ExplainedIsMeasurable(h: History, inside: seq<Sample>)
    requires ProcessContinuity(inside) && AllScraped(inside) && AllExplained(h, inside)
    ensures AllValid(inside) && CountersKept(inside)
  {
    hide AllScraped, AllExplained, ValidReadings, KeptAt, ContinuesAt;
    forall i | 0 <= i < |inside| ensures ValidReadings(inside[i]) {
      assert CompleteAt(inside, i);
      ExplainedSampleIsValid(h, inside, i);
    }
    forall i | 0 < i < |inside| ensures KeptAt(inside, i) {
      ExplainedPairIsKept(h, inside, i);
    }
  }

  lemma {:induction false} SteppingIsNeverNegative(rs: seq<Reading>, t: real)
    requires forall i :: 0 <= i < |rs| ==> 0.0 <= rs[i].total
    ensures 0.0 <= Stepping(rs, t)
  {
    if |rs| <= 1 {
    } else {
      SteppingIsNeverNegative(rs[..|rs| - 1], t);
    }
  }

  lemma SteppingExplains(inside: seq<Sample>, i: nat, name: string)
    requires inside != [] && AllValid(inside) && SamePopulation(inside) && CountersKept(inside)
    requires i < |inside| && name in inside[i].managers && WasScraped(inside[i].managers[name])
    ensures Explains(SteppingHistory(inside)(name), inside[i].managers[name])
  {
    SteppingIsConsistent(inside, i, name);
    var rs := ReadingsOf(inside, name);
    forall k | 0 <= k < |rs| ensures 0.0 <= rs[k].total {
      assert ValidReadings(inside[k]);
    }
    forall t ensures 0.0 <= SteppingHistory(inside)(name)(t) {
      SteppingIsNeverNegative(rs, t);
    }
  }

  lemma MeasuredIsScraped(inside: seq<Sample>)
    requires AllValid(inside) && CountersKept(inside)
    ensures AllScraped(inside)
  {
    forall i, name | 0 <= i < |inside| && name in inside[i].managers ensures WasScraped(inside[i].managers[name]) {
      assert ValidReadings(inside[i]);
    }
    forall i: nat | 0 < i < |inside| ensures Apart(inside, i) {
      assert KeptAt(inside, i);
    }
  }

  /** Which bracketed samples of one population are measured: exactly those whose scrapes do not
      overlap and whose readings some counters that never fall, and are never negative, explain. */
  lemma MeasurableExactly(w: Window, samples: seq<Sample>, from: int, through: int)
    requires IsFrom(w, samples, from) && IsThrough(w, samples, through) && 0 <= from < through
    requires ProcessContinuity(samples[from..through + 1])
    ensures Measurable(w, samples, from, through) <==>
      AllScraped(samples[from..through + 1]) && AreExplained(samples[from..through + 1])
  {
    var inside := samples[from..through + 1];
    hide IsFrom, IsThrough, ProcessContinuity, AllValid, CountersKept, AllScraped, AllExplained;
    if AllScraped(inside) && AreExplained(inside) {
      var h :| AllExplained(h, inside);
      ExplainedIsMeasurable(h, inside);
    }
    if AllValid(inside) && CountersKept(inside) {
      MeasuredIsScraped(inside);
      MeasuredIsExplained(inside);
    }
  }

  lemma MeasuredIsExplained(inside: seq<Sample>)
    requires ProcessContinuity(inside) && AllValid(inside) && CountersKept(inside) && AllScraped(inside)
    ensures AreExplained(inside)
  {
    forall i | 0 <= i < |inside| ensures inside[i].managers.Keys == inside[0].managers.Keys {
      ContinuityKeepsPopulation(inside, i);
    }
    hide AllValid, CountersKept, AllScraped, Explains, WasScraped, CompleteAt, ContinuesAt;
    var h := SteppingHistory(inside);
    forall i, name | 0 <= i < |inside| && name in inside[i].managers
      ensures WasScraped(inside[i].managers[name]) && Explains(h(name), inside[i].managers[name])
    {
      ScrapedAt(inside, i, name);
      SteppingExplains(inside, i, name);
    }
    assert AllExplained(h, inside);
  }

  lemma ScrapedAt(inside: seq<Sample>, i: nat, name: string)
    requires AllScraped(inside) && i < |inside| && name in inside[i].managers
    ensures WasScraped(inside[i].managers[name])
  {
  }
}
