/** The bound on a CI run of hack/verify-kubernetes-support.go: a memoised depth-first walk of
the jobs' needs that adds up their limits and notices a need that is undefined or cyclic.
 */
module RunBound {
  import opened Results

  const GITHUB_JOB_TIMEOUT_MINUTES: int := 360

  datatype Job = Job(needs: seq<string>, timeoutMinutes: int) {
    function Limit(): int {
      if timeoutMinutes == 0 then GITHUB_JOB_TIMEOUT_MINUTES else timeoutMinutes
    }
  }

  type Workflow = map<string, Job>

  datatype Problem =
    | Undefined(need: string)
    | Cyclic(name: string)
    | Ends(latest: int)

  // -------------------------------------------------------------------- paths

  /** A chain of jobs in which each needs the next. */
  ghost predicate IsPath(jobs: Workflow, p: seq<string>) {
    && p != []
    && p[0] in jobs
    && (1 < |p| ==> p[1] in jobs[p[0]].needs && IsPath(jobs, p[1..]))
  }

  /** How long the jobs of a chain can run one after another. */
  ghost function Weight(jobs: Workflow, p: seq<string>): int
    requires IsPath(jobs, p)
  {
    jobs[p[0]].Limit() + if 1 < |p| then Weight(jobs, p[1..]) else 0
  }

  ghost predicate IsPathFrom(jobs: Workflow, name: string, p: seq<string>) {
    IsPath(jobs, p) && p[0] == name
  }

  ghost predicate IsCycle(jobs: Workflow, name: string, p: seq<string>) {
    IsPathFrom(jobs, name, p) && 1 < |p| && p[|p| - 1] == name
  }

  ghost predicate NeedsDefined(jobs: Workflow) {
    forall name, need :: name in jobs && need in jobs[name].needs ==> need in jobs
  }

  ghost predicate WellFormed(jobs: Workflow) {
    NeedsDefined(jobs) && forall name, p :: !IsCycle(jobs, name, p)
  }

  /** The longest chain that starts at a job. */
  ghost predicate IsLongestFrom(jobs: Workflow, name: string, end: int) {
    && (forall p :: IsPathFrom(jobs, name, p) ==> Weight(jobs, p) <= end)
    && (exists p :: IsPathFrom(jobs, name, p) && Weight(jobs, p) == end)
  }

  /** The longest chain of the workflow, the empty one included. */
  ghost predicate IsLongest(jobs: Workflow, end: int) {
    && (forall p :: IsPath(jobs, p) ==> Weight(jobs, p) <= end)
    && 0 <= end
    && (end == 0 || exists p :: IsPath(jobs, p) && Weight(jobs, p) == end)
  }

  lemma PathExtends(jobs: Workflow, name: string, p: seq<string>)
    requires name in jobs && IsPath(jobs, p) && p[0] in jobs[name].needs
    ensures IsPathFrom(jobs, name, [name] + p)
    ensures Weight(jobs, [name] + p) == jobs[name].Limit() + Weight(jobs, p)
  {
    assert ([name] + p)[1..] == p;
  }

  lemma {:induction false} PathAppends(jobs: Workflow, p: seq<string>, name: string)
    requires IsPath(jobs, p) && name in jobs && p[|p| - 1] in jobs && name in jobs[p[|p| - 1]].needs
    ensures IsPath(jobs, p + [name])
  {
    if 1 < |p| {
      PathAppends(jobs, p[1..], name);
      assert (p + [name])[1..] == p[1..] + [name];
    } else {
      assert (p + [name])[1..] == [name];
    }
  }

  lemma {:induction false} PathDrops(jobs: Workflow, p: seq<string>, k: nat)
    requires IsPath(jobs, p) && k < |p|
    ensures IsPath(jobs, p[k..])
    ensures p[k] in jobs
  {
    if k == 0 {
    } else {
      PathDrops(jobs, p[1..], k - 1);
      assert p[1..][k - 1..] == p[k..];
    }
  }

  /** A set of jobs that holds their needs holds every chain that starts in it. */
  lemma {:induction false} PathStays(jobs: Workflow, p: seq<string>, closed: set<string>)
    requires IsPath(jobs, p) && p[0] in closed
    requires forall name, need :: name in closed && name in jobs && need in jobs[name].needs ==> need in closed
    ensures p[|p| - 1] in closed
  {
    if |p| <= 1 {
    } else {
      PathStays(jobs, p[1..], closed);
    }
  }

  // ----------------------------------------------------------------- the walk

  ghost predicate IsStart(ends: map<string, int>, needs: seq<string>, start: int) {
    && (forall need :: need in needs ==> need in ends && ends[need] <= start)
    && 0 <= start
    && (start == 0 || exists need :: need in needs && need in ends && ends[need] == start)
  }

  /** What the walk keeps about a job it has finished. */
  ghost predicate IsFinished(jobs: Workflow, ends: map<string, int>, name: string) {
    && name in jobs && name in ends
    && IsStart(ends, jobs[name].needs, ends[name] - jobs[name].Limit())
    && IsLongestFrom(jobs, name, ends[name])
    && (forall p :: !IsCycle(jobs, name, p))
  }

  ghost predicate AllFinished(jobs: Workflow, ends: map<string, int>) {
    forall name :: name in ends ==> IsFinished(jobs, ends, name)
  }

  /** The needs of a job are finished, so the job can be: it starts when the last of them ends. */
  lemma FinishesAfterNeeds(jobs: Workflow, ends: map<string, int>, name: string, start: int)
    requires AllFinished(jobs, ends) && name in jobs && name !in ends
    requires IsStart(ends, jobs[name].needs, start)
    ensures AllFinished(jobs, ends[name := start + jobs[name].Limit()])
  {
    var ends' := ends[name := start + jobs[name].Limit()];
    LongestAfterNeeds(jobs, ends, name, start);
    forall p ensures !IsCycle(jobs, name, p) {
      if IsCycle(jobs, name, p) {
        PathStays(jobs, p[1..], ends.Keys);
      }
    }
    forall n | n in ends' ensures IsFinished(jobs, ends', n) {
      if n != name {
        assert IsFinished(jobs, ends, n);
      }
    }
  }

  lemma LongestAfterNeeds(jobs: Workflow, ends: map<string, int>, name: string, start: int)
    requires AllFinished(jobs, ends) && name in jobs
    requires IsStart(ends, jobs[name].needs, start)
    ensures IsLongestFrom(jobs, name, start + jobs[name].Limit())
  {
    forall p | IsPathFrom(jobs, name, p) ensures Weight(jobs, p) <= start + jobs[name].Limit() {
      BoundedAfterNeeds(jobs, ends, name, start, p);
    }
    var p := AttainedAfterNeeds(jobs, ends, name, start);
  }

  lemma AttainedAfterNeeds(jobs: Workflow, ends: map<string, int>, name: string, start: int) returns (p: seq<string>)
    requires AllFinished(jobs, ends) && name in jobs
    requires IsStart(ends, jobs[name].needs, start)
    ensures IsPathFrom(jobs, name, p) && Weight(jobs, p) == start + jobs[name].Limit()
  {
    if start == 0 {
      p := [name];
    } else {
      var need :| need in jobs[name].needs && need in ends && ends[need] == start;
      assert IsFinished(jobs, ends, need);
      var rest :| IsPathFrom(jobs, need, rest) && Weight(jobs, rest) == start;
      PathExtends(jobs, name, rest);
      p := [name] + rest;
    }
  }

  lemma BoundedAfterNeeds(jobs: Workflow, ends: map<string, int>, name: string, start: int, p: seq<string>)
    requires AllFinished(jobs, ends) && name in jobs
    requires IsStart(ends, jobs[name].needs, start) && IsPathFrom(jobs, name, p)
    ensures Weight(jobs, p) <= start + jobs[name].Limit()
  {
    if 1 < |p| {
      assert IsFinished(jobs, ends, p[1]) && IsPathFrom(jobs, p[1], p[1..]);
    }
  }

  /** The jobs the walk is inside of, from the one it began at to the one that needs name. */
  ghost predicate IsStack(jobs: Workflow, stack: seq<string>, visiting: set<string>, name: string) {
    && (forall k :: 0 <= k < |stack| ==> stack[k] in visiting)
    && (forall n :: n in visiting ==> n in stack)
    && (if stack == [] then name in jobs
        else IsPath(jobs, stack) && stack[|stack| - 1] in jobs && name in jobs[stack[|stack| - 1]].needs)
  }

  ghost predicate IsTrue(jobs: Workflow, problem: Problem) {
    match problem
    case Undefined(need) => need !in jobs && exists name :: name in jobs && need in jobs[name].needs
    case Cyclic(name) => exists p :: IsCycle(jobs, name, p)
    case Ends(_) => false
  }

  lemma CycleClosed(jobs: Workflow, stack: seq<string>, visiting: set<string>, name: string)
    requires IsStack(jobs, stack, visiting, name) && name in visiting && name in jobs
    ensures IsTrue(jobs, Cyclic(name))
  {
    var k :| 0 <= k < |stack| && stack[k] == name;
    PathDrops(jobs, stack, k);
    PathAppends(jobs, stack[k..], name);
    assert IsCycle(jobs, name, stack[k..] + [name]);
  }

  lemma UndefinedNeed(jobs: Workflow, stack: seq<string>, visiting: set<string>, name: string)
    requires IsStack(jobs, stack, visiting, name) && name !in jobs
    ensures IsTrue(jobs, Undefined(name))
  {
  }

  lemma StackGrows(jobs: Workflow, stack: seq<string>, visiting: set<string>, name: string, need: string)
    requires IsStack(jobs, stack, visiting, name) && name in jobs && need in jobs[name].needs
    ensures IsStack(jobs, stack + [name], visiting + {name}, need)
  {
    if stack != [] {
      PathAppends(jobs, stack, name);
    }
  }

  lemma NoNeeds(ends: map<string, int>)
    ensures IsStart(ends, [], 0)
  {
  }

  class NeedsWalk {
    const jobs: Workflow
    var ends: map<string, int>
    var visiting: set<string>

    constructor (jobs: Workflow)
      ensures this.jobs == jobs && ends == map[] && visiting == {}
    {
      this.jobs := jobs;
      ends, visiting := map[], {};
    }

    ghost predicate Valid()
      reads this
    {
      && AllFinished(jobs, ends)
      && visiting <= jobs.Keys
      && visiting !! ends.Keys
    }

    /** When a job ends if everything it waits for runs to its limit. The map it fills answers
        a job asked for twice, and the set it holds tells a job that needs itself. */
    method End(name: string, ghost stack: seq<string>) returns (r: Result<int, Problem>)
      requires Valid() && IsStack(jobs, stack, visiting, name)
      modifies this
      ensures r.Success? ==> Valid() && visiting == old(visiting)
      ensures r.Success? ==> name in ends && ends[name] == r.value
      ensures r.Success? ==> forall n :: n in old(ends) ==> n in ends && ends[n] == old(ends)[n]
      ensures r.Failure? ==> IsTrue(jobs, r.error)
      decreases jobs.Keys - visiting, 0
    {
      hide AllFinished, IsStack, IsStart, IsTrue;
      if name in ends {
        return Success(ends[name]);
      }
      if name !in jobs {
        UndefinedNeed(jobs, stack, visiting, name);
        return Failure(Undefined(name));
      }
      if name in visiting {
        CycleClosed(jobs, stack, visiting, name);
        return Failure(Cyclic(name));
      }
      ghost var before := visiting;
      visiting := visiting + {name};
      assert jobs.Keys - visiting < jobs.Keys - before;
      var start := EndOfNeeds(name, before, stack);
      if start.Failure? {
        return Failure(start.error);
      }
      visiting := visiting - {name};
      FinishesAfterNeeds(jobs, ends, name, start.value);
      var limit := jobs[name].timeoutMinutes;
      if limit == 0 {
        limit := GITHUB_JOB_TIMEOUT_MINUTES;
      }
      ends := ends[name := start.value + limit];
      return Success(ends[name]);
    }

    /** When the last of a job's needs ends. */
    method EndOfNeeds(name: string, ghost before: set<string>, ghost stack: seq<string>) returns (r: Result<int, Problem>)
      requires Valid() && name in jobs && name in visiting && visiting == before + {name}
      requires IsStack(jobs, stack, before, name)
      modifies this
      ensures r.Success? ==> Valid() && visiting == old(visiting)
      ensures r.Success? ==> IsStart(ends, jobs[name].needs, r.value)
      ensures r.Success? ==> forall n :: n in old(ends) ==> n in ends && ends[n] == old(ends)[n]
      ensures r.Failure? ==> IsTrue(jobs, r.error)
      decreases jobs.Keys - visiting, 1
    {
      hide AllFinished, IsStack, IsStart, IsTrue;
      var needs := jobs[name].needs;
      var start := 0;
      NoNeeds(ends);
      assert needs[..0] == [];
      for k := 0 to |needs|
        invariant Valid() && visiting == old(visiting)
        invariant IsStart(ends, needs[..k], start)
        invariant forall n :: n in old(ends) ==> n in ends && ends[n] == old(ends)[n]
      {
        StackGrows(jobs, stack, before, name, needs[k]);
        ghost var earlier := ends;
        var end := End(needs[k], stack + [name]);
        if end.Failure? {
          return end;
        }
        StartWith(earlier, ends, needs[..k], needs[k], start);
        start := if start < end.value then end.value else start;
        assert needs[..k + 1] == needs[..k] + [needs[k]];
      }
      assert needs[..|needs|] == needs;
      return Success(start);
    }
  }

  lemma StartWith(ends: map<string, int>, ends': map<string, int>, needs: seq<string>, need: string, start: int)
    requires IsStart(ends, needs, start) && need in ends'
    requires forall n :: n in ends ==> n in ends' && ends'[n] == ends[n]
    ensures IsStart(ends', needs + [need], if start < ends'[need] then ends'[need] else start)
  {
  }

  // ---------------------------------------------------------- verifyCIRunBound

  ghost predicate IsLatest(ends: map<string, int>, seen: set<string>, latest: int) {
    && (forall name :: name in seen ==> name in ends && ends[name] <= latest)
    && 0 <= latest
    && (latest == 0 || exists name :: name in seen && name in ends && ends[name] == latest)
  }

  lemma AllFinishedIsWellFormed(jobs: Workflow, ends: map<string, int>)
    requires AllFinished(jobs, ends) && jobs.Keys <= ends.Keys
    ensures WellFormed(jobs)
  {
    hide IsLongestFrom;
    forall name, need | name in jobs && need in jobs[name].needs ensures need in jobs {
      assert name in jobs.Keys && IsFinished(jobs, ends, name);
      assert IsFinished(jobs, ends, need);
    }
    forall name, p ensures !IsCycle(jobs, name, p) {
      if IsPathFrom(jobs, name, p) {
        assert name in jobs.Keys && IsFinished(jobs, ends, name);
      }
    }
  }

  lemma LatestIsLongest(jobs: Workflow, ends: map<string, int>, latest: int)
    requires AllFinished(jobs, ends) && ends.Keys == jobs.Keys
    requires IsLatest(ends, jobs.Keys, latest)
    ensures IsLongest(jobs, latest)
  {
    hide IsStart, IsCycle;
    forall p | IsPath(jobs, p) ensures Weight(jobs, p) <= latest {
      assert p[0] in jobs.Keys && IsFinished(jobs, ends, p[0]) && IsPathFrom(jobs, p[0], p);
    }
    if latest != 0 {
      var name :| name in jobs.Keys && name in ends && ends[name] == latest;
      assert IsFinished(jobs, ends, name);
      var p :| IsPathFrom(jobs, name, p) && Weight(jobs, p) == latest;
    }
  }

  lemma LongestIsUnique(jobs: Workflow, a: int, b: int)
    requires IsLongest(jobs, a) && IsLongest(jobs, b)
    ensures a == b
  {
  }

  lemma ProblemBreaks(jobs: Workflow, problem: Problem)
    requires IsTrue(jobs, problem)
    ensures !WellFormed(jobs)
  {
    if problem.Cyclic? {
      var p :| IsCycle(jobs, problem.name, p);
    }
  }

  /** Holds a bound to the workflow. The order the jobs are taken in decides only which of several
      problems is named, so the model takes any order. */
  method VerifyCIRunBound(jobs: Workflow, bound: int) returns (r: Option<Problem>, ghost finish: map<string, real>)
    ensures r.None? <==> WellFormed(jobs) && IsLongest(jobs, bound)
    ensures r.Some? && r.value.Ends? <==> WellFormed(jobs) && !IsLongest(jobs, bound)
    ensures r.Some? && r.value.Ends? ==> IsLongest(jobs, r.value.latest)
    ensures r.Some? && !r.value.Ends? ==> IsTrue(jobs, r.value)
    ensures r.None? && NoNegativeLimit(jobs) ==> IsRun(jobs, finish)
    ensures r.None? ==> bound == 0 || exists name :: name in finish && finish[name] == bound as real
  {
    hide AllFinished, IsStart, WellFormed, IsLongest, IsTrue, IsLatest, NoNegativeLimit, IsRun;
    finish := map[];
    var walk := new NeedsWalk(jobs);
    NothingFinished(jobs);
    var latest := 0;
    var rest := jobs.Keys;
    ghost var seen: set<string> := {};
    while rest != {}
      invariant walk.jobs == jobs && walk.Valid() && walk.visiting == {} && rest <= jobs.Keys
      invariant seen == jobs.Keys - rest && IsLatest(walk.ends, seen, latest)
    {
      var name :| name in rest;
      ghost var earlier := walk.ends;
      StackStarts(jobs, name);
      var end := walk.End(name, []);
      if end.Failure? {
        ProblemBreaks(jobs, end.error);
        NoEnds(jobs, end.error);
        return Some(end.error), finish;
      }
      LatestWith(earlier, walk.ends, seen, name, latest);
      latest := if latest < end.value then end.value else latest;
      rest, seen := rest - {name}, seen + {name};
    }
    assert seen == jobs.Keys;
    FinishedAll(jobs, walk.ends, latest);
    if IsLongest(jobs, bound) {
      LongestIsUnique(jobs, bound, latest);
    }
    finish := AtLimits(walk.ends);
    if latest != bound {
      return Some(Ends(latest)), finish;
    }
    if NoNegativeLimit(jobs) {
      LimitsAreARun(jobs, walk.ends);
    }
    LatestIsAttained(walk.ends, jobs.Keys, latest);
    r := None;
  }

  lemma NothingFinished(jobs: Workflow)
    ensures AllFinished(jobs, map[]) && IsLatest(map[], {}, 0)
  {
  }

  lemma StackStarts(jobs: Workflow, name: string)
    requires name in jobs
    ensures IsStack(jobs, [], {}, name)
  {
  }

  lemma NoEnds(jobs: Workflow, problem: Problem)
    requires IsTrue(jobs, problem)
    ensures !problem.Ends?
  {
  }

  lemma LatestWith(ends: map<string, int>, ends': map<string, int>, seen: set<string>, name: string, latest: int)
    requires IsLatest(ends, seen, latest) && name in ends'
    requires forall n :: n in ends ==> n in ends' && ends'[n] == ends[n]
    ensures IsLatest(ends', seen + {name}, if latest < ends'[name] then ends'[name] else latest)
  {
  }

  lemma FinishedAll(jobs: Workflow, ends: map<string, int>, latest: int)
    requires AllFinished(jobs, ends) && IsLatest(ends, jobs.Keys, latest)
    ensures WellFormed(jobs) && IsLongest(jobs, latest) && ends.Keys == jobs.Keys
  {
    hide IsFinished;
    assert jobs.Keys <= ends.Keys;
    AllFinishedIsWellFormed(jobs, ends);
    assert ends.Keys <= jobs.Keys by {
      FinishedAreJobs(jobs, ends);
    }
    LatestIsLongest(jobs, ends, latest);
  }

  lemma LatestIsAttained(ends: map<string, int>, seen: set<string>, latest: int)
    requires IsLatest(ends, seen, latest)
    ensures latest == 0 || exists name :: name in AtLimits(ends) && AtLimits(ends)[name] == latest as real
  {
    if latest != 0 {
      var name :| name in seen && name in ends && ends[name] == latest;
      assert name in AtLimits(ends);
    }
  }

  lemma FinishedAreJobs(jobs: Workflow, ends: map<string, int>)
    requires AllFinished(jobs, ends)
    ensures ends.Keys <= jobs.Keys
  {
    forall name | name in ends.Keys ensures name in jobs.Keys {
      assert IsFinished(jobs, ends, name);
    }
  }

  // --------------------------------------------------------------- executions

  /** A run of the workflow: when each job ended. A job starts when the last of its needs ends,
      at once when it has none, and runs for no longer than its limit. */
  ghost predicate IsRun(jobs: Workflow, finish: map<string, real>) {
    && finish.Keys == jobs.Keys
    && forall name :: name in jobs ==> exists start :: StartsAt(jobs, finish, name, start) && RunsFor(jobs, finish, name, start)
  }

  ghost predicate StartsAt(jobs: Workflow, finish: map<string, real>, name: string, start: real)
    requires name in jobs
  {
    && (forall need :: need in jobs[name].needs ==> need in finish && finish[need] <= start)
    && 0.0 <= start
    && (start == 0.0 || exists need :: need in jobs[name].needs && need in finish && finish[need] == start)
  }

  predicate RunsFor(jobs: Workflow, finish: map<string, real>, name: string, start: real)
    requires name in jobs
  {
    name in finish && start <= finish[name] <= start + jobs[name].Limit() as real
  }

  /** The chain of jobs each of which the one before it waited for to the end. */
  lemma {:induction false} CriticalPath(
    jobs: Workflow, finish: map<string, real>, name: string, stack: seq<string>, visiting: set<string>)
    returns (p: seq<string>)
    requires WellFormed(jobs) && IsRun(jobs, finish) && name in jobs
    requires IsStack(jobs, stack, visiting, name)
    ensures IsPathFrom(jobs, name, p) && finish[name] <= Weight(jobs, p) as real
    decreases jobs.Keys - visiting
  {
    hide WellFormed, IsStack;
    var start :| StartsAt(jobs, finish, name, start) && RunsFor(jobs, finish, name, start);
    if start == 0.0 {
      p := [name];
    } else {
      var need :| need in jobs[name].needs && need in finish && finish[need] == start;
      FreshOnStack(jobs, stack, visiting, name);
      StackGrows(jobs, stack, visiting, name, need);
      assert need in finish.Keys && name in jobs.Keys;
      var rest := CriticalPath(jobs, finish, need, stack + [name], visiting + {name});
      PathExtends(jobs, name, rest);
      p := [name] + rest;
    }
  }

  lemma FreshOnStack(jobs: Workflow, stack: seq<string>, visiting: set<string>, name: string)
    requires WellFormed(jobs) && name in jobs && IsStack(jobs, stack, visiting, name)
    ensures name !in visiting
  {
    if name in visiting {
      CycleClosed(jobs, stack, visiting, name);
      ProblemBreaks(jobs, Cyclic(name));
    }
  }

  /** No run whose jobs keep to their limits outlasts the bound. */
  lemma RunsEndByTheBound(jobs: Workflow, bound: int, finish: map<string, real>, name: string)
    requires WellFormed(jobs) && IsLongest(jobs, bound) && IsRun(jobs, finish) && name in jobs
    ensures name in finish && finish[name] <= bound as real
  {
    hide WellFormed;
    StackStarts(jobs, name);
    var p := CriticalPath(jobs, finish, name, [], {});
    assert name in finish.Keys;
  }

  /** How long a job of a run may take: its own limit, or six hours without one. */
  lemma RunsForMinutes(jobs: Workflow, finish: map<string, real>, name: string, start: real)
    requires name in jobs
    ensures RunsFor(jobs, finish, name, start) <==>
      && name in finish && start <= finish[name]
      && (jobs[name].timeoutMinutes != 0 ==> finish[name] - start <= jobs[name].timeoutMinutes as real)
      && (jobs[name].timeoutMinutes == 0 ==> finish[name] - start <= 6.0 * 60.0)
  {
  }

  predicate NoNegativeLimit(jobs: Workflow) {
    forall name :: name in jobs ==> 0 <= jobs[name].timeoutMinutes
  }

  function AtLimits(ends: map<string, int>): map<string, real> {
    map name | name in ends :: ends[name] as real
  }

  /** The run in which every job takes its whole limit. */
  lemma LimitsAreARun(jobs: Workflow, ends: map<string, int>)
    requires AllFinished(jobs, ends) && jobs.Keys == ends.Keys && NoNegativeLimit(jobs)
    ensures IsRun(jobs, AtLimits(ends))
  {
    hide IsFinished, StartsAt, RunsFor;
    var finish := AtLimits(ends);
    forall name | name in jobs
      ensures exists start :: StartsAt(jobs, finish, name, start) && RunsFor(jobs, finish, name, start)
    {
      assert name in jobs.Keys && IsFinished(jobs, ends, name);
      LimitsStart(jobs, ends, name);
    }
  }

  /** The schedule of the limits is a run if and only if no limit is negative; a workflow with a
      negative limit has no run at all. */
  lemma LimitsAreARunExactly(jobs: Workflow, ends: map<string, int>)
    requires AllFinished(jobs, ends) && jobs.Keys == ends.Keys
    ensures IsRun(jobs, AtLimits(ends)) <==> NoNegativeLimit(jobs)
    ensures (exists finish :: IsRun(jobs, finish)) <==> NoNegativeLimit(jobs)
  {
    if NoNegativeLimit(jobs) {
      LimitsAreARun(jobs, ends);
    }
    forall finish | IsRun(jobs, finish) ensures NoNegativeLimit(jobs) {
      RunsHaveLimits(jobs, finish);
    }
  }

  lemma RunsHaveLimits(jobs: Workflow, finish: map<string, real>)
    requires IsRun(jobs, finish)
    ensures NoNegativeLimit(jobs)
  {
    forall name | name in jobs ensures 0 <= jobs[name].timeoutMinutes {
      var start :| StartsAt(jobs, finish, name, start) && RunsFor(jobs, finish, name, start);
    }
  }

  lemma LimitsStart(jobs: Workflow, ends: map<string, int>, name: string)
    requires name in jobs && IsFinished(jobs, ends, name) && NoNegativeLimit(jobs)
    ensures var start := (ends[name] - jobs[name].Limit()) as real;
      StartsAt(jobs, AtLimits(ends), name, start) && RunsFor(jobs, AtLimits(ends), name, start)
  {
    hide IsLongestFrom, IsCycle;
  }
}
