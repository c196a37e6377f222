/** The rotation of result trust in internal/certrotation/result_rotator.go and result_recovery.go:
a journal, the trust projection the manager mounts and the enrollment policy that fences issuance,
written one at a time by passes that may stop anywhere and whose writes may be lost.

A run interleaves the writes of the passes with time going by and with credentials being issued by
any replica that mounts a projection the policy names. One pass runs at a time, under its Lease.
 */
module ResultRotation {
  import opened Results

  // Times and durations are in nanoseconds.
  const SECOND: int := 1_000_000_000
  const MINUTE: int := 60 * SECOND
  const LIFETIME: int := 24 * 60 * MINUTE + 12 * MINUTE
  const SKEW: int := 5 * MINUTE

  /** A certificate authority, which is its key, and when it expires. */
  datatype Authority = Authority(id: nat, notAfter: int)

  datatype Leaf = Leaf(id: nat, issuer: Authority, notBefore: int, notAfter: int)

  datatype Keys = Keys(server: Authority, leaf: Leaf, client: Authority)

  /** The mounted files: what the server serves, what runners pin, who signs, and whom the server
      lets in. */
  datatype Projection = Projection(
    leaf: Leaf, serverTrust: seq<Authority>, signer: Authority, clientTrust: seq<Authority>)

  /** What the policy lets be issued: the signer and the bundle a new runner pins. */
  datatype Enrollment = Enrollment(signer: Authority, serverTrust: seq<Authority>)

  datatype Phase = Stable | Bootstrap | Renew | Prepare | Switch | Retire

  datatype Repair = Repair(current: Option<Leaf>, next: Option<Leaf>)

  datatype Journal = Journal(
    phase: Phase, current: Keys, next: Option<Keys>, fencedAt: Option<int>, previous: Option<Repair>, discard: bool)

  datatype Config = Config(renewalThreshold: int, servingValidity: int, probeTimeout: int)

  function ProjectionOf(k: Keys): Projection {
    Projection(k.leaf, [k.server], k.client, [k.client])
  }

  function EnrollmentOf(p: Projection): Enrollment {
    Enrollment(p.signer, p.serverTrust)
  }

  function Both(j: Journal): Projection
    requires j.next.Some?
  {
    Projection(j.current.leaf, [j.current.server, j.next.value.server], j.current.client,
               [j.current.client, j.next.value.client])
  }

  function Switched(j: Journal): Projection
    requires j.next.Some?
  {
    Both(j).(leaf := j.next.value.leaf, signer := j.next.value.client)
  }

  /** The projection a transition is on its way to. */
  function Desired(j: Journal): Projection
    requires HasShape(j)
  {
    match j.phase
    case Stable => ProjectionOf(j.current)
    case Bootstrap => ProjectionOf(j.current)
    case Renew => ProjectionOf(j.next.value)
    case Prepare => Both(j)
    case Switch => Switched(j)
    case Retire => ProjectionOf(j.next.value)
  }

  /** The projection it comes from, if there was one. */
  function Prior(j: Journal): Option<Projection>
    requires HasShape(j)
  {
    match j.phase
    case Stable => None
    case Bootstrap => None
    case Renew => Some(ProjectionOf(j.current))
    case Prepare => Some(ProjectionOf(j.current))
    case Switch => Some(Both(j))
    case Retire => Some(Switched(j))
  }

  function PriorEnrollment(j: Journal): Option<Enrollment>
    requires HasShape(j)
  {
    if Prior(j).None? then None else Some(EnrollmentOf(Prior(j).value))
  }

  // --------------------------------------------------------------- a stored journal

  /** Which fields a phase has. */
  predicate HasShape(j: Journal) {
    match j.phase
    case Stable => j.next.None? && j.fencedAt.None?
    case Bootstrap => j.next.None? && j.fencedAt.None?
    case Renew => j.next.Some? && j.fencedAt.None?
    case Retire => j.next.Some? && j.fencedAt.None?
    case Prepare => j.next.Some?
    case Switch => j.next.Some?
  }

  predicate AreKeys(k: Keys) {
    k.server != k.client && k.leaf.issuer == k.server
  }

  predicate HasKeys(j: Journal) {
    AreKeys(j.current) && (j.next.Some? ==> AreKeys(j.next.value))
  }

  /** The journal with the leaves it had before they were renewed. */
  function BeforeRepair(j: Journal): Journal {
    if j.previous.None? then j
    else
      var current := if j.previous.value.current.Some? then j.current.(leaf := j.previous.value.current.value) else j.current;
      var next :=
        if j.previous.value.next.Some? && j.next.Some? then Some(j.next.value.(leaf := j.previous.value.next.value)) else j.next;
      j.(current := current, next := next, previous := None)
  }

  predicate HasRecovery(j: Journal) {
    && (j.phase == Stable ==> j.previous.None? && !j.discard)
    && (j.previous.Some? ==>
          && (j.previous.value.current.Some? || j.previous.value.next.Some?)
          && (j.previous.value.next.Some? ==> j.next.Some?)
          && HasKeys(BeforeRepair(j)))
  }

  /** What a pass accepts of the journal it reads. */
  predicate IsDecodable(j: Journal, now: int) {
    && HasShape(j) && HasKeys(j) && HasRecovery(j)
    && (j.fencedAt.Some? ==> j.fencedAt.value <= now + SKEW)
  }

  // --------------------------------------------------------------------- one pass

  predicate IsValid(l: Leaf, now: int) {
    l.notBefore <= now < l.notAfter
  }

  /** Both authorities a transition would end with have expired, by the clock-skew margin. */
  predicate CandidateExpired(j: Journal, now: int) {
    (j.next.Some? || j.phase == Bootstrap) &&
    var keys := if j.next.Some? then j.next.value else j.current;
    keys.server.notAfter + SKEW <= now && keys.client.notAfter + SKEW <= now
  }

  predicate AcceptsProjection(j: Journal, p: Option<Projection>)
    requires HasShape(j)
  {
    || p == Some(Desired(j)) || p == Prior(j)
    || (j.previous.Some? && HasShape(BeforeRepair(j)) &&
        (p == Some(Desired(BeforeRepair(j))) || p == Prior(BeforeRepair(j))))
    || (j.discard && p == Some(ProjectionOf(j.current)))
  }

  predicate AcceptsPolicy(j: Journal, e: Option<Enrollment>)
    requires HasShape(j)
  {
    || (j.discard && e == Some(EnrollmentOf(ProjectionOf(j.current))))
    || e == Some(EnrollmentOf(Desired(j)))
    || (j.fencedAt.None? && e == PriorEnrollment(j))
  }

  /** A leaf that will not last a probe, under an authority that still can sign another. */
  predicate NeedsLeaf(cfg: Config, k: Keys, now: int) {
    && MINUTE < k.server.notAfter - now
    && !(IsValid(k.leaf, now) && now + cfg.probeTimeout + MINUTE < k.leaf.notAfter)
  }

  predicate RepairsCurrent(cfg: Config, j: Journal, now: int) {
    (j.phase == Bootstrap || j.phase == Prepare) && NeedsLeaf(cfg, j.current, now)
  }

  predicate RepairsNext(cfg: Config, j: Journal, now: int) {
    j.next.Some? && NeedsLeaf(cfg, j.next.value, now)
  }

  /** What a pass generates when it needs it: keys, a leaf of the current ones, a leaf of the next. */
  datatype Generated = Generated(keys: Keys, leaf: Leaf, nextLeaf: Leaf)

  function Repaired(cfg: Config, j: Journal, now: int, made: Generated): Journal {
    var renewsCurrent, renewsNext := RepairsCurrent(cfg, j, now), RepairsNext(cfg, j, now);
    j.(current := if renewsCurrent then j.current.(leaf := made.leaf) else j.current,
       next := if renewsNext then Some(j.next.value.(leaf := made.nextLeaf)) else j.next,
       previous := Some(Repair(
         if renewsCurrent then Some(j.current.leaf) else None,
         if renewsNext then Some(j.next.value.leaf) else None)))
  }

  function RetirementDeadline(j: Journal): int
    requires j.fencedAt.Some?
  {
    var expires := if j.phase == Switch then j.current.client.notAfter else j.current.server.notAfter;
    Earlier(j.fencedAt.value + LIFETIME + SKEW, expires + SKEW)
  }

  function Earlier(a: int, b: int): int { if a < b then a else b }

  /** The next thing a pass does: write one object, wait or find nothing to do, fail its probe, or
      refuse what it reads. */
  datatype Action =
    | Save(journal: Journal) | SetPolicy(policy: Enrollment) | SetProjection(projection: Projection)
    | Rest | Unproved | Refuse

  /** What a pass decides with: the clock at its start and later in it, the clock once the policy was
      read back, what it generates, and whether its probe succeeds. */
  datatype Moment = Moment(now: int, later: int, stamp: int, made: Generated, probe: bool)

  function Decide(cfg: Config, at: Moment, journal: Option<Journal>, p: Option<Projection>, e: Option<Enrollment>): Action {
    if journal.None? then
      if p.Some? || e.Some? then Refuse
      else Save(Journal(Bootstrap, at.made.keys, None, None, None, false))
    else if !IsDecodable(journal.value, at.now) then Refuse
    else if journal.value.phase == Stable then DecideStable(cfg, at, journal.value, p, e)
    else if !AcceptsPolicy(journal.value, e) || !AcceptsProjection(journal.value, p) then Refuse
    else if journal.value.discard then DecideDiscard(at, journal.value, p, e)
    else if CandidateExpired(journal.value, at.now) then Save(journal.value.(discard := true))
    else if journal.value.previous.None? && (RepairsCurrent(cfg, journal.value, at.now) || RepairsNext(cfg, journal.value, at.now)) then
      Save(Repaired(cfg, journal.value, at.now, at.made))
    else DecideTransition(at, journal.value, p, e)
  }

  function DecideStable(cfg: Config, at: Moment, j: Journal, p: Option<Projection>, e: Option<Enrollment>): Action {
    var trust, keys, now := ProjectionOf(j.current), j.current, at.now;
    if p != Some(trust) || e != Some(EnrollmentOf(trust)) then Refuse
    else
      var renewCA :=
        || keys.server.notAfter <= now + cfg.renewalThreshold
        || keys.client.notAfter <= now + cfg.renewalThreshold
        || keys.server.notAfter <= now + cfg.servingValidity;
      var renewLeaf := keys.leaf.notAfter <= now + cfg.renewalThreshold;
      var neededUntil := Earlier(now + LIFETIME + SKEW + cfg.probeTimeout + MINUTE, keys.server.notAfter - 2 * SECOND);
      var repairLeaf :=
        MINUTE < keys.server.notAfter - now && (!IsValid(keys.leaf, now) || (renewCA && keys.leaf.notAfter <= neededUntil));
      if renewCA && !repairLeaf then Save(j.(next := Some(at.made.keys), phase := Prepare))
      else if renewLeaf || repairLeaf then Save(j.(next := Some(keys.(leaf := at.made.leaf)), phase := Renew))
      else if at.probe then Rest
      else Unproved
  }

  function DecideDiscard(at: Moment, j: Journal, p: Option<Projection>, e: Option<Enrollment>): Action {
    var trust := ProjectionOf(j.current);
    if !CandidateExpired(j, at.now) then Refuse
    else if e != Some(EnrollmentOf(trust)) then SetPolicy(EnrollmentOf(trust))
    else if p != Some(trust) then SetProjection(trust)
    else Save(Journal(Stable, j.current, None, None, None, false))
  }

  function DecideTransition(at: Moment, j: Journal, p: Option<Projection>, e: Option<Enrollment>): Action
    requires HasShape(j)
  {
    var desired := Desired(j);
    var waits := j.phase == Prepare || j.phase == Switch;
    if e != Some(EnrollmentOf(desired)) then SetPolicy(EnrollmentOf(desired))
    else if waits && j.fencedAt.None? then Save(j.(fencedAt := Some(at.stamp)))
    else if p != Some(desired) then SetProjection(desired)
    else if j.previous.Some? then Save(j.(previous := None))
    else if waits then
      if at.later < RetirementDeadline(j) then if at.probe then Rest else Unproved
      else if (j.phase == Switch || at.later < j.current.server.notAfter + SKEW) && !at.probe then Unproved
      else Save(j.(phase := if j.phase == Prepare then Switch else Retire, fencedAt := None))
    else if !at.probe then Unproved
    else Save(j.(current := if j.next.Some? then j.next.value else j.current, next := None, fencedAt := None, phase := Stable))
  }

  // ---------------------------------------------------------------------- the runs

  /** A credential pins the server bundle of its issuance. */
  datatype Credential = Credential(signer: Authority, serverTrust: seq<Authority>, notAfter: int)

  /** The three objects, the time, when the policy last changed, every projection there has been and
      every credential that was issued. */
  datatype World = World(
    now: int, journal: Option<Journal>, projection: Option<Projection>, policy: Option<Enrollment>,
    policySince: int, mounted: set<Projection>, issued: set<Credential>)

  predicate IsInitial(w: World) {
    w.journal.None? && w.projection.None? && w.policy.None? && w.policySince <= w.now && w.mounted == {} && w.issued == {}
  }

  /** Keys are of their own, and leaves are signed by the authority they are generated for. */
  predicate IsFresh(j: Option<Journal>, made: Generated) {
    && AreKeys(made.keys)
    && (j.Some? ==> made.keys.client != j.value.current.client && made.leaf.issuer == j.value.current.server)
    && (j.Some? && j.value.next.Some? ==> made.nextLeaf.issuer == j.value.next.value.server)
  }

  /** What a pass can have read of the clock: nothing in the future, and its stamp after the policy it
      has read. */
  predicate IsMoment(w: World, at: Moment) {
    at.now <= at.later <= w.now && w.policySince <= at.stamp <= w.now && IsFresh(w.journal, at.made)
  }

  function Applied(w: World, a: Action): World {
    match a
    case Save(j) => w.(journal := Some(j))
    case SetPolicy(e) => w.(policy := Some(e), policySince := w.now)
    case SetProjection(p) => w.(projection := Some(p), mounted := w.mounted + {p})
    case _ => w
  }

  /** A write of a pass takes effect, or is lost with the pass. */
  ghost predicate Passes(cfg: Config, w: World, w': World) {
    exists at :: IsMoment(w, at) && w' == Applied(w, Decide(cfg, at, w.journal, w.projection, w.policy))
  }

  predicate Waits(w: World, w': World) {
    w.now <= w'.now && w' == w.(now := w'.now)
  }

  /** A replica issues a credential from a projection it has mounted, now or long ago, that the policy
      names. Its clock may be ahead by the margin. */
  ghost predicate Issues(w: World, w': World) {
    exists c: Credential, p: Projection ::
      && p in w.mounted && w.policy == Some(EnrollmentOf(p))
      && c == Credential(p.signer, p.serverTrust, c.notAfter)
      && c.notAfter <= w.now + SKEW + LIFETIME && c.notAfter <= p.signer.notAfter
      && w' == w.(issued := w.issued + {c})
  }

  ghost predicate Next(cfg: Config, w: World, w': World) {
    w' == w || Waits(w, w') || Issues(w, w') || Passes(cfg, w, w')
  }

  ghost predicate IsRun(cfg: Config, run: seq<World>) {
    run != [] && IsInitial(run[0]) && forall k :: 0 < k < |run| ==> Next(cfg, run[k - 1], run[k])
  }

  // ------------------------------------------------------------- what every step keeps

  /** A credential that trusts the server of some keys and is let in by its client authority. */
  predicate Fits(c: Credential, k: Keys) {
    c.signer == k.client && k.server in c.serverTrust
  }

  /** What a credential that has not expired is, by the phase of the journal. */
  predicate IsServed(j: Journal, now: int, c: Credential)
    requires HasShape(j)
  {
    if j.discard then Fits(c, j.current)
    else
      match j.phase
      case Switch =>
        || (Fits(c, j.current) && (j.next.value.server in c.serverTrust || j.current.server.notAfter <= now))
        || (Fits(c, j.next.value) && j.current.server in c.serverTrust)
      case Retire => Fits(c, j.next.value)
      case _ => Fits(c, j.current)
  }

  predicate JournalHolds(w: World, j: Journal) {
    && IsDecodable(j, w.now)
    && (j.fencedAt.Some? ==> j.fencedAt.value <= w.now)
    && (j.discard ==> CandidateExpired(j, w.now))
    && (j.phase == Renew ==> j.next.value.server == j.current.server && j.next.value.client == j.current.client)
    && (j.phase == Prepare || j.phase == Switch || j.phase == Retire ==> j.next.value.client != j.current.client)
  }

  predicate ObjectsHold(w: World, j: Journal)
    requires HasShape(j)
  {
    && (j.phase == Stable ==> w.projection == Some(Desired(j)) && w.policy == Some(EnrollmentOf(Desired(j))))
    && AcceptsProjection(j, w.projection) && AcceptsPolicy(j, w.policy)
    && (j.fencedAt.Some? && !j.discard ==> w.policySince <= j.fencedAt.value)
    && (w.projection.None? ==> w.mounted == {} && w.issued == {})
  }

  /** No credential outlives its authority, or by more than a lifetime the policy that let it be. */
  predicate IsBounded(w: World, c: Credential) {
    && c.notAfter <= c.signer.notAfter
    && c.notAfter <= w.now + SKEW + LIFETIME
    && (w.policy != Some(Enrollment(c.signer, c.serverTrust)) ==> c.notAfter <= w.policySince + SKEW + LIFETIME)
  }

  ghost predicate CredentialsHold(w: World, j: Journal)
    requires HasShape(j)
  {
    forall c :: c in w.issued && w.now < c.notAfter ==> IsServed(j, w.now, c)
  }

  ghost predicate Invariant(w: World) {
    && w.policySince <= w.now
    && (forall c :: c in w.issued ==> IsBounded(w, c))
    && (w.journal.None? ==> w.projection.None? && w.policy.None? && w.mounted == {} && w.issued == {})
    && (w.journal.Some? ==>
          JournalHolds(w, w.journal.value) && ObjectsHold(w, w.journal.value) && CredentialsHold(w, w.journal.value))
  }

  lemma InitialHolds(w: World)
    requires IsInitial(w)
    ensures Invariant(w)
  {
  }

  lemma WaitKeeps(w: World, w': World)
    requires Invariant(w) && Waits(w, w')
    ensures Invariant(w')
  {
  }

  /** What the policy lets be issued is served. */
  lemma PolicyServes(w: World, j: Journal, c: Credential)
    requires JournalHolds(w, j) && ObjectsHold(w, j)
    requires w.policy == Some(Enrollment(c.signer, c.serverTrust)) && w.now < c.notAfter <= c.signer.notAfter
    ensures IsServed(j, w.now, c)
  {
    hide AcceptsProjection;
  }

  lemma IssueKeeps(w: World, w': World)
    requires Invariant(w) && Issues(w, w')
    ensures Invariant(w')
  {
    hide IsServed, AcceptsProjection, AcceptsPolicy, IsDecodable;
    var c: Credential, p: Projection :|
      && p in w.mounted && w.policy == Some(EnrollmentOf(p))
      && c == Credential(p.signer, p.serverTrust, c.notAfter)
      && c.notAfter <= w.now + SKEW + LIFETIME && c.notAfter <= p.signer.notAfter
      && w' == w.(issued := w.issued + {c});
    if w.now < c.notAfter {
      PolicyServes(w, w.journal.value, c);
    }
  }

  // ------------------------------------------------------------ what the writes keep

  lemma SetPolicyKeeps(w: World, j: Journal, e: Enrollment)
    requires Invariant(w) && w.journal == Some(j) && j.phase != Stable
    requires AcceptsPolicy(j, Some(e)) && (j.fencedAt.Some? ==> j.discard)
    ensures Invariant(Applied(w, SetPolicy(e)))
  {
    hide IsServed, AcceptsProjection, IsDecodable;
  }

  lemma SetProjectionKeeps(w: World, j: Journal, p: Projection)
    requires Invariant(w) && w.journal == Some(j) && j.phase != Stable && AcceptsProjection(j, Some(p))
    ensures Invariant(Applied(w, SetProjection(p)))
  {
    hide IsServed, AcceptsPolicy, IsDecodable;
  }

  lemma BootstrapKeeps(w: World, keys: Keys)
    requires Invariant(w) && w.journal.None? && AreKeys(keys)
    ensures Invariant(Applied(w, Save(Journal(Bootstrap, keys, None, None, None, false))))
  {
  }

  lemma PrepareKeeps(w: World, j: Journal, keys: Keys)
    requires Invariant(w) && w.journal == Some(j) && j.phase == Stable && AreKeys(keys) && keys.client != j.current.client
    ensures Invariant(Applied(w, Save(j.(next := Some(keys), phase := Prepare))))
  {
  }

  lemma RenewKeeps(w: World, j: Journal, leaf: Leaf)
    requires Invariant(w) && w.journal == Some(j) && j.phase == Stable && leaf.issuer == j.current.server
    ensures Invariant(Applied(w, Save(j.(next := Some(j.current.(leaf := leaf)), phase := Renew))))
  {
  }

  lemma FlagKeeps(w: World, j: Journal)
    requires Invariant(w) && w.journal == Some(j) && j.phase != Stable && !j.discard && CandidateExpired(j, w.now)
    ensures Invariant(Applied(w, Save(j.(discard := true))))
  {
    forall c | c in w.issued && w.now < c.notAfter ensures IsServed(j.(discard := true), w.now, c) {
      assert IsBounded(w, c) && IsServed(j, w.now, c);
    }
  }

  lemma DiscardedKeeps(w: World, j: Journal)
    requires Invariant(w) && w.journal == Some(j) && j.discard
    requires w.projection == Some(ProjectionOf(j.current)) && w.policy == Some(EnrollmentOf(ProjectionOf(j.current)))
    ensures Invariant(Applied(w, Save(Journal(Stable, j.current, None, None, None, false))))
  {
    var j' := Journal(Stable, j.current, None, None, None, false);
    forall c | c in w.issued && w.now < c.notAfter ensures IsServed(j', w.now, c) {
      assert IsServed(j, w.now, c);
    }
  }

  lemma RepairKeeps(cfg: Config, w: World, j: Journal, now: int, made: Generated)
    requires Invariant(w) && w.journal == Some(j) && j.phase != Stable && !j.discard && j.previous.None?
    requires RepairsCurrent(cfg, j, now) || RepairsNext(cfg, j, now)
    requires IsFresh(Some(j), made)
    ensures Invariant(Applied(w, Save(Repaired(cfg, j, now, made))))
  {
    var j' := Repaired(cfg, j, now, made);
    assert BeforeRepair(j') == j;
    assert HasShape(j') && HasKeys(j');
    assert EnrollmentOf(Desired(j')) == EnrollmentOf(Desired(j)) && PriorEnrollment(j') == PriorEnrollment(j);
    forall c | c in w.issued && w.now < c.notAfter ensures IsServed(j', w.now, c) {
      assert IsServed(j, w.now, c);
    }
  }

  lemma ClearKeeps(w: World, j: Journal)
    requires Invariant(w) && w.journal == Some(j) && j.phase != Stable && !j.discard
    requires w.projection == Some(Desired(j))
    ensures Invariant(Applied(w, Save(j.(previous := None))))
  {
    var j' := j.(previous := None);
    assert Desired(j') == Desired(j) && PriorEnrollment(j') == PriorEnrollment(j);
    forall c | c in w.issued && w.now < c.notAfter ensures IsServed(j', w.now, c) {
      assert IsServed(j, w.now, c);
    }
  }

  lemma FenceKeeps(w: World, j: Journal, stamp: int)
    requires Invariant(w) && w.journal == Some(j) && (j.phase == Prepare || j.phase == Switch) && !j.discard
    requires j.fencedAt.None? && w.policy == Some(EnrollmentOf(Desired(j))) && w.policySince <= stamp <= w.now
    ensures Invariant(Applied(w, Save(j.(fencedAt := Some(stamp)))))
  {
    var j' := j.(fencedAt := Some(stamp));
    assert Desired(j') == Desired(j) && Prior(j') == Prior(j);
    assert BeforeRepair(j') == BeforeRepair(j).(fencedAt := Some(stamp));
    forall c | c in w.issued && w.now < c.notAfter ensures IsServed(j', w.now, c) {
      assert IsServed(j, w.now, c);
    }
  }

  /** The first wait: whoever pins the old server alone has expired, or the old server has. */
  lemma SwitchKeeps(w: World, j: Journal)
    requires Invariant(w) && w.journal == Some(j) && j.phase == Prepare && !j.discard && j.previous.None?
    requires j.fencedAt.Some? && RetirementDeadline(j) <= w.now
    requires w.policy == Some(EnrollmentOf(Desired(j))) && w.projection == Some(Desired(j))
    ensures Invariant(Applied(w, Save(j.(phase := Switch, fencedAt := None))))
  {
    var j' := j.(phase := Switch, fencedAt := None);
    forall c | c in w.issued && w.now < c.notAfter ensures IsServed(j', w.now, c) {
      assert IsServed(j, w.now, c) && IsBounded(w, c);
    }
  }

  /** The second wait: whoever the old client authority signed has expired. */
  lemma RetireKeeps(w: World, j: Journal)
    requires Invariant(w) && w.journal == Some(j) && j.phase == Switch && !j.discard && j.previous.None?
    requires j.fencedAt.Some? && RetirementDeadline(j) <= w.now
    requires w.policy == Some(EnrollmentOf(Desired(j))) && w.projection == Some(Desired(j))
    ensures Invariant(Applied(w, Save(j.(phase := Retire, fencedAt := None))))
  {
    var j' := j.(phase := Retire, fencedAt := None);
    forall c | c in w.issued && w.now < c.notAfter ensures IsServed(j', w.now, c) {
      assert IsServed(j, w.now, c) && IsBounded(w, c);
    }
  }

  lemma SettleKeeps(w: World, j: Journal)
    requires Invariant(w) && w.journal == Some(j) && !j.discard && j.previous.None?
    requires j.phase == Bootstrap || j.phase == Renew || j.phase == Retire
    requires w.policy == Some(EnrollmentOf(Desired(j))) && w.projection == Some(Desired(j))
    ensures var keys := if j.next.Some? then j.next.value else j.current;
      Invariant(Applied(w, Save(j.(current := keys, next := None, fencedAt := None, phase := Stable))))
  {
    var keys := if j.next.Some? then j.next.value else j.current;
    var j' := j.(current := keys, next := None, fencedAt := None, phase := Stable);
    forall c | c in w.issued && w.now < c.notAfter ensures IsServed(j', w.now, c) {
      assert IsServed(j, w.now, c);
    }
  }

  lemma TransitionKeeps(w: World, j: Journal, at: Moment)
    requires Invariant(w) && w.journal == Some(j) && j.phase != Stable && !j.discard && IsMoment(w, at)
    ensures Invariant(Applied(w, DecideTransition(at, j, w.projection, w.policy)))
  {
    hide Invariant;
    HoldsHere(w, j);
    var a := DecideTransition(at, j, w.projection, w.policy);
    match a {
      case SetPolicy(e) => SetPolicyKeeps(w, j, e);
      case SetProjection(p) => SetProjectionKeeps(w, j, p);
      case Save(j') =>
        if (j.phase == Prepare || j.phase == Switch) && j.fencedAt.None? {
          FenceKeeps(w, j, at.stamp);
        } else if j.previous.Some? {
          ClearKeeps(w, j);
        } else if j.phase == Prepare {
          SwitchKeeps(w, j);
        } else if j.phase == Switch {
          RetireKeeps(w, j);
        } else {
          SettleKeeps(w, j);
        }
      case _ =>
    }
  }

  lemma HoldsHere(w: World, j: Journal)
    requires Invariant(w) && w.journal == Some(j)
    ensures HasShape(j) && JournalHolds(w, j) && ObjectsHold(w, j)
  {
  }

  lemma PassKeeps(cfg: Config, w: World, w': World)
    requires Invariant(w) && Passes(cfg, w, w')
    ensures Invariant(w')
  {
    hide Invariant, DecideTransition, AcceptsProjection, AcceptsPolicy, IsDecodable, Repaired, RepairsCurrent, RepairsNext;
    var at :| IsMoment(w, at) && w' == Applied(w, Decide(cfg, at, w.journal, w.projection, w.policy));
    if w.journal.None? {
      BootstrapKeepsOrNot(w, at);
    } else {
      var j := w.journal.value;
      HoldsHere(w, j);
      if !IsDecodable(j, at.now) {
      } else if j.phase == Stable {
        StablePassKeeps(cfg, w, j, at);
      } else if !AcceptsPolicy(j, w.policy) || !AcceptsProjection(j, w.projection) {
      } else if j.discard {
        DiscardPassKeeps(w, j, at);
      } else if CandidateExpired(j, at.now) {
        FlagKeeps(w, j);
      } else if j.previous.None? && (RepairsCurrent(cfg, j, at.now) || RepairsNext(cfg, j, at.now)) {
        RepairKeeps(cfg, w, j, at.now, at.made);
      } else {
        TransitionKeeps(w, j, at);
      }
    }
  }

  lemma BootstrapKeepsOrNot(w: World, at: Moment)
    requires Invariant(w) && w.journal.None? && IsMoment(w, at)
    ensures w.projection.None? && w.policy.None?
    ensures Invariant(Applied(w, Save(Journal(Bootstrap, at.made.keys, None, None, None, false))))
  {
    BootstrapKeeps(w, at.made.keys);
  }

  lemma StablePassKeeps(cfg: Config, w: World, j: Journal, at: Moment)
    requires Invariant(w) && w.journal == Some(j) && j.phase == Stable && IsMoment(w, at)
    ensures Invariant(Applied(w, DecideStable(cfg, at, j, w.projection, w.policy)))
  {
    hide Invariant;
    var a := DecideStable(cfg, at, j, w.projection, w.policy);
    if a.Save? {
      if a.journal.phase == Prepare {
        PrepareKeeps(w, j, at.made.keys);
      } else {
        RenewKeeps(w, j, at.made.leaf);
      }
    }
  }

  lemma DiscardPassKeeps(w: World, j: Journal, at: Moment)
    requires Invariant(w) && w.journal == Some(j) && j.phase != Stable && j.discard
    ensures Invariant(Applied(w, DecideDiscard(at, j, w.projection, w.policy)))
  {
    hide Invariant;
    HoldsHere(w, j);
    var trust := ProjectionOf(j.current);
    if !CandidateExpired(j, at.now) {
    } else if w.policy != Some(EnrollmentOf(trust)) {
      SetPolicyKeeps(w, j, EnrollmentOf(trust));
    } else if w.projection != Some(trust) {
      SetProjectionKeeps(w, j, trust);
    } else {
      DiscardedKeeps(w, j);
    }
  }

  lemma NextKeeps(cfg: Config, w: World, w': World)
    requires Invariant(w) && Next(cfg, w, w')
    ensures Invariant(w')
  {
    hide Invariant, Passes, Issues, Waits;
    if w' == w {
    } else if Waits(w, w') {
      WaitKeeps(w, w');
    } else if Issues(w, w') {
      IssueKeeps(w, w');
    } else {
      PassKeeps(cfg, w, w');
    }
  }

  lemma {:induction false} RunHolds(cfg: Config, run: seq<World>, k: nat)
    requires IsRun(cfg, run) && k < |run|
    ensures Invariant(run[k])
  {
    hide Invariant, Next;
    if k == 0 {
      InitialHolds(run[0]);
    } else {
      RunHolds(cfg, run, k - 1);
      NextKeeps(cfg, run[k - 1], run[k]);
    }
  }

  // ----------------------------------------------------------------- what runs promise

  predicate LetsIn(p: Option<Projection>, a: Authority) {
    p.Some? && a in p.value.clientTrust
  }

  /** The projections a journal accepts let in nobody but its two client authorities. */
  lemma LetsInTwo(w: World, j: Journal, a: Authority)
    requires JournalHolds(w, j) && ObjectsHold(w, j) && LetsIn(w.projection, a)
    ensures a == j.current.client || (j.next.Some? && a == j.next.value.client)
  {
  }

  /** Where a pass takes an authority out of the trust, nothing it signed is unexpired. */
  lemma PassRetires(cfg: Config, w: World, at: Moment, a: Authority, c: Credential)
    requires Invariant(w) && IsMoment(w, at)
    requires var w' := Applied(w, Decide(cfg, at, w.journal, w.projection, w.policy));
      LetsIn(w.projection, a) && !LetsIn(w'.projection, a)
    requires c in w.issued && c.signer == a
    ensures c.notAfter <= w.now
  {
    hide IsDecodable, AcceptsPolicy, RepairsCurrent, RepairsNext, Repaired, DecideStable;
    var j := w.journal.value;
    HoldsHere(w, j);
    LetsInTwo(w, j, a);
    assert IsBounded(w, c);
    assert w.now < c.notAfter ==> IsServed(j, w.now, c);
    StableWritesJournal(cfg, at, j, w.projection, w.policy);
  }

  lemma StableWritesJournal(cfg: Config, at: Moment, j: Journal, p: Option<Projection>, e: Option<Enrollment>)
    ensures !DecideStable(cfg, at, j, p, e).SetProjection?
  {
  }

  /** Safety over every run, with any write lost, any pass stopped and any credential issued on the
      way: a client authority leaves the trust projection only after every credential it signed has
      expired. */
  lemma AuthorityOutlivesItsCredentials(cfg: Config, run: seq<World>, k: nat, a: Authority, c: Credential)
    requires IsRun(cfg, run) && 0 < k < |run|
    requires LetsIn(run[k - 1].projection, a) && !LetsIn(run[k].projection, a)
    requires c in run[k].issued && c.signer == a
    ensures c.notAfter <= run[k].now
  {
    hide Invariant, Decide;
    var w, w' := run[k - 1], run[k];
    RunHolds(cfg, run, k - 1);
    assert Next(cfg, w, w');
    assert Passes(cfg, w, w');
    var at :| IsMoment(w, at) && w' == Applied(w, Decide(cfg, at, w.journal, w.projection, w.policy));
    PassRetires(cfg, w, at, a, c);
  }

  /** The server lets the credential in, and serves a certificate of an authority it pins, unless one
      it pins has expired. */
  predicate IsUsable(c: Credential, p: Projection, now: int) {
    && c.signer in p.clientTrust
    && (p.leaf.issuer in c.serverTrust || exists a :: a in c.serverTrust && a.notAfter <= now)
  }

  /** In every state of every run a credential that has not expired is usable with the projection
      there is, and while an expired candidate is discarded with the projection that is put back. */
  lemma UnexpiredIsUsable(cfg: Config, run: seq<World>, k: nat, c: Credential)
    requires IsRun(cfg, run) && k < |run| && c in run[k].issued && run[k].now < c.notAfter
    ensures run[k].journal.Some? && run[k].projection.Some?
    ensures var w, j := run[k], run[k].journal.value;
      IsUsable(c, if j.discard then ProjectionOf(j.current) else w.projection.value, w.now)
  {
    RunHolds(cfg, run, k);
    UsableHere(run[k], c);
  }

  /** Whom the projection there is lets in, and what it serves with, by the phase of the journal. */
  lemma AcceptedTrust(w: World, j: Journal)
    requires JournalHolds(w, j) && ObjectsHold(w, j) && !j.discard && w.projection.Some?
    ensures var p := w.projection.value;
      match j.phase
      case Switch =>
        && j.current.client in p.clientTrust && j.next.value.client in p.clientTrust
        && (p.leaf.issuer == j.current.server || p.leaf.issuer == j.next.value.server)
      case Retire => j.next.value.client in p.clientTrust && p.leaf.issuer == j.next.value.server
      case _ => j.current.client in p.clientTrust && p.leaf.issuer == j.current.server
  {
    hide AcceptsPolicy, CandidateExpired;
  }

  lemma UsableHere(w: World, c: Credential)
    requires Invariant(w) && c in w.issued && w.now < c.notAfter
    ensures w.journal.Some? && w.projection.Some?
    ensures IsUsable(c, if w.journal.value.discard then ProjectionOf(w.journal.value.current) else w.projection.value, w.now)
  {
    hide AcceptsProjection, AcceptsPolicy, CandidateExpired;
    var j := w.journal.value;
    HoldsHere(w, j);
    assert IsServed(j, w.now, c);
    if !j.discard {
      AcceptedTrust(w, j);
    }
  }

  /** A pass is never refused over what earlier passes left, wherever they stopped and whichever of
      their writes were lost, even if its clock is behind theirs by the margin; but a candidate is
      discarded only by a clock that has seen it expire. */
  lemma NothingIsRefused(cfg: Config, run: seq<World>, k: nat, at: Moment)
    requires IsRun(cfg, run) && k < |run| && run[k].now - SKEW <= at.now <= run[k].now
    ensures var w := run[k];
      Decide(cfg, at, w.journal, w.projection, w.policy) == Refuse <==>
        w.journal.Some? && w.journal.value.discard && !CandidateExpired(w.journal.value, at.now)
  {
    hide Invariant;
    RunHolds(cfg, run, k);
    AcceptedHere(cfg, run[k], at);
  }

  lemma AcceptedHere(cfg: Config, w: World, at: Moment)
    requires Invariant(w) && w.now - SKEW <= at.now <= w.now
    ensures Decide(cfg, at, w.journal, w.projection, w.policy) == Refuse <==>
      w.journal.Some? && w.journal.value.discard && !CandidateExpired(w.journal.value, at.now)
  {
    hide AcceptsProjection, AcceptsPolicy, Repaired, RepairsCurrent, RepairsNext;
    if w.journal.Some? {
      HoldsHere(w, w.journal.value);
    }
  }

  predicate SameAuthorities(a: Keys, b: Keys) {
    a.server == b.server && a.client == b.client
  }

  /** One journal goes on from another: a transition keeps its candidate and a wait its start, phases
      come in order, and it ends with the candidate, or with what was there if that has expired. */
  predicate GoesOn(j: Journal, j': Journal) {
    if j'.phase == Stable then
      j'.next.None? && SameAuthorities(j'.current, if j.next.Some? && !j.discard then j.next.value else j.current)
    else
      && SameAuthorities(j'.current, j.current)
      && (j.phase == Stable ==> j'.phase == Prepare || j'.phase == Renew)
      && (j.phase != Stable ==>
            && (j.discard ==> j'.discard)
            && j'.next.Some? == j.next.Some?
            && (j.next.Some? ==> SameAuthorities(j'.next.value, j.next.value))
            && (j'.phase == j.phase || (j.phase == Prepare && j'.phase == Switch) || (j.phase == Switch && j'.phase == Retire))
            && (j'.phase == j.phase && j.fencedAt.Some? ==> j'.fencedAt == j.fencedAt))
  }

  lemma JournalGoesOn(cfg: Config, w: World, at: Moment, j: Journal)
    requires w.journal == Some(j) && HasShape(j)
    ensures var a := Decide(cfg, at, w.journal, w.projection, w.policy); a.Save? ==> GoesOn(j, a.journal)
  {
    hide AcceptsProjection, AcceptsPolicy, IsDecodable, NeedsLeaf;
  }

  /** A transition that has begun is resumed, never replaced: over any step of any run the journal
      stays or goes on. */
  lemma TransitionsAreResumed(cfg: Config, run: seq<World>, k: nat)
    requires IsRun(cfg, run) && 0 < k < |run| && run[k - 1].journal.Some?
    ensures run[k].journal.Some?
    ensures run[k].journal == run[k - 1].journal || GoesOn(run[k - 1].journal.value, run[k].journal.value)
  {
    hide Invariant, Decide, GoesOn;
    var w, w' := run[k - 1], run[k];
    RunHolds(cfg, run, k - 1);
    HoldsHere(w, w.journal.value);
    assert Next(cfg, w, w');
    if Passes(cfg, w, w') {
      var at :| IsMoment(w, at) && w' == Applied(w, Decide(cfg, at, w.journal, w.projection, w.policy));
      JournalGoesOn(cfg, w, at, w.journal.value);
    }
  }

  // ------------------------------------------------------------------------- renewal

  /** What a rotator is built with: a threshold longer than three waits. */
  predicate IsConfig(cfg: Config) {
    3 * (LIFETIME + SKEW) < cfg.renewalThreshold < cfg.servingValidity
  }

  /** Everything lasts beyond the threshold, and the server's authority beyond a new leaf. */
  predicate IsHealthy(cfg: Config, k: Keys, now: int) {
    && now + cfg.renewalThreshold < k.client.notAfter
    && now + cfg.servingValidity < k.server.notAfter
    && k.leaf.notBefore <= now && now + cfg.renewalThreshold < k.leaf.notAfter
  }

  /** Between transitions a pass has nothing to write exactly when the trust is healthy; otherwise it
      begins a transition, and one that replaces the authorities leaves them a whole leaf to serve
      the first wait with, or nothing to serve. */
  lemma StableRenewsWhatAges(cfg: Config, w: World, at: Moment)
    requires IsConfig(cfg) && Invariant(w) && w.journal.Some? && w.journal.value.phase == Stable && at.now == w.now
    ensures var a, keys := Decide(cfg, at, w.journal, w.projection, w.policy), w.journal.value.current;
      && (a.Rest? || a.Unproved? <==> IsHealthy(cfg, keys, w.now))
      && (!IsHealthy(cfg, keys, w.now) ==> a.Save? && (a.journal.phase == Prepare || a.journal.phase == Renew))
      && (a.Save? && a.journal.phase == Prepare ==>
            || keys.server.notAfter <= w.now + MINUTE
            || (IsValid(keys.leaf, w.now) &&
                (w.now + LIFETIME + SKEW + cfg.probeTimeout + MINUTE < keys.leaf.notAfter ||
                 keys.server.notAfter - 2 * SECOND < keys.leaf.notAfter)))
  {
    HoldsHere(w, w.journal.value);
  }

  /** Which transition begins: new authorities exactly when one of them ages and the leaf lasts the
      first wait, lasts as long as the authority does, or cannot be renewed; a new leaf alone in
      every other case that is not healthy. */
  lemma StableChooses(cfg: Config, w: World, at: Moment)
    requires Invariant(w) && w.journal.Some? && w.journal.value.phase == Stable && at.now == w.now
    ensures var a, j, now := Decide(cfg, at, w.journal, w.projection, w.policy), w.journal.value, w.now;
      var server, client, leaf := j.current.server, j.current.client, j.current.leaf;
      var ages := server.notAfter <= now + cfg.renewalThreshold || client.notAfter <= now + cfg.renewalThreshold ||
        server.notAfter <= now + cfg.servingValidity;
      var lasts := leaf.notBefore <= now < leaf.notAfter &&
        (now + LIFETIME + SKEW + cfg.probeTimeout + MINUTE < leaf.notAfter || server.notAfter - 2 * SECOND < leaf.notAfter);
      && (a == Save(Journal(Prepare, j.current, Some(at.made.keys), None, None, false)) <==>
            ages && (lasts || server.notAfter - now <= MINUTE))
      && (a.Save? && a.journal.phase != Prepare ==>
            a == Save(Journal(Renew, j.current, Some(Keys(server, at.made.leaf, client)), None, None, false)))
      && (ages && !lasts && MINUTE < server.notAfter - now ==> a.Save? && a.journal.phase == Renew)
      && (!ages && leaf.notAfter <= now + cfg.renewalThreshold ==> a.Save? && a.journal.phase == Renew)
  {
    HoldsHere(w, w.journal.value);
  }

  // ------------------------------------------------------------------- within a transition

  /** A leaf that will not last a probe and a minute, of an authority with more than a minute left. */
  predicate Wears(cfg: Config, k: Keys, now: int) {
    k.server.notAfter - now > MINUTE && (now < k.leaf.notBefore || k.leaf.notAfter <= now + cfg.probeTimeout + MINUTE)
  }

  /** A transition gives up its candidate exactly when both its authorities expired a margin ago. */
  lemma CandidateIsGivenUp(cfg: Config, w: World, at: Moment)
    requires Invariant(w) && w.journal.Some? && at.now == w.now
    requires var j := w.journal.value; j.phase != Stable && !j.discard
    ensures var a, j := Decide(cfg, at, w.journal, w.projection, w.policy), w.journal.value;
      var keys := if j.next.Some? then j.next.value else j.current;
      (a.Save? && a.journal.discard <==> keys.server.notAfter <= w.now - SKEW && keys.client.notAfter <= w.now - SKEW)
  {
    hide AcceptsProjection, AcceptsPolicy, NeedsLeaf;
    HoldsHere(w, w.journal.value);
  }

  /** Otherwise it renews exactly the leaves that wear out, that of the keys it serves with now only
      before they are replaced, and keeps both versions until the projection has the new ones. */
  lemma WornLeavesAreRenewed(cfg: Config, w: World, at: Moment)
    requires Invariant(w) && w.journal.Some? && at.now == w.now && 0 <= cfg.probeTimeout
    requires var j := w.journal.value; j.phase != Stable && !j.discard && j.previous.None?
    requires var j := w.journal.value;
      var keys := if j.next.Some? then j.next.value else j.current;
      w.now < keys.server.notAfter + SKEW || w.now < keys.client.notAfter + SKEW
    ensures var a, j := Decide(cfg, at, w.journal, w.projection, w.policy), w.journal.value;
      var first := (j.phase == Bootstrap || j.phase == Prepare) && Wears(cfg, j.current, w.now);
      var second := j.next.Some? && Wears(cfg, j.next.value, w.now);
      && (first || second <==> a.Save? && a.journal.previous.Some?)
      && (first || second ==>
            a.journal == j.(
              current := if first then j.current.(leaf := at.made.leaf) else j.current,
              next := if second then Some(j.next.value.(leaf := at.made.nextLeaf)) else j.next,
              previous := Some(Repair(
                if first then Some(j.current.leaf) else None, if second then Some(j.next.value.leaf) else None))))
  {
    hide AcceptsProjection, AcceptsPolicy;
    HoldsHere(w, w.journal.value);
  }

  /** The writes of a transition come in order: the policy, the fence of a wait once the policy is
      there, the projection the policy names once the fence is kept, and the journal last. */
  lemma WritesComeInOrder(cfg: Config, at: Moment, j: Journal, p: Option<Projection>, e: Option<Enrollment>)
    requires HasShape(j) && j.phase != Stable
    ensures var a := Decide(cfg, at, Some(j), p, e);
      && (a.SetPolicy? ==> e != Some(a.policy) && (j.fencedAt.None? || j.discard))
      && (a.SetProjection? ==>
            && p != Some(a.projection) && e == Some(Enrollment(a.projection.signer, a.projection.serverTrust))
            && (j.fencedAt.Some? || j.discard || (j.phase != Prepare && j.phase != Switch)))
      && (a.Save? && a.journal.fencedAt.Some? && j.fencedAt.None? ==>
            a.journal == j.(fencedAt := Some(at.stamp)) && e == Some(EnrollmentOf(Desired(j))))
      && (a.Save? && a.journal.phase != j.phase ==>
            && p.Some? && e == Some(Enrollment(p.value.signer, p.value.serverTrust))
            && p == Some(if j.discard then ProjectionOf(j.current) else Desired(j)))
  {
    hide AcceptsProjection, IsDecodable, NeedsLeaf;
  }

  /** What a probe decides: a pass rests only after one that succeeds and fails only with one that does
      not, and no transition moves on without one, but from a server authority that has expired. */
  lemma ProbeDecides(cfg: Config, at: Moment, j: Journal, p: Option<Projection>, e: Option<Enrollment>)
    requires HasShape(j)
    ensures var a := Decide(cfg, at, Some(j), p, e);
      && (a.Rest? ==> at.probe) && (a.Unproved? ==> !at.probe)
      && (a.Save? && j.phase != Stable && !j.discard && a.journal.phase != j.phase ==>
            at.probe || (j.phase == Prepare && j.current.server.notAfter + SKEW <= at.later))
      && (a.Unproved? && j.phase == Prepare ==> at.later < j.current.server.notAfter + SKEW)
  {
    hide AcceptsProjection, AcceptsPolicy, IsDecodable, NeedsLeaf;
  }

  /** Over any step of any run: a phase is left only with a probe that succeeded, unless the server
      authority it would have probed had expired a margin ago, or the candidate is discarded. */
  lemma PhasesAreProved(cfg: Config, run: seq<World>, k: nat)
    requires IsRun(cfg, run) && 0 < k < |run| && run[k - 1].journal.Some? && run[k].journal.Some?
    requires var j, j' := run[k - 1].journal.value, run[k].journal.value;
      j.phase != Stable && !j.discard && j'.phase != j.phase
    ensures var w, j := run[k - 1], run[k - 1].journal.value;
      || (j.phase == Prepare && j.current.server.notAfter + SKEW <= w.now)
      || exists at :: IsMoment(w, at) && at.probe && run[k] == Applied(w, Decide(cfg, at, w.journal, w.projection, w.policy))
  {
    hide Invariant, Decide;
    var w, w' := run[k - 1], run[k];
    RunHolds(cfg, run, k - 1);
    HoldsHere(w, w.journal.value);
    assert Next(cfg, w, w');
    assert Passes(cfg, w, w');
    var at :| IsMoment(w, at) && w' == Applied(w, Decide(cfg, at, w.journal, w.projection, w.policy));
    ProbeDecides(cfg, at, w.journal.value, w.projection, w.policy);
  }

  // ---------------------------------------------------------------------- foreign state

  /** What a pass takes for its own: without a journal nothing at all, and with one only keys that
      belong together, a fence that is not ahead of the clock, the trust of those keys and, once a
      wait has begun, the policy it began with. */
  lemma ForeignIsRefused(cfg: Config, at: Moment, journal: Option<Journal>, p: Option<Projection>, e: Option<Enrollment>)
    requires Decide(cfg, at, journal, p, e) != Refuse
    ensures journal.None? ==> p.None? && e.None?
    ensures journal.Some? ==> var j := journal.value;
      && j.current.server != j.current.client && j.current.leaf.issuer == j.current.server
      && (j.next.Some? ==> j.next.value.server != j.next.value.client && j.next.value.leaf.issuer == j.next.value.server)
      && (j.next.Some? <==> j.phase != Stable && j.phase != Bootstrap)
      && (j.fencedAt.Some? ==> (j.phase == Prepare || j.phase == Switch) && j.fencedAt.value - 5 * MINUTE <= at.now)
      && (j.phase == Stable ==> j.previous.None? && !j.discard)
      && (j.previous.Some? ==> j.previous.value.current.Some? || (j.previous.value.next.Some? && j.next.Some?))
    ensures journal.Some? && journal.value.phase == Stable ==> var k := journal.value.current;
      p == Some(Projection(k.leaf, [k.server], k.client, [k.client])) && e == Some(Enrollment(k.client, [k.server]))
    ensures journal.Some? && journal.value.fencedAt.Some? && !journal.value.discard ==> var j := journal.value;
      e == Some(Enrollment(
        if j.phase == Prepare then j.current.client else j.next.value.client, [j.current.server, j.next.value.server]))
    ensures journal.Some? && p.Some? ==> var j := journal.value;
      forall a :: a in p.value.clientTrust || a == p.value.signer ==>
        a == j.current.client || (j.next.Some? && a == j.next.value.client)
  {
    hide NeedsLeaf, CandidateExpired;
  }

  // -------------------------------------------------------------------------- issuance

  /** Credentials as they are issued: backdated a minute, for a Job of at most 86460 seconds and ten
      minutes of delivery. Their lifetime is what the waits are taken for, and no shorter wait would
      do. */
  lemma LifetimeIsTight(now: int, deadline: int)
    requires 1 <= deadline <= 86460
    ensures var notBefore, notAfter := now - MINUTE, now + deadline * SECOND + 10 * MINUTE;
      notAfter - notBefore <= LIFETIME && (deadline == 86460 <==> notAfter - notBefore == LIFETIME)
  {
  }

  // -------------------------------------------------------------------------- progress

  /** A wait is over a lifetime and a margin after its fence, or a margin after the authority it waits
      for has expired: the server's in the first wait, the client's in the second. */
  predicate WaitIsOver(j: Journal, now: int) {
    j.fencedAt.Some? ==>
      || j.fencedAt.value + LIFETIME + SKEW <= now
      || (if j.phase == Switch then j.current.client.notAfter else j.current.server.notAfter) + SKEW <= now
  }

  function Weight(phase: Phase): nat {
    match phase
    case Stable => 0
    case Bootstrap => 8
    case Renew => 8
    case Retire => 8
    case Switch => 16
    case Prepare => 24
  }

  function One(b: bool): nat { if b then 1 else 0 }

  /** How many writes a transition still has before it, at most. */
  function Remaining(j: Journal, p: Option<Projection>, e: Option<Enrollment>): nat
    requires HasShape(j)
  {
    if j.discard then
      One(j.phase != Stable) + One(e != Some(EnrollmentOf(ProjectionOf(j.current)))) + One(p != Some(ProjectionOf(j.current)))
    else
      Weight(j.phase) + One(e != Some(EnrollmentOf(Desired(j)))) + One(p != Some(Desired(j))) +
        One((j.phase == Prepare || j.phase == Switch) && j.fencedAt.None?) + One(j.previous.Some?)
  }

  /** A transition whose wait is over and whose probes succeed takes one write after another to its
      end: a pass that needs to renew no leaf writes, and each write that takes effect leaves fewer. */
  lemma TransitionsEnd(cfg: Config, w: World, at: Moment)
    requires Invariant(w) && w.journal.Some? && w.journal.value.phase != Stable
    requires IsMoment(w, at) && at.now == at.later == w.now && at.probe
    requires WaitIsOver(w.journal.value, w.now)
    requires var j := w.journal.value; j.previous.None? ==> !RepairsCurrent(cfg, j, at.now) && !RepairsNext(cfg, j, at.now)
    ensures var w' := Applied(w, Decide(cfg, at, w.journal, w.projection, w.policy));
      && w'.journal.Some? && HasShape(w'.journal.value)
      && Remaining(w'.journal.value, w'.projection, w'.policy) <
         Remaining(w.journal.value, w.projection, w.policy) <= 28
  {
    hide AcceptsProjection, AcceptsPolicy, IsDecodable, RepairsCurrent, RepairsNext, Repaired;
    HoldsHere(w, w.journal.value);
  }

  // ------------------------------------------------------- while a candidate is discarded

  const FAR: int := 1000 * 24 * 60 * MINUTE
  const OVER: int := LIFETIME + SKEW
  const FIRST: Keys := KeysOf(0, FAR)
  const SECOND_KEYS: Keys := KeysOf(1, OVER)

  function KeysOf(n: nat, notAfter: int): Keys {
    var server := Authority(2 * n, notAfter);
    Keys(server, Leaf(n, server, 0, FAR), Authority(2 * n + 1, notAfter))
  }

  /** A pass at the present, with a configuration that asks for new authorities at once. */
  function Pass(w: World, keys: Keys): World {
    var made := Generated(keys, FIRST.leaf, SECOND_KEYS.leaf);
    Applied(w, Decide(Config(FAR, 0, 0), Moment(w.now, w.now, w.now, made, true), w.journal, w.projection, w.policy))
  }

  lemma PassIsNext(w: World, keys: Keys)
    requires w.policySince <= w.now && AreKeys(keys)
    requires w.journal.Some? ==>
      && keys.client != w.journal.value.current.client && w.journal.value.current.server == FIRST.server
      && (w.journal.value.next.Some? ==> w.journal.value.next.value.server == SECOND_KEYS.server)
    ensures Next(Config(FAR, 0, 0), w, Pass(w, keys))
  {
    var made := Generated(keys, FIRST.leaf, SECOND_KEYS.leaf);
    assert IsMoment(w, Moment(w.now, w.now, w.now, made, true));
  }

  function Began(): World { World(0, None, None, None, 0, {}, {}) }

  function Settled(): World {
    var p := ProjectionOf(FIRST);
    World(0, Some(Journal(Stable, FIRST, None, None, None, false)), Some(p), Some(EnrollmentOf(p)), 0, {p}, {})
  }

  function Pending(phase: Phase, fencedAt: Option<int>): Journal {
    Journal(phase, FIRST, Some(SECOND_KEYS), fencedAt, None, false)
  }

  /** The first wait, with the trust of both. */
  function Prepared(): World {
    var j := Pending(Prepare, Some(0));
    World(0, Some(j), Some(Both(j)), Some(EnrollmentOf(Both(j))), 0, {ProjectionOf(FIRST), Both(j)}, {})
  }

  /** The second wait, with the candidate serving. */
  function SwitchedOver(): World {
    var j := Pending(Switch, Some(OVER));
    World(OVER, Some(j), Some(Switched(j)), Some(EnrollmentOf(Switched(j))), OVER,
          {ProjectionOf(FIRST), Both(j), Switched(j)}, {})
  }

  lemma Settles() returns (run: seq<World>)
    ensures IsRun(Config(FAR, 0, 0), run) && run[|run| - 1] == Settled()
  {
    var w0 := Began();
    var w1, w2, w3 := Pass(w0, FIRST), Pass(Pass(w0, FIRST), SECOND_KEYS), Pass(Pass(Pass(w0, FIRST), SECOND_KEYS), SECOND_KEYS);
    PassIsNext(w0, FIRST);
    assert w1 == w0.(journal := Some(Journal(Bootstrap, FIRST, None, None, None, false)));
    PassIsNext(w1, SECOND_KEYS);
    assert w2 == w1.(policy := Some(EnrollmentOf(ProjectionOf(FIRST))));
    PassIsNext(w2, SECOND_KEYS);
    assert w3 == w2.(projection := Some(ProjectionOf(FIRST)), mounted := {ProjectionOf(FIRST)});
    PassIsNext(w3, SECOND_KEYS);
    assert Pass(w3, SECOND_KEYS) == Settled();
    run := [w0, w1, w2, w3, Settled()];
  }

  lemma {:induction false} Extend(run: seq<World>, w: World) returns (longer: seq<World>)
    requires IsRun(Config(FAR, 0, 0), run) && Next(Config(FAR, 0, 0), run[|run| - 1], w)
    ensures IsRun(Config(FAR, 0, 0), longer) && longer[|longer| - 1] == w
  {
    longer := run + [w];
  }

  lemma Prepares() returns (run: seq<World>)
    ensures IsRun(Config(FAR, 0, 0), run) && run[|run| - 1] == Prepared()
  {
    hide IsRun, Next;
    run := Settles();
    var w := Settled();
    var j := Pending(Prepare, None);
    PassIsNext(w, SECOND_KEYS);
    w := Pass(w, SECOND_KEYS);
    run := Extend(run, w);
    assert w == Settled().(journal := Some(j));
    PassIsNext(w, SECOND_KEYS);
    w := Pass(w, SECOND_KEYS);
    run := Extend(run, w);
    assert w == Settled().(journal := Some(j), policy := Some(EnrollmentOf(Both(j))));
    PassIsNext(w, SECOND_KEYS);
    w := Pass(w, SECOND_KEYS);
    run := Extend(run, w);
    assert w == Settled().(journal := Some(Pending(Prepare, Some(0))), policy := Some(EnrollmentOf(Both(j))));
    PassIsNext(w, SECOND_KEYS);
    w := Pass(w, SECOND_KEYS);
    run := Extend(run, w);
    assert w == Prepared();
  }

  lemma SwitchesOver() returns (run: seq<World>)
    ensures IsRun(Config(FAR, 0, 0), run) && run[|run| - 1] == SwitchedOver()
  {
    hide IsRun, Next;
    run := Prepares();
    var w := Prepared().(now := OVER);
    WaitIsNext(Prepared(), w);
    run := Extend(run, w);
    var j := Pending(Switch, None);
    PassIsNext(w, SECOND_KEYS);
    w := Pass(w, SECOND_KEYS);
    run := Extend(run, w);
    assert w == Prepared().(now := OVER, journal := Some(j));
    PassIsNext(w, SECOND_KEYS);
    w := Pass(w, SECOND_KEYS);
    run := Extend(run, w);
    assert w == Prepared().(now := OVER, journal := Some(j), policy := Some(EnrollmentOf(Switched(j))), policySince := OVER);
    PassIsNext(w, SECOND_KEYS);
    w := Pass(w, SECOND_KEYS);
    run := Extend(run, w);
    assert w == Prepared().(
      now := OVER, journal := Some(Pending(Switch, Some(OVER))), policy := Some(EnrollmentOf(Switched(j))), policySince := OVER);
    PassIsNext(w, SECOND_KEYS);
    w := Pass(w, SECOND_KEYS);
    run := Extend(run, w);
    assert w == SwitchedOver();
  }

  lemma WaitIsNext(w: World, w': World)
    requires Waits(w, w')
    ensures Next(Config(FAR, 0, 0), w, w')
  {
  }

  /** While an expired candidate is discarded the projection there is may not do: the policy is put
      back first, and a replica that still mounts the first keys can issue under it before the
      projection follows. */
  lemma DiscardIsNotReady() returns (run: seq<World>, c: Credential)
    ensures IsRun(Config(FAR, 0, 0), run)
    ensures var w := run[|run| - 1];
      && w.journal.Some? && w.journal.value.discard && w.projection.Some?
      && c in w.issued && w.now < c.notAfter && !IsUsable(c, w.projection.value, w.now)
  {
    hide IsRun, Next;
    run := SwitchesOver();
    var late := OVER + SKEW;
    var w := SwitchedOver().(now := late);
    WaitIsNext(SwitchedOver(), w);
    run := Extend(run, w);
    var j := Pending(Switch, Some(OVER)).(discard := true);
    PassIsNext(w, SECOND_KEYS);
    w := Pass(w, SECOND_KEYS);
    run := Extend(run, w);
    assert w == SwitchedOver().(now := late, journal := Some(j));
    PassIsNext(w, SECOND_KEYS);
    w := Pass(w, SECOND_KEYS);
    run := Extend(run, w);
    var p := ProjectionOf(FIRST);
    assert w == SwitchedOver().(now := late, journal := Some(j), policy := Some(EnrollmentOf(p)), policySince := late);
    c := Credential(FIRST.client, [FIRST.server], late + 1);
    IssueIsNext(w, p, c);
    run := Extend(run, w.(issued := w.issued + {c}));
  }

  lemma IssueIsNext(w: World, p: Projection, c: Credential)
    requires p in w.mounted && w.policy == Some(EnrollmentOf(p)) && c == Credential(p.signer, p.serverTrust, c.notAfter)
    requires c.notAfter <= w.now + SKEW + LIFETIME && c.notAfter <= p.signer.notAfter
    ensures Next(Config(FAR, 0, 0), w, w.(issued := w.issued + {c}))
  {
  }
}
