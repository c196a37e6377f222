/** What cmd/ptah-cert-rotator refuses of a configuration. The checks run in 64-bit arithmetic
behind guards; each is proved to accept exactly what its inequality asks over unbounded
integers. Every sum, difference and product is written with an operation that has to be shown
not to wrap around.
 */
module RotatorConfig {
  import opened Results
  import opened Durations

  datatype ResultOptions = ResultOptions(
    secretName: string, journalName: string, policyName: string, serviceName: string, leaseName: string)

  datatype SupervisorConfig = SupervisorConfig(
    runInterval: Duration, operationTimeout: Duration, retryInitial: Duration, retryMax: Duration)

  datatype RotationConfig = RotationConfig(
    renewalThreshold: Duration, servingCertificateValidity: Duration, acquireTimeout: Duration,
    probeTimeout: Duration, caSwitchDelay: Duration,
    secretName: string, stagingSecretName: string, serviceName: string, leaseName: string)

  datatype Refusal =
    | RunInterval | OperationTimeout | RetryInitial | RetryMax | RetryOrder
    | Validity | LeaseOrProbe | TwoProbesOverflow | ShortOperation | CycleOverflow | CycleTooLong
    | SwitchDelay | SwitchTooLate
    | PartialResult | SharedResult | ResultTooLate

  const MINUTE: int := 60_000_000_000
  const MAX_CREDENTIAL_LIFETIME: int := 24 * 60 * MINUTE + 12 * MINUTE
  const OVERLAP: int := MAX_CREDENTIAL_LIFETIME + 5 * MINUTE

  // -------------------------------------------------------- what is asked for

  predicate Positive(c: SupervisorConfig) {
    0 < c.runInterval && 0 < c.operationTimeout && 0 < c.retryInitial <= c.retryMax
  }

  /** The cycle a pass repeats in fits the life a certificate has before it must be renewed, and
      with the CA switch the time it has left then. */
  predicate Fits(s: SupervisorConfig, r: RotationConfig) {
    && 0 < r.renewalThreshold < r.servingCertificateValidity
    && 0 < r.acquireTimeout && 0 < r.probeTimeout
    && r.acquireTimeout + 2 * r.probeTimeout < s.operationTimeout
    && s.runInterval + s.operationTimeout < r.servingCertificateValidity - r.renewalThreshold
    && 0 < r.caSwitchDelay
    && s.runInterval + s.operationTimeout + r.caSwitchDelay < r.renewalThreshold
  }

  predicate NoResult(o: ResultOptions) {
    o.secretName == "" && o.journalName == "" && o.policyName == "" && o.serviceName == "" && o.leaseName == ""
  }

  predicate AllResult(o: ResultOptions) {
    o.secretName != "" && o.journalName != "" && o.policyName != "" && o.serviceName != "" && o.leaseName != ""
  }

  predicate Dedicated(o: ResultOptions, base: RotationConfig) {
    && o.leaseName != base.leaseName && o.serviceName != base.serviceName
    && o.secretName != o.journalName
    && o.secretName !in {base.secretName, base.stagingSecretName}
    && o.journalName !in {base.secretName, base.stagingSecretName}
  }

  /** Three cycles and both credential overlaps fit the time a certificate has left. */
  predicate ResultFits(o: ResultOptions, base: RotationConfig, s: SupervisorConfig) {
    || NoResult(o)
    || (AllResult(o) && Dedicated(o, base) &&
        3 * (s.runInterval + s.operationTimeout) + 2 * OVERLAP < base.renewalThreshold)
  }

  /** What each refusal says of the configuration. */
  predicate IsTrue(refusal: Refusal, s: SupervisorConfig, r: RotationConfig, o: ResultOptions) {
    var cycle := s.runInterval + s.operationTimeout;
    match refusal
    case RunInterval => s.runInterval <= 0
    case OperationTimeout => s.operationTimeout <= 0
    case RetryInitial => s.retryInitial <= 0
    case RetryMax => s.retryMax <= 0
    case RetryOrder => s.retryMax < s.retryInitial
    case Validity => r.renewalThreshold <= 0 || r.servingCertificateValidity <= r.renewalThreshold
    case LeaseOrProbe => r.acquireTimeout <= 0 || r.probeTimeout <= 0
    case TwoProbesOverflow => MAXIMUM < r.acquireTimeout + 2 * r.probeTimeout
    case ShortOperation => s.operationTimeout <= r.acquireTimeout + 2 * r.probeTimeout
    case CycleOverflow => MAXIMUM < cycle
    case CycleTooLong => r.servingCertificateValidity - r.renewalThreshold <= cycle
    case SwitchDelay => r.caSwitchDelay <= 0 || MAXIMUM < cycle + r.caSwitchDelay
    case SwitchTooLate => r.renewalThreshold <= cycle + r.caSwitchDelay
    case PartialResult => !NoResult(o) && !AllResult(o)
    case SharedResult => AllResult(o) && !Dedicated(o, r)
    case ResultTooLate => r.renewalThreshold <= 3 * cycle + 2 * OVERLAP
  }

  // ----------------------------------------------------------------- the checks

  method Validate(c: SupervisorConfig) returns (refusal: Option<Refusal>)
    ensures refusal.None? <==> Positive(c)
    ensures refusal.Some? ==> forall r, o :: IsTrue(refusal.value, c, r, o)
  {
    if c.runInterval <= 0 { return Some(RunInterval); }
    if c.operationTimeout <= 0 { return Some(OperationTimeout); }
    if c.retryInitial <= 0 { return Some(RetryInitial); }
    if c.retryMax <= 0 { return Some(RetryMax); }
    if c.retryMax < c.retryInitial { return Some(RetryOrder); }
    return None;
  }

  method ValidateRuntimeRelationships(s: SupervisorConfig, r: RotationConfig)
    returns (refusal: Option<Refusal>)
    ensures refusal.None? <==> Fits(s, r)
    ensures refusal.Some? ==> forall o :: IsTrue(refusal.value, s, r, o)
  {
    if r.renewalThreshold <= 0 || r.servingCertificateValidity <= r.renewalThreshold {
      return Some(Validity);
    }
    var rotationWindow := Sub(r.servingCertificateValidity, r.renewalThreshold);
    if r.acquireTimeout <= 0 || r.probeTimeout <= 0 {
      return Some(LeaseOrProbe);
    }
    if r.probeTimeout > Quotient(Sub(MAXIMUM, r.acquireTimeout), 2) {
      return Some(TwoProbesOverflow);
    }
    var minimumOperationTimeout := Add(r.acquireTimeout, Times(2, r.probeTimeout));
    if s.operationTimeout <= minimumOperationTimeout {
      return Some(ShortOperation);
    }
    if s.runInterval > Sub(MAXIMUM, s.operationTimeout) {
      return Some(CycleOverflow);
    }
    var scheduledCycle := Add(s.runInterval, s.operationTimeout);
    if scheduledCycle >= rotationWindow {
      return Some(CycleTooLong);
    }
    if r.caSwitchDelay <= 0 || scheduledCycle > Sub(MAXIMUM, r.caSwitchDelay) {
      return Some(SwitchDelay);
    }
    if Add(scheduledCycle, r.caSwitchDelay) >= r.renewalThreshold {
      return Some(SwitchTooLate);
    }
    return None;
  }

  method CountFields(o: ResultOptions) returns (count: int)
    ensures count == 0 <==> NoResult(o)
    ensures count == 5 <==> AllResult(o)
  {
    var values := [o.secretName, o.journalName, o.policyName, o.serviceName, o.leaseName];
    count := 0;
    for k := 0 to |values|
      invariant 0 <= count <= k
      invariant count == 0 <==> forall i :: 0 <= i < k ==> values[i] == ""
      invariant count == k <==> forall i :: 0 <= i < k ==> values[i] != ""
    {
      if values[k] != "" {
        count := count + 1;
      }
    }
    assert values[0] == o.secretName && values[1] == o.journalName && values[2] == o.policyName;
    assert values[3] == o.serviceName && values[4] == o.leaseName;
  }

  /** Called after the two checks above, which keep its cycle a duration. */
  method ValidateResult(o: ResultOptions, base: RotationConfig, s: SupervisorConfig)
    returns (refusal: Option<Refusal>)
    requires 0 <= s.runInterval + s.operationTimeout <= MAXIMUM
    ensures refusal.None? <==> ResultFits(o, base, s)
    ensures refusal.Some? ==> IsTrue(refusal.value, s, base, o)
  {
    var count := CountFields(o);
    if count == 0 {
      return None;
    }
    if count != 5 {
      return Some(PartialResult);
    }
    if || o.leaseName == base.leaseName || o.serviceName == base.serviceName || o.secretName == o.journalName
       || o.secretName == base.secretName || o.secretName == base.stagingSecretName
       || o.journalName == base.secretName || o.journalName == base.stagingSecretName
    {
      return Some(SharedResult);
    }
    var cycle := Add(s.runInterval, s.operationTimeout);
    if cycle >= Quotient(base.renewalThreshold, 3) {
      return Some(ResultTooLate);
    }
    if Times(2, OVERLAP) >= Sub(base.renewalThreshold, Times(3, cycle)) {
      return Some(ResultTooLate);
    }
    return None;
  }

  /** The configuration parseFlags accepts, with the switch delay it fills in. */
  method ParseFlags(s: SupervisorConfig, flags: RotationConfig, o: ResultOptions)
    returns (r: Result<RotationConfig, Refusal>)
    ensures r.Success? <==> Accepted(s, Defaulted(s, flags), o)
    ensures r.Success? ==> r.value == Defaulted(s, flags)
    ensures r.Failure? ==> IsTrue(r.error, s, Defaulted(s, flags), o)
  {
    var config := flags;
    if config.caSwitchDelay == 0 {
      config := config.(caSwitchDelay := s.runInterval);
    }
    var invalid := Validate(s);
    if invalid.Some? {
      return Failure(invalid.value);
    }
    invalid := ValidateRuntimeRelationships(s, config);
    if invalid.Some? {
      return Failure(invalid.value);
    }
    invalid := ValidateResult(o, config, s);
    if invalid.Some? {
      return Failure(invalid.value);
    }
    return Success(config);
  }

  function Defaulted(s: SupervisorConfig, r: RotationConfig): RotationConfig {
    if r.caSwitchDelay == 0 then r.(caSwitchDelay := s.runInterval) else r
  }

  predicate Accepted(s: SupervisorConfig, r: RotationConfig, o: ResultOptions) {
    Positive(s) && Fits(s, r) && ResultFits(o, r, s)
  }
}
