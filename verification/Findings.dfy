/** Findings, their lifecycle states and the checks a report must pass
    (core/finding.go, core/collector.go:48-56, store/store.go:14-22). */
module Findings {

  datatype Option<+T> = None | Some(value: T)

  datatype Severity = Critical | High | Medium | Low | Info | Unknown(text: string)

  datatype Status = Open | Acknowledged | Suppressed | Resolved

  const MAX_EVIDENCE_BYTES := 64 * 1024

  /** Serialised evidence, or one of the two markers that replace it. */
  datatype Evidence =
    | NoEvidence
    | Data(json: string)
    | NotSerialisable
    | Truncated(originalBytes: nat)
    | Dropped

  /** The collector-owned part of a finding. */
  datatype Report = Report(
    fingerprint: string,
    target: string,
    check: string,
    title: string,
    severity: Severity,
    remediation: string,
    evidence: Evidence)

  /** A stored finding. `absentStreak` is the engine's own bookkeeping. */
  datatype Record = Record(
    report: Report,
    id: string,
    mod: string,
    status: Status,
    firstSeen: int,
    lastSeen: int,
    resolvedAt: Option<int>,
    absentStreak: nat)

  datatype ModuleInfo = ModuleInfo(id: string, resolveAfter: int)

  /** The module's own number of misses, but at least one. */
  function ResolveAfterOrDefault(m: ModuleInfo): (n: nat)
    ensures n >= 1 && n >= m.resolveAfter && (n == 1 || n == m.resolveAfter)
  {
    if m.resolveAfter < 1 then 1 else m.resolveAfter
  }

  datatype Field = FieldFingerprint | FieldTarget | FieldCheck | FieldTitle | FieldRemediation | FieldSeverity

  predicate Breaks(f: Report, field: Field) {
    match field
    case FieldFingerprint => f.fingerprint == ""
    case FieldTarget => f.target == ""
    case FieldCheck => f.check == ""
    case FieldTitle => f.title == ""
    case FieldRemediation => f.remediation == ""
    case FieldSeverity => f.severity.Unknown?
  }

  /** The place of a field in the order of the checks. */
  function CheckedAt(field: Field): nat {
    match field
    case FieldFingerprint => 0
    case FieldTarget => 1
    case FieldCheck => 2
    case FieldTitle => 3
    case FieldRemediation => 4
    case FieldSeverity => 5
  }

  /** The broken field of least rank, if any is broken. */
  function ValidateForIngest(f: Report): (problem: Option<Field>)
    ensures problem.None? <==>
            "" !in {f.fingerprint, f.target, f.check, f.title, f.remediation} && !f.severity.Unknown?
    ensures problem.Some? ==> Breaks(f, problem.value)
    ensures forall field :: Breaks(f, field) ==> problem.Some? && CheckedAt(problem.value) <= CheckedAt(field)
  {
    if f.fingerprint == "" then Some(FieldFingerprint)
    else if f.target == "" then Some(FieldTarget)
    else if f.check == "" then Some(FieldCheck)
    else if f.title == "" then Some(FieldTitle)
    else if f.remediation == "" then Some(FieldRemediation)
    else if f.severity.Unknown? then Some(FieldSeverity)
    else None
  }

  /** The order of the checks, seen from outside: a named field tells that those
      before it are in order. */
  lemma ChecksInOrder(f: Report)
    ensures ValidateForIngest(f) == Some(FieldTarget) ==> f.fingerprint != ""
    ensures ValidateForIngest(f) == Some(FieldCheck) ==> "" !in {f.fingerprint, f.target}
    ensures ValidateForIngest(f) == Some(FieldTitle) ==> "" !in {f.fingerprint, f.target, f.check}
    ensures ValidateForIngest(f) == Some(FieldRemediation) ==> "" !in {f.fingerprint, f.target, f.check, f.title}
    ensures ValidateForIngest(f) == Some(FieldSeverity) ==>
              "" !in {f.fingerprint, f.target, f.check, f.title, f.remediation}
  {}

  predicate WellFormed(f: Report) {
    ValidateForIngest(f).None?
  }

  /** Evidence that is stored is serialised and within the cap. */
  predicate EvidenceFits(e: Evidence) {
    !e.NotSerialisable? && (e.Data? ==> |e.json| <= MAX_EVIDENCE_BYTES)
  }

  function CapEvidence(f: Report): (c: Report)
    ensures EvidenceFits(c.evidence) && c == f.(evidence := c.evidence)
    ensures EvidenceFits(f.evidence) ==> c == f
    ensures f.evidence.NotSerialisable? ==> c.evidence == Dropped
    ensures f.evidence.Data? && |f.evidence.json| > 65536 ==> c.evidence == Truncated(|f.evidence.json|)
    ensures f.evidence.Data? && |f.evidence.json| <= 65536 ==> c == f
  {
    match f.evidence
    case NotSerialisable => f.(evidence := Dropped)
    case Data(j) => if |j| > MAX_EVIDENCE_BYTES then f.(evidence := Truncated(|j|)) else f
    case _ => f
  }
}
