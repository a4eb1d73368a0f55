/** One reconcile over the in-memory store (store/reconcile.go:23-111,
    store/memory.go:20-41). */
module Reconcile {
  import opened Findings

  /** Module id and fingerprint. */
  type Key = (string, string)

  type Records = map<Key, Record>

  function Get(recs: Records, k: Key): Option<Record> {
    if k in recs then Some(recs[k]) else None
  }

  ghost predicate Keyed(recs: Records) {
    forall k :: k in recs ==> recs[k].mod == k.0 && recs[k].report.fingerprint == k.1
  }

  // ------------------------------------------------------------------------
  // What one scan does to one fingerprint

  /** A scan: what the collector reported for a target, the clock, and the id the
      generator would give for each report. */
  datatype Scan = Scan(mod: ModuleInfo, target: string, reports: seq<Report>, now: int, ids: seq<string>)

  ghost predicate ScanOk(s: Scan) {
    |s.ids| == |s.reports|
  }

  /** The last well-formed report of `fp` among the first `n`. */
  function LastReport(reports: seq<Report>, fp: string, n: nat): Option<nat>
    requires n <= |reports|
    ensures LastReport(reports, fp, n).Some? ==> LastReport(reports, fp, n).value < n
  {
    if n == 0 then None
    else if WellFormed(reports[n - 1]) && reports[n - 1].fingerprint == fp then Some(n - 1)
    else LastReport(reports, fp, n - 1)
  }

  /** A well-formed report of the fingerprint: every one of them counts. */
  predicate IsReportOf(f: Report, fp: string) {
    WellFormed(f) && f.fingerprint == fp
  }

  predicate Reports(s: Scan, fp: string) {
    LastReport(s.reports, fp, |s.reports|).Some?
  }

  /** The scan lists the record as one of its target's. */
  predicate Known(prev: Option<Record>, s: Scan) {
    prev.Some? && prev.value.report.target == s.target
  }

  function NewRecord(s: Scan, i: nat): Record
    requires i < |s.reports| == |s.ids|
  {
    Record(CapEvidence(s.reports[i]), s.ids[i], s.mod.id, Open, s.now, s.now, None, 0)
  }

  function Refreshed(prev: Record, f: Report, now: int): Record {
    var c := CapEvidence(f);
    var merged := prev.(
      report := prev.report.(
        title := c.title, severity := c.severity, remediation := c.remediation, evidence := c.evidence),
      lastSeen := now,
      absentStreak := 0);
    if prev.status == Resolved then merged.(status := Open, resolvedAt := None) else merged
  }

  predicate Counting(r: Record) {
    r.status == Open || r.status == Acknowledged
  }

  function Missed(prev: Record, mod: ModuleInfo, now: int): Record {
    if !Counting(prev) then prev
    else
      var r := prev.(absentStreak := prev.absentStreak + 1);
      if r.absentStreak >= ResolveAfterOrDefault(mod) then r.(status := Resolved, resolvedAt := Some(now)) else r
  }

  /** After the first `n` reports. */
  function Ingested(prev: Option<Record>, s: Scan, fp: string, n: nat): Option<Record>
    requires n <= |s.reports| == |s.ids|
  {
    match LastReport(s.reports, fp, n)
    case None => prev
    case Some(i) => Some(if Known(prev, s) then Refreshed(prev.value, s.reports[i], s.now) else NewRecord(s, i))
  }

  /** After the whole scan. */
  function After(prev: Option<Record>, s: Scan, fp: string): Option<Record>
    requires ScanOk(s)
  {
    if !Reports(s, fp) && Known(prev, s) then Some(Missed(prev.value, s.mod, s.now))
    else Ingested(prev, s, fp, |s.reports|)
  }

  /** The whole store after the scan: each of the module's fingerprints on its own,
      every other module's untouched. */
  ghost predicate ScanStep(recs: Records, s: Scan, recs': Records)
    requires ScanOk(s)
  {
    && (forall fp :: Get(recs', (s.mod.id, fp)) == After(Get(recs, (s.mod.id, fp)), s, fp))
    && (forall k: Key :: k.0 != s.mod.id ==> Get(recs', k) == Get(recs, k))
  }

  // ------------------------------------------------------------------------
  // What the scan announces

  predicate Opens(prev: Option<Record>, s: Scan, fp: string) {
    Reports(s, fp) && (!Known(prev, s) || prev.value.status == Resolved)
  }

  predicate Resolves(prev: Option<Record>, s: Scan, fp: string) {
    !Reports(s, fp) && Known(prev, s) && Counting(prev.value)
    && prev.value.absentStreak + 1 >= ResolveAfterOrDefault(s.mod)
  }

  /** The `NewlyOpen` list after the first `n` reports. */
  function NewlyOpen(recs: Records, s: Scan, n: nat): seq<Record>
    requires n <= |s.reports| == |s.ids|
  {
    if n == 0 then []
    else
      var f := s.reports[n - 1];
      var prev := Get(recs, (s.mod.id, f.fingerprint));
      NewlyOpen(recs, s, n - 1) +
      if !WellFormed(f) then []
      else if !Known(prev, s) then [NewRecord(s, n - 1)]
      else if prev.value.status == Resolved then [Refreshed(prev.value, f, s.now)]
      else []
  }

  /** The `Rejected` list after the first `n` reports. */
  function Rejected(s: Scan, n: nat): seq<(Report, Field)>
    requires n <= |s.reports|
  {
    if n == 0 then []
    else
      var f := s.reports[n - 1];
      Rejected(s, n - 1) + if WellFormed(f) then [] else [(f, ValidateForIngest(f).value)]
  }

  // ------------------------------------------------------------------------
  // What the result says

  /** The record describes the finding as last reported, with its evidence capped. */
  ghost predicate Describes(r: Record, f: Report) {
    && r.report.title == f.title && r.report.severity == f.severity && r.report.remediation == f.remediation
    && r.report.evidence == CapEvidence(f).evidence && EvidenceFits(r.report.evidence)
  }

  /** An announced record is open, was reported by this scan and carries what that
      report says: a new one all of it, a reopened one what may change. */
  ghost predicate AnnouncedAs(recs: Records, s: Scan, r: Record, m: nat)
    requires ScanOk(s) && m < |s.reports|
  {
    var f, prev := s.reports[m], Get(recs, (s.mod.id, s.reports[m].fingerprint));
    && WellFormed(f) && r.report.fingerprint == f.fingerprint && Describes(r, f)
    && r.status == Open && r.resolvedAt == None && r.absentStreak == 0
    && r.lastSeen == s.now && r.mod == s.mod.id
    && if Known(prev, s)
       then prev.value.status == Resolved && r.id == prev.value.id && r.firstSeen == prev.value.firstSeen
            && r.report.target == prev.value.report.target && r.report.check == prev.value.report.check
       else r.id == s.ids[m] && r.firstSeen == s.now && r.report.target == f.target && r.report.check == f.check
  }

  lemma {:induction false} AnnouncedRecords(recs: Records, s: Scan, n: nat, r: Record)
    requires ScanOk(s) && Keyed(recs) && n <= |s.reports|
    ensures r in NewlyOpen(recs, s, n) ==>
              exists m :: 0 <= m < n && AnnouncedAs(recs, s, r, m) && r == Upserted(recs, s, m)
  {
    hide AnnouncedAs;
    if n > 0 {
      AnnouncedRecords(recs, s, n - 1, r);
      OpensAnnounced(recs, s, n - 1);
    }
  }

  lemma {:induction false} OpensAnnounced(recs: Records, s: Scan, m: nat)
    requires ScanOk(s) && Keyed(recs) && m < |s.reports|
    ensures var f, prev := s.reports[m], Get(recs, (s.mod.id, s.reports[m].fingerprint));
      WellFormed(f) && (!Known(prev, s) || prev.value.status == Resolved) ==>
      AnnouncedAs(recs, s, Upserted(recs, s, m), m)
  {
    hide ValidateForIngest;
  }

  /** No fingerprint is reported twice. */
  ghost predicate DistinctScan(s: Scan) {
    forall a, b :: 0 <= a < b < |s.reports| && WellFormed(s.reports[a]) && WellFormed(s.reports[b]) ==>
      s.reports[a].fingerprint != s.reports[b].fingerprint
  }

  /** Where fingerprints are distinct an announced record is the stored one. */
  lemma {:induction false} AnnouncedIsStored(recs: Records, s: Scan, recs': Records, r: Record)
    requires ScanOk(s) && Keyed(recs) && ScanStep(recs, s, recs') && DistinctScan(s)
    requires r in NewlyOpen(recs, s, |s.reports|)
    ensures Get(recs', (s.mod.id, r.report.fingerprint)) == Some(r)
  {
    AnnouncedRecords(recs, s, |s.reports|, r);
    var m :| 0 <= m < |s.reports| && AnnouncedAs(recs, s, r, m) && r == Upserted(recs, s, m);
    hide Refreshed, NewRecord, Describes, NewlyOpen, WellFormed, Missed;
    OnlyReport(s, m, |s.reports|);
  }

  lemma {:induction false} OnlyReport(s: Scan, m: nat, n: nat)
    requires DistinctScan(s) && m < n <= |s.reports| && WellFormed(s.reports[m])
    ensures LastReport(s.reports, s.reports[m].fingerprint, n) == Some(m)
  {
    hide WellFormed;
    if m < n - 1 { OnlyReport(s, m, n - 1); }
  }

  /** The resolved list holds exactly the records the scan turned from live to
      resolved, as they are stored, with the scan's clock. */
  lemma {:induction false} ResolvedIff(recs: Records, s: Scan, recs': Records, out: seq<Record>, r: Record)
    requires ScanOk(s) && Keyed(recs) && ScanStep(recs, s, recs') && ResolvedOnce(recs, s, out)
    ensures var k := (s.mod.id, r.report.fingerprint);
      r in out <==> Get(recs', k) == Some(r) && r.status == Resolved && k in recs && recs[k].status != Resolved
    ensures r in out ==> r.resolvedAt == Some(s.now) && r.mod == s.mod.id && r.report.target == s.target
  {
    hide ValidateForIngest, LastReport;
  }

  /** The rejected list holds the malformed reports, each with its first fault. */
  lemma {:induction false} RejectedIff(s: Scan, n: nat, x: (Report, Field))
    requires n <= |s.reports|
    ensures x in Rejected(s, n) <==>
            x.0 in s.reports[..n] && Breaks(x.0, x.1) && forall g :: Breaks(x.0, g) ==> CheckedAt(x.1) <= CheckedAt(g)
  {
    if n > 0 {
      RejectedIff(s, n - 1, x);
      assert s.reports[..n] == s.reports[..n - 1] + [s.reports[n - 1]];
      FirstFault(s.reports[n - 1], x.1);
    }
  }

  lemma {:induction false} FirstFault(f: Report, g: Field)
    ensures ValidateForIngest(f) == Some(g) <==>
            Breaks(f, g) && forall h :: Breaks(f, h) ==> CheckedAt(g) <= CheckedAt(h)
  {}

  ghost function Malformed(s: Scan, n: nat): set<int>
    requires n <= |s.reports|
  {
    set a | 0 <= a < n && !WellFormed(s.reports[a])
  }

  /** Each malformed report once. */
  lemma {:induction false} RejectedCount(s: Scan, n: nat)
    requires n <= |s.reports|
    ensures |Rejected(s, n)| == |Malformed(s, n)|
  {
    hide ValidateForIngest, WellFormed;
    if n == 0 {
      assert Malformed(s, 0) == {};
    } else {
      RejectedCount(s, n - 1);
      assert Malformed(s, n) == Malformed(s, n - 1) + if WellFormed(s.reports[n - 1]) then {} else {n - 1};
    }
  }

  // ------------------------------------------------------------------------
  // The two loops, one round at a time

  /** The store after the first `n` reports, from `recs0`. */
  ghost predicate IngestedTo(recs0: Records, s: Scan, recs: Records, n: nat)
    requires ScanOk(s) && n <= |s.reports|
  {
    && Keyed(recs)
    && (forall fp :: Get(recs, (s.mod.id, fp)) == Ingested(Get(recs0, (s.mod.id, fp)), s, fp, n))
    && (forall k: Key :: k.0 != s.mod.id ==> Get(recs, k) == Get(recs0, k))
  }

  /** What the first loop upserts for report `n`. */
  function Upserted(recs0: Records, s: Scan, n: nat): Record
    requires ScanOk(s) && n < |s.reports|
  {
    var prev := Get(recs0, (s.mod.id, s.reports[n].fingerprint));
    if Known(prev, s) then Refreshed(prev.value, s.reports[n], s.now) else NewRecord(s, n)
  }

  lemma {:induction false} IngestRound(recs0: Records, s: Scan, recs: Records, n: nat)
    requires ScanOk(s) && n < |s.reports| && Keyed(recs0) && IngestedTo(recs0, s, recs, n)
    ensures !WellFormed(s.reports[n]) ==> IngestedTo(recs0, s, recs, n + 1)
    ensures WellFormed(s.reports[n]) ==>
              var r := Upserted(recs0, s, n);
              (r.mod, r.report.fingerprint) == (s.mod.id, s.reports[n].fingerprint) &&
              IngestedTo(recs0, s, recs[(r.mod, r.report.fingerprint) := r], n + 1)
  {
    hide Upserted, WellFormed, Ingested;
    var r := Upserted(recs0, s, n);
    UpsertedKey(recs0, s, n);
    forall fp { OneMoreReport(recs0, s, fp, n); }
    assert WellFormed(s.reports[n]) ==> Keyed(recs[(r.mod, r.report.fingerprint) := r]);
  }

  lemma UpsertedKey(recs0: Records, s: Scan, n: nat)
    requires ScanOk(s) && n < |s.reports| && Keyed(recs0)
    ensures var r := Upserted(recs0, s, n);
      r.mod == s.mod.id && r.report.fingerprint == s.reports[n].fingerprint
  {
    hide ValidateForIngest;
  }

  lemma {:induction false} OneMoreReport(recs0: Records, s: Scan, fp: string, n: nat)
    requires ScanOk(s) && n < |s.reports|
    ensures var prev := Get(recs0, (s.mod.id, fp));
      Ingested(prev, s, fp, n + 1) ==
      if WellFormed(s.reports[n]) && s.reports[n].fingerprint == fp then Some(Upserted(recs0, s, n))
      else Ingested(prev, s, fp, n)
  {
    hide Refreshed, NewRecord, WellFormed;
  }

  /** The store when the second loop has dealt with the fingerprints in `done`. */
  ghost predicate MissedTo(recs0: Records, s: Scan, recs: Records, done: set<string>)
    requires ScanOk(s)
  {
    && Keyed(recs)
    && (forall fp :: Get(recs, (s.mod.id, fp)) ==
          if fp in done then After(Get(recs0, (s.mod.id, fp)), s, fp)
          else Ingested(Get(recs0, (s.mod.id, fp)), s, fp, |s.reports|))
    && (forall k: Key :: k.0 != s.mod.id ==> Get(recs, k) == Get(recs0, k))
  }

  lemma {:induction false} MissRound(recs0: Records, s: Scan, recs: Records, done: set<string>, fp: string)
    requires ScanOk(s) && Keyed(recs0) && MissedTo(recs0, s, recs, done)
    requires fp !in done && Known(Get(recs0, (s.mod.id, fp)), s)
    ensures Reports(s, fp) || !Counting(recs0[(s.mod.id, fp)]) ==> MissedTo(recs0, s, recs, done + {fp})
    ensures !Reports(s, fp) ==>
              MissedTo(recs0, s, recs[(s.mod.id, fp) := Missed(recs0[(s.mod.id, fp)], s.mod, s.now)], done + {fp})
  {
    hide Ingested, Missed;
    var m := Missed(recs0[(s.mod.id, fp)], s.mod, s.now);
    MissedKey(recs0[(s.mod.id, fp)], s.mod, s.now);
    forall x { AfterOrIngested(Get(recs0, (s.mod.id, x)), s, x); }
    hide After;
    assert Keyed(recs[(s.mod.id, fp) := m]);
  }

  lemma MissedKey(r: Record, mod: ModuleInfo, now: int)
    ensures var m := Missed(r, mod, now); m.mod == r.mod && m.report == r.report
    ensures !Counting(r) ==> Missed(r, mod, now) == r
  {}

  lemma AfterOrIngested(prev: Option<Record>, s: Scan, fp: string)
    requires ScanOk(s)
    ensures After(prev, s, fp) ==
      if !Reports(s, fp) && Known(prev, s) then Some(Missed(prev.value, s.mod, s.now))
      else Ingested(prev, s, fp, |s.reports|)
    ensures !Reports(s, fp) ==> Ingested(prev, s, fp, |s.reports|) == prev
  {
    hide Missed, LastReport;
  }

  lemma MissedWhenCounting(r: Record, mod: ModuleInfo, now: int)
    requires Counting(r)
    ensures var bumped := r.(absentStreak := r.absentStreak + 1);
      Missed(r, mod, now) ==
      if bumped.absentStreak >= ResolveAfterOrDefault(mod) then bumped.(status := Resolved, resolvedAt := Some(now))
      else bumped
  {}

  /** `out` names, once each, the fingerprints of `done` the scan resolves. */
  ghost predicate ResolvedAmong(recs: Records, s: Scan, done: set<string>, out: seq<Record>)
    requires ScanOk(s)
  {
    && (forall a, b :: 0 <= a < b < |out| ==> out[a].report.fingerprint != out[b].report.fingerprint)
    && (forall r :: r in out <==> r.report.fingerprint in done && IsResolved(recs, s, r))
  }

  /** `r` is a record of the store as the scan resolves it. */
  ghost predicate IsResolved(recs: Records, s: Scan, r: Record) {
    var k := (s.mod.id, r.report.fingerprint);
    k in recs && Resolves(Get(recs, k), s, k.1) && r == Missed(recs[k], s.mod, s.now)
  }

  lemma {:induction false} ResolvedRound(recs: Records, s: Scan, done: set<string>, out: seq<Record>, fp: string)
    requires ScanOk(s) && Keyed(recs) && ResolvedAmong(recs, s, done, out)
    requires fp !in done && (s.mod.id, fp) in recs
    ensures var k := (s.mod.id, fp);
            var r := Missed(recs[k], s.mod, s.now);
            ResolvedAmong(recs, s, done + {fp}, if Resolves(Get(recs, k), s, fp) then out + [r] else out)
  {}

  datatype Result = Result(newlyOpen: seq<Record>, resolved: seq<Record>, rejected: seq<(Report, Field)>)

  // ------------------------------------------------------------------------
  // The store and the engine

  class MemStore {
    var recs: Records

    constructor ()
      ensures recs == map[]
    {
      recs := map[];
    }

    method Upsert(r: Record)
      modifies this
      ensures recs == old(recs)[(r.mod, r.report.fingerprint) := r]
    {
      recs := recs[(r.mod, r.report.fingerprint) := r];
    }

    /** The matching records, in any order. */
    method ListByTarget(mod: string, target: string) returns (out: seq<Record>)
      requires Keyed(recs)
      ensures forall r :: r in out <==>
                (r.mod, r.report.fingerprint) in recs && recs[(r.mod, r.report.fingerprint)] == r
                && r.mod == mod && r.report.target == target
      ensures forall a, b :: 0 <= a < b < |out| ==> out[a].report.fingerprint != out[b].report.fingerprint
    {
      out := [];
      var rest := recs.Keys;
      while rest != {}
        invariant rest <= recs.Keys
        invariant forall r :: r in out <==>
                    var k := (r.mod, r.report.fingerprint);
                    k in recs.Keys - rest && recs[k] == r && r.mod == mod && r.report.target == target
        invariant forall a, b :: 0 <= a < b < |out| ==> out[a].report.fingerprint != out[b].report.fingerprint
      {
        var k :| k in rest;
        rest := rest - {k};
        var r := recs[k];
        if r.mod == mod && r.report.target == target {
          forall a | 0 <= a < |out|
            ensures out[a].report.fingerprint != r.report.fingerprint
          {
            assert out[a] in out;
          }
          out := out + [r];
        }
      }
    }
  }

  class Engine {
    const store: MemStore

    constructor (store: MemStore)
      ensures this.store == store
    {
      this.store := store;
    }

    method Reconcile(s: Scan) returns (res: Result)
      requires ScanOk(s) && Keyed(store.recs)
      modifies store
      ensures Keyed(store.recs)
      ensures ScanStep(old(store.recs), s, store.recs)
      ensures res.newlyOpen == NewlyOpen(old(store.recs), s, |s.reports|)
      ensures res.rejected == Rejected(s, |s.reports|)
      ensures ResolvedOnce(old(store.recs), s, res.resolved)
    {
      ghost var recs0 := store.recs;
      var existing := store.ListByTarget(s.mod.id, s.target);
      var newlyOpen, rejected, seen := Ingest(s, existing);
      var resolved := AutoResolve(s, existing, seen, recs0);
      res := Result(newlyOpen, resolved, rejected);
    }

    /** The first loop: upsert every well-formed report. */
    method Ingest(s: Scan, existing: seq<Record>)
      returns (newlyOpen: seq<Record>, rejected: seq<(Report, Field)>, seen: set<string>)
      requires ScanOk(s) && Keyed(store.recs) && Listing(s, existing, store.recs)
      modifies store
      ensures IngestedTo(old(store.recs), s, store.recs, |s.reports|)
      ensures newlyOpen == NewlyOpen(old(store.recs), s, |s.reports|)
      ensures rejected == Rejected(s, |s.reports|)
      ensures forall fp :: fp in seen <==> Reports(s, fp)
    {
      hide Missed, IngestedTo, Refreshed, NewRecord;
      ghost var recs0 := store.recs;
      assert IngestedTo(recs0, s, store.recs, 0) by { NothingIngested(recs0, s); }
      var byFP := IndexByFingerprint(s, existing, recs0);
      newlyOpen, rejected, seen := [], [], {};
      for n := 0 to |s.reports|
        invariant IngestedTo(recs0, s, store.recs, n)
        invariant newlyOpen == NewlyOpen(recs0, s, n)
        invariant rejected == Rejected(s, n)
        invariant forall fp :: fp in seen <==> LastReport(s.reports, fp, n).Some?
      {
        var f := s.reports[n];
        IngestRound(recs0, s, store.recs, n);
        var problem := ValidateForIngest(f);
        if problem.Some? {
          rejected := rejected + [(f, problem.value)];
          continue;
        }
        seen := seen + {f.fingerprint};
        if f.fingerprint !in byFP {
          var rec := NewRecord(s, n);
          store.Upsert(rec);
          newlyOpen := newlyOpen + [rec];
          continue;
        }
        var prev := byFP[f.fingerprint];
        var merged := Refreshed(prev, f, s.now);
        store.Upsert(merged);
        if prev.status == Resolved {
          newlyOpen := newlyOpen + [merged];
        }
      }
    }

    method IndexByFingerprint(s: Scan, existing: seq<Record>, ghost recs: Records) returns (byFP: map<string, Record>)
      requires Keyed(recs) && Listing(s, existing, recs)
      ensures forall fp :: fp in byFP <==> Known(Get(recs, (s.mod.id, fp)), s)
      ensures forall fp :: fp in byFP ==> (s.mod.id, fp) in recs && byFP[fp] == recs[(s.mod.id, fp)]
    {
      byFP := map[];
      for n := 0 to |existing|
        invariant forall fp :: fp in byFP ==> byFP[fp] in existing && byFP[fp].report.fingerprint == fp
        invariant forall a :: 0 <= a < n ==> existing[a].report.fingerprint in byFP
      {
        byFP := byFP[existing[n].report.fingerprint := existing[n]];
      }
      forall fp | Known(Get(recs, (s.mod.id, fp)), s)
        ensures fp in byFP
      {
        assert recs[(s.mod.id, fp)] in existing;
      }
    }

    /** The second loop: count the misses of the target's unreported findings. */
    method AutoResolve(s: Scan, existing: seq<Record>, seen: set<string>, ghost recs0: Records)
      returns (resolved: seq<Record>)
      requires ScanOk(s) && Keyed(recs0) && Listing(s, existing, recs0)
      requires IngestedTo(recs0, s, store.recs, |s.reports|)
      requires forall fp :: fp in seen <==> Reports(s, fp)
      modifies store
      ensures Keyed(store.recs) && ScanStep(recs0, s, store.recs)
      ensures ResolvedOnce(recs0, s, resolved)
    {
      resolved := [];
      ghost var done: set<string> := {};
      hide MissedTo, ResolvedAmong, IngestedTo, Reports, ScanStep, ResolvedOnce, Missed, Listing, Known;
      NothingMissed(recs0, s, store.recs);
      for n := 0 to |existing|
        invariant MissedTo(recs0, s, store.recs, done)
        invariant ResolvedAmong(recs0, s, done, resolved)
        invariant forall a :: 0 <= a < |existing| ==> (existing[a].report.fingerprint in done <==> a < n)
      {
        var r := existing[n];
        ghost var fp := r.report.fingerprint;
        ListedRecord(s, existing, recs0, n);
        MissRound(recs0, s, store.recs, done, fp);
        ResolvedRound(recs0, s, done, resolved, fp);
        done := done + {fp};
        if r.report.fingerprint in seen || r.status == Resolved || r.status == Suppressed {
          continue;
        }
        MissedWhenCounting(r, s.mod, s.now);
        var bumped := r.(absentStreak := r.absentStreak + 1);
        if bumped.absentStreak >= ResolveAfterOrDefault(s.mod) {
          bumped := bumped.(status := Resolved, resolvedAt := Some(s.now));
          resolved := resolved + [bumped];
        }
        store.Upsert(bumped);
      }
      AllMissed(recs0, s, existing, store.recs, done, resolved);
    }
  }

  /** `existing` is the target's listing of `recs`. */
  ghost predicate Listing(s: Scan, existing: seq<Record>, recs: Records) {
    && (forall r :: r in existing <==>
          (r.mod, r.report.fingerprint) in recs && recs[(r.mod, r.report.fingerprint)] == r
          && r.mod == s.mod.id && r.report.target == s.target)
    && (forall a, b :: 0 <= a < b < |existing| ==>
          existing[a].report.fingerprint != existing[b].report.fingerprint)
  }

  lemma {:induction false} ListedRecord(s: Scan, existing: seq<Record>, recs: Records, n: nat)
    requires Listing(s, existing, recs) && n < |existing|
    ensures var r, fp := existing[n], existing[n].report.fingerprint;
      && r.mod == s.mod.id && (s.mod.id, fp) in recs && recs[(s.mod.id, fp)] == r
      && Known(Get(recs, (s.mod.id, fp)), s)
      && forall a :: 0 <= a < |existing| && a != n ==> existing[a].report.fingerprint != fp
  {
    assert existing[n] in existing;
  }

  lemma NothingMissed(recs0: Records, s: Scan, recs: Records)
    requires ScanOk(s) && IngestedTo(recs0, s, recs, |s.reports|)
    ensures MissedTo(recs0, s, recs, {}) && ResolvedAmong(recs0, s, {}, [])
  {}

  lemma NothingIngested(recs0: Records, s: Scan)
    requires ScanOk(s) && Keyed(recs0)
    ensures IngestedTo(recs0, s, recs0, 0)
  {}

  /** `out` names, once each, the records the scan resolves. */
  ghost predicate ResolvedOnce(recs: Records, s: Scan, out: seq<Record>) {
    && (forall a, b :: 0 <= a < b < |out| ==> out[a].report.fingerprint != out[b].report.fingerprint)
    && (forall r :: r in out <==> IsResolved(recs, s, r))
  }

  lemma {:induction false} AllMissed(recs0: Records, s: Scan, existing: seq<Record>,
                                     recs: Records, done: set<string>, out: seq<Record>)
    requires ScanOk(s) && Keyed(recs0) && Listing(s, existing, recs0)
    requires MissedTo(recs0, s, recs, done) && ResolvedAmong(recs0, s, done, out)
    requires forall a :: 0 <= a < |existing| ==> existing[a].report.fingerprint in done
    ensures Keyed(recs) && ScanStep(recs0, s, recs) && ResolvedOnce(recs0, s, out)
  {}
}
