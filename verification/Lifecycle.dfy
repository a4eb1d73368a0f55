/** The finding lifecycle over whole runs of scans and user status changes
    (store/reconcile.go:23-111, web/server.go:355-382). */
module Lifecycle {
  import opened Findings
  import opened Reconcile

  /** One event of a run, each atomic. */
  datatype Op = Rescan(s: Scan) | SetStatus(mod: string, fp: string, status: Status)

  /** The statuses a user may set. */
  predicate UserStatus(st: Status) {
    st != Resolved
  }

  predicate ActsOn(op: Op, k: Key) {
    match op
    case Rescan(s) => s.mod.id == k.0
    case SetStatus(m, fp, st) => (m, fp) == k && UserStatus(st)
  }

  ghost predicate OpOk(op: Op) {
    op.Rescan? ==> ScanOk(op.s)
  }

  /** What an event does to the record of one key. */
  function RecStep(prev: Option<Record>, op: Op, k: Key): Option<Record>
    requires OpOk(op)
  {
    if !ActsOn(op, k) then prev
    else match op
      case Rescan(s) => After(prev, s, k.1)
      case SetStatus(_, _, st) => if prev.None? then None else Some(prev.value.(status := st))
  }

  /** What an event does to the whole store. */
  ghost predicate StoreStep(recs: Records, op: Op, recs': Records)
    requires OpOk(op)
  {
    match op
    case Rescan(s) => ScanStep(recs, s, recs')
    case SetStatus(_, _, _) => forall k :: Get(recs', k) == RecStep(Get(recs, k), op, k)
  }

  /** The status handler: unknown statuses and unknown findings change nothing. */
  method HandleFindingStatus(store: MemStore, mod: string, fp: string, next: Status) returns (ok: bool)
    requires Keyed(store.recs)
    modifies store
    ensures Keyed(store.recs) && StoreStep(old(store.recs), SetStatus(mod, fp, next), store.recs)
    ensures ok <==> UserStatus(next) && (mod, fp) in old(store.recs)
  {
    if !UserStatus(next) || (mod, fp) !in store.recs {
      return false;
    }
    store.Upsert(store.recs[(mod, fp)].(status := next));
    return true;
  }

  /** Each of the three statuses takes effect on an existing record and on no other;
      "resolved" never does. */
  lemma {:induction false} StatusTakesEffectIff(recs: Records, mod: string, fp: string, st: Status, recs': Records)
    requires (mod, fp) in recs && recs[(mod, fp)].status != st
    requires StoreStep(recs, SetStatus(mod, fp, st), recs')
    ensures (mod, fp) in recs' && (recs'[(mod, fp)].status == st <==> st in {Open, Acknowledged, Suppressed})
    ensures recs'[(mod, fp)] == recs[(mod, fp)].(status := recs'[(mod, fp)].status)
    ensures forall k: Key :: k != (mod, fp) ==> Get(recs', k) == Get(recs, k)
  {
    assert Get(recs', (mod, fp)) == RecStep(Get(recs, (mod, fp)), SetStatus(mod, fp, st), (mod, fp));
  }

  // ------------------------------------------------------------------------
  // Runs

  function Init<T>(l: seq<T>): seq<T>
    requires l != []
  {
    l[..|l| - 1]
  }

  function Last<T>(l: seq<T>): T
    requires l != []
  {
    l[|l| - 1]
  }

  ghost predicate OpsOk(ops: seq<Op>) {
    forall i :: 0 <= i < |ops| ==> OpOk(ops[i])
  }

  /** The record of `k` after the run, from an empty store. */
  function At(ops: seq<Op>, k: Key): Option<Record>
    requires OpsOk(ops)
  {
    if ops == [] then None else RecStep(At(Init(ops), k), Last(ops), k)
  }

  /** A run of the store, seen at one key, is a run of that key's record. */
  lemma {:induction false} StoreRunProjects(trace: seq<Records>, ops: seq<Op>, k: Key)
    requires OpsOk(ops) && |trace| == |ops| + 1 && trace[0] == map[]
    requires forall i :: 0 <= i < |ops| ==> StoreStep(trace[i], ops[i], trace[i + 1])
    ensures Get(trace[|ops|], k) == At(ops, k)
    decreases |ops|
  {
    if ops != [] {
      StoreRunProjects(trace[..|ops|], Init(ops), k);
      var n := |ops| - 1;
      assert StoreStep(trace[n], ops[n], trace[n + 1]);
      assert k == (k.0, k.1);
    }
  }

  /** A turn of a record: opened or resolved by a scan, or taken out of "resolved"
      by a user. Only the first two are announced. */
  datatype Mark = MarkOpened | MarkResolved | MarkReopened

  function Marks(prev: Option<Record>, op: Op, k: Key): seq<Mark> {
    if !ActsOn(op, k) then []
    else match op
      case Rescan(s) =>
        if Opens(prev, s, k.1) then [MarkOpened] else if Resolves(prev, s, k.1) then [MarkResolved] else []
      case SetStatus(_, _, _) =>
        if prev.Some? && prev.value.status == Resolved then [MarkReopened] else []
  }

  /** The turns of the record of `k` over the run. */
  function Turns(ops: seq<Op>, k: Key): seq<Mark>
    requires OpsOk(ops)
  {
    if ops == [] then [] else Turns(Init(ops), k) + Marks(At(Init(ops), k), Last(ops), k)
  }

  /** The fingerprint belongs to one target: only scans of `home` report it, with
      that target. */
  ghost predicate Owned(ops: seq<Op>, k: Key, home: string) {
    OpsOk(ops) && forall i :: 0 <= i < |ops| ==> OwnedOp(ops[i], k, home)
  }

  ghost predicate OwnedOp(op: Op, k: Key, home: string) {
    op.Rescan? && op.s.mod.id == k.0 ==>
      forall f :: f in op.s.reports && WellFormed(f) && f.fingerprint == k.1 ==> f.target == op.s.target == home
  }

  /** A scan of the key's module and target. */
  predicate ScansHome(op: Op, k: Key, home: string) {
    op.Rescan? && op.s.mod.id == k.0 && op.s.target == home
  }

  predicate IsReported(op: Op, k: Key) {
    op.Rescan? && op.s.mod.id == k.0 && Reports(op.s, k.1)
  }

  /** Scans that missed the finding since it was last reported, those while it was
      suppressed or resolved not counted. */
  function MissCount(ops: seq<Op>, k: Key, home: string): nat
    requires OpsOk(ops)
  {
    if ops == [] then 0
    else
      var n, prev, op := MissCount(Init(ops), k, home), At(Init(ops), k), Last(ops);
      if IsReported(op, k) then 0
      else if ScansHome(op, k, home) && prev.Some? && prev.value.status in {Open, Acknowledged} then n + 1
      else n
  }

  /** The clock of the last scan that reported the finding. */
  function LastClock(ops: seq<Op>, k: Key): Option<int> {
    if ops == [] then None
    else if IsReported(Last(ops), k) then Some(Last(ops).s.now)
    else LastClock(Init(ops), k)
  }

  /** The clock of the first scan that reported it. */
  function FirstClock(ops: seq<Op>, k: Key): Option<int> {
    if ops == [] then None
    else
      var c := FirstClock(Init(ops), k);
      if c.Some? then c else if IsReported(Last(ops), k) then Some(Last(ops).s.now) else None
  }

  predicate Live(r: Option<Record>) {
    r.Some? && r.value.status != Resolved
  }

  predicate IsUp(m: Mark) {
    m != MarkResolved
  }

  /** Openings and resolutions strictly alternate, starting with a scan's opening. */
  ghost predicate Alternates(turns: seq<Mark>) {
    && (forall i :: 0 <= i < |turns| ==> (IsUp(turns[i]) <==> i % 2 == 0))
    && (turns != [] ==> turns[0] == MarkOpened)
  }

  /** The turns tell whether the record is live and whether `resolvedAt` is set. */
  ghost predicate TurnsAgree(r: Option<Record>, turns: seq<Mark>) {
    && Alternates(turns)
    && (r.None? ==> turns == [])
    && (Live(r) <==> |turns| % 2 == 1)
    && (r.Some? ==> turns != [])
    && (r.Some? ==> (r.value.resolvedAt.Some? <==> r.value.status == Resolved || Last(turns) == MarkReopened))
  }

  ghost predicate BelongsTo(r: Option<Record>, k: Key, home: string) {
    r.Some? ==> (r.value.mod, r.value.report.fingerprint) == k && r.value.report.target == home
  }

  /** The report a scan takes for a fingerprint is its last well-formed one. */
  lemma {:induction false} LastReportIsReported(reports: seq<Report>, fp: string, n: nat)
    requires n <= |reports|
    ensures var i := LastReport(reports, fp, n);
      && (i.Some? ==> IsReportOf(reports[i.value], fp))
      && (forall k :: (if i.Some? then i.value + 1 else 0) <= k < n ==> !IsReportOf(reports[k], fp))
  {
    if n > 0 { LastReportIsReported(reports, fp, n - 1); }
  }

  lemma {:induction false} StepKeeps(prev: Option<Record>, turns: seq<Mark>, op: Op, k: Key, home: string)
    requires OpOk(op) && OwnedOp(op, k, home) && BelongsTo(prev, k, home) && TurnsAgree(prev, turns)
    ensures BelongsTo(RecStep(prev, op, k), k, home)
    ensures TurnsAgree(RecStep(prev, op, k), turns + Marks(prev, op, k))
  {
    hide WellFormed, LastReport;
    if op.Rescan? && op.s.mod.id == k.0 && Reports(op.s, k.1) {
      LastReportIsReported(op.s.reports, k.1, |op.s.reports|);
      var f := op.s.reports[LastReport(op.s.reports, k.1, |op.s.reports|).value];
      assert f in op.s.reports;
    }
    assert turns + [] == turns;
  }

  /** In every reachable state: openings (by a scan or by a user) and resolutions
      alternate, the record is live exactly after an opening, and `resolvedAt` is
      set exactly when the record is resolved or was last reopened by a user. */
  lemma {:induction false} RunKeeps(ops: seq<Op>, k: Key, home: string)
    requires Owned(ops, k, home)
    ensures BelongsTo(At(ops, k), k, home) && TurnsAgree(At(ops, k), Turns(ops, k))
    decreases |ops|
  {
    if ops != [] {
      RunKeeps(Init(ops), k, home);
      StepKeeps(At(Init(ops), k), Turns(Init(ops), k), Last(ops), k, home);
    }
  }

  // ------------------------------------------------------------------------
  // Notifications

  /** How often a list of records names a fingerprint. */
  function Announced(l: seq<Record>, fp: string): nat {
    if l == [] then 0 else Announced(Init(l), fp) + if Last(l).report.fingerprint == fp then 1 else 0
  }

  function Occurrences(reports: seq<Report>, fp: string, n: nat): nat
    requires n <= |reports|
  {
    if n == 0 then 0 else Occurrences(reports, fp, n - 1) + if IsReportOf(reports[n - 1], fp) then 1 else 0
  }

  lemma {:induction false} OccursIffReported(reports: seq<Report>, fp: string, n: nat)
    requires n <= |reports|
    ensures Occurrences(reports, fp, n) > 0 <==> LastReport(reports, fp, n).Some?
  {
    if n > 0 { OccursIffReported(reports, fp, n - 1); }
  }

  /** A scan announces a finding as opened once per well-formed report of it, or
      never when it was live: so once only where the reports are distinct. */
  lemma {:induction false} AnnouncedPerReport(recs: Records, s: Scan, fp: string, n: nat)
    requires ScanOk(s) && Keyed(recs) && n <= |s.reports|
    ensures var prev := Get(recs, (s.mod.id, fp));
            Announced(NewlyOpen(recs, s, n), fp) ==
            if Known(prev, s) && prev.value.status != Resolved then 0 else Occurrences(s.reports, fp, n)
  {
    hide WellFormed;
    hide Refreshed, NewRecord;
    if n > 0 {
      UpsertedKey(recs, s, n - 1);
      AnnouncedPerReport(recs, s, fp, n - 1);
      var l := NewlyOpen(recs, s, n - 1);
      var now := NewlyOpen(recs, s, n);
      assert now == l || (|now| == |l| + 1 && Init(now) == l);
    }
  }

  function Repeat(m: Mark, n: nat): seq<Mark> {
    seq(n, _ => m)
  }

  /** The notifications one event sends for a key: one per well-formed report when
      the scan opens the record, one when it resolves it. */
  function Announces(prev: Option<Record>, op: Op, k: Key): seq<Mark> {
    if !op.Rescan? || op.s.mod.id != k.0 then []
    else if Opens(prev, op.s, k.1) then Repeat(MarkOpened, Occurrences(op.s.reports, k.1, |op.s.reports|))
    else if Resolves(prev, op.s, k.1) then [MarkResolved]
    else []
  }

  /** What the bridge enqueues for a fingerprint from a reconcile's result: the
      opened list, then the resolved one (notify/bridge.go:19-24). */
  function Enqueued(res: Result, fp: string): seq<Mark> {
    Repeat(MarkOpened, Announced(res.newlyOpen, fp)) + Repeat(MarkResolved, Announced(res.resolved, fp))
  }

  /** What `Engine.Reconcile` promises of its result. */
  ghost predicate Returned(recs: Records, s: Scan, res: Result)
    requires ScanOk(s)
  {
    res.newlyOpen == NewlyOpen(recs, s, |s.reports|) && ResolvedOnce(recs, s, res.resolved)
  }

  lemma {:induction false} AnnouncedAtMostOnce(l: seq<Record>, fp: string)
    requires forall a, b :: 0 <= a < b < |l| ==> l[a].report.fingerprint != l[b].report.fingerprint
    ensures Announced(l, fp) == if exists r :: r in l && r.report.fingerprint == fp then 1 else 0
  {
    if l != [] {
      AnnouncedAtMostOnce(Init(l), fp);
      assert l == Init(l) + [Last(l)];
      if exists r :: r in Init(l) && r.report.fingerprint == fp {
        var r :| r in Init(l) && r.report.fingerprint == fp;
        assert r in l && Last(l).report.fingerprint != fp;
      }
    }
  }

  /** The notifications of one scan, with multiplicity, are those its result makes
      the bridge enqueue. */
  lemma {:induction false} ResultIsAnnounced(recs: Records, s: Scan, res: Result, fp: string)
    requires ScanOk(s) && Keyed(recs) && Returned(recs, s, res)
    ensures Enqueued(res, fp) == Announces(Get(recs, (s.mod.id, fp)), Rescan(s), (s.mod.id, fp))
  {
    hide Missed, LastReport, NewlyOpen, WellFormed;
    AnnouncedPerReport(recs, s, fp, |s.reports|);
    OccursIffReported(s.reports, fp, |s.reports|);
    AnnouncedAtMostOnce(res.resolved, fp);
    var k := (s.mod.id, fp);
    ResolvedNames(recs, s, res.resolved, fp);
    hide ResolvedOnce, Announced, Occurrences;
    assert [MarkResolved] == Repeat(MarkResolved, 1);
  }

  lemma {:induction false} ResolvedNames(recs: Records, s: Scan, out: seq<Record>, fp: string)
    requires Keyed(recs) && ResolvedOnce(recs, s, out)
    ensures (exists r :: r in out && r.report.fingerprint == fp) <==> Resolves(Get(recs, (s.mod.id, fp)), s, fp)
  {
    if Resolves(Get(recs, (s.mod.id, fp)), s, fp) {
      var r := Missed(recs[(s.mod.id, fp)], s.mod, s.now);
      assert r.report.fingerprint == fp && IsResolved(recs, s, r);
    }
  }

  /** The notifications of a run for one key, in order. */
  function Announcements(ops: seq<Op>, k: Key): seq<Mark>
    requires OpsOk(ops)
  {
    if ops == [] then [] else Announcements(Init(ops), k) + Announces(At(Init(ops), k), Last(ops), k)
  }

  /** The same from the results of the reconciles of a run of the store. */
  function AllEnqueued(ops: seq<Op>, results: seq<Result>, k: Key): seq<Mark>
    requires |results| == |ops|
  {
    if ops == [] then []
    else AllEnqueued(Init(ops), Init(results), k) +
         if Last(ops).Rescan? && Last(ops).s.mod.id == k.0 then Enqueued(Last(results), k.1) else []
  }

  lemma {:induction false} ResultsAreAnnounced(trace: seq<Records>, ops: seq<Op>, results: seq<Result>, k: Key)
    requires OpsOk(ops) && |trace| == |ops| + 1 && |results| == |ops| && trace[0] == map[]
    requires forall i :: 0 <= i < |ops| ==> Keyed(trace[i]) && StoreStep(trace[i], ops[i], trace[i + 1])
    requires forall i :: 0 <= i < |ops| && ops[i].Rescan? ==> Returned(trace[i], ops[i].s, results[i])
    ensures AllEnqueued(ops, results, k) == Announcements(ops, k)
    decreases |ops|
  {
    hide Returned, StoreStep, RecStep, Enqueued, Announces;
    if ops != [] {
      var n := |ops| - 1;
      ResultsAreAnnounced(trace[..|ops|], Init(ops), Init(results), k);
      StoreRunProjects(trace[..|ops|], Init(ops), k);
      assert trace[..|ops|][n] == trace[n];
      if ops[n].Rescan? && ops[n].s.mod.id == k.0 {
        assert Returned(trace[n], ops[n].s, results[n]);
        ResultIsAnnounced(trace[n], ops[n].s, results[n], k.1);
        assert k == (ops[n].s.mod.id, k.1);
      } else {
        assert Announces(At(Init(ops), k), ops[n], k) == [] by { NothingAnnounced(At(Init(ops), k), ops[n], k); }
      }
    }
  }

  lemma NothingAnnounced(prev: Option<Record>, op: Op, k: Key)
    requires !op.Rescan? || op.s.mod.id != k.0
    ensures Announces(prev, op, k) == []
  {}

  // ------------------------------------------------------------------------
  // When notifications alternate

  /** opened, resolved, opened, … */
  ghost predicate EventsAlternate(events: seq<Mark>) {
    forall i :: 0 <= i < |events| ==> events[i] == if i % 2 == 0 then MarkOpened else MarkResolved
  }

  /** The scan opens the record and reports it more than once. */
  predicate OpensRepeatedly(prev: Option<Record>, op: Op, k: Key) {
    op.Rescan? && op.s.mod.id == k.0 && Opens(prev, op.s, k.1) &&
    Occurrences(op.s.reports, k.1, |op.s.reports|) > 1
  }

  ghost predicate OpensOnce(ops: seq<Op>, k: Key)
    requires OpsOk(ops)
  {
    forall i :: 0 <= i < |ops| ==> !OpensRepeatedly(At(ops[..i], k), ops[i], k)
  }

  /** The turns that are announced. */
  function Events(turns: seq<Mark>): seq<Mark> {
    if turns == [] then []
    else Events(Init(turns)) + if Last(turns) == MarkReopened then [] else [Last(turns)]
  }

  lemma {:induction false} EventsPrefix(turns: seq<Mark>, n: nat)
    requires n <= |turns|
    ensures Events(turns[..n]) <= Events(turns)
    decreases |turns|
  {
    if n < |turns| {
      EventsPrefix(Init(turns), n);
      assert Init(turns)[..n] == turns[..n];
    } else {
      assert turns[..n] == turns;
    }
  }

  lemma {:induction false} EventsWithoutReopening(turns: seq<Mark>)
    requires MarkReopened !in turns
    ensures Events(turns) == turns
    decreases |turns|
  {
    if turns != [] {
      var init, last := Init(turns), Last(turns);
      assert turns == init + [last] && last in turns;
      assert MarkReopened !in init && last != MarkReopened;
      EventsWithoutReopening(init);
    }
  }

  /** The first reopening that is followed by anything is followed by a second
      resolution in a row. */
  lemma {:induction false} ReopeningBreaksEvents(turns: seq<Mark>, n: nat)
    requires Alternates(turns) && n + 1 < |turns| && turns[n] == MarkReopened && MarkReopened !in turns[..n]
    ensures !EventsAlternate(Events(turns))
  {
    var p := turns[..n];
    assert n % 2 == 0 && turns[n + 1] == MarkResolved by {
      assert IsUp(turns[n]) && !IsUp(turns[n + 1]);
    }
    hide Alternates, EventsAlternate, Events;
    EventsWithoutReopening(p);
    EventsGrow(turns, n);
    EventsGrow(turns, n + 1);
    EventsPrefix(turns, n + 2);
    NextAfter(p, MarkResolved, Events(turns));
    OutOfTurn(Events(turns), n);
  }

  lemma {:induction false} EventsGrow(turns: seq<Mark>, n: nat)
    requires n < |turns|
    ensures Events(turns[..n + 1]) == Events(turns[..n]) + if turns[n] == MarkReopened then [] else [turns[n]]
  {
    assert Init(turns[..n + 1]) == turns[..n];
  }

  lemma NextAfter(p: seq<Mark>, m: Mark, e: seq<Mark>)
    requires p + [] + [m] <= e
    ensures |e| > |p| && e[|p|] == m
  {
    assert (p + [] + [m])[|p|] == m;
  }

  lemma OutOfTurn(e: seq<Mark>, n: nat)
    requires n < |e| && n % 2 == 0 && e[n] == MarkResolved
    ensures !EventsAlternate(e)
  {}

  lemma TwoInARow(e: seq<Mark>, n: nat)
    requires n + 1 < |e| && e[n] == e[n + 1]
    ensures !EventsAlternate(e)
  {
    assert n % 2 != (n + 1) % 2;
  }

  lemma {:induction false} FirstReopening(turns: seq<Mark>, n: nat) returns (m: nat)
    requires n < |turns| && turns[n] == MarkReopened
    ensures m <= n && turns[m] == MarkReopened && MarkReopened !in turns[..m]
    decreases n
  {
    m := n;
    if MarkReopened in turns[..n] {
      var j :| 0 <= j < n && turns[..n][j] == MarkReopened;
      m := FirstReopening(turns, j);
    }
  }

  lemma {:induction false} LastReopeningIsHarmless(turns: seq<Mark>)
    requires Alternates(turns) && turns != [] && MarkReopened !in Init(turns)
    ensures EventsAlternate(Events(turns))
  {
    EventsWithoutReopening(Init(turns));
    var e := Events(turns);
    forall i | 0 <= i < |e|
      ensures e[i] == if i % 2 == 0 then MarkOpened else MarkResolved
    {
      assert e[i] == turns[i] && turns[i] != MarkReopened by {
        if i < |turns| - 1 { assert Init(turns)[i] in Init(turns); }
      }
      assert IsUp(turns[i]) <==> i % 2 == 0;
    }
  }

  lemma {:induction false} TurnEventsAlternateIff(turns: seq<Mark>)
    requires Alternates(turns)
    ensures EventsAlternate(Events(turns)) <==> (turns == [] || MarkReopened !in Init(turns))
  {
    hide Alternates, EventsAlternate;
    if turns == [] {
      NoEvents();
    } else if MarkReopened in Init(turns) {
      var n :| 0 <= n < |Init(turns)| && Init(turns)[n] == MarkReopened;
      var m := FirstReopening(turns, n);
      ReopeningBreaksEvents(turns, m);
    } else {
      LastReopeningIsHarmless(turns);
    }
  }

  lemma NoEvents()
    ensures EventsAlternate(Events([]))
  {}

  lemma {:induction false} AnnouncesTheTurn(prev: Option<Record>, op: Op, k: Key)
    requires !OpensRepeatedly(prev, op, k)
    ensures Announces(prev, op, k) == Events(Marks(prev, op, k)) && |Marks(prev, op, k)| <= 1
  {
    hide WellFormed;
    if op.Rescan? { OccursIffReported(op.s.reports, k.1, |op.s.reports|); }
  }

  lemma {:induction false} EventsOfOneMore(turns: seq<Mark>, more: seq<Mark>)
    requires |more| <= 1
    ensures Events(turns + more) == Events(turns) + Events(more)
  {
    if more == [] {
      assert turns + more == turns;
    } else {
      assert Init(turns + more) == turns && Init(more) == [];
    }
  }

  lemma {:induction false} AnnouncementsAreTurnEvents(ops: seq<Op>, k: Key)
    requires OpsOk(ops) && OpensOnce(ops, k)
    ensures Announcements(ops, k) == Events(Turns(ops, k))
    decreases |ops|
  {
    hide OpensRepeatedly, RecStep, Announces, Marks;
    if ops != [] {
      var init := Init(ops);
      assert ops[..|ops| - 1] == init;
      assert forall i :: 0 <= i < |init| ==> init[..i] == ops[..i];
      AnnouncementsAreTurnEvents(init, k);
      AnnouncesTheTurn(At(init, k), Last(ops), k);
      EventsOfOneMore(Turns(init, k), Marks(At(init, k), Last(ops), k));
    }
  }

  lemma {:induction false} AnnouncementsPrefix(ops: seq<Op>, n: nat, k: Key)
    requires OpsOk(ops) && n <= |ops|
    ensures Announcements(ops[..n], k) <= Announcements(ops, k)
    decreases |ops|
  {
    hide RecStep, Announces;
    if n < |ops| {
      AnnouncementsPrefix(Init(ops), n, k);
      assert Init(ops)[..n] == ops[..n];
    } else {
      assert ops[..n] == ops;
    }
  }

  /** A repeated opening is two openings in a row. */
  lemma {:induction false} RepeatedOpeningBreaksEvents(ops: seq<Op>, n: nat, k: Key)
    requires OpsOk(ops) && n < |ops| && OpensRepeatedly(At(ops[..n], k), ops[n], k)
    ensures !EventsAlternate(Announcements(ops, k))
  {
    hide RecStep, Opens, Resolves, Occurrences, EventsAlternate;
    var p, e := Announcements(ops[..n], k), Announcements(ops, k);
    assert Init(ops[..n + 1]) == ops[..n] && Last(ops[..n + 1]) == ops[n];
    var now := Announces(At(ops[..n], k), ops[n], k);
    assert |now| >= 2 && now[0] == now[1] == MarkOpened;
    AnnouncementsPrefix(ops, n + 1, k);
    hide Announces, Announcements;
    assert p + now <= e;
    assert e[|p|] == (p + now)[|p|] && e[|p| + 1] == (p + now)[|p| + 1];
    TwoInARow(e, |p|);
  }

  /** The notifications of one fingerprint strictly alternate opened, resolved,
      opened, … iff no reopening of a resolved record by a user was followed by
      another turn and no scan that opened the record reported it more than once. */
  lemma {:induction false} EventsAlternateIff(ops: seq<Op>, k: Key, home: string)
    requires Owned(ops, k, home)
    ensures EventsAlternate(Announcements(ops, k)) <==>
            (Turns(ops, k) == [] || MarkReopened !in Init(Turns(ops, k))) && OpensOnce(ops, k)
  {
    RunKeeps(ops, k, home);
    hide EventsAlternate, OpensRepeatedly, Alternates, Turns, Announcements, At;
    if OpensOnce(ops, k) {
      AnnouncementsAreTurnEvents(ops, k);
      TurnEventsAlternateIff(Turns(ops, k));
    } else {
      var n :| 0 <= n < |ops| && OpensRepeatedly(At(ops[..n], k), ops[n], k);
      RepeatedOpeningBreaksEvents(ops, n, k);
    }
  }

  /** Users act on records that are not resolved. */
  ghost predicate UsersLeaveResolvedAlone(ops: seq<Op>, k: Key)
    requires OpsOk(ops)
  {
    forall i :: 0 <= i < |ops| && ops[i].SetStatus? && ActsOn(ops[i], k) ==>
      At(ops[..i], k).None? || Live(At(ops[..i], k))
  }

  /** No scan reports the fingerprint twice. */
  ghost predicate DistinctReports(ops: seq<Op>, k: Key) {
    forall i, a, b :: 0 <= i < |ops| && ops[i].Rescan? && ops[i].s.mod.id == k.0 && 0 <= a < b < |ops[i].s.reports|
      ==> !(IsReportOf(ops[i].s.reports[a], k.1) && IsReportOf(ops[i].s.reports[b], k.1))
  }

  lemma {:induction false} NoReopening(ops: seq<Op>, k: Key)
    requires OpsOk(ops) && UsersLeaveResolvedAlone(ops, k)
    ensures MarkReopened !in Turns(ops, k)
    decreases |ops|
  {
    if ops != [] {
      assert ops[..|ops| - 1] == Init(ops);
      assert forall i :: 0 <= i < |ops| - 1 ==> Init(ops)[..i] == ops[..i];
      NoReopening(Init(ops), k);
    }
  }

  lemma {:induction false} DistinctOccurOnce(reports: seq<Report>, fp: string, n: nat)
    requires n <= |reports|
    requires forall a, b :: 0 <= a < b < |reports| ==> !(IsReportOf(reports[a], fp) && IsReportOf(reports[b], fp))
    ensures Occurrences(reports, fp, n) == if exists a :: 0 <= a < n && IsReportOf(reports[a], fp) then 1 else 0
  {
    if n > 0 { DistinctOccurOnce(reports, fp, n - 1); }
  }

  /** On the domain the handler and the collectors are meant for, notifications
      alternate and `resolvedAt` is set iff the record is resolved. */
  lemma {:induction false} EventsAlternateForUsersOfLiveRecords(ops: seq<Op>, k: Key, home: string)
    requires Owned(ops, k, home) && UsersLeaveResolvedAlone(ops, k) && DistinctReports(ops, k)
    ensures EventsAlternate(Announcements(ops, k))
    ensures At(ops, k).Some? ==> (At(ops, k).value.resolvedAt.Some? <==> At(ops, k).value.status == Resolved)
  {
    NoReopening(ops, k);
    RunKeeps(ops, k, home);
    EventsAlternateIff(ops, k, home);
    hide EventsAlternate, Alternates, IsReportOf, Opens;
    forall i | 0 <= i < |ops|
      ensures !OpensRepeatedly(At(ops[..i], k), ops[i], k)
    {
      if ops[i].Rescan? && ops[i].s.mod.id == k.0 {
        DistinctOccurOnce(ops[i].s.reports, k.1, |ops[i].s.reports|);
      }
    }
  }

  /** A suppressed record announces nothing. */
  lemma {:induction false} SuppressedIsSilent(ops: seq<Op>, op: Op, k: Key, home: string)
    requires Owned(ops, k, home) && OwnedOp(op, k, home)
    requires At(ops, k).Some? && At(ops, k).value.status == Suppressed
    ensures Announces(At(ops, k), op, k) == []
  {
    RunKeeps(ops, k, home);
    if op.Rescan? && op.s.mod.id == k.0 {
      LastReportIsReported(op.s.reports, k.1, |op.s.reports|);
    }
  }

  lemma {:induction false} OwnedPrefix(ops: seq<Op>, op: Op, k: Key, home: string)
    requires Owned(ops + [op], k, home)
    ensures Owned(ops, k, home) && OpOk(op) && OwnedOp(op, k, home)
  {
    assert forall i :: 0 <= i < |ops| ==> (ops + [op])[i] == ops[i];
    assert (ops + [op])[|ops|] == op;
  }

  // ------------------------------------------------------------------------
  // Bookkeeping

  /** The stored streak and clocks are what the run's history says. */
  lemma {:induction false} BookkeepingIsExact(ops: seq<Op>, k: Key, home: string)
    requires Owned(ops, k, home)
    ensures At(ops, k).Some? <==> FirstClock(ops, k).Some?
    ensures At(ops, k).Some? ==>
              var r := At(ops, k).value;
              r.absentStreak == MissCount(ops, k, home) &&
              LastClock(ops, k) == Some(r.lastSeen) &&
              FirstClock(ops, k) == Some(r.firstSeen)
    ensures At(ops, k).None? ==> MissCount(ops, k, home) == 0
    decreases |ops|
  {
    hide WellFormed, LastReport, CapEvidence;
    if ops != [] {
      BookkeepingIsExact(Init(ops), k, home);
      RunKeeps(Init(ops), k, home);
      var op := Last(ops);
      assert OwnedOp(op, k, home);
      if IsReported(op, k) {
        LastReportIsReported(op.s.reports, k.1, |op.s.reports|);
      }
    }
  }

  /** The last report any scan took for the finding. */
  function LatestReport(ops: seq<Op>, k: Key): Option<Report> {
    if ops == [] then None
    else
      var op := Last(ops);
      if IsReported(op, k) then Some(op.s.reports[LastReport(op.s.reports, k.1, |op.s.reports|).value])
      else LatestReport(Init(ops), k)
  }

  lemma {:induction false} DescriptionIsTheLatest(ops: seq<Op>, k: Key, home: string)
    requires Owned(ops, k, home)
    ensures At(ops, k).Some? <==> LatestReport(ops, k).Some?
    ensures At(ops, k).Some? ==> Describes(At(ops, k).value, LatestReport(ops, k).value)
    decreases |ops|
  {
    hide ValidateForIngest, LastReport, TurnsAgree;
    if ops != [] {
      DescriptionIsTheLatest(Init(ops), k, home);
      RunKeeps(Init(ops), k, home);
      hide Turns;
      assert OwnedOp(Last(ops), k, home);
    }
  }

  /** A scan changes the status of a finding it knows only by resolving it or by
      reopening a resolved one: a user's choice stands. */
  lemma {:induction false} ScanKeepsUserStatus(prev: Record, s: Scan, fp: string)
    requires ScanOk(s) && Known(Some(prev), s)
    ensures After(Some(prev), s, fp).Some?
    ensures var next := After(Some(prev), s, fp).value.status;
      next == (if Resolves(Some(prev), s, fp) then Resolved else if Opens(Some(prev), s, fp) then Open else prev.status)
      && (prev.status == Suppressed ==> next == Suppressed)
      && (prev.status == Resolved ==> (next == Open <==> Reports(s, fp)))
  {}

  /** What names a finding never changes while the record exists. */
  ghost predicate SameIdentity(a: Record, b: Record) {
    && a.id == b.id && a.mod == b.mod && a.firstSeen == b.firstSeen
    && a.report.fingerprint == b.report.fingerprint
    && a.report.target == b.report.target && a.report.check == b.report.check
  }

  lemma {:induction false} IdentityIsKept(ops: seq<Op>, n: nat, k: Key, home: string)
    requires Owned(ops, k, home) && n <= |ops| && At(ops[..n], k).Some?
    ensures At(ops, k).Some? && SameIdentity(At(ops[..n], k).value, At(ops, k).value)
    decreases |ops|
  {
    hide WellFormed, LastReport, CapEvidence;
    if n < |ops| {
      assert Init(ops)[..n] == ops[..n];
      IdentityIsKept(Init(ops), n, k, home);
      RunKeeps(Init(ops), k, home);
      var op := Last(ops);
      assert OwnedOp(op, k, home);
      if IsReported(op, k) {
        LastReportIsReported(op.s.reports, k.1, |op.s.reports|);
      }
    } else {
      assert ops[..n] == ops;
    }
  }

  /** Every scan of the module uses the same threshold. */
  ghost predicate Threshold(ops: seq<Op>, k: Key, limit: nat) {
    forall i :: 0 <= i < |ops| && ops[i].Rescan? && ops[i].s.mod.id == k.0 ==>
      ResolveAfterOrDefault(ops[i].s.mod) == limit
  }

  /** A user took the record out of "resolved" and no scan has reported it since. */
  predicate ReopenedSince(ops: seq<Op>, k: Key)
    requires OpsOk(ops)
  {
    ops != [] &&
    var prev, op := At(Init(ops), k), Last(ops);
    if IsReported(op, k) then false
    else ReopenedSince(Init(ops), k) || (op.SetStatus? && ActsOn(op, k) && prev.Some? && prev.value.status == Resolved)
  }

  /** A resolved record is at the threshold; any other is iff a user reopened it and
      no scan has reported it since. */
  lemma {:induction false} AtThresholdIff(ops: seq<Op>, k: Key, home: string, limit: nat)
    requires Owned(ops, k, home) && Threshold(ops, k, limit) && limit >= 1
    ensures At(ops, k).Some? ==>
              var r := At(ops, k).value;
              r.absentStreak >= limit <==> r.status == Resolved || ReopenedSince(ops, k)
    ensures At(ops, k).None? ==> !ReopenedSince(ops, k)
    decreases |ops|
  {
    hide WellFormed, LastReport, CapEvidence, TurnsAgree;
    if ops != [] {
      AtThresholdIff(Init(ops), k, home, limit);
      RunKeeps(Init(ops), k, home);
      var op := Last(ops);
      hide Turns;
      assert OwnedOp(op, k, home) && ops[|ops| - 1] == op;
      if IsReported(op, k) {
        LastReportIsReported(op.s.reports, k.1, |op.s.reports|);
      }
    }
  }

  lemma {:induction false} ReopenedSinceIsLastTurn(ops: seq<Op>, k: Key)
    requires OpsOk(ops)
    ensures ReopenedSince(ops, k) ==> MarkReopened in Turns(ops, k)
    ensures ReopenedSince(ops, k) && Live(At(ops, k)) ==> Last(Turns(ops, k)) == MarkReopened
    decreases |ops|
  {
    hide WellFormed, LastReport, CapEvidence;
    if ops != [] { ReopenedSinceIsLastTurn(Init(ops), k); }
  }

  /** So a live record that no user reopened is below the threshold. */
  lemma {:induction false} LiveIsBelowThreshold(ops: seq<Op>, k: Key, home: string, limit: nat)
    requires Owned(ops, k, home) && Threshold(ops, k, limit) && limit >= 1
    ensures Live(At(ops, k)) && (Turns(ops, k) == [] || Last(Turns(ops, k)) != MarkReopened) ==>
              At(ops, k).value.absentStreak < limit
  {
    AtThresholdIff(ops, k, home, limit);
    ReopenedSinceIsLastTurn(ops, k);
  }

  /** A scan announces a resolution iff the record is open or acknowledged, the scan
      is of its own target and misses it, and the misses in a row have reached the
      threshold, on every run. */
  lemma {:induction false} ResolvesAtThreshold(ops: seq<Op>, op: Op, k: Key, home: string)
    requires Owned(ops + [op], k, home) && OpsOk(ops)
    ensures Announces(At(ops, k), op, k) == [MarkResolved] <==>
            At(ops, k).Some? && At(ops, k).value.status in {Open, Acknowledged} && ScansHome(op, k, home)
            && !IsReported(op, k) && MissCount(ops + [op], k, home) >= ResolveAfterOrDefault(op.s.mod)
  {
    hide WellFormed, LastReport, CapEvidence;
    OwnedPrefix(ops, op, k, home);
    assert Init(ops + [op]) == ops && Last(ops + [op]) == op;
    RunKeeps(ops, k, home);
    BookkeepingIsExact(ops, k, home);
    hide TurnsAgree, At, MissCount;
    if op.Rescan? && op.s.mod.id == k.0 && Opens(At(ops, k), op.s, k.1) {
      OccursIffReported(op.s.reports, k.1, |op.s.reports|);
      assert Announces(At(ops, k), op, k)[0] == MarkOpened;
    }
    if At(ops, k).Some? && Counting(At(ops, k).value) && ScansHome(op, k, home) && !IsReported(op, k) {
      MissCountStep(ops, op, k, home);
    }
  }

  lemma {:induction false} MissCountStep(ops: seq<Op>, op: Op, k: Key, home: string)
    requires OpsOk(ops) && OpOk(op) && OpsOk(ops + [op]) && !IsReported(op, k) && ScansHome(op, k, home)
    requires At(ops, k).Some? && Counting(At(ops, k).value)
    ensures MissCount(ops + [op], k, home) == MissCount(ops, k, home) + 1
  {
    assert Init(ops + [op]) == ops;
  }

  /** Where users leave resolved records alone, that is exactly at the scan that
      brings the count to the threshold. */
  lemma {:induction false} ResolvesExactlyAtThreshold(ops: seq<Op>, op: Op, k: Key, home: string, limit: nat)
    requires Owned(ops + [op], k, home) && Threshold(ops + [op], k, limit) && limit >= 1
    requires OpsOk(ops) && UsersLeaveResolvedAlone(ops, k)
    ensures Announces(At(ops, k), op, k) == [MarkResolved] <==>
            At(ops, k).Some? && At(ops, k).value.status in {Open, Acknowledged} &&
            ScansHome(op, k, home) && !IsReported(op, k) && MissCount(ops + [op], k, home) == limit
  {
    hide WellFormed, LastReport, CapEvidence;
    OwnedPrefix(ops, op, k, home);
    assert forall i :: 0 <= i < |ops| ==> (ops + [op])[i] == ops[i];
    assert (ops + [op])[|ops|] == op;
    NoReopening(ops, k);
    BookkeepingIsExact(ops, k, home);
    LiveIsBelowThreshold(ops, k, home, limit);
    ResolvesAtThreshold(ops, op, k, home);
    hide At, MissCount, Announces, IsReported, Turns;
    if At(ops, k).Some? && Counting(At(ops, k).value) && ScansHome(op, k, home) && !IsReported(op, k) {
      MissCountStep(ops, op, k, home);
    }
  }

  /** The clock of the last scan that resolved the record. */
  function LastResolution(ops: seq<Op>, k: Key): Option<int>
    requires OpsOk(ops)
  {
    if ops == [] then None
    else if Marks(At(Init(ops), k), Last(ops), k) == [MarkResolved] then Some(Last(ops).s.now)
    else LastResolution(Init(ops), k)
  }

  /** A resolution time is that clock. */
  lemma {:induction false} ResolvedAtIsExact(ops: seq<Op>, k: Key)
    requires OpsOk(ops)
    ensures At(ops, k).Some? && At(ops, k).value.resolvedAt.Some? ==>
              At(ops, k).value.resolvedAt == LastResolution(ops, k)
    decreases |ops|
  {
    hide WellFormed, LastReport, CapEvidence;
    if ops != [] { ResolvedAtIsExact(Init(ops), k); }
  }

  // ------------------------------------------------------------------------
  // Frames

  /** Reconciling one target and the record of another: untouched when the scan does
      not report its fingerprint; when it does, the record is replaced by a new one
      of the reported target, so it changes whenever that target is not its own. */
  lemma {:induction false} OtherTargetUntouchedIff(recs: Records, s: Scan, recs': Records, fp: string)
    requires ScanOk(s) && ScanStep(recs, s, recs')
    requires (s.mod.id, fp) in recs && recs[(s.mod.id, fp)].report.target != s.target
    ensures var k, i := (s.mod.id, fp), LastReport(s.reports, fp, |s.reports|);
      && (Get(recs', k) == Get(recs, k) <==> i.None? || NewRecord(s, i.value) == recs[k])
      && (i.Some? && s.reports[i.value].target != recs[k].report.target ==> Get(recs', k) != Get(recs, k))
  {}

  /** So a scan whose reports carry its own target leaves it alone iff it does not
      report it. */
  lemma {:induction false} ForeignTargetUntouchedIff(recs: Records, s: Scan, recs': Records, fp: string)
    requires ScanOk(s) && ScanStep(recs, s, recs')
    requires (s.mod.id, fp) in recs && recs[(s.mod.id, fp)].report.target != s.target
    requires forall f :: f in s.reports ==> f.target == s.target
    ensures Get(recs', (s.mod.id, fp)) == Get(recs, (s.mod.id, fp)) <==> !Reports(s, fp)
  {}

  // ------------------------------------------------------------------------
  // A run outside the domain

  const REPORT := Report("fp", "t", "check", "title", Low, "fix", NoEvidence)

  function TwoResolutions(): seq<Op> {
    var m := ModuleInfo("m", 1);
    [Rescan(Scan(m, "t", [REPORT], 1, ["id"])),
     Rescan(Scan(m, "t", [], 2, [])),
     SetStatus("m", "fp", Open),
     Rescan(Scan(m, "t", [], 4, []))]
  }

  lemma {:induction false} OneMoreOp(ops: seq<Op>, n: nat, k: Key)
    requires OpsOk(ops) && n < |ops|
    ensures At(ops[..n + 1], k) == RecStep(At(ops[..n], k), ops[n], k)
    ensures Announcements(ops[..n + 1], k) == Announcements(ops[..n], k) + Announces(At(ops[..n], k), ops[n], k)
  {
    assert Init(ops[..n + 1]) == ops[..n] && Last(ops[..n + 1]) == ops[n];
  }

  lemma {:induction false} FirstScanOpens(s: Scan)
    requires s == Scan(ModuleInfo("m", 1), "t", [REPORT], 1, ["id"])
    ensures var k, r := ("m", "fp"), Record(REPORT, "id", "m", Open, 1, 1, None, 0);
      RecStep(None, Rescan(s), k) == Some(r) && Announces(None, Rescan(s), k) == [MarkOpened]
  {
    assert LastReport(s.reports, "fp", 1) == Some(0) && Occurrences(s.reports, "fp", 1) == 1;
  }

  lemma {:induction false} EmptyScanResolves(r: Record, now: int)
    requires r.status == Open && r.report == REPORT
    ensures var k, op := ("m", "fp"), Rescan(Scan(ModuleInfo("m", 1), "t", [], now, []));
      && RecStep(Some(r), op, k) ==
         Some(r.(status := Resolved, resolvedAt := Some(now), absentStreak := r.absentStreak + 1))
      && Announces(Some(r), op, k) == [MarkResolved]
  {}

  /** A user reopens a resolved finding: it stays marked with its old resolution time
      and is announced as resolved twice in a row. */
  lemma {:induction false} ReopenedResolvesTwice()
    ensures var ops, k := TwoResolutions(), ("m", "fp");
      && OpsOk(ops)
      && At(ops[..3], k).Some? && At(ops[..3], k).value.status == Open && At(ops[..3], k).value.resolvedAt == Some(2)
      && Announcements(ops, k) == [MarkOpened, MarkResolved, MarkResolved]
  {
    hide At, Announcements, RecStep, Announces;
    var ops, k := TwoResolutions(), ("m", "fp");
    NothingYet(k);
    assert ops[..0] == [] && ops[..4] == ops;
    OneMoreOp(ops, 0, k);
    FirstScanOpens(ops[0].s);
    var r := At(ops[..1], k).value;
    OneMoreOp(ops, 1, k);
    EmptyScanResolves(r, 2);
    var r' := At(ops[..2], k).value;
    OneMoreOp(ops, 2, k);
    ReopeningIsSilent(r');
    OneMoreOp(ops, 3, k);
    EmptyScanResolves(r'.(status := Open), 4);
  }

  lemma NothingYet(k: Key)
    ensures At([], k) == None && Announcements([], k) == []
  {}

  lemma ReopeningIsSilent(r: Record)
    ensures RecStep(Some(r), SetStatus("m", "fp", Open), ("m", "fp")) == Some(r.(status := Open))
    ensures Announces(Some(r), SetStatus("m", "fp", Open), ("m", "fp")) == []
  {}

  lemma {:induction false} BothReported(reports: seq<Report>)
    requires reports == [REPORT, REPORT]
    ensures Occurrences(reports, "fp", 2) == 2
  {
    assert IsReportOf(REPORT, "fp") && Occurrences(reports, "fp", 1) == Occurrences(reports, "fp", 0) + 1;
  }

  /** One scan that reports a finding twice announces it as opened twice. */
  lemma {:induction false} RepeatedReportOpensTwice()
    ensures var ops, k := [Rescan(Scan(ModuleInfo("m", 1), "t", [REPORT, REPORT], 1, ["a", "b"]))], ("m", "fp");
      && Owned(ops, k, "t") && UsersLeaveResolvedAlone(ops, k)
      && Announcements(ops, k) == [MarkOpened, MarkOpened]
  {
    var k := ("m", "fp");
    var s := Scan(ModuleInfo("m", 1), "t", [REPORT, REPORT], 1, ["a", "b"]);
    var ops := [Rescan(s)];
    assert LastReport(s.reports, "fp", 2) == Some(1);
    BothReported(s.reports);
    hide Occurrences, LastReport, NewRecord;
    assert Repeat(MarkOpened, 2) == [MarkOpened, MarkOpened];
    assert Init(ops) == [];
  }
}
