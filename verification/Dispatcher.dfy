/** The notification dispatcher: windows, de-duplication and digests
    (notify/notify.go:18-206). Digests stop at the point where they are handed to
    the channels. */
module Dispatcher {
  import opened Findings
  import opened SeverityOrder

  const KIND_OPENED := "opened"
  const KIND_RESOLVED := "resolved"

  datatype Event = Event(kind: string, mod: string, finding: Record)

  datatype Digest = Digest(mod: string, openings: seq<Record>, resolutions: seq<Record>, at: int)

  datatype Config = Config(maxBatch: int, minSeverity: Option<Severity>)

  function BatchLimit(c: Config): nat {
    if c.maxBatch <= 0 then 100 else c.maxBatch
  }

  function KeyOf(e: Event): string {
    e.kind + "|" + e.mod + "|" + e.finding.report.fingerprint
  }

  /** Two ways of splitting one text at a bar: the same, or one of the first parts
      reaches past the other's bar. */
  predicate Resplits(a: string, x: string, b: string, y: string) {
    |a| < |b| && b == a + "|" + b[|a| + 1..] && x == b[|a| + 1..] + "|" + y
  }

  lemma {:induction false} JoinsAgreeIff(a: string, x: string, b: string, y: string)
    ensures a + "|" + x == b + "|" + y <==> (a == b && x == y) || Resplits(a, x, b, y) || Resplits(b, y, a, x)
  {
    var l, r := a + "|" + x, b + "|" + y;
    if l == r {
      assert a == l[..|a|] && x == l[|a| + 1..];
      assert b == r[..|b|] && y == r[|b| + 1..];
      if |a| < |b| { BarWithin(a, x, b, y); }
      if |b| < |a| { BarWithin(b, y, a, x); }
    }
    if Resplits(a, x, b, y) {
      assert r == a + "|" + (b[|a| + 1..] + "|" + y);
    }
    if Resplits(b, y, a, x) {
      assert l == b + "|" + (a[|b| + 1..] + "|" + x);
    }
  }

  lemma {:induction false} BarWithin(a: string, x: string, b: string, y: string)
    requires a + "|" + x == b + "|" + y && |a| < |b|
    ensures Resplits(a, x, b, y)
  {
    var l := a + "|" + x;
    assert forall k :: 0 <= k < |b| ==> b[k] == l[k];
    assert b == a + "|" + b[|a| + 1..];
    forall k | 0 <= k < |x|
      ensures x[k] == (b[|a| + 1..] + "|" + y)[k]
    {
      assert x[k] == l[|a| + 1 + k];
    }
    assert x == b[|a| + 1..] + "|" + y;
  }

  /** Two events share a key iff they agree on kind, module and fingerprint, or on
      kind while the bars in one's module and the other's fingerprint make up for the
      difference. */
  lemma {:induction false} SameKeyIff(e: Event, f: Event)
    requires '|' !in e.kind && '|' !in f.kind
    ensures var x, y := e.finding.report.fingerprint, f.finding.report.fingerprint;
      KeyOf(e) == KeyOf(f) <==>
      e.kind == f.kind && ((e.mod == f.mod && x == y) || Resplits(e.mod, x, f.mod, y) || Resplits(f.mod, y, e.mod, x))
  {
    var x, y := e.finding.report.fingerprint, f.finding.report.fingerprint;
    JoinsAgreeIff(e.kind, e.mod + "|" + x, f.kind, f.mod + "|" + y);
    JoinsAgreeIff(e.mod, x, f.mod, y);
    assert KeyOf(e) == e.kind + "|" + (e.mod + "|" + x);
    assert KeyOf(f) == f.kind + "|" + (f.mod + "|" + y);
    BarInside(e.kind, f.kind);
    BarInside(f.kind, e.kind);
  }

  lemma BarInside(a: string, b: string)
    ensures |a| < |b| && b == a + "|" + b[|a| + 1..] ==> b[|a|] == '|' && '|' in b
  {}

  /** So keys tell events apart where module names hold no bar, or fingerprints none. */
  lemma {:induction false} KeysTellApart(e: Event, f: Event)
    requires '|' !in e.kind && '|' !in f.kind
    requires ('|' !in e.mod && '|' !in f.mod) ||
             ('|' !in e.finding.report.fingerprint && '|' !in f.finding.report.fingerprint)
    ensures KeyOf(e) == KeyOf(f) <==>
            e.kind == f.kind && e.mod == f.mod && e.finding.report.fingerprint == f.finding.report.fingerprint
  {
    hide KeyOf;
    SameKeyIff(e, f);
    var x, y := e.finding.report.fingerprint, f.finding.report.fingerprint;
    ResplitShowsBars(e.mod, x, f.mod, y);
    ResplitShowsBars(f.mod, y, e.mod, x);
  }

  lemma {:induction false} ResplitShowsBars(a: string, x: string, b: string, y: string)
    ensures Resplits(a, x, b, y) ==> '|' in b && '|' in x
  {
    if Resplits(a, x, b, y) {
      BarInside(a, b);
      assert x[|b| - |a| - 1] == '|';
    }
  }

  /** With bars in both, the second event is dropped as a duplicate of the first. */
  lemma {:induction false} DistinctEventsShareKey(r: Record)
    ensures var e := Event(KIND_OPENED, "a|b", r.(report := r.report.(fingerprint := "c")));
            var f := Event(KIND_OPENED, "a", r.(report := r.report.(fingerprint := "b|c")));
            KeyOf(e) == KeyOf(f) && e.mod != f.mod
  {
    assert "opened" + "|" + "a|b" + "|" + "c" == "opened" + "|" + "a" + "|" + "b|c";
  }

  function Held(p: map<string, seq<Event>>, m: string): seq<Event> {
    if m in p then p[m] else []
  }

  /** What is kept between calls; each entry of `outbox` is one flush: a digest for
      each module with something to say. */
  datatype State = State(
    pending: map<string, seq<Event>>,
    seen: set<string>,
    armed: bool,
    closed: bool,
    outbox: seq<map<string, Digest>>)

  datatype Op = Enqueue(e: Event, now: int) | Flush(now: int) | Close(now: int)

  // ------------------------------------------------------------------------
  // What each call does

  function FindingsOf(events: seq<Event>, kind: string): seq<Record> {
    if events == [] then []
    else
      var last := events[|events| - 1];
      FindingsOf(events[..|events| - 1], kind) + if last.kind == kind then [last.finding] else []
  }

  /** The findings of a kind are those of its events, one each, in order. */
  lemma {:induction false} FindingsOfKind(events: seq<Event>, kind: string) returns (at: seq<nat>)
    ensures |at| == |FindingsOf(events, kind)|
    ensures forall a, b :: 0 <= a < b < |at| ==> at[a] < at[b]
    ensures forall a :: 0 <= a < |at| ==> at[a] < |events| && events[at[a]].finding == FindingsOf(events, kind)[a]
    ensures forall n: nat :: n < |events| ==> (n in at <==> events[n].kind == kind)
  {
    at := [];
    if events != [] {
      var init, n: nat := events[..|events| - 1], |events| - 1;
      at := FindingsOfKind(init, kind);
      if events[n].kind == kind { at := at + [n]; }
    }
  }

  /** The number of events of a kind that carry the finding. */
  function Count(events: seq<Event>, kind: string, r: Record): nat {
    if events == [] then 0
    else
      var last := events[|events| - 1];
      Count(events[..|events| - 1], kind, r) + if last.kind == kind && last.finding == r then 1 else 0
  }

  lemma {:induction false} FindingsOfCount(events: seq<Event>, kind: string)
    ensures forall r :: multiset(FindingsOf(events, kind))[r] == Count(events, kind, r)
  {
    if events != [] { FindingsOfCount(events[..|events| - 1], kind); }
  }

  predicate Speaks(events: seq<Event>) {
    FindingsOf(events, KIND_OPENED) != [] || FindingsOf(events, KIND_RESOLVED) != []
  }

  function DigestOf(m: string, events: seq<Event>, now: int): Digest {
    Digest(m, BySeverity(FindingsOf(events, KIND_OPENED)), FindingsOf(events, KIND_RESOLVED), now)
  }

  ghost function BatchOf(p: map<string, seq<Event>>, now: int): map<string, Digest> {
    map m | m in p && Speaks(p[m]) :: DigestOf(m, p[m], now)
  }

  ghost function Positions(p: map<string, seq<Event>>): set<(string, int)> {
    set m, i | m in p && 0 <= i < |p[m]| :: (m, i)
  }

  /** The number of events waiting. */
  ghost function Total(p: map<string, seq<Event>>): nat {
    |Positions(p)|
  }

  ghost function Flushed(s: State, now: int): State {
    if s.pending == map[] then s.(armed := false)
    else s.(pending := map[], seen := {}, armed := false, outbox := s.outbox + [BatchOf(s.pending, now)])
  }

  predicate PassesSeverity(c: Config, e: Event) {
    e.kind == KIND_OPENED && c.minSeverity.Some? ==>
      SeverityRank(e.finding.report.severity) >= SeverityRank(c.minSeverity.value)
  }

  predicate Accepts(c: Config, s: State, e: Event) {
    PassesSeverity(c, e) && !s.closed && KeyOf(e) !in s.seen
  }

  function Appended(s: State, e: Event): State {
    s.(pending := s.pending[e.mod := Held(s.pending, e.mod) + [e]], seen := s.seen + {KeyOf(e)})
  }

  ghost function Next(c: Config, s: State, op: Op): State {
    match op
    case Enqueue(e, now) =>
      if !Accepts(c, s, e) then s
      else
        var t := Appended(s, e);
        if Total(t.pending) >= BatchLimit(c) then Flushed(t, now) else t.(armed := true)
    case Flush(now) => Flushed(s, now)
    case Close(now) => Flushed(s, now).(closed := true)
  }

  const EMPTY := State(map[], {}, false, false, [])

  // ------------------------------------------------------------------------
  // The dispatcher

  class Dispatcher {
    const cfg: Config
    var pending: map<string, seq<Event>>
    var seen: set<string>
    var armed: bool
    var closed: bool
    var outbox: seq<map<string, Digest>>

    ghost function Now(): State
      reads this
    {
      State(pending, seen, armed, closed, outbox)
    }

    constructor (cfg: Config)
      ensures Now() == EMPTY && this.cfg == cfg
    {
      this.cfg := cfg;
      pending, seen, armed, closed, outbox := map[], {}, false, false, [];
    }

    method Enqueue(e: Event, now: int)
      modifies this
      ensures Now() == Next(cfg, old(Now()), Op.Enqueue(e, now))
    {
      if e.kind == KIND_OPENED && !PassesSeverity(cfg, e) {
        return;
      }
      if closed || KeyOf(e) in seen {
        return;
      }
      seen := seen + {KeyOf(e)};
      pending := pending[e.mod := Held(pending, e.mod) + [e]];
      var total := CountPending();
      if total >= BatchLimit(cfg) {
        FlushLocked(now);
        return;
      }
      armed := true;
    }

    method Flush(now: int)
      modifies this
      ensures Now() == Next(cfg, old(Now()), Op.Flush(now))
    {
      FlushLocked(now);
    }

    method Close(now: int)
      modifies this
      ensures Now() == Next(cfg, old(Now()), Op.Close(now))
    {
      FlushLocked(now);
      closed := true;
    }

    /** The modules are visited in no particular order. */
    method FlushLocked(now: int)
      modifies this
      ensures Now() == Flushed(old(Now()), now)
    {
      armed := false;
      if pending == map[] {
        return;
      }
      var rest := pending.Keys;
      var batch: map<string, Digest> := map[];
      while rest != {}
        invariant Now() == old(Now()).(armed := false)
        invariant rest <= pending.Keys
        invariant batch == map m | m in pending && m !in rest && Speaks(pending[m]) :: DigestOf(m, pending[m], now)
      {
        var m :| m in rest;
        rest := rest - {m};
        var dg := BuildDigest(m, pending[m], now);
        if |dg.openings| > 0 || |dg.resolutions| > 0 {
          batch := batch[m := dg];
        }
        SpeaksIffNotEmpty(m, pending[m], now);
      }
      assert batch == BatchOf(pending, now);
      pending := map[];
      seen := {};
      outbox := outbox + [batch];
    }

    method CountPending() returns (total: nat)
      ensures total == Total(pending)
    {
      total := 0;
      var rest := pending.Keys;
      ghost var counted: map<string, seq<Event>> := map[];
      while rest != {}
        invariant rest <= pending.Keys
        invariant counted == map m | m in pending && m !in rest :: pending[m]
        invariant total == Total(counted)
      {
        var m :| m in rest;
        rest := rest - {m};
        AddModule(counted, m, pending[m]);
        counted := counted[m := pending[m]];
        total := total + |pending[m]|;
      }
      assert counted == pending;
    }
  }

  method BuildDigest(m: string, events: seq<Event>, now: int) returns (dg: Digest)
    ensures dg == DigestOf(m, events, now)
  {
    var openings: seq<Record>, resolutions: seq<Record> := [], [];
    for n := 0 to |events|
      invariant openings == FindingsOf(events[..n], KIND_OPENED)
      invariant resolutions == FindingsOf(events[..n], KIND_RESOLVED)
    {
      assert events[..n + 1][..n] == events[..n];
      if events[n].kind == KIND_OPENED {
        openings := openings + [events[n].finding];
      } else if events[n].kind == KIND_RESOLVED {
        resolutions := resolutions + [events[n].finding];
      }
    }
    assert events[..|events|] == events;
    var fs := new Record[|openings|](i requires 0 <= i < |openings| => openings[i]);
    assert fs[..] == openings;
    SortBySeverity(fs);
    dg := Digest(m, fs[..], resolutions, now);
  }

  lemma {:induction false} SpeaksIffNotEmpty(m: string, events: seq<Event>, now: int)
    ensures var dg := DigestOf(m, events, now);
            Speaks(events) <==> |dg.openings| > 0 || |dg.resolutions| > 0
  {
    BySeverityIsStableSort(FindingsOf(events, KIND_OPENED));
    assert |multiset(BySeverity(FindingsOf(events, KIND_OPENED)))| == |multiset(FindingsOf(events, KIND_OPENED))|;
  }

  lemma {:induction false} AddModule(p: map<string, seq<Event>>, m: string, events: seq<Event>)
    requires m !in p
    ensures Total(p[m := events]) == Total(p) + |events|
  {
    var mine := set i | 0 <= i < |events| :: (m, i);
    Column(m, |events|);
    assert Positions(p[m := events]) == Positions(p) + mine;
    assert Positions(p) !! mine;
  }

  lemma {:induction false} Column(m: string, n: nat)
    ensures |set i | 0 <= i < n :: (m, i)| == n
  {
    if n == 0 {
      assert (set i | 0 <= i < n :: (m, i)) == {};
    } else {
      Column(m, n - 1);
      assert (set i | 0 <= i < n :: (m, i)) == (set i | 0 <= i < n - 1 :: (m, i)) + {(m, n - 1)};
    }
  }

  // ------------------------------------------------------------------------
  // Whole runs

  ghost function Run(c: Config, ops: seq<Op>): State {
    if ops == [] then EMPTY else Next(c, Run(c, ops[..|ops| - 1]), ops[|ops| - 1])
  }

  /** Everything accepted so far, and the content of each window already flushed. */
  datatype History = History(accepted: seq<Event>, windows: seq<map<string, seq<Event>>>)

  ghost function Note(h: History, p: map<string, seq<Event>>): History {
    if p == map[] then h else h.(windows := h.windows + [p])
  }

  ghost function Recall(c: Config, s: State, h: History, op: Op): History {
    match op
    case Enqueue(e, now) =>
      if !Accepts(c, s, e) then h
      else
        var t := Appended(s, e);
        var g := h.(accepted := h.accepted + [e]);
        if Total(t.pending) >= BatchLimit(c) then Note(g, t.pending) else g
    case Flush(_) => Note(h, s.pending)
    case Close(_) => Note(h, s.pending)
  }

  ghost function Past(c: Config, ops: seq<Op>): History {
    if ops == [] then History([], [])
    else Recall(c, Run(c, ops[..|ops| - 1]), Past(c, ops[..|ops| - 1]), ops[|ops| - 1])
  }

  function OfModule(events: seq<Event>, m: string): seq<Event> {
    if events == [] then []
    else
      var last := events[|events| - 1];
      OfModule(events[..|events| - 1], m) + if last.mod == m then [last] else []
  }

  /** One module's events in the flushed windows, oldest first. */
  function InWindows(windows: seq<map<string, seq<Event>>>, m: string): seq<Event> {
    if windows == [] then []
    else InWindows(windows[..|windows| - 1], m) + Held(windows[|windows| - 1], m)
  }

  /** Events are filed under their module, and no key occurs twice. */
  ghost predicate WindowOk(p: map<string, seq<Event>>) {
    && (forall m :: m in p ==> p[m] != [])
    && (forall m, i :: m in p && 0 <= i < |p[m]| ==> p[m][i].mod == m)
    && (forall m, i, n, j :: m in p && 0 <= i < |p[m]| && n in p && 0 <= j < |p[n]| && (m, i) != (n, j) ==>
          KeyOf(p[m][i]) != KeyOf(p[n][j]))
  }

  /** `seen` holds exactly the keys of the waiting events. */
  ghost predicate SeenOk(p: map<string, seq<Event>>, seen: set<string>) {
    && (forall m, i :: m in p && 0 <= i < |p[m]| ==> KeyOf(p[m][i]) in seen)
    && (forall k :: k in seen ==> exists m, i :: m in p && 0 <= i < |p[m]| && KeyOf(p[m][i]) == k)
  }

  /** A flush carries one digest for each module of its window with something to
      say, and nothing else. */
  ghost predicate BatchTells(batch: map<string, Digest>, w: map<string, seq<Event>>) {
    && (forall m :: m in batch <==> m in w && Speaks(w[m]))
    && (forall m :: m in batch ==> batch[m] == DigestOf(m, w[m], batch[m].at))
  }

  ghost predicate Inv(c: Config, s: State, h: History) {
    && WindowOk(s.pending) && SeenOk(s.pending, s.seen)
    && Total(s.pending) < BatchLimit(c)
    && (s.armed <==> s.pending != map[])
    && (s.closed ==> s.pending == map[])
    && |s.outbox| == |h.windows|
    && (forall i :: 0 <= i < |h.windows| ==>
          WindowOk(h.windows[i]) && Total(h.windows[i]) <= BatchLimit(c) && BatchTells(s.outbox[i], h.windows[i]))
    && (forall m :: OfModule(h.accepted, m) == InWindows(h.windows, m) + Held(s.pending, m))
    && (forall e :: e in h.accepted ==> PassesSeverity(c, e))
  }

  /** Appending adds one event at the end of its module's list. */
  lemma AppendedEvents(s: State, e: Event)
    ensures var p, q, n := s.pending, Appended(s, e).pending, |Held(s.pending, e.mod)|;
      && Positions(q) == Positions(p) + {(e.mod, n)} && (e.mod, n) !in Positions(p)
      && q[e.mod][n] == e
      && (forall m, i :: m in p && 0 <= i < |p[m]| ==> m in q && i < |q[m]| && q[m][i] == p[m][i])
      && (forall m, i :: m in q && 0 <= i < |q[m]| && (m, i) != (e.mod, n) ==>
            m in p && i < |p[m]| && q[m][i] == p[m][i])
      && (forall m :: m in q ==> m in p || m == e.mod)
      && (forall m :: m in p && m != e.mod ==> q[m] == p[m])
  {}

  lemma {:induction false} AppendedWindow(s: State, e: Event)
    requires WindowOk(s.pending) && SeenOk(s.pending, s.seen) && KeyOf(e) !in s.seen
    ensures WindowOk(Appended(s, e).pending)
  {
    AppendedEvents(s, e);
    hide KeyOf;
  }

  lemma {:induction false} AppendedSeen(s: State, e: Event)
    requires SeenOk(s.pending, s.seen)
    ensures SeenOk(Appended(s, e).pending, Appended(s, e).seen)
  {
    AppendedEvents(s, e);
    hide KeyOf;
    var p, q, n := s.pending, Appended(s, e).pending, |Held(s.pending, e.mod)|;
    forall k | k in Appended(s, e).seen
      ensures exists m, i :: m in q && 0 <= i < |q[m]| && KeyOf(q[m][i]) == k
    {
      if k in s.seen {
        var m, i :| m in p && 0 <= i < |p[m]| && KeyOf(p[m][i]) == k;
        assert KeyOf(q[m][i]) == k;
      } else {
        assert KeyOf(q[e.mod][n]) == k;
      }
    }
  }

  lemma {:induction false} InWindowsAppend(windows: seq<map<string, seq<Event>>>, p: map<string, seq<Event>>, m: string)
    ensures InWindows(windows + [p], m) == InWindows(windows, m) + Held(p, m)
  {}

  /** What holds before and after a flush, but for the room left in the window. */
  ghost predicate Loaded(c: Config, s: State, h: History) {
    && WindowOk(s.pending) && Total(s.pending) <= BatchLimit(c)
    && |s.outbox| == |h.windows|
    && (forall i :: 0 <= i < |h.windows| ==>
          WindowOk(h.windows[i]) && Total(h.windows[i]) <= BatchLimit(c) && BatchTells(s.outbox[i], h.windows[i]))
    && (forall m :: OfModule(h.accepted, m) == InWindows(h.windows, m) + Held(s.pending, m))
    && (forall e :: e in h.accepted ==> PassesSeverity(c, e))
  }

  lemma {:induction false} FlushKeeps(c: Config, s: State, h: History, now: int)
    requires Loaded(c, s, h) && (s.pending == map[] ==> s.seen == {})
    ensures Inv(c, Flushed(s, now).(closed := true), Note(h, s.pending))
    ensures Inv(c, Flushed(s, now), Note(h, s.pending))
  {
    NothingWaits();
    if s.pending != map[] {
      BatchTellsPending(s.pending, now);
      forall m { InWindowsAppend(h.windows, s.pending, m); }
    }
    hide BatchOf, BatchTells, Total, PassesSeverity, InWindows, OfModule;
  }

  lemma {:induction false} NothingWaits()
    ensures Total(map[]) == 0 && WindowOk(map[]) && SeenOk(map[], {})
  {
    assert Positions(map[]) == {};
  }

  lemma BatchTellsPending(p: map<string, seq<Event>>, now: int)
    ensures BatchTells(BatchOf(p, now), p)
  {}

  lemma {:induction false} AcceptKeeps(c: Config, s: State, h: History, e: Event)
    requires Inv(c, s, h) && Accepts(c, s, e)
    ensures var t, g := Appended(s, e), h.(accepted := h.accepted + [e]);
            Loaded(c, t, g) && t.pending != map[] &&
            (Total(t.pending) < BatchLimit(c) ==> Inv(c, t.(armed := true), g))
  {
    AppendedWindow(s, e);
    AppendedSeen(s, e);
    AppendedTotal(s, e);
    AppendedFiling(s, h, e);
    hide WindowOk, SeenOk, BatchTells, KeyOf, PassesSeverity, OfModule, InWindows, Total;
    assert e.mod in Appended(s, e).pending;
  }

  lemma {:induction false} AppendedTotal(s: State, e: Event)
    ensures Total(Appended(s, e).pending) == Total(s.pending) + 1
  {
    AppendedEvents(s, e);
  }

  lemma {:induction false} AppendedFiling(s: State, h: History, e: Event)
    requires forall m :: OfModule(h.accepted, m) == InWindows(h.windows, m) + Held(s.pending, m)
    ensures forall m :: OfModule(h.accepted + [e], m) == InWindows(h.windows, m) + Held(Appended(s, e).pending, m)
  {}

  /** Every call keeps the invariant. */
  lemma {:induction false} StepKeeps(c: Config, s: State, h: History, op: Op)
    requires Inv(c, s, h)
    ensures Inv(c, Next(c, s, op), Recall(c, s, h, op))
  {
    hide WindowOk, BatchTells, BatchOf, PassesSeverity, KeyOf;
    match op
    case Enqueue(e, now) =>
      if Accepts(c, s, e) {
        AcceptKeeps(c, s, h, e);
        FlushKeeps(c, Appended(s, e), h.(accepted := h.accepted + [e]), now);
      }
    case Flush(now) => FlushKeeps(c, s, h, now);
    case Close(now) => FlushKeeps(c, s, h, now);
  }

  /** Over every run: no key twice in a window, fewer than `MaxBatch` events waiting,
      the timer armed exactly while events wait, nothing waiting once closed, and
      every flushed window told in its digests. */
  lemma {:induction false} RunKeeps(c: Config, ops: seq<Op>)
    ensures Inv(c, Run(c, ops), Past(c, ops))
  {
    hide Inv;
    if ops == [] {
      EmptyKeeps(c);
    } else {
      var init := ops[..|ops| - 1];
      RunKeeps(c, init);
      StepKeeps(c, Run(c, init), Past(c, init), ops[|ops| - 1]);
    }
  }

  lemma {:induction false} EmptyKeeps(c: Config)
    ensures Inv(c, EMPTY, History([], []))
  {}

  // ------------------------------------------------------------------------
  // Conservation

  /** The opened findings of one module handed out so far. */
  ghost function OpenedSent(outbox: seq<map<string, Digest>>, m: string): multiset<Record> {
    if outbox == [] then multiset{}
    else
      var last := outbox[|outbox| - 1];
      OpenedSent(outbox[..|outbox| - 1], m) + if m in last then multiset(last[m].openings) else multiset{}
  }

  /** The resolved findings of one module handed out so far, in order. */
  ghost function ResolvedSent(outbox: seq<map<string, Digest>>, m: string): seq<Record> {
    if outbox == [] then []
    else
      var last := outbox[|outbox| - 1];
      ResolvedSent(outbox[..|outbox| - 1], m) + if m in last then last[m].resolutions else []
  }

  lemma {:induction false} FindingsOfAppend(events: seq<Event>, e: Event, kind: string)
    ensures FindingsOf(events + [e], kind) == FindingsOf(events, kind) + if e.kind == kind then [e.finding] else []
  {
    assert (events + [e])[..|events|] == events;
  }

  lemma NoFindings(kind: string)
    ensures FindingsOf([], kind) == []
  {}

  lemma Rejoined<T>(a: seq<T>, b: seq<T>, c: seq<T>)
    ensures a + (b + c) == a + b + c && a + [] == a
  {}

  lemma {:induction false} FindingsOfConcat(a: seq<Event>, b: seq<Event>, kind: string)
    ensures FindingsOf(a + b, kind) == FindingsOf(a, kind) + FindingsOf(b, kind)
  {
    hide FindingsOf;
    if b == [] {
      NoFindings(kind);
      Rejoined(a, [], []);
      Rejoined(FindingsOf(a, kind), [], []);
    } else {
      var init, last := b[..|b| - 1], b[|b| - 1];
      assert b == init + [last];
      FindingsOfConcat(a, init, kind);
      FindingsOfAppend(a + init, last, kind);
      FindingsOfAppend(init, last, kind);
      Rejoined(a, init, [last]);
      Rejoined(FindingsOf(a, kind), FindingsOf(init, kind), if last.kind == kind then [last.finding] else []);
    }
  }

  lemma {:induction false} DigestTells(batch: map<string, Digest>, w: map<string, seq<Event>>, m: string)
    requires BatchTells(batch, w)
    ensures (if m in batch then multiset(batch[m].openings) else multiset{}) ==
            multiset(FindingsOf(Held(w, m), KIND_OPENED))
    ensures (if m in batch then batch[m].resolutions else []) == FindingsOf(Held(w, m), KIND_RESOLVED)
  {
    BySeverityIsStableSort(FindingsOf(Held(w, m), KIND_OPENED));
  }

  lemma {:induction false} SentTellsWindows(outbox: seq<map<string, Digest>>,
                                            windows: seq<map<string, seq<Event>>>, m: string)
    requires |outbox| == |windows| && forall i :: 0 <= i < |windows| ==> BatchTells(outbox[i], windows[i])
    ensures OpenedSent(outbox, m) == multiset(FindingsOf(InWindows(windows, m), KIND_OPENED))
    ensures ResolvedSent(outbox, m) == FindingsOf(InWindows(windows, m), KIND_RESOLVED)
  {
    assert FindingsOf([], KIND_OPENED) == [] && FindingsOf([], KIND_RESOLVED) == [];
    hide BySeverity, Descending, SameClasses, FindingsOf;
    if outbox != [] {
      var n := |outbox| - 1;
      SentTellsWindows(outbox[..n], windows[..n], m);
      var before, w := InWindows(windows[..n], m), Held(windows[n], m);
      FindingsOfConcat(before, w, KIND_OPENED);
      FindingsOfConcat(before, w, KIND_RESOLVED);
      DigestTells(outbox[n], windows[n], m);
      hide BatchTells;
      assert InWindows(windows, m) == before + w;
    }
  }

  /** Conservation, for each module over every run: what was accepted as opened is,
      exactly once, in a digest or still waiting; and what was accepted as resolved
      is, in order, in the digests and then waiting. */
  lemma {:induction false} Conservation(c: Config, ops: seq<Op>, m: string)
    ensures var s, mine := Run(c, ops), OfModule(Past(c, ops).accepted, m);
      && multiset(FindingsOf(mine, KIND_OPENED)) ==
           OpenedSent(s.outbox, m) + multiset(FindingsOf(Held(s.pending, m), KIND_OPENED))
      && FindingsOf(mine, KIND_RESOLVED) ==
           ResolvedSent(s.outbox, m) + FindingsOf(Held(s.pending, m), KIND_RESOLVED)
      && (forall r :: Count(mine, "opened", r) == OpenedSent(s.outbox, m)[r] + Count(Held(s.pending, m), "opened", r))
      && (forall r :: Count(mine, "resolved", r) ==
            multiset(ResolvedSent(s.outbox, m))[r] + Count(Held(s.pending, m), "resolved", r))
  {
    ConservedLists(c, ops, m);
    var s, mine := Run(c, ops), OfModule(Past(c, ops).accepted, m);
    hide Run, Past, OpenedSent, ResolvedSent, Count, FindingsOf, OfModule;
    FindingsOfCount(mine, "opened");
    FindingsOfCount(mine, "resolved");
    FindingsOfCount(Held(s.pending, m), "opened");
    FindingsOfCount(Held(s.pending, m), "resolved");
  }

  lemma {:induction false} ConservedLists(c: Config, ops: seq<Op>, m: string)
    ensures var s, mine := Run(c, ops), OfModule(Past(c, ops).accepted, m);
      && multiset(FindingsOf(mine, KIND_OPENED)) ==
           OpenedSent(s.outbox, m) + multiset(FindingsOf(Held(s.pending, m), KIND_OPENED))
      && FindingsOf(mine, KIND_RESOLVED) ==
           ResolvedSent(s.outbox, m) + FindingsOf(Held(s.pending, m), KIND_RESOLVED)
  {
    RunKeeps(c, ops);
    var s, h := Run(c, ops), Past(c, ops);
    hide WindowOk, BatchTells, Run, Past;
    SentTellsWindows(s.outbox, h.windows, m);
    FindingsOfConcat(InWindows(h.windows, m), Held(s.pending, m), KIND_OPENED);
    FindingsOfConcat(InWindows(h.windows, m), Held(s.pending, m), KIND_RESOLVED);
  }

  /** Each digest's opened list is the stable severity order of that module's opened
      events in the window. */
  lemma {:induction false} DigestsAreOrdered(c: Config, ops: seq<Op>, i: nat, m: string)
    requires i < |Run(c, ops).outbox| && m in Run(c, ops).outbox[i]
    ensures i < |Past(c, ops).windows| && m in Past(c, ops).windows[i]
    ensures var openings := Run(c, ops).outbox[i][m].openings;
      var events := FindingsOf(Past(c, ops).windows[i][m], KIND_OPENED);
      && Descending(openings) && SameClasses(events, openings) && multiset(openings) == multiset(events)
      && forall a, b :: 0 <= a < b < |openings| ==> AtLeast(openings[a].report.severity, openings[b].report.severity)
  {
    RunKeeps(c, ops);
    assert BatchTells(Run(c, ops).outbox[i], Past(c, ops).windows[i]);
    hide Run, Past;
    BySeverityIsStableSort(FindingsOf(Past(c, ops).windows[i][m], KIND_OPENED));
  }

  /** A flush hands out, for each module with an opened or a resolved event waiting,
      one digest with the flush's clock that lists each of those findings as often as
      an event carries it, and nothing else. */
  lemma {:induction false} FlushTells(s: State, now: int, m: string)
    requires s.pending != map[]
    ensures var outbox, waiting := Flushed(s, now).outbox, Held(s.pending, m);
      && |outbox| == |s.outbox| + 1 && outbox[..|s.outbox|] == s.outbox
      && (m in outbox[|s.outbox|] <==> exists e :: e in waiting && e.kind in {"opened", "resolved"})
      && (m in outbox[|s.outbox|] ==>
            var dg := outbox[|s.outbox|][m];
            && dg.mod == m && dg.at == now
            && (forall r :: multiset(dg.openings)[r] == Count(waiting, "opened", r))
            && (forall r :: multiset(dg.resolutions)[r] == Count(waiting, "resolved", r)))
  {
    var waiting := Held(s.pending, m);
    SpeaksIff(waiting);
    BySeverityIsStableSort(FindingsOf(waiting, KIND_OPENED));
    hide Speaks, FindingsOf, Count, BySeverity;
    FindingsOfCount(waiting, "opened");
    FindingsOfCount(waiting, "resolved");
  }

  lemma {:induction false} SpeaksIff(events: seq<Event>)
    ensures Speaks(events) <==> exists e :: e in events && e.kind in {"opened", "resolved"}
  {
    var a := FindingsOfKind(events, KIND_OPENED);
    var b := FindingsOfKind(events, KIND_RESOLVED);
    hide FindingsOf;
    if Speaks(events) {
      var n := if a != [] then a[0] else b[0];
      assert n in a || n in b;
      assert events[n] in events;
    }
    if e :| e in events && e.kind in {"opened", "resolved"} {
      var n: nat :| n < |events| && events[n] == e;
      assert n in a || n in b;
    }
  }

  /** An event is accepted iff the dispatcher is open, no equal key waits, and it is
      not an opening below the minimum severity. */
  lemma {:induction false} AcceptsIff(c: Config, s: State, e: Event)
    ensures Accepts(c, s, e) <==>
            && !s.closed && KeyOf(e) !in s.seen
            && (e.kind == "opened" && c.minSeverity.Some? ==>
                  AtLeast(e.finding.report.severity, c.minSeverity.value))
  {
    hide KeyOf;
    if c.minSeverity.Some? { RankIsOrder(e.finding.report.severity, c.minSeverity.value); }
  }

  /** An accepted event flushes the window iff it is the one that fills it: the
      hundredth, unless the configuration says otherwise. */
  lemma {:induction false} FlushesWhenFull(c: Config, s: State, e: Event, now: int)
    requires Accepts(c, s, e)
    ensures var t, room := Next(c, s, Enqueue(e, now)), if c.maxBatch <= 0 then 100 else c.maxBatch;
      && (t.pending == map[] <==> Total(s.pending) + 1 >= room)
      && (Total(s.pending) + 1 < room ==> Held(t.pending, e.mod) == Held(s.pending, e.mod) + [e] && t.armed)
  {
    AppendedTotal(s, e);
    hide Total, KeyOf;
    assert e.mod in Appended(s, e).pending;
  }

  /** The dispatcher is closed iff it was told to. */
  lemma {:induction false} ClosedIff(c: Config, ops: seq<Op>)
    ensures Run(c, ops).closed <==> exists op :: op in ops && op.Close?
  {
    hide KeyOf, PassesSeverity, Total;
    if ops != [] {
      var init, last := ops[..|ops| - 1], ops[|ops| - 1];
      ClosedIff(c, init);
      assert ops == init + [last];
    }
  }

  /** A closed dispatcher holds nothing, and no later call changes it. */
  lemma {:induction false} ClosedStaysEmpty(c: Config, ops: seq<Op>, op: Op)
    requires Run(c, ops).closed
    ensures Run(c, ops).pending == map[] && Run(c, ops + [op]) == Run(c, ops)
  {
    RunKeeps(c, ops);
    assert (ops + [op])[..|ops|] == ops;
  }
}
