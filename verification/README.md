# RuleHawk, verified core

A Dafny model of the parts of RuleHawk whose answers are hardest to check by
reading: the indexed shadow analyser, ASA group expansion, the finding lifecycle,
the notification dispatcher and the ULID encoder. Loops, classes and in-place
updates of the Go source are methods and classes here, each proved against a
specification; the properties the source promises are then proved about those
specifications. `dafny verify dfyconfig.toml` checks everything.

## The pieces

- **Shadow analyser** (`Text`, `Cidr`, `Rules`, `Postings`, `NameIndex`, `AddrIndex`,
  `SegmentTree`, `PortIndex`, `CoverIndex`, `Analyze`, `Packets`, `Completeness`). `Rules.Covers` is
  the declarative match-containment relation and the loops of `fwrule/rule.go` are
  proved to compute it. Each index dimension answers with exactly the positions it
  can reach; the leapfrog join returns the lowest reachable coverer, for every
  input. `Packets` gives rule lists a first-match meaning in which interface,
  protocol, address and service names are uninterpreted and a conditional rule
  matches an unknown part of its packets. `Completeness` proves that what one rule's
  packets include is found and reported, and what check and severity say of packets.
- **Group expansion** (`AsaObjects`). Reference graphs may be cyclic.
- **Finding lifecycle** (`Findings`, `Reconcile`, `Lifecycle`). `Reconcile` proves one
  call for all inputs, one fingerprint at a time; `Lifecycle` proves whole runs of
  scans and user status changes.
- **Dispatcher** (`SeverityOrder`, `Dispatcher`). Every call equals a transition of a
  state machine; `Dispatcher.RunKeeps` and `Dispatcher.Conservation` hold for every
  run.
- **ULIDs** (`Ulid`).

## How the source is read

- An address element is `AnyAddr` (one of the words for "any"), `AnyV4` or `AnyV6`
  (the texts `0.0.0.0/0` and `::/0`, which the code treats as "any"), one network, or
  a name; a port element is `AnyPort`, one range (inverted and out-of-domain ranges
  are values too) or a name. Two texts of one network are one element, but for those
  two: `10.0.0.0/0` is a network.
- A bare address is the network `toNets` makes of it: in its IPv4-mapped form it gets
  32 prefix bits and reads as `::/32` (fwrule/rule.go:145-152; `Cidr.BareNetIsHostIff`).
- An IP address is a string of 32 or 128 bits. A packet has two addresses of one
  family and ports below 65536. Its addresses are compared with networks as they are;
  Go's folding of IPv4-mapped addresses applies to networks. `AnyV4` and `AnyV6` hold
  one family, and the protocol tokens `ip4` and `ipv4` are read as IPv4 only.
- An issue carries the two rules it names; its texts are functions of them.
- `ifaceWild`/`ifaceEq` and `protoWild`/`protoEq` are two objects of one class.
- A 64-bit word is a number below 2^64: shifts divide, or multiply modulo 2^64, and or
  is defined bit by bit.
- In a scan, `ids[i]` is the id the generator would give for report `i`.
- Each entry of the dispatcher's outbox is one flush: a digest for each module with
  something to say. Every channel is handed the same digests.
- Where comments and code part, the code is modelled. The index promises never to
  change the answer (fwrule/coverindex.go:28-35); it does for IPv4-mapped networks,
  because `netContains` compares unfolded prefix lengths. `expandNet` promises the
  bare name for a cycle (fwparse/ciscoasa_objects.go:72-73); the code drops the
  back reference and expands the rest (`AsaObjects.CycleExpands`). The expansion cap counts repeats.

## Properties that hold only under a condition

- A cover is *genuine* when every network of the covered rule has a network of the
  coverer that contains it without a clash: no plain IPv4 network against a mapped
  one with a shorter folded prefix (`Cidr.FoldClash`, `Rules.Genuine`). Without
  clashes at all (`Analyze.ListUnclashed`; no mapped network is enough) every cover
  is genuine. What depends on it:
  - The indexed and the reference pass agree iff each enabled rule's earliest coverer
    contains its first addresses genuinely: `Analyze.IndexedEqualsReferenceIff`, with
    the list `Analyze.MappedNetworkDisagrees`.
  - Containment of networks composes after an accepted pair iff that pair does not
    clash: `Cidr.NetContainsTransitiveIff`, with `Cidr.ContainmentDoesNotCompose`. For
    rules it composes iff each network of the middle rule is genuinely included, or
    accepted as are its halves: `Rules.CoversTransitiveIff`. "Same match" is an
    equivalence on rules with single addresses; with more it need not be:
    `Rules.SameMatchFailsOnMapped`.
  - A rule that either pass blames is not reported by it, unless it is covered through
    a clash: `Analyze.BlamedRuleIsNotReported`, with `Analyze.BlamedRuleCanBeReported`
    and, for the index, `Analyze.IndexedBlamedRuleCanBeReported`. On single addresses
    the index never blames a rule it reports: `Analyze.IndexedBlameOnSingles`.
- A cover is *real* when the covered rule's ports leave it no packet, or in each
  address family it admits the coverer's blocks span its own (`Packets.Includes`).
  The packets of the one are then packets of the other, and only then, for lists of
  any length: `Packets.CoversSoundIff`. A reported rule is dead in every list where it
  stands behind the blamed one iff the cover is real: `Packets.BlameIsSoundIff`,
  `Packets.TwoRuleReportIsSoundIff` for either pass. Genuine covers are real where no
  0.0.0.0/0, ::/0 or ip4 covers the other family (`Packets.GenuineIncludes`). Reports
  that are wrong: `Packets.MappedReportIsWrong` (reference),
  `Packets.IndexedReportIsWrong` and `Packets.OtherFamilyReportIsWrong` (both passes).
- Containment finds every inclusion of packets where the earlier rule has one element
  per field and the forms the code refuses do not meet (`Completeness.Telling`: a
  mapped network against a plain one, a /0 network or a range of all ports against
  "any", ranges that are no ranges of ports, elements in none of the rule's packets).
  There a rule is dead behind another iff it is reported and the cover is real:
  `Completeness.DeadIffReported`.
- The notifications of a finding alternate opened, resolved, … iff no user took it
  out of "resolved" with a later turn following, and no scan that opened it reported
  it more than once: `Lifecycle.EventsAlternateIff`, with the runs
  `Lifecycle.ReopenedResolvesTwice` and `Lifecycle.RepeatedReportOpensTwice`.
- A finding resolves when its misses have reached the threshold
  (`Lifecycle.ResolvesAtThreshold`, every run); exactly when they reach it where users
  leave resolved findings alone. A live finding is at the threshold iff a user
  reopened it and no scan has reported it since: `Lifecycle.AtThresholdIff`.
- The lifecycle is stated for fingerprints that belong to one target
  (`Lifecycle.Owned`), which hashing the target into the fingerprint provides.
- Notification keys tell events apart where module names or fingerprints hold no bar:
  `Dispatcher.SameKeyIff`, with `Dispatcher.DistinctEventsShareKey`.
- ULIDs order clocks by their 48 low bits: `Ulid.SortsBeforeIff`.

## Model

| member | source | states |
|---|---|---|
| `Analyze.ShadowAndDuplicate` | fwrule/analyze.go:38-58 | the indexed pass reports, in order, each enabled rule with its earliest blocker the index can see; without a clash its output is the quadratic reference's |
| `Analyze.ShadowAndDuplicateQuadratic` | fwrule/analyze.go:90-132 | the nested loops, with their own issue switch, report each enabled rule with its earliest blocker |
| `Analyze.FirstBlocker` | fwrule/analyze.go:97-104 | the result blocks the rule and nothing earlier does; -1 only when nothing does |
| `Analyze.IndexedEqualsReference` | fwrule/analyze.go:31-37 | same issues, same order, same blamed rules, for every list without a clash |
| `Analyze.IndexedEqualsReferenceIff` | fwrule/analyze.go:31-37 | for every list of distinct rules, the two passes agree iff each enabled rule's earliest coverer contains its first source and destination without a clash |
| `Analyze.SameBlockerIffGenuine` | fwrule/coverindex.go:28-35 | the same, for one rule and without distinctness |
| `Analyze.SingletonReachedIffUnclashed` | fwrule/coverindex.go:184-202 | with single addresses, a coverer is missed iff its networks clash with the covered rule's |
| `Analyze.NoMappedIsUnclashed` | fwrule/coverindex.go:184-202 | a list without IPv4-mapped networks has no clash |
| `Analyze.MappedNetworkDisagrees` | fwrule/rule.go:130-138 | 10.1.0.0/24 and ::ffff:10.1.0.0/112: the reference blames, the index does not, and no inclusion holds |
| `Analyze.BlamedRuleIsNotReported` | fwrule/analyze.go:40-55 | for either pass and every list, a rule that a finding blames has no blocker of its own iff no earlier terminating rule that the pass sees covers it through a clash |
| `Analyze.BlamedRuleCanBeReported` | fwrule/rule.go:130-138 | 10.1.0.0/24, ::ffff:10.1.0.0/112, ::ffff:10.1.1.0/120: the second rule is blamed for the third and reported against the first |
| `Analyze.IndexedBlameOnSingles` | fwrule/analyze.go:40-55 | on single addresses the indexed pass never blames a rule it reports, mapped networks included |
| `Analyze.IndexedBlamedRuleCanBeReported` | fwrule/analyze.go:40-55 | three rules with two sources, the first shared: for either pass the second is blamed for the third and reported itself |
| `Analyze.Reindex` | fwparse/parse.go:60-65 | positions are assigned in list order, after which all rules are distinct |
| `Packets.CoversSound` | fwrule/rule.go:228-241 | after a real cover every packet of the covered rule is a packet of the coverer, whatever the names mean |
| `Packets.CoversSoundIff` | fwrule/rule.go:228-241 | for rules with any lists, a cover is that inclusion of packets iff the covered rule's ports leave it no packet, or in each family it admits the coverer's blocks span its own and list its names |
| `Cidr.SpansIff` | fwrule/rule.go:95-138 | blocks span another, by one of them or half by half, iff together they hold all its addresses |
| `Packets.GenuineIncludes` | fwrule/rule.go:58-70 | a genuine cover in which no 0.0.0.0/0, ::/0 or ip4 stands for the other family is real |
| `Packets.NoFamilyTokensKeepFamilies` | fwrule/rule.go:58-70 | lists without those texts keep families apart |
| `Packets.ReportedNeverFires` | fwrule/analyze.go:31-58 | where each reported rule has a blocker that really covers it, no packet makes one decide or log, whatever the names mean and the conditional rules hide |
| `Packets.UnclashedReportsAreSound` | fwrule/analyze.go:31-58 | on a list without clashes that keeps families apart each reported rule, of either pass, has such a blocker |
| `Packets.IndexedReportsAreSoundOnSingles` | fwrule/coverindex.go:235-263 | so it has for the indexed pass on single addresses, whatever networks clash |
| `Packets.DeletingReportedChangesNothing` | fwrule/analyze.go:79-84 | then deleting all reported rules at once leaves every packet's log jumps and deciding rule unchanged |
| `Packets.TwoRuleReportIsSoundIff` | fwrule/analyze.go:38-132 | a rule that either pass reports against the one before it never acts, and deleting it changes nothing, iff the cover is real |
| `Packets.BlameIsSoundIff` | fwrule/analyze.go:97-104 | an enabled rule is dead in every list where it stands behind a terminating rule that covers it iff the cover is real |
| `Packets.IssuesNameReported` | fwrule/analyze.go:38-58 | the issues are those of the reported positions, each against its earliest blocker, and no others |
| `Completeness.InclusionIsReported` | fwrule/analyze.go:38-58 | in any list, a rule whose packets are all those of an earlier enabled allow or deny rule is reported by either pass |
| `Completeness.DeadIffReported` | fwrule/analyze.go:97-104 | for such pairs, no packet reaches the second rule iff either pass reports it and the cover is real |
| `Completeness.HighIff` | fwrule/analyze.go:71-77 | high severity iff the rule alone denies its packets and behind the blamed rule they are allowed |
| `Completeness.DuplicateIff` | fwrule/analyze.go:64-70 | a duplicate, with real covers both ways, iff either rule alone decides every packet as the other does |
| `Completeness.IssueNames` | fwrule/analyze.go:61-87 | an issue names the covered rule and the blamed one; low severity is a duplicate's |
| `Packets.MappedReportIsWrong` | fwrule/rule.go:130-138 | on the clashing list a packet is decided by the rule the reference reports as dead |
| `Packets.IndexedReportIsWrong` | fwrule/coverindex.go:235-263 | the same for both passes, on sources 8.0.0.0/24, 10.1.0.0/24 and then 8.0.0.0/24, ::ffff:10.1.0.0/112 |
| `Packets.OtherFamilyReportIsWrong` | fwrule/rule.go:58-70 | behind 0.0.0.0/0 both passes report any IPv6 network's rule, and behind ::/0 any IPv4 one's, which decides that network's packets; nothing clashes |
| `Rules.AddrsCover` | fwrule/rule.go:95-128 | the early-exit loops compute: any, or every element has a covering element |
| `Rules.PortsCover` | fwrule/rule.go:163-196 | the same for ports |
| `Rules.RuleCovers` | fwrule/rule.go:228-241 | the six conjuncts and the conditional guard |
| `Completeness.RangeCoversIff` | fwrule/rule.go:163-196 | a range is found to contain a range of ports iff it holds all its ports |
| `Completeness.CoversIff` | fwrule/rule.go:228-241 | for rules about which containment tells all, one is found to cover the other with a real cover iff it holds all its packets, whatever the names mean |
| `Completeness.InclusionIsCovered` | fwrule/rule.go:228-241 | what such a rule includes it is found to cover, and the index sees it |
| `Text.LowerFoldsCase` | fwrule/rule.go:277-279 | folding leaves no capital and changes nothing but case |
| `Text.TrimCutsBlanks` | fwrule/rule.go:277-279 | trimming cuts the blanks off both ends, and all of them |
| `Rules.CoversReflexive` | fwrule/rule.go:228-241 | a rule covers itself iff it is unconditional |
| `Rules.CoversTransitive` | fwrule/rule.go:228-241 | containment of rules composes when the networks do: each genuinely included, or accepted as are its halves |
| `Rules.CoversTransitiveIff` | fwrule/rule.go:228-241 | for rules with any lists, what the second rule covers the first covers too iff the networks compose |
| `Rules.ComposingIffUnclashedOnSingles` | fwrule/rule.go:130-138 | networks compose without clashes, and with single addresses only then |
| `Rules.SameMatchEquivalence` | fwrule/rule.go:243-247 | reflexive, symmetric and, where networks compose, transitive |
| `Rules.SameMatchTransitiveOnSingles` | fwrule/rule.go:243-247 | always transitive on rules with single addresses |
| `Rules.SameMatchIsNotTransitive` | fwrule/rule.go:95-128 | wherever containment of three networks does not compose there are three rules with lists of them, neighbours the same match and the ends not |
| `Rules.SameMatchFailsOnMapped` | fwrule/rule.go:243-247 | such rules exist |
| `Cidr.WithinIffFoldedContains` | fwrule/coverindex.go:184-202 | address-set inclusion is the folded prefix test, both ways |
| `Cidr.ProbeFindsIffWithin` | fwrule/coverindex.go:246-261 | probing the prefixes of a network up to its length meets another's key iff that one includes it, mapped networks too |
| `Cidr.NetContainsIffWithin` | fwrule/rule.go:130-138 | for networks written in one form `netContains` is set inclusion |
| `Cidr.NetContainsSoundIffNoClash` | fwrule/rule.go:130-138 | a pair it accepts is really an inclusion iff it does not clash |
| `Cidr.NetContainsTransitiveIff` | fwrule/rule.go:130-138 | what the second network of an accepted pair contains the first contains too iff the pair does not clash |
| `Cidr.ContainmentDoesNotCompose` | fwrule/rule.go:130-138 | 10.1.0.0/24 contains ::ffff:10.1.0.0/112, which contains ::ffff:10.1.1.0/120, which the first does not contain |
| `Cidr.ContainsIsMembership` | fwrule/rule.go:130-134 | Go's containment test is membership, for addresses that are not mapped |
| `Cidr.BareNetIsHostIff` | fwrule/rule.go:145-156 | an address without a prefix length is read as itself alone iff it is not in mapped form |
| `SegmentTree.WalkMeetsOneMark` | fwrule/coverindex.go:316-331 | at any level, the walk to the root meets one mark if the node is in the run and none otherwise |
| `SegmentTree.RangeMarksExact` | fwrule/coverindex.go:316-366 | the same from the leaves: port p's walk meets exactly one mark of lo-hi iff lo ≤ p ≤ hi |
| `SegmentTree.AtMostTwoMarksPerLevel` | fwrule/coverindex.go:316-331 | no level receives more than two marks from one range |
| `PortIndex.WalkIffPoint` | fwrule/coverindex.go:358-366 | after any postings a position is on p's walk iff one of its in-domain ranges contains p |
| `PortIndex.CoveredIsReached` | fwrule/coverindex.go:333-368 | the port dimension never misses a coverer |
| `PortIndex.PortDim.Add` | fwrule/coverindex.go:291-314 | all lists stay strictly ascending and hold exactly the positions posted so far |
| `PortIndex.PortDim.InsertRange` | fwrule/coverindex.go:316-331 | the position is appended at the range's marked nodes and nowhere else |
| `PortIndex.PortDim.Query` | fwrule/coverindex.go:338-368 | unconstrained iff the first range is inverted; otherwise the lists hold exactly the added positions whose ports reach it, in a space of any power of two |
| `CoverIndex.CoverIndex.PortDims` | fwrule/coverindex.go:108-113 | both port dimensions together, over the 65536 ports |
| `AddrIndex.CoveredReachedIffGenuine` | fwrule/coverindex.go:235-263 | of the coverers, the address dimension misses exactly those that contain the first network through clashes only |
| `AddrIndex.CoveredIsReached` | fwrule/coverindex.go:235-263 | without a clash the address dimension never misses a coverer |
| `AddrIndex.AddrDim.Add` | fwrule/coverindex.go:213-234 | buckets stay strictly ascending and exact, and `lens` marks a length iff a key of that length exists |
| `AddrIndex.AddrDim.Query` | fwrule/coverindex.go:236-263 | the lists hold exactly the added positions with an "any" list or an element that really includes (or names) the first element |
| `NameIndex.NameDim.Query` | fwrule/coverindex.go:101-105 | the lists hold exactly the wildcard positions and those filed under the name |
| `CoverIndex.NamesReached` | fwrule/coverindex.go:61-92 | interface and protocol never miss a coverer, although one side trims protocol names and the other does not |
| `CoverIndex.VisibleIffReached` | fwrule/coverindex.go:28-35 | of the coverers, the six dimensions together miss exactly those the addresses cannot reach |
| `CoverIndex.Leapfrog` | fwrule/coverindex.go:114-140 | the join terminates with the lowest position all dimensions list and whose rule covers, or -1 when there is none |
| `CoverIndex.CoverIndex.Add` | fwrule/coverindex.go:80-97 | one more rule registered in all six dimensions, all invariants kept |
| `CoverIndex.CoverIndex.FirstCoverer` | fwrule/coverindex.go:99-141 | the lowest registered coverer the addresses can reach, or -1 |
| `Postings.SeekDim` | fwrule/coverindex.go:155-165 | the least posting at or above x over several lists |
| `Postings.PostAdds` | fwrule/coverindex.go:265-272 | posting keeps a list strictly ascending, adds one position and is idempotent |
| `AsaObjects.Resolve` | fwparse/ciscoasa_objects.go:105-138 | terminates, restores `seen`, succeeds iff no working list passes the cap, and then lists exactly the collected leaves |
| `AsaObjects.LeavesAreReachable` | fwparse/ciscoasa_objects.go:105-138 | the collected leaves are those reachable by any path that avoids the seen names, cycles included |
| `AsaObjects.FitsIffPathsFit` | fwparse/ciscoasa_objects.go:105-138 | a reference expands iff no definition at the end of a repeat-free path from it lists more than the cap, counting repeats |
| `AsaObjects.ExpandsWhollyOrNotAtAll` | fwparse/ciscoasa_objects.go:83-103 | the bare name, or every reachable leaf, sorted, without repeats, 1 to 256 of them |
| `AsaObjects.TooManyLeavesKeepTheName` | fwparse/ciscoasa_objects.go:133-137 | more than 256 reachable leaves give the bare name |
| `AsaObjects.RepeatsCountAgainstTheCap` | fwparse/ciscoasa_objects.go:133-137 | two references to one group of more than 128 leaves give the bare name |
| `AsaObjects.FlatGroupExpandsIff` | fwparse/ciscoasa_objects.go:117-138 | a group of literals and undefined names expands to them, sorted and once each, iff it has 1 to 256, repeats counted |
| `AsaObjects.CycleExpands` | fwparse/ciscoasa_objects.go:112-115 | two groups that refer to each other expand to the literals of both |
| `AsaObjects.TwoGroupCycle` | fwparse/ciscoasa_objects.go:72-73 | A: h1, B and B: A, h2 expand A to h1, h2 and not to the bare name |
| `AsaObjects.ExpansionIsUnique` | fwparse/ciscoasa_objects.go:94-103 | two correct expansions are equal, so a cached answer is the uncached one |
| `AsaObjects.Objects.Expand` | fwparse/ciscoasa_objects.go:83-103 | after any earlier calls the answer is a correct expansion and the caches stay correct |
| `AsaObjects.DedupeStrings` | fwparse/parse.go:67-80 | the non-empty strings, in the order of `Text.LessIff`, once each |
| `Text.LessIff` | fwparse/parse.go:78 | one string comes before another iff at the first difference it ends or has the smaller character |
| `Reconcile.Engine.Reconcile` | store/reconcile.go:23-111 | for any reports: every fingerprint's record, the newly-open and rejected lists in order, and each resolution once; other modules untouched |
| `Reconcile.MemStore.ListByTarget` | store/memory.go:20-30 | the module's records of the target, once each, in any order |
| `Reconcile.IngestRound` | store/reconcile.go:38-86 | one report updates its own key as specified and no other |
| `Reconcile.MissRound` | store/reconcile.go:88-108 | one unreported finding is counted, and resolved at the threshold, and no other changes |
| `Reconcile.AnnouncedRecords` | store/reconcile.go:46-85 | every announced record is open, unresolved and seen now, carries what a well-formed report of the scan says, and has the identity of the stored record or of a new one |
| `Reconcile.AnnouncedIsStored` | store/reconcile.go:46-85 | where fingerprints are distinct it is the record the store then holds |
| `Reconcile.ResolvedIff` | store/reconcile.go:98-107 | the resolved list holds exactly the records turned from live to resolved, as stored, with the scan's clock |
| `Reconcile.RejectedIff` | store/reconcile.go:38-42 | the rejected list pairs exactly the malformed reports with the fault tested first |
| `Reconcile.RejectedCount` | store/reconcile.go:38-42 | one entry for each malformed report |
| `Lifecycle.HandleFindingStatus` | web/server.go:355-382 | sets the status of an existing finding and nothing else |
| `Lifecycle.StatusTakesEffectIff` | web/server.go:367-381 | open, acknowledged and suppressed take effect on an existing finding, "resolved" does not, and nothing else changes |
| `Lifecycle.StoreRunProjects` | store/reconcile.go:23-111 | a run of the store, seen at one key, is a run of that key's record |
| `Lifecycle.RunKeeps` | store/reconcile.go:38-108 | in every reachable state the turns of a record alternate, up by a scan or a user and down by a resolution; it is live exactly after an up, and `resolvedAt` is set iff it is resolved or was last reopened by a user |
| `Lifecycle.ResultIsAnnounced` | notify/bridge.go:19-24 | what the bridge enqueues for a fingerprint from a reconcile's result: one opening per well-formed report of it when it opens, one resolution when it resolves |
| `Lifecycle.ResultsAreAnnounced` | notify/bridge.go:13-26 | over any run of the store, the results' notifications of a key are the run's announcements for it, with multiplicity and in order |
| `Lifecycle.EventsAlternateIff` | store/reconcile.go:38-108 | notifications alternate opened, resolved, … iff no user reopening was followed by another turn and no opening scan reported the finding more than once |
| `Lifecycle.EventsAlternateForUsersOfLiveRecords` | store/reconcile.go:67-108 | with user actions on unresolved records only and distinct fingerprints in each scan, notifications alternate and `resolvedAt` is set iff resolved |
| `Lifecycle.ReopenedResolvesTwice` | web/server.go:367-381 | a run in which a user reopening leads to two resolutions in a row and an open record with a resolution time |
| `Lifecycle.RepeatedReportOpensTwice` | store/reconcile.go:38-64 | one scan that reports a finding twice announces it as opened twice |
| `Lifecycle.SuppressedIsSilent` | store/reconcile.go:93-97 | a suppressed record announces nothing |
| `Lifecycle.BookkeepingIsExact` | store/reconcile.go:53-75 | streak, first-seen and last-seen are the run's count of misses and its first and last reporting clocks |
| `Lifecycle.ResolvedAtIsExact` | store/reconcile.go:98-104 | a resolution time is the clock of the last scan that resolved the record |
| `Lifecycle.DescriptionIsTheLatest` | store/reconcile.go:67-75 | title, severity, remediation and evidence are those of the latest report, the evidence capped |
| `Lifecycle.ScanKeepsUserStatus` | store/reconcile.go:67-108 | a scan changes a known finding's status only by resolving it or reopening a resolved one; suppressed stays suppressed |
| `Findings.ValidateForIngest` | core/finding.go:98-118 | nothing is wrong iff all five texts are non-empty and the severity is known; otherwise the broken field that is tested first is named |
| `Findings.ChecksInOrder` | core/finding.go:98-118 | a named field tells that fingerprint, target, check, title, remediation before it, in this order, are filled in |
| `Findings.CapEvidence` | store/reconcile.go:113-132 | evidence that cannot be serialised becomes the dropped marker, oversized evidence the marker with its size; any other evidence, and everything else, is left alone |
| `Lifecycle.IdentityIsKept` | store/reconcile.go:67-79 | id, module, fingerprint, target, check and first-seen never change while the record exists |
| `Lifecycle.AtThresholdIff` | store/reconcile.go:67-108 | on every run, a resolved record's streak is at the threshold, and any other's is iff a user reopened it and no scan has reported it since |
| `Lifecycle.LiveIsBelowThreshold` | store/reconcile.go:98-104 | so a live record whose last turn is not a user's reopening has a streak below the threshold |
| `Lifecycle.ResolvesAtThreshold` | store/reconcile.go:88-108 | on every run, a scan announces a resolution iff the record is open or acknowledged, the scan is of its target and misses it, and the misses since the last report have reached `ResolveAfter` |
| `Lifecycle.ResolvesExactlyAtThreshold` | store/reconcile.go:98-104 | where users leave resolved records alone, exactly at the scan that brings the misses to `ResolveAfter` |
| `Lifecycle.OtherTargetUntouchedIff` | store/reconcile.go:27-64 | another target's record is untouched iff the scan does not report its fingerprint or the new record it makes is the same; it changes when reported with a target not its own |
| `Lifecycle.ForeignTargetUntouchedIff` | store/reconcile.go:27-64 | for reports that carry the scanned target, it is untouched iff the scan does not report its fingerprint |
| `Lifecycle.AnnouncedPerReport` | store/reconcile.go:38-86 | a fingerprint is announced once per well-formed report of it, or never when it was live |
| `Dispatcher.Dispatcher.Enqueue` | notify/notify.go:110-140 | drops, collapses, files, flushes early or arms the timer, as one transition |
| `Dispatcher.AcceptsIff` | notify/notify.go:110-127 | an event is accepted iff the dispatcher is open, no equal key waits and it is no opening below the minimum severity, critical over high over medium over low over the rest |
| `Dispatcher.FlushesWhenFull` | notify/notify.go:129-139 | an accepted event flushes iff it fills the window, which holds 100 unless configured; otherwise it waits last in its module |
| `Dispatcher.SameKeyIff` | notify/notify.go:122-126 | two events share a key iff kind, module and fingerprint agree, or the kind does and bars in one's module and the other's fingerprint make up for the difference |
| `Dispatcher.KeysTellApart` | notify/notify.go:122-126 | without bars in the modules, or in the fingerprints, only equal kind, module and fingerprint share a key |
| `Dispatcher.DistinctEventsShareKey` | notify/notify.go:122-126 | and with bars in both they need not be: the second of two such events is dropped as a duplicate |
| `Dispatcher.Dispatcher.FlushLocked` | notify/notify.go:166-206 | one digest per pending module with something to say, and an empty window |
| `Dispatcher.FlushTells` | notify/notify.go:166-206 | for each module with an opened or resolved event waiting, one digest with its name and the flush's clock that lists each finding, by kind, as often as an event carries it |
| `Dispatcher.FindingsOfKind` | notify/notify.go:180-187 | the findings of a kind are those of its events, one each, in order |
| `Dispatcher.Dispatcher.Close` | notify/notify.go:150-157 | flushes and refuses later events |
| `Dispatcher.StepKeeps` | notify/notify.go:110-206 | every call keeps: no key twice in a window, fewer than `MaxBatch` waiting, timer armed iff events wait, windows told in digests, events conserved |
| `Dispatcher.RunKeeps` | notify/notify.go:110-206 | the same over every run |
| `Dispatcher.Conservation` | notify/notify.go:113-194 | per module, what was accepted is exactly what was handed out plus what waits, counted by kind and finding, and in order for resolved ones |
| `Dispatcher.DigestsAreOrdered` | notify/notify.go:178-190 | each digest's opened list is the stable severity-descending permutation of its window's opened events |
| `Dispatcher.ClosedIff` | notify/notify.go:150-157 | the dispatcher is closed iff `Close` was called |
| `Dispatcher.ClosedStaysEmpty` | notify/notify.go:119-121 | once closed nothing waits and no call changes anything |
| `Dispatcher.BuildDigest` | notify/notify.go:178-190 | the digest's two lists hold the window's findings by kind, the opened ones in severity order |
| `SeverityOrder.SortBySeverity` | notify/notify.go:243-250 | the insertion sort leaves the severity classes laid out from the most severe down |
| `SeverityOrder.BySeverityIsStableSort` | notify/notify.go:243-250 | that layout puts critical before high before medium before low before the rest, is a permutation, and keeps the order of equals |
| `Ulid.EncodeCrockford` | store/ulid.go:34-49 | the shift-and-carry loop renders the 26 base-32 digits of the 128-bit value |
| `Ulid.DigitsAreCrockford` | store/ulid.go:15 | an id has only digits and capitals other than I, L, O and U |
| `Ulid.RoundDivides` | store/ulid.go:45-47 | one round, or-ing the carried bits in, divides the two-word value by 32 |
| `Ulid.OrIsSum` | store/ulid.go:46 | bitwise or adds numbers whose bits do not overlap |
| `Ulid.EncodingKeepsOrder` | store/ulid.go:34-49 | strings compare as the values do and are equal only for equal values |
| `Ulid.DecodeEncoding` | store/ulid.go:34-49 | decoding gives the value back |
| `Ulid.NewULID` | store/ulid.go:18-32 | the six timestamp bytes are the 48 low bits of the clock, followed by the random tail |
| `Ulid.UlidOrder` | store/ulid.go:18-32 | ids sort by timestamp and then by random bits |
| `Ulid.SortsBeforeIff` | store/ulid.go:18-32 | a clock sorts before another for all random tails iff its 48 low bits are smaller: for clocks in 0 to 2^48, iff it is earlier |

## Left out

- Text of addresses, ports and clocks as the Go library parses it and as `toNets` and `toRanges` split and trim it (how `toNets` completes a bare address is modelled); case folding and blanks outside ASCII.
- Issue titles, details, fixes and keys as text.
- The permissive, hygiene and drift checks, which look at one rule at a time or compare key sets.
- The vendor line parsers, and `scanASAObjects` with its token rules.
- The 32-bit width of posting positions, and sharing of slice storage between a list and its updated copy.
- Direction of a rule: no parser sets it and `Covers` does not read it.
- The scheduler, SQLite stores, web pages, licences, AI client and dashboards.
- Store and id-generator errors, which abort a reconcile half way.
- Finding groups, and core-owned fields a collector fills against its contract.
- Delivery to channels, retries and timer expiry as time: a timer firing is a flush, which may come at any moment.
- Events of kinds other than opened and resolved, which the dispatcher accepts and its digests drop: `Dispatcher.Conservation` speaks of the two kinds.
- Packets.ReportedNeverFires: earlier rules other than a real coverer may keep a reported rule from acting too, alone or together; exact for one coverer in every list (`Packets.BlameIsSoundIff`) and for two rules.
