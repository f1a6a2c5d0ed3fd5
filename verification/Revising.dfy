/** The decision of scripts/revise-improvement-policy.py: roll back, revise, or
    do nothing. */
module Revising {
  import opened Text
  import opened Records
  import opened Rounding
  import opened Sorting
  import opened ImprovementPolicy
  import opened Rounds
  import opened Measuring
  import opened Mining
  import Definitions

  const MIN_COVERAGE := 0.8
  const MIN_VALIDITY := 0.3
  const MIN_ROUNDS_TO_JUDGE := 2
  const MIN_FIELD_BLIND_SPOTS := 5
  const WEIGHT_DISCOUNT := 0.5
  const MIN_WEIGHT := 0.25
  const MAX_BACKGROUND_SHARE := 0.2
  const MIN_BACKGROUND_OCCURRENCES := 10

  // ---- vocabulary ----

  function AllFindings(entries: seq<ArchiveEntry>): seq<string> {
    if entries == [] then [] else entries[0].findings + AllFindings(entries[1..])
  }

  function TokensOf(env: Env, fs: seq<string>): set<string> {
    if fs == [] then {} else env.tokenize(fs[0]) + TokensOf(env, fs[1..])
  }

  function FindingsWith(env: Env, fs: seq<string>, t: string): nat {
    if fs == [] then 0 else (if t in env.tokenize(fs[0]) then 1 else 0) + FindingsWith(env, fs[1..], t)
  }

  /** What a field failure may contribute to a keyword: nothing but safe words and
      the words of archived findings. */
  function FieldVocabulary(env: Env, entries: seq<ArchiveEntry>, safe: set<string>): set<string> {
    safe + TokensOf(env, AllFindings(entries))
  }

  /** Words too common among classified findings (all findings, under an empty
      taxonomy) to name or define a topic: in ten of them and in more than a fifth. */
  function BackgroundTokens(env: Env, entries: seq<ArchiveEntry>, defs: seq<Definition>): set<string> {
    var fs := if defs == [] then AllFindings(entries)
              else Filter(AllFindings(entries), (f: string) => IsClassified(f, defs));
    set t | t in TokensOf(env, fs)
      && FindingsWith(env, fs, t) >= MIN_BACKGROUND_OCCURRENCES
      && FindingsWith(env, fs, t) as real > MAX_BACKGROUND_SHARE * |fs| as real
  }

  datatype FieldFailure = FieldFailure(traceId: string, excerpt: string)

  /** Unclassified field failures as items to mine, one per distinct excerpt. */
  function BlindSpots(env: Env, failures: seq<FieldFailure>, defs: seq<Definition>,
                      seen: set<string>): (items: seq<Item>)
    ensures forall i | 0 <= i < |items| :: items[i].source.Field?
    ensures forall i | 0 <= i < |items| :: !IsClassified(items[i].finding, defs)
  {
    if failures == [] then []
    else
      var excerpt := env.scrub(Strip(failures[0].excerpt));
      if excerpt == "" || excerpt in seen || IsClassified(excerpt, defs) then BlindSpots(env, failures[1..], defs, seen)
      else
        var id := failures[0].traceId;
        [Item(Field(if |id| <= 8 then id else id[..8]), excerpt)]
          + BlindSpots(env, failures[1..], defs, seen + {excerpt})
  }

  // ---- history look-ups ----

  function SnapshotFor(version: int, history: seq<HistoryEntry>): Option<Policy>
    decreases |history|
  {
    if history == [] then (if version == 1 then Some(BuiltinPolicy()) else None)
    else
      var latest := history[|history| - 1];
      if latest.version == version && latest.policy.Some? then latest.policy
      else SnapshotFor(version, history[..|history| - 1])
  }

  predicate Adopted(version: int, history: seq<HistoryEntry>) {
    exists i | 0 <= i < |history| :: history[i].version == version
  }

  /** The nearest version a policy can be rolled back to. A rollback stands where the
      version it restored stood, so its own parent is passed over. */
  function JudgedFrom(policy: Policy, history: seq<HistoryEntry>): Option<int> {
    if policy.origin == Rollback then
      if policy.restored.None? then None
      else
        var snapshot := SnapshotFor(policy.restored.value, history);
        if snapshot.None? then None else snapshot.value.parent
    else policy.parent
  }

  function KnownVersions(history: seq<HistoryEntry>): set<int> {
    {1} + set e | e in history :: e.version
  }

  lemma {:induction false} SnapshotIsKnown(version: int, history: seq<HistoryEntry>)
    requires SnapshotFor(version, history).Some?
    ensures version in KnownVersions(history)
  {
    if history != [] {
      var latest := history[|history| - 1];
      if !(latest.version == version && latest.policy.Some?) {
        SnapshotIsKnown(version, history[..|history| - 1]);
      } else {
        assert latest in history;
      }
    }
  }

  /** Where the ancestry continues after a snapshot. */
  function Onward(snapshot: Policy, history: seq<HistoryEntry>): Option<int> {
    if snapshot.origin == Rollback then JudgedFrom(snapshot, history)
    else if snapshot.origin == Revision then snapshot.parent
    else None
  }

  lemma VisitShrinks(version: int, history: seq<HistoryEntry>, seen: set<int>)
    requires SnapshotFor(version, history).Some? && version !in seen
    ensures |KnownVersions(history) - (seen + {version})| < |KnownVersions(history) - seen|
  {
    SnapshotIsKnown(version, history);
    assert KnownVersions(history) - seen == (KnownVersions(history) - (seen + {version})) + {version};
  }

  function AncestorsFrom(version: Option<int>, history: seq<HistoryEntry>, seen: set<int>): seq<Policy>
    decreases |KnownVersions(history) - seen|
  {
    if version.None? || version.value in seen then []
    else
      match SnapshotFor(version.value, history)
      case None => []
      case Some(s) =>
        VisitShrinks(version.value, history, seen);
        [s] + AncestorsFrom(Onward(s, history), history, seen + {version.value})
  }

  function UnjudgedAncestors(policy: Policy, history: seq<HistoryEntry>): seq<Policy> {
    AncestorsFrom(JudgedFrom(policy, history), history, {})
  }

  method CollectAncestors(policy: Policy, history: seq<HistoryEntry>) returns (chain: seq<Policy>)
    ensures chain == UnjudgedAncestors(policy, history)
  {
    chain := [];
    var seen: set<int> := {};
    var version := JudgedFrom(policy, history);
    while version.Some? && version.value !in seen
      invariant chain + AncestorsFrom(version, history, seen) == UnjudgedAncestors(policy, history)
      decreases |KnownVersions(history) - seen|
    {
      var found := SnapshotFor(version.value, history);
      if found.None? { break; }
      var snapshot := found.value;
      VisitShrinks(version.value, history, seen);
      seen := seen + {version.value};
      Assoc(chain, [snapshot], AncestorsFrom(Onward(snapshot, history), history, seen));
      chain := chain + [snapshot];
      if snapshot.origin == Rollback {
        version := JudgedFrom(snapshot, history);
        continue;
      }
      if snapshot.origin != Revision { version := None; break; }
      version := snapshot.parent;
    }
  }

  // ---- what a policy is judged on ----

  predicate StampedBy(e: ArchiveEntry, policy: Policy) {
    e.policyHash == Some(PolicyHash(policy)) && e.policyVersion == Some(policy.version)
  }

  function EntriesUnder(entries: seq<ArchiveEntry>, policy: Policy): seq<ArchiveEntry> {
    Filter(entries, (e: ArchiveEntry) => StampedBy(e, policy))
  }

  function RoundsUnder(entries: seq<ArchiveEntry>, policy: Policy): set<RoundKey> {
    set e | e in entries && StampedBy(e, policy) && e.round.Some? :: KeyOf(e)
  }

  function RolledBackHashes(history: seq<HistoryEntry>): set<Config> {
    set e | e in history && e.origin == Rollback && e.replacedHash.Some? :: e.replacedHash.value
  }

  function CoveredKeys(entries: seq<ArchiveEntry>, collected: int): set<RoundKey> {
    set r | r in RoundsOf(entries) && r.timestamp.Some? && r.timestamp.value <= collected :: r.key
  }

  function EntriesCovered(entries: seq<ArchiveEntry>, m: Measurement): seq<ArchiveEntry> {
    match m.collectedAt
    case None => entries
    case Some(ms) =>
      var keys := CoveredKeys(entries, ms);
      Filter(entries, (e: ArchiveEntry) => KeyOf(e) in keys)
  }

  function Get(c: Counts, k: string): Option<int> { if k in c then c[k] else None }

  /** The field counts that a comparison may use for this policy, in place of those
      measured under the policy in force. */
  function CandidateAnchor(current: Current, policy: Policy): Option<Counts> {
    AnchorForDefinitions(current, Keywords(policy.topics))
  }

  function AnchorForDefinitions(current: Current, defs: seq<Definition>): Option<Counts> {
    var names := NameSet(defs);
    match current.epoch.anchor
    case None => None
    case Some(anchor) =>
      match current.anchorEvidence
      case None =>
        Some(map t | t in anchor ::
          if t !in names || WordsOf(current.anchorDefinitions, t) == WordsOf(defs, t) then anchor[t] else None)
      case Some(evidence) =>
        var searched := set k | k in evidence :: BaseName(k);
        var foreign := set k | k in evidence && '@' !in k && k !in names;
        Some(map t | t in foreign + (names * searched) ::
          if t in foreign then Get(evidence, t)
          else
            match ResolveEvidenceKey(current.anchorDefinitions, t, WordsOf(defs, t))
            case Some(key) => Get(evidence, key)
            case None => None)
  }

  function ValidityUnder(policy: Policy, entries: seq<ArchiveEntry>, anchor: Option<Counts>): Option<real> {
    if anchor.None? then None
    else
      var defs := Keywords(policy.topics);
      Agreement(Names(defs), Weighted(policy.topics, DevCounts(RoundsOf(entries), defs)), anchor.value)
  }

  /** A defined validity may be neither lowered nor lost. */
  predicate ValidityRegressed(before: Option<real>, after: Option<real>) {
    before.Some? && (after.None? || after.value < before.value)
  }

  // ---- rollback ----

  /** Position of the first maximum among the defined scores. */
  function FirstBest(scores: seq<Option<real>>): (r: Option<nat>)
    ensures r.Some? ==> r.value < |scores| && scores[r.value].Some?
  {
    if scores == [] then None
    else
      var n := |scores| - 1;
      var best := FirstBest(scores[..n]);
      if scores[n].Some? && (best.None? || scores[n].value > scores[best.value].value) then Some(n) else best
  }

  function Unrejected(chain: seq<Policy>, history: seq<HistoryEntry>): seq<Policy> {
    var rejected := RolledBackHashes(history);
    Filter(chain, (p: Policy) => PolicyHash(p) !in rejected)
  }

  function CoverageScores(ps: seq<Policy>, own: seq<ArchiveEntry>): (r: seq<Option<real>>)
    ensures |r| == |ps|
  {
    seq(|ps|, i requires 0 <= i < |ps| => CoverageOn(own, ps[i]))
  }

  function ValidityScores(ps: seq<Policy>, covered: seq<ArchiveEntry>, current: Current): (r: seq<Option<real>>)
    ensures |r| == |ps|
  {
    seq(|ps|, i requires 0 <= i < |ps| => ValidityUnder(ps[i], covered, CandidateAnchor(current, ps[i])))
  }

  /** Whether the rollback check applies at all: a revision or rollback with an
      ancestor, recorded, and run for two rounds. */
  predicate Judgeable(entries: seq<ArchiveEntry>, policy: Policy, history: seq<HistoryEntry>, m: Measurement) {
    && policy.origin != Init
    && JudgedFrom(policy, history).Some?
    && Adopted(policy.version, history)
    && |RoundsUnder(entries, policy)| >= MIN_ROUNDS_TO_JUDGE
    && SnapshotFor(JudgedFrom(policy, history).value, history).Some?
    && m.current.epoch.coverage.Some?
  }

  /** The ancestors a rollback may restore, and how they and the policy score. */
  datatype Contest = Contest(
    candidates: seq<Policy>, coverages: seq<Option<real>>, validities: seq<Option<real>>,
    ownCoverage: Option<real>, ownValidity: Option<real>)
  {
    ghost predicate Valid() { |coverages| == |validities| == |candidates| }
  }

  /** Coverage on the policy's own rounds; validity on those of them that the
      evidence snapshot could have seen. */
  function ContestOf(entries: seq<ArchiveEntry>, policy: Policy, history: seq<HistoryEntry>,
                     m: Measurement): (c: Contest)
    ensures c.Valid()
  {
    var own := EntriesUnder(entries, policy);
    var covered := EntriesCovered(own, m);
    var candidates := Unrejected(UnjudgedAncestors(policy, history), history);
    Contest(candidates, CoverageScores(candidates, own), ValidityScores(candidates, covered, m.current),
            CoverageOn(own, policy), ValidityUnder(policy, covered, CandidateAnchor(m.current, policy)))
  }

  /** The parent alone, unrejected, covers the policy's own rounds better. */
  predicate WorseThanParent(entries: seq<ArchiveEntry>, policy: Policy, history: seq<HistoryEntry>, parent: Policy) {
    var own := EntriesUnder(entries, policy);
    && CoverageOn(own, parent).Some? && CoverageOn(own, policy).Some?
    && CoverageOn(own, policy).value < CoverageOn(own, parent).value
    && PolicyHash(parent) !in RolledBackHashes(history)
  }

  function Choose(c: Contest, worseThanParent: bool, parent: Policy): Option<Policy>
    requires c.Valid()
  {
    var best, bestCov := FirstBest(c.validities), FirstBest(c.coverages);
    if bestCov.Some? && c.ownCoverage.Some? && c.coverages[bestCov.value].value > c.ownCoverage.value then
      Some(c.candidates[bestCov.value])
    else if worseThanParent then Some(parent)
    else if best.Some? && (c.ownValidity.None? || c.ownValidity.value < c.validities[best.value].value) then
      Some(c.candidates[best.value])
    else None
  }

  function RollbackTarget(entries: seq<ArchiveEntry>, policy: Policy, history: seq<HistoryEntry>,
                          m: Measurement): Option<Policy> {
    if !Judgeable(entries, policy, history, m) then None
    else
      var parent := SnapshotFor(JudgedFrom(policy, history).value, history).value;
      Choose(ContestOf(entries, policy, history, m), WorseThanParent(entries, policy, history, parent), parent)
  }

  // ---- weight repair ----

  datatype Change = Added(topic: string) | Skipped | Discounted(topic: string) | Restored(topic: string) | Kept

  function Min(a: real, b: real): real { if a <= b then a else b }
  function Max(a: real, b: real): real { if a >= b then a else b }

  function DiscountedWeight(w: real): real { Max(MIN_WEIGHT, Round3(w * WEIGHT_DISCOUNT)) }
  function RestoredWeight(w: real): real { Min(1.0, Round3(w / WEIGHT_DISCOUNT)) }

  predicate Corroborated(t: Topic, anchor: Counts) {
    Get(anchor, t.name).Some? && Get(anchor, t.name).value > 0 && t.weight < 1.0
  }

  /** The weight a topic is proposed: restored when the field corroborates it,
      otherwise discounted when the field never shows it. */
  function Repaired(t: Topic, anchor: Counts, fading: seq<string>): Topic {
    if Corroborated(t, anchor) then t.(weight := RestoredWeight(t.weight))
    else if t.name in fading && DiscountedWeight(t.weight) < t.weight then t.(weight := DiscountedWeight(t.weight))
    else t
  }

  function RepairedTopics(topics: seq<Topic>, anchor: Counts, fading: seq<string>): (r: seq<Topic>)
    ensures |r| == |topics|
  {
    seq(|topics|, i requires 0 <= i < |topics| => Repaired(topics[i], anchor, fading))
  }

  function Discounts(topics: seq<Topic>, fading: seq<string>): seq<Change> {
    if fading == [] then []
    else
      var w := WeightOf(topics, fading[0]);
      (if fading[0] in Names(Keywords(topics)) && DiscountedWeight(w) < w then [Discounted(fading[0])] else [])
        + Discounts(topics, fading[1..])
  }

  function Restorations(topics: seq<Topic>, anchor: Counts): seq<Change> {
    if topics == [] then []
    else
      (if Corroborated(topics[0], anchor) then [Restored(topics[0].name)] else [])
      + Restorations(topics[1..], anchor)
  }

  function WeightRepair(policy: Policy, current: Current, entries: seq<ArchiveEntry>, discount: bool)
    : (seq<Topic>, seq<Change>) {
    match CandidateAnchor(current, policy)
    case None => (policy.topics, [])
    case Some(anchor) =>
      var stale := discount && current.roundsAfterEvidence > 0;
      var fading := if discount && !stale then current.epoch.devOnly else [];
      var topics := RepairedTopics(policy.topics, anchor, fading);
      var changes := (if stale then [Skipped] else []) + Discounts(policy.topics, fading)
        + Restorations(policy.topics, anchor);
      var candidate := policy.(topics := topics);
      if changes == [] then (policy.topics, [])
      else if ValidityRegressed(ValidityUnder(policy, entries, Some(anchor)),
                                ValidityUnder(candidate, entries, CandidateAnchor(current, candidate))) then
        (policy.topics, [Kept])
      else (topics, changes)
  }

  // ---- weight_repair's loops ----

  /** Index of the topic of this name in the policy's topics. */
  function TopicAt(topics: seq<Topic>, name: string): (r: Option<nat>)
    ensures r.Some? ==>
              && r.value < |topics| && topics[r.value].name == name
              && WeightOf(topics, name) == topics[r.value].weight
    ensures r.Some? <==> name in Names(Keywords(topics))
  {
    if topics == [] then None
    else if topics[0].name == name then
      assert Names(Keywords(topics))[0] == name;
      Some(0)
    else
      var r := TopicAt(topics[1..], name);
      assert Names(Keywords(topics)) == [topics[0].name] + Names(Keywords(topics[1..]));
      match r case Some(i) => Some(i + 1) case None => None
  }

  lemma {:induction false} DiscountsConcat(topics: seq<Topic>, a: seq<string>, b: seq<string>)
    ensures Discounts(topics, a + b) == Discounts(topics, a) + Discounts(topics, b)
  {
    if a == [] {
      EmptyConcat(b); EmptyConcat(Discounts(topics, b));
    } else {
      ConcatHead(a, b);
      DiscountsConcat(topics, a[1..], b);
      var w := WeightOf(topics, a[0]);
      var head := if a[0] in Names(Keywords(topics)) && DiscountedWeight(w) < w then [Discounted(a[0])] else [];
      Assoc(head, Discounts(topics, a[1..]), Discounts(topics, b));
    }
  }

  lemma {:induction false} RestorationsConcat(a: seq<Topic>, b: seq<Topic>, anchor: Counts)
    ensures Restorations(a + b, anchor) == Restorations(a, anchor) + Restorations(b, anchor)
  {
    if a == [] {
      EmptyConcat(b); EmptyConcat(Restorations(b, anchor));
    } else {
      ConcatHead(a, b);
      RestorationsConcat(a[1..], b, anchor);
      Assoc(if Corroborated(a[0], anchor) then [Restored(a[0].name)] else [], Restorations(a[1..], anchor),
        Restorations(b, anchor));
    }
  }

  function Faded(t: Topic, fading: seq<string>): Topic {
    if t.name in fading && DiscountedWeight(t.weight) < t.weight then t.(weight := DiscountedWeight(t.weight)) else t
  }

  ghost predicate IsFaded(faded: seq<Topic>, topics: seq<Topic>, fading: seq<string>) {
    |faded| == |topics| && forall i | 0 <= i < |topics| :: faded[i] == Faded(topics[i], fading)
  }

  lemma FadeStep(topics: seq<Topic>, faded: seq<Topic>, fading: seq<string>, topic: string, next: seq<Topic>)
    requires DistinctNames(topics) && IsFaded(faded, topics, fading)
    requires var at := TopicAt(topics, topic);
             next == if at.Some? && DiscountedWeight(topics[at.value].weight) < topics[at.value].weight
                     then faded[at.value := faded[at.value].(weight := DiscountedWeight(topics[at.value].weight))]
                     else faded
    ensures IsFaded(next, topics, fading + [topic])
  {
    var at := TopicAt(topics, topic);
    forall i | 0 <= i < |topics| ensures next[i] == Faded(topics[i], fading + [topic]) {
      assert Names(Keywords(topics))[i] == topics[i].name;
      if topics[i].name == topic { assert at.value == i; }
    }
  }

  lemma DiscountsSnoc(topics: seq<Topic>, fading: seq<string>, topic: string)
    ensures var w := WeightOf(topics, topic);
            Discounts(topics, fading + [topic]) == Discounts(topics, fading)
              + (if topic in Names(Keywords(topics)) && DiscountedWeight(w) < w then [Discounted(topic)] else [])
  {
    DiscountsConcat(topics, fading, [topic]);
    var w := WeightOf(topics, topic);
    var step := if topic in Names(Keywords(topics)) && DiscountedWeight(w) < w then [Discounted(topic)] else [];
    assert [topic][1..] == [];
    EmptyConcat(step);
  }

  /** The discount loop: in place, by name. */
  method DiscountTopics(topics: seq<Topic>, fading: seq<string>) returns (faded: seq<Topic>, changes: seq<Change>)
    requires DistinctNames(topics)
    ensures IsFaded(faded, topics, fading) && changes == Discounts(topics, fading)
  {
    faded, changes := topics, [];
    for k := 0 to |fading|
      invariant IsFaded(faded, topics, fading[..k]) && changes == Discounts(topics, fading[..k])
    {
      var topic := fading[k];
      ghost var before := faded;
      assert fading[..k + 1] == fading[..k] + [topic];
      DiscountsSnoc(topics, fading[..k], topic);
      var at := TopicAt(topics, topic);
      if at.Some? {
        var lowered := DiscountedWeight(topics[at.value].weight);
        if lowered < topics[at.value].weight {
          faded := faded[at.value := faded[at.value].(weight := lowered)];
          changes := changes + [Discounted(topic)];
        }
      }
      FadeStep(topics, before, fading[..k], topic, faded);
    }
    assert fading[..|fading|] == fading;
  }

  /** The restoration loop: in place, in anchor order, which is policy order. */
  method RestoreTopics(topics: seq<Topic>, faded: seq<Topic>, anchor: Counts, fading: seq<string>)
    returns (restored: seq<Topic>, changes: seq<Change>)
    requires IsFaded(faded, topics, fading)
    ensures restored == RepairedTopics(topics, anchor, fading) && changes == Restorations(topics, anchor)
  {
    restored, changes := faded, [];
    for i := 0 to |topics|
      invariant |restored| == |topics|
      invariant forall j | 0 <= j < i :: restored[j] == Repaired(topics[j], anchor, fading)
      invariant forall j | i <= j < |topics| :: restored[j] == faded[j]
      invariant changes == Restorations(topics[..i], anchor)
    {
      assert topics[..i + 1] == topics[..i] + [topics[i]];
      RestorationsConcat(topics[..i], [topics[i]], anchor);
      assert Restorations([topics[i]], anchor) ==
        (if Corroborated(topics[i], anchor) then [Restored(topics[i].name)] else []) + Restorations([], anchor);
      if Corroborated(topics[i], anchor) {
        restored := restored[i := restored[i].(weight := RestoredWeight(topics[i].weight))];
        changes := changes + [Restored(topics[i].name)];
      }
    }
    assert topics[..|topics|] == topics;
  }

  method RepairWeights(policy: Policy, current: Current, entries: seq<ArchiveEntry>, discount: bool)
    returns (topics: seq<Topic>, changes: seq<Change>)
    requires DistinctNames(policy.topics)
    ensures (topics, changes) == WeightRepair(policy, current, entries, discount)
  {
    var anchor := CandidateAnchor(current, policy);
    if anchor.None? { return policy.topics, []; }
    var skipped: seq<Change>, fading := [], if discount then current.epoch.devOnly else [];
    if discount && current.roundsAfterEvidence > 0 {
      skipped, fading := [Skipped], [];
    }
    var faded, discounts := DiscountTopics(policy.topics, fading);
    var restored, restorations := RestoreTopics(policy.topics, faded, anchor.value, fading);
    topics, changes := restored, skipped + discounts + restorations;
    if changes == [] { return policy.topics, []; }
    var candidate := policy.(topics := topics);
    if ValidityRegressed(ValidityUnder(policy, entries, anchor),
      ValidityUnder(candidate, entries, CandidateAnchor(current, candidate))) {
      return policy.topics, [Kept];
    }
  }

  // ---- the decision ----

  datatype Reason =
    | Waiting | Healthy | NoBoundedChange | RejectedBefore | LowersValidity | LowersCoverage | Malformed

  datatype Decision =
    | NoAction(reason: Reason)
    | Revise(policy: Policy)
    | RollBack(policy: Policy)

  /** Some recorded rollback replaced this configuration with nothing new to go on:
      its archive, and what the field showed it, are those measured now. */
  predicate RejectedConfiguration(candidate: Policy, history: seq<HistoryEntry>, m: Measurement) {
    exists i | 0 <= i < |history| ::
      && history[i].origin == Rollback && history[i].replacedHash == Some(PolicyHash(candidate))
      && history[i].archiveDigest == m.archiveDigest
      && (match history[i].evidenceDigest
          case Some(digest) => digest == m.evidenceDigest
          case None => history[i].collectedAt == m.collectedAt)
  }

  function MinedTopics(ms: seq<Mined>): (r: seq<Topic>)
    ensures |r| == |ms|
  {
    seq(|ms|, i requires 0 <= i < |ms| => Topic(ms[i].name, ms[i].keywords, 1.0, ms[i].evidence))
  }

  datatype Inputs = Inputs(env: Env, safe: set<string>, failures: seq<FieldFailure>)

  predicate CoverageTrigger(m: Measurement) {
    m.current.epoch.coverage.Some? && m.current.epoch.coverage.value < MIN_COVERAGE
  }

  predicate ValidityTrigger(m: Measurement) {
    m.current.epoch.validity.Some? && m.current.epoch.validity.value < MIN_VALIDITY
  }

  function Blind(policy: Policy, inputs: Inputs): seq<Item> {
    BlindSpots(inputs.env, inputs.failures, Keywords(policy.topics), {})
  }

  predicate FieldTrigger(policy: Policy, inputs: Inputs) {
    |Blind(policy, inputs)| >= MIN_FIELD_BLIND_SPOTS
  }

  function MinedFor(entries: seq<ArchiveEntry>, policy: Policy, m: Measurement, inputs: Inputs): seq<Mined> {
    if CoverageTrigger(m) || FieldTrigger(policy, inputs) then
      var defs := Keywords(policy.topics);
      Mine(inputs.env, m.current.epoch.unclassified + Blind(policy, inputs), defs,
           FieldVocabulary(inputs.env, entries, inputs.safe), BackgroundTokens(inputs.env, entries, defs))
    else []
  }

  function AddedChanges(ms: seq<Mined>): (r: seq<Change>)
    ensures |r| == |ms|
  {
    seq(|ms|, i requires 0 <= i < |ms| => Added(ms[i].name))
  }

  predicate Idle(changes: seq<Change>) {
    forall i | 0 <= i < |changes| :: changes[i].Kept? || changes[i].Skipped?
  }

  predicate AnyRestored(changes: seq<Change>) {
    exists i | 0 <= i < |changes| :: changes[i].Restored?
  }

  /** Topics after mining and weight repair, and what changed. */
  function Proposal(entries: seq<ArchiveEntry>, policy: Policy, m: Measurement, inputs: Inputs)
    : (seq<Topic>, seq<Change>) {
    var ms := MinedFor(entries, policy, m, inputs);
    var (topics, repairs) :=
      WeightRepair(policy.(topics := policy.topics + MinedTopics(ms)), m.current, EntriesCovered(entries, m),
        ValidityTrigger(m));
    (topics, AddedChanges(ms) + repairs)
  }

  /** Each configuration is judged on its own definitions, over the rounds that
      the evidence could have seen. */
  predicate RegressesValidity(entries: seq<ArchiveEntry>, policy: Policy, revised: Policy, m: Measurement) {
    var covered := EntriesCovered(entries, m);
    ValidityRegressed(ValidityUnder(policy, covered, CandidateAnchor(m.current, policy)),
                      ValidityUnder(revised, covered, CandidateAnchor(m.current, revised)))
  }

  function ReviseOrKeep(entries: seq<ArchiveEntry>, policy: Policy, history: seq<HistoryEntry>, m: Measurement,
                        inputs: Inputs): (d: Decision)
    ensures d.Revise? ==>
              && NewVersion(policy, Proposal(entries, policy, m, inputs).0, policy.threshold, Revision, None)
                == Some(d.policy)
              && !RejectedConfiguration(d.policy, history, m)
              && !RegressesValidity(entries, policy, d.policy, m)
              && (m.current.epoch.coverage.Some? && CoverageOn(entries, d.policy).Some? ==>
                    m.current.epoch.coverage.value <= CoverageOn(entries, d.policy).value)
    ensures !d.RollBack? && d != NoAction(Waiting)
    ensures d == NoAction(Malformed) ==>
              NewVersion(policy, Proposal(entries, policy, m, inputs).0, policy.threshold, Revision, None).None?
    ensures d == NoAction(LowersValidity) ==>
              var p := NewVersion(policy, Proposal(entries, policy, m, inputs).0, policy.threshold, Revision, None);
              p.Some? && RegressesValidity(entries, policy, p.value, m)
    ensures d == NoAction(LowersCoverage) ==>
              var p := NewVersion(policy, Proposal(entries, policy, m, inputs).0, policy.threshold, Revision, None);
              && p.Some? && m.current.epoch.coverage.Some? && CoverageOn(entries, p.value).Some?
              && CoverageOn(entries, p.value).value < m.current.epoch.coverage.value
  {
    var (topics, changes) := Proposal(entries, policy, m, inputs);
    var triggered := CoverageTrigger(m) || ValidityTrigger(m) || FieldTrigger(policy, inputs);
    if !triggered && !AnyRestored(changes) then NoAction(Healthy)
    else if Idle(changes) then NoAction(NoBoundedChange)
    else
      match NewVersion(policy, topics, policy.threshold, Revision, None)
      case None => NoAction(Malformed)
      case Some(revised) =>
        if RejectedConfiguration(revised, history, m) then NoAction(RejectedBefore)
        else if RegressesValidity(entries, policy, revised, m) then NoAction(LowersValidity)
        else
          var before, after := m.current.epoch.coverage, CoverageOn(entries, revised);
          if before.Some? && after.Some? && after.value < before.value then NoAction(LowersCoverage)
          else Revise(revised)
  }

  function Decide(entries: seq<ArchiveEntry>, policy: Policy, history: seq<HistoryEntry>, m: Measurement,
                  inputs: Inputs): Decision {
    match RollbackTarget(entries, policy, history, m)
    case Some(target) =>
      (match NewVersion(policy, target.topics, target.threshold, Rollback, Some(target.version))
       case Some(p) => RollBack(p)
       case None => NoAction(Malformed))
    case None =>
      if policy.origin != Init && |RoundsUnder(entries, policy)| < MIN_ROUNDS_TO_JUDGE then NoAction(Waiting)
      else ReviseOrKeep(entries, policy, history, m, inputs)
  }

  function HistoryRecord(decided: Policy, replaced: Policy, m: Measurement): HistoryEntry {
    HistoryEntry(decided.version, decided.parent, decided.origin, Some(PolicyHash(replaced)), replaced.version,
                 m.archiveDigest, m.collectedAt, Some(m.evidenceDigest), Some(decided))
  }

  // ---- which ancestor a rollback picks ----

  lemma {:induction false} FirstBestIsFirst(scores: seq<Option<real>>)
    ensures FirstBest(scores).None? <==> forall j | 0 <= j < |scores| :: scores[j].None?
    ensures FirstBest(scores).Some? ==>
              forall j | 0 <= j < |scores| && scores[j].Some? ::
                && scores[j].value <= scores[FirstBest(scores).value].value
                && (j < FirstBest(scores).value ==> scores[j].value < scores[FirstBest(scores).value].value)
  {
    if scores != [] {
      FirstBestIsFirst(scores[..|scores| - 1]);
    }
  }

  /** The i-th score is the first maximum and beats the bar. */
  ghost predicate FirstMaximum(scores: seq<Option<real>>, i: nat) {
    && i < |scores| && scores[i].Some?
    && forall j | 0 <= j < |scores| && scores[j].Some? ::
         scores[j].value <= scores[i].value && (j < i ==> scores[j].value < scores[i].value)
  }

  /** Some candidate scores above own; an undefined own is beaten only if lenient. */
  ghost predicate Beaten(scores: seq<Option<real>>, own: Option<real>, lenient: bool) {
    exists j | 0 <= j < |scores| :: scores[j].Some? && (if own.Some? then scores[j].value > own.value else lenient)
  }

  lemma BeatenByBest(scores: seq<Option<real>>, own: Option<real>, lenient: bool)
    ensures Beaten(scores, own, lenient) <==>
              FirstBest(scores).Some?
              && (if own.Some? then scores[FirstBest(scores).value].value > own.value else lenient)
    ensures FirstBest(scores).Some? ==> FirstMaximum(scores, FirstBest(scores).value)
  {
    FirstBestIsFirst(scores);
  }

  lemma ParentHeadsTheChain(policy: Policy, history: seq<HistoryEntry>)
    requires JudgedFrom(policy, history).Some? && SnapshotFor(JudgedFrom(policy, history).value, history).Some?
    ensures UnjudgedAncestors(policy, history) != []
    ensures UnjudgedAncestors(policy, history)[0] == SnapshotFor(JudgedFrom(policy, history).value, history).value
  {
  }

  lemma UnrejectedMember(chain: seq<Policy>, history: seq<HistoryEntry>, p: Policy)
    ensures p in Unrejected(chain, history) <==> p in chain && PolicyHash(p) !in RolledBackHashes(history)
  {
    var rejected := RolledBackHashes(history);
    FilterMember(chain, (q: Policy) => PolicyHash(q) !in rejected, p);
  }

  /** A parent that scores higher is itself a candidate that scores higher, so
      the parent-only test never decides alone. */
  lemma WorseThanParentIsBeaten(entries: seq<ArchiveEntry>, policy: Policy, history: seq<HistoryEntry>, m: Measurement)
    requires Judgeable(entries, policy, history, m)
    requires WorseThanParent(entries, policy, history, SnapshotFor(JudgedFrom(policy, history).value, history).value)
    ensures var c := ContestOf(entries, policy, history, m); Beaten(c.coverages, c.ownCoverage, false)
  {
    var parent := SnapshotFor(JudgedFrom(policy, history).value, history).value;
    var c := ContestOf(entries, policy, history, m);
    ParentHeadsTheChain(policy, history);
    UnrejectedMember(UnjudgedAncestors(policy, history), history, parent);
    var i :| 0 <= i < |c.candidates| && c.candidates[i] == parent;
    assert c.coverages[i] == CoverageOn(EntriesUnder(entries, policy), parent);
  }

  /** A rollback happens exactly when the policy may be judged and some ancestor
      no rollback has rejected beats it: on coverage of its own rounds, or on
      validity when no coverage beats it. It restores the first best one. */
  lemma RollbackPicksTheBest(entries: seq<ArchiveEntry>, policy: Policy, history: seq<HistoryEntry>, m: Measurement)
    ensures var c, target := ContestOf(entries, policy, history, m), RollbackTarget(entries, policy, history, m);
            && (target.Some? <==>
                  && Judgeable(entries, policy, history, m)
                  && (Beaten(c.coverages, c.ownCoverage, false) || Beaten(c.validities, c.ownValidity, true)))
            && (target.Some? && Beaten(c.coverages, c.ownCoverage, false) ==>
                  exists i: nat :: FirstMaximum(c.coverages, i) && i < |c.candidates|
                    && target == Some(c.candidates[i]))
            && (target.Some? && !Beaten(c.coverages, c.ownCoverage, false) ==>
                  exists i: nat :: FirstMaximum(c.validities, i) && i < |c.candidates|
                    && target == Some(c.candidates[i]))
  {
    if Judgeable(entries, policy, history, m) {
      var c := ContestOf(entries, policy, history, m);
      TargetIsWinner(entries, policy, history, m);
      BeatenByBest(c.coverages, c.ownCoverage, false);
      BeatenByBest(c.validities, c.ownValidity, true);
    }
  }

  ghost function Winner(c: Contest): Option<Policy>
    requires c.Valid()
  {
    if Beaten(c.coverages, c.ownCoverage, false) && FirstBest(c.coverages).Some? then
      Some(c.candidates[FirstBest(c.coverages).value])
    else if Beaten(c.validities, c.ownValidity, true) && FirstBest(c.validities).Some? then
      Some(c.candidates[FirstBest(c.validities).value])
    else None
  }

  lemma ChoiceIsWinner(c: Contest, worseThanParent: bool, parent: Policy)
    requires c.Valid() && (worseThanParent ==> Beaten(c.coverages, c.ownCoverage, false))
    ensures Choose(c, worseThanParent, parent) == Winner(c)
  {
    BeatenByBest(c.coverages, c.ownCoverage, false);
    BeatenByBest(c.validities, c.ownValidity, true);
  }

  lemma TargetIsWinner(entries: seq<ArchiveEntry>, policy: Policy, history: seq<HistoryEntry>, m: Measurement)
    requires Judgeable(entries, policy, history, m)
    ensures RollbackTarget(entries, policy, history, m) == Winner(ContestOf(entries, policy, history, m))
  {
    var parent := SnapshotFor(JudgedFrom(policy, history).value, history).value;
    var worse := WorseThanParent(entries, policy, history, parent);
    if worse { WorseThanParentIsBeaten(entries, policy, history, m); }
    ChoiceIsWinner(ContestOf(entries, policy, history, m), worse, parent);
  }

  /** The restored configuration was never rejected and is not the current one. */
  lemma TargetIsUnrejected(entries: seq<ArchiveEntry>, policy: Policy, history: seq<HistoryEntry>, m: Measurement)
    requires RollbackTarget(entries, policy, history, m).Some?
    ensures var t := RollbackTarget(entries, policy, history, m).value;
            && t in UnjudgedAncestors(policy, history)
            && PolicyHash(t) !in RolledBackHashes(history) && PolicyHash(t) != PolicyHash(policy)
  {
    var t := RollbackTarget(entries, policy, history, m).value;
    var c := ContestOf(entries, policy, history, m);
    RollbackPicksTheBest(entries, policy, history, m);
    assert t in c.candidates;
    UnrejectedMember(UnjudgedAncestors(policy, history), history, t);
    SameConfigSameScores(entries, policy, history, m, t);
  }

  lemma SameHashSameTopics(p: Policy, q: Policy)
    requires PolicyHash(p) == PolicyHash(q)
    ensures Keywords(p.topics) == Keywords(q.topics) && p.threshold == q.threshold
    ensures |p.topics| == |q.topics| && forall i | 0 <= i < |p.topics| ::
              p.topics[i].name == q.topics[i].name && p.topics[i].weight == q.topics[i].weight
  {
    var a, b := PolicyHash(p).topics, PolicyHash(q).topics;
    assert |a| == |b|;
    forall i | 0 <= i < |p.topics|
      ensures Definition(p.topics[i].name, p.topics[i].keywords) == Definition(q.topics[i].name, q.topics[i].keywords)
      ensures p.topics[i].weight == q.topics[i].weight
    {
      assert a[i] == b[i];
    }
  }

  lemma {:induction false} SameWeights(a: seq<Topic>, b: seq<Topic>, name: string)
    requires |a| == |b| && forall i | 0 <= i < |a| :: a[i].name == b[i].name && a[i].weight == b[i].weight
    ensures WeightOf(a, name) == WeightOf(b, name)
  {
    if a != [] { SameWeights(a[1..], b[1..], name); }
  }

  lemma SameWeightedSignal(a: seq<Topic>, b: seq<Topic>, dev: map<string, nat>)
    requires |a| == |b| && forall i | 0 <= i < |a| :: a[i].name == b[i].name && a[i].weight == b[i].weight
    ensures Weighted(a, dev) == Weighted(b, dev)
  {
    forall t | t in dev ensures Credit(dev[t], WeightOf(a, t)) == Credit(dev[t], WeightOf(b, t)) {
      SameWeights(a, b, t);
    }
  }

  lemma SameHashSameSignal(p: Policy, q: Policy, entries: seq<ArchiveEntry>, current: Current)
    requires PolicyHash(p) == PolicyHash(q)
    ensures CoverageOn(entries, p) == CoverageOn(entries, q)
    ensures ValidityUnder(p, entries, CandidateAnchor(current, p))
            == ValidityUnder(q, entries, CandidateAnchor(current, q))
  {
    SameHashSameTopics(p, q);
    SameWeightedSignal(p.topics, q.topics, DevCounts(RoundsOf(entries), Keywords(p.topics)));
  }

  lemma SameConfigSameScores(entries: seq<ArchiveEntry>, policy: Policy, history: seq<HistoryEntry>, m: Measurement,
                             t: Policy)
    requires RollbackTarget(entries, policy, history, m) == Some(t)
    ensures PolicyHash(t) != PolicyHash(policy)
  {
    var own := EntriesUnder(entries, policy);
    RollbackPicksTheBest(entries, policy, history, m);
    var c := ContestOf(entries, policy, history, m);
    var i := WinnerScores(c, t);
    if PolicyHash(t) == PolicyHash(policy) {
      SameHashSameSignal(t, policy, own, m.current);
      SameHashSameSignal(t, policy, EntriesCovered(own, m), m.current);
    }
  }

  /** Where the restored ancestor stands, and that it beats the current policy there. */
  lemma WinnerScores(c: Contest, t: Policy) returns (i: nat)
    requires c.Valid()
    requires Beaten(c.coverages, c.ownCoverage, false) || Beaten(c.validities, c.ownValidity, true)
    requires Beaten(c.coverages, c.ownCoverage, false) ==>
               exists i: nat :: FirstMaximum(c.coverages, i) && i < |c.candidates| && t == c.candidates[i]
    requires !Beaten(c.coverages, c.ownCoverage, false) ==>
               exists i: nat :: FirstMaximum(c.validities, i) && i < |c.candidates| && t == c.candidates[i]
    ensures i < |c.candidates| && t == c.candidates[i]
    ensures c.coverages[i] != c.ownCoverage || c.validities[i] != c.ownValidity
  {
    if Beaten(c.coverages, c.ownCoverage, false) {
      i :| FirstMaximum(c.coverages, i) && i < |c.candidates| && t == c.candidates[i];
    } else {
      i :| FirstMaximum(c.validities, i) && i < |c.candidates| && t == c.candidates[i];
    }
  }

  // ---- what a revision may change ----

  /** The only weights reachable from 1 by discounting and restoring. */
  predicate StandardWeight(w: real) { w == 1.0 || w == 0.5 || w == 0.25 }

  predicate StandardWeights(topics: seq<Topic>) { forall i | 0 <= i < |topics| :: StandardWeight(topics[i].weight) }

  lemma HalvingAndDoubling()
    ensures DiscountedWeight(1.0) == 0.5 && DiscountedWeight(0.5) == 0.25 && DiscountedWeight(0.25) == 0.25
    ensures RestoredWeight(0.5) == 1.0 && RestoredWeight(0.25) == 0.5
  {
    assert NearestInt(125.0) == 125;
  }

  lemma RepairKeepsStandard(t: Topic, anchor: Counts, fading: seq<string>)
    requires StandardWeight(t.weight)
    ensures StandardWeight(Repaired(t, anchor, fading).weight)
  {
    HalvingAndDoubling();
  }

  /** Same topics in the same order; only weights may differ. */
  predicate SameTaxonomy(a: seq<Topic>, b: seq<Topic>) {
    |a| == |b| && forall i | 0 <= i < |a| ::
      a[i].name == b[i].name && a[i].keywords == b[i].keywords && a[i].minedFrom == b[i].minedFrom
  }

  lemma WeightRepairKeepsTaxonomy(policy: Policy, current: Current, entries: seq<ArchiveEntry>, discount: bool)
    ensures SameTaxonomy(WeightRepair(policy, current, entries, discount).0, policy.topics)
    ensures StandardWeights(policy.topics) ==> StandardWeights(WeightRepair(policy, current, entries, discount).0)
  {
    match CandidateAnchor(current, policy)
    case None =>
    case Some(anchor) =>
      var stale := discount && current.roundsAfterEvidence > 0;
      var fading := if discount && !stale then current.epoch.devOnly else [];
      RepairedIsSame(policy.topics, anchor, fading);
  }

  lemma RepairedIsSame(topics: seq<Topic>, anchor: Counts, fading: seq<string>)
    ensures SameTaxonomy(RepairedTopics(topics, anchor, fading), topics)
    ensures StandardWeights(topics) ==> StandardWeights(RepairedTopics(topics, anchor, fading))
  {
    var r := RepairedTopics(topics, anchor, fading);
    forall i | 0 <= i < |topics| && StandardWeights(topics) ensures StandardWeight(r[i].weight) {
      RepairKeepsStandard(topics[i], anchor, fading);
    }
  }

  lemma RepairKeepsValidity(policy: Policy, current: Current, entries: seq<ArchiveEntry>, discount: bool)
    ensures var repaired := policy.(topics := WeightRepair(policy, current, entries, discount).0);
            !ValidityRegressed(ValidityUnder(policy, entries, CandidateAnchor(current, policy)),
                               ValidityUnder(repaired, entries, CandidateAnchor(current, repaired)))
  {
    assert policy.(topics := policy.topics) == policy;
  }

  /** The policy with its mined topics and no weight touched. */
  function Widened(entries: seq<ArchiveEntry>, policy: Policy, m: Measurement, inputs: Inputs): Policy {
    policy.(topics := policy.topics + MinedTopics(MinedFor(entries, policy, m, inputs)))
  }

  lemma WidenedByNothing(entries: seq<ArchiveEntry>, policy: Policy, m: Measurement, inputs: Inputs)
    ensures MinedFor(entries, policy, m, inputs) == [] ==> Widened(entries, policy, m, inputs) == policy
  {
    EmptyConcat(policy.topics);
  }

  lemma ProposalKeepsWidened(entries: seq<ArchiveEntry>, policy: Policy, m: Measurement, inputs: Inputs, p: Policy)
    requires p.topics == Proposal(entries, policy, m, inputs).0
    ensures !RegressesValidity(entries, Widened(entries, policy, m, inputs), p, m)
  {
    RepairKeepsValidity(Widened(entries, policy, m, inputs), m.current, EntriesCovered(entries, m), ValidityTrigger(m));
  }

  lemma RegressionIsTransitive(entries: seq<ArchiveEntry>, p: Policy, q: Policy, r: Policy, m: Measurement)
    requires RegressesValidity(entries, p, r, m) && !RegressesValidity(entries, q, r, m)
    ensures RegressesValidity(entries, p, q, m)
  {
  }

  /** Weight repair is never to blame: a proposal is refused for its validity only
      if something was mined, and the mined topics alone would lower it. */
  lemma RefusedForMinedTopics(entries: seq<ArchiveEntry>, policy: Policy, history: seq<HistoryEntry>, m: Measurement,
                              inputs: Inputs)
    requires Decide(entries, policy, history, m, inputs) == NoAction(LowersValidity)
    ensures MinedFor(entries, policy, m, inputs) != []
    ensures RegressesValidity(entries, policy, Widened(entries, policy, m, inputs), m)
  {
    var w := Widened(entries, policy, m, inputs);
    var p := NewVersion(policy, Proposal(entries, policy, m, inputs).0, policy.threshold, Revision, None).value;
    ProposalKeepsWidened(entries, policy, m, inputs, p);
    RegressionIsTransitive(entries, policy, w, p, m);
    WidenedByNothing(entries, policy, m, inputs);
  }

  /** Weights follow the field: a topic it corroborates is doubled, a topic credited
      in reviews but never seen in it is halved down to 1/4, the rest stay. */
  lemma WeightsFollowTheField(topics: seq<Topic>, anchor: Counts, fading: seq<string>, i: nat)
    requires StandardWeights(topics) && i < |topics|
    ensures var w, after := topics[i].weight, RepairedTopics(topics, anchor, fading)[i].weight;
            && (after > w <==> w < 1.0 && Get(anchor, topics[i].name).Some? && Get(anchor, topics[i].name).value > 0)
            && (after < w <==> w > 0.25 && topics[i].name in fading && !Corroborated(topics[i], anchor))
            && (after > w ==> after == 2.0 * w) && (after < w ==> after == w / 2.0)
  {
    HalvingAndDoubling();
    assert StandardWeight(topics[i].weight);
  }

  /** Where a measurement keeps the counts of what was searched: measurements in
      the older format have only those of the measured topics. */
  function Searched(current: Current): Counts
    requires current.epoch.anchor.Some?
  {
    if current.anchorEvidence.Some? then current.anchorEvidence.value else current.epoch.anchor.value
  }

  /** A candidate's topic is judged by counts searched under exactly its own
      keywords, or is unknown; never by another definition of the same name. */
  lemma AnchorIsOwnDefinition(current: Current, policy: Policy, i: nat)
    requires current.epoch.anchor.Some? && ValidPolicy(policy) && i < |policy.topics|
    requires Definitions.DistinctKeys(current.anchorDefinitions)
    ensures var anchor, t, defs := CandidateAnchor(current, policy).value, policy.topics[i], current.anchorDefinitions;
            t.name in anchor && anchor[t.name].Some? ==>
              exists key | key in Searched(current) ::
                && BaseName(key) == t.name && Definitions.HasKey(defs, key) && WordsOf(defs, key) == t.keywords
                && Searched(current)[key] == anchor[t.name]
  {
    var t, defs := policy.topics[i], current.anchorDefinitions;
    var own := Keywords(policy.topics);
    assert ValidTopic(t) && own[i].name == t.name;
    assert t.name in NameSet(own);
    OwnWords(policy.topics, i);
    if current.anchorEvidence.Some? {
      Definitions.ResolvesExactly(defs, t.name, t.keywords);
    } else {
      Definitions.BaseOfPlain(t.name);
      if !Definitions.HasKey(defs, t.name) { Definitions.WordsOfAbsent(defs, t.name); }
    }
  }

  /** Conversely a definition that was searched is known: a topic whose name and words
      are recorded has the count of a key of just that name and those words. Older
      measurements know the plain name only. */
  lemma AnchorKnowsItsOwn(current: Current, policy: Policy, i: nat)
    requires current.epoch.anchor.Some? && ValidPolicy(policy) && i < |policy.topics|
    requires Definitions.DistinctKeys(current.anchorDefinitions)
    requires forall d | d in current.anchorDefinitions :: d.name in Searched(current)
    requires var t := policy.topics[i];
             if current.anchorEvidence.Some? then Definitions.Recorded(current.anchorDefinitions, t.name, t.keywords)
             else WordsOf(current.anchorDefinitions, t.name) == t.keywords
    ensures var anchor, t, defs := CandidateAnchor(current, policy).value, policy.topics[i], current.anchorDefinitions;
            && t.name in anchor
            && exists key | key in Searched(current) ::
                 && BaseName(key) == t.name && Definitions.HasKey(defs, key) && WordsOf(defs, key) == t.keywords
                 && Searched(current)[key] == anchor[t.name]
  {
    var t, defs := policy.topics[i], current.anchorDefinitions;
    var own := Keywords(policy.topics);
    assert ValidTopic(t) && own[i].name == t.name;
    assert t.name in NameSet(own);
    OwnWords(policy.topics, i);
    if current.anchorEvidence.Some? {
      Definitions.ResolvesExactly(defs, t.name, t.keywords);
      var key := ResolveEvidenceKey(defs, t.name, t.keywords).value;
      var j :| 0 <= j < |defs| && defs[j].name == key;
      assert defs[j] in defs;
    } else {
      Definitions.BaseOfPlain(t.name);
      if !Definitions.HasKey(defs, t.name) { Definitions.WordsOfAbsent(defs, t.name); }
      var j :| 0 <= j < |defs| && defs[j].name == t.name;
      assert defs[j] in defs;
    }
  }

  lemma {:induction false} OwnWords(topics: seq<Topic>, i: nat)
    requires DistinctNames(topics) && i < |topics|
    ensures WordsOf(Keywords(topics), topics[i].name) == topics[i].keywords
  {
    var defs := Keywords(topics);
    forall j, k | 0 <= j < k < |defs| ensures defs[j].name != defs[k].name {
      assert topics[j].name != topics[k].name;
    }
    Definitions.WordsOfKey(defs, i);
  }

  /** What a revision of this policy would put in force. */
  lemma ProposalFacts(entries: seq<ArchiveEntry>, policy: Policy, m: Measurement, inputs: Inputs)
    ensures var ms, topics := MinedFor(entries, policy, m, inputs), Proposal(entries, policy, m, inputs).0;
            && SameTaxonomy(topics, policy.topics + MinedTopics(ms))
            && Keywords(topics) == Keywords(policy.topics) + DefsOf(ms)
            && (StandardWeights(policy.topics) ==> StandardWeights(topics))
  {
    var ms := MinedFor(entries, policy, m, inputs);
    var widened := policy.(topics := policy.topics + MinedTopics(ms));
    WeightRepairKeepsTaxonomy(widened, m.current, EntriesCovered(entries, m), ValidityTrigger(m));
    TaxonomyKeywords(policy.topics, ms, Proposal(entries, policy, m, inputs).0);
    if StandardWeights(policy.topics) { assert StandardWeights(widened.topics); }
  }

  lemma TaxonomyKeywords(topics: seq<Topic>, ms: seq<Mined>, after: seq<Topic>)
    requires SameTaxonomy(after, topics + MinedTopics(ms))
    ensures Keywords(after) == Keywords(topics) + DefsOf(ms)
  {
    var k := Keywords(topics) + DefsOf(ms);
    forall i | 0 <= i < |after| ensures Keywords(after)[i] == k[i] {
      if i >= |topics| { assert (topics + MinedTopics(ms))[i] == MinedTopics(ms)[i - |topics|]; }
    }
  }

  /** All that the guards leave of a revision, for the theorems about runs. */
  lemma RevisionFacts(entries: seq<ArchiveEntry>, policy: Policy, history: seq<HistoryEntry>, m: Measurement,
                      inputs: Inputs)
    requires Decide(entries, policy, history, m, inputs).Revise?
    ensures var p := Decide(entries, policy, history, m, inputs).policy;
            && NewVersion(policy, Proposal(entries, policy, m, inputs).0, policy.threshold, Revision, None) == Some(p)
            && !RejectedConfiguration(p, history, m)
            && (policy.origin != Init ==> |RoundsUnder(entries, policy)| >= MIN_ROUNDS_TO_JUDGE)
            && !RegressesValidity(entries, policy, p, m)
            && (m.current.epoch.coverage.Some? && CoverageOn(entries, p).Some? ==>
                  m.current.epoch.coverage.value <= CoverageOn(entries, p).value)
  {
  }

  lemma RollBackFacts(entries: seq<ArchiveEntry>, policy: Policy, history: seq<HistoryEntry>, m: Measurement,
                      inputs: Inputs) returns (t: Policy)
    requires Decide(entries, policy, history, m, inputs).RollBack?
    ensures RollbackTarget(entries, policy, history, m) == Some(t)
    ensures NewVersion(policy, t.topics, t.threshold, Rollback, Some(t.version))
            == Some(Decide(entries, policy, history, m, inputs).policy)
    ensures JudgedFrom(policy, history).Some? && policy.origin != Init
    ensures |RoundsUnder(entries, policy)| >= MIN_ROUNDS_TO_JUDGE
  {
    t := RollbackTarget(entries, policy, history, m).value;
  }

  // ---- the decision never builds a malformed policy ----

  lemma ProposalIsValid(entries: seq<ArchiveEntry>, policy: Policy, m: Measurement, inputs: Inputs)
    requires ValidPolicy(policy) && StandardWeights(policy.topics) && WellFormed(inputs.env)
    ensures NewVersion(policy, Proposal(entries, policy, m, inputs).0, policy.threshold, Revision, None).Some?
  {
    var ms := MinedFor(entries, policy, m, inputs);
    ProposalFacts(entries, policy, m, inputs);
    MinedForFacts(entries, policy, m, inputs);
    ExtendedIsValid(policy.topics, ms, Proposal(entries, policy, m, inputs).0);
  }

  lemma MinedForFacts(entries: seq<ArchiveEntry>, policy: Policy, m: Measurement, inputs: Inputs)
    requires WellFormed(inputs.env)
    ensures WellNamed(MinedFor(entries, policy, m, inputs))
    ensures NamesApart(MinedFor(entries, policy, m, inputs), NameSet(Keywords(policy.topics)))
  {
    var defs := Keywords(policy.topics);
    var items := m.current.epoch.unclassified + Blind(policy, inputs);
    var vocabulary, background := FieldVocabulary(inputs.env, entries, inputs.safe),
      BackgroundTokens(inputs.env, entries, defs);
    MinedAreValid(inputs.env, items, defs, vocabulary, background);
    MiningIsBoundedAndSeparated(inputs.env, items, defs, vocabulary, background);
  }

  lemma ExtendedIsValid(topics: seq<Topic>, ms: seq<Mined>, after: seq<Topic>)
    requires topics != [] && DistinctNames(topics) && (forall i | 0 <= i < |topics| :: ValidTopic(topics[i]))
    requires WellNamed(ms) && NamesApart(ms, NameSet(Keywords(topics)))
    requires SameTaxonomy(after, topics + MinedTopics(ms)) && StandardWeights(after)
    ensures after != [] && DistinctNames(after) && forall i | 0 <= i < |after| :: ValidTopic(after[i])
  {
    var all := topics + MinedTopics(ms);
    forall i | 0 <= i < |after| ensures ValidTopic(after[i]) {
      assert after[i].name == all[i].name && after[i].keywords == all[i].keywords && StandardWeight(after[i].weight);
      if i >= |topics| {
        var k := i - |topics|;
        assert all[i] == MinedTopics(ms)[k];
        forall j | 0 <= j < |ms[k].keywords|
          ensures ms[k].keywords[j] != "" { assert ms[k].keywords[j] in ms[k].keywords; }
      }
    }
    forall i, j | 0 <= i < j < |after| ensures after[i].name != after[j].name {
      assert after[i].name == all[i].name && after[j].name == all[j].name;
      if j >= |topics| {
        var k := j - |topics|;
        assert all[j] == MinedTopics(ms)[k];
        if i < |topics| {
          assert Keywords(topics)[i].name in NameSet(Keywords(topics));
        } else {
          assert all[i] == MinedTopics(ms)[i - |topics|];
        }
      }
    }
  }
}
