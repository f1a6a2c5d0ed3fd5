/** Whole runs of the improvement loop from the builtin policy: the archive
    grows, and decisions are applied to the policy and its history. */
module Runs {
  import opened Text
  import opened Records
  import opened Sorting
  import opened ImprovementPolicy
  import opened Rounds
  import opened Measuring
  import opened Mining
  import opened Revising
  import opened Meaning
  import Definitions

  datatype State = State(archive: seq<ArchiveEntry>, policy: Policy, history: seq<HistoryEntry>)

  datatype Step =
    | Grow(entries: seq<ArchiveEntry>)            // anything appended to the archive
    | Reconsider(m: Measurement, inputs: Inputs)  // one invocation of the script

  /** main: refuse a policy that is malformed or not its history's last record,
      and a measurement of another policy or archive; otherwise decide, append
      the record, and put the decided policy in force. */
  function Apply(s: State, step: Step): State {
    match step
    case Grow(entries) => s.(archive := s.archive + entries)
    case Reconsider(m, inputs) =>
      if !ValidPolicy(s.policy) || !MatchesHistory(s.policy, s.history) then s
      else if m.policyHash != PolicyHash(s.policy) || m.archiveDigest != s.archive then s
      else
        match Decide(s.archive, s.policy, s.history, m, inputs)
        case NoAction(_) => s
        case Revise(p) => s.(policy := p, history := s.history + [HistoryRecord(p, s.policy, m)])
        case RollBack(p) => s.(policy := p, history := s.history + [HistoryRecord(p, s.policy, m)])
  }

  /** The three files the loop keeps: main appends the record first and then
      replaces the policy. */
  class PolicyFiles {
    var archive: seq<ArchiveEntry>
    var policy: Policy
    var history: seq<HistoryEntry>

    function Contents(): State
      reads this
    {
      State(archive, policy, history)
    }

    constructor (initial: seq<ArchiveEntry>)
      ensures Contents() == Start(initial)
    {
      archive, policy, history := initial, BuiltinPolicy(), [];
    }

    method Reconsider(m: Measurement, inputs: Inputs) returns (decision: Option<Decision>)
      modifies this`policy, this`history
      ensures Contents() == Apply(old(Contents()), Step.Reconsider(m, inputs))
      ensures decision.Some? ==> decision.value == Decide(archive, old(policy), old(history), m, inputs)
      ensures decision.None? ==> Contents() == old(Contents())
    {
      if !ValidPolicy(policy) || !MatchesHistory(policy, history) { return None; }
      if m.policyHash != PolicyHash(policy) || m.archiveDigest != archive { return None; }
      var d := Decide(archive, policy, history, m, inputs);
      if !d.NoAction? {
        history := history + [HistoryRecord(d.policy, policy, m)];
        policy := d.policy;
      }
      decision := Some(d);
    }
  }

  function Run(s: State, steps: seq<Step>): State
    decreases |steps|
  {
    if steps == [] then s else Run(Apply(s, steps[0]), steps[1..])
  }

  function Start(archive: seq<ArchiveEntry>): State { State(archive, BuiltinPolicy(), []) }

  /** Tokens have the tokenizer's shape in every invocation. */
  ghost predicate Tokenized(steps: seq<Step>) {
    forall i | 0 <= i < |steps| && steps[i].Reconsider? :: WellFormed(steps[i].inputs.env)
  }

  // ---- lineage ----

  /** The policy of a version: the builtin root, or the recorded snapshot. */
  function Snap(h: seq<HistoryEntry>, v: int): Policy {
    if 2 <= v <= |h| + 1 && h[v - 2].policy.Some? then h[v - 2].policy.value else BuiltinPolicy()
  }

  /** Where version v's ancestry continues. */
  function Base(h: seq<HistoryEntry>, v: int): Option<int> {
    var p := Snap(h, v);
    if p.origin == Rollback then (if p.restored.None? then None else Snap(h, p.restored.value).parent) else p.parent
  }

  ghost predicate GoodPolicy(p: Policy) {
    && ValidPolicy(p) && p.threshold == BUILTIN_THRESHOLD && StandardWeights(p.topics)
    && BUILTIN_TOPIC_KEYWORDS <= Keywords(p.topics)
  }

  /** Record i is version i + 2, made from version i + 1. */
  ghost predicate RecordOk(h: seq<HistoryEntry>, i: nat)
    requires i < |h|
  {
    var e, p := h[i], Snap(h, i + 2);
    && e.version == i + 2 && e.policy.Some? && e.origin == p.origin
    && p.version == i + 2 && p.parent == Some(i + 1) && p.origin != Init
    && e.replacedHash == Some(PolicyHash(Snap(h, i + 1))) && e.replacedVersion == i + 1
    && GoodPolicy(p)
  }

  /** A rollback restores an older version from which its predecessor descends,
      verbatim, and one that no rollback up to and including it has rejected. */
  ghost predicate RestoreOk(h: seq<HistoryEntry>, i: nat)
    requires i < |h|
  {
    var p := Snap(h, i + 2);
    p.origin == Rollback ==>
      && p.restored.Some? && Base(h, i + 1).Some?
      && 1 <= p.restored.value <= Base(h, i + 1).value
      && PolicyHash(p) == PolicyHash(Snap(h, p.restored.value))
      && PolicyHash(p) !in RolledBackHashes(h[..i + 1])
  }

  /** A revision extends its parent, and is not a configuration that an earlier
      rollback rejected on the same archive and evidence. */
  ghost predicate ReviseOk(h: seq<HistoryEntry>, i: nat)
    requires i < |h|
  {
    var p := Snap(h, i + 2);
    p.origin == Revision ==>
      && Keywords(Snap(h, i + 1).topics) <= Keywords(p.topics)
      && forall j | 0 <= j < i && h[j].origin == Rollback && h[j].replacedHash == Some(PolicyHash(p)) ::
           h[j].archiveDigest != h[i].archiveDigest || h[j].evidenceDigest != h[i].evidenceDigest
  }

  ghost predicate Lineage(h: seq<HistoryEntry>) {
    forall i: nat | i < |h| :: RecordOk(h, i) && RestoreOk(h, i) && ReviseOk(h, i)
  }

  /** Two rounds ran under every version before the one in force, the root apart. */
  ghost predicate Waited(s: State) {
    forall v | 2 <= v <= |s.history| :: |RoundsUnder(s.archive, Snap(s.history, v))| >= MIN_ROUNDS_TO_JUDGE
  }

  ghost predicate Inv(s: State) {
    && Lineage(s.history)
    && s.policy == Snap(s.history, |s.history| + 1)
    && Waited(s)
    && (forall i | 0 <= i < |s.history| :: s.history[i].evidenceDigest.Some?)
  }

  // ---- consequences of lineage ----

  lemma RootIsGood()
    ensures GoodPolicy(BuiltinPolicy())
  {
    BuiltinIsValid();
  }

  lemma SnapIsGood(h: seq<HistoryEntry>, v: int)
    requires Lineage(h) && 1 <= v <= |h| + 1
    ensures GoodPolicy(Snap(h, v)) && Snap(h, v).version == v
    ensures v == 1 ==> Snap(h, v).parent == None && Snap(h, v).origin == Init
    ensures v >= 2 ==> Snap(h, v).parent == Some(v - 1) && Snap(h, v).origin != Init
  {
    RootIsGood();
    if v >= 2 { assert RecordOk(h, v - 2); }
  }

  /** Every version up to the current one is found, and no other. */
  lemma {:induction false} EverySnapshotIsFound(h: seq<HistoryEntry>, v: int)
    requires Lineage(h)
    ensures SnapshotFor(v, h) == if 1 <= v <= |h| + 1 then Some(Snap(h, v)) else None
  {
    SnapshotAmongFirst(h, v, |h|);
    assert h[..|h|] == h;
  }

  lemma {:induction false} SnapshotAmongFirst(h: seq<HistoryEntry>, v: int, n: nat)
    requires Lineage(h) && n <= |h|
    ensures SnapshotFor(v, h[..n]) == if 1 <= v <= n + 1 then Some(Snap(h, v)) else None
  {
    if n > 0 {
      assert RecordOk(h, n - 1);
      assert h[..n][|h[..n]| - 1] == h[n - 1] && h[..n][..n - 1] == h[..n - 1];
      SnapshotAmongFirst(h, v, n - 1);
    }
  }

  lemma BaseIsJudgedFrom(h: seq<HistoryEntry>, v: int)
    requires Lineage(h) && 1 <= v <= |h| + 1
    ensures JudgedFrom(Snap(h, v), h) == Base(h, v)
    ensures Base(h, v).Some? ==> 1 <= Base(h, v).value < v
    ensures Base(h, v).None? <==> v == 1 || (Snap(h, v).origin == Rollback && Snap(h, v).restored == Some(1))
  {
    SnapIsGood(h, v);
    if v >= 2 && Snap(h, v).origin == Rollback {
      RestoredIsOlder(h, v);
      var r := Snap(h, v).restored.value;
      SnapIsGood(h, r);
      EverySnapshotIsFound(h, r);
    }
  }

  lemma {:induction false} RestoredIsOlder(h: seq<HistoryEntry>, v: int)
    requires Lineage(h) && 2 <= v <= |h| + 1 && Snap(h, v).origin == Rollback
    ensures Snap(h, v).restored.Some? && 1 <= Snap(h, v).restored.value < v - 1
    decreases v
  {
    assert RestoreOk(h, v - 2);
    SnapIsGood(h, v - 1);
    if Snap(h, v - 1).origin == Rollback {
      RestoredIsOlder(h, v - 1);
      SnapIsGood(h, Snap(h, v - 1).restored.value);
    }
  }

  /** The ancestor chain: snapshots of strictly falling versions from v down,
      ending only where the ancestry itself ends. */
  ghost predicate Descending(h: seq<HistoryEntry>, chain: seq<Policy>, v: int) {
    && (forall k | 0 <= k < |chain| :: 1 <= chain[k].version <= v && chain[k] == Snap(h, chain[k].version))
    && (forall j, k | 0 <= j < k < |chain| :: chain[j].version > chain[k].version)
  }

  lemma {:induction false} ChainDescends(h: seq<HistoryEntry>, v: int, seen: set<int>)
    requires Lineage(h) && 1 <= v <= |h| + 1 && forall w | w in seen :: w > v
    ensures var chain := AncestorsFrom(Some(v), h, seen);
            chain != [] && chain[0] == Snap(h, v) && Descending(h, chain, v) && Onward(chain[|chain| - 1], h).None?
    decreases v
  {
    var s := Snap(h, v);
    EverySnapshotIsFound(h, v);
    SnapIsGood(h, v);
    BaseIsJudgedFrom(h, v);
    var next := Onward(s, h);
    var rest := AncestorsFrom(next, h, seen + {v});
    assert AncestorsFrom(Some(v), h, seen) == [s] + rest;
    if next.Some? {
      ChainDescends(h, next.value, seen + {v});
    }
  }

  /** Under lineage the seen-guard never fires: every ancestor chain falls
      strictly, and stops only where ancestry ends. */
  lemma AncestorsDescend(h: seq<HistoryEntry>, v: int)
    requires Lineage(h) && 1 <= v <= |h| + 1
    ensures var chain := UnjudgedAncestors(Snap(h, v), h);
            && (chain == [] <==> Base(h, v).None?)
            && (Base(h, v).Some? ==> Descending(h, chain, Base(h, v).value) && Onward(chain[|chain| - 1], h).None?)
  {
    BaseIsJudgedFrom(h, v);
    if Base(h, v).Some? { ChainDescends(h, Base(h, v).value, {}); }
  }

  // ---- appending a record keeps the past ----

  lemma AppendKeepsSnaps(h: seq<HistoryEntry>, e: HistoryEntry, v: int)
    requires v <= |h| + 1
    ensures Snap(h + [e], v) == Snap(h, v)
  {
  }

  lemma AppendKeepsBase(h: seq<HistoryEntry>, e: HistoryEntry, v: int)
    requires Lineage(h) && 1 <= v <= |h| + 1
    ensures Base(h + [e], v) == Base(h, v)
  {
    AppendKeepsSnaps(h, e, v);
    SnapIsGood(h, v);
    if v >= 2 && Snap(h, v).origin == Rollback {
      RestoredIsOlder(h, v);
      AppendKeepsSnaps(h, e, Snap(h, v).restored.value);
    }
  }

  lemma AppendKeepsRecord(h: seq<HistoryEntry>, e: HistoryEntry, i: nat)
    requires Lineage(h) && i < |h|
    ensures RecordOk(h + [e], i) && RestoreOk(h + [e], i) && ReviseOk(h + [e], i)
  {
    assert RecordOk(h, i) && RestoreOk(h, i) && ReviseOk(h, i);
    AppendKeepsSnaps(h, e, i + 2); AppendKeepsSnaps(h, e, i + 1);
    AppendKeepsBase(h, e, i + 1);
    assert (h + [e])[i] == h[i] && (h + [e])[..i + 1] == h[..i + 1];
    if Snap(h, i + 2).origin == Rollback {
      RestoredIsOlder(h, i + 2);
      AppendKeepsSnaps(h, e, Snap(h, i + 2).restored.value);
    }
  }

  lemma LineageExtends(h: seq<HistoryEntry>, e: HistoryEntry)
    requires Lineage(h)
    requires RecordOk(h + [e], |h|) && RestoreOk(h + [e], |h|) && ReviseOk(h + [e], |h|)
    ensures Lineage(h + [e])
  {
    forall i: nat | i < |h + [e]| ensures RecordOk(h + [e], i) && RestoreOk(h + [e], i) && ReviseOk(h + [e], i) {
      if i < |h| { AppendKeepsRecord(h, e, i); }
    }
  }

  // ---- each step keeps the invariant ----

  lemma GrowKeepsRounds(a: seq<ArchiveEntry>, b: seq<ArchiveEntry>, p: Policy)
    ensures RoundsUnder(a, p) <= RoundsUnder(a + b, p) && |RoundsUnder(a, p)| <= |RoundsUnder(a + b, p)|
  {
    var small, big := RoundsUnder(a, p), RoundsUnder(a + b, p);
    forall k | k in small ensures k in big {
      var e :| e in a && StampedBy(e, p) && e.round.Some? && KeyOf(e) == k;
      assert e in a + b;
    }
    CardinalityMonotone(small, big);
  }

  lemma GrowKeepsInv(s: State, entries: seq<ArchiveEntry>)
    requires Inv(s)
    ensures Inv(Apply(s, Grow(entries)))
  {
    forall v | 2 <= v <= |s.history|
      ensures |RoundsUnder(s.archive + entries, Snap(s.history, v))| >= MIN_ROUNDS_TO_JUDGE
    {
      GrowKeepsRounds(s.archive, entries, Snap(s.history, v));
    }
  }

  /** The facts about a decided policy that extend a lineage by one version. */
  ghost predicate Extends(s: State, p: Policy, m: Measurement) {
    var h, e := s.history, HistoryRecord(p, s.policy, m);
    && RecordOk(h + [e], |h|) && RestoreOk(h + [e], |h|) && ReviseOk(h + [e], |h|)
    && (s.policy.origin != Init ==> |RoundsUnder(s.archive, s.policy)| >= MIN_ROUNDS_TO_JUDGE)
  }

  lemma ExtensionKeepsInv(s: State, p: Policy, m: Measurement)
    requires Inv(s) && Extends(s, p, m)
    ensures Inv(State(s.archive, p, s.history + [HistoryRecord(p, s.policy, m)]))
  {
    var h, e := s.history, HistoryRecord(p, s.policy, m);
    LineageExtends(h, e);
    forall v | 2 <= v <= |h + [e]| ensures |RoundsUnder(s.archive, Snap(h + [e], v))| >= MIN_ROUNDS_TO_JUDGE {
      AppendKeepsSnaps(h, e, v);
      SnapIsGood(h, v);
    }
  }

  lemma LastSnap(h: seq<HistoryEntry>, e: HistoryEntry, p: Policy)
    requires e.policy == Some(p)
    ensures Snap(h + [e], |h| + 2) == p
  {
  }

  lemma RevisionExtends(s: State, m: Measurement, inputs: Inputs)
    requires Inv(s) && WellFormed(inputs.env)
    requires Decide(s.archive, s.policy, s.history, m, inputs).Revise?
    ensures Extends(s, Decide(s.archive, s.policy, s.history, m, inputs).policy, m)
  {
    var topics := Proposal(s.archive, s.policy, m, inputs).0;
    RevisionFacts(s.archive, s.policy, s.history, m, inputs);
    ProposalFacts(s.archive, s.policy, m, inputs);
    RevisedExtends(s, Decide(s.archive, s.policy, s.history, m, inputs).policy, topics, m);
  }

  lemma RevisedExtends(s: State, p: Policy, topics: seq<Topic>, m: Measurement)
    requires Inv(s) && NewVersion(s.policy, topics, s.policy.threshold, Revision, None) == Some(p)
    requires Keywords(s.policy.topics) <= Keywords(p.topics)
    requires StandardWeights(s.policy.topics) ==> StandardWeights(topics)
    requires !RejectedConfiguration(p, s.history, m)
    requires s.policy.origin != Init ==> |RoundsUnder(s.archive, s.policy)| >= MIN_ROUNDS_TO_JUDGE
    ensures Extends(s, p, m)
  {
    var h, e := s.history, HistoryRecord(p, s.policy, m);
    SnapIsGood(h, |h| + 1);
    NextRecord(s, p, m);
    LastSnap(h, e, p); AppendKeepsSnaps(h, e, |h| + 1);
    NotRejected(h, e, p, m);
  }

  lemma NotRejected(h: seq<HistoryEntry>, e: HistoryEntry, p: Policy, m: Measurement)
    requires !RejectedConfiguration(p, h, m) && forall i | 0 <= i < |h| :: h[i].evidenceDigest.Some?
    requires e.archiveDigest == m.archiveDigest && e.evidenceDigest == Some(m.evidenceDigest)
    ensures forall j | 0 <= j < |h| && (h + [e])[j].origin == Rollback
                && (h + [e])[j].replacedHash == Some(PolicyHash(p)) ::
              (h + [e])[j].archiveDigest != e.archiveDigest || (h + [e])[j].evidenceDigest != e.evidenceDigest
  {
  }

  /** The bookkeeping every decided policy shares. */
  lemma NextRecord(s: State, p: Policy, m: Measurement)
    requires Inv(s) && GoodPolicy(p) && p.origin != Init
    requires p.version == s.policy.version + 1 && p.parent == Some(s.policy.version)
    ensures RecordOk(s.history + [HistoryRecord(p, s.policy, m)], |s.history|)
  {
    var h, e := s.history, HistoryRecord(p, s.policy, m);
    SnapIsGood(h, |h| + 1);
    LastSnap(h, e, p); AppendKeepsSnaps(h, e, |h| + 1);
  }

  lemma RollbackExtends(s: State, m: Measurement, inputs: Inputs)
    requires Inv(s) && WellFormed(inputs.env)
    requires Decide(s.archive, s.policy, s.history, m, inputs).RollBack?
    ensures Extends(s, Decide(s.archive, s.policy, s.history, m, inputs).policy, m)
  {
    var h, p := s.history, Decide(s.archive, s.policy, s.history, m, inputs).policy;
    var t := RollBackFacts(s.archive, s.policy, h, m, inputs);
    TargetIsUnrejected(s.archive, s.policy, h, m);
    RestoresAncestor(s, t);
    RestoredExtends(s, p, t, m);
  }

  lemma RestoresAncestor(s: State, t: Policy)
    requires Inv(s) && t in UnjudgedAncestors(s.policy, s.history)
    ensures var v := |s.history| + 1; Base(s.history, v).Some? && 1 <= t.version <= Base(s.history, v).value < v
    ensures t == Snap(s.history, t.version)
  {
    var h, v := s.history, |s.history| + 1;
    AncestorsDescend(h, v);
    BaseIsJudgedFrom(h, v);
    var chain := UnjudgedAncestors(Snap(h, v), h);
    var k :| 0 <= k < |chain| && chain[k] == t;
  }

  lemma RolledBackAppend(h: seq<HistoryEntry>, e: HistoryEntry)
    ensures RolledBackHashes(h + [e]) ==
            RolledBackHashes(h) + (if e.origin == Rollback && e.replacedHash.Some? then {e.replacedHash.value} else {})
  {
  }

  lemma RestoredExtends(s: State, p: Policy, t: Policy, m: Measurement)
    requires Inv(s) && Base(s.history, |s.history| + 1).Some?
    requires 1 <= t.version <= Base(s.history, |s.history| + 1).value < |s.history| + 1
             && t == Snap(s.history, t.version)
    requires NewVersion(s.policy, t.topics, t.threshold, Rollback, Some(t.version)) == Some(p)
    requires PolicyHash(t) !in RolledBackHashes(s.history) && PolicyHash(t) != PolicyHash(s.policy)
    requires |RoundsUnder(s.archive, s.policy)| >= MIN_ROUNDS_TO_JUDGE
    ensures Extends(s, p, m)
  {
    var h, e := s.history, HistoryRecord(p, s.policy, m);
    SnapIsGood(h, t.version);
    assert p.topics == t.topics && p.threshold == t.threshold;
    NextRecord(s, p, m);
    LastSnap(h, e, p);
    AppendKeepsSnaps(h, e, t.version);
    AppendKeepsBase(h, e, |h| + 1);
    RolledBackAppend(h, e);
    assert (h + [e])[..|h| + 1] == h + [e];
  }

  lemma DecisionExtends(s: State, m: Measurement, inputs: Inputs)
    requires Inv(s) && WellFormed(inputs.env)
    requires !Decide(s.archive, s.policy, s.history, m, inputs).NoAction?
    ensures Extends(s, Decide(s.archive, s.policy, s.history, m, inputs).policy, m)
  {
    if Decide(s.archive, s.policy, s.history, m, inputs).Revise? {
      RevisionExtends(s, m, inputs);
    } else {
      RollbackExtends(s, m, inputs);
    }
  }

  lemma ReconsiderKeepsInv(s: State, m: Measurement, inputs: Inputs)
    requires Inv(s) && WellFormed(inputs.env)
    ensures Inv(Apply(s, Reconsider(m, inputs)))
  {
    var d := Decide(s.archive, s.policy, s.history, m, inputs);
    if !d.NoAction? {
      DecisionExtends(s, m, inputs);
      ExtensionKeepsInv(s, d.policy, m);
    }
  }

  lemma StepKeepsInv(s: State, step: Step)
    requires Inv(s) && (step.Reconsider? ==> WellFormed(step.inputs.env))
    ensures Inv(Apply(s, step))
  {
    match step
    case Grow(entries) => GrowKeepsInv(s, entries);
    case Reconsider(m, inputs) => ReconsiderKeepsInv(s, m, inputs);
  }

  lemma {:induction false} RunKeepsInv(s: State, steps: seq<Step>)
    requires Inv(s) && Tokenized(steps)
    ensures Inv(Run(s, steps))
    decreases |steps|
  {
    if steps != [] {
      StepKeepsInv(s, steps[0]);
      RunKeepsInv(Apply(s, steps[0]), steps[1..]);
    }
  }

  lemma StartIsGood(archive: seq<ArchiveEntry>)
    ensures Inv(Start(archive))
  {
  }

  lemma PrefixKeepsMeaning(before: seq<Definition>, after: seq<Definition>)
    requires before <= after
    ensures KeepsMeaning(before, after)
  {
    assert after == before + after[|before|..];
    ExtensionKeepsMeaning(before, after[|before|..]);
  }

  // ---- what every reachable state satisfies ----

  /** The policy in force is valid and is exactly what its history records, its
      version counts the records, the threshold is the builtin one, every weight
      is 1, 1/2 or 1/4, the builtin definitions come first, and nothing they
      classify has moved. */
  lemma ReachableIsLawful(archive: seq<ArchiveEntry>, steps: seq<Step>)
    requires Tokenized(steps)
    ensures var s := Run(Start(archive), steps);
            && ValidPolicy(s.policy) && MatchesHistory(s.policy, s.history)
            && s.policy.version == |s.history| + 1
            && s.policy.threshold == BUILTIN_THRESHOLD && StandardWeights(s.policy.topics)
            && BUILTIN_TOPIC_KEYWORDS <= Keywords(s.policy.topics)
            && KeepsMeaning(BUILTIN_TOPIC_KEYWORDS, Keywords(s.policy.topics))
  {
    StartIsGood(archive);
    RunKeepsInv(Start(archive), steps);
    var s := Run(Start(archive), steps);
    LawfulState(s);
    PrefixKeepsMeaning(BUILTIN_TOPIC_KEYWORDS, Keywords(s.policy.topics));
  }

  lemma LawfulState(s: State)
    requires Inv(s)
    ensures GoodPolicy(s.policy) && MatchesHistory(s.policy, s.history) && s.policy.version == |s.history| + 1
  {
    SnapIsGood(s.history, |s.history| + 1);
    if s.history != [] { assert RecordOk(s.history, |s.history| - 1); }
  }

  /** Every version so far is found in the history under its own number, and the
      ancestor chain of each falls strictly and runs to where ancestry ends. */
  lemma ReachableHistoryIsComplete(archive: seq<ArchiveEntry>, steps: seq<Step>, v: int)
    requires Tokenized(steps)
    ensures var h := Run(Start(archive), steps).history;
            && (SnapshotFor(v, h).Some? <==> 1 <= v <= |h| + 1)
            && (1 <= v <= |h| + 1 ==>
                  && SnapshotFor(v, h).value.version == v
                  && var chain := UnjudgedAncestors(SnapshotFor(v, h).value, h);
                     && (forall j, k | 0 <= j < k < |chain| :: v > chain[j].version > chain[k].version >= 1)
                     && (chain != [] ==> v > chain[0].version >= 1 && Onward(chain[|chain| - 1], h).None?))
  {
    StartIsGood(archive);
    RunKeepsInv(Start(archive), steps);
    var h := Run(Start(archive), steps).history;
    EverySnapshotIsFound(h, v);
    if 1 <= v <= |h| + 1 {
      SnapIsGood(h, v);
      AncestorsDescend(h, v);
      BaseIsJudgedFrom(h, v);
    }
  }

  /** No reachable decision is cut short by validation. */
  lemma ReachableDecisionsAreWellFormed(archive: seq<ArchiveEntry>, steps: seq<Step>, m: Measurement, inputs: Inputs)
    requires Tokenized(steps) && WellFormed(inputs.env)
    ensures var s := Run(Start(archive), steps);
            Decide(s.archive, s.policy, s.history, m, inputs) != NoAction(Malformed)
  {
    StartIsGood(archive);
    RunKeepsInv(Start(archive), steps);
    var s := Run(Start(archive), steps);
    LawfulState(s);
    ProposalIsValid(s.archive, s.policy, m, inputs);
    var target := RollbackTarget(s.archive, s.policy, s.history, m);
    if target.Some? { TargetIsGood(s, m); }
  }

  lemma TargetIsGood(s: State, m: Measurement)
    requires Inv(s) && RollbackTarget(s.archive, s.policy, s.history, m).Some?
    ensures GoodPolicy(RollbackTarget(s.archive, s.policy, s.history, m).value)
  {
    var target := RollbackTarget(s.archive, s.policy, s.history, m).value;
    TargetIsUnrejected(s.archive, s.policy, s.history, m);
    RestoresAncestor(s, target);
    SnapIsGood(s.history, target.version);
  }

  lemma ReachableProposalIsValid(archive: seq<ArchiveEntry>, steps: seq<Step>, m: Measurement, inputs: Inputs)
    requires Tokenized(steps) && WellFormed(inputs.env)
    ensures var s := Run(Start(archive), steps);
            NewVersion(s.policy, Proposal(s.archive, s.policy, m, inputs).0, s.policy.threshold, Revision, None).Some?
  {
    StartIsGood(archive);
    RunKeepsInv(Start(archive), steps);
    var s := Run(Start(archive), steps);
    LawfulState(s);
    ProposalIsValid(s.archive, s.policy, m, inputs);
  }

  /** In a reachable state, on a faithful measurement, these conditions and no
      others decide a revision: validation and the coverage guard never do. */
  lemma ReachableRevisesExactlyWhen(archive: seq<ArchiveEntry>, steps: seq<Step>, m: Measurement, inputs: Inputs)
    requires Tokenized(steps) && WellFormed(inputs.env)
    requires var s := Run(Start(archive), steps); TakenOf(m, s.archive, s.policy)
    ensures var s := Run(Start(archive), steps);
            NewVersion(s.policy, Proposal(s.archive, s.policy, m, inputs).0, s.policy.threshold, Revision, None).Some?
    ensures var s := Run(Start(archive), steps);
            var (topics, changes) := Proposal(s.archive, s.policy, m, inputs);
            var p := NewVersion(s.policy, topics, s.policy.threshold, Revision, None).value;
            Decide(s.archive, s.policy, s.history, m, inputs).Revise? <==>
              && RollbackTarget(s.archive, s.policy, s.history, m).None?
              && (s.policy.origin == Init || |RoundsUnder(s.archive, s.policy)| >= MIN_ROUNDS_TO_JUDGE)
              && (CoverageTrigger(m) || ValidityTrigger(m) || FieldTrigger(s.policy, inputs) || AnyRestored(changes))
              && !Idle(changes)
              && !RejectedConfiguration(p, s.history, m)
              && !RegressesValidity(s.archive, s.policy, p, m)
  {
    ReachableProposalIsValid(archive, steps, m, inputs);
    ReachableDecisionsAreWellFormed(archive, steps, m, inputs);
    var s := Run(Start(archive), steps);
    CoverageGuardNeverFires(s.archive, s.policy, s.history, m, inputs);
  }

  // ---- no definition is lost ----

  lemma TopicsArePlain(topics: seq<Topic>)
    requires DistinctNames(topics) && forall i | 0 <= i < |topics| :: ValidTopic(topics[i])
    ensures Definitions.Plain(Keywords(topics)) && Definitions.DistinctKeys(Keywords(topics))
  {
    var defs := Keywords(topics);
    forall i | 0 <= i < |defs| ensures Definitions.PlainName(defs[i]) { assert ValidTopic(topics[i]); }
    forall i, j | 0 <= i < j < |defs| ensures defs[i].name != defs[j].name { assert topics[i].name != topics[j].name; }
  }

  lemma MentionedArePlain(h: seq<HistoryEntry>)
    requires Lineage(h)
    ensures Definitions.Plain(Definitions.Mentioned(h))
  {
    var ds := Definitions.Mentioned(h);
    forall i | 0 <= i < |ds| ensures Definitions.PlainName(ds[i]) {
      assert ds[i] in ds;
      Definitions.MentionedBySnapshot(h, ds[i]);
      var j :| 0 <= j < |h| && h[j].policy.Some? && ds[i] in Keywords(h[j].policy.value.topics);
      SnapIsGood(h, j + 2);
      TopicsArePlain(Snap(h, j + 2).topics);
    }
  }

  /** Where the measurement script finds a definition, given the policy in force. */
  function EvidenceKey(s: State, d: Definition, tag: seq<string> -> string): Option<string> {
    ResolveEvidenceKey(Searchable(s, tag), d.name, d.words)
  }

  /** The current definitions and the historical ones kept beside them. */
  function Searchable(s: State, tag: seq<string> -> string): seq<Definition> {
    Keywords(s.policy.topics) + Definitions.HistoricalDefinitions(s.history, Keywords(s.policy.topics), tag)
  }

  ghost predicate Found(s: State, d: Definition, tag: seq<string> -> string) {
    var key := EvidenceKey(s, d, tag);
    && key.Some? && BaseName(key.value) == d.name
    && Definitions.HasKey(Searchable(s, tag), key.value) && WordsOf(Searchable(s, tag), key.value) == d.words
  }

  lemma SnapshotIsFound(s: State, v: int, k: nat, tag: seq<string> -> string)
    requires Inv(s) && Definitions.Injective(tag) && 2 <= v <= |s.history| + 1 && k < |Snap(s.history, v).topics|
    ensures Found(s, Keywords(Snap(s.history, v).topics)[k], tag)
  {
    var h, d := s.history, Keywords(Snap(s.history, v).topics)[k];
    LawfulState(s);
    TopicsArePlain(s.policy.topics);
    MentionedArePlain(h);
    SnapIsGood(h, v);
    assert ValidTopic(Snap(h, v).topics[k]);
    assert RecordOk(h, v - 2);
    Definitions.MentionedBySnapshot(h, d);
    assert d in Keywords(h[v - 2].policy.value.topics);
    var i :| 0 <= i < |Definitions.Mentioned(h)| && Definitions.Mentioned(h)[i] == d;
    Definitions.NoDefinitionIsLost(h, Keywords(s.policy.topics), tag, i);
  }

  lemma CurrentIsFound(s: State, k: nat, tag: seq<string> -> string)
    requires Inv(s) && Definitions.Injective(tag) && k < |s.policy.topics|
    ensures Found(s, Keywords(s.policy.topics)[k], tag)
  {
    if s.history == [] {
      var d := Keywords(s.policy.topics)[k];
      LawfulState(s);
      TopicsArePlain(s.policy.topics);
      assert ValidTopic(s.policy.topics[k]) && Definitions.PlainName(d);
      assert Searchable(s, tag) == Keywords(s.policy.topics);
      Definitions.BaseOfPlain(d.name);
      assert Definitions.Recorded(Searchable(s, tag), d.name, d.words);
      Definitions.ResolvesExactly(Searchable(s, tag), d.name, d.words);
    } else {
      SnapshotIsFound(s, |s.history| + 1, k, tag);
    }
  }

  /** In a reachable state a measurement searches every definition that any
      version ever used, the builtin root included, each under a key of its own. */
  lemma ReachableDefinitionsAreFound(archive: seq<ArchiveEntry>, steps: seq<Step>, v: int, k: nat,
                                     tag: seq<string> -> string)
    requires Tokenized(steps) && Definitions.Injective(tag)
    requires var h := Run(Start(archive), steps).history; 1 <= v <= |h| + 1 && k < |Snap(h, v).topics|
    ensures var s := Run(Start(archive), steps); Found(s, Keywords(Snap(s.history, v).topics)[k], tag)
  {
    StartIsGood(archive);
    RunKeepsInv(Start(archive), steps);
    var s := Run(Start(archive), steps);
    if v >= 2 {
      SnapshotIsFound(s, v, k, tag);
    } else {
      BuiltinIsValid();
      LawfulState(s);
      assert BUILTIN_TOPIC_KEYWORDS[k] == Keywords(s.policy.topics)[k];
      CurrentIsFound(s, k, tag);
    }
  }

  // ---- history can be audited ----

  /** The evidence a record was decided on, from its digest and collection time. */
  function EvidenceOf(e: HistoryEntry): Option<Evidence> {
    if e.evidenceDigest.None? || e.evidenceDigest.value.None? then None
    else Some(e.evidenceDigest.value.value.(collectedAt := e.collectedAt))
  }

  /** The measurement behind record i, taken again from the history alone. */
  function Remeasured(h: seq<HistoryEntry>, i: nat): Measurement
    requires i < |h|
  {
    Measure(h[i].archiveDigest, Snap(h, i + 1), EvidenceOf(h[i]))
  }

  /** When an ancestor wins, just that one was restored. When none does, there was
      no rollback, and neither coverage nor a defined validity was lowered or lost. */
  ghost predicate Justified(past: seq<ArchiveEntry>, earlier: seq<HistoryEntry>, replaced: Policy, made: Policy,
                            m: Measurement) {
    match RollbackTarget(past, replaced, earlier, m)
    case Some(t) => made.origin == Rollback && made.restored == Some(t.version) && PolicyHash(made) == PolicyHash(t)
    case None =>
      && made.origin == Revision && !RegressesValidity(past, replaced, made, m)
      && !ValidityRegressed(CoverageOn(past, replaced), CoverageOn(past, made))
  }

  /** Record i came after the wait and is justified, judged from the history alone. */
  ghost predicate AuditOk(h: seq<HistoryEntry>, i: nat)
    requires i < |h|
  {
    && Justified(h[i].archiveDigest, h[..i], Snap(h, i + 1), Snap(h, i + 2), Remeasured(h, i))
    && (i > 0 ==> |RoundsUnder(h[i].archiveDigest, Snap(h, i + 1))| >= MIN_ROUNDS_TO_JUDGE)
  }

  /** Each record was made on an archive that later ones extend. */
  ghost predicate Accumulates(s: State) {
    && (forall i | 0 <= i < |s.history| :: s.history[i].archiveDigest <= s.archive)
    && (forall i, j | 0 <= i <= j < |s.history| :: s.history[i].archiveDigest <= s.history[j].archiveDigest)
  }

  ghost predicate AllAuditOk(h: seq<HistoryEntry>) { forall i: nat | i < |h| :: AuditOk(h, i) }

  ghost predicate Audited(s: State) { Accumulates(s) && AllAuditOk(s.history) }

  /** Every measurement handed in is one: of some archive, policy and evidence,
      out of date or not. */
  ghost predicate Measured(steps: seq<Step>) {
    forall i | 0 <= i < |steps| && steps[i].Reconsider? :: IsMeasurement(steps[i].m)
  }

  ghost predicate IsMeasurement(m: Measurement) {
    exists entries, policy, evidence :: m == Measure(entries, policy, evidence)
  }

  lemma SameHashSameMeasurement(entries: seq<ArchiveEntry>, p: Policy, q: Policy, evidence: Option<Evidence>)
    requires PolicyHash(p) == PolicyHash(q)
    ensures Measure(entries, p, evidence) == Measure(entries, q, evidence)
  {
    var rs, ev := RoundsOf(entries), Usable(evidence);
    SameHashSameTopics(p, q);
    SameEpochs(rs, p.topics, q.topics, ev);
    SameCurrent(rs, p.topics, q.topics, ev);
  }

  lemma SameEpochs(rs: seq<Round>, a: seq<Topic>, b: seq<Topic>, ev: Option<Evidence>)
    requires SameSearch(a, b)
    ensures Epochs(rs, a, ev) == Epochs(rs, b, ev)
  {
    var f, g := Historical(a, ev), Historical(b, ev);
    EpochsAreHistorical(rs, a, ev); EpochsAreHistorical(rs, b, ev);
    forall x: seq<Round> | x != [] ensures f(x) == g(x) { SameEpoch(x, a, b, ev, x[|x| - 1].timestamp, true); }
    PrefixesAgree(rs, f, g);
  }

  ghost predicate SameSearch(a: seq<Topic>, b: seq<Topic>) {
    && Keywords(a) == Keywords(b)
    && |a| == |b| && forall i | 0 <= i < |a| :: a[i].name == b[i].name && a[i].weight == b[i].weight
  }

  lemma SameEpoch(rs: seq<Round>, a: seq<Topic>, b: seq<Topic>, ev: Option<Evidence>, until: Option<int>,
                  historical: bool)
    requires SameSearch(a, b)
    ensures EpochOf(rs, a, ev, until, historical) == EpochOf(rs, b, ev, until, historical)
  {
    SameWeightedSignal(a, b, DevCounts(rs, Keywords(a)));
  }

  lemma SameCurrent(rs: seq<Round>, a: seq<Topic>, b: seq<Topic>, ev: Option<Evidence>)
    requires SameSearch(a, b)
    ensures CurrentOf(rs, a, ev) == CurrentOf(rs, b, ev)
  {
    SameEpoch(rs, a, b, ev, None, false);
    if ev.Some? && ev.value.collectedAt.Some? {
      SameEpoch(SeenRounds(rs, ev.value.collectedAt.value), a, b, ev, None, false);
    }
  }

  /** The two digests admit only measurements of the state at hand. */
  lemma AdmittedIsFaithful(s: State, m: Measurement)
    requires IsMeasurement(m) && m.policyHash == PolicyHash(s.policy) && m.archiveDigest == s.archive
    ensures TakenOf(m, s.archive, s.policy)
    ensures forall p :: m == Measure(s.archive, s.policy, EvidenceOf(HistoryRecord(p, s.policy, m)))
  {
    var entries, policy, evidence :| m == Measure(entries, policy, evidence);
    SameHashSameMeasurement(entries, policy, s.policy, evidence);
    forall p ensures EvidenceOf(HistoryRecord(p, s.policy, m)) == evidence { }
  }

  lemma AppendKeepsAudit(h: seq<HistoryEntry>, e: HistoryEntry, i: nat)
    requires i < |h| && AuditOk(h, i)
    ensures AuditOk(h + [e], i)
  {
    AppendKeepsPast(h, e, i);
  }

  lemma AppendKeepsPast(h: seq<HistoryEntry>, e: HistoryEntry, i: nat)
    requires i < |h|
    ensures (h + [e])[i] == h[i] && (h + [e])[..i] == h[..i]
    ensures Snap(h + [e], i + 1) == Snap(h, i + 1) && Snap(h + [e], i + 2) == Snap(h, i + 2)
    ensures Remeasured(h + [e], i) == Remeasured(h, i)
  {
    AppendKeepsSnaps(h, e, i + 1); AppendKeepsSnaps(h, e, i + 2);
  }

  lemma RemeasuredLast(s: State, p: Policy, m: Measurement)
    requires Inv(s) && m.archiveDigest == s.archive
    requires m == Measure(s.archive, s.policy, EvidenceOf(HistoryRecord(p, s.policy, m)))
    ensures var h, e := s.history, HistoryRecord(p, s.policy, m);
            && Remeasured(h + [e], |h|) == m && (h + [e])[..|h|] == h
            && Snap(h + [e], |h| + 1) == s.policy && Snap(h + [e], |h| + 2) == p
  {
    var h, e := s.history, HistoryRecord(p, s.policy, m);
    AppendKeepsSnaps(h, e, |h| + 1);
    LastSnap(h, e, p);
  }

  ghost predicate SomeFinding(entries: seq<ArchiveEntry>) { Flatten(RoundsOf(entries)) != [] }

  lemma CoverageDefined(entries: seq<ArchiveEntry>, p: Policy)
    ensures CoverageOn(entries, p).Some? <==> SomeFinding(entries)
  {
  }

  lemma RevisionIsJustified(s: State, m: Measurement, inputs: Inputs, p: Policy)
    requires TakenOf(m, s.archive, s.policy) && Decide(s.archive, s.policy, s.history, m, inputs) == Revise(p)
    ensures Justified(s.archive, s.history, s.policy, p, m)
    ensures s.policy.origin != Init ==> |RoundsUnder(s.archive, s.policy)| >= MIN_ROUNDS_TO_JUDGE
  {
    RevisionFacts(s.archive, s.policy, s.history, m, inputs);
    MeasuredFields(m, s.archive, s.policy);
    CoverageDefined(s.archive, s.policy);
    CoverageDefined(s.archive, p);
  }

  lemma RollbackIsJustified(s: State, m: Measurement, inputs: Inputs, p: Policy)
    requires Decide(s.archive, s.policy, s.history, m, inputs) == RollBack(p)
    ensures Justified(s.archive, s.history, s.policy, p, m)
    ensures |RoundsUnder(s.archive, s.policy)| >= MIN_ROUNDS_TO_JUDGE
  {
    var t := RollBackFacts(s.archive, s.policy, s.history, m, inputs);
  }

  lemma RecordAudits(s: State, m: Measurement, p: Policy)
    requires Inv(s) && IsMeasurement(m) && m.policyHash == PolicyHash(s.policy) && m.archiveDigest == s.archive
    requires Justified(s.archive, s.history, s.policy, p, m)
    requires s.policy.origin != Init ==> |RoundsUnder(s.archive, s.policy)| >= MIN_ROUNDS_TO_JUDGE
    ensures AuditOk(s.history + [HistoryRecord(p, s.policy, m)], |s.history|)
  {
    AdmittedIsFaithful(s, m);
    RemeasuredLast(s, p, m);
    SnapIsGood(s.history, |s.history| + 1);
  }

  lemma AccumulatesMore(s: State, p: Policy, m: Measurement)
    requires Accumulates(s) && m.archiveDigest == s.archive
    ensures Accumulates(State(s.archive, p, s.history + [HistoryRecord(p, s.policy, m)]))
  {
  }

  lemma AllAuditsExtend(h: seq<HistoryEntry>, e: HistoryEntry)
    requires AllAuditOk(h) && AuditOk(h + [e], |h|)
    ensures AllAuditOk(h + [e])
  {
    forall i: nat | i < |h + [e]| ensures AuditOk(h + [e], i) {
      if i < |h| { AppendKeepsAudit(h, e, i); }
    }
  }

  lemma AuditExtends(s: State, p: Policy, m: Measurement)
    requires Audited(s) && m.archiveDigest == s.archive
    requires AuditOk(s.history + [HistoryRecord(p, s.policy, m)], |s.history|)
    ensures Audited(State(s.archive, p, s.history + [HistoryRecord(p, s.policy, m)]))
  {
    AccumulatesMore(s, p, m);
    AllAuditsExtend(s.history, HistoryRecord(p, s.policy, m));
  }

  lemma StepKeepsAudit(s: State, step: Step)
    requires Inv(s) && Audited(s) && (step.Reconsider? ==> IsMeasurement(step.m))
    ensures Audited(Apply(s, step))
  {
    if step.Reconsider? && Apply(s, step) != s {
      var d := Decide(s.archive, s.policy, s.history, step.m, step.inputs);
      if d.Revise? {
        AdmittedIsFaithful(s, step.m);
        RevisionIsJustified(s, step.m, step.inputs, d.policy);
      } else {
        RollbackIsJustified(s, step.m, step.inputs, d.policy);
      }
      RecordAudits(s, step.m, d.policy);
      AuditExtends(s, d.policy, step.m);
    }
  }

  lemma {:induction false} RunKeepsAudit(s: State, steps: seq<Step>)
    requires Inv(s) && Audited(s) && Tokenized(steps) && Measured(steps)
    ensures Audited(Run(s, steps))
    decreases |steps|
  {
    if steps != [] {
      StepKeepsAudit(s, steps[0]);
      StepKeepsInv(s, steps[0]);
      RunKeepsAudit(Apply(s, steps[0]), steps[1..]);
    }
  }

  /** History can be audited: if every measurement handed in was one, stale ones
      included, then every record of every run, judged again from the history
      alone, passes, and the archives they were made on extend one another. */
  lemma HistoryCanBeAudited(archive: seq<ArchiveEntry>, steps: seq<Step>, i: nat)
    requires Tokenized(steps) && Measured(steps) && i < |Run(Start(archive), steps).history|
    ensures AuditOk(Run(Start(archive), steps).history, i)
    ensures Accumulates(Run(Start(archive), steps))
  {
    StartIsGood(archive);
    RunKeepsAudit(Start(archive), steps);
  }

  // ---- rollbacks ----

  /** Record i is a rollback. */
  ghost predicate IsRollback(h: seq<HistoryEntry>, i: int) { 0 <= i < |h| && h[i].origin == Rollback }

  function RestoredAt(h: seq<HistoryEntry>, i: int): int {
    var r := Snap(h, i + 2).restored; if r.Some? then r.value else 0
  }

  lemma RollbackRestores(h: seq<HistoryEntry>, i: nat)
    requires Lineage(h) && IsRollback(h, i)
    ensures 1 <= RestoredAt(h, i) < i + 1
    ensures IsRollback(h, i + 1) ==> RestoredAt(h, i + 1) < RestoredAt(h, i)
  {
    assert RecordOk(h, i);
    RestoredIsOlder(h, i + 2);
    if IsRollback(h, i + 1) {
      assert RecordOk(h, i + 1) && RestoreOk(h, i + 1);
      SnapIsGood(h, RestoredAt(h, i));
      assert Base(h, i + 2) == Snap(h, RestoredAt(h, i)).parent;
    }
  }

  lemma {:induction false} StreakFalls(h: seq<HistoryEntry>, i: nat, k: nat)
    requires Lineage(h) && k >= 1 && forall j | i <= j < i + k :: IsRollback(h, j)
    ensures 1 <= RestoredAt(h, i + k - 1) <= RestoredAt(h, i) - (k - 1)
  {
    if k == 1 {
      RollbackRestores(h, i);
    } else {
      StreakFalls(h, i, k - 1);
      assert IsRollback(h, i + k - 2) && IsRollback(h, i + k - 1);
      RollbackRestores(h, i + k - 2);
      RollbackRestores(h, i + k - 1);
    }
  }

  /** Rollbacks cannot oscillate: in any run, consecutive rollbacks restore
      strictly older versions, so a streak that starts by replacing version v has
      at most v - 1 of them. */
  lemma RollbacksCannotOscillate(archive: seq<ArchiveEntry>, steps: seq<Step>, i: nat, k: nat)
    requires Tokenized(steps)
    requires k >= 1 && forall j | i <= j < i + k :: IsRollback(Run(Start(archive), steps).history, j)
    ensures var h := Run(Start(archive), steps).history;
            && i < |h| && h[i].replacedVersion == i + 1 && k <= i
            && forall j | i <= j < i + k - 1 :: RestoredAt(h, j + 1) < RestoredAt(h, j)
  {
    StartIsGood(archive);
    RunKeepsInv(Start(archive), steps);
    var h := Run(Start(archive), steps).history;
    assert IsRollback(h, i) && RecordOk(h, i);
    RollbackRestores(h, i);
    StreakFalls(h, i, k);
    forall j | i <= j < i + k - 1 ensures RestoredAt(h, j + 1) < RestoredAt(h, j) {
      assert IsRollback(h, j) && IsRollback(h, j + 1);
      RollbackRestores(h, j);
    }
  }

  /** A configuration that any rollback rejected, the one at hand included, is
      never put back by a rollback; a revision puts it back only on a different
      archive or different evidence. */
  lemma RejectedStaysRejected(archive: seq<ArchiveEntry>, steps: seq<Step>, j: nat, i: nat)
    requires Tokenized(steps)
    requires j <= i < |Run(Start(archive), steps).history| && IsRollback(Run(Start(archive), steps).history, j)
    ensures var h := Run(Start(archive), steps).history;
            && h[i].policy.Some? && h[j].replacedHash.Some?
            && (PolicyHash(h[i].policy.value) == h[j].replacedHash.value ==>
                  && h[i].origin == Revision
                  && (h[j].archiveDigest != h[i].archiveDigest || h[j].evidenceDigest != h[i].evidenceDigest))
  {
    StartIsGood(archive);
    RunKeepsInv(Start(archive), steps);
    var h := Run(Start(archive), steps).history;
    assert RecordOk(h, i) && RecordOk(h, j) && RestoreOk(h, i) && ReviseOk(h, i);
    assert h[..i + 1][j] == h[j];
    assert h[j] in h[..i + 1];
  }

  // ---- the pace of revision ----

  function CountVersion(es: seq<ArchiveEntry>, v: int): nat {
    if es == [] then 0 else (if es[0].policyVersion == Some(v) then 1 else 0) + CountVersion(es[1..], v)
  }

  /** Entries stamped with a version in [2, hi]. */
  function CountUpTo(es: seq<ArchiveEntry>, hi: int): nat {
    if es == [] then 0
    else (if es[0].policyVersion.Some? && 2 <= es[0].policyVersion.value <= hi then 1 else 0) + CountUpTo(es[1..], hi)
  }

  function Stamped(es: seq<ArchiveEntry>): nat {
    if es == [] then 0 else (if es[0].policyVersion.Some? then 1 else 0) + Stamped(es[1..])
  }

  lemma {:induction false} CountsAddUp(es: seq<ArchiveEntry>, hi: int)
    requires hi >= 1
    ensures CountUpTo(es, hi + 1) == CountUpTo(es, hi) + CountVersion(es, hi + 1)
    ensures CountUpTo(es, hi) <= Stamped(es) && CountUpTo(es, 1) == 0
  {
    if es != [] { CountsAddUp(es[1..], hi); }
  }

  function RoundIfStamped(e: ArchiveEntry, p: Policy): (r: set<RoundKey>)
    ensures |r| == if StampedBy(e, p) && e.round.Some? then 1 else 0
  {
    if StampedBy(e, p) && e.round.Some? then {KeyOf(e)} else {}
  }

  lemma RoundsOfFirst(es: seq<ArchiveEntry>, p: Policy)
    requires es != []
    ensures RoundsUnder(es, p) == RoundIfStamped(es[0], p) + RoundsUnder(es[1..], p)
  {
    forall k | k in RoundsUnder(es, p) ensures k in RoundIfStamped(es[0], p) + RoundsUnder(es[1..], p) {
      var e :| e in es && StampedBy(e, p) && e.round.Some? && KeyOf(e) == k;
      assert e == es[0] || e in es[1..];
    }
  }

  lemma {:induction false} RoundsAreStamped(es: seq<ArchiveEntry>, p: Policy)
    ensures |RoundsUnder(es, p)| <= CountVersion(es, p.version)
  {
    if es == [] {
      assert RoundsUnder(es, p) == {};
    } else {
      RoundsAreStamped(es[1..], p);
      RoundsOfFirst(es, p);
    }
  }

  lemma {:induction false} TwoPerVersion(s: State, v: int)
    requires Inv(s) && 1 <= v <= |s.history|
    ensures 2 * (v - 1) <= CountUpTo(s.archive, v)
  {
    if v > 1 {
      TwoPerVersion(s, v - 1);
      SnapIsGood(s.history, v);
      RoundsAreStamped(s.archive, Snap(s.history, v));
      CountsAddUp(s.archive, v - 1);
    }
  }

  /** The wait gate bounds how often the policy can change: however the archive
      grows, version n needs at least 2 (n - 2) stamped rounds. */
  lemma VersionsNeedRounds(archive: seq<ArchiveEntry>, steps: seq<Step>)
    requires Tokenized(steps)
    ensures var s := Run(Start(archive), steps); 2 * (s.policy.version - 2) <= Stamped(s.archive)
  {
    StartIsGood(archive);
    RunKeepsInv(Start(archive), steps);
    var s := Run(Start(archive), steps);
    LawfulState(s);
    if |s.history| >= 1 {
      TwoPerVersion(s, |s.history|);
      CountsAddUp(s.archive, |s.history|);
    }
  }

  // ---- what main refuses ----

  /** In a reachable state with a history, only the recorded policy is accepted: any other
      version, origin or content is refused before anything is decided. */
  lemma ReachableRefusesOthers(archive: seq<ArchiveEntry>, steps: seq<Step>, q: Policy)
    requires Tokenized(steps) && Run(Start(archive), steps).history != []
    ensures var s := Run(Start(archive), steps);
            MatchesHistory(q, s.history) <==>
              && q.version == s.policy.version && q.parent == s.policy.parent && q.origin == s.policy.origin
              && q.restored == s.policy.restored && PolicyHash(q) == PolicyHash(s.policy)
  {
    StartIsGood(archive);
    RunKeepsInv(Start(archive), steps);
    var s := Run(Start(archive), steps);
    LawfulState(s);
    assert RecordOk(s.history, |s.history| - 1);
  }
}
