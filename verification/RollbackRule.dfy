/** When the loop rolls back and to which version, for every reachable state, in terms
    of the history alone (scripts/revise-improvement-policy.py). */
module RollbackRule {
  import opened Text
  import opened Records
  import opened Sorting
  import opened ImprovementPolicy
  import opened Rounds
  import opened Measuring
  import opened Mining
  import opened Revising
  import opened Runs

  /** Version a stands behind version v in its ancestry. */
  ghost predicate AncestorOf(h: seq<HistoryEntry>, v: nat, a: int)
    decreases v
  {
    match Base(h, v)
    case None => false
    case Some(b) => 0 < b < v && (a == b || AncestorOf(h, b, a))
  }

  /** Archive entries stamped with the policy in force. */
  function StampedNow(s: State): ArchiveEntry -> bool {
    (e: ArchiveEntry) => e.policyVersion == Some(s.policy.version) && e.policyHash == Some(PolicyHash(s.policy))
  }

  function Own(s: State): seq<ArchiveEntry> { Filter(s.archive, StampedNow(s)) }

  /** Identities of the numbered rounds that ran under the policy in force. */
  function OwnRounds(s: State): set<RoundKey> {
    set e | e in s.archive && StampedNow(s)(e) && e.round.Some? :: KeyOf(e)
  }

  ghost predicate Rejected(h: seq<HistoryEntry>, c: Config) {
    exists j | 0 <= j < |h| :: h[j].origin == Rollback && h[j].replacedHash == Some(c)
  }

  /** An ancestor of the policy in force whose configuration no rollback rejected. */
  ghost predicate Candidate(s: State, a: int) {
    AncestorOf(s.history, |s.history| + 1, a) && !Rejected(s.history, PolicyHash(Snap(s.history, a)))
  }

  function CoverageBy(s: State): Policy -> Option<real> { (p: Policy) => CoverageOn(Own(s), p) }

  /** Validity on those of the policy's own rounds that the evidence could have seen. */
  function ValidityBy(s: State, m: Measurement): Policy -> Option<real> {
    (p: Policy) => ValidityUnder(p, EntriesCovered(Own(s), m), CandidateAnchor(m.current, p))
  }

  /** Strictly above; an undefined own score is beaten only where that is allowed. */
  predicate Above(score: Option<real>, own: Option<real>, lenient: bool) {
    score.Some? && (if own.Some? then score.value > own.value else lenient)
  }

  /** Version a scores better than the policy in force. */
  ghost predicate Beats(s: State, f: Policy -> Option<real>, a: int, lenient: bool) {
    Above(f(Snap(s.history, a)), f(s.policy), lenient)
  }

  ghost predicate CoversBetter(s: State, a: int) { Beats(s, CoverageBy(s), a, false) }

  ghost predicate AgreesBetter(s: State, m: Measurement, a: int) { Beats(s, ValidityBy(s, m), a, true) }

  // ---- the chain of ancestors ----

  lemma OnwardIsBase(h: seq<HistoryEntry>, v: int)
    requires Lineage(h) && 1 <= v <= |h| + 1
    ensures Onward(Snap(h, v), h) == Base(h, v)
  {
    SnapIsGood(h, v);
    BaseIsJudgedFrom(h, v);
  }

  lemma {:induction false} ChainMembers(h: seq<HistoryEntry>, v: int, seen: set<int>, p: Policy)
    requires Lineage(h) && 1 <= v <= |h| + 1 && forall w | w in seen :: w > v
    ensures p in AncestorsFrom(Some(v), h, seen) <==>
            exists a :: (a == v || AncestorOf(h, v, a)) && p == Snap(h, a)
    decreases v
  {
    EverySnapshotIsFound(h, v);
    BaseIsJudgedFrom(h, v);
    OnwardIsBase(h, v);
    var next := Base(h, v);
    var rest := AncestorsFrom(next, h, seen + {v});
    assert AncestorsFrom(Some(v), h, seen) == [Snap(h, v)] + rest;
    if next.Some? {
      ChainMembers(h, next.value, seen + {v}, p);
      AncestorStep(h, v, next.value, p);
    }
  }

  lemma AncestorStep(h: seq<HistoryEntry>, v: nat, b: int, p: Policy)
    requires Base(h, v) == Some(b) && 0 < b < v
    ensures (exists a :: AncestorOf(h, v, a) && p == Snap(h, a)) <==>
            (exists a :: (a == b || AncestorOf(h, b, a)) && p == Snap(h, a))
  {
    forall a ensures AncestorOf(h, v, a) <==> a == b || AncestorOf(h, b, a) { }
  }

  lemma AncestorsAre(s: State, p: Policy)
    requires Inv(s)
    ensures p in UnjudgedAncestors(s.policy, s.history) <==>
            exists a :: AncestorOf(s.history, |s.history| + 1, a) && p == Snap(s.history, a)
  {
    var h, v := s.history, |s.history| + 1;
    BaseIsJudgedFrom(h, v);
    if Base(h, v).Some? {
      ChainMembers(h, Base(h, v).value, {}, p);
      AncestorStep(h, v, Base(h, v).value, p);
    }
  }

  lemma RejectedIs(h: seq<HistoryEntry>, c: Config)
    ensures c in RolledBackHashes(h) <==> Rejected(h, c)
  {
    if c in RolledBackHashes(h) {
      var e :| e in h && e.origin == Rollback && e.replacedHash == Some(c);
      var j :| 0 <= j < |h| && h[j] == e;
    }
  }

  lemma CandidatesAre(s: State, p: Policy)
    requires Inv(s)
    ensures p in Unrejected(UnjudgedAncestors(s.policy, s.history), s.history) <==>
            exists a :: Candidate(s, a) && p == Snap(s.history, a)
  {
    UnrejectedMember(UnjudgedAncestors(s.policy, s.history), s.history, p);
    AncestorsAre(s, p);
    RejectedIs(s.history, PolicyHash(p));
  }

  // ---- whether the policy may be judged ----

  lemma OwnIs(s: State)
    ensures EntriesUnder(s.archive, s.policy) == Own(s) && RoundsUnder(s.archive, s.policy) == OwnRounds(s)
  {
    FilterSame(s.archive, (e: ArchiveEntry) => StampedBy(e, s.policy), StampedNow(s));
  }

  lemma JudgeableIs(s: State, m: Measurement)
    requires Inv(s)
    ensures Judgeable(s.archive, s.policy, s.history, m) <==>
              && |s.history| >= 1 && Base(s.history, |s.history| + 1).Some?
              && |OwnRounds(s)| >= 2 && m.current.epoch.coverage.Some?
  {
    var h, v := s.history, |s.history| + 1;
    OwnIs(s);
    LawfulState(s);
    SnapIsGood(h, v);
    BaseIsJudgedFrom(h, v);
    if Base(h, v).Some? { EverySnapshotIsFound(h, Base(h, v).value); }
    if v >= 2 { assert RecordOk(h, v - 2); }
  }

  // ---- the contest ----

  /** ps are the candidates, newest first. */
  ghost predicate Listed(s: State, ps: seq<Policy>) {
    && (forall i | 0 <= i < |ps| :: Candidate(s, ps[i].version) && ps[i] == Snap(s.history, ps[i].version))
    && (forall a | Candidate(s, a) :: Snap(s.history, a) in ps && Snap(s.history, a).version == a)
    && (forall j, k | 0 <= j < k < |ps| :: ps[j].version > ps[k].version)
  }

  ghost predicate Scored(ps: seq<Policy>, scores: seq<Option<real>>, f: Policy -> Option<real>) {
    |scores| == |ps| && forall i | 0 <= i < |ps| :: scores[i] == f(ps[i])
  }

  lemma {:induction false} AncestorBelow(h: seq<HistoryEntry>, v: nat, a: int)
    requires AncestorOf(h, v, a)
    ensures 0 < a < v
    decreases v
  {
    if a != Base(h, v).value { AncestorBelow(h, Base(h, v).value, a); }
  }

  lemma CandidateVersion(s: State, a: int)
    requires Inv(s) && Candidate(s, a)
    ensures Snap(s.history, a).version == a
  {
    AncestorBelow(s.history, |s.history| + 1, a);
    SnapIsGood(s.history, a);
  }

  ghost predicate Falling(ps: seq<Policy>) { forall j, k | 0 <= j < k < |ps| :: ps[j].version > ps[k].version }

  lemma FallingCons(p: Policy, ps: seq<Policy>)
    requires Falling(ps) && forall q | q in ps :: q.version < p.version
    ensures Falling([p] + ps)
  {
  }

  lemma {:induction false} FallingFilter(chain: seq<Policy>, keep: Policy -> bool)
    requires Falling(chain)
    ensures Falling(Filter(chain, keep))
    decreases |chain|
  {
    if chain != [] {
      var rest := Filter(chain[1..], keep);
      FallingFilter(chain[1..], keep);
      forall q | q in rest ensures q.version < chain[0].version {
        FilterMember(chain[1..], keep, q);
        var i :| 0 <= i < |chain[1..]| && chain[1..][i] == q;
        assert chain[i + 1] == q;
      }
      FallingCons(chain[0], rest);
      EmptyConcat(rest);
    }
  }

  lemma ChainFalls(s: State)
    requires Inv(s)
    ensures Falling(UnjudgedAncestors(s.policy, s.history))
  {
    AncestorsDescend(s.history, |s.history| + 1);
  }

  lemma CandidatesAreListed(s: State)
    requires Inv(s)
    ensures Listed(s, Unrejected(UnjudgedAncestors(s.policy, s.history), s.history))
  {
    var h, rejected := s.history, RolledBackHashes(s.history);
    var ps := Unrejected(UnjudgedAncestors(s.policy, h), h);
    ChainFalls(s);
    FallingFilter(UnjudgedAncestors(s.policy, h), (p: Policy) => PolicyHash(p) !in rejected);
    forall i | 0 <= i < |ps| ensures Candidate(s, ps[i].version) && ps[i] == Snap(h, ps[i].version) {
      CandidateIsVersion(s, ps[i]);
    }
    forall a | Candidate(s, a) ensures Snap(h, a) in ps && Snap(h, a).version == a {
      CandidatesAre(s, Snap(h, a));
      CandidateVersion(s, a);
    }
  }

  lemma CandidateIsVersion(s: State, p: Policy)
    requires Inv(s) && p in Unrejected(UnjudgedAncestors(s.policy, s.history), s.history)
    ensures Candidate(s, p.version) && p == Snap(s.history, p.version)
  {
    CandidatesAre(s, p);
    var a :| Candidate(s, a) && p == Snap(s.history, a);
    CandidateVersion(s, a);
  }

  lemma BeatenBy(s: State, ps: seq<Policy>, scores: seq<Option<real>>, f: Policy -> Option<real>, lenient: bool)
    requires Listed(s, ps) && Scored(ps, scores, f)
    ensures Beaten(scores, f(s.policy), lenient) <==> exists a :: Candidate(s, a) && Beats(s, f, a, lenient)
  {
    if Beaten(scores, f(s.policy), lenient) {
      var j :| 0 <= j < |scores| && Above(scores[j], f(s.policy), lenient);
      assert Candidate(s, ps[j].version) && Beats(s, f, ps[j].version, lenient);
    }
    if a :| Candidate(s, a) && Beats(s, f, a, lenient) {
      var i :| 0 <= i < |ps| && ps[i] == Snap(s.history, a);
      assert scores[i] == f(ps[i]);
    }
  }

  /** r scores best of the candidates, and of those that score alike is the newest. */
  ghost predicate BestBy(s: State, f: Policy -> Option<real>, r: int) {
    && f(Snap(s.history, r)).Some?
    && forall a | Candidate(s, a) && f(Snap(s.history, a)).Some? ::
         NoBetter(f(Snap(s.history, a)).value, f(Snap(s.history, r)).value, a, r)
  }

  predicate NoBetter(x: real, y: real, a: int, r: int) { x < y || (x == y && a <= r) }

  lemma FirstIsBest(s: State, ps: seq<Policy>, scores: seq<Option<real>>, f: Policy -> Option<real>, i: nat)
    requires Listed(s, ps) && Scored(ps, scores, f) && FirstMaximum(scores, i)
    ensures BestBy(s, f, ps[i].version)
  {
    forall a | Candidate(s, a) && f(Snap(s.history, a)).Some?
      ensures NoBetter(f(Snap(s.history, a)).value, f(ps[i]).value, a, ps[i].version)
    {
      var j :| 0 <= j < |ps| && ps[j] == Snap(s.history, a);
      assert scores[j] == f(ps[j]) && scores[i] == f(ps[i]);
    }
  }

  lemma ContestIs(s: State, m: Measurement)
    ensures var c := ContestOf(s.archive, s.policy, s.history, m);
            && c.candidates == Unrejected(UnjudgedAncestors(s.policy, s.history), s.history)
            && Scored(c.candidates, c.coverages, CoverageBy(s)) && c.ownCoverage == CoverageBy(s)(s.policy)
            && Scored(c.candidates, c.validities, ValidityBy(s, m)) && c.ownValidity == ValidityBy(s, m)(s.policy)
  {
    OwnIs(s);
  }

  lemma RestoredIsValid(s: State, t: Policy)
    requires GoodPolicy(s.policy) && GoodPolicy(t)
    ensures NewVersion(s.policy, t.topics, t.threshold, Rollback, Some(t.version)).Some?
  {
  }

  lemma DecideRollsBack(s: State, m: Measurement, inputs: Inputs)
    requires Inv(s)
    ensures Decide(s.archive, s.policy, s.history, m, inputs).RollBack? <==>
            RollbackTarget(s.archive, s.policy, s.history, m).Some?
  {
    var target := RollbackTarget(s.archive, s.policy, s.history, m);
    if target.Some? {
      TargetIsGood(s, m);
      LawfulState(s);
      RestoredIsValid(s, target.value);
    }
  }

  ghost predicate SomeBeats(s: State, f: Policy -> Option<real>, lenient: bool) {
    exists a :: Candidate(s, a) && Beats(s, f, a, lenient)
  }

  lemma TargetWhen(s: State, m: Measurement)
    requires Inv(s)
    ensures RollbackTarget(s.archive, s.policy, s.history, m).Some? <==>
              && Judgeable(s.archive, s.policy, s.history, m)
              && (SomeBeats(s, CoverageBy(s), false) || SomeBeats(s, ValidityBy(s, m), true))
  {
    var c := ContestOf(s.archive, s.policy, s.history, m);
    RollbackPicksTheBest(s.archive, s.policy, s.history, m);
    ContestIs(s, m);
    CandidatesAreListed(s);
    BeatenBy(s, c.candidates, c.coverages, CoverageBy(s), false);
    BeatenBy(s, c.candidates, c.validities, ValidityBy(s, m), true);
  }

  /** A reachable decision is a rollback exactly when the policy in force is not the
      root, has an ancestor, has run for two rounds of its own, the measurement has a
      coverage, and some ancestor that no rollback rejected scores better: on coverage
      of those rounds, or on validity of those of them the evidence could have seen. */
  lemma ReachableRollsBackExactlyWhen(archive: seq<ArchiveEntry>, steps: seq<Step>, m: Measurement, inputs: Inputs)
    requires Tokenized(steps)
    ensures var s := Run(Start(archive), steps);
            Decide(s.archive, s.policy, s.history, m, inputs).RollBack? <==>
              && s.policy.version >= 2 && Base(s.history, s.policy.version).Some?
              && |OwnRounds(s)| >= 2 && m.current.epoch.coverage.Some?
              && exists a :: Candidate(s, a) && (CoversBetter(s, a) || AgreesBetter(s, m, a))
  {
    StartIsGood(archive);
    RunKeepsInv(Start(archive), steps);
    RollsBackExactlyWhen(Run(Start(archive), steps), m, inputs);
  }

  lemma RollsBackExactlyWhen(s: State, m: Measurement, inputs: Inputs)
    requires Inv(s)
    ensures Decide(s.archive, s.policy, s.history, m, inputs).RollBack? <==>
              && s.policy.version >= 2 && Base(s.history, s.policy.version).Some?
              && |OwnRounds(s)| >= 2 && m.current.epoch.coverage.Some?
              && exists a :: Candidate(s, a) && (CoversBetter(s, a) || AgreesBetter(s, m, a))
  {
    LawfulState(s);
    DecideRollsBack(s, m, inputs);
    TargetWhen(s, m);
    JudgeableIs(s, m);
  }

  // ---- which version is restored ----

  /** A reachable rollback restores, verbatim, the candidate with the best coverage
      when some candidate covers better, and else the one with the best validity; of
      candidates that score alike, the newest. */
  lemma ReachableRollbackRestoresTheBest(archive: seq<ArchiveEntry>, steps: seq<Step>, m: Measurement, inputs: Inputs)
    requires Tokenized(steps)
    requires var s := Run(Start(archive), steps); Decide(s.archive, s.policy, s.history, m, inputs).RollBack?
    ensures var s := Run(Start(archive), steps);
            var p := Decide(s.archive, s.policy, s.history, m, inputs).policy;
            && p.restored.Some? && Candidate(s, p.restored.value)
            && p.topics == Snap(s.history, p.restored.value).topics
            && p.threshold == Snap(s.history, p.restored.value).threshold
            && BestBy(s, if exists a :: Candidate(s, a) && CoversBetter(s, a) then CoverageBy(s) else ValidityBy(s, m),
                      p.restored.value)
  {
    StartIsGood(archive);
    RunKeepsInv(Start(archive), steps);
    var s := Run(Start(archive), steps);
    var t := RollBackFacts(s.archive, s.policy, s.history, m, inputs);
    RestoresBest(s, m, t);
  }

  lemma RestoresBest(s: State, m: Measurement, t: Policy)
    requires Inv(s) && RollbackTarget(s.archive, s.policy, s.history, m) == Some(t)
    ensures Candidate(s, t.version) && t == Snap(s.history, t.version)
    ensures BestBy(s, if SomeBeats(s, CoverageBy(s), false) then CoverageBy(s) else ValidityBy(s, m), t.version)
  {
    var c := ContestOf(s.archive, s.policy, s.history, m);
    RollbackPicksTheBest(s.archive, s.policy, s.history, m);
    ContestIs(s, m);
    CandidatesAreListed(s);
    BeatenBy(s, c.candidates, c.coverages, CoverageBy(s), false);
    if SomeBeats(s, CoverageBy(s), false) {
      var i: nat :| FirstMaximum(c.coverages, i) && i < |c.candidates| && t == c.candidates[i];
      FirstIsBest(s, c.candidates, c.coverages, CoverageBy(s), i);
    } else {
      var i: nat :| FirstMaximum(c.validities, i) && i < |c.candidates| && t == c.candidates[i];
      FirstIsBest(s, c.candidates, c.validities, ValidityBy(s, m), i);
    }
  }
}
