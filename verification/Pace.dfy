/** How archived reviews let a policy be judged: scripts/archive-round.py stamps them,
    scripts/revise-improvement-policy.py waits for two under the policy in force. */
module Pace {
  import opened Text
  import opened Records
  import opened Sorting
  import opened ImprovementPolicy
  import opened Rounds
  import opened Measuring
  import opened Revising
  import opened Runs
  import opened RollbackRule
  import Archiving

  // ---- one review ----

  /** The review ran to completion: it is stamped so, or, without any stamp, has
      findings. */
  predicate Completed(r: Archiving.Review) { r.status == Some("completed") || (r.status == None && r.findings != []) }

  ghost predicate Unarchived(es: seq<ArchiveEntry>, sha: string) { forall e | e in es :: e.sourceSha != Some(sha) }

  /** A review enters the archive exactly when it completed and its commit is new. */
  lemma ArchivedExactlyWhen(es: seq<ArchiveEntry>, r: Archiving.Review, stamp: Policy)
    ensures var after := Archiving.ArchiveReview(es, r, stamp);
            if Completed(r) && Unarchived(es, r.sha) then |after| == |es| + 1 && after[..|es|] == es else after == es
  {
    if !Unarchived(es, r.sha) {
      var e :| e in es && e.sourceSha == Some(r.sha);
      var i :| 0 <= i < |es| && es[i] == e;
    }
  }

  /** Its number is one more than the greatest so far, or 1. */
  lemma NextNumberIs(es: seq<ArchiveEntry>)
    ensures var n := Archiving.NextRoundNumber(es);
            if es == [] then n == 1
            else (exists e | e in es :: Archiving.RoundOr0(e) == n - 1)
                 && forall e | e in es :: Archiving.RoundOr0(e) <= n - 1
  {
    if es != [] { HighestIsReached(es); }
  }

  lemma {:induction false} HighestIsReached(es: seq<ArchiveEntry>)
    requires es != []
    ensures exists e | e in es :: Archiving.RoundOr0(e) == Archiving.Highest(es)
  {
    assert es[0] in es;
    if |es| > 1 {
      HighestIsReached(es[1..]);
      var e :| e in es[1..] && Archiving.RoundOr0(e) == Archiving.Highest(es[1..]);
      assert e in es;
    }
  }

  lemma RoundsUnderSnoc(es: seq<ArchiveEntry>, e: ArchiveEntry, p: Policy)
    ensures RoundsUnder(es + [e], p) ==
            RoundsUnder(es, p) + (if StampedBy(e, p) && e.round.Some? then {KeyOf(e)} else {})
  {
  }

  /** An archived review counts as one more round of the policy that was in force, and
      of no policy with another version or content. */
  lemma ReviewCountsForItsPolicy(es: seq<ArchiveEntry>, r: Archiving.Review, stamp: Policy, p: Policy)
    requires Completed(r) && Unarchived(es, r.sha)
    ensures |RoundsUnder(Archiving.ArchiveReview(es, r, stamp), p)| == |RoundsUnder(es, p)| +
              (if p.version == stamp.version && PolicyHash(p) == PolicyHash(stamp) then 1 else 0)
    ensures RoundsUnder(es, p) <= RoundsUnder(Archiving.ArchiveReview(es, r, stamp), p)
  {
    var e := Archiving.BuildEntry(es, r, stamp);
    forall i | 0 <= i < |es| ensures es[i].sourceSha != Some(r.sha) { assert es[i] in es; }
    Archiving.NewCommitIsFresh(es, r, stamp);
    RoundsUnderSnoc(es, e, p);
    assert KeyOf(e) !in RoundsUnder(es, p);
  }

  /** What an archived review adds for the detector and the measurement: its findings,
      at its time, under a key of its own. */
  lemma ReviewIsRecorded(es: seq<ArchiveEntry>, r: Archiving.Review, stamp: Policy)
    requires Completed(r) && Unarchived(es, r.sha)
    ensures var after := Archiving.ArchiveReview(es, r, stamp);
            && after[..|es|] == es && after[|es|].findings == r.findings && after[|es|].occurredAt == Some(r.now)
            && after[|es|].sourceSha == Some(r.sha) && after[|es|].round == Some(Archiving.NextRoundNumber(es))
            && forall e | e in es :: KeyOf(e) != KeyOf(after[|es|])
  {
    forall i | 0 <= i < |es| ensures es[i].sourceSha != Some(r.sha) { assert es[i] in es; }
    Archiving.NewCommitIsFresh(es, r, stamp);
    forall e | e in es ensures KeyOf(e) in Archiving.AllKeys(es) { }
  }

  // ---- waiting ----

  lemma WaitsWhen(s: State, m: Measurement, inputs: Inputs)
    requires Inv(s)
    ensures Decide(s.archive, s.policy, s.history, m, inputs) == NoAction(Waiting) <==>
            s.policy.version >= 2 && |OwnRounds(s)| < 2
  {
    LawfulState(s);
    SnapIsGood(s.history, |s.history| + 1);
    DecideRollsBack(s, m, inputs);
    TargetWhen(s, m);
    JudgeableIs(s, m);
    OwnIs(s);
    DecideWaits(s, m, inputs);
  }

  lemma DecideWaits(s: State, m: Measurement, inputs: Inputs)
    ensures Decide(s.archive, s.policy, s.history, m, inputs) == NoAction(Waiting) <==>
              && RollbackTarget(s.archive, s.policy, s.history, m).None?
              && s.policy.origin != Init && |RoundsUnder(s.archive, s.policy)| < MIN_ROUNDS_TO_JUDGE
  {
  }

  /** In a reachable state the loop waits exactly while a policy other than the root has
      fewer than two rounds of its own. */
  lemma ReachableWaitsExactlyWhen(archive: seq<ArchiveEntry>, steps: seq<Step>, m: Measurement, inputs: Inputs)
    requires Tokenized(steps)
    ensures var s := Run(Start(archive), steps);
            Decide(s.archive, s.policy, s.history, m, inputs) == NoAction(Waiting) <==>
            s.policy.version >= 2 && |OwnRounds(s)| < 2
  {
    StartIsGood(archive);
    RunKeepsInv(Start(archive), steps);
    WaitsWhen(Run(Start(archive), steps), m, inputs);
  }

  /** The archive after two reviews under the policy in force. */
  function AfterTwo(s: State, r1: Archiving.Review, r2: Archiving.Review): seq<ArchiveEntry> {
    Archiving.ArchiveReview(Archiving.ArchiveReview(s.archive, r1, s.policy), r2, s.policy)
  }

  lemma TwoReviewsCount(s: State, r1: Archiving.Review, r2: Archiving.Review)
    requires Completed(r1) && Completed(r2) && r1.sha != r2.sha
    requires Unarchived(s.archive, r1.sha) && Unarchived(s.archive, r2.sha)
    ensures |RoundsUnder(AfterTwo(s, r1, r2), s.policy)| == |RoundsUnder(s.archive, s.policy)| + 2
  {
    var once := Archiving.ArchiveReview(s.archive, r1, s.policy);
    ReviewCountsForItsPolicy(s.archive, r1, s.policy, s.policy);
    ReviewIsRecorded(s.archive, r1, s.policy);
    forall e | e in once ensures e.sourceSha != Some(r2.sha) {
      var i :| 0 <= i < |once| && once[i] == e;
      if i < |s.archive| { assert once[..|s.archive|][i] == e; }
    }
    ReviewCountsForItsPolicy(once, r2, s.policy, s.policy);
  }

  /** Two completed reviews of new commits end the wait, whatever is measured then. */
  lemma TwoReviewsEndTheWait(s: State, r1: Archiving.Review, r2: Archiving.Review, m: Measurement, inputs: Inputs)
    requires Completed(r1) && Completed(r2) && r1.sha != r2.sha
    requires Unarchived(s.archive, r1.sha) && Unarchived(s.archive, r2.sha)
    ensures Decide(AfterTwo(s, r1, r2), s.policy, s.history, m, inputs) != NoAction(Waiting)
  {
    TwoReviewsCount(s, r1, r2);
    DecideWaits(s.(archive := AfterTwo(s, r1, r2)), m, inputs);
  }
}
