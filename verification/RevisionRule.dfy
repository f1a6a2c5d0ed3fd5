/** What a revision is made of and when one is made, for every reachable state
    (scripts/revise-improvement-policy.py). */
module RevisionRule {
  import opened Text
  import opened Records
  import opened Sorting
  import opened ImprovementPolicy
  import opened Rounds
  import opened Measuring
  import opened Mining
  import opened Revising
  import opened Meaning
  import opened Runs
  import opened RollbackRule
  import opened MiningRule
  import Archiving

  // ---- field failures ----

  /** What is mined of a failure: its excerpt, trimmed and scrubbed. */
  function Excerpt(env: Env, f: FieldFailure): string { env.scrub(Strip(f.excerpt)) }

  predicate IsBlind(text: string, defs: seq<Definition>) { text != "" && Classify(text, defs).None? }

  ghost function BlindTexts(env: Env, failures: seq<FieldFailure>, defs: seq<Definition>): set<string> {
    set f | f in failures && IsBlind(Excerpt(env, f), defs) :: Excerpt(env, f)
  }

  ghost predicate OneEach(items: seq<Item>, texts: set<string>) {
    && (forall i, j | 0 <= i < j < |items| :: items[i].finding != items[j].finding)
    && (forall t :: t in texts <==> exists i | 0 <= i < |items| :: items[i].finding == t)
  }

  /** The item names the session of the first failure with its text, by eight characters. */
  ghost predicate FromFirst(it: Item, env: Env, failures: seq<FieldFailure>) {
    exists k | 0 <= k < |failures| ::
      && Excerpt(env, failures[k]) == it.finding && (forall j | 0 <= j < k :: Excerpt(env, failures[j]) != it.finding)
      && it.source == Field(var id := failures[k].traceId; if |id| <= 8 then id else id[..8])
  }

  lemma OneEachCons(it: Item, items: seq<Item>, texts: set<string>, all: set<string>)
    requires OneEach(items, texts) && it.finding !in texts && all == texts + {it.finding}
    ensures OneEach([it] + items, all)
  {
    var r := [it] + items;
    forall i, j | 0 <= i < j < |r| ensures r[i].finding != r[j].finding {
      assert r[j] == items[j - 1];
      assert items[j - 1].finding in texts;
      if i > 0 { assert r[i] == items[i - 1]; }
    }
    forall t | t in all ensures exists i | 0 <= i < |r| :: r[i].finding == t {
      if t in texts {
        var i :| 0 <= i < |items| && items[i].finding == t;
        assert r[i + 1] == items[i];
      } else {
        assert r[0].finding == t;
      }
    }
    forall i | 0 <= i < |r| ensures r[i].finding in all { if i > 0 { assert items[i - 1].finding in texts; } }
  }

  lemma {:induction false} BlindSpotsFrom(env: Env, failures: seq<FieldFailure>, defs: seq<Definition>,
                                          seen: set<string>)
    ensures OneEach(BlindSpots(env, failures, defs, seen), BlindTexts(env, failures, defs) - seen)
    decreases |failures|
  {
    if failures != [] {
      var text, rest := Excerpt(env, failures[0]), failures[1..];
      assert failures == [failures[0]] + rest;
      assert BlindTexts(env, failures, defs) ==
             BlindTexts(env, rest, defs) + (if IsBlind(text, defs) then {text} else {});
      if !IsBlind(text, defs) || text in seen {
        BlindSpotsFrom(env, rest, defs, seen);
        assert BlindTexts(env, failures, defs) - seen == BlindTexts(env, rest, defs) - seen;
      } else {
        BlindSpotsFrom(env, rest, defs, seen + {text});
        var items := BlindSpots(env, rest, defs, seen + {text});
        OneEachCons(BlindSpots(env, failures, defs, seen)[0], items, BlindTexts(env, rest, defs) - (seen + {text}),
                    BlindTexts(env, failures, defs) - seen);
      }
    }
  }

  lemma {:induction false} BlindSpotsNameFirst(env: Env, failures: seq<FieldFailure>, defs: seq<Definition>,
                                               seen: set<string>, it: Item)
    requires it in BlindSpots(env, failures, defs, seen)
    ensures FromFirst(it, env, failures) && it.finding !in seen
    decreases |failures|
  {
    var text, rest := Excerpt(env, failures[0]), failures[1..];
    assert failures == [failures[0]] + rest;
    if !IsBlind(text, defs) {
      BlindSpotsNameFirst(env, rest, defs, seen, it);
      UnclassifiedItem(env, rest, defs, seen, it);
      FirstLater(it, env, failures);
    } else if text in seen {
      BlindSpotsNameFirst(env, rest, defs, seen, it);
      FirstLater(it, env, failures);
    } else {
      var head := BlindSpots(env, failures, defs, seen)[0];
      if it != head {
        assert it in BlindSpots(env, rest, defs, seen + {text});
        BlindSpotsNameFirst(env, rest, defs, seen + {text}, it);
        FirstLater(it, env, failures);
      } else {
        assert Excerpt(env, failures[0]) == it.finding;
      }
    }
  }

  lemma UnclassifiedItem(env: Env, failures: seq<FieldFailure>, defs: seq<Definition>, seen: set<string>, it: Item)
    requires it in BlindSpots(env, failures, defs, seen)
    ensures IsBlind(it.finding, defs)
  {
    BlindSpotsFrom(env, failures, defs, seen);
    var items := BlindSpots(env, failures, defs, seen);
    var i :| 0 <= i < |items| && items[i] == it;
    assert it.finding in BlindTexts(env, failures, defs) - seen;
  }

  lemma FirstLater(it: Item, env: Env, failures: seq<FieldFailure>)
    requires failures != [] && FromFirst(it, env, failures[1..]) && Excerpt(env, failures[0]) != it.finding
    ensures FromFirst(it, env, failures)
  {
    var rest := failures[1..];
    var k :| 0 <= k < |rest| && Excerpt(env, rest[k]) == it.finding
      && (forall j | 0 <= j < k :: Excerpt(env, rest[j]) != it.finding)
      && it.source == Field(var id := rest[k].traceId; if |id| <= 8 then id else id[..8]);
    assert failures[k + 1] == rest[k];
    forall j | 0 <= j < k + 1 ensures Excerpt(env, failures[j]) != it.finding {
      if j > 0 { assert failures[j] == rest[j - 1]; }
    }
  }

  lemma {:induction false} OneEachCount(items: seq<Item>, texts: set<string>)
    requires OneEach(items, texts)
    ensures |items| == |texts|
    decreases |items|
  {
    if items == [] {
      assert texts == {};
    } else {
      var rest, first := items[1..], items[0].finding;
      assert items == [items[0]] + rest;
      assert first in texts;
      forall t ensures t in texts - {first} <==> exists i | 0 <= i < |rest| :: rest[i].finding == t {
        if t in texts - {first} {
          var i :| 0 <= i < |items| && items[i].finding == t;
          assert rest[i - 1] == items[i];
        }
        if i :| 0 <= i < |rest| && rest[i].finding == t { assert items[i + 1] == rest[i]; }
      }
      OneEachCount(rest, texts - {first});
    }
  }

  /** Of the field failures mining sees each distinct unclassified excerpt once, under
      the session that showed it first; they are as many as there are such excerpts. */
  lemma BlindSpotsAre(policy: Policy, inputs: Inputs)
    ensures var items, texts := Blind(policy, inputs), BlindTexts(inputs.env, inputs.failures, Keywords(policy.topics));
            && OneEach(items, texts) && |items| == |texts|
            && forall it | it in items :: FromFirst(it, inputs.env, inputs.failures)
  {
    var defs := Keywords(policy.topics);
    BlindSpotsFrom(inputs.env, inputs.failures, defs, {});
    assert BlindTexts(inputs.env, inputs.failures, defs) - {} == BlindTexts(inputs.env, inputs.failures, defs);
    OneEachCount(Blind(policy, inputs), BlindTexts(inputs.env, inputs.failures, defs));
    forall it | it in Blind(policy, inputs) ensures FromFirst(it, inputs.env, inputs.failures) {
      BlindSpotsNameFirst(inputs.env, inputs.failures, defs, {}, it);
    }
  }

  // ---- vocabularies ----

  lemma {:induction false} TokensAre(env: Env, fs: seq<string>, t: string)
    ensures t in TokensOf(env, fs) <==> exists f | f in fs :: t in env.tokenize(f)
  {
    if fs != [] {
      TokensAre(env, fs[1..], t);
      assert fs == [fs[0]] + fs[1..];
    }
  }

  lemma {:induction false} FindingsAre(entries: seq<ArchiveEntry>, f: string)
    ensures f in AllFindings(entries) <==> exists e | e in entries :: f in e.findings
  {
    if entries != [] {
      FindingsAre(entries[1..], f);
      assert entries == [entries[0]] + entries[1..];
    }
  }

  lemma {:induction false} NumberedFindings(entries: seq<ArchiveEntry>)
    requires forall e | e in entries :: e.round.Some?
    ensures AllFindings(entries) == EntryFindings(entries)
  {
    if entries != [] { NumberedFindings(entries[1..]); }
  }

  /** Field failures may contribute the safe words and every token of any archived
      finding, numbered or not, and no other. */
  lemma VocabularyIs(env: Env, entries: seq<ArchiveEntry>, safe: set<string>, t: string)
    ensures t in FieldVocabulary(env, entries, safe) <==>
            t in safe || exists e, f | e in entries && f in e.findings :: t in env.tokenize(f)
  {
    TokensAre(env, AllFindings(entries), t);
    if t in TokensOf(env, AllFindings(entries)) {
      var f :| f in AllFindings(entries) && t in env.tokenize(f);
      FindingsAre(entries, f);
      var e :| e in entries && f in e.findings;
    }
    if e, f :| e in entries && f in e.findings && t in env.tokenize(f) { FindingsAre(entries, f); }
  }

  function HasToken(env: Env, t: string): string -> bool { (f: string) => t in env.tokenize(f) }

  lemma {:induction false} FindingsWithIs(env: Env, fs: seq<string>, t: string)
    ensures FindingsWith(env, fs, t) == |Filter(fs, HasToken(env, t))|
  {
    if fs != [] { FindingsWithIs(env, fs[1..], t); }
  }

  /** The findings whose common words are background: the classified ones, or all when
      there is nothing to classify by. */
  function Reference(entries: seq<ArchiveEntry>, defs: seq<Definition>): seq<string> {
    Filter(AllFindings(entries), (f: string) => defs == [] || Classify(f, defs).Some?)
  }

  /** A token is background when ten of these findings have it and more than a fifth. */
  lemma BackgroundIs(env: Env, entries: seq<ArchiveEntry>, defs: seq<Definition>, t: string)
    ensures var fs := Reference(entries, defs);
            var n := |Filter(fs, HasToken(env, t))|;
            t in BackgroundTokens(env, entries, defs) <==> n >= 10 && 5 * n > |fs|
  {
    var fs, all := Reference(entries, defs), AllFindings(entries);
    if defs == [] {
      FilterAll(all, (f: string) => defs == [] || Classify(f, defs).Some?);
    } else {
      FilterSame(all, (f: string) => IsClassified(f, defs), (f: string) => defs == [] || Classify(f, defs).Some?);
    }
    FindingsWithIs(env, fs, t);
    TokensAre(env, fs, t);
    if |Filter(fs, HasToken(env, t))| > 0 {
      var f := Filter(fs, HasToken(env, t))[0];
      FilterMember(fs, HasToken(env, t), f);
    }
    ShareOfFifth(FindingsWith(env, fs, t), |fs|);
  }

  lemma ShareOfFifth(n: nat, total: nat)
    ensures n as real > 0.2 * total as real <==> 5 * n > total
  {
    assert 5.0 * (n as real) == (5 * n) as real;
  }

  // ---- weight repair ----

  /** Topics to discount: none unless validity failed on evidence that saw every round. */
  function Fading(current: Current, discount: bool): seq<string> {
    if discount && current.roundsAfterEvidence == 0 then current.epoch.devOnly else []
  }

  function FullyRepaired(policy: Policy, current: Current, discount: bool): Policy {
    match CandidateAnchor(current, policy)
    case None => policy
    case Some(anchor) => policy.(topics := RepairedTopics(policy.topics, anchor, Fading(current, discount)))
  }

  ghost predicate Worsens(policy: Policy, after: Policy, current: Current, entries: seq<ArchiveEntry>) {
    ValidityRegressed(ValidityUnder(policy, entries, CandidateAnchor(current, policy)),
                      ValidityUnder(after, entries, CandidateAnchor(current, after)))
  }

  lemma NamedTopic(topics: seq<Topic>, i: nat)
    requires DistinctNames(topics) && i < |topics|
    ensures topics[i].name in Names(Keywords(topics)) && WeightOf(topics, topics[i].name) == topics[i].weight
  {
    NameListed(topics, i);
    Archiving.WeightAt(topics, i);
  }

  lemma NameListed(topics: seq<Topic>, i: nat)
    requires i < |topics|
    ensures topics[i].name in Names(Keywords(topics))
  {
    assert Names(Keywords(topics))[i] == topics[i].name;
  }

  lemma {:induction false} DiscountListed(topics: seq<Topic>, fading: seq<string>, name: string)
    requires name in fading && name in Names(Keywords(topics))
    requires DiscountedWeight(WeightOf(topics, name)) < WeightOf(topics, name)
    ensures Discounts(topics, fading) != []
  {
    if fading[0] != name { DiscountListed(topics, fading[1..], name); }
  }

  lemma {:induction false} DiscountNames(topics: seq<Topic>, fading: seq<string>) returns (name: string)
    requires Discounts(topics, fading) != []
    ensures name in fading && name in Names(Keywords(topics))
    ensures DiscountedWeight(WeightOf(topics, name)) < WeightOf(topics, name)
  {
    var w := WeightOf(topics, fading[0]);
    if fading[0] in Names(Keywords(topics)) && DiscountedWeight(w) < w {
      name := fading[0];
    } else {
      name := DiscountNames(topics, fading[1..]);
    }
  }

  lemma {:induction false} RestorationListed(topics: seq<Topic>, anchor: Counts)
    ensures Restorations(topics, anchor) != [] <==> exists i | 0 <= i < |topics| :: Corroborated(topics[i], anchor)
  {
    if topics != [] {
      RestorationListed(topics[1..], anchor);
      if i :| 0 <= i < |topics| && Corroborated(topics[i], anchor) {
        if i > 0 { assert topics[1..][i - 1] == topics[i]; }
      }
      if i :| 0 <= i < |topics[1..]| && Corroborated(topics[1..][i], anchor) { assert topics[i + 1] == topics[1..][i]; }
    }
  }

  /** Nothing is listed exactly when no weight would move. */
  lemma ListedWhenMoved(topics: seq<Topic>, anchor: Counts, fading: seq<string>)
    requires DistinctNames(topics) && StandardWeights(topics)
    ensures Discounts(topics, fading) == [] && Restorations(topics, anchor) == [] <==>
            RepairedTopics(topics, anchor, fading) == topics
    ensures Restorations(topics, anchor) != [] <==>
            exists i | 0 <= i < |topics| :: RepairedTopics(topics, anchor, fading)[i].weight > topics[i].weight
  {
    var r := RepairedTopics(topics, anchor, fading);
    RestorationListed(topics, anchor);
    forall i | 0 <= i < |topics|
      ensures r[i].weight > topics[i].weight <==> Corroborated(topics[i], anchor)
      ensures r[i] == topics[i] <==> r[i].weight == topics[i].weight
      ensures r[i].weight < topics[i].weight ==> Discounts(topics, fading) != []
    {
      MovesOne(topics, anchor, fading, i);
    }
    if Discounts(topics, fading) != [] { DiscountMoves(topics, anchor, fading); }
  }

  lemma MovesOne(topics: seq<Topic>, anchor: Counts, fading: seq<string>, i: nat)
    requires DistinctNames(topics) && StandardWeights(topics) && i < |topics|
    ensures var r := RepairedTopics(topics, anchor, fading);
            && (r[i].weight > topics[i].weight <==> Corroborated(topics[i], anchor))
            && (r[i] == topics[i] <==> r[i].weight == topics[i].weight)
            && (r[i].weight < topics[i].weight ==> Discounts(topics, fading) != [])
  {
    WeightsFollowTheField(topics, anchor, fading, i);
    NamedTopic(topics, i);
    var r := RepairedTopics(topics, anchor, fading);
    HalvingAndDoubling();
    assert StandardWeight(topics[i].weight);
    if r[i].weight < topics[i].weight { DiscountListed(topics, fading, topics[i].name); }
  }

  lemma DiscountMoves(topics: seq<Topic>, anchor: Counts, fading: seq<string>)
    requires DistinctNames(topics) && StandardWeights(topics) && Discounts(topics, fading) != []
    ensures RepairedTopics(topics, anchor, fading) != topics
  {
    var name := DiscountNames(topics, fading);
    var i := TopicAt(topics, name).value;
    WeightsFollowTheField(topics, anchor, fading, i);
    HalvingAndDoubling();
    assert StandardWeight(topics[i].weight);
    assert RepairedTopics(topics, anchor, fading)[i].weight != topics[i].weight;
  }

  lemma {:induction false} DiscountsOnly(topics: seq<Topic>, fading: seq<string>)
    ensures forall c | c in Discounts(topics, fading) :: c.Discounted?
  {
    if fading != [] { DiscountsOnly(topics, fading[1..]); }
  }

  lemma {:induction false} RestorationsOnly(topics: seq<Topic>, anchor: Counts)
    ensures forall c | c in Restorations(topics, anchor) :: c.Restored?
  {
    if topics != [] { RestorationsOnly(topics[1..], anchor); }
  }

  lemma ChangesOf(skipped: seq<Change>, discounts: seq<Change>, restorations: seq<Change>)
    requires (forall c | c in skipped :: c.Skipped?) && (forall c | c in discounts :: c.Discounted?)
    requires forall c | c in restorations :: c.Restored?
    ensures var all := skipped + discounts + restorations;
            && (Idle(all) <==> discounts == [] && restorations == []) && (AnyRestored(all) <==> restorations != [])
  {
    var all := skipped + discounts + restorations;
    if discounts != [] { assert all[|skipped|] == discounts[0] && discounts[0] in discounts; }
    if restorations != [] {
      assert all[|skipped| + |discounts|] == restorations[0] && restorations[0] in restorations;
    }
    if discounts == [] && restorations == [] { assert all == skipped; }
    forall i | 0 <= i < |all|
      ensures all[i].Skipped? || all[i].Discounted? || (all[i].Restored? && restorations != [])
    {
      assert all[i] in skipped || all[i] in discounts || all[i] in restorations;
    }
  }

  /** What weight repair does: every weight as its rule says, or none at all when the
      repaired policy would agree less with the field. It reports a change exactly when
      a weight moved, and a restoration exactly when one rose. */
  lemma RepairIs(policy: Policy, current: Current, entries: seq<ArchiveEntry>, discount: bool)
    requires DistinctNames(policy.topics) && StandardWeights(policy.topics)
    ensures var full, (topics, changes) :=
              FullyRepaired(policy, current, discount), WeightRepair(policy, current, entries, discount);
            && topics == (if Worsens(policy, full, current, entries) then policy.topics else full.topics)
            && (Idle(changes) <==> topics == policy.topics)
            && (AnyRestored(changes) <==> SomeRise(policy.topics, topics))
  {
    match CandidateAnchor(current, policy)
    case None =>
    case Some(anchor) =>
      var fading := Fading(current, discount);
      var skipped: seq<Change> := if discount && current.roundsAfterEvidence > 0 then [Skipped] else [];
      ListedWhenMoved(policy.topics, anchor, fading);
      DiscountsOnly(policy.topics, fading); RestorationsOnly(policy.topics, anchor);
      ChangesOf(skipped, Discounts(policy.topics, fading), Restorations(policy.topics, anchor));
      RepairCases(policy, current, entries, discount, anchor, skipped);
      OutcomeIs(policy, FullyRepaired(policy, current, discount), current, entries,
                skipped + Discounts(policy.topics, fading) + Restorations(policy.topics, anchor));
  }

  ghost predicate SomeRise(before: seq<Topic>, after: seq<Topic>) {
    exists i | 0 <= i < |before| && i < |after| :: after[i].weight > before[i].weight
  }

  lemma OutcomeIs(policy: Policy, full: Policy, current: Current, entries: seq<ArchiveEntry>, listed: seq<Change>)
    requires |full.topics| == |policy.topics|
    requires Idle(listed) <==> full.topics == policy.topics
    requires AnyRestored(listed) <==> SomeRise(policy.topics, full.topics)
    ensures var (topics, changes) := Outcome(policy, full, current, entries, listed);
            && topics == (if Worsens(policy, full, current, entries) then policy.topics else full.topics)
            && (Idle(changes) <==> topics == policy.topics)
              && (AnyRestored(changes) <==> SomeRise(policy.topics, topics))
  {
  }

  lemma RepairCases(policy: Policy, current: Current, entries: seq<ArchiveEntry>, discount: bool, anchor: Counts,
                    skipped: seq<Change>)
    requires CandidateAnchor(current, policy) == Some(anchor)
    requires skipped == if discount && current.roundsAfterEvidence > 0 then [Skipped] else []
    requires var fading := Fading(current, discount);
             Discounts(policy.topics, fading) == [] && Restorations(policy.topics, anchor) == [] ==>
               FullyRepaired(policy, current, discount).topics == policy.topics
    ensures WeightRepair(policy, current, entries, discount) ==
            Outcome(policy, FullyRepaired(policy, current, discount), current, entries,
                    skipped + Discounts(policy.topics, Fading(current, discount)) + Restorations(policy.topics, anchor))
  {
    var stale := discount && current.roundsAfterEvidence > 0;
    var fading := if discount && !stale then current.epoch.devOnly else [];
    assert fading == Fading(current, discount);
    var full := policy.(topics := RepairedTopics(policy.topics, anchor, fading));
    assert full == FullyRepaired(policy, current, discount);
  }

  ghost function Outcome(policy: Policy, full: Policy, current: Current, entries: seq<ArchiveEntry>,
                         listed: seq<Change>): (seq<Topic>, seq<Change>)
  {
    if listed == [] then (policy.topics, [])
    else if Worsens(policy, full, current, entries) then (policy.topics, [Kept])
    else (full.topics, listed)
  }

  // ---- the proposal ----

  lemma ChangesWithAdded(ms: seq<Mined>, repairs: seq<Change>)
    ensures Idle(AddedChanges(ms) + repairs) <==> ms == [] && Idle(repairs)
    ensures AnyRestored(AddedChanges(ms) + repairs) <==> AnyRestored(repairs)
  {
    var all := AddedChanges(ms) + repairs;
    if ms != [] { assert all[0] == Added(ms[0].name); }
    forall i | 0 <= i < |repairs| ensures all[|ms| + i] == repairs[i] { }
    forall i | 0 <= i < |ms| ensures all[i].Added? { }
    if ms == [] { assert all == repairs; }
    if AnyRestored(repairs) {
      var i :| 0 <= i < |repairs| && repairs[i].Restored?;
      assert all[|ms| + i].Restored?;
    }
  }

  lemma RisesAreOld(topics: seq<Topic>, ms: seq<Mined>, after: seq<Topic>)
    requires |after| == |topics| + |ms| && StandardWeights(after)
    ensures SomeRise(topics + MinedTopics(ms), after) <==> SomeRise(topics, after)
  {
    var wide := topics + MinedTopics(ms);
    forall i | |topics| <= i < |wide| ensures !(after[i].weight > wide[i].weight) {
      assert wide[i] == MinedTopics(ms)[i - |topics|];
      assert StandardWeight(after[i].weight);
    }
    if SomeRise(topics, after) {
      var i :| 0 <= i < |topics| && i < |after| && after[i].weight > topics[i].weight;
      assert wide[i] == topics[i];
    }
  }

  /** Mining happens exactly when coverage is below 0.8 or five field excerpts are
      unclassified, over the unclassified findings and those excerpts, and greedily. */
  lemma MinedExactlyWhen(entries: seq<ArchiveEntry>, policy: Policy, m: Measurement, inputs: Inputs)
    ensures var ms, defs := MinedFor(entries, policy, m, inputs), Keywords(policy.topics);
            if (m.current.epoch.coverage.Some? && m.current.epoch.coverage.value < 0.8)
               || |BlindTexts(inputs.env, inputs.failures, defs)| >= 5
            then Greedy(Pool(inputs.env, m.current.epoch.unclassified + Blind(policy, inputs),
                             ExistingTokens(defs) + BackgroundTokens(inputs.env, entries, defs),
                             FieldVocabulary(inputs.env, entries, inputs.safe)),
                        NameSet(defs), 2, ms)
            else ms == []
  {
    var defs := Keywords(policy.topics);
    BlindSpotsAre(policy, inputs);
    MiningIsGreedy(inputs.env, m.current.epoch.unclassified + Blind(policy, inputs), defs,
                   FieldVocabulary(inputs.env, entries, inputs.safe), BackgroundTokens(inputs.env, entries, defs));
  }

  lemma WidenedIsValid(entries: seq<ArchiveEntry>, policy: Policy, m: Measurement, inputs: Inputs)
    requires ValidPolicy(policy) && StandardWeights(policy.topics) && WellFormed(inputs.env)
    ensures DistinctNames(Widened(entries, policy, m, inputs).topics)
    ensures StandardWeights(Widened(entries, policy, m, inputs).topics)
  {
    var ms := MinedFor(entries, policy, m, inputs);
    MinedForFacts(entries, policy, m, inputs);
    ExtendedIsValid(policy.topics, ms, policy.topics + MinedTopics(ms));
  }

  /** A proposal is the policy with its mined topics, repaired. It changes nothing
      exactly when nothing was mined and no weight moved. */
  lemma ProposalIs(entries: seq<ArchiveEntry>, policy: Policy, m: Measurement, inputs: Inputs)
    requires ValidPolicy(policy) && StandardWeights(policy.topics) && WellFormed(inputs.env)
    ensures var (topics, changes) := Proposal(entries, policy, m, inputs);
            var wide, covered := Widened(entries, policy, m, inputs), EntriesCovered(entries, m);
            var full := FullyRepaired(wide, m.current, ValidityTrigger(m));
            && topics == (if Worsens(wide, full, m.current, covered) then wide.topics else full.topics)
            && (Idle(changes) <==> topics == policy.topics)
            && (AnyRestored(changes) <==> SomeRise(policy.topics, topics))
  {
    var ms := MinedFor(entries, policy, m, inputs);
    var wide, covered := Widened(entries, policy, m, inputs), EntriesCovered(entries, m);
    WidenedIsValid(entries, policy, m, inputs);
    RepairIs(wide, m.current, covered, ValidityTrigger(m));
    ChangesWithAdded(ms, WeightRepair(wide, m.current, covered, ValidityTrigger(m)).1);
    ProposalFacts(entries, policy, m, inputs);
    RisesAreOld(policy.topics, ms, Proposal(entries, policy, m, inputs).0);
    WidenedByNothing(entries, policy, m, inputs);
  }

  // ---- the decision ----

  /** Something calls for a revision: coverage below 0.8, validity below 0.3, five
      different unclassified field excerpts, or a weight the field would raise. */
  ghost predicate CalledFor(s: State, m: Measurement, inputs: Inputs) {
    || (m.current.epoch.coverage.Some? && m.current.epoch.coverage.value < 0.8)
    || (m.current.epoch.validity.Some? && m.current.epoch.validity.value < 0.3)
    || |BlindTexts(inputs.env, inputs.failures, Keywords(s.policy.topics))| >= 5
    || SomeRise(s.policy.topics, Proposal(s.archive, s.policy, m, inputs).0)
  }

  /** A rollback rejected these topics and threshold on this archive and evidence. */
  ghost predicate RejectedHere(s: State, topics: seq<Topic>, m: Measurement) {
    exists j | 0 <= j < |s.history| ::
      && s.history[j].origin == Rollback
      && s.history[j].replacedHash == Some(ConfigOf(s.policy.threshold, topics))
      && s.history[j].archiveDigest == m.archiveDigest && s.history[j].evidenceDigest == Some(m.evidenceDigest)
  }

  /** The topics would lower or lose the validity the policy has on the rounds seen. */
  ghost predicate LosesValidity(s: State, topics: seq<Topic>, m: Measurement) {
    var before := ValidityOn(s, s.policy, m);
    before.Some? && (var after := ValidityOn(s, s.policy.(topics := topics), m);
                     after.None? || after.value < before.value)
  }

  function ValidityOn(s: State, p: Policy, m: Measurement): Option<real> {
    ValidityUnder(p, EntriesCovered(s.archive, m), CandidateAnchor(m.current, p))
  }

  lemma TriggeredIs(s: State, m: Measurement, inputs: Inputs)
    requires ValidPolicy(s.policy) && StandardWeights(s.policy.topics) && WellFormed(inputs.env)
    ensures var changes := Proposal(s.archive, s.policy, m, inputs).1;
            CoverageTrigger(m) || ValidityTrigger(m) || FieldTrigger(s.policy, inputs) || AnyRestored(changes)
            <==> CalledFor(s, m, inputs)
  {
    BlindSpotsAre(s.policy, inputs);
    ProposalIs(s.archive, s.policy, m, inputs);
  }

  lemma RejectedHereIs(s: State, p: Policy, topics: seq<Topic>, m: Measurement)
    requires Inv(s) && p.topics == topics && p.threshold == s.policy.threshold
    ensures RejectedConfiguration(p, s.history, m) <==> RejectedHere(s, topics, m)
    ensures RegressesValidity(s.archive, s.policy, p, m) <==> LosesValidity(s, topics, m)
  {
    assert PolicyHash(p) == ConfigOf(s.policy.threshold, topics);
  }

  /** In a reachable state, on a faithful measurement, the decision is a revision exactly
      when there is no rollback, the policy is the root or has two rounds of its own,
      something calls for it, the proposal differs from the policy, no rollback rejected
      it on this archive and evidence, and it neither lowers nor loses validity. */
  lemma ReachableRevisesJustWhen(archive: seq<ArchiveEntry>, steps: seq<Step>, m: Measurement, inputs: Inputs)
    requires Tokenized(steps) && WellFormed(inputs.env)
    requires var s := Run(Start(archive), steps); TakenOf(m, s.archive, s.policy)
    ensures var s := Run(Start(archive), steps);
            var topics := Proposal(s.archive, s.policy, m, inputs).0;
            Decide(s.archive, s.policy, s.history, m, inputs).Revise? <==>
              && !Decide(s.archive, s.policy, s.history, m, inputs).RollBack?
              && (s.policy.version == 1 || |OwnRounds(s)| >= 2)
              && CalledFor(s, m, inputs) && topics != s.policy.topics
              && !RejectedHere(s, topics, m) && !LosesValidity(s, topics, m)
  {
    StartIsGood(archive);
    RunKeepsInv(Start(archive), steps);
    var s := Run(Start(archive), steps);
    LawfulState(s);
    SnapIsGood(s.history, |s.history| + 1);
    ReachableRevisesExactlyWhen(archive, steps, m, inputs);
    DecideRollsBack(s, m, inputs);
    OwnIs(s);
    TriggeredIs(s, m, inputs);
    ProposalIs(s.archive, s.policy, m, inputs);
    var topics := Proposal(s.archive, s.policy, m, inputs).0;
    RejectedHereIs(s, NewVersion(s.policy, topics, s.policy.threshold, Revision, None).value, topics, m);
  }

  /** A revision puts exactly the proposal in force, under the old threshold. */
  lemma RevisionIsProposal(s: State, m: Measurement, inputs: Inputs)
    requires Decide(s.archive, s.policy, s.history, m, inputs).Revise?
    ensures var p := Decide(s.archive, s.policy, s.history, m, inputs).policy;
            && p.topics == Proposal(s.archive, s.policy, m, inputs).0 && p.threshold == s.policy.threshold
            && p.version == s.policy.version + 1 && p.parent == Some(s.policy.version) && p.origin == Revision
  {
    RevisionFacts(s.archive, s.policy, s.history, m, inputs);
  }
}
