/** What a revision does to the meaning of the archive: nothing already
    classified moves, and what becomes classified is exactly the recorded
    evidence. */
module Meaning {
  import opened Text
  import opened Records
  import opened Rounding
  import opened Sorting
  import opened ImprovementPolicy
  import opened Rounds
  import opened Measuring
  import opened Mining
  import opened Revising

  /** No finding that before classifies changes its topic under after. */
  ghost predicate KeepsMeaning(before: seq<Definition>, after: seq<Definition>) {
    forall f {:trigger Classify(f, after)} :: Classify(f, before).Some? ==> Classify(f, after) == Classify(f, before)
  }

  lemma ExtensionKeepsMeaning(before: seq<Definition>, more: seq<Definition>)
    ensures KeepsMeaning(before, before + more)
  {
    forall f | Classify(f, before).Some? ensures Classify(f, before + more) == Classify(f, before) {
      FirstMatchAppend(Lower(f), before, more);
    }
  }

  /** A revision changes the topic of no finding, whatever it was decided on. */
  lemma RevisionKeepsMeaning(entries: seq<ArchiveEntry>, policy: Policy, history: seq<HistoryEntry>, m: Measurement,
                             inputs: Inputs)
    requires Decide(entries, policy, history, m, inputs).Revise?
    ensures KeepsMeaning(Keywords(policy.topics), Keywords(Decide(entries, policy, history, m, inputs).policy.topics))
  {
    RevisionFacts(entries, policy, history, m, inputs);
    ProposalFacts(entries, policy, m, inputs);
    ExtensionKeepsMeaning(Keywords(policy.topics), DefsOf(MinedFor(entries, policy, m, inputs)));
  }

  // ---- how many findings become classified ----

  function IsArchived(): Support -> bool { (s: Support) => s.ArchiveSupport? }
  function FromArchive(): Item -> bool { (it: Item) => it.source.Archived? }
  function ClassifiedUnder(defs: seq<Definition>): Item -> bool { (it: Item) => IsClassified(it.finding, defs) }

  /** Archived findings among a mined topic's recorded evidence. */
  function ArchivedEvidence(t: Topic): nat { |Filter(t.minedFrom, IsArchived())| }

  function TotalArchivedEvidence(topics: seq<Topic>): nat {
    if topics == [] then 0 else ArchivedEvidence(topics[0]) + TotalArchivedEvidence(topics[1..])
  }

  lemma {:induction false} FilterDisjoint<T>(s: seq<T>, p: T -> bool, q: T -> bool, either: T -> bool)
    requires forall x | x in s :: !(p(x) && q(x)) && (either(x) <==> p(x) || q(x))
    ensures |Filter(s, either)| == |Filter(s, p)| + |Filter(s, q)|
  {
    if s != [] { FilterDisjoint(s[1..], p, q, either); }
  }

  /** Items classified as one of the first k definitions. */
  function AmongFirst(defs: seq<Definition>, k: nat): Item -> bool
    requires k <= |defs|
  {
    (it: Item) => exists j | 0 <= j < k :: Classify(it.finding, defs) == Some(defs[j].name)
  }

  function SumAssigned(items: seq<Item>, defs: seq<Definition>, k: nat): nat
    requires k <= |defs|
  {
    if k == 0 then 0 else SumAssigned(items, defs, k - 1) + |Filter(items, AssignedTo(defs, defs[k - 1].name))|
  }

  lemma OneMore(it: Item, defs: seq<Definition>, k: nat)
    requires 1 <= k <= |defs| && forall i, j | 0 <= i < j < |defs| :: defs[i].name != defs[j].name
    ensures !(AmongFirst(defs, k - 1)(it) && AssignedTo(defs, defs[k - 1].name)(it))
    ensures AmongFirst(defs, k)(it) <==> AmongFirst(defs, k - 1)(it) || AssignedTo(defs, defs[k - 1].name)(it)
  {
  }

  lemma {:induction false} SumOfAssigned(items: seq<Item>, defs: seq<Definition>, k: nat)
    requires k <= |defs| && forall i, j | 0 <= i < j < |defs| :: defs[i].name != defs[j].name
    ensures SumAssigned(items, defs, k) == |Filter(items, AmongFirst(defs, k))|
  {
    if k == 0 {
      FilterNone(items, AmongFirst(defs, 0));
    } else {
      SumOfAssigned(items, defs, k - 1);
      forall it | it in items
        ensures !(AmongFirst(defs, k - 1)(it) && AssignedTo(defs, defs[k - 1].name)(it))
        ensures AmongFirst(defs, k)(it) <==> AmongFirst(defs, k - 1)(it) || AssignedTo(defs, defs[k - 1].name)(it)
      {
        OneMore(it, defs, k);
      }
      FilterDisjoint(items, AmongFirst(defs, k - 1), AssignedTo(defs, defs[k - 1].name), AmongFirst(defs, k));
    }
  }

  lemma AllAssigned(items: seq<Item>, defs: seq<Definition>)
    requires forall i, j | 0 <= i < j < |defs| :: defs[i].name != defs[j].name
    ensures SumAssigned(items, defs, |defs|) == |Filter(items, ClassifiedUnder(defs))|
  {
    SumOfAssigned(items, defs, |defs|);
    forall it | it in items ensures AmongFirst(defs, |defs|)(it) <==> ClassifiedUnder(defs)(it) {
      if IsClassified(it.finding, defs) { ClassifiedName(it.finding, defs); }
    }
    FilterSame(items, AmongFirst(defs, |defs|), ClassifiedUnder(defs));
  }

  lemma {:induction false} SupportsArchived(env: Env, words: seq<string>, items: seq<Item>)
    ensures |Filter(Supports(env, words, items), IsArchived())| == |Filter(items, FromArchive())|
  {
    if items != [] {
      SupportsArchived(env, words, items[1..]);
      assert Supports(env, words, items)[1..] == Supports(env, words, items[1..]);
    }
  }

  lemma {:induction false} FilterOrder<T>(s: seq<T>, p: T -> bool, q: T -> bool)
    ensures |Filter(Filter(s, p), q)| == |Filter(Filter(s, q), p)|
  {
    if s != [] {
      FilterOrder(s[1..], p, q);
      var a, b := Filter(s[1..], p), Filter(s[1..], q);
      FilterCons(s[0], a, q); FilterCons(s[0], b, p);
      EmptyConcat(a); EmptyConcat(b);
    }
  }

  /** The k-th mined topic's archived evidence is its share of the archive items. */
  lemma EvidenceOfTopic(env: Env, archived: seq<Item>, blind: seq<Item>, ms: seq<Mined>, k: nat)
    requires k < |ms| && ExactEvidence(env, archived + blind, ms)
    requires (forall it | it in archived :: it.source.Archived?) && (forall it | it in blind :: it.source.Field?)
    ensures |Filter(ms[k].evidence, IsArchived())| == |Filter(archived, AssignedTo(DefsOf(ms), ms[k].name))|
  {
    var items, chosen := archived + blind, AssignedTo(DefsOf(ms), ms[k].name);
    SupportsArchived(env, ms[k].keywords, Filter(items, chosen));
    FilterOrder(items, chosen, FromArchive());
    FilterConcat(archived, blind, FromArchive());
    FilterAll(archived, FromArchive());
    FilterNone(blind, FromArchive());
    EmptyConcat(archived);
  }

  ghost predicate EvidenceMatches(archived: seq<Item>, d: Definition, t: Topic, defs: seq<Definition>) {
    ArchivedEvidence(t) == |Filter(archived, AssignedTo(defs, d.name))|
  }

  lemma {:induction false} EvidenceTotals(archived: seq<Item>, defs: seq<Definition>, topics: seq<Topic>, k: nat)
    requires k <= |defs| == |topics|
    requires forall i | 0 <= i < |topics| :: EvidenceMatches(archived, defs[i], topics[i], defs)
    ensures TotalArchivedEvidence(topics[..k]) == SumAssigned(archived, defs, k)
  {
    if k > 0 {
      EvidenceTotals(archived, defs, topics, k - 1);
      assert topics[..k] == topics[..k - 1] + [topics[k - 1]];
      EvidenceSnoc(topics[..k - 1], topics[k - 1]);
      assert EvidenceMatches(archived, defs[k - 1], topics[k - 1], defs);
    }
  }

  lemma {:induction false} EvidenceSnoc(topics: seq<Topic>, t: Topic)
    ensures TotalArchivedEvidence(topics + [t]) == TotalArchivedEvidence(topics) + ArchivedEvidence(t)
  {
    if topics == [] {
      EmptyConcat([t]);
      assert [t][1..] == [];
    } else {
      ConcatHead(topics, [t]);
      EvidenceSnoc(topics[1..], t);
    }
  }

  /** Widening the taxonomy classifies, beyond the old count, exactly the old
      unclassified items that the new definitions claim. */
  lemma {:induction false} WidenedCount(items: seq<Item>, fs: seq<string>, defs: seq<Definition>, more: seq<Definition>)
    requires |items| == |fs| && forall i | 0 <= i < |fs| :: items[i].finding == fs[i]
    ensures CountClassified(fs, defs + more) ==
            CountClassified(fs, defs) + |Filter(Unclaimed(items, defs), ClassifiedUnder(more))|
  {
    if fs != [] {
      WidenedCount(items[1..], fs[1..], defs, more);
      FirstMatchAppend(Lower(fs[0]), defs, more);
      var rest := Unclaimed(items[1..], defs);
      FilterCons(items[0], rest, ClassifiedUnder(more));
      EmptyConcat(rest);
    }
  }

  lemma {:induction false} ItemsMatchFindings(rs: seq<Round>)
    ensures |AllItems(rs)| == |Flatten(rs)|
    ensures forall i | 0 <= i < |Flatten(rs)| :: AllItems(rs)[i].finding == Flatten(rs)[i]
    ensures forall it | it in AllItems(rs) :: it.source.Archived?
  {
    if rs != [] { ItemsMatchFindings(rs[1..]); }
  }

  /** A measurement taken of exactly this archive under exactly this policy. */
  ghost predicate TakenOf(m: Measurement, entries: seq<ArchiveEntry>, policy: Policy) {
    exists evidence :: m == Measure(entries, policy, evidence)
  }

  lemma MeasuredFields(m: Measurement, entries: seq<ArchiveEntry>, policy: Policy)
    requires TakenOf(m, entries, policy)
    ensures m.current.epoch.coverage == CoverageOn(entries, policy)
    ensures m.current.epoch.unclassified == Unclaimed(AllItems(RoundsOf(entries)), Keywords(policy.topics))
  {
    var evidence :| m == Measure(entries, policy, evidence);
    CurrentFields(RoundsOf(entries), policy.topics, Usable(evidence));
  }

  lemma CurrentFields(rs: seq<Round>, topics: seq<Topic>, evidence: Option<Evidence>)
    ensures var epoch := CurrentOf(rs, topics, evidence).epoch;
            && epoch.coverage == Coverage(Flatten(rs), Keywords(topics))
            && epoch.unclassified == Unclaimed(AllItems(rs), Keywords(topics))
  {
  }

  lemma EvidenceSum(env: Env, archived: seq<Item>, blind: seq<Item>, ms: seq<Mined>)
    requires ExactEvidence(env, archived + blind, ms) && forall j, k | 0 <= j < k < |ms| :: ms[j].name != ms[k].name
    requires (forall it | it in archived :: it.source.Archived?) && (forall it | it in blind :: it.source.Field?)
    ensures TotalArchivedEvidence(MinedTopics(ms)) == |Filter(archived, ClassifiedUnder(DefsOf(ms)))|
  {
    forall k | 0 <= k < |ms|
      ensures |Filter(ms[k].evidence, IsArchived())| == |Filter(archived, AssignedTo(DefsOf(ms), ms[k].name))|
    {
      EvidenceOfTopic(env, archived, blind, ms, k);
    }
    EvidenceTotals(archived, DefsOf(ms), MinedTopics(ms), |ms|);
    assert MinedTopics(ms)[..|ms|] == MinedTopics(ms);
    AllAssigned(archived, DefsOf(ms));
  }

  lemma UnclassifiedAreArchived(rs: seq<Round>, defs: seq<Definition>)
    ensures forall it | it in Unclaimed(AllItems(rs), defs) :: it.source.Archived?
  {
    ItemsMatchFindings(rs);
    forall it | it in Unclaimed(AllItems(rs), defs) ensures it.source.Archived? {
      FilterMember(AllItems(rs), (x: Item) => !IsClassified(x.finding, defs), it);
    }
  }

  lemma NewTopicsEvidence(entries: seq<ArchiveEntry>, policy: Policy, m: Measurement, inputs: Inputs)
    requires forall it | it in m.current.epoch.unclassified :: it.source.Archived?
    ensures var ms := MinedFor(entries, policy, m, inputs);
            TotalArchivedEvidence(MinedTopics(ms))
              == |Filter(m.current.epoch.unclassified, ClassifiedUnder(DefsOf(ms)))|
  {
    var ms := MinedFor(entries, policy, m, inputs);
    var archived, blind := m.current.epoch.unclassified, Blind(policy, inputs);
    if ms == [] {
      FilterNone(archived, ClassifiedUnder(DefsOf(ms)));
    } else {
      var defs := Keywords(policy.topics);
      MiningIsBoundedAndSeparated(inputs.env, archived + blind, defs,
        FieldVocabulary(inputs.env, entries, inputs.safe), BackgroundTokens(inputs.env, entries, defs));
      EvidenceSum(inputs.env, archived, blind, ms);
    }
  }

  lemma {:induction false} SameEvidence(a: seq<Topic>, b: seq<Topic>)
    requires |a| == |b| && forall i | 0 <= i < |a| :: a[i].minedFrom == b[i].minedFrom
    ensures TotalArchivedEvidence(a) == TotalArchivedEvidence(b)
  {
    if a != [] { SameEvidence(a[1..], b[1..]); }
  }

  lemma AddedEvidence(after: seq<Topic>, before: seq<Topic>, added: seq<Topic>)
    requires SameTaxonomy(after, before + added)
    ensures |after| == |before| + |added| && TotalArchivedEvidence(after[|before|..]) == TotalArchivedEvidence(added)
  {
    forall i | 0 <= i < |added| ensures after[|before|..][i].minedFrom == added[i].minedFrom {
      assert after[|before| + i].minedFrom == (before + added)[|before| + i].minedFrom;
    }
    SameEvidence(after[|before|..], added);
  }

  /** On a faithful measurement, the archive findings that a proposed revision
      newly classifies are counted exactly by the evidence of its new topics. */
  lemma NewlyClassifiedIsEvidence(entries: seq<ArchiveEntry>, policy: Policy, m: Measurement, inputs: Inputs)
    requires TakenOf(m, entries, policy)
    ensures var fs, topics := Flatten(RoundsOf(entries)), Proposal(entries, policy, m, inputs).0;
            && |topics| >= |policy.topics|
            && CountClassified(fs, Keywords(topics)) ==
               CountClassified(fs, Keywords(policy.topics)) + TotalArchivedEvidence(topics[|policy.topics|..])
  {
    var ms, topics := MinedFor(entries, policy, m, inputs), Proposal(entries, policy, m, inputs).0;
    var rs, defs := RoundsOf(entries), Keywords(policy.topics);
    ProposalFacts(entries, policy, m, inputs);
    MeasuredFields(m, entries, policy);
    UnclassifiedAreArchived(rs, defs);
    NewTopicsEvidence(entries, policy, m, inputs);
    AddedEvidence(topics, policy.topics, MinedTopics(ms));
    ItemsMatchFindings(rs);
    WidenedCount(AllItems(rs), Flatten(rs), defs, DefsOf(ms));
  }

  lemma ShareMonotone(a: nat, b: nat, n: nat)
    requires a <= b && n > 0
    ensures Share(a, n).value <= Share(b, n).value
  {
    var d := n as real;
    assert a as real <= b as real;
    assert a as real / d <= b as real / d;
    Round4Monotone(a as real / d, b as real / d);
  }

  lemma ProposalCoversNoLess(entries: seq<ArchiveEntry>, policy: Policy, m: Measurement, inputs: Inputs)
    requires TakenOf(m, entries, policy)
    ensures var fs, topics := Flatten(RoundsOf(entries)), Proposal(entries, policy, m, inputs).0;
            fs != [] ==> Coverage(fs, Keywords(policy.topics)).value <= Coverage(fs, Keywords(topics)).value
  {
    var fs, topics := Flatten(RoundsOf(entries)), Proposal(entries, policy, m, inputs).0;
    NewlyClassifiedIsEvidence(entries, policy, m, inputs);
    if fs != [] {
      ShareMonotone(CountClassified(fs, Keywords(policy.topics)), CountClassified(fs, Keywords(topics)), |fs|);
    }
  }

  /** So the guard against lowering coverage never refuses a candidate that was
      built from a measurement of this archive under this policy. */
  lemma CoverageGuardNeverFires(entries: seq<ArchiveEntry>, policy: Policy, history: seq<HistoryEntry>, m: Measurement,
                                inputs: Inputs)
    requires TakenOf(m, entries, policy)
    ensures Decide(entries, policy, history, m, inputs) != NoAction(LowersCoverage)
  {
    MeasuredFields(m, entries, policy);
    ProposalCoversNoLess(entries, policy, m, inputs);
  }

  // ---- what a revision may publish ----

  lemma {:induction false} TokenHasSource(env: Env, fs: seq<string>, t: string)
    requires t in TokensOf(env, fs)
    ensures exists f | f in fs :: t in env.tokenize(f)
  {
    if t in env.tokenize(fs[0]) {
      assert fs[0] in fs;
    } else {
      TokenHasSource(env, fs[1..], t);
      var f :| f in fs[1..] && t in env.tokenize(f);
      assert f in fs;
    }
  }

  lemma {:induction false} EntryFindingsAreArchived(entries: seq<ArchiveEntry>, f: string)
    requires f in EntryFindings(entries)
    ensures f in AllFindings(entries)
  {
    if entries[0].round.None? || f !in entries[0].findings { EntryFindingsAreArchived(entries[1..], f); }
  }

  lemma UnclassifiedIsArchived(entries: seq<ArchiveEntry>, defs: seq<Definition>, it: Item)
    requires it in Unclaimed(AllItems(RoundsOf(entries)), defs)
    ensures it.finding in AllFindings(entries)
  {
    var rs := RoundsOf(entries);
    FilterMember(AllItems(rs), (x: Item) => !IsClassified(x.finding, defs), it);
    ItemsMatchFindings(rs);
    var i :| 0 <= i < |AllItems(rs)| && AllItems(rs)[i] == it;
    assert Flatten(rs)[i] in multiset(Flatten(rs));
    FindingsConserved(entries);
    EntryFindingsAreArchived(entries, it.finding);
  }

  ghost predicate Public(env: Env, entries: seq<ArchiveEntry>, safe: set<string>, w: string) {
    w in safe || exists f | f in AllFindings(entries) :: w in env.tokenize(f)
  }

  lemma PublishableIsPublic(entries: seq<ArchiveEntry>, policy: Policy, m: Measurement, inputs: Inputs, w: string)
    requires TakenOf(m, entries, policy)
    requires Publishable(inputs.env, m.current.epoch.unclassified + Blind(policy, inputs),
                         FieldVocabulary(inputs.env, entries, inputs.safe), w)
    ensures Public(inputs.env, entries, inputs.safe, w)
  {
    var archived, blind := m.current.epoch.unclassified, Blind(policy, inputs);
    if w in FieldVocabulary(inputs.env, entries, inputs.safe) {
      if w !in inputs.safe { TokenHasSource(inputs.env, AllFindings(entries), w); }
    } else {
      var items := archived + blind;
      var i :| 0 <= i < |items| && items[i].source.Archived? && w in inputs.env.tokenize(items[i].finding);
      assert i < |archived|;
      MeasuredFields(m, entries, policy);
      UnclassifiedIsArchived(entries, Keywords(policy.topics), items[i]);
    }
  }

  /** Whatever field text a revision is mined from, every keyword it adds is a
      fixed safe word or already stands in a public, archived finding. */
  lemma NewKeywordsArePublic(entries: seq<ArchiveEntry>, policy: Policy, m: Measurement, inputs: Inputs, i: nat,
                             w: string)
    requires TakenOf(m, entries, policy)
    requires |policy.topics| <= i < |Proposal(entries, policy, m, inputs).0|
    requires w in Proposal(entries, policy, m, inputs).0[i].keywords
    ensures Public(inputs.env, entries, inputs.safe, w)
  {
    var ms, k := MinedFor(entries, policy, m, inputs), i - |policy.topics|;
    ProposalFacts(entries, policy, m, inputs);
    assert (policy.topics + MinedTopics(ms))[i] == MinedTopics(ms)[k];
    assert w in WordSet(ms[k].keywords);
    MinedWordsArePublishable(entries, policy, m, inputs, k, w);
    PublishableIsPublic(entries, policy, m, inputs, w);
  }

  lemma MinedWordsArePublishable(entries: seq<ArchiveEntry>, policy: Policy, m: Measurement, inputs: Inputs, k: nat,
                                 w: string)
    requires k < |MinedFor(entries, policy, m, inputs)|
             && w in WordSet(MinedFor(entries, policy, m, inputs)[k].keywords)
    ensures Publishable(inputs.env, m.current.epoch.unclassified + Blind(policy, inputs),
                        FieldVocabulary(inputs.env, entries, inputs.safe), w)
  {
    var defs := Keywords(policy.topics);
    MiningIsBoundedAndSeparated(inputs.env, m.current.epoch.unclassified + Blind(policy, inputs), defs,
      FieldVocabulary(inputs.env, entries, inputs.safe), BackgroundTokens(inputs.env, entries, defs));
  }
}
