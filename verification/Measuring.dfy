/** scripts/measure-policy-validity.py: coverage of archived findings and
    agreement of their weighted recurrence with field evidence. */
module Measuring {
  import opened Text
  import opened Records
  import opened Rounding
  import opened Sorting
  import opened Statistics
  import opened ImprovementPolicy
  import opened Rounds

  // ---- anchor evidence ----

  /** key.split("@")[0] */
  function BaseName(key: string): string {
    if key == "" || key[0] == '@' then "" else [key[0]] + BaseName(key[1..])
  }

  /** definitions.get(name, []) */
  function WordsOf(defs: seq<Definition>, name: string): seq<string> {
    if defs == [] then []
    else if defs[0].name == name then defs[0].words
    else WordsOf(defs[1..], name)
  }

  function FirstVariant(defs: seq<Definition>, topic: string, words: seq<string>): Option<string> {
    if defs == [] then None
    else if BaseName(defs[0].name) == topic && defs[0].words == words then Some(defs[0].name)
    else FirstVariant(defs[1..], topic, words)
  }

  /** Where to look a definition up: under its plain name if that was searched with
      these words, else under the first variant of the name that was. */
  function ResolveEvidenceKey(defs: seq<Definition>, topic: string, words: seq<string>): Option<string> {
    if defs == [] then None
    else if WordsOf(defs, topic) == words then Some(topic)
    else FirstVariant(defs, topic, words)
  }

  predicate SeenBy(t: Trace, until: int) { t.timestamp.Some? && t.timestamp.value <= until }

  function SeenUntil(until: int): Trace -> bool { (t: Trace) => SeenBy(t, until) }

  predicate AllDatedTraces(ts: seq<Trace>) { forall i | 0 <= i < |ts| :: ts[i].timestamp.Some? }

  function CountAt(evidence: Evidence, topic: string, until: Option<int>, defs: seq<Definition>): Option<int> {
    var resolved := ResolveEvidenceKey(evidence.definitions, topic, WordsOf(defs, topic));
    var key := if resolved.Some? then resolved.value else "";
    if key !in evidence.topics || key in evidence.truncated then None
    else
      var traces := evidence.topics[key];
      if until.None? then Some(|traces|)
      else if !AllDatedTraces(traces) then None
      else Some(|Filter(traces, SeenUntil(until.value))|)
  }

  function AnchorCountsAt(evidence: Evidence, topics: seq<string>, until: Option<int>,
                          defs: seq<Definition>): (c: Counts)
    ensures c.Keys == set t | t in topics
  {
    map t | t in topics :: CountAt(evidence, t, until, defs)
  }

  /** Whether the snapshot observed any session at all. */
  predicate Observed(evidence: Evidence) {
    evidence.sessions != {} || exists k | k in evidence.topics :: evidence.topics[k] != []
  }

  // ---- counting findings ----

  predicate IsClassified(f: string, defs: seq<Definition>) { Classify(f, defs).Some? }

  function CountClassified(fs: seq<string>, defs: seq<Definition>): (n: nat)
    ensures n <= |fs|
  {
    if fs == [] then 0 else (if IsClassified(fs[0], defs) then 1 else 0) + CountClassified(fs[1..], defs)
  }

  function Share(part: nat, whole: nat): Option<real> {
    if whole == 0 then None else Some(Round4(part as real / whole as real))
  }

  function Coverage(fs: seq<string>, defs: seq<Definition>): Option<real> {
    Share(CountClassified(fs, defs), |fs|)
  }

  function ItemsOf(r: Round): (items: seq<Item>)
    ensures |items| == |r.findings|
  {
    seq(|r.findings|, i requires 0 <= i < |r.findings| => Item(Archived(r.round), r.findings[i]))
  }

  function AllItems(rs: seq<Round>): seq<Item> {
    if rs == [] then [] else ItemsOf(rs[0]) + AllItems(rs[1..])
  }

  function Unclaimed(items: seq<Item>, defs: seq<Definition>): seq<Item> {
    Filter(items, (it: Item) => !IsClassified(it.finding, defs))
  }

  predicate Credits(r: Round, defs: seq<Definition>, topic: string) {
    exists i | 0 <= i < |r.findings| :: Classify(r.findings[i], defs) == Some(topic)
  }

  /** Identities of the rounds with a finding of this topic. */
  function DevKeys(rs: seq<Round>, defs: seq<Definition>, topic: string): set<RoundKey> {
    set r | r in rs && Credits(r, defs, topic) :: r.key
  }

  function Names(defs: seq<Definition>): (r: seq<string>)
    ensures |r| == |defs|
  {
    seq(|defs|, i requires 0 <= i < |defs| => defs[i].name)
  }

  function WeightOf(topics: seq<Topic>, name: string): real {
    if topics == [] then 1.0 else if topics[0].name == name then topics[0].weight else WeightOf(topics[1..], name)
  }

  // ---- one epoch ----

  function Weighted(topics: seq<Topic>, dev: map<string, nat>): map<string, real> {
    map t | t in dev :: Credit(dev[t], WeightOf(topics, t))
  }

  /** Weighted recurrence of one topic. */
  function Credit(rounds: nat, weight: real): real { Round4(rounds as real * weight) }

  function KnownTopics(names: seq<string>, anchor: Counts): seq<string> {
    Filter(names, (t: string) => t in anchor && anchor[t].Some?)
  }

  function Look(m: map<string, real>, t: string): real { if t in m then m[t] else 0.0 }
  function CountOr0(c: Counts, t: string): int { if t in c && c[t].Some? then c[t].value else 0 }

  /** Rank agreement of a weighted signal with the known counts, topic by topic. */
  function Agreement(names: seq<string>, signal: map<string, real>, anchor: Counts): Option<real> {
    var known := KnownTopics(names, anchor);
    Spearman(seq(|known|, i requires 0 <= i < |known| => Look(signal, known[i])),
             seq(|known|, i requires 0 <= i < |known| => CountOr0(anchor, known[i]) as real))
  }

  function AnchorFor(names: seq<string>, defs: seq<Definition>, evidence: Option<Evidence>, until: Option<int>,
                     historical: bool): Option<Counts> {
    if evidence.None? then None
    else if historical && until.None? then Some(map t | t in names :: None)
    else Some(AnchorCountsAt(evidence.value, names, until, defs))
  }

  function DevCounts(rs: seq<Round>, defs: seq<Definition>): map<string, nat> {
    map t | t in Names(defs) :: |DevKeys(rs, defs, t)|
  }

  /** Topics credited in two rounds or more and never seen in the field. */
  function DevOnlyTopics(names: seq<string>, dev: map<string, nat>, anchor: Counts): seq<string> {
    SortBy(Filter(KnownTopics(names, anchor), (t: string) => t in dev && dev[t] >= 2 && CountOr0(anchor, t) == 0),
           (a: string, b: string) => StringLe(a, b))
  }

  function LastRound(rs: seq<Round>): Option<int> {
    if rs == [] then None else Some(rs[|rs| - 1].round)
  }

  function EpochOf(rs: seq<Round>, topics: seq<Topic>, evidence: Option<Evidence>, until: Option<int>,
                   historical: bool): Epoch {
    var defs := Keywords(topics);
    var dev := DevCounts(rs, defs);
    var signal := Weighted(topics, dev);
    var anchor := AnchorFor(Names(defs), defs, evidence, until, historical);
    Epoch(
      LastRound(rs), until, |Flatten(rs)|, CountClassified(Flatten(rs), defs), Coverage(Flatten(rs), defs),
      dev, signal, anchor,
      if anchor.None? then None else Agreement(Names(defs), signal, anchor.value),
      Unclaimed(AllItems(rs), defs),
      if anchor.None? then [] else DevOnlyTopics(Names(defs), dev, anchor.value))
  }

  // ---- the whole measurement ----

  function SeenRounds(rs: seq<Round>, collected: int): seq<Round> {
    Filter(rs, (r: Round) => r.timestamp.Some? && r.timestamp.value <= collected)
  }

  function Epochs(rs: seq<Round>, topics: seq<Topic>, evidence: Option<Evidence>): (es: seq<Epoch>)
    ensures |es| == |rs|
  {
    seq(|rs|, i requires 0 <= i < |rs| => HistoricalEpoch(rs[..i + 1], topics, evidence))
  }

  /** The epoch of the last of these rounds, on what was known by then. */
  function HistoricalEpoch(rs: seq<Round>, topics: seq<Topic>, evidence: Option<Evidence>): (e: Epoch)
    requires rs != []
    ensures e.round == Some(rs[|rs| - 1].round)
  {
    EpochOf(rs, topics, evidence, rs[|rs| - 1].timestamp, true).(unclassified := [])
  }

  function CurrentOf(rs: seq<Round>, topics: seq<Topic>, evidence: Option<Evidence>): Current {
    var all := EpochOf(rs, topics, evidence, None, false);
    match evidence
    case None => Current(all, 0, None, [])
    case Some(ev) =>
      var searched := AnchorCountsOfAll(ev);
      match ev.collectedAt
      case None => Current(all, 0, Some(searched), ev.definitions)
      case Some(ms) =>
        var seen := SeenRounds(rs, ms);
        var aligned := EpochOf(seen, topics, evidence, None, false);
        Current(all.(validity := aligned.validity, devOnly := aligned.devOnly),
                if |seen| <= |rs| then |rs| - |seen| else 0, Some(searched), ev.definitions)
  }

  /** Counts for every key the snapshot searched, under its own definitions. */
  function AnchorCountsOfAll(ev: Evidence): Counts {
    map k | k in ev.topics :: CountAt(ev, k, None, ev.definitions)
  }

  function Usable(evidence: Option<Evidence>): Option<Evidence> {
    if evidence.Some? && !Observed(evidence.value) then None else evidence
  }

  function Measure(entries: seq<ArchiveEntry>, policy: Policy, evidence: Option<Evidence>): Measurement {
    var rs := RoundsOf(entries);
    Measurement(
      PolicyHash(policy), entries,
      if evidence.None? then None else evidence.value.collectedAt,
      if evidence.None? then None else Some(evidence.value.(collectedAt := None)),
      Epochs(rs, policy.topics, Usable(evidence)),
      CurrentOf(rs, policy.topics, Usable(evidence)))
  }

  /** measure(entries, policy, None)["current"]["coverage"] */
  function CoverageOn(entries: seq<ArchiveEntry>, policy: Policy): (c: Option<real>)
    ensures c == Measure(entries, policy, None).current.epoch.coverage
  {
    Coverage(Flatten(RoundsOf(entries)), Keywords(policy.topics))
  }

  // ---- measure_epoch's loops ----

  /** What the loops have accumulated over some rounds. */
  datatype Tally = Tally(total: nat, classified: nat, unclassified: seq<Item>, dev: map<string, set<RoundKey>>)

  function TallyOf(rs: seq<Round>, defs: seq<Definition>): Tally {
    Tally(|Flatten(rs)|, CountClassified(Flatten(rs), defs), Unclaimed(AllItems(rs), defs),
          DevMap(rs, defs))
  }

  function DevMap(rs: seq<Round>, defs: seq<Definition>): map<string, set<RoundKey>> {
    map t | t in Names(defs) :: DevKeys(rs, defs, t)
  }

  lemma DevMapIs(rs: seq<Round>, defs: seq<Definition>, m: map<string, set<RoundKey>>)
    requires forall t :: t in m <==> t in Names(defs)
    requires forall t | t in Names(defs) :: m[t] == DevKeys(rs, defs, t)
    ensures m == DevMap(rs, defs)
  {
  }

  /** One finding of round r added to the tally. */
  function TallyStep(y: Tally, r: Round, f: string, defs: seq<Definition>): Tally {
    match Classify(f, defs)
    case None => y.(total := y.total + 1, unclassified := y.unclassified + [Item(Archived(r.round), f)])
    case Some(t) =>
      y.(total := y.total + 1, classified := y.classified + 1,
         dev := y.dev[t := (if t in y.dev then y.dev[t] else {}) + {r.key}])
  }

  /** The first k findings of a round, as a round. */
  function FirstFindings(r: Round, k: nat): Round
    requires k <= |r.findings|
  {
    r.(findings := r.findings[..k])
  }

  lemma {:induction false} AllItemsConcat(a: seq<Round>, b: seq<Round>)
    ensures AllItems(a + b) == AllItems(a) + AllItems(b)
  {
    if a == [] {
      EmptyConcat(b);
    } else {
      ConcatHead(a, b);
      AllItemsConcat(a[1..], b);
      Assoc(ItemsOf(a[0]), AllItems(a[1..]), AllItems(b));
    }
  }

  lemma FlattenSnoc(rs: seq<Round>, r: Round)
    ensures Flatten(rs + [r]) == Flatten(rs) + r.findings && AllItems(rs + [r]) == AllItems(rs) + ItemsOf(r)
  {
    FlattenConcat(rs, [r]);
    AllItemsConcat(rs, [r]);
    assert Flatten([r]) == r.findings + Flatten([]);
    assert AllItems([r]) == ItemsOf(r) + AllItems([]);
  }

  lemma NoFindings(rs: seq<Round>, r: Round, defs: seq<Definition>)
    requires r.findings == []
    ensures TallyOf(rs + [r], defs) == TallyOf(rs, defs)
  {
    FlattenSnoc(rs, r);
    assert ItemsOf(r) == [];
    EmptyConcat(Flatten(rs)); EmptyConcat(AllItems(rs));
    forall t ensures DevKeys(rs + [r], defs, t) == DevKeys(rs, defs, t) { }
    DevMapIs(rs, defs, DevMap(rs + [r], defs));
  }

  lemma NoRounds(defs: seq<Definition>)
    ensures var none: seq<Round> := []; TallyOf(none, defs) == EmptyTally(defs)
  {
    forall t | t in Names(defs) ensures EmptyTally(defs).dev[t] == DevKeys([], defs, t) { }
    DevMapIs([], defs, EmptyTally(defs).dev);
    var none: seq<Round> := [];
    assert Flatten(none) == [] && Unclaimed(AllItems(none), defs) == [];
  }

  function EmptyTally(defs: seq<Definition>): Tally {
    Tally(0, 0, [], map t | t in Names(defs) :: {})
  }

  lemma DevKeysStep(rs: seq<Round>, r: Round, k: nat, defs: seq<Definition>, t: string)
    requires k < |r.findings|
    ensures DevKeys(rs + [FirstFindings(r, k + 1)], defs, t) ==
            DevKeys(rs + [FirstFindings(r, k)], defs, t)
              + (if Classify(r.findings[k], defs) == Some(t) then {r.key} else {})
  {
    var p, q := FirstFindings(r, k), FirstFindings(r, k + 1);
    assert q.findings == p.findings + [r.findings[k]];
    assert Credits(q, defs, t) <==> Credits(p, defs, t) || Classify(r.findings[k], defs) == Some(t) by {
      if Credits(p, defs, t) {
        var i :| 0 <= i < |p.findings| && Classify(p.findings[i], defs) == Some(t);
        assert q.findings[i] == p.findings[i];
      }
      assert q.findings[k] == r.findings[k];
    }
  }

  lemma DevMapSnoc(rs: seq<Round>, r: Round, k: nat, defs: seq<Definition>)
    requires k < |r.findings|
    ensures var before, c := DevMap(rs + [FirstFindings(r, k)], defs), Classify(r.findings[k], defs);
            DevMap(rs + [FirstFindings(r, k + 1)], defs) ==
            if c.Some? then before[c.value := (if c.value in before then before[c.value] else {}) + {r.key}] else before
  {
    var before, c := DevMap(rs + [FirstFindings(r, k)], defs), Classify(r.findings[k], defs);
    var after := if c.Some? then before[c.value := (if c.value in before then before[c.value] else {}) + {r.key}]
      else before;
    if c.Some? {
      ClassifiedName(r.findings[k], defs);
      var i :| 0 <= i < |defs| && defs[i].name == c.value;
      assert Names(defs)[i] == c.value;
    }
    forall t | t in Names(defs) ensures after[t] == DevKeys(rs + [FirstFindings(r, k + 1)], defs, t) {
      DevKeysStep(rs, r, k, defs, t);
    }
    DevMapIs(rs + [FirstFindings(r, k + 1)], defs, after);
  }

  lemma CountsSnoc(rs: seq<Round>, r: Round, k: nat, defs: seq<Definition>)
    requires k < |r.findings|
    ensures var p, q, f := rs + [FirstFindings(r, k)], rs + [FirstFindings(r, k + 1)], r.findings[k];
            && |Flatten(q)| == |Flatten(p)| + 1
            && CountClassified(Flatten(q), defs)
              == CountClassified(Flatten(p), defs) + (if IsClassified(f, defs) then 1 else 0)
  {
    var p, q, f := FirstFindings(r, k), FirstFindings(r, k + 1), r.findings[k];
    FlattenSnoc(rs, p); FlattenSnoc(rs, q);
    assert q.findings == p.findings + [f];
    Assoc(Flatten(rs), p.findings, [f]);
    CountConcat(Flatten(rs + [p]), [f], defs);
  }

  lemma UnclaimedSnoc(rs: seq<Round>, r: Round, k: nat, defs: seq<Definition>)
    requires k < |r.findings|
    ensures var p, q, f := rs + [FirstFindings(r, k)], rs + [FirstFindings(r, k + 1)], r.findings[k];
            Unclaimed(AllItems(q), defs) ==
            Unclaimed(AllItems(p), defs) + (if IsClassified(f, defs) then [] else [Item(Archived(r.round), f)])
  {
    var p, q, item := FirstFindings(r, k), FirstFindings(r, k + 1), Item(Archived(r.round), r.findings[k]);
    FlattenSnoc(rs, p); FlattenSnoc(rs, q);
    assert ItemsOf(q) == ItemsOf(p) + [item];
    Assoc(AllItems(rs), ItemsOf(p), [item]);
    var keep := (it: Item) => !IsClassified(it.finding, defs);
    FilterConcat(AllItems(rs + [p]), [item], keep);
    assert Filter([item], keep) == (if keep(item) then [item] else []) + Filter([], keep);
  }

  lemma TallySnoc(rs: seq<Round>, r: Round, k: nat, defs: seq<Definition>)
    requires k < |r.findings|
    ensures TallyOf(rs + [FirstFindings(r, k + 1)], defs) ==
            TallyStep(TallyOf(rs + [FirstFindings(r, k)], defs), r, r.findings[k], defs)
  {
    CountsSnoc(rs, r, k, defs);
    UnclaimedSnoc(rs, r, k, defs);
    DevMapSnoc(rs, r, k, defs);
  }

  method CountFindings(rounds: seq<Round>, defs: seq<Definition>) returns (y: Tally)
    ensures y == TallyOf(rounds, defs)
  {
    y := EmptyTally(defs);
    NoRounds(defs);
    for n := 0 to |rounds|
      invariant y == TallyOf(rounds[..n], defs)
    {
      var rnd := rounds[n];
      NoFindings(rounds[..n], FirstFindings(rnd, 0), defs);
      for k := 0 to |rnd.findings|
        invariant y == TallyOf(rounds[..n] + [FirstFindings(rnd, k)], defs)
      {
        TallySnoc(rounds[..n], rnd, k, defs);
        y := TallyStep(y, rnd, rnd.findings[k], defs);
      }
      assert FirstFindings(rnd, |rnd.findings|) == rnd && rounds[..n] + [rnd] == rounds[..n + 1];
    }
    assert rounds[..|rounds|] == rounds;
  }

  method MeasureEpoch(rounds: seq<Round>, topics: seq<Topic>, evidence: Option<Evidence>, until: Option<int>,
                      historical: bool)
    returns (epoch: Epoch)
    ensures epoch == EpochOf(rounds, topics, evidence, until, historical)
  {
    var defs := Keywords(topics);
    var names := Names(defs);
    var y := CountFindings(rounds, defs);
    var dev := map t | t in names :: |y.dev[t]|;
    assert dev == DevCounts(rounds, defs);
    var signal := Weighted(topics, dev);
    var anchor := AnchorFor(names, defs, evidence, until, historical);
    var validity: Option<real>, devOnly := None, [];
    if anchor.Some? {
      var known := KnownTopics(names, anchor.value);
      validity := SpearmanByRanks(seq(|known|, i requires 0 <= i < |known| => Look(signal, known[i])),
                                  seq(|known|,
                                    i requires 0 <= i < |known| => CountOr0(anchor.value, known[i]) as real));
      devOnly := DevOnlyTopics(names, dev, anchor.value);
    }
    epoch := Epoch(LastRound(rounds), until, y.total, y.classified, Share(y.classified, y.total),
                   dev, signal, anchor, validity, y.unclassified, devOnly);
  }

  // ---- coverage and the archive ----

  lemma {:induction false} CountConcat(a: seq<string>, b: seq<string>, defs: seq<Definition>)
    ensures CountClassified(a + b, defs) == CountClassified(a, defs) + CountClassified(b, defs)
  {
    if a == [] {
      EmptyConcat(b);
    } else {
      ConcatHead(a, b);
      CountConcat(a[1..], b, defs);
    }
  }

  lemma {:induction false} CountPermutes(a: seq<string>, b: seq<string>, defs: seq<Definition>)
    requires multiset(a) == multiset(b)
    ensures |a| == |b| && CountClassified(a, defs) == CountClassified(b, defs)
  {
    assert |multiset(a)| == |multiset(b)|;
    if a != [] {
      var k := DropFirst(a, b);
      CountPermutes(a[1..], b[..k] + b[k + 1..], defs);
      CountConcat(b[..k], [b[k]] + b[k + 1..], defs);
      CountConcat([b[k]], b[k + 1..], defs);
      CountConcat(b[..k], b[k + 1..], defs);
    }
  }

  /** Coverage does not depend on how the archive is replayed: it is the share
      of classified findings among the archived ones. */
  lemma CoverageOfArchive(entries: seq<ArchiveEntry>, policy: Policy)
    ensures CoverageOn(entries, policy) == Coverage(EntryFindings(entries), Keywords(policy.topics))
  {
    FindingsConserved(entries);
    CountPermutes(Flatten(RoundsOf(entries)), EntryFindings(entries), Keywords(policy.topics));
  }

  // ---- causality ----

  lemma EpochRound(rs: seq<Round>, topics: seq<Topic>, evidence: Option<Evidence>, i: nat)
    requires i < |rs|
    ensures Epochs(rs, topics, evidence)[i].round == Some(rs[i].round)
  {
    assert rs[..i + 1][i] == rs[i];
  }

  lemma EpochsKept(rs: seq<Round>, r: Round, topics: seq<Topic>, evidence: Option<Evidence>)
    ensures Epochs(rs, topics, evidence) <= Epochs(rs + [r], topics, evidence)
  {
    forall i | 0 <= i < |rs| ensures Epochs(rs, topics, evidence)[i] == Epochs(rs + [r], topics, evidence)[i] {
      assert (rs + [r])[..i + 1] == rs[..i + 1];
    }
  }

  /** Archiving a fresh review in time order keeps every epoch already measured,
      whatever the policy and evidence, and appends one; out of time order some
      epoch changes. */
  lemma MeasurementIsCausal(entries: seq<ArchiveEntry>, e: ArchiveEntry, policy: Policy, evidence: Option<Evidence>)
    requires FreshEntry(entries, e)
    ensures var before, after := Measure(entries, policy, evidence).epochs,
            Measure(entries + [e], policy, evidence).epochs;
            && |after| == |before| + 1
            && (before <= after <==> NoneLaterThan(RoundsOf(entries), e.occurredAt.value))
  {
    EpochsCausal(entries, e, policy.topics, Usable(evidence));
  }

  lemma EpochsCausal(entries: seq<ArchiveEntry>, e: ArchiveEntry, topics: seq<Topic>, ev: Option<Evidence>)
    requires FreshEntry(entries, e)
    ensures var before, after := Epochs(RoundsOf(entries), topics, ev), Epochs(RoundsOf(entries + [e]), topics, ev);
            && |after| == |before| + 1
            && (before <= after <==> NoneLaterThan(RoundsOf(entries), e.occurredAt.value))
  {
    var rs, rs' := RoundsOf(entries), RoundsOf(entries + [e]);
    ReplayIsCausal(entries, e);
    if NoneLaterThan(rs, e.occurredAt.value) {
      EpochsKept(rs, NewRound(e), topics, ev);
    } else {
      var i := InsertedEarlier(entries, e);
      RoundNumbersBelow(entries, e, i);
      EpochRound(rs, topics, ev, i);
      EpochRound(rs', topics, ev, i);
    }
  }

  lemma RoundNumbersBelow(entries: seq<ArchiveEntry>, e: ArchiveEntry, i: nat)
    requires FreshEntry(entries, e) && i < |RoundsOf(entries)|
    ensures RoundsOf(entries)[i].round < e.round.value
  {
    NumberedFresh(entries, e);
    SortIsPermutation(Numbered(entries), BY_TIME);
    assert RoundsOf(entries)[i] in Numbered(entries);
  }

  lemma InsertedEarlier(entries: seq<ArchiveEntry>, e: ArchiveEntry) returns (i: nat)
    requires FreshEntry(entries, e) && !NoneLaterThan(RoundsOf(entries), e.occurredAt.value)
    ensures |RoundsOf(entries + [e])| == |RoundsOf(entries)| + 1
    ensures i < |RoundsOf(entries)| && RoundsOf(entries + [e])[i].round == e.round.value
  {
    var rs, r := RoundsOf(entries), NewRound(e);
    ReplayIsCausal(entries, e);
    NumberedFresh(entries, e);
    var late :| 0 <= late < |rs| && TimeKey(rs[late].timestamp) > e.occurredAt.value;
    SortIsPermutation(Numbered(entries), BY_TIME);
    SortIsPermutation(Numbered(entries + [e]), BY_TIME);
    assert rs[late] in Numbered(entries);
    OneRoundPerKey(entries + [e]);
    i := PlacedBefore(RoundsOf(entries + [e]), r, rs[late]);
  }

  lemma PlacedBefore(rs: seq<Round>, r: Round, later: Round) returns (i: nat)
    requires Sorted(rs, BY_TIME) && r in rs && later in rs && TimeKey(later.timestamp) > TimeKey(r.timestamp)
    ensures i + 1 < |rs| && rs[i] == r
  {
    i :| 0 <= i < |rs| && rs[i] == r;
    var j :| 0 <= j < |rs| && rs[j] == later;
    assert j < i ==> BY_TIME(rs[j], rs[i]);
  }

  // ---- epochs, prefix by prefix ----

  /** f of the first round, of the first two, and so on to all of them. */
  function EachPrefix<T>(rs: seq<Round>, f: seq<Round> --> T): (r: seq<T>)
    requires forall x: seq<Round> | x != [] :: f.requires(x)
    ensures |r| == |rs|
  {
    seq(|rs|, i requires 0 <= i < |rs| => f(rs[..i + 1]))
  }

  function Historical(topics: seq<Topic>, evidence: Option<Evidence>): (f: seq<Round> --> Epoch)
    ensures forall x: seq<Round> | x != [] :: f.requires(x)
  {
    (rs: seq<Round>) requires rs != [] => HistoricalEpoch(rs, topics, evidence)
  }

  lemma EpochsAreHistorical(rs: seq<Round>, topics: seq<Topic>, evidence: Option<Evidence>)
    ensures Epochs(rs, topics, evidence) == EachPrefix(rs, Historical(topics, evidence))
  {
  }

  lemma PrefixesAgree<T>(rs: seq<Round>, f: seq<Round> --> T, g: seq<Round> --> T)
    requires forall x: seq<Round> | x != [] :: f.requires(x) && g.requires(x) && f(x) == g(x)
    ensures EachPrefix(rs, f) == EachPrefix(rs, g)
  {
  }

  lemma PrefixAt<T>(rs: seq<Round>, f: seq<Round> --> T, i: nat)
    requires i < |rs| && forall x: seq<Round> | x != [] :: f.requires(x)
    ensures EachPrefix(rs, f)[i] == f(rs[..i + 1])
  {
  }
}
