/** Growing the archive: scripts/detect-recurring-pattern.py,
    analyze-latest-review.py, archive-round.py and merge-archive-rounds.py. */
module Archiving {
  import opened Text
  import opened Records
  import opened Sorting
  import opened ImprovementPolicy
  import opened Rounds
  import opened Measuring

  // ---- recurrence ----

  predicate Mentions(e: ArchiveEntry, defs: seq<Definition>, topic: string) {
    exists i | 0 <= i < |e.findings| :: Classify(e.findings[i], defs) == Some(topic)
  }

  /** Identities of the archived rounds with a finding of this topic. */
  function RecurrenceKeys(es: seq<ArchiveEntry>, defs: seq<Definition>, topic: string): set<RoundKey> {
    set e | e in es && Mentions(e, defs, topic) :: KeyOf(e)
  }

  /** The policy a detector run is given. */
  datatype Rules = Rules(topics: seq<Topic>, threshold: int)
  {
    function Defs(): seq<Definition> { Keywords(topics) }
  }

  /** "mechanism" rather than "target": recurred, with weighted recurrence at threshold. */
  predicate Mechanism(es: seq<ArchiveEntry>, rules: Rules, topic: string) {
    Reaches(|RecurrenceKeys(es, rules.Defs(), topic)|, WeightOf(rules.topics, topic), rules.threshold)
  }

  predicate Reaches(n: nat, weight: real, threshold: int) {
    n > 0 && n as real * weight >= threshold as real
  }

  datatype Recommendation = Recommendation(topic: string, recurrence: nat, mechanism: bool)

  /** What the recommendation list must say about an archive. */
  ghost predicate Recommends(recs: seq<Recommendation>, es: seq<ArchiveEntry>, rules: Rules) {
    && (forall t {:trigger RecurrenceKeys(es, rules.Defs(), t)} ::
          RecurrenceKeys(es, rules.Defs(), t) != {} <==> exists i | 0 <= i < |recs| :: recs[i].topic == t)
    && (forall i | 0 <= i < |recs| ::
          && recs[i].recurrence == |RecurrenceKeys(es, rules.Defs(), recs[i].topic)|
          && (recs[i].mechanism <==> Mechanism(es, rules, recs[i].topic)))
    && (forall i, j | 0 <= i < j < |recs| :: recs[i].topic != recs[j].topic && recs[i].recurrence >= recs[j].recurrence)
  }

  /** topic_rounds after some findings: the topics met, in order, and their rounds. */
  ghost predicate Indexes(order: seq<string>, rounds: map<string, set<RoundKey>>, es: seq<ArchiveEntry>,
                          defs: seq<Definition>) {
    && (forall t :: t in order <==> t in rounds)
    && (forall i, j | 0 <= i < j < |order| :: order[i] != order[j])
    && (forall t {:trigger Agrees(rounds, es, defs, t)} :: Agrees(rounds, es, defs, t))
  }

  predicate Agrees(rounds: map<string, set<RoundKey>>, es: seq<ArchiveEntry>, defs: seq<Definition>, t: string) {
    if t in rounds then rounds[t] == RecurrenceKeys(es, defs, t) && rounds[t] != {}
      else RecurrenceKeys(es, defs, t) == {}
  }

  function FirstOf(e: ArchiveEntry, k: nat): ArchiveEntry
    requires k <= |e.findings|
  {
    e.(findings := e.findings[..k])
  }

  lemma RecurrenceStep(es: seq<ArchiveEntry>, e: ArchiveEntry, k: nat, defs: seq<Definition>, t: string)
    requires k < |e.findings|
    ensures RecurrenceKeys(es + [FirstOf(e, k + 1)], defs, t) ==
            RecurrenceKeys(es + [FirstOf(e, k)], defs, t)
              + (if Classify(e.findings[k], defs) == Some(t) then {KeyOf(e)} else {})
  {
    var p, q := FirstOf(e, k), FirstOf(e, k + 1);
    assert q.findings == p.findings + [e.findings[k]];
    assert Mentions(q, defs, t) <==> Mentions(p, defs, t) || Classify(e.findings[k], defs) == Some(t) by {
      if Mentions(p, defs, t) {
        var i :| 0 <= i < |p.findings| && Classify(p.findings[i], defs) == Some(t);
        assert q.findings[i] == p.findings[i];
      }
      assert q.findings[k] == e.findings[k];
    }
    RecurrenceSnoc(es, p, defs, t);
    RecurrenceSnoc(es, q, defs, t);
  }

  lemma RecurrenceSnoc(es: seq<ArchiveEntry>, e: ArchiveEntry, defs: seq<Definition>, t: string)
    ensures RecurrenceKeys(es + [e], defs, t) == RecurrenceKeys(es, defs, t)
            + (if Mentions(e, defs, t) then {KeyOf(e)} else {})
  {
  }

  lemma IndexStep(order: seq<string>, rounds: map<string, set<RoundKey>>, es: seq<ArchiveEntry>, e: ArchiveEntry,
                  k: nat, defs: seq<Definition>)
    requires k < |e.findings| && Indexes(order, rounds, es + [FirstOf(e, k)], defs)
    ensures var c := Classify(e.findings[k], defs);
            if c.None? then Indexes(order, rounds, es + [FirstOf(e, k + 1)], defs)
            else Indexes(if c.value in rounds then order else order + [c.value],
                         rounds[c.value := (if c.value in rounds then rounds[c.value] else {}) + {KeyOf(e)}],
                         es + [FirstOf(e, k + 1)], defs)
  {
    var c := Classify(e.findings[k], defs);
    var after := if c.None? then rounds
      else rounds[c.value := (if c.value in rounds then rounds[c.value] else {}) + {KeyOf(e)}];
    var before, extended := es + [FirstOf(e, k)], es + [FirstOf(e, k + 1)];
    forall t ensures Agrees(after, extended, defs, t) {
      assert Agrees(rounds, before, defs, t);
      RecurrenceStep(es, e, k, defs, t);
    }
  }

  lemma NoNewFindings(order: seq<string>, rounds: map<string, set<RoundKey>>, es: seq<ArchiveEntry>, e: ArchiveEntry,
                      defs: seq<Definition>)
    requires Indexes(order, rounds, es, defs)
    ensures Indexes(order, rounds, es + [FirstOf(e, 0)], defs)
  {
    forall t ensures Agrees(rounds, es + [FirstOf(e, 0)], defs, t) {
      assert Agrees(rounds, es, defs, t);
      RecurrenceSnoc(es, FirstOf(e, 0), defs, t);
    }
  }

  method IndexTopics(entries: seq<ArchiveEntry>, defs: seq<Definition>)
    returns (order: seq<string>, rounds: map<string, set<RoundKey>>)
    ensures Indexes(order, rounds, entries, defs)
  {
    order, rounds := [], map[];
    forall t ensures Agrees(rounds, [], defs, t) { }
    for n := 0 to |entries|
      invariant Indexes(order, rounds, entries[..n], defs)
    {
      var entry := entries[n];
      NoNewFindings(order, rounds, entries[..n], entry, defs);
      for k := 0 to |entry.findings|
        invariant Indexes(order, rounds, entries[..n] + [FirstOf(entry, k)], defs)
      {
        IndexStep(order, rounds, entries[..n], entry, k, defs);
        var topic := Classify(entry.findings[k], defs);
        if topic.None? { continue; }
        var known := if topic.value in rounds then rounds[topic.value] else {};
        if topic.value !in rounds { order := order + [topic.value]; }
        rounds := rounds[topic.value := known + {KeyOf(entry)}];
      }
      assert FirstOf(entry, |entry.findings|) == entry && entries[..n] + [entry] == entries[..n + 1];
    }
    assert entries[..|entries|] == entries;
  }

  function Size(rounds: map<string, set<RoundKey>>, t: string): nat { if t in rounds then |rounds[t]| else 0 }

  /** sorted by descending number of rounds */
  function BySize(rounds: map<string, set<RoundKey>>): (string, string) -> bool {
    (a: string, b: string) => Size(rounds, a) >= Size(rounds, b)
  }

  lemma SortedTopics(order: seq<string>, rounds: map<string, set<RoundKey>>)
    requires forall i, j | 0 <= i < j < |order| :: order[i] != order[j]
    ensures var sorted := SortBy(order, BySize(rounds));
            && Sorted(sorted, BySize(rounds)) && (forall t :: t in sorted <==> t in order)
            && forall i, j | 0 <= i < j < |sorted| :: sorted[i] != sorted[j]
  {
    SortIsPermutation(order, BySize(rounds));
    SortSorts(order, BySize(rounds));
    NoRepeats(order, SortBy(order, BySize(rounds)));
  }

  method Analyze(entries: seq<ArchiveEntry>, rules: Rules) returns (recs: seq<Recommendation>)
    ensures Recommends(recs, entries, rules)
  {
    var order, rounds := IndexTopics(entries, rules.Defs());
    var sorted := SortBy(order, BySize(rounds));
    SortedTopics(order, rounds);
    recs := AdviseOn(sorted, rounds, rules);
    RecommendationsAgree(recs, sorted, rounds, order, entries, rules);
  }

  /** The loop that turns each topic, in its place, into a recommendation. */
  method AdviseOn(topics: seq<string>, rounds: map<string, set<RoundKey>>, rules: Rules)
    returns (recs: seq<Recommendation>)
    ensures |recs| == |topics| && AdvisedFirst(recs, topics, rounds, rules)
  {
    recs := [];
    for i := 0 to |topics|
      invariant |recs| == i && AdvisedFirst(recs, topics, rounds, rules)
    {
      var recurrence := Size(rounds, topics[i]);
      var weighted := recurrence as real * WeightOf(rules.topics, topics[i]);
      recs := recs + [Recommendation(topics[i], recurrence, weighted >= rules.threshold as real)];
    }
  }

  function Advice(rules: Rules, topic: string, n: nat): Recommendation {
    Recommendation(topic, n, n as real * WeightOf(rules.topics, topic) >= rules.threshold as real)
  }

  ghost predicate AdvisedFirst(recs: seq<Recommendation>, sorted: seq<string>, rounds: map<string, set<RoundKey>>,
                               rules: Rules) {
    && |recs| <= |sorted|
    && forall j | 0 <= j < |recs| :: recs[j] == Advice(rules, sorted[j], Size(rounds, sorted[j]))
  }

  lemma RecommendationsAgree(recs: seq<Recommendation>, sorted: seq<string>, rounds: map<string, set<RoundKey>>,
                             order: seq<string>, entries: seq<ArchiveEntry>, rules: Rules)
    requires Indexes(order, rounds, entries, rules.Defs()) && (forall t :: t in sorted <==> t in order)
    requires forall i, j | 0 <= i < j < |sorted| :: sorted[i] != sorted[j]
    requires Sorted(sorted, BySize(rounds))
    requires |recs| == |sorted| && AdvisedFirst(recs, sorted, rounds, rules)
    ensures Recommends(recs, entries, rules)
  {
    forall t
      ensures RecurrenceKeys(entries, rules.Defs(), t) != {} <==> exists i | 0 <= i < |recs| :: recs[i].topic == t
    {
      assert Agrees(rounds, entries, rules.Defs(), t);
      if t in sorted {
        var i :| 0 <= i < |sorted| && sorted[i] == t;
        assert recs[i].topic == t;
      }
    }
    forall i | 0 <= i < |recs|
      ensures recs[i].recurrence == |RecurrenceKeys(entries, rules.Defs(), recs[i].topic)|
      ensures recs[i].mechanism <==> Mechanism(entries, rules, recs[i].topic)
    {
      assert sorted[i] in sorted;
      AdviceAgrees(rounds, entries, rules, sorted[i]);
    }
    forall i, j | 0 <= i < j < |recs|
      ensures recs[i].topic != recs[j].topic && recs[i].recurrence >= recs[j].recurrence {
      assert BySize(rounds)(sorted[i], sorted[j]);
    }
  }

  lemma AdviceAgrees(rounds: map<string, set<RoundKey>>, entries: seq<ArchiveEntry>, rules: Rules, t: string)
    requires t in rounds && Agrees(rounds, entries, rules.Defs(), t)
    ensures Advice(rules, t, Size(rounds, t)).recurrence == |RecurrenceKeys(entries, rules.Defs(), t)|
    ensures Advice(rules, t, Size(rounds, t)).mechanism <==> Mechanism(entries, rules, t)
  {
    NonEmptySize(rounds[t]);
  }

  lemma NonEmptySize<T>(s: set<T>)
    requires s != {}
    ensures |s| > 0
  {
  }

  lemma {:induction false} NoRepeats(a: seq<string>, b: seq<string>)
    requires multiset(a) == multiset(b) && forall i, j | 0 <= i < j < |a| :: a[i] != a[j]
    ensures forall i, j | 0 <= i < j < |b| :: b[i] != b[j]
  {
    if b != [] {
      var k := DropFirst(b, a);
      NoRepeats(a[..k] + a[k + 1..], b[1..]);
      forall i, j | 0 <= i < j < |b| ensures b[i] != b[j] {
        if i == 0 {
          assert b[1..][j - 1] in multiset(b[1..]);
          assert b[j] in a[..k] + a[k + 1..];
        } else {
          assert b[1..][i - 1] != b[1..][j - 1];
        }
      }
    }
  }

  // ---- the detector and the measurer count one signal ----

  lemma MentionsByFinding(e: ArchiveEntry, defs: seq<Definition>, t: string)
    ensures Mentions(e, defs, t) <==> exists f | f in e.findings :: Classify(f, defs) == Some(t)
  {
    if f :| f in e.findings && Classify(f, defs) == Some(t) {
      var i :| 0 <= i < |e.findings| && e.findings[i] == f;
    }
    if Mentions(e, defs, t) {
      var i :| 0 <= i < |e.findings| && Classify(e.findings[i], defs) == Some(t);
      assert e.findings[i] in e.findings;
    }
  }

  lemma CreditsByEntry(es: seq<ArchiveEntry>, r: Round, defs: seq<Definition>, t: string)
    requires r in RoundsOf(es)
    ensures Credits(r, defs, t) <==> exists e | e in es :: BelongsTo(r.key)(e) && Mentions(e, defs, t)
  {
    if Credits(r, defs, t) {
      var i :| 0 <= i < |r.findings| && Classify(r.findings[i], defs) == Some(t);
      FindingOfRound(es, r, r.findings[i]);
      var e :| e in es && BelongsTo(r.key)(e) && r.findings[i] in e.findings;
      MentionsByFinding(e, defs, t);
    }
    if e :| e in es && BelongsTo(r.key)(e) && Mentions(e, defs, t) {
      MentionsByFinding(e, defs, t);
      var f :| f in e.findings && Classify(f, defs) == Some(t);
      FindingOfRound(es, r, f);
      var i :| 0 <= i < |r.findings| && r.findings[i] == f;
    }
  }

  /** The rounds that credit a topic in a measurement are the identities of the
      numbered entries that mention it. */
  lemma CreditedRounds(es: seq<ArchiveEntry>, defs: seq<Definition>, t: string)
    ensures DevKeys(RoundsOf(es), defs, t) == set e | e in es && e.round.Some? && Mentions(e, defs, t) :: KeyOf(e)
  {
    var dev, named := DevKeys(RoundsOf(es), defs, t),
      set e | e in es && e.round.Some? && Mentions(e, defs, t) :: KeyOf(e);
    OneRoundPerKey(es);
    forall k | k in dev ensures k in named {
      var r :| r in RoundsOf(es) && Credits(r, defs, t) && r.key == k;
      CreditsByEntry(es, r, defs, t);
    }
    forall k | k in named ensures k in dev {
      var e :| e in es && e.round.Some? && Mentions(e, defs, t) && KeyOf(e) == k;
      assert k in EntryKeys(es) && k in KeysOf(RoundsOf(es));
      var r :| r in RoundsOf(es) && r.key == k;
      CreditsByEntry(es, r, defs, t);
    }
  }

  /** Some numbered entry of the same identity mentions the topic too. */
  ghost predicate Backed(e: ArchiveEntry, es: seq<ArchiveEntry>, defs: seq<Definition>, t: string) {
    exists n | n in es :: n.round.Some? && Mentions(n, defs, t) && KeyOf(n) == KeyOf(e)
  }

  /** Detector and measurement count a topic alike if and only if each entry without
      a number that mentions it is backed: replay skips such entries. */
  lemma OneSignalIff(es: seq<ArchiveEntry>, defs: seq<Definition>, t: string)
    ensures RecurrenceKeys(es, defs, t) == DevKeys(RoundsOf(es), defs, t) <==>
            forall e | e in es && e.round.None? && Mentions(e, defs, t) :: Backed(e, es, defs, t)
    ensures RecurrenceKeys(es, defs, t) >= DevKeys(RoundsOf(es), defs, t)
  {
    CreditedRounds(es, defs, t);
    var all, counted := RecurrenceKeys(es, defs, t), DevKeys(RoundsOf(es), defs, t);
    if all == counted {
      forall e | e in es && e.round.None? && Mentions(e, defs, t) ensures Backed(e, es, defs, t) {
        assert KeyOf(e) in all;
      }
    }
    forall k | k in all && (forall e | e in es && e.round.None? && Mentions(e, defs, t) :: Backed(e, es, defs, t))
      ensures k in counted
    {
      var e :| e in es && Mentions(e, defs, t) && KeyOf(e) == k;
      assert e.round.None? ==> Backed(e, es, defs, t);
    }
  }

  /** One entry without a number: the detector counts it, and replay does not. */
  lemma UnnumberedIsSkipped()
    ensures var e, defs := ArchiveEntry(None, ["x"], Some("c1"), None, None, None), [Definition("t", ["x"])];
            RecurrenceKeys([e], defs, "t") != DevKeys(RoundsOf([e]), defs, "t")
  {
    var e, defs := ArchiveEntry(None, ["x"], Some("c1"), None, None, None), [Definition("t", ["x"])];
    assert OccursAt(Lower("x"), defs[0].words[0], 0);
    assert MentionsAny(Lower("x"), defs[0].words);
    assert e.findings[0] == "x" && Classify("x", defs) == Some("t");
    assert e in [e];
    OneSignalIff([e], defs, "t");
  }

  // ---- merging archives ----

  predicate Identified(e: ArchiveEntry) { e.sourceSha.Some? && e.sourceSha.value != "" }

  function Shas(es: seq<ArchiveEntry>): set<string> {
    set e | e in es && Identified(e) :: e.sourceSha.value
  }

  /** max of the round numbers present, or 0. */
  function MaxRound(es: seq<ArchiveEntry>): int {
    if es == [] then 0
    else
      var init, e := es[..|es| - 1], es[|es| - 1];
      if e.round.None? then MaxRound(init)
      else if forall x | x in init :: x.round.None? then e.round.value
      else if e.round.value > MaxRound(init) then e.round.value else MaxRound(init)
  }

  lemma {:induction false} MaxRoundIsMax(es: seq<ArchiveEntry>)
    ensures forall e | e in es && e.round.Some? :: e.round.value <= MaxRound(es)
    ensures (exists e | e in es :: e.round.Some? && e.round.value == MaxRound(es))
            || (MaxRound(es) == 0 && forall e | e in es :: e.round.None?)
  {
    if es != [] {
      var init, e := es[..|es| - 1], es[|es| - 1];
      assert es == init + [e];
      MaxRoundIsMax(init);
    }
  }

  /** The entries a merge appends, given the identities seen and the last number used. */
  function Appended(es: seq<ArchiveEntry>, seen: set<string>, last: int): seq<ArchiveEntry> {
    if es == [] then []
    else if !Identified(es[0]) || es[0].sourceSha.value in seen then Appended(es[1..], seen, last)
    else [es[0].(round := Some(last + 1))] + Appended(es[1..], seen + {es[0].sourceSha.value}, last + 1)
  }

  function Merged(base: seq<ArchiveEntry>, standing: seq<ArchiveEntry>, newer: seq<ArchiveEntry>): seq<ArchiveEntry> {
    base + Appended(standing + newer, Shas(base), MaxRound(base))
  }

  method Merge(base: seq<ArchiveEntry>, standing: seq<ArchiveEntry>, newRounds: seq<ArchiveEntry>)
    returns (merged: seq<ArchiveEntry>, appended: seq<int>)
    ensures merged == Merged(base, standing, newRounds)
    ensures |appended| == |merged| - |base|
    ensures forall i | 0 <= i < |appended| ::
              merged[|base| + i].round == Some(appended[i]) && appended[i] == MaxRound(base) + 1 + i
  {
    var seen, nextRound := Shas(base), MaxRound(base);
    var queue := standing + newRounds;
    merged, appended := base, [];
    for n := 0 to |queue|
      invariant merged + Appended(queue[n..], seen, nextRound) == Merged(base, standing, newRounds)
      invariant |merged| == |base| + |appended| && nextRound == MaxRound(base) + |appended|
      invariant forall i | 0 <= i < |appended| ::
                  merged[|base| + i].round == Some(appended[i]) && appended[i] == MaxRound(base) + 1 + i
    {
      var entry := queue[n];
      assert queue[n..][0] == entry && queue[n..][1..] == queue[n + 1..];
      if !Identified(entry) || entry.sourceSha.value in seen { continue; }
      seen := seen + {entry.sourceSha.value};
      nextRound := nextRound + 1;
      Assoc(merged, [entry.(round := Some(nextRound))], Appended(queue[n + 1..], seen, nextRound));
      merged := merged + [entry.(round := Some(nextRound))];
      appended := appended + [nextRound];
    }
  }

  /** New commits, each once, numbered consecutively from last + 1. */
  ghost predicate Renumbered(x: seq<ArchiveEntry>, seen: set<string>, last: int) {
    && (forall i | 0 <= i < |x| ::
          Identified(x[i]) && x[i].sourceSha.value !in seen && x[i].round == Some(last + 1 + i))
    && (forall i, j | 0 <= i < j < |x| :: x[i].sourceSha != x[j].sourceSha)
  }

  lemma RenumberedCons(head: ArchiveEntry, x: seq<ArchiveEntry>, seen: set<string>, last: int)
    requires Identified(head) && head.sourceSha.value !in seen && head.round == Some(last + 1)
    requires Renumbered(x, seen + {head.sourceSha.value}, last + 1)
    ensures Renumbered([head] + x, seen, last)
  {
  }

  lemma ShasCons(e: ArchiveEntry, es: seq<ArchiveEntry>)
    ensures Shas([e] + es) == (if Identified(e) then {e.sourceSha.value} else {}) + Shas(es)
  {
  }

  lemma ShasOf(es: seq<ArchiveEntry>)
    requires es != []
    ensures Shas(es) == (if Identified(es[0]) then {es[0].sourceSha.value} else {}) + Shas(es[1..])
  {
    ShasCons(es[0], es[1..]);
    assert es == [es[0]] + es[1..];
  }

  lemma {:induction false} AppendedFacts(es: seq<ArchiveEntry>, seen: set<string>, last: int)
    ensures Renumbered(Appended(es, seen, last), seen, last)
    ensures seen + Shas(Appended(es, seen, last)) == seen + Shas(es)
  {
    if es != [] {
      ShasOf(es);
      if !Identified(es[0]) || es[0].sourceSha.value in seen {
        AppendedFacts(es[1..], seen, last);
      } else {
        var seen' := seen + {es[0].sourceSha.value};
        var head, rest := es[0].(round := Some(last + 1)), Appended(es[1..], seen', last + 1);
        AppendedFacts(es[1..], seen', last + 1);
        RenumberedCons(head, rest, seen, last);
        ShasCons(head, rest);
      }
    }
  }

  lemma {:induction false} AppendedConcat(a: seq<ArchiveEntry>, b: seq<ArchiveEntry>, seen: set<string>, last: int)
    ensures Appended(a + b, seen, last) ==
            Appended(a, seen, last) + Appended(b, seen + Shas(a), last + |Appended(a, seen, last)|)
  {
    if a == [] {
      EmptyConcat(b);
      assert seen + Shas(a) == seen;
      EmptyConcat(Appended(b, seen, last));
    } else {
      ConcatHead(a, b);
      ShasOf(a);
      if !Identified(a[0]) || a[0].sourceSha.value in seen {
        AppendedConcat(a[1..], b, seen, last);
        assert seen + Shas(a[1..]) == seen + Shas(a);
      } else {
        var seen' := seen + {a[0].sourceSha.value};
        AppendedConcat(a[1..], b, seen', last + 1);
        assert seen' + Shas(a[1..]) == seen + Shas(a);
        var x := Appended(a[1..], seen', last + 1);
        Assoc([a[0].(round := Some(last + 1))], x, Appended(b, seen + Shas(a), last + 1 + |x|));
      }
    }
  }

  lemma {:induction false} NothingNew(es: seq<ArchiveEntry>, seen: set<string>, last: int)
    requires Shas(es) <= seen
    ensures Appended(es, seen, last) == []
  {
    if es != [] {
      ShasOf(es);
      NothingNew(es[1..], seen, last);
    }
  }

  /** Entries already deduplicated and numbered append as they are. */
  lemma {:induction false} AppendedStable(x: seq<ArchiveEntry>, seen: set<string>, last: int)
    requires Renumbered(x, seen, last)
    ensures Appended(x, seen, last) == x
  {
    if x != [] {
      assert x[0].(round := Some(last + 1)) == x[0];
      forall i | 0 <= i < |x[1..]| ensures x[1..][i].sourceSha != x[0].sourceSha { assert x[1..][i] == x[i + 1]; }
      AppendedStable(x[1..], seen + {x[0].sourceSha.value}, last + 1);
      assert x == [x[0]] + x[1..];
    }
  }

  /** The merge keeps base as a prefix and appends each new commit once, numbered
      consecutively above everything in base. */
  lemma MergeAppendsNewCommits(base: seq<ArchiveEntry>, standing: seq<ArchiveEntry>, newer: seq<ArchiveEntry>)
    ensures var m := Merged(base, standing, newer);
            && base <= m
            && (forall i | |base| <= i < |m| ::
                  && Identified(m[i]) && m[i].sourceSha.value !in Shas(base)
                  && m[i].round == Some(MaxRound(base) + 1 + (i - |base|)))
            && (forall i, j | |base| <= i < j < |m| :: m[i].sourceSha != m[j].sourceSha)
            && Shas(m) == Shas(base) + Shas(standing + newer)
  {
    var x := Appended(standing + newer, Shas(base), MaxRound(base));
    AppendedFacts(standing + newer, Shas(base), MaxRound(base));
    MergedShas(base, standing + newer, MaxRound(base));
    RenumberedAt(base, x, Shas(base), MaxRound(base));
  }

  lemma MergedShas(base: seq<ArchiveEntry>, queue: seq<ArchiveEntry>, last: int)
    ensures Shas(base + Appended(queue, Shas(base), last)) == Shas(base) + Shas(queue)
  {
    AppendedFacts(queue, Shas(base), last);
    ShasConcat(base, Appended(queue, Shas(base), last));
  }

  lemma RenumberedAt(base: seq<ArchiveEntry>, x: seq<ArchiveEntry>, seen: set<string>, last: int)
    requires Renumbered(x, seen, last)
    ensures var m := base + x;
            && (forall i | |base| <= i < |m| ::
                  Identified(m[i]) && m[i].sourceSha.value !in seen && m[i].round == Some(last + 1 + (i - |base|)))
            && (forall i, j | |base| <= i < j < |m| :: m[i].sourceSha != m[j].sourceSha)
  {
    var m := base + x;
    forall i | |base| <= i < |m| ensures m[i] == x[i - |base|] { }
  }

  lemma ShasConcat(a: seq<ArchiveEntry>, b: seq<ArchiveEntry>)
    ensures Shas(a + b) == Shas(a) + Shas(b)
  {
  }

  /** Re-merging on top of a merge: only the newer commits are added. */
  lemma AppendedAfterMerge(base: seq<ArchiveEntry>, queue: seq<ArchiveEntry>, more: seq<ArchiveEntry>,
                           seen: set<string>, last: int)
    requires Shas(base) == seen && Appended(base, seen, last) == []
    ensures var x := Appended(queue, seen, last);
            Appended((base + x) + more, seen, last) == x + Appended(more, seen + Shas(queue), last + |x|)
  {
    AppendedFacts(queue, seen, last);
    PrefixSkipped(base, Appended(queue, seen, last), more, seen, last, seen + Shas(queue));
  }

  lemma PrefixSkipped(base: seq<ArchiveEntry>, x: seq<ArchiveEntry>, more: seq<ArchiveEntry>, seen: set<string>,
                      last: int, all: set<string>)
    requires Shas(base) == seen && Renumbered(x, seen, last) && Appended(base, seen, last) == []
    requires all == seen + Shas(x)
    ensures Appended((base + x) + more, seen, last) == x + Appended(more, all, last + |x|)
  {
    Assoc(base, x, more);
    SkipPrefix(base, x + more, seen, last);
    AppendedStable(x, seen, last);
    AppendedConcat(x, more, seen, last);
  }

  lemma SkipPrefix(base: seq<ArchiveEntry>, rest: seq<ArchiveEntry>, seen: set<string>, last: int)
    requires Shas(base) == seen && Appended(base, seen, last) == []
    ensures Appended(base + rest, seen, last) == Appended(rest, seen, last)
  {
    AppendedConcat(base, rest, seen, last);
    assert seen + Shas(base) == seen;
    EmptyConcat(Appended(rest, seen, last));
  }

  /** Rebuilding the standing branch on top of its last build equals building it
      once from all the rounds. */
  lemma MergeComposes(base: seq<ArchiveEntry>, standing: seq<ArchiveEntry>, a: seq<ArchiveEntry>, b: seq<ArchiveEntry>)
    ensures Merged(base, Merged(base, standing, a), b) == Merged(base, standing, a + b)
  {
    NothingNew(base, Shas(base), MaxRound(base));
    AppendedAfterMerge(base, standing + a, b, Shas(base), MaxRound(base));
    Assoc(standing, a, b);
    AppendedConcat(standing + a, b, Shas(base), MaxRound(base));
  }

  /** A rerun for commits already merged changes nothing. */
  lemma MergeIsIdempotent(base: seq<ArchiveEntry>, standing: seq<ArchiveEntry>, newer: seq<ArchiveEntry>)
    ensures Merged(base, Merged(base, standing, newer), newer) == Merged(base, standing, newer)
  {
    var seen, last := Shas(base), MaxRound(base);
    var x := Appended(standing + newer, seen, last);
    NothingNew(base, seen, last);
    AppendedAfterMerge(base, standing + newer, newer, seen, last);
    assert Shas(newer) <= Shas(standing + newer);
    NothingNew(newer, seen + Shas(standing + newer), last + |x|);
    EmptyConcat(x);
  }

  /** The same entries without renumbering. */
  function FirstPerCommit(es: seq<ArchiveEntry>, seen: set<string>): seq<ArchiveEntry> {
    if es == [] then []
    else if !Identified(es[0]) || es[0].sourceSha.value in seen then FirstPerCommit(es[1..], seen)
    else [es[0]] + FirstPerCommit(es[1..], seen + {es[0].sourceSha.value})
  }

  lemma RecurrenceConcat(a: seq<ArchiveEntry>, b: seq<ArchiveEntry>, defs: seq<Definition>, t: string)
    ensures RecurrenceKeys(a + b, defs, t) == RecurrenceKeys(a, defs, t) + RecurrenceKeys(b, defs, t)
  {
  }

  lemma {:induction false} RenumberingKeepsRecurrence(es: seq<ArchiveEntry>, seen: set<string>, last: int,
                                                      defs: seq<Definition>, t: string)
    ensures RecurrenceKeys(Appended(es, seen, last), defs, t) == RecurrenceKeys(FirstPerCommit(es, seen), defs, t)
  {
    if es != [] {
      if !Identified(es[0]) || es[0].sourceSha.value in seen {
        RenumberingKeepsRecurrence(es[1..], seen, last, defs, t);
      } else {
        var seen', e := seen + {es[0].sourceSha.value}, es[0].(round := Some(last + 1));
        RenumberingKeepsRecurrence(es[1..], seen', last + 1, defs, t);
        RecurrenceConcat([e], Appended(es[1..], seen', last + 1), defs, t);
        RecurrenceConcat([es[0]], FirstPerCommit(es[1..], seen'), defs, t);
        RecurrenceSnoc([], e, defs, t); RecurrenceSnoc([], es[0], defs, t);
        EmptyConcat([e]); EmptyConcat([es[0]]);
      }
    }
  }

  /** Renumbering is invisible to the detector: after a merge every topic has the
      recurrence of base plus each new commit's own entry. */
  lemma MergeKeepsRecurrence(base: seq<ArchiveEntry>, standing: seq<ArchiveEntry>, newer: seq<ArchiveEntry>,
                             defs: seq<Definition>, t: string)
    ensures RecurrenceKeys(Merged(base, standing, newer), defs, t) ==
            RecurrenceKeys(base + FirstPerCommit(standing + newer, Shas(base)), defs, t)
  {
    RenumberingKeepsRecurrence(standing + newer, Shas(base), MaxRound(base), defs, t);
    RecurrenceConcat(base, Appended(standing + newer, Shas(base), MaxRound(base)), defs, t);
    RecurrenceConcat(base, FirstPerCommit(standing + newer, Shas(base)), defs, t);
  }

  // ---- archiving one review ----

  /** e.get("round", 0) */
  function RoundOr0(e: ArchiveEntry): int { match e.round case Some(n) => n case None => 0 }

  function NextRoundNumber(es: seq<ArchiveEntry>): int {
    if es == [] then 1 else Highest(es) + 1
  }

  function Highest(es: seq<ArchiveEntry>): (n: int)
    requires es != []
    ensures forall e | e in es :: RoundOr0(e) <= n
  {
    if |es| == 1 then RoundOr0(es[0])
    else
      var rest := Highest(es[1..]);
      if RoundOr0(es[0]) > rest then RoundOr0(es[0]) else rest
  }

  predicate AlreadyProcessed(es: seq<ArchiveEntry>, sha: string) {
    exists i | 0 <= i < |es| :: es[i].sourceSha == Some(sha)
  }

  /** A completed run's comment: its findings, its stamp (None for none), the
      commit reviewed, and when it is archived. */
  datatype Review = Review(findings: seq<string>, status: Option<string>, sha: string, now: int)

  /** Stamped with another status, or without findings and not stamped completed. */
  predicate Unusable(r: Review) {
    if r.status.Some? then r.status.value != "completed" else r.findings == []
  }

  function BuildEntry(es: seq<ArchiveEntry>, r: Review, stamp: Policy): ArchiveEntry {
    ArchiveEntry(Some(NextRoundNumber(es)), r.findings, Some(r.sha), Some(r.now), Some(stamp.version),
      Some(PolicyHash(stamp)))
  }

  /** The entry find_newly_crossed_topics imagines: a number and the findings only. */
  function HypotheticalEntry(es: seq<ArchiveEntry>, findings: seq<string>): ArchiveEntry {
    ArchiveEntry(Some(NextRoundNumber(es)), findings, None, None, None, None)
  }

  ghost predicate NewlyCrossed(es: seq<ArchiveEntry>, e: ArchiveEntry, rules: Rules, t: string) {
    Mechanism(es + [e], rules, t) && !Mechanism(es, rules, t)
  }

  predicate Advised(recs: seq<Recommendation>, t: string) {
    exists i | 0 <= i < |recs| :: recs[i].topic == t && recs[i].mechanism
  }

  lemma AdvisedIsMechanism(recs: seq<Recommendation>, es: seq<ArchiveEntry>, rules: Rules, t: string)
    requires Recommends(recs, es, rules)
    ensures Advised(recs, t) <==> Mechanism(es, rules, t)
  {
    if Mechanism(es, rules, t) {
      assert RecurrenceKeys(es, rules.Defs(), t) != {};
      var i :| 0 <= i < |recs| && recs[i].topic == t;
    }
  }

  method FindNewlyCrossedTopics(es: seq<ArchiveEntry>, findings: seq<string>, rules: Rules)
    returns (crossed: seq<string>)
    ensures forall t :: t in crossed <==> NewlyCrossed(es, HypotheticalEntry(es, findings), rules, t)
  {
    var before := Analyze(es, rules);
    var after := Analyze(es + [HypotheticalEntry(es, findings)], rules);
    crossed := [];
    for i := 0 to |after|
      invariant forall t ::
                  t in crossed <==>
                  (exists j | 0 <= j < i :: after[j].topic == t && after[j].mechanism) && !Advised(before, t)
    {
      if !after[i].mechanism { continue; }
      if !Advised(before, after[i].topic) { crossed := crossed + [after[i].topic]; }
    }
    forall t ensures t in crossed <==> NewlyCrossed(es, HypotheticalEntry(es, findings), rules, t) {
      AdvisedIsMechanism(before, es, rules, t);
      AdvisedIsMechanism(after, es + [HypotheticalEntry(es, findings)], rules, t);
    }
  }

  /** The archive after main has seen a review. */
  function ArchiveReview(es: seq<ArchiveEntry>, r: Review, stamp: Policy): seq<ArchiveEntry> {
    if AlreadyProcessed(es, r.sha) || Unusable(r) then es else es + [BuildEntry(es, r, stamp)]
  }

  /** Whether main reports topic t for this review. */
  ghost predicate Reported(es: seq<ArchiveEntry>, r: Review, rules: Rules, t: string) {
    !AlreadyProcessed(es, r.sha) && !Unusable(r) && NewlyCrossed(es, HypotheticalEntry(es, r.findings), rules, t)
  }

  datatype Outcome = AlreadyDone | NotUsable | Recorded(round: int, newlyCrossed: seq<string>)

  /** The archive file, which main reads, checks and appends to. */
  class ArchiveFile {
    var entries: seq<ArchiveEntry>

    constructor (initial: seq<ArchiveEntry>)
      ensures entries == initial
    {
      entries := initial;
    }

    method Process(r: Review, stamp: Policy, rules: Rules) returns (outcome: Outcome)
      modifies this
      ensures entries == ArchiveReview(old(entries), r, stamp)
      ensures outcome.AlreadyDone? <==> AlreadyProcessed(old(entries), r.sha)
      ensures outcome.Recorded? ==> entries == old(entries) + [BuildEntry(old(entries), r, stamp)]
                                    && entries[|old(entries)|].round == Some(outcome.round)
      ensures forall t :: Reported(old(entries), r, rules, t) <==> outcome.Recorded? && t in outcome.newlyCrossed
    {
      if AlreadyProcessed(entries, r.sha) { return AlreadyDone; }
      if Unusable(r) { return NotUsable; }
      var crossed := FindNewlyCrossedTopics(entries, r.findings, rules);
      var entry := BuildEntry(entries, r, stamp);
      entries := entries + [entry];
      outcome := Recorded(entry.round.value, crossed);
    }
  }

  // ---- each topic is announced once ----

  function AllKeys(es: seq<ArchiveEntry>): set<RoundKey> { set e | e in es :: KeyOf(e) }

  lemma NextNumberIsFresh(es: seq<ArchiveEntry>)
    ensures ByNumber(Some(NextRoundNumber(es))) !in AllKeys(es)
  {
    forall e | e in es ensures KeyOf(e) != ByNumber(Some(NextRoundNumber(es))) {
      assert RoundOr0(e) <= Highest(es);
    }
  }

  lemma NewCommitIsFresh(es: seq<ArchiveEntry>, r: Review, stamp: Policy)
    requires !AlreadyProcessed(es, r.sha)
    ensures KeyOf(BuildEntry(es, r, stamp)) !in AllKeys(es)
  {
    NextNumberIsFresh(es);
    forall e | e in es ensures r.sha != "" ==> KeyOf(e) != ByCommit(r.sha) {
      var i :| 0 <= i < |es| && es[i] == e;
      assert es[i].sourceSha != Some(r.sha);
    }
  }

  lemma FreshRecurrence(es: seq<ArchiveEntry>, e: ArchiveEntry, defs: seq<Definition>, t: string)
    requires KeyOf(e) !in AllKeys(es)
    ensures |RecurrenceKeys(es + [e], defs, t)| == |RecurrenceKeys(es, defs, t)|
            + (if Mentions(e, defs, t) then 1 else 0)
  {
    RecurrenceSnoc(es, e, defs, t);
    assert KeyOf(e) !in RecurrenceKeys(es, defs, t);
  }

  /** The imagined entry crosses exactly the topics that the entry actually
      appended does, although it carries no commit. */
  lemma HypotheticalIsFaithful(es: seq<ArchiveEntry>, r: Review, stamp: Policy, rules: Rules, t: string)
    requires !AlreadyProcessed(es, r.sha)
    ensures Mechanism(es + [HypotheticalEntry(es, r.findings)], rules, t)
            <==> Mechanism(es + [BuildEntry(es, r, stamp)], rules, t)
  {
    var h, e := HypotheticalEntry(es, r.findings), BuildEntry(es, r, stamp);
    NextNumberIsFresh(es);
    NewCommitIsFresh(es, r, stamp);
    FreshRecurrence(es, h, rules.Defs(), t);
    FreshRecurrence(es, e, rules.Defs(), t);
    assert Mentions(h, rules.Defs(), t) <==> Mentions(e, rules.Defs(), t);
  }

  ghost predicate PositiveWeights(rules: Rules) {
    forall i | 0 <= i < |rules.topics| :: rules.topics[i].weight > 0.0
  }

  lemma {:induction false} WeightIsPositive(topics: seq<Topic>, t: string)
    requires forall i | 0 <= i < |topics| :: topics[i].weight > 0.0
    ensures WeightOf(topics, t) > 0.0
  {
    if topics != [] { WeightIsPositive(topics[1..], t); }
  }

  lemma ReachesMonotone(m: nat, n: nat, w: real, threshold: int)
    requires m <= n && w > 0.0 && Reaches(m, w, threshold)
    ensures Reaches(n, w, threshold)
  {
    var x, y := m as real, n as real;
    assert x * w <= y * w;
  }

  /** Once recommended, always recommended. */
  lemma MechanismPersists(es: seq<ArchiveEntry>, e: ArchiveEntry, rules: Rules, t: string)
    requires PositiveWeights(rules) && Mechanism(es, rules, t)
    ensures Mechanism(es + [e], rules, t)
  {
    RecurrenceSnoc(es, e, rules.Defs(), t);
    var a, b := RecurrenceKeys(es, rules.Defs(), t), RecurrenceKeys(es + [e], rules.Defs(), t);
    CardinalityMonotone(a, b);
    WeightIsPositive(rules.topics, t);
    ReachesMonotone(|a|, |b|, WeightOf(rules.topics, t), rules.threshold);
  }

  function ArchiveReviews(es: seq<ArchiveEntry>, rs: seq<Review>, stamp: Policy): seq<ArchiveEntry>
    decreases |rs|
  {
    if rs == [] then es else ArchiveReviews(ArchiveReview(es, rs[0], stamp), rs[1..], stamp)
  }

  /** In how many steps topic t is reported. */
  ghost function Reports(es: seq<ArchiveEntry>, rs: seq<Review>, stamp: Policy, rules: Rules, t: string): nat
    decreases |rs|
  {
    if rs == [] then 0
    else
      (if Reported(es, rs[0], rules, t) then 1 else 0)
      + Reports(ArchiveReview(es, rs[0], stamp), rs[1..], stamp, rules, t)
  }

  /** One step reports a topic exactly when that step's entry takes it across. */
  lemma ReportedMeansCrossing(es: seq<ArchiveEntry>, r: Review, stamp: Policy, rules: Rules, t: string)
    requires PositiveWeights(rules)
    ensures Reported(es, r, rules, t) <==> Mechanism(ArchiveReview(es, r, stamp), rules, t) && !Mechanism(es, rules, t)
    ensures Mechanism(es, rules, t) ==> Mechanism(ArchiveReview(es, r, stamp), rules, t)
  {
    if !AlreadyProcessed(es, r.sha) && !Unusable(r) {
      HypotheticalIsFaithful(es, r, stamp, rules, t);
      if Mechanism(es, rules, t) { MechanismPersists(es, BuildEntry(es, r, stamp), rules, t); }
    }
  }

  /** Under fixed rules, over any sequence of reviews, a topic is reported once
      if it crosses the threshold along the way and never otherwise. */
  lemma {:induction false} AnnouncedExactlyOnce(es: seq<ArchiveEntry>, rs: seq<Review>, stamp: Policy, rules: Rules,
                                                t: string)
    requires PositiveWeights(rules)
    ensures Reports(es, rs, stamp, rules, t) ==
            if Mechanism(ArchiveReviews(es, rs, stamp), rules, t) && !Mechanism(es, rules, t) then 1 else 0
    ensures Mechanism(es, rules, t) ==> Mechanism(ArchiveReviews(es, rs, stamp), rules, t)
    decreases |rs|
  {
    if rs != [] {
      ReportedMeansCrossing(es, rs[0], stamp, rules, t);
      AnnouncedExactlyOnce(ArchiveReview(es, rs[0], stamp), rs[1..], stamp, rules, t);
    }
  }

  lemma {:induction false} ProcessedStays(es: seq<ArchiveEntry>, between: seq<Review>, again: Review, stamp: Policy)
    requires AlreadyProcessed(es, again.sha)
    ensures var later := ArchiveReviews(es, between, stamp);
            && ArchiveReview(later, again, stamp) == later
            && forall rules, t :: !Reported(later, again, rules, t)
    decreases |between|
  {
    if between != [] {
      var next := ArchiveReview(es, between[0], stamp);
      var i :| 0 <= i < |es| && es[i].sourceSha == Some(again.sha);
      assert next[i] == es[i];
      ProcessedStays(next, between[1..], again, stamp);
    }
  }

  lemma ArchivedIsProcessed(es: seq<ArchiveEntry>, r: Review, stamp: Policy)
    requires !Unusable(r)
    ensures AlreadyProcessed(ArchiveReview(es, r, stamp), r.sha)
  {
    if !AlreadyProcessed(es, r.sha) {
      var after := ArchiveReview(es, r, stamp);
      assert after[|es|].sourceSha == Some(r.sha);
    }
  }

  /** A commit is archived once: after a usable review of it, and any other reviews
      since, whatever else is reviewed of that commit changes and reports nothing. */
  lemma ReprocessingChangesNothing(es: seq<ArchiveEntry>, r: Review, between: seq<Review>, again: Review, stamp: Policy)
    requires !Unusable(r) && again.sha == r.sha
    ensures var later := ArchiveReviews(ArchiveReview(es, r, stamp), between, stamp);
            && ArchiveReview(later, again, stamp) == later
            && forall rules, t :: !Reported(later, again, rules, t)
  {
    ArchivedIsProcessed(es, r, stamp);
    ProcessedStays(ArchiveReview(es, r, stamp), between, again, stamp);
  }

  /** What the script archives is a fresh entry for the replay: so replay is
      causal for it whenever its clock is not behind the archive. */
  lemma ArchivedEntryIsFresh(es: seq<ArchiveEntry>, r: Review, stamp: Policy)
    requires !AlreadyProcessed(es, r.sha)
    ensures FreshEntry(es, BuildEntry(es, r, stamp))
  {
    NewCommitIsFresh(es, r, stamp);
    var e := BuildEntry(es, r, stamp);
    assert forall k | k in EntryKeys(es) :: k in AllKeys(es);
    forall x | x in es && x.round.Some? ensures x.round.value < e.round.value { assert RoundOr0(x) <= Highest(es); }
  }

  /** One archiving step keeps every epoch measured before and adds one, under
      any policy and evidence, if and only if its clock is not behind the archive. */
  lemma ArchivingIsCausal(es: seq<ArchiveEntry>, r: Review, stamp: Policy, policy: Policy, evidence: Option<Evidence>)
    requires !AlreadyProcessed(es, r.sha) && !Unusable(r)
    ensures var before, after := Measure(es, policy, evidence).epochs,
            Measure(ArchiveReview(es, r, stamp), policy, evidence).epochs;
            && |after| == |before| + 1
            && (before <= after <==> NoneLaterThan(RoundsOf(es), r.now))
  {
    ArchivedEntryIsFresh(es, r, stamp);
    MeasurementIsCausal(es, BuildEntry(es, r, stamp), policy, evidence);
  }

  /** A mechanism is advised for a topic when the number of rounds that mention it, times
      its weight, reaches the threshold. */
  lemma MechanismIs(es: seq<ArchiveEntry>, rules: Rules, i: nat)
    requires DistinctNames(rules.topics) && i < |rules.topics|
    ensures var t, n := rules.topics[i], |Mentioning(es, Keywords(rules.topics), rules.topics[i].name)|;
            Mechanism(es, rules, t.name) <==> n > 0 && n as real * t.weight >= rules.threshold as real
  {
    MentioningIs(es, Keywords(rules.topics), rules.topics[i].name);
    WeightAt(rules.topics, i);
  }

  /** The rounds with a finding that counts as the topic. */
  ghost function Mentioning(es: seq<ArchiveEntry>, defs: seq<Definition>, t: string): set<RoundKey> {
    set e, f | e in es && f in e.findings && Classify(f, defs) == Some(t) :: KeyOf(e)
  }

  lemma MentioningIs(es: seq<ArchiveEntry>, defs: seq<Definition>, t: string)
    ensures RecurrenceKeys(es, defs, t) == Mentioning(es, defs, t)
  {
    forall k | k in RecurrenceKeys(es, defs, t) ensures k in Mentioning(es, defs, t) {
      var e :| e in es && Mentions(e, defs, t) && KeyOf(e) == k;
      var i :| 0 <= i < |e.findings| && Classify(e.findings[i], defs) == Some(t);
      assert e.findings[i] in e.findings;
    }
    forall k | k in Mentioning(es, defs, t) ensures k in RecurrenceKeys(es, defs, t) {
      var e, f :| e in es && f in e.findings && Classify(f, defs) == Some(t) && KeyOf(e) == k;
      var i :| 0 <= i < |e.findings| && e.findings[i] == f;
      assert Mentions(e, defs, t);
    }
  }

  lemma {:induction false} WeightAt(topics: seq<Topic>, i: nat)
    requires DistinctNames(topics) && i < |topics|
    ensures WeightOf(topics, topics[i].name) == topics[i].weight
  {
    if i > 0 {
      assert topics[0].name != topics[i].name;
      forall j, k | 0 <= j < k < |topics[1..]| ensures topics[1..][j].name != topics[1..][k].name {
        assert topics[j + 1].name != topics[k + 1].name;
      }
      WeightAt(topics[1..], i - 1);
    }
  }
}
