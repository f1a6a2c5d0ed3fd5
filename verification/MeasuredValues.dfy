/** What the numbers of a measurement mean (scripts/measure-policy-validity.py), told by
    counting entries, findings, rounds and sessions. */
module MeasuredValues {
  import opened Text
  import opened Records
  import opened Rounding
  import opened Sorting
  import opened Statistics
  import opened ImprovementPolicy
  import opened Rounds
  import opened Measuring
  import opened Definitions
  import opened TraceEvidence
  import opened SpearmanLaws
  import Archiving
  import Revising

  // ---- field counts ----

  /** Sessions with a failure that shows the topic. */
  ghost function SessionsShowing(fs: seq<Failure>, words: seq<string>): set<string> {
    set f | f in fs && Topical(f, words) :: f.traceId
  }

  function Ids(ts: seq<Trace>): set<string> { set t | t in ts :: t.id }

  lemma {:induction false} IdCount(ts: seq<Trace>)
    requires DistinctIds(ts)
    ensures |Ids(ts)| == |ts|
  {
    if ts != [] {
      IdCount(ts[1..]);
      assert ts == [ts[0]] + ts[1..];
      assert Ids(ts) == {ts[0].id} + Ids(ts[1..]);
      forall t | t in ts[1..] ensures t.id != ts[0].id {
        var i :| 0 <= i < |ts[1..]| && ts[1..][i] == t;
        assert ts[i + 1] == t;
      }
    }
  }

  lemma IdsAreSessions(ts: seq<Trace>, fs: seq<Failure>, words: seq<string>)
    requires Summarizes(ts, fs, words)
    ensures Ids(ts) == SessionsShowing(fs, words)
  {
    forall id | id in Ids(ts) ensures id in SessionsShowing(fs, words) {
      var i :| 0 <= i < |ts| && ts[i].id == id;
      assert IsSummary(ts[i], Showing(fs, id, words), words);
      var f :| f in Showing(fs, id, words);
    }
    forall id | id in SessionsShowing(fs, words) ensures id in Ids(ts) {
      var f :| f in fs && Topical(f, words) && f.traceId == id;
      assert f in Showing(fs, id, words);
      assert HasEntry(ts, id);
    }
  }

  lemma SessionCount(ts: seq<Trace>, fs: seq<Failure>, words: seq<string>)
    requires Summarizes(ts, fs, words)
    ensures |ts| == |SessionsShowing(fs, words)|
  {
    IdCount(ts);
    IdsAreSessions(ts, fs, words);
  }

  /** The field count of a definition: the number of sessions that show it, if it was
      searched and no cut-off text may hide it; otherwise unknown. */
  ghost predicate IsFieldCount(count: Option<int>, ev: Evidence, fs: seq<Failure>, t: Definition) {
    if Recorded(ev.definitions, t.name, t.words)
    then exists d | d in ev.definitions ::
           && Measuring.BaseName(d.name) == t.name && d.words == t.words
           && count == if d.name in ev.truncated then None else Some(|SessionsShowing(fs, t.words)|)
    else count == None
  }

  function Stored(ev: Evidence, key: string): Option<int> {
    if key !in ev.topics || key in ev.truncated then None else Some(|ev.topics[key]|)
  }

  function KeyFor(ev: Evidence, t: Definition): string {
    var key := ResolveEvidenceKey(ev.definitions, t.name, t.words);
    if key.Some? then key.value else ""
  }

  /** A snapshot whose dictionary of definitions is one. */
  ghost predicate Snapshot(ev: Evidence, fs: seq<Failure>, complete: bool, scanned: set<string>) {
    && IsSnapshot(ev, fs, ev.definitions, complete, scanned)
    && Definitions.DistinctKeys(ev.definitions) && !HasKey(ev.definitions, "")
  }

  lemma StoredIsFieldCount(ev: Evidence, fs: seq<Failure>, complete: bool, scanned: set<string>, t: Definition)
    requires Snapshot(ev, fs, complete, scanned) && PlainName(t) && t.words != []
    ensures IsFieldCount(Stored(ev, KeyFor(ev, t)), ev, fs, t)
  {
    var defs := ev.definitions;
    ResolvesExactly(defs, t.name, t.words);
    if Recorded(defs, t.name, t.words) {
      var key := ResolveEvidenceKey(defs, t.name, t.words).value;
      var i :| 0 <= i < |defs| && defs[i].name == key;
      WordsOfKey(defs, i);
      assert defs[i] in defs;
      SessionCount(ev.topics[key], fs, t.words);
    } else {
      assert "" !in NameSet(defs);
    }
  }

  lemma CountIsStored(ev: Evidence, topic: string, policy: seq<Definition>)
    ensures CountAt(ev, topic, None, policy) == Stored(ev, KeyFor(ev, Definition(topic, WordsOf(policy, topic))))
  {
  }

  /** Counted without a cut-off, a topic of a policy has the field count of its own
      definition. */
  lemma CurrentCount(ev: Evidence, fs: seq<Failure>, complete: bool, scanned: set<string>,
                     policy: seq<Definition>, p: nat)
    requires Snapshot(ev, fs, complete, scanned)
    requires Definitions.DistinctKeys(policy) && p < |policy| && PlainName(policy[p]) && policy[p].words != []
    ensures IsFieldCount(CountAt(ev, policy[p].name, None, policy), ev, fs, policy[p])
  {
    WordsOfKey(policy, p);
    CountIsStored(ev, policy[p].name, policy);
    StoredIsFieldCount(ev, fs, complete, scanned, policy[p]);
  }

  lemma TopicsAreDefinitions(policy: Policy, i: nat)
    requires ValidPolicy(policy) && i < |policy.topics|
    ensures var defs := Keywords(policy.topics);
            && Definitions.DistinctKeys(defs) && PlainName(defs[i]) && defs[i].words != []
            && Names(defs)[i] == policy.topics[i].name
  {
    var defs := Keywords(policy.topics);
    assert ValidTopic(policy.topics[i]);
    forall j, k | 0 <= j < k < |defs| ensures defs[j].name != defs[k].name {
      assert policy.topics[j].name != policy.topics[k].name;
    }
  }

  lemma ObservedIs(ev: Evidence, fs: seq<Failure>, complete: bool, scanned: set<string>)
    requires Snapshot(ev, fs, complete, scanned)
    ensures Observed(ev) <==> scanned != {} || fs != []
  {
    if fs != [] { assert fs[0] in fs && fs[0].traceId in ev.sessions; }
    forall k | k in ev.topics && fs == [] ensures ev.topics[k] == [] {
      var d :| d in ev.definitions && d.name == k;
      NothingToShow(ev.topics[k], d.words);
    }
  }

  lemma NothingToShow(ts: seq<Trace>, words: seq<string>)
    requires Summarizes(ts, [], words)
    ensures ts == []
  {
    SessionCount(ts, [], words);
    assert SessionsShowing([], words) == {};
  }

  lemma AnchorOfEpoch(rs: seq<Round>, topics: seq<Topic>, ev: Evidence)
    ensures CurrentOf(rs, topics, Some(ev)).epoch.anchor ==
            Some(AnchorCountsAt(ev, Names(Keywords(topics)), None, Keywords(topics)))
  {
  }

  /** The current epoch of a measurement has field counts exactly when some session was
      observed, and then that of every topic of the policy. */
  lemma CurrentAnchor(entries: seq<ArchiveEntry>, policy: Policy, ev: Evidence, fs: seq<Failure>, complete: bool,
                      scanned: set<string>, i: nat)
    requires Snapshot(ev, fs, complete, scanned) && ValidPolicy(policy) && i < |policy.topics|
    ensures var anchor := Measure(entries, policy, Some(ev)).current.epoch.anchor;
            && (anchor.Some? <==> scanned != {} || fs != [])
            && (anchor.Some? ==>
                  && policy.topics[i].name in anchor.value
                  && IsFieldCount(anchor.value[policy.topics[i].name], ev, fs, Keywords(policy.topics)[i]))
  {
    ObservedIs(ev, fs, complete, scanned);
    if Observed(ev) {
      AnchorOfEpoch(RoundsOf(entries), policy.topics, ev);
      TopicsAreDefinitions(policy, i);
      CurrentCount(ev, fs, complete, scanned, Keywords(policy.topics), i);
    }
  }

  // ---- what a candidate is judged on ----

  lemma CurrentEvidence(rs: seq<Round>, topics: seq<Topic>, ev: Evidence)
    ensures var c := CurrentOf(rs, topics, Some(ev));
            && c.epoch.anchor.Some? && c.anchorEvidence == Some(AnchorCountsOfAll(ev))
            && c.anchorDefinitions == ev.definitions
  {
  }

  lemma StoredInAll(ev: Evidence, fs: seq<Failure>, complete: bool, scanned: set<string>, key: string)
    requires Snapshot(ev, fs, complete, scanned)
    ensures Revising.Get(AnchorCountsOfAll(ev), key) == Stored(ev, key)
  {
    if key in ev.topics {
      var d :| d in ev.definitions && d.name == key;
      var i :| 0 <= i < |ev.definitions| && ev.definitions[i] == d;
      WordsOfKey(ev.definitions, i);
      CountIsStored(ev, key, ev.definitions);
    }
  }

  /** Some search was for a topic of this name. */
  predicate SearchedFor(ev: Evidence, name: string) { exists k | k in ev.topics :: Measuring.BaseName(k) == name }

  lemma ResolvedCount(current: Current, q: Policy, ev: Evidence, i: nat)
    requires current.epoch.anchor.Some? && current.anchorEvidence == Some(AnchorCountsOfAll(ev))
    requires current.anchorDefinitions == ev.definitions && ValidPolicy(q) && i < |q.topics|
    ensures var anchor, t := Revising.CandidateAnchor(current, q), Keywords(q.topics)[i];
            && anchor.Some? && (t.name in anchor.value <==> SearchedFor(ev, t.name))
            && (t.name in anchor.value ==>
                  var key := ResolveEvidenceKey(ev.definitions, t.name, t.words);
                  anchor.value[t.name] == if key.Some? then Revising.Get(AnchorCountsOfAll(ev), key.value) else None)
  {
    var own := Keywords(q.topics);
    assert ValidTopic(q.topics[i]) && own[i].name == q.topics[i].name;
    assert own[i].name in NameSet(own);
    Revising.OwnWords(q.topics, i);
    PlainIsOwnBase(own[i].name);
  }

  lemma PlainIsOwnBase(name: string)
    requires '@' !in name
    ensures Measuring.BaseName(name) == name
  {
    BaseOfPlain(name);
  }

  /** Whatever policy a measurement was taken under, each topic of a candidate has the
      field count of the candidate's own definition, if its name was searched at all. */
  lemma CandidateCounts(entries: seq<ArchiveEntry>, policy: Policy, ev: Evidence, fs: seq<Failure>, complete: bool,
                        scanned: set<string>, q: Policy, i: nat)
    requires Snapshot(ev, fs, complete, scanned) && (scanned != {} || fs != [])
    requires ValidPolicy(q) && i < |q.topics|
    ensures var anchor := Revising.CandidateAnchor(Measure(entries, policy, Some(ev)).current, q);
            var t := Keywords(q.topics)[i];
            && anchor.Some? && (t.name in anchor.value <==> SearchedFor(ev, t.name))
            && (t.name in anchor.value ==> IsFieldCount(anchor.value[t.name], ev, fs, t))
  {
    var m, t := Measure(entries, policy, Some(ev)), Keywords(q.topics)[i];
    ObservedIs(ev, fs, complete, scanned);
    CurrentEvidence(RoundsOf(entries), policy.topics, ev);
    ResolvedCount(m.current, q, ev, i);
    TopicsAreDefinitions(q, i);
    StoredIsFieldCount(ev, fs, complete, scanned, t);
    StoredInAll(ev, fs, complete, scanned, KeyFor(ev, t));
    assert ResolveEvidenceKey(ev.definitions, t.name, t.words).None? ==> !Recorded(ev.definitions, t.name, t.words) by {
      ResolvesExactly(ev.definitions, t.name, t.words);
    }
  }

  /** A plainly named search for a topic the candidate does not have keeps its own count. */
  lemma ForeignCounts(entries: seq<ArchiveEntry>, policy: Policy, ev: Evidence, fs: seq<Failure>, complete: bool,
                      scanned: set<string>, q: Policy, d: Definition)
    requires Snapshot(ev, fs, complete, scanned) && (scanned != {} || fs != [])
    requires d in ev.definitions && '@' !in d.name && d.name !in NameSet(Keywords(q.topics))
    ensures var anchor := Revising.CandidateAnchor(Measure(entries, policy, Some(ev)).current, q);
            && anchor.Some? && d.name in anchor.value
            && anchor.value[d.name] == if d.name in ev.truncated then None else Some(|SessionsShowing(fs, d.words)|)
  {
    ObservedIs(ev, fs, complete, scanned);
    CurrentEvidence(RoundsOf(entries), policy.topics, ev);
    ForeignCount(Measure(entries, policy, Some(ev)).current, q, ev, d.name);
    StoredInAll(ev, fs, complete, scanned, d.name);
    SessionCount(ev.topics[d.name], fs, d.words);
  }

  lemma ForeignCount(current: Current, q: Policy, ev: Evidence, name: string)
    requires current.epoch.anchor.Some? && current.anchorEvidence == Some(AnchorCountsOfAll(ev))
    requires name in ev.topics && '@' !in name && name !in NameSet(Keywords(q.topics))
    ensures var anchor := Revising.CandidateAnchor(current, q);
            anchor.Some? && name in anchor.value && anchor.value[name] == Revising.Get(AnchorCountsOfAll(ev), name)
  {
  }

  // ---- agreement ----

  /** ks lists, in any order, the names whose count is known. */
  ghost predicate ListsKnown(ks: seq<string>, names: seq<string>, anchor: Counts) {
    && (forall i, j | 0 <= i < j < |ks| :: ks[i] != ks[j])
    && forall k :: k in ks <==> k in names && k in anchor && anchor[k].Some?
  }

  function SignalsOf(ks: seq<string>, signal: map<string, real>): (r: seq<real>)
    ensures |r| == |ks|
  {
    seq(|ks|, i requires 0 <= i < |ks| => Look(signal, ks[i]))
  }

  function CountsOf(ks: seq<string>, anchor: Counts): (r: seq<real>)
    ensures |r| == |ks|
  {
    seq(|ks|, i requires 0 <= i < |ks| => CountOr0(anchor, ks[i]) as real)
  }

  lemma {:induction false} SameListing(a: seq<string>, b: seq<string>)
    requires (forall i, j | 0 <= i < j < |a| :: a[i] != a[j]) && (forall i, j | 0 <= i < j < |b| :: b[i] != b[j])
    requires forall k :: k in a <==> k in b
    ensures multiset(a) == multiset(b)
  {
    forall k ensures multiset(a)[k] == multiset(b)[k] {
      CountOfDistinct(a, k);
      CountOfDistinct(b, k);
    }
  }

  lemma {:induction false} CountOfDistinct(a: seq<string>, k: string)
    requires forall i, j | 0 <= i < j < |a| :: a[i] != a[j]
    ensures multiset(a)[k] == if k in a then 1 else 0
  {
    if a != [] {
      CountOfDistinct(a[1..], k);
      assert a == [a[0]] + a[1..];
      assert a[0] !in a[1..];
    }
  }

  lemma PairsConcat(a: seq<string>, b: seq<string>, signal: map<string, real>, anchor: Counts)
    ensures Zip(SignalsOf(a + b, signal), CountsOf(a + b, anchor)) ==
            Zip(SignalsOf(a, signal), CountsOf(a, anchor)) + Zip(SignalsOf(b, signal), CountsOf(b, anchor))
  {
  }

  lemma {:induction false} PairsPermute(a: seq<string>, b: seq<string>, signal: map<string, real>, anchor: Counts)
    requires multiset(a) == multiset(b)
    ensures |a| == |b|
    ensures multiset(Zip(SignalsOf(a, signal), CountsOf(a, anchor))) ==
            multiset(Zip(SignalsOf(b, signal), CountsOf(b, anchor)))
  {
    assert |multiset(a)| == |multiset(b)|;
    if a != [] {
      var k := DropFirst(a, b);
      var pre, post := b[..k], b[k + 1..];
      PairsPermute(a[1..], pre + post, signal, anchor);
      PairsConcat([a[0]], a[1..], signal, anchor); PairsConcat(pre, post, signal, anchor);
      PairsConcat(pre, [a[0]] + post, signal, anchor); PairsConcat([a[0]], post, signal, anchor);
      assert a == [a[0]] + a[1..] && b == pre + ([a[0]] + post);
    }
  }

  lemma KnownAreListed(names: seq<string>, anchor: Counts)
    requires forall i, j | 0 <= i < j < |names| :: names[i] != names[j]
    ensures ListsKnown(KnownTopics(names, anchor), names, anchor)
  {
    var keep := (t: string) => t in anchor && anchor[t].Some?;
    FilterDistinct(names, keep);
    forall k ensures k in KnownTopics(names, anchor) <==> k in names && k in anchor && anchor[k].Some? {
      FilterMember(names, keep, k);
    }
  }

  lemma {:induction false} FilterDistinct(names: seq<string>, keep: string -> bool)
    requires forall i, j | 0 <= i < j < |names| :: names[i] != names[j]
    ensures forall i, j | 0 <= i < j < |Filter(names, keep)| :: Filter(names, keep)[i] != Filter(names, keep)[j]
  {
    if names != [] {
      var rest := Filter(names[1..], keep);
      FilterDistinct(names[1..], keep);
      assert names[0] !in names[1..];
      FilterMember(names[1..], keep, names[0]);
      EmptyConcat(rest);
    }
  }

  /** Agreement is the score of the topics with a known count, listed in any order;
      topics whose count is unknown have no say. */
  lemma AgreementIs(names: seq<string>, signal: map<string, real>, anchor: Counts, ks: seq<string>)
    requires (forall i, j | 0 <= i < j < |names| :: names[i] != names[j]) && ListsKnown(ks, names, anchor)
    ensures Agreement(names, signal, anchor) == Spearman(SignalsOf(ks, signal), CountsOf(ks, anchor))
  {
    var known := KnownTopics(names, anchor);
    KnownAreListed(names, anchor);
    SameListing(known, ks);
    PairsPermute(known, ks, signal, anchor);
    SpearmanPermutes(SignalsOf(known, signal), CountsOf(known, anchor), SignalsOf(ks, signal), CountsOf(ks, anchor));
    assert Agreement(names, signal, anchor) == Spearman(SignalsOf(known, signal), CountsOf(known, anchor));
  }

  // ---- credits ----

  /** The rounds among these in which some finding is classified as the topic. */
  ghost function Crediting(rs: seq<Round>, defs: seq<Definition>, t: string): set<RoundKey> {
    set r, f | r in rs && f in r.findings && Classify(f, defs) == Some(t) :: r.key
  }

  lemma CreditingIs(rs: seq<Round>, defs: seq<Definition>, t: string)
    ensures DevKeys(rs, defs, t) == Crediting(rs, defs, t)
  {
    forall k | k in Crediting(rs, defs, t) ensures k in DevKeys(rs, defs, t) {
      var r, f :| r in rs && f in r.findings && Classify(f, defs) == Some(t) && r.key == k;
      var i :| 0 <= i < |r.findings| && r.findings[i] == f;
      assert Credits(r, defs, t);
    }
    forall k | k in DevKeys(rs, defs, t) ensures k in Crediting(rs, defs, t) {
      var r :| r in rs && Credits(r, defs, t) && r.key == k;
      var i :| 0 <= i < |r.findings| && Classify(r.findings[i], defs) == Some(t);
      assert r.findings[i] in r.findings;
    }
  }

  /** The signal of a topic is the credit of the number of rounds that mention it, at
      the topic's weight. */
  lemma SignalIs(rs: seq<Round>, topics: seq<Topic>, i: nat)
    requires DistinctNames(topics) && i < |topics|
    ensures var defs, t := Keywords(topics), topics[i];
            var signal := Weighted(topics, DevCounts(rs, defs));
            && signal.Keys == (set k | k in Names(defs)) && t.name in signal
            && signal[t.name] == Credit(|Crediting(rs, defs, t.name)|, t.weight)
  {
    Archiving.WeightAt(topics, i);
    CreditingIs(rs, Keywords(topics), topics[i].name);
    assert Names(Keywords(topics))[i] == topics[i].name;
  }

  /** Credit is the product of rounds and weight, rounded to four digits; at the weights
      a policy has, the rounding changes nothing. */
  lemma CreditIs(n: nat, w: real)
    ensures Credit(n, w) == Round4(n as real * w)
    ensures Revising.StandardWeight(w) ==> Credit(n, w) == n as real * w
  {
    if Revising.StandardWeight(w) { RoundsNothingOff(n, w); }
  }

  lemma RoundsNothingOff(n: nat, w: real)
    requires Revising.StandardWeight(w)
    ensures Round4(n as real * w) == n as real * w
  {
    assert n as real * w * 10000.0 == (n * (if w == 1.0 then 10000 else if w == 0.5 then 5000 else 2500)) as real;
    WholeStays(n * (if w == 1.0 then 10000 else if w == 0.5 then 5000 else 2500));
  }

  lemma WholeStays(k: int)
    ensures NearestInt(k as real) == k
  {
  }

  /** Round4 gives a nearest multiple of 1/10000, the even one of two. */
  lemma Round4IsNearest(x: real)
    ensures var k := NearestInt(x * 10000.0);
            && Round4(x) == k as real / 10000.0 && -0.5 <= x * 10000.0 - k as real <= 0.5
            && (x * 10000.0 - k as real == 0.5 || x * 10000.0 - k as real == -0.5 ==> k % 2 == 0)
  {
  }

  // ---- validity ----

  /** Rounds dated no later than the evidence was collected; all, without a date. */
  function SeenBefore(collected: Option<int>): Round -> bool {
    (r: Round) => collected.None? || (r.timestamp.Some? && r.timestamp.value <= collected.value)
  }

  /** The score, over any listing ks of the topics with a known count, of their signals
      in some rounds against their counts. */
  ghost function Score(rs: seq<Round>, topics: seq<Topic>, anchor: Counts, ks: seq<string>): Option<real> {
    Spearman(SignalsOf(ks, Weighted(topics, DevCounts(rs, Keywords(topics)))), CountsOf(ks, anchor))
  }

  lemma NamesDiffer(topics: seq<Topic>)
    requires DistinctNames(topics)
    ensures var names := Names(Keywords(topics)); forall i, j | 0 <= i < j < |names| :: names[i] != names[j]
  {
    var names := Names(Keywords(topics));
    forall i, j | 0 <= i < j < |names| ensures names[i] != names[j] { assert topics[i].name != topics[j].name; }
  }

  lemma EpochScore(rs: seq<Round>, topics: seq<Topic>, ev: Option<Evidence>, until: Option<int>, historical: bool,
                   ks: seq<string>)
    requires DistinctNames(topics) && EpochOf(rs, topics, ev, until, historical).anchor.Some?
    requires ListsKnown(ks, Names(Keywords(topics)), EpochOf(rs, topics, ev, until, historical).anchor.value)
    ensures var e := EpochOf(rs, topics, ev, until, historical);
            e.validity == Score(rs, topics, e.anchor.value, ks)
  {
    NamesDiffer(topics);
    var e := EpochOf(rs, topics, ev, until, historical);
    AgreementIs(Names(Keywords(topics)), Weighted(topics, DevCounts(rs, Keywords(topics))), e.anchor.value, ks);
  }

  lemma SeenRoundsAre(rs: seq<Round>, ms: int)
    ensures SeenRounds(rs, ms) == Filter(rs, SeenBefore(Some(ms)))
  {
    forall r | r in rs ensures SeenBefore(Some(ms))(r) <==> r.timestamp.Some? && r.timestamp.value <= ms { }
    FilterSame(rs, (r: Round) => r.timestamp.Some? && r.timestamp.value <= ms, SeenBefore(Some(ms)));
  }

  lemma SameAnchor(rs: seq<Round>, seen: seq<Round>, topics: seq<Topic>, ev: Evidence)
    ensures EpochOf(rs, topics, Some(ev), None, false).anchor == EpochOf(seen, topics, Some(ev), None, false).anchor
  {
  }

  lemma CurrentByEpochs(rs: seq<Round>, topics: seq<Topic>, ev: Evidence)
    ensures var seen := Filter(rs, SeenBefore(ev.collectedAt));
            var c, aligned := CurrentOf(rs, topics, Some(ev)), EpochOf(seen, topics, Some(ev), None, false);
            && c.epoch.anchor == aligned.anchor && c.epoch.validity == aligned.validity
            && c.epoch.devOnly == aligned.devOnly && c.roundsAfterEvidence == |rs| - |seen|
  {
    if ev.collectedAt.Some? {
      SeenRoundsAre(rs, ev.collectedAt.value);
      FilterShrinks(rs, SeenBefore(ev.collectedAt));
      SameAnchor(rs, SeenRounds(rs, ev.collectedAt.value), topics, ev);
    } else {
      FilterAll(rs, SeenBefore(None));
    }
  }

  lemma {:induction false} FilterShrinks<T>(s: seq<T>, keep: T -> bool)
    ensures |Filter(s, keep)| <= |s|
  {
    if s != [] { FilterShrinks(s[1..], keep); }
  }

  /** The current validity is the score of the rounds the evidence could have seen, and
      roundsAfterEvidence counts the others. */
  lemma CurrentValidity(entries: seq<ArchiveEntry>, policy: Policy, ev: Evidence, ks: seq<string>)
    requires ValidPolicy(policy) && Observed(ev)
    requires Measure(entries, policy, Some(ev)).current.epoch.anchor.Some?
    requires ListsKnown(ks, Names(Keywords(policy.topics)),
             Measure(entries, policy, Some(ev)).current.epoch.anchor.value)
    ensures var c, rs := Measure(entries, policy, Some(ev)).current, RoundsOf(entries);
            var seen := Filter(rs, SeenBefore(ev.collectedAt));
            && c.epoch.validity == Score(seen, policy.topics, c.epoch.anchor.value, ks)
            && c.roundsAfterEvidence == |rs| - |seen|
  {
    CurrentByEpochs(RoundsOf(entries), policy.topics, ev);
    EpochScore(Filter(RoundsOf(entries), SeenBefore(ev.collectedAt)), policy.topics, Some(ev), None, false, ks);
  }

  lemma DevOnlyIs(names: seq<string>, dev: map<string, nat>, anchor: Counts, t: string)
    ensures t in DevOnlyTopics(names, dev, anchor) <==>
            t in names && t in dev && dev[t] >= 2 && t in anchor && anchor[t] == Some(0)
    ensures Sorted(DevOnlyTopics(names, dev, anchor), (a: string, b: string) => StringLe(a, b))
  {
    var known := KnownTopics(names, anchor);
    var keep := (x: string) => x in dev && dev[x] >= 2 && CountOr0(anchor, x) == 0;
    var le := (a: string, b: string) => StringLe(a, b);
    FilterMember(names, (x: string) => x in anchor && anchor[x].Some?, t);
    FilterMember(known, keep, t);
    SortIsPermutation(Filter(known, keep), le);
    StringLeOrders();
    SortSorts(Filter(known, keep), le);
  }

  lemma StringLeOrders()
    ensures TotalPreorder((a: string, b: string) => StringLe(a, b))
  {
    forall a: string, b: string ensures StringLe(a, b) || StringLe(b, a) { LexTotal(Codes(a), Codes(b)); }
    forall a: string, b: string, c: string | StringLe(a, b) && StringLe(b, c) ensures StringLe(a, c) {
      LexTransitive(Codes(a), Codes(b), Codes(c));
    }
  }

  /** Dev-only are the topics credited in two of the seen rounds or more whose field
      count is known to be nought. */
  lemma CurrentDevOnly(entries: seq<ArchiveEntry>, policy: Policy, ev: Evidence, t: string)
    requires Observed(ev)
    ensures var c, rs, defs := Measure(entries, policy, Some(ev)).current, RoundsOf(entries), Keywords(policy.topics);
            && c.epoch.anchor.Some?
            && (t in c.epoch.devOnly <==>
                  && t in Names(defs) && t in c.epoch.anchor.value && c.epoch.anchor.value[t] == Some(0)
                  && |Crediting(Filter(rs, SeenBefore(ev.collectedAt)), defs, t)| >= 2)
  {
    var rs, defs := RoundsOf(entries), Keywords(policy.topics);
    var seen := Filter(rs, SeenBefore(ev.collectedAt));
    CurrentByEpochs(rs, policy.topics, ev);
    CreditingIs(seen, defs, t);
    DevOnlyIs(Names(defs), DevCounts(seen, defs), AnchorCountsAt(ev, Names(defs), None, defs), t);
    AnchorOfEpoch(seen, policy.topics, ev);
    DevOnlyOfEpoch(seen, policy.topics, ev);
  }

  lemma DevOnlyOfEpoch(rs: seq<Round>, topics: seq<Topic>, ev: Evidence)
    ensures var e, defs := EpochOf(rs, topics, Some(ev), None, false), Keywords(topics);
            && e.anchor == Some(AnchorCountsAt(ev, Names(defs), None, defs))
            && e.devOnly == DevOnlyTopics(Names(defs), DevCounts(rs, defs), e.anchor.value)
  {
  }

  // ---- coverage ----

  function ClassifiedBy(defs: seq<Definition>): string -> bool { (f: string) => Classify(f, defs).Some? }

  lemma {:induction false} ClassifiedCount(fs: seq<string>, defs: seq<Definition>)
    ensures CountClassified(fs, defs) == |Filter(fs, ClassifiedBy(defs))|
  {
    if fs != [] { ClassifiedCount(fs[1..], defs); }
  }

  /** Coverage is the rounded share of classified findings, and undefined without any. */
  lemma CoverageIs(entries: seq<ArchiveEntry>, policy: Policy)
    ensures var fs, defs := EntryFindings(entries), Keywords(policy.topics);
            CoverageOn(entries, policy) ==
              if fs == [] then None
              else Some(Round4(|Filter(fs, ClassifiedBy(defs))| as real / |fs| as real))
  {
    CoverageOfArchive(entries, policy);
    ClassifiedCount(EntryFindings(entries), Keywords(policy.topics));
  }

  // ---- what a policy is compared on ----

  lemma ValidityIs(policy: Policy, entries: seq<ArchiveEntry>, anchor: Counts, ks: seq<string>)
    requires ValidPolicy(policy) && ListsKnown(ks, Names(Keywords(policy.topics)), anchor)
    ensures Revising.ValidityUnder(policy, entries, Some(anchor)) == Score(RoundsOf(entries), policy.topics, anchor, ks)
  {
    NamesDiffer(policy.topics);
    AgreementIs(Names(Keywords(policy.topics)),
      Weighted(policy.topics, DevCounts(RoundsOf(entries), Keywords(policy.topics))),
                anchor, ks);
  }

  /** The entries a comparison uses belong to the rounds seen before collection. */
  lemma CoveredEntriesAre(entries: seq<ArchiveEntry>, m: Measurement, e: ArchiveEntry)
    ensures e in Revising.EntriesCovered(entries, m) <==>
            && e in entries
            && (m.collectedAt.None?
                || exists r | r in RoundsOf(entries) :: SeenBefore(m.collectedAt)(r) && r.key == KeyOf(e))
  {
    if m.collectedAt.Some? {
      var keys := Revising.CoveredKeys(entries, m.collectedAt.value);
      FilterMember(entries, (x: ArchiveEntry) => KeyOf(x) in keys, e);
    }
  }

  // ---- earlier epochs ----

  /** The rounds up to and including the i-th, in time order. */
  function UpToRound(entries: seq<ArchiveEntry>, i: nat): seq<Round>
    requires i < |RoundsOf(entries)|
  {
    RoundsOf(entries)[..i + 1]
  }

  /** What a topic was known to count in the field when the i-th round was replayed. */
  function CountThen(policy: Policy, ev: Evidence, r: Round, t: string): Option<int> {
    if r.timestamp.None? then None else CountAt(ev, t, r.timestamp, Keywords(policy.topics))
  }

  /** The epoch of a round is measured on the rounds replayed so far and on the field as
      it was at the round's time; before any time is known nothing of it is. */
  lemma EpochIs(entries: seq<ArchiveEntry>, policy: Policy, ev: Evidence, i: nat)
    requires Observed(ev) && i < |RoundsOf(entries)|
    ensures var m, rs, defs := Measure(entries, policy, Some(ev)), UpToRound(entries, i), Keywords(policy.topics);
            && |m.epochs| == |RoundsOf(entries)|
            && var e := m.epochs[i];
               && e.round == Some(rs[i].round) && e.timestamp == rs[i].timestamp
               && e.total == |Flatten(rs)| && e.classified == |Filter(Flatten(rs), ClassifiedBy(defs))|
               && (forall t | t in Names(defs) :: t in e.dev && e.dev[t] == |Crediting(rs, defs, t)|)
               && e.anchor == Some(map t | t in Names(defs) :: CountThen(policy, ev, rs[i], t))
  {
    var rs, defs := UpToRound(entries, i), Keywords(policy.topics);
    EpochAt(RoundsOf(entries), policy.topics, ev, i);
    EpochFields(rs, policy.topics, ev);
    ClassifiedCount(Flatten(rs), defs);
    DevCountsAre(rs, defs);
    AnchorThen(rs, policy, ev);
  }

  lemma DevCountsAre(rs: seq<Round>, defs: seq<Definition>)
    ensures forall t | t in Names(defs) ::
              t in DevCounts(rs, defs) && DevCounts(rs, defs)[t] == |Crediting(rs, defs, t)|
  {
    forall t | t in Names(defs) ensures t in DevCounts(rs, defs) && DevCounts(rs, defs)[t] == |Crediting(rs, defs, t)| {
      CreditingIs(rs, defs, t);
    }
  }

  lemma EpochAt(rs: seq<Round>, topics: seq<Topic>, ev: Evidence, i: nat)
    requires i < |rs|
    ensures Epochs(rs, topics, Some(ev))[i] == HistoricalEpoch(rs[..i + 1], topics, Some(ev))
  {
    EpochsAreHistorical(rs, topics, Some(ev));
    PrefixAt(rs, Historical(topics, Some(ev)), i);
  }

  lemma EpochFields(rs: seq<Round>, topics: seq<Topic>, ev: Evidence)
    requires rs != []
    ensures var e, r := HistoricalEpoch(rs, topics, Some(ev)), rs[|rs| - 1];
            && e.round == Some(r.round) && e.timestamp == r.timestamp && e.total == |Flatten(rs)|
            && e.classified == CountClassified(Flatten(rs), Keywords(topics))
              && e.dev == DevCounts(rs, Keywords(topics))
            && e.anchor == AnchorFor(Names(Keywords(topics)), Keywords(topics), Some(ev), r.timestamp, true)
  {
  }

  lemma AnchorThen(rs: seq<Round>, policy: Policy, ev: Evidence)
    requires rs != []
    ensures var defs, r := Keywords(policy.topics), rs[|rs| - 1];
            AnchorFor(Names(defs), defs, Some(ev), r.timestamp, true) ==
            Some(map t | t in Names(defs) :: CountThen(policy, ev, r, t))
  {
    var defs, r := Keywords(policy.topics), rs[|rs| - 1];
    var anchor := AnchorFor(Names(defs), defs, Some(ev), r.timestamp, true).value;
    var goal := map t | t in Names(defs) :: CountThen(policy, ev, r, t);
    if r.timestamp.None? {
      assert anchor == map t | t in Names(defs) :: None;
    } else {
      assert anchor == AnchorCountsAt(ev, Names(defs), r.timestamp, defs);
    }
    forall t | t in Names(defs) ensures t in anchor && anchor[t] == goal[t] { }
    assert anchor == goal;
  }
}
