/** scripts/replay-policy-history.py: the part of the field evidence that came
    after a policy version, and so can judge it. */
module Replaying {
  import opened Text
  import opened Records
  import opened Sorting
  import opened Measuring
  import opened Definitions
  import opened TraceEvidence

  function Maximum(s: seq<int>): (m: int)
    requires s != []
    ensures m in s && forall x | x in s :: x <= m
  {
    assert s == [s[0]] + s[1..];
    if |s| == 1 then s[0] else var m := Maximum(s[1..]); if s[0] >= m then s[0] else m
  }

  /** All matches of the session are known. */
  predicate Placed(t: Trace) { t.timestamps.Some? && t.timestamps.value != [] }

  predicate AllPlaced(ts: seq<Trace>) { forall i | 0 <= i < |ts| :: Placed(ts[i]) }

  predicate SeenAfter(t: Trace, cutoff: int) { Placed(t) && Maximum(t.timestamps.value) > cutoff }

  function KeptAfter(ts: seq<Trace>, cutoff: int): seq<Trace> {
    Filter(ts, (t: Trace) => SeenAfter(t, cutoff))
  }

  function TopicsAfter(topics: map<string, seq<Trace>>, cutoff: int): map<string, seq<Trace>> {
    map n | n in topics && AllPlaced(topics[n]) :: KeptAfter(topics[n], cutoff)
  }

  /** Without a cut-off (the root version) everything is held out. */
  function EvidenceAfter(evidence: Option<Evidence>, cutoff: Option<int>): Option<Evidence> {
    if evidence.None? || cutoff.None? then evidence
    else
      var topics := TopicsAfter(evidence.value.topics, cutoff.value);
      Some(evidence.value.(topics := topics, sessions := set s | s in evidence.value.sessions && InSome(topics, s)))
  }

  predicate InSome(topics: map<string, seq<Trace>>, id: string) {
    exists n | n in topics :: HasEntry(topics[n], id)
  }

  method RestrictTopics(topics: map<string, seq<Trace>>, cutoff: int) returns (r: map<string, seq<Trace>>)
    ensures r == TopicsAfter(topics, cutoff)
  {
    r := map[];
    var rest := topics.Keys;
    while rest != {}
      invariant rest <= topics.Keys
      invariant r == map n | n in topics && n !in rest && AllPlaced(topics[n]) :: KeptAfter(topics[n], cutoff)
    {
      var n :| n in rest;
      rest := rest - {n};
      if AllPlaced(topics[n]) { r := r[n := KeptAfter(topics[n], cutoff)]; }
    }
  }

  // ---- what a historical count counts ----

  predicate ShownUpTo(f: Failure, words: seq<string>, cutoff: int) {
    exists o | o in Occurrences(f) :: Shows(o.text, words) && o.timestamp.Some? && o.timestamp.value <= cutoff
  }

  /** Some occurrence of the session showed the topic by the cut-off. */
  ghost predicate ShowedUpTo(shown: set<Failure>, words: seq<string>, cutoff: int) {
    exists f | f in shown :: ShownUpTo(f, words, cutoff)
  }

  lemma FirstMatchInTime(f: Failure, words: seq<string>, cutoff: int)
    requires FirstMatchTime(f, words).Some?
    ensures FirstMatchTime(f, words).value <= cutoff <==> ShownUpTo(f, words, cutoff)
  {
    FirstMatchMeans(f, words, FirstMatchTime(f, words).value);
  }

  lemma SeenMeansShowed(t: Trace, shown: set<Failure>, words: seq<string>, cutoff: int)
    requires IsSummary(t, shown, words) && t.timestamp.Some?
    ensures SeenBy(t, cutoff) <==> ShowedUpTo(shown, words, cutoff)
  {
    var e := t.timestamp.value;
    var first :| first in shown && FirstMatchTime(first, words) == t.timestamp;
    FirstMatchInTime(first, words, cutoff);
    forall f | f in shown
      ensures FirstMatchTime(f, words).Some? && e <= FirstMatchTime(f, words).value
      ensures FirstMatchTime(f, words).value <= cutoff <==> ShownUpTo(f, words, cutoff)
    {
      assert FirstMatchTime(f, words) in Times(shown, words);
      FirstMatchInTime(f, words, cutoff);
    }
  }

  lemma SeenSessions(ts: seq<Trace>, fs: seq<Failure>, words: seq<string>, cutoff: int)
    requires Summarizes(ts, fs, words) && AllDatedTraces(ts)
    ensures Filter(ts, SeenUntil(cutoff)) ==
            Filter(ts, (t: Trace) => ShowedUpTo(Showing(fs, t.id, words), words, cutoff))
  {
    forall t | t in ts ensures SeenBy(t, cutoff) <==> ShowedUpTo(Showing(fs, t.id, words), words, cutoff) {
      SeenMeansShowed(t, Showing(fs, t.id, words), words, cutoff);
    }
    FilterSame(ts, SeenUntil(cutoff), (t: Trace) => ShowedUpTo(Showing(fs, t.id, words), words, cutoff));
  }

  lemma CountOfTopic(ev: Evidence, topic: string, cutoff: int)
    requires topic in ev.topics && ev.definitions != []
    ensures CountAt(ev, topic, Some(cutoff), ev.definitions) ==
            if topic in ev.truncated || !AllDatedTraces(ev.topics[topic]) then None
            else Some(|Filter(ev.topics[topic], SeenUntil(cutoff))|)
  {
  }

  /** What a cut-off leaves of the topic searched as d: unknown when cut-off text or
      an undated first match hides it, and otherwise the number of its sessions with
      an occurrence that showed it by then. */
  ghost function ShownBy(ev: Evidence, fs: seq<Failure>, d: Definition, cutoff: int): Option<int>
    requires d.name in ev.topics
  {
    if d.name in ev.truncated || !AllDatedTraces(ev.topics[d.name]) then None
    else Some(|Filter(ev.topics[d.name], (t: Trace) => ShowedUpTo(Showing(fs, t.id, d.words), d.words, cutoff))|)
  }

  lemma SeenIsShown(ev: Evidence, fs: seq<Failure>, d: Definition, cutoff: int)
    requires d.name in ev.topics && Summarizes(ev.topics[d.name], fs, d.words)
    ensures ShownBy(ev, fs, d, cutoff) ==
            if d.name in ev.truncated || !AllDatedTraces(ev.topics[d.name]) then None
            else Some(|Filter(ev.topics[d.name], SeenUntil(cutoff))|)
  {
    if AllDatedTraces(ev.topics[d.name]) { SeenSessions(ev.topics[d.name], fs, d.words, cutoff); }
  }

  /** The key a topic's own words resolve to is one that was searched for just them. */
  lemma SearchedAs(defs: seq<Definition>, topic: string, words: seq<string>) returns (i: nat)
    requires DistinctKeys(defs) && '@' !in topic && words != [] && Recorded(defs, topic, words)
    ensures i < |defs| && BaseName(defs[i].name) == topic && defs[i].words == words
    ensures ResolveEvidenceKey(defs, topic, words) == Some(defs[i].name)
  {
    ResolvesExactly(defs, topic, words);
    var key := ResolveEvidenceKey(defs, topic, words).value;
    i :| 0 <= i < |defs| && defs[i].name == key;
    WordsOfKey(defs, i);
  }

  /** For every cut-off and every topic of a policy, whatever was searched: if no
      search was for the topic under just its words, its count is unknown; otherwise
      it is what the cut-off leaves of one that was, and of no other. */
  lemma HistoricalCount(ev: Evidence, fs: seq<Failure>, defs: seq<Definition>, complete: bool, scanned: set<string>,
                        policy: seq<Definition>, p: nat, cutoff: int)
    requires IsSnapshot(ev, fs, defs, complete, scanned) && DistinctKeys(defs) && !HasKey(defs, "")
    requires DistinctKeys(policy) && p < |policy| && PlainName(policy[p]) && policy[p].words != []
    ensures var t, count := policy[p], CountAt(ev, policy[p].name, Some(cutoff), policy);
            if Recorded(defs, t.name, t.words)
            then exists d | d in defs ::
                   && BaseName(d.name) == t.name && d.words == t.words
                   && d.name in ev.topics && count == ShownBy(ev, fs, d, cutoff)
            else count == None
  {
    var t := policy[p];
    WordsOfKey(policy, p);
    CountByKey(ev, t.name, policy, cutoff);
    if Recorded(defs, t.name, t.words) {
      var i := SearchedAs(defs, t.name, t.words);
      assert defs[i] in defs;
      SeenIsShown(ev, fs, defs[i], cutoff);
    } else {
      ResolvesExactly(defs, t.name, t.words);
      Unsearched(ev, fs, defs);
    }
  }

  ghost function CountOfKey(ev: Evidence, key: string, cutoff: int): Option<int> {
    if key !in ev.topics || key in ev.truncated || !AllDatedTraces(ev.topics[key]) then None
    else Some(|Filter(ev.topics[key], SeenUntil(cutoff))|)
  }

  lemma CountByKey(ev: Evidence, topic: string, policy: seq<Definition>, cutoff: int)
    ensures var key := ResolveEvidenceKey(ev.definitions, topic, WordsOf(policy, topic));
            CountAt(ev, topic, Some(cutoff), policy) == CountOfKey(ev, if key.Some? then key.value else "", cutoff)
  {
  }

  lemma Unsearched(ev: Evidence, fs: seq<Failure>, defs: seq<Definition>)
    requires AllSummarized(ev.topics, fs, defs) && !HasKey(defs, "")
    ensures "" !in ev.topics
  {
  }

  // ---- what the two windows of one snapshot see ----

  ghost predicate MatchedAfter(shown: set<Failure>, words: seq<string>, cutoff: int) {
    exists at :: at > cutoff && SomeMatchAt(shown, words, at)
  }

  /** A session counts after the cut-off exactly when it matched later, and none
      counts on neither side. */
  lemma WindowsOfOneSession(t: Trace, shown: set<Failure>, words: seq<string>, cutoff: int)
    requires IsSummary(t, shown, words) && Placed(t) && forall f | f in shown :: Mined(f)
    ensures SeenAfter(t, cutoff) <==> MatchedAfter(shown, words, cutoff)
    ensures SeenBy(t, cutoff) || SeenAfter(t, cutoff)
  {
    SummaryTimesAgree(t, shown, words);
    var v := t.timestamps.value;
    assert SomeMatchAt(shown, words, Minimum(v)) && SomeMatchAt(shown, words, Maximum(v));
    forall at | SomeMatchAt(shown, words, at) ensures Minimum(v) <= at <= Maximum(v) {
      assert at in v;
    }
  }

  lemma {:induction false} FiltersCover<T>(s: seq<T>, p: T -> bool, q: T -> bool)
    requires forall x | x in s :: p(x) || q(x)
    ensures |Filter(s, p)| + |Filter(s, q)| >= |s|
  {
    if s != [] { FiltersCover(s[1..], p, q); }
  }

  ghost predicate SummarizedTopic(ts: seq<Trace>, fs: seq<Failure>, words: seq<string>) {
    AllPlaced(ts) && Summarizes(ts, fs, words) && forall f | f in fs :: Mined(f)
  }

  /** Every entry of a topic list, against the failures of its session. */
  lemma WindowsOfTopic(ts: seq<Trace>, fs: seq<Failure>, words: seq<string>, cutoff: int)
    requires SummarizedTopic(ts, fs, words)
    ensures KeptAfter(ts, cutoff) == Filter(ts, (t: Trace) => MatchedAfter(Showing(fs, t.id, words), words, cutoff))
    ensures |Filter(ts, SeenUntil(cutoff))| + |KeptAfter(ts, cutoff)| >= |ts|
  {
    forall t | t in ts
      ensures SeenAfter(t, cutoff) <==> MatchedAfter(Showing(fs, t.id, words), words, cutoff)
      ensures SeenBy(t, cutoff) || SeenAfter(t, cutoff)
    {
      WindowsOfOneSession(t, Showing(fs, t.id, words), words, cutoff);
    }
    FilterSame(ts, (t: Trace) => SeenAfter(t, cutoff),
      (t: Trace) => MatchedAfter(Showing(fs, t.id, words), words, cutoff));
    FiltersCover(ts, SeenUntil(cutoff), (t: Trace) => SeenAfter(t, cutoff));
  }

  lemma PlacedIsDated(ts: seq<Trace>, fs: seq<Failure>, words: seq<string>)
    requires SummarizedTopic(ts, fs, words)
    ensures AllDatedTraces(ts)
  {
    forall i | 0 <= i < |ts| ensures ts[i].timestamp.Some? {
      SummaryTimesAgree(ts[i], Showing(fs, ts[i].id, words), words);
    }
  }

  lemma HeldTopic(ev: Evidence, topic: string, cutoff: int)
    requires topic in ev.topics
    ensures var held := EvidenceAfter(Some(ev), Some(cutoff)).value.topics;
            && (topic in held <==> AllPlaced(ev.topics[topic]))
            && (AllPlaced(ev.topics[topic]) ==> held[topic] == KeptAfter(ev.topics[topic], cutoff))
  {
  }

  lemma CountOfPlaced(ev: Evidence, fs: seq<Failure>, defs: seq<Definition>, complete: bool, scanned: set<string>,
                      i: nat, cutoff: int)
    requires IsSnapshot(ev, fs, defs, complete, scanned) && i < |defs| && AllDatedTraces(ev.topics[defs[i].name])
    ensures defs[i].name !in ev.truncated ==>
              CountAt(ev, defs[i].name, Some(cutoff), defs)
                == Some(|Filter(ev.topics[defs[i].name], SeenUntil(cutoff))|)
  {
    CountOfTopic(ev, defs[i].name, cutoff);
  }

  /** Of one snapshot and one cut-off, replay keeps a topic exactly when every match
      of it is placed in time, and then of it the sessions that matched after the
      cut-off. Together with those a measurement counts up to the cut-off they are
      all sessions of the topic. */
  lemma WindowsCover(ev: Evidence, fs: seq<Failure>, defs: seq<Definition>, complete: bool, scanned: set<string>,
                     i: nat, cutoff: int)
    requires IsSnapshot(ev, fs, defs, complete, scanned) && i < |defs| && forall f | f in fs :: Mined(f)
    ensures var d, ts := defs[i], ev.topics[defs[i].name];
            var held := EvidenceAfter(Some(ev), Some(cutoff)).value.topics;
            var before := CountAt(ev, d.name, Some(cutoff), defs);
            && (d.name in held <==> AllPlaced(ts))
            && (AllPlaced(ts) ==>
                  && held[d.name] == Filter(ts, (t: Trace) => MatchedAfter(Showing(fs, t.id, d.words), d.words, cutoff))
                  && (d.name in ev.truncated || (before.Some? && before.value + |held[d.name]| >= |ts|)))
  {
    var d, ts := defs[i], ev.topics[defs[i].name];
    HeldTopic(ev, d.name, cutoff);
    if AllPlaced(ts) {
      assert d in defs && SummarizedTopic(ts, fs, d.words);
      WindowsOfTopic(ts, fs, d.words, cutoff);
      PlacedIsDated(ts, fs, d.words);
      CountOfPlaced(ev, fs, defs, complete, scanned, i, cutoff);
    }
  }

  /** Of the sessions, replay keeps those that a kept topic still lists. */
  lemma HeldSessions(ev: Evidence, cutoff: int, s: string)
    ensures var held := EvidenceAfter(Some(ev), Some(cutoff)).value;
            && held.truncated == ev.truncated && held.definitions == ev.definitions
            && (s in held.sessions <==>
                  s in ev.sessions && exists n, t | n in held.topics && t in held.topics[n] :: t.id == s)
    ensures EvidenceAfter(Some(ev), None) == Some(ev)
  {
    var held := EvidenceAfter(Some(ev), Some(cutoff)).value;
    if s in held.sessions {
      var n :| n in held.topics && HasEntry(held.topics[n], s);
      var i :| 0 <= i < |held.topics[n]| && held.topics[n][i].id == s;
      assert held.topics[n][i] in held.topics[n];
    }
  }
}
